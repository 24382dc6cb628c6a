/**
  Strings as the program compares and writes them: JavaScript's `<` on strings, and decimal
  numerals of a fixed width. Both the calendar (`YYYY-MM-DD`) and the UUID code compare texts
  where they mean numbers, so the facts that justify this are collected here.
 */
module TextOrder {

  /** `a < b` on strings: the first differing character decides, a proper prefix is smaller. */
  predicate Less(a: string, b: string) {
    if b == "" then false
    else if a == "" then true
    else if a[0] != b[0] then a[0] < b[0]
    else Less(a[1..], b[1..])
  }

  /** Parts of equal length are compared before what follows them. */
  lemma {:induction false} LessOfConcat(a: string, b: string, c: string, d: string)
    requires |a| == |b|
    ensures Less(a + c, b + d) <==> Less(a, b) || (a == b && Less(c, d))
  {
    if a == "" {
      assert a + c == c && b + d == d;
    } else {
      assert (a + c)[1..] == a[1..] + c && (b + d)[1..] == b[1..] + d;
      LessOfConcat(a[1..], b[1..], c, d);
      assert a == [a[0]] + a[1..] && b == [b[0]] + b[1..];
    }
  }

  /** Exactly one of `a < b`, `a == b`, `b < a` holds. */
  lemma {:induction false} Trichotomy(a: string, b: string)
    ensures !(Less(a, b) && Less(b, a))
    ensures Less(a, b) || Less(b, a) <==> a != b
  {
    if a != "" && b != "" && a[0] == b[0] {
      Trichotomy(a[1..], b[1..]);
      assert a == [a[0]] + a[1..] && b == [b[0]] + b[1..];
    }
  }

  predicate IsDigit(c: char) { '0' <= c <= '9' }

  predicate AllDigits(s: string) { forall i | 0 <= i < |s| :: IsDigit(s[i]) }

  /** The number a digit string denotes. */
  function Num(s: string): nat
    requires AllDigits(s)
  {
    if s == "" then 0
    else 10 * Num(s[..|s| - 1]) + (s[|s| - 1] - '0') as nat
  }

  function Pow10(w: nat): nat { if w == 0 then 1 else 10 * Pow10(w - 1) }

  /** `n` in exactly `w` digits, zero-padded (only the last `w` digits if it needs more). */
  function Digits(n: nat, w: nat): (s: string)
    ensures |s| == w && AllDigits(s)
  {
    if w == 0 then "" else Digits(n / 10, w - 1) + [(n % 10) as char + '0']
  }

  lemma {:induction false} NumBound(s: string)
    requires AllDigits(s)
    ensures Num(s) < Pow10(|s|)
  {
    if s != "" { NumBound(s[..|s| - 1]); }
  }

  /** Writing a number that fits and reading it back gives the number. */
  lemma {:induction false} NumOfDigits(n: nat, w: nat)
    requires n < Pow10(w)
    ensures Num(Digits(n, w)) == n
  {
    if w > 0 {
      NumOfDigits(n / 10, w - 1);
      var s := Digits(n, w);
      assert s[..w - 1] == Digits(n / 10, w - 1);
    }
  }

  /** Reading a numeral and writing it back gives the numeral. */
  lemma {:induction false} DigitsOfNum(s: string)
    requires AllDigits(s)
    ensures Digits(Num(s), |s|) == s
  {
    if s != "" {
      var t, c := s[..|s| - 1], s[|s| - 1];
      DigitsOfNum(t);
      assert Num(s) / 10 == Num(t) && Num(s) % 10 == (c - '0') as nat;
      assert s == t + [c];
    }
  }

  lemma LessOfOne(c: char, d: char)
    ensures Less([c], [d]) <==> c < d
  {
    assert [c][1..] == "" && [d][1..] == "";
  }

  /** On digit strings of one length, string order is numeric order. */
  lemma {:induction false} LessIsNumeric(a: string, b: string)
    requires |a| == |b| && AllDigits(a) && AllDigits(b)
    ensures Less(a, b) <==> Num(a) < Num(b)
    ensures a == b <==> Num(a) == Num(b)
  {
    if a != "" {
      var n := |a| - 1;
      var p, q := a[..n], b[..n];
      LessIsNumeric(p, q);
      assert a == p + [a[n]] && b == q + [b[n]];
      LessOfConcat(p, q, [a[n]], [b[n]]);
      LessOfOne(a[n], b[n]);
      assert Num(a) == 10 * Num(p) + (a[n] - '0') as nat && Num(b) == 10 * Num(q) + (b[n] - '0') as nat;
      hide Less, Num;
    }
  }
}
