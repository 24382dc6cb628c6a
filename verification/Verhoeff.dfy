/**
  The Verhoeff checksum, written twice: `isVerhoeffValid` in `apps/api/src/lib/pii-guards.ts`, over
  nested tables and reversed digits, and `is_verhoeff_valid` in the migration
  `20260925100400-create-user-verifications.ts`, over flattened 1-based arrays and `substr`.
 */
module Verhoeff {
  import opened TextOrder

  // ---- The tables of the TypeScript code -----------------------------------------------------

  const D: seq<seq<int>> := [
    [0, 1, 2, 3, 4, 5, 6, 7, 8, 9],
    [1, 2, 3, 4, 0, 6, 7, 8, 9, 5],
    [2, 3, 4, 0, 1, 7, 8, 9, 5, 6],
    [3, 4, 0, 1, 2, 8, 9, 5, 6, 7],
    [4, 0, 1, 2, 3, 9, 5, 6, 7, 8],
    [5, 9, 8, 7, 6, 0, 4, 3, 2, 1],
    [6, 5, 9, 8, 7, 1, 0, 4, 3, 2],
    [7, 6, 5, 9, 8, 2, 1, 0, 4, 3],
    [8, 7, 6, 5, 9, 3, 2, 1, 0, 4],
    [9, 8, 7, 6, 5, 4, 3, 2, 1, 0]
  ]

  const P: seq<seq<int>> := [
    [0, 1, 2, 3, 4, 5, 6, 7, 8, 9],
    [1, 5, 7, 6, 2, 8, 3, 0, 9, 4],
    [5, 8, 0, 3, 7, 9, 6, 1, 4, 2],
    [8, 9, 1, 6, 0, 4, 3, 5, 2, 7],
    [9, 4, 5, 3, 1, 2, 6, 8, 7, 0],
    [4, 2, 8, 6, 5, 7, 3, 9, 0, 1],
    [2, 7, 9, 3, 8, 0, 6, 4, 1, 5],
    [7, 0, 4, 6, 9, 1, 3, 2, 5, 8]
  ]

  // ---- The group behind D --------------------------------------------------------------------

  /** A digit: 0 to 4 stand for the rotations of a pentagon, 5 to 9 for its reflections. */
  type Digit = d: int | 0 <= d < 10

  function Mod5(n: int): int
    requires -5 < n < 10
    ensures 0 <= Mod5(n) < 5
  {
    if n < 0 then n + 5 else if n >= 5 then n - 5 else n
  }

  /** Composition in the dihedral group of the pentagon. */
  function Compose(a: Digit, b: Digit): Digit {
    if a < 5 then
      if b < 5 then Mod5(a + b) else 5 + Mod5(a + b - 5)
    else
      if b < 5 then 5 + Mod5(a - 5 - b) else Mod5(a - b)
  }

  function Inverse(a: Digit): Digit { if a < 5 then Mod5(5 - a) else a }

  lemma Associative(a: Digit, b: Digit, c: Digit)
    ensures Compose(Compose(a, b), c) == Compose(a, Compose(b, c))
  {
    hide Compose;
    if a < 5 { RotationAssociates(a, b, c); } else { ReflectionAssociates(a, b, c); }
  }

  lemma RotationAssociates(a: Digit, b: Digit, c: Digit)
    requires a < 5
    ensures Compose(Compose(a, b), c) == Compose(a, Compose(b, c))
  {
    if b < 5 { assert Compose(a, b) < 5; } else { assert Compose(a, b) >= 5; }
  }

  lemma ReflectionAssociates(a: Digit, b: Digit, c: Digit)
    requires a >= 5
    ensures Compose(Compose(a, b), c) == Compose(a, Compose(b, c))
  {
    if b < 5 { assert Compose(a, b) >= 5; } else { assert Compose(a, b) < 5; }
  }

  lemma Identity(a: Digit)
    ensures Compose(0, a) == a == Compose(a, 0)
    ensures Compose(Inverse(a), a) == 0 == Compose(a, Inverse(a))
  {
  }

  lemma Cancellation(a: Digit, b: Digit, c: Digit)
    ensures Compose(c, a) == Compose(c, b) ==> a == b
    ensures Compose(a, c) == Compose(b, c) ==> a == b
  {
  }

  lemma RotationRow(a: Digit, b: Digit)
    requires a < 5
    ensures |D| == 10 && |D[a]| == 10 && D[a][b] == Compose(a, b)
  {
  }

  lemma ReflectionRow(a: Digit, b: Digit)
    requires a >= 5
    ensures |D| == 10 && |D[a]| == 10 && D[a][b] == Compose(a, b)
  {
  }

  /** Row `a`, column `b` of the table D is the composition of `a` and `b`. */
  lemma TableIsGroup(a: Digit, b: Digit)
    ensures |D| == 10 && |D[a]| == 10 && D[a][b] == Compose(a, b)
  {
    hide D, Compose;
    if a < 5 { RotationRow(a, b); } else { ReflectionRow(a, b); }
  }

  // ---- The permutation behind P --------------------------------------------------------------

  /** Row 1 of the table P. */
  function Sigma(x: Digit): Digit { [1, 5, 7, 6, 2, 8, 3, 0, 9, 4][x] }

  /** `Sigma` applied `i` times. */
  function Permute(i: nat, x: Digit): Digit { if i == 0 then x else Sigma(Permute(i - 1, x)) }

  lemma SigmaIsInjective(x: Digit, y: Digit)
    ensures Sigma(x) == Sigma(y) ==> x == y
  {
  }

  lemma RowStep(i: nat, x: Digit)
    requires i < 8
    ensures |P| == 8 && |P[i]| == 10 && 0 <= P[i][x] < 10
    ensures P[0][x] == x
    ensures P[if i < 7 then i + 1 else 0][x] == Sigma(P[i][x])
  {
  }

  /** Row `i` of P is the `i`-th power of row 1, and eight rows come back to the identity. */
  lemma {:induction false} TableIsPower(i: nat, x: Digit)
    ensures |P| == 8 && |P[i % 8]| == 10 && P[i % 8][x] == Permute(i, x)
  {
    if i == 0 {
      RowStep(0, x);
    } else {
      TableIsPower(i - 1, x);
      RowStep((i - 1) % 8, x);
      assert i % 8 == if (i - 1) % 8 < 7 then (i - 1) % 8 + 1 else 0;
    }
  }

  lemma {:induction false} PermuteIsInjective(i: nat, x: Digit, y: Digit)
    requires Permute(i, x) == Permute(i, y)
    ensures x == y
  {
    if i > 0 {
      SigmaIsInjective(Permute(i - 1, x), Permute(i - 1, y));
      PermuteIsInjective(i - 1, x, y);
    }
  }

  // ---- The checksum --------------------------------------------------------------------------

  function Value(c: char): Digit
    requires IsDigit(c)
  {
    (c - '0') as int
  }

  /**
    The checksum of a digit string: the product, from its last digit to its first, of the digits
    permuted by their distance `i` from the end.
   */
  function Checksum(s: string, i: nat): Digit
    requires AllDigits(s)
  {
    if s == "" then 0
    else Compose(Permute(i, Value(s[|s| - 1])), Checksum(s[..|s| - 1], i + 1))
  }

  /** A nonempty digit string whose checksum is the identity. */
  predicate Valid(digits: string) { digits != "" && AllDigits(digits) && Checksum(digits, 0) == 0 }

  /** Nothing but digits, and at least one, is ever valid; and some such texts are. */
  lemma OnlyDigitsAreValid(s: string)
    ensures Valid(s) ==> |s| >= 1 && forall i | 0 <= i < |s| :: '0' <= s[i] <= '9'
    ensures Valid("0")
  {
    if Valid(s) { assert forall i | 0 <= i < |s| :: IsDigit(s[i]); }
    assert "0"[..0] == "" && Checksum("0", 0) == Compose(Permute(0, 0), Checksum("", 1));
  }

  /** Multiplying the digits in one after the other, from `c`, as both programs do. */
  function Fold(c: Digit, s: string, i: nat): Digit
    requires AllDigits(s)
    decreases |s|
  {
    if s == "" then c else Fold(Compose(c, Permute(i, Value(s[|s| - 1]))), s[..|s| - 1], i + 1)
  }

  lemma {:induction false} FoldIsProduct(c: Digit, s: string, i: nat)
    requires AllDigits(s)
    ensures Fold(c, s, i) == Compose(c, Checksum(s, i))
    decreases |s|
  {
    hide Compose, Sigma;
    if s == "" {
      Identity(c);
    } else {
      var x, front := Permute(i, Value(s[|s| - 1])), s[..|s| - 1];
      FoldIsProduct(Compose(c, x), front, i + 1);
      Associative(c, x, Checksum(front, i + 1));
    }
  }

  /** `lookup`: a table read, or the error the code throws. */
  predicate InTable(table: seq<seq<int>>, row: int, column: int) {
    0 <= row < |table| && 0 <= column < |table[row]|
  }

  /** `isVerhoeffValid`. The assertions are the lookups: none is out of range. */
  method IsVerhoeffValid(digits: string) returns (valid: bool)
    ensures valid <==> Valid(digits)
  {
    hide Compose, Sigma;
    if digits == "" || !AllDigits(digits) { return false; }
    var checksum: int := 0;
    var reversed := seq(|digits|, i requires 0 <= i < |digits| => digits[|digits| - 1 - i]);
    assert digits[..|digits|] == digits;
    for index := 0 to |reversed|
      invariant 0 <= checksum < 10
      invariant Fold(checksum, digits[..|digits| - index], index) == Fold(0, digits, 0)
    {
      var digit := reversed[index];
      TableIsPower(index, Value(digit));
      assert InTable(P, index % 8, Value(digit));
      TableIsGroup(checksum, P[index % 8][Value(digit)]);
      assert InTable(D, checksum, P[index % 8][Value(digit)]);
      FoldStep(checksum, digits[..|digits| - index], index);
      checksum := D[checksum][P[index % 8][Value(digit)]];
      assert digits[..|digits| - index][..|digits| - index - 1] == digits[..|digits| - index - 1];
    }
    FoldIsProduct(0, digits, 0);
    Identity(Checksum(digits, 0));
    return checksum == 0;
  }

  lemma FoldStep(c: Digit, s: string, i: nat)
    requires AllDigits(s) && s != ""
    ensures Fold(c, s, i) == Fold(Compose(c, Permute(i, Value(s[|s| - 1]))), s[..|s| - 1], i + 1)
  {
  }

  // ---- What the checksum detects -------------------------------------------------------------

  lemma {:induction false} OneDigitMatters(s: string, k: nat, c: char, i: nat)
    requires AllDigits(s) && k < |s| && IsDigit(c) && c != s[k]
    ensures Checksum(s[k := c], i) != Checksum(s, i)
  {
    hide Compose, Sigma;
    var t, n := s[k := c], |s| - 1;
    if k == n {
      assert t[..n] == s[..n];
      if Permute(i, Value(c)) == Permute(i, Value(s[k])) { PermuteIsInjective(i, Value(c), Value(s[k])); }
      Cancellation(Permute(i, Value(c)), Permute(i, Value(s[k])), Checksum(s[..n], i + 1));
    } else {
      assert t[..n] == s[..n][k := c];
      OneDigitMatters(s[..n], k, c, i + 1);
      Cancellation(Checksum(t[..n], i + 1), Checksum(s[..n], i + 1), Permute(i, Value(s[n])));
    }
  }

  /** Mistyping any one digit of a valid string makes it invalid. */
  lemma DetectsSingleErrors(s: string, k: nat, c: char)
    requires Valid(s) && k < |s| && IsDigit(c) && c != s[k]
    ensures !Valid(s[k := c])
  {
    OneDigitMatters(s, k, c, 0);
  }

  lemma SigmaSeparates(x: Digit, y: Digit)
    ensures Compose(y, Sigma(x)) == Compose(x, Sigma(y)) ==> x == y
  {
  }

  lemma SwapSeparates(x: Digit, y: Digit, rest: Digit)
    requires x != y
    ensures Compose(y, Compose(Sigma(x), rest)) != Compose(x, Compose(Sigma(y), rest))
  {
    hide Compose, Sigma;
    Associative(y, Sigma(x), rest);
    Associative(x, Sigma(y), rest);
    SigmaSeparates(x, y);
    Cancellation(Compose(y, Sigma(x)), Compose(x, Sigma(y)), rest);
  }

  lemma LastTwo(u: string, a: char, b: char, i: nat)
    requires AllDigits(u) && IsDigit(a) && IsDigit(b)
    ensures Checksum(u + [a, b], i) ==
            Compose(Permute(i, Value(b)), Compose(Sigma(Permute(i, Value(a))), Checksum(u, i + 2)))
  {
    hide Compose, Sigma;
    var s := u + [a, b];
    assert s[..|s| - 1] == u + [a] && (u + [a])[..|u|] == u;
    assert Permute(i + 1, Value(a)) == Sigma(Permute(i, Value(a)));
  }

  lemma {:induction false} OrderMatters(u: string, a: char, b: char, v: string, i: nat)
    requires AllDigits(u) && IsDigit(a) && IsDigit(b) && AllDigits(v) && a != b
    ensures Checksum(u + [a, b] + v, i) != Checksum(u + [b, a] + v, i)
    decreases |v|
  {
    hide Compose, Sigma;
    if v == "" {
      var x, y := Permute(i, Value(a)), Permute(i, Value(b));
      assert u + [a, b] + v == u + [a, b] && u + [b, a] + v == u + [b, a];
      LastTwo(u, a, b, i);
      LastTwo(u, b, a, i);
      if x == y { PermuteIsInjective(i, Value(a), Value(b)); }
      SwapSeparates(x, y, Checksum(u, i + 2));
    } else {
      var front, last := v[..|v| - 1], v[|v| - 1];
      OrderMatters(u, a, b, front, i + 1);
      AppendDigit(u + [a, b], front, last, i);
      AppendDigit(u + [b, a], front, last, i);
      assert v == front + [last];
      Cancellation(Checksum(u + [a, b] + front, i + 1), Checksum(u + [b, a] + front, i + 1), Permute(i, Value(last)));
    }
  }

  lemma AppendDigit(s: string, v: string, c: char, i: nat)
    requires AllDigits(s) && AllDigits(v) && IsDigit(c)
    ensures Checksum(s + (v + [c]), i) == Compose(Permute(i, Value(c)), Checksum(s + v, i + 1))
  {
    hide Compose, Sigma;
    var t := s + (v + [c]);
    assert t[..|t| - 1] == s + v;
  }

  /** `s` with the characters at `k` and `k + 1` exchanged. */
  function Swapped(s: string, k: nat): string
    requires k + 1 < |s|
  {
    s[k := s[k + 1]][k + 1 := s[k]]
  }

  /** Exchanging any two different adjacent digits of a valid string makes it invalid. */
  lemma DetectsTranspositions(s: string, k: nat)
    requires Valid(s) && k + 1 < |s| && s[k] != s[k + 1]
    ensures !Valid(Swapped(s, k))
  {
    var u, a, b, v := s[..k], s[k], s[k + 1], s[k + 2..];
    assert s == u + [a, b] + v && Swapped(s, k) == u + [b, a] + v;
    OrderMatters(u, a, b, v, 0);
  }

  /** Every digit string, even the empty one, is completed by exactly one check digit. */
  lemma OneCheckDigit(s: string) returns (check: char)
    requires AllDigits(s)
    ensures IsDigit(check) && forall c | IsDigit(c) :: Valid(s + [c]) <==> c == check
  {
    hide Compose, Sigma;
    var x := Checksum(s, 1);
    check := '0' + Inverse(x) as char;
    forall c | IsDigit(c) ensures Valid(s + [c]) <==> c == check {
      assert (s + [c])[..|s|] == s && Checksum(s + [c], 0) == Compose(Value(c), x);
      Identity(x);
      Cancellation(Value(c), Inverse(x), x);
    }
  }

  // ---- The PL/pgSQL function -----------------------------------------------------------------

  /** The arrays `d` and `p`, line by line as they are written. Their first element has index 1. */
  const FLAT_D: seq<int> := FLAT_D1 + FLAT_D2 + FLAT_D3
  const FLAT_D1: seq<int> := [
    0, 1, 2, 3, 4, 5, 6, 7, 8, 9, 1, 2, 3, 4, 0, 6, 7, 8, 9, 5,
    2, 3, 4, 0, 1, 7, 8, 9, 5, 6, 3, 4, 0, 1, 2, 8, 9, 5, 6, 7
  ]
  const FLAT_D2: seq<int> := [
    4, 0, 1, 2, 3, 9, 5, 6, 7, 8, 5, 9, 8, 7, 6, 0, 4, 3, 2, 1,
    6, 5, 9, 8, 7, 1, 0, 4, 3, 2, 7, 6, 5, 9, 8, 2, 1, 0, 4, 3
  ]
  const FLAT_D3: seq<int> := [
    8, 7, 6, 5, 9, 3, 2, 1, 0, 4, 9, 8, 7, 6, 5, 4, 3, 2, 1, 0
  ]

  const FLAT_P: seq<int> := FLAT_P1 + FLAT_P2
  const FLAT_P1: seq<int> := [
    0, 1, 2, 3, 4, 5, 6, 7, 8, 9, 1, 5, 7, 6, 2, 8, 3, 0, 9, 4,
    5, 8, 0, 3, 7, 9, 6, 1, 4, 2, 8, 9, 1, 6, 0, 4, 3, 5, 2, 7
  ]
  const FLAT_P2: seq<int> := [
    9, 4, 5, 3, 1, 2, 6, 8, 7, 0, 4, 2, 8, 6, 5, 7, 3, 9, 0, 1,
    2, 7, 9, 3, 8, 0, 6, 4, 1, 5, 7, 0, 4, 6, 9, 1, 3, 2, 5, 8
  ]

  /** Element `i` of a PL/pgSQL array, counted from 1. */
  function At(a: seq<int>, i: int): int
    requires 1 <= i <= |a|
  {
    a[i - 1]
  }

  lemma FlatD1(a: Digit, b: Digit)
    requires a < 4
    ensures |FLAT_D1| == 40 && |D| == 10 && |D[a]| == 10 && FLAT_D1[a * 10 + b] == D[a][b]
  {
  }

  lemma FlatD2(a: Digit, b: Digit)
    requires 4 <= a < 8
    ensures |FLAT_D2| == 40 && |D| == 10 && |D[a]| == 10 && FLAT_D2[(a - 4) * 10 + b] == D[a][b]
  {
  }

  lemma FlatD3(a: Digit, b: Digit)
    requires 8 <= a
    ensures |FLAT_D3| == 20 && |D| == 10 && |D[a]| == 10 && FLAT_D3[(a - 8) * 10 + b] == D[a][b]
  {
  }

  lemma FlatP1(row: int, x: Digit)
    requires 0 <= row < 4
    ensures |FLAT_P1| == 40 && |P| == 8 && |P[row]| == 10 && FLAT_P1[row * 10 + x] == P[row][x]
  {
  }

  lemma FlatP2(row: int, x: Digit)
    requires 4 <= row < 8
    ensures |FLAT_P2| == 40 && |P| == 8 && |P[row]| == 10 && FLAT_P2[(row - 4) * 10 + x] == P[row][x]
  {
  }

  lemma FlatDRead(a: Digit, b: Digit)
    ensures |FLAT_D| == 100 && At(FLAT_D, a * 10 + b + 1) == Compose(a, b)
  {
    hide Compose, D, FLAT_D1, FLAT_D2, FLAT_D3;
    TableIsGroup(a, b);
    if a < 4 { FlatD1(a, b); } else if a < 8 { FlatD2(a, b); } else { FlatD3(a, b); }
    FlatD1(0, 0);
    FlatD2(4, 0);
    FlatD3(8, 0);
  }

  lemma FlatPRead(i: nat, x: Digit)
    ensures |FLAT_P| == 80 && At(FLAT_P, i % 8 * 10 + x + 1) == Permute(i, x)
  {
    hide Sigma, Permute, P, FLAT_P1, FLAT_P2;
    var row := i % 8;
    if row < 4 { FlatP1(row, x); } else { FlatP2(row, x); }
    FlatP1(0, 0);
    FlatP2(4, 0);
    TableIsPower(i, x);
  }

  /** `is_verhoeff_valid`. Every array read is in range, and the answer is the TypeScript one. */
  method IsVerhoeffValidSql(digits: string) returns (valid: bool)
    ensures valid <==> Valid(digits)
  {
    hide Compose, Sigma, FLAT_D, FLAT_P;
    var c: int := 0;
    var n := |digits|;
    if !AllDigits(digits) || digits == "" { return false; }
    assert digits[..n] == digits;
    for i := 0 to n
      invariant 0 <= c < 10
      invariant Fold(c, digits[..n - i], i) == Fold(0, digits, 0)
    {
      var digit := Value(digits[n - i - 1]);  // substr(digits, n - i, 1)::int
      FlatPRead(i, digit);
      FlatDRead(c, Permute(i, digit));
      FoldStep(c, digits[..n - i], i);
      assert digits[..n - i][..n - i - 1] == digits[..n - i - 1];
      c := At(FLAT_D, c * 10 + At(FLAT_P, i % 8 * 10 + digit + 1) + 1);
    }
    FoldIsProduct(0, digits, 0);
    Identity(Checksum(digits, 0));
    return c == 0;
  }
}
