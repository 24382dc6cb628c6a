/**
  `escapeLike` (`apps/api/src/lib/sql.ts`) against SQL's LIKE with backslash as the escape character
  (ISO/IEC 9075-2 section 8.5).
 */
module Like {

  /** The characters that mean something in a pattern. */
  predicate IsSpecial(c: char) { c == '\\' || c == '%' || c == '_' }

  /** `value.replace(/[\\%_]/g, (char) => `\\${char}`)`. */
  function EscapeLike(value: string): string {
    if value == "" then ""
    else (if IsSpecial(value[0]) then ['\\', value[0]] else [value[0]]) + EscapeLike(value[1..])
  }

  /** `text LIKE pattern`; a pattern that ends in a dangling escape matches nothing. */
  predicate Fits(pattern: string, text: string)
    decreases |pattern|, |text|
  {
    if pattern == "" then text == ""
    else if pattern[0] == '%' then
      Fits(pattern[1..], text) || (text != "" && Fits(pattern, text[1..]))
    else if pattern[0] == '_' then text != "" && Fits(pattern[1..], text[1..])
    else if pattern[0] == '\\' then
      |pattern| >= 2 && text != "" && text[0] == pattern[1] && Fits(pattern[2..], text[1..])
    else text != "" && text[0] == pattern[0] && Fits(pattern[1..], text[1..])
  }

  /** Every escape character escapes something. */
  predicate WellFormed(pattern: string) {
    if pattern == "" then true
    else if pattern[0] == '\\' then |pattern| >= 2 && WellFormed(pattern[2..])
    else WellFormed(pattern[1..])
  }

  /** A text split where the first part of a pattern ends. */
  ghost predicate Splits(p: string, q: string, text: string, k: nat) {
    k <= |text| && Fits(p, text[..k]) && Fits(q, text[k..])
  }

  /** The first element of `p` takes exactly one character, `c` among others. */
  predicate Takes(p: string, c: char)
    requires p != ""
  {
    if p[0] == '\\' then |p| >= 2 && c == p[1] else p[0] == '_' || c == p[0]
  }

  /** `p` after its first element. */
  function Rest(p: string): string
    requires p != "" && (p[0] == '\\' ==> |p| >= 2)
  {
    if p[0] == '\\' then p[2..] else p[1..]
  }

  /** Patterns compose: matching `p + q` is matching `p` and then `q`, if `p` has no dangling escape. */
  lemma {:induction false} MatchOfConcat(p: string, q: string, text: string)
    requires WellFormed(p)
    ensures Fits(p + q, text) <==> exists k: nat :: Splits(p, q, text, k)
    decreases |p|, |text|
  {
    if p == "" {
      assert p + q == q && text[0..] == text && text[..0] == "";
      assert Fits(q, text) ==> Splits(p, q, text, 0);
    } else if p[0] == '%' {
      PercentOfConcat(p, q, text);
    } else if text == "" {
      assert (p + q)[0] == p[0];
    } else {
      assert Rest(p + q) == Rest(p) + q && Takes(p + q, text[0]) == Takes(p, text[0]);
      MatchOfConcat(Rest(p), q, text[1..]);
      ShiftSplits(p, q, text);
    }
  }

  /** Where a pattern starts with one character, its splits are those of the rest, moved by one. */
  lemma ShiftSplits(p: string, q: string, text: string)
    requires text != "" && p != "" && p[0] != '%' && WellFormed(p)
    ensures (exists k: nat :: Splits(p, q, text, k)) <==>
            Takes(p, text[0]) && exists k: nat :: Splits(Rest(p), q, text[1..], k)
  {
    forall k: nat | Takes(p, text[0]) && Splits(Rest(p), q, text[1..], k) ensures Splits(p, q, text, k + 1) {
      assert text[..k + 1][1..] == text[1..][..k] && text[1..][k..] == text[k + 1..];
    }
    forall k: nat | Splits(p, q, text, k) ensures k > 0 && Takes(p, text[0]) && Splits(Rest(p), q, text[1..], k - 1) {
      if k > 0 { assert text[..k][1..] == text[1..][..k - 1] && text[1..][k - 1..] == text[k..]; }
    }
  }

  lemma {:induction false} PercentOfConcat(p: string, q: string, text: string)
    requires WellFormed(p) && p != "" && p[0] == '%'
    ensures Fits(p + q, text) <==> exists k: nat :: Splits(p, q, text, k)
    decreases |p|, |text|, 0
  {
    assert (p + q)[1..] == p[1..] + q;
    MatchOfConcat(p[1..], q, text);
    if text != "" { MatchOfConcat(p, q, text[1..]); }
    forall k: nat | Splits(p, q, text, k)
      ensures Splits(p[1..], q, text, k) || (text != "" && k > 0 && Splits(p, q, text[1..], k - 1))
    {
      if !Fits(p[1..], text[..k]) {
        assert text[..k][1..] == text[1..][..k - 1] && text[1..][k - 1..] == text[k..];
      }
    }
    forall k: nat | Splits(p[1..], q, text, k) ensures Splits(p, q, text, k) {}
    forall k: nat | text != "" && Splits(p, q, text[1..], k) ensures Splits(p, q, text, k + 1) {
      assert text[..k + 1][1..] == text[1..][..k] && text[1..][k..] == text[k + 1..];
    }
  }

  // ---- Escaped text --------------------------------------------------------------------------

  /** An escaped text matches itself and nothing else. */
  lemma {:induction false} EscapedMatchesItself(v: string, text: string)
    ensures WellFormed(EscapeLike(v))
    ensures Fits(EscapeLike(v), text) <==> text == v
  {
    if v != "" {
      var e, rest := EscapeLike(v), EscapeLike(v[1..]);
      EscapedMatchesItself(v[1..], if text == "" then text else text[1..]);
      assert e[if IsSpecial(v[0]) then 2 else 1..] == rest;
      assert text != "" && text[0] == v[0] && text[1..] == v[1..] ==> text == v;
    }
  }

  /** `v` stands at position `k` of the text. */
  predicate OccursAt(v: string, text: string, k: nat) { k + |v| <= |text| && text[k..k + |v|] == v }

  /** `v` stands at `k`, after a match of `p` and before a match of `q`. */
  predicate LiteralAt(p: string, v: string, q: string, text: string, k: nat) {
    OccursAt(v, text, k) && Fits(p, text[..k]) && Fits(q, text[k + |v|..])
  }

  /** At the front of a text, escaped text takes exactly itself. */
  lemma EscapedAtFront(v: string, q: string, text: string)
    ensures Fits(EscapeLike(v) + q, text) <==> OccursAt(v, text, 0) && Fits(q, text[|v|..])
  {
    hide Fits, EscapeLike, WellFormed;
    var e := EscapeLike(v);
    EscapedMatchesItself(v, text);
    MatchOfConcat(e, q, text);
    forall k: nat | k <= |text|
      ensures Splits(e, q, text, k) <==> text[..k] == v && Fits(q, text[k..])
    {
      EscapedMatchesItself(v, text[..k]);
    }
    if OccursAt(v, text, 0) && Fits(q, text[|v|..]) { assert Splits(e, q, text, |v|); }
  }

  /**
    Escaped text is literal: between a pattern `p` without a dangling escape and any pattern `q`, it
    matches exactly the occurrences of the text between a match of `p` and a match of `q`.
   */
  lemma EscapedTextIsLiteral(p: string, v: string, q: string, text: string)
    requires WellFormed(p)
    ensures Fits(p + EscapeLike(v) + q, text) <==> exists k: nat :: LiteralAt(p, v, q, text, k)
  {
    hide Fits, EscapeLike, WellFormed;
    var e := EscapeLike(v);
    assert p + e + q == p + (e + q);
    MatchOfConcat(p, e + q, text);
    forall k: nat ensures Splits(p, e + q, text, k) <==> LiteralAt(p, v, q, text, k) {
      if k <= |text| {
        EscapedAtFront(v, q, text[k..]);
        assert k + |v| <= |text| ==>
          text[k..][..|v|] == text[k..k + |v|] && text[k..][|v|..] == text[k + |v|..];
      }
    }
  }

  lemma {:induction false} PercentMatchesAll(text: string)
    ensures Fits("%", text)
  {
    if text == "" { assert Fits("%"[1..], text); } else { PercentMatchesAll(text[1..]); }
  }

  /** `%` + escaped text + `%` is "contains the text", whatever the text holds. */
  lemma ContainsSearch(v: string, text: string)
    ensures Fits("%" + EscapeLike(v) + "%", text) <==> exists k: nat :: OccursAt(v, text, k)
  {
    assert WellFormed("%") by { assert WellFormed("%"[1..]); }
    hide Fits, EscapeLike, WellFormed;
    EscapedTextIsLiteral("%", v, "%", text);
    forall k: nat ensures OccursAt(v, text, k) <==> LiteralAt("%", v, "%", text, k) {
      if k + |v| <= |text| {
        PercentMatchesAll(text[..k]);
        PercentMatchesAll(text[k + |v|..]);
      }
    }
  }

  // ---- ILIKE ---------------------------------------------------------------------------------

  /** A text with every character folded to one case, which may take several characters. */
  function Folded(fold: char -> string, s: string): string {
    if s == "" then "" else fold(s[0]) + Folded(fold, s[1..])
  }

  /** Folding case leaves the three special characters alone and makes no others. */
  ghost predicate KeepsSpecials(fold: char -> string) {
    forall c :: if IsSpecial(c) then fold(c) == [c] else NoSpecials(fold(c))
  }

  predicate NoSpecials(s: string) { forall i | 0 <= i < |s| :: !IsSpecial(s[i]) }

  lemma {:induction false} EscapeOfConcat(a: string, b: string)
    ensures EscapeLike(a + b) == EscapeLike(a) + EscapeLike(b)
  {
    if a == "" {
      assert a + b == b;
    } else {
      assert (a + b)[1..] == a[1..] + b;
      EscapeOfConcat(a[1..], b);
    }
  }

  lemma {:induction false} PlainTextNeedsNoEscape(s: string)
    requires NoSpecials(s)
    ensures EscapeLike(s) == s
  {
    if s != "" { PlainTextNeedsNoEscape(s[1..]); }
  }

  lemma {:induction false} FoldedOfConcat(fold: char -> string, a: string, b: string)
    ensures Folded(fold, a + b) == Folded(fold, a) + Folded(fold, b)
  {
    if a == "" {
      assert a + b == b;
    } else {
      assert (a + b)[1..] == a[1..] + b;
      FoldedOfConcat(fold, a[1..], b);
    }
  }

  lemma FoldedCharacter(fold: char -> string, c: char)
    requires KeepsSpecials(fold)
    ensures Folded(fold, EscapeLike([c])) == EscapeLike(fold(c))
  {
    assert IsSpecial('\\') && fold('\\') == "\\";
    if IsSpecial(c) {
      assert EscapeLike([c]) == ['\\', c] && ['\\', c][1..] == [c] && [c][1..] == "";
      assert Folded(fold, [c]) == fold(c);
      assert Folded(fold, ['\\', c]) == fold('\\') + Folded(fold, [c]);
      assert fold(c) == [c];
    } else {
      PlainTextNeedsNoEscape(fold(c));
      assert EscapeLike([c]) == [c] && [c][1..] == "";
      assert Folded(fold, [c]) == fold(c) + "";
    }
  }

  /** Escaping and folding commute. */
  lemma {:induction false} FoldedEscape(fold: char -> string, v: string)
    requires KeepsSpecials(fold)
    ensures Folded(fold, EscapeLike(v)) == EscapeLike(Folded(fold, v))
  {
    if v != "" {
      assert v == [v[0]] + v[1..];
      hide EscapeLike, KeepsSpecials;
      EscapeOfConcat([v[0]], v[1..]);
      FoldedOfConcat(fold, EscapeLike([v[0]]), EscapeLike(v[1..]));
      FoldedCharacter(fold, v[0]);
      FoldedEscape(fold, v[1..]);
      EscapeOfConcat(fold(v[0]), Folded(fold, v[1..]));
    }
  }

  /** The admin searches, `ILIKE '%' + escaped text + '%'`: "contains the text, whatever the case". */
  lemma ContainsSearchIgnoringCase(fold: char -> string, v: string, text: string)
    requires KeepsSpecials(fold)
    ensures Fits(Folded(fold, "%" + EscapeLike(v) + "%"), Folded(fold, text)) <==>
            exists k: nat :: OccursAt(Folded(fold, v), Folded(fold, text), k)
  {
    FoldedPercent(fold);
    hide EscapeLike, Folded, Fits;
    FoldedOfConcat(fold, "%" + EscapeLike(v), "%");
    FoldedOfConcat(fold, "%", EscapeLike(v));
    FoldedEscape(fold, v);
    ContainsSearch(Folded(fold, v), Folded(fold, text));
  }

  lemma FoldedPercent(fold: char -> string)
    requires KeepsSpecials(fold)
    ensures Folded(fold, "%") == "%"
  {
    assert IsSpecial('%') && "%"[1..] == "";
    assert Folded(fold, "%") == fold('%') + Folded(fold, "%"[1..]);
  }
}
