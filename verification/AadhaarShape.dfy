/**
  What the pattern for Aadhaar-like numbers (`AADHAAR_SHAPED` in `apps/api/src/lib/pii-guards.ts`) matches,
  said by characters and positions alone.
 */
module AadhaarShape {
  import opened TextOrder
  import opened Verhoeff
  import opened Patterns
  import opened AadhaarScan

  /** `n` digits stand at `i`. */
  predicate DigitsAt(s: string, i: nat, n: nat) {
    i + n <= |s| && forall k | i <= k < i + n :: '0' <= s[k] <= '9'
  }

  /** One space or hyphen may stand between two groups. */
  function Gap(s: string, i: nat): nat {
    if i < |s| && (s[i] == ' ' || s[i] == '-') then 1 else 0
  }

  /** Where the second and the third group begin, and where the third ends. */
  function Second(s: string, i: nat): nat { i + 4 + Gap(s, i + 4) }
  function Third(s: string, i: nat): nat { Second(s, i) + 4 + Gap(s, Second(s, i) + 4) }
  function End(s: string, i: nat): nat { Third(s, i) + 4 }

  predicate LetterOrDigit(c: char) { '0' <= c <= '9' || 'A' <= c <= 'Z' || 'a' <= c <= 'z' }

  /** Three groups of four digits, with at most a separator between two. */
  predicate GroupsAt(s: string, i: nat) {
    && DigitsAt(s, i, 4) && '2' <= s[i]
    && DigitsAt(s, Second(s, i), 4) && DigitsAt(s, Third(s, i), 4)
  }

  /** A standalone number: no letter or digit stands right before or behind it. */
  predicate Standalone(s: string, i: nat) {
    && GroupsAt(s, i)
    && (i > 0 ==> !LetterOrDigit(s[i - 1]))
    && (End(s, i) < |s| ==> !LetterOrDigit(s[End(s, i)]))
  }

  /** Its three groups. */
  function Captures(s: string, i: nat): seq<string>
    requires GroupsAt(s, i)
  {
    [s[i..i + 4], s[Second(s, i)..Second(s, i) + 4], s[Third(s, i)..End(s, i)]]
  }

  /** Its twelve digits. */
  function Number(s: string, i: nat): string
    requires GroupsAt(s, i)
  {
    s[i..i + 4] + s[Second(s, i)..Second(s, i) + 4] + s[Third(s, i)..End(s, i)]
  }

  // ---- Character classes ---------------------------------------------------------------------

  lemma ClassesMean(c: char)
    ensures IsAlnum(c) <==> LetterOrDigit(c)
    ensures InRanges(c, DIGIT.ranges) <==> '0' <= c <= '9'
    ensures InRanges(c, LEADING.ranges) <==> '2' <= c <= '9'
    ensures InRanges(c, SEPARATOR.ranges) <==> c == ' ' || c == '-'
  {
    assert ALNUM[0] == ('0', '9') && ALNUM[1] == ('A', 'Z') && ALNUM[2] == ('a', 'z');
    assert DIGIT.ranges[0] == ('0', '9') && LEADING.ranges[0] == ('2', '9');
    assert SEPARATOR.ranges[0] == (' ', ' ') && SEPARATOR.ranges[1] == ('-', '-');
  }

  lemma SeparatorMeans(s: string, i: nat)
    requires i <= |s|
    ensures MatchesAt(SEPARATOR, s, i) != [] <==> i < |s| && (s[i] == ' ' || s[i] == '-')
  {
    if i < |s| {
      ClassesMean(s[i]);
      hide InRanges;
      assert MatchesAt(SEPARATOR, s, i) != [] <==> InRanges(s[i], SEPARATOR.ranges);
    }
  }

  // ---- One match continued by others ---------------------------------------------------------

  /** The matches with captures put in front. */
  function Prefixed(captures: seq<string>, ms: seq<Match>): seq<Match> {
    seq(|ms|, k requires 0 <= k < |ms| => Match(ms[k].end, captures + ms[k].captures))
  }

  lemma ThenPrefixed(a: Pattern, b: Pattern, s: string, i: nat, j: nat, captures: seq<string>)
    requires i <= |s| && MatchesAt(a, s, i) == [Match(j, captures)]
    ensures j <= |s| && MatchesAt(Then(a, b), s, i) == Prefixed(captures, MatchesAt(b, s, j))
  {
    var ms := MatchesAt(a, s, i);
    assert ms[0].end == j && ms[1..] == [];
    assert MatchesAt(Then(a, b), s, i) == Continue(ms, b, s, i);
    assert Continue([], b, s, i) == [];
  }

  lemma ThenNothing(a: Pattern, b: Pattern, s: string, i: nat)
    requires i <= |s| && MatchesAt(a, s, i) == []
    ensures MatchesAt(Then(a, b), s, i) == []
  {
  }

  lemma NothingPrefixed(ms: seq<Match>)
    ensures Prefixed([], ms) == ms
  {
    forall k | 0 <= k < |ms| ensures Prefixed([], ms)[k] == ms[k] { assert [] + ms[k].captures == ms[k].captures; }
  }

  // ---- Groups --------------------------------------------------------------------------------

  lemma DigitMeans(s: string, i: nat)
    requires i <= |s|
    ensures MatchesAt(DIGIT, s, i) == if DigitsAt(s, i, 1) then [Match(i + 1, [])] else []
    ensures MatchesAt(LEADING, s, i) == if DigitsAt(s, i, 1) && '2' <= s[i] then [Match(i + 1, [])] else []
  {
    if i < |s| {
      ClassesMean(s[i]);
      hide InRanges;
      assert DigitsAt(s, i, 1) <==> InRanges(s[i], DIGIT.ranges);
    }
  }

  lemma DigitsSplit(s: string, i: nat, n: nat)
    requires n > 0
    ensures DigitsAt(s, i, n) <==> DigitsAt(s, i, 1) && DigitsAt(s, i + 1, n - 1)
  {
  }

  /** One more digit in front. */
  lemma DigitThenMeans(rest: Pattern, s: string, i: nat, n: nat)
    requires i <= |s| && n > 0
    requires DigitsAt(s, i, 1) ==>
               i + 1 <= |s| && MatchesAt(rest, s, i + 1) == if DigitsAt(s, i + 1, n - 1) then [Match(i + n, [])] else []
    ensures MatchesAt(Then(DIGIT, rest), s, i) == if DigitsAt(s, i, n) then [Match(i + n, [])] else []
  {
    hide MatchesAt, DIGIT, DigitsAt, Prefixed;
    DigitMeans(s, i);
    DigitsSplit(s, i, n);
    if DigitsAt(s, i, 1) {
      ThenPrefixed(DIGIT, rest, s, i, i + 1, []);
      NothingPrefixed(MatchesAt(rest, s, i + 1));
    } else {
      ThenNothing(DIGIT, rest, s, i);
    }
  }

  lemma NoDigitsMean(s: string, i: nat)
    requires i <= |s|
    ensures MatchesAt(Repeat(DIGIT, 0), s, i) == [Match(i, [])] && DigitsAt(s, i, 0)
  {
  }

  lemma RepeatUnfolds(s: string, i: nat, n: nat)
    requires n > 0
    ensures Repeat(DIGIT, n) == Then(DIGIT, Repeat(DIGIT, n - 1)) && (DigitsAt(s, i, 1) ==> i + 1 <= |s|)
  {
    hide MatchesAt, DIGIT;
  }

  lemma {:induction false} RepeatMeans(s: string, i: nat, n: nat)
    requires i <= |s|
    ensures MatchesAt(Repeat(DIGIT, n), s, i) == if DigitsAt(s, i, n) then [Match(i + n, [])] else []
    decreases n
  {
    hide *;
    if n == 0 {
      NoDigitsMean(s, i);
    } else {
      RepeatUnfolds(s, i, n);
      if DigitsAt(s, i, 1) { RepeatMeans(s, i + 1, n - 1); }
      DigitThenMeans(Repeat(DIGIT, n - 1), s, i, n);
    }
  }

  lemma GroupMeans(p: Pattern, s: string, i: nat, j: nat)
    requires i <= |s|
    requires MatchesAt(p, s, i) == [] || (i <= j <= |s| && MatchesAt(p, s, i) == [Match(j, [])])
    ensures MatchesAt(Group(p), s, i) ==
            if MatchesAt(p, s, i) == [] then [] else [Match(j, [s[i..j]])]
  {
    if MatchesAt(p, s, i) != [] { GroupOne(p, s, i, j); }
  }

  lemma FourMeans(tail: Pattern, s: string, i: nat)
    requires i <= |s|
    ensures MatchesAt(Then(Group(Repeat(DIGIT, 4)), tail), s, i) ==
            if DigitsAt(s, i, 4) then Prefixed([s[i..i + 4]], MatchesAt(tail, s, i + 4)) else []
  {
    hide MatchesAt, Repeat, DIGIT, Prefixed;
    var four := Repeat(DIGIT, 4);
    RepeatMeans(s, i, 4);
    GroupMeans(four, s, i, i + 4);
    if DigitsAt(s, i, 4) {
      ThenPrefixed(Group(four), tail, s, i, i + 4, [s[i..i + 4]]);
    } else {
      ThenNothing(Group(four), tail, s, i);
    }
  }

  /** A further group, behind a separator if there is one. */
  lemma GroupedMeans(tail: Pattern, s: string, i: nat)
    requires i <= |s|
    ensures
      var p := i + Gap(s, i);
      MatchesAt(Grouped(tail), s, i) ==
      if DigitsAt(s, p, 4) then Prefixed([s[p..p + 4]], MatchesAt(tail, s, p + 4)) else []
  {
    var rest := Then(Group(Repeat(DIGIT, 4)), tail);
    assert Grouped(tail) == Then(Maybe(SEPARATOR), rest);
    hide MatchesAt, Repeat, DIGIT, SEPARATOR, Prefixed;
    MaybeSeparator(rest, s, i);
    SeparatorMeans(s, i);
    FourMeans(tail, s, i);
    if Gap(s, i) == 1 {
      FourMeans(tail, s, i + 1);
      assert !DigitsAt(s, i, 4);
    }
  }

  lemma LeadMeans(s: string, i: nat)
    requires i <= |s|
    ensures MatchesAt(Group(Then(LEADING, Repeat(DIGIT, 3))), s, i) ==
            if DigitsAt(s, i, 4) && '2' <= s[i] then [Match(i + 4, [s[i..i + 4]])] else []
  {
    hide MatchesAt, Repeat, DIGIT, LEADING;
    var three := Repeat(DIGIT, 3);
    DigitMeans(s, i);
    if DigitsAt(s, i, 1) && '2' <= s[i] {
      RepeatMeans(s, i + 1, 3);
      ThenPrefixed(LEADING, three, s, i, i + 1, []);
      NothingPrefixed(MatchesAt(three, s, i + 1));
      assert DigitsAt(s, i, 4) <==> DigitsAt(s, i + 1, 3);
    } else {
      ThenNothing(LEADING, three, s, i);
    }
    GroupMeans(Then(LEADING, three), s, i, i + 4);
  }

  lemma TailMeans(s: string, e: nat)
    requires e <= |s|
    ensures MatchesAt(NOT_ALNUM_AHEAD, s, e) == if e < |s| && LetterOrDigit(s[e]) then [] else [Match(e, [])]
  {
    if e < |s| {
      ClassesMean(s[e]);
      hide InRanges;
      assert MatchesAt(Chars(ALNUM, false), s, e) != [] <==> IsAlnum(s[e]);
    }
  }

  predicate FreeAt(s: string, e: nat) { e < |s| ==> !LetterOrDigit(s[e]) }

  lemma PrefixedOne(c: string, m: Match)
    ensures Prefixed([c], [m]) == [Match(m.end, [c] + m.captures)] && Prefixed([c], []) == []
  {
  }

  /** The last group, from the end of the one before. */
  lemma LastMeans(s: string, i: nat)
    requires i <= |s|
    ensures
      var p := i + Gap(s, i);
      MatchesAt(Grouped(NOT_ALNUM_AHEAD), s, i) ==
      if DigitsAt(s, p, 4) && FreeAt(s, p + 4) then [Match(p + 4, [s[p..p + 4]])] else []
  {
    hide MatchesAt, Grouped, NOT_ALNUM_AHEAD, Prefixed, LetterOrDigit;
    var p := i + Gap(s, i);
    GroupedMeans(NOT_ALNUM_AHEAD, s, i);
    if DigitsAt(s, p, 4) {
      TailMeans(s, p + 4);
      PrefixedOne(s[p..p + 4], Match(p + 4, []));
      assert [s[p..p + 4]] + [] == [s[p..p + 4]];
    }
  }

  /** The last two groups, from the end of the first. */
  lemma LastTwoMean(s: string, i: nat)
    requires i + 4 <= |s|
    ensures
      var p, q, e := Second(s, i), Third(s, i), End(s, i);
      MatchesAt(Grouped(Grouped(NOT_ALNUM_AHEAD)), s, i + 4) ==
      if DigitsAt(s, p, 4) && DigitsAt(s, q, 4) && FreeAt(s, e)
      then [Match(e, [s[p..p + 4], s[q..e]])] else []
  {
    hide MatchesAt, Grouped, NOT_ALNUM_AHEAD, Prefixed, FreeAt, Gap;
    var p, q := Second(s, i), Third(s, i);
    GroupedMeans(Grouped(NOT_ALNUM_AHEAD), s, i + 4);
    if DigitsAt(s, p, 4) {
      LastMeans(s, p + 4);
      PrefixedOne(s[p..p + 4], Match(q + 4, if DigitsAt(s, q, 4) then [s[q..q + 4]] else []));
      assert DigitsAt(s, q, 4) ==> [s[p..p + 4]] + [s[q..q + 4]] == [s[p..p + 4], s[q..q + 4]];
    }
  }

  lemma GroupsUnfold(s: string, i: nat)
    requires i <= |s|
    ensures Groups(s, i) ==
            MatchesAt(Then(Group(Then(LEADING, Repeat(DIGIT, 3))), Grouped(Grouped(NOT_ALNUM_AHEAD))), s, i)
  {
    hide MatchesAt;
  }

  /** The digit groups match at `i` in one way, which is read off the text. */
  lemma GroupsMean(s: string, i: nat)
    requires i <= |s|
    ensures Groups(s, i) ==
            if GroupsAt(s, i) && FreeAt(s, End(s, i)) then [Match(End(s, i), Captures(s, i))] else []
  {
    hide MatchesAt, Grouped, Repeat, DIGIT, LEADING, NOT_ALNUM_AHEAD, Groups;
    hide Prefixed, FreeAt, Second, Third, End;
    var lead, rest := Group(Then(LEADING, Repeat(DIGIT, 3))), Grouped(Grouped(NOT_ALNUM_AHEAD));
    GroupsUnfold(s, i);
    LeadMeans(s, i);
    if DigitsAt(s, i, 4) && '2' <= s[i] {
      ThenPrefixed(lead, rest, s, i, i + 4, [s[i..i + 4]]);
      LastTwoMean(s, i);
      FirstOfThree(s, i);
    } else {
      ThenNothing(lead, rest, s, i);
    }
  }

  lemma FirstOfThree(s: string, i: nat)
    requires DigitsAt(s, i, 4)
    ensures Prefixed([s[i..i + 4]], []) == []
    ensures GroupsAt(s, i) ==>
              var p, q, e := Second(s, i), Third(s, i), End(s, i);
              Prefixed([s[i..i + 4]], [Match(e, [s[p..p + 4], s[q..e]])]) == [Match(e, Captures(s, i))]
  {
    hide Prefixed, Gap;
    PrefixedOne(s[i..i + 4], Match(0, []));
    if GroupsAt(s, i) {
      var p, q, e := Second(s, i), Third(s, i), End(s, i);
      PrefixedOne(s[i..i + 4], Match(e, [s[p..p + 4], s[q..e]]));
      assert [s[i..i + 4]] + [s[p..p + 4], s[q..e]] == Captures(s, i);
    }
  }

  /** The pattern matches exactly the standalone numbers, and captures their groups. */
  lemma PatternMeans(s: string, i: nat)
    requires i <= |s|
    ensures MatchesAt(AADHAAR_SHAPED, s, i) == if Standalone(s, i) then [Match(End(s, i), Captures(s, i))] else []
  {
    hide MatchesAt, Groups, AADHAAR_SHAPED, IsAlnum, LetterOrDigit, GroupsAt, End;
    LookbehindAt(s, i);
    GroupsMean(s, i);
    if i > 0 { ClassesMean(s[i - 1]); }
  }
}
