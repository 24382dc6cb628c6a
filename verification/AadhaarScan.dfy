/**
  Finding Aadhaar-like numbers in text: `containsAadhaarLikeNumber` (`apps/api/src/lib/pii-guards.ts`)
  looks behind the digits, `contains_aadhaar_like_number` (the `create-user-verifications`
  migration) consumes the separator before them.
 */
module AadhaarScan {
  import opened TextOrder
  import opened Verhoeff
  import opened Patterns

  const ALNUM := [('0', '9'), ('A', 'Z'), ('a', 'z')]
  const DIGIT := Chars([('0', '9')], false)
  const LEADING := Chars([('2', '9')], false)
  const SEPARATOR := Chars([(' ', ' '), ('-', '-')], false)

  /** `p{n}`. */
  function Repeat(p: Pattern, n: nat): Pattern { if n == 0 then Empty else Then(p, Repeat(p, n - 1)) }

  /** `([2-9]\d{3})[ -]?(\d{4})[ -]?(\d{4})`, then `tail`. */
  function Numbers(tail: Pattern): Pattern {
    Then(Group(Then(LEADING, Repeat(DIGIT, 3))), Grouped(Grouped(tail)))
  }

  /** `[ -]?(\d{4})`, then `tail`. */
  function Grouped(tail: Pattern): Pattern {
    Then(Maybe(SEPARATOR), Then(Group(Repeat(DIGIT, 4)), tail))
  }

  /** `(?![0-9A-Za-z])` and `(?=[^0-9A-Za-z]|$)`. */
  const NOT_ALNUM_AHEAD := NotAhead(Chars(ALNUM, false))
  const OTHER_OR_END_AHEAD := Ahead(Or(Chars(ALNUM, true), AtEnd))

  /** `AADHAAR_SHAPED`. */
  const AADHAAR_SHAPED := Then(NotBehind(ALNUM), Numbers(NOT_ALNUM_AHEAD))

  /** The pattern of the SQL function. */
  const AADHAAR_SHAPED_SQL := Then(Or(AtStart, Chars(ALNUM, true)), Numbers(OTHER_OR_END_AHEAD))

  // ---- Properties of the digit groups --------------------------------------------------------

  ghost predicate StartsWithDigit(p: Pattern, s: string) {
    forall i: nat | i <= |s| && MatchesAt(p, s, i) != [] :: i < |s| && IsDigit(s[i])
  }

  ghost predicate EndsWithDigit(p: Pattern, s: string) {
    forall i: nat, m | i <= |s| && m in MatchesAt(p, s, i) :: i < m.end && IsDigit(s[m.end - 1])
  }

  ghost predicate ZeroWidth(p: Pattern, s: string) {
    forall i: nat, m | i <= |s| && m in MatchesAt(p, s, i) :: m.end == i
  }

  lemma StartsThen(a: Pattern, b: Pattern, s: string)
    requires StartsWithDigit(a, s)
    ensures StartsWithDigit(Then(a, b), s)
  {
    hide IsDigit, InRanges, MatchesAt;
    forall i: nat | i <= |s| && MatchesAt(Then(a, b), s, i) != [] ensures i < |s| && IsDigit(s[i]) {
      var m, n := ThenMember(a, b, s, i, MatchesAt(Then(a, b), s, i)[0]);
    }
  }

  lemma EndsThen(a: Pattern, b: Pattern, s: string)
    requires EndsWithDigit(b, s) || (EndsWithDigit(a, s) && ZeroWidth(b, s))
    ensures EndsWithDigit(Then(a, b), s)
  {
    hide IsDigit, InRanges, MatchesAt;
    forall i: nat, r | i <= |s| && r in MatchesAt(Then(a, b), s, i) ensures i < r.end && IsDigit(s[r.end - 1]) {
      var m, n := ThenMember(a, b, s, i, r);
    }
  }

  lemma DigitClasses(s: string)
    ensures StartsWithDigit(DIGIT, s) && EndsWithDigit(DIGIT, s) && Deterministic(DIGIT, s)
    ensures StartsWithDigit(LEADING, s) && EndsWithDigit(LEADING, s) && Deterministic(LEADING, s)
  {
  }

  lemma {:induction false} RepeatedDigits(n: nat, s: string)
    ensures Deterministic(Repeat(DIGIT, n), s)
    ensures n > 0 ==> StartsWithDigit(Repeat(DIGIT, n), s) && EndsWithDigit(Repeat(DIGIT, n), s)
  {
    if n > 0 {
      DigitClasses(s);
      RepeatedDigits(n - 1, s);
      DeterministicThen(DIGIT, Repeat(DIGIT, n - 1), s);
      StartsThen(DIGIT, Repeat(DIGIT, n - 1), s);
      assert n == 1 ==> ZeroWidth(Repeat(DIGIT, n - 1), s);
      EndsThen(DIGIT, Repeat(DIGIT, n - 1), s);
    }
  }

  lemma GroupKeeps(p: Pattern, s: string)
    requires Deterministic(p, s) && StartsWithDigit(p, s) && EndsWithDigit(p, s)
    ensures Deterministic(Group(p), s) && StartsWithDigit(Group(p), s) && EndsWithDigit(Group(p), s)
  {
    hide IsDigit, InRanges;
    GroupEnds(p, s);
    forall i: nat | i <= |s| ensures |MatchesAt(Group(p), s, i)| == |MatchesAt(p, s, i)| {}
  }

  lemma GroupEnds(p: Pattern, s: string)
    requires EndsWithDigit(p, s)
    ensures EndsWithDigit(Group(p), s)
  {
    hide IsDigit, MatchesAt;
    forall i: nat, r | i <= |s| && r in MatchesAt(Group(p), s, i) ensures i < r.end && IsDigit(s[r.end - 1]) {
      var m := GroupMember(p, s, i, r);
    }
  }

  lemma SeparatorAt(s: string, i: nat)
    requires i <= |s|
    ensures MatchesAt(SEPARATOR, s, i) == [] || (MatchesAt(SEPARATOR, s, i) == [Match(i + 1, [])] && !IsDigit(s[i]))
  {
  }

  lemma MaybeUnfolds(a: Pattern, b: Pattern, s: string, i: nat)
    requires i <= |s|
    ensures MatchesAt(Then(Maybe(a), b), s, i) == Continue(MatchesAt(a, s, i) + [Match(i, [])], b, s, i)
  {
    hide Continue;
  }

  lemma MaybeSeparator(p: Pattern, s: string, i: nat)
    requires i <= |s|
    ensures MatchesAt(Then(Maybe(SEPARATOR), p), s, i) ==
            if MatchesAt(SEPARATOR, s, i) == [] then MatchesAt(p, s, i) else MatchesAt(p, s, i + 1) + MatchesAt(p, s, i)
  {
    hide Continue, MatchesAt, SEPARATOR;
    SeparatorAt(s, i);
    MaybeUnfolds(SEPARATOR, p, s, i);
    if MatchesAt(SEPARATOR, s, i) == [] {
      assert [] + [Match(i, [])] == [Match(i, [])];
      ContinueAlone(p, s, i, i);
    } else {
      assert MatchesAt(SEPARATOR, s, i)[0].end == i + 1;
      assert [Match(i + 1, [])] + [Match(i, [])] == [Match(i + 1, []), Match(i, [])];
      ContinueBoth(p, s, i, i + 1, i);
    }
  }

  /** An optional separator before digits is taken exactly when it is there: never a choice. */
  lemma SeparatorIsNoChoice(p: Pattern, s: string)
    requires Deterministic(p, s) && StartsWithDigit(p, s)
    ensures Deterministic(Then(Maybe(SEPARATOR), p), s)
  {
    hide IsDigit, MatchesAt;
    forall i: nat | i <= |s| ensures |MatchesAt(Then(Maybe(SEPARATOR), p), s, i)| <= 1 {
      MaybeSeparator(p, s, i);
      SeparatorAt(s, i);
      if MatchesAt(SEPARATOR, s, i) == [] {
        assert |MatchesAt(p, s, i)| <= 1;
      } else {
        assert MatchesAt(SEPARATOR, s, i)[0].end == i + 1;
        assert i + 1 <= |s|;
        assert MatchesAt(p, s, i) == [];
        assert |MatchesAt(p, s, i + 1)| <= 1;
      }
    }
  }

  lemma GroupedDigits(tail: Pattern, s: string)
    requires Deterministic(tail, s) && (EndsWithDigit(tail, s) || ZeroWidth(tail, s))
    ensures Deterministic(Grouped(tail), s) && EndsWithDigit(Grouped(tail), s)
  {
    hide IsDigit, InRanges, MatchesAt, Deterministic, StartsWithDigit, EndsWithDigit, Repeat;
    var four := Group(Repeat(DIGIT, 4));
    RepeatedDigits(4, s);
    GroupKeeps(Repeat(DIGIT, 4), s);
    DeterministicThen(four, tail, s);
    StartsThen(four, tail, s);
    EndsThen(four, tail, s);
    SeparatorIsNoChoice(Then(four, tail), s);
    EndsThen(Maybe(SEPARATOR), Then(four, tail), s);
  }

  /** The three groups match in at most one way, from a digit to a digit. */
  lemma NumbersAreDigits(tail: Pattern, s: string)
    requires Deterministic(tail, s) && ZeroWidth(tail, s)
    ensures Deterministic(Numbers(tail), s) && StartsWithDigit(Numbers(tail), s) && EndsWithDigit(Numbers(tail), s)
  {
    hide IsDigit, InRanges, MatchesAt, Deterministic, StartsWithDigit, EndsWithDigit, Repeat;
    var lead := Then(LEADING, Repeat(DIGIT, 3));
    DigitClasses(s);
    RepeatedDigits(3, s);
    DeterministicThen(LEADING, Repeat(DIGIT, 3), s);
    StartsThen(LEADING, Repeat(DIGIT, 3), s);
    EndsThen(LEADING, Repeat(DIGIT, 3), s);
    GroupKeeps(lead, s);
    GroupedDigits(tail, s);
    GroupedDigits(Grouped(tail), s);
    DeterministicThen(Group(lead), Grouped(Grouped(tail)), s);
    StartsThen(Group(lead), Grouped(Grouped(tail)), s);
    EndsThen(Group(lead), Grouped(Grouped(tail)), s);
  }

  // ---- The two scans -------------------------------------------------------------------------

  predicate IsAlnum(c: char) { InRanges(c, ALNUM) }

  lemma AlnumDigits(c: char)
    ensures IsDigit(c) ==> IsAlnum(c)
  {
    assert ALNUM[0] == ('0', '9');
  }

  /** "Not followed by a letter or digit" and "followed by another character or the end". */
  lemma TailsAgree(s: string)
    ensures Same(NOT_ALNUM_AHEAD, OTHER_OR_END_AHEAD, s)
    ensures Deterministic(NOT_ALNUM_AHEAD, s) && ZeroWidth(NOT_ALNUM_AHEAD, s)
  {
    forall i: nat | i <= |s| ensures MatchesAt(NOT_ALNUM_AHEAD, s, i) == MatchesAt(OTHER_OR_END_AHEAD, s, i) {
      assert MatchesAt(Chars(ALNUM, true), s, i) == [] <==> i == |s| || IsAlnum(s[i]);
      assert MatchesAt(Chars(ALNUM, false), s, i) == [] <==> !(i < |s| && IsAlnum(s[i]));
    }
  }

  lemma NumbersAgree(s: string)
    ensures Same(Numbers(NOT_ALNUM_AHEAD), Numbers(OTHER_OR_END_AHEAD), s)
  {
    var t, u, four := NOT_ALNUM_AHEAD, OTHER_OR_END_AHEAD, Group(Repeat(DIGIT, 4));
    TailsAgree(s);
    SameThen(four, t, u, s);
    SameThen(Maybe(SEPARATOR), Then(four, t), Then(four, u), s);
    SameThen(four, Grouped(t), Grouped(u), s);
    SameThen(Maybe(SEPARATOR), Then(four, Grouped(t)), Then(four, Grouped(u)), s);
    SameThen(Group(Then(LEADING, Repeat(DIGIT, 3))), Grouped(Grouped(t)), Grouped(Grouped(u)), s);
  }

  /** The digit groups at position `i`, whatever stands before them. */
  function Groups(s: string, i: nat): seq<Match>
    requires i <= |s|
  {
    MatchesAt(Numbers(NOT_ALNUM_AHEAD), s, i)
  }

  lemma GroupsShape(s: string, i: nat)
    requires i <= |s|
    ensures |Groups(s, i)| <= 1
    ensures Groups(s, i) != [] ==>
              var e := Groups(s, i)[0].end; i < e <= |s| && IsAlnum(s[e - 1]) && IsAlnum(s[i])
  {
    TailsAgree(s);
    NumbersAreDigits(NOT_ALNUM_AHEAD, s);
    if Groups(s, i) != [] {
      var m := Groups(s, i)[0];
      assert m in Groups(s, i);
      AlnumDigits(s[m.end - 1]);
      AlnumDigits(s[i]);
    }
  }

  /** What the TypeScript pattern matches at `i`. */
  lemma LookbehindAt(s: string, i: nat)
    requires i <= |s|
    ensures MatchesAt(AADHAAR_SHAPED, s, i) == if i > 0 && IsAlnum(s[i - 1]) then [] else Groups(s, i)
  {
    ThenAfter(NotBehind(ALNUM), Numbers(NOT_ALNUM_AHEAD), s, i);
  }

  /** What the SQL pattern matches at `p`: the groups after the separator, or at the very start. */
  lemma SeparatorAtStart(s: string, p: nat)
    requires p <= |s|
    ensures MatchesAt(AADHAAR_SHAPED_SQL, s, p) ==
            if p < |s| && !IsAlnum(s[p]) then Groups(s, p + 1) else if p == 0 then Groups(s, 0) else []
  {
    hide InRanges;
    var before, body := Or(AtStart, Chars(ALNUM, true)), Numbers(OTHER_OR_END_AHEAD);
    NumbersAgree(s);
    ThenAfter(before, body, s, p);
    if p == 0 && p < |s| && !IsAlnum(s[p]) {
      assert MatchesAt(before, s, p) == [Match(0, []), Match(1, [])];
      GroupsShape(s, 0);
      ContinueBoth(body, s, p, 0, 1);
    } else {
      assert p < |s| && !IsAlnum(s[p]) ==> MatchesAt(before, s, p) == [Match(p + 1, [])];
      assert !(p < |s| && !IsAlnum(s[p])) ==> MatchesAt(before, s, p) == if p == 0 then [Match(0, [])] else [];
    }
  }

  function ScanTs(s: string, i: nat): seq<seq<string>> { Scan(Backtracking, AADHAAR_SHAPED, s, i) }

  function ScanSql(s: string, i: nat): seq<seq<string>> { Scan(Longest, AADHAAR_SHAPED_SQL, s, i) }

  /** Right behind a letter or digit the TypeScript scan moves on by one. */
  lemma NothingBehindAlnum(s: string, i: nat)
    requires 0 < i <= |s| && IsAlnum(s[i - 1])
    ensures ScanTs(s, i) == ScanTs(s, i + 1)
  {
    LookbehindAt(s, i);
  }

  /** The SQL scan, one position behind, sees what the TypeScript scan sees. */
  lemma {:induction false} ScansInStep(s: string, i: nat)
    requires 0 < i <= |s| + 1 && (i == 1 ==> s != "" && !IsAlnum(s[0]))
    ensures ScanTs(s, i) == ScanSql(s, i - 1)
    decreases |s| + 1 - i
  {
    hide MatchesAt, InRanges;
    SeparatorAtStart(s, i - 1);
    if i <= |s| {
      LookbehindAt(s, i);
      if MatchesAt(AADHAAR_SHAPED, s, i) == [] {
        ScansInStep(s, i + 1);
      } else {
        GroupsShape(s, i);
        var e := Groups(s, i)[0].end;
        NothingBehindAlnum(s, e);
        ScansInStep(s, e + 1);
      }
    } else {
      assert ScanSql(s, i) == [];
    }
  }

  /** Both programs find the same numbers, in the same order, in every string. */
  lemma ScansAgree(s: string)
    ensures ScanTs(s, 0) == ScanSql(s, 0)
  {
    hide MatchesAt, InRanges;
    LookbehindAt(s, 0);
    SeparatorAtStart(s, 0);
    GroupsShape(s, 0);
    if s != "" && !IsAlnum(s[0]) {
      ScansInStep(s, 1);
    } else if Groups(s, 0) != [] {
      var e := Groups(s, 0)[0].end;
      NothingBehindAlnum(s, e);
      ScansInStep(s, e + 1);
    } else if s != "" {
      NothingBehindAlnum(s, 1);
      ScansInStep(s, 2);
    } else {
      assert ScanTs(s, 1) == [] && ScanSql(s, 1) == [];
    }
  }

  // ---- The two functions ---------------------------------------------------------------------

  /** A capture, or the empty string when the match has no such group. */
  function Capture(m: seq<string>, k: nat): string { if k < |m| then m[k] else "" }

  function Joined(m: seq<string>): string { Capture(m, 0) + Capture(m, 1) + Capture(m, 2) }

  /** Some number found by the scan passes the checksum. */
  predicate Flagged(value: string) { exists m | m in ScanTs(value, 0) :: Valid(Joined(m)) }

  /** `containsAadhaarLikeNumber`. */
  method ContainsAadhaarLikeNumber(value: string) returns (found: bool)
    ensures found <==> Flagged(value)
  {
    var matches := Scan(Backtracking, AADHAAR_SHAPED, value, 0);
    for k := 0 to |matches|
      invariant forall j | 0 <= j < k :: !Valid(Joined(matches[j]))
    {
      var valid := IsVerhoeffValid(Joined(matches[k]));
      if valid { return true; }
    }
    return false;
  }

  /** `contains_aadhaar_like_number`: the database gives the same answer. */
  method ContainsAadhaarLikeNumberSql(value: string) returns (found: bool)
    ensures found <==> Flagged(value)
  {
    ScansAgree(value);
    var matches := Scan(Longest, AADHAAR_SHAPED_SQL, value, 0);
    for k := 0 to |matches|
      invariant forall j | 0 <= j < k :: !Valid(Joined(matches[j]))
    {
      var valid := IsVerhoeffValidSql(Joined(matches[k]));
      if valid { return true; }
    }
    return false;
  }
}
