/**
  Regular expressions as data, with the list of matches each has at a position. JavaScript
  (ECMA-262 section 22.2) takes the first match in backtracking order; PostgreSQL takes the longest.
  Both scan for non-overlapping matches from left to right.
 */
module Patterns {

  datatype Pattern =
    | Empty
    | Chars(ranges: seq<(char, char)>, negated: bool)      // [a-z] or [^a-z]
    | Then(first: Pattern, second: Pattern)
    | Or(left: Pattern, right: Pattern)
    | Maybe(body: Pattern)                                 // (?:body)?, greedy
    | Group(body: Pattern)                                 // a capture
    | AtStart                                              // ^
    | AtEnd                                                // $
    | NotBehind(excluded: seq<(char, char)>)               // (?<![...])
    | Ahead(body: Pattern)                                 // (?=body)
    | NotAhead(body: Pattern)                              // (?!body)

  datatype Match = Match(end: nat, captures: seq<string>)

  predicate InRanges(c: char, ranges: seq<(char, char)>) {
    exists i | 0 <= i < |ranges| :: ranges[i].0 <= c <= ranges[i].1
  }

  /** All matches of `p` in `s` at position `i`, in backtracking order. */
  function MatchesAt(p: Pattern, s: string, i: nat): (ms: seq<Match>)
    requires i <= |s|
    ensures forall k | 0 <= k < |ms| :: i <= ms[k].end <= |s|
    decreases p, 0
  {
    match p
    case Empty => [Match(i, [])]
    case Chars(ranges, negated) =>
      if i < |s| && InRanges(s[i], ranges) != negated then [Match(i + 1, [])] else []
    case Then(a, b) => Continue(MatchesAt(a, s, i), b, s, i)
    case Or(a, b) => MatchesAt(a, s, i) + MatchesAt(b, s, i)
    case Maybe(a) => MatchesAt(a, s, i) + [Match(i, [])]
    case Group(a) =>
      var ms := MatchesAt(a, s, i);
      seq(|ms|, k requires 0 <= k < |ms| => Match(ms[k].end, [s[i..ms[k].end]] + ms[k].captures))
    case AtStart => if i == 0 then [Match(i, [])] else []
    case AtEnd => if i == |s| then [Match(i, [])] else []
    case NotBehind(ranges) => if i > 0 && InRanges(s[i - 1], ranges) then [] else [Match(i, [])]
    case Ahead(a) => if MatchesAt(a, s, i) != [] then [Match(i, [])] else []
    case NotAhead(a) => if MatchesAt(a, s, i) != [] then [] else [Match(i, [])]
  }

  /** Each match in turn, continued by each match of `p` where it ends. */
  function Continue(ms: seq<Match>, p: Pattern, s: string, i: nat): (rs: seq<Match>)
    requires i <= |s| && forall k | 0 <= k < |ms| :: i <= ms[k].end <= |s|
    ensures forall k | 0 <= k < |rs| :: i <= rs[k].end <= |s|
    decreases p, 1 + |ms|
  {
    if ms == [] then []
    else
      var next := MatchesAt(p, s, ms[0].end);
      seq(|next|, k requires 0 <= k < |next| => Match(next[k].end, ms[0].captures + next[k].captures))
      + Continue(ms[1..], p, s, i)
  }

  /** How an engine chooses among the matches at one position. */
  datatype Engine = Backtracking | Longest

  function Choose(engine: Engine, ms: seq<Match>): Match
    requires ms != []
  {
    if engine == Backtracking || |ms| == 1 then ms[0]
    else
      var rest := Choose(engine, ms[1..]);
      if ms[0].end >= rest.end then ms[0] else rest
  }

  lemma {:induction false} ChosenIsAMatch(engine: Engine, ms: seq<Match>)
    requires ms != []
    ensures Choose(engine, ms) in ms
  {
    if !(engine == Backtracking || |ms| == 1) { ChosenIsAMatch(engine, ms[1..]); }
  }

  /** The captures of the non-overlapping matches from position `i` on, left to right. */
  function Scan(engine: Engine, p: Pattern, s: string, i: nat): seq<seq<string>>
    decreases |s| + 1 - i
  {
    if i > |s| then []
    else if MatchesAt(p, s, i) == [] then Scan(engine, p, s, i + 1)
    else
      ChosenIsAMatch(engine, MatchesAt(p, s, i));
      var m := Choose(engine, MatchesAt(p, s, i));
      [m.captures] + Scan(engine, p, s, if m.end > i then m.end else i + 1)
  }

  /** Two patterns with the same matches everywhere in `s`. */
  ghost predicate Same(p: Pattern, q: Pattern, s: string) {
    forall i: nat | i <= |s| :: MatchesAt(p, s, i) == MatchesAt(q, s, i)
  }

  lemma {:induction false} SameContinue(ms: seq<Match>, p: Pattern, q: Pattern, s: string, i: nat)
    requires Same(p, q, s)
    requires i <= |s| && forall k | 0 <= k < |ms| :: i <= ms[k].end <= |s|
    ensures Continue(ms, p, s, i) == Continue(ms, q, s, i)
    decreases |ms|
  {
    if ms != [] {
      assert MatchesAt(p, s, ms[0].end) == MatchesAt(q, s, ms[0].end);
      SameContinue(ms[1..], p, q, s, i);
    }
  }

  lemma SameThen(a: Pattern, p: Pattern, q: Pattern, s: string)
    requires Same(p, q, s)
    ensures Same(Then(a, p), Then(a, q), s)
  {
    forall i: nat | i <= |s| ensures MatchesAt(Then(a, p), s, i) == MatchesAt(Then(a, q), s, i) {
      SameContinue(MatchesAt(a, s, i), p, q, s, i);
    }
  }

  lemma ContinueAlone(b: Pattern, s: string, i: nat, j: nat)
    requires i <= j <= |s|
    ensures Continue([Match(j, [])], b, s, i) == MatchesAt(b, s, j)
  {
    hide MatchesAt;
    var ms, next := [Match(j, [])], MatchesAt(b, s, j);
    assert ms[1..] == [] && Continue([], b, s, i) == [];
    assert forall k | 0 <= k < |next| :: Match(next[k].end, [] + next[k].captures) == next[k];
  }

  lemma ContinueBoth(b: Pattern, s: string, i: nat, j: nat, k: nat)
    requires i <= j <= |s| && i <= k <= |s|
    ensures Continue([Match(j, []), Match(k, [])], b, s, i) == MatchesAt(b, s, j) + MatchesAt(b, s, k)
  {
    hide MatchesAt;
    var ms, next := [Match(j, []), Match(k, [])], MatchesAt(b, s, j);
    assert ms[1..] == [Match(k, [])];
    ContinueAlone(b, s, i, k);
    assert forall k | 0 <= k < |next| :: Match(next[k].end, [] + next[k].captures) == next[k];
  }

  /** A first part with no match, or with one match without captures. */
  lemma ThenAfter(a: Pattern, b: Pattern, s: string, i: nat)
    requires i <= |s|
    ensures MatchesAt(a, s, i) == [] ==> MatchesAt(Then(a, b), s, i) == []
    ensures forall j: nat | MatchesAt(a, s, i) == [Match(j, [])] ::
              j <= |s| && MatchesAt(Then(a, b), s, i) == MatchesAt(b, s, j)
  {
    forall j: nat | MatchesAt(a, s, i) == [Match(j, [])]
      ensures j <= |s| && MatchesAt(Then(a, b), s, i) == MatchesAt(b, s, j)
    {
      assert MatchesAt(a, s, i)[0].end == j;
      ContinueAlone(b, s, i, j);
    }
  }

  lemma {:induction false} ContinueMember(ms: seq<Match>, b: Pattern, s: string, i: nat, r: Match)
    returns (m: Match, n: Match)
    requires i <= |s| && forall k | 0 <= k < |ms| :: i <= ms[k].end <= |s|
    requires r in Continue(ms, b, s, i)
    ensures m in ms && i <= m.end <= |s| && n in MatchesAt(b, s, m.end)
    ensures r == Match(n.end, m.captures + n.captures)
    decreases |ms|
  {
    var next := MatchesAt(b, s, ms[0].end);
    var here := seq(|next|, k requires 0 <= k < |next| => Match(next[k].end, ms[0].captures + next[k].captures));
    if r in here {
      var k :| 0 <= k < |here| && here[k] == r;
      m, n := ms[0], next[k];
    } else {
      m, n := ContinueMember(ms[1..], b, s, i, r);
    }
  }

  /** A match of two parts comes from a match of each. */
  lemma ThenMember(a: Pattern, b: Pattern, s: string, i: nat, r: Match) returns (m: Match, n: Match)
    requires i <= |s| && r in MatchesAt(Then(a, b), s, i)
    ensures m in MatchesAt(a, s, i) && i <= m.end <= |s| && n in MatchesAt(b, s, m.end)
    ensures r == Match(n.end, m.captures + n.captures)
  {
    m, n := ContinueMember(MatchesAt(a, s, i), b, s, i, r);
  }

  /** At most one match everywhere: the choice of the engine is immaterial. */
  ghost predicate Deterministic(p: Pattern, s: string) {
    forall i: nat | i <= |s| :: |MatchesAt(p, s, i)| <= 1
  }

  lemma DeterministicThen(a: Pattern, b: Pattern, s: string)
    requires Deterministic(a, s) && Deterministic(b, s)
    ensures Deterministic(Then(a, b), s)
  {
    forall i: nat | i <= |s| ensures |MatchesAt(Then(a, b), s, i)| <= 1 {
      var ms := MatchesAt(a, s, i);
      if ms != [] {
        assert |MatchesAt(b, s, ms[0].end)| <= 1 && ms[1..] == [];
        assert Continue(ms[1..], b, s, i) == [];
      }
    }
  }

  /** A captured match is a match with one more capture. */
  lemma GroupMember(p: Pattern, s: string, i: nat, r: Match) returns (m: Match)
    requires i <= |s| && r in MatchesAt(Group(p), s, i)
    ensures m in MatchesAt(p, s, i) && m.end == r.end
  {
    var ms, rs := MatchesAt(p, s, i), MatchesAt(Group(p), s, i);
    var k :| 0 <= k < |rs| && rs[k] == r;
    m := ms[k];
  }

  lemma GroupOne(p: Pattern, s: string, i: nat, j: nat)
    requires i <= |s| && MatchesAt(p, s, i) == [Match(j, [])]
    ensures i <= j <= |s| && MatchesAt(Group(p), s, i) == [Match(j, [s[i..j]])]
  {
    var ms := MatchesAt(p, s, i);
    assert ms[0].end == j && ms[0].captures == [];
    assert [s[i..j]] + [] == [s[i..j]];
    hide MatchesAt;
    assert seq(|ms|, k requires 0 <= k < |ms| => Match(ms[k].end, [s[i..ms[k].end]] + ms[k].captures))
        == [Match(j, [s[i..j]])];
  }
}
