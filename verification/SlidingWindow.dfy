/**
  The in-memory rate limiter of `apps/api/src/lib/sliding-window.ts`. Every read of the clock is a
  parameter: `take` and `retryAfterSeconds` read it twice.
 */
module SlidingWindow {
  import opened Sets

  type Hits = map<string, seq<int>>

  /** The times after `cutoff`, in order. */
  function Live(times: seq<int>, cutoff: int): seq<int> {
    if times == [] then []
    else
      var rest := Live(times[..|times| - 1], cutoff);
      if times[|times| - 1] > cutoff then rest + [times[|times| - 1]] else rest
  }

  function ListOf(hits: Hits, key: string): seq<int> { if key in hits then hits[key] else [] }

  /** `recent`: the map keeps only the live times of `key`, and no empty list. */
  function Pruned(hits: Hits, key: string, cutoff: int): Hits {
    var list := Live(ListOf(hits, key), cutoff);
    if list == [] then hits - {key} else hits[key := list]
  }

  function Accepts(limit: int, hits: Hits, key: string, cutoff: int): bool {
    |Live(ListOf(hits, key), cutoff)| < limit
  }

  /** The map after `take`, reading the clock as `now1` and then `now2`. */
  function AfterTake(limit: int, windowMs: int, hits: Hits, key: string, now1: int, now2: int): Hits {
    var pruned := Pruned(hits, key, now1 - windowMs);
    if Accepts(limit, hits, key, now1 - windowMs) then pruned[key := ListOf(pruned, key) + [now2]] else pruned
  }

  function Max(a: int, b: int): int { if a < b then b else a }

  /** `Math.ceil(ms / 1000)`. */
  function CeilSeconds(ms: int): int { (ms + 999) / 1000 }

  function RetryAfter(windowMs: int, hits: Hits, key: string, now1: int, now2: int): int {
    var list := Live(ListOf(hits, key), now1 - windowMs);
    if list == [] then 0 else Max(1, CeilSeconds(list[0] + windowMs - now2))
  }

  /** `createSlidingWindowLimiter`. */
  class SlidingWindowLimiter {
    const limit: int
    const windowMs: int
    var hits: Hits

    constructor (limit: int, windowMs: int)
      ensures this.limit == limit && this.windowMs == windowMs && hits == map[]
    {
      this.limit := limit;
      this.windowMs := windowMs;
      hits := map[];
    }

    method Recent(key: string, now: int) returns (list: seq<int>)
      modifies this
      ensures hits == Pruned(old(hits), key, now - windowMs)
      ensures list == Live(ListOf(old(hits), key), now - windowMs) == ListOf(hits, key)
    {
      var cutoff := now - windowMs;
      var all := if key in hits then hits[key] else [];
      list := [];
      for i := 0 to |all|
        invariant list == Live(all[..i], cutoff)
      {
        assert all[..i + 1][..i] == all[..i];
        if all[i] > cutoff { list := list + [all[i]]; }
      }
      assert all[..|all|] == all;
      if list == [] { hits := hits - {key}; } else { hits := hits[key := list]; }
    }

    method Take(key: string, now1: int, now2: int) returns (accepted: bool)
      modifies this
      ensures accepted == Accepts(limit, old(hits), key, now1 - windowMs)
      ensures hits == AfterTake(limit, windowMs, old(hits), key, now1, now2)
    {
      var list := Recent(key, now1);
      if |list| >= limit { return false; }
      list := list + [now2];
      hits := hits[key := list];
      return true;
    }

    method RetryAfterSeconds(key: string, now1: int, now2: int) returns (seconds: int)
      modifies this
      ensures seconds == RetryAfter(windowMs, old(hits), key, now1, now2)
      ensures hits == Pruned(old(hits), key, now1 - windowMs)
    {
      var list := Recent(key, now1);
      if list == [] { return 0; }
      return Max(1, CeilSeconds(list[0] + windowMs - now2));
    }
  }

  // ---- Runs ----------------------------------------------------------------------------------

  /** One call of the limiter, with what it reads from the clock. */
  datatype Op =
    | Take(key: string, now1: int, now2: int)
    | Retry(key: string, now1: int, now2: int)

  /** The limiter's map and, for the record, every accepted time of every key. */
  datatype Log = Log(hits: Hits, history: Hits)

  function Run(limit: int, windowMs: int, ops: seq<Op>): Log {
    if ops == [] then Log(map[], map[])
    else
      var log, op := Run(limit, windowMs, ops[..|ops| - 1]), ops[|ops| - 1];
      match op
      case Take(key, now1, now2) =>
        Log(AfterTake(limit, windowMs, log.hits, key, now1, now2),
            if Accepts(limit, log.hits, key, now1 - windowMs) then
              log.history[key := ListOf(log.history, key) + [now2]]
            else log.history)
      case Retry(key, now1, now2) => Log(Pruned(log.hits, key, now1 - windowMs), log.history)
  }

  /** The clock never goes back, within a call and from one call to the next. */
  predicate ClockAdvances(ops: seq<Op>) {
    && (forall i | 0 <= i < |ops| :: ops[i].now1 <= ops[i].now2)
    && (forall i, j | 0 <= i < j < |ops| :: ops[i].now2 <= ops[j].now1)
  }

  /** The list the limiter keeps for `key`, and every time it ever accepted. */
  function Stored(limit: int, windowMs: int, ops: seq<Op>, key: string): seq<int> {
    ListOf(Run(limit, windowMs, ops).hits, key)
  }

  function Accepted(limit: int, windowMs: int, ops: seq<Op>, key: string): seq<int> {
    ListOf(Run(limit, windowMs, ops).history, key)
  }

  /** The cutoff of the last call for `key`. */
  function LastCutoff(windowMs: int, ops: seq<Op>, key: string): int {
    if ops == [] then 0
    else if ops[|ops| - 1].key == key then ops[|ops| - 1].now1 - windowMs
    else LastCutoff(windowMs, ops[..|ops| - 1], key)
  }

  predicate Sorted(times: seq<int>) { forall i, j | 0 <= i < j < |times| :: times[i] <= times[j] }

  /** Any two accepted times `limit` places apart are at least `windowMs` apart. */
  predicate Spaced(limit: int, windowMs: int, times: seq<int>) {
    forall i, j | 0 <= i < |times| && 0 <= j < |times| && i + limit <= j :: times[j] - times[i] >= windowMs
  }

  // ---- Lists ---------------------------------------------------------------------------------

  lemma {:induction false} LiveAgain(times: seq<int>, c: int, d: int)
    requires c <= d
    ensures Live(Live(times, c), d) == Live(times, d)
  {
    if times != [] {
      var front, last := times[..|times| - 1], times[|times| - 1];
      LiveAgain(front, c, d);
      if last > c { assert (Live(front, c) + [last])[..|Live(front, c)|] == Live(front, c); }
    }
  }

  lemma {:induction false} NoneLive(times: seq<int>, c: int)
    requires forall i | 0 <= i < |times| :: times[i] <= c
    ensures Live(times, c) == []
  {
    if times != [] { NoneLive(times[..|times| - 1], c); }
  }

  lemma SuffixOfAppend(front: seq<int>, x: int, k: nat)
    requires k <= |front|
    ensures (front + [x])[k..] == front[k..] + [x]
  {
  }

  /** In an ordered list the live times are its last ones. */
  lemma {:induction false} LiveIsSuffix(times: seq<int>, c: int)
    requires Sorted(times)
    ensures |Live(times, c)| <= |times|
    ensures forall i | 0 <= i < |times| - |Live(times, c)| :: times[i] <= c
    ensures Live(times, c) == times[|times| - |Live(times, c)|..]
  {
    if times != [] {
      var n := |times| - 1;
      if times[n] <= c {
        NoneLive(times, c);
      } else {
        var front := times[..n];
        LiveIsSuffix(front, c);
        SuffixOfAppend(front, times[n], n - |Live(front, c)|);
        assert times == front + [times[n]];
      }
    }
  }

  lemma LiveOfAppend(times: seq<int>, x: int, c: int)
    ensures Live(times + [x], c) == if x > c then Live(times, c) + [x] else Live(times, c)
  {
    assert (times + [x])[..|times|] == times;
  }

  // ---- What every run keeps ------------------------------------------------------------------

  lemma ClockOfPrefix(ops: seq<Op>)
    requires ops != [] && ClockAdvances(ops)
    ensures ClockAdvances(ops[..|ops| - 1])
  {
  }

  lemma {:induction false} CutoffIsPast(windowMs: int, ops: seq<Op>, key: string, now: int)
    requires ClockAdvances(ops) && forall i | 0 <= i < |ops| :: ops[i].now2 <= now
    requires exists i :: 0 <= i < |ops| && ops[i].key == key
    ensures LastCutoff(windowMs, ops, key) <= now - windowMs
  {
    if ops[|ops| - 1].key != key {
      var i :| 0 <= i < |ops| && ops[i].key == key;
      var front := ops[..|ops| - 1];
      assert front[i].key == key;
      ClockOfPrefix(ops);
      CutoffIsPast(windowMs, front, key, now);
    }
  }

  lemma {:induction false} UntouchedKey(limit: int, windowMs: int, ops: seq<Op>, key: string)
    requires forall i | 0 <= i < |ops| :: ops[i].key != key
    ensures Stored(limit, windowMs, ops, key) == [] && Accepted(limit, windowMs, ops, key) == []
  {
    if ops != [] { UntouchedKey(limit, windowMs, ops[..|ops| - 1], key); }
  }

  lemma LastOp(limit: int, windowMs: int, ops: seq<Op>, key: string)
    requires ops != []
    ensures var front, op := ops[..|ops| - 1], ops[|ops| - 1];
            var all, stored := Accepted(limit, windowMs, front, key), Stored(limit, windowMs, front, key);
            var live := Live(stored, op.now1 - windowMs);
            (Accepted(limit, windowMs, ops, key), Stored(limit, windowMs, ops, key)) ==
            if op.key != key then (all, stored)
            else if op.Take? && |live| < limit then (all + [op.now2], live + [op.now2])
            else (all, live)
  {
  }

  /** From the last cutoff on, the stored list and the full history have the same live times. */
  lemma {:induction false} StoredAgrees(limit: int, windowMs: int, ops: seq<Op>, key: string, c: int)
    requires ClockAdvances(ops) && (ops == [] || LastCutoff(windowMs, ops, key) <= c)
    ensures Live(Stored(limit, windowMs, ops, key), c) == Live(Accepted(limit, windowMs, ops, key), c)
    decreases |ops|
  {
    hide Run, Accepted, Stored, Live, ClockAdvances;
    if ops == [] {
      UntouchedKey(limit, windowMs, ops, key);
    } else {
      var front, op := ops[..|ops| - 1], ops[|ops| - 1];
      ClockOfPrefix(ops);
      LastOp(limit, windowMs, ops, key);
      if op.key != key {
        StoredAgrees(limit, windowMs, front, key, c);
      } else {
        AgreeAfter(limit, windowMs, ops, c);
      }
    }
  }

  lemma {:induction false} AgreeAfter(limit: int, windowMs: int, ops: seq<Op>, c: int)
    requires ClockAdvances(ops) && ops != [] && ops[|ops| - 1].now1 - windowMs <= c
    ensures var key := ops[|ops| - 1].key;
            Live(Stored(limit, windowMs, ops, key), c) == Live(Accepted(limit, windowMs, ops, key), c)
    decreases |ops|, 1
  {
    hide Run, Accepted, Stored, Live, ClockAdvances;
    var front, op := ops[..|ops| - 1], ops[|ops| - 1];
    var d, stored := op.now1 - windowMs, Stored(limit, windowMs, front, op.key);
    var all := Accepted(limit, windowMs, front, op.key);
    LastOp(limit, windowMs, ops, op.key);
    FrontAgrees(limit, windowMs, ops);
    LiveAgain(stored, d, c);
    LiveAgain(all, d, c);
    LiveOfAppend(Live(stored, d), op.now2, c);
    LiveOfAppend(all, op.now2, c);
  }

  /** Before the last call its own cutoff is late enough. */
  lemma {:induction false} FrontAgrees(limit: int, windowMs: int, ops: seq<Op>)
    requires ClockAdvances(ops) && ops != []
    ensures var front, op := ops[..|ops| - 1], ops[|ops| - 1];
            Live(Stored(limit, windowMs, front, op.key), op.now1 - windowMs)
            == Live(Accepted(limit, windowMs, front, op.key), op.now1 - windowMs)
    decreases |ops|, 0
  {
    var front, op := ops[..|ops| - 1], ops[|ops| - 1];
    ClockOfPrefix(ops);
    if exists i :: 0 <= i < |front| && front[i].key == op.key {
      CutoffIsPast(windowMs, front, op.key, op.now1);
      StoredAgrees(limit, windowMs, front, op.key, op.now1 - windowMs);
    } else {
      UntouchedKey(limit, windowMs, front, op.key);
    }
  }

  /** The stored list is the live part of the full history, as of the last call for the key. */
  lemma {:induction false} StoredIsLive(limit: int, windowMs: int, ops: seq<Op>, key: string)
    requires ClockAdvances(ops) && windowMs > 0
    ensures Stored(limit, windowMs, ops, key)
            == Live(Accepted(limit, windowMs, ops, key), LastCutoff(windowMs, ops, key))
    decreases |ops|
  {
    if ops != [] {
      hide Run, Accepted, Stored;
      var front, op := ops[..|ops| - 1], ops[|ops| - 1];
      ClockOfPrefix(ops);
      LastOp(limit, windowMs, ops, key);
      if op.key != key {
        StoredIsLive(limit, windowMs, front, key);
      } else {
        FrontAgrees(limit, windowMs, ops);
        LiveOfAppend(Accepted(limit, windowMs, front, key), op.now2, op.now1 - windowMs);
      }
    } else {
      UntouchedKey(limit, windowMs, ops, key);
    }
  }

  lemma {:induction false} HistoryIsOrdered(limit: int, windowMs: int, ops: seq<Op>, key: string)
    requires ClockAdvances(ops)
    ensures Sorted(Accepted(limit, windowMs, ops, key))
    ensures forall i | 0 <= i < |Accepted(limit, windowMs, ops, key)| ::
              ops != [] && Accepted(limit, windowMs, ops, key)[i] <= ops[|ops| - 1].now2
  {
    if ops != [] {
      hide Run, Accepted, Stored;
      ClockOfPrefix(ops);
      LastOp(limit, windowMs, ops, key);
      HistoryIsOrdered(limit, windowMs, ops[..|ops| - 1], key);
    } else {
      UntouchedKey(limit, windowMs, ops, key);
    }
  }

  /** The rate limit: hits `limit` apart are a window apart, and no list outgrows the limit. */
  lemma {:induction false} HitsAreSpaced(limit: int, windowMs: int, ops: seq<Op>, key: string)
    requires ClockAdvances(ops)
    ensures limit >= 1 ==> Spaced(limit, windowMs, Accepted(limit, windowMs, ops, key))
    ensures |Stored(limit, windowMs, ops, key)| <= Max(limit, 0)
    ensures limit <= 0 ==> Accepted(limit, windowMs, ops, key) == []
  {
    hide Live, LastCutoff;
    if ops != [] {
      hide Run, Accepted, Stored;
      var front, op := ops[..|ops| - 1], ops[|ops| - 1];
      ClockOfPrefix(ops);
      HitsAreSpaced(limit, windowMs, front, key);
      LastOp(limit, windowMs, ops, key);
      LiveIsShorter(Stored(limit, windowMs, front, key), op.now1 - windowMs);
      if op.key == key {
        HistoryIsOrdered(limit, windowMs, front, key);
        FrontAgrees(limit, windowMs, ops);
        LiveIsSuffix(Accepted(limit, windowMs, front, key), op.now1 - windowMs);
      }
    } else {
      UntouchedKey(limit, windowMs, ops, key);
    }
  }

  lemma {:induction false} LiveIsShorter(times: seq<int>, c: int)
    ensures |Live(times, c)| <= |times|
  {
    if times != [] { LiveIsShorter(times[..|times| - 1], c); }
  }

  function Range(lo: nat, hi: nat): (r: set<nat>)
    ensures forall i :: i in r <==> lo <= i < hi
    ensures lo <= hi ==> |r| == hi - lo
    decreases hi - lo
  {
    if lo >= hi then {} else Range(lo, hi - 1) + {hi - 1}
  }

  /** The accepted hits of `key` in the half-open window of `windowMs` from `start`, by position. */
  function HitsInWindow(limit: int, windowMs: int, ops: seq<Op>, key: string, start: int): set<nat> {
    var all := Accepted(limit, windowMs, ops, key);
    set i: nat | i < |all| && start <= all[i] < start + windowMs
  }

  /** Every window of length `windowMs`, wherever it starts, holds at most `limit` accepted hits. */
  lemma WindowHoldsAtMostLimit(limit: int, windowMs: int, ops: seq<Op>, key: string, start: int)
    requires ClockAdvances(ops)
    ensures |HitsInWindow(limit, windowMs, ops, key, start)| <= Max(limit, 0)
  {
    hide Accepted;
    var all, window := Accepted(limit, windowMs, ops, key), HitsInWindow(limit, windowMs, ops, key, start);
    HitsAreSpaced(limit, windowMs, ops, key);
    if window != {} {
      var first := LeastOf(window);
      assert window <= Range(first, first + limit);
      SubsetSize(window, Range(first, first + limit));
    }
  }

  lemma {:induction false} LeastOf(s: set<nat>) returns (m: nat)
    requires s != {}
    ensures m in s && forall i | i in s :: m <= i
  {
    m :| m in s;
    if s != {m} {
      var n := LeastOf(s - {m});
      assert forall i | i in s :: i == m || i in s - {m};
      if n < m { m := n; }
    }
  }

  function OnlyKey(ops: seq<Op>, key: string): seq<Op> {
    if ops == [] then []
    else
      var rest := OnlyKey(ops[..|ops| - 1], key);
      if ops[|ops| - 1].key == key then rest + [ops[|ops| - 1]] else rest
  }

  /** What happens to a key depends on the calls for that key alone. */
  lemma {:induction false} KeysAreIndependent(limit: int, windowMs: int, ops: seq<Op>, key: string)
    ensures Stored(limit, windowMs, ops, key) == Stored(limit, windowMs, OnlyKey(ops, key), key)
    ensures Accepted(limit, windowMs, ops, key) == Accepted(limit, windowMs, OnlyKey(ops, key), key)
  {
    if ops != [] {
      hide Run, Accepted, Stored, Live;
      var front, op := ops[..|ops| - 1], ops[|ops| - 1];
      var only := OnlyKey(front, key);
      KeysAreIndependent(limit, windowMs, front, key);
      LastOp(limit, windowMs, ops, key);
      if op.key == key {
        assert OnlyKey(ops, key) == only + [op] && (only + [op])[..|only|] == only;
        LastOp(limit, windowMs, only + [op], key);
      }
    }
  }

  // ---- retryAfterSeconds ---------------------------------------------------------------------

  lemma {:induction false} LiveTimes(times: seq<int>, c: int)
    ensures forall i | 0 <= i < |Live(times, c)| :: Live(times, c)[i] > c
  {
    if times != [] { LiveTimes(times[..|times| - 1], c); }
  }

  lemma {:induction false} AllLive(times: seq<int>, c: int)
    requires forall i | 0 <= i < |times| :: times[i] > c
    ensures Live(times, c) == times
  {
    if times != [] { AllLive(times[..|times| - 1], c); }
  }

  /** What the last call of `ops`, for `key`, sees in its list. */
  function Seen(limit: int, windowMs: int, ops: seq<Op>): seq<int>
    requires ops != []
  {
    var op := ops[|ops| - 1];
    Live(Stored(limit, windowMs, ops[..|ops| - 1], op.key), op.now1 - windowMs)
  }

  /** The list seen later, with nothing accepted in between, is what is still live of the earlier one. */
  lemma SeenLater(limit: int, windowMs: int, ops: seq<Op>, later: seq<Op>)
    requires ops != [] && later != [] && ClockAdvances(ops) && ClockAdvances(later)
    requires var a, b := ops[|ops| - 1], later[|later| - 1];
             && a.key == b.key && a.now1 <= b.now1
             && Accepted(limit, windowMs, later[..|later| - 1], b.key) ==
                Accepted(limit, windowMs, ops[..|ops| - 1], a.key)
    ensures Seen(limit, windowMs, later) == Live(Seen(limit, windowMs, ops), later[|later| - 1].now1 - windowMs)
  {
    hide Run, Accepted, Stored, Live;
    var a, b := ops[|ops| - 1], later[|later| - 1];
    FrontAgrees(limit, windowMs, ops);
    FrontAgrees(limit, windowMs, later);
    LiveAgain(Accepted(limit, windowMs, ops[..|ops| - 1], a.key), a.now1 - windowMs, b.now1 - windowMs);
  }

  lemma SeenIsOrdered(limit: int, windowMs: int, ops: seq<Op>)
    requires ops != [] && ClockAdvances(ops)
    ensures Sorted(Seen(limit, windowMs, ops)) && |Seen(limit, windowMs, ops)| <= Max(limit, 0)
  {
    hide Run, Accepted, Stored, Live;
    var front, op := ops[..|ops| - 1], ops[|ops| - 1];
    ClockOfPrefix(ops);
    HistoryIsOrdered(limit, windowMs, front, op.key);
    FrontAgrees(limit, windowMs, ops);
    LiveIsSuffix(Accepted(limit, windowMs, front, op.key), op.now1 - windowMs);
    HitsAreSpaced(limit, windowMs, front, op.key);
    LiveIsShorter(Stored(limit, windowMs, front, op.key), op.now1 - windowMs);
  }

  /**
    `ops` ends with `retryAfterSeconds`, `later` with a `take` of the same key, and no hit of the key is
    accepted in between. The take succeeds from the returned number of seconds on; as long as the list
    is full and its oldest hit in the window, it is refused; and the number of seconds exceeds what is
    left of the oldest hit's window by less than a second, unless it is the floor 1.
   */
  lemma RetryAfterIsHonest(limit: int, windowMs: int, ops: seq<Op>, later: seq<Op>)
    requires limit >= 1
    requires ops != [] && later != [] && ClockAdvances(ops) && ClockAdvances(later)
    requires var a, b := ops[|ops| - 1], later[|later| - 1];
             && a.Retry? && b.Take? && a.key == b.key && a.now2 <= b.now1
             && Accepted(limit, windowMs, later[..|later| - 1], b.key) ==
                Accepted(limit, windowMs, ops[..|ops| - 1], a.key)
    ensures var a, b, seen := ops[|ops| - 1], later[|later| - 1], Seen(limit, windowMs, ops);
            var seconds := RetryAfter(windowMs, Run(limit, windowMs, ops[..|ops| - 1]).hits, a.key, a.now1, a.now2);
            var accepted := Accepts(limit, Run(limit, windowMs, later[..|later| - 1]).hits, b.key, b.now1 - windowMs);
            && (b.now1 >= a.now2 + 1000 * seconds ==> accepted)
            && (|seen| == limit && b.now1 < seen[0] + windowMs ==> !accepted)
            && (seen != [] ==> seen[0] + windowMs <= a.now2 + 1000 * seconds &&
                               (seconds == 1 || a.now2 + 1000 * seconds < seen[0] + windowMs + 1000))
  {
    hide Run, Accepted, Live;
    var b, seen, now := later[|later| - 1], Seen(limit, windowMs, ops), Seen(limit, windowMs, later);
    SeenLater(limit, windowMs, ops, later);
    SeenIsOrdered(limit, windowMs, ops);
    LiveIsSuffix(seen, b.now1 - windowMs);
    LiveTimes(seen, b.now1 - windowMs);
    if seen != [] {
      if b.now1 < seen[0] + windowMs { AllLive(seen, b.now1 - windowMs); }
      if |now| == |seen| { assert now[0] == seen[0]; }
    }
  }

  // ---- Exact answers, by the full history ----------------------------------------------------

  /** The hits of a list after `cutoff`, by their places. */
  function Since(times: seq<int>, cutoff: int): set<nat> {
    set i: nat | i < |times| && times[i] > cutoff
  }

  lemma {:induction false} LiveCounts(times: seq<int>, c: int)
    ensures |Live(times, c)| == |Since(times, c)|
  {
    if times != [] {
      var n := |times| - 1;
      var front := times[..n];
      LiveCounts(front, c);
      assert forall i: nat | i < n :: front[i] == times[i];
      assert Since(times, c) == Since(front, c) + if times[n] > c then {n} else {};
    }
  }

  lemma NoneSince(times: seq<int>, c: int)
    ensures Live(times, c) == [] <==> forall i | 0 <= i < |times| :: times[i] <= c
  {
    LiveCounts(times, c);
    if forall i | 0 <= i < |times| :: times[i] <= c {
      assert Since(times, c) == {};
    } else {
      var i: nat :| i < |times| && times[i] > c;
      assert i in Since(times, c);
    }
  }

  /** A take is accepted exactly when fewer than `limit` accepted hits of the key lie in the window before it. */
  lemma TakeIsAcceptedExactly(limit: int, windowMs: int, ops: seq<Op>, key: string, now1: int, now2: int)
    requires ClockAdvances(ops + [Take(key, now1, now2)])
    ensures Accepts(limit, Run(limit, windowMs, ops).hits, key, now1 - windowMs) <==>
            |Since(Accepted(limit, windowMs, ops, key), now1 - windowMs)| < limit
  {
    hide Run, Live, Accepted, Since;
    var all := ops + [Take(key, now1, now2)];
    assert all[..|all| - 1] == ops;
    FrontAgrees(limit, windowMs, all);
    LiveCounts(Accepted(limit, windowMs, ops, key), now1 - windowMs);
  }

  /** The wait is 0 exactly when no accepted hit of the key lies in the window, and otherwise at least 1. */
  lemma RetryIsZeroExactly(limit: int, windowMs: int, ops: seq<Op>, key: string, now1: int, now2: int)
    requires ClockAdvances(ops + [Retry(key, now1, now2)])
    ensures
      var seconds := RetryAfter(windowMs, Run(limit, windowMs, ops).hits, key, now1, now2);
      var all := Accepted(limit, windowMs, ops, key);
      && (seconds == 0 <==> forall i | 0 <= i < |all| :: all[i] <= now1 - windowMs)
      && (seconds != 0 ==> seconds >= 1)
  {
    hide Run, Live, Accepted, Since, CeilSeconds;
    var all := ops + [Retry(key, now1, now2)];
    assert all[..|all| - 1] == ops;
    FrontAgrees(limit, windowMs, all);
    NoneSince(Accepted(limit, windowMs, ops, key), now1 - windowMs);
  }

  /** The map never holds an empty list, so keys without hits take no room. */
  lemma {:induction false} NoEmptyLists(limit: int, windowMs: int, ops: seq<Op>)
    ensures forall key | key in Run(limit, windowMs, ops).hits :: Run(limit, windowMs, ops).hits[key] != []
  {
    if ops != [] { NoEmptyLists(limit, windowMs, ops[..|ops| - 1]); }
  }

  /** Without a positive limit the promise fails: no wait is announced, and no hit is ever accepted. */
  lemma NoLimitNoHits(limit: int, windowMs: int, ops: seq<Op>, key: string, now1: int, now2: int, cutoff: int)
    requires limit <= 0 && ClockAdvances(ops)
    ensures RetryAfter(windowMs, Run(limit, windowMs, ops).hits, key, now1, now2) == 0
    ensures !Accepts(limit, Run(limit, windowMs, ops).hits, key, cutoff)
  {
    HitsAreSpaced(limit, windowMs, ops, key);
    assert Stored(limit, windowMs, ops, key) == [];
  }
}
