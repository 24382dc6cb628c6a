/**
  The promises of the refresh protocol, over whole runs (`apps/web/src/lib/api-client.ts` and
  `apps/admin/src/lib/api-client.ts`, against `apps/api/src/modules/auth/auth.service.ts`).
 */
module RefreshRuns {
  import opened Wrappers
  import opened RefreshServer
  import opened RefreshProtocol
  import opened RefreshSafety

  /** `es` can happen, one after the other, from `s`. */
  ghost predicate Allowed(s: State, es: seq<Event>)
    decreases |es|
  {
    es == [] || (Enabled(s, es[0]) && Allowed(Step(s, es[0]), es[1..]))
  }

  function After(s: State, es: seq<Event>): State
    requires Allowed(s, es)
    decreases |es|
  {
    if es == [] then s else After(Step(s, es[0]), es[1..])
  }

  ghost predicate Inv(s: State) {
    TabsInv(s) && LockInv(s) && CallsInv(s) && Books(s.server) && (s.locks ==> TokensInv(s))
  }

  lemma {:induction false} RunKeepsInv(s: State, es: seq<Event>)
    requires Inv(s) && Allowed(s, es)
    ensures Inv(After(s, es)) && After(s, es).locks == s.locks
    decreases |es|
  {
    hide TabsInv, LockInv, CallsInv, TokensInv, Books;
    if es != [] {
      var e := es[0];
      StepKeepsTabs(s, e);
      StepKeepsLock(s, e);
      StepKeepsCalls(s, e);
      StepKeepsBooks(s, e);
      if s.locks { StepKeepsTokens(s, e); }
      LocksStay(s, e);
      RunKeepsInv(Step(s, e), es[1..]);
    }
  }

  lemma LocksStay(s: State, e: Event)
    requires Enabled(s, e)
    ensures Step(s, e).locks == s.locks
  {
    hide Refresh;
  }

  lemma Reachable(locks: bool, now: int, es: seq<Event>)
    requires Allowed(Init(locks, now), es)
    ensures Inv(After(Init(locks, now), es)) && After(Init(locks, now), es).locks == locks
  {
    RunKeepsInv(Init(locks, now), es);
  }

  // ---- Safety --------------------------------------------------------------------------------

  /**
    With Web Locks, in every run: at most one refresh request in the browser; the token it carries is
    the server's current one, no token is presented twice and no session is revoked for reuse, unless a
    reply to that token was lost or an abandoned request presented it late.
   */
  lemma RefreshIsSafe(now: int, es: seq<Event>)
    requires Allowed(Init(true, now), es)
    ensures var s := After(Init(true, now), es);
            && (forall f, g | 0 <= f < |s.flights| && 0 <= g < |s.flights| &&
                  Requesting(s.flights[f].phase) && Requesting(s.flights[g].phase) :: f == g)
            && (forall f | 0 <= f < |s.flights| && s.flights[f].phase.Sent? && s.flights[f].phase.token.Some? ::
                  var t := s.flights[f].phase.token.value; t in Excused(s) || IsCurrent(s.server, t))
            && NoReplay(s)
            && ReuseExplained(s.server, Excused(s))
  {
    hide TabsInv, CallsInv, Books;
    var s := After(Init(true, now), es);
    Reachable(true, now, es);
    assert forall f | 0 <= f < |s.flights| :: FlightTokens(s, s.flights[f].phase);
  }

  /** Without a lost reply or a late request nothing is presented twice, and no session is revoked for reuse. */
  lemma NothingLostNothingReplayed(now: int, es: seq<Event>)
    requires Allowed(Init(true, now), es) && Excused(After(Init(true, now), es)) == {}
    ensures var s := After(Init(true, now), es);
            && (forall i, j | 0 <= i < j < |s.presented| :: s.presented[i] != s.presented[j])
            && (forall i | 0 <= i < |s.server.sessions| :: s.server.sessions[i].revoked != Some(ReuseDetected))
  {
    RefreshIsSafe(now, es);
  }

  /**
    In every run, with or without locks: `refreshInFlight` names a tab's unsettled flight and is null
    exactly when it has none.
   */
  lemma SingleFlightPerTab(locks: bool, now: int, es: seq<Event>, t: nat)
    requires Allowed(Init(locks, now), es) && t < |After(Init(locks, now), es).tabs|
    ensures var s := After(Init(locks, now), es);
            forall f: nat :: s.tabs[t].refreshInFlight == Some(f) <==>
                             f < |s.flights| && s.flights[f].tab == t && !s.flights[f].phase.Settled?
  {
    hide LockInv, CallsInv, TokensInv, Books;
    Reachable(locks, now, es);
  }

  /**
    In every run a call sends at most two requests and joins at most one flight, the retry goes out
    only after that flight succeeded, and a call ends with a failed refresh only when that flight failed.
   */
  lemma CallsAreBounded(locks: bool, now: int, es: seq<Event>, c: nat)
    requires Allowed(Init(locks, now), es) && c < |After(Init(locks, now), es).calls|
    ensures var s := After(Init(locks, now), es);
            var call := s.calls[c];
            && call.sends <= 2 && |call.joined| <= 1
            && (call.kind == Json(false) ==> call.sends == 1 && call.joined == [])
            && (call.sends == 2 ==> |call.joined| == 1)
            && (call.joined != [] ==>
                  && call.joined[0] < |s.flights|
                  && (call.sends == 2 || call.phase.Done? ==>
                        s.flights[call.joined[0]].phase == Settled(call.sends == 2 || !call.phase.refreshFailed)))
            && (call.phase == Done(true) ==> call.joined != [] && call.sends <= 1)
  {
    hide LockInv, TokensInv, Books;
    Reachable(locks, now, es);
    var s := After(Init(locks, now), es);
    assert CallInv(s, s.calls[c]);
  }

  /**
    In every run, with or without locks: whoever presents a token that a session rotated out is refused;
    this revokes that session if it is live and the grace period is over, and changes nothing else.
   */
  lemma RotatedOutTokensAreRefused(
    locks: bool, now: int, es: seq<Event>, t: Token, nextToken: Token, banned: bool, i: nat)
    requires Allowed(Init(locks, now), es)
    requires var sv := After(Init(locks, now), es).server;
             i < |sv.sessions| && sv.sessions[i].previous == Some(t)
    ensures var sv := After(Init(locks, now), es).server;
            var session := sv.sessions[i];
            Refresh(sv, t, nextToken, banned) ==
            (if session.revoked == None && sv.now - session.rotatedAt > 15_000
             then WithSession(sv, i, session.(revoked := Some(ReuseDetected)))
             else sv,
             Rejected)
  {
    Reachable(locks, now, es);
    hide Refresh, Books, TabsInv, LockInv, CallsInv, TokensInv;
    RotatedOutTokenIsRefused(After(Init(locks, now), es).server, t, nextToken, banned, i);
  }

  /** The token that a step hands to the server's `refresh`. */
  function Presents(s: State, e: Event): Option<Token>
    requires Enabled(s, e)
  {
    match e
    case Serve(f, _, _, stopped) => if stopped then None else PhaseOf(s, f).token
    case ServeAbandoned(k, _, _, stopped) => if stopped then None else Some(s.abandoned[k])
    case _ => None
  }

  /** Some step of the run presents the token that session `i` rotated out, too late for a benign race. */
  ghost predicate EverReused(s: State, es: seq<Event>, i: nat)
    requires Allowed(s, es)
    decreases |es|
  {
    es != [] &&
    ((Presents(s, es[0]).Some? && Reuses(s.server, Presents(s, es[0]).value, i)) ||
     EverReused(Step(s, es[0]), es[1..], i))
  }

  lemma StepRevokesReused(s: State, e: Event, i: nat)
    requires Books(s.server) && Enabled(s, e)
    ensures RevokedForReuse(Step(s, e).server, i) <==>
            RevokedForReuse(s.server, i) || (Presents(s, e).Some? && Reuses(s.server, Presents(s, e).value, i))
  {
    hide Refresh, Books, Reuses;
    match e
    case Serve(_, nextToken, banned, stopped) =>
      if !stopped { RefreshRevokesReused(s.server, Presents(s, e).value, nextToken, banned, i); }
    case ServeAbandoned(_, nextToken, banned, stopped) =>
      if !stopped { RefreshRevokesReused(s.server, Presents(s, e).value, nextToken, banned, i); }
    case _ =>
  }

  lemma {:induction false} RunRevokesReused(s: State, es: seq<Event>, i: nat)
    requires Books(s.server) && Allowed(s, es)
    ensures RevokedForReuse(After(s, es).server, i) <==> RevokedForReuse(s.server, i) || EverReused(s, es, i)
    decreases |es|
  {
    hide Books, Reuses, RevokedForReuse, Presents, Step, Enabled;
    if es != [] {
      StepRevokesReused(s, es[0], i);
      StepKeepsBooks(s, es[0]);
      RunRevokesReused(Step(s, es[0]), es[1..], i);
    }
  }

  /**
    In every run, with or without locks: a session ends revoked for reuse exactly when some step, of a
    flight or of an abandoned request, presented its rotated-out token while it was live and the grace
    period was over.
   */
  lemma ReuseIsRevokedExactly(locks: bool, now: int, es: seq<Event>, i: nat)
    requires Allowed(Init(locks, now), es)
    ensures RevokedForReuse(After(Init(locks, now), es).server, i) <==> EverReused(Init(locks, now), es, i)
  {
    RunRevokesReused(Init(locks, now), es, i);
  }

  // ---- Termination ---------------------------------------------------------------------------

  function FlightRank(phase: Phase): nat {
    match phase
    case Queued => 6
    case Ready => 5
    case Sent(_) => 4
    case Served(_, _) => 3
    case Delivered(_) => 2
    case Settled(_) => 0
  }

  function CallRank(phase: CallPhase): nat {
    match phase
    case First => 10
    case Waiting(_) => 2
    case Second => 1
    case Done(_) => 0
  }

  function FlightWork(fs: seq<Flight>): nat {
    if fs == [] then 0 else FlightWork(fs[..|fs| - 1]) + FlightRank(fs[|fs| - 1].phase)
  }

  function CallWork(cs: seq<Call>): nat {
    if cs == [] then 0 else CallWork(cs[..|cs| - 1]) + CallRank(cs[|cs| - 1].phase)
  }

  /** The steps that are still to come for what has been started. */
  function Work(s: State): nat { FlightWork(s.flights) + CallWork(s.calls) + |s.abandoned| }

  lemma {:induction false} FlightWorkUpdate(fs: seq<Flight>, i: nat, x: Flight)
    requires i < |fs|
    ensures FlightWork(fs[i := x]) + FlightRank(fs[i].phase) == FlightWork(fs) + FlightRank(x.phase)
    ensures FlightWork(fs + [x]) == FlightWork(fs) + FlightRank(x.phase)
  {
    var n := |fs| - 1;
    assert (fs + [x])[..|fs|] == fs;
    if i == n {
      assert fs[i := x][..n] == fs[..n];
    } else {
      FlightWorkUpdate(fs[..n], i, x);
      assert fs[i := x][..n] == fs[..n][i := x];
    }
  }

  lemma {:induction false} CallWorkUpdate(cs: seq<Call>, i: nat, x: Call)
    requires i < |cs|
    ensures CallWork(cs[i := x]) + CallRank(cs[i].phase) == CallWork(cs) + CallRank(x.phase)
  {
    var n := |cs| - 1;
    if i == n {
      assert cs[i := x][..n] == cs[..n];
    } else {
      CallWorkUpdate(cs[..n], i, x);
      assert cs[i := x][..n] == cs[..n][i := x];
    }
  }

  lemma FlightWorkAppend(fs: seq<Flight>, x: Flight)
    ensures FlightWork(fs + [x]) == FlightWork(fs) + FlightRank(x.phase)
  {
    assert (fs + [x])[..|fs|] == fs;
  }

  /** Every step of a call, a flight or the lock manager uses up work. */
  lemma InternalStepWorks(s: State, e: Event)
    requires TabsInv(s) && LockInv(s) && Internal(e) && Enabled(s, e)
    ensures Work(Step(s, e)) < Work(s)
  {
    hide Refresh, TabsInv, LockInv, FlightWork, CallWork;
    var s' := Step(s, e);
    if e.FirstAnswer? || e.Resume? || e.SecondAnswer? {
      CallWorkUpdate(s.calls, e.call, s'.calls[e.call]);
      if |s'.flights| > |s.flights| { FlightWorkAppend(s.flights, s'.flights[|s.flights|]); }
    } else if !e.ServeAbandoned? {
      if e.Grant? { QueueHead(s); }
      var f := if e.Grant? then s.queue[0] else e.flight;
      FlightWorkUpdate(s.flights, f, s'.flights[f]);
    }
  }

  /** Steps of what has been started are bounded, whatever their order. */
  lemma {:induction false} InternalRunsAreBounded(s: State, es: seq<Event>)
    requires Inv(s) && Allowed(s, es) && forall i | 0 <= i < |es| :: Internal(es[i])
    ensures |es| <= Work(s)
    decreases |es|
  {
    hide TabsInv, LockInv, CallsInv, TokensInv, Books, Work;
    if es != [] {
      InternalStepWorks(s, es[0]);
      assert Allowed(s, es[..1]) by { assert es[..1][1..] == []; }
      RunKeepsInv(s, es[..1]);
      assert After(s, es[..1]) == Step(s, es[0]) by { assert es[..1][1..] == []; }
      InternalRunsAreBounded(Step(s, es[0]), es[1..]);
    }
  }

  lemma {:induction false} NoFlightWork(fs: seq<Flight>)
    ensures FlightWork(fs) == 0 <==> forall f | 0 <= f < |fs| :: fs[f].phase.Settled?
  {
    if fs != [] { NoFlightWork(fs[..|fs| - 1]); }
  }

  lemma {:induction false} NoCallWork(cs: seq<Call>)
    ensures CallWork(cs) == 0 <==> forall c | 0 <= c < |cs| :: cs[c].phase.Done?
  {
    if cs != [] { NoCallWork(cs[..|cs| - 1]); }
  }

  /** Every finite set of tokens leaves one unused. */
  lemma UnusedToken(issued: set<Token>) returns (t: Token)
    ensures t !in issued
  {
    t := Above(issued);
  }

  lemma {:induction false} Above(issued: set<Token>) returns (t: Token)
    ensures forall u | u in issued :: u < t
  {
    if issued == {} {
      t := 0;
    } else {
      var u :| u in issued;
      var v := Above(issued - {u});
      t := if u < v then v else u + 1;
      assert issued == issued - {u} + {u};
    }
  }

  predicate Loss(e: Event) { e.LoseRequest? || e.LoseReply? || e.Abandon? }

  /** No deadlock: while a call or a flight is unfinished, a step of one can happen, without any loss. */
  lemma Progress(s: State)
    requires Inv(s)
    ensures Work(s) == 0 <==> (forall f | 0 <= f < |s.flights| :: s.flights[f].phase.Settled?) &&
                              (forall c | 0 <= c < |s.calls| :: s.calls[c].phase.Done?) &&
                              s.abandoned == []
    ensures Work(s) > 0 ==> exists e :: Internal(e) && !Loss(e) && Enabled(s, e)
  {
    NoFlightWork(s.flights);
    NoCallWork(s.calls);
    if f: nat :| f < |s.flights| && !s.flights[f].phase.Settled? {
      FlightProgress(s, f);
    } else if c: nat :| c < |s.calls| && !s.calls[c].phase.Done? {
      assert CallInv(s, s.calls[c]);
      var e := match s.calls[c].phase
               case First => FirstAnswer(c, false)
               case Second => SecondAnswer(c)
               case _ => Resume(c);
      assert Internal(e) && Enabled(s, e);
    } else if s.abandoned != [] {
      var t := UnusedToken(s.server.issued);
      var e := ServeAbandoned(0, t, false, false);
      assert Internal(e) && Enabled(s, e);
    }
  }

  lemma FlightProgress(s: State, f: nat)
    requires Inv(s) && f < |s.flights| && !s.flights[f].phase.Settled?
    ensures exists e :: Internal(e) && !Loss(e) && Enabled(s, e)
  {
    hide TokensInv, CallsInv;
    var g := if s.flights[f].phase.Queued? && s.lock.Some? then s.lock.value else f;
    var t := UnusedToken(s.server.issued);
    var e := match s.flights[g].phase
             case Queued => Grant
             case Ready => SendRefresh(g)
             case Sent(token) => Serve(g, t, false, token == None)
             case Served(_, _) => Deliver(g)
             case Delivered(_) => Settle(g)
             case Settled(_) => Grant;
    if e.Grant? { QueueHead(s); }
    assert Internal(e) && Enabled(s, e);
  }

  // ---- Where the promise ends ----------------------------------------------------------------

  lemma {:induction false} RunOneMore(s: State, es: seq<Event>, e: Event)
    requires Allowed(s, es) && Enabled(After(s, es), e)
    ensures Allowed(s, es + [e]) && After(s, es + [e]) == Step(After(s, es), e)
    decreases |es|
  {
    if es == [] {
      assert (es + [e])[1..] == [];
    } else {
      assert (es + [e])[1..] == es[1..] + [e];
      RunOneMore(Step(s, es[0]), es[1..], e);
    }
  }

  /** Two requests out with one token: once both are served, it has been presented twice. */
  lemma BothServed(s0: State, es: seq<Event>, f: nat, g: nat) returns (es': seq<Event>)
    requires Allowed(s0, es) && f != g
    requires var s := After(s0, es);
             && f < |s.flights| && g < |s.flights| && PhaseOf(s, f) == PhaseOf(s, g)
             && PhaseOf(s, f).Sent? && PhaseOf(s, f).token.Some? && PhaseOf(s, f).token.value !in Excused(s)
    ensures Allowed(s0, es') && Excused(After(s0, es')) == Excused(After(s0, es)) && !NoReplay(After(s0, es'))
  {
    hide Refresh;
    var s := After(s0, es);
    var t := UnusedToken(s.server.issued);
    var e1 := Serve(f, t, false, false);
    RunOneMore(s0, es, e1);
    var s1 := Step(s, e1);
    var u := UnusedToken(s1.server.issued);
    var e2 := Serve(g, u, false, false);
    RunOneMore(s0, es + [e1], e2);
    es' := es + [e1] + [e2];
    var n, s2 := |s.presented|, Step(s1, e2);
    assert s2.presented[n] == s2.presented[n + 1] == PhaseOf(s, f).token.value;
  }

  /** Two tabs load; without Web Locks both present the same token although nothing is lost or late. */
  lemma WithoutLocksTokensAreReplayed(now: int) returns (es: seq<Event>)
    ensures Allowed(Init(false, now), es) && Excused(After(Init(false, now), es)) == {}
    ensures !NoReplay(After(Init(false, now), es))
  {
    hide Refresh, NoReplay;
    var s0 := Init(false, now);
    es := [];
    es := Then(s0, es, OpenTab);
    es := Then(s0, es, OpenTab);
    es := Then(s0, es, Login(1, now + 1));
    es := Then(s0, es, StartCall(0, Direct));
    es := Then(s0, es, StartCall(1, Direct));
    es := Then(s0, es, SendRefresh(0));
    es := Then(s0, es, SendRefresh(1));
    es := BothServed(s0, es, 0, 1);
  }

  lemma Then(s0: State, es: seq<Event>, e: Event) returns (es': seq<Event>)
    requires Allowed(s0, es) && Enabled(After(s0, es), e)
    ensures Allowed(s0, es') && After(s0, es') == Step(After(s0, es), e)
  {
    RunOneMore(s0, es, e);
    es' := es + [e];
  }

  /** As long as no reply is lost and no request late, the Web Lock is what keeps tokens from being presented twice. */
  lemma LocksPreventReplay(locks: bool, now: int)
    ensures locks <==> forall es | Allowed(Init(locks, now), es) && Excused(After(Init(locks, now), es)) == {} ::
                         NoReplay(After(Init(locks, now), es))
  {
    if locks {
      forall es | Allowed(Init(true, now), es) ensures NoReplay(After(Init(true, now), es)) {
        RefreshIsSafe(now, es);
      }
    } else {
      var es := WithoutLocksTokensAreReplayed(now);
    }
  }

  /** The browser after a refresh whose reply was lost: the cookie is still the spent token 1. */
  function AfterLostReply(now: int, expiresAt: int): State {
    State(true, Server([Session(2, Some(1), now, expiresAt, None)], {1, 2}, now), Some(1), [1], {1}, {}, [], None, [],
          [Tab(None, None)], [Flight(0, Settled(false))], [Call(0, Direct, Waiting(0), 0, [0])])
  }

  /** The browser while its first refresh request, with the cookie 1, is out. */
  function FirstRefreshOut(now: int, expiresAt: int): State {
    State(true, Server([Session(1, None, 0, expiresAt, None)], {1}, now), Some(1), [], {}, {}, [], Some(0), [],
          [Tab(Some(0), None)], [Flight(0, Sent(Some(1)))], [Call(0, Direct, Waiting(0), 0, [0])])
  }

  /** The browser once its first call has started and waits for the lock. */
  function FirstRefreshQueued(now: int, expiresAt: int): State {
    FirstRefreshOut(now, expiresAt).(lock := None, queue := [0], flights := [Flight(0, Queued)])
  }

  lemma StartFirstRefresh(now: int, expiresAt: int) returns (es: seq<Event>)
    ensures Allowed(Init(true, now), es) && After(Init(true, now), es) == FirstRefreshQueued(now, expiresAt)
  {
    hide Refresh;
    var s0, t := Init(true, now), FirstRefreshQueued(now, expiresAt);
    es := [];
    es := Then(s0, es, OpenTab);
    es := Then(s0, es, Login(1, expiresAt));
    assert After(s0, es).tabs == [Tab(None, None)] && After(s0, es).server.issued == {1};
    es := Then(s0, es, StartCall(0, Direct));
    var s := After(s0, es);
    assert s.tabs == t.tabs && s.flights == t.flights && s.queue == t.queue;
    assert s.calls == t.calls by { assert s.calls[0].joined == [0]; }
  }

  lemma SendFirstRefresh(now: int, expiresAt: int) returns (es: seq<Event>)
    ensures Allowed(Init(true, now), es) && After(Init(true, now), es) == FirstRefreshOut(now, expiresAt)
  {
    hide Refresh, JoinFlight;
    var s0 := Init(true, now);
    es := StartFirstRefresh(now, expiresAt);
    es := Then(s0, es, Grant);
    es := Then(s0, es, SendRefresh(0));
    var s, t := After(s0, es), FirstRefreshOut(now, expiresAt);
    assert s.flights == t.flights && s.queue == [];
  }

  lemma LosingSteps(now: int, expiresAt: int)
    requires now < expiresAt
    ensures
      var s := FirstRefreshOut(now, expiresAt);
      && Enabled(s, Serve(0, 2, false, false))
      && var s1 := Step(s, Serve(0, 2, false, false));
      && Enabled(s1, LoseReply(0))
      && var s2 := Step(s1, LoseReply(0));
      && Enabled(s2, Settle(0)) && Step(s2, Settle(0)) == AfterLostReply(now, expiresAt)
  {
    hide JoinFlight, SetCall;
    var s := FirstRefreshOut(now, expiresAt);
    assert FindCurrent(s.server.sessions, 1, 0) == 0;
  }

  lemma LoseOneReply(now: int, expiresAt: int) returns (es: seq<Event>)
    requires now < expiresAt
    ensures Allowed(Init(true, now), es) && After(Init(true, now), es) == AfterLostReply(now, expiresAt)
  {
    hide Step, Enabled, Init, AfterLostReply;
    var s0 := Init(true, now);
    LosingSteps(now, expiresAt);
    es := SendFirstRefresh(now, expiresAt);
    es := Then(s0, es, Serve(0, 2, false, false));
    es := Then(s0, es, LoseReply(0));
    es := Then(s0, es, Settle(0));
  }

  /** The browser when the spent token 1 is presented again, later. */
  function PresentedAgain(now: int, expiresAt: int, later: int): State {
    var s := AfterLostReply(now, expiresAt);
    s.(server := s.server.(now := later), lock := Some(1), tabs := [Tab(Some(1), None)],
       flights := s.flights + [Flight(0, Sent(Some(1)))],
       calls := s.calls + [Call(0, Direct, Waiting(1), 0, [1])])
  }

  /** The same browser while that refresh waits for the lock. */
  function QueuedAgain(now: int, expiresAt: int, later: int): State {
    PresentedAgain(now, expiresAt, later).(lock := None, queue := [1],
      flights := [Flight(0, Settled(false)), Flight(0, Queued)])
  }

  lemma QueueingSteps(now: int, expiresAt: int, later: int)
    requires now <= later
    ensures
      var s := AfterLostReply(now, expiresAt);
      && Enabled(s, Tick(later))
      && var s1 := Step(s, Tick(later));
      && Enabled(s1, StartCall(0, Direct)) && Step(s1, StartCall(0, Direct)) == QueuedAgain(now, expiresAt, later)
  {
    hide Refresh, EndRequest, SetCall;
    var t := QueuedAgain(now, expiresAt, later);
    var s2 := Step(Step(AfterLostReply(now, expiresAt), Tick(later)), StartCall(0, Direct));
    assert s2.calls[1].joined == [1] && s2.calls == t.calls;
    assert s2.flights == t.flights && s2.queue == [1] && s2.tabs == t.tabs;
  }

  lemma PresentingSteps(now: int, expiresAt: int, later: int)
    ensures
      var s := QueuedAgain(now, expiresAt, later);
      && Enabled(s, Grant)
      && var s1 := Step(s, Grant);
      && Enabled(s1, SendRefresh(1)) && Step(s1, SendRefresh(1)) == PresentedAgain(now, expiresAt, later)
  {
    hide Refresh, EndRequest, SetCall, JoinFlight;
    var t := PresentedAgain(now, expiresAt, later);
    var s2 := Step(Step(QueuedAgain(now, expiresAt, later), Grant), SendRefresh(1));
    assert s2.flights == t.flights && s2.queue == t.queue;
  }

  /** A reply is lost and more than 15 s pass: the next refresh revokes the member's own session. */
  lemma LostReplyRevokesSession(now: int) returns (es: seq<Event>)
    ensures Allowed(Init(true, now), es)
    ensures var s := After(Init(true, now), es);
            |s.server.sessions| == 1 && s.server.sessions[0].revoked == Some(ReuseDetected)
  {
    var s0 := Init(true, now);
    var later := now + REUSE_GRACE_MS + 1;
    es := PresentAgain(now, later + 1, later);
    es := Then(s0, es, Serve(1, 3, false, false));
  }

  lemma PresentAgain(now: int, expiresAt: int, later: int) returns (es: seq<Event>)
    requires now < expiresAt && now <= later
    ensures Allowed(Init(true, now), es) && After(Init(true, now), es) == PresentedAgain(now, expiresAt, later)
  {
    hide Step, Enabled, Init, AfterLostReply, PresentedAgain, QueuedAgain;
    var s0 := Init(true, now);
    QueueingSteps(now, expiresAt, later);
    PresentingSteps(now, expiresAt, later);
    es := LoseOneReply(now, expiresAt);
    es := Then(s0, es, Tick(later));
    es := Then(s0, es, StartCall(0, Direct));
    es := Then(s0, es, Grant);
    es := Then(s0, es, SendRefresh(1));
  }
}
