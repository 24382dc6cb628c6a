/**
  What the history of a run says of its end: which calls refreshed, how flights ended, what is left of a
  revoked session, and which access token a tab holds.
 */
module RefreshStories {
  import opened Wrappers
  import opened RefreshServer
  import opened RefreshProtocol
  import opened RefreshSafety
  import opened RefreshRuns

  /** A run is its steps but the last, and the last. */
  lemma {:induction false} RunEnds(s: State, es: seq<Event>)
    requires Allowed(s, es) && es != []
    ensures
      var front, last := es[..|es| - 1], es[|es| - 1];
      Allowed(s, front) && Enabled(After(s, front), last) && After(s, es) == Step(After(s, front), last)
    decreases |es|
  {
    hide Step, Enabled;
    if |es| == 1 {
      assert es[..0] == [] && es[1..] == [];
    } else {
      RunEnds(Step(s, es[0]), es[1..]);
      var front := es[..|es| - 1];
      assert front[0] == es[0] && front[1..] == es[1..][..|es| - 2];
    }
  }

  // ---- Which calls refresh -------------------------------------------------------------------

  /** What makes call `c` refresh: its kind, or a 401 to a request that may be retried. */
  predicate Refreshes(call: Call, c: nat, es: seq<Event>) {
    || call.kind == Direct
    || (FirstAnswer(c, true) in es && (call.kind == Download || call.kind == Json(true)))
  }

  lemma JoinFlightJoins(s: State, c: nat)
    requires c < |s.calls| && s.calls[c].tab < |s.tabs|
    ensures
      var calls := JoinFlight(s, c).calls;
      && |calls| == |s.calls| && calls[c].kind == s.calls[c].kind && calls[c].joined != []
      && forall d | 0 <= d < |calls| && d != c :: calls[d] == s.calls[d]
  {
  }

  /** A 401 to a request that may be retried: a download, or an authenticated one. */
  predicate Unauthorized(e: Event, c: nat, kind: Kind) {
    e == FirstAnswer(c, true) && (kind == Download || kind == Json(true))
  }

  /** One step: a call joins a flight exactly when it starts as a refresh or gets such a 401. */
  lemma StepJoins(s: State, e: Event, c: nat)
    requires Enabled(s, e) && c < |Step(s, e).calls|
    ensures
      var call := Step(s, e).calls[c];
      if c < |s.calls| then
        && call.kind == s.calls[c].kind
        && (call.joined != [] <==> s.calls[c].joined != [] || Unauthorized(e, c, call.kind))
      else e.StartCall? && (call.joined != [] <==> call.kind == Direct)
  {
    hide Refresh, JoinFlight, EndRequest, SetPhase;
    match e
    case StartCall(t, kind) =>
      if kind == Direct {
        JoinFlightJoins(s.(calls := s.calls + [Call(t, kind, First, 0, [])]), |s.calls|);
      }
    case FirstAnswer(d, _) => JoinFlightJoins(s, d);
    case Resume(_) =>
    case SecondAnswer(_) =>
    case _ => CallsStay(s, e);
  }

  lemma RefreshesEnds(call: Call, c: nat, front: seq<Event>, last: Event)
    ensures Refreshes(call, c, front + [last]) <==>
            Refreshes(call, c, front) || Unauthorized(last, c, call.kind)
  {
  }

  lemma {:induction false} RunJoins(locks: bool, now: int, es: seq<Event>, c: nat)
    requires Allowed(Init(locks, now), es)
    ensures
      var s := After(Init(locks, now), es);
      if c < |s.calls| then s.calls[c].joined != [] <==> Refreshes(s.calls[c], c, es)
      else FirstAnswer(c, true) !in es
    decreases |es|
  {
    hide Step, Refreshes;
    if es != [] {
      var front, last := es[..|es| - 1], es[|es| - 1];
      RunEnds(Init(locks, now), es);
      RunJoins(locks, now, front, c);
      var s := After(Init(locks, now), front);
      assert es == front + [last];
      CallsRemain(s, last);
      if c < |Step(s, last).calls| {
        NoAnswerNoRefresh(Step(s, last).calls[c], c, front);
        StepJoins(s, last, c);
        RefreshesEnds(Step(s, last).calls[c], c, front, last);
      }
    }
  }

  lemma NoAnswerNoRefresh(call: Call, c: nat, es: seq<Event>)
    ensures FirstAnswer(c, true) !in es ==> (Refreshes(call, c, es) <==> call.kind == Direct)
    ensures forall other: Call | other.kind == call.kind :: Refreshes(other, c, es) == Refreshes(call, c, es)
  {
  }

  lemma CallsRemain(s: State, e: Event)
    requires Enabled(s, e)
    ensures |s.calls| <= |Step(s, e).calls|
    ensures e.FirstAnswer? ==> e.call < |s.calls|
  {
    hide Refresh;
  }

  /**
    In every run, with or without locks, a call refreshes exactly when it is a refresh itself or its first
    request, a download or an authenticated one, was answered with a 401.
   */
  lemma CallsRefreshExactlyOn401(locks: bool, now: int, es: seq<Event>, c: nat)
    requires Allowed(Init(locks, now), es) && c < |After(Init(locks, now), es).calls|
    ensures
      var call := After(Init(locks, now), es).calls[c];
      call.joined != [] <==>
        || call.kind == Direct
        || (FirstAnswer(c, true) in es && (call.kind == Download || call.kind == Json(true)))
  {
    RunJoins(locks, now, es, c);
  }

  // ---- How flights end -----------------------------------------------------------------------

  /** The server answers flight `f` with a new token: the one presented is current, live, and not banned. */
  ghost predicate Rotates(s: State, e: Event, f: nat)
    requires Enabled(s, e)
  {
    && e.Serve? && e.flight == f && !e.stopped && !e.banned
    && exists i: nat :: Refreshable(s.server, PhaseOf(s, f).token.value, i)
  }

  ghost predicate EverRotates(s: State, es: seq<Event>, f: nat)
    requires Allowed(s, es)
    decreases |es|
  {
    es != [] && (Rotates(s, es[0], f) || EverRotates(Step(s, es[0]), es[1..], f))
  }

  lemma {:induction false} EverRotatesEnds(s: State, es: seq<Event>, f: nat)
    requires Allowed(s, es) && es != []
    ensures
      var front, last := es[..|es| - 1], es[|es| - 1];
      && Allowed(s, front) && Enabled(After(s, front), last)
      && (EverRotates(s, es, f) <==> EverRotates(s, front, f) || Rotates(After(s, front), last, f))
    decreases |es|
  {
    RunEnds(s, es);
    hide Step, Enabled, Rotates;
    if |es| == 1 {
      assert es[..0] == [] && es[1..] == [];
    } else {
      EverRotatesEnds(Step(s, es[0]), es[1..], f);
      var front := es[..|es| - 1];
      assert front[0] == es[0] && front[1..] == es[1..][..|es| - 2];
    }
  }

  /** Where a flight stands says whether it was served with a new token and whether the reply came. */
  ghost predicate FlightStory(s: State, f: nat, rotated: bool, delivered: bool) {
    if f >= |s.flights| then !rotated && !delivered
    else
      match s.flights[f].phase
      case Served(_, reply) => (reply.NewCookie? <==> rotated) && !delivered
      case Delivered(ok) => ok <==> rotated && delivered
      case Settled(ok) => ok <==> rotated && delivered
      case _ => !rotated && !delivered
  }

  /** The reply: a new cookie for a rotation, none for a refusal, and no change where the request was stopped. */
  lemma ServeRotates(s: State, e: Event)
    requires Books(s.server) && Enabled(s, e) && e.Serve?
    ensures
      var s' := Step(s, e);
      && |s'.flights| == |s.flights| && s'.flights[e.flight].phase.Served?
      && (s'.flights[e.flight].phase.reply.NewCookie? <==> Rotates(s, e, e.flight))
      && (s'.flights[e.flight].phase.reply == CookieKept <==> e.stopped)
      && forall f | 0 <= f < |s.flights| && f != e.flight :: s'.flights[f] == s.flights[f]
  {
    hide Refresh, Books;
    if !e.stopped { RotatesExactly(s.server, PhaseOf(s, e.flight).token.value, e.nextToken, e.banned); }
  }

  lemma StepTellsFlights(s: State, e: Event, f: nat, rotated: bool, delivered: bool)
    requires Books(s.server) && LockInv(s) && Enabled(s, e) && FlightStory(s, f, rotated, delivered)
    ensures FlightStory(Step(s, e), f, rotated || Rotates(s, e, f), delivered || e == Deliver(f))
  {
    hide Refresh, Books, LockInv, Rotates, Refreshable;
    if e.Serve? {
      ServeRotates(s, e);
      if e.flight != f { NotItsServe(s, e, f); }
      hide Step;
    } else {
      NotItsServe(s, e, f);
      if e.Grant? { QueueHead(s); }
    }
  }

  lemma NotItsServe(s: State, e: Event, f: nat)
    requires Enabled(s, e) && !(e.Serve? && e.flight == f)
    ensures !Rotates(s, e, f)
  {
  }

  lemma {:induction false} RunTellsFlights(locks: bool, now: int, es: seq<Event>, f: nat)
    requires Allowed(Init(locks, now), es)
    ensures FlightStory(After(Init(locks, now), es), f, EverRotates(Init(locks, now), es, f), Deliver(f) in es)
    decreases |es|
  {
    if es != [] {
      var front, last := es[..|es| - 1], es[|es| - 1];
      RunEnds(Init(locks, now), es);
      EverRotatesEnds(Init(locks, now), es, f);
      RunTellsFlights(locks, now, front, f);
      Reachable(locks, now, front);
      assert es == front + [last];
      hide Step, Enabled, TabsInv, LockInv, CallsInv, Books, TokensInv, After, Allowed, Init, EverRotates, Rotates;
      hide FlightStory;
      var s0 := Init(locks, now);
      StepTellsFlights(After(s0, front), last, f, EverRotates(s0, front, f), Deliver(f) in front);
    }
  }

  /**
    In every run, with or without locks, a flight that ended, ended well exactly when the server rotated
    a live current token for it and that reply was delivered.
   */
  lemma FlightsEndWellExactly(locks: bool, now: int, es: seq<Event>, f: nat)
    requires Allowed(Init(locks, now), es) && f < |After(Init(locks, now), es).flights|
    ensures
      var phase := After(Init(locks, now), es).flights[f].phase;
      phase.Delivered? || phase.Settled? ==>
        (phase.ok <==> EverRotates(Init(locks, now), es, f) && Deliver(f) in es)
  {
    RunTellsFlights(locks, now, es, f);
  }

  // ---- The cookie ----------------------------------------------------------------------------

  /** With Web Locks a delivered success leaves a current token in the jar, and a refusal leaves none. */
  lemma DeliveryFillsTheJar(now: int, es: seq<Event>, f: nat)
    requires Allowed(Init(true, now), es) && Enabled(After(Init(true, now), es), Deliver(f))
    ensures
      var s := After(Init(true, now), es);
      var s' := Step(s, Deliver(f));
      match PhaseOf(s, f).reply
      case NewCookie(next) => s'.cookie == Some(next) && IsCurrent(s'.server, next)
      case CookieCleared => s'.cookie == None
      case CookieKept => s'.cookie == s.cookie
  {
    Reachable(true, now, es);
    var s := After(Init(true, now), es);
    hide Allowed, After, Init;
    assert FlightTokens(s, s.flights[f].phase) && ServerInv(s.server, Spent(s));
  }

  // ---- Revoked sessions ----------------------------------------------------------------------

  lemma StepKeepsRevoked(s: State, e: Event, i: nat)
    requires Enabled(s, e) && i < |s.server.sessions| && s.server.sessions[i].revoked != None
    ensures i < |Step(s, e).server.sessions| && Step(s, e).server.sessions[i] == s.server.sessions[i]
  {
    hide Refresh;
    match e
    case Serve(f, nextToken, banned, stopped) =>
      if !stopped { RevokedSessionStays(s.server, PhaseOf(s, f).token.value, nextToken, banned, i); }
    case ServeAbandoned(k, nextToken, banned, _) =>
      RevokedSessionStays(s.server, s.abandoned[k], nextToken, banned, i);
    case _ =>
  }

  /** Once revoked, for whatever reason, a session is never rotated or changed again. */
  lemma {:induction false} RevokedStaysRevoked(s: State, es: seq<Event>, i: nat)
    requires Allowed(s, es) && i < |s.server.sessions| && s.server.sessions[i].revoked != None
    ensures i < |After(s, es).server.sessions| && After(s, es).server.sessions[i] == s.server.sessions[i]
    decreases |es|
  {
    hide Step, Enabled;
    if es != [] {
      StepKeepsRevoked(s, es[0], i);
      RevokedStaysRevoked(Step(s, es[0]), es[1..], i);
    }
  }

  // ---- Access tokens -------------------------------------------------------------------------

  function TokenAt(s: State, t: nat): Option<nat> { if t < |s.tabs| then s.tabs[t].accessToken else None }

  /** Flight `f` of tab `t` settles, having succeeded. */
  predicate Brings(s: State, e: Event, t: nat, f: nat) {
    e == Settle(f) && f < |s.flights| && s.flights[f] == Flight(t, Delivered(true))
  }

  /** A call of tab `t` expires: the refresh that its 401 started has failed. */
  predicate Drops(s: State, e: Event, t: nat) {
    && e.Resume? && e.call < |s.calls| && s.calls[e.call].tab == t && s.calls[e.call].kind != Direct
    && s.calls[e.call].phase.Waiting? && s.calls[e.call].phase.flight < |s.flights|
    && s.flights[s.calls[e.call].phase.flight].phase == Settled(false)
  }

  predicate Changes(s: State, e: Event, t: nat) { (e.Settle? && Brings(s, e, t, e.flight)) || Drops(s, e, t) }

  ghost predicate EverChanges(s: State, es: seq<Event>, t: nat)
    requires Allowed(s, es)
    decreases |es|
  {
    es != [] && (Changes(s, es[0], t) || EverChanges(Step(s, es[0]), es[1..], t))
  }

  /** Some step brings the token of flight `f`, and no later one brings or drops a token of the tab. */
  ghost predicate LastBrought(s: State, es: seq<Event>, t: nat, f: nat)
    requires Allowed(s, es)
    decreases |es|
  {
    es != [] &&
    ((Brings(s, es[0], t, f) && !EverChanges(Step(s, es[0]), es[1..], t)) ||
     LastBrought(Step(s, es[0]), es[1..], t, f))
  }

  lemma JoinKeepsTokens(s: State, c: nat, t: nat)
    requires c < |s.calls| && s.calls[c].tab < |s.tabs|
    ensures TokenAt(JoinFlight(s, c), t) == TokenAt(s, t)
  {
  }

  lemma StepTokens(s: State, e: Event, t: nat, f: nat)
    requires Enabled(s, e)
    ensures TokenAt(Step(s, e), t) == Some(f) <==>
            Brings(s, e, t, f) || (TokenAt(s, t) == Some(f) && !Changes(s, e, t))
  {
    hide Refresh, JoinFlight;
    match e
    case StartCall(tab, kind) =>
      var call := Call(tab, kind, First, if kind == Direct then 0 else 1, []);
      JoinKeepsTokens(s.(calls := s.calls + [call]), |s.calls|, t);
    case FirstAnswer(c, _) => JoinKeepsTokens(s, c, t);
    case _ =>
  }

  lemma {:induction false} RunTokens(s: State, es: seq<Event>, t: nat, f: nat)
    requires Allowed(s, es)
    ensures TokenAt(After(s, es), t) == Some(f) <==>
            LastBrought(s, es, t, f) || (TokenAt(s, t) == Some(f) && !EverChanges(s, es, t))
    decreases |es|
  {
    hide Step, Enabled, Brings, Changes, TokenAt;
    if es != [] {
      StepTokens(s, es[0], t, f);
      RunTokens(Step(s, es[0]), es[1..], t, f);
    }
  }

  /**
    In every run a tab's access token is that of its latest successful flight, if there was one and no
    call of the tab has expired since.
   */
  lemma TokenIsLastBrought(locks: bool, now: int, es: seq<Event>, t: nat, f: nat)
    requires Allowed(Init(locks, now), es) && t < |After(Init(locks, now), es).tabs|
    ensures After(Init(locks, now), es).tabs[t].accessToken == Some(f) <==> LastBrought(Init(locks, now), es, t, f)
  {
    RunTokens(Init(locks, now), es, t, f);
  }
}
