/**
  What every run of the refresh protocol keeps: one flight per tab, one request per browser, and no
  refresh token presented twice unless a reply was lost or an abandoned request came late.
 */
module RefreshSafety {
  import opened Wrappers
  import opened RefreshServer
  import opened RefreshProtocol

  function Init(locks: bool, now: int): State {
    State(locks, Server([], {}, now), None, [], {}, {}, [], None, [], [], [], [])
  }

  // ---- Invariants ----------------------------------------------------------------------------

  /** `refreshInFlight` names the one unsettled flight of its tab, and is null when there is none. */
  ghost predicate TabsInv(s: State) {
    && (forall c | 0 <= c < |s.calls| :: s.calls[c].tab < |s.tabs|)
    && (forall f | 0 <= f < |s.flights| :: s.flights[f].tab < |s.tabs|)
    && (forall t | 0 <= t < |s.tabs| && s.tabs[t].refreshInFlight.Some? ::
          var f := s.tabs[t].refreshInFlight.value;
          f < |s.flights| && s.flights[f].tab == t && !s.flights[f].phase.Settled?)
    && (forall f | 0 <= f < |s.flights| && !s.flights[f].phase.Settled? ::
          s.tabs[s.flights[f].tab].refreshInFlight == Some(f))
  }

  predicate Requesting(phase: Phase) { phase.Ready? || phase.Sent? || phase.Served? }

  /** With Web Locks, the flight with a request is the holder, and the waiting ones are the queue. */
  ghost predicate LockInv(s: State) {
    && (forall f | f in s.queue :: f < |s.flights| && s.flights[f].phase == Queued)
    && (forall i, j | 0 <= i < j < |s.queue| :: s.queue[i] != s.queue[j])
    && (forall f | 0 <= f < |s.flights| && s.flights[f].phase == Queued :: f in s.queue)
    && (s.lock.Some? ==> s.lock.value < |s.flights| && Requesting(s.flights[s.lock.value].phase))
    && (s.locks ==> forall f | 0 <= f < |s.flights| && Requesting(s.flights[f].phase) :: s.lock == Some(f))
    && (!s.locks ==> s.lock == None && s.queue == [])
  }

  /** Each call has joined at most one flight of its tab, and stands where that flight has put it. */
  ghost predicate CallInv(s: State, call: Call) {
    var first := if call.kind == Direct then 0 else 1;
    match call.phase
    case First => call.kind != Direct && call.sends == 1 && call.joined == []
    case Waiting(f) =>
      && call.joined == [f] && f < |s.flights| && s.flights[f].tab == call.tab && call.sends == first
      && (call.kind == Direct || Retries(call.kind))
    case Second =>
      && Retries(call.kind) && call.sends == 2
      && |call.joined| == 1 && call.joined[0] < |s.flights| && s.flights[call.joined[0]].phase == Settled(true)
    case Done(refreshFailed) =>
      if call.joined == [] then call.kind != Direct && call.sends == 1 && !refreshFailed
      else
        && |call.joined| == 1 && call.joined[0] < |s.flights|
        && s.flights[call.joined[0]].phase == Settled(!refreshFailed)
        && (call.kind == Direct || Retries(call.kind))
        && call.sends == if refreshFailed || call.kind == Direct then first else 2
  }

  ghost predicate CallsInv(s: State) {
    forall c | 0 <= c < |s.calls| :: CallInv(s, s.calls[c])
  }

  function Spent(s: State): set<Token> { set t | t in s.presented }

  /** The tokens that the network let the browser down with: their reply was lost, or a request came late. */
  function Excused(s: State): set<Token> { s.lost + s.late }

  /** No token was presented twice, except such ones. */
  ghost predicate NoReplay(s: State) {
    forall i, j | 0 <= i < j < |s.presented| && s.presented[i] == s.presented[j] :: s.presented[i] in Excused(s)
  }

  /** What keeps the cookie jar ahead of the server. */
  ghost predicate TokensInv(s: State) {
    && ServerInv(s.server, Spent(s))
    && NoReplay(s)
    && Excused(s) <= Spent(s)
    && (s.cookie.Some? ==> s.cookie.value in s.server.issued)
    && (forall t | t in s.abandoned :: t in s.server.issued)
    && (s.cookie.Some? && s.cookie.value in Spent(s) ==>
          s.cookie.value in Excused(s) ||
          exists f | 0 <= f < |s.flights| :: s.cookie.value in SpentBy(s.flights[f].phase))
    && (forall f | 0 <= f < |s.flights| :: FlightTokens(s, s.flights[f].phase))
    && ReuseExplained(s.server, Excused(s))
  }

  /** A session revoked for reuse rotated out one of these tokens. */
  ghost predicate ReuseExplained(sv: Server, excused: set<Token>) {
    forall i | 0 <= i < |sv.sessions| && sv.sessions[i].revoked == Some(ReuseDetected) ::
      sv.sessions[i].previous.Some? && sv.sessions[i].previous.value in excused
  }

  ghost predicate FlightTokens(s: State, phase: Phase) {
    && (phase.Sent? && phase.token.Some? ==>
          phase.token.value in s.server.issued &&
          (phase.token.value in Spent(s) ==> phase.token.value in Excused(s)))
    && (phase.Served? && phase.reply.NewCookie? ==>
          phase.reply.next in s.server.issued && phase.reply.next !in Spent(s) && phase.reply.next !in s.abandoned)
    && SpentBy(phase) <= Spent(s)
  }

  // ---- What one move does to them ------------------------------------------------------------

  lemma QueueHead(s: State)
    requires LockInv(s) && s.queue != []
    ensures s.queue[0] < |s.flights| && s.flights[s.queue[0]].phase == Queued
  {
    assert s.queue[0] in s.queue;
  }

  lemma JoinKeepsTabs(s: State, c: nat)
    requires TabsInv(s) && c < |s.calls|
    ensures TabsInv(JoinFlight(s, c))
  {
  }

  lemma MoveKeepsTabs(s: State, f: nat, phase: Phase)
    requires TabsInv(s) && f < |s.flights| && !s.flights[f].phase.Settled? && !phase.Settled?
    ensures TabsInv(SetPhase(s, f, phase))
  {
  }

  lemma SettleKeepsTabs(s: State, f: nat)
    requires TabsInv(s) && Enabled(s, Settle(f))
    ensures TabsInv(Step(s, Settle(f)))
  {
    hide Refresh, JoinFlight, EndRequest;
  }

  lemma SameTabs(s: State, s': State)
    requires TabsInv(s) && s'.tabs == s.tabs && s'.flights == s.flights && |s'.calls| == |s.calls|
    requires forall c | 0 <= c < |s.calls| :: s'.calls[c].tab == s.calls[c].tab
    ensures TabsInv(s')
  {
  }

  lemma OpenKeepsTabs(s: State)
    requires TabsInv(s)
    ensures TabsInv(Step(s, OpenTab))
  {
  }

  lemma CallKeepsTabs(s: State, call: Call)
    requires TabsInv(s) && call.tab < |s.tabs|
    ensures TabsInv(s.(calls := s.calls + [call]))
  {
  }

  lemma ResumeKeepsTabs(s: State, c: nat)
    requires TabsInv(s) && Enabled(s, Resume(c))
    ensures TabsInv(Step(s, Resume(c)))
  {
    hide Refresh, JoinFlight, EndRequest;
  }

  lemma EndKeepsTabs(s: State, f: nat, ok: bool, s': State)
    requires TabsInv(s) && f < |s.flights| && Requesting(s.flights[f].phase)
    requires s'.tabs == s.tabs && s'.calls == s.calls && s'.flights == EndRequest(s, f, ok).flights
    ensures TabsInv(s')
  {
    MoveKeepsTabs(s, f, Delivered(ok));
    SameTabs(SetPhase(s, f, Delivered(ok)), s');
  }

  lemma JoinKeepsLock(s: State, c: nat)
    requires LockInv(s) && c < |s.calls| && s.calls[c].tab < |s.tabs|
    ensures LockInv(JoinFlight(s, c))
  {
    hide Join;
    assert forall i | 0 <= i < |s.queue| :: s.queue[i] in s.queue && s.queue[i] < |s.flights|;
  }

  lemma QueueTail(queue: seq<nat>, g: nat)
    requires queue != [] && forall i, j | 0 <= i < j < |queue| :: queue[i] != queue[j]
    ensures g in queue[1..] <==> g in queue && g != queue[0]
  {
    assert queue == [queue[0]] + queue[1..];
  }

  lemma GrantKeepsLock(s: State)
    requires LockInv(s) && Enabled(s, Grant)
    ensures LockInv(Step(s, Grant))
  {
    hide Refresh, JoinFlight, Join, EndRequest, SetCall;
    var f, rest := s.queue[0], s.queue[1..];
    QueueHead(s);
    forall g ensures g in rest <==> g in s.queue && g != f { QueueTail(s.queue, g); }
  }

  lemma MoveKeepsLock(s: State, f: nat, phase: Phase)
    requires LockInv(s) && f < |s.flights| && phase != Queued && s.flights[f].phase != Queued
    requires Requesting(s.flights[f].phase) <==> Requesting(phase)
    ensures LockInv(SetPhase(s, f, phase))
  {
  }

  lemma SameLock(s: State, s': State)
    requires LockInv(s)
    requires s'.flights == s.flights && s'.queue == s.queue && s'.lock == s.lock && s'.locks == s.locks
    ensures LockInv(s')
  {
  }

  lemma EndKeepsLock(s: State, f: nat, ok: bool)
    requires LockInv(s) && f < |s.flights| && Requesting(s.flights[f].phase)
    ensures LockInv(EndRequest(s, f, ok))
  {
  }

  // ---- Every step keeps them -----------------------------------------------------------------

  /** The phase in which a served request travels back. */
  function ServedPhase(s: State, e: Event): Phase
    requires e.Serve? && Enabled(s, e)
  {
    Step(s, e).flights[e.flight].phase
  }

  /** Single flight: a tab's `refreshInFlight` stays exactly its unsettled flight. */
  lemma StepKeepsTabs(s: State, e: Event)
    requires TabsInv(s) && LockInv(s) && Enabled(s, e)
    ensures TabsInv(Step(s, e))
  {
    hide JoinFlight, Refresh, Join, LockInv, TabsInv;
    var s' := Step(s, e);
    match e
    case OpenTab => OpenKeepsTabs(s);
    case StartCall(t, kind) =>
      var call := Call(t, kind, First, if kind == Direct then 0 else 1, []);
      CallKeepsTabs(s, call);
      JoinKeepsTabs(s.(calls := s.calls + [call]), |s.calls|);
    case FirstAnswer(c, _) =>
      JoinKeepsTabs(s, c);
      SameTabs(s, SetCall(s, c, Done(false)));
    case Resume(c) => ResumeKeepsTabs(s, c);
    case Grant =>
      QueueHead(s);
      MoveKeepsTabs(s, s.queue[0], Ready);
      SameTabs(SetPhase(s, s.queue[0], Ready), s');
    case SendRefresh(f) => MoveKeepsTabs(s, f, Sent(s.cookie));
    case Serve(f, _, _, _) =>
      MoveKeepsTabs(s, f, ServedPhase(s, e));
      SameTabs(SetPhase(s, f, ServedPhase(s, e)), s');
    case Deliver(f) => EndKeepsTabs(s, f, PhaseOf(s, f).reply.NewCookie?, s');
    case LoseRequest(f) => EndKeepsTabs(s, f, false, s');
    case LoseReply(f) => EndKeepsTabs(s, f, false, s');
    case Abandon(f) => EndKeepsTabs(s, f, false, s');
    case Settle(f) => SettleKeepsTabs(s, f);
    case _ => SameTabs(s, s');
  }

  lemma MovingStepKeepsLock(s: State, e: Event)
    requires LockInv(s) && Enabled(s, e) && (e.SendRefresh? || e.Serve? || e.Settle?)
    ensures LockInv(Step(s, e))
  {
    hide Refresh, LockInv;
    var phase := Step(s, e).flights[e.flight].phase;
    MoveKeepsLock(s, e.flight, phase);
    SameLock(SetPhase(s, e.flight, phase), Step(s, e));
  }

  lemma EndingStepKeepsLock(s: State, e: Event)
    requires LockInv(s) && Enabled(s, e) && (e.Deliver? || e.LoseRequest? || e.LoseReply? || e.Abandon?)
    ensures LockInv(Step(s, e))
  {
    hide EndRequest, LockInv;
    var ok := e.Deliver? && PhaseOf(s, e.flight).reply.NewCookie?;
    EndKeepsLock(s, e.flight, ok);
    SameLock(EndRequest(s, e.flight, ok), Step(s, e));
  }

  /** Mutual exclusion: the lock holder stays the one flight with a request. */
  lemma StepKeepsLock(s: State, e: Event)
    requires TabsInv(s) && LockInv(s) && Enabled(s, e)
    ensures LockInv(Step(s, e))
  {
    assert forall c | 0 <= c < |s.calls| :: s.calls[c].tab < |s.tabs|;
    hide JoinFlight, Refresh, Join, TabsInv, LockInv, EndRequest, SetPhase;
    match e
    case StartCall(t, kind) =>
      var s' := s.(calls := s.calls + [Call(t, kind, First, if kind == Direct then 0 else 1, [])]);
      SameLock(s, s');
      JoinKeepsLock(s', |s.calls|);
    case FirstAnswer(c, _) =>
      JoinKeepsLock(s, c);
      SameLock(s, SetCall(s, c, Done(false)));
    case Grant => GrantKeepsLock(s);
    case SendRefresh(_) => MovingStepKeepsLock(s, e);
    case Serve(_, _, _, _) => MovingStepKeepsLock(s, e);
    case Settle(_) => MovingStepKeepsLock(s, e);
    case Deliver(_) => EndingStepKeepsLock(s, e);
    case LoseRequest(_) => EndingStepKeepsLock(s, e);
    case LoseReply(_) => EndingStepKeepsLock(s, e);
    case Abandon(_) => EndingStepKeepsLock(s, e);
    case _ => SameLock(s, Step(s, e));
  }

  /** Flights only grow in number, and a settled flight stays as it is. */
  ghost predicate FlightsGrow(s: State, s': State) {
    && |s.flights| <= |s'.flights|
    && (forall f | 0 <= f < |s.flights| ::
          s'.flights[f].tab == s.flights[f].tab &&
          (s.flights[f].phase.Settled? ==> s'.flights[f].phase == s.flights[f].phase))
  }

  lemma StepGrowsFlights(s: State, e: Event)
    requires LockInv(s) && Enabled(s, e)
    ensures FlightsGrow(s, Step(s, e))
  {
    hide Refresh, LockInv;
    if e.Grant? { QueueHead(s); }
  }

  lemma OtherCallsKept(s: State, s': State, call: Call)
    requires CallInv(s, call) && FlightsGrow(s, s')
    ensures CallInv(s', call)
  {
  }

  lemma JoinedCall(s: State, c: nat)
    requires TabsInv(s) && c < |s.calls|
    requires s.calls[c].joined == [] && s.calls[c].sends == if s.calls[c].kind == Direct then 0 else 1
    requires s.calls[c].kind == Direct || Retries(s.calls[c].kind)
    ensures
      var s' := JoinFlight(s, c);
      && |s'.calls| == |s.calls| && CallInv(s', s'.calls[c])
      && forall d | 0 <= d < |s.calls| && d != c :: s'.calls[d] == s.calls[d]
  {
  }

  lemma ResumedCall(s: State, c: nat)
    requires CallsInv(s) && Enabled(s, Resume(c))
    ensures var s' := Step(s, Resume(c)); CallInv(s', s'.calls[c])
  {
    assert CallInv(s, s.calls[c]);
  }

  /** Every call keeps to one refresh and at most two requests, and follows its own flight. */
  lemma StepKeepsCalls(s: State, e: Event)
    requires TabsInv(s) && LockInv(s) && CallsInv(s) && Enabled(s, e)
    ensures CallsInv(Step(s, e))
  {
    hide TabsInv, LockInv, Refresh, CallInv, JoinFlight;
    var s' := Step(s, e);
    StepGrowsFlights(s, e);
    forall c | 0 <= c < |s'.calls| ensures CallInv(s', s'.calls[c]) {
      assert c < |s.calls| ==> CallInv(s, s.calls[c]);
      if c < |s.calls| && s'.calls[c] == s.calls[c] {
        OtherCallsKept(s, s', s.calls[c]);
      } else {
        ChangedCall(s, e, c);
      }
    }
  }

  lemma CallsStay(s: State, e: Event)
    requires Enabled(s, e) && !e.StartCall? && !e.FirstAnswer? && !e.Resume? && !e.SecondAnswer?
    ensures Step(s, e).calls == s.calls
  {
    hide Refresh;
  }

  lemma StartedCall(s: State, t: nat, kind: Kind)
    requires TabsInv(s) && Enabled(s, StartCall(t, kind))
    ensures
      var s' := Step(s, StartCall(t, kind));
      && |s'.calls| == |s.calls| + 1 && CallInv(s', s'.calls[|s.calls|])
      && forall d | 0 <= d < |s.calls| :: s'.calls[d] == s.calls[d]
  {
    hide Refresh, JoinFlight, TabsInv;
    var call := Call(t, kind, First, if kind == Direct then 0 else 1, []);
    CallKeepsTabs(s, call);
    if kind == Direct { JoinedCall(s.(calls := s.calls + [call]), |s.calls|); }
  }

  lemma AnsweredCall(s: State, c: nat, unauthorized: bool)
    requires TabsInv(s) && CallsInv(s) && Enabled(s, FirstAnswer(c, unauthorized))
    ensures
      var s' := Step(s, FirstAnswer(c, unauthorized));
      && |s'.calls| == |s.calls| && CallInv(s', s'.calls[c])
      && forall d | 0 <= d < |s.calls| && d != c :: s'.calls[d] == s.calls[d]
  {
    hide Refresh, JoinFlight, TabsInv;
    assert CallInv(s, s.calls[c]);
    if unauthorized && Retries(s.calls[c].kind) { JoinedCall(s, c); }
  }

  lemma RetriedCall(s: State, c: nat)
    requires CallsInv(s) && Enabled(s, SecondAnswer(c))
    ensures var s' := Step(s, SecondAnswer(c)); CallInv(s', s'.calls[c])
  {
    hide Refresh, JoinFlight;
    assert CallInv(s, s.calls[c]);
  }

  lemma ChangedCall(s: State, e: Event, c: nat)
    requires TabsInv(s) && CallsInv(s) && Enabled(s, e) && c < |Step(s, e).calls|
    requires c >= |s.calls| || Step(s, e).calls[c] != s.calls[c]
    ensures CallInv(Step(s, e), Step(s, e).calls[c])
  {
    hide TabsInv, CallsInv, CallInv, Refresh, JoinFlight, EndRequest, SetPhase;
    match e
    case StartCall(t, kind) => StartedCall(s, t, kind);
    case FirstAnswer(d, unauthorized) => AnsweredCall(s, d, unauthorized);
    case Resume(_) => ResumedCall(s, c);
    case SecondAnswer(_) => RetriedCall(s, c);
    case _ => CallsStay(s, e);
  }

  /** The server's books stay in order whatever is presented, with and without Web Locks. */
  lemma StepKeepsBooks(s: State, e: Event)
    requires Books(s.server) && Enabled(s, e)
    ensures Books(Step(s, e).server)
  {
    hide Refresh, Books;
    match e
    case Login(nextToken, expiresAt) => LoginKeepsBooks(s.server, nextToken, expiresAt);
    case Revoke(i) => LogoutKeepsBooks(s.server, i);
    case Tick(now) => BooksIgnoreTime(s.server, now);
    case Serve(f, nextToken, banned, stopped) =>
      if !stopped { RefreshKeepsBooks(s.server, PhaseOf(s, f).token.value, nextToken, banned); }
    case ServeAbandoned(k, nextToken, banned, _) =>
      RefreshKeepsBooks(s.server, s.abandoned[k], nextToken, banned);
    case _ =>
  }

  lemma BooksIgnoreTime(sv: Server, now: int)
    requires Books(sv)
    ensures Books(sv.(now := now))
  {
  }

  // ---- Tokens, where Web Locks are available -------------------------------------------------

  /** Steps that leave the server, the cookie and the replies on their way alone. */
  lemma TokensUntouched(s: State, s': State)
    requires TokensInv(s)
    requires s'.server == s.server && s'.cookie == s.cookie && s'.presented == s.presented && s'.lost == s.lost
    requires s'.late == s.late && s'.abandoned == s.abandoned
    requires |s.flights| <= |s'.flights|
    requires forall f | 0 <= f < |s.flights| ::
               s'.flights[f].phase == s.flights[f].phase ||
               (SpentBy(s.flights[f].phase) == {} && !s'.flights[f].phase.Sent? && !s'.flights[f].phase.Served?)
    requires forall f | |s.flights| <= f < |s'.flights| :: !s'.flights[f].phase.Sent? && !s'.flights[f].phase.Served?
    ensures TokensInv(s')
  {
    assert Spent(s') == Spent(s);
    forall f | 0 <= f < |s'.flights| ensures FlightTokens(s', s'.flights[f].phase) {
      if f < |s.flights| { assert FlightTokens(s, s.flights[f].phase); }
    }
    if s'.cookie.Some? && s'.cookie.value in Spent(s') && s'.cookie.value !in Excused(s') {
      var f :| 0 <= f < |s.flights| && s.cookie.value in SpentBy(s.flights[f].phase);
      assert s'.cookie.value in SpentBy(s'.flights[f].phase);
    }
  }

  lemma SendKeepsTokens(s: State, f: nat)
    requires s.locks && LockInv(s) && TokensInv(s) && Enabled(s, SendRefresh(f))
    ensures TokensInv(Step(s, SendRefresh(f)))
  {
    var s' := Step(s, SendRefresh(f));
    assert s.lock == Some(f);
    assert forall g | 0 <= g < |s.flights| :: SpentBy(s.flights[g].phase) == {};
    forall g | 0 <= g < |s'.flights| ensures FlightTokens(s', s'.flights[g].phase) {
      assert FlightTokens(s, s.flights[g].phase);
    }
  }

  lemma DeliverKeepsTokens(s: State, f: nat)
    requires s.locks && LockInv(s) && TokensInv(s) && Enabled(s, Deliver(f))
    ensures TokensInv(Step(s, Deliver(f)))
  {
    var s' := Step(s, Deliver(f));
    assert FlightTokens(s, s.flights[f].phase);
    assert s.lock == Some(f);
    assert forall g | 0 <= g < |s.flights| && g != f :: SpentBy(s.flights[g].phase) == {};
    forall g | 0 <= g < |s'.flights| ensures FlightTokens(s', s'.flights[g].phase) {
      assert FlightTokens(s, s.flights[g].phase);
    }
  }

  lemma LoseReplyKeepsTokens(s: State, f: nat)
    requires s.locks && LockInv(s) && TokensInv(s) && Enabled(s, LoseReply(f))
    ensures TokensInv(Step(s, LoseReply(f)))
  {
    var s' := Step(s, LoseReply(f));
    assert FlightTokens(s, s.flights[f].phase);
    assert s.lock == Some(f);
    assert forall g | 0 <= g < |s.flights| && g != f :: SpentBy(s.flights[g].phase) == {};
    forall g | 0 <= g < |s'.flights| ensures FlightTokens(s', s'.flights[g].phase) {
      assert FlightTokens(s, s.flights[g].phase);
    }
  }

  lemma AbandonKeepsTokens(s: State, f: nat)
    requires s.locks && LockInv(s) && TokensInv(s) && Enabled(s, Abandon(f))
    ensures TokensInv(Step(s, Abandon(f)))
  {
    var s' := Step(s, Abandon(f));
    assert FlightTokens(s, s.flights[f].phase);
    assert s.lock == Some(f);
    forall g | 0 <= g < |s'.flights| ensures FlightTokens(s', s'.flights[g].phase) {
      assert FlightTokens(s, s.flights[g].phase);
    }
  }

  lemma LoginKeepsTokens(s: State, e: Event)
    requires TokensInv(s) && (e.Login? || e.Revoke? || e.ClearCookie? || e.Tick?) && Enabled(s, e)
    ensures TokensInv(Step(s, e))
  {
    hide Refresh, JoinFlight, EndRequest, SetPhase, SetCall;
    var s' := Step(s, e);
    forall t | t in s'.server.issued && t !in Spent(s) ensures IsCurrent(s'.server, t) {
      if t in s.server.issued {
        var i :| 0 <= i < |s.server.sessions| && s.server.sessions[i].current == t;
        assert s'.server.sessions[i].current == t;
      } else {
        assert s'.server.sessions[|s.server.sessions|].current == t;
      }
    }
    forall g | 0 <= g < |s'.flights| ensures FlightTokens(s', s'.flights[g].phase) {
      assert FlightTokens(s, s.flights[g].phase);
    }
  }

  lemma SpentIsIssued(sv: Server, spent: set<Token>)
    requires ServerInv(sv, spent)
    ensures spent <= sv.issued
  {
  }

  lemma StillExplained(sv: Server, excused: set<Token>, more: set<Token>)
    requires ReuseExplained(sv, excused) && excused <= more
    ensures ReuseExplained(sv, more)
  {
  }

  /** Sessions revoked for reuse stay explained. */
  lemma ReuseStaysExplained(
    sv: Server, spent: set<Token>, excused: set<Token>, t: Token, nextToken: Token, banned: bool)
    requires ServerInv(sv, spent) && t in sv.issued && (t in spent ==> t in excused)
    requires ReuseExplained(sv, excused)
    ensures ReuseExplained(Refresh(sv, t, nextToken, banned).0, excused)
  {
    var sv' := Refresh(sv, t, nextToken, banned).0;
    forall i: nat | i < |sv'.sessions| && sv'.sessions[i].revoked == Some(ReuseDetected)
      ensures sv'.sessions[i].previous.Some? && sv'.sessions[i].previous.value in excused
    {
      if sv.sessions[i].revoked != Some(ReuseDetected) {
        ReuseNeedsSpentToken(sv, spent, t, nextToken, banned, i);
      }
    }
  }

  lemma ServeKeepsTokens(s: State, e: Event)
    requires s.locks && LockInv(s) && TokensInv(s) && e.Serve? && Enabled(s, e) && !e.stopped
    ensures TokensInv(Step(s, e))
  {
    hide Refresh, ServerInv, ReuseExplained;
    var s', f := Step(s, e), e.flight;
    var t := PhaseOf(s, f).token.value;
    assert Spent(s) <= s.server.issued by { assert ServerInv(s.server, Spent(s)); SpentIsIssued(s.server, Spent(s)); }
    assert FlightTokens(s, s.flights[f].phase) && s.lock == Some(f);
    RefreshKeepsServer(s.server, Spent(s), t, e.nextToken, e.banned);
    assert Spent(s') == Spent(s) + {t};
    assert SpentBy(s'.flights[f].phase) == {t};
    forall g | 0 <= g < |s'.flights| ensures FlightTokens(s', s'.flights[g].phase) {
      assert FlightTokens(s, s.flights[g].phase);
      assert g != f ==> !s.flights[g].phase.Sent? && !s.flights[g].phase.Served?;
    }
    ReuseStaysExplained(s.server, Spent(s), Excused(s), t, e.nextToken, e.banned);
  }

  /** An abandoned request spends its token late. */
  lemma ServeAbandonedKeepsTokens(s: State, e: Event)
    requires TokensInv(s) && e.ServeAbandoned? && Enabled(s, e)
    ensures TokensInv(Step(s, e))
  {
    hide Refresh, ServerInv, ReuseExplained;
    var s', t := Step(s, e), s.abandoned[e.request];
    assert forall u | u in s'.abandoned :: u in s.abandoned;
    if e.stopped {
      StillFlying(s, s');
    } else {
      SpentIsIssued(s.server, Spent(s));
      RefreshKeepsServer(s.server, Spent(s), t, e.nextToken, e.banned);
      StillExplained(s.server, Excused(s), Excused(s'));
      ReuseStaysExplained(s.server, Spent(s), Excused(s'), t, e.nextToken, e.banned);
      assert Spent(s') == Spent(s) + {t};
      StillFlying(s, s');
    }
  }

  /** What the flights carry stays in order while tokens are only spent late. */
  lemma StillFlying(s: State, s': State)
    requires TokensInv(s)
    requires s'.flights == s.flights && s'.cookie == s.cookie && s.server.issued <= s'.server.issued
    requires Excused(s) <= Excused(s') && Spent(s) <= Spent(s')
    requires forall u | u in Spent(s') && u !in Spent(s) :: u in s.abandoned && u in Excused(s')
    requires forall u | u in s'.abandoned :: u in s.abandoned
    ensures forall g | 0 <= g < |s'.flights| :: FlightTokens(s', s'.flights[g].phase)
    ensures s'.cookie.Some? && s'.cookie.value in Spent(s') ==>
              s'.cookie.value in Excused(s') ||
              exists f | 0 <= f < |s'.flights| :: s'.cookie.value in SpentBy(s'.flights[f].phase)
  {
    forall g | 0 <= g < |s'.flights| ensures FlightTokens(s', s'.flights[g].phase) {
      assert FlightTokens(s, s.flights[g].phase);
    }
  }

  /** The cookie jar stays ahead of the server: no token is spent twice, and reuse is never seen. */
  lemma StepKeepsTokens(s: State, e: Event)
    requires s.locks && LockInv(s) && TokensInv(s) && Enabled(s, e)
    ensures TokensInv(Step(s, e))
  {
    hide TokensInv, LockInv, Refresh, Join;
    match e
    case Login(_, _) => LoginKeepsTokens(s, e);
    case ClearCookie => LoginKeepsTokens(s, e);
    case Revoke(_) => LoginKeepsTokens(s, e);
    case Tick(_) => LoginKeepsTokens(s, e);
    case SendRefresh(f) => SendKeepsTokens(s, f);
    case Serve(f, _, _, stopped) =>
      if stopped { StoppedKeepsTokens(s, e); } else { ServeKeepsTokens(s, e); }
    case Deliver(f) => DeliverKeepsTokens(s, f);
    case LoseReply(f) => LoseReplyKeepsTokens(s, f);
    case Abandon(f) => AbandonKeepsTokens(s, f);
    case ServeAbandoned(_, _, _, _) => ServeAbandonedKeepsTokens(s, e);
    case Grant =>
      QueueHead(s);
      TokensUntouched(s, Step(s, e));
    case _ => TokensUntouched(s, Step(s, e));
  }

  lemma StoppedKeepsTokens(s: State, e: Event)
    requires TokensInv(s) && e.Serve? && Enabled(s, e) && e.stopped
    ensures TokensInv(Step(s, e))
  {
    var s' := Step(s, e);
    assert Spent(s') == Spent(s);
    forall g | 0 <= g < |s'.flights| ensures FlightTokens(s', s'.flights[g].phase) {
      assert FlightTokens(s, s.flights[g].phase);
    }
    if s'.cookie.Some? && s'.cookie.value in Spent(s') && s'.cookie.value !in Excused(s') {
      var g :| 0 <= g < |s.flights| && s.cookie.value in SpentBy(s.flights[g].phase);
      assert s'.cookie.value in SpentBy(s'.flights[g].phase);
    }
  }
}
