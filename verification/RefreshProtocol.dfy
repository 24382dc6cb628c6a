/**
  Session refresh across browser tabs (`apps/web/src/lib/api-client.ts`; the admin client has the
  same protocol and adds `apiDownload`). Each tab shares one refresh among its callers through
  `refreshInFlight`; a Web Lock serialises the refreshes of all tabs, which share one cookie jar.
  A step of the system is what one piece of code does between two awaits, or what the network, the
  lock manager or the server does; steps of different tabs, calls and requests interleave freely.
 */
module RefreshProtocol {
  import opened Wrappers
  import opened RefreshServer

  // ---- State ---------------------------------------------------------------------------------

  /** What the server's reply does to the cookie jar. */
  datatype Reply =
    | NewCookie(next: Token)     // success
    | CookieCleared              // REFRESH_INVALID
    | CookieKept                 // stopped before the service: no cookie, rate limit, CSRF guard

  datatype Phase =
    | Queued                                        // waiting for the lock
    | Ready                                         // may send: lock granted, or no Web Locks here
    | Sent(token: Option<Token>)                    // the request left with this cookie
    | Served(token: Option<Token>, reply: Reply)    // the reply is on its way
    | Delivered(ok: bool)                           // `send` settled and the lock is released
    | Settled(ok: bool)                             // `finally` ran: the flight's promise is settled

  /** One run of the async function inside `refreshSession`. */
  datatype Flight = Flight(tab: nat, phase: Phase)

  /** The module variables of a tab; the access token is named by the flight that brought it. */
  datatype Tab = Tab(refreshInFlight: Option<nat>, accessToken: Option<nat>)

  datatype Kind =
    | Json(authenticated: bool)  // `api`
    | Download                   // `apiDownload`
    | Direct                    // `refreshSession` itself: when the app loads, when the chat reconnects

  datatype CallPhase =
    | First                      // the first request is out
    | Waiting(flight: nat)       // awaiting `refreshSession`
    | Second                     // the retry is out
    | Done(refreshFailed: bool)

  datatype Call = Call(tab: nat, kind: Kind, phase: CallPhase, sends: nat, joined: seq<nat>)

  datatype State = State(
    locks: bool,                 // Web Locks are available
    server: Server,
    cookie: Option<Token>,
    presented: seq<Token>,       // tokens handed to the server's `refresh`, in order
    lost: set<Token>,            // of these, the ones whose reply the network lost
    late: set<Token>,            // and the ones that an abandoned request presented
    abandoned: seq<Token>,       // requests the browser gave up on that may still reach the server
    lock: Option<nat>,           // the flight holding the lock
    queue: seq<nat>,             // the flights waiting for it
    tabs: seq<Tab>,
    flights: seq<Flight>,
    calls: seq<Call>)

  // ---- The code of one tab -------------------------------------------------------------------

  /** `refreshInFlight ??= …`: the tab afterwards and the flight to await (`next` if one starts). */
  function Join(tab: Tab, next: nat): (Tab, nat) {
    if tab.refreshInFlight.Some? then (tab, tab.refreshInFlight.value)
    else (tab.(refreshInFlight := Some(next)), next)
  }

  /** The end of the flight: store the access token on success, clear `refreshInFlight` in any case. */
  function Finish(tab: Tab, flight: nat, ok: bool): Tab {
    Tab(None, if ok then Some(flight) else tab.accessToken)
  }

  /** A call whose refresh failed drops the access token. */
  function Expire(tab: Tab): Tab { tab.(accessToken := None) }

  /**
    The same code on the module's variables. `flights` records the flights of the tab, with the outcome
    of the settled ones: `refreshInFlight` is exactly the unsettled one, and the access token in memory
    came with a flight that succeeded.
   */
  class ApiClient {
    var accessToken: Option<nat>
    var refreshInFlight: Option<nat>
    ghost var flights: map<nat, Option<bool>>

    ghost predicate Valid()
      reads this
    {
      && (forall f: nat :: refreshInFlight == Some(f) <==> f in flights && flights[f] == None)
      && (accessToken.Some? ==> accessToken.value in flights && flights[accessToken.value] == Some(true))
    }

    function State(): Tab
      reads this
    {
      Tab(refreshInFlight, accessToken)
    }

    constructor ()
      ensures Valid() && State() == Tab(None, None) && flights == map[]
    {
      accessToken, refreshInFlight, flights := None, None, map[];
    }

    /** The caller gets the unsettled flight if there is one; only otherwise the flight `next` starts. */
    method RefreshSession(next: nat) returns (flight: nat)
      requires Valid() && next !in flights
      modifies this
      ensures Valid() && (State(), flight) == Join(old(State()), next)
      ensures flight in flights && flights[flight] == None
      ensures flights == if exists f | f in old(flights) :: old(flights)[f] == None then old(flights)
                         else old(flights)[next := None]
    {
      if refreshInFlight == None {
        refreshInFlight := Some(next);
        flights := flights[next := None];
      }
      flight := refreshInFlight.value;
    }

    /** The flight settles, and none is left unsettled. */
    method FlightEnds(flight: nat, ok: bool)
      requires Valid() && flight in flights && flights[flight] == None
      modifies this
      ensures Valid() && State() == Finish(old(State()), flight, ok)
      ensures flights == old(flights)[flight := Some(ok)] && forall f | f in flights :: flights[f] != None
    {
      if ok { accessToken := Some(flight); }
      refreshInFlight := None;
      flights := flights[flight := Some(ok)];
    }

    method RefreshFailed()
      requires Valid()
      modifies this`accessToken
      ensures Valid() && State() == Expire(old(State()))
    {
      accessToken := None;
    }
  }

  // ---- Steps ---------------------------------------------------------------------------------

  datatype Event =
    // the outside world
    | OpenTab
    | StartCall(tab: nat, kind: Kind)
    | Login(nextToken: Token, expiresAt: int)
    | ClearCookie                                   // the response to a logout
    | Revoke(session: nat)
    | Tick(now: int)
    // the calls
    | FirstAnswer(call: nat, unauthorized: bool)
    | Resume(call: nat)                             // the awaited flight has settled
    | SecondAnswer(call: nat)
    // the flights
    | Grant
    | SendRefresh(flight: nat)
    | Serve(flight: nat, nextToken: Token, banned: bool, stopped: bool)
    | Deliver(flight: nat)
    | LoseRequest(flight: nat)                      // the request never reaches the server
    | LoseReply(flight: nat)                        // the reply never reaches the browser
    | Abandon(flight: nat)                          // the browser gives up on a request still on its way
    | ServeAbandoned(request: nat, nextToken: Token, banned: bool, stopped: bool)
    | Settle(flight: nat)

  predicate Internal(e: Event) {
    !(e.OpenTab? || e.StartCall? || e.Login? || e.ClearCookie? || e.Revoke? || e.Tick?)
  }

  function PhaseOf(s: State, f: nat): Phase
    requires f < |s.flights|
  {
    s.flights[f].phase
  }

  /** Whether a call may refresh after a 401. */
  predicate Retries(kind: Kind) { kind == Download || kind == Json(true) }

  predicate Enabled(s: State, e: Event) {
    match e
    case OpenTab => true
    case StartCall(t, _) => t < |s.tabs|
    case Login(nextToken, _) => nextToken !in s.server.issued
    case ClearCookie => true
    case Revoke(i) => i < |s.server.sessions|
    case Tick(now) => s.server.now <= now
    case FirstAnswer(c, _) => c < |s.calls| && s.calls[c].phase == First && s.calls[c].tab < |s.tabs|
    case Resume(c) =>
      c < |s.calls| && s.calls[c].phase.Waiting? && s.calls[c].tab < |s.tabs| &&
      var f := s.calls[c].phase.flight; f < |s.flights| && PhaseOf(s, f).Settled?
    case SecondAnswer(c) => c < |s.calls| && s.calls[c].phase == Second
    case Grant => s.lock == None && s.queue != [] && s.queue[0] < |s.flights|
    case SendRefresh(f) => f < |s.flights| && PhaseOf(s, f) == Ready
    case Serve(f, nextToken, _, stopped) =>
      f < |s.flights| && PhaseOf(s, f).Sent? && nextToken !in s.server.issued &&
      (PhaseOf(s, f).token == None ==> stopped)
    case Deliver(f) => f < |s.flights| && PhaseOf(s, f).Served?
    case LoseRequest(f) => f < |s.flights| && PhaseOf(s, f).Sent?
    case LoseReply(f) => f < |s.flights| && PhaseOf(s, f).Served?
    case Abandon(f) => f < |s.flights| && PhaseOf(s, f).Sent?
    case ServeAbandoned(k, nextToken, _, _) => k < |s.abandoned| && nextToken !in s.server.issued
    case Settle(f) => f < |s.flights| && PhaseOf(s, f).Delivered? && s.flights[f].tab < |s.tabs|
  }

  function SetPhase(s: State, f: nat, phase: Phase): State
    requires f < |s.flights|
  {
    s.(flights := s.flights[f := s.flights[f].(phase := phase)])
  }

  function SetCall(s: State, c: nat, phase: CallPhase): State
    requires c < |s.calls|
  {
    var sends := s.calls[c].sends + if phase == Second then 1 else 0;
    s.(calls := s.calls[c := s.calls[c].(phase := phase, sends := sends)])
  }

  /** `await refreshSession()` in call `c`: join the tab's flight, starting one if there is none. */
  function JoinFlight(s: State, c: nat): State
    requires c < |s.calls| && s.calls[c].tab < |s.tabs|
  {
    var t, next := s.calls[c].tab, |s.flights|;
    var (tab, f) := Join(s.tabs[t], next);
    var call := s.calls[c].(phase := Waiting(f), joined := s.calls[c].joined + [f]);
    var joined := s.(tabs := s.tabs[t := tab], calls := s.calls[c := call]);
    if f != next then joined
    else if s.locks then joined.(flights := s.flights + [Flight(t, Queued)], queue := s.queue + [next])
    else joined.(flights := s.flights + [Flight(t, Ready)])
  }

  /** The token a reply on its way has spent. */
  function SpentBy(phase: Phase): set<Token> {
    if phase.Served? && phase.token.Some? && phase.reply != CookieKept then {phase.token.value} else {}
  }

  /** The request is over: the lock passes on. */
  function EndRequest(s: State, f: nat, ok: bool): State
    requires f < |s.flights|
  {
    SetPhase(s, f, Delivered(ok)).(lock := None)
  }

  function Step(s: State, e: Event): State
    requires Enabled(s, e)
  {
    match e
    case OpenTab => s.(tabs := s.tabs + [Tab(None, None)])
    case StartCall(t, kind) =>
      var s' := s.(calls := s.calls + [Call(t, kind, First, if kind == Direct then 0 else 1, [])]);
      if kind == Direct then JoinFlight(s', |s.calls|) else s'
    case Login(nextToken, expiresAt) =>
      s.(server := RefreshServer.Login(s.server, nextToken, expiresAt), cookie := Some(nextToken))
    case ClearCookie => s.(cookie := None)
    case Revoke(i) => s.(server := Logout(s.server, i))
    case Tick(now) => s.(server := s.server.(now := now))
    case FirstAnswer(c, unauthorized) =>
      if unauthorized && Retries(s.calls[c].kind) then JoinFlight(s, c) else SetCall(s, c, Done(false))
    case Resume(c) =>
      var ok := PhaseOf(s, s.calls[c].phase.flight).ok;
      if s.calls[c].kind == Direct then SetCall(s, c, Done(!ok))
      else if ok then SetCall(s, c, Second)
      else
        var t := s.calls[c].tab;
        SetCall(s, c, Done(true)).(tabs := s.tabs[t := Expire(s.tabs[t])])
    case SecondAnswer(c) => SetCall(s, c, Done(false))
    case Grant => SetPhase(s, s.queue[0], Ready).(lock := Some(s.queue[0]), queue := s.queue[1..])
    case SendRefresh(f) => SetPhase(s, f, Sent(s.cookie))
    case Serve(f, nextToken, banned, stopped) =>
      var token := PhaseOf(s, f).token;
      if stopped then SetPhase(s, f, Served(token, CookieKept))
      else
        var (server, outcome) := Refresh(s.server, token.value, nextToken, banned);
        var reply := if outcome.Rotated? then NewCookie(outcome.next) else CookieCleared;
        SetPhase(s, f, Served(token, reply)).(server := server, presented := s.presented + [token.value])
    case Deliver(f) =>
      var reply := PhaseOf(s, f).reply;
      var cookie := match reply
                    case NewCookie(next) => Some(next)
                    case CookieCleared => None
                    case CookieKept => s.cookie;
      EndRequest(s, f, reply.NewCookie?).(cookie := cookie)
    case LoseRequest(f) => EndRequest(s, f, false)
    case LoseReply(f) =>
      EndRequest(s, f, false).(lost := s.lost + SpentBy(PhaseOf(s, f)))
    case Abandon(f) =>
      var token := PhaseOf(s, f).token;
      EndRequest(s, f, false).(abandoned := s.abandoned + if token.Some? then [token.value] else [])
    case ServeAbandoned(k, nextToken, banned, stopped) =>
      // Its reply has nowhere to go.
      var t, rest := s.abandoned[k], s.abandoned[..k] + s.abandoned[k + 1..];
      if stopped then s.(abandoned := rest)
      else
        var server := Refresh(s.server, t, nextToken, banned).0;
        s.(server := server, presented := s.presented + [t], late := s.late + {t}, abandoned := rest)
    case Settle(f) =>
      var t, ok := s.flights[f].tab, PhaseOf(s, f).ok;
      SetPhase(s, f, Settled(ok)).(tabs := s.tabs[t := Finish(s.tabs[t], f, ok)])
  }
}
