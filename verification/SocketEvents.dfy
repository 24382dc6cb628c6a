/**
  The wrapper around every socket event in `apps/api/src/realtime/socket-server.ts`: acknowledgement
  contract, rate limit, live session check, error mapping. The session check and the event's own work
  are asynchronous, so the callbacks of different events interleave.
 */
module SocketEvents {
  import opened SlidingWindow
  import opened Wrappers

  const SOCKET_EVENTS_PER_MINUTE: int := 120
  const MINUTE_MS: int := 60 * 1000

  datatype Reply = Ok | RateLimited | Unauthenticated | Failure(appError: bool)

  datatype Phase = Checking | Running | Finished

  /** One event: `time` is when the limiter passed it, `replies` what its acknowledgement was called with. */
  datatype Event = Event(callable: bool, passed: bool, time: int, active: bool, ran: bool,
                         phase: Phase, replies: seq<Reply>)

  /** One connected socket; `takes` is the run of its own limiter. */
  datatype Socket = Socket(id: string, takes: seq<Op>, events: seq<Event>, ended: bool)

  datatype SessionCheck = Active | Inactive | CheckFailed(appError: bool)

  datatype RunOutcome = Success | RunFailed(appError: bool)

  /** What the outside world calls back; `throws` says that the acknowledgement throws when answered. */
  datatype Callback =
    | Arrive(callable: bool, now1: int, now2: int)
    | SessionChecked(event: nat, check: SessionCheck, throws: bool)
    | RunSettled(event: nat, outcome: RunOutcome, throws: bool)

  predicate Enabled(s: Socket, c: Callback) {
    match c
    case Arrive(_, _, _) => !s.ended
    case SessionChecked(e, _, _) => e < |s.events| && s.events[e].phase == Checking
    case RunSettled(e, _, _) => e < |s.events| && s.events[e].phase == Running
  }

  function HitsOf(s: Socket): Hits { Run(SOCKET_EVENTS_PER_MINUTE, MINUTE_MS, s.takes).hits }

  /** `handle`, up to the session check. */
  function Arrived(s: Socket, callable: bool, now1: int): Event {
    if !callable then Event(false, false, 0, false, false, Finished, [])
    else if !Accepts(SOCKET_EVENTS_PER_MINUTE, HitsOf(s), s.id, now1 - MINUTE_MS) then
      Event(true, false, 0, false, false, Finished, [RateLimited])
    else Event(true, true, 0, false, false, Checking, [])
  }

  /** An answer given inside `then`: if the callback throws, `catch` answers again. */
  function Answered(e: Event, reply: Reply, throws: bool): Event {
    var answered := e.(phase := Finished, replies := e.replies + [reply]);
    if throws then Caught(answered, false) else answered
  }

  /** An answer given by `catch`: what its callback throws goes nowhere. */
  function Caught(e: Event, appError: bool): Event {
    e.(phase := Finished, replies := e.replies + [Failure(appError)])
  }

  function Checked(e: Event, check: SessionCheck, throws: bool): Event {
    match check
    case Active => e.(active := true, ran := true, phase := Running)
    case Inactive => Answered(e, Unauthenticated, throws)
    case CheckFailed(appError) => Caught(e, appError)
  }

  function Ran(e: Event, outcome: RunOutcome, throws: bool): Event {
    match outcome
    case Success => Answered(e, Ok, throws)
    case RunFailed(appError) => Caught(e, appError)
  }

  function Step(s: Socket, c: Callback): Socket
    requires Enabled(s, c)
  {
    match c
    case Arrive(callable, now1, now2) =>
      var takes := if callable then s.takes + [Take(s.id, now1, now2)] else s.takes;
      s.(takes := takes, events := s.events + [Arrived(s, callable, now1).(time := now2)])
    case SessionChecked(e, check, throws) =>
      // After the answer the socket is told that its session ended, unless answering threw.
      var ended := s.ended || (check == Inactive && !throws);
      s.(events := s.events[e := Checked(s.events[e], check, throws)], ended := ended)
    case RunSettled(e, outcome, throws) =>
      s.(events := s.events[e := Ran(s.events[e], outcome, throws)])
  }

  /** The connection handler's variables and the callbacks that update them. */
  class ChatSocket {
    const id: string
    const limiter: SlidingWindowLimiter
    var events: seq<Event>
    var ended: bool
    ghost var takes: seq<Op>

    ghost predicate Valid()
      reads this, limiter
    {
      && limiter.limit == SOCKET_EVENTS_PER_MINUTE && limiter.windowMs == MINUTE_MS
      && limiter.hits == HitsOf(State())
    }

    ghost function State(): Socket
      reads this
    {
      Socket(id, takes, events, ended)
    }

    constructor (id: string)
      ensures Valid() && fresh(limiter) && State() == Socket(id, [], [], false)
    {
      this.id := id;
      limiter := new SlidingWindowLimiter(SOCKET_EVENTS_PER_MINUTE, MINUTE_MS);
      events, ended, takes := [], false, [];
    }

    method Handle(callable: bool, now1: int, now2: int)
      requires Valid() && !ended
      modifies this, limiter
      ensures Valid() && State() == Step(old(State()), Arrive(callable, now1, now2))
    {
      if !callable {
        events := events + [Event(false, false, now2, false, false, Finished, [])];
        return;
      }
      var accepted := limiter.Take(id, now1, now2);
      takes := takes + [Take(id, now1, now2)];
      assert takes[..|takes| - 1] == old(takes);
      if accepted {
        events := events + [Event(true, true, now2, false, false, Checking, [])];
      } else {
        events := events + [Event(true, false, now2, false, false, Finished, [RateLimited])];
      }
    }

    /** `reply` and `fail`: calls the acknowledgement, which may throw. */
    method Answer(e: nat, reply: Reply, throws: bool) returns (thrown: bool)
      requires e < |events|
      modifies this`events
      ensures events == old(events)[e := old(events)[e].(replies := old(events)[e].replies + [reply])]
      ensures thrown == throws
    {
      events := events[e := events[e].(replies := events[e].replies + [reply])];
      thrown := throws;
    }

    /** The promise of event `e` settles; with an error left by `then`, in `catch`. */
    method Settle(e: nat, error: Option<bool>, throws: bool)
      requires e < |events|
      modifies this`events
      ensures
        var event := old(events)[e].(phase := Finished);
        events == old(events)[e := if error == None then event
                                   else event.(replies := event.replies + [Failure(error.value)])]
    {
      if error.Some? { var unhandled := Answer(e, Failure(error.value), throws); }
      events := events[e := events[e].(phase := Finished)];
    }

    /** The session check settles: `then` with its result, `catch` with its error or what `then` threw. */
    method OnSessionChecked(e: nat, check: SessionCheck, throws: bool)
      requires Valid() && Enabled(State(), SessionChecked(e, check, throws))
      modifies this
      ensures Valid() && State() == Step(old(State()), SessionChecked(e, check, throws))
    {
      var error: Option<bool> := None;
      match check {
        case CheckFailed(appError) => error := Some(appError);
        case Inactive =>
          var thrown := Answer(e, Unauthenticated, throws);
          if thrown { error := Some(false); } else { ended := true; }
        case Active =>
          events := events[e := events[e].(active := true, ran := true, phase := Running)];
          return;
      }
      Settle(e, error, throws);
      assert events[e] == Checked(old(events)[e], check, throws);
    }

    /** `await run()` settles, inside `then`. */
    method OnRunSettled(e: nat, outcome: RunOutcome, throws: bool)
      requires Valid() && Enabled(State(), RunSettled(e, outcome, throws))
      modifies this
      ensures Valid() && State() == Step(old(State()), RunSettled(e, outcome, throws))
    {
      var error: Option<bool> := None;
      match outcome {
        case RunFailed(appError) => error := Some(appError);
        case Success =>
          var thrown := Answer(e, Ok, throws);
          if thrown { error := Some(false); }
      }
      Settle(e, error, throws);
      assert events[e] == Ran(old(events)[e], outcome, throws);
    }
  }

  // ---- Runs ----------------------------------------------------------------------------------

  ghost predicate Allowed(s: Socket, cs: seq<Callback>)
    decreases |cs|
  {
    cs == [] || (Enabled(s, cs[0]) && Allowed(Step(s, cs[0]), cs[1..]))
  }

  function After(s: Socket, cs: seq<Callback>): Socket
    requires Allowed(s, cs)
    decreases |cs|
  {
    if cs == [] then s else After(Step(s, cs[0]), cs[1..])
  }

  /** Where an event stands decides how often it was answered and what was done for it. */
  predicate EventInv(e: Event) {
    && (!e.callable ==> e.phase == Finished && e.replies == [] && !e.passed)
    && (e.callable && !e.passed ==> e.phase == Finished && e.replies == [RateLimited])
    && (e.ran ==> e.passed && e.active)
    && (e.phase == Running ==> e.ran)
    && (e.phase == Checking ==> !e.ran)
    && (e.phase != Finished ==> e.passed && e.replies == [])
    && (e.phase == Finished && e.passed ==> 1 <= |e.replies| <= 2)
    && (e.passed ==> e.callable)
    && (Ok in e.replies ==> e.ran)
  }

  /** When the events that passed the limiter did so. */
  function PassTimes(events: seq<Event>): seq<int> {
    if events == [] then []
    else
      var front, last := events[..|events| - 1], events[|events| - 1];
      PassTimes(front) + if last.passed then [last.time] else []
  }

  ghost predicate Inv(s: Socket) {
    && (forall e | 0 <= e < |s.events| :: EventInv(s.events[e]))
    && PassTimes(s.events) == Accepted(SOCKET_EVENTS_PER_MINUTE, MINUTE_MS, s.takes, s.id)
  }

  lemma {:induction false} PassTimesUpdate(events: seq<Event>, i: nat, e: Event)
    requires i < |events| && e.passed == events[i].passed && e.time == events[i].time
    ensures PassTimes(events[i := e]) == PassTimes(events)
  {
    var n := |events| - 1;
    if i == n {
      assert events[i := e][..n] == events[..n];
    } else {
      PassTimesUpdate(events[..n], i, e);
      assert events[i := e][..n] == events[..n][i := e];
    }
  }

  lemma ArriveKeepsInv(s: Socket, callable: bool, now1: int, now2: int)
    requires Inv(s) && Enabled(s, Arrive(callable, now1, now2))
    ensures Inv(Step(s, Arrive(callable, now1, now2)))
  {
    hide Run, Accepted;
    var s' := Step(s, Arrive(callable, now1, now2));
    assert s'.events[..|s.events|] == s.events;
    if callable {
      assert s'.takes[..|s.takes|] == s.takes;
      LastOp(SOCKET_EVENTS_PER_MINUTE, MINUTE_MS, s'.takes, s.id);
    }
  }

  lemma StepKeepsInv(s: Socket, c: Callback)
    requires Inv(s) && Enabled(s, c)
    ensures Inv(Step(s, c))
  {
    hide Run, Accepted, PassTimes;
    match c
    case Arrive(callable, now1, now2) => ArriveKeepsInv(s, callable, now1, now2);
    case SessionChecked(e, _, _) => PassTimesUpdate(s.events, e, Step(s, c).events[e]);
    case RunSettled(e, _, _) => PassTimesUpdate(s.events, e, Step(s, c).events[e]);
  }

  lemma {:induction false} RunKeepsInv(s: Socket, cs: seq<Callback>)
    requires Inv(s) && Allowed(s, cs)
    ensures Inv(After(s, cs)) && After(s, cs).id == s.id
    decreases |cs|
  {
    hide Inv;
    if cs != [] {
      StepKeepsInv(s, cs[0]);
      RunKeepsInv(Step(s, cs[0]), cs[1..]);
    }
  }

  function Connected(id: string): Socket { Socket(id, [], [], false) }

  /** The callback with which the work of event `i` ends. */
  predicate Settles(c: Callback, i: nat) {
    !c.Arrive? && c.event == i && (c.SessionChecked? ==> c.check != Active)
  }

  /** The acknowledgement of event `i` throws when `then` answers. */
  predicate ThrowsInThen(c: Callback, i: nat) {
    c == SessionChecked(i, Inactive, true) || c == RunSettled(i, Success, true)
  }

  /** Some callback of the run does it to event `i`. */
  ghost predicate Ever(p: (Callback, nat) -> bool, cs: seq<Callback>, i: nat) {
    exists k | 0 <= k < |cs| :: p(cs[k], i)
  }

  lemma EverSplits(p: (Callback, nat) -> bool, cs: seq<Callback>, i: nat)
    requires cs != []
    ensures Ever(p, cs, i) <==> p(cs[0], i) || Ever(p, cs[1..], i)
  {
    assert forall k | 1 <= k < |cs| :: cs[k] == cs[1..][k - 1];
  }

  lemma Never(p: (Callback, nat) -> bool, i: nat)
    ensures !Ever(p, [], i)
  {
  }

  /** How often event `i` was answered so far. */
  function Answers(s: Socket, i: nat): nat { if i < |s.events| then |s.events[i].replies| else 0 }

  predicate Pending(s: Socket, i: nat) { i < |s.events| && s.events[i].phase != Finished }

  /** One callback: it answers once the event whose work it ends, and again if the acknowledgement throws in `then`. */
  lemma StepAnswers(s: Socket, c: Callback, i: nat)
    requires Inv(s) && Enabled(s, c)
    ensures
      var s' := Step(s, c);
      && |s.events| <= |s'.events|
      && (Answers(s', i) == 2 <==> Answers(s, i) == 2 || ThrowsInThen(c, i))
      && (i < |s.events| ==>
            s'.events[i].passed == s.events[i].passed && (Pending(s', i) <==> Pending(s, i) && !Settles(c, i)))
      && (i >= |s.events| ==> !Settles(c, i))
      && (|s.events| <= i < |s'.events| && s'.events[i].passed ==> Pending(s', i))
  {
    hide PassTimes, Accepted, HitsOf, Run;
    assert i < |s.events| ==> EventInv(s.events[i]);
  }

  lemma {:induction false} RunAnswers(s: Socket, cs: seq<Callback>, i: nat)
    requires Inv(s) && Allowed(s, cs)
    ensures
      var s' := After(s, cs);
      && |s.events| <= |s'.events|
      && (Answers(s', i) == 2 <==> Answers(s, i) == 2 || Ever(ThrowsInThen, cs, i))
      && (i < |s.events| ==>
            s'.events[i].passed == s.events[i].passed &&
            (Pending(s', i) <==> Pending(s, i) && !Ever(Settles, cs, i)))
      && (|s.events| <= i < |s'.events| && s'.events[i].passed ==> (Pending(s', i) <==> !Ever(Settles, cs, i)))
    decreases |cs|
  {
    hide Inv, Step, Settles, ThrowsInThen, Pending, Answers, Ever;
    if cs != [] {
      StepKeepsInv(s, cs[0]);
      StepAnswers(s, cs[0], i);
      RunAnswers(Step(s, cs[0]), cs[1..], i);
      EverSplits(ThrowsInThen, cs, i);
      EverSplits(Settles, cs, i);
    } else {
      Never(ThrowsInThen, i);
      Never(Settles, i);
    }
  }

  /**
    In every interleaving: an event without a callable acknowledgement is neither run nor answered; one
    that the limiter refuses is answered at once; any other is answered when its work has settled, once,
    and a second time exactly when the acknowledgement threw as `then` answered with a result or with
    the end of the session; nothing runs before the limiter passed it and the session check said active.
   */
  lemma EventsAreAnswered(id: string, cs: seq<Callback>, i: nat)
    requires Allowed(Connected(id), cs) && i < |After(Connected(id), cs).events|
    ensures var e := After(Connected(id), cs).events[i];
            && (!e.callable ==> e.replies == [] && !e.ran)
            && (e.callable && !e.passed ==> e.replies == [RateLimited] && !e.ran)
            && (e.passed ==>
                  |e.replies| == if !Ever(Settles, cs, i) then 0 else if Ever(ThrowsInThen, cs, i) then 2 else 1)
            && (e.ran ==> e.passed && e.active)
            && (Ok in e.replies ==> e.ran)
  {
    hide Allowed, After, Settles, ThrowsInThen, Ever, PassTimes, Accepted;
    var s := After(Connected(id), cs);
    Untouched(id);
    RunKeepsInv(Connected(id), cs);
    RunAnswers(Connected(id), cs, i);
    assert EventInv(s.events[i]);
  }

  lemma Untouched(id: string)
    ensures Inv(Connected(id))
  {
    UntouchedKey(SOCKET_EVENTS_PER_MINUTE, MINUTE_MS, [], id);
  }

  // ---- What the answers are ------------------------------------------------------------------

  /** What the client hears when the work of an event ends this way. */
  function ReplyTo(c: Callback): seq<Reply>
    requires !c.Arrive? && (c.SessionChecked? ==> c.check != Active)
  {
    match c
    case RunSettled(_, Success, throws) => if throws then [Ok, Failure(false)] else [Ok]
    case RunSettled(_, RunFailed(appError), _) => [Failure(appError)]
    case SessionChecked(_, Inactive, throws) =>
      if throws then [Unauthenticated, Failure(false)] else [Unauthenticated]
    case SessionChecked(_, CheckFailed(appError), _) => [Failure(appError)]
  }

  lemma StepReplies(s: Socket, c: Callback, i: nat)
    requires Inv(s) && Enabled(s, c) && Settles(c, i)
    ensures
      var s' := Step(s, c);
      i < |s'.events| && s'.events[i].phase == Finished && s'.events[i].replies == ReplyTo(c)
  {
    hide PassTimes, Accepted, HitsOf, Run;
    assert EventInv(s.events[i]);
  }

  lemma {:induction false} FinishedStays(s: Socket, cs: seq<Callback>, i: nat)
    requires Allowed(s, cs) && i < |s.events| && s.events[i].phase == Finished
    ensures i < |After(s, cs).events| && After(s, cs).events[i] == s.events[i]
    decreases |cs|
  {
    if cs != [] { FinishedStays(Step(s, cs[0]), cs[1..], i); }
  }

  lemma {:induction false} RunReplies(s: Socket, cs: seq<Callback>, k: nat, i: nat)
    requires Inv(s) && Allowed(s, cs) && k < |cs| && Settles(cs[k], i)
    ensures i < |After(s, cs).events| && After(s, cs).events[i].replies == ReplyTo(cs[k])
    decreases k
  {
    hide Inv, Step, Settles, ReplyTo, Enabled;
    if k == 0 {
      StepReplies(s, cs[0], i);
      FinishedStays(Step(s, cs[0]), cs[1..], i);
    } else {
      StepKeepsInv(s, cs[0]);
      RunReplies(Step(s, cs[0]), cs[1..], k - 1, i);
    }
  }

  /**
    In every interleaving the answers of an event are those of the callback that ended its work: the
    result of a successful run, the error of a failed run or check, or the end of the session; and where
    the acknowledgement threw in `then`, a general failure after that.
   */
  lemma AnswersFollowOutcomes(id: string, cs: seq<Callback>, i: nat)
    requires Allowed(Connected(id), cs) && i < |After(Connected(id), cs).events|
    ensures
      var replies := After(Connected(id), cs).events[i].replies;
      && (RunSettled(i, Success, false) in cs ==> replies == [Ok])
      && (RunSettled(i, Success, true) in cs ==> replies == [Ok, Failure(false)])
      && (forall a, throws | RunSettled(i, RunFailed(a), throws) in cs :: replies == [Failure(a)])
      && (forall a, throws | SessionChecked(i, CheckFailed(a), throws) in cs :: replies == [Failure(a)])
      && (SessionChecked(i, Inactive, false) in cs ==> replies == [Unauthenticated])
      && (SessionChecked(i, Inactive, true) in cs ==> replies == [Unauthenticated, Failure(false)])
  {
    Untouched(id);
    forall k: nat | k < |cs| && Settles(cs[k], i)
      ensures After(Connected(id), cs).events[i].replies == ReplyTo(cs[k])
    {
      RunReplies(Connected(id), cs, k, i);
    }
  }

  /** The session check of event `i` lets it run. */
  predicate Starts(c: Callback, i: nat) { c.SessionChecked? && c.event == i && c.check == Active }

  /** The session check of some event tells the client that the session is over, and is heard. */
  predicate Ends(c: Callback, i: nat) { c.SessionChecked? && c.check == Inactive && !c.throws }

  lemma {:induction false} RunStartsAndEnds(s: Socket, cs: seq<Callback>, i: nat)
    requires Allowed(s, cs)
    ensures
      var s' := After(s, cs);
      && |s.events| <= |s'.events|
      && (s'.ended <==> s.ended || Ever(Ends, cs, i))
      && (i < |s'.events| ==> (s'.events[i].ran <==> (i < |s.events| && s.events[i].ran) || Ever(Starts, cs, i)))
    decreases |cs|
  {
    if cs == [] {
      Never(Ends, i);
      Never(Starts, i);
    } else {
      StepStartsAndEnds(s, cs[0], i);
      hide Step, Enabled, Starts, Ends, Ever;
      RunStartsAndEnds(Step(s, cs[0]), cs[1..], i);
      EverSplits(Ends, cs, i);
      EverSplits(Starts, cs, i);
    }
  }

  lemma StepStartsAndEnds(s: Socket, c: Callback, i: nat)
    requires Enabled(s, c)
    ensures
      var s' := Step(s, c);
      && |s.events| <= |s'.events|
      && (s'.ended <==> s.ended || Ends(c, i))
      && (Starts(c, i) ==> i < |s.events|)
      && (i < |s'.events| ==> (s'.events[i].ran <==> (i < |s.events| && s.events[i].ran) || Starts(c, i)))
  {
    hide HitsOf;
  }

  /**
    In every interleaving an event runs exactly when its session check said active, and the connection is
    ended exactly by a check that said inactive and could tell the client so.
   */
  lemma RunsAndEndsExactly(id: string, cs: seq<Callback>, i: nat)
    requires Allowed(Connected(id), cs) && i < |After(Connected(id), cs).events|
    ensures After(Connected(id), cs).events[i].ran <==>
            exists k :: 0 <= k < |cs| && cs[k].SessionChecked? && cs[k].event == i && cs[k].check == Active
    ensures After(Connected(id), cs).ended <==>
            exists k :: 0 <= k < |cs| && cs[k].SessionChecked? && cs[k].check == Inactive && !cs[k].throws
  {
    RunStartsAndEnds(Connected(id), cs, i);
  }

  /** The events that pass are the limiter's accepted hits, so no minute contains more than 120 of them. */
  lemma AtMost120EventsAMinute(id: string, cs: seq<Callback>, start: int)
    requires Allowed(Connected(id), cs) && ClockAdvances(After(Connected(id), cs).takes)
    ensures var s := After(Connected(id), cs);
            && PassTimes(s.events) == Accepted(120, 60_000, s.takes, s.id)
            && |HitsInWindow(120, 60_000, s.takes, s.id, start)| <= 120
  {
    Untouched(id);
    RunKeepsInv(Connected(id), cs);
    var s := After(Connected(id), cs);
    WindowHoldsAtMostLimit(SOCKET_EVENTS_PER_MINUTE, MINUTE_MS, s.takes, s.id, start);
  }

  /** A callback that throws when told that the session is over is called a second time. */
  lemma ThrowingCallbackIsAnsweredTwice(id: string)
    ensures var cs := [Arrive(true, 0, 0), SessionChecked(0, Inactive, true)];
            && Allowed(Connected(id), cs)
            && After(Connected(id), cs).events[0].replies == [Unauthenticated, Failure(false)]
  {
    var s0, cs := Connected(id), [Arrive(true, 0, 0), SessionChecked(0, Inactive, true)];
    var s1 := Step(s0, cs[0]);
    assert cs[1..] == [cs[1]] && cs[1..][1..] == [];
    UntouchedKey(SOCKET_EVENTS_PER_MINUTE, MINUTE_MS, [], id);
    assert s1.events[0].phase == Checking;
    var s2 := Step(s1, cs[1]);
    assert Allowed(s2, cs[1..][1..]) && After(s2, cs[1..][1..]) == s2;
    assert Allowed(s1, cs[1..]) && After(s1, cs[1..]) == s2;
  }
}
