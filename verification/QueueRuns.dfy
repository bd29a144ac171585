/**
Every interleaving of critical sections on one queue, by any number of threads.  A call
inside a wait is asleep until something wakes it (a signal, a broadcast, or nothing at all),
and then awake until it gets the mutex back.  A wait can end in a time-out or an error from
sleep, or late: after it has used up a signal, as POSIX lets a timed wait do.
*/
module QueueRuns {
  import opened QueueCalls

  /** A push that waits, since the clock read `since`. */
  datatype PushCall<T> = PushCall(x: T, timeout: int, deadline: nat, since: nat)

  /** The queue, the calls waiting in it (of a pop, its timeout), and the items of the pushes
      and the pops that returned OGS_OK, in order. */
  datatype System<T> = System(q: Queue<T>,
                              pushAsleep: seq<PushCall<T>>, pushAwake: seq<PushCall<T>>,
                              popAsleep: seq<int>, popAwake: seq<int>,
                              pushed: seq<T>, popped: seq<T>)

  /** `i` picks the waiting call that goes on, `w` the sleeper a signal wakes. */
  datatype Event<T> =
    | Push(x: T, timeout: int, now: nat, w: nat)
    | ResumePush(i: nat, now: nat, w: nat)
    | TimeOutPush(i: nat, rv: Code)
    | LatePush(i: nat, rv: Code)
    | WakePush(i: nat)
    | Pop(timeout: int, w: nat)
    | ResumePop(i: nat, w: nat)
    | TimeOutPop(i: nat, rv: Code)
    | LatePop(i: nat, rv: Code)
    | WakePop(i: nat)
    | Terminate
    | InterruptAll

  function RemoveAt<V>(s: seq<V>, i: nat): (r: seq<V>)
    requires i < |s|
    ensures |r| == |s| - 1
  {
    s[..i] + s[i + 1..]
  }

  /** A signal wakes one of the sleepers, if there is one. */
  predicate CanWake<V>(signal: bool, asleep: seq<V>, w: nat) {
    signal && asleep != [] ==> w < |asleep|
  }

  function Slept<V>(signal: bool, asleep: seq<V>, w: nat): seq<V>
    requires CanWake(signal, asleep, w)
  {
    if signal && asleep != [] then RemoveAt(asleep, w) else asleep
  }

  function Woke<V>(signal: bool, asleep: seq<V>, awake: seq<V>, w: nat): seq<V>
    requires CanWake(signal, asleep, w)
  {
    if signal && asleep != [] then awake + [asleep[w]] else awake
  }

  /** What a push stretch does to the whole system; if it waits, it has waited since `since`. */
  function AfterPush<T>(s: System<T>, x: T, timeout: int, since: nat, e: PushEffect<T>, w: nat): System<T>
    requires CanWake(e.signal, s.popAsleep, w)
  {
    s.(q := e.q,
       pushAsleep := if e.outcome.Wait? then s.pushAsleep + [PushCall(x, timeout, e.outcome.deadline, since)] else s.pushAsleep,
       pushed := if e.outcome == Return(Ok) then s.pushed + [x] else s.pushed,
       popAsleep := Slept(e.signal, s.popAsleep, w), popAwake := Woke(e.signal, s.popAsleep, s.popAwake, w))
  }

  function AfterPop<T>(s: System<T>, timeout: int, e: PopEffect<T>, w: nat): System<T>
    requires CanWake(e.signal, s.pushAsleep, w)
  {
    s.(q := e.q,
       popAsleep := if e.outcome.Wait? then s.popAsleep + [timeout] else s.popAsleep,
       popped := if e.item.Some? then s.popped + [e.item.value] else s.popped,
       pushAsleep := Slept(e.signal, s.pushAsleep, w), pushAwake := Woke(e.signal, s.pushAsleep, s.pushAwake, w))
  }

  function PushOf<T>(s: System<T>, c: PushCall<T>, rv: Code, now: nat): PushEffect<T>
    requires s.q.fullWaiters > 0
  {
    PushResume(s.q, c.x, c.timeout, c.deadline, rv, now)
  }

  predicate Enabled<T>(s: System<T>, e: Event<T>) {
    match e
    case Push(x, timeout, now, w) => CanWake(PushEnter(s.q, x, timeout, now).signal, s.popAsleep, w)
    case ResumePush(i, now, w) =>
      && i < |s.pushAwake| && s.q.fullWaiters > 0
      && CanWake(PushOf(s, s.pushAwake[i], Ok, now).signal, s.popAsleep, w)
    case TimeOutPush(i, rv) => i < |s.pushAsleep| && s.q.fullWaiters > 0 && rv != Ok
    case LatePush(i, rv) => i < |s.pushAwake| && s.q.fullWaiters > 0 && rv != Ok
    case WakePush(i) => i < |s.pushAsleep|
    case Pop(timeout, w) => CanWake(PopEnter(s.q, timeout).signal, s.pushAsleep, w)
    case ResumePop(i, w) =>
      && i < |s.popAwake| && s.q.emptyWaiters > 0
      && CanWake(PopResume(s.q, s.popAwake[i], Ok).signal, s.pushAsleep, w)
    case TimeOutPop(i, rv) => i < |s.popAsleep| && s.q.emptyWaiters > 0 && rv != Ok
    case LatePop(i, rv) => i < |s.popAwake| && s.q.emptyWaiters > 0 && rv != Ok
    case WakePop(i) => i < |s.popAsleep|
    case Terminate => true
    case InterruptAll => true
  }

  function Step<T>(s: System<T>, e: Event<T>): System<T>
    requires Enabled(s, e)
  {
    match e
    case Push(x, timeout, now, w) => AfterPush(s, x, timeout, now, PushEnter(s.q, x, timeout, now), w)
    case ResumePush(i, now, w) =>
      var c := s.pushAwake[i];
      AfterPush(s.(pushAwake := RemoveAt(s.pushAwake, i)), c.x, c.timeout, c.since, PushOf(s, c, Ok, now), w)
    case TimeOutPush(i, rv) =>
      var c := s.pushAsleep[i];
      AfterPush(s.(pushAsleep := RemoveAt(s.pushAsleep, i)), c.x, c.timeout, c.since, PushOf(s, c, rv, 0), 0)
    case LatePush(i, rv) =>
      var c := s.pushAwake[i];
      AfterPush(s.(pushAwake := RemoveAt(s.pushAwake, i)), c.x, c.timeout, c.since, PushOf(s, c, rv, 0), 0)
    case WakePush(i) =>
      s.(pushAsleep := RemoveAt(s.pushAsleep, i), pushAwake := s.pushAwake + [s.pushAsleep[i]])
    case Pop(timeout, w) => AfterPop(s, timeout, PopEnter(s.q, timeout), w)
    case ResumePop(i, w) =>
      AfterPop(s.(popAwake := RemoveAt(s.popAwake, i)), s.popAwake[i], PopResume(s.q, s.popAwake[i], Ok), w)
    case TimeOutPop(i, rv) =>
      AfterPop(s.(popAsleep := RemoveAt(s.popAsleep, i)), s.popAsleep[i], PopResume(s.q, s.popAsleep[i], rv), 0)
    case LatePop(i, rv) =>
      AfterPop(s.(popAwake := RemoveAt(s.popAwake, i)), s.popAwake[i], PopResume(s.q, s.popAwake[i], rv), 0)
    case WakePop(i) => s.(popAsleep := RemoveAt(s.popAsleep, i), popAwake := s.popAwake + [s.popAsleep[i]])
    case Terminate => s.(q := s.q.(terminated := true))
    case InterruptAll =>
      s.(pushAsleep := [], pushAwake := s.pushAwake + s.pushAsleep, popAsleep := [], popAwake := s.popAwake + s.popAsleep)
  }

  function Start<T>(bounds: nat): System<T> {
    System(Queue([], bounds, 0, 0, false), [], [], [], [], [], [])
  }

  /** `trace` is a run: it starts as ogs_queue_create() leaves things and takes enabled steps. */
  ghost predicate IsRun<T>(trace: seq<System<T>>, events: seq<Event<T>>) {
    && |trace| == |events| + 1 && trace[0] == Start(trace[0].q.bounds)
    && forall i {:trigger Taken(trace, events, i)} :: 0 <= i < |events| ==> Taken(trace, events, i)
  }

  ghost predicate Taken<T>(trace: seq<System<T>>, events: seq<Event<T>>, i: nat)
    requires i < |events| < |trace|
  {
    Enabled(trace[i], events[i]) && trace[i + 1] == Step(trace[i], events[i])
  }

  // ---- what every step keeps ------------------------------------------------

  /** The queue holds what was pushed and not yet popped, within its bounds, and the waiter
      counts count the waiting calls. */
  ghost predicate Ordered<T>(s: System<T>) {
    && s.pushed == s.popped + s.q.items && |s.q.items| <= s.q.bounds
    && s.q.fullWaiters == |s.pushAsleep| + |s.pushAwake|
    && s.q.emptyWaiters == |s.popAsleep| + |s.popAwake|
  }

  /** Beside a sleeping pop every item, beside a sleeping push every free slot, is spoken for. */
  ghost predicate Covered<T>(s: System<T>) {
    && (s.popAsleep != [] ==> |s.q.items| <= |s.popAwake|)
    && (s.pushAsleep != [] ==> s.q.bounds - |s.q.items| <= |s.pushAwake|)
  }

  /** A late end leaves enough awake calls behind; every other step needs none. */
  ghost predicate Slack<T>(s: System<T>, e: Event<T>) {
    && (e.LatePop? && s.popAsleep != [] ==> |s.q.items| < |s.popAwake|)
    && (e.LatePush? && s.pushAsleep != [] ==> s.q.bounds - |s.q.items| < |s.pushAwake|)
  }

  predicate IsPush<T>(e: Event<T>) {
    e.Push? || e.ResumePush? || e.TimeOutPush? || e.LatePush?
  }

  predicate IsPop<T>(e: Event<T>) {
    e.Pop? || e.ResumePop? || e.TimeOutPop? || e.LatePop?
  }

  lemma AppendOne<V>(a: seq<V>, b: seq<V>, x: V)
    ensures (a + b) + [x] == a + (b + [x])
  {
  }

  lemma Shift<V>(a: seq<V>, b: seq<V>)
    requires b != []
    ensures a + b == a + [b[0]] + b[1..]
  {
  }

  lemma {:induction false} AfterPushOrdered<T>(s: System<T>, x: T, timeout: int, since: nat, e: PushEffect<T>, w: nat)
    requires CanWake(e.signal, s.popAsleep, w) && s.pushed == s.popped + s.q.items && |e.q.items| <= e.q.bounds
    requires e.q.items == if e.outcome == Return(Ok) then s.q.items + [x] else s.q.items
    requires e.q.fullWaiters == |s.pushAsleep| + |s.pushAwake| + if e.outcome.Wait? then 1 else 0
    requires e.q.emptyWaiters == |s.popAsleep| + |s.popAwake|
    ensures Ordered(AfterPush(s, x, timeout, since, e, w))
  {
    AppendOne(s.popped, s.q.items, x);
  }

  lemma {:induction false} PushOrdered<T>(s: System<T>, e: Event<T>)
    requires Ordered(s) && Enabled(s, e) && IsPush(e)
    ensures Ordered(Step(s, e)) && Step(s, e).q.bounds == s.q.bounds
  {
    match e
    case Push(x, timeout, now, w) => AfterPushOrdered(s, x, timeout, now, PushEnter(s.q, x, timeout, now), w);
    case ResumePush(i, now, w) =>
      var c := s.pushAwake[i];
      AfterPushOrdered(s.(pushAwake := RemoveAt(s.pushAwake, i)), c.x, c.timeout, c.since, PushOf(s, c, Ok, now), w);
    case TimeOutPush(i, rv) =>
      var c := s.pushAsleep[i];
      AfterPushOrdered(s.(pushAsleep := RemoveAt(s.pushAsleep, i)), c.x, c.timeout, c.since, PushOf(s, c, rv, 0), 0);
    case LatePush(i, rv) =>
      var c := s.pushAwake[i];
      AfterPushOrdered(s.(pushAwake := RemoveAt(s.pushAwake, i)), c.x, c.timeout, c.since, PushOf(s, c, rv, 0), 0);
  }

  lemma {:induction false} PopOrdered<T>(s: System<T>, e: Event<T>)
    requires Ordered(s) && Enabled(s, e) && IsPop(e)
    ensures Ordered(Step(s, e)) && Step(s, e).q.bounds == s.q.bounds
  {
    var s' := Step(s, e);
    if s'.popped != s.popped {
      Shift(s.popped, s.q.items);
    }
  }

  lemma {:induction false} PushCovered<T>(s: System<T>, e: Event<T>)
    requires Ordered(s) && Covered(s) && Enabled(s, e) && IsPush(e)
    ensures Covered(Step(s, e)) <==> Slack(s, e)
  {
  }

  lemma {:induction false} PopCovered<T>(s: System<T>, e: Event<T>)
    requires Ordered(s) && Covered(s) && Enabled(s, e) && IsPop(e)
    ensures Covered(Step(s, e)) <==> Slack(s, e)
  {
  }

  /** Every step keeps the order, the bounds and the counts; and it keeps every item and free
      slot spoken for exactly unless it is the late end of a call the others needed. */
  lemma {:induction false} StepKeeps<T>(s: System<T>, e: Event<T>)
    requires Ordered(s) && Enabled(s, e)
    ensures Ordered(Step(s, e)) && Step(s, e).q.bounds == s.q.bounds
    ensures Covered(s) ==> (Covered(Step(s, e)) <==> Slack(s, e))
  {
    if IsPush(e) {
      PushOrdered(s, e);
      if Covered(s) {
        PushCovered(s, e);
      }
    } else if IsPop(e) {
      PopOrdered(s, e);
      if Covered(s) {
        PopCovered(s, e);
      }
    }
  }

  /** In every state of every run, whatever the interleaving, the pops have returned a prefix of
      what was pushed, in order, and the queue holds the rest within its bounds. */
  lemma {:induction false} RunKeeps<T>(trace: seq<System<T>>, events: seq<Event<T>>, n: nat)
    requires IsRun(trace, events) && n <= |events|
    ensures Ordered(trace[n]) && trace[n].q.bounds == trace[0].q.bounds && trace[n].popped <= trace[n].pushed
  {
    if n > 0 {
      RunKeeps(trace, events, n - 1);
      assert Taken(trace, events, n - 1);
      StepKeeps(trace[n - 1], events[n - 1]);
    }
  }

  /** Up to `n`, no thread ever sleeps beside an item or a free slot that nobody awake has come
      for. */
  ghost predicate AlwaysCovered<T>(trace: seq<System<T>>, n: nat)
    requires n < |trace|
  {
    forall i :: 0 <= i <= n ==> Covered(trace[i])
  }

  ghost predicate AlwaysSlack<T>(trace: seq<System<T>>, events: seq<Event<T>>, n: nat)
    requires n <= |events| < |trace|
  {
    forall i :: 0 <= i < n ==> Slack(trace[i], events[i])
  }

  /** That holds of a run exactly when every wait that ended late left enough awake calls. */
  lemma {:induction false} RunCovered<T>(trace: seq<System<T>>, events: seq<Event<T>>, n: nat)
    requires IsRun(trace, events) && n <= |events|
    ensures AlwaysCovered(trace, n) <==> AlwaysSlack(trace, events, n)
  {
    if n > 0 {
      RunCovered(trace, events, n - 1);
      RunKeeps(trace, events, n - 1);
      assert Taken(trace, events, n - 1);
      StepKeeps(trace[n - 1], events[n - 1]);
      CoveredNext(trace, events, n - 1);
    }
  }

  /** What a caller can rely on: while no call that has been woken still ends in a time-out or an
      error, no thread sleeps beside an item or a free slot that nobody awake has come for. */
  lemma {:induction false} NoLateCovered<T>(trace: seq<System<T>>, events: seq<Event<T>>, n: nat)
    requires IsRun(trace, events) && n <= |events|
    requires forall i :: 0 <= i < n ==> !events[i].LatePush? && !events[i].LatePop?
    ensures AlwaysCovered(trace, n)
  {
    RunCovered(trace, events, n);
  }

  lemma {:induction false} CoveredNext<T>(trace: seq<System<T>>, events: seq<Event<T>>, n: nat)
    requires n < |events| < |trace|
    ensures AlwaysCovered(trace, n + 1) <==> AlwaysCovered(trace, n) && Covered(trace[n + 1])
    ensures AlwaysSlack(trace, events, n + 1) <==> AlwaysSlack(trace, events, n) && Slack(trace[n], events[n])
    ensures AlwaysCovered(trace, n) ==> Covered(trace[n])
  {
  }

  /** A queue that holds `items`, all the pushed ones, with the given pops waiting. */
  function PopsWait<T>(items: seq<T>, bounds: nat, asleep: seq<int>, awake: seq<int>): System<T> {
    System(Queue(items, bounds, 0, |asleep| + |awake|, false), [], [], asleep, awake, items, [])
  }

  lemma {:induction false} PopsGoToSleep<T>(bounds: nat)
    ensures var s: System<T> := PopsWait([], bounds, [], []);
            Enabled(s, Pop(-1, 0)) && Step(s, Pop(-1, 0)) == PopsWait([], bounds, [-1], [])
    ensures var s: System<T> := PopsWait([], bounds, [-1], []);
            Enabled(s, Pop(1, 0)) && Step(s, Pop(1, 0)) == PopsWait([], bounds, [-1, 1], [])
  {
    assert [] + [-1] == [-1] && [-1] + [1] == [-1, 1];
  }

  lemma {:induction false} PopWakesLate<T>(x: T, bounds: nat)
    requires bounds > 0
    ensures var s: System<T> := PopsWait([], bounds, [-1, 1], []);
            Enabled(s, Push(x, 0, 0, 1)) && Step(s, Push(x, 0, 0, 1)) == PopsWait([x], bounds, [-1], [1])
    ensures var s: System<T> := PopsWait([x], bounds, [-1], [1]);
            Enabled(s, LatePop(0, TimeUp)) && Step(s, LatePop(0, TimeUp)) == PopsWait([x], bounds, [-1], [])
  {
    assert [-1, 1][..1] + [-1, 1][2..] == [-1] && [1][..0] + [1][1..] == [] && [] + [x] == [x];
  }

  /** Two pops, one timed, wait; a push wakes the timed one, whose wait then ends late: the
      other sleeps on beside the item. */
  lemma {:induction false} LateLeavesItem<T>(x: T, bounds: nat) returns (trace: seq<System<T>>, events: seq<Event<T>>)
    requires bounds > 0
    ensures IsRun(trace, events) && trace[|events|] == PopsWait([x], bounds, [-1], [])
    ensures !Covered(trace[|events|])
  {
    PopsGoToSleep<T>(bounds);
    PopWakesLate(x, bounds);
    events := [Pop(-1, 0), Pop(1, 0), Push(x, 0, 0, 1), LatePop(0, TimeUp)];
    trace := [PopsWait([], bounds, [], []), PopsWait([], bounds, [-1], []), PopsWait([], bounds, [-1, 1], []),
              PopsWait([x], bounds, [-1], [1]), PopsWait([x], bounds, [-1], [])];
  }

  // ---- what the callers are told ---------------------------------------------

  /** What a stretch of a push comes to. */
  function PushOutcome<T>(s: System<T>, e: Event<T>): Outcome
    requires Enabled(s, e) && IsPush(e)
  {
    match e
    case Push(x, timeout, now, _) => PushEnter(s.q, x, timeout, now).outcome
    case ResumePush(i, now, _) => PushOf(s, s.pushAwake[i], Ok, now).outcome
    case TimeOutPush(i, rv) => PushOf(s, s.pushAsleep[i], rv, 0).outcome
    case LatePush(i, rv) => PushOf(s, s.pushAwake[i], rv, 0).outcome
  }

  function PopOutcome<T>(s: System<T>, e: Event<T>): Outcome
    requires Enabled(s, e) && IsPop(e)
  {
    match e
    case Pop(timeout, _) => PopEnter(s.q, timeout).outcome
    case ResumePop(i, _) => PopResume(s.q, s.popAwake[i], Ok).outcome
    case TimeOutPop(i, rv) => PopResume(s.q, s.popAsleep[i], rv).outcome
    case LatePop(i, rv) => PopResume(s.q, s.popAwake[i], rv).outcome
  }

  /** The queue is terminated exactly when ogs_queue_term() has been called. */
  lemma {:induction false} TerminatedBy<T>(trace: seq<System<T>>, events: seq<Event<T>>, n: nat)
    requires IsRun(trace, events) && n <= |events|
    ensures trace[n].q.terminated <==> Terminated(events, n)
  {
    if n > 0 {
      TerminatedBy(trace, events, n - 1);
      assert Taken(trace, events, n - 1);
      StepTerminates(trace[n - 1], events[n - 1]);
    }
  }

  lemma StepTerminates<T>(s: System<T>, e: Event<T>)
    requires Enabled(s, e)
    ensures Step(s, e).q.terminated <==> s.q.terminated || e.Terminate?
  {
  }

  /** How many items are pushed and not yet popped. */
  function Held<T>(s: System<T>): int {
    |s.pushed| - |s.popped|
  }

  ghost predicate Terminated<T>(events: seq<Event<T>>, n: nat)
    requires n <= |events|
  {
    exists i :: 0 <= i < n && events[i].Terminate?
  }

  /** In every run a push that takes the mutex returns OGS_OK, and its item joins the pushed ones,
      exactly when there is no termination yet and fewer items are pushed and not popped than the
      queue holds; OGS_DONE exactly after a termination; OGS_RETRY exactly with timeout 0 and the
      queue full; and otherwise it waits. */
  lemma {:induction false} PushEnters<T>(trace: seq<System<T>>, events: seq<Event<T>>, n: nat)
    requires IsRun(trace, events) && n < |events| && events[n].Push?
    ensures Taken(trace, events, n)
    ensures var e, s, s' := events[n], trace[n], trace[n + 1];
            var o, full := PushOutcome(s, e), Held(s) == trace[0].q.bounds;
            && (o == Return(Done) <==> Terminated(events, n))
            && (o == Return(Ok) <==> !Terminated(events, n) && !full)
            && (o == Return(Retry) <==> !Terminated(events, n) && full && e.timeout == 0)
            && (o.Wait? <==> !Terminated(events, n) && full && e.timeout != 0)
            && o != Return(Error) && o != Return(TimeUp)
            && s'.pushed == s.pushed + (if o == Return(Ok) then [e.x] else [])
            && (o.Wait? ==> s'.pushAsleep == s.pushAsleep + [PushCall(e.x, e.timeout, o.deadline, e.now)])
  {
    assert Taken(trace, events, n);
    TerminatedBy(trace, events, n);
    RunKeeps(trace, events, n);
    var s, e := trace[n], events[n];
    PushMeans(s.q, e.x, e.timeout, 0, Ok, e.now, false);
    assert s.pushed + [] == s.pushed;
  }

  /** After a wait that did not fail it returns OGS_OK exactly when there is room, even after a
      termination; OGS_DONE exactly when there is none after a termination; OGS_ERROR exactly when
      there is none and it has a timeout; and one without a timeout returns OGS_RETRY exactly when
      there is none and it first waited 20 ms ago or more, and otherwise waits again. */
  lemma {:induction false} PushResumes<T>(trace: seq<System<T>>, events: seq<Event<T>>, n: nat)
    requires IsRun(trace, events) && n < |events| && events[n].ResumePush?
    ensures Taken(trace, events, n)
    ensures var e, s, s', c := events[n], trace[n], trace[n + 1], trace[n].pushAwake[events[n].i];
            var o, full := PushOutcome(s, e), Held(s) == trace[0].q.bounds;
            && c.timeout != 0
            && (o == Return(Ok) <==> !full)
            && (o == Return(Done) <==> full && Terminated(events, n))
            && (o == Return(Error) <==> full && !Terminated(events, n) && c.timeout > 0)
            && (o == Return(Retry) <==> full && !Terminated(events, n) && c.timeout < 0 && e.now >= c.since + 20000)
            && (o.Wait? <==> full && !Terminated(events, n) && c.timeout < 0 && e.now < c.since + 20000)
            && o != Return(TimeUp)
            && s'.pushed == s.pushed + (if o == Return(Ok) then [c.x] else [])
            && (o.Wait? ==> s'.pushAsleep == s.pushAsleep + [c])
  {
    assert Taken(trace, events, n);
    TerminatedBy(trace, events, n);
    RunKeeps(trace, events, n);
    RunDated(trace, events, n);
    var s, e := trace[n], events[n];
    var c := s.pushAwake[e.i];
    assert Dated(c);
    PushMeans(s.q, c.x, c.timeout, c.deadline, Ok, e.now, true);
    assert s.pushed + [] == s.pushed;
  }

  /** A wait that failed ends the push, without its item. */
  lemma {:induction false} PushFails<T>(trace: seq<System<T>>, events: seq<Event<T>>, n: nat)
    requires IsRun(trace, events) && n < |events| && (events[n].TimeOutPush? || events[n].LatePush?)
    ensures Taken(trace, events, n)
    ensures var e, s := events[n], trace[n];
            var c := if e.TimeOutPush? then s.pushAsleep[e.i] else s.pushAwake[e.i];
            PushOutcome(s, e) == Return(if c.timeout > 0 then e.rv else Retry) && trace[n + 1].pushed == s.pushed
  {
    assert Taken(trace, events, n);
    var s, e := trace[n], events[n];
    var c := if e.TimeOutPush? then s.pushAsleep[e.i] else s.pushAwake[e.i];
    PushMeans(s.q, c.x, c.timeout, c.deadline, e.rv, 0, true);
  }

  /** A waiting push has a timeout, or gives up 20 ms after it first waited. */
  ghost predicate Dated<T>(c: PushCall<T>) {
    c.timeout != 0 && (c.timeout < 0 ==> c.deadline == c.since + 20000)
  }

  ghost predicate AllDated<T>(cs: seq<PushCall<T>>) {
    forall i :: 0 <= i < |cs| ==> Dated(cs[i])
  }

  lemma {:induction false} StepDated<T>(s: System<T>, e: Event<T>)
    requires Enabled(s, e) && AllDated(s.pushAsleep) && AllDated(s.pushAwake)
    ensures AllDated(Step(s, e).pushAsleep) && AllDated(Step(s, e).pushAwake)
  {
    if IsPush(e) {
      PushDated(s, e);
    }
  }

  lemma {:induction false} PushDated<T>(s: System<T>, e: Event<T>)
    requires Enabled(s, e) && IsPush(e) && AllDated(s.pushAsleep) && AllDated(s.pushAwake)
    ensures AllDated(Step(s, e).pushAsleep) && AllDated(Step(s, e).pushAwake)
  {
    match e
    case Push(x, timeout, now, _) => PushMeans(s.q, x, timeout, 0, Ok, now, false);
    case ResumePush(i, now, _) =>
      var c := s.pushAwake[i];
      assert Dated(c);
      PushMeans(s.q, c.x, c.timeout, c.deadline, Ok, now, true);
    case TimeOutPush(_, _) =>
    case LatePush(_, _) =>
  }

  lemma {:induction false} RunDated<T>(trace: seq<System<T>>, events: seq<Event<T>>, n: nat)
    requires IsRun(trace, events) && n <= |events|
    ensures AllDated(trace[n].pushAsleep) && AllDated(trace[n].pushAwake)
  {
    if n > 0 {
      RunDated(trace, events, n - 1);
      assert Taken(trace, events, n - 1);
      StepDated(trace[n - 1], events[n - 1]);
    }
  }

  /** In every run a pop that takes the mutex returns OGS_OK, with the oldest item pushed and not yet
      popped, exactly when there is one and no termination yet; OGS_DONE exactly after a termination;
      OGS_RETRY exactly with timeout 0 and nothing there; and otherwise it waits. */
  lemma {:induction false} PopEnters<T>(trace: seq<System<T>>, events: seq<Event<T>>, n: nat)
    requires IsRun(trace, events) && n < |events| && events[n].Pop?
    ensures Taken(trace, events, n)
    ensures var e, s, s' := events[n], trace[n], trace[n + 1];
            var o, none := PopOutcome(s, e), s.popped == s.pushed;
            && (o == Return(Done) <==> Terminated(events, n))
            && (o == Return(Ok) <==> !Terminated(events, n) && !none)
            && (o == Return(Retry) <==> !Terminated(events, n) && none && e.timeout == 0)
            && (o.Wait? <==> !Terminated(events, n) && none && e.timeout != 0)
            && o != Return(Error) && o != Return(TimeUp) && OldestOut(s, s', o == Return(Ok))
            && (o.Wait? ==> s'.popAsleep == s.popAsleep + [e.timeout])
  {
    assert Taken(trace, events, n);
    TerminatedBy(trace, events, n);
    RunKeeps(trace, events, n);
    var s, e := trace[n], events[n];
    PopMeans(s.q, e.timeout, Ok, false);
    NothingHeld(s);
  }

  /** After a wait that did not fail it returns OGS_OK exactly when there is an item, even after a
      termination; OGS_DONE exactly when there is none after a termination; OGS_ERROR exactly when
      there is none and it has a timeout; and otherwise it waits again. */
  lemma {:induction false} PopResumes<T>(trace: seq<System<T>>, events: seq<Event<T>>, n: nat)
    requires IsRun(trace, events) && n < |events| && events[n].ResumePop?
    ensures Taken(trace, events, n)
    ensures var e, s, s', timeout := events[n], trace[n], trace[n + 1], trace[n].popAwake[events[n].i];
            var o, none := PopOutcome(s, e), s.popped == s.pushed;
            && (o == Return(Ok) <==> !none)
            && (o == Return(Done) <==> none && Terminated(events, n))
            && (o == Return(Error) <==> none && !Terminated(events, n) && timeout > 0)
            && (o.Wait? <==> none && !Terminated(events, n) && timeout <= 0)
            && o != Return(Retry) && o != Return(TimeUp) && OldestOut(s, s', o == Return(Ok))
            && (o.Wait? ==> s'.popAsleep == s.popAsleep + [timeout])
  {
    assert Taken(trace, events, n);
    TerminatedBy(trace, events, n);
    RunKeeps(trace, events, n);
    var s, e := trace[n], events[n];
    PopMeans(s.q, s.popAwake[e.i], Ok, true);
    NothingHeld(s);
  }

  /** A wait that failed ends the pop, with nothing. */
  lemma {:induction false} PopFails<T>(trace: seq<System<T>>, events: seq<Event<T>>, n: nat)
    requires IsRun(trace, events) && n < |events| && (events[n].TimeOutPop? || events[n].LatePop?)
    ensures Taken(trace, events, n)
    ensures PopOutcome(trace[n], events[n]) == Return(events[n].rv) && trace[n + 1].popped == trace[n].popped
  {
    assert Taken(trace, events, n);
    var s, e := trace[n], events[n];
    PopMeans(s.q, if e.TimeOutPop? then s.popAsleep[e.i] else s.popAwake[e.i], e.rv, true);
  }

  /** The oldest item pushed and not yet popped comes out, or none does. */
  ghost predicate OldestOut<T>(s: System<T>, s': System<T>, out: bool) {
    if out then |s.popped| < |s.pushed| && s'.popped == s.popped + [s.pushed[|s.popped|]] else s'.popped == s.popped
  }

  lemma NothingHeld<T>(s: System<T>)
    requires Ordered(s)
    ensures s.popped == s.pushed <==> s.q.items == []
    ensures s.q.items != [] ==> |s.popped| < |s.pushed| && s.pushed[|s.popped|] == s.q.items[0]
  {
    assert s.q.items == [] ==> s.popped + s.q.items == s.popped;
    assert |s.pushed| == |s.popped| + |s.q.items|;
  }

  // ---- termination ----------------------------------------------------------

  /** A call that first takes the mutex after termination returns OGS_DONE and changes
      nothing, in every later state of the run. */
  lemma {:induction false} DoneAfterTerm<T>(trace: seq<System<T>>, events: seq<Event<T>>, i: nat, n: nat)
    requires IsRun(trace, events) && i < n <= |events| && events[i].Terminate?
    ensures trace[n].q.terminated
    ensures n < |events| && events[n].Push? ==>
              && PushEnter(trace[n].q, events[n].x, events[n].timeout, events[n].now).outcome == Return(Done)
              && trace[n + 1] == trace[n]
    ensures n < |events| && events[n].Pop? ==>
              PopEnter(trace[n].q, events[n].timeout).outcome == Return(Done) && trace[n + 1] == trace[n]
  {
    if n > i + 1 {
      DoneAfterTerm(trace, events, i, n - 1);
    }
    assert Taken(trace, events, n - 1) && (n < |events| ==> Taken(trace, events, n));
  }

  /** ogs_queue_term(): once its broadcast is out no thread sleeps, then or ever after, and
      every call that resumes leaves the queue, so the waiting calls only grow fewer. */
  lemma {:induction false} TermReleases<T>(trace: seq<System<T>>, events: seq<Event<T>>, i: nat, j: nat, n: nat)
    requires IsRun(trace, events) && i < j < n <= |events| && events[i].Terminate? && events[j].InterruptAll?
    ensures NobodySleeps(trace[n])
    ensures n < |events| && (events[n].ResumePush? || events[n].ResumePop?) ==>
              trace[n + 1].q.fullWaiters + trace[n + 1].q.emptyWaiters < trace[n].q.fullWaiters + trace[n].q.emptyWaiters
  {
    if n > j + 1 {
      TermReleases(trace, events, i, j, n - 1);
    }
    DoneAfterTerm(trace, events, i, n - 1);
    DoneAfterTerm(trace, events, i, n);
    assert Taken(trace, events, n - 1);
    TerminatedStep(trace[n - 1], events[n - 1]);
    if n < |events| {
      assert Taken(trace, events, n);
      TerminatedStep(trace[n], events[n]);
    }
  }

  ghost predicate NobodySleeps<T>(s: System<T>) {
    s.pushAsleep == [] && s.popAsleep == []
  }

  lemma {:induction false} TerminatedStep<T>(s: System<T>, e: Event<T>)
    requires Enabled(s, e) && s.q.terminated
    ensures NobodySleeps(s) || e.InterruptAll? ==> NobodySleeps(Step(s, e))
    ensures e.ResumePush? || e.ResumePop? ==>
              Step(s, e).q.fullWaiters + Step(s, e).q.emptyWaiters < s.q.fullWaiters + s.q.emptyWaiters
  {
    if IsPush(e) {
      TerminatedPush(s, e);
    } else if IsPop(e) {
      TerminatedPop(s, e);
    }
  }

  lemma {:induction false} TerminatedPush<T>(s: System<T>, e: Event<T>)
    requires Enabled(s, e) && s.q.terminated && IsPush(e)
    ensures NobodySleeps(s) ==> NobodySleeps(Step(s, e))
    ensures Step(s, e).q.emptyWaiters == s.q.emptyWaiters
    ensures !e.Push? ==> Step(s, e).q.fullWaiters == s.q.fullWaiters - 1
  {
  }

  lemma {:induction false} TerminatedPop<T>(s: System<T>, e: Event<T>)
    requires Enabled(s, e) && s.q.terminated && IsPop(e)
    ensures NobodySleeps(s) ==> NobodySleeps(Step(s, e))
    ensures Step(s, e).q.fullWaiters == s.q.fullWaiters
    ensures !e.Pop? ==> Step(s, e).q.emptyWaiters == s.q.emptyWaiters - 1
  {
  }
}
