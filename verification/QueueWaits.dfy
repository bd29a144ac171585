/**
How long one `ogs_queue_push()` can wait, and why a producer may skip the wake-up of the
consumer when the queue was not empty.
*/
module PushWaits {
  import opened QueueCalls

  /** One wait of a push: when it began and ended, what it returned, the queue found then and
      the clock read for it. */
  datatype Round<T> = Round(began: nat, ended: nat, rv: Code, q: Queue<T>, read: nat)

  /** The waits of one push with an infinite timeout that began waiting when the clock read
      `now`: no wait outlasts its timeout, the clock never runs back, and every wait but the
      last was followed by another. */
  ghost predicate Waits<T>(x: T, timeout: int, now: nat, rounds: seq<Round<T>>) {
    && timeout < 0
    && (forall i {:trigger InTime(now, rounds, i)} :: 0 <= i < |rounds| ==> InTime(now, rounds, i))
    && (forall i :: 0 <= i < |rounds| - 1 ==> GoesOn(x, timeout, now, rounds[i]))
  }

  ghost predicate InTime<T>(now: nat, rounds: seq<Round<T>>, i: nat)
    requires i < |rounds|
  {
    && (if i == 0 then now else rounds[i - 1].read) <= rounds[i].began <= rounds[i].ended <= rounds[i].read
    && rounds[i].ended <= rounds[i].began + MAX_WAIT && rounds[i].q.fullWaiters > 0
  }

  lemma {:induction false} FirstWaits<T>(x: T, timeout: int, now: nat, rounds: seq<Round<T>>)
    requires Waits(x, timeout, now, rounds) && rounds != []
    ensures Waits(x, timeout, now, rounds[..|rounds| - 1])
  {
    var init := rounds[..|rounds| - 1];
    forall i | 0 <= i < |init|
      ensures InTime(now, init, i)
    {
      assert InTime(now, rounds, i);
    }
    forall i | 0 <= i < |init| - 1
      ensures GoesOn(x, timeout, now, init[i])
    {
      assert GoesOn(x, timeout, now, rounds[i]);
    }
  }

  /** The call waits again, still with the deadline set when it first did. */
  ghost predicate GoesOn<T>(x: T, timeout: int, now: nat, r: Round<T>) {
    r.q.fullWaiters > 0 && PushResume(r.q, x, timeout, now + MAX_WAIT, r.rv, r.read).outcome == Wait(now + MAX_WAIT)
  }

  ghost function Total<T>(rounds: seq<Round<T>>): int {
    if rounds == [] then 0 else Total(rounds[..|rounds| - 1]) + rounds[|rounds| - 1].ended - rounds[|rounds| - 1].began
  }

  /** The waits so far fit between the start and the last reading of the clock. */
  lemma {:induction false} TotalSpan<T>(x: T, timeout: int, now: nat, rounds: seq<Round<T>>)
    requires Waits(x, timeout, now, rounds) && rounds != []
    ensures Total(rounds) <= rounds[|rounds| - 1].read - now
  {
    assert InTime(now, rounds, |rounds| - 1);
    if |rounds| > 1 {
      FirstWaits(x, timeout, now, rounds);
      TotalSpan(x, timeout, now, rounds[..|rounds| - 1]);
    } else {
      assert rounds[..0] == [] && Total(rounds[..0]) == 0;
    }
  }

  /** An infinite push waits less than twice the maximum in all, whatever wakes it. */
  lemma {:induction false} TotalBounded<T>(x: T, timeout: int, now: nat, rounds: seq<Round<T>>)
    requires Waits(x, timeout, now, rounds)
    ensures Total(rounds) < 40000
  {
    if |rounds| > 0 {
      assert InTime(now, rounds, |rounds| - 1);
      FirstWaits(x, timeout, now, rounds);
    }
    if |rounds| > 1 {
      var init := rounds[..|rounds| - 1];
      TotalSpan(x, timeout, now, init);
      assert GoesOn(x, timeout, now, rounds[|rounds| - 2]);
    } else if |rounds| == 1 {
      assert rounds[..0] == [] && Total(rounds[..0]) == 0;
    }
  }

  /** It finishes: if the clock moves from one reading to the next, the loop goes round at
      most once per microsecond of the maximum wait and one time more. */
  lemma {:induction false} RoundsBounded<T>(x: T, timeout: int, now: nat, rounds: seq<Round<T>>)
    requires Waits(x, timeout, now, rounds)
    requires forall i :: 0 <= i < |rounds| - 1 ==> rounds[i].read < rounds[i + 1].read
    ensures |rounds| <= 20001
  {
    if |rounds| > 1 {
      ReadsSpread(x, timeout, now, rounds, |rounds| - 2);
      assert GoesOn(x, timeout, now, rounds[|rounds| - 2]);
    }
  }

  lemma {:induction false} ReadsSpread<T>(x: T, timeout: int, now: nat, rounds: seq<Round<T>>, i: nat)
    requires Waits(x, timeout, now, rounds) && i < |rounds|
    requires forall i :: 0 <= i < |rounds| - 1 ==> rounds[i].read < rounds[i + 1].read
    ensures rounds[i].read >= now + i
  {
    assert InTime(now, rounds, i);
    if i > 0 {
      ReadsSpread(x, timeout, now, rounds, i - 1);
      assert rounds[i - 1].read < rounds[i - 1 + 1].read;
    }
  }
}

/**
The producers and the one consumer of a queue.  Producers push with
`ogs_queue_trypush_hint()` and then notify the poll set only if the queue was empty, or push
without the hint and always notify.  The consumer sleeps in the poll set, which returns when
the latch is set (or for some other reason), reads the latch, pops until the queue is empty,
and only then sleeps again.
*/
module QueueWakeup {
  import opened QueueCalls

  datatype Phase = Asleep | Polled | Draining

  /** `owing` counts the producers that have pushed and still have to notify. */
  datatype System<T> = System(q: Queue<T>, owing: nat, latch: nat, consumer: Phase)

  datatype Event<T> =
    /** `always` is a producer without the hint */
    | Push(x: T, always: bool)
    /** `ok` is the result of the write */
    | Notify(ok: bool)
    | PollReturns
    | ReadLatch
    | StartDraining
    | PopOne
    | Sleep
    | Terminate

  predicate Enabled<T>(s: System<T>, e: Event<T>) {
    match e
    case Push(_, _) => true
    case Notify(ok) => s.owing > 0
    case PollReturns => s.consumer == Asleep
    case ReadLatch => s.consumer == Polled && s.latch > 0
    case StartDraining => s.consumer == Polled
    case PopOne => s.consumer == Draining && PopEnter(s.q, 0).outcome == Return(Ok)
    case Sleep => s.consumer == Draining && PopEnter(s.q, 0).outcome == Return(Retry)
    case Terminate => true
  }

  function Step<T>(s: System<T>, e: Event<T>): System<T>
    requires Enabled(s, e)
  {
    match e
    case Push(x, always) =>
      var p := PushEnter(s.q, x, 0, 0);
      s.(q := p.q, owing := s.owing + if p.outcome == Return(Ok) && (always || p.wasEmpty) then 1 else 0)
    case Notify(ok) => s.(owing := s.owing - 1, latch := if ok then s.latch + 1 else s.latch)
    case PollReturns => s.(consumer := Polled)
    case ReadLatch => s.(latch := 0)
    case StartDraining => s.(consumer := Draining)
    case PopOne => s.(q := PopEnter(s.q, 0).q)
    case Sleep => s.(consumer := Asleep)
    case Terminate => s.(q := s.q.(terminated := true))
  }

  ghost predicate IsRun<T>(trace: seq<System<T>>, events: seq<Event<T>>) {
    && |trace| == |events| + 1
    && trace[0] == System(Queue([], trace[0].q.bounds, 0, 0, false), 0, 0, Asleep)
    && forall i {:trigger Taken(trace, events, i)} :: 0 <= i < |events| ==> Taken(trace, events, i)
  }

  ghost predicate Taken<T>(trace: seq<System<T>>, events: seq<Event<T>>, i: nat)
    requires i < |events| < |trace|
  {
    Enabled(trace[i], events[i]) && trace[i + 1] == Step(trace[i], events[i])
  }

  /** A consumer asleep beside a non-empty queue will hear of it. */
  ghost predicate NotLost<T>(s: System<T>) {
    s.q.items != [] && s.consumer == Asleep ==> s.latch > 0 || s.owing > 0
  }

  /** The last notification owed fails on a clear latch while the consumer sleeps beside an item. */
  ghost predicate LosesIt<T>(s: System<T>, e: Event<T>) {
    e == Notify(false) && s.latch == 0 && s.owing == 1 && s.consumer == Asleep && s.q.items != []
  }

  lemma {:induction false} StepLoses<T>(s: System<T>, e: Event<T>)
    requires NotLost(s) && Enabled(s, e)
    ensures NotLost(Step(s, e)) <==> !LosesIt(s, e)
  {
    assert s.q.items != [] && e.Push? ==> !PushEnter(s.q, e.x, 0, 0).wasEmpty;
  }

  ghost predicate AlwaysHeard<T>(trace: seq<System<T>>, n: nat)
    requires n < |trace|
  {
    forall i :: 0 <= i <= n ==> NotLost(trace[i])
  }

  /** In any interleaving of any number of producers with the consumer no wake-up is lost exactly
      when the last notification owed never fails on a clear latch while the consumer sleeps
      beside an item. */
  lemma {:induction false} NeverLost<T>(trace: seq<System<T>>, events: seq<Event<T>>, n: nat)
    requires IsRun(trace, events) && n <= |events|
    ensures AlwaysHeard(trace, n) <==> forall i :: 0 <= i < n ==> !LosesIt(trace[i], events[i])
  {
    if n == 0 {
    } else {
      NeverLost(trace, events, n - 1);
      assert Taken(trace, events, n - 1);
      if AlwaysHeard(trace, n - 1) {
        StepLoses(trace[n - 1], events[n - 1]);
      }
      assert AlwaysHeard(trace, n) <==> AlwaysHeard(trace, n - 1) && NotLost(trace[n]);
    }
  }

  /** What a producer can rely on: while no write fails no wake-up is lost. */
  lemma {:induction false} WritesSuffice<T>(trace: seq<System<T>>, events: seq<Event<T>>, n: nat)
    requires IsRun(trace, events) && n <= |events| && Notify(false) !in events[..n]
    ensures NotLost(trace[n])
  {
    forall i | 0 <= i < n
      ensures !LosesIt(trace[i], events[i])
    {
      assert events[..n][i] == events[i];
    }
    NeverLost(trace, events, n);
  }

  /** Such a failed write is possible: a push, and its notification fails. */
  lemma {:induction false} FailedWriteLoses<T>(x: T, bounds: nat) returns (trace: seq<System<T>>, events: seq<Event<T>>)
    requires bounds > 0
    ensures IsRun(trace, events) && !NotLost(trace[|events|])
  {
    events := [Push(x, false), Notify(false)];
    var q0: Queue<T> := Queue([], bounds, 0, 0, false);
    var q1 := Queue([x], bounds, 0, 0, false);
    trace := [System(q0, 0, 0, Asleep), System(q1, 1, 0, Asleep), System(q1, 0, 0, Asleep)];
    assert [] + [x] == [x];
  }

  /** The consumer's part of the contract is needed: asleep before the queue is empty, it
      would miss the item of a producer that has done all it owes. */
  lemma {:induction false} DrainingNeeded<T>(x: T, bounds: nat) returns (trace: seq<System<T>>, events: seq<Event<T>>)
    requires bounds > 0
    ensures IsRun(trace, events) && trace[|events|].consumer == Draining && Notify(false) !in events
    ensures !NotLost(trace[|events|].(consumer := Asleep))
  {
    events := [Push(x, false), Notify(true), PollReturns, ReadLatch, StartDraining];
    var q0: Queue<T> := Queue([], bounds, 0, 0, false);
    var q1 := Queue([x], bounds, 0, 0, false);
    trace := [System(q0, 0, 0, Asleep), System(q1, 1, 0, Asleep), System(q1, 0, 1, Asleep),
              System(q1, 0, 1, Polled), System(q1, 0, 0, Polled), System(q1, 0, 0, Draining)];
    assert [] + [x] == [x];
  }
}
