/**
The calls of the bounded queue (`lib/core/ogs-queue.c`) as critical sections.  A call holds
the one mutex from the lock to its next wait on a condition variable or to its return, and
from a wake-up to the next wait or return; `PushEnter`, `PushResume`, `PopEnter` and
`PopResume` are those stretches, on the value of the queue.
*/
module QueueCalls {
  import opened Basics

  datatype Code = Ok | Done | Retry | Error | TimeUp

  /** OGS_QUEUE_PUSH_MAX_WAIT, in microseconds */
  const MAX_WAIT := 20000

  datatype Queue<T> = Queue(items: seq<T>, bounds: nat, fullWaiters: nat, emptyWaiters: nat, terminated: bool)

  /** A stretch ends in a return, or in a wait after which the call resumes with `deadline`
      (0 while none is set). */
  datatype Outcome = Return(code: Code) | Wait(deadline: nat)

  /** `signal` says that the other side's condition variable is signalled. */
  datatype PushEffect<T> = PushEffect(q: Queue<T>, outcome: Outcome, wasEmpty: bool, signal: bool)

  datatype PopEffect<T> = PopEffect(q: Queue<T>, outcome: Outcome, item: Option<T>, signal: bool)

  predicate Full<T>(q: Queue<T>) {
    |q.items| == q.bounds
  }

  function Insert<T>(q: Queue<T>, x: T): PushEffect<T> {
    PushEffect(q.(items := q.items + [x]), Return(Ok), |q.items| == 0, q.emptyWaiters > 0)
  }

  function Refuse<T>(q: Queue<T>, code: Code): PushEffect<T> {
    PushEffect(q, Return(code), false, false)
  }

  /** Start waiting for room; `deadline` is fixed at the first wait of an infinite push. */
  function AwaitRoom<T>(q: Queue<T>, timeout: int, deadline: nat, now: nat): PushEffect<T> {
    PushEffect(q.(fullWaiters := q.fullWaiters + 1),
               Wait(if timeout < 0 && deadline == 0 then now + MAX_WAIT else deadline), false, false)
  }

  /** From the lock on. */
  function PushEnter<T>(q: Queue<T>, x: T, timeout: int, now: nat): PushEffect<T> {
    if q.terminated then Refuse(q, Done)
    else if !Full(q) then Insert(q, x)
    else if timeout == 0 then Refuse(q, Retry)
    else AwaitRoom(q, timeout, 0, now)
  }

  /** From the return of the wait on; `rv` is what the wait returned. */
  function PushResume<T>(q: Queue<T>, x: T, timeout: int, deadline: nat, rv: Code, now: nat): PushEffect<T>
    requires q.fullWaiters > 0
  {
    var q := q.(fullWaiters := q.fullWaiters - 1);
    if rv != Ok then Refuse(q, if timeout > 0 then rv else Retry)
    else if !Full(q) then Insert(q, x)
    else if q.terminated then Refuse(q, Done)
    else if timeout > 0 then Refuse(q, Error)
    else if now >= deadline then Refuse(q, Retry)
    else AwaitRoom(q, timeout, deadline, now)
  }

  function Remove<T>(q: Queue<T>): PopEffect<T>
    requires q.items != []
  {
    PopEffect(q.(items := q.items[1..]), Return(Ok), Some(q.items[0]), q.fullWaiters > 0)
  }

  function Nothing<T>(q: Queue<T>, code: Code): PopEffect<T> {
    PopEffect(q, Return(code), None, false)
  }

  function AwaitItem<T>(q: Queue<T>): PopEffect<T> {
    PopEffect(q.(emptyWaiters := q.emptyWaiters + 1), Wait(0), None, false)
  }

  function PopEnter<T>(q: Queue<T>, timeout: int): PopEffect<T> {
    if q.terminated then Nothing(q, Done)
    else if q.items != [] then Remove(q)
    else if timeout == 0 then Nothing(q, Retry)
    else AwaitItem(q)
  }

  function PopResume<T>(q: Queue<T>, timeout: int, rv: Code): PopEffect<T>
    requires q.emptyWaiters > 0
  {
    var q := q.(emptyWaiters := q.emptyWaiters - 1);
    if rv != Ok then Nothing(q, rv)
    else if q.items != [] then Remove(q)
    else if q.terminated then Nothing(q, Done)
    else if timeout > 0 then Nothing(q, Error)
    else AwaitItem(q)
  }

  // ---- what the outcomes mean ------------------------------------------------

  /** `failed` is what a wait that failed returned, and nothing for a stretch from the lock or after
      a wait that did not fail. */
  predicate Failed(resumed: bool, rv: Code) {
    resumed && rv != Ok
  }

  /** Exactly when a push returns what, and when it waits.  A push with a positive timeout waits at
      most once, one with timeout 0 never, and one without a timeout gives up only when the time
      set at its first wait has come. */
  lemma {:induction false} PushMeans<T>(q: Queue<T>, x: T, timeout: int, deadline: nat, rv: Code, now: nat, resumed: bool)
    requires resumed ==> q.fullWaiters > 0
    ensures var e := if resumed then PushResume(q, x, timeout, deadline, rv, now) else PushEnter(q, x, timeout, now);
            && e.q.items == (if e.outcome == Return(Ok) then q.items + [x] else q.items)
            && (e.wasEmpty <==> e.outcome == Return(Ok) && q.items == [])
            && (e.signal <==> e.outcome == Return(Ok) && q.emptyWaiters > 0)
            && e.q.fullWaiters == q.fullWaiters + (if resumed then -1 else 0) + (if e.outcome.Wait? then 1 else 0)
            && PushTold(q, timeout, deadline, rv, now, resumed, e.outcome)
  {
  }

  ghost predicate PushTold<T>(q: Queue<T>, timeout: int, deadline: nat, rv: Code, now: nat, resumed: bool, o: Outcome) {
    if Failed(resumed, rv) then o == Return(if timeout > 0 then rv else Retry)
    else
      && (o == Return(Ok) <==> !Full(q) && (resumed || !q.terminated))
      && (o == Return(Done) <==> q.terminated && (resumed ==> Full(q)))
      && (o == Return(Error) <==> Full(q) && !q.terminated && resumed && timeout > 0)
      && (o == Return(Retry) <==> Full(q) && !q.terminated && if resumed then timeout <= 0 && now >= deadline else timeout == 0)
      && (o.Wait? <==> Full(q) && !q.terminated && if resumed then timeout <= 0 && now < deadline else timeout != 0)
      && (o.Wait? && !resumed ==> o.deadline == if timeout < 0 then now + 20000 else 0)
      && (o.Wait? && resumed && deadline > 0 ==> o.deadline == deadline)
  }

  /** The same for a pop: an item comes out exactly with OGS_OK, and it is the oldest; a pop without
      a timeout waits until there is one. */
  lemma {:induction false} PopMeans<T>(q: Queue<T>, timeout: int, rv: Code, resumed: bool)
    requires resumed ==> q.emptyWaiters > 0
    ensures var e := if resumed then PopResume(q, timeout, rv) else PopEnter(q, timeout);
            && (e.item.Some? <==> e.outcome == Return(Ok))
            && (e.item.Some? ==> q.items == [e.item.value] + e.q.items)
            && (e.item == None ==> e.q.items == q.items)
            && (e.signal <==> e.outcome == Return(Ok) && q.fullWaiters > 0)
            && e.q.emptyWaiters == q.emptyWaiters + (if resumed then -1 else 0) + (if e.outcome.Wait? then 1 else 0)
            && PopTold(q, timeout, rv, resumed, e.outcome)
  {
  }

  ghost predicate PopTold<T>(q: Queue<T>, timeout: int, rv: Code, resumed: bool, o: Outcome) {
    if Failed(resumed, rv) then o == Return(rv)
    else
      && (o == Return(Ok) <==> q.items != [] && (resumed || !q.terminated))
      && (o == Return(Done) <==> q.terminated && (resumed ==> q.items == []))
      && (o == Return(Error) <==> q.items == [] && !q.terminated && resumed && timeout > 0)
      && (o == Return(Retry) <==> q.items == [] && !q.terminated && !resumed && timeout == 0)
      && (o.Wait? <==> q.items == [] && !q.terminated && if resumed then timeout <= 0 else timeout != 0)
  }
}

/**
The ring buffer itself: the same stretches over the array, its indices and its counters.
*/
module RingQueue {
  import opened Basics
  import opened QueueCalls
  import C = QueueCalls

  class Ring<T(0)> {
    var data: array<T>
    var nelts: nat
    /** next empty location (`in`) */
    var head: nat
    /** next filled location */
    var out: nat
    const bounds: nat
    var fullWaiters: nat
    var emptyWaiters: nat
    var terminated: bool

    ghost predicate Valid()
      reads this, data
    {
      && data.Length == bounds && nelts <= bounds
      && (if bounds == 0 then head == out == 0 else head < bounds && out < bounds)
      && head == Wrapped(out, nelts, bounds)
    }

    /** The items from the oldest to the newest. */
    ghost function Items(): seq<T>
      requires Valid()
      reads this, data
    {
      seq(nelts, i requires 0 <= i < nelts reads this, data requires Valid() => data[Wrapped(out, i, bounds)])
    }

    ghost function Value(): C.Queue<T>
      requires Valid()
      reads this, data
    {
      C.Queue(Items(), bounds, fullWaiters, emptyWaiters, terminated)
    }

    /** ogs_queue_create() */
    constructor (capacity: nat)
      ensures Valid() && Value() == C.Queue([], capacity, 0, 0, false) && fresh(data)
    {
      data := new T[capacity];
      bounds, nelts, head, out := capacity, 0, 0, 0;
      terminated, fullWaiters, emptyWaiters := false, 0, 0;
    }

    /** The end of queue_push(), reached with room in the ring. */
    method Store(x: T) returns (wasEmpty: bool, signal: bool)
      requires Valid() && nelts < bounds
      modifies this`head, this`nelts, data
      ensures Valid() && PushEffect(Value(), Return(Ok), wasEmpty, signal) == Insert(old(Value()), x)
    {
      wasEmpty := nelts == 0;
      data[head] := x;
      head := head + 1;
      if head >= bounds {
        head := head - bounds;
      }
      nelts := nelts + 1;
      signal := emptyWaiters > 0;
      assert Items() == old(Items()) + [x];
    }

    method Push(x: T, timeout: int, now: nat) returns (outcome: Outcome, wasEmpty: bool, signal: bool)
      requires Valid()
      modifies this`head, this`nelts, this`fullWaiters, data
      ensures Valid() && PushEffect(Value(), outcome, wasEmpty, signal) == PushEnter(old(Value()), x, timeout, now)
    {
      if terminated {
        return Return(Done), false, false;
      }
      if nelts == bounds {
        if timeout == 0 {
          return Return(Retry), false, false;
        }
        var deadline := 0;
        if timeout < 0 {
          deadline := now + MAX_WAIT;
        }
        fullWaiters := fullWaiters + 1;
        return Wait(deadline), false, false;
      }
      wasEmpty, signal := Store(x);
      return Return(Ok), wasEmpty, signal;
    }

    method ResumePush(x: T, timeout: int, deadline: nat, rv: Code, now: nat)
      returns (outcome: Outcome, wasEmpty: bool, signal: bool)
      requires Valid() && fullWaiters > 0
      modifies this`head, this`nelts, this`fullWaiters, data
      ensures Valid()
      ensures PushEffect(Value(), outcome, wasEmpty, signal) == PushResume(old(Value()), x, timeout, deadline, rv, now)
    {
      fullWaiters := fullWaiters - 1;
      if rv != Ok {
        return Return(if timeout > 0 then rv else Retry), false, false;
      }
      if nelts == bounds {
        if terminated {
          return Return(Done), false, false;
        }
        if timeout > 0 {
          return Return(Error), false, false;
        }
        if now >= deadline {
          return Return(Retry), false, false;
        }
        var limit := deadline;
        if timeout < 0 && limit == 0 {
          limit := now + MAX_WAIT;
        }
        fullWaiters := fullWaiters + 1;
        return Wait(limit), false, false;
      }
      wasEmpty, signal := Store(x);
      return Return(Ok), wasEmpty, signal;
    }

    /** The end of queue_pop(), reached with an item in the ring. */
    method Take() returns (x: T, signal: bool)
      requires Valid() && nelts > 0
      modifies this`out, this`nelts
      ensures Valid() && PopEffect(Value(), Return(Ok), Some(x), signal) == C.Remove(old(Value()))
    {
      x := data[out];
      nelts := nelts - 1;
      out := out + 1;
      if out >= bounds {
        out := out - bounds;
      }
      signal := fullWaiters > 0;
      assert Items() == old(Items())[1..];
    }

    method Pop(timeout: int) returns (outcome: Outcome, item: Option<T>, signal: bool)
      requires Valid()
      modifies this`out, this`nelts, this`emptyWaiters
      ensures Valid() && PopEffect(Value(), outcome, item, signal) == PopEnter(old(Value()), timeout)
    {
      if terminated {
        return Return(Done), None, false;
      }
      if nelts == 0 {
        if timeout == 0 {
          return Return(Retry), None, false;
        }
        emptyWaiters := emptyWaiters + 1;
        return Wait(0), None, false;
      }
      var x;
      x, signal := Take();
      return Return(Ok), Some(x), signal;
    }

    method ResumePop(timeout: int, rv: Code) returns (outcome: Outcome, item: Option<T>, signal: bool)
      requires Valid() && emptyWaiters > 0
      modifies this`out, this`nelts, this`emptyWaiters
      ensures Valid() && PopEffect(Value(), outcome, item, signal) == PopResume(old(Value()), timeout, rv)
    {
      emptyWaiters := emptyWaiters - 1;
      if rv != Ok {
        return Return(rv), None, false;
      }
      if nelts == 0 {
        if terminated {
          return Return(Done), None, false;
        }
        if timeout > 0 {
          return Return(Error), None, false;
        }
        emptyWaiters := emptyWaiters + 1;
        return Wait(0), None, false;
      }
      var x;
      x, signal := Take();
      return Return(Ok), Some(x), signal;
    }

    /** The critical section of ogs_queue_term(). */
    method Terminate()
      requires Valid()
      modifies this`terminated
      ensures Valid() && Value() == old(Value()).(terminated := true)
    {
      terminated := true;
    }
  }
}
