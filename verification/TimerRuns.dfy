/**
Whole runs over one timer manager: any mix of adds, deletes, starts, stops and expiries, whose
callbacks may themselves add, start and stop timers, leaves the tree listing, and fires, what
the reference of module TimerQueue says.
*/
module TimerRuns {
  import opened RbShape
  import opened TimerManager
  import Q = TimerQueue

  datatype Call = Add | Delete(timer: Timer) | Start(timer: Timer, now: int, duration: int) | Stop(timer: Timer)

  /** What a timer does when it fires; `cb` may be NULL.  The source forbids deletes here. */
  datatype Callback = NoCallback | Callback(calls: seq<Call>)

  datatype Event = Direct(call: Call) | Expire(now: int, cb: Timer -> Callback)

  /** The reference: the free pool in the order it is handed out, and the starts, stops and
      expiries so far. */
  datatype Ref = Ref(free: seq<Timer>, ops: seq<Q.Op<Timer>>)

  ghost function CallStep(r: Ref, c: Call): Ref {
    match c
    case Add => if r.free == [] then r else r.(free := r.free[1..])
    case Delete(t) => Ref(r.free + [t], r.ops + [Q.Stop(t)])
    case Start(t, now, duration) => r.(ops := r.ops + [Q.Start(t, now + duration)])
    case Stop(t) => r.(ops := r.ops + [Q.Stop(t)])
  }

  /** Calls name timers the pool has handed out; a duration is never 0. */
  ghost predicate CallOk(slots: set<Timer>, r: Ref, c: Call) {
    !c.Add? ==> c.timer in slots && c.timer !in r.free && (c.Start? ==> c.duration != 0)
  }

  ghost function CallsStep(r: Ref, cs: seq<Call>): Ref
    decreases |cs|
  {
    if cs == [] then r else CallsStep(CallStep(r, cs[0]), cs[1..])
  }

  ghost predicate CallsOk(slots: set<Timer>, r: Ref, cs: seq<Call>)
    decreases |cs|
  {
    cs != [] ==> CallOk(slots, r, cs[0]) && !cs[0].Delete? && CallsOk(slots, CallStep(r, cs[0]), cs[1..])
  }

  ghost function CallsOf(b: Callback): seq<Call> {
    if b.Callback? then b.calls else []
  }

  /** The callbacks of `ts`, one after the other. */
  ghost function FireStep(r: Ref, ts: seq<Timer>, cb: Timer -> Callback): Ref
    decreases |ts|
  {
    if ts == [] then r else FireStep(CallsStep(r, CallsOf(cb(ts[0]))), ts[1..], cb)
  }

  ghost predicate FireOk(slots: set<Timer>, r: Ref, ts: seq<Timer>, cb: Timer -> Callback)
    decreases |ts|
  {
    ts != [] ==>
      && CallsOk(slots, r, CallsOf(cb(ts[0])))
      && FireOk(slots, CallsStep(r, CallsOf(cb(ts[0]))), ts[1..], cb)
  }

  /** The timers an expiry fires, in order. */
  ghost function Batch(q: Q.Queue<Timer>, now: int): seq<Timer> {
    seq(Q.Due(q, now), i requires 0 <= i < Q.Due(q, now) => q[i].timer)
  }

  ghost function Expired(r: Ref, now: int): Ref {
    r.(ops := r.ops + [Q.Expire(now)])
  }

  ghost function Step(r: Ref, e: Event): Ref {
    match e
    case Direct(c) => CallStep(r, c)
    case Expire(now, cb) => FireStep(Expired(r, now), Batch(Q.Run(r.ops), now), cb)
  }

  ghost predicate Ok(slots: set<Timer>, r: Ref, e: Event) {
    match e
    case Direct(c) => CallOk(slots, r, c)
    case Expire(now, cb) => FireOk(slots, Expired(r, now), Batch(Q.Run(r.ops), now), cb)
  }

  ghost function Run(free: seq<Timer>, es: seq<Event>, n: nat): Ref
    requires n <= |es|
  {
    if n == 0 then Ref(free, []) else Step(Run(free, es, n - 1), es[n - 1])
  }

  /** The timers of `ts` that have a callback. */
  ghost function Called(ts: seq<Timer>, cb: Timer -> Callback): seq<Timer> {
    if ts == [] then []
    else Called(ts[..|ts| - 1], cb) + if cb(ts[|ts| - 1]).Callback? then [ts[|ts| - 1]] else []
  }

  /** What a call hands out, or the timers whose callbacks an expiry invokes. */
  datatype Reply = Handed(timer: Timer?) | Fired(timers: seq<Timer>) | Done

  ghost function ReplyTo(r: Ref, e: Event): Reply {
    match e
    case Direct(c) => if !c.Add? then Done else if r.free == [] then Handed(null) else Handed(r.free[0])
    case Expire(now, cb) => Fired(Called(Batch(Q.Run(r.ops), now), cb))
  }

  // ---- the manager against the reference --------------------------------------

  ghost predicate Follows(m: Manager, r: Ref)
    reads m, m.tree, m.slots`parent, m.slots`left, m.slots`right, m.slots`color, m.slots`running, m.slots`timeout
  {
    m.Valid() && m.free == r.free && m.queue == Q.Run(r.ops)
  }

  method Invoke(m: Manager, c: Call, ghost r: Ref) returns (timer: Timer?)
    requires Follows(m, r) && CallOk(m.slots, r, c)
    modifies m`queue, m`free, m.tree, m.slots
    ensures Follows(m, CallStep(r, c)) && m.slots == old(m.slots)
    ensures c.Add? ==> timer == if r.free == [] then null else r.free[0]
  {
    timer := null;
    match c
    case Add => timer := m.Add();
    case Delete(t) =>
      Q.RunMore(r.ops, Q.Stop(t));
      m.Delete(t);
    case Start(t, now, duration) => StartCall(m, t, now, duration, r);
    case Stop(t) => StopCall(m, t, r);
  }

  /** The batch is threaded through timers of which none is in the free pool. */
  ghost predicate Threaded(m: Manager, list: List)
    reads m`free, m`slots, list, list.slots`lprev, list.slots`lnext
  {
    list.Valid() && list.slots == m.slots && m.Busy(list.items)
  }

  /** ogs_timer_add() by a callback hands out an entry that is not in the batch. */
  method AddWithin(m: Manager, list: List, ghost r: Ref)
    requires Follows(m, r) && Threaded(m, list)
    modifies m`free, m.slots
    ensures Follows(m, CallStep(r, Add)) && Threaded(m, list) && m.slots == old(m.slots)
  {
    var timer := m.Add();
    forall i | 0 <= i < |list.items|
      ensures list.items[i].lnext == old(list.items[i].lnext) && list.items[i].lprev == old(list.items[i].lprev)
    {
      assert list.items[i] !in r.free;
    }
  }

  /** A call made by a callback leaves the batch alone. */
  method InvokeWithin(m: Manager, c: Call, list: List, ghost r: Ref)
    requires Follows(m, r) && Threaded(m, list) && CallOk(m.slots, r, c) && !c.Delete?
    modifies m`queue, m`free, m.tree, m.slots
    ensures Follows(m, CallStep(r, c)) && Threaded(m, list) && m.slots == old(m.slots)
  {
    match c
    case Add => AddWithin(m, list, r);
    case Start(t, now, duration) => StartWithin(m, t, now, duration, list, r);
    case Stop(t) => StopWithin(m, t, list, r);
  }

  method StartWithin(m: Manager, t: Timer, now: int, duration: int, list: List, ghost r: Ref)
    requires Follows(m, r) && Threaded(m, list) && CallOk(m.slots, r, Start(t, now, duration))
    modifies m`queue, m.tree, m.slots`parent, m.slots`left, m.slots`right, m.slots`color, t`running, t`timeout
    ensures Follows(m, CallStep(r, Start(t, now, duration))) && Threaded(m, list) && m.slots == old(m.slots)
  {
    StartCall(m, t, now, duration, r);
  }

  method StartCall(m: Manager, t: Timer, now: int, duration: int, ghost r: Ref)
    requires Follows(m, r) && CallOk(m.slots, r, Start(t, now, duration))
    modifies m`queue, m.tree, m.slots`parent, m.slots`left, m.slots`right, m.slots`color, t`running, t`timeout
    ensures Follows(m, CallStep(r, Start(t, now, duration)))
  {
    Q.RunMore(r.ops, Q.Start(t, now + duration));
    m.Start(t, now, duration);
  }

  method StopCall(m: Manager, t: Timer, ghost r: Ref)
    requires Follows(m, r) && CallOk(m.slots, r, Stop(t))
    modifies m`queue, m.tree, m.slots`parent, m.slots`left, m.slots`right, m.slots`color, t`running
    ensures Follows(m, CallStep(r, Stop(t)))
  {
    Q.RunMore(r.ops, Q.Stop(t));
    m.Stop(t);
  }

  method StopWithin(m: Manager, t: Timer, list: List, ghost r: Ref)
    requires Follows(m, r) && Threaded(m, list) && CallOk(m.slots, r, Stop(t))
    modifies m`queue, m.tree, m.slots`parent, m.slots`left, m.slots`right, m.slots`color, t`running
    ensures Follows(m, CallStep(r, Stop(t))) && Threaded(m, list) && m.slots == old(m.slots)
  {
    StopCall(m, t, r);
  }

  /** One callback. */
  method InvokeAll(m: Manager, cs: seq<Call>, list: List, ghost r: Ref)
    requires Follows(m, r) && Threaded(m, list) && CallsOk(m.slots, r, cs)
    modifies m`queue, m`free, m.tree, m.slots
    ensures Follows(m, CallsStep(r, cs)) && Threaded(m, list) && m.slots == old(m.slots)
    decreases |cs|
  {
    if cs != [] {
      InvokeWithin(m, cs[0], list, r);
      InvokeAll(m, cs[1..], list, CallStep(r, cs[0]));
    }
  }

  /** The last loop of ogs_timer_mgr_expire(), outside the lock: whatever the callbacks add,
      start and stop, it goes through exactly the batch. */
  method RunCallbacks(m: Manager, list: List, cb: Timer -> Callback, ghost r: Ref) returns (fired: seq<Timer>)
    requires Follows(m, r) && Threaded(m, list) && FireOk(m.slots, r, list.items, cb)
    modifies m`queue, m`free, m.tree, m.slots
    ensures Follows(m, FireStep(r, list.items, cb)) && m.slots == old(m.slots)
    ensures fired == Called(list.items, cb)
  {
    fired := [];
    var lnode := list.next;
    ghost var k: nat, ts, now := 0, list.items, r;
    assert ts[0..] == ts;
    while lnode != null
      invariant Firing(m, list, lnode, fired, k, now, cb) && m.slots == old(m.slots) && list.items == ts
      invariant FireStep(now, ts[k..], cb) == FireStep(r, ts, cb)
      decreases |ts| - k
    {
      lnode, fired, now := CallbackOf(m, list, lnode, cb, fired, k, now);
      k := k + 1;
    }
    assert ts[..k] == ts && ts[k..] == [];
  }

  /** The loop has come to place `k` of the batch. */
  ghost predicate Firing(m: Manager, list: List, lnode: Timer?, fired: seq<Timer>, k: nat, r: Ref, cb: Timer -> Callback)
    reads m, m.tree, m.slots`parent, m.slots`left, m.slots`right, m.slots`color, m.slots`running, m.slots`timeout
    reads list, list.slots`lprev, list.slots`lnext
  {
    && Follows(m, r) && Threaded(m, list) && k <= |list.items| && FireOk(m.slots, r, list.items[k..], cb)
    && lnode == (if k < |list.items| then list.items[k] else null) && fired == Called(list.items[..k], cb)
  }

  lemma {:induction false} FireTurn(slots: set<Timer>, r: Ref, ts: seq<Timer>, k: nat, cb: Timer -> Callback)
    requires k < |ts| && FireOk(slots, r, ts[k..], cb)
    ensures var r' := CallsStep(r, CallsOf(cb(ts[k])));
            && CallsOk(slots, r, CallsOf(cb(ts[k]))) && FireOk(slots, r', ts[k + 1..], cb)
            && FireStep(r, ts[k..], cb) == FireStep(r', ts[k + 1..], cb)
            && Called(ts[..k + 1], cb) == Called(ts[..k], cb) + if cb(ts[k]).Callback? then [ts[k]] else []
  {
    assert ts[k..][0] == ts[k] && ts[k..][1..] == ts[k + 1..] && ts[..k + 1][..k] == ts[..k];
  }

  /** One turn of that loop. */
  method CallbackOf(m: Manager, list: List, lnode: Timer, cb: Timer -> Callback, before: seq<Timer>, ghost k: nat, ghost r: Ref)
    returns (next: Timer?, fired: seq<Timer>, ghost r': Ref)
    requires Firing(m, list, lnode, before, k, r, cb)
    modifies m`queue, m`free, m.tree, m.slots
    ensures m.slots == old(m.slots) && k < |list.items| && Firing(m, list, next, fired, k + 1, r', cb)
    ensures FireStep(r, list.items[k..], cb) == FireStep(r', list.items[k + 1..], cb)
  {
    FireTurn(m.slots, r, list.items, k, cb);
    r' := CallsStep(r, CallsOf(cb(lnode)));
    fired := before;
    if cb(lnode).Callback? {
      fired := fired + [lnode];
      InvokeAll(m, cb(lnode).calls, list, r);
    }
    assert list.items[k].lnext == if k + 1 < |list.items| then list.items[k + 1] else null;
    next := lnode.lnext;
  }

  /** ogs_timer_mgr_expire() */
  method ExpireAll(m: Manager, now: int, cb: Timer -> Callback, ghost r: Ref) returns (fired: seq<Timer>)
    requires Follows(m, r) && Ok(m.slots, r, Expire(now, cb))
    modifies m`queue, m`free, m.tree, m.slots
    ensures Follows(m, Step(r, Expire(now, cb))) && m.slots == old(m.slots)
    ensures fired == Called(Batch(Q.Run(r.ops), now), cb)
  {
    Q.RunMore(r.ops, Q.Expire(now));
    var list := m.DetachDue(now);
    assert list.items == Batch(Q.Run(r.ops), now);
    fired := RunCallbacks(m, list, cb, Expired(r, now));
  }

  // ---- when a timer fires ------------------------------------------------------

  lemma {:induction false} BatchHas(q: Q.Queue<Timer>, now: int, t: Timer)
    ensures t in Batch(q, now) <==> t in Q.Timers(q[..Q.Due(q, now)])
  {
    var n := Q.Due(q, now);
    if t in Batch(q, now) {
      var i :| 0 <= i < n && Batch(q, now)[i] == t;
      assert q[..n][i].timer == t;
    }
    if t in Q.Timers(q[..n]) {
      var i :| 0 <= i < n && q[..n][i].timer == t;
      assert Batch(q, now)[i] == t;
    }
  }

  /** A timer started at `now` for `duration` is fired by an expiry exactly from `now + duration` on,
      whatever was started, stopped and expired before; a timer that is stopped by none. */
  lemma {:induction false} FiresOnTime(r: Ref, t: Timer, now: int, duration: int, later: int)
    ensures t in Batch(Q.Run(CallStep(r, Start(t, now, duration)).ops), later) <==> now + duration <= later
    ensures t !in Batch(Q.Run(CallStep(r, Stop(t)).ops), later) && t !in Batch(Q.Run(CallStep(r, Delete(t)).ops), later)
  {
    var started, stopped := CallStep(r, Start(t, now, duration)).ops, CallStep(r, Stop(t)).ops;
    Q.RunAgrees(started);
    Q.RunAgrees(stopped);
    assert started[..|r.ops|] == r.ops && stopped[..|r.ops|] == r.ops;
    Q.BatchMember(Q.Run(started), Q.RefRun(started), later, t);
    Q.BatchMember(Q.Run(stopped), Q.RefRun(stopped), later, t);
    BatchHas(Q.Run(started), later, t);
    BatchHas(Q.Run(stopped), later, t);
  }

  // ---- whole runs ------------------------------------------------------------

  /** Each event respects the reference as it is by then. */
  ghost predicate RunOk(slots: set<Timer>, free: seq<Timer>, es: seq<Event>) {
    forall n :: 0 <= n < |es| ==> Ok(slots, Run(free, es, n), es[n])
  }

  /** The reference's replies to the first `n` events. */
  ghost function Replies(free: seq<Timer>, es: seq<Event>, n: nat): seq<Reply>
    requires n <= |es|
  {
    if n == 0 then [] else Replies(free, es, n - 1) + [ReplyTo(Run(free, es, n - 1), es[n - 1])]
  }

  method Handle(m: Manager, e: Event, ghost r: Ref) returns (reply: Reply)
    requires Follows(m, r) && Ok(m.slots, r, e)
    modifies m`queue, m`free, m.tree, m.slots
    ensures Follows(m, Step(r, e)) && m.slots == old(m.slots) && reply == ReplyTo(r, e)
  {
    match e
    case Direct(c) =>
      var t := Invoke(m, c, r);
      reply := if c.Add? then Handed(t) else Done;
    case Expire(now, cb) =>
      var ts := ExpireAll(m, now, cb, r);
      reply := Fired(ts);
  }

  /** In a manager that follows the reference a timer's flag is set exactly while the
      reference has it running. */
  lemma {:induction false} RunningFollows(m: Manager, r: Ref)
    requires Follows(m, r)
    ensures forall t :: t in m.slots ==> (t.running <==> t in Q.RefRun(r.ops).running)
  {
    Q.RunAgrees(r.ops);
    m.RunningIsQueued();
  }

  /** Over every sequential run from ogs_timer_mgr_create() on (which leaves the queue empty and
      every pool entry free), the manager hands out and takes back pool entries as the reference
      does, its tree lists the queue of the starts, stops and expiries made, each expiry fires
      exactly its batch, and a timer's flag is set exactly while the reference has it running. */
  method Replay(m: Manager, es: seq<Event>) returns (replies: seq<Reply>)
    requires m.Valid() && m.queue == [] && RunOk(m.slots, m.free, es)
    modifies m`queue, m`free, m.tree, m.slots
    ensures m.slots == old(m.slots) && Follows(m, Run(old(m.free), es, |es|))
    ensures replies == Replies(old(m.free), es, |es|)
    ensures forall t :: t in m.slots ==> (t.running <==> t in Q.RefRun(Run(old(m.free), es, |es|).ops).running)
  {
    ghost var free := m.free;
    replies := HandleAll(m, es, free);
    RunningFollows(m, Run(free, es, |es|));
  }

  method HandleAll(m: Manager, es: seq<Event>, ghost free: seq<Timer>) returns (replies: seq<Reply>)
    requires Follows(m, Ref(free, [])) && RunOk(m.slots, free, es)
    modifies m`queue, m`free, m.tree, m.slots
    ensures m.slots == old(m.slots) && Follows(m, Run(free, es, |es|)) && replies == Replies(free, es, |es|)
  {
    replies := [];
    for n := 0 to |es|
      invariant m.slots == old(m.slots) && Follows(m, Run(free, es, n)) && replies == Replies(free, es, n)
    {
      NextEvent(m.slots, free, es, n);
      var reply := Handle(m, es[n], Run(free, es, n));
      replies := replies + [reply];
    }
  }

  lemma NextEvent(slots: set<Timer>, free: seq<Timer>, es: seq<Event>, n: nat)
    requires n < |es| && RunOk(slots, free, es)
    ensures Ok(slots, Run(free, es, n), es[n]) && Run(free, es, n + 1) == Step(Run(free, es, n), es[n])
  {
  }
}
