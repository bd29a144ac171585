/**
 lib/core/ogs-timer.c: the manager's tree of running timers, proved to behave as
 the deadline queue of module TimerQueue.
 */
module TimerManager {
  import opened Basics
  import opened RbShape
  import opened RbTree
  import Q = TimerQueue

  /** `q` lists the timers `ts`, all from `slots`, with the deadlines they hold. */
  ghost predicate Lists(q: Q.Queue<Timer>, ts: seq<Timer>, slots: set<Timer>)
    reads slots`timeout
  {
    && |q| == |ts|
    && forall i :: 0 <= i < |ts| ==> ts[i] in slots && q[i].timer == ts[i] && q[i].due == ts[i].timeout
  }

  ghost predicate Ordered(ts: seq<Timer>)
    reads (set t | t in ts)`timeout
  {
    forall i, j :: 0 <= i < j < |ts| ==> ts[i].timeout <= ts[j].timeout
  }

  /** In a sorted tree the subtrees of a node lie on the two sides of its deadline. */
  lemma {:induction false} SortedAround(c: Ctx, s: Shape)
    requires s.Node? && Ordered(InOrder(Fill(c, s)))
    ensures forall x :: x in InOrder(s.left) ==> x.timeout <= s.n.timeout
    ensures forall x :: x in InOrder(s.right) ==> s.n.timeout <= x.timeout
  {
    var t := InOrder(Fill(c, s));
    var i := PlaceOf(c, s);
    forall x | x in InOrder(s.left)
      ensures x.timeout <= s.n.timeout
    {
      var j :| 0 <= j < |InOrder(s.left)| && InOrder(s.left)[j] == x;
      assert t[|Before(c)| + j] == t[..i][|Before(c)| + j] == x;
    }
    forall x | x in InOrder(s.right)
      ensures s.n.timeout <= x.timeout
    {
      var j :| 0 <= j < |InOrder(s.right)| && InOrder(s.right)[j] == x;
      assert t[i + 1 + j] == t[i + 1..][j] == x;
    }
  }

  /** The hole of `c` is where deadline `due` belongs: behind all that are not later. */
  ghost predicate Brackets(c: Ctx, due: int)
    reads (set t | t in Before(c) + After(c))`timeout
  {
    (forall x :: x in Before(c) ==> x.timeout <= due) && (forall x :: x in After(c) ==> due < x.timeout)
  }

  ghost predicate Fits(c: Ctx, s: Shape, h: nat) {
    RB(s, h) && CtxOk(c, h) && (IsRed(s) ==> BlackHolder(c))
  }

  ghost function Below(s: Shape, h: nat): nat
    requires s.Node? && RB(s, h)
  {
    if s.color.Black? then h - 1 else h
  }

  lemma {:induction false} GoLeft(c: Ctx, s: Shape, h: nat, due: int)
    requires s.Node? && Fits(c, s, h) && Brackets(c, due) && due < s.n.timeout
    requires Ordered(InOrder(Fill(c, s)))
    ensures var c' := LeftOf(c, s.n, s.color, s.right); Fits(c', s.left, Below(s, h)) && Brackets(c', due)
  {
    SortedAround(c, s);
  }

  lemma {:induction false} GoRight(c: Ctx, s: Shape, h: nat, due: int)
    requires s.Node? && Fits(c, s, h) && Brackets(c, due) && s.n.timeout <= due
    requires Ordered(InOrder(Fill(c, s)))
    ensures var c' := RightOf(s.left, s.n, s.color, c); Fits(c', s.right, Below(s, h)) && Brackets(c', due)
  {
    SortedAround(c, s);
  }

  ghost function LinkOf(c: Ctx): Link {
    if c.Top? then RootLink else if c.LeftOf? then LeftLink else RightLink
  }

  /** The descent of add_timer_node(): where a deadline `due` belongs. */
  method Descend(tree: Tree, due: int) returns (parent: Timer?, link: Link, ghost c: Ctx)
    requires tree.Valid() && Ordered(tree.Contents())
    ensures tree.At(c, Leaf) && CtxOk(c, 0) && Fill(c, Leaf) == tree.shape
    ensures parent == Holder(c, null) && link == LinkOf(c) && Brackets(c, due)
  {
    parent, link, c := null, RootLink, Top;
    var cur := tree.root;
    ghost var s, h := tree.shape, BlackHeight(tree.shape);
    while cur != null
      invariant tree.At(c, s) && cur == Root(s) && Fill(c, s) == tree.shape && Fits(c, s, h)
      invariant parent == Holder(c, null) && link == LinkOf(c) && Brackets(c, due) && Ordered(tree.Contents())
      decreases s
    {
      parent := cur;
      if due < cur.timeout {
        GoLeft(c, s, h, due);
        cur, link := cur.left, LeftLink;
        c, s, h := LeftOf(c, s.n, s.color, s.right), s.left, Below(s, h);
      } else {
        GoRight(c, s, h, due);
        cur, link := cur.right, RightLink;
        c, s, h := RightOf(s.left, s.n, s.color, c), s.right, Below(s, h);
      }
      tree.Zip(c, s);
    }
  }

  /** Linking at a bracketing hole is TimerQueue's insertion. */
  lemma {:induction false} InsertAt(c: Ctx, timer: Timer, q: Q.Queue<Timer>, slots: set<Timer>)
    requires Brackets(c, timer.timeout) && Lists(q, InOrder(Fill(c, Leaf)), slots) && timer in slots
    ensures Lists(Q.Insert(q, Q.Entry(timer, timer.timeout)), InOrder(Fill(c, Node(Leaf, timer, Red, Leaf))), slots)
  {
    FillInOrder(c, Node(Leaf, timer, Red, Leaf));
    FillInOrder(c, Leaf);
    assert Before(c) + [] + After(c) == Before(c) + After(c);
    assert [] + [timer] + [] == [timer];
    ListsInsert(Before(c), timer, After(c), q, slots);
  }

  lemma {:induction false} ListsInsert(a: seq<Timer>, timer: Timer, b: seq<Timer>, q: Q.Queue<Timer>, slots: set<Timer>)
    requires Lists(q, a + b, slots) && timer in slots
    requires forall x :: x in a ==> x.timeout <= timer.timeout
    requires forall x :: x in b ==> timer.timeout < x.timeout
    ensures Lists(Q.Insert(q, Q.Entry(timer, timer.timeout)), a + [timer] + b, slots)
  {
    var k := |a|;
    assert q == q[..k] + q[k..];
    forall i | 0 <= i < |q[..k]|
      ensures q[..k][i].due <= timer.timeout
    {
      assert (a + b)[i] == a[i];
    }
    forall i | 0 <= i < |q[k..]|
      ensures timer.timeout < q[k..][i].due
    {
      assert (a + b)[k + i] == b[i];
    }
    Q.InsertSplit(q[..k], Q.Entry(timer, timer.timeout), q[k..]);
    var ts, p := a + [timer] + b, q[..k] + [Q.Entry(timer, timer.timeout)] + q[k..];
    forall i | 0 <= i < |ts|
      ensures ts[i] in slots && p[i].timer == ts[i] && p[i].due == ts[i].timeout
    {
      var j := if i < k then i else i - 1;
      assert i != k ==> ts[i] == (a + b)[j] && p[i] == q[j];
    }
  }

  lemma ListsOrdered(q: Q.Queue<Timer>, ts: seq<Timer>, slots: set<Timer>)
    requires Lists(q, ts, slots) && Q.Sorted(q)
    ensures Ordered(ts)
  {
    forall i, j | 0 <= i < j < |ts|
      ensures ts[i].timeout <= ts[j].timeout
    {
      assert q[i].due <= q[j].due;
    }
  }

  /** The last two calls of add_timer_node(). */
  method LinkAndColor(tree: Tree, timer: Timer, parent: Timer?, link: Link, ghost c: Ctx)
    requires tree.At(c, Leaf) && CtxOk(c, 0) && timer !in tree.repr
    requires parent == Holder(c, null) && link == LinkOf(c)
    modifies tree, timer`parent, timer`left, timer`right, timer`color
    modifies tree.repr`parent, tree.repr`left, tree.repr`right, tree.repr`color
    ensures tree.Valid() && tree.repr == old(tree.repr) + {timer}
    ensures tree.Contents() == InOrder(Fill(c, Node(Leaf, timer, Red, Leaf)))
  {
    tree.LinkNode(timer, parent, link, c);
    ghost var t := tree.InsertColor(timer, c, Node(Leaf, timer, Red, Leaf), 0);
    tree.shape := t;
  }

  /** add_timer_node() */
  method AddTimerNode(tree: Tree, timer: Timer, now: int, duration: int,
                      ghost q: Q.Queue<Timer>, ghost slots: set<Timer>)
    requires tree.Valid() && timer !in tree.repr && timer in slots
    requires Q.Sorted(q) && Lists(q, tree.Contents(), slots)
    modifies tree, timer`timeout, timer`parent, timer`left, timer`right, timer`color
    modifies tree.repr`parent, tree.repr`left, tree.repr`right, tree.repr`color
    ensures tree.Valid() && tree.repr == old(tree.repr) + {timer} && timer.timeout == now + duration
    ensures Lists(Q.Insert(q, Q.Entry(timer, now + duration)), tree.Contents(), slots)
  {
    SetTimeout(tree, timer, now + duration, q, slots);
    var parent, link;
    ghost var c;
    parent, link, c := FindPlace(tree, timer, q, slots);
    LinkAndColor(tree, timer, parent, link, c);
  }

  /** The deadline of a timer that is not in the tree. */
  method SetTimeout(tree: Tree, timer: Timer, due: int, ghost q: Q.Queue<Timer>, ghost slots: set<Timer>)
    requires tree.Valid() && timer !in tree.repr && Lists(q, tree.Contents(), slots)
    modifies timer`timeout
    ensures tree.Valid() && Lists(q, tree.Contents(), slots) && timer.timeout == due
  {
    assert timer !in tree.Contents() by {
      InOrderNodes(tree.shape);
    }
    timer.timeout := due;
  }

  /** Where linking the timer is TimerQueue's insertion. */
  method FindPlace(tree: Tree, timer: Timer, ghost q: Q.Queue<Timer>, ghost slots: set<Timer>)
    returns (parent: Timer?, link: Link, ghost c: Ctx)
    requires tree.Valid() && timer in slots && Q.Sorted(q) && Lists(q, tree.Contents(), slots)
    ensures tree.At(c, Leaf) && CtxOk(c, 0) && parent == Holder(c, null) && link == LinkOf(c)
    ensures Lists(Q.Insert(q, Q.Entry(timer, timer.timeout)), InOrder(Fill(c, Node(Leaf, timer, Red, Leaf))), slots)
  {
    ListsOrdered(q, tree.Contents(), slots);
    parent, link, c := Descend(tree, timer.timeout);
    InsertAt(c, timer, q, slots);
  }

  /** Deleting a node is TimerQueue's removal. */
  lemma {:induction false} ListsDrop(q: Q.Queue<Timer>, ts: seq<Timer>, slots: set<Timer>, x: Timer)
    requires Lists(q, ts, slots)
    ensures Lists(Q.Drop(q, x), Without(ts, x), slots)
  {
    if ts != [] && ts[0] != x {
      ListsDrop(q[1..], ts[1..], slots, x);
    }
  }

  /** ogs_rbtree_delete() as the manager uses it. */
  method DropTimerNode(tree: Tree, timer: Timer, ghost q: Q.Queue<Timer>, ghost slots: set<Timer>)
    requires tree.Valid() && timer in tree.repr && Lists(q, tree.Contents(), slots)
    modifies tree, tree.repr`parent, tree.repr`left, tree.repr`right, tree.repr`color
    ensures tree.Valid() && tree.repr == old(tree.repr) - {timer}
    ensures Lists(Q.Drop(q, timer), tree.Contents(), slots)
    ensures tree.Contents() == Without(old(tree.Contents()), timer)
  {
    ListsDrop(q, tree.Contents(), slots, timer);
    tree.Delete(timer);
  }

  /** ogs_list_t threaded through the `lnode` fields: `next` is the first node and
      `prev` the last, as in lib/core/ogs-list.h. */
  class List {
    var prev: Timer?
    var next: Timer?
    ghost var items: seq<Timer>
    ghost var slots: set<Timer>

    ghost predicate Valid()
      reads this, slots`lprev, slots`lnext
    {
      && (forall i :: 0 <= i < |items| ==> items[i] in slots)
      && Distinct(items)
      && next == (if items == [] then null else items[0])
      && prev == (if items == [] then null else items[|items| - 1])
      && (forall i {:trigger items[i].lnext} :: 0 <= i < |items| ==>
            items[i].lnext == if i + 1 < |items| then items[i + 1] else null)
      && (forall i {:trigger items[i].lprev} :: 0 <= i < |items| ==>
            items[i].lprev == if i > 0 then items[i - 1] else null)
    }

    /** OGS_LIST() */
    constructor (ghost slots_: set<Timer>)
      ensures Valid() && items == [] && slots == slots_
    {
      prev, next, items, slots := null, null, [], slots_;
    }

    /** ogs_list_add() */
    method Add(node: Timer)
      requires Valid() && node in slots && node !in items
      modifies this, slots`lprev, slots`lnext
      ensures Valid() && items == old(items) + [node] && slots == old(slots)
    {
      node.lprev := prev;
      node.lnext := null;
      if prev != null {
        prev.lnext := node;
      } else {
        next := node;
      }
      prev := node;
      items := items + [node];
    }
  }

  class Manager {
    const tree: Tree
    /** free pool entries, next to be handed out first */
    var free: seq<Timer>
    ghost var slots: set<Timer>
    /** the running timers by deadline */
    ghost var queue: Q.Queue<Timer>

    ghost predicate Valid()
      reads this, tree, slots`parent, slots`left, slots`right, slots`color, slots`running, slots`timeout
    {
      && tree.repr <= slots && tree.Valid()
      && (forall t :: t in free ==> t in slots && t !in tree.repr)
      && Distinct(free)
      && (forall t :: t in slots ==> (t.running <==> t in tree.repr))
      && Q.Sorted(queue) && Lists(queue, tree.Contents(), slots)
    }

    /** ogs_timer_mgr_create() */
    constructor (capacity: nat)
      ensures Valid() && fresh(tree) && fresh(slots) && queue == [] && |free| == capacity
      ensures forall t :: t in slots ==> t in free
    {
      tree := new Tree();
      free, slots, queue := [], {}, [];
      new;
      while |free| < capacity
        invariant |free| <= capacity && fresh(tree) && fresh(slots) && queue == []
        invariant tree.Valid() && tree.repr == {} && tree.Contents() == []
        invariant forall t :: t in slots <==> t in free
        invariant Distinct(free)
        invariant forall t :: t in slots ==> !t.running
      {
        var t := new Timer();
        free, slots := free + [t], slots + {t};
      }
    }

    /** Timer objects the pool has handed out. */
    ghost predicate Live(t: Timer)
      reads this
    {
      t in slots && t !in free
    }

    /** A timer is queued exactly when it is running. */
    lemma {:induction false} RunningIsQueued()
      requires Valid()
      ensures forall t :: t in slots ==> (t.running <==> t in Q.Timers(queue))
    {
      InOrderNodes(tree.shape);
      var ts := tree.Contents();
      forall t | t in tree.repr
        ensures t in Q.Timers(queue)
      {
        var i :| 0 <= i < |ts| && ts[i] == t;
        assert queue[i].timer == t;
      }
    }

    /** Everything `Valid` asks except that the flag of `timer`, which is not in the
        tree, may be ahead of the tree; the queue is `q`. */
    ghost predicate Starting(timer: Timer, q: Q.Queue<Timer>)
      reads this, tree, slots`parent, slots`left, slots`right, slots`color, slots`running, slots`timeout
    {
      && tree.repr <= slots && tree.Valid() && timer in slots && timer !in tree.repr && timer !in free
      && (forall t :: t in free ==> t in slots && t !in tree.repr)
      && Distinct(free)
      && (forall t :: t in slots && t != timer ==> (t.running <==> t in tree.repr))
      && Q.Sorted(q) && Lists(q, tree.Contents(), slots)
    }

    /** ogs_timer_start() */
    method Start(timer: Timer, now: int, duration: int)
      requires Valid() && Live(timer) && duration != 0
      modifies this`queue, tree, slots`parent, slots`left, slots`right, slots`color, timer`running, timer`timeout
      ensures Valid() && free == old(free) && slots == old(slots)
      ensures queue == Q.Started(old(queue), timer, now + duration)
      ensures timer.running && timer.timeout == now + duration
    {
      Q.SortedDrop(queue, timer);
      if timer.running {
        DropTimerNode(tree, timer, queue, slots);
      } else {
        NotQueued(timer);
      }
      Enter(timer, now, duration, Q.Drop(queue, timer));
    }

    /** The second half of ogs_timer_start(). */
    method Enter(timer: Timer, now: int, duration: int, ghost q: Q.Queue<Timer>)
      requires Starting(timer, q)
      modifies this`queue, tree, slots`parent, slots`left, slots`right, slots`color, timer`running, timer`timeout
      ensures Valid() && queue == Q.Insert(q, Q.Entry(timer, now + duration))
      ensures timer.running && timer.timeout == now + duration
    {
      timer.running := true;
      AddTimerNode(tree, timer, now, duration, q, slots);
      Q.SortedInsert(q, Q.Entry(timer, now + duration));
      queue := Q.Insert(q, Q.Entry(timer, now + duration));
    }

    lemma {:induction false} NotQueued(timer: Timer)
      requires Valid() && timer in slots && !timer.running
      ensures Q.Drop(queue, timer) == queue
    {
      InOrderNodes(tree.shape);
      forall i | 0 <= i < |queue|
        ensures queue[i].timer != timer
      {
        assert queue[i].timer == tree.Contents()[i];
      }
      Q.DropAbsent(queue, timer);
    }

    /** ogs_timer_stop() */
    method Stop(timer: Timer)
      requires Valid() && timer in slots
      modifies this`queue, tree, slots`parent, slots`left, slots`right, slots`color, timer`running
      ensures Valid() && free == old(free) && slots == old(slots)
      ensures queue == Q.Drop(old(queue), timer) && !timer.running
    {
      if !timer.running {
        NotQueued(timer);
        return;
      }
      Unqueue(timer);
    }

    /** `running = false; ogs_rbtree_delete()`, as both stop and expire do it. */
    method Unqueue(timer: Timer)
      requires Valid() && timer in slots && timer.running
      modifies this`queue, tree, slots`parent, slots`left, slots`right, slots`color, timer`running
      ensures Valid() && !timer.running && queue == Q.Drop(old(queue), timer)
      ensures tree.Contents() == Without(old(tree.Contents()), timer)
    {
      Q.SortedDrop(queue, timer);
      timer.running := false;
      DropTimerNode(tree, timer, queue, slots);
      queue := Q.Drop(queue, timer);
    }

    /** ogs_timer_add(): the pool's oldest free object, cleared, or NULL. */
    method Add() returns (timer: Timer?)
      requires Valid()
      modifies this`free, slots
      ensures Valid() && slots == old(slots) && queue == old(queue)
      ensures timer == null <==> old(free) == []
      ensures timer == null ==> free == old(free)
      ensures timer != null ==> Live(timer) && timer == old(free)[0] && free == old(free)[1..] && !timer.running
      ensures forall t :: t in slots ==> t.running == old(t.running)
      ensures forall t :: t in slots && t != timer ==>
                t.timeout == old(t.timeout) && t.lprev == old(t.lprev) && t.lnext == old(t.lnext)
    {
      if free == [] {
        return null;
      }
      timer := free[0];
      Wipe(timer);
      free := free[1..];
    }

    /** memset() of an object that is not in the tree */
    method Wipe(timer: Timer)
      requires Valid() && timer in slots && timer !in tree.repr
      modifies timer
      ensures Valid() && !timer.running
    {
      assert timer !in tree.Contents() by {
        InOrderNodes(tree.shape);
      }
      timer.parent, timer.left, timer.right, timer.color := null, null, null, Black;
      timer.lprev, timer.lnext, timer.running, timer.timeout := null, null, false, 0;
    }

    /** ogs_timer_delete() */
    method Delete(timer: Timer)
      requires Valid() && Live(timer)
      modifies this`queue, this`free, tree, slots`parent, slots`left, slots`right, slots`color, timer`running
      ensures Valid() && slots == old(slots) && free == old(free) + [timer]
      ensures queue == Q.Drop(old(queue), timer) && !timer.running
    {
      Stop(timer);
      free := free + [timer];
    }

    /** ogs_timer_mgr_next() */
    method Next(now: int) returns (wait: int)
      requires Valid()
      ensures wait == Q.NextWait(queue, now)
    {
      var rbnode := tree.First();
      if rbnode != null {
        var timeout := rbnode.timeout;
        assert queue[0].due == timeout;
        if timeout > now {
          return timeout - now;
        } else {
          return Q.NO_WAIT;
        }
      }
      return Q.INFINITE;
    }

    /** What the walk of ogs_timer_mgr_expire() meets at place `k`. */
    lemma {:induction false} WalkAt(k: nat, now: int)
      requires Valid() && k < |tree.Contents()| && k <= Q.Due(queue, now)
      ensures var t := tree.Contents()[k];
              && t in tree.repr && t in slots && t !in tree.Contents()[..k]
              && (t.timeout > now <==> k == Q.Due(queue, now))
      ensures forall i :: 0 <= i < |tree.Contents()| && tree.Contents()[i] == tree.Contents()[k] ==> i == k
    {
      InOrderDistinct(tree.shape);
      InOrderNodes(tree.shape);
      assert queue[k].due == tree.Contents()[k].timeout;
    }

    /** The walk has listed the first `k` of the timers `ts` of the tree, `n` of them due. */
    ghost predicate Collecting(list: List, ts: seq<Timer>, k: nat, now: int)
      reads this, tree, slots`parent, slots`left, slots`right, slots`color, slots`running, slots`timeout
      reads list, list.slots`lprev, list.slots`lnext
    {
      && Valid() && list.Valid() && list.slots == slots && tree.Contents() == ts
      && k <= Q.Due(queue, now) <= |ts| && list.items == ts[..k]
    }

    /** The first loop of ogs_timer_mgr_expire(): list the timers that are due. */
    method CollectDue(now: int) returns (list: List)
      requires Valid()
      modifies slots`lprev, slots`lnext
      ensures fresh(list) && Collecting(list, tree.Contents(), Q.Due(queue, now), now)
    {
      list := new List(slots);
      var rbnode := tree.First();
      CollectFrom(list, rbnode, now);
    }

    method CollectFrom(list: List, first: Timer?, now: int)
      requires Collecting(list, tree.Contents(), 0, now)
      requires first == if tree.Contents() == [] then null else tree.Contents()[0]
      modifies list, slots`lprev, slots`lnext
      ensures Collecting(list, tree.Contents(), Q.Due(queue, now), now)
    {
      var rbnode, more := first, first != null;
      ghost var k: nat, ts, n := 0, tree.Contents(), Q.Due(queue, now);
      while more
        invariant Collecting(list, ts, k, now)
        invariant if more then k < |ts| && rbnode == ts[k] else k == n
        decreases |ts| - k, more
      {
        rbnode, more := CollectTurn(list, rbnode, ts, k, now);
        k := if k < n then k + 1 else k;
      }
    }

    lemma {:induction false} Collected(list: List, now: int)
      requires Collecting(list, tree.Contents(), Q.Due(queue, now), now)
      ensures list.items <= tree.Contents() && Due(list.items, queue, now) && Busy(list.items)
    {
      TreeIsBusy();
    }

    /** `ts` are the timers of `q` that are due, in its order. */
    ghost predicate Due(ts: seq<Timer>, q: Q.Queue<Timer>, now: int) {
      |ts| == Q.Due(q, now) && forall i :: 0 <= i < |ts| ==> ts[i] == q[i].timer
    }

    /** None of `ts` is in the free pool. */
    ghost predicate Busy(ts: seq<Timer>)
      reads this`free, this`slots
    {
      forall i :: 0 <= i < |ts| ==> ts[i] in slots && ts[i] !in free
    }

    lemma {:induction false} TreeIsBusy()
      requires Valid()
      ensures Busy(tree.Contents())
    {
      InOrderNodes(tree.shape);
    }

    /** One turn of that loop, which may be its last. */
    method CollectTurn(list: List, rbnode: Timer, ghost ts: seq<Timer>, ghost k: nat, now: int)
      returns (next: Timer?, more: bool)
      requires Collecting(list, ts, k, now) && k < |ts| && rbnode == ts[k]
      modifies list, slots`lprev, slots`lnext
      ensures Collecting(list, ts, if k < Q.Due(queue, now) then k + 1 else k, now)
      ensures more <==> k < Q.Due(queue, now) && k + 1 < |ts|
      ensures more ==> next == ts[k + 1]
    {
      WalkAt(k, now);
      if rbnode.timeout > now {
        return rbnode, false;
      }
      next := CollectOne(list, rbnode, k);
      more := next != null;
    }

    /** One turn of that loop. */
    method CollectOne(list: List, rbnode: Timer, ghost k: nat) returns (next: Timer?)
      requires Valid() && list.Valid() && list.slots == slots
      requires k < |tree.Contents()| && rbnode == tree.Contents()[k] && rbnode in slots
      requires list.items == tree.Contents()[..k] && rbnode !in list.items
      modifies list, slots`lprev, slots`lnext
      ensures Valid() && list.Valid() && list.slots == slots && list.items == tree.Contents()[..k + 1]
      ensures next == if k + 1 < |tree.Contents()| then tree.Contents()[k + 1] else null
    {
      list.Add(rbnode);
      next := NextOf(rbnode, k);
    }

    /** ogs_rbtree_next() from place `k`. */
    method NextOf(rbnode: Timer, ghost k: nat) returns (next: Timer?)
      requires Valid() && k < |tree.Contents()| && rbnode == tree.Contents()[k]
      ensures next == if k + 1 < |tree.Contents()| then tree.Contents()[k + 1] else null
    {
      InOrderDistinct(tree.shape);
      InOrderNodes(tree.shape);
      ghost var i;
      next, i := tree.Next(rbnode);
      assert i == k;
    }

    /** `k` of the listed timers are out of the tree, which held `ts`. */
    ghost predicate Detaching(list: List, ts: seq<Timer>, q: Q.Queue<Timer>, k: nat)
      reads this, tree, slots`parent, slots`left, slots`right, slots`color, slots`running, slots`timeout
      reads list, list.slots`lprev, list.slots`lnext
    {
      && Valid() && list.Valid() && list.slots == slots && k <= |list.items| <= |ts| == |q|
      && list.items == ts[..|list.items|] && tree.Contents() == ts[k..] && queue == q[k..]
    }

    /** The second loop of ogs_timer_mgr_expire(): stop and unlink the listed timers. */
    method DetachAll(list: List)
      requires Valid() && list.Valid() && list.slots == slots && list.items <= tree.Contents()
      modifies this`queue, tree, slots`parent, slots`left, slots`right, slots`color, slots`running
      ensures Valid() && list.Valid() && queue == old(queue)[|list.items|..] && Stopped(list.items)
    {
      var lnode := list.next;
      ghost var k: nat, ts, q := 0, tree.Contents(), queue;
      TreeDistinct();
      while lnode != null
        invariant Detaching(list, ts, q, k) && lnode == if k < |list.items| then list.items[k] else null
        decreases |list.items| - k
      {
        lnode := DetachOne(list, lnode, ts, q, k);
        k := k + 1;
      }
      OutOfTree(list, ts, q);
    }

    lemma {:induction false} TreeDistinct()
      requires Valid()
      ensures Distinct(tree.Contents())
    {
      InOrderDistinct(tree.shape);
    }

    /** No listed timer runs once all are out of the tree. */
    lemma {:induction false} OutOfTree(list: List, ts: seq<Timer>, q: Q.Queue<Timer>)
      requires Detaching(list, ts, q, |list.items|) && Distinct(ts)
      ensures Stopped(list.items)
    {
      RunningIsListed();
      forall i | 0 <= i < |list.items|
        ensures list.items[i] !in tree.Contents()
      {
        assert ts[i] == list.items[i];
      }
    }

    ghost predicate Stopped(ts: seq<Timer>)
      reads this`slots, slots`running
    {
      forall i :: 0 <= i < |ts| ==> ts[i] in slots && !ts[i].running
    }

    /** A timer is running exactly when the tree holds it, and the tree holds none twice. */
    lemma {:induction false} RunningIsListed()
      requires Valid()
      ensures forall t :: t in slots ==> (t.running <==> t in tree.Contents())
      ensures forall i, j :: 0 <= i < j < |tree.Contents()| ==> tree.Contents()[i] != tree.Contents()[j]
    {
      InOrderNodes(tree.shape);
      InOrderDistinct(tree.shape);
    }

    /** One turn of that loop. */
    method DetachOne(list: List, lnode: Timer, ghost ts: seq<Timer>, ghost q: Q.Queue<Timer>, ghost k: nat)
      returns (next: Timer?)
      requires Detaching(list, ts, q, k) && k < |list.items| && lnode == list.items[k]
      modifies this`queue, tree, slots`parent, slots`left, slots`right, slots`color, lnode`running
      ensures Detaching(list, ts, q, k + 1)
      ensures next == if k + 1 < |list.items| then list.items[k + 1] else null
    {
      assert ts[k..][0] == lnode && ts[k..][1..] == ts[k + 1..] && q[k..][1..] == q[k + 1..];
      FirstIsRunning();
      Unqueue(lnode);
      assert list.items[k].lnext == if k + 1 < |list.items| then list.items[k + 1] else null;
      next := lnode.lnext;
    }

    lemma {:induction false} FirstIsRunning()
      requires Valid() && tree.Contents() != []
      ensures tree.Contents()[0] in slots && tree.Contents()[0].running && queue[0].timer == tree.Contents()[0]
      ensures Without(tree.Contents(), tree.Contents()[0]) == tree.Contents()[1..]
      ensures Q.Drop(queue, tree.Contents()[0]) == queue[1..]
    {
      InOrderNodes(tree.shape);
    }

    /** The part of ogs_timer_mgr_expire() under the lock: the due timers, in queue order, are
        stopped and out of the tree before any callback. */
    method DetachDue(now: int) returns (list: List)
      requires Valid()
      modifies this`queue, tree, slots`lprev, slots`lnext
      modifies slots`parent, slots`left, slots`right, slots`color, slots`running
      ensures Valid() && free == old(free) && slots == old(slots) && fresh(list) && list.Valid() && list.slots == slots
      ensures queue == old(queue)[Q.Due(old(queue), now)..]
      ensures Due(list.items, old(queue), now) && Stopped(list.items) && Busy(list.items)
    {
      list := CollectDue(now);
      Collected(list, now);
      DetachAll(list);
    }
  }
}
