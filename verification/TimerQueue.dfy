/**
 What lib/core/ogs-timer.c promises, without the tree: the running timers as a
 sequence of deadlines, and the reference it is measured against, a plain map
 from timer to (deadline, start number).
 */
module TimerQueue {

  datatype Entry<K> = Entry(timer: K, due: int)

  type Queue<K> = seq<Entry<K>>

  /** OGS_INFINITE_TIME and OGS_NO_WAIT_TIME */
  const INFINITE := -1
  const NO_WAIT := 0

  ghost function Timers<K>(q: Queue<K>): set<K> {
    set i | 0 <= i < |q| :: q[i].timer
  }

  ghost predicate Sorted<K>(q: Queue<K>) {
    forall i, j :: 0 <= i < j < |q| ==> q[i].due <= q[j].due
  }

  /** The descent of add_timer_node(): behind every deadline that is not later. */
  ghost function Insert<K>(q: Queue<K>, e: Entry<K>): Queue<K> {
    if q == [] then [e]
    else if e.due < q[0].due then [e] + q
    else [q[0]] + Insert(q[1..], e)
  }

  ghost function Drop<K>(q: Queue<K>, t: K): Queue<K> {
    if q == [] then [] else if q[0].timer == t then q[1..] else [q[0]] + Drop(q[1..], t)
  }

  /** ogs_timer_start(): leave the queue if in it, then enter with the new deadline. */
  ghost function Started<K>(q: Queue<K>, t: K, due: int): Queue<K> {
    Insert(Drop(q, t), Entry(t, due))
  }

  /** The walk of ogs_timer_mgr_expire(): up to the first deadline still to come. */
  ghost function Due<K>(q: Queue<K>, now: int): (n: nat)
    ensures n <= |q|
    ensures forall i :: 0 <= i < n ==> q[i].due <= now
    ensures n < |q| ==> q[n].due > now
  {
    if q == [] || q[0].due > now then 0 else 1 + Due(q[1..], now)
  }

  ghost function NextWait<K>(q: Queue<K>, now: int): int {
    if q == [] then INFINITE else if q[0].due > now then q[0].due - now else NO_WAIT
  }

  // ---- one step -----------------------------------------------------------

  /** Insert puts an entry exactly where a split by deadline says. */
  lemma {:induction false} InsertSplit<K>(a: Queue<K>, e: Entry<K>, b: Queue<K>)
    requires forall i :: 0 <= i < |a| ==> a[i].due <= e.due
    requires forall i :: 0 <= i < |b| ==> e.due < b[i].due
    ensures Insert(a + b, e) == a + [e] + b
  {
    if a == [] {
      assert a + b == b && a + [e] + b == [e] + b;
    } else {
      assert (a + b)[0] == a[0] && (a + b)[1..] == a[1..] + b;
      InsertSplit(a[1..], e, b);
      assert [a[0]] + (a[1..] + [e] + b) == a + [e] + b;
    }
  }

  lemma {:induction false} DropSplit<K>(a: Queue<K>, e: Entry<K>, b: Queue<K>)
    requires forall i :: 0 <= i < |a| ==> a[i].timer != e.timer
    ensures Drop(a + [e] + b, e.timer) == a + b
  {
    if a == [] {
      assert (a + [e] + b)[1..] == b;
    } else {
      assert (a + [e] + b)[1..] == a[1..] + [e] + b;
      DropSplit(a[1..], e, b);
      assert [a[0]] + (a[1..] + b) == a + b;
    }
  }

  lemma {:induction false} DropAbsent<K>(q: Queue<K>, t: K)
    requires forall i :: 0 <= i < |q| ==> q[i].timer != t
    ensures Drop(q, t) == q
  {
    if q != [] {
      DropAbsent(q[1..], t);
    }
  }

  lemma {:induction false} SortedDrop<K>(q: Queue<K>, t: K)
    requires Sorted(q)
    ensures Sorted(Drop(q, t)) && forall lo :: AtLeast(q, lo) ==> AtLeast(Drop(q, t), lo)
  {
    if q != [] && q[0].timer != t {
      SortedDrop(q[1..], t);
      assert AtLeast(q[1..], q[0].due);
      forall lo | AtLeast(q, lo)
        ensures AtLeast(Drop(q, t), lo)
      {
        assert AtLeast(q[1..], lo);
      }
    }
  }

  lemma {:induction false} SortedInsert<K>(q: Queue<K>, e: Entry<K>)
    requires Sorted(q)
    ensures Sorted(Insert(q, e))
  {
    var k := InsertSorted(q, e);
    var p := q[..k] + [e] + q[k..];
    assert forall i :: 0 <= i < |p| ==> p[i] == if i < k then q[i] else if i == k then e else q[i - 1];
  }

  ghost predicate AtLeast<K>(q: Queue<K>, lo: int) {
    forall i :: 0 <= i < |q| ==> lo <= q[i].due
  }

  // ---- whole runs ---------------------------------------------------------

  datatype Op<K> = Start(timer: K, due: int) | Stop(timer: K) | Expire(now: int)

  /** A queue entry with the number of the start that made it. */
  datatype Stamp = Stamp(due: int, start: nat)

  /** The reference: which timers run, with what deadline, started when. */
  datatype Ref<K> = Ref(running: map<K, Stamp>, starts: nat)

  ghost function Step<K>(q: Queue<K>, op: Op<K>): Queue<K> {
    match op
    case Start(t, due) => Started(q, t, due)
    case Stop(t) => Drop(q, t)
    case Expire(now) => q[Due(q, now)..]
  }

  ghost function RefStep<K>(r: Ref<K>, op: Op<K>): Ref<K> {
    match op
    case Start(t, due) => Ref(r.running[t := Stamp(due, r.starts)], r.starts + 1)
    case Stop(t) => Ref(r.running - {t}, r.starts)
    case Expire(now) => Ref(map t | t in r.running && r.running[t].due > now :: r.running[t], r.starts)
  }

  ghost function Run<K>(ops: seq<Op<K>>): Queue<K> {
    if ops == [] then [] else Step(Run(ops[..|ops| - 1]), ops[|ops| - 1])
  }

  ghost function RefRun<K>(ops: seq<Op<K>>): Ref<K> {
    if ops == [] then Ref(map[], 0) else RefStep(RefRun(ops[..|ops| - 1]), ops[|ops| - 1])
  }

  ghost predicate Earlier(a: Stamp, b: Stamp) {
    a.due < b.due || (a.due == b.due && a.start < b.start)
  }

  /** `q` lists the running timers of `r`, each once, by deadline and then start order. */
  ghost predicate Agrees<K>(q: Queue<K>, r: Ref<K>) {
    && Timers(q) == r.running.Keys
    && (forall i :: 0 <= i < |q| ==> r.running[q[i].timer].due == q[i].due && r.running[q[i].timer].start < r.starts)
    && (forall i, j :: 0 <= i < j < |q| ==> Earlier(r.running[q[i].timer], r.running[q[j].timer]))
  }

  lemma AgreesSorted<K>(q: Queue<K>, r: Ref<K>)
    requires Agrees(q, r)
    ensures Sorted(q)
  {
  }

  lemma {:induction false} FindEntry<K>(q: Queue<K>, t: K) returns (k: nat)
    requires t in Timers(q)
    ensures k < |q| && q[k].timer == t && forall i :: 0 <= i < k ==> q[i].timer != t
  {
    if q[0].timer == t {
      k := 0;
    } else {
      assert forall i :: 1 <= i < |q| ==> q[i] == q[1..][i - 1];
      k := FindEntry(q[1..], t);
      k := k + 1;
    }
  }

  /** Cutting entries `a..b` out of an agreeing queue and their timers out of the reference. */
  lemma {:induction false} AgreesCut<K>(q: Queue<K>, r: Ref<K>, a: nat, b: nat, r': Ref<K>)
    requires Agrees(q, r) && a <= b <= |q| && r'.starts == r.starts
    requires forall i :: 0 <= i < |q| ==> (q[i].timer in r'.running <==> i < a || b <= i)
    requires forall t :: t in r'.running ==> t in r.running && r'.running[t] == r.running[t]
    ensures Agrees(q[..a] + q[b..], r')
  {
    var p := q[..a] + q[b..];
    CutKeys(q, r, a, b, r');
    forall i | 0 <= i < |p|
      ensures r'.running[p[i].timer].due == p[i].due && r'.running[p[i].timer].start < r'.starts
    {
      CutEntry(q, r, a, b, r', i);
    }
    forall i, j | 0 <= i < j < |p|
      ensures Earlier(r'.running[p[i].timer], r'.running[p[j].timer])
    {
      CutEntry(q, r, a, b, r', i);
      CutEntry(q, r, a, b, r', j);
      assert Earlier(r.running[q[Uncut(a, b, i)].timer], r.running[q[Uncut(a, b, j)].timer]);
    }
  }

  lemma {:induction false} CutEntry<K>(q: Queue<K>, r: Ref<K>, a: nat, b: nat, r': Ref<K>, i: nat)
    requires Agrees(q, r) && a <= b <= |q| && i < |q| - (b - a)
    requires forall i :: 0 <= i < |q| ==> (q[i].timer in r'.running <==> i < a || b <= i)
    requires forall t :: t in r'.running ==> t in r.running && r'.running[t] == r.running[t]
    ensures var e := (q[..a] + q[b..])[i];
            && e == q[Uncut(a, b, i)] && e.timer in r'.running && r'.running[e.timer] == r.running[e.timer]
            && r.running[e.timer].due == e.due && r.running[e.timer].start < r.starts
  {
    assert (q[..a] + q[b..])[i] == q[Uncut(a, b, i)];
  }

  /** Where the `i`-th entry was before entries `a..b` were cut out. */
  ghost function Uncut(a: nat, b: nat, i: nat): int {
    if i < a then i else i + b - a
  }

  lemma {:induction false} CutKeys<K>(q: Queue<K>, r: Ref<K>, a: nat, b: nat, r': Ref<K>)
    requires Timers(q) == r.running.Keys && a <= b <= |q|
    requires forall i :: 0 <= i < |q| ==> (q[i].timer in r'.running <==> i < a || b <= i)
    requires forall t :: t in r'.running ==> t in r.running
    ensures Timers(q[..a] + q[b..]) == r'.running.Keys
  {
    var p := q[..a] + q[b..];
    forall i | 0 <= i < |p|
      ensures p[i].timer in r'.running
    {
      assert p[i] == q[Uncut(a, b, i)];
    }
    forall t | t in r'.running
      ensures t in Timers(p)
    {
      assert t in Timers(q);
      var i :| 0 <= i < |q| && q[i].timer == t;
      assert p[if i < a then i else i - (b - a)] == q[i];
    }
  }

  lemma {:induction false} AgreesStop<K>(q: Queue<K>, r: Ref<K>, t: K)
    requires Agrees(q, r)
    ensures Agrees(Drop(q, t), RefStep(r, Stop(t)))
  {
    if t in Timers(q) {
      var k := FindEntry(q, t);
      assert q == q[..k] + [q[k]] + q[k + 1..];
      DropSplit(q[..k], q[k], q[k + 1..]);
      var r' := RefStep(r, Stop(t));
      forall i | 0 <= i < |q|
        ensures q[i].timer in r'.running <==> i < k || k + 1 <= i
      {
        assert q[i].timer in Timers(q);
        if i > k {
          assert Earlier(r.running[q[k].timer], r.running[q[i].timer]);
        }
      }
      AgreesCut(q, r, k, k + 1, r');
    } else {
      DropAbsent(q, t);
      assert r.running - {t} == r.running;
    }
  }

  lemma {:induction false} InsertSorted<K>(q: Queue<K>, e: Entry<K>) returns (k: nat)
    requires Sorted(q)
    ensures k <= |q| && Insert(q, e) == q[..k] + [e] + q[k..]
    ensures forall i :: 0 <= i < k ==> q[i].due <= e.due
    ensures forall i :: k <= i < |q| ==> e.due < q[i].due
  {
    k := Due(q, e.due);
    var b := q[k..];
    forall i | k <= i < |q|
      ensures e.due < q[i].due
    {
      assert i == k || q[k].due <= q[i].due;
    }
    assert forall i :: 0 <= i < |b| ==> b[i] == q[k + i];
    assert q == q[..k] + b;
    InsertSplit(q[..k], e, b);
  }

  lemma {:induction false} InsertKeys<K>(q: Queue<K>, k: nat, e: Entry<K>)
    requires k <= |q|
    ensures Timers(q[..k] + [e] + q[k..]) == Timers(q) + {e.timer}
  {
    var p := q[..k] + [e] + q[k..];
    assert p[k].timer == e.timer;
    forall i | 0 <= i < |q|
      ensures q[i].timer in Timers(p)
    {
      assert p[if i < k then i else i + 1] == q[i];
    }
    assert forall i :: 0 <= i < |p| ==> p[i] == if i < k then q[i] else if i == k then e else q[i - 1];
  }

  lemma {:induction false} AgreesInsert<K>(q: Queue<K>, r: Ref<K>, t: K, due: int)
    requires Agrees(q, r) && t !in r.running
    ensures Agrees(Insert(q, Entry(t, due)), RefStep(r, Start(t, due)))
  {
    AgreesSorted(q, r);
    var e := Entry(t, due);
    var k := InsertSorted(q, e);
    InsertKeys(q, k, e);
    var p, m := q[..k] + [e] + q[k..], RefStep(r, Start(t, due)).running;
    forall i | 0 <= i < |p|
      ensures p[i].timer in m && m[p[i].timer].due == p[i].due && m[p[i].timer].start < r.starts + 1
    {
      EntryAfterInsert(q, r, k, e, i);
    }
    forall i, j | 0 <= i < j < |p|
      ensures Earlier(m[p[i].timer], m[p[j].timer])
    {
      EntryAfterInsert(q, r, k, e, i);
      EntryAfterInsert(q, r, k, e, j);
    }
  }

  lemma {:induction false} EntryAfterInsert<K>(q: Queue<K>, r: Ref<K>, k: nat, e: Entry<K>, i: nat)
    requires Agrees(q, r) && e.timer !in r.running && k <= |q| && i <= |q|
    ensures var p, m := q[..k] + [e] + q[k..], r.running[e.timer := Stamp(e.due, r.starts)];
            if i == k then p[i] == e
            else var f := q[if i < k then i else i - 1];
                 p[i] == f && f.timer in r.running && m[f.timer] == r.running[f.timer]
                 && m[f.timer].due == f.due && m[f.timer].start < r.starts
  {
    if i != k {
      var j := if i < k then i else i - 1;
      assert q[j].timer in Timers(q);
    }
  }

  lemma {:induction false} AgreesStart<K>(q: Queue<K>, r: Ref<K>, t: K, due: int)
    requires Agrees(q, r)
    ensures Agrees(Started(q, t, due), RefStep(r, Start(t, due)))
  {
    AgreesStop(q, r, t);
    AgreesInsert(Drop(q, t), RefStep(r, Stop(t)), t, due);
    assert (r.running - {t})[t := Stamp(due, r.starts)] == r.running[t := Stamp(due, r.starts)];
  }

  lemma {:induction false} AgreesExpire<K>(q: Queue<K>, r: Ref<K>, now: int)
    requires Agrees(q, r)
    ensures Agrees(q[Due(q, now)..], RefStep(r, Expire(now)))
  {
    var n, r' := Due(q, now), RefStep(r, Expire(now));
    forall i | 0 <= i < |q|
      ensures q[i].timer in r'.running <==> n <= i
    {
      assert q[i].timer in Timers(q);
      if n < i {
        assert Earlier(r.running[q[n].timer], r.running[q[i].timer]);
      }
    }
    AgreesCut(q, r, 0, n, r');
    assert q[..0] + q[n..] == q[n..];
  }

  /** Over every run the queue lists exactly the running timers of the reference,
      in deadline order with ties by start order. */
  lemma {:induction false} RunAgrees<K>(ops: seq<Op<K>>)
    ensures Agrees(Run(ops), RefRun(ops))
  {
    if ops != [] {
      var q, r, op := Run(ops[..|ops| - 1]), RefRun(ops[..|ops| - 1]), ops[|ops| - 1];
      RunAgrees(ops[..|ops| - 1]);
      match op
      case Start(t, due) => AgreesStart(q, r, t, due);
      case Stop(t) => AgreesStop(q, r, t);
      case Expire(now) => AgreesExpire(q, r, now);
    }
  }

  /** `batch` holds exactly the timers due in `m`, by deadline and then start order. */
  ghost predicate DueBatch<K>(batch: Queue<K>, m: map<K, Stamp>, now: int) {
    && Timers(batch) == (set t | t in m && m[t].due <= now)
    && (forall i, j :: 0 <= i < j < |batch| ==>
          batch[i].timer in m && batch[j].timer in m && Earlier(m[batch[i].timer], m[batch[j].timer]))
  }

  /** The expiry batch after any run: exactly the timers due, by deadline and then
      start order, none of which is still queued afterwards. */
  lemma {:induction false} ExpireBatch<K>(ops: seq<Op<K>>, now: int)
    ensures DueBatch(Run(ops)[..Due(Run(ops), now)], RefRun(ops).running, now)
    ensures Run(ops + [Expire(now)]) == Run(ops)[Due(Run(ops), now)..]
    ensures Timers(Run(ops + [Expire(now)])) !! Timers(Run(ops)[..Due(Run(ops), now)])
  {
    RunAgrees(ops);
    RunMore(ops, Expire(now));
    BatchOf(Run(ops), RefRun(ops), now);
    BatchApart(Run(ops), RefRun(ops), Due(Run(ops), now));
  }

  lemma RunMore<K>(ops: seq<Op<K>>, op: Op<K>)
    ensures Run(ops + [op]) == Step(Run(ops), op)
  {
    assert (ops + [op])[..|ops|] == ops;
  }

  /** What the reference knows of a queue entry. */
  lemma {:induction false} EntryOf<K>(q: Queue<K>, r: Ref<K>, i: nat)
    requires Agrees(q, r) && i < |q|
    ensures q[i].timer in r.running && r.running[q[i].timer].due == q[i].due
  {
    assert q[i].timer in Timers(q);
  }

  /** The due entries are exactly the timers due. */
  lemma {:induction false} BatchMember<K>(q: Queue<K>, r: Ref<K>, now: int, t: K)
    requires Agrees(q, r)
    ensures t in Timers(q[..Due(q, now)]) <==> t in r.running && r.running[t].due <= now
  {
    var n := Due(q, now);
    if t in Timers(q[..n]) {
      var i :| 0 <= i < n && q[..n][i].timer == t;
      EntryOf(q, r, i);
    }
    if t in r.running && r.running[t].due <= now {
      assert t in Timers(q);
      var i :| 0 <= i < |q| && q[i].timer == t;
      EntryOf(q, r, i);
      if i < n {
        assert q[..n][i] == q[i];
      } else {
        EntryOf(q, r, n);
        assert false;
      }
    }
  }

  lemma {:induction false} BatchOf<K>(q: Queue<K>, r: Ref<K>, now: int)
    requires Agrees(q, r)
    ensures DueBatch(q[..Due(q, now)], r.running, now)
  {
    var n, m := Due(q, now), r.running;
    forall t
      ensures t in Timers(q[..n]) <==> t in m && m[t].due <= now
    {
      BatchMember(q, r, now, t);
    }
    forall i, j | 0 <= i < j < n
      ensures q[i].timer in m && q[j].timer in m && Earlier(m[q[i].timer], m[q[j].timer])
    {
      EntryOf(q, r, i);
      EntryOf(q, r, j);
    }
  }

  lemma {:induction false} BatchApart<K>(q: Queue<K>, r: Ref<K>, n: nat)
    requires Agrees(q, r) && n <= |q|
    ensures Timers(q[n..]) !! Timers(q[..n])
  {
    forall i, j | 0 <= i < n && 0 <= j < |q| - n
      ensures q[..n][i].timer != q[n..][j].timer
    {
      EntryOf(q, r, i);
      EntryOf(q, r, n + j);
      assert Earlier(r.running[q[i].timer], r.running[q[n + j].timer]);
    }
  }

  /** "Now" exactly when a deadline has come, "never" exactly when none is set, and
      otherwise the time to the earliest. */
  ghost predicate EarliestWait<K>(m: map<K, Stamp>, now: int, wait: int) {
    && (wait == 0 <==> exists t :: t in m && m[t].due <= now)
    && (wait == -1 <==> m == map[])
    && (wait > 0 ==> exists t :: t in m && m[t].due == now + wait)
    && (wait > 0 ==> forall t :: t in m ==> m[t].due >= now + wait)
  }

  /** ogs_timer_mgr_next() answers "now" exactly when an expiry at that instant would
      find a timer, and in every case the wait to the earliest deadline. */
  lemma {:induction false} NextExact<K>(ops: seq<Op<K>>, now: int)
    ensures NextWait(Run(ops), now) == 0 <==> Due(Run(ops), now) > 0
    ensures EarliestWait(RefRun(ops).running, now, NextWait(Run(ops), now))
  {
    RunAgrees(ops);
    NextOf(Run(ops), RefRun(ops), now);
  }

  lemma {:induction false} NextOf<K>(q: Queue<K>, r: Ref<K>, now: int)
    requires Agrees(q, r)
    ensures EarliestWait(r.running, now, NextWait(q, now))
  {
    if q == [] {
      assert r.running.Keys == {};
      assert r.running == map[];
    } else {
      FirstDue(q, r);
      var t := q[0].timer;
      assert t in r.running && r.running[t].due == q[0].due;
      assert r.running != map[];
    }
  }

  /** The first entry has the earliest deadline of all. */
  lemma {:induction false} FirstDue<K>(q: Queue<K>, r: Ref<K>)
    requires Agrees(q, r) && q != []
    ensures q[0].timer in r.running && r.running[q[0].timer].due == q[0].due
    ensures forall t :: t in r.running ==> r.running[t].due >= q[0].due
  {
    EntryOf(q, r, 0);
    forall t | t in r.running
      ensures r.running[t].due >= q[0].due
    {
      assert t in Timers(q);
      var i :| 0 <= i < |q| && q[i].timer == t;
      EntryOf(q, r, i);
      assert i > 0 ==> Earlier(r.running[q[0].timer], r.running[q[i].timer]);
    }
  }
}
