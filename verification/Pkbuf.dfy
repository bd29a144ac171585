/**
Packet buffers as the pool build of `lib/core/ogs-pkbuf.c` keeps them (`OGS_USE_TALLOC == 0`):
a pkbuf is a cell of its pool's `pkbuf` pool, and shares a reference-counted cluster that owns
one buffer of one size class.
*/
module PkbufSpec {
  import opened PoolSpec

  const CLASSES: nat := 8

  /** OGS_CLUSTER_BIG_SIZE */
  const BIG_SIZE: nat := 1024 * 1024 + 8

  function ClassSize(c: nat): nat
    requires c < CLASSES
  {
    [128, 256, 512, 1024, 2048, 8192, 32768, BIG_SIZE][c]
  }

  /** The class that serves a request. */
  function ClassOf(size: nat): (c: nat)
    requires size <= BIG_SIZE
    ensures c < CLASSES && size <= ClassSize(c) && forall d: nat :: d < c ==> ClassSize(d) < size
  {
    if size <= 128 then 0 else if size <= 256 then 1 else if size <= 512 then 2 else if size <= 1024 then 3
    else if size <= 2048 then 4 else if size <= 8192 then 5 else if size <= 32768 then 6 else 7
  }

  /** The octets a request is given. */
  lemma GivenSize(size: nat)
    requires size <= 1048584
    ensures BIG_SIZE == 1048584
    ensures ClassSize(ClassOf(size)) == if size <= 128 then 128 else if size <= 256 then 256 else if size <= 512 then 512
                                        else if size <= 1024 then 1024 else if size <= 2048 then 2048 else if size <= 8192 then 8192
                                        else if size <= 32768 then 32768 else 1048584
  {
  }

  lemma ClassOfSize(c: nat)
    requires c < CLASSES
    ensures ClassSize(c) <= BIG_SIZE && ClassOf(ClassSize(c)) == c
  {
  }

  /** A buffer, by its class and its cell there. */
  datatype Slot = Slot(class_: nat, cell: nat)

  /** `ogs_cluster_t` */
  datatype Cluster = Cluster(buffer: nat, size: nat, refs: nat)

  ghost predicate ProperCluster(k: Cluster) {
    k.size <= BIG_SIZE && ClassSize(ClassOf(k.size)) == k.size
  }

  ghost function SlotOf(k: Cluster): Slot
    requires k.size <= BIG_SIZE
  {
    Slot(ClassOf(k.size), k.buffer)
  }

  ghost function TotalSize(bs: seq<Pool>): nat {
    if bs == [] then 0 else bs[0].size + TotalSize(bs[1..])
  }

  ghost function TotalLive(bs: seq<Pool>): nat {
    if bs == [] then 0 else |bs[0].live| + TotalLive(bs[1..])
  }

  ghost predicate AllPartitioned(bs: seq<Pool>) {
    forall c :: 0 <= c < |bs| ==> Partitioned(bs[c])
  }

  lemma {:induction false} TotalUpdate(bs: seq<Pool>, c: nat, b: Pool)
    requires c < |bs|
    ensures TotalSize(bs[c := b]) == TotalSize(bs) - bs[c].size + b.size
    ensures TotalLive(bs[c := b]) == TotalLive(bs) - |bs[c].live| + |b.live|
  {
    if c > 0 {
      TotalUpdate(bs[1..], c - 1, b);
      assert bs[c := b][1..] == bs[1..][c - 1 := b];
    } else {
      assert bs[c := b][1..] == bs[1..];
    }
  }

  lemma {:induction false} LiveWithin(bs: seq<Pool>)
    requires AllPartitioned(bs)
    ensures TotalLive(bs) <= TotalSize(bs)
  {
    if bs != [] {
      SizeSplits(bs[0]);
      LiveWithin(bs[1..]);
    }
  }

  /** A free buffer in any class leaves fewer live buffers than there are in all. */
  lemma {:induction false} FreeBuffer(bs: seq<Pool>, c: nat)
    requires AllPartitioned(bs) && c < |bs| && bs[c].ring != []
    ensures TotalLive(bs) < TotalSize(bs)
  {
    SizeSplits(bs[0]);
    if c > 0 {
      FreeBuffer(bs[1..], c - 1);
    } else {
      LiveWithin(bs[1..]);
    }
  }

  /** The live clusters and the live buffers correspond one to one. */
  ghost predicate Clustered(cluster: Pool, bs: seq<Pool>, metas: map<nat, Cluster>, owner: map<Slot, nat>) {
    && |bs| == CLASSES && AllPartitioned(bs) && Partitioned(cluster)
    && cluster.size == TotalSize(bs) && |cluster.live| == TotalLive(bs)
    && Owners(cluster, bs, metas, owner)
  }

  /** `owner` names the cluster of each live buffer. */
  ghost predicate Owners(cluster: Pool, bs: seq<Pool>, metas: map<nat, Cluster>, owner: map<Slot, nat>)
    requires |bs| == CLASSES
  {
    && (forall m {:trigger OwnsOne(cluster, bs, metas, owner, m)} :: m in cluster.live ==> OwnsOne(cluster, bs, metas, owner, m))
    && (forall s {:trigger OwnedOnce(cluster, bs, metas, owner, s)} :: s in owner ==> OwnedOnce(cluster, bs, metas, owner, s))
    && (forall c, b {:trigger Slot(c, b)} :: 0 <= c < CLASSES && b in bs[c].live ==> Slot(c, b) in owner)
  }

  ghost predicate OwnsOne(cluster: Pool, bs: seq<Pool>, metas: map<nat, Cluster>, owner: map<Slot, nat>, m: nat) {
    m in metas && ProperCluster(metas[m]) && SlotOf(metas[m]) in owner && owner[SlotOf(metas[m])] == m
  }

  ghost predicate OwnedOnce(cluster: Pool, bs: seq<Pool>, metas: map<nat, Cluster>, owner: map<Slot, nat>, s: Slot)
    requires s in owner
  {
    && s.class_ < |bs| == CLASSES && s.cell in bs[s.class_].live
    && owner[s] in cluster.live && owner[s] in metas && ProperCluster(metas[owner[s]]) && SlotOf(metas[owner[s]]) == s
  }

  lemma {:induction false} MetaKnown(cluster: Pool, bs: seq<Pool>, metas: map<nat, Cluster>, owner: map<Slot, nat>)
    requires |bs| == CLASSES && Owners(cluster, bs, metas, owner)
    ensures forall m :: m in cluster.live ==> m in metas && ProperCluster(metas[m])
  {
    forall m | m in cluster.live
      ensures m in metas && ProperCluster(metas[m])
    {
      assert OwnsOne(cluster, bs, metas, owner, m);
    }
  }

  /** Ownership depends only on which clusters are live. */
  lemma {:induction false} SameLive(cluster: Pool, cluster': Pool, bs: seq<Pool>, metas: map<nat, Cluster>, owner: map<Slot, nat>)
    requires Clustered(cluster, bs, metas, owner)
    requires Partitioned(cluster') && cluster'.live == cluster.live && cluster'.size == cluster.size
    ensures Clustered(cluster', bs, metas, owner)
  {
    forall k | k in cluster'.live
      ensures OwnsOne(cluster', bs, metas, owner, k)
    {
      assert OwnsOne(cluster, bs, metas, owner, k);
    }
    forall s | s in owner
      ensures OwnedOnce(cluster', bs, metas, owner, s)
    {
      assert OwnedOnce(cluster, bs, metas, owner, s);
    }
  }

  lemma {:induction false} StaleClustered(cluster: Pool, bs: seq<Pool>, metas: map<nat, Cluster>, owner: map<Slot, nat>, m: nat, k: Cluster)
    requires Clustered(cluster, bs, metas, owner) && m !in cluster.live
    ensures Clustered(cluster, bs, metas[m := k], owner)
  {
    var metas' := metas[m := k];
    forall k | k in cluster.live
      ensures OwnsOne(cluster, bs, metas', owner, k)
    {
      assert OwnsOne(cluster, bs, metas, owner, k);
    }
    forall s | s in owner
      ensures OwnedOnce(cluster, bs, metas', owner, s)
    {
      assert OwnedOnce(cluster, bs, metas, owner, s);
    }
  }

  /** The cluster-meta pool never refuses a request whose class has a buffer. */
  lemma {:induction false} MetaSuffices(cluster: Pool, bs: seq<Pool>, metas: map<nat, Cluster>, owner: map<Slot, nat>, c: nat)
    requires Clustered(cluster, bs, metas, owner) && c < CLASSES && bs[c].ring != []
    ensures cluster.ring != []
  {
    FreeBuffer(bs, c);
    SizeSplits(cluster);
  }

  lemma {:induction false} OwnersTaken(cluster: Pool, cluster': Pool, bs: seq<Pool>, bs': seq<Pool>,
                                       metas: map<nat, Cluster>, owner: map<Slot, nat>, c: nat, m: nat, b: nat)
    requires c < |bs| == |bs'| == CLASSES && Owners(cluster, bs, metas, owner)
    requires m !in cluster.live && b !in bs[c].live && cluster'.live == cluster.live + {m}
    requires forall d :: 0 <= d < CLASSES ==> bs'[d].live == if d == c then bs[d].live + {b} else bs[d].live
    ensures Slot(c, b) !in owner
    ensures Owners(cluster', bs', metas[m := Cluster(b, ClassSize(c), 0)], owner[Slot(c, b) := m])
  {
    var metas', owner' := metas[m := Cluster(b, ClassSize(c), 0)], owner[Slot(c, b) := m];
    ClassOfSize(c);
    assert Slot(c, b) in owner ==> OwnedOnce(cluster, bs, metas, owner, Slot(c, b));
    forall k | k in cluster'.live
      ensures OwnsOne(cluster', bs', metas', owner', k)
    {
      assert k != m ==> OwnsOne(cluster, bs, metas, owner, k);
    }
    forall s | s in owner'
      ensures OwnedOnce(cluster', bs', metas', owner', s)
    {
      assert s in owner ==> OwnedOnce(cluster, bs, metas, owner, s);
    }
    forall d, e | 0 <= d < CLASSES && e in bs'[d].live
      ensures Slot(d, e) in owner'
    {
      assert e in bs[d].live ==> Slot(d, e) in owner;
    }
  }

  /** Giving a free cluster a free buffer. */
  lemma {:induction false} ClusterTaken(cluster: Pool, bs: seq<Pool>, metas: map<nat, Cluster>, owner: map<Slot, nat>, c: nat)
    requires Clustered(cluster, bs, metas, owner) && c < CLASSES && cluster.ring != [] && bs[c].ring != []
    ensures var m, b := cluster.ring[0], bs[c].ring[0];
            && m !in cluster.live && Slot(c, b) !in owner
            && Clustered(Alloc(cluster), bs[c := Alloc(bs[c])], metas[m := Cluster(b, ClassSize(c), 0)], owner[Slot(c, b) := m])
  {
    var m, b := cluster.ring[0], bs[c].ring[0];
    AllocKeeps(cluster);
    AllocKeeps(bs[c]);
    TotalUpdate(bs, c, Alloc(bs[c]));
    OwnersTaken(cluster, Alloc(cluster), bs, bs[c := Alloc(bs[c])], metas, owner, c, m, b);
  }

  /** Taking cluster `m` and its buffer back. */
  lemma {:induction false} ClusterGiven(cluster: Pool, bs: seq<Pool>, metas: map<nat, Cluster>, owner: map<Slot, nat>, m: nat)
    requires Clustered(cluster, bs, metas, owner) && m in cluster.live
    ensures m in metas && ProperCluster(metas[m])
    ensures var s := SlotOf(metas[m]);
            && s.class_ < CLASSES && s.cell in bs[s.class_].live && s in owner
            && Clustered(Free(cluster, m), bs[s.class_ := Free(bs[s.class_], s.cell)], metas, owner - {s})
  {
    assert OwnsOne(cluster, bs, metas, owner, m);
    var s := SlotOf(metas[m]);
    var c := s.class_;
    assert OwnedOnce(cluster, bs, metas, owner, s);
    FreeKeeps(cluster, m);
    FreeKeeps(bs[c], s.cell);
    var cluster', bs', owner' := Free(cluster, m), bs[c := Free(bs[c], s.cell)], owner - {s};
    TotalUpdate(bs, c, Free(bs[c], s.cell));
    forall k | k in cluster'.live
      ensures OwnsOne(cluster', bs', metas, owner', k)
    {
      assert OwnsOne(cluster, bs, metas, owner, k);
    }
    forall t | t in owner'
      ensures OwnedOnce(cluster', bs', metas, owner', t)
    {
      assert OwnedOnce(cluster, bs, metas, owner, t);
    }
    forall d, e | 0 <= d < CLASSES && e in bs'[d].live
      ensures Slot(d, e) in owner'
    {
      assert e in bs[d].live && Slot(d, e) in owner;
    }
  }

  /** Reference counts do not matter to ownership. */
  lemma {:induction false} ClusteredRefs(cluster: Pool, bs: seq<Pool>, metas: map<nat, Cluster>, owner: map<Slot, nat>, m: nat, refs: nat)
    requires Clustered(cluster, bs, metas, owner) && m in metas
    ensures Clustered(cluster, bs, metas[m := metas[m].(refs := refs)], owner)
  {
    var metas' := metas[m := metas[m].(refs := refs)];
    forall k | k in cluster.live
      ensures OwnsOne(cluster, bs, metas', owner, k)
    {
      assert OwnsOne(cluster, bs, metas, owner, k);
    }
    forall s | s in owner
      ensures OwnedOnce(cluster, bs, metas', owner, s)
    {
      assert OwnedOnce(cluster, bs, metas, owner, s);
    }
  }
}

module PkbufPools {
  import opened Basics
  import opened PoolSpec
  import opened PkbufSpec

  /** `ogs_pkbuf_t`; the four pointers are offsets into the buffer. */
  datatype Pkbuf = Pkbuf(cluster: nat, len: nat, head: int, tail: int, data: int, end: int, pool: PkbufPool)

  /** What a pkbuf shows of its buffer: `len` octets from `data` on. */
  datatype Window = Window(data: nat, len: nat)

  /** The pointers of a pkbuf of `size` octets that shows `w`. */
  ghost predicate Shows(k: Pkbuf, size: nat, w: Window) {
    && k.head == 0 <= w.data == k.data && k.len == w.len
    && k.tail == k.data + k.len <= k.end == size
  }

  /** The value of a pool: its pools, the cells of `cluster` and of `pkbuf`, and the cluster
      of each buffer. */
  datatype State = State(pkbuf: Pool, cluster: Pool, buffers: seq<Pool>,
                         metas: map<nat, Cluster>, bufs: map<nat, Pkbuf>, owner: map<Slot, nat>)

  /** The live pkbufs that share cluster `m`. */
  ghost function Sharers(s: State, m: nat): set<nat> {
    set p | p in s.pkbuf.live && p in s.bufs && s.bufs[p].cluster == m
  }

  /** Every live pkbuf belongs to `home` and shares a live cluster. */
  ghost predicate Homed(home: PkbufPool, s: State) {
    && Partitioned(s.pkbuf)
    && forall p :: p in s.pkbuf.live ==> p in s.bufs && s.bufs[p].pool == home && s.bufs[p].cluster in s.cluster.live
  }

  /** The reference count of a cluster is the number of live pkbufs that share it. */
  ghost predicate Counted(s: State, m: nat) {
    m in s.metas && s.metas[m].refs == |Sharers(s, m)|
  }

  ghost predicate Consistent(home: PkbufPool, s: State) {
    && Clustered(s.cluster, s.buffers, s.metas, s.owner) && Homed(home, s)
    && forall m {:trigger Counted(s, m)} :: m in s.cluster.live ==> Counted(s, m)
  }

  /** Between calls every live cluster is shared by somebody. */
  ghost predicate ValidState(home: PkbufPool, s: State) {
    Consistent(home, s) && AllShared(s)
  }

  ghost predicate AllShared(s: State) {
    forall m :: m in s.cluster.live && m in s.metas ==> s.metas[m].refs > 0
  }

  /** The buffer of a live pkbuf. */
  ghost function SlotIn(s: State, p: nat): Slot
    requires p in s.bufs && s.bufs[p].cluster in s.metas && s.metas[s.bufs[p].cluster].size <= BIG_SIZE
  {
    SlotOf(s.metas[s.bufs[p].cluster])
  }

  ghost predicate Readable(s: State, p: nat) {
    p in s.bufs && s.bufs[p].cluster in s.metas && s.metas[s.bufs[p].cluster].size <= BIG_SIZE
  }

  /** The buffer of each live pkbuf. */
  ghost function View(s: State): map<nat, Slot> {
    map p | p in s.pkbuf.live && Readable(s, p) :: SlotIn(s, p)
  }

  lemma {:induction false} AllReadable(home: PkbufPool, s: State)
    requires Consistent(home, s)
    ensures View(s).Keys == s.pkbuf.live
  {
    forall p | p in s.pkbuf.live
      ensures Readable(s, p)
    {
      assert OwnsOne(s.cluster, s.buffers, s.metas, s.owner, s.bufs[p].cluster);
    }
  }

  // ---- what the steps keep --------------------------------------------------

  /** The clusters live in `s` still have their buffers in `s'`. */
  ghost predicate SameBuffers(s: State, s': State) {
    forall m :: m in s.cluster.live ==>
      m in s.metas && m in s'.metas && s'.metas[m].size == s.metas[m].size && s'.metas[m].buffer == s.metas[m].buffer
  }

  ghost predicate SharesLive(s: State) {
    forall p :: p in s.pkbuf.live ==> p in s.bufs && s.bufs[p].cluster in s.cluster.live
  }

  lemma {:induction false} SameView(s: State, s': State)
    requires SharesLive(s) && SameBuffers(s, s') && s'.pkbuf.live == s.pkbuf.live && s'.bufs == s.bufs
    ensures View(s') == View(s)
  {
  }

  lemma {:induction false} AttachView(s: State, s': State, p: nat, k: Pkbuf)
    requires SharesLive(s) && SameBuffers(s, s') && k.cluster in s.cluster.live && s.metas[k.cluster].size <= BIG_SIZE
    requires s'.pkbuf.live == s.pkbuf.live + {p} && s'.bufs == s.bufs[p := k] && p !in s.pkbuf.live
    ensures View(s') == View(s)[p := SlotOf(s.metas[k.cluster])]
  {
    var a, b := View(s'), View(s)[p := SlotOf(s.metas[k.cluster])];
    forall q | q in s.pkbuf.live
      ensures q in a <==> q in b
      ensures q in a ==> a[q] == b[q]
    {
      assert s'.bufs[q] == s.bufs[q];
    }
    assert a.Keys == b.Keys;
  }

  lemma {:induction false} DetachView(s: State, s': State, p: nat)
    requires SharesLive(s) && SameBuffers(s, s') && s'.pkbuf.live == s.pkbuf.live - {p} && s'.bufs == s.bufs
    ensures View(s') == View(s) - {p}
  {
    var a, b := View(s'), View(s) - {p};
    assert a.Keys == b.Keys;
  }

  /** cluster_alloc() that finds a buffer: cluster `m` is nobody's yet. */
  ghost function TakeCluster(s: State, c: nat): State
    requires |s.buffers| == CLASSES && c < CLASSES && s.cluster.ring != [] && s.buffers[c].ring != []
  {
    var m, b := s.cluster.ring[0], s.buffers[c].ring[0];
    s.(cluster := Alloc(s.cluster), buffers := s.buffers[c := Alloc(s.buffers[c])],
       metas := s.metas[m := Cluster(b, ClassSize(c), 0)], owner := s.owner[Slot(c, b) := m])
  }

  lemma {:induction false} TakeKeeps(home: PkbufPool, s: State, c: nat)
    requires Consistent(home, s) && c < CLASSES && s.cluster.ring != [] && s.buffers[c].ring != []
    ensures Consistent(home, TakeCluster(s, c)) && View(TakeCluster(s, c)) == View(s)
    ensures s.cluster.ring[0] !in s.cluster.live && TakeCluster(s, c).cluster.live == s.cluster.live + {s.cluster.ring[0]}
  {
    var m, s' := s.cluster.ring[0], TakeCluster(s, c);
    ClusterTaken(s.cluster, s.buffers, s.metas, s.owner, c);
    AllocKeeps(s.cluster);
    NoSharers(home, s, m);
    TakeCounts(s, s', m);
    MetaKnown(s.cluster, s.buffers, s.metas, s.owner);
    SameView(s, s');
  }

  lemma {:induction false} TakeCounts(s: State, s': State, m: nat)
    requires (forall k {:trigger Counted(s, k)} :: k in s.cluster.live ==> Counted(s, k)) && Sharers(s, m) == {}
    requires s'.pkbuf == s.pkbuf && s'.bufs == s.bufs && s'.cluster.live == s.cluster.live + {m}
    requires m in s'.metas && s'.metas[m].refs == 0 && forall k :: k in s.metas && k != m ==> k in s'.metas && s'.metas[k] == s.metas[k]
    ensures forall k {:trigger Counted(s', k)} :: k in s'.cluster.live ==> Counted(s', k)
  {
    forall k | k in s'.cluster.live
      ensures Counted(s', k)
    {
      assert k != m ==> Counted(s, k);
      assert Sharers(s', k) == Sharers(s, k);
    }
  }

  lemma NoSharers(home: PkbufPool, s: State, m: nat)
    requires Homed(home, s) && m !in s.cluster.live
    ensures Sharers(s, m) == {}
  {
  }

  /** The cell of a cluster that is not live does not matter. */
  lemma {:induction false} StaleKeeps(home: PkbufPool, s: State, m: nat, k: Cluster)
    requires Consistent(home, s) && m !in s.cluster.live
    ensures Consistent(home, s.(metas := s.metas[m := k])) && View(s.(metas := s.metas[m := k])) == View(s)
  {
    var s' := s.(metas := s.metas[m := k]);
    StaleClustered(s.cluster, s.buffers, s.metas, s.owner, m, k);
    MetaKnown(s.cluster, s.buffers, s.metas, s.owner);
    forall j | j in s'.cluster.live
      ensures Counted(s', j)
    {
      assert Counted(s, j) && Sharers(s', j) == Sharers(s, j);
    }
    SameView(s, s');
  }

  /** Giving the meta cell back when its class has no buffer. */
  lemma {:induction false} ReturnKeeps(home: PkbufPool, s: State)
    requires Consistent(home, s) && s.cluster.ring != []
    ensures var m := s.cluster.ring[0];
            var s' := s.(cluster := Free(Alloc(s.cluster), m), metas := s.metas[m := Cluster(0, 0, 0)]);
            Consistent(home, s') && View(s') == View(s) && s'.cluster.live == s.cluster.live
  {
    var m := s.cluster.ring[0];
    AllocKeeps(s.cluster);
    FreeKeeps(Alloc(s.cluster), m);
    var s1 := s.(cluster := Free(Alloc(s.cluster), m));
    TurnKeeps(home, s, s1);
    StaleKeeps(home, s1, m, Cluster(0, 0, 0));
  }

  /** The order of the free clusters does not matter. */
  lemma {:induction false} TurnKeeps(home: PkbufPool, s: State, s': State)
    requires Consistent(home, s) && s' == s.(cluster := s'.cluster) && Partitioned(s'.cluster)
    requires s'.cluster.live == s.cluster.live && s'.cluster.size == s.cluster.size
    ensures Consistent(home, s') && View(s') == View(s)
  {
    SameLive(s.cluster, s'.cluster, s.buffers, s.metas, s.owner);
    forall j | j in s'.cluster.live
      ensures Counted(s', j)
    {
      assert Counted(s, j) && Sharers(s', j) == Sharers(s, j);
    }
  }

  /** cluster_free() of a cluster nobody shares. */
  ghost function DropCluster(s: State, m: nat): State
    requires |s.buffers| == CLASSES && m in s.metas && s.metas[m].size <= BIG_SIZE
  {
    var t := SlotOf(s.metas[m]);
    s.(cluster := Free(s.cluster, m), owner := s.owner - {t},
       buffers := s.buffers[t.class_ := Free(s.buffers[t.class_], t.cell)])
  }

  lemma {:induction false} DropKeeps(home: PkbufPool, s: State, m: nat)
    requires Consistent(home, s) && m in s.cluster.live && Sharers(s, m) == {}
    ensures m in s.metas && ProperCluster(s.metas[m]) && SlotOf(s.metas[m]).cell in s.buffers[SlotOf(s.metas[m]).class_].live
    ensures Consistent(home, DropCluster(s, m)) && View(DropCluster(s, m)) == View(s)
    ensures DropCluster(s, m).cluster.live == s.cluster.live - {m}
  {
    ClusterGiven(s.cluster, s.buffers, s.metas, s.owner, m);
    FreeKeeps(s.cluster, m);
    var s' := DropCluster(s, m);
    forall p | p in s.pkbuf.live
      ensures s.bufs[p].cluster != m
    {
      assert s.bufs[p].cluster == m ==> p in Sharers(s, m);
    }
    forall k | k in s'.cluster.live
      ensures Counted(s', k)
    {
      assert Counted(s, k) && Sharers(s', k) == Sharers(s, k);
    }
    MetaKnown(s.cluster, s.buffers, s.metas, s.owner);
    SameView(s, s');
  }

  /** Pkbuf `p` comes to share `k.cluster`. */
  ghost function Attach(s: State, k: Pkbuf): State
    requires s.pkbuf.ring != [] && k.cluster in s.metas
  {
    var c := s.metas[k.cluster];
    s.(pkbuf := Alloc(s.pkbuf), bufs := s.bufs[s.pkbuf.ring[0] := k], metas := s.metas[k.cluster := c.(refs := c.refs + 1)])
  }

  lemma {:induction false} AttachKeeps(home: PkbufPool, s: State, k: Pkbuf)
    requires Consistent(home, s) && s.pkbuf.ring != [] && k.cluster in s.cluster.live && k.pool == home
    ensures k.cluster in s.metas && ProperCluster(s.metas[k.cluster])
    ensures var p := s.pkbuf.ring[0];
            && p !in s.pkbuf.live && Attach(s, k).pkbuf.live == s.pkbuf.live + {p}
            && Consistent(home, Attach(s, k)) && View(Attach(s, k)) == View(s)[p := SlotOf(s.metas[k.cluster])]
  {
    var p := s.pkbuf.ring[0];
    AllocKeeps(s.pkbuf);
    MetaKnown(s.cluster, s.buffers, s.metas, s.owner);
    var s' := Attach(s, k);
    ClusteredRefs(s.cluster, s.buffers, s.metas, s.owner, k.cluster, s.metas[k.cluster].refs + 1);
    AttachCounts(s, s', p, k);
    AttachView(s, s', p, k);
  }

  lemma {:induction false} AttachCounts(s: State, s': State, p: nat, k: Pkbuf)
    requires (forall m {:trigger Counted(s, m)} :: m in s.cluster.live ==> Counted(s, m)) && k.cluster in s.cluster.live
    requires s'.cluster == s.cluster && s'.pkbuf.live == s.pkbuf.live + {p} && p !in s.pkbuf.live && s'.bufs == s.bufs[p := k]
    requires k.cluster in s.metas && s'.metas == s.metas[k.cluster := s.metas[k.cluster].(refs := s.metas[k.cluster].refs + 1)]
    ensures forall m {:trigger Counted(s', m)} :: m in s'.cluster.live ==> Counted(s', m)
  {
    forall m | m in s'.cluster.live
      ensures Counted(s', m)
    {
      assert Counted(s, m) && p !in Sharers(s, m);
      if m == k.cluster {
        assert Sharers(s', m) == Sharers(s, m) + {p};
      } else {
        assert Sharers(s', m) == Sharers(s, m);
      }
    }
  }

  /** Pkbuf `p` stops sharing its cluster and goes back to the pool. */
  ghost function Detach(s: State, p: nat): State
    requires p in s.bufs && s.bufs[p].cluster in s.metas && s.metas[s.bufs[p].cluster].refs > 0
  {
    var m := s.bufs[p].cluster;
    s.(pkbuf := Free(s.pkbuf, p), metas := s.metas[m := s.metas[m].(refs := s.metas[m].refs - 1)])
  }

  lemma {:induction false} DetachKeeps(home: PkbufPool, s: State, p: nat)
    requires Consistent(home, s) && p in s.pkbuf.live
    ensures var m := s.bufs[p].cluster;
            && m in s.cluster.live && m in s.metas && s.metas[m].refs > 0
            && Consistent(home, Detach(s, p)) && View(Detach(s, p)) == View(s) - {p}
            && (s.metas[m].refs == 1 ==> Sharers(Detach(s, p), m) == {})
  {
    var m := s.bufs[p].cluster;
    assert Counted(s, m) && p in Sharers(s, m);
    FreeKeeps(s.pkbuf, p);
    MetaKnown(s.cluster, s.buffers, s.metas, s.owner);
    var s' := Detach(s, p);
    ClusteredRefs(s.cluster, s.buffers, s.metas, s.owner, m, s.metas[m].refs - 1);
    DetachCounts(s, s', p);
    assert Counted(s', m);
    DetachView(s, s', p);
  }

  lemma {:induction false} DetachCounts(s: State, s': State, p: nat)
    requires (forall m {:trigger Counted(s, m)} :: m in s.cluster.live ==> Counted(s, m)) && p in s.pkbuf.live && p in s.bufs
    requires s'.cluster == s.cluster && s'.pkbuf.live == s.pkbuf.live - {p} && s'.bufs == s.bufs
    requires s.bufs[p].cluster in s.metas && s.metas[s.bufs[p].cluster].refs > 0
    requires var m := s.bufs[p].cluster; s'.metas == s.metas[m := s.metas[m].(refs := s.metas[m].refs - 1)]
    ensures forall m {:trigger Counted(s', m)} :: m in s'.cluster.live ==> Counted(s', m)
  {
    forall k | k in s'.cluster.live
      ensures Counted(s', k)
    {
      assert Counted(s, k) && Sharers(s', k) == Sharers(s, k) - {p};
    }
  }

  /** Every live buffer is that of a live pkbuf, and the other way round. */
  lemma {:induction false} BuffersInUse(home: PkbufPool, s: State, c: nat, b: nat)
    requires ValidState(home, s) && c < CLASSES
    ensures b in s.buffers[c].live <==> exists p :: p in View(s) && View(s)[p] == Slot(c, b)
  {
    AllReadable(home, s);
    MetaKnown(s.cluster, s.buffers, s.metas, s.owner);
    if b in s.buffers[c].live {
      var t := Slot(c, b);
      assert OwnedOnce(s.cluster, s.buffers, s.metas, s.owner, t);
      var m := s.owner[t];
      assert Counted(s, m);
      var p :| p in Sharers(s, m);
      assert View(s)[p] == t;
    }
    if p :| p in View(s) && View(s)[p] == Slot(c, b) {
      var m := s.bufs[p].cluster;
      assert OwnsOne(s.cluster, s.buffers, s.metas, s.owner, m);
      assert OwnedOnce(s.cluster, s.buffers, s.metas, s.owner, Slot(c, b));
    }
  }

  class PkbufPool {
    var pkbuf: Pool
    var cluster: Pool
    /** cluster_128 to cluster_big */
    var buffers: seq<Pool>
    var metas: map<nat, Cluster>
    var bufs: map<nat, Pkbuf>
    ghost var owner: map<Slot, nat>

    ghost function Value(): State
      reads this
    {
      State(pkbuf, cluster, buffers, metas, bufs, owner)
    }

    ghost predicate Valid()
      reads this
    {
      ValidState(this, Value())
    }

    ghost predicate CanServe(size: nat)
      requires size <= BIG_SIZE
      reads this`buffers, this`pkbuf
    {
      |buffers| == CLASSES && buffers[ClassOf(size)].ring != [] && pkbuf.ring != []
    }

    /** ogs_pkbuf_pool_create() with the numbers of buffers of each class. */
    constructor (config: seq<nat>)
      requires |config| == CLASSES
      ensures Valid() && View(Value()) == map[] && |buffers| == CLASSES
      ensures forall c :: 0 <= c < CLASSES ==> buffers[c] == Init(config[c])
      ensures pkbuf == Init(config[0] + config[1] + config[2] + config[3] + config[4] + config[5] + config[6] + config[7])
    {
      var total := config[0] + config[1] + config[2] + config[3] + config[4] + config[5] + config[6] + config[7];
      pkbuf, cluster := Init(total), Init(total);
      buffers := seq(CLASSES, c requires 0 <= c < CLASSES => Init(config[c]));
      metas, bufs, owner := map[], map[], map[];
      new;
      InitPartitioned(total);
      forall c | 0 <= c < CLASSES
        ensures Partitioned(buffers[c])
      {
        InitPartitioned(config[c]);
      }
      FreshTotals(buffers, config);
    }

    /** cluster_alloc(): a cluster no pkbuf shares yet, unless its class is out of buffers. */
    method ClusterAlloc(size: nat) returns (r: Option<nat>)
      requires Consistent(this, Value()) && size <= BIG_SIZE
      modifies this`cluster, this`buffers, this`metas, this`owner
      ensures r == None <==> old(buffers[ClassOf(size)].ring) == []
      ensures r == None ==> Consistent(this, Value()) && View(Value()) == old(View(Value())) && cluster.live == old(cluster.live)
      ensures r == None ==> buffers == old(buffers)
      ensures r == None && old(AllShared(Value())) ==> AllShared(Value())
      ensures r.Some? ==> old(cluster.ring) != [] && r == Some(old(cluster.ring)[0])
      ensures r.Some? ==> Value() == TakeCluster(old(Value()), ClassOf(size))
    {
      var c := ClassOf(size);
      MetaKnown(cluster, buffers, metas, owner);
      if cluster.ring == [] {
        if buffers[c].ring != [] {
          MetaSuffices(cluster, buffers, metas, owner, c);
          assert false;
        }
        return None;
      }
      var m := cluster.ring[0];
      AllocKeeps(cluster);
      if buffers[c].ring == [] {
        ReturnKeeps(this, Value());
        cluster := Alloc(cluster);
        metas := metas[m := Cluster(0, 0, 0)];
        cluster := Free(cluster, m);
        return None;
      }
      var b := buffers[c].ring[0];
      cluster := Alloc(cluster);
      buffers := buffers[c := Alloc(buffers[c])];
      metas := metas[m := Cluster(b, ClassSize(c), 0)];
      owner := owner[Slot(c, b) := m];
      return Some(m);
    }

    /** cluster_free() */
    method ClusterFree(m: nat)
      requires |buffers| == CLASSES && m in metas && ProperCluster(metas[m])
      modifies this`cluster, this`buffers, this`owner
      ensures Value() == DropCluster(old(Value()), m)
    {
      var k := metas[m];
      var c := ClassOf(k.size);
      buffers := buffers[c := Free(buffers[c], k.buffer)];
      cluster := Free(cluster, m);
      owner := owner - {Slot(c, k.buffer)};
    }

    /** pkbuf_alloc_from(): a pkbuf on a buffer no other pkbuf uses, or, exactly when the class
        or the pkbuf pool is exhausted, nothing and everything put back. */
    method AllocFrom(size: nat) returns (r: Option<nat>)
      requires Valid() && size <= BIG_SIZE
      modifies this
      ensures Valid() && (r == None <==> !old(CanServe(size)))
      ensures r == None ==> Undisturbed(old(Value()), Value())
      ensures r.Some? ==> Served(old(Value()), size, r.value, Value())
    {
      ghost var s := Value();
      var c := ClassOf(size);
      var r' := ClusterAlloc(size);
      if r' == None {
        return None;
      }
      var m := r'.value;
      if pkbuf.ring == [] {
        TakeUndone(this, s, c);
        ClusterFree(m);
        return None;
      }
      TakeAttached(this, s, size, Pkbuf(m, 0, 0, 0, 0, size, this));
      var p := Bind(Pkbuf(m, 0, 0, 0, 0, size, this));
      return Some(p);
    }

    /** A fresh pkbuf filled in and counted. */
    method Bind(k: Pkbuf) returns (p: nat)
      requires pkbuf.ring != [] && k.cluster in metas
      modifies this`pkbuf, this`metas, this`bufs
      ensures p == old(pkbuf.ring)[0] && Value() == Attach(old(Value()), k)
    {
      var m := k.cluster;
      p := pkbuf.ring[0];
      pkbuf := Alloc(pkbuf);
      metas := metas[m := metas[m].(refs := metas[m].refs + 1)];
      bufs := bufs[p := k];
    }

    /** ogs_pkbuf_free(), in the pool it found in the pkbuf. */
    method Release(p: nat)
      requires Valid() && p in pkbuf.live
      modifies this
      ensures Valid() && View(Value()) == old(View(Value())) - {p} && pkbuf == Free(old(pkbuf), p)
      ensures bufs == old(bufs) && SameSizes(old(buffers), buffers)
    {
      ghost var s := Value();
      var m := bufs[p].cluster;
      DetachKeeps(this, s, p);
      if metas[m].refs > 1 {
        metas := metas[m := metas[m].(refs := metas[m].refs - 1)];
      } else {
        LastKeeps(this, s, p);
        ClusterFree(m);
      }
      pkbuf := Free(pkbuf, p);
    }

    /** ogs_pkbuf_copy_debug(): a second pkbuf on the same buffer. */
    method Copy(p: nat) returns (r: Option<nat>)
      requires Valid() && p in pkbuf.live
      modifies this
      ensures Valid() && (r == None <==> old(bufs[p].end - bufs[p].head) <= 0 || old(pkbuf.ring) == [])
      ensures r == None ==> Value() == old(Value())
      ensures r.Some? ==> Copied(old(Value()), p, r.value, Value())
    {
      var size := bufs[p].end - bufs[p].head;
      if size <= 0 {
        return None;
      }
      if pkbuf.ring == [] {
        return None;
      }
      ghost var s := Value();
      CopyKeeps(this, s, p);
      var q := Bind(bufs[p]);
      return Some(q);
    }

    // The window of a pkbuf (lib/core/ogs-pkbuf.h); the pkbuf is its owner's alone.

    /** `k` is pkbuf `p` with other pointers. */
    method Repoint(p: nat, k: Pkbuf)
      requires Valid() && p in pkbuf.live && k.cluster == bufs[p].cluster && k.pool == bufs[p].pool
      modifies this`bufs
      ensures Valid() && Repointed(old(Value()), p, k, Value())
    {
      RepointKeeps(this, Value(), p, k);
      bufs := bufs[p := k];
    }

    /** ogs_pkbuf_reserve() */
    method Reserve(p: nat, n: int)
      requires Valid() && p in pkbuf.live
      modifies this`bufs
      ensures Valid()
      ensures var k := old(bufs)[p]; Repointed(old(Value()), p, k.(data := k.data + n, tail := k.tail + n), Value())
    {
      var k := bufs[p];
      k := k.(data := k.data + n);
      k := k.(tail := k.tail + n);
      Repoint(p, k);
    }

    /** ogs_pkbuf_put(), which ends the process when the room behind is too small. */
    method Put(p: nat, n: nat) returns (at: int)
      requires Valid() && p in pkbuf.live && bufs[p].end - bufs[p].tail >= n
      modifies this`bufs
      ensures Valid() && at == old(bufs[p].tail)
      ensures var k := old(bufs)[p]; Repointed(old(Value()), p, k.(tail := k.tail + n, len := k.len + n), Value())
    {
      var k := bufs[p];
      at := k.tail;
      k := k.(tail := k.tail + n);
      k := k.(len := k.len + n);
      Repoint(p, k);
    }

    /** ogs_pkbuf_push(), which ends the process when the room in front is too small. */
    method Push(p: nat, n: nat) returns (at: int)
      requires Valid() && p in pkbuf.live && bufs[p].data - bufs[p].head >= n
      modifies this`bufs
      ensures Valid() && at == old(bufs[p].data) - n
      ensures var k := old(bufs)[p]; Repointed(old(Value()), p, k.(data := k.data - n, len := k.len + n), Value())
    {
      var k := bufs[p];
      k := k.(data := k.data - n);
      k := k.(len := k.len + n);
      Repoint(p, k);
      return k.data;
    }

    /** ogs_pkbuf_pull(); nothing (NULL) when there are fewer octets. */
    method Pull(p: nat, n: nat) returns (at: Option<int>)
      requires Valid() && p in pkbuf.live
      modifies this`bufs
      ensures Valid() && (at == None <==> n > old(bufs[p].len)) && (at == None ==> Value() == old(Value()))
      ensures at.Some? ==>
                && at.value == old(bufs[p].data) + n
                && var k := old(bufs)[p]; Repointed(old(Value()), p, k.(data := k.data + n, len := k.len - n), Value())
    {
      var k := bufs[p];
      if n > k.len {
        return None;
      }
      k := k.(len := k.len - n);
      k := k.(data := k.data + n);
      Repoint(p, k);
      return Some(k.data);
    }

    /** ogs_pkbuf_trim(); an error when there are fewer octets. */
    method Trim(p: nat, n: nat) returns (ok: bool)
      requires Valid() && p in pkbuf.live
      modifies this`bufs
      ensures Valid() && (ok <==> n <= old(bufs[p].len)) && (!ok ==> Value() == old(Value()))
      ensures ok ==> var k := old(bufs)[p]; Repointed(old(Value()), p, k.(tail := k.data + n, len := n), Value())
    {
      var k := bufs[p];
      if n > k.len {
        return false;
      }
      k := k.(tail := k.data + n);
      k := k.(len := n);
      Repoint(p, k);
      return true;
    }
  }

  /** Pkbuf `p` has become `k`, and its buffer is as before. */
  ghost predicate Repointed(s: State, p: nat, k: Pkbuf, s': State) {
    s' == s.(bufs := s.bufs[p := k]) && View(s') == View(s)
  }

  lemma {:induction false} RepointKeeps(home: PkbufPool, s: State, p: nat, k: Pkbuf)
    requires ValidState(home, s) && p in s.pkbuf.live && k.cluster == s.bufs[p].cluster && k.pool == s.bufs[p].pool
    ensures ValidState(home, s.(bufs := s.bufs[p := k])) && View(s.(bufs := s.bufs[p := k])) == View(s)
  {
    var s' := s.(bufs := s.bufs[p := k]);
    forall m | m in s'.cluster.live
      ensures Counted(s', m)
    {
      assert Counted(s, m) && Sharers(s', m) == Sharers(s, m);
    }
    RepointView(s, s', p, k);
  }

  lemma {:induction false} RepointView(s: State, s': State, p: nat, k: Pkbuf)
    requires p in s.bufs && k.cluster == s.bufs[p].cluster && s' == s.(bufs := s.bufs[p := k])
    ensures View(s') == View(s)
  {
    forall q
      ensures Readable(s', q) <==> Readable(s, q)
      ensures Readable(s, q) ==> SlotIn(s', q) == SlotIn(s, q)
    {
      assert q in s.bufs ==> s'.bufs[q].cluster == s.bufs[q].cluster;
    }
  }
  /** The same buffers are in use, and each class is exhausted or not as before. */
  ghost predicate SameStock(bs: seq<Pool>, bs': seq<Pool>) {
    SameSizes(bs, bs') && forall c :: 0 <= c < |bs| ==> bs'[c].live == bs[c].live && (bs'[c].ring == [] <==> bs[c].ring == [])
  }

  ghost predicate SameSizes(bs: seq<Pool>, bs': seq<Pool>) {
    |bs'| == |bs| && forall c :: 0 <= c < |bs| ==> bs'[c].size == bs[c].size
  }

  /** A refused request leaves no trace but the order of the free cells. */
  ghost predicate Undisturbed(s: State, s': State) {
    View(s') == View(s) && s'.pkbuf == s.pkbuf && s'.bufs == s.bufs && SameStock(s.buffers, s'.buffers)
  }

  /** Pkbuf `p` of `s'` is new since `s`, of `size` octets, on a buffer free in `s`. */
  ghost predicate Served(s: State, size: nat, p: nat, s': State)
    requires size <= BIG_SIZE
  {
    && |s.buffers| == CLASSES && SameSizes(s.buffers, s'.buffers) && s'.pkbuf.size == s.pkbuf.size
    && p !in s.pkbuf.live && s'.pkbuf.live == s.pkbuf.live + {p}
    && p in s'.bufs && s'.bufs == s.bufs[p := s'.bufs[p]] && Shows(s'.bufs[p], size, Window(0, 0))
    && var c := ClassOf(size);
       && s.buffers[c].ring != [] && s.buffers[c].ring[0] !in s.buffers[c].live
       && View(s') == View(s)[p := Slot(c, s.buffers[c].ring[0])]
  }

  /** Pkbuf `q` of `s'` is new since `s`, a second pkbuf on the buffer of `p`. */
  ghost predicate Copied(s: State, p: nat, q: nat, s': State) {
    && q !in s.pkbuf.live && s'.pkbuf.live == s.pkbuf.live + {q} && s'.pkbuf.size == s.pkbuf.size && s'.buffers == s.buffers
    && p in View(s) && View(s') == View(s)[q := View(s)[p]] && p in s.bufs && s'.bufs == s.bufs[q := s.bufs[p]]
  }

  /** Freeing the last pkbuf on a cluster frees the cluster and its buffer. */
  lemma {:induction false} LastKeeps(home: PkbufPool, s: State, p: nat)
    requires ValidState(home, s) && p in s.pkbuf.live && s.bufs[p].cluster in s.metas && s.metas[s.bufs[p].cluster].refs == 1
    ensures var m := s.bufs[p].cluster;
            && ProperCluster(s.metas[m])
            && var s' := DropCluster(s, m).(pkbuf := Free(s.pkbuf, p));
               ValidState(home, s') && View(s') == View(s) - {p}
  {
    var m := s.bufs[p].cluster;
    MetaKnown(s.cluster, s.buffers, s.metas, s.owner);
    DetachKeeps(home, s, p);
    var d := Detach(s, p);
    DropKeeps(home, d, m);
    StaleKeeps(home, DropCluster(d, m), m, s.metas[m]);
    LastState(s, p);
  }

  /** Dropping a cluster after its last count is taken off, or before, comes to the same but
      for the count left in the dead cell. */
  lemma {:induction false} LastState(s: State, p: nat)
    requires |s.buffers| == CLASSES && p in s.bufs && s.bufs[p].cluster in s.metas
    requires s.metas[s.bufs[p].cluster].refs > 0 && s.metas[s.bufs[p].cluster].size <= BIG_SIZE
    ensures var m := s.bufs[p].cluster;
            var e := DropCluster(Detach(s, p), m);
            e.(metas := e.metas[m := s.metas[m]]) == DropCluster(s, m).(pkbuf := Free(s.pkbuf, p))
  {
    var m := s.bufs[p].cluster;
    assert Detach(s, p).metas[m := s.metas[m]] == s.metas;
  }

  lemma {:induction false} CopyKeeps(home: PkbufPool, s: State, p: nat)
    requires ValidState(home, s) && p in s.pkbuf.live && s.pkbuf.ring != []
    ensures s.bufs[p].cluster in s.metas && p in View(s)
    ensures var s' := Attach(s, s.bufs[p]);
            && ValidState(home, s') && s.pkbuf.ring[0] !in s.pkbuf.live
            && View(s') == View(s)[s.pkbuf.ring[0] := View(s)[p]]
  {
    AllReadable(home, s);
    AttachKeeps(home, s, s.bufs[p]);
  }

  /** Rolling back: the buffer and the meta cell go to the ends of their rings. */
  lemma {:induction false} TakeUndone(home: PkbufPool, s: State, c: nat)
    requires ValidState(home, s) && c < CLASSES && s.cluster.ring != [] && s.buffers[c].ring != []
    ensures var m, s1 := s.cluster.ring[0], TakeCluster(s, c);
            && m in s1.metas && ProperCluster(s1.metas[m])
            && var s2 := DropCluster(s1, m);
               ValidState(home, s2) && View(s2) == View(s) && SameStock(s.buffers, s2.buffers)
  {
    var m, s1 := s.cluster.ring[0], TakeCluster(s, c);
    TakeKeeps(home, s, c);
    NoSharers(home, s, m);
    assert Sharers(s1, m) == Sharers(s, m);
    DropKeeps(home, s1, m);
    StockReturned(s.buffers, c);
    ClassOfSize(c);
  }

  lemma {:induction false} StockReturned(bs: seq<Pool>, c: nat)
    requires c < |bs| && Partitioned(bs[c]) && bs[c].ring != []
    ensures SameStock(bs, bs[c := Alloc(bs[c])][c := Free(Alloc(bs[c]), bs[c].ring[0])])
  {
    AllocKeeps(bs[c]);
    FreeKeeps(Alloc(bs[c]), bs[c].ring[0]);
  }

  lemma {:induction false} TakeAttached(home: PkbufPool, s: State, size: nat, k: Pkbuf)
    requires ValidState(home, s) && size <= BIG_SIZE
    requires s.cluster.ring != [] && s.buffers[ClassOf(size)].ring != [] && s.pkbuf.ring != []
    requires k.cluster == s.cluster.ring[0] && k.pool == home && Shows(k, size, Window(0, 0))
    ensures var s2 := Attach(TakeCluster(s, ClassOf(size)), k);
            ValidState(home, s2) && Served(s, size, s.pkbuf.ring[0], s2)
  {
    var c := ClassOf(size);
    TakeKeeps(home, s, c);
    AttachKeeps(home, TakeCluster(s, c), k);
    ClassOfSize(c);
    AllocKeeps(s.buffers[c]);
  }

  lemma {:induction false} FreshTotals(bs: seq<Pool>, config: seq<nat>)
    requires |bs| == |config| == CLASSES && forall c :: 0 <= c < CLASSES ==> bs[c] == Init(config[c])
    ensures TotalLive(bs) == 0
    ensures TotalSize(bs) == config[0] + config[1] + config[2] + config[3] + config[4] + config[5] + config[6] + config[7]
  {
    assert bs[0..] == bs && bs[8..] == [];
    forall i | 0 <= i < 8
      ensures TotalSize(bs[i..]) == config[i] + TotalSize(bs[i + 1..]) && TotalLive(bs[i..]) == TotalLive(bs[i + 1..])
    {
      assert bs[i..][1..] == bs[i + 1..];
    }
  }

  // ---- the calls of every thread --------------------------------------------

  /** A pkbuf is a cell of the pool it was allocated from. */
  datatype Ref = Ref(home: PkbufPool, cell: nat)

  /** The pool that serves a request: the pool given; or else this thread's pool, and when that
      cannot serve it the default pool. */
  ghost function Server(pool: PkbufPool?, threadPool: PkbufPool?, defaultPool: PkbufPool?, size: nat): PkbufPool?
    requires size <= BIG_SIZE
    reads pool, threadPool, defaultPool
  {
    if pool != null then ServerAmong(null, pool, size) else ServerAmong(threadPool, defaultPool, size)
  }

  ghost function ServerAmong(first: PkbufPool?, second: PkbufPool?, size: nat): PkbufPool?
    requires size <= BIG_SIZE
    reads first, second
  {
    if first != null && first.CanServe(size) then first else if second != null && second.CanServe(size) then second else null
  }

  /** The pool given and no other; or the thread's pool whenever it can serve, and the default pool only
      when that cannot. */
  lemma ServerOrder(pool: PkbufPool?, threadPool: PkbufPool?, defaultPool: PkbufPool?, size: nat)
    requires size <= BIG_SIZE
    ensures pool != null ==> Server(pool, threadPool, defaultPool, size) == if pool.CanServe(size) then pool else null
    ensures pool == null && threadPool != null && threadPool.CanServe(size) ==> Server(pool, threadPool, defaultPool, size) == threadPool
    ensures pool == null && (threadPool == null || !threadPool.CanServe(size)) && defaultPool != null ==>
              Server(pool, threadPool, defaultPool, size) == if defaultPool.CanServe(size) then defaultPool else null
  {
  }

  /** What a request did to a pool: it served the pkbuf `r`, or was left undisturbed. */
  ghost predicate Answered(pool: PkbufPool?, s: State, size: nat, r: Option<Ref>)
    requires size <= BIG_SIZE
    reads pool
  {
    pool != null ==>
      && pool.Valid()
      && if r.Some? && r.value.home == pool then Served(s, size, r.value.cell, pool.Value()) else Undisturbed(s, pool.Value())
  }

  /** ogs_pkbuf_alloc_debug() */
  method Allocate(pool: PkbufPool?, threadPool: PkbufPool?, defaultPool: PkbufPool?, size: nat) returns (r: Option<Ref>)
    requires size <= BIG_SIZE
    requires pool != null ==> pool.Valid()
    requires threadPool != null ==> threadPool.Valid()
    requires defaultPool != null ==> defaultPool.Valid()
    requires pool == null && defaultPool == null ==> Server(pool, threadPool, defaultPool, size) != null
    modifies pool, threadPool, defaultPool
    ensures r == None <==> old(Server(pool, threadPool, defaultPool, size)) == null
    ensures r.Some? ==> r.value.home == old(Server(pool, threadPool, defaultPool, size))
    ensures pool != null ==> Answered(pool, old(pool.Value()), size, r)
    ensures threadPool != null ==> Answered(threadPool, old(threadPool.Value()), size, r)
    ensures defaultPool != null ==> Answered(defaultPool, old(defaultPool.Value()), size, r)
  {
    if pool != null {
      r := AllocateIn(pool, size);
    } else {
      r := AllocateShared(threadPool, defaultPool, size);
    }
  }

  method AllocateShared(threadPool: PkbufPool?, defaultPool: PkbufPool?, size: nat) returns (r: Option<Ref>)
    requires size <= BIG_SIZE
    requires threadPool != null ==> threadPool.Valid()
    requires defaultPool != null ==> defaultPool.Valid()
    requires defaultPool == null ==> ServerAmong(threadPool, defaultPool, size) != null
    modifies threadPool, defaultPool
    ensures r == None <==> old(ServerAmong(threadPool, defaultPool, size)) == null
    ensures r.Some? ==> r.value.home == old(ServerAmong(threadPool, defaultPool, size))
    ensures threadPool != null ==> Answered(threadPool, old(threadPool.Value()), size, r)
    ensures defaultPool != null ==> Answered(defaultPool, old(defaultPool.Value()), size, r)
  {
    if threadPool == null {
      r := AllocateIn(defaultPool, size);
    } else {
      ghost var s := threadPool.Value();
      r := AllocateIn(threadPool, size);
      if r == None {
        r := AllocateNext(threadPool, s, defaultPool, size);
      }
    }
  }

  /** The second attempt; a thread's own pool may be the default pool. */
  method AllocateNext(refused: PkbufPool, ghost s: State, pool: PkbufPool, size: nat) returns (r: Option<Ref>)
    requires size <= BIG_SIZE && pool.Valid() && Answered(refused, s, size, None) && !refused.CanServe(size)
    modifies pool
    ensures r == None <==> !old(pool.CanServe(size))
    ensures r.Some? ==> r.value.home == pool
    ensures Answered(refused, s, size, r)
    ensures Answered(pool, old(pool.Value()), size, r)
  {
    r := AllocateIn(pool, size);
  }

  method AllocateIn(pool: PkbufPool, size: nat) returns (r: Option<Ref>)
    requires size <= BIG_SIZE && pool.Valid()
    modifies pool
    ensures r == None <==> !old(pool.CanServe(size))
    ensures r == None ==> !pool.CanServe(size)
    ensures r.Some? ==> r.value.home == pool
    ensures Answered(pool, old(pool.Value()), size, r)
  {
    var p := pool.AllocFrom(size);
    return if p == None then None else Some(Ref(pool, p.value));
  }

  /** ogs_pkbuf_free(), by any thread: the pkbuf goes back to the pool it came from. */
  method FreePkbuf(r: Ref)
    requires r.home.Valid() && r.cell in r.home.pkbuf.live
    modifies r.home
    ensures r.home.Valid() && View(r.home.Value()) == old(View(r.home.Value())) - {r.cell}
    ensures r.home.pkbuf == Free(old(r.home.pkbuf), r.cell) && r.home.bufs == old(r.home.bufs)
    ensures SameSizes(old(r.home.buffers), r.home.buffers)
  {
    var pool := r.home.bufs[r.cell].pool;
    pool.Release(r.cell);
  }

  /** ogs_pkbuf_copy(), by any thread: the copy is a pkbuf of the same pool. */
  method CopyPkbuf(r: Ref) returns (copy: Option<Ref>)
    requires r.home.Valid() && r.cell in r.home.pkbuf.live
    modifies r.home
    ensures r.home.Valid()
    ensures copy == None <==> old(r.home.bufs[r.cell].end - r.home.bufs[r.cell].head) <= 0 || old(r.home.pkbuf.ring) == []
    ensures copy == None ==> r.home.Value() == old(r.home.Value())
    ensures copy.Some? ==> copy.value.home == r.home && Copied(old(r.home.Value()), r.cell, copy.value.cell, r.home.Value())
  {
    var pool := r.home.bufs[r.cell].pool;
    var q := pool.Copy(r.cell);
    return if q == None then None else Some(Ref(pool, q.value));
  }
}
