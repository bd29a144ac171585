/**
The fixed-size pools of `lib/core/ogs-pool.h`: a circular list of free nodes and an index
table.  A node is the number of its cell in `array`.
*/
module PoolSpec {
  import opened Basics

  /** `ring` lists the free nodes in the order in which they will be handed out. */
  datatype Pool = Pool(size: nat, ring: seq<nat>, live: set<nat>, peak: nat)

  function Init(size: nat): Pool {
    Pool(size, seq(size, i => i), {}, 0)
  }

  lemma InitPartitioned(size: nat)
    ensures Partitioned(Init(size))
  {
    var p := Init(size);
    forall n: nat
      ensures n in p.ring <==> n < p.size
    {
      assert n < size ==> p.ring[n] == n;
    }
  }

  /** Each node is on the ring, once, or live, and never both. */
  ghost predicate Partitioned(p: Pool) {
    && Distinct(p.ring)
    && (forall n :: n in p.live ==> n < p.size)
    && (forall n: nat :: n in p.ring <==> n < p.size && n !in p.live)
  }

  function Alloc(p: Pool): Pool {
    if p.ring == [] then p else
    var p' := Pool(p.size, p.ring[1..], p.live + {p.ring[0]}, p.peak);
    if p.size - |p'.ring| > p.peak then p'.(peak := p.size - |p'.ring|) else p'
  }

  function Free(p: Pool, n: nat): Pool {
    if |p.ring| < p.size then p.(ring := p.ring + [n], live := p.live - {n}) else p
  }

  lemma {:induction false} AllocKeeps(p: Pool)
    requires Partitioned(p)
    ensures Partitioned(Alloc(p))
    ensures p.ring != [] ==> p.ring[0] !in p.live && Alloc(p).live == p.live + {p.ring[0]}
  {
    if p.ring != [] {
      var q := Alloc(p);
      assert forall i :: 0 <= i < |q.ring| ==> q.ring[i] == p.ring[i + 1];
      assert p.ring[0] !in q.ring;
      forall n: nat
        ensures n in q.ring <==> n < q.size && n !in q.live
      {
        assert p.ring == [p.ring[0]] + q.ring;
        assert n in p.ring <==> n == p.ring[0] || n in q.ring;
      }
    }
  }

  lemma {:induction false} FreeKeeps(p: Pool, n: nat)
    requires Partitioned(p) && n in p.live
    ensures Partitioned(Free(p, n)) && Free(p, n) == p.(ring := p.ring + [n], live := p.live - {n})
  {
    SizeSplits(p);
  }

  /** The free and the live nodes together are all of them. */
  lemma {:induction false} SizeSplits(p: Pool)
    requires Partitioned(p)
    ensures |p.ring| + |p.live| == p.size
  {
    RingCount(p.ring);
    assert Elems(p.ring) !! p.live && Elems(p.ring) + p.live == Cells(p.size);
  }

  ghost function Elems(s: seq<nat>): set<nat> {
    set n | n in s
  }

  ghost function Cells(size: nat): (c: set<nat>)
    ensures |c| == size && forall n: nat :: n in c <==> n < size
  {
    if size == 0 then {} else Cells(size - 1) + {size - 1}
  }

  lemma {:induction false} RingCount(s: seq<nat>)
    requires Distinct(s)
    ensures |Elems(s)| == |s|
  {
    if s != [] {
      RingCount(s[1..]);
      assert s == [s[0]] + s[1..];
      assert Elems(s) == {s[0]} + Elems(s[1..]) && s[0] !in Elems(s[1..]);
    } else {
      assert Elems(s) == {};
    }
  }

  // ---- whole runs -----------------------------------------------------------

  datatype Op = Get | Put(node: nat)

  function Step(p: Pool, op: Op): Pool {
    match op
    case Get => Alloc(p)
    case Put(n) => Free(p, n)
  }

  function Run(p: Pool, ops: seq<Op>): Pool {
    if ops == [] then p else Step(Run(p, ops[..|ops| - 1]), ops[|ops| - 1])
  }

  /** Only live nodes are freed. */
  ghost predicate Matched(p: Pool, ops: seq<Op>) {
    forall i :: 0 <= i < |ops| ==> ops[i].Put? ==> ops[i].node in Run(p, ops[..i]).live
  }

  /** The nodes handed out, in order. */
  function Issued(p: Pool, ops: seq<Op>): seq<nat>
    decreases |ops|
  {
    if ops == [] then []
    else (if ops[0].Get? && p.ring != [] then [p.ring[0]] else []) + Issued(Step(p, ops[0]), ops[1..])
  }

  /** Every run of matched calls keeps the partition. */
  lemma {:induction false} RunPartitioned(p: Pool, ops: seq<Op>)
    requires Partitioned(p) && Matched(p, ops)
    ensures Partitioned(Run(p, ops)) && Run(p, ops).size == p.size
  {
    if ops != [] {
      var init, op := ops[..|ops| - 1], ops[|ops| - 1];
      forall i | 0 <= i < |init|
        ensures init[i].Put? ==> init[i].node in Run(p, init[..i]).live
      {
        assert init[..i] == ops[..i];
      }
      RunPartitioned(p, init);
      match op
      case Get => AllocKeeps(Run(p, init));
      case Put(n) => FreeKeeps(Run(p, init), n);
    }
  }

  /** Nodes leave in the order of the ring: what a run hands out begins with the ring, or is
      a beginning of it. */
  lemma {:induction false} RingOrder(p: Pool, ops: seq<Op>)
    ensures Issued(p, ops) <= p.ring || p.ring <= Issued(p, ops)
    decreases |ops|
  {
    if ops != [] {
      RingOrder(Step(p, ops[0]), ops[1..]);
      if ops[0].Get? && p.ring != [] {
        assert p.ring == [p.ring[0]] + p.ring[1..];
      }
    }
  }

  /** A freed node is handed out again only after every node that was free at that moment,
      and then at once. */
  lemma {:induction false} ReissuedLast(p: Pool, n: nat, ops: seq<Op>, j: nat)
    requires Partitioned(p) && n in p.live
    requires j < |Issued(Free(p, n), ops)| && Issued(Free(p, n), ops)[j] == n && n !in Issued(Free(p, n), ops)[..j]
    ensures Issued(Free(p, n), ops)[..j] == p.ring
  {
    var p', out := Free(p, n), Issued(Free(p, n), ops);
    FreeKeeps(p, n);
    RingOrder(p', ops);
    assert n !in p.ring && p'.ring[|p.ring|] == n;
    assert out <= p'.ring || p'.ring <= out;
  }

  function InUse(p: Pool): int {
    p.size - |p.ring|
  }

  /** The largest number of nodes in use at any point of a run. */
  function MostInUse(p: Pool, ops: seq<Op>): int {
    if ops == [] then InUse(p) else
    var before, now := MostInUse(p, ops[..|ops| - 1]), InUse(Run(p, ops));
    if now > before then now else before
  }

  lemma {:induction false} PeakTrue(size: nat, ops: seq<Op>)
    ensures Run(Init(size), ops).peak == MostInUse(Init(size), ops)
  {
    if ops != [] {
      PeakTrue(size, ops[..|ops| - 1]);
      MostNow(Init(size), ops[..|ops| - 1]);
    }
  }

  lemma MostNow(p: Pool, ops: seq<Op>)
    ensures InUse(Run(p, ops)) <= MostInUse(p, ops)
  {
  }
}

module NodePool {
  import opened Basics
  import opened PoolSpec

  datatype Ref = Null | Node(n: nat)

  lemma ModStep(i: nat, size: nat)
    requires i < size
    ensures (i + 1) % size == if i + 1 < size then i + 1 else 0
  {
  }

  lemma WrappedMod(head: nat, i: nat, size: nat)
    requires head < size && i <= size
    ensures Wrapped(head, i, size) == (head + i) % size
  {
    var d := (head + i) / size;
    assert d >= 2 ==> size * d >= size * 2;
    assert d <= 0 ==> size * d <= 0;
  }

  function CellAt(ring: seq<nat>, i: nat): Ref {
    if i < |ring| then Node(ring[i]) else Null
  }

  /** From `head` on the cells hold the nodes of `ring`, then NULL. */
  ghost predicate Laid(cells: seq<Ref>, head: nat, ring: seq<nat>) {
    && head < |cells|
    && forall i {:trigger CellAt(ring, i)} :: 0 <= i < |cells| ==> cells[Wrapped(head, i, |cells|)] == CellAt(ring, i)
  }

  lemma {:induction false} TakeLaid(cells: seq<Ref>, head: nat, ring: seq<nat>)
    requires Laid(cells, head, ring) && 0 < |ring| <= |cells|
    ensures cells[head] == Node(ring[0]) && Laid(cells[head := Null], (head + 1) % |cells|, ring[1..])
  {
    var size, cells', head' := |cells|, cells[head := Null], (head + 1) % |cells|;
    ModStep(head, size);
    assert cells[Wrapped(head, 0, size)] == CellAt(ring, 0);
    forall i | 0 <= i < size
      ensures cells'[Wrapped(head', i, size)] == CellAt(ring[1..], i)
    {
      if i + 1 < size {
        assert cells[Wrapped(head, i + 1, size)] == CellAt(ring, i + 1);
      }
    }
  }

  lemma {:induction false} GiveLaid(cells: seq<Ref>, head: nat, ring: seq<nat>, n: nat)
    requires Laid(cells, head, ring) && |ring| < |cells|
    ensures Laid(cells[Wrapped(head, |ring|, |cells|) := Node(n)], head, ring + [n])
    ensures Wrapped(head, |ring| + 1, |cells|) == (Wrapped(head, |ring|, |cells|) + 1) % |cells|
  {
    var size, at := |cells|, Wrapped(head, |ring|, |cells|);
    ModStep(at, size);
    forall i | 0 <= i < size
      ensures cells[at := Node(n)][Wrapped(head, i, size)] == CellAt(ring + [n], i)
    {
      assert cells[Wrapped(head, i, size)] == CellAt(ring, i);
    }
  }

  class NodePool {
    const size: nat
    var head: nat
    var tail: nat
    var avail: nat
    var peak: nat
    /** `free` */
    var ring: array<Ref>
    var index: array<Ref>
    ghost var p: Pool

    ghost predicate RingOk()
      reads this`head, this`tail, this`avail, this`ring, this`p, ring
    {
      && ring.Length == size && avail == |p.ring| <= size
      && (if size == 0 then head == tail == 0 else Laid(ring[..], head, p.ring) && tail == Wrapped(head, avail, size))
    }

    ghost predicate IndexOk()
      reads this`index, this`p, index
    {
      index.Length == size && forall n :: 0 <= n < size ==> index[n] == if n in p.live then Node(n) else Null
    }

    ghost predicate Valid()
      reads this, ring, index
    {
      RingOk() && IndexOk() && ring != index && p.size == size && p.peak == peak && Partitioned(p)
    }

    /** ogs_pool_init() */
    constructor (size_: nat)
      ensures Valid() && p == Init(size_) && fresh(ring) && fresh(index)
    {
      size, avail, peak := size_, size_, 0;
      head, tail := 0, 0;
      ring := new Ref[size_];
      index := new Ref[size_];
      p := Init(size_);
      new;
      for i := 0 to size_
        invariant fresh(ring) && fresh(index) && ring != index && ring.Length == index.Length == size_
        invariant size == avail == size_ && peak == head == tail == 0 && p == Init(size_)
        invariant forall j :: 0 <= j < i ==> ring[j] == Node(j) && index[j] == Null
      {
        ring[i] := Node(i);
        index[i] := Null;
      }
      InitPartitioned(size_);
      assert forall i :: 0 <= i < size_ ==> ring[..][i] == CellAt(p.ring, i);
    }

    /** `tail` is where `head` and `avail` put it. */
    lemma TailFollows()
      requires Valid() && size > 0
      ensures tail == (head + avail) % size
    {
      WrappedMod(head, avail, size);
    }

    /** ogs_pool_alloc() */
    method Alloc() returns (node: Ref)
      requires Valid()
      modifies this`head, this`avail, this`peak, this`p, ring, index
      ensures Valid() && p == PoolSpec.Alloc(old(p))
      ensures node == if old(p.ring) == [] then Null else Node(old(p.ring)[0])
      ensures node != Null ==> node.n !in old(p.live)
    {
      node := Null;
      if avail > 0 {
        AllocKeeps(p);
        node := TakeHead();
        index[node.n] := node;
        var used := size - avail;
        if used > peak {
          peak := used;
        }
        p := PoolSpec.Alloc(old(p));
      }
    }

    /** The ring's side of ogs_pool_alloc(). */
    method TakeHead() returns (node: Ref)
      requires RingOk() && avail > 0
      modifies this`head, this`avail, this`p, ring
      ensures p == old(p).(ring := old(p.ring)[1..])
      ensures RingOk() && node == Node(old(p.ring)[0])
    {
      TakeLaid(ring[..], head, p.ring);
      ModStep(head, size);
      avail := avail - 1;
      node := ring[head];
      ring[head] := Null;
      head := (head + 1) % size;
      p := p.(ring := p.ring[1..]);
      assert ring[..] == old(ring[..][head := Null]);
    }

    /** ogs_pool_free() of a live node; when every node is free the macro does nothing. */
    method Free(n: nat)
      requires Valid() && n < size && (n in p.live || avail == size)
      modifies this`tail, this`avail, this`p, ring, index
      ensures Valid() && p == PoolSpec.Free(old(p), n)
    {
      SizeSplits(p);
      if avail < size {
        FreeKeeps(p, n);
        GiveTail(n);
        index[n] := Null;
        p := PoolSpec.Free(old(p), n);
      }
    }

    method GiveTail(n: nat)
      requires RingOk() && avail < size
      modifies this`tail, this`avail, this`p, ring
      ensures p == old(p).(ring := old(p.ring) + [n])
      ensures RingOk()
    {
      GiveLaid(ring[..], head, p.ring, n);
      avail := avail + 1;
      ring[tail] := Node(n);
      assert ring[..] == old(ring[..][tail := Node(n)]);
      tail := (tail + 1) % size;
      p := p.(ring := p.ring + [n]);
    }

    /** ogs_pool_find(): the index of a node finds it exactly while it is live. */
    method Find(i: int) returns (node: Ref)
      requires Valid()
      ensures node == if i >= 1 && i - 1 in p.live then Node(i - 1) else Null
    {
      if 0 < i <= size {
        return index[i - 1];
      }
      return Null;
    }
  }
}

/**
The shuffle of `ogs_pool_random_id_generate`: Fisher-Yates driven by xorshift64.
*/
module PoolIds {
  import opened Basics
  import opened PoolSpec

  function Xorshift(seed: bv64): bv64 {
    var a := seed ^ (seed << 13);
    var b := a ^ (a >> 7);
    b ^ (b << 17)
  }

  /** The shifts are 13, 7 and 17. */
  lemma XorshiftOfOne()
    ensures Xorshift(1) == 0x4082_2041
  {
  }

  lemma {:induction false} LeftNonzero(x: bv64)
    requires x != 0
    ensures x ^ (x << 13) != 0 && x ^ (x << 17) != 0
  {
  }

  lemma {:induction false} RightNonzero(x: bv64)
    requires x != 0
    ensures x ^ (x >> 7) != 0
  {
  }

  /** A seed with its lowest bit set never runs the generator into 0, where it would stay. */
  lemma {:induction false} NeverZero(random: bv64, k: nat)
    ensures SeedAfter(random | 1, k) != 0
  {
    if k == 0 {
    } else {
      NeverZero(random, k - 1);
      StepNonzero(SeedAfter(random | 1, k - 1));
    }
  }

  lemma {:induction false} StepNonzero(seed: bv64)
    requires seed != 0
    ensures Xorshift(seed) != 0
  {
    LeftNonzero(seed);
    var a := seed ^ (seed << 13);
    RightNonzero(a);
    LeftNonzero(a ^ (a >> 7));
  }

  ghost predicate IsPermutation(ids: seq<int>) {
    Distinct(ids) && forall v :: v in ids <==> 1 <= v <= |ids|
  }

  /** 1 to `size`, in order. */
  function InOrder(size: nat): seq<int> {
    seq(size, i => i + 1)
  }

  function Swapped<T>(s: seq<T>, i: nat, j: nat): (r: seq<T>)
    requires i < |s| && j < |s|
    ensures |r| == |s|
  {
    s[i := s[j]][j := s[i]]
  }

  /** Position `i` is drawn from 0 to `i`. */
  ghost predicate Draws(draws: seq<nat>) {
    forall i :: 0 <= i < |draws| ==> draws[i] <= i
  }

  /** From position `i` down to 1, each is swapped with the one drawn for it. */
  ghost function Shuffle<T>(s: seq<T>, i: nat, draws: seq<nat>): (r: seq<T>)
    requires i < |s| == |draws| && Draws(draws)
    ensures |r| == |s|
    decreases i
  {
    if i == 0 then s else Shuffle(Swapped(s, i, draws[i]), i - 1, draws)
  }

  /** The seed after `k` steps of the generator. */
  function SeedAfter(seed: bv64, k: nat): bv64 {
    if k == 0 then seed else Xorshift(SeedAfter(seed, k - 1))
  }

  /** The draws a seed gives, the last position first. */
  ghost function DrawsOf(random: bv64, size: nat): (draws: seq<nat>)
    ensures |draws| == size && Draws(draws)
  {
    seq(size, i requires 0 <= i < size => SeedAfter(random | 1, size - i) as int % (i + 1))
  }

  // ---- what shuffling does ---------------------------------------------------

  ghost function Among<T>(s: seq<T>, n: nat): set<T>
    requires n <= |s|
  {
    set k | 0 <= k < n :: s[k]
  }

  /** Both hold the same elements up to `i`, each once, and are equal after. */
  ghost predicate SameUpto<T>(a: seq<T>, b: seq<T>, i: nat)
    requires i < |a| == |b|
  {
    Distinct(a) && Distinct(b) && Among(a, i + 1) == Among(b, i + 1) && forall k :: i < k < |a| ==> a[k] == b[k]
  }

  lemma {:induction false} SwapDistinct<T>(s: seq<T>, i: nat, j: nat)
    requires Distinct(s) && i < |s| && j < |s|
    ensures Distinct(Swapped(s, i, j))
  {
  }

  /** Without the last place. */
  lemma {:induction false} AmongLast<T>(s: seq<T>, i: nat)
    requires Distinct(s) && i < |s|
    ensures Among(s, i) == Among(s, i + 1) - {s[i]}
  {
  }

  /** Where a swap of `i` and `j` puts what was at `k`. */
  function Partner(i: nat, j: nat, k: nat): nat {
    if k == i then j else if k == j then i else k
  }

  lemma SwapAt<T>(s: seq<T>, i: nat, j: nat, k: nat)
    requires i < |s| && j < |s| && k < |s|
    ensures Swapped(s, i, j)[k] == s[Partner(i, j, k)] && Swapped(s, i, j)[Partner(i, j, k)] == s[k]
  {
  }

  lemma {:induction false} SwapAmong<T>(s: seq<T>, i: nat, j: nat, n: nat)
    requires i < n <= |s| && j < n
    ensures Among(Swapped(s, i, j), n) == Among(s, n)
  {
    var r := Swapped(s, i, j);
    forall v | v in Among(s, n)
      ensures v in Among(r, n)
    {
      var k :| 0 <= k < n && s[k] == v;
      SwapAt(s, i, j, k);
      assert r[Partner(i, j, k)] == v;
    }
    forall v | v in Among(r, n)
      ensures v in Among(s, n)
    {
      var k :| 0 <= k < n && r[k] == v;
      SwapAt(s, i, j, k);
      assert s[Partner(i, j, k)] == v;
    }
  }

  /** The rest of a shuffle leaves what is after its position alone. */
  lemma {:induction false} ShuffleAfter<T>(s: seq<T>, i: nat, draws: seq<nat>)
    requires i < |s| == |draws| && Draws(draws)
    ensures forall k :: i < k < |s| ==> Shuffle(s, i, draws)[k] == s[k]
    decreases i
  {
    if i == 0 {
    } else {
      ShuffleAfter(Swapped(s, i, draws[i]), i - 1, draws);
    }
  }

  lemma {:induction false} ShuffleKeeps<T>(s: seq<T>, i: nat, draws: seq<nat>)
    requires i < |s| == |draws| && Draws(draws) && Distinct(s)
    ensures Distinct(Shuffle(s, i, draws)) && Among(Shuffle(s, i, draws), |s|) == Among(s, |s|)
    decreases i
  {
    if i == 0 {
    } else {
      SwapDistinct(s, i, draws[i]);
      SwapAmong(s, i, draws[i], |s|);
      ShuffleKeeps(Swapped(s, i, draws[i]), i - 1, draws);
    }
  }

  lemma {:induction false} SwapStep<T>(a: seq<T>, b: seq<T>, i: nat, j: nat)
    requires j <= i < |a| == |b| && i > 0 && SameUpto(a, b, i) && a[j] == b[i]
    ensures SameUpto(Swapped(a, i, j), b, i - 1)
  {
    var t := Swapped(a, i, j);
    SwapDistinct(a, i, j);
    SwapAmong(a, i, j, i + 1);
    AmongLast(t, i);
    AmongLast(b, i);
  }

  /** Draws that arrange `a` as `b`. */
  lemma {:induction false} Arrange<T>(a: seq<T>, b: seq<T>, i: nat) returns (draws: seq<nat>)
    requires i < |a| == |b| && SameUpto(a, b, i)
    ensures |draws| == |a| && Draws(draws) && Shuffle(a, i, draws) == b
    decreases i
  {
    assert b[i] in Among(b, i + 1);
    var j :| 0 <= j <= i && a[j] == b[i];
    if i == 0 {
      assert a == b;
      draws := seq(|a|, _ => 0);
    } else {
      SwapStep(a, b, i, j);
      var rest := Arrange(Swapped(a, i, j), b, i - 1);
      draws := rest[i := j];
      ShuffleSame(Swapped(a, i, j), i - 1, rest, draws);
    }
  }

  /** Draws above the position do not matter. */
  lemma {:induction false} ShuffleSame<T>(s: seq<T>, i: nat, d: seq<nat>, e: seq<nat>)
    requires i < |s| == |d| == |e| && Draws(d) && Draws(e) && forall k :: 0 <= k <= i ==> d[k] == e[k]
    ensures Shuffle(s, i, d) == Shuffle(s, i, e)
    decreases i
  {
    if i == 0 {
    } else {
      ShuffleSame(Swapped(s, i, d[i]), i - 1, d, e);
    }
  }

  /** Every permutation of 1 to `size` comes from some draws. */
  lemma {:induction false} EveryPermutation(ids: seq<int>) returns (draws: seq<nat>)
    requires ids != [] && IsPermutation(ids)
    ensures |draws| == |ids| && Draws(draws) && Shuffle(InOrder(|ids|), |ids| - 1, draws) == ids
  {
    var start := InOrder(|ids|);
    InOrderPermutes(|ids|);
    SameIds(start, ids);
    SameIds(ids, start);
    draws := Arrange(start, ids, |ids| - 1);
  }

  lemma {:induction false} SameIds(a: seq<int>, b: seq<int>)
    requires IsPermutation(a) && IsPermutation(b) && |a| == |b|
    ensures Among(a, |a|) <= Among(b, |b|)
  {
    forall v | v in Among(a, |a|)
      ensures v in Among(b, |b|)
    {
      assert v in a && v in b;
      var k :| 0 <= k < |b| && b[k] == v;
    }
  }

  lemma {:induction false} PermutationAmong(ids: seq<int>)
    ensures IsPermutation(ids) <==> Distinct(ids) && forall v :: v in Among(ids, |ids|) <==> 1 <= v <= |ids|
  {
    forall v
      ensures v in ids <==> v in Among(ids, |ids|)
    {
      if v in ids {
        var k :| 0 <= k < |ids| && ids[k] == v;
      }
    }
  }

  lemma {:induction false} InOrderPermutes(size: nat)
    ensures IsPermutation(InOrder(size))
  {
    forall v
      ensures v in InOrder(size) <==> 1 <= v <= size
    {
      assert 1 <= v <= size ==> InOrder(size)[v - 1] == v;
    }
  }

  /** And from only one choice of draws: the shuffle favours no permutation. */
  lemma {:induction false} DrawsUnique<T>(s: seq<T>, i: nat, d: seq<nat>, e: seq<nat>, k: nat)
    requires i < |s| == |d| == |e| && Draws(d) && Draws(e) && Distinct(s) && 1 <= k <= i
    requires Shuffle(s, i, d) == Shuffle(s, i, e)
    ensures d[k] == e[k]
    decreases i
  {
    ShuffleAfter(Swapped(s, i, d[i]), i - 1, d);
    ShuffleAfter(Swapped(s, i, e[i]), i - 1, e);
    assert Shuffle(s, i, d)[i] == s[d[i]] && Shuffle(s, i, e)[i] == s[e[i]];
    if k < i {
      SwapDistinct(s, i, d[i]);
      DrawsUnique(Swapped(s, i, d[i]), i - 1, d, e, k);
    }
  }

  /** ogs_pool_random_id_generate(), for every seed the system may give. */
  method RandomIds(ids: array<int>, random: bv64)
    modifies ids
    ensures ids.Length > 0 ==> ids[..] == Shuffle(InOrder(ids.Length), ids.Length - 1, DrawsOf(random, ids.Length))
    ensures IsPermutation(ids[..])
  {
    var seed, size := random | 1, ids.Length;
    for i := 0 to size
      invariant forall k :: 0 <= k < i ==> ids[k] == k + 1
    {
      ids[i] := i + 1;
    }
    assert ids[..] == InOrder(size);
    ShufflePermutes(size, DrawsOf(random, size));
    if size > 0 {
      ShuffleCells(ids, seed, random);
    }
  }

  /** The loop from the last position down. */
  method ShuffleCells(ids: array<int>, start: bv64, ghost random: bv64)
    requires ids.Length > 0 && start == SeedAfter(random | 1, 0)
    modifies ids
    ensures ids[..] == Shuffle(old(ids[..]), ids.Length - 1, DrawsOf(random, ids.Length))
  {
    var seed, i := start, ids.Length - 1;
    ghost var target := Shuffle(ids[..], ids.Length - 1, DrawsOf(random, ids.Length));
    while i > 0
      invariant Remains(ids[..], i, seed, random, target)
      decreases i
    {
      seed := ShuffleOne(ids, seed, i, random, target);
      i := i - 1;
    }
  }

  /** From position `i` on, with that seed, the shuffle makes `s` into `target`. */
  ghost predicate Remains(s: seq<int>, i: int, seed: bv64, random: bv64, target: seq<int>) {
    0 <= i < |s| && seed == SeedAfter(random | 1, |s| - 1 - i) && Shuffle(s, i, DrawsOf(random, |s|)) == target
  }

  /** One turn of that loop. */
  method ShuffleOne(ids: array<int>, seed: bv64, i: nat, ghost random: bv64, ghost target: seq<int>) returns (next: bv64)
    requires i > 0 && Remains(ids[..], i, seed, random, target)
    modifies ids
    ensures Remains(ids[..], i - 1, next, random, target)
  {
    var j;
    next, j := Draw(seed, i, random, ids.Length);
    SwapCells(ids, i, j);
  }

  /** One step of the generator, and the position it draws for `i`. */
  method Draw(seed: bv64, i: nat, ghost random: bv64, ghost size: nat) returns (next: bv64, j: nat)
    requires i < size && seed == SeedAfter(random | 1, size - 1 - i)
    ensures next == SeedAfter(random | 1, size - i) && j <= i && j == DrawsOf(random, size)[i]
  {
    next := Xorshift(seed);
    j := next as int % (i + 1);
  }

  lemma {:induction false} ShufflePermutes(size: nat, draws: seq<nat>)
    requires |draws| == size && Draws(draws)
    ensures IsPermutation(InOrder(size)) && (size > 0 ==> IsPermutation(Shuffle(InOrder(size), size - 1, draws)))
  {
    InOrderPermutes(size);
    if size > 0 {
      ShuffleKeeps(InOrder(size), size - 1, draws);
      PermutationAmong(InOrder(size));
      PermutationAmong(Shuffle(InOrder(size), size - 1, draws));
    }
  }

  /** `temp = ids[i]; ids[i] = ids[j]; ids[j] = temp` */
  method SwapCells(ids: array<int>, i: nat, j: nat)
    requires i < ids.Length && j < ids.Length
    modifies ids
    ensures ids[..] == Swapped(old(ids[..]), i, j)
  {
    var temp := ids[i];
    ids[i] := ids[j];
    ids[j] := temp;
  }

  /** The ids read from live nodes of a pool are pairwise distinct ids. */
  lemma {:induction false} LiveIdsDistinct(p: Pool, ids: seq<int>, m: nat, n: nat)
    requires Partitioned(p) && |ids| == p.size && IsPermutation(ids) && m in p.live && n in p.live
    ensures m < |ids| && n < |ids| && (ids[m] == ids[n] <==> m == n) && 1 <= ids[m] <= p.size
  {
    assert ids[m] in ids;
  }
}
