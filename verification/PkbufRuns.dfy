/**
Whole runs of alloc, copy and free, and of the moves that fill and empty a packet buffer, over any
number of pools: who shares a buffer with whom, what of it each shows, and when a request is
refused.
*/
module PkbufRuns {
  import opened Basics
  import opened PoolSpec
  import opened PkbufSpec
  import opened PkbufPools

  /** How a thread moves the window of a pkbuf it owns. */
  datatype Move = Reserve(offset: int) | Put(n: nat) | Push(n: nat) | Pull(n: nat) | Trim(n: nat)

  /** What a thread does in one pool: one attempt to alloc, a copy or a free, under its mutex, or a
      move of a pkbuf of its own. */
  datatype Section = Try(pool: PkbufPool, size: nat) | Copy(pkbuf: Ref) | Free(pkbuf: Ref) | Shift(pkbuf: Ref, move: Move)

  /** A step of some thread.  An alloc may name a pool, and the thread may have one of its own; when
      that one refuses, the call, known by its number, goes on to the default pool in a step of its
      own, after anything other threads have done. */
  datatype Op =
    | Alloc(call: nat, pool: PkbufPool?, threadPool: PkbufPool?, size: nat)
    | FallBack(call: nat)
    | Direct(section: Section)

  /** A call that is `Trying` has still to fall back.  What names a pkbuf that is not in use is
      skipped, and so is a step of a call that is elsewhere, a put or a push there is no room for,
      which would end the process, and a reserve out of the buffer. */
  datatype Reply = Got(pkbuf: Ref) | Refused | Trying | Freed | Moved(at: int) | Skipped

  /** What a pool was created with. */
  datatype Stock = Stock(pkbufs: nat, buffers: seq<nat>)

  /** The reference for one pool: each alloc founds a family, by the size asked for, a copy joins
      the family of its original and shows what that shows, and no buffer is mentioned. */
  datatype Families = Families(of: map<nat, nat>, made: seq<nat>, shown: map<nat, Window>)

  /** What a move makes of a window in `size` octets, if it stays there. */
  ghost function Moving(w: Window, size: nat, m: Move): Option<Window> {
    match m
    case Reserve(n) => if 0 <= w.data + n <= size - w.len then Some(Window(w.data + n, w.len)) else None
    case Put(n) => if w.data + w.len + n <= size then Some(Window(w.data, w.len + n)) else None
    case Push(n) => if n <= w.data then Some(Window(w.data - n, w.len + n)) else None
    case Pull(n) => if n <= w.len then Some(Window(w.data + n, w.len - n)) else None
    case Trim(n) => if n <= w.len then Some(Window(w.data, n)) else None
  }

  /** Where a put writes; where the octets begin after any other move. */
  ghost function MovedTo(w: Window, m: Move, w': Window): int {
    if m.Put? then w.data + w.len else w'.data
  }

  type Ledger = map<PkbufPool, Families>

  /** The families in use whose requests fall in class `c`. */
  ghost function InUse(f: Families, c: nat): set<nat> {
    set p | p in f.of && f.of[p] < |f.made| && f.made[f.of[p]] <= BIG_SIZE && ClassOf(f.made[f.of[p]]) == c :: f.of[p]
  }

  /** There is a pkbuf left, and a buffer of the class. */
  ghost predicate Serves(st: Stock, f: Families, size: nat)
    requires size <= BIG_SIZE
  {
    |st.buffers| == CLASSES && |InUse(f, ClassOf(size))| < st.buffers[ClassOf(size)] && |f.of| < st.pkbufs
  }

  /** The pool whose mutex a section takes. */
  function PoolOf(a: Section): PkbufPool {
    if a.Try? then a.pool else a.pkbuf.home
  }

  /** The reply a section must get from its pool; which unused cell a new pkbuf is, is left open. */
  ghost predicate PoolRight(st: Stock, f: Families, a: Section, r: Reply) {
    match a
    case Try(h, size) =>
      && size <= BIG_SIZE
      && if Serves(st, f, size) then r.Got? && r.pkbuf.home == h && r.pkbuf.cell !in f.of else r == Refused
    case Copy(Ref(h, c)) => CopyRight(h, st, f, c, r)
    case Free(Ref(_, c)) => r == if c in f.of then Freed else Skipped
    case Shift(Ref(_, c), m) => MoveRight(f, c, m, r)
  }

  /** Of the moves that do not fit, only a pull and a trim are answered. */
  ghost predicate MoveRight(f: Families, c: nat, m: Move, r: Reply) {
    if c !in f.of then r == Skipped
    else
      && f.of[c] < |f.made| && c in f.shown
      && match Moving(f.shown[c], f.made[f.of[c]], m)
         case None => r == if m.Pull? || m.Trim? then Refused else Skipped
         case Some(w) => r == Moved(MovedTo(f.shown[c], m, w))
  }

  /** A copy is refused to a pkbuf of no octets, and when no pkbuf is left. */
  ghost predicate CopyRight(h: PkbufPool, st: Stock, f: Families, c: nat, r: Reply) {
    if c !in f.of then r == Skipped
    else if f.of[c] < |f.made| && f.made[f.of[c]] > 0 && |f.of| < st.pkbufs
    then r.Got? && r.pkbuf.home == h && r.pkbuf.cell !in f.of
    else r == Refused
  }

  ghost function Found(f: Families, c: nat, size: nat): Families {
    Families(f.of[c := |f.made|], f.made + [size], f.shown[c := Window(0, 0)])
  }

  ghost function Join(f: Families, c: nat, original: nat): Families {
    if original in f.of && original in f.shown
    then f.(of := f.of[c := f.of[original]], shown := f.shown[c := f.shown[original]])
    else f
  }

  ghost function Redraw(f: Families, c: nat, m: Move): Families {
    if c in f.of && f.of[c] < |f.made| && c in f.shown && Moving(f.shown[c], f.made[f.of[c]], m).Some?
    then f.(shown := f.shown[c := Moving(f.shown[c], f.made[f.of[c]], m).value])
    else f
  }

  ghost function Leave(f: Families, c: nat): Families {
    f.(of := f.of - {c}, shown := f.shown - {c})
  }

  ghost function PoolStep(f: Families, a: Section, r: Reply): Families {
    match a
    case Try(_, size) => if r.Got? then Found(f, r.pkbuf.cell, size) else f
    case Copy(Ref(_, c)) => if r.Got? then Join(f, r.pkbuf.cell, c) else f
    case Free(Ref(_, c)) => if r.Freed? then Leave(f, c) else f
    case Shift(Ref(_, c), m) => if r.Moved? then Redraw(f, c, m) else f
  }

  ghost predicate SectionRight(st: map<PkbufPool, Stock>, l: Ledger, a: Section, r: Reply) {
    var h := PoolOf(a);
    h in st && h in l && PoolRight(st[h], l[h], a, r)
  }

  ghost function SectionStep(l: Ledger, a: Section, r: Reply): Ledger {
    var h := PoolOf(a);
    if h in l then l[h := PoolStep(l[h], a, r)] else l
  }

  /** The reference: the families of every pool, and the sizes of the calls that have still to fall
      back. */
  datatype Book = Book(ledger: Ledger, waiting: map<nat, nat>)

  /** The section a step comes to, if its call is where the step says. */
  function SectionOf(waiting: map<nat, nat>, defaultPool: PkbufPool?, op: Op): Option<Section> {
    match op
    case Alloc(c, pool, threadPool, size) =>
      var from := if pool != null then pool else if threadPool != null then threadPool else defaultPool;
      if c in waiting || from == null then None else Some(Try(from, size))
    case FallBack(c) => if c !in waiting || defaultPool == null then None else Some(Try(defaultPool, waiting[c]))
    case Direct(a) => Some(a)
  }

  /** Whether a refusal sends the call on to the default pool. */
  predicate FallsBack(op: Op) {
    op.Alloc? && op.pool == null && op.threadPool != null
  }

  function ReplyTo(op: Op, r: Reply): Reply {
    if FallsBack(op) && r == Refused then Trying else r
  }

  /** What the pool itself answered. */
  function Plain(r: Reply): Reply {
    if r == Trying then Refused else r
  }

  function WaitingAfter(waiting: map<nat, nat>, op: Op, r: Reply): map<nat, nat> {
    if op.Alloc? && r == Trying then waiting[op.call := op.size]
    else if op.FallBack? then waiting - {op.call}
    else waiting
  }

  ghost predicate Right(st: map<PkbufPool, Stock>, b: Book, defaultPool: PkbufPool?, op: Op, r: Reply) {
    match SectionOf(b.waiting, defaultPool, op)
    case None => r == Skipped
    case Some(a) => SectionRight(st, b.ledger, a, Plain(r)) && r == ReplyTo(op, Plain(r))
  }

  ghost function Step(b: Book, defaultPool: PkbufPool?, op: Op, r: Reply): Book {
    match SectionOf(b.waiting, defaultPool, op)
    case None => b
    case Some(a) => Book(SectionStep(b.ledger, a, Plain(r)), WaitingAfter(b.waiting, op, r))
  }

  /** Which pool an alloc asks, and what it is told: the pool given and no other; or the thread's pool,
      and only when that cannot serve it the default pool, in a step of its own; or, without either,
      the default pool. */
  lemma {:induction false} PoolOrder(st: map<PkbufPool, Stock>, b: Book, defaultPool: PkbufPool?, op: Op, r: Reply)
    requires Right(st, b, defaultPool, op, r) && (op.Alloc? ==> op.call !in b.waiting) && (op.FallBack? ==> op.call in b.waiting)
    ensures op.Alloc? && op.pool != null ==> Told(st, b.ledger, op.pool, op.size, Refused, r)
    ensures op.Alloc? && op.pool == null && op.threadPool != null ==> Told(st, b.ledger, op.threadPool, op.size, Trying, r)
    ensures op.Alloc? && op.pool == null && op.threadPool == null && defaultPool != null ==>
              Told(st, b.ledger, defaultPool, op.size, Refused, r)
    ensures op.FallBack? && defaultPool != null ==> Told(st, b.ledger, defaultPool, b.waiting[op.call], Refused, r)
    ensures r == Trying ==> op.Alloc? && Step(b, defaultPool, op, r).waiting == b.waiting[op.call := op.size]
  {
  }

  /** `h` was asked for `size` octets: a pkbuf of it if it can serve them, else `refusal`. */
  ghost predicate Told(st: map<PkbufPool, Stock>, l: Ledger, h: PkbufPool, size: nat, refusal: Reply, r: Reply) {
    && h in st && h in l && size <= BIG_SIZE
    && if Serves(st[h], l[h], size) then r.Got? && r.pkbuf.home == h else r == refusal
  }

  ghost function Run(b: Book, defaultPool: PkbufPool?, ops: seq<Op>, rs: seq<Reply>): Book
    requires |rs| == |ops|
  {
    if ops == [] then b
    else Step(Run(b, defaultPool, ops[..|ops| - 1], rs[..|rs| - 1]), defaultPool, ops[|ops| - 1], rs[|rs| - 1])
  }

  /** Every reply of a run is the right one at that point. */
  ghost predicate AllRight(st: map<PkbufPool, Stock>, b: Book, defaultPool: PkbufPool?, ops: seq<Op>, rs: seq<Reply>)
    requires |rs| == |ops|
  {
    ops != [] ==>
      var n := |ops| - 1;
      && AllRight(st, b, defaultPool, ops[..n], rs[..n])
      && Right(st, Run(b, defaultPool, ops[..n], rs[..n]), defaultPool, ops[n], rs[n])
  }

  // ---- one pool against its families ------------------------------------------

  ghost predicate Stocked(s: State, st: Stock) {
    && s.pkbuf.size == st.pkbufs && |s.buffers| == |st.buffers| == CLASSES
    && forall c :: 0 <= c < CLASSES ==> s.buffers[c].size == st.buffers[c]
  }

  /** The family of a pkbuf in use, and its buffer's class. */
  ghost predicate Placed(view: map<nat, Slot>, f: Families, p: nat) {
    && p in view && p in f.of && f.of[p] < |f.made| && f.made[f.of[p]] <= BIG_SIZE
    && view[p].class_ == ClassOf(f.made[f.of[p]])
  }

  /** Two pkbufs in use share a buffer exactly when they are of one family. */
  ghost predicate Shares(view: map<nat, Slot>, f: Families) {
    && view.Keys == f.of.Keys
    && (forall p {:trigger Placed(view, f, p)} :: p in view ==> Placed(view, f, p))
    && (forall p, q :: p in view && q in view ==> (view[p] == view[q] <==> f.of[p] == f.of[q]))
  }

  /** The pointers of each pkbuf in use show what the reference says. */
  ghost predicate Drawn(bufs: map<nat, Pkbuf>, f: Families) {
    forall p {:trigger DrawnAt(bufs, f, p)} :: p in f.of ==> DrawnAt(bufs, f, p)
  }

  ghost predicate DrawnAt(bufs: map<nat, Pkbuf>, f: Families, p: nat)
    requires p in f.of
  {
    p in bufs && f.of[p] < |f.made| && p in f.shown && Shows(bufs[p], f.made[f.of[p]], f.shown[p])
  }

  ghost predicate Agrees(s: State, st: Stock, f: Families) {
    Stocked(s, st) && s.pkbuf.live == f.of.Keys && Shares(View(s), f) && Drawn(s.bufs, f)
  }

  lemma {:induction false} SharesFound(view: map<nat, Slot>, f: Families, p: nat, t: Slot, size: nat)
    requires Shares(view, f) && p !in view && (forall q :: q in view ==> view[q] != t)
    requires size <= BIG_SIZE && t.class_ == ClassOf(size)
    ensures Shares(view[p := t], Found(f, p, size))
  {
    var view', f' := view[p := t], Found(f, p, size);
    forall q | q in view'
      ensures Placed(view', f', q)
    {
      assert q != p ==> Placed(view, f, q);
    }
    forall q, r | q in view' && r in view'
      ensures view'[q] == view'[r] <==> f'.of[q] == f'.of[r]
    {
      assert q != p ==> Placed(view, f, q);
      assert r != p ==> Placed(view, f, r);
    }
  }

  lemma {:induction false} SharesJoin(view: map<nat, Slot>, f: Families, p: nat, c: nat)
    requires Shares(view, f) && c in view && p !in view && c in f.shown
    ensures c in f.of && Shares(view[p := view[c]], Join(f, p, c))
  {
    var view', f' := view[p := view[c]], Join(f, p, c);
    forall q | q in view'
      ensures Placed(view', f', q)
    {
      assert Placed(view, f, if q == p then c else q);
    }
  }

  lemma {:induction false} SharesLeave(view: map<nat, Slot>, f: Families, c: nat)
    requires Shares(view, f)
    ensures Shares(view - {c}, Leave(f, c))
  {
    var view', f' := view - {c}, Leave(f, c);
    forall q | q in view'
      ensures Placed(view', f', q)
    {
      assert Placed(view, f, q);
    }
  }

  // ---- when a pool can serve --------------------------------------------------

  lemma {:induction false} InjectiveCount(m: map<nat, nat>)
    requires forall a, b :: a in m && b in m && m[a] == m[b] ==> a == b
    ensures |m.Values| == |m.Keys|
    decreases |m|
  {
    if m.Keys == {} {
      assert m.Values == {};
    } else {
      var a :| a in m;
      var rest := m - {a};
      InjectiveCount(rest);
      assert m.Keys == rest.Keys + {a};
      assert m[a] !in rest.Values;
      assert m.Values == rest.Values + {m[a]};
    }
  }

  ghost predicate Holds(view: map<nat, Slot>, p: nat, t: Slot) {
    p in view && view[p] == t
  }

  /** The family on a buffer in use. */
  ghost function FamilyOn(view: map<nat, Slot>, f: Families, t: Slot): nat
    requires view.Keys == f.of.Keys && exists p :: Holds(view, p, t)
  {
    var p :| Holds(view, p, t);
    f.of[p]
  }

  /** Each class has as many buffers in use as families. */
  lemma {:induction false} BuffersPerClass(home: PkbufPool, s: State, f: Families, c: nat)
    requires ValidState(home, s) && Shares(View(s), f) && c < CLASSES
    ensures |s.buffers[c].live| == |InUse(f, c)|
  {
    forall b
      ensures b in s.buffers[c].live <==> exists p :: Holds(View(s), p, Slot(c, b))
    {
      LiveHeld(home, s, c, b);
    }
    FamilyPerBuffer(View(s), f, c, s.buffers[c].live);
  }

  lemma {:induction false} FamilyPerBuffer(view: map<nat, Slot>, f: Families, c: nat, live: set<nat>)
    requires Shares(view, f) && forall b :: b in live <==> exists p :: Holds(view, p, Slot(c, b))
    ensures |live| == |InUse(f, c)|
  {
    var on := map b | b in live :: FamilyOn(view, f, Slot(c, b));
    forall a, b | a in on && b in on && on[a] == on[b]
      ensures a == b
    {
      OneBuffer(view, f, Slot(c, a), Slot(c, b));
    }
    InjectiveCount(on);
    FamiliesOn(view, f, c, live, on);
    assert on.Keys == live;
  }

  lemma {:induction false} LiveHeld(home: PkbufPool, s: State, c: nat, b: nat)
    requires ValidState(home, s) && c < CLASSES
    ensures b in s.buffers[c].live <==> exists p :: Holds(View(s), p, Slot(c, b))
  {
    BuffersInUse(home, s, c, b);
    if p :| p in View(s) && View(s)[p] == Slot(c, b) {
      assert Holds(View(s), p, Slot(c, b));
    }
  }

  lemma {:induction false} OneBuffer(view: map<nat, Slot>, f: Families, t: Slot, u: Slot)
    requires Shares(view, f) && (exists p :: Holds(view, p, t)) && (exists p :: Holds(view, p, u))
    requires FamilyOn(view, f, t) == FamilyOn(view, f, u)
    ensures t == u
  {
    var p :| Holds(view, p, t) && f.of[p] == FamilyOn(view, f, t);
    var q :| Holds(view, q, u) && f.of[q] == FamilyOn(view, f, u);
  }

  lemma {:induction false} FamiliesOn(view: map<nat, Slot>, f: Families, c: nat, live: set<nat>, on: map<nat, nat>)
    requires Shares(view, f)
    requires forall b :: b in live <==> exists p :: Holds(view, p, Slot(c, b))
    requires on == map b | b in live :: FamilyOn(view, f, Slot(c, b))
    ensures on.Values == InUse(f, c)
  {
    forall k | k in InUse(f, c)
      ensures k in on.Values
    {
      var p :| p in f.of && f.of[p] == k && f.made[k] <= BIG_SIZE && ClassOf(f.made[k]) == c;
      HolderFamily(view, f, c, p);
      assert on[view[p].cell] == k;
    }
    forall k | k in on.Values
      ensures k in InUse(f, c)
    {
      var b :| b in on && on[b] == k;
      var p :| Holds(view, p, Slot(c, b)) && f.of[p] == FamilyOn(view, f, Slot(c, b));
      assert Placed(view, f, p);
    }
  }

  lemma {:induction false} HolderFamily(view: map<nat, Slot>, f: Families, c: nat, p: nat)
    requires Shares(view, f) && p in f.of && f.of[p] < |f.made| && f.made[f.of[p]] <= BIG_SIZE && ClassOf(f.made[f.of[p]]) == c
    ensures Holds(view, p, Slot(c, view[p].cell)) && FamilyOn(view, f, Slot(c, view[p].cell)) == f.of[p]
  {
    assert Placed(view, f, p);
    var t := Slot(c, view[p].cell);
    assert Holds(view, p, t);
    var q :| Holds(view, q, t) && f.of[q] == FamilyOn(view, f, t);
  }

  /** A pool can serve a request exactly when its families say so. */
  lemma {:induction false} ServesExactly(pool: PkbufPool, st: Stock, f: Families, size: nat)
    requires pool.Valid() && Agrees(pool.Value(), st, f) && size <= BIG_SIZE
    ensures pool.CanServe(size) <==> Serves(st, f, size)
  {
    BuffersPerClass(pool, pool.Value(), f, ClassOf(size));
    SizeSplits(pool.buffers[ClassOf(size)]);
    PkbufsLeft(pool, st, f);
  }

  lemma {:induction false} PkbufsLeft(pool: PkbufPool, st: Stock, f: Families)
    requires pool.Valid() && Agrees(pool.Value(), st, f)
    ensures pool.pkbuf.ring != [] <==> |f.of| < st.pkbufs
  {
    SizeSplits(pool.pkbuf);
    assert |f.of| == |f.of.Keys|;
  }

  // ---- the calls ----------------------------------------------------------------

  lemma {:induction false} AgreesServed(pool: PkbufPool, s: State, st: Stock, f: Families, size: nat, p: nat, s': State)
    requires ValidState(pool, s) && Agrees(s, st, f) && size <= BIG_SIZE && Served(s, size, p, s')
    ensures p !in f.of && Agrees(s', st, Found(f, p, size))
  {
    var c := ClassOf(size);
    var t := Slot(c, s.buffers[c].ring[0]);
    BuffersInUse(pool, s, c, t.cell);
    SharesFound(View(s), f, p, t, size);
    DrawnFound(s.bufs, f, p, size, s'.bufs);
  }

  lemma {:induction false} DrawnFound(bufs: map<nat, Pkbuf>, f: Families, p: nat, size: nat, bufs': map<nat, Pkbuf>)
    requires Drawn(bufs, f) && p !in f.of && p in bufs' && bufs' == bufs[p := bufs'[p]] && Shows(bufs'[p], size, Window(0, 0))
    ensures Drawn(bufs', Found(f, p, size))
  {
    forall q | q in Found(f, p, size).of
      ensures DrawnAt(bufs', Found(f, p, size), q)
    {
      assert q != p ==> DrawnAt(bufs, f, q);
    }
  }

  lemma {:induction false} AgreesCopied(s: State, st: Stock, f: Families, c: nat, p: nat, s': State)
    requires Agrees(s, st, f) && Copied(s, c, p, s')
    ensures p !in f.of && Agrees(s', st, Join(f, p, c))
  {
    assert DrawnAt(s.bufs, f, c);
    SharesJoin(View(s), f, p, c);
    DrawnJoin(s.bufs, f, p, c);
  }

  lemma {:induction false} DrawnJoin(bufs: map<nat, Pkbuf>, f: Families, p: nat, c: nat)
    requires Drawn(bufs, f) && c in f.of && c in bufs
    ensures Drawn(bufs[p := bufs[c]], Join(f, p, c))
  {
    assert DrawnAt(bufs, f, c);
    forall q | q in Join(f, p, c).of
      ensures DrawnAt(bufs[p := bufs[c]], Join(f, p, c), q)
    {
      assert q != p ==> DrawnAt(bufs, f, q);
    }
  }

  lemma {:induction false} AgreesFreed(s: State, st: Stock, f: Families, c: nat, s': State)
    requires Agrees(s, st, f) && View(s') == View(s) - {c} && s'.pkbuf.live == s.pkbuf.live - {c} && s'.pkbuf.size == s.pkbuf.size
    requires s'.bufs == s.bufs && SameSizes(s.buffers, s'.buffers)
    ensures Agrees(s', st, Leave(f, c))
  {
    SharesLeave(View(s), f, c);
    DrawnLeave(s.bufs, f, c);
  }

  lemma {:induction false} DrawnLeave(bufs: map<nat, Pkbuf>, f: Families, c: nat)
    requires Drawn(bufs, f)
    ensures Drawn(bufs, Leave(f, c))
  {
    forall q | q in Leave(f, c).of
      ensures DrawnAt(bufs, Leave(f, c), q)
    {
      assert DrawnAt(bufs, f, q);
    }
  }

  /** A pkbuf whose pointers have moved as the reference says. */
  lemma {:induction false} AgreesMoved(s: State, st: Stock, f: Families, c: nat, m: Move, k: Pkbuf, s': State)
    requires Agrees(s, st, f) && c in f.of && f.of[c] < |f.made| && c in f.shown && Repointed(s, c, k, s')
    requires Moving(f.shown[c], f.made[f.of[c]], m).Some?
    requires Shows(k, f.made[f.of[c]], Moving(f.shown[c], f.made[f.of[c]], m).value)
    ensures Agrees(s', st, Redraw(f, c, m))
  {
    var f' := Redraw(f, c, m);
    SharesRedraw(View(s), f, f');
    forall q | q in f'.of
      ensures DrawnAt(s'.bufs, f', q)
    {
      assert q != c ==> DrawnAt(s.bufs, f, q);
    }
  }

  lemma {:induction false} SharesRedraw(view: map<nat, Slot>, f: Families, f': Families)
    requires Shares(view, f) && f'.of == f.of && f'.made == f.made
    ensures Shares(view, f')
  {
    forall q | q in view
      ensures Placed(view, f', q)
    {
      assert Placed(view, f, q);
    }
  }

  lemma AgreesUndisturbed(s: State, st: Stock, f: Families, s': State)
    requires Agrees(s, st, f) && Undisturbed(s, s')
    ensures Agrees(s', st, f)
  {
  }

  // ---- all the pools ------------------------------------------------------------

  /** A pool of value `s` is sound and agrees with its families. */
  ghost predicate Sound(pool: PkbufPool, s: State, st: Stock, f: Families) {
    ValidState(pool, s) && Agrees(s, st, f)
  }

  ghost predicate Follows(pools: set<PkbufPool>, st: map<PkbufPool, Stock>, l: Ledger)
    reads pools
  {
    st.Keys == l.Keys == pools && forall h :: h in pools ==> Sound(h, h.Value(), st[h], l[h])
  }

  ghost predicate InPools(pools: set<PkbufPool>, a: Section) {
    match a
    case Try(h, size) => h in pools && size <= BIG_SIZE
    case Copy(r) => r.home in pools
    case Free(r) => r.home in pools
    case Shift(r, _) => r.home in pools
  }

  /** A step names pools and pkbufs of `pools`, and nothing larger than the largest class; the
      default pool is there when it is asked. */
  ghost predicate OpOk(pools: set<PkbufPool>, defaultPool: PkbufPool?, op: Op) {
    match op
    case Alloc(_, pool, threadPool, size) =>
      && size <= BIG_SIZE && (pool != null ==> pool in pools) && (threadPool != null ==> threadPool in pools)
      && (pool == null && threadPool == null ==> defaultPool != null)
    case FallBack(_) => defaultPool != null
    case Direct(a) => InPools(pools, a)
  }

  ghost predicate Values(pools: set<PkbufPool>, was: map<PkbufPool, State>)
    reads pools
  {
    was.Keys == pools && forall h :: h in pools ==> h.Value() == was[h]
  }

  ghost predicate AllSound(pools: set<PkbufPool>, was: map<PkbufPool, State>, st: map<PkbufPool, Stock>, l: Ledger) {
    was.Keys == st.Keys == l.Keys == pools && forall h :: h in pools ==> Sound(h, was[h], st[h], l[h])
  }

  ghost function Snapshot(pools: set<PkbufPool>): (was: map<PkbufPool, State>)
    reads pools
    ensures Values(pools, was)
  {
    map h | h in pools :: h.Value()
  }

  lemma {:induction false} FollowsSound(pools: set<PkbufPool>, was: map<PkbufPool, State>, st: map<PkbufPool, Stock>, l: Ledger)
    requires Follows(pools, st, l) && Values(pools, was)
    ensures AllSound(pools, was, st, l)
  {
  }

  /** One attempt, in its pool. */
  method TryIn(h: PkbufPool, size: nat, ghost st: Stock, ghost f: Families) returns (r: Reply)
    requires Sound(h, h.Value(), st, f) && size <= BIG_SIZE
    modifies h
    ensures if Serves(st, f, size) then r.Got? && r.pkbuf.home == h && r.pkbuf.cell !in f.of else r == Refused
    ensures Sound(h, h.Value(), st, if r.Got? then Found(f, r.pkbuf.cell, size) else f)
  {
    ghost var s := h.Value();
    ServesExactly(h, st, f, size);
    var p := AllocateIn(h, size);
    if p == None {
      AgreesUndisturbed(s, st, f, h.Value());
      return Refused;
    }
    AgreesServed(h, s, st, f, size, p.value.cell, h.Value());
    return Got(p.value);
  }

  lemma {:induction false} CopyRefused(h: PkbufPool, st: Stock, f: Families, c: nat)
    requires Sound(h, h.Value(), st, f) && c in h.pkbuf.live
    ensures c in f.of && c in h.bufs
    ensures h.bufs[c].end - h.bufs[c].head <= 0 || h.pkbuf.ring == [] <==>
            !(f.of[c] < |f.made| && f.made[f.of[c]] > 0 && |f.of| < st.pkbufs)
  {
    assert DrawnAt(h.bufs, f, c);
    PkbufsLeft(h, st, f);
  }

  /** A copy, in its pool. */
  method CopyIn(pkbuf: Ref, ghost st: Stock, ghost f: Families) returns (r: Reply)
    requires Sound(pkbuf.home, pkbuf.home.Value(), st, f)
    modifies pkbuf.home
    ensures CopyRight(pkbuf.home, st, f, pkbuf.cell, r)
    ensures Sound(pkbuf.home, pkbuf.home.Value(), st, if r.Got? then Join(f, r.pkbuf.cell, pkbuf.cell) else f)
  {
    var h := pkbuf.home;
    if pkbuf.cell !in h.pkbuf.live {
      return Skipped;
    }
    ghost var s := h.Value();
    CopyRefused(h, st, f, pkbuf.cell);
    var p := CopyPkbuf(pkbuf);
    if p == None {
      return Refused;
    }
    AgreesCopied(s, st, f, pkbuf.cell, p.value.cell, h.Value());
    return Got(p.value);
  }

  /** A free, in its pool. */
  method FreeIn(pkbuf: Ref, ghost st: Stock, ghost f: Families) returns (r: Reply)
    requires Sound(pkbuf.home, pkbuf.home.Value(), st, f)
    modifies pkbuf.home
    ensures r == if pkbuf.cell in f.of then Freed else Skipped
    ensures Sound(pkbuf.home, pkbuf.home.Value(), st, if r.Freed? then Leave(f, pkbuf.cell) else f)
  {
    var h := pkbuf.home;
    if pkbuf.cell !in h.pkbuf.live {
      return Skipped;
    }
    ghost var s := h.Value();
    FreeKeeps(s.pkbuf, pkbuf.cell);
    FreePkbuf(pkbuf);
    AgreesFreed(s, st, f, pkbuf.cell, h.Value());
    return Freed;
  }

  /** What a move answers and makes of a pkbuf that shows `w` of `size` octets. */
  ghost predicate Answers(s: State, c: nat, size: nat, w: Window, m: Move, r: Reply, s': State) {
    match Moving(w, size, m)
    case None => s' == s && r == if m.Pull? || m.Trim? then Refused else Skipped
    case Some(w') => c in s'.bufs && Repointed(s, c, s'.bufs[c], s') && Shows(s'.bufs[c], size, w') && r == Moved(MovedTo(w, m, w'))
  }

  /** A move, in its pool. */
  method MoveIn(pkbuf: Ref, m: Move, ghost st: Stock, ghost f: Families) returns (r: Reply)
    requires Sound(pkbuf.home, pkbuf.home.Value(), st, f)
    modifies pkbuf.home
    ensures MoveRight(f, pkbuf.cell, m, r)
    ensures Sound(pkbuf.home, pkbuf.home.Value(), st, if r.Moved? then Redraw(f, pkbuf.cell, m) else f)
  {
    var h, c := pkbuf.home, pkbuf.cell;
    if c !in h.pkbuf.live {
      return Skipped;
    }
    ghost var s := h.Value();
    assert DrawnAt(h.bufs, f, c);
    r := MoveOne(h, c, m, f.made[f.of[c]], f.shown[c]);
    AnswersRight(s, st, f, c, m, r, h.Value());
  }

  lemma {:induction false} AnswersRight(s: State, st: Stock, f: Families, c: nat, m: Move, r: Reply, s': State)
    requires Agrees(s, st, f) && c in f.of && DrawnAt(s.bufs, f, c) && Answers(s, c, f.made[f.of[c]], f.shown[c], m, r, s')
    ensures MoveRight(f, c, m, r) && Agrees(s', st, if r.Moved? then Redraw(f, c, m) else f)
  {
    if r.Moved? {
      AgreesMoved(s, st, f, c, m, s'.bufs[c], s');
    }
  }

  method MoveOne(h: PkbufPool, c: nat, m: Move, ghost size: nat, ghost w: Window) returns (r: Reply)
    requires h.Valid() && c in h.pkbuf.live && Shows(h.bufs[c], size, w)
    modifies h`bufs
    ensures h.Valid() && Answers(old(h.Value()), c, size, w, m, r, h.Value())
  {
    match m
    case Reserve(n) => r := ReserveOne(h, c, n, size, w);
    case Put(n) => r := PutOne(h, c, n, size, w);
    case Push(n) => r := PushOne(h, c, n, size, w);
    case Pull(n) => r := PullOne(h, c, n, size, w);
    case Trim(n) => r := TrimOne(h, c, n, size, w);
  }

  method ReserveOne(h: PkbufPool, c: nat, n: int, ghost size: nat, ghost w: Window) returns (r: Reply)
    requires h.Valid() && c in h.pkbuf.live && Shows(h.bufs[c], size, w)
    modifies h`bufs
    ensures h.Valid() && Answers(old(h.Value()), c, size, w, Reserve(n), r, h.Value())
  {
    var k := h.bufs[c];
    if k.data + n < k.head || k.end < k.tail + n {
      return Skipped;
    }
    h.Reserve(c, n);
    return Moved(h.bufs[c].data);
  }

  method PutOne(h: PkbufPool, c: nat, n: nat, ghost size: nat, ghost w: Window) returns (r: Reply)
    requires h.Valid() && c in h.pkbuf.live && Shows(h.bufs[c], size, w)
    modifies h`bufs
    ensures h.Valid() && Answers(old(h.Value()), c, size, w, Move.Put(n), r, h.Value())
  {
    if h.bufs[c].end - h.bufs[c].tail < n {
      return Skipped;
    }
    var at := h.Put(c, n);
    return Moved(at);
  }

  method PushOne(h: PkbufPool, c: nat, n: nat, ghost size: nat, ghost w: Window) returns (r: Reply)
    requires h.Valid() && c in h.pkbuf.live && Shows(h.bufs[c], size, w)
    modifies h`bufs
    ensures h.Valid() && Answers(old(h.Value()), c, size, w, Push(n), r, h.Value())
  {
    if h.bufs[c].data - h.bufs[c].head < n {
      return Skipped;
    }
    var at := h.Push(c, n);
    return Moved(at);
  }

  method PullOne(h: PkbufPool, c: nat, n: nat, ghost size: nat, ghost w: Window) returns (r: Reply)
    requires h.Valid() && c in h.pkbuf.live && Shows(h.bufs[c], size, w)
    modifies h`bufs
    ensures h.Valid() && Answers(old(h.Value()), c, size, w, Pull(n), r, h.Value())
  {
    var at := h.Pull(c, n);
    return if at == None then Refused else Moved(at.value);
  }

  method TrimOne(h: PkbufPool, c: nat, n: nat, ghost size: nat, ghost w: Window) returns (r: Reply)
    requires h.Valid() && c in h.pkbuf.live && Shows(h.bufs[c], size, w)
    modifies h`bufs
    ensures h.Valid() && Answers(old(h.Value()), c, size, w, Trim(n), r, h.Value())
  {
    var ok := h.Trim(c, n);
    return if ok then Moved(h.bufs[c].data) else Refused;
  }

  /** A call on one pool leaves the others as they were. */
  lemma {:induction false} OthersFollow(pools: set<PkbufPool>, h: PkbufPool, was: map<PkbufPool, State>, st: map<PkbufPool, Stock>,
                                        l: Ledger, l': Ledger)
    requires h in pools && l'.Keys == pools && AllSound(pools, was, st, l)
    requires forall g :: g in pools && g != h ==> g.Value() == was[g] && l'[g] == l[g]
    requires Sound(h, h.Value(), st[h], l'[h])
    ensures Follows(pools, st, l')
  {
  }

  method SectionIn(h: PkbufPool, a: Section, ghost st: Stock, ghost f: Families) returns (r: Reply)
    requires h == PoolOf(a) && Sound(h, h.Value(), st, f) && (a.Try? ==> a.size <= BIG_SIZE)
    modifies h
    ensures PoolRight(st, f, a, r) && r != Trying && Sound(h, h.Value(), st, PoolStep(f, a, r))
  {
    match a
    case Try(_, size) => r := TryIn(h, size, st, f);
    case Copy(pkbuf) => r := CopyIn(pkbuf, st, f);
    case Free(pkbuf) => r := FreeIn(pkbuf, st, f);
    case Shift(pkbuf, m) => r := MoveIn(pkbuf, m, st, f);
  }

  method InvokeSection(ghost pools: set<PkbufPool>, h: PkbufPool, a: Section, ghost st: map<PkbufPool, Stock>, ghost l: Ledger)
    returns (r: Reply)
    requires Follows(pools, st, l) && h == PoolOf(a) && h in pools && (a.Try? ==> a.size <= BIG_SIZE)
    modifies h
    ensures SectionRight(st, l, a, r) && r != Trying && Follows(pools, st, SectionStep(l, a, r))
  {
    ghost var was := Snapshot(pools);
    FollowsSound(pools, was, st, l);
    r := SectionIn(h, a, st[h], l[h]);
    StepLocal(l, a, r);
    OthersFollow(pools, h, was, st, l, SectionStep(l, a, r));
  }

  lemma StepLocal(l: Ledger, a: Section, r: Reply)
    requires PoolOf(a) in l
    ensures SectionStep(l, a, r).Keys == l.Keys && SectionStep(l, a, r)[PoolOf(a)] == PoolStep(l[PoolOf(a)], a, r)
    ensures forall g :: g in l && g != PoolOf(a) ==> SectionStep(l, a, r)[g] == l[g]
  {
  }

  /** `waiting` is what the threads themselves remember. */
  ghost predicate Keeps(pools: set<PkbufPool>, waiting: map<nat, nat>, st: map<PkbufPool, Stock>, b: Book)
    reads pools
  {
    Follows(pools, st, b.ledger) && b.waiting == waiting && SizesOk(waiting)
  }

  ghost predicate SizesOk(waiting: map<nat, nat>) {
    forall c :: c in waiting ==> waiting[c] <= BIG_SIZE
  }

  lemma SectionInPools(pools: set<PkbufPool>, waiting: map<nat, nat>, defaultPool: PkbufPool?, op: Op)
    requires OpOk(pools, defaultPool, op) && (defaultPool != null ==> defaultPool in pools) && SizesOk(waiting)
    ensures SectionOf(waiting, defaultPool, op).Some? ==> InPools(pools, SectionOf(waiting, defaultPool, op).value)
  {
  }

  lemma SizesKept(pools: set<PkbufPool>, waiting: map<nat, nat>, defaultPool: PkbufPool?, op: Op, r: Reply)
    requires OpOk(pools, defaultPool, op) && SizesOk(waiting)
    ensures SizesOk(WaitingAfter(waiting, op, r))
  {
  }

  method Invoke(ghost pools: set<PkbufPool>, defaultPool: PkbufPool?, op: Op, waiting: map<nat, nat>,
                ghost st: map<PkbufPool, Stock>, ghost b: Book)
    returns (r: Reply, waiting': map<nat, nat>)
    requires Keeps(pools, waiting, st, b) && OpOk(pools, defaultPool, op) && (defaultPool != null ==> defaultPool in pools)
    modifies pools
    ensures Right(st, b, defaultPool, op, r) && Keeps(pools, waiting', st, Step(b, defaultPool, op, r))
  {
    SectionInPools(pools, waiting, defaultPool, op);
    var a := SectionOf(waiting, defaultPool, op);
    if a == None {
      return Skipped, waiting;
    }
    var s := InvokeSection(pools, PoolOf(a.value), a.value, st, b.ledger);
    StepTaken(st, b, defaultPool, op, a.value, s);
    r := ReplyTo(op, s);
    waiting' := WaitingAfter(waiting, op, r);
    SizesKept(pools, waiting, defaultPool, op, r);
  }

  lemma StepTaken(st: map<PkbufPool, Stock>, b: Book, defaultPool: PkbufPool?, op: Op, a: Section, s: Reply)
    requires SectionOf(b.waiting, defaultPool, op) == Some(a) && SectionRight(st, b.ledger, a, s) && s != Trying
    ensures var r := ReplyTo(op, s);
            && Right(st, b, defaultPool, op, r)
            && Step(b, defaultPool, op, r) == Book(SectionStep(b.ledger, a, s), WaitingAfter(b.waiting, op, r))
  {
    assert Plain(ReplyTo(op, s)) == s;
  }

  /** Every pkbuf in use lies in its own buffer, its octets between the ends of its window. */
  lemma {:induction false} InOwnBuffer(pools: set<PkbufPool>, st: map<PkbufPool, Stock>, l: Ledger, h: PkbufPool, p: nat)
    requires Follows(pools, st, l) && h in pools && p in h.pkbuf.live
    ensures p in h.bufs && p in View(h.Value()) && View(h.Value())[p].class_ < CLASSES
    ensures var k := h.bufs[p];
            0 <= k.head <= k.data <= k.tail <= k.end <= ClassSize(View(h.Value())[p].class_) && k.tail - k.data == k.len
  {
    var f := l[h];
    assert Sound(h, h.Value(), st[h], f);
    assert DrawnAt(h.bufs, f, p) && Placed(View(h.Value()), f, p);
  }

  // ---- whole runs -----------------------------------------------------------------

  ghost function StockOf(s: State): Stock {
    Stock(s.pkbuf.size, seq(|s.buffers|, c requires 0 <= c < |s.buffers| => s.buffers[c].size))
  }

  ghost function Stocks(pools: set<PkbufPool>): map<PkbufPool, Stock>
    reads pools
  {
    map h | h in pools :: StockOf(h.Value())
  }

  ghost function NoFamilies(pools: set<PkbufPool>): Ledger {
    map h | h in pools :: Families(map[], [], map[])
  }

  /** Nothing is in use yet. */
  ghost predicate Unused(pools: set<PkbufPool>)
    reads pools
  {
    forall h :: h in pools ==> h.Valid() && View(h.Value()) == map[]
  }

  lemma {:induction false} UnusedFollows(pools: set<PkbufPool>)
    requires Unused(pools)
    ensures Follows(pools, Stocks(pools), NoFamilies(pools))
  {
    forall h | h in pools
      ensures Sound(h, h.Value(), Stocks(pools)[h], NoFamilies(pools)[h])
    {
      AllReadable(h, h.Value());
    }
  }

  lemma {:induction false} RunMore(st: map<PkbufPool, Stock>, b: Book, defaultPool: PkbufPool?, ops: seq<Op>, n: nat,
                                   rs: seq<Reply>, r: Reply)
    requires n < |ops| && |rs| == n && AllRight(st, b, defaultPool, ops[..n], rs)
    requires Right(st, Run(b, defaultPool, ops[..n], rs), defaultPool, ops[n], r)
    ensures AllRight(st, b, defaultPool, ops[..n + 1], rs + [r])
    ensures Run(b, defaultPool, ops[..n + 1], rs + [r]) == Step(Run(b, defaultPool, ops[..n], rs), defaultPool, ops[n], r)
  {
    assert ops[..n + 1][..n] == ops[..n] && (rs + [r])[..n] == rs;
  }

  /** Over every interleaving of the steps of any threads, from pools nothing is in use of,
      rolled-back failures included: an alloc is served by the pool given, or by the thread's pool
      if that can serve it at that moment, or else by the default pool if that can when it is
      asked, and refused exactly when the last pool asked has no pkbuf or no buffer of the class
      left; and at the end two pkbufs of a pool share a buffer exactly when one alloc and copies of
      it made them both. */
  method Replay(ghost pools: set<PkbufPool>, defaultPool: PkbufPool?, ops: seq<Op>) returns (rs: seq<Reply>)
    requires Unused(pools) && (defaultPool != null ==> defaultPool in pools)
    requires forall i :: 0 <= i < |ops| ==> OpOk(pools, defaultPool, ops[i])
    modifies pools
    ensures |rs| == |ops| && AllRight(old(Stocks(pools)), Book(NoFamilies(pools), map[]), defaultPool, ops, rs)
    ensures Follows(pools, old(Stocks(pools)), Run(Book(NoFamilies(pools), map[]), defaultPool, ops, rs).ledger)
  {
    UnusedFollows(pools);
    rs := ReplayFrom(pools, defaultPool, ops, Stocks(pools), Book(NoFamilies(pools), map[]));
  }

  method ReplayFrom(ghost pools: set<PkbufPool>, defaultPool: PkbufPool?, ops: seq<Op>, ghost st: map<PkbufPool, Stock>, ghost b: Book)
    returns (rs: seq<Reply>)
    requires Keeps(pools, map[], st, b) && (defaultPool != null ==> defaultPool in pools)
    requires forall i :: 0 <= i < |ops| ==> OpOk(pools, defaultPool, ops[i])
    modifies pools
    ensures |rs| == |ops| && AllRight(st, b, defaultPool, ops, rs) && Follows(pools, st, Run(b, defaultPool, ops, rs).ledger)
  {
    rs := [];
    var waiting: map<nat, nat> := map[];
    assert ops[..0] == [] && ops[..|ops|] == ops;
    for n := 0 to |ops|
      invariant |rs| == n && AllRight(st, b, defaultPool, ops[..n], rs)
      invariant Keeps(pools, waiting, st, Run(b, defaultPool, ops[..n], rs))
    {
      rs, waiting := ReplayNext(pools, defaultPool, ops, n, rs, waiting, st, b);
    }
  }

  method ReplayNext(ghost pools: set<PkbufPool>, defaultPool: PkbufPool?, ops: seq<Op>, n: nat, before: seq<Reply>,
                    waiting: map<nat, nat>, ghost st: map<PkbufPool, Stock>, ghost b: Book)
    returns (rs: seq<Reply>, waiting': map<nat, nat>)
    requires n < |ops| && OpOk(pools, defaultPool, ops[n]) && (defaultPool != null ==> defaultPool in pools)
    requires |before| == n && AllRight(st, b, defaultPool, ops[..n], before)
    requires Keeps(pools, waiting, st, Run(b, defaultPool, ops[..n], before))
    modifies pools
    ensures |rs| == n + 1 && AllRight(st, b, defaultPool, ops[..n + 1], rs)
    ensures Keeps(pools, waiting', st, Run(b, defaultPool, ops[..n + 1], rs))
  {
    var r;
    r, waiting' := Invoke(pools, defaultPool, ops[n], waiting, st, Run(b, defaultPool, ops[..n], before));
    RunMore(st, b, defaultPool, ops, n, before, r);
    rs := before + [r];
  }
}
