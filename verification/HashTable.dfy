/**
 lib/core/ogs-hash.c: a chained hash table over byte-string keys, proved against
 a finite map.  The hash function is arbitrary; `hash & max` is written
 `hash % (max + 1)`, which is the same because `max` is always 2^n - 1.
 */
module HashTable {
  import opened Basics

  type Key = seq<Byte>

  /** INITIAL_MAX */
  const INITIAL_MAX := 15

  class Entry {
    var next: Entry?
    var hash: nat
    var key: Key
    /** the memory `key` points to */
    var mem: object
    var val: object

    constructor (mem_: object, val_: object)
      ensures next == null && mem == mem_ && val == val_
    {
      next, hash, key, mem, val := null, 0, [], mem_, val_;
    }
  }

  /** What a table holds for a key: the value, and the memory its entry reads the key from. */
  datatype Binding = Binding(val: object, mem: object)

  ghost function Bindings(at: map<Key, Entry>): map<Key, Binding>
    reads at.Values`val, at.Values`mem
  {
    map k | k in at :: Binding(at[k].val, at[k].mem)
  }

  lemma BindingsChange(at: map<Key, Entry>, key: Key, he: Entry)
    ensures Bindings(at - {key}) == Bindings(at) - {key}
    ensures Bindings(at[key := he]) == Bindings(at)[key := Binding(he.val, he.mem)]
  {
    MapEq(Bindings(at - {key}), Bindings(at) - {key});
    MapEq(Bindings(at[key := he]), Bindings(at)[key := Binding(he.val, he.mem)]);
  }

  /** The mask after a call that leaves `count` entries: the table doubles exactly when it is overfull. */
  function Grown(max: nat, count: nat): nat {
    if count > max then 2 * max + 1 else max
  }

  /** A present key keeps the memory its entry was made with. */
  function Rebound(m: map<Key, Binding>, key: Key, mem: object, val: object): map<Key, Binding> {
    m[key := Binding(val, if key in m then m[key].mem else mem)]
  }

  // ---- what the pointers stand for ------------------------------------------

  /** Following `next` from `head` meets exactly `es` and then NULL. */
  ghost predicate Linked(head: Entry?, es: seq<Entry>)
    reads (set e | e in es)`next
  {
    && head == (if es == [] then null else es[0])
    && forall i {:trigger es[i].next} :: 0 <= i < |es| ==>
         es[i].next == if i + 1 < |es| then es[i + 1] else null
  }

  lemma {:induction false} LinkedRest(head: Entry, es: seq<Entry>)
    requires Linked(head, es)
    ensures es != [] && es[0] == head && Linked(head.next, es[1..])
  {
    assert es[0].next == if 1 < |es| then es[1] else null;
    assert forall j :: 0 <= j < |es| - 1 ==> es[1..][j] == es[j + 1];
  }

  ghost predicate IsPow2(n: nat) {
    n == 1 || (n > 1 && n % 2 == 0 && IsPow2(n / 2))
  }

  /** The entries of each bucket in chain order, the entry of each key, and the set of
      all of them. */
  datatype Layout = Layout(chains: seq<seq<Entry>>, at: map<Key, Entry>, live: set<Entry>)

  /** Bucket `b` is linked as the layout says, without repetition. */
  ghost predicate ChainOk(g: Layout, b: nat, head: Entry?)
    requires b < |g.chains|
    reads g.live`next
  {
    && (forall i :: 0 <= i < |g.chains[b]| ==> g.chains[b][i] in g.live)
    && Linked(head, g.chains[b]) && Distinct(g.chains[b])
  }

  ghost predicate ChainsOk(g: Layout, buckets: array<Entry?>)
    reads buckets, g.live`next
  {
    && buckets.Length == |g.chains|
    && forall b {:trigger ChainOk(g, b, buckets[b])} :: 0 <= b < |g.chains| ==> ChainOk(g, b, buckets[b])
  }

  /** Entry `e` belongs in bucket `b` and is the entry of its key. */
  ghost predicate InPlace(g: Layout, h: Key -> nat, b: nat, e: Entry)
    reads g.live`key, g.live`hash
  {
    e in g.live && e.hash == h(e.key) && |g.chains| > 0 && e.hash % |g.chains| == b && e.key in g.at && g.at[e.key] == e
  }

  ghost predicate KeysOk(g: Layout, h: Key -> nat, b: nat)
    requires b < |g.chains|
    reads g.live`key, g.live`hash
  {
    forall i :: 0 <= i < |g.chains[b]| ==> InPlace(g, h, b, g.chains[b][i])
  }

  /** Key `k` is found through its bucket. */
  ghost predicate HomeOk(g: Layout, h: Key -> nat, k: Key)
    requires k in g.at
    reads g.live`key
  {
    && g.at[k] in g.live && g.at[k].key == k
    && |g.chains| > 0 && g.at[k] in g.chains[h(k) % |g.chains|]
  }

  /** Buckets and keys agree: one entry per key, in the bucket of its hash. */
  ghost predicate Keyed(g: Layout, h: Key -> nat)
    reads g.live`key, g.live`hash
  {
    && |g.chains| > 0
    && (forall b {:trigger KeysOk(g, h, b)} :: 0 <= b < |g.chains| ==> KeysOk(g, h, b))
    && (forall k {:trigger HomeOk(g, h, k)} :: k in g.at ==> HomeOk(g, h, k))
  }

  ghost function SetOf(es: seq<Entry>): set<Entry> {
    set e | e in es
  }

  /** An entry lies in no bucket but its own. */
  lemma {:induction false} OtherChains(g: Layout, h: Key -> nat, b: nat, e: Entry)
    requires Keyed(g, h) && b < |g.chains| && e in g.chains[b]
    ensures forall c, i :: 0 <= c < |g.chains| && c != b && 0 <= i < |g.chains[c]| ==> g.chains[c][i] != e
  {
    assert KeysOk(g, h, b);
    forall c, i | 0 <= c < |g.chains| && c != b && 0 <= i < |g.chains[c]|
      ensures g.chains[c][i] != e
    {
      assert KeysOk(g, h, c) && InPlace(g, h, c, g.chains[c][i]);
    }
  }

  ghost function Appended(g: Layout, h: Key -> nat, e: Entry, k: Key): Layout
    requires |g.chains| > 0
  {
    var b := h(k) % |g.chains|;
    Layout(g.chains[b := g.chains[b] + [e]], g.at[k := e], g.live + {e})
  }

  lemma {:induction false} AppendKeyed(g: Layout, h: Key -> nat, e: Entry)
    requires Keyed(g, h) && e !in g.live && e.key !in g.at && e.hash == h(e.key)
    ensures Keyed(Appended(g, h, e, e.key), h)
  {
    var g' := Appended(g, h, e, e.key);
    forall b | 0 <= b < |g'.chains|
      ensures KeysOk(g', h, b)
    {
      assert KeysOk(g, h, b);
    }
    forall k | k in g'.at
      ensures HomeOk(g', h, k)
    {
      assert k != e.key ==> HomeOk(g, h, k);
    }
  }

  /** Taking the `i`-th entry out of bucket `b`. */
  ghost function Cut(s: seq<Entry>, i: nat): seq<Entry>
    requires i < |s|
  {
    s[..i] + s[i + 1..]
  }

  ghost function Removed(g: Layout, b: nat, i: nat, k: Key): Layout
    requires b < |g.chains| && i < |g.chains[b]|
  {
    Layout(g.chains[b := Cut(g.chains[b], i)], g.at - {k}, g.live - {g.chains[b][i]})
  }

  /** `g'` is `g` without the entry of `k`, the `i`-th of its chain. */
  ghost predicate Cuts(g: Layout, h: Key -> nat, k: Key, i: nat, g': Layout) {
    && |g.chains| > 0 && i < |g.chains[h(k) % |g.chains|]| && k in g.at
    && g.at[k] == g.chains[h(k) % |g.chains|][i] && g' == Removed(g, h(k) % |g.chains|, i, k)
  }

  lemma {:induction false} RemoveKeyed(g: Layout, h: Key -> nat, b: nat, i: nat)
    requires Keyed(g, h) && b < |g.chains| && i < |g.chains[b]| && Distinct(g.chains[b])
    ensures Keyed(Removed(g, b, i, g.chains[b][i].key), h)
  {
    var e := g.chains[b][i];
    var g' := Removed(g, b, i, e.key);
    assert KeysOk(g, h, b) && InPlace(g, h, b, e);
    OtherChains(g, h, b, e);
    forall c | 0 <= c < |g'.chains|
      ensures KeysOk(g', h, c)
    {
      assert KeysOk(g, h, c);
      forall j | 0 <= j < |g'.chains[c]|
        ensures InPlace(g', h, c, g'.chains[c][j])
      {
        var j' := if c == b && j >= i then j + 1 else j;
        assert g'.chains[c][j] == g.chains[c][j'];
        assert InPlace(g, h, c, g.chains[c][j']);
      }
    }
    forall k | k in g'.at
      ensures HomeOk(g', h, k)
    {
      assert HomeOk(g, h, k);
      CutMember(g.chains[b], i, g.at[k]);
    }
  }

  lemma CutMember(s: seq<Entry>, i: nat, e: Entry)
    requires i < |s|
    ensures e in s && e != s[i] ==> e in Cut(s, i)
  {
  }

  // ---- walking --------------------------------------------------------------

  /** All chains one after the other: the order in which a walk meets the entries. */
  ghost function Flat(cs: seq<seq<Entry>>): seq<Entry> {
    if cs == [] then [] else cs[0] + Flat(cs[1..])
  }

  /** What a walk still has before it: `tail`, and then the chains from `i` on. */
  ghost function Rest(cs: seq<seq<Entry>>, tail: seq<Entry>, i: nat): seq<Entry> {
    tail + Flat(if i <= |cs| then cs[i..] else [])
  }

  lemma {:induction false} RestStep(cs: seq<seq<Entry>>, i: nat)
    requires i < |cs|
    ensures Rest(cs, [], i) == Rest(cs, cs[i], i + 1)
  {
    assert cs[i..][1..] == cs[i + 1..];
  }

  lemma FirstOff(s: seq<Entry>, t: seq<Entry>)
    requires s != []
    ensures s == [s[0]] + s[1..] && s + t == [s[0]] + (s[1..] + t)
  {
  }

  ghost predicate InSome(cs: seq<seq<Entry>>, e: Entry) {
    exists b :: 0 <= b < |cs| && e in cs[b]
  }

  lemma {:induction false} FlatMembers(cs: seq<seq<Entry>>)
    ensures forall b, i :: 0 <= b < |cs| && 0 <= i < |cs[b]| ==> cs[b][i] in Flat(cs)
    ensures forall j :: 0 <= j < |Flat(cs)| ==> InSome(cs, Flat(cs)[j])
  {
    if cs != [] {
      FlatMembers(cs[1..]);
      forall b, i | 0 <= b < |cs| && 0 <= i < |cs[b]|
        ensures cs[b][i] in Flat(cs)
      {
        if b > 0 {
          assert cs[b] == cs[1..][b - 1];
        }
      }
      forall j | 0 <= j < |Flat(cs)|
        ensures InSome(cs, Flat(cs)[j])
      {
        if j < |cs[0]| {
          assert Flat(cs)[j] in cs[0];
        } else {
          assert InSome(cs[1..], Flat(cs[1..])[j - |cs[0]|]);
          var b :| 0 <= b < |cs[1..]| && Flat(cs[1..])[j - |cs[0]|] in cs[1..][b];
          assert Flat(cs)[j] in cs[b + 1];
        }
      }
    }
  }

  ghost predicate Disjoint(cs: seq<seq<Entry>>) {
    forall b, c, i, j :: 0 <= b < c < |cs| && 0 <= i < |cs[b]| && 0 <= j < |cs[c]| ==> cs[b][i] != cs[c][j]
  }

  lemma {:induction false} FlatDistinct(cs: seq<seq<Entry>>)
    requires Disjoint(cs) && forall b :: 0 <= b < |cs| ==> Distinct(cs[b])
    ensures Distinct(Flat(cs))
  {
    if cs != [] {
      var rest := cs[1..];
      assert forall b :: 0 <= b < |rest| ==> rest[b] == cs[b + 1];
      FlatDistinct(rest);
      FlatMembers(rest);
      forall i, j | 0 <= i < |cs[0]| && 0 <= j < |Flat(rest)|
        ensures cs[0][i] != Flat(rest)[j]
      {
        assert InSome(rest, Flat(rest)[j]);
        var b :| 0 <= b < |rest| && Flat(rest)[j] in rest[b];
        var k :| 0 <= k < |rest[b]| && rest[b][k] == Flat(rest)[j];
        assert rest[b][k] == cs[b + 1][k];
      }
    }
  }

  /** A keyed layout is walked without repetition. */
  lemma {:induction false} LayoutFlat(g: Layout, h: Key -> nat)
    requires Keyed(g, h) && forall b :: 0 <= b < |g.chains| ==> Distinct(g.chains[b])
    ensures Distinct(Flat(g.chains))
    ensures forall j :: 0 <= j < |Flat(g.chains)| ==> Tracked(g, h, Flat(g.chains)[j])
    ensures forall k :: k in g.at ==> g.at[k] in Flat(g.chains)
  {
    FlatMembers(g.chains);
    forall b, c, i, j | 0 <= b < c < |g.chains| && 0 <= i < |g.chains[b]| && 0 <= j < |g.chains[c]|
      ensures g.chains[b][i] != g.chains[c][j]
    {
      assert KeysOk(g, h, b) && KeysOk(g, h, c);
      assert InPlace(g, h, b, g.chains[b][i]) && InPlace(g, h, c, g.chains[c][j]);
    }
    FlatDistinct(g.chains);
    forall j | 0 <= j < |Flat(g.chains)|
      ensures Tracked(g, h, Flat(g.chains)[j])
    {
      assert InSome(g.chains, Flat(g.chains)[j]);
      var b :| 0 <= b < |g.chains| && Flat(g.chains)[j] in g.chains[b];
      var i :| 0 <= i < |g.chains[b]| && g.chains[b][i] == Flat(g.chains)[j];
      assert KeysOk(g, h, b) && InPlace(g, h, b, g.chains[b][i]);
    }
    forall k | k in g.at
      ensures g.at[k] in Flat(g.chains)
    {
      assert HomeOk(g, h, k);
      var b := h(k) % |g.chains|;
      var i :| 0 <= i < |g.chains[b]| && g.chains[b][i] == g.at[k];
    }
  }

  /** `e` is the entry of its key, whatever bucket it is in. */
  ghost predicate Tracked(g: Layout, h: Key -> nat, e: Entry)
    reads g.live`key, g.live`hash
  {
    e in g.live && e.hash == h(e.key) && e.key in g.at && g.at[e.key] == e
  }

  // ---- growing --------------------------------------------------------------

  /** One new bucket while entries are moved over: `todo` are still to be moved. */
  ghost predicate NewChainOk(g: Layout, h: Key -> nat, nc: seq<seq<Entry>>, todo: seq<Entry>, b: nat)
    requires b < |nc|
    reads g.live`key, g.live`hash
  {
    forall i :: 0 <= i < |nc[b]| ==>
      Tracked(g, h, nc[b][i]) && nc[b][i].hash % |nc| == b && nc[b][i] !in todo
  }

  ghost predicate Placed(g: Layout, h: Key -> nat, nc: seq<seq<Entry>>, todo: seq<Entry>, k: Key)
    requires k in g.at
    reads g.live`key
  {
    && g.at[k] in g.live && g.at[k].key == k
    && |nc| > 0 && (g.at[k] in todo || g.at[k] in nc[h(k) % |nc|])
  }

  ghost predicate Moving(g: Layout, h: Key -> nat, nc: seq<seq<Entry>>, todo: seq<Entry>)
    reads g.live`key, g.live`hash
  {
    && |nc| > 0 && Distinct(todo)
    && (forall j :: 0 <= j < |todo| ==> Tracked(g, h, todo[j]))
    && (forall b {:trigger NewChainOk(g, h, nc, todo, b)} :: 0 <= b < |nc| ==> NewChainOk(g, h, nc, todo, b))
    && (forall k {:trigger Placed(g, h, nc, todo, k)} :: k in g.at ==> Placed(g, h, nc, todo, k))
  }

  /** Before the first move. */
  lemma {:induction false} MoveStart(g: Layout, h: Key -> nat, nc: seq<seq<Entry>>)
    requires Keyed(g, h) && forall b :: 0 <= b < |g.chains| ==> Distinct(g.chains[b])
    requires |nc| > 0 && forall b :: 0 <= b < |nc| ==> nc[b] == []
    ensures Moving(g, h, nc, Flat(g.chains))
  {
    LayoutFlat(g, h);
    forall k | k in g.at
      ensures Placed(g, h, nc, Flat(g.chains), k)
    {
      assert HomeOk(g, h, k);
    }
  }

  /** Moving the first entry to the front of its new bucket. */
  lemma {:induction false} MoveStep(g: Layout, h: Key -> nat, nc: seq<seq<Entry>>, e: Entry, todo: seq<Entry>)
    requires Moving(g, h, nc, [e] + todo)
    ensures var b := e.hash % |nc|; Moving(g, h, nc[b := [e] + nc[b]], todo) && e !in nc[b] && e !in todo
    ensures forall c, i :: 0 <= c < |nc| && 0 <= i < |nc[c]| ==> nc[c][i] != e
  {
    var all, b := [e] + todo, e.hash % |nc|;
    var nc' := nc[b := [e] + nc[b]];
    assert all[0] == e && forall j :: 0 <= j < |todo| ==> all[j + 1] == todo[j];
    forall c, i | 0 <= c < |nc| && 0 <= i < |nc[c]|
      ensures nc[c][i] != e
    {
      assert NewChainOk(g, h, nc, all, c);
    }
    forall c | 0 <= c < |nc'|
      ensures NewChainOk(g, h, nc', todo, c)
    {
      assert NewChainOk(g, h, nc, all, c);
    }
    forall k | k in g.at
      ensures Placed(g, h, nc', todo, k)
    {
      assert Placed(g, h, nc, all, k);
      assert Tracked(g, h, all[0]);
    }
  }

  /** After the last move. */
  lemma {:induction false} MoveEnd(g: Layout, h: Key -> nat, nc: seq<seq<Entry>>)
    requires Moving(g, h, nc, [])
    ensures Keyed(Layout(nc, g.at, g.live), h)
  {
    var g' := Layout(nc, g.at, g.live);
    forall b | 0 <= b < |nc|
      ensures KeysOk(g', h, b)
    {
      assert NewChainOk(g, h, nc, [], b);
    }
    forall k | k in g.at
      ensures HomeOk(g', h, k)
    {
      assert Placed(g, h, nc, [], k);
    }
  }

  lemma MapEq<K, V>(a: map<K, V>, b: map<K, V>)
    requires a.Keys == b.Keys && forall k :: k in a ==> a[k] == b[k]
    ensures a == b
  {
  }

  // ---- the table ------------------------------------------------------------

  class Table {
    const hashOf: Key -> nat
    var buckets: array<Entry?>
    var count: nat
    var max: nat
    /** list of recycled entries */
    var free: Entry?
    /** `iterator` */
    var itThis: Entry?
    var itNext: Entry?
    var itIndex: nat
    ghost var recycled: seq<Entry>
    ghost var g: Layout

    /** The free list holds distinct entries that are in no chain. */
    ghost predicate FreeOk()
      reads this`free, this`recycled, this`g, SetOf(recycled)`next
    {
      Linked(free, recycled) && Distinct(recycled) && SetOf(recycled) !! g.live
    }

    ghost predicate Shaped()
      reads this`buckets, this`count, this`max, this`free, this`recycled, this`g
      reads buckets, g.live`next, g.live`key, g.live`hash, SetOf(recycled)`next
    {
      && |g.chains| == max + 1 && IsPow2(max + 1) && count == |g.at|
      && ChainsOk(g, buckets) && Keyed(g, hashOf) && FreeOk()
    }

    ghost predicate Valid()
      reads this`buckets, this`count, this`max, this`free, this`recycled, this`g
      reads buckets, g.live`next, g.live`key, g.live`hash, SetOf(recycled)`next
    {
      Shaped() && count <= max
    }

    /** The finite map the table stands for. */
    ghost function Model(): map<Key, Binding>
      reads this`g, g.at.Values`val, g.at.Values`mem
    {
      Bindings(g.at)
    }

    /** ogs_hash_make_custom() */
    constructor (hashOf_: Key -> nat)
      ensures Valid() && fresh(buckets) && buckets.Length == 16 && max == 15 && g.live == {} && g.at == map[] && recycled == [] && hashOf == hashOf_
    {
      hashOf := hashOf_;
      buckets := new Entry?[INITIAL_MAX + 1](_ => null);
      count, max, free := 0, INITIAL_MAX, null;
      itThis, itNext, itIndex := null, null, 0;
      g, recycled := Layout(seq(INITIAL_MAX + 1, _ => []), map[], {}), [];
      new;
      assert IsPow2(1) && IsPow2(2) && IsPow2(4) && IsPow2(8) && IsPow2(16);
    }

    ghost function Chain(k: Key): seq<Entry>
      requires |g.chains| > 0
      reads this`g
    {
      g.chains[hashOf(k) % |g.chains|]
    }

    /** Where `hep` points: the link field holding the `i`-th entry of the chain of `key`,
        which is the bucket head when `prev` is NULL and `prev->next` otherwise. */
    ghost predicate Found(key: Key, prev: Entry?, he: Entry?, i: nat)
      reads this`g
    {
      && |g.chains| > 0 && i <= |Chain(key)|
      && prev == (if i == 0 then null else Chain(key)[i - 1])
      && he == (if i < |Chain(key)| then Chain(key)[i] else null)
      && (he != null <==> key in g.at) && (he != null ==> he == g.at[key])
    }

    /** The scan of find_entry(), which is all it does when the value is NULL. */
    method Scan(key: Key) returns (prev: Entry?, he: Entry?, ghost i: nat)
      requires Shaped()
      ensures Found(key, prev, he, i)
    {
      var hash := hashOf(key);
      prev, he, i := null, buckets[hash % (max + 1)], 0;
      ghost var b := hash % (max + 1);
      ghost var es := g.chains[b];
      assert ChainOk(g, b, buckets[b]) && KeysOk(g, hashOf, b);
      while he != null && !(he.hash == hash && he.key == key)
        invariant i <= |es|
        invariant prev == if i == 0 then null else es[i - 1]
        invariant he == if i < |es| then es[i] else null
        invariant forall j :: 0 <= j < i ==> es[j].key != key
        decreases |es| - i
      {
        assert InPlace(g, hashOf, b, es[i]);
        assert es[i].next == if i + 1 < |es| then es[i + 1] else null;
        prev, he, i := he, he.next, i + 1;
      }
      if he != null {
        assert InPlace(g, hashOf, b, es[i]);
      } else if key in g.at {
        assert HomeOk(g, hashOf, key);
      }
    }

    /** `he` neither sits in a chain nor waits for reuse. */
    ghost predicate Spare(he: Entry)
      reads this`g, this`recycled
    {
      he !in g.live && he !in recycled
    }

    /** The entry find_entry() uses for a new key: a recycled one if there is one. */
    method TakeEntry(mem: object, val: object) returns (he: Entry)
      requires Shaped()
      modifies this`free, this`recycled
      ensures Shaped() && Spare(he)
      ensures if old(recycled) == [] then fresh(he) && recycled == [] else he == old(recycled)[0] && recycled == old(recycled)[1..]
      ensures SetOf(recycled) == SetOf(old(recycled)) - {he}
    {
      if free != null {
        he := free;
        assert recycled[0].next == if 1 < |recycled| then recycled[1] else null;
        free := he.next;
        recycled := recycled[1..];
      } else {
        he := new Entry(mem, val);
      }
    }

    /** `*hep = he` at the end of the chain of `key`. */
    method StoreLast(key: Key, he: Entry, prev: Entry?, ghost i: nat)
      requires Shaped() && he !in g.live && he.next == null
      requires Found(key, prev, null, i)
      modifies buckets, g.live`next
      ensures ChainsOk(Appended(g, hashOf, he, key), buckets) && Linked(free, recycled)
    {
      ghost var b := hashOf(key) % |g.chains|;
      ghost var g' := Appended(g, hashOf, he, key);
      assert ChainOk(g, b, buckets[b]);
      if prev == null {
        buckets[hashOf(key) % (max + 1)] := he;
      } else {
        OtherChains(g, hashOf, b, prev);
        prev.next := he;
      }
      forall c | 0 <= c < |g.chains|
        ensures ChainOk(g', c, buckets[c])
      {
        assert old(ChainOk(g, c, buckets[c]));
      }
    }

    /** Filling in an entry that is in no list disturbs nothing. */
    method FillIn(he: Entry, key: Key, mem: object, val: object)
      requires Shaped() && Spare(he)
      modifies he
      ensures Shaped() && he.next == null && he.hash == hashOf(key) && he.key == key && he.mem == mem && he.val == val
    {
      he.next := null;
      he.hash := hashOf(key);
      he.key := key;
      he.mem := mem;
      he.val := val;
    }

    /** `count` and the layout move together. */
    method Recount(n: nat, ghost g': Layout)
      requires |g'.chains| == max + 1 && IsPow2(max + 1) && n == |g'.at|
      requires ChainsOk(g', buckets) && Keyed(g', hashOf)
      requires Linked(free, recycled) && Distinct(recycled) && SetOf(recycled) !! g'.live
      modifies this`count, this`g
      ensures Shaped() && g == g' && count == n
    {
      count, g := n, g';
    }

    /** `*hep = he; ht->count++` */
    method Hang(key: Key, he: Entry, prev: Entry?, ghost i: nat)
      requires Shaped() && Spare(he) && key !in g.at && Found(key, prev, null, i)
      requires he.next == null && he.hash == hashOf(key) && he.key == key
      modifies this`count, this`g, buckets, g.live`next
      ensures Shaped() && g == Appended(old(g), hashOf, he, key) && count == old(count) + 1
    {
      ghost var g' := Appended(g, hashOf, he, key);
      AppendKeyed(g, hashOf, he);
      StoreLast(key, he, prev, i);
      Recount(count + 1, g');
    }

    /** find_entry() with a non-NULL `val`: a missing key gets an entry.  The table may
        then hold one entry too many until the caller expands it. */
    method FindEntry(key: Key, mem: object, val: object) returns (prev: Entry?, he: Entry, ghost i: nat)
      requires Shaped()
      modifies this`count, this`free, this`recycled, this`g, buckets, g.live`next, SetOf(recycled)
      ensures Shaped() && Found(key, prev, he, i)
      ensures key in old(g.at) ==> g == old(g) && count == old(count) && recycled == old(recycled)
      ensures key !in old(g.at) ==>
                && he.mem == mem && he.val == val && he !in old(g.live) && (he in old(recycled) || fresh(he))
                && g == Appended(old(g), hashOf, he, key) && count == old(count) + 1
                && SetOf(recycled) == old(SetOf(recycled)) - {he} && (old(recycled) != [] ==> he == old(recycled)[0])
    {
      var found;
      prev, found, i := Scan(key);
      if found != null {
        return prev, found, i;
      }
      he := TakeEntry(mem, val);
      FillIn(he, key, mem, val);
      Hang(key, he, prev, i);
    }

    /** `*hep = (*hep)->next` for the `i`-th entry of a chain. */
    method Bypass(key: Key, he: Entry, prev: Entry?, ghost i: nat)
      requires Shaped() && Found(key, prev, he, i)
      modifies buckets, g.live`next
      ensures ChainsOk(Removed(g, hashOf(key) % |g.chains|, i, key), buckets)
      ensures he.next == old(he.next) && Linked(free, recycled)
    {
      ghost var b := hashOf(key) % |g.chains|;
      ghost var g', es := Removed(g, b, i, key), g.chains[b];
      assert ChainOk(g, b, buckets[b]);
      assert es[i].next == if i + 1 < |es| then es[i + 1] else null;
      OtherChains(g, hashOf, b, he);
      if prev == null {
        buckets[hashOf(key) % (max + 1)] := he.next;
      } else {
        OtherChains(g, hashOf, b, prev);
        prev.next := he.next;
      }
      forall c | 0 <= c < |g.chains|
        ensures ChainOk(g', c, buckets[c])
      {
        assert old(ChainOk(g, c, buckets[c]));
        if c == b {
          CutLinked(es, i, buckets[b]);
        }
      }
    }

    /** The delete branch of ogs_hash_set(): unlink the entry and recycle it. */
    method DeleteEntry(key: Key, he: Entry, prev: Entry?, ghost i: nat)
      requires Shaped() && Found(key, prev, he, i)
      modifies this`count, this`free, this`recycled, this`g, buckets, g.live`next
      ensures Shaped() && g == Removed(old(g), hashOf(key) % |old(g).chains|, i, key)
      ensures recycled == [he] + old(recycled) && count == old(count) - 1
    {
      ghost var b := hashOf(key) % |g.chains|;
      assert HomeOk(g, hashOf, key) && ChainOk(g, b, buckets[b]) && KeysOk(g, hashOf, b);
      assert InPlace(g, hashOf, b, g.chains[b][i]);
      RemoveKeyed(g, hashOf, b, i);
      Bypass(key, he, prev, i);
      Recycle(he, Removed(g, b, i, key));
    }

    method Recycle(he: Entry, ghost g': Layout)
      requires he in g.live && ChainsOk(g', buckets) && Keyed(g', hashOf) && FreeOk()
      requires g'.live == g.live - {he} && |g'.chains| == max + 1 && IsPow2(max + 1)
      requires |g'.at| == count - 1
      modifies this`count, this`free, this`recycled, this`g, he`next
      ensures Shaped() && g == g' && recycled == [he] + old(recycled) && count == old(count) - 1
    {
      he.next := free;
      free := he;
      count := count - 1;
      recycled := [he] + recycled;
      g := g';
    }

    /** The walk still has `tail` and then the chains `cs[itIndex..]` before it, all
        linked; the entries are among `all`. */
    ghost predicate Pending(cs: seq<seq<Entry>>, tail: seq<Entry>, all: set<Entry>)
      reads this`buckets, this`max, this`itNext, this`itIndex, buckets, all`next
    {
      && |cs| == buckets.Length == max + 1 && itIndex <= |cs|
      && (forall j :: 0 <= j < |tail| ==> tail[j] in all) && Linked(itNext, tail)
      && forall b {:trigger PendingChain(cs, b, all)} :: itIndex <= b < |cs| ==> PendingChain(cs, b, all)
    }

    ghost predicate PendingChain(cs: seq<seq<Entry>>, b: nat, all: set<Entry>)
      requires b < |cs| == buckets.Length
      reads this`buckets, buckets, all`next
    {
      (forall j :: 0 <= j < |cs[b]| ==> cs[b][j] in all) && Linked(buckets[b], cs[b])
    }

    /** ogs_hash_next() */
    method Next(ghost cs: seq<seq<Entry>>, ghost tail: seq<Entry>, ghost all: set<Entry>)
      returns (more: bool, ghost tail': seq<Entry>)
      requires Pending(cs, tail, all)
      modifies this`itThis, this`itNext, this`itIndex
      ensures more <==> Rest(cs, tail, old(itIndex)) != []
      ensures more ==> itThis != null && itThis in all && Pending(cs, tail', all) && old(itIndex) <= itIndex
      ensures more ==> Rest(cs, tail, old(itIndex)) == [itThis] + Rest(cs, tail', itIndex)
      ensures more ==> if itIndex == old(itIndex) then tail == [itThis] + tail' else cs[itIndex - 1] == [itThis] + tail'
      ensures more ==> itNext == if tail' == [] then null else tail'[0]
    {
      itThis := itNext;
      more, tail' := SkipEmpty(cs, tail, all);
      if more {
        tail' := LookAhead(cs, tail, all, old(itIndex), tail');
      }
    }

    /** `hi->next = hi->this->next` */
    method LookAhead(ghost cs: seq<seq<Entry>>, ghost tail: seq<Entry>, ghost all: set<Entry>, ghost start: nat,
                     ghost found: seq<Entry>)
      returns (ghost tail': seq<Entry>)
      requires itThis != null && Ahead(cs, tail, all, start, found)
      modifies this`itNext
      ensures found == [itThis] + tail' && itThis in all && Pending(cs, tail', all)
      ensures Rest(cs, found, itIndex) == [itThis] + Rest(cs, tail', itIndex)
      ensures itNext == if tail' == [] then null else tail'[0]
    {
      LinkedRest(itThis, found);
      FirstOff(found, Flat(cs[itIndex..]));
      tail' := found[1..];
      itNext := itThis.next;
    }

    /** The loop of ogs_hash_next(): from NULL on to the next bucket that is not empty. */
    method SkipEmpty(ghost cs: seq<seq<Entry>>, ghost tail: seq<Entry>, ghost all: set<Entry>)
      returns (more: bool, ghost tail': seq<Entry>)
      requires itThis == itNext && Pending(cs, tail, all)
      modifies this`itThis, this`itIndex
      ensures more <==> Rest(cs, tail, old(itIndex)) != []
      ensures more ==> itThis != null && Ahead(cs, tail, all, old(itIndex), tail')
    {
      tail' := tail;
      ghost var start := itIndex;
      while itThis == null
        invariant Ahead(cs, tail, all, start, tail')
        decreases max + 1 - itIndex, itThis == null
      {
        if itIndex > max {
          assert Rest(cs, tail', itIndex) == [];
          return false, [];
        }
        tail' := NextBucket(cs, tail, all, start, tail');
      }
      more := true;
    }

    /** The loop, begun at bucket `start`, has come to `tail'`. */
    ghost predicate Ahead(cs: seq<seq<Entry>>, tail: seq<Entry>, all: set<Entry>, start: nat, tail': seq<Entry>)
      reads this`buckets, this`max, this`itThis, this`itNext, this`itIndex, buckets, all`next
    {
      && Pending(cs, tail, all) && start <= itIndex && tail' == (if itIndex == start then tail else cs[itIndex - 1])
      && (forall j :: 0 <= j < |tail'| ==> tail'[j] in all) && Linked(itThis, tail')
      && Rest(cs, tail, start) == Rest(cs, tail', itIndex)
    }

    method NextBucket(ghost cs: seq<seq<Entry>>, ghost tail: seq<Entry>, ghost all: set<Entry>, ghost start: nat,
                      ghost before: seq<Entry>)
      returns (ghost tail': seq<Entry>)
      requires Ahead(cs, tail, all, start, before) && itThis == null && itIndex <= max
      modifies this`itThis, this`itIndex
      ensures Ahead(cs, tail, all, start, tail') && itIndex == old(itIndex) + 1
    {
      assert PendingChain(cs, itIndex, all) && before == [];
      RestStep(cs, itIndex);
      tail' := cs[itIndex];
      itThis := buckets[itIndex];
      itIndex := itIndex + 1;
    }

    /** ogs_hash_first() */
    method First() returns (more: bool, ghost tail: seq<Entry>)
      requires ChainsOk(g, buckets) && buckets.Length == max + 1
      modifies this`itThis, this`itNext, this`itIndex
      ensures more <==> Flat(g.chains) != []
      ensures more ==> itThis != null && itThis in g.live && Pending(g.chains, tail, g.live)
      ensures more ==> Flat(g.chains) == [itThis] + (tail + Flat(g.chains[itIndex..]))
      ensures more ==> itIndex > 0 && g.chains[itIndex - 1] == [itThis] + tail
      ensures more ==> itNext == if tail == [] then null else tail[0]
    {
      itIndex := 0;
      itThis := null;
      itNext := null;
      forall b | 0 <= b < |g.chains|
        ensures PendingChain(g.chains, b, g.live)
      {
        assert ChainOk(g, b, buckets[b]);
      }
      assert g.chains[0..] == g.chains && [] + Flat(g.chains) == Flat(g.chains);
      more, tail := Next(g.chains, [], g.live);
    }

    /** The body of the loop in expand_array(): put `itThis` in front of its new bucket. */
    method MoveThis(newBuckets: array<Entry?>, ghost nc: seq<seq<Entry>>, ghost tail: seq<Entry>)
      requires newBuckets != buckets && itThis != null && itThis in g.live
      requires ChainsOk(Layout(nc, g.at, g.live), newBuckets) && |nc| > 0
      requires Pending(g.chains, tail, g.live) && itThis !in tail + Flat(g.chains[itIndex..])
      requires forall c, i :: 0 <= c < |nc| && 0 <= i < |nc[c]| ==> nc[c][i] != itThis
      modifies newBuckets, itThis`next
      ensures var b := itThis.hash % |nc|; ChainsOk(Layout(nc[b := [itThis] + nc[b]], g.at, g.live), newBuckets)
      ensures Pending(g.chains, tail, g.live)
    {
      ghost var cs, l := g.chains, Layout(nc, g.at, g.live);
      FlatMembers(cs[itIndex..]);
      var i := itThis.hash % newBuckets.Length;
      ghost var nc' := nc[i := [itThis] + nc[i]];
      assert ChainOk(l, i, newBuckets[i]);
      itThis.next := newBuckets[i];
      newBuckets[i] := itThis;
      forall c | 0 <= c < |nc|
        ensures ChainOk(Layout(nc', g.at, g.live), c, newBuckets[c])
      {
        assert old(ChainOk(l, c, newBuckets[c]));
      }
      forall c | itIndex <= c < |cs|
        ensures PendingChain(cs, c, g.live)
      {
        assert old(PendingChain(cs, c, g.live));
        assert cs[itIndex..][c - itIndex] == cs[c];
      }
    }

    /** The loop of expand_array(). */
    method MoveAll(newBuckets: array<Entry?>) returns (ghost nc: seq<seq<Entry>>)
      requires ChainsOk(g, buckets) && Keyed(g, hashOf) && buckets.Length == max + 1
      requires newBuckets != buckets && newBuckets.Length > 0
      requires forall b :: 0 <= b < newBuckets.Length ==> newBuckets[b] == null
      modifies this`itThis, this`itNext, this`itIndex, newBuckets, g.live`next
      ensures ChainsOk(Layout(nc, g.at, g.live), newBuckets) && Keyed(Layout(nc, g.at, g.live), hashOf)
    {
      nc := seq(newBuckets.Length, _ => []);
      forall b | 0 <= b < |g.chains|
        ensures Distinct(g.chains[b])
      {
        assert ChainOk(g, b, buckets[b]);
      }
      MoveStart(g, hashOf, nc);
      var more;
      ghost var tail, todo;
      more, tail := First();
      todo := Flat(g.chains);
      while more
        invariant |nc| == newBuckets.Length && ChainsOk(Layout(nc, g.at, g.live), newBuckets)
        invariant Moving(g, hashOf, nc, todo)
        invariant if more then AtMove(tail, todo) else todo == []
        decreases |todo|, more
      {
        more, tail, nc := MoveOne(newBuckets, nc, tail, todo);
        todo := todo[1..];
      }
      MoveEnd(g, hashOf, nc);
    }

    /** The walk of expand_array() stands on the first of the entries still to be moved. */
    ghost predicate AtMove(tail: seq<Entry>, todo: seq<Entry>)
      reads this`buckets, this`max, this`g, this`itThis, this`itNext, this`itIndex, buckets, g.live`next
    {
      && itThis != null && itThis in g.live && Pending(g.chains, tail, g.live)
      && todo == [itThis] + (tail + Flat(g.chains[itIndex..]))
    }

    /** One turn of the loop of expand_array(). */
    method MoveOne(newBuckets: array<Entry?>, ghost nc: seq<seq<Entry>>, ghost tail: seq<Entry>, ghost todo: seq<Entry>)
      returns (more: bool, ghost tail': seq<Entry>, ghost nc': seq<seq<Entry>>)
      requires newBuckets != buckets && |nc| == newBuckets.Length > 0 && AtMove(tail, todo)
      requires ChainsOk(Layout(nc, g.at, g.live), newBuckets) && Moving(g, hashOf, nc, todo)
      modifies this`itThis, this`itNext, this`itIndex, newBuckets, itThis`next
      ensures |nc'| == newBuckets.Length && ChainsOk(Layout(nc', g.at, g.live), newBuckets)
      ensures Moving(g, hashOf, nc', todo[1..]) && (if more then AtMove(tail', todo[1..]) else todo[1..] == [])
    {
      ghost var b, rest := itThis.hash % |nc|, tail + Flat(g.chains[itIndex..]);
      assert todo[1..] == rest;
      MoveStep(g, hashOf, nc, itThis, rest);
      MoveThis(newBuckets, nc, tail);
      nc' := nc[b := [itThis] + nc[b]];
      more, tail' := Next(g.chains, tail, g.live);
    }

    /** The switch to the new array. */
    method Install(newBuckets: array<Entry?>, newMax: nat, ghost g': Layout)
      requires ChainsOk(g', newBuckets) && Keyed(g', hashOf) && FreeOk() && g'.at == g.at && g'.live == g.live
      requires |g'.chains| == newMax + 1 && IsPow2(newMax + 1) && count == |g.at|
      modifies this`buckets, this`max, this`g
      ensures Shaped() && max == newMax && buckets == newBuckets && g == g'
    {
      buckets := newBuckets;
      max := newMax;
      g := g';
    }

    /** expand_array() */
    method Expand()
      requires Shaped()
      modifies this`buckets, this`max, this`g, this`itThis, this`itNext, this`itIndex, g.live`next
      ensures Shaped() && max == 2 * old(max) + 1 && fresh(buckets)
      ensures g.at == old(g.at) && g.live == old(g.live)
    {
      var newMax := max * 2 + 1;
      var newBuckets := new Entry?[newMax + 1](_ => null);
      ghost var nc := MoveAll(newBuckets);
      Install(newBuckets, newMax, Layout(nc, g.at, g.live));
    }

    /** Different keys have different entries. */
    lemma {:induction false} OneEntryPerKey()
      requires Keyed(g, hashOf)
      ensures forall k :: k in g.at ==> g.at[k] in g.live && g.at[k].key == k
    {
      forall k | k in g.at
        ensures g.at[k] in g.live && g.at[k].key == k
      {
        assert HomeOk(g, hashOf, k);
      }
    }

    /** The memory the table may write: grown only by fresh entries. */
    ghost function Entries(): set<Entry>
      reads this`g, this`recycled
    {
      g.live + SetOf(recycled)
    }

    /** ogs_hash_get() */
    method Get(key: Key) returns (val: object?)
      requires Valid()
      ensures val == if key in Model() then Model()[key].val else null
    {
      var prev, he;
      ghost var i;
      prev, he, i := Scan(key);
      if he != null {
        return he.val;
      } else {
        return null;
      }
    }

    /** The tail of ogs_hash_set() and ogs_hash_get_or_set(): grow when overfull. */
    method ExpandIfFull()
      requires Shaped() && count <= max + 1
      modifies this`buckets, this`max, this`g, this`itThis, this`itNext, this`itIndex, g.live`next
      ensures Valid() && Model() == old(Model()) && Entries() == old(Entries())
      ensures buckets == old(buckets) || fresh(buckets)
      ensures count == old(count) && max == Grown(old(max), count)
    {
      if count > max {
        Expand();
      }
    }

    /** find_entry() with a value, seen on the keys. */
    method FindForKey(key: Key, mem: object, val: object) returns (he: Entry)
      requires Valid()
      modifies this`count, this`free, this`recycled, this`g, buckets, g.live`next, SetOf(recycled)
      ensures Shaped() && count <= max + 1 && he in g.live
      ensures g.at == if key in old(g.at) then old(g.at) else old(g.at)[key := he]
      ensures key in old(g.at) ==> he == g.at[key] && recycled == old(recycled)
      ensures key !in old(g.at) ==> he.mem == mem && he.val == val
      ensures forall k :: k in g.at ==> g.at[k] in g.live && g.at[k].key == k
      ensures fresh(Entries() - old(Entries())) && (he in old(Entries()) || fresh(he))
    {
      var prev;
      ghost var i;
      prev, he, i := FindEntry(key, mem, val);
      OneEntryPerKey();
    }

    /** The entries of the keys are none of those waiting for reuse. */
    lemma {:induction false} KeyedApart()
      requires Shaped()
      ensures g.at.Values !! SetOf(recycled)
    {
      OneEntryPerKey();
    }

    /** find_entry() with a value, seen on the map. */
    method FindForValue(key: Key, mem: object, val: object) returns (he: Entry)
      requires Valid()
      modifies this`count, this`free, this`recycled, this`g, buckets, g.live`next, SetOf(recycled)
      ensures Shaped() && count <= max + 1 && key in g.at && he == g.at[key] && he in g.live
      ensures Model() == if key in old(Model()) then old(Model()) else old(Model())[key := Binding(val, mem)]
      ensures forall k :: k in g.at ==> g.at[k] in g.live && g.at[k].key == k
      ensures fresh(Entries() - old(Entries())) && (he in old(Entries()) || fresh(he))
    {
      ghost var at := g.at;
      KeyedApart();
      he := FindForKey(key, mem, val);
      assert Bindings(at) == old(Bindings(at));
      BindingsChange(at, key, he);
    }

    /** ogs_hash_set() with a value. */
    method Put(key: Key, mem: object, val: object)
      requires Valid()
      modifies this, buckets, Entries()
      ensures Valid() && Model() == Rebound(old(Model()), key, mem, val) && max == Grown(old(max), count)
      ensures fresh(Entries() - old(Entries())) && (buckets == old(buckets) || fresh(buckets))
    {
      Store(key, mem, val);
      ExpandIfFull();
    }

    /** ogs_hash_set() with a value, but for growing. */
    method Store(key: Key, mem: object, val: object)
      requires Valid()
      modifies this`count, this`free, this`recycled, this`g, buckets, Entries()
      ensures Shaped() && count <= max + 1 && Model() == Rebound(old(Model()), key, mem, val)
      ensures fresh(Entries() - old(Entries()))
    {
      ghost var m := Model();
      var he := FindForValue(key, mem, val);
      assert Model()[key].mem == if key in m then m[key].mem else mem;
      Replace(key, he, val);
    }

    /** `(*hep)->val = val` */
    method Replace(key: Key, he: Entry, val: object)
      requires Shaped() && key in g.at && he == g.at[key]
      requires forall k :: k in g.at ==> g.at[k] in g.live && g.at[k].key == k
      modifies he`val
      ensures Shaped() && Model() == old(Model())[key := Binding(val, he.mem)]
    {
      he.val := val;
    }

    /** The delete branch, seen on the layout. */
    method Unhang(key: Key, he: Entry, prev: Entry?, ghost i: nat)
      requires Valid() && Found(key, prev, he, i)
      modifies this`count, this`free, this`recycled, this`g, buckets, g.live`next
      ensures Valid() && Entries() == old(Entries()) && Cuts(old(g), hashOf, key, i, g)
    {
      assert he in g.live by {
        assert HomeOk(g, hashOf, key);
      }
      DeleteEntry(key, he, prev, i);
    }

    /** The delete branch, seen on the map. */
    method DeleteFound(key: Key, he: Entry, prev: Entry?, ghost i: nat)
      requires Valid() && Found(key, prev, he, i)
      modifies this`count, this`free, this`recycled, this`g, buckets, g.live`next
      ensures Valid() && Model() == old(Model()) - {key} && Entries() == old(Entries())
      ensures Cuts(old(g), hashOf, key, i, g)
    {
      ghost var at := g.at;
      Unhang(key, he, prev, i);
      assert g.at == at - {key} && Bindings(at) == old(Bindings(at));
      BindingsChange(at, key, he);
    }

    /** ogs_hash_set() with NULL; `i` is where the entry stood in its chain. */
    method Remove(key: Key) returns (ghost i: nat)
      requires Valid()
      modifies this`count, this`free, this`recycled, this`g, buckets, g.live`next
      ensures Valid() && Model() == old(Model()) - {key} && Entries() == old(Entries()) && buckets == old(buckets)
      ensures if key in old(g.at) then Cuts(old(g), hashOf, key, i, g) else g == old(g)
    {
      var prev, he;
      prev, he, i := Scan(key);
      assert Model() == old(Model());
      if he == null {
        NothingThere(key);
        return;
      }
      DeleteFound(key, he, prev, i);
    }

    lemma NothingThere(key: Key)
      requires key !in g.at
      ensures Model() - {key} == Model()
    {
      MapEq(Model() - {key}, Model());
    }

    /** ogs_hash_set(): a NULL value deletes the key. */
    method Set(key: Key, mem: object, val: object?)
      requires Valid()
      modifies this, buckets, Entries()
      ensures Valid() && (val == null ==> Model() == old(Model()) - {key}) && (val != null ==> Model() == Rebound(old(Model()), key, mem, val))
      ensures max == Grown(old(max), count)
      ensures fresh(Entries() - old(Entries())) && (buckets == old(buckets) || fresh(buckets))
    {
      if val == null {
        var _ := Remove(key);
      } else {
        Put(key, mem, val);
      }
    }

    /** ogs_hash_get_or_set() with a value. */
    method GetOrPut(key: Key, mem: object, val: object) returns (r: object)
      requires Valid()
      modifies this, buckets, Entries()
      ensures Valid() && r == if key in old(Model()) then old(Model())[key].val else val
      ensures Model() == if key in old(Model()) then old(Model()) else old(Model())[key := Binding(val, mem)]
      ensures max == Grown(old(max), count)
      ensures fresh(Entries() - old(Entries())) && (buckets == old(buckets) || fresh(buckets))
    {
      var he := FindForValue(key, mem, val);
      assert he.val == Model()[key].val;
      r := he.val;
      ExpandIfFull();
    }

    /** ogs_hash_get_or_set(): with NULL it is ogs_hash_get(), since a valid table is never overfull. */
    method GetOrSet(key: Key, mem: object, val: object?) returns (r: object?)
      requires Valid()
      modifies this, buckets, Entries()
      ensures Valid()
      ensures r == if key in old(Model()) then old(Model())[key].val else val
      ensures Model() == if key in old(Model()) || val == null then old(Model()) else old(Model())[key := Binding(val, mem)]
      ensures max == Grown(old(max), count)
      ensures fresh(Entries() - old(Entries())) && (buckets == old(buckets) || fresh(buckets))
    {
      if val == null {
        r := Get(key);
      } else {
        r := GetOrPut(key, mem, val);
      }
    }

    /** ogs_hash_unset_if_owner() */
    method UnsetIfOwner(key: Key, mem: object, owner: object) returns (ok: bool)
      requires Valid()
      modifies this, buckets, Entries()
      ensures Valid() && (ok <==> key in old(Model()) && old(Model())[key].val == owner)
      ensures Model() == if ok then old(Model()) - {key} else old(Model())
      ensures fresh(Entries() - old(Entries())) && (buckets == old(buckets) || fresh(buckets))
    {
      var indexed := Get(key);
      if indexed == owner {
        Set(key, mem, null);
        return true;
      }
      return false;
    }

    /** ogs_hash_clear() in progress: `rec` has been pushed on the free list, `tail` hangs
        from `he`, and buckets from `i` on are untouched; `all` is everything. */
    ghost predicate Clearing(he: Entry?, tail: seq<Entry>, rec: seq<Entry>, i: nat, all: set<Entry>)
      reads this`buckets, this`free, this`g, buckets, all`next
    {
      && i <= |g.chains| == buckets.Length && g.live <= all
      && (forall j :: 0 <= j < |rec| ==> rec[j] in all) && (forall j :: 0 <= j < |tail| ==> tail[j] in all)
      && Linked(free, rec) && Linked(he, tail)
      && Distinct(rec) && Distinct(tail + Flat(g.chains[i..])) && SetOf(rec) !! SetOf(tail + Flat(g.chains[i..]))
      && (forall b {:trigger ChainOk(g, b, buckets[b])} :: i <= b < |g.chains| ==> ChainOk(g, b, buckets[b]))
    }

    /** `he->next = ht->free; ht->free = he; he = next_he` */
    method PushFree(he: Entry, ghost tail: seq<Entry>, ghost rec: seq<Entry>, ghost i: nat, ghost all: set<Entry>)
      returns (next: Entry?)
      requires Clearing(he, tail, rec, i, all)
      modifies this`free, all`next
      ensures tail != [] && Clearing(next, tail[1..], [he] + rec, i, all)
    {
      ghost var flat := Flat(g.chains[i..]);
      FlatMembers(g.chains[i..]);
      assert tail[0].next == if 1 < |tail| then tail[1] else null;
      PopDistinct(tail, flat, rec);
      next := he.next;
      he.next := free;
      free := he;
      forall b | i <= b < |g.chains|
        ensures ChainOk(g, b, buckets[b])
      {
        assert old(ChainOk(g, b, buckets[b]));
        assert g.chains[i..][b - i] == g.chains[b];
      }
    }

    /** One turn of the outer loop of ogs_hash_clear(). */
    method ClearBucket(i: nat, ghost rec0: seq<Entry>, ghost all: set<Entry>) returns (ghost rec: seq<Entry>)
      requires Clearing(null, [], rec0, i, all) && i < |g.chains|
      modifies this`free, buckets, all`next
      ensures Clearing(null, [], rec, i + 1, all) && SetOf(rec) == SetOf(rec0) + SetOf(g.chains[i])
      ensures buckets[i] == null && forall b :: 0 <= b < buckets.Length && b != i ==> buckets[b] == old(buckets[b])
    {
      ghost var tail, rest := g.chains[i], Flat(g.chains[i + 1..]);
      assert ChainOk(g, i, buckets[i]);
      assert g.chains[i..][1..] == g.chains[i + 1..] && [] + Flat(g.chains[i..]) == tail + rest;
      var he := buckets[i];
      buckets[i] := null;
      rec := rec0;
      forall b | i + 1 <= b < |g.chains|
        ensures ChainOk(g, b, buckets[b])
      {
        assert old(ChainOk(g, b, buckets[b]));
      }
      while he != null
        invariant Clearing(he, tail, rec, i + 1, all)
        invariant SetOf(rec) + SetOf(tail) == SetOf(rec0) + SetOf(g.chains[i])
        invariant forall b :: 0 <= b < buckets.Length ==> buckets[b] == if b == i then null else old(buckets[b])
        decreases |tail|
      {
        ghost var e := he;
        he := PushFree(he, tail, rec, i + 1, all);
        assert SetOf([e] + rec) == SetOf(rec) + {e} && SetOf(tail) == SetOf(tail[1..]) + {e};
        rec, tail := [e] + rec, tail[1..];
      }
    }

    /** ogs_hash_clear() */
    method Clear()
      requires Valid()
      modifies this`count, this`free, this`recycled, this`g, buckets, Entries()`next
      ensures Valid() && Model() == map[] && Entries() <= old(Entries()) && buckets == old(buckets)
      ensures forall k :: k in old(g.at) ==> old(g.at)[k] in recycled
    {
      ghost var rec := ClearBuckets();
      forall k | k in g.at
        ensures g.at[k] in rec
      {
        assert g.at[k] in SetOf(rec);
      }
      Emptied(rec);
    }

    /** Its outer loop: every entry is on the free list, `rec`. */
    method ClearBuckets() returns (ghost rec: seq<Entry>)
      requires Valid()
      modifies this`free, buckets, Entries()`next
      ensures Linked(free, rec) && Distinct(rec) && SetOf(rec) <= Entries() && forall k :: k in g.at ==> g.at[k] in SetOf(rec)
      ensures forall b :: 0 <= b < buckets.Length ==> buckets[b] == null
    {
      ghost var all := Entries();
      rec := recycled;
      ClearStart();
      for i := 0 to max + 1
        invariant Cleared(rec, i, all)
      {
        FlatFrom(i);
        rec := ClearBucket(i, rec, all);
      }
      assert SetOf(Flat(g.chains)) <= SetOf(rec);
    }

    /** The outer loop has come to bucket `i`. */
    ghost predicate Cleared(rec: seq<Entry>, i: nat, all: set<Entry>)
      reads this`buckets, this`free, this`g, this`recycled, buckets, all`next
    {
      && Clearing(null, [], rec, i, all) && (forall b :: 0 <= b < i ==> buckets[b] == null)
      && SetOf(recycled) + SetOf(Flat(g.chains)) == SetOf(rec) + SetOf(Flat(g.chains[i..]))
    }

    lemma FlatFrom(i: nat)
      requires i < |g.chains|
      ensures SetOf(Flat(g.chains[i..])) == SetOf(g.chains[i]) + SetOf(Flat(g.chains[i + 1..]))
    {
      assert g.chains[i..][1..] == g.chains[i + 1..];
    }

    method Emptied(ghost rec: seq<Entry>)
      requires Linked(free, rec) && Distinct(rec) && buckets.Length == max + 1 && IsPow2(max + 1)
      requires forall b :: 0 <= b < buckets.Length ==> buckets[b] == null
      modifies this`count, this`recycled, this`g
      ensures Valid() && g.at == map[] && g.live == {} && recycled == rec
    {
      ghost var g' := Layout(seq(max + 1, _ => []), map[], {});
      recycled := rec;
      EmptyLayout(g', hashOf, buckets);
      Recount(0, g');
    }

    lemma {:induction false} ClearStart()
      requires Shaped()
      ensures Clearing(null, [], recycled, 0, Entries()) && g.chains[0..] == g.chains
      ensures forall k :: k in g.at ==> g.at[k] in Flat(g.chains)
    {
      AllDistinct();
      LayoutFlat(g, hashOf);
      assert g.chains[0..] == g.chains && [] + Flat(g.chains) == Flat(g.chains);
      FlatLive();
    }

    lemma {:induction false} AllDistinct()
      requires Shaped()
      ensures forall b :: 0 <= b < |g.chains| ==> Distinct(g.chains[b])
    {
      forall b | 0 <= b < |g.chains|
        ensures Distinct(g.chains[b])
      {
        assert ChainOk(g, b, buckets[b]);
      }
    }

    lemma {:induction false} FlatLive()
      requires Shaped()
      ensures SetOf(Flat(g.chains)) <= g.live
    {
      AllDistinct();
      LayoutFlat(g, hashOf);
      forall e | e in Flat(g.chains)
        ensures e in g.live
      {
        var j :| 0 <= j < |Flat(g.chains)| && Flat(g.chains)[j] == e;
        assert Tracked(g, hashOf, Flat(g.chains)[j]);
      }
    }

    /** A walk standing on `itThis`: `before` and `tail` are its neighbours in the chain. */
    ghost predicate Standing(before: seq<Entry>, tail: seq<Entry>)
      reads this`g, this`itThis, this`itNext, this`itIndex
    {
      && itThis != null && 0 < itIndex <= |g.chains| && g.chains[itIndex - 1] == before + [itThis] + tail
      && itNext == if tail == [] then null else tail[0]
    }

    /** Whatever was done to the current entry, the walk can go on from a well-linked table. */
    lemma {:induction false} CanGoOn(before: seq<Entry>, tail: seq<Entry>)
      requires ChainsOk(g, buckets) && buckets.Length == max + 1 && 0 < itIndex <= |g.chains|
      requires g.chains[itIndex - 1] == before + tail && itNext == if tail == [] then null else tail[0]
      ensures Pending(g.chains, tail, g.live)
    {
      var es, n := g.chains[itIndex - 1], |before|;
      assert ChainOk(g, itIndex - 1, buckets[itIndex - 1]);
      forall j | 0 <= j < |tail|
        ensures tail[j] in g.live && tail[j].next == if j + 1 < |tail| then tail[j + 1] else null
      {
        assert es[n + j] == tail[j];
        assert es[n + j].next == if n + j + 1 < |es| then es[n + j + 1] else null;
      }
      forall b | itIndex <= b < |g.chains|
        ensures PendingChain(g.chains, b, g.live)
      {
        assert ChainOk(g, b, buckets[b]);
      }
    }

    /** A client's loop body that may delete the entry the walk stands on. */
    method Visit(drop: bool, ghost before: seq<Entry>, ghost tail: seq<Entry>) returns (ghost before': seq<Entry>)
      requires Valid() && Standing(before, tail)
      modifies this`count, this`free, this`recycled, this`g, buckets, g.live`next
      ensures Valid() && |g.chains| == |old(g.chains)| && itIndex <= |g.chains|
      ensures g.chains[itIndex - 1] == before' + tail && g.chains[itIndex..] == old(g.chains)[itIndex..]
      ensures Model() == if drop then old(Model()) - {itThis.key} else old(Model())
      ensures Entries() == old(Entries()) && g.live <= old(g.live)
    {
      if drop {
        CurrentLive(before, tail);
        DropCurrent(before, tail);
        before' := before;
      } else {
        before' := before + [itThis];
      }
    }

    /** Deleting the entry the walk stands on takes it, and nothing else, out of its chain. */
    method DropCurrent(ghost before: seq<Entry>, ghost tail: seq<Entry>)
      requires Valid() && Standing(before, tail) && itThis in g.live
      modifies this`count, this`free, this`recycled, this`g, buckets, g.live`next
      ensures Valid() && g.chains == old(g.chains)[itIndex - 1 := before + tail]
      ensures Model() == old(Model()) - {itThis.key} && Entries() == old(Entries()) && g.live <= old(g.live)
    {
      CurrentPlace(before, tail);
      ghost var i := Remove(itThis.key);
      assert i == |before|;
    }

    lemma {:induction false} CurrentLive(before: seq<Entry>, tail: seq<Entry>)
      requires Shaped() && Standing(before, tail)
      ensures itThis in g.live
    {
      assert g.chains[itIndex - 1][|before|] == itThis;
      assert ChainOk(g, itIndex - 1, buckets[itIndex - 1]);
    }

    /** Where the current entry stands. */
    lemma {:induction false} CurrentPlace(before: seq<Entry>, tail: seq<Entry>)
      requires Shaped() && Standing(before, tail) && itThis in g.live
      ensures itThis.key in g.at && g.at[itThis.key] == itThis && hashOf(itThis.key) % |g.chains| == itIndex - 1
      ensures forall i {:trigger g.chains[itIndex - 1][i]} ::
                0 <= i < |g.chains[itIndex - 1]| && g.chains[itIndex - 1][i] == itThis ==> i == |before|
      ensures Cut(g.chains[itIndex - 1], |before|) == before + tail
    {
      var b, es := itIndex - 1, g.chains[itIndex - 1];
      assert es[|before|] == itThis;
      assert ChainOk(g, b, buckets[b]) && KeysOk(g, hashOf, b) && InPlace(g, hashOf, b, es[|before|]);
    }

    /** The keys in walking order: each key of the table once. */
    lemma {:induction false} WalkKeys() returns (all: seq<Entry>, ks: seq<Key>)
      requires Shaped()
      ensures all == Flat(g.chains) && |ks| == |all| && forall j :: 0 <= j < |all| ==> all[j] in g.live && ks[j] == all[j].key
      ensures Distinct(ks) && forall k :: k in ks <==> k in g.at
    {
      all := Flat(g.chains);
      AllDistinct();
      LayoutFlat(g, hashOf);
      ks := KeysOf(all);
      forall j | 0 <= j < |all|
        ensures all[j] in g.live && ks[j] in g.at && g.at[ks[j]] == all[j]
      {
        assert Tracked(g, hashOf, all[j]);
      }
      forall k | k in g.at
        ensures k in ks
      {
        assert HomeOk(g, hashOf, k);
        var j :| 0 <= j < |all| && all[j] == g.at[k];
        assert ks[j] == k;
      }
    }

    /** A whole walk with ogs_hash_first() and ogs_hash_next() whose body deletes the
        current entry whenever `drop` says so. */
    method Sweep(drop: Key -> bool) returns (visited: seq<Key>)
      requires Valid()
      modifies this`count, this`free, this`recycled, this`g, this`itThis, this`itNext, this`itIndex, buckets, g.live`next
      ensures Valid() && Distinct(visited) && forall k :: k in visited <==> k in old(Model())
      ensures Model() == map k | k in old(Model()) && !drop(k) :: old(Model())[k]
    {
      ghost var m := Model();
      ghost var all, ks := WalkKeys();
      visited := SweepAll(drop, all, ks, m);
      KeptAll(m, visited, drop);
    }

    /** Its loop, with the entries `all` and their keys `ks` in walking order. */
    method SweepAll(drop: Key -> bool, ghost all: seq<Entry>, ghost ks: seq<Key>, ghost m: map<Key, Binding>)
      returns (visited: seq<Key>)
      requires Valid() && all == Flat(g.chains) && Model() == m && HaveKeys(all, ks, g.live)
      modifies this`count, this`free, this`recycled, this`g, this`itThis, this`itNext, this`itIndex, buckets, g.live`next
      ensures Valid() && visited == ks && Model() == Kept(m, ks, drop)
    {
      visited := [];
      ghost var todo, rest, live := all, ks, g.live;
      var more, key;
      ghost var before, tail;
      more, before, tail := Begin();
      while more
        invariant Valid() && g.live <= live && visited + rest == ks && Model() == Kept(m, visited, drop)
        invariant if more then OnWalk(before, tail, todo) && HaveKeys(todo, rest, live) else rest == []
        decreases |todo|, more
      {
        key, more, before, tail := SweepOne(drop, before, tail, todo, rest, live, m, visited);
        Handover(visited, rest);
        visited, todo, rest := visited + [key], todo[1..], rest[1..];
      }
    }

    /** The walk stands on the first of `todo`, which is all it still has to visit. */
    ghost predicate OnWalk(before: seq<Entry>, tail: seq<Entry>, todo: seq<Entry>)
      reads this`g, this`itThis, this`itNext, this`itIndex
    {
      Standing(before, tail) && todo == [itThis] + (tail + Flat(g.chains[itIndex..])) && todo[0] == itThis
    }

    /** `hi = ogs_hash_first(ht)` */
    method Begin() returns (more: bool, ghost before: seq<Entry>, ghost tail: seq<Entry>)
      requires Valid()
      modifies this`itThis, this`itNext, this`itIndex
      ensures Valid() && Model() == old(Model())
      ensures more <==> Flat(g.chains) != []
      ensures more ==> OnWalk(before, tail, Flat(g.chains))
    {
      before := [];
      more, tail := First();
    }

    /** One turn of that walk. */
    method SweepOne(drop: Key -> bool, ghost before: seq<Entry>, ghost tail: seq<Entry>,
                    ghost todo: seq<Entry>, ghost ks: seq<Key>, ghost live: set<Entry>,
                    ghost m: map<Key, Binding>, ghost visited: seq<Key>)
      returns (key: Key, more: bool, ghost before': seq<Entry>, ghost tail': seq<Entry>)
      requires Valid() && OnWalk(before, tail, todo) && HaveKeys(todo, ks, live) && Model() == Kept(m, visited, drop)
      modifies this`count, this`free, this`recycled, this`g, this`itThis, this`itNext, this`itIndex, buckets, g.live`next
      ensures Valid() && g.live <= old(g.live) && key == ks[0] && Model() == Kept(m, visited + [key], drop)
      ensures more <==> |todo| > 1
      ensures if more then OnWalk(before', tail', todo[1..]) && HaveKeys(todo[1..], ks[1..], live) else ks[1..] == []
    {
      key := itThis.key;
      KeptStep(m, visited, drop, key);
      before' := Visit(drop(key), before, tail);
      ghost var coming := tail + Flat(g.chains[itIndex..]);
      assert todo[1..] == coming;
      more, before', tail' := Advance(before', tail);
      assert |todo| == 1 + |coming|;
    }

    /** `hi = ogs_hash_next(hi)` */
    method Advance(ghost before: seq<Entry>, ghost tail: seq<Entry>)
      returns (more: bool, ghost before': seq<Entry>, ghost tail': seq<Entry>)
      requires Valid() && 0 < itIndex <= |g.chains| && g.chains[itIndex - 1] == before + tail
      requires itNext == if tail == [] then null else tail[0]
      modifies this`itThis, this`itNext, this`itIndex
      ensures Valid() && Model() == old(Model())
      ensures more <==> tail + Flat(g.chains[old(itIndex)..]) != []
      ensures more ==> Standing(before', tail')
      ensures more ==> tail + Flat(g.chains[old(itIndex)..]) == [itThis] + (tail' + Flat(g.chains[itIndex..]))
    {
      CanGoOn(before, tail);
      more, tail' := Next(g.chains, tail, g.live);
      before' := if more && itIndex == old(itIndex) then before else [];
    }
  }

  lemma Handover<T>(done: seq<T>, rest: seq<T>)
    requires rest != []
    ensures done + [rest[0]] + rest[1..] == done + rest
  {
  }

  /** A map after the keys of `visited` that `drop` chooses have been deleted. */
  ghost function Kept(m: map<Key, Binding>, visited: seq<Key>, drop: Key -> bool): map<Key, Binding> {
    map k | k in m && !(k in visited && drop(k)) :: m[k]
  }

  lemma KeptStep(m: map<Key, Binding>, visited: seq<Key>, drop: Key -> bool, k: Key)
    ensures Kept(m, visited + [k], drop) == if drop(k) then Kept(m, visited, drop) - {k} else Kept(m, visited, drop)
  {
    var a := Kept(m, visited + [k], drop);
    var b := if drop(k) then Kept(m, visited, drop) - {k} else Kept(m, visited, drop);
    assert forall x :: x in visited + [k] <==> x in visited || x == k;
    MapEq(a, b);
  }

  lemma KeptAll(m: map<Key, Binding>, visited: seq<Key>, drop: Key -> bool)
    requires forall k :: k in m ==> k in visited
    ensures Kept(m, visited, drop) == map k | k in m && !drop(k) :: m[k]
  {
  }

  /** `ks` are the keys of `es`, which lie in `live`. */
  ghost predicate HaveKeys(es: seq<Entry>, ks: seq<Key>, live: set<Entry>)
    reads live`key
  {
    |ks| == |es| && forall j :: 0 <= j < |es| ==> es[j] in live && ks[j] == es[j].key
  }

  ghost function KeysOf(es: seq<Entry>): (ks: seq<Key>)
    reads es
    ensures |ks| == |es| && forall j :: 0 <= j < |es| ==> ks[j] == es[j].key
  {
    if es == [] then [] else [es[0].key] + KeysOf(es[1..])
  }

  lemma EmptyLayout(g: Layout, h: Key -> nat, buckets: array<Entry?>)
    requires |g.chains| == buckets.Length > 0 && g.at == map[] && g.live == {}
    requires forall b :: 0 <= b < buckets.Length ==> g.chains[b] == [] && buckets[b] == null
    ensures ChainsOk(g, buckets) && Keyed(g, h)
  {
  }

  /** Moving the first of the entries still to come to the front of those already seen. */
  lemma {:induction false} PopDistinct(tail: seq<Entry>, flat: seq<Entry>, rec: seq<Entry>)
    requires tail != [] && Distinct(tail + flat) && Distinct(rec) && SetOf(rec) !! SetOf(tail + flat)
    ensures tail[0] !in rec && tail[0] !in tail[1..] && tail[0] !in flat
    ensures Distinct(tail[1..] + flat) && Distinct([tail[0]] + rec)
    ensures SetOf([tail[0]] + rec) !! SetOf(tail[1..] + flat)
  {
    var all, rest := tail + flat, tail[1..] + flat;
    assert all[0] == tail[0] && forall j :: 0 <= j < |rest| ==> all[j + 1] == rest[j];
    assert tail[0] in SetOf(all);
    assert forall j :: 0 <= j < |flat| ==> rest[|tail| - 1 + j] == flat[j];
    assert forall j :: 0 <= j < |tail| - 1 ==> rest[j] == tail[1..][j];
    forall e | e in rest
      ensures e in SetOf(all) && e != tail[0]
    {
      var j :| 0 <= j < |rest| && rest[j] == e;
      assert all[j + 1] == e;
    }
  }

  /** Cutting a list where the links already skip the entry. */
  lemma {:induction false} CutLinked(es: seq<Entry>, i: nat, head: Entry?)
    requires i < |es| && Distinct(es)
    requires forall j {:trigger es[j].next} :: 0 <= j < |es| && j != i && j + 1 != i ==>
               es[j].next == if j + 1 < |es| then es[j + 1] else null
    requires i > 0 ==> es[i - 1].next == (if i + 1 < |es| then es[i + 1] else null) && head == es[0]
    requires i == 0 ==> head == if 1 < |es| then es[1] else null
    ensures Linked(head, Cut(es, i)) && Distinct(Cut(es, i))
  {
    var cs := Cut(es, i);
    forall j | 0 <= j < |cs|
      ensures cs[j].next == if j + 1 < |cs| then cs[j + 1] else null
    {
      assert cs[j] == es[if j < i then j else j + 1];
    }
  }
}
