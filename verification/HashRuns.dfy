/**
Whole runs over one hash table: any mix of calls answers as a finite map would, and
what owner-checked removal (`ogs_hash_unset_if_owner`) does and does not promise to
contexts that claim one key one after another, each with a copy of the key of its own.
*/
module HashRuns {
  import opened Basics
  import opened HashTable

  datatype Op =
    | Set(key: Key, mem: object, val: object?)
    | Get(key: Key)
    | GetOrSet(key: Key, mem: object, val: object?)
    | Unset(key: Key, mem: object, owner: object)
    | Clear

  datatype Answer = Done | Value(val: object?) | Flag(ok: bool)

  ghost function Lookup(m: map<Key, Binding>, k: Key): object? {
    if k in m then m[k].val else null
  }

  /** The reference: one call on a finite map. */
  ghost function Step(m: map<Key, Binding>, op: Op): map<Key, Binding> {
    match op
    case Set(k, mem, v) => if v == null then m - {k} else Rebound(m, k, mem, v)
    case Get(k) => m
    case GetOrSet(k, mem, v) => if k in m || v == null then m else m[k := Binding(v, mem)]
    case Unset(k, _, o) => if Lookup(m, k) == o then m - {k} else m
    case Clear => map[]
  }

  ghost function Reply(m: map<Key, Binding>, op: Op): Answer {
    match op
    case Set(_, _, _) => Done
    case Get(k) => Value(Lookup(m, k))
    case GetOrSet(k, _, v) => Value(if k in m then m[k].val else v)
    case Unset(k, _, o) => Flag(Lookup(m, k) == o)
    case Clear => Done
  }

  ghost function Run(m: map<Key, Binding>, ops: seq<Op>): map<Key, Binding> {
    if ops == [] then m else Step(Run(m, ops[..|ops| - 1]), ops[|ops| - 1])
  }

  /** The reference's answer to each call of a run. */
  ghost function Replies(m: map<Key, Binding>, ops: seq<Op>): seq<Answer> {
    if ops == [] then [] else
    var init := ops[..|ops| - 1];
    Replies(m, init) + [Reply(Run(m, init), ops[|ops| - 1])]
  }

  method Call(t: Table, op: Op) returns (a: Answer)
    requires t.Valid()
    modifies t, t.buckets, t.Entries()
    ensures t.Valid() && t.Model() == Step(old(t.Model()), op) && a == Reply(old(t.Model()), op)
    ensures fresh(t.Entries() - old(t.Entries())) && (t.buckets == old(t.buckets) || fresh(t.buckets))
  {
    match op
    case Set(k, mem, v) => t.Set(k, mem, v); a := Done;
    case Get(k) => var v := t.Get(k); a := Value(v);
    case GetOrSet(k, mem, v) => var r := t.GetOrSet(k, mem, v); a := Value(r);
    case Unset(k, mem, o) => var ok := t.UnsetIfOwner(k, mem, o); a := Flag(ok);
    case Clear => t.Clear(); a := Done;
  }

  /** Every run of calls on a table, across growth and recycling, ends in the map the
      reference ends in and gives the reference's answers on the way. */
  method Replay(t: Table, ops: seq<Op>) returns (answers: seq<Answer>)
    requires t.Valid()
    modifies t, t.buckets, t.Entries()
    ensures t.Valid() && t.Model() == Run(old(t.Model()), ops) && answers == Replies(old(t.Model()), ops)
  {
    answers := ReplayFrom(t, ops, t.Model());
  }

  /** The table is sound and stands for `m`. */
  ghost predicate Stands(t: Table, m: map<Key, Binding>)
    reads t, t.buckets, t.Entries(), t.g.at.Values
  {
    t.Valid() && t.Model() == m
  }

  method ReplayFrom(t: Table, ops: seq<Op>, ghost m: map<Key, Binding>) returns (answers: seq<Answer>)
    requires Stands(t, m)
    modifies t, t.buckets, t.Entries()
    ensures Stands(t, Run(m, ops)) && answers == Replies(m, ops)
  {
    answers := [];
    assert ops[..0] == [] && ops[..|ops|] == ops;
    ghost var start, grown: set<Entry> := t.Entries(), {};
    for n := 0 to |ops|
      invariant Stands(t, Run(m, ops[..n])) && answers == Replies(m, ops[..n])
      invariant t.Entries() <= start + grown && fresh(grown) && (t.buckets == old(t.buckets) || fresh(t.buckets))
    {
      ghost var more;
      answers, more := CallNext(t, ops, n, answers, m);
      grown := grown + more;
    }
  }

  method CallNext(t: Table, ops: seq<Op>, n: nat, before: seq<Answer>, ghost m: map<Key, Binding>)
    returns (answers: seq<Answer>, ghost more: set<Entry>)
    requires n < |ops| && Stands(t, Run(m, ops[..n])) && before == Replies(m, ops[..n])
    modifies t, t.buckets, t.Entries()
    ensures Stands(t, Run(m, ops[..n + 1])) && answers == Replies(m, ops[..n + 1])
    ensures t.Entries() <= old(t.Entries()) + more && fresh(more) && (t.buckets == old(t.buckets) || fresh(t.buckets))
  {
    assert ops[..n + 1][..n] == ops[..n];
    var a := Call(t, ops[n]);
    answers := before + [a];
    more := t.Entries() - old(t.Entries());
  }

  // ---- callers racing to store one key -----------------------------------------

  /** `op` touches key `k` only to look it up or to store a value if there is none. */
  ghost predicate Racing(k: Key, op: Op) {
    op.Get? || (op.GetOrSet? && (op.key == k ==> op.val != null)) || (op.Set? && op.key != k) || (op.Unset? && op.key != k)
  }

  /** The value of the first get_or_set of `k`. */
  ghost function Winner(k: Key, ops: seq<Op>): object? {
    if ops == [] then null
    else if ops[0].GetOrSet? && ops[0].key == k then ops[0].val
    else Winner(k, ops[1..])
  }

  lemma {:induction false} RunFrom(m: map<Key, Binding>, op: Op, ops: seq<Op>)
    ensures Run(m, [op] + ops) == Run(Step(m, op), ops)
  {
    if ops == [] {
      assert [op] + ops == [op] && [op][..0] == [];
      assert Run(m, [op]) == Step(Run(m, []), op);
    } else {
      var n := |ops| - 1;
      RunFrom(m, op, ops[..n]);
      assert ([op] + ops)[..n + 1] == [op] + ops[..n];
    }
  }

  /** Of callers that race with get_or_set for a key, the first wins: from its call on the key has its
      value, and every later caller gets that one. */
  lemma {:induction false} FirstWins(m: map<Key, Binding>, k: Key, ops: seq<Op>)
    requires k !in m && forall i :: 0 <= i < |ops| ==> Racing(k, ops[i])
    ensures Lookup(Run(m, ops), k) == Winner(k, ops)
    ensures forall op: Op :: op.GetOrSet? && op.key == k && Winner(k, ops) != null ==> Reply(Run(m, ops), op) == Value(Winner(k, ops))
    decreases |ops|
  {
    if ops == [] {
    } else {
      var op, rest := ops[0], ops[1..];
      assert ops == [op] + rest && Racing(k, op);
      RunFrom(m, op, rest);
      if op.GetOrSet? && op.key == k {
        WonStays(Step(m, op), k, rest);
      } else {
        FirstWins(Step(m, op), k, rest);
      }
    }
  }

  lemma {:induction false} WonStays(m: map<Key, Binding>, k: Key, ops: seq<Op>)
    requires k in m && forall i :: 0 <= i < |ops| ==> Racing(k, ops[i])
    ensures k in Run(m, ops) && Run(m, ops)[k].val == m[k].val
  {
    if ops == [] {
    } else {
      WonStays(m, k, ops[..|ops| - 1]);
      assert Racing(k, ops[|ops| - 1]);
    }
  }

  // ---- contexts claiming one key --------------------------------------------

  /** `op` handles key `k` only by claiming it or by owner-checked teardown. */
  ghost predicate Owning(k: Key, op: Op) {
    match op
    case Set(k', _, v) => k' == k ==> v != null
    case Get(_) => true
    case GetOrSet(k', _, _) => k' != k
    case Unset(_, _, _) => true
    case Clear => false
  }

  ghost predicate AllOwning(k: Key, ops: seq<Op>) {
    forall i :: 0 <= i < |ops| ==> Owning(k, ops[i])
  }

  ghost function Minus(s: seq<object>, x: object): seq<object> {
    if s == [] then []
    else if s[|s| - 1] == x then Minus(s[..|s| - 1], x)
    else Minus(s[..|s| - 1], x) + [s[|s| - 1]]
  }

  /** The contexts that have claimed `k` and not torn down since, by latest claim. */
  ghost function Claimants(k: Key, ops: seq<Op>): seq<object> {
    if ops == [] then [] else
    var before := Claimants(k, ops[..|ops| - 1]);
    match ops[|ops| - 1]
    case Set(k', _, v) => if k' == k && v != null then Minus(before, v) + [v] else before
    case Unset(k', _, o) => if k' == k then Minus(before, o) else before
    case _ => before
  }

  ghost function Latest(s: seq<object>): object? {
    if s == [] then null else s[|s| - 1]
  }

  /** Teardown number `i` comes from the latest claimant while an older one still lives. */
  ghost predicate Overtakes(k: Key, ops: seq<Op>, i: nat)
    requires i < |ops|
  {
    var cs := Claimants(k, ops[..i]);
    ops[i].Unset? && ops[i].key == k && |cs| > 1 && ops[i].owner == Latest(cs)
  }

  lemma {:induction false} MinusOther(s: seq<object>, x: object)
    requires s != [] && s[|s| - 1] != x
    ensures Latest(Minus(s, x)) == Latest(s)
  {
  }

  lemma {:induction false} MinusParts(s: seq<object>, x: object)
    requires Distinct(s)
    ensures Distinct(Minus(s, x)) && x !in Minus(s, x) && forall y :: y in Minus(s, x) ==> y in s
    ensures |Minus(s, x)| >= |s| - 1
    ensures x !in s ==> Minus(s, x) == s
  {
    if s != [] {
      var init, last := s[..|s| - 1], s[|s| - 1];
      MinusParts(init, x);
      assert s == init + [last] && last !in init;
    }
  }

  lemma {:induction false} ClaimantsDistinct(k: Key, ops: seq<Op>)
    ensures Distinct(Claimants(k, ops))
  {
    if ops != [] {
      ClaimantsDistinct(k, ops[..|ops| - 1]);
      var before := Claimants(k, ops[..|ops| - 1]);
      match ops[|ops| - 1]
      case Set(_, _, v) => if v != null { MinusParts(before, v); }
      case Unset(_, _, o) => MinusParts(before, o);
      case _ =>
    }
  }

  /** As long as no teardown overtakes, looking the key up finds the latest claimant that
      has not torn down, however late the teardowns of older ones arrive. */
  lemma {:induction false} LatestFound(m: map<Key, Binding>, k: Key, ops: seq<Op>)
    requires k !in m && AllOwning(k, ops)
    requires forall i :: 0 <= i < |ops| ==> !Overtakes(k, ops, i)
    ensures Lookup(Run(m, ops), k) == Latest(Claimants(k, ops))
  {
    if ops != [] {
      var n := |ops| - 1;
      var init := ops[..n];
      forall i | 0 <= i < n
        ensures !Overtakes(k, init, i)
      {
        assert init[..i] == ops[..i] && !Overtakes(k, ops, i);
      }
      LatestFound(m, k, init);
      ClaimantsDistinct(k, init);
      var cs := Claimants(k, init);
      assert !Overtakes(k, ops, n) && Owning(k, ops[n]);
      if ops[n].Unset? && ops[n].key == k {
        if cs != [] && ops[n].owner != Latest(cs) {
          MinusOther(cs, ops[n].owner);
        } else if cs != [] {
          assert cs[..0] == [];
          assert Claimants(k, ops) == Minus(cs, ops[n].owner) == [];
        }
      }
    }
  }

  /** A teardown that overtakes leaves the key unfound although a claimant still lives. */
  lemma {:induction false} OvertakenLost(m: map<Key, Binding>, k: Key, ops: seq<Op>, i: nat)
    requires k !in m && AllOwning(k, ops) && i < |ops| && Overtakes(k, ops, i)
    requires forall j :: 0 <= j < i ==> !Overtakes(k, ops, j)
    ensures Lookup(Run(m, ops[..i + 1]), k) == null && Latest(Claimants(k, ops[..i + 1])) != null
  {
    var init := ops[..i];
    forall j | 0 <= j < i
      ensures !Overtakes(k, init, j)
    {
      assert init[..j] == ops[..j] && !Overtakes(k, ops, j);
    }
    LatestFound(m, k, init);
    ClaimantsDistinct(k, init);
    MinusParts(Claimants(k, init), ops[i].owner);
    assert ops[..i + 1][..i] == init;
  }

  /** Looking the key up finds the latest living claimant at every point of a run exactly
      when the latest claimant never tears down before an older one. */
  lemma {:induction false} LatestAlways(m: map<Key, Binding>, k: Key, ops: seq<Op>)
    requires k !in m && AllOwning(k, ops)
    ensures (forall n :: 0 <= n <= |ops| ==> Lookup(Run(m, ops[..n]), k) == Latest(Claimants(k, ops[..n])))
       <==> (forall i :: 0 <= i < |ops| ==> !Overtakes(k, ops, i))
  {
    if i :| 0 <= i < |ops| && Overtakes(k, ops, i) {
      var f := FirstOvertake(k, ops, i);
      OvertakenLost(m, k, ops, f);
    } else {
      forall n | 0 <= n <= |ops|
        ensures Lookup(Run(m, ops[..n]), k) == Latest(Claimants(k, ops[..n]))
      {
        forall i | 0 <= i < n
          ensures !Overtakes(k, ops[..n], i)
        {
          assert ops[..n][..i] == ops[..i] && !Overtakes(k, ops, i);
        }
        LatestFound(m, k, ops[..n]);
      }
    }
  }

  lemma {:induction false} FirstOvertake(k: Key, ops: seq<Op>, i: nat) returns (f: nat)
    requires i < |ops| && Overtakes(k, ops, i)
    ensures f < |ops| && Overtakes(k, ops, f) && forall j :: 0 <= j < f ==> !Overtakes(k, ops, j)
  {
    f := 0;
    while !Overtakes(k, ops, f)
      invariant f <= i && forall j :: 0 <= j < f ==> !Overtakes(k, ops, j)
      decreases i - f
    {
      f := f + 1;
    }
  }

  /** The contexts that have claimed a free key one after the other. */
  lemma {:induction false} TwoClaim(k: Key, a: object, memA: object, b: object, memB: object)
    requires a != b
    ensures var ops := [Set(k, memA, a), Set(k, memB, b)];
            Claimants(k, ops) == [a, b] && Run(map[], ops) == map[k := Binding(b, memA)]
  {
    var one, ops := [Set(k, memA, a)], [Set(k, memA, a), Set(k, memB, b)];
    assert one[..0] == [] && ops[..1] == one;
    assert Run(map[], []) == map[] && Claimants(k, []) == [];
    assert Run(map[], one) == Step(map[], one[0]) == map[k := Binding(a, memA)];
    assert Claimants(k, one) == [a];
    assert [a][..0] == [] && Minus([a], b) == [a];
    assert Run(map[], ops) == Step(map[k := Binding(a, memA)], ops[1]);
  }

  /** Two contexts are enough for the overtaking to show: A claims, B claims, B tears down. */
  lemma LatestMissed(k: Key, a: object, memA: object, b: object, memB: object)
    requires a != b
    ensures var ops := [Set(k, memA, a), Set(k, memB, b), Unset(k, memB, b)];
            AllOwning(k, ops) && Lookup(Run(map[], ops), k) == null && Latest(Claimants(k, ops)) == a
  {
    var ops := [Set(k, memA, a), Set(k, memB, b), Unset(k, memB, b)];
    TwoClaim(k, a, memA, b, memB);
    assert ops[..2] == [Set(k, memA, a), Set(k, memB, b)] && [a] + [b] == [a, b];
    assert Claimants(k, ops) == Minus([a, b], b);
    MinusLast([a], b);
  }

  lemma {:induction false} MinusLast(s: seq<object>, x: object)
    requires |s| == 1 && s[0] != x
    ensures Minus(s + [x], x) == s
  {
    assert s[..0] == [] && (s + [x])[..1] == s;
    assert Minus(s, x) == Minus([], x) + [s[0]];
  }

  // ---- the memory of the keys ------------------------------------------------

  /** `op` makes the entry of `k`. */
  ghost predicate Makes(m: map<Key, Binding>, k: Key, op: Op) {
    (op.Set? || op.GetOrSet?) && op.key == k && op.val != null && k !in m
  }

  /** The key memory of the call that last found `k` absent and stored a value. */
  ghost function First(m: map<Key, Binding>, k: Key, ops: seq<Op>): object? {
    if ops == [] then (if k in m then m[k].mem else null) else
    var init, op := ops[..|ops| - 1], ops[|ops| - 1];
    if Makes(Run(m, init), k, op) then op.mem else First(m, k, init)
  }

  /** An entry reads its key from that memory, whoever has claimed the key since. */
  lemma {:induction false} FirstHeld(m: map<Key, Binding>, k: Key, ops: seq<Op>)
    ensures k in Run(m, ops) ==> Run(m, ops)[k].mem == First(m, k, ops)
  {
    if ops == [] {
    } else {
      FirstHeld(m, k, ops[..|ops| - 1]);
    }
  }

  /** A context that tears down frees its copy of the key right after the call. */
  ghost function Freed(ops: seq<Op>): set<object> {
    if ops == [] then {} else
    var op := ops[|ops| - 1];
    Freed(ops[..|ops| - 1]) + if op.Unset? then {op.mem} else {}
  }

  /** Callers store keys that lie in memory not yet freed. */
  ghost predicate Living(ops: seq<Op>) {
    forall i :: 0 <= i < |ops| ==> StoresLiving(ops, i)
  }

  ghost predicate StoresLiving(ops: seq<Op>, i: nat)
    requires i < |ops|
  {
    ops[i].Set? || ops[i].GetOrSet? ==> ops[i].mem !in Freed(ops[..i])
  }

  /** After these calls the entry of `k`, if there is one, reads its key from living memory. */
  ghost predicate KeyAlive(m: map<Key, Binding>, k: Key, ops: seq<Op>) {
    k in Run(m, ops) ==> Run(m, ops)[k].mem !in Freed(ops)
  }

  /** Teardown number `i` frees the memory with which the key was first stored, and the key stays. */
  ghost predicate Strands(m: map<Key, Binding>, k: Key, ops: seq<Op>, i: nat)
    requires i < |ops|
  {
    var now := Lookup(Run(m, ops[..i]), k);
    && ops[i].Unset? && now != null && ops[i].mem == First(m, k, ops[..i])
    && !(ops[i].key == k && ops[i].owner == now)
  }

  ghost predicate AlwaysAlive(m: map<Key, Binding>, k: Key, ops: seq<Op>) {
    forall n {:trigger ops[..n]} :: 0 <= n <= |ops| ==> KeyAlive(m, k, ops[..n])
  }

  ghost predicate NeverStrands(m: map<Key, Binding>, k: Key, ops: seq<Op>) {
    forall i :: 0 <= i < |ops| ==> !Strands(m, k, ops, i)
  }

  lemma {:induction false} AliveStep(m: map<Key, Binding>, k: Key, ops: seq<Op>, i: nat)
    requires i < |ops| && StoresLiving(ops, i) && KeyAlive(m, k, ops[..i])
    ensures KeyAlive(m, k, ops[..i + 1]) <==> !Strands(m, k, ops, i)
  {
    assert ops[..i + 1][..i] == ops[..i];
    FirstHeld(m, k, ops[..i]);
  }

  lemma {:induction false} AliveUpto(m: map<Key, Binding>, k: Key, ops: seq<Op>, n: nat)
    requires k !in m && Living(ops) && NeverStrands(m, k, ops) && n <= |ops|
    ensures KeyAlive(m, k, ops[..n])
  {
    if n == 0 {
      assert ops[..0] == [];
    } else {
      AliveUpto(m, k, ops, n - 1);
      assert StoresLiving(ops, n - 1);
      AliveStep(m, k, ops, n - 1);
    }
  }

  /** A lookup reads living key memory at every point of a run exactly when no context that
      stored the key while it was absent tears down while the key is another's. */
  lemma {:induction false} KeysAlive(m: map<Key, Binding>, k: Key, ops: seq<Op>)
    requires k !in m && Living(ops)
    ensures AlwaysAlive(m, k, ops) <==> NeverStrands(m, k, ops)
  {
    if NeverStrands(m, k, ops) {
      forall n | 0 <= n <= |ops|
        ensures KeyAlive(m, k, ops[..n])
      {
        AliveUpto(m, k, ops, n);
      }
    } else {
      var i :| 0 <= i < |ops| && Strands(m, k, ops, i);
      assert StoresLiving(ops, i);
      if KeyAlive(m, k, ops[..i]) {
        AliveStep(m, k, ops, i);
        assert !KeyAlive(m, k, ops[..i + 1]);
      }
    }
  }

  /** Lookups find the latest living claimant, through living key memory, at every point. */
  ghost predicate AlwaysSound(m: map<Key, Binding>, k: Key, ops: seq<Op>) {
    && (forall n :: 0 <= n <= |ops| ==> Lookup(Run(m, ops[..n]), k) == Latest(Claimants(k, ops[..n])))
    && AlwaysAlive(m, k, ops)
  }

  lemma {:induction false} TwoLiving(k: Key, a: object, memA: object, b: object, memB: object, last: Op)
    requires last.Unset?
    ensures var ops := [Set(k, memA, a), Set(k, memB, b), last];
            AllOwning(k, ops) && Living(ops) && Freed(ops) == {last.mem}
  {
    var ops := [Set(k, memA, a), Set(k, memB, b), last];
    assert ops[..2][..1] == ops[..1] && ops[..1][..0] == [] && ops[..0] == [];
    assert Freed(ops[..0]) == {} && Freed(ops[..1]) == {} && Freed(ops[..2]) == {};
    assert StoresLiving(ops, 0) && StoresLiving(ops, 1) && StoresLiving(ops, 2);
  }

  /** A claims, B claims, A tears down: the lookup finds B, as it should, but B's entry reads its
      key from the memory A has freed. */
  lemma {:induction false} FreedUnderneath(k: Key, a: object, memA: object, b: object, memB: object)
    requires a != b
    ensures var ops := [Set(k, memA, a), Set(k, memB, b), Unset(k, memA, a)];
            Lookup(Run(map[], ops), k) == Latest(Claimants(k, ops)) == b && !KeyAlive(map[], k, ops)
  {
    var ops := [Set(k, memA, a), Set(k, memB, b), Unset(k, memA, a)];
    TwoClaim(k, a, memA, b, memB);
    TwoLiving(k, a, memA, b, memB, ops[2]);
    assert ops[..2] == [Set(k, memA, a), Set(k, memB, b)];
    assert Run(map[], ops) == map[k := Binding(b, memA)];
    MinusOther([a, b], a);
  }

  /** Once two contexts have claimed a key, the first of them to tear down breaks one promise or
      the other: the later one's teardown loses the earlier, and the earlier one's teardown, which
      leaves the later one findable, frees the memory its entry reads the key from. */
  lemma {:induction false} TwoNeverSound(k: Key, a: object, memA: object, b: object, memB: object, last: Op)
    requires a != b && (last == Unset(k, memA, a) || last == Unset(k, memB, b))
    ensures var ops := [Set(k, memA, a), Set(k, memB, b), last];
            AllOwning(k, ops) && Living(ops) && !AlwaysSound(map[], k, ops)
  {
    var ops := [Set(k, memA, a), Set(k, memB, b), last];
    TwoLiving(k, a, memA, b, memB, last);
    assert ops[..3] == ops;
    if last == Unset(k, memB, b) {
      LatestMissed(k, a, memA, b, memB);
    } else {
      FreedUnderneath(k, a, memA, b, memB);
    }
  }
}
