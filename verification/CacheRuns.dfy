/** The cache against its simplest reading: for each key, a list of entries in the order they
    came (lib/cache.c:513-583, 721-828).
 */
module CacheRuns {
  import opened Options
  import opened CacheTable

  datatype Op =
    | AddOp(source: nat, key: string, text: Option<string>, age: int)
    | UpdateOp(source: nat, key: string, text: Option<string>, age: int)
    | DeleteOp(key: string)

  function Apply(t: Table, op: Op): Table
    requires t.buckets != []
  {
    match op
    case AddOp(source, key, text, age) => Add(t, source, key, text, age)
    case UpdateOp(source, key, text, age) => Update(t, source, key, text, age)
    case DeleteOp(key) => Delete(t, key).0
  }

  function ApplyAll(t: Table, ops: seq<Op>): Table
    requires t.buckets != []
    decreases |ops|
  {
    if ops == [] then t else ApplyAll(Apply(t, ops[0]), ops[1..])
  }

  // ----- one key as a list

  function UpdateList(list: seq<Ent>, source: nat, key: string, text: Option<string>, age: int): seq<Ent> {
    var i := FirstFrom(list, key, source);
    if i == |list| then list + [NewEnt(source, key, text, age)] else list[i := Refresh(list[i], text, age)]
  }

  function ApplyList(list: seq<Ent>, op: Op, k: string): seq<Ent> {
    if op.key != k then list
    else match op
      case AddOp(source, key, text, age) => list + [NewEnt(source, key, text, age)]
      case UpdateOp(source, key, text, age) => UpdateList(list, source, key, text, age)
      case DeleteOp(_) => []
  }

  function ApplyAllList(list: seq<Ent>, ops: seq<Op>, k: string): seq<Ent>
    decreases |ops|
  {
    if ops == [] then list else ApplyAllList(ApplyList(list, ops[0], k), ops[1..], k)
  }

  // ----- chains and lists agree

  lemma FirstFromSkips(e: Ent, l: seq<Ent>, key: string, source: nat)
    requires !(e.key == key && e.source == source)
    ensures FirstFrom([e] + l, key, source) == 1 + FirstFrom(l, key, source)
  {
    assert ([e] + l)[1..] == l;
  }

  /** Changing an entry's contents changes no list but that of its key. */
  lemma {:induction false} SetElsewhere(chain: seq<Ent>, i: nat, e: Ent, k: string)
    requires i < |chain| && e.key == chain[i].key && k != e.key
    ensures Of(chain[i := e], k) == Of(chain, k)
  {
    if i == 0 {
      assert chain[0 := e][1..] == chain[1..];
    } else {
      assert chain[i := e][1..] == chain[1..][i - 1 := e];
      SetElsewhere(chain[1..], i - 1, e, k);
    }
  }

  /** The first entry of a source in the chain is the first one in the key's list. */
  lemma {:induction false} UpdateOf(chain: seq<Ent>, source: nat, key: string, f: Ent -> Ent)
    requires forall e :: f(e).key == e.key
    ensures var i := FirstFrom(chain, key, source); var l := Of(chain, key); var j := FirstFrom(l, key, source);
      if i == |chain| then j == |l| else j < |l| && Of(chain[i := f(chain[i])], key) == l[j := f(l[j])]
  {
    if chain == [] {
    } else {
      var e, rest := chain[0], chain[1..];
      if e.key == key && e.source == source {
        assert chain[0 := f(e)][1..] == rest;
      } else {
        UpdateOf(rest, source, key, f);
        FirstFromSkips(e, Of(rest, key), key, source);
        var n := FirstFrom(rest, key, source);
        if n < |rest| {
          assert chain[n + 1 := f(chain[n + 1])][1..] == rest[n := f(rest[n])];
        }
      }
    }
  }

  predicate AllSingle(t: Table) {
    forall b, i :: 0 <= b < |t.buckets| && 0 <= i < |t.buckets[b]| ==> t.buckets[b][i].mm.Single?
  }

  /** The operation does not cut off entries of other keys. */
  predicate Safe(t: Table, op: Op)
    requires t.buckets != []
  {
    match op
    case AddOp(source, key, text, age) => Conserves(Chain(t, key), NewEnt(source, key, text, age))
    case UpdateOp(source, key, text, age) =>
      || FirstFrom(Chain(t, key), key, source) < |Chain(t, key)|
      || Conserves(Chain(t, key), NewEnt(source, key, text, age))
    case DeleteOp(_) => true
  }

  predicate AllSafe(t: Table, ops: seq<Op>)
    requires t.buckets != []
    decreases |ops|
  {
    ops == [] || (Safe(t, ops[0]) && AllSafe(Apply(t, ops[0]), ops[1..]))
  }

  lemma SingleDeletes(t: Table, key: string)
    requires t.buckets != [] && AllSingle(t)
    ensures !InMulti(Chain(t, key), key)
  {
    forall e | e in Chain(t, key) ensures e.mm.Single? {
      var i :| 0 <= i < |Chain(t, key)| && Chain(t, key)[i] == e;
      assert t.buckets[Slot(t, key)][i] == e;
    }
  }

  /** One operation on one key's list. */
  lemma ApplyKeyList(t: Table, op: Op, k: string)
    requires Placed(t) && AllSingle(t) && Safe(t, op)
    ensures KeyList(Apply(t, op), k) == ApplyList(KeyList(t, k), op, k)
  {
    var chain := Chain(t, op.key);
    match op
    case AddOp(source, key, text, age) => AddedKeyList(t, NewEnt(source, key, text, age), k);
    case UpdateOp(source, key, text, age) =>
      UpdateOf(chain, source, key, e => Refresh(e, text, age));
      var i := FirstFrom(chain, key, source);
      if i == |chain| {
        AddedKeyList(t, NewEnt(source, key, text, age), k);
      } else if k != key {
        SetElsewhere(chain, i, Refresh(chain[i], text, age), k);
      }
    case DeleteOp(key) =>
      SingleDeletes(t, key);
      DeleteExactly(t, key, k);
  }

  lemma AddedKeyList(t: Table, e: Ent, k: string)
    requires Placed(t) && Conserves(Chain(t, e.key), e)
    ensures KeyList(SetChain(t, e.key, AddTo(Chain(t, e.key), e)), k)
         == if k == e.key then KeyList(t, k) + [e] else KeyList(t, k)
  {
    var chain := Chain(t, e.key);
    var t' := SetChain(t, e.key, AddTo(chain, e));
    assert Chain(t', k) == if Slot(t, k) == Slot(t, e.key) then AddTo(chain, e) else Chain(t, k);
    AddToKeyList(chain, e);
    AddToConservesIff(chain, e);
    assert k != e.key ==> Of(AddTo(chain, e), k) == Of(chain, k);
  }

  predicate SingleChain(chain: seq<Ent>) {
    forall i :: 0 <= i < |chain| ==> chain[i].mm.Single?
  }

  lemma SetSingle(t: Table, key: string, chain: seq<Ent>)
    requires t.buckets != [] && AllSingle(t) && SingleChain(chain)
    ensures AllSingle(SetChain(t, key, chain))
  {
  }

  lemma ChainSingle(t: Table, key: string, e: Ent)
    requires t.buckets != [] && AllSingle(t) && e.mm.Single?
    ensures SingleChain(Chain(t, key)) && SingleChain(AddTo(Chain(t, key), e))
    ensures SingleChain(DeleteFrom(Chain(t, key), key).0)
  {
    var chain := Chain(t, key);
    assert SingleChain(chain) by { assert chain == t.buckets[Slot(t, key)]; }
    DeleteSubset(chain, key);
    var kept := DeleteFrom(chain, key).0;
    forall i | 0 <= i < |kept| ensures kept[i].mm.Single? {
      assert kept[i] in chain;
    }
  }

  lemma ApplyKeeps(t: Table, op: Op)
    requires Placed(t) && AllSingle(t)
    ensures Placed(Apply(t, op)) && AllSingle(Apply(t, op))
  {
    var chain := Chain(t, op.key);
    match op
    case AddOp(source, key, text, age) =>
      OperationsKeepPlaced(t, source, key, text, age);
      ChainSingle(t, key, NewEnt(source, key, text, age));
      SetSingle(t, key, AddTo(chain, NewEnt(source, key, text, age)));
    case UpdateOp(source, key, text, age) =>
      OperationsKeepPlaced(t, source, key, text, age);
      ChainSingle(t, key, NewEnt(source, key, text, age));
      SetSingle(t, key, UpdateChain(chain, source, key, text, age).0);
    case DeleteOp(key) =>
      OperationsKeepPlaced(t, 0, key, None, 0);
      ChainSingle(t, key, NewEnt(0, key, None, 0));
      SetSingle(t, key, DeleteFrom(chain, key).0);
  }

  predicate Empty(t: Table) {
    t.buckets != [] && forall b :: 0 <= b < |t.buckets| ==> t.buckets[b] == []
  }

  lemma {:induction false} RunFrom(t: Table, ops: seq<Op>, k: string)
    requires Placed(t) && AllSingle(t)
    ensures ApplyAll(t, ops).buckets != [] && Placed(ApplyAll(t, ops))
    ensures AllSafe(t, ops) ==> KeyList(ApplyAll(t, ops), k) == ApplyAllList(KeyList(t, k), ops, k)
    decreases |ops|
  {
    if ops == [] {
    } else {
      ApplyKeeps(t, ops[0]);
      if Safe(t, ops[0]) { ApplyKeyList(t, ops[0], k); }
      RunFrom(Apply(t, ops[0]), ops[1..], k);
    }
  }

  /** After any run of adds, updates and deletes every entry lies in the bucket of its key; and
      if no add cut a chain short, each key has exactly the list that the operations on that
      key alone make, whatever the other keys and the hash did. */
  lemma CacheIsLists(t: Table, ops: seq<Op>, k: string)
    requires Empty(t)
    ensures ApplyAll(t, ops).buckets != [] && Placed(ApplyAll(t, ops))
    ensures AllSafe(t, ops) ==> KeyList(ApplyAll(t, ops), k) == ApplyAllList([], ops, k)
  {
    assert KeyList(t, k) == [];
    RunFrom(t, ops, k);
  }

  /** One entry per key, all of them from one source. */
  predicate OneSource(t: Table, source: nat) {
    Unique(t) && forall b, i :: 0 <= b < |t.buckets| && 0 <= i < |t.buckets[b]| ==> t.buckets[b][i].source == source
  }

  /** The operations of a map with a single source: adds only of keys that are not there. */
  predicate FromSource(t: Table, op: Op, source: nat)
    requires t.buckets != []
  {
    match op
    case AddOp(s, key, _, _) => s == source && !Has(Chain(t, key), key)
    case UpdateOp(s, _, _, _) => s == source
    case DeleteOp(_) => true
  }

  predicate AllFromSource(t: Table, ops: seq<Op>, source: nat)
    requires t.buckets != []
    decreases |ops|
  {
    ops == [] || (FromSource(t, ops[0], source) && AllFromSource(Apply(t, ops[0]), ops[1..], source))
  }

  lemma SourceIsThere(t: Table, key: string, source: nat)
    requires t.buckets != [] && OneSource(t, source)
    ensures FirstFrom(Chain(t, key), key, source) == First(Chain(t, key), key)
  {
    var chain := Chain(t, key);
    var i := First(chain, key);
    assert i < |chain| ==> t.buckets[Slot(t, key)][i].source == source;
    FirstFromIs(chain, key, source, i);
  }

  lemma SingleSourceIsSafe(t: Table, op: Op, source: nat)
    requires t.buckets != [] && OneSource(t, source) && FromSource(t, op, source)
    ensures Safe(t, op)
  {
    SourceIsThere(t, op.key, source);
  }

  /** A chain of entries with distinct keys, all from the source. */
  predicate SourceChain(chain: seq<Ent>, source: nat) {
    UniqueIn(chain) && forall i :: 0 <= i < |chain| ==> chain[i].source == source
  }

  lemma SetSource(t: Table, key: string, chain: seq<Ent>, source: nat)
    requires t.buckets != [] && OneSource(t, source) && SourceChain(chain, source)
    ensures OneSource(SetChain(t, key, chain), source)
  {
    var t' := SetChain(t, key, chain);
    forall b | 0 <= b < |t'.buckets| ensures UniqueIn(t'.buckets[b]) {
    }
  }

  lemma {:induction false} WithoutSource(chain: seq<Ent>, key: string, source: nat)
    requires SourceChain(chain, source)
    ensures SourceChain(Without(chain, key), source)
    ensures forall e :: e in Without(chain, key) ==> e in chain
  {
    if chain == [] {
    } else {
      var rest := chain[1..];
      WithoutSource(rest, key, source);
      var r := Without(rest, key);
      forall i | 0 <= i < |r| ensures r[i].key != chain[0].key {
        assert r[i] in r;
        var j :| 0 <= j < |rest| && rest[j] == r[i];
        assert chain[j + 1] == r[i];
      }
      assert chain == [chain[0]] + rest;
    }
  }

  lemma ApplyOneSource(t: Table, op: Op, source: nat)
    requires Placed(t) && AllSingle(t) && OneSource(t, source) && FromSource(t, op, source)
    ensures OneSource(Apply(t, op), source)
  {
    var chain := Chain(t, op.key);
    assert SourceChain(chain, source) by { assert chain == t.buckets[Slot(t, op.key)]; }
    SourceIsThere(t, op.key, source);
    match op
    case AddOp(s, key, text, age) =>
      NewSource(chain, NewEnt(s, key, text, age), source);
      SetSource(t, key, AddTo(chain, NewEnt(s, key, text, age)), source);
    case UpdateOp(s, key, text, age) =>
      if !Has(chain, key) { NewSource(chain, NewEnt(s, key, text, age), source); }
      SetSource(t, key, UpdateChain(chain, s, key, text, age).0, source);
    case DeleteOp(key) =>
      SingleDeletes(t, key);
      DeleteFromIs(chain, key);
      WithoutSource(chain, key, source);
      SetSource(t, key, Without(chain, key), source);
  }

  lemma NewSource(chain: seq<Ent>, e: Ent, source: nat)
    requires SourceChain(chain, source) && !Has(chain, e.key) && e.source == source
    ensures SourceChain(AddTo(chain, e), source)
  {
  }

  lemma {:induction false} SingleSourceSafe(t: Table, ops: seq<Op>, source: nat)
    requires Placed(t) && AllSingle(t) && OneSource(t, source) && AllFromSource(t, ops, source)
    ensures AllSafe(t, ops)
    decreases |ops|
  {
    if ops == [] {
    } else {
      SingleSourceIsSafe(t, ops[0], source);
      ApplyKeeps(t, ops[0]);
      ApplyOneSource(t, ops[0], source);
      SingleSourceSafe(Apply(t, ops[0]), ops[1..], source);
    }
  }

  /** With a single source no run ever cuts a chain: each key has exactly the list that the
      operations on that key make, which is at most one entry. */
  lemma SingleSourceIsLists(t: Table, ops: seq<Op>, source: nat, k: string)
    requires Empty(t) && AllFromSource(t, ops, source)
    ensures ApplyAll(t, ops).buckets != []
    ensures KeyList(ApplyAll(t, ops), k) == ApplyAllList([], ops, k)
  {
    SingleSourceSafe(t, ops, source);
    CacheIsLists(t, ops, k);
  }

  // ----- a second source

  lemma CutChain(ea: Ent, eb: Ent, eb': Ent)
    requires ea.key != eb.key && eb'.key == eb.key
    ensures AddTo(AddTo([], ea), eb) == [eb, ea] && AddTo([eb, ea], eb') == [eb, eb']
    ensures Of([eb, ea], ea.key) == [ea] && Of([eb, eb'], ea.key) == [] && !Conserves([eb, ea], eb')
  {
    assert AfterLast([eb, ea], eb.key) == 1 by { assert [eb, ea][..1] == [eb]; }
    assert [eb, ea][..1] + [eb'] == [eb, eb'];
    assert [eb, ea][1..] == [ea] && [ea][1..] == [] && [eb, eb'][1..] == [eb'] && [eb'][1..] == [];
    assert Of([ea], ea.key) == [ea] && Of([eb'], ea.key) == [];
  }

  lemma ThreeOps(t: Table, x: Op, y: Op, z: Op)
    requires t.buckets != []
    ensures ApplyAll(t, [x, y]) == Apply(Apply(t, x), y)
    ensures ApplyAll(t, [x, y, z]) == Apply(Apply(Apply(t, x), y), z)
    ensures AllSafe(t, [x, y, z]) ==> Safe(Apply(Apply(t, x), y), z)
  {
    assert [x, y, z][1..] == [y, z] && [x, y][1..] == [y];
    TwoOps(Apply(t, x), y, z);
  }

  lemma OneOp(t: Table, z: Op)
    requires t.buckets != []
    ensures ApplyAll(t, [z]) == Apply(t, z) && (AllSafe(t, [z]) ==> Safe(t, z))
  {
    assert [z][1..] == [];
  }

  lemma TwoOps(t: Table, y: Op, z: Op)
    requires t.buckets != []
    ensures ApplyAll(t, [y]) == Apply(t, y)
    ensures ApplyAll(t, [y, z]) == Apply(Apply(t, y), z)
    ensures AllSafe(t, [y, z]) ==> Safe(Apply(t, y), z)
  {
    assert [y, z][1..] == [z] && [y][1..] == [];
    OneOp(Apply(t, y), z);
  }

  /** Two keys that share a bucket, and a second source's entry for the later one: the other
      key's entry, which was there, is gone. */
  lemma SecondSourceCuts(t: Table, a: string, b: string, text: Option<string>, age: int)
    requires Empty(t) && a != b && Slot(t, a) == Slot(t, b)
    ensures var x, y, z := AddOp(1, a, text, age), AddOp(1, b, text, age), AddOp(2, b, text, age);
      var t2, t3 := ApplyAll(t, [x, y]), ApplyAll(t, [x, y, z]);
      && t2.buckets != [] && KeyList(t2, a) == [NewEnt(1, a, text, age)]
      && t3.buckets != [] && KeyList(t3, a) == [] && !AllSafe(t, [x, y, z])
  {
    var x, y, z := AddOp(1, a, text, age), AddOp(1, b, text, age), AddOp(2, b, text, age);
    var ea, eb, eb' := NewEnt(1, a, text, age), NewEnt(1, b, text, age), NewEnt(2, b, text, age);
    ThreeOps(t, x, y, z);
    CutChain(ea, eb, eb');
    var t1 := Apply(t, x);
    assert Chain(t1, b) == AddTo([], ea) && Slot(t1, a) == Slot(t1, b);
    var t2 := Apply(t1, y);
    assert Chain(t2, b) == [eb, ea] && Slot(t2, a) == Slot(t2, b);
  }

  /** Such a table and keys: one bucket. */
  lemma SecondSourceExample()
    ensures var t := Table(_ => 0, [[]]);
      var ops := [AddOp(1, "a", Some("x"), 5), AddOp(1, "b", Some("x"), 5), AddOp(2, "b", Some("x"), 5)];
      Empty(t) && ApplyAll(t, ops).buckets != [] && KeyList(ApplyAll(t, ops), "a") == []
  {
    SecondSourceCuts(Table(_ => 0, [[]]), "a", "b", Some("x"), 5);
  }
}
