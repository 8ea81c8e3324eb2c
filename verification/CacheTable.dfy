/** The map entry cache (lib/cache.c) as a value: a hash table of chains of entries.

    `KeyList`, the entries of one key in lookup order, is what the cache stands for; the
    lemmas say how each operation changes it.  `CacheChains` gives the linked chains.
 */
module CacheTable {
  import opened Options

  /** A text saved by negative caching, with the age it had. */
  datatype Saved = Saved(text: string, age: int)

  /** Not part of a multi-mount, the owner of one, or an offset of one. */
  datatype Multi = Single | Owner | Offset

  datatype Ent = Ent(
    key: string, source: nat, text: Option<string>, stack: seq<Saved>, age: int, status: int, mm: Multi)

  /** `code` is the string hash before it is reduced to the table size. */
  datatype Table = Table(code: string -> nat, buckets: seq<seq<Ent>>)

  function Slot(t: Table, key: string): (i: nat)
    requires t.buckets != []
    ensures i < |t.buckets|
  {
    t.code(key) % |t.buckets|
  }

  function Chain(t: Table, key: string): seq<Ent>
    requires t.buckets != []
  {
    t.buckets[Slot(t, key)]
  }

  function SetChain(t: Table, key: string, chain: seq<Ent>): Table
    requires t.buckets != []
  {
    t.(buckets := t.buckets[Slot(t, key) := chain])
  }

  /** Every entry lies in the bucket its key hashes to. */
  predicate Placed(t: Table) {
    && t.buckets != []
    && forall b, i :: 0 <= b < |t.buckets| && 0 <= i < |t.buckets[b]| ==> Slot(t, t.buckets[b][i].key) == b
  }

  predicate UniqueIn(chain: seq<Ent>) {
    forall i, j :: 0 <= i < j < |chain| ==> chain[i].key != chain[j].key
  }

  /** No key has two entries. */
  predicate Unique(t: Table) {
    forall b :: 0 <= b < |t.buckets| ==> UniqueIn(t.buckets[b])
  }

  // ----- chains

  function Of(chain: seq<Ent>, key: string): seq<Ent> {
    if chain == [] then []
    else if chain[0].key == key then [chain[0]] + Of(chain[1..], key)
    else Of(chain[1..], key)
  }

  function Without(chain: seq<Ent>, key: string): seq<Ent> {
    if chain == [] then []
    else if chain[0].key == key then Without(chain[1..], key)
    else [chain[0]] + Without(chain[1..], key)
  }

  /** The entries of `key`, in the order lookups meet them. */
  function KeyList(t: Table, key: string): seq<Ent>
    requires t.buckets != []
  {
    Of(Chain(t, key), key)
  }

  lemma {:induction false} OfAppend(a: seq<Ent>, b: seq<Ent>, key: string)
    ensures Of(a + b, key) == Of(a, key) + Of(b, key)
  {
    if a == [] {
      assert a + b == b;
    } else {
      assert (a + b)[1..] == a[1..] + b;
      OfAppend(a[1..], b, key);
    }
  }

  lemma {:induction false} OfMembers(chain: seq<Ent>, key: string)
    ensures forall e :: e in Of(chain, key) <==> e in chain && e.key == key
    ensures forall e :: e in Without(chain, key) <==> e in chain && e.key != key
  {
    if chain == [] {
    } else {
      OfMembers(chain[1..], key);
      assert chain == [chain[0]] + chain[1..];
    }
  }

  lemma {:induction false} OfWithout(chain: seq<Ent>, key: string, k: string)
    ensures Of(Without(chain, key), k) == if k == key then [] else Of(chain, k)
  {
    if chain == [] {
    } else {
      OfWithout(chain[1..], key, k);
      assert Without(chain, key) != [] && chain[0].key != key ==> Without(chain, key)[1..] == Without(chain[1..], key);
    }
  }

  /** Index of the first entry of `key` from `source` (or of any source), or the length. */
  function First(chain: seq<Ent>, key: string): (i: nat)
    ensures i <= |chain|
    ensures i < |chain| ==> chain[i].key == key
    ensures forall j :: 0 <= j < i ==> chain[j].key != key
  {
    if chain == [] || chain[0].key == key then 0
    else
      var r := First(chain[1..], key);
      assert forall j :: 1 <= j < r + 1 ==> chain[j] == chain[1..][j - 1];
      r + 1
  }

  function FirstFrom(chain: seq<Ent>, key: string, source: nat): (i: nat)
    ensures i <= |chain|
    ensures i < |chain| ==> chain[i].key == key && chain[i].source == source
    ensures forall j :: 0 <= j < i ==> !(chain[j].key == key && chain[j].source == source)
  {
    if chain == [] || (chain[0].key == key && chain[0].source == source) then 0
    else
      var r := FirstFrom(chain[1..], key, source);
      assert forall j :: 1 <= j < r + 1 ==> chain[j] == chain[1..][j - 1];
      r + 1
  }

  /** One more than the index of the last entry of `key`, or 0. */
  function AfterLast(chain: seq<Ent>, key: string): (i: nat)
    ensures i <= |chain|
    ensures i > 0 ==> chain[i - 1].key == key
    ensures forall j :: i <= j < |chain| ==> chain[j].key != key
  {
    if chain == [] then 0
    else if chain[|chain| - 1].key == key then |chain|
    else AfterLast(chain[..|chain| - 1], key)
  }

  predicate Has(chain: seq<Ent>, key: string) {
    First(chain, key) < |chain|
  }

  lemma FirstIs(chain: seq<Ent>, key: string, i: nat)
    requires i <= |chain| && (i < |chain| ==> chain[i].key == key)
    requires forall j :: 0 <= j < i ==> chain[j].key != key
    ensures First(chain, key) == i
  {
  }

  lemma FirstFromIs(chain: seq<Ent>, key: string, source: nat, i: nat)
    requires i <= |chain| && (i < |chain| ==> chain[i].key == key && chain[i].source == source)
    requires forall j :: 0 <= j < i ==> !(chain[j].key == key && chain[j].source == source)
    ensures FirstFrom(chain, key, source) == i
  {
  }

  /** The first entry of a key in its chain heads the key's list. */
  lemma {:induction false} FirstOf(chain: seq<Ent>, key: string)
    ensures Has(chain, key) <==> Of(chain, key) != []
    ensures Has(chain, key) ==> Of(chain, key)[0] == chain[First(chain, key)]
  {
    if chain == [] {
    } else if chain[0].key != key {
      FirstOf(chain[1..], key);
      assert First(chain, key) == First(chain[1..], key) + 1;
    }
  }

  // ----- adding

  /** cache_add: a new key goes to the front of its chain; otherwise the new entry is linked
      after the last one of its key, which drops whatever followed that entry. */
  function AddTo(chain: seq<Ent>, e: Ent): seq<Ent> {
    if !Has(chain, e.key) then [e] + chain
    else chain[..AfterLast(chain, e.key)] + [e]
  }

  function NewEnt(source: nat, key: string, text: Option<string>, age: int): Ent {
    Ent(key, source, text, [], age, 0, Single)
  }

  function Add(t: Table, source: nat, key: string, text: Option<string>, age: int): Table
    requires t.buckets != []
  {
    SetChain(t, key, AddTo(Chain(t, key), NewEnt(source, key, text, age)))
  }

  lemma {:induction false} OfNone(chain: seq<Ent>, key: string)
    requires forall j :: 0 <= j < |chain| ==> chain[j].key != key
    ensures Of(chain, key) == [] && Without(chain, key) == chain
  {
    if chain == [] {
    } else {
      OfNone(chain[1..], key);
    }
  }

  lemma AddToKeyList(chain: seq<Ent>, e: Ent)
    ensures Of(AddTo(chain, e), e.key) == Of(chain, e.key) + [e]
  {
    var j := AfterLast(chain, e.key);
    assert Of([e], e.key) == [e] by { assert [e][1..] == []; }
    if !Has(chain, e.key) {
      OfAppend([e], chain, e.key);
      OfNone(chain, e.key);
    } else {
      var front, back := chain[..j], chain[j..];
      assert chain == front + back;
      OfAppend(front, [e], e.key);
      OfAppend(front, back, e.key);
      OfNone(back, e.key);
    }
  }

  /** What adding a further entry of a known key costs another key: its entries behind the
      last one of that key. */
  lemma AddToCuts(chain: seq<Ent>, e: Ent, k: string)
    requires Has(chain, e.key) && k != e.key
    ensures Of(chain, k) == Of(AddTo(chain, e), k) + Of(chain[AfterLast(chain, e.key)..], k)
  {
    var j := AfterLast(chain, e.key);
    assert chain == chain[..j] + chain[j..];
    OfAppend(chain[..j], chain[j..], k);
    OfAppend(chain[..j], [e], k);
  }

  predicate Conserves(chain: seq<Ent>, e: Ent) {
    !Has(chain, e.key) || AfterLast(chain, e.key) == |chain|
  }

  /** Adding keeps the other keys' entries exactly when the key is new or its last entry ends
      the chain. */
  lemma AddToConservesIff(chain: seq<Ent>, e: Ent)
    ensures (forall k :: k != e.key ==> Of(AddTo(chain, e), k) == Of(chain, k)) <==> Conserves(chain, e)
  {
    if !Has(chain, e.key) {
      forall k | k != e.key ensures Of(AddTo(chain, e), k) == Of(chain, k) {
        OfAppend([e], chain, k);
      }
    } else if AfterLast(chain, e.key) == |chain| {
      forall k | k != e.key ensures Of(AddTo(chain, e), k) == Of(chain, k) {
        AddToCuts(chain, e, k);
      }
    } else {
      var j := AfterLast(chain, e.key);
      AddToCuts(chain, e, chain[j].key);
    }
  }

  // ----- updating

  datatype Code = Fail | Done | Updated

  function Refresh(e: Ent, text: Option<string>, age: int): Ent {
    if e.age == age then e else e.(text := text, age := age)
  }

  function UpdateChain(chain: seq<Ent>, source: nat, key: string, text: Option<string>, age: int): (seq<Ent>, Code) {
    var i := FirstFrom(chain, key, source);
    if i == |chain| then (AddTo(chain, NewEnt(source, key, text, age)), Updated)
    else (chain[i := Refresh(chain[i], text, age)],
          if chain[i].age != age && text.Some? && chain[i].text != text then Updated else Done)
  }

  /** cache_update; a wildcard entry found in place of the key leads to an add as well. */
  function Update(t: Table, source: nat, key: string, text: Option<string>, age: int): Table
    requires t.buckets != []
  {
    SetChain(t, key, UpdateChain(Chain(t, key), source, key, text, age).0)
  }

  // ----- deleting

  /** The loop of cache_delete over the entries after the first: stops at an entry of a
      multi-mount. */
  function DropAfter(rest: seq<Ent>, key: string): (r: (seq<Ent>, bool)) {
    if rest == [] then ([], true)
    else if rest[0].key != key then
      var (kept, ok) := DropAfter(rest[1..], key);
      ([rest[0]] + kept, ok)
    else if !rest[0].mm.Single? then (rest, false)
    else DropAfter(rest[1..], key)
  }

  function DeleteFrom(chain: seq<Ent>, key: string): (seq<Ent>, bool) {
    if chain == [] then ([], true)
    else
      var (kept, ok) := DropAfter(chain[1..], key);
      if !ok then ([chain[0]] + kept, false)
      else if chain[0].key != key then ([chain[0]] + kept, true)
      else if !chain[0].mm.Single? then ([chain[0]] + kept, false)
      else (kept, true)
  }

  /** cache_delete */
  function Delete(t: Table, key: string): (Table, bool)
    requires t.buckets != []
  {
    var (chain, ok) := DeleteFrom(Chain(t, key), key);
    (SetChain(t, key, chain), ok)
  }

  predicate InMulti(chain: seq<Ent>, key: string) {
    exists e :: e in chain && e.key == key && !e.mm.Single?
  }

  lemma {:induction false} DropAfterIs(rest: seq<Ent>, key: string)
    ensures var (kept, ok) := DropAfter(rest, key);
            && (ok <==> !InMulti(rest, key))
            && (ok ==> kept == Without(rest, key))
            && Without(kept, key) == Without(rest, key)
  {
    if rest == [] {
    } else {
      DropAfterIs(rest[1..], key);
      assert rest == [rest[0]] + rest[1..];
      if rest[0].key != key {
        assert DropAfter(rest, key).0[1..] == DropAfter(rest[1..], key).0;
      }
    }
  }

  /** A delete succeeds exactly when no entry of the key belongs to a multi-mount; it then
      removes all entries of the key and nothing else, and otherwise keeps all other entries. */
  lemma {:induction false} DeleteFromIs(chain: seq<Ent>, key: string)
    ensures var (kept, ok) := DeleteFrom(chain, key);
            && (ok <==> !InMulti(chain, key))
            && (ok ==> kept == Without(chain, key))
            && Without(kept, key) == Without(chain, key)
  {
    if chain != [] {
      DropAfterIs(chain[1..], key);
      assert chain == [chain[0]] + chain[1..];
      assert ([chain[0]] + DropAfter(chain[1..], key).0)[1..] == DropAfter(chain[1..], key).0;
    }
  }

  // ----- what every operation keeps

  lemma SetChainPlaced(t: Table, key: string, chain: seq<Ent>)
    requires Placed(t)
    requires forall i :: 0 <= i < |chain| ==> chain[i].key == key || chain[i] in Chain(t, key)
    ensures Placed(SetChain(t, key, chain))
  {
    var t' := SetChain(t, key, chain);
    forall b, i | 0 <= b < |t'.buckets| && 0 <= i < |t'.buckets[b]| ensures Slot(t', t'.buckets[b][i].key) == b {
      var e := t'.buckets[b][i];
      assert Slot(t', e.key) == Slot(t, e.key);
      if b == Slot(t, key) && e.key != key {
        var j :| 0 <= j < |Chain(t, key)| && Chain(t, key)[j] == e;
        assert t.buckets[b][j] == e;
      } else if b != Slot(t, key) {
        assert t.buckets[b][i] == e;
      }
    }
  }

  /** Every operation leaves every entry in the bucket of its key. */
  lemma OperationsKeepPlaced(t: Table, source: nat, key: string, text: Option<string>, age: int)
    requires Placed(t)
    ensures Placed(Add(t, source, key, text, age))
    ensures Placed(Update(t, source, key, text, age))
    ensures Placed(Delete(t, key).0)
  {
    var chain := Chain(t, key);
    SetChainPlaced(t, key, AddTo(chain, NewEnt(source, key, text, age)));
    var i := FirstFrom(chain, key, source);
    if i < |chain| {
      SetChainPlaced(t, key, chain[i := Refresh(chain[i], text, age)]);
    }
    DeleteFromIs(chain, key);
    DeleteSubset(chain, key);
    SetChainPlaced(t, key, DeleteFrom(chain, key).0);
  }

  lemma DeleteSubset(chain: seq<Ent>, key: string)
    ensures forall e :: e in DeleteFrom(chain, key).0 ==> e in chain
  {
    if chain != [] {
      DropSubset(chain[1..], key);
      assert chain == [chain[0]] + chain[1..];
    }
  }

  lemma {:induction false} DropSubset(rest: seq<Ent>, key: string)
    ensures forall e :: e in DropAfter(rest, key).0 ==> e in rest
  {
    if rest == [] {
    } else {
      DropSubset(rest[1..], key);
      assert rest == [rest[0]] + rest[1..];
    }
  }

  /** A successful delete: the key is gone, every other key keeps its entries in order. */
  lemma DeleteExactly(t: Table, key: string, k: string)
    requires Placed(t)
    ensures var (t', ok) := Delete(t, key);
            && (ok <==> !InMulti(Chain(t, key), key))
            && (ok ==> KeyList(t', k) == if k == key then [] else KeyList(t, k))
            && (k != key ==> KeyList(t', k) == KeyList(t, k))
  {
    var chain := Chain(t, key);
    DeleteFromIs(chain, key);
    OfWithout(chain, key, k);
    var (kept, ok) := DeleteFrom(chain, key);
    if k != key {
      OfWithout(kept, key, k);
    }
  }

  // ----- what cache_update reports

  /** It reports an update exactly when the key's entries have a new text: an entry was added, or
      one of another age was given another text; and it does not fail. */
  lemma UpdateReports(chain: seq<Ent>, source: nat, key: string, text: Option<string>, age: int)
    ensures var (chain', code) := UpdateChain(chain, source, key, text, age);
      && !code.Fail?
      && (code.Updated? <==>
            || !(exists i :: 0 <= i < |chain| && chain[i].key == key && chain[i].source == source)
            || (text.Some? && exists i :: 0 <= i < |chain| && i < |chain'| && chain'[i].text == text != chain[i].text))
  {
    var i := FirstFrom(chain, key, source);
    var chain' := UpdateChain(chain, source, key, text, age).0;
    if i < |chain| {
      assert chain' == chain[i := Refresh(chain[i], text, age)];
    }
  }
}
