/** The entries of one key lie together in their chain, whatever was added, updated and deleted
    (lib/cache.c:513-583, 721-828).
 */
module CacheAdjacent {
  import opened Options
  import opened CacheTable
  import opened CacheRuns

  /** Between two entries of a key there are only entries of that key. */
  predicate Together(chain: seq<Ent>) {
    forall i, j, k :: 0 <= i < j < k < |chain| && chain[i].key == chain[k].key ==> chain[j].key == chain[i].key
  }

  predicate Adjacent(t: Table) {
    forall b :: 0 <= b < |t.buckets| ==> Together(t.buckets[b])
  }

  lemma AddTogether(chain: seq<Ent>, e: Ent)
    requires Together(chain)
    ensures Together(AddTo(chain, e))
  {
    var c := AddTo(chain, e);
    var n := AfterLast(chain, e.key);
    if Has(chain, e.key) {
      assert n > 0 && chain[n - 1].key == e.key;
      forall i, j, k | 0 <= i < j < k < |c| && c[i].key == c[k].key ensures c[j].key == c[i].key {
        assert c[i] == chain[i] && c[j] == chain[j];
        if k < n {
          assert c[k] == chain[k];
        } else if j < n - 1 {
          assert chain[n - 1].key == chain[i].key;
        }
      }
    }
  }

  lemma SetTogether(chain: seq<Ent>, i: nat, e: Ent)
    requires Together(chain) && i < |chain| && e.key == chain[i].key
    ensures Together(chain[i := e])
  {
    var c := chain[i := e];
    assert forall j :: 0 <= j < |c| ==> c[j].key == chain[j].key;
  }

  /** Only what comes after in the chain is compared with an entry put before it. */
  lemma ConsTogether(e: Ent, rest: seq<Ent>)
    requires Together(rest)
    requires forall j, k :: 0 <= j < k < |rest| && rest[k].key == e.key ==> rest[j].key == e.key
    ensures Together([e] + rest)
  {
    var c := [e] + rest;
    forall i, j, k | 0 <= i < j < k < |c| && c[i].key == c[k].key ensures c[j].key == c[i].key {
      assert c[j] == rest[j - 1] && c[k] == rest[k - 1];
      if i > 0 { assert c[i] == rest[i - 1]; }
    }
  }

  /** All entries of `key` in the chain come first. */
  predicate Leading(chain: seq<Ent>, key: string) {
    forall j, k :: 0 <= j < k < |chain| && chain[k].key == key ==> chain[j].key == key
  }

  /** Entries of one key that come first still do when another key's are taken out, and entries
      that lay together still do. */
  lemma {:induction false} DropTogether(rest: seq<Ent>, key: string, lead: string)
    requires Together(rest)
    ensures var kept := DropAfter(rest, key).0; Together(kept) && (Leading(rest, lead) ==> Leading(kept, lead))
  {
    if rest == [] {
    } else {
      DropTogether(rest[1..], key, rest[0].key);
      DropTogether(rest[1..], key, lead);
      DropSubset(rest[1..], key);
      var tail := DropAfter(rest[1..], key).0;
      if rest[0].key != key {
        assert Leading(rest[1..], rest[0].key);
        ConsTogether(rest[0], tail);
        if Leading(rest, lead) { ConsLeading(rest, tail, lead); }
      }
    }
  }

  lemma ConsLeading(rest: seq<Ent>, tail: seq<Ent>, lead: string)
    requires rest != [] && Leading(rest, lead) && Leading(tail, lead) && forall e :: e in tail ==> e in rest[1..]
    ensures Leading([rest[0]] + tail, lead)
  {
    var c := [rest[0]] + tail;
    forall j, k | 0 <= j < k < |c| && c[k].key == lead ensures c[j].key == lead {
      assert c[k] == tail[k - 1] && tail[k - 1] in rest[1..];
      if j > 0 { assert c[j] == tail[j - 1]; }
    }
  }

  lemma DeleteTogether(chain: seq<Ent>, key: string)
    requires Together(chain)
    ensures Together(DeleteFrom(chain, key).0)
  {
    if chain != [] {
      assert Leading(chain[1..], chain[0].key);
      DropTogether(chain[1..], key, chain[0].key);
      ConsTogether(chain[0], DropAfter(chain[1..], key).0);
    }
  }

  lemma ApplyAdjacent(t: Table, op: Op)
    requires t.buckets != [] && Adjacent(t)
    ensures Adjacent(Apply(t, op)) && Apply(t, op).buckets != []
  {
    var chain := Chain(t, op.key);
    match op
    case AddOp(source, key, text, age) => AddTogether(chain, NewEnt(source, key, text, age));
    case UpdateOp(source, key, text, age) =>
      AddTogether(chain, NewEnt(source, key, text, age));
      var i := FirstFrom(chain, key, source);
      if i < |chain| { SetTogether(chain, i, Refresh(chain[i], text, age)); }
    case DeleteOp(key) => DeleteTogether(chain, key);
  }

  lemma {:induction false} RunAdjacent(t: Table, ops: seq<Op>)
    requires Placed(t) && AllSingle(t) && Adjacent(t)
    ensures var r := ApplyAll(t, ops); Placed(r) && AllSingle(r) && Adjacent(r)
    decreases |ops|
  {
    if ops == [] {
    } else {
      ApplyAdjacent(t, ops[0]);
      ApplyKeeps(t, ops[0]);
      RunAdjacent(Apply(t, ops[0]), ops[1..]);
    }
  }

  /** In every cache that adds, updates and deletions build, the entries of a key lie together. */
  lemma CacheIsAdjacent(t: Table, ops: seq<Op>)
    requires Empty(t)
    ensures var r := ApplyAll(t, ops); Placed(r) && AllSingle(r) && Adjacent(r)
  {
    RunAdjacent(t, ops);
  }
}
