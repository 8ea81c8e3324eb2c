/** The loop of lookup_prune_one_cache (daemon/lookup.c:1343-1503): it enumerates the cache while
    deleting from it, and after each deletion finds its place again by the key of the next entry.

    On a cache with several entries of one key an iteration need not do to the cache what pruning
    its entry would, nor go on with the next entry.  `IterationIff` says exactly when it does.
 */
module CachePruneLoop {
  import opened Options
  import opened CacheTable
  import opened CacheEnumerate
  import opened CachePrune

  /** The first primary entry at or after index `i` of bucket `b`. */
  function FirstAt(t: Table, b: nat, i: nat): (p: Pos)
    requires b < |t.buckets| && i <= |t.buckets[b]|
    ensures ValidPos(t, p)
  {
    var j := NextIn(t.buckets[b], i);
    if j < |t.buckets[b]| then At(b, j) else FromBucket(t, b + 1)
  }

  /** Buckets before `b`, and the first `k` entries of bucket `b`, have been pruned. */
  function Halfway(p: Run, t: Table, b: nat, k: nat): (r: Table)
    requires b < |t.buckets| && k <= |t.buckets[b]|
    ensures |r.buckets| == |t.buckets| && r.code == t.code
    ensures r.buckets[b] == PruneChain(p, t.buckets[b][..k]) + t.buckets[b][k..]
  {
    t.(buckets := seq(|t.buckets|, c requires 0 <= c < |t.buckets| =>
         if c < b then PruneChain(p, t.buckets[c])
         else if c == b then PruneChain(p, t.buckets[b][..k]) + t.buckets[b][k..]
         else t.buckets[c]))
  }

  function Behind(p: Run, t: Table, b: nat, k: nat): nat
    requires b < |t.buckets| && k <= |t.buckets[b]|
  {
    |PruneChain(p, t.buckets[b][..k])|
  }

  lemma PruneOne(p: Run, chain: seq<Ent>, k: nat)
    requires k < |chain|
    ensures PruneChain(p, chain[..k + 1]) ==
              PruneChain(p, chain[..k]) + (if FateOf(p, chain[k]).Some? then [FateOf(p, chain[k]).value] else [])
  {
    assert chain[..k + 1] == chain[..k] + [chain[k]];
    PruneAppend(p, chain[..k], [chain[k]]);
    assert [chain[k]][1..] == [];
  }

  lemma NextBucket(p: Run, t: Table, b: nat)
    requires b + 1 < |t.buckets|
    ensures Halfway(p, t, b, |t.buckets[b]|) == Halfway(p, t, b + 1, 0)
    ensures Behind(p, t, b + 1, 0) == 0
  {
    var c := t.buckets[b];
    assert c[..|c|] == c && c[|c|..] == [] && PruneChain(p, c) + [] == PruneChain(p, c);
    var d := t.buckets[b + 1];
    assert d[..0] == [] && d[0..] == d && [] + d == d;
    assert Halfway(p, t, b, |c|).buckets == Halfway(p, t, b + 1, 0).buckets;
  }

  lemma LastBucket(p: Run, t: Table, b: nat)
    requires b + 1 == |t.buckets|
    ensures Halfway(p, t, b, |t.buckets[b]|) == PruneTable(p, t)
  {
    var c := t.buckets[b];
    assert c[..|c|] == c && c[|c|..] == [] && PruneChain(p, c) + [] == PruneChain(p, c);
    assert Halfway(p, t, b, |c|).buckets == PruneTable(p, t).buckets;
  }

  /** The loop stands at its cursor: at an entry of the original table not pruned yet, or at
      the end of a fully pruned table. */
  ghost predicate Stands(p: Run, t: Table, h: Table, cur: Pos, b: nat, k: nat) {
    && b < |t.buckets| && k <= |t.buckets[b]| && h == Halfway(p, t, b, k)
    && if cur.End? then h == PruneTable(p, t)
       else k < |t.buckets[b]| && cur == At(b, Behind(p, t, b, k)) && Primary(t.buckets[b][k])
  }

  lemma Untouched(p: Run, t: Table)
    requires t.buckets != []
    ensures Halfway(p, t, 0, 0) == t && Behind(p, t, 0, 0) == 0 && EnumFirst(t) == FirstAt(t, 0, 0)
  {
    var c := t.buckets[0];
    assert c[..0] == [] && c[0..] == c && [] + c == c;
    assert Halfway(p, t, 0, 0).buckets == t.buckets;
  }

  lemma NextInSuffix(a: seq<Ent>, rest: seq<Ent>, n: nat)
    requires n <= |rest| && (n < |rest| ==> Primary(rest[n]))
    requires forall j :: 0 <= j < n ==> !Primary(rest[j])
    ensures NextIn(a + rest, |a|) == |a| + n
  {
    var c := a + rest;
    forall j | |a| <= j < |a| + n ensures !Primary(c[j]) {
      assert c[j] == rest[j - |a|];
    }
    if n < |rest| {
      assert c[|a| + n] == rest[n];
    }
  }

  // ----- entries stay in place

  predicate KeyIn(chain: seq<Ent>, key: string) {
    exists j :: 0 <= j < |chain| && chain[j].key == key
  }

  /** Every entry that is left is one of the chain, kept. */
  lemma {:induction false} PruneFrom(p: Run, chain: seq<Ent>, i: nat) returns (j: nat)
    requires i < |PruneChain(p, chain)|
    ensures j < |chain| && FateOf(p, chain[j]) == Some(PruneChain(p, chain)[i])
    ensures chain[j].key == PruneChain(p, chain)[i].key && chain[j].mm == PruneChain(p, chain)[i].mm
  {
    if FateOf(p, chain[0]).None? {
      j := PruneFrom(p, chain[1..], i);
      j := j + 1;
    } else if i == 0 {
      j := 0;
    } else {
      j := PruneFrom(p, chain[1..], i - 1);
      j := j + 1;
    }
  }

  lemma HalfwayPlaced(p: Run, t: Table, b: nat, k: nat)
    requires Placed(t) && b < |t.buckets| && k <= |t.buckets[b]|
    ensures Placed(Halfway(p, t, b, k))
  {
    var h := Halfway(p, t, b, k);
    forall c, i | 0 <= c < |h.buckets| && 0 <= i < |h.buckets[c]| ensures Slot(h, h.buckets[c][i].key) == c {
      var chain := t.buckets[c];
      if c < b {
        var j := PruneFrom(p, chain, i);
        assert Slot(t, chain[j].key) == c;
      } else if c == b {
        var a := PruneChain(p, chain[..k]);
        if i < |a| {
          var j := PruneFrom(p, chain[..k], i);
          assert chain[..k][j] == chain[j];
          assert Slot(t, chain[j].key) == c;
        } else {
          assert h.buckets[c][i] == chain[k + i - |a|];
          assert Slot(t, chain[k + i - |a|].key) == c;
        }
      } else {
        assert Slot(t, chain[i].key) == c;
      }
    }
  }

  // ----- the cursor

  /** The position cache_lookup_distinct finds. */
  function Locate(t: Table, key: string): (p: Pos)
    requires t.buckets != []
    ensures ValidPos(t, p)
  {
    var i := First(Chain(t, key), key);
    if i < |Chain(t, key)| then At(Slot(t, key), i) else End
  }

  /** The entry is the first of its key. */
  predicate FirstOfKey(t: Table, q: Pos)
    requires q.At? && ValidPos(t, q)
  {
    First(t.buckets[q.b], t.buckets[q.b][q.i].key) == q.i
  }

  lemma LocateAgain(t: Table, q: Pos)
    requires Placed(t) && q.At? && ValidPos(t, q)
    ensures Locate(t, t.buckets[q.b][q.i].key).At?
    ensures Locate(t, t.buckets[q.b][q.i].key) == q <==> FirstOfKey(t, q)
  {
    assert Slot(t, t.buckets[q.b][q.i].key) == q.b;
  }

  lemma EnumNextIsFirstAt(t: Table, p: Pos)
    requires Placed(t) && p.At? && ValidPos(t, p)
    ensures EnumNext(t, p) == FirstAt(t, p.b, p.i + 1)
  {
    assert Slot(t, t.buckets[p.b][p.i].key) == p.b;
  }

  function SetAt(t: Table, p: Pos, e: Ent): (r: Table)
    requires p.At? && ValidPos(t, p)
    ensures |r.buckets| == |t.buckets|
  {
    t.(buckets := t.buckets[p.b := t.buckets[p.b][p.i := e]])
  }

  lemma SetAtPlaced(t: Table, cur: Pos, e: Ent)
    requires Placed(t) && cur.At? && ValidPos(t, cur) && e.key == t.buckets[cur.b][cur.i].key
    ensures Placed(SetAt(t, cur, e))
  {
    var t1 := SetAt(t, cur, e);
    forall b, i | 0 <= b < |t1.buckets| && 0 <= i < |t1.buckets[b]| ensures Slot(t1, t1.buckets[b][i].key) == b {
      assert t1.buckets[b][i].key == t.buckets[b][i].key;
      assert Slot(t, t.buckets[b][i].key) == b;
    }
  }

  lemma {:induction false} WithoutAppend(a: seq<Ent>, b: seq<Ent>, key: string)
    ensures Without(a + b, key) == Without(a, key) + Without(b, key)
  {
    if a == [] {
      assert a + b == b;
    } else {
      assert (a + b)[1..] == a[1..] + b;
      WithoutAppend(a[1..], b, key);
    }
  }

  /** Taking one entry out of bucket `b` moves later positions of that bucket down by one. */
  lemma ShiftedCursor(t1: Table, t: Table, b: nat, a: seq<Ent>, e: Ent, rest: seq<Ent>)
    requires b < |t1.buckets| == |t.buckets|
    requires t1.buckets[b] == a + [e] + rest && t.buckets[b] == a + rest
    requires forall c :: 0 <= c < |t.buckets| && c != b ==> t.buckets[c] == t1.buckets[c]
    ensures var p, q := FirstAt(t1, b, |a| + 1), FirstAt(t, b, |a|);
            && (p.End? <==> q.End?)
            && (p.At? ==> t1.buckets[p.b][p.i] == t.buckets[q.b][q.i])
  {
    var n := NextIn(rest, 0);
    NextInSuffix(a + [e], rest, n);
    NextInSuffix(a, rest, n);
    SameTail(t1, t, b + 1);
  }

  lemma {:induction false} SameTail(t1: Table, t: Table, c: nat)
    requires |t1.buckets| == |t.buckets|
    requires forall d :: c <= d < |t.buckets| ==> t.buckets[d] == t1.buckets[d]
    ensures FromBucket(t1, c) == FromBucket(t, c)
    decreases |t.buckets| - c
  {
    if c >= |t.buckets| {
    } else {
      SameTail(t1, t, c + 1);
    }
  }

  // ----- the wildcard entry is never pruned

  predicate HasWild(t: Table)
    requires t.buckets != []
  {
    Has(Chain(t, "*"), "*")
  }

  /** The loop's test for a wildcard finds one exactly if the cache has one. */
  lemma WildMeans(t: Table)
    requires Placed(t)
    ensures HasWild(t) <==> exists b, i :: 0 <= b < |t.buckets| && 0 <= i < |t.buckets[b]| && t.buckets[b][i].key == "*"
  {
    var c := Chain(t, "*");
    if HasWild(t) {
      assert t.buckets[Slot(t, "*")][First(c, "*")].key == "*";
    }
    if b, i :| 0 <= b < |t.buckets| && 0 <= i < |t.buckets[b]| && t.buckets[b][i].key == "*" {
      assert Slot(t, t.buckets[b][i].key) == b;
      assert c[i].key == "*";
    }
  }

  lemma {:induction false} WildKept(p: Run, wilds: seq<Ent>)
    requires forall i :: 0 <= i < |wilds| ==> wilds[i].key == "*"
    ensures |PruneChain(p, wilds)| == |wilds|
  {
    if wilds == [] {
    } else {
      WildKept(p, wilds[1..]);
      assert '*' in wilds[0].key by { assert "*"[0] == '*'; }
    }
  }

  lemma OfKeyed(chain: seq<Ent>, key: string)
    ensures forall i :: 0 <= i < |Of(chain, key)| ==> Of(chain, key)[i].key == key
  {
    OfMembers(chain, key);
    forall i | 0 <= i < |Of(chain, key)| ensures Of(chain, key)[i].key == key {
      assert Of(chain, key)[i] in Of(chain, key);
    }
  }

  lemma WildPruned(p: Run, chain: seq<Ent>)
    ensures |Of(PruneChain(p, chain), "*")| == |Of(chain, "*")|
  {
    PruneOf(p, chain, "*");
    OfKeyed(chain, "*");
    WildKept(p, Of(chain, "*"));
  }

  lemma WildStays(p: Run, t: Table, b: nat, k: nat)
    requires b < |t.buckets| && k <= |t.buckets[b]|
    ensures HasWild(Halfway(p, t, b, k)) <==> HasWild(t)
  {
    var h := Halfway(p, t, b, k);
    var c := Chain(t, "*");
    FirstOf(Chain(h, "*"), "*");
    FirstOf(c, "*");
    WildPruned(p, c);
    if Slot(t, "*") == b {
      WildPruned(p, c[..k]);
      assert c == c[..k] + c[k..];
      OfAppend(c[..k], c[k..], "*");
      OfAppend(PruneChain(p, c[..k]), c[k..], "*");
    }
  }

  // ----- one iteration

  /** A stale entry for which the loop gets as far as deleting, unless the mount postpones it. */
  predicate Postponed(p: Run, e: Ent)
    requires FullPath(p.ap, e.key).Some?
  {
    !p.w.valid(e.key).Elsewhere? && p.w.mounted(FullPath(p.ap, e.key).value)
  }

  predicate Deletes(p: Run, e: Ent)
    requires FullPath(p.ap, e.key).Some?
  {
    p.w.valid(e.key).Elsewhere? || (!p.w.trigger(FullPath(p.ap, e.key).value) && !p.w.open(e.key))
  }

  /** Marking the key's entry negative when the valid entry found is in this very cache: the first
      entry of the key loses its text. */
  function MarkNegative(p: Run, t: Table, key: string): (r: Table)
    requires t.buckets != []
    ensures |r.buckets| == |t.buckets|
  {
    var f := Locate(t, key);
    if p.w.valid(key).Here? && f.At? then SetAt(t, f, t.buckets[f.b][f.i].(text := None)) else t
  }

  lemma MarkNegativePlaced(p: Run, t: Table, key: string, cur: Pos)
    requires Placed(t) && cur.At? && ValidPos(t, cur)
    ensures Placed(MarkNegative(p, t, key)) && ValidPos(MarkNegative(p, t, key), cur)
  {
    var f := Locate(t, key);
    if p.w.valid(key).Here? && f.At? { SetAtPlaced(t, f, t.buckets[f.b][f.i].(text := None)); }
  }

  /** One iteration of lookup_prune_one_cache, on any cache. */
  function Iterate(p: Run, t: Table, cur: Pos): (r: (Table, Pos))
    requires Placed(t) && cur.At? && ValidPos(t, cur)
  {
    var e := t.buckets[cur.b][cur.i];
    if e.age >= p.age then
      var t' := SetAt(t, cur, if e.text.Some? || HasWild(t) then e.(status := 0) else e);
      (t', EnumNext(t', cur))
    else if !Candidate(p.ap, e, p.age) then (t, EnumNext(t, cur))
    else
      MarkNegativePlaced(p, t, e.key, cur);
      var t1 := MarkNegative(p, t, e.key);
      var next := EnumNext(t1, cur);
      if Postponed(p, e) then (t1, next)
      else
        var t2 := if Deletes(p, e) then Delete(t1, e.key).0 else t1;
        (t2, if next.At? then Locate(t2, t1.buckets[next.b][next.i].key) else End)
  }

  /** The iteration as the source runs it. */
  method PruneEntry(p: Run, t: Table, cur: Pos) returns (t': Table, cur': Pos)
    requires Placed(t) && cur.At? && ValidPos(t, cur)
    ensures (t', cur') == Iterate(p, t, cur)
  {
    t' := t;
    var e := t.buckets[cur.b][cur.i];
    if e.age >= p.age {
      if e.text.Some? || HasWild(t) {
        t' := SetAt(t, cur, e.(status := 0));
      } else {
        SetSame(t, cur);
      }
      cur' := EnumNext(t', cur);
      return;
    }
    if !p.ap.direct {
      if Absolute(e.key) || e.mm.Owner? || (!p.ap.browse && p.age < e.age + p.ap.positiveTimeout) {
        return t, EnumNext(t, cur);
      }
    }
    var path := FullPath(p.ap, e.key);
    if '*' in e.key || path.None? {
      return t, EnumNext(t, cur);
    }
    var valid := p.w.valid(e.key);
    MarkNegativePlaced(p, t, e.key, cur);
    LocateAgain(t, cur);
    if valid.Here? {
      var f := Locate(t, e.key);
      t' := SetAt(t, f, t.buckets[f.b][f.i].(text := None));
    }
    if !valid.Elsewhere? && p.w.mounted(path.value) {
      return t', EnumNext(t', cur);
    }
    var next := EnumNext(t', cur);
    var nextKey := if next.At? then t'.buckets[next.b][next.i].key else "";
    if valid.Elsewhere? || (!p.w.trigger(path.value) && !p.w.open(e.key)) {
      t' := Delete(t', e.key).0;
    }
    cur' := if next.At? then Locate(t', nextKey) else End;
  }

  lemma SetSame(t: Table, cur: Pos)
    requires cur.At? && ValidPos(t, cur)
    ensures SetAt(t, cur, t.buckets[cur.b][cur.i]) == t
  {
    var c := t.buckets[cur.b];
    assert c[cur.i := c[cur.i]] == c;
    assert t.buckets[cur.b := c] == t.buckets;
  }
}
