/** Enumerating the primary entries of the cache (lib/cache.c, cache_lookup_first,
    cache_lookup_next, cache_enumerate): offsets of a multi-mount are skipped.
 */
module CacheEnumerate {
  import opened CacheTable

  datatype Pos = End | At(b: nat, i: nat)

  predicate Primary(e: Ent) {
    !e.mm.Offset?
  }

  predicate ValidPos(t: Table, p: Pos) {
    p.At? ==> p.b < |t.buckets| && p.i < |t.buckets[p.b]|
  }

  /** `p` comes strictly before `q`. */
  predicate Precedes(p: Pos, q: Pos) {
    p.At? && (q.End? || p.b < q.b || (p.b == q.b && p.i < q.i))
  }

  function NextIn(chain: seq<Ent>, i: nat): (j: nat)
    requires i <= |chain|
    ensures i <= j <= |chain|
    ensures j < |chain| ==> Primary(chain[j])
    ensures forall k :: i <= k < j ==> !Primary(chain[k])
    decreases |chain| - i
  {
    if i == |chain| || Primary(chain[i]) then i else NextIn(chain, i + 1)
  }

  /** The first primary entry in bucket `b` or later. */
  function FromBucket(t: Table, b: nat): (p: Pos)
    ensures ValidPos(t, p) && (p.At? ==> p.b >= b)
    decreases |t.buckets| - b
  {
    if b >= |t.buckets| then End
    else
      var i := NextIn(t.buckets[b], 0);
      if i < |t.buckets[b]| then At(b, i) else FromBucket(t, b + 1)
  }

  /** cache_enumerate from NULL */
  function EnumFirst(t: Table): Pos {
    FromBucket(t, 0)
  }

  /** cache_enumerate from an entry: the rest of its chain, then the buckets after the one its
      key hashes to. */
  function EnumNext(t: Table, p: Pos): (q: Pos)
    requires t.buckets != [] && p.At? && ValidPos(t, p)
    ensures ValidPos(t, q)
    ensures Placed(t) ==> Precedes(p, q)
  {
    var chain := t.buckets[p.b];
    var i := NextIn(chain, p.i + 1);
    if i < |chain| then At(p.b, i) else FromBucket(t, Slot(t, chain[p.i].key) + 1)
  }

  /** The positions a complete enumeration visits from `p` on. */
  function Visits(t: Table, p: Pos): seq<Pos>
    requires Placed(t) && ValidPos(t, p)
    decreases |t.buckets| - (if p.At? then p.b else |t.buckets|), if p.At? then |t.buckets[p.b]| - p.i else 0
  {
    if p.End? then [] else [p] + Visits(t, EnumNext(t, p))
  }

  predicate PrimaryAt(t: Table, p: Pos) {
    p.At? && ValidPos(t, p) && Primary(t.buckets[p.b][p.i])
  }

  lemma {:induction false} FromBucketIs(t: Table, b: nat, q: Pos)
    ensures FromBucket(t, b).At? ==> PrimaryAt(t, FromBucket(t, b))
    ensures PrimaryAt(t, q) && q.b >= b ==> q == FromBucket(t, b) || Precedes(FromBucket(t, b), q)
    decreases |t.buckets| - b
  {
    if b >= |t.buckets| {
    } else {
      FromBucketIs(t, b + 1, q);
    }
  }

  /** From a primary entry on, an enumeration visits exactly the primary entries not before it. */
  lemma {:induction false} VisitsRest(t: Table, p: Pos, q: Pos)
    requires Placed(t) && (p.End? || PrimaryAt(t, p))
    ensures q in Visits(t, p) <==> PrimaryAt(t, q) && (q == p || Precedes(p, q))
    ensures forall k :: 0 <= k < |Visits(t, p)| ==> Visits(t, p)[k] == p || Precedes(p, Visits(t, p)[k])
    ensures forall j, k :: 0 <= j < k < |Visits(t, p)| ==> Precedes(Visits(t, p)[j], Visits(t, p)[k])
    decreases |t.buckets| - (if p.At? then p.b else |t.buckets|), if p.At? then |t.buckets[p.b]| - p.i else 0
  {
    if p.End? {
    } else {
      var n := EnumNext(t, p);
      FromBucketIs(t, p.b + 1, q);
      assert Slot(t, t.buckets[p.b][p.i].key) == p.b;
      VisitsRest(t, n, q);
      var rest := Visits(t, n);
      assert forall k :: 0 <= k < |rest| ==> Precedes(p, rest[k]);
    }
  }

  /** An enumeration from the start visits every primary entry exactly once. */
  lemma EnumeratesEachOnce(t: Table, q: Pos)
    requires Placed(t)
    ensures var v := Visits(t, EnumFirst(t));
            && (q in v <==> PrimaryAt(t, q))
            && forall j, k :: 0 <= j < k < |v| ==> v[j] != v[k]
  {
    FromBucketIs(t, 0, q);
    VisitsRest(t, EnumFirst(t), q);
    var v := Visits(t, EnumFirst(t));
    forall j, k | 0 <= j < k < |v| ensures v[j] != v[k] {
      assert Precedes(v[j], v[k]);
    }
  }
}
