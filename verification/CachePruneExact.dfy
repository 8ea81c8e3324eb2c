/** Which caches the pruning loop (daemon/lookup.c:1343-1503) ends on, and on which it leaves what
    pruning each entry on its own would leave; with caches that two sources build on which it does
    neither.
 */
module CachePruneExact {
  import opened Options
  import opened CacheTable
  import opened CacheRuns
  import opened CacheEnumerate
  import opened CacheAdjacent
  import opened CachePrune
  import opened CachePruneLoop
  import opened CachePruneIff
  import opened CachePruneRuns
  import opened CachePruneSweep
  import opened CachePruneEnds

  // ----- caches without multi-mounts

  predicate SinglesIn(chain: seq<Ent>) {
    forall i :: 0 <= i < |chain| ==> chain[i].mm.Single?
  }

  /** A stale entry, considered and not postponed, with another entry of its key behind it. */
  predicate TurnsBack(p: Run, chain: seq<Ent>, i: nat) {
    && i + 1 < |chain| && chain[i + 1].key == chain[i].key
    && Candidate(p.ap, chain[i], p.age) && !Postponed(p, chain[i])
  }

  /** The first such entry at or after `i`, or the length. */
  function FirstBack(p: Run, chain: seq<Ent>, i: nat): (k: nat)
    requires i <= |chain|
    ensures i <= k <= |chain| && (k < |chain| ==> TurnsBack(p, chain, k))
    ensures forall j :: i <= j < k ==> !TurnsBack(p, chain, j)
    decreases |chain| - i
  {
    if i == |chain| || TurnsBack(p, chain, i) then i else FirstBack(p, chain, i + 1)
  }

  lemma BlockTurns(p: Run, rest: seq<Ent>)
    requires rest != [] && SinglesIn(rest)
    ensures var n := Lead(rest); Turns(p, rest[..n], 0) <==> FirstBack(p, rest, 0) + 1 < n
  {
    var n, k := Lead(rest), FirstBack(p, rest, 0);
    var blk := rest[..n];
    assert forall i :: 0 <= i < n ==> blk[i] == rest[i] && blk[i].key == blk[0].key;
    if k + 1 < n { assert TurnsAt(p, blk, 0, k); }
    if Turns(p, blk, 0) {
      var i :| 0 <= i < |blk| && TurnsAt(p, blk, 0, i);
      assert TurnsBack(p, rest, i);
    }
  }

  lemma TailBack(p: Run, rest: seq<Ent>, n: nat, i: nat)
    requires n <= |rest|
    ensures TurnsBack(p, rest[n..], i) <==> TurnsBack(p, rest, n + i)
  {
  }

  lemma BackInTail(p: Run, rest: seq<Ent>)
    requires rest != [] && FirstBack(p, rest, 0) + 1 >= Lead(rest)
    ensures FirstBack(p, rest, 0) == Lead(rest) + FirstBack(p, rest[Lead(rest)..], 0)
  {
    var n, k := Lead(rest), FirstBack(p, rest, 0);
    var tail := rest[n..];
    var m := FirstBack(p, tail, 0);
    assert rest[n - 1].key == rest[0].key by { assert rest[..n][n - 1].key == rest[..n][0].key; }
    assert !TurnsBack(p, rest, n - 1);
    TailBack(p, rest, n, m);
    if k < |rest| { TailBack(p, rest, n, k - n); }
  }

  lemma {:induction false} ChainTurns(p: Run, kept: seq<Ent>, rest: seq<Ent>, way: Way)
    requires SinglesIn(rest)
    ensures var r, k := SweepChain(p, kept, rest, way), FirstBack(p, rest, 0);
      (r.Through? <==> k == |rest|) && (r.Never? <==> k < |rest| && !Deletes(p, rest[k]))
    decreases |rest|
  {
    if rest == [] {
    } else {
      var n, k := Lead(rest), FirstBack(p, rest, 0);
      var blk, tail := rest[..n], rest[n..];
      assert blk[0].mm.Single? && NextIn(blk, 0) == 0;
      SinglesRound(p, kept == [], blk, 0);
      BlockTurns(p, rest);
      if k + 1 < n {
        assert blk[k] == rest[k] && blk[k].key == blk[0].key;
      } else {
        BackInTail(p, rest);
        var x := Round(p, kept == [], blk, 0);
        ChainTurns(p, kept + x.blk, tail, x.way);
      }
    }
  }

  /** Bucket `c` has a first entry that turns the loop back, its key is not deleted, and no bucket
      from `b` on and before it has one. */
  predicate Doomed(p: Run, t: Table, b: nat, c: nat) {
    && b <= c < |t.buckets|
    && (forall d :: b <= d < c ==> FirstBack(p, t.buckets[d], 0) == |t.buckets[d]|)
    && var k := FirstBack(p, t.buckets[c], 0); k < |t.buckets[c]| && !Deletes(p, t.buckets[c][k])
  }

  /** A bucket with no such entry makes no difference to what comes after it. */
  lemma DoomedLater(p: Run, t: Table, b: nat, chain: seq<Ent>, c: nat)
    requires b < |t.buckets| && FirstBack(p, t.buckets[b], 0) == |t.buckets[b]|
    ensures Doomed(p, SetBucket(t, b, chain), b + 1, c) <==> Doomed(p, t, b, c)
  {
    var t1 := SetBucket(t, b, chain);
    assert forall d :: b < d < |t.buckets| ==> t1.buckets[d] == t.buckets[d];
    if Doomed(p, t1, b + 1, c) {
      forall d | b <= d < c ensures FirstBack(p, t.buckets[d], 0) == |t.buckets[d]| {
        assert d > b ==> FirstBack(p, t1.buckets[d], 0) == |t1.buckets[d]|;
      }
    }
    if Doomed(p, t, b, c) {
      assert c != b;
      forall d | b + 1 <= d < c ensures FirstBack(p, t1.buckets[d], 0) == |t1.buckets[d]| {
        assert FirstBack(p, t.buckets[d], 0) == |t.buckets[d]|;
      }
    }
  }

  lemma {:induction false} SweepDoomed(p: Run, t: Table, b: nat, way: Way)
    requires forall c :: b <= c < |t.buckets| ==> SinglesIn(t.buckets[c])
    ensures SweepFrom(p, t, b, way).None? <==> exists c :: Doomed(p, t, b, c)
    decreases |t.buckets| - b
  {
    if b >= |t.buckets| {
    } else {
      ChainTurns(p, [], t.buckets[b], way);
      var r := SweepChain(p, [], t.buckets[b], way);
      if r.Through? {
        var t1, b1 := SetBucket(t, b, r.chain), b + 1;
        SweepDoomed(p, t1, b1, r.way);
        if c :| Doomed(p, t, b, c) { DoomedLater(p, t, b, r.chain, c); }
        if c :| Doomed(p, t1, b1, c) { DoomedLater(p, t, b, r.chain, c); }
      } else if r.Never? {
        assert Doomed(p, t, b, b);
      }
    }
  }

  /** Without multi-mounts the loop fails to end exactly when, of the stale entries that have
      another entry of their key behind them, the first one's key is not deleted. */
  lemma SinglesEndIff(p: Run, t: Table)
    requires Begun(p, t) && AllSingle(t)
    ensures (exists n: nat :: After(p, Start(t), n).cur.End?) <==> !exists c :: Doomed(p, t, 0, c)
  {
    LoopEndsIff(p, t);
    SweepDoomed(p, t, 0, Onward);
  }

  /** So it is for every cache that adds, updates and deletions build, by however many sources. */
  lemma BuiltEndIff(p: Run, t: Table, ops: seq<Op>)
    requires Empty(t) && ApplyAll(t, ops).buckets != [] && p.wild == HasWild(ApplyAll(t, ops))
    ensures var r := ApplyAll(t, ops);
      (exists n: nat :: After(p, Start(r), n).cur.End?) <==> !exists c :: Doomed(p, r, 0, c)
  {
    CacheIsAdjacent(t, ops);
    SinglesEndIff(p, ApplyAll(t, ops));
  }

  // ----- when the loop leaves the pruned cache

  /** Each key the sweep comes to is left with what pruning its entries one by one leaves; and if a
      key ends the loop, pruning would change nothing behind it. */
  predicate ExactIn(p: Run, kept: seq<Ent>, rest: seq<Ent>, way: Way)
    decreases |rest|
  {
    rest == [] ||
    (var n := Lead(rest);
     var j := NextIn(rest[..n], 0);
     if j == n then ExactIn(p, kept + rest[..n], rest[n..], way)
     else
       match Round(p, kept == [], rest[..n], if way.ByKey? then 0 else j)
       case Passed(blk, way') => blk == PruneChain(p, rest[..n]) && ExactIn(p, kept + blk, rest[n..], way')
       case Ended => PruneChain(p, rest[..n]) == [] && PruneChain(p, rest[n..]) == rest[n..]
       case Endless => false)
  }

  predicate ExactFrom(p: Run, t: Table, b: nat, way: Way)
    decreases |t.buckets| - b
  {
    b >= |t.buckets| ||
    (&& ExactIn(p, [], t.buckets[b], way)
     && match SweepChain(p, [], t.buckets[b], way)
        case Through(chain, way') => ExactFrom(p, SetBucket(t, b, chain), b + 1, way')
        case Halted(_) => forall c :: b < c < |t.buckets| ==> PruneChain(p, t.buckets[c]) == t.buckets[c]
        case Never => false)
  }

  lemma {:induction false} PruneKeys(p: Run, chain: seq<Ent>, key: string)
    ensures KeyOf(chain, key) ==> KeyOf(PruneChain(p, chain), key)
    ensures !KeyIn(chain, key) ==> !KeyIn(PruneChain(p, chain), key)
  {
    forall i | 0 <= i < |PruneChain(p, chain)|
      ensures exists j :: 0 <= j < |chain| && chain[j].key == PruneChain(p, chain)[i].key
    {
      var j := PruneFrom(p, chain, i);
    }
  }

  lemma {:induction false} OfAll(x: seq<Ent>, key: string)
    requires KeyOf(x, key)
    ensures Of(x, key) == x
  {
    if x == [] {
    } else {
      OfAll(x[1..], key);
    }
  }

  /** Entries of a key followed by entries of others: the parts can be told apart. */
  lemma PartsAre(x: seq<Ent>, y: seq<Ent>, x': seq<Ent>, y': seq<Ent>, key: string)
    requires KeyOf(x, key) && KeyOf(x', key) && !KeyIn(y, key) && !KeyIn(y', key) && x + y == x' + y'
    ensures x == x' && y == y'
  {
    OfAppend(x, y, key);
    OfAppend(x', y', key);
    OfAll(x, key);
    OfAll(x', key);
    OfNone(y, key);
    OfNone(y', key);
    assert (x + y)[|x|..] == y && (x' + y')[|x|..] == y';
  }

  /** The chain is `kept` and then nothing of the key. */
  predicate Extends(chain: seq<Ent>, kept: seq<Ent>, key: string) {
    kept <= chain && !KeyIn(chain[|kept|..], key)
  }

  lemma ExtendsLess(chain: seq<Ent>, kept: seq<Ent>, x: seq<Ent>, key: string)
    requires Extends(chain, kept + x, key) && !KeyIn(x, key)
    ensures Extends(chain, kept, key)
  {
    assert chain[..|kept|] == (kept + x)[..|kept|] == kept;
    var more := chain[|kept + x|..];
    assert chain[|kept|..] == x + more;
    KeyInConcat(x, more, key);
  }

  lemma NotInParts(rest: seq<Ent>, key: string)
    requires rest != [] && !KeyIn(rest, key)
    ensures var n := Lead(rest); !KeyIn(rest[..n], key) && !KeyIn(rest[n..], key) && rest[..n][0].key != key
  {
    var n := Lead(rest);
    assert rest == rest[..n] + rest[n..];
    KeyInConcat(rest[..n], rest[n..], key);
  }

  /** A sweep keeps what was kept before, and brings in no new key. */
  lemma {:induction false} SweepExtends(p: Run, kept: seq<Ent>, rest: seq<Ent>, way: Way, key: string)
    requires !SweepChain(p, kept, rest, way).Never? && !KeyIn(rest, key)
    ensures Extends(SweepChain(p, kept, rest, way).chain, kept, key)
    decreases |rest|
  {
    if rest == [] {
    } else {
      var blk, tail := rest[..Lead(rest)], rest[Lead(rest)..];
      NotInParts(rest, key);
      var j := NextIn(blk, 0);
      if j == |blk| {
        SweepExtends(p, kept + blk, tail, way, key);
        ExtendsLess(SweepChain(p, kept + blk, tail, way).chain, kept, blk, key);
      } else {
        var i := if way.ByKey? then 0 else j;
        var x := Round(p, kept == [], blk, i);
        if x.Passed? {
          RoundKey(p, kept == [], blk, i);
          SweepExtends(p, kept + x.blk, tail, x.way, key);
          ExtendsLess(SweepChain(p, kept + x.blk, tail, x.way).chain, kept, x.blk, key);
        } else {
          assert (kept + tail)[|kept|..] == tail;
        }
      }
    }
  }

  lemma RoundKey(p: Run, top: bool, blk: seq<Ent>, j: nat)
    requires OneKey(blk) && j < |blk| && Round(p, top, blk, j).Passed?
    ensures KeyOf(Round(p, top, blk, j).blk, blk[0].key)
  {
    var lap := LapFrom(p, top, blk, j);
    LapKey(p, top, blk, j);
    if lap.Turned? { LapKey(p, top, lap.blk, 0); }
  }

  /** What a sweep leaves of a chain is the pruned chain. */
  predicate SweepPrunes(p: Run, kept: seq<Ent>, rest: seq<Ent>, way: Way) {
    var r := SweepChain(p, kept, rest, way);
    !r.Never? && r.chain == kept + PruneChain(p, rest)
  }

  lemma {:induction false} OffsetsStay(p: Run, blk: seq<Ent>)
    requires forall i :: 0 <= i < |blk| ==> !Primary(blk[i])
    ensures PruneChain(p, blk) == blk
  {
    if blk == [] {
    } else {
      OffsetsStay(p, blk[1..]);
    }
  }

  /** Chains that go on with entries of the key and then others agree when the parts do. */
  lemma ChainParts(chain: seq<Ent>, kept: seq<Ent>, x: seq<Ent>, u: seq<Ent>, v: seq<Ent>, key: string)
    requires Extends(chain, kept + x, key) && KeyOf(x, key) && KeyOf(u, key) && !KeyIn(v, key)
    ensures chain == kept + (u + v) <==> x == u && chain == (kept + x) + v
  {
    var more := chain[|kept + x|..];
    assert chain == kept + (x + more);
    if chain == kept + (u + v) {
      assert x + more == chain[|kept|..] == u + v;
      PartsAre(x, more, u, v, key);
    }
    assert (kept + x) + v == kept + (x + v);
  }

  /** A key that is left with `x`: the rest follows. */
  lemma KeyExact(p: Run, kept: seq<Ent>, blk: seq<Ent>, tail: seq<Ent>, x: seq<Ent>, way: Way)
    requires OneKey(blk) && KeyOf(x, blk[0].key) && !KeyIn(tail, blk[0].key)
    ensures var r := SweepChain(p, kept + x, tail, way);
      (!r.Never? && r.chain == kept + PruneChain(p, blk + tail)) <==>
        x == PruneChain(p, blk) && SweepPrunes(p, kept + x, tail, way)
  {
    var r, key := SweepChain(p, kept + x, tail, way), blk[0].key;
    PruneAppend(p, blk, tail);
    PruneKeys(p, blk, key);
    PruneKeys(p, tail, key);
    if !r.Never? {
      SweepExtends(p, kept + x, tail, way, key);
      ChainParts(r.chain, kept, x, PruneChain(p, blk), PruneChain(p, tail), key);
    }
  }

  lemma FirstSkipped(p: Run, kept: seq<Ent>, rest: seq<Ent>, way: Way)
    requires Together(rest) && rest != [] && NextIn(rest[..Lead(rest)], 0) == Lead(rest)
    ensures SweepPrunes(p, kept, rest, way) <==> SweepPrunes(p, kept + rest[..Lead(rest)], rest[Lead(rest)..], way)
  {
    var blk, tail := rest[..Lead(rest)], rest[Lead(rest)..];
    assert rest == blk + tail;
    TailApart(rest);
    SkipExact(p, kept, blk, tail, way);
  }

  lemma SkipExact(p: Run, kept: seq<Ent>, blk: seq<Ent>, tail: seq<Ent>, way: Way)
    requires OneKey(blk) && !KeyIn(tail, blk[0].key) && NextIn(blk, 0) == |blk|
    ensures var r := SweepChain(p, kept + blk, tail, way);
      (!r.Never? && r.chain == kept + PruneChain(p, blk + tail)) <==> SweepPrunes(p, kept + blk, tail, way)
  {
    OffsetsStay(p, blk);
    KeyExact(p, kept, blk, tail, blk, way);
  }

  lemma FirstPassed(p: Run, kept: seq<Ent>, rest: seq<Ent>, way: Way, x: Outcome)
    requires Together(rest) && rest != [] && NextIn(rest[..Lead(rest)], 0) < Lead(rest)
    requires x == Round(p, kept == [], rest[..Lead(rest)], EntryIn(rest[..Lead(rest)], way)) && x.Passed?
    ensures SweepPrunes(p, kept, rest, way) <==>
              x.blk == PruneChain(p, rest[..Lead(rest)]) && SweepPrunes(p, kept + x.blk, rest[Lead(rest)..], x.way)
  {
    var blk, tail := rest[..Lead(rest)], rest[Lead(rest)..];
    assert rest == blk + tail;
    TailApart(rest);
    RoundKey(p, kept == [], blk, EntryIn(blk, way));
    KeyExact(p, kept, blk, tail, x.blk, x.way);
  }

  lemma FirstEnds(p: Run, kept: seq<Ent>, rest: seq<Ent>, way: Way)
    requires Together(rest) && rest != [] && NextIn(rest[..Lead(rest)], 0) < Lead(rest)
    requires Round(p, kept == [], rest[..Lead(rest)], EntryIn(rest[..Lead(rest)], way)).Ended?
    ensures var blk, tail := rest[..Lead(rest)], rest[Lead(rest)..];
      SweepPrunes(p, kept, rest, way) <==> PruneChain(p, blk) == [] && PruneChain(p, tail) == tail
  {
    var blk, tail := rest[..Lead(rest)], rest[Lead(rest)..];
    assert rest == blk + tail;
    TailApart(rest);
    StopExact(p, kept, blk, tail);
  }

  lemma {:induction false} ExactInIff(p: Run, kept: seq<Ent>, rest: seq<Ent>, way: Way)
    requires Together(rest)
    ensures ExactIn(p, kept, rest, way) <==> SweepPrunes(p, kept, rest, way)
    decreases |rest|
  {
    if rest == [] {
      assert kept + [] == kept;
    } else {
      var blk, tail := rest[..Lead(rest)], rest[Lead(rest)..];
      TailApart(rest);
      if NextIn(blk, 0) == |blk| {
        FirstSkipped(p, kept, rest, way);
        ExactInIff(p, kept + blk, tail, way);
      } else {
        var x := Round(p, kept == [], blk, EntryIn(blk, way));
        if x.Passed? {
          FirstPassed(p, kept, rest, way, x);
          ExactInIff(p, kept + x.blk, tail, x.way);
        } else if x.Ended? {
          FirstEnds(p, kept, rest, way);
        }
      }
    }
  }

  lemma StopExact(p: Run, kept: seq<Ent>, blk: seq<Ent>, tail: seq<Ent>)
    requires OneKey(blk) && !KeyIn(tail, blk[0].key)
    ensures kept + tail == kept + PruneChain(p, blk + tail) <==>
              PruneChain(p, blk) == [] && PruneChain(p, tail) == tail
  {
    var key, u, v := blk[0].key, PruneChain(p, blk), PruneChain(p, tail);
    PruneAppend(p, blk, tail);
    PruneKeys(p, blk, key);
    PruneKeys(p, tail, key);
    if kept + tail == kept + (u + v) {
      assert tail == (kept + tail)[|kept|..] == (kept + (u + v))[|kept|..] == u + v;
      assert [] + tail == tail;
      PartsAre([], tail, u, v, key);
    }
  }

  /** The cache with the buckets from `b` on pruned. */
  function PruneAfter(p: Run, t: Table, b: nat): (r: Table)
    ensures |r.buckets| == |t.buckets|
  {
    t.(buckets := seq(|t.buckets|, c requires 0 <= c < |t.buckets| =>
         if c < b then t.buckets[c] else PruneChain(p, t.buckets[c])))
  }

  lemma PruneAfterNext(p: Run, t: Table, b: nat, chain: seq<Ent>)
    requires b < |t.buckets|
    ensures chain == PruneChain(p, t.buckets[b]) ==>
              PruneAfter(p, SetBucket(t, b, chain), b + 1) == PruneAfter(p, t, b)
    ensures PruneAfter(p, SetBucket(t, b, chain), b + 1).buckets[b] == chain
    ensures PruneAfter(p, t, b).buckets[b] == PruneChain(p, t.buckets[b])
  {
    if chain == PruneChain(p, t.buckets[b]) {
      assert PruneAfter(p, SetBucket(t, b, chain), b + 1).buckets == PruneAfter(p, t, b).buckets;
    }
  }

  /** A sweep from a bucket on leaves the earlier buckets alone. */
  lemma {:induction false} SweepBehind(p: Run, t: Table, b: nat, way: Way, c: nat)
    requires SweepFrom(p, t, b, way).Some? && c < b && c < |t.buckets|
    ensures var r := SweepFrom(p, t, b, way).value; |r.buckets| == |t.buckets| && r.buckets[c] == t.buckets[c]
    decreases |t.buckets| - b
  {
    if b >= |t.buckets| {
    } else {
      var r := SweepChain(p, [], t.buckets[b], way);
      if r.Through? { SweepBehind(p, SetBucket(t, b, r.chain), b + 1, r.way, c); }
    }
  }

  lemma HaltExact(p: Run, t: Table, b: nat, chain: seq<Ent>)
    requires b < |t.buckets|
    ensures SetBucket(t, b, chain) == PruneAfter(p, t, b) <==>
              && chain == PruneChain(p, t.buckets[b])
              && forall c :: b < c < |t.buckets| ==> PruneChain(p, t.buckets[c]) == t.buckets[c]
  {
    var x, y := SetBucket(t, b, chain), PruneAfter(p, t, b);
    if x == y {
      forall c | b < c < |t.buckets| ensures PruneChain(p, t.buckets[c]) == t.buckets[c] {
        assert x.buckets[c] == y.buckets[c];
      }
      assert x.buckets[b] == y.buckets[b];
    } else {
      assert x.buckets != y.buckets;
    }
  }

  lemma ThroughExact(p: Run, t: Table, b: nat, chain: seq<Ent>, way: Way)
    requires b < |t.buckets|
    ensures var t1 := SetBucket(t, b, chain); var r := SweepFrom(p, t1, b + 1, way);
      r == Some(PruneAfter(p, t, b)) <==>
        chain == PruneChain(p, t.buckets[b]) && r == Some(PruneAfter(p, t1, b + 1))
  {
    var t1 := SetBucket(t, b, chain);
    PruneAfterNext(p, t, b, chain);
    if SweepFrom(p, t1, b + 1, way).Some? { SweepBehind(p, t1, b + 1, way, b); }
  }

  predicate RestTogether(t: Table, b: nat) {
    forall c :: b <= c < |t.buckets| ==> Together(t.buckets[c])
  }

  lemma RestNext(t: Table, b: nat, chain: seq<Ent>)
    requires b < |t.buckets| && RestTogether(t, b)
    ensures Together(t.buckets[b]) && RestTogether(SetBucket(t, b, chain), b + 1)
  {
  }

  lemma BucketExact(p: Run, chain: seq<Ent>, way: Way)
    requires Together(chain)
    ensures var r := SweepChain(p, [], chain, way);
      ExactIn(p, [], chain, way) <==> !r.Never? && r.chain == PruneChain(p, chain)
  {
    ExactInIff(p, [], chain, way);
    assert [] + PruneChain(p, chain) == PruneChain(p, chain);
  }

  lemma {:induction false} ExactFromIff(p: Run, t: Table, b: nat, way: Way)
    requires RestTogether(t, b)
    ensures ExactFrom(p, t, b, way) <==> SweepFrom(p, t, b, way) == Some(PruneAfter(p, t, b))
    decreases |t.buckets| - b
  {
    if b >= |t.buckets| {
      assert PruneAfter(p, t, b).buckets == t.buckets;
    } else {
      var r := SweepChain(p, [], t.buckets[b], way);
      BucketExact(p, t.buckets[b], way);
      if r.Through? {
        RestNext(t, b, r.chain);
        ExactFromIff(p, SetBucket(t, b, r.chain), b + 1, r.way);
        ThroughExact(p, t, b, r.chain, r.way);
      } else if r.Halted? {
        HaltExact(p, t, b, r.chain);
      }
    }
  }

  /** The loop ends with the pruned cache if and only if it leaves each key it comes to with what
      pruning its entries one by one leaves, and ends at most where nothing is left to prune. */
  lemma LoopPrunesIff(p: Run, t: Table)
    requires Begun(p, t)
    ensures (exists n: nat :: After(p, Start(t), n) == Spot(PruneTable(p, t), End)) <==> ExactFrom(p, t, 0, Onward)
  {
    ExactFromIff(p, t, 0, Onward);
    assert PruneAfter(p, t, 0).buckets == PruneTable(p, t).buckets;
    LoopEndsIff(p, t);
    if Sweep(p, t).Some? {
      var m := LoopIsSweep(p, t);
      if n: nat :| After(p, Start(t), n) == Spot(PruneTable(p, t), End) {
        if n <= m { AfterEnd(p, Start(t), n, m); } else { AfterEnd(p, Start(t), m, n); }
      }
    }
  }

  // ----- caches that two sources build

  const POINT := AutofsPoint("/r", None, false, true, 0)

  /** The keys are in this cache alone, and nothing is mounted but the trigger of /r/b. */
  function TriggerAtB(): World {
    World(_ => Here, _ => false, s => s == "/r/b", _ => false)
  }

  lemma PathsOf()
    ensures FullPath(POINT, "a") == Some("/r/a") && FullPath(POINT, "b") == Some("/r/b") && "/r/a" != "/r/b"
    ensures '*' !in "a" && '*' !in "b"
  {
    assert "/r" + "/" + "a" == "/r/a" && "/r" + "/" + "b" == "/r/b";
    assert "/r/a"[3] != "/r/b"[3];
  }

  /** Two sources list a key, and only the second still does at the last reading, of age 5. */
  function TwoSources(key: string): Table {
    ApplyAll(Table(_ => 0, [[]]), [UpdateOp(1, key, Some("x"), 1), UpdateOp(2, key, Some("y"), 5)])
  }

  lemma TwoSourcesIs(key: string)
    ensures TwoSources(key).buckets == [[NewEnt(1, key, Some("x"), 1), NewEnt(2, key, Some("y"), 5)]]
  {
    var t, x, y := Table(_ => 0, [[]]), UpdateOp(1, key, Some("x"), 1), UpdateOp(2, key, Some("y"), 5);
    var e, f := NewEnt(1, key, Some("x"), 1), NewEnt(2, key, Some("y"), 5);
    TwoOps(t, x, y);
    assert Chain(t, key) == [] && AddTo([], e) == [e];
    var t1 := Apply(t, x);
    assert t1.buckets == [[e]] && Chain(t1, key) == [e];
    FirstFromIs([e], key, 2, 1);
    assert AfterLast([e], key) == 1 && [e][..1] == [e] && AddTo([e], f) == [e, f];
  }

  /** A cache that two updates build, in which the loop deletes the current entry with the stale one. */
  lemma BothDeleted()
    ensures var p, t := Run(POINT, TriggerAtB(), false, 5), TwoSources("a");
      && t.buckets != [] && After(p, Start(t), 1) == Spot(t.(buckets := [[]]), End)
      && KeyList(PruneTable(p, t), "a") == [NewEnt(2, "a", Some("y"), 5)]
  {
    var p, t := Run(POINT, TriggerAtB(), false, 5), TwoSources("a");
    var e, f := NewEnt(1, "a", Some("x"), 1), NewEnt(2, "a", Some("y"), 5);
    TwoSourcesIs("a");
    PathsOf();
    CurrentEntryGoes(p, t, e, f);
    assert FateOf(p, e).None? && FateOf(p, f) == Some(f);
    assert [e, f][1..] == [f] && [f][1..] == [];
    assert PruneChain(p, [f]) == [f] && PruneChain(p, [e, f]) == [f];
    assert Of([f], "a") == [f];
  }

  /** One on which the loop does not end. */
  lemma EndlessExample(n: nat)
    ensures var p, t := Run(POINT, TriggerAtB(), false, 5), TwoSources("b");
      After(p, Start(t), n).cur == At(0, 0)
  {
    var p, t := Run(POINT, TriggerAtB(), false, 5), TwoSources("b");
    TwoSourcesIs("b");
    PathsOf();
    NeverEnds(p, t, NewEnt(1, "b", Some("x"), 1), NewEnt(2, "b", Some("y"), 5), n);
  }
}
