/** When the pruning loop treats each entry on its own (daemon/lookup.c:1343-1503): the exact
    condition, on caches with any number of entries for a key, and what it does otherwise.
 */
module CachePruneIff {
  import opened Options
  import opened CacheTable
  import opened CacheEnumerate
  import opened CachePrune
  import opened CachePruneLoop

  /** No two entries agree on key and source. */
  predicate OnePerSource(t: Table) {
    forall b :: 0 <= b < |t.buckets| ==> SourcesDiffer(t.buckets[b])
  }

  predicate SourcesDiffer(chain: seq<Ent>) {
    forall i, j :: 0 <= i < j < |chain| && chain[i].key == chain[j].key ==> chain[i].source != chain[j].source
  }

  // ----- the condition

  /** The entries of bucket `b` before `k` that pruning keeps. */
  function Kept(p: Run, t: Table, b: nat, k: nat): seq<Ent>
    requires b < |t.buckets| && k <= |t.buckets[b]|
  {
    PruneChain(p, t.buckets[b][..k])
  }

  /** Marking the key negative hits the entry itself, or changes nothing and has nothing to. */
  predicate TextOk(p: Run, kept: seq<Ent>, e: Ent) {
    p.w.valid(e.key).Here? && KeyIn(kept, e.key) ==> e.text.None? && kept[First(kept, e.key)].text.None?
  }

  /** The same for an entry that is then deleted. */
  predicate SpareText(p: Run, kept: seq<Ent>, e: Ent) {
    p.w.valid(e.key).Here? && KeyIn(kept, e.key) ==> kept[First(kept, e.key)].text.None?
  }

  /** The first entry of the key that is part of a multi-mount. */
  function FirstMulti(c: seq<Ent>, key: string): (i: nat)
    ensures i <= |c| && (i < |c| ==> c[i].key == key && !c[i].mm.Single?)
    ensures forall j :: 0 <= j < i && c[j].key == key ==> c[j].mm.Single?
  {
    if c == [] || (c[0].key == key && !c[0].mm.Single?) then 0 else 1 + FirstMulti(c[1..], key)
  }

  /** cache_delete takes out the entries of the key at and after the first of these places and
      before the second: it stops at a multi-mount, and comes to the head of the chain last. */
  function TakesTo(c: seq<Ent>, key: string): (i: nat)
    requires c != []
    ensures 1 <= i <= |c|
  {
    1 + FirstMulti(c[1..], key)
  }

  function TakesFrom(c: seq<Ent>, key: string): (i: nat)
    requires c != []
    ensures i <= 1
  {
    if TakesTo(c, key) == |c| && (c[0].key == key ==> c[0].mm.Single?) then 0 else 1
  }

  predicate TakesNone(c: seq<Ent>, key: string)
    requires c != []
  {
    !KeyIn(c[TakesFrom(c, key)..TakesTo(c, key)], key)
  }

  predicate TakesOnly(c: seq<Ent>, i: nat)
    requires i < |c|
  {
    var key := c[i].key;
    var lo, hi := TakesFrom(c, key), TakesTo(c, key);
    lo <= i < hi && !KeyIn(c[lo..i], key) && !KeyIn(c[i + 1..hi], key)
  }

  /** The entry that comes next is the first of its key, once this one has been pruned. */
  predicate NextOk(p: Run, t: Table, b: nat, k: nat)
    requires b < |t.buckets| && k < |t.buckets[b]|
  {
    var h := Halfway(p, t, b, k + 1);
    var q := FirstAt(h, b, Behind(p, t, b, k + 1));
    q.At? ==> FirstOfKey(h, q)
  }

  /** The iteration at entry `k` of bucket `b` does what pruning that entry means and goes on with
      the next: it looks nothing up by key, or what it looks up is what it means. */
  predicate StepOk(p: Run, t: Table, b: nat, k: nat)
    requires b < |t.buckets| && k < |t.buckets[b]|
  {
    var e := t.buckets[b][k];
    if e.age >= p.age || !Candidate(p.ap, e, p.age) then true
    else if Postponed(p, e) then TextOk(p, Kept(p, t, b, k), e)
    else if Deletes(p, e) && e.mm.Single? then
      && SpareText(p, Kept(p, t, b, k), e) && NextOk(p, t, b, k)
      && TakesOnly(Kept(p, t, b, k) + [e] + t.buckets[b][k + 1..], |Kept(p, t, b, k)|)
    else
      && TextOk(p, Kept(p, t, b, k), e) && NextOk(p, t, b, k)
      && (Deletes(p, e) ==> TakesNone(Kept(p, t, b, k) + [e] + t.buckets[b][k + 1..], e.key))
  }

  /** What the iteration should lead to. */
  function Ideal(p: Run, t: Table, b: nat, k: nat): (Table, Pos)
    requires b < |t.buckets| && k < |t.buckets[b]|
  {
    var h := Halfway(p, t, b, k + 1);
    (h, FirstAt(h, b, Behind(p, t, b, k + 1)))
  }

  // ----- keeping the entry

  lemma KeepIs(p: Run, t0: Table, b: nat, k: nat, e: Ent)
    requires b < |t0.buckets| && k < |t0.buckets[b]| && FateOf(p, t0.buckets[b][k]) == Some(e)
    ensures var h := Halfway(p, t0, b, k + 1);
      && h.buckets[b] == Kept(p, t0, b, k) + [e] + t0.buckets[b][k + 1..]
      && Behind(p, t0, b, k + 1) == |Kept(p, t0, b, k)| + 1
  {
    PruneOne(p, t0.buckets[b], k);
  }

  lemma BucketIs(p: Run, t0: Table, b: nat, k: nat)
    requires b < |t0.buckets| && k < |t0.buckets[b]|
    ensures Halfway(p, t0, b, k).buckets[b] == Kept(p, t0, b, k) + [t0.buckets[b][k]] + t0.buckets[b][k + 1..]
  {
    var chain := t0.buckets[b];
    assert chain[k..] == [chain[k]] + chain[k + 1..];
  }

  /** Two halfway tables differ in their bucket only. */
  lemma SameElsewhere(p: Run, t0: Table, b: nat, k: nat, t: Table)
    requires b < |t0.buckets| && k < |t0.buckets[b]|
    requires |t.buckets| == |t0.buckets| && t.code == t0.code
    requires forall c :: 0 <= c < |t.buckets| && c != b ==> t.buckets[c] == Halfway(p, t0, b, k).buckets[c]
    ensures t == Halfway(p, t0, b, k + 1) <==> t.buckets[b] == Halfway(p, t0, b, k + 1).buckets[b]
  {
    var h := Halfway(p, t0, b, k + 1);
    if t.buckets[b] == h.buckets[b] {
      assert t.buckets == h.buckets;
    }
  }

  /** Writing the kept entry in place. */
  lemma SetKept(p: Run, t0: Table, t: Table, cur: Pos, b: nat, k: nat, e: Ent)
    requires Placed(t0) && cur.At? && Stands(p, t0, t, cur, b, k) && FateOf(p, t0.buckets[b][k]) == Some(e)
    ensures ValidPos(t, cur) && t.buckets[cur.b][cur.i] == t0.buckets[b][k]
    ensures var t' := SetAt(t, cur, e); (t', EnumNext(t', cur)) == Ideal(p, t0, b, k) && Placed(t')
  {
    var a, rest := Kept(p, t0, b, k), t0.buckets[b][k + 1..];
    BucketIs(p, t0, b, k);
    KeepIs(p, t0, b, k, e);
    var t' := SetAt(t, cur, e);
    assert t'.buckets[b] == a + [e] + rest;
    SameElsewhere(p, t0, b, k, t');
    HalfwayPlaced(p, t0, b, k + 1);
    EnumNextIsFirstAt(t', cur);
  }

  // ----- marking the key negative

  lemma FirstInParts(a: seq<Ent>, e: Ent, rest: seq<Ent>)
    ensures First(a + [e] + rest, e.key) == if KeyIn(a, e.key) then First(a, e.key) else |a|
    ensures KeyIn(a, e.key) ==> First(a, e.key) < |a|
  {
    var c, f := a + [e] + rest, First(a, e.key);
    if KeyIn(a, e.key) {
      assert forall j :: 0 <= j < f ==> c[j] == a[j];
      assert c[f] == a[f];
      FirstIs(c, e.key, f);
    } else {
      forall j | 0 <= j < |a| ensures c[j].key != e.key { assert c[j] == a[j]; }
      assert c[|a|] == e;
      FirstIs(c, e.key, |a|);
    }
  }

  /** The entries before, and the entry itself, once its key was marked. */
  function MarkedBefore(p: Run, a: seq<Ent>, e: Ent): (r: seq<Ent>)
    ensures |r| == |a|
  {
    var f := First(a, e.key);
    if p.w.valid(e.key).Here? && f < |a| then a[f := a[f].(text := None)] else a
  }

  function MarkedHere(p: Run, a: seq<Ent>, e: Ent): Ent {
    if p.w.valid(e.key).Here? && First(a, e.key) == |a| then e.(text := None) else e
  }

  /** The entry as pruning keeps it. */
  function Negated(p: Run, e: Ent): Ent {
    if p.w.valid(e.key).Here? then e.(text := None) else e
  }

  lemma KeyInIs(a: seq<Ent>, key: string)
    ensures KeyIn(a, key) <==> First(a, key) < |a|
  {
  }

  /** The chain once the first entry of the key has lost its text. */
  lemma MarkChainIs(p: Run, a: seq<Ent>, e: Ent, rest: seq<Ent>)
    requires p.w.valid(e.key).Here?
    ensures var c, f := a + [e] + rest, First(a + [e] + rest, e.key);
      f < |c| && c[f := c[f].(text := None)] == MarkedBefore(p, a, e) + [MarkedHere(p, a, e)] + rest
  {
    FirstInParts(a, e, rest);
    KeyInIs(a, e.key);
    var c, f := a + [e] + rest, First(a, e.key);
    if f < |a| {
      assert c[f := c[f].(text := None)] == a[f := a[f].(text := None)] + [e] + rest;
    } else {
      assert c[|a| := e.(text := None)] == a + [e.(text := None)] + rest;
    }
  }

  lemma MarkIs(p: Run, t0: Table, t: Table, cur: Pos, b: nat, k: nat)
    requires Placed(t0) && cur.At? && Stands(p, t0, t, cur, b, k)
    ensures Placed(t) && ValidPos(t, cur) && t.buckets[cur.b][cur.i] == t0.buckets[b][k]
    ensures var e, a := t0.buckets[b][k], Kept(p, t0, b, k); var t1 := MarkNegative(p, t, e.key);
      && |t1.buckets| == |t.buckets| && t1.code == t.code && Slot(t, e.key) == b
      && t1.buckets[b] == MarkedBefore(p, a, e) + [MarkedHere(p, a, e)] + t0.buckets[b][k + 1..]
      && forall c :: 0 <= c < |t.buckets| && c != b ==> t1.buckets[c] == t.buckets[c]
  {
    var e := t0.buckets[b][k];
    BucketIs(p, t0, b, k);
    HalfwayPlaced(p, t0, b, k);
    assert Slot(t, e.key) == b;
    if p.w.valid(e.key).Here? { MarkChainIs(p, Kept(p, t0, b, k), e, t0.buckets[b][k + 1..]); }
  }

  lemma PartsEqual(a: seq<Ent>, a': seq<Ent>, e: Ent, e': Ent, rest: seq<Ent>)
    requires |a| == |a'|
    ensures a + [e] + rest == a' + [e'] + rest <==> a == a' && e == e'
  {
    var c, c' := a + [e] + rest, a' + [e'] + rest;
    assert c[..|a|] == a && c'[..|a|] == a' && c[|a|] == e && c'[|a|] == e';
  }

  /** Marking is what pruning means exactly when it hits the entry, or nothing changes. */
  lemma MarkOkIff(p: Run, a: seq<Ent>, e: Ent)
    ensures MarkedBefore(p, a, e) == a && MarkedHere(p, a, e) == Negated(p, e) <==> TextOk(p, a, e)
  {
    KeyInIs(a, e.key);
    var f := First(a, e.key);
    if p.w.valid(e.key).Here? && f < |a| {
      if a[f := a[f].(text := None)] == a {
        assert a[f := a[f].(text := None)][f] == a[f];
      }
      if a[f].text.None? {
        assert a[f := a[f].(text := None)] == a;
      }
    }
  }

  /** The cache after marking is the pruned one exactly when the text is right. */
  lemma KeptIff(p: Run, t0: Table, t: Table, cur: Pos, b: nat, k: nat)
    requires Placed(t0) && cur.At? && Stands(p, t0, t, cur, b, k)
    requires FateOf(p, t0.buckets[b][k]) == Some(Negated(p, t0.buckets[b][k]))
    ensures MarkNegative(p, t, t0.buckets[b][k].key) == Halfway(p, t0, b, k + 1) <==>
              TextOk(p, Kept(p, t0, b, k), t0.buckets[b][k])
  {
    var e, a := t0.buckets[b][k], Kept(p, t0, b, k);
    MarkIs(p, t0, t, cur, b, k);
    KeepIs(p, t0, b, k, Negated(p, e));
    SameElsewhere(p, t0, b, k, MarkNegative(p, t, e.key));
    PartsEqual(MarkedBefore(p, a, e), a, MarkedHere(p, a, e), Negated(p, e), t0.buckets[b][k + 1..]);
    MarkOkIff(p, a, e);
  }

  // ----- deleting the entry

  lemma {:induction false} WithoutNone(c: seq<Ent>, key: string)
    ensures |Without(c, key)| <= |c|
    ensures !KeyIn(c, key) <==> |Without(c, key)| == |c|
    ensures !KeyIn(c, key) ==> Without(c, key) == c
  {
    if c == [] {
    } else {
      WithoutNone(c[1..], key);
      KeyInConcat([c[0]], c[1..], key);
      assert c == [c[0]] + c[1..];
      assert KeyIn([c[0]], key) <==> c[0].key == key by { assert [c[0]][0] == c[0]; }
    }
  }

  lemma KeyInConcat(a: seq<Ent>, b: seq<Ent>, key: string)
    ensures KeyIn(a + b, key) <==> KeyIn(a, key) || KeyIn(b, key)
  {
    if j :| 0 <= j < |a| && a[j].key == key { assert (a + b)[j].key == key; }
    if j :| 0 <= j < |b| && b[j].key == key { assert (a + b)[|a| + j].key == key; }
    if j :| 0 <= j < |a + b| && (a + b)[j].key == key {
      assert if j < |a| then a[j].key == key else b[j - |a|].key == key;
    }
  }

  function Cut(c: seq<Ent>, i: nat): seq<Ent>
    requires i < |c|
  {
    c[..i] + c[i + 1..]
  }

  /** With exactly one entry of the key, taking the key out takes out that entry. */
  lemma WithoutOne(c: seq<Ent>, key: string, i: nat)
    requires i < |c| && c[i].key == key && !KeyIn(c[..i], key) && !KeyIn(c[i + 1..], key)
    ensures Without(c, key) == Cut(c, i)
  {
    assert c == c[..i] + ([c[i]] + c[i + 1..]);
    WithoutAppend(c[..i], [c[i]] + c[i + 1..], key);
    WithoutNone(c[..i], key);
    WithoutNone(c[i + 1..], key);
    assert ([c[i]] + c[i + 1..])[1..] == c[i + 1..];
  }

  /** If one entry goes, there is exactly one of the key. */
  lemma {:induction false} OneGoes(c: seq<Ent>, key: string) returns (i: nat)
    requires |Without(c, key)| + 1 == |c|
    ensures i < |c| && c[i].key == key && !KeyIn(c[..i], key) && !KeyIn(c[i + 1..], key)
  {
    assert c == [c[0]] + c[1..];
    if c[0].key == key {
      WithoutNone(c[1..], key);
      i := 0;
    } else {
      i := OneGoes(c[1..], key);
      KeyInConcat([c[0]], c[1..][..i], key);
      assert c[..i + 1] == [c[0]] + c[1..][..i] && c[1..][i + 1..] == c[i + 2..];
      i := i + 1;
    }
  }

  lemma {:induction false} DropIs(rest: seq<Ent>, key: string)
    ensures var m := FirstMulti(rest, key);
      DropAfter(rest, key) == (Without(rest[..m], key) + rest[m..], m == |rest|)
  {
    var m := FirstMulti(rest, key);
    if m == 0 {
      assert rest[..0] == [] && [] + rest[0..] == rest;
    } else {
      DropIs(rest[1..], key);
      var s := rest[..m];
      assert s[0] == rest[0] && s[1..] == rest[1..][..m - 1] && rest[1..][m - 1..] == rest[m..];
      var w := Without(s[1..], key);
      assert [rest[0]] + (w + rest[m..]) == ([rest[0]] + w) + rest[m..];
    }
  }

  /** cache_delete takes out exactly the entries of the key between the two places. */
  lemma DeleteIs(c: seq<Ent>, key: string)
    requires c != []
    ensures var lo, hi := TakesFrom(c, key), TakesTo(c, key);
      DeleteFrom(c, key).0 == c[..lo] + Without(c[lo..hi], key) + c[hi..]
  {
    var m := FirstMulti(c[1..], key);
    DropIs(c[1..], key);
    assert c[1..][..m] == c[1..m + 1] && c[1..][m..] == c[m + 1..];
    if TakesFrom(c, key) == 0 {
      assert c[0..|c|] == c && c[1..m + 1] == c[1..];
    }
  }

  /** Entries that agree on all but text, ages and status. */
  predicate SameTags(c: seq<Ent>, d: seq<Ent>) {
    |c| == |d| && forall i :: 0 <= i < |c| ==> c[i].key == d[i].key && c[i].source == d[i].source && c[i].mm == d[i].mm
  }

  lemma {:induction false} SameMulti(c: seq<Ent>, d: seq<Ent>, key: string)
    requires SameTags(c, d)
    ensures FirstMulti(c, key) == FirstMulti(d, key)
  {
    if c == [] {
    } else {
      SameMulti(c[1..], d[1..], key);
    }
  }

  lemma SameKeys(c: seq<Ent>, d: seq<Ent>, key: string)
    requires |c| == |d| && forall i :: 0 <= i < |c| ==> c[i].key == d[i].key
    ensures KeyIn(c, key) <==> KeyIn(d, key)
  {
    if i :| 0 <= i < |c| && c[i].key == key { assert d[i].key == key; }
    if i :| 0 <= i < |d| && d[i].key == key { assert c[i].key == key; }
  }

  lemma SameTakes(c: seq<Ent>, d: seq<Ent>, i: nat)
    requires SameTags(c, d) && i < |c|
    ensures TakesNone(c, c[i].key) <==> TakesNone(d, c[i].key)
    ensures TakesOnly(c, i) <==> TakesOnly(d, i)
  {
    var key := c[i].key;
    SameMulti(c[1..], d[1..], key);
    var lo, hi := TakesFrom(c, key), TakesTo(c, key);
    SameKeys(c[lo..hi], d[lo..hi], key);
    if lo <= i < hi {
      SameKeys(c[lo..i], d[lo..i], key);
      SameKeys(c[i + 1..hi], d[i + 1..hi], key);
    }
  }

  /** Nothing goes exactly when there is nothing to take. */
  lemma StaysIff(c: seq<Ent>, key: string)
    requires c != []
    ensures TakesNone(c, key) ==> DeleteFrom(c, key).0 == c
    ensures |DeleteFrom(c, key).0| == |c| ==> TakesNone(c, key)
  {
    DeleteIs(c, key);
    var lo, hi := TakesFrom(c, key), TakesTo(c, key);
    WithoutNone(c[lo..hi], key);
    assert c == c[..lo] + c[lo..hi] + c[hi..];
  }

  lemma CutWithin(c: seq<Ent>, lo: nat, hi: nat, i: nat)
    requires lo <= i < hi <= |c|
    ensures c[..lo] + Cut(c[lo..hi], i - lo) + c[hi..] == Cut(c, i)
  {
  }

  lemma OnlyGoes(c: seq<Ent>, i: nat)
    requires i < |c| && TakesOnly(c, i)
    ensures DeleteFrom(c, c[i].key).0 == Cut(c, i)
  {
    var key := c[i].key;
    var lo, hi := TakesFrom(c, key), TakesTo(c, key);
    var s := c[lo..hi];
    assert s[..i - lo] == c[lo..i] && s[i - lo + 1..] == c[i + 1..hi];
    WithoutOne(s, key, i - lo);
    DeleteIs(c, key);
    CutWithin(c, lo, hi, i);
  }

  /** If cache_delete takes out one entry, it is the only one it could. */
  lemma GoesOnly(c: seq<Ent>, key: string) returns (i: nat)
    requires c != [] && |DeleteFrom(c, key).0| + 1 == |c|
    ensures i < |c| && c[i].key == key && TakesOnly(c, i)
  {
    var lo, hi := TakesFrom(c, key), TakesTo(c, key);
    DeleteIs(c, key);
    var s := c[lo..hi];
    var j := OneGoes(s, key);
    i := lo + j;
    assert s[..j] == c[lo..i] && s[j + 1..] == c[i + 1..hi];
  }

  /** Cutting at different places leaves different entries. */
  lemma CutsDiffer(c: seq<Ent>, d: seq<Ent>, j: nat, i: nat)
    requires SameTags(c, d) && SourcesDiffer(d) && j < |c| && i < |d| && j != i
    ensures Cut(c, j) != Cut(d, i)
  {
    var m := if j < i then j else i;
    assert d[m].key != d[m + 1].key || d[m].source != d[m + 1].source;
    assert Cut(c, j)[m] == if j < i then c[m + 1] else c[m];
    assert Cut(d, i)[m] == if j < i then d[m] else d[m + 1];
  }

  lemma CutBetween(a: seq<Ent>, e: Ent, rest: seq<Ent>)
    ensures Cut(a + [e] + rest, |a|) == a + rest
  {
  }

  /** If cache_delete leaves what cutting `d` at `i` leaves, then it took just that entry. */
  lemma TookIt(c: seq<Ent>, d: seq<Ent>, i: nat)
    requires SameTags(c, d) && SourcesDiffer(d) && i < |d| && DeleteFrom(c, d[i].key).0 == Cut(d, i)
    ensures TakesOnly(c, i) && Cut(c, i) == Cut(d, i)
  {
    var j := GoesOnly(c, d[i].key);
    OnlyGoes(c, j);
    if j != i { CutsDiffer(c, d, j, i); }
  }

  /** Deleting the key takes out exactly the entry between `a` and `rest` if and only if that is
      the only one cache_delete comes to, and the others are as they should be. */
  lemma TakesOutIff(a': seq<Ent>, e': Ent, a: seq<Ent>, e: Ent, rest: seq<Ent>)
    requires |a'| == |a| && SameTags(a' + [e'] + rest, a + [e] + rest) && SourcesDiffer(a + [e] + rest)
    ensures DeleteFrom(a' + [e'] + rest, e.key).0 == a + rest <==> TakesOnly(a + [e] + rest, |a|) && a' == a
  {
    var c, d := a' + [e'] + rest, a + [e] + rest;
    assert c[|a|] == e' && d[|a|] == e;
    SameTakes(c, d, |a|);
    CutBetween(a, e, rest);
    CutBetween(a', e', rest);
    if DeleteFrom(c, e.key).0 == a + rest {
      TookIt(c, d, |a|);
      assert (a' + rest)[..|a|] == a' && (a + rest)[..|a|] == a;
    } else if TakesOnly(d, |a|) {
      OnlyGoes(c, |a|);
    }
  }

  // ----- pruning keeps the sources apart

  lemma {:induction false} PruneSources(p: Run, chain: seq<Ent>)
    requires SourcesDiffer(chain)
    ensures SourcesDiffer(PruneChain(p, chain))
  {
    if chain == [] {
    } else {
      PruneSources(p, chain[1..]);
      var rest := PruneChain(p, chain[1..]);
      forall i | 0 <= i < |rest| && rest[i].key == chain[0].key ensures rest[i].source != chain[0].source {
        var j := PruneFrom(p, chain[1..], i);
        assert chain[1..][j] == chain[j + 1];
      }
    }
  }

  lemma PartSources(p: Run, chain: seq<Ent>, k: nat)
    requires k < |chain| && SourcesDiffer(chain)
    ensures SourcesDiffer(PruneChain(p, chain[..k]) + [chain[k]] + chain[k + 1..])
  {
    PruneSources(p, chain[..k]);
    var a := PruneChain(p, chain[..k]);
    var c := a + [chain[k]] + chain[k + 1..];
    forall i, j | 0 <= i < j < |c| && c[i].key == c[j].key ensures c[i].source != c[j].source {
      if |a| <= j { assert c[j] == chain[k + j - |a|]; }
      if |a| <= i { assert c[i] == chain[k + i - |a|]; }
      if i < |a| <= j {
        var m := PruneFrom(p, chain[..k], i);
        assert chain[..k][m] == chain[m];
      }
    }
  }

  lemma SpareTextIff(p: Run, a: seq<Ent>, e: Ent)
    ensures MarkedBefore(p, a, e) == a <==> SpareText(p, a, e)
  {
    KeyInIs(a, e.key);
    var f := First(a, e.key);
    if p.w.valid(e.key).Here? && f < |a| {
      var m := a[f := a[f].(text := None)];
      assert m[f] == a[f].(text := None);
      if a[f].text.None? { assert m == a; }
    }
  }

  lemma MarkedTags(p: Run, a: seq<Ent>, e: Ent, rest: seq<Ent>)
    ensures SameTags(MarkedBefore(p, a, e) + [MarkedHere(p, a, e)] + rest, a + [e] + rest)
  {
  }

  lemma GoneIs(p: Run, t0: Table, b: nat, k: nat)
    requires b < |t0.buckets| && k < |t0.buckets[b]| && FateOf(p, t0.buckets[b][k]).None?
    ensures Halfway(p, t0, b, k + 1).buckets[b] == Kept(p, t0, b, k) + t0.buckets[b][k + 1..]
    ensures Behind(p, t0, b, k + 1) == |Kept(p, t0, b, k)|
  {
    PruneOne(p, t0.buckets[b], k);
    assert Kept(p, t0, b, k) + [] == Kept(p, t0, b, k);
  }

  lemma DroppedIff(p: Run, t0: Table, t: Table, cur: Pos, b: nat, k: nat)
    requires Placed(t0) && OnePerSource(t0) && cur.At? && Stands(p, t0, t, cur, b, k)
    requires FateOf(p, t0.buckets[b][k]).None? && t0.buckets[b][k].mm.Single?
    ensures var e, a := t0.buckets[b][k], Kept(p, t0, b, k);
      Delete(MarkNegative(p, t, e.key), e.key).0 == Halfway(p, t0, b, k + 1) <==>
        SpareText(p, a, e) && TakesOnly(a + [e] + t0.buckets[b][k + 1..], |a|)
  {
    var e, a, rest := t0.buckets[b][k], Kept(p, t0, b, k), t0.buckets[b][k + 1..];
    MarkIs(p, t0, t, cur, b, k);
    GoneIs(p, t0, b, k);
    PartSources(p, t0.buckets[b], k);
    MarkedTags(p, a, e, rest);
    SpareTextIff(p, a, e);
    TakesOutIff(MarkedBefore(p, a, e), MarkedHere(p, a, e), a, e, rest);
    SameElsewhere(p, t0, b, k, Delete(MarkNegative(p, t, e.key), e.key).0);
  }

  /** At an entry of a multi-mount cache_delete should find nothing to take. */
  lemma OwnerStays(p: Run, t0: Table, t: Table, cur: Pos, b: nat, k: nat)
    requires Placed(t0) && cur.At? && Stands(p, t0, t, cur, b, k)
    ensures var e, a := t0.buckets[b][k], Kept(p, t0, b, k); var t1 := MarkNegative(p, t, e.key);
      && (TakesNone(a + [e] + t0.buckets[b][k + 1..], e.key) ==> Delete(t1, e.key).0 == t1)
      && (|Delete(t1, e.key).0.buckets[b]| == |t1.buckets[b]| ==> TakesNone(a + [e] + t0.buckets[b][k + 1..], e.key))
  {
    var e, a, rest := t0.buckets[b][k], Kept(p, t0, b, k), t0.buckets[b][k + 1..];
    MarkIs(p, t0, t, cur, b, k);
    var t1 := MarkNegative(p, t, e.key);
    var c := MarkedBefore(p, a, e) + [MarkedHere(p, a, e)] + rest;
    MarkedTags(p, a, e, rest);
    assert c[|a|].key == e.key;
    SameTakes(c, a + [e] + rest, |a|);
    StaysIff(c, e.key);
    if TakesNone(c, e.key) { assert Delete(t1, e.key).0.buckets == t1.buckets; }
  }

  /** So, with a multi-mount's entry, the cache is the pruned one exactly when the text is right
      and nothing was taken out. */
  lemma OwnerIff(p: Run, t0: Table, t: Table, cur: Pos, b: nat, k: nat)
    requires Placed(t0) && cur.At? && Stands(p, t0, t, cur, b, k)
    requires FateOf(p, t0.buckets[b][k]) == Some(Negated(p, t0.buckets[b][k]))
    ensures var e, a := t0.buckets[b][k], Kept(p, t0, b, k); var t1 := MarkNegative(p, t, e.key);
      && (Delete(t1, e.key).0 == Halfway(p, t0, b, k + 1) <==>
            TextOk(p, a, e) && TakesNone(a + [e] + t0.buckets[b][k + 1..], e.key))
      && (Delete(t1, e.key).0 == Halfway(p, t0, b, k + 1) ==> t1 == Halfway(p, t0, b, k + 1))
  {
    var e := t0.buckets[b][k];
    MarkIs(p, t0, t, cur, b, k);
    KeepIs(p, t0, b, k, Negated(p, e));
    KeptIff(p, t0, t, cur, b, k);
    OwnerStays(p, t0, t, cur, b, k);
  }

  // ----- one iteration

  /** Finding the place again by the next entry's key is right exactly when it is the first. */
  lemma PlaceAgainIff(h: Table, q: Pos, next: Pos, t1: Table)
    requires Placed(h) && ValidPos(h, q) && ValidPos(t1, next) && (next.End? <==> q.End?)
    requires q.At? ==> t1.buckets[next.b][next.i] == h.buckets[q.b][q.i]
    ensures (if next.At? then Locate(h, t1.buckets[next.b][next.i].key) else End) == q <==>
              (q.At? ==> FirstOfKey(h, q))
  {
    if q.At? { LocateAgain(h, q); }
  }

  lemma KeptPlace(p: Run, t0: Table, t: Table, cur: Pos, b: nat, k: nat)
    requires Placed(t0) && cur.At? && Stands(p, t0, t, cur, b, k)
    requires FateOf(p, t0.buckets[b][k]) == Some(Negated(p, t0.buckets[b][k]))
    requires TextOk(p, Kept(p, t0, b, k), t0.buckets[b][k])
    ensures var t1 := MarkNegative(p, t, t0.buckets[b][k].key);
      && t1 == Halfway(p, t0, b, k + 1) && Placed(t1) && ValidPos(t1, cur)
      && EnumNext(t1, cur) == FirstAt(t1, b, Behind(p, t0, b, k + 1))
  {
    KeptIff(p, t0, t, cur, b, k);
    KeepIs(p, t0, b, k, Negated(p, t0.buckets[b][k]));
    HalfwayPlaced(p, t0, b, k + 1);
    EnumNextIsFirstAt(Halfway(p, t0, b, k + 1), cur);
  }

  lemma DroppedPlace(p: Run, t0: Table, t: Table, cur: Pos, b: nat, k: nat)
    requires Placed(t0) && cur.At? && Stands(p, t0, t, cur, b, k)
    requires FateOf(p, t0.buckets[b][k]).None? && SpareText(p, Kept(p, t0, b, k), t0.buckets[b][k])
    ensures var t1 := MarkNegative(p, t, t0.buckets[b][k].key); var h := Halfway(p, t0, b, k + 1);
      && Placed(t1) && ValidPos(t1, cur) && Placed(h)
      && var next, q := EnumNext(t1, cur), FirstAt(h, b, Behind(p, t0, b, k + 1));
         && (next.End? <==> q.End?)
         && (q.At? ==> t1.buckets[next.b][next.i] == h.buckets[q.b][q.i])
  {
    var e, a, rest := t0.buckets[b][k], Kept(p, t0, b, k), t0.buckets[b][k + 1..];
    MarkIs(p, t0, t, cur, b, k);
    MarkNegativePlaced(p, t, e.key, cur);
    GoneIs(p, t0, b, k);
    SpareTextIff(p, a, e);
    HalfwayPlaced(p, t0, b, k + 1);
    var t1, h := MarkNegative(p, t, e.key), Halfway(p, t0, b, k + 1);
    EnumNextIsFirstAt(t1, cur);
    ShiftedCursor(t1, h, b, a, MarkedHere(p, a, e), rest);
  }

  /** At a stale entry that should go. */
  lemma GoesIff(p: Run, t0: Table, t: Table, cur: Pos, b: nat, k: nat)
    requires Placed(t0) && OnePerSource(t0) && cur.At? && Stands(p, t0, t, cur, b, k)
    requires var e := t0.buckets[b][k]; e.age < p.age && Candidate(p.ap, e, p.age) && e.mm.Single?
    requires !Postponed(p, t0.buckets[b][k]) && Deletes(p, t0.buckets[b][k])
    ensures Placed(t) && ValidPos(t, cur)
    ensures Iterate(p, t, cur) == Ideal(p, t0, b, k) <==> StepOk(p, t0, b, k)
  {
    var e := t0.buckets[b][k];
    MarkIs(p, t0, t, cur, b, k);
    MarkNegativePlaced(p, t, e.key, cur);
    DroppedIff(p, t0, t, cur, b, k);
    var t1, h := MarkNegative(p, t, e.key), Halfway(p, t0, b, k + 1);
    if Delete(t1, e.key).0 == h {
      DroppedPlace(p, t0, t, cur, b, k);
      PlaceAgainIff(h, FirstAt(h, b, Behind(p, t0, b, k + 1)), EnumNext(t1, cur), t1);
    }
  }

  /** At a stale entry that pruning considers. */
  lemma StaleIff(p: Run, t0: Table, t: Table, cur: Pos, b: nat, k: nat)
    requires Placed(t0) && OnePerSource(t0) && cur.At? && Stands(p, t0, t, cur, b, k)
    requires var e := t0.buckets[b][k]; e.age < p.age && Candidate(p.ap, e, p.age)
    ensures Placed(t) && ValidPos(t, cur)
    ensures Iterate(p, t, cur) == Ideal(p, t0, b, k) <==> StepOk(p, t0, b, k)
  {
    var e := t0.buckets[b][k];
    if !Postponed(p, e) && Deletes(p, e) && e.mm.Single? {
      GoesIff(p, t0, t, cur, b, k);
    } else {
      StaysPutIff(p, t0, t, cur, b, k);
    }
  }

  /** At one that should stay. */
  lemma StaysPutIff(p: Run, t0: Table, t: Table, cur: Pos, b: nat, k: nat)
    requires Placed(t0) && cur.At? && Stands(p, t0, t, cur, b, k)
    requires var e := t0.buckets[b][k]; e.age < p.age && Candidate(p.ap, e, p.age)
    requires var e := t0.buckets[b][k]; Postponed(p, e) || !Deletes(p, e) || !e.mm.Single?
    ensures Placed(t) && ValidPos(t, cur)
    ensures Iterate(p, t, cur) == Ideal(p, t0, b, k) <==> StepOk(p, t0, b, k)
  {
    var e := t0.buckets[b][k];
    MarkIs(p, t0, t, cur, b, k);
    MarkNegativePlaced(p, t, e.key, cur);
    KeptIff(p, t0, t, cur, b, k);
    var t1, h := MarkNegative(p, t, e.key), Halfway(p, t0, b, k + 1);
    if t1 == h { KeptPlace(p, t0, t, cur, b, k); }
    if !Postponed(p, e) {
      if Deletes(p, e) { OwnerIff(p, t0, t, cur, b, k); }
      if t1 == h { PlaceAgainIff(h, FirstAt(h, b, Behind(p, t0, b, k + 1)), EnumNext(t1, cur), t1); }
    }
  }

  /** One iteration, begun with everything before its entry pruned, prunes exactly that entry and
      goes on with the next if and only if the condition holds. */
  lemma IterationIff(p: Run, t0: Table, t: Table, cur: Pos, b: nat, k: nat)
    requires Placed(t0) && OnePerSource(t0) && p.wild == HasWild(t0) && cur.At? && Stands(p, t0, t, cur, b, k)
    ensures Placed(t) && ValidPos(t, cur)
    ensures Iterate(p, t, cur) == Ideal(p, t0, b, k) <==> StepOk(p, t0, b, k)
  {
    var e := t0.buckets[b][k];
    MarkIs(p, t0, t, cur, b, k);
    if e.age >= p.age {
      WildStays(p, t0, b, k);
      SetKept(p, t0, t, cur, b, k, if e.text.Some? || p.wild then e.(status := 0) else e);
    } else if !Candidate(p.ap, e, p.age) {
      SetKept(p, t0, t, cur, b, k, e);
      SetSame(t, cur);
    } else {
      StaleIff(p, t0, t, cur, b, k);
    }
  }

  // ----- one entry per key and source

  lemma ConsSources(e: Ent, rest: seq<Ent>)
    requires SourcesDiffer(rest) && forall x :: x in rest && x.key == e.key ==> x.source != e.source
    ensures SourcesDiffer([e] + rest)
  {
  }

  lemma {:induction false} DropSources(rest: seq<Ent>, key: string)
    requires SourcesDiffer(rest)
    ensures SourcesDiffer(DropAfter(rest, key).0)
  {
    if rest == [] {
    } else {
      DropSources(rest[1..], key);
      DropSubset(rest[1..], key);
      if rest[0].key != key { ConsSources(rest[0], DropAfter(rest[1..], key).0); }
    }
  }

  lemma DeleteSources(chain: seq<Ent>, key: string)
    requires SourcesDiffer(chain)
    ensures SourcesDiffer(DeleteFrom(chain, key).0)
  {
    if chain != [] {
      DropSources(chain[1..], key);
      DropSubset(chain[1..], key);
      ConsSources(chain[0], DropAfter(chain[1..], key).0);
    }
  }

  lemma UpdateSources(chain: seq<Ent>, source: nat, key: string, text: Option<string>, age: int)
    requires SourcesDiffer(chain)
    ensures SourcesDiffer(UpdateChain(chain, source, key, text, age).0)
  {
    if FirstFrom(chain, key, source) == |chain| && !Has(chain, key) {
      ConsSources(NewEnt(source, key, text, age), chain);
    }
  }

  /** Updates and deletions keep at most one entry for each key and source, however many sources
      share the cache. */
  lemma OperationsKeepSources(t: Table, source: nat, key: string, text: Option<string>, age: int)
    requires t.buckets != [] && OnePerSource(t)
    ensures OnePerSource(Update(t, source, key, text, age)) && OnePerSource(Delete(t, key).0)
  {
    DeleteSources(Chain(t, key), key);
    UpdateSources(Chain(t, key), source, key, text, age);
  }
}
