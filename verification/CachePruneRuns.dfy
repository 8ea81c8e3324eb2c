/** The whole pruning loop (daemon/lookup.c:1343-1503) on caches that several sources may share: it
    prunes each entry on its own exactly under the condition of `CachePruneIff`, and what it does
    on two caches for which that fails.
 */
module CachePruneRuns {
  import opened Options
  import opened CacheTable
  import opened CacheEnumerate
  import opened CachePrune
  import opened CachePruneLoop
  import opened CachePruneIff

  predicate Standing(t: Table, cur: Pos) {
    Placed(t) && ValidPos(t, cur)
  }

  lemma IterateStands(p: Run, t: Table, cur: Pos)
    requires Placed(t) && cur.At? && ValidPos(t, cur)
    ensures var (t', cur') := Iterate(p, t, cur); Standing(t', cur')
  {
    var e := t.buckets[cur.b][cur.i];
    if e.age >= p.age {
      SetAtPlaced(t, cur, if e.text.Some? || HasWild(t) then e.(status := 0) else e);
    } else if Candidate(p.ap, e, p.age) {
      MarkNegativePlaced(p, t, e.key, cur);
      OperationsKeepPlaced(MarkNegative(p, t, e.key), 0, e.key, None, 0);
    }
  }

  /** The cache and the place in it. */
  datatype Spot = Spot(t: Table, cur: Pos)

  /** One more iteration, if the loop has not ended. */
  function Go(p: Run, s: Spot): Spot {
    if s.cur.At? && Standing(s.t, s.cur) then
      var (t', cur') := Iterate(p, s.t, s.cur);
      Spot(t', cur')
    else s
  }

  function Times<S(!new)>(f: S -> S, s: S, n: nat): S {
    if n == 0 then s else f(Times(f, s, n - 1))
  }

  /** Where the loop is after `n` iterations, or at the end if that comes before. */
  function After(p: Run, s: Spot, n: nat): Spot {
    Times((x: Spot) => Go(p, x), s, n)
  }

  lemma AfterOne(p: Run, s: Spot, n: nat)
    ensures After(p, s, 0) == s
    ensures After(p, s, n + 1) == Go(p, After(p, s, n))
  {
  }

  lemma {:induction false} TimesStays<S(!new)>(f: S -> S, s: S, n: nat, m: nat)
    requires n <= m && f(Times(f, s, n)) == Times(f, s, n)
    ensures Times(f, s, m) == Times(f, s, n)
    decreases m
  {
    if n == m {
    } else {
      TimesStays(f, s, n, m - 1);
    }
  }

  lemma GoStands(p: Run, s: Spot)
    requires Standing(s.t, s.cur)
    ensures var r := Go(p, s); Standing(r.t, r.cur)
  {
    if s.cur.At? { IterateStands(p, s.t, s.cur); }
  }

  lemma AfterEnd(p: Run, s: Spot, n: nat, m: nat)
    requires n <= m && After(p, s, n).cur.End?
    ensures After(p, s, m) == After(p, s, n)
  {
    TimesStays((x: Spot) => Go(p, x), s, n, m);
  }

  function Start(t: Table): Spot { Spot(t, EnumFirst(t)) }

  // ----- the ideal run

  predicate Earlier(c: nat, j: nat, b: nat, k: nat) {
    c < b || (c == b && j < k)
  }

  /** The condition holds at every entry before place `k` of bucket `b`. */
  ghost predicate OkBefore(p: Run, t: Table, b: nat, k: nat) {
    forall c, j {:trigger StepOk(p, t, c, j)} ::
      0 <= c < |t.buckets| && 0 <= j < |t.buckets[c]| && Earlier(c, j, b, k) && Primary(t.buckets[c][j]) ==>
        StepOk(p, t, c, j)
  }

  /** Each iteration looks up by key only what it means. */
  ghost predicate Benign(p: Run, t: Table) {
    OkBefore(p, t, |t.buckets|, 0)
  }

  predicate Started(p: Run, t: Table) {
    Placed(t) && OnePerSource(t) && p.wild == HasWild(t)
  }

  /** An entry that is not primary is passed without an iteration. */
  lemma PassOffset(p: Run, t: Table, b: nat, k: nat)
    requires b < |t.buckets| && k < |t.buckets[b]| && !Primary(t.buckets[b][k])
    ensures Before(p, t, b, k + 1) == Before(p, t, b, k)
  {
    var chain := t.buckets[b];
    PruneOne(p, chain, k);
    var a := PruneChain(p, chain[..k]);
    assert a + chain[k..] == (a + [chain[k]]) + chain[k + 1..];
    var h := Halfway(p, t, b, k);
    assert Halfway(p, t, b, k + 1).buckets == h.buckets;
    assert h.buckets[b][|a|] == chain[k];
  }

  /** Where the loop should be with exactly the entries before place `k` of bucket `b` pruned: at
      the next primary entry. */
  function Before(p: Run, t: Table, b: nat, k: nat): Spot
    requires b < |t.buckets| && k <= |t.buckets[b]|
  {
    var h := Halfway(p, t, b, k);
    Spot(h, FirstAt(h, b, Behind(p, t, b, k)))
  }

  lemma HereStands(p: Run, t: Table, b: nat, k: nat)
    requires b < |t.buckets| && k < |t.buckets[b]| && Primary(t.buckets[b][k])
    ensures var h := Halfway(p, t, b, k); var cur := FirstAt(h, b, Behind(p, t, b, k));
      cur == At(b, Behind(p, t, b, k)) && Stands(p, t, h, cur, b, k)
  {
    var h := Halfway(p, t, b, k);
    BucketIs(p, t, b, k);
    assert h.buckets[b][Behind(p, t, b, k)] == t.buckets[b][k];
  }

  /** The loop comes to the place with exactly the entries before it pruned. */
  ghost predicate Reaches(p: Run, t: Table, b: nat, k: nat)
    requires b < |t.buckets| && k <= |t.buckets[b]|
  {
    exists n: nat :: After(p, Start(t), n) == Before(p, t, b, k)
  }

  /** As long as the condition holds, it comes to each place. */
  lemma {:induction false} RunsTo(p: Run, t: Table, b: nat, k: nat)
    requires Started(p, t) && b < |t.buckets| && k <= |t.buckets[b]| && OkBefore(p, t, b, k)
    ensures Reaches(p, t, b, k)
    decreases b
  {
    OkLess(p, t, b, 0, k);
    if b == 0 {
      AtStart(p, t);
    } else {
      OkThrough(p, t, b - 1);
      RunsTo(p, t, b - 1, |t.buckets[b - 1]|);
      RunsOn(p, t, b - 1);
    }
    RunsAlong(p, t, b, k);
  }

  lemma {:induction false} RunsAlong(p: Run, t: Table, b: nat, k: nat)
    requires Started(p, t) && b < |t.buckets| && k <= |t.buckets[b]| && OkBefore(p, t, b, k)
    requires Reaches(p, t, b, 0)
    ensures Reaches(p, t, b, k)
    decreases k
  {
    if k == 0 {
    } else {
      OkLess(p, t, b, k - 1, k);
      RunsAlong(p, t, b, k - 1);
      RunsPast(p, t, b, k - 1);
    }
  }

  lemma AtStart(p: Run, t: Table)
    requires t.buckets != []
    ensures Reaches(p, t, 0, 0)
  {
    Untouched(p, t);
    AfterOne(p, Start(t), 0);
  }

  lemma RunsOn(p: Run, t: Table, b: nat)
    requires b + 1 < |t.buckets| && Reaches(p, t, b, |t.buckets[b]|)
    ensures Reaches(p, t, b + 1, 0)
  {
    TurnBucket(p, t, b);
  }

  lemma RunsPast(p: Run, t: Table, b: nat, k: nat)
    requires Started(p, t) && b < |t.buckets| && k < |t.buckets[b]|
    requires Reaches(p, t, b, k) && OkBefore(p, t, b, k + 1)
    ensures Reaches(p, t, b, k + 1)
  {
    if Primary(t.buckets[b][k]) {
      var n: nat :| After(p, Start(t), n) == Before(p, t, b, k);
      OkLast(p, t, b, k);
      RunsOne(p, t, b, k, n);
    } else {
      PassOffset(p, t, b, k);
    }
  }

  lemma OkThrough(p: Run, t: Table, b: nat)
    requires b + 1 < |t.buckets| && OkBefore(p, t, b + 1, 0)
    ensures OkBefore(p, t, b, |t.buckets[b]|)
  {
  }

  lemma OkLess(p: Run, t: Table, b: nat, j: nat, k: nat)
    requires j <= k && OkBefore(p, t, b, k)
    ensures OkBefore(p, t, b, j)
  {
  }

  lemma OkLast(p: Run, t: Table, b: nat, k: nat)
    requires b < |t.buckets| && k < |t.buckets[b]| && OkBefore(p, t, b, k + 1) && Primary(t.buckets[b][k])
    ensures StepOk(p, t, b, k)
  {
    assert Earlier(b, k, b, k + 1);
  }

  lemma TurnBucket(p: Run, t: Table, b: nat)
    requires b + 1 < |t.buckets|
    ensures Before(p, t, b, |t.buckets[b]|) == Before(p, t, b + 1, 0)
  {
    NextBucket(p, t, b);
    EndOfBucket(p, t, b);
  }

  /** One more iteration, at an entry for which the condition holds. */
  lemma RunsOne(p: Run, t: Table, b: nat, k: nat, n: nat)
    requires Started(p, t) && b < |t.buckets| && k < |t.buckets[b]| && Primary(t.buckets[b][k])
    requires StepOk(p, t, b, k) && After(p, Start(t), n) == Before(p, t, b, k)
    ensures After(p, Start(t), n + 1) == Before(p, t, b, k + 1)
  {
    AfterOne(p, Start(t), n);
    GoIff(p, t, b, k);
  }

  /** The condition, for the iteration as a step of the loop. */
  lemma GoIff(p: Run, t: Table, b: nat, k: nat)
    requires Started(p, t) && b < |t.buckets| && k < |t.buckets[b]| && Primary(t.buckets[b][k])
    ensures Before(p, t, b, k).cur.At?
    ensures Go(p, Before(p, t, b, k)) == Before(p, t, b, k + 1) <==> StepOk(p, t, b, k)
  {
    HereStands(p, t, b, k);
    IterationIff(p, t, Halfway(p, t, b, k), At(b, Behind(p, t, b, k)), b, k);
  }

  lemma EndOfBucket(p: Run, t: Table, b: nat)
    requires b + 1 < |t.buckets|
    ensures var h := Halfway(p, t, b, |t.buckets[b]|);
      FirstAt(h, b, Behind(p, t, b, |t.buckets[b]|)) == FromBucket(h, b + 1) == FirstAt(h, b + 1, 0)
  {
    var h, c := Halfway(p, t, b, |t.buckets[b]|), t.buckets[b];
    assert c[..|c|] == c && c[|c|..] == [] && h.buckets[b] == PruneChain(p, c) + [];
  }

  /** Under the condition the loop ends, with the pruned cache. */
  lemma BenignPrunes(p: Run, t: Table) returns (n: nat)
    requires Started(p, t) && Benign(p, t)
    ensures After(p, Start(t), n) == Spot(PruneTable(p, t), End)
  {
    var b := |t.buckets| - 1;
    var c := t.buckets[b];
    RunsTo(p, t, b, |c|);
    n :| After(p, Start(t), n) == Before(p, t, b, |c|);
    LastBucket(p, t, b);
    assert c[..|c|] == c && Halfway(p, t, b, |c|).buckets[b] == PruneChain(p, c) + [];
  }

  /** The loop comes to the entry with exactly those before it pruned, and then prunes it and
      goes on. */
  ghost predicate OnItsOwn(p: Run, t: Table, b: nat, k: nat)
    requires b < |t.buckets| && k < |t.buckets[b]|
  {
    exists n: nat :: After(p, Start(t), n) == Before(p, t, b, k) && After(p, Start(t), n + 1) == Before(p, t, b, k + 1)
  }

  /** The loop prunes each entry on its own if and only if the condition holds. */
  lemma LoopIsPerEntryIff(p: Run, t: Table)
    requires Started(p, t)
    ensures Benign(p, t) <==>
      forall b, k :: 0 <= b < |t.buckets| && 0 <= k < |t.buckets[b]| && Primary(t.buckets[b][k])
                     ==> OnItsOwn(p, t, b, k)
  {
    forall b, k | 0 <= b < |t.buckets| && 0 <= k < |t.buckets[b]| && Primary(t.buckets[b][k])
      ensures Benign(p, t) ==> OnItsOwn(p, t, b, k)
      ensures OnItsOwn(p, t, b, k) ==> StepOk(p, t, b, k)
    {
      if Benign(p, t) { BenignOwn(p, t, b, k); }
      if OnItsOwn(p, t, b, k) { OwnOk(p, t, b, k); }
    }
  }

  lemma BenignOwn(p: Run, t: Table, b: nat, k: nat)
    requires Started(p, t) && Benign(p, t) && b < |t.buckets| && k < |t.buckets[b]| && Primary(t.buckets[b][k])
    ensures OnItsOwn(p, t, b, k)
  {
    RunsTo(p, t, b, k);
    var n: nat :| After(p, Start(t), n) == Before(p, t, b, k);
    RunsOne(p, t, b, k, n);
  }

  lemma OwnOk(p: Run, t: Table, b: nat, k: nat)
    requires Started(p, t) && b < |t.buckets| && k < |t.buckets[b]| && Primary(t.buckets[b][k])
    requires OnItsOwn(p, t, b, k)
    ensures StepOk(p, t, b, k)
  {
    var n: nat :| After(p, Start(t), n) == Before(p, t, b, k) && After(p, Start(t), n + 1) == Before(p, t, b, k + 1);
    AfterOne(p, Start(t), n);
    GoIff(p, t, b, k);
  }

  // ----- the loop itself

  lemma StillGoing(p: Run, t: Table, n: nat, last: nat)
    requires n <= last && After(p, Start(t), n).cur.At? && After(p, Start(t), last).cur.End?
    ensures n < last
  {
  }

  // ----- caches with unique keys

  lemma UniqueKept(p: Run, t: Table, b: nat, k: nat)
    requires Unique(t) && b < |t.buckets| && k <= |t.buckets[b]|
    ensures Unique(Halfway(p, t, b, k))
  {
    var h := Halfway(p, t, b, k);
    forall c | 0 <= c < |h.buckets| ensures UniqueIn(h.buckets[c]) {
      var chain := t.buckets[c];
      PruneUnique(p, chain);
      if c == b { PruneParts(p, chain, k); }
    }
  }

  lemma {:induction false} PruneUnique(p: Run, chain: seq<Ent>)
    requires UniqueIn(chain)
    ensures UniqueIn(PruneChain(p, chain))
  {
    if chain == [] {
    } else {
      PruneUnique(p, chain[1..]);
      var rest := PruneChain(p, chain[1..]);
      forall i | 0 <= i < |rest| ensures rest[i].key != chain[0].key {
        var j := PruneFrom(p, chain[1..], i);
        assert chain[1..][j] == chain[j + 1];
      }
    }
  }

  lemma PruneParts(p: Run, chain: seq<Ent>, k: nat)
    requires k <= |chain| && UniqueIn(chain)
    ensures UniqueIn(PruneChain(p, chain[..k]) + chain[k..])
  {
    PruneUnique(p, chain[..k]);
    var a := PruneChain(p, chain[..k]);
    var c := a + chain[k..];
    forall i, j | 0 <= i < j < |c| ensures c[i].key != c[j].key {
      if i < |a| <= j {
        var m := PruneFrom(p, chain[..k], i);
        assert chain[..k][m] == chain[m] && c[j] == chain[k + j - |a|];
      }
    }
  }

  /** cache_delete of a key with a single entry takes out that entry, unless it is part of a
      multi-mount. */
  lemma LoneTakes(a: seq<Ent>, e: Ent, rest: seq<Ent>)
    requires !KeyIn(a, e.key) && !KeyIn(rest, e.key)
    ensures if e.mm.Single? then TakesOnly(a + [e] + rest, |a|) else TakesNone(a + [e] + rest, e.key)
  {
    var c := a + [e] + rest;
    assert c[|a|] == e;
    var lo, hi := TakesFrom(c, e.key), TakesTo(c, e.key);
    forall j | 0 <= j < |c| && j != |a| ensures c[j].key != e.key {
      assert c[j] == if j < |a| then a[j] else rest[j - |a| - 1];
    }
    assert hi < |c| ==> c[hi] == c[1..][hi - 1];
    assert |a| >= 1 ==> c[1..][|a| - 1] == e;
  }

  lemma UniqueParts(p: Run, t: Table, b: nat, k: nat)
    requires Unique(t) && b < |t.buckets| && k < |t.buckets[b]|
    ensures var e := t.buckets[b][k]; !KeyIn(Kept(p, t, b, k), e.key) && !KeyIn(t.buckets[b][k + 1..], e.key)
  {
    var e, a, rest := t.buckets[b][k], Kept(p, t, b, k), t.buckets[b][k + 1..];
    UniqueKept(p, t, b, k);
    BucketIs(p, t, b, k);
    var c := a + [e] + rest;
    assert UniqueIn(c);
    forall i | 0 <= i < |a| ensures a[i].key != e.key { assert c[i] == a[i] && c[|a|] == e; }
    forall i | 0 <= i < |rest| ensures rest[i].key != e.key { assert c[|a| + 1 + i] == rest[i] && c[|a|] == e; }
  }

  lemma UniqueNext(p: Run, t: Table, b: nat, k: nat)
    requires Unique(t) && b < |t.buckets| && k < |t.buckets[b]|
    ensures NextOk(p, t, b, k)
  {
    UniqueKept(p, t, b, k + 1);
    var h := Halfway(p, t, b, k + 1);
    var q := FirstAt(h, b, Behind(p, t, b, k + 1));
    if q.At? {
      assert UniqueIn(h.buckets[q.b]);
      FirstIs(h.buckets[q.b], h.buckets[q.b][q.i].key, q.i);
    }
  }

  lemma UniqueStepOk(p: Run, t: Table, b: nat, k: nat)
    requires Unique(t) && b < |t.buckets| && k < |t.buckets[b]|
    ensures StepOk(p, t, b, k)
  {
    UniqueParts(p, t, b, k);
    UniqueNext(p, t, b, k);
    LoneTakes(Kept(p, t, b, k), t.buckets[b][k], t.buckets[b][k + 1..]);
  }

  /** A cache whose keys are unique meets the condition in every run. */
  lemma UniqueIsBenign(p: Run, t: Table)
    requires Placed(t) && Unique(t)
    ensures OnePerSource(t) && Benign(p, t)
  {
    forall b | 0 <= b < |t.buckets| ensures SourcesDiffer(t.buckets[b]) { assert UniqueIn(t.buckets[b]); }
    forall b, k | 0 <= b < |t.buckets| && 0 <= k < |t.buckets[b]| ensures StepOk(p, t, b, k) {
      UniqueStepOk(p, t, b, k);
    }
  }

  /** Re-reading the map of a single source and then running the loop: it ends, and leaves each key
      the map lists with the first text listed for it, and of the others what `StaleLeft` says. */
  lemma RereadThenLoop(p: Run, t: Table, source: nat, lines: seq<(string, string)>, k: string)
    returns (n: nat, r: Table)
    requires Plain(t, source) && Placed(t) && ReadMap(t, source, lines, p.age).buckets != []
    requires p.wild == HasWild(ReadMap(t, source, lines, p.age))
    requires forall b, i :: 0 <= b < |t.buckets| && 0 <= i < |t.buckets[b]| ==> t.buckets[b][i].age < p.age
    ensures After(p, Start(ReadMap(t, source, lines, p.age)), n) == Spot(r, End) && r.buckets != []
    ensures var l := KeyList(r, k);
            if Lists(lines, k) then
              && |l| == 1 && l[0].key == k && l[0].text == Some(FirstText(lines, k))
              && l[0].age == p.age && l[0].status == 0
            else StaleLeft(p, KeyList(t, k), l)
  {
    var t1 := ReadMap(t, source, lines, p.age);
    ReadMapIs(t, source, lines, p.age, k);
    UniqueIsBenign(p, t1);
    n := BenignPrunes(p, t1);
    r := PruneTable(p, t1);
    RereadThenPrune(p, t, source, lines, k);
  }

  // ----- several entries of one key

  /** A stale entry of one source and a current one of another: the loop deletes both, and ends. */
  lemma CurrentEntryGoes(p: Run, t: Table, e: Ent, f: Ent)
    requires t.buckets == [[e, f]] && f.key == e.key && e.mm.Single? && f.mm.Single?
    requires e.age < p.age <= f.age && Candidate(p.ap, e, p.age) && !Postponed(p, e) && Deletes(p, e)
    ensures After(p, Start(t), 1) == Spot(t.(buckets := [[]]), End)
    ensures |PruneTable(p, t).buckets[0]| == 1 && PruneTable(p, t).buckets[0][0].key == f.key
  {
    assert Placed(t);
    var cur := At(0, 0);
    assert Start(t) == Spot(t, cur);
    var t1 := MarkNegative(p, t, e.key);
    MarkNegativePlaced(p, t, e.key, cur);
    assert Slot(t, e.key) == 0 && First([e, f], e.key) == 0;
    var e' := Negated(p, e);
    assert t1.buckets == [[e', f]] by {
      assert [e, f][0 := e'] == [e', f] && [e, f][0 := e] == [e, f];
    }
    var t2 := Delete(t1, e.key).0;
    DeleteFromIs([e', f], e.key);
    assert Without([e', f], e.key) == [] by {
      assert [e', f][1..] == [f] && [f][1..] == [];
      assert Without([f], e.key) == [];
    }
    assert t2.buckets == [[]];
    assert EnumNext(t1, cur) == At(0, 1);
    assert Go(p, Start(t)) == Spot(t2, End);
    AfterOne(p, Start(t), 0);
    assert [e, f][1..] == [f] && [f][1..] == [];
    assert FateOf(p, e).None? && FateOf(p, f).Some? && FateOf(p, f).value.key == f.key;
    assert PruneChain(p, [f]) == [FateOf(p, f).value];
    assert PruneChain(p, [e, f]) == PruneChain(p, [f]);
  }

  /** A stale entry that is not deleted, before another one of its key: the loop comes back to it
      each time, and never ends. */
  lemma NeverEnds(p: Run, t: Table, e: Ent, f: Ent, n: nat)
    requires t.buckets == [[e, f]] && f.key == e.key && Primary(e) && Primary(f)
    requires Candidate(p.ap, e, p.age) && !Postponed(p, e) && !Deletes(p, e)
    ensures var t1 := t.(buckets := [[Negated(p, e), f]]);
      After(p, Start(t), n) == Spot(if n == 0 then t else t1, At(0, 0))
  {
    var t1 := t.(buckets := [[Negated(p, e), f]]);
    ComesBack(p, t, e, f);
    ComesBack(p, t1, Negated(p, e), f);
    AfterOne(p, Start(t), 0);
    if n > 0 { TimesStays((x: Spot) => Go(p, x), Start(t), 1, n); }
  }

  lemma ComesBack(p: Run, t: Table, e: Ent, f: Ent)
    requires t.buckets == [[e, f]] && f.key == e.key && Primary(e) && Primary(f)
    requires Candidate(p.ap, e, p.age) && !Postponed(p, e) && !Deletes(p, e)
    ensures Start(t) == Spot(t, At(0, 0)) && Go(p, Start(t)) == Spot(t.(buckets := [[Negated(p, e), f]]), At(0, 0))
  {
    assert Placed(t);
    MarkNegativePlaced(p, t, e.key, At(0, 0));
    assert Slot(t, e.key) == 0 && First([e, f], e.key) == 0;
    var t1 := t.(buckets := [[Negated(p, e), f]]);
    assert MarkNegative(p, t, e.key) == t1 by {
      assert [e, f][0 := Negated(p, e)] == [Negated(p, e), f] && [e, f][0 := e] == [e, f];
      assert [[e, f]][0 := [Negated(p, e), f]] == [[Negated(p, e), f]];
    }
    assert EnumNext(t1, At(0, 0)) == At(0, 1);
    assert First([Negated(p, e), f], e.key) == 0;
  }
}
