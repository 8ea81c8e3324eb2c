/** The pruning loop (daemon/lookup.c:1343-1503) in closed form, for caches in which the entries
    of a key lie together: one pass over the keys, in the order of the enumeration.

    The loop goes by keys.  At a stale entry it deletes the key, and it goes on with the first
    entry of the next entry's key.  So it leaves a key for good, or ends, or comes back to the
    first entry left of the same key; and if it comes back once more, it does so for ever.
 */
module CachePruneSweep {
  import opened Options
  import opened CacheTable
  import opened CacheEnumerate
  import opened CachePrune
  import opened CachePruneLoop
  import opened CachePruneIff

  /** How the loop goes on to another key: to the next entry, or to the first one of its key. */
  datatype Way = Onward | ByKey

  // ----- the entries of one key

  /** The entry as the loop leaves it when it does not consider it. */
  function Reset(p: Run, e: Ent): Ent {
    if e.age >= p.age && (e.text.Some? || p.wild) then e.(status := 0) else e
  }

  /** The entries once the first has been marked negative. */
  function Marked(p: Run, blk: seq<Ent>): (r: seq<Ent>)
    requires blk != []
    ensures |r| == |blk|
  {
    if p.w.valid(blk[0].key).Here? then blk[0 := blk[0].(text := None)] else blk
  }

  function FirstOfMulti(blk: seq<Ent>): (i: nat)
    ensures i <= |blk| && (i < |blk| ==> !blk[i].mm.Single?)
    ensures forall j :: 0 <= j < i ==> blk[j].mm.Single?
  {
    if blk == [] || !blk[0].mm.Single? then 0 else 1 + FirstOfMulti(blk[1..])
  }

  /** What cache_delete leaves of the entries of its key: it stops at a multi-mount, and comes to
      the first entry last if that is the `top` of the chain. */
  function Undeleted(top: bool, blk: seq<Ent>): seq<Ent>
    requires blk != []
  {
    if !top then blk[FirstOfMulti(blk)..]
    else
      var rest := blk[1..];
      var left := rest[FirstOfMulti(rest)..];
      if left == [] && blk[0].mm.Single? then [] else [blk[0]] + left
  }

  /** The entries after the loop has acted on a stale one. */
  function Acted(p: Run, top: bool, blk: seq<Ent>): seq<Ent>
    requires blk != [] && FullPath(p.ap, blk[0].key).Some?
  {
    if Deletes(p, blk[0]) then Undeleted(top, Marked(p, blk)) else Marked(p, blk)
  }

  /** The entries of one key. */
  predicate OneKey(blk: seq<Ent>) {
    blk != [] && forall i :: 0 <= i < |blk| ==> blk[i].key == blk[0].key
  }

  datatype Lap = Left(blk: seq<Ent>, way: Way) | Stopped | Turned(blk: seq<Ent>)

  /** From entry `j` of a key until the loop leaves the key, ends, or turns back to the first. */
  function LapFrom(p: Run, top: bool, blk: seq<Ent>, j: nat): (r: Lap)
    requires OneKey(blk) && j < |blk|
    ensures r.Turned? ==> r.blk != []
    decreases |blk| - j
  {
    var n := NextIn(blk, j + 1);
    if !Candidate(p.ap, blk[j], p.age) then
      var blk1 := blk[j := Reset(p, blk[j])];
      if n == |blk| then Left(blk1, Onward) else LapFrom(p, top, blk1, n)
    else if Postponed(p, blk[j]) then
      if n == |blk| then Left(Marked(p, blk), Onward) else LapFrom(p, top, Marked(p, blk), n)
    else
      var blk1 := Acted(p, top, blk);
      if n == |blk| then Left(blk1, ByKey) else if blk1 == [] then Stopped else Turned(blk1)
  }

  datatype Outcome = Passed(blk: seq<Ent>, way: Way) | Ended | Endless

  /** What becomes of a key: turning back twice is turning back for ever. */
  function Round(p: Run, top: bool, blk: seq<Ent>, j: nat): Outcome
    requires OneKey(blk) && j < |blk|
  {
    match LapFrom(p, top, blk, j)
    case Left(blk1, way) => Passed(blk1, way)
    case Stopped => Ended
    case Turned(blk1) =>
      LapKey(p, top, blk, j);
      match LapFrom(p, top, blk1, 0)
      case Left(blk2, way) => Passed(blk2, way)
      case Stopped => Ended
      case Turned(_) => Endless
  }

  predicate KeyOf(blk: seq<Ent>, key: string) {
    forall i :: 0 <= i < |blk| ==> blk[i].key == key
  }

  lemma ActedKey(p: Run, top: bool, blk: seq<Ent>)
    requires OneKey(blk) && FullPath(p.ap, blk[0].key).Some?
    ensures OneKey(Marked(p, blk)) && KeyOf(Marked(p, blk), blk[0].key) && KeyOf(Acted(p, top, blk), blk[0].key)
  {
  }

  lemma {:induction false} LapKey(p: Run, top: bool, blk: seq<Ent>, j: nat)
    requires OneKey(blk) && j < |blk|
    ensures var r := LapFrom(p, top, blk, j); r.Stopped? || KeyOf(r.blk, blk[0].key)
    decreases |blk| - j
  {
    var n := NextIn(blk, j + 1);
    if Candidate(p.ap, blk[j], p.age) { ActedKey(p, top, blk); }
    if n == |blk| {
    } else if !Candidate(p.ap, blk[j], p.age) {
      LapKey(p, top, blk[j := Reset(p, blk[j])], n);
    } else {
      LapKey(p, top, Marked(p, blk), n);
    }
  }

  // ----- a chain and a table

  /** How many entries at the start have the key of the first. */
  function Lead(rest: seq<Ent>): (n: nat)
    requires rest != []
    ensures 1 <= n <= |rest| && OneKey(rest[..n]) && (n < |rest| ==> rest[n].key != rest[0].key)
  {
    if |rest| == 1 || rest[1].key != rest[0].key then 1 else 1 + Lead(rest[1..])
  }

  datatype Swept = Through(chain: seq<Ent>, way: Way) | Halted(chain: seq<Ent>) | Never

  /** The keys of `rest` one after the other, with `kept` left before them in the chain. */
  function SweepChain(p: Run, kept: seq<Ent>, rest: seq<Ent>, way: Way): Swept
    decreases |rest|
  {
    if rest == [] then Through(kept, way)
    else
      var n := Lead(rest);
      var j := NextIn(rest[..n], 0);
      if j == n then SweepChain(p, kept + rest[..n], rest[n..], way)
      else
        match Round(p, kept == [], rest[..n], if way.ByKey? then 0 else j)
        case Passed(blk, way') => SweepChain(p, kept + blk, rest[n..], way')
        case Ended => Halted(kept + rest[n..])
        case Endless => Never
  }

  function SetBucket(t: Table, b: nat, chain: seq<Ent>): (r: Table)
    requires b < |t.buckets|
    ensures |r.buckets| == |t.buckets|
  {
    t.(buckets := t.buckets[b := chain])
  }

  function SweepFrom(p: Run, t: Table, b: nat, way: Way): Option<Table>
    decreases |t.buckets| - b
  {
    if b >= |t.buckets| then Some(t)
    else
      match SweepChain(p, [], t.buckets[b], way)
      case Through(chain, way') => SweepFrom(p, SetBucket(t, b, chain), b + 1, way')
      case Halted(chain) => Some(SetBucket(t, b, chain))
      case Never => None
  }

  /** The cache as the loop leaves it, or None if it never ends. */
  function Sweep(p: Run, t: Table): Option<Table> {
    SweepFrom(p, t, 0, Onward)
  }

  // ----- when a key turns the loop back, and when for ever

  /** An entry of the key at or after `j` turns the loop back: a stale one, considered and not
      postponed, that is not the last primary one. */
  predicate TurnsAt(p: Run, blk: seq<Ent>, j: nat, i: nat)
    requires j <= i < |blk|
  {
    && (i == j || Primary(blk[i])) && Candidate(p.ap, blk[i], p.age) && !Postponed(p, blk[i])
    && NextIn(blk, i + 1) < |blk|
  }

  predicate Turns(p: Run, blk: seq<Ent>, j: nat) {
    exists i :: j <= i < |blk| && TurnsAt(p, blk, j, i)
  }

  /** The same entries up to text and status. */
  predicate SameShape(a: seq<Ent>, b: seq<Ent>) {
    && |a| == |b|
    && forall i :: 0 <= i < |a| ==> a[i].key == b[i].key && a[i].age == b[i].age && a[i].mm == b[i].mm
  }

  lemma {:induction false} SameNextIn(a: seq<Ent>, b: seq<Ent>, i: nat)
    requires SameShape(a, b) && i <= |a|
    ensures NextIn(a, i) == NextIn(b, i)
    decreases |a| - i
  {
    if i == |a| {
    } else {
      SameNextIn(a, b, i + 1);
    }
  }

  lemma SameTurns(p: Run, a: seq<Ent>, b: seq<Ent>, j: nat)
    requires SameShape(a, b) && Turns(p, a, j)
    ensures Turns(p, b, j)
  {
    var i :| j <= i < |a| && TurnsAt(p, a, j, i);
    SameNextIn(a, b, i + 1);
    assert TurnsAt(p, b, j, i);
  }

  lemma TurnsOn(p: Run, blk: seq<Ent>, j: nat)
    requires j < |blk| && !TurnsAt(p, blk, j, j)
    ensures var n := NextIn(blk, j + 1); Turns(p, blk, j) <==> n < |blk| && Turns(p, blk, n)
  {
    var n := NextIn(blk, j + 1);
    if Turns(p, blk, j) {
      var i :| j <= i < |blk| && TurnsAt(p, blk, j, i);
      assert n <= i && TurnsAt(p, blk, n, i);
    }
    if n < |blk| && Turns(p, blk, n) {
      var i :| n <= i < |blk| && TurnsAt(p, blk, n, i);
      assert TurnsAt(p, blk, j, i);
    }
  }

  lemma MarkedShape(p: Run, blk: seq<Ent>)
    requires blk != []
    ensures SameShape(Marked(p, blk), blk) && SameShape(blk, Marked(p, blk))
  {
  }

  lemma ResetShape(p: Run, blk: seq<Ent>, j: nat)
    requires j < |blk|
    ensures var r := blk[j := Reset(p, blk[j])]; SameShape(r, blk) && SameShape(blk, r)
  {
  }

  /** The first lap leaves the key exactly when no entry turns the loop back. */
  lemma {:induction false} LeftIff(p: Run, top: bool, blk: seq<Ent>, j: nat)
    requires OneKey(blk) && j < |blk|
    ensures LapFrom(p, top, blk, j).Left? <==> !Turns(p, blk, j)
    decreases |blk| - j
  {
    var n := NextIn(blk, j + 1);
    if TurnsAt(p, blk, j, j) {
    } else {
      TurnsOn(p, blk, j);
      if n < |blk| {
        var blk1 := if !Candidate(p.ap, blk[j], p.age) then blk[j := Reset(p, blk[j])] else Marked(p, blk);
        ResetShape(p, blk, j);
        MarkedShape(p, blk);
        LeftIff(p, top, blk1, n);
        if Turns(p, blk, n) { SameTurns(p, blk, blk1, n); }
        if Turns(p, blk1, n) { SameTurns(p, blk1, blk, n); }
      }
    }
  }

  lemma {:induction false} SameFirstOfMulti(a: seq<Ent>, b: seq<Ent>)
    requires SameShape(a, b)
    ensures FirstOfMulti(a) == FirstOfMulti(b)
  {
    if a == [] {
    } else {
      SameFirstOfMulti(a[1..], b[1..]);
    }
  }

  lemma SameSuffix(a: seq<Ent>, b: seq<Ent>, n: nat)
    requires SameShape(a, b) && n <= |a|
    ensures SameShape(a[n..], b[n..])
  {
  }

  lemma ConsShape(a: Ent, x: seq<Ent>, b: Ent, y: seq<Ent>)
    requires SameShape([a], [b]) && SameShape(x, y)
    ensures SameShape([a] + x, [b] + y)
  {
    assert [a][0].key == [b][0].key && [a][0].age == [b][0].age && [a][0].mm == [b][0].mm;
  }

  lemma SameUnder(a: seq<Ent>, b: seq<Ent>)
    requires SameShape(a, b) && a != []
    ensures SameShape(Undeleted(true, a), Undeleted(true, b))
  {
    var x, y := a[1..], b[1..];
    SameSuffix(a, b, 1);
    SameFirstOfMulti(x, y);
    var n := FirstOfMulti(x);
    SameSuffix(x, y, n);
    ConsShape(a[0], x[n..], b[0], y[n..]);
  }

  lemma SameUndeleted(top: bool, a: seq<Ent>, b: seq<Ent>)
    requires SameShape(a, b) && a != []
    ensures SameShape(Undeleted(top, a), Undeleted(top, b))
  {
    if top {
      SameUnder(a, b);
    } else {
      SameFirstOfMulti(a, b);
      SameSuffix(a, b, FirstOfMulti(a));
    }
  }

  lemma SameActed(p: Run, top: bool, a: seq<Ent>, b: seq<Ent>)
    requires SameShape(a, b) && a != [] && FullPath(p.ap, a[0].key).Some?
    ensures SameShape(Acted(p, top, a), Acted(p, top, b))
  {
    MarkedShape(p, a);
    MarkedShape(p, b);
    assert SameShape(Marked(p, a), Marked(p, b));
    SameUndeleted(top, Marked(p, a), Marked(p, b));
  }

  /** Deleting the key again takes out nothing more. */
  lemma UndeletedTwice(top: bool, blk: seq<Ent>)
    requires blk != []
    ensures var x := Undeleted(top, blk); x != [] ==> Undeleted(top, x) == x
  {
    var x := Undeleted(top, blk);
    if x != [] {
      if !top {
        assert FirstOfMulti(x) == 0;
      } else {
        var rest := blk[1..];
        assert x[1..] == rest[FirstOfMulti(rest)..];
        assert FirstOfMulti(x[1..]) == 0;
      }
    }
  }

  lemma ActedTwice(p: Run, top: bool, blk: seq<Ent>)
    requires blk != [] && FullPath(p.ap, blk[0].key).Some?
    ensures var x := Acted(p, top, blk);
      x != [] && x[0].key == blk[0].key ==> SameShape(Acted(p, top, x), x)
  {
    var x := Acted(p, top, blk);
    if x != [] && x[0].key == blk[0].key {
      MarkedShape(p, x);
      UndeletedTwice(top, Marked(p, blk));
      if Deletes(p, blk[0]) { SameUndeleted(top, Marked(p, x), x); }
    }
  }

  lemma ShapeThrough(a: seq<Ent>, b: seq<Ent>, c: seq<Ent>)
    requires SameShape(a, b) && SameShape(b, c)
    ensures SameShape(a, c)
  {
  }

  lemma TurnsPath(p: Run, blk: seq<Ent>, j: nat)
    requires OneKey(blk) && j < |blk| && Turns(p, blk, j)
    ensures FullPath(p.ap, blk[0].key).Some? && !Postponed(p, blk[0])
  {
    var i :| j <= i < |blk| && TurnsAt(p, blk, j, i);
    assert blk[i].key == blk[0].key;
  }

  /** Before the entry that turns it back, the loop passes entries it does not consider. */
  lemma PassesOver(p: Run, top: bool, blk: seq<Ent>, j: nat)
    requires OneKey(blk) && j < |blk| && Turns(p, blk, j) && !TurnsAt(p, blk, j, j)
    ensures var n, blk1 := NextIn(blk, j + 1), blk[j := Reset(p, blk[j])];
      && n < |blk| && OneKey(blk1) && SameShape(blk1, blk) && Turns(p, blk1, n)
      && LapFrom(p, top, blk, j) == LapFrom(p, top, blk1, n)
  {
    TurnsOn(p, blk, j);
    TurnsPath(p, blk, j);
    assert blk[j].key == blk[0].key;
    ResetShape(p, blk, j);
    SameTurns(p, blk, blk[j := Reset(p, blk[j])], NextIn(blk, j + 1));
  }

  /** A lap that turns back or stops has acted on the key once. */
  lemma {:induction false} TurnedIs(p: Run, top: bool, blk: seq<Ent>, j: nat)
    requires OneKey(blk) && j < |blk| && Turns(p, blk, j)
    ensures FullPath(p.ap, blk[0].key).Some?
    ensures var x, r := Acted(p, top, blk), LapFrom(p, top, blk, j);
      (r.Stopped? && x == []) || (r.Turned? && SameShape(r.blk, x))
    decreases |blk| - j
  {
    TurnsPath(p, blk, j);
    if TurnsAt(p, blk, j, j) {
    } else {
      PassesOver(p, top, blk, j);
      var n, blk1 := NextIn(blk, j + 1), blk[j := Reset(p, blk[j])];
      TurnedIs(p, top, blk1, n);
      SameActed(p, top, blk1, blk);
      var r := LapFrom(p, top, blk1, n);
      if r.Turned? { ShapeThrough(r.blk, Acted(p, top, blk1), Acted(p, top, blk)); }
    }
  }

  /** A key ends the loop exactly when it turns it back and cache_delete then leaves nothing of
      the key. */
  lemma EndedIff(p: Run, top: bool, blk: seq<Ent>, j: nat)
    requires OneKey(blk) && j < |blk|
    ensures Round(p, top, blk, j).Ended? <==>
              Turns(p, blk, j) && FullPath(p.ap, blk[0].key).Some? && Acted(p, top, blk) == []
  {
    LeftIff(p, top, blk, j);
    if Turns(p, blk, j) {
      TurnedIs(p, top, blk, j);
      if Acted(p, top, blk) != [] { AgainIff(p, top, blk, j); }
    }
  }

  /** The second lap. */
  lemma AgainIff(p: Run, top: bool, blk: seq<Ent>, j: nat)
    requires OneKey(blk) && j < |blk| && Turns(p, blk, j) && FullPath(p.ap, blk[0].key).Some?
    requires Acted(p, top, blk) != []
    ensures !Round(p, top, blk, j).Ended?
    ensures Round(p, top, blk, j).Endless? <==> Turns(p, Acted(p, top, blk), 0)
  {
    var x := Acted(p, top, blk);
    TurnedIs(p, top, blk, j);
    var y := LapFrom(p, top, blk, j).blk;
    LapKey(p, top, blk, j);
    ActedKey(p, top, blk);
    LeftIff(p, top, y, 0);
    if Turns(p, x, 0) { SameTurns(p, x, y, 0); }
    if Turns(p, y, 0) {
      SameTurns(p, y, x, 0);
      TurnedIs(p, top, y, 0);
      ActedTwice(p, top, blk);
      SameActed(p, top, y, x);
    }
  }

  /** The loop turns round in a key for ever exactly when an entry turns it back, cache_delete, if
      it is called, leaves entries of the key, and one of those turns it back again. */
  lemma EndlessIff(p: Run, top: bool, blk: seq<Ent>, j: nat)
    requires OneKey(blk) && j < |blk|
    ensures Round(p, top, blk, j).Endless? <==>
              && Turns(p, blk, j) && FullPath(p.ap, blk[0].key).Some?
              && Acted(p, top, blk) != [] && Turns(p, Acted(p, top, blk), 0)
  {
    LeftIff(p, top, blk, j);
    if Turns(p, blk, j) {
      TurnedIs(p, top, blk, j);
      if Acted(p, top, blk) != [] { AgainIff(p, top, blk, j); }
    }
  }

  lemma {:induction false} NoMulti(blk: seq<Ent>)
    requires forall i :: 0 <= i < |blk| ==> blk[i].mm.Single?
    ensures FirstOfMulti(blk) == |blk|
  {
    if blk == [] {
    } else {
      NoMulti(blk[1..]);
    }
  }

  /** With no multi-mount among them, a stale entry before the last one of a key ends the loop if
      the key is deleted, and keeps it for ever if it is not. */
  lemma SinglesRound(p: Run, top: bool, blk: seq<Ent>, j: nat)
    requires OneKey(blk) && j < |blk| && forall i :: 0 <= i < |blk| ==> blk[i].mm.Single?
    ensures Turns(p, blk, j) ==> FullPath(p.ap, blk[0].key).Some?
    ensures Round(p, top, blk, j).Ended? <==> Turns(p, blk, j) && Deletes(p, blk[0])
    ensures Round(p, top, blk, j).Endless? <==> Turns(p, blk, j) && !Deletes(p, blk[0])
  {
    EndedIff(p, top, blk, j);
    EndlessIff(p, top, blk, j);
    if Turns(p, blk, j) {
      TurnsPath(p, blk, j);
      var m := Marked(p, blk);
      MarkedShape(p, blk);
      NoMulti(m);
      NoMulti(m[1..]);
      if !Deletes(p, blk[0]) {
        TurnsFrom(p, blk, j);
        SameTurns(p, blk, m, 0);
      }
    }
  }

  lemma TurnsFrom(p: Run, blk: seq<Ent>, j: nat)
    requires j < |blk| && Turns(p, blk, j) && forall i :: 0 <= i < |blk| ==> blk[i].mm.Single?
    ensures Turns(p, blk, 0)
  {
    var i :| j <= i < |blk| && TurnsAt(p, blk, j, i);
    assert TurnsAt(p, blk, 0, i);
  }
}
