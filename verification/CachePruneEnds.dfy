/** The pruning loop (daemon/lookup.c:1343-1503) computes the sweep of `CachePruneSweep`: it ends
    exactly when the sweep has a result, and then with that cache.
 */
module CachePruneEnds {
  import opened Options
  import opened CacheTable
  import opened CacheEnumerate
  import opened CacheAdjacent
  import opened CachePrune
  import opened CachePruneLoop
  import opened CachePruneIff
  import opened CachePruneRuns
  import opened CachePruneSweep
  import opened CachePruneSteps

  // ----- runs of the loop

  ghost predicate Forever(p: Run, s: Spot) {
    forall n: nat :: After(p, s, n).cur.At?
  }

  lemma {:induction false} TimesAdd<S(!new)>(f: S -> S, s: S, n: nat, m: nat)
    ensures Times(f, Times(f, s, n), m) == Times(f, s, n + m)
  {
    if m == 0 {
    } else {
      TimesAdd(f, s, n, m - 1);
    }
  }

  lemma AfterAdd(p: Run, s: Spot, n: nat, m: nat)
    ensures After(p, After(p, s, n), m) == After(p, s, n + m)
  {
    TimesAdd((x: Spot) => Go(p, x), s, n, m);
  }

  lemma AfterFirst(p: Run, s: Spot)
    ensures After(p, s, 1) == Go(p, s)
  {
    AfterOne(p, s, 0);
  }

  /** The loop comes from `s` to `z`. */
  ghost predicate Leads(p: Run, s: Spot, z: Spot) {
    exists n: nat :: n > 0 && After(p, s, n) == z
  }

  lemma LeadsOne(p: Run, s: Spot)
    ensures Leads(p, s, Go(p, s))
  {
    AfterFirst(p, s);
  }

  lemma LeadsThen(p: Run, s: Spot, r: Spot, z: Spot)
    requires Leads(p, s, r) && Leads(p, r, z)
    ensures Leads(p, s, z)
  {
    var n: nat :| n > 0 && After(p, s, n) == r;
    var m: nat :| m > 0 && After(p, r, m) == z;
    AfterAdd(p, s, n, m);
  }

  lemma {:induction false} TimesAlways<S(!new)>(f: S -> S, s: S, q: S -> bool, n: nat, m: nat)
    requires forall x :: !q(x) ==> f(x) == x
    requires forall k: nat :: q(Times(f, Times(f, s, n), k))
    ensures q(Times(f, s, m))
  {
    if m < n {
      assert q(Times(f, Times(f, s, n), 0));
      if !q(Times(f, s, m)) { TimesStays(f, s, m, n); }
    } else {
      TimesAdd(f, s, n, m - n);
      assert q(Times(f, Times(f, s, n), m - n));
    }
  }

  lemma ForeverFrom(p: Run, s: Spot, r: Spot)
    requires Leads(p, s, r) && Forever(p, r)
    ensures Forever(p, s)
  {
    var f := (x: Spot) => Go(p, x);
    var n: nat :| n > 0 && After(p, s, n) == r;
    assert forall k: nat :: After(p, r, k) == Times(f, r, k);
    forall m: nat ensures After(p, s, m).cur.At? {
      TimesAlways(f, s, (x: Spot) => x.cur.At?, n, m);
    }
  }

  /** The loop is still on its way after `m` iterations or more. */
  ghost predicate Far(p: Run, s: Spot, m: nat) {
    exists n: nat :: n >= m && After(p, s, n).cur.At?
  }

  lemma FarHere(p: Run, s: Spot)
    requires s.cur.At?
    ensures Far(p, s, 0)
  {
    AfterOne(p, s, 0);
  }

  lemma FarThen(p: Run, s: Spot, r: Spot, m: nat)
    requires Leads(p, s, r) && Far(p, r, m)
    ensures Far(p, s, m + 1)
  {
    var k: nat :| k > 0 && After(p, s, k) == r;
    var n: nat :| n >= m && After(p, r, n).cur.At?;
    AfterAdd(p, s, k, n);
  }

  lemma FarForever(p: Run, s: Spot)
    requires forall m: nat :: Far(p, s, m)
    ensures Forever(p, s)
  {
    forall m: nat ensures After(p, s, m).cur.At? {
      assert Far(p, s, m);
      var n: nat :| n >= m && After(p, s, n).cur.At?;
      if After(p, s, m).cur.End? { AfterEnd(p, s, m, n); }
    }
  }

  // ----- one lap through the entries of a key

  lemma SetTwice(t: Table, b: nat, c: seq<Ent>, d: seq<Ent>)
    requires b < |t.buckets|
    ensures SetBucket(SetBucket(t, b, c), b, d) == SetBucket(t, b, d)
  {
    assert t.buckets[b := c][b := d] == t.buckets[b := d];
  }

  function LapSpot(t: Table, b: nat, kept: seq<Ent>, rest: seq<Ent>, lap: Lap): Spot
    requires b < |t.buckets|
  {
    match lap
    case Left(blk, way) => Next(t, b, kept, blk, rest, |blk|, way)
    case Stopped => Spot(SetBucket(t, b, kept + [] + rest), End)
    case Turned(blk) => Spot(SetBucket(t, b, kept + blk + rest), At(b, |kept|))
  }

  lemma LapSpotSame(t: Table, b: nat, kept: seq<Ent>, rest: seq<Ent>, c: seq<Ent>, lap: Lap)
    requires b < |t.buckets|
    ensures LapSpot(SetBucket(t, b, c), b, kept, rest, lap) == LapSpot(t, b, kept, rest, lap)
  {
    var blk: seq<Ent> := if lap.Stopped? then [] else lap.blk;
    SetTwice(t, b, c, kept + blk + rest);
  }

  lemma LeadsTo(p: Run, s: Spot, z: Spot)
    requires Go(p, s) == z
    ensures Leads(p, s, z)
  {
    LeadsOne(p, s);
  }

  /** An iteration that does not act on the key goes on to the next entry. */
  lemma PassLeads(p: Run, t: Table, b: nat, kept: seq<Ent>, blk: seq<Ent>, rest: seq<Ent>, j: nat, blk1: seq<Ent>)
    requires AtKey(p, t, b, kept, blk, rest) && j < |blk|
    requires if Candidate(p.ap, blk[j], p.age) then Postponed(p, blk[j]) && blk1 == Marked(p, blk)
             else blk1 == blk[j := Reset(p, blk[j])]
    ensures |blk1| == |blk| && AtKey(p, SetBucket(t, b, kept + blk1 + rest), b, kept, blk1, rest)
    ensures Leads(p, Spot(t, At(b, |kept| + j)), Next(t, b, kept, blk1, rest, NextIn(blk, j + 1), Onward))
  {
    if Candidate(p.ap, blk[j], p.age) {
      StepPostponed(p, t, b, kept, blk, rest, j);
    } else {
      StepPast(p, t, b, kept, blk, rest, j);
    }
    LeadsTo(p, Spot(t, At(b, |kept| + j)), Next(t, b, kept, blk1, rest, NextIn(blk, j + 1), Onward));
  }

  /** One that acts on it ends the lap. */
  lemma ActLeads(p: Run, t: Table, b: nat, kept: seq<Ent>, blk: seq<Ent>, rest: seq<Ent>, j: nat)
    requires AtKey(p, t, b, kept, blk, rest) && j < |blk|
    requires Candidate(p.ap, blk[j], p.age) && !Postponed(p, blk[j]) && FullPath(p.ap, blk[0].key).Some?
    ensures Leads(p, Spot(t, At(b, |kept| + j)), LapSpot(t, b, kept, rest, LapFrom(p, kept == [], blk, j)))
  {
    var lap := LapFrom(p, kept == [], blk, j);
    if NextIn(blk, j + 1) == |blk| {
      StepLast(p, t, b, kept, blk, rest, j);
    } else {
      StepTurns(p, t, b, kept, blk, rest, j);
    }
    LeadsTo(p, Spot(t, At(b, |kept| + j)), LapSpot(t, b, kept, rest, lap));
  }

  lemma LapMore(p: Run, s: Spot, t: Table, b: nat, kept: seq<Ent>, blk: seq<Ent>, rest: seq<Ent>, n: nat, lap: Lap)
    requires b < |t.buckets| && n < |blk| && Leads(p, s, Next(t, b, kept, blk, rest, n, Onward))
    requires var t1 := SetBucket(t, b, kept + blk + rest);
      Leads(p, Spot(t1, At(b, |kept| + n)), LapSpot(t1, b, kept, rest, lap))
    ensures Leads(p, s, LapSpot(t, b, kept, rest, lap))
  {
    LapSpotSame(t, b, kept, rest, kept + blk + rest, lap);
    LeadsThen(p, s, Next(t, b, kept, blk, rest, n, Onward), LapSpot(t, b, kept, rest, lap));
  }

  lemma {:induction false} LapRuns(p: Run, t: Table, b: nat, kept: seq<Ent>, blk: seq<Ent>, rest: seq<Ent>, j: nat)
    requires AtKey(p, t, b, kept, blk, rest) && j < |blk|
    ensures Leads(p, Spot(t, At(b, |kept| + j)), LapSpot(t, b, kept, rest, LapFrom(p, kept == [], blk, j)))
    decreases |blk| - j
  {
    var n := NextIn(blk, j + 1);
    if Candidate(p.ap, blk[j], p.age) && !Postponed(p, blk[j]) {
      assert blk[j].key == blk[0].key;
      ActLeads(p, t, b, kept, blk, rest, j);
    } else {
      var blk1 := if Candidate(p.ap, blk[j], p.age) then Marked(p, blk) else blk[j := Reset(p, blk[j])];
      PassLeads(p, t, b, kept, blk, rest, j, blk1);
      if n < |blk| {
        LapRuns(p, SetBucket(t, b, kept + blk1 + rest), b, kept, blk1, rest, n);
        LapMore(p, Spot(t, At(b, |kept| + j)), t, b, kept, blk1, rest, n, LapFrom(p, kept == [], blk1, n));
      }
    }
  }

  // ----- turning round in a key

  /** At the first entry of a key that turns the loop back and of which nothing more goes. */
  predicate Spins(p: Run, t: Table, b: nat, kept: seq<Ent>, blk: seq<Ent>, rest: seq<Ent>) {
    && AtKey(p, t, b, kept, blk, rest) && Turns(p, blk, 0) && FullPath(p.ap, blk[0].key).Some?
    && SameShape(Acted(p, kept == [], blk), blk)
  }

  lemma SpinShape(p: Run, top: bool, blk: seq<Ent>, y: seq<Ent>)
    requires OneKey(blk) && Turns(p, blk, 0) && FullPath(p.ap, blk[0].key).Some?
    requires SameShape(Acted(p, top, blk), blk) && LapFrom(p, top, blk, 0) == Turned(y)
    ensures y != [] && y[0].key == blk[0].key && OneKey(y) && Turns(p, y, 0) && SameShape(Acted(p, top, y), y)
  {
    TurnedIs(p, top, blk, 0);
    LapKey(p, top, blk, 0);
    var x := Acted(p, top, blk);
    ShapeThrough(y, x, blk);
    SameTurns(p, blk, y, 0);
    SameActed(p, top, y, blk);
    ShapeThrough(Acted(p, top, y), x, blk);
    ShapeThrough(Acted(p, top, y), blk, y);
  }

  lemma SpinTurns(p: Run, t: Table, b: nat, kept: seq<Ent>, blk: seq<Ent>, rest: seq<Ent>) returns (y: seq<Ent>)
    requires Spins(p, t, b, kept, blk, rest)
    ensures LapFrom(p, kept == [], blk, 0) == Turned(y)
    ensures Spins(p, SetBucket(t, b, kept + y + rest), b, kept, y, rest)
  {
    TurnedIs(p, kept == [], blk, 0);
    y := LapFrom(p, kept == [], blk, 0).blk;
    SpinShape(p, kept == [], blk, y);
    Replace(p, t, b, kept, blk, rest, y);
  }

  lemma SpinOnce(p: Run, t: Table, b: nat, kept: seq<Ent>, blk: seq<Ent>, rest: seq<Ent>) returns (y: seq<Ent>)
    requires Spins(p, t, b, kept, blk, rest)
    ensures var t1 := SetBucket(t, b, kept + y + rest);
      Spins(p, t1, b, kept, y, rest) && Leads(p, Spot(t, At(b, |kept|)), Spot(t1, At(b, |kept|)))
  {
    y := SpinTurns(p, t, b, kept, blk, rest);
    LapRuns(p, t, b, kept, blk, rest, 0);
  }

  lemma {:induction false} SpinFar(p: Run, t: Table, b: nat, kept: seq<Ent>, blk: seq<Ent>, rest: seq<Ent>, m: nat)
    requires Spins(p, t, b, kept, blk, rest)
    ensures Far(p, Spot(t, At(b, |kept|)), m)
    decreases m
  {
    if m == 0 {
      FarHere(p, Spot(t, At(b, |kept|)));
    } else {
      var y := SpinOnce(p, t, b, kept, blk, rest);
      var t1 := SetBucket(t, b, kept + y + rest);
      SpinFar(p, t1, b, kept, y, rest, m - 1);
      FarThen(p, Spot(t, At(b, |kept|)), Spot(t1, At(b, |kept|)), m - 1);
    }
  }

  lemma SpinsForever(p: Run, t: Table, b: nat, kept: seq<Ent>, blk: seq<Ent>, rest: seq<Ent>)
    requires Spins(p, t, b, kept, blk, rest)
    ensures Forever(p, Spot(t, At(b, |kept|)))
  {
    forall m: nat ensures Far(p, Spot(t, At(b, |kept|)), m) {
      SpinFar(p, t, b, kept, blk, rest, m);
    }
    FarForever(p, Spot(t, At(b, |kept|)));
  }

  // ----- a key

  lemma {:induction false} LapWild(p: Run, top: bool, blk: seq<Ent>, j: nat)
    requires OneKey(blk) && j < |blk| && blk[0].key == "*"
    ensures var r := LapFrom(p, top, blk, j); r.Left? && r.blk != []
    decreases |blk| - j
  {
    assert blk[j].key == "*";
    if Candidate(p.ap, blk[j], p.age) { WildIsNot(p, blk[j]); }
    var n := NextIn(blk, j + 1);
    if n == |blk| {
    } else {
      LapWild(p, top, blk[j := Reset(p, blk[j])], n);
    }
  }

  lemma TurnedSpins(p: Run, top: bool, blk: seq<Ent>, j: nat, y: seq<Ent>)
    requires OneKey(blk) && j < |blk| && Round(p, top, blk, j).Endless? && LapFrom(p, top, blk, j) == Turned(y)
    ensures OneKey(y) && y[0].key == blk[0].key && Turns(p, y, 0) && FullPath(p.ap, y[0].key).Some?
    ensures SameShape(Acted(p, top, y), y)
  {
    EndlessIff(p, top, blk, j);
    TurnedIs(p, top, blk, j);
    LapKey(p, top, blk, j);
    var x := Acted(p, top, blk);
    SameTurns(p, x, y, 0);
    ActedTwice(p, top, blk);
    SameActed(p, top, y, x);
    ShapeThrough(Acted(p, top, y), Acted(p, top, x), x);
    ShapeThrough(Acted(p, top, y), x, y);
  }

  /** The loop from an entry of a key until it is done with the key. */
  lemma RoundRuns(p: Run, t: Table, b: nat, kept: seq<Ent>, blk: seq<Ent>, rest: seq<Ent>, j: nat)
    requires AtKey(p, t, b, kept, blk, rest) && j < |blk|
    ensures var s := Spot(t, At(b, |kept| + j));
      match Round(p, kept == [], blk, j)
      case Passed(x, way) => Leads(p, s, Next(t, b, kept, x, rest, |x|, way))
      case Ended => Leads(p, s, Spot(SetBucket(t, b, kept + [] + rest), End))
      case Endless => Forever(p, s)
  {
    var s, lap := Spot(t, At(b, |kept| + j)), LapFrom(p, kept == [], blk, j);
    LapRuns(p, t, b, kept, blk, rest, j);
    if lap.Turned? { AgainRuns(p, t, b, kept, blk, rest, j, lap.blk); }
  }

  lemma AgainRuns(p: Run, t: Table, b: nat, kept: seq<Ent>, blk: seq<Ent>, rest: seq<Ent>, j: nat, y: seq<Ent>)
    requires AtKey(p, t, b, kept, blk, rest) && j < |blk| && LapFrom(p, kept == [], blk, j) == Turned(y)
    requires Leads(p, Spot(t, At(b, |kept| + j)), Spot(SetBucket(t, b, kept + y + rest), At(b, |kept|)))
    ensures var s := Spot(t, At(b, |kept| + j));
      match Round(p, kept == [], blk, j)
      case Passed(x, way) => Leads(p, s, Next(t, b, kept, x, rest, |x|, way))
      case Ended => Leads(p, s, Spot(SetBucket(t, b, kept + [] + rest), End))
      case Endless => Forever(p, s)
  {
    var t1 := SetBucket(t, b, kept + y + rest);
    var s, r := Spot(t, At(b, |kept| + j)), Spot(t1, At(b, |kept|));
    LapKey(p, kept == [], blk, j);
    Replace(p, t, b, kept, blk, rest, y);
    if Round(p, kept == [], blk, j).Endless? {
      TurnedSpins(p, kept == [], blk, j, y);
      SpinsForever(p, t1, b, kept, y, rest);
      ForeverFrom(p, s, r);
    } else {
      var lap := LapFrom(p, kept == [], y, 0);
      LapRuns(p, t1, b, kept, y, rest, 0);
      LapSpotSame(t, b, kept, rest, kept + y + rest, lap);
      LeadsThen(p, s, r, LapSpot(t, b, kept, rest, lap));
    }
  }

  lemma RoundKeeps(p: Run, t: Table, b: nat, kept: seq<Ent>, blk: seq<Ent>, rest: seq<Ent>, j: nat)
    requires AtKey(p, t, b, kept, blk, rest) && j < |blk| && Round(p, kept == [], blk, j).Passed?
    ensures var x := Round(p, kept == [], blk, j).blk; var t1 := SetBucket(t, b, kept + x + rest);
      KeyOf(x, blk[0].key) && Placed(t1) && HasWild(t1) == p.wild
  {
    var x := Round(p, kept == [], blk, j).blk;
    var lap := LapFrom(p, kept == [], blk, j);
    LapKey(p, kept == [], blk, j);
    if lap.Turned? { LapKey(p, kept == [], lap.blk, 0); }
    if blk[0].key == "*" { LapWild(p, kept == [], blk, j); }
    Replace(p, t, b, kept, blk, rest, x);
  }

  // ----- a bucket

  ghost predicate Comes(p: Run, s: Spot, z: Spot) {
    s == z || Leads(p, s, z)
  }

  lemma ComesThen(p: Run, s: Spot, r: Spot, z: Spot)
    requires Comes(p, s, r) && Comes(p, r, z)
    ensures Comes(p, s, z)
  {
    if s != r && r != z { LeadsThen(p, s, r, z); }
  }

  /** The two have no key in common. */
  predicate Apart(kept: seq<Ent>, rest: seq<Ent>) {
    forall i, j :: 0 <= i < |kept| && 0 <= j < |rest| ==> kept[i].key != rest[j].key
  }

  predicate AtRest(p: Run, t: Table, b: nat, kept: seq<Ent>, rest: seq<Ent>) {
    && Placed(t) && p.wild == HasWild(t) && b < |t.buckets| && t.buckets[b] == kept + rest
    && Together(rest) && Apart(kept, rest)
  }

  /** The entries `blk` of the first key, and `tail` with the others. */
  predicate AtFirst(p: Run, t: Table, b: nat, kept: seq<Ent>, blk: seq<Ent>, tail: seq<Ent>) {
    AtKey(p, t, b, kept, blk, tail) && Together(tail) && Apart(kept, tail)
  }

  lemma TailApart(rest: seq<Ent>)
    requires rest != [] && Together(rest)
    ensures var n := Lead(rest); Together(rest[n..]) && !KeyIn(rest[n..], rest[0].key)
  {
    var n := Lead(rest);
    var tail := rest[n..];
    assert forall i :: 0 <= i < |tail| ==> tail[i] == rest[n + i];
  }

  lemma SplitApart(kept: seq<Ent>, rest: seq<Ent>)
    requires rest != [] && Apart(kept, rest)
    ensures !KeyIn(kept, rest[0].key) && Apart(kept, rest[Lead(rest)..])
  {
    var n := Lead(rest);
    assert forall i :: 0 <= i < |rest[n..]| ==> rest[n..][i] == rest[n + i];
  }

  lemma FirstKey(p: Run, t: Table, b: nat, kept: seq<Ent>, rest: seq<Ent>)
    requires AtRest(p, t, b, kept, rest) && rest != []
    ensures AtFirst(p, t, b, kept, rest[..Lead(rest)], rest[Lead(rest)..])
  {
    var n := Lead(rest);
    assert kept + rest == kept + rest[..n] + rest[n..];
    TailApart(rest);
    SplitApart(kept, rest);
  }

  /** With the entries of the first key replaced by others of it, or by none. */
  lemma NextKey(p: Run, t: Table, b: nat, kept: seq<Ent>, blk: seq<Ent>, tail: seq<Ent>, x: seq<Ent>)
    requires AtFirst(p, t, b, kept, blk, tail) && KeyOf(x, blk[0].key)
    requires var t1 := SetBucket(t, b, kept + x + tail); Placed(t1) && HasWild(t1) == p.wild
    ensures AtRest(p, SetBucket(t, b, kept + x + tail), b, kept + x, tail)
  {
    forall i, j | 0 <= i < |kept + x| && 0 <= j < |tail| ensures (kept + x)[i].key != tail[j].key {
      if i < |kept| { assert (kept + x)[i] == kept[i]; } else { assert (kept + x)[i] == x[i - |kept|]; }
    }
  }

  lemma EnterAt(t: Table, b: nat, kept: seq<Ent>, blk: seq<Ent>, rest: seq<Ent>)
    requires b < |t.buckets| && t.buckets[b] == kept + blk + rest
    ensures var j := NextIn(blk, 0);
      FirstAt(t, b, |kept|) == if j < |blk| then At(b, |kept| + j) else FirstAt(t, b, |kept| + |blk|)
  {
    var j, c := NextIn(blk, 0), kept + blk + rest;
    forall i | |kept| <= i < |kept| + j ensures !Primary(c[i]) { assert c[i] == blk[i - |kept|]; }
    NextInSkips(c, |kept|, |kept| + j);
    if j < |blk| { assert c[|kept| + j] == blk[j]; }
  }

  lemma FindKey(p: Run, t: Table, b: nat, kept: seq<Ent>, blk: seq<Ent>, rest: seq<Ent>, j: nat)
    requires AtKey(p, t, b, kept, blk, rest) && j < |blk|
    ensures ValidPos(t, At(b, |kept| + j)) && Locate(t, KeyAt(t, At(b, |kept| + j))) == At(b, |kept|)
  {
    assert t.buckets[b][|kept| + j] == blk[j];
    SlotOf(p, t, b, kept, blk, rest);
    FirstInBucket(kept, blk, rest, blk[0].key);
  }

  /** Where the loop comes to the first key, if that has a primary entry. */
  lemma EnterKey(p: Run, t: Table, b: nat, kept: seq<Ent>, blk: seq<Ent>, rest: seq<Ent>, way: Way)
    requires AtKey(p, t, b, kept, blk, rest)
    ensures var j := NextIn(blk, 0);
      Entry(t, b, |kept|, way) ==
        if j < |blk| then At(b, |kept| + if way.ByKey? then 0 else j) else Entry(t, b, |kept| + |blk|, way)
  {
    EnterAt(t, b, kept, blk, rest);
    if NextIn(blk, 0) < |blk| { FindKey(p, t, b, kept, blk, rest, NextIn(blk, 0)); }
  }

  function SweptSpot(t: Table, b: nat, r: Swept): Spot
    requires b < |t.buckets| && !r.Never?
  {
    var t1 := SetBucket(t, b, r.chain);
    Spot(t1, if r.Halted? then End else Entry(t1, b, |r.chain|, r.way))
  }

  lemma SweptSpotSame(t: Table, b: nat, c: seq<Ent>, r: Swept)
    requires b < |t.buckets| && !r.Never?
    ensures SweptSpot(SetBucket(t, b, c), b, r) == SweptSpot(t, b, r)
  {
    SetTwice(t, b, c, r.chain);
  }

  ghost predicate Results(p: Run, s: Spot, t: Table, b: nat, r: Swept)
    requires b < |t.buckets|
  {
    if r.Never? then Forever(p, s) else Comes(p, s, SweptSpot(t, b, r))
  }

  lemma ThenResults(p: Run, s: Spot, z: Spot, t: Table, b: nat, c: seq<Ent>, r: Swept)
    requires b < |t.buckets| && Leads(p, s, z) && Results(p, z, SetBucket(t, b, c), b, r)
    ensures Results(p, s, t, b, r)
  {
    if r.Never? {
      ForeverFrom(p, s, z);
    } else {
      SweptSpotSame(t, b, c, r);
      ComesThen(p, s, z, SweptSpot(t, b, r));
    }
  }

  lemma NextSpot(t: Table, b: nat, kept: seq<Ent>, x: seq<Ent>, tail: seq<Ent>, way: Way)
    requires b < |t.buckets|
    ensures var t1 := SetBucket(t, b, kept + x + tail);
      Next(t, b, kept, x, tail, |x|, way) == Spot(t1, Entry(t1, b, |kept + x|, way))
  {
  }

  /** The first key, once it has been passed. */
  lemma KeyPassed(p: Run, t: Table, b: nat, kept: seq<Ent>, blk: seq<Ent>, tail: seq<Ent>, j: nat, x: Outcome)
    requires AtFirst(p, t, b, kept, blk, tail) && j < |blk| && x == Round(p, kept == [], blk, j) && x.Passed?
    ensures var t1 := SetBucket(t, b, kept + x.blk + tail);
      Leads(p, Spot(t, At(b, |kept| + j)), Spot(t1, Entry(t1, b, |kept + x.blk|, x.way)))
  {
    RoundRuns(p, t, b, kept, blk, tail, j);
    NextSpot(t, b, kept, x.blk, tail, x.way);
  }

  lemma KeyLeft(p: Run, t: Table, b: nat, kept: seq<Ent>, blk: seq<Ent>, tail: seq<Ent>, j: nat, x: Outcome)
    requires AtFirst(p, t, b, kept, blk, tail) && j < |blk| && x == Round(p, kept == [], blk, j) && x.Passed?
    ensures AtRest(p, SetBucket(t, b, kept + x.blk + tail), b, kept + x.blk, tail)
  {
    RoundKeeps(p, t, b, kept, blk, tail, j);
    NextKey(p, t, b, kept, blk, tail, x.blk);
  }

  lemma KeyHalts(p: Run, t: Table, b: nat, kept: seq<Ent>, blk: seq<Ent>, tail: seq<Ent>, j: nat)
    requires AtFirst(p, t, b, kept, blk, tail) && j < |blk|
    ensures var s, x := Spot(t, At(b, |kept| + j)), Round(p, kept == [], blk, j);
      (x.Ended? ==> Results(p, s, t, b, Halted(kept + tail))) && (x.Endless? ==> Forever(p, s))
  {
    RoundRuns(p, t, b, kept, blk, tail, j);
    assert kept + [] + tail == kept + tail;
  }

  lemma SkippedRest(p: Run, t: Table, b: nat, kept: seq<Ent>, blk: seq<Ent>, tail: seq<Ent>)
    requires AtFirst(p, t, b, kept, blk, tail)
    ensures AtRest(p, t, b, kept + blk, tail)
  {
    assert SetBucket(t, b, kept + blk + tail) == t by { assert t.buckets[b := kept + blk + tail] == t.buckets; }
    NextKey(p, t, b, kept, blk, tail, blk);
  }

  lemma KeySkipped(p: Run, t: Table, b: nat, kept: seq<Ent>, blk: seq<Ent>, tail: seq<Ent>, way: Way)
    requires AtFirst(p, t, b, kept, blk, tail) && NextIn(blk, 0) == |blk|
    ensures AtRest(p, t, b, kept + blk, tail)
    ensures Entry(t, b, |kept|, way) == Entry(t, b, |kept + blk|, way)
  {
    SkippedRest(p, t, b, kept, blk, tail);
    EnterKey(p, t, b, kept, blk, tail, way);
  }

  lemma NothingLeft(p: Run, t: Table, b: nat, kept: seq<Ent>, way: Way)
    requires AtRest(p, t, b, kept, [])
    ensures Results(p, Spot(t, Entry(t, b, |kept|, way)), t, b, Through(kept, way))
  {
    assert kept + [] == kept && t.buckets[b := kept] == t.buckets;
  }

  /** The index at which the loop comes to a key. */
  function EntryIn(blk: seq<Ent>, way: Way): (j: nat)
    requires NextIn(blk, 0) < |blk|
    ensures j < |blk|
  {
    if way.ByKey? then 0 else NextIn(blk, 0)
  }

  lemma EnterIs(p: Run, t: Table, b: nat, kept: seq<Ent>, blk: seq<Ent>, tail: seq<Ent>, way: Way)
    requires AtFirst(p, t, b, kept, blk, tail) && NextIn(blk, 0) < |blk|
    ensures Spot(t, Entry(t, b, |kept|, way)) == Spot(t, At(b, |kept| + EntryIn(blk, way)))
  {
    EnterKey(p, t, b, kept, blk, tail, way);
  }

  /** With what becomes of the others after it. */
  lemma KeyThen(p: Run, t: Table, b: nat, kept: seq<Ent>, blk: seq<Ent>, tail: seq<Ent>, j: nat, x: Outcome, r: Swept)
    requires AtFirst(p, t, b, kept, blk, tail) && j < |blk| && x == Round(p, kept == [], blk, j) && x.Passed?
    requires var t1 := SetBucket(t, b, kept + x.blk + tail);
      Results(p, Spot(t1, Entry(t1, b, |kept + x.blk|, x.way)), t1, b, r)
    ensures Results(p, Spot(t, At(b, |kept| + j)), t, b, r)
  {
    KeyPassed(p, t, b, kept, blk, tail, j, x);
    var t1 := SetBucket(t, b, kept + x.blk + tail);
    ThenResults(p, Spot(t, At(b, |kept| + j)), Spot(t1, Entry(t1, b, |kept + x.blk|, x.way)), t, b,
                kept + x.blk + tail, r);
  }

  /** The first key and then the others, from an entry of the first. */
  lemma {:induction false} KeyRuns(p: Run, t: Table, b: nat, kept: seq<Ent>, blk: seq<Ent>, tail: seq<Ent>, j: nat)
    requires AtFirst(p, t, b, kept, blk, tail) && j < |blk|
    ensures var s := Spot(t, At(b, |kept| + j));
      match Round(p, kept == [], blk, j)
      case Passed(x, way) => Results(p, s, t, b, SweepChain(p, kept + x, tail, way))
      case Ended => Results(p, s, t, b, Halted(kept + tail))
      case Endless => Results(p, s, t, b, Never)
    decreases |tail|, 1
  {
    var x := Round(p, kept == [], blk, j);
    if x.Passed? {
      KeyLeft(p, t, b, kept, blk, tail, j, x);
      ChainRuns(p, SetBucket(t, b, kept + x.blk + tail), b, kept + x.blk, tail, x.way);
      KeyThen(p, t, b, kept, blk, tail, j, x, SweepChain(p, kept + x.blk, tail, x.way));
    } else {
      KeyHalts(p, t, b, kept, blk, tail, j);
    }
  }

  lemma {:induction false} ChainRuns(p: Run, t: Table, b: nat, kept: seq<Ent>, rest: seq<Ent>, way: Way)
    requires AtRest(p, t, b, kept, rest)
    ensures Results(p, Spot(t, Entry(t, b, |kept|, way)), t, b, SweepChain(p, kept, rest, way))
    decreases |rest|, 0
  {
    if rest == [] {
      NothingLeft(p, t, b, kept, way);
    } else {
      FirstKey(p, t, b, kept, rest);
      var blk, tail := rest[..Lead(rest)], rest[Lead(rest)..];
      if NextIn(blk, 0) == |blk| {
        KeySkipped(p, t, b, kept, blk, tail, way);
        ChainRuns(p, t, b, kept + blk, tail, way);
      } else {
        KeyRuns(p, t, b, kept, blk, tail, EntryIn(blk, way));
        EnterIs(p, t, b, kept, blk, tail, way);
      }
    }
  }

  lemma {:induction false} ChainKeeps(p: Run, t: Table, b: nat, kept: seq<Ent>, rest: seq<Ent>, way: Way)
    requires AtRest(p, t, b, kept, rest) && SweepChain(p, kept, rest, way).Through?
    ensures var t1 := SetBucket(t, b, SweepChain(p, kept, rest, way).chain); Placed(t1) && HasWild(t1) == p.wild
    decreases |rest|
  {
    if rest == [] {
      assert kept + rest == kept && t.buckets[b := kept] == t.buckets;
    } else {
      FirstKey(p, t, b, kept, rest);
      var blk, tail := rest[..Lead(rest)], rest[Lead(rest)..];
      if NextIn(blk, 0) == |blk| {
        KeySkipped(p, t, b, kept, blk, tail, way);
        ChainKeeps(p, t, b, kept + blk, tail, way);
      } else {
        var j := if way.ByKey? then 0 else NextIn(blk, 0);
        var x := Round(p, kept == [], blk, j);
        var c := kept + x.blk + tail;
        KeyLeft(p, t, b, kept, blk, tail, j, x);
        ChainKeeps(p, SetBucket(t, b, c), b, kept + x.blk, tail, x.way);
        SetTwice(t, b, c, SweepChain(p, kept + x.blk, tail, x.way).chain);
      }
    }
  }

  // ----- the table

  lemma BucketDone(t: Table, b: nat, way: Way)
    requires b < |t.buckets|
    ensures Entry(t, b, |t.buckets[b]|, way) == if b + 1 < |t.buckets| then Entry(t, b + 1, 0, way) else End
  {
  }

  /** The buckets from `b` on are as adds, updates and deletions make them. */
  predicate AtBucket(p: Run, t: Table, b: nat) {
    && Placed(t) && p.wild == HasWild(t) && b < |t.buckets|
    && forall c :: b <= c < |t.buckets| ==> Together(t.buckets[c])
  }

  lemma BucketRuns(p: Run, t: Table, b: nat, way: Way)
    requires AtBucket(p, t, b)
    ensures var s, r := Spot(t, Entry(t, b, 0, way)), SweepChain(p, [], t.buckets[b], way);
      && Results(p, s, t, b, r)
      && (r.Through? && b + 1 < |t.buckets| ==> AtBucket(p, SetBucket(t, b, r.chain), b + 1))
  {
    var none: seq<Ent> := [];
    var c := t.buckets[b];
    assert none + c == c;
    assert AtRest(p, t, b, none, c);
    ChainRuns(p, t, b, none, c, way);
    if SweepChain(p, none, c, way).Through? { ChainKeeps(p, t, b, none, c, way); }
  }

  ghost predicate Does(p: Run, s: Spot, r: Option<Table>) {
    if r.None? then Forever(p, s) else Comes(p, s, Spot(r.value, End))
  }

  lemma ThenDoes(p: Run, s: Spot, z: Spot, r: Option<Table>)
    requires Comes(p, s, z) && Does(p, z, r)
    ensures Does(p, s, r)
  {
    if r.None? {
      if s != z { ForeverFrom(p, s, z); }
    } else {
      ComesThen(p, s, z, Spot(r.value, End));
    }
  }

  lemma {:induction false} TableRuns(p: Run, t: Table, b: nat, way: Way)
    requires AtBucket(p, t, b)
    ensures Does(p, Spot(t, Entry(t, b, 0, way)), SweepFrom(p, t, b, way))
    decreases |t.buckets| - b
  {
    var s, r := Spot(t, Entry(t, b, 0, way)), SweepChain(p, [], t.buckets[b], way);
    BucketRuns(p, t, b, way);
    if r.Through? {
      var t1 := SetBucket(t, b, r.chain);
      var z := Spot(t1, Entry(t1, b, |r.chain|, r.way));
      BucketDone(t1, b, r.way);
      if b + 1 < |t.buckets| { TableRuns(p, t1, b + 1, r.way); }
      ThenDoes(p, s, z, SweepFrom(p, t1, b + 1, r.way));
    }
  }

  /** What the loop starts from. */
  predicate Begun(p: Run, t: Table) {
    Placed(t) && Adjacent(t) && p.wild == HasWild(t)
  }

  lemma StartRuns(p: Run, t: Table)
    requires Begun(p, t)
    ensures Does(p, Start(t), Sweep(p, t))
  {
    TableRuns(p, t, 0, Onward);
    Untouched(p, t);
  }

  /** The loop ends with the swept cache, if the sweep has a result. */
  lemma LoopIsSweep(p: Run, t: Table) returns (n: nat)
    requires Begun(p, t) && Sweep(p, t).Some?
    ensures After(p, Start(t), n) == Spot(Sweep(p, t).value, End)
  {
    StartRuns(p, t);
    if Start(t) == Spot(Sweep(p, t).value, End) {
      n := 0;
      AfterOne(p, Start(t), 0);
    } else {
      n :| n > 0 && After(p, Start(t), n) == Spot(Sweep(p, t).value, End);
    }
  }

  /** On every cache in which the entries of a key lie together, the loop ends if and only if the
      sweep comes to no key that turns it round for ever. */
  lemma LoopEndsIff(p: Run, t: Table)
    requires Begun(p, t)
    ensures (exists n: nat :: After(p, Start(t), n).cur.End?) <==> Sweep(p, t).Some?
  {
    if Sweep(p, t).Some? {
      var n := LoopIsSweep(p, t);
    } else {
      StartRuns(p, t);
    }
  }

  /** lookup_prune_one_cache, wherever it ends */
  method PruneOneCache(p: Run, t0: Table) returns (t: Table)
    requires Begun(p, t0) && Sweep(p, t0).Some?
    ensures t == Sweep(p, t0).value
  {
    t := t0;
    var cur := EnumFirst(t);
    ghost var last := LoopIsSweep(p, t0);
    ghost var n := 0;
    AfterOne(p, Start(t0), 0);
    while cur.At?
      invariant 0 <= n <= last && After(p, Start(t0), n) == Spot(t, cur) && Standing(t, cur)
      decreases last - n
    {
      StillGoing(p, t0, n, last);
      AfterOne(p, Start(t0), n);
      GoStands(p, Spot(t, cur));
      t, cur := PruneEntry(p, t, cur);
      n := n + 1;
    }
    AfterEnd(p, Start(t0), n, last);
  }
}
