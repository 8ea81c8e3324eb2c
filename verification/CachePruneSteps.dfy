/** One iteration of the pruning loop (daemon/lookup.c:1343-1503) in terms of the entries of one
    key, which lie together in their bucket.
 */
module CachePruneSteps {
  import opened Options
  import opened CacheTable
  import opened CacheEnumerate
  import opened CachePrune
  import opened CachePruneLoop
  import opened CachePruneIff
  import opened CachePruneRuns
  import opened CachePruneSweep

  /** The entries `blk` of one key in their bucket, between `kept` and `rest`. */
  predicate AtKey(p: Run, t: Table, b: nat, kept: seq<Ent>, blk: seq<Ent>, rest: seq<Ent>) {
    && Placed(t) && p.wild == HasWild(t) && b < |t.buckets| && t.buckets[b] == kept + blk + rest
    && OneKey(blk) && !KeyIn(kept, blk[0].key) && !KeyIn(rest, blk[0].key)
  }

  // ----- the bucket

  lemma SlotOf(p: Run, t: Table, b: nat, kept: seq<Ent>, blk: seq<Ent>, rest: seq<Ent>)
    requires AtKey(p, t, b, kept, blk, rest)
    ensures Slot(t, blk[0].key) == b
  {
    assert t.buckets[b][|kept|] == blk[0];
  }

  lemma FirstInBucket(kept: seq<Ent>, blk: seq<Ent>, rest: seq<Ent>, key: string)
    requires KeyOf(blk, key) && !KeyIn(kept, key) && !KeyIn(rest, key)
    ensures First(kept + blk + rest, key) == if blk == [] then |kept + blk + rest| else |kept|
  {
    var c := kept + blk + rest;
    forall i | 0 <= i < |kept| ensures c[i].key != key { assert c[i] == kept[i]; }
    if blk == [] {
      forall i | |kept| <= i < |c| ensures c[i].key != key { assert c[i] == rest[i - |kept|]; }
    } else {
      assert c[|kept|] == blk[0];
    }
    FirstIs(c, key, if blk == [] then |c| else |kept|);
  }

  /** Replacing the entries of the key by others of the key. */
  lemma ReplacePlaced(p: Run, t: Table, b: nat, kept: seq<Ent>, blk: seq<Ent>, rest: seq<Ent>, blk': seq<Ent>)
    requires AtKey(p, t, b, kept, blk, rest) && KeyOf(blk', blk[0].key)
    ensures Placed(SetBucket(t, b, kept + blk' + rest))
  {
    SlotOf(p, t, b, kept, blk, rest);
    var c, c' := kept + blk + rest, kept + blk' + rest;
    forall i | 0 <= i < |c'| ensures Slot(t, c'[i].key) == b {
      if i < |kept| {
        assert c'[i] == kept[i] == c[i];
      } else if i < |kept| + |blk'| {
        assert c'[i] == blk'[i - |kept|];
      } else {
        assert c'[i] == rest[i - |kept| - |blk'|] == c[i - |blk'| + |blk|];
      }
    }
  }

  lemma HasIs(chain: seq<Ent>, key: string)
    ensures Has(chain, key) <==> KeyIn(chain, key)
  {
  }

  lemma ReplaceWild(p: Run, t: Table, b: nat, kept: seq<Ent>, blk: seq<Ent>, rest: seq<Ent>, blk': seq<Ent>)
    requires AtKey(p, t, b, kept, blk, rest) && KeyOf(blk', blk[0].key) && (blk[0].key == "*" ==> blk' != [])
    ensures HasWild(SetBucket(t, b, kept + blk' + rest)) == p.wild
  {
    if Slot(t, "*") == b {
      HasIs(kept + blk + rest, "*");
      HasIs(kept + blk' + rest, "*");
      KeyInConcat(kept + blk, rest, "*");
      KeyInConcat(kept, blk, "*");
      KeyInConcat(kept + blk', rest, "*");
      KeyInConcat(kept, blk', "*");
      if blk[0].key == "*" {
        assert blk'[0].key == "*";
      } else {
        assert !KeyIn(blk, "*") && !KeyIn(blk', "*");
      }
    }
  }

  lemma Replace(p: Run, t: Table, b: nat, kept: seq<Ent>, blk: seq<Ent>, rest: seq<Ent>, blk': seq<Ent>)
    requires AtKey(p, t, b, kept, blk, rest) && KeyOf(blk', blk[0].key) && (blk[0].key == "*" ==> blk' != [])
    ensures var t' := SetBucket(t, b, kept + blk' + rest);
      Placed(t') && HasWild(t') == p.wild && (blk' != [] ==> AtKey(p, t', b, kept, blk', rest))
  {
    ReplacePlaced(p, t, b, kept, blk, rest, blk');
    ReplaceWild(p, t, b, kept, blk, rest, blk');
  }

  // ----- what the operations of an iteration do to it

  /** cache_enumerate from an entry of the key. */
  lemma NextFrom(p: Run, t: Table, b: nat, kept: seq<Ent>, blk: seq<Ent>, rest: seq<Ent>, j: nat)
    requires AtKey(p, t, b, kept, blk, rest) && j < |blk|
    ensures ValidPos(t, At(b, |kept| + j)) && t.buckets[b][|kept| + j] == blk[j]
    ensures var n := NextIn(blk, j + 1);
      EnumNext(t, At(b, |kept| + j)) == if n < |blk| then At(b, |kept| + n) else FirstAt(t, b, |kept| + |blk|)
  {
    var n, c := NextIn(blk, j + 1), kept + blk + rest;
    EnumNextIsFirstAt(t, At(b, |kept| + j));
    var m := NextIn(c, |kept| + j + 1);
    forall i | |kept| + j + 1 <= i < |kept| + n ensures !Primary(c[i]) { assert c[i] == blk[i - |kept|]; }
    if n < |blk| {
      assert c[|kept| + n] == blk[n];
    } else {
      NextInSkips(c, |kept| + j + 1, |kept| + |blk|);
    }
  }

  lemma {:induction false} NextInSkips(c: seq<Ent>, i: nat, j: nat)
    requires i <= j <= |c| && forall k :: i <= k < j ==> !Primary(c[k])
    ensures NextIn(c, i) == NextIn(c, j)
    decreases j - i
  {
    if i == j {
    } else {
      NextInSkips(c, i + 1, j);
    }
  }

  lemma MarkBlock(p: Run, t: Table, b: nat, kept: seq<Ent>, blk: seq<Ent>, rest: seq<Ent>)
    requires AtKey(p, t, b, kept, blk, rest)
    ensures MarkNegative(p, t, blk[0].key) == SetBucket(t, b, kept + Marked(p, blk) + rest)
  {
    SlotOf(p, t, b, kept, blk, rest);
    FirstInBucket(kept, blk, rest, blk[0].key);
    var c := kept + blk + rest;
    assert c[|kept|] == blk[0];
    if p.w.valid(blk[0].key).Here? {
      assert c[|kept| := blk[0].(text := None)] == kept + blk[0 := blk[0].(text := None)] + rest;
    } else {
      assert t.buckets[b := c] == t.buckets;
    }
  }

  /** cache_delete passes entries of other keys. */
  lemma {:induction false} DropKept(kept: seq<Ent>, c: seq<Ent>, key: string)
    requires !KeyIn(kept, key)
    ensures DropAfter(kept + c, key) == (kept + DropAfter(c, key).0, DropAfter(c, key).1)
  {
    if kept == [] {
      assert kept + c == c && kept + DropAfter(c, key).0 == DropAfter(c, key).0;
    } else {
      assert (kept + c)[1..] == kept[1..] + c && (kept + c)[0] == kept[0];
      NoKeyTail(kept, key);
      DropKept(kept[1..], c, key);
      assert [kept[0]] + (kept[1..] + DropAfter(c, key).0) == kept + DropAfter(c, key).0;
    }
  }

  lemma NoKeyTail(kept: seq<Ent>, key: string)
    requires kept != [] && !KeyIn(kept, key)
    ensures kept[0].key != key && !KeyIn(kept[1..], key)
  {
    assert forall i :: 0 <= i < |kept[1..]| ==> kept[1..][i] == kept[i + 1];
  }

  /** It takes out the entries of the key up to the first of a multi-mount. */
  lemma {:induction false} DropBlock(blk: seq<Ent>, rest: seq<Ent>, key: string)
    requires KeyOf(blk, key) && !KeyIn(rest, key)
    ensures var m := FirstOfMulti(blk); DropAfter(blk + rest, key) == (blk[m..] + rest, m == |blk|)
  {
    var m := FirstOfMulti(blk);
    if blk == [] {
      DropKept(rest, [], key);
      assert rest + [] == rest && blk + rest == rest && blk[0..] + rest == rest;
    } else {
      assert (blk + rest)[1..] == blk[1..] + rest && (blk + rest)[0] == blk[0];
      if m > 0 {
        DropBlock(blk[1..], rest, key);
        assert blk[1..][m - 1..] == blk[m..];
      } else {
        assert blk[0..] == blk;
      }
    }
  }

  lemma DeleteTop(blk: seq<Ent>, rest: seq<Ent>)
    requires OneKey(blk) && !KeyIn(rest, blk[0].key)
    ensures DeleteFrom(blk + rest, blk[0].key).0 == Undeleted(true, blk) + rest
  {
    var c := blk + rest;
    assert c[1..] == blk[1..] + rest && c[0] == blk[0];
    DropBlock(blk[1..], rest, blk[0].key);
    var left := blk[1..][FirstOfMulti(blk[1..])..];
    assert [blk[0]] + (left + rest) == ([blk[0]] + left) + rest;
    assert left == [] ==> left + rest == rest;
  }

  lemma DeleteUnder(top: Ent, c: seq<Ent>, key: string)
    requires top.key != key
    ensures DeleteFrom([top] + c, key).0 == [top] + DropAfter(c, key).0
  {
    assert ([top] + c)[1..] == c;
  }

  lemma ConsConcat(kept: seq<Ent>, c: seq<Ent>)
    requires kept != []
    ensures kept + c == [kept[0]] + (kept[1..] + c)
  {
  }

  lemma DeleteBehind(kept: seq<Ent>, c: seq<Ent>, key: string)
    requires kept != [] && !KeyIn(kept, key)
    ensures DeleteFrom(kept + c, key).0 == kept + DropAfter(c, key).0
  {
    NoKeyTail(kept, key);
    DropKept(kept[1..], c, key);
    DeleteUnder(kept[0], kept[1..] + c, key);
    ConsConcat(kept, c);
    ConsConcat(kept, DropAfter(c, key).0);
  }

  lemma DeleteBlock(kept: seq<Ent>, blk: seq<Ent>, rest: seq<Ent>)
    requires OneKey(blk) && !KeyIn(kept, blk[0].key) && !KeyIn(rest, blk[0].key)
    ensures DeleteFrom(kept + blk + rest, blk[0].key).0 == kept + Undeleted(kept == [], blk) + rest
  {
    assert kept + blk + rest == kept + (blk + rest);
    var left := Undeleted(kept == [], blk);
    assert kept + left + rest == kept + (left + rest);
    if kept == [] {
      DeleteTop(blk, rest);
      assert kept + (blk + rest) == blk + rest && kept + (left + rest) == left + rest;
    } else {
      DropBlock(blk, rest, blk[0].key);
      DeleteBehind(kept, blk + rest, blk[0].key);
    }
  }

  lemma DeleteIn(p: Run, t: Table, b: nat, kept: seq<Ent>, blk: seq<Ent>, rest: seq<Ent>)
    requires AtKey(p, t, b, kept, blk, rest)
    ensures Delete(t, blk[0].key).0 == SetBucket(t, b, kept + Undeleted(kept == [], blk) + rest)
  {
    SlotOf(p, t, b, kept, blk, rest);
    DeleteBlock(kept, blk, rest);
  }

  // ----- one iteration

  function KeyAt(t: Table, q: Pos): string
    requires q.At? && ValidPos(t, q)
  {
    t.buckets[q.b][q.i].key
  }

  /** Where the loop goes on with what follows index `i` of bucket `b`. */
  function Entry(t: Table, b: nat, i: nat, way: Way): (q: Pos)
    requires b < |t.buckets| && i <= |t.buckets[b]|
    ensures ValidPos(t, q)
  {
    var q := FirstAt(t, b, i);
    if q.At? && way.ByKey? then Locate(t, KeyAt(t, q)) else q
  }

  /** What follows is the same whatever comes before it in the bucket. */
  lemma SameNext(t: Table, t': Table, b: nat, x: seq<Ent>, y: seq<Ent>, rest: seq<Ent>)
    requires b < |t.buckets| == |t'.buckets| && t.buckets[b] == x + rest && t'.buckets[b] == y + rest
    requires forall c :: 0 <= c < |t.buckets| && c != b ==> t'.buckets[c] == t.buckets[c]
    ensures var q, q' := FirstAt(t, b, |x|), FirstAt(t', b, |y|);
      (q.End? <==> q'.End?) && (q.At? ==> KeyAt(t, q) == KeyAt(t', q'))
  {
    var n := NextIn(rest, 0);
    NextInSuffix(x, rest, n);
    NextInSuffix(y, rest, n);
    SameTail(t, t', b + 1);
  }

  /** The spot after an entry of the key, with what is left of the key. */
  function Next(t: Table, b: nat, kept: seq<Ent>, blk: seq<Ent>, rest: seq<Ent>, n: nat, way: Way): Spot
    requires b < |t.buckets| && n <= |blk|
  {
    var t' := SetBucket(t, b, kept + blk + rest);
    Spot(t', if n < |blk| then At(b, |kept| + n) else Entry(t', b, |kept| + |blk|, way))
  }

  lemma SetInBlock(t: Table, b: nat, kept: seq<Ent>, blk: seq<Ent>, rest: seq<Ent>, j: nat, e: Ent)
    requires b < |t.buckets| && t.buckets[b] == kept + blk + rest && j < |blk|
    ensures SetAt(t, At(b, |kept| + j), e) == SetBucket(t, b, kept + blk[j := e] + rest)
  {
    assert (kept + blk + rest)[|kept| + j := e] == kept + blk[j := e] + rest;
  }

  lemma GoPast(p: Run, t: Table, cur: Pos)
    requires Placed(t) && cur.At? && ValidPos(t, cur) && p.wild == HasWild(t)
    requires !Candidate(p.ap, t.buckets[cur.b][cur.i], p.age)
    ensures var t1 := SetAt(t, cur, Reset(p, t.buckets[cur.b][cur.i]));
      ValidPos(t1, cur) && Go(p, Spot(t, cur)) == Spot(t1, EnumNext(t1, cur))
  {
    SetSame(t, cur);
  }

  lemma GoConsiders(p: Run, t: Table, cur: Pos)
    requires Placed(t) && cur.At? && ValidPos(t, cur) && Candidate(p.ap, t.buckets[cur.b][cur.i], p.age)
    ensures var e := t.buckets[cur.b][cur.i]; var t1 := MarkNegative(p, t, e.key);
      && Placed(t1) && ValidPos(t1, cur)
      && var next := EnumNext(t1, cur);
         if Postponed(p, e) then Go(p, Spot(t, cur)) == Spot(t1, next)
         else
           var t2 := if Deletes(p, e) then Delete(t1, e.key).0 else t1;
           Go(p, Spot(t, cur)) == Spot(t2, if next.At? then Locate(t2, KeyAt(t1, next)) else End)
  {
    MarkNegativePlaced(p, t, t.buckets[cur.b][cur.i].key, cur);
  }

  /** Going on from an entry to what follows, the key's entries having the same shape as `blk`. */
  lemma NextIs(p: Run, t: Table, b: nat, kept: seq<Ent>, blk: seq<Ent>, rest: seq<Ent>, blk1: seq<Ent>, j: nat)
    requires AtKey(p, t, b, kept, blk, rest) && j < |blk| && SameShape(blk, blk1) && OneKey(blk1)
    ensures var t1 := SetBucket(t, b, kept + blk1 + rest); var n, cur := NextIn(blk, j + 1), At(b, |kept| + j);
      && AtKey(p, t1, b, kept, blk1, rest) && ValidPos(t1, cur)
      && EnumNext(t1, cur) == if n < |blk| then At(b, |kept| + n) else FirstAt(t1, b, |kept| + |blk|)
  {
    Replace(p, t, b, kept, blk, rest, blk1);
    NextFrom(p, SetBucket(t, b, kept + blk1 + rest), b, kept, blk1, rest, j);
    SameNextIn(blk, blk1, j + 1);
  }

  lemma MarkedKey(p: Run, blk: seq<Ent>)
    requires OneKey(blk)
    ensures OneKey(Marked(p, blk)) && KeyOf(Marked(p, blk), blk[0].key)
  {
  }

  lemma StepPast(p: Run, t: Table, b: nat, kept: seq<Ent>, blk: seq<Ent>, rest: seq<Ent>, j: nat)
    requires AtKey(p, t, b, kept, blk, rest) && j < |blk| && !Candidate(p.ap, blk[j], p.age)
    ensures var blk1 := blk[j := Reset(p, blk[j])];
      && AtKey(p, SetBucket(t, b, kept + blk1 + rest), b, kept, blk1, rest)
      && Go(p, Spot(t, At(b, |kept| + j))) == Next(t, b, kept, blk1, rest, NextIn(blk, j + 1), Onward)
  {
    var cur := At(b, |kept| + j);
    assert ValidPos(t, cur) && t.buckets[b][|kept| + j] == blk[j];
    GoPast(p, t, cur);
    SetInBlock(t, b, kept, blk, rest, j, Reset(p, blk[j]));
    ResetShape(p, blk, j);
    NextIs(p, t, b, kept, blk, rest, blk[j := Reset(p, blk[j])], j);
  }

  lemma GoPostponed(p: Run, t: Table, b: nat, kept: seq<Ent>, blk: seq<Ent>, rest: seq<Ent>, j: nat)
    requires AtKey(p, t, b, kept, blk, rest) && j < |blk|
    requires Candidate(p.ap, blk[j], p.age) && Postponed(p, blk[j])
    ensures var t1, cur := SetBucket(t, b, kept + Marked(p, blk) + rest), At(b, |kept| + j);
      Placed(t1) && ValidPos(t1, cur) && Go(p, Spot(t, cur)) == Spot(t1, EnumNext(t1, cur))
  {
    assert t.buckets[b][|kept| + j] == blk[j] && blk[j].key == blk[0].key;
    GoConsiders(p, t, At(b, |kept| + j));
    MarkBlock(p, t, b, kept, blk, rest);
  }

  lemma StepPostponed(p: Run, t: Table, b: nat, kept: seq<Ent>, blk: seq<Ent>, rest: seq<Ent>, j: nat)
    requires AtKey(p, t, b, kept, blk, rest) && j < |blk|
    requires Candidate(p.ap, blk[j], p.age) && Postponed(p, blk[j])
    ensures var blk1 := Marked(p, blk);
      && AtKey(p, SetBucket(t, b, kept + blk1 + rest), b, kept, blk1, rest)
      && Go(p, Spot(t, At(b, |kept| + j))) == Next(t, b, kept, blk1, rest, NextIn(blk, j + 1), Onward)
  {
    GoPostponed(p, t, b, kept, blk, rest, j);
    MarkedShape(p, blk);
    MarkedKey(p, blk);
    NextIs(p, t, b, kept, blk, rest, Marked(p, blk), j);
  }

  lemma WildIsNot(p: Run, e: Ent)
    requires Candidate(p.ap, e, p.age)
    ensures e.key != "*"
  {
    assert "*"[0] == '*';
  }

  /** The cache after the loop has acted on a stale entry. */
  lemma ActsOn(p: Run, t: Table, b: nat, kept: seq<Ent>, blk: seq<Ent>, rest: seq<Ent>, j: nat)
    requires AtKey(p, t, b, kept, blk, rest) && j < |blk| && Candidate(p.ap, blk[j], p.age)
    ensures FullPath(p.ap, blk[0].key).Some?
    ensures var e, blk1 := blk[j], Acted(p, kept == [], blk);
      var t1 := MarkNegative(p, t, e.key); var t2 := SetBucket(t, b, kept + blk1 + rest);
      && t1 == SetBucket(t, b, kept + Marked(p, blk) + rest) && AtKey(p, t1, b, kept, Marked(p, blk), rest)
      && (if Deletes(p, e) then Delete(t1, e.key).0 else t1) == t2
      && Placed(t2) && HasWild(t2) == p.wild && (blk1 != [] ==> AtKey(p, t2, b, kept, blk1, rest))
  {
    assert blk[j].key == blk[0].key;
    var blk1 := Acted(p, kept == [], blk);
    MarkBlock(p, t, b, kept, blk, rest);
    ActedKey(p, kept == [], blk);
    WildIsNot(p, blk[j]);
    Replace(p, t, b, kept, blk, rest, Marked(p, blk));
    Replace(p, t, b, kept, blk, rest, blk1);
    DeleteIn(p, MarkNegative(p, t, blk[j].key), b, kept, Marked(p, blk), rest);
  }

  lemma LocateIn(p: Run, t: Table, b: nat, kept: seq<Ent>, blk: seq<Ent>, rest: seq<Ent>, blk': seq<Ent>)
    requires AtKey(p, t, b, kept, blk, rest) && KeyOf(blk', blk[0].key)
    ensures Locate(SetBucket(t, b, kept + blk' + rest), blk[0].key) == if blk' == [] then End else At(b, |kept|)
  {
    SlotOf(p, t, b, kept, blk, rest);
    FirstInBucket(kept, blk', rest, blk[0].key);
  }

  lemma GoActs(p: Run, t: Table, b: nat, kept: seq<Ent>, blk: seq<Ent>, rest: seq<Ent>, j: nat)
    requires AtKey(p, t, b, kept, blk, rest) && j < |blk|
    requires Candidate(p.ap, blk[j], p.age) && !Postponed(p, blk[j]) && FullPath(p.ap, blk[0].key).Some?
    ensures var t1, cur := SetBucket(t, b, kept + Marked(p, blk) + rest), At(b, |kept| + j);
      var t2 := SetBucket(t, b, kept + Acted(p, kept == [], blk) + rest);
      && Placed(t1) && ValidPos(t1, cur)
      && var next := EnumNext(t1, cur);
         Go(p, Spot(t, cur)) == Spot(t2, if next.At? then Locate(t2, KeyAt(t1, next)) else End)
  {
    assert t.buckets[b][|kept| + j] == blk[j] && blk[j].key == blk[0].key;
    GoConsiders(p, t, At(b, |kept| + j));
    ActsOn(p, t, b, kept, blk, rest, j);
  }

  lemma KeyInBlock(t: Table, b: nat, kept: seq<Ent>, blk: seq<Ent>, rest: seq<Ent>, n: nat)
    requires b < |t.buckets| && n < |blk|
    ensures var t1 := SetBucket(t, b, kept + blk + rest);
      ValidPos(t1, At(b, |kept| + n)) && KeyAt(t1, At(b, |kept| + n)) == blk[n].key
  {
  }

  lemma StepTurns(p: Run, t: Table, b: nat, kept: seq<Ent>, blk: seq<Ent>, rest: seq<Ent>, j: nat)
    requires AtKey(p, t, b, kept, blk, rest) && j < |blk| && NextIn(blk, j + 1) < |blk|
    requires Candidate(p.ap, blk[j], p.age) && !Postponed(p, blk[j]) && FullPath(p.ap, blk[0].key).Some?
    ensures var blk1 := Acted(p, kept == [], blk);
      Go(p, Spot(t, At(b, |kept| + j))) ==
        Spot(SetBucket(t, b, kept + blk1 + rest), if blk1 == [] then End else At(b, |kept|))
  {
    var n := NextIn(blk, j + 1);
    GoActs(p, t, b, kept, blk, rest, j);
    MarkedShape(p, blk);
    MarkedKey(p, blk);
    NextIs(p, t, b, kept, blk, rest, Marked(p, blk), j);
    KeyInBlock(t, b, kept, Marked(p, blk), rest, n);
    ActedKey(p, kept == [], blk);
    LocateIn(p, t, b, kept, blk, rest, Acted(p, kept == [], blk));
  }

  lemma StepLast(p: Run, t: Table, b: nat, kept: seq<Ent>, blk: seq<Ent>, rest: seq<Ent>, j: nat)
    requires AtKey(p, t, b, kept, blk, rest) && j < |blk| && NextIn(blk, j + 1) == |blk|
    requires Candidate(p.ap, blk[j], p.age) && !Postponed(p, blk[j]) && FullPath(p.ap, blk[0].key).Some?
    ensures var blk1 := Acted(p, kept == [], blk);
      Go(p, Spot(t, At(b, |kept| + j))) == Next(t, b, kept, blk1, rest, |blk1|, ByKey)
  {
    GoActs(p, t, b, kept, blk, rest, j);
    LastIs(p, t, b, kept, blk, rest, j, Acted(p, kept == [], blk));
  }

  lemma LastIs(p: Run, t: Table, b: nat, kept: seq<Ent>, blk: seq<Ent>, rest: seq<Ent>, j: nat, blk1: seq<Ent>)
    requires AtKey(p, t, b, kept, blk, rest) && j < |blk| && NextIn(blk, j + 1) == |blk|
    ensures var t1, cur := SetBucket(t, b, kept + Marked(p, blk) + rest), At(b, |kept| + j);
      var t2 := SetBucket(t, b, kept + blk1 + rest);
      && Placed(t1) && ValidPos(t1, cur)
      && var next := EnumNext(t1, cur);
         Spot(t2, if next.At? then Locate(t2, KeyAt(t1, next)) else End)
           == Next(t, b, kept, blk1, rest, |blk1|, ByKey)
  {
    MarkedShape(p, blk);
    MarkedKey(p, blk);
    NextIs(p, t, b, kept, blk, rest, Marked(p, blk), j);
    LastNext(t, b, kept, Marked(p, blk), blk1, rest);
  }

  /** At the last primary entry of a key the next key is looked up. */
  lemma LastNext(t: Table, b: nat, kept: seq<Ent>, m: seq<Ent>, blk: seq<Ent>, rest: seq<Ent>)
    requires b < |t.buckets|
    ensures var t1, t2 := SetBucket(t, b, kept + m + rest), SetBucket(t, b, kept + blk + rest);
      var q := FirstAt(t1, b, |kept| + |m|);
      (if q.At? then Locate(t2, KeyAt(t1, q)) else End) == Entry(t2, b, |kept| + |blk|, ByKey)
  {
    var t1, t2 := SetBucket(t, b, kept + m + rest), SetBucket(t, b, kept + blk + rest);
    SameNext(t1, t2, b, kept + m, kept + blk, rest);
  }
}
