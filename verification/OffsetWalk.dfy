/** Walks over the offsets nested in one offset: the parent each offset is given
    (lib/cache.c, cache_get_offset_parent), the offsets a walk works on (lib/mounts.c,
    tree_mapent_traverse_subtree), and the order in which a multi-mount entry's offsets
    reach the tree (modules/parse_sun.c, update_offset_entry).
 */
module OffsetWalk {
  import opened Options
  import opened PathOrder
  import opened OffsetTree

  // ----- parents

  /** Look for the longest cached path ending before a '/' of `key` below position `i`. */
  function ParentBelow(cached: set<string>, key: string, i: nat): Option<string>
    requires i <= |key|
  {
    if i == 0 then None
    else if key[i - 1] != '/' then ParentBelow(cached, key, i - 1)
    else if i - 1 <= 1 then None
    else if key[..i - 1] in cached then Some(key[..i - 1])
    else ParentBelow(cached, key, i - 1)
  }

  /** cache_get_offset_parent; the root offset, whose key ends in '/', has none. */
  function OffsetParent(cached: set<string>, key: string): Option<string> {
    if key == [] || key[|key| - 1] == '/' then None else ParentBelow(cached, key, |key|)
  }

  /** `a` is a directory path above `key` that the search can find. */
  predicate PathAbove(a: string, key: string) {
    2 <= |a| < |key| && a <= key && key[|a|] == '/'
  }

  lemma {:induction false} ParentBelowIs(cached: set<string>, key: string, i: nat, a: string)
    requires i <= |key|
    ensures ParentBelow(cached, key, i) == Some(a) <==>
              && a in cached && PathAbove(a, key) && |a| < i
              && forall b :: b in cached && PathAbove(b, key) && |b| < i ==> |b| <= |a|
    ensures ParentBelow(cached, key, i) == None <==>
              forall b :: b in cached && PathAbove(b, key) ==> |b| >= i
  {
    if i == 0 {
    } else {
      ParentBelowIs(cached, key, i - 1, a);
      assert forall b :: PathAbove(b, key) && |b| == i - 1 ==> b == key[..i - 1] && key[i - 1] == '/';
      if key[i - 1] == '/' && i - 1 > 1 {
        assert PathAbove(key[..i - 1], key);
      }
    }
  }

  /** The parent of an offset is its nearest cached ancestor path. */
  lemma OffsetParentIsNearest(cached: set<string>, key: string, a: string)
    requires key != [] && key[|key| - 1] != '/'
    ensures OffsetParent(cached, key) == Some(a) <==>
              && a in cached && PathAbove(a, key)
              && forall b :: b in cached && PathAbove(b, key) ==> |b| <= |a|
    ensures OffsetParent(cached, key) == None <==> forall b :: b in cached ==> !PathAbove(b, key)
  {
    ParentBelowIs(cached, key, |key|, a);
  }

  /** The root offset, whose key ends in a slash, has no parent, whatever is cached. */
  lemma RootOffsetHasNone(cached: set<string>, key: string)
    requires key != [] && key[|key| - 1] == '/'
    ensures OffsetParent(cached, key) == None
  {
  }

  /** cache_get_offset_parent as the source runs it, over a copy of the key that it cuts at
      each '/' from the right.  Offset keys are absolute paths. */
  method GetOffsetParent(cached: set<string>, key: string) returns (parent: Option<string>)
    requires key != [] && key[0] == '/'
    ensures parent == OffsetParent(cached, key)
  {
    if key[|key| - 1] == '/' {
      return None;
    }
    var tail := |key| - 1;
    while true
      invariant 0 <= tail < |key|
      invariant OffsetParent(cached, key) == ParentBelow(cached, key, tail + 1)
      decreases tail
    {
      while key[tail] != '/'
        invariant 0 <= tail < |key|
        invariant OffsetParent(cached, key) == ParentBelow(cached, key, tail + 1)
        decreases tail
      {
        tail := tail - 1;
      }
      var cut := key[..tail];
      tail := tail - 1;
      if tail <= 0 {
        return None;
      }
      if cut in cached {
        return Some(cut);
      }
    }
  }

  // ----- walks

  /** The entries a walk never works on: the root offset and the owner of the tree. */
  predicate IsTop(root: string, k: string) {
    k == root || (k != [] && k[|k| - 1] == '/')
  }

  /** mm_parent, as tree_mapent_add_node sets it */
  function MmParent(root: string, cached: set<string>, k: string): string {
    match OffsetParent(cached, k)
    case None => root
    case Some(a) => a
  }

  predicate Works(root: string, cached: set<string>, base: string, k: string) {
    !IsTop(root, k) && MmParent(root, cached, k) == base
  }

  /** The keys tree_mapent_traverse_subtree works on, in order, when no work fails. */
  function WalkKeys(t: Tree, root: string, cached: set<string>, base: string): seq<string> {
    match t
    case Leaf => []
    case Node(l, k, r) =>
      WalkKeys(l, root, cached, base)
      + (if Works(root, cached, base, k) then [k] else [])
      + WalkKeys(r, root, cached, base)
  }

  lemma WalkSelects(t: Tree, root: string, cached: set<string>, base: string)
    ensures forall c :: c in WalkKeys(t, root, cached, base) <==> c in Keys(t) && Works(root, cached, base, c)
  {
  }

  lemma SortedConcat(a: seq<string>, b: seq<string>)
    requires Sorted(a) && Sorted(b) && forall x, y :: x in a && y in b ==> Less(x, y)
    ensures Sorted(a + b)
  {
    forall i, j | 0 <= i < j < |a + b| ensures Less((a + b)[i], (a + b)[j]) {
      if i < |a| <= j {
        assert a[i] in a && b[j - |a|] in b;
      }
    }
  }

  lemma {:induction false} WalkSorted(t: Tree, root: string, cached: set<string>, base: string)
    requires Ordered(t)
    ensures Sorted(WalkKeys(t, root, cached, base))
  {
    if t.Leaf? {
    } else {
      WalkSorted(t.left, root, cached, base);
      WalkSorted(t.right, root, cached, base);
      WalkSelects(t.left, root, cached, base);
      WalkSelects(t.right, root, cached, base);
      var l, r := WalkKeys(t.left, root, cached, base), WalkKeys(t.right, root, cached, base);
      var m := if Works(root, cached, base, t.key) then [t.key] else [];
      SortedConcat(l, m);
      forall x, y | x in l + m && y in r ensures Less(x, y) {
        if x in l {
          LessTrans(x, t.key, y);
        }
      }
      SortedConcat(l + m, r);
    }
  }

  /** `c` is an offset of the multi-mount whose parent is `p`. */
  predicate IsChild(ks: seq<string>, cached: set<string>, p: string, c: string)
    requires ks != []
  {
    c in ks && Works(ks[0], cached, p, c)
  }

  /** A walk from `p` works, in ascending key order, on exactly the children of `p` for which
      `p` was inserted first among the keys between. */
  lemma WalkExactly(ks: seq<string>, cached: set<string>, p: string, c: string)
    requires p in ks
    ensures var w := WalkKeys(Sub(Build(ks), p), ks[0], cached, p);
            Sorted(w) && (c in w <==> IsChild(ks, cached, p, c) && FirstBetween(ks, p, c))
  {
    var t := Build(ks);
    BuildOrdered(ks);
    BuildKeys(ks);
    SubOrdered(t, p);
    SubKeys(t, p);
    WalkSorted(Sub(t, p), ks[0], cached, p);
    WalkSelects(Sub(t, p), ks[0], cached, p);
    if c in ks {
      SubtreeIff(ks, p, c);
    }
  }

  /** No child escapes the walk from its parent. */
  ghost predicate Complete(ks: seq<string>, cached: set<string>)
    requires ks != []
  {
    forall p, c :: p in ks && IsChild(ks, cached, p, c) ==> c in WalkKeys(Sub(Build(ks), p), ks[0], cached, p)
  }

  lemma CompleteIff(ks: seq<string>, cached: set<string>)
    requires ks != []
    ensures Complete(ks, cached) <==>
              forall p, c :: p in ks && IsChild(ks, cached, p, c) ==> FirstBetween(ks, p, c)
  {
    forall p, c | p in ks && IsChild(ks, cached, p, c)
      ensures c in WalkKeys(Sub(Build(ks), p), ks[0], cached, p) <==> FirstBetween(ks, p, c)
    {
      WalkExactly(ks, cached, p, c);
    }
  }

  // ----- shortest path first

  predicate ByLength(ks: seq<string>) {
    forall i, j :: 0 <= i < j < |ks| ==> |ks[i]| <= |ks[j]|
  }

  lemma {:induction false} ShorterComesFirst(ks: seq<string>, p: string, k: string)
    requires ByLength(ks) && p in ks && |p| < |k|
    ensures Before(ks, p, k)
  {
    if ks[0] == p {
    } else {
      assert ks == [ks[0]] + ks[1..];
      assert p in ks[1..];
      var i :| 0 <= i < |ks[1..]| && ks[1..][i] == p;
      assert ks[i + 1] == p && |ks[0]| <= |p|;
      ShorterComesFirst(ks[1..], p, k);
    }
  }

  /** With offsets inserted shortest path first, walks miss nothing. */
  lemma ShortestFirstIsComplete(ks: seq<string>, cached: set<string>)
    requires ks != [] && ByLength(ks[1..])
    requires forall p :: p in ks[1..] ==> !(p <= ks[0]) // an offset's key is not above the owner's
    ensures Complete(ks, cached)
  {
    CompleteIff(ks, cached);
    assert ks == [ks[0]] + ks[1..];
    forall p, c | p in ks && IsChild(ks, cached, p, c) ensures FirstBetween(ks, p, c) {
      if p != ks[0] {
        OffsetParentIsNearest(cached, c, p);
        assert p <= c;
        forall k | k in ks && Between(p, k, c) ensures Before(ks, p, k) {
          BetweenExtends(p, k, c);
          if k != p {
            assert k != ks[0];
            ShorterComesFirst(ks[1..], p, k);
          } else {
            SelfBefore(ks, p);
          }
        }
      }
    }
  }

  lemma SelfBefore(ks: seq<string>, p: string)
    requires p in ks
    ensures Before(ks, p, p)
  {
  }

  // ----- the order update_offset_entry keeps

  /** One more than the position of the last listed offset that is no longer than `n`. */
  function NotLonger(offs: seq<string>, n: nat): (j: nat)
    ensures j <= |offs|
    ensures j > 0 ==> |offs[j - 1]| <= n
    ensures forall i :: j <= i < |offs| ==> |offs[i]| > n
  {
    if offs == [] then 0
    else if |offs[|offs| - 1]| <= n then |offs|
    else NotLonger(offs[..|offs| - 1], n)
  }

  /** Where update_offset_entry links a new offset: after the tail, at the front, or before
      the last listed offset that is no longer. */
  function Place(offs: seq<string>, me: string): (j: nat)
    ensures j <= |offs|
  {
    var j := NotLonger(offs, |me|);
    if j == |offs| || j == 0 then j else j - 1
  }

  function InsertAt(offs: seq<string>, j: nat, me: string): seq<string>
    requires j <= |offs|
  {
    offs[..j] + [me] + offs[j..]
  }

  function LinkOffset(offs: seq<string>, me: string): seq<string> {
    if me in offs then offs else InsertAt(offs, Place(offs, me), me)
  }

  /** The list of offsets after parsing `keys`. */
  function LinkAll(keys: seq<string>): seq<string> {
    if keys == [] then [] else LinkOffset(LinkAll(keys[..|keys| - 1]), keys[|keys| - 1])
  }

  /** The list update of update_offset_entry, walking back from the tail. */
  method LinkBackwards(offs: seq<string>, me: string) returns (r: seq<string>)
    requires me !in offs
    ensures r == LinkOffset(offs, me)
  {
    var last := |offs|;
    while last > 0
      invariant 0 <= last <= |offs|
      invariant forall i :: last <= i < |offs| ==> |offs[i]| > |me|
    {
      if |me| >= |offs[last - 1]| {
        NotLongerIs(offs, |me|, last);
        if last == |offs| {
          return offs + [me];
        }
        return offs[..last - 1] + [me] + offs[last - 1..];
      }
      last := last - 1;
    }
    NotLongerIs(offs, |me|, 0);
    return [me] + offs;
  }

  lemma NotLongerIs(offs: seq<string>, n: nat, j: nat)
    requires j <= |offs| && (j > 0 ==> |offs[j - 1]| <= n)
    requires forall i :: j <= i < |offs| ==> |offs[i]| > n
    ensures NotLonger(offs, n) == j
  {
  }

  lemma InsertAtByLength(offs: seq<string>, j: nat, me: string)
    requires ByLength(offs) && j <= |offs|
    ensures ByLength(InsertAt(offs, j, me)) <==>
              (j > 0 ==> |offs[j - 1]| <= |me|) && (j < |offs| ==> |me| <= |offs[j]|)
  {
    var r := InsertAt(offs, j, me);
    assert forall i :: 0 <= i < |r| ==> r[i] == if i < j then offs[i] else if i == j then me else offs[i - 1];
    if ByLength(r) {
      assert j > 0 ==> |r[j - 1]| <= |r[j]|;
      assert j < |offs| ==> |r[j]| <= |r[j + 1]|;
    }
  }

  /** The new offset keeps the list in length order exactly when it is at least as long as
      the tail, shorter than the head, or as long as some listed offset. */
  lemma LinkKeepsLengthIff(offs: seq<string>, me: string)
    requires ByLength(offs) && me !in offs
    ensures ByLength(LinkOffset(offs, me)) <==>
              || offs == []
              || |me| >= |offs[|offs| - 1]|
              || |me| < |offs[0]|
              || exists i :: 0 <= i < |offs| && |offs[i]| == |me|
  {
    var n := NotLonger(offs, |me|);
    InsertAtByLength(offs, Place(offs, me), me);
    if 0 < n < |offs| {
      assert |offs[0]| <= |offs[n - 1]| <= |me| < |offs[n]| <= |offs[|offs| - 1]|;
      assert forall i :: 0 <= i < n ==> |offs[i]| <= |offs[n - 1]|;
    }
  }

  /** An entry whose offsets are listed shortest first keeps that order, and its walks
      miss nothing. */
  lemma ListedShortestFirst(root: string, keys: seq<string>, cached: set<string>)
    requires ByLength(keys)
    requires forall p :: p in keys ==> !(p <= root)
    ensures ByLength(LinkAll(keys))
    ensures forall k :: k in LinkAll(keys) <==> k in keys
    ensures Complete([root] + LinkAll(keys), cached)
  {
    LinkAllShortestFirst(keys);
    assert ([root] + LinkAll(keys))[1..] == LinkAll(keys);
    ShortestFirstIsComplete([root] + LinkAll(keys), cached);
  }

  lemma LinkMembers(offs: seq<string>, me: string)
    ensures forall k :: k in LinkOffset(offs, me) <==> k in offs || k == me
  {
    var j := Place(offs, me);
    assert offs == offs[..j] + offs[j..];
  }

  lemma LinkAtTail(offs: seq<string>, me: string)
    requires ByLength(offs) && forall o :: o in offs ==> |o| <= |me|
    ensures ByLength(LinkOffset(offs, me))
  {
    if offs != [] && me !in offs {
      assert offs[|offs| - 1] in offs;
      LinkKeepsLengthIff(offs, me);
    }
  }

  lemma {:induction false} LinkAllShortestFirst(keys: seq<string>)
    requires ByLength(keys)
    ensures ByLength(LinkAll(keys))
    ensures forall k :: k in LinkAll(keys) <==> k in keys
  {
    if keys == [] {
    } else {
      var n := |keys| - 1;
      LinkAllShortestFirst(keys[..n]);
      LinkMembers(LinkAll(keys[..n]), keys[n]);
      assert keys == keys[..n] + [keys[n]];
      forall o | o in LinkAll(keys[..n]) ensures |o| <= |keys[n]| {
        assert o in keys[..n];
      }
      LinkAtTail(LinkAll(keys[..n]), keys[n]);
    }
  }

  lemma LinkOneMore(keys: seq<string>, me: string, j: nat)
    requires me !in LinkAll(keys) && j == Place(LinkAll(keys), me)
    ensures LinkAll(keys + [me]) == InsertAt(LinkAll(keys), j, me)
  {
    assert (keys + [me])[..|keys|] == keys;
  }

  lemma LinkTwo(a: string, z: string)
    requires |a| < |z|
    ensures LinkAll([a, z]) == [a, z]
  {
    LinkOneMore([], a, 0);
    assert [] + [a] == [a] && InsertAt([], 0, a) == [a];
    NotLongerIs([a], |z|, 1);
    LinkOneMore([a], z, 1);
    assert [a] + [z] == [a, z] && InsertAt([a], 1, z) == [a, z];
  }

  lemma LinkThree(a: string, z: string, b: string)
    requires |a| < |b| < |z|
    ensures LinkAll([a, z, b]) == [b, a, z]
  {
    LinkTwo(a, z);
    NotLongerIs([a, z], |b|, 1);
    LinkOneMore([a, z], b, 0);
    assert [a, z] + [b] == [a, z, b] && InsertAt([a, z], 0, b) == [b, a, z];
  }

  /** A child inserted before its parent escapes the walk. */
  lemma LateParentMisses(ks: seq<string>, cached: set<string>, p: string, c: string)
    requires p in ks && IsChild(ks, cached, p, c) && !Before(ks, p, c)
    ensures c !in WalkKeys(Sub(Build(ks), p), ks[0], cached, p)
    ensures !Complete(ks, cached)
  {
    WalkExactly(ks, cached, p, c);
    Trichotomy(p, c);
    Trichotomy(c, c);
    assert Between(p, c, c);
  }

  /** Otherwise walks can miss offsets.  Whenever an entry lists `p`, then a longer offset,
      then an offset nested directly in `p` of a length in between, the nested one enters the
      tree before `p` and a walk from `p` does not reach it. */
  lemma NestedOffsetMissed(root: string, p: string, z: string, c: string, cached: set<string>)
    requires PathAbove(p, c) && |c| < |z| && p in cached && p != root && !IsTop(root, c)
    requires forall b :: b in cached && PathAbove(b, c) ==> |b| <= |p|
    ensures var ks := [root] + LinkAll([p, z, c]);
            && IsChild(ks, cached, p, c)
            && c !in WalkKeys(Sub(Build(ks), p), root, cached, p)
            && !Complete(ks, cached)
  {
    LinkThree(p, z, c);
    var ks := [root] + LinkAll([p, z, c]);
    assert ks[0] == root && ks[1] == c && ks[2] == p && |ks| == 4;
    OffsetParentIsNearest(cached, c, p);
    assert IsChild(ks, cached, p, c);
    assert ks[1..][0] == c;
    assert !Before(ks[1..], p, c) && !Before(ks, p, c);
    LateParentMisses(ks, cached, p, c);
  }

  /** A multi-mount at /m with the offsets /m/a, /m/zzzz and /m/a/b, listed in that order: a
      walk from /m/a never comes to /m/a/b. */
  lemma MissedExample()
    ensures var cached := {"/m", "/m/a", "/m/zzzz", "/m/a/b"};
            var ks := ["/m"] + LinkAll(["/m/a", "/m/zzzz", "/m/a/b"]);
            && IsChild(ks, cached, "/m/a", "/m/a/b")
            && "/m/a/b" !in WalkKeys(Sub(Build(ks), "/m/a"), "/m", cached, "/m/a")
  {
    var cached := {"/m", "/m/a", "/m/zzzz", "/m/a/b"};
    assert "/m/a/b"[..4] == "/m/a";
    assert PathAbove("/m/a", "/m/a/b");
    assert !IsTop("/m", "/m/a/b");
    NestedOffsetMissed("/m", "/m/a", "/m/zzzz", "/m/a/b", cached);
  }

  /** An offset that is on the list already keeps its place; a new one is linked in, and the others
      keep their order. */
  lemma LinkedOnce(offs: seq<string>, me: string)
    ensures me in offs ==> LinkOffset(offs, me) == offs
    ensures me !in offs ==>
              exists j :: 0 <= j <= |offs| && LinkOffset(offs, me) == offs[..j] + [me] + offs[j..]
  {
    if me !in offs {
      var j := Place(offs, me);
      assert LinkOffset(offs, me) == offs[..j] + [me] + offs[j..];
    }
  }
}
