/** The search tree of a multi-mount's offsets (lib/mounts.c, tree_add_node with
    tree_mapent_cmp): which offset lies in whose subtree, as a matter of insertion order.
 */
module OffsetTree {
  import opened PathOrder

  datatype Tree = Leaf | Node(left: Tree, key: string, right: Tree)

  /** tree_add_node: `cmp(n, k)` compares the new key `k` with the node key `n`. */
  function Insert(cmp: (string, string) -> int, t: Tree, k: string): Tree {
    match t
    case Leaf => Node(Leaf, k, Leaf)
    case Node(l, n, r) =>
      var eq := cmp(n, k);
      if eq == 0 then t
      else if eq < 0 then Node(Insert(cmp, l, k), n, r)
      else Node(l, n, Insert(cmp, r, k))
  }

  function InsertAll(cmp: (string, string) -> int, t: Tree, ks: seq<string>): Tree
    decreases |ks|
  {
    if ks == [] then t else InsertAll(cmp, Insert(cmp, t, ks[0]), ks[1..])
  }

  /** The offset tree after inserting `ks` in order; its first key is the multi-mount root. */
  function Build(ks: seq<string>): Tree {
    InsertAll(MapentCmp, Leaf, ks)
  }

  function Keys(t: Tree): set<string> {
    match t
    case Leaf => {}
    case Node(l, k, r) => Keys(l) + {k} + Keys(r)
  }

  function Size(t: Tree): nat {
    match t
    case Leaf => 0
    case Node(l, _, r) => Size(l) + 1 + Size(r)
  }

  /** The subtree whose top is `p`. */
  function Sub(t: Tree, p: string): Tree {
    match t
    case Leaf => Leaf
    case Node(l, k, r) => if p == k then t else if Less(p, k) then Sub(l, p) else Sub(r, p)
  }

  predicate Sorted(s: seq<string>) {
    forall i, j :: 0 <= i < j < |s| ==> Less(s[i], s[j])
  }

  // ----- insertion splits the keys around the first one

  function Below(ks: seq<string>, r: string): seq<string> {
    if ks == [] then []
    else if Less(ks[0], r) then [ks[0]] + Below(ks[1..], r)
    else Below(ks[1..], r)
  }

  function Above(ks: seq<string>, r: string): seq<string> {
    if ks == [] then []
    else if Less(r, ks[0]) then [ks[0]] + Above(ks[1..], r)
    else Above(ks[1..], r)
  }

  /** On which side of `n` the search goes on for `k`. */
  lemma CmpSide(n: string, k: string)
    ensures MapentCmp(n, k) < 0 <==> Less(k, n)
    ensures MapentCmp(n, k) > 0 <==> Less(n, k)
    ensures MapentCmp(n, k) == 0 <==> k == n
  {
    MapentCmpIsStrCmp(n, k);
    Trichotomy(k, n);
    CmpFlip(k, n);
  }

  lemma {:induction false} InsertAllSplits(l: Tree, n: string, r: Tree, ks: seq<string>)
    ensures InsertAll(MapentCmp, Node(l, n, r), ks)
         == Node(InsertAll(MapentCmp, l, Below(ks, n)), n, InsertAll(MapentCmp, r, Above(ks, n)))
    decreases |ks|
  {
    if ks == [] {
    } else {
      var k, rest := ks[0], ks[1..];
      CmpSide(n, k);
      Trichotomy(k, n);
      if Less(k, n) {
        assert Below(ks, n)[1..] == Below(rest, n);
        InsertAllSplits(Insert(MapentCmp, l, k), n, r, rest);
      } else if Less(n, k) {
        assert Above(ks, n)[1..] == Above(rest, n);
        InsertAllSplits(l, n, Insert(MapentCmp, r, k), rest);
      } else {
        InsertAllSplits(l, n, r, rest);
      }
    }
  }

  lemma BuildSplits(ks: seq<string>)
    requires ks != []
    ensures Build(ks) == Node(Build(Below(ks[1..], ks[0])), ks[0], Build(Above(ks[1..], ks[0])))
  {
    InsertAllSplits(Leaf, ks[0], Leaf, ks[1..]);
  }

  lemma {:induction false} SplitMembers(ks: seq<string>, r: string)
    ensures |Below(ks, r)| <= |ks| && |Above(ks, r)| <= |ks|
    ensures forall k :: k in Below(ks, r) <==> k in ks && Less(k, r)
    ensures forall k :: k in Above(ks, r) <==> k in ks && Less(r, k)
  {
    if ks == [] {
    } else {
      SplitMembers(ks[1..], r);
      assert ks == [ks[0]] + ks[1..];
    }
  }

  lemma {:induction false} BuildKeys(ks: seq<string>)
    ensures forall k :: k in Keys(Build(ks)) <==> k in ks
    decreases |ks|
  {
    if ks == [] {
    } else {
      BuildSplits(ks);
      SplitMembers(ks[1..], ks[0]);
      BuildKeys(Below(ks[1..], ks[0]));
      BuildKeys(Above(ks[1..], ks[0]));
      assert ks == [ks[0]] + ks[1..];
      forall k ensures k in Keys(Build(ks)) <==> k in ks {
        Trichotomy(k, ks[0]);
      }
    }
  }

  /** `p` was inserted no later than `k`. */
  predicate Before(ks: seq<string>, p: string, k: string) {
    ks != [] && (ks[0] == p || (ks[0] != k && Before(ks[1..], p, k)))
  }

  /** `Before` in terms of positions. */
  lemma {:induction false} BeforeMeans(ks: seq<string>, p: string, k: string)
    ensures Before(ks, p, k) <==> exists i :: 0 <= i < |ks| && ks[i] == p && k !in ks[..i]
  {
    if ks == [] {
    } else if ks[0] == p {
      assert ks[0] == p && k !in ks[..0];
    } else {
      BeforeMeans(ks[1..], p, k);
      if Before(ks, p, k) {
        var i :| 0 <= i < |ks[1..]| && ks[1..][i] == p && k !in ks[1..][..i];
        assert ks[i + 1] == p && ks[..i + 1] == [ks[0]] + ks[1..][..i];
      }
      if i :| 0 <= i < |ks| && ks[i] == p && k !in ks[..i] {
        assert ks[..i] == [ks[0]] + ks[1..][..i - 1] && ks[1..][i - 1] == p;
      }
    }
  }

  lemma {:induction false} BeforeInSplit(ks: seq<string>, r: string, p: string, k: string)
    ensures Less(p, r) && Less(k, r) ==> Before(Below(ks, r), p, k) == Before(ks, p, k)
    ensures Less(r, p) && Less(r, k) ==> Before(Above(ks, r), p, k) == Before(ks, p, k)
  {
    if ks == [] {
    } else {
      BeforeInSplit(ks[1..], r, p, k);
      if Less(ks[0], r) {
        assert Below(ks, r)[1..] == Below(ks[1..], r);
      } else {
        assert Below(ks, r) == Below(ks[1..], r);
      }
      if Less(r, ks[0]) {
        assert Above(ks, r)[1..] == Above(ks[1..], r);
      } else {
        assert Above(ks, r) == Above(ks[1..], r);
      }
    }
  }

  /** `p` was inserted first among the keys from `p` to `c`. */
  predicate FirstBetween(ks: seq<string>, p: string, c: string) {
    forall k :: k in ks && Between(p, k, c) ==> Before(ks, p, k)
  }

  /** An offset lies in the subtree of another exactly when that other was inserted first
      among all keys between the two. */
  lemma {:induction false} SubtreeIff(ks: seq<string>, p: string, c: string)
    requires p in ks && c in ks
    ensures c in Keys(Sub(Build(ks), p)) <==> FirstBetween(ks, p, c)
    decreases |ks|
  {
    var r, rest := ks[0], ks[1..];
    assert ks == [r] + rest;
    BuildSplits(ks);
    BuildKeys(ks);
    SplitMembers(rest, r);
    Trichotomy(p, r);
    Trichotomy(c, r);
    if p == r {
    } else if Less(p, r) && Less(c, r) {
      assert Sub(Build(ks), p) == Sub(Build(Below(rest, r)), p);
      SubtreeIff(Below(rest, r), p, c);
      SameSideBelow(ks, p, c);
    } else if Less(r, p) && Less(r, c) {
      Trichotomy(r, p);
      assert Sub(Build(ks), p) == Sub(Build(Above(rest, r)), p);
      SubtreeIff(Above(rest, r), p, c);
      SameSideAbove(ks, p, c);
    } else {
      // the root separates them, and comes first
      assert Between(p, r, c);
      assert !Before(ks, p, r);
      BuildKeys(Below(rest, r));
      BuildKeys(Above(rest, r));
      SubKeys(Build(Below(rest, r)), p);
      SubKeys(Build(Above(rest, r)), p);
    }
  }

  lemma SubKeys(t: Tree, p: string)
    ensures Keys(Sub(t, p)) <= Keys(t)
  {
  }

  lemma SameSideBelow(ks: seq<string>, p: string, c: string)
    requires ks != [] && Less(p, ks[0]) && Less(c, ks[0])
    ensures FirstBetween(Below(ks[1..], ks[0]), p, c) <==> FirstBetween(ks, p, c)
  {
    var r, rest := ks[0], ks[1..];
    assert ks == [r] + rest;
    SplitMembers(rest, r);
    Trichotomy(p, r);
    forall k | Between(p, k, c)
      ensures Less(k, r) && Before(Below(rest, r), p, k) == Before(ks, p, k)
    {
      BetweenBelow(p, k, c, r);
      BeforeInSplit(rest, r, p, k);
      Trichotomy(k, r);
    }
  }

  lemma BetweenBelow(p: string, k: string, c: string, r: string)
    requires Between(p, k, c) && Less(p, r) && Less(c, r)
    ensures Less(k, r)
  {
    Trichotomy(k, c);
    Trichotomy(k, p);
    if Less(k, c) { LessTrans(k, c, r); }
    if Less(k, p) { LessTrans(k, p, r); }
  }

  lemma SameSideAbove(ks: seq<string>, p: string, c: string)
    requires ks != [] && Less(ks[0], p) && Less(ks[0], c)
    ensures FirstBetween(Above(ks[1..], ks[0]), p, c) <==> FirstBetween(ks, p, c)
  {
    var r, rest := ks[0], ks[1..];
    assert ks == [r] + rest;
    SplitMembers(rest, r);
    Trichotomy(r, p);
    forall k | Between(p, k, c)
      ensures Less(r, k) && Before(Above(rest, r), p, k) == Before(ks, p, k)
    {
      BetweenAbove(p, k, c, r);
      BeforeInSplit(rest, r, p, k);
      Trichotomy(r, k);
    }
  }

  lemma BetweenAbove(p: string, k: string, c: string, r: string)
    requires Between(p, k, c) && Less(r, p) && Less(r, c)
    ensures Less(r, k)
  {
    Trichotomy(k, c);
    Trichotomy(k, p);
    if Less(c, k) { LessTrans(r, c, k); }
    if Less(p, k) { LessTrans(r, p, k); }
  }

  // ----- subtrees and their order

  predicate Ordered(t: Tree) {
    t.Leaf? ||
    (&& Ordered(t.left) && Ordered(t.right)
     && (forall k :: k in Keys(t.left) ==> Less(k, t.key))
     && (forall k :: k in Keys(t.right) ==> Less(t.key, k)))
  }

  lemma {:induction false} BuildOrdered(ks: seq<string>)
    ensures Ordered(Build(ks))
    decreases |ks|
  {
    if ks == [] {
    } else {
      BuildSplits(ks);
      SplitMembers(ks[1..], ks[0]);
      var b, a := Below(ks[1..], ks[0]), Above(ks[1..], ks[0]);
      BuildOrdered(b);
      BuildOrdered(a);
      BuildKeys(b);
      BuildKeys(a);
    }
  }

  lemma {:induction false} SubOrdered(t: Tree, p: string)
    requires Ordered(t)
    ensures Ordered(Sub(t, p))
    ensures p in Keys(t) ==> Sub(t, p).Node? && Sub(t, p).key == p
    ensures p !in Keys(t) ==> Sub(t, p) == Leaf
  {
    if t.Leaf? {
    } else {
      SubOrdered(t.left, p);
      SubOrdered(t.right, p);
      Trichotomy(p, t.key);
    }
  }
}
