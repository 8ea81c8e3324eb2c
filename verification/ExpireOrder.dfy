/** The order in which mounts are expired (lib/mounts.c, tree_mnt_cmp, tree_traverse_inorder,
    mnts_get_expire_list).

    The mounts of a point are put into a search tree by path length and read back, in order,
    by adding each at the front of the expire list.
 */
module ExpireOrder {
  import opened OffsetTree

  /** tree_mnt_cmp: not an order, since two different paths of one length are each greater
      than the other */
  function MntCmp(n: string, mp: string): int {
    if mp == n then 0 else if |mp| < |n| then -1 else 1
  }

  predicate EndsInSlash(mp: string) {
    mp != [] && mp[|mp| - 1] == '/'
  }

  /** tree_mnt_expire_list_work: add at the front, but not the root offset of a multi-mount */
  function Work(list: seq<string>, mp: string): seq<string> {
    if EndsInSlash(mp) then list else [mp] + list
  }

  /** tree_traverse_inorder with that work function, which never stops the walk */
  function TraverseInorder(t: Tree, list: seq<string>): seq<string> {
    match t
    case Leaf => list
    case Node(l, mp, r) => TraverseInorder(r, Work(TraverseInorder(l, list), mp))
  }

  function ExpireTree(mps: seq<string>): Tree {
    InsertAll(MntCmp, Leaf, mps)
  }

  /** mnts_get_expire_list: from the paths of a point's mounts to its expire list */
  function ExpireList(mps: seq<string>): seq<string> {
    TraverseInorder(ExpireTree(mps), [])
  }

  // ----- the tree is ordered by length, so a search for a path it holds finds it

  predicate ByLength(t: Tree) {
    t.Leaf? ||
    (&& ByLength(t.left) && ByLength(t.right)
     && (forall k :: k in Keys(t.left) ==> |k| < |t.key|)
     && (forall k :: k in Keys(t.right) ==> |t.key| <= |k| && k != t.key))
  }

  lemma {:induction false} InsertByLength(t: Tree, mp: string)
    requires ByLength(t)
    ensures ByLength(Insert(MntCmp, t, mp)) && Keys(Insert(MntCmp, t, mp)) == Keys(t) + {mp}
    ensures mp in Keys(t) ==> Insert(MntCmp, t, mp) == t
  {
    if t.Leaf? || MntCmp(t.key, mp) == 0 {
    } else if MntCmp(t.key, mp) < 0 {
      InsertByLength(t.left, mp);
    } else {
      InsertByLength(t.right, mp);
    }
  }

  lemma {:induction false} InsertAllByLength(t: Tree, mps: seq<string>)
    requires ByLength(t)
    ensures ByLength(InsertAll(MntCmp, t, mps))
    ensures forall k :: k in Keys(InsertAll(MntCmp, t, mps)) <==> k in Keys(t) || k in mps
    decreases |mps|
  {
    if mps == [] {
    } else {
      var t', rest := Insert(MntCmp, t, mps[0]), mps[1..];
      InsertByLength(t, mps[0]);
      InsertAllByLength(t', rest);
      var r := InsertAll(MntCmp, t', rest);
      assert r == InsertAll(MntCmp, t, mps);
      forall k ensures k in Keys(r) <==> k in Keys(t) || k in mps {
        assert k in mps <==> k == mps[0] || k in rest;
      }
    }
  }

  // ----- what the walk leaves in the list

  predicate LongestFirst(list: seq<string>) {
    forall i, j :: 0 <= i < j < |list| ==> |list[i]| >= |list[j]| && list[i] != list[j]
  }

  /** Every path in `list` is no longer than those of the tree, and none is in the tree. */
  predicate Shorter(list: seq<string>, t: Tree) {
    forall l, k :: l in list && k in Keys(t) ==> |l| <= |k| && l != k
  }

  lemma WorkOrdered(list: seq<string>, mp: string)
    requires LongestFirst(list) && forall l :: l in list ==> |l| <= |mp| && l != mp
    ensures LongestFirst(Work(list, mp))
    ensures forall k :: k in Work(list, mp) <==> k in list || (k == mp && !EndsInSlash(mp))
  {
  }

  lemma {:induction false} WalkOrdered(t: Tree, list: seq<string>)
    requires ByLength(t) && LongestFirst(list) && Shorter(list, t)
    ensures LongestFirst(TraverseInorder(t, list))
    ensures forall k :: k in TraverseInorder(t, list) <==> k in list || (k in Keys(t) && !EndsInSlash(k))
  {
    if t.Leaf? {
    } else {
      WalkOrdered(t.left, list);
      var l1 := TraverseInorder(t.left, list);
      WorkOrdered(l1, t.key);
      WalkOrdered(t.right, Work(l1, t.key));
    }
  }

  /** The path of a mount inside the mount at `outer`. */
  predicate Inside(inner: string, outer: string) {
    |outer| < |inner| && inner[..|outer|] == outer && inner[|outer|] == '/'
  }

  predicate NestedFirst(list: seq<string>) {
    forall i, j :: 0 <= i < |list| && 0 <= j < |list| && Inside(list[i], list[j]) ==> i < j
  }

  predicate Once(list: seq<string>, mp: string) {
    exists i :: 0 <= i < |list| && list[i] == mp && forall j :: 0 <= j < |list| && list[j] == mp ==> j == i
  }

  /** The expire list holds each path of the point exactly once, unless it ends in a slash,
      and puts every nested mount before the mounts that contain it. */
  lemma ExpireListIs(mps: seq<string>)
    ensures forall mp :: mp in ExpireList(mps) <==> mp in mps && !EndsInSlash(mp)
    ensures forall mp :: mp in ExpireList(mps) ==> Once(ExpireList(mps), mp)
    ensures LongestFirst(ExpireList(mps))
    ensures NestedFirst(ExpireList(mps))
  {
    InsertAllByLength(Leaf, mps);
    WalkOrdered(ExpireTree(mps), []);
    var e := ExpireList(mps);
    forall mp | mp in e ensures Once(e, mp) {
      var i :| 0 <= i < |e| && e[i] == mp;
      assert forall j :: 0 <= j < |e| && e[j] == mp ==> j == i;
    }
  }

  /** Taking a path twice changes nothing. */
  lemma RepeatedMountChangesNothing(mps: seq<string>, mp: string)
    requires mp in mps
    ensures ExpireList(mps + [mp]) == ExpireList(mps)
  {
    InsertAllAppend(Leaf, mps, mp);
    InsertAllByLength(Leaf, mps);
    InsertByLength(ExpireTree(mps), mp);
  }

  lemma {:induction false} InsertAllAppend(t: Tree, mps: seq<string>, mp: string)
    ensures InsertAll(MntCmp, t, mps + [mp]) == Insert(MntCmp, InsertAll(MntCmp, t, mps), mp)
    decreases |mps|
  {
    if mps == [] {
      assert [mp][1..] == [];
    } else {
      assert (mps + [mp])[1..] == mps[1..] + [mp];
      InsertAllAppend(Insert(MntCmp, t, mps[0]), mps[1..], mp);
    }
  }
}
