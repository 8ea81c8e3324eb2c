/** Deleting the offsets of a multi-mount (lib/mounts.c, tree_mapent_delete_offset_tree):
    a post-order walk that deletes each offset from the cache and then unlinks it.
 */
module OffsetDelete {
  import opened PathOrder
  import opened OffsetTree
  import opened OffsetWalk
  import opened CacheTable

  // ----- removing keys from a cache whose keys are unique

  function Keep(chain: seq<Ent>, gone: set<string>): seq<Ent> {
    if chain == [] then []
    else if chain[0].key in gone then Keep(chain[1..], gone)
    else [chain[0]] + Keep(chain[1..], gone)
  }

  /** The cache without the entries of the keys in `gone`, the others in their old order. */
  function KeepTable(t: Table, gone: set<string>): (r: Table)
    ensures |r.buckets| == |t.buckets| && r.code == t.code
    ensures forall b :: 0 <= b < |t.buckets| ==> r.buckets[b] == Keep(t.buckets[b], gone)
  {
    t.(buckets := seq(|t.buckets|, b requires 0 <= b < |t.buckets| => Keep(t.buckets[b], gone)))
  }

  function MarkChain(chain: seq<Ent>, key: string, mm: Multi): (r: seq<Ent>)
    ensures |r| == |chain|
    ensures forall i :: 0 <= i < |r| ==> r[i] == if chain[i].key == key then chain[i].(mm := mm) else chain[i]
  {
    seq(|chain|, i requires 0 <= i < |chain| =>
      if chain[i].key == key then chain[i].(mm := mm) else chain[i])
  }

  /** MAPENT_SET_ROOT on the entry of `key` */
  function Mark(t: Table, key: string, mm: Multi): Table
    requires t.buckets != []
  {
    SetChain(t, key, MarkChain(Chain(t, key), key, mm))
  }

  lemma {:induction false} KeepMembers(chain: seq<Ent>, gone: set<string>)
    ensures forall i :: 0 <= i < |Keep(chain, gone)| ==>
              Keep(chain, gone)[i] in chain && Keep(chain, gone)[i].key !in gone
    ensures UniqueIn(chain) ==> UniqueIn(Keep(chain, gone))
  {
    if chain == [] {
    } else {
      KeepMembers(chain[1..], gone);
      var rest := Keep(chain[1..], gone);
      forall i | 0 <= i < |rest| ensures rest[i] in chain && (UniqueIn(chain) ==> rest[i].key != chain[0].key) {
        assert rest[i] in chain[1..];
        var j :| 0 <= j < |chain[1..]| && chain[1..][j] == rest[i];
        assert chain[j + 1] == rest[i];
      }
    }
  }

  lemma {:induction false} KeepTwice(chain: seq<Ent>, a: set<string>, b: set<string>)
    ensures Keep(Keep(chain, a), b) == Keep(chain, a + b)
  {
    if chain == [] {
    } else {
      KeepTwice(chain[1..], a, b);
      if chain[0].key !in a {
        assert Keep(chain, a)[1..] == Keep(chain[1..], a);
      }
    }
  }

  lemma KeepTableTwice(t: Table, a: set<string>, b: set<string>)
    ensures KeepTable(KeepTable(t, a), b) == KeepTable(t, a + b)
  {
    forall i | 0 <= i < |t.buckets|
      ensures KeepTable(KeepTable(t, a), b).buckets[i] == KeepTable(t, a + b).buckets[i]
    {
      KeepTwice(t.buckets[i], a, b);
    }
    assert KeepTable(KeepTable(t, a), b).buckets == KeepTable(t, a + b).buckets;
  }

  lemma KeepTableKeyed(t: Table, gone: set<string>)
    requires Placed(t) && Unique(t)
    ensures Placed(KeepTable(t, gone)) && Unique(KeepTable(t, gone))
  {
    var r := KeepTable(t, gone);
    forall b | 0 <= b < |r.buckets|
      ensures UniqueIn(r.buckets[b])
      ensures forall i :: 0 <= i < |r.buckets[b]| ==> Slot(r, r.buckets[b][i].key) == b
    {
      KeepMembers(t.buckets[b], gone);
      forall i | 0 <= i < |r.buckets[b]| ensures Slot(r, r.buckets[b][i].key) == b {
        var j :| 0 <= j < |t.buckets[b]| && t.buckets[b][j] == r.buckets[b][i];
        assert Slot(t, t.buckets[b][j].key) == b;
      }
    }
  }

  lemma {:induction false} KeepNone(chain: seq<Ent>, gone: set<string>)
    requires forall i :: 0 <= i < |chain| ==> chain[i].key !in gone
    ensures Keep(chain, gone) == chain
  {
    if chain == [] {
    } else {
      KeepNone(chain[1..], gone);
    }
  }

  lemma {:induction false} KeepIsWithout(chain: seq<Ent>, key: string, mm: Multi)
    ensures Without(MarkChain(chain, key, mm), key) == Keep(chain, {key})
  {
    if chain == [] {
    } else {
      KeepIsWithout(chain[1..], key, mm);
      assert MarkChain(chain, key, mm)[1..] == MarkChain(chain[1..], key, mm);
    }
  }

  /** Clearing an offset's owner and deleting its key removes exactly that entry. */
  lemma DeleteOffset(t: Table, key: string)
    requires Placed(t)
    ensures Delete(Mark(t, key, Single), key) == (KeepTable(t, {key}), true)
  {
    var c := Chain(t, key);
    var m := MarkChain(c, key, Single);
    DeleteFromIs(m, key);
    assert !InMulti(m, key);
    KeepIsWithout(c, key, Single);
    var t' := Delete(Mark(t, key, Single), key).0;
    forall b | 0 <= b < |t.buckets| ensures t'.buckets[b] == Keep(t.buckets[b], {key}) {
      if b != Slot(t, key) {
        forall i | 0 <= i < |t.buckets[b]| ensures t.buckets[b][i].key !in {key} {
          assert Slot(t, t.buckets[b][i].key) == b;
        }
        KeepNone(t.buckets[b], {key});
      }
    }
    assert t'.buckets == KeepTable(t, {key}).buckets;
  }

  // ----- the walk

  /** What is left of a subtree, the cache, and whether the walk succeeded. */
  datatype Result = Result(tree: Tree, cache: Table, ok: bool)

  /** tree_mapent_delete_offset_tree; `dup` says which keys strdup can copy. */
  function DeleteTree(t: Tree, root: string, c: Table, dup: string -> bool): (res: Result)
    requires c.buckets != []
    ensures |res.cache.buckets| == |c.buckets|
  {
    match t
    case Leaf => Result(Leaf, c, true)
    case Node(l, k, r) =>
      var a := DeleteTree(l, root, c, dup);
      if !a.ok then Result(Node(a.tree, k, r), a.cache, false)
      else
        var b := DeleteTree(r, root, a.cache, dup);
        if !b.ok then Result(Node(Leaf, k, b.tree), b.cache, false)
        else if k == root then Result(Node(Leaf, k, Leaf), Mark(b.cache, k, Single), true)
        else if !dup(k) then Result(Node(Leaf, k, Leaf), b.cache, false)
        else
          var (c', ok) := Delete(Mark(b.cache, k, Single), k);
          if ok then Result(Leaf, c', true)
          else Result(Node(Leaf, k, Leaf), Mark(c', k, Offset), false)
  }

  predicate AllDup(t: Tree, root: string, dup: string -> bool) {
    forall k :: k in Keys(t) && k != root ==> dup(k)
  }

  lemma AllDupParts(t: Tree, root: string, dup: string -> bool)
    requires t.Node? && root != t.key
    ensures AllDup(t, root, dup) <==> AllDup(t.left, root, dup) && AllDup(t.right, root, dup) && dup(t.key)
  {
  }

  lemma KeepNothing(c: Table)
    ensures KeepTable(c, {}) == c
  {
    forall b | 0 <= b < |c.buckets| ensures Keep(c.buckets[b], {}) == c.buckets[b] {
      KeepNone(c.buckets[b], {});
    }
    assert KeepTable(c, {}).buckets == c.buckets;
  }

  /** A subtree below the owner: the cache loses exactly the keys that left the tree, so no
      link of the remaining tree leads to a deleted entry. */
  lemma {:induction false} DeleteSubtree(t: Tree, root: string, c: Table, dup: string -> bool)
    requires Ordered(t) && root !in Keys(t) && Placed(c) && Unique(c)
    ensures var res := DeleteTree(t, root, c, dup);
            && Keys(res.tree) <= Keys(t)
            && res.cache == KeepTable(c, Keys(t) - Keys(res.tree))
            && (res.ok <==> AllDup(t, root, dup))
            && (res.ok ==> res.tree == Leaf)
            && Placed(res.cache) && Unique(res.cache)
    decreases t, 1
  {
    if t.Leaf? {
      assert Keys(t) - {} == {};
      KeepNothing(c);
    } else {
      SidesFirst(t, root, c, dup);
      AllDupParts(t, root, dup);
      var a := DeleteTree(t.left, root, c, dup);
      var b := DeleteTree(t.right, root, a.cache, dup);
      var sides := Keys(t.left) + Keys(t.right);
      if a.ok && b.ok {
        if dup(t.key) {
          TopGone(t, c);
          assert Keys(t) - {} == Keys(t);
        } else {
          Trichotomy(t.key, t.key);
          assert Keys(t) - Keys(Node(Leaf, t.key, Leaf)) == sides;
        }
      }
    }
  }

  /** With both sides gone, deleting the top leaves the cache without the whole subtree. */
  lemma TopGone(t: Tree, c: Table)
    requires t.Node? && Placed(c) && Unique(c)
    ensures var kept := KeepTable(c, Keys(t.left) + Keys(t.right));
      Delete(Mark(kept, t.key, Single), t.key) == (KeepTable(c, Keys(t)), true)
    ensures Placed(KeepTable(c, Keys(t))) && Unique(KeepTable(c, Keys(t)))
  {
    var sides := Keys(t.left) + Keys(t.right);
    KeepTableKeyed(c, sides);
    DeleteOffset(KeepTable(c, sides), t.key);
    KeepTableTwice(c, sides, {t.key});
    assert Keys(t) == sides + {t.key};
    KeepTableKeyed(c, Keys(t));
  }

  /** The two recursive calls for a node. */
  lemma {:induction false} SidesFirst(t: Tree, root: string, c: Table, dup: string -> bool)
    requires t.Node? && Ordered(t) && root !in Keys(t.left) + Keys(t.right) && Placed(c) && Unique(c)
    ensures var a := DeleteTree(t.left, root, c, dup); var b := DeleteTree(t.right, root, a.cache, dup);
            && (a.ok <==> AllDup(t.left, root, dup))
            && (!a.ok ==> && Keys(a.tree) <= Keys(t.left)
                          && a.cache == KeepTable(c, Keys(t) - Keys(Node(a.tree, t.key, t.right)))
                          && Placed(a.cache) && Unique(a.cache))
            && (a.ok ==> && a.tree == Leaf && (b.ok <==> AllDup(t.right, root, dup))
                         && Keys(b.tree) <= Keys(t.right)
                         && b.cache == KeepTable(c, Keys(t) - Keys(Node(Leaf, t.key, b.tree)))
                         && Placed(b.cache) && Unique(b.cache)
                         && (b.ok ==> b.tree == Leaf && b.cache == KeepTable(c, Keys(t.left) + Keys(t.right))))
    decreases t, 0
  {
    DeleteSubtree(t.left, root, c, dup);
    var a := DeleteTree(t.left, root, c, dup);
    DeleteSubtree(t.right, root, a.cache, dup);
    var b := DeleteTree(t.right, root, a.cache, dup);
    SidesDisjoint(t);
    if !a.ok {
      assert Keys(t) - Keys(Node(a.tree, t.key, t.right)) == Keys(t.left) - Keys(a.tree);
    } else {
      var l, r := Keys(t.left), Keys(t.right) - Keys(b.tree);
      assert Keys(t.left) - {} == l;
      KeepTableTwice(c, l, r);
      assert Keys(t) - Keys(Node(Leaf, t.key, b.tree)) == l + r;
      if b.ok {
        assert r == Keys(t.right);
      }
    }
  }

  lemma SidesDisjoint(t: Tree)
    requires t.Node? && Ordered(t)
    ensures Keys(t.left) !! Keys(t.right) && t.key !in Keys(t.left) && t.key !in Keys(t.right)
  {
    Trichotomy(t.key, t.key);
    forall k | k in Keys(t.left) && k in Keys(t.right) ensures false {
      Trichotomy(k, t.key);
    }
  }

  /** Deleting the offsets of a multi-mount.  It succeeds exactly when every offset's key can
      be copied; then the cache has lost exactly the offsets, everything else keeps its place,
      and the owner is no longer part of a multi-mount.  If it fails, the cache has lost exactly
      the keys that left the tree. */
  lemma DeleteOffsets(t: Tree, c: Table, dup: string -> bool)
    requires t.Node? && Ordered(t) && Placed(c) && Unique(c)
    ensures var res := DeleteTree(t, t.key, c, dup);
            && (res.ok <==> AllDup(t, t.key, dup))
            && (res.ok ==> && res.tree == Node(Leaf, t.key, Leaf)
                           && res.cache == Mark(KeepTable(c, Keys(t) - {t.key}), t.key, Single))
            && (!res.ok ==> && t.key in Keys(res.tree) && Keys(res.tree) <= Keys(t)
                            && res.cache == KeepTable(c, Keys(t) - Keys(res.tree)))
  {
    SidesDisjoint(t);
    SidesFirst(t, t.key, c, dup);
    assert Keys(t) - {t.key} == Keys(t.left) + Keys(t.right);
  }

  /** In terms of the entries of one key: offsets are gone, the owner is kept as a single
      entry, every other key has what it had. */
  lemma DeleteOffsetsByKey(t: Tree, c: Table, dup: string -> bool, k: string)
    requires t.Node? && Ordered(t) && Placed(c) && Unique(c) && AllDup(t, t.key, dup)
    ensures var c' := DeleteTree(t, t.key, c, dup).cache;
            KeyList(c', k) == if k == t.key then MarkChain(KeyList(c, k), k, Single)
                              else if k in Keys(t) then [] else KeyList(c, k)
  {
    DeleteOffsets(t, c, dup);
    var gone := Keys(t) - {t.key};
    OfKeep(Chain(c, k), gone, k);
    var kept := KeepTable(c, gone);
    OfMark(Chain(kept, k), t.key, k);
  }

  lemma {:induction false} OfKeep(chain: seq<Ent>, gone: set<string>, k: string)
    ensures Of(Keep(chain, gone), k) == if k in gone then [] else Of(chain, k)
  {
    if chain == [] {
    } else {
      OfKeep(chain[1..], gone, k);
      if chain[0].key !in gone {
        assert Keep(chain, gone)[1..] == Keep(chain[1..], gone);
      }
    }
  }

  lemma {:induction false} OfMark(chain: seq<Ent>, key: string, k: string)
    ensures Of(MarkChain(chain, key, Single), k) ==
              if k == key then MarkChain(Of(chain, k), k, Single) else Of(chain, k)
  {
    if chain == [] {
    } else {
      OfMark(chain[1..], key, k);
      assert MarkChain(chain, key, Single)[1..] == MarkChain(chain[1..], key, Single);
    }
  }

  // ----- tree_mapent_delete_offsets

  /** The owner of the tree that the entry of `key` heads, as the source tests it. */
  predicate OwnsTree(c: Table, key: string)
    requires c.buckets != []
  {
    var i := First(Chain(c, key), key);
    i < |Chain(c, key)| && Chain(c, key)[i].mm.Owner?
  }

  /** tree_mapent_delete_offsets: refused for a missing key and for an entry that owns no tree */
  function DeleteOffsetsOf(t: Tree, c: Table, key: string, dup: string -> bool): Result
    requires c.buckets != []
  {
    if !OwnsTree(c, key) then Result(t, c, false) else DeleteTree(t, key, c, dup)
  }

  /** It succeeds exactly for an owner all of whose offset keys can be copied.  A refusal changes
      nothing; a success leaves every other key's entries alone. */
  lemma DeleteOffsetsOfIff(t: Tree, c: Table, key: string, dup: string -> bool, k: string)
    requires t.Node? && t.key == key && Ordered(t) && Placed(c) && Unique(c)
    ensures var res := DeleteOffsetsOf(t, c, key, dup);
      && (res.ok <==> OwnsTree(c, key) && AllDup(t, key, dup))
      && (!OwnsTree(c, key) ==> res == Result(t, c, false))
      && (res.ok && k !in Keys(t) ==> KeyList(res.cache, k) == KeyList(c, k))
      && (res.ok && k in Keys(t) && k != key ==> KeyList(res.cache, k) == [])
      && (res.ok ==> !OwnsTree(res.cache, key) && Has(Chain(res.cache, key), key))
  {
    if OwnsTree(c, key) {
      DeleteOffsets(t, c, dup);
      if AllDup(t, key, dup) {
        DeleteOffsetsByKey(t, c, dup, k);
        OwnerKept(t, c, key, dup);
      }
    }
  }

  lemma OwnerKept(t: Tree, c: Table, key: string, dup: string -> bool)
    requires t.Node? && t.key == key && Ordered(t) && Placed(c) && Unique(c) && AllDup(t, key, dup)
    requires Has(Chain(c, key), key)
    ensures var c' := DeleteTree(t, key, c, dup).cache; Has(Chain(c', key), key) && !OwnsTree(c', key)
  {
    DeleteOffsetsByKey(t, c, dup, key);
    FirstOf(Chain(c, key), key);
    var c' := DeleteTree(t, key, c, dup).cache;
    FirstOf(Chain(c', key), key);
    var l := KeyList(c, key);
    assert l[0].key == key;
    assert KeyList(c', key)[0] == l[0].(mm := Single);
  }

  // ----- links to parents

  /** A node that remains keeps every node above it in the tree. */
  lemma {:induction false} RemainsBelow(t: Tree, root: string, c: Table, dup: string -> bool, x: string, p: string)
    requires Ordered(t) && c.buckets != [] && p in Keys(t) && x in Keys(Sub(t, p))
    requires x in Keys(DeleteTree(t, root, c, dup).tree)
    requires root !in Keys(t) || t.key == root
    requires Placed(c) && Unique(c)
    ensures p in Keys(DeleteTree(t, root, c, dup).tree)
  {
    var a := DeleteTree(t.left, root, c, dup);
    Trichotomy(p, t.key);
    Trichotomy(x, t.key);
    SubKeys(t.left, p);
    SubKeys(t.right, p);
    SidesDisjoint(t);
    SidesKept(t, root, c, dup);
    if p == t.key {
    } else if !a.ok {
      if p in Keys(t.left) { RemainsBelow(t.left, root, c, dup, x, p); }
    } else {
      assert p in Keys(t.right);
      RemainsBelow(t.right, root, a.cache, dup, x, p);
    }
  }

  /** What is left of the two sides is part of them, and the cache stays in order. */
  lemma SidesKept(t: Tree, root: string, c: Table, dup: string -> bool)
    requires t.Node? && Ordered(t) && Placed(c) && Unique(c) && (root !in Keys(t) || t.key == root)
    ensures var a := DeleteTree(t.left, root, c, dup); var b := DeleteTree(t.right, root, a.cache, dup);
      && Keys(a.tree) <= Keys(t.left) && Keys(b.tree) <= Keys(t.right) && (a.ok ==> a.tree == Leaf)
      && (b.ok ==> b.tree == Leaf) && Placed(a.cache) && Unique(a.cache)
      && (a.ok <==> AllDup(t.left, root, dup)) && (b.ok <==> AllDup(t.right, root, dup))
  {
    SidesDisjoint(t);
    DeleteSubtree(t.left, root, c, dup);
    DeleteSubtree(t.right, root, DeleteTree(t.left, root, c, dup).cache, dup);
  }

  /** An entry left in the tree whose parent link leads to a deleted entry. */
  predicate Dangles(ks: seq<string>, cached: set<string>, left: Tree, x: string)
    requires ks != []
  {
    && x in Keys(left) && !IsTop(ks[0], x)
    && var p := MmParent(ks[0], cached, x); p in ks && p !in Keys(left)
  }

  /** With complete walks every entry is in the part of the tree headed by its parent. */
  lemma BelowParent(ks: seq<string>, cached: set<string>, x: string)
    requires ks != [] && Complete(ks, cached) && x in ks && !IsTop(ks[0], x)
    ensures var p := MmParent(ks[0], cached, x); p in ks ==> x in Keys(Sub(Build(ks), p))
  {
    var p := MmParent(ks[0], cached, x);
    if p in ks {
      assert IsChild(ks, cached, p, x);
      WalkSelects(Sub(Build(ks), p), ks[0], cached, p);
    }
  }

  lemma LeftIsPart(t: Tree, c: Table, dup: string -> bool)
    requires t.Node? && Ordered(t) && Placed(c) && Unique(c)
    ensures Keys(DeleteTree(t, t.key, c, dup).tree) <= Keys(t)
  {
    DeleteOffsets(t, c, dup);
  }

  /** If no walk misses a child, then however the deletion of the offsets ends, no parent link of
      an entry that is left leads to a deleted one. */
  lemma CompleteLeavesNone(ks: seq<string>, cached: set<string>, c: Table, dup: string -> bool, x: string)
    requires ks != [] && Complete(ks, cached) && Placed(c) && Unique(c)
    ensures !Dangles(ks, cached, DeleteTree(Build(ks), ks[0], c, dup).tree, x)
  {
    BuildOrdered(ks);
    BuildKeys(ks);
    assert Build(ks).Node? && Build(ks).key == ks[0] by { BuildSplits(ks); }
    LeftIsPart(Build(ks), c, dup);
    var p := MmParent(ks[0], cached, x);
    if x in Keys(DeleteTree(Build(ks), ks[0], c, dup).tree) && !IsTop(ks[0], x) && p in ks {
      BelowParent(ks, cached, x);
      RemainsBelow(Build(ks), ks[0], c, dup, x, p);
    }
  }

  /** When only the key `x` cannot be copied, it is what is left below its ancestors, and every
      smaller key that is not one of them is gone. */
  lemma {:induction false} FailsAt(t: Tree, root: string, c: Table, dup: string -> bool, x: string, y: string)
    requires Ordered(t) && root !in Keys(t) && Placed(c) && Unique(c) && x in Keys(t)
    requires forall k :: dup(k) <==> k != x
    requires y in Keys(t) && Less(y, x) && x !in Keys(Sub(t, y))
    ensures var left := DeleteTree(t, root, c, dup).tree; x in Keys(left) && y !in Keys(left)
  {
    SidesKept(t, root, c, dup);
    SidesDisjoint(t);
    Trichotomy(x, t.key);
    Trichotomy(y, t.key);
    var a := DeleteTree(t.left, root, c, dup);
    if x in Keys(t.left) {
      LessTrans(y, x, t.key);
      FailsAt(t.left, root, c, dup, x, y);
    } else if x != t.key && y in Keys(t.right) {
      FailsAt(t.right, root, a.cache, dup, x, y);
    } else if x != t.key {
      LeftAt(t.right, root, a.cache, dup, x);
    }
  }

  lemma {:induction false} LeftAt(t: Tree, root: string, c: Table, dup: string -> bool, x: string)
    requires Ordered(t) && root !in Keys(t) && Placed(c) && Unique(c) && x in Keys(t) && !dup(x)
    requires forall k :: dup(k) <==> k != x
    ensures x in Keys(DeleteTree(t, root, c, dup).tree)
  {
    SidesKept(t, root, c, dup);
    SidesDisjoint(t);
    var a := DeleteTree(t.left, root, c, dup);
    if x in Keys(t.left) {
      LeftAt(t.left, root, c, dup, x);
    } else if x in Keys(t.right) {
      LeftAt(t.right, root, a.cache, dup, x);
    }
  }

  /** Otherwise it can be: a child missed by the walk from its parent, whose key cannot be copied,
      is left with a link to the deleted parent. */
  lemma MissedChildDangles(ks: seq<string>, cached: set<string>, c: Table, dup: string -> bool, p: string, x: string)
    requires ks != [] && Placed(c) && Unique(c) && p in ks && p != ks[0]
    requires IsChild(ks, cached, p, x) && !FirstBetween(ks, p, x) && forall k :: dup(k) <==> k != x
    ensures Dangles(ks, cached, DeleteTree(Build(ks), ks[0], c, dup).tree, x)
  {
    var t := Build(ks);
    BuildOrdered(ks);
    BuildKeys(ks);
    BuildSplits(ks);
    SubtreeIff(ks, p, x);
    OffsetParentIsNearest(cached, x, p);
    PrefixIsLess(p, x);
    TopFailsAt(t, ks[0], c, dup, x, p);
  }

  /** So it is for the multi-mount at /m that lists /m/a, /m/zzzz and /m/a/b. */
  lemma DanglingExample(c: Table)
    requires Placed(c) && Unique(c)
    ensures var cached := {"/m", "/m/a", "/m/zzzz", "/m/a/b"};
      var ks := ["/m"] + LinkAll(["/m/a", "/m/zzzz", "/m/a/b"]);
      Dangles(ks, cached, DeleteTree(Build(ks), "/m", c, k => k != "/m/a/b").tree, "/m/a/b")
  {
    var cached := {"/m", "/m/a", "/m/zzzz", "/m/a/b"};
    var ks := ["/m"] + LinkAll(["/m/a", "/m/zzzz", "/m/a/b"]);
    MissedExample();
    LinkThree("/m/a", "/m/zzzz", "/m/a/b");
    assert ks[0] == "/m" && ks[2] == "/m/a";
    WalkExactly(ks, cached, "/m/a", "/m/a/b");
    MissedChildDangles(ks, cached, c, k => k != "/m/a/b", "/m/a", "/m/a/b");
  }

  lemma PrefixIsLess(p: string, x: string)
    requires p <= x && p != x
    ensures Less(p, x)
  {
    CmpOfExtension(x, p);
    CmpFlip(p, x);
  }

  /** The same for the whole tree, whose top is the owner. */
  lemma TopFailsAt(t: Tree, root: string, c: Table, dup: string -> bool, x: string, y: string)
    requires t.Node? && t.key == root && Ordered(t) && Placed(c) && Unique(c)
    requires x in Keys(t) && x != root && y in Keys(t) && y != root
    requires forall k :: dup(k) <==> k != x
    requires Less(y, x) && x !in Keys(Sub(t, y))
    ensures var left := DeleteTree(t, root, c, dup).tree; x in Keys(left) && y !in Keys(left)
  {
    SidesKept(t, root, c, dup);
    SidesDisjoint(t);
    Trichotomy(x, root);
    Trichotomy(y, root);
    var a := DeleteTree(t.left, root, c, dup);
    if x in Keys(t.left) {
      LessTrans(y, x, root);
      FailsAt(t.left, root, c, dup, x, y);
    } else if y in Keys(t.right) {
      FailsAt(t.right, root, a.cache, dup, x, y);
    } else {
      LeftAt(t.right, root, a.cache, dup, x);
    }
  }

  // ----- a refused deletion

  /** An offset whose key cache_delete refuses, another entry of the key being part of a multi-mount,
      stays in the tree, is an offset again, and fails the deletion. */
  lemma RefusedStays(t: Tree, root: string, c: Table, dup: string -> bool)
    requires t.Node? && t.left.Leaf? && t.right.Leaf? && t.key != root && dup(t.key) && c.buckets != []
    requires !Delete(Mark(c, t.key, Single), t.key).1
    ensures var res := DeleteTree(t, root, c, dup);
      && !res.ok && res.tree == t
      && var i := First(Chain(res.cache, t.key), t.key);
         i < |Chain(res.cache, t.key)| ==> Chain(res.cache, t.key)[i].mm == Offset
  {
    var c' := Delete(Mark(c, t.key, Single), t.key).0;
    MarkFirst(Chain(c', t.key), t.key, Offset);
  }

  lemma {:induction false} MarkFirst(chain: seq<Ent>, key: string, mm: Multi)
    ensures First(MarkChain(chain, key, mm), key) == First(chain, key)
    ensures var i := First(chain, key); i < |chain| ==> MarkChain(chain, key, mm)[i].mm == mm
  {
    if chain == [] {
    } else if chain[0].key == key {
    } else {
      MarkFirst(chain[1..], key, mm);
      assert MarkChain(chain, key, mm)[1..] == MarkChain(chain[1..], key, mm);
    }
  }
}
