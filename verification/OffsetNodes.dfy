/** The offset tree as the source stores it: child links and parents inside the map entries
    themselves (lib/mounts.c, tree_add_node, tree_mapent_add_node,
    tree_mapent_traverse_subtree), proved to follow the trees of `OffsetTree`.
 */
module OffsetNodes {
  import opened Options
  import opened PathOrder
  import opened OffsetTree
  import opened OffsetWalk
  import opened OffsetUmount

  class Mapent {
    const key: string
    var left: Mapent?
    var right: Mapent?
    var mmRoot: Mapent?
    var mmParent: Mapent?

    constructor (key: string)
      ensures this.key == key && left == null && right == null && mmRoot == null && mmParent == null
    {
      this.key := key;
      left, right, mmRoot, mmParent := null, null, null, null;
    }
  }

  predicate UniqueKeys(s: set<Mapent>) {
    forall n, m :: n in s && m in s && n.key == m.key ==> n == m
  }

  type Links = map<Mapent, Mapent?>

  function SetLink(l: Links, n: Mapent, to: Mapent?): Links {
    l[n := to]
  }

  ghost function Lefts(s: set<Mapent>): Links
    reads s
  {
    map n | n in s :: n.left
  }

  ghost function Rights(s: set<Mapent>): Links
    reads s
  {
    map n | n in s :: n.right
  }

  /** The child links `l` and `r`, followed from `n`, spell out the tree `t`. */
  predicate Spells(n: Mapent?, t: Tree, l: Links, r: Links) {
    match t
    case Leaf => n == null
    case Node(tl, k, tr) =>
      && n != null && n in l && n in r && n.key == k
      && Spells(l[n], tl, l, r) && Spells(r[n], tr, l, r)
  }

  ghost predicate Rep(n: Mapent?, t: Tree, s: set<Mapent>)
    reads s
  {
    Spells(n, t, Lefts(s), Rights(s))
  }

  predicate Distinct(t: Tree) {
    t.Leaf? || (&& t.key !in Keys(t.left) && t.key !in Keys(t.right)
                && Keys(t.left) !! Keys(t.right) && Distinct(t.left) && Distinct(t.right))
  }

  /** Where the search for `k` ends: the last node passed and the comparison there. */
  datatype Slot = Slot(at: string, eq: int)

  function Dest(cmp: (string, string) -> int, t: Tree, k: string): (d: Slot)
    requires t.Node?
    ensures d.at in Keys(t)
  {
    var eq := cmp(t.key, k);
    if eq < 0 && t.left.Node? then Dest(cmp, t.left, k)
    else if eq > 0 && t.right.Node? then Dest(cmp, t.right, k)
    else Slot(t.key, eq)
  }

  lemma FoundUnchanged(cmp: (string, string) -> int, t: Tree, k: string)
    requires t.Node? && Dest(cmp, t, k).eq == 0
    ensures Insert(cmp, t, k) == t
  {
  }

  predicate Agree(l: Links, l': Links, keys: set<string>) {
    forall n :: n in l && n.key in keys ==> n in l' && l'[n] == l[n]
  }

  lemma {:induction false} SpellsFrame(n: Mapent?, t: Tree, l: Links, r: Links, l': Links, r': Links)
    requires Spells(n, t, l, r) && Agree(l, l', Keys(t)) && Agree(r, r', Keys(t))
    ensures Spells(n, t, l', r')
  {
    if t.Leaf? {
    } else {
      SpellsFrame(l[n], t.left, l, r, l', r');
      SpellsFrame(r[n], t.right, l, r, l', r');
    }
  }

  /** Writing one child link at the end of the search inserts the key. */
  lemma {:induction false} SpellsInsert(cmp: (string, string) -> int, n: Mapent, t: Tree, l: Links, r: Links,
                     p: Mapent, me: Mapent, l': Links, r': Links)
    requires Spells(n, t, l, r) && UniqueKeys(l.Keys) && Distinct(t) && t.Node?
    requires p in l && p in r && me.key !in Keys(t)
    requires p.key == Dest(cmp, t, me.key).at && Dest(cmp, t, me.key).eq != 0
    requires if Dest(cmp, t, me.key).eq < 0
             then l' == SetLink(SetLink(l, me, null), p, me) && r' == SetLink(r, me, null)
             else l' == SetLink(l, me, null) && r' == SetLink(SetLink(r, me, null), p, me)
    ensures Spells(n, Insert(cmp, t, me.key), l', r')
  {
    var eq := cmp(t.key, me.key);
    if eq < 0 && t.left.Node? {
      SpellsInsert(cmp, l[n], t.left, l, r, p, me, l', r');
      SpellsFrame(r[n], t.right, l, r, l', r');
    } else if eq > 0 && t.right.Node? {
      SpellsInsert(cmp, r[n], t.right, l, r, p, me, l', r');
      SpellsFrame(l[n], t.left, l, r, l', r');
    } else {
      assert p == n;
      SpellsFrame(l[n], t.left, l, r, l', r');
      SpellsFrame(r[n], t.right, l, r, l', r');
    }
  }

  /** The search loop of tree_add_node */
  method FindSlot(cmp: (string, string) -> int, root: Mapent, me: Mapent, ghost t: Tree, ghost s: set<Mapent>)
    returns (p: Mapent, eq: int)
    requires t.Node? && Rep(root, t, s)
    ensures p in s && Dest(cmp, t, me.key) == Slot(p.key, eq)
  {
    var q: Mapent? := root;
    p, eq := root, 0;
    ghost var cur := t;
    while q != null
      invariant q != null ==> Rep(q, cur, s) && cur.Node? && Dest(cmp, cur, me.key) == Dest(cmp, t, me.key)
      invariant q == null ==> p in s && Dest(cmp, t, me.key) == Slot(p.key, eq)
      decreases if q == null then 0 else 1 + Size(cur)
    {
      p := q;
      eq := cmp(p.key, me.key);
      if eq == 0 {
        return;
      }
      if eq < 0 {
        q := p.left;
        cur := cur.left;
      } else {
        q := p.right;
        cur := cur.right;
      }
    }
  }

  /** tree_add_left */
  method TreeAddLeft(n: Mapent, me: Mapent, ghost s: set<Mapent>)
    requires n in s && me in s
    modifies n`left, me`left, me`right
    ensures Lefts(s) == SetLink(SetLink(old(Lefts(s)), me, null), n, me)
    ensures Rights(s) == SetLink(old(Rights(s)), me, null)
  {
    me.left, me.right := null, null;
    n.left := me;
  }

  /** tree_add_right */
  method TreeAddRight(n: Mapent, me: Mapent, ghost s: set<Mapent>)
    requires n in s && me in s
    modifies n`right, me`left, me`right
    ensures Lefts(s) == SetLink(old(Lefts(s)), me, null)
    ensures Rights(s) == SetLink(SetLink(old(Rights(s)), me, null), n, me)
  {
    me.left, me.right := null, null;
    n.right := me;
  }

  /** tree_add_node */
  method TreeAddNode(cmp: (string, string) -> int, root: Mapent, me: Mapent, ghost t: Tree, ghost s: set<Mapent>)
    returns (at: Mapent)
    requires t.Node? && Rep(root, t, s) && UniqueKeys(s) && Distinct(t) && me in s
    requires me.key !in Keys(t) || Dest(cmp, t, me.key).eq == 0
    modifies s`left, s`right
    ensures Rep(root, Insert(cmp, t, me.key), s)
    ensures at in s && (Dest(cmp, t, me.key).eq != 0 ==> at == me)
  {
    var p, eq := FindSlot(cmp, root, me, t, s);
    if eq == 0 {
      FoundUnchanged(cmp, t, me.key);
      return p;
    }
    ghost var l, r := Lefts(s), Rights(s);
    if eq < 0 {
      TreeAddLeft(p, me, s);
    } else {
      TreeAddRight(p, me, s);
    }
    SpellsInsert(cmp, root, t, l, r, p, me, Lefts(s), Rights(s));
    return me;
  }

  // ----- parents

  ghost predicate Parented(s: set<Mapent>, root: Mapent, cached: set<string>, t: Tree)
    reads s
  {
    forall n :: n in s && n.key in Keys(t) && n != root ==>
      && n.mmRoot == root && n.mmParent != null && n.mmParent in s
      && n.mmParent.key == MmParent(root.key, cached, n.key)
  }

  /** tree_mapent_add_node: insert, then set the owner and the parent.  `find` is the cache
      lookup that cache_get_offset_parent ends with. */
  method TreeMapentAddNode(root: Mapent, me: Mapent, find: map<string, Mapent>, ghost t: Tree, ghost s: set<Mapent>)
    requires t.Node? && Rep(root, t, s) && UniqueKeys(s) && Ordered(t) && me in s && root in s && me != root
    requires me.key != [] && me.key[0] == '/'
    requires forall k :: k in find ==> find[k] in s && find[k].key == k
    requires Parented(s, root, find.Keys, t) && t.key == root.key
    modifies s
    ensures Rep(root, Insert(MapentCmp, t, me.key), s)
    ensures Ordered(Insert(MapentCmp, t, me.key))
    ensures Parented(s, root, find.Keys, Insert(MapentCmp, t, me.key))
  {
    AddToTree(root, me, t, s);
    ghost var l, r := Lefts(s), Rights(s);
    SetOwnerAndParent(root, me, find, s);
    assert Lefts(s) == l && Rights(s) == r;
  }

  /** The insertion, in the order of the offset keys. */
  method AddToTree(root: Mapent, me: Mapent, ghost t: Tree, ghost s: set<Mapent>)
    requires t.Node? && Rep(root, t, s) && UniqueKeys(s) && Ordered(t) && me in s
    modifies s`left, s`right
    ensures Rep(root, Insert(MapentCmp, t, me.key), s)
    ensures Ordered(Insert(MapentCmp, t, me.key))
    ensures Keys(Insert(MapentCmp, t, me.key)) == Keys(t) + {me.key}
  {
    OrderedDistinct(t);
    InsertKeeps(t, me.key);
    if me.key in Keys(t) {
      DestFinds(t, me.key);
    }
    var _ := TreeAddNode(MapentCmp, root, me, t, s);
  }

  method SetOwnerAndParent(root: Mapent, me: Mapent, find: map<string, Mapent>, ghost s: set<Mapent>)
    requires me in s && root in s && me.key != [] && me.key[0] == '/'
    requires forall k :: k in find ==> find[k] in s && find[k].key == k
    modifies me`mmRoot, me`mmParent
    ensures me.mmRoot == root && me.mmParent != null && me.mmParent in s
    ensures me.mmParent.key == MmParent(root.key, find.Keys, me.key)
  {
    me.mmRoot := root;
    var parent := GetOffsetParent(find.Keys, me.key);
    match parent {
      case None => me.mmParent := root;
      case Some(p) =>
        assert p in find by {
          if me.key[|me.key| - 1] != '/' {
            OffsetParentIsNearest(find.Keys, me.key, p);
          }
        }
        me.mmParent := find[p];
    }
  }

  lemma OrderedDistinct(t: Tree)
    requires Ordered(t)
    ensures Distinct(t)
  {
    if t.Node? {
      Trichotomy(t.key, t.key);
      forall k | k in Keys(t.left) && k in Keys(t.right) ensures false {
        Trichotomy(k, t.key);
      }
    }
  }

  lemma {:induction false} InsertKeeps(t: Tree, k: string)
    requires Ordered(t)
    ensures Ordered(Insert(MapentCmp, t, k))
    ensures Keys(Insert(MapentCmp, t, k)) == Keys(t) + {k}
  {
    if t.Leaf? {
    } else {
      MapentCmpIsStrCmp(t.key, k);
      CmpZero(k, t.key);
      CmpFlip(k, t.key);
      InsertKeeps(t.left, k);
      InsertKeeps(t.right, k);
    }
  }

  lemma {:induction false} DestFinds(t: Tree, k: string)
    requires Ordered(t) && t.Node? && k in Keys(t)
    ensures Dest(MapentCmp, t, k) == Slot(k, 0)
  {
    MapentCmpIsStrCmp(t.key, k);
    CmpZero(k, t.key);
    Trichotomy(k, t.key);
    CmpFlip(k, t.key);
    if k in Keys(t.left) {
      DestFinds(t.left, k);
    } else if k in Keys(t.right) {
      DestFinds(t.right, k);
    }
  }

  // ----- walking the links

  /** tree_mapent_is_root */
  predicate IsTopNode(oe: Mapent, root: Mapent)
  {
    (oe.key != [] && oe.key[|oe.key| - 1] == '/') || oe == root
  }

  /** What the walking methods rely on. */
  ghost predicate Walkable(n: Mapent?, t: Tree, s: set<Mapent>, root: Mapent, base: Mapent, v: Env)
    reads s
  {
    && Rep(n, t, s) && UniqueKeys(s) && root in s && base in s
    && Parented(s, root, v.cached, t) && v.root == root.key
  }

  /** tree_mapent_traverse_subtree(n, tree_mapent_umount_offsets_work, ctxt) with strict set */
  method TraverseSubtree(n: Mapent, root: Mapent, base: Mapent, v: Env, ghost t: Tree, ghost s: set<Mapent>)
    returns (ret: int, log: seq<Attempt>)
    requires t.Node? && Walkable(n, t, s, root, base, v)
    ensures Result(ret, log) == Traverse(v, t, base.key)
    decreases Size(t), if WorksOn(v, base.key, t.key) then 2 else 0
  {
    ret, log := -1, [];
    assert Rep(n.left, t.left, s) && Rep(n.right, t.right, s);
    assert Keys(t.left) <= Keys(t) && Keys(t.right) <= Keys(t) && t.key in Keys(t);
    if n.left != null {
      ret, log := TraverseSubtree(n.left, root, base, v, t.left, s);
      if ret == 0 {
        return;
      }
    }
    assert (!IsTopNode(n, root) && n.mmParent == base) <==> WorksOn(v, base.key, t.key);
    if !IsTopNode(n, root) && n.mmParent == base {
      ParentShorter(v, base.key, t.key);
      var more;
      ret, more := UmountOne(n, root, v, t, s);
      log := log + more;
      if ret == 0 {
        return;
      }
    }
    if n.right != null {
      var more;
      ret, more := TraverseSubtree(n.right, root, base, v, t.right, s);
      log := log + more;
    }
  }

  /** tree_mapent_umount_offset */
  method UmountOne(oe: Mapent, root: Mapent, v: Env, ghost t: Tree, ghost s: set<Mapent>)
    returns (ret: int, log: seq<Attempt>)
    requires t.Node? && Walkable(oe, t, s, root, oe, v) && !WorksOn(v, t.key, t.key)
    ensures Result(ret, log) == UmountOffset(v, t)
    decreases Size(t), 1
  {
    ret, log := TraverseSubtree(oe, root, oe, v, t, s);
    if ret == 0 {
      return;
    }
    var o := v.outcome(oe.key);
    ret, log := if Ok(o) then ret else 0, log + [Attempt(oe.key, o)];
  }

  /** tree_mapent_traverse_subtree without strict: the offsets worked on, in order */
  method TraverseAll(n: Mapent, root: Mapent, base: Mapent, v: Env, ghost t: Tree, ghost s: set<Mapent>)
    returns (keys: seq<string>)
    requires t.Node? && Walkable(n, t, s, root, base, v)
    ensures keys == Walked(v, t, base.key)
    decreases Size(t)
  {
    assert Rep(n.left, t.left, s) && Rep(n.right, t.right, s);
    assert Keys(t.left) <= Keys(t) && Keys(t.right) <= Keys(t) && t.key in Keys(t);
    assert (!IsTopNode(n, root) && n.mmParent == base) <==> WorksOn(v, base.key, t.key);
    var before, after := [], [];
    if n.left != null {
      before := TraverseAll(n.left, root, base, v, t.left, s);
    }
    var here := if !IsTopNode(n, root) && n.mmParent == base then [n.key] else [];
    if n.right != null {
      after := TraverseAll(n.right, root, base, v, t.right, s);
    }
    assert before == Walked(v, t.left, base.key) && after == Walked(v, t.right, base.key);
    assert Walked(v, t, base.key)
        == Walked(v, t.left, base.key) + (if WorksOn(v, base.key, t.key) then [t.key] else [])
           + Walked(v, t.right, base.key);
    keys := before + here + after;
  }

  /** tree_mapent_umount_offsets on the owner */
  method UmountMulti(root: Mapent, v: Env, o: OwnerEnd, ghost t: Tree, ghost s: set<Mapent>)
    returns (ret: int, log: seq<Attempt>, steps: seq<OwnerStep>)
    requires t.Node? && Walkable(root, t, s, root, root, v)
    ensures (Result(ret, log), steps) == UmountOffsets(v, t, o)
  {
    ret, log := TraverseSubtree(root, root, root, v, t, s);
    if ret == 0 {
      return ret, log, [];
    }
    if o.PathTooLong? {
      return 0, log, [];
    }
    if o.NotMounted? {
      return ret, log, [RecordRemoved];
    }
    if o.Umounts? {
      return ret, log, [OwnerUmount(true), RecordRemoved];
    }
    var keys := TraverseAll(root, root, root, v, t, s);
    return 0, log, [OwnerUmount(false), Remount(keys)];
  }
}
