/** Unmounting the offsets of a multi-mount (lib/mounts.c, tree_mapent_umount_offsets):
    a strict walk whose work on an offset first walks the offsets nested in it.
 */
module OffsetUmount {
  import opened Options
  import opened PathOrder
  import opened OffsetTree
  import opened OffsetWalk

  /** How the attempt on one offset ends: a busy real mount, no autofs trigger to remove, a
      busy trigger, or the trigger removed. */
  datatype Outcome = RealBusy | NoTrigger | TriggerBusy | Unmounted

  predicate Ok(o: Outcome) {
    !o.RealBusy? && !o.TriggerBusy?
  }

  datatype Attempt = Attempt(key: string, outcome: Outcome)

  /** The C result of a walk (-1 when it did no work) and the attempts made. */
  datatype Result = Result(ret: int, log: seq<Attempt>)

  /** What a walk depends on besides the tree. */
  datatype Env = Env(root: string, cached: set<string>, outcome: string -> Outcome)

  predicate WorksOn(v: Env, base: string, k: string) {
    Works(v.root, v.cached, base, k)
  }

  function Walked(v: Env, t: Tree, base: string): seq<string> {
    WalkKeys(t, v.root, v.cached, base)
  }

  /** A parent other than the tree's owner has a shorter key. */
  lemma ParentShorter(v: Env, base: string, k: string)
    requires WorksOn(v, base, k)
    ensures base != k
    ensures base != v.root ==> |base| < |k|
  {
    if k != [] && k[|k| - 1] != '/' && OffsetParent(v.cached, k) == Some(base) {
      OffsetParentIsNearest(v.cached, k, base);
    }
  }

  /** tree_mapent_traverse_subtree with strict set and tree_mapent_umount_offsets_work */
  function Traverse(v: Env, t: Tree, base: string): Result
    decreases Size(t), if t.Node? && WorksOn(v, base, t.key) then 2 else 0
  {
    match t
    case Leaf => Result(-1, [])
    case Node(l, k, r) =>
      var a := if l.Leaf? then Result(-1, []) else Traverse(v, l, base);
      if a.ret == 0 then a
      else
        var b := if WorksOn(v, base, k) then
                   ParentShorter(v, base, k);
                   var u := UmountOffset(v, t); Result(u.ret, a.log + u.log)
                 else a;
        if b.ret == 0 || r.Leaf? then b
        else
          var c := Traverse(v, r, base);
          Result(c.ret, b.log + c.log)
  }

  /** tree_mapent_umount_offset on the offset at the top of `t`; a success passes on the
      result of the walk over the nested offsets */
  function UmountOffset(v: Env, t: Tree): Result
    requires t.Node? && !WorksOn(v, t.key, t.key)
    decreases Size(t), 1
  {
    var n := Traverse(v, t, t.key);
    if n.ret == 0 then n
    else Result(if Ok(v.outcome(t.key)) then n.ret else 0, n.log + [Attempt(t.key, v.outcome(t.key))])
  }

  // ----- the first failure stops the walk

  /** Every attempt but the last found no trigger or removed it; the walk fails exactly when the
      last one met a busy mount or a busy trigger. */
  predicate Stopped(res: Result) {
    && (forall i :: 0 <= i < |res.log| - 1 ==> res.log[i].outcome.NoTrigger? || res.log[i].outcome.Unmounted?)
    && (res.ret == 0 <==>
          && res.log != []
          && var last := res.log[|res.log| - 1].outcome; last.RealBusy? || last.TriggerBusy?)
  }

  lemma StopAppend(a: Result, b: Result)
    requires Stopped(a) && a.ret != 0 && Stopped(b)
    ensures Stopped(Result(b.ret, a.log + b.log))
  {
  }

  lemma {:induction false} TraverseStops(v: Env, t: Tree, base: string)
    ensures Stopped(Traverse(v, t, base))
    decreases Size(t), if t.Node? && WorksOn(v, base, t.key) then 2 else 0
  {
    if t.Leaf? {
    } else {
      TraverseStops(v, t.left, base);
      TraverseStops(v, t.right, base);
      var a := Traverse(v, t.left, base);
      var b := a;
      if a.ret != 0 && WorksOn(v, base, t.key) {
        ParentShorter(v, base, t.key);
        TraverseStops(v, t, t.key);
        var u := UmountOffset(v, t);
        assert Stopped(u);
        StopAppend(a, u);
        b := Result(u.ret, a.log + u.log);
      }
      if b.ret != 0 {
        StopAppend(b, Traverse(v, t.right, base));
      }
    }
  }

  // ----- what is attempted

  predicate InLog(log: seq<Attempt>, k: string) {
    exists i :: 0 <= i < |log| && log[i].key == k
  }

  lemma InAppend(a: seq<Attempt>, b: seq<Attempt>, k: string)
    ensures InLog(a + b, k) <==> InLog(a, k) || InLog(b, k)
  {
    if i :| 0 <= i < |a| && a[i].key == k { assert (a + b)[i].key == k; }
    if i :| 0 <= i < |b| && b[i].key == k { assert (a + b)[|a| + i].key == k; }
  }

  lemma InSingle(k: string, o: Outcome)
    ensures InLog([Attempt(k, o)], k)
  {
    assert [Attempt(k, o)][0].key == k;
  }

  /** Following parents from `x` leads to `base` before reaching the owner. */
  predicate Chain(v: Env, x: string, base: string)
    decreases |x|
  {
    && !IsTop(v.root, x)
    && var p := MmParent(v.root, v.cached, x);
       p == base || (p != v.root && |p| < |x| && Chain(v, p, base))
  }

  /** A walk from `base` attempts only offsets of the subtree nested in `base`. */
  lemma {:induction false} TraverseAttempts(v: Env, t: Tree, base: string, x: string)
    requires InLog(Traverse(v, t, base).log, x)
    ensures x in Keys(t) && exists y :: y in Walked(v, t, base) && (x == y || Chain(v, x, y))
    decreases Size(t), if t.Node? && WorksOn(v, base, t.key) then 2 else 0
  {
    if t.Leaf? {
    } else {
      var l := Traverse(v, t.left, base).log;
      var r := Traverse(v, t.right, base).log;
      if InLog(l, x) {
        TraverseAttempts(v, t.left, base, x);
        var y :| y in Walked(v, t.left, base) && (x == y || Chain(v, x, y));
        assert y in Walked(v, t, base);
      } else if InLog(r, x) {
        TraverseAttempts(v, t.right, base, x);
        var y :| y in Walked(v, t.right, base) && (x == y || Chain(v, x, y));
        assert y in Walked(v, t, base);
      } else {
        ParentShorter(v, base, t.key);
        var n := Traverse(v, t, t.key).log;
        var u := UmountOffset(v, t).log;
        assert InLog(u, x) by {
          InAppend(l, u, x);
          InAppend(l + u, r, x);
          InAppend(l, r, x);
        }
        InAppend(n, [Attempt(t.key, v.outcome(t.key))], x);
        if InLog(n, x) {
          TraverseAttempts(v, t, t.key, x);
          var y :| y in Walked(v, t, t.key) && (x == y || Chain(v, x, y));
          WalkSelects(t, v.root, v.cached, t.key);
          ChainExtends(v, x, y, t.key);
        }
        assert t.key in Walked(v, t, base);
      }
    }
  }

  lemma {:induction false} ChainExtends(v: Env, x: string, y: string, base: string)
    requires x == y || Chain(v, x, y)
    requires WorksOn(v, base, y)
    ensures Chain(v, x, base)
    decreases |x|
  {
    if x == y {
    } else {
      ParentShorter(v, MmParent(v.root, v.cached, x), x);
      if MmParent(v.root, v.cached, x) != y {
        ChainExtends(v, MmParent(v.root, v.cached, x), y, base);
      } else {
        assert y != v.root;
      }
    }
  }

  /** A walk that succeeds has attempted everything it works on. */
  lemma {:induction false} TraverseCovers(v: Env, t: Tree, base: string, c: string)
    requires Traverse(v, t, base).ret != 0 && c in Walked(v, t, base)
    ensures InLog(Traverse(v, t, base).log, c)
    decreases Size(t)
  {
    if t.Leaf? {
    } else {
      var a := Traverse(v, t.left, base);
      var u := if WorksOn(v, base, t.key) then (ParentShorter(v, base, t.key); UmountOffset(v, t).log) else [];
      var r := if t.right.Leaf? then [] else Traverse(v, t.right, base).log;
      assert Traverse(v, t, base).log == a.log + u + r;
      InAppend(a.log, u, c);
      InAppend(a.log + u, r, c);
      if c in Walked(v, t.left, base) {
        TraverseCovers(v, t.left, base, c);
      } else if c in Walked(v, t.right, base) {
        TraverseCovers(v, t.right, base, c);
      } else {
        assert c == t.key;
        var n := Traverse(v, t, t.key).log;
        InAppend(n, [Attempt(c, v.outcome(c))], c);
        InSingle(c, v.outcome(c));
      }
    }
  }

  // ----- nested offsets first

  /** Every attempt comes after attempts on all offsets a walk from it works on. */
  predicate BottomUp(v: Env, t: Tree, log: seq<Attempt>) {
    forall i, c :: 0 <= i < |log| && c in Walked(v, Sub(t, log[i].key), log[i].key) ==> InLog(log[..i], c)
  }

  lemma BottomUpAppend(v: Env, t: Tree, a: seq<Attempt>, b: seq<Attempt>)
    requires BottomUp(v, t, a) && BottomUp(v, t, b)
    ensures BottomUp(v, t, a + b)
  {
    forall i, c | 0 <= i < |a + b| && c in Walked(v, Sub(t, (a + b)[i].key), (a + b)[i].key)
      ensures InLog((a + b)[..i], c)
    {
      if i < |a| {
        assert (a + b)[..i] == a[..i];
      } else {
        assert (a + b)[..i] == a + b[..i - |a|];
        InAppend(a, b[..i - |a|], c);
      }
    }
  }

  /** A log over one side of an ordered tree is bottom-up in the whole tree. */
  lemma BottomUpWiden(v: Env, t: Tree, side: Tree, log: seq<Attempt>)
    requires t.Node? && Ordered(t) && (side == t.left || side == t.right)
    requires forall x :: InLog(log, x) ==> x in Keys(side)
    requires BottomUp(v, side, log)
    ensures BottomUp(v, t, log)
  {
    forall i, c | 0 <= i < |log| && c in Walked(v, Sub(t, log[i].key), log[i].key)
      ensures InLog(log[..i], c)
    {
      var x := log[i].key;
      assert InLog(log, x);
      Trichotomy(x, t.key);
      assert Sub(t, x) == Sub(side, x);
    }
  }

  lemma {:induction false} TraverseBottomUp(v: Env, t: Tree, base: string)
    requires Ordered(t)
    ensures BottomUp(v, t, Traverse(v, t, base).log)
    decreases Size(t), if t.Node? && WorksOn(v, base, t.key) then 2 else 0
  {
    if t.Leaf? {
    } else {
      var a := Traverse(v, t.left, base);
      SideBottomUp(v, t, t.left, base);
      var b := a.log;
      if a.ret != 0 && WorksOn(v, base, t.key) {
        ParentShorter(v, base, t.key);
        TraverseBottomUp(v, t, t.key);
        UmountBottomUp(v, t);
        BottomUpAppend(v, t, b, UmountOffset(v, t).log);
        b := b + UmountOffset(v, t).log;
      }
      SideBottomUp(v, t, t.right, base);
      BottomUpAppend(v, t, b, Traverse(v, t.right, base).log);
    }
  }

  lemma {:induction false} SideBottomUp(v: Env, t: Tree, side: Tree, base: string)
    requires t.Node? && Ordered(t) && (side == t.left || side == t.right)
    ensures BottomUp(v, t, Traverse(v, side, base).log)
    decreases Size(t), 0, 0
  {
    TraverseBottomUp(v, side, base);
    forall x | InLog(Traverse(v, side, base).log, x) ensures x in Keys(side) {
      TraverseAttempts(v, side, base, x);
    }
    BottomUpWiden(v, t, side, Traverse(v, side, base).log);
  }

  lemma UmountBottomUp(v: Env, t: Tree)
    requires t.Node? && !WorksOn(v, t.key, t.key)
    requires BottomUp(v, t, Traverse(v, t, t.key).log)
    ensures BottomUp(v, t, UmountOffset(v, t).log)
  {
    var n := Traverse(v, t, t.key);
    if n.ret != 0 {
      var log := UmountOffset(v, t).log;
      forall i, c | 0 <= i < |log| && c in Walked(v, Sub(t, log[i].key), log[i].key)
        ensures InLog(log[..i], c)
      {
        if i < |n.log| {
          assert log[..i] == n.log[..i];
        } else {
          assert log[..i] == n.log;
          TraverseCovers(v, t, t.key, c);
        }
      }
    }
  }

  // ----- each offset once

  predicate Once(log: seq<Attempt>) {
    forall i, j :: 0 <= i < j < |log| ==> log[i].key != log[j].key
  }

  lemma OnceAppend(a: seq<Attempt>, b: seq<Attempt>)
    requires Once(a) && Once(b) && forall x :: InLog(a, x) ==> !InLog(b, x)
    ensures Once(a + b)
  {
    forall i, j | 0 <= i < |a| && 0 <= j < |b| ensures a[i].key != b[j].key {
      assert InLog(a, a[i].key) && InLog(b, b[j].key);
    }
  }

  /** Two offsets with the same parent are not nested in each other, and share no nested offset. */
  lemma {:induction false} SiblingsDisjoint(v: Env, base: string, y: string, z: string, x: string)
    requires WorksOn(v, base, y) && WorksOn(v, base, z)
    requires (x == y || Chain(v, x, y)) && (x == z || Chain(v, x, z))
    ensures y == z
    decreases |x|
  {
    if x == y || x == z {
      if y != z {
        NoChainBack(v, base, if x == y then y else z, if x == y then z else y);
      }
    } else {
      var p := MmParent(v.root, v.cached, x);
      if p == y || p == z {
        if y != z {
          NoChainBack(v, base, if p == y then y else z, if p == y then z else y);
        }
      } else {
        SiblingsDisjoint(v, base, y, z, p);
      }
    }
  }

  lemma NoChainBack(v: Env, base: string, y: string, z: string)
    requires WorksOn(v, base, y) && WorksOn(v, base, z) && y != z
    ensures !Chain(v, y, z)
  {
    if Chain(v, y, z) {
      ParentShorter(v, base, z);
      if base != v.root && base != z {
        ChainShorter(v, base, z);
      }
    }
  }

  lemma {:induction false} ChainShorter(v: Env, x: string, y: string)
    requires Chain(v, x, y) && y != v.root
    ensures |y| < |x|
    decreases |x|
  {
    var p := MmParent(v.root, v.cached, x);
    ParentShorter(v, p, x);
    if p == y {
    } else {
      ChainShorter(v, p, y);
    }
  }

  /** The attempts of a walk over `s` and of one over `t` are disjoint when they work on
      different offsets with the same parent. */
  lemma WalksDisjoint(v: Env, base: string, y: string, t: Tree, x: string)
    requires WorksOn(v, base, y) && (x == y || Chain(v, x, y))
    requires InLog(Traverse(v, t, base).log, x)
    ensures y in Keys(t)
  {
    TraverseAttempts(v, t, base, x);
    var z :| z in Walked(v, t, base) && (x == z || Chain(v, x, z));
    WalkSelects(t, v.root, v.cached, base);
    SiblingsDisjoint(v, base, y, z, x);
  }

  lemma UmountChains(v: Env, t: Tree, x: string)
    requires t.Node? && !WorksOn(v, t.key, t.key) && InLog(UmountOffset(v, t).log, x)
    ensures x == t.key || (x in Keys(t) && Chain(v, x, t.key))
  {
    var n := Traverse(v, t, t.key).log;
    InAppend(n, [Attempt(t.key, v.outcome(t.key))], x);
    if InLog(n, x) {
      TraverseAttempts(v, t, t.key, x);
      var y :| y in Walked(v, t, t.key) && (x == y || Chain(v, x, y));
      WalkSelects(t, v.root, v.cached, t.key);
      ChainExtends(v, x, y, t.key);
    }
  }

  lemma NotOwnChain(v: Env, x: string)
    requires !IsTop(v.root, x)
    ensures !Chain(v, x, x)
  {
    if Chain(v, x, x) {
      ChainShorter(v, x, x);
    }
  }

  lemma {:induction false} TraverseOnce(v: Env, t: Tree, base: string)
    requires Ordered(t)
    ensures Once(Traverse(v, t, base).log)
    decreases Size(t), if t.Node? && WorksOn(v, base, t.key) then 2 else 0
  {
    if t.Leaf? {
    } else {
      Trichotomy(t.key, t.key);
      TraverseOnce(v, t.left, base);
      TraverseOnce(v, t.right, base);
      var a := Traverse(v, t.left, base);
      var b := a.log;
      if a.ret != 0 && WorksOn(v, base, t.key) {
        ParentShorter(v, base, t.key);
        TraverseOnce(v, t, t.key);
        UmountOnce(v, t);
        LeftAndTopDisjoint(v, t, base);
        OnceAppend(b, UmountOffset(v, t).log);
        b := b + UmountOffset(v, t).log;
      }
      RightDisjoint(v, t, base);
      OnceAppend(b, Traverse(v, t.right, base).log);
    }
  }

  lemma UmountOnce(v: Env, t: Tree)
    requires t.Node? && !WorksOn(v, t.key, t.key) && !IsTop(v.root, t.key)
    requires Once(Traverse(v, t, t.key).log)
    ensures Once(UmountOffset(v, t).log)
  {
    var n := Traverse(v, t, t.key);
    if n.ret != 0 {
      forall x | InLog(n.log, x) ensures x != t.key {
        TraverseAttempts(v, t, t.key, x);
        var y :| y in Walked(v, t, t.key) && (x == y || Chain(v, x, y));
        WalkSelects(t, v.root, v.cached, t.key);
        ChainExtends(v, x, y, t.key);
        NotOwnChain(v, t.key);
      }
      OnceAppend(n.log, [Attempt(t.key, v.outcome(t.key))]);
    }
  }

  lemma LeftAndTopDisjoint(v: Env, t: Tree, base: string)
    requires t.Node? && Ordered(t) && WorksOn(v, base, t.key) && !WorksOn(v, t.key, t.key)
    ensures forall x :: InLog(Traverse(v, t.left, base).log, x) ==> !InLog(UmountOffset(v, t).log, x)
  {
    forall x | InLog(Traverse(v, t.left, base).log, x) && InLog(UmountOffset(v, t).log, x) ensures false {
      UmountChains(v, t, x);
      WalksDisjoint(v, base, t.key, t.left, x);
      Trichotomy(t.key, t.key);
    }
  }

  lemma RightDisjoint(v: Env, t: Tree, base: string)
    requires t.Node? && Ordered(t)
    ensures var a := Traverse(v, t.left, base);
            var b := if a.ret != 0 && WorksOn(v, base, t.key)
                     then (ParentShorter(v, base, t.key); a.log + UmountOffset(v, t).log) else a.log;
            forall x :: InLog(b, x) ==> !InLog(Traverse(v, t.right, base).log, x)
  {
    var a := Traverse(v, t.left, base);
    var u := if a.ret != 0 && WorksOn(v, base, t.key)
             then (ParentShorter(v, base, t.key); UmountOffset(v, t).log) else [];
    forall x | InLog(a.log + u, x) && InLog(Traverse(v, t.right, base).log, x) ensures false {
      InAppend(a.log, u, x);
      TraverseAttempts(v, t.right, base, x);
      if InLog(a.log, x) {
        TraverseAttempts(v, t.left, base, x);
        Trichotomy(x, t.key);
      } else {
        UmountChains(v, t, x);
        WalksDisjoint(v, base, t.key, t.right, x);
        Trichotomy(t.key, t.key);
      }
    }
    assert a.log + [] == a.log;
  }

  // ----- a whole multi-mount

  /** Every offset's parent is an offset of the multi-mount, or its owner. */
  predicate WellNested(ks: seq<string>, cached: set<string>)
    requires ks != []
  {
    forall c :: c in ks && !IsTop(ks[0], c) ==>
      var p := MmParent(ks[0], cached, c); p in ks && (p == ks[0] || !IsTop(ks[0], p))
  }

  /** Unmounting the offsets of a multi-mount: the first failure stops it, every attempt comes
      after successful attempts on the offsets nested in that offset, and no offset is
      attempted twice. */
  lemma UmountIsBottomUp(v: Env, ks: seq<string>, i: nat, c: string)
    requires ks != [] && v.root == ks[0]
    requires i < |Traverse(v, Build(ks), v.root).log|
    ensures var res := Traverse(v, Build(ks), v.root); var p := res.log[i].key;
            && p in ks && !IsTop(v.root, p)
            && (res.ret == 0 <==> var last := res.log[|res.log| - 1].outcome; last.RealBusy? || last.TriggerBusy?)
            && (res.log[i].outcome.NoTrigger? || res.log[i].outcome.Unmounted? || i == |res.log| - 1)
            && (IsChild(ks, v.cached, p, c) && FirstBetween(ks, p, c) ==>
                  exists j :: 0 <= j < i && res.log[j].key == c
                              && (res.log[j].outcome.NoTrigger? || res.log[j].outcome.Unmounted?))
            && (forall j :: 0 <= j < |res.log| && j != i ==> res.log[j].key != p)
  {
    var t := Build(ks);
    var log := Traverse(v, t, v.root).log;
    var p := log[i].key;
    BuildOrdered(ks);
    BuildKeys(ks);
    TraverseStops(v, t, v.root);
    TraverseOnce(v, t, v.root);
    TraverseBottomUp(v, t, v.root);
    TraverseAttempts(v, t, v.root, p) by { assert InLog(log, p); }
    WalkSelects(t, v.root, v.cached, v.root);
    if IsChild(ks, v.cached, p, c) && FirstBetween(ks, p, c) {
      WalkExactly(ks, v.cached, p, c);
      assert InLog(log[..i], c);
      var j :| 0 <= j < |log[..i]| && log[..i][j].key == c;
      assert log[j].key == c;
    }
  }

  /** When no walk misses a child, a successful unmount has attempted every offset. */
  lemma {:induction false} SuccessCoversAll(v: Env, ks: seq<string>, c: string)
    requires ks != [] && v.root == ks[0]
    requires WellNested(ks, v.cached) && Complete(ks, v.cached)
    requires Traverse(v, Build(ks), v.root).ret != 0
    requires c in ks && !IsTop(v.root, c)
    ensures InLog(Traverse(v, Build(ks), v.root).log, c)
    decreases |c|
  {
    var t := Build(ks);
    var log := Traverse(v, t, v.root).log;
    var p := MmParent(v.root, v.cached, c);
    ParentShorter(v, p, c);
    assert IsChild(ks, v.cached, p, c);
    if p == v.root {
      BuildSplits(ks);
      TraverseCovers(v, t, v.root, c);
    } else {
      SuccessCoversAll(v, ks, p);
      BuildOrdered(ks);
      TraverseBottomUp(v, t, v.root);
      var i :| 0 <= i < |log| && log[i].key == p;
      assert InLog(log[..i], c);
      var j :| 0 <= j < |log[..i]| && log[..i][j].key == c;
      assert log[j].key == c;
    }
  }

  /** Whatever is attempted is worked on by the walk from its own parent. */
  lemma {:induction false} AttemptedByParent(v: Env, t: Tree, base: string, x: string)
    requires Ordered(t) && InLog(Traverse(v, t, base).log, x)
    ensures var q := MmParent(v.root, v.cached, x);
      (q == base && x in Walked(v, t, base)) || (q in Keys(t) && x in Walked(v, Sub(t, q), q))
    decreases Size(t), if t.Node? && WorksOn(v, base, t.key) then 2 else 0
  {
    if t.Leaf? {
    } else {
      var q := MmParent(v.root, v.cached, x);
      var l := Traverse(v, t.left, base).log;
      var r := Traverse(v, t.right, base).log;
      Trichotomy(q, t.key);
      if InLog(l, x) {
        AttemptedByParent(v, t.left, base, x);
      } else if InLog(r, x) {
        AttemptedByParent(v, t.right, base, x);
      } else {
        ParentShorter(v, base, t.key);
        var n := Traverse(v, t, t.key).log;
        var u := UmountOffset(v, t).log;
        assert InLog(u, x) by {
          InAppend(l, u, x);
          InAppend(l + u, r, x);
          InAppend(l, r, x);
        }
        InAppend(n, [Attempt(t.key, v.outcome(t.key))], x);
        if InLog(n, x) {
          AttemptedByParent(v, t, t.key, x);
        } else {
          assert x == t.key;
        }
      }
    }
  }

  /** A successful unmount has attempted every offset if and only if no walk misses a child. */
  lemma SuccessCoversIff(v: Env, ks: seq<string>)
    requires ks != [] && v.root == ks[0] && WellNested(ks, v.cached)
    requires Traverse(v, Build(ks), v.root).ret != 0
    ensures Complete(ks, v.cached) <==>
              forall c :: c in ks && !IsTop(v.root, c) ==> InLog(Traverse(v, Build(ks), v.root).log, c)
  {
    var t := Build(ks);
    var log := Traverse(v, t, v.root).log;
    if Complete(ks, v.cached) {
      forall c | c in ks && !IsTop(v.root, c) ensures InLog(log, c) {
        SuccessCoversAll(v, ks, c);
      }
    }
    if forall c :: c in ks && !IsTop(v.root, c) ==> InLog(log, c) {
      forall p, c | p in ks && IsChild(ks, v.cached, p, c) ensures c in Walked(v, Sub(t, p), p) {
        BuildOrdered(ks);
        AttemptedByParent(v, t, v.root, c);
        assert Sub(t, ks[0]) == t by { BuildSplits(ks); }
      }
    }
  }

  // ----- the owner itself

  /** How the umount of the multi-mount's own path goes. */
  datatype OwnerEnd = PathTooLong | NotMounted | Umounts | Busy

  /** What tree_mapent_umount_offsets does with the owner, after the offsets. */
  datatype OwnerStep = OwnerUmount(ok: bool) | Remount(keys: seq<string>) | RecordRemoved

  /** tree_mapent_umount_offsets on the owner of the tree `t` */
  function UmountOffsets(v: Env, t: Tree, o: OwnerEnd): (Result, seq<OwnerStep>) {
    var res := Traverse(v, t, v.root);
    if res.ret == 0 then (res, [])
    else
      match o
      case PathTooLong => (Result(0, res.log), [])
      case NotMounted => (res, [RecordRemoved])
      case Umounts => (res, [OwnerUmount(true), RecordRemoved])
      case Busy => (Result(0, res.log), [OwnerUmount(false), Remount(Walked(v, t, v.root))])
  }

  /** The owner is touched only after every offset attempted was dealt with, and its record goes
      exactly when the whole succeeds.  It is unmounted exactly when the walk succeeded and it is
      mounted.  If its umount fails the triggers directly below it are
      walked again, to be mounted: exactly the owner's children, in ascending order. */
  lemma OwnerIsLast(v: Env, ks: seq<string>, o: OwnerEnd, c: string)
    requires ks != [] && v.root == ks[0]
    ensures var (res, steps) := UmountOffsets(v, Build(ks), o);
      && (steps != [] ==>
            forall i :: 0 <= i < |res.log| ==> res.log[i].outcome.NoTrigger? || res.log[i].outcome.Unmounted?)
      && (RecordRemoved in steps <==> res.ret != 0)
      && (res.ret == 0 <==> Traverse(v, Build(ks), v.root).ret == 0 || o.PathTooLong? || o.Busy?)
      && (forall ok :: OwnerUmount(ok) in steps <==>
            Traverse(v, Build(ks), v.root).ret != 0 && (if ok then o.Umounts? else o.Busy?))
      && (OwnerUmount(false) in steps <==> exists keys :: Remount(keys) in steps)
      && (forall keys :: Remount(keys) in steps ==>
            OwnerUmount(false) in steps && Sorted(keys) && (c in keys <==> IsChild(ks, v.cached, v.root, c)))
  {
    TraverseStops(v, Build(ks), v.root);
    RootIsFirst(ks, c);
    WalkExactly(ks, v.cached, ks[0], c);
    assert Sub(Build(ks), ks[0]) == Build(ks) by { BuildSplits(ks); }
  }

  lemma RootIsFirst(ks: seq<string>, c: string)
    requires ks != []
    ensures FirstBetween(ks, ks[0], c)
  {
  }

  /** With complete walks, the owner is unmounted only when every offset has been. */
  lemma OwnerAfterAll(v: Env, ks: seq<string>, o: OwnerEnd, c: string)
    requires ks != [] && v.root == ks[0] && WellNested(ks, v.cached) && Complete(ks, v.cached)
    requires UmountOffsets(v, Build(ks), o).1 != [] && c in ks && !IsTop(v.root, c)
    ensures var log := UmountOffsets(v, Build(ks), o).0.log;
      exists i :: 0 <= i < |log| && log[i].key == c && (log[i].outcome.NoTrigger? || log[i].outcome.Unmounted?)
  {
    SuccessCoversAll(v, ks, c);
    TraverseStops(v, Build(ks), v.root);
  }

  // ----- results

  /** A walk returns 0 when it fails and -1 when it does not, and its attempts end as they do. */
  lemma {:induction false} TraverseReturns(v: Env, t: Tree, base: string)
    ensures var res := Traverse(v, t, base);
      && (res.ret == 0 || res.ret == -1)
      && forall i :: 0 <= i < |res.log| ==> res.log[i].outcome == v.outcome(res.log[i].key)
    decreases Size(t), if t.Node? && WorksOn(v, base, t.key) then 2 else 0
  {
    if t.Leaf? {
    } else {
      TraverseReturns(v, t.left, base);
      TraverseReturns(v, t.right, base);
      if WorksOn(v, base, t.key) {
        ParentShorter(v, base, t.key);
        TraverseReturns(v, t, t.key);
      }
    }
  }
}
