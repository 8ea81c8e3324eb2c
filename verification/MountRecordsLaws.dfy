/** What the invariant of `MountRecordsRuns` means for mount records: no use after free, one
    record per path, and operations that undo each other.
 */
module MountRecordsLaws {
  import opened Options
  import opened ExpireOrder
  import opened MountRecords
  import opened MountRecordsRuns

  // ----- over every run

  /** A record has a reference for each list flag, each holder and the expire list. */
  lemma RefCoversUsers(es: seq<Event>, i: nat)
    requires Feasible(EMPTY, es) && i < |Run(EMPTY, es).hash|
    ensures var m := Run(EMPTY, es); var r := m.hash[i];
      r.ref >= Bit(Mounted in r.flags) + Bit(Autofs in r.flags) + Bit(AmdMount in r.flags)
               + m.holders[r.id] + Bit(On(m.expire, r.id))
  {
    Reachable(es);
    assert RecOk(Run(EMPTY, es), Run(EMPTY, es).hash[i]);
  }

  /** A record that has been freed is on no list, and nobody holds it. */
  lemma FreedIsUnused(es: seq<Event>, x: Id)
    requires Feasible(EMPTY, es) && !Live(Run(EMPTY, es), x)
    ensures var m := Run(EMPTY, es);
      !On(m.mounts, x) && !On(m.submounts, x) && !On(m.amdmounts, x) && !On(m.expire, x) && x !in m.holders
  {
    Reachable(es);
    assert !Referred(Run(EMPTY, es), x);
  }

  /** A path has at most one record, and a lookup finds it. */
  lemma OneRecordPerPath(es: seq<Event>, i: nat)
    requires Feasible(EMPTY, es) && i < |Run(EMPTY, es).hash|
    ensures var hash := Run(EMPTY, es).hash;
      && FindPath(hash, hash[i].mp) == i
      && forall j :: 0 <= j < |hash| && hash[j].mp == hash[i].mp ==> j == i
  {
    Reachable(es);
    KnownPath(Run(EMPTY, es), i);
  }

  /** A submount's point is set exactly while it carries the submount flag, and a record is
      linked into each list exactly while it carries that list's flag. */
  lemma FlagsMatchLists(es: seq<Event>, i: nat)
    requires Feasible(EMPTY, es) && i < |Run(EMPTY, es).hash|
    ensures var m := Run(EMPTY, es); var r := m.hash[i];
      && (Mounted in r.flags <==> On(m.mounts, r.id))
      && (Autofs in r.flags <==> On(m.submounts, r.id) && r.ap.Some?)
      && (AmdMount in r.flags <==> On(m.amdmounts, r.id))
  {
    Reachable(es);
    assert RecOk(Run(EMPTY, es), Run(EMPTY, es).hash[i]);
  }

  // ----- a freed record does not come back

  /** `m'` has no records but those of `m` and at most a new one. */
  predicate OnlyNew(m: Mnts, m': Mnts) {
    && m.next <= m'.next
    && forall j :: 0 <= j < |m'.hash| ==> m'.hash[j].id >= m.next || Live(m, m'.hash[j].id)
  }

  lemma OnlyNewPut(m: Mnts, m1: Mnts, i: nat)
    requires OnlyNew(m, m1) && i < |m1.hash|
    ensures OnlyNew(m, Put(m1, i))
  {
    var h := Put(m1, i).hash;
    forall j | 0 <= j < |h| ensures h[j].id >= m.next || Live(m, h[j].id) {
      assert h[j].id == m1.hash[if j < i || m1.hash[i].ref > 1 then j else j + 1].id;
    }
  }

  lemma OnlyNewSelf(m: Mnts)
    ensures OnlyNew(m, m)
  {
  }

  lemma OnlyNewGetMount(m: Mnts, mp: string)
    ensures OnlyNew(m, GetMount(m, mp).0)
  {
    var h := GetMount(m, mp).0.hash;
    var i := FindPath(m.hash, mp);
    forall j | 0 <= j < |h| ensures h[j].id >= m.next || Live(m, h[j].id) {
      if i == |m.hash| && j > 0 { assert h[j] == m.hash[j - 1]; }
    }
  }

  lemma OnlyNewTrans(a: Mnts, b: Mnts, c: Mnts)
    requires OnlyNew(a, b) && OnlyNew(b, c)
    ensures OnlyNew(a, c)
  {
    forall j | 0 <= j < |c.hash| ensures c.hash[j].id >= a.next || Live(a, c.hash[j].id) {
      var x := c.hash[j].id;
      if x < b.next {
        assert Live(b, x);
        assert b.hash[FindId(b.hash, x)].id == x;
      }
    }
  }

  lemma OnlyNewAmd(m: Mnts, mp: string)
    ensures OnlyNew(m, RemoveAmdmount(m, mp))
  {
    OnlyNewSelf(m);
    var i := FindPath(m.hash, mp);
    if i < |m.hash| {
      var m1 := SetRec(m, i, m.hash[i].(flags := m.hash[i].flags - {AmdMount}));
      OnlyNewPut(m, m1.(amdmounts := Unlink(m.amdmounts, m.hash[i].id)), i);
    }
  }

  lemma OnlyNewAdd(m: Mnts, ap: Point, mp: string, flags: set<Flag>)
    ensures OnlyNew(m, AddMount(m, ap, mp, flags))
  {
    OnlyNewGetMount(m, mp);
  }

  lemma OnlyNewAddSub(m: Mnts, ap: Point, parent: Point, mp: string)
    ensures OnlyNew(m, AddSubmount(m, ap, parent, mp).0)
  {
    OnlyNewGetMount(m, mp);
    OnlyNewPut(m, GetMount(m, mp).0, GetMount(m, mp).1);
  }

  lemma OnlyNewAddAmd(m: Mnts, ap: Point, mp: string)
    ensures OnlyNew(m, AddAmdmount(m, ap, mp))
  {
    OnlyNewGetMount(m, mp);
  }

  lemma OnlyNewRemove(m: Mnts, mp: string)
    ensures OnlyNew(m, RemoveMount(m, mp, {Mounted}))
  {
    OnlyNewSelf(m);
    var i := FindPath(m.hash, mp);
    if i < |m.hash| {
      var m1 := SetRec(m, i, m.hash[i].(flags := m.hash[i].flags - {Mounted}));
      OnlyNewPut(m, m1.(mounts := Unlink(m.mounts, m.hash[i].id)), i);
    }
  }

  lemma OnlyNewSub(m: Mnts, mp: string)
    ensures OnlyNew(m, RemoveSubmount(m, mp))
  {
    OnlyNewSelf(m);
    var i := FindPath(m.hash, mp);
    if i < |m.hash| {
      var m1 := SetRec(m, i, m.hash[i].(flags := m.hash[i].flags - {Autofs}, ap := None));
      OnlyNewPut(m, m1.(submounts := Unlink(m.submounts, m.hash[i].id)), i);
    }
  }

  lemma {:induction false} OnlyNewAmds(m: Mnts, ids: seq<Id>)
    ensures OnlyNew(m, RemoveAmdmounts(m, ids))
    decreases |ids|
  {
    OnlyNewSelf(m);
    if ids == [] {
    } else {
      var i := FindId(m.hash, ids[0]);
      if i == |m.hash| {
        OnlyNewAmds(m, ids[1..]);
      } else {
        var m1 := RemoveAmdmount(m, m.hash[i].mp);
        OnlyNewAmd(m, m.hash[i].mp);
        OnlyNewAmds(m1, ids[1..]);
        OnlyNewTrans(m, m1, RemoveAmdmounts(m1, ids[1..]));
      }
    }
  }

  lemma {:induction false} OnlyNewDrop(m: Mnts, ids: seq<Id>)
    ensures OnlyNew(m, DropAll(m, ids))
    decreases |ids|
  {
    OnlyNewSelf(m);
    if ids == [] {
    } else {
      var m1 := DropFromExpire(m, ids[0]);
      var i := FindId(m.hash, ids[0]);
      if i < |m.hash| { OnlyNewPut(m, m.(expire := Unlink(m.expire, ids[0])), i); }
      OnlyNewDrop(m1, ids[1..]);
      OnlyNewTrans(m, m1, DropAll(m1, ids[1..]));
    }
  }

  lemma {:induction false} GetAllIds(hash: seq<Rec>, ids: seq<Id>)
    ensures |GetAll(hash, ids)| == |hash| && forall i :: 0 <= i < |hash| ==> GetAll(hash, ids)[i].id == hash[i].id
    decreases |ids|
  {
    if ids == [] {
    } else {
      var i := FindId(hash, ids[0]);
      GetAllIds(if i == |hash| then hash else hash[i := hash[i].(ref := hash[i].ref + 1)], ids[1..]);
    }
  }

  lemma OnlyNewStep(m: Mnts, e: Event)
    ensures OnlyNew(m, Step(m, e))
  {
    OnlyNewSelf(m);
    match e
    case Add(ap, mp, flags) => OnlyNewAdd(m, ap, mp, flags);
    case Remove(mp) => OnlyNewRemove(m, mp);
    case AddSub(ap, parent, mp) => OnlyNewAddSub(m, ap, parent, mp);
    case RemoveSub(mp) => OnlyNewSub(m, mp);
    case AddAmd(ap, mp) => OnlyNewAddAmd(m, ap, mp);
    case RemoveAmd(mp) => OnlyNewAmd(m, mp);
    case RemoveAmds(ap) => OnlyNewAmds(m, Listed(m.amdmounts, ap));
    case Lookup(mp, want) =>
    case PutRef(id) =>
      var i := FindId(m.hash, id);
      if i < |m.hash| { OnlyNewPut(m, m.(holders := m.holders - multiset{id}), i); }
    case GetExpireList(ap) => GetAllIds(m.hash, MountedOf(m.hash, Listed(m.mounts, ap)));
    case PutExpireList(ap) => OnlyNewDrop(m, Listed(m.expire, ap));
  }

  /** Whatever happens next, a freed record is never found again. */
  lemma {:induction false} FreedStaysFreed(m: Mnts, es: seq<Event>, x: Id)
    requires x < m.next && !Live(m, x)
    ensures !Live(Run(m, es), x)
    decreases |es|
  {
    if es == [] {
    } else {
      var m' := Step(m, es[0]);
      OnlyNewStep(m, es[0]);
      LiveMeans(m', x);
      FreedStaysFreed(m', es[1..], x);
    }
  }

  // ----- mnts_remove_mount

  /** mnts_remove_mount gives back one reference for whatever flags it clears, and unlinks only
      from the mounts list.  That is right exactly when it clears no submount or amd flag and
      clears the mounted flag, or the record has a reference to spare. */
  lemma RemoveMountKeepsIff(m: Mnts, mp: string, flags: set<Flag>)
    requires Inv(m)
    ensures var i := FindPath(m.hash, mp);
      Inv(RemoveMount(m, mp, flags)) <==>
        i == |m.hash| || m.hash[i].flags * flags == {} ||
        (var clears := m.hash[i].flags * flags;
         Autofs !in clears && AmdMount !in clears && (Mounted in clears || m.hash[i].ref > Needed(m, m.hash[i])))
  {
    var i := FindPath(m.hash, mp);
    if i < |m.hash| && m.hash[i].flags * flags != {} {
      if Autofs in m.hash[i].flags * flags || AmdMount in m.hash[i].flags * flags {
        ListFlagBreaks(m, i, flags);
      } else {
        MountFlagIff(m, i, flags);
      }
    }
  }

  /** What mnts_remove_mount leaves before it gives the reference back. */
  function Cleared(m: Mnts, i: nat, flags: set<Flag>): Mnts
    requires i < |m.hash|
  {
    var r := m.hash[i].(flags := m.hash[i].flags - flags);
    var m1 := SetRec(m, i, r);
    if Mounted in r.flags then m1 else m1.(mounts := Unlink(m1.mounts, r.id))
  }

  lemma MountFlagIff(m: Mnts, i: nat, flags: set<Flag>)
    requires Inv(m) && i < |m.hash|
    requires Autofs !in m.hash[i].flags * flags && AmdMount !in m.hash[i].flags * flags
    ensures Inv(Put(Cleared(m, i, flags), i)) <==>
              Mounted in m.hash[i].flags * flags || m.hash[i].ref > Needed(m, m.hash[i])
  {
    var r := m.hash[i].(flags := m.hash[i].flags - flags);
    assert RecOk(m, m.hash[i]);
    UnlinkIs(m.mounts, r.id);
    UnlinkNoRepeat(m.mounts, r.id);
    var m2 := Cleared(m, i, flags);
    ChangeOne(m, m2, i);
    if Mounted in m.hash[i].flags * flags || m.hash[i].ref > Needed(m, m.hash[i]) {
      PutKeeps(m2, i);
    } else {
      PutBreaks(m2, i);
    }
  }

  /** Clearing a submount or amd flag here leaves the record on that list. */
  lemma ListFlagBreaks(m: Mnts, i: nat, flags: set<Flag>)
    requires Inv(m) && i < |m.hash|
    requires Autofs in m.hash[i].flags * flags || AmdMount in m.hash[i].flags * flags
    ensures !Inv(Put(Cleared(m, i, flags), i))
  {
    assert RecOk(m, m.hash[i]);
    var id := m.hash[i].id;
    var m' := Put(Cleared(m, i, flags), i);
    assert m'.submounts == m.submounts && m'.amdmounts == m.amdmounts;
    assert Referred(m', id);
    if m.hash[i].ref > 1 {
      assert !RecOk(m', m'.hash[i]);
    } else {
      assert !Live(m', id) by {
        LiveMeans(m', id);
        assert forall j :: 0 <= j < |m'.hash| ==> m'.hash[j] == m.hash[if j < i then j else j + 1];
      }
    }
  }

  lemma PutBreaks(m: Mnts, i: nat)
    requires Inv(m) && i < |m.hash| && m.hash[i].ref == Needed(m, m.hash[i])
    ensures !Inv(Put(m, i))
  {
    var m', r := Put(m, i), m.hash[i];
    assert RecOk(m, r);
    if r.ref > 1 {
      assert !RecOk(m', m'.hash[i]);
    } else {
      assert Referred(m', r.id);
      assert !Live(m', r.id) by {
        LiveMeans(m', r.id);
        assert forall j :: 0 <= j < |m'.hash| ==> m'.hash[j] == m.hash[if j < i then j else j + 1];
      }
    }
  }

  /** Clearing only the offset flag of a mounted offset frees a record that is still on the
      mounts list. */
  lemma OffsetFlagAloneFrees()
    ensures var m := AddMount(EMPTY, 0, "/m", {Mounted, Offset});
      Inv(m) && !Inv(RemoveMount(m, "/m", {Offset}))
  {
    var m := AddMount(EMPTY, 0, "/m", {Mounted, Offset});
    AddMountKeeps(EMPTY, 0, "/m", {Mounted, Offset});
    assert m.hash[0].flags == {Mounted, Offset} && m.hash[0].ref == 1;
    assert FindPath(m.hash, "/m") == 0;
    RemoveMountKeepsIff(m, "/m", {Offset});
  }

  lemma {:induction false} UnlinkAbsent(list: seq<Link>, id: Id)
    requires !On(list, id)
    ensures Unlink(list, id) == list
  {
    if list == [] {
    } else {
      assert list[0].id != id;
      assert forall k :: 0 <= k < |list[1..]| ==> list[1..][k] == list[k + 1];
      UnlinkAbsent(list[1..], id);
    }
  }

  /** Recording a mount and removing it again leaves records and lists as they were. */
  lemma AddThenRemove(m: Mnts, ap: Point, mp: string)
    requires Inv(m)
    requires FindPath(m.hash, mp) < |m.hash| ==> Mounted !in m.hash[FindPath(m.hash, mp)].flags
    ensures var m' := RemoveMount(AddMount(m, ap, mp, {Mounted}), mp, {Mounted});
      m' == m.(next := m'.next)
  {
    GetMountGivesSlack(m, mp);
    var (m1, i) := GetMount(m, mp);
    var r := m1.hash[i];
    assert RecOk(m1, r);
    assert !On(m1.mounts, r.id);
    var a := AddMount(m, ap, mp, {Mounted});
    AddMountKeeps(m, ap, mp, {Mounted});
    KnownPath(a, i);
    UnlinkAbsent(m.mounts, r.id);
    assert a.mounts == [Link(ap, r.id)] + m.mounts;
    assert a.mounts[1..] == m.mounts;
    assert r.flags + {Mounted} - {Mounted} == r.flags;
    if FindPath(m.hash, mp) < |m.hash| {
      assert RecOk(m, m.hash[i]);
      assert a.hash[i] == m.hash[i].(ref := m.hash[i].ref + 1, flags := m.hash[i].flags + {Mounted});
      assert m.hash[i].flags + {Mounted} - {Mounted} == m.hash[i].flags;
      assert Mounted in a.hash[i].flags * {Mounted};
      assert RemoveMount(a, mp, {Mounted}).hash[i] == m.hash[i];
      assert RemoveMount(a, mp, {Mounted}).hash == m.hash;
    } else {
      assert m1.hash[1..] == m.hash;
    }
  }

  // ----- a conflict of submount owners

  /** A submount whose path another point owns changes nothing, and the caller is given the
      other point's record, without a reference: the conflict is not reported. */
  lemma ConflictNotReported(m: Mnts, ap: Point, parent: Point, mp: string)
    requires Inv(m) && FindPath(m.hash, mp) < |m.hash|
    requires var r := m.hash[FindPath(m.hash, mp)]; r.ap.Some? && r.ap.value != ap
    ensures AddSubmount(m, ap, parent, mp) == (m, m.hash[FindPath(m.hash, mp)].id)
  {
    var i := FindPath(m.hash, mp);
    assert RecOk(m, m.hash[i]);
    assert Get(m, i).hash[i := m.hash[i]] == m.hash;
  }

  /** Otherwise the record returned is the point's own, flagged, listed and referred to. */
  lemma SubmountAdded(m: Mnts, ap: Point, parent: Point, mp: string)
    requires Inv(m)
    requires var i := FindPath(m.hash, mp); i < |m.hash| ==> m.hash[i].ap.None? || m.hash[i].ap.value == ap
    ensures var (m', id) := AddSubmount(m, ap, parent, mp); var i := FindId(m'.hash, id);
      i < |m'.hash| && m'.hash[i].mp == mp && m'.hash[i].ap == Some(ap)
      && Autofs in m'.hash[i].flags && On(m'.submounts, id)
  {
    AddSubmountKeeps(m, ap, parent, mp);
    var (m', id) := AddSubmount(m, ap, parent, mp);
    var i := GetMount(m, mp).1;
    assert m'.hash[i].id == id;
    FindIdIs(m'.hash, i);
    GetMountGivesSlack(m, mp);
    assert RecOk(m', m'.hash[i]);
  }

  // ----- mnts_remove_amdmounts

  lemma RemoveAmdmountUnlinks(m: Mnts, x: Id)
    requires Inv(m) && On(m.amdmounts, x)
    ensures Live(m, x)
    ensures RemoveAmdmount(m, m.hash[FindId(m.hash, x)].mp).amdmounts == Unlink(m.amdmounts, x)
  {
    assert Referred(m, x);
    var i := FindId(m.hash, x);
    assert RecOk(m, m.hash[i]);
    KnownPath(m, i);
  }

  lemma {:induction false} UnlinkListed(list: seq<Link>, ap: Point)
    requires NoRepeat(list) && Listed(list, ap) != []
    ensures Listed(Unlink(list, Listed(list, ap)[0]), ap) == Listed(list, ap)[1..]
  {
    var x := Listed(list, ap)[0];
    if list[0].owner == ap {
      assert !On(list[1..], x);
      UnlinkAbsent(list[1..], x);
    } else {
      UnlinkListed(list[1..], ap);
      ListedIs(list[1..], ap);
      assert x in Listed(list[1..], ap);
    }
  }

  /** After mnts_remove_amdmounts the point's list of amd mounts is empty. */
  lemma {:induction false} RemoveAmdmountsEmpties(m: Mnts, ap: Point)
    requires Inv(m)
    ensures Listed(RemoveAmdmounts(m, Listed(m.amdmounts, ap)).amdmounts, ap) == []
    decreases |Listed(m.amdmounts, ap)|
  {
    var ids := Listed(m.amdmounts, ap);
    if ids == [] {
    } else {
      ListedIs(m.amdmounts, ap);
      RemoveAmdmountUnlinks(m, ids[0]);
      var mp := m.hash[FindId(m.hash, ids[0])].mp;
      RemoveAmdmountKeeps(m, mp);
      UnlinkListed(m.amdmounts, ap);
      RemoveAmdmountsEmpties(RemoveAmdmount(m, mp), ap);
    }
  }

  // ----- the expire list

  lemma {:induction false} ListedConcat(a: seq<Link>, b: seq<Link>, ap: Point)
    ensures Listed(a + b, ap) == Listed(a, ap) + Listed(b, ap)
  {
    if a == [] {
      assert a + b == b;
    } else {
      assert (a + b)[1..] == a[1..] + b;
      ListedConcat(a[1..], b, ap);
    }
  }

  lemma {:induction false} LinksPaths(m: Mnts, hash: seq<Rec>, ap: Point, mps: seq<string>)
    requires UniqueRecs(m.hash) && RecsOk(m) && UniqueRecs(hash) && |hash| == |m.hash|
    requires forall i :: 0 <= i < |hash| ==> hash[i].id == m.hash[i].id && hash[i].mp == m.hash[i].mp
    requires forall mp :: mp in mps ==> HasPath(m.hash, mp)
    ensures Paths(hash, Listed(Links(m.hash, ap, mps), ap)) == mps
    decreases |mps|
  {
    var l := Links(m.hash, ap, mps);
    if mps == [] {
    } else {
      var i := LinkAt(m, ap, mps, 0);
      FindIdIs(hash, i);
      assert l[1..] == Links(m.hash, ap, mps[1..]);
      LinksPaths(m, hash, ap, mps[1..]);
    }
  }

  lemma ExpirePaths(m: Mnts, ap: Point)
    requires Inv(m) && Listed(m.expire, ap) == []
    ensures var m' := GetExpire(m, ap);
      && Paths(m'.hash, Listed(m'.expire, ap)) == ExpireList(Paths(m.hash, Listed(m.mounts, ap)))
      && |m'.hash| == |m.hash|
      && forall i :: 0 <= i < |m.hash| ==> m'.hash[i] == Bumped(m.hash[i], Listed(m.mounts, ap))
  {
    var ids := Listed(m.mounts, ap);
    var mps := Paths(m.hash, ids);
    var m' := GetExpire(m, ap);
    ExpireAfterGet(m, ap);
    PathsAre(m.hash, ids);
    ListedIs(m.mounts, ap);
    MountsAreMounted(m, ap);
    GetAllIs(m.hash, ids);
    assert forall mp :: mp in ExpireList(mps) ==> mp in mps by { ExpireListIs(mps); }
    ListedConcat(Links(m.hash, ap, ExpireList(mps)), m.expire, ap);
    LinksPaths(m, m'.hash, ap, ExpireList(mps));
    assert Listed(m'.expire, ap) == Listed(Links(m.hash, ap, ExpireList(mps)), ap);
  }

  /** The expire list of a point, as records: its mounted paths, each once unless it ends in a
      slash, every nested mount before the mounts containing it. */
  lemma ExpireListOrder(m: Mnts, ap: Point)
    requires Inv(m) && Listed(m.expire, ap) == []
    ensures var m' := GetExpire(m, ap); var e := Paths(m'.hash, Listed(m'.expire, ap));
      && NestedFirst(e) && LongestFirst(e)
      && (forall i :: 0 <= i < |m'.hash| ==>
            (m'.hash[i].mp in e <==> Link(ap, m'.hash[i].id) in m'.mounts && !EndsInSlash(m'.hash[i].mp)))
      && (forall mp :: mp in e ==> Once(e, mp) && HasPath(m'.hash, mp))
  {
    var ids := Listed(m.mounts, ap);
    var m' := GetExpire(m, ap);
    ExpirePaths(m, ap);
    PathsAre(m.hash, ids);
    ExpireListIs(Paths(m.hash, ids));
    ListedIs(m.mounts, ap);
    var e := ExpireList(Paths(m.hash, ids));
    forall mp | mp in e ensures HasPath(m'.hash, mp) {
      assert HasPath(m.hash, mp);
      var i :| 0 <= i < |m.hash| && m.hash[i].mp == mp;
      assert m'.hash[i].mp == mp;
    }
  }

  function UnlinkAll(list: seq<Link>, ids: seq<Id>): seq<Link>
    decreases |ids|
  {
    if ids == [] then list else UnlinkAll(Unlink(list, ids[0]), ids[1..])
  }

  lemma UnlinkFirst(list: seq<Link>)
    requires NoRepeat(list) && list != []
    ensures Unlink(list, list[0].id) == list[1..]
  {
    UnlinkAbsent(list[1..], list[0].id);
  }

  lemma {:induction false} UnlinkFront(l: seq<Link>, rest: seq<Link>, ap: Point)
    requires NoRepeat(l + rest) && forall k :: 0 <= k < |l| ==> l[k].owner == ap
    ensures UnlinkAll(l + rest, Listed(l, ap)) == rest
    decreases |l|
  {
    if l == [] {
      assert l + rest == rest;
    } else {
      assert (l + rest)[0] == l[0] && (l + rest)[1..] == l[1..] + rest;
      UnlinkFirst(l + rest);
      UnlinkFront(l[1..], rest, ap);
    }
  }

  function Dropped(r: Rec, ids: seq<Id>): Rec
    requires r.id in ids ==> r.ref > 0
  {
    if r.id in ids then r.(ref := r.ref - 1) else r
  }

  predicate TwiceHeld(hash: seq<Rec>, ids: seq<Id>) {
    forall i :: 0 <= i < |hash| && hash[i].id in ids ==> hash[i].ref > 1
  }

  /** Giving back references that are not the last. */
  lemma {:induction false} DropAllIs(m: Mnts, ids: seq<Id>)
    requires UniqueRecs(m.hash) && Distinct(ids) && TwiceHeld(m.hash, ids)
    requires forall x :: x in ids ==> Live(m, x)
    ensures DropAll(m, ids) == m.(hash := DropAll(m, ids).hash, expire := UnlinkAll(m.expire, ids))
    ensures |DropAll(m, ids).hash| == |m.hash|
    ensures forall i :: 0 <= i < |m.hash| ==> DropAll(m, ids).hash[i] == Dropped(m.hash[i], ids)
    decreases |ids|
  {
    if ids == [] {
    } else {
      var i, rest := FindId(m.hash, ids[0]), ids[1..];
      var m1 := DropFromExpire(m, ids[0]);
      assert ids[0] in ids && forall x :: x in ids <==> x == ids[0] || x in rest;
      assert ids[0] !in rest;
      assert m1.hash == m.hash[i := m.hash[i].(ref := m.hash[i].ref - 1)];
      forall x | x in rest ensures Live(m1, x) {
        LiveMeans(m1, x);
        assert Live(m, x);
        assert m1.hash[FindId(m.hash, x)].id == x;
      }
      DropAllIs(m1, rest);
      forall j | 0 <= j < |m.hash| ensures DropAll(m, ids).hash[j] == Dropped(m.hash[j], ids) {
        assert DropAll(m1, rest).hash[j] == Dropped(m1.hash[j], rest);
      }
    }
  }

  /** The references that an expire of the point takes and never gives back. */
  function Leak(m: Mnts, ap: Point, r: Rec): nat {
    Bit(r.id in Listed(m.mounts, ap) && EndsInSlash(r.mp))
  }

  /** Taking the expire list and putting it back leaves everything as it was, except for one
      reference too many on each mounted path that ends in a slash. */
  lemma ExpireThenPut(m: Mnts, ap: Point)
    requires Inv(m) && MayExpire(m, ap) && Listed(m.expire, ap) == []
    ensures var m' := PutExpire(GetExpire(m, ap), ap);
      && m' == m.(hash := m'.hash) && |m'.hash| == |m.hash|
      && forall i :: 0 <= i < |m.hash| ==> m'.hash[i] == m.hash[i].(ref := m.hash[i].ref + Leak(m, ap, m.hash[i]))
  {
    var g := GetExpire(m, ap);
    var l := Links(m.hash, ap, ExpireList(Paths(m.hash, Listed(m.mounts, ap))));
    var ids := Listed(g.expire, ap);
    ExpirePaths(m, ap);
    ExpireAfterGet(m, ap);
    GetExpireKeeps(m, ap);
    ListedConcat(l, m.expire, ap);
    assert ids == Listed(l, ap);
    UnlinkFront(l, m.expire, ap);
    ListedIs(g.expire, ap);
    forall x | x in ids ensures Live(g, x) { assert Referred(g, x); }
    forall i | 0 <= i < |m.hash|
      ensures m.hash[i].id in ids <==> m.hash[i].id in Listed(m.mounts, ap) && !EndsInSlash(m.hash[i].mp)
    {
      OwnLinks(l, ap, m.hash[i].id);
      NewLinks(m, ap, m.hash[i].id);
      FindIdIs(m.hash, i);
    }
    forall i | 0 <= i < |g.hash| && g.hash[i].id in ids ensures g.hash[i].ref > 1 {
      assert RecOk(m, m.hash[i]);
    }
    DropAllIs(g, ids);
  }

  lemma OwnLinks(l: seq<Link>, ap: Point, x: Id)
    requires forall k :: 0 <= k < |l| ==> l[k].owner == ap
    ensures x in Listed(l, ap) <==> On(l, x)
  {
    ListedIs(l, ap);
    if k :| 0 <= k < |l| && l[k].id == x {
      assert l[k] == Link(ap, x);
    }
  }

  /** A run in which a reference leaks: a path with a trailing slash is mounted, expired once
      and unmounted, and its record stays, on no list and with no flag, for ever. */
  lemma LeakedReference()
    ensures var es := [Add(0, "/m/", {Mounted}), GetExpireList(0), PutExpireList(0), Remove("/m/")];
      Feasible(EMPTY, es) && Run(EMPTY, es) == Mnts([Rec(0, "/m/", 1, {}, None)], [], [], [], [], multiset{}, 1)
  {
    var e1 := [Add(0, "/m/", {Mounted})];
    var e2, e3 := e1 + [GetExpireList(0)], e1 + [GetExpireList(0)] + [PutExpireList(0)];
    var m1 := Mnts([Rec(0, "/m/", 1, {Mounted}, None)], [Link(0, 0)], [], [], [], multiset{}, 1);
    assert [] + [Add(0, "/m/", {Mounted})] == e1;
    SlashMounted(m1);
    RunAppend(EMPTY, [], Add(0, "/m/", {Mounted}));
    RunAppend(EMPTY, e1, GetExpireList(0));
    RunAppend(EMPTY, e2, PutExpireList(0));
    SlashExpired(m1);
    RunAppend(EMPTY, e3, Remove("/m/"));
    SlashUnmounted(m1.(hash := [Rec(0, "/m/", 2, {Mounted}, None)]));
    assert e3 + [Remove("/m/")] == [Add(0, "/m/", {Mounted}), GetExpireList(0), PutExpireList(0), Remove("/m/")];
  }

  lemma SlashMounted(m: Mnts)
    requires m == Mnts([Rec(0, "/m/", 1, {Mounted}, None)], [Link(0, 0)], [], [], [], multiset{}, 1)
    ensures AddMount(EMPTY, 0, "/m/", {Mounted}) == m && Inv(m) && Listed(m.mounts, 0) == [0]
  {
    assert {} + {Mounted} == {Mounted};
    assert [Link(0, 0)] + [] == [Link(0, 0)];
    AddMountKeeps(EMPTY, 0, "/m/", {Mounted});
    assert m.mounts[1..] == [];
  }

  lemma SlashExpired(m: Mnts)
    requires m == Mnts([Rec(0, "/m/", 1, {Mounted}, None)], [Link(0, 0)], [], [], [], multiset{}, 1)
    ensures PutExpire(GetExpire(m, 0), 0) == m.(hash := [Rec(0, "/m/", 2, {Mounted}, None)])
  {
    SlashMounted(m);
    ExpireThenPut(m, 0);
    assert EndsInSlash("/m/");
  }

  lemma SlashUnmounted(m: Mnts)
    requires m == Mnts([Rec(0, "/m/", 2, {Mounted}, None)], [Link(0, 0)], [], [], [], multiset{}, 1)
    ensures RemoveMount(m, "/m/", {Mounted}) == Mnts([Rec(0, "/m/", 1, {}, None)], [], [], [], [], multiset{}, 1)
  {
    assert Mounted in {Mounted} * {Mounted} && {Mounted} - {Mounted} == {};
    assert FindPath(m.hash, "/m/") == 0;
    assert m.mounts[1..] == [];
  }

  lemma {:induction false} RunAppend(m: Mnts, es: seq<Event>, e: Event)
    requires Feasible(m, es) && Enabled(Run(m, es), e)
    ensures Feasible(m, es + [e]) && Run(m, es + [e]) == Step(Run(m, es), e)
    decreases |es|
  {
    if es == [] {
      assert [e][1..] == [];
    } else {
      assert (es + [e])[1..] == es[1..] + [e];
      RunAppend(Step(m, es[0]), es[1..], e);
    }
  }
}
