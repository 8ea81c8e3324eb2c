/** References that nobody gives back: how many more a mount record has than it needs, over
    every run of the record operations (lib/mounts.c:954-1343, 1499-1551).
 */
module MountRecordsSpare {
  import opened Options
  import opened ExpireOrder
  import opened MountRecords
  import opened MountRecordsRuns
  import opened MountRecordsLaws

  /** The references of a record beyond those its flags, holders and expire list stand for. */
  function Spare(m: Mnts, id: Id): int {
    var i := FindId(m.hash, id);
    if i == |m.hash| then 0 else m.hash[i].ref - Needed(m, m.hash[i])
  }

  // ----- single changes

  /** A change to one record and its own list entries moves no other record's count. */
  lemma SpareOfOne(m: Mnts, m': Mnts, i: nat, id: Id)
    requires UniqueRecs(m.hash) && i < |m.hash| == |m'.hash| && m'.hash == m.hash[i := m'.hash[i]]
    requires m'.hash[i].id == m.hash[i].id
    requires forall x :: x != m.hash[i].id ==> SameFor(m, m', x)
    ensures Spare(m', id) == if id == m.hash[i].id then m'.hash[i].ref - Needed(m', m'.hash[i]) else Spare(m, id)
  {
    var k := FindId(m.hash, id);
    assert forall j :: 0 <= j < |m.hash| ==> m'.hash[j].id == m.hash[j].id;
    assert FindId(m'.hash, id) == k by {
      var k' := FindId(m'.hash, id);
      assert k < |m.hash| ==> m'.hash[k].id == id;
      assert k' < |m.hash| ==> m.hash[k'].id == id;
    }
    if id != m.hash[i].id { assert SameFor(m, m', id); }
  }

  lemma SparePut(m: Mnts, i: nat, id: Id)
    requires Slack(m, i)
    ensures Spare(Put(m, i), id) == Spare(m, id) - Bit(id == m.hash[i].id)
  {
    FindIdIs(m.hash, i);
    if m.hash[i].ref > 1 {
      SpareOfOne(m, Put(m, i), i, id);
    } else {
      SpareFreed(m, i, id);
    }
  }

  lemma FindNone(h: seq<Rec>, id: Id)
    requires forall j :: 0 <= j < |h| ==> h[j].id != id
    ensures FindId(h, id) == |h|
  {
  }

  lemma DropAt(h: seq<Rec>, i: nat)
    requires UniqueRecs(h) && i < |h|
    ensures var h' := h[..i] + h[i + 1..];
      && UniqueRecs(h')
      && (forall j :: 0 <= j < |h'| ==> h'[j] == h[if j < i then j else j + 1])
  {
  }

  lemma FindDropped(h: seq<Rec>, i: nat, id: Id)
    requires UniqueRecs(h) && i < |h|
    ensures var h' := h[..i] + h[i + 1..]; var k, k' := FindId(h, id), FindId(h', id);
      if id == h[i].id || k == |h| then k' == |h'| else k' < |h'| && h'[k'] == h[k]
  {
    var h' := h[..i] + h[i + 1..];
    var k := FindId(h, id);
    DropAt(h, i);
    FindIdIs(h, i);
    if id == h[i].id || k == |h| {
      FindNone(h', id);
    } else {
      FindIdIs(h', if k < i then k else k - 1);
    }
  }

  lemma SpareFreed(m: Mnts, i: nat, id: Id)
    requires Slack(m, i) && m.hash[i].ref == 1
    ensures Spare(Put(m, i), id) == Spare(m, id) - Bit(id == m.hash[i].id)
  {
    FindIdIs(m.hash, i);
    FindDropped(m.hash, i, id);
  }

  lemma SpareGetMount(m: Mnts, mp: string, id: Id)
    requires Inv(m)
    ensures var (m1, i) := GetMount(m, mp); Spare(m1, id) == Spare(m, id) + Bit(id == m1.hash[i].id)
  {
    var i := FindPath(m.hash, mp);
    if i < |m.hash| {
      FindIdIs(m.hash, i);
      SpareOfOne(m, Get(m, i), i, id);
    } else {
      SpareNew(m, mp, id);
    }
  }

  lemma SpareNew(m: Mnts, mp: string, id: Id)
    requires Inv(m) && FindPath(m.hash, mp) == |m.hash|
    ensures Spare(GetMount(m, mp).0, id) == Spare(m, id) + Bit(id == m.next)
  {
    var h, h' := m.hash, GetMount(m, mp).0.hash;
    assert h'[1..] == h;
    assert !Live(m, m.next) by {
      LiveMeans(m, m.next);
      forall j | 0 <= j < |h| ensures h[j].id < m.next { assert RecOk(m, h[j]); }
    }
    assert !Referred(m, m.next);
    if id != m.next {
      assert FindId(h', id) == FindId(h, id) + 1;
    }
  }

  // ----- every step

  /** The record a path has, or will be given. */
  function IdFor(m: Mnts, mp: string): Id {
    var i := FindPath(m.hash, mp);
    if i < |m.hash| then m.hash[i].id else m.next
  }

  predicate Has(m: Mnts, mp: string, f: Flag) {
    var i := FindPath(m.hash, mp);
    i < |m.hash| && f in m.hash[i].flags
  }

  predicate Conflict(m: Mnts, ap: Point, mp: string) {
    var i := FindPath(m.hash, mp);
    i < |m.hash| && m.hash[i].ap.Some? && m.hash[i].ap.value != ap
  }

  /** The steps that take a reference nothing stands for: recording a mount without newly setting
      the mounted flag, adding a submount or amd mount that is there already, and expiring a
      mounted path that ends in a slash. */
  function Raise(m: Mnts, e: Event, id: Id): nat {
    match e
    case Add(_, mp, flags) => Bit(id == IdFor(m, mp) && !(Mounted in flags && !Has(m, mp, Mounted)))
    case AddSub(ap, _, mp) => Bit(id == IdFor(m, mp) && Has(m, mp, Autofs) && !Conflict(m, ap, mp))
    case AddAmd(_, mp) => Bit(id == IdFor(m, mp) && Has(m, mp, AmdMount))
    case GetExpireList(ap) =>
      Bit(id in Listed(m.mounts, ap) && Live(m, id) && EndsInSlash(m.hash[FindId(m.hash, id)].mp))
    case _ => 0
  }

  /** The record mnts_get_mount gives, in terms of the records before. */
  lemma GotRecord(m: Mnts, mp: string, f: Flag, ap: Point)
    requires Inv(m)
    ensures var (m1, i) := GetMount(m, mp); var r := m1.hash[i];
      && r.id == IdFor(m, mp) && (f in r.flags <==> Has(m, mp, f)) && (f in r.flags ==> r.ref > 1)
      && (r.ap.Some? && r.ap.value != ap <==> Conflict(m, ap, mp))
  {
    var i := FindPath(m.hash, mp);
    if i < |m.hash| { assert RecOk(m, m.hash[i]); }
  }

  /** Setting a flag with its list entry uses one spare reference unless it was set. */
  lemma SpareFlag(m: Mnts, m': Mnts, i: nat, id: Id, used: bool)
    requires Slack(m, i) && |m'.hash| == |m.hash| && m'.hash == m.hash[i := m'.hash[i]]
    requires m'.hash[i].id == m.hash[i].id && m'.hash[i].ref == m.hash[i].ref
    requires forall x :: x != m.hash[i].id ==> SameFor(m, m', x)
    requires Needed(m', m'.hash[i]) == Needed(m, m.hash[i]) + Bit(used)
    ensures Spare(m', id) == Spare(m, id) - (if id == m.hash[i].id then Bit(used) else 0)
  {
    FindIdIs(m.hash, i);
    SpareOfOne(m, m', i, id);
  }

  lemma SpareAdd(m: Mnts, ap: Point, mp: string, flags: set<Flag>, id: Id)
    requires Inv(m) && Autofs !in flags && AmdMount !in flags
    ensures Spare(AddMount(m, ap, mp, flags), id) == Spare(m, id) + Raise(m, Add(ap, mp, flags), id)
  {
    GetMountGivesSlack(m, mp);
    SpareGetMount(m, mp, id);
    GotRecord(m, mp, Mounted, ap);
    var (m1, i) := GetMount(m, mp);
    AddedFlag(m1, i, ap, flags);
    SpareFlag(m1, Added(m1, i, ap, flags), i, id, Mounted in flags && Mounted !in m1.hash[i].flags);
  }

  /** mnts_add_mount, once the record is there. */
  function Added(m: Mnts, i: nat, ap: Point, flags: set<Flag>): Mnts
    requires i < |m.hash|
  {
    var r := m.hash[i].(flags := m.hash[i].flags + flags);
    var m2 := SetRec(m, i, r);
    if Mounted in r.flags && !On(m2.mounts, r.id) then m2.(mounts := [Link(ap, r.id)] + m2.mounts) else m2
  }

  lemma AddedFlag(m: Mnts, i: nat, ap: Point, flags: set<Flag>)
    requires Slack(m, i) && Autofs !in flags && AmdMount !in flags
    ensures var m' := Added(m, i, ap, flags);
      && Needed(m', m'.hash[i]) == Needed(m, m.hash[i]) + Bit(Mounted in flags && Mounted !in m.hash[i].flags)
      && forall x :: x != m.hash[i].id ==> SameFor(m, m', x)
  {
    assert RecOk(m, m.hash[i]);
    if !On(m.mounts, m.hash[i].id) { AppendNoRepeat(m.mounts, Link(ap, m.hash[i].id)); }
  }

  lemma SpareAddSub(m: Mnts, ap: Point, parent: Point, mp: string, id: Id)
    requires Inv(m)
    ensures Spare(AddSubmount(m, ap, parent, mp).0, id) == Spare(m, id) + Raise(m, AddSub(ap, parent, mp), id)
  {
    GetMountGivesSlack(m, mp);
    SpareGetMount(m, mp, id);
    GotRecord(m, mp, Autofs, ap);
    var (m1, i) := GetMount(m, mp);
    if Conflict(m, ap, mp) {
      SparePut(m1, i, id);
    } else {
      var m2 := AddSubmount(m, ap, parent, mp).0;
      assert RecOk(m1, m1.hash[i]);
      if !On(m1.submounts, m1.hash[i].id) { AppendNoRepeat(m1.submounts, Link(parent, m1.hash[i].id)); }
      SpareFlag(m1, m2, i, id, Autofs !in m1.hash[i].flags);
    }
  }

  lemma SpareAddAmd(m: Mnts, ap: Point, mp: string, id: Id)
    requires Inv(m)
    ensures Spare(AddAmdmount(m, ap, mp), id) == Spare(m, id) + Raise(m, AddAmd(ap, mp), id)
  {
    GetMountGivesSlack(m, mp);
    SpareGetMount(m, mp, id);
    GotRecord(m, mp, AmdMount, ap);
    var (m1, i) := GetMount(m, mp);
    assert RecOk(m1, m1.hash[i]);
    if !On(m1.amdmounts, m1.hash[i].id) { AppendNoRepeat(m1.amdmounts, Link(ap, m1.hash[i].id)); }
    SpareFlag(m1, AddAmdmount(m, ap, mp), i, id, AmdMount !in m1.hash[i].flags);
  }

  /** Clearing a flag, a holder or an expire entry frees one reference, and the put takes it. */
  lemma SpareClearAndPut(m: Mnts, m': Mnts, i: nat, id: Id)
    requires Inv(m) && i < |m.hash| && m'.next == m.next
    requires |m'.hash| == |m.hash| && m'.hash == m.hash[i := m'.hash[i]]
    requires m'.hash[i].id == m.hash[i].id && m'.hash[i].mp == m.hash[i].mp && m'.hash[i].ref == m.hash[i].ref
    requires NoRepeat(m'.mounts) && NoRepeat(m'.submounts) && NoRepeat(m'.amdmounts) && NoRepeat(m'.expire)
    requires forall x :: x != m.hash[i].id ==> SameFor(m, m', x)
    requires RecOk(m', m'.hash[i]) && Needed(m', m'.hash[i]) == Needed(m, m.hash[i]) - 1
    ensures Spare(Put(m', i), id) == Spare(m, id)
  {
    assert RecOk(m, m.hash[i]);
    ChangeOne(m, m', i);
    FindIdIs(m.hash, i);
    SpareOfOne(m, m', i, id);
    SparePut(m', i, id);
  }

  lemma SpareRemove(m: Mnts, mp: string, id: Id)
    requires Inv(m)
    ensures Spare(RemoveMount(m, mp, {Mounted}), id) == Spare(m, id)
  {
    var i := FindPath(m.hash, mp);
    if i < |m.hash| && Mounted in m.hash[i].flags {
      var r := m.hash[i].(flags := m.hash[i].flags - {Mounted});
      var m' := SetRec(m, i, r).(mounts := Unlink(m.mounts, r.id));
      assert RecOk(m, m.hash[i]);
      assert Mounted in m.hash[i].flags * {Mounted};
      UnlinkIs(m.mounts, r.id);
      UnlinkNoRepeat(m.mounts, r.id);
      SpareClearAndPut(m, m', i, id);
    }
  }

  lemma SpareRemoveSub(m: Mnts, mp: string, id: Id)
    requires Inv(m)
    ensures Spare(RemoveSubmount(m, mp), id) == Spare(m, id)
  {
    var i := FindPath(m.hash, mp);
    if i < |m.hash| && Autofs in m.hash[i].flags {
      var r := m.hash[i].(flags := m.hash[i].flags - {Autofs}, ap := None);
      var m' := SetRec(m, i, r).(submounts := Unlink(m.submounts, r.id));
      assert RecOk(m, m.hash[i]);
      UnlinkIs(m.submounts, r.id);
      UnlinkNoRepeat(m.submounts, r.id);
      SpareClearAndPut(m, m', i, id);
    }
  }

  lemma SpareRemoveAmd(m: Mnts, mp: string, id: Id)
    requires Inv(m)
    ensures Spare(RemoveAmdmount(m, mp), id) == Spare(m, id)
  {
    var i := FindPath(m.hash, mp);
    if i < |m.hash| && AmdMount in m.hash[i].flags {
      var r := m.hash[i].(flags := m.hash[i].flags - {AmdMount});
      var m' := SetRec(m, i, r).(amdmounts := Unlink(m.amdmounts, r.id));
      assert RecOk(m, m.hash[i]);
      UnlinkIs(m.amdmounts, r.id);
      UnlinkNoRepeat(m.amdmounts, r.id);
      SpareClearAndPut(m, m', i, id);
    }
  }

  lemma {:induction false} SpareRemoveAmds(m: Mnts, ids: seq<Id>, id: Id)
    requires Inv(m)
    ensures Spare(RemoveAmdmounts(m, ids), id) == Spare(m, id)
    decreases |ids|
  {
    if ids == [] {
    } else {
      var i := FindId(m.hash, ids[0]);
      if i < |m.hash| {
        RemoveAmdmountKeeps(m, m.hash[i].mp);
        SpareRemoveAmd(m, m.hash[i].mp, id);
      }
      SpareRemoveAmds(if i == |m.hash| then m else RemoveAmdmount(m, m.hash[i].mp), ids[1..], id);
    }
  }

  lemma SpareLookup(m: Mnts, mp: string, want: set<Flag>, id: Id)
    requires Inv(m)
    ensures Spare(LookupMount(m, mp, want), id) == Spare(m, id)
  {
    var i := FindPath(m.hash, mp);
    if i < |m.hash| {
      FindIdIs(m.hash, i);
      SpareOfOne(m, Get(m, i).(holders := m.holders + multiset{m.hash[i].id}), i, id);
    }
  }

  lemma SparePutRef(m: Mnts, x: Id, id: Id)
    requires Inv(m) && x in m.holders
    ensures Spare(PutMount(m, x), id) == Spare(m, id)
  {
    var i := FindId(m.hash, x);
    assert Referred(m, x);
    assert RecOk(m, m.hash[i]);
    SpareClearAndPut(m, m.(holders := m.holders - multiset{x}), i, id);
  }

  lemma SpareGetExpire(m: Mnts, ap: Point, id: Id)
    requires Inv(m) && MayExpire(m, ap)
    ensures Spare(GetExpire(m, ap), id) == Spare(m, id) + Raise(m, GetExpireList(ap), id)
  {
    var m' := GetExpire(m, ap);
    GetExpireOn(m, ap);
    MountsAreMounted(m, ap);
    ListedIs(m.mounts, ap);
    GetAllIs(m.hash, Listed(m.mounts, ap));
    var k := FindId(m.hash, id);
    assert FindId(m'.hash, id) == k by {
      var k' := FindId(m'.hash, id);
      assert k < |m.hash| ==> m'.hash[k].id == id;
      assert k' < |m.hash| ==> m.hash[k'].id == id;
    }
    if k < |m.hash| {
      assert m'.hash[k] == Bumped(m.hash[k], Listed(m.mounts, ap));
    }
  }

  lemma SpareDrop(m: Mnts, x: Id, id: Id)
    requires Inv(m) && On(m.expire, x)
    ensures Spare(DropFromExpire(m, x), id) == Spare(m, id)
  {
    var i := FindId(m.hash, x);
    assert Referred(m, x);
    assert RecOk(m, m.hash[i]);
    UnlinkIs(m.expire, x);
    UnlinkNoRepeat(m.expire, x);
    SpareClearAndPut(m, m.(expire := Unlink(m.expire, x)), i, id);
  }

  lemma {:induction false} SpareDropAll(m: Mnts, ids: seq<Id>, id: Id)
    requires Inv(m) && Distinct(ids) && forall x :: x in ids ==> On(m.expire, x)
    ensures Spare(DropAll(m, ids), id) == Spare(m, id)
    decreases |ids|
  {
    if ids == [] {
    } else {
      DropKeeps(m, ids[0]);
      SpareDrop(m, ids[0], id);
      assert forall x :: x in ids[1..] ==> x in ids && x != ids[0];
      SpareDropAll(DropFromExpire(m, ids[0]), ids[1..], id);
    }
  }

  /** Every step changes the spare references of every record by exactly what it takes without
      need: none is ever given back. */
  lemma SpareStep(m: Mnts, e: Event, id: Id)
    requires Inv(m) && Enabled(m, e)
    ensures Spare(Step(m, e), id) == Spare(m, id) + Raise(m, e, id)
  {
    match e
    case Add(ap, mp, flags) => SpareAdd(m, ap, mp, flags, id);
    case Remove(mp) => SpareRemove(m, mp, id);
    case AddSub(ap, parent, mp) => SpareAddSub(m, ap, parent, mp, id);
    case RemoveSub(mp) => SpareRemoveSub(m, mp, id);
    case AddAmd(ap, mp) => SpareAddAmd(m, ap, mp, id);
    case RemoveAmd(mp) => SpareRemoveAmd(m, mp, id);
    case RemoveAmds(ap) => SpareRemoveAmds(m, Listed(m.amdmounts, ap), id);
    case Lookup(mp, want) => SpareLookup(m, mp, want, id);
    case PutRef(x) => SparePutRef(m, x, id);
    case GetExpireList(ap) => SpareGetExpire(m, ap, id);
    case PutExpireList(ap) =>
      ListedIs(m.expire, ap);
      SpareDropAll(m, Listed(m.expire, ap), id);
  }

  // ----- every run

  /** The references a run takes on a record without need. */
  function RaisedIn(m: Mnts, es: seq<Event>, id: Id): nat
    decreases |es|
  {
    if es == [] then 0 else Raise(m, es[0], id) + RaisedIn(Step(m, es[0]), es[1..], id)
  }

  lemma {:induction false} SpareRun(m: Mnts, es: seq<Event>, id: Id)
    requires Inv(m) && Feasible(m, es)
    ensures Spare(Run(m, es), id) == Spare(m, id) + RaisedIn(m, es, id)
    decreases |es|
  {
    if es == [] {
    } else {
      SpareStep(m, es[0], id);
      StepKeeps(m, es[0]);
      SpareRun(Step(m, es[0]), es[1..], id);
    }
  }

  /** In every run the references a record has beyond its needs are exactly those taken without
      need since the start, so the bound on `ref` is an equality just for the others. */
  lemma RefIsNeededPlusRaised(es: seq<Event>, i: nat)
    requires Feasible(EMPTY, es) && i < |Run(EMPTY, es).hash|
    ensures var m := Run(EMPTY, es); m.hash[i].ref == Needed(m, m.hash[i]) + RaisedIn(EMPTY, es, m.hash[i].id)
  {
    Reachable([]);
    Reachable(es);
    var m := Run(EMPTY, es);
    FindIdIs(m.hash, i);
    SpareRun(EMPTY, es, m.hash[i].id);
  }

  /** A record with a reference to spare is leaked: it is there in every continuation. */
  lemma LeakedForEver(es: seq<Event>, id: Id, more: seq<Event>)
    requires Feasible(EMPTY, es) && RaisedIn(EMPTY, es, id) > 0 && Feasible(Run(EMPTY, es), more)
    ensures Live(Run(EMPTY, es), id) && Live(Run(Run(EMPTY, es), more), id)
  {
    Reachable([]);
    Reachable(es);
    SpareRun(EMPTY, es, id);
    SpareRun(Run(EMPTY, es), more, id);
  }

  // ----- runs that leak

  /** The record at the end of a run that leaves nothing but it, unused. */
  function Orphan(mp: string, flags: set<Flag>): Mnts {
    Mnts([Rec(0, mp, 1, flags, None)], [], [], [], [], multiset{}, 1)
  }

  lemma OrphanStays(es: seq<Event>, mp: string, flags: set<Flag>, more: seq<Event>)
    requires Feasible(EMPTY, es) && Run(EMPTY, es) == Orphan(mp, flags) && Feasible(Orphan(mp, flags), more)
    requires Mounted !in flags && Autofs !in flags && AmdMount !in flags
    ensures Live(Run(Orphan(mp, flags), more), 0)
  {
    Reachable(es);
    SpareRun(Orphan(mp, flags), more, 0);
  }

  /** Mounted with a trailing slash, expired and unmounted: the record is there for ever. */
  lemma SlashLeaks(more: seq<Event>)
    requires Feasible(Orphan("/m/", {}), more)
    ensures var es := [Add(0, "/m/", {Mounted}), GetExpireList(0), PutExpireList(0), Remove("/m/")];
      Feasible(EMPTY, es) && Run(EMPTY, es) == Orphan("/m/", {}) && Live(Run(Orphan("/m/", {}), more), 0)
  {
    LeakedReference();
    var es := [Add(0, "/m/", {Mounted}), GetExpireList(0), PutExpireList(0), Remove("/m/")];
    OrphanStays(es, "/m/", {}, more);
  }

  /** So it is when a mount is recorded twice and removed once. */
  lemma SecondMountLeaks(more: seq<Event>)
    requires Feasible(Orphan("/m", {}), more)
    ensures var es := [Add(0, "/m", {Mounted}), Add(0, "/m", {Mounted}), Remove("/m")];
      Feasible(EMPTY, es) && Run(EMPTY, es) == Orphan("/m", {}) && Live(Run(Orphan("/m", {}), more), 0)
  {
    var e := Add(0, "/m", {Mounted});
    RunAppend(EMPTY, [], e);
    RunAppend(EMPTY, [e], e);
    RunAppend(EMPTY, [e, e], Remove("/m"));
    assert [] + [e] == [e] && [e] + [e] == [e, e] && [e, e] + [Remove("/m")] == [e, e, Remove("/m")];
    TwiceMounted();
    OrphanStays([e, e, Remove("/m")], "/m", {}, more);
  }

  lemma TwiceMounted()
    ensures var m1 := AddMount(EMPTY, 0, "/m", {Mounted}); var m2 := AddMount(m1, 0, "/m", {Mounted});
      RemoveMount(m2, "/m", {Mounted}) == Orphan("/m", {})
  {
    assert {} + {Mounted} == {Mounted} && {Mounted} + {Mounted} == {Mounted} && {Mounted} - {Mounted} == {};
    var m1 := AddMount(EMPTY, 0, "/m", {Mounted});
    assert m1 == Mnts([Rec(0, "/m", 1, {Mounted}, None)], [Link(0, 0)], [], [], [], multiset{}, 1) by {
      assert [Link(0, 0)] + [] == [Link(0, 0)];
    }
    assert On(m1.mounts, 0) by { assert m1.mounts[0].id == 0; }
    var m2 := AddMount(m1, 0, "/m", {Mounted});
    assert m2 == m1.(hash := [Rec(0, "/m", 2, {Mounted}, None)]);
    assert Mounted in {Mounted} * {Mounted};
    assert m2.mounts[1..] == [];
  }

  /** And when an offset found mounted is recorded without the mounted flag. */
  lemma OffsetLeaks(more: seq<Event>)
    requires Feasible(Orphan("/m/a", {Offset}), more)
    ensures var es := [Add(0, "/m/a", {Offset})];
      && Feasible(EMPTY, es) && Run(EMPTY, es) == Orphan("/m/a", {Offset})
      && Live(Run(Orphan("/m/a", {Offset}), more), 0)
  {
    var e := Add(0, "/m/a", {Offset});
    RunAppend(EMPTY, [], e);
    assert [] + [e] == [e] && {} + {Offset} == {Offset};
    OrphanStays([e], "/m/a", {Offset}, more);
  }
}
