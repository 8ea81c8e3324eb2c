/** Every run of the mount record operations of `MountRecords` keeps enough references: a
    record is freed only when it is on no list and nobody holds it.
 */
module MountRecordsRuns {
  import opened Options
  import opened MountRecords
  import opened OffsetTree
  import opened ExpireOrder

  // ----- lists

  lemma {:induction false} UnlinkNoRepeat(list: seq<Link>, id: Id)
    requires NoRepeat(list)
    ensures NoRepeat(Unlink(list, id))
  {
    if list == [] {
    } else {
      UnlinkNoRepeat(list[1..], id);
      UnlinkIs(list[1..], id);
      var r := Unlink(list[1..], id);
      assert forall k :: 0 <= k < |r| ==> r[k] in list[1..] && r[k].id != list[0].id;
    }
  }

  lemma AppendNoRepeat(a: seq<Link>, l: Link)
    requires NoRepeat(a) && !On(a, l.id)
    ensures NoRepeat(a + [l]) && NoRepeat([l] + a)
    ensures forall x :: On(a + [l], x) <==> On(a, x) || x == l.id
    ensures forall x :: On([l] + a, x) <==> On(a, x) || x == l.id
  {
    forall x ensures On(a + [l], x) <==> On(a, x) || x == l.id {
      OnAppend(a, [l], x);
      OnOne(l, x);
    }
    forall x ensures On([l] + a, x) <==> On(a, x) || x == l.id {
      OnAppend([l], a, x);
      OnOne(l, x);
    }
  }

  // ----- one record changes

  /** The record at `i` has one reference more than its users. */
  ghost predicate Slack(m: Mnts, i: nat) {
    Inv(m) && i < |m.hash| && m.hash[i].ref > Needed(m, m.hash[i])
  }

  predicate SameFor(m: Mnts, m': Mnts, x: Id) {
    && (On(m.mounts, x) <==> On(m'.mounts, x)) && (On(m.submounts, x) <==> On(m'.submounts, x))
    && (On(m.amdmounts, x) <==> On(m'.amdmounts, x)) && (On(m.expire, x) <==> On(m'.expire, x))
    && m.holders[x] == m'.holders[x]
  }

  lemma FindIdIs(hash: seq<Rec>, i: nat)
    requires UniqueRecs(hash) && i < |hash|
    ensures FindId(hash, hash[i].id) == i
  {
  }

  lemma LiveMeans(m: Mnts, x: Id)
    ensures Live(m, x) <==> exists i :: 0 <= i < |m.hash| && m.hash[i].id == x
  {
  }

  /** A change to one record and its own list entries keeps the invariant of the others. */
  lemma ChangeOne(m: Mnts, m': Mnts, i: nat)
    requires Inv(m) && i < |m.hash| && m'.next == m.next
    requires |m'.hash| == |m.hash| && m'.hash == m.hash[i := m'.hash[i]]
    requires m'.hash[i].id == m.hash[i].id && m'.hash[i].mp == m.hash[i].mp
    requires NoRepeat(m'.mounts) && NoRepeat(m'.submounts) && NoRepeat(m'.amdmounts) && NoRepeat(m'.expire)
    requires forall x :: x != m.hash[i].id ==> SameFor(m, m', x)
    requires RecOk(m', m'.hash[i])
    ensures Inv(m')
  {
    forall j | 0 <= j < |m'.hash| ensures RecOk(m', m'.hash[j]) {
      if j != i {
        assert m.hash[j].id != m.hash[i].id;
        assert SameFor(m, m', m.hash[j].id);
        assert RecOk(m, m.hash[j]);
      }
    }
    forall x | Referred(m', x) ensures Live(m', x) {
      LiveMeans(m', x);
      LiveMeans(m, x);
      if x != m.hash[i].id {
        assert SameFor(m, m', x);
        var j :| 0 <= j < |m.hash| && m.hash[j].id == x;
        assert m'.hash[j].id == x;
      } else {
        assert m'.hash[i].id == x;
      }
    }
  }

  lemma GetGivesSlack(m: Mnts, i: nat)
    requires Inv(m) && i < |m.hash|
    ensures Slack(Get(m, i), i)
  {
    assert RecOk(m, m.hash[i]);
    ChangeOne(m, Get(m, i), i);
  }

  lemma PutKeeps(m: Mnts, i: nat)
    requires Slack(m, i)
    ensures Inv(Put(m, i))
  {
    assert RecOk(m, m.hash[i]);
    if m.hash[i].ref > 1 {
      ChangeOne(m, Put(m, i), i);
    } else {
      FreeKeeps(m, i);
    }
  }

  lemma FreeKeeps(m: Mnts, i: nat)
    requires Slack(m, i) && m.hash[i].ref == 1
    ensures Inv(Put(m, i))
  {
    var m' := Put(m, i);
    var id := m.hash[i].id;
    assert RecOk(m, m.hash[i]);
    assert !Referred(m, id);
    assert forall j :: 0 <= j < |m'.hash| ==> m'.hash[j] == m.hash[if j < i then j else j + 1];
    forall j | 0 <= j < |m'.hash| ensures RecOk(m', m'.hash[j]) {
      assert RecOk(m, m.hash[if j < i then j else j + 1]);
    }
    forall x | Referred(m', x) ensures Live(m', x) {
      LiveMeans(m', x);
      LiveMeans(m, x);
      assert Referred(m, x);
      var j :| 0 <= j < |m.hash| && m.hash[j].id == x;
      assert m'.hash[if j < i then j else j - 1].id == x;
    }
  }

  lemma GetMountGivesSlack(m: Mnts, mp: string)
    requires Inv(m)
    ensures Slack(GetMount(m, mp).0, GetMount(m, mp).1)
    ensures GetMount(m, mp).0.hash[GetMount(m, mp).1].mp == mp
  {
    var i := FindPath(m.hash, mp);
    if i < |m.hash| {
      GetGivesSlack(m, i);
    } else {
      NewKeeps(m, mp);
    }
  }

  lemma NewKeeps(m: Mnts, mp: string)
    requires Inv(m) && FindPath(m.hash, mp) == |m.hash|
    ensures Slack(GetMount(m, mp).0, 0)
  {
    var m' := GetMount(m, mp).0;
    assert forall j :: 1 <= j < |m'.hash| ==> m'.hash[j] == m.hash[j - 1];
    forall j | 0 <= j < |m.hash| ensures m.hash[j].mp != mp && m.hash[j].id < m.next {
      assert RecOk(m, m.hash[j]);
    }
    assert !Live(m, m.next) by { LiveMeans(m, m.next); }
    assert !Referred(m, m.next);
    forall j | 0 <= j < |m'.hash| ensures RecOk(m', m'.hash[j]) {
      if j > 0 { assert RecOk(m, m.hash[j - 1]); }
    }
    forall x | Referred(m', x) ensures Live(m', x) {
      LiveMeans(m', x);
      LiveMeans(m, x);
      assert Referred(m, x);
      var j :| 0 <= j < |m.hash| && m.hash[j].id == x;
      assert m'.hash[j + 1].id == x;
    }
  }

  // ----- every operation keeps the invariant

  lemma LookupMountKeeps(m: Mnts, mp: string, want: set<Flag>)
    requires Inv(m)
    ensures Inv(LookupMount(m, mp, want))
  {
    var i := FindPath(m.hash, mp);
    if i < |m.hash| {
      assert RecOk(m, m.hash[i]);
      ChangeOne(m, Get(m, i).(holders := m.holders + multiset{m.hash[i].id}), i);
    }
  }

  lemma PutMountKeeps(m: Mnts, id: Id)
    requires Inv(m) && id in m.holders
    ensures Inv(PutMount(m, id))
  {
    var i := FindId(m.hash, id);
    assert Referred(m, id);
    assert RecOk(m, m.hash[i]);
    var m' := m.(holders := m.holders - multiset{id});
    ChangeOne(m, m', i);
    PutKeeps(m', i);
  }

  lemma AddMountKeeps(m: Mnts, ap: Point, mp: string, flags: set<Flag>)
    requires Inv(m) && Autofs !in flags && AmdMount !in flags
    ensures Inv(AddMount(m, ap, mp, flags))
  {
    GetMountGivesSlack(m, mp);
    var (m1, i) := GetMount(m, mp);
    assert RecOk(m1, m1.hash[i]);
    if !On(m1.mounts, m1.hash[i].id) {
      AppendNoRepeat(m1.mounts, Link(ap, m1.hash[i].id));
    }
    ChangeOne(m1, AddMount(m, ap, mp, flags), i);
  }

  lemma RemoveMountKeeps(m: Mnts, mp: string)
    requires Inv(m)
    ensures Inv(RemoveMount(m, mp, {Mounted}))
  {
    var i := FindPath(m.hash, mp);
    if i < |m.hash| && Mounted in m.hash[i].flags {
      var r := m.hash[i].(flags := m.hash[i].flags - {Mounted});
      var m' := SetRec(m, i, r).(mounts := Unlink(m.mounts, r.id));
      assert RecOk(m, m.hash[i]);
      UnlinkIs(m.mounts, r.id);
      UnlinkNoRepeat(m.mounts, r.id);
      ChangeOne(m, m', i);
      PutKeeps(m', i);
    }
  }

  lemma AddSubmountKeeps(m: Mnts, ap: Point, parent: Point, mp: string)
    requires Inv(m)
    ensures Inv(AddSubmount(m, ap, parent, mp).0)
  {
    GetMountGivesSlack(m, mp);
    var (m1, i) := GetMount(m, mp);
    var r := m1.hash[i];
    assert RecOk(m1, r);
    if r.ap.Some? && r.ap.value != ap {
      PutKeeps(m1, i);
    } else {
      if !On(m1.submounts, r.id) {
        AppendNoRepeat(m1.submounts, Link(parent, r.id));
      }
      ChangeOne(m1, AddSubmount(m, ap, parent, mp).0, i);
    }
  }

  lemma RemoveSubmountKeeps(m: Mnts, mp: string)
    requires Inv(m)
    ensures Inv(RemoveSubmount(m, mp))
  {
    var i := FindPath(m.hash, mp);
    if i < |m.hash| && Autofs in m.hash[i].flags {
      var r := m.hash[i].(flags := m.hash[i].flags - {Autofs}, ap := None);
      var m' := SetRec(m, i, r).(submounts := Unlink(m.submounts, r.id));
      assert RecOk(m, m.hash[i]);
      UnlinkIs(m.submounts, r.id);
      UnlinkNoRepeat(m.submounts, r.id);
      ChangeOne(m, m', i);
      PutKeeps(m', i);
    }
  }

  lemma AddAmdmountKeeps(m: Mnts, ap: Point, mp: string)
    requires Inv(m)
    ensures Inv(AddAmdmount(m, ap, mp))
  {
    GetMountGivesSlack(m, mp);
    var (m1, i) := GetMount(m, mp);
    assert RecOk(m1, m1.hash[i]);
    if !On(m1.amdmounts, m1.hash[i].id) {
      AppendNoRepeat(m1.amdmounts, Link(ap, m1.hash[i].id));
    }
    ChangeOne(m1, AddAmdmount(m, ap, mp), i);
  }

  lemma RemoveAmdmountKeeps(m: Mnts, mp: string)
    requires Inv(m)
    ensures Inv(RemoveAmdmount(m, mp))
  {
    var i := FindPath(m.hash, mp);
    if i < |m.hash| && AmdMount in m.hash[i].flags {
      var r := m.hash[i].(flags := m.hash[i].flags - {AmdMount});
      var m' := SetRec(m, i, r).(amdmounts := Unlink(m.amdmounts, r.id));
      assert RecOk(m, m.hash[i]);
      UnlinkIs(m.amdmounts, r.id);
      UnlinkNoRepeat(m.amdmounts, r.id);
      ChangeOne(m, m', i);
      PutKeeps(m', i);
    }
  }

  lemma {:induction false} RemoveAmdmountsKeeps(m: Mnts, ids: seq<Id>)
    requires Inv(m)
    ensures Inv(RemoveAmdmounts(m, ids))
    decreases |ids|
  {
    if ids == [] {
    } else {
      var i := FindId(m.hash, ids[0]);
      if i < |m.hash| { RemoveAmdmountKeeps(m, m.hash[i].mp); }
      RemoveAmdmountsKeeps(if i == |m.hash| then m else RemoveAmdmount(m, m.hash[i].mp), ids[1..]);
    }
  }

  // ----- the expire list

  predicate Distinct(ids: seq<Id>) {
    forall i, j :: 0 <= i < j < |ids| ==> ids[i] != ids[j]
  }

  lemma {:induction false} ListedIs(list: seq<Link>, owner: nat)
    ensures forall x :: x in Listed(list, owner) <==> Link(owner, x) in list
    ensures forall x :: x in Listed(list, owner) ==> On(list, x)
    ensures NoRepeat(list) ==> Distinct(Listed(list, owner))
  {
    if list == [] {
    } else {
      var rest := list[1..];
      ListedIs(rest, owner);
      assert list == [list[0]] + rest;
      forall x | x in Listed(list, owner) ensures On(list, x) {
        var k :| 0 <= k < |list| && list[k] == Link(owner, x);
      }
      assert NoRepeat(list) ==> NoRepeat(rest) && !On(rest, list[0].id);
    }
  }

  function Bumped(r: Rec, ids: seq<Id>): Rec {
    r.(ref := r.ref + Bit(r.id in ids))
  }

  lemma UniqueSet(hash: seq<Rec>, i: nat, ref: nat)
    requires UniqueRecs(hash) && i < |hash|
    ensures UniqueRecs(hash[i := hash[i].(ref := ref)])
  {
  }

  function GetId(hash: seq<Rec>, id: Id): seq<Rec> {
    var i := FindId(hash, id);
    if i == |hash| then hash else hash[i := hash[i].(ref := hash[i].ref + 1)]
  }

  lemma GetIdAt(hash: seq<Rec>, id: Id, j: nat)
    requires UniqueRecs(hash) && j < |hash|
    ensures UniqueRecs(GetId(hash, id)) && |GetId(hash, id)| == |hash|
    ensures GetId(hash, id)[j] == hash[j].(ref := hash[j].ref + Bit(hash[j].id == id))
  {
    FindIdIs(hash, j);
    var i := FindId(hash, id);
    if i < |hash| { UniqueSet(hash, i, hash[i].ref + 1); }
  }

  lemma FirstIdOnce(ids: seq<Id>, x: Id)
    requires Distinct(ids) && ids != []
    ensures Bit(x in ids) == Bit(x == ids[0]) + Bit(x in ids[1..])
  {
    assert x in ids <==> x == ids[0] || x in ids[1..];
  }

  lemma {:induction false} GetAllAt(hash: seq<Rec>, ids: seq<Id>, j: nat)
    requires UniqueRecs(hash) && Distinct(ids) && j < |hash|
    ensures |GetAll(hash, ids)| == |hash| && GetAll(hash, ids)[j] == Bumped(hash[j], ids)
    decreases |ids|
  {
    if ids == [] {
    } else {
      GetIdAt(hash, ids[0], j);
      FirstIdOnce(ids, hash[j].id);
      GetAllAt(GetId(hash, ids[0]), ids[1..], j);
    }
  }

  lemma {:induction false} GetAllLength(hash: seq<Rec>, ids: seq<Id>)
    ensures |GetAll(hash, ids)| == |hash|
    decreases |ids|
  {
    if ids == [] {
    } else {
      var i := FindId(hash, ids[0]);
      GetAllLength(if i == |hash| then hash else hash[i := hash[i].(ref := hash[i].ref + 1)], ids[1..]);
    }
  }

  lemma GetAllIs(hash: seq<Rec>, ids: seq<Id>)
    requires UniqueRecs(hash) && Distinct(ids)
    ensures |GetAll(hash, ids)| == |hash|
    ensures forall i :: 0 <= i < |hash| ==> GetAll(hash, ids)[i] == Bumped(hash[i], ids)
  {
    GetAllLength(hash, ids);
    forall i | 0 <= i < |hash| ensures GetAll(hash, ids)[i] == Bumped(hash[i], ids) {
      GetAllAt(hash, ids, i);
    }
  }

  lemma {:induction false} MountedOfAll(hash: seq<Rec>, ids: seq<Id>)
    requires forall x :: x in ids ==> FindId(hash, x) < |hash| && Mounted in hash[FindId(hash, x)].flags
    ensures MountedOf(hash, ids) == ids
  {
    if ids == [] {
    } else {
      assert ids == [ids[0]] + ids[1..];
      MountedOfAll(hash, ids[1..]);
    }
  }

  /** All the records linked into a point's mounts list are mounted. */
  lemma MountsAreMounted(m: Mnts, ap: Point)
    requires Inv(m)
    ensures MountedOf(m.hash, Listed(m.mounts, ap)) == Listed(m.mounts, ap)
    ensures forall x :: x in Listed(m.mounts, ap) ==> Live(m, x)
  {
    var ids := Listed(m.mounts, ap);
    ListedIs(m.mounts, ap);
    forall x | x in ids ensures Live(m, x) && Mounted in m.hash[FindId(m.hash, x)].flags {
      assert Referred(m, x);
      assert RecOk(m, m.hash[FindId(m.hash, x)]);
    }
    MountedOfAll(m.hash, ids);
  }

  lemma {:induction false} PathsAre(hash: seq<Rec>, ids: seq<Id>)
    requires UniqueRecs(hash)
    ensures forall i :: 0 <= i < |hash| ==> (hash[i].mp in Paths(hash, ids) <==> hash[i].id in ids)
    ensures forall mp :: mp in Paths(hash, ids) ==> HasPath(hash, mp)
  {
    if ids == [] {
    } else {
      PathsAre(hash, ids[1..]);
      assert ids == [ids[0]] + ids[1..];
    }
  }

  /** The record id of a path, as a search finds it. */
  function IdAt(hash: seq<Rec>, mp: string): Id {
    var i := FindPath(hash, mp);
    if i == |hash| then 0 else hash[i].id
  }

  function Links(hash: seq<Rec>, ap: Point, mps: seq<string>): seq<Link> {
    seq(|mps|, k requires 0 <= k < |mps| => Link(ap, IdAt(hash, mps[k])))
  }

  predicate Known(hash: seq<Rec>, mp: string) {
    FindPath(hash, mp) < |hash|
  }

  lemma WorkLinks(hash: seq<Rec>, ap: Point, mps: seq<string>, list: seq<Link>, mp: string)
    requires Known(hash, mp)
    ensures LinkExpire(hash, ap, Links(hash, ap, mps) + list, mp) == Links(hash, ap, Work(mps, mp)) + list
  {
    if !EndsInSlash(mp) {
      assert Links(hash, ap, [mp] + mps) == [Link(ap, IdAt(hash, mp))] + Links(hash, ap, mps);
    }
  }

  /** Linking the records while walking the tree gives the list of paths of `ExpireOrder`. */
  lemma {:induction false} LinkTreeIs(hash: seq<Rec>, ap: Point, mps: seq<string>, list: seq<Link>, t: Tree)
    requires forall k :: k in Keys(t) ==> Known(hash, k)
    ensures LinkTree(hash, ap, Links(hash, ap, mps) + list, t)
         == Links(hash, ap, TraverseInorder(t, mps)) + list
    decreases t
  {
    if t.Leaf? {
    } else {
      LinkTreeIs(hash, ap, mps, list, t.left);
      var l1 := TraverseInorder(t.left, mps);
      assert t.key in Keys(t);
      WorkLinks(hash, ap, l1, list, t.key);
      LinkTreeIs(hash, ap, Work(l1, t.key), list, t.right);
    }
  }

  lemma KnownPath(m: Mnts, i: nat)
    requires UniqueRecs(m.hash) && RecsOk(m) && i < |m.hash|
    ensures FindPath(m.hash, m.hash[i].mp) == i
  {
    assert RecOk(m, m.hash[i]);
  }

  /** The expire list after mnts_get_expire_list: the point's mounts in expire order, before
      what was there. */
  lemma ExpireAfterGet(m: Mnts, ap: Point)
    requires Inv(m)
    ensures GetExpire(m, ap).expire
         == Links(m.hash, ap, ExpireList(Paths(m.hash, Listed(m.mounts, ap)))) + m.expire
  {
    var ids := Listed(m.mounts, ap);
    var mps := Paths(m.hash, ids);
    MountsAreMounted(m, ap);
    PathsAre(m.hash, ids);
    InsertAllByLength(Leaf, mps);
    forall k | k in Keys(ExpireTree(mps)) ensures Known(m.hash, k) {
      var i :| 0 <= i < |m.hash| && m.hash[i].mp == k;
      KnownPath(m, i);
    }
    assert m.expire == Links(m.hash, ap, []) + m.expire;
    LinkTreeIs(m.hash, ap, [], m.expire, ExpireTree(mps));
  }

  predicate HasPath(hash: seq<Rec>, mp: string) {
    exists i :: 0 <= i < |hash| && hash[i].mp == mp
  }

  lemma LinkAt(m: Mnts, ap: Point, mps: seq<string>, k: nat) returns (i: nat)
    requires UniqueRecs(m.hash) && RecsOk(m) && k < |mps| && HasPath(m.hash, mps[k])
    ensures i < |m.hash| && m.hash[i].mp == mps[k] && Links(m.hash, ap, mps)[k].id == m.hash[i].id
  {
    i :| 0 <= i < |m.hash| && m.hash[i].mp == mps[k];
    KnownPath(m, i);
  }

  lemma LinksNoRepeat(m: Mnts, ap: Point, mps: seq<string>)
    requires UniqueRecs(m.hash) && RecsOk(m) && LongestFirst(mps)
    requires forall mp :: mp in mps ==> HasPath(m.hash, mp)
    ensures NoRepeat(Links(m.hash, ap, mps))
  {
    var l := Links(m.hash, ap, mps);
    forall k, n | 0 <= k < n < |l| ensures l[k].id != l[n].id {
      assert mps[k] in mps && mps[n] in mps;
      var i := LinkAt(m, ap, mps, k);
      var j := LinkAt(m, ap, mps, n);
    }
  }

  lemma LinksOn(m: Mnts, ap: Point, mps: seq<string>, x: Id)
    requires UniqueRecs(m.hash) && RecsOk(m)
    requires forall mp :: mp in mps ==> HasPath(m.hash, mp)
    ensures On(Links(m.hash, ap, mps), x) <==> Live(m, x) && m.hash[FindId(m.hash, x)].mp in mps
  {
    var l := Links(m.hash, ap, mps);
    if k :| 0 <= k < |l| && l[k].id == x {
      assert mps[k] in mps;
      var i := LinkAt(m, ap, mps, k);
      FindIdIs(m.hash, i);
    }
    if Live(m, x) && m.hash[FindId(m.hash, x)].mp in mps {
      var i := FindId(m.hash, x);
      var k :| 0 <= k < |mps| && mps[k] == m.hash[i].mp;
      KnownPath(m, i);
      assert l[k].id == x;
    }
  }

  /** No record on the point's mounts list is on an expire list yet. */
  ghost predicate MayExpire(m: Mnts, ap: Point) {
    forall x :: x in Listed(m.mounts, ap) ==> !On(m.expire, x)
  }

  lemma ConcatNoRepeat(a: seq<Link>, b: seq<Link>)
    requires NoRepeat(a) && NoRepeat(b) && forall x :: On(a, x) ==> !On(b, x)
    ensures NoRepeat(a + b)
  {
    forall i, j | 0 <= i < j < |a + b| ensures (a + b)[i].id != (a + b)[j].id {
      if i < |a| <= j {
        assert On(a, a[i].id);
        assert b[j - |a|].id == (a + b)[j].id;
      }
    }
  }

  /** The records that mnts_get_expire_list links. */
  predicate Taken(m: Mnts, ap: Point, x: Id) {
    x in Listed(m.mounts, ap) && Live(m, x) && !EndsInSlash(m.hash[FindId(m.hash, x)].mp)
  }

  lemma NewLinks(m: Mnts, ap: Point, x: Id)
    requires Inv(m)
    ensures On(Links(m.hash, ap, ExpireList(Paths(m.hash, Listed(m.mounts, ap)))), x) <==> Taken(m, ap, x)
  {
    var mps := Paths(m.hash, Listed(m.mounts, ap));
    PathsAre(m.hash, Listed(m.mounts, ap));
    ExpireListIs(mps);
    forall mp | mp in ExpireList(mps) ensures HasPath(m.hash, mp) { }
    LinksOn(m, ap, ExpireList(mps), x);
  }

  /** What mnts_get_expire_list does to the expire lists. */
  lemma GetExpireOn(m: Mnts, ap: Point)
    requires Inv(m) && MayExpire(m, ap)
    ensures NoRepeat(GetExpire(m, ap).expire)
    ensures forall x :: On(GetExpire(m, ap).expire, x) <==> On(m.expire, x) || Taken(m, ap, x)
  {
    var mps := Paths(m.hash, Listed(m.mounts, ap));
    ExpireAfterGet(m, ap);
    PathsAre(m.hash, Listed(m.mounts, ap));
    ExpireListIs(mps);
    LinksNoRepeat(m, ap, ExpireList(mps));
    var l := Links(m.hash, ap, ExpireList(mps));
    forall x ensures On(l, x) <==> Taken(m, ap, x) { NewLinks(m, ap, x); }
    forall x ensures On(l + m.expire, x) <==> On(l, x) || On(m.expire, x) { OnAppend(l, m.expire, x); }
    ConcatNoRepeat(l, m.expire);
  }

  lemma GetExpireKeeps(m: Mnts, ap: Point)
    requires Inv(m) && MayExpire(m, ap)
    ensures Inv(GetExpire(m, ap))
  {
    var ids := Listed(m.mounts, ap);
    var m' := GetExpire(m, ap);
    GetExpireOn(m, ap);
    MountsAreMounted(m, ap);
    ListedIs(m.mounts, ap);
    GetAllIs(m.hash, ids);
    assert forall i :: 0 <= i < |m.hash| ==> m'.hash[i] == Bumped(m.hash[i], ids);
    forall i | 0 <= i < |m'.hash| ensures RecOk(m', m'.hash[i]) {
      assert RecOk(m, m.hash[i]);
      FindIdIs(m.hash, i);
    }
    forall x | Referred(m', x) ensures Live(m', x) {
      LiveMeans(m', x);
      LiveMeans(m, x);
      assert Taken(m, ap, x) || Referred(m, x);
      var j :| 0 <= j < |m.hash| && m.hash[j].id == x;
      assert m'.hash[j].id == x;
    }
  }

  lemma DropKeeps(m: Mnts, id: Id)
    requires Inv(m) && On(m.expire, id)
    ensures Inv(DropFromExpire(m, id))
    ensures forall x :: On(DropFromExpire(m, id).expire, x) <==> On(m.expire, x) && x != id
  {
    var i := FindId(m.hash, id);
    var m' := m.(expire := Unlink(m.expire, id));
    assert Referred(m, id);
    assert RecOk(m, m.hash[i]);
    UnlinkIs(m.expire, id);
    UnlinkNoRepeat(m.expire, id);
    ChangeOne(m, m', i);
    PutKeeps(m', i);
  }

  lemma {:induction false} DropAllKeeps(m: Mnts, ids: seq<Id>)
    requires Inv(m) && Distinct(ids) && forall x :: x in ids ==> On(m.expire, x)
    ensures Inv(DropAll(m, ids))
    decreases |ids|
  {
    if ids == [] {
    } else {
      DropKeeps(m, ids[0]);
      assert forall x :: x in ids[1..] ==> x in ids && x != ids[0];
      DropAllKeeps(DropFromExpire(m, ids[0]), ids[1..]);
    }
  }

  // ----- runs

  datatype Event =
    | Add(ap: Point, mp: string, flags: set<Flag>)
    | Remove(mp: string)
    | AddSub(ap: Point, parent: Point, mp: string)
    | RemoveSub(mp: string)
    | AddAmd(ap: Point, mp: string)
    | RemoveAmd(mp: string)
    | RemoveAmds(ap: Point)
    | Lookup(mp: string, want: set<Flag>)
    | PutRef(id: Id)
    | GetExpireList(ap: Point)
    | PutExpireList(ap: Point)

  /** What the callers see to: plain mounts carry no submount or amd flag, only a reference
      that is held is given back, and the mounts of a point are expired by one thread. */
  ghost predicate Enabled(m: Mnts, e: Event) {
    match e
    case Add(_, _, flags) => Autofs !in flags && AmdMount !in flags
    case PutRef(id) => id in m.holders
    case GetExpireList(ap) => MayExpire(m, ap)
    case _ => true
  }

  function Step(m: Mnts, e: Event): Mnts {
    match e
    case Add(ap, mp, flags) => AddMount(m, ap, mp, flags)
    case Remove(mp) => RemoveMount(m, mp, {Mounted})
    case AddSub(ap, parent, mp) => AddSubmount(m, ap, parent, mp).0
    case RemoveSub(mp) => RemoveSubmount(m, mp)
    case AddAmd(ap, mp) => AddAmdmount(m, ap, mp)
    case RemoveAmd(mp) => RemoveAmdmount(m, mp)
    case RemoveAmds(ap) => RemoveAmdmounts(m, Listed(m.amdmounts, ap))
    case Lookup(mp, want) => LookupMount(m, mp, want)
    case PutRef(id) => PutMount(m, id)
    case GetExpireList(ap) => GetExpire(m, ap)
    case PutExpireList(ap) => PutExpire(m, ap)
  }

  lemma StepKeeps(m: Mnts, e: Event)
    requires Inv(m) && Enabled(m, e)
    ensures Inv(Step(m, e))
  {
    match e
    case Add(ap, mp, flags) => AddMountKeeps(m, ap, mp, flags);
    case Remove(mp) => RemoveMountKeeps(m, mp);
    case AddSub(ap, parent, mp) => AddSubmountKeeps(m, ap, parent, mp);
    case RemoveSub(mp) => RemoveSubmountKeeps(m, mp);
    case AddAmd(ap, mp) => AddAmdmountKeeps(m, ap, mp);
    case RemoveAmd(mp) => RemoveAmdmountKeeps(m, mp);
    case RemoveAmds(ap) => RemoveAmdmountsKeeps(m, Listed(m.amdmounts, ap));
    case Lookup(mp, want) => LookupMountKeeps(m, mp, want);
    case PutRef(id) => PutMountKeeps(m, id);
    case GetExpireList(ap) => GetExpireKeeps(m, ap);
    case PutExpireList(ap) =>
      ListedIs(m.expire, ap);
      DropAllKeeps(m, Listed(m.expire, ap));
  }

  ghost predicate Feasible(m: Mnts, es: seq<Event>)
    decreases |es|
  {
    es == [] || (Enabled(m, es[0]) && Feasible(Step(m, es[0]), es[1..]))
  }

  function Run(m: Mnts, es: seq<Event>): Mnts
    decreases |es|
  {
    if es == [] then m else Run(Step(m, es[0]), es[1..])
  }

  lemma {:induction false} RunKeeps(m: Mnts, es: seq<Event>)
    requires Inv(m) && Feasible(m, es)
    ensures Inv(Run(m, es))
    decreases |es|
  {
    if es == [] {
    } else {
      StepKeeps(m, es[0]);
      RunKeeps(Step(m, es[0]), es[1..]);
    }
  }

  lemma Reachable(es: seq<Event>)
    requires Feasible(EMPTY, es)
    ensures Inv(Run(EMPTY, es))
  {
    RunKeeps(EMPTY, es);
  }
}
