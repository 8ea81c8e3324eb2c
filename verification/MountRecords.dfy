/** The reference-counted records of mounts (lib/mounts.c, mnts_*).

    A record is found by its path through a hash, counts its users in `ref`, and is linked
    into the mounts, submounts and amd mounts lists of autofs points and into the list of a
    running expire.  This module gives the records and lists as a value and proves, for every
    run, that a record is freed only when nothing refers to it any more.
 */
module MountRecords {
  import opened Options
  import opened OffsetTree
  import opened ExpireOrder

  type Id = nat
  type Point = nat

  datatype Flag = Mounted | Autofs | AmdMount | Offset | Direct | Indirect

  datatype Rec = Rec(id: Id, mp: string, ref: nat, flags: set<Flag>, ap: Option<Point>)

  /** An entry of an intrusive list: the list's owner and the record linked into it. */
  datatype Link = Link(owner: nat, id: Id)

  /** `hash` is the chain of live records; `holders` are the references handed to callers. */
  datatype Mnts = Mnts(
    hash: seq<Rec>,
    mounts: seq<Link>,
    submounts: seq<Link>,
    amdmounts: seq<Link>,
    expire: seq<Link>,
    holders: multiset<Id>,
    next: Id)

  const EMPTY := Mnts([], [], [], [], [], multiset{}, 0)

  // ----- records and lists

  /** mnts_lookup: index of the first record of the path that is in use */
  function FindPath(hash: seq<Rec>, mp: string): (i: nat)
    ensures i <= |hash|
    ensures i < |hash| ==> hash[i].mp == mp && hash[i].ref > 0
    ensures forall j :: 0 <= j < i ==> !(hash[j].mp == mp && hash[j].ref > 0)
  {
    if hash == [] || (hash[0].mp == mp && hash[0].ref > 0) then 0
    else
      var r := FindPath(hash[1..], mp);
      assert forall j :: 1 <= j < r + 1 ==> hash[j] == hash[1..][j - 1];
      r + 1
  }

  function FindId(hash: seq<Rec>, id: Id): (i: nat)
    ensures i <= |hash|
    ensures i < |hash| ==> hash[i].id == id
    ensures forall j :: 0 <= j < i ==> hash[j].id != id
  {
    if hash == [] || hash[0].id == id then 0
    else
      var r := FindId(hash[1..], id);
      assert forall j :: 1 <= j < r + 1 ==> hash[j] == hash[1..][j - 1];
      r + 1
  }

  predicate On(list: seq<Link>, id: Id) {
    exists k :: 0 <= k < |list| && list[k].id == id
  }

  /** list_del_init of the record's node */
  function Unlink(list: seq<Link>, id: Id): seq<Link> {
    if list == [] then []
    else if list[0].id == id then Unlink(list[1..], id)
    else [list[0]] + Unlink(list[1..], id)
  }

  lemma UnlinkIs(list: seq<Link>, id: Id)
    ensures forall l :: l in Unlink(list, id) <==> l in list && l.id != id
    ensures forall x :: On(Unlink(list, id), x) <==> On(list, x) && x != id
  {
    UnlinkMembers(list, id);
    var r := Unlink(list, id);
    forall x ensures On(r, x) <==> On(list, x) && x != id {
      if On(r, x) {
        var k :| 0 <= k < |r| && r[k].id == x;
        assert r[k] in list;
        var j :| 0 <= j < |list| && list[j] == r[k];
      }
      if On(list, x) && x != id {
        var k :| 0 <= k < |list| && list[k].id == x;
        assert list[k] in r;
        var j :| 0 <= j < |r| && r[j] == list[k];
      }
    }
  }

  lemma {:induction false} UnlinkMembers(list: seq<Link>, id: Id)
    ensures forall l :: l in Unlink(list, id) <==> l in list && l.id != id
  {
    if list == [] {
    } else {
      UnlinkMembers(list[1..], id);
      assert list == [list[0]] + list[1..];
    }
  }

  lemma OnAppend(a: seq<Link>, b: seq<Link>, x: Id)
    ensures On(a + b, x) <==> On(a, x) || On(b, x)
  {
    if k :| 0 <= k < |a| && a[k].id == x { assert (a + b)[k].id == x; }
    if k :| 0 <= k < |b| && b[k].id == x { assert (a + b)[|a| + k].id == x; }
  }

  lemma OnOne(l: Link, x: Id)
    ensures On([l], x) <==> l.id == x
  {
    assert [l][0] == l;
  }

  // ----- reference counts

  function SetRec(m: Mnts, i: nat, r: Rec): Mnts
    requires i < |m.hash|
  {
    m.(hash := m.hash[i := r])
  }

  /** __mnts_get_mount */
  function Get(m: Mnts, i: nat): Mnts
    requires i < |m.hash|
  {
    SetRec(m, i, m.hash[i].(ref := m.hash[i].ref + 1))
  }

  /** __mnts_put_mount: the last reference frees the record */
  function Put(m: Mnts, i: nat): Mnts
    requires i < |m.hash|
  {
    if m.hash[i].ref <= 1 then m.(hash := m.hash[..i] + m.hash[i + 1..])
    else SetRec(m, i, m.hash[i].(ref := m.hash[i].ref - 1))
  }

  /** mnts_get_mount: a reference on the record of the path, new if need be; its index */
  function GetMount(m: Mnts, mp: string): (r: (Mnts, nat))
    ensures r.1 < |r.0.hash|
  {
    var i := FindPath(m.hash, mp);
    if i < |m.hash| then (Get(m, i), i)
    else (m.(hash := [Rec(m.next, mp, 1, {}, None)] + m.hash, next := m.next + 1), 0)
  }

  // ----- the operations

  /** mnts_lookup_mount; also mnts_find_submount and mnts_find_amdmount, which give back the
      reference at once unless the record carries the flag asked for */
  function LookupMount(m: Mnts, mp: string, want: set<Flag>): Mnts {
    var i := FindPath(m.hash, mp);
    if i == |m.hash| || !(want <= m.hash[i].flags) then m
    else Get(m, i).(holders := m.holders + multiset{m.hash[i].id})
  }

  /** mnts_put_mount by a caller that holds a reference */
  function PutMount(m: Mnts, id: Id): Mnts {
    var i := FindId(m.hash, id);
    var m' := m.(holders := m.holders - multiset{id});
    if i == |m.hash| then m' else Put(m', i)
  }

  /** The path mnts_add_mount records for a name, absolute or relative to the point. */
  function MountPath(path: string, name: string): string {
    if name != [] && name[0] == '/' then name else path + "/" + name
  }

  /** mnts_add_mount */
  function AddMount(m: Mnts, ap: Point, mp: string, flags: set<Flag>): Mnts {
    var (m1, i) := GetMount(m, mp);
    var r := m1.hash[i].(flags := m1.hash[i].flags + flags);
    var m2 := SetRec(m1, i, r);
    if Mounted in r.flags && !On(m2.mounts, r.id) then m2.(mounts := [Link(ap, r.id)] + m2.mounts) else m2
  }

  /** mnts_remove_mount */
  function RemoveMount(m: Mnts, mp: string, flags: set<Flag>): Mnts {
    var i := FindPath(m.hash, mp);
    if i == |m.hash| || m.hash[i].flags * flags == {} then m
    else
      var r := m.hash[i].(flags := m.hash[i].flags - flags);
      var m1 := SetRec(m, i, r);
      Put(if Mounted in r.flags then m1 else m1.(mounts := Unlink(m1.mounts, r.id)), i)
  }

  /** mnts_add_submount: the records, and the record returned.  When another point owns the
      record its reference is dropped again, but it is returned all the same. */
  function AddSubmount(m: Mnts, ap: Point, parent: Point, mp: string): (Mnts, Id) {
    var (m1, i) := GetMount(m, mp);
    var r := m1.hash[i];
    if r.ap.Some? && r.ap.value != ap then (Put(m1, i), r.id)
    else
      var m2 := SetRec(m1, i, r.(ap := Some(ap), flags := r.flags + {Autofs}));
      (if On(m2.submounts, r.id) then m2 else m2.(submounts := m2.submounts + [Link(parent, r.id)]), r.id)
  }

  /** mnts_remove_submount */
  function RemoveSubmount(m: Mnts, mp: string): Mnts {
    var i := FindPath(m.hash, mp);
    if i == |m.hash| || Autofs !in m.hash[i].flags then m
    else
      var r := m.hash[i].(flags := m.hash[i].flags - {Autofs}, ap := None);
      Put(SetRec(m, i, r).(submounts := Unlink(m.submounts, r.id)), i)
  }

  /** mnts_add_amdmount */
  function AddAmdmount(m: Mnts, ap: Point, mp: string): Mnts {
    var (m1, i) := GetMount(m, mp);
    var r := m1.hash[i].(flags := m1.hash[i].flags + {AmdMount});
    var m2 := SetRec(m1, i, r);
    if On(m2.amdmounts, r.id) then m2 else m2.(amdmounts := m2.amdmounts + [Link(ap, r.id)])
  }

  /** __mnts_remove_amdmount */
  function RemoveAmdmount(m: Mnts, mp: string): Mnts {
    var i := FindPath(m.hash, mp);
    if i == |m.hash| || AmdMount !in m.hash[i].flags then m
    else
      var r := m.hash[i].(flags := m.hash[i].flags - {AmdMount});
      Put(SetRec(m, i, r).(amdmounts := Unlink(m.amdmounts, r.id)), i)
  }

  /** mnts_remove_amdmounts: the amd mounts of one point, in list order */
  function RemoveAmdmounts(m: Mnts, ids: seq<Id>): Mnts
    decreases |ids|
  {
    if ids == [] then m
    else
      var i := FindId(m.hash, ids[0]);
      RemoveAmdmounts(if i == |m.hash| then m else RemoveAmdmount(m, m.hash[i].mp), ids[1..])
  }

  /** The records linked into a list by `owner`, in list order. */
  function Listed(list: seq<Link>, owner: nat): seq<Id> {
    if list == [] then []
    else if list[0].owner == owner then [list[0].id] + Listed(list[1..], owner)
    else Listed(list[1..], owner)
  }

  // ----- the expire list of a point

  /** The paths of the records of `ids`. */
  function Paths(hash: seq<Rec>, ids: seq<Id>): seq<string> {
    if ids == [] then []
    else
      var i := FindId(hash, ids[0]);
      if i == |hash| then Paths(hash, ids[1..]) else [hash[i].mp] + Paths(hash, ids[1..])
  }

  /** The records of the point that are mounted. */
  function MountedOf(hash: seq<Rec>, ids: seq<Id>): seq<Id> {
    if ids == [] then []
    else
      var i := FindId(hash, ids[0]);
      if i < |hash| && Mounted in hash[i].flags then [ids[0]] + MountedOf(hash, ids[1..])
      else MountedOf(hash, ids[1..])
  }

  /** A reference for each record of `ids`. */
  function GetAll(hash: seq<Rec>, ids: seq<Id>): seq<Rec>
    decreases |ids|
  {
    if ids == [] then hash
    else
      var i := FindId(hash, ids[0]);
      GetAll(if i == |hash| then hash else hash[i := hash[i].(ref := hash[i].ref + 1)], ids[1..])
  }

  /** tree_mnt_expire_list_work on the record of a path */
  function LinkExpire(hash: seq<Rec>, ap: Point, list: seq<Link>, mp: string): seq<Link> {
    var i := FindPath(hash, mp);
    if i == |hash| || EndsInSlash(mp) then list else [Link(ap, hash[i].id)] + list
  }

  /** tree_traverse_inorder with that work */
  function LinkTree(hash: seq<Rec>, ap: Point, list: seq<Link>, t: Tree): seq<Link>
    decreases t
  {
    match t
    case Leaf => list
    case Node(l, mp, r) => LinkTree(hash, ap, LinkExpire(hash, ap, LinkTree(hash, ap, list, l), mp), r)
  }

  /** mnts_get_expire_list */
  function GetExpire(m: Mnts, ap: Point): Mnts {
    var ids := MountedOf(m.hash, Listed(m.mounts, ap));
    m.(hash := GetAll(m.hash, ids),
       expire := LinkTree(m.hash, ap, m.expire, ExpireTree(Paths(m.hash, ids))))
  }

  /** mnts_put_expire_list for one record: unlink it and give the reference back */
  function DropFromExpire(m: Mnts, id: Id): Mnts {
    var i := FindId(m.hash, id);
    if i == |m.hash| then m else Put(m.(expire := Unlink(m.expire, id)), i)
  }

  function DropAll(m: Mnts, ids: seq<Id>): Mnts
    decreases |ids|
  {
    if ids == [] then m else DropAll(DropFromExpire(m, ids[0]), ids[1..])
  }

  /** mnts_put_expire_list */
  function PutExpire(m: Mnts, ap: Point): Mnts {
    DropAll(m, Listed(m.expire, ap))
  }

  // ----- the invariant

  function Bit(b: bool): nat { if b then 1 else 0 }

  /** References a record must have: one per list flag, one per holder, one while on an
      expire list. */
  function Needed(m: Mnts, r: Rec): nat {
    Bit(Mounted in r.flags) + Bit(Autofs in r.flags) + Bit(AmdMount in r.flags)
    + m.holders[r.id] + Bit(On(m.expire, r.id))
  }

  predicate RecOk(m: Mnts, r: Rec) {
    && r.id < m.next && r.ref > 0 && r.ref >= Needed(m, r)
    && (On(m.mounts, r.id) <==> Mounted in r.flags)
    && (On(m.submounts, r.id) <==> Autofs in r.flags)
    && (On(m.amdmounts, r.id) <==> AmdMount in r.flags)
    && (r.ap.Some? <==> Autofs in r.flags)
  }

  predicate Live(m: Mnts, id: Id) {
    FindId(m.hash, id) < |m.hash|
  }

  predicate NoRepeat(list: seq<Link>) {
    forall i, j :: 0 <= i < j < |list| ==> list[i].id != list[j].id
  }

  predicate UniqueRecs(hash: seq<Rec>) {
    forall i, j :: 0 <= i < j < |hash| ==> hash[i].id != hash[j].id && hash[i].mp != hash[j].mp
  }

  predicate RecsOk(m: Mnts) {
    forall i :: 0 <= i < |m.hash| ==> RecOk(m, m.hash[i])
  }

  predicate Referred(m: Mnts, x: Id) {
    On(m.mounts, x) || On(m.submounts, x) || On(m.amdmounts, x) || On(m.expire, x) || x in m.holders
  }

  ghost predicate Inv(m: Mnts) {
    && UniqueRecs(m.hash) && RecsOk(m)
    && NoRepeat(m.mounts) && NoRepeat(m.submounts) && NoRepeat(m.amdmounts) && NoRepeat(m.expire)
    && (forall x :: Referred(m, x) ==> Live(m, x))
  }
}
