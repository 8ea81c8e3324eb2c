/** The mount record operations as the source runs them: in place, on the hash of records and
    the lists they are linked into (lib/mounts.c:954-1343, 1499-1551).
 */
module MountRecordsTable {
  import opened Options
  import opened OffsetTree
  import opened ExpireOrder
  import opened MountRecords
  import opened MountRecordsRuns
  import opened MountRecordsLaws

  /** Records with the same identity, path and flags, whatever their reference counts. */
  predicate SameBut(a: seq<Rec>, b: seq<Rec>) {
    |a| == |b| && forall i :: 0 <= i < |a| ==> a[i] == b[i].(ref := a[i].ref)
  }

  lemma SameFind(a: seq<Rec>, b: seq<Rec>, id: Id)
    requires SameBut(a, b)
    ensures FindId(a, id) == FindId(b, id)
  {
    var i, j := FindId(a, id), FindId(b, id);
    assert i < |a| ==> b[i].id == id;
    assert j < |b| ==> a[j].id == id;
  }

  predicate InUse(hash: seq<Rec>) {
    forall i :: 0 <= i < |hash| ==> hash[i].ref > 0
  }

  lemma SameFindPath(a: seq<Rec>, b: seq<Rec>, mp: string)
    requires SameBut(a, b) && InUse(a) && InUse(b)
    ensures FindPath(a, mp) == FindPath(b, mp)
  {
    var i, j := FindPath(a, mp), FindPath(b, mp);
    assert i < |a| ==> b[i].mp == mp;
    assert j < |b| ==> a[j].mp == mp;
  }

  /** The mounted records of the point from position `k` of the mounts list on. */
  ghost function Pending(hash: seq<Rec>, mounts: seq<Link>, k: nat, ap: Point): seq<Id>
    requires k <= |mounts|
  {
    MountedOf(hash, Listed(mounts[k..], ap))
  }

  lemma PendingStep(hash: seq<Rec>, mounts: seq<Link>, k: nat, ap: Point)
    requires k < |mounts|
    ensures var i := FindId(hash, mounts[k].id); var rest := Pending(hash, mounts, k + 1, ap);
      if mounts[k].owner == ap && i < |hash| && Mounted in hash[i].flags
      then Pending(hash, mounts, k, ap) == [mounts[k].id] + rest
           && Paths(hash, [mounts[k].id] + rest) == [hash[i].mp] + Paths(hash, rest)
      else Pending(hash, mounts, k, ap) == rest
  {
    assert mounts[k..][0] == mounts[k] && mounts[k..][1..] == mounts[k + 1..];
  }

  lemma ListedFrom(list: seq<Link>, p: nat, ap: Point)
    requires p < |list|
    ensures Listed(list[p..], ap)
         == if list[p].owner == ap then [list[p].id] + Listed(list[p + 1..], ap) else Listed(list[p + 1..], ap)
  {
    assert list[p..][0] == list[p] && list[p..][1..] == list[p + 1..];
  }

  /** Taking out the entry at `p` moves the rest of the list up to it. */
  lemma {:induction false} UnlinkAt(list: seq<Link>, p: nat)
    requires NoRepeat(list) && p < |list|
    ensures Unlink(list, list[p].id) == list[..p] + list[p + 1..]
    ensures (list[..p] + list[p + 1..])[p..] == list[p + 1..]
  {
    if p == 0 {
      UnlinkFirst(list);
    } else {
      var rest := list[1..];
      UnlinkAt(rest, p - 1);
      assert list[..p] == [list[0]] + rest[..p - 1] && list[p + 1..] == rest[p..];
    }
  }

  class Table {
    var hash: seq<Rec>
    var mounts: seq<Link>
    var submounts: seq<Link>
    var amdmounts: seq<Link>
    var expire: seq<Link>
    ghost var holders: multiset<Id>
    var next: Id

    ghost function Abs(): Mnts
      reads this
    {
      Mnts(hash, mounts, submounts, amdmounts, expire, holders, next)
    }

    /** References, flags, lists and paths agree, as `MountRecordsRuns` says. */
    ghost predicate Valid()
      reads this
    {
      Inv(Abs())
    }

    constructor ()
      ensures Valid() && Abs() == EMPTY
    {
      hash, mounts, submounts, amdmounts, expire, holders, next := [], [], [], [], [], multiset{}, 0;
    }

    /** mnts_lookup: the record of the path, which is the only one it has */
    method MntsLookup(mp: string) returns (i: nat)
      ensures i == FindPath(hash, mp)
      ensures Valid() && i < |hash| ==> forall j :: 0 <= j < |hash| && hash[j].mp == mp ==> j == i
    {
      i := 0;
      while i < |hash| && !(hash[i].mp == mp && hash[i].ref > 0)
        invariant i <= |hash|
        invariant forall j :: 0 <= j < i ==> !(hash[j].mp == mp && hash[j].ref > 0)
      {
        i := i + 1;
      }
    }

    /** __mnts_put_mount: with a reference to spare the record goes only if nothing uses it */
    method PutRecord(i: nat)
      requires i < |hash|
      modifies this`hash
      ensures Abs() == Put(old(Abs()), i)
      ensures old(Slack(Abs(), i)) ==> Valid()
    {
      if Slack(Abs(), i) { PutKeeps(Abs(), i); }
      if hash[i].ref <= 1 {
        hash := hash[..i] + hash[i + 1..];
      } else {
        hash := hash[i := hash[i].(ref := hash[i].ref - 1)];
      }
    }

    /** mnts_get_mount and mnts_new_mount: a reference more than the record's users need */
    method MntsGetMount(mp: string) returns (i: nat)
      requires Valid()
      modifies this`hash, this`next
      ensures (Abs(), i) == GetMount(old(Abs()), mp)
      ensures Slack(Abs(), i) && hash[i].mp == mp
    {
      GetMountGivesSlack(Abs(), mp);
      i := MntsLookup(mp);
      if i < |hash| {
        hash := hash[i := hash[i].(ref := hash[i].ref + 1)];
      } else {
        hash := [Rec(next, mp, 1, {}, None)] + hash;
        next := next + 1;
        i := 0;
      }
    }

    /** mnts_lookup_mount, mnts_find_submount, mnts_find_amdmount: finds the record of the path if it
        has the flags asked for, takes a reference on it and changes nothing else */
    method MntsLookupMount(mp: string, want: set<Flag>) returns (found: Option<Id>)
      requires Valid()
      modifies this`hash, this`holders
      ensures Valid() && Abs() == LookupMount(old(Abs()), mp, want)
      ensures found.Some? <==>
                exists i :: 0 <= i < |old(hash)| && old(hash)[i].mp == mp && want <= old(hash)[i].flags
      ensures found.Some? ==>
                && holders == old(holders) + multiset{found.value}
                && exists i :: 0 <= i < |old(hash)| && old(hash)[i].mp == mp && old(hash)[i].id == found.value
                               && hash == old(hash)[i := old(hash)[i].(ref := old(hash)[i].ref + 1)]
      ensures found.None? ==> Abs() == old(Abs())
    {
      LookupMountKeeps(Abs(), mp, want);
      var i := MntsLookup(mp);
      if i == |hash| {
        return None;
      }
      hash := hash[i := hash[i].(ref := hash[i].ref + 1)];
      if want <= hash[i].flags {
        holders := holders + multiset{hash[i].id};
        return Some(hash[i].id);
      }
      PutRecord(i);
      assert hash == old(hash);
      return None;
    }

    /** mnts_put_mount by a caller that holds the record */
    method MntsPutMount(id: Id)
      requires Valid() && id in holders
      modifies this`hash, this`holders
      ensures Valid() && Abs() == PutMount(old(Abs()), id)
    {
      PutMountKeeps(Abs(), id);
      holders := holders - multiset{id};
      var i := FindId(hash, id);
      if i < |hash| {
        PutRecord(i);
      }
    }

    /** mnts_add_mount */
    method MntsAddMount(ap: Point, path: string, name: string, flags: set<Flag>)
      requires Valid()
      modifies this`hash, this`next, this`mounts
      ensures Abs() == AddMount(old(Abs()), ap, MountPath(path, name), flags)
      ensures Autofs !in flags && AmdMount !in flags ==> Valid()
    {
      var mp := if name != [] && name[0] == '/' then name else path + "/" + name;
      if Autofs !in flags && AmdMount !in flags { AddMountKeeps(Abs(), ap, mp, flags); }
      var i := MntsGetMount(mp);
      hash := hash[i := hash[i].(flags := hash[i].flags + flags)];
      if Mounted in hash[i].flags && !On(mounts, hash[i].id) {
        mounts := [Link(ap, hash[i].id)] + mounts;
      }
    }

    /** mnts_remove_mount: safe for the one flag its callers clear */
    method MntsRemoveMount(mp: string, flags: set<Flag>)
      requires Valid()
      modifies this`hash, this`mounts
      ensures Abs() == RemoveMount(old(Abs()), mp, flags)
      ensures flags == {Mounted} ==> Valid()
    {
      RemoveMountKeeps(Abs(), mp);
      var i := MntsLookup(mp);
      if i < |hash| && hash[i].flags * flags != {} {
        hash := hash[i := hash[i].(flags := hash[i].flags - flags)];
        if Mounted !in hash[i].flags {
          mounts := Unlink(mounts, hash[i].id);
        }
        PutRecord(i);
      }
    }

    /** mnts_add_submount: returns a record even when another point owns it */
    method MntsAddSubmount(ap: Point, parent: Point, mp: string) returns (id: Id)
      requires Valid()
      modifies this`hash, this`next, this`submounts
      ensures Valid() && (Abs(), id) == AddSubmount(old(Abs()), ap, parent, mp)
    {
      AddSubmountKeeps(Abs(), ap, parent, mp);
      var i := MntsGetMount(mp);
      id := hash[i].id;
      ghost var h := hash;
      if hash[i].ap.None? {
        hash := hash[i := hash[i].(ap := Some(ap))];
      } else if hash[i].ap.value != ap {
        PutRecord(i);
        return;
      }
      hash := hash[i := hash[i].(flags := hash[i].flags + {Autofs})];
      assert hash == h[i := h[i].(ap := Some(ap), flags := h[i].flags + {Autofs})];
      if !On(submounts, hash[i].id) {
        submounts := submounts + [Link(parent, hash[i].id)];
      }
    }

    /** mnts_remove_submount */
    method MntsRemoveSubmount(mp: string)
      requires Valid()
      modifies this`hash, this`submounts
      ensures Valid() && Abs() == RemoveSubmount(old(Abs()), mp)
    {
      RemoveSubmountKeeps(Abs(), mp);
      var i := MntsLookup(mp);
      if i < |hash| && Autofs in hash[i].flags {
        hash := hash[i := hash[i].(flags := hash[i].flags - {Autofs}, ap := None)];
        submounts := Unlink(submounts, hash[i].id);
        PutRecord(i);
      }
    }

    /** mnts_add_amdmount */
    method MntsAddAmdmount(ap: Point, mp: string)
      requires Valid()
      modifies this`hash, this`next, this`amdmounts
      ensures Valid() && Abs() == AddAmdmount(old(Abs()), ap, mp)
    {
      AddAmdmountKeeps(Abs(), ap, mp);
      var i := MntsGetMount(mp);
      hash := hash[i := hash[i].(flags := hash[i].flags + {AmdMount})];
      if !On(amdmounts, hash[i].id) {
        amdmounts := amdmounts + [Link(ap, hash[i].id)];
      }
    }

    /** __mnts_remove_amdmount */
    method MntsRemoveAmdmount(mp: string)
      requires Valid()
      modifies this`hash, this`amdmounts
      ensures Valid() && Abs() == RemoveAmdmount(old(Abs()), mp)
    {
      RemoveAmdmountKeeps(Abs(), mp);
      var i := MntsLookup(mp);
      if i < |hash| && AmdMount in hash[i].flags {
        hash := hash[i := hash[i].(flags := hash[i].flags - {AmdMount})];
        amdmounts := Unlink(amdmounts, hash[i].id);
        PutRecord(i);
      }
    }

    /** mnts_remove_amdmounts: walks the list, whose current entry each removal takes out */
    method MntsRemoveAmdmounts(ap: Point)
      requires Valid()
      modifies this`hash, this`amdmounts
      ensures Valid() && Abs() == RemoveAmdmounts(old(Abs()), Listed(old(amdmounts), ap))
      ensures Listed(amdmounts, ap) == []
    {
      RemoveAmdmountsEmpties(Abs(), ap);
      var p := 0;
      assert amdmounts[0..] == amdmounts;
      while p < |amdmounts|
        invariant 0 <= p <= |amdmounts| && Valid()
        invariant RemoveAmdmounts(Abs(), Listed(amdmounts[p..], ap))
               == RemoveAmdmounts(old(Abs()), Listed(old(amdmounts), ap))
        decreases |amdmounts| - p
      {
        var link := amdmounts[p];
        ListedFrom(amdmounts, p, ap);
        if link.owner == ap {
          RemoveAmdmountUnlinks(Abs(), link.id) by { assert On(amdmounts, link.id); }
          UnlinkAt(amdmounts, p);
          MntsRemoveAmdmount(hash[FindId(hash, link.id)].mp);
        } else {
          p := p + 1;
        }
      }
      assert amdmounts[p..] == [];
    }

    /** The loop of mnts_get_expire_list: a reference and a tree node for each mounted record */
    method TakeReferences(ap: Point) returns (tree: Tree)
      requires InUse(hash)
      modifies this`hash
      ensures hash == GetAll(old(hash), MountedOf(old(hash), Listed(mounts, ap)))
      ensures tree == ExpireTree(Paths(old(hash), MountedOf(old(hash), Listed(mounts, ap))))
      ensures SameBut(hash, old(hash)) && InUse(hash)
    {
      tree := Leaf;
      ghost var hash0 := hash;
      ghost var all := Pending(hash, mounts, 0, ap);
      assert mounts[0..] == mounts;
      var k := 0;
      while k < |mounts|
        invariant k <= |mounts| && SameBut(hash, hash0) && InUse(hash)
        invariant GetAll(hash, Pending(hash0, mounts, k, ap)) == GetAll(hash0, all)
        invariant InsertAll(MntCmp, tree, Paths(hash0, Pending(hash0, mounts, k, ap)))
               == ExpireTree(Paths(hash0, all))
      {
        var link := mounts[k];
        var i := FindId(hash, link.id);
        SameFind(hash, hash0, link.id);
        PendingStep(hash0, mounts, k, ap);
        if link.owner == ap && i < |hash| && Mounted in hash[i].flags {
          tree := Insert(MntCmp, tree, hash[i].mp);
          hash := hash[i := hash[i].(ref := hash[i].ref + 1)];
        }
        k := k + 1;
      }
    }

    /** mnts_get_expire_list, when no mount of the point is on an expire list yet */
    method MntsGetExpireList(ap: Point)
      requires Valid() && MayExpire(Abs(), ap)
      modifies this`hash, this`expire
      ensures Valid() && Abs() == GetExpire(old(Abs()), ap)
    {
      GetExpireKeeps(Abs(), ap);
      assert InUse(hash) by {
        forall i | 0 <= i < |hash| ensures hash[i].ref > 0 { assert RecOk(Abs(), hash[i]); }
      }
      var tree := TakeReferences(ap);
      Traverse(tree, ap, old(hash));
    }

    /** tree_traverse_inorder with tree_mnt_expire_list_work */
    method Traverse(t: Tree, ap: Point, ghost hash0: seq<Rec>)
      requires SameBut(hash, hash0) && InUse(hash) && InUse(hash0)
      modifies this`expire
      ensures expire == LinkTree(hash0, ap, old(expire), t)
      decreases t
    {
      if t.Node? {
        Traverse(t.left, ap, hash0);
        var i := MntsLookup(t.key);
        SameFindPath(hash, hash0, t.key);
        if i < |hash| && !EndsInSlash(t.key) {
          expire := [Link(ap, hash[i].id)] + expire;
        }
        Traverse(t.right, ap, hash0);
      }
    }

    /** mnts_put_expire_list: walks the list, unlinking each entry before its record is put */
    method MntsPutExpireList(ap: Point)
      requires Valid()
      modifies this`hash, this`expire
      ensures Valid() && Abs() == PutExpire(old(Abs()), ap)
    {
      var p := 0;
      assert expire[0..] == expire;
      while p < |expire|
        invariant 0 <= p <= |expire| && Valid()
        invariant DropAll(Abs(), Listed(expire[p..], ap)) == PutExpire(old(Abs()), ap)
        decreases |expire| - p
      {
        var link := expire[p];
        ListedFrom(expire, p, ap);
        if link.owner == ap {
          DropKeeps(Abs(), link.id) by { assert On(expire, link.id); }
          UnlinkAt(expire, p);
          assert Referred(Abs(), link.id) by { assert On(expire, link.id); }
          expire := Unlink(expire, link.id);
          PutRecord(FindId(hash, link.id));
        } else {
          p := p + 1;
        }
      }
      assert expire[p..] == [];
    }
  }
}
