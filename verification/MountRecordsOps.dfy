/** Each operation on the mount records in terms of the records and lists before it, for every state
    in which they agree (lib/mounts.c:1004-1343).
 */
module MountRecordsOps {
  import opened Options
  import opened MountRecords
  import opened MountRecordsRuns
  import opened MountRecordsLaws

  /** The path has no record. */
  predicate Unknown(m: Mnts, mp: string) {
    forall i :: 0 <= i < |m.hash| ==> m.hash[i].mp != mp
  }

  lemma UnknownPath(m: Mnts, mp: string)
    requires Unknown(m, mp)
    ensures FindPath(m.hash, mp) == |m.hash|
  {
  }

  /** The records with one reference to the record at `i` given back: the last one frees it. */
  function GiveBack(hash: seq<Rec>, i: nat, flags: set<Flag>, ap: Option<nat>): seq<Rec>
    requires i < |hash|
  {
    if hash[i].ref <= 1 then hash[..i] + hash[i + 1..]
    else hash[i := hash[i].(ref := hash[i].ref - 1, flags := flags, ap := ap)]
  }

  /** A lookup finds the record of the path that has the flags asked for, and takes a reference. */
  lemma LookupFinds(m: Mnts, i: nat, want: set<Flag>)
    requires Inv(m) && i < |m.hash|
    ensures var r := m.hash[i];
      LookupMount(m, r.mp, want) ==
        if want <= r.flags
        then m.(hash := m.hash[i := r.(ref := r.ref + 1)], holders := m.holders + multiset{r.id})
        else m
  {
    KnownPath(m, i);
  }

  lemma LookupUnknown(m: Mnts, mp: string, want: set<Flag>)
    requires Unknown(m, mp)
    ensures LookupMount(m, mp, want) == m
  {
    UnknownPath(m, mp);
  }

  /** A holder gives its reference back. */
  lemma PutGivesBack(m: Mnts, i: nat)
    requires Inv(m) && i < |m.hash| && m.hash[i].id in m.holders
    ensures PutMount(m, m.hash[i].id) ==
              m.(hash := GiveBack(m.hash, i, m.hash[i].flags, m.hash[i].ap),
                 holders := m.holders - multiset{m.hash[i].id})
  {
    FindIdIs(m.hash, i);
    assert RecOk(m, m.hash[i]);
  }

  /** Adding a mount takes a reference, sets the flags, and links the record first in the point's
      list when it becomes mounted. */
  lemma AddMountIs(m: Mnts, ap: Point, i: nat, flags: set<Flag>)
    requires Inv(m) && i < |m.hash|
    ensures var r := m.hash[i];
      AddMount(m, ap, r.mp, flags) ==
        m.(hash := m.hash[i := r.(ref := r.ref + 1, flags := r.flags + flags)],
           mounts := if Mounted in flags && Mounted !in r.flags then [Link(ap, r.id)] + m.mounts else m.mounts)
  {
    KnownPath(m, i);
    assert RecOk(m, m.hash[i]);
  }

  lemma AddMountNew(m: Mnts, ap: Point, mp: string, flags: set<Flag>)
    requires Inv(m) && Unknown(m, mp)
    ensures AddMount(m, ap, mp, flags) ==
              m.(hash := [Rec(m.next, mp, 1, flags, None)] + m.hash, next := m.next + 1,
                 mounts := if Mounted in flags then [Link(ap, m.next)] + m.mounts else m.mounts)
  {
    UnknownPath(m, mp);
    NewOnNoList(m);
    assert {} + flags == flags;
    var r := Rec(m.next, mp, 1, flags, None);
    assert ([Rec(m.next, mp, 1, {}, None)] + m.hash)[0 := r] == [r] + m.hash;
  }

  lemma NewOnNoList(m: Mnts)
    requires Inv(m)
    ensures !On(m.mounts, m.next) && !On(m.submounts, m.next) && !On(m.amdmounts, m.next) && !On(m.expire, m.next)
  {
    var i := FindId(m.hash, m.next);
    assert i < |m.hash| ==> RecOk(m, m.hash[i]);
    assert !Referred(m, m.next);
  }

  /** Removing a mount clears the flag, unlinks the record and gives the flag's reference back. */
  lemma RemoveMountIs(m: Mnts, i: nat)
    requires Inv(m) && i < |m.hash|
    ensures var r := m.hash[i];
      RemoveMount(m, r.mp, {Mounted}) ==
        if Mounted in r.flags
        then m.(hash := GiveBack(m.hash, i, r.flags - {Mounted}, r.ap), mounts := Unlink(m.mounts, r.id))
        else m
  {
    KnownPath(m, i);
    var r := m.hash[i];
    assert RecOk(m, r);
    assert r.flags * {Mounted} == {} <==> Mounted !in r.flags by {
      if Mounted in r.flags { assert Mounted in r.flags * {Mounted}; }
    }
  }

  /** Adding a submount to a record without an owner, or the point's own: it gets the owner, the
      flag and a reference, and is linked last in the parent's list when it was not flagged. */
  lemma AddSubmountIs(m: Mnts, ap: Point, parent: Point, i: nat)
    requires Inv(m) && i < |m.hash| && (m.hash[i].ap.None? || m.hash[i].ap == Some(ap))
    ensures var r := m.hash[i];
      AddSubmount(m, ap, parent, r.mp) ==
        (m.(hash := m.hash[i := r.(ref := r.ref + 1, flags := r.flags + {Autofs}, ap := Some(ap))],
            submounts := if Autofs in r.flags then m.submounts else m.submounts + [Link(parent, r.id)]), r.id)
  {
    KnownPath(m, i);
    assert RecOk(m, m.hash[i]);
    var r := m.hash[i].(ref := m.hash[i].ref + 1);
    var x := r.(ap := Some(ap), flags := r.flags + {Autofs});
    assert m.hash[i := r][i := x] == m.hash[i := x];
  }

  lemma AddSubmountNew(m: Mnts, ap: Point, parent: Point, mp: string)
    requires Inv(m) && Unknown(m, mp)
    ensures AddSubmount(m, ap, parent, mp) ==
              (m.(hash := [Rec(m.next, mp, 1, {Autofs}, Some(ap))] + m.hash, next := m.next + 1,
                  submounts := m.submounts + [Link(parent, m.next)]), m.next)
  {
    UnknownPath(m, mp);
    NewOnNoList(m);
    assert {} + {Autofs} == {Autofs};
    var r := Rec(m.next, mp, 1, {Autofs}, Some(ap));
    assert ([Rec(m.next, mp, 1, {}, None)] + m.hash)[0 := r] == [r] + m.hash;
  }

  /** Removing a submount clears owner and flag, unlinks the record and gives a reference back. */
  lemma RemoveSubmountIs(m: Mnts, i: nat)
    requires Inv(m) && i < |m.hash|
    ensures var r := m.hash[i];
      RemoveSubmount(m, r.mp) ==
        if Autofs in r.flags
        then m.(hash := GiveBack(m.hash, i, r.flags - {Autofs}, None), submounts := Unlink(m.submounts, r.id))
        else m
  {
    KnownPath(m, i);
    assert RecOk(m, m.hash[i]);
  }

  /** Adding an amd mount: a reference, the flag, and last in the point's list when new. */
  lemma AddAmdmountIs(m: Mnts, ap: Point, i: nat)
    requires Inv(m) && i < |m.hash|
    ensures var r := m.hash[i];
      AddAmdmount(m, ap, r.mp) ==
        m.(hash := m.hash[i := r.(ref := r.ref + 1, flags := r.flags + {AmdMount})],
           amdmounts := if AmdMount in r.flags then m.amdmounts else m.amdmounts + [Link(ap, r.id)])
  {
    KnownPath(m, i);
    assert RecOk(m, m.hash[i]);
  }

  lemma AddAmdmountNew(m: Mnts, ap: Point, mp: string)
    requires Inv(m) && Unknown(m, mp)
    ensures AddAmdmount(m, ap, mp) ==
              m.(hash := [Rec(m.next, mp, 1, {AmdMount}, None)] + m.hash, next := m.next + 1,
                 amdmounts := m.amdmounts + [Link(ap, m.next)])
  {
    UnknownPath(m, mp);
    NewOnNoList(m);
    assert {} + {AmdMount} == {AmdMount};
    var r := Rec(m.next, mp, 1, {AmdMount}, None);
    assert ([Rec(m.next, mp, 1, {}, None)] + m.hash)[0 := r] == [r] + m.hash;
  }

  lemma RemoveAmdmountIs(m: Mnts, i: nat)
    requires Inv(m) && i < |m.hash|
    ensures var r := m.hash[i];
      RemoveAmdmount(m, r.mp) ==
        if AmdMount in r.flags
        then m.(hash := GiveBack(m.hash, i, r.flags - {AmdMount}, r.ap), amdmounts := Unlink(m.amdmounts, r.id))
        else m
  {
    KnownPath(m, i);
    assert RecOk(m, m.hash[i]);
  }

  /** Removals know their path. */
  lemma RemoveUnknown(m: Mnts, mp: string, flags: set<Flag>)
    requires Unknown(m, mp)
    ensures RemoveMount(m, mp, flags) == m && RemoveSubmount(m, mp) == m && RemoveAmdmount(m, mp) == m
  {
    UnknownPath(m, mp);
  }

  /** An absolute name is its own path, and another one follows the point's path and a slash. */
  lemma MountPathIs(path: string, name: string)
    ensures name != [] && name[0] == '/' ==> MountPath(path, name) == name
    ensures name == [] || name[0] != '/' ==> MountPath(path, name) == path + "/" + name
  {
  }
}
