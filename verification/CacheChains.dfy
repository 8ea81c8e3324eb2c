/** The hash chains of the map entry cache as the source stores them: singly linked nodes
    whose `next` links are rewritten in place (lib/cache.c), proved to follow the chain
    functions of `CacheTable`.
 */
module CacheChains {
  import opened Options
  import opened CacheTable

  class Mapent {
    var e: Ent
    var next: Mapent?

    constructor (e: Ent)
      ensures this.e == e && next == null
    {
      this.e, next := e, null;
    }
  }

  // ----- links as values

  type Links = map<Mapent, Mapent?>

  /** Following the links `l` from `n` meets exactly the nodes `s`. */
  predicate Leads(n: Mapent?, s: seq<Mapent>, l: Links) {
    if s == [] then n == null
    else n == s[0] && s[0] in l && Leads(l[s[0]], s[1..], l)
  }

  predicate Distinct(s: seq<Mapent>) {
    forall i, j :: 0 <= i < j < |s| ==> s[i] != s[j]
  }

  lemma {:induction false} LeadsFrame(n: Mapent?, s: seq<Mapent>, l: Links, l': Links)
    requires Leads(n, s, l)
    requires forall m :: m in s && m in l ==> m in l' && l'[m] == l[m]
    ensures Leads(n, s, l')
  {
    if s == [] {
    } else {
      LeadsFrame(l[s[0]], s[1..], l, l');
    }
  }

  lemma {:induction false} LeadsAt(n: Mapent?, s: seq<Mapent>, l: Links, i: nat)
    requires Leads(n, s, l) && i < |s|
    ensures s[i] in l && l[s[i]] == if i + 1 < |s| then s[i + 1] else null
    ensures Leads(l[s[i]], s[i + 1..], l)
  {
    if i == 0 {
    } else {
      LeadsAt(l[s[0]], s[1..], l, i - 1);
      assert s[1..][i - 1 + 1..] == s[i + 1..];
    }
  }

  lemma {:induction false} LeadsUnique(n: Mapent?, s: seq<Mapent>, s': seq<Mapent>, l: Links)
    requires Leads(n, s, l) && Leads(n, s', l)
    ensures s == s'
  {
    if s == [] {
    } else {
      LeadsUnique(l[s[0]], s[1..], s'[1..], l);
      assert s == [s[0]] + s[1..] && s' == [s'[0]] + s'[1..];
    }
  }

  /** A chain that ends cannot pass a node twice. */
  lemma LeadsDistinct(n: Mapent?, s: seq<Mapent>, l: Links)
    requires Leads(n, s, l)
    ensures Distinct(s)
  {
    forall i, j | 0 <= i < j < |s| ensures s[i] != s[j] {
      LeadsAt(n, s, l, i);
      LeadsAt(n, s, l, j);
      if s[i] == s[j] {
        LeadsUnique(l[s[i]], s[i + 1..], s[j + 1..], l);
      }
    }
  }

  /** Rewriting the link of node `i` replaces what follows it. */
  lemma {:induction false} LeadsRelink(n: Mapent?, s: seq<Mapent>, l: Links, i: nat, to: Mapent?,
                                       rest: seq<Mapent>, l': Links)
    requires Leads(n, s, l) && i < |s| && Leads(to, rest, l')
    requires forall m :: m in s[..i] && m in l ==> m in l' && l'[m] == l[m]
    requires s[i] in l' && l'[s[i]] == to
    ensures Leads(n, s[..i + 1] + rest, l')
  {
    var r := s[..i + 1] + rest;
    assert r[0] == s[0] && r[1..] == s[1..][..i] + rest;
    if i == 0 {
      assert r[1..] == rest;
    } else {
      assert s[0] in s[..i];
      assert forall m :: m in s[1..][..i - 1] ==> m in s[..i];
      assert s[1..][..i - 1 + 1] == s[1..][..i];
      LeadsRelink(l[s[0]], s[1..], l, i - 1, to, rest, l');
    }
  }

  function Remove<T>(s: seq<T>, k: nat): (r: seq<T>)
    requires k < |s|
    ensures |r| == |s| - 1
    ensures forall j :: 0 <= j < k ==> r[j] == s[j]
    ensures forall j :: k <= j < |r| ==> r[j] == s[j + 1]
    ensures forall x :: x in r ==> x in s
  {
    if k == 0 then s[1..]
    else
      var t := Remove(s[1..], k - 1);
      assert forall j :: 0 <= j < k - 1 ==> t[j] == s[j + 1];
      assert forall j :: k - 1 <= j < |t| ==> t[j] == s[j + 2];
      [s[0]] + t
  }

  /** Making the node before `k` point past it takes node `k` out of the chain. */
  lemma {:induction false} LeadsRemove(n: Mapent?, s: seq<Mapent>, l: Links, k: nat, l': Links)
    requires Leads(n, s, l) && Distinct(s) && 0 < k < |s|
    requires forall m :: m in s && m != s[k - 1] && m != s[k] ==> m in l && m in l' && l'[m] == l[m]
    requires s[k] in l && s[k - 1] in l' && l'[s[k - 1]] == l[s[k]]
    ensures Leads(n, Remove(s, k), l')
  {
    var r := Remove(s, k);
    if k == 1 {
      assert r == [s[0]] + Remove(s[1..], 0);
      assert r[1..] == s[1..][1..] == s[2..];
      LeadsAt(n, s, l, 1);
      forall m | m in s[2..] ensures m in l' && l'[m] == l[m] {
        var j :| 0 <= j < |s[2..]| && s[2..][j] == m;
        assert m == s[j + 2];
      }
      LeadsFrame(l[s[1]], s[2..], l, l');
    } else {
      assert r == [s[0]] + Remove(s[1..], k - 1);
      assert r[1..] == Remove(s[1..], k - 1);
      LeadsRemove(l[s[0]], s[1..], l, k - 1, l');
    }
  }

  // ----- one slot of the hash table

  class HashChain {
    var head: Mapent?
    ghost var nodes: seq<Mapent>
    ghost var contents: seq<Ent>

    ghost function NextLinks(): Links
      reads this`nodes, nodes`next
    {
      map m | m in nodes :: m.next
    }

    /** The links lead through exactly these nodes. */
    ghost predicate Shape()
      reads this`head, this`nodes, nodes`next
    {
      Leads(head, nodes, NextLinks())
    }

    /** The nodes hold exactly these entries. */
    ghost predicate Holds()
      reads this`nodes, this`contents, nodes`e
    {
      |contents| == |nodes| && forall i :: 0 <= i < |nodes| ==> nodes[i].e == contents[i]
    }

    ghost predicate Valid()
      reads this, nodes
    {
      Shape() && Holds()
    }

    constructor ()
      ensures Valid() && contents == [] && nodes == []
    {
      head, nodes, contents := null, [], [];
    }

    /** The loop of cache_lookup_distinct */
    method Lookup(key: string) returns (me: Mapent?, ghost i: nat)
      requires Valid()
      ensures i == First(contents, key)
      ensures me == if i < |nodes| then nodes[i] else null
    {
      me, i := head, 0;
      while me != null
        invariant 0 <= i <= |nodes|
        invariant me == if i < |nodes| then nodes[i] else null
        invariant forall j :: 0 <= j < i ==> nodes[j].e.key != key
        decreases |nodes| - i
      {
        if me.e.key == key {
          FirstIs(contents, key, i);
          return;
        }
        LeadsAt(head, nodes, NextLinks(), i);
        me, i := me.next, i + 1;
      }
      FirstIs(contents, key, i);
    }

    /** cache_lookup_key_next; the source loops for ever on an offset that has a successor */
    method KeyNext(me: Mapent, ghost i: nat) returns (next: Mapent?, ghost j: nat)
      requires Valid() && i < |nodes| && me == nodes[i]
      requires me.e.mm.Offset? ==> i + 1 == |nodes|
      ensures i < j <= |nodes|
      ensures next == if j < |nodes| then nodes[j] else null
      ensures j < |nodes| ==> nodes[j].e.key == me.e.key
      ensures forall k :: i < k < j ==> nodes[k].e.key != me.e.key
    {
      LeadsAt(head, nodes, NextLinks(), i);
      next, j := me.next, i + 1;
      while next != null
        invariant i < j <= |nodes|
        invariant next == if j < |nodes| then nodes[j] else null
        invariant forall k :: i < k < j ==> nodes[k].e.key != me.e.key
        decreases |nodes| - j
      {
        if next.e.key == me.e.key {
          return;
        }
        LeadsAt(head, nodes, NextLinks(), j);
        next, j := next.next, j + 1;
      }
    }

    /** The last entry of the key of `me`, as cache_add looks for it */
    method LastOf(me: Mapent, ghost i: nat) returns (last: Mapent, ghost j: nat)
      requires Valid() && i < |nodes| && me == nodes[i]
      requires forall k :: 0 <= k < |nodes| && nodes[k].e.key == me.e.key && nodes[k].e.mm.Offset? ==> k + 1 == |nodes|
      ensures j < |nodes| && last == nodes[j]
      ensures AfterLast(contents, me.e.key) == j + 1
    {
      last, j := me, i;
      while true
        invariant j < |nodes| && last == nodes[j] && last.e.key == me.e.key
        decreases |nodes| - j
      {
        var next, k := KeyNext(last, j);
        if next == null {
          AfterLastIs(contents, me.e.key, j + 1);
          return;
        }
        last, j := next, k;
      }
    }

    method PushFront(me: Mapent)
      requires Shape() && me !in nodes
      modifies this`head, this`nodes, me`next
      ensures Shape() && nodes == [me] + old(nodes)
    {
      ghost var l := NextLinks();
      ghost var s := nodes;
      me.next := head;
      head := me;
      nodes := [me] + s;
      LeadsFrame(me.next, s, l, NextLinks());
      assert nodes[1..] == s;
    }

    method LinkFront(me: Mapent)
      requires Valid() && me !in nodes
      modifies this, me`next
      ensures Valid() && nodes == [me] + old(nodes) && contents == [me.e] + old(contents)
    {
      contents := [me.e] + contents;
      PushFront(me);
    }

    method AddFirst(e: Ent)
      requires Valid()
      modifies this
      ensures Valid() && contents == [e] + old(contents)
    {
      var me := new Mapent(e);
      LinkFront(me);
    }

    /** Make `me` the end of the chain, behind the node at `j`. */
    method EndWith(last: Mapent, me: Mapent, ghost j: nat)
      requires Shape() && j < |nodes| && last == nodes[j] && me !in nodes && me.next == null
      modifies this`nodes, last`next
      ensures Shape() && nodes == old(nodes)[..j + 1] + [me]
    {
      ghost var l, s := NextLinks(), nodes;
      LeadsDistinct(head, s, l);
      last.next := me;
      nodes := s[..j + 1] + [me];
      ghost var l' := NextLinks();
      assert nodes[j] == last && nodes[j + 1] == me && [me][1..] == [];
      assert Leads(me, [me], l');
      forall m | m in s[..j] ensures m != last && m in nodes {
        var k :| 0 <= k < j && s[k] == m;
        assert nodes[k] == m;
      }
      LeadsRelink(head, s, l, j, me, [me], l');
    }

    method LinkAfter(last: Mapent, me: Mapent, ghost j: nat)
      requires Valid() && j < |nodes| && last == nodes[j] && me !in nodes && me.next == null
      modifies this`nodes, this`contents, last`next
      ensures Valid() && nodes == old(nodes)[..j + 1] + [me] && contents == old(contents)[..j + 1] + [me.e]
    {
      contents := contents[..j + 1] + [me.e];
      EndWith(last, me, j);
    }

    /** Unlink the node after `pred`. */
    method SkipAfter(pred: Mapent, next: Mapent, ghost k: nat)
      requires Shape() && 0 < k < |nodes| && pred == nodes[k - 1] && next == nodes[k]
      modifies this`nodes, pred`next
      ensures Shape() && nodes == Remove(old(nodes), k)
    {
      ghost var l, s := NextLinks(), nodes;
      LeadsDistinct(head, s, l);
      pred.next := next.next;
      nodes := Remove(nodes, k);
      ghost var l' := NextLinks();
      forall m | m in s && m != s[k - 1] && m != s[k] ensures m in l' && l'[m] == l[m] {
        var j :| 0 <= j < |s| && s[j] == m;
        if j < k {
          assert nodes[j] == m;
        } else {
          assert nodes[j - 1] == s[j];
        }
      }
      assert nodes[k - 1] == s[k - 1];
      LeadsRemove(head, s, l, k, l');
    }

    method UnlinkAfter(pred: Mapent, next: Mapent, ghost k: nat)
      requires Valid() && 0 < k < |nodes| && pred == nodes[k - 1] && next == nodes[k]
      modifies this`nodes, this`contents, pred`next
      ensures Valid() && nodes == Remove(old(nodes), k) && contents == Remove(old(contents), k)
    {
      contents := Remove(contents, k);
      SkipAfter(pred, next, k);
    }

    /** cache_delete: the entries after the head first, then the head */
    method DeleteKey(key: string) returns (ok: bool)
      requires Valid()
      modifies this, nodes`next
      ensures Valid() && (contents, ok) == DeleteFrom(old(contents), key)
    {
      if head == null {
        return true;
      }
      DeleteIsDrop(contents, key);
      ok := DeleteAfterHead(key);
      if ok && head.e.key == key {
        if !head.e.mm.Single? {
          return false;
        }
        UnlinkHead();
      }
    }

    method UnlinkHead()
      requires Valid() && nodes != []
      modifies this
      ensures Valid() && nodes == old(nodes)[1..] && contents == old(contents)[1..]
    {
      LeadsAt(head, nodes, NextLinks(), 0);
      ghost var l := NextLinks();
      head := head.next;
      nodes, contents := nodes[1..], contents[1..];
      LeadsFrame(head, nodes, l, NextLinks());
    }

    method DeleteAfterHead(key: string) returns (ok: bool)
      requires Valid() && nodes != []
      modifies this`nodes, this`contents, nodes`next
      ensures Valid() && nodes != [] && nodes[0] == old(nodes)[0]
      ensures (contents, ok) == DropFrom(old(contents), 0, key)
    {
      var me: Mapent := head;
      ghost var i := 0;
      LeadsAt(head, nodes, NextLinks(), 0);
      while me.next != null
        invariant Valid() && i < |nodes| && me == nodes[i] && nodes[0] == old(nodes)[0]
        invariant forall n :: n in nodes ==> n in old(nodes)
        invariant DropFrom(old(contents), 0, key) == DropFrom(contents, i, key)
        decreases |nodes| - i
      {
        LeadsAt(head, nodes, NextLinks(), i);
        var pred := me;
        me := me.next;
        if me.e.key == key {
          if !me.e.mm.Single? {
            return false;
          }
          assert pred in nodes;
          UnlinkAfter(pred, me, i + 1);
          me := pred;
        } else {
          i := i + 1;
        }
      }
      LeadsAt(head, nodes, NextLinks(), i);
      return true;
    }

    /** cache_add: to the front for a new key, otherwise behind the key's last entry */
    method AddEntry(e: Ent)
      requires Valid()
      requires forall i :: 0 <= i < |nodes| && nodes[i].e.key == e.key && nodes[i].e.mm.Offset? ==> i + 1 == |nodes|
      modifies this, nodes`next
      ensures Valid() && contents == AddTo(old(contents), e)
    {
      var existing, i := Lookup(e.key);
      if existing == null {
        AddFirst(e);
      } else {
        var last, j := LastOf(existing, i);
        assert last in nodes;
        var me := new Mapent(e);
        LinkAfter(last, me, j);
      }
    }

    /** The first entry of `key` from `source`, as cache_update looks for it */
    method LookupFrom(key: string, source: nat) returns (me: Mapent?, ghost i: nat)
      requires Valid()
      requires forall k :: 0 <= k < |nodes| && nodes[k].e.key == key && nodes[k].e.mm.Offset? ==> k + 1 == |nodes|
      ensures i == FirstFrom(contents, key, source)
      ensures me == if i < |nodes| then nodes[i] else null
    {
      me, i := Lookup(key);
      while me != null && me.e.source != source
        invariant 0 <= i <= |nodes|
        invariant me == if i < |nodes| then nodes[i] else null
        invariant i < |nodes| ==> contents[i].key == key
        invariant forall j :: 0 <= j < i ==> !(contents[j].key == key && contents[j].source == source)
        decreases |nodes| - i
      {
        var next, j := KeyNext(me, i);
        me, i := next, j;
      }
      FirstFromIs(contents, key, source, i);
    }

    /** cache_update */
    method UpdateEntry(source: nat, key: string, text: Option<string>, age: int) returns (code: Code)
      requires Valid()
      requires forall k :: 0 <= k < |nodes| && nodes[k].e.key == key && nodes[k].e.mm.Offset? ==> k + 1 == |nodes|
      modifies this, nodes
      ensures Valid() && (contents, code) == UpdateChain(old(contents), source, key, text, age)
    {
      var me, i := LookupFrom(key, source);
      if me == null {
        AddEntry(NewEnt(source, key, text, age));
        return Updated;
      }
      assert me in nodes;
      code := if me.e.age != age && text.Some? && me.e.text != text then Updated else Done;
      if me.e.age != age {
        SetEntry(me, me.e.(text := text, age := age), i);
      } else {
        assert contents[i := contents[i]] == contents;
      }
    }

    method SetEntry(me: Mapent, e: Ent, ghost i: nat)
      requires Valid() && i < |nodes| && me == nodes[i]
      modifies this`contents, me`e
      ensures Valid() && contents == old(contents)[i := e]
    {
      LeadsDistinct(head, nodes, NextLinks());
      me.e := e;
      contents := contents[i := e];
    }
  }

  /** The delete loop standing at `i`: remove the entries of `key` behind it. */
  function DropFrom(chain: seq<Ent>, i: nat, key: string): (seq<Ent>, bool)
    requires i < |chain|
    decreases |chain| - i
  {
    if i + 1 == |chain| then (chain, true)
    else if chain[i + 1].key != key then DropFrom(chain, i + 1, key)
    else if !chain[i + 1].mm.Single? then (chain, false)
    else DropFrom(Remove(chain, i + 1), i, key)
  }

  lemma {:induction false} DropFromIs(chain: seq<Ent>, i: nat, key: string)
    requires i < |chain|
    ensures DropFrom(chain, i, key) ==
              (chain[..i + 1] + DropAfter(chain[i + 1..], key).0, DropAfter(chain[i + 1..], key).1)
    decreases |chain| - i
  {
    if i + 1 == |chain| {
      assert chain[..i + 1] == chain && chain + [] == chain;
    } else {
      var rest := chain[i + 1..];
      assert rest[0] == chain[i + 1] && rest[1..] == chain[i + 2..];
      if chain[i + 1].key != key {
        DropFromIs(chain, i + 1, key);
        var kept := DropAfter(chain[i + 2..], key).0;
        assert chain[..i + 2] + kept == chain[..i + 1] + ([chain[i + 1]] + kept);
      } else if !chain[i + 1].mm.Single? {
        assert chain[..i + 1] + rest == chain;
      } else {
        var cut := Remove(chain, i + 1);
        assert cut[..i + 1] == chain[..i + 1] && cut[i + 1..] == chain[i + 2..];
        DropFromIs(cut, i, key);
      }
    }
  }

  /** cache_delete is the loop over the rest, then the test of the head. */
  lemma DeleteIsDrop(chain: seq<Ent>, key: string)
    requires chain != []
    ensures var (c, ok) := DropFrom(chain, 0, key);
            && c != []
            && DeleteFrom(chain, key) ==
                 if ok && c[0].key == key && c[0].mm.Single? then (c[1..], true)
                 else (c, ok && c[0].key != key)
  {
    DropFromIs(chain, 0, key);
    var rest := DropAfter(chain[1..], key).0;
    assert chain[..1] + rest == [chain[0]] + rest && ([chain[0]] + rest)[1..] == rest;
  }

  lemma AfterLastIs(chain: seq<Ent>, key: string, i: nat)
    requires i <= |chain| && (i > 0 ==> chain[i - 1].key == key)
    requires forall j :: i <= j < |chain| ==> chain[j].key != key
    ensures AfterLast(chain, key) == i
  {
  }
}
