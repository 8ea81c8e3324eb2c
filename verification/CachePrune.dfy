/** Re-reading a map and pruning what it no longer lists (daemon/lookup.c,
    lookup_prune_one_cache, make_fullpath, make_browse_path; lib/cache.c, cache_update).
 */
module CachePrune {
  import opened Options
  import opened CacheTable
  import opened CacheEnumerate

  const KEY_MAX_LEN := 255

  datatype AutofsPoint = AutofsPoint(
    path: string, prefix: Option<string>, direct: bool, browse: bool, positiveTimeout: int)

  /** make_browse_path */
  function BrowsePath(root: string, key: string, prefix: Option<string>): Option<string> {
    if prefix.Some? && !(prefix.value <= key) then None
    else
      var rest := if prefix.Some? then key[|prefix.value|..] else key;
      if '/' in rest || |root| + |rest| > KEY_MAX_LEN then None
      else Some(root + "/" + rest)
  }

  predicate Absolute(key: string) {
    key != [] && key[0] == '/'
  }

  /** make_fullpath */
  function FullPath(ap: AutofsPoint, key: string): Option<string> {
    if !Absolute(key) then BrowsePath(ap.path, key, ap.prefix)
    else if |key| + 1 > KEY_MAX_LEN then None
    else Some(key)
  }

  /** An indirect key has a path if, without the prefix, it has no slash and the path is not too
      long: the root, a slash and the key. */
  lemma BrowsePathIs(root: string, key: string)
    ensures BrowsePath(root, key, None).Some? <==> '/' !in key && |root| + |key| <= 255
    ensures BrowsePath(root, key, None).Some? ==> BrowsePath(root, key, None).value == root + "/" + key
  {
  }

  /** A prefix is taken off first, and a key without it has no path. */
  lemma BrowsePathPrefix(root: string, prefix: string, key: string)
    ensures BrowsePath(root, prefix + key, Some(prefix)) == BrowsePath(root, key, None)
    ensures !(prefix <= key) ==> BrowsePath(root, key, Some(prefix)).None?
  {
    assert (prefix + key)[|prefix|..] == key;
  }

  /** The path of a direct key is the key, if it and its end fit. */
  lemma DirectPath(ap: AutofsPoint, key: string)
    requires key != [] && key[0] == '/'
    ensures FullPath(ap, key) == if |key| < 255 then Some(key) else None
  {
  }

  /** Where lookup_source_valid_mapent finds the key: in no source read since the last update,
      in the cache being pruned, or in another one first. */
  datatype Where = Nowhere | Here | Elsewhere

  /** What pruning asks the system: real and autofs mounts by path, open triggers by key. */
  datatype World = World(
    valid: string -> Where, mounted: string -> bool, trigger: string -> bool, open: string -> bool)

  /** A stale entry that pruning considers at all. */
  predicate Candidate(ap: AutofsPoint, e: Ent, age: int) {
    && e.age < age
    && (ap.direct || (&& !Absolute(e.key) && !e.mm.Owner?
                      && (ap.browse || age >= e.age + ap.positiveTimeout)))
    && '*' !in e.key
    && FullPath(ap, e.key).Some?
  }

  /** What becomes of one entry; `wild` says whether the cache has a wildcard entry. */
  function Fate(ap: AutofsPoint, w: World, wild: bool, age: int, e: Ent): (r: Option<Ent>)
    ensures r.Some? ==> r.value.key == e.key && r.value.mm == e.mm && r.value.source == e.source
  {
    if !Primary(e) then Some(e)
    else if e.age >= age then Some(if e.text.Some? || wild then e.(status := 0) else e)
    else if !Candidate(ap, e, age) then Some(e)
    else
      var path := FullPath(ap, e.key).value;
      var v := w.valid(e.key);
      var e1 := if v.Here? then e.(text := None) else e;
      if !v.Elsewhere? && w.mounted(path) then Some(e1)
      else if !e.mm.Single? then Some(e1)
      else if v.Elsewhere? || (!w.trigger(path) && !w.open(e.key)) then None
      else Some(e1)
  }

  /** One pruning run: the point, the system, whether there is a wildcard, and the age. */
  datatype Run = Run(ap: AutofsPoint, w: World, wild: bool, age: int)

  function FateOf(p: Run, e: Ent): Option<Ent> {
    Fate(p.ap, p.w, p.wild, p.age, e)
  }

  function PruneChain(p: Run, chain: seq<Ent>): seq<Ent> {
    if chain == [] then []
    else
      var rest := PruneChain(p, chain[1..]);
      match FateOf(p, chain[0])
      case None => rest
      case Some(e) => [e] + rest
  }

  function PruneTable(p: Run, t: Table): Table {
    t.(buckets := seq(|t.buckets|, b requires 0 <= b < |t.buckets| => PruneChain(p, t.buckets[b])))
  }

  lemma {:induction false} PruneAppend(p: Run, a: seq<Ent>, b: seq<Ent>)
    ensures PruneChain(p, a + b) == PruneChain(p, a) + PruneChain(p, b)
  {
    if a == [] {
      assert a + b == b;
    } else {
      assert (a + b)[1..] == a[1..] + b;
      PruneAppend(p, a[1..], b);
    }
  }

  lemma {:induction false} PruneOf(p: Run, chain: seq<Ent>, k: string)
    ensures Of(PruneChain(p, chain), k) == PruneChain(p, Of(chain, k))
  {
    if chain == [] {
    } else {
      PruneOf(p, chain[1..], k);
      var rest := PruneChain(p, chain[1..]);
      match FateOf(p, chain[0])
      case None =>
      case Some(e) => assert ([e] + rest)[1..] == rest;
      if chain[0].key == k {
        assert ([chain[0]] + Of(chain[1..], k))[1..] == Of(chain[1..], k);
      }
    }
  }

  /** Pruning acts on each key's entries alone. */
  lemma PruneKeyList(p: Run, t: Table, k: string)
    requires t.buckets != []
    ensures KeyList(PruneTable(p, t), k) == PruneChain(p, KeyList(t, k))
  {
    PruneOf(p, Chain(t, k), k);
  }

  // ----- re-reading a map

  /** cache_update for every line of the map, in order */
  function ReadMap(t: Table, source: nat, lines: seq<(string, string)>, age: int): (r: Table)
    requires t.buckets != []
    ensures |r.buckets| == |t.buckets|
    decreases |lines|
  {
    if lines == [] then t
    else ReadMap(Update(t, source, lines[0].0, Some(lines[0].1), age), source, lines[1..], age)
  }

  predicate Lists(lines: seq<(string, string)>, k: string) {
    exists i :: 0 <= i < |lines| && lines[i].0 == k
  }

  function FirstText(lines: seq<(string, string)>, k: string): string
    requires Lists(lines, k)
    decreases |lines|
  {
    if lines[0].0 == k then lines[0].1
    else
      assert Lists(lines[1..], k) by {
        var i :| 0 <= i < |lines| && lines[i].0 == k;
        assert lines[1..][i - 1].0 == k;
      }
      FirstText(lines[1..], k)
  }

  /** A cache fed by one source only, without multi-mounts. */
  predicate Plain(t: Table, source: nat) {
    && t.buckets != [] && Unique(t)
    && forall b, i :: 0 <= b < |t.buckets| && 0 <= i < |t.buckets[b]| ==>
         t.buckets[b][i].source == source && t.buckets[b][i].mm.Single?
  }

  lemma UniqueKeyList(t: Table, source: nat, k: string)
    requires Plain(t, source)
    ensures var c := Chain(t, k); var i := First(c, k);
            && KeyList(t, k) == (if i == |c| then [] else [c[i]])
            && FirstFrom(c, k, source) == i
            && (i < |c| ==> c[i].mm.Single? && c[i].source == source)
  {
    var c := Chain(t, k);
    var i := First(c, k);
    if i == |c| {
      OfNone(c, k);
      FirstFromIs(c, k, source, i);
    } else {
      assert c == c[..i] + ([c[i]] + c[i + 1..]);
      OfAppend(c[..i], [c[i]] + c[i + 1..], k);
      OfAppend([c[i]], c[i + 1..], k);
      OfNone(c[..i], k);
      OfNone(c[i + 1..], k);
      FirstFromIs(c, k, source, i);
    }
  }

  /** Updating one key of a plain cache. */
  lemma UpdatePlain(t: Table, source: nat, key: string, text: string, age: int, k: string)
    requires Plain(t, source) && Placed(t)
    ensures var t' := Update(t, source, key, Some(text), age);
            && Plain(t', source) && Placed(t')
            && KeyList(t', k) == (if k != key then KeyList(t, k)
                                  else if KeyList(t, k) == [] then [NewEnt(source, key, Some(text), age)]
                                  else [Refresh(KeyList(t, k)[0], Some(text), age)])
  {
    var c := Chain(t, key);
    var i := First(c, key);
    var t' := Update(t, source, key, Some(text), age);
    UniqueKeyList(t, source, key);
    OperationsKeepPlaced(t, source, key, Some(text), age);
    if i == |c| {
      var c' := [NewEnt(source, key, Some(text), age)] + c;
      PlainSet(t, source, key, c');
      OfAppend([NewEnt(source, key, Some(text), age)], c, k);
    } else {
      var c' := c[i := Refresh(c[i], Some(text), age)];
      PlainSet(t, source, key, c');
      OfUpdate(c, i, Refresh(c[i], Some(text), age), k);
      UniqueKeyList(t', source, key);
      FirstAgain(c', key, i);
    }
  }

  lemma FirstAgain(chain: seq<Ent>, key: string, i: nat)
    requires i < |chain| && chain[i].key == key && forall j :: 0 <= j < i ==> chain[j].key != key
    ensures First(chain, key) == i
  {
  }

  lemma PlainSet(t: Table, source: nat, key: string, c: seq<Ent>)
    requires Plain(t, source) && UniqueIn(c)
    requires forall i :: 0 <= i < |c| ==> c[i].source == source && c[i].mm.Single?
    ensures Plain(SetChain(t, key, c), source)
  {
  }

  lemma {:induction false} OfUpdate(chain: seq<Ent>, i: nat, e: Ent, k: string)
    requires i < |chain| && e.key == chain[i].key
    ensures k != e.key ==> Of(chain[i := e], k) == Of(chain, k)
  {
    if i == 0 {
      assert chain[i := e][1..] == chain[1..];
    } else {
      OfUpdate(chain[1..], i - 1, e, k);
      assert chain[i := e][1..] == chain[1..][i - 1 := e];
    }
  }

  /** After re-reading: a listed key has one entry, with the first text listed for it. */
  lemma {:induction false} ReadMapIs(t: Table, source: nat, lines: seq<(string, string)>, age: int, k: string)
    requires Plain(t, source) && Placed(t)
    ensures var t' := ReadMap(t, source, lines, age);
            && Plain(t', source) && Placed(t')
            && (!Lists(lines, k) ==> KeyList(t', k) == KeyList(t, k))
            && (Lists(lines, k) ==>
                  && |KeyList(t', k)| == 1 && KeyList(t', k)[0].key == k && KeyList(t', k)[0].age == age
                  && KeyList(t', k)[0].mm.Single?
                  && (KeyList(t, k) == [] || KeyList(t, k)[0].age != age ==>
                        KeyList(t', k)[0].text == Some(FirstText(lines, k)))
                  && (KeyList(t, k) != [] && KeyList(t, k)[0].age == age ==> KeyList(t', k) == KeyList(t, k)))
    decreases |lines|
  {
    if lines == [] {
      UniqueKeyList(t, source, k);
    } else {
      var t1 := Update(t, source, lines[0].0, Some(lines[0].1), age);
      UpdatePlain(t, source, lines[0].0, lines[0].1, age, k);
      ReadMapIs(t1, source, lines[1..], age, k);
      UniqueKeyList(t, source, k);
      if lines[0].0 == k {
        assert Lists(lines, k);
      } else if Lists(lines, k) {
        var i :| 0 <= i < |lines| && lines[i].0 == k;
        assert lines[1..][i - 1].0 == k;
      }
      if Lists(lines[1..], k) {
        var i :| 0 <= i < |lines[1..]| && lines[1..][i].0 == k;
        assert lines[i + 1].0 == k;
      }
    }
  }

  /** Stale keys that pruning never removes. */
  predicate Exempt(ap: AutofsPoint, k: string) {
    '*' in k || FullPath(ap, k).None? || (!ap.direct && Absolute(k))
  }

  /** The entry is not looked at: its key is exempt, or its map is indirect and not browsed and the
      entry is younger than the positive timeout. */
  predicate Spared(p: Run, e: Ent) {
    Exempt(p.ap, e.key) || (!p.ap.direct && !p.ap.browse && p.age - e.age < p.ap.positiveTimeout)
  }

  /** Something hangs on the key: a mount, a trigger or an open descriptor. */
  predicate InUse(p: Run, key: string) {
    var path := FullPath(p.ap, key);
    p.w.open(key) || (path.Some? && (p.w.mounted(path.value) || p.w.trigger(path.value)))
  }

  /** What is left of a key that the map no longer lists: all of it, if it is spared; nothing, if
      another source has it first or nothing hangs on it; otherwise the entry stays, without its
      text if it was taken for valid. */
  predicate StaleLeft(p: Run, was: seq<Ent>, now: seq<Ent>) {
    if was == [] || Spared(p, was[0]) then now == was
    else
      match p.w.valid(was[0].key)
      case Elsewhere => now == []
      case Here => now == if InUse(p, was[0].key) then [was[0].(text := None)] else []
      case Nowhere => now == if InUse(p, was[0].key) then was else []
  }

  lemma StaleOne(p: Run, e: Ent)
    requires e.age < p.age && e.mm.Single?
    ensures StaleLeft(p, [e], PruneChain(p, [e]))
  {
    assert [e][1..] == [];
    assert PruneChain(p, []) == [];
  }

  /** An entry of a multi-mount is never removed: an offset stays as it is, and so does a stale
      owner in an indirect map; one in a direct map loses its text if it was taken for valid. */
  lemma MultiStays(p: Run, e: Ent)
    requires e.age < p.age && !e.mm.Single?
    ensures FateOf(p, e) ==
              if e.mm.Owner? && p.ap.direct && !Exempt(p.ap, e.key) && p.w.valid(e.key).Here?
              then Some(e.(text := None)) else Some(e)
  {
  }

  /** A current entry stays, and its last failure is forgotten if it has a text or there is a
      wildcard. */
  lemma CurrentStays(p: Run, e: Ent)
    requires e.age >= p.age
    ensures FateOf(p, e) == Some(if !e.mm.Offset? && (e.text.Some? || p.wild) then e.(status := 0) else e)
  {
  }

  /** Re-reading a map at a new age and then pruning at that age leaves each key the map lists with
      the first text listed for it, and of the others what `StaleLeft` says. */
  lemma RereadThenPrune(p: Run, t: Table, source: nat, lines: seq<(string, string)>, k: string)
    requires Plain(t, source) && Placed(t)
    requires forall b, i :: 0 <= b < |t.buckets| && 0 <= i < |t.buckets[b]| ==> t.buckets[b][i].age < p.age
    ensures var r := KeyList(PruneTable(p, ReadMap(t, source, lines, p.age)), k);
            if Lists(lines, k) then
              && |r| == 1 && r[0].key == k && r[0].text == Some(FirstText(lines, k))
              && r[0].age == p.age && r[0].status == 0
            else StaleLeft(p, KeyList(t, k), r)
  {
    var t1 := ReadMap(t, source, lines, p.age);
    ReadMapIs(t, source, lines, p.age, k);
    PruneKeyList(p, t1, k);
    UniqueKeyList(t, source, k);
    var one := KeyList(t1, k);
    if one != [] {
      assert one == [one[0]] && one[1..] == [];
      assert PruneChain(p, []) == [];
      if !Lists(lines, k) { StaleOne(p, one[0]); }
    }
  }
}
