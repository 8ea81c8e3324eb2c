/** Negative caching of failed lookups (lib/cache.c, cache_push_mapent, cache_pop_mapent,
    cache_update_negative, cache_lookup_negative).
 */
module CacheNegative {
  import opened Options
  import opened CacheTable

  function FirstEnt(t: Table, key: string): Option<Ent>
    requires t.buckets != []
  {
    var chain := Chain(t, key);
    var i := First(chain, key);
    if i == |chain| then None else Some(chain[i])
  }

  function SetFirst(t: Table, key: string, e: Ent): Table
    requires t.buckets != [] && Has(Chain(t, key), key)
  {
    SetChain(t, key, Chain(t, key)[First(Chain(t, key), key) := e])
  }

  /** cache_push_mapent with no new text: fails when there is no text to save */
  function Push(e: Ent): (Ent, bool) {
    if e.text.None? then (e, false)
    else (e.(text := None, stack := [Saved(e.text.value, e.age)] + e.stack), true)
  }

  /** cache_pop_mapent: a saved text older than the entry is dropped */
  function Pop(e: Ent): (Ent, bool) {
    if e.stack == [] then (e, false)
    else if e.stack[0].age < e.age then (e.(stack := e.stack[1..]), true)
    else (e.(stack := e.stack[1..], text := Some(e.stack[0].text)), true)
  }

  /** cache_update_negative */
  function UpdateNegative(t: Table, source: nat, key: string, now: int, timeout: int): Table
    requires t.buckets != []
  {
    if key == "*" then t
    else
      match FirstEnt(t, key)
      case Some(e) =>
        var (e', ok) := Push(e);
        if ok then SetFirst(t, key, e'.(status := now + timeout)) else t
      case None =>
        var t' := Update(t, source, key, None, now);
        match FirstEnt(t', key)
        case Some(e) => SetFirst(t', key, e.(status := now + timeout))
        case None => t'
  }

  /** cache_lookup_negative on the entry `me`: the new table, and whether the key is reported
      unavailable */
  function LookupNegative(t: Table, me: Ent, key: string, now: int): (Table, bool)
    requires t.buckets != []
  {
    if me.status >= now then (t, true)
    else if me.text.Some? then (t, false)
    else
      match FirstEnt(t, key)
      case None => (t, false)
      case Some(e) =>
        if e.text.Some? then (t, false)
        else
          var (e', ok) := Pop(e);
          (if ok then SetFirst(t, key, e') else Delete(t, key).0, false)
  }

  lemma PushPop(e: Ent)
    requires e.text.Some?
    ensures Push(e).1 && Pop(Push(e).0.(status := e.status)) == (e, true)
  {
    assert ([Saved(e.text.value, e.age)] + e.stack)[1..] == e.stack;
  }

  lemma SetFirstTwice(t: Table, key: string, e: Ent, e': Ent)
    requires t.buckets != [] && Has(Chain(t, key), key) && e.key == key && e'.key == key
    ensures var t1 := SetFirst(t, key, e);
            FirstEnt(t1, key) == Some(e) && SetFirst(t1, key, e') == SetFirst(t, key, e')
  {
    var chain := Chain(t, key);
    var i := First(chain, key);
    var t1 := SetFirst(t, key, e);
    FirstIs(chain[i := e], key, i);
    assert t1.buckets[Slot(t, key) := Chain(t1, key)[i := e']] == t.buckets[Slot(t, key) := chain[i := e']] by {
      assert chain[i := e][i := e'] == chain[i := e'];
    }
  }

  /** An entry that had a text: unavailable up to the deadline, with nothing changed by asking;
      the first lookup after it restores text, saved texts and age. */
  lemma NegativeThenPositive(t: Table, source: nat, key: string, now: int, timeout: int, later: int)
    requires t.buckets != [] && key != "*"
    requires FirstEnt(t, key).Some? && FirstEnt(t, key).value.text.Some?
    ensures var t1 := UpdateNegative(t, source, key, now, timeout); var e := FirstEnt(t, key).value;
            && FirstEnt(t1, key).Some? && FirstEnt(t1, key).value.text.None?
            && LookupNegative(t1, FirstEnt(t1, key).value, key, later) ==
                 if later <= now + timeout then (t1, true)
                 else (SetFirst(t, key, e.(status := now + timeout)), false)
  {
    var e := FirstEnt(t, key).value;
    var n := Push(e).0.(status := now + timeout);
    var r := e.(status := now + timeout);
    PushPop(r);
    assert Push(r).0 == n;
    SetFirstTwice(t, key, n, r);
  }

  /** A key that was not cached: unavailable up to the deadline; the first lookup after it
      leaves the cache as it was before the failure. */
  lemma NegativeThenAbsent(t: Table, source: nat, key: string, now: int, timeout: int, later: int)
    requires t.buckets != [] && key != "*"
    requires FirstEnt(t, key).None?
    ensures var t1 := UpdateNegative(t, source, key, now, timeout);
            && FirstEnt(t1, key).Some? && FirstEnt(t1, key).value.text.None?
            && LookupNegative(t1, FirstEnt(t1, key).value, key, later) ==
                 if later <= now + timeout then (t1, true) else (t, false)
  {
    var chain := Chain(t, key);
    var e := NewEnt(source, key, None, now);
    var n := e.(status := now + timeout);
    assert FirstFrom(chain, key, source) == |chain|;
    var t' := Update(t, source, key, None, now);
    assert Chain(t', key) == [e] + chain;
    FirstIs([e] + chain, key, 0);
    SetFirstTwice(t', key, n, n);
    var t1 := SetFirst(t', key, n);
    assert Chain(t1, key) == [n] + chain by {
      assert ([e] + chain)[0 := n] == [n] + chain;
    }
    DeleteFromIs([n] + chain, key);
    assert !InMulti([n] + chain, key);
    OfNone(chain, key);
    assert ([n] + chain)[1..] == chain;
    assert Delete(t1, key).0.buckets == t.buckets;
  }

  /** A further failure while the entry is still negative does not move the deadline. */
  lemma DeadlineIsNotMoved(t: Table, source: nat, key: string, now: int, timeout: int, now': int, timeout': int)
    requires t.buckets != [] && key != "*"
    requires FirstEnt(t, key).Some? ==> FirstEnt(t, key).value.text.Some?
    ensures var t1 := UpdateNegative(t, source, key, now, timeout);
            UpdateNegative(t1, source, key, now', timeout') == t1
  {
    if FirstEnt(t, key).Some? {
      NegativeThenPositive(t, source, key, now, timeout, now);
    } else {
      NegativeThenAbsent(t, source, key, now, timeout, now);
    }
  }

  /** A key is reported unavailable exactly up to the deadline of the entry asked about; before and
      with a text, asking changes nothing. */
  lemma UnavailableIff(t: Table, me: Ent, key: string, now: int)
    requires t.buckets != []
    ensures LookupNegative(t, me, key, now).1 <==> now <= me.status
    ensures now <= me.status || me.text.Some? ==> LookupNegative(t, me, key, now).0 == t
  {
  }

  /** An entry that was read again while it was negative keeps its new text when the old one is
      popped. */
  lemma PushRefreshPop(e: Ent, text: string, age: int)
    requires e.text.Some? && e.age < age
    ensures Pop(Refresh(Push(e).0, Some(text), age)) == (Refresh(e, Some(text), age), true)
  {
    assert ([Saved(e.text.value, e.age)] + e.stack)[1..] == e.stack;
  }
}
