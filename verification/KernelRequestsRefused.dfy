/** When a handler refuses a request, and what it looks at before (daemon/indirect.c:775-890,
    daemon/direct.c:1012-1494), over every interleaving.
 */
module KernelRequestsRefused {
  import opened Options
  import opened KernelRequests
  import opened KernelRequestsRuns
  import opened KernelRequestsLaws

  // ----- how a handler ends

  /** The error with which the handler refuses at this step, if it does: the point is shutting
      down or the key failed before (ENOENT, 2), the name is too long (ENAMETOOLONG, 36), there is
      no memory (ENOMEM, 12), or the thread cannot be created. */
  function RefusesWith(r: Req, e: Env): Option<int> {
    if r.kind.MissingIndirect? && r.h.Check? && e.shutdown then Some(-2)
    else if r.kind.MissingIndirect? && r.h.Found? && e.refused then Some(-2)
    else if r.kind.MissingDirect? && r.h.Opened? && (e.shutdown || e.refused) then Some(-2)
    else if r.kind.MissingDirect? && r.h.Opened? && e.tooLong then Some(-36)
    else if r.h.Alloc? && !e.allocates then Some(-12)
    else if r.h.Create? && e.createError > 0 then Some(0 - e.createError)
    else None
  }

  /** The expire of a direct mount that is not there is answered at once. */
  predicate ReadyAtOnce(r: Req, e: Env) {
    r.kind.ExpireDirect? && r.h.Found? && !e.tooLong && !e.hasFd && e.opens
  }

  /** How the step ends the handler, other than by handing the request over. */
  function EndsWith(r: Req, e: Env): Option<End> {
    if NothingToAnswerOn(r, e) then Some(Silent)
    else if ReadyAtOnce(r, e) then Some(Answered(Ready))
    else match RefusesWith(r, e)
      case Some(x) => Some(Answered(Fail(x)))
      case None => None
  }

  lemma SearchEndsIff(r: Req, e: Env, end: End)
    requires LocalInv(r) && (r.h.Scan? || r.h.WantCache? || r.h.Peek?) && !end.Handed?
    ensures SearchStep(r, e).0.h == Done(end) <==> EndsWith(r, e) == Some(end)
  {
  }

  lemma EntryEndsIff(r: Req, e: Env, end: End)
    requires LocalInv(r) && (r.h.Found? || r.h.Opened?) && !end.Handed?
    ensures EntryStep(r, e).0.h == Done(end) <==> EndsWith(r, e) == Some(end)
  {
  }

  lemma HandOffEndsIff(r: Req, e: Env, end: End)
    requires LocalInv(r) && (r.h.Alloc? || r.h.Create? || HandsOff(r.h)) && !end.Handed?
    ensures HandOffStep(r, e).0.h == Done(end) <==> EndsWith(r, e) == Some(end)
  {
  }

  lemma EndsIff(r: Req, e: Env, end: End)
    requires LocalInv(r) && !r.h.Done? && !end.Handed?
    ensures HandlerStep(r, e).0.h == Done(end) <==> EndsWith(r, e) == Some(end)
  {
    if r.h.Scan? || r.h.WantCache? || r.h.Peek? {
      SearchEndsIff(r, e, end);
    } else if r.h.Found? || r.h.Opened? {
      EntryEndsIff(r, e, end);
    } else if r.h.Alloc? || r.h.Create? || HandsOff(r.h) {
      HandOffEndsIff(r, e, end);
    }
  }

  predicate EndsAt(s: Sys, ev: Event, i: nat, end: End) {
    ev.Handler? && ev.i == i && i < |s.reqs| && !s.reqs[i].h.Done? && EndsWith(s.reqs[i], ev.e) == Some(end)
  }

  /** Somewhere in the run the handler of request `i` came to a step that ends it so. */
  predicate EndedIn(s: Sys, evs: seq<Event>, i: nat, end: End)
    requires Feasible(s, evs)
    decreases |evs|
  {
    evs != [] && (EndsAt(s, evs[0], i, end) || EndedIn(Step(s, evs[0]), evs[1..], i, end))
  }

  predicate HasEnded(s: Sys, i: nat, end: End) {
    i < |s.reqs| && s.reqs[i].h == Done(end)
  }

  lemma OwnEnds(r: Req, e: Env, end: End)
    requires LocalInv(r) && !end.Handed?
    ensures HandlerStep(r, e).0.h == Done(end) <==> r.h == Done(end) || (!r.h.Done? && EndsWith(r, e) == Some(end))
  {
    if !r.h.Done? { EndsIff(r, e, end); }
  }

  lemma EndsStep(s: Sys, ev: Event, i: nat, end: End)
    requires Inv(s) && Enabled(s, ev) && !end.Handed?
    ensures HasEnded(Step(s, ev), i, end) <==> HasEnded(s, i, end) || EndsAt(s, ev, i, end)
  {
    if ev.Handler? && ev.i == i {
      assert LocalInv(s.reqs[i]);
      OwnEnds(s.reqs[i], ev.e, end);
    }
  }

  lemma {:induction false} EndsHistory(s: Sys, evs: seq<Event>, i: nat, end: End)
    requires Inv(s) && Feasible(s, evs) && !end.Handed?
    ensures HasEnded(Run(s, evs), i, end) <==> HasEnded(s, i, end) || EndedIn(s, evs, i, end)
    decreases |evs|
  {
    if evs == [] {
    } else {
      EndsStep(s, evs[0], i, end);
      StepKeepsInv(s, evs[0]);
      EndsHistory(Step(s, evs[0]), evs[1..], i, end);
    }
  }

  /** In every run a handler has refused with `x` if and only if it came to a step that refuses
      with `x`. */
  lemma RefusedIff(evs: seq<Event>, i: nat, x: int)
    requires Feasible(EMPTY, evs) && i < |Run(EMPTY, evs).reqs|
    ensures Run(EMPTY, evs).reqs[i].h == Done(Answered(Fail(x))) <==> EndedIn(EMPTY, evs, i, Answered(Fail(x)))
  {
    Reachable([]);
    EndsHistory(EMPTY, evs, i, Answered(Fail(x)));
  }

  /** A handler that is through has handed the request to a worker if and only if it came to no
      step that refuses, answers at once or returns with nothing to answer on. */
  lemma HandedIff(evs: seq<Event>, i: nat)
    requires Feasible(EMPTY, evs) && i < |Run(EMPTY, evs).reqs| && Run(EMPTY, evs).reqs[i].h.Done?
    ensures var r := Run(EMPTY, evs).reqs[i];
      (r.h.end.Handed? <==> !r.w.NoWorker?) && (r.h.end.Handed? <==> forall end :: !EndedIn(EMPTY, evs, i, end))
  {
    Reachable([]);
    Reachable(evs);
    var r := Run(EMPTY, evs).reqs[i];
    assert LocalInv(r);
    if r.h.end.Handed? {
      forall end ensures !EndedIn(EMPTY, evs, i, end) {
        if end.Handed? { NeverHanded(EMPTY, evs, i); } else { EndsHistory(EMPTY, evs, i, end); }
      }
    } else {
      EndsHistory(EMPTY, evs, i, r.h.end);
    }
  }

  lemma {:induction false} NeverHanded(s: Sys, evs: seq<Event>, i: nat)
    requires Feasible(s, evs)
    ensures !EndedIn(s, evs, i, Handed)
    decreases |evs|
  {
    if evs == [] {
    } else {
      NeverHanded(Step(s, evs[0]), evs[1..], i);
    }
  }

  // ----- the search for the entry

  function Place(r: Req, maps: seq<nat>): set<nat> {
    if |maps| <= |r.maps| then {|r.maps| - |maps|} else {}
  }

  /** The place in the list of maps that the handler's step passes over: a map of a missing direct
      mount that has not been read since, or a cache without the entry. */
  function PassesOver(r: Req, e: Env): set<nat> {
    match r.h
    case Scan(maps) => if maps != [] && r.kind.MissingDirect? && e.stale then Place(r, maps) else {}
    case Peek(maps) => if maps != [] && !e.found then Place(r, maps) else {}
    case _ => {}
  }

  /** The place at which it finds the entry. */
  function Finds(r: Req, e: Env): set<nat> {
    match r.h
    case Peek(maps) => if maps != [] && e.found then Place(r, maps) else {}
    case _ => {}
  }

  predicate StepsHandler(s: Sys, ev: Event, i: nat) {
    ev.Handler? && ev.i == i && i < |s.reqs|
  }

  function PassedIn(s: Sys, evs: seq<Event>, i: nat): set<nat>
    requires Feasible(s, evs)
    decreases |evs|
  {
    if evs == [] then {}
    else (if StepsHandler(s, evs[0], i) then PassesOver(s.reqs[i], evs[0].e) else {})
         + PassedIn(Step(s, evs[0]), evs[1..], i)
  }

  function FoundIn(s: Sys, evs: seq<Event>, i: nat): set<nat>
    requires Feasible(s, evs)
    decreases |evs|
  {
    if evs == [] then {}
    else (if StepsHandler(s, evs[0], i) then Finds(s.reqs[i], evs[0].e) else {})
         + FoundIn(Step(s, evs[0]), evs[1..], i)
  }

  /** The entry was found in cache `mc`, the first of the maps not passed over. */
  predicate FoundFirst(r: Req, passed: set<nat>, found: set<nat>, mc: nat) {
    exists k :: 0 <= k < |r.maps| && r.maps[k] == mc && k in found && forall j :: 0 <= j < k ==> j in passed
  }

  /** The places before `rest` are those passed over so far. */
  predicate LeftOver(r: Req, passed: set<nat>, rest: seq<nat>) {
    && |rest| <= |r.maps| && rest == r.maps[|r.maps| - |rest|..]
    && forall j :: 0 <= j < |r.maps| ==> (j in passed <==> j < |r.maps| - |rest|)
  }

  /** What the handler has seen of the maps, by the point it has reached. */
  predicate Searched(r: Req, passed: set<nat>, found: set<nat>) {
    match r.h
    case Scan(rest) => LeftOver(r, passed, rest)
    case WantCache(rest) => LeftOver(r, passed, rest)
    case Peek(rest) => LeftOver(r, passed, rest)
    case Found(mc) => FoundFirst(r, passed, found, mc)
    case Opened(mc) => FoundFirst(r, passed, found, mc)
    case Alloc => Direct(r.kind) ==> FoundFirst(r, passed, found, r.mc)
    case Create => Direct(r.kind) ==> FoundFirst(r, passed, found, r.mc)
    case Done(end) => Direct(r.kind) && end.Handed? ==> FoundFirst(r, passed, found, r.mc)
    case _ => if HandsOff(r.h) then Direct(r.kind) ==> FoundFirst(r, passed, found, r.mc) else passed == {}
  }

  lemma FoundStays(r: Req, r': Req, passed: set<nat>, found: set<nat>, passed': set<nat>, found': set<nat>, mc: nat)
    requires FoundFirst(r, passed, found, mc) && r'.maps == r.maps && passed <= passed' && found <= found'
    ensures FoundFirst(r', passed', found', mc)
  {
  }

  lemma ScanSearched(r: Req, e: Env, passed: set<nat>, found: set<nat>)
    requires LocalInv(r) && r.h.Scan? && Searched(r, passed, found)
    ensures Searched(SearchStep(r, e).0, passed + PassesOver(r, e), found)
  {
    var maps := r.h.maps;
    if maps != [] { assert maps[1..] == r.maps[|r.maps| - |maps| + 1..]; }
  }

  lemma PeekSearched(r: Req, e: Env, passed: set<nat>, found: set<nat>)
    requires LocalInv(r) && r.h.Peek? && Searched(r, passed, found)
    ensures Searched(SearchStep(r, e).0, passed + PassesOver(r, e), found + Finds(r, e))
  {
    var maps := r.h.maps;
    var k := |r.maps| - |maps|;
    assert maps[1..] == r.maps[k + 1..] && r.maps[k] == maps[0];
    if e.found { assert k in found + Finds(r, e); }
  }

  lemma EntrySearched(r: Req, e: Env, passed: set<nat>, found: set<nat>)
    requires LocalInv(r) && (r.h.Found? || r.h.Opened?) && Searched(r, passed, found)
    ensures Searched(EntryStep(r, e).0, passed, found)
  {
    FoundStays(r, EntryStep(r, e).0, passed, found, passed, found, r.h.mc);
  }

  lemma HandOffSearched(r: Req, e: Env, passed: set<nat>, found: set<nat>)
    requires LocalInv(r) && (r.h.Alloc? || r.h.Create? || HandsOff(r.h)) && Searched(r, passed, found)
    ensures Searched(HandOffStep(r, e).0, passed, found)
  {
    if Direct(r.kind) { FoundStays(r, HandOffStep(r, e).0, passed, found, passed, found, r.mc); }
  }

  /** One step of the request's own handler. */
  lemma SearchedStep(r: Req, e: Env, passed: set<nat>, found: set<nat>)
    requires LocalInv(r) && Searched(r, passed, found)
    ensures Searched(HandlerStep(r, e).0, passed + PassesOver(r, e), found + Finds(r, e))
  {
    assert passed + {} == passed && found + {} == found;
    if r.h.Scan? {
      ScanSearched(r, e, passed, found);
    } else if r.h.Peek? {
      PeekSearched(r, e, passed, found);
    } else if r.h.Found? || r.h.Opened? {
      EntrySearched(r, e, passed, found);
    } else if r.h.Alloc? || r.h.Create? || HandsOff(r.h) {
      HandOffSearched(r, e, passed, found);
    }
  }

  lemma WorkerSearched(r: Req, e: Env, passed: set<nat>, found: set<nat>)
    requires Searched(r, passed, found)
    ensures Searched(WorkerStep(r, e).0, passed, found)
  {
    var r' := WorkerStep(r, e).0;
    assert r'.h == r.h && r'.kind == r.kind && r'.maps == r.maps && r'.mc == r.mc;
  }

  lemma {:induction false} SearchedRun(s: Sys, evs: seq<Event>, i: nat, passed: set<nat>, found: set<nat>)
    requires Inv(s) && Feasible(s, evs)
    requires if i < |s.reqs| then Searched(s.reqs[i], passed, found) else passed == {} && found == {}
    ensures i < |Run(s, evs).reqs| ==>
              Searched(Run(s, evs).reqs[i], passed + PassedIn(s, evs, i), found + FoundIn(s, evs, i))
    decreases |evs|
  {
    if evs == [] {
      assert passed + {} == passed && found + {} == found;
    } else {
      var over := if StepsHandler(s, evs[0], i) then PassesOver(s.reqs[i], evs[0].e) else {};
      var here := if StepsHandler(s, evs[0], i) then Finds(s.reqs[i], evs[0].e) else {};
      StepKeepsInv(s, evs[0]);
      SearchedNext(s, evs[0], i, passed, found);
      SearchedRun(Step(s, evs[0]), evs[1..], i, passed + over, found + here);
      UnionThrough(passed, over, PassedIn(Step(s, evs[0]), evs[1..], i));
      UnionThrough(found, here, FoundIn(Step(s, evs[0]), evs[1..], i));
    }
  }

  lemma UnionThrough(a: set<nat>, b: set<nat>, c: set<nat>)
    ensures a + b + c == a + (b + c)
  {
  }

  lemma SearchedNext(s: Sys, ev: Event, i: nat, passed: set<nat>, found: set<nat>)
    requires Inv(s) && Enabled(s, ev)
    requires if i < |s.reqs| then Searched(s.reqs[i], passed, found) else passed == {} && found == {}
    ensures var over := if StepsHandler(s, ev, i) then PassesOver(s.reqs[i], ev.e) else {};
      var here := if StepsHandler(s, ev, i) then Finds(s.reqs[i], ev.e) else {};
      if i < |Step(s, ev).reqs| then Searched(Step(s, ev).reqs[i], passed + over, found + here)
      else passed + over == {} && found + here == {}
  {
    assert passed + {} == passed && found + {} == found;
    if i < |s.reqs| {
      assert LocalInv(s.reqs[i]);
      if ev.Handler? && ev.i == i { SearchedStep(s.reqs[i], ev.e, passed, found); }
      if ev.Worker? && ev.i == i { WorkerSearched(s.reqs[i], ev.e, passed, found); }
    }
  }

  /** In every run a handler looks at the maps in order; those it has passed over are the ones that
      were stale, for a missing direct mount, or whose cache had no entry.  What a direct request's
      worker is given is the cache of the first one that had. */
  lemma SearchIsInOrder(evs: seq<Event>, i: nat)
    requires Feasible(EMPTY, evs) && i < |Run(EMPTY, evs).reqs|
    ensures var r := Run(EMPTY, evs).reqs[i];
      var passed, found := PassedIn(EMPTY, evs, i), FoundIn(EMPTY, evs, i);
      && Searched(r, passed, found)
      && (Direct(r.kind) && ArgsOf(r.w).Some? ==> FoundFirst(r, passed, found, ArgsOf(r.w).value.mc))
  {
    Reachable([]);
    Reachable(evs);
    SearchedRun(EMPTY, evs, i, {}, {});
    assert LocalInv(Run(EMPTY, evs).reqs[i]);
    assert {} + PassedIn(EMPTY, evs, i) == PassedIn(EMPTY, evs, i);
    assert {} + FoundIn(EMPTY, evs, i) == FoundIn(EMPTY, evs, i);
  }

  // ----- under which locks

  /** A packet's handler will take the source lock for writing, but for reading if a direct mount is
      missing and the kernel is new enough to tell where. */
  lemma ArrivesWith(s: Sys, kind: Kind, ap: nat, token: nat, maps: seq<nat>, newKernel: bool)
    requires Enabled(s, Packet(kind, ap, token, maps, newKernel))
    ensures var r := Step(s, Packet(kind, ap, token, maps, newKernel)).reqs[|s.reqs|];
      && r.kind == kind && r.ap == ap && r.token == token && r.maps == maps
      && (r.sourceMode.Read? <==> kind.MissingDirect? && newKernel)
  {
  }

  lemma WorkerAnswers(r: Req, e: Env)
    requires LocalInv(r)
    ensures var x := WorkerStep(r, e).1;
      && |x| <= 1
      && (x != [] ==>
            if r.w.AtEntry? then x[0].reply.Ready? && r.wheld.cache == Some(Hold(r.mc, Write))
            else r.wheld == NOTHING && (!Direct(r.kind) || x[0].reply.Fail? || r.w.Exiting?))
      && (x == [] && WorkerStep(r, e).0.w.Ended? && !r.w.Ended? ==> r.wheld.cache == Some(Hold(r.mc, Read)))
  {
  }

  /** Only workers of direct mounts go back to the entry. */
  predicate EntryDirect(s: Sys) {
    forall i :: 0 <= i < |s.reqs| && (s.reqs[i].w.WantEntry? || s.reqs[i].w.AtEntry?) ==> Direct(s.reqs[i].kind)
  }

  lemma EntryDirectStep(s: Sys, ev: Event)
    requires Inv(s) && EntryDirect(s) && Enabled(s, ev)
    ensures EntryDirect(Step(s, ev))
  {
    if ev.Handler? {
      assert LocalInv(s.reqs[ev.i]);
      OwnEntry(s.reqs[ev.i], ev.e);
    }
  }

  lemma OwnEntry(r: Req, e: Env)
    requires LocalInv(r)
    ensures var r' := HandlerStep(r, e).0; r'.kind == r.kind && (r'.w == r.w || r'.w.WantPending?)
  {
  }

  lemma {:induction false} EntryDirectRun(s: Sys, evs: seq<Event>)
    requires Inv(s) && EntryDirect(s) && Feasible(s, evs)
    ensures EntryDirect(Run(s, evs))
    decreases |evs|
  {
    if evs == [] {
    } else {
      EntryDirectStep(s, evs[0]);
      StepKeepsInv(s, evs[0]);
      EntryDirectRun(Step(s, evs[0]), evs[1..]);
    }
  }

  /** In every run a worker answers the request for a direct mount that was mounted or expired only
      while it holds the cache lock in write mode, to record the descriptor; the other answers of
      workers are given with no lock held.  A worker whose last step is not its answer ends with the
      cache lock in read mode, having closed the descriptor. */
  lemma AnswersUnderLock(evs: seq<Event>, i: nat, e: Env)
    requires Feasible(EMPTY, evs) && Enabled(Run(EMPTY, evs), Worker(i, e))
    ensures var s := Run(EMPTY, evs); var r, s' := s.reqs[i], Step(s, Worker(i, e));
      && (|s'.log| > |s.log| ==>
            if r.w.AtEntry?
            then Direct(r.kind) && s'.log[|s.log|].reply.Ready? && r.wheld.cache == Some(Hold(r.mc, Write))
            else r.wheld == NOTHING && (!Direct(r.kind) || s'.log[|s.log|].reply.Fail? || r.w.Exiting?))
      && (|s'.log| == |s.log| && s'.reqs[i].w.Ended? && !r.w.Ended? ==> r.wheld.cache == Some(Hold(r.mc, Read)))
  {
    Reachable([]);
    Reachable(evs);
    EntryDirectRun(EMPTY, evs);
    var r := Run(EMPTY, evs).reqs[i];
    assert LocalInv(r);
    WorkerAnswers(r, e);
  }

  /** The mode in which a handler reads a map entry cache. */
  predicate HoldsCache(r: Req, mc: nat) {
    r.held.cache == Some(Hold(mc, if r.kind.ExpireDirect? then Write else Read))
  }

  /** In every run caches are looked into, and entries used, under their lock: by a handler of a
      direct expire in write mode and by the others in read mode, under the master mutex if a mount
      is missing and the source lock if it is direct; by a worker in write mode to record what it
      did, and in read mode to close after a failure. */
  lemma LooksUnderLock(evs: seq<Event>, i: nat)
    requires Feasible(EMPTY, evs) && i < |Run(EMPTY, evs).reqs|
    ensures var r := Run(EMPTY, evs).reqs[i];
      && (r.h.Peek? ==> r.h.maps != [] && HoldsCache(r, r.h.maps[0]))
      && (r.h.Found? ==> HoldsCache(r, r.h.mc)) && (r.h.Opened? ==> HoldsCache(r, r.h.mc))
      && (r.h.Alloc? || r.h.Create? ==> (Direct(r.kind) ==> HoldsCache(r, r.mc)))
      && (r.h.Peek? || r.h.Found? || r.h.Opened? ==>
            (r.held.master <==> Missing(r.kind)) && (r.held.source.Some? <==> Direct(r.kind)))
      && (r.w.AtEntry? ==> r.wheld.cache == Some(Hold(r.mc, Write)))
      && (r.w.AtAfter? ==> r.wheld.cache == Some(Hold(r.mc, Read)))
  {
    Reachable(evs);
    assert LocalInv(Run(EMPTY, evs).reqs[i]);
  }
}
