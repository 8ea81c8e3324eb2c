/** What every interleaving of the handlers and workers of `KernelRequests` keeps: each token
    is answered once, no lock is held past its use, and the pending arguments outlive every
    access to them.
 */
module KernelRequestsRuns {
  import opened Options
  import opened KernelRequests

  // ----- one request

  /** The locks taken before the search, by the kind of request. */
  function Base(r: Req): Locks {
    Locks(Missing(r.kind), if Direct(r.kind) then Some(r.sourceMode) else None, None, false)
  }

  function WithCache(r: Req, mc: nat): Locks {
    Base(r).(cache := Some(Hold(mc, CacheMode(r.kind))))
  }

  /** The locks held while the pending arguments are set up. */
  function AtAlloc(r: Req): Locks {
    if Direct(r.kind) then WithCache(r, r.mc) else Base(r)
  }

  /** The locks a handler holds, by the point it has reached. */
  function HeldAt(r: Req): Locks {
    match r.h
    case WantMaster => NOTHING
    case Check => Base(r)
    case WantSource => Base(r).(source := None)
    case Scan(_) => Base(r)
    case WantCache(_) => Base(r)
    case Peek(maps) => if maps == [] then Base(r) else WithCache(r, maps[0])
    case Found(mc) => WithCache(r, mc)
    case Opened(mc) => WithCache(r, mc)
    case Alloc => AtAlloc(r)
    case Create => AtAlloc(r).(pending := true)
    case Release => AtAlloc(r).(pending := true)
    case Clear => NOTHING.(pending := true)
    case Test => NOTHING.(pending := true)
    case Waiting => NOTHING
    case Done(_) => NOTHING
  }

  function WorkerHeldAt(r: Req): Locks {
    match r.w
    case Locked => NOTHING.(pending := true)
    case AtEntry(a) => NOTHING.(cache := Some(Hold(a.mc, Write)))
    case AtAfter(a, _) => NOTHING.(cache := Some(Hold(a.mc, Read)))
    case _ => NOTHING
  }

  /** The handler only reaches the points its kind of request has. */
  predicate OnPath(r: Req) {
    match r.h
    case WantMaster => Missing(r.kind)
    case Check => r.kind.MissingIndirect?
    case WantSource => Direct(r.kind)
    case Opened(_) => r.kind.MissingDirect?
    case Scan(_) => !r.kind.ExpireIndirect?
    case WantCache(maps) => !r.kind.ExpireIndirect? && maps != []
    case Peek(maps) => !r.kind.ExpireIndirect? && maps != []
    case Found(_) => !r.kind.ExpireIndirect?
    case _ => true
  }

  predicate HandsOff(h: Pc) {
    h.Release? || h.Clear? || h.Test? || h.Waiting?
  }

  /** The worker still has to take its copy. */
  predicate Uncopied(w: WorkerPc) {
    w.WantPending? || w.Locked?
  }

  /** The pending arguments live exactly as long as they are needed. */
  predicate BlockOk(r: Req) {
    && (r.h.Create? || HandsOff(r.h) ==> r.block.Block? && r.block.token == r.token && r.block.mc == r.mc)
    && (r.h.Release? || r.h.Clear? ==> r.w.WantPending?)
    && (HandsOff(r.h) || r.h == Done(Handed) <==> !r.w.NoWorker?)
    && ((r.h.Test? || r.h.Waiting?) && r.block.Block? ==> (r.block.signaled <==> !Uncopied(r.w)))
    && (r.h == Done(Handed) ==> r.block.Freed? && !Uncopied(r.w))
    && (!r.h.Create? && !HandsOff(r.h) ==> !r.block.Block?)
  }

  function ArgsOf(w: WorkerPc): Option<Copy> {
    match w
    case Working(a) => Some(a)
    case WantEntry(a) => Some(a)
    case AtEntry(a) => Some(a)
    case Exiting(a, _) => Some(a)
    case WantAfter(a, _) => Some(a)
    case AtAfter(a, _) => Some(a)
    case _ => None
  }

  predicate LocalInv(r: Req) {
    && r.held == HeldAt(r) && r.wheld == WorkerHeldAt(r) && OnPath(r) && BlockOk(r)
    && (ArgsOf(r.w).Some? ==> ArgsOf(r.w).value == Copy(r.token, r.mc))
  }

  /** The answer a request has been given so far. */
  function Given(r: Req): seq<Reply> {
    if r.h.Done? && r.h.end.Answered? then [r.h.end.reply]
    else match r.w
      case WantAfter(_, x) => [x]
      case AtAfter(_, x) => [x]
      case Ended(x) => [x]
      case _ => []
  }

  /** A step answers with this request's token, and records what it answered. */
  predicate Answers(r: Req, x: (Req, seq<Answer>)) {
    || (x.1 == [] && Given(x.0) == Given(r))
    || (Given(r) == [] && |x.1| == 1 && x.1[0].token == r.token && Given(x.0) == [x.1[0].reply])
  }

  predicate SameRequest(r: Req, q: Req) {
    q.kind == r.kind && q.ap == r.ap && q.token == r.token && q.maps == r.maps
  }

  /** Locks of the thread after the step: what it had or waited for. */
  predicate Within(new_: Locks, had: Locks, want: Locks) {
    && (new_.master ==> had.master || want.master)
    && (new_.source.Some? ==> new_.source == had.source || new_.source == want.source)
    && (new_.cache.Some? ==> new_.cache == had.cache || new_.cache == want.cache)
    && (new_.pending ==> had.pending || want.pending)
  }

  /** What a handler's step keeps. */
  predicate HandlerOk(r: Req, x: (Req, seq<Answer>)) {
    && LocalInv(x.0) && Answers(r, x) && SameRequest(r, x.0) && x.0.wheld == r.wheld
    && (r.h.Alloc? || Within(x.0.held, r.held, HandlerWants(r)))
  }

  lemma HandlerKeepsLocal(r: Req, e: Env)
    requires LocalInv(r) && !(HandlerWants(r).pending && r.wheld.pending)
    ensures HandlerOk(r, HandlerStep(r, e))
  {
    if r.h.Scan? || r.h.WantCache? || r.h.Peek? {
      SearchKeepsLocal(r, e);
    } else if r.h.Found? || r.h.Opened? {
      EntryKeepsLocal(r, e);
    } else if r.h.Alloc? || r.h.Create? {
      SetUpKeepsLocal(r, e);
    } else if HandsOff(r.h) {
      HandOffKeepsLocal(r, e);
    } else {
      StartKeepsLocal(r, e);
    }
  }

  lemma StartKeepsLocal(r: Req, e: Env)
    requires LocalInv(r) && (r.h.WantMaster? || r.h.Check? || r.h.WantSource? || r.h.Done?)
    ensures HandlerOk(r, HandlerStep(r, e))
  {
  }

  lemma SearchKeepsLocal(r: Req, e: Env)
    requires LocalInv(r) && (r.h.Scan? || r.h.WantCache? || r.h.Peek?)
    ensures HandlerOk(r, SearchStep(r, e))
  {
    match r.h
    case Scan(maps) => if maps == [] { }
    case WantCache(maps) =>
    case Peek(maps) =>
  }

  lemma EntryKeepsLocal(r: Req, e: Env)
    requires LocalInv(r) && (r.h.Found? || r.h.Opened?)
    ensures HandlerOk(r, EntryStep(r, e))
  {
    if r.h.Opened? {
      OpenedKeepsLocal(r, e);
    }
  }

  lemma OpenedKeepsLocal(r: Req, e: Env)
    requires LocalInv(r) && r.h.Opened?
    ensures HandlerOk(r, EntryStep(r, e))
  {
  }

  lemma SetUpKeepsLocal(r: Req, e: Env)
    requires LocalInv(r) && (r.h.Alloc? || r.h.Create?)
    ensures HandlerOk(r, HandOffStep(r, e))
  {
  }

  lemma HandOffKeepsLocal(r: Req, e: Env)
    requires LocalInv(r) && !(HandlerWants(r).pending && r.wheld.pending)
    requires HandsOff(r.h)
    ensures HandlerOk(r, HandOffStep(r, e))
  {
  }

  /** What a worker's step keeps. */
  predicate WorkerOk(r: Req, x: (Req, seq<Answer>)) {
    && LocalInv(x.0) && Answers(r, x) && SameRequest(r, x.0) && x.0.held == r.held
    && Within(x.0.wheld, r.wheld, WorkerWants(r))
  }

  lemma WorkKeepsLocal(r: Req, a: Copy, o: Outcome)
    requires LocalInv(r) && r.w == Working(a)
    ensures WorkerOk(r, WorkStep(r, a, o))
  {
    match o
    case Works => WorkEnds(r, a, o);
    case Fails(_) => WorkEnds(r, a, o);
    case _ => WorkExits(r, a, o);
  }

  lemma WorkEnds(r: Req, a: Copy, o: Outcome)
    requires LocalInv(r) && r.w == Working(a) && (o.Works? || o.Fails?)
    ensures WorkerOk(r, WorkStep(r, a, o))
  {
  }

  lemma WorkExits(r: Req, a: Copy, o: Outcome)
    requires LocalInv(r) && r.w == Working(a) && !o.Works? && !o.Fails?
    ensures WorkerOk(r, WorkStep(r, a, o))
  {
  }

  lemma WorkerKeepsLocal(r: Req, e: Env)
    requires LocalInv(r) && !(WorkerWants(r).pending && r.held.pending)
    ensures WorkerOk(r, WorkerStep(r, e))
  {
    match r.w
    case Working(a) => WorkKeepsLocal(r, a, e.outcome);
    case WantPending =>
    case Locked =>
    case WantEntry(_) => EntryWorkKeepsLocal(r, e);
    case AtEntry(_) => EntryWorkKeepsLocal(r, e);
    case _ => LaterKeepsLocal(r, e);
  }

  lemma EntryWorkKeepsLocal(r: Req, e: Env)
    requires LocalInv(r) && (r.w.WantEntry? || r.w.AtEntry?)
    ensures WorkerOk(r, WorkerStep(r, e))
  {
  }

  lemma LaterKeepsLocal(r: Req, e: Env)
    requires LocalInv(r)
    requires r.w.NoWorker? || r.w.Exiting? || r.w.WantAfter? || r.w.AtAfter? || r.w.Ended?
    ensures WorkerOk(r, WorkerStep(r, e))
  {
  }

  // ----- the system

  /** The replies sent so far on a token. */
  function RepliesTo(log: seq<Answer>, token: nat): seq<Reply> {
    if log == [] then []
    else if log[0].token == token then [log[0].reply] + RepliesTo(log[1..], token)
    else RepliesTo(log[1..], token)
  }

  lemma {:induction false} RepliesToConcat(a: seq<Answer>, b: seq<Answer>, token: nat)
    ensures RepliesTo(a + b, token) == RepliesTo(a, token) + RepliesTo(b, token)
  {
    if a == [] {
      assert a + b == b;
    } else {
      assert (a + b)[1..] == a[1..] + b;
      RepliesToConcat(a[1..], b, token);
    }
  }

  /** No two threads of the two requests hold locks that exclude each other. */
  predicate Apart(r: Req, q: Req) {
    && !Clash(r.ap, r.held, q.ap, q.held, false) && !Clash(r.ap, r.held, q.ap, q.wheld, false)
    && !Clash(r.ap, r.wheld, q.ap, q.held, false) && !Clash(r.ap, r.wheld, q.ap, q.wheld, false)
  }

  predicate OwnApart(r: Req) {
    !Clash(r.ap, r.held, r.ap, r.wheld, true)
  }

  predicate Exclusive(s: Sys) {
    && (forall i, j :: 0 <= i < |s.reqs| && 0 <= j < |s.reqs| && i != j ==> Apart(s.reqs[i], s.reqs[j]))
    && (forall i :: 0 <= i < |s.reqs| ==> OwnApart(s.reqs[i]))
  }

  predicate DistinctTokens(s: Sys) {
    forall i, j :: 0 <= i < j < |s.reqs| ==> s.reqs[i].token != s.reqs[j].token
  }

  predicate Logged(s: Sys) {
    forall i :: 0 <= i < |s.reqs| ==> RepliesTo(s.log, s.reqs[i].token) == Given(s.reqs[i])
  }

  predicate Asked(reqs: seq<Req>, token: nat) {
    exists i :: 0 <= i < |reqs| && reqs[i].token == token
  }

  predicate OnlyAsked(s: Sys) {
    forall k :: 0 <= k < |s.log| ==> Asked(s.reqs, s.log[k].token)
  }

  predicate Inv(s: Sys) {
    && (forall i :: 0 <= i < |s.reqs| ==> LocalInv(s.reqs[i]))
    && Exclusive(s) && DistinctTokens(s) && Logged(s) && OnlyAsked(s)
  }

  // ----- locks stay exclusive

  lemma WithinApart(ap: nat, new_: Locks, had: Locks, want: Locks, bp: nat, b: Locks)
    requires Within(new_, had, want) && !Clash(ap, had, bp, b, false) && !Clash(ap, want, bp, b, false)
    ensures !Clash(ap, new_, bp, b, false) && !Clash(bp, b, ap, new_, false)
  {
  }

  lemma HandlerApart(s: Sys, i: nat, e: Env, j: nat)
    requires Inv(s) && i < |s.reqs| && j < |s.reqs| && i != j && Free(s, i, HandlerWants(s.reqs[i]))
    requires HandlerOk(s.reqs[i], HandlerStep(s.reqs[i], e))
    ensures Apart(HandlerStep(s.reqs[i], e).0, s.reqs[j]) && Apart(s.reqs[j], HandlerStep(s.reqs[i], e).0)
  {
    var r, q := s.reqs[i], s.reqs[j];
    var r' := HandlerStep(r, e).0;
    assert Apart(r, q) && Apart(q, r);
    assert Clear1(i, r.ap, HandlerWants(r), j, q);
    if r.h.Alloc? {
      assert Within(r'.held.(pending := false), r.held, NOTHING);
      WithinApart(r.ap, r'.held.(pending := false), r.held, NOTHING, q.ap, q.held);
      WithinApart(r.ap, r'.held.(pending := false), r.held, NOTHING, q.ap, q.wheld);
    } else {
      WithinApart(r.ap, r'.held, r.held, HandlerWants(r), q.ap, q.held);
      WithinApart(r.ap, r'.held, r.held, HandlerWants(r), q.ap, q.wheld);
    }
  }

  lemma WorkerApart(s: Sys, i: nat, e: Env, j: nat)
    requires Inv(s) && i < |s.reqs| && j < |s.reqs| && i != j && Free(s, i, WorkerWants(s.reqs[i]))
    requires WorkerOk(s.reqs[i], WorkerStep(s.reqs[i], e))
    ensures Apart(WorkerStep(s.reqs[i], e).0, s.reqs[j]) && Apart(s.reqs[j], WorkerStep(s.reqs[i], e).0)
  {
    var r, q := s.reqs[i], s.reqs[j];
    var r' := WorkerStep(r, e).0;
    assert Apart(r, q) && Apart(q, r);
    assert Clear1(i, r.ap, WorkerWants(r), j, q);
    WithinApart(r.ap, r'.wheld, r.wheld, WorkerWants(r), q.ap, q.held);
    WithinApart(r.ap, r'.wheld, r.wheld, WorkerWants(r), q.ap, q.wheld);
  }

  lemma OwnHandlerApart(r: Req, e: Env)
    requires LocalInv(r) && OwnApart(r) && HandlerOk(r, HandlerStep(r, e))
    requires !Clash(r.ap, HandlerWants(r), r.ap, r.wheld, true)
    ensures OwnApart(HandlerStep(r, e).0)
  {
  }

  lemma OwnWorkerApart(r: Req, e: Env)
    requires LocalInv(r) && OwnApart(r) && WorkerOk(r, WorkerStep(r, e))
    requires !Clash(r.ap, WorkerWants(r), r.ap, r.held, true)
    ensures OwnApart(WorkerStep(r, e).0)
  {
  }

  // ----- every step keeps the invariant

  /** Replacing one request, given what its step guarantees. */
  lemma UpdateKeeps(s: Sys, i: nat, x: (Req, seq<Answer>))
    requires Inv(s) && i < |s.reqs|
    requires LocalInv(x.0) && Answers(s.reqs[i], x) && SameRequest(s.reqs[i], x.0) && OwnApart(x.0)
    requires forall j :: 0 <= j < |s.reqs| && j != i ==> Apart(x.0, s.reqs[j]) && Apart(s.reqs[j], x.0)
    ensures Inv(Update(s, i, x))
  {
    var s' := Update(s, i, x);
    forall j | 0 <= j < |s'.reqs| ensures RepliesTo(s'.log, s'.reqs[j].token) == Given(s'.reqs[j]) {
      RepliesToConcat(s.log, x.1, s.reqs[j].token);
      assert RepliesTo(s.log, s.reqs[j].token) == Given(s.reqs[j]);
      if |x.1| == 1 {
        assert x.1[1..] == [];
        assert j != i ==> s.reqs[j].token != s.reqs[i].token;
      }
    }
    OnlyAskedKept(s, i, x);
  }

  lemma OnlyAskedKept(s: Sys, i: nat, x: (Req, seq<Answer>))
    requires OnlyAsked(s) && i < |s.reqs| && Answers(s.reqs[i], x) && SameRequest(s.reqs[i], x.0)
    ensures OnlyAsked(Update(s, i, x))
  {
    var s' := Update(s, i, x);
    forall k | 0 <= k < |s'.log| ensures Asked(s'.reqs, s'.log[k].token) {
      if k < |s.log| {
        assert Asked(s.reqs, s.log[k].token);
        var j :| 0 <= j < |s.reqs| && s.reqs[j].token == s.log[k].token;
        assert s'.reqs[j].token == s'.log[k].token;
      } else {
        assert s'.reqs[i].token == s'.log[k].token;
      }
    }
  }

  lemma ArrivedIs(ev: Event)
    requires ev.Packet?
    ensures var r := Arrived(ev.kind, ev.ap, ev.token, ev.maps, ev.newKernel);
      && LocalInv(r) && r.held == NOTHING && r.wheld == NOTHING && Given(r) == [] && r.token == ev.token
  {
  }

  lemma ArrivedApart(s: Sys, r: Req)
    requires Exclusive(s) && r.held == NOTHING && r.wheld == NOTHING
    ensures Exclusive(s.(reqs := s.reqs + [r]))
  {
    var reqs := s.reqs + [r];
    forall i, j | 0 <= i < |reqs| && 0 <= j < |reqs| && i != j ensures Apart(reqs[i], reqs[j]) {
      if i < |s.reqs| && j < |s.reqs| { assert Apart(s.reqs[i], s.reqs[j]); }
    }
    forall i | 0 <= i < |reqs| ensures OwnApart(reqs[i]) {
      if i < |s.reqs| { assert OwnApart(s.reqs[i]); }
    }
  }

  lemma PacketKeeps(s: Sys, ev: Event)
    requires Inv(s) && ev.Packet? && Enabled(s, ev)
    ensures Inv(Step(s, ev))
  {
    var r := Arrived(ev.kind, ev.ap, ev.token, ev.maps, ev.newKernel);
    var s' := Step(s, ev);
    ArrivedIs(ev);
    ArrivedApart(s, r);
    NotAsked(s, ev.token);
    assert forall i :: 0 <= i < |s.reqs| ==> s'.reqs[i] == s.reqs[i];
    assert Logged(s');
    forall k | 0 <= k < |s'.log| ensures Asked(s'.reqs, s'.log[k].token) {
      assert Asked(s.reqs, s.log[k].token);
      var j :| 0 <= j < |s.reqs| && s.reqs[j].token == s.log[k].token;
      assert s'.reqs[j].token == s'.log[k].token;
    }
  }

  lemma NotAsked(s: Sys, token: nat)
    requires OnlyAsked(s) && forall j :: 0 <= j < |s.reqs| ==> s.reqs[j].token != token
    ensures RepliesTo(s.log, token) == []
  {
    forall k | 0 <= k < |s.log| ensures s.log[k].token != token {
      assert Asked(s.reqs, s.log[k].token);
    }
    Unanswered(s.log, token);
  }

  lemma {:induction false} Unanswered(log: seq<Answer>, token: nat)
    requires forall k :: 0 <= k < |log| ==> log[k].token != token
    ensures RepliesTo(log, token) == []
    decreases |log|
  {
    if log == [] {
    } else {
      Unanswered(log[1..], token);
    }
  }

  lemma StepKeepsInv(s: Sys, ev: Event)
    requires Inv(s) && Enabled(s, ev)
    ensures Inv(Step(s, ev))
  {
    match ev
    case Packet(_, _, _, _, _) => PacketKeeps(s, ev);
    case Handler(i, e) =>
      var r := s.reqs[i];
      assert Clear1(i, r.ap, HandlerWants(r), i, r);
      HandlerKeepsLocal(r, e);
      OwnHandlerApart(r, e);
      forall j | 0 <= j < |s.reqs| && j != i
        ensures Apart(HandlerStep(r, e).0, s.reqs[j]) && Apart(s.reqs[j], HandlerStep(r, e).0)
      {
        HandlerApart(s, i, e, j);
      }
      UpdateKeeps(s, i, HandlerStep(r, e));
    case Worker(i, e) =>
      var r := s.reqs[i];
      assert Clear1(i, r.ap, WorkerWants(r), i, r);
      WorkerKeepsLocal(r, e);
      OwnWorkerApart(r, e);
      forall j | 0 <= j < |s.reqs| && j != i
        ensures Apart(WorkerStep(r, e).0, s.reqs[j]) && Apart(s.reqs[j], WorkerStep(r, e).0)
      {
        WorkerApart(s, i, e, j);
      }
      UpdateKeeps(s, i, WorkerStep(r, e));
  }

  lemma {:induction false} RunKeepsInv(s: Sys, evs: seq<Event>)
    requires Inv(s) && Feasible(s, evs)
    ensures Inv(Run(s, evs))
    decreases |evs|
  {
    if evs == [] {
    } else {
      StepKeepsInv(s, evs[0]);
      RunKeepsInv(Step(s, evs[0]), evs[1..]);
    }
  }

  lemma Reachable(evs: seq<Event>)
    requires Feasible(EMPTY, evs)
    ensures Inv(Run(EMPTY, evs))
  {
    RunKeepsInv(EMPTY, evs);
  }
}
