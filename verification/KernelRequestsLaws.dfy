/** The main results about kernel requests, over every interleaving: exactly one reply per
    token, no lock leaked, no use of freed arguments, and no deadlock.
 */
module KernelRequestsLaws {
  import opened Options
  import opened KernelRequests
  import opened KernelRequestsRuns

  /** Both threads of the request are through. */
  predicate Finished(r: Req) {
    r.h.Done? && (r.w.NoWorker? || r.w.Ended?)
  }

  /** No token is answered that was not asked. */
  lemma NoStrayReply(evs: seq<Event>, token: nat)
    requires Feasible(EMPTY, evs) && !Asked(Run(EMPTY, evs).reqs, token)
    ensures RepliesTo(Run(EMPTY, evs).log, token) == []
  {
    Reachable(evs);
    Unanswered(Run(EMPTY, evs).log, token);
  }

  /** The returns with nothing to answer on: no entry, no usable key, no descriptor. */
  predicate NothingToAnswerOn(r: Req, e: Env) {
    || (Direct(r.kind) && r.h == Scan([]))
    || (r.kind.MissingDirect? && r.h.Found? && !e.opens)
    || (r.kind.ExpireDirect? && r.h.Found? && (e.tooLong || (!e.hasFd && !e.opens)))
  }

  lemma SilentIff(r: Req, e: Env)
    requires LocalInv(r) && !r.h.Done?
    ensures HandlerStep(r, e).0.h == Done(Silent) <==> NothingToAnswerOn(r, e)
  {
  }

  /** Somewhere in the run the handler of request `i` met such a return. */
  predicate GaveUp(s: Sys, evs: seq<Event>, i: nat)
    requires Feasible(s, evs)
    decreases |evs|
  {
    evs != [] &&
    (|| (evs[0].Handler? && evs[0].i == i && !s.reqs[i].h.Done? && NothingToAnswerOn(s.reqs[i], evs[0].e))
     || GaveUp(Step(s, evs[0]), evs[1..], i))
  }

  predicate IsSilent(s: Sys, i: nat) {
    i < |s.reqs| && s.reqs[i].h == Done(Silent)
  }

  lemma SilentStep(s: Sys, ev: Event, i: nat)
    requires Inv(s) && Enabled(s, ev)
    ensures IsSilent(Step(s, ev), i) <==>
              || IsSilent(s, i)
              || (ev.Handler? && ev.i == i && !s.reqs[i].h.Done? && NothingToAnswerOn(s.reqs[i], ev.e))
  {
    if ev.Handler? && ev.i == i && !s.reqs[i].h.Done? {
      assert LocalInv(s.reqs[i]);
      SilentIff(s.reqs[i], ev.e);
    }
  }

  lemma {:induction false} SilentHistory(s: Sys, evs: seq<Event>, i: nat)
    requires Inv(s) && Feasible(s, evs)
    ensures IsSilent(Run(s, evs), i) <==> IsSilent(s, i) || GaveUp(s, evs, i)
    decreases |evs|
  {
    if evs == [] {
    } else {
      SilentStep(s, evs[0], i);
      StepKeepsInv(s, evs[0]);
      SilentHistory(Step(s, evs[0]), evs[1..], i);
    }
  }

  /** A token is never answered twice, and a finished request was answered exactly once, except
      when its handler met a return with nothing to answer on: no entry, no usable key or no
      descriptor. */
  lemma ExactlyOneReply(evs: seq<Event>, i: nat)
    requires Feasible(EMPTY, evs) && i < |Run(EMPTY, evs).reqs|
    ensures var s := Run(EMPTY, evs); var n := |RepliesTo(s.log, s.reqs[i].token)|;
      n <= 1 && (Finished(s.reqs[i]) ==> (n == 1 <==> !GaveUp(EMPTY, evs, i)))
  {
    Reachable(evs);
    SilentHistory(EMPTY, evs, i);
    assert LocalInv(Run(EMPTY, evs).reqs[i]);
  }

  /** Only the request to expire a direct mount is answered ready by its handler. */
  predicate HandlerReady(s: Sys) {
    forall i :: 0 <= i < |s.reqs| && s.reqs[i].h == Done(Answered(Ready)) ==> s.reqs[i].kind.ExpireDirect?
  }

  lemma HandlerReadyStep(s: Sys, ev: Event)
    requires Inv(s) && HandlerReady(s) && Enabled(s, ev)
    ensures HandlerReady(Step(s, ev))
  {
    if ev.Handler? {
      assert LocalInv(s.reqs[ev.i]);
      OwnReady(s.reqs[ev.i], ev.e);
    }
  }

  lemma OwnReady(r: Req, e: Env)
    requires LocalInv(r) && (r.h == Done(Answered(Ready)) ==> r.kind.ExpireDirect?)
    ensures HandlerStep(r, e).0.h == Done(Answered(Ready)) ==> HandlerStep(r, e).0.kind.ExpireDirect?
  {
  }

  lemma {:induction false} HandlerReadyRun(s: Sys, evs: seq<Event>)
    requires Inv(s) && HandlerReady(s) && Feasible(s, evs)
    ensures HandlerReady(Run(s, evs))
    decreases |evs|
  {
    if evs == [] {
    } else {
      HandlerReadyStep(s, evs[0]);
      StepKeepsInv(s, evs[0]);
      HandlerReadyRun(Step(s, evs[0]), evs[1..]);
    }
  }

  /** In every run a missing mount is reported ready only by a worker, which has done its work or
      has exited. */
  lemma ReadyIsWorkers(evs: seq<Event>, i: nat)
    requires Feasible(EMPTY, evs) && i < |Run(EMPTY, evs).reqs|
    requires var s := Run(EMPTY, evs); Missing(s.reqs[i].kind) && RepliesTo(s.log, s.reqs[i].token) == [Ready]
    ensures Promised(Run(EMPTY, evs).reqs[i]) == Some(Ready)
  {
    Reachable(evs);
    HandlerReadyRun(EMPTY, evs);
    assert LocalInv(Run(EMPTY, evs).reqs[i]);
  }

  /** Every thread gives back all it locked. */
  lemma LocksReleased(evs: seq<Event>, i: nat)
    requires Feasible(EMPTY, evs) && i < |Run(EMPTY, evs).reqs|
    ensures var r := Run(EMPTY, evs).reqs[i];
      && (r.h.Done? ==> r.held == NOTHING)
      && (r.w.Ended? || r.w.NoWorker? ==> r.wheld == NOTHING)
      && (r.h.Waiting? ==> r.held == NOTHING)
  {
    Reachable(evs);
    assert LocalInv(Run(EMPTY, evs).reqs[i]);
  }

  /** A check of the lock model: threads that wait for a free lock never share one, unless both
      only read. */
  lemma MutualExclusion(evs: seq<Event>, i: nat, j: nat)
    requires Feasible(EMPTY, evs) && i < |Run(EMPTY, evs).reqs| && j < |Run(EMPTY, evs).reqs|
    ensures var s := Run(EMPTY, evs); var r, q := s.reqs[i], s.reqs[j];
      && Exclusive(r, r.held, q, q.wheld)
      && (i != j ==> Exclusive(r, r.held, q, q.held) && Exclusive(r, r.wheld, q, q.wheld))
      && !(r.held.pending && r.wheld.pending)
  {
    Reachable(evs);
    var s := Run(EMPTY, evs);
    assert OwnApart(s.reqs[i]);
    assert i != j ==> Apart(s.reqs[i], s.reqs[j]);
  }

  /** No lock is in both sets, unless it is the source lock of a point or a cache lock and both only
      read. */
  predicate Exclusive(r: Req, a: Locks, q: Req, b: Locks) {
    && !(a.master && b.master)
    && (a.source.Some? && b.source.Some? && r.ap == q.ap ==> a.source == b.source == Some(Read))
    && (a.cache.Some? && b.cache.Some? && a.cache.value.mc == b.cache.value.mc ==>
          a.cache.value.mode.Read? && b.cache.value.mode.Read?)
  }

  /** The pending arguments are there, with the right token, whenever the worker has yet to
      copy them or the handler still waits on them; they are freed when the handler returns,
      and by then the worker has its own copy. */
  lemma NoUseAfterFree(evs: seq<Event>, i: nat)
    requires Feasible(EMPTY, evs) && i < |Run(EMPTY, evs).reqs|
    ensures var r := Run(EMPTY, evs).reqs[i];
      && (Uncopied(r.w) || HandsOff(r.h) ==> r.block.Block? && r.block.token == r.token)
      && (r.h.Done? ==> !r.block.Block? && !Uncopied(r.w))
      && (ArgsOf(r.w).Some? ==> ArgsOf(r.w).value.token == r.token)
  {
    Reachable(evs);
    assert LocalInv(Run(EMPTY, evs).reqs[i]);
  }

  // ----- the answer follows from the work

  /** The reply to a request whose worker ended its work with this outcome. */
  function Verdict(k: Kind, o: Outcome): Reply {
    match o
    case Works => Ready
    case Fails(errno) => if k.ExpireIndirect? then Fail(-errno) else Fail(-ENOENT)
    case _ =>
      if !Missing(k) then Fail(-ENOENT)
      else if k.MissingIndirect? && o.TooLong? then Fail(-ENAMETOOLONG)
      else if k.MissingDirect? && o.NotATrigger? then Fail(-EINVAL)
      else Ready
  }

  /** What the worker will have answered in the end. */
  function Promised(r: Req): Option<Reply> {
    match r.w
    case WantEntry(_) => Some(Ready)
    case AtEntry(_) => Some(Ready)
    case Exiting(_, status) => Some(CleanupReply(r.kind, status))
    case WantAfter(_, x) => Some(x)
    case AtAfter(_, x) => Some(x)
    case Ended(x) => Some(x)
    case _ => None
  }

  lemma WorkPromises(r: Req, a: Copy, o: Outcome)
    ensures Promised(WorkStep(r, a, o).0) == Some(Verdict(r.kind, o))
  {
  }

  lemma HandlerLeavesWorker(r: Req, e: Env)
    requires LocalInv(r) && !r.w.NoWorker?
    ensures HandlerStep(r, e).0.w == r.w && HandlerStep(r, e).0.kind == r.kind
  {
  }

  lemma WorkerKeepsPromise(r: Req, e: Env)
    requires Promised(r).Some?
    ensures Promised(WorkerStep(r, e).0) == Promised(r)
  {
  }

  lemma {:induction false} PromiseKept(s: Sys, evs: seq<Event>, i: nat)
    requires Inv(s) && Feasible(s, evs) && i < |s.reqs| && Promised(s.reqs[i]).Some?
    ensures i < |Run(s, evs).reqs| && Promised(Run(s, evs).reqs[i]) == Promised(s.reqs[i])
    decreases |evs|
  {
    if evs == [] {
    } else {
      var r := s.reqs[i];
      StepKeepsInv(s, evs[0]);
      if evs[0].Handler? && evs[0].i == i { HandlerLeavesWorker(r, evs[0].e); }
      if evs[0].Worker? && evs[0].i == i { WorkerKeepsPromise(r, evs[0].e); }
      PromiseKept(Step(s, evs[0]), evs[1..], i);
    }
  }

  /** However the threads are scheduled after a worker's work ended with outcome `e.outcome`,
      once it is through the kernel has been told the verdict on that outcome and nothing else. */
  lemma ReplyIsVerdict(s: Sys, i: nat, e: Env, after: seq<Event>)
    requires Inv(s) && Enabled(s, Worker(i, e)) && s.reqs[i].w.Working?
    requires Feasible(Step(s, Worker(i, e)), after)
    ensures var t := Run(Step(s, Worker(i, e)), after);
      i < |t.reqs| && (t.reqs[i].w.Ended? ==>
        RepliesTo(t.log, t.reqs[i].token) == [Verdict(s.reqs[i].kind, e.outcome)])
  {
    var s1 := Step(s, Worker(i, e));
    StepKeepsInv(s, Worker(i, e));
    WorkPromises(s.reqs[i], s.reqs[i].w.args, e.outcome);
    PromiseAnswered(s1, after, i);
  }

  lemma PromiseAnswered(s: Sys, evs: seq<Event>, i: nat)
    requires Inv(s) && Feasible(s, evs) && i < |s.reqs| && Promised(s.reqs[i]).Some?
    ensures i < |Run(s, evs).reqs|
    ensures var t := Run(s, evs);
      t.reqs[i].w.Ended? ==> RepliesTo(t.log, t.reqs[i].token) == [Promised(s.reqs[i]).value]
  {
    PromiseKept(s, evs, i);
    RunKeepsInv(s, evs);
    EndedReply(Run(s, evs), i);
  }

  lemma EndedReply(s: Sys, i: nat)
    requires Inv(s) && i < |s.reqs|
    ensures s.reqs[i].w.Ended? ==> RepliesTo(s.log, s.reqs[i].token) == [s.reqs[i].w.reply]
  {
    assert LocalInv(s.reqs[i]);
  }

  // ----- progress

  /** Steps a handler has left, not counting the rounds of its wait. */
  function HandlerLeft(r: Req): nat {
    match r.h
    case WantMaster => 3 * |r.maps| + 13
    case Check => 3 * |r.maps| + 12
    case WantSource => 3 * |r.maps| + 12
    case Scan(maps) => 3 * |maps| + 9
    case WantCache(maps) => 3 * |maps| + 8
    case Peek(maps) => 3 * |maps| + 7
    case Found(_) => 9
    case Opened(_) => 8
    case Alloc => 7
    case Create => 6
    case Release => 5
    case Clear => 4
    case Test => if r.block.Block? && r.block.signaled then 1 else 3
    case Waiting => 2
    case Done(_) => 0
  }

  function WorkerLeft(r: Req): nat {
    match r.w
    case NoWorker => if r.h.Done? then 0 else 8
    case WantPending => 7
    case Locked => 6
    case Working(_) => 3
    case WantEntry(_) => 2
    case AtEntry(_) => 1
    case Exiting(_, _) => 1
    case WantAfter(_, _) => 2
    case AtAfter(_, _) => 1
    case Ended(_) => 0
  }

  function Left(r: Req): nat {
    HandlerLeft(r) + WorkerLeft(r)
  }

  /** The handler waits for a worker that has not signalled yet. */
  predicate WaitsInVain(r: Req) {
    r.h.Waiting? && Uncopied(r.w)
  }

  lemma HandlerAdvances(r: Req, e: Env)
    requires LocalInv(r) && !r.h.Done? && !WaitsInVain(r)
    ensures Left(HandlerStep(r, e).0) < Left(r)
  {
    if r.h.Scan? || r.h.WantCache? || r.h.Peek? {
      SearchAdvances(r, e);
    } else if r.h.Found? || r.h.Opened? {
      EntryAdvances(r, e);
    }
  }

  lemma SearchAdvances(r: Req, e: Env)
    requires LocalInv(r) && (r.h.Scan? || r.h.WantCache? || r.h.Peek?)
    ensures Left(SearchStep(r, e).0) < Left(r)
  {
    if r.h.maps != [] { assert |r.h.maps[1..]| == |r.h.maps| - 1; }
  }

  lemma EntryAdvances(r: Req, e: Env)
    requires LocalInv(r) && (r.h.Found? || r.h.Opened?)
    ensures Left(EntryStep(r, e).0) < Left(r)
  {
  }

  lemma WorkerAdvances(r: Req, e: Env)
    requires LocalInv(r) && !r.w.NoWorker? && !r.w.Ended? && (r.w.Locked? ==> r.block.Block?)
    ensures Left(WorkerStep(r, e).0) < Left(r)
  {
  }

  // ----- no deadlock

  /** The handler is through, or waits for a lock or for its worker. */
  predicate HandlerRests(r: Req) {
    r.h.Done? || HandlerWants(r) != NOTHING
  }

  predicate WorkerRests(r: Req) {
    r.w.NoWorker? || r.w.Ended? || WorkerWants(r) != NOTHING
  }

  predicate AllRest(s: Sys) {
    forall j :: 0 <= j < |s.reqs| ==> HandlerRests(s.reqs[j]) && WorkerRests(s.reqs[j])
  }

  /** Threads that rest hold no cache lock and no mutex of pending arguments; none holds the
      source lock while every handler is before its search. */
  lemma RestHolds(r: Req)
    requires LocalInv(r) && HandlerRests(r) && WorkerRests(r)
    ensures r.wheld == NOTHING && !r.held.pending && r.held.cache == None
    ensures !r.h.WantCache? ==> r.held.source == None
    ensures !r.h.WantCache? && !r.h.WantSource? ==> r.held == NOTHING
  {
  }

  lemma RestFrees(s: Sys, i: nat, want: Locks)
    requires Inv(s) && AllRest(s) && i < |s.reqs| && !want.master && want.source == None
    ensures Free(s, i, want)
  {
    forall j | 0 <= j < |s.reqs| ensures Clear1(i, s.reqs[i].ap, want, j, s.reqs[j]) {
      RestHolds(s.reqs[j]);
    }
  }

  predicate NoneSearches(s: Sys) {
    forall j :: 0 <= j < |s.reqs| ==> !s.reqs[j].h.WantCache?
  }

  lemma SourceIsFree(s: Sys, i: nat)
    requires Inv(s) && AllRest(s) && NoneSearches(s) && i < |s.reqs| && s.reqs[i].h.WantSource?
    ensures Free(s, i, HandlerWants(s.reqs[i]))
  {
    forall j | 0 <= j < |s.reqs| ensures Clear1(i, s.reqs[i].ap, HandlerWants(s.reqs[i]), j, s.reqs[j]) {
      RestHolds(s.reqs[j]);
    }
  }

  lemma MasterIsFree(s: Sys, i: nat)
    requires Inv(s) && AllRest(s) && NoneSearches(s) && i < |s.reqs| && s.reqs[i].h.WantMaster?
    requires forall j :: 0 <= j < |s.reqs| ==> !s.reqs[j].h.WantSource?
    ensures Free(s, i, HandlerWants(s.reqs[i]))
  {
    forall j | 0 <= j < |s.reqs| ensures Clear1(i, s.reqs[i].ap, HandlerWants(s.reqs[i]), j, s.reqs[j]) {
      RestHolds(s.reqs[j]);
    }
  }

  /** A thread that can take a step of its own. */
  predicate CanGo(s: Sys, ev: Event) {
    match ev
    case Packet(_, _, _, _, _) => false
    case Handler(i, _) => Enabled(s, ev) && !s.reqs[i].h.Done? && !WaitsInVain(s.reqs[i])
    case Worker(i, _) => Enabled(s, ev) && !s.reqs[i].w.NoWorker? && !s.reqs[i].w.Ended?
  }

  lemma NothingIsFree(s: Sys, i: nat)
    requires i < |s.reqs|
    ensures Free(s, i, NOTHING)
  {
  }

  /** As long as a request is unfinished some thread can go on, whatever the environment does:
      the locks are taken in one order, and none is held across the wait for a worker. */
  lemma NoDeadlock(s: Sys, i: nat, e: Env) returns (ev: Event)
    requires Inv(s) && i < |s.reqs| && !Finished(s.reqs[i])
    ensures CanGo(s, ev) && ev.e == e
  {
    if j :| 0 <= j < |s.reqs| && !HandlerRests(s.reqs[j]) {
      NothingIsFree(s, j);
      return Handler(j, e);
    }
    if j :| 0 <= j < |s.reqs| && !WorkerRests(s.reqs[j]) {
      NothingIsFree(s, j);
      return Worker(j, e);
    }
    if j :| 0 <= j < |s.reqs| && !s.reqs[j].w.NoWorker? && !s.reqs[j].w.Ended? {
      RestFrees(s, j, WorkerWants(s.reqs[j]));
      return Worker(j, e);
    }
    assert forall j :: 0 <= j < |s.reqs| ==> s.reqs[j].w.NoWorker? || s.reqs[j].w.Ended?;
    ev := OnlyHandlersLeft(s, i, e);
  }

  lemma OnlyHandlersLeft(s: Sys, i: nat, e: Env) returns (ev: Event)
    requires Inv(s) && AllRest(s) && i < |s.reqs| && !s.reqs[i].h.Done?
    requires forall j :: 0 <= j < |s.reqs| ==> s.reqs[j].w.NoWorker? || s.reqs[j].w.Ended?
    ensures CanGo(s, ev) && ev.e == e
  {
    if j :| 0 <= j < |s.reqs| && (s.reqs[j].h.Waiting? || s.reqs[j].h.WantCache?) {
      RestFrees(s, j, HandlerWants(s.reqs[j]));
      return Handler(j, e);
    }
    if j :| 0 <= j < |s.reqs| && s.reqs[j].h.WantSource? {
      SourceIsFree(s, j);
      return Handler(j, e);
    }
    assert s.reqs[i].h.WantMaster?;
    MasterIsFree(s, i);
    return Handler(i, e);
  }

  function TotalLeft(reqs: seq<Req>): nat {
    if reqs == [] then 0 else Left(reqs[0]) + TotalLeft(reqs[1..])
  }

  lemma {:induction false} TotalUpdate(reqs: seq<Req>, i: nat, r: Req)
    requires i < |reqs|
    ensures TotalLeft(reqs[i := r]) == TotalLeft(reqs) - Left(reqs[i]) + Left(r)
  {
    if i == 0 {
      assert reqs[i := r][1..] == reqs[1..];
    } else {
      assert reqs[i := r][1..] == reqs[1..][i - 1 := r];
      TotalUpdate(reqs[1..], i - 1, r);
    }
  }

  lemma GoAdvances(s: Sys, ev: Event)
    requires Inv(s) && CanGo(s, ev)
    ensures TotalLeft(Step(s, ev).reqs) < TotalLeft(s.reqs) && |Step(s, ev).reqs| == |s.reqs|
  {
    var i := ev.i;
    assert LocalInv(s.reqs[i]);
    if ev.Handler? {
      HandlerAdvances(s.reqs[i], ev.e);
      TotalUpdate(s.reqs, i, HandlerStep(s.reqs[i], ev.e).0);
    } else {
      WorkerAdvances(s.reqs[i], ev.e);
      TotalUpdate(s.reqs, i, WorkerStep(s.reqs[i], ev.e).0);
    }
  }

  predicate AllFinished(s: Sys) {
    forall j :: 0 <= j < |s.reqs| ==> Finished(s.reqs[j])
  }

  /** The steps are the threads' own, and take the environment's choices in turn. */
  predicate Follows(evs: seq<Event>, envs: nat -> Env, from: nat) {
    forall k :: 0 <= k < |evs| ==> !evs[k].Packet? && evs[k].e == envs(from + k)
  }

  lemma FollowsOn(ev: Event, rest: seq<Event>, envs: nat -> Env, from: nat)
    requires !ev.Packet? && ev.e == envs(from) && Follows(rest, envs, from + 1)
    ensures Follows([ev] + rest, envs, from)
  {
    forall k | 0 <= k < |[ev] + rest|
      ensures !([ev] + rest)[k].Packet? && ([ev] + rest)[k].e == envs(from + k)
    {
      if k > 0 { assert ([ev] + rest)[k] == rest[k - 1]; }
    }
  }

  /** From every reachable state the open requests can be brought to their end within
      `TotalLeft` steps, whatever the environment, `envs`, does at each of them. */
  lemma {:induction false} CanFinish(s: Sys, envs: nat -> Env, from: nat) returns (evs: seq<Event>)
    requires Inv(s)
    ensures Feasible(s, evs) && AllFinished(Run(s, evs)) && |Run(s, evs).reqs| == |s.reqs|
    ensures |evs| <= TotalLeft(s.reqs)
    ensures Follows(evs, envs, from)
    decreases TotalLeft(s.reqs)
  {
    if i :| 0 <= i < |s.reqs| && !Finished(s.reqs[i]) {
      var ev := NoDeadlock(s, i, envs(from));
      GoAdvances(s, ev);
      StepKeepsInv(s, ev);
      var rest := CanFinish(Step(s, ev), envs, from + 1);
      evs := [ev] + rest;
      FollowsOn(ev, rest, envs, from);
      assert evs[0] == ev && evs[1..] == rest;
      assert Run(s, evs) == Run(Step(s, ev), rest);
    } else {
      evs := [];
    }
  }

  /** A run in which every step is one that a thread can take on its own. */
  predicate Going(s: Sys, evs: seq<Event>)
    decreases |evs|
  {
    evs == [] || (CanGo(s, evs[0]) && Going(Step(s, evs[0]), evs[1..]))
  }

  /** No schedule of such steps goes on for ever: each is bounded by `TotalLeft`, and where none
      is left every request is finished. */
  lemma {:induction false} GoingEnds(s: Sys, evs: seq<Event>, e: Env)
    requires Inv(s) && Going(s, evs)
    ensures Feasible(s, evs) && |evs| + TotalLeft(Run(s, evs).reqs) <= TotalLeft(s.reqs)
    ensures (forall ev :: !CanGo(Run(s, evs), ev)) ==> AllFinished(Run(s, evs))
    decreases |evs|
  {
    if evs == [] {
      if i :| 0 <= i < |s.reqs| && !Finished(s.reqs[i]) {
        var ev := NoDeadlock(s, i, e);
      }
    } else {
      GoAdvances(s, evs[0]);
      StepKeepsInv(s, evs[0]);
      GoingEnds(Step(s, evs[0]), evs[1..], e);
    }
  }
}
