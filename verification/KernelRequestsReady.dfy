/** Requests that are answered ready although nothing was mounted or expired for them
    (daemon/direct.c:1067-1083, daemon/indirect.c:672-739), over every interleaving.
 */
module KernelRequestsReady {
  import opened Options
  import opened KernelRequests
  import opened KernelRequestsRuns
  import opened KernelRequestsLaws

  /** The step ends the request's work with success. */
  predicate WorksAt(r: Req, ev: Event) {
    ev.Worker? && r.w.Working? && ev.e.outcome.Works?
  }

  /** The steps that decide on ready without success: the handler of a direct expire finds the
      entry not mounted, or the worker of a missing mount exits with no status set, because it is
      cancelled or, for an indirect mount, because the trigger is not valid or already mounted. */
  predicate ReadyAnywayAt(r: Req, ev: Event) {
    || (ev.Handler? && r.kind.ExpireDirect? && r.h.Found? && !ev.e.tooLong && !ev.e.hasFd && ev.e.opens)
    || (&& ev.Worker? && r.w.Working? && Missing(r.kind) && !ev.e.outcome.Works? && !ev.e.outcome.Fails?
        && !(r.kind.MissingIndirect? && ev.e.outcome.TooLong?)
        && !(r.kind.MissingDirect? && ev.e.outcome.NotATrigger?))
  }

  predicate Concerns(s: Sys, ev: Event, i: nat) {
    !ev.Packet? && ev.i == i && i < |s.reqs|
  }

  /** Somewhere in the run the work for request `i` ended with success. */
  predicate Worked(s: Sys, evs: seq<Event>, i: nat)
    requires Feasible(s, evs)
    decreases |evs|
  {
    evs != [] &&
    ((Concerns(s, evs[0], i) && WorksAt(s.reqs[i], evs[0])) || Worked(Step(s, evs[0]), evs[1..], i))
  }

  /** Somewhere in the run ready was decided on for it without success. */
  predicate ReadyAnyway(s: Sys, evs: seq<Event>, i: nat)
    requires Feasible(s, evs)
    decreases |evs|
  {
    evs != [] &&
    ((Concerns(s, evs[0], i) && ReadyAnywayAt(s.reqs[i], evs[0])) || ReadyAnyway(Step(s, evs[0]), evs[1..], i))
  }

  // ----- the state tells

  predicate IsReady(r: Req) {
    r.h == Done(Answered(Ready)) || Promised(r) == Some(Ready)
  }

  /** The answer, if there will be one, is decided. */
  predicate Decided(r: Req) {
    Promised(r).Some? || (r.h.Done? && !r.h.end.Handed?)
  }

  lemma HandlerDecides(r: Req, e: Env, i: nat)
    requires LocalInv(r)
    ensures var r' := HandlerStep(r, e).0; var ev := Handler(i, e);
      if Decided(r) then Decided(r') && (IsReady(r') <==> IsReady(r)) && !ReadyAnywayAt(r, ev)
      else (IsReady(r') <==> ReadyAnywayAt(r, ev)) && (IsReady(r') ==> Decided(r'))
  {
    if r.h.Scan? || r.h.WantCache? || r.h.Peek? {
    } else if r.h.Found? || r.h.Opened? {
    } else if r.h.Alloc? || r.h.Create? || HandsOff(r.h) {
    }
  }

  lemma WorkerDecides(r: Req, e: Env, i: nat)
    requires LocalInv(r)
    ensures var r' := WorkerStep(r, e).0; var ev := Worker(i, e);
      if Decided(r) then Decided(r') && (IsReady(r') <==> IsReady(r)) && !WorksAt(r, ev) && !ReadyAnywayAt(r, ev)
      else
        && (IsReady(r') <==> WorksAt(r, ev) || ReadyAnywayAt(r, ev)) && (IsReady(r') ==> Decided(r'))
        && !(WorksAt(r, ev) && ReadyAnywayAt(r, ev))
  {
    match r.w
    case Working(a) => WorkPromises(r, a, e.outcome);
    case _ =>
  }

  /** Once the answer is decided, no step decides on it again. */
  lemma {:induction false} DecidedOnce(s: Sys, evs: seq<Event>, i: nat)
    requires Inv(s) && Feasible(s, evs) && i < |s.reqs| && Decided(s.reqs[i])
    ensures !Worked(s, evs, i) && !ReadyAnyway(s, evs, i)
    ensures i < |Run(s, evs).reqs| && (IsReady(Run(s, evs).reqs[i]) <==> IsReady(s.reqs[i]))
    decreases |evs|
  {
    if evs == [] {
    } else {
      StepDecides(s, evs[0], i);
      StepKeepsInv(s, evs[0]);
      DecidedOnce(Step(s, evs[0]), evs[1..], i);
    }
  }

  lemma StepDecides(s: Sys, ev: Event, i: nat)
    requires Inv(s) && Enabled(s, ev) && i < |s.reqs|
    ensures var r := s.reqs[i]; var works := Concerns(s, ev, i) && WorksAt(r, ev);
      var anyway := Concerns(s, ev, i) && ReadyAnywayAt(r, ev);
      && i < |Step(s, ev).reqs|
      && var r' := Step(s, ev).reqs[i];
         if Decided(r) then Decided(r') && (IsReady(r') <==> IsReady(r)) && !works && !anyway
         else (IsReady(r') <==> works || anyway) && (IsReady(r') ==> Decided(r')) && !(works && anyway)
  {
    assert LocalInv(s.reqs[i]);
    if ev.Handler? && ev.i == i { HandlerDecides(s.reqs[i], ev.e, i); }
    if ev.Worker? && ev.i == i { WorkerDecides(s.reqs[i], ev.e, i); }
  }

  lemma ArrivesUndecided(s: Sys, ev: Event, i: nat)
    requires Inv(s) && Enabled(s, ev) && |s.reqs| <= i
    ensures var s' := Step(s, ev); i < |s'.reqs| ==> !Decided(s'.reqs[i]) && !IsReady(s'.reqs[i])
  {
  }

  lemma {:induction false} ReadyHistory(s: Sys, evs: seq<Event>, i: nat)
    requires Inv(s) && Feasible(s, evs) && (i < |s.reqs| ==> !Decided(s.reqs[i]))
    ensures var t := Run(s, evs);
      && (i < |t.reqs| && IsReady(t.reqs[i]) <==> Worked(s, evs, i) || ReadyAnyway(s, evs, i))
      && !(Worked(s, evs, i) && ReadyAnyway(s, evs, i))
    decreases |evs|
  {
    if evs == [] {
    } else {
      var s' := Step(s, evs[0]);
      StepKeepsInv(s, evs[0]);
      if i < |s.reqs| {
        StepDecides(s, evs[0], i);
      } else {
        ArrivesUndecided(s, evs[0], i);
      }
      if i < |s'.reqs| && Decided(s'.reqs[i]) {
        DecidedOnce(s', evs[1..], i);
      } else {
        ReadyHistory(s', evs[1..], i);
      }
    }
  }

  /** In every run, a finished request was answered ready exactly when its work succeeded or ready
      was decided on without: never both, and without success exactly in the latter case. */
  lemma ReadyIff(evs: seq<Event>, i: nat)
    requires Feasible(EMPTY, evs) && i < |Run(EMPTY, evs).reqs| && Finished(Run(EMPTY, evs).reqs[i])
    ensures var s := Run(EMPTY, evs); var ready := RepliesTo(s.log, s.reqs[i].token) == [Ready];
      && (ready <==> Worked(EMPTY, evs, i) || ReadyAnyway(EMPTY, evs, i))
      && (ready && !Worked(EMPTY, evs, i) <==> ReadyAnyway(EMPTY, evs, i))
  {
    Reachable([]);
    Reachable(evs);
    ReadyHistory(EMPTY, evs, i);
    assert LocalInv(Run(EMPTY, evs).reqs[i]);
  }
}
