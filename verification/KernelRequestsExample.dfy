/** A run of the kernel request protocol in which a mount that was not done is reported ready
    (daemon/indirect.c:733-739). */
module KernelRequestsExample {
  import opened Options
  import opened KernelRequests
  import opened KernelRequestsRuns

  /** Nothing goes wrong but the trigger: it is not valid, or already mounted. */
  const ENV := Env(false, false, false, false, false, false, false, true, false, 0, NotATrigger)

  const REQUEST := Arrived(MissingIndirect, 0, 7, [], true)

  lemma {:induction false} RunAppend(s: Sys, evs: seq<Event>, ev: Event)
    requires Feasible(s, evs) && Enabled(Run(s, evs), ev)
    ensures Feasible(s, evs + [ev]) && Run(s, evs + [ev]) == Step(Run(s, evs), ev)
    decreases |evs|
  {
    if evs == [] {
      assert [ev][1..] == [];
    } else {
      assert (evs + [ev])[1..] == evs[1..] + [ev];
      RunAppend(Step(s, evs[0]), evs[1..], ev);
    }
  }

  /** The run, in that environment, leads to a single request in state `r` and these answers. */
  predicate LeadsTo(evs: seq<Event>, r: Req, log: seq<Answer>) {
    && Feasible(EMPTY, evs) && Run(EMPTY, evs) == Sys([r], log)
    && forall k :: 0 <= k < |evs| ==> evs[k].Packet? || evs[k].e == ENV
  }

  lemma HandlerGoes(evs: seq<Event>, r: Req, log: seq<Answer>) returns (evs': seq<Event>)
    requires LeadsTo(evs, r, log) && Clear1(0, r.ap, HandlerWants(r), 0, r)
    ensures LeadsTo(evs', HandlerStep(r, ENV).0, log + HandlerStep(r, ENV).1)
  {
    RunAppend(EMPTY, evs, Handler(0, ENV));
    evs' := evs + [Handler(0, ENV)];
    assert [r][0 := HandlerStep(r, ENV).0] == [HandlerStep(r, ENV).0];
  }

  lemma WorkerGoes(evs: seq<Event>, r: Req, log: seq<Answer>) returns (evs': seq<Event>)
    requires LeadsTo(evs, r, log) && Clear1(0, r.ap, WorkerWants(r), 0, r)
    ensures LeadsTo(evs', WorkerStep(r, ENV).0, log + WorkerStep(r, ENV).1)
  {
    RunAppend(EMPTY, evs, Worker(0, ENV));
    evs' := evs + [Worker(0, ENV)];
    assert [r][0 := WorkerStep(r, ENV).0] == [WorkerStep(r, ENV).0];
  }

  /** The packet is read, no cached entry is found, and the pending arguments are set up. */
  lemma Begins() returns (evs: seq<Event>)
    ensures LeadsTo(evs, REQUEST.(h := Alloc, held := NOTHING.(master := true)), [])
  {
    RunAppend(EMPTY, [], Packet(MissingIndirect, 0, 7, [], true));
    evs := [] + [Packet(MissingIndirect, 0, 7, [], true)];
    assert [] + [REQUEST] == [REQUEST];
    var r := REQUEST;
    evs := HandlerGoes(evs, r, []);
    r := REQUEST.(h := Check, held := NOTHING.(master := true));
    evs := HandlerGoes(evs, r, []);
    r := REQUEST.(h := Scan([]), held := NOTHING.(master := true));
    evs := HandlerGoes(evs, r, []);
  }

  /** The handler creates the worker. */
  lemma Creates() returns (evs: seq<Event>)
    ensures LeadsTo(evs, REQUEST.(h := Release, held := Locks(true, None, None, true), block := Block(7, 0, false),
                                  w := WantPending), [])
  {
    evs := Begins();
    var r := REQUEST.(h := Alloc, held := NOTHING.(master := true));
    evs := HandlerGoes(evs, r, []);
    r := REQUEST.(h := Create, held := Locks(true, None, None, true), block := Block(7, 0, false));
    evs := HandlerGoes(evs, r, []);
  }

  /** It gives its locks back and waits. */
  lemma HandsOver() returns (evs: seq<Event>)
    ensures LeadsTo(evs, REQUEST.(h := Waiting, block := Block(7, 0, false), w := WantPending), [])
  {
    evs := Creates();
    var r := REQUEST.(h := Release, held := Locks(true, None, None, true), block := Block(7, 0, false),
                      w := WantPending);
    evs := HandlerGoes(evs, r, []);
    r := r.(h := Clear, held := NOTHING.(pending := true));
    evs := HandlerGoes(evs, r, []);
    r := r.(h := Test);
    evs := HandlerGoes(evs, r, []);
  }

  /** The worker finds the trigger not valid and exits, and the kernel is told that the mount is
      ready. */
  lemma NotMountedButReady() returns (evs: seq<Event>)
    ensures Feasible(EMPTY, evs)
    ensures var s := Run(EMPTY, evs);
      && |s.reqs| == 1 && Missing(s.reqs[0].kind) && s.reqs[0].w == Ended(Ready)
      && RepliesTo(s.log, s.reqs[0].token) == [Ready]
    ensures forall k :: 0 <= k < |evs| && evs[k].Worker? ==> !evs[k].e.outcome.Works?
  {
    evs := HandsOver();
    var r := REQUEST.(h := Waiting, block := Block(7, 0, false), w := WantPending);
    evs := WorkerGoes(evs, r, []);
    r := r.(w := Locked, wheld := NOTHING.(pending := true));
    evs := WorkerGoes(evs, r, []);
    r := r.(w := Working(Copy(7, 0)), block := Block(7, 0, true), wheld := NOTHING);
    evs := WorkerGoes(evs, r, []);
    r := r.(w := Exiting(Copy(7, 0), 0));
    evs := WorkerGoes(evs, r, []);
    assert [Answer(7, Ready)][1..] == [];
  }
}
