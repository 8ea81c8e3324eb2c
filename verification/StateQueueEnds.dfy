/** What a finishing worker and a started one leave behind, in every run
    (daemon/state.c:60-155, 275-293, 507-676, 954-993).
 */
module StateQueueEnds {
  import opened Options
  import opened StateQueue
  import opened StateQueueInvariant
  import opened StateQueueRuns

  /** The submount has been emptied: an expire or prune worker ends with nothing left, and the
      kernel says that the mount is idle. */
  predicate Emptied(a: Ap, r: Ending) {
    (a.state.Expire? || a.state.Prune?) && r.submount && r.status == 0 && !r.askFailed && r.idle
  }

  /** The shutdown goes through: it was forced, or no mount request came in between, or it was
      signalled; and nothing is busy, or that does not matter. */
  predicate ShutsDown(a: Ap, r: Ending) {
    || a.state.ShutdownForce?
    || (a.state.ShutdownPending? && (r.askFailed || r.idle || a.shutdown) && (r.ignoreBusy || r.status == 0))
  }

  lemma SetDoneIs(q: seq<Entry>, ap: Point)
    requires OneHead(q) && HeadOf(q, ap).Some?
    ensures var e := HeadOf(q, ap).value;
      && OneHead(SetDone(q, ap)) && HeadOf(SetDone(q, ap), ap) == Some(e.(task := e.task.(done := true)))
      && forall p :: p != ap ==> HeadOf(SetDone(q, ap), p) == HeadOf(q, p)
  {
    var i := Find(q, ap);
    HeadUpdate(q, i, q[i].(task := q[i].task.(done := true)));
  }

  /** Nothing has changed for the other points. */
  ghost predicate SameElsewhere(m: Machine, m': Machine, ap: Point) {
    forall p :: p != ap ==> At(m', p) == At(m, p) && HeadOf(m'.queue, p) == HeadOf(m.queue, p)
  }

  /** What the end of the expire worker `w` of `ap` has made of the machine `m`: an emptied submount
      keeps its state and is asked to shut down, a shutdown that goes through ends in ST_SHUTDOWN
      with nothing signalled, and otherwise the point is ready again.  Its task is done, its
      waiting tasks still wait, and nothing else has changed. */
  ghost predicate ExpireLeft(m: Machine, m': Machine, w: Thread, ap: Point, r: Ending) {
    var a, h, h' := At(m, ap), HeadOf(m.queue, ap), HeadOf(m'.queue, ap);
    && At(m', ap) == a.(expThread := 0,
                        state := if Emptied(a, r) then a.state else if ShutsDown(a, r) then Shutdown else Ready,
                        shutdown := a.shutdown && (Emptied(a, r) || ShutsDown(a, r)))
    && h.Some? && h'.Some? && h'.value.task == h.value.task.(done := true)
    && (Asks(h', ShutdownPending) <==> Waiting(h.value.pending, ShutdownPending) || Emptied(a, r))
    && h.value.pending <= h'.value.pending
    && (!Emptied(a, r) ==> h'.value.pending == h.value.pending)
    && (m'.signaled <==> m.signaled || !ShutsDown(a, r))
    && m'.workers == m.workers - {w} && SameElsewhere(m, m', ap)
  }

  lemma ExpireEnds(es: seq<Event>, w: Thread, r: Ending)
    requires Feasible(START, es) && w in Run(START, es).workers && Run(START, es).workers[w].ExpireWorker?
    ensures var m := Run(START, es); ExpireLeft(m, Step(m, Expired(w, r)), w, m.workers[w].ap, r)
  {
    Reachable(es);
    ExpiredLeft(Run(START, es), w, r);
  }

  lemma ExpiredLeft(m: Machine, w: Thread, r: Ending)
    requires Inv(m) && w in m.workers && m.workers[w].ExpireWorker?
    ensures ExpireLeft(m, Step(m, Expired(w, r)), w, m.workers[w].ap, r)
  {
    ExpireLeaves(m, w, m.workers[w].ap, r);
  }

  lemma ExpireLeaves(m: Machine, w: Thread, ap: Point, r: Ending)
    requires Inv(m) && w in m.workers && m.workers[w] == ExpireWorker(ap)
    ensures ExpireLeft(m, ExpireDone(m, w, ap, r), w, ap, r)
  {
    ExpireWorkerState(m, w, ap);
    assert HeadOf(m.queue, ap).Some? by { assert WorkerInv(m, w); }
    ExpireDoneIs(m, w, ap, r);
    if Emptied(At(m, ap), r) {
      EmptiedLeft(m, w, ap, r);
    } else if ShutsDown(At(m, ap), r) {
      ShutLeft(m, w, ap, r);
    } else {
      ReadyLeft(m, w, ap, r);
    }
  }

  lemma EmptiedLeft(m: Machine, w: Thread, ap: Point, r: Ending)
    requires Inv(m) && w in m.workers && m.workers[w] == ExpireWorker(ap)
    requires HeadOf(m.queue, ap).Some? && Emptied(At(m, ap), r)
    ensures ExpireLeft(m, AddTask(Finishing(m, w, ap, At(m, ap).state), ap, ShutdownPending), w, ap, r)
  {
    EmptiedAsks(m, w, ap);
  }

  lemma ShutLeft(m: Machine, w: Thread, ap: Point, r: Ending)
    requires OneHead(m.queue) && HeadOf(m.queue, ap).Some? && !Emptied(At(m, ap), r) && ShutsDown(At(m, ap), r)
    ensures ExpireLeft(m, Finishing(m, w, ap, Shutdown), w, ap, r)
  {
    NotEmptied(m, w, ap, Shutdown);
  }

  lemma ReadyLeft(m: Machine, w: Thread, ap: Point, r: Ending)
    requires OneHead(m.queue) && HeadOf(m.queue, ap).Some? && !Emptied(At(m, ap), r) && !ShutsDown(At(m, ap), r)
    ensures ExpireLeft(m, SetReady(Finishing(m, w, ap, Ready), ap).(signaled := true), w, ap, r)
  {
    NotEmptied(m, w, ap, Ready);
  }

  lemma NotEmptied(m: Machine, w: Thread, ap: Point, s: State)
    requires OneHead(m.queue) && HeadOf(m.queue, ap).Some?
    ensures var f := Finishing(m, w, ap, s); var h, h' := HeadOf(m.queue, ap), HeadOf(f.queue, ap);
      && h' == Some(h.value.(task := h.value.task.(done := true)))
      && (Asks(h', ShutdownPending) <==> Waiting(h.value.pending, ShutdownPending))
      && SameElsewhere(m, f, ap) && SameElsewhere(m, SetReady(f, ap), ap)
  {
    SetDoneIs(m.queue, ap);
  }

  lemma EmptiedAsks(m: Machine, w: Thread, ap: Point)
    requires Inv(m) && w in m.workers && m.workers[w] == ExpireWorker(ap)
    requires At(m, ap).state.Expire? || At(m, ap).state.Prune?
    requires HeadOf(m.queue, ap).Some?
    ensures var f := Finishing(m, w, ap, At(m, ap).state); var m' := AddTask(f, ap, ShutdownPending);
      var e, h' := HeadOf(m.queue, ap).value, HeadOf(m'.queue, ap);
      && Asks(h', ShutdownPending) && h'.Some? && h'.value.task == e.task.(done := true)
      && e.pending <= h'.value.pending && m'.aps == f.aps && m'.signaled && m'.workers == f.workers
      && (forall p :: p != ap ==> HeadOf(m'.queue, p) == HeadOf(m.queue, p))
  {
    var f := Finishing(m, w, ap, At(m, ap).state);
    FinishingKeepsInv(m, w, ap, At(m, ap).state);
    SetDoneIs(m.queue, ap);
    QueueAsks(f, ap, ShutdownPending);
    var i := Find(f.queue, ap);
    HeadUpdate(f.queue, i, Enqueue(f.queue[i], ShutdownPending, false));
  }

  /** In every run, the end of a readmap worker: the point is ready, its task is done, nothing is
      signalled and nothing else changes. */
  lemma ReadmapEnds(es: seq<Event>, w: Thread)
    requires Feasible(START, es) && w in Run(START, es).workers && Run(START, es).workers[w].ReadmapWorker?
    ensures var m := Run(START, es); var ap, m' := m.workers[w].ap, Step(m, Reread(w));
      var h, h' := HeadOf(m.queue, ap), HeadOf(m'.queue, ap);
      && At(m', ap) == At(m, ap).(readmapThread := 0, state := Ready, shutdown := false)
      && h.Some? && h' == Some(h.value.(task := h.value.task.(done := true)))
      && m'.signaled == m.signaled && m'.workers == m.workers - {w}
      && SameElsewhere(m, m', ap)
  {
    Reachable(es);
    var m := Run(START, es);
    var ap := m.workers[w].ap;
    assert HeadOf(m.queue, ap).Some? by { assert WorkerInv(m, w); }
    SetDoneIs(m.queue, ap);
  }

  // ----- signals and notifications

  /** A signal to a point that is shut down, or of a shutdown to one shutting down, is ignored.
      Otherwise a shutdown signal sets the point's flag, which a prune signal leaves as it is, and
      the state is asked for unless the point is shutting down. */
  lemma SignalIs(es: seq<Event>, ap: Point, s: State)
    requires Feasible(START, es) && (s.Prune? || s.ShutdownPending? || s.ShutdownForce?)
    ensures var m := Run(START, es); var m', a := Step(m, Signal(ap, s)), At(m, ap);
      var h, h' := HeadOf(m.queue, ap), HeadOf(m'.queue, ap);
      var shutting := a.state.ShutdownPending? || a.state.ShutdownForce?;
      if a.state.Shutdown? || (shutting && !s.Prune?) then m' == m
      else
        && At(m', ap) == a.(shutdown := a.shutdown || !s.Prune?)
        && m'.signaled && (Asks(h', s) <==> Asks(h, s) || h.None? || !shutting)
        && SameElsewhere(m, m', ap) && m'.workers == m.workers
  {
    Reachable(es);
    var m := Run(START, es);
    var m1 := if ShuttingDown(s) then SetShutdown(m, ap, true) else m;
    SetShutdownKeepsInv(m, ap, true);
    QueueAsks(m1, ap, s);
  }

  /** A notification passes the parent's shutdown flag on to the child and asks for the state there,
      unless the child is shut down; a state of READY makes the child ready. */
  lemma NotifyIs(es: seq<Event>, w: Thread, child: Point, s: State)
    requires Feasible(START, es) && Enabled(Run(START, es), Notify(w, child, s))
    ensures var m := Run(START, es); var m', a := Step(m, Notify(w, child, s)), At(m, child);
      var h, h' := HeadOf(m.queue, child), HeadOf(m'.queue, child);
      var shutting := a.state.ShutdownPending? || a.state.ShutdownForce?;
      if a.state.Shutdown? then m' == m
      else
        && At(m', child) == (if s.Ready? then a.(state := Ready, shutdown := false)
                             else a.(shutdown := At(m, m.workers[w].ap).shutdown))
        && m'.signaled && (!s.Ready? ==> (Asks(h', s) <==> Asks(h, s) || h.None? || !shutting))
        && SameElsewhere(m, m', child) && m'.workers == m.workers
  {
    Reachable(es);
    NotifyLeaves(Run(START, es), w, child, s);
  }

  lemma NotifyLeaves(m: Machine, w: Thread, child: Point, s: State)
    requires Inv(m) && Enabled(m, Notify(w, child, s))
    ensures var m', a := Step(m, Notify(w, child, s)), At(m, child);
      var h, h' := HeadOf(m.queue, child), HeadOf(m'.queue, child);
      var shutting := a.state.ShutdownPending? || a.state.ShutdownForce?;
      if a.state.Shutdown? then m' == m
      else
        && At(m', child) == (if s.Ready? then a.(state := Ready, shutdown := false)
                             else a.(shutdown := At(m, m.workers[w].ap).shutdown))
        && m'.signaled && (!s.Ready? ==> (Asks(h', s) <==> Asks(h, s) || h.None? || !shutting))
        && SameElsewhere(m, m', child) && m'.workers == m.workers
  {
    var flag := At(m, m.workers[w].ap).shutdown;
    if !s.Ready? {
      assert Queueable(s) by { assert PointInv(m, m.workers[w].ap); }
      SetShutdownKeepsInv(m, child, flag);
      QueueAsks(SetShutdown(m, child, flag), child, s);
    }
  }

  // ----- what the assertions check

  /** st_shutdown asserts that the point is shutting down. */
  lemma ShutdownAsserts(m: Machine, ap: Point)
    requires !At(m, ap).state.Shutdown?
    ensures var a := At(m, ap).state;
      AddTask(m, ap, Shutdown).faults == m.faults + if a.ShutdownPending? || a.ShutdownForce? then 0 else 1
  {
  }

  /** Starting a task asserts that no thread of its kind is at work on the point. */
  lemma StartAsserts(m: Machine, t: Task, env: nat -> Thread)
    ensures var a := At(m, t.ap);
      Launch(m, t, env).0.faults ==
        m.faults + if (if t.state.Readmap? then a.readmapThread else a.expThread) == 0 then 0 else 1
  {
  }

  // ----- what the handler waits for

  /** The handler waits for the queue to fill exactly after a pass that a signal started has emptied
      it; after any other pass it waits for the next signal, with none pending.  A wake-up without
      a reason changes nothing. */
  lemma WakeLeaves(m: Machine, env: nat -> Thread)
    ensures var m' := Wake(m, env);
      if !(if m.idle then m.queue != [] else m.signaled) then m' == m
      else (m'.idle <==> !m.idle && m'.queue == []) && (!m'.idle ==> !m'.signaled)
  {
  }
}
