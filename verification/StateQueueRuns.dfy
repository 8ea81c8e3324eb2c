/** Every run of the task queue: requests, cancellations, finishing workers and handler
    passes in any order, with thread creation failing or succeeding at will.
 */
module StateQueueRuns {
  import opened Options
  import opened StateQueue
  import opened StateQueueInvariant

  /** One critical section.  `Signal` is master_notify_state_change, `Notify` is an expire
      worker `w` passing a state of its own point on to a submount. */
  datatype Event =
    | Add(ap: Point, state: State)
    | Signal(ap: Point, state: State)
    | Notify(w: Thread, child: Point, state: State)
    | Remove(ap: Point)
    | Wakeup(env: nat -> Thread)
    | Expired(w: Thread, r: Ending)
    | Reread(w: Thread)

  predicate Enabled(m: Machine, e: Event) {
    match e
    case Add(_, s) => s.Ready? || Queueable(s)
    case Signal(_, s) => ShuttingDown(s) || s.Prune?
    case Notify(w, _, s) =>
      && w in m.workers && m.workers[w].ExpireWorker?
      && (s.Ready? || (var h := HeadOf(m.queue, m.workers[w].ap); h.Some? && s == h.value.task.state))
    case Remove(_) => true
    case Wakeup(_) => true
    case Expired(w, _) => w in m.workers && m.workers[w].ExpireWorker?
    case Reread(w) => w in m.workers && m.workers[w].ReadmapWorker?
  }

  function SetShutdown(m: Machine, ap: Point, flag: bool): Machine {
    SetAp(m, ap, At(m, ap).(shutdown := flag))
  }

  function Step(m: Machine, e: Event): Machine
    requires Enabled(m, e)
  {
    match e
    case Add(ap, s) => AddTask(m, ap, s)
    case Signal(ap, s) =>
      if At(m, ap).state.Shutdown? || (ShuttingDown(s) && ShuttingDown(At(m, ap).state)) then m
      else AddTask(if ShuttingDown(s) then SetShutdown(m, ap, true) else m, ap, s)
    case Notify(w, child, s) =>
      if At(m, child).state.Shutdown? then m
      else AddTask(SetShutdown(m, child, At(m, m.workers[w].ap).shutdown), child, s)
    case Remove(ap) => RemoveTasks(m, ap)
    case Wakeup(env) => Wake(m, env)
    case Expired(w, r) => ExpireDone(m, w, m.workers[w].ap, r)
    case Reread(w) => ReadmapDone(m, w, m.workers[w].ap)
  }

  predicate Feasible(m: Machine, es: seq<Event>)
    decreases |es|
  {
    es == [] || (Enabled(m, es[0]) && Feasible(Step(m, es[0]), es[1..]))
  }

  function Run(m: Machine, es: seq<Event>): Machine
    requires Feasible(m, es)
    decreases |es|
  {
    if es == [] then m else Run(Step(m, es[0]), es[1..])
  }

  // ----- which steps move a point into or out of ST_SHUTDOWN

  /** No step of a walk puts a point into ST_SHUTDOWN. */
  lemma VisitNeverShuts(m: Machine, i: nat, env: nat -> Thread, ap: Point)
    requires Core(m) && i < |m.queue|
    ensures At(Visit(m, i, env).0, ap).state.Shutdown? ==> At(m, ap).state.Shutdown?
    ensures ap != m.queue[i].task.ap ==> At(Visit(m, i, env).0, ap) == At(m, ap)
  {
    HeadAt(m.queue, i);
    assert PointInv(m, m.queue[i].task.ap);
    if !m.queue[i].task.busy {
      if StartHead(m, i, env).1 {
        StartIs(m, i, env);
      } else {
        FailedStart(m, i, env);
      }
    }
  }

  lemma {:induction false} WalkNeverShuts(m: Machine, i: nat, env: nat -> Thread, ap: Point)
    requires Core(m) && i <= |m.queue|
    ensures At(Walk(m, i, env), ap).state.Shutdown? ==> At(m, ap).state.Shutdown?
    decreases Total(m.queue), |m.queue| - i
  {
    if i >= |m.queue| {
    } else {
      VisitProgress(m, i, env);
      VisitKeeps(m, i, env);
      VisitNeverShuts(m, i, env, ap);
      var (m', j) := Visit(m, i, env);
      WalkNeverShuts(m', j, env, ap);
    }
  }

  /** One step of the first walk: the machine and position it goes on with. */
  function FirstStep(m: Machine, i: nat, env: nat -> Thread): (Machine, nat)
    requires i < |m.queue|
  {
    StartHeadKeepsShape(m, i, env);
    var (m1, ok) := StartHead(m, i, env);
    if ok then (m1, i + 1) else (m1.(queue := Drop(m1.queue, i)), i)
  }

  lemma FirstStepNeverShuts(m: Machine, i: nat, env: nat -> Thread, ap: Point)
    requires Core(m) && i < |m.queue| && StartedUpTo(m.queue, i)
    ensures var m' := FirstStep(m, i, env).0;
            && (At(m', ap).state.Shutdown? ==> At(m, ap).state.Shutdown?)
            && (HeadOf(m.queue, ap).None? ==> At(m', ap) == At(m, ap) && HeadOf(m'.queue, ap).None?)
  {
    HeadAt(m.queue, i);
    var (m1, ok) := StartHead(m, i, env);
    if ok {
      StartIs(m, i, env);
      HeadUpdate(m.queue, i, m1.queue[i]);
    } else {
      FailedStart(m, i, env);
      HeadUpdate(m.queue, i, m1.queue[i]);
      HeadDrop(m1.queue, i);
    }
  }

  lemma {:induction false} FirstWalkNeverShuts(m: Machine, i: nat, env: nat -> Thread, ap: Point)
    requires Core(m) && i <= |m.queue| && StartedUpTo(m.queue, i)
    ensures At(FirstWalk(m, i, env), ap).state.Shutdown? ==> At(m, ap).state.Shutdown?
    ensures HeadOf(m.queue, ap).None? ==> At(FirstWalk(m, i, env), ap) == At(m, ap)
    ensures HeadOf(m.queue, ap).None? ==> HeadOf(FirstWalk(m, i, env).queue, ap).None?
    decreases |m.queue| - i
  {
    if i >= |m.queue| {
    } else {
      FirstStepKeeps(m, i, env);
      FirstStepNeverShuts(m, i, env, ap);
      var (m', j) := FirstStep(m, i, env);
      FirstWalkNeverShuts(m', j, env, ap);
    }
  }

  predicate NotBefore(q: seq<Entry>, i: nat, ap: Point) {
    forall k :: 0 <= k < i && k < |q| ==> q[k].task.ap != ap
  }

  /** A visit to another point leaves the head of `ap` alone and ahead of the walk. */
  lemma VisitElsewhere(m: Machine, i: nat, env: nat -> Thread, ap: Point)
    requires Core(m) && i < |m.queue| && m.queue[i].task.ap != ap && NotBefore(m.queue, i, ap)
    ensures var (m', j) := Visit(m, i, env);
            HeadOf(m'.queue, ap) == HeadOf(m.queue, ap) && NotBefore(m'.queue, j, ap)
  {
    HeadAt(m.queue, i);
    var e := m.queue[i];
    assert PointInv(m, e.task.ap);
    if !e.task.busy {
      if StartHead(m, i, env).1 {
        StartIs(m, i, env);
        HeadUpdate(m.queue, i, StartHead(m, i, env).0.queue[i]);
      } else {
        FailedStart(m, i, env);
        var q1 := StartHead(m, i, env).0.queue;
        HeadUpdate(m.queue, i, q1[i]);
        HeadHandOver(q1, i);
      }
    } else if e.task.cancel {
      HeadUpdate(m.queue, i, e.(task := e.task.(cancel := false)));
    } else if e.task.done {
      HeadHandOver(m.queue, i);
    }
  }

  /** The head that will move a shut down point on: one not started yet, or a finished one
      with a task waiting behind it. */
  predicate Moving(h: Option<Entry>) {
    h.Some? && (!h.value.task.busy || (h.value.task.done && !h.value.task.cancel && h.value.pending != []))
  }

  predicate Finished(h: Option<Entry>) {
    h.Some? && h.value.task.done && !h.value.task.cancel && h.value.pending == []
  }

  /** The visit to the head of a shut down point. */
  lemma VisitShut(m: Machine, i: nat, env: nat -> Thread)
    requires Core(m) && i < |m.queue| && NotBefore(m.queue, i, m.queue[i].task.ap)
    requires At(m, m.queue[i].task.ap).state.Shutdown?
    ensures var (m', j) := Visit(m, i, env); var h := Some(m.queue[i]); var ap := m.queue[i].task.ap;
            && (Finished(h) ==> At(m', ap) == At(m, ap) && HeadOf(m'.queue, ap).None?)
            && (Moving(h) && At(m', ap).state.Shutdown? ==>
                  Moving(HeadOf(m'.queue, ap)) && NotBefore(m'.queue, j, ap))
  {
    HeadAt(m.queue, i);
    var e := m.queue[i];
    assert PointInv(m, e.task.ap);
    if !e.task.busy {
      if StartHead(m, i, env).1 {
        StartIs(m, i, env);
      }
    } else if e.task.done && !e.task.cancel {
      HeadHandOver(m.queue, i);
      var q := HandOver(m.queue, i).0;
      assert forall k :: 0 <= k < i ==> q[k] == m.queue[k];
    }
  }

  /** A walk takes a point out of ST_SHUTDOWN exactly when some head will move it on. */
  lemma {:induction false} ShutdownFate(m: Machine, i: nat, env: nat -> Thread, ap: Point)
    requires Core(m) && i <= |m.queue| && NotBefore(m.queue, i, ap)
    requires At(m, ap).state.Shutdown?
    requires HeadOf(m.queue, ap).None? || Moving(HeadOf(m.queue, ap)) || Finished(HeadOf(m.queue, ap))
    ensures At(Walk(m, i, env), ap).state.Shutdown? <==> !Moving(HeadOf(m.queue, ap))
    ensures !Moving(HeadOf(m.queue, ap)) ==> HeadOf(Walk(m, i, env).queue, ap).None?
    decreases Total(m.queue), |m.queue| - i
  {
    if i >= |m.queue| {
    } else {
      VisitProgress(m, i, env);
      VisitKeeps(m, i, env);
      var (m', j) := Visit(m, i, env);
      if m.queue[i].task.ap != ap {
        VisitElsewhere(m, i, env, ap);
        VisitNeverShuts(m, i, env, ap);
        ShutdownFate(m', j, env, ap);
      } else {
        HeadAt(m.queue, i);
        VisitShut(m, i, env);
        if At(m', ap).state.Shutdown? {
          assert NotBefore(m'.queue, j, ap);
          ShutdownFate(m', j, env, ap);
        } else {
          WalkNeverShuts(m', j, env, ap);
        }
      }
    }
  }

  /** The head of a shut down point, between critical sections. */
  lemma ShutHeadIs(m: Machine, ap: Point)
    requires Inv(m) && At(m, ap).state.Shutdown?
    ensures var h := HeadOf(m.queue, ap); h.None? || Moving(h) || Finished(h)
    ensures var h := HeadOf(m.queue, ap); Moving(h) <==> h.Some? && h.value.pending != []
    ensures m.idle ==> HeadOf(m.queue, ap).None?
  {
    assert PointInv(m, ap);
    var i := Find(m.queue, ap);
    if i < |m.queue| {
      assert ShutHead(m, m.queue[i]);
    }
  }

  lemma WakeKeeps(m: Machine, env: nat -> Thread)
    requires Inv(m)
    ensures Inv(Wake(m, env))
    ensures m.idle || m.signaled ==> AllStarted(Wake(m, env).queue)
  {
    var m' := Wake(m, env);
    if m.idle && m.queue != [] {
      FirstWalkKeeps(m, 0, env);
      SameCore(FirstWalk(m, 0, env), m');
      forall k | 0 <= k < |m'.queue| ensures ShutHead(m', m'.queue[k]) {
        var ap := m'.queue[k].task.ap;
        HeadAt(m'.queue, k);
        FirstWalkNeverShuts(m, 0, env, ap);
        if At(m', ap).state.Shutdown? {
          ShutHeadIs(m, ap);
        }
      }
    } else if !m.idle && m.signaled {
      WalkKeeps(m, 0, env);
      SameCore(Walk(m, 0, env), m');
      forall k | 0 <= k < |m'.queue| ensures ShutHead(m', m'.queue[k]) {
        var ap := m'.queue[k].task.ap;
        HeadAt(m'.queue, k);
        WalkNeverShuts(m, 0, env, ap);
        if At(m', ap).state.Shutdown? {
          ShutHeadIs(m, ap);
          ShutdownFate(m, 0, env, ap);
        }
      }
    }
  }

  // ----- every step keeps the invariant

  lemma AddTaskKeepsInv(m: Machine, ap: Point, s: State)
    requires Inv(m)
    requires s.Ready? || Queueable(s)
    ensures Inv(AddTask(m, ap, s))
  {
    AddTaskKeeps(m, ap, s);
    var m' := AddTask(m, ap, s);
    forall k | 0 <= k < |m'.queue| ensures ShutHead(m', m'.queue[k]) {
      if m'.queue == m.queue {
        assert ShutHead(m, m.queue[k]);
      } else {
        var i := Find(m.queue, ap);
        var j := if i < |m.queue| then k else k - 1;
        assert 0 <= j ==> ShutHead(m, m.queue[j]);
      }
    }
  }

  lemma SetShutdownKeepsInv(m: Machine, ap: Point, flag: bool)
    requires Inv(m)
    ensures Inv(SetShutdown(m, ap, flag))
  {
    var m' := SetShutdown(m, ap, flag);
    forall p: Point ensures PointInv(m', p) {
      assert PointInv(m, p);
    }
    forall w | w in m'.workers ensures WorkerInv(m', w) {
      assert WorkerInv(m, w);
    }
    assert forall k :: 0 <= k < |m'.queue| ==> ShutHead(m, m'.queue[k]) ==> ShutHead(m', m'.queue[k]);
  }

  lemma RemoveTasksKeepsInv(m: Machine, ap: Point)
    requires Inv(m)
    ensures Inv(RemoveTasks(m, ap))
  {
    RemoveTasksKeeps(m, ap);
    var m' := RemoveTasks(m, ap);
    forall k | 0 <= k < |m'.queue|
      ensures ShutHead(m', m'.queue[k]) && (m'.queue[k].task.busy == m.queue[k].task.busy)
    {
      assert ShutHead(m, m.queue[k]);
    }
  }

  lemma SetDoneQueue(m: Machine, w: Thread)
    requires Core(m) && w in m.workers
    ensures var ap := m.workers[w].ap; var i := Find(m.queue, ap);
            && i < |m.queue| && m.queue[i].task.busy
            && SetDone(m.queue, ap) == m.queue[i := m.queue[i].(task := m.queue[i].task.(done := true))]
  {
    assert WorkerInv(m, w);
  }

  /** Marking a worker's head done keeps the facts about shut down points, if the point
      moves to ST_SHUTDOWN only from a shutdown task. */
  lemma EndShutHeads(m: Machine, m': Machine, w: Thread)
    requires Inv(m) && w in m.workers
    requires m'.queue == SetDone(m.queue, m.workers[w].ap) && m'.idle == m.idle
    requires forall p :: p != m.workers[w].ap ==> At(m', p) == At(m, p)
    requires At(m', m.workers[w].ap).state.Shutdown? ==>
               HeadOf(m.queue, m.workers[w].ap).Some?
               && ShuttingDown(HeadOf(m.queue, m.workers[w].ap).value.task.state)
    ensures m'.idle ==> forall i :: 0 <= i < |m'.queue| ==> !m'.queue[i].task.busy
    ensures forall i :: 0 <= i < |m'.queue| ==> ShutHead(m', m'.queue[i])
  {
    SetDoneQueue(m, w);
    forall k | 0 <= k < |m'.queue| ensures ShutHead(m', m'.queue[k]) {
      assert ShutHead(m, m.queue[k]);
    }
  }

  lemma FinishingKeepsInv(m: Machine, w: Thread, ap: Point, s: State)
    requires Inv(m) && w in m.workers && m.workers[w] == ExpireWorker(ap)
    requires s.Ready? || (s == At(m, ap).state && !ShuttingDown(s)) || (s.Shutdown? && ShuttingDown(At(m, ap).state))
    ensures Inv(Finishing(m, w, ap, s))
  {
    ExpireWorkerState(m, w, ap);
    FinishingKeeps(m, w, ap, s);
    EndShutHeads(m, Finishing(m, w, ap, s), w) by {
      assert PointInv(m, ap) && WorkerInv(m, w);
    }
  }

  lemma ExpiredKeepsInv(m: Machine, w: Thread, ap: Point, r: Ending)
    requires Inv(m) && w in m.workers && m.workers[w] == ExpireWorker(ap)
    ensures Inv(ExpireDone(m, w, ap, r))
  {
    ExpireWorkerState(m, w, ap);
    ExpireDoneIs(m, w, ap, r);
    var s := At(m, ap).state;
    var n := NextState(At(m, ap), r).state;
    if n.Ready? {
      FinishingKeepsInv(m, w, ap, Ready);
      AddTaskKeepsInv(Finishing(m, w, ap, Ready), ap, Ready);
    } else if n.Shutdown? {
      FinishingKeepsInv(m, w, ap, Shutdown);
    } else {
      FinishingKeepsInv(m, w, ap, s);
      AddTaskKeepsInv(Finishing(m, w, ap, s), ap, n);
    }
  }

  lemma RereadKeepsInv(m: Machine, w: Thread, ap: Point)
    requires Inv(m) && w in m.workers && m.workers[w] == ReadmapWorker(ap)
    ensures Inv(ReadmapDone(m, w, ap))
  {
    ReadmapDoneKeeps(m, w, ap);
    SetDoneQueue(m, w);
    EndShutHeads(m, ReadmapDone(m, w, ap), w);
  }

  lemma StepKeepsInv(m: Machine, e: Event)
    requires Inv(m) && Enabled(m, e)
    ensures Inv(Step(m, e))
  {
    match e
    case Add(ap, s) => AddTaskKeepsInv(m, ap, s);
    case Signal(ap, s) =>
      SetShutdownKeepsInv(m, ap, true);
      AddTaskKeepsInv(m, ap, s);
      AddTaskKeepsInv(SetShutdown(m, ap, true), ap, s);
    case Notify(w, child, s) =>
      assert PointInv(m, m.workers[w].ap);
      var flag := At(m, m.workers[w].ap).shutdown;
      SetShutdownKeepsInv(m, child, flag);
      AddTaskKeepsInv(SetShutdown(m, child, flag), child, s);
    case Remove(ap) => RemoveTasksKeepsInv(m, ap);
    case Wakeup(env) => WakeKeeps(m, env);
    case Expired(w, r) => ExpiredKeepsInv(m, w, m.workers[w].ap, r);
    case Reread(w) => RereadKeepsInv(m, w, m.workers[w].ap);
  }

  lemma {:induction false} RunKeepsInv(m: Machine, es: seq<Event>)
    requires Inv(m) && Feasible(m, es)
    ensures Inv(Run(m, es))
    decreases |es|
  {
    if es == [] {
    } else {
      StepKeepsInv(m, es[0]);
      RunKeepsInv(Step(m, es[0]), es[1..]);
    }
  }

  lemma Reachable(es: seq<Event>)
    requires Feasible(START, es)
    ensures Inv(Run(START, es))
  {
    forall p: Point ensures PointInv(START, p) {
    }
    RunKeepsInv(START, es);
  }

  // ----- what holds in every run

  /** At most one worker runs per point, the assertions on exp_thread and readmap_thread
      (and the one in st_shutdown) never fail, and a running worker's point is in the state
      of its task or was set back to ready. */
  lemma OneWorkerPerPoint(es: seq<Event>, v: Thread, w: Thread, p: Point)
    requires Feasible(START, es)
    ensures var m := Run(START, es);
            && m.faults == 0
            && (v in m.workers && w in m.workers && m.workers[v].ap == m.workers[w].ap ==> v == w)
            && (w in m.workers ==>
                  var ap := m.workers[w].ap; var h := HeadOf(m.queue, ap);
                  && h.Some? && h.value.task.thid == w && m.workers[w] == WorkerOf(h.value.task)
                  && (At(m, ap).state == h.value.task.state || At(m, ap).state.Ready?)
                  && At(m, ap).expThread + At(m, ap).readmapThread == w)
            && (At(m, p).expThread != 0 ==>
                  At(m, p).expThread in m.workers && m.workers[At(m, p).expThread] == ExpireWorker(p))
            && (At(m, p).readmapThread != 0 ==>
                  At(m, p).readmapThread in m.workers && m.workers[At(m, p).readmapThread] == ReadmapWorker(p))
  {
    Reachable(es);
    var m := Run(START, es);
    assert PointInv(m, p);
    if v in m.workers {
      assert WorkerInv(m, v);
    }
    if w in m.workers {
      assert WorkerInv(m, w) && PointInv(m, m.workers[w].ap);
    }
  }

  /** Every reachable queue: one head per point, waiting tasks of the head's point with
      pairwise distinct states, and nothing queued for READY or SHUTDOWN; only readmap,
      prune and expire tasks are ever marked, and cancels sent for them. */
  lemma QueueShape(es: seq<Event>, i: nat)
    requires Feasible(START, es)
    requires i < |Run(START, es).queue|
    ensures var m := Run(START, es); var e := m.queue[i];
            && OneHead(m.queue)
            && Queueable(e.task.state)
            && (forall k :: 0 <= k < |e.pending| ==> Queueable(e.pending[k].state) && e.pending[k].ap == e.task.ap)
            && (forall j, k :: 0 <= j < k < |e.pending| ==> e.pending[j].state != e.pending[k].state)
            && (e.task.busy <==> e.task.thid != 0)
            && (e.task.busy && !e.task.done <==> e.task.thid in m.workers && m.workers[e.task.thid].ap == e.task.ap
                                                   && !e.task.done)
            && (e.task.cancel ==> e.task.busy && Cancellable(e.task.state))
            && (forall k :: 0 <= k < |m.cancelled| ==> Cancellable(m.cancelled[k].state))
  {
    Reachable(es);
    var m := Run(START, es);
    HeadAt(m.queue, i);
    assert PointInv(m, m.queue[i].task.ap);
    var t := m.queue[i].task;
    if t.thid in m.workers {
      assert WorkerInv(m, t.thid);
    }
  }

  /** A handler pass that finds work ends with every remaining head started. */
  lemma PassStartsEveryHead(es: seq<Event>, env: nat -> Thread, j: nat)
    requires Feasible(START, es)
    requires var m := Run(START, es); m.idle || m.signaled
    requires j < |Wake(Run(START, es), env).queue|
    ensures var t := Wake(Run(START, es), env).queue[j].task; t.busy && t.thid != 0
  {
    Reachable(es);
    var m := Run(START, es);
    WakeKeeps(m, env);
    var m' := Wake(m, env);
    HeadAt(m'.queue, j);
    assert PointInv(m', m'.queue[j].task.ap);
  }

  /** Only a finishing expire worker puts a point into ST_SHUTDOWN. */
  lemma OtherStepsNeverShut(m: Machine, e: Event, ap: Point)
    requires Inv(m) && Enabled(m, e) && !e.Expired?
    ensures At(Step(m, e), ap).state.Shutdown? ==> At(m, ap).state.Shutdown?
  {
    match e
    case Wakeup(env) => WakeNeverShuts(m, env, ap);
    case Notify(w, child, s) =>
      assert PointInv(m, m.workers[w].ap);
    case _ =>
  }

  lemma WakeNeverShuts(m: Machine, env: nat -> Thread, ap: Point)
    requires Inv(m)
    ensures At(Wake(m, env), ap).state.Shutdown? ==> At(m, ap).state.Shutdown?
  {
    if m.idle {
      FirstWalkNeverShuts(m, 0, env, ap);
    } else {
      WalkNeverShuts(m, 0, env, ap);
    }
  }

  lemma WorkerEntersShutdown(m: Machine, w: Thread, p: Point, r: Ending, ap: Point)
    requires Inv(m) && w in m.workers && m.workers[w] == ExpireWorker(p)
    requires !At(m, ap).state.Shutdown?
    ensures var a := At(ExpireDone(m, w, p, r), ap);
            && (a.state.Shutdown? <==> ap == p && NextState(At(m, ap), r) == Ask(Shutdown))
            && (a.state.Shutdown? ==> a.expThread == 0 && a.readmapThread == 0)
  {
    ExpireWorkerState(m, w, p);
    ExpireDoneIs(m, w, p, r);
    assert PointInv(m, p) && WorkerInv(m, w);
  }

  /** A point enters ST_SHUTDOWN exactly when its own expire worker finishes in
      SHUTDOWN_FORCE, or in SHUTDOWN_PENDING with everything expired (or busy mounts
      ignored) unless a mount request made it busy again without a shutdown signal;
      by then exp_thread is clear and the head is marked done. */
  lemma EntersShutdown(es: seq<Event>, e: Event, ap: Point)
    requires Feasible(START, es)
    requires Enabled(Run(START, es), e)
    requires !At(Run(START, es), ap).state.Shutdown?
    ensures var m := Run(START, es); var m' := Step(m, e); var a := At(m, ap);
            && (At(m', ap).state.Shutdown? <==>
                  && e.Expired? && m.workers[e.w] == ExpireWorker(ap)
                  && (|| a.state.ShutdownForce?
                      || (&& a.state.ShutdownPending?
                          && (e.r.askFailed || e.r.idle || a.shutdown)
                          && (e.r.ignoreBusy || e.r.status == 0))))
            && (At(m', ap).state.Shutdown? ==>
                  && At(m', ap).expThread == 0 && At(m', ap).readmapThread == 0
                  && HeadOf(m'.queue, ap).Some? && HeadOf(m'.queue, ap).value.task.done)
  {
    Reachable(es);
    var m := Run(START, es);
    if e.Expired? {
      var p := m.workers[e.w].ap;
      WorkerEntersShutdown(m, e.w, p, e.r, ap);
      if At(Step(m, e), ap).state.Shutdown? {
        ExpireWorkerState(m, e.w, p);
        ExpireDoneIs(m, e.w, p, e.r);
        FinishingKeeps(m, e.w, p, Shutdown);
      }
    } else {
      OtherStepsNeverShut(m, e, ap);
    }
  }

  /** The "bad state" branch of expire_cleanup is never taken. */
  lemma NoBadState(es: seq<Event>, w: Thread, r: Ending)
    requires Feasible(START, es)
    requires w in Run(START, es).workers && Run(START, es).workers[w].ExpireWorker?
    ensures var m := Run(START, es); var ap := m.workers[w].ap;
            At(m, ap).expThread == w && NextState(At(m, ap), r).Ask?
  {
    Reachable(es);
    ExpireWorkerState(Run(START, es), w, Run(START, es).workers[w].ap);
  }

  /** A point leaves ST_SHUTDOWN exactly by a request for READY, or in a handler pass if a task
      was waiting behind the shutdown task. */
  lemma LeavesShutdown(es: seq<Event>, e: Event, ap: Point)
    requires Feasible(START, es) && Enabled(Run(START, es), e)
    requires At(Run(START, es), ap).state.Shutdown?
    ensures var m := Run(START, es); var h := HeadOf(m.queue, ap);
            !At(Step(m, e), ap).state.Shutdown? <==>
              || e == Add(ap, Ready)
              || (e.Wakeup? && !m.idle && m.signaled && h.Some? && h.value.pending != [])
  {
    Reachable(es);
    StepLeavesShutdown(Run(START, es), e, ap);
  }

  lemma StepLeavesShutdown(m: Machine, e: Event, ap: Point)
    requires Inv(m) && Enabled(m, e) && At(m, ap).state.Shutdown?
    ensures var h := HeadOf(m.queue, ap);
            !At(Step(m, e), ap).state.Shutdown? <==>
              || e == Add(ap, Ready)
              || (e.Wakeup? && !m.idle && m.signaled && h.Some? && h.value.pending != [])
  {
    match e
    case Wakeup(env) => WakeLeavesShutdown(m, env, ap);
    case Expired(w, r) => OthersStayShut(m, w, r, ap);
    case Reread(w) => assert WorkerInv(m, w) && PointInv(m, ap);
    case Add(p, s) => RequestLeavesShutdown(m, p, s, ap);
    case Signal(p, s) => SignalStaysShut(m, p, s, ap);
    case Notify(w, p, s) => NotifyStaysShut(m, w, p, s, ap);
    case Remove(_) =>
  }

  lemma RequestLeavesShutdown(m: Machine, p: Point, s: State, ap: Point)
    requires At(m, ap).state.Shutdown? && (s.Ready? || Queueable(s))
    ensures !At(AddTask(m, p, s), ap).state.Shutdown? <==> p == ap && s.Ready?
  {
  }

  lemma SignalStaysShut(m: Machine, p: Point, s: State, ap: Point)
    requires At(m, ap).state.Shutdown? && (ShuttingDown(s) || s.Prune?)
    ensures At(Step(m, Signal(p, s)), ap).state.Shutdown?
  {
  }

  lemma NotifyStaysShut(m: Machine, w: Thread, p: Point, s: State, ap: Point)
    requires Inv(m) && At(m, ap).state.Shutdown? && Enabled(m, Notify(w, p, s))
    ensures At(Step(m, Notify(w, p, s)), ap).state.Shutdown?
  {
    assert PointInv(m, m.workers[w].ap);
  }

  lemma OthersStayShut(m: Machine, w: Thread, r: Ending, ap: Point)
    requires Inv(m) && w in m.workers && m.workers[w].ExpireWorker? && At(m, ap).state.Shutdown?
    ensures At(ExpireDone(m, w, m.workers[w].ap, r), ap).state.Shutdown?
  {
    var p := m.workers[w].ap;
    ExpireWorkerState(m, w, p);
    ExpireDoneIs(m, w, p, r);
  }

  lemma WakeLeavesShutdown(m: Machine, env: nat -> Thread, ap: Point)
    requires Inv(m) && At(m, ap).state.Shutdown?
    ensures var h := HeadOf(m.queue, ap);
            !At(Wake(m, env), ap).state.Shutdown? <==>
              !m.idle && m.signaled && h.Some? && h.value.pending != []
  {
    ShutHeadIs(m, ap);
    if m.idle {
      if m.queue != [] {
        FirstWalkNeverShuts(m, 0, env, ap);
      }
    } else if m.signaled {
      ShutdownFate(m, 0, env, ap);
    }
  }

  /** So ST_SHUTDOWN is not final: an expire request queued behind a shutdown request that
      had not started yet runs after the shutdown has finished. */
  lemma ShutdownIsNotFinal()
    ensures var es := [Add(0, ShutdownPending), Add(0, Expire), Wakeup(_ => 1),
                       Expired(1, Ending(0, false, false, true, false)), Add(1, Ready)];
            && Feasible(START, es)
            && At(Run(START, es), 0).state.Shutdown?
            && !At(Step(Run(START, es), Wakeup(_ => 2)), 0).state.Shutdown?
  {
    var es := [Add(0, ShutdownPending), Add(0, Expire), Wakeup(_ => 1),
               Expired(1, Ending(0, false, false, true, false)), Add(1, Ready)];
    ShutdownRun(es);
    LeavesShutdown(es, Wakeup(_ => 2), 0);
  }

  lemma ShutdownRun(es: seq<Event>)
    requires |es| == 5 && es[0] == Add(0, ShutdownPending) && es[1] == Add(0, Expire) && es[2] == Wakeup(_ => 1)
    requires es[3] == Expired(1, Ending(0, false, false, true, false)) && es[4] == Add(1, Ready)
    ensures Feasible(START, es)
    ensures var m := Run(START, es); var h := HeadOf(m.queue, 0);
      At(m, 0).state.Shutdown? && !m.idle && m.signaled && h.Some? && h.value.pending != []
  {
    var m1 := Step(START, es[0]);
    var m2 := Step(m1, es[1]);
    TwoRequests(m1, m2);
    var m3 := Step(m2, es[2]);
    ShutdownFinishes(m2, es[2], es[3]);
    var m4 := Step(m3, es[3]);
    RunOfFive(START, es, m1, m2, m3, m4, Step(m4, es[4]));
  }

  lemma TwoRequests(m1: Machine, m2: Machine)
    requires m1 == AddTask(START, 0, ShutdownPending) && m2 == AddTask(m1, 0, Expire)
    ensures m2 == START.(queue := [Entry(NewTask(0, ShutdownPending), [NewTask(0, Expire)])], signaled := m2.signaled)
  {
    assert m1.queue == [Entry(NewTask(0, ShutdownPending), [])];
    assert [] + [NewTask(0, Expire)] == [NewTask(0, Expire)];
  }

  lemma ShutdownFinishes(m: Machine, wake: Event, done: Event)
    requires m == START.(queue := [Entry(NewTask(0, ShutdownPending), [NewTask(0, Expire)])], signaled := m.signaled)
    requires wake == Wakeup(_ => 1) && done == Expired(1, Ending(0, false, false, true, false))
    ensures Enabled(m, wake)
    ensures var m1 := Step(m, wake); Enabled(m1, done)
    ensures var m2 := Step(Step(m, wake), done);
      var h := HeadOf(m2.queue, 0);
      At(m2, 0).state.Shutdown? && !m2.idle && h.Some? && h.value.pending != []
  {
    OneHeadStarts(m, wake.env);
  }

  lemma OneHeadStarts(m: Machine, env: nat -> Thread)
    requires m.idle && |m.queue| == 1 && FreshTask(m.queue[0].task)
    requires At(m, m.queue[0].task.ap).state != m.queue[0].task.state
    requires env(m.creates) != 0 && env(m.creates) !in m.workers
    ensures Wake(m, env) == StartHead(m, 0, env).0.(idle := false, signaled := false)
    ensures StartHead(m, 0, env).1
  {
    var (f, ok) := StartHead(m, 0, env);
    StartHeadKeepsShape(m, 0, env);
    assert FirstWalk(m, 0, env) == FirstWalk(f, 1, env) == f;
  }

  lemma RunOfFive(m: Machine, es: seq<Event>, m1: Machine, m2: Machine, m3: Machine, m4: Machine, m5: Machine)
    requires |es| == 5
    requires Enabled(m, es[0]) && m1 == Step(m, es[0]) && Enabled(m1, es[1]) && m2 == Step(m1, es[1])
    requires Enabled(m2, es[2]) && m3 == Step(m2, es[2]) && Enabled(m3, es[3]) && m4 == Step(m3, es[3])
    requires Enabled(m4, es[4]) && m5 == Step(m4, es[4])
    ensures Feasible(m, es) && Run(m, es) == m5
  {
    assert Feasible(m5, es[5..]) && Run(m5, es[5..]) == m5;
    assert es[4..][1..] == es[5..] && es[3..][1..] == es[4..] && es[2..][1..] == es[3..] && es[1..][1..] == es[2..];
    assert Feasible(m4, es[4..]) && Run(m4, es[4..]) == m5;
    assert Feasible(m3, es[3..]) && Run(m3, es[3..]) == m5;
    assert Feasible(m2, es[2..]) && Run(m2, es[2..]) == m5;
    assert Feasible(m1, es[1..]) && Run(m1, es[1..]) == m5;
  }

  // ----- requests and removals

  /** The head or a waiting task asks for `s` and has not finished. */
  predicate Asks(h: Option<Entry>, s: State) {
    h.Some? && ((h.value.task.state == s && !h.value.task.done) || Waiting(h.value.pending, s))
  }

  lemma EnqueueAsks(e: Entry, s: State, shutting: bool)
    ensures var e' := Enqueue(e, s, shutting);
            && (Asks(Some(e'), s) <==> Asks(Some(e), s) || !shutting)
            && (Asks(Some(e), s) ==> e' == e)
            && |e'.pending| <= |e.pending| + 1
  {
    var e' := Enqueue(e, s, shutting);
    if e' != e {
      assert e'.pending[|e.pending|].state == s;
    }
  }

  /** A request leaves an unfinished task for it in the queue unless the point is shut down,
      or is shutting down and holds none already; nothing else in the queue changes. */
  lemma RequestIsQueued(es: seq<Event>, ap: Point, s: State)
    requires Feasible(START, es) && Queueable(s)
    ensures var m := Run(START, es); var m' := AddTask(m, ap, s); var h := HeadOf(m.queue, ap);
            && (Asks(HeadOf(m'.queue, ap), s) <==>
                  Asks(h, s) || (!At(m, ap).state.Shutdown? && (h.None? || !ShuttingDown(At(m, ap).state))))
            && (forall p :: p != ap ==> HeadOf(m'.queue, p) == HeadOf(m.queue, p))
            && m'.aps == m.aps
            && Total(m'.queue) <= Total(m.queue) + 1
            && (Asks(h, s) ==> m'.queue == m.queue)
  {
    Reachable(es);
    QueueAsks(Run(START, es), ap, s);
  }

  lemma QueueAsks(m: Machine, ap: Point, s: State)
    requires Inv(m) && Queueable(s)
    ensures var m' := AddTask(m, ap, s); var h := HeadOf(m.queue, ap);
            && (Asks(HeadOf(m'.queue, ap), s) <==>
                  Asks(h, s) || (!At(m, ap).state.Shutdown? && (h.None? || !ShuttingDown(At(m, ap).state))))
            && (forall p :: p != ap ==> HeadOf(m'.queue, p) == HeadOf(m.queue, p))
            && m'.aps == m.aps
            && Total(m'.queue) <= Total(m.queue) + 1
            && (Asks(h, s) ==> m'.queue == m.queue)
  {
    var i := Find(m.queue, ap);
    if i == |m.queue| {
      HeadPrepend(m.queue, Entry(NewTask(ap, s), []));
      TotalAppend([Entry(NewTask(ap, s), [])], m.queue);
      assert Total([Entry(NewTask(ap, s), [])]) == 1;
    } else {
      var e' := Enqueue(m.queue[i], s, ShuttingDown(At(m, ap).state));
      EnqueueAsks(m.queue[i], s, ShuttingDown(At(m, ap).state));
      HeadUpdate(m.queue, i, e');
      TotalUpdate(m.queue, i, e');
      if e' == m.queue[i] {
        assert m.queue[i := e'] == m.queue;
      }
    }
  }

  lemma {:induction false} TotalUpdate(q: seq<Entry>, i: nat, e: Entry)
    requires i < |q|
    ensures Total(q[i := e]) == Total(q) - |q[i].pending| + |e.pending|
  {
    if i == 0 {
    } else {
      assert q[i := e][1..] == q[1..][i - 1 := e];
      TotalUpdate(q[1..], i - 1, e);
    }
  }

  /** st_remove_tasks keeps every head, cancels the point's running readmap, prune or expire
      task, keeps of its waiting tasks exactly the shutdown ones, and leaves other points alone. */
  lemma RemovalKeepsShutdown(es: seq<Event>, ap: Point, p: Point, t: Task)
    requires Feasible(START, es)
    ensures var m := Run(START, es); var m' := RemoveTasks(m, ap);
            var h := HeadOf(m.queue, p); var h' := HeadOf(m'.queue, p);
            && m'.aps == m.aps && m'.workers == m.workers && |m'.queue| == |m.queue|
            && (p != ap ==> h' == h)
            && (h'.Some? <==> h.Some?)
            && (p == ap && h.Some? ==>
                  && (t in h'.value.pending <==> t in h.value.pending && ShuttingDown(t.state))
                  && h'.value.task == h.value.task.(cancel := h.value.task.cancel ||
                                                    (h.value.task.busy && Cancellable(h.value.task.state))))
  {
    Reachable(es);
    var m := Run(START, es);
    HeadStrip(m.queue, ap);
    assert PointInv(m, p);
    if p == ap && HeadOf(m.queue, p).Some? {
      KeepShutdownSelects(HeadOf(m.queue, p).value.pending, ap);
    }
  }
}
