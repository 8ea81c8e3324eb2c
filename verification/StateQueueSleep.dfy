/** Runs of the task queue that show where it forgets: requests that a pass discards, cancels
    that come too late, and finished heads that the sleeping handler is not told of
    (daemon/state.c:284-288, 720-724, 1105-1131).
 */
module StateQueueSleep {
  import opened Options
  import opened StateQueue
  import opened StateQueueInvariant
  import opened StateQueueRuns
  import opened StateQueueLoss

  // ----- which threads a pass cancels

  /** A head with this task is marked for cancelling. */
  predicate Marked(q: seq<Entry>, t: Task) {
    t.cancel && exists k :: 0 <= k < |q| && q[k].task == t
  }

  predicate NoneMarkedBefore(q: seq<Entry>, i: nat) {
    forall k :: 0 <= k < i && k < |q| ==> !q[k].task.cancel
  }

  /** The tasks whose threads were cancelled between `m` and `m'`. */
  predicate Cancels(m: Machine, m': Machine, t: Task) {
    m.cancelled <= m'.cancelled && t in m'.cancelled[|m.cancelled|..]
  }

  lemma MarkedUpdate(q: seq<Entry>, i: nat, e: Entry, t: Task)
    requires i < |q| && OneHead(q) && !e.task.cancel && e.task.ap == q[i].task.ap
    ensures Marked(q[i := e], t) <==> Marked(q, t) && t != q[i].task
  {
    if Marked(q, t) && t != q[i].task {
      var k :| 0 <= k < |q| && q[k].task == t;
      assert q[i := e][k].task == t;
    }
    if Marked(q[i := e], t) {
      var k :| 0 <= k < |q| && q[i := e][k].task == t;
      assert q[k].task == t;
    }
  }

  lemma MarkedHandOver(q: seq<Entry>, i: nat, t: Task)
    requires i < |q| && OneHead(q) && !q[i].task.cancel && WaitingOk(q[i].pending, q[i].task.ap)
    ensures Marked(HandOver(q, i).0, t) <==> Marked(q, t)
  {
    var r := HandOver(q, i).0;
    if Marked(q, t) {
      var k :| 0 <= k < |q| && q[k].task == t;
      assert r[if k < i then k else k - 1].task == t;
    }
    if Marked(r, t) {
      var k :| 0 <= k < |r| && r[k].task == t;
      assert k < |q| - 1;
      assert q[if k < i then k else k + 1].task == t;
    }
  }

  /** One visit cancels the thread of the head it meets, if that is marked, and no other. */
  lemma VisitCancels(m: Machine, i: nat, env: nat -> Thread, t: Task)
    requires Core(m) && i < |m.queue|
    ensures var m' := Visit(m, i, env).0; var u := m.queue[i].task;
      && m'.cancelled == (if u.cancel then m.cancelled + [u] else m.cancelled)
      && (Marked(m'.queue, t) <==> Marked(m.queue, t) && t != u)
  {
    HeadAt(m.queue, i);
    var e := m.queue[i];
    assert PointInv(m, e.task.ap);
    if !e.task.busy {
      var m1 := StartHead(m, i, env).0;
      if StartHead(m, i, env).1 { StartIs(m, i, env); } else { FailedStart(m, i, env); }
      HeadUpdate(m.queue, i, m1.queue[i]);
      MarkedUpdate(m.queue, i, m1.queue[i], t);
      if !StartHead(m, i, env).1 { MarkedHandOver(m1.queue, i, t); }
    } else if e.task.cancel {
      MarkedUpdate(m.queue, i, e.(task := e.task.(cancel := false)), t);
    } else if e.task.done {
      MarkedHandOver(m.queue, i, t);
    }
  }

  lemma VisitUnmarked(m: Machine, i: nat, env: nat -> Thread)
    requires Core(m) && i < |m.queue| && NoneMarkedBefore(m.queue, i)
    ensures NoneMarkedBefore(Visit(m, i, env).0.queue, Visit(m, i, env).1)
  {
    HeadAt(m.queue, i);
    assert PointInv(m, m.queue[i].task.ap);
    if !m.queue[i].task.busy {
      if StartHead(m, i, env).1 { StartIs(m, i, env); } else { FailedStart(m, i, env); }
    }
  }

  lemma CancelsThrough(m: Machine, m1: Machine, m2: Machine, u: Task, t: Task)
    requires m1.cancelled == if u.cancel then m.cancelled + [u] else m.cancelled
    requires m1.cancelled <= m2.cancelled
    ensures m.cancelled <= m2.cancelled
    ensures Cancels(m, m2, t) <==> Cancels(m1, m2, t) || (u.cancel && t == u)
  {
    if u.cancel {
      var n := |m.cancelled|;
      assert m2.cancelled[n] == m1.cancelled[n] == u;
      assert m2.cancelled[n..] == [u] + m2.cancelled[n + 1..];
    }
  }

  lemma {:induction false} WalkCancels(m: Machine, i: nat, env: nat -> Thread, t: Task)
    requires Core(m) && i <= |m.queue| && NoneMarkedBefore(m.queue, i)
    ensures m.cancelled <= Walk(m, i, env).cancelled
    ensures Cancels(m, Walk(m, i, env), t) <==> Marked(m.queue, t)
    decreases Total(m.queue), |m.queue| - i
  {
    if i >= |m.queue| {
    } else {
      VisitProgress(m, i, env);
      VisitKeeps(m, i, env);
      VisitUnmarked(m, i, env);
      VisitCancels(m, i, env, t);
      var (m', j) := Visit(m, i, env);
      WalkCancels(m', j, env, t);
      CancelsThrough(m, m', Walk(m', j, env), m.queue[i].task, t);
    }
  }

  /** The worker of the task is there. */
  predicate Alive(m: Machine, t: Task) {
    t.thid in m.workers && m.workers[t.thid] == WorkerOf(t)
  }

  /** The worker that the cancel of the marked task `t` reaches, in a walk from `i`: whoever has
      the task's thread identifier when the walk comes to it. */
  function Hit(m: Machine, i: nat, env: nat -> Thread, t: Task): Option<Worker>
    decreases Total(m.queue), |m.queue| - i
  {
    if i >= |m.queue| then None
    else if m.queue[i].task == t then if t.thid in m.workers then Some(m.workers[t.thid]) else None
    else
      VisitProgress(m, i, env);
      var (m', j) := Visit(m, i, env);
      Hit(m', j, env, t)
  }

  /** The visit starts a head whose worker gets the identifier `w`. */
  predicate Gives(m: Machine, i: nat, env: nat -> Thread, w: Thread)
    requires i < |m.queue|
  {
    !m.queue[i].task.busy && StartHead(m, i, env).1 && env(m.creates) == w
  }

  /** Before the walk comes to `t`, it starts a head whose worker gets the identifier of `t`. */
  predicate GivenBefore(m: Machine, i: nat, env: nat -> Thread, t: Task)
    decreases Total(m.queue), |m.queue| - i
  {
    i < |m.queue| && m.queue[i].task != t &&
    (|| Gives(m, i, env, t.thid)
     || (VisitProgress(m, i, env);
         var (m', j) := Visit(m, i, env);
         GivenBefore(m', j, env, t)))
  }

  lemma VisitWorkers(m: Machine, i: nat, env: nat -> Thread, w: Thread)
    requires Core(m) && i < |m.queue|
    ensures w in Visit(m, i, env).0.workers <==> w in m.workers || Gives(m, i, env, w)
  {
    HeadAt(m.queue, i);
    assert PointInv(m, m.queue[i].task.ap);
    if !m.queue[i].task.busy {
      if StartHead(m, i, env).1 { StartIs(m, i, env); } else { FailedStart(m, i, env); }
    }
  }

  lemma {:induction false} HitIs(m: Machine, i: nat, env: nat -> Thread, t: Task)
    requires Core(m) && i <= |m.queue| && NoneMarkedBefore(m.queue, i) && Marked(m.queue, t)
    ensures var hit := Hit(m, i, env, t);
      && (hit.Some? <==> t.thid in m.workers || GivenBefore(m, i, env, t))
      && (!t.done ==> hit == Some(WorkerOf(t)))
      && (t.done && hit.Some? ==> hit.value.ap != t.ap)
    decreases Total(m.queue), |m.queue| - i
  {
    var k :| 0 <= k < |m.queue| && m.queue[k].task == t;
    assert i <= k;
    if m.queue[i].task == t {
      MarkedAlive(m, t);
      HeadAt(m.queue, i);
      if t.thid in m.workers { assert WorkerInv(m, t.thid); }
    } else {
      VisitProgress(m, i, env);
      VisitKeeps(m, i, env);
      VisitUnmarked(m, i, env);
      VisitCancels(m, i, env, t);
      VisitWorkers(m, i, env, t.thid);
      var (m', j) := Visit(m, i, env);
      HitIs(m', j, env, t);
    }
  }

  /** A pass cancels the threads of exactly the heads that are marked.  The cancel reaches the
      task's own worker exactly when the task is not done: the mark is looked at before `done`.
      Of a task that is done it reaches nobody or the worker of another point, and that exactly
      when the identifier of the ended thread has been given out again, before the pass or to a
      head that the pass started earlier. */
  lemma CancelReaches(es: seq<Event>, env: nat -> Thread, t: Task)
    requires Feasible(START, es) && Passes(Run(START, es)) && !Run(START, es).idle
    ensures var m := Run(START, es); var hit := Hit(m, 0, env, t);
      && (Cancels(m, Wake(m, env), t) <==> Marked(m.queue, t))
      && (Marked(m.queue, t) ==>
            && (!t.done <==> hit == Some(WorkerOf(t)))
            && (t.done ==> (hit.Some? <==> t.thid in m.workers || GivenBefore(m, 0, env, t)))
            && (hit.Some? && hit.value.ap != t.ap ==> t.done)
            && (t.done && hit.Some? ==> hit.value.ap != t.ap))
  {
    Reachable(es);
    var m := Run(START, es);
    WalkCancels(m, 0, env, t);
    if Marked(m.queue, t) {
      HitIs(m, 0, env, t);
    }
  }

  lemma MarkedAlive(m: Machine, t: Task)
    requires Core(m) && Marked(m.queue, t)
    ensures Alive(m, t) <==> !t.done
  {
    var k :| 0 <= k < |m.queue| && m.queue[k].task == t;
    HeadAt(m.queue, k);
    assert PointInv(m, t.ap);
    if Alive(m, t) { assert WorkerInv(m, t.thid); }
  }

  // ----- finished heads the handler does not hear of

  predicate HasTask(q: seq<Entry>, t: Task) {
    exists i :: 0 <= i < |q| && q[i].task == t
  }

  /** A finished head left by a pass had been marked for cancelling. */
  lemma PassLeavesDone(m: Machine, env: nat -> Thread, t: Task)
    requires Inv(m) && Passes(m) && HasTask(Wake(m, env).queue, t) && t.done
    ensures Marked(m.queue, t.(cancel := true))
  {
    var m' := Wake(m, env);
    WakeKeeps(m, env);
    var i :| 0 <= i < |m'.queue| && m'.queue[i].task == t;
    HeadAt(m'.queue, i);
    assert PointInv(m, t.ap);
    if m.idle {
      FirstWalkOutcome(m, 0, env, t.ap);
    } else {
      WalkOutcome(m, 0, env, t.ap);
      var h := HeadOf(m.queue, t.ap);
      assert m.queue[Find(m.queue, t.ap)].task == t.(cancel := true);
    }
  }

  lemma DoneTask(m: Machine, p: Point, t: Task)
    requires OneHead(m.queue) && HasTask(SetDone(m.queue, p), t)
    ensures HasTask(m.queue, t) || t.ap == p
  {
    var i :| 0 <= i < |SetDone(m.queue, p)| && SetDone(m.queue, p)[i].task == t;
    assert i != Find(m.queue, p) ==> m.queue[i].task == t;
  }

  lemma ExpiredTask(m: Machine, w: Thread, ap: Point, r: Ending, t: Task)
    requires Inv(m) && w in m.workers && m.workers[w] == ExpireWorker(ap)
    requires var m' := ExpireDone(m, w, ap, r); !m'.signaled && HasTask(m'.queue, t)
    ensures At(ExpireDone(m, w, ap, r), t.ap).state.Shutdown? || (HasTask(m.queue, t) && !m.signaled)
  {
    ExpireWorkerState(m, w, ap);
    ExpireDoneIs(m, w, ap, r);
    DoneTask(m, ap, t);
  }

  lemma RereadTask(m: Machine, w: Thread, ap: Point, t: Task)
    requires Inv(m) && w in m.workers && m.workers[w] == ReadmapWorker(ap)
    requires HasTask(ReadmapDone(m, w, ap).queue, t)
    ensures t.state.Readmap? || HasTask(m.queue, t)
  {
    assert WorkerInv(m, w) && PointInv(m, ap);
    SetDoneQueue(m, w);
    var q := SetDone(m.queue, ap);
    var i :| 0 <= i < |q| && q[i].task == t;
    assert i != Find(m.queue, ap) ==> m.queue[i].task == t;
  }

  /** How a finished head comes to lie in the queue with the handler not signalled: it was so
      before, it is a readmap task, its point has been shut down, or a pass met it marked. */
  lemma StepTask(m: Machine, e: Event, t: Task)
    requires Inv(m) && Enabled(m, e) && !Step(m, e).signaled && HasTask(Step(m, e).queue, t) && t.done
    ensures || t.state.Readmap? || At(Step(m, e), t.ap).state.Shutdown? || (HasTask(m.queue, t) && !m.signaled)
            || (e.Wakeup? && Passes(m) && Marked(m.queue, t.(cancel := true)))
  {
    match e
    case Wakeup(env) => if Passes(m) { PassLeavesDone(m, env, t); }
    case Expired(w, r) => ExpiredTask(m, w, m.workers[w].ap, r, t);
    case Reread(w) => RereadTask(m, w, m.workers[w].ap, t);
    case _ => QuietTask(m, e, t);
  }

  /** Requests, removals and signals leave no new finished head behind. */
  lemma QuietTask(m: Machine, e: Event, t: Task)
    requires Inv(m) && Enabled(m, e) && !e.Wakeup? && !e.Expired? && !e.Reread?
    requires !Step(m, e).signaled && HasTask(Step(m, e).queue, t) && t.done
    ensures HasTask(m.queue, t) && !m.signaled
  {
    match e
    case Add(ap, s) => AddSignals(m, ap, s);
    case Signal(ap, s) => AddSignals(if ShuttingDown(s) then SetShutdown(m, ap, true) else m, ap, s);
    case Notify(w, ap, s) =>
      assert !s.Shutdown? by { assert PointInv(m, m.workers[w].ap); }
      AddSignals(SetShutdown(m, ap, At(m, m.workers[w].ap).shutdown), ap, s);
    case Remove(_) =>
  }

  lemma AddSignals(m: Machine, ap: Point, s: State)
    requires !s.Shutdown?
    ensures AddTask(m, ap, s).signaled || AddTask(m, ap, s) == m
  {
  }

  lemma {:induction false} RunSplit(m: Machine, es: seq<Event>, e: Event)
    requires Feasible(m, es + [e])
    ensures Feasible(m, es) && Enabled(Run(m, es), e) && Run(m, es + [e]) == Step(Run(m, es), e)
    decreases |es|
  {
    if es == [] {
      assert ([] + [e])[1..] == [];
    } else {
      assert (es + [e])[1..] == es[1..] + [e];
      RunSplit(Step(m, es[0]), es[1..], e);
    }
  }

  /** In the run, a pass came to this very task marked and done, sent the cancel and took the mark
      off; and the task has been a head ever since. */
  predicate CancelledLate(es: seq<Event>, t: Task) {
    exists k :: 0 <= k < |es| && LateAt(es, k, t)
  }

  predicate LateAt(es: seq<Event>, k: nat, t: Task)
    requires k < |es|
  {
    && es[k].Wakeup? && Feasible(START, es[..k]) && Passes(Run(START, es[..k]))
    && Marked(Run(START, es[..k]).queue, t.(cancel := true)) && t.done
    && forall j :: k < j <= |es| ==> Feasible(START, es[..j]) && HasTask(Run(START, es[..j]).queue, t)
  }

  lemma LateStill(es: seq<Event>, e: Event, t: Task)
    requires CancelledLate(es, t) && Feasible(START, es + [e]) && HasTask(Run(START, es + [e]).queue, t)
    ensures CancelledLate(es + [e], t)
  {
    var k :| 0 <= k < |es| && LateAt(es, k, t);
    var es' := es + [e];
    assert es'[..k] == es[..k];
    forall j | k < j <= |es'| ensures Feasible(START, es'[..j]) && HasTask(Run(START, es'[..j]).queue, t) {
      assert j <= |es| ==> es'[..j] == es[..j];
      assert j == |es'| ==> es'[..j] == es';
    }
    assert LateAt(es', k, t);
  }

  lemma LateNow(es: seq<Event>, e: Event, t: Task)
    requires Feasible(START, es + [e]) && Feasible(START, es) && e.Wakeup? && Passes(Run(START, es)) && t.done
    requires Marked(Run(START, es).queue, t.(cancel := true)) && HasTask(Run(START, es + [e]).queue, t)
    ensures CancelledLate(es + [e], t)
  {
    var es' := es + [e];
    assert es'[..|es|] == es && es'[..|es'|] == es';
    assert LateAt(es', |es|, t);
  }

  /** In every run, a finished head that the handler has not been told of is a readmap task,
      or its point is in ST_SHUTDOWN, or it was cancelled after it had finished. */
  lemma {:induction false} UnheardIsOneOf(es: seq<Event>, t: Task)
    requires Feasible(START, es) && !Run(START, es).signaled && HasTask(Run(START, es).queue, t) && t.done
    ensures t.state.Readmap? || At(Run(START, es), t.ap).state.Shutdown? || CancelledLate(es, t)
    decreases |es|
  {
    if es == [] {
    } else {
      var pre, e := es[..|es| - 1], es[|es| - 1];
      assert es == pre + [e];
      RunSplit(START, pre, e);
      var m := Run(START, pre);
      Reachable(pre);
      StepTask(m, e, t);
      if e.Wakeup? && Passes(m) && Marked(m.queue, t.(cancel := true)) {
        LateNow(pre, e, t);
      } else if HasTask(m.queue, t) && !m.signaled {
        UnheardIsOneOf(pre, t);
        if At(m, t.ap).state.Shutdown? { StepLeavesShutdown(m, e, t.ap); }
        if CancelledLate(pre, t) { LateStill(pre, e, t); }
      }
    }
  }

  // ----- runs

  lemma {:induction false} RunAppend(m: Machine, es: seq<Event>, e: Event)
    requires Feasible(m, es) && Enabled(Run(m, es), e)
    ensures Feasible(m, es + [e]) && Run(m, es + [e]) == Step(Run(m, es), e)
    decreases |es|
  {
    if es == [] {
      assert [e][1..] == [];
    } else {
      assert (es + [e])[1..] == es[1..] + [e];
      RunAppend(Step(m, es[0]), es[1..], e);
    }
  }

  /** Thread creation that never fails: 1, 2, 3, ... */
  function Counting(n: nat): Thread { n + 1 }

  /** Point 0 with one task, started as thread 1. */
  function OneBusy(s: State, pending: seq<Task>, signaled: bool): Machine {
    var t := Task(0, s, 1, true, false, false);
    Machine([Entry(t, pending)],
            map[0 := if s.Readmap? then Ap(s, false, 0, 1) else Ap(s, false, 1, 0)],
            signaled, false, map[1 := WorkerOf(t)], 1, [], 0)
  }

  const ENDING := Ending(0, false, false, true, false)

  lemma OneStarts(s: State)
    requires Queueable(s)
    ensures Feasible(START, [Add(0, s), Wakeup(Counting)])
    ensures Run(START, [Add(0, s), Wakeup(Counting)]) == OneBusy(s, [], false)
  {
    var m := AddTask(START, 0, s);
    assert m.queue == [Entry(NewTask(0, s), [])];
    OneHeadStarts(m, Counting);
    var m' := Wake(m, Counting);
    StartIs(m, 0, Counting);
    assert m'.aps == OneBusy(s, [], false).aps;
    assert m' == OneBusy(s, [], false);
    RunAppend(START, [], Add(0, s));
    RunAppend(START, [Add(0, s)], Wakeup(Counting));
    assert [] + [Add(0, s)] == [Add(0, s)];
    assert [Add(0, s)] + [Wakeup(Counting)] == [Add(0, s), Wakeup(Counting)];
  }

  /** The head of point 0 after its expire worker has ended and asked for ready. */
  lemma ExpireEnds(m: Machine, pending: seq<Task>)
    requires m == OneBusy(Expire, pending, m.signaled)
    ensures ExpireDone(m, 1, 0, ENDING)
         == Machine([Entry(Task(0, Expire, 1, true, true, false), pending)], map[0 := Ap(Ready, false, 0, 0)],
                    true, false, map[], 1, [], 0)
  {
    var m' := ExpireDone(m, 1, 0, ENDING);
    ExpireDoneIs(m, 1, 0, ENDING);
    assert m'.aps == map[0 := Ap(Ready, false, 0, 0)];
    assert m'.queue == [Entry(Task(0, Expire, 1, true, true, false), pending)];
    assert m'.workers == map[];
  }

  /** A readmap and a prune request, both accepted while an expire runs: when the expire ends
      the handler starts the prune, and the readmap request is gone for good. */
  lemma ReadmapRequestLost(more: seq<Event>)
    ensures var asked := [Add(0, Expire), Wakeup(Counting), Add(0, Prune), Add(0, Readmap)];
      var ended := asked + [Expired(1, ENDING)];
      var passed := ended + [Wakeup(Counting)];
      && Feasible(START, asked) && Asks(HeadOf(Run(START, asked).queue, 0), Readmap)
      && Feasible(START, passed) && !Asks(HeadOf(Run(START, passed).queue, 0), Readmap)
      && (Feasible(Run(START, passed), more) && NeverRequested(Run(START, passed), more, 0, Readmap) ==>
            !Asks(HeadOf(Run(Run(START, passed), more).queue, 0), Readmap))
  {
    var asked := [Add(0, Expire), Wakeup(Counting), Add(0, Prune), Add(0, Readmap)];
    var ended := asked + [Expired(1, ENDING)];
    var passed := ended + [Wakeup(Counting)];
    TwoWait(asked);
    var pending := [NewTask(0, Prune), NewTask(0, Readmap)];
    assert Waiting(pending, Readmap) by { assert pending[1].state == Readmap; }
    RunAppend(START, asked, Expired(1, ENDING));
    ExpireEnds(Run(START, asked), pending);
    RunAppend(START, ended, Wakeup(Counting));
    WaitingLost(ended, Counting, 0, 1);
    Reachable(passed);
    if Feasible(Run(START, passed), more) && NeverRequested(Run(START, passed), more, 0, Readmap) {
      LostStaysLost(Run(START, passed), more, 0, Readmap);
    }
  }

  lemma TwoWait(es: seq<Event>)
    requires es == [Add(0, Expire), Wakeup(Counting), Add(0, Prune), Add(0, Readmap)]
    ensures Feasible(START, es)
    ensures Run(START, es) == OneBusy(Expire, [NewTask(0, Prune), NewTask(0, Readmap)], true)
  {
    OneStarts(Expire);
    var e2 := [Add(0, Expire), Wakeup(Counting)];
    RunAppend(START, e2, Add(0, Prune));
    var m3 := AddTask(OneBusy(Expire, [], false), 0, Prune);
    assert m3.queue[0].pending == [NewTask(0, Prune)];
    assert m3 == OneBusy(Expire, [NewTask(0, Prune)], true);
    RunAppend(START, e2 + [Add(0, Prune)], Add(0, Readmap));
    var m4 := AddTask(m3, 0, Readmap);
    assert m4.queue[0].pending == [NewTask(0, Prune), NewTask(0, Readmap)];
    assert m4 == OneBusy(Expire, [NewTask(0, Prune), NewTask(0, Readmap)], true);
    assert es == e2 + [Add(0, Prune)] + [Add(0, Readmap)];
  }

  /** An expire task that has ended is marked by st_remove_tasks, the next pass cancels a thread
      that is no longer there, and the finished head stays with the handler asleep. */
  lemma CancelComesLate()
    ensures var marked := [Add(0, Expire), Wakeup(Counting), Expired(1, ENDING), Remove(0)];
      var passed := marked + [Wakeup(Counting)];
      var t := Task(0, Expire, 1, true, true, true);
      && Feasible(START, marked) && Marked(Run(START, marked).queue, t) && Run(START, marked).workers == map[]
      && Feasible(START, passed) && t in Run(START, passed).cancelled
      && Run(START, passed).queue == [Entry(t.(cancel := false), [])]
      && !Run(START, passed).signaled && !Run(START, passed).idle
      && !At(Run(START, passed), 0).state.Shutdown?
  {
    var marked := [Add(0, Expire), Wakeup(Counting), Expired(1, ENDING), Remove(0)];
    MarkedDone(marked);
    var m := Run(START, marked);
    var t := Task(0, Expire, 1, true, true, true);
    assert m.queue[0].task == t;
    RunAppend(START, marked, Wakeup(Counting));
    LatePass(m, t);
  }

  lemma LatePass(m: Machine, t: Task)
    requires m.queue == [Entry(t, [])] && !m.idle && m.signaled && t.cancel && t.done && t.busy && t.thid != 0
    ensures var m' := Wake(m, Counting);
      && m'.queue == [Entry(t.(cancel := false), [])] && m'.cancelled == m.cancelled + [t]
      && !m'.signaled && !m'.idle && m'.aps == m.aps
  {
    var (m1, j) := Visit(m, 0, Counting);
    VisitProgress(m, 0, Counting);
    assert m1.queue == [Entry(t.(cancel := false), [])] && j == 1;
    assert Walk(m, 0, Counting) == Walk(m1, 1, Counting) == m1;
  }

  /** A finished readmap task lies in the queue with the handler asleep. */
  lemma ReadmapUnheard()
    ensures var es := [Add(0, Readmap), Wakeup(Counting), Reread(1)];
      && Feasible(START, es) && !Run(START, es).signaled && !Run(START, es).idle
      && Run(START, es).queue == [Entry(Task(0, Readmap, 1, true, true, false), [])]
  {
    var e2 := [Add(0, Readmap), Wakeup(Counting)];
    OneStarts(Readmap);
    RunAppend(START, e2, Reread(1));
    assert e2 + [Reread(1)] == [Add(0, Readmap), Wakeup(Counting), Reread(1)];
  }

  /** So does the finished shutdown task of a point that is shut down. */
  lemma ShutdownUnheard()
    ensures var es := [Add(0, ShutdownPending), Wakeup(Counting), Expired(1, ENDING)];
      && Feasible(START, es) && !Run(START, es).signaled && !Run(START, es).idle
      && Run(START, es).queue == [Entry(Task(0, ShutdownPending, 1, true, true, false), [])]
      && At(Run(START, es), 0).state.Shutdown?
  {
    var e2 := [Add(0, ShutdownPending), Wakeup(Counting)];
    OneStarts(ShutdownPending);
    RunAppend(START, e2, Expired(1, ENDING));
    ExpireDoneIs(OneBusy(ShutdownPending, [], false), 1, 0, ENDING);
    assert e2 + [Expired(1, ENDING)] == [Add(0, ShutdownPending), Wakeup(Counting), Expired(1, ENDING)];
  }

  /** Thread creation that always fails. */
  function Refusing(n: nat): Thread { 0 }

  /** After an empty queue a head that does not start takes all that waits behind it along. */
  lemma FirstPassFreesAll()
    ensures var es := [Add(0, Expire), Add(0, Prune), Add(0, Readmap)];
      && Feasible(START, es) && Asks(HeadOf(Run(START, es).queue, 0), Prune)
      && Asks(HeadOf(Run(START, es).queue, 0), Readmap) && Wake(Run(START, es), Refusing).queue == []
  {
    var es := [Add(0, Expire), Add(0, Prune), Add(0, Readmap)];
    ThreeQueued(es);
    var m := Run(START, es);
    var pending := [NewTask(0, Prune), NewTask(0, Readmap)];
    assert pending[0].state == Prune && pending[1].state == Readmap;
    RefusedFreesAll(m);
  }

  lemma ThreeQueued(es: seq<Event>)
    requires es == [Add(0, Expire), Add(0, Prune), Add(0, Readmap)]
    ensures Feasible(START, es)
    ensures var m := Run(START, es);
      && m.queue == [Entry(NewTask(0, Expire), [NewTask(0, Prune), NewTask(0, Readmap)])]
      && m.idle && At(m, 0) == FRESH_POINT
  {
    var e1, head := [Add(0, Expire)], NewTask(0, Expire);
    RunAppend(START, [], Add(0, Expire));
    assert [] + [Add(0, Expire)] == e1;
    assert Run(START, e1).queue == [Entry(head, [])];
    RunAppend(START, e1, Add(0, Prune));
    assert Run(START, e1 + [Add(0, Prune)]).queue == [Entry(head, [NewTask(0, Prune)])] by {
      assert [] + [NewTask(0, Prune)] == [NewTask(0, Prune)];
    }
    RunAppend(START, e1 + [Add(0, Prune)], Add(0, Readmap));
    assert es == e1 + [Add(0, Prune)] + [Add(0, Readmap)];
    assert [NewTask(0, Prune)] + [NewTask(0, Readmap)] == [NewTask(0, Prune), NewTask(0, Readmap)];
  }

  lemma RefusedFreesAll(m: Machine)
    requires m.idle && |m.queue| == 1 && !m.queue[0].task.cancel && m.queue[0].task.ap == 0
    requires m.queue[0].task.state == Expire && At(m, 0) == FRESH_POINT
    ensures Wake(m, Refusing).queue == []
  {
    var (m1, ok) := StartHead(m, 0, Refusing);
    StartHeadKeepsShape(m, 0, Refusing);
    assert !ok && Drop(m1.queue, 0) == [];
    assert FirstWalk(m, 0, Refusing) == m1.(queue := []);
  }

  // ----- the cancel reaches a stranger

  /** Thread creation that always gives the identifier 1. */
  function One(n: nat): Thread { 1 }

  /** Point 0's expire has ended and is marked; a shutdown task of point 1 is started first and is
      given the identifier of the ended thread: the cancel reaches the shutdown worker. */
  lemma CancelHitsStranger()
    ensures var es := [Add(0, Expire), Wakeup(Counting), Expired(1, ENDING), Remove(0), Add(1, ShutdownPending)];
      var t := Task(0, Expire, 1, true, true, true);
      && Feasible(START, es) && Passes(Run(START, es)) && Marked(Run(START, es).queue, t)
      && Hit(Run(START, es), 0, One, t) == Some(ExpireWorker(1))
      && HeadOf(Run(START, es).queue, 1) == Some(Entry(NewTask(1, ShutdownPending), []))
  {
    var marked := [Add(0, Expire), Wakeup(Counting), Expired(1, ENDING), Remove(0)];
    var t := Task(0, Expire, 1, true, true, true);
    MarkedDone(marked);
    var m := Run(START, marked);
    RunAppend(START, marked, Add(1, ShutdownPending));
    assert marked + [Add(1, ShutdownPending)]
        == [Add(0, Expire), Wakeup(Counting), Expired(1, ENDING), Remove(0), Add(1, ShutdownPending)];
    var m' := Run(START, marked + [Add(1, ShutdownPending)]);
    assert m'.queue == [Entry(NewTask(1, ShutdownPending), []), Entry(t, [])] by {
      assert [Entry(NewTask(1, ShutdownPending), [])] + [Entry(t, [])]
          == [Entry(NewTask(1, ShutdownPending), []), Entry(t, [])];
    }
    assert m'.queue[1].task == t;
    StrangerStarts(m', t);
  }

  lemma StrangerStarts(m: Machine, t: Task)
    requires m.queue == [Entry(NewTask(1, ShutdownPending), []), Entry(t, [])] && m.workers == map[]
    requires t.ap == 0 && t.thid == 1 && At(m, 1) == FRESH_POINT
    ensures Hit(m, 0, One, t) == Some(ExpireWorker(1))
  {
    VisitProgress(m, 0, One);
    var (m', ok) := StartHead(m, 0, One);
    StartIs(m, 0, One);
    assert Visit(m, 0, One) == (m', 1);
    assert m'.queue[1].task == t && m'.workers == map[1 := ExpireWorker(1)];
    assert Hit(m', 1, One, t) == Some(ExpireWorker(1));
  }

  lemma MarkedDone(es: seq<Event>)
    requires es == [Add(0, Expire), Wakeup(Counting), Expired(1, ENDING), Remove(0)]
    ensures Feasible(START, es)
    ensures Run(START, es) == Machine([Entry(Task(0, Expire, 1, true, true, true), [])],
                                      map[0 := Ap(Ready, false, 0, 0)], true, false, map[], 1, [], 0)
  {
    var e2 := [Add(0, Expire), Wakeup(Counting)];
    var e3 := e2 + [Expired(1, ENDING)];
    assert es == e3 + [Remove(0)];
    OneStarts(Expire);
    RunAppend(START, e2, Expired(1, ENDING));
    ExpireEnds(OneBusy(Expire, [], false), []);
    RunAppend(START, e3, Remove(0));
    assert Run(START, es).queue == [Entry(Task(0, Expire, 1, true, true, true), [])];
  }
}
