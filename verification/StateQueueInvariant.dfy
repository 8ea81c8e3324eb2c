/** What every critical section of the task queue keeps.

    The invariant is stated point by point: the head of a point is either fresh, or
    was started and then runs exactly one worker until that worker marks it done, and
    the point's thread identifiers and state agree with that worker.
 */
module StateQueueInvariant {
  import opened Options
  import opened StateQueue

  function HeadOf(q: seq<Entry>, ap: Point): Option<Entry> {
    var i := Find(q, ap);
    if i == |q| then None else Some(q[i])
  }

  predicate OneHead(q: seq<Entry>) {
    forall i, j :: 0 <= i < j < |q| ==> q[i].task.ap != q[j].task.ap
  }

  predicate FreshTask(t: Task) {
    t == NewTask(t.ap, t.state) && Queueable(t.state)
  }

  predicate WaitingOk(pending: seq<Task>, ap: Point) {
    && (forall k :: 0 <= k < |pending| ==> FreshTask(pending[k]) && pending[k].ap == ap)
    && (forall j, k :: 0 <= j < k < |pending| ==> pending[j].state != pending[k].state)
  }

  predicate EntryOk(e: Entry, ap: Point) {
    && e.task.ap == ap
    && Queueable(e.task.state)
    && (if e.task.busy then e.task.thid != 0 else FreshTask(e.task))
    && (e.task.cancel ==> Cancellable(e.task.state))
    && WaitingOk(e.pending, ap)
  }

  predicate Running(h: Option<Entry>) {
    h.Some? && h.value.task.busy && !h.value.task.done
  }

  /** No worker: both thread identifiers are clear and the state is not one that
      only a worker can be in. */
  predicate AtRest(a: Ap) {
    && a.expThread == 0 && a.readmapThread == 0
    && !ShuttingDown(a.state) && !a.state.Readmap?
  }

  /** The point's fields while the worker of task `t` runs. */
  predicate Served(a: Ap, t: Task) {
    && (a.state == t.state || a.state.Ready?)
    && a.readmapThread == (if t.state.Readmap? then t.thid else 0)
    && a.expThread == (if t.state.Readmap? then 0 else t.thid)
  }

  predicate PointInv(m: Machine, ap: Point) {
    var h := HeadOf(m.queue, ap);
    && (h.Some? ==> EntryOk(h.value, ap))
    && (if Running(h) then
          var t := h.value.task;
          t.thid in m.workers && m.workers[t.thid] == WorkerOf(t) && Served(At(m, ap), t)
        else AtRest(At(m, ap)))
  }

  predicate WorkerInv(m: Machine, w: Thread)
    requires w in m.workers
  {
    var h := HeadOf(m.queue, m.workers[w].ap);
    w != 0 && Running(h) && h.value.task.thid == w
  }

  predicate AllStarted(q: seq<Entry>) {
    forall j :: 0 <= j < |q| ==> q[j].task.busy
  }

  ghost predicate Core(m: Machine) {
    && OneHead(m.queue)
    && (forall ap: Point :: PointInv(m, ap))
    && (forall w :: w in m.workers ==> WorkerInv(m, w))
    && (forall k :: 0 <= k < |m.cancelled| ==> Cancellable(m.cancelled[k].state))
    && m.faults == 0
  }

  /** A point in ST_SHUTDOWN has no head, or the finished shutdown task itself. */
  predicate ShutHead(m: Machine, e: Entry) {
    At(m, e.task.ap).state.Shutdown? ==> e.task.busy && ShuttingDown(e.task.state)
  }

  /** Between critical sections, moreover: while the handler waits for the queue to fill,
      no head has been started; and a shut down point has at most its shutdown task as head. */
  ghost predicate Inv(m: Machine) {
    && Core(m)
    && (m.idle ==> forall i :: 0 <= i < |m.queue| ==> !m.queue[i].task.busy)
    && (forall i :: 0 <= i < |m.queue| ==> ShutHead(m, m.queue[i]))
  }

  // ----- how queue updates move heads

  lemma HeadAt(q: seq<Entry>, i: nat)
    requires OneHead(q) && i < |q|
    ensures Find(q, q[i].task.ap) == i
    ensures HeadOf(q, q[i].task.ap) == Some(q[i])
  {
  }

  lemma FindIs(q: seq<Entry>, ap: Point, i: nat)
    requires i <= |q| && (i < |q| ==> q[i].task.ap == ap)
    requires forall j :: 0 <= j < i ==> q[j].task.ap != ap
    ensures Find(q, ap) == i
  {
  }

  lemma HeadUpdate(q: seq<Entry>, i: nat, e: Entry)
    requires OneHead(q) && i < |q| && e.task.ap == q[i].task.ap
    ensures OneHead(q[i := e])
    ensures HeadOf(q[i := e], e.task.ap) == Some(e)
    ensures forall p :: p != e.task.ap ==> HeadOf(q[i := e], p) == HeadOf(q, p)
  {
    var q' := q[i := e];
    HeadAt(q', i);
    forall p | p != e.task.ap ensures HeadOf(q', p) == HeadOf(q, p) {
      FindIs(q', p, Find(q, p));
    }
  }

  lemma HeadDrop(q: seq<Entry>, i: nat)
    requires OneHead(q) && i < |q|
    ensures OneHead(Drop(q, i))
    ensures HeadOf(Drop(q, i), q[i].task.ap) == None
    ensures forall p :: p != q[i].task.ap ==> HeadOf(Drop(q, i), p) == HeadOf(q, p)
  {
    var r := Drop(q, i);
    assert forall j :: 0 <= j < |r| ==> r[j] == if j < i then q[j] else q[j + 1];
    forall p ensures HeadOf(r, p) == if p == q[i].task.ap then None else HeadOf(q, p) {
      if p == q[i].task.ap {
        FindIs(r, p, |r|);
      } else {
        var k := Find(q, p);
        FindIs(r, p, if k < i then k else k - 1);
      }
    }
  }

  lemma HeadAppend(q: seq<Entry>, e: Entry)
    requires OneHead(q) && HeadOf(q, e.task.ap) == None
    ensures OneHead(q + [e])
    ensures HeadOf(q + [e], e.task.ap) == Some(e)
    ensures forall p :: p != e.task.ap ==> HeadOf(q + [e], p) == HeadOf(q, p)
  {
    FindIs(q + [e], e.task.ap, |q|);
    forall p | p != e.task.ap ensures HeadOf(q + [e], p) == HeadOf(q, p) {
      var k := Find(q, p);
      FindIs(q + [e], p, if k < |q| then k else k + 1);
    }
  }

  lemma HeadPrepend(q: seq<Entry>, e: Entry)
    requires OneHead(q) && HeadOf(q, e.task.ap) == None
    ensures OneHead([e] + q)
    ensures HeadOf([e] + q, e.task.ap) == Some(e)
    ensures forall p :: p != e.task.ap ==> HeadOf([e] + q, p) == HeadOf(q, p)
  {
    FindIs([e] + q, e.task.ap, 0);
    forall p | p != e.task.ap ensures HeadOf([e] + q, p) == HeadOf(q, p) {
      FindIs([e] + q, p, Find(q, p) + 1);
    }
  }

  lemma HeadHandOver(q: seq<Entry>, i: nat)
    requires OneHead(q) && i < |q| && WaitingOk(q[i].pending, q[i].task.ap)
    ensures var r := HandOver(q, i).0; var e := q[i];
            && OneHead(r)
            && HeadOf(r, e.task.ap) == (if e.pending == [] then None else Some(Entry(e.pending[0], [])))
            && forall p :: p != e.task.ap ==> HeadOf(r, p) == HeadOf(q, p)
  {
    HeadDrop(q, i);
    if q[i].pending != [] {
      HeadAppend(Drop(q, i), Entry(q[i].pending[0], []));
    }
  }

  // ----- one point at a time

  /** A step that touches only `ap`, its head and its worker keeps the invariant if it
      keeps it for `ap`. */
  lemma OnePoint(m: Machine, m': Machine, ap: Point)
    requires Core(m)
    requires OneHead(m'.queue)
    requires forall p :: p != ap ==> HeadOf(m'.queue, p) == HeadOf(m.queue, p) && At(m', p) == At(m, p)
    requires forall w :: w in m.workers && m.workers[w].ap != ap ==> w in m'.workers && m'.workers[w] == m.workers[w]
    requires forall w :: w in m'.workers && m'.workers[w].ap != ap ==> w in m.workers && m'.workers[w] == m.workers[w]
    requires PointInv(m', ap)
    requires forall w :: w in m'.workers && m'.workers[w].ap == ap ==> WorkerInv(m', w)
    requires forall k :: 0 <= k < |m'.cancelled| ==> Cancellable(m'.cancelled[k].state)
    requires m'.faults == 0
    ensures Core(m')
  {
    forall p: Point ensures PointInv(m', p) {
      if p != ap {
        assert PointInv(m, p);
      }
    }
    forall w | w in m'.workers ensures WorkerInv(m', w) {
      if m'.workers[w].ap != ap {
        assert WorkerInv(m, w);
      }
    }
  }

  /** A step that edits the head of `ap` without starting or finishing its worker. */
  lemma HeadEdit(m: Machine, q: seq<Entry>, ap: Point)
    requires Core(m) && OneHead(q)
    requires forall p :: p != ap ==> HeadOf(q, p) == HeadOf(m.queue, p)
    requires HeadOf(q, ap).Some? ==> EntryOk(HeadOf(q, ap).value, ap)
    requires Running(HeadOf(q, ap)) <==> Running(HeadOf(m.queue, ap))
    requires Running(HeadOf(q, ap)) ==>
               var t := HeadOf(q, ap).value.task; var u := HeadOf(m.queue, ap).value.task;
               t.thid == u.thid && t.state == u.state && t.ap == u.ap
    ensures Core(m.(queue := q))
  {
    var m' := m.(queue := q);
    forall p: Point ensures PointInv(m', p) {
      assert PointInv(m, p);
    }
    forall w | w in m'.workers ensures WorkerInv(m', w) {
      assert WorkerInv(m, w);
    }
  }

  // ----- requests

  lemma SetReadyKeeps(m: Machine, ap: Point)
    requires Core(m)
    ensures Core(SetReady(m, ap))
  {
    var m' := SetReady(m, ap);
    assert PointInv(m, ap);
    OnePoint(m, m', ap) by {
      assert forall w :: w in m'.workers ==> WorkerInv(m, w);
    }
  }

  lemma EnqueueKeeps(e: Entry, ap: Point, s: State, shutting: bool)
    requires EntryOk(e, ap) && Queueable(s)
    ensures EntryOk(Enqueue(e, s, shutting), ap)
    ensures Enqueue(e, s, shutting).task == e.task
  {
  }

  /** A request on a point with no head: a new head at the front. */
  lemma NewHeadKeeps(m: Machine, ap: Point, s: State)
    requires Core(m) && Queueable(s) && HeadOf(m.queue, ap).None?
    ensures Core(m.(queue := [Entry(NewTask(ap, s), [])] + m.queue))
  {
    assert PointInv(m, ap);
    HeadPrepend(m.queue, Entry(NewTask(ap, s), []));
    HeadEdit(m, [Entry(NewTask(ap, s), [])] + m.queue, ap);
  }

  lemma EnqueuedKeeps(m: Machine, i: nat, s: State, shutting: bool)
    requires Core(m) && Queueable(s) && i < |m.queue|
    ensures Core(m.(queue := m.queue[i := Enqueue(m.queue[i], s, shutting)]))
  {
    HeadAt(m.queue, i);
    var ap := m.queue[i].task.ap;
    assert PointInv(m, ap);
    EnqueueKeeps(m.queue[i], ap, s, shutting);
    HeadUpdate(m.queue, i, Enqueue(m.queue[i], s, shutting));
    HeadEdit(m, m.queue[i := Enqueue(m.queue[i], s, shutting)], ap);
  }

  lemma SameCore(m: Machine, m': Machine)
    requires Core(m)
    requires m'.queue == m.queue && m'.aps == m.aps && m'.workers == m.workers && m'.faults == m.faults
    requires forall k :: 0 <= k < |m'.cancelled| ==> Cancellable(m'.cancelled[k].state)
    ensures Core(m')
  {
    forall p: Point ensures PointInv(m', p) {
      assert PointInv(m, p);
    }
    forall w | w in m'.workers ensures WorkerInv(m', w) {
      assert WorkerInv(m, w);
    }
  }

  lemma AddTaskKeeps(m: Machine, ap: Point, s: State)
    requires Core(m)
    requires s.Ready? || Queueable(s)
    ensures Core(AddTask(m, ap, s))
  {
    var m' := AddTask(m, ap, s);
    if s.Ready? {
      SetReadyKeeps(m, ap);
      SameCore(SetReady(m, ap), m');
    } else if !At(m, ap).state.Shutdown? {
      var i := Find(m.queue, ap);
      if i == |m.queue| {
        NewHeadKeeps(m, ap, s);
        SameCore(m.(queue := m'.queue), m');
      } else {
        EnqueuedKeeps(m, i, s, ShuttingDown(At(m, ap).state));
        SameCore(m.(queue := m'.queue), m');
      }
    }
  }

  lemma {:induction false} KeepShutdownSelects(p: seq<Task>, ap: Point)
    requires WaitingOk(p, ap)
    ensures WaitingOk(KeepShutdown(p), ap)
    ensures forall t :: t in KeepShutdown(p) <==> t in p && ShuttingDown(t.state)
  {
    if p == [] {
    } else {
      assert WaitingOk(p[1..], ap);
      KeepShutdownSelects(p[1..], ap);
      var r := KeepShutdown(p[1..]);
      if ShuttingDown(p[0].state) {
        assert KeepShutdown(p) == [p[0]] + r;
        forall k | 0 <= k < |r| ensures r[k].state != p[0].state {
          assert r[k] in p[1..];
        }
      } else {
        assert KeepShutdown(p) == r;
      }
    }
  }

  lemma HeadStrip(q: seq<Entry>, ap: Point)
    requires OneHead(q)
    ensures OneHead(StripAll(q, ap))
    ensures forall p :: HeadOf(StripAll(q, ap), p) ==
                        (var h := HeadOf(q, p); if h.Some? then Some(Strip(h.value, ap)) else None)
  {
    forall p ensures Find(StripAll(q, ap), p) == Find(q, p) {
      FindIs(StripAll(q, ap), p, Find(q, p));
    }
  }

  lemma StripKeeps(e: Entry, ap: Point)
    requires EntryOk(e, ap)
    ensures EntryOk(Strip(e, ap), ap)
    ensures Strip(e, ap).task.(cancel := e.task.cancel) == e.task
  {
    KeepShutdownSelects(e.pending, ap);
  }

  lemma RemoveTasksKeeps(m: Machine, ap: Point)
    requires Core(m)
    ensures Core(RemoveTasks(m, ap))
  {
    if m.queue != [] {
      var m' := m.(queue := StripAll(m.queue, ap));
      HeadStrip(m.queue, ap);
      assert PointInv(m, ap);
      if HeadOf(m.queue, ap).Some? {
        StripKeeps(HeadOf(m.queue, ap).value, ap);
      }
      HeadEdit(m, m'.queue, ap);
      SameCore(m', RemoveTasks(m, ap));
    }
  }

  // ----- workers that end

  /** After a worker of `ap` ends: its head is done and the point is at rest. */
  lemma SetDoneKeeps(m: Machine, m': Machine, w: Thread, ap: Point)
    requires Core(m) && w in m.workers && m.workers[w].ap == ap
    requires m'.queue == SetDone(m.queue, ap) && m'.workers == m.workers - {w}
    requires forall p :: p != ap ==> At(m', p) == At(m, p)
    requires AtRest(At(m', ap))
    requires m'.cancelled == m.cancelled && m'.faults == m.faults
    ensures Core(m')
    ensures var h := HeadOf(m'.queue, ap); h.Some? && h.value.task.done
  {
    assert PointInv(m, ap) && WorkerInv(m, w);
    var i := Find(m.queue, ap);
    HeadUpdate(m.queue, i, m.queue[i].(task := m.queue[i].task.(done := true)));
    OnePoint(m, m', ap) by {
      forall v | v in m'.workers ensures m'.workers[v].ap != ap {
        assert WorkerInv(m, v);
      }
    }
  }

  lemma ReadmapDoneKeeps(m: Machine, w: Thread, ap: Point)
    requires Core(m) && w in m.workers && m.workers[w] == ReadmapWorker(ap)
    ensures Core(ReadmapDone(m, w, ap))
  {
    assert PointInv(m, ap) && WorkerInv(m, w);
    SetDoneKeeps(m, ReadmapDone(m, w, ap), w, ap);
  }

  /** The machine after an expire worker has cleared exp_thread and marked its task done,
      with the state it is about to move to. */
  function Finishing(m: Machine, w: Thread, ap: Point, s: State): Machine {
    SetAp(m, ap, At(m, ap).(expThread := 0, state := s)).(
      queue := SetDone(m.queue, ap), workers := m.workers - {w})
  }

  lemma ExpireWorkerState(m: Machine, w: Thread, ap: Point)
    requires Core(m) && w in m.workers && m.workers[w] == ExpireWorker(ap)
    ensures At(m, ap).expThread == w
    ensures At(m, ap).state in {Expire, Prune, Ready, ShutdownPending, ShutdownForce}
  {
    assert PointInv(m, ap) && WorkerInv(m, w);
  }

  /** What a finishing expire worker does, for each request it can make. */
  lemma ExpireDoneIs(m: Machine, w: Thread, ap: Point, r: Ending)
    requires At(m, ap).expThread == w
    requires NextState(At(m, ap), r).Ask?
    ensures var s := At(m, ap).state;
            var n := NextState(At(m, ap), r).state;
            ExpireDone(m, w, ap, r) ==
            if n.Ready? then SetReady(Finishing(m, w, ap, Ready), ap).(signaled := true)
            else if n.Shutdown? then Finishing(m, w, ap, Shutdown)
            else AddTask(Finishing(m, w, ap, s), ap, n)
  {
    var a := At(m, ap);
    var s := a.state;
    var n := NextState(a, r).state;
    var m2 := SetAp(m, ap, a.(expThread := 0)).(queue := SetDone(m.queue, ap), workers := m.workers - {w});
    if n.Ready? {
      assert SetReady(Finishing(m, w, ap, Ready), ap).aps == SetReady(m2, ap).aps;
    } else if n.Shutdown? {
      assert Finishing(m, w, ap, Shutdown).aps == SetState(m2, ap, Shutdown).aps;
    } else {
      assert Finishing(m, w, ap, s) == m2;
    }
  }

  lemma FinishingKeeps(m: Machine, w: Thread, ap: Point, s: State)
    requires Core(m) && w in m.workers && m.workers[w] == ExpireWorker(ap)
    requires !ShuttingDown(s) && !s.Readmap?
    ensures Core(Finishing(m, w, ap, s))
    ensures var h := HeadOf(Finishing(m, w, ap, s).queue, ap); h.Some? && h.value.task.done
  {
    assert PointInv(m, ap) && WorkerInv(m, w);
    SetDoneKeeps(m, Finishing(m, w, ap, s), w, ap);
  }

  // ----- the handler's walks

  /** What a successful start changes. */
  lemma StartIs(m: Machine, i: nat, env: nat -> Thread)
    requires OneHead(m.queue) && i < |m.queue| && StartHead(m, i, env).1
    ensures var m' := StartHead(m, i, env).0; var e := m.queue[i]; var ap := e.task.ap; var w := env(m.creates);
            && w != 0 && w !in m.workers
            && m'.queue == m.queue[i := e.(task := e.task.(busy := true, thid := w))]
            && m'.workers == m.workers[w := WorkerOf(e.task)]
            && m'.cancelled == m.cancelled
            && (forall p :: p != ap ==> At(m', p) == At(m, p))
            && (if e.task.state.Readmap?
                then At(m', ap) == At(m, ap).(state := Readmap, readmapThread := w)
                else At(m', ap) == At(m, ap).(state := e.task.state, expThread := w))
            && m'.faults == (if (if e.task.state.Readmap? then At(m, ap).readmapThread else At(m, ap).expThread) == 0
                             then m.faults else m.faults + 1)
  {
    var e := m.queue[i];
    var b := e.(task := e.task.(busy := true));
    HeadUpdate(m.queue, i, b);
    HeadAt(m.queue[i := b], i);
  }

  /** A head that starts gets the only worker of its point. */
  lemma StartKeeps(m: Machine, i: nat, env: nat -> Thread)
    requires Core(m) && i < |m.queue| && !m.queue[i].task.busy
    requires StartHead(m, i, env).1
    ensures Core(StartHead(m, i, env).0)
    ensures var m' := StartHead(m, i, env).0;
            |m'.queue| == |m.queue| && m'.queue == m.queue[i := m'.queue[i]] && m'.queue[i].task.busy
  {
    HeadAt(m.queue, i);
    StartIs(m, i, env);
    var e := m.queue[i];
    assert PointInv(m, e.task.ap);
    HeadUpdate(m.queue, i, e.(task := e.task.(busy := true, thid := env(m.creates))));
    OnePoint(m, StartHead(m, i, env).0, e.task.ap) by {
      forall v | v in m.workers ensures m.workers[v].ap != e.task.ap {
        assert WorkerInv(m, v);
      }
    }
  }

  /** A head that does not start leaves its point at rest and has no worker. */
  lemma FailedStart(m: Machine, i: nat, env: nat -> Thread)
    requires Core(m) && i < |m.queue| && !m.queue[i].task.busy
    requires !StartHead(m, i, env).1
    ensures var m1 := StartHead(m, i, env).0; var e := m.queue[i]; var ap := e.task.ap;
            && m1.queue == m.queue[i := e.(task := e.task.(busy := true))]
            && m1.workers == m.workers && m1.cancelled == m.cancelled && m1.faults == 0
            && AtRest(At(m1, ap)) && (forall p :: p != ap ==> At(m1, p) == At(m, p))
            && (forall v :: v in m.workers ==> m.workers[v].ap != ap)
            && WaitingOk(e.pending, ap)
  {
    HeadAt(m.queue, i);
    assert PointInv(m, m.queue[i].task.ap);
    forall v | v in m.workers ensures m.workers[v].ap != m.queue[i].task.ap {
      assert WorkerInv(m, v);
    }
  }

  /** A head with no running worker is unlinked, and its first waiting task takes its place. */
  lemma HandOverKeeps(m: Machine, m': Machine, i: nat, e: Entry)
    requires Core(m) && i < |m.queue|
    requires e.task.ap == m.queue[i].task.ap && e.pending == m.queue[i].pending
    requires !Running(Some(m.queue[i]))
    requires m'.queue == HandOver(m.queue[i := e], i).0 || m'.queue == Drop(m.queue[i := e], i)
    requires m'.workers == m.workers && m'.cancelled == m.cancelled && m'.faults == m.faults
    requires AtRest(At(m', e.task.ap)) && forall p :: p != e.task.ap ==> At(m', p) == At(m, p)
    ensures Core(m')
  {
    HeadAt(m.queue, i);
    assert PointInv(m, e.task.ap);
    HeadUpdate(m.queue, i, e);
    HeadHandOver(m.queue[i := e], i);
    HeadDrop(m.queue[i := e], i);
    OnePoint(m, m', e.task.ap) by {
      forall v | v in m.workers ensures m.workers[v].ap != e.task.ap {
        assert WorkerInv(m, v);
      }
    }
  }

  lemma CancelKeeps(m: Machine, i: nat)
    requires Core(m) && i < |m.queue| && m.queue[i].task.cancel
    ensures var t := m.queue[i].task;
            Core(m.(queue := m.queue[i := m.queue[i].(task := t.(cancel := false))], cancelled := m.cancelled + [t]))
  {
    HeadAt(m.queue, i);
    var e := m.queue[i];
    assert PointInv(m, e.task.ap);
    HeadUpdate(m.queue, i, e.(task := e.task.(cancel := false)));
    var q := m.queue[i := e.(task := e.task.(cancel := false))];
    HeadEdit(m, q, e.task.ap);
    SameCore(m.(queue := q), m.(queue := q, cancelled := m.cancelled + [e.task]));
  }

  lemma VisitKeeps(m: Machine, i: nat, env: nat -> Thread)
    requires Core(m) && i < |m.queue|
    ensures Core(Visit(m, i, env).0)
  {
    HeadAt(m.queue, i);
    var t := m.queue[i].task;
    assert PointInv(m, t.ap);
    if !t.busy {
      if StartHead(m, i, env).1 {
        StartKeeps(m, i, env);
      } else {
        FailedStart(m, i, env);
        HandOverKeeps(m, Visit(m, i, env).0, i, StartHead(m, i, env).0.queue[i]);
      }
    } else if t.cancel {
      CancelKeeps(m, i);
    } else if t.done {
      assert m.queue[i := m.queue[i]] == m.queue;
      HandOverKeeps(m, Visit(m, i, env).0, i, m.queue[i]);
    }
  }

  /** A walk keeps the invariant and leaves every remaining head started, including the
      heads promoted on the way. */
  lemma {:induction false} WalkKeeps(m: Machine, i: nat, env: nat -> Thread)
    requires Core(m) && i <= |m.queue|
    requires forall j :: 0 <= j < i ==> m.queue[j].task.busy
    ensures Core(Walk(m, i, env))
    ensures AllStarted(Walk(m, i, env).queue)
    decreases Total(m.queue), |m.queue| - i
  {
    if i >= |m.queue| {
    } else {
      VisitProgress(m, i, env);
      VisitKeeps(m, i, env);
      VisitPrefix(m, i, env);
      var (m', j) := Visit(m, i, env);
      WalkKeeps(m', j, env);
    }
  }

  lemma VisitPrefix(m: Machine, i: nat, env: nat -> Thread)
    requires Core(m) && i < |m.queue|
    requires forall j :: 0 <= j < i ==> m.queue[j].task.busy
    ensures var (m', k) := Visit(m, i, env); k <= |m'.queue| && forall j :: 0 <= j < k ==> m'.queue[j].task.busy
  {
    VisitProgress(m, i, env);
    HeadAt(m.queue, i);
    assert PointInv(m, m.queue[i].task.ap);
    if !m.queue[i].task.busy {
      if StartHead(m, i, env).1 {
        StartKeeps(m, i, env);
      } else {
        FailedStart(m, i, env);
      }
    }
  }

  predicate StartedUpTo(q: seq<Entry>, i: nat) {
    forall j :: 0 <= j < |q| ==> (q[j].task.busy <==> j < i)
  }

  lemma FirstStepKeeps(m: Machine, i: nat, env: nat -> Thread)
    requires Core(m) && i < |m.queue| && StartedUpTo(m.queue, i)
    ensures !m.queue[i].task.cancel
    ensures var (m1, ok) := StartHead(m, i, env);
            && |m1.queue| == |m.queue|
            && if ok then Core(m1) && StartedUpTo(m1.queue, i + 1)
               else Core(m1.(queue := Drop(m1.queue, i))) && StartedUpTo(Drop(m1.queue, i), i)
  {
    HeadAt(m.queue, i);
    assert PointInv(m, m.queue[i].task.ap);
    var (m1, ok) := StartHead(m, i, env);
    if ok {
      StartKeeps(m, i, env);
    } else {
      FailedFirstStart(m, i, env);
    }
  }

  lemma FailedFirstStart(m: Machine, i: nat, env: nat -> Thread)
    requires Core(m) && i < |m.queue| && StartedUpTo(m.queue, i) && !StartHead(m, i, env).1
    ensures var m1 := StartHead(m, i, env).0;
            |m1.queue| == |m.queue| && Core(m1.(queue := Drop(m1.queue, i))) && StartedUpTo(Drop(m1.queue, i), i)
  {
    FailedStart(m, i, env);
    var m1 := StartHead(m, i, env).0;
    assert m1.queue[i].task.ap == m.queue[i].task.ap && m1.queue[i].pending == m.queue[i].pending;
    HandOverKeeps(m, m1.(queue := Drop(m1.queue, i)), i, m1.queue[i]);
    DropStarted(m1.queue, m.queue, i);
  }

  lemma DropStarted(q1: seq<Entry>, q: seq<Entry>, i: nat)
    requires i < |q| && StartedUpTo(q, i) && |q1| == |q| && q1 == q[i := q1[i]]
    ensures StartedUpTo(Drop(q1, i), i)
  {
    var r := Drop(q1, i);
    assert forall j :: 0 <= j < |r| ==> r[j] == if j < i then q[j] else q[j + 1];
  }

  lemma {:induction false} FirstWalkKeeps(m: Machine, i: nat, env: nat -> Thread)
    requires Core(m) && i <= |m.queue| && StartedUpTo(m.queue, i)
    ensures Core(FirstWalk(m, i, env))
    ensures AllStarted(FirstWalk(m, i, env).queue)
    decreases |m.queue| - i
  {
    if i >= |m.queue| {
    } else {
      FirstStepKeeps(m, i, env);
      var (m1, ok) := StartHead(m, i, env);
      if ok {
        FirstWalkKeeps(m1, i + 1, env);
      } else {
        FirstWalkKeeps(m1.(queue := Drop(m1.queue, i)), i, env);
      }
    }
  }
}
