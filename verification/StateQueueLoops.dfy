/** The list-walking code of daemon/state.c, proved to compute the functions of `StateQueue`.

    The intrusive lists are sequences; a cursor is an index, and "p == head" is reaching
    the length.
 */
module StateQueueLoops {
  import opened StateQueue

  class TaskQueue {
    var queue: seq<Entry>
    var aps: map<Point, Ap>
    var signaled: bool
    var idle: bool
    var workers: map<Thread, Worker>
    var creates: nat
    var cancelled: seq<Task>
    var faults: nat

    constructor ()
      ensures Abs() == START
    {
      queue, aps, signaled, idle := [], map[], false, true;
      workers, creates, cancelled, faults := map[], 0, [], 0;
    }

    ghost function Abs(): Machine
      reads this
    {
      Machine(queue, aps, signaled, idle, workers, creates, cancelled, faults)
    }

    function Get(ap: Point): Ap
      reads this
    {
      if ap in aps then aps[ap] else FRESH_POINT
    }

    /** st_ready */
    method StReady(ap: Point)
      modifies this`aps
      ensures Abs() == SetReady(old(Abs()), ap)
    {
      aps := aps[ap := Get(ap).(state := Ready, shutdown := false)];
    }

    /** __st_add_task */
    method StAddTask(ap: Point, s: State)
      modifies this`aps, this`queue, this`signaled, this`faults
      ensures Abs() == AddTask(old(Abs()), ap, s)
    {
      if s.Ready? {
        StReady(ap);
        signaled := true;
        return;
      }
      if Get(ap).state.Shutdown? {
        return;
      }
      if s.Shutdown? {
        if !ShuttingDown(Get(ap).state) {
          faults := faults + 1;
        }
        aps := aps[ap := Get(ap).(state := Shutdown)];
        return;
      }
      QueueRequest(ap, s, ShuttingDown(Get(ap).state));
      signaled := true;
    }

    /** The loop over the waiting tasks of a head. */
    method IsWaiting(pending: seq<Task>, s: State) returns (found: bool)
      ensures found <==> Waiting(pending, s)
    {
      var k := 0;
      while k < |pending|
        invariant 0 <= k <= |pending|
        invariant forall j :: 0 <= j < k ==> pending[j].state != s
      {
        if pending[k].state == s {
          return true;
        }
        k := k + 1;
      }
      return false;
    }

    /** The loop of __st_add_task: behind the point's head, or as a new head at the front */
    method QueueRequest(ap: Point, s: State, shutting: bool)
      modifies this`queue
      ensures var i := Find(old(queue), ap);
        queue == if i == |old(queue)| then [Entry(NewTask(ap, s), [])] + old(queue)
                 else old(queue)[i := Enqueue(old(queue)[i], s, shutting)]
    {
      var i := 0;
      while i < |queue|
        invariant 0 <= i <= |queue| && queue == old(queue)
        invariant forall j :: 0 <= j < i ==> queue[j].task.ap != ap
      {
        var e := queue[i];
        if e.task.ap == ap {
          FirstMatch(queue, ap, i);
          assert queue[i := e] == queue;
          if !((e.task.state == s && !e.task.done) || shutting) {
            var found := IsWaiting(e.pending, s);
            if !found {
              queue := queue[i := e.(pending := e.pending + [NewTask(ap, s)])];
            }
          }
          return;
        }
        i := i + 1;
      }
      FirstMatch(queue, ap, |queue|);
      queue := [Entry(NewTask(ap, s), [])] + queue;
    }

    /** st_remove_tasks */
    method StRemoveTasks(ap: Point)
      modifies this`queue, this`signaled
      ensures Abs() == RemoveTasks(old(Abs()), ap)
    {
      if queue == [] {
        return;
      }
      var i := 0;
      while i < |queue|
        invariant 0 <= i <= |queue| == |old(queue)|
        invariant forall j :: 0 <= j < i ==> queue[j] == Strip(old(queue)[j], ap)
        invariant forall j :: i <= j < |queue| ==> queue[j] == old(queue)[j]
      {
        var e := queue[i];
        if e.task.ap == ap {
          if e.task.busy && Cancellable(e.task.state) {
            e := e.(task := e.task.(cancel := true));
          }
          var rest, kept := e.pending, [];
          while rest != []
            invariant kept + KeepShutdown(rest) == KeepShutdown(e.pending)
            decreases |rest|
          {
            var waiting := rest[0];
            rest := rest[1..];
            if ShuttingDown(waiting.state) {
              kept := kept + [waiting];
            }
          }
          assert kept + KeepShutdown(rest) == kept;
          queue := queue[i := e.(pending := kept)];
        }
        i := i + 1;
      }
      assert queue == StripAll(old(queue), ap);
      signaled := true;
    }

    /** st_set_thid */
    method StSetThid(ap: Point, t: Thread)
      modifies this`queue
      ensures queue == SetThid(old(queue), ap, t)
    {
      var i := 0;
      while i < |queue|
        invariant 0 <= i <= |queue|
        invariant forall j :: 0 <= j < i ==> queue[j].task.ap != ap
        invariant queue == old(queue)
      {
        if queue[i].task.ap == ap {
          FirstMatch(queue, ap, i);
          queue := queue[i := queue[i].(task := queue[i].task.(thid := t))];
          return;
        }
        i := i + 1;
      }
      FirstMatch(queue, ap, i);
    }

    /** st_set_done */
    method StSetDone(ap: Point)
      modifies this`queue
      ensures queue == SetDone(old(queue), ap)
    {
      var i := 0;
      while i < |queue|
        invariant 0 <= i <= |queue|
        invariant forall j :: 0 <= j < i ==> queue[j].task.ap != ap
        invariant queue == old(queue)
      {
        if queue[i].task.ap == ap {
          FirstMatch(queue, ap, i);
          queue := queue[i := queue[i].(task := queue[i].task.(done := true))];
          return;
        }
        i := i + 1;
      }
      FirstMatch(queue, ap, i);
    }

    /** pthread_create under the queue mutex */
    method ThreadCreate(env: nat -> Thread) returns (t: Thread)
      modifies this`creates
      ensures t == Create(old(Abs()), env) && creates == old(creates) + 1
    {
      t := env(creates);
      if t in workers {
        t := 0;
      }
      creates := creates + 1;
    }

    /** st_expire, st_prune, st_prepare_shutdown, st_force_shutdown and st_readmap: set the
        state, then create the worker or return to ready. */
    method LaunchWorker(task: Task, env: nat -> Thread) returns (ok: bool)
      modifies this`aps, this`queue, this`workers, this`creates, this`faults
      ensures (Abs(), ok) == Launch(old(Abs()), task, env)
    {
      var ap := task.ap;
      aps := aps[ap := Get(ap).(state := task.state)];
      if (if task.state.Readmap? then Get(ap).readmapThread else Get(ap).expThread) != 0 {
        faults := faults + 1;
      }
      var t := ThreadCreate(env);
      if t == 0 {
        StReady(ap);
        return false;
      }
      if task.state.Readmap? {
        aps := aps[ap := Get(ap).(readmapThread := t)];
      } else {
        aps := aps[ap := Get(ap).(expThread := t)];
      }
      StSetThid(ap, t);
      workers := workers[t := WorkerOf(task)];
      return true;
    }

    /** run_state_task, after the task was marked busy */
    method RunStateTask(i: nat, env: nat -> Thread) returns (ok: bool)
      requires i < |queue|
      modifies this`aps, this`queue, this`workers, this`creates, this`faults
      ensures (Abs(), ok) == StartHead(old(Abs()), i, env)
    {
      var task := queue[i].task;
      queue := queue[i := queue[i].(task := task.(busy := true))];
      if task.state == Get(task.ap).state || !Queueable(task.state) {
        return false;
      }
      ok := LaunchWorker(task, env);
    }

    /** Unlink the head at `p`, promoting its first waiting task to the end of the queue;
        returns the cursor's new position. */
    method Unlink(p: nat) returns (next: nat)
      requires p < |queue|
      modifies this`queue
      ensures (queue, next) == HandOver(old(queue), p)
    {
      next := p;
      if queue[p].pending == [] {
        queue := queue[..p] + queue[p + 1..];
      } else {
        var last := p + 1 == |queue|;
        queue := queue[..p] + queue[p + 1..] + [Entry(queue[p].pending[0], [])];
        if last {
          next := 0;
        }
      }
    }

    /** One iteration of the handler's inner loop. */
    method HandlerVisit(p: nat, env: nat -> Thread) returns (next: nat)
      requires p < |queue|
      modifies this`aps, this`queue, this`workers, this`creates, this`faults, this`cancelled
      ensures (Abs(), next) == Visit(old(Abs()), p, env)
    {
      var task := queue[p].task;
      next := p + 1;
      if task.thid == 0 && task.cancel {
        next := Unlink(p);
      } else if !task.busy {
        StartHeadKeepsShape(Abs(), p, env);
        var ok := RunStateTask(p, env);
        if !ok {
          next := Unlink(p);
        }
      } else if task.thid == 0 {
        // still starting up
      } else if task.cancel {
        cancelled := cancelled + [task];
        queue := queue[p := queue[p].(task := task.(cancel := false))];
      } else if task.done {
        next := Unlink(p);
      }
    }

    /** The handler's inner loop, with its restart. */
    method HandlerWalk(env: nat -> Thread)
      modifies this`aps, this`queue, this`workers, this`creates, this`faults, this`cancelled
      ensures Abs() == Walk(old(Abs()), 0, env)
    {
      var p := 0;
      while p < |queue|
        invariant 0 <= p <= |queue|
        invariant Walk(Abs(), p, env) == Walk(old(Abs()), 0, env)
        decreases Total(queue), |queue| - p
      {
        VisitProgress(Abs(), p, env);
        p := HandlerVisit(p, env);
      }
    }

    /** The handler's loop after the queue was empty. */
    method HandlerFirstWalk(env: nat -> Thread)
      modifies this`aps, this`queue, this`workers, this`creates, this`faults
      ensures Abs() == FirstWalk(old(Abs()), 0, env)
    {
      var p := 0;
      while p < |queue|
        invariant 0 <= p <= |queue|
        invariant FirstWalk(Abs(), p, env) == FirstWalk(old(Abs()), 0, env)
        decreases |queue| - p
      {
        if queue[p].task.cancel {
          queue := queue[..p] + queue[p + 1..];
        } else {
          StartHeadKeepsShape(Abs(), p, env);
          var ok := RunStateTask(p, env);
          if ok {
            p := p + 1;
          } else {
            queue := queue[..p] + queue[p + 1..];
          }
        }
      }
    }

    /** st_queue_handler from one condition wait to the next */
    method HandlerWake(env: nat -> Thread)
      modifies this
      ensures Abs() == Wake(old(Abs()), env)
    {
      if idle {
        if queue != [] {
          HandlerFirstWalk(env);
          idle, signaled := false, false;
        }
      } else if signaled {
        HandlerWalk(env);
        if queue == [] {
          idle := true;
        } else {
          idle, signaled := false, false;
        }
      }
    }

    /** expire_cleanup */
    method ExpireCleanup(w: Thread, ap: Point, r: Ending)
      modifies this
      ensures Abs() == ExpireDone(old(Abs()), w, ap, r)
    {
      var next := NoRequest;
      if Get(ap).expThread == w {
        next := NextState(Get(ap), r);
        aps := aps[ap := Get(ap).(expThread := 0)];
      }
      StSetDone(ap);
      workers := workers - {w};
      if next.Ask? {
        StAddTask(ap, next.state);
      }
    }

    /** do_readmap_cleanup */
    method ReadmapCleanup(w: Thread, ap: Point)
      modifies this
      ensures Abs() == ReadmapDone(old(Abs()), w, ap)
    {
      aps := aps[ap := Get(ap).(readmapThread := 0)];
      StSetDone(ap);
      workers := workers - {w};
      StReady(ap);
    }
  }

  lemma FirstMatch(q: seq<Entry>, ap: Point, i: nat)
    requires i <= |q| && (i < |q| ==> q[i].task.ap == ap)
    requires forall j :: 0 <= j < i ==> q[j].task.ap != ap
    ensures Find(q, ap) == i
  {
  }
}
