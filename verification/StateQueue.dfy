/** The task queue of the automounter daemon (daemon/state.c).

    One global list holds at most one head task per autofs point; later requests
    for the same point wait behind the head.  A handler thread starts heads by
    creating worker threads, and a worker reports back under the queue mutex when
    it ends.  This module gives the queue as an immutable value and each critical
    section as a function on it; `StateQueueInvariant` and `StateQueueRuns` prove
    what every interleaving keeps, `StateQueueLoops` gives the list-walking code.
 */
module StateQueue {

  type Point = nat

  /** A thread identifier; 0 is "no thread". */
  type Thread = nat

  datatype State =
    | Init | Ready | Expire | Prune | Readmap
    | ShutdownPending | ShutdownForce | Shutdown

  /** The states a queued task can ask for. */
  predicate Queueable(s: State) {
    s.Expire? || s.Prune? || s.Readmap? || s.ShutdownPending? || s.ShutdownForce?
  }

  predicate ShuttingDown(s: State) {
    s.ShutdownPending? || s.ShutdownForce?
  }

  /** The tasks st_remove_tasks may cancel while they run. */
  predicate Cancellable(s: State) {
    s.Expire? || s.Prune? || s.Readmap?
  }

  datatype Task = Task(ap: Point, state: State, thid: Thread, busy: bool, done: bool, cancel: bool)

  /** A head task with the list of tasks waiting behind it. */
  datatype Entry = Entry(task: Task, pending: seq<Task>)

  /** The part of an autofs point that the queue mutex protects. */
  datatype Ap = Ap(state: State, shutdown: bool, expThread: Thread, readmapThread: Thread)

  /** A live worker thread: expire_proc_direct/indirect, or do_readmap. */
  datatype Worker = ExpireWorker(ap: Point) | ReadmapWorker(ap: Point)

  /** `idle` tells in which of its two condition waits the handler sleeps;
      `creates` counts thread creations, `cancelled` logs the tasks whose thread
      was cancelled and `faults` counts failed thread and shutdown assertions.
   */
  datatype Machine = Machine(
    queue: seq<Entry>,
    aps: map<Point, Ap>,
    signaled: bool,
    idle: bool,
    workers: map<Thread, Worker>,
    creates: nat,
    cancelled: seq<Task>,
    faults: nat)

  const FRESH_POINT := Ap(Init, false, 0, 0)

  const START := Machine([], map[], false, true, map[], 0, [], 0)

  function At(m: Machine, ap: Point): Ap {
    if ap in m.aps then m.aps[ap] else FRESH_POINT
  }

  function NewTask(ap: Point, s: State): Task {
    Task(ap, s, 0, false, false, false)
  }

  /** Index of the head of `ap`, or the queue length when it has none. */
  function Find(q: seq<Entry>, ap: Point): (i: nat)
    ensures i <= |q|
    ensures i < |q| ==> q[i].task.ap == ap
    ensures forall j :: 0 <= j < i ==> q[j].task.ap != ap
  {
    if q == [] then 0
    else if q[0].task.ap == ap then 0
    else
      var r := Find(q[1..], ap);
      assert forall j :: 0 <= j < |q| - 1 ==> q[1..][j] == q[j + 1];
      assert forall j :: 1 <= j < r + 1 ==> q[j] == q[1..][j - 1];
      r + 1
  }

  predicate Waiting(pending: seq<Task>, s: State) {
    exists k :: 0 <= k < |pending| && pending[k].state == s
  }

  /** Number of tasks held, heads and waiting ones alike. */
  function Total(q: seq<Entry>): nat {
    if q == [] then 0 else 1 + |q[0].pending| + Total(q[1..])
  }

  function SetAp(m: Machine, ap: Point, a: Ap): Machine {
    m.(aps := m.aps[ap := a])
  }

  function SetReady(m: Machine, ap: Point): Machine {
    SetAp(m, ap, At(m, ap).(state := Ready, shutdown := false))
  }

  function SetState(m: Machine, ap: Point, s: State): Machine {
    SetAp(m, ap, At(m, ap).(state := s))
  }

  // ----- adding and removing tasks

  /** One more waiting task, unless the request duplicates one or the point is shutting down. */
  function Enqueue(e: Entry, s: State, shutting: bool): Entry {
    if (e.task.state == s && !e.task.done) || shutting || Waiting(e.pending, s) then e
    else e.(pending := e.pending + [NewTask(e.task.ap, s)])
  }

  /** __st_add_task */
  function AddTask(m: Machine, ap: Point, s: State): Machine {
    if s.Ready? then SetReady(m, ap).(signaled := true)
    else if At(m, ap).state.Shutdown? then m
    else if s.Shutdown? then
      var ok := ShuttingDown(At(m, ap).state);
      SetState(m, ap, Shutdown).(faults := if ok then m.faults else m.faults + 1)
    else
      var i := Find(m.queue, ap);
      var q := if i == |m.queue| then [Entry(NewTask(ap, s), [])] + m.queue
               else m.queue[i := Enqueue(m.queue[i], s, ShuttingDown(At(m, ap).state))];
      m.(queue := q, signaled := true)
  }

  function KeepShutdown(pending: seq<Task>): seq<Task> {
    if pending == [] then []
    else (if ShuttingDown(pending[0].state) then [pending[0]] else []) + KeepShutdown(pending[1..])
  }

  function Strip(e: Entry, ap: Point): Entry {
    if e.task.ap != ap then e
    else Entry(if e.task.busy && Cancellable(e.task.state) then e.task.(cancel := true) else e.task,
               KeepShutdown(e.pending))
  }

  function StripAll(q: seq<Entry>, ap: Point): seq<Entry> {
    seq(|q|, i requires 0 <= i < |q| => Strip(q[i], ap))
  }

  /** st_remove_tasks */
  function RemoveTasks(m: Machine, ap: Point): Machine {
    if m.queue == [] then m
    else m.(queue := StripAll(m.queue, ap), signaled := true)
  }

  // ----- starting and finishing workers

  /** pthread_create: never the identifier of a live thread, so an oracle value that is 0
      or live stands for failure (as does running out of memory for the arguments). */
  function Create(m: Machine, env: nat -> Thread): Thread {
    var t := env(m.creates);
    if t in m.workers then 0 else t
  }

  function SetThid(q: seq<Entry>, ap: Point, t: Thread): seq<Entry> {
    var i := Find(q, ap);
    if i == |q| then q else q[i := q[i].(task := q[i].task.(thid := t))]
  }

  function SetDone(q: seq<Entry>, ap: Point): seq<Entry> {
    var i := Find(q, ap);
    if i == |q| then q else q[i := q[i].(task := q[i].task.(done := true))]
  }

  function WorkerOf(t: Task): Worker {
    if t.state.Readmap? then ReadmapWorker(t.ap) else ExpireWorker(t.ap)
  }

  /** The body of st_readmap, or of the four functions that call expire_proc:
      the new machine, and whether the worker runs. */
  function Launch(m: Machine, t: Task, env: nat -> Thread): (Machine, bool) {
    var ap := t.ap;
    var a := At(m, ap).(state := t.state);
    var thread := if t.state.Readmap? then a.readmapThread else a.expThread;
    var m1 := SetAp(m, ap, a).(faults := if thread == 0 then m.faults else m.faults + 1,
                               creates := m.creates + 1);
    var w := Create(m, env);
    if w == 0 then (SetReady(m1, ap), false)
    else
      var a' := if t.state.Readmap? then a.(readmapThread := w) else a.(expThread := w);
      (SetAp(m1, ap, a').(queue := SetThid(m1.queue, ap, w), workers := m1.workers[w := WorkerOf(t)]), true)
  }

  /** Mark the head at `i` busy and run_state_task it. */
  function StartHead(m: Machine, i: nat, env: nat -> Thread): (r: (Machine, bool))
    requires i < |m.queue|
  {
    var e := m.queue[i];
    var m1 := m.(queue := m.queue[i := e.(task := e.task.(busy := true))]);
    if e.task.state == At(m, e.task.ap).state || !Queueable(e.task.state) then (m1, false)
    else Launch(m1, e.task, env)
  }

  datatype Ending = Ending(
    status: int, submount: bool, askFailed: bool, idle: bool, ignoreBusy: bool)

  datatype Request = NoRequest | Ask(state: State)

  /** expire_cleanup: the state the finishing expire worker asks for; none in a "bad state". */
  function NextState(a: Ap, r: Ending): Request {
    match a.state
    case Expire | Prune =>
      if r.submount && r.status == 0 && !r.askFailed && r.idle then Ask(ShutdownPending) else Ask(Ready)
    case Ready => Ask(Ready)
    case ShutdownPending =>
      if !r.askFailed && !r.idle && !a.shutdown then Ask(Ready)
      else if r.ignoreBusy || r.status == 0 then Ask(Shutdown)
      else Ask(Ready)
    case ShutdownForce => Ask(Shutdown)
    case _ => NoRequest
  }

  /** expire_cleanup, run by the thread `w` working on `ap` */
  function ExpireDone(m: Machine, w: Thread, ap: Point, r: Ending): Machine {
    var a := At(m, ap);
    var mine := a.expThread == w;
    var m1 := if mine then SetAp(m, ap, a.(expThread := 0)) else m;
    var m2 := m1.(queue := SetDone(m1.queue, ap), workers := m1.workers - {w});
    var n := if mine then NextState(a, r) else NoRequest;
    if n.NoRequest? then m2 else AddTask(m2, ap, n.state)
  }

  /** do_readmap_cleanup */
  function ReadmapDone(m: Machine, w: Thread, ap: Point): Machine {
    var m1 := SetAp(m, ap, At(m, ap).(readmapThread := 0));
    SetReady(m1.(queue := SetDone(m1.queue, ap), workers := m1.workers - {w}), ap)
  }

  // ----- the handler

  function Drop(q: seq<Entry>, i: nat): seq<Entry>
    requires i < |q|
  {
    q[..i] + q[i + 1..]
  }

  /** Unlink the head at `i`; its first waiting task, alone, becomes a head at the end of
      the queue.  The second result is where the walk goes on: an exhausted walk restarts. */
  function HandOver(q: seq<Entry>, i: nat): (r: (seq<Entry>, nat))
    requires i < |q|
  {
    if q[i].pending == [] then (Drop(q, i), i)
    else (Drop(q, i) + [Entry(q[i].pending[0], [])], if i + 1 == |q| then 0 else i)
  }

  /** One iteration of the handler's walk over a non-empty queue. */
  function Visit(m: Machine, i: nat, env: nat -> Thread): (r: (Machine, nat))
    requires i < |m.queue|
  {
    var t := m.queue[i].task;
    if t.thid == 0 && t.cancel then
      var (q, j) := HandOver(m.queue, i);
      (m.(queue := q), j)
    else if !t.busy then
      var (m1, ok) := StartHead(m, i, env);
      if ok then (m1, i + 1)
      else
        StartHeadKeepsShape(m, i, env);
        var (q, j) := HandOver(m1.queue, i);
        (m1.(queue := q), j)
    else if t.thid == 0 then (m, i + 1)
    else if t.cancel then
      (m.(queue := m.queue[i := m.queue[i].(task := t.(cancel := false))], cancelled := m.cancelled + [t]), i + 1)
    else if !t.done then (m, i + 1)
    else
      var (q, j) := HandOver(m.queue, i);
      (m.(queue := q), j)
  }

  /** The same heads in the same order, with the same waiting tasks. */
  predicate SameShape(q: seq<Entry>, q': seq<Entry>) {
    && |q| == |q'|
    && (forall j :: 0 <= j < |q| ==> q[j].pending == q'[j].pending)
    && (forall j :: 0 <= j < |q| ==> q[j].task.ap == q'[j].task.ap && q[j].task.state == q'[j].task.state)
  }

  lemma StartHeadKeepsShape(m: Machine, i: nat, env: nat -> Thread)
    requires i < |m.queue|
    ensures SameShape(StartHead(m, i, env).0.queue, m.queue)
    ensures Total(StartHead(m, i, env).0.queue) == Total(m.queue)
  {
    var e := m.queue[i];
    var q1 := m.queue[i := e.(task := e.task.(busy := true))];
    var q := StartHead(m, i, env).0.queue;
    assert q == q1 || exists w :: q == SetThid(q1, e.task.ap, w);
    SetThidKeepsShape(q1, e.task.ap);
    TotalDependsOnPending(q, m.queue);
  }

  lemma SetThidKeepsShape(q: seq<Entry>, ap: Point)
    ensures forall w :: SameShape(SetThid(q, ap, w), q)
  {
  }

  lemma TotalDependsOnPending(q: seq<Entry>, q': seq<Entry>)
    requires |q| == |q'|
    requires forall j :: 0 <= j < |q| ==> q[j].pending == q'[j].pending
    ensures Total(q) == Total(q')
  {
  }

  lemma {:induction false} TotalAppend(q: seq<Entry>, q': seq<Entry>)
    ensures Total(q + q') == Total(q) + Total(q')
  {
    if q == [] {
      assert q + q' == q';
    } else {
      assert (q + q')[1..] == q[1..] + q';
      TotalAppend(q[1..], q');
    }
  }

  /** A hand-over loses the head and every waiting task but the first, which is why the
      restarting walk ends: exactly one task if and only if at most one was waiting. */
  lemma HandOverLoses(q: seq<Entry>, i: nat)
    requires i < |q|
    ensures Total(HandOver(q, i).0) == Total(q) - (if q[i].pending == [] then 1 else |q[i].pending|)
    ensures Total(HandOver(q, i).0) == Total(q) - 1 <==> |q[i].pending| <= 1
    ensures HandOver(q, i).1 <= |HandOver(q, i).0|
  {
    assert q == q[..i] + ([q[i]] + q[i + 1..]);
    TotalAppend(q[..i], [q[i]] + q[i + 1..]);
    TotalAppend([q[i]], q[i + 1..]);
    TotalAppend(q[..i], q[i + 1..]);
    if q[i].pending != [] {
      TotalAppend(Drop(q, i), [Entry(q[i].pending[0], [])]);
      assert Total([Entry(q[i].pending[0], [])]) == 1;
    }
    assert Total([q[i]]) == 1 + |q[i].pending| by { assert [q[i]][1..] == []; }
  }

  predicate Progress(q: seq<Entry>, i: nat, q': seq<Entry>, j: nat) {
    && j <= |q'|
    && (Total(q') < Total(q) || (Total(q') == Total(q) && |q'| == |q| && j == i + 1))
  }

  lemma CancelSeenShape(q: seq<Entry>, i: nat, t: Task)
    requires i < |q|
    ensures Total(q[i := q[i].(task := t)]) == Total(q)
  {
    TotalDependsOnPending(q[i := q[i].(task := t)], q);
  }

  /** The measure of the walk: fewer tasks, or as many and nearer to the end. */
  lemma VisitProgress(m: Machine, i: nat, env: nat -> Thread)
    requires i < |m.queue|
    ensures Progress(m.queue, i, Visit(m, i, env).0.queue, Visit(m, i, env).1)
  {
    var t := m.queue[i].task;
    if !(t.thid == 0 && t.cancel) && !t.busy {
      StartHeadKeepsShape(m, i, env);
      HandOverLoses(StartHead(m, i, env).0.queue, i);
    } else {
      HandOverLoses(m.queue, i);
      CancelSeenShape(m.queue, i, t.(cancel := false));
    }
  }

  /** The handler's walk from position `i` to the end of the queue. */
  function Walk(m: Machine, i: nat, env: nat -> Thread): Machine
    decreases Total(m.queue), |m.queue| - i
  {
    if i >= |m.queue| then m
    else
      VisitProgress(m, i, env);
      var (m', j) := Visit(m, i, env);
      Walk(m', j, env)
  }

  /** The first walk after the queue was empty: a head that does not start is freed
      together with the tasks waiting behind it. */
  function FirstWalk(m: Machine, i: nat, env: nat -> Thread): Machine
    decreases |m.queue| - i
  {
    if i >= |m.queue| then m
    else if m.queue[i].task.cancel then FirstWalk(m.(queue := Drop(m.queue, i)), i, env)
    else
      StartHeadKeepsShape(m, i, env);
      var (m1, ok) := StartHead(m, i, env);
      if ok then FirstWalk(m1, i + 1, env)
      else FirstWalk(m1.(queue := Drop(m1.queue, i)), i, env)
  }

  /** st_queue_handler from one condition wait to the next. */
  function Wake(m: Machine, env: nat -> Thread): Machine {
    if m.idle then
      if m.queue == [] then m
      else FirstWalk(m, 0, env).(idle := false, signaled := false)
    else if !m.signaled then m
    else
      var m' := Walk(m, 0, env);
      if m'.queue == [] then m'.(idle := true) else m'.(idle := false, signaled := false)
  }
}
