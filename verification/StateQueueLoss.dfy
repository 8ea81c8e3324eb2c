/** Which queued requests a handler pass runs, keeps and discards (daemon/state.c:1050-1134).

    A pass frees a finished head, or one that does not start, together with every task that
    waits behind it except the first.
 */
module StateQueueLoss {
  import opened Options
  import opened StateQueue
  import opened StateQueueInvariant
  import opened StateQueueRuns

  // ----- what one pass does to the head of a point

  /** The task of `t`, started by a pass. */
  predicate StartedFrom(t': Task, t: Task) {
    t'.thid != 0 && t' == t.(busy := true, thid := t'.thid)
  }

  /** The head was freed: nothing is left, or its first waiting task, started and alone. */
  predicate Freed(e: Entry, h': Option<Entry>) {
    h'.None? || (e.pending != [] && h'.value.pending == [] && StartedFrom(h'.value.task, e.pending[0]))
  }

  predicate Stays(e: Entry, h': Option<Entry>) {
    h' == Some(e.(task := e.task.(cancel := false)))
  }

  /** What a pass can make of a head. */
  predicate Outcome(h: Option<Entry>, h': Option<Entry>) {
    if h.None? then h'.None?
    else
      var e := h.value;
      if !e.task.busy then
        || Freed(e, h')
        || (h'.Some? && h'.value.pending == e.pending && StartedFrom(h'.value.task, e.task))
      else if !e.task.done then Stays(e, h')
      else Freed(e, h') || (e.task.cancel && Stays(e, h'))
  }

  /** Nothing a walk would change. */
  predicate Settled(h: Option<Entry>) {
    h.None? || (h.value.task.busy && !h.value.task.cancel && !h.value.task.done)
  }

  lemma VisitOther(m: Machine, i: nat, env: nat -> Thread, ap: Point)
    requires Core(m) && i < |m.queue| && m.queue[i].task.ap != ap
    ensures HeadOf(Visit(m, i, env).0.queue, ap) == HeadOf(m.queue, ap)
  {
    HeadAt(m.queue, i);
    var e := m.queue[i];
    assert PointInv(m, e.task.ap);
    if !e.task.busy {
      if StartHead(m, i, env).1 {
        StartIs(m, i, env);
        HeadUpdate(m.queue, i, StartHead(m, i, env).0.queue[i]);
      } else {
        FailedStart(m, i, env);
        var q1 := StartHead(m, i, env).0.queue;
        HeadUpdate(m.queue, i, q1[i]);
        HeadHandOver(q1, i);
      }
    } else if e.task.cancel {
      HeadUpdate(m.queue, i, e.(task := e.task.(cancel := false)));
    } else if e.task.done {
      HeadHandOver(m.queue, i);
    }
  }

  /** The first waiting task of `e`, as a head of its own. */
  function Promoted(e: Entry): Option<Entry> {
    if e.pending == [] then None else Some(Entry(e.pending[0], []))
  }

  /** A visit to the head of the point itself. */
  lemma VisitOwn(m: Machine, i: nat, env: nat -> Thread)
    requires Core(m) && i < |m.queue|
    ensures var e := m.queue[i]; var (m', j) := Visit(m, i, env); var h' := HeadOf(m'.queue, e.task.ap);
      if !e.task.busy then
        if StartHead(m, i, env).1
        then h'.Some? && h'.value.pending == e.pending && StartedFrom(h'.value.task, e.task)
        else h' == Promoted(e) && NotBefore(m'.queue, j, e.task.ap)
      else if e.task.done && !e.task.cancel then h' == Promoted(e) && NotBefore(m'.queue, j, e.task.ap)
      else Stays(e, h')
  {
    HeadAt(m.queue, i);
    var e := m.queue[i];
    assert PointInv(m, e.task.ap);
    if !e.task.busy {
      if StartHead(m, i, env).1 {
        StartIs(m, i, env);
        HeadUpdate(m.queue, i, StartHead(m, i, env).0.queue[i]);
      } else {
        FailedStart(m, i, env);
        var q1 := StartHead(m, i, env).0.queue;
        HeadUpdate(m.queue, i, q1[i]);
        HandedOver(q1, i);
      }
    } else if e.task.cancel {
      HeadUpdate(m.queue, i, e.(task := e.task.(cancel := false)));
    } else if e.task.done {
      HandedOver(m.queue, i);
    }
  }

  lemma HandedOver(q: seq<Entry>, i: nat)
    requires OneHead(q) && i < |q| && WaitingOk(q[i].pending, q[i].task.ap)
    ensures var (r, j) := HandOver(q, i);
      HeadOf(r, q[i].task.ap) == Promoted(q[i]) && NotBefore(r, j, q[i].task.ap)
  {
    HeadHandOver(q, i);
    var r := HandOver(q, i).0;
    assert forall k :: 0 <= k < i ==> r[k] == q[k];
  }

  lemma {:induction false} WalkSettled(m: Machine, i: nat, env: nat -> Thread, ap: Point)
    requires Core(m) && i <= |m.queue| && Settled(HeadOf(m.queue, ap))
    ensures HeadOf(Walk(m, i, env).queue, ap) == HeadOf(m.queue, ap)
    decreases Total(m.queue), |m.queue| - i
  {
    if i >= |m.queue| {
    } else {
      VisitProgress(m, i, env);
      VisitKeeps(m, i, env);
      var (m', j) := Visit(m, i, env);
      if m.queue[i].task.ap != ap {
        VisitOther(m, i, env, ap);
      } else {
        HeadAt(m.queue, i);
        VisitOwn(m, i, env);
      }
      WalkSettled(m', j, env, ap);
    }
  }

  /** The walk comes to the head of `ap` once more. */
  predicate Meets(m: Machine, i: nat, env: nat -> Thread, ap: Point)
    decreases Total(m.queue), |m.queue| - i
  {
    i < |m.queue| &&
    (|| m.queue[i].task.ap == ap
     || (VisitProgress(m, i, env);
         var (m', j) := Visit(m, i, env);
         Meets(m', j, env, ap)))
  }

  /** The walk comes to the head of `ap` and then, having restarted, comes to it again. */
  predicate MeetsTwice(m: Machine, i: nat, env: nat -> Thread, ap: Point)
    decreases Total(m.queue), |m.queue| - i
  {
    i < |m.queue| &&
    (VisitProgress(m, i, env);
     var (m', j) := Visit(m, i, env);
     if m.queue[i].task.ap == ap then Meets(m', j, env, ap) else MeetsTwice(m', j, env, ap))
  }

  /** A finished head that the walk has passed: it is met again only if the walk restarts. */
  lemma {:induction false} WalkPassed(m: Machine, i: nat, env: nat -> Thread, ap: Point)
    requires Core(m) && i <= |m.queue|
    requires var h := HeadOf(m.queue, ap); h.Some? && h.value.task.busy && h.value.task.done && !h.value.task.cancel
    ensures var h, h' := HeadOf(m.queue, ap), HeadOf(Walk(m, i, env).queue, ap); h' == h || Freed(h.value, h')
    decreases Total(m.queue), |m.queue| - i
  {
    if i >= |m.queue| {
    } else {
      VisitProgress(m, i, env);
      VisitKeeps(m, i, env);
      var (m', j) := Visit(m, i, env);
      if m.queue[i].task.ap != ap {
        VisitOther(m, i, env, ap);
        WalkPassed(m', j, env, ap);
      } else {
        HeadAt(m.queue, i);
        assert PointInv(m, ap);
        VisitOwn(m, i, env);
        WalkOutcome(m', j, env, ap);
      }
    }
  }

  /** A walk that has not come to the head of `ap` yet. */
  lemma {:induction false} WalkOutcome(m: Machine, i: nat, env: nat -> Thread, ap: Point)
    requires Core(m) && i <= |m.queue| && NotBefore(m.queue, i, ap)
    ensures Outcome(HeadOf(m.queue, ap), HeadOf(Walk(m, i, env).queue, ap))
    decreases Total(m.queue), |m.queue| - i
  {
    if i >= |m.queue| {
    } else {
      VisitProgress(m, i, env);
      VisitKeeps(m, i, env);
      var (m', j) := Visit(m, i, env);
      if m.queue[i].task.ap != ap {
        VisitElsewhere(m, i, env, ap);
        WalkOutcome(m', j, env, ap);
      } else {
        HeadAt(m.queue, i);
        assert PointInv(m, ap);
        VisitOwn(m, i, env);
        var h' := HeadOf(m'.queue, ap);
        if Settled(h') {
          WalkSettled(m', j, env, ap);
        } else if h'.value.task.busy {
          WalkPassed(m', j, env, ap);
        } else {
          WalkOutcome(m', j, env, ap);
        }
      }
    }
  }

  /** The walk after the queue was empty starts a head or frees it with all that waits. */
  lemma {:induction false} FirstWalkOutcome(m: Machine, i: nat, env: nat -> Thread, ap: Point)
    requires Core(m) && i <= |m.queue| && StartedUpTo(m.queue, i)
    ensures var h, h' := HeadOf(m.queue, ap), HeadOf(FirstWalk(m, i, env).queue, ap);
      if Settled(h) then h' == h
      else h'.None? || (h'.value.pending == h.value.pending && StartedFrom(h'.value.task, h.value.task))
    decreases |m.queue| - i
  {
    if i == |m.queue| {
      AllBusy(m, ap);
    } else {
      FirstNext(m, i, env);
      FirstStepOutcome(m, i, env, ap);
      var (m', j) := FirstStep(m, i, env);
      FirstWalkOutcome(m', j, env, ap);
    }
  }

  lemma AllBusy(m: Machine, ap: Point)
    requires Core(m) && StartedUpTo(m.queue, |m.queue|)
    ensures var h := HeadOf(m.queue, ap); h.Some? ==> StartedFrom(h.value.task, h.value.task)
  {
    assert PointInv(m, ap);
  }

  /** The first walk takes one step and goes on. */
  lemma FirstNext(m: Machine, i: nat, env: nat -> Thread)
    requires Core(m) && i < |m.queue| && StartedUpTo(m.queue, i)
    ensures var (m', j) := FirstStep(m, i, env);
      && Core(m') && i <= j <= |m'.queue| && |m'.queue| - j < |m.queue| - i && StartedUpTo(m'.queue, j)
      && FirstWalk(m, i, env) == FirstWalk(m', j, env)
  {
    FirstStepKeeps(m, i, env);
  }

  lemma FirstStepOutcome(m: Machine, i: nat, env: nat -> Thread, ap: Point)
    requires Core(m) && i < |m.queue| && StartedUpTo(m.queue, i)
    ensures var h, h' := HeadOf(m.queue, ap), HeadOf(FirstStep(m, i, env).0.queue, ap);
      if ap != m.queue[i].task.ap then h' == h
      else h'.None? || (h'.value.pending == h.value.pending && StartedFrom(h'.value.task, h.value.task))
  {
    HeadAt(m.queue, i);
    assert PointInv(m, m.queue[i].task.ap);
    var m1 := StartHead(m, i, env).0;
    if StartHead(m, i, env).1 {
      StartIs(m, i, env);
      HeadUpdate(m.queue, i, m1.queue[i]);
    } else {
      FailedStart(m, i, env);
      HeadUpdate(m.queue, i, m1.queue[i]);
      HeadDrop(m1.queue, i);
    }
  }

  // ----- when thread creation succeeds, exactly

  /** Every thread creation from now on succeeds, with an identifier of its own. */
  ghost predicate Willing(env: nat -> Thread, m: Machine) {
    && (forall n :: n >= m.creates ==> env(n) != 0 && env(n) !in m.workers)
    && (forall n, k :: m.creates <= n < k ==> env(n) != env(k))
  }

  /** What a pass makes of a head then; the thread identifier of a started task is left open. */
  function FateOf(a: Ap, h: Option<Entry>): Option<Entry> {
    if h.None? then None
    else
      var e := h.value;
      if e.task.busy && !e.task.done then Some(e.(task := e.task.(cancel := false)))
      else if !e.task.busy && e.task.state != a.state then Some(e.(task := e.task.(busy := true)))
      else if e.pending != [] && e.pending[0].state != a.state then
        Some(Entry(e.pending[0].(busy := true), []))
      else None
  }

  predicate Like(h: Option<Entry>, f: Option<Entry>) {
    if h.None? then f.None?
    else f.Some? && h.value.pending == f.value.pending
         && h.value.task == f.value.task.(thid := h.value.task.thid) && h.value.task.thid != 0
  }

  lemma WillingStarts(m: Machine, i: nat, env: nat -> Thread)
    requires Core(m) && i < |m.queue| && !m.queue[i].task.busy && Willing(env, m)
    ensures var (m', ok) := StartHead(m, i, env); var a := At(m, m.queue[i].task.ap);
      && (ok <==> m.queue[i].task.state != a.state)
      && (!ok ==> m'.aps == m.aps && m'.creates == m.creates && m'.workers == m.workers)
      && Willing(env, m')
  {
    HeadAt(m.queue, i);
    assert PointInv(m, m.queue[i].task.ap);
  }

  lemma VisitWilling(m: Machine, i: nat, env: nat -> Thread)
    requires Core(m) && i < |m.queue| && Willing(env, m)
    ensures Willing(env, Visit(m, i, env).0)
    ensures var e := m.queue[i];
      (if e.task.busy then true else e.task.state == At(m, e.task.ap).state)
        ==> At(Visit(m, i, env).0, e.task.ap) == At(m, e.task.ap)
  {
    if !m.queue[i].task.busy {
      HeadAt(m.queue, i);
      assert PointInv(m, m.queue[i].task.ap);
      WillingStarts(m, i, env);
    }
  }

  lemma {:induction false} WalkFate(m: Machine, i: nat, env: nat -> Thread, ap: Point)
    requires Core(m) && i <= |m.queue| && NotBefore(m.queue, i, ap) && Willing(env, m)
    requires var h := HeadOf(m.queue, ap); h.Some? ==> !(h.value.task.cancel && h.value.task.done)
    ensures Like(HeadOf(Walk(m, i, env).queue, ap), FateOf(At(m, ap), HeadOf(m.queue, ap)))
    decreases Total(m.queue), |m.queue| - i
  {
    if i >= |m.queue| {
    } else {
      VisitProgress(m, i, env);
      VisitKeeps(m, i, env);
      VisitWilling(m, i, env);
      var (m', j) := Visit(m, i, env);
      if m.queue[i].task.ap != ap {
        VisitElsewhere(m, i, env, ap);
        VisitNeverShuts(m, i, env, ap);
        WalkFate(m', j, env, ap);
      } else {
        OwnFate(m, i, env);
        if Settled(HeadOf(m'.queue, ap)) {
          WalkSettled(m', j, env, ap);
        } else {
          WalkFate(m', j, env, ap);
        }
      }
    }
  }

  /** After the visit the head is what it will be, or the promoted task has the same fate. */
  lemma OwnFate(m: Machine, i: nat, env: nat -> Thread)
    requires Core(m) && i < |m.queue| && Willing(env, m)
    requires !(m.queue[i].task.cancel && m.queue[i].task.done)
    ensures var (m', j) := Visit(m, i, env); var ap := m.queue[i].task.ap;
      var h' := HeadOf(m'.queue, ap); var f := FateOf(At(m, ap), HeadOf(m.queue, ap));
      if Settled(h') then Like(h', f)
      else
        && NotBefore(m'.queue, j, ap) && !h'.value.task.cancel
        && FateOf(At(m', ap), h') == f
  {
    HeadAt(m.queue, i);
    var e := m.queue[i];
    assert PointInv(m, e.task.ap);
    VisitOwn(m, i, env);
    VisitWilling(m, i, env);
    if !e.task.busy { WillingStarts(m, i, env); }
  }

  lemma {:induction false} FirstWalkFate(m: Machine, i: nat, env: nat -> Thread, ap: Point)
    requires Core(m) && i <= |m.queue| && StartedUpTo(m.queue, i) && Willing(env, m)
    requires var h := HeadOf(m.queue, ap); h.Some? && !h.value.task.busy
    ensures HeadOf(FirstWalk(m, i, env).queue, ap).Some? <==>
              HeadOf(m.queue, ap).value.task.state != At(m, ap).state
    decreases |m.queue| - i
  {
    if i >= |m.queue| {
    } else {
      HeadAt(m.queue, i);
      if m.queue[i].task.ap != ap {
        FirstElsewhere(m, i, env, ap);
        var (m', j) := FirstStep(m, i, env);
        FirstWalkFate(m', j, env, ap);
      } else {
        FirstFate(m, i, env);
      }
    }
  }

  /** A step of the first walk at another point. */
  lemma FirstElsewhere(m: Machine, i: nat, env: nat -> Thread, ap: Point)
    requires Core(m) && i < |m.queue| && StartedUpTo(m.queue, i) && Willing(env, m) && m.queue[i].task.ap != ap
    ensures var (m', j) := FirstStep(m, i, env);
      && Core(m') && i <= j <= |m'.queue| && |m'.queue| - j < |m.queue| - i && StartedUpTo(m'.queue, j)
      && Willing(env, m') && HeadOf(m'.queue, ap) == HeadOf(m.queue, ap) && At(m', ap) == At(m, ap)
      && FirstWalk(m, i, env) == FirstWalk(m', j, env)
  {
    FirstNext(m, i, env);
    FirstStepOutcome(m, i, env, ap);
    WillingStarts(m, i, env);
    FirstStepAp(m, i, env, ap);
  }

  lemma FirstStepAp(m: Machine, i: nat, env: nat -> Thread, ap: Point)
    requires Core(m) && i < |m.queue| && !m.queue[i].task.busy && m.queue[i].task.ap != ap
    ensures At(FirstStep(m, i, env).0, ap) == At(m, ap)
  {
    if StartHead(m, i, env).1 {
      StartIs(m, i, env);
    } else {
      FailedStart(m, i, env);
    }
  }

  lemma FirstFate(m: Machine, i: nat, env: nat -> Thread)
    requires Core(m) && i < |m.queue| && StartedUpTo(m.queue, i) && Willing(env, m)
    ensures HeadOf(FirstWalk(m, i, env).queue, m.queue[i].task.ap).Some? <==>
              m.queue[i].task.state != At(m, m.queue[i].task.ap).state
  {
    var ap := m.queue[i].task.ap;
    HeadAt(m.queue, i);
    FirstStepKeeps(m, i, env);
    WillingStarts(m, i, env);
    assert PointInv(m, ap);
    var (m', j) := FirstStep(m, i, env);
    if StartHead(m, i, env).1 {
      StartIs(m, i, env);
      HeadUpdate(m.queue, i, m'.queue[i]);
    } else {
      FailedStart(m, i, env);
      HeadUpdate(m.queue, i, StartHead(m, i, env).0.queue[i]);
      HeadDrop(StartHead(m, i, env).0.queue, i);
    }
    FirstWalkOutcome(m', j, env, ap);
  }

  // ----- requests over every run

  /** The handler has something to do: it runs a pass when it wakes. */
  predicate Passes(m: Machine) {
    if m.idle then m.queue != [] else m.signaled
  }

  /** What a pass does to the head of any point, whatever thread creation does. */
  lemma PassOutcome(es: seq<Event>, env: nat -> Thread, ap: Point)
    requires Feasible(START, es)
    ensures var m := Run(START, es); var h, h' := HeadOf(m.queue, ap), HeadOf(Wake(m, env).queue, ap);
      && (!Passes(m) ==> h' == h)
      && (Passes(m) ==> Outcome(h, h'))
      && (Passes(m) && m.idle && h.Some? && h'.Some? ==> h'.value.pending == h.value.pending)
  {
    Reachable(es);
    var m := Run(START, es);
    assert PointInv(m, ap);
    if Passes(m) && m.idle {
      FirstWalkOutcome(m, 0, env, ap);
    } else if Passes(m) {
      WalkOutcome(m, 0, env, ap);
    }
  }

  /** A request that waited behind a head when the handler passed is still asked for exactly
      when the head is still there with all that waits, or the request was the first one and
      took the head's place.  Behind a running head nothing is lost; behind a finished one all
      but the first are, unless the head was cancelled as well. */
  lemma WaitingLost(es: seq<Event>, env: nat -> Thread, ap: Point, k: nat)
    requires Feasible(START, es) && Passes(Run(START, es))
    requires var h := HeadOf(Run(START, es).queue, ap); h.Some? && k < |h.value.pending|
    ensures var m := Run(START, es); var h, h' := HeadOf(m.queue, ap), HeadOf(Wake(m, env).queue, ap);
      var t, s := h.value.task, h.value.pending[k].state;
      && (Asks(h', s) <==> h'.Some? && (h'.value.pending == h.value.pending || k == 0))
      && (t.busy && !t.done ==> Asks(h', s))
      && (t.busy && t.done && !t.cancel && k >= 1 ==> !Asks(h', s))
  {
    PassOutcome(es, env, ap);
    Reachable(es);
    var m := Run(START, es);
    assert PointInv(m, ap);
    var h, h' := HeadOf(m.queue, ap), HeadOf(Wake(m, env).queue, ap);
    OutcomeAsks(h.value, h', k);
  }

  lemma OutcomeAsks(e: Entry, h': Option<Entry>, k: nat)
    requires Outcome(Some(e), h') && EntryOk(e, e.task.ap) && k < |e.pending|
    ensures Asks(h', e.pending[k].state) <==> h'.Some? && (h'.value.pending == e.pending || k == 0)
  {
    if h'.Some? && h'.value.pending == e.pending {
      assert Waiting(h'.value.pending, e.pending[k].state);
    }
  }

  /** A finished head that the walk has passed keeps its place exactly when it is not met again. */
  lemma {:induction false} PassedFate(m: Machine, i: nat, env: nat -> Thread, ap: Point)
    requires Core(m) && i <= |m.queue| && Willing(env, m)
    requires var h := HeadOf(m.queue, ap); h.Some? && h.value.task.busy && h.value.task.done && !h.value.task.cancel
    ensures var h, h' := HeadOf(m.queue, ap), HeadOf(Walk(m, i, env).queue, ap);
      if Meets(m, i, env, ap) then Like(h', FateOf(At(m, ap), h)) else h' == h
    decreases Total(m.queue), |m.queue| - i
  {
    if i >= |m.queue| {
    } else {
      VisitProgress(m, i, env);
      VisitKeeps(m, i, env);
      VisitWilling(m, i, env);
      var (m', j) := Visit(m, i, env);
      if m.queue[i].task.ap != ap {
        VisitOther(m, i, env, ap);
        VisitNeverShuts(m, i, env, ap);
        PassedFate(m', j, env, ap);
      } else {
        HeadAt(m.queue, i);
        OwnFate(m, i, env);
        if Settled(HeadOf(m'.queue, ap)) {
          WalkSettled(m', j, env, ap);
        } else {
          WalkFate(m', j, env, ap);
        }
      }
    }
  }

  /** A head both marked for cancelling and done. */
  lemma {:induction false} MarkedDoneFate(m: Machine, i: nat, env: nat -> Thread, ap: Point)
    requires Core(m) && i <= |m.queue| && NotBefore(m.queue, i, ap) && Willing(env, m)
    requires var h := HeadOf(m.queue, ap);
      h.Some? && h.value.task.busy && h.value.task.done && h.value.task.cancel
    ensures var h, h' := HeadOf(m.queue, ap), HeadOf(Walk(m, i, env).queue, ap);
      if MeetsTwice(m, i, env, ap) then Like(h', FateOf(At(m, ap), h)) else Stays(h.value, h')
    decreases Total(m.queue), |m.queue| - i
  {
    if i >= |m.queue| {
    } else {
      VisitProgress(m, i, env);
      VisitKeeps(m, i, env);
      VisitWilling(m, i, env);
      var (m', j) := Visit(m, i, env);
      if m.queue[i].task.ap != ap {
        VisitElsewhere(m, i, env, ap);
        VisitNeverShuts(m, i, env, ap);
        MarkedDoneFate(m', j, env, ap);
      } else {
        HeadAt(m.queue, i);
        VisitOwn(m, i, env);
        PassedFate(m', j, env, ap);
      }
    }
  }

  // ----- when the walk restarts

  /** The handler unlinks the head when it comes to it: it is finished, or cannot start because its
      point is in its state already. */
  predicate Goes(m: Machine, e: Entry) {
    if e.task.busy then e.task.done && !e.task.cancel else e.task.state == At(m, e.task.ap).state
  }

  /** It is handed over: unlinked with a task waiting, which goes to the end of the queue. */
  predicate Hands(m: Machine, e: Entry) {
    Goes(m, e) && e.pending != []
  }

  /** Of the heads from `i` on the last one, and no other, is handed over. */
  predicate LastHands(m: Machine, i: nat) {
    && i < |m.queue| && Hands(m, m.queue[|m.queue| - 1])
    && forall k :: i <= k < |m.queue| - 1 ==> !Hands(m, m.queue[k])
  }

  lemma VisitUnstarted(m: Machine, i: nat, env: nat -> Thread)
    requires Core(m) && i < |m.queue| && Willing(env, m) && !m.queue[i].task.busy
    ensures var (m', j) := Visit(m, i, env); var e, q := m.queue[i], m.queue;
      && (forall p :: p != e.task.ap ==> At(m', p) == At(m, p))
      && if !Goes(m, e)
         then j == i + 1 && |m'.queue| == |q| && forall k :: 0 <= k < |q| && k != i ==> m'.queue[k] == q[k]
         else (m'.queue, j) == HandOver(q, i)
  {
    HeadAt(m.queue, i);
    assert PointInv(m, m.queue[i].task.ap);
    WillingStarts(m, i, env);
    if StartHead(m, i, env).1 {
      StartIs(m, i, env);
    } else {
      FailedStart(m, i, env);
      assert Drop(StartHead(m, i, env).0.queue, i) == Drop(m.queue, i);
    }
  }

  lemma VisitShape(m: Machine, i: nat, env: nat -> Thread)
    requires Core(m) && i < |m.queue| && Willing(env, m)
    ensures var (m', j) := Visit(m, i, env); var e, q := m.queue[i], m.queue;
      && (forall p :: p != e.task.ap ==> At(m', p) == At(m, p))
      && if !Goes(m, e)
         then j == i + 1 && |m'.queue| == |q| && forall k :: 0 <= k < |q| && k != i ==> m'.queue[k] == q[k]
         else if e.pending == [] then j == i && m'.queue == Drop(q, i)
         else m'.queue == Drop(q, i) + [Entry(e.pending[0], [])] && j == if i + 1 == |q| then 0 else i
  {
    HeadAt(m.queue, i);
    var e := m.queue[i];
    assert PointInv(m, e.task.ap);
    if !e.task.busy { VisitUnstarted(m, i, env); }
  }

  /** The points of the heads behind `i` are as they were. */
  predicate SameBehind(m: Machine, m': Machine, i: nat) {
    forall k :: i < k < |m.queue| ==> At(m', m.queue[k].task.ap) == At(m, m.queue[k].task.ap)
  }

  lemma PassedLast(m: Machine, m': Machine, i: nat)
    requires i < |m.queue| == |m'.queue| && SameBehind(m, m', i) && !Hands(m, m.queue[i])
    requires forall k :: i < k < |m.queue| ==> m'.queue[k] == m.queue[k]
    ensures LastHands(m', i + 1) <==> LastHands(m, i)
  {
  }

  lemma DroppedLast(m: Machine, m': Machine, i: nat)
    requires i < |m.queue| && SameBehind(m, m', i) && !Hands(m, m.queue[i]) && m'.queue == Drop(m.queue, i)
    ensures LastHands(m', i) <==> LastHands(m, i)
  {
    var q, q' := m.queue, m'.queue;
    assert forall k :: i <= k < |q'| ==> q'[k] == q[k + 1];
    if LastHands(m', i) {
      forall k | i <= k < |q| - 1 ensures !Hands(m, q[k]) {
        if k > i { assert !Hands(m', q'[k - 1]); }
      }
    }
  }

  /** A visit that does not restart the walk leaves it open whether a later one will. */
  lemma VisitLastHands(m: Machine, i: nat, env: nat -> Thread)
    requires Core(m) && i < |m.queue| && Willing(env, m) && !(Hands(m, m.queue[i]) && i + 1 == |m.queue|)
    ensures var (m', j) := Visit(m, i, env); i <= j && (LastHands(m', j) <==> LastHands(m, i))
  {
    var (m', j) := Visit(m, i, env);
    VisitShape(m, i, env);
    assert OneHead(m.queue);
    assert SameBehind(m, m', i);
    if !Goes(m, m.queue[i]) {
      PassedLast(m, m', i);
    } else if m.queue[i].pending == [] {
      DroppedLast(m, m', i);
    } else {
      assert m'.queue[|m'.queue| - 1].pending == [];
    }
  }

  /** A walk comes to every head it has not passed. */
  lemma {:induction false} MeetsAhead(m: Machine, i: nat, env: nat -> Thread, ap: Point)
    requires Core(m) && i <= |m.queue| && NotBefore(m.queue, i, ap) && HeadOf(m.queue, ap).Some?
    ensures Meets(m, i, env, ap)
    decreases Total(m.queue), |m.queue| - i
  {
    if i == |m.queue| {
      HeadIsSomewhere(m.queue, ap);
    } else if m.queue[i].task.ap == ap {
    } else {
      VisitProgress(m, i, env);
      VisitKeeps(m, i, env);
      VisitElsewhere(m, i, env, ap);
      var (m', j) := Visit(m, i, env);
      MeetsAhead(m', j, env, ap);
    }
  }

  lemma HeadIsSomewhere(q: seq<Entry>, ap: Point)
    requires HeadOf(q, ap).Some?
    ensures Find(q, ap) < |q| && q[Find(q, ap)].task.ap == ap
  {
  }

  /** A walk that has passed the head of `ap` comes to it again exactly when it restarts, which it
      does when the last head is the only one handed over. */
  lemma {:induction false} MeetsIff(m: Machine, i: nat, env: nat -> Thread, ap: Point)
    requires Core(m) && i <= |m.queue| && Willing(env, m) && HeadOf(m.queue, ap).Some?
    requires forall k :: i <= k < |m.queue| ==> m.queue[k].task.ap != ap
    ensures Meets(m, i, env, ap) <==> LastHands(m, i)
    decreases Total(m.queue), |m.queue| - i
  {
    if i >= |m.queue| {
    } else {
      var (m', j) := Visit(m, i, env);
      VisitProgress(m, i, env);
      VisitKeeps(m, i, env);
      VisitWilling(m, i, env);
      VisitOther(m, i, env, ap);
      VisitShape(m, i, env);
      if Hands(m, m.queue[i]) && i + 1 == |m.queue| {
        MeetsAhead(m', 0, env, ap);
      } else {
        VisitLastHands(m, i, env);
        StillPassed(m, i, env, ap);
        MeetsIff(m', j, env, ap);
      }
    }
  }

  lemma StillPassed(m: Machine, i: nat, env: nat -> Thread, ap: Point)
    requires Core(m) && i < |m.queue| && Willing(env, m) && !(Hands(m, m.queue[i]) && i + 1 == |m.queue|)
    requires forall k :: i <= k < |m.queue| ==> m.queue[k].task.ap != ap
    ensures var (m', j) := Visit(m, i, env); forall k :: j <= k < |m'.queue| ==> m'.queue[k].task.ap != ap
  {
    VisitShape(m, i, env);
    HeadAt(m.queue, i);
    assert PointInv(m, m.queue[i].task.ap);
    var (m', j) := Visit(m, i, env);
    forall k | j <= k < |m'.queue| ensures m'.queue[k].task.ap != ap {
      if Goes(m, m.queue[i]) && k < |m.queue| - 1 { assert m'.queue[k] == m.queue[k + 1]; }
    }
  }

  /** Coming to a marked and finished head twice, in terms of the queue. */
  lemma {:induction false} MeetsTwiceIff(m: Machine, i: nat, env: nat -> Thread, ap: Point)
    requires Core(m) && i <= |m.queue| && Willing(env, m) && NotBefore(m.queue, i, ap)
    requires var h := HeadOf(m.queue, ap); h.Some? && h.value.task.busy && h.value.task.cancel
    ensures MeetsTwice(m, i, env, ap) <==> LastHands(m, i)
    decreases Total(m.queue), |m.queue| - i
  {
    HeadIsSomewhere(m.queue, ap);
    if i >= |m.queue| {
    } else {
      var (m', j) := Visit(m, i, env);
      VisitProgress(m, i, env);
      VisitKeeps(m, i, env);
      VisitWilling(m, i, env);
      if m.queue[i].task.ap == ap {
        HeadAt(m.queue, i);
        VisitLastHands(m, i, env);
        VisitOwn(m, i, env);
        VisitShape(m, i, env);
        MeetsIff(m', j, env, ap);
      } else {
        assert Find(m.queue, ap) > i;
        VisitLastHands(m, i, env);
        VisitElsewhere(m, i, env, ap);
        MeetsTwiceIff(m', j, env, ap);
      }
    }
  }

  /** The head is unlinked in the pass: it is finished, or cannot start because its point is in
      its state already.  A finished head that is marked for cancelling is passed over once, and
      goes only if the walk restarts: if the last head of the queue, and no other, is handed over. */
  predicate Unlinks(m: Machine, ap: Point)
    requires HeadOf(m.queue, ap).Some?
  {
    var t := HeadOf(m.queue, ap).value.task;
    if !t.busy then t.state == At(m, ap).state
    else t.done && (t.cancel ==> LastHands(m, 0))
  }

  /** With thread creation succeeding: exactly which waiting requests a pass discards. */
  lemma DiscardedIff(es: seq<Event>, env: nat -> Thread, ap: Point, k: nat)
    requires Feasible(START, es) && Passes(Run(START, es)) && Willing(env, Run(START, es))
    requires var h := HeadOf(Run(START, es).queue, ap); h.Some? && k < |h.value.pending|
    ensures var m := Run(START, es); var h, h' := HeadOf(m.queue, ap), HeadOf(Wake(m, env).queue, ap);
      !Asks(h', h.value.pending[k].state) <==>
        && Unlinks(m, ap)
        && (m.idle || k >= 1 || h.value.pending[0].state == At(m, ap).state)
  {
    WaitingLost(es, env, ap, k);
    PassOutcome(es, env, ap);
    Reachable(es);
    var m := Run(START, es);
    var h := HeadOf(m.queue, ap);
    assert PointInv(m, ap);
    if m.idle {
      FirstWalkFate(m, 0, env, ap);
    } else if h.value.task.cancel && h.value.task.done {
      MarkedDoneFate(m, 0, env, ap);
      MeetsTwiceIff(m, 0, env, ap);
    } else {
      WalkFate(m, 0, env, ap);
    }
  }

  // ----- what was lost stays lost

  /** The event asks for `s` on the point. */
  predicate Requests(m: Machine, e: Event, ap: Point, s: State)
    requires Enabled(m, e)
  {
    match e
    case Add(p, x) => p == ap && x == s
    case Signal(p, x) => p == ap && x == s
    case Notify(_, p, x) => p == ap && x == s
    case Expired(w, r) => m.workers[w].ap == ap && NextState(At(m, ap), r) == Ask(s)
    case _ => false
  }

  lemma EnqueueAsksBack(e: Entry, x: State, shutting: bool, s: State)
    requires Asks(Some(Enqueue(e, x, shutting)), s)
    ensures Asks(Some(e), s) || x == s
  {
    var e' := Enqueue(e, x, shutting);
    if Waiting(e'.pending, s) && e' != e {
      var k :| 0 <= k < |e'.pending| && e'.pending[k].state == s;
      assert k < |e.pending| ==> e.pending[k].state == s;
    }
  }

  lemma AddedAsks(m: Machine, p: Point, x: State, ap: Point, s: State)
    requires OneHead(m.queue) && (x.Ready? || Queueable(x))
    requires Asks(HeadOf(AddTask(m, p, x).queue, ap), s)
    ensures Asks(HeadOf(m.queue, ap), s) || (p == ap && x == s)
  {
    var i := Find(m.queue, p);
    if !x.Ready? && !At(m, p).state.Shutdown? {
      if i == |m.queue| {
        HeadPrepend(m.queue, Entry(NewTask(p, x), []));
      } else {
        var shutting := ShuttingDown(At(m, p).state);
        HeadUpdate(m.queue, i, Enqueue(m.queue[i], x, shutting));
        if p == ap { EnqueueAsksBack(m.queue[i], x, shutting, s); }
      }
    }
  }

  lemma OutcomeAsksBack(h: Option<Entry>, h': Option<Entry>, s: State)
    requires Outcome(h, h') && Asks(h', s)
    ensures Asks(h, s)
  {
    if h.Some? && h.value.pending != [] && h'.value.pending == [] && h'.value.task.state == h.value.pending[0].state {
      assert h'.value.task.state == s ==> Waiting(h.value.pending, s);
    }
  }

  lemma DoneAsks(m: Machine, p: Point, ap: Point, s: State)
    requires OneHead(m.queue) && Asks(HeadOf(SetDone(m.queue, p), ap), s)
    ensures Asks(HeadOf(m.queue, ap), s) && OneHead(SetDone(m.queue, p))
  {
    var i := Find(m.queue, p);
    if i < |m.queue| {
      HeadUpdate(m.queue, i, m.queue[i].(task := m.queue[i].task.(done := true)));
    }
  }

  lemma StripAsks(m: Machine, p: Point, ap: Point, s: State)
    requires Core(m) && Asks(HeadOf(RemoveTasks(m, p).queue, ap), s)
    ensures Asks(HeadOf(m.queue, ap), s)
  {
    if m.queue != [] {
      HeadStrip(m.queue, p);
      assert PointInv(m, ap);
      var h, h' := HeadOf(m.queue, ap), HeadOf(RemoveTasks(m, p).queue, ap);
      KeepShutdownSelects(h.value.pending, ap);
      if Waiting(h'.value.pending, s) {
        var k :| 0 <= k < |h'.value.pending| && h'.value.pending[k].state == s;
        assert h'.value.pending[k] in h.value.pending;
      }
    }
  }

  lemma WakeAsks(m: Machine, env: nat -> Thread, ap: Point, s: State)
    requires Inv(m) && Asks(HeadOf(Wake(m, env).queue, ap), s)
    ensures Asks(HeadOf(m.queue, ap), s)
  {
    var h, h' := HeadOf(m.queue, ap), HeadOf(Wake(m, env).queue, ap);
    if Passes(m) {
      if m.idle {
        FirstWalkOutcome(m, 0, env, ap);
      } else {
        WalkOutcome(m, 0, env, ap);
        OutcomeAsksBack(h, h', s);
      }
    }
  }

  lemma ExpiredQueue(m: Machine, w: Thread, p: Point, r: Ending)
    requires Inv(m) && w in m.workers && m.workers[w] == ExpireWorker(p)
    ensures NextState(At(m, p), r).Ask?
    ensures var n := NextState(At(m, p), r).state; var f := Finishing(m, w, p, At(m, p).state);
      && (n.Ready? || n.Shutdown? || Queueable(n))
      && ExpireDone(m, w, p, r).queue == if Queueable(n) then AddTask(f, p, n).queue else SetDone(m.queue, p)
  {
    ExpireWorkerState(m, w, p);
    ExpireDoneIs(m, w, p, r);
  }

  lemma ExpiredAsks(m: Machine, w: Thread, p: Point, r: Ending, ap: Point, s: State)
    requires Inv(m) && w in m.workers && m.workers[w] == ExpireWorker(p)
    requires Asks(HeadOf(ExpireDone(m, w, p, r).queue, ap), s)
    ensures Asks(HeadOf(m.queue, ap), s) || (p == ap && NextState(At(m, ap), r) == Ask(s))
  {
    ExpiredQueue(m, w, p, r);
    var n := NextState(At(m, p), r).state;
    var q := SetDone(m.queue, p);
    assert OneHead(q) by {
      var i := Find(m.queue, p);
      if i < |m.queue| { HeadUpdate(m.queue, i, m.queue[i].(task := m.queue[i].task.(done := true))); }
    }
    if Queueable(n) { AddedAsks(Finishing(m, w, p, At(m, p).state), p, n, ap, s); }
    if Asks(HeadOf(q, ap), s) { DoneAsks(m, p, ap, s); }
  }

  /** Nothing asks for `s` on a point that was not asked for before, but a request for it. */
  lemma OnlyRequestsAsk(m: Machine, e: Event, ap: Point, s: State)
    requires Inv(m) && Enabled(m, e) && Asks(HeadOf(Step(m, e).queue, ap), s)
    ensures Asks(HeadOf(m.queue, ap), s) || Requests(m, e, ap, s)
  {
    match e
    case Add(p, x) => AddedAsks(m, p, x, ap, s);
    case Signal(p, x) =>
      if !(At(m, p).state.Shutdown? || (ShuttingDown(x) && ShuttingDown(At(m, p).state))) {
        AddedAsks(if ShuttingDown(x) then SetShutdown(m, p, true) else m, p, x, ap, s);
      }
    case Notify(w, p, x) =>
      assert PointInv(m, m.workers[w].ap);
      if !At(m, p).state.Shutdown? {
        AddedAsks(SetShutdown(m, p, At(m, m.workers[w].ap).shutdown), p, x, ap, s);
      }
    case Remove(p) => StripAsks(m, p, ap, s);
    case Wakeup(env) => WakeAsks(m, env, ap, s);
    case Expired(w, r) => ExpiredAsks(m, w, m.workers[w].ap, r, ap, s);
    case Reread(w) => DoneAsks(m, m.workers[w].ap, ap, s);
  }

  predicate NeverRequested(m: Machine, es: seq<Event>, ap: Point, s: State)
    requires Feasible(m, es)
    decreases |es|
  {
    es == [] || (!Requests(m, es[0], ap, s) && NeverRequested(Step(m, es[0]), es[1..], ap, s))
  }

  /** A request that is gone stays gone in every later run, until it is made again: no task for
      it is queued, and so none is started. */
  lemma {:induction false} LostStaysLost(m: Machine, es: seq<Event>, ap: Point, s: State)
    requires Inv(m) && Feasible(m, es) && !Asks(HeadOf(m.queue, ap), s) && NeverRequested(m, es, ap, s)
    ensures !Asks(HeadOf(Run(m, es).queue, ap), s)
    decreases |es|
  {
    if es == [] {
    } else {
      StepKeepsInv(m, es[0]);
      if Asks(HeadOf(Step(m, es[0]).queue, ap), s) {
        OnlyRequestsAsk(m, es[0], ap, s);
      }
      LostStaysLost(Step(m, es[0]), es[1..], ap, s);
    }
  }
}
