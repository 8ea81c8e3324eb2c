/** The alarm queue (lib/alarm.c): a list of timers sorted by time, a handler thread that
    sleeps until the first of them, and the rule by which the others wake it.
 */
module AlarmQueue {
  import opened Options

  datatype Alarm = Alarm(time: nat, cancel: bool, ap: nat)

  /** The handler thread: in its loop, asleep until a deadline if there is one, or posting an
      expire task with the mutex released. */
  datatype Handler = Awake | Sleeping(deadline: Option<nat>) | Posting(ap: nat)

  /** `signalled`: the condition was signalled since the handler went to sleep.
      `posted`: the points for which an expire task was posted. */
  datatype Queue = Queue(alarms: seq<Alarm>, handler: Handler, signalled: bool, now: nat, posted: seq<nat>)

  const EMPTY := Queue([], Awake, false, 0, [])

  // ----- adding and deleting

  /** The insertion loop of __alarm_add: before the first alarm that is not earlier */
  function Insert(alarms: seq<Alarm>, a: Alarm): seq<Alarm> {
    if alarms == [] || alarms[0].time >= a.time then [a] + alarms
    else [alarms[0]] + Insert(alarms[1..], a)
  }

  /** pthread_cond_signal: lost unless the handler sleeps */
  function Signal(q: Queue): Queue {
    if q.handler.Sleeping? then q.(signalled := true) else q
  }

  /** __alarm_add */
  function Add(q: Queue, ap: nat, seconds: nat): Queue {
    if seconds == 0 then q
    else
      var a := Alarm(q.now + seconds, false, ap);
      var q' := q.(alarms := Insert(q.alarms, a));
      if q.alarms == [] || a.time < q.alarms[0].time then Signal(q') else q'
  }

  /** __alarm_exists */
  predicate Exists(alarms: seq<Alarm>, ap: nat) {
    exists k :: 0 <= k < |alarms| && alarms[k].ap == ap
  }

  /** conditional_alarm_add; `wanted`: not a submount, and something is mounted */
  function ConditionalAdd(q: Queue, ap: nat, seconds: nat, wanted: bool): Queue {
    if !wanted || Exists(q.alarms, ap) then q else Add(q, ap, seconds)
  }

  function Without(alarms: seq<Alarm>, ap: nat): seq<Alarm> {
    if alarms == [] then []
    else if alarms[0].ap == ap then Without(alarms[1..], ap)
    else [alarms[0]] + Without(alarms[1..], ap)
  }

  /** alarm_delete: the first alarm is only marked, since the handler may wait on it */
  function Delete(q: Queue, ap: nat): Queue {
    if q.alarms == [] then q
    else
      var first, rest := q.alarms[0], Without(q.alarms[1..], ap);
      if first.ap == ap then Signal(q.(alarms := [Alarm(0, true, ap)] + rest))
      else q.(alarms := [first] + rest)
  }

  // ----- the handler

  /** One round of the handler's loop. */
  function Round(q: Queue): Queue {
    if q.alarms == [] then q.(handler := Sleeping(None), signalled := false)
    else
      var first := q.alarms[0];
      if first.time > q.now then q.(handler := Sleeping(Some(first.time)), signalled := false)
      else q.(alarms := q.alarms[1..], handler := if first.cancel then Awake else Posting(first.ap))
  }

  function Post(q: Queue): Queue {
    if q.handler.Posting? then q.(posted := q.posted + [q.handler.ap], handler := Awake) else q
  }

  // ----- runs

  datatype Event =
    | AddAlarm(ap: nat, seconds: nat)
    | CondAdd(ap: nat, seconds: nat, wanted: bool)
    | DeleteAlarms(ap: nat)
    | Tick
    | Wake
    | Loop
    | PostTask

  /** A sleeping handler wakes when it was signalled or its deadline has passed; a wait may
      also end for no reason. */
  predicate Enabled(q: Queue, e: Event) {
    match e
    case Wake => q.handler.Sleeping?
    case Loop => q.handler.Awake?
    case PostTask => q.handler.Posting?
    case _ => true
  }

  function Step(q: Queue, e: Event): Queue {
    match e
    case AddAlarm(ap, seconds) => Add(q, ap, seconds)
    case CondAdd(ap, seconds, wanted) => ConditionalAdd(q, ap, seconds, wanted)
    case DeleteAlarms(ap) => Delete(q, ap)
    case Tick => q.(now := q.now + 1)
    case Wake => q.(handler := Awake, signalled := false)
    case Loop => Round(q)
    case PostTask => Post(q)
  }

  predicate Feasible(q: Queue, es: seq<Event>)
    decreases |es|
  {
    es == [] || (Enabled(q, es[0]) && Feasible(Step(q, es[0]), es[1..]))
  }

  function Run(q: Queue, es: seq<Event>): Queue
    decreases |es|
  {
    if es == [] then q else Run(Step(q, es[0]), es[1..])
  }

  // ----- the invariant

  predicate Sorted(alarms: seq<Alarm>) {
    forall i, j :: 0 <= i < j < |alarms| ==> alarms[i].time <= alarms[j].time
  }

  /** Only the first alarm can be cancelled, and it is due at once. */
  predicate OnlyFirstCancelled(alarms: seq<Alarm>) {
    forall i :: 0 <= i < |alarms| ==> (alarms[i].cancel <==> alarms[i].time == 0) && (alarms[i].cancel ==> i == 0)
  }

  function FirstTime(alarms: seq<Alarm>): Option<nat> {
    if alarms == [] then None else Some(alarms[0].time)
  }

  predicate Inv(q: Queue) {
    && Sorted(q.alarms) && OnlyFirstCancelled(q.alarms)
    && (q.handler.Sleeping? && !q.signalled ==> q.handler.deadline == FirstTime(q.alarms))
  }

  lemma {:induction false} InsertMembers(alarms: seq<Alarm>, a: Alarm)
    ensures multiset(Insert(alarms, a)) == multiset(alarms) + multiset{a}
    ensures forall x :: x in Insert(alarms, a) <==> x == a || x in alarms
  {
    if alarms == [] || alarms[0].time >= a.time {
    } else {
      InsertMembers(alarms[1..], a);
      assert alarms == [alarms[0]] + alarms[1..];
    }
  }

  lemma {:induction false} InsertSorted(alarms: seq<Alarm>, a: Alarm)
    requires Sorted(alarms)
    ensures Sorted(Insert(alarms, a))
  {
    if alarms == [] || alarms[0].time >= a.time {
    } else {
      var rest := alarms[1..];
      InsertSorted(rest, a);
      InsertMembers(rest, a);
      var r := Insert(rest, a);
      forall k | 0 <= k < |r| ensures alarms[0].time <= r[k].time {
        assert r[k] in r;
        assert r[k] == a || exists n :: 0 <= n < |rest| && rest[n] == r[k];
      }
    }
  }

  predicate AllLive(alarms: seq<Alarm>) {
    forall i :: 0 <= i < |alarms| ==> !alarms[i].cancel && alarms[i].time > 0
  }

  lemma {:induction false} InsertLive(alarms: seq<Alarm>, a: Alarm)
    requires !a.cancel && a.time > 0 && AllLive(alarms)
    ensures AllLive(Insert(alarms, a))
  {
    if alarms == [] || alarms[0].time >= a.time {
    } else {
      InsertLive(alarms[1..], a);
    }
  }

  /** A new alarm never goes before a cancelled one. */
  lemma InsertCancelled(alarms: seq<Alarm>, a: Alarm)
    requires OnlyFirstCancelled(alarms) && a.time > 0 && !a.cancel
    ensures OnlyFirstCancelled(Insert(alarms, a))
  {
    if alarms == [] || alarms[0].time >= a.time {
      assert AllLive(alarms) by { if alarms != [] { assert !alarms[0].cancel; } }
    } else {
      InsertLive(alarms[1..], a);
    }
  }

  lemma AddKeeps(q: Queue, ap: nat, seconds: nat)
    requires Inv(q)
    ensures Inv(Add(q, ap, seconds))
  {
    if seconds > 0 {
      InsertSorted(q.alarms, Alarm(q.now + seconds, false, ap));
      InsertCancelled(q.alarms, Alarm(q.now + seconds, false, ap));
    }
  }

  lemma {:induction false} WithoutIs(alarms: seq<Alarm>, ap: nat)
    ensures forall x :: x in Without(alarms, ap) <==> x in alarms && x.ap != ap
    ensures Sorted(alarms) ==> Sorted(Without(alarms, ap))
  {
    if alarms == [] {
    } else {
      WithoutIs(alarms[1..], ap);
      assert alarms == [alarms[0]] + alarms[1..];
      var r := Without(alarms[1..], ap);
      assert forall k :: 0 <= k < |r| ==> r[k] in alarms[1..];
    }
  }

  lemma DeleteKeeps(q: Queue, ap: nat)
    requires Inv(q)
    ensures Inv(Delete(q, ap))
  {
    if q.alarms != [] {
      var first, tail := q.alarms[0], q.alarms[1..];
      WithoutIs(tail, ap);
      var r := Without(tail, ap);
      forall k | 0 <= k < |r| ensures !r[k].cancel && r[k].time > 0 && first.time <= r[k].time {
        assert r[k] in tail;
        var n :| 0 <= n < |tail| && tail[n] == r[k];
        assert q.alarms[n + 1] == r[k];
      }
      PrependKeeps(first, r);
      PrependKeeps(Alarm(0, true, ap), r);
    }
  }

  lemma PrependKeeps(a: Alarm, r: seq<Alarm>)
    requires Sorted(r) && AllLive(r) && (a.cancel <==> a.time == 0)
    requires forall k :: 0 <= k < |r| ==> a.time <= r[k].time
    ensures Sorted([a] + r) && OnlyFirstCancelled([a] + r)
  {
  }

  lemma StepKeeps(q: Queue, e: Event)
    requires Inv(q) && Enabled(q, e)
    ensures Inv(Step(q, e))
  {
    match e
    case AddAlarm(ap, seconds) => AddKeeps(q, ap, seconds);
    case CondAdd(ap, seconds, _) => AddKeeps(q, ap, seconds);
    case DeleteAlarms(ap) => DeleteKeeps(q, ap);
    case _ =>
  }

  lemma {:induction false} RunKeeps(q: Queue, es: seq<Event>)
    requires Inv(q) && Feasible(q, es)
    ensures Inv(Run(q, es))
    decreases |es|
  {
    if es == [] {
    } else {
      StepKeeps(q, es[0]);
      RunKeeps(Step(q, es[0]), es[1..]);
    }
  }

  // ----- over every run

  /** The list is always sorted, and a handler that sleeps with no signal on its way sleeps
      until the first alarm, or for as long as there is none. */
  lemma SleepsUntilFirst(es: seq<Event>)
    requires Feasible(EMPTY, es)
    ensures var q := Run(EMPTY, es);
      && Sorted(q.alarms) && OnlyFirstCancelled(q.alarms)
      && (q.handler.Sleeping? && !q.signalled ==> q.handler.deadline == FirstTime(q.alarms))
  {
    RunKeeps(EMPTY, es);
  }

  /** The alarms of `ap` are all cancelled. */
  predicate Dead(q: Queue, ap: nat) {
    forall k :: 0 <= k < |q.alarms| && q.alarms[k].ap == ap ==> q.alarms[k].cancel
  }

  lemma {:induction false} WithoutTwice(alarms: seq<Alarm>, ap: nat)
    ensures Without(Without(alarms, ap), ap) == Without(alarms, ap)
  {
    if alarms == [] {
    } else {
      WithoutTwice(alarms[1..], ap);
    }
  }

  /** After alarm_delete each listed alarm of the point is cancelled, at most one is left, and
      those of the other points are as they were. */
  lemma DeleteCancels(q: Queue, ap: nat)
    requires Inv(q)
    ensures Dead(Delete(q, ap), ap)
    ensures forall k :: 0 <= k < |Delete(q, ap).alarms| && Delete(q, ap).alarms[k].ap == ap ==>
              k == 0 && Delete(q, ap).alarms[k].cancel
    ensures Without(Delete(q, ap).alarms, ap) == Without(q.alarms, ap)
  {
    if q.alarms != [] {
      var tail := q.alarms[1..];
      WithoutIs(tail, ap);
      WithoutTwice(tail, ap);
      assert Delete(q, ap).alarms[1..] == Without(tail, ap);
      forall k | 0 <= k < |Without(tail, ap)| ensures Without(tail, ap)[k].ap != ap {
        assert Without(tail, ap)[k] in Without(tail, ap);
      }
    }
  }

  predicate AddsFor(e: Event, ap: nat) {
    (e.AddAlarm? || e.CondAdd?) && e.ap == ap
  }

  function Times(posted: seq<nat>, ap: nat): nat {
    multiset(posted)[ap]
  }

  /** The tasks posted for the point, with the one the handler is about to post. */
  function Sent(q: Queue, ap: nat): nat {
    Times(q.posted, ap) + (if q.handler == Posting(ap) then 1 else 0)
  }

  lemma DeadStays(q: Queue, e: Event, ap: nat)
    requires Inv(q) && Dead(q, ap) && Enabled(q, e) && !AddsFor(e, ap)
    ensures Dead(Step(q, e), ap) && Sent(Step(q, e), ap) == Sent(q, ap)
  {
    match e
    case AddAlarm(p, seconds) => AddOther(q, ap, p, seconds);
    case CondAdd(p, seconds, _) => AddOther(q, ap, p, seconds);
    case DeleteAlarms(p) => DeleteOther(q, ap, p);
    case _ =>
  }

  lemma AddOther(q: Queue, ap: nat, p: nat, seconds: nat)
    requires Dead(q, ap) && p != ap
    ensures Dead(Add(q, p, seconds), ap)
  {
    var a := Alarm(q.now + seconds, false, p);
    InsertMembers(q.alarms, a);
    var l := Insert(q.alarms, a);
    forall k | 0 <= k < |l| && l[k].ap == ap ensures l[k].cancel {
      assert l[k] in l;
      assert l[k] in q.alarms;
    }
  }

  lemma DeleteOther(q: Queue, ap: nat, p: nat)
    requires Dead(q, ap)
    ensures Dead(Delete(q, p), ap)
  {
    if q.alarms != [] {
      var tail := q.alarms[1..];
      var l := Without(tail, p);
      WithoutIs(tail, p);
      forall k | 0 <= k < |l| && l[k].ap == ap ensures l[k].cancel {
        assert l[k] in tail;
        var n :| 0 <= n < |tail| && tail[n] == l[k];
        assert q.alarms[n + 1] == l[k];
      }
      var d := Delete(q, p).alarms;
      assert forall k :: 1 <= k < |d| ==> d[k] == l[k - 1];
    }
  }

  lemma {:induction false} DeadSendsNothing(q: Queue, es: seq<Event>, ap: nat)
    requires Inv(q) && Dead(q, ap) && Feasible(q, es)
    requires forall k :: 0 <= k < |es| ==> !AddsFor(es[k], ap)
    ensures Sent(Run(q, es), ap) == Sent(q, ap)
    decreases |es|
  {
    if es == [] {
    } else {
      DeadStays(q, es[0], ap);
      StepKeeps(q, es[0]);
      DeadSendsNothing(Step(q, es[0]), es[1..], ap);
    }
  }

  /** From a deletion on, until an alarm is added for the point again, at most one task is posted
      for it, however the threads go on: none if the handler was not posting for the point when
      the alarms were deleted, and if it was exactly the task it was posting, once it has. */
  lemma DeletedPostsIff(before: seq<Event>, ap: nat, after: seq<Event>)
    requires Feasible(EMPTY, before) && Feasible(Delete(Run(EMPTY, before), ap), after)
    requires forall k :: 0 <= k < |after| ==> !AddsFor(after[k], ap)
    ensures var q := Run(EMPTY, before); var q' := Run(Delete(q, ap), after);
      Times(q'.posted, ap) ==
        Times(q.posted, ap) + (if q.handler == Posting(ap) && q'.handler != Posting(ap) then 1 else 0)
  {
    RunKeeps(EMPTY, before);
    var q := Run(EMPTY, before);
    DeleteKeeps(q, ap);
    DeleteCancels(q, ap);
    DeadSendsNothing(Delete(q, ap), after, ap);
    PostedGrows(Delete(q, ap), after, ap);
  }

  lemma {:induction false} PostedGrows(q: Queue, es: seq<Event>, ap: nat)
    ensures Times(Run(q, es).posted, ap) >= Times(q.posted, ap)
    decreases |es|
  {
    if es == [] {
    } else {
      PostedGrows(Step(q, es[0]), es[1..], ap);
    }
  }

  /** The mutex is released before the task is posted, so a deletion can come in between: the
      task is posted after the alarms were deleted. */
  lemma TaskAfterDelete()
    ensures var es := [AddAlarm(7, 1), Tick, Loop, DeleteAlarms(7), PostTask];
      Feasible(EMPTY, es) && Run(EMPTY, es).posted == [7]
  {
    var q1 := Add(EMPTY, 7, 1);
    assert q1.alarms == [Alarm(1, false, 7)];
    var es := [AddAlarm(7, 1), Tick, Loop, DeleteAlarms(7), PostTask];
    assert es[1..] == [Tick, Loop, DeleteAlarms(7), PostTask];
    assert es[1..][1..] == [Loop, DeleteAlarms(7), PostTask];
    assert es[1..][1..][1..] == [DeleteAlarms(7), PostTask];
    assert [DeleteAlarms(7), PostTask][1..] == [PostTask] && [PostTask][1..] == [];
  }

  // ----- no alarm is lost or run twice

  function LiveOf(alarms: seq<Alarm>, ap: nat): nat {
    if alarms == [] then 0
    else if alarms[0].ap == ap && !alarms[0].cancel then 1 + LiveOf(alarms[1..], ap)
    else LiveOf(alarms[1..], ap)
  }

  /** The alarms of the point that are listed, being posted or posted. */
  function Accounted(q: Queue, ap: nat): nat {
    LiveOf(q.alarms, ap) + (if q.handler == Posting(ap) then 1 else 0) + Times(q.posted, ap)
  }

  lemma {:induction false} LiveOfInsert(alarms: seq<Alarm>, a: Alarm, ap: nat)
    ensures LiveOf(Insert(alarms, a), ap) == LiveOf(alarms, ap) + (if a.ap == ap && !a.cancel then 1 else 0)
  {
    if alarms == [] || alarms[0].time >= a.time {
      assert Insert(alarms, a)[1..] == alarms;
    } else {
      assert Insert(alarms, a)[1..] == Insert(alarms[1..], a);
      LiveOfInsert(alarms[1..], a, ap);
    }
  }

  lemma {:induction false} LiveOfWithout(alarms: seq<Alarm>, ap: nat, p: nat)
    ensures LiveOf(Without(alarms, p), ap) == if ap == p then 0 else LiveOf(alarms, ap)
  {
    if alarms == [] {
    } else {
      LiveOfWithout(alarms[1..], ap, p);
    }
  }

  /** The alarms an event adds for the point. */
  function Added(q: Queue, e: Event, ap: nat): nat {
    match e
    case AddAlarm(p, seconds) => if p == ap && seconds > 0 then 1 else 0
    case CondAdd(p, seconds, wanted) => if p == ap && seconds > 0 && wanted && !Exists(q.alarms, ap) then 1 else 0
    case _ => 0
  }

  lemma StepAccounts(q: Queue, e: Event, ap: nat)
    requires Enabled(q, e) && e != DeleteAlarms(ap)
    ensures Accounted(Step(q, e), ap) == Accounted(q, ap) + Added(q, e, ap)
  {
    match e
    case AddAlarm(p, seconds) => LiveOfInsert(q.alarms, Alarm(q.now + seconds, false, p), ap);
    case CondAdd(p, seconds, _) => LiveOfInsert(q.alarms, Alarm(q.now + seconds, false, p), ap);
    case DeleteAlarms(p) => DeleteAccounts(q, p, ap);
    case _ =>
  }

  lemma DeleteAccounts(q: Queue, p: nat, ap: nat)
    requires p != ap
    ensures Accounted(Delete(q, p), ap) == Accounted(q, ap)
  {
    if q.alarms != [] {
      LiveOfWithout(q.alarms[1..], ap, p);
      assert Delete(q, p).alarms[1..] == Without(q.alarms[1..], p);
    }
  }

  function AddedIn(q: Queue, es: seq<Event>, ap: nat): nat
    decreases |es|
  {
    if es == [] then 0 else Added(q, es[0], ap) + AddedIn(Step(q, es[0]), es[1..], ap)
  }

  /** Unless the point's alarms are deleted, each alarm added for it is either still to come or
      was posted, and posted once. */
  lemma {:induction false} NoAlarmLost(q: Queue, es: seq<Event>, ap: nat)
    requires Feasible(q, es) && forall k :: 0 <= k < |es| ==> es[k] != DeleteAlarms(ap)
    ensures Accounted(Run(q, es), ap) == Accounted(q, ap) + AddedIn(q, es, ap)
    decreases |es|
  {
    if es == [] {
    } else {
      StepAccounts(q, es[0], ap);
      NoAlarmLost(Step(q, es[0]), es[1..], ap);
    }
  }

  // ----- conditional_alarm_add and cancelled alarms

  lemma {:induction false} LiveExists(alarms: seq<Alarm>, ap: nat)
    ensures LiveOf(alarms, ap) > 0 ==> Exists(alarms, ap)
  {
    if alarms == [] {
    } else {
      LiveExists(alarms[1..], ap);
      if Exists(alarms[1..], ap) {
        var k :| 0 <= k < |alarms[1..]| && alarms[1..][k].ap == ap;
        assert alarms[k + 1].ap == ap;
      }
    }
  }

  /** conditional_alarm_add leaves the point with an alarm that will run exactly when it had
      one, or had none listed at all: a cancelled alarm passes for a pending one. */
  lemma ConditionalAddIff(q: Queue, ap: nat, seconds: nat)
    requires seconds > 0
    ensures LiveOf(ConditionalAdd(q, ap, seconds, true).alarms, ap) > 0
       <==> LiveOf(q.alarms, ap) > 0 || !Exists(q.alarms, ap)
  {
    LiveExists(q.alarms, ap);
    LiveOfInsert(q.alarms, Alarm(q.now + seconds, false, ap), ap);
  }

  /** An alarm asked for between the deletion of the point's first alarm and the handler's next
      round is not set, and none ever runs. */
  lemma AlarmMissed()
    ensures var es := [AddAlarm(7, 10), DeleteAlarms(7), CondAdd(7, 10, true), Loop, Loop];
      var q := Run(EMPTY, es);
      Feasible(EMPTY, es) && q.alarms == [] && q.posted == [] && q.handler == Sleeping(None)
  {
    var q1 := Add(EMPTY, 7, 10);
    assert q1.alarms == [Alarm(10, false, 7)];
    var q2 := Delete(q1, 7);
    assert Without(q1.alarms[1..], 7) == [];
    assert q2.alarms == [Alarm(0, true, 7)];
    assert Exists(q2.alarms, 7) by { assert q2.alarms[0].ap == 7; }
    var es := [AddAlarm(7, 10), DeleteAlarms(7), CondAdd(7, 10, true), Loop, Loop];
    assert es[1..] == [DeleteAlarms(7), CondAdd(7, 10, true), Loop, Loop];
    assert es[1..][1..] == [CondAdd(7, 10, true), Loop, Loop];
    assert es[1..][1..][1..] == [Loop, Loop];
    assert [Loop, Loop][1..] == [Loop];
  }

  // ----- what is due is run

  /** The points whose alarms are due, in the order of the list. */
  function Due(alarms: seq<Alarm>, now: nat): seq<nat> {
    if alarms == [] || alarms[0].time > now then []
    else if alarms[0].cancel then Due(alarms[1..], now)
    else [alarms[0].ap] + Due(alarms[1..], now)
  }

  function NotDue(alarms: seq<Alarm>, now: nat): seq<Alarm> {
    if alarms == [] || alarms[0].time > now then alarms else NotDue(alarms[1..], now)
  }

  /** In a sorted list that is every alarm due and not cancelled, however far down. */
  lemma {:induction false} DueIsComplete(alarms: seq<Alarm>, now: nat, k: nat)
    requires Sorted(alarms) && k < |alarms|
    ensures alarms[k].time <= now && !alarms[k].cancel ==> alarms[k].ap in Due(alarms, now)
    ensures alarms[k] in NotDue(alarms, now) ==> alarms[k].time > now
  {
    if alarms[0].time > now {
      assert alarms[0].time <= alarms[k].time;
    } else if k == 0 {
      NotDueLater(alarms[1..], now);
    } else {
      DueIsComplete(alarms[1..], now, k - 1);
    }
  }

  lemma {:induction false} NotDueLater(alarms: seq<Alarm>, now: nat)
    requires Sorted(alarms)
    ensures forall x :: x in NotDue(alarms, now) ==> x.time > now
  {
    if alarms == [] || alarms[0].time > now {
    } else {
      NotDueLater(alarms[1..], now);
    }
  }

  /** In every run, a handler that sleeps although an alarm is due has its wake-up coming. */
  lemma DueWakes(es: seq<Event>)
    requires Feasible(EMPTY, es)
    requires var q := Run(EMPTY, es); q.handler.Sleeping? && q.alarms != [] && q.alarms[0].time <= q.now
    ensures var q := Run(EMPTY, es);
      q.signalled || (q.handler.deadline.Some? && q.handler.deadline.value <= q.now)
  {
    RunKeeps(EMPTY, es);
  }

  /** Left to itself, a woken handler posts what is due, in order, and goes back to sleep until
      the next alarm. */
  lemma {:induction false} HandlerRuns(q: Queue) returns (es: seq<Event>)
    requires q.handler.Awake?
    ensures Feasible(q, es)
    ensures var q' := Run(q, es);
      && q'.posted == q.posted + Due(q.alarms, q.now) && q'.alarms == NotDue(q.alarms, q.now) && q'.now == q.now
      && q'.handler == Sleeping(FirstTime(q'.alarms))
    decreases |q.alarms|
  {
    var q1 := Round(q);
    if q.alarms == [] || q.alarms[0].time > q.now {
      es := [Loop];
      assert Run(q1, es[1..]) == q1;
    } else if q.alarms[0].cancel {
      var rest := HandlerRuns(q1);
      es := [Loop] + rest;
      assert es[1..] == rest;
    } else {
      var q2 := Post(q1);
      var rest := HandlerRuns(q2);
      es := [Loop, PostTask] + rest;
      assert es[1..] == [PostTask] + rest && es[1..][1..] == rest;
      assert q.posted + Due(q.alarms, q.now) == q2.posted + Due(q.alarms[1..], q.now);
    }
  }

  // ----- waking the handler

  /** Adding an alarm wakes a sleeping handler exactly when it would otherwise sleep too long: when
      the first alarm comes earlier than before.  A handler that is not asleep is not signalled. */
  lemma AddWakesIff(q: Queue, ap: nat, seconds: nat)
    requires Sorted(q.alarms)
    ensures var q' := Add(q, ap, seconds);
      && q'.handler == q.handler && q'.now == q.now && q'.posted == q.posted
      && (q'.signalled <==> q.signalled || (q.handler.Sleeping? && FirstTime(q'.alarms) != FirstTime(q.alarms)))
  {
  }

  /** Deleting wakes it exactly when the alarm it sleeps for is the point's. */
  lemma DeleteWakesIff(q: Queue, ap: nat)
    ensures var q' := Delete(q, ap);
      && q'.handler == q.handler && q'.now == q.now && q'.posted == q.posted
      && (q'.signalled <==> q.signalled || (q.handler.Sleeping? && q.alarms != [] && q.alarms[0].ap == ap))
  {
  }

  /** In every run a signal is pending only while the handler sleeps. */
  lemma SignalIsForSleeper(es: seq<Event>)
    requires Feasible(EMPTY, es)
    ensures Run(EMPTY, es).signalled ==> Run(EMPTY, es).handler.Sleeping?
  {
    SignalledSleeps(EMPTY, es);
  }

  lemma {:induction false} SignalledSleeps(q: Queue, es: seq<Event>)
    requires Feasible(q, es) && (q.signalled ==> q.handler.Sleeping?)
    ensures Run(q, es).signalled ==> Run(q, es).handler.Sleeping?
    decreases |es|
  {
    if es == [] {
    } else {
      SignalledSleeps(Step(q, es[0]), es[1..]);
    }
  }

  /** Only a sleeping handler wakes, only an awake one looks at the list, and only one that has taken
      an alarm posts.  Waking uses the signal up, going to sleep starts without one, and neither
      changes the list; time goes on by itself. */
  lemma HandlerSteps(q: Queue)
    ensures Enabled(q, Wake) <==> q.handler.Sleeping?
    ensures Enabled(q, Loop) <==> q.handler.Awake?
    ensures Enabled(q, PostTask) <==> q.handler.Posting?
    ensures Step(q, Wake) == q.(handler := Awake, signalled := false)
    ensures Step(q, Tick) == q.(now := q.now + 1)
    ensures var q' := Step(q, Loop); q'.handler.Sleeping? ==> q' == q.(handler := q'.handler, signalled := false)
  {
  }
}
