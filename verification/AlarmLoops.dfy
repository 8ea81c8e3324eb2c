/** The alarm list as the source updates it: in place, by loops over the list
    (lib/alarm.c:44-257). */
module AlarmLoops {
  import opened Options
  import opened AlarmQueue

  lemma {:induction false} InsertAt(alarms: seq<Alarm>, a: Alarm, k: nat)
    requires k <= |alarms|
    requires forall i :: 0 <= i < k ==> alarms[i].time < a.time
    requires k < |alarms| ==> alarms[k].time >= a.time
    ensures Insert(alarms, a) == alarms[..k] + [a] + alarms[k..]
  {
    if k == 0 {
      assert alarms[..0] == [] && alarms[0..] == alarms;
    } else {
      var rest := alarms[1..];
      InsertAt(rest, a, k - 1);
      assert alarms[..k] == [alarms[0]] + rest[..k - 1];
      assert alarms[k..] == rest[k - 1..];
    }
  }

  lemma WithoutFrom(alarms: seq<Alarm>, k: nat, ap: nat)
    requires k < |alarms|
    ensures Without(alarms[k..], ap)
         == if alarms[k].ap == ap then Without(alarms[k + 1..], ap) else [alarms[k]] + Without(alarms[k + 1..], ap)
  {
    assert alarms[k..][0] == alarms[k] && alarms[k..][1..] == alarms[k + 1..];
  }

  lemma CutAt(alarms: seq<Alarm>, k: nat)
    requires k < |alarms|
    ensures var cut := alarms[..k] + alarms[k + 1..]; cut[..k] == alarms[..k] && cut[k..] == alarms[k + 1..]
  {
  }

  /** Keeping the alarm at `k` moves it from the part to do to the part done. */
  lemma KeepAt(alarms: seq<Alarm>, k: nat, rest: seq<Alarm>)
    requires k < |alarms|
    ensures alarms[..k] + ([alarms[k]] + rest) == alarms[..k + 1] + rest
  {
    assert alarms[..k + 1] == alarms[..k] + [alarms[k]];
  }

  class Alarms {
    var alarms: seq<Alarm>
    var handler: Handler
    var signalled: bool
    var now: nat
    var posted: seq<nat>

    ghost function Abs(): Queue
      reads this
    {
      Queue(alarms, handler, signalled, now, posted)
    }

    constructor ()
      ensures Abs() == EMPTY
    {
      alarms, handler, signalled, now, posted := [], Awake, false, 0, [];
    }

    /** pthread_cond_signal */
    method CondSignal()
      modifies this`signalled
      ensures Abs() == Signal(old(Abs()))
    {
      if handler.Sleeping? {
        signalled := true;
      }
    }

    /** __alarm_add */
    method AlarmAdd(ap: nat, seconds: nat)
      modifies this`alarms, this`signalled
      ensures Abs() == Add(old(Abs()), ap, seconds)
    {
      if seconds == 0 {
        return;
      }
      var new_ := Alarm(now + seconds, false, ap);
      var empty := alarms == [];
      var nextAlarm := if empty then 0 else alarms[0].time;
      var k := 0;
      while k < |alarms| && alarms[k].time < new_.time
        invariant k <= |alarms|
        invariant forall i :: 0 <= i < k ==> alarms[i].time < new_.time
      {
        k := k + 1;
      }
      InsertAt(alarms, new_, k);
      alarms := alarms[..k] + [new_] + alarms[k..];
      if empty || new_.time < nextAlarm {
        CondSignal();
      }
    }

    /** __alarm_exists */
    method AlarmExists(ap: nat) returns (yes: bool)
      ensures yes <==> Exists(alarms, ap)
    {
      var k := 0;
      while k < |alarms|
        invariant k <= |alarms|
        invariant forall i :: 0 <= i < k ==> alarms[i].ap != ap
      {
        if alarms[k].ap == ap {
          return true;
        }
        k := k + 1;
      }
      return false;
    }

    /** conditional_alarm_add */
    method ConditionalAlarmAdd(ap: nat, seconds: nat, submount: bool, mounted: bool)
      modifies this`alarms, this`signalled
      ensures Abs() == ConditionalAdd(old(Abs()), ap, seconds, !submount && mounted)
    {
      if submount || !mounted {
        return;
      }
      var exists_ := AlarmExists(ap);
      if !exists_ {
        AlarmAdd(ap, seconds);
      }
    }

    /** The loop of alarm_delete past the first alarm: unlink those of the point */
    method UnlinkRest(ap: nat)
      requires alarms != []
      modifies this`alarms
      ensures alarms == old(alarms)[..1] + Without(old(alarms)[1..], ap)
    {
      var k := 1;
      while k < |alarms|
        invariant 1 <= k <= |alarms|
        invariant alarms[..k] + Without(alarms[k..], ap) == old(alarms)[..1] + Without(old(alarms)[1..], ap)
        decreases |alarms| - k
      {
        WithoutFrom(alarms, k, ap);
        if alarms[k].ap == ap {
          CutAt(alarms, k);
          alarms := alarms[..k] + alarms[k + 1..];
        } else {
          KeepAt(alarms, k, Without(alarms[k + 1..], ap));
          k := k + 1;
        }
      }
      assert alarms[..k] == alarms && alarms[k..] == [];
    }

    /** alarm_delete */
    method AlarmDelete(ap: nat)
      modifies this`alarms, this`signalled
      ensures Abs() == Delete(old(Abs()), ap)
    {
      if alarms == [] {
        return;
      }
      var signalCancel := alarms[0].ap == ap;
      ghost var tail := alarms[1..];
      if signalCancel {
        alarms := [alarms[0].(cancel := true, time := 0)] + alarms[1..];
      }
      assert alarms[1..] == tail && alarms[..1] == [alarms[0]];
      UnlinkRest(ap);
      if signalCancel {
        CondSignal();
      }
    }

    /** alarm_handler from one wake-up to the next sleep, with no other thread in between */
    method AlarmHandler()
      requires handler.Awake?
      modifies this
      ensures posted == old(posted) + Due(old(alarms), now) && now == old(now)
      ensures alarms == NotDue(old(alarms), now) && handler == Sleeping(FirstTime(alarms)) && !signalled
    {
      while alarms != [] && alarms[0].time <= now
        invariant now == old(now) && handler.Awake?
        invariant posted + Due(alarms, now) == old(posted) + Due(old(alarms), now)
        invariant NotDue(alarms, now) == NotDue(old(alarms), now)
        decreases |alarms|
      {
        var first := alarms[0];
        ghost var was := alarms;
        alarms := alarms[1..];
        if !first.cancel {
          assert Due(was, now) == [first.ap] + Due(alarms, now);
          posted := posted + [first.ap];
        }
      }
      handler := Sleeping(if alarms == [] then None else Some(alarms[0].time));
      signalled := false;
    }
  }
}
