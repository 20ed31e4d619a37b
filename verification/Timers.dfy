/** The timer objects and their queue, updated in place.
    The priority queue is the set of queued timers; `Top` may return any one of least time,
    so nothing here depends on how the heap breaks ties. */
module Timers {
  import opened TimerSchedule

  datatype TimeState = Pending | Executing | Cancelled

  class Timer {
    var time: int
    const interval: nat
    var state: TimeState

    constructor (startTime: int, interval: nat)
      ensures time == startTime && this.interval == interval && state == Pending
    {
      this.time, this.interval, this.state := startTime, interval, Pending;
    }

    predicate IsCancelled()
      reads this
    {
      state == Cancelled
    }

    ghost function Data(): TimerData
      reads this
    {
      TimerData(time, interval, IsCancelled())
    }

    method Cancel()
      modifies this
      ensures Data() == old(Data()).(cancelled := true) && IsCancelled()
    {
      if IsCancelled() {
        return;
      }
      state := Cancelled;
    }

    /** Runs the handler, then retires a one-shot timer or moves a repeating one on by its
        interval.  A timer cancelled by its own handler keeps its time. */
    method TriggerTimer(owner: TimerQueue, now: int) returns (ghost eff: Effect<Timer>)
      requires owner.Valid() && this !in owner.timeQueue && state == Pending
      modifies this, owner, owner.timeQueue
      ensures owner.Valid() && owner.gone == old(owner.gone) && this !in owner.timeQueue
      ensures owner.AfterHandler(old(owner.timeQueue), old(owner.Queue()), now, eff)
      ensures this !in eff.adds && fresh(eff.adds.Keys)
      ensures owner.timeQueue !! owner.gone
      ensures interval == 0 || this in eff.cancels ==> IsCancelled()
      ensures !(interval == 0 || this in eff.cancels) ==>
                state == Pending && Data() == old(Data()).(time := old(time) + interval)
    {
      state := Executing;
      eff := owner.HandleTimeout(this, now);
      if interval == 0 && !IsCancelled() {
        Cancel();
      }
      if !IsCancelled() {
        time := time + interval;
        state := Pending;
      }
    }
  }

  class TimerQueue {
    var timeQueue: set<Timer>
    ghost var gone: set<Timer>  // timers that have left the queue for good

    ghost predicate Valid()
      reads this, timeQueue
    {
      && timeQueue !! gone
      && forall t :: t in timeQueue ==> t.state != Executing
    }

    ghost function Queue(): map<Timer, TimerData>
      reads this, timeQueue
    {
      map t | t in timeQueue :: t.Data()
    }

    ghost function State(): Sched<Timer>
      reads this, timeQueue
    {
      Sched(Queue(), gone)
    }

    ghost predicate AfterHandler(was: set<Timer>, q: map<Timer, TimerData>, now: int, eff: Effect<Timer>)
      reads this, timeQueue
    {
      && timeQueue == was + eff.adds.Keys
      && eff.adds.Keys !! was
      && eff.adds.Keys !! gone
      && (forall t :: t in eff.adds ==> eff.adds[t].time > now)
      && Queue() == CancelAll(q + eff.adds, eff.cancels)
    }

    constructor ()
      ensures Valid() && State() == Sched(map[], {})
    {
      timeQueue, gone := {}, {};
    }

    method Add(startTime: int, interval: nat) returns (t: Timer)
      requires Valid()
      modifies this
      ensures Valid() && fresh(t) && gone == old(gone)
      ensures timeQueue == old(timeQueue) + {t}
      ensures t.Data() == TimerData(startTime, interval, false)
      ensures Queue() == old(Queue())[t := t.Data()]
    {
      t := new Timer(startTime, interval);
      timeQueue := timeQueue + {t};
    }

    /** The user's handler: it may add any number of timers that expire after `now` and
        cancel any timers, its own included.  The choices are left open. */
    method HandleTimeout(t: Timer, now: int) returns (ghost eff: Effect<Timer>)
      requires Valid() && t !in timeQueue && t.state == Executing
      modifies this, timeQueue, t
      ensures Valid() && gone == old(gone) && t !in timeQueue
      ensures AfterHandler(old(timeQueue), old(Queue()), now, eff)
      ensures t !in eff.adds && fresh(eff.adds.Keys)
      ensures t.Data() == old(t.Data()).(cancelled := t in eff.cancels)
      ensures t.state == if t in eff.cancels then Cancelled else Executing
    {
      ghost var adds := AddSome(now);
      ghost var q := Queue();
      assert forall u :: u in old(timeQueue) ==> u.Data() == old(u.Data());
      assert q == old(Queue()) + adds;
      ghost var done := CancelSome(t);
      eff := Effect(done, adds);
    }

    method AddSome(now: int) returns (ghost adds: map<Timer, TimerData>)
      requires Valid()
      modifies this
      ensures Valid() && gone == old(gone) && fresh(adds.Keys)
      ensures timeQueue == old(timeQueue) + adds.Keys
      ensures forall u :: u in adds ==> adds[u].time > now && u.Data() == adds[u]
    {
      adds := map[];
      var howMany :| 0 <= howMany;
      while howMany > 0
        invariant Valid() && gone == old(gone) && fresh(adds.Keys)
        invariant timeQueue == old(timeQueue) + adds.Keys
        invariant forall u :: u in adds ==> adds[u].time > now && u.Data() == adds[u]
      {
        var delay :| 0 <= delay;
        var interval :| 0 <= interval;
        var u := Add(now + 1 + delay, interval);
        adds := adds[u := u.Data()];
        howMany := howMany - 1;
      }
    }

    method CancelSome(t: Timer) returns (ghost done: set<Timer>)
      requires Valid() && t !in timeQueue && t.state == Executing
      modifies timeQueue, t
      ensures Valid() && Queue() == CancelAll(old(Queue()), done)
      ensures t.Data() == old(t.Data()).(cancelled := t in done)
      ensures t.state == if t in done then Cancelled else Executing
    {
      var chosen: set<Timer> := *;
      var victims := chosen * (timeQueue + {t});
      done := {};
      while victims != {}
        invariant victims <= timeQueue + {t} && Valid()
        invariant forall u :: u in timeQueue ==>
            u.Data() == if u in done then old(u.Data()).(cancelled := true) else old(u.Data())
        invariant t.Data() == old(t.Data()).(cancelled := t in done)
        invariant t.state == if t in done then Cancelled else Executing
        decreases |victims|
      {
        var v :| v in victims;
        v.Cancel();
        victims, done := victims - {v}, done + {v};
      }
    }

    method Top() returns (t: Timer)
      requires timeQueue != {}
      ensures IsTop(Queue(), t)
    {
      LeastTimeExists(timeQueue);
      t :| t in timeQueue && forall o :: o in timeQueue ==> t.time <= o.time;
    }

    lemma LeastTimeExists(ts: set<Timer>)
      requires ts != {}
      ensures exists t :: t in ts && forall o :: o in ts ==> t.time <= o.time
    {
      var t :| t in ts;
      if ts != {t} {
        LeastTimeExists(ts - {t});
        var u :| u in ts - {t} && forall o :: o in ts - {t} ==> u.time <= o.time;
        var least := if t.time <= u.time then t else u;
        assert least in ts && forall o :: o in ts ==> least.time <= o.time;
      }
    }

    /** Fires a popped live timer and pushes it back if it is still live. */
    method FireTop(t: Timer, now: int) returns (ghost e: Event<Timer>)
      requires Valid() && IsTop(Queue(), t) && t.time <= now && !t.IsCancelled()
      modifies this, timeQueue
      ensures Valid() && fresh(timeQueue - old(timeQueue)) && e.Fire?
      ensures Enabled(old(State()), now, e) && State() == Apply(old(State()), e)
    {
      timeQueue := timeQueue - {t};
      assert Queue() == old(Queue()) - {t};
      ghost var at := t.time;
      ghost var eff := t.TriggerTimer(this, now);
      e := Fire(t, at, eff);
      PushBack(t);
    }

    /** A popped timer goes back in the queue unless it was cancelled. */
    method PushBack(t: Timer)
      requires Valid() && t !in timeQueue && t !in gone && t.state != Executing
      modifies this
      ensures Valid() && timeQueue == if t.IsCancelled() then old(timeQueue) else old(timeQueue) + {t}
      ensures State() == if t.IsCancelled() then Sched(old(Queue()), old(gone) + {t})
              else Sched(old(Queue())[t := t.Data()], old(gone))
    {
      if !t.IsCancelled() {
        timeQueue := timeQueue + {t};
      } else {
        gone := gone + {t};
      }
    }

    /** One iteration of the pass: pop the top, fire or purge it, and push it back if it is
        still live. */
    method ProcessTop(t: Timer, now: int) returns (fired: bool, ghost e: Event<Timer>)
      requires Valid() && IsTop(Queue(), t) && (t.time <= now || t.IsCancelled())
      modifies this, timeQueue
      ensures Valid() && fresh(timeQueue - old(timeQueue))
      ensures Enabled(old(State()), now, e) && State() == Apply(old(State()), e)
      ensures fired == e.Fire?
    {
      fired := !t.IsCancelled();
      if fired {
        e := FireTop(t, now);
      } else {
        e := Purge(t);
        timeQueue, gone := timeQueue - {t}, gone + {t};
        assert Queue() == old(Queue()) - {t};
      }
    }

    /** One pass at `now`: it terminates, it follows the scheduler's state machine until the
        queue is quiet, and it returns the number of handler calls. */
    method Process(now: int) returns (numFired: nat, ghost es: seq<Event<Timer>>)
      requires Valid()
      modifies this, timeQueue
      ensures Valid() && fresh(timeQueue - old(timeQueue))
      ensures Run(old(State()), now, es, State()) && Quiet(Queue(), now)
      ensures numFired == FireCount(es)
    {
      numFired, es := 0, [];
      ghost var s0 := State();
      while timeQueue != {}
        invariant Valid() && fresh(timeQueue - old(timeQueue))
        invariant Run(s0, now, es, State())
        invariant numFired == FireCount(es)
        decreases Backlog(Queue(), now), |Queue()|
      {
        var t := Top();
        if !(t.time <= now || t.IsCancelled()) {
          assert t in Queue() && Queue()[t].time > now;
          break;
        }
        ghost var before := State();
        var fired, e := ProcessTop(t, now);
        if fired {
          numFired := numFired + 1;
        }
        Extend(s0, now, es, before, e);
        es := es + [e];
      }
      assert timeQueue == {} ==> Queue() == map[];
    }

    /** Never more than the distance to any queued timer, and zero once a timer is overdue. */
    method NextExp(now: int) returns (r: nat)
      ensures timeQueue == {} ==> r == 0
      ensures timeQueue != {} ==>
                exists t :: t in timeQueue && IsTop(Queue(), t) && r == (if now > t.time then 0 else t.time - now)
    {
      if timeQueue == {} {
        return 0;
      }
      var t := Top();
      r := if now > t.time then 0 else t.time - now;
    }

    method DropTop() returns (t: Timer)
      requires timeQueue != {}
      modifies this, timeQueue
      ensures t in old(timeQueue) && timeQueue == old(timeQueue) - {t} && gone == old(gone) + {t}
      ensures t.IsCancelled() && t.time == old(t.time)
      ensures forall o :: o in timeQueue ==> o.time == old(o.time) && o.state == old(o.state)
    {
      t := Top();
      timeQueue, gone := timeQueue - {t}, gone + {t};
      if !t.IsCancelled() {
        t.Cancel();
      }
    }

    /** Empties the queue; every timer that was in it ends up cancelled. */
    method Clear()
      requires Valid()
      modifies this, timeQueue
      ensures Valid() && timeQueue == {} && gone == old(gone) + old(timeQueue)
      ensures forall t :: t in old(timeQueue) ==> t.IsCancelled() && t.time == old(t.time)
    {
      while timeQueue != {}
        invariant timeQueue <= old(timeQueue) && gone + timeQueue == old(gone + timeQueue)
        invariant forall t :: t in old(timeQueue) ==> t.time == old(t.time) && (t in timeQueue || t.IsCancelled())
        decreases |timeQueue|
      {
        var t := DropTop();
      }
    }
  }
}
