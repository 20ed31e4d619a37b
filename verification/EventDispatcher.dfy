/** The event dispatcher: tasks, timers and network, turn by turn. */
module EventDispatcher {
  import opened TimerSchedule
  import opened Timers
  import opened Turns
  import opened Waiting
  import opened Interest
  import opened DispatcherRuns
  import Lists = Tasks
  import Pollers = EventPoller

  class EventDispatcher {
    var breakProcessing: Status
    var maxWait: int
    var numTimerCalls: nat
    const tasks: Lists.TaskList
    const timers: TimerQueue
    const poller: Pollers.EventPoller

    /** The source leaves the wait limit unset; whatever is there is `garbage`. */
    constructor (garbage: int)
      ensures Valid() && breakProcessing == Running && maxWait == garbage && numTimerCalls == 0
      ensures tasks.container == [] && timers.State() == Sched(map[], {}) && poller.State() == Empty
      ensures fresh(tasks) && fresh(timers) && fresh(poller) && fresh(poller.epoll)
    {
      breakProcessing, maxWait, numTimerCalls := Running, garbage, 0;
      tasks := new Lists.TaskList();
      timers := new TimerQueue();
      poller := new Pollers.EventPoller();
    }

    ghost function State(): World<Timer>
      reads this, tasks, timers, timers.timeQueue, poller, poller.epoll
    {
      World(breakProcessing, tasks.container, timers.State(), poller.State(), numTimerCalls)
    }

    ghost predicate Valid()
      reads this, timers, timers.timeQueue
    {
      timers.Valid()
    }

    /** The parameter is named for microseconds but counted in milliseconds.  A timer made here
        expires after now, and a repeating one has a positive interval. */
    method AddTimer(microseconds: nat, now: int, repeats: bool) returns (t: Timer?)
      requires Valid()
      modifies timers
      ensures Valid()
      ensures microseconds == 0 ==> t == null && timers.State() == old(timers.State())
      ensures microseconds > 0 ==>
                && t != null && fresh(t)
                && t.Data() == TimerData(now + microseconds * NsPerMs, if repeats then microseconds * NsPerMs else 0,
                  false)
                && t.time == now + microseconds * 1_000_000 &&
                  t.interval == (if repeats then microseconds * 1_000_000 else 0)
                && t.time > now && (t.interval == 0 <==> !repeats)
                && timers.Queue() == old(timers.Queue())[t := t.Data()] && timers.gone == old(timers.gone)
    {
      if microseconds <= 0 {
        return null;
      }
      t := timers.Add(now + microseconds * NsPerMs, if repeats then microseconds * NsPerMs else 0);
    }

    method BreakProcessing(breakState: bool)
      modifies this`breakProcessing
      ensures breakProcessing == if breakState then Break else Running
    {
      if breakState {
        breakProcessing := Break;
      } else {
        breakProcessing := Running;
      }
    }

    method SetWaitBreakProcessing()
      modifies this`breakProcessing
      ensures breakProcessing == WaitingBreak
    {
      breakProcessing := WaitingBreak;
    }

    method SetMaxWait(seconds: real)
      modifies this`maxWait
      ensures maxWait as real >= seconds * 1000.0 && (maxWait - 1) as real < seconds * 1000.0
    {
      maxWait := MaxWaitFrom(seconds);
    }

    /** The poller's timeout: the limit without timers, and otherwise as the first timer's distance
        says. */
    method CalculateWait(now: int) returns (wait: int)
      requires Valid()
      ensures wait == Timeout(timers.Queue(), maxWait, now)
      ensures TimeoutIs(timers.Queue(), maxWait, now, wait)
    {
      wait := maxWait;
      if timers.timeQueue != {} {
        var next := timers.NextExp(now);
        wait := WaitFor(maxWait, next);
        ghost var top :| top in timers.timeQueue && IsTop(timers.Queue(), top) &&
          next == if now > top.time then 0 else top.time - now;
        assert top in timers.Queue();
        NextExpIs(timers.Queue(), top, now);
        TimeoutExact(timers.Queue(), maxWait, now);
      } else {
        assert timers.Queue() == map[];
      }
    }

    method ProcessTimers(now: int) returns (ghost es: seq<Event<Timer>>)
      requires Valid()
      modifies this`numTimerCalls, timers, timers.timeQueue
      ensures Valid() && fresh(timers.timeQueue - old(timers.timeQueue))
      ensures TimerSchedule.Run(old(timers.State()), now, es, timers.State()) && Quiet(timers.Queue(), now)
      ensures numTimerCalls == (old(numTimerCalls) + FireCount(es)) % 0x1_0000_0000
    {
      var fired;
      fired, es := timers.Process(now);
      numTimerCalls := (numTimerCalls + fired) % 0x1_0000_0000;
    }

    method TimeoutOf(shouldIdle: bool, now: int) returns (wait: int)
      requires Valid()
      ensures wait == if shouldIdle then Timeout(timers.Queue(), maxWait, now) else -1
    {
      if shouldIdle {
        wait := CalculateWait(now);
      } else {
        wait := -1;
      }
    }

    /** Without idling the poller is told to wait without limit.  `wait` is what it is told. */
    method ProcessNetwork(shouldIdle: bool, env: Env) returns (nfds: int, wait: int)
      requires Valid() && (env.waitFailed ==> env.events == [])
      modifies poller, poller.epoll
      ensures wait == if shouldIdle then Timeout(timers.Queue(), maxWait, env.waitNow) else -1
      ensures nfds == if env.waitFailed then -1 else |env.events|
      ensures poller.State() == Dispatch(old(poller.State()), env.events, [], env.script).0
    {
      wait := TimeoutOf(shouldIdle, env.waitNow);
      var log;
      nfds, log := poller.ProcessPendingEvents(env.events, env.waitFailed, env.script);
    }

    method ProcessTasks(env: Env)
      requires Valid()
      modifies this`breakProcessing, tasks
      ensures Valid()
      ensures State() == old(State()).(status := After(old(breakProcessing), env.turn.tasks),
              tasks := Lists.Kept(old(tasks.container), env.answers, 0))
    {
      var calls := tasks.Process(env.answers);
      breakProcessing := After(breakProcessing, env.turn.tasks);
    }

    method ProcessTimerPhase(env: Env) returns (ghost es: seq<Event<Timer>>)
      requires Valid()
      modifies this`breakProcessing, this`numTimerCalls, timers, timers.timeQueue
      ensures Valid() && fresh(timers.timeQueue - old(timers.timeQueue))
      ensures TimerTurn(old(State()).sched, old(State()).calls, env.timerNow, es, State().sched, State().calls)
      ensures State() == old(State()).(status := After(old(breakProcessing), env.turn.timers), sched := State().sched,
              calls := State().calls)
    {
      es := ProcessTimers(env.timerNow);
      breakProcessing := After(breakProcessing, env.turn.timers);
    }

    /** The timer and network phases. */
    method ProcessRest(shouldIdle: bool, env: Env) returns (nfds: int, ghost log: Log<Timer>)
      requires Valid() && breakProcessing != Break && (env.waitFailed ==> env.events == [])
      modifies this, timers, timers.timeQueue, poller, poller.epoll
      ensures Valid() && maxWait == old(maxWait) && fresh(timers.timeQueue - old(timers.timeQueue))
      ensures nfds == log.nfds && RestOfTurn(old(State()), maxWait, shouldIdle, env, log, State())
    {
      nfds := 0;
      ghost var es := ProcessTimerPhase(env);
      log := Log([TaskPhase, TimerPhase], es, 0, -1);
      if breakProcessing != Break {
        var wait;
        nfds, wait := ProcessNetwork(shouldIdle, env);
        breakProcessing := After(breakProcessing, env.turn.network);
        log := Log([TaskPhase, TimerPhase, NetworkPhase], es, nfds, wait);
      }
    }

    /** One turn.  A phase that does not run leaves its part of the dispatcher as it was. */
    method ProcessOnce(shouldIdle: bool, env: Env) returns (nfds: int, ghost log: Log<Timer>)
      requires Valid() && (env.waitFailed ==> env.events == [])
      modifies this, tasks, timers, timers.timeQueue, poller, poller.epoll
      ensures Valid() && maxWait == old(maxWait) && fresh(timers.timeQueue - old(timers.timeQueue))
      ensures nfds == log.nfds && TurnOf(old(State()), maxWait, shouldIdle, env, log, State())
    {
      nfds, log := 0, Log([TaskPhase], [], 0, -1);
      if breakProcessing != Break {
        breakProcessing := Running;
      }
      ProcessTasks(env);
      ghost var mid := State();
      if breakProcessing != Break {
        nfds, log := ProcessRest(shouldIdle, env);
      }
      TurnComposes(old(State()), maxWait, shouldIdle, env, mid, log, State());
    }

    /** The i-th turn of the loop. */
    method LoopTurn(envs: seq<Env>, i: nat, ghost h: History<Timer>, ghost whole: (Status, seq<seq<Phase>>))
      returns (ghost h': History<Timer>)
      requires Valid() && breakProcessing != Break
      requires i < |envs| && (envs[i].waitFailed ==> envs[i].events == [])
      requires IsRun(h, maxWait, true, envs) && |h.logs| == i && h.Last() == State()
      requires GoesOn(breakProcessing, TurnsOf(envs[i..]), PhasesOf(h.logs), whole)
      modifies this, tasks, timers, timers.timeQueue, poller, poller.epoll
      ensures Valid() && maxWait == old(maxWait) && fresh(timers.timeQueue - old(timers.timeQueue))
      ensures IsRun(h', maxWait, true, envs) && |h'.logs| == i + 1 && h'.First() == h.First() && h'.Last() == State()
      ensures GoesOn(breakProcessing, TurnsOf(envs[i + 1..]), PhasesOf(h'.logs), whole)
    {
      TurnsTail(envs, i);
      LoopStep(breakProcessing, TurnsOf(envs[i..]), PhasesOf(h.logs), whole);
      var _, log := ProcessOnce(true, envs[i]);
      RunExtends(h, maxWait, true, envs, log, State());
      h' := History(h.states + [State()], h.logs + [log]);
    }

    /** The loop, observed for as many turns as `envs` provides.  The history lists the states
        before, between and after the turns, and what each turn did. */
    method ProcessUntilBreak(envs: seq<Env>) returns (ghost h: History<Timer>)
      requires Valid() && forall k :: 0 <= k < |envs| && envs[k].waitFailed ==> envs[k].events == []
      modifies this, tasks, timers, timers.timeQueue, poller, poller.epoll
      ensures Valid() && maxWait == old(maxWait)
      ensures IsRun(h, maxWait, true, envs) && h.First() == old(State()).(status := Entered(old(breakProcessing))) &&
              h.Last() == State()
      ensures (breakProcessing, PhasesOf(h.logs)) == UntilBreak(old(breakProcessing), TurnsOf(envs))
      ensures |h.logs| < |envs| ==> breakProcessing == Break
    {
      if breakProcessing != Break {
        breakProcessing := Running;
      }
      h := RunLoop(envs);
    }

    /** The loop itself. */
    method RunLoop(envs: seq<Env>) returns (ghost h: History<Timer>)
      requires Valid() && forall k :: 0 <= k < |envs| && envs[k].waitFailed ==> envs[k].events == []
      modifies this, tasks, timers, timers.timeQueue, poller, poller.epoll
      ensures Valid() && maxWait == old(maxWait)
      ensures IsRun(h, maxWait, true, envs) && h.First() == old(State()) && h.Last() == State()
      ensures (breakProcessing, PhasesOf(h.logs)) == Loop(old(breakProcessing), TurnsOf(envs))
      ensures |h.logs| < |envs| ==> breakProcessing == Break
    {
      var i := 0;
      h := History([State()], []);
      assert envs[0..] == envs;
      ghost var whole := Loop(breakProcessing, TurnsOf(envs));
      LoopStarts(breakProcessing, TurnsOf(envs));
      while breakProcessing != Break && i < |envs|
        invariant 0 <= i == |h.logs| <= |envs| && maxWait == old(maxWait)
        invariant Valid() && fresh(timers.timeQueue - old(timers.timeQueue))
        invariant IsRun(h, maxWait, true, envs) && h.Last() == State() && h.First() == old(State())
        invariant GoesOn(breakProcessing, TurnsOf(envs[i..]), PhasesOf(h.logs), whole)
      {
        h := LoopTurn(envs, i, h, whole);
        i := i + 1;
      }
      LoopStops(breakProcessing, TurnsOf(envs[i..]), PhasesOf(h.logs), whole);
    }
  }
}
