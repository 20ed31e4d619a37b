/** Turns of the event loop with all that they do to the tasks, the timers and the poller, and
    what holds over whole runs of turns. */
module DispatcherRuns {
  import opened Arithmetic
  import opened TimerSchedule
  import opened Turns
  import opened Waiting
  import opened Interest
  import Lists = Tasks

  /** The environment of one turn: answers of the tasks, the clock readings, what the kernel
      reports and what the callbacks do. */
  datatype Env = Env(turn: Turn, answers: Lists.Answers, timerNow: int, waitNow: int,
                     events: seq<Ready>, waitFailed: bool, script: Script)

  /** The dispatcher: its status, its parts, and its 32-bit count of timer calls. */
  datatype World<Id(==)> = World(status: Status, tasks: seq<Lists.Task>, sched: Sched<Id>, poll: Poll, calls: nat)

  /** What a turn did: the phases it ran, the events of its timer pass, the number of descriptors
      it reports and the timeout it gave the poller. */
  datatype Log<Id(==)> = Log(phases: seq<Phase>, es: seq<Event<Id>>, nfds: int, wait: int)

  /** A timer phase is one complete pass. */
  ghost predicate TimerTurn<Id>(s: Sched<Id>, calls: nat, now: int, es: seq<Event<Id>>, s': Sched<Id>, calls': nat) {
    TimerSchedule.Run(s, now, es, s') && Quiet(s'.queue, now) && calls' == (calls + FireCount(es)) % 0x1_0000_0000
  }

  /** The timer and network phases of a turn that was not broken off by a task. */
  ghost predicate RestOfTurn<Id>(w: World<Id>, maxWait: int, idle: bool, env: Env, log: Log<Id>, w': World<Id>) {
    var s := After(w.status, env.turn.timers);
    && w'.tasks == w.tasks
    && TimerTurn(w.sched, w.calls, env.timerNow, log.es, w'.sched, w'.calls)
    && if s == Break then
         log.phases == [TaskPhase, TimerPhase] && w'.status == s && w'.poll == w.poll && log.nfds == 0
       else
         && log.phases == [TaskPhase, TimerPhase, NetworkPhase]
         && w'.status == After(s, env.turn.network)
         && w'.poll == Dispatch(w.poll, env.events, [], env.script).0
         && log.nfds == (if env.waitFailed then -1 else |env.events|)
         && log.wait == if idle then Timeout(w'.sched.queue, maxWait, env.waitNow) else -1
  }

  /** One turn.  A phase that does not run leaves its part as it was. */
  ghost predicate TurnOf<Id>(w: World<Id>, maxWait: int, idle: bool, env: Env, log: Log<Id>, w': World<Id>) {
    && (w'.status, log.phases) == Once(w.status, env.turn)
    && w'.tasks == Lists.Kept(w.tasks, env.answers, 0)
    && (if TimerPhase in log.phases then TimerTurn(w.sched, w.calls, env.timerNow, log.es, w'.sched, w'.calls)
        else log.es == [] && w'.sched == w.sched && w'.calls == w.calls)
    && (if NetworkPhase in log.phases then
          && w'.poll == Dispatch(w.poll, env.events, [], env.script).0
          && log.nfds == (if env.waitFailed then -1 else |env.events|)
          && log.wait == (if idle then Timeout(w'.sched.queue, maxWait, env.waitNow) else -1)
        else w'.poll == w.poll && log.nfds == 0)
  }

  lemma TurnComposes<Id>(w: World<Id>, maxWait: int, idle: bool, env: Env, mid: World<Id>, log: Log<Id>, w': World<Id>)
    requires mid == w.(status := After(Entered(w.status), env.turn.tasks), tasks := Lists.Kept(w.tasks, env.answers, 0))
    requires if mid.status == Break then w' == mid && log == Log([TaskPhase], [], 0, -1)
             else RestOfTurn(mid, maxWait, idle, env, log, w')
    ensures TurnOf(w, maxWait, idle, env, log, w')
  {
  }

  // ---------- Runs ----------

  datatype History<Id(==)> = History(states: seq<World<Id>>, logs: seq<Log<Id>>)
  {
    function First(): World<Id>
      requires states != []
    {
      states[0]
    }

    function Last(): World<Id>
      requires states != []
    {
      states[|states| - 1]
    }

    /** The run up to its last turn. */
    function Front(): History<Id>
      requires |states| == |logs| + 1 > 1
    {
      History(states[..|states| - 1], logs[..|logs| - 1])
    }
  }

  ghost predicate IsRun<Id>(h: History<Id>, maxWait: int, idle: bool, envs: seq<Env>) {
    && |h.states| == |h.logs| + 1 <= |envs| + 1
    && forall k :: 0 <= k < |h.logs| ==> TurnOf(h.states[k], maxWait, idle, envs[k], h.logs[k], h.states[k + 1])
  }

  function TurnsOf(envs: seq<Env>): (turns: seq<Turn>)
    ensures |turns| == |envs|
  {
    if envs == [] then [] else [envs[0].turn] + TurnsOf(envs[1..])
  }

  lemma TurnsTail(envs: seq<Env>, i: nat)
    requires i < |envs|
    ensures TurnsOf(envs[i..])[0] == envs[i].turn && TurnsOf(envs[i..])[1..] == TurnsOf(envs[i + 1..])
  {
    assert envs[i..][1..] == envs[i + 1..];
  }

  ghost function PhasesOf<Id>(logs: seq<Log<Id>>): seq<seq<Phase>> {
    if logs == [] then [] else PhasesOf(logs[..|logs| - 1]) + [logs[|logs| - 1].phases]
  }

  lemma RunExtends<Id>(h: History<Id>, maxWait: int, idle: bool, envs: seq<Env>, log: Log<Id>, w': World<Id>)
    requires IsRun(h, maxWait, idle, envs) && |h.logs| < |envs|
    requires TurnOf(h.Last(), maxWait, idle, envs[|h.logs|], log, w')
    ensures var h' := History(h.states + [w'], h.logs + [log]);
            IsRun(h', maxWait, idle, envs) && h'.Last() == w' && h'.First() == h.First() &&
              PhasesOf(h'.logs) == PhasesOf(h.logs) + [log.phases]
  {
    assert (h.logs + [log])[..|h.logs|] == h.logs;
  }

  lemma RunFront<Id>(h: History<Id>, maxWait: int, idle: bool, envs: seq<Env>)
    requires IsRun(h, maxWait, idle, envs) && h.logs != []
    ensures IsRun(h.Front(), maxWait, idle, envs) && h.Front().First() == h.First()
    ensures TurnOf(h.Front().Last(), maxWait, idle, envs[|h.logs| - 1], h.logs[|h.logs| - 1], h.Last())
  {
  }

  /** The passes over the task list. */
  function TaskPasses(envs: seq<Env>): seq<Lists.Op> {
    if envs == [] then [] else TaskPasses(envs[..|envs| - 1]) + [Lists.Op.Process(envs[|envs| - 1].answers)]
  }

  lemma {:induction false} TaskRunAppend(tasks: seq<Lists.Task>, ops: seq<Lists.Op>, op: Lists.Op)
    ensures Lists.Run(tasks, ops + [op]) == Lists.Apply(Lists.Run(tasks, ops), op)
    decreases |ops|
  {
    if ops == [] {
      assert [op][1..] == [];
    } else {
      assert (ops + [op])[1..] == ops[1..] + [op];
      TaskRunAppend(Lists.Apply(tasks, ops[0]), ops[1..], op);
    }
  }

  /** Every turn, broken or not, makes one pass over the task list: the tasks are the composition
      of the passes, in their original order. */
  lemma {:induction false} RunOfTasks<Id>(h: History<Id>, maxWait: int, idle: bool, envs: seq<Env>)
    requires IsRun(h, maxWait, idle, envs)
    ensures h.Last().tasks == Lists.Run(h.First().tasks, TaskPasses(envs[..|h.logs|]))
    ensures Lists.Subsequence(h.Last().tasks, h.First().tasks)
    decreases |h.logs|
  {
    if h.logs == [] {
      Lists.SubsequenceSelf(h.First().tasks);
    } else {
      var n, last := |h.logs| - 1, h.Front().Last().tasks;
      assert last == Lists.Run(h.First().tasks, TaskPasses(envs[..n])) && Lists.Subsequence(last, h.First().tasks) by {
        RunFront(h, maxWait, idle, envs);
        RunOfTasks(h.Front(), maxWait, idle, envs);
      }
      RunFront(h, maxWait, idle, envs);
      TaskPassesGrow(h.First().tasks, envs, n);
      Lists.KeptIsSubsequence(last, envs[n].answers, 0);
      Lists.SubsequenceTrans(h.Last().tasks, last, h.First().tasks);
    }
  }

  lemma TaskPassesGrow(tasks: seq<Lists.Task>, envs: seq<Env>, n: nat)
    requires n < |envs|
    ensures Lists.Run(tasks, TaskPasses(envs[..n + 1]))
            == Lists.Kept(Lists.Run(tasks, TaskPasses(envs[..n])), envs[n].answers, 0)
  {
    assert envs[..n + 1][..n] == envs[..n];
    TaskRunAppend(tasks, TaskPasses(envs[..n]), Lists.Op.Process(envs[n].answers));
  }

  /** The poller after the batches of the turns that reached the network phase. */
  ghost function Batches<Id>(s: Poll, envs: seq<Env>, logs: seq<Log<Id>>): Poll
    requires |logs| <= |envs|
    decreases |logs|
  {
    if logs == [] then s
    else
      var n := |logs| - 1;
      var before := Batches(s, envs, logs[..n]);
      if NetworkPhase in logs[n].phases then Dispatch(before, envs[n].events, [], envs[n].script).0 else before
  }

  /** The poller sees exactly those batches, in order, and every installed handler stays covered in
      every state of the run. */
  lemma {:induction false} RunOfPoller<Id>(h: History<Id>, maxWait: int, idle: bool, envs: seq<Env>)
    requires IsRun(h, maxWait, idle, envs)
    ensures h.Last().poll == Batches(h.First().poll, envs, h.logs)
    ensures Covered(h.First().poll) ==> forall k :: 0 <= k < |h.states| ==> Covered(h.states[k].poll)
    decreases |h.logs|
  {
    if h.logs != [] {
      var n := |h.logs| - 1;
      RunFront(h, maxWait, idle, envs);
      RunOfPoller(h.Front(), maxWait, idle, envs);
      var before := h.Front().Last().poll;
      if Covered(h.First().poll) {
        assert before == h.Front().states[n].poll;
        DispatchKeepsCovered(before, envs[n].events, [], envs[n].script);
        forall k | 0 <= k < |h.states| ensures Covered(h.states[k].poll) {
          if k <= n {
            assert h.states[k] == h.Front().states[k];
          }
        }
      }
    }
  }

  /** The timer passes of a run: one for each turn that reached the timer phase. */
  ghost function TimerPasses<Id>(h: History<Id>, envs: seq<Env>): seq<Pass<Id>>
    requires |h.states| == |h.logs| + 1 <= |envs| + 1
    decreases |h.logs|
  {
    if h.logs == [] then []
    else
      var n := |h.logs| - 1;
      TimerPasses(h.Front(), envs) + PassOfTurn(h.Front().Last(), envs[n], h.logs[n], h.Last())
  }

  ghost predicate NobodyCancels<Id>(h: History<Id>, id: Id) {
    forall k :: 0 <= k < |h.logs| ==> NeverCancelled(h.logs[k].es, id)
  }

  lemma PassesAppend<Id>(ps: seq<Pass<Id>>, p: Pass<Id>, id: Id)
    requires PassesOf(ps, id) && Complete(p) && NeverCancelled(p.es, id)
    requires ps != [] ==> ps[|ps| - 1].end == p.start
    ensures PassesOf(ps + [p], id)
  {
    var all := ps + [p];
    forall k | 0 < k < |all| ensures SameTimer(all[k - 1].end, all[k].start, id) {
      if k < |ps| {
        assert SameTimer(ps[k - 1].end, ps[k].start, id);
      }
    }
  }

  ghost predicate Spans<Id>(ps: seq<Pass<Id>>, s: Sched<Id>, s': Sched<Id>) {
    if ps == [] then s' == s else ps[0].start == s && ps[|ps| - 1].end == s'
  }

  /** The pass of one turn, if it has one. */
  ghost function PassOfTurn<Id>(w: World<Id>, env: Env, log: Log<Id>, w': World<Id>): seq<Pass<Id>> {
    if TimerPhase in log.phases then [Pass(w.sched, env.timerNow, log.es, w'.sched)] else []
  }

  ghost predicate Follow<Id>(ps: seq<Pass<Id>>, id: Id, s: Sched<Id>, s': Sched<Id>) {
    PassesOf(ps, id) && Spans(ps, s, s')
  }

  lemma {:induction false} FollowOn<Id>(ps: seq<Pass<Id>>, id: Id, s: Sched<Id>, w: World<Id>, maxWait: int, idle: bool,
                                        env: Env, log: Log<Id>, w': World<Id>)
    requires Follow(ps, id, s, w.sched)
    requires TurnOf(w, maxWait, idle, env, log, w') && NeverCancelled(log.es, id)
    ensures Follow(ps + PassOfTurn(w, env, log, w'), id, s, w'.sched)
  {
    if TimerPhase in log.phases {
      PassesAppend(ps, Pass(w.sched, env.timerNow, log.es, w'.sched), id);
    } else {
      assert ps + [] == ps;
    }
  }

  /** They follow one another directly, from the first state to the last. */
  lemma {:induction false} PassesFollow<Id>(h: History<Id>, maxWait: int, idle: bool, envs: seq<Env>, id: Id)
    requires IsRun(h, maxWait, idle, envs) && NobodyCancels(h, id)
    ensures Follow(TimerPasses(h, envs), id, h.First().sched, h.Last().sched)
    decreases |h.logs|
  {
    if h.logs != [] {
      var n := |h.logs| - 1;
      RunFront(h, maxWait, idle, envs);
      NobodyCancelsFront(h, id);
      PassesFollow(h.Front(), maxWait, idle, envs, id);
      FollowOn(TimerPasses(h.Front(), envs), id, h.First().sched, h.Front().Last(), maxWait, idle, envs[n], h.logs[n],
               h.Last());
    }
  }

  lemma NobodyCancelsFront<Id>(h: History<Id>, id: Id)
    requires |h.states| == |h.logs| + 1 > 1 && NobodyCancels(h, id)
    ensures NobodyCancels(h.Front(), id) && NeverCancelled(h.logs[|h.logs| - 1].es, id)
  {
    forall k | 0 <= k < |h.logs| - 1 ensures NeverCancelled(h.Front().logs[k].es, id) {
      assert h.Front().logs[k] == h.logs[k];
    }
  }

  /** Over a whole run of the loop, through breaks and late turns, a live timer that no handler
      cancels fires exactly on its schedule up to the latest reading of the passes, and is left
      where the schedule says. */
  lemma RunOfTimer<Id>(h: History<Id>, maxWait: int, idle: bool, envs: seq<Env>, id: Id)
    requires IsRun(h, maxWait, idle, envs) && NobodyCancels(h, id)
    requires id in h.First().sched.queue && !h.First().sched.queue[id].cancelled
    ensures var ps := TimerPasses(h, envs);
            var d := h.First().sched.queue[id];
            if ps == [] then h.Last().sched == h.First().sched
            else FiresOver(ps, id) == Schedule(d, Latest(ps)) && SettledAs(h.Last().sched, id, d, Latest(ps))
  {
    PassesFollow(h, maxWait, idle, envs, id);
    if TimerPasses(h, envs) != [] {
      SpacingIrrelevant(TimerPasses(h, envs), id);
    }
  }

  /** The timer calls of a run of turns. */
  ghost function CallsOf<Id>(logs: seq<Log<Id>>): nat {
    if logs == [] then 0 else CallsOf(logs[..|logs| - 1]) + |FireTimes(logs[|logs| - 1].es)|
  }

  lemma {:induction false} TurnOfCalls<Id>(w: World<Id>, maxWait: int, idle: bool, env: Env, log: Log<Id>,
                                           w': World<Id>)
    requires TurnOf(w, maxWait, idle, env, log, w') && w.calls < 0x1_0000_0000
    ensures w'.calls == (w.calls + |FireTimes(log.es)|) % 0x1_0000_0000
  {
  }

  /** The dispatcher's count is the number of timer calls of the run, on 32 bits. */
  lemma {:induction false} RunOfCalls<Id>(h: History<Id>, maxWait: int, idle: bool, envs: seq<Env>)
    requires IsRun(h, maxWait, idle, envs) && h.First().calls < 0x1_0000_0000
    ensures h.Last().calls == (h.First().calls + CallsOf(h.logs)) % 0x1_0000_0000
    decreases |h.logs|
  {
    if h.logs != [] {
      var n, w := |h.logs| - 1, h.Front().Last();
      RunFront(h, maxWait, idle, envs);
      RunOfCalls(h.Front(), maxWait, idle, envs);
      CallsAdd(h.First().calls, CallsOf(h.Front().logs), w, maxWait, idle, envs[n], h.logs[n], h.Last());
    }
  }

  lemma {:induction false} CallsAdd<Id>(first: nat, before: nat, w: World<Id>, maxWait: int, idle: bool, env: Env,
                                        log: Log<Id>, w': World<Id>)
    requires w.calls == (first + before) % 0x1_0000_0000 && TurnOf(w, maxWait, idle, env, log, w')
    ensures w'.calls == (first + (before + |FireTimes(log.es)|)) % 0x1_0000_0000
  {
    TurnOfCalls(w, maxWait, idle, env, log, w');
    SumMod(first, before, |FireTimes(log.es)|);
  }

  /** In every idling turn that reaches the poller with timers queued, the timeout is in time for all
      live timers exactly when it fits the first. */
  lemma RunOfWaits<Id>(h: History<Id>, maxWait: int, envs: seq<Env>, k: nat)
    requires IsRun(h, maxWait, true, envs) && k < |h.logs| && NetworkPhase in h.logs[k].phases
    ensures TimeoutIs(h.states[k + 1].sched.queue, maxWait, envs[k].waitNow, h.logs[k].wait)
    ensures h.logs[k].nfds == if envs[k].waitFailed then -1 else |envs[k].events|
    ensures var q := h.states[k + 1].sched.queue;
            if q == map[] then h.logs[k].wait == maxWait
            else (forall id :: id in q && !q[id].cancelled ==>
              InTime(h.logs[k].wait, Distance(q[id].time, envs[k].waitNow)))
                 <==> Fits(maxWait, NextExp(q, envs[k].waitNow))
  {
    var q := h.states[k + 1].sched.queue;
    if q != map[] {
      NeverSleepsPastIff(q, envs[k].timerNow, maxWait, envs[k].waitNow);
    }
    TimeoutExact(q, maxWait, envs[k].waitNow);
  }
}
