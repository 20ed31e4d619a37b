/** The timer scheduler as a state machine: what one pass over the timer queue may do.
    The queue is a map from timer identities to their data.  Handlers are arbitrary: each
    firing may cancel any timers and may add timers that expire after the pass began. */
module TimerSchedule {
  import opened Arithmetic

  datatype TimerData = TimerData(time: int, interval: nat, cancelled: bool)

  /** What one handler call does to other timers (and possibly to its own). */
  datatype Effect<Id(==)> = Effect(cancels: set<Id>, adds: map<Id, TimerData>)

  datatype Event<Id(==)> = Fire(id: Id, at: int, effect: Effect<Id>) | Purge(id: Id)

  /** `gone` holds the timers that left the queue for good. */
  datatype Sched<Id(==)> = Sched(queue: map<Id, TimerData>, gone: set<Id>)

  // ---------- One step of the pass ----------

  ghost predicate IsTop<Id>(q: map<Id, TimerData>, id: Id) {
    id in q && forall o :: o in q ==> q[id].time <= q[o].time
  }

  /** The pass stops at a queue that is empty or whose top is live and not yet due. */
  ghost predicate Quiet<Id>(q: map<Id, TimerData>, now: int) {
    q == map[] || exists id :: id in q && IsTop(q, id) && q[id].time > now && !q[id].cancelled
  }

  ghost predicate EffectOk<Id>(s: Sched<Id>, now: int, eff: Effect<Id>) {
    && eff.adds.Keys !! s.queue.Keys
    && eff.adds.Keys !! s.gone
    && forall id :: id in eff.adds ==> eff.adds[id].time > now
  }

  ghost predicate Enabled<Id>(s: Sched<Id>, now: int, e: Event<Id>) {
    && IsTop(s.queue, e.id)
    && match e
       case Purge(id) => s.queue[id].cancelled
       case Fire(id, at, eff) =>
         && !s.queue[id].cancelled
         && at == s.queue[id].time <= now
         && EffectOk(s, now, eff)
  }

  ghost function CancelAll<Id>(q: map<Id, TimerData>, ids: set<Id>): map<Id, TimerData> {
    map id | id in q :: if id in ids then q[id].(cancelled := true) else q[id]
  }

  ghost function Apply<Id>(s: Sched<Id>, e: Event<Id>): Sched<Id>
    requires e.id in s.queue
  {
    match e
    case Purge(id) => Sched(s.queue - {id}, s.gone + {id})
    case Fire(id, at, eff) =>
      var d := s.queue[id];
      var rest := CancelAll((s.queue - {id}) + eff.adds, eff.cancels);
      if d.interval == 0 || id in eff.cancels then
        Sched(rest, s.gone + {id})
      else
        Sched(rest[id := d.(time := d.time + d.interval)], s.gone)
  }

  ghost predicate Run<Id>(s: Sched<Id>, now: int, es: seq<Event<Id>>, s': Sched<Id>)
    decreases |es|
  {
    if es == [] then s == s'
    else Enabled(s, now, es[0]) && Run(Apply(s, es[0]), now, es[1..], s')
  }

  lemma {:induction false} RunAppend<Id>(s: Sched<Id>, now: int, es: seq<Event<Id>>, s': Sched<Id>, e: Event<Id>)
    requires Run(s, now, es, s') && Enabled(s', now, e)
    ensures Run(s, now, es + [e], Apply(s', e))
    decreases |es|
  {
    if es == [] {
      assert (es + [e])[1..] == [];
      assert Run(Apply(s, e), now, [], Apply(s', e));
    } else {
      RunAppend(Apply(s, es[0]), now, es[1..], s', e);
      assert (es + [e])[1..] == es[1..] + [e];
    }
  }

  /** Every run can be cut at any point. */
  lemma {:induction false} RunSplit<Id>(s: Sched<Id>, now: int, es: seq<Event<Id>>, s': Sched<Id>, k: nat)
    returns (mid: Sched<Id>)
    requires Run(s, now, es, s') && k <= |es|
    ensures Run(s, now, es[..k], mid) && Run(mid, now, es[k..], s')
    decreases k
  {
    if k == 0 {
      mid := s;
      assert es[0..] == es;
    } else {
      mid := RunSplit(Apply(s, es[0]), now, es[1..], s', k - 1);
      assert es[..k][1..] == es[1..][..k - 1];
      assert es[1..][k - 1..] == es[k..];
    }
  }

  // ---------- Firing order ----------

  ghost function FireTimes<Id>(es: seq<Event<Id>>): seq<int> {
    if es == [] then [] else (if es[0].Fire? then [es[0].at] else []) + FireTimes(es[1..])
  }

  lemma {:induction false} FireTimesAppend<Id>(es: seq<Event<Id>>, e: Event<Id>)
    ensures FireTimes(es + [e]) == FireTimes(es) + if e.Fire? then [e.at] else []
  {
    if es == [] {
      assert [e][1..] == [];
    } else {
      FireTimesAppend(es[1..], e);
      assert (es + [e])[1..] == es[1..] + [e];
    }
  }

  ghost predicate NonDecreasing(xs: seq<int>) {
    forall i, j :: 0 <= i < j < |xs| ==> xs[i] <= xs[j]
  }

  ghost predicate NotBefore<Id>(q: map<Id, TimerData>, lo: int) {
    forall id :: id in q ==> lo <= q[id].time
  }

  lemma ApplyKeepsNotBefore<Id>(s: Sched<Id>, now: int, e: Event<Id>)
    requires Enabled(s, now, e)
    ensures e.Fire? ==> NotBefore(Apply(s, e).queue, e.at)
    ensures forall lo :: lo <= now && NotBefore(s.queue, lo) ==> NotBefore(Apply(s, e).queue, lo)
  {
  }

  /** Within one pass handlers fire in the order of their scheduled times, none before `lo`
      and none after `now`, whatever the handlers cancel or add. */
  lemma {:induction false} FiringOrder<Id>(s: Sched<Id>, now: int, es: seq<Event<Id>>, s': Sched<Id>, lo: int)
    requires Run(s, now, es, s') && NotBefore(s.queue, lo) && lo <= now
    ensures NonDecreasing(FireTimes(es))
    ensures forall i :: 0 <= i < |FireTimes(es)| ==> lo <= FireTimes(es)[i] <= now
    decreases |es|
  {
    if es != [] {
      ApplyKeepsNotBefore(s, now, es[0]);
      FiringOrder(Apply(s, es[0]), now, es[1..], s', if es[0].Fire? then es[0].at else lo);
    }
  }

  // ---------- Cancellation ----------

  ghost predicate Dead<Id>(s: Sched<Id>, id: Id) {
    if id in s.queue then s.queue[id].cancelled else id in s.gone
  }

  ghost predicate Fires<Id>(e: Event<Id>, id: Id) {
    e.Fire? && e.id == id
  }

  /** The times at which one timer fires. */
  ghost function FiresOf<Id>(es: seq<Event<Id>>, id: Id): seq<int> {
    if es == [] then []
    else (if Fires(es[0], id) then [es[0].at] else []) + FiresOf(es[1..], id)
  }

  lemma {:induction false} DeadNeverFires<Id>(s: Sched<Id>, now: int, es: seq<Event<Id>>, s': Sched<Id>, id: Id)
    requires Run(s, now, es, s') && Dead(s, id)
    ensures Dead(s', id) && FiresOf(es, id) == []
    ensures forall k :: 0 <= k < |es| ==> !Fires(es[k], id)
    decreases |es|
  {
    if es != [] {
      DeadNeverFires(Apply(s, es[0]), now, es[1..], s', id);
    }
  }

  ghost predicate Known<Id>(s: Sched<Id>, id: Id) {
    id in s.queue || id in s.gone
  }

  ghost predicate AddedBy<Id>(es: seq<Event<Id>>, n: nat, id: Id)
    requires n <= |es|
  {
    exists k :: 0 <= k < n && es[k].Fire? && id in es[k].effect.adds
  }

  /** A timer does not fire after the handler call that cancels it: not when it was queued, not
      when it is the one executing, and not when it was just added. */
  lemma {:induction false} NoFireAfterCancel<Id>(s: Sched<Id>, now: int, es: seq<Event<Id>>, s': Sched<Id>,
                                                 i: nat, j: nat, id: Id)
    requires Run(s, now, es, s') && i < j < |es|
    requires es[i].Fire? && id in es[i].effect.cancels
    requires Known(s, id) || AddedBy(es, i + 1, id)
    ensures !Fires(es[j], id)
  {
    var mid := RunSplit(s, now, es, s', i);
    if id !in es[i].effect.adds {
      KnownStaysKnown(s, now, es[..i], mid, id);
    }
    assert es[i..][0] == es[i];
    DeadNeverFires(Apply(mid, es[i]), now, es[i..][1..], s', id);
    assert es[i..][1..][j - i - 1] == es[j];
  }

  lemma {:induction false} KnownStaysKnown<Id>(s: Sched<Id>, now: int, es: seq<Event<Id>>, s': Sched<Id>, id: Id)
    requires Run(s, now, es, s') && (Known(s, id) || AddedBy(es, |es|, id))
    ensures Known(s', id)
    decreases |es|
  {
    if es != [] {
      var s1 := Apply(s, es[0]);
      if !Known(s1, id) {
        var k :| 0 <= k < |es| && es[k].Fire? && id in es[k].effect.adds;
        assert es[1..][k - 1] == es[k];
      }
      KnownStaysKnown(s1, now, es[1..], s', id);
    }
  }

  // ---------- Catch-up ----------

  /** How often a timer is due up to and including `now`. */
  function DueCount(d: TimerData, now: int): nat {
    if d.cancelled || d.time > now then 0
    else if d.interval == 0 then 1
    else (now - d.time) / d.interval + 1
  }

  function Times(start: int, step: nat, n: nat): (ts: seq<int>)
    ensures |ts| == n && forall k :: 0 <= k < n ==> ts[k] == start + k * step
  {
    seq(n, (k: nat) => start + k * step)
  }

  /** The closed form of a timer's firings: t, t+d, ..., t+(n-1)d. */
  function Schedule(d: TimerData, now: int): seq<int> {
    Times(d.time, d.interval, DueCount(d, now))
  }

  function Next(d: TimerData): TimerData
  {
    if d.interval == 0 then d.(cancelled := true) else d.(time := d.time + d.interval)
  }

  lemma DivStep(x: nat, n: nat)
    requires 0 < n <= x
    ensures x / n == (x - n) / n + 1
  {
    var q, r := (x - n) / n, (x - n) % n;
    assert x - n == q * n + r;
    assert (q + 1) * n == q * n + n;
    QuotientUnique(x, n, q + 1, r);
  }

  lemma DueCountNext(d: TimerData, now: int)
    requires !d.cancelled && d.time <= now
    ensures DueCount(d, now) == 1 + DueCount(Next(d), now)
  {
    if 0 < d.interval <= now - d.time {
      DivStep(now - d.time, d.interval);
    } else if 0 < d.interval {
      QuotientUnique(now - d.time, d.interval, 0, now - d.time);
    }
  }

  lemma ScheduleNext(d: TimerData, now: int)
    requires !d.cancelled && d.time <= now
    ensures Schedule(d, now) == [d.time] + Schedule(Next(d), now)
  {
    DueCountNext(d, now);
    var n := DueCount(Next(d), now);
    var whole, rest := Schedule(d, now), Schedule(Next(d), now);
    if d.interval != 0 {
      forall k | 0 <= k < n ensures whole[k + 1] == rest[k] {
        assert (k + 1) * d.interval == k * d.interval + d.interval;
      }
    }
    assert whole == [d.time] + rest;
  }

  /** What a live timer becomes: cancelled if it was a due one-shot, otherwise moved to the first
      t + k*d after now. */
  function Settled(d: TimerData, now: int): TimerData {
    if d.interval == 0 && d.time <= now then d.(cancelled := true)
    else d.(time := d.time + DueCount(d, now) * d.interval)
  }

  /** Where the closed form leaves a live timer: gone if it was a due one-shot, otherwise queued
      as settled. */
  ghost predicate SettledAs<Id>(s': Sched<Id>, id: Id, d: TimerData, now: int) {
    if Settled(d, now).cancelled then id !in s'.queue && id in s'.gone
    else id in s'.queue && s'.queue[id] == Settled(d, now)
  }

  lemma SettledAfterNow(d: TimerData, now: int)
    requires !d.cancelled && d.interval > 0
    ensures d.time + DueCount(d, now) * d.interval > now
    ensures d.time <= now ==> d.time + (DueCount(d, now) - 1) * d.interval <= now
  {
    if d.time <= now {
      var x, n := now - d.time, d.interval;
      assert x == x / n * n + x % n;
      assert (x / n + 1) * n == x / n * n + n;
    }
  }

  lemma SettledNext(d: TimerData, now: int)
    requires !d.cancelled && d.time <= now && d.interval > 0
    ensures Settled(Next(d), now) == Settled(d, now)
  {
    DueCountNext(d, now);
    var n := DueCount(Next(d), now);
    assert (1 + n) * d.interval == d.interval + n * d.interval;
  }

  ghost predicate NeverCancelled<Id>(es: seq<Event<Id>>, id: Id) {
    forall k :: 0 <= k < |es| && es[k].Fire? ==> id !in es[k].effect.cancels
  }

  /** Catch-up exactness: in a pass that runs until quiet, a live timer that no handler
      cancels fires exactly on its closed-form schedule and is left where the closed form
      says, no matter what happens to the other timers. */
  lemma {:induction false} CatchUpExact<Id>(s: Sched<Id>, now: int, es: seq<Event<Id>>, s': Sched<Id>, id: Id)
    requires Run(s, now, es, s') && Quiet(s'.queue, now)
    requires id in s.queue && !s.queue[id].cancelled && NeverCancelled(es, id)
    ensures FiresOf(es, id) == Schedule(s.queue[id], now)
    ensures SettledAs(s', id, s.queue[id], now)
    decreases |es|
  {
    var d := s.queue[id];
    if es != [] {
      var e, s1 := es[0], Apply(s, es[0]);
      if Fires(e, id) {
        ScheduleNext(d, now);
        if d.interval == 0 {
          DeadNeverFires(s1, now, es[1..], s', id);
          GoneStaysGone(s1, now, es[1..], s', id);
        } else {
          CatchUpExact(s1, now, es[1..], s', id);
          SettledNext(d, now);
        }
      } else {
        assert s1.queue[id] == d;
        CatchUpExact(s1, now, es[1..], s', id);
      }
    }
  }

  lemma {:induction false} GoneStaysGone<Id>(s: Sched<Id>, now: int, es: seq<Event<Id>>, s': Sched<Id>, id: Id)
    requires Run(s, now, es, s') && id in s.gone && id !in s.queue
    ensures id in s'.gone && id !in s'.queue
    decreases |es|
  {
    if es != [] {
      GoneStaysGone(Apply(s, es[0]), now, es[1..], s', id);
    }
  }

  // ---------- Pass after pass ----------

  /** One pass of a run: from `start` to `end`, with the clock at `now`. */
  datatype Pass<Id(==)> = Pass(start: Sched<Id>, now: int, es: seq<Event<Id>>, end: Sched<Id>)

  ghost predicate Complete<Id>(p: Pass<Id>) {
    Run(p.start, p.now, p.es, p.end) && Quiet(p.end.queue, p.now)
  }

  /** Whatever else changed, this timer did not. */
  ghost predicate SameTimer<Id>(s: Sched<Id>, s': Sched<Id>, id: Id) {
    && (if id in s.queue then id in s'.queue && s'.queue[id] == s.queue[id] else id !in s'.queue)
    && (id in s.gone ==> id in s'.gone)
  }

  /** Complete passes, one after the other.  Between them other timers may be added and
      cancelled, and this one is not; neither is it cancelled in a pass. */
  ghost predicate PassesOf<Id>(ps: seq<Pass<Id>>, id: Id) {
    && (forall k :: 0 <= k < |ps| ==> Complete(ps[k]) && NeverCancelled(ps[k].es, id))
    && (forall k :: 0 < k < |ps| ==> SameTimer(ps[k - 1].end, ps[k].start, id))
  }

  ghost function FiresOver<Id>(ps: seq<Pass<Id>>, id: Id): seq<int> {
    if ps == [] then [] else FiresOf(ps[0].es, id) + FiresOver(ps[1..], id)
  }

  function Max(a: int, b: int): int {
    if a < b then b else a
  }

  /** The latest clock reading. */
  ghost function Latest<Id>(ps: seq<Pass<Id>>): int
    requires ps != []
  {
    if |ps| == 1 then ps[0].now else Max(ps[0].now, Latest(ps[1..]))
  }

  /** Schedules join: due at `a`, and then due at `b`, is due at the later of the two. */
  lemma {:induction false} SchedulesJoin(d: TimerData, a: int, b: int)
    requires !d.cancelled
    ensures Schedule(d, Max(a, b)) == Schedule(d, a) + Schedule(Settled(d, a), b)
    ensures Settled(d, Max(a, b)) == if Settled(d, a).cancelled then Settled(d, a) else Settled(Settled(d, a), b)
    decreases DueCount(d, a)
  {
    if d.time <= a {
      ScheduleNext(d, a);
      ScheduleNext(d, Max(a, b));
      if d.interval > 0 {
        DueCountNext(d, a);
        SchedulesJoin(Next(d), a, b);
        SettledNext(d, a);
        SettledNext(d, Max(a, b));
      }
    }
  }

  lemma {:induction false} GoneIsSilent<Id>(ps: seq<Pass<Id>>, id: Id)
    requires ps != [] && PassesOf(ps, id) && id in ps[0].start.gone && id !in ps[0].start.queue
    ensures FiresOver(ps, id) == []
    ensures id in ps[|ps| - 1].end.gone && id !in ps[|ps| - 1].end.queue
    decreases |ps|
  {
    var p := ps[0];
    DeadNeverFires(p.start, p.now, p.es, p.end, id);
    GoneStaysGone(p.start, p.now, p.es, p.end, id);
    if |ps| > 1 {
      assert SameTimer(ps[0].end, ps[1].start, id);
      PassesTail(ps, id);
      GoneIsSilent(ps[1..], id);
    }
  }

  lemma PassesTail<Id>(ps: seq<Pass<Id>>, id: Id)
    requires |ps| > 1 && PassesOf(ps, id)
    ensures PassesOf(ps[1..], id)
  {
    var tail := ps[1..];
    forall k | 0 < k < |tail| ensures SameTimer(tail[k - 1].end, tail[k].start, id) {
      assert SameTimer(ps[k].end, ps[k + 1].start, id);
    }
  }

  /** Over any number of passes a live timer that nobody cancels fires exactly on its schedule up
      to the latest clock reading, once for every time that came due, however the readings are
      spaced, and is left where one pass at that reading would have left it. */
  lemma {:induction false} SpacingIrrelevant<Id>(ps: seq<Pass<Id>>, id: Id)
    requires ps != [] && PassesOf(ps, id)
    requires id in ps[0].start.queue && !ps[0].start.queue[id].cancelled
    ensures FiresOver(ps, id) == Schedule(ps[0].start.queue[id], Latest(ps))
    ensures SettledAs(ps[|ps| - 1].end, id, ps[0].start.queue[id], Latest(ps))
    decreases |ps|
  {
    var p, d := ps[0], ps[0].start.queue[id];
    CatchUpExact(p.start, p.now, p.es, p.end, id);
    if |ps| == 1 {
      assert FiresOver(ps, id) == FiresOf(p.es, id) + [];
    } else {
      var rest := ps[1..];
      assert SameTimer(ps[0].end, ps[1].start, id);
      PassesTail(ps, id);
      SchedulesJoin(d, p.now, Latest(rest));
      if Settled(d, p.now).cancelled {
        GoneIsSilent(rest, id);
      } else {
        SpacingIrrelevant(rest, id);
      }
    }
  }

  /** A timer that is cancelled part-way, or a pass cut short, still fires only an initial
      part of its schedule. */
  lemma {:induction false} CatchUpPrefix<Id>(s: Sched<Id>, now: int, es: seq<Event<Id>>, s': Sched<Id>, id: Id)
    requires Run(s, now, es, s') && id in s.queue
    ensures FiresOf(es, id) <= Schedule(s.queue[id], now)
    decreases |es|
  {
    var d := s.queue[id];
    if d.cancelled {
      DeadNeverFires(s, now, es, s', id);
    } else if es != [] {
      var s1 := Apply(s, es[0]);
      if Fires(es[0], id) {
        ScheduleNext(d, now);
        if Dead(s1, id) {
          DeadNeverFires(s1, now, es[1..], s', id);
        } else {
          CatchUpPrefix(s1, now, es[1..], s', id);
        }
      } else if Dead(s1, id) {
        DeadNeverFires(s1, now, es[1..], s', id);
      } else {
        CatchUpPrefix(s1, now, es[1..], s', id);
      }
    }
  }

  // ---------- Termination and the firing count ----------

  /** The due firings still owed by all live timers of a queue. */
  ghost function Backlog<Id>(q: map<Id, TimerData>, now: int): nat
    decreases |q|
  {
    if q == map[] then 0
    else
      var id :| id in q;
      DueCount(q[id], now) + Backlog(q - {id}, now)
  }

  lemma {:induction false} BacklogSplit<Id>(q: map<Id, TimerData>, now: int, id: Id)
    requires id in q
    ensures Backlog(q, now) == DueCount(q[id], now) + Backlog(q - {id}, now)
    decreases |q|
  {
    var o :| o in q && Backlog(q, now) == DueCount(q[o], now) + Backlog(q - {o}, now);
    if o != id {
      BacklogSplit(q - {o}, now, id);
      BacklogSplit(q - {id}, now, o);
      assert q - {o} - {id} == q - {id} - {o};
    }
  }

  lemma {:induction false} BacklogLe<Id>(p: map<Id, TimerData>, q: map<Id, TimerData>, now: int)
    requires forall id :: id in p && DueCount(p[id], now) > 0 ==>
                            id in q && DueCount(p[id], now) <= DueCount(q[id], now)
    ensures Backlog(p, now) <= Backlog(q, now)
    decreases |p|
  {
    if p != map[] {
      var id :| id in p;
      BacklogSplit(p, now, id);
      if id in q {
        BacklogSplit(q, now, id);
        BacklogLe(p - {id}, q - {id}, now);
      } else {
        BacklogLe(p - {id}, q, now);
      }
    }
  }

  /** Each step either purges, leaving no more work and a smaller queue, or fires, leaving
      strictly less work; without cancellations it leaves exactly one firing less. */
  lemma StepMeasure<Id>(s: Sched<Id>, now: int, e: Event<Id>)
    requires Enabled(s, now, e)
    ensures e.Purge? ==> Backlog(Apply(s, e).queue, now) == Backlog(s.queue, now) && |Apply(s, e).queue| < |s.queue|
    ensures e.Fire? ==> Backlog(Apply(s, e).queue, now) < Backlog(s.queue, now)
    ensures e.Fire? && e.effect.cancels == {} ==> Backlog(Apply(s, e).queue, now) == Backlog(s.queue, now) - 1
  {
    match e
    case Purge(id) => BacklogSplit(s.queue, now, id);
    case Fire(id, at, eff) => FireMeasure(s, now, id, eff);
  }

  lemma FireMeasure<Id>(s: Sched<Id>, now: int, id: Id, eff: Effect<Id>)
    requires id in s.queue && Enabled(s, now, Fire(id, s.queue[id].time, eff))
    ensures var q' := Apply(s, Fire(id, s.queue[id].time, eff)).queue;
            && Backlog(q', now) <= Backlog(s.queue, now) - 1
            && (eff.cancels == {} ==> Backlog(q', now) == Backlog(s.queue, now) - 1)
  {
    var q, d := s.queue, s.queue[id];
    var q' := Apply(s, Fire(id, d.time, eff)).queue;
    var bound := q[id := Next(d)];
    BacklogSplit(q, now, id);
    BacklogSplit(bound, now, id);
    assert bound - {id} == q - {id};
    DueCountNext(d, now);
    BacklogLe(q', bound, now);
    if eff.cancels == {} {
      BacklogLe(bound, q', now);
    }
  }

  ghost function FireCount<Id>(es: seq<Event<Id>>): nat {
    |FireTimes(es)|
  }

  /** One more step of a pass: the run grows, the firing count follows, and the measure drops. */
  lemma Extend<Id>(s: Sched<Id>, now: int, es: seq<Event<Id>>, mid: Sched<Id>, e: Event<Id>)
    requires Run(s, now, es, mid) && Enabled(mid, now, e)
    ensures Run(s, now, es + [e], Apply(mid, e))
    ensures FireCount(es + [e]) == FireCount(es) + if e.Fire? then 1 else 0
    ensures Backlog(Apply(mid, e).queue, now) < Backlog(mid.queue, now) ||
            (Backlog(Apply(mid, e).queue, now) == Backlog(mid.queue, now) && |Apply(mid, e).queue| < |mid.queue|)
  {
    RunAppend(s, now, es, mid, e);
    FireTimesAppend(es, e);
    StepMeasure(mid, now, e);
  }

  /** No pass, however its handlers behave, fires more often than the backlog it began with. */
  lemma {:induction false} FiringBound<Id>(s: Sched<Id>, now: int, es: seq<Event<Id>>, s': Sched<Id>)
    requires Run(s, now, es, s')
    ensures FireCount(es) + Backlog(s'.queue, now) <= Backlog(s.queue, now)
    ensures (forall k :: 0 <= k < |es| && es[k].Fire? ==> es[k].effect.cancels == {}) ==>
              FireCount(es) + Backlog(s'.queue, now) == Backlog(s.queue, now)
    decreases |es|
  {
    if es != [] {
      StepMeasure(s, now, es[0]);
      FiringBound(Apply(s, es[0]), now, es[1..], s');
    }
  }

  lemma {:induction false} QuietOwesNothing<Id>(q: map<Id, TimerData>, now: int)
    requires Quiet(q, now)
    ensures Backlog(q, now) == 0
    ensures forall id :: id in q ==> q[id].time > now
  {
    BacklogLe(q, map[], now);
  }

  /** When handlers cancel nothing, a pass fires exactly the sum of the closed-form counts. */
  lemma CatchUpTotal<Id>(s: Sched<Id>, now: int, es: seq<Event<Id>>, s': Sched<Id>)
    requires Run(s, now, es, s') && Quiet(s'.queue, now)
    requires forall k :: 0 <= k < |es| && es[k].Fire? ==> es[k].effect.cancels == {}
    ensures FireCount(es) == Backlog(s.queue, now)
  {
    FiringBound(s, now, es, s');
    QuietOwesNothing(s'.queue, now);
  }

  /** No timer comes from nowhere: what a pass leaves queued was queued or was added. */
  lemma {:induction false} QueueProvenance<Id>(s: Sched<Id>, now: int, es: seq<Event<Id>>, s': Sched<Id>, id: Id)
    requires Run(s, now, es, s') && id in s'.queue
    ensures id in s.queue || AddedBy(es, |es|, id)
    ensures id in s.queue && s.queue[id].cancelled ==> s'.queue[id] == s.queue[id]
    decreases |es|
  {
    if es != [] {
      var s1 := Apply(s, es[0]);
      if id !in s1.queue && Known(s1, id) {
        GoneStaysGone(s1, now, es[1..], s', id);
      }
      QueueProvenance(s1, now, es[1..], s', id);
      if id !in s.queue {
        if id in s1.queue {
          assert es[0].Fire? && id in es[0].effect.adds;
        } else {
          var k :| 0 <= k < |es| - 1 && es[1..][k].Fire? && id in es[1..][k].effect.adds;
          assert es[k + 1] == es[1..][k];
        }
      }
    }
  }

  // ---------- What a pass leaves alone ----------

  ghost predicate CancelledBy<Id>(es: seq<Event<Id>>, id: Id) {
    exists k :: 0 <= k < |es| && es[k].Fire? && id in es[k].effect.cancels
  }

  /** One step, timer by timer: what was queued or added stays as it was, cancelled if the handler says
      so; the timer on top goes when it was cancelled, when it fired once, or when its handler cancels
      it, and otherwise moves on by its interval. */
  lemma {:induction false} StepOn<Id>(s: Sched<Id>, now: int, e: Event<Id>, id: Id)
    requires Enabled(s, now, e)
    ensures var s' := Apply(s, e);
            var cancelled := e.Fire? && id in e.effect.cancels;
            if id == e.id then
              if e.Purge? || cancelled || s.queue[id].interval == 0 then id !in s'.queue && id in s'.gone
              else id in s'.queue && s'.queue[id] == s.queue[id].(time := s.queue[id].time + s.queue[id].interval)
            else if id in s.queue then
              id in s'.queue && s'.queue[id] == s.queue[id].(cancelled := s.queue[id].cancelled || cancelled)
            else if e.Fire? && id in e.effect.adds then
              id in s'.queue && s'.queue[id] == e.effect.adds[id].(cancelled := e.effect.adds[id].cancelled ||
                cancelled)
            else id !in s'.queue && (id in s'.gone <==> id in s.gone)
  {
  }

  /** A timer that never came to the top is still queued, at its time, and cancelled exactly when it was
      before or a handler cancelled it. */
  lemma {:induction false} NotPopped<Id>(s: Sched<Id>, now: int, es: seq<Event<Id>>, s': Sched<Id>, id: Id)
    requires Run(s, now, es, s') && id in s.queue
    requires forall k :: 0 <= k < |es| ==> es[k].id != id
    ensures id in s'.queue
    ensures s'.queue[id] == s.queue[id].(cancelled := s.queue[id].cancelled || CancelledBy(es, id))
    decreases |es|
  {
    if es != [] {
      var s1 := Apply(s, es[0]);
      StepOn(s, now, es[0], id);
      NotPopped(s1, now, es[1..], s', id);
      if es[0].Fire? && id in es[0].effect.cancels {
        assert CancelledBy(es, id);
      }
      if CancelledBy(es[1..], id) {
        var k :| 0 <= k < |es| - 1 && es[1..][k].Fire? && id in es[1..][k].effect.cancels;
        assert es[k + 1] == es[1..][k];
      }
      if CancelledBy(es, id) && !(es[0].Fire? && id in es[0].effect.cancels) {
        var k :| 0 <= k < |es| && es[k].Fire? && id in es[k].effect.cancels;
        assert es[1..][k - 1] == es[k];
      }
    }
  }

  /** A live timer that is not due and that nobody cancels stays as it is. */
  lemma {:induction false} LateStays<Id>(s: Sched<Id>, now: int, es: seq<Event<Id>>, s': Sched<Id>, id: Id)
    requires Run(s, now, es, s') && id in s.queue && !s.queue[id].cancelled && s.queue[id].time > now
    requires NeverCancelled(es, id)
    ensures id in s'.queue && s'.queue[id] == s.queue[id]
    decreases |es|
  {
    if es != [] {
      StepOn(s, now, es[0], id);
      LateStays(Apply(s, es[0]), now, es[1..], s', id);
    }
  }

  /** Every timer that a handler adds is in the queue after the pass, as it was added, unless a handler
      cancels it. */
  lemma {:induction false} AddedIsQueued<Id>(s: Sched<Id>, now: int, es: seq<Event<Id>>, s': Sched<Id>, k: nat, id: Id)
    requires Run(s, now, es, s') && k < |es|
    requires es[k].Fire? && id in es[k].effect.adds && !es[k].effect.adds[id].cancelled
    requires forall j :: k <= j < |es| && es[j].Fire? ==> id !in es[j].effect.cancels
    ensures id in s'.queue && s'.queue[id] == es[k].effect.adds[id]
  {
    var mid := RunSplit(s, now, es, s', k);
    assert es[k..][0] == es[k] && es[k..][1..] == es[k + 1..];
    StepOn(mid, now, es[k], id);
    LateStays(Apply(mid, es[k]), now, es[k + 1..], s', id);
  }

  ghost predicate Inert<Id>(es: seq<Event<Id>>) {
    forall k :: 0 <= k < |es| && es[k].Fire? ==> es[k].effect.cancels == {} && es[k].effect.adds == map[]
  }

  /** The whole outcome of a pass whose handlers leave the scheduler alone: every live timer
      fires on its schedule and settles, a cancelled one is purged or untouched, nothing else
      appears, and the number of firings is the backlog. */
  lemma PassOutcome<Id>(s: Sched<Id>, now: int, es: seq<Event<Id>>, s': Sched<Id>)
    requires Run(s, now, es, s') && Quiet(s'.queue, now) && Inert(es)
    ensures FireCount(es) == Backlog(s.queue, now)
    ensures s'.queue.Keys <= s.queue.Keys
    ensures forall id :: id in s.queue && !s.queue[id].cancelled ==>
              FiresOf(es, id) == Schedule(s.queue[id], now) && SettledAs(s', id, s.queue[id], now)
    ensures forall id :: id in s.queue && s.queue[id].cancelled ==>
              FiresOf(es, id) == [] && (id in s'.queue ==> s'.queue[id] == s.queue[id])
  {
    CatchUpTotal(s, now, es, s');
    forall id | id in s'.queue ensures id in s.queue {
      QueueProvenance(s, now, es, s', id);
    }
    forall id | id in s.queue && !s.queue[id].cancelled
      ensures FiresOf(es, id) == Schedule(s.queue[id], now) && SettledAs(s', id, s.queue[id], now)
    {
      CatchUpExact(s, now, es, s', id);
    }
    forall id | id in s.queue && s.queue[id].cancelled
      ensures FiresOf(es, id) == [] && (id in s'.queue ==> s'.queue[id] == s.queue[id])
    {
      DeadNeverFires(s, now, es, s', id);
      if id in s'.queue {
        QueueProvenance(s, now, es, s', id);
      }
    }
  }
}
