/** How long the event loop lets the poller wait, and when that is in time for the timers. */
module Waiting {
  import opened Arithmetic
  import opened TimerSchedule

  /** Timer distances are counted in nanoseconds; the poller waits in milliseconds. */
  const NsPerMs := 1_000_000

  /** Narrowing to a 32-bit int. */
  function ToInt32(x: int): (y: int)
    ensures -0x8000_0000 <= y < 0x8000_0000
  {
    (x + 0x8000_0000) % 0x1_0000_0000 - 0x8000_0000
  }

  /** The timeout handed to the poller, given the distance to the next timer in nanoseconds. */
  function WaitFor(maxWait: int, next: nat): int {
    if ToInt32(next) < maxWait then ToInt32(next) else maxWait
  }

  function Low(next: nat): nat {
    next % 0x1_0000_0000
  }

  /** Narrowing keeps the low half as it is and turns the high half negative. */
  lemma Narrowed(next: nat)
    ensures ToInt32(next) == if Low(next) < 0x8000_0000 then Low(next) else Low(next) - 0x1_0000_0000
    ensures Low(next) <= next
  {
    var low := Low(next);
    assert next == next / 0x1_0000_0000 * 0x1_0000_0000 + low;
    ShiftMod(next / 0x1_0000_0000, low + 0x8000_0000);
  }

  /** As a number, without units, the timeout never exceeds the limit or the distance; it is
      negative, which the poller takes as no timeout at all, exactly when the limit is or bit 31
      of the distance is set. */
  lemma CountNeverExceeds(maxWait: int, next: nat)
    ensures WaitFor(maxWait, next) <= maxWait && WaitFor(maxWait, next) <= next
    ensures WaitFor(maxWait, next) < 0 <==> maxWait < 0 || Low(next) >= 0x8000_0000
  {
    Narrowed(next);
  }

  /** The timeout: the smaller of the limit and the low half of the distance, counted as negative when
      bit 31 is set. */
  lemma {:induction false} WaitIs(maxWait: int, next: nat, wait: int)
    ensures wait == WaitFor(maxWait, next) <==>
              var count := if next % 0x1_0000_0000 < 0x8000_0000 then next % 0x1_0000_0000
                           else next % 0x1_0000_0000 - 0x1_0000_0000;
              (wait == maxWait || wait == count) && wait <= maxWait && wait <= count
  {
    Narrowed(next);
  }

  /** The timeout ends before the next timer is due. */
  predicate InTime(wait: int, next: nat) {
    0 <= wait && wait * NsPerMs <= next
  }

  /** When the timeout is in time, for every limit and every distance: bit 31 of the distance is
      clear, and the limit or the low half of the distance, as milliseconds, fits the distance. */
  predicate Fits(maxWait: int, next: nat) {
    && maxWait >= 0
    && Low(next) < 0x8000_0000
    && (maxWait * NsPerMs <= next || Low(next) * NsPerMs <= next)
  }

  /** In real time the loop can oversleep, because nanoseconds are taken for milliseconds. */
  lemma InTimeIff(maxWait: int, next: nat)
    ensures InTime(WaitFor(maxWait, next), next) <==> Fits(maxWait, next)
  {
    Narrowed(next);
  }

  /** A timer one millisecond away and a limit of one second: the loop sleeps the full second.
      Three seconds away and a limit of two, it sleeps without limit although the limit alone
      fits; and beyond 32 bits it may oversleep or be in time by accident. */
  lemma Oversleeps()
    ensures WaitFor(1000, 1 * NsPerMs) == 1000 && !InTime(1000, 1 * NsPerMs)
    ensures WaitFor(2000, 3000 * NsPerMs) < 0
    ensures !InTime(WaitFor(10000, 0x1_0000_0000 + 500 * NsPerMs), 0x1_0000_0000 + 500 * NsPerMs)
    ensures InTime(WaitFor(5000, 0x1_0000_0000), 0x1_0000_0000)
  {
  }

  // ---------- The whole queue ----------

  function Distance(time: int, now: int): nat {
    if now > time then 0 else time - now
  }

  /** The distance to the first timer of a queue. */
  ghost function NextExp<Id>(q: map<Id, TimerData>, now: int): nat {
    if exists id :: id in q && IsTop(q, id) then
      var id :| id in q && IsTop(q, id);
      Distance(q[id].time, now)
    else 0
  }

  /** The timeout of a turn. */
  ghost function Timeout<Id>(q: map<Id, TimerData>, maxWait: int, now: int): int {
    if q == map[] then maxWait else WaitFor(maxWait, NextExp(q, now))
  }

  lemma NextExpIs<Id>(q: map<Id, TimerData>, id: Id, now: int)
    requires IsTop(q, id)
    ensures NextExp(q, now) == Distance(q[id].time, now)
  {
  }

  /** The timeout for a whole queue, told from the least time in it. */
  ghost predicate TimeoutIs<Id>(q: map<Id, TimerData>, maxWait: int, now: int, wait: int) {
    if q == map[] then wait == maxWait
    else
      exists id :: id in q && (forall o :: o in q ==> q[id].time <= q[o].time) &&
        var next := if q[id].time < now then 0 else q[id].time - now;
        var count := if next % 0x1_0000_0000 < 0x8000_0000 then next % 0x1_0000_0000
                     else next % 0x1_0000_0000 - 0x1_0000_0000;
        (wait == maxWait || wait == count) && wait <= maxWait && wait <= count
  }

  lemma {:induction false} TimeoutExact<Id>(q: map<Id, TimerData>, maxWait: int, now: int)
    requires q == map[] || exists id :: id in q && IsTop(q, id)
    ensures TimeoutIs(q, maxWait, now, Timeout(q, maxWait, now))
  {
    if q != map[] {
      var top :| top in q && IsTop(q, top);
      NextExpIs(q, top, now);
      WaitIs(maxWait, NextExp(q, now), Timeout(q, maxWait, now));
    }
  }

  /** After a pass has left the queue quiet, and whatever the clock reads by then, the poller's
      timeout is in time for every live timer exactly when it fits the first one. */
  lemma NeverSleepsPastIff<Id>(q: map<Id, TimerData>, passNow: int, maxWait: int, now: int)
    requires Quiet(q, passNow) && q != map[]
    ensures (forall id :: id in q && !q[id].cancelled ==> InTime(Timeout(q, maxWait, now), Distance(q[id].time, now)))
            <==> Fits(maxWait, NextExp(q, now))
  {
    var top :| top in q && IsTop(q, top) && q[top].time > passNow && !q[top].cancelled;
    NextExpIs(q, top, now);
    InTimeIff(maxWait, NextExp(q, now));
  }

  /** The limit set from seconds is the least whole number of milliseconds not below it. */
  function MaxWaitFrom(seconds: real): (ms: int)
    ensures ms as real >= seconds * 1000.0 && (ms - 1) as real < seconds * 1000.0
  {
    -((-(seconds * 1000.0)).Floor)
  }
}
