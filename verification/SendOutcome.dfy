/** What one attempt to send comes to, told from the replies, the queue and the limits. */
module SendOutcome {
  import opened Arithmetic
  import opened Wrappers
  import opened Bytes
  import opened SendQueue
  import Runs = SenderRuns

  /** The kernel's reply to the write of the i-th packet. */
  function ReplyTo(replies: seq<SendReply>, i: nat): SendReply {
    if i < |replies| then replies[i] else SendReply(-1, Again)
  }

  /** How many bytes the kernel takes of what a packet has left. */
  function Took(p: Pkt, r: SendReply): nat {
    if r.len <= 0 || p.sent >= |p.payload| then 0
    else if r.len > |p.payload| - p.sent then |p.payload| - p.sent
    else r.len
  }

  predicate Finished(p: Pkt, r: SendReply) {
    p.sent + Took(p, r) == |p.payload|
  }

  /** Bytes taken of the first `n` packets. */
  function TookAll(q: seq<Pkt>, replies: seq<SendReply>, n: nat): nat
    requires n <= |q|
  {
    if n == 0 then 0 else TookAll(q, replies, n - 1) + Took(q[n - 1], ReplyTo(replies, n - 1))
  }

  /** The tick's byte count, kept on 32 bits. */
  function TickAfter(tick: nat, bytes: nat): nat {
    if bytes == 0 then tick else (tick + bytes) % 0x1_0000_0000
  }

  predicate Over(tick: nat, bytes: nat, limit: nat) {
    limit > 0 && TickAfter(tick, bytes) >= limit
  }

  /** The i-th packet is finished without reaching the byte limit. */
  predicate Smooth(q: seq<Pkt>, tick: nat, replies: seq<SendReply>, lim: Limits, i: nat)
    requires i < |q|
  {
    Finished(q[i], ReplyTo(replies, i)) && !Over(tick, TookAll(q, replies, i + 1), lim.sendBytes)
  }

  /** The n-th packet is offered: it went smoothly with all before it. */
  ghost predicate Offered(q: seq<Pkt>, tick: nat, replies: seq<SendReply>, lim: Limits, n: nat) {
    n < |q| && forall i :: 0 <= i < n ==> Smooth(q, tick, replies, lim, i)
  }

  /** The attempt condemns the channel at the n-th packet: the byte limit is reached, or the packet
      is not finished and the write took nothing for a reason other than EAGAIN, or this is the tenth
      unfinished attempt in a row (the count is kept on 8 bits). */
  predicate FatalAt(q: seq<Pkt>, tick: nat, fails: nat, replies: seq<SendReply>, lim: Limits, n: nat)
    requires n < |q|
  {
    var r := ReplyTo(replies, n);
    || Over(tick, TookAll(q, replies, n + 1), lim.sendBytes)
    || (!Finished(q[n], r) && ((r.len <= 0 && r.errno != Again) || (fails + 1) % 256 >= 10))
  }

  ghost predicate Fatal(q: seq<Pkt>, tick: nat, fails: nat, replies: seq<SendReply>, lim: Limits) {
    exists n :: 0 <= n < |q| && Offered(q, tick, replies, lim, n) && FatalAt(q, tick, fails, replies, lim, n)
  }

  // ---------- Packet by packet ----------

  function Rest(replies: seq<SendReply>): seq<SendReply> {
    if replies == [] then [] else replies[1..]
  }

  lemma {:induction false} TickTwice(tick: nat, a: nat, b: nat)
    ensures TickAfter(TickAfter(tick, a), b) == TickAfter(tick, a + b)
  {
    if a > 0 && b > 0 {
      SumMod(tick, a, b);
    }
  }

  lemma {:induction false} TookAllFirst(q: seq<Pkt>, replies: seq<SendReply>, n: nat)
    requires n < |q|
    ensures TookAll(q, replies, n + 1) == Took(q[0], ReplyTo(replies, 0)) + TookAll(q[1..], Rest(replies), n)
    decreases n
  {
    assert ReplyTo(replies, n) == if n == 0 then ReplyTo(replies, 0) else ReplyTo(Rest(replies), n - 1);
    if n > 0 {
      TookAllFirst(q, replies, n - 1);
      assert q[1..][n - 1] == q[n];
    }
  }

  lemma {:induction false} OfferedFirst(q: seq<Pkt>, tick: nat, replies: seq<SendReply>, lim: Limits, n: nat)
    requires q != []
    ensures var took := Took(q[0], ReplyTo(replies, 0));
            Offered(q, tick, replies, lim, n + 1) <==>
              && Finished(q[0], ReplyTo(replies, 0)) && !Over(tick, took, lim.sendBytes)
              && Offered(q[1..], TickAfter(tick, took), Rest(replies), lim, n)
  {
    var took, tail, more := Took(q[0], ReplyTo(replies, 0)), q[1..], Rest(replies);
    var tick' := TickAfter(tick, took);
    assert TookAll(q, replies, 1) == TookAll(q, replies, 0) + took;
    assert Smooth(q, tick, replies, lim, 0) <==>
           Finished(q[0], ReplyTo(replies, 0)) && !Over(tick, took, lim.sendBytes);
    if Offered(q, tick, replies, lim, n + 1) {
      assert Smooth(q, tick, replies, lim, 0);
      forall i | 0 <= i < n ensures Smooth(tail, tick', more, lim, i) {
        assert Smooth(q, tick, replies, lim, i + 1);
        SmoothFirst(q, tick, replies, lim, i);
      }
    }
    if Smooth(q, tick, replies, lim, 0) && Offered(tail, tick', more, lim, n) {
      forall i | 0 <= i < n + 1 ensures Smooth(q, tick, replies, lim, i) {
        if i > 0 {
          var j := i - 1;
          assert Smooth(tail, tick', more, lim, j);
          SmoothFirst(q, tick, replies, lim, j);
        }
      }
    }
  }

  lemma {:induction false} SmoothFirst(q: seq<Pkt>, tick: nat, replies: seq<SendReply>, lim: Limits, i: nat)
    requires i + 1 < |q|
    ensures Smooth(q, tick, replies, lim, i + 1) <==>
            Smooth(q[1..], TickAfter(tick, Took(q[0], ReplyTo(replies, 0))), Rest(replies), lim, i)
  {
    TookAllFirst(q, replies, i + 1);
    TickTwice(tick, Took(q[0], ReplyTo(replies, 0)), TookAll(q[1..], Rest(replies), i + 1));
    assert q[1..][i] == q[i + 1] && ReplyTo(Rest(replies), i) == ReplyTo(replies, i + 1);
  }

  /** The queue after the n-th packet was the last one offered. */
  function Behind(q: seq<Pkt>, replies: seq<SendReply>, n: nat): seq<Pkt>
    requires n < |q|
  {
    var r := ReplyTo(replies, n);
    if Finished(q[n], r) then q[n + 1..] else [q[n].(sent := q[n].sent + Took(q[n], r))] + q[n + 1..]
  }

  /** How a flush ends whose last write was that of the n-th packet. */
  ghost predicate EndsAt(q: seq<Pkt>, tick: nat, replies: seq<SendReply>, lim: Limits, f: Flushed, n: nat) {
    && Offered(q, tick, replies, lim, n) && !Offered(q, tick, replies, lim, n + 1)
    && var bytes, r := TookAll(q, replies, n + 1), ReplyTo(replies, n);
       && |f.wire| == bytes && f.tick == TickAfter(tick, bytes)
       && f.condemned == Over(tick, bytes, lim.sendBytes)
       && f.queue == Behind(q, replies, n)
       && (f.reason == Success <==> Finished(q[n], r) && n + 1 == |q|)
       && (f.reason == ChannelCondemned <==> Finished(q[n], r) && n + 1 < |q|)
       && (f.reason == ResourceUnavailable <==> !Finished(q[n], r) && (r.len > 0 || r.errno == Again))
  }

  lemma {:induction false} HeadFinished(q: seq<Pkt>, tick: nat, replies: seq<SendReply>, lim: Limits)
    requires Shape(q) && q != [] && Finished(q[0], ReplyTo(replies, 0))
    ensures var took := Took(q[0], ReplyTo(replies, 0));
            var f := Flush(q, false, tick, replies, lim);
            var g := Flush(q[1..], Over(tick, took, lim.sendBytes), TickAfter(tick, took), Rest(replies), lim);
            f == g.(wire := f.wire) && |f.wire| == took + |g.wire|
  {
    assert ReplyTo(replies, 0) == Reply(replies);
  }

  lemma {:induction false} HeadUnfinished(q: seq<Pkt>, tick: nat, replies: seq<SendReply>, lim: Limits)
    requires Shape(q) && q != [] && !Finished(q[0], ReplyTo(replies, 0))
    ensures var r, took := ReplyTo(replies, 0), Took(q[0], ReplyTo(replies, 0));
            var f := Flush(q, false, tick, replies, lim);
            && f == Flushed(f.reason, [q[0].(sent := q[0].sent + took)] + q[1..],
                            Over(tick, took, lim.sendBytes), TickAfter(tick, took), f.wire)
            && |f.wire| == took && f.reason != Success && f.reason != ChannelCondemned
            && (f.reason == ResourceUnavailable <==> r.len > 0 || r.errno == Again)
  {
    assert ReplyTo(replies, 0) == Reply(replies);
  }

  /** The first packet is the last one offered. */
  lemma {:induction false} EndsHere(q: seq<Pkt>, tick: nat, replies: seq<SendReply>, lim: Limits)
    requires Shape(q) && q != [] && (|q| == 1 || !Smooth(q, tick, replies, lim, 0))
    ensures EndsAt(q, tick, replies, lim, Flush(q, false, tick, replies, lim), 0)
  {
    var took := Took(q[0], ReplyTo(replies, 0));
    assert TookAll(q, replies, 1) == TookAll(q, replies, 0) + took;
    if Finished(q[0], ReplyTo(replies, 0)) {
      HeadFinished(q, tick, replies, lim);
    } else {
      HeadUnfinished(q, tick, replies, lim);
    }
  }

  lemma {:induction false} EndsFirst(q: seq<Pkt>, tick: nat, replies: seq<SendReply>, lim: Limits, g: Flushed,
                                     f: Flushed, n: nat)
    requires q != [] && Finished(q[0], ReplyTo(replies, 0))
    requires var took := Took(q[0], ReplyTo(replies, 0));
             && !Over(tick, took, lim.sendBytes)
             && EndsAt(q[1..], TickAfter(tick, took), Rest(replies), lim, g, n)
             && f == g.(wire := f.wire) && |f.wire| == took + |g.wire|
    ensures EndsAt(q, tick, replies, lim, f, n + 1)
  {
    OfferedFirst(q, tick, replies, lim, n);
    OfferedFirst(q, tick, replies, lim, n + 1);
    BehindFirst(q, tick, replies, n);
  }

  lemma {:induction false} BehindFirst(q: seq<Pkt>, tick: nat, replies: seq<SendReply>, n: nat)
    requires n + 1 < |q|
    ensures var took, tail, more := Took(q[0], ReplyTo(replies, 0)), q[1..], Rest(replies);
            && tail[n] == q[n + 1] && ReplyTo(more, n) == ReplyTo(replies, n + 1)
            && Behind(tail, more, n) == Behind(q, replies, n + 1)
            && TookAll(q, replies, n + 2) == took + TookAll(tail, more, n + 1)
            && TickAfter(TickAfter(tick, took), TookAll(tail, more, n + 1))
              == TickAfter(tick, TookAll(q, replies, n + 2))
  {
    TookAllFirst(q, replies, n + 1);
    TickTwice(tick, Took(q[0], ReplyTo(replies, 0)), TookAll(q[1..], Rest(replies), n + 1));
    assert q[1..][n + 1..] == q[n + 2..];
  }

  /** Every flush of a non-empty queue ends at some packet, and this is all that it did. */
  lemma {:induction false} FlushExact(q: seq<Pkt>, tick: nat, replies: seq<SendReply>, lim: Limits) returns (n: nat)
    requires Shape(q) && q != []
    ensures EndsAt(q, tick, replies, lim, Flush(q, false, tick, replies, lim), n)
    decreases |q|
  {
    if |q| == 1 || !Smooth(q, tick, replies, lim, 0) {
      EndsHere(q, tick, replies, lim);
      n := 0;
    } else {
      var took := Took(q[0], ReplyTo(replies, 0));
      var tick' := TickAfter(tick, took);
      assert !Over(tick, took, lim.sendBytes) by {
        assert TookAll(q, replies, 1) == TookAll(q, replies, 0) + took;
      }
      n := FlushExact(q[1..], tick', Rest(replies), lim);
      HeadFinished(q, tick, replies, lim);
      EndsFirst(q, tick, replies, lim, Flush(q[1..], false, tick', Rest(replies), lim),
                Flush(q, false, tick, replies, lim), n);
      n := n + 1;
    }
  }

  // ---------- One call of processSend ----------

  /** One attempt on an uncondemned channel writes and leaves queued exactly what its last write
      says, answers true exactly when every packet was finished on the way, and counts the failure
      otherwise. */
  lemma {:induction false} ProcessSendExact(c: Runs.Chan, replies: seq<SendReply>, lim: Limits) returns (n: nat)
    requires Shape(c.queue) && !c.condemned && c.queue != []
    ensures var (c', ok, out) := Runs.ProcessSend(c, replies, lim);
            && Offered(c.queue, c.tick, replies, lim, n) && !Offered(c.queue, c.tick, replies, lim, n + 1)
            && |out| == TookAll(c.queue, replies, n + 1)
            && c'.tick == TickAfter(c.tick, |out|)
            && c'.queue == Behind(c.queue, replies, n)
            && (ok <==> n + 1 == |c.queue| && Finished(c.queue[n], ReplyTo(replies, n)))
            && (c'.condemned <==> FatalAt(c.queue, c.tick, c.fails, replies, lim, n))
  {
    n := FlushExact(c.queue, c.tick, replies, lim);
    var r := ReplyTo(replies, n);
    if Finished(c.queue[n], r) && n + 1 < |c.queue| {
      GoesOn(c.queue, c.tick, replies, lim, n);
    }
  }

  lemma {:induction false} GoesOn(q: seq<Pkt>, tick: nat, replies: seq<SendReply>, lim: Limits, n: nat)
    requires Offered(q, tick, replies, lim, n) && n + 1 < |q|
    ensures Smooth(q, tick, replies, lim, n) ==> Offered(q, tick, replies, lim, n + 1)
  {
  }

  lemma {:induction false} OfferedInTurn(q: seq<Pkt>, tick: nat, fails: nat, replies: seq<SendReply>, lim: Limits,
                                         n: nat, m: nat)
    requires Offered(q, tick, replies, lim, m)
    ensures n < m ==> Offered(q, tick, replies, lim, n + 1)
    ensures n < m ==> !FatalAt(q, tick, fails, replies, lim, n)
  {
    if n < m {
      assert Smooth(q, tick, replies, lim, n);
    }
  }

  lemma {:induction false} FatalAtLast(q: seq<Pkt>, tick: nat, fails: nat, replies: seq<SendReply>, lim: Limits, n: nat)
    requires Offered(q, tick, replies, lim, n) && !Offered(q, tick, replies, lim, n + 1)
    ensures Fatal(q, tick, fails, replies, lim) <==> FatalAt(q, tick, fails, replies, lim, n)
  {
    if Fatal(q, tick, fails, replies, lim) {
      var m :| 0 <= m < |q| && Offered(q, tick, replies, lim, m) && FatalAt(q, tick, fails, replies, lim, m);
      OfferedInTurn(q, tick, fails, replies, lim, n, m);
      OfferedInTurn(q, tick, fails, replies, lim, m, n);
    }
  }

  /** Exactly when an attempt on an uncondemned channel condemns it. */
  lemma {:induction false} CondemnsIff(c: Runs.Chan, replies: seq<SendReply>, lim: Limits)
    requires Shape(c.queue) && !c.condemned
    ensures Runs.ProcessSend(c, replies, lim).0.condemned <==> Fatal(c.queue, c.tick, c.fails, replies, lim)
  {
    if c.queue != [] {
      var n := ProcessSendExact(c, replies, lim);
      FatalAtLast(c.queue, c.tick, c.fails, replies, lim, n);
    }
  }

  // ---------- One call of Channel::send ----------

  /** All bytes of all packets, sent or not. */
  function Payloads(q: seq<Pkt>): seq<Byte> {
    if q == [] then [] else q[0].payload + Payloads(q[1..])
  }

  lemma {:induction false} PayloadsLength(q: seq<Pkt>)
    ensures |Payloads(q)| == Runs.TotalLength(q)
  {
    if q != [] {
      PayloadsLength(q[1..]);
    }
  }

  /** The send window overflows: too many packets for both limits, or too many bytes. */
  predicate WindowOverflows(q: seq<Pkt>, lim: Limits) {
    || (0 < lim.sendMessagesCritical < |q| && 0 < lim.sendMessages < |q|)
    || 0 < lim.sendBytes <= |Payloads(q)|
  }

  /** Exactly when a send condemns a live channel: the window overflows, or no write handler is
      waiting and the attempt made at once is fatal.  A closed channel only drops its queue. */
  lemma {:induction false} SendCondemnsIff(s: Runs.Sys, fd: int, packet: Option<seq<Byte>>, replies: seq<SendReply>,
                                           refused: bool, lim: Limits)
    requires Shape(s.chan.queue)
    ensures var s', q := Runs.Send(s, fd, packet, replies, refused, lim),
                         s.chan.queue + if packet.Some? then [Pkt(packet.value, 0)] else [];
            if s.chan.condemned || s.chan.destroyed then s' == s.(chan := s.chan.(queue := []))
            else
              s'.chan.condemned <==>
                q != [] &&
                (WindowOverflows(q, lim) || (!s.chan.sending && Fatal(q, s.chan.tick, s.chan.fails, replies, lim)))
  {
    var q := s.chan.queue + if packet.Some? then [Pkt(packet.value, 0)] else [];
    PayloadsLength(q);
    if !s.chan.condemned && !s.chan.destroyed && q != [] && !WindowOverflows(q, lim) {
      CondemnsIff(Runs.Admit(s, packet, lim).chan, replies, lim);
    }
  }

  /** With the default limits only 65536 packets or 65535 bytes overflow the window. */
  lemma {:induction false} DefaultWindow(q: seq<Pkt>)
    ensures WindowOverflows(q, DefaultLimits) <==> |q| > 65535 || |Payloads(q)| >= 65535
  {
  }

  // ---------- The tick's byte count over runs ----------

  predicate KeepsTick(a: Runs.Action) {
    !a.Tick? && !a.Destroy?
  }

  /** The count has advanced by what was written. */
  ghost predicate Counts(s: Runs.Sys, s': Runs.Sys) {
    |s.wire| <= |s'.wire| && s'.chan.tick == TickAfter(s.chan.tick, |s'.wire| - |s.wire|)
  }

  lemma {:induction false} CountsTwice(a: Runs.Sys, b: Runs.Sys, c: Runs.Sys)
    requires Counts(a, b) && Counts(b, c)
    ensures Counts(a, c)
  {
    TickTwice(a.chan.tick, |b.wire| - |a.wire|, |c.wire| - |b.wire|);
  }

  lemma {:induction false} AttemptTick(s: Runs.Sys, replies: seq<SendReply>, lim: Limits)
    requires Shape(s.chan.queue)
    ensures Counts(s, Runs.Attempt(s, replies, lim).0)
  {
    if !s.chan.condemned && s.chan.queue != [] {
      var n := ProcessSendExact(s.chan, replies, lim);
    }
  }

  lemma {:induction false} NextTick(s: Runs.Sys, fd: int, a: Runs.Action, lim: Limits)
    requires Runs.Inv(s, fd) && KeepsTick(a)
    ensures Counts(s, Runs.Next(s, fd, a, lim))
  {
    match a
    case SendPacket(packet, replies, _) =>
      if !s.chan.condemned && !s.chan.destroyed {
        Runs.EnqueueConserves(s, packet);
        AttemptTick(Runs.Admit(s, packet, lim), replies, lim);
      }
    case Writable(replies, _) => AttemptTick(s, replies, lim);
    case _ =>
  }

  /** Over every run the byte count of the tick is what was written since the tick began, on 32 bits. */
  lemma {:induction false} TickCounts(s: Runs.Sys, fd: int, actions: seq<Runs.Action>, lim: Limits)
    requires Runs.Inv(s, fd) && Runs.AllLegal(actions, fd)
    requires forall k :: 0 <= k < |actions| ==> KeepsTick(actions[k])
    ensures Counts(s, Runs.Run(s, fd, actions, lim))
    decreases |actions|
  {
    if actions != [] {
      var s1 := Runs.Next(s, fd, actions[0], lim);
      NextTick(s, fd, actions[0], lim);
      Runs.NextKeepsInv(s, fd, actions[0], lim);
      TickCounts(s1, fd, actions[1..], lim);
      CountsTwice(s, s1, Runs.Run(s1, fd, actions[1..], lim));
    }
  }

  /** So after a tick has ended the count is what was written since then. */
  lemma {:induction false} TickRestarts(s: Runs.Sys, fd: int, actions: seq<Runs.Action>, lim: Limits, s1: Runs.Sys)
    requires Runs.Inv(s, fd) && Runs.AllLegal(actions, fd) && s1 == Runs.Next(s, fd, Runs.Tick, lim)
    requires forall k :: 0 <= k < |actions| ==> KeepsTick(actions[k])
    ensures var s' := Runs.Run(s1, fd, actions, lim);
            |s.wire| <= |s'.wire| && s'.chan.tick == (|s'.wire| - |s.wire|) % 0x1_0000_0000
  {
    Runs.NextKeepsInv(s, fd, Runs.Tick, lim);
    TickCounts(s1, fd, actions, lim);
  }
}
