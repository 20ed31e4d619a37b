/** The sending half of a channel together with the poller, over whole runs. */
module SenderRuns {
  import opened Wrappers
  import opened Bytes
  import opened SendQueue
  import opened Interest

  /** A channel's sending state: its queue and flags, the sender's failure count (8 bits in the
      source) and the bytes sent in this tick. */
  datatype Chan = Chan(queue: seq<Pkt>, condemned: bool, destroyed: bool, sending: bool, recving: bool, fails: nat,
                       tick: nat)

  const MaxFails := 10

  /** One call of processSend: the channel afterwards, its result and the bytes written. */
  function ProcessSend(c: Chan, replies: seq<SendReply>, lim: Limits): (Chan, bool, seq<Byte>) {
    if c.condemned then (c, false, [])
    else
      var f := Flush(c.queue, c.condemned, c.tick, replies, lim);
      var c1 := c.(queue := f.queue, condemned := f.condemned, tick := f.tick);
      if f.reason == Success then (c1.(fails := 0), true, f.wire)
      else if f.reason == ResourceUnavailable then
        var fails := (c.fails + 1) % 256;
        (c1.(fails := fails, condemned := c1.condemned || fails >= MaxFails), false, f.wire)
      else (c1.(condemned := true), false, f.wire)
  }

  function TotalLength(q: seq<Pkt>): nat {
    if q == [] then 0 else |q[0].payload| + TotalLength(q[1..])
  }

  /** The send window overflows by packet count or by bytes. */
  predicate Overflows(q: seq<Pkt>, lim: Limits) {
    || (Exceeds(|q|, lim.sendMessagesCritical) && Exceeds(|q|, lim.sendMessages))
    || Reaches(TotalLength(q), lim.sendBytes)
  }

  /** A channel with its descriptor's poller, and the history the theorems speak of:
      everything enqueued, everything written, and the result of every attempt to flush an
      uncondemned channel. */
  datatype Sys = Sys(chan: Chan, poll: Poll, enqueued: seq<Byte>, wire: seq<Byte>, attempts: seq<bool>)

  /** The channel's write handler at the poller. */
  const SenderHandler: Handler := 1

  function Attempt(s: Sys, replies: seq<SendReply>, lim: Limits): (Sys, bool) {
    var (c, ok, out) := ProcessSend(s.chan, replies, lim);
    (s.(chan := c, wire := s.wire + out, attempts := if s.chan.condemned then s.attempts else s.attempts + [ok]), ok)
  }

  function StopSend(s: Sys, fd: int, refused: bool): Sys {
    if !s.chan.sending then s
    else s.(chan := s.chan.(sending := false), poll := Step(s.poll, DeregisterWrite(fd), refused).0)
  }

  /** What a send on a live channel queues. */
  function Enlarged(q: seq<Pkt>, packet: Option<seq<Byte>>): seq<Pkt> {
    q + if packet.Some? then [Pkt(packet.value, 0)] else []
  }

  /** Queues a packet, or none, and condemns a channel whose send window overflows. */
  function Admit(s: Sys, packet: Option<seq<Byte>>, lim: Limits): Sys {
    var q := Enlarged(s.chan.queue, packet);
    s.(chan := s.chan.(queue := q, condemned := if q == [] then s.chan.condemned else Overflows(q, lim)),
       enqueued := s.enqueued + if packet.Some? then packet.value else [])
  }

  /** Flushes at once, unless a write handler is waiting; what is left waits for the poller. */
  function Transmit(s: Sys, fd: int, replies: seq<SendReply>, refused: bool, lim: Limits): Sys {
    if s.chan.queue == [] || s.chan.sending then s
    else
      var (s1, _) := Attempt(s, replies, lim);
      if s1.chan.queue != [] && !s1.chan.condemned then
        s1.(chan := s1.chan.(sending := true), poll := Step(s1.poll, RegisterWrite(fd, SenderHandler), refused).0)
      else s1
  }

  /** Channel::send. */
  function Send(s: Sys, fd: int, packet: Option<seq<Byte>>, replies: seq<SendReply>, refused: bool, lim: Limits): Sys {
    if s.chan.destroyed || s.chan.condemned then s.(chan := s.chan.(queue := []))
    else Transmit(Admit(s, packet, lim), fd, replies, refused, lim)
  }

  datatype Action =
    | SendPacket(packet: Option<seq<Byte>>, replies: seq<SendReply>, refused: bool)
    | Writable(replies: seq<SendReply>, refused: bool)
    | Tick
    | Condemn
    | Destroy(refusedWrite: bool, refusedRead: bool)
    | OtherCall(call: Call, refused: bool)

  /** Other users of the poller leave this descriptor's write side alone. */
  predicate Legal(a: Action, fd: int) {
    a.OtherCall? ==> a.call.fd != fd || a.call.IsRead()
  }

  function Next(s: Sys, fd: int, a: Action, lim: Limits): Sys {
    match a
    case SendPacket(packet, replies, refused) => Send(s, fd, packet, replies, refused, lim)
    case Writable(replies, refused) =>
      // The poller calls the write handler only while it is installed.
      if fd !in s.poll.writers then s
      else
        var (s1, ok) := Attempt(s, replies, lim);
        if ok then StopSend(s1, fd, refused) else s1
    case Tick => s.(chan := s.chan.(tick := 0))
    case Condemn => s.(chan := s.chan.(condemned := true))
    case Destroy(refusedWrite, refusedRead) =>
      if s.chan.destroyed then s
      else
        var s1 := StopSend(s, fd, refusedWrite);
        var poll := if s1.chan.recving then Step(s1.poll, DeregisterRead(fd), refusedRead).0 else s1.poll;
        s1.(chan := s1.chan.(queue := [], recving := false, destroyed := true, tick := 0), poll := poll)
    case OtherCall(call, refused) => s.(poll := Step(s.poll, call, refused).0)
  }

  function Run(s: Sys, fd: int, actions: seq<Action>, lim: Limits): Sys
    decreases |actions|
  {
    if actions == [] then s else Run(Next(s, fd, actions[0], lim), fd, actions[1..], lim)
  }

  predicate AllLegal(actions: seq<Action>, fd: int) {
    forall k :: 0 <= k < |actions| ==> Legal(actions[k], fd)
  }

  // ---------- The invariant of every run ----------

  ghost predicate Live(s: Sys) {
    !s.chan.condemned && !s.chan.destroyed
  }

  /** Attempts since the last one that emptied the queue. */
  function Trailing(attempts: seq<bool>): nat {
    if attempts == [] || attempts[|attempts| - 1] then 0 else 1 + Trailing(attempts[..|attempts| - 1])
  }

  ghost predicate Conserved(s: Sys) {
    && s.wire + Unsent(s.chan.queue) <= s.enqueued
    && (Live(s) ==> s.wire + Unsent(s.chan.queue) == s.enqueued)
  }

  ghost predicate Counted(s: Sys) {
    && s.chan.fails <= MaxFails
    && (!s.chan.condemned ==> s.chan.fails == Trailing(s.attempts) < MaxFails)
  }

  ghost predicate Waiting(s: Sys, fd: int) {
    && (fd in s.poll.writers ==> s.chan.sending)
    && (s.chan.sending ==> !s.chan.destroyed)
    && (Live(s) ==> (s.chan.sending <==> s.chan.queue != []))
  }

  ghost predicate Inv(s: Sys, fd: int) {
    Shape(s.chan.queue) && Conserved(s) && Counted(s) && Waiting(s, fd)
  }

  const NewChan := Chan([], false, false, false, false, 0, 0)

  ghost predicate Initial(s: Sys, fd: int) {
    && s.chan == NewChan.(recving := s.chan.recving)
    && fd !in s.poll.writers
    && s.enqueued == [] && s.wire == [] && s.attempts == []
  }

  lemma TrailingAppend(attempts: seq<bool>, ok: bool)
    ensures Trailing(attempts + [ok]) == if ok then 0 else 1 + Trailing(attempts)
  {
    assert (attempts + [ok])[..|attempts|] == attempts;
  }

  /** One call on an uncondemned channel: it conserves the bytes; it answers true exactly when
      nothing is left; otherwise it leaves an incomplete packet at the head or condemns. */
  lemma ProcessSendMeets(c: Chan, replies: seq<SendReply>, lim: Limits)
    requires Shape(c.queue) && !c.condemned && c.fails < MaxFails
    ensures var (c', ok, out) := ProcessSend(c, replies, lim);
            && Shape(c'.queue)
            && out + Unsent(c'.queue) == Unsent(c.queue)
            && (ok <==> c'.queue == [])
            && (!ok && !c'.condemned ==> c'.queue[0].sent < |c'.queue[0].payload|)
            && c'.fails <= MaxFails
            && (ok ==> c'.fails == 0)
            && (!ok && !c'.condemned ==> c'.fails == c.fails + 1 < MaxFails)
            && c' == c.(queue := c'.queue, condemned := c'.condemned, fails := c'.fails, tick := c'.tick)
  {
    FlushEnds(c.queue, false, c.tick, replies, lim);
    FlushConserves(c.queue, false, c.tick, replies, lim);
  }

  lemma PrefixShift(wire: seq<Byte>, out: seq<Byte>, left: seq<Byte>, was: seq<Byte>)
    requires out + left == was
    ensures wire + out + left == wire + was && wire <= wire + out
  {
    assert wire + out + left == wire + (out + left);
  }

  /** The same with the history: a condemned channel's attempt changes nothing. */
  lemma AttemptMeets(s: Sys, replies: seq<SendReply>, lim: Limits)
    requires Shape(s.chan.queue) && Conserved(s) && Counted(s)
    ensures var (s', ok) := Attempt(s, replies, lim);
            && Shape(s'.chan.queue) && Conserved(s') && Counted(s')
            && (ok <==> !s.chan.condemned && s'.chan.queue == [])
            && (s.chan.condemned ==> s' == s)
            && s'.poll == s.poll && s'.chan.sending == s.chan.sending && s'.chan.destroyed == s.chan.destroyed
            && s.wire <= s'.wire && s'.enqueued == s.enqueued
  {
    if s.chan.condemned {
      assert s.wire + [] == s.wire;
    } else {
      var (c', ok, out) := ProcessSend(s.chan, replies, lim);
      ProcessSendMeets(s.chan, replies, lim);
      PrefixShift(s.wire, out, Unsent(c'.queue), Unsent(s.chan.queue));
      TrailingAppend(s.attempts, ok);
    }
  }

  // ---------- Every action keeps the invariant ----------

  lemma SendMeets(s: Sys, fd: int, packet: Option<seq<Byte>>, replies: seq<SendReply>, refused: bool, lim: Limits)
    requires Inv(s, fd)
    ensures Inv(Send(s, fd, packet, replies, refused, lim), fd)
    ensures s.wire <= Send(s, fd, packet, replies, refused, lim).wire
  {
    if s.chan.destroyed || s.chan.condemned {
      assert s.wire + [] == s.wire && s.wire <= s.wire + Unsent(s.chan.queue);
    } else {
      var s1 := Admit(s, packet, lim);
      EnqueueConserves(s, packet);
      if s1.chan.queue != [] && !s.chan.sending {
        AttemptMeets(s1, replies, lim);
      }
    }
  }

  lemma EnqueueConserves(s: Sys, packet: Option<seq<Byte>>)
    requires Shape(s.chan.queue) && s.wire + Unsent(s.chan.queue) == s.enqueued
    ensures var q := s.chan.queue + if packet.Some? then [Pkt(packet.value, 0)] else [];
            var e := s.enqueued + if packet.Some? then packet.value else [];
            Shape(q) && s.wire + Unsent(q) == e
  {
    if packet.Some? {
      UnsentAppend(s.chan.queue, Pkt(packet.value, 0));
      assert Pkt(packet.value, 0).Left() == packet.value;
      assert s.wire + (Unsent(s.chan.queue) + packet.value) == s.wire + Unsent(s.chan.queue) + packet.value;
    } else {
      assert s.chan.queue + [] == s.chan.queue && s.enqueued + [] == s.enqueued;
    }
  }

  /** When the write handler runs, the assertion in onSendCompleted holds: a completed flush
      finds the queue empty and the channel sending. */
  lemma WritableMeets(s: Sys, fd: int, replies: seq<SendReply>, refused: bool, lim: Limits)
    requires Inv(s, fd) && fd in s.poll.writers
    ensures var (s1, ok) := Attempt(s, replies, lim);
            ok ==> s1.chan.queue == [] && s1.chan.sending
    ensures Inv(Next(s, fd, Writable(replies, refused), lim), fd)
    ensures s.wire <= Next(s, fd, Writable(replies, refused), lim).wire
  {
    AttemptMeets(s, replies, lim);
  }

  lemma NextKeepsInv(s: Sys, fd: int, a: Action, lim: Limits)
    requires Inv(s, fd) && Legal(a, fd)
    ensures Inv(Next(s, fd, a, lim), fd)
    ensures s.wire <= Next(s, fd, a, lim).wire
  {
    match a
    case SendPacket(packet, replies, refused) => SendMeets(s, fd, packet, replies, refused, lim);
    case Writable(replies, refused) =>
      if fd in s.poll.writers {
        WritableMeets(s, fd, replies, refused, lim);
      }
    case Tick =>
    case Condemn =>
    case Destroy(_, _) =>
      assert s.wire + [] == s.wire && s.wire <= s.wire + Unsent(s.chan.queue);
    case OtherCall(_, _) =>
  }

  /** The invariant of every run: bytes conserved, only the head partly sent, fewer than ten
      attempts since the last complete flush, and a waiting handler exactly when data waits. */
  lemma {:induction false} RunKeepsInv(s: Sys, fd: int, actions: seq<Action>, lim: Limits)
    requires Inv(s, fd) && AllLegal(actions, fd)
    ensures Inv(Run(s, fd, actions, lim), fd)
    ensures s.wire <= Run(s, fd, actions, lim).wire
    decreases |actions|
  {
    if actions != [] {
      NextKeepsInv(s, fd, actions[0], lim);
      RunKeepsInv(Next(s, fd, actions[0], lim), fd, actions[1..], lim);
    }
  }

  lemma InitialInv(s: Sys, fd: int)
    requires Initial(s, fd)
    ensures Inv(s, fd)
  {
  }

  /** In every run from a new channel: what was written and what waits make up what was
      enqueued; at most nine attempts in a row leave data behind on an uncondemned channel. */
  lemma SenderSafety(s: Sys, fd: int, actions: seq<Action>, lim: Limits)
    requires Initial(s, fd) && AllLegal(actions, fd)
    ensures var s' := Run(s, fd, actions, lim);
            && s'.wire <= s'.enqueued
            && (Live(s') ==> s'.wire + Unsent(s'.chan.queue) == s'.enqueued)
            && Shape(s'.chan.queue)
            && (!s'.chan.condemned ==> s'.chan.fails == Trailing(s'.attempts) <= 9)
  {
    RunKeepsInv(s, fd, actions, lim);
    var s' := Run(s, fd, actions, lim);
    assert s'.wire <= s'.wire + Unsent(s'.chan.queue);
  }

  // ---------- Nothing is written after condemnation or destruction ----------

  ghost predicate Closed(s: Sys, fd: int) {
    s.chan.condemned || (s.chan.destroyed && fd !in s.poll.writers)
  }

  lemma {:induction false} ClosedIsSilent(s: Sys, fd: int, actions: seq<Action>, lim: Limits)
    requires Closed(s, fd) && AllLegal(actions, fd)
    ensures Closed(Run(s, fd, actions, lim), fd)
    ensures Run(s, fd, actions, lim).wire == s.wire && Run(s, fd, actions, lim).enqueued == s.enqueued
    decreases |actions|
  {
    if actions != [] {
      var s1 := Next(s, fd, actions[0], lim);
      assert s.wire + [] == s.wire;
      assert Closed(s1, fd) && s1.wire == s.wire && s1.enqueued == s.enqueued;
      ClosedIsSilent(s1, fd, actions[1..], lim);
    }
  }

  // ---------- Waiting data and the poller ----------

  ghost predicate Armed(s: Sys, fd: int) {
    && Agrees(s.poll) && (fd in s.poll.writers <==> s.chan.sending)
    && (fd in s.poll.writers ==> s.poll.writers[fd] == SenderHandler)
  }

  predicate Granted(a: Action) {
    match a
    case SendPacket(_, _, refused) => !refused
    case Writable(_, refused) => !refused
    case Destroy(w, r) => !w && !r
    case OtherCall(_, refused) => !refused
    case _ => true
  }

  lemma NextKeepsArmed(s: Sys, fd: int, a: Action, lim: Limits)
    requires Inv(s, fd) && Armed(s, fd) && Legal(a, fd) && Granted(a)
    ensures Armed(Next(s, fd, a, lim), fd)
  {
    match a
    case SendPacket(packet, replies, _) =>
      AgreementKeptExactly(s.poll, RegisterWrite(fd, SenderHandler), false);
      Answers(s.poll, RegisterWrite(fd, SenderHandler));
    case Writable(_, _) =>
      AgreementKeptExactly(s.poll, DeregisterWrite(fd), false);
    case Destroy(_, _) =>
      AgreementKeptExactly(s.poll, DeregisterWrite(fd), false);
      var s1 := StopSend(s, fd, false);
      AgreementKeptExactly(s1.poll, DeregisterRead(fd), false);
    case OtherCall(call, _) => AgreementKeptExactly(s.poll, call, false);
    case _ =>
  }

  /** While the kernel grants every request, a live channel with data left always has its write
      handler installed and the kernel watching for output: no data is stranded. */
  lemma {:induction false} NoStrandedData(s: Sys, fd: int, actions: seq<Action>, lim: Limits)
    requires Inv(s, fd) && Armed(s, fd) && AllLegal(actions, fd)
    requires forall k :: 0 <= k < |actions| ==> Granted(actions[k])
    ensures var s' := Run(s, fd, actions, lim);
            && Armed(s', fd)
            && (Live(s') && s'.chan.queue != [] ==>
                  fd in s'.poll.writers && s'.poll.writers[fd] == SenderHandler &&
                  fd in s'.poll.kernel && s'.poll.kernel[fd].output)
    decreases |actions|
  {
    if actions == [] {
      assert AgreesAt(s.poll, fd);
    } else {
      NextKeepsInv(s, fd, actions[0], lim);
      NextKeepsArmed(s, fd, actions[0], lim);
      NoStrandedData(Next(s, fd, actions[0], lim), fd, actions[1..], lim);
    }
  }

  // ---------- Destruction and the poller ----------

  ghost predicate Uninstalled(s: Sys, fd: int) {
    fd !in s.poll.readers && fd !in s.poll.writers
  }

  /** Destroying a channel takes both its handlers from the poller, whatever the kernel answers. */
  lemma {:induction false} DestroyUninstalls(s: Sys, fd: int, refusedWrite: bool, refusedRead: bool, lim: Limits)
    requires Inv(s, fd) && !s.chan.destroyed && (fd in s.poll.readers ==> s.chan.recving)
    ensures var s' := Next(s, fd, Destroy(refusedWrite, refusedRead), lim);
            && Uninstalled(s', fd) && s'.chan.destroyed && s'.chan.queue == []
            && !s'.chan.sending && !s'.chan.recving && s'.chan.tick == 0
            && s'.chan.condemned == s.chan.condemned && s'.wire == s.wire
  {
  }

  /** And nothing of a destroyed channel is installed again, unless somebody else registers a reader for
      the descriptor. */
  lemma {:induction false} StaysUninstalled(s: Sys, fd: int, actions: seq<Action>, lim: Limits)
    requires Uninstalled(s, fd) && s.chan.destroyed && AllLegal(actions, fd)
    requires forall k :: 0 <= k < |actions| && actions[k].OtherCall? ==>
                           actions[k].call.fd != fd || !actions[k].call.RegisterRead?
    ensures Uninstalled(Run(s, fd, actions, lim), fd) && Run(s, fd, actions, lim).chan.destroyed
    decreases |actions|
  {
    if actions != [] {
      var s1 := Next(s, fd, actions[0], lim);
      assert Uninstalled(s1, fd) && s1.chan.destroyed;
      StaysUninstalled(s1, fd, actions[1..], lim);
    }
  }

  /** The converse failure: the result of registering for output is ignored, so one refused
      registration leaves the channel marked as sending with no handler, and from then on no
      run writes another byte, however many packets are sent. */
  lemma {:induction false} StrandedForever(s: Sys, fd: int, actions: seq<Action>, lim: Limits)
    requires s.chan.sending && fd !in s.poll.writers && !s.chan.destroyed && AllLegal(actions, fd)
    ensures Run(s, fd, actions, lim).wire == s.wire
    decreases |actions|
  {
    if actions != [] {
      var s1 := Next(s, fd, actions[0], lim);
      assert s1.wire == s.wire;
      if s1.chan.destroyed {
        ClosedIsSilent(s1, fd, actions[1..], lim);
      } else {
        StrandedForever(s1, fd, actions[1..], lim);
      }
    }
  }

  /** The flush of the enlarged queue will neither complete nor condemn the channel. */
  predicate LeavesData(c: Chan, packet: Option<seq<Byte>>, replies: seq<SendReply>, lim: Limits) {
    var q := Enlarged(c.queue, packet);
    var (c', ok, _) := ProcessSend(c.(queue := q), replies, lim);
    !Overflows(q, lim) && !ok && !c'.condemned
  }

  /** The registration for output will fail: the kernel refuses it, or its entry for the
      descriptor does not match the read handler that decides between ADD and MOD. */
  predicate RegistrationFails(p: Poll, fd: int, refused: bool) {
    refused || ((fd in p.readers) != (fd in p.kernel))
  }

  /** In every reachable state, agreeing with the kernel or not, a send strands its data exactly
      when the flush leaves some and the registration fails. */
  lemma StrandedIff(s: Sys, fd: int, packet: Option<seq<Byte>>, replies: seq<SendReply>, refused: bool, lim: Limits)
    requires Inv(s, fd) && Live(s) && !s.chan.sending
    ensures var s' := Send(s, fd, packet, replies, refused, lim);
            s'.chan.sending && fd !in s'.poll.writers
            <==> LeavesData(s.chan, packet, replies, lim) && RegistrationFails(s.poll, fd, refused)
  {
    var q := Enlarged(s.chan.queue, packet);
    if q != [] && !Overflows(q, lim) {
      FlushEnds(q, false, s.chan.tick, replies, lim);
    }
  }

  const Full := SendReply(-1, Again)

  /** Sending one byte on an idle channel while the kernel's buffer is full. */
  lemma BlockedSend(s: Sys, fd: int, b: Byte)
    requires s.chan == NewChan.(recving := s.chan.recving, tick := s.chan.tick) && s.chan.tick < 2
    ensures var s' := Next(s, fd, SendPacket(Some([b]), [Full], false), DefaultLimits);
            && s'.chan == s.chan.(queue := [Pkt([b], 0)], sending := true, fails := 1)
            && s'.poll == Step(s.poll, RegisterWrite(fd, SenderHandler), false).0
            && s'.wire == s.wire
  {
    var q := [Pkt([b], 0)];
    assert s.chan.queue + q == q;
    assert TotalLength(q) == 1 + TotalLength([]);
    assert Flush(q, false, s.chan.tick, [Full], DefaultLimits)
        == Flushed(ResourceUnavailable, q, false, s.chan.tick, []);
    assert s.wire + [] == s.wire;
  }

  /** The poller's callback sends the byte, and the kernel refuses to drop the interest. */
  lemma CompletedWrite(s: Sys, fd: int, b: Byte)
    requires s.chan == NewChan.(recving := s.chan.recving, queue := [Pkt([b], 0)], sending := true, fails := 1)
    requires fd in s.poll.writers
    ensures var s' := Next(s, fd, Writable([SendReply(1, Again)], true), DefaultLimits);
            && s'.chan == NewChan.(recving := s.chan.recving, tick := 1)
            && s'.poll == Step(s.poll, DeregisterWrite(fd), true).0
            && s'.wire == s.wire + [b]
  {
    var q := s.chan.queue;
    assert q[1..] == [];
    assert Flush(q, false, 0, [SendReply(1, Again)], DefaultLimits) == Flushed(Success, [], false, 1, [b] + []);
  }

  /** A registration that is not refused can strand as well: the flush completes while the kernel
      refuses the removal, which leaves an entry, and the next send's ADD finds it present. */
  lemma StrandedByStaleEntry(s: Sys, fd: int)
    requires Initial(s, fd) && AgreesAt(s.poll, fd) && fd !in s.poll.readers
    ensures var actions := [SendPacket(Some([1]), [Full], false), Writable([SendReply(1, Again)], true),
            SendPacket(Some([2]), [Full], false)];
            var s' := Run(s, fd, actions, DefaultLimits);
            && Live(s') && s'.chan.sending && fd !in s'.poll.writers
            && s'.wire == [1] && s'.chan.queue == [Pkt([2], 0)]
  {
    var a1, a2, a3 := SendPacket(Some([1]), [Full], false), Writable([SendReply(1, Again)], true),
      SendPacket(Some([2]), [Full], false);
    BlockedSend(s, fd, 1);
    var s1 := Next(s, fd, a1, DefaultLimits);
    CompletedWrite(s1, fd, 1);
    var s2 := Next(s1, fd, a2, DefaultLimits);
    assert Stale(s2.poll, fd);
    BlockedSend(s2, fd, 2);
    RunThree(s, fd, a1, a2, a3, DefaultLimits);
  }

  lemma RunThree(s: Sys, fd: int, a1: Action, a2: Action, a3: Action, lim: Limits)
    ensures Run(s, fd, [a1, a2, a3], lim) == Next(Next(Next(s, fd, a1, lim), fd, a2, lim), fd, a3, lim)
  {
    var s2 := Next(Next(s, fd, a1, lim), fd, a2, lim);
    assert Run(s2, fd, [a3], lim) == Run(Next(s2, fd, a3, lim), fd, [], lim);
    assert [a1, a2, a3][1..] == [a2, a3] && [a2, a3][1..] == [a3];
  }
}
