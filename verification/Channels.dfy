/** Endpoints, channels, packet senders and packet receivers, updated in place.  Each method is
    tied to the functions that the whole-run theorems are about. */
module Channels {
  import opened Wrappers
  import opened Addresses
  import opened Bytes
  import opened SendQueue
  import opened ReceiveWindow
  import opened Packets
  import opened Interest
  import opened Reassembly
  import opened Interruption
  import Runs = SenderRuns
  import Pollers = EventPoller
  import Readers = PacketReader

  /** A connected socket: what the kernel accepted from us, and what it has ready for us. */
  class EndPoint {
    const fd: int
    const address: Address
    var outgoing: seq<Byte>
    var incoming: seq<Byte>

    constructor (fd: int, address: Address)
      ensures this.fd == fd && this.address == address && outgoing == [] && incoming == []
    {
      this.fd, this.address, outgoing, incoming := fd, address, [], [];
    }

    method Send(p: Packet, reply: SendReply) returns (len: int)
      requires p.Sendable()
      modifies `outgoing, p`sentSize
      ensures p.Sendable() && len == Accepted(old(ToPkt(p)), reply)
      ensures ToPkt(p) == Advance(old(ToPkt(p)), len)
      ensures outgoing == old(outgoing) + if len > 0 then old(ToPkt(p)).Left()[..len] else []
    {
      var offered := p.Length() - p.sentSize;
      len := if reply.len < 0 then -1 else if reply.len > offered then offered else reply.len;
      if len > 0 {
        outgoing := outgoing + p.data[p.sentSize..p.sentSize + len];
        assert p.data[p.sentSize..p.sentSize + len] == ToPkt(p).Left()[..len];
        p.sentSize := p.sentSize + len;
      }
    }

    /** Fills the packet's buffer behind what it holds already; -1 is failure and 0 the peer's
        close, or a buffer without room.  The source asserts the write position. */
    method Recv(p: Packet, reply: RecvReply) returns (len: int, wouldBlock: bool)
      requires p.Valid() && p.wpos < PacketMaxSizeTcp
      modifies `incoming, p
      ensures p.Valid()
      ensures wouldBlock == (reply.WouldBlock? || (reply.Data? && old(p.Room()) > 0 && old(incoming) == []))
      ensures len == if wouldBlock || reply.Failed? then -1 else if reply.Closed? || old(p.Room()) == 0 then 0
                     else Delivered(reply.n, old(p.Room()), old(incoming))
      ensures p.rpos == old(p.rpos) && p.sentSize == old(p.sentSize) && |p.data| == |old(p.data)|
      ensures len > 0 ==> p.Unread() == old(p.Unread()) + old(incoming)[..len] && incoming == old(incoming)[len..]
      ensures len <= 0 ==> incoming == old(incoming) && p.Unread() == old(p.Unread())
    {
      wouldBlock := reply.WouldBlock? || (reply.Data? && p.Room() > 0 && incoming == []);
      if wouldBlock || reply.Failed? {
        return -1, wouldBlock;
      }
      if reply.Closed? || p.Room() == 0 {
        return 0, wouldBlock;
      }
      len := Delivered(reply.n, p.Room(), incoming);
      ghost var held := p.data[..p.wpos];
      p.data := WriteAt(p.data, p.wpos, incoming[..len]);
      assert p.data[..p.wpos + len] == held + incoming[..len];
      p.wpos := p.wpos + len;
      assert p.data[p.rpos..p.wpos] == held[p.rpos..] + incoming[..len];
      incoming := incoming[len..];
    }
  }

  ghost function ToPkt(p: Packet): Pkt
    requires p.Valid()
    reads p
  {
    Pkt(p.Payload(), p.sentSize)
  }

  ghost predicate AllSendable(ps: seq<Packet>)
    reads ps
  {
    forall i :: 0 <= i < |ps| ==> ps[i].Sendable()
  }

  ghost predicate Distinct(ps: seq<Packet>) {
    forall i, j :: 0 <= i < j < |ps| ==> ps[i] != ps[j]
  }

  ghost function ToPkts(ps: seq<Packet>): (q: seq<Pkt>)
    requires AllSendable(ps)
    reads ps
    ensures |q| == |ps|
  {
    if ps == [] then [] else [ToPkt(ps[0])] + ToPkts(ps[1..])
  }

  twostate lemma SamePkts(ps: seq<Packet>)
    requires old(AllSendable(ps)) && AllSendable(ps)
    requires forall i :: 0 <= i < |ps| ==> ToPkt(ps[i]) == old(ToPkt(ps[i]))
    ensures ToPkts(ps) == old(ToPkts(ps))
  {
    if ps != [] {
      SamePkts(ps[1..]);
    }
  }

  class TCPPacketSender {
    const channel: Channel
    var sendfailCount: nat

    constructor (channel: Channel)
      ensures this.channel == channel && sendfailCount == 0
    {
      this.channel, sendfailCount := channel, 0;
    }

    ghost function Now(endPoint: EndPoint, p: Packet): Sending
      requires p.Valid()
      reads channel, endPoint, p
    {
      Sending(ToPkt(p), channel.condemned, channel.lastTickBytesSent, endPoint.outgoing)
    }

    method DoSend(endPoint: EndPoint, p: Packet, reply: SendReply) returns (reason: Reason)
      requires p.Sendable() && channel.endPoint == endPoint
      modifies channel`condemned, channel`lastTickBytesSent, endPoint`outgoing, p`sentSize
      ensures p.Sendable()
      ensures Sends(old(Now(endPoint, p)), reply, channel.limits, reason, Now(endPoint, p))
      ensures reason == if old(channel.condemned) then ChannelCondemned
                        else if p.sentSize == p.Length() then Success
                        else if p.sentSize > old(p.sentSize) || reply.errno == Again then ResourceUnavailable
                        else if reply.errno == ConnRefused then NoSuchPort
                        else if reply.errno == Pipe || reply.errno == ConnReset then ClientDisconnected
                        else if reply.errno == NoBufs then TransmitQueueFull
                        else GeneralNetwork
    {
      if channel.condemned {
        return ChannelCondemned;
      }
      var len := endPoint.Send(p, reply);
      var sentCompleted := p.sentSize == p.Length();
      channel.OnPacketSent(len);
      if sentCompleted {
        return Success;
      } else if len > 0 {
        return ResourceUnavailable;
      }
      reason := FromErrno(reply.errno);
    }

    /** Sends packets in turn; `i` is the first that was not finished. */
    method SendAll(endPoint: EndPoint, all: seq<Packet>, replies: seq<SendReply>) returns (reason: Reason, i: nat)
      requires channel.endPoint == endPoint && Distinct(all) && AllSendable(all)
      modifies channel`condemned, channel`lastTickBytesSent, endPoint`outgoing, all
      ensures AllSendable(all) && i <= |all| && (reason == Success ==> i == |all|)
      ensures var f := Flush(old(ToPkts(all)), old(channel.condemned), old(channel.lastTickBytesSent), replies,
              channel.limits);
              && f == Flushed(reason, ToPkts(all[i..]), channel.condemned, channel.lastTickBytesSent, f.wire)
              && endPoint.outgoing == old(endPoint.outgoing) + f.wire
    {
      reason, i := Success, 0;
      var rest := replies;
      ghost var whole := Flush(ToPkts(all), channel.condemned, channel.lastTickBytesSent, replies, channel.limits);
      assert all[0..] == all;
      while i < |all|
        invariant i <= |all| && reason == Success && AllSendable(all)
        invariant Continues(whole, old(endPoint.outgoing), StillToSend(all, i, rest), endPoint.outgoing)
      {
        reason := SendNext(endPoint, all, i, rest, whole, old(endPoint.outgoing));
        if reason != Success {
          return;
        }
        rest := if rest == [] then [] else rest[1..];
        i := i + 1;
      }
    }

    /** The flush of the packets from the i-th on. */
    ghost function StillToSend(all: seq<Packet>, i: nat, replies: seq<SendReply>): Flushed
      requires i <= |all| && AllSendable(all)
      reads channel, all
    {
      Flush(ToPkts(all[i..]), channel.condemned, channel.lastTickBytesSent, replies, channel.limits)
    }

    /** Sends the i-th packet in a flush that began as `whole` with `wire` written. */
    method SendNext(endPoint: EndPoint, all: seq<Packet>, i: nat, rest: seq<SendReply>, ghost whole: Flushed,
                    ghost wire: seq<Byte>)
      returns (reason: Reason)
      requires channel.endPoint == endPoint && i < |all| && Distinct(all) && AllSendable(all)
      requires Continues(whole, wire, StillToSend(all, i, rest), endPoint.outgoing)
      modifies channel`condemned, channel`lastTickBytesSent, endPoint`outgoing, all
      ensures AllSendable(all)
      ensures if reason == Success then
                Continues(whole, wire, StillToSend(all, i + 1, if rest == [] then [] else rest[1..]), endPoint.outgoing)
              else
                && whole == Flushed(reason, ToPkts(all[i..]), channel.condemned, channel.lastTickBytesSent, whole.wire)
                && endPoint.outgoing == wire + whole.wire
    {
      ghost var before, tail, f := Now(endPoint, all[i]), ToPkts(all[i + 1..]), StillToSend(all, i, rest);
      assert all[i..][1..] == all[i + 1..];
      reason := SendOne(endPoint, all, i, all[i], Reply(rest));
      FlushOne(before, tail, rest, channel.limits, reason, Now(endPoint, all[i]));
      if reason == Success {
        ghost var g := StillToSend(all, i + 1, if rest == [] then [] else rest[1..]);
        ContinuesOn(whole, wire, f, before.wire, g, endPoint.outgoing);
      }
    }

    /** Sends the i-th packet and leaves the others as they are. */
    method SendOne(endPoint: EndPoint, all: seq<Packet>, i: nat, p: Packet, reply: SendReply) returns (reason: Reason)
      requires channel.endPoint == endPoint && i < |all| && p == all[i] && Distinct(all) && AllSendable(all)
      modifies channel`condemned, channel`lastTickBytesSent, endPoint`outgoing, p`sentSize
      ensures AllSendable(all) && ToPkts(all[i + 1..]) == old(ToPkts(all[i + 1..]))
      ensures ToPkts(all[i..]) == [ToPkt(p)] + ToPkts(all[i + 1..])
      ensures Sends(old(Now(endPoint, p)), reply, channel.limits, reason, Now(endPoint, p))
    {
      ghost var tail := ToPkts(all[i + 1..]);
      assert all[i..][1..] == all[i + 1..];
      reason := DoSend(endPoint, p, reply);
      assert p !in all[i + 1..];
      assert ToPkts(all[i + 1..]) == tail;
    }

    /** Sends the queued packets in turn and drops those that were finished. */
    method FlushBundles(endPoint: EndPoint, replies: seq<SendReply>) returns (reason: Reason)
      requires channel.endPoint == endPoint && Distinct(channel.bundles) && AllSendable(channel.bundles)
      modifies channel`condemned, channel`lastTickBytesSent, channel`bundles, endPoint`outgoing, channel.bundles
      ensures Distinct(channel.bundles) && AllSendable(channel.bundles)
      ensures reason == Success ==> channel.bundles == []
      ensures forall p :: p in channel.bundles ==> p in old(channel.bundles)
      ensures var f := Flush(old(ToPkts(channel.bundles)), old(channel.condemned), old(channel.lastTickBytesSent),
              replies, channel.limits);
              && f == Flushed(reason, ToPkts(channel.bundles), channel.condemned, channel.lastTickBytesSent, f.wire)
              && endPoint.outgoing == old(endPoint.outgoing) + f.wire
    {
      var i;
      reason, i := SendAll(endPoint, channel.bundles, replies);
      if reason == Success {
        channel.bundles := [];
      } else {
        channel.bundles := channel.bundles[i..];
      }
    }

    /** Flushes the queue.  An attempt that fills the kernel's buffer is retried later, at most
        ten times in a row; any other failure condemns the channel. */
    method Attempt(endPoint: EndPoint, replies: seq<SendReply>) returns (ok: bool)
      requires channel.Valid() && channel.pPacketSender == this && channel.endPoint == endPoint
      modifies channel`condemned, channel`lastTickBytesSent, channel`bundles, endPoint`outgoing, channel.bundles,
          this`sendfailCount
      ensures channel.Valid() && forall p :: p in channel.bundles ==> p in old(channel.bundles)
      ensures var (c, done, out) := Runs.ProcessSend(old(channel.View()), replies, channel.limits);
              ok == done && (ok ==> channel.bundles == []) && channel.View() == c &&
                endPoint.outgoing == old(endPoint.outgoing) + out
    {
      if channel.condemned {
        return false;
      }
      var reason := FlushBundles(endPoint, replies);
      ok := Settle(reason);
    }

    /** Books the outcome of a flush. */
    method Settle(reason: Reason) returns (ok: bool)
      modifies this`sendfailCount, channel`condemned
      ensures ok == (reason == Success)
      ensures sendfailCount ==
                if ok then 0
                else if reason == ResourceUnavailable then (old(sendfailCount) + 1) % 256
                else old(sendfailCount)
      ensures channel.condemned ==
                (old(channel.condemned) ||
                 (!ok && (reason == ResourceUnavailable ==> sendfailCount >= Runs.MaxFails)))
    {
      if reason == Success {
        sendfailCount := 0;
        return true;
      }
      if reason == ResourceUnavailable {
        sendfailCount := (sendfailCount + 1) % 256;
        if sendfailCount >= Runs.MaxFails {
          channel.condemned := true;
        }
      } else {
        channel.condemned := true;
      }
      ok := false;
    }

    /** One attempt; when it comes from the poller and completes, the write handler goes. */
    method ProcessSend(endPoint: EndPoint, isEpoll: bool, replies: seq<SendReply>, refused: bool) returns (ok: bool)
      requires channel.Valid() && channel.pPacketSender == this && channel.endPoint == endPoint
      requires isEpoll ==> channel.isSending
      modifies channel, channel.poller, channel.poller.epoll, endPoint, channel.bundles, this
      ensures channel.Valid() && channel.Kept(old(channel.endPoint), old(channel.pPacketSender),
              old(channel.bufferedReceives), old(channel.lastTickBytesReceived))
      ensures forall p :: p in channel.bundles ==> p in old(channel.bundles)
      ensures var (c, done, out) := Runs.ProcessSend(old(channel.View()), replies, channel.limits);
              && ok == done
              && endPoint.outgoing == old(endPoint.outgoing) + out
              && channel.View() == (if isEpoll && ok then c.(sending := false) else c)
              && channel.poller.State() ==
                   if isEpoll && ok then Step(old(channel.poller.State()), DeregisterWrite(endPoint.fd), refused).0
                   else old(channel.poller.State())
    {
      ok := Attempt(endPoint, replies);
      if ok && isEpoll {
        channel.OnSendCompleted(endPoint, refused);
      }
    }
  }

  class Channel {
    const limits: Limits
    const poller: Pollers.EventPoller
    var endPoint: EndPoint?
    var bundles: seq<Packet>
    var bufferedReceives: seq<Packet>
    var condemned: bool
    var destroyed: bool
    var isSending: bool
    var isRecving: bool
    var lastTickBytesSent: nat
    var lastTickBytesReceived: nat
    var pPacketSender: TCPPacketSender?

    constructor (limits: Limits, poller: Pollers.EventPoller, endPoint: EndPoint)
      ensures this.limits == limits && this.poller == poller && this.endPoint == endPoint
      ensures bundles == [] && bufferedReceives == [] && pPacketSender == null
      ensures !condemned && !destroyed && !isSending && !isRecving && lastTickBytesSent == lastTickBytesReceived == 0
    {
      this.limits, this.poller, this.endPoint := limits, poller, endPoint;
      bundles, bufferedReceives, pPacketSender := [], [], null;
      condemned, destroyed, isSending, isRecving := false, false, false, false;
      lastTickBytesSent, lastTickBytesReceived := 0, 0;
    }

    method OnPacketSent(bytes: int)
      modifies `condemned, `lastTickBytesSent
      ensures lastTickBytesSent == Count(old(lastTickBytesSent), bytes)
      ensures condemned == (old(condemned) || Reaches(lastTickBytesSent, limits.sendBytes))
    {
      if bytes > 0 {
        lastTickBytesSent := Wrap32(lastTickBytesSent + bytes);
      }
      if limits.sendBytes > 0 && lastTickBytesSent >= limits.sendBytes {
        condemned := true;
      }
    }

    ghost predicate Valid()
      reads this, bundles
    {
      && (endPoint == null <==> destroyed)
      && Distinct(bundles) && AllSendable(bundles)
      && (pPacketSender != null ==> pPacketSender.channel == this)
      && (isSending ==> pPacketSender != null)
    }

    /** What sending leaves alone. */
    ghost predicate Kept(ep: EndPoint?, sender: TCPPacketSender?, window: seq<Packet>, tick: nat)
      reads this
    {
      endPoint == ep && pPacketSender == sender && bufferedReceives == window && lastTickBytesReceived == tick
    }

    /** The sending state the whole-run theorems speak of. */
    ghost function View(): Runs.Chan
      requires Valid()
      reads this, bundles, pPacketSender
    {
      Runs.Chan(ToPkts(bundles), condemned, destroyed, isSending, isRecving,
                if pPacketSender == null then 0 else pPacketSender.sendfailCount, lastTickBytesSent)
    }

    /** The source asserts that a completed flush finds nothing queued and a handler waiting. */
    method OnSendCompleted(ep: EndPoint, refused: bool)
      requires Valid() && endPoint == ep
      requires bundles == [] && isSending
      modifies this`isSending, poller, poller.epoll
      ensures Valid() && View() == old(View()).(sending := false)
      ensures poller.State() == Step(old(poller.State()), DeregisterWrite(ep.fd), refused).0
    {
      StopSend(ep, refused);
    }

    method StopSend(ep: EndPoint, refused: bool)
      requires Valid() && endPoint == ep
      modifies this`isSending, poller, poller.epoll
      ensures Valid() && View() == old(View()).(sending := false)
      ensures poller.State() == if old(isSending) then Step(old(poller.State()), DeregisterWrite(ep.fd), refused).0
              else old(poller.State())
    {
      if !isSending {
        return;
      }
      isSending := false;
      var _ := poller.DeregisterForWrite(ep.fd, refused);
    }

    /** The channel and its poller as the whole-run theorems see them, without history. */
    ghost function Now(): Runs.Sys
      requires Valid()
      reads this, bundles, pPacketSender, poller, poller.epoll, endPoint
    {
      Runs.Sys(View(), poller.State(), [], if endPoint == null then [] else endPoint.outgoing, [])
    }

    static ghost predicate SameNow(a: Runs.Sys, b: Runs.Sys) {
      a.chan == b.chan && a.poll == b.poll && a.wire == b.wire
    }

    method BundlesLength() returns (total: nat)
      requires Valid()
      ensures total == Runs.TotalLength(ToPkts(bundles))
    {
      total := 0;
      var i := 0;
      assert bundles[0..] == bundles;
      while i < |bundles|
        invariant i <= |bundles| && total + Runs.TotalLength(ToPkts(bundles[i..])) == Runs.TotalLength(ToPkts(bundles))
      {
        assert bundles[i..][1..] == bundles[i + 1..];
        total := total + bundles[i].Length();
        i := i + 1;
      }
    }

    method CheckSendWindow()
      requires Valid() && !condemned
      modifies this`condemned
      ensures condemned == Runs.Overflows(ToPkts(bundles), limits)
      ensures Valid() && View() == old(View()).(condemned := condemned)
    {
      var bundleSize := |bundles|;
      var overflow := false;
      if limits.sendMessagesCritical > 0 && bundleSize > limits.sendMessagesCritical {
        if limits.sendMessages > 0 && bundleSize > limits.sendMessages {
          overflow := true;
        }
      }
      var bundleBytes := BundlesLength();
      if limits.sendBytes > 0 && bundleBytes >= limits.sendBytes {
        overflow := true;
      }
      condemned := overflow;
    }

    method EnsureSender()
      requires Valid()
      modifies this`pPacketSender
      ensures Valid() && pPacketSender != null && Now() == old(Now())
      ensures pPacketSender == old(pPacketSender) || fresh(pPacketSender)
    {
      if pPacketSender == null {
        pPacketSender := new TCPPacketSender(this);
      }
    }

    /** Flushes at once; what is left waits for the poller.  The poller's answer is ignored. */
    method SendNow(ep: EndPoint, replies: seq<SendReply>, refused: bool)
      requires Valid() && endPoint == ep && !isSending
      modifies this, poller, poller.epoll, ep, bundles, pPacketSender
      ensures Valid() && endPoint == ep && bufferedReceives == old(bufferedReceives) &&
              lastTickBytesReceived == old(lastTickBytesReceived)
      ensures forall p :: p in bundles ==> p in old(bundles)
      ensures old(bundles) != [] ==> SameNow(Now(), Runs.Transmit(old(Now()), ep.fd, replies, refused, limits))
    {
      EnsureSender();
      var _ := pPacketSender.ProcessSend(ep, false, replies, refused);
      if |bundles| > 0 && !condemned && !destroyed {
        WaitForPoller(ep, refused);
      }
    }

    method WaitForPoller(ep: EndPoint, refused: bool)
      requires Valid() && endPoint == ep && pPacketSender != null
      modifies this`isSending, poller, poller.epoll
      ensures Valid() && View() == old(View()).(sending := true)
      ensures poller.State() == Step(old(poller.State()), RegisterWrite(ep.fd, Runs.SenderHandler), refused).0
    {
      isSending := true;
      var _ := poller.RegisterForWrite(ep.fd, Runs.SenderHandler, refused);
    }

    /** Queues a packet, or none, and flushes unless a write handler is waiting.  The packet must
        be new to the queue and not yet sent. */
    method Send(packet: Packet?, replies: seq<SendReply>, refused: bool)
      requires Valid()
      requires packet != null ==> packet.Sendable() && packet.sentSize == 0 && packet !in bundles
      modifies this, poller, poller.epoll, endPoint, bundles, pPacketSender, packet
      ensures Valid() && endPoint == old(endPoint) && bufferedReceives == old(bufferedReceives)
      ensures forall p :: p in bundles ==> p in old(bundles) || p == packet
      ensures var payload := if packet == null then None else Some(old(packet.Payload()));
              SameNow(Now(), Runs.Send(old(Now()), if endPoint == null then 0 else endPoint.fd, payload, replies,
                refused, limits))
    {
      if destroyed {
        bundles := [];
        return;
      }
      if condemned {
        bundles := [];
        return;
      }
      SendLive(endPoint, packet, replies, refused);
    }

    method SendLive(ep: EndPoint, packet: Packet?, replies: seq<SendReply>, refused: bool)
      requires Valid() && !condemned && endPoint == ep
      requires packet != null ==> packet.Sendable() && packet.sentSize == 0 && packet !in bundles
      modifies this, poller, poller.epoll, ep, bundles, pPacketSender, packet
      ensures Valid() && endPoint == ep && bufferedReceives == old(bufferedReceives)
      ensures forall p :: p in bundles ==> p in old(bundles) || p == packet
      ensures var payload := if packet == null then None else Some(old(packet.Payload()));
              SameNow(Now(), Runs.Send(old(Now()), ep.fd, payload, replies, refused, limits))
    {
      Admit(packet);
      if |bundles| == 0 {
        return;
      }
      if !isSending {
        SendNow(ep, replies, refused);
      }
    }

    /** Queues the packet and checks the window. */
    method Admit(packet: Packet?)
      requires Valid() && !condemned
      requires packet != null ==> packet.Sendable() && packet.sentSize == 0 && packet !in bundles
      modifies this`bundles, this`condemned
      ensures Valid() && bundles == old(bundles) + if packet == null then [] else [packet]
      ensures SameNow(Now(), Runs.Admit(old(Now()), if packet == null then None else Some(packet.Payload()), limits))
    {
      Enqueue(packet);
      if |bundles| > 0 {
        CheckSendWindow();
      }
    }

    method Enqueue(packet: Packet?)
      requires Valid()
      requires packet != null ==> packet.Sendable() && packet.sentSize == 0 && packet !in bundles
      modifies this`bundles
      ensures Valid() && bundles == old(bundles) + if packet == null then [] else [packet]
      ensures View() == old(View()).(
                queue := old(View()).queue + if packet == null then [] else [Pkt(packet.Payload(), 0)])
    {
      if packet != null {
        ToPktsAppend(bundles, packet);
        bundles := bundles + [packet];
      } else {
        ghost var q := View().queue;
        assert q + [] == q && bundles + [] == bundles;
      }
    }

    /** The poller found the socket writable and this channel's handler installed. */
    method HandleOutputNotification(ep: EndPoint, replies: seq<SendReply>, refused: bool)
      requires Valid() && endPoint == ep && isSending && ep.fd in poller.fdWriteHandlers
      modifies this, poller, poller.epoll, ep, bundles, pPacketSender
      ensures Valid() && endPoint == ep && bufferedReceives == old(bufferedReceives)
      ensures SameNow(Now(), Runs.Next(old(Now()), ep.fd, Runs.Writable(replies, refused), limits))
    {
      var _ := pPacketSender.ProcessSend(ep, true, replies, refused);
    }

    method StopRecv(ep: EndPoint, refused: bool)
      requires Valid() && endPoint == ep
      modifies this`isRecving, poller, poller.epoll
      ensures Valid() && View() == old(View()).(recving := false)
      ensures poller.State() == if old(isRecving) then Step(old(poller.State()), DeregisterRead(ep.fd), refused).0
              else old(poller.State())
    {
      if !isRecving {
        return;
      }
      isRecving := false;
      var _ := poller.DeregisterForRead(ep.fd, refused);
    }

    method ClearState(ep: EndPoint, refusedWrite: bool, refusedRead: bool)
      requires Valid() && endPoint == ep
      modifies this, poller, poller.epoll
      ensures Valid() && endPoint == ep && bundles == [] && bufferedReceives == [] && lastTickBytesReceived == 0
      ensures View() == old(View()).(queue := [], sending := false, recving := false, tick := 0)
      ensures var p := if old(isSending) then Step(old(poller.State()), DeregisterWrite(ep.fd), refusedWrite).0
              else old(poller.State());
              poller.State() == if old(isRecving) then Step(p, DeregisterRead(ep.fd), refusedRead).0 else p
    {
      StopSend(ep, refusedWrite);
      bundles := [];
      StopRecv(ep, refusedRead);
      bufferedReceives := [];
      lastTickBytesReceived := 0;
      lastTickBytesSent := 0;
    }

    /** Deregisters both directions, drops both queues and lets go of the endpoint.  `done` is
        false where the source, asked a second time, follows the endpoint it has given up. */
    method Destroy(refusedWrite: bool, refusedRead: bool) returns (done: bool)
      requires Valid()
      modifies this, poller, poller.epoll
      ensures Valid() && destroyed && endPoint == null && done == !old(destroyed) && condemned == old(condemned)
      ensures !old(destroyed) ==>
                && bundles == [] && bufferedReceives == [] && lastTickBytesReceived == 0 && lastTickBytesSent == 0
                && !isSending && !isRecving
      ensures var s := Runs.Next(old(Now()), if old(endPoint) == null then 0 else old(endPoint).fd,
              Runs.Destroy(refusedWrite, refusedRead), limits);
              View() == s.chan && poller.State() == s.poll
    {
      if destroyed {
        return false;
      }
      ClearState(endPoint, refusedWrite, refusedRead);
      endPoint := null;
      destroyed := true;
      done := true;
    }

    // ---------- Receiving ----------

    ghost predicate WindowValid()
      reads this, bufferedReceives
    {
      Distinct(bufferedReceives) && forall i :: 0 <= i < |bufferedReceives| ==> bufferedReceives[i].Valid()
    }

    ghost function Window(): Rcv
      reads this, bufferedReceives
    {
      Rcv(ToBytes(bufferedReceives), condemned, lastTickBytesReceived)
    }

    method OnPacketReceived(bytes: nat)
      modifies `condemned, `lastTickBytesReceived
      ensures lastTickBytesReceived == Count(old(lastTickBytesReceived), bytes)
      ensures condemned == (old(condemned) || Reaches(lastTickBytesReceived, limits.receiveBytes))
    {
      if bytes > 0 {
        lastTickBytesReceived := Wrap32(lastTickBytesReceived + bytes);
      }
      if limits.receiveBytes > 0 && lastTickBytesReceived >= limits.receiveBytes {
        condemned := true;
      }
    }

    method AddReceiveWindow(p: Packet)
      requires WindowValid() && p.Valid() && p !in bufferedReceives
      modifies `bufferedReceives, `condemned
      ensures WindowValid() && bufferedReceives == old(bufferedReceives) + [p]
      ensures Window().window == old(Window()).window + [p.Unread()]
      ensures condemned == (old(condemned) || Crowded(|bufferedReceives|, limits))
    {
      ToBytesAppend(bufferedReceives, p);
      bufferedReceives := bufferedReceives + [p];
      var size := |bufferedReceives|;
      if limits.receiveMessagesCritical > 0 && size > limits.receiveMessagesCritical {
        if limits.receiveMessages > 0 && size > limits.receiveMessages {
          condemned := true;
        }
      }
    }

    /** Accounts for a received packet and puts it in the window. */
    method TakeIn(p: Packet)
      requires WindowValid() && p.Valid() && p !in bufferedReceives
      modifies `bufferedReceives, `condemned, `lastTickBytesReceived
      ensures WindowValid() && bufferedReceives == old(bufferedReceives) + [p]
      ensures Window() == Received(old(Window()), p.Unread(), limits)
    {
      OnPacketReceived(p.Length());
      AddReceiveWindow(p);
    }

    /** Ends the tick and hands the waiting packets to the reader.  A closed channel keeps its
        window.  `messages` are the handler's views, in call order.  The handler of the message
        number `kill` destroys this channel; a fate of MidPacket is where the source then follows
        the missing endpoint. */
    method ProcessPackets(reader: Readers.PacketReader, kill: Option<nat>, refusedWrite: bool, refusedRead: bool)
      returns (messages: seq<seq<Byte>>, fate: Fate)
      requires Valid() && WindowValid() && WellFormed(reader.State())
      requires Apart(reader.currPacket, bufferedReceives, bundles)
      modifies this, poller, poller.epoll, reader, reader.currPacket, bufferedReceives
      ensures Valid()
      ensures var now := Runs.Next(old(Now()), 0, Runs.Tick, limits);
              if old(destroyed || condemned) then
                && messages == [] && fate == Spared && reader.State() == old(reader.State())
                && Window() == old(Window()).(tick := 0) && View() == now.chan && poller.State() == now.poll
              else
                && (reader.State(), messages, fate)
                  == Read(ReadWindow(old(reader.State()), old(ToBytes(bufferedReceives)), kill))
                && bufferedReceives == [] && lastTickBytesReceived == 0
                && var s := if fate == Spared then now
                            else Runs.Next(now, old(endPoint).fd, Runs.Destroy(refusedWrite, refusedRead), limits);
                   View() == s.chan && poller.State() == s.poll && (destroyed <==> fate != Spared)
    {
      messages, fate := [], Spared;
      EndTick();
      if destroyed {
        return;
      }
      if condemned {
        return;
      }
      messages, fate := ProcessWindow(reader, kill, refusedWrite, refusedRead);
    }

    method EndTick()
      requires Valid() && WindowValid()
      modifies this`lastTickBytesReceived, this`lastTickBytesSent
      ensures Valid() && WindowValid() && lastTickBytesReceived == 0
      ensures Now() == Runs.Next(old(Now()), 0, Runs.Tick, limits)
      ensures Window() == old(Window()).(tick := 0)
    {
      lastTickBytesReceived, lastTickBytesSent := 0, 0;
    }

    method ProcessWindow(reader: Readers.PacketReader, kill: Option<nat>, refusedWrite: bool, refusedRead: bool)
      returns (messages: seq<seq<Byte>>, fate: Fate)
      requires Valid() && WindowValid() && WellFormed(reader.State()) && !destroyed && !condemned
      requires Apart(reader.currPacket, bufferedReceives, bundles)
      modifies this, poller, poller.epoll, reader, reader.currPacket, bufferedReceives
      ensures Valid() && bufferedReceives == [] && (old(lastTickBytesReceived) == 0 ==> lastTickBytesReceived == 0)
      ensures var v := ReadWindow(old(reader.State()), old(ToBytes(bufferedReceives)), kill);
              (reader.State(), messages, fate) == Read(v)
      ensures fate == Spared ==>
                View() == old(View()) && poller.State() == old(poller.State()) && endPoint == old(endPoint)
      ensures fate != Spared ==>
                var s := Runs.Next(old(Now()), old(endPoint).fd, Runs.Destroy(refusedWrite, refusedRead), limits);
                destroyed && View() == s.chan && poller.State() == s.poll
    {
      messages, fate := HandOver(reader, kill);
      if fate != Spared {
        var _ := Destroy(refusedWrite, refusedRead);
      }
      bufferedReceives := [];
    }

    method HandOver(reader: Readers.PacketReader, kill: Option<nat>) returns (messages: seq<seq<Byte>>, fate: Fate)
      requires Valid() && WindowValid() && WellFormed(reader.State())
      requires Apart(reader.currPacket, bufferedReceives, bundles)
      modifies reader, reader.currPacket, bufferedReceives
      ensures Valid() && View() == old(View()) && Now() == old(Now())
      ensures var v := ReadWindow(old(reader.State()), old(ToBytes(bufferedReceives)), kill);
              (reader.State(), messages, fate) == Read(v)
    {
      assert forall i :: 0 <= i < |bundles| ==> bundles[i] !in bufferedReceives && bundles[i] != reader.currPacket;
      label before:
      messages, fate := ReadEach(reader, bufferedReceives, kill);
      assert forall i :: 0 <= i < |bundles| ==>
                           bundles[i].Sendable() && ToPkt(bundles[i]) == old@before(ToPkt(bundles[i]));
      SamePkts@before(bundles);
    }

    /** Hands the packets to the reader in turn, up to the message whose handler destroys the channel. */
    method ReadEach(reader: Readers.PacketReader, window: seq<Packet>, kill: Option<nat>)
      returns (messages: seq<seq<Byte>>, fate: Fate)
      requires Distinct(window) && (forall i :: 0 <= i < |window| ==> window[i].Valid())
      requires WellFormed(reader.State()) && reader.currPacket !in window
      modifies reader, reader.currPacket, window
      ensures WellFormed(reader.State())
      ensures (reader.State(), messages, fate) == Read(ReadWindow(old(reader.State()), old(ToBytes(window)), kill))
    {
      messages, fate := [], Spared;
      ghost var bytes := ToBytes(window);
      AllUnread(window);
      ghost var whole := ReadWindow(reader.State(), bytes, kill);
      var i, left := 0, kill;
      assert bytes[0..] == bytes && [] + whole.messages == whole.messages;
      while i < |window| && fate == Spared
        invariant i <= |window| && WellFormed(reader.State()) &&
            Unread(window, bytes, if fate == Spared then i else i + 1)
        invariant if fate == Spared then ReadsOn(whole, messages, ReadWindow(reader.State(), bytes[i..], left))
                  else Read(whole) == (reader.State(), messages, fate)
        decreases |window| - i, fate == Spared
      {
        var more;
        more, fate := ReadNext(reader, window, i, bytes, left, whole, messages);
        messages := messages + more;
        if fate == Spared {
          left := Minus(left, |more|);
          i := i + 1;
        }
      }
      ReadsOut(whole, messages, reader.State(), bytes, i, left, fate);
    }

    /** Hands one packet to the reader. */
    method ReadNext(reader: Readers.PacketReader, window: seq<Packet>, i: nat, ghost bytes: seq<seq<Byte>>,
                    left: Option<nat>,
                    ghost whole: WindowReading, ghost messages: seq<seq<Byte>>)
      returns (more: seq<seq<Byte>>, fate: Fate)
      requires i < |window| && Distinct(window) && Unread(window, bytes, i)
      requires WellFormed(reader.State()) && reader.currPacket !in window
      requires ReadsOn(whole, messages, ReadWindow(reader.State(), bytes[i..], left))
      modifies reader, reader.currPacket, window[i]
      ensures WellFormed(reader.State()) && Unread(window, bytes, i + 1)
      ensures if fate == Spared then
                ReadsOn(whole, messages + more, ReadWindow(reader.State(), bytes[i + 1..], Minus(left, |more|)))
              else Read(whole) == (reader.State(), messages + more, fate)
    {
      ghost var r := reader.State();
      assert bytes[i..] == [bytes[i]] + bytes[i + 1..];
      ReadsOneMore(whole, messages, r, bytes[i], bytes[i + 1..], left);
      var destroyed;
      more, destroyed := reader.ProcessMessages(window[i], left);
      fate := if !destroyed then Spared else if window[i].Length() == 0 then EndOfPacket else MidPacket;
    }
  }

  /** From the i-th on the packets are as they were received. */
  ghost predicate Unread(window: seq<Packet>, bytes: seq<seq<Byte>>, i: nat)
    reads window
  {
    |bytes| == |window| && forall j :: i <= j < |window| ==> window[j].Valid() && window[j].Unread() == bytes[j]
  }

  lemma AllUnread(window: seq<Packet>)
    requires forall i :: 0 <= i < |window| ==> window[i].Valid()
    ensures Unread(window, ToBytes(window), 0)
  {
    forall j | 0 <= j < |window| ensures ToBytes(window)[j] == window[j].Unread() {
      ToBytesAt(window, j);
    }
  }

  lemma {:induction false} ReadsOut(whole: WindowReading, messages: seq<seq<Byte>>, r: Reader, bytes: seq<seq<Byte>>,
                                    i: nat, left: Option<nat>, fate: Fate)
    requires i <= |bytes| && WellFormed(r) && (fate == Spared ==> i == |bytes|)
    requires if fate == Spared then ReadsOn(whole, messages, ReadWindow(r, bytes[i..], left))
             else Read(whole) == (r, messages, fate)
    ensures Read(whole) == (r, messages, fate)
  {
    assert messages + [] == messages;
  }

  /** Received packets and the reader's buffer are never queued for sending. */
  ghost predicate Apart(buffer: Packet, window: seq<Packet>, bundles: seq<Packet>) {
    buffer !in window && buffer !in bundles && forall p :: p in window ==> p !in bundles
  }

  function Read(v: WindowReading): (Reader, seq<seq<Byte>>, Fate) {
    (v.reader, v.messages, v.fate)
  }

  /** A window reading that ends as `whole` has handed over `messages` and goes on as `v`. */
  ghost predicate ReadsOn(whole: WindowReading, messages: seq<seq<Byte>>, v: WindowReading) {
    Read(whole) == (v.reader, messages + v.messages, v.fate)
  }

  lemma {:induction false} ReadsOneMore(whole: WindowReading, messages: seq<seq<Byte>>, r: Reader, x: seq<Byte>,
                                        rest: seq<seq<Byte>>, left: Option<nat>)
    requires WellFormed(r) && ReadsOn(whole, messages, ReadWindow(r, [x] + rest, left))
    ensures var d := FeedUntil(r, x, left);
            if d.destroyed then Read(whole) == (d.reader, messages + d.messages, FateOf(d))
            else ReadsOn(whole, messages + d.messages, ReadWindow(d.reader, rest, Minus(left, |d.messages|)))
  {
    var d := FeedUntil(r, x, left);
    ReadWindowUnfolds(r, x, rest, left);
    if !d.destroyed {
      var v := ReadWindow(d.reader, rest, Minus(left, |d.messages|));
      assert messages + (d.messages + v.messages) == messages + d.messages + v.messages;
    }
  }

  ghost function ToBytes(ps: seq<Packet>): (b: seq<seq<Byte>>)
    reads ps
    ensures |b| == |ps|
  {
    if ps == [] then [] else ToBytes(ps[..|ps| - 1]) + [ps[|ps| - 1].Unread()]
  }

  lemma ToBytesAppend(ps: seq<Packet>, p: Packet)
    ensures ToBytes(ps + [p]) == ToBytes(ps) + [p.Unread()]
  {
    assert (ps + [p])[..|ps|] == ps;
  }

  lemma {:induction false} ToBytesAt(ps: seq<Packet>, i: nat)
    requires i < |ps|
    ensures ToBytes(ps)[i] == ps[i].Unread()
    decreases |ps|
  {
    var front := ps[..|ps| - 1];
    if i < |front| {
      ToBytesAt(front, i);
      assert ToBytes(ps)[i] == ToBytes(front)[i];
    }
  }

  class TCPPacketReceiver {
    const channel: Channel

    constructor (channel: Channel)
      ensures this.channel == channel
    {
      this.channel := channel;
    }

    /** Receives into a new packet. */
    method NextPacket(endPoint: EndPoint, reply: RecvReply) returns (p: Packet, len: int, wouldBlock: bool)
      modifies endPoint`incoming
      ensures fresh(p) && p.Valid() && wouldBlock
              == (reply.WouldBlock? || (reply.Data? && old(endPoint.incoming) == []))
      ensures len == if wouldBlock || reply.Failed? then -1 else if reply.Closed? then 0
                     else Delivered(reply.n, PacketMaxSizeTcp, old(endPoint.incoming))
      ensures if len > 0 then
                p.Unread() == old(endPoint.incoming)[..len] && endPoint.incoming == old(endPoint.incoming)[len..]
              else endPoint.incoming == old(endPoint.incoming)
    {
      p := new Packet(PacketMaxSizeTcp);
      len, wouldBlock := endPoint.Recv(p, reply);
      assert len > 0 ==> [] + old(endPoint.incoming)[..len] == old(endPoint.incoming)[..len];
    }

    /** Moves one chunk from the socket into the receive window; false when that was the last. */
    method ProcessRecv(endPoint: EndPoint, replies: seq<RecvReply>) returns (more: bool)
      requires channel.WindowValid() && channel.endPoint == endPoint
      modifies channel`condemned, channel`lastTickBytesReceived, channel`bufferedReceives, endPoint`incoming
      ensures channel.WindowValid()
      ensures forall p :: p in channel.bufferedReceives ==> p in old(channel.bufferedReceives) || fresh(p)
      ensures more ==> |endPoint.incoming| < |old(endPoint.incoming)| && replies != []
      ensures var (r, rest, stop) := Drain(old(channel.Window()), old(endPoint.incoming), replies, channel.limits);
              if more then Drain(channel.Window(), endPoint.incoming, replies[1..], channel.limits) == (r, rest, stop)
              else channel.Window() == r && endPoint.incoming == rest
    {
      if channel.condemned {
        return false;
      }
      var p, len, wouldBlock := NextPacket(endPoint, if replies == [] then WouldBlock else replies[0]);
      if len < 0 {
        if !wouldBlock {
          channel.condemned := true;
        }
        return false;
      } else if len == 0 {
        channel.condemned := true;
        return false;
      }
      channel.TakeIn(p);
      more := true;
    }

    /** Drains the socket until nothing is left, the call fails or the channel is condemned. */
    method HandleInputNotification(endPoint: EndPoint, replies: seq<RecvReply>)
      requires channel.WindowValid() && channel.endPoint == endPoint
      modifies channel`condemned, channel`lastTickBytesReceived, channel`bufferedReceives, endPoint`incoming
      ensures channel.WindowValid()
      ensures forall p :: p in channel.bufferedReceives ==> p in old(channel.bufferedReceives) || fresh(p)
      ensures var (r, rest, _) := Drain(old(channel.Window()), old(endPoint.incoming), replies, channel.limits);
              channel.Window() == r && endPoint.incoming == rest
    {
      var left := replies;
      var more := true;
      while more
        invariant channel.WindowValid()
        invariant forall p :: p in channel.bufferedReceives ==> p in old(channel.bufferedReceives) || fresh(p)
        invariant var (r, rest, _) := Drain(old(channel.Window()), old(endPoint.incoming), replies, channel.limits);
                  if more then
                    var (r', rest', _) := Drain(channel.Window(), endPoint.incoming, left, channel.limits);
                    (r', rest') == (r, rest)
                  else channel.Window() == r && endPoint.incoming == rest
        decreases more, |endPoint.incoming|
      {
        more := ProcessRecv(endPoint, left);
        if more {
          left := left[1..];
        }
      }
    }
  }

  lemma ToPktsAppend(ps: seq<Packet>, p: Packet)
    requires AllSendable(ps) && p.Sendable()
    ensures AllSendable(ps + [p]) && ToPkts(ps + [p]) == ToPkts(ps) + [ToPkt(p)]
  {
    if ps == [] {
      assert (ps + [p])[1..] == [];
    } else {
      ToPktsAppend(ps[1..], p);
      assert (ps + [p])[1..] == ps[1..] + [p];
    }
  }
}
