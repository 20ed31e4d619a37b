/** Sending: what one attempt to flush a channel's packet queue does, as a function of the
    kernel's replies. */
module SendQueue {
  import opened Bytes

  /** The overflow limits a channel works under; zero switches a limit off. */
  datatype Limits = Limits(
    sendMessagesCritical: nat, sendMessages: nat, sendBytes: nat,
    receiveMessagesCritical: nat, receiveMessages: nat, receiveBytes: nat)

  const DefaultLimits := Limits(32, 65535, 65535, 32, 65535, 256)

  /** Counters that the source keeps in 32 bits. */
  function Wrap32(n: nat): nat { n % 0x1_0000_0000 }

  predicate Exceeds(n: nat, limit: nat) { limit > 0 && n > limit }
  predicate Reaches(n: nat, limit: nat) { limit > 0 && n >= limit }

  datatype Errno = ConnRefused | Again | Pipe | ConnReset | NoBufs | Other

  datatype Reason =
    | Success | NoSuchPort | GeneralNetwork | ResourceUnavailable
    | ClientDisconnected | TransmitQueueFull | ChannelCondemned

  function FromErrno(e: Errno): Reason {
    match e
    case ConnRefused => NoSuchPort
    case Again => ResourceUnavailable
    case Pipe => ClientDisconnected
    case ConnReset => ClientDisconnected
    case NoBufs => TransmitQueueFull
    case Other => GeneralNetwork
  }

  /** One packet of the queue: its valid bytes and how many of them were sent. */
  datatype Pkt = Pkt(payload: seq<Byte>, sent: nat)
  {
    function Left(): seq<Byte> {
      if sent <= |payload| then payload[sent..] else []
    }
  }

  /** The kernel's reply to one send: negative for failure, otherwise how much it is willing to
      take, of which it takes no more than it was offered.  `errno` is whatever is there. */
  datatype SendReply = SendReply(len: int, errno: Errno)

  function Reply(replies: seq<SendReply>): SendReply {
    if replies == [] then SendReply(-1, Again) else replies[0]
  }

  function Accepted(p: Pkt, reply: SendReply): (len: int)
    ensures -1 <= len <= |p.Left()|
  {
    if reply.len < 0 then -1 else if reply.len > |p.Left()| then |p.Left()| else reply.len
  }

  function Advance(p: Pkt, len: int): Pkt {
    if len > 0 then p.(sent := p.sent + len) else p
  }

  /** The byte counter of the current tick. */
  function Count(tick: nat, len: int): nat {
    if len > 0 then Wrap32(tick + len) else tick
  }

  function Verdict(p: Pkt, len: int, errno: Errno): Reason {
    if p.sent == |p.payload| then Success
    else if len > 0 then ResourceUnavailable
    else FromErrno(errno)
  }

  /** How a flush ended: why, what stays queued, the channel's flags, and the bytes written. */
  datatype Flushed = Flushed(reason: Reason, queue: seq<Pkt>, condemned: bool, tick: nat, wire: seq<Byte>)

  /** Sends packet after packet until one is not finished.  The byte limit may condemn the
      channel on the way, which stops the flush at the next packet. */
  function Flush(q: seq<Pkt>, condemned: bool, tick: nat, replies: seq<SendReply>, lim: Limits): Flushed
    decreases |q|
  {
    if q == [] then Flushed(Success, [], condemned, tick, [])
    else if condemned then Flushed(ChannelCondemned, q, condemned, tick, [])
    else
      var len := Accepted(q[0], Reply(replies));
      var p := Advance(q[0], len);
      var out := if len > 0 then q[0].Left()[..len] else [];
      var tick' := Count(tick, len);
      var cond := Reaches(tick', lim.sendBytes);
      var reason := Verdict(p, len, Reply(replies).errno);
      if reason == Success then
        var rest := Flush(q[1..], cond, tick', if replies == [] then [] else replies[1..], lim);
        rest.(wire := out + rest.wire)
      else
        Flushed(reason, [p] + q[1..], cond, tick', out)
  }

  /** A flush goes on as `f` with `out` written already. */
  ghost predicate Continues(whole: Flushed, before: seq<Byte>, f: Flushed, out: seq<Byte>) {
    f.(wire := []) == whole.(wire := []) && out + f.wire == before + whole.wire
  }

  lemma ContinuesOn(whole: Flushed, before: seq<Byte>, f: Flushed, mid: seq<Byte>, g: Flushed, out: seq<Byte>)
    requires Continues(whole, before, f, mid) && Continues(f, mid, g, out)
    ensures Continues(whole, before, g, out)
  {
  }

  /** A packet, the channel's flags and the wire before or after one doSend. */
  datatype Sending = Sending(p: Pkt, condemned: bool, tick: nat, wire: seq<Byte>)

  /** What one doSend does: nothing on a condemned channel, otherwise one write, its
      accounting, and the verdict. */
  ghost predicate Sends(a: Sending, reply: SendReply, lim: Limits, reason: Reason, b: Sending) {
    if a.condemned then reason == ChannelCondemned && b == a
    else
      var len := Accepted(a.p, reply);
      && b.p == Advance(a.p, len)
      && b.tick == Count(a.tick, len)
      && b.condemned == Reaches(b.tick, lim.sendBytes)
      && reason == Verdict(b.p, len, reply.errno)
      && b.wire == a.wire + if len > 0 then a.p.Left()[..len] else []
  }

  /** One packet of a flush: it ends there, or goes on with the other packets. */
  lemma FlushOne(a: Sending, tail: seq<Pkt>, replies: seq<SendReply>, lim: Limits, reason: Reason, b: Sending)
    requires Sends(a, Reply(replies), lim, reason, b)
    ensures var f := Flush([a.p] + tail, a.condemned, a.tick, replies, lim);
            if reason == Success then
              Continues(f, a.wire, Flush(tail, b.condemned, b.tick, if replies == [] then [] else replies[1..], lim),
                b.wire)
            else
              f == Flushed(reason, [b.p] + tail, b.condemned, b.tick, f.wire) && b.wire == a.wire + f.wire
  {
    var q := [a.p] + tail;
    assert q[0] == a.p && q[1..] == tail;
    if !a.condemned {
      var len := Accepted(a.p, Reply(replies));
      var g := Flush(tail, b.condemned, b.tick, if replies == [] then [] else replies[1..], lim);
      Assoc(a.wire, if len > 0 then a.p.Left()[..len] else [], g.wire);
    }
  }

  // ---------- Properties of one flush ----------

  /** The bytes a queue has still to send. */
  function Unsent(q: seq<Pkt>): seq<Byte> {
    if q == [] then [] else q[0].Left() + Unsent(q[1..])
  }

  /** Only the head may be partly sent, and nothing is sent beyond its end. */
  ghost predicate Shape(q: seq<Pkt>) {
    && (q != [] ==> q[0].sent <= |q[0].payload|)
    && forall i :: 1 <= i < |q| ==> q[i].sent == 0
  }

  lemma {:induction false} UnsentAppend(q: seq<Pkt>, p: Pkt)
    ensures Unsent(q + [p]) == Unsent(q) + p.Left()
    decreases |q|
  {
    if q == [] {
      assert (q + [p])[1..] == [];
    } else {
      UnsentAppend(q[1..], p);
      assert (q + [p])[1..] == q[1..] + [p];
    }
  }

  /** No byte is lost, repeated or reordered by a flush, however it ends. */
  lemma {:induction false} FlushConserves(q: seq<Pkt>, condemned: bool, tick: nat, replies: seq<SendReply>, lim: Limits)
    requires Shape(q)
    ensures var f := Flush(q, condemned, tick, replies, lim);
            f.wire + Unsent(f.queue) == Unsent(q)
    decreases |q|
  {
    if q != [] && !condemned {
      var head, tail, len := q[0], q[1..], Accepted(q[0], Reply(replies));
      var out := if len > 0 then head.Left()[..len] else [];
      var b := Sending(Advance(head, len), Reaches(Count(tick, len), lim.sendBytes), Count(tick, len), [] + out);
      var reason := Verdict(b.p, len, Reply(replies).errno);
      FlushOne(Sending(head, false, tick, []), tail, replies, lim, reason, b);
      assert [head] + tail == q;
      HeadSplits(head, len);
      if b.p.sent == |b.p.payload| {
        var more := if replies == [] then [] else replies[1..];
        var g := Flush(tail, b.condemned, b.tick, more, lim);
        FlushConserves(tail, b.condemned, b.tick, more, lim);
        WholeHead(out, g.wire, Unsent(g.queue), Unsent(tail));
      } else {
        HeadUnsent(b.p, tail);
        Assoc(out, b.p.Left(), Unsent(tail));
      }
    }
  }

  /** The head's bytes are what was written and what it has left. */
  lemma HeadSplits(p: Pkt, len: int)
    requires p.sent <= |p.payload| && -1 <= len <= |p.Left()|
    ensures (if len > 0 then p.Left()[..len] else []) + Advance(p, len).Left() == p.Left()
    ensures Advance(p, len).sent == |p.payload| ==> p.Left() == if len > 0 then p.Left()[..len] else []
  {
  }

  lemma WholeHead(head: seq<Byte>, wire: seq<Byte>, left: seq<Byte>, tail: seq<Byte>)
    requires wire + left == tail
    ensures head + wire + left == head + tail
  {
    Assoc(head, wire, left);
  }

  lemma HeadUnsent(p: Pkt, tail: seq<Pkt>)
    ensures Unsent([p] + tail) == p.Left() + Unsent(tail)
  {
    assert ([p] + tail)[1..] == tail;
  }

  /** How a flush ends, for every pattern of replies. */
  lemma {:induction false} FlushEnds(q: seq<Pkt>, condemned: bool, tick: nat, replies: seq<SendReply>, lim: Limits)
    requires Shape(q)
    ensures var f := Flush(q, condemned, tick, replies, lim);
            && Shape(f.queue)
            && (f.reason == Success <==> f.queue == [])
            && (f.reason != Success && f.reason != ChannelCondemned ==> f.queue[0].sent < |f.queue[0].payload|)
            && (f.reason == ChannelCondemned ==> f.condemned)
            && (condemned ==> f.condemned && f.wire == [])
            && |f.queue| <= |q|
    decreases |q|
  {
    if q != [] && !condemned {
      var len := Accepted(q[0], Reply(replies));
      var p := Advance(q[0], len);
      if p.sent == |p.payload| {
        FlushEnds(q[1..], Reaches(Count(tick, len), lim.sendBytes), Count(tick, len), if replies == [] then []
          else replies[1..], lim);
      }
    }
  }

  /** What a queue takes from a payload is its bytes from position 0; they are the unread bytes
      of the packet buffer, for all contents, only when nothing was read from it before. */
  lemma PayloadIsUnreadIff(rpos: nat, wpos: nat)
    ensures (forall data: seq<Byte> :: |data| == wpos && rpos <= wpos ==> data[..wpos - rpos] == data[rpos..wpos])
            <==> rpos == 0 || rpos >= wpos
  {
    if 0 < rpos < wpos {
      var data: seq<Byte> := seq(wpos, i => if i < rpos then 0 else 1);
      assert data[..wpos - rpos][0] != data[rpos..wpos][0];
    }
  }
}
