/** Receiving: draining the socket into the receive window, as a function of the kernel's
    replies and the bytes in flight. */
module ReceiveWindow {
  import opened Arithmetic
  import opened Bytes
  import opened SendQueue

  const PacketMaxSizeTcp := 1460

  /** The kernel's reply to one recv: it is willing to deliver so many bytes (at least one, of
      which it delivers what there is and what fits), it has none, the call failed, or the peer
      closed. */
  datatype RecvReply = Data(n: nat) | WouldBlock | Failed | Closed

  datatype Stop = Drained | Error | Hangup | WasCondemned

  datatype Rcv = Rcv(window: seq<seq<Byte>>, condemned: bool, tick: nat)

  /** How much of `avail` bytes one call delivers into `room`. */
  function Size(n: nat, room: nat, avail: nat): (k: nat)
    requires avail > 0 && room > 0
    ensures 1 <= k <= room && k <= avail
  {
    var want := if n == 0 then 1 else n;
    var fits := if want > room then room else want;
    if fits > avail then avail else fits
  }

  function Delivered(n: nat, room: nat, inflight: seq<Byte>): (k: nat)
    requires inflight != [] && room > 0
    ensures 1 <= k <= room && k <= |inflight|
  {
    Size(n, room, |inflight|)
  }

  predicate Crowded(n: nat, lim: Limits) {
    Exceeds(n, lim.receiveMessagesCritical) && Exceeds(n, lim.receiveMessages)
  }

  /** Accounting for one received packet; either limit may condemn the channel. */
  function Received(r: Rcv, packet: seq<Byte>, lim: Limits): Rcv {
    var tick := Count(r.tick, |packet|);
    var window := r.window + [packet];
    Rcv(window,
        r.condemned || Reaches(tick, lim.receiveBytes) || Crowded(|window|, lim),
        tick)
  }

  /** The drain loop. */
  function Drain(r: Rcv, inflight: seq<Byte>, replies: seq<RecvReply>, lim: Limits): (Rcv, seq<Byte>, Stop)
    decreases |inflight|
  {
    if r.condemned then (r, inflight, WasCondemned)
    else
      var reply := if replies == [] then WouldBlock else replies[0];
      match reply
      case Failed => (r.(condemned := true), inflight, Error)
      case Closed => (r.(condemned := true), inflight, Hangup)
      case WouldBlock => (r, inflight, Drained)
      case Data(n) =>
        if inflight == [] then (r, inflight, Drained)
        else
          var k := Delivered(n, PacketMaxSizeTcp, inflight);
          Drain(Received(r, inflight[..k], lim), inflight[k..], replies[1..], lim)
  }

  ghost predicate PacketSized(parts: seq<seq<Byte>>) {
    forall j :: 0 <= j < |parts| ==> 1 <= |parts[j]| <= PacketMaxSizeTcp
  }

  lemma DrainGlue(window: seq<seq<Byte>>, head: seq<Byte>, more: seq<seq<Byte>>, rest: seq<Byte>, tail: seq<Byte>)
    requires 1 <= |head| <= PacketMaxSizeTcp && PacketSized(more) && Concat(more) + rest == tail
    ensures Concat([head] + more) + rest == head + tail
    ensures window + [head] + more == window + ([head] + more)
    ensures PacketSized([head] + more)
  {
    ConcatJoin([head], more);
    ConcatAppend([], head);
    assert [] + [head] == [head];
    Assoc(head, Concat(more), rest);
  }

  lemma DrainUnfolds(r: Rcv, inflight: seq<Byte>, replies: seq<RecvReply>, lim: Limits)
    requires !r.condemned && replies != [] && replies[0].Data? && inflight != []
    ensures var k := Delivered(replies[0].n, PacketMaxSizeTcp, inflight);
            Drain(r, inflight, replies, lim) == Drain(Received(r, inflight[..k], lim), inflight[k..], replies[1..], lim)
  {
  }

  /** A drain appends packets of 1 to 1460 bytes that are exactly the bytes it took from the
      pipe, in order, and leaves the earlier window alone. */
  lemma {:induction false} DrainConserves(r: Rcv, inflight: seq<Byte>, replies: seq<RecvReply>, lim: Limits)
    returns (parts: seq<seq<Byte>>)
    ensures var (r', rest, stop) := Drain(r, inflight, replies, lim);
            && r'.window == r.window + parts
            && PacketSized(parts)
            && Concat(parts) + rest == inflight
    decreases |inflight|
  {
    parts := [];
    if !r.condemned && replies != [] && replies[0].Data? && inflight != [] {
      DrainUnfolds(r, inflight, replies, lim);
      var k := Delivered(replies[0].n, PacketMaxSizeTcp, inflight);
      var head, tail := inflight[..k], inflight[k..];
      var r1 := Received(r, head, lim);
      var more := DrainConserves(r1, tail, replies[1..], lim);
      DrainGlue(r.window, head, more, Drain(r1, tail, replies[1..], lim).1, tail);
      assert inflight == head + tail;
      parts := [head] + more;
    } else {
      assert r.window + [] == r.window && [] + inflight == inflight;
    }
  }

  /** The channel is uncondemned afterwards exactly when the drain ended because there was
      nothing more to read, and then no limit has been reached. */
  lemma {:induction false} DrainCondemns(r: Rcv, inflight: seq<Byte>, replies: seq<RecvReply>, lim: Limits)
    ensures var (r', rest, stop) := Drain(r, inflight, replies, lim);
            && (!r'.condemned <==> stop == Drained)
            && (r.condemned ==> r' == r && rest == inflight)
            && (stop == Drained && r' != r ==> !Reaches(r'.tick, lim.receiveBytes))
    decreases |inflight|
  {
    if !r.condemned && replies != [] && replies[0].Data? && inflight != [] {
      var k := Delivered(replies[0].n, PacketMaxSizeTcp, inflight);
      DrainCondemns(Received(r, inflight[..k], lim), inflight[k..], replies[1..], lim);
    }
  }

  // ---------- Surviving a drain ----------

  /** The sizes of the packets a drain would take from `avail` bytes if nothing condemned the
      channel on the way. */
  function Chunks(avail: nat, replies: seq<RecvReply>): seq<nat>
    decreases avail
  {
    if avail == 0 || replies == [] || !replies[0].Data? then []
    else
      var k := Size(replies[0].n, PacketMaxSizeTcp, avail);
      [k] + Chunks(avail - k, replies[1..])
  }

  /** Nothing is left to read after those packets: the call neither fails nor finds the peer gone. */
  predicate EndsQuietly(avail: nat, replies: seq<RecvReply>)
    decreases avail
  {
    if replies == [] then true
    else
      match replies[0]
      case Failed => false
      case Closed => false
      case WouldBlock => true
      case Data(n) => avail == 0 || EndsQuietly(avail - Size(n, PacketMaxSizeTcp, avail), replies[1..])
  }

  function Sum(sizes: seq<nat>): nat {
    if sizes == [] then 0 else sizes[0] + Sum(sizes[1..])
  }

  /** Packet by packet, neither the bytes of the tick, counted on 32 bits, nor the number of
      waiting packets reaches its limit. */
  predicate StaysWithin(tick: nat, waiting: nat, sizes: seq<nat>, lim: Limits)
    decreases |sizes|
  {
    sizes != [] ==>
      && !Reaches(Wrap32(tick + sizes[0]), lim.receiveBytes)
      && !Crowded(waiting + 1, lim)
      && StaysWithin(Wrap32(tick + sizes[0]), waiting + 1, sizes[1..], lim)
  }

  /** A call delivers the least of what the kernel is willing to deliver, the room and what is there. */
  lemma {:induction false} SizeIsLeast(n: nat, room: nat, avail: nat)
    requires avail > 0 && room > 0
    ensures var k := Size(n, room, avail);
            && (k == room || k == avail || k == n || (n == 0 && k == 1))
            && k <= room && k <= avail && (k <= n || n == 0)
  {
  }

  /** One call takes up to 1460 bytes. */
  lemma {:induction false} FullPackets(avail: nat, n: nat, replies: seq<RecvReply>)
    requires avail >= 1460 && n >= 1460
    ensures Chunks(avail, [Data(n)] + replies) == [1460] + Chunks(avail - 1460, replies)
  {
    assert ([Data(n)] + replies)[1..] == replies;
  }

  /** A drain that leaves the channel uncondemned has taken everything, if everything was ready. */
  lemma {:induction false} DrainsAll(r: Rcv, inflight: seq<Byte>, replies: seq<RecvReply>, lim: Limits)
    requires AllReady(|inflight|, replies) && !Drain(r, inflight, replies, lim).0.condemned
    ensures Drain(r, inflight, replies, lim).1 == []
    decreases |inflight|
  {
    if !r.condemned && inflight != [] {
      var k := Delivered(replies[0].n, PacketMaxSizeTcp, inflight);
      DrainUnfolds(r, inflight, replies, lim);
      DrainsAll(Received(r, inflight[..k], lim), inflight[k..], replies[1..], lim);
    }
  }

  /** How many of the packets on offer a drain takes: up to the first that is over a limit, with it. */
  function TakenCount(tick: nat, waiting: nat, sizes: seq<nat>, lim: Limits): (m: nat)
    ensures m <= |sizes|
    decreases |sizes|
  {
    if sizes == [] then 0
    else
      var tick' := (tick + sizes[0]) % 0x1_0000_0000;
      if 0 < lim.receiveBytes <= tick' ||
         (0 < lim.receiveMessagesCritical < waiting + 1 && 0 < lim.receiveMessages < waiting + 1) then 1
      else 1 + TakenCount(tick', waiting + 1, sizes[1..], lim)
  }

  ghost predicate Sized(parts: seq<seq<Byte>>, sizes: seq<nat>) {
    |parts| == |sizes| && forall j :: 0 <= j < |parts| ==> |parts[j]| == sizes[j] <= 1460
  }

  /** A drain from `r` to `r'` that has taken these parts of what was in flight, of these sizes. */
  ghost predicate Drains(r: Rcv, r': Rcv, inflight: seq<Byte>, rest: seq<Byte>, parts: seq<seq<Byte>>,
                         sizes: seq<nat>) {
    && r'.window == r.window + parts && Concat(parts) + rest == inflight && Sized(parts, sizes)
    && r'.tick == if parts == [] then r.tick else (r.tick + |Concat(parts)|) % 0x1_0000_0000
  }

  lemma {:induction false} DrainsNothing(r: Rcv, inflight: seq<Byte>)
    ensures Drains(r, r, inflight, inflight, [], [])
  {
    assert r.window + [] == r.window && [] + inflight == inflight;
  }

  lemma {:induction false} DrainsFirst(r: Rcv, head: seq<Byte>, r1: Rcv, r': Rcv, tail: seq<Byte>, rest: seq<Byte>,
                                       more: seq<seq<Byte>>, sizes: seq<nat>, lim: Limits)
    requires 1 <= |head| <= 1460 && r1 == Received(r, head, lim) && Drains(r1, r', tail, rest, more, sizes)
    ensures Drains(r, r', head + tail, rest, [head] + more, [|head|] + sizes)
  {
    SumMod(r.tick, |head|, |Concat(more)|);
    ExactGlue(r.window, head, more, rest, tail);
  }

  /** A drain of an uncondemned channel takes exactly those packets, each of the size on offer, and
      counts them. */
  lemma {:induction false} DrainExact(r: Rcv, inflight: seq<Byte>, replies: seq<RecvReply>, lim: Limits)
    returns (parts: seq<seq<Byte>>)
    requires !r.condemned
    ensures var (r', rest, _) := Drain(r, inflight, replies, lim);
            var sizes := Chunks(|inflight|, replies);
            Drains(r, r', inflight, rest, parts, sizes[..TakenCount(r.tick, |r.window|, sizes, lim)])
    decreases |inflight|, 0
  {
    var sizes := Chunks(|inflight|, replies);
    if replies != [] && replies[0].Data? && inflight != [] {
      var k := Delivered(replies[0].n, PacketMaxSizeTcp, inflight);
      var head, tail := inflight[..k], inflight[k..];
      var r1 := Received(r, head, lim);
      DrainUnfolds(r, inflight, replies, lim);
      assert sizes == [k] + Chunks(|tail|, replies[1..]);
      parts := DrainBehind(r1, tail, replies[1..], lim);
      TakenStep(r, head, sizes, lim);
      var (r', rest, _) := Drain(r1, tail, replies[1..], lim);
      DrainsFirst(r, head, r1, r', tail, rest, parts, CountsBehind(r1, sizes[1..], lim), lim);
      parts := [head] + parts;
      assert inflight == head + tail;
    } else {
      parts := [];
      DrainsNothing(r, inflight);
      assert sizes[..0] == [];
    }
  }

  lemma {:induction false} DrainBehind(r1: Rcv, tail: seq<Byte>, replies: seq<RecvReply>, lim: Limits)
    returns (more: seq<seq<Byte>>)
    ensures var (r', rest, _) := Drain(r1, tail, replies, lim);
            Drains(r1, r', tail, rest, more, CountsBehind(r1, Chunks(|tail|, replies), lim))
    decreases |tail|, 1
  {
    if r1.condemned {
      more := [];
      DrainsNothing(r1, tail);
    } else {
      more := DrainExact(r1, tail, replies, lim);
    }
  }

  lemma {:induction false} ExactGlue(window: seq<seq<Byte>>, head: seq<Byte>, more: seq<seq<Byte>>, rest: seq<Byte>,
                                     tail: seq<Byte>)
    requires Concat(more) + rest == tail
    ensures Concat([head] + more) == head + Concat(more)
    ensures Concat([head] + more) + rest == head + tail
    ensures window + [head] + more == window + ([head] + more)
  {
    ConcatJoin([head], more);
    ConcatAppend([], head);
    assert [] + [head] == [head];
    Assoc(head, Concat(more), rest);
  }

  /** The counts of the packets taken, after the first one. */
  function CountsBehind(r1: Rcv, sizes: seq<nat>, lim: Limits): seq<nat> {
    if r1.condemned then [] else sizes[..TakenCount(r1.tick, |r1.window|, sizes, lim)]
  }

  lemma {:induction false} TakenStep(r: Rcv, head: seq<Byte>, sizes: seq<nat>, lim: Limits)
    requires !r.condemned && sizes != [] && |head| == sizes[0] > 0
    ensures sizes[..TakenCount(r.tick, |r.window|, sizes, lim)]
            == [sizes[0]] + CountsBehind(Received(r, head, lim), sizes[1..], lim)
  {
    var r1 := Received(r, head, lim);
    if r1.condemned {
      assert sizes[..1] == [sizes[0]] + [];
    } else {
      TakenFirst(r.tick, |r.window|, sizes, lim);
    }
  }

  lemma {:induction false} TakenFirst(tick: nat, waiting: nat, sizes: seq<nat>, lim: Limits)
    requires sizes != [] && !Reaches(Wrap32(tick + sizes[0]), lim.receiveBytes) && !Crowded(waiting + 1, lim)
    ensures var m := TakenCount(Wrap32(tick + sizes[0]), waiting + 1, sizes[1..], lim);
            && TakenCount(tick, waiting, sizes, lim) == m + 1
            && sizes[..m + 1] == [sizes[0]] + sizes[1..][..m]
  {
  }

  /** For all replies and all limits, the channel survives a drain exactly when it was uncondemned,
      the packets on offer stay within the limits, and the socket ends quietly. */
  lemma {:induction false} SurvivesIff(r: Rcv, inflight: seq<Byte>, replies: seq<RecvReply>, lim: Limits)
    ensures !Drain(r, inflight, replies, lim).0.condemned <==>
              && !r.condemned
              && StaysWithin(r.tick, |r.window|, Chunks(|inflight|, replies), lim)
              && EndsQuietly(|inflight|, replies)
    decreases |inflight|
  {
    if !r.condemned && replies != [] && replies[0].Data? && inflight != [] {
      DrainUnfolds(r, inflight, replies, lim);
      var k := Delivered(replies[0].n, PacketMaxSizeTcp, inflight);
      var sizes := Chunks(|inflight|, replies);
      assert sizes[0] == k && sizes[1..] == Chunks(|inflight| - k, replies[1..]);
      SurvivesIff(Received(r, inflight[..k], lim), inflight[k..], replies[1..], lim);
    }
  }

  /** The kernel has everything in flight ready, in pieces of any size. */
  predicate AllReady(avail: nat, replies: seq<RecvReply>) {
    |replies| >= avail && forall j :: 0 <= j < |replies| ==> replies[j].Data?
  }

  lemma {:induction false} ChunksOfAll(avail: nat, replies: seq<RecvReply>)
    requires AllReady(avail, replies)
    ensures Sum(Chunks(avail, replies)) == avail
    ensures EndsQuietly(avail, replies)
    decreases avail
  {
    if avail > 0 {
      var k := Size(replies[0].n, PacketMaxSizeTcp, avail);
      ChunksOfAll(avail - k, replies[1..]);
      assert Chunks(avail, replies)[1..] == Chunks(avail - k, replies[1..]);
    }
  }

  lemma {:induction false} ChunksFit(avail: nat, replies: seq<RecvReply>)
    ensures forall j :: 0 <= j < |Chunks(avail, replies)| ==> Chunks(avail, replies)[j] <= PacketMaxSizeTcp
    decreases avail
  {
    if avail > 0 && replies != [] && replies[0].Data? {
      var k := Size(replies[0].n, PacketMaxSizeTcp, avail);
      ChunksFit(avail - k, replies[1..]);
    }
  }

  /** A byte limit that is reached before the count wraps can be checked on the total. */
  lemma {:induction false} WithinTotal(tick: nat, waiting: nat, sizes: seq<nat>, lim: Limits)
    requires tick < lim.receiveBytes <= 0x1_0000_0000 - PacketMaxSizeTcp
    requires forall j :: 0 <= j < |sizes| ==> sizes[j] <= PacketMaxSizeTcp
    ensures StaysWithin(tick, waiting, sizes, lim)
            <==> tick + Sum(sizes) < lim.receiveBytes && (sizes != [] ==> !Crowded(waiting + |sizes|, lim))
    decreases |sizes|
  {
    if sizes != [] && tick + sizes[0] < lim.receiveBytes {
      WithinTotal(tick + sizes[0], waiting + 1, sizes[1..], lim);
    }
  }

  /** Under the default limits 256 bytes in one tick are fatal: with everything ready, a channel
      survives exactly when the tick's bytes and those in flight are fewer, and the window stays
      small.  A single full-sized packet always condemns it. */
  lemma DefaultSurvivesIff(r: Rcv, inflight: seq<Byte>, replies: seq<RecvReply>)
    requires !r.condemned && r.tick < 256 && AllReady(|inflight|, replies)
    ensures !Drain(r, inflight, replies, DefaultLimits).0.condemned <==>
              && r.tick + |inflight| < 256
              && (inflight != [] ==> |r.window| + |Chunks(|inflight|, replies)| <= 65535)
  {
    var sizes := Chunks(|inflight|, replies);
    SurvivesIff(r, inflight, replies, DefaultLimits);
    ChunksOfAll(|inflight|, replies);
    ChunksFit(|inflight|, replies);
    WithinTotal(r.tick, |r.window|, sizes, DefaultLimits);
  }
}
