/** One direction of a TCP connection, end to end: the sending channel, the bytes in flight,
    the receiving channel's window and its packet reader.
    The link delivers bytes in order without loss, the service of section 2.2 of RFC 9293. */
module Connection {
  import opened Wrappers
  import opened Bytes
  import opened SendQueue
  import opened ReceiveWindow
  import opened Framing
  import opened Reassembly
  import opened Interruption
  import Sender = SenderRuns

  /** `fed` lists the packets the reader has consumed, the last one perhaps in part, and `delivered`
      what it handed over.  `stopped` is where the receiving program follows a missing endpoint. */
  datatype World = World(
    sender: Sender.Sys, inflight: seq<Byte>,
    receiver: Rcv, receiverGone: bool, stopped: bool,
    fed: seq<seq<Byte>>, reader: Reader, delivered: seq<seq<Byte>>,
    dropped: seq<Byte>)

  datatype Step =
    | SenderDoes(action: Sender.Action)
    | Readable(replies: seq<RecvReply>)
    | ProcessPackets(kill: Option<nat>)
    | CondemnReceiver
    | DestroyReceiver

  function Next(w: World, fd: int, step: Step, lim: Limits): World
    requires WellFormed(w.reader)
  {
    match step
    case SenderDoes(action) =>
      var s := Sender.Next(w.sender, fd, action, lim);
      var out := if |w.sender.wire| <= |s.wire| then s.wire[|w.sender.wire|..] else [];
      w.(sender := s, inflight := w.inflight + out)
    case Readable(replies) =>
      if w.receiverGone then w
      else
        var (r, rest, _) := Drain(w.receiver, w.inflight, replies, lim);
        w.(receiver := r, inflight := rest)
    case ProcessPackets(kill) =>
      // The handler of the message number `kill` destroys the receiving channel.
      var r := w.receiver.(tick := 0);
      if w.receiverGone || r.condemned then w.(receiver := r)
      else
        var v := ReadWindow(w.reader, r.window, kill);
        w.(receiver := r.(window := []), receiverGone := v.fate != Spared, stopped := v.fate == MidPacket,
           fed := w.fed + v.fed, reader := v.reader, delivered := w.delivered + v.messages,
           dropped := w.dropped + v.left)
    case CondemnReceiver => w.(receiver := w.receiver.(condemned := true))
    case DestroyReceiver =>
      w.(receiver := w.receiver.(window := [], tick := 0), receiverGone := true,
         dropped := w.dropped + Concat(w.receiver.window))
  }

  function Run(w: World, fd: int, steps: seq<Step>, lim: Limits): (w': World)
    requires WellFormed(w.reader)
    ensures WellFormed(w'.reader)
    decreases |steps|
  {
    if steps == [] then w else Run(Next(w, fd, steps[0], lim), fd, steps[1..], lim)
  }

  predicate Legal(steps: seq<Step>, fd: int) {
    forall k :: 0 <= k < |steps| && steps[k].SenderDoes? ==> Sender.Legal(steps[k].action, fd)
  }

  ghost predicate Initial(w: World, fd: int) {
    && Sender.Initial(w.sender, fd)
    && w.inflight == [] && w.receiver == Rcv([], false, 0) && !w.receiverGone && !w.stopped
    && w.fed == [] && w.reader == Fresh && w.delivered == [] && w.dropped == []
  }

  ghost predicate Balanced(fed: seq<seq<Byte>>, dropped: seq<Byte>, window: seq<seq<Byte>>, inflight: seq<Byte>,
                           wire: seq<Byte>) {
    Concat(fed) + dropped + Concat(window) + inflight == wire
  }

  ghost predicate Inv(w: World, fd: int) {
    && Sender.Inv(w.sender, fd)
    && Balanced(w.fed, w.dropped, w.receiver.window, w.inflight, w.sender.wire)
    && (w.dropped != [] || w.stopped ==> w.receiverGone)
    && (w.receiverGone ==> w.receiver.window == [])
    && PacketSized(w.fed) && PacketSized(w.receiver.window)
    && (w.reader, w.delivered) == FeedAll(w.fed)
  }

  lemma BalancedWrite(fed: seq<seq<Byte>>, dropped: seq<Byte>, window: seq<seq<Byte>>, inflight: seq<Byte>,
                      wire: seq<Byte>, out: seq<Byte>)
    requires Balanced(fed, dropped, window, inflight, wire)
    ensures Balanced(fed, dropped, window, inflight + out, wire + out)
  {
    Assoc(Concat(fed) + dropped + Concat(window), inflight, out);
  }

  lemma BalancedDrain(fed: seq<seq<Byte>>, dropped: seq<Byte>, window: seq<seq<Byte>>, parts: seq<seq<Byte>>,
                      rest: seq<Byte>, wire: seq<Byte>)
    requires Balanced(fed, dropped, window, Concat(parts) + rest, wire)
    ensures Balanced(fed, dropped, window + parts, rest, wire)
  {
    ConcatJoin(window, parts);
    var before, win, arrived := Concat(fed) + dropped, Concat(window), Concat(parts);
    Assoc(before + win, arrived, rest);
    Assoc(before, win, arrived);
  }

  lemma BalancedFeed(fed: seq<seq<Byte>>, window: seq<seq<Byte>>, inflight: seq<Byte>, wire: seq<Byte>,
                     more: seq<seq<Byte>>, left: seq<Byte>)
    requires Balanced(fed, [], window, inflight, wire) && Concat(more) + left == Concat(window)
    ensures Balanced(fed + more, [] + left, [], inflight, wire)
  {
    ConcatJoin(fed, more);
    var a, b := Concat(fed), Concat(more);
    assert a + [] == a && [] + left == left;
    Assoc(a, b, left);
    assert a + b + left + [] == a + b + left;
  }

  lemma BalancedDestroy(fed: seq<seq<Byte>>, dropped: seq<Byte>, window: seq<seq<Byte>>, inflight: seq<Byte>,
                        wire: seq<Byte>)
    requires Balanced(fed, dropped, window, inflight, wire)
    ensures Balanced(fed, dropped + Concat(window), [], inflight, wire)
  {
    var a, b, c := Concat(fed), dropped, Concat(window);
    Assoc(a, b, c);
    assert a + (b + c) + [] == a + (b + c);
  }

  lemma SenderStepMeets(w: World, fd: int, action: Sender.Action, lim: Limits)
    requires Inv(w, fd) && Sender.Legal(action, fd)
    ensures Inv(Next(w, fd, SenderDoes(action), lim), fd)
  {
    Sender.NextKeepsInv(w.sender, fd, action, lim);
    var s := Sender.Next(w.sender, fd, action, lim);
    var out := s.wire[|w.sender.wire|..];
    BalancedWrite(w.fed, w.dropped, w.receiver.window, w.inflight, w.sender.wire, out);
    assert w.sender.wire + out == s.wire;
  }

  lemma PacketSizedJoin(a: seq<seq<Byte>>, b: seq<seq<Byte>>)
    requires PacketSized(a) && PacketSized(b)
    ensures PacketSized(a + b)
  {
  }

  lemma ReadableMeets(w: World, fd: int, replies: seq<RecvReply>, lim: Limits)
    requires Inv(w, fd)
    ensures Inv(Next(w, fd, Readable(replies), lim), fd)
  {
    if !w.receiverGone {
      var parts := DrainConserves(w.receiver, w.inflight, replies, lim);
      var rest := Drain(w.receiver, w.inflight, replies, lim).1;
      BalancedDrain(w.fed, w.dropped, w.receiver.window, parts, rest, w.sender.wire);
      PacketSizedJoin(w.receiver.window, parts);
    }
  }

  lemma PartsSized(fed: seq<seq<Byte>>, window: seq<seq<Byte>>)
    requires Parts(fed, window) && PacketSized(window)
    ensures PacketSized(fed)
  {
    forall j | 0 <= j < |fed| ensures 1 <= |fed[j]| <= PacketMaxSizeTcp {
      assert 1 <= |window[j]| <= PacketMaxSizeTcp;
    }
  }

  lemma {:induction false} ProcessMeets(w: World, fd: int, kill: Option<nat>, lim: Limits)
    requires Inv(w, fd)
    ensures Inv(Next(w, fd, ProcessPackets(kill), lim), fd)
  {
    if !w.receiverGone && !w.receiver.condemned {
      var v := ReadWindow(w.reader, w.receiver.window, kill);
      ReadWindowIs(w.reader, w.receiver.window, kill);
      FeedWindowExtends(w.fed, v.fed);
      BalancedFeed(w.fed, w.receiver.window, w.inflight, w.sender.wire, v.fed, v.left);
      PartsSized(v.fed, w.receiver.window);
      PacketSizedJoin(w.fed, v.fed);
    }
  }

  lemma DestroyMeets(w: World, fd: int, lim: Limits)
    requires Inv(w, fd)
    ensures Inv(Next(w, fd, DestroyReceiver, lim), fd)
  {
    BalancedDestroy(w.fed, w.dropped, w.receiver.window, w.inflight, w.sender.wire);
  }

  lemma NextKeepsInv(w: World, fd: int, step: Step, lim: Limits)
    requires Inv(w, fd) && (step.SenderDoes? ==> Sender.Legal(step.action, fd))
    ensures Inv(Next(w, fd, step, lim), fd)
  {
    match step
    case SenderDoes(action) => SenderStepMeets(w, fd, action, lim);
    case Readable(replies) => ReadableMeets(w, fd, replies, lim);
    case ProcessPackets(kill) => ProcessMeets(w, fd, kill, lim);
    case CondemnReceiver =>
    case DestroyReceiver => DestroyMeets(w, fd, lim);
  }

  lemma {:induction false} RunKeepsInv(w: World, fd: int, steps: seq<Step>, lim: Limits)
    requires Inv(w, fd) && Legal(steps, fd)
    ensures Inv(Run(w, fd, steps, lim), fd)
    decreases |steps|
  {
    if steps != [] {
      NextKeepsInv(w, fd, steps[0], lim);
      RunKeepsInv(Next(w, fd, steps[0], lim), fd, steps[1..], lim);
    }
  }

  lemma InitialInv(w: World, fd: int)
    requires Initial(w, fd)
    ensures Inv(w, fd)
  {
    Sender.InitialInv(w.sender, fd);
    assert Concat([]) + [] + Concat([]) + [] == [];
  }

  /** The bytes that reached the reader. */
  function Consumed(w: World): seq<Byte> {
    Concat(w.fed)
  }

  /** Bytes that left the pipe at the receiver, in order: consumed, discarded, or waiting. */
  function Taken(w: World): seq<Byte> {
    Consumed(w) + w.dropped + Concat(w.receiver.window)
  }

  lemma PrefixOfSum(taken: seq<Byte>, inflight: seq<Byte>, wire: seq<Byte>, unsent: seq<Byte>, enqueued: seq<Byte>)
    requires taken + inflight == wire && wire + unsent <= enqueued
    ensures taken <= enqueued
  {
    assert taken <= wire <= wire + unsent;
  }

  lemma TakenIsPrefix(w: World, fd: int)
    requires Inv(w, fd)
    ensures Taken(w) <= w.sender.enqueued
    ensures Consumed(w) <= w.sender.enqueued
  {
    PrefixOfSum(Taken(w), w.inflight, w.sender.wire, Unsent(w.sender.chan.queue), w.sender.enqueued);
    assert Consumed(w) <= Consumed(w) + w.dropped <= Taken(w);
  }

  /** End-to-end conservation, over every run: consumed, discarded with a destroyed receiver,
      received but unread, in flight and unsent bytes make up exactly what was enqueued while
      the sender lives; what is received is a prefix of what was enqueued in any case. */
  lemma StreamConserved(w: World, fd: int, steps: seq<Step>, lim: Limits)
    requires Initial(w, fd) && Legal(steps, fd)
    ensures var w' := Run(w, fd, steps, lim);
            && (Sender.Live(w'.sender) ==> Taken(w') + w'.inflight + Unsent(w'.sender.chan.queue) == w'.sender.enqueued)
            && Taken(w') <= w'.sender.enqueued
            && PacketSized(w'.fed)
  {
    InitialInv(w, fd);
    RunKeepsInv(w, fd, steps, lim);
    TakenIsPrefix(Run(w, fd, steps, lim), fd);
  }

  lemma {:induction false} EmptiedBalance(fed: seq<seq<Byte>>, wire: seq<Byte>)
    requires Balanced(fed, [], [], [], wire)
    ensures Concat(fed) == wire
  {
    var a := Concat(fed);
    assert a + [] == a && a + [] + [] + [] == a;
  }

  lemma {:induction false} InvDrained(w: World, fd: int, lim: Limits, w2: World)
    requires Inv(w, fd) && !w.receiverGone && !w.receiver.condemned && w2 == Next(w, fd, ProcessPackets(None), lim)
    requires Sender.Live(w.sender) && w.inflight == [] && Unsent(w.sender.chan.queue) == []
    ensures Inv(w2, fd) && !w2.receiverGone && w2.receiver.window == []
    ensures Consumed(w2) == w.sender.enqueued && w2.delivered == FeedAll(w2.fed).1
  {
    ProcessMeets(w, fd, None, lim);
    ReadWindowIs(w.reader, w.receiver.window, None);
    assert w.sender.wire + [] == w.sender.wire;
    EmptiedBalance(w2.fed, w.sender.wire);
  }

  /** Nothing is withheld: in every state a run reaches in which nothing is left to send or in flight,
      processing hands the live receiver's reader the very last byte, and the handler every complete
      message that was sent, if no length field was cut. */
  lemma {:induction false} AllDelivered(w: World, fd: int, steps: seq<Step>, lim: Limits, w': World, w2: World)
    requires Initial(w, fd) && Legal(steps, fd) && w' == Run(w, fd, steps, lim)
    requires !w'.receiverGone && !w'.receiver.condemned && w2 == Next(w', fd, ProcessPackets(None), lim)
    requires Sender.Live(w'.sender) && w'.inflight == [] && Unsent(w'.sender.chan.queue) == []
    ensures Consumed(w2) == w'.sender.enqueued && w2.receiver.window == []
    ensures NoLengthFieldCut(w2.fed) ==> w2.delivered == Parse(w'.sender.enqueued).messages
  {
    InitialInv(w, fd);
    RunKeepsInv(w, fd, steps, lim);
    InvDrained(w', fd, lim, w2);
    if NoLengthFieldCut(w2.fed) {
      ReassemblyRight(w2.fed);
    }
  }

  /** And nothing in flight stays there: a drain that finds everything ready and leaves the receiver
      uncondemned empties the pipe, behind what was waiting. */
  lemma {:induction false} AllReceived(w: World, fd: int, replies: seq<RecvReply>, lim: Limits, w2: World)
    requires Inv(w, fd) && !w.receiverGone && w2 == Next(w, fd, Readable(replies), lim)
    requires AllReady(|w.inflight|, replies) && !w2.receiver.condemned
    ensures w2.inflight == [] && Concat(w2.receiver.window) == Concat(w.receiver.window) + w.inflight
    ensures w2.fed == w.fed && w2.sender == w.sender && !w2.receiverGone
  {
    DrainsAll(w.receiver, w.inflight, replies, lim);
    var parts := DrainConserves(w.receiver, w.inflight, replies, lim);
    ConcatJoin(w.receiver.window, parts);
    assert Concat(parts) + [] == Concat(parts);
  }

  ghost predicate NoLengthFieldCut(packets: seq<seq<Byte>>) {
    packets != [] ==> Splits(packets[..|packets| - 1]) == {}
  }

  lemma PrefixMessages(consumed: seq<Byte>, bodies: seq<Message>, partial: seq<Byte>)
    requires Parse(partial).messages == [] && consumed <= Frames(bodies) + partial
    ensures Parse(consumed).messages <= bodies
  {
    ParseFrames(bodies, partial);
    ParseMonotone(consumed, Frames(bodies) + partial);
  }

  lemma InvDelivers(w: World, fd: int, bodies: seq<Message>, partial: seq<Byte>)
    requires Inv(w, fd) && NoLengthFieldCut(w.fed)
    requires Parse(partial).messages == [] && w.sender.enqueued == Frames(bodies) + partial
    ensures w.delivered <= bodies
  {
    TakenIsPrefix(w, fd);
    PrefixMessages(Consumed(w), bodies, partial);
    ReassemblyRight(w.fed);
  }

  /** End-to-end messages: if the sender enqueued framed messages and no received packet cut a
      length field, the handler has been given an initial part of them, unchanged and in order. */
  lemma MessagesDelivered(w: World, fd: int, steps: seq<Step>, lim: Limits, bodies: seq<Message>, partial: seq<Byte>)
    requires Initial(w, fd) && Legal(steps, fd)
    requires Parse(partial).messages == [] && Run(w, fd, steps, lim).sender.enqueued == Frames(bodies) + partial
    requires NoLengthFieldCut(Run(w, fd, steps, lim).fed)
    ensures Run(w, fd, steps, lim).delivered <= bodies
  {
    InitialInv(w, fd);
    RunKeepsInv(w, fd, steps, lim);
    InvDelivers(Run(w, fd, steps, lim), fd, bodies, partial);
  }

  /** A handler that destroys its own channel at the message number `k` of the window does so exactly
      when the stream as read gets there, and the receiving program then goes on exactly when that
      message ends a packet. */
  ghost predicate StopsAsRead(w: World, w': World, k: nat) {
    var packets, n := w.fed + w.receiver.window, |w.delivered| + k + 1;
    var reached := n <= |Parse(Concat(AsRead(packets))).messages|;
    && (w'.receiverGone <==> reached)
    && (w'.stopped <==> reached && !EndsAPacket(packets, n))
  }

  lemma {:induction false} InvStops(w: World, fd: int, lim: Limits, k: nat)
    requires Inv(w, fd) && !w.receiverGone && !w.receiver.condemned
    ensures StopsAsRead(w, Next(w, fd, ProcessPackets(Some(k)), lim), k)
  {
    FateIff(w.reader, w.delivered, w.fed, w.receiver.window, k);
  }

  /** So in every state a run reaches with a live receiver. */
  lemma {:induction false} ReceiverStopsIff(w: World, fd: int, steps: seq<Step>, lim: Limits, k: nat, w': World)
    requires Initial(w, fd) && Legal(steps, fd) && w' == Run(w, fd, steps, lim)
    requires !w'.receiverGone && !w'.receiver.condemned
    ensures StopsAsRead(w', Next(w', fd, ProcessPackets(Some(k)), lim), k)
  {
    InitialInv(w, fd);
    RunKeepsInv(w, fd, steps, lim);
    InvStops(w', fd, lim, k);
  }

  /** What the handler got, for every division into packets: one message for each message of the
      stream as read, beheaded exactly when its length field was cut. */
  lemma MessagesAsRead(w: World, fd: int, steps: seq<Step>, lim: Limits)
    requires Initial(w, fd) && Legal(steps, fd)
    ensures var w' := Run(w, fd, steps, lim);
            && DamagedAt(w'.delivered, Parse(Concat(AsRead(w'.fed))).messages, Splits(AsRead(w'.fed)))
            && (w'.delivered == Parse(Consumed(w')).messages <==>
                  Parse(Concat(AsRead(w'.fed))).messages == Parse(Consumed(w')).messages
                  && Harmless(Splits(AsRead(w'.fed)), Parse(Consumed(w')).messages))
  {
    InitialInv(w, fd);
    RunKeepsInv(w, fd, steps, lim);
    var w' := Run(w, fd, steps, lim);
    StreamExact(w'.fed);
    ReassemblyRightIff(w'.fed);
  }

  lemma InvDamages(w: World, fd: int, bodies: seq<Message>, partial: seq<Byte>)
    requires Inv(w, fd) && StashesZero(w.fed)
    requires Parse(partial).messages == [] && w.sender.enqueued == Frames(bodies) + partial
    ensures |w.delivered| <= |bodies|
    ensures DamagedAt(w.delivered, bodies[..|w.delivered|], Splits(w.fed))
    ensures w.delivered <= bodies <==> Harmless(Splits(w.fed), bodies[..|w.delivered|])
  {
    var ms := Parse(Consumed(w)).messages;
    TakenIsPrefix(w, fd);
    PrefixMessages(Consumed(w), bodies, partial);
    CutsAloneMatter(w.fed);
    assert ms == bodies[..|w.delivered|];
  }

  /** When no non-zero byte is left over behind an empty message the exact loss is known: one
      handover for each consumed message, beheaded exactly when its length field was cut; and
      the handler got an initial part of what was sent exactly when only empty ones were cut. */
  lemma MessagesDamaged(w: World, fd: int, steps: seq<Step>, lim: Limits, bodies: seq<Message>, partial: seq<Byte>)
    requires Initial(w, fd) && Legal(steps, fd) && StashesZero(Run(w, fd, steps, lim).fed)
    requires Parse(partial).messages == [] && Run(w, fd, steps, lim).sender.enqueued == Frames(bodies) + partial
    ensures var w' := Run(w, fd, steps, lim);
            && |w'.delivered| <= |bodies|
            && DamagedAt(w'.delivered, bodies[..|w'.delivered|], Splits(w'.fed))
            && (w'.delivered <= bodies <==> Harmless(Splits(w'.fed), bodies[..|w'.delivered|]))
  {
    InitialInv(w, fd);
    RunKeepsInv(w, fd, steps, lim);
    InvDamages(Run(w, fd, steps, lim), fd, bodies, partial);
  }
}
