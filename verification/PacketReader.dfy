/** The packet reader object: cuts messages out of arriving packets, one buffer at a time. */
module PacketReader {
  import opened Wrappers
  import opened Bytes
  import opened Framing
  import opened Reassembly
  import opened Interruption
  import opened Packets

  class PacketReader {
    const currPacket: Packet
    var fragmentDatasFlag: Flag

    ghost function State(): Reader
      reads this, currPacket
    {
      Reader(fragmentDatasFlag, currPacket.data, currPacket.rpos, currPacket.wpos)
    }

    constructor ()
      ensures fresh(currPacket) && State() == Fresh
    {
      currPacket := new Packet(InitialSize);
      fragmentDatasFlag := Unknown;
    }

    method Reset()
      modifies this, currPacket
      ensures State() == Reassembly.Reset(old(State()))
    {
      currPacket.Clear();
      fragmentDatasFlag := Unknown;
    }

    method WriteFragmentMessage(flag: Flag, p: Packet, datasize: nat)
      requires p != currPacket && p.Valid() && datasize <= p.Length()
      modifies this, currPacket, p
      ensures p.Valid() && p.Unread() == old(p.Unread())[datasize..]
      ensures State() == Store(old(State()), flag, old(p.Unread())[..datasize])
    {
      fragmentDatasFlag := flag;
      currPacket.data := WriteAt(currPacket.data, currPacket.wpos, p.data[p.rpos..p.rpos + datasize]);
      currPacket.wpos := currPacket.wpos + datasize;
      assert p.data[p.rpos..p.rpos + datasize] == p.Unread()[..datasize];
      p.rpos := p.rpos + datasize;
    }

    method OpenBody(n: nat)
      modifies currPacket
      ensures State() == Reassembly.OpenBody(old(State()), n)
    {
      currPacket.DataResize(n);
      currPacket.wpos := 0;
    }

    /** Reads what is missing of the length field and opens the body buffer. */
    method ReadLength(p: Packet)
      requires p != currPacket && p.Valid() && WellFormed(State())
      requires p.Length() > 0 && (fragmentDatasFlag == Unknown ==> p.Length() >= 2)
      modifies currPacket, p
      ensures p.Valid()
      ensures var (r, used) := Open(old(State()), old(p.Unread()));
              State() == r && used <= |old(p.Unread())| && p.Unread() == old(p.Unread())[used..]
    {
      if fragmentDatasFlag == Unknown {
        var hi := p.ReadByte();
        var lo := p.ReadByte();
        OpenBody(BodySize(hi, lo));
      } else if fragmentDatasFlag == MessageLength {
        var c := p.ReadByte();
        currPacket.Append(c);
        assert currPacket.Unread() == currPacket.data[0..2];
        var hi := currPacket.ReadByte();
        var lo := currPacket.ReadByte();
        OpenBody(BodySize(hi, lo));
      }
    }

    /** Stores what there is of the body; true when that completes it. */
    method FillBody(p: Packet) returns (complete: bool)
      requires p != currPacket && p.Valid() && currPacket.wpos <= |currPacket.data|
      modifies this, currPacket, p
      ensures p.Valid()
      ensures var (r, rest) := (old(State()), old(p.Unread()));
              var n := Space(r);
              && complete == (|rest| >= n)
              && State() == Store(r, MessageBody, if complete then rest[..n] else rest)
              && p.Unread() == if complete then rest[n..] else []
    {
      ghost var rest := p.Unread();
      assert rest[..|rest|] == rest && rest[|rest|..] == [];
      complete := p.Length() >= currPacket.Room();
      if !complete {
        WriteFragmentMessage(MessageBody, p, p.Length());
      } else {
        WriteFragmentMessage(MessageBody, p, currPacket.Room());
      }
    }

    /** Reads the length field and the body, as far as they are there. */
    method ReadBody(p: Packet) returns (complete: bool)
      requires p != currPacket && p.Valid() && WellFormed(State())
      requires p.Length() > 0 && (fragmentDatasFlag == Unknown ==> p.Length() >= 2)
      modifies this, currPacket, p
      ensures p.Valid()
      ensures var (r, bytes) := (old(State()), old(p.Unread()));
              var (r1, used) := Open(r, bytes);
              && complete == (|bytes| - used >= Space(r1))
              && (if complete then State() == Filled(r, bytes) && p.Unread() == Behind(r, bytes)
                  else State() == Store(r1, MessageBody, bytes[used..]) && p.Unread() == [])
    {
      ReadLength(p);
      complete := FillBody(p);
    }

    /** One round of the reading loop; false when the packet ran out inside a message. */
    method ReadOne(p: Packet, ghost kill: Option<nat>) returns (complete: bool, message: seq<Byte>)
      requires p != currPacket && p.Valid() && WellFormed(State()) && p.Length() > 0
      modifies this, currPacket, p
      ensures p.Valid() && WellFormed(State())
      ensures if complete then
                p.Length() < old(p.Length()) && Round(old(State()), old(p.Unread()), kill, State(), message, p.Unread())
              else
                p.Length() == 0 && FeedUntil(old(State()), old(p.Unread()), kill) == Reading(State(), [], [], false)
    {
      ghost var r, bytes := State(), p.Unread();
      message := [];
      if fragmentDatasFlag == Unknown && p.Length() < 2 {
        assert bytes[..|bytes|] == bytes;
        WriteFragmentMessage(MessageLength, p, p.Length());
        return false, [];
      }
      complete := ReadBody(p);
      if complete {
        RoundCompletes(r, bytes, kill);
        message := currPacket.Unread();
        Reset();
      } else {
        FeedUntilStops(r, bytes, kill);
      }
    }

    /** Reads one packet; `messages` are the handler's views, in call order.  The handler of the
        message number `kill` destroys the channel: what follows does nothing if the packet has
        ended, and otherwise is where the source follows the missing endpoint. */
    method ProcessMessages(p: Packet, kill: Option<nat>) returns (messages: seq<seq<Byte>>, destroyed: bool)
      requires p != currPacket && p.Valid() && WellFormed(State())
      modifies this, currPacket, p
      ensures p.Valid() && WellFormed(State())
      ensures Reading(State(), messages, p.Unread(), destroyed) == FeedUntil(old(State()), old(p.Unread()), kill)
    {
      messages, destroyed := [], false;
      ghost var whole := FeedUntil(State(), p.Unread(), kill);
      var left := kill;
      Ahead(whole);
      while p.Length() > 0 && !destroyed
        invariant p.Valid() && WellFormed(State())
        invariant if destroyed then whole == Reading(State(), messages, p.Unread(), true)
                  else whole == Afterwards(messages, FeedUntil(State(), p.Unread(), left))
        decreases p.Length()
      {
        var complete, message := ReadOne(p, left);
        AfterwardsOne(messages, message, FeedUntil(State(), p.Unread(), Minus(left, 1)));
        if !complete {
          break;
        }
        messages := messages + [message];
        destroyed := left == Some(0);
        left := Minus(left, 1);
      }
    }
  }

  /** One round that hands over a message. */
  ghost predicate Round(r: Reader, bytes: seq<Byte>, kill: Option<nat>, r': Reader, message: seq<Byte>, tail: seq<Byte>)
    requires WellFormed(r) && WellFormed(r')
  {
    FeedUntil(r, bytes, kill) ==
      if kill == Some(0) then Reading(r', [message], tail, true)
        else After(message, FeedUntil(r', tail, Minus(kill, 1)))
  }

  lemma {:induction false} RoundCompletes(r: Reader, bytes: seq<Byte>, kill: Option<nat>)
    requires WellFormed(r) && bytes != [] && (r.flag == Unknown ==> |bytes| >= 2)
    requires |bytes| - Open(r, bytes).1 >= Space(Open(r, bytes).0)
    ensures var r2, tail := Filled(r, bytes), Behind(r, bytes);
            WellFormed(Reassembly.Reset(r2)) && |tail| < |bytes| &&
              Round(r, bytes, kill, Reassembly.Reset(r2), View(r2), tail)
  {
    FeedUntilUnfolds(r, bytes, kill);
    BehindShorter(r, bytes);
  }

  function Afterwards(messages: seq<seq<Byte>>, rest: Reading): Reading {
    rest.(messages := messages + rest.messages)
  }

  lemma Ahead(rest: Reading)
    ensures Afterwards([], rest) == rest
  {
  }

  lemma AfterwardsOne(messages: seq<seq<Byte>>, message: seq<Byte>, rest: Reading)
    ensures Afterwards(messages, After(message, rest)) == Afterwards(messages + [message], rest)
    ensures messages + [] == messages
  {
    assert messages + ([message] + rest.messages) == messages + [message] + rest.messages;
  }
}
