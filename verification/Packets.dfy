/** The packet buffer: a byte vector with read and write positions and a count of bytes sent. */
module Packets {
  import opened Bytes

  class Packet {
    var data: seq<Byte>
    var rpos: nat
    var wpos: nat
    var sentSize: nat

    constructor (size: nat)
      ensures data == Resize([], size) && rpos == 0 && wpos == 0 && sentSize == 0
    {
      data, rpos, wpos, sentSize := Resize([], size), 0, 0, 0;
    }

    ghost predicate Valid()
      reads this
    {
      rpos <= wpos <= |data|
    }

    function Length(): (n: nat)
      reads this
    {
      if rpos >= wpos then 0 else wpos - rpos
    }

    function Room(): (n: nat)
      reads this
    {
      if wpos >= |data| then 0 else |data| - wpos
    }

    /** What a reader of this packet has still to read. */
    function Unread(): (s: seq<Byte>)
      reads this
      ensures Valid() ==> |s| == Length()
    {
      if rpos >= wpos || wpos > |data| then [] else data[rpos..wpos]
    }

    /** What sending this packet puts on the wire. */
    ghost function Payload(): (s: seq<Byte>)
      requires Valid()
      reads this
    {
      data[..Length()]
    }

    ghost predicate Sendable()
      reads this
    {
      Valid() && sentSize <= Length()
    }

    method DataResize(n: nat)
      modifies this`data, this`wpos
      ensures data == Resize(old(data), n)
      ensures wpos == if old(wpos) > n then n else old(wpos)
    {
      data := Resize(data, n);
      if wpos > |data| {
        wpos := |data|;
      }
    }

    /** Appends one byte at the write position, growing the vector when it must. */
    method Append(c: Byte)
      modifies this`data, this`wpos
      ensures wpos == old(wpos) + 1 && |data| == if |old(data)| < wpos then wpos else |old(data)|
      ensures data == (if |old(data)| < wpos then Resize(old(data), wpos) else old(data))[old(wpos) := c]
    {
      if |data| < wpos + 1 {
        data := Resize(data, wpos + 1);
      }
      data := data[wpos := c];
      wpos := wpos + 1;
    }

    /** Reads one byte.  `Length() > 0` is where the source would otherwise throw. */
    method ReadByte() returns (c: Byte)
      requires Valid() && Length() > 0
      modifies this`rpos
      ensures Valid() && c == old(Unread())[0] && Unread() == old(Unread())[1..] && rpos == old(rpos) + 1
    {
      c := data[rpos];
      rpos := rpos + 1;
    }

    method Clear()
      modifies this`rpos, this`wpos, this`sentSize
      ensures rpos == 0 && wpos == 0 && sentSize == 0
    {
      rpos, wpos, sentSize := 0, 0, 0;
    }
  }
}
