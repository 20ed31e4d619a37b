/** The message framing on a byte stream: a two-byte big-endian length that counts itself,
    then the body.  `Parse` is the meaning of a stream; it knows nothing of packets. */
module Framing {
  import opened Bytes

  /** The body size announced by a length field; the subtraction wraps on 16 bits. */
  function BodySize(hi: Byte, lo: Byte): (n: nat)
    ensures n < 0x10000 && n == (hi * 256 + lo + 0xFFFE) % 0x10000
  {
    var total := hi * 256 + lo;
    if total < 2 then total + 0xFFFE else total - 2
  }

  function Header(n: nat): (h: seq<Byte>)
    requires n < 0x10000
    ensures |h| == 2 && BodySize(h[0], h[1]) == n
  {
    var total := if n < 0xFFFE then n + 2 else n - 0xFFFE;
    [total / 256, total % 256]
  }

  lemma HeaderUnique(hi: Byte, lo: Byte)
    ensures Header(BodySize(hi, lo)) == [hi, lo]
  {
  }

  type Message = b: seq<Byte> | |b| < 0x10000

  datatype Parsed = Parsed(messages: seq<Message>, rest: seq<Byte>)

  function Parse(s: seq<Byte>): Parsed
    decreases |s|
  {
    if |s| < 2 || |s| < 2 + BodySize(s[0], s[1]) then Parsed([], s)
    else
      var n := BodySize(s[0], s[1]);
      var tail := Parse(s[2 + n..]);
      Parsed([s[2..2 + n]] + tail.messages, tail.rest)
  }

  function Frames(bodies: seq<Message>): seq<Byte>
  {
    if bodies == [] then [] else Header(|bodies[0]|) + bodies[0] + Frames(bodies[1..])
  }

  lemma ParseOne(body: Message, tail: seq<Byte>)
    ensures Parse(Header(|body|) + body + tail) == Parsed([body] + Parse(tail).messages, Parse(tail).rest)
  {
    var s, n := Header(|body|) + body + tail, |body|;
    assert s[2..2 + n] == body && s[2 + n..] == tail;
  }

  lemma FramesOne(bodies: seq<Message>, rest: seq<Byte>)
    requires bodies != []
    ensures Frames(bodies) + rest == Header(|bodies[0]|) + bodies[0] + (Frames(bodies[1..]) + rest)
    ensures [bodies[0]] + bodies[1..] == bodies
  {
  }

  /** What a sender frames is what parsing finds, whatever incomplete message follows. */
  lemma {:induction false} ParseFrames(bodies: seq<Message>, rest: seq<Byte>)
    requires Parse(rest).messages == []
    ensures Parse(Frames(bodies) + rest) == Parsed(bodies, rest)
    decreases |bodies|
  {
    if bodies == [] {
      assert Frames(bodies) + rest == rest;
    } else {
      var head, others := bodies[0], bodies[1..];
      ParseFrames(others, rest);
      ParseOne(head, Frames(others) + rest);
      FramesOne(bodies, rest);
    }
  }

  /** Parsing neither loses nor invents bytes. */
  lemma {:induction false} ParseExact(s: seq<Byte>)
    ensures Frames(Parse(s).messages) + Parse(s).rest == s
    decreases |s|
  {
    if Parse(s).messages == [] {
      assert Frames([]) + s == s;
    } else {
      var n := BodySize(s[0], s[1]);
      var body: Message, tail := s[2..2 + n], s[2 + n..];
      var q := Parse(tail);
      ParseExact(tail);
      HeaderUnique(s[0], s[1]);
      FramesOne([body] + q.messages, q.rest);
      assert ([body] + q.messages)[1..] == q.messages;
      assert s == Header(n) + body + tail;
    }
  }

  /** What parsing leaves over is shorter than the message it announces. */
  lemma {:induction false} RestIncomplete(s: seq<Byte>)
    ensures var rest := Parse(s).rest;
            |rest| < 2 || (var hi: int, lo: int := rest[0], rest[1]; |rest| - 2 < (hi * 256 + lo + 0xFFFE) % 0x10000)
    decreases |s|
  {
    if Parse(s).messages != [] {
      RestIncomplete(s[2 + BodySize(s[0], s[1])..]);
    }
  }

  /** The first message of a stream, and what parsing a longer stream does with it. */
  lemma ParseHead(a: seq<Byte>, b: seq<Byte>) returns (body: Message, tail: seq<Byte>)
    requires Parse(a).messages != []
    ensures |tail| < |a|
    ensures Parse(a) == Parsed([body] + Parse(tail).messages, Parse(tail).rest)
    ensures Parse(a + b) == Parsed([body] + Parse(tail + b).messages, Parse(tail + b).rest)
  {
    var n := BodySize(a[0], a[1]);
    body, tail := a[2..2 + n], a[2 + n..];
    assert (a + b)[2 + n..] == tail + b;
    assert (a + b)[2..2 + n] == body;
  }

  lemma ConsAssoc(body: Message, xs: seq<Message>, ys: seq<Message>)
    ensures [body] + (xs + ys) == [body] + xs + ys
  {
  }

  /** A stream may be parsed piecewise, carrying the unparsed rest over. */
  lemma {:induction false} ParseAppend(a: seq<Byte>, b: seq<Byte>)
    ensures Parse(a + b) == Parsed(Parse(a).messages + Parse(Parse(a).rest + b).messages, Parse(Parse(a).rest + b).rest)
    decreases |a|
  {
    if Parse(a).messages == [] {
      assert Parse(a).rest == a;
      assert [] + Parse(a + b).messages == Parse(a + b).messages;
    } else {
      var body, tail := ParseHead(a, b);
      ParseAppend(tail, b);
      ConsAssoc(body, Parse(tail).messages, Parse(Parse(tail).rest + b).messages);
    }
  }

  /** More bytes only ever add messages. */
  lemma ParseMonotone(a: seq<Byte>, b: seq<Byte>)
    requires a <= b
    ensures Parse(a).messages <= Parse(b).messages
  {
    ParseAppend(a, b[|a|..]);
    assert a + b[|a|..] == b;
  }
}
