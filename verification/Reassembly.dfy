/** Message reassembly from packets: the reader as a function on values, and exactly when it
    agrees with the meaning of the byte stream. */
module Reassembly {
  import opened Bytes
  import opened Framing

  datatype Flag = Unknown | MessageLength | MessageBody

  /** The reader's flag and its current-message buffer. */
  datatype Reader = Reader(flag: Flag, data: seq<Byte>, rpos: nat, wpos: nat)

  const InitialSize := 200
  const Fresh := Reader(Unknown, Resize([], InitialSize), 0, 0)

  ghost predicate WellFormed(r: Reader) {
    && |r.data| < 0x10000
    && match r.flag
       case Unknown => r.rpos == 0 && r.wpos == 0
       case MessageLength => r.rpos == 0 && r.wpos == 1
       case MessageBody => (r.rpos == 0 || r.rpos == 2) && r.wpos < |r.data|
  }

  /** What the message handler can read from the buffer. */
  function View(r: Reader): seq<Byte> {
    if r.rpos >= r.wpos || r.wpos > |r.data| then [] else r.data[r.rpos..r.wpos]
  }

  function Space(r: Reader): nat {
    if r.wpos >= |r.data| then 0 else |r.data| - r.wpos
  }

  function Store(r: Reader, flag: Flag, bytes: seq<Byte>): (r': Reader)
    ensures |r'.data| == |r.data|
  {
    Reader(flag, WriteAt(r.data, r.wpos, bytes), r.rpos, r.wpos + |bytes|)
  }

  function OpenBody(r: Reader, n: nat): Reader {
    r.(data := Resize(r.data, n), wpos := 0)
  }

  /** Appends the second length byte to the buffer and reads the length back from it. */
  function FinishLength(r: Reader, c: Byte): (r': Reader)
    requires WellFormed(r) && r.flag == MessageLength
    ensures |r'.data| < 0x10000 && r'.wpos == 0 && r'.rpos == 2 && r'.flag == MessageLength
  {
    var grown := (if |r.data| < r.wpos + 1 then Resize(r.data, r.wpos + 1) else r.data)[r.wpos := c];
    OpenBody(r.(data := grown, rpos := 2), BodySize(grown[0], grown[1]))
  }

  /** The length field, complete: the reader with its body buffer open, and the bytes used. */
  function Open(r: Reader, bytes: seq<Byte>): (res: (Reader, nat))
    requires WellFormed(r) && bytes != [] && (r.flag == Unknown ==> |bytes| >= 2)
    ensures res.1 <= |bytes| && |res.0.data| < 0x10000 && res.0.wpos <= |res.0.data|
    ensures res.0.rpos == 0 || res.0.rpos == 2
    ensures res.0.wpos == |res.0.data| ==> res.1 > 0
  {
    match r.flag
    case Unknown => (OpenBody(r, BodySize(bytes[0], bytes[1])), 2)
    case MessageLength => (FinishLength(r, bytes[0]), 1)
    case MessageBody => (r, 0)
  }

  function Reset(r: Reader): Reader {
    r.(flag := Unknown, rpos := 0, wpos := 0)
  }

  /** One packet: the reader afterwards and the messages handed over, in order. */
  function Feed(r: Reader, bytes: seq<Byte>): (res: (Reader, seq<seq<Byte>>))
    requires WellFormed(r)
    ensures WellFormed(res.0)
    decreases |bytes|
  {
    if bytes == [] then (r, [])
    else if r.flag == Unknown && |bytes| < 2 then (Store(r, MessageLength, bytes), [])
    else
      var (r1, used) := Open(r, bytes);
      var body := bytes[used..];
      if |body| < Space(r1) then (Store(r1, MessageBody, body), [])
      else
        var r2 := Store(r1, MessageBody, body[..Space(r1)]);
        var (r3, more) := Feed(Reset(r2), body[Space(r1)..]);
        (r3, [View(r2)] + more)
  }

  /** The packets of a connection, in order. */
  function FeedAll(packets: seq<seq<Byte>>): (res: (Reader, seq<seq<Byte>>))
    ensures WellFormed(res.0)
  {
    if packets == [] then (Fresh, [])
    else
      var (r1, before) := FeedAll(packets[..|packets| - 1]);
      var (r2, more) := Feed(r1, packets[|packets| - 1]);
      (r2, before + more)
  }

  /** processPackets hands the window to the reader packet by packet. */
  function FeedWindow(r: Reader, window: seq<seq<Byte>>): (res: (Reader, seq<seq<Byte>>))
    requires WellFormed(r)
    ensures WellFormed(res.0)
  {
    if window == [] then (r, [])
    else
      var (r1, before) := FeedWindow(r, window[..|window| - 1]);
      var (r2, more) := Feed(r1, window[|window| - 1]);
      (r2, before + more)
  }

  // ---------- One packet against the meaning of the stream ----------

  /** The bytes of the unfinished message. */
  ghost function Pending(r: Reader): seq<Byte>
    requires WellFormed(r)
  {
    match r.flag
    case Unknown => []
    case MessageLength => if |r.data| > 0 then [r.data[0]] else [0]
    case MessageBody => Header(|r.data|) + r.data[..r.wpos]
  }

  /** The unfinished message had its length field cut by the end of a packet. */
  ghost predicate Marked(r: Reader) {
    r.flag == MessageLength || (r.flag == MessageBody && r.rpos == 2)
  }

  function Beheaded(m: seq<Byte>): seq<Byte> {
    if |m| <= 2 then [] else m[2..]
  }

  lemma OpenAccounts(r: Reader, bytes: seq<Byte>)
    requires WellFormed(r) && bytes != [] && (r.flag == Unknown ==> |bytes| >= 2)
    ensures var (r1, used) := Open(r, bytes);
            && r1.rpos == (if Marked(r) then 2 else 0)
            && Pending(r) + bytes == Header(|r1.data|) + r1.data[..r1.wpos] + bytes[used..]
  {
    var (r1, used) := Open(r, bytes);
    match r.flag
    case Unknown =>
      HeaderUnique(bytes[0], bytes[1]);
      assert bytes == [bytes[0], bytes[1]] + [] + bytes[2..];
    case MessageLength =>
      var hi := Pending(r)[0];
      HeaderUnique(hi, bytes[0]);
      assert [hi] + bytes == [hi, bytes[0]] + [] + bytes[1..];
    case MessageBody =>
      assert bytes[0..] == bytes;
  }

  /** Only the message in progress when a packet arrives can be damaged. */
  function Damaged(marked: bool, messages: seq<seq<Byte>>): seq<seq<Byte>> {
    if marked && messages != [] then [Beheaded(messages[0])] + messages[1..] else messages
  }

  /** Outside a message body the buffer has the size of the last completed body. */
  ghost predicate KeepsSize(r: Reader, messages: seq<Message>, r': Reader) {
    r'.flag != MessageBody ==>
      if messages == [] then r.flag != MessageBody && |r'.data| == |r.data|
      else |r'.data| == |messages[|messages| - 1]|
  }

  /** The one byte of a cut length field is stashed in the buffer, if that has room for it. */
  ghost predicate StashLost(r: Reader) {
    r.flag == MessageLength && r.data == []
  }

  ghost predicate FeedMeets(r: Reader, p: Parsed, r': Reader, out: seq<seq<Byte>>) {
    && WellFormed(r')
    && out == Damaged(Marked(r), p.messages)
    && (r'.flag == MessageLength <==> |p.rest| == 1)
    && (Marked(r') <==> |p.rest| == 1 || (p.messages == [] && Marked(r)))
    && Pending(r') == (if StashLost(r') then [0] else p.rest)
    && KeepsSize(r, p.messages, r')
  }

  lemma StoreFill(r: Reader, body: seq<Byte>)
    requires |body| <= Space(r) && r.wpos <= |r.data|
    ensures var d := Store(r, MessageBody, body).data;
            |d| == |r.data| && d[..r.wpos + |body|] == r.data[..r.wpos] + body
  {
  }

  lemma ParseShort(n: nat, part: seq<Byte>)
    requires |part| < n < 0x10000
    ensures Parse(Header(n) + part) == Parsed([], Header(n) + part)
  {
  }

  lemma FeedNothing(r: Reader)
    requires WellFormed(r)
    ensures FeedMeets(r, Parse(Pending(r) + []), r, [])
  {
    assert Pending(r) + [] == Pending(r);
    if r.flag == MessageBody {
      ParseShort(|r.data|, r.data[..r.wpos]);
    }
  }

  /** The packet ends inside the body. */
  lemma FeedShort(r: Reader, r1: Reader, body: seq<Byte>)
    requires |r1.data| < 0x10000 && r1.wpos + |body| < |r1.data|
    requires r1.rpos == if Marked(r) then 2 else 0
    ensures FeedMeets(r, Parse(Header(|r1.data|) + r1.data[..r1.wpos] + body), Store(r1, MessageBody, body), [])
  {
    var part := r1.data[..r1.wpos] + body;
    StoreFill(r1, body);
    ParseShort(|r1.data|, part);
    Assoc(Header(|r1.data|), r1.data[..r1.wpos], body);
  }

  /** The packet completes the body; the rest is read from a clean reader. */
  lemma FeedDone(r: Reader, r2: Reader, tail: seq<Byte>, r': Reader, more: seq<seq<Byte>>)
    requires |r2.data| < 0x10000 && r2.wpos == |r2.data|
    requires r2.rpos == if Marked(r) then 2 else 0
    requires FeedMeets(Reset(r2), Parse(tail), r', more)
    ensures FeedMeets(r, Parse(Header(|r2.data|) + r2.data + tail), r', [View(r2)] + more)
  {
    ParseOne(r2.data, tail);
    assert View(r2) == if Marked(r) then Beheaded(r2.data) else r2.data;
    HandsOver(r, r2, Parse(tail), r', more);
  }

  lemma HandsOver(r: Reader, r2: Reader, q: Parsed, r': Reader, more: seq<seq<Byte>>)
    requires |r2.data| < 0x10000 && View(r2) == if Marked(r) then Beheaded(r2.data) else r2.data
    requires FeedMeets(Reset(r2), q, r', more)
    ensures FeedMeets(r, Parsed([r2.data] + q.messages, q.rest), r', [View(r2)] + more)
  {
    var ms := [r2.data] + q.messages;
    assert ms[1..] == q.messages;
    assert ms[|ms| - 1] == if q.messages == [] then r2.data else q.messages[|q.messages| - 1];
  }

  lemma FeedUnfolds(r: Reader, bytes: seq<Byte>)
    requires WellFormed(r) && bytes != [] && (r.flag == Unknown ==> |bytes| >= 2)
    requires |bytes| - Open(r, bytes).1 >= Space(Open(r, bytes).0)
    ensures var (r1, used) := Open(r, bytes);
            var rest := bytes[used..];
            var r2 := Store(r1, MessageBody, rest[..Space(r1)]);
            var (r3, more) := Feed(Reset(r2), rest[Space(r1)..]);
            Feed(r, bytes) == (r3, [View(r2)] + more)
  {
  }

  lemma FeedStops(r: Reader, bytes: seq<Byte>)
    requires WellFormed(r) && bytes != [] && (r.flag == Unknown ==> |bytes| >= 2)
    requires |bytes| - Open(r, bytes).1 < Space(Open(r, bytes).0)
    ensures var (r1, used) := Open(r, bytes);
            Feed(r, bytes) == (Store(r1, MessageBody, bytes[used..]), [])
  {
  }

  /** The last case of `Feed`: the reader at the moment the packet completes a body. */
  function Filled(r: Reader, bytes: seq<Byte>): Reader
    requires WellFormed(r) && bytes != [] && (r.flag == Unknown ==> |bytes| >= 2)
    requires |bytes| - Open(r, bytes).1 >= Space(Open(r, bytes).0)
  {
    var (r1, used) := Open(r, bytes);
    Store(r1, MessageBody, bytes[used..][..Space(r1)])
  }

  lemma FilledAccounts(r: Reader, bytes: seq<Byte>)
    requires WellFormed(r) && bytes != [] && (r.flag == Unknown ==> |bytes| >= 2)
    requires |bytes| - Open(r, bytes).1 >= Space(Open(r, bytes).0)
    ensures var (r2, tail) := (Filled(r, bytes), bytes[Open(r, bytes).1..][Space(Open(r, bytes).0)..]);
            && |r2.data| < 0x10000 && r2.wpos == |r2.data| && r2.rpos == (if Marked(r) then 2 else 0)
            && |tail| < |bytes| && WellFormed(Reset(r2))
            && Pending(r) + bytes == Header(|r2.data|) + r2.data + tail
  {
    OpenAccounts(r, bytes);
    var (r1, used) := Open(r, bytes);
    FillSplits(r1, bytes[used..]);
  }

  lemma FillSplits(r1: Reader, rest: seq<Byte>)
    requires r1.wpos <= |r1.data| < 0x10000 && |rest| >= Space(r1)
    ensures var r2 := Store(r1, MessageBody, rest[..Space(r1)]);
            && r2.wpos == |r2.data| == |r1.data|
            && Header(|r1.data|) + r1.data[..r1.wpos] + rest == Header(|r2.data|) + r2.data + rest[Space(r1)..]
  {
    var k := Space(r1);
    var r2 := Store(r1, MessageBody, rest[..k]);
    StoreFill(r1, rest[..k]);
    assert r2.data == r1.data[..r1.wpos] + rest[..k];
    assert rest == rest[..k] + rest[k..];
  }

  /** What one packet yields: the messages the stream means, except that a message whose
      length field was cut by a packet boundary loses its first two body bytes. */
  lemma {:induction false} FeedExact(r: Reader, bytes: seq<Byte>)
    requires WellFormed(r)
    ensures FeedMeets(r, Parse(Pending(r) + bytes), Feed(r, bytes).0, Feed(r, bytes).1)
    decreases |bytes|
  {
    if bytes == [] {
      FeedNothing(r);
    } else if r.flag == Unknown && |bytes| < 2 {
      assert Pending(r) + bytes == bytes;
    } else {
      OpenAccounts(r, bytes);
      var (r1, used) := Open(r, bytes);
      if |bytes| - used < Space(r1) {
        FeedShort(r, r1, bytes[used..]);
      } else {
        FilledAccounts(r, bytes);
        FeedUnfolds(r, bytes);
        var r2, tail := Filled(r, bytes), bytes[used..][Space(r1)..];
        FeedExact(Reset(r2), tail);
        assert Pending(Reset(r2)) + tail == tail;
        FeedDone(r, r2, tail, Feed(Reset(r2), tail).0, Feed(Reset(r2), tail).1);
      }
    }
  }

  // ---------- Whole connections ----------

  /** The messages whose length field is cut by the end of some packet: after that packet one
      byte is left over.  A sender or a capture can compute this without running the reader. */
  ghost function Splits(packets: seq<seq<Byte>>): set<nat> {
    if packets == [] then {}
    else
      var p := Parse(Concat(packets));
      Splits(packets[..|packets| - 1]) + if |p.rest| == 1 then {|p.messages|} else {}
  }

  ghost predicate DamagedAt(out: seq<seq<Byte>>, messages: seq<Message>, where: set<nat>) {
    && |out| == |messages|
    && forall j: nat :: j < |out| ==> out[j] == if j in where then Beheaded(messages[j]) else messages[j]
  }

  predicate EndsEmpty(messages: seq<Message>) {
    messages != [] && messages[|messages| - 1] == []
  }

  /** A stream that leaves one byte over right behind an empty message: the reader's buffer has
      no room for that byte. */
  predicate Stashes(p: Parsed) {
    |p.rest| == 1 && EndsEmpty(p.messages)
  }

  function LastZeroed(packet: seq<Byte>): seq<Byte> {
    if packet == [] then [] else packet[..|packet| - 1] + [0]
  }

  /** One packet as the reader takes it, after those before it. */
  function ReadPacket(front: seq<Byte>, packet: seq<Byte>): seq<Byte> {
    if Stashes(Parse(front + packet)) then LastZeroed(packet) else packet
  }

  /** The packets as the reader takes them: a byte it has no room for is read back as zero. */
  function AsRead(packets: seq<seq<Byte>>): (read: seq<seq<Byte>>)
    ensures |read| == |packets|
  {
    if packets == [] then []
    else
      var front := AsRead(packets[..|packets| - 1]);
      front + [ReadPacket(Concat(front), packets[|packets| - 1])]
  }

  lemma AsReadUnfolds(packets: seq<seq<Byte>>)
    requires packets != []
    ensures var (front, last, read) := (AsRead(packets[..|packets| - 1]), packets[|packets| - 1], AsRead(packets));
            && read[..|read| - 1] == front && read[|read| - 1] == ReadPacket(Concat(front), last)
            && Concat(read) == Concat(front) + ReadPacket(Concat(front), last)
  {
    var front, last, read := AsRead(packets[..|packets| - 1]), packets[|packets| - 1], AsRead(packets);
    assert read[..|read| - 1] == front;
  }

  /** The reader against a stream in which these messages had their length field cut. */
  ghost predicate InStep(cut: set<nat>, p: Parsed, r: Reader) {
    && WellFormed(r)
    && Pending(r) == p.rest
    && (Marked(r) <==> |p.messages| in cut)
    && (forall j :: j in cut ==> j <= |p.messages|)
    && (r.flag != MessageBody ==> |r.data| == if p.messages == [] then InitialSize else |p.messages[|p.messages| - 1]|)
  }

  /** A left-over byte can be any byte. */
  lemma RestReplaced(s: seq<Byte>, c: Byte)
    requires |Parse(s).rest| == 1
    ensures |s| > 0 && Parse(s).rest == [s[|s| - 1]]
    ensures Parse(s[..|s| - 1] + [c]) == Parsed(Parse(s).messages, [c])
  {
    ParseExact(s);
    assert s == Frames(Parse(s).messages) + Parse(s).rest;
    assert s[..|s| - 1] == Frames(Parse(s).messages);
    ParseFrames(Parse(s).messages, [c]);
  }

  /** Zeroing the last byte of a packet, seen from the stream. */
  lemma ZeroedStream(front: seq<Byte>, last: seq<Byte>)
    requires last != []
    ensures var s := front + last;
            && s[|s| - 1] == last[|last| - 1]
            && front + LastZeroed(last) == s[..|s| - 1] + [0]
            && (LastZeroed(last) == last <==> last[|last| - 1] == 0)
  {
    assert last == last[..|last| - 1] + [last[|last| - 1]];
    assert LastZeroed(last)[|last| - 1] == 0;
  }

  /** What a packet adds to the stream as it is read. */
  lemma ReadArrival(front: seq<Byte>, last: seq<Byte>)
    ensures var q := Parse(front + last);
            Parse(front + ReadPacket(front, last))
              == Parsed(q.messages, if Stashes(q) && last != [] then [0] else q.rest)
  {
    var s := front + last;
    if Stashes(Parse(s)) && last != [] {
      RestReplaced(s, 0);
      assert front + ReadPacket(front, last) == s[..|s| - 1] + [0] by {
        ZeroedStream(front, last);
      }
    } else {
      assert ReadPacket(front, last) == last;
    }
  }

  lemma DamagedFirst(marked: bool, b: seq<Message>, k: nat)
    requires k < |b|
    ensures |Damaged(marked, b)| == |b|
    ensures Damaged(marked, b)[k] == if k == 0 && marked then Beheaded(b[k]) else b[k]
  {
  }

  lemma DamageJoins(out: seq<seq<Byte>>, a: seq<Message>, b: seq<Message>, before: set<nat>, after: set<nat>,
                    marked: bool)
    requires DamagedAt(out, a, before)
    requires forall j :: j in before ==> j <= |a|
    requires marked <==> |a| in before
    requires before <= after <= before + {|a| + |b|}
    ensures DamagedAt(out + Damaged(marked, b), a + b, after)
  {
    var whole := out + Damaged(marked, b);
    if b != [] {
      DamagedFirst(marked, b, 0);
    }
    forall j: nat | j < |whole| ensures whole[j] == if j in after then Beheaded((a + b)[j]) else (a + b)[j] {
      assert j in after <==> j in before;
      if j >= |a| {
        DamagedFirst(marked, b, j - |a|);
      }
    }
  }

  lemma ReadAppend(front: seq<Byte>, x: seq<Byte>)
    requires x != []
    ensures var p0 := Parse(front);
            var q := Parse(p0.rest + x);
            Arrives(p0, q, Parse(front + ReadPacket(front, x)))
  {
    ParseAppend(front, x);
    ReadArrival(front, x);
  }

  /** A stream that meant `p0` means `p` after a packet that completed `q`. */
  ghost predicate Arrives(p0: Parsed, q: Parsed, p: Parsed) {
    && p.messages == p0.messages + q.messages
    && p.rest == if Stashes(Parsed(p.messages, q.rest)) then [0] else q.rest
  }

  lemma SplitsUnfolds(packets: seq<seq<Byte>>)
    requires packets != []
    ensures Splits(packets) == CutAfter(Splits(packets[..|packets| - 1]), Parse(Concat(packets)))
  {
  }

  function CutAfter(cut: set<nat>, p: Parsed): set<nat> {
    cut + if |p.rest| == 1 then {|p.messages|} else {}
  }

  lemma NothingArrives(cut: set<nat>, p: Parsed, r: Reader, front: seq<Byte>, out: seq<seq<Byte>>)
    requires InStep(cut, p, r)
    ensures CutAfter(cut, p) == cut && out + [] == out && front + ReadPacket(front, []) == front
  {
  }

  lemma Advances(cut: set<nat>, p0: Parsed, r0: Reader, out: seq<seq<Byte>>, q: Parsed, r: Reader,
                 more: seq<seq<Byte>>, p: Parsed)
    requires InStep(cut, p0, r0) && FeedMeets(r0, q, r, more) && Arrives(p0, q, p) && DamagedAt(out, p0.messages, cut)
    ensures InStep(CutAfter(cut, p), p, r) && DamagedAt(out + more, p.messages, CutAfter(cut, p))
  {
    MarksAdvance(cut, p0, r0, q, r, more, p);
    DamageJoins(out, p0.messages, q.messages, cut, CutAfter(cut, p), Marked(r0));
  }

  lemma MarksAdvance(cut: set<nat>, p0: Parsed, r0: Reader, q: Parsed, r: Reader, more: seq<seq<Byte>>, p: Parsed)
    requires InStep(cut, p0, r0) && FeedMeets(r0, q, r, more) && Arrives(p0, q, p)
    ensures InStep(CutAfter(cut, p), p, r)
  {
    assert r.flag != MessageBody ==> |r.data| == if p.messages == [] then InitialSize
        else |p.messages[|p.messages| - 1]|;
    assert StashLost(r) <==> Stashes(Parsed(p.messages, q.rest));
  }

  /** One packet keeps the reader in step with the stream as read. */
  lemma StreamAdvances(front: seq<Byte>, cut: set<nat>, x: seq<Byte>, r0: Reader, out: seq<seq<Byte>>)
    requires InStep(cut, Parse(front), r0) && DamagedAt(out, Parse(front).messages, cut)
    ensures var p := Parse(front + ReadPacket(front, x));
            var (r, more) := Feed(r0, x);
            InStep(CutAfter(cut, p), p, r) && DamagedAt(out + more, p.messages, CutAfter(cut, p))
  {
    var p0 := Parse(front);
    if x == [] {
      NothingArrives(cut, p0, r0, front, out);
    } else {
      var (r, more) := Feed(r0, x);
      ReadAppend(front, x);
      FeedExact(r0, x);
      Advances(cut, p0, r0, out, Parse(p0.rest + x), r, more, Parse(front + ReadPacket(front, x)));
    }
  }

  /** For every division of every stream into packets: the reader hands over one message for each
      message of the stream as read, and beheads exactly those whose length field was cut. */
  lemma {:induction false} StreamExact(packets: seq<seq<Byte>>)
    ensures DamagedAt(FeedAll(packets).1, Parse(Concat(AsRead(packets))).messages, Splits(AsRead(packets)))
    ensures InStep(Splits(AsRead(packets)), Parse(Concat(AsRead(packets))), FeedAll(packets).0)
  {
    if packets != [] {
      var ps, x := packets[..|packets| - 1], packets[|packets| - 1];
      StreamExact(ps);
      AsReadUnfolds(packets);
      SplitsUnfolds(AsRead(packets));
      StreamAdvances(Concat(AsRead(ps)), Splits(AsRead(ps)), x, FeedAll(ps).0, FeedAll(ps).1);
    }
  }

  // ---------- When reassembly is right ----------

  /** No complete message with a body had its length field cut. */
  ghost predicate Harmless(cut: set<nat>, ms: seq<Message>) {
    forall j :: j in cut && j < |ms| ==> ms[j] == []
  }

  lemma UndamagedIff(out: seq<seq<Byte>>, ms: seq<Message>, cut: set<nat>)
    requires DamagedAt(out, ms, cut)
    ensures out == ms <==> Harmless(cut, ms)
  {
    if !Harmless(cut, ms) {
      var j :| j in cut && j < |ms| && ms[j] != [];
      assert |out[j]| < |ms[j]|;
    }
  }

  /** Every byte left over right behind an empty message is zero, as it is for all messages
      shorter than 254 bytes; in particular this holds when no message behind an empty one is
      cut. */
  ghost predicate StashesZero(packets: seq<seq<Byte>>) {
    forall k :: 0 <= k <= |packets| && Stashes(Parse(Concat(packets[..k]))) ==> Parse(Concat(packets[..k])).rest == [0]
  }

  lemma StashesZeroFront(packets: seq<seq<Byte>>)
    requires packets != []
    ensures var front := packets[..|packets| - 1];
            StashesZero(packets) <==>
              StashesZero(front) && (Stashes(Parse(Concat(packets))) ==> Parse(Concat(packets)).rest == [0])
  {
    var front := packets[..|packets| - 1];
    assert packets[..|packets|] == packets;
    forall k | 0 <= k <= |front| ensures front[..k] == packets[..k] {
    }
  }

  lemma ReadPacketSame(front: seq<Byte>, last: seq<Byte>)
    requires last != []
    ensures ReadPacket(front, last) == last <==> (Stashes(Parse(front + last)) ==> Parse(front + last).rest == [0])
    ensures ReadPacket(front, last) != last ==> last[|last| - 1] != 0
  {
    ZeroedStream(front, last);
    if Stashes(Parse(front + last)) {
      RestReplaced(front + last, 0);
    }
  }

  lemma ReadSameUnfolds(packets: seq<seq<Byte>>)
    requires packets != []
    ensures var front, last := packets[..|packets| - 1], packets[|packets| - 1];
            AsRead(packets) == packets <==> AsRead(front) == front && ReadPacket(Concat(AsRead(front)), last) == last
  {
    var front, last := packets[..|packets| - 1], packets[|packets| - 1];
    assert packets == front + [last];
    AsReadUnfolds(packets);
  }

  /** An empty packet stashes nothing new. */
  lemma StashesZeroUnfolds(packets: seq<seq<Byte>>)
    requires packets != []
    ensures var front, last := packets[..|packets| - 1], packets[|packets| - 1];
            StashesZero(packets) <==> StashesZero(front) && (last != [] ==> ReadPacket(Concat(front), last) == last)
  {
    var front, last := packets[..|packets| - 1], packets[|packets| - 1];
    StashesZeroFront(packets);
    if last == [] {
      assert Concat(packets) == Concat(front) && front[..|front|] == front;
    } else {
      ReadPacketSame(Concat(front), last);
    }
  }

  /** The stream is read as it is exactly when those bytes are zero. */
  lemma {:induction false} ReadAsIsIff(packets: seq<seq<Byte>>)
    ensures AsRead(packets) == packets <==> StashesZero(packets)
  {
    if packets != [] {
      ReadAsIsIff(packets[..|packets| - 1]);
      ReadSameUnfolds(packets);
      StashesZeroUnfolds(packets);
    }
  }

  lemma FramedPrefix(bodies: seq<Message>, s: seq<Byte>)
    ensures Parse(Frames(bodies) + s) == Parsed(bodies + Parse(s).messages, Parse(s).rest)
  {
    ParseAppend(Frames(bodies), s);
    ParseFrames(bodies, []);
    assert Frames(bodies) + [] == Frames(bodies) && [] + s == s;
  }

  /** A length field that starts with zero leaves no single byte over. */
  lemma ZeroLength(c: Byte)
    ensures |Parse([0, c]).rest| != 1
  {
    assert BodySize(0, c) == 0 ==> Parse([0, c]) == Parsed([[]], []) by {
      assert [0, c][2..2] == [];
    }
  }

  /** Two streams that agree up to the first byte of a length, which is `hi` in one and zero in the
      other, and in the second byte of that length. */
  ghost predicate PartAt(s: seq<Byte>, s': seq<Byte>, bodies: seq<Message>, hi: Byte, tail: seq<Byte>,
                         tail': seq<Byte>) {
    && s == Frames(bodies) + ([hi] + tail)
    && s' == Frames(bodies) + ([0] + tail')
    && hi != 0 && |tail| == |tail'| && (tail != [] ==> tail[0] == tail'[0])
  }

  lemma PartFurther(s: seq<Byte>, s': seq<Byte>, bodies: seq<Message>, hi: Byte, tail: seq<Byte>, tail': seq<Byte>,
                    last: seq<Byte>)
    requires PartAt(s, s', bodies, hi, tail, tail')
    ensures PartAt(s + last, s' + ReadPacket(s', last), bodies, hi, tail + last, tail' + ReadPacket(s', last))
  {
    var last' := ReadPacket(s', last);
    Assoc(Frames(bodies), [hi] + tail, last);
    Assoc(Frames(bodies), [0] + tail', last');
    Assoc([hi], tail, last);
    Assoc([0], tail', last');
    if tail == [] && |last| == 1 {
      assert s' + last == Frames(bodies) + [0, last[0]];
      FramedPrefix(bodies, [0, last[0]]);
      ZeroLength(last[0]);
    }
  }

  lemma LeftOver(s: seq<Byte>)
    requires |Parse(s).rest| == 1
    ensures |s| > 0 && s == Frames(Parse(s).messages) + [s[|s| - 1]] && s[..|s| - 1] == Frames(Parse(s).messages)
  {
    RestReplaced(s, 0);
    ParseExact(s);
  }

  lemma PartStart(s: seq<Byte>, s': seq<Byte>, bodies: seq<Message>, hi: Byte)
    requires s == Frames(bodies) + [hi] && s' == Frames(bodies) + [0] && hi != 0
    ensures PartAt(s, s', bodies, hi, [], [])
  {
    assert [hi] + [] == [hi] && [0] + [] == [0];
  }

  lemma PartHere(s: seq<Byte>, last: seq<Byte>)
    requires ReadPacket(s, last) != last
    ensures var m := Parse(s + last).messages;
            PartAt(s + last, s + ReadPacket(s, last), m, last[|last| - 1], [], [])
  {
    var all, hi, m := s + last, last[|last| - 1], Parse(s + last).messages;
    ZeroedStream(s, last);
    LeftOver(all);
    ReadPacketSame(s, last);
    PartStart(all, s + ReadPacket(s, last), m, hi);
  }

  /** Where the stream as read first differs from the stream: in the first byte of a length. */
  lemma {:induction false} FirstDifference(packets: seq<seq<Byte>>)
    returns (bodies: seq<Message>, hi: Byte, tail: seq<Byte>, tail': seq<Byte>)
    requires AsRead(packets) != packets
    ensures PartAt(Concat(packets), Concat(AsRead(packets)), bodies, hi, tail, tail')
  {
    var ps, last := packets[..|packets| - 1], packets[|packets| - 1];
    var s, s' := Concat(ps), Concat(AsRead(ps));
    AsReadUnfolds(packets);
    if AsRead(ps) != ps {
      bodies, hi, tail, tail' := FirstDifference(ps);
      PartFurther(s, s', bodies, hi, tail, tail', last);
      tail, tail' := tail + last, tail' + ReadPacket(s', last);
    } else {
      ReadSameUnfolds(packets);
      PartHere(s, last);
      bodies, hi, tail, tail' := Parse(s + last).messages, last[|last| - 1], [], [];
    }
  }

  lemma SizesDiffer(hi: Byte, lo: Byte)
    requires hi != 0
    ensures var (n, n') := (BodySize(hi, lo), BodySize(0, lo));
            n != 0 && n != n' && n + 2 != n'
  {
  }

  lemma FirstSize(s: seq<Byte>)
    requires Parse(s).messages != []
    ensures |s| >= 2 && |Parse(s).messages[0]| == BodySize(s[0], s[1])
  {
  }

  /** With `a` and `b` behind the same messages, nothing handed over for the second is the first. */
  lemma SizesTell(bodies: seq<Message>, a: seq<Message>, b: seq<Message>, out: seq<seq<Byte>>, cut: set<nat>,
                  hi: Byte, lo: Byte)
    requires DamagedAt(out, bodies + b, cut) && hi != 0
    requires a != [] ==> |a[0]| == BodySize(hi, lo)
    requires b != [] ==> |b[0]| == BodySize(0, lo)
    ensures a != [] || b != [] ==> out != bodies + a
  {
    var j := |bodies|;
    if a != [] && b != [] {
      SizesDiffer(hi, lo);
      assert (bodies + a)[j] == a[0] && (bodies + b)[j] == b[0];
      assert |out[j]| != |a[0]|;
    }
  }

  /** A length misread desynchronises: as soon as the message it belongs to, or the one the
      reader takes it for, is complete, what is handed over is wrong. */
  lemma Desynchronises(packets: seq<seq<Byte>>) returns (bodies: seq<Message>)
    requires AsRead(packets) != packets
    ensures var (ms, rs) := (Parse(Concat(packets)).messages, Parse(Concat(AsRead(packets))).messages);
            && bodies <= ms && bodies <= rs
            && (|bodies| < |ms| || |bodies| < |rs| ==> FeedAll(packets).1 != ms)
  {
    var hi, tail, tail';
    bodies, hi, tail, tail' := FirstDifference(packets);
    var s, s' := [hi] + tail, [0] + tail';
    FramedPrefix(bodies, s);
    FramedPrefix(bodies, s');
    StreamExact(packets);
    if Parse(s).messages != [] {
      FirstSize(s);
    }
    if Parse(s').messages != [] {
      FirstSize(s');
    }
    SizesTell(bodies, Parse(s).messages, Parse(s').messages, FeedAll(packets).1, Splits(AsRead(packets)), hi,
      if tail == [] then 0 else tail[0]);
  }

  /** For every stream and every division into packets, reassembly is right exactly when the stream
      as read means the same and no complete message with a body had its length field cut. */
  lemma ReassemblyRightIff(packets: seq<seq<Byte>>)
    ensures var (ms, read) := (Parse(Concat(packets)).messages, AsRead(packets));
            FeedAll(packets).1 == ms <==> Parse(Concat(read)).messages == ms && Harmless(Splits(read), ms)
  {
    var ms, rs := Parse(Concat(packets)).messages, Parse(Concat(AsRead(packets))).messages;
    StreamExact(packets);
    UndamagedIff(FeedAll(packets).1, rs, Splits(AsRead(packets)));
    if AsRead(packets) != packets {
      var bodies := Desynchronises(packets);
      if |ms| == |rs| == |bodies| {
        assert ms == bodies == rs;
      }
    }
  }

  /** Without a non-zero byte left over behind an empty message, only cut length fields matter. */
  lemma CutsAloneMatter(packets: seq<seq<Byte>>)
    requires StashesZero(packets)
    ensures DamagedAt(FeedAll(packets).1, Parse(Concat(packets)).messages, Splits(packets))
    ensures FeedAll(packets).1 == Parse(Concat(packets)).messages <==>
            Harmless(Splits(packets), Parse(Concat(packets)).messages)
  {
    ReadAsIsIff(packets);
    StreamExact(packets);
    ReassemblyRightIff(packets);
  }

  lemma {:induction false} UncutIsRead(packets: seq<seq<Byte>>)
    requires Splits(packets) == {}
    ensures AsRead(packets) == packets
  {
    if packets != [] {
      var front := packets[..|packets| - 1];
      UncutIsRead(front);
      assert packets == front + [packets[|packets| - 1]];
    }
  }

  /** With no cut length field the packets do not matter at all, empty bodies included. */
  lemma ReassemblyRight(packets: seq<seq<Byte>>)
    requires packets != [] ==> Splits(packets[..|packets| - 1]) == {}
    ensures FeedAll(packets).1 == Parse(Concat(packets)).messages
  {
    if packets != [] {
      var front := packets[..|packets| - 1];
      UncutIsRead(front);
      AsReadUnfolds(packets);
      ReadArrival(Concat(front), packets[|packets| - 1]);
    }
    StreamExact(packets);
    UndamagedIff(FeedAll(packets).1, Parse(Concat(AsRead(packets))).messages, Splits(AsRead(packets)));
  }

  lemma JoinAssoc(a: seq<seq<Byte>>, b: seq<seq<Byte>>, c: seq<seq<Byte>>)
    ensures a + b + c == a + (b + c)
  {
  }

  lemma FeedAllUnfolds(packets: seq<seq<Byte>>, last: seq<Byte>)
    ensures var (r, out) := FeedAll(packets);
            FeedAll(packets + [last]) == (Feed(r, last).0, out + Feed(r, last).1)
  {
    assert (packets + [last])[..|packets|] == packets;
  }

  lemma FeedWindowUnfolds(r: Reader, window: seq<seq<Byte>>, last: seq<Byte>)
    requires WellFormed(r)
    ensures var (r1, out) := FeedWindow(r, window);
            FeedWindow(r, window + [last]) == (Feed(r1, last).0, out + Feed(r1, last).1)
  {
    assert (window + [last])[..|window|] == window;
  }

  lemma {:induction false} FeedWindowExtends(fed: seq<seq<Byte>>, window: seq<seq<Byte>>)
    ensures var (r, out) := FeedAll(fed);
            var (r', more) := FeedWindow(r, window);
            FeedAll(fed + window) == (r', out + more)
    decreases |window|
  {
    var (r, out) := FeedAll(fed);
    if window == [] {
      assert fed + window == fed && out + [] == out;
    } else {
      var front, last := window[..|window| - 1], window[|window| - 1];
      var (r1, before) := FeedWindow(r, front);
      FeedWindowExtends(fed, front);
      JoinAssoc(fed, front, [last]);
      assert front + [last] == window;
      FeedAllUnfolds(fed + front, last);
      FeedWindowUnfolds(r, front, last);
      JoinAssoc(out, before, Feed(r1, last).1);
    }
  }

  /** A five-byte message cut after its first byte arrives without its first two body bytes. */
  lemma CutLengthField()
    ensures Parse([0] + [5, 7, 8, 9]).messages == [[7, 8, 9]]
    ensures Feed(Feed(Fresh, [0]).0, [5, 7, 8, 9]).1 == [[9]]
  {
    var r := Feed(Fresh, [0]).0;
    assert r.flag == MessageLength && r.data[0] == 0;
    ParseOne([7, 8, 9], []);
    assert Header(3) + [7, 8, 9] + [] == [0] + [5, 7, 8, 9];
    FeedExact(r, [5, 7, 8, 9]);
  }

  /** After an empty message the buffer has no room for the stashed byte: the cut length 0x0103
      is then read as 0x0003, and the reader hands over a message that was never sent. */
  lemma CutAfterEmptyMessage()
    ensures Parse([0, 2, 1, 3, 9]) == Parsed([[]], [1, 3, 9])
    ensures Feed(Feed(Feed(Fresh, [0, 2]).0, [1]).0, [3, 9]).1 == [[]]
  {
    assert Parse([1, 3, 9]) == Parsed([], [1, 3, 9]);
    ParseOne([], [1, 3, 9]);
    assert Header(0) + [] + [1, 3, 9] == [0, 2, 1, 3, 9];
    var r1 := Feed(Fresh, [0, 2]).0;
    FilledAccounts(Fresh, [0, 2]);
    FeedUnfolds(Fresh, [0, 2]);
    var r2 := Filled(Fresh, [0, 2]);
    assert |r2.data| == 0;
    assert Reset(r2) == Reader(Unknown, [], 0, 0) == r1;
    assert Feed(r1, [1]) == (Reader(MessageLength, [], 0, 1), []);
  }
}
