/** Reading interrupted: a handler that destroys the channel whose messages it is handed. */
module Interruption {
  import opened Wrappers
  import opened Bytes
  import opened Framing
  import opened Reassembly

  /** What became of the channel whose messages were handed over: destroyed by none of its handlers,
      by the handler of a message that ended its packet, or with bytes of the packet still unread. */
  datatype Fate = Spared | EndOfPacket | MidPacket

  /** How far a packet was read. */
  datatype Reading = Reading(reader: Reader, messages: seq<seq<Byte>>, left: seq<Byte>, destroyed: bool)

  function After(message: seq<Byte>, rest: Reading): Reading {
    rest.(messages := [message] + rest.messages)
  }

  /** Counting down to the message whose handler destroys the channel, if there is one. */
  function Minus(kill: Option<nat>, n: nat): Option<nat> {
    if kill.Some? && kill.value >= n then Some(kill.value - n) else None
  }

  /** One packet, up to the message number `kill`. */
  function FeedUntil(r: Reader, bytes: seq<Byte>, kill: Option<nat>): (res: Reading)
    requires WellFormed(r)
    ensures WellFormed(res.reader)
    decreases |bytes|
  {
    if bytes == [] then Reading(r, [], [], false)
    else if r.flag == Unknown && |bytes| < 2 then Reading(Store(r, MessageLength, bytes), [], [], false)
    else
      var (r1, used) := Open(r, bytes);
      var body := bytes[used..];
      if |body| < Space(r1) then Reading(Store(r1, MessageBody, body), [], [], false)
      else
        var r2 := Store(r1, MessageBody, body[..Space(r1)]);
        var tail := body[Space(r1)..];
        if kill == Some(0) then Reading(Reset(r2), [View(r2)], tail, true)
        else After(View(r2), FeedUntil(Reset(r2), tail, Minus(kill, 1)))
  }

  /** How far a window was read: the packets, or parts of packets, that were read, and the bytes
      that were not. */
  datatype WindowReading = WindowReading(
    reader: Reader, messages: seq<seq<Byte>>, fed: seq<seq<Byte>>, left: seq<Byte>, fate: Fate)

  /** processPackets up to the message number `kill`, whose handler destroys the channel: the
      packets behind its own are dropped, and reading goes on only if it ended its packet. */
  function ReadWindow(r: Reader, window: seq<seq<Byte>>, kill: Option<nat>): (res: WindowReading)
    requires WellFormed(r)
    ensures WellFormed(res.reader)
    decreases |window|
  {
    if window == [] then WindowReading(r, [], [], [], Spared)
    else
      var x := window[0];
      var d := FeedUntil(r, x, kill);
      if d.destroyed then
        WindowReading(d.reader, d.messages, [ReadPart(x, d.left)], d.left + Concat(window[1..]),
                      if d.left == [] then EndOfPacket else MidPacket)
      else
        var v := ReadWindow(d.reader, window[1..], Minus(kill, |d.messages|));
        v.(messages := d.messages + v.messages, fed := [x] + v.fed)
  }

  /** The packet up to where it was read. */
  function ReadPart(bytes: seq<Byte>, left: seq<Byte>): seq<Byte> {
    if |left| <= |bytes| then bytes[..|bytes| - |left|] else []
  }

  /** A reading against the undisturbed one of the packet, and that of the part that was read. */
  ghost predicate CutAgainst(whole: (Reader, seq<seq<Byte>>), part: (Reader, seq<seq<Byte>>),
                             bytes: seq<Byte>, kill: Option<nat>, d: Reading)
  {
    && (d.destroyed <==> kill.Some? && kill.value < |whole.1|)
    && (!d.destroyed ==> d == Reading(whole.0, whole.1, [], false))
    && (d.destroyed ==>
          && d.messages == whole.1[..kill.value + 1]
          && |d.left| < |bytes|
          && d.left == bytes[|bytes| - |d.left|..]
          && part == (d.reader, d.messages)
          && (d.left == [] <==> kill.value + 1 == |whole.1| && whole.0.flag == Unknown))
  }

  ghost predicate CutShort(r: Reader, bytes: seq<Byte>, kill: Option<nat>, d: Reading)
    requires WellFormed(r)
  {
    CutAgainst(Feed(r, bytes), Feed(r, ReadPart(bytes, d.left)), bytes, kill, d)
  }

  lemma {:induction false} FeedUntilStops(r: Reader, bytes: seq<Byte>, kill: Option<nat>)
    requires WellFormed(r) && bytes != [] && (r.flag == Unknown ==> |bytes| >= 2)
    requires |bytes| - Open(r, bytes).1 < Space(Open(r, bytes).0)
    ensures var (r1, used) := Open(r, bytes);
            FeedUntil(r, bytes, kill) == Reading(Store(r1, MessageBody, bytes[used..]), [], [], false)
  {
  }

  lemma {:induction false} OpenPrefix(r: Reader, bytes: seq<Byte>, n: nat)
    requires WellFormed(r) && bytes != [] && (r.flag == Unknown ==> |bytes| >= 2)
    requires Open(r, bytes).1 + Space(Open(r, bytes).0) <= n <= |bytes|
    ensures n > 0 && (r.flag == Unknown ==> n >= 2) && Open(r, bytes[..n]) == Open(r, bytes)
  {
  }

  lemma {:induction false} Slices(bytes: seq<Byte>, used: nat, n: nat, m: nat)
    requires used + n + m <= |bytes|
    ensures bytes[..|bytes| - m][used..][..n] == bytes[used..][..n]
    ensures bytes[..|bytes| - m][used..][n..] == bytes[used..][n..][..|bytes| - used - n - m]
    ensures bytes[|bytes| - m..] == bytes[used..][n..][|bytes| - used - n - m..]
  {
  }

  /** What a packet holds behind the body it completes. */
  function Behind(r: Reader, bytes: seq<Byte>): seq<Byte>
    requires WellFormed(r) && bytes != [] && (r.flag == Unknown ==> |bytes| >= 2)
    requires |bytes| - Open(r, bytes).1 >= Space(Open(r, bytes).0)
  {
    bytes[Open(r, bytes).1..][Space(Open(r, bytes).0)..]
  }

  lemma {:induction false} FeedFilled(r: Reader, bytes: seq<Byte>)
    requires WellFormed(r) && bytes != [] && (r.flag == Unknown ==> |bytes| >= 2)
    requires |bytes| - Open(r, bytes).1 >= Space(Open(r, bytes).0)
    ensures WellFormed(Reset(Filled(r, bytes)))
    ensures Feed(r, bytes) == Handing(Filled(r, bytes), Behind(r, bytes))
  {
    FeedUnfolds(r, bytes);
  }

  /** Handing over a complete message and reading on. */
  function Handing(r: Reader, tail: seq<Byte>): (Reader, seq<seq<Byte>>)
    requires WellFormed(Reset(r))
  {
    (Feed(Reset(r), tail).0, [View(r)] + Feed(Reset(r), tail).1)
  }

  lemma {:induction false} FilledPrefix(r: Reader, bytes: seq<Byte>, m: nat)
    requires WellFormed(r) && bytes != [] && (r.flag == Unknown ==> |bytes| >= 2)
    requires |bytes| - Open(r, bytes).1 >= Space(Open(r, bytes).0)
    requires m <= |bytes| - Open(r, bytes).1 - Space(Open(r, bytes).0)
    ensures var front := bytes[..|bytes| - m];
            && front != [] && (r.flag == Unknown ==> |front| >= 2)
            && Open(r, front) == Open(r, bytes)
            && |front| - Open(r, front).1 >= Space(Open(r, front).0)
            && Filled(r, front) == Filled(r, bytes)
            && Behind(r, front) == Behind(r, bytes)[..|Behind(r, bytes)| - m]
            && bytes[|bytes| - m..] == Behind(r, bytes)[|Behind(r, bytes)| - m..]
  {
    OpenPrefix(r, bytes, |bytes| - m);
    SameFill(r, bytes, bytes[..|bytes| - m], m);
  }

  lemma {:induction false} SameFill(r: Reader, bytes: seq<Byte>, front: seq<Byte>, m: nat)
    requires WellFormed(r) && bytes != [] && (r.flag == Unknown ==> |bytes| >= 2)
    requires front != [] && (r.flag == Unknown ==> |front| >= 2)
    requires m + Open(r, bytes).1 + Space(Open(r, bytes).0) <= |bytes| && front == bytes[..|bytes| - m]
    requires Open(r, front) == Open(r, bytes)
    ensures Filled(r, front) == Filled(r, bytes)
    ensures Behind(r, front) == Behind(r, bytes)[..|Behind(r, bytes)| - m]
    ensures bytes[|bytes| - m..] == Behind(r, bytes)[|Behind(r, bytes)| - m..]
  {
    Slices(bytes, Open(r, bytes).1, Space(Open(r, bytes).0), m);
  }

  /** A message needs no more of its packet than its own bytes. */
  lemma {:induction false} FeedPrefix(r: Reader, bytes: seq<Byte>, m: nat)
    requires WellFormed(r) && bytes != [] && (r.flag == Unknown ==> |bytes| >= 2)
    requires |bytes| - Open(r, bytes).1 >= Space(Open(r, bytes).0)
    requires m <= |Behind(r, bytes)|
    ensures WellFormed(Reset(Filled(r, bytes)))
    ensures var tail := Behind(r, bytes);
            && Feed(r, bytes[..|bytes| - m]) == Handing(Filled(r, bytes), tail[..|tail| - m])
            && bytes[|bytes| - m..] == tail[|tail| - m..]
  {
    FilledPrefix(r, bytes, m);
    FeedFilled(r, bytes[..|bytes| - m]);
  }

  lemma {:induction false} NothingReadOpens(r: Reader, bytes: seq<Byte>)
    requires WellFormed(r) && Feed(r, bytes).1 == [] && Feed(r, bytes).0.flag == Unknown
    ensures bytes == []
  {
  }

  lemma {:induction false} FeedUntilUnfolds(r: Reader, bytes: seq<Byte>, kill: Option<nat>)
    requires WellFormed(r) && bytes != [] && (r.flag == Unknown ==> |bytes| >= 2)
    requires |bytes| - Open(r, bytes).1 >= Space(Open(r, bytes).0)
    ensures var r2, tail := Filled(r, bytes), Behind(r, bytes);
            && WellFormed(Reset(r2))
            && FeedUntil(r, bytes, kill) ==
                 if kill == Some(0) then Reading(Reset(r2), [View(r2)], tail, true)
                 else After(View(r2), FeedUntil(Reset(r2), tail, Minus(kill, 1)))
  {
  }

  lemma {:induction false} CutShortNow(r: Reader, bytes: seq<Byte>, r2: Reader, tail: seq<Byte>)
    requires WellFormed(r) && Completing(r, bytes, r2, tail, tail)
    ensures CutShort(r, bytes, Some(0), Reading(Reset(r2), [View(r2)], tail, true))
  {
    assert ReadPart(tail, tail) == [] && tail[|tail| - |tail|..] == tail;
    assert [View(r2)] + [] == [View(r2)];
    TakeAfter(View(r2), Feed(Reset(r2), tail).1, 0);
    if Feed(Reset(r2), tail).1 == [] && Feed(Reset(r2), tail).0.flag == Unknown {
      NothingReadOpens(Reset(r2), tail);
    }
  }

  /** The packet completes a body of `r2`, and reading the rest is cut short at `left`. */
  ghost predicate Completing(r: Reader, bytes: seq<Byte>, r2: Reader, tail: seq<Byte>, left: seq<Byte>)
    requires WellFormed(r)
  {
    && WellFormed(Reset(r2)) && |tail| < |bytes|
    && Feed(r, bytes) == Handing(r2, tail)
    && (|left| <= |tail| ==>
          && Feed(r, ReadPart(bytes, left)) == Handing(r2, ReadPart(tail, left))
          && bytes[|bytes| - |left|..] == tail[|tail| - |left|..])
  }

  lemma {:induction false} BehindShorter(r: Reader, bytes: seq<Byte>)
    requires WellFormed(r) && bytes != [] && (r.flag == Unknown ==> |bytes| >= 2)
    requires |bytes| - Open(r, bytes).1 >= Space(Open(r, bytes).0)
    ensures |Behind(r, bytes)| < |bytes|
  {
    assert Space(Open(r, bytes).0) == 0 ==> Open(r, bytes).1 > 0;
  }

  lemma {:induction false} Completes(r: Reader, bytes: seq<Byte>, left: seq<Byte>)
    requires WellFormed(r) && bytes != [] && (r.flag == Unknown ==> |bytes| >= 2)
    requires |bytes| - Open(r, bytes).1 >= Space(Open(r, bytes).0)
    ensures Completing(r, bytes, Filled(r, bytes), Behind(r, bytes), left)
  {
    BehindShorter(r, bytes);
    FeedFilled(r, bytes);
    if |left| <= |Behind(r, bytes)| {
      FeedPrefix(r, bytes, |left|);
    }
  }

  lemma {:induction false} CutShortLater(r: Reader, bytes: seq<Byte>, r2: Reader, tail: seq<Byte>, kill: Option<nat>,
                                         e: Reading)
    requires WellFormed(r) && Completing(r, bytes, r2, tail, e.left) && kill != Some(0)
    requires CutShort(Reset(r2), tail, Minus(kill, 1), e)
    ensures CutShort(r, bytes, kill, After(View(r2), e))
  {
    CutBehind(View(r2), Feed(Reset(r2), tail), Feed(Reset(r2), ReadPart(tail, e.left)), tail, bytes, kill, e,
              Feed(r, ReadPart(bytes, e.left)));
  }

  /** One message more in front. */
  lemma {:induction false} CutBehind(m: seq<Byte>, whole: (Reader, seq<seq<Byte>>), part: (Reader, seq<seq<Byte>>),
                                     tail: seq<Byte>,
                  bytes: seq<Byte>, kill: Option<nat>, e: Reading, part': (Reader, seq<seq<Byte>>))
    requires CutAgainst(whole, part, tail, Minus(kill, 1), e) && kill != Some(0) && |tail| < |bytes|
    requires |e.left| <= |tail| ==>
               bytes[|bytes| - |e.left|..] == tail[|tail| - |e.left|..] && part' == (part.0, [m] + part.1)
    ensures CutAgainst((whole.0, [m] + whole.1), part', bytes, kill, After(m, e))
  {
    if e.destroyed {
      TakeAfter(m, whole.1, kill.value);
    }
  }

  lemma {:induction false} TakeAfter(m: seq<Byte>, all: seq<seq<Byte>>, k: nat)
    requires k <= |all|
    ensures ([m] + all)[..k + 1] == [m] + all[..k]
  {
  }

  /** Reading up to a message agrees with the undisturbed reading so far, and ends a packet exactly
      when that has no message behind it and is inside none. */
  lemma {:induction false} FeedUntilIs(r: Reader, bytes: seq<Byte>, kill: Option<nat>)
    requires WellFormed(r)
    ensures CutShort(r, bytes, kill, FeedUntil(r, bytes, kill))
    decreases |bytes|
  {
    if bytes != [] && !(r.flag == Unknown && |bytes| < 2) {
      if |bytes| - Open(r, bytes).1 < Space(Open(r, bytes).0) {
        FeedStops(r, bytes);
        FeedUntilStops(r, bytes, kill);
      } else {
        var r2, tail := Filled(r, bytes), Behind(r, bytes);
        FeedUntilUnfolds(r, bytes, kill);
        if kill == Some(0) {
          Completes(r, bytes, tail);
          CutShortNow(r, bytes, r2, tail);
        } else {
          Completes(r, bytes, []);
          var e := FeedUntil(Reset(r2), tail, Minus(kill, 1));
          FeedUntilIs(Reset(r2), tail, Minus(kill, 1));
          Completes(r, bytes, e.left);
          CutShortLater(r, bytes, r2, tail, kill, e);
        }
      }
    }
  }

  // ---------- Windows ----------

  lemma {:induction false} FeedWindowFront(r: Reader, x: seq<Byte>, rest: seq<seq<Byte>>)
    requires WellFormed(r)
    ensures var (r1, out) := Feed(r, x);
            var (r2, more) := FeedWindow(r1, rest);
            FeedWindow(r, [x] + rest) == (r2, out + more)
    decreases |rest|
  {
    var (r1, out) := Feed(r, x);
    if rest == [] {
      FeedWindowUnfolds(r, [], x);
      assert [] + [x] == [x] + rest && [] + out == out && out + [] == out;
    } else {
      var front, last := rest[..|rest| - 1], rest[|rest| - 1];
      var (r2, more) := FeedWindow(r1, front);
      FeedWindowFront(r, x, front);
      JoinAssoc([x], front, [last]);
      assert front + [last] == rest;
      FeedWindowUnfolds(r, [x] + front, last);
      FeedWindowUnfolds(r1, front, last);
      JoinAssoc(out, more, Feed(r2, last).1);
    }
  }

  ghost predicate ReadOut(all: (Reader, seq<seq<Byte>>), window: seq<seq<Byte>>, kill: Option<nat>, v: WindowReading) {
    && (v.fate == Spared <==> !(kill.Some? && kill.value < |all.1|))
    && (v.fate == Spared ==> v == WindowReading(all.0, all.1, window, [], Spared))
    && (v.fate != Spared ==> v.messages == all.1[..kill.value + 1])
  }

  /** A window reading against the undisturbed reading of the window. */
  ghost predicate WindowCutShort(r: Reader, window: seq<seq<Byte>>, kill: Option<nat>, v: WindowReading)
    requires WellFormed(r)
  {
    && ReadOut(FeedWindow(r, window), window, kill, v)
    && FeedWindow(r, v.fed) == (v.reader, v.messages)
    && Concat(v.fed) + v.left == Concat(window)
    && Parts(v.fed, window)
  }

  /** Packets of a window from the front, the last one perhaps in part. */
  ghost predicate Parts(fed: seq<seq<Byte>>, window: seq<seq<Byte>>) {
    && |fed| <= |window|
    && forall j :: 0 <= j < |fed| ==> fed[j] <= window[j] && (window[j] != [] ==> fed[j] != [])
  }

  lemma {:induction false} ConcatFront(x: seq<Byte>, rest: seq<seq<Byte>>)
    ensures Concat([x] + rest) == x + Concat(rest)
  {
    ConcatJoin([x], rest);
    ConcatAppend([], x);
    assert [] + [x] == [x] && [] + x == x;
  }

  lemma {:induction false} CutHere(r: Reader, x: seq<Byte>, rest: seq<seq<Byte>>, kill: Option<nat>, d: Reading,
                                   v: WindowReading)
    requires WellFormed(r) && CutShort(r, x, kill, d) && d.destroyed
    requires v == WindowReading(d.reader, d.messages, [ReadPart(x, d.left)], d.left + Concat(rest),
                                if d.left == [] then EndOfPacket else MidPacket)
    ensures WindowCutShort(r, [x] + rest, kill, v)
  {
    var part := ReadPart(x, d.left);
    var (r1, all) := Feed(r, x);
    FeedWindowFront(r, x, rest);
    FeedWindowFront(r, part, []);
    ConcatFront(x, rest);
    ConcatFront(part, []);
    assert [part] + [] == [part] && d.messages + [] == d.messages && part + [] == part;
    assert part + d.left == x;
    Assoc(part, d.left, Concat(rest));
    assert (all + FeedWindow(r1, rest).1)[..kill.value + 1] == all[..kill.value + 1];
  }

  lemma {:induction false} CutFurther(r: Reader, x: seq<Byte>, rest: seq<seq<Byte>>, kill: Option<nat>, d: Reading,
                                      v: WindowReading)
    requires WellFormed(r) && CutShort(r, x, kill, d) && !d.destroyed && WellFormed(d.reader)
    requires WindowCutShort(d.reader, rest, Minus(kill, |d.messages|), v)
    ensures WindowCutShort(r, [x] + rest, kill, v.(messages := d.messages + v.messages, fed := [x] + v.fed))
  {
    FeedWindowFront(r, x, rest);
    FeedWindowFront(r, x, v.fed);
    ConcatFront(x, rest);
    ConcatFront(x, v.fed);
    Assoc(x, Concat(v.fed), v.left);
    PartsFront(x, v.fed, rest);
    FurtherOut(FeedWindow(d.reader, rest), d.messages, x, rest, kill, v);
  }

  lemma {:induction false} FurtherOut(all: (Reader, seq<seq<Byte>>), out: seq<seq<Byte>>, x: seq<Byte>,
                                      rest: seq<seq<Byte>>, kill: Option<nat>, v: WindowReading)
    requires !(kill.Some? && kill.value < |out|)
    requires ReadOut(all, rest, Minus(kill, |out|), v)
    ensures ReadOut((all.0, out + all.1), [x] + rest, kill, v.(messages := out + v.messages, fed := [x] + v.fed))
  {
    if v.fate != Spared {
      TakeBehind(out, all.1, kill.value);
    }
  }

  lemma {:induction false} TakeBehind(a: seq<seq<Byte>>, b: seq<seq<Byte>>, k: nat)
    requires |a| <= k < |a| + |b|
    ensures (a + b)[..k + 1] == a + b[..k - |a| + 1]
  {
  }

  lemma {:induction false} PartsFront(x: seq<Byte>, fed: seq<seq<Byte>>, rest: seq<seq<Byte>>)
    requires Parts(fed, rest)
    ensures Parts([x] + fed, [x] + rest)
  {
  }

  /** What a window reading hands over, takes and leaves, for every handler. */
  lemma {:induction false} ReadWindowIs(r: Reader, window: seq<seq<Byte>>, kill: Option<nat>)
    requires WellFormed(r)
    ensures WindowCutShort(r, window, kill, ReadWindow(r, window, kill))
    decreases |window|
  {
    if window != [] {
      var x, rest := window[0], window[1..];
      assert [x] + rest == window;
      var d := FeedUntil(r, x, kill);
      FeedUntilIs(r, x, kill);
      if d.destroyed {
        CutHere(r, x, rest, kill, d, ReadWindow(r, window, kill));
      } else {
        ReadWindowIs(d.reader, rest, Minus(kill, |d.messages|));
        CutFurther(r, x, rest, kill, d, ReadWindow(d.reader, rest, Minus(kill, |d.messages|)));
      }
    }
  }

  // ---------- When reading goes on ----------

  predicate EndsWith(read: (Reader, seq<seq<Byte>>), n: nat) {
    |read.1| == n && read.0.flag == Unknown
  }

  /** After some packet the n-th message has just been handed over and nothing is in progress. */
  predicate EndsFed(packets: seq<seq<Byte>>, n: nat) {
    packets != [] && (EndsWith(FeedAll(packets), n) || EndsFed(packets[..|packets| - 1], n))
  }

  lemma {:induction false} EndsFedAppend(packets: seq<seq<Byte>>, last: seq<Byte>, n: nat)
    ensures EndsFed(packets + [last], n) <==> EndsWith(FeedAll(packets + [last]), n) || EndsFed(packets, n)
  {
    assert (packets + [last])[..|packets|] == packets;
  }

  lemma {:induction false} EndsInReach(packets: seq<seq<Byte>>, n: nat)
    requires EndsFed(packets, n)
    ensures n <= |FeedAll(packets).1|
  {
    if !EndsWith(FeedAll(packets), n) {
      var front, last := packets[..|packets| - 1], packets[|packets| - 1];
      EndsInReach(front, n);
      assert front + [last] == packets;
      FeedAllUnfolds(front, last);
    }
  }

  function FateOf(d: Reading): Fate {
    if !d.destroyed then Spared else if d.left == [] then EndOfPacket else MidPacket
  }

  lemma {:induction false} ReadWindowUnfolds(r: Reader, x: seq<Byte>, rest: seq<seq<Byte>>, kill: Option<nat>)
    requires WellFormed(r)
    ensures var d, v := FeedUntil(r, x, kill), ReadWindow(r, [x] + rest, kill);
            if d.destroyed then v.reader == d.reader && v.messages == d.messages && v.fate == FateOf(d)
            else
              var w := ReadWindow(d.reader, rest, Minus(kill, |d.messages|));
              v == w.(messages := d.messages + w.messages, fed := [x] + w.fed)
  {
    assert ([x] + rest)[1..] == rest;
  }

  /** A fate, given how many messages were handed over before that of the n-th matters. */
  ghost predicate FateFed(fate: Fate, packets: seq<seq<Byte>>, n: nat) {
    && (fate == Spared <==> |FeedAll(packets).1| < n)
    && (fate == EndOfPacket ==> EndsFed(packets, n))
    && (fate == MidPacket ==> !EndsFed(packets, n))
  }

  /** The packet of the window that completes the n-th message ends with it. */
  predicate WindowEndsAt(r: Reader, window: seq<seq<Byte>>, n: nat)
    requires WellFormed(r)
    decreases |window|
  {
    window != [] &&
    var read := Feed(r, window[0]);
    if |read.1| < n then WindowEndsAt(read.0, window[1..], n - |read.1|) else EndsWith(read, n)
  }

  lemma {:induction false} FateByWindow(r: Reader, window: seq<seq<Byte>>, k: nat)
    requires WellFormed(r)
    ensures ReadWindow(r, window, Some(k)).fate == EndOfPacket <==> WindowEndsAt(r, window, k + 1)
    decreases |window|
  {
    if window != [] {
      var d := FeedUntil(r, window[0], Some(k));
      FeedUntilIs(r, window[0], Some(k));
      if !d.destroyed {
        FateByWindow(d.reader, window[1..], k - |d.messages|);
      }
    }
  }

  /** Packets behind the one that completes the n-th message change nothing. */
  lemma {:induction false} EndsOnce(packets: seq<seq<Byte>>, rest: seq<seq<Byte>>, n: nat)
    requires 0 < n <= |FeedAll(packets).1|
    ensures n <= |FeedAll(packets + rest).1| && (EndsFed(packets + rest, n) <==> EndsFed(packets, n))
    decreases |rest|
  {
    if rest == [] {
      assert packets + rest == packets;
    } else {
      var front, last := rest[..|rest| - 1], rest[|rest| - 1];
      EndsOnce(packets, front, n);
      assert packets + rest == packets + front + [last];
      FeedAllUnfolds(packets + front, last);
      EndsAgain(packets + front, last, n);
      EndsFedAppend(packets + front, last, n);
    }
  }

  lemma {:induction false} EndsHere(fed: seq<seq<Byte>>, x: seq<Byte>, rest: seq<seq<Byte>>, n: nat)
    requires |FeedAll(fed).1| < n <= |FeedAll(fed + [x]).1|
    ensures EndsFed(fed + [x] + rest, n) <==> EndsWith(FeedAll(fed + [x]), n)
  {
    EndsOnce(fed + [x], rest, n);
    EndsFedAppend(fed, x, n);
    NotYet(fed, n);
  }

  lemma {:induction false} EndsBehind(r: Reader, before: seq<seq<Byte>>, fed: seq<seq<Byte>>, window: seq<seq<Byte>>,
                                      n: nat)
    requires FeedAll(fed) == (r, before) && |before| < n
    ensures EndsFed(fed + window, n) <==> WindowEndsAt(r, window, n - |before|)
    decreases |window|, 0
  {
    if window == [] {
      assert fed + window == fed;
      NotYet(fed, n);
    } else {
      EndsFirst(r, before, fed, window[0], window[1..], n);
      assert [window[0]] + window[1..] == window && fed + window == fed + [window[0]] + window[1..];
    }
  }

  lemma {:induction false} EndsFirst(r: Reader, before: seq<seq<Byte>>, fed: seq<seq<Byte>>, x: seq<Byte>,
                                     rest: seq<seq<Byte>>, n: nat)
    requires FeedAll(fed) == (r, before) && |before| < n
    ensures EndsFed(fed + [x] + rest, n) <==> WindowEndsAt(r, [x] + rest, n - |before|)
    decreases |rest|, 1
  {
    var (r1, out) := Feed(r, x);
    FeedAllUnfolds(fed, x);
    WindowEndsFirst(r, x, rest, n - |before|);
    if |before + out| < n {
      EndsBehind(r1, before + out, fed + [x], rest, n);
    } else {
      EndsHere(fed, x, rest, n);
      assert EndsWith((r1, before + out), n) <==> EndsWith((r1, out), n - |before|);
    }
  }

  lemma {:induction false} WindowEndsFirst(r: Reader, x: seq<Byte>, rest: seq<seq<Byte>>, m: nat)
    requires WellFormed(r)
    ensures var (r1, out) := Feed(r, x);
            WindowEndsAt(r, [x] + rest, m) <==>
              if |out| < m then WindowEndsAt(r1, rest, m - |out|) else EndsWith((r1, out), m)
  {
    assert ([x] + rest)[1..] == rest;
  }

  lemma {:induction false} SparedIff(r: Reader, before: seq<seq<Byte>>, fed: seq<seq<Byte>>, window: seq<seq<Byte>>,
                                     k: nat)
    requires FeedAll(fed) == (r, before)
    ensures ReadWindow(r, window, Some(k)).fate == Spared <==> |FeedAll(fed + window).1| < |before| + k + 1
  {
    ReadWindowIs(r, window, Some(k));
    FeedWindowExtends(fed, window);
  }

  lemma {:induction false} EndOfPacketIff(r: Reader, before: seq<seq<Byte>>, fed: seq<seq<Byte>>,
                                          window: seq<seq<Byte>>, k: nat)
    requires FeedAll(fed) == (r, before)
    ensures ReadWindow(r, window, Some(k)).fate == EndOfPacket <==> EndsFed(fed + window, |before| + k + 1)
  {
    FateByWindow(r, window, k);
    EndsBehind(r, before, fed, window, |before| + k + 1);
  }

  lemma {:induction false} FateByFed(r: Reader, before: seq<seq<Byte>>, fed: seq<seq<Byte>>, window: seq<seq<Byte>>,
                                     k: nat)
    requires FeedAll(fed) == (r, before)
    ensures FateFed(ReadWindow(r, window, Some(k)).fate, fed + window, |before| + k + 1)
  {
    SparedIff(r, before, fed, window, k);
    EndOfPacketIff(r, before, fed, window, k);
  }

  lemma {:induction false} NotYet(packets: seq<seq<Byte>>, n: nat)
    requires |FeedAll(packets).1| < n
    ensures !EndsFed(packets, n)
  {
    if EndsFed(packets, n) {
      EndsInReach(packets, n);
    }
  }

  lemma {:induction false} EndsAgain(packets: seq<seq<Byte>>, last: seq<Byte>, n: nat)
    requires 0 < n <= |FeedAll(packets).1|
    ensures EndsWith(FeedAll(packets + [last]), n) ==> EndsFed(packets, n)
  {
    FeedAllUnfolds(packets, last);
    if EndsWith(FeedAll(packets + [last]), n) {
      NothingReadOpens(FeedAll(packets).0, last);
    }
  }

  /** The n-th message of the stream as read ends some packet. */
  predicate EndsAPacket(packets: seq<seq<Byte>>, n: nat) {
    packets != [] && (EndsStream(packets, n) || EndsAPacket(packets[..|packets| - 1], n))
  }

  predicate EndsStream(packets: seq<seq<Byte>>, n: nat) {
    var p := Parse(Concat(AsRead(packets)));
    |p.messages| == n && p.rest == []
  }

  lemma {:induction false} EndsAsRead(packets: seq<seq<Byte>>, n: nat)
    ensures EndsStream(packets, n) <==> EndsWith(FeedAll(packets), n)
    ensures |Parse(Concat(AsRead(packets))).messages| == |FeedAll(packets).1|
  {
    StreamExact(packets);
  }

  lemma {:induction false} EndsFedIff(packets: seq<seq<Byte>>, n: nat)
    ensures EndsAPacket(packets, n) <==> EndsFed(packets, n)
  {
    if packets != [] {
      EndsAsRead(packets, n);
      EndsFedIff(packets[..|packets| - 1], n);
    }
  }

  /** The same in terms of the stream as read. */
  ghost predicate FateAsRead(fate: Fate, packets: seq<seq<Byte>>, n: nat) {
    var reached := n <= |Parse(Concat(AsRead(packets))).messages|;
    && (fate == Spared <==> !reached)
    && (fate == MidPacket <==> reached && !EndsAPacket(packets, n))
  }

  lemma {:induction false} FateOfStream(fate: Fate, packets: seq<seq<Byte>>, n: nat)
    requires FateFed(fate, packets, n)
    ensures FateAsRead(fate, packets, n)
  {
    EndsAsRead(packets, n);
    EndsFedIff(packets, n);
  }

  /** The handler of the message number `k` of a window destroys its channel.  That happens exactly
      when the stream as read gets so far, and reading then goes on exactly when the message ends a
      packet; otherwise the reader follows the missing endpoint. */
  lemma {:induction false} FateIff(r: Reader, before: seq<seq<Byte>>, fed: seq<seq<Byte>>, window: seq<seq<Byte>>,
                                   k: nat)
    requires FeedAll(fed) == (r, before)
    ensures FateAsRead(ReadWindow(r, window, Some(k)).fate, fed + window, |before| + k + 1)
  {
    FateByFed(r, before, fed, window, k);
    FateOfStream(ReadWindow(r, window, Some(k)).fate, fed + window, |before| + k + 1);
  }
}
