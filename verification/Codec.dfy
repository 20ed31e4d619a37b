/** The byte stream's fixed-width fields, in network byte order. */
module Codec {
  import opened Arithmetic
  import opened Wrappers
  import opened Bytes
  import opened Framing

  datatype Kind = U8 | U16 | U32 | U64 | I8 | I16 | I32 | I64 | Bool | F32 | F64
  {
    function Width(): nat {
      match this
      case U8 => 1 case I8 => 1 case Bool => 1
      case U16 => 2 case I16 => 2
      case U32 => 4 case I32 => 4 case F32 => 4
      case U64 => 8 case I64 => 8 case F64 => 8
    }

    predicate Signed() { I8? || I16? || I32? || I64? }

    /** The 64-bit integers, which the writer squeezes through a 32-bit variable. */
    predicate Squeezed() { U64? || I64? }
  }

  function Pow256(w: nat): (p: nat)
    ensures p > 0
  {
    if w == 0 then 1 else 256 * Pow256(w - 1)
  }

  /** A field with its value; a floating-point value is its bit pattern. */
  datatype Field = Field(kind: Kind, v: int)
  {
    predicate Valid() {
      if kind == Bool then v == 0 || v == 1
      else if kind.Signed() then 0 <= 2 * v + Pow256(kind.Width()) < 2 * Pow256(kind.Width())
      else 0 <= v < Pow256(kind.Width())
    }
  }

  function BigEndian(w: nat, n: nat): (s: seq<Byte>)
    ensures |s| == w
  {
    if w == 0 then [] else BigEndian(w - 1, n / 256) + [n % 256]
  }

  function FromBigEndian(s: seq<Byte>): nat {
    if s == [] then 0 else 256 * FromBigEndian(s[..|s| - 1]) + s[|s| - 1]
  }

  lemma {:induction false} BigEndianRoundTrip(w: nat, n: nat)
    requires n < Pow256(w)
    ensures FromBigEndian(BigEndian(w, n)) == n
    decreases w
  {
    if w > 0 {
      BigEndianRoundTrip(w - 1, n / 256);
      assert BigEndian(w, n)[..w - 1] == BigEndian(w - 1, n / 256);
    }
  }

  /** Two's complement. */
  function Raw(f: Field): (n: int) {
    if f.v < 0 then f.v + Pow256(f.kind.Width()) else f.v
  }

  function Unraw(kind: Kind, n: nat): int {
    if kind == Bool then (if n == 1 then 1 else 0)
    else if kind.Signed() && 2 * n >= Pow256(kind.Width()) then n - Pow256(kind.Width())
    else n
  }

  /** Writing: of a 64-bit integer only the first four bytes of its network form are stored. */
  function Write(f: Field): seq<Byte>
    requires f.Valid()
  {
    var all := BigEndian(f.kind.Width(), Raw(f));
    if f.kind.Squeezed() then all[..4] else all
  }

  /** Reading throws, here None, when fewer bytes are left than the field needs. */
  function Read(kind: Kind, s: seq<Byte>): Option<(Field, seq<Byte>)> {
    if |s| < kind.Width() then None
    else Some((Field(kind, Unraw(kind, FromBigEndian(s[..kind.Width()]))), s[kind.Width()..]))
  }

  lemma {:induction false} BigEndianAt(w: nat, n: nat, i: nat)
    requires i < w
    ensures BigEndian(w, n)[i] == n / Pow256(w - 1 - i) % 256
    decreases w
  {
    if i < w - 1 {
      BigEndianAt(w - 1, n / 256, i);
      DivDiv(n, Pow256(w - 2 - i));
    } else {
      assert Pow256(0) == 1;
    }
  }

  /** What a field puts in the stream: its bytes from the most significant one down, of its value or,
      if that is negative, of its two's complement; eight bytes wide, but for 64-bit integers, of which
      only the upper four are written. */
  lemma {:induction false} WriteIs(f: Field, i: nat)
    requires f.Valid() && i < |Write(f)|
    ensures |Write(f)| == match f.kind
                          case U8 => 1 case I8 => 1 case Bool => 1
                          case U16 => 2 case I16 => 2
                          case U32 => 4 case I32 => 4 case F32 => 4
                          case U64 => 4 case I64 => 4
                          case F64 => 8
    ensures var width := if f.kind == U64 || f.kind == I64 then 8 else |Write(f)|;
            && (f.v >= 0 ==> Write(f)[i] == f.v / Pow256(width - 1 - i) % 256)
            && (f.v < 0 ==>
                  && 0 < f.v + Pow256(width)
                  && Write(f)[i] == (f.v + Pow256(width)) / Pow256(width - 1 - i) % 256)
  {
    RawFits(f);
    BigEndianAt(f.kind.Width(), Raw(f), i);
  }

  predicate AllValid(fs: seq<Field>) {
    forall k :: 0 <= k < |fs| ==> fs[k].Valid()
  }

  function Encode(fs: seq<Field>): seq<Byte>
    requires AllValid(fs)
  {
    if fs == [] then [] else Write(fs[0]) + Encode(fs[1..])
  }

  function Kinds(fs: seq<Field>): seq<Kind> {
    if fs == [] then [] else [fs[0].kind] + Kinds(fs[1..])
  }

  function Decode(kinds: seq<Kind>, s: seq<Byte>): Option<(seq<Field>, seq<Byte>)> {
    if kinds == [] then Some(([], s))
    else
      match Read(kinds[0], s)
      case None => None
      case Some((f, rest)) =>
        match Decode(kinds[1..], rest)
        case None => None
        case Some((fs, end)) => Some(([f] + fs, end))
  }

  lemma RawFits(f: Field)
    requires f.Valid()
    ensures 0 <= Raw(f) < Pow256(f.kind.Width()) && Unraw(f.kind, Raw(f)) == f.v
  {
    assert Pow256(1) == 256 * Pow256(0);
  }

  lemma ReadBack(f: Field, tail: seq<Byte>)
    requires f.Valid() && !f.kind.Squeezed()
    ensures Read(f.kind, Write(f) + tail) == Some((f, tail))
  {
    RawFits(f);
    BigEndianRoundTrip(f.kind.Width(), Raw(f));
    var s := Write(f) + tail;
    assert s[..f.kind.Width()] == Write(f) && s[f.kind.Width()..] == tail;
  }

  lemma {:induction false} FromBigEndianFits(s: seq<Byte>)
    ensures FromBigEndian(s) < Pow256(|s|) && BigEndian(|s|, FromBigEndian(s)) == s
  {
    if s != [] {
      var front, last := s[..|s| - 1], s[|s| - 1];
      FromBigEndianFits(front);
      assert FromBigEndian(s) / 256 == FromBigEndian(front) && FromBigEndian(s) % 256 == last;
      assert s == front + [last];
    }
  }

  lemma {:induction false} UnrawFits(kind: Kind, n: nat, w: nat)
    requires kind != Bool && w == kind.Width() && n < Pow256(w)
    ensures var f := Field(kind, Unraw(kind, n));
            f.Valid() && n == if f.v < 0 then f.v + Pow256(w) else f.v
  {
  }

  lemma {:induction false} ReadField(kind: Kind, bytes: seq<Byte>, tail: seq<Byte>, w: nat)
    requires kind != Bool && w == kind.Width() == |bytes|
    ensures var f := Field(kind, Unraw(kind, FromBigEndian(bytes)));
            && Read(kind, bytes + tail) == Some((f, tail)) && f.Valid()
            && BigEndian(w, if f.v < 0 then f.v + Pow256(w) else f.v) == bytes
  {
    var n, all := FromBigEndian(bytes), bytes + tail;
    FromBigEndianFits(bytes);
    UnrawFits(kind, n, w);
    assert all[..w] == bytes && all[w..] == tail;
  }

  /** Reading any bytes: throws exactly when there are too few, leaves what is behind, and gives the one
      value whose bytes these are. */
  lemma {:induction false} ReadIs(kind: Kind, s: seq<Byte>, w: nat)
    requires kind != Bool && w == kind.Width()
    ensures Read(kind, s) == None <==> |s| < w
    ensures Read(kind, s).Some? ==>
              var (f, rest) := Read(kind, s).value;
              && f.kind == kind && f.Valid() && s == s[..w] + rest
              && BigEndian(w, if f.v < 0 then f.v + Pow256(w) else f.v) == s[..w]
  {
    if |s| >= w {
      ReadField(kind, s[..w], s[w..], w);
      assert s == s[..w] + s[w..];
    }
  }

  /** A truth value is read as true exactly when its byte is one. */
  lemma {:induction false} ReadsTrue(b: Byte, tail: seq<Byte>)
    ensures Read(Bool, [b] + tail) == Some((Field(Bool, if b == 1 then 1 else 0), tail))
  {
    assert ([b] + tail)[..1] == [b] && ([b] + tail)[1..] == tail;
    assert FromBigEndian([b]) == 256 * FromBigEndian([b][..0]) + b;
    assert [b][..0] == [];
  }

  lemma {:induction false} DecodeEncode(fs: seq<Field>, tail: seq<Byte>)
    requires AllValid(fs) && forall k :: 0 <= k < |fs| ==> !fs[k].kind.Squeezed()
    ensures Decode(Kinds(fs), Encode(fs) + tail) == Some((fs, tail))
    decreases |fs|
  {
    if fs == [] {
      assert Encode(fs) + tail == tail;
    } else {
      var rest := Encode(fs[1..]) + tail;
      assert Encode(fs) + tail == Write(fs[0]) + rest;
      ReadBack(fs[0], rest);
      DecodeEncode(fs[1..], tail);
      assert [fs[0]] + fs[1..] == fs;
      assert Kinds(fs)[1..] == Kinds(fs[1..]);
    }
  }

  function Needed(kinds: seq<Kind>): nat {
    if kinds == [] then 0 else kinds[0].Width() + Needed(kinds[1..])
  }

  lemma {:induction false} DecodeNeeds(kinds: seq<Kind>, s: seq<Byte>)
    ensures Decode(kinds, s).Some? ==> |s| >= Needed(kinds)
    decreases |kinds|
  {
    if kinds != [] && Read(kinds[0], s).Some? {
      DecodeNeeds(kinds[1..], Read(kinds[0], s).value.1);
    }
  }

  lemma {:induction false} EncodeLength(fs: seq<Field>)
    requires AllValid(fs)
    ensures |Encode(fs)| <= Needed(Kinds(fs))
    ensures (exists k :: 0 <= k < |fs| && fs[k].kind.Squeezed()) ==> |Encode(fs)| < Needed(Kinds(fs))
    decreases |fs|
  {
    if fs != [] {
      EncodeLength(fs[1..]);
      assert Kinds(fs)[1..] == Kinds(fs[1..]);
      if k :| 0 <= k < |fs| && fs[k].kind.Squeezed() {
        if k > 0 {
          assert fs[1..][k - 1].kind.Squeezed();
        }
      }
    }
  }

  /** A list of fields reads back exactly when it holds no 64-bit integer.  With one, the bytes
      run out and reading throws. */
  lemma RoundTripIff(fs: seq<Field>)
    requires AllValid(fs)
    ensures Decode(Kinds(fs), Encode(fs)) == Some((fs, [])) <==> forall k :: 0 <= k < |fs| ==> !fs[k].kind.Squeezed()
    ensures (exists k :: 0 <= k < |fs| && fs[k].kind.Squeezed()) ==> Decode(Kinds(fs), Encode(fs)) == None
  {
    if forall k :: 0 <= k < |fs| ==> !fs[k].kind.Squeezed() {
      DecodeEncode(fs, []);
      assert Encode(fs) + [] == Encode(fs);
    } else {
      EncodeLength(fs);
      DecodeNeeds(Kinds(fs), Encode(fs));
    }
  }

  /** The length field of a message is a written 16-bit field that counts itself. */
  lemma LengthFieldIsU16(n: nat)
    requires n < 0xFFFE
    ensures Field(U16, n + 2).Valid() && Write(Field(U16, n + 2)) == Header(n)
  {
    var total := n + 2;
    assert Pow256(2) == 256 * Pow256(1) && Pow256(1) == 256 * Pow256(0);
    assert BigEndian(2, total) == BigEndian(1, total / 256) + [total % 256];
    assert BigEndian(1, total / 256) == BigEndian(0, total / 256 / 256) + [total / 256 % 256];
    assert total / 256 % 256 == total / 256;
  }
}
