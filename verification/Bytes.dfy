/** Bytes, byte strings cut into parts, and big-endian numbers. */
module Bytes {

  type Byte = x: int | 0 <= x < 256

  lemma Assoc(a: seq<Byte>, b: seq<Byte>, c: seq<Byte>)
    ensures a + b + c == a + (b + c)
  {
  }

  /** Parts are appended at the end, as packets arrive. */
  function Concat(parts: seq<seq<Byte>>): seq<Byte> {
    if parts == [] then [] else Concat(parts[..|parts| - 1]) + parts[|parts| - 1]
  }

  lemma ConcatAppend(parts: seq<seq<Byte>>, part: seq<Byte>)
    ensures Concat(parts + [part]) == Concat(parts) + part
  {
    assert (parts + [part])[..|parts|] == parts;
  }

  lemma {:induction false} ConcatJoin(a: seq<seq<Byte>>, b: seq<seq<Byte>>)
    ensures Concat(a + b) == Concat(a) + Concat(b)
    decreases |b|
  {
    if b == [] {
      assert a + b == a;
    } else {
      var b', last := b[..|b| - 1], b[|b| - 1];
      var c := a + b';
      ConcatJoin(a, b');
      ConcatAppend(c, last);
      assert a + b == c + [last];
      assert Concat(c + [last]) == Concat(a) + Concat(b') + last;
    }
  }

  /** The buffer after copying `src` to position `pos`.  Bytes that would land beyond the
      buffer's size are not kept. */
  function WriteAt(data: seq<Byte>, pos: nat, src: seq<Byte>): (r: seq<Byte>)
    ensures |r| == |data|
    ensures pos + |src| <= |data| ==> r == data[..pos] + src + data[pos + |src|..]
  {
    if pos + |src| <= |data| then data[..pos] + src + data[pos + |src|..]
    else if pos <= |data| then data[..pos] + src[..|data| - pos]
    else data
  }

  /** A vector resize: truncates, or extends with zeros. */
  function Resize(data: seq<Byte>, n: nat): (r: seq<Byte>)
    ensures |r| == n
    ensures forall i :: 0 <= i < n ==> r[i] == if i < |data| then data[i] else 0
  {
    if n <= |data| then data[..n] else data + seq(n - |data|, _ => 0)
  }
}
