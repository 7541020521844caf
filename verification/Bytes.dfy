/** Byte buffers: little-endian integers, slices and UTF-8. */
module Bytes {
  import opened Words

  // A Rust slice is no longer than isize::MAX bytes.
  const MAX_LENGTH: nat := 0x7FFF_FFFF_FFFF_FFFF

  function FromLe(bytes: seq<U8>): nat {
    if bytes == [] then 0 else bytes[0] + 256 * FromLe(bytes[1..])
  }

  function ToLe(n: nat, width: nat): (bytes: seq<U8>)
    ensures |bytes| == width
    decreases width
  {
    if width == 0 then [] else [n % 256] + ToLe(n / 256, width - 1)
  }

  function Pow256(width: nat): nat {
    if width == 0 then 1 else 256 * Pow256(width - 1)
  }

  lemma Pow256Values()
    ensures Pow256(4) == 0x1_0000_0000
    ensures Pow256(8) == TWO64
  {
    assert Pow256(2) == 0x1_0000;
    assert Pow256(4) == 256 * (256 * Pow256(2));
    assert Pow256(6) == 256 * (256 * Pow256(4));
    assert Pow256(8) == 256 * (256 * Pow256(6));
  }

  lemma {:induction false} LeRoundTrip(n: nat, width: nat)
    requires n < Pow256(width)
    ensures FromLe(ToLe(n, width)) == n
    decreases width
  {
    if width > 0 {
      LeRoundTrip(n / 256, width - 1);
    }
  }

  lemma {:induction false} LeBounded(bytes: seq<U8>)
    ensures FromLe(bytes) < Pow256(|bytes|)
  {
    if bytes != [] {
      LeBounded(bytes[1..]);
    }
  }

  /** The bytes [from, to) of a buffer, if it has them. */
  function Slice(buf: seq<U8>, from: nat, to: nat): Option<seq<U8>> {
    if from <= to <= |buf| then Some(buf[from..to]) else None
  }

  function ReadU32(buf: seq<U8>, off: nat): (r: Option<U32>)
    ensures r.Some? <==> off + 4 <= |buf|
  {
    if off + 4 <= |buf| then
      Pow256Values();
      LeBounded(buf[off..off + 4]);
      Some(FromLe(buf[off..off + 4]))
    else None
  }

  function ReadU64(buf: seq<U8>, off: nat): (r: Option<U64>)
    ensures r.Some? <==> off + 8 <= |buf|
  {
    if off + 8 <= |buf| then
      Pow256Values();
      LeBounded(buf[off..off + 8]);
      Some(FromLe(buf[off..off + 8]))
    else None
  }

  lemma MiddleSlice<T>(before: seq<T>, middle: seq<T>, after: seq<T>)
    ensures (before + middle + after)[|before|..|before| + |middle|] == middle
  {
  }

  lemma PrefixSlice<T>(data: seq<T>, length: nat, from: nat, to: nat)
    requires from <= to <= length <= |data|
    ensures data[..length][from..to] == data[from..to]
  {
  }

  /** A slice of a block is a slice of the buffer that holds the block. */
  lemma SubSlice<T>(data: seq<T>, off: nat, block: seq<T>, from: nat, to: nat)
    requires off + |block| <= |data| && data[off..off + |block|] == block && from <= to <= |block|
    ensures data[off + from..off + to] == block[from..to]
  {
    forall k | 0 <= k < to - from
      ensures data[off + from..off + to][k] == block[from..to][k]
    {
      assert block[from + k] == data[off..off + |block|][from + k];
    }
  }

  /** The buffer has the bytes of `block` at `off`. */
  ghost predicate HasAt(data: seq<U8>, off: nat, block: seq<U8>) {
    off + |block| <= |data| && data[off..off + |block|] == block
  }

  lemma HasParts(data: seq<U8>, off: nat, a: seq<U8>, b: seq<U8>)
    requires HasAt(data, off, a + b)
    ensures HasAt(data, off, a) && HasAt(data, off + |a|, b)
  {
    SubSlice(data, off, a + b, 0, |a|);
    SubSlice(data, off, a + b, |a|, |a + b|);
    assert (a + b)[0..|a|] == a && (a + b)[|a|..|a + b|] == b;
  }

  // ----- UTF-8 (RFC 3629, section 4) -----

  predicate Tail(b: U8) {
    0x80 <= b < 0xC0
  }

  /** The length of the well-formed character at the front, or 0 when there is none. */
  function CharLength(s: seq<U8>): nat
    requires s != []
  {
    var b := s[0];
    if b < 0x80 then 1
    else if 0xC2 <= b < 0xE0 then if |s| >= 2 && Tail(s[1]) then 2 else 0
    else if 0xE0 <= b < 0xF0 then
      if |s| >= 3 && Tail(s[1]) && Tail(s[2]) && (b == 0xE0 ==> s[1] >= 0xA0) && (b == 0xED ==> s[1] < 0xA0)
      then 3 else 0
    else if 0xF0 <= b < 0xF5 then
      if |s| >= 4 && Tail(s[1]) && Tail(s[2]) && Tail(s[3]) && (b == 0xF0 ==> s[1] >= 0x90) && (b == 0xF4 ==> s[1] < 0x90)
      then 4 else 0
    else 0
  }

  predicate IsUtf8(s: seq<U8>)
    decreases |s|
  {
    s != [] ==>
      var n := CharLength(s);
      n > 0 && n <= |s| && IsUtf8(s[n..])
  }

  lemma {:induction false} AsciiIsUtf8(s: seq<U8>)
    requires forall i :: 0 <= i < |s| ==> s[i] < 0x80
    ensures IsUtf8(s)
  {
    if s != [] {
      AsciiIsUtf8(s[1..]);
    }
  }
}
