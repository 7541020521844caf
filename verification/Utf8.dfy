/** Valid UTF-8 is exactly what encodes some Unicode scalar values (RFC 3629, section 3). */
module Utf8 {
  import opened Words
  import opened Bytes

  /** A code point that is not a surrogate. */
  predicate IsScalar(c: nat) {
    c < 0xD800 || 0xE000 <= c < 0x11_0000
  }

  function EncodeScalar(c: nat): (s: seq<U8>)
    requires IsScalar(c)
    ensures |s| > 0
  {
    if c < 0x80 then [c]
    else if c < 0x800 then [0xC0 + c / 64, 0x80 + c % 64]
    else if c < 0x1_0000 then [0xE0 + c / 4096, 0x80 + c / 64 % 64, 0x80 + c % 64]
    else [0xF0 + c / 262144, 0x80 + c / 4096 % 64, 0x80 + c / 64 % 64, 0x80 + c % 64]
  }

  function EncodeScalars(cs: seq<nat>): seq<U8>
    requires forall i :: 0 <= i < |cs| ==> IsScalar(cs[i])
  {
    if cs == [] then [] else EncodeScalar(cs[0]) + EncodeScalars(cs[1..])
  }

  lemma ScalarIsChar(c: nat, rest: seq<U8>)
    requires IsScalar(c)
    ensures CharLength(EncodeScalar(c) + rest) == |EncodeScalar(c)|
  {
    var q, m, k := c / 64, c / 4096, c / 262144;
    Quotients(c);
    var e := EncodeScalar(c);
    assert forall i :: 0 <= i < |e| ==> (e + rest)[i] == e[i];
  }

  lemma Quotients(c: nat)
    ensures c / 4096 == c / 64 / 64 && c / 262144 == c / 64 / 64 / 64
  {
  }

  lemma ThreeBytes(s: seq<U8>) returns (c: nat)
    requires s != [] && CharLength(s) == 3
    ensures |s| >= 3 && IsScalar(c) && EncodeScalar(c) == [s[0], s[1], s[2]]
  {
    var first: int, middle: int, last: int := s[0] - 0xE0, s[1] - 0x80, s[2] - 0x80;
    var high := 64 * first + middle;
    c := 64 * high + last;
    Digits(high, last);
    Digits(first, middle);
    Quotients(c);
  }

  lemma FourBytes(s: seq<U8>) returns (c: nat)
    requires s != [] && CharLength(s) == 4
    ensures |s| >= 4 && IsScalar(c) && EncodeScalar(c) == [s[0], s[1], s[2], s[3]]
  {
    var first: int, second: int, third: int, last: int := s[0] - 0xF0, s[1] - 0x80, s[2] - 0x80, s[3] - 0x80;
    var top := 64 * first + second;
    var high := 64 * top + third;
    c := 64 * high + last;
    Digits(high, last);
    Digits(top, third);
    Digits(first, second);
    Quotients(c);
  }

  /** The scalar value that a well-formed character at the front encodes. */
  lemma CharIsScalar(s: seq<U8>) returns (c: nat)
    requires s != [] && CharLength(s) > 0
    ensures CharLength(s) <= |s|
    ensures IsScalar(c) && EncodeScalar(c) == s[..CharLength(s)]
  {
    var n := CharLength(s);
    if n == 1 {
      c := s[0];
    } else if n == 2 {
      var first: int, last: int := s[0] - 0xC0, s[1] - 0x80;
      c := 64 * first + last;
      Digits(first, last);
    } else if n == 3 {
      c := ThreeBytes(s);
    } else {
      c := FourBytes(s);
    }
  }

  lemma Digits(q: nat, r: nat)
    requires r < 64
    ensures (64 * q + r) / 64 == q && (64 * q + r) % 64 == r
  {
  }

  lemma {:induction false} ScalarsAreUtf8(cs: seq<nat>)
    requires forall i :: 0 <= i < |cs| ==> IsScalar(cs[i])
    ensures IsUtf8(EncodeScalars(cs))
    decreases |cs|
  {
    hide CharLength, EncodeScalar;
    if cs != [] {
      var first, rest := EncodeScalar(cs[0]), EncodeScalars(cs[1..]);
      ScalarsAreUtf8(cs[1..]);
      ScalarIsChar(cs[0], rest);
      assert (first + rest)[|first|..] == rest;
    }
  }

  lemma {:induction false} Utf8IsScalars(s: seq<U8>) returns (cs: seq<nat>)
    requires IsUtf8(s)
    ensures forall i :: 0 <= i < |cs| ==> IsScalar(cs[i])
    ensures EncodeScalars(cs) == s
    decreases |s|
  {
    hide CharLength, EncodeScalar;
    cs := [];
    if s != [] {
      var n := CharLength(s);
      var c := CharIsScalar(s);
      var rest := Utf8IsScalars(s[n..]);
      cs := [c] + rest;
      assert cs[1..] == rest;
      assert s == s[..n] + s[n..];
    }
  }

  /** A byte string is accepted exactly when it encodes scalar values. */
  lemma Utf8Exactly(s: seq<U8>)
    ensures IsUtf8(s) <==> exists cs :: Encodes(cs, s)
  {
    if IsUtf8(s) {
      var cs := Utf8IsScalars(s);
      assert Encodes(cs, s);
    }
    if exists cs :: Encodes(cs, s) {
      var cs :| Encodes(cs, s);
      ScalarsAreUtf8(cs);
    }
  }

  predicate Encodes(cs: seq<nat>, s: seq<U8>) {
    (forall i :: 0 <= i < |cs| ==> IsScalar(cs[i])) && EncodeScalars(cs) == s
  }
}
