/** Bytes, 16-bit and 32-bit words, and their big-endian layout (network byte order). */
module Bytes {

  type Byte = b: int | 0 <= b < 0x100

  type Half = h: int | 0 <= h < 0x1_0000

  type Word = w: int | 0 <= w < 0x1_0000_0000

  function ReadU16(s: seq<Byte>, offset: nat): Half
    requires offset + 2 <= |s|
  {
    s[offset] as int * 0x100 + s[offset + 1]
  }

  function ReadU32(s: seq<Byte>, offset: nat): Word
    requires offset + 4 <= |s|
  {
    s[offset] as int * 0x100_0000 + s[offset + 1] as int * 0x1_0000 + s[offset + 2] as int * 0x100 + s[offset + 3]
  }

  /** The four bytes `append_u32` pushes. */
  function U32Bytes(w: Word): (r: seq<Byte>)
    ensures |r| == 4
  {
    [w / 0x100_0000, w / 0x1_0000 % 0x100, w / 0x100 % 0x100, w % 0x100]
  }

  /** The number whose bytes, the most significant first, are these. */
  function BigEndian(s: seq<Byte>): nat {
    if s == [] then 0 else BigEndian(s[..|s| - 1]) * 0x100 + s[|s| - 1]
  }

  /** Numbers are read in network byte order. */
  lemma ReadIsBigEndian(s: seq<Byte>, offset: nat)
    ensures offset + 2 <= |s| ==> ReadU16(s, offset) == BigEndian(s[offset..offset + 2])
    ensures offset + 4 <= |s| ==> ReadU32(s, offset) == BigEndian(s[offset..offset + 4])
  {
    if offset + 2 <= |s| {
      var b0, b1 := s[offset], s[offset + 1];
      assert s[offset..offset + 2] == [] + [b0] + [b1];
      OneMoreByte([], b0);
      OneMoreByte([] + [b0], b1);
    }
    if offset + 4 <= |s| {
      var b0, b1, b2, b3 := s[offset], s[offset + 1], s[offset + 2], s[offset + 3];
      assert s[offset..offset + 4] == [] + [b0] + [b1] + [b2] + [b3];
      OneMoreByte([] + [b0] + [b1], b2);
      OneMoreByte([] + [b0] + [b1] + [b2], b3);
    }
  }

  lemma OneMoreByte(s: seq<Byte>, b: Byte)
    ensures BigEndian(s + [b]) == BigEndian(s) * 0x100 + b
  {
    assert (s + [b])[..|s|] == s;
  }

  /** Two bytes, the more significant first. */
  function U16Bytes(h: Half): (r: seq<Byte>)
    ensures |r| == 2 && ReadU16(r, 0) == h
  {
    [h / 0x100, h % 0x100]
  }

  /** Reading back what was written, at any place in a byte string. */
  lemma ReadWritten(w: Word, s: seq<Byte>, offset: nat)
    requires offset + 4 <= |s|
    requires s[offset..offset + 4] == U32Bytes(w)
    ensures ReadU32(s, offset) == w
  {
    WordDigits(w);
    var b := s[offset..offset + 4];
    assert b[0] == s[offset] && b[1] == s[offset + 1] && b[2] == s[offset + 2] && b[3] == s[offset + 3];
  }

  lemma WordDigits(w: int)
    ensures w == w / 0x100_0000 * 0x100_0000 + w / 0x1_0000 % 0x100 * 0x1_0000 + w / 0x100 % 0x100 * 0x100 + w % 0x100
  {
    var a, b := w / 0x100, w / 0x1_0000;
    assert w == a * 0x100 + w % 0x100;
    assert a / 0x100 == b && a == b * 0x100 + a % 0x100;
    assert b / 0x100 == w / 0x100_0000 && b == w / 0x100_0000 * 0x100 + b % 0x100;
  }

  /** Writing back what was read: the layout has exactly one encoding of each word. */
  lemma WriteRead(s: seq<Byte>, offset: nat)
    requires offset + 4 <= |s|
    ensures U32Bytes(ReadU32(s, offset)) == s[offset..offset + 4]
  {
    var w: int := ReadU32(s, offset);
    var b0: int, b1: int, b2: int, b3: int := s[offset], s[offset + 1], s[offset + 2], s[offset + 3];
    assert w / 0x100_0000 == b0;
    assert w / 0x1_0000 == b0 * 0x100 + b1;
    assert w / 0x100 == b0 * 0x1_0000 + b1 * 0x100 + b2;
    assert U32Bytes(w) == [b0, b1, b2, b3] == s[offset..offset + 4];
  }

  /** A slice of a slice. */
  lemma SubSlice<T>(s: seq<T>, offset: nat, e: seq<T>, from: nat, to: nat)
    requires offset + |e| <= |s| && s[offset..offset + |e|] == e && from <= to <= |e|
    ensures s[offset + from..offset + to] == e[from..to]
  {
    assert forall i {:trigger e[i]} | from <= i < to :: e[i] == s[offset + i];
  }

  lemma Associative<T>(a: seq<T>, b: seq<T>, c: seq<T>)
    ensures (a + b) + c == a + (b + c)
  {
  }

  lemma Middle<T>(a: seq<T>, b: seq<T>, c: seq<T>)
    ensures |a + b + c| == |a| + |b| + |c| && (a + b + c)[|a|..|a| + |b|] == b
  {
  }
}
