/** Chunked transfer coding (section 7.1 of RFC 9112): what the writer emits and a reader of it. */
module Chunked {
  import opened Wrappers
  import opened Text
  import opened Hex

  /** A `size_t` is below 16 to the 16th, the length of the digit array. */
  const SIZE_LIMIT := 0x1_0000_0000_0000_0000

  function Chunk(data: string): string {
    HexDigits(|data|) + CRLF + data + CRLF
  }

  function Chunks(pieces: seq<string>): string {
    if pieces == [] then [] else Chunk(pieces[0]) + Chunks(pieces[1..])
  }

  const LAST_CHUNK := "0\r\n\r\n"

  function Flatten(pieces: seq<string>): string {
    if pieces == [] then [] else pieces[0] + Flatten(pieces[1..])
  }

  function Reverse(s: string): string {
    if s == [] then [] else Reverse(s[1..]) + [s[0]]
  }

  lemma SixteenDigits()
    ensures Power16(16) == SIZE_LIMIT
  {
    assert Power16(2) == 0x100 && Power16(4) == 0x1_0000;
    assert Power16(6) == 0x100_0000 && Power16(8) == 0x1_0000_0000;
    assert Power16(10) == 0x100_0000_0000 && Power16(12) == 0x1_0000_0000_0000;
    assert Power16(14) == 0x100_0000_0000_0000;
  }

  lemma DigitFits(left: nat, places: nat)
    requires places > 0 && left < Power16(places)
    ensures left / 16 < Power16(places - 1)
    ensures places == 1 ==> left / 16 == 0
  {
    assert Power16(0) == 1;
  }

  /** The first loop of `chunk_prefix`: the digits come out backwards, into a fixed array. */
  method ReversedDigits(size: nat) returns (reversed: array<char>, count: nat)
    requires size < SIZE_LIMIT
    ensures fresh(reversed) && count <= reversed.Length == 16
    ensures HexDigits(size) == Reverse(reversed[..count])
  {
    hide *;
    reversed := new char[16];
    var left: nat;
    count, left := 0, size;
    SixteenDigits();
    ReverseNothing();
    assert reversed[..0] == [];
    while count == 0 || left != 0
      invariant 0 <= count <= 16 && left < Power16(16 - count)
      invariant count == 16 ==> left == 0
      invariant |reversed[..count]| == count
      invariant HexDigits(size) == (if reversed[..count] == [] || left != 0 then HexDigits(left) else []) + Reverse(reversed[..count])
      decreases 16 - count
    {
      ghost var before := reversed[..count];
      var digit, next := HexChar(left % 16), left / 16;
      OneDigit(size, left, before, digit, next);
      DigitFits(left, 16 - count);
      reversed[count] := digit;
      assert reversed[..count + 1] == before + [digit];
      count, left := count + 1, next;
    }
  }

  lemma LastDigit(n: nat)
    ensures HexDigits(n) == (if n / 16 != 0 then HexDigits(n / 16) else []) + [HexChar(n % 16)]
  {
  }

  /** Moving the last digit of what is left to the digits taken. */
  lemma OneDigit(size: nat, left: nat, taken: string, digit: char, next: nat)
    requires HexDigits(size) == (if taken == [] || left != 0 then HexDigits(left) else []) + Reverse(taken)
    requires (taken == [] || left != 0) && digit == HexChar(left % 16) && next == left / 16
    ensures HexDigits(size) == (if next != 0 then HexDigits(next) else []) + Reverse(taken + [digit])
  {
    hide *;
    LastDigit(left);
    MoveLast(if next != 0 then HexDigits(next) else [], digit, taken);
  }

  lemma MoveLast(head: string, digit: char, taken: string)
    ensures (head + [digit]) + Reverse(taken) == head + Reverse(taken + [digit])
  {
    hide Reverse;
    ReverseAppend(taken, digit);
  }

  /** `chunk_prefix`. */
  method ChunkPrefix(size: nat) returns (output: string)
    requires size < SIZE_LIMIT
    ensures output == HexDigits(size) + CRLF
  {
    hide HexDigits, Reverse;
    var reversed, count := ReversedDigits(size);
    output := "";
    ghost var digits := reversed[..count];
    ReverseNothing();
    while count > 0
      invariant 0 <= count <= |digits| && digits[..count] == reversed[..count]
      invariant output + Reverse(digits[..count]) == HexDigits(size)
    {
      assert digits[..count] == digits[..count - 1] + [digits[count - 1]];
      ReverseAppend(digits[..count - 1], digits[count - 1]);
      count := count - 1;
      output := output + [reversed[count]];
    }
    assert digits[..0] == [];
    output := output + CRLF;
  }

  lemma {:induction false} ReverseAppend(s: string, c: char)
    ensures Reverse(s + [c]) == [c] + Reverse(s)
  {
    if s == [] {
      assert [] + [c] == [c] && [c][1..] == [];
    } else {
      ReverseAppend(s[1..], c);
      assert (s + [c])[1..] == s[1..] + [c];
    }
  }

  lemma ReverseNothing()
    ensures Reverse([]) == []
  {
  }

  // ----- reading

  /** The number of hexadecimal digits s starts with. */
  function HexRun(s: string): (r: nat)
    ensures r <= |s| && AllHex(s[..r])
  {
    if s == [] || HexDigit(s[0]).None? then 0
    else
      var r := HexRun(s[1..]);
      assert s[..r + 1] == [s[0]] + s[1..][..r];
      r + 1
  }

  datatype Dechunked = Dechunked(pieces: seq<string>, rest: string)

  /** The chunks of s up to the one of size zero, an empty trailer section, and what follows. */
  function Dechunk(s: string): Option<Dechunked>
    decreases |s|
  {
    var digits := HexRun(s);
    if digits == 0 || digits + 2 > |s| || s[digits..digits + 2] != CRLF then None
    else
      var size, t := HexValue(s[..digits]), s[digits + 2..];
      if size + 2 > |t| || t[size..size + 2] != CRLF then None
      else if size == 0 then Some(Dechunked([], t[2..]))
      else
        match Dechunk(t[size + 2..])
        case None => None
        case Some(Dechunked(pieces, rest)) => Some(Dechunked([t[..size]] + pieces, rest))
  }

  lemma Parts(a: string, b: string, c: string)
    ensures var s := a + b + c; s[..|a|] == a && s[|a|..|a| + |b|] == b && s[|a| + |b|..] == c
  {
  }

  lemma {:induction false} RunOfDigits(digits: string, rest: string)
    requires AllHex(digits)
    ensures HexRun(digits + CRLF + rest) == |digits|
  {
    hide HexDigit;
    if digits == [] {
      assert (digits + CRLF + rest)[0] == '\r';
      NotHex();
    } else {
      assert digits[0] in digits;
      RunOfDigits(digits[1..], rest);
      assert (digits + CRLF + rest)[1..] == digits[1..] + CRLF + rest;
    }
  }

  lemma NotHex()
    ensures HexDigit('\r') == None
  {
  }

  lemma ChunkReads(data: string, rest: string)
    requires data != []
    ensures Dechunk(Chunk(data) + rest) ==
            match Dechunk(rest)
            case None => None
            case Some(d) => Some(Dechunked([data] + d.pieces, d.rest))
  {
    hide HexRun, HexDigits, HexValue, AllHex;
    var digits, t := HexDigits(|data|), data + CRLF + rest;
    HexDigitsValue(|data|);
    RunOfDigits(digits, t);
    Parts(digits, CRLF, t);
    Parts(data, CRLF, rest);
    assert Chunk(data) + rest == digits + CRLF + t;
  }

  lemma LastReads(rest: string)
    ensures Dechunk(LAST_CHUNK + rest) == Some(Dechunked([], rest))
  {
    hide HexRun;
    var t := CRLF + rest;
    RunOfDigits("0", t);
    Parts("0", CRLF, t);
    assert LAST_CHUNK + rest == "0" + CRLF + t;
    assert HexValue("0") == 0 by {
      assert "0"[..0] == [];
    }
    assert t[0..2] == CRLF && t[2..] == rest;
  }

  /** Reading finds every piece that was written, in order, and exactly one chunk of size zero, at the end. */
  lemma {:induction false} DechunkUndoesChunks(pieces: seq<string>, rest: string)
    requires forall k | 0 <= k < |pieces| :: pieces[k] != []
    ensures Dechunk(Chunks(pieces) + LAST_CHUNK + rest) == Some(Dechunked(pieces, rest))
  {
    hide Chunk, Dechunk;
    if pieces == [] {
      LastReads(rest);
      assert Chunks(pieces) + LAST_CHUNK + rest == LAST_CHUNK + rest;
    } else {
      var tail := Chunks(pieces[1..]) + LAST_CHUNK + rest;
      assert Chunks(pieces) + LAST_CHUNK + rest == Chunk(pieces[0]) + tail;
      DechunkUndoesChunks(pieces[1..], rest);
      ChunkReads(pieces[0], tail);
      assert [pieces[0]] + pieces[1..] == pieces;
    }
  }
}
