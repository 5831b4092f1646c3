/**
 `write_streaming_response`: JSON metadata, eight NULs and the body, in chunked coding, to a
 sink that may fail at any write.
 */
module Streaming {
  import opened Wrappers
  import opened Json
  import opened Chunked
  import opened Hex
  import Decimal
  import opened Text

  const RESPONSE_CHUNK_BYTES := 64 * 1024

  datatype HttpHeader = HttpHeader(name: string, value: string)

  datatype HttpResponse = HttpResponse(status: nat, headers: seq<HttpHeader>, body: string)

  // ----- what is written

  function HeaderMember(h: HttpHeader): string {
    JsonString(h.name) + ":" + JsonString(h.value)
  }

  function HeaderMembers(headers: seq<HttpHeader>): string {
    if headers == [] then []
    else if |headers| == 1 then HeaderMember(headers[0])
    else HeaderMember(headers[0]) + "," + HeaderMembers(headers[1..])
  }

  const STATUS_PREFIX := "{\"statusCode\":"
  const HEADERS_PREFIX := ",\"headers\":{"

  function Metadata(response: HttpResponse): string {
    STATUS_PREFIX + Decimal.ToString(response.status) + HEADERS_PREFIX + HeaderMembers(response.headers) + "}}"
  }

  const NUL := 0 as char

  const SEPARATOR: string := [NUL, NUL, NUL, NUL, NUL, NUL, NUL, NUL]

  /** The body in pieces of at most 64 KiB. */
  function Pieces(body: string): seq<string>
    decreases |body|
  {
    if body == [] then []
    else if |body| <= RESPONSE_CHUNK_BYTES then [body]
    else [body[..RESPONSE_CHUNK_BYTES]] + Pieces(body[RESPONSE_CHUNK_BYTES..])
  }

  /** The payload of every chunk but the last. */
  function Payloads(response: HttpResponse): seq<string> {
    [Metadata(response) + SEPARATOR] + Pieces(response.body)
  }

  function Stream(response: HttpResponse): string {
    Chunks(Payloads(response)) + LAST_CHUNK
  }

  lemma {:induction false} MembersAppend(headers: seq<HttpHeader>, h: HttpHeader)
    ensures HeaderMembers(headers + [h]) == HeaderMembers(headers) + (if headers == [] then [] else ",") + HeaderMember(h)
  {
    hide HeaderMember;
    if |headers| == 1 {
      assert (headers + [h])[1..] == [h];
    } else if |headers| > 1 {
      MembersAppend(headers[1..], h);
      assert (headers + [h])[1..] == headers[1..] + [h];
    }
  }

  method IntegrationMetadata(response: HttpResponse) returns (output: string)
    ensures output == Metadata(response)
  {
    hide HeaderMembers, JsonString;
    output := STATUS_PREFIX;
    output := output + Decimal.ToString(response.status);
    output := output + HEADERS_PREFIX;
    ghost var start := output;
    NoMembers();
    var first := true;
    for index := 0 to |response.headers|
      invariant first == (index == 0)
      invariant output == start + HeaderMembers(response.headers[..index])
    {
      var header := response.headers[index];
      ghost var before := output;
      if !first {
        output := output + ",";
      }
      first := false;
      output := AppendJsonString(output, header.name);
      output := output + ":";
      output := AppendJsonString(output, header.value);
      assert output == before + (if index == 0 then [] else ",") + HeaderMember(header);
      MembersAppend(response.headers[..index], header);
      assert response.headers[..index + 1] == response.headers[..index] + [header];
    }
    assert response.headers[..|response.headers|] == response.headers;
    output := output + "}}";
  }

  lemma NoMembers()
    ensures HeaderMembers([]) == []
  {
  }

  // ----- the sink

  /**
   Any sink: each write is accepted, or fails after delivering some of its bytes. What it will do is its script;
   past the end of the script it accepts.
   */
  class ByteSink {
    var received: string
    var script: seq<Option<nat>>

    constructor (script: seq<Option<nat>>)
      ensures received == "" && this.script == script
    {
      received := "";
      this.script := script;
    }

    predicate Accepts()
      reads this
    {
      forall answer | answer in script :: answer.None?
    }

    /** Writing `bytes` so far went well, or stopped somewhere inside them. */
    twostate predicate Sent(bytes: string, ok: bool)
      reads this
    {
      && (if ok then received == old(received) + bytes else old(received) <= received <= old(received) + bytes)
      && (old(Accepts()) ==> ok && Accepts())
    }

    method Write(bytes: string) returns (ok: bool)
      modifies this
      ensures Sent(bytes, ok)
    {
      if script == [] {
        received := received + bytes;
        return true;
      }
      var answer := script[0];
      assert answer in script;
      script := script[1..];
      match answer
      case None =>
        received := received + bytes;
        ok := true;
      case Some(delivered) =>
        received := received + bytes[..if delivered < |bytes| then delivered else |bytes|];
        ok := false;
    }
  }

  method WriteChunk(sink: ByteSink, bytes: string) returns (ok: bool)
    requires |bytes| < SIZE_LIMIT
    modifies sink
    ensures sink.Sent(if bytes == [] then [] else Chunk(bytes), ok)
  {
    if bytes == [] {
      return true;
    }
    ghost var start := sink.received;
    var prefix := ChunkPrefix(|bytes|);
    assert Chunk(bytes) == prefix + bytes + CRLF;
    ok := sink.Write(prefix);
    if ok {
      ok := sink.Write(bytes);
      assert sink.received <= start + prefix + bytes <= start + Chunk(bytes);
      if ok {
        assert start + prefix + bytes + CRLF == start + Chunk(bytes);
        ok := sink.Write(CRLF);
      }
    } else {
      assert start + prefix <= start + Chunk(bytes);
    }
  }

  /** A prefix of what is to be sent stays one however it goes on. */
  lemma PrefixOf(part: string, sent: string, rest: string, whole: string)
    requires part <= sent && sent + rest == whole
    ensures part <= whole
  {
  }

  /**
   On success the sink has the stream; on failure, a prefix of it. A sink that accepts everything makes it succeed.
   The metadata must have a size that a `size_t` can hold.
   */
  method WriteStreamingResponse(sink: ByteSink, response: HttpResponse) returns (ok: bool)
    requires |Metadata(response)| + 8 < SIZE_LIMIT
    modifies sink
    ensures sink.Sent(Stream(response), ok)
  {
    hide Metadata, Chunk, Chunks, Pieces, Stream;
    ghost var start, whole := sink.received, sink.received + Stream(response);
    var metadata := IntegrationMetadata(response);
    metadata := metadata + SEPARATOR;
    ok := WriteChunk(sink, metadata);
    StreamSplits(response);
    assert start + Chunk(metadata) + (Chunks(Pieces(response.body)) + LAST_CHUNK) == whole;
    if !ok {
      PrefixOf(sink.received, start + Chunk(metadata), Chunks(Pieces(response.body)) + LAST_CHUNK, whole);
      return false;
    }
    var body, offset := response.body, 0;
    assert body[0..] == body;
    while offset < |body|
      invariant 0 <= offset <= |body|
      invariant sink.received + (Chunks(Pieces(body[offset..])) + LAST_CHUNK) == whole
      invariant start <= sink.received
      invariant old(sink.Accepts()) ==> sink.Accepts()
    {
      var size := if RESPONSE_CHUNK_BYTES < |body| - offset then RESPONSE_CHUNK_BYTES else |body| - offset;
      ghost var before := sink.received;
      ghost var piece := body[offset..offset + size];
      PiecesSplit(body, offset, size);
      assert before + Chunk(piece) + (Chunks(Pieces(body[offset + size..])) + LAST_CHUNK) == whole;
      ok := WriteChunk(sink, body[offset..offset + size]);
      if !ok {
        PrefixOf(sink.received, before + Chunk(piece), Chunks(Pieces(body[offset + size..])) + LAST_CHUNK, whole);
        return false;
      }
      offset := offset + size;
    }
    assert body[offset..] == "";
    NoPieces();
    assert sink.received + LAST_CHUNK == whole;
    ok := sink.Write(LAST_CHUNK);
  }

  lemma NoPieces()
    ensures Chunks(Pieces("")) == ""
  {
  }

  lemma StreamSplits(response: HttpResponse)
    ensures Stream(response) == Chunk(Metadata(response) + SEPARATOR) + (Chunks(Pieces(response.body)) + LAST_CHUNK)
  {
    hide Metadata, Chunk, Pieces;
    assert Payloads(response)[1..] == Pieces(response.body);
  }

  lemma PiecesSplit(body: string, offset: nat, size: nat)
    requires offset < |body| && size == if RESPONSE_CHUNK_BYTES < |body| - offset then RESPONSE_CHUNK_BYTES else |body| - offset
    ensures Chunks(Pieces(body[offset..])) == Chunk(body[offset..offset + size]) + Chunks(Pieces(body[offset + size..]))
  {
    hide Chunk;
    var rest := body[offset..];
    assert rest[..size] == body[offset..offset + size] && rest[size..] == body[offset + size..];
    if size == |rest| {
      assert Pieces(rest) == [rest];
      assert Pieces(rest)[1..] == Pieces("") == [];
      assert body[offset + size..] == "" && rest[..size] == rest;
    } else {
      assert Pieces(rest) == [rest[..size]] + Pieces(rest[size..]);
      assert Pieces(rest)[1..] == Pieces(rest[size..]);
    }
  }

  // ----- reading it back

  function ReadMember(s: string): (r: Option<Read<HttpHeader>>)
    ensures r.Some? ==> |r.value.rest| < |s|
  {
    match ReadString(s)
    case None => None
    case Some(Read(name, rest)) =>
      if rest == [] || rest[0] != ':' then None
      else
        match ReadString(rest[1..])
        case None => None
        case Some(Read(value, after)) => Some(Read(HttpHeader(name, value), after))
  }

  /** The members of an object up to its closing brace. */
  function ReadMembers(s: string): (r: Option<Read<seq<HttpHeader>>>)
    decreases |s|
  {
    match ReadMember(s)
    case None => None
    case Some(Read(member, rest)) =>
      if rest == [] then None
      else if rest[0] == '}' then Some(Read([member], rest[1..]))
      else if rest[0] != ',' then None
      else
        match ReadMembers(rest[1..])
        case None => None
        case Some(Read(members, after)) => Some(Read([member] + members, after))
  }

  function ReadObject(s: string): Option<Read<seq<HttpHeader>>> {
    if s != [] && s[0] == '}' then Some(Read([], s[1..])) else ReadMembers(s)
  }

  function DigitRun(s: string): (r: nat)
    ensures r <= |s| && Decimal.AllDigits(s[..r])
  {
    if s == [] || !Decimal.IsDigit(s[0]) then 0
    else
      var r := DigitRun(s[1..]);
      assert s[..r + 1] == [s[0]] + s[1..][..r];
      r + 1
  }

  datatype Meta = Meta(status: nat, headers: seq<HttpHeader>)

  function ReadMetadata(s: string): Option<Meta> {
    if !(STATUS_PREFIX <= s) then None
    else
      var t := s[|STATUS_PREFIX|..];
      var digits := DigitRun(t);
      var u := t[digits..];
      if digits == 0 || !(HEADERS_PREFIX <= u) then None
      else
        match ReadObject(u[|HEADERS_PREFIX|..])
        case None => None
        case Some(Read(headers, rest)) => if rest == "}" then Some(Meta(Decimal.Value(t[..digits]), headers)) else None
  }

  /** Dechunks, splits at the first NUL and reads the metadata. */
  function ReadResponse(stream: string): Option<HttpResponse> {
    match Dechunk(stream)
    case None => None
    case Some(Dechunked(pieces, rest)) =>
      var all := Flatten(pieces);
      match IndexOf(all, NUL)
      case None => None
      case Some(n) =>
        if rest != [] || |all| < n + 8 || all[n..n + 8] != SEPARATOR then None
        else
          match ReadMetadata(all[..n])
          case None => None
          case Some(Meta(status, headers)) => Some(HttpResponse(status, headers, all[n + 8..]))
  }

  lemma MemberReads(h: HttpHeader, rest: string)
    ensures ReadMember(HeaderMember(h) + rest) == Some(Read(h, rest))
  {
    hide JsonString, ReadString;
    var s, tail := HeaderMember(h) + rest, JsonString(h.value) + rest;
    assert s == JsonString(h.name) + (":" + tail);
    ReadUndoesAppend(h.name, ":" + tail);
    ReadUndoesAppend(h.value, rest);
    assert (":" + tail)[1..] == tail;
  }

  lemma {:induction false} MembersRead(headers: seq<HttpHeader>, rest: string)
    requires headers != []
    ensures ReadMembers(HeaderMembers(headers) + "}" + rest) == Some(Read(headers, rest))
  {
    hide HeaderMember, ReadMember;
    var h, more := headers[0], headers[1..];
    var tail := if more == [] then "}" + rest else "," + HeaderMembers(more) + "}" + rest;
    assert HeaderMembers(headers) + "}" + rest == HeaderMember(h) + tail;
    MemberReads(h, tail);
    assert headers == [h] + more;
    if more == [] {
      assert tail[1..] == rest && headers == [h];
    } else {
      MembersRead(more, rest);
      assert tail[1..] == HeaderMembers(more) + "}" + rest;
    }
  }

  lemma MembersStart(headers: seq<HttpHeader>)
    requires headers != []
    ensures HeaderMembers(headers) != [] && HeaderMembers(headers)[0] == QUOTE
  {
  }

  lemma ObjectReads(headers: seq<HttpHeader>, rest: string)
    ensures ReadObject(HeaderMembers(headers) + "}" + rest) == Some(Read(headers, rest))
  {
    hide ReadMembers;
    var s := HeaderMembers(headers) + "}" + rest;
    if headers == [] {
      assert s[1..] == rest;
    } else {
      MembersStart(headers);
      MembersRead(headers, rest);
    }
  }

  lemma {:induction false} RunOfDigits(digits: string, rest: string)
    requires Decimal.AllDigits(digits) && (rest == [] || !Decimal.IsDigit(rest[0]))
    ensures DigitRun(digits + rest) == |digits|
  {
    if digits == [] {
      assert digits + rest == rest;
    } else {
      assert digits[0] in digits;
      RunOfDigits(digits[1..], rest);
      assert (digits + rest)[1..] == digits[1..] + rest;
    }
  }

  lemma MetadataReads(response: HttpResponse)
    ensures ReadMetadata(Metadata(response)) == Some(Meta(response.status, response.headers))
  {
    hide HeaderMembers, DigitRun, ReadObject, Decimal.ToString;
    var digits, tail := Decimal.ToString(response.status), HeaderMembers(response.headers) + "}" + "}";
    Regroup(STATUS_PREFIX, digits, HEADERS_PREFIX, HeaderMembers(response.headers));
    RunOfDigits(digits, HEADERS_PREFIX + tail);
    AfterPrefix(STATUS_PREFIX, digits + (HEADERS_PREFIX + tail));
    AfterPrefix(digits, HEADERS_PREFIX + tail);
    AfterPrefix(HEADERS_PREFIX, tail);
    ObjectReads(response.headers, "}");
    Decimal.ToStringValue(response.status);
  }

  lemma AfterPrefix(a: string, b: string)
    ensures a <= a + b && (a + b)[..|a|] == a && (a + b)[|a|..] == b
  {
  }

  lemma Regroup(a: string, b: string, c: string, d: string)
    ensures a + b + c + d + "}}" == a + (b + (c + (d + "}" + "}")))
  {
    assert "}}" == "}" + "}";
  }

  /** The metadata holds no byte below 0x20, whatever is in the headers. */
  lemma {:induction false} MembersHaveNoControls(headers: seq<HttpHeader>)
    ensures NoControls(HeaderMembers(headers))
  {
    hide JsonString;
    if headers != [] {
      JsonHasNoControls(headers[0].name);
      JsonHasNoControls(headers[0].value);
      MembersHaveNoControls(headers[1..]);
    }
  }

  lemma MetadataHasNoControls(response: HttpResponse)
    ensures NoControls(Metadata(response))
  {
    hide HeaderMembers;
    MembersHaveNoControls(response.headers);
    assert NoControls(Decimal.ToString(response.status));
    assert NoControls(STATUS_PREFIX);
    assert NoControls(HEADERS_PREFIX);
  }

  lemma {:induction false} PiecesAreTheBody(body: string)
    ensures Flatten(Pieces(body)) == body
    ensures forall k | 0 <= k < |Pieces(body)| :: 0 < |Pieces(body)[k]| <= 65536 && (k < |Pieces(body)| - 1 ==> |Pieces(body)[k]| == 65536)
    decreases |body|
  {
    if body != [] {
      if |body| <= RESPONSE_CHUNK_BYTES {
        assert Pieces(body)[1..] == Pieces("");
      } else {
        PiecesAreTheBody(body[RESPONSE_CHUNK_BYTES..]);
        assert Pieces(body)[1..] == Pieces(body[RESPONSE_CHUNK_BYTES..]);
      }
    }
  }

  /** Dechunking the stream finds the payloads as they were cut, and nothing after the last chunk. */
  lemma DechunkUndoesStream(response: HttpResponse)
    ensures Dechunk(Stream(response)) == Some(Dechunked(Payloads(response), []))
    ensures Flatten(Payloads(response)) == Metadata(response) + SEPARATOR + response.body
  {
    hide Metadata, Pieces, Chunk, Dechunk;
    PiecesAreTheBody(response.body);
    DechunkUndoesChunks(Payloads(response), "");
    assert Stream(response) + "" == Stream(response);
    assert Payloads(response)[1..] == Pieces(response.body);
  }

  /** Reading undoes writing: status, headers in order and body come back exactly, for every response. */
  lemma ReaderUndoesWriter(response: HttpResponse)
    ensures ReadResponse(Stream(response)) == Some(response)
  {
    hide Metadata, Dechunk, Stream, Payloads, ReadMetadata, Flatten;
    var m := Metadata(response);
    DechunkUndoesStream(response);
    MetadataHasNoControls(response);
    MetadataReads(response);
    var after := SEPARATOR[1..] + response.body;
    var all := m + SEPARATOR + response.body;
    assert all == m + [NUL] + after;
    IndexAfter(m, NUL, after);
    assert all[..|m|] == m && all[|m|..|m| + 8] == SEPARATOR && all[|m| + 8..] == response.body;
  }

  /** A run against a sink that accepts everything, seen from the other end. */
  method SendAndRead(response: HttpResponse) returns (received: Option<HttpResponse>)
    requires |Metadata(response)| + 8 < SIZE_LIMIT
    ensures received == Some(response)
  {
    hide Metadata, ReadResponse, Stream;
    var sink := new ByteSink([]);
    var ok := WriteStreamingResponse(sink, response);
    assert sink.received == [] + Stream(response) == Stream(response);
    ReaderUndoesWriter(response);
    received := ReadResponse(sink.received);
  }

  // ----- one response, byte for byte

  const KNOWN := HttpResponse(201, [HttpHeader("a", "b"), HttpHeader("c", "\"")], "hi")
  const KNOWN_METADATA := "{\"statusCode\":201,\"headers\":{\"a\":\"b\",\"c\":\"\\\"\"}}"

  lemma KnownMetadata()
    ensures Metadata(KNOWN) == KNOWN_METADATA && |KNOWN_METADATA| == 47
  {
    hide HeaderMembers, Decimal.ToString;
    KnownMembers();
    KnownStatus();
  }

  lemma KnownStatus()
    ensures Decimal.ToString(201) == "201"
  {
    assert Decimal.ToString(2) == "2" && Decimal.ToString(20) == "20";
  }

  lemma KnownMembers()
    ensures HeaderMembers(KNOWN.headers) == "\"a\":\"b\",\"c\":\"\\\"\""
  {
    hide JsonString;
    EscapesAreStandard('a');
    EscapesAreStandard('b');
    EscapesAreStandard('c');
    var a, c := HttpHeader("a", "b"), HttpHeader("c", "\"");
    assert ["a"[0]] == "a" && ["b"[0]] == "b" && ["c"[0]] == "c";
    assert HeaderMember(a) == "\"a\":\"b\"";
    assert HeaderMember(c) == "\"c\":\"\\\"\"";
    assert [a, c][1..] == [c];
  }

  /** A known answer: the stream of a small response, with its chunk sizes, separator and last chunk. */
  lemma KnownStream()
    ensures Stream(KNOWN) == "37\r\n" + KNOWN_METADATA + [NUL, NUL, NUL, NUL, NUL, NUL, NUL, NUL] + "\r\n" + "2\r\nhi\r\n" + "0\r\n\r\n"
  {
    hide Metadata, Chunk, Decimal.ToString, HexDigits, KNOWN_METADATA;
    KnownMetadata();
    StreamSplits(KNOWN);
    var first := KNOWN_METADATA + SEPARATOR;
    assert Pieces("hi") == ["hi"] && Chunks(["hi"]) == Chunk("hi") + Chunks([]) == Chunk("hi") + "";
    KnownChunks(first);
    assert Chunk(first) == "37\r\n" + KNOWN_METADATA + SEPARATOR + "\r\n";
  }

  lemma KnownChunks(first: string)
    ensures Chunk("hi") == "2\r\nhi\r\n"
    ensures |first| == 55 ==> Chunk(first) == "37\r\n" + first + "\r\n"
  {
    assert HexDigits(2) == "2" && HexDigits(3) == "3" && HexDigits(55) == HexDigits(3) + "7" == "37";
    assert "37\r\n" == "37" + "\r\n";
  }
}
