/**
 `NextResponseParser`: an incremental parser with a bounded header buffer and a declared body
 length. Its specification, `OneShot`, looks at the whole stream at once and knows no fragments.
 */
module NextResponse {
  import opened Wrappers
  import opened Text
  import opened RuntimeHead
  import Decimal

  const MAXIMUM_HEADER_BYTES := 64 * 1024

  datatype Status = Incomplete | Complete | Error

  datatype Invocation = Invocation(requestId: string, deadlineMs: nat, traceId: string, event: string)

  const NO_INVOCATION := Invocation("", 0, "", "")

  datatype Outcome = Outcome(status: Status, invocation: Invocation)

  function Shortest(a: nat, b: nat): nat {
    if a < b then a else b
  }

  /** As much of the stream as the header buffer can hold. */
  function Window(stream: string): string {
    stream[..Shortest(|stream|, MAXIMUM_HEADER_BYTES)]
  }

  /** What a stream is, read in one piece. An error has no invocation to speak of. */
  function OneShot(stream: string): Outcome {
    match Find(Window(stream), BLANK_LINE)
    case None => Outcome(if |stream| >= MAXIMUM_HEADER_BYTES then Error else Incomplete, NO_INVOCATION)
    case Some(e) =>
      match ParseHead(stream[..e])
      case None => Outcome(Error, NO_INVOCATION)
      case Some(head) =>
        var body := stream[e + 4..];
        if |body| > head.contentLength then Outcome(Error, NO_INVOCATION)
        else
          Outcome(
            if |body| == head.contentLength then Complete else Incomplete,
            Invocation(head.requestId, head.deadlineMs, head.traceId, body))
  }

  class NextResponseParser {
    var status: Status
    var buffer: string
    var contentLength: nat
    var headersComplete: bool
    var invocation: Invocation

    /** The bytes fed up to the one call that ended the parse. */
    ghost var fed: string

    ghost predicate Valid()
      reads this
    {
      && status == OneShot(fed).status
      && (status != Error ==> invocation == OneShot(fed).invocation)
      && (status == Complete ==> headersComplete)
      && (status == Incomplete && !headersComplete ==>
            buffer == fed && |fed| < MAXIMUM_HEADER_BYTES && Find(Window(fed), BLANK_LINE) == None)
      && (status == Incomplete && headersComplete ==> HasHead() && |invocation.event| <= contentLength)
    }

    /** The header block is complete, and says how long the event is. */
    ghost predicate HasHead()
      reads this
    {
      && Find(Window(fed), BLANK_LINE).Some?
      && var e := Find(Window(fed), BLANK_LINE).value;
         && ParseHead(fed[..e]).Some?
         && ParseHead(fed[..e]).value.contentLength == contentLength
    }

    constructor ()
      ensures Valid() && fed == "" && status == Incomplete
    {
      status, buffer, contentLength, headersComplete := Incomplete, "", 0, false;
      invocation, fed := NO_INVOCATION, "";
    }

    method AppendEvent(bytes: string) returns (r: Status)
      requires |invocation.event| <= contentLength
      modifies this`status, this`invocation
      ensures r == status
      ensures if |old(invocation.event)| + |bytes| > contentLength then status == Error && invocation == old(invocation)
              else
                && invocation == old(invocation).(event := old(invocation.event) + bytes)
                && status == if |invocation.event| == contentLength then Complete else old(status)
    {
      if |bytes| > contentLength - |invocation.event| {
        status := Error;
        return status;
      }
      invocation := invocation.(event := invocation.event + bytes);
      if |invocation.event| == contentLength {
        status := Complete;
      }
      return status;
    }

    /** `parse_headers`, on the buffer up to the blank line. */
    method ParseHeaders(headerEnd: nat) returns (ok: bool)
      requires headerEnd <= |buffer| && invocation.event == ""
      modifies this`contentLength, this`invocation
      ensures ok <==> ParseHead(buffer[..headerEnd]).Some?
      ensures ok ==>
                var head := ParseHead(buffer[..headerEnd]).value;
                contentLength == head.contentLength && invocation == Invocation(head.requestId, head.deadlineMs, head.traceId, "")
    {
      hide LinesOf, HeadOf, Find;
      var headers := buffer[..headerEnd];
      var firstEnd := Find(headers, CRLF);
      if firstEnd.None? || headers[..firstEnd.value] != STATUS_LINE {
        return false;
      }
      var head;
      ok, head := ParseLines(headers, firstEnd.value + 2);
      contentLength, invocation := head.contentLength, Invocation(head.requestId, head.deadlineMs, head.traceId, "");
    }

    /** The state after a call is what the whole stream so far is, however it was cut up. */
    method Feed(bytes: string) returns (r: Status)
      requires Valid()
      modifies this
      ensures Valid() && r == status
      ensures fed == if old(status) == Incomplete then old(fed) + bytes else old(fed)
      ensures old(status) != Incomplete ==> status == old(status) && invocation == old(invocation)
    {
      hide ParseHead, Find, Window, OneShot;
      if status != Incomplete {
        return status;
      }
      ghost var stream := fed + bytes;
      if headersComplete {
        ghost var e := Find(Window(fed), BLANK_LINE).value;
        SameBlock(fed, bytes);
        GoodBlock(fed, e);
        GoodBlock(stream, e);
        fed := stream;
        r := AppendEvent(bytes);
        return;
      }

      r := FeedHeaders(bytes);
    }

    /** `feed` while the header block is incomplete. */
    method FeedHeaders(bytes: string) returns (r: Status)
      requires Valid() && status == Incomplete && !headersComplete
      modifies this
      ensures Valid() && r == status && fed == old(fed) + bytes
    {
      hide ParseHead, Find, Window, OneShot;
      ghost var stream := fed + bytes;
      NoBlock(fed);
      var availableHeaderBytes := MAXIMUM_HEADER_BYTES - |buffer|;
      var buffered := Shortest(|bytes|, availableHeaderBytes);
      Buffering(fed, bytes, buffered);
      buffer := buffer + bytes[..buffered];
      fed := stream;

      var headerEnd := Find(buffer, BLANK_LINE);
      if headerEnd.None? {
        NoBlock(stream);
        if buffered != |bytes| || |buffer| == MAXIMUM_HEADER_BYTES {
          status := Error;
        }
        return status;
      }
      var bodyOffset := headerEnd.value + 4;
      FoundInside(buffer, headerEnd.value);
      Split(stream, buffer, bytes[buffered..], headerEnd.value);
      var parsed := ParseHeaders(headerEnd.value);
      if bodyOffset > MAXIMUM_HEADER_BYTES || !parsed {
        BadBlock(stream, headerEnd.value);
        status := Error;
        return status;
      }
      GoodBlock(stream, headerEnd.value);
      headersComplete := true;
      var bufferedStatus := AppendEvent(buffer[bodyOffset..]);
      if bufferedStatus == Error {
        return status;
      }
      buffer := "";
      r := AppendEvent(bytes[buffered..]);
    }
  }

  lemma NoBlock(stream: string)
    requires Find(Window(stream), BLANK_LINE) == None
    ensures OneShot(stream) == Outcome(if |stream| >= MAXIMUM_HEADER_BYTES then Error else Incomplete, NO_INVOCATION)
  {
  }

  lemma BadBlock(stream: string, e: nat)
    requires Find(Window(stream), BLANK_LINE) == Some(e) && e <= |stream| && ParseHead(stream[..e]) == None
    ensures OneShot(stream).status == Error
  {
  }

  lemma GoodBlock(stream: string, e: nat)
    requires Find(Window(stream), BLANK_LINE) == Some(e) && e + 4 <= |stream| && ParseHead(stream[..e]).Some?
    ensures var head, body := ParseHead(stream[..e]).value, stream[e + 4..];
            if |body| > head.contentLength then OneShot(stream).status == Error
            else
              OneShot(stream) == Outcome(
                if |body| == head.contentLength then Complete else Incomplete,
                Invocation(head.requestId, head.deadlineMs, head.traceId, body))
  {
  }

  lemma FoundInside(s: string, e: nat)
    requires Find(s, BLANK_LINE) == Some(e)
    ensures e + 4 <= |s|
  {
  }

  /** The line loop of `parse_headers`. */
  method ParseLines(headers: string, firstLine: nat) returns (ok: bool, head: Head)
    requires firstLine <= |headers|
    ensures ok <==> HeadOf(LinesOf(headers[firstLine..])).Some?
    ensures ok ==> HeadOf(LinesOf(headers[firstLine..])) == Some(head)
  {
    hide LinesOf, HeadOf, Recorded, Find, Trim, IndexOf, AsciiEqual, SafeRequestId, Decimal.Parsed;
    var haveLength, haveRequestId, haveDeadline, haveTrace := false, false, false, false;
    head := Head(0, "", 0, "");
    var lineBegin := firstLine;
    ghost var lines: seq<string>, seen: seq<string> := LinesFrom(headers, lineBegin), [];
    AllLines(headers, lineBegin);
    NothingSeen();
    while lineBegin < |headers|
      invariant lines == seen + LinesFrom(headers, lineBegin)
      invariant Recorded(seen, Tally(haveLength, haveRequestId, haveDeadline, haveTrace, head))
      decreases |headers| - lineBegin
    {
      var lineEnd := Find(headers[lineBegin..], CRLF);
      var end := if lineEnd.None? then |headers| else lineBegin + lineEnd.value;
      var line := headers[lineBegin..end];
      NextLine(headers, lineBegin);
      ghost var t := Tally(haveLength, haveRequestId, haveDeadline, haveTrace, head);
      Advance(lines, seen, line, LinesFrom(headers, end + 2), t);
      var colon := IndexOf(line, ':');
      if colon.None? || colon.value == 0 {
        return false, head;
      }
      var name := line[..colon.value];
      var value := TrimView(line[colon.value + 1..]);
      if AsciiEqual(name, CONTENT_LENGTH) {
        var parsed := Decimal.ParseDecimal(value, UINT64_MAX);
        if haveLength || parsed.None? || parsed.value > MAXIMUM_EVENT_BYTES {
          return false, head;
        }
        head := head.(contentLength := parsed.value);
        haveLength := true;
      } else if AsciiEqual(name, REQUEST_ID) {
        if haveRequestId || !SafeRequestId(value) {
          return false, head;
        }
        head := head.(requestId := value);
        haveRequestId := true;
      } else if AsciiEqual(name, DEADLINE) {
        var parsed := Decimal.ParseDecimal(value, UINT64_MAX);
        if haveDeadline || parsed.None? {
          return false, head;
        }
        head := head.(deadlineMs := parsed.value);
        haveDeadline := true;
      } else if AsciiEqual(name, TRACE_ID) {
        if haveTrace {
          return false, head;
        }
        head := head.(traceId := value);
        haveTrace := true;
      } else if AsciiEqual(name, TRANSFER_ENCODING) {
        return false, head;
      }
      lineBegin, seen := end + 2, seen + [line];
    }
    assert lines == seen;
    AllSeen(lines, Tally(haveLength, haveRequestId, haveDeadline, haveTrace, head));
    return haveLength && haveRequestId && haveDeadline && haveTrace, head;
  }

  lemma Advance(lines: seq<string>, seen: seq<string>, line: string, rest: seq<string>, t: Tally)
    requires lines == seen + ([line] + rest) && Recorded(seen, t)
    ensures lines == (seen + [line]) + rest
    ensures TakeLine(t, line).None? ==> HeadOf(lines) == None
    ensures TakeLine(t, line).Some? ==> Recorded(seen + [line], TakeLine(t, line).value)
  {
    hide *;
    if TakeLine(t, line).None? {
      RefusedIsUnacceptable(seen, line, lines, t);
    } else {
      TakenIsRecorded(seen, line, t);
    }
  }

  /** The lines from an offset, past the end none. */
  ghost function LinesFrom(headers: string, from: nat): seq<string> {
    if from < |headers| then LinesOf(headers[from..]) else []
  }

  lemma AllLines(headers: string, from: nat)
    requires from <= |headers|
    ensures LinesFrom(headers, from) == LinesOf(headers[from..])
  {
  }

  lemma NextLine(headers: string, from: nat)
    requires from < |headers|
    ensures var e := Find(headers[from..], CRLF);
            var end := if e.None? then |headers| else from + e.value;
            from <= end <= |headers| && LinesFrom(headers, from) == [headers[from..end]] + LinesFrom(headers, end + 2)
  {
    hide Find;
    var rest := headers[from..];
    var e := Find(rest, CRLF);
    if e.Some? {
      assert rest[..e.value] == headers[from..from + e.value];
      assert rest[e.value + 2..] == headers[from + e.value + 2..];
      AllLines(headers, from + e.value + 2);
    } else {
      assert LinesFrom(headers, from) == [rest] == [rest] + [];
      assert rest == headers[from..|headers|];
    }
  }

  /** What fits the buffer is the window on the stream. */
  lemma Buffering(fed: string, bytes: string, buffered: nat)
    requires |fed| < MAXIMUM_HEADER_BYTES && buffered == Shortest(|bytes|, MAXIMUM_HEADER_BYTES - |fed|)
    ensures fed + bytes[..buffered] == Window(fed + bytes) && |Window(fed + bytes)| <= MAXIMUM_HEADER_BYTES
    ensures fed + bytes == Window(fed + bytes) + bytes[buffered..]
    ensures buffered != |bytes| || |fed| + buffered == MAXIMUM_HEADER_BYTES <==> |fed + bytes| >= MAXIMUM_HEADER_BYTES
  {
  }

  /** The block is in the buffer, the body in what follows it there and outside. */
  lemma Split(stream: string, buffer: string, rest: string, e: nat)
    requires stream == buffer + rest && e + 4 <= |buffer|
    ensures buffer[..e] == stream[..e] && stream[e + 4..] == buffer[e + 4..] + rest
  {
  }

  // ----- more bytes

  /** Once the block is complete, more bytes only extend the body. */
  lemma SameBlock(stream: string, more: string)
    requires Find(Window(stream), BLANK_LINE).Some?
    ensures Find(Window(stream + more), BLANK_LINE) == Find(Window(stream), BLANK_LINE)
    ensures var e := Find(Window(stream), BLANK_LINE).value;
            && (stream + more)[..e] == stream[..e] && e + 4 <= |stream|
            && (stream + more)[e + 4..] == stream[e + 4..] + more
  {
    hide Find;
    assert Window(stream) <= Window(stream + more);
    FoundInPrefix(Window(stream), Window(stream + more), BLANK_LINE);
  }

  /** No further bytes mend an error. */
  lemma ErrorStays(stream: string, more: string)
    requires OneShot(stream).status == Error
    ensures OneShot(stream + more).status == Error
  {
    hide Find, ParseHead;
    if Find(Window(stream), BLANK_LINE).Some? {
      SameBlock(stream, more);
    } else {
      assert Window(stream + more) == Window(stream);
    }
  }

  /** Any byte after a complete response is one too many. */
  lemma ExcessIsAnError(stream: string, more: string)
    requires OneShot(stream).status == Complete && more != ""
    ensures OneShot(stream + more).status == Error
  {
    hide Find, ParseHead;
    SameBlock(stream, more);
  }

  // ----- fragments

  function Concat(fragments: seq<string>): string {
    if fragments == [] then "" else Concat(fragments[..|fragments| - 1]) + fragments[|fragments| - 1]
  }

  /** What a new parser has been fed after these calls: a call after the end adds nothing. */
  function Absorbed(fragments: seq<string>): string {
    if fragments == [] then ""
    else
      var before := Absorbed(fragments[..|fragments| - 1]);
      if OneShot(before).status == Incomplete then before + fragments[|fragments| - 1] else before
  }

  /** A new parser, fed these fragments one call each. */
  method FeedAll(fragments: seq<string>) returns (status: Status, invocation: Invocation)
    ensures status == OneShot(Absorbed(fragments)).status
    ensures status != Error ==> invocation == OneShot(Absorbed(fragments)).invocation
  {
    hide OneShot;
    var parser := new NextResponseParser();
    for index := 0 to |fragments|
      invariant parser.Valid() && fresh(parser)
      invariant parser.fed == Absorbed(fragments[..index])
    {
      assert fragments[..index + 1][..index] == fragments[..index];
      var s := parser.Feed(fragments[index]);
      ParserStatus(parser);
    }
    assert fragments[..|fragments|] == fragments;
    return parser.status, parser.invocation;
  }

  lemma ParserStatus(parser: NextResponseParser)
    requires parser.Valid()
    ensures parser.status == OneShot(parser.fed).status
  {
  }

  /** The fragments end somewhere exactly where the declared body ends. */
  ghost predicate CutAtBodyEnd(fragments: seq<string>) {
    exists k | 0 <= k <= |fragments| :: OneShot(Concat(fragments[..k])).status == Complete
  }

  /** As long as nothing has ended the parse, everything is absorbed; then, the prefix that ended it. */
  lemma {:induction false} AbsorbedPrefix(fragments: seq<string>)
    ensures OneShot(Absorbed(fragments)).status == Incomplete ==> Absorbed(fragments) == Concat(fragments)
    ensures exists k | 0 <= k <= |fragments| :: Absorbed(fragments) == Concat(fragments[..k])
    ensures Absorbed(fragments) <= Concat(fragments)
  {
    hide OneShot;
    if fragments == [] {
      assert Absorbed(fragments) == Concat(fragments[..0]);
    } else {
      var front := fragments[..|fragments| - 1];
      AbsorbedPrefix(front);
      var k :| 0 <= k <= |front| && Absorbed(front) == Concat(front[..k]);
      assert front[..k] == fragments[..k];
      assert fragments[..|fragments|] == fragments;
    }
  }

  /** A stream that ended the parse at one cut is an error at every later cut that adds a byte. */
  lemma {:induction false} CompleteIsKept(fragments: seq<string>, k: nat)
    requires k <= |fragments| && OneShot(Concat(fragments[..k])).status == Complete
    ensures OneShot(Absorbed(fragments)).status == Complete
  {
    hide OneShot;
    var n := |fragments|;
    if k == n {
      assert fragments[..k] == fragments;
      AbsorbedPrefix(fragments);
      var rest := Concat(fragments)[|Absorbed(fragments)|..];
      assert Concat(fragments) == Absorbed(fragments) + rest;
      if OneShot(Absorbed(fragments)).status == Error {
        ErrorStays(Absorbed(fragments), rest);
      }
    } else {
      var front := fragments[..n - 1];
      assert front[..k] == fragments[..k];
      CompleteIsKept(front, k);
    }
  }

  /**
   Fragmentation does not matter. A stream that in one piece is complete or incomplete has the same
   outcome in any pieces; one that is an error is an error in any pieces, except that it is complete
   exactly when a cut falls at the end of the declared body and only excess bytes follow.
  */
  lemma FragmentationIndependence(fragments: seq<string>)
    ensures var whole, cut := OneShot(Concat(fragments)), OneShot(Absorbed(fragments));
            && (whole.status != Error ==> cut == whole)
            && (whole.status == Error ==> cut.status == if CutAtBodyEnd(fragments) then Complete else Error)
  {
    hide OneShot;
    AbsorbedPrefix(fragments);
    var stream, absorbed := Concat(fragments), Absorbed(fragments);
    var rest := stream[|absorbed|..];
    assert stream == absorbed + rest;
    match OneShot(absorbed).status
    case Incomplete =>
      if CutAtBodyEnd(fragments) {
        var k :| 0 <= k <= |fragments| && OneShot(Concat(fragments[..k])).status == Complete;
        CompleteIsKept(fragments, k);
      }
    case Error =>
      ErrorStays(absorbed, rest);
      if CutAtBodyEnd(fragments) {
        var k :| 0 <= k <= |fragments| && OneShot(Concat(fragments[..k])).status == Complete;
        CompleteIsKept(fragments, k);
      }
    case Complete =>
      assert CutAtBodyEnd(fragments);
      if rest == "" {
        assert stream == absorbed;
      } else {
        ExcessIsAnError(absorbed, rest);
      }
  }

  /** The exception is real: every complete response followed by excess is one stream with two outcomes. */
  lemma ExcessAfterCut(stream: string, more: string)
    requires OneShot(stream).status == Complete && more != ""
    ensures OneShot(Absorbed([stream + more])).status == Error
    ensures OneShot(Absorbed([stream, more])).status == Complete
  {
    hide OneShot;
    ExcessIsAnError(stream, more);
    FirstCall(stream + more);
    FirstCall(stream);
    assert [stream, more][..1] == [stream];
  }

  lemma FirstCall(fragment: string)
    ensures Absorbed([fragment]) == fragment
  {
    hide Find, ParseHead;
    assert [fragment][..0] == [] && "" + fragment == fragment;
    NoBlock("");
  }
}
