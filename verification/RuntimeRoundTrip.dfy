/** Printing an invocation as the Runtime API does and feeding it to the parser gives it back. */
module RuntimeRoundTrip {
  import opened Wrappers
  import opened Text
  import opened RuntimeHead
  import opened NextResponse
  import Decimal

  /** The invocations a header block can carry. */
  predicate Printable(i: Invocation) {
    && SafeRequestId(i.requestId) && Unbroken(i.requestId)
    && Unbroken(i.traceId) && IsTrimmed(i.traceId)
    && i.deadlineMs <= UINT64_MAX
    && |i.event| <= MAXIMUM_EVENT_BYTES
  }

  function Field(name: string, value: string): string {
    name + ": " + value
  }

  function HeaderLines(i: Invocation): seq<string> {
    [
      Field(CONTENT_LENGTH, Decimal.ToString(|i.event|)),
      Field(REQUEST_ID, i.requestId),
      Field(DEADLINE, Decimal.ToString(i.deadlineMs)),
      Field(TRACE_ID, i.traceId)
    ]
  }

  /** A header the parser passes over. */
  predicate IsIgnored(line: string) {
    && HasName(line)
    && !IsNamed(line, CONTENT_LENGTH) && !IsNamed(line, REQUEST_ID) && !IsNamed(line, DEADLINE)
    && !IsNamed(line, TRACE_ID) && !IsNamed(line, TRANSFER_ENCODING)
  }

  lemma FieldReads(name: string, value: string)
    requires name != [] && ':' !in name && IsTrimmed(value)
    ensures var line := Field(name, value);
            && HasName(line) && line[..IndexOf(line, ':').value] == name && FieldValue(line) == value
            && forall other :: IsNamed(line, other) <==> AsciiEqual(name, other)
  {
    hide IndexOf, Trim;
    var line := Field(name, value);
    assert line == name + [':'] + (" " + value);
    IndexAfter(name, ':', " " + value);
    assert line[..|name|] == name && line[|name| + 1..] == " " + value;
    TrimSpaced(value);
  }

  lemma DigitsAreTrimmed(n: nat)
    ensures IsTrimmed(Decimal.ToString(n)) && Unbroken(Decimal.ToString(n))
  {
    var s := Decimal.ToString(n);
    assert s[0] in s && s[|s| - 1] in s;
  }

  lemma SafeIsTrimmed(s: string)
    requires SafeRequestId(s)
    ensures IsTrimmed(s)
  {
    assert s[0] in s && s[|s| - 1] in s;
  }

  predicate IsPlain(s: string) {
    ':' !in s && Unbroken(s)
  }

  lemma PlainLength()
    ensures IsPlain(CONTENT_LENGTH)
  {
  }

  lemma PlainRequestId()
    ensures IsPlain(REQUEST_ID)
  {
  }

  lemma PlainDeadline()
    ensures IsPlain(DEADLINE)
  {
  }

  lemma PlainTraceId()
    ensures IsPlain(TRACE_ID)
  {
  }

  lemma PlainStatusLine()
    ensures Unbroken(STATUS_LINE)
  {
  }

  /** Each printed line is read back, under its own name only. */
  lemma LinesRead(i: Invocation)
    requires Printable(i)
    ensures forall line | line in HeaderLines(i) :: HasName(line)
    ensures Values(HeaderLines(i), CONTENT_LENGTH) == [Decimal.ToString(|i.event|)]
    ensures Values(HeaderLines(i), REQUEST_ID) == [i.requestId]
    ensures Values(HeaderLines(i), DEADLINE) == [Decimal.ToString(i.deadlineMs)]
    ensures Values(HeaderLines(i), TRACE_ID) == [i.traceId]
    ensures Values(HeaderLines(i), TRANSFER_ENCODING) == []
  {
    hide HasName, IsNamed, FieldValue, Field, AsciiEqual, SafeRequestId, IsTrimmed, Unbroken, Values;
    var l := HeaderLines(i);
    PlainLength();
    PlainRequestId();
    PlainDeadline();
    PlainTraceId();
    DigitsAreTrimmed(|i.event|);
    DigitsAreTrimmed(i.deadlineMs);
    SafeIsTrimmed(i.requestId);
    FieldReads(CONTENT_LENGTH, Decimal.ToString(|i.event|));
    FieldReads(REQUEST_ID, i.requestId);
    FieldReads(DEADLINE, Decimal.ToString(i.deadlineMs));
    FieldReads(TRACE_ID, i.traceId);
    OnlyItself();
    FourValues(l, CONTENT_LENGTH);
    FourValues(l, REQUEST_ID);
    FourValues(l, DEADLINE);
    FourValues(l, TRACE_ID);
    FourValues(l, TRANSFER_ENCODING);
  }

  lemma OnlyItself()
    ensures forall a, b | a in [CONTENT_LENGTH, REQUEST_ID, DEADLINE, TRACE_ID] && b in [CONTENT_LENGTH, REQUEST_ID, DEADLINE, TRACE_ID, TRANSFER_ENCODING]
              :: AsciiEqual(a, b) <==> a == b
  {
    assert |CONTENT_LENGTH| == 14 && |REQUEST_ID| == 29 && |DEADLINE| == 26 && |TRACE_ID| == 23 && |TRANSFER_ENCODING| == 17;
  }

  function One(line: string, name: string): seq<string> {
    if IsNamed(line, name) then [FieldValue(line)] else []
  }

  lemma FourValues(l: seq<string>, name: string)
    requires |l| == 4
    ensures Values(l, name) == One(l[0], name) + One(l[1], name) + One(l[2], name) + One(l[3], name)
  {
    hide IsNamed, FieldValue;
    assert l == [l[0]] + [l[1]] + [l[2]] + [l[3]];
    ValuesConcat([l[0]] + [l[1]] + [l[2]], [l[3]], name);
    ValuesConcat([l[0]] + [l[1]], [l[2]], name);
    ValuesConcat([l[0]], [l[1]], name);
  }

  lemma {:induction false} IgnoredHaveNoValues(lines: seq<string>)
    requires forall k | 0 <= k < |lines| :: IsIgnored(lines[k])
    ensures Values(lines, CONTENT_LENGTH) == Values(lines, REQUEST_ID) == Values(lines, DEADLINE) == Values(lines, TRACE_ID) == Values(lines, TRANSFER_ENCODING) == []
  {
    hide IsNamed, FieldValue, HasName;
    if lines != [] {
      IgnoredHaveNoValues(lines[..|lines| - 1]);
    }
  }

  /** The printed lines among ignored ones are accepted with exactly the printed values. */
  lemma PrintedHead(i: Invocation, extra: seq<string>)
    requires Printable(i) && forall k | 0 <= k < |extra| :: IsIgnored(extra[k])
    ensures HeadOf(HeaderLines(i) + extra) == Some(Head(|i.event|, i.requestId, i.deadlineMs, i.traceId))
  {
    hide IsNamed, FieldValue, HasName, SafeRequestId, Values, HeaderLines, Decimal.ToString, Unbroken, IsTrimmed;
    LinesRead(i);
    IgnoredHaveNoValues(extra);
    var l := HeaderLines(i);
    ValuesConcat(l, extra, CONTENT_LENGTH);
    ValuesConcat(l, extra, REQUEST_ID);
    ValuesConcat(l, extra, DEADLINE);
    ValuesConcat(l, extra, TRACE_ID);
    ValuesConcat(l, extra, TRANSFER_ENCODING);
    Decimal.ToStringValue(|i.event|);
    Decimal.ToStringValue(i.deadlineMs);
    assert forall line | line in l + extra :: HasName(line);
  }

  /** The response the Runtime API sends for an invocation, its header lines in any order and with others among them. */
  function Response(lines: seq<string>, event: string): string {
    Join([STATUS_LINE] + lines) + CRLF + event
  }

  /** Parsing undoes printing. */
  lemma ParserUndoesPrinter(i: Invocation, extra: seq<string>, lines: seq<string>)
    requires Printable(i)
    requires forall k | 0 <= k < |extra| :: IsIgnored(extra[k])
    requires multiset(lines) == multiset(HeaderLines(i) + extra) && AreLines(lines)
    requires |Join([STATUS_LINE] + lines)| + 2 <= MAXIMUM_HEADER_BYTES
    ensures OneShot(Response(lines, i.event)) == Outcome(Complete, i)
  {
    hide Printable, IsIgnored, HeaderLines, HeadOf, LinesOf, Join, Find, At, Unbroken;
    var all := [STATUS_LINE] + lines;
    PlainStatusLine();
    assert AreLines(all);
    SomeLine(i, extra, lines);
    var stream, e := Response(lines, i.event), |Join(all)| - 2;
    BlockEnd(all, i.event);
    WindowHolds(stream, e);
    BlockHead(lines, i.event);
    PrintedHead(i, extra);
    OrderDoesNotMatter(lines, HeaderLines(i) + extra);
    JoinEnds(all);
    assert stream[e + 4..] == i.event;
  }

  lemma SomeLine(i: Invocation, extra: seq<string>, lines: seq<string>)
    requires multiset(lines) == multiset(HeaderLines(i) + extra)
    ensures lines != []
  {
    assert |multiset(lines)| == |lines|;
    assert |multiset(HeaderLines(i) + extra)| == |HeaderLines(i) + extra|;
  }

  lemma WindowHolds(stream: string, e: nat)
    requires Find(stream, BLANK_LINE) == Some(e) && e + 4 <= MAXIMUM_HEADER_BYTES
    ensures Find(Window(stream), BLANK_LINE) == Some(e)
  {
    var w := Window(stream);
    assert w[e..e + 4] == stream[e..e + 4];
    forall j | 0 <= j < e
      ensures !At(w, BLANK_LINE, j)
    {
      assert !At(stream, BLANK_LINE, j);
      assert w[j..j + 4] == stream[j..j + 4];
    }
    FoundAt(w, BLANK_LINE, e);
  }

  lemma {:induction false} JoinEnds(lines: seq<string>)
    requires lines != []
    ensures |Join(lines)| >= 2 && Join(lines)[|Join(lines)| - 2..] == CRLF
  {
    if |lines| > 1 {
      JoinEnds(lines[1..]);
      assert Join(lines) == lines[0] + CRLF + Join(lines[1..]);
      var n := |Join(lines)|;
      assert Join(lines)[n - 2..] == Join(lines[1..])[|Join(lines[1..])| - 2..];
    } else {
      assert Join(lines[1..]) == "";
      assert Join(lines) == lines[0] + CRLF;
    }
  }

  /** The block up to the blank line is the status line and the lines. */
  lemma BlockHead(lines: seq<string>, event: string)
    requires lines != [] && AreLines([STATUS_LINE] + lines)
    ensures var all := [STATUS_LINE] + lines;
            && |Join(all)| > 2
            && ParseHead(Response(lines, event)[..|Join(all)| - 2]) == HeadOf(LinesOf(Join(lines)[..|Join(lines)| - 2]))
            && LinesOf(Join(lines)[..|Join(lines)| - 2]) == lines
  {
    hide HeadOf, LinesOf, Find, Unbroken;
    var all := [STATUS_LINE] + lines;
    assert all[1..] == lines && all[0] == STATUS_LINE;
    assert forall k | 0 <= k < |lines| :: lines[k] == all[k + 1];
    SplitJoined(lines);
    var rest := Join(lines)[..|Join(lines)| - 2];
    var headers := Response(lines, event)[..|Join(all)| - 2];
    assert Join(all) == STATUS_LINE + CRLF + Join(lines);
    assert headers == STATUS_LINE + CRLF + rest;
    FirstBreak(STATUS_LINE, rest);
    assert headers[..|STATUS_LINE|] == STATUS_LINE && headers[|STATUS_LINE| + 2..] == rest;
  }

  /** And so it does in any fragments. */
  lemma ParserUndoesPrinterInPieces(i: Invocation, extra: seq<string>, lines: seq<string>, fragments: seq<string>)
    requires Printable(i)
    requires forall k | 0 <= k < |extra| :: IsIgnored(extra[k])
    requires multiset(lines) == multiset(HeaderLines(i) + extra) && AreLines(lines)
    requires |Join([STATUS_LINE] + lines)| + 2 <= MAXIMUM_HEADER_BYTES
    requires Concat(fragments) == Response(lines, i.event)
    ensures OneShot(Absorbed(fragments)) == Outcome(Complete, i)
  {
    hide *;
    ParserUndoesPrinter(i, extra, lines);
    FragmentationIndependence(fragments);
  }
}
