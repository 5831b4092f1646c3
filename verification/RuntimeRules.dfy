/**
 The Runtime API's wire format, spelled out: the names, the limits and the positions of the header lines, and what a
 whole response is.
 */
module RuntimeRules {
  import opened Wrappers
  import opened Text
  import opened Fields
  import opened RuntimeHead
  import opened NextResponse
  import opened RuntimeRoundTrip
  import Decimal

  // ----- header lines

  /** A name that is not empty stands before the first colon. */
  ghost predicate CanSplit(line: string) {
    exists name, rest :: IsSplit(line, name, rest)
  }

  lemma NameIsSplit(line: string)
    ensures HasName(line) <==> CanSplit(line)
  {
    hide IsSplit, IndexOf;
    if HasName(line) {
      var e := IndexOf(line, ':').value;
      SplitHere(line, e);
    }
    if name, rest :| IsSplit(line, name, rest) {
      SplitAtColon(line, name, rest);
    }
  }

  lemma FieldIsNamed(line: string, name: string, value: string)
    ensures IsField(line, name, value) <==> IsNamed(line, name) && FieldValue(line) == value
  {
    hide IsSplit, IndexOf, Trim, AsciiEqual, SameName;
    if IsField(line, name, value) {
      var n, rest :| IsSplit(line, n, rest) && SameName(n, name) && value == Trim(rest);
      SplitAtColon(line, n, rest);
      NamesAgree(n, name);
    }
    if IsNamed(line, name) && FieldValue(line) == value {
      var e := IndexOf(line, ':').value;
      SplitHere(line, e);
      NamesAgree(line[..e], name);
    }
  }

  /** Exactly one line is such a field, and this is its value. */
  ghost predicate Once(lines: seq<string>, name: string, value: string) {
    exists k | 0 <= k < |lines| :: IsField(lines[k], name, value) && forall j, v | 0 <= j < |lines| && j != k :: !IsField(lines[j], name, v)
  }

  ghost predicate Never(lines: seq<string>, name: string) {
    forall k, v | 0 <= k < |lines| :: !IsField(lines[k], name, v)
  }

  lemma {:induction false} NeverHasNoValues(lines: seq<string>, name: string)
    ensures Never(lines, name) <==> Values(lines, name) == []
  {
    hide IsField, HasName, AsciiEqual, FieldValue;
    if lines != [] {
      var front, line := lines[..|lines| - 1], lines[|lines| - 1];
      NeverHasNoValues(front, name);
      NamedIsField(line, name);
      assert lines == front + [line];
    }
  }

  lemma NamedIsField(line: string, name: string)
    ensures IsNamed(line, name) <==> exists v :: IsField(line, name, v)
    ensures forall v :: IsField(line, name, v) <==> IsNamed(line, name) && FieldValue(line) == v
  {
    hide IsField, HasName, AsciiEqual, FieldValue;
    forall v
      ensures IsField(line, name, v) <==> IsNamed(line, name) && FieldValue(line) == v
    {
      FieldIsNamed(line, name, v);
    }
    if IsNamed(line, name) {
      assert IsField(line, name, FieldValue(line));
    }
  }

  lemma {:induction false} OnceIsOneValue(lines: seq<string>, name: string, value: string)
    ensures Once(lines, name, value) <==> Values(lines, name) == [value]
  {
    hide IsField, HasName, AsciiEqual, FieldValue;
    if lines != [] {
      var n := |lines| - 1;
      var front, line := lines[..n], lines[n];
      NamedIsField(line, name);
      assert lines == front + [line];
      if IsNamed(line, name) {
        NeverHasNoValues(front, name);
        assert IsField(lines[n], name, FieldValue(line));
        if Values(lines, name) == [value] {
          assert Values(lines, name)[|Values(lines, name)| - 1] == FieldValue(line) && Values(front, name) == [];
          assert forall j, v | 0 <= j < n :: !IsField(lines[j], name, v) <== !IsField(front[j], name, v);
        }
        if Once(lines, name, value) {
          var k :| 0 <= k < |lines| && IsField(lines[k], name, value) && forall j, v | 0 <= j < |lines| && j != k :: !IsField(lines[j], name, v);
          assert k == n;
          assert forall j, v | 0 <= j < |front| :: !IsField(front[j], name, v);
        }
      } else {
        OnceIsOneValue(front, name, value);
        assert forall v :: !IsField(lines[n], name, v);
        if Once(front, name, value) {
          var k :| 0 <= k < |front| && IsField(front[k], name, value) && forall j, v | 0 <= j < |front| && j != k :: !IsField(front[j], name, v);
          assert IsField(lines[k], name, value);
        }
        if Once(lines, name, value) {
          var k :| 0 <= k < |lines| && IsField(lines[k], name, value) && forall j, v | 0 <= j < |lines| && j != k :: !IsField(lines[j], name, v);
          assert IsField(front[k], name, value);
        }
      }
    }
  }

  // ----- the header block

  /** A decimal number of at least one digit. */
  predicate IsNumber(s: string, n: nat) {
    s != "" && (forall c | c in s :: c in "0123456789") && Decimal.AllDigits(s) && Decimal.Value(s) == n
  }

  predicate IsSafeId(s: string) {
    s != "" && forall c | c in s :: c !in "/ ?#\t\\"
  }

  /**
   The lines are accepted with this head exactly when each is named, none is a Transfer-Encoding, and the four headers
   stand there once each with a number of at most 8 MiB, a safe id, a number of 64 bits, and any text.
   */
  lemma HeadIsExact(lines: seq<string>, head: Head)
    ensures HeadOf(lines) == Some(head) <==>
            && EachIsNamed(lines)
            && Never(lines, "Transfer-Encoding")
            && (exists s :: Once(lines, "Content-Length", s) && IsNumber(s, head.contentLength)) && head.contentLength <= 8388608
            && Once(lines, "Lambda-Runtime-Aws-Request-Id", head.requestId) && IsSafeId(head.requestId)
            && (exists s :: Once(lines, "Lambda-Runtime-Deadline-Ms", s) && IsNumber(s, head.deadlineMs)) && head.deadlineMs < 0x1_0000_0000_0000_0000
            && Once(lines, "Lambda-Runtime-Trace-Id", head.traceId)
  {
    hide Values, Once, Never, EachIsNamed, HasName, SafeRequestId, IsSafeId, IsNumber, Decimal.Parsed;
    EachHasName(lines);
    assert TRANSFER_ENCODING == "Transfer-Encoding" && CONTENT_LENGTH == "Content-Length" && DEADLINE == "Lambda-Runtime-Deadline-Ms";
    assert REQUEST_ID == "Lambda-Runtime-Aws-Request-Id" && TRACE_ID == "Lambda-Runtime-Trace-Id";
    NeverHasNoValues(lines, TRANSFER_ENCODING);
    forall name, value
      ensures Once(lines, name, value) <==> Values(lines, name) == [value]
    {
      OnceIsOneValue(lines, name, value);
    }
    forall name | |Values(lines, name)| == 1
      ensures Values(lines, name) == [Values(lines, name)[0]]
    {
    }
    SafeIsSafe(head.requestId);
    OneNumber(lines, CONTENT_LENGTH, head.contentLength);
    OneNumber(lines, DEADLINE, head.deadlineMs);
  }

  ghost predicate EachIsNamed(lines: seq<string>) {
    forall k | 0 <= k < |lines| :: CanSplit(lines[k])
  }

  lemma EachHasName(lines: seq<string>)
    ensures EachIsNamed(lines) <==> forall line | line in lines :: HasName(line)
  {
    hide CanSplit, HasName;
    forall k | 0 <= k < |lines|
      ensures lines[k] in lines && (HasName(lines[k]) <==> CanSplit(lines[k]))
    {
      NameIsSplit(lines[k]);
    }
  }

  lemma SafeIsSafe(s: string)
    ensures SafeRequestId(s) <==> IsSafeId(s)
  {
    var bad := "/ ?#\t\\";
    assert bad == ['/', ' ', '?', '#', '\t', '\\'];
    assert bad[0] in bad && bad[1] in bad && bad[2] in bad && bad[3] in bad && bad[4] in bad && bad[5] in bad;
  }

  lemma OneNumber(lines: seq<string>, name: string, n: nat)
    ensures (exists s :: Once(lines, name, s) && IsNumber(s, n)) && n <= UINT64_MAX <==>
            |Values(lines, name)| == 1 && Decimal.Parsed(Values(lines, name)[0], UINT64_MAX) == Some(n)
  {
    hide Values, Once;
    forall s
      ensures Once(lines, name, s) <==> Values(lines, name) == [s]
      ensures IsNumber(s, n) && n <= UINT64_MAX <==> Decimal.Parsed(s, UINT64_MAX) == Some(n)
    {
      OnceIsOneValue(lines, name, s);
      ParsedIsNumber(s, n, UINT64_MAX);
    }
    if |Values(lines, name)| == 1 {
      assert Values(lines, name) == [Values(lines, name)[0]];
    }
  }

  lemma ParsedIsNumber(s: string, n: nat, max: nat)
    ensures IsNumber(s, n) && n <= max <==> Decimal.Parsed(s, max) == Some(n)
  {
    hide Decimal.Value;
    forall c: char
      ensures Decimal.IsDigit(c) <==> c in Decimal.DIGITS
    {
      Decimal.DigitsHaveTheirValue(c, 0);
    }
  }

  /** A block is the status line for success, a line end, and accepted lines. */
  lemma BlockIsExact(block: string, head: Head)
    ensures ParseHead(block) == Some(head) <==> exists rest :: block == "HTTP/1.1 200 OK\r\n" + rest && HeadOf(LinesOf(rest)) == Some(head)
  {
    hide HeadOf, LinesOf, Find;
    var start := "HTTP/1.1 200 OK\r\n";
    assert start == STATUS_LINE + CRLF;
    if ParseHead(block) == Some(head) {
      var e := Find(block, CRLF).value;
      assert block == block[..e] + block[e..e + 2] + block[e + 2..];
      assert block == start + block[e + 2..];
    }
    if rest :| block == start + rest && HeadOf(LinesOf(rest)) == Some(head) {
      PlainStatusLine();
      FirstBreak(STATUS_LINE, rest);
      assert block == STATUS_LINE + CRLF + rest;
      assert block[..|STATUS_LINE|] == STATUS_LINE && block[|STATUS_LINE| + 2..] == rest;
    }
  }

  // ----- the whole response

  /** No blank line starts before place n. */
  predicate NoBlankLine(s: string, n: nat) {
    forall j | 0 <= j < n :: !At(s, "\r\n\r\n", j)
  }

  /** The stream is a block, the first blank line, and more; blank line and block fit in 64 KiB. */
  predicate IsCut(stream: string, block: string, more: string) {
    stream == block + "\r\n\r\n" + more && NoBlankLine(stream, |block|) && |block| + 4 <= 65536
  }

  lemma CutIsFound(stream: string, block: string, more: string)
    ensures IsCut(stream, block, more) <==>
            && Find(Window(stream), BLANK_LINE).Some? && block == stream[..Find(Window(stream), BLANK_LINE).value]
            && more == stream[Find(Window(stream), BLANK_LINE).value + 4..]
  {
    hide Find;
    var w := Window(stream);
    forall j: nat | j + 4 <= |w|
      ensures At(w, BLANK_LINE, j) <==> At(stream, BLANK_LINE, j)
    {
      assert w[j..j + 4] == stream[j..j + 4];
    }
    if IsCut(stream, block, more) {
      var e := |block|;
      assert stream[e..e + 4] == "\r\n\r\n" && stream[..e] == block && stream[e + 4..] == more;
      assert At(stream, BLANK_LINE, e);
      FoundAt(w, BLANK_LINE, e);
    }
    if Find(w, BLANK_LINE).Some? {
      var e := Find(w, BLANK_LINE).value;
      assert At(w, BLANK_LINE, e) && At(stream, BLANK_LINE, e);
      assert stream == stream[..e] + stream[e..e + 4] + stream[e + 4..];
      forall j | 0 <= j < e
        ensures !At(stream, BLANK_LINE, j)
      {
        assert !At(w, BLANK_LINE, j);
      }
    }
  }

  /** There is no cut exactly when no blank line lies within the first 64 KiB. */
  lemma NoCut(stream: string)
    ensures Find(Window(stream), BLANK_LINE).None? <==> forall block, more :: !IsCut(stream, block, more)
  {
    hide Find, IsCut;
    forall block, more
      ensures Find(Window(stream), BLANK_LINE).None? ==> !IsCut(stream, block, more)
    {
      CutIsFound(stream, block, more);
    }
    if Find(Window(stream), BLANK_LINE).Some? {
      var e := Find(Window(stream), BLANK_LINE).value;
      CutIsFound(stream, stream[..e], stream[e + 4..]);
    }
  }

  /** A stream is complete with an invocation exactly when it is an accepted block, a blank line and as many bytes as declared. */
  lemma CompleteIsExact(stream: string, i: Invocation)
    ensures OneShot(stream) == Outcome(Complete, i) <==>
            exists block :: IsCut(stream, block, i.event) && ParseHead(block) == Some(Head(|i.event|, i.requestId, i.deadlineMs, i.traceId))
  {
    hide Find, IsCut, ParseHead;
    forall block, more
      ensures IsCut(stream, block, more) <==>
              && Find(Window(stream), BLANK_LINE).Some? && block == stream[..Find(Window(stream), BLANK_LINE).value]
              && more == stream[Find(Window(stream), BLANK_LINE).value + 4..]
    {
      CutIsFound(stream, block, more);
    }
    if OneShot(stream) == Outcome(Complete, i) {
      var e := Find(Window(stream), BLANK_LINE).value;
      assert IsCut(stream, stream[..e], i.event);
    }
  }

  /** A stream is an error exactly when 64 KiB hold no blank line, the block is not accepted, or more follows than declared. */
  lemma ErrorIsExact(stream: string)
    ensures OneShot(stream).status == Error <==>
            || (|stream| >= 65536 && forall block, more :: !IsCut(stream, block, more))
            || (exists block, more :: IsCut(stream, block, more) && (ParseHead(block) == None || |more| > ParseHead(block).value.contentLength))
  {
    hide Find, IsCut, ParseHead;
    NoCut(stream);
    forall block, more
      ensures IsCut(stream, block, more) <==>
              && Find(Window(stream), BLANK_LINE).Some? && block == stream[..Find(Window(stream), BLANK_LINE).value]
              && more == stream[Find(Window(stream), BLANK_LINE).value + 4..]
    {
      CutIsFound(stream, block, more);
    }
    if Find(Window(stream), BLANK_LINE).Some? {
      var e := Find(Window(stream), BLANK_LINE).value;
      assert IsCut(stream, stream[..e], stream[e + 4..]);
    }
  }

  /** The response as it stands on the wire. */
  lemma LiteralResponse(i: Invocation)
    requires Printable(i) && |i.requestId| + |i.traceId| <= 60000
    ensures OneShot("HTTP/1.1 200 OK\r\n"
                    + ("Content-Length: " + Decimal.ToString(|i.event|) + "\r\n")
                    + ("Lambda-Runtime-Aws-Request-Id: " + i.requestId + "\r\n")
                    + ("Lambda-Runtime-Deadline-Ms: " + Decimal.ToString(i.deadlineMs) + "\r\n")
                    + ("Lambda-Runtime-Trace-Id: " + i.traceId + "\r\n")
                    + "\r\n" + i.event)
         == Outcome(Complete, i)
  {
    hide Printable, OneShot, Decimal.ToString, HeaderLines, Join;
    var lines := HeaderLines(i);
    FiveLines(i);
    assert lines + [] == lines;
    ParserUndoesPrinter(i, [], lines);
  }

  lemma FiveLines(i: Invocation)
    requires Printable(i) && |i.requestId| + |i.traceId| <= 60000
    ensures AreLines(HeaderLines(i))
    ensures Join([STATUS_LINE] + HeaderLines(i))
         == "HTTP/1.1 200 OK\r\n"
            + ("Content-Length: " + Decimal.ToString(|i.event|) + "\r\n")
            + ("Lambda-Runtime-Aws-Request-Id: " + i.requestId + "\r\n")
            + ("Lambda-Runtime-Deadline-Ms: " + Decimal.ToString(i.deadlineMs) + "\r\n")
            + ("Lambda-Runtime-Trace-Id: " + i.traceId + "\r\n")
    ensures |Join([STATUS_LINE] + HeaderLines(i))| + 2 <= 65536
  {
    hide Decimal.ToString, Decimal.Power10, Join, AreLines, Field, SafeRequestId, IsTrimmed, Unbroken;
    FieldsUnbroken(i);
    var l := HeaderLines(i);
    assert [STATUS_LINE] + l == [STATUS_LINE, l[0], l[1], l[2], l[3]];
    JoinsFive(STATUS_LINE, l[0], l[1], l[2], l[3]);
    FieldLiterals(Decimal.ToString(|i.event|), i.requestId, Decimal.ToString(i.deadlineMs), i.traceId);
    TwentyDigits(|i.event|);
    TwentyDigits(i.deadlineMs);
  }

  lemma JoinsFive(a: string, b: string, c: string, d: string, e: string)
    ensures Join([a, b, c, d, e]) == (a + "\r\n") + (b + "\r\n") + (c + "\r\n") + (d + "\r\n") + (e + "\r\n")
  {
    hide Join;
    JoinsOne(a, [b, c, d, e]);
    JoinsOne(b, [c, d, e]);
    JoinsOne(c, [d, e]);
    JoinsOne(d, [e]);
    JoinsOne(e, []);
    assert [a] + [b, c, d, e] == [a, b, c, d, e] && [b] + [c, d, e] == [b, c, d, e] && [c] + [d, e] == [c, d, e] && [d] + [e] == [d, e];
    assert [e] + [] == [e] && Join([]) == "" by {
      JoinsNone();
    }
  }

  lemma JoinsNone()
    ensures Join([]) == ""
  {
  }

  /** The literal lines are the fields, and none is long. */
  lemma FieldLiterals(length: string, id: string, deadline: string, trace: string)
    ensures "HTTP/1.1 200 OK\r\n" == STATUS_LINE + "\r\n"
    ensures "Content-Length: " + length + "\r\n" == Field(CONTENT_LENGTH, length) + "\r\n"
    ensures "Lambda-Runtime-Aws-Request-Id: " + id + "\r\n" == Field(REQUEST_ID, id) + "\r\n"
    ensures "Lambda-Runtime-Deadline-Ms: " + deadline + "\r\n" == Field(DEADLINE, deadline) + "\r\n"
    ensures "Lambda-Runtime-Trace-Id: " + trace + "\r\n" == Field(TRACE_ID, trace) + "\r\n"
    ensures |STATUS_LINE| == 15 && |Field(CONTENT_LENGTH, length)| == |length| + 16 && |Field(REQUEST_ID, id)| == |id| + 31
    ensures |Field(DEADLINE, deadline)| == |deadline| + 28 && |Field(TRACE_ID, trace)| == |trace| + 25
  {
    assert "Content-Length" + ": " == "Content-Length: ";
    assert "Lambda-Runtime-Aws-Request-Id" + ": " == "Lambda-Runtime-Aws-Request-Id: ";
    assert "Lambda-Runtime-Deadline-Ms" + ": " == "Lambda-Runtime-Deadline-Ms: ";
    assert "Lambda-Runtime-Trace-Id" + ": " == "Lambda-Runtime-Trace-Id: ";
  }

  lemma JoinsOne(line: string, lines: seq<string>)
    ensures Join([line] + lines) == line + "\r\n" + Join(lines)
  {
    assert ([line] + lines)[1..] == lines;
  }

  lemma TwentyDigits(n: nat)
    requires n <= UINT64_MAX
    ensures |Decimal.ToString(n)| <= 20
  {
    assert Decimal.Power10(5) == 100000;
    assert Decimal.Power10(10) == 10000000000;
    assert Decimal.Power10(15) == 1000000000000000;
    assert Decimal.Power10(20) == 100000000000000000000;
    Decimal.DigitsNeeded(n, 20);
  }

  lemma FieldsUnbroken(i: Invocation)
    requires Printable(i)
    ensures AreLines(HeaderLines(i))
  {
    hide Decimal.ToString, IsTrimmed, SafeRequestId;
    DigitsAreTrimmed(|i.event|);
    DigitsAreTrimmed(i.deadlineMs);
    PlainLength();
    PlainRequestId();
    PlainDeadline();
    PlainTraceId();
  }
}
