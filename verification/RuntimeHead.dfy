/**
 The header block of a Runtime API response: what `parse_headers` accepts, said by counting
 header lines, so that the order of the lines cannot matter.
 */
module RuntimeHead {
  import opened Wrappers
  import opened Text
  import Decimal

  const STATUS_LINE := "HTTP/1.1 200 OK"
  const REQUEST_ID := "Lambda-Runtime-Aws-Request-Id"
  const DEADLINE := "Lambda-Runtime-Deadline-Ms"
  const TRACE_ID := "Lambda-Runtime-Trace-Id"
  const TRANSFER_ENCODING := "Transfer-Encoding"

  const UINT64_MAX := 0xFFFF_FFFF_FFFF_FFFF
  const MAXIMUM_EVENT_BYTES := 8 * 1024 * 1024

  datatype Head = Head(contentLength: nat, requestId: string, deadlineMs: nat, traceId: string)

  predicate SafeRequestId(s: string) {
    s != [] && '/' !in s && ' ' !in s && '?' !in s && '#' !in s && '\t' !in s && '\\' !in s
  }

  // ----- lines

  /** The lines of a text; a CRLF at its end does not start another. */
  function LinesOf(text: string): seq<string> {
    if text == [] then []
    else
      match Find(text, CRLF)
      case None => [text]
      case Some(e) => [text[..e]] + LinesOf(text[e + 2..])
  }

  /** The line has a name before its first colon. */
  predicate HasName(line: string) {
    IndexOf(line, ':').Some? && IndexOf(line, ':').value > 0
  }

  predicate IsNamed(line: string, name: string) {
    HasName(line) && AsciiEqual(line[..IndexOf(line, ':').value], name)
  }

  function FieldValue(line: string): string
    requires HasName(line)
  {
    Trim(line[IndexOf(line, ':').value + 1..])
  }

  /** The values of the lines with this name, in order. */
  function Values(lines: seq<string>, name: string): seq<string> {
    if lines == [] then []
    else
      var front, line := lines[..|lines| - 1], lines[|lines| - 1];
      if IsNamed(line, name) then Values(front, name) + [FieldValue(line)] else Values(front, name)
  }

  // ----- what is accepted

  /** Each required header exactly once with a value its type holds, no transfer coding, nothing nameless. */
  predicate Acceptable(lines: seq<string>) {
    && (forall line | line in lines :: HasName(line))
    && Values(lines, TRANSFER_ENCODING) == []
    && |Values(lines, CONTENT_LENGTH)| == 1 && Decimal.Parsed(Values(lines, CONTENT_LENGTH)[0], UINT64_MAX).Some?
    && Decimal.Parsed(Values(lines, CONTENT_LENGTH)[0], UINT64_MAX).value <= MAXIMUM_EVENT_BYTES
    && |Values(lines, REQUEST_ID)| == 1 && SafeRequestId(Values(lines, REQUEST_ID)[0])
    && |Values(lines, DEADLINE)| == 1 && Decimal.Parsed(Values(lines, DEADLINE)[0], UINT64_MAX).Some?
    && |Values(lines, TRACE_ID)| == 1
  }

  function HeadOf(lines: seq<string>): Option<Head> {
    if Acceptable(lines) then
      Some(Head(
             Decimal.Parsed(Values(lines, CONTENT_LENGTH)[0], UINT64_MAX).value,
             Values(lines, REQUEST_ID)[0],
             Decimal.Parsed(Values(lines, DEADLINE)[0], UINT64_MAX).value,
             Values(lines, TRACE_ID)[0]))
    else None
  }

  function ParseHead(headers: string): Option<Head> {
    match Find(headers, CRLF)
    case None => None
    case Some(e) => if headers[..e] != STATUS_LINE then None else HeadOf(LinesOf(headers[e + 2..]))
  }

  // ----- reading line by line

  /** The flags and fields of the line loop. */
  datatype Tally = Tally(haveLength: bool, haveRequestId: bool, haveDeadline: bool, haveTrace: bool, head: Head)

  const NOTHING_YET := Tally(false, false, false, false, Head(0, "", 0, ""))

  /** One turn of the line loop; none when the line is refused. */
  function TakeLine(t: Tally, line: string): Option<Tally> {
    if !HasName(line) then None
    else
      var name, value := line[..IndexOf(line, ':').value], FieldValue(line);
      if AsciiEqual(name, CONTENT_LENGTH) then
        var parsed := Decimal.Parsed(value, UINT64_MAX);
        if t.haveLength || parsed.None? || parsed.value > MAXIMUM_EVENT_BYTES then None
        else Some(t.(haveLength := true, head := t.head.(contentLength := parsed.value)))
      else if AsciiEqual(name, REQUEST_ID) then
        if t.haveRequestId || !SafeRequestId(value) then None
        else Some(t.(haveRequestId := true, head := t.head.(requestId := value)))
      else if AsciiEqual(name, DEADLINE) then
        var parsed := Decimal.Parsed(value, UINT64_MAX);
        if t.haveDeadline || parsed.None? then None
        else Some(t.(haveDeadline := true, head := t.head.(deadlineMs := parsed.value)))
      else if AsciiEqual(name, TRACE_ID) then
        if t.haveTrace then None
        else Some(t.(haveTrace := true, head := t.head.(traceId := value)))
      else if AsciiEqual(name, TRANSFER_ENCODING) then None
      else Some(t)
  }

  /** What the tally says about the lines seen. */
  ghost predicate Recorded(seen: seq<string>, t: Tally) {
    && (forall line | line in seen :: HasName(line))
    && Values(seen, TRANSFER_ENCODING) == []
    && |Values(seen, CONTENT_LENGTH)| == (if t.haveLength then 1 else 0)
    && (t.haveLength ==> Decimal.Parsed(Values(seen, CONTENT_LENGTH)[0], UINT64_MAX) == Some(t.head.contentLength) && t.head.contentLength <= MAXIMUM_EVENT_BYTES)
    && |Values(seen, REQUEST_ID)| == (if t.haveRequestId then 1 else 0)
    && (t.haveRequestId ==> Values(seen, REQUEST_ID)[0] == t.head.requestId && SafeRequestId(t.head.requestId))
    && |Values(seen, DEADLINE)| == (if t.haveDeadline then 1 else 0)
    && (t.haveDeadline ==> Decimal.Parsed(Values(seen, DEADLINE)[0], UINT64_MAX) == Some(t.head.deadlineMs))
    && |Values(seen, TRACE_ID)| == (if t.haveTrace then 1 else 0)
    && (t.haveTrace ==> Values(seen, TRACE_ID)[0] == t.head.traceId)
  }

  lemma NothingSeen()
    ensures Recorded([], NOTHING_YET)
  {
  }

  /** A line that is taken is recorded. */
  lemma TakenIsRecorded(seen: seq<string>, line: string, t: Tally)
    requires Recorded(seen, t) && TakeLine(t, line).Some?
    ensures Recorded(seen + [line], TakeLine(t, line).value)
  {
    hide Values, AsciiEqual, SafeRequestId, Decimal.Parsed, FieldValue, IndexOf;
    SeeLine(seen, line, seen + [line]);
    OneName(line[..IndexOf(line, ':').value]);
  }

  /** A line that is refused makes every block that holds it unacceptable. */
  lemma RefusedIsUnacceptable(seen: seq<string>, line: string, lines: seq<string>, t: Tally)
    requires Recorded(seen, t) && TakeLine(t, line).None? && seen + [line] <= lines
    ensures HeadOf(lines) == None
  {
    hide Values, AsciiEqual, SafeRequestId, Decimal.Parsed, FieldValue, IndexOf;
    SeeLine(seen, line, lines);
    if HasName(line) {
      OneName(line[..IndexOf(line, ':').value]);
    }
  }

  /** One more line adds its value to those of its name, and the lines after it only add more. */
  ghost predicate Sees(seen: seq<string>, line: string, lines: seq<string>, name: string) {
    && Values(seen + [line], name) == (if IsNamed(line, name) then Values(seen, name) + [FieldValue(line)] else Values(seen, name))
    && Values(seen + [line], name) <= Values(lines, name)
  }

  lemma SeeLine(seen: seq<string>, line: string, lines: seq<string>)
    requires seen + [line] <= lines
    ensures Sees(seen, line, lines, CONTENT_LENGTH) && Sees(seen, line, lines, REQUEST_ID) && Sees(seen, line, lines, DEADLINE)
    ensures Sees(seen, line, lines, TRACE_ID) && Sees(seen, line, lines, TRANSFER_ENCODING)
    ensures line in lines
  {
    hide IsNamed, FieldValue;
    var now := seen + [line];
    assert now[..|now| - 1] == seen;
    assert lines == now + lines[|now|..];
    ValuesConcat(now, lines[|now|..], CONTENT_LENGTH);
    ValuesConcat(now, lines[|now|..], REQUEST_ID);
    ValuesConcat(now, lines[|now|..], DEADLINE);
    ValuesConcat(now, lines[|now|..], TRACE_ID);
    ValuesConcat(now, lines[|now|..], TRANSFER_ENCODING);
    assert now[|seen|] == line == lines[|seen|];
  }

  /** The five names have five lengths. */
  lemma OneName(a: string)
    ensures AsciiEqual(a, CONTENT_LENGTH) ==> |a| == 14
    ensures AsciiEqual(a, REQUEST_ID) ==> |a| == 29
    ensures AsciiEqual(a, DEADLINE) ==> |a| == 26
    ensures AsciiEqual(a, TRACE_ID) ==> |a| == 23
    ensures AsciiEqual(a, TRANSFER_ENCODING) ==> |a| == 17
  {
  }

  /** When all lines are seen, the flags decide. */
  lemma AllSeen(lines: seq<string>, t: Tally)
    requires Recorded(lines, t)
    ensures HeadOf(lines) == if t.haveLength && t.haveRequestId && t.haveDeadline && t.haveTrace then Some(t.head) else None
  {
    hide Values, HasName, SafeRequestId;
  }

  // ----- the order of the lines does not matter

  lemma {:induction false} ValuesConcat(a: seq<string>, b: seq<string>, name: string)
    ensures Values(a + b, name) == Values(a, name) + Values(b, name)
  {
    hide IsNamed, FieldValue;
    if b == [] {
      assert a + b == a;
    } else {
      var front := b[..|b| - 1];
      ValuesConcat(a, front, name);
      assert (a + b)[..|a + b| - 1] == a + front;
    }
  }

  lemma {:induction false} ValuesPermuted(a: seq<string>, b: seq<string>, name: string)
    requires multiset(a) == multiset(b)
    ensures multiset(Values(a, name)) == multiset(Values(b, name))
  {
    hide IsNamed, FieldValue, Values;
    if a == [] {
      assert |multiset(b)| == 0;
    } else {
      var front, line := a[..|a| - 1], a[|a| - 1];
      assert a == front + [line];
      var before, after := TakeOut(front, line, b);
      ValuesPermuted(front, before + after, name);
      ValuesConcat(front, [line], name);
      ValuesConcat(before, after, name);
      ValuesConcat(before + [line], after, name);
      ValuesConcat(before, [line], name);
    }
  }

  lemma TakeOut(front: seq<string>, line: string, b: seq<string>) returns (before: seq<string>, after: seq<string>)
    requires multiset(front + [line]) == multiset(b)
    ensures b == before + [line] + after && multiset(front) == multiset(before + after)
  {
    assert line in multiset(b);
    var j :| 0 <= j < |b| && b[j] == line;
    before, after := b[..j], b[j + 1..];
    assert b == before + [line] + after;
    assert multiset(front) == multiset(b) - multiset{line};
    assert multiset(b) == multiset(before) + multiset{line} + multiset(after);
  }

  lemma Singletons(a: seq<string>, b: seq<string>)
    requires multiset(a) == multiset(b) && |a| <= 1
    ensures a == b
  {
    assert |multiset(a)| == |a| && |multiset(b)| == |b|;
    if |a| == 1 {
      assert a == [a[0]] && b == [b[0]];
      assert a[0] in multiset(b);
    }
  }

  /** Permuting the header lines changes neither acceptance nor the result. */
  lemma OrderDoesNotMatter(a: seq<string>, b: seq<string>)
    requires multiset(a) == multiset(b)
    ensures HeadOf(a) == HeadOf(b)
  {
    hide Acceptable;
    if Acceptable(a) {
      SameAcceptance(a, b);
    } else if Acceptable(b) {
      SameAcceptance(b, a);
    }
  }

  lemma SameAcceptance(a: seq<string>, b: seq<string>)
    requires multiset(a) == multiset(b) && Acceptable(a)
    ensures Acceptable(b) && HeadOf(a) == HeadOf(b)
  {
    hide Values, HasName;
    forall name | name in [CONTENT_LENGTH, REQUEST_ID, DEADLINE, TRACE_ID, TRANSFER_ENCODING]
      ensures Values(b, name) == Values(a, name)
    {
      ValuesPermuted(a, b, name);
      Singletons(Values(a, name), Values(b, name));
    }
    forall line | line in b
      ensures HasName(line)
    {
      assert line in multiset(b);
      assert line in a;
    }
  }

  // ----- joining and splitting lines

  predicate Unbroken(s: string) {
    '\r' !in s && '\n' !in s
  }

  /** Lines a header block can carry. */
  predicate AreLines(lines: seq<string>) {
    forall i | 0 <= i < |lines| :: lines[i] != [] && Unbroken(lines[i])
  }

  /** Each line with its CRLF. */
  function Join(lines: seq<string>): string {
    if lines == [] then [] else lines[0] + CRLF + Join(lines[1..])
  }

  lemma FirstBreak(line: string, rest: string)
    requires Unbroken(line)
    ensures Find(line + CRLF + rest, CRLF) == Some(|line|)
  {
    var t := line + CRLF + rest;
    assert t[|line|..|line| + 2] == CRLF;
    forall j | 0 <= j < |line|
      ensures !At(t, CRLF, j)
    {
      assert t[j] == line[j] && line[j] in line;
      NotAt(t, CRLF, j, 0);
    }
    FoundAt(t, CRLF, |line|);
  }

  lemma NoBreak(line: string)
    requires Unbroken(line)
    ensures Find(line, CRLF) == None
  {
    forall j: nat
      ensures !At(line, CRLF, j)
    {
      assert j < |line| ==> line[j] in line;
      NotAt(line, CRLF, j, 0);
    }
  }

  /** Splitting undoes joining, up to the last CRLF. */
  lemma {:induction false} SplitJoined(lines: seq<string>)
    requires lines != [] && AreLines(lines)
    ensures |Join(lines)| > 2 && LinesOf(Join(lines)[..|Join(lines)| - 2]) == lines
  {
    hide Find;
    var line, more := lines[0], lines[1..];
    var text := Join(lines)[..|Join(lines)| - 2];
    assert Join(lines) == line + CRLF + Join(more);
    if more == [] {
      assert Join(more) == [];
      assert text == line;
      NoBreak(line);
      assert lines == [line];
    } else {
      SplitJoined(more);
      var rest := Join(more)[..|Join(more)| - 2];
      assert text == line + CRLF + rest;
      FirstBreak(line, rest);
      assert text[..|line|] == line && text[|line| + 2..] == rest;
      assert lines == [line] + more;
    }
  }

  const BLANK_LINE := "\r\n\r\n"

  /** The blank line that ends a block is the first one in it. */
  lemma {:induction false} BlockEnd(lines: seq<string>, rest: string)
    requires lines != [] && AreLines(lines)
    ensures |Join(lines)| > 2 && Find(Join(lines) + CRLF + rest, BLANK_LINE) == Some(|Join(lines)| - 2)
  {
    hide Find, At;
    var line, more := lines[0], lines[1..];
    var t, n := Join(lines) + CRLF + rest, |line|;
    var tail := Join(more) + CRLF + rest;
    assert t == line + CRLF + tail;
    forall j: nat | j <= n + 1 && (j != n || more != [])
      ensures !At(t, BLANK_LINE, j)
    {
      NoBlankLineYet(line, more, rest, j);
    }
    if more == [] {
      BlankLineAt(line, rest);
      FoundAt(t, BLANK_LINE, n);
    } else {
      BlockEnd(more, rest);
      var e := |Join(more)| - 2;
      forall j | 0 <= j <= e + n + 2
        ensures At(t, BLANK_LINE, j) <==> j == e + n + 2
      {
        if j >= n + 2 {
          AtShifted(line + CRLF, tail, BLANK_LINE, j - n - 2);
        }
      }
      FoundAt(t, BLANK_LINE, e + n + 2);
    }
  }

  lemma BlankLineAt(line: string, rest: string)
    ensures At(line + CRLF + (Join([]) + CRLF + rest), BLANK_LINE, |line|)
  {
    var t := line + CRLF + (Join([]) + CRLF + rest);
    assert t[|line|..|line| + 4] == BLANK_LINE;
  }

  lemma AtShifted(head: string, tail: string, pattern: string, j: nat)
    ensures At(head + tail, pattern, |head| + j) <==> At(tail, pattern, j)
  {
    if j + |pattern| <= |tail| {
      assert (head + tail)[|head| + j..|head| + j + |pattern|] == tail[j..j + |pattern|];
    }
  }

  lemma NoBlankLineYet(line: string, more: seq<string>, rest: string, j: nat)
    requires line != [] && Unbroken(line) && AreLines(more)
    requires j <= |line| + 1 && (j != |line| || more != [])
    ensures !At(line + CRLF + (Join(more) + CRLF + rest), BLANK_LINE, j)
  {
    var tail := Join(more) + CRLF + rest;
    var t := line + CRLF + tail;
    if j < |line| {
      assert t[j] == line[j] && line[j] in line;
      NotAt(t, BLANK_LINE, j, 0);
    } else if j == |line| {
      assert t[j + 2] == tail[0] == more[0][0] && more[0][0] in more[0];
      NotAt(t, BLANK_LINE, j, 2);
    } else {
      assert t[j] == '\n';
      NotAt(t, BLANK_LINE, j, 0);
    }
  }
}
