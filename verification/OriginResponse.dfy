/**
 `OriginResponseAccumulator`: what libcurl's callbacks leave behind, whatever their order.
 Whether an allocation fails is not the code's choice; each call is told.
 */
module OriginResponse {
  import opened Wrappers
  import opened Text
  import opened Fields
  import Decimal

  const MAXIMUM_BODY_BYTES := 10 * 1024 * 1024
  const INT64_MAX := 0x7FFF_FFFF_FFFF_FFFF

  datatype ResponseError =
    | InvalidContentLength
    | ContentLengthTooLarge
    | BlockedByNextDns
    | Allocation
    | Non200Status

  datatype ResponseState = ResponseState(
    error: Option<ResponseError>,
    contentLength: Option<int>,
    location: Option<string>,
    body: string)

  const NO_RESPONSE := ResponseState(None, None, None, "")

  const BLOCKED_LINE := "Blocked-By: NextDNS"
  const LOCATION := "Location"

  function RemoveLineEnding(line: string): string {
    if |line| >= 2 && line[|line| - 2..] == "\r\n" then line[..|line| - 2]
    else if |line| >= 1 && line[|line| - 1] == '\n' then line[..|line| - 1]
    else line
  }

  /** `std::from_chars` to a signed 64-bit integer, all of the text being used. */
  function FromChars(value: string): Option<int> {
    if value != [] && value[0] == '-' then
      match Decimal.Parsed(value[1..], INT64_MAX + 1)
      case None => None
      case Some(n) => Some(-(n as int))
    else
      match Decimal.Parsed(value, INT64_MAX)
      case None => None
      case Some(n) => Some(n)
  }

  /** The number in a Content-Length, or why it is refused. */
  function ReadContentLength(value: string): Result<int, ResponseError> {
    var unsigned := if value != [] && value[0] == '+' then value[1..] else value;
    if unsigned == [] then Err(InvalidContentLength)
    else
      match FromChars(unsigned)
      case None => Err(InvalidContentLength)
      case Some(n) => if n > MAXIMUM_BODY_BYTES then Err(ContentLengthTooLarge) else Ok(n)
  }

  function HeaderStep(s: ResponseState, line: string, allocationFails: bool): ResponseState {
    if s.error.Some? then s
    else
      var text := RemoveLineEnding(line);
      if text == BLOCKED_LINE then s.(error := Some(BlockedByNextDns))
      else
        match IndexOf(text, ':')
        case None => s
        case Some(separator) =>
          var name, value := text[..separator], Trim(text[separator + 1..]);
          if AsciiEqual(name, CONTENT_LENGTH) then
            match ReadContentLength(value)
            case Err(e) => s.(error := Some(e))
            case Ok(n) => s.(contentLength := Some(n), error := if n > 0 && allocationFails then Some(Allocation) else None)
          else if AsciiEqual(name, LOCATION) then
            if allocationFails then s.(error := Some(Allocation)) else s.(location := Some(value))
          else s
  }

  /** How many of the offered bytes are kept. */
  function Taken(s: ResponseState, bytes: string, allocationFails: bool): nat {
    var remaining := if |s.body| < MAXIMUM_BODY_BYTES then MAXIMUM_BODY_BYTES - |s.body| else 0;
    if s.error.Some? || allocationFails then 0
    else if remaining < |bytes| then remaining
    else |bytes|
  }

  function BodyStep(s: ResponseState, bytes: string, allocationFails: bool): ResponseState {
    if s.error.Some? || bytes == [] || |s.body| == MAXIMUM_BODY_BYTES then s
    else if allocationFails then s.(error := Some(Allocation))
    else s.(body := s.body + bytes[..Taken(s, bytes, false)])
  }

  class OriginResponseAccumulator {
    var error: Option<ResponseError>
    var contentLength: Option<int>
    var location: Option<string>
    var body: string

    constructor ()
      ensures State() == NO_RESPONSE
    {
      error, contentLength, location, body := None, None, None, "";
    }

    ghost predicate Valid()
      reads this
    {
      |body| <= MAXIMUM_BODY_BYTES
    }

    function State(): ResponseState
      reads this
    {
      ResponseState(error, contentLength, location, body)
    }

    method ConsumeHeaderLine(rawLine: string, allocationFails: bool)
      modifies this
      ensures State() == HeaderStep(old(State()), rawLine, allocationFails)
    {
      hide Trim, AsciiEqual, ReadContentLength;
      if error.Some? {
        return;
      }
      var line := RemoveLineEnding(rawLine);
      if line == BLOCKED_LINE {
        error := Some(BlockedByNextDns);
        return;
      }
      var separator := IndexOf(line, ':');
      if separator.None? {
        return;
      }
      var name := line[..separator.value];
      var value := TrimView(line[separator.value + 1..]);
      if AsciiEqual(name, CONTENT_LENGTH) {
        SetContentLength(value, allocationFails);
      } else if AsciiEqual(name, LOCATION) {
        if allocationFails {
          error := Some(Allocation);
        } else {
          location := Some(value);
        }
      }
    }

    method SetContentLength(text: string, allocationFails: bool)
      requires error.None?
      modifies this`error, this`contentLength
      ensures match ReadContentLength(text)
              case Err(e) => error == Some(e) && contentLength == old(contentLength)
              case Ok(n) => contentLength == Some(n) && error == if n > 0 && allocationFails then Some(Allocation) else None
    {
      var value := text;
      if value == [] {
        error := Some(InvalidContentLength);
        return;
      }
      if value[0] == '+' {
        value := value[1..];
        if value == [] {
          error := Some(InvalidContentLength);
          return;
        }
      }
      var parsed := FromChars(value);
      if parsed.None? {
        error := Some(InvalidContentLength);
        return;
      }
      if parsed.value > MAXIMUM_BODY_BYTES {
        error := Some(ContentLengthTooLarge);
        return;
      }
      contentLength := Some(parsed.value);
      if parsed.value <= 0 {
        return;
      }
      if allocationFails {
        error := Some(Allocation);
      }
    }

    method AppendBody(bytes: string, allocationFails: bool) returns (accepted: nat)
      requires Valid()
      modifies this
      ensures Valid() && State() == BodyStep(old(State()), bytes, allocationFails)
      ensures accepted == |body| - |old(body)| == Taken(old(State()), bytes, allocationFails)
    {
      if error.Some? || bytes == [] || |body| == MAXIMUM_BODY_BYTES {
        return 0;
      }
      var remaining := MAXIMUM_BODY_BYTES - |body|;
      accepted := if remaining < |bytes| then remaining else |bytes|;
      if allocationFails {
        error := Some(Allocation);
        return 0;
      }
      body := body + bytes[..accepted];
    }

    method Finish(status: int) returns (ok: bool)
      modifies this`error
      ensures ok <==> old(error).None? && status == 200
      ensures error == if old(error).None? && status != 200 then Some(Non200Status) else old(error)
    {
      if error.Some? {
        return false;
      }
      if status != 200 {
        error := Some(Non200Status);
        return false;
      }
      return true;
    }
  }

  // ----- any interleaving of calls

  datatype Callback = HeaderLine(line: string, allocationFails: bool) | Body(bytes: string, allocationFails: bool)

  function Step(s: ResponseState, c: Callback): ResponseState {
    match c
    case HeaderLine(line, allocationFails) => HeaderStep(s, line, allocationFails)
    case Body(bytes, allocationFails) => BodyStep(s, bytes, allocationFails)
  }

  /** The state after these callbacks. */
  function After(calls: seq<Callback>): ResponseState {
    if calls == [] then NO_RESPONSE else Step(After(calls[..|calls| - 1]), calls[|calls| - 1])
  }

  /** All body bytes that were offered. */
  function Offered(calls: seq<Callback>): string {
    if calls == [] then ""
    else
      var c := calls[|calls| - 1];
      Offered(calls[..|calls| - 1]) + if c.Body? then c.bytes else ""
  }

  /** The sum of what the body calls returned. */
  function AcceptedTotal(calls: seq<Callback>): nat {
    if calls == [] then 0
    else
      var front, c := calls[..|calls| - 1], calls[|calls| - 1];
      AcceptedTotal(front) + if c.Body? then Taken(After(front), c.bytes, c.allocationFails) else 0
  }

  /** At most the first 10 MiB. */
  function Capped(bytes: string): string {
    if |bytes| <= MAXIMUM_BODY_BYTES then bytes else bytes[..MAXIMUM_BODY_BYTES]
  }

  /** Runs the callbacks on an accumulator, as libcurl does. */
  method Deliver(response: OriginResponseAccumulator, calls: seq<Callback>)
    requires response.State() == NO_RESPONSE
    modifies response
    ensures response.State() == After(calls) && response.Valid()
  {
    hide HeaderStep, BodyStep;
    for index := 0 to |calls|
      invariant response.State() == After(calls[..index]) && response.Valid()
    {
      assert calls[..index + 1][..index] == calls[..index];
      match calls[index]
      case HeaderLine(line, allocationFails) =>
        KeepsBody(response.State(), line, allocationFails);
        response.ConsumeHeaderLine(line, allocationFails);
      case Body(bytes, allocationFails) =>
        var accepted := response.AppendBody(bytes, allocationFails);
    }
    assert calls[..|calls|] == calls;
  }

  /** A header line never touches the body. */
  lemma KeepsBody(s: ResponseState, line: string, allocationFails: bool)
    ensures HeaderStep(s, line, allocationFails).body == s.body
  {
    hide Trim, AsciiEqual, ReadContentLength, IndexOf, RemoveLineEnding;
  }

  /** Until an error latches, the body is the first 10 MiB of what was offered. */
  lemma {:induction false} BodyIsWhatWasOffered(calls: seq<Callback>)
    requires After(calls).error.None?
    ensures After(calls).body == Capped(Offered(calls))
  {
    hide HeaderStep;
    if calls != [] {
      var front, c := calls[..|calls| - 1], calls[|calls| - 1];
      if After(front).error.Some? {
        ErrorIsLatched(front, calls);
      } else {
        BodyIsWhatWasOffered(front);
        if c.HeaderLine? {
          KeepsBody(After(front), c.line, c.allocationFails);
        }
      }
    }
  }

  /** The accepted counts sum to the length of the body, errors or not. */
  lemma {:induction false} AcceptedIsRetained(calls: seq<Callback>)
    ensures AcceptedTotal(calls) == |After(calls).body| <= MAXIMUM_BODY_BYTES
  {
    hide HeaderStep;
    if calls != [] {
      var front, c := calls[..|calls| - 1], calls[|calls| - 1];
      AcceptedIsRetained(front);
      if c.HeaderLine? {
        KeepsBody(After(front), c.line, c.allocationFails);
      }
    }
  }

  /** After the first error nothing changes any more: not the error, not the body, not any other field. */
  lemma {:induction false} ErrorIsLatched(before: seq<Callback>, calls: seq<Callback>)
    requires before <= calls && After(before).error.Some?
    ensures After(calls) == After(before)
  {
    if |before| == |calls| {
      assert before == calls;
    } else {
      ErrorIsLatched(before, calls[..|calls| - 1]);
    }
  }

  /** So a run with an error retains what was offered before the call that failed, and that call's error. */
  lemma {:induction false} FirstErrorDecides(calls: seq<Callback>) returns (k: nat)
    requires After(calls).error.Some?
    ensures k < |calls| && After(calls[..k]).error.None? && After(calls[..k + 1]).error == After(calls).error
    ensures After(calls).body == Capped(Offered(calls[..k]))
  {
    hide HeaderStep;
    var front, c := calls[..|calls| - 1], calls[|calls| - 1];
    if After(front).error.Some? {
      k := FirstErrorDecides(front);
      assert front[..k] == calls[..k] && front[..k + 1] == calls[..k + 1];
      ErrorIsLatched(front, calls);
    } else {
      k := |calls| - 1;
      assert calls[..k] == front && calls[..k + 1] == calls;
      BodyIsWhatWasOffered(front);
      if c.HeaderLine? {
        KeepsBody(After(front), c.line, c.allocationFails);
      }
    }
  }

  // ----- what a header line does

  /** The line is a text and its ending: CRLF, LF alone, or none. */
  predicate IsLine(line: string, text: string) {
    || line == text + "\r\n"
    || (line == text + "\n" && (text == "" || text[|text| - 1] != '\r'))
    || (line == text && (text == "" || text[|text| - 1] != '\n'))
  }

  lemma EndingIsRemoved(line: string, text: string)
    requires IsLine(line, text)
    ensures RemoveLineEnding(line) == text
  {
    if line == text + "\r\n" {
      assert line[|line| - 2..] == "\r\n" && line[..|line| - 2] == text;
    } else if line == text + "\n" {
      assert line[..|line| - 1] == text;
      if |line| >= 2 {
        assert line[|line| - 2..][0] == line[|line| - 2] == text[|text| - 1];
      }
    } else if |line| >= 2 {
      assert line[|line| - 2..][1] == line[|line| - 1];
    }
  }

  /**
   Whatever its ending: the line of the blocking resolver is an error, a Location in any case is remembered, a
   Content-Length in any case is read or refused, and no other line does anything.
   */
  lemma HeaderLineMeans(s: ResponseState, line: string, text: string, allocationFails: bool)
    requires s.error.None? && IsLine(line, text)
    ensures var t := HeaderStep(s, line, allocationFails);
            && (text == "Blocked-By: NextDNS" ==> t == s.(error := Some(BlockedByNextDns)))
            && (forall v | IsField(text, "Location", v) ::
                  t == if allocationFails then s.(error := Some(Allocation)) else s.(location := Some(v)))
            && (forall v | IsField(text, "Content-Length", v) ::
                  match ReadContentLength(v)
                  case Ok(n) => t == s.(contentLength := Some(n), error := if n > 0 && allocationFails then Some(Allocation) else None)
                  case Err(e) => t == s.(error := Some(e)))
            && (text != "Blocked-By: NextDNS" && (forall v :: !IsField(text, "Location", v) && !IsField(text, "Content-Length", v)) ==> t == s)
  {
    hide RemoveLineEnding, IndexOf, Trim, AsciiEqual, ReadContentLength, IsField;
    EndingIsRemoved(line, text);
    FieldIsFound(text, LOCATION);
    FieldIsFound(text, CONTENT_LENGTH);
    NamesDiffer(text);
    if IndexOf(text, ':').Some? {
      var v := Trim(text[IndexOf(text, ':').value + 1..]);
      assert IsField(text, LOCATION, v) <==> AsciiEqual(text[..IndexOf(text, ':').value], LOCATION);
      assert IsField(text, CONTENT_LENGTH, v) <==> AsciiEqual(text[..IndexOf(text, ':').value], CONTENT_LENGTH);
    }
  }

  /** Looking for the first colon finds the field. */
  lemma FieldIsFound(text: string, name: string)
    requires name != ""
    ensures forall v :: IsField(text, name, v) <==>
              && IndexOf(text, ':').Some? && AsciiEqual(text[..IndexOf(text, ':').value], name)
              && v == Trim(text[IndexOf(text, ':').value + 1..])
  {
    hide IndexOf, Trim, SameName, AsciiEqual, IsSplit;
    forall v
      ensures IsField(text, name, v) <==>
              && IndexOf(text, ':').Some? && AsciiEqual(text[..IndexOf(text, ':').value], name)
              && v == Trim(text[IndexOf(text, ':').value + 1..])
    {
      if IsField(text, name, v) {
        var n, rest :| IsSplit(text, n, rest) && SameName(n, name) && v == Trim(rest);
        SplitAtColon(text, n, rest);
        NamesAgree(n, name);
      }
      if IndexOf(text, ':').Some? && AsciiEqual(text[..IndexOf(text, ':').value], name) && v == Trim(text[IndexOf(text, ':').value + 1..]) {
        var e := IndexOf(text, ':').value;
        SameLength(text[..e], name);
        SplitHere(text, e);
        NamesAgree(text[..e], name);
      }
    }
  }

  lemma SameLength(a: string, b: string)
    requires AsciiEqual(a, b)
    ensures |a| == |b|
  {
  }

  lemma NamesDiffer(text: string)
    ensures IndexOf(BLOCKED_LINE, ':') == Some(10)
    ensures forall n :: !(AsciiEqual(n, LOCATION) && AsciiEqual(n, CONTENT_LENGTH))
    ensures forall n | |n| == 10 :: !AsciiEqual(n, LOCATION) && !AsciiEqual(n, CONTENT_LENGTH)
  {
    assert BLOCKED_LINE == "Blocked-By" + [':'] + " NextDNS";
    IndexAfter("Blocked-By", ':', " NextDNS");
    assert |LOCATION| == 8 && |CONTENT_LENGTH| == 14;
  }

  /** The call does no harm after these bytes: no allocation fails that is needed, and a header line is none that is refused. */
  predicate IsHarmless(c: Callback, offered: string) {
    match c
    case HeaderLine(line, allocationFails) => HeaderStep(NO_RESPONSE, line, allocationFails).error.None?
    case Body(bytes, allocationFails) => !(allocationFails && bytes != "" && |offered| < 10 * 1024 * 1024)
  }

  /** A run has no error exactly when every one of its calls is harmless. */
  lemma {:induction false} NoErrorExactly(calls: seq<Callback>)
    ensures After(calls).error.None? <==> forall k | 0 <= k < |calls| :: IsHarmless(calls[k], Offered(calls[..k]))
  {
    hide HeaderStep, Offered, Capped;
    if calls != [] {
      var n := |calls| - 1;
      var front, c := calls[..n], calls[n];
      NoErrorExactly(front);
      assert forall k | 0 <= k < n :: front[k] == calls[k] && front[..k] == calls[..k];
      if After(front).error.Some? {
        ErrorIsLatched(front, calls);
        var k :| 0 <= k < |front| && !IsHarmless(front[k], Offered(front[..k]));
        assert !IsHarmless(calls[k], Offered(calls[..k]));
      } else {
        BodyIsWhatWasOffered(front);
        CappedLength(Offered(front));
        if c.HeaderLine? {
          SameErrorFromAnyState(After(front), c.line, c.allocationFails);
        }
        assert After(calls).error.None? <==> IsHarmless(c, Offered(front));
      }
    }
  }

  lemma CappedLength(bytes: string)
    ensures |Capped(bytes)| == 10 * 1024 * 1024 <==> |bytes| >= 10 * 1024 * 1024
    ensures |Capped(bytes)| <= 10 * 1024 * 1024
  {
  }

  lemma SameErrorFromAnyState(s: ResponseState, line: string, allocationFails: bool)
    requires s.error.None?
    ensures HeaderStep(s, line, allocationFails).error == HeaderStep(NO_RESPONSE, line, allocationFails).error
  {
    hide RemoveLineEnding, IndexOf, Trim, AsciiEqual, ReadContentLength;
  }

  // ----- which lengths are accepted

  function Signed(plus: bool, minus: bool, digits: string): string {
    (if plus then "+" else "") + (if minus then "-" else "") + digits
  }

  predicate IsSigned(value: string, plus: bool, minus: bool, digits: string, n: int) {
    && value == Signed(plus, minus, digits) && digits != [] && Decimal.AllDigits(digits)
    && n == (if minus then -(Decimal.Value(digits) as int) else Decimal.Value(digits))
  }

  /**
   A Content-Length is accepted as n exactly when it is digits, with an optional plus and an optional minus before
   them, and n is at most 10 MiB and fits 64 bits. A plus followed by a minus is accepted too.
   */
  lemma ContentLengthIsExact(value: string, n: int)
    ensures ReadContentLength(value) == Ok(n) <==>
            && -INT64_MAX - 1 <= n <= MAXIMUM_BODY_BYTES
            && exists plus, minus, digits :: IsSigned(value, plus, minus, digits, n)
  {
    hide IsSigned, ReadContentLength;
    if ReadContentLength(value) == Ok(n) {
      var plus, minus, digits := AcceptedIsSigned(value, n);
    }
    if -INT64_MAX - 1 <= n <= MAXIMUM_BODY_BYTES && exists plus, minus, digits :: IsSigned(value, plus, minus, digits, n) {
      var plus, minus, digits :| IsSigned(value, plus, minus, digits, n);
      SignedIsAccepted(value, plus, minus, digits, n);
    }
  }

  lemma AcceptedIsSigned(value: string, n: int) returns (plus: bool, minus: bool, digits: string)
    requires ReadContentLength(value) == Ok(n)
    ensures IsSigned(value, plus, minus, digits, n) && -INT64_MAX - 1 <= n <= MAXIMUM_BODY_BYTES
  {
    hide Decimal.Value, Decimal.AllDigits;
    plus := value[0] == '+';
    var unsigned := if plus then value[1..] else value;
    minus := unsigned[0] == '-';
    digits := if minus then unsigned[1..] else unsigned;
    assert value == Signed(plus, minus, digits);
  }

  lemma SignedIsAccepted(value: string, plus: bool, minus: bool, digits: string, n: int)
    requires IsSigned(value, plus, minus, digits, n) && -INT64_MAX - 1 <= n <= MAXIMUM_BODY_BYTES
    ensures ReadContentLength(value) == Ok(n)
  {
    hide Decimal.Value;
    assert digits[0] in digits && Decimal.IsDigit(digits[0]);
    var unsigned := if plus then value[1..] else value;
    assert unsigned == (if minus then "-" else "") + digits;
    assert (if minus then unsigned[1..] else unsigned) == digits;
  }

  /** A length that is a number of 64 bits but more than 10 MiB is too large; everything else that is refused is invalid. */
  lemma TooLargeIsExact(value: string)
    ensures ReadContentLength(value) == Err(ContentLengthTooLarge) <==>
            exists plus, minus, digits, n :: IsSigned(value, plus, minus, digits, n) && 10 * 1024 * 1024 < n <= INT64_MAX
    ensures ReadContentLength(value).Err? && ReadContentLength(value) != Err(ContentLengthTooLarge) ==> ReadContentLength(value) == Err(InvalidContentLength)
  {
    hide IsSigned, Decimal.Value;
    if ReadContentLength(value) == Err(ContentLengthTooLarge) {
      LargeIsSigned(value);
    }
    if plus, minus, digits, n :| IsSigned(value, plus, minus, digits, n) && 10 * 1024 * 1024 < n <= INT64_MAX {
      SignedIsLarge(value, plus, minus, digits, n);
    }
  }

  lemma LargeIsSigned(value: string)
    requires ReadContentLength(value) == Err(ContentLengthTooLarge)
    ensures exists plus, minus, digits, n :: IsSigned(value, plus, minus, digits, n) && 10 * 1024 * 1024 < n <= INT64_MAX
  {
    hide Decimal.Value, Decimal.AllDigits;
    var plus := value[0] == '+';
    var unsigned := if plus then value[1..] else value;
    assert value == Signed(plus, false, unsigned);
    assert IsSigned(value, plus, false, unsigned, FromChars(unsigned).value);
  }

  lemma SignedIsLarge(value: string, plus: bool, minus: bool, digits: string, n: int)
    requires IsSigned(value, plus, minus, digits, n) && 10 * 1024 * 1024 < n <= INT64_MAX
    ensures ReadContentLength(value) == Err(ContentLengthTooLarge)
  {
    hide Decimal.Value;
    assert digits[0] in digits && Decimal.IsDigit(digits[0]);
    var unsigned := if plus then value[1..] else value;
    assert unsigned == digits;
  }

  /** Not every accepted length is a signed decimal number. */
  lemma PlusMinusIsAccepted()
    ensures ReadContentLength("+-5") == Ok(-5)
  {
    assert "5"[..0] == "" && Decimal.Value("5") == 5;
    SignedIsAccepted("+-5", true, true, "5", -5);
  }
}
