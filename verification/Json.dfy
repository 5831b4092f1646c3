/**
 `append_json_string` and a reader of JSON strings (section 7 of RFC 8259) that undoes it. A
 string stands for bytes, one character each; bytes from 0x80 on pass through unescaped.
 */
module Json {
  import opened Wrappers
  import opened Hex

  const QUOTE := '"'
  const BACKSLASH := '\\'
  const BACKSPACE := 8 as char
  const FORM_FEED := 12 as char

  function Escape(c: char): string {
    if c == QUOTE then "\\\""
    else if c == BACKSLASH then "\\\\"
    else if c == BACKSPACE then "\\b"
    else if c == FORM_FEED then "\\f"
    else if c == '\n' then "\\n"
    else if c == '\r' then "\\r"
    else if c == '\t' then "\\t"
    else if c < ' ' then "\\u00" + [HexChar(c as int / 16), HexChar(c as int % 16)]
    else [c]
  }

  function Escaped(s: string): string {
    if s == [] then [] else Escape(s[0]) + Escaped(s[1..])
  }

  function JsonString(s: string): string {
    [QUOTE] + Escaped(s) + [QUOTE]
  }

  lemma {:induction false} EscapedAppend(s: string, c: char)
    ensures Escaped(s + [c]) == Escaped(s) + Escape(c)
  {
    hide Escape;
    if s == [] {
      assert Escaped([c]) == Escape(c) + Escaped([]);
      assert [] + [c] == [c];
    } else {
      EscapedAppend(s[1..], c);
      assert (s + [c])[1..] == s[1..] + [c];
    }
  }

  /** The switch loop, appending to the output piece by piece. */
  method AppendJsonString(output: string, value: string) returns (r: string)
    ensures r == output + JsonString(value)
  {
    hide HexChar, Escaped;
    r := output + [QUOTE];
    ghost var start := r;
    NothingEscaped();
    for index := 0 to |value|
      invariant r == start + Escaped(value[..index])
    {
      var character := value[index];
      var piece: string;
      if character == QUOTE {
        piece := "\\\"";
      } else if character == BACKSLASH {
        piece := "\\\\";
      } else if character == BACKSPACE {
        piece := "\\b";
      } else if character == FORM_FEED {
        piece := "\\f";
      } else if character == '\n' {
        piece := "\\n";
      } else if character == '\r' {
        piece := "\\r";
      } else if character == '\t' {
        piece := "\\t";
      } else if character < ' ' {
        piece := "\\u00" + [HexChar(character as int / 16), HexChar(character as int % 16)];
      } else {
        piece := [character];
      }
      assert piece == Escape(character);
      r := r + piece;
      EscapedAppend(value[..index], character);
      assert value[..index + 1] == value[..index] + [character];
    }
    assert value[..|value|] == value;
    r := r + [QUOTE];
  }

  lemma NothingEscaped()
    ensures Escaped([]) == []
  {
  }

  /** The escapes of section 7 of RFC 8259: a letter where there is one, a code for the other controls, nothing for the rest. */
  lemma EscapesAreStandard(c: char)
    ensures JsonString("\"") == "\"\\\"\"" && JsonString("\\") == "\"\\\\\""
    ensures JsonString("\n") == "\"\\n\"" && JsonString("\r") == "\"\\r\"" && JsonString("\t") == "\"\\t\""
    ensures JsonString([8 as char]) == "\"\\b\"" && JsonString([12 as char]) == "\"\\f\""
    ensures c as int < 32 && c as int !in {8, 9, 10, 12, 13} ==> JsonString([c]) == "\"\\u00" + [LOWER_DIGITS[c as int / 16], LOWER_DIGITS[c as int % 16]] + "\""
    ensures c as int >= 32 && c != '\"' && c != '\\' ==> JsonString([c]) == "\"" + [c] + "\""
  {
    hide Escape, LOWER_DIGITS;
    forall d: char
      ensures JsonString([d]) == "\"" + Escape(d) + "\""
    {
      OneEscaped(d);
    }
    LetterEscapes();
    OtherEscapes(c);
  }

  lemma OneEscaped(c: char)
    ensures Escaped([c]) == Escape(c)
  {
    hide Escape;
    assert [c][1..] == [] && Escaped([]) == [];
  }

  lemma LetterEscapes()
    ensures Escape('\"') == "\\\"" && Escape('\\') == "\\\\" && Escape('\n') == "\\n" && Escape('\r') == "\\r" && Escape('\t') == "\\t"
    ensures Escape(8 as char) == "\\b" && Escape(12 as char) == "\\f"
  {
  }

  lemma OtherEscapes(c: char)
    ensures c as int < 32 && c as int !in {8, 9, 10, 12, 13} ==> Escape(c) == "\\u00" + [LOWER_DIGITS[c as int / 16], LOWER_DIGITS[c as int % 16]]
    ensures c as int >= 32 && c != '\"' && c != '\\' ==> Escape(c) == [c]
  {
    hide HexDigit;
    if c as int < 32 {
      DigitsOfBothCases('0', c as int / 16);
      DigitsOfBothCases('0', c as int % 16);
    }
  }

  // ----- reading

  /** The character a one-letter escape stands for. */
  function Unescaped(c: char): Option<char> {
    if c == QUOTE || c == BACKSLASH || c == '/' then Some(c)
    else if c == 'b' then Some(BACKSPACE)
    else if c == 'f' then Some(FORM_FEED)
    else if c == 'n' then Some('\n')
    else if c == 'r' then Some('\r')
    else if c == 't' then Some('\t')
    else None
  }

  datatype Read<T> = Read(value: T, rest: string)

  /** Four digits of a `\u` escape, for characters outside the surrogate range. */
  function ReadCode(s: string): Option<char> {
    if |s| < 4 || !AllHex(s[..4]) || HexValue(s[..4]) >= 0xD800 then None else Some(HexValue(s[..4]) as char)
  }

  /** Reads up to the closing quote. */
  function ReadChars(s: string): (r: Option<Read<string>>)
    ensures r.Some? ==> |r.value.rest| < |s|
  {
    if s == [] then None
    else if s[0] == QUOTE then Some(Read([], s[1..]))
    else if s[0] < ' ' then None
    else if s[0] != BACKSLASH then Prepend(s[0], ReadChars(s[1..]))
    else if |s| < 2 then None
    else if s[1] == 'u' then
      if ReadCode(s[2..]).None? then None else Prepend(ReadCode(s[2..]).value, ReadChars(s[6..]))
    else if Unescaped(s[1]).None? then None
    else Prepend(Unescaped(s[1]).value, ReadChars(s[2..]))
  }

  function Prepend(c: char, r: Option<Read<string>>): (p: Option<Read<string>>)
    ensures p.Some? <==> r.Some?
    ensures p.Some? ==> p.value.rest == r.value.rest
  {
    match r
    case None => None
    case Some(Read(value, rest)) => Some(Read([c] + value, rest))
  }

  function ReadString(s: string): (r: Option<Read<string>>)
    ensures r.Some? ==> |r.value.rest| < |s|
  {
    if s == [] || s[0] != QUOTE then None else ReadChars(s[1..])
  }

  lemma EscapeReads(c: char, rest: string)
    ensures ReadChars(Escape(c) + rest) == Prepend(c, ReadChars(rest))
  {
    var e := Escape(c);
    var s := e + rest;
    if |e| == 1 {
      assert s[1..] == rest;
    } else if |e| == 2 {
      assert s[2..] == rest;
    } else {
      ControlCode(c, rest);
      assert s[6..] == rest;
    }
  }

  lemma ControlCode(c: char, rest: string)
    requires c < ' ' && |Escape(c)| == 6
    ensures ReadCode((Escape(c) + rest)[2..]) == Some(c)
  {
    var high, low := HexChar(c as int / 16), HexChar(c as int % 16);
    var digits := (Escape(c) + rest)[2..][..4];
    HexCharReads(c as int / 16);
    HexCharReads(c as int % 16);
    assert digits == ['0', '0', high, low];
    FourDigits('0', '0', high, low);
  }

  lemma FourDigits(a: char, b: char, c: char, d: char)
    requires HexDigit(a).Some? && HexDigit(b).Some? && HexDigit(c).Some? && HexDigit(d).Some?
    ensures AllHex([a, b, c, d])
    ensures HexValue([a, b, c, d]) == ((HexDigit(a).value * 16 + HexDigit(b).value) * 16 + HexDigit(c).value) * 16 + HexDigit(d).value
  {
    hide HexDigit;
    assert [a, b, c, d][..3] == [a, b, c] && [a, b, c][..2] == [a, b] && [a, b][..1] == [a] && [a][..0] == [];
    assert HexValue([a]) == HexDigit(a).value;
    assert HexValue([a, b]) == HexValue([a]) * 16 + HexDigit(b).value;
    assert HexValue([a, b, c]) == HexValue([a, b]) * 16 + HexDigit(c).value;
  }

  lemma {:induction false} CharsUndoEscape(s: string, rest: string)
    ensures ReadChars(Escaped(s) + [QUOTE] + rest) == Some(Read(s, rest))
  {
    hide Escape;
    if s == [] {
      assert (Escaped(s) + [QUOTE] + rest)[1..] == rest;
    } else {
      var tail := Escaped(s[1..]) + [QUOTE] + rest;
      assert Escaped(s) + [QUOTE] + rest == Escape(s[0]) + tail;
      EscapeReads(s[0], tail);
      CharsUndoEscape(s[1..], rest);
      assert [s[0]] + s[1..] == s;
    }
  }

  /** Whatever the bytes, reading the JSON string gives them back. */
  lemma ReadUndoesAppend(s: string, rest: string)
    ensures ReadString(JsonString(s) + rest) == Some(Read(s, rest))
  {
    assert (JsonString(s) + rest)[1..] == Escaped(s) + [QUOTE] + rest;
    CharsUndoEscape(s, rest);
  }

  /** No control character is left: every byte is 0x20 or above. */
  predicate NoControls(s: string) {
    forall c | c in s :: c >= ' '
  }

  lemma {:induction false} JsonHasNoControls(s: string)
    ensures NoControls(JsonString(s)) && NoControls(Escaped(s))
  {
    if s != [] {
      JsonHasNoControls(s[1..]);
      EscapeHasNoControls(s[0]);
    }
  }

  lemma EscapeHasNoControls(c: char)
    ensures NoControls(Escape(c))
  {
  }
}
