/** `parse_query` and `percent_decode` (percent-encoding: section 2.1 of RFC 3986). */
module Query {
  import opened Wrappers
  import opened Text
  import opened Hex

  datatype QueryParameter = QueryParameter(key: string, value: string)

  // ----- percent-decoding

  function DecodeHexPair(high: char, low: char): Option<char> {
    if HexDigit(high).None? || HexDigit(low).None? then None
    else Some((HexDigit(high).value * 16 + HexDigit(low).value) as char)
  }

  /** The decoded text; none if a percent sign is not followed by two digits. */
  function Decoded(s: string, plusAsSpace: bool): Option<string> {
    if s == [] then Some([])
    else if s[0] == '%' then
      if |s| < 3 || DecodeHexPair(s[1], s[2]).None? then None
      else Cons(DecodeHexPair(s[1], s[2]).value, Decoded(s[3..], plusAsSpace))
    else Cons(if s[0] == '+' && plusAsSpace then ' ' else s[0], Decoded(s[1..], plusAsSpace))
  }

  function Cons(c: char, s: Option<string>): Option<string> {
    if s.None? then None else Some([c] + s.value)
  }

  function Append(s: string, t: Option<string>): Option<string> {
    if t.None? then None else Some(s + t.value)
  }

  /** The index loop of `percent_decode`. */
  method PercentDecode(encoded: string, plusAsSpace: bool) returns (r: Option<string>)
    ensures r == Decoded(encoded, plusAsSpace)
  {
    hide DecodeHexPair, Append, Cons;
    var decoded := "";
    var index := 0;
    AppendNothing(Decoded(encoded, plusAsSpace), "");
    assert encoded[0..] == encoded;
    while index < |encoded|
      invariant 0 <= index <= |encoded|
      invariant Decoded(encoded, plusAsSpace) == Append(decoded, Decoded(encoded[index..], plusAsSpace))
    {
      var value := encoded[index];
      ghost var rest := encoded[index..];
      assert encoded[index + 1..] == rest[1..];
      if value == '+' && plusAsSpace {
        AppendCons(decoded, ' ', Decoded(rest[1..], plusAsSpace));
        decoded := decoded + [' '];
        index := index + 1;
        continue;
      }
      if value != '%' {
        AppendCons(decoded, value, Decoded(rest[1..], plusAsSpace));
        decoded := decoded + [value];
        index := index + 1;
        continue;
      }
      NoneAppended(decoded);
      if |encoded| - index < 3 {
        return None;
      }
      var byte := DecodeHexPair(encoded[index + 1], encoded[index + 2]);
      assert rest[1] == encoded[index + 1] && rest[2] == encoded[index + 2];
      if byte.None? {
        return None;
      }
      assert encoded[index + 3..] == rest[3..];
      AppendCons(decoded, byte.value, Decoded(rest[3..], plusAsSpace));
      decoded := decoded + [byte.value];
      index := index + 3;
    }
    assert encoded[index..] == [];
    AppendNothing(None, decoded);
    return Some(decoded);
  }

  lemma AppendCons(s: string, c: char, t: Option<string>)
    ensures Append(s, Cons(c, t)) == Append(s + [c], t)
  {
    if t.Some? {
      assert s + ([c] + t.value) == (s + [c]) + t.value;
    }
  }

  lemma AppendNothing(t: Option<string>, s: string)
    ensures Append("", t) == t && Append(s, Some([])) == Some(s)
  {
    if t.Some? {
      assert "" + t.value == t.value;
    }
    assert s + [] == s;
  }

  lemma NoneAppended(s: string)
    ensures Append(s, None) == None
  {
  }

  // ----- the query

  /** What one field between ampersands stands for: a pair or nothing. */
  function FieldPairs(field: string): seq<QueryParameter> {
    if field == [] || ';' in field then []
    else
      var equals := IndexOf(field, '=');
      var key := Decoded(if equals.None? then field else field[..equals.value], true);
      var value := Decoded(if equals.None? then [] else field[equals.value + 1..], true);
      if key.None? || value.None? then [] else [QueryParameter(key.value, value.value)]
  }

  function Parsed(query: string): seq<QueryParameter>
    decreases |query|
  {
    match IndexOf(query, '&')
    case None => FieldPairs(query)
    case Some(end) => FieldPairs(query[..end]) + Parsed(query[end + 1..])
  }

  /** The body of the loop of `parse_query`, for one field. */
  method AppendField(parameters: seq<QueryParameter>, field: string) returns (r: seq<QueryParameter>)
    ensures r == parameters + FieldPairs(field)
  {
    hide Decoded, IndexOf;
    r := parameters;
    if field != [] && ';' !in field {
      var equals := IndexOf(field, '=');
      var encodedKey := if equals.None? then field else field[..equals.value];
      var encodedValue := if equals.None? then [] else field[equals.value + 1..];
      var key := PercentDecode(encodedKey, true);
      var value := PercentDecode(encodedValue, true);
      if key.Some? && value.Some? {
        r := r + [QueryParameter(key.value, value.value)];
      }
    }
  }

  method ParseQuery(rawQuery: string) returns (parameters: seq<QueryParameter>)
    ensures parameters == Parsed(rawQuery)
  {
    hide FieldPairs, IndexOf;
    parameters := [];
    var fieldStart := 0;
    assert rawQuery[0..] == rawQuery;
    while fieldStart <= |rawQuery|
      invariant 0 <= fieldStart <= |rawQuery|
      invariant Parsed(rawQuery) == parameters + Parsed(rawQuery[fieldStart..])
      decreases |rawQuery| - fieldStart
    {
      var found := IndexOf(rawQuery[fieldStart..], '&');
      var fieldEnd := if found.None? then |rawQuery| else fieldStart + found.value;
      var field := rawQuery[fieldStart..fieldEnd];
      parameters := AppendField(parameters, field);
      LastField(rawQuery, fieldStart);
      if fieldEnd == |rawQuery| {
        return;
      }
      assert rawQuery[fieldStart..][..found.value] == field;
      assert rawQuery[fieldStart..][found.value + 1..] == rawQuery[fieldEnd + 1..];
      fieldStart := fieldEnd + 1;
    }
    assert false;
  }

  /** The loop stops at the field that reaches the end: either the last, or one before an ampersand that ends the query. */
  lemma LastField(query: string, start: nat)
    requires start <= |query|
    ensures IndexOf(query[start..], '&').None? ==> Parsed(query[start..]) == FieldPairs(query[start..|query|])
    ensures IndexOf(query[start..], '&').Some? ==> start + IndexOf(query[start..], '&').value < |query|
  {
    assert query[start..|query|] == query[start..];
  }

  /** `first`: the value of the first pair with this key, the empty string if there is none. */
  method First(parameters: seq<QueryParameter>, key: string) returns (r: string)
    ensures (exists i | 0 <= i < |parameters| :: parameters[i].key == key && r == parameters[i].value && forall j | 0 <= j < i :: parameters[j].key != key)
            || (r == "" && forall j | 0 <= j < |parameters| :: parameters[j].key != key)
  {
    for index := 0 to |parameters|
      invariant forall j | 0 <= j < index :: parameters[j].key != key
    {
      if parameters[index].key == key {
        return parameters[index].value;
      }
    }
    return "";
  }

  /** Parsing distributes over ampersands, wherever they stand. */
  lemma {:induction false} ParsedConcat(a: string, b: string)
    ensures Parsed(a + "&" + b) == Parsed(a) + Parsed(b)
    decreases |a|
  {
    hide FieldPairs;
    var s := a + "&" + b;
    match IndexOf(a, '&')
    case None =>
      IndexAfter(a, '&', b);
      assert s == a + ['&'] + b;
      assert s[..|a|] == a && s[|a| + 1..] == b;
    case Some(end) =>
      var head, tail := a[..end], a[end + 1..];
      assert a == head + ['&'] + tail;
      assert s == head + ['&'] + (tail + "&" + b);
      IndexAfter(head, '&', tail + "&" + b);
      assert s[..end] == head && s[end + 1..] == tail + "&" + b;
      ParsedConcat(tail, b);
  }

  // ----- what is refused

  predicate IsHex(c: char) {
    c in LOWER_DIGITS || c in UPPER_DIGITS
  }

  /** A percent sign that two hexadecimal digits do not follow. */
  predicate Malformed(s: string) {
    exists i | 0 <= i < |s| :: s[i] == '%' && !(i + 2 < |s| && IsHex(s[i + 1]) && IsHex(s[i + 2]))
  }

  lemma PairIsHex(high: char, low: char)
    ensures DecodeHexPair(high, low).Some? <==> IsHex(high) && IsHex(low)
    ensures !IsHex('%') && !IsHex('=')
  {
    hide HexDigit, LOWER_DIGITS, UPPER_DIGITS;
    DigitsOfBothCases(high, 0);
    DigitsOfBothCases(low, 0);
    DigitsOfBothCases('%', 0);
    DigitsOfBothCases('=', 0);
    NoDelimiterIsHex();
  }

  /** A percent sign anywhere must be followed by two digits, and nothing else is asked. */
  lemma {:induction false} DecodedUnlessMalformed(s: string, plusAsSpace: bool)
    ensures Decoded(s, plusAsSpace) == None <==> Malformed(s)
  {
    hide DecodeHexPair, IsHex;
    if s != [] {
      var n := if s[0] == '%' then 3 else 1;
      if n <= |s| {
        DecodedUnlessMalformed(s[n..], plusAsSpace);
        MalformedTail(s, n);
      }
      if |s| >= 3 {
        PairIsHex(s[1], s[2]);
      }
    }
  }

  lemma MalformedTail(s: string, n: nat)
    requires 1 <= n <= |s|
    ensures Malformed(s[n..]) ==> Malformed(s)
    ensures Malformed(s) && !Malformed(s[n..]) ==> exists i | 0 <= i < n :: s[i] == '%' && !(i + 2 < |s| && IsHex(s[i + 1]) && IsHex(s[i + 2]))
    ensures n == 3 && IsHex(s[1]) && IsHex(s[2]) ==> s[1] != '%' && s[2] != '%'
  {
    hide IsHex;
    PairIsHex('%', '%');
    var t := s[n..];
    assert forall i | 0 <= i < |t| :: t[i] == s[n + i];
    if Malformed(t) {
      var i :| 0 <= i < |t| && t[i] == '%' && !(i + 2 < |t| && IsHex(t[i + 1]) && IsHex(t[i + 2]));
      assert s[n + i] == '%';
    } else if Malformed(s) {
      var i :| 0 <= i < |s| && s[i] == '%' && !(i + 2 < |s| && IsHex(s[i + 1]) && IsHex(s[i + 2]));
    }
  }

  /** A field is dropped exactly when it is empty, holds a semicolon or is malformed; any other is one pair. */
  lemma FieldDropped(field: string)
    ensures FieldPairs(field) == [] <==> field == "" || ';' in field || Malformed(field)
    ensures |FieldPairs(field)| <= 1
  {
    hide Decoded, Malformed;
    var equals := IndexOf(field, '=');
    if equals.None? {
      DecodedUnlessMalformed(field, true);
      NothingIsMalformed();
      DecodedUnlessMalformed([], true);
    } else {
      DecodedUnlessMalformed(field[..equals.value], true);
      DecodedUnlessMalformed(field[equals.value + 1..], true);
      MalformedParts(field[..equals.value], field[equals.value + 1..]);
      assert field == field[..equals.value] + "=" + field[equals.value + 1..];
    }
  }

  lemma NothingIsMalformed()
    ensures !Malformed([])
  {
  }

  lemma MalformedParts(key: string, value: string)
    ensures Malformed(key + "=" + value) <==> Malformed(key) || Malformed(value)
  {
    hide IsHex, LOWER_DIGITS, UPPER_DIGITS;
    PairIsHex('=', '=');
    var field := key + "=" + value;
    assert forall i | 0 <= i < |key| :: field[i] == key[i];
    assert forall i | 0 <= i < |value| :: field[|key| + 1 + i] == value[i];
    if Malformed(key) {
      var i :| 0 <= i < |key| && key[i] == '%' && !(i + 2 < |key| && IsHex(key[i + 1]) && IsHex(key[i + 2]));
      assert field[|key|] == '=';
      assert field[i] == '%';
    }
    if Malformed(value) {
      var i :| 0 <= i < |value| && value[i] == '%' && !(i + 2 < |value| && IsHex(value[i + 1]) && IsHex(value[i + 2]));
      assert field[|key| + 1 + i] == '%';
    }
    if Malformed(field) {
      var i :| 0 <= i < |field| && field[i] == '%' && !(i + 2 < |field| && IsHex(field[i + 1]) && IsHex(field[i + 2]));
      if i < |key| {
        assert key[i] == '%';
      } else {
        assert i > |key| && value[i - |key| - 1] == '%';
      }
    }
  }

  // ----- encoding

  /** How one byte is written: as it is, as a plus sign, or with a percent sign and digits of either case. */
  datatype Spelling = Itself | Plus | Percent(upperHigh: bool, upperLow: bool)

  /** A text and the spelling of each of its bytes. */
  datatype Spelled = Spelled(text: string, how: seq<Spelling>)

  datatype SpelledPair = SpelledPair(key: Spelled, value: Spelled)

  predicate IsByteText(s: Spelled) {
    |s.how| == |s.text| && forall i | 0 <= i < |s.text| :: s.text[i] as int < 256
  }

  /** The characters that mean something in a query and so cannot stand for themselves. */
  predicate Reserved(c: char) {
    c == '%' || c == '+' || c == '&' || c == ';' || c == '='
  }

  /** One byte; where it cannot be spelled as asked, it is percent-encoded. */
  function Spell(c: char, how: Spelling, plusAsSpace: bool): string
    requires c as int < 256
  {
    match how
    case Percent(upperHigh, upperLow) => ['%', DigitOf(c as int / 16, upperHigh), DigitOf(c as int % 16, upperLow)]
    case Plus => if c == ' ' && plusAsSpace then "+" else ['%', DigitOf(c as int / 16, true), DigitOf(c as int % 16, true)]
    case Itself => if !Reserved(c) then [c] else ['%', DigitOf(c as int / 16, true), DigitOf(c as int % 16, true)]
  }

  function DigitOf(d: nat, upper: bool): char
    requires d < 16
  {
    if upper then UPPER_DIGITS[d] else LOWER_DIGITS[d]
  }

  lemma DigitOfReads(d: nat, upper: bool)
    requires d < 16
    ensures HexDigit(DigitOf(d, upper)) == Some(d)
    ensures var c := DigitOf(d, upper); c != '&' && c != ';' && c != '='
  {
    hide HexDigit, LOWER_DIGITS, UPPER_DIGITS;
    DigitsOfBothCases(DigitOf(d, upper), d);
    NoDelimiterIsHex();
  }

  lemma NoDelimiterIsHex()
    ensures HexDigit('&') == HexDigit(';') == HexDigit('=') == HexDigit('%') == None
  {
  }

  function Encode(s: Spelled, plusAsSpace: bool): string
    requires IsByteText(s)
    decreases |s.text|
  {
    if s.text == [] then []
    else Spell(s.text[0], s.how[0], plusAsSpace) + Encode(Spelled(s.text[1..], s.how[1..]), plusAsSpace)
  }

  function EncodePair(p: SpelledPair): string
    requires IsByteText(p.key) && IsByteText(p.value)
  {
    Encode(p.key, true) + "=" + Encode(p.value, true)
  }

  predicate AllByteTexts(pairs: seq<SpelledPair>) {
    forall i | 0 <= i < |pairs| :: IsByteText(pairs[i].key) && IsByteText(pairs[i].value)
  }

  function EncodeQuery(pairs: seq<SpelledPair>): string
    requires AllByteTexts(pairs)
  {
    if pairs == [] then []
    else if |pairs| == 1 then EncodePair(pairs[0])
    else EncodePair(pairs[0]) + "&" + EncodeQuery(pairs[1..])
  }

  lemma SpelledReads(c: char, how: Spelling, plusAsSpace: bool, rest: string)
    requires c as int < 256
    ensures Decoded(Spell(c, how, plusAsSpace) + rest, plusAsSpace) == Cons(c, Decoded(rest, plusAsSpace))
    ensures forall d | d in Spell(c, how, plusAsSpace) :: d != '&' && d != ';' && d != '='
  {
    hide HexDigit, DigitOf;
    DigitOfReads(c as int / 16, true);
    DigitOfReads(c as int % 16, true);
    if how.Percent? {
      DigitOfReads(c as int / 16, how.upperHigh);
      DigitOfReads(c as int % 16, how.upperLow);
    }
    var first := Spell(c, how, plusAsSpace);
    assert (first + rest)[|first|..] == rest;
  }

  /** Decoding undoes encoding, whichever way each byte is spelled. */
  lemma {:induction false} DecodeUndoesEncode(s: Spelled, plusAsSpace: bool)
    requires IsByteText(s)
    ensures Decoded(Encode(s, plusAsSpace), plusAsSpace) == Some(s.text)
    ensures '&' !in Encode(s, plusAsSpace) && ';' !in Encode(s, plusAsSpace) && '=' !in Encode(s, plusAsSpace)
    decreases |s.text|
  {
    hide Spell;
    if s.text != [] {
      var tail := Spelled(s.text[1..], s.how[1..]);
      DecodeUndoesEncode(tail, plusAsSpace);
      SpelledReads(s.text[0], s.how[0], plusAsSpace, Encode(tail, plusAsSpace));
      assert [s.text[0]] + s.text[1..] == s.text;
    }
  }

  lemma PairReads(p: SpelledPair)
    requires IsByteText(p.key) && IsByteText(p.value)
    ensures FieldPairs(EncodePair(p)) == [QueryParameter(p.key.text, p.value.text)]
    ensures '&' !in EncodePair(p)
  {
    hide Decoded, Encode;
    var key, value := Encode(p.key, true), Encode(p.value, true);
    DecodeUndoesEncode(p.key, true);
    DecodeUndoesEncode(p.value, true);
    IndexAfter(key, '=', value);
    var field := EncodePair(p);
    assert field == key + ['='] + value;
    assert field[..|key|] == key && field[|key| + 1..] == value;
  }

  /** Parsing undoes encoding: every list of pairs of bytes comes back in order, empty keys and values included. */
  lemma {:induction false} ParseUndoesEncode(pairs: seq<SpelledPair>)
    requires AllByteTexts(pairs)
    ensures |Parsed(EncodeQuery(pairs))| == |pairs|
    ensures forall i | 0 <= i < |pairs| :: Parsed(EncodeQuery(pairs))[i] == QueryParameter(pairs[i].key.text, pairs[i].value.text)
  {
    hide EncodePair, FieldPairs, Parsed, IsByteText;
    if pairs == [] {
      EmptyField();
    } else {
      PairReads(pairs[0]);
      OneField(EncodePair(pairs[0]));
      if |pairs| > 1 {
        ParseUndoesEncode(pairs[1..]);
        ParsedConcat(EncodePair(pairs[0]), EncodeQuery(pairs[1..]));
      }
    }
  }

  /** A key without an equals sign has the empty value. */
  lemma KeyAlone(key: Spelled)
    requires IsByteText(key) && key.text != ""
    ensures Parsed(Encode(key, true)) == [QueryParameter(key.text, "")]
  {
    hide Decoded, Spell;
    var e := Encode(key, true);
    DecodeUndoesEncode(key, true);
    SpelledReads(key.text[0], key.how[0], true, "");
    assert e != [] by {
      SpellIsSomething(key.text[0], key.how[0]);
    }
    NothingDecoded();
    OneField(e);
  }

  lemma SpellIsSomething(c: char, how: Spelling)
    requires c as int < 256
    ensures Spell(c, how, true) != []
  {
  }

  lemma NothingDecoded()
    ensures Decoded([], true) == Some([])
  {
  }

  lemma EmptyField()
    ensures Parsed([]) == []
  {
  }

  lemma OneField(field: string)
    requires '&' !in field
    ensures Parsed(field) == FieldPairs(field)
  {
  }
}
