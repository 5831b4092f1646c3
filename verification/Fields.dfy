/** Header fields as text: a name in any case, a colon, and a value between blanks (section 5 of RFC 9112). */
module Fields {
  import opened Wrappers
  import opened Text

  predicate SameName(a: string, b: string) {
    |a| == |b| && forall i | 0 <= i < |a| :: IsSameLetter(a[i], b[i])
  }

  /** The line is a name without a colon, a colon, and the rest. */
  predicate IsSplit(line: string, name: string, rest: string) {
    name != "" && ':' !in name && line == name + ":" + rest
  }

  /** The line is a field with this name, in letters of either case, and with this value between spaces and tabs. */
  ghost predicate IsField(line: string, name: string, value: string) {
    exists n, rest :: IsSplit(line, n, rest) && SameName(n, name) && value == Trim(rest)
  }

  lemma SplitAtColon(line: string, name: string, rest: string)
    requires IsSplit(line, name, rest)
    ensures |name| > 0 && IndexOf(line, ':') == Some(|name|) && line[..|name|] == name && line[|name| + 1..] == rest
  {
    hide IndexOf;
    IndexAfter(name, ':', rest);
    assert line == name + [':'] + rest;
  }

  lemma SplitHere(line: string, e: nat)
    requires 0 < e < |line| && line[e] == ':' && ':' !in line[..e]
    ensures IsSplit(line, line[..e], line[e + 1..])
  {
    assert line == line[..e] + ":" + line[e + 1..];
  }

  lemma NamesAgree(a: string, b: string)
    ensures SameName(a, b) <==> AsciiEqual(a, b)
  {
    hide IsSameLetter;
    NamesMatchInAnyCase(a, b);
  }
}
