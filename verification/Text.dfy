/**
 Byte strings as the HTTP code reads them: a `string` stands for a `std::string_view`, one
 character for one byte.
 */
module Text {
  import opened Wrappers

  const CRLF := "\r\n"
  const CONTENT_LENGTH := "Content-Length"

  /** The pattern is found at index i. */
  predicate At(s: string, pattern: string, i: nat) {
    i + |pattern| <= |s| && s[i..i + |pattern|] == pattern
  }

  /** `find`: the first place of the pattern. */
  function Find(s: string, pattern: string): (r: Option<nat>)
    ensures r.Some? ==> At(s, pattern, r.value) && forall j | 0 <= j < r.value :: !At(s, pattern, j)
    ensures r.None? ==> forall j: nat :: !At(s, pattern, j)
  {
    FindFrom(s, pattern, 0)
  }

  function FindFrom(s: string, pattern: string, from: nat): (r: Option<nat>)
    ensures r.Some? ==> from <= r.value && At(s, pattern, r.value) && forall j | from <= j < r.value :: !At(s, pattern, j)
    ensures r.None? ==> forall j | from <= j :: !At(s, pattern, j)
    decreases |s| - from
  {
    if from + |pattern| > |s| then None
    else if At(s, pattern, from) then Some(from)
    else FindFrom(s, pattern, from + 1)
  }

  /** What is first is what is found. */
  lemma FoundAt(s: string, pattern: string, i: nat)
    requires At(s, pattern, i) && forall j | 0 <= j < i :: !At(s, pattern, j)
    ensures Find(s, pattern) == Some(i)
  {
  }

  /** One wrong character is enough. */
  lemma NotAt(s: string, pattern: string, i: nat, k: nat)
    requires k < |pattern| && (i + k < |s| ==> s[i + k] != pattern[k])
    ensures !At(s, pattern, i)
  {
    if i + |pattern| <= |s| {
      assert s[i..i + |pattern|][k] == s[i + k];
    }
  }

  /** A pattern found in a prefix is found at the same place in the whole. */
  lemma FoundInPrefix(s: string, t: string, pattern: string)
    requires s <= t && Find(s, pattern).Some?
    ensures Find(t, pattern) == Find(s, pattern)
  {
    var i := Find(s, pattern).value;
    forall j | 0 <= j <= i
      ensures At(s, pattern, j) <==> At(t, pattern, j)
    {
      assert j + |pattern| <= |s|;
      assert s[j..j + |pattern|] == t[j..j + |pattern|];
    }
    FoundAt(t, pattern, i);
  }

  function IndexOf(s: string, c: char): (r: Option<nat>)
    ensures r.Some? ==> r.value < |s| && s[r.value] == c && c !in s[..r.value]
    ensures r.None? ==> c !in s
  {
    if s == [] then None
    else if s[0] == c then Some(0)
    else
      match IndexOf(s[1..], c)
      case None => None
      case Some(i) => Some(i + 1)
  }

  lemma {:induction false} IndexAfter(s: string, c: char, rest: string)
    requires c !in s
    ensures IndexOf(s + [c] + rest, c) == Some(|s|)
  {
    if s != [] {
      IndexAfter(s[1..], c, rest);
      assert (s + [c] + rest)[1..] == s[1..] + [c] + rest;
    }
  }

  function Lower(c: char): char {
    if 'A' <= c <= 'Z' then c - 'A' + 'a' else c
  }

  const LOWER_CASE := "abcdefghijklmnopqrstuvwxyz"
  const UPPER_CASE := "ABCDEFGHIJKLMNOPQRSTUVWXYZ"

  lemma Alphabets()
    ensures |LOWER_CASE| == |UPPER_CASE| == 26
    ensures forall i | 0 <= i < 26 :: LOWER_CASE[i] as int == 'a' as int + i
    ensures forall i | 0 <= i < 26 :: UPPER_CASE[i] as int == 'A' as int + i
  {
  }

  lemma LowerCaseLetters(c: char)
    ensures c in LOWER_CASE <==> 'a' <= c <= 'z'
  {
    hide LOWER_CASE, UPPER_CASE;
    Alphabets();
    if 'a' <= c <= 'z' {
      assert LOWER_CASE[c as int - 'a' as int] == c;
    }
  }

  lemma UpperCaseLetters(c: char)
    ensures c in UPPER_CASE <==> 'A' <= c <= 'Z'
  {
    hide LOWER_CASE, UPPER_CASE;
    Alphabets();
    if 'A' <= c <= 'Z' {
      assert UPPER_CASE[c as int - 'A' as int] == c;
    }
  }

  /** The same character, or the same letter of the alphabet in the other case. */
  predicate IsSameLetter(a: char, b: char) {
    || a == b
    || (exists i | 0 <= i < 26 :: (a == LOWER_CASE[i] && b == UPPER_CASE[i]) || (a == UPPER_CASE[i] && b == LOWER_CASE[i]))
  }

  lemma SameLetter(a: char, b: char)
    ensures Lower(a) == Lower(b) <==> IsSameLetter(a, b)
  {
    Alphabets();
    if Lower(a) == Lower(b) && a != b {
      var i := Lower(a) as int - 'a' as int;
      assert (a == LOWER_CASE[i] && b == UPPER_CASE[i]) || (a == UPPER_CASE[i] && b == LOWER_CASE[i]);
    }
  }

  /** Equal but for the case of ASCII letters. */
  predicate AsciiEqual(a: string, b: string) {
    |a| == |b| && forall i | 0 <= i < |a| :: Lower(a[i]) == Lower(b[i])
  }

  /** Names are equal whatever the case of their letters, and only then. */
  lemma NamesMatchInAnyCase(a: string, b: string)
    ensures AsciiEqual(a, b) <==> |a| == |b| && forall i | 0 <= i < |a| :: IsSameLetter(a[i], b[i])
  {
    hide IsSameLetter, Lower;
    forall i | 0 <= i < |a| && i < |b|
      ensures Lower(a[i]) == Lower(b[i]) <==> IsSameLetter(a[i], b[i])
    {
      SameLetter(a[i], b[i]);
    }
  }

  predicate IsBlank(c: char) {
    c == ' ' || c == '\t'
  }

  /** s without the blanks at its two ends. */
  function Trim(s: string): string {
    TrimRight(TrimLeft(s))
  }

  function TrimLeft(s: string): string {
    if s != [] && IsBlank(s[0]) then TrimLeft(s[1..]) else s
  }

  function TrimRight(s: string): string {
    if s != [] && IsBlank(s[|s| - 1]) then TrimRight(s[..|s| - 1]) else s
  }

  /** The loops of `trim`. */
  method TrimView(value: string) returns (r: string)
    ensures r == Trim(value)
  {
    r := value;
    while r != [] && IsBlank(r[0])
      invariant TrimLeft(r) == TrimLeft(value)
      decreases |r|
    {
      r := r[1..];
    }
    while r != [] && IsBlank(r[|r| - 1])
      invariant TrimRight(r) == Trim(value)
      decreases |r|
    {
      r := r[..|r| - 1];
    }
  }

  predicate IsTrimmed(s: string) {
    s == [] || (!IsBlank(s[0]) && !IsBlank(s[|s| - 1]))
  }

  /** A trimmed value survives one leading space. */
  lemma TrimSpaced(s: string)
    requires IsTrimmed(s)
    ensures Trim([' '] + s) == s
  {
    assert ([' '] + s)[1..] == s;
    if s == [] {
      assert TrimLeft([' '] + s) == TrimLeft(s) == [];
    } else {
      assert TrimLeft([' '] + s) == TrimLeft(s) == s;
    }
  }

  /** Exactly the spaces and tabs around a text go, those inside it stay. */
  lemma {:induction false} TrimTakesSpacesAndTabs(before: string, s: string, after: string)
    requires forall c | c in before || c in after :: c == ' ' || c == '\t'
    requires s != "" ==> s[0] != ' ' && s[0] != '\t' && s[|s| - 1] != ' ' && s[|s| - 1] != '\t'
    ensures Trim(before + s + after) == s
    decreases |before|, |after|
  {
    var t := before + s + after;
    if before != "" {
      assert before[0] in before && forall c | c in before[1..] :: c in before;
      assert t[1..] == before[1..] + s + after;
      TrimTakesSpacesAndTabs(before[1..], s, after);
    } else if s == "" {
      assert t == after;
      OnlyBlanks(after);
    } else {
      assert t == s + after;
      TrimEnd(s, after);
    }
  }

  lemma {:induction false} OnlyBlanks(s: string)
    requires forall c | c in s :: c == ' ' || c == '\t'
    ensures Trim(s) == ""
  {
    if s != "" {
      assert s[0] in s && forall c | c in s[1..] :: c in s;
      OnlyBlanks(s[1..]);
    }
  }

  lemma {:induction false} TrimEnd(s: string, after: string)
    requires s != "" && s[|s| - 1] != ' ' && s[|s| - 1] != '\t'
    requires forall c | c in after :: c == ' ' || c == '\t'
    ensures TrimRight(s + after) == s
  {
    if after != "" {
      var t, front := s + after, after[..|after| - 1];
      assert after[|after| - 1] in after && forall k | 0 <= k < |front| :: front[k] == after[k] && after[k] in after;
      assert t[..|t| - 1] == s + front;
      TrimEnd(s, front);
    } else {
      assert s + after == s;
    }
  }

  /** A trimmed value is what is left when all blanks around it are gone. */
  lemma {:induction false} TrimIsInside(s: string)
    ensures exists a, b | 0 <= a <= b <= |s| ::
              && Trim(s) == s[a..b] && IsTrimmed(Trim(s))
              && (forall i | 0 <= i < a || b <= i < |s| :: IsBlank(s[i]))
  {
    var a := LeftBlanks(s);
    var b := RightBlanks(s[a..]);
    assert s[a..][..b] == s[a..a + b];
    assert forall i | a + b <= i < |s| :: s[i] == s[a..][i - a];
  }

  lemma {:induction false} LeftBlanks(s: string) returns (a: nat)
    ensures a <= |s| && TrimLeft(s) == s[a..] && (forall i | 0 <= i < a :: IsBlank(s[i])) && (a < |s| ==> !IsBlank(s[a]))
  {
    a := 0;
    if s != [] && IsBlank(s[0]) {
      a := LeftBlanks(s[1..]);
      a := a + 1;
      assert s[1..][a - 1..] == s[a..];
      assert forall i | 1 <= i < a :: s[i] == s[1..][i - 1];
    }
  }

  lemma {:induction false} RightBlanks(s: string) returns (b: nat)
    ensures b <= |s| && TrimRight(s) == s[..b] && (forall i | b <= i < |s| :: IsBlank(s[i])) && (b > 0 ==> !IsBlank(s[b - 1]))
  {
    b := |s|;
    if s != [] && IsBlank(s[|s| - 1]) {
      b := RightBlanks(s[..|s| - 1]);
      assert s[..|s| - 1][..b] == s[..b];
    }
  }
}
