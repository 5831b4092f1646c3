/**
 `RedirectTracker`: at most ten redirects, none of them to a URL already visited. URL parsing
 and validation are libcurl's and the URL policy's; here they are any two functions.
 */
module RedirectPolicy {
  import opened Wrappers
  import opened Text

  const MAXIMUM_REDIRECTS := 10

  datatype OriginUrl = OriginUrl(canonicalUrl: string, hostname: string, port: nat, requestTarget: string, literalAddress: Option<string>)

  datatype UrlError = InvalidSyntax | InvalidScheme | UserInformation | InvalidHostname | InvalidPort | ForbiddenAddress

  /** `validate_origin_url` and `resolve_relative_location`. */
  datatype UrlPolicy = UrlPolicy(validate: string -> Result<OriginUrl, UrlError>, resolve: (OriginUrl, string) -> Option<string>)

  datatype RedirectError = InvalidLocation | UrlRefused(reason: UrlError) | Loop | TooManyRedirects

  predicate IsAlpha(c: char) {
    'a' <= c <= 'z' || 'A' <= c <= 'Z'
  }

  predicate IsSchemeChar(c: char) {
    IsAlpha(c) || '0' <= c <= '9' || c == '+' || c == '-' || c == '.'
  }

  /** A letter, scheme characters and a colon: section 3.1 of RFC 3986. */
  ghost predicate HasScheme(value: string) {
    exists i | 0 < i < |value| :: value[i] == ':' && IsAlpha(value[0]) && forall j | 0 < j < i :: IsSchemeChar(value[j])
  }

  /** The loop of `has_scheme`. */
  method FindScheme(value: string) returns (r: bool)
    ensures r <==> HasScheme(value)
  {
    if value == [] || !IsAlpha(value[0]) {
      return false;
    }
    for index := 1 to |value|
      invariant forall j | 0 < j < index :: IsSchemeChar(value[j]) && value[j] != ':'
    {
      var current := value[index];
      if current == ':' {
        return true;
      }
      if !IsSchemeChar(current) {
        return false;
      }
    }
    return false;
  }

  /** The URL a location leads to from `current`, when the history lets it be followed. */
  ghost function Target(policy: UrlPolicy, history: seq<string>, current: OriginUrl, location: string): Result<OriginUrl, RedirectError> {
    if |history| > MAXIMUM_REDIRECTS then Err(TooManyRedirects)
    else if 0 as char in location then Err(InvalidLocation)
    else
      var resolved := if HasScheme(location) then Some(location) else policy.resolve(current, location);
      if resolved.None? then Err(InvalidLocation)
      else
        match policy.validate(resolved.value)
        case Err(e) => Err(UrlRefused(e))
        case Ok(url) => if url.canonicalUrl in history then Err(Loop) else Ok(url)
  }

  predicate IsSchemeMark(c: char) {
    c in LOWER_CASE || c in UPPER_CASE || c in "0123456789+-."
  }

  lemma SchemeMarks(c: char)
    ensures c in LOWER_CASE || c in UPPER_CASE <==> IsAlpha(c)
    ensures IsSchemeMark(c) <==> IsSchemeChar(c)
    ensures IsAlpha(c) ==> IsSchemeChar(c)
  {
    hide LOWER_CASE, UPPER_CASE;
    LowerCaseLetters(c);
    UpperCaseLetters(c);
    OtherMarks(c);
  }

  lemma OtherMarks(c: char)
    ensures c in "0123456789+-." <==> '0' <= c <= '9' || c == '+' || c == '-' || c == '.'
  {
    if '0' <= c <= '9' {
      assert "0123456789+-."[c as int - '0' as int] == c;
    }
    assert "0123456789+-."[10] == '+' && "0123456789+-."[11] == '-' && "0123456789+-."[12] == '.';
  }

  /** A location is absolute when a scheme, written with letters, digits, plus, minus and dots, stands before a colon. */
  ghost predicate IsAbsolute(location: string) {
    exists scheme: string, rest: string ::
      location == scheme + ":" + rest && scheme != "" && (scheme[0] in LOWER_CASE || scheme[0] in UPPER_CASE) && forall c | c in scheme :: IsSchemeMark(c)
  }

  lemma AbsoluteHasScheme(location: string)
    ensures HasScheme(location) <==> IsAbsolute(location)
  {
    hide IsAlpha, IsSchemeChar, IsSchemeMark, LOWER_CASE, UPPER_CASE;
    forall c: char
      ensures (c in LOWER_CASE || c in UPPER_CASE <==> IsAlpha(c)) && (IsSchemeMark(c) <==> IsSchemeChar(c)) && (IsAlpha(c) ==> IsSchemeChar(c))
    {
      SchemeMarks(c);
    }
    if HasScheme(location) {
      var i :| 0 < i < |location| && location[i] == ':' && IsAlpha(location[0]) && forall j | 0 < j < i :: IsSchemeChar(location[j]);
      var scheme, rest := location[..i], location[i + 1..];
      assert location == scheme + ":" + rest;
      assert forall c | c in scheme :: IsSchemeChar(c);
    }
    if IsAbsolute(location) {
      var scheme: string, rest: string :|
        location == scheme + ":" + rest && scheme != "" && (scheme[0] in LOWER_CASE || scheme[0] in UPPER_CASE) && forall c | c in scheme :: IsSchemeMark(c);
      assert location[|scheme|] == ':';
      assert forall j | 0 < j < |scheme| :: location[j] == scheme[j] && scheme[j] in scheme;
    }
  }

  /** The text that is validated: the location itself if it is absolute, else what it resolves to. */
  ghost function Resolved(policy: UrlPolicy, current: OriginUrl, location: string): Option<string> {
    if IsAbsolute(location) then Some(location) else policy.resolve(current, location)
  }

  /**
   A location is followed to a URL exactly when there were fewer than ten redirects, it holds no NUL, it resolves to
   something that validates as that URL, and the URL has not been visited; otherwise the first of these is the reason.
   */
  lemma TargetIsExact(policy: UrlPolicy, history: seq<string>, current: OriginUrl, location: string)
    ensures var target, text := Target(policy, history, current, location), Resolved(policy, current, location);
            var free, clean := |history| <= 10, forall c | c in location :: c as int != 0;
            && (forall url :: target == Ok(url) <==> free && clean && text.Some? && policy.validate(text.value) == Ok(url) && url.canonicalUrl !in history)
            && (target == Err(TooManyRedirects) <==> !free)
            && (target == Err(InvalidLocation) <==> free && (!clean || text.None?))
            && (forall e :: target == Err(UrlRefused(e)) <==> free && clean && text.Some? && policy.validate(text.value) == Err(e))
            && (target == Err(Loop) <==>
                free && clean && text.Some? && policy.validate(text.value).Ok? && policy.validate(text.value).value.canonicalUrl in history)
  {
    hide HasScheme, IsAbsolute;
    AbsoluteHasScheme(location);
  }

  predicate Distinct(s: seq<string>) {
    forall i, j | 0 <= i < j < |s| :: s[i] != s[j]
  }

  class RedirectTracker {
    const policy: UrlPolicy
    var current: OriginUrl
    const visited: array<string>
    var visitedCount: nat
    var redirectCount: nat

    ghost predicate Valid()
      reads this, visited
    {
      && visited.Length == MAXIMUM_REDIRECTS + 1
      && visitedCount == redirectCount + 1 <= visited.Length
      && visited[visitedCount - 1] == current.canonicalUrl
      && Distinct(visited[..visitedCount])
    }

    /** The canonical URLs visited, the current one last. */
    ghost function History(): seq<string>
      requires Valid()
      reads this, visited
    {
      visited[..visitedCount]
    }

    constructor (policy: UrlPolicy, initial: OriginUrl)
      ensures Valid() && fresh(visited) && this.policy == policy
      ensures current == initial && redirectCount == 0 && History() == [initial.canonicalUrl]
    {
      this.policy, current, visitedCount, redirectCount := policy, initial, 1, 0;
      visited := new string[MAXIMUM_REDIRECTS + 1](_ => "");
      new;
      visited[0] := initial.canonicalUrl;
    }

    method Follow(location: string) returns (r: Result<OriginUrl, RedirectError>)
      requires Valid()
      modifies this, visited
      ensures Valid()
      ensures r == Target(policy, old(History()), old(current), location)
      // A refused redirect changes nothing; a followed one is the new current URL, last in the history.
      ensures r.Err? ==> current == old(current) && redirectCount == old(redirectCount) && History() == old(History())
      ensures r.Ok? ==> current == r.value && redirectCount == old(redirectCount) + 1 && History() == old(History()) + [r.value.canonicalUrl]
    {
      if redirectCount >= MAXIMUM_REDIRECTS {
        return Err(TooManyRedirects);
      }
      if 0 as char in location {
        return Err(InvalidLocation);
      }
      var resolved: Option<string>;
      var absolute := FindScheme(location);
      if absolute {
        resolved := Some(location);
      } else {
        resolved := policy.resolve(current, location);
      }
      if resolved.None? {
        return Err(InvalidLocation);
      }
      var validated := policy.validate(resolved.value);
      if validated.Err? {
        return Err(UrlRefused(validated.error));
      }
      var accepted := validated.value;
      for index := 0 to visitedCount
        invariant forall j | 0 <= j < index :: visited[j] != accepted.canonicalUrl
      {
        if visited[index] == accepted.canonicalUrl {
          assert visited[..visitedCount][index] in visited[..visitedCount];
          return Err(Loop);
        }
      }
      ghost var history := visited[..visitedCount];
      current := accepted;
      visited[visitedCount] := accepted.canonicalUrl;
      visitedCount, redirectCount := visitedCount + 1, redirectCount + 1;
      assert visited[..visitedCount] == history + [accepted.canonicalUrl];
      return Ok(accepted);
    }
  }

  /** `RedirectTracker::create`: the URL must be one that validation leaves exactly as it is. */
  method CreateTracker(policy: UrlPolicy, initial: OriginUrl) returns (tracker: RedirectTracker?)
    ensures tracker != null <==> policy.validate(initial.canonicalUrl) == Ok(initial)
    ensures tracker != null ==>
              && fresh(tracker) && fresh(tracker.visited) && tracker.Valid() && tracker.policy == policy
              && tracker.current == initial && tracker.redirectCount == 0 && tracker.History() == [initial.canonicalUrl]
  {
    var validated := policy.validate(initial.canonicalUrl);
    if validated.Err? || validated.value.canonicalUrl != initial.canonicalUrl || validated.value.hostname != initial.hostname
       || validated.value.port != initial.port || validated.value.requestTarget != initial.requestTarget
       || validated.value.literalAddress != initial.literalAddress {
      return null;
    }
    tracker := new RedirectTracker(policy, validated.value);
  }
}
