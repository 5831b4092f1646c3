/**
 `download_origin`: resolve, open, transfer, close, perhaps follow a redirect, again. DNS, the
 transport and the clock are oracles: a `Hop` holds whatever they answer during one request.
 What a run may do is said by a protocol over its log that shares nothing with the code.
 */
module OriginDownload {
  import opened Wrappers
  import opened RedirectPolicy
  import opened OriginResponse

  const CURLE_OK := 0
  const CURLE_WRITE_ERROR := 23

  datatype Hop = Hop(
    timeLeft: int,
    resolutionError: bool,
    pinError: bool,
    timeLeftAfterDns: int,
    opens: bool,
    configured: bool,
    calls: seq<Callback>,
    performCode: int,
    infoCode: int,
    status: int)

  datatype DownloadError =
    | InvalidArgument
    | Resolution
    | ResolvePin
    | EasyInit
    | CurlConfig
    | Transfer
    | ResponseInfo
    | ResponsePolicy
    | Deadline
    | Redirect(reason: RedirectError)

  datatype DownloadResult = DownloadResult(error: Option<DownloadError>, status: int, redirectCount: nat, response: ResponseState)

  const NO_RESULT := DownloadResult(None, 0, 0, NO_RESPONSE)

  // ----- the log and the protocol it must follow

  datatype Entry =
    | Resolved(url: string, ok: bool)
    | Opened(url: string)
    | Answered(url: string, status: int, location: Option<string>)
    | Closed(url: string)

  datatype Phase = Ready | Allowed | Open | Heard(status: int, location: Option<string>) | Done(status: int, location: Option<string>) | Stopped

  datatype Run = Run(history: seq<string>, current: OriginUrl, phase: Phase)

  predicate IsRedirectStatus(status: int) {
    status == 301 || status == 302 || status == 303 || status == 307 || status == 308
  }

  /** The URL the next request of a run must be for: the first, or where a redirect answer leads. */
  ghost function NextUrl(policy: UrlPolicy, run: Run): Option<OriginUrl> {
    match run.phase
    case Ready => Some(run.current)
    case Done(status, Some(location)) =>
      if IsRedirectStatus(status) && location != "" then
        match Target(policy, run.history, run.current, location)
        case Err(_) => None
        case Ok(url) => Some(url)
      else None
    case _ => None
  }

  ghost function Transition(policy: UrlPolicy, run: Run, entry: Entry): Option<Run> {
    match entry
    case Resolved(url, ok) =>
      var next := NextUrl(policy, run);
      if next.Some? && next.value.canonicalUrl == url then
        Some(Run(if run.phase.Ready? then run.history else run.history + [url], next.value, if ok then Allowed else Stopped))
      else None
    case Opened(url) =>
      if run.phase == Allowed && url == run.current.canonicalUrl then Some(run.(phase := Open)) else None
    case Answered(url, status, location) =>
      if run.phase == Open && url == run.current.canonicalUrl then Some(run.(phase := Heard(status, location))) else None
    case Closed(url) =>
      if url != run.current.canonicalUrl then None
      else
        match run.phase
        case Open => Some(run.(phase := Stopped))
        case Heard(status, location) => Some(run.(phase := Done(status, location)))
        case _ => None
  }

  /** The run a log describes, if the protocol allows it. */
  ghost function RunOf(policy: UrlPolicy, initial: OriginUrl, log: seq<Entry>): Option<Run> {
    if log == [] then Some(Run([initial.canonicalUrl], initial, Ready))
    else
      match RunOf(policy, initial, log[..|log| - 1])
      case None => None
      case Some(run) => Transition(policy, run, log[|log| - 1])
  }

  /** Between requests: no handle is open. */
  predicate AtRest(phase: Phase) {
    !phase.Open? && !phase.Heard?
  }

  // ----- what every run the protocol allows has in common

  function ResolvedUrls(log: seq<Entry>): seq<string> {
    if log == [] then []
    else
      var e := log[|log| - 1];
      if e.Resolved? then ResolvedUrls(log[..|log| - 1]) + [e.url] else ResolvedUrls(log[..|log| - 1])
  }

  function OpenedUrls(log: seq<Entry>): seq<string> {
    if log == [] then []
    else
      var e := log[|log| - 1];
      if e.Opened? then OpenedUrls(log[..|log| - 1]) + [e.url] else OpenedUrls(log[..|log| - 1])
  }

  function ClosedUrls(log: seq<Entry>): seq<string> {
    if log == [] then []
    else
      var e := log[|log| - 1];
      if e.Closed? then ClosedUrls(log[..|log| - 1]) + [e.url] else ClosedUrls(log[..|log| - 1])
  }

  /** Bounded, without repetition, and every handle opened for a URL just resolved and closed again. */
  ghost predicate Safe(log: seq<Entry>, run: Run) {
    && Distinct(run.history) && 1 <= |run.history| <= MAXIMUM_REDIRECTS + 1
    && run.history[|run.history| - 1] == run.current.canonicalUrl
    && ResolvedUrls(log) == (if run.phase.Ready? then [] else run.history)
    && (run.phase.Ready? ==> |run.history| == 1)
    && Distinct(OpenedUrls(log))
    && (forall url | url in OpenedUrls(log) :: url in run.history)
    && (run.phase.Ready? || run.phase.Allowed? ==> run.current.canonicalUrl !in OpenedUrls(log))
    && OpenedUrls(log) == ClosedUrls(log) + (if AtRest(run.phase) then [] else [run.current.canonicalUrl])
    && (run.phase.Allowed? ==> log != [] && log[|log| - 1] == Resolved(run.current.canonicalUrl, true))
    && (forall i | 0 <= i < |log| && log[i].Opened? :: 0 < i && log[i - 1] == Resolved(log[i].url, true))
  }

  lemma {:induction false} EveryRunIsSafe(policy: UrlPolicy, initial: OriginUrl, log: seq<Entry>)
    requires RunOf(policy, initial, log).Some?
    ensures Safe(log, RunOf(policy, initial, log).value)
  {
    hide Target, HasScheme, Safe, Transition;
    if log == [] {
      NothingIsSafe(initial);
    } else {
      var front, e := log[..|log| - 1], log[|log| - 1];
      EveryRunIsSafe(policy, initial, front);
      assert log == front + [e];
      var run := RunOf(policy, initial, front).value;
      match e
      case Resolved(_, _) => ResolvedIsSafe(policy, front, run, e);
      case Opened(_) => OpenedIsSafe(policy, front, run, e);
      case Answered(_, _, _) => AnsweredIsSafe(policy, front, run, e);
      case Closed(_) => ClosedIsSafe(policy, front, run, e);
    }
  }

  lemma NothingIsSafe(initial: OriginUrl)
    ensures Safe([], Run([initial.canonicalUrl], initial, Ready))
  {
  }

  lemma NextIsNew(policy: UrlPolicy, run: Run)
    requires NextUrl(policy, run).Some?
    ensures run.phase.Ready? || run.phase.Done?
    ensures run.phase.Ready? ==> NextUrl(policy, run) == Some(run.current)
    ensures run.phase.Done? ==> |run.history| <= MAXIMUM_REDIRECTS && NextUrl(policy, run).value.canonicalUrl !in run.history
  {
    hide HasScheme;
  }

  lemma ResolvedIsSafe(policy: UrlPolicy, log: seq<Entry>, run: Run, e: Entry)
    requires Safe(log, run) && Transition(policy, run, e).Some? && e.Resolved?
    ensures Safe(log + [e], Transition(policy, run, e).value)
  {
    hide NextUrl;
    NextIsNew(policy, run);
    assert (log + [e])[..|log|] == log && (log + [e])[|log|] == e;
  }

  lemma OpenedIsSafe(policy: UrlPolicy, log: seq<Entry>, run: Run, e: Entry)
    requires Safe(log, run) && Transition(policy, run, e).Some? && e.Opened?
    ensures Safe(log + [e], Transition(policy, run, e).value)
  {
    hide NextUrl, ResolvedUrls, ClosedUrls;
    SkipsOthers(log, e);
    assert (log + [e])[..|log|] == log && (log + [e])[|log|] == e;
  }

  lemma AnsweredIsSafe(policy: UrlPolicy, log: seq<Entry>, run: Run, e: Entry)
    requires Safe(log, run) && Transition(policy, run, e).Some? && e.Answered?
    ensures Safe(log + [e], Transition(policy, run, e).value)
  {
    hide NextUrl, ResolvedUrls, OpenedUrls, ClosedUrls;
    SkipsOthers(log, e);
    assert (log + [e])[..|log|] == log && (log + [e])[|log|] == e;
  }

  lemma ClosedIsSafe(policy: UrlPolicy, log: seq<Entry>, run: Run, e: Entry)
    requires Safe(log, run) && Transition(policy, run, e).Some? && e.Closed?
    ensures Safe(log + [e], Transition(policy, run, e).value)
  {
    hide NextUrl, ResolvedUrls, OpenedUrls;
    SkipsOthers(log, e);
    assert (log + [e])[..|log|] == log && (log + [e])[|log|] == e;
  }

  lemma SkipsOthers(log: seq<Entry>, e: Entry)
    ensures !e.Resolved? ==> ResolvedUrls(log + [e]) == ResolvedUrls(log)
    ensures !e.Opened? ==> OpenedUrls(log + [e]) == OpenedUrls(log)
    ensures !e.Closed? ==> ClosedUrls(log + [e]) == ClosedUrls(log)
  {
    assert (log + [e])[..|log|] == log;
  }

  /** A run makes at most eleven requests, no two for the same URL, and leaves no handle open. */
  lemma RunsAreBounded(policy: UrlPolicy, initial: OriginUrl, log: seq<Entry>)
    requires RunOf(policy, initial, log).Some? && AtRest(RunOf(policy, initial, log).value.phase)
    ensures |ResolvedUrls(log)| <= MAXIMUM_REDIRECTS + 1 && Distinct(ResolvedUrls(log))
    ensures |OpenedUrls(log)| <= MAXIMUM_REDIRECTS + 1 && Distinct(OpenedUrls(log)) && ClosedUrls(log) == OpenedUrls(log)
    ensures forall i | 0 <= i < |log| && log[i].Opened? :: 0 < i && log[i - 1] == Resolved(log[i].url, true)
  {
    EveryRunIsSafe(policy, initial, log);
    var run := RunOf(policy, initial, log).value;
    DistinctFits(OpenedUrls(log), run.history);
  }

  lemma {:induction false} DistinctFits(part: seq<string>, whole: seq<string>)
    requires Distinct(part) && forall url | url in part :: url in whole
    ensures |part| <= |whole|
  {
    if part != [] {
      var last := part[|part| - 1];
      assert last in whole;
      var k :| 0 <= k < |whole| && whole[k] == last;
      var rest := whole[..k] + whole[k + 1..];
      forall url | url in part[..|part| - 1]
        ensures url in rest
      {
        assert url in part;
        var j :| 0 <= j < |whole| && whole[j] == url;
        assert rest[if j < k then j else j - 1] == url;
      }
      DistinctFits(part[..|part| - 1], rest);
    }
  }

  // ----- one request of the protocol

  /** What one request adds to the log. */
  predicate Exchange(url: string, r: DownloadResult, entries: seq<Entry>) {
    if r.error.None? then
      entries == [Resolved(url, true), Opened(url), Answered(url, r.status, r.response.location), Closed(url)]
    else
      || entries == []
      || entries == [Resolved(url, false)]
      || entries == [Resolved(url, true)]
      || entries == [Resolved(url, true), Opened(url), Closed(url)]
  }

  function HistoryWith(run: Run, url: string): seq<string> {
    if run.phase.Ready? then run.history else run.history + [url]
  }

  lemma Extended(policy: UrlPolicy, initial: OriginUrl, log: seq<Entry>, e: Entry)
    requires RunOf(policy, initial, log).Some?
    ensures RunOf(policy, initial, log + [e]) == Transition(policy, RunOf(policy, initial, log).value, e)
  {
    hide Transition;
    assert (log + [e])[..|log|] == log;
  }

  /** A request for the next URL is always a step of the protocol, and ends with no handle open. */
  lemma ExchangeIsAllowed(policy: UrlPolicy, initial: OriginUrl, log: seq<Entry>, origin: OriginUrl, r: DownloadResult, entries: seq<Entry>)
    requires RunOf(policy, initial, log).Some? && NextUrl(policy, RunOf(policy, initial, log).value) == Some(origin)
    requires Exchange(origin.canonicalUrl, r, entries)
    ensures RunOf(policy, initial, log + entries).Some?
    ensures var before, after := RunOf(policy, initial, log).value, RunOf(policy, initial, log + entries).value;
            if r.error.None? then after == Run(HistoryWith(before, origin.canonicalUrl), origin, Done(r.status, r.response.location))
            else after.phase == Stopped || after.phase == Allowed || (entries == [] && after == before)
  {
    hide RunOf, NextUrl;
    var url := origin.canonicalUrl;
    if entries == [] {
      assert log + entries == log;
    } else {
      var first := entries[0];
      Extended(policy, initial, log, first);
      if |entries| == 1 {
        assert entries == [first];
      } else {
        Extended(policy, initial, log + [first], entries[1]);
        Extended(policy, initial, log + [first] + [entries[1]], entries[2]);
        if |entries| == 3 {
          assert log + entries == log + [first] + [entries[1]] + [entries[2]];
        } else {
          Extended(policy, initial, log + [first] + [entries[1]] + [entries[2]], entries[3]);
          assert log + entries == log + [first] + [entries[1]] + [entries[2]] + [entries[3]];
        }
      }
    }
  }

  // ----- what a request and a download answer, from what the oracles answer

  /** The result of a transfer on an open handle. */
  function TransferResult(hop: Hop): DownloadResult {
    var response := After(hop.calls);
    var bodyLimitCompletion := hop.performCode == CURLE_WRITE_ERROR && response.error.None? && |response.body| == MAXIMUM_BODY_BYTES;
    if !hop.configured then NO_RESULT.(error := Some(CurlConfig))
    else if hop.performCode != CURLE_OK && !bodyLimitCompletion then
      DownloadResult(Some(if response.error.None? then Transfer else ResponsePolicy), 0, 0, response)
    else
      DownloadResult(
        if hop.infoCode != CURLE_OK then Some(ResponseInfo) else if response.error.Some? then Some(ResponsePolicy) else None,
        hop.status, 0, response)
  }

  /** The result of one request: the first stage that fails decides. */
  function RequestResult(hop: Hop): DownloadResult {
    if hop.timeLeft <= 0 then NO_RESULT.(error := Some(Deadline))
    else if hop.resolutionError then NO_RESULT.(error := Some(Resolution))
    else if hop.pinError then NO_RESULT.(error := Some(ResolvePin))
    else if hop.timeLeftAfterDns <= 0 then NO_RESULT.(error := Some(Deadline))
    else if !hop.opens then NO_RESULT.(error := Some(EasyInit))
    else TransferResult(hop)
  }

  /** A request without an error has a response without one, and no request refuses a redirect. */
  lemma RequestErrors(hop: Hop)
    ensures var r := RequestResult(hop);
            (r.error.None? ==> r.response.error.None?) && (r.error.Some? ==> !r.error.value.Redirect?)
  {
  }

  /** The result of a download that has come to `current` through `history`. */
  ghost function Download(policy: UrlPolicy, hops: nat -> Hop, history: seq<string>, current: OriginUrl): DownloadResult
    requires history != []
    decreases MAXIMUM_REDIRECTS + 1 - |history|
  {
    var r := RequestResult(hops(|history| - 1)).(redirectCount := |history| - 1);
    if r.error.Some? || r.status == 200 then r
    else if !IsRedirectStatus(r.status) then r.(error := Some(ResponsePolicy), response := r.response.(error := Some(Non200Status)))
    else if r.response.location.None? || r.response.location.value == "" then r.(error := Some(Redirect(InvalidLocation)))
    else
      match Target(policy, history, current, r.response.location.value)
      case Err(e) => r.(error := Some(Redirect(e)))
      case Ok(url) => Download(policy, hops, history + [url.canonicalUrl], url)
  }

  lemma DownloadStep(policy: UrlPolicy, hops: nat -> Hop, history: seq<string>, current: OriginUrl)
    requires history != []
    ensures var r := RequestResult(hops(|history| - 1)).(redirectCount := |history| - 1);
            Download(policy, hops, history, current) ==
            if r.error.Some? || r.status == 200 then r
            else if !IsRedirectStatus(r.status) then r.(error := Some(ResponsePolicy), response := r.response.(error := Some(Non200Status)))
            else if r.response.location.None? || r.response.location.value == "" then r.(error := Some(Redirect(InvalidLocation)))
            else
              match Target(policy, history, current, r.response.location.value)
              case Err(e) => r.(error := Some(Redirect(e)))
              case Ok(url) => Download(policy, hops, history + [url.canonicalUrl], url)
  {
    hide Target, RequestResult;
  }

  // ----- the outcome, from the oracles alone

  datatype Stage = Stage(passed: bool, error: DownloadError)

  /** What a request must get through before it has an answer, in order, and what it fails with where it does not. */
  function Stages(hop: Hop): seq<Stage> {
    var response := After(hop.calls);
    [
      Stage(hop.timeLeft > 0, Deadline),
      Stage(!hop.resolutionError, Resolution),
      Stage(!hop.pinError, ResolvePin),
      Stage(hop.timeLeftAfterDns > 0, Deadline),
      Stage(hop.opens, EasyInit),
      Stage(hop.configured, CurlConfig),
      Stage(hop.performCode == 0 || (hop.performCode == 23 && response.error.None? && |response.body| == 10 * 1024 * 1024),
            if response.error.None? then Transfer else ResponsePolicy),
      Stage(hop.infoCode == 0, ResponseInfo),
      Stage(response.error.None?, ResponsePolicy)
    ]
  }

  predicate Completes(hop: Hop) {
    forall i | 0 <= i < |Stages(hop)| :: Stages(hop)[i].passed
  }

  /** The request fails at stage i, the first it does not pass. */
  predicate FailsAt(hop: Hop, i: nat) {
    i < |Stages(hop)| && !Stages(hop)[i].passed && forall j | 0 <= j < i :: Stages(hop)[j].passed
  }

  function Canonical(urls: seq<OriginUrl>): (r: seq<string>)
    ensures |r| == |urls|
  {
    seq(|urls|, i requires 0 <= i < |urls| => urls[i].canonicalUrl)
  }

  /** The answer sends the download on to `next`. */
  ghost predicate LeadsTo(policy: UrlPolicy, urls: seq<OriginUrl>, hop: Hop, next: OriginUrl)
    requires urls != []
  {
    && Completes(hop) && hop.status in {301, 302, 303, 307, 308}
    && After(hop.calls).location.Some? && After(hop.calls).location.value != ""
    && Target(policy, Canonical(urls), urls[|urls| - 1], After(hop.calls).location.value) == Ok(next)
  }

  ghost predicate LeadsSomewhere(policy: UrlPolicy, urls: seq<OriginUrl>, hop: Hop)
    requires urls != []
  {
    exists next :: LeadsTo(policy, urls, hop, next)
  }

  /** From the first URL on, every answer has led to the next. */
  ghost predicate IsPath(policy: UrlPolicy, hops: nat -> Hop, urls: seq<OriginUrl>) {
    urls != [] && forall i | 0 < i < |urls| :: LeadsTo(policy, urls[..i], hops(i - 1), urls[i])
  }

  /** The request at the end of a path decides the result. */
  ghost predicate EndsWith(policy: UrlPolicy, urls: seq<OriginUrl>, hop: Hop, r: DownloadResult)
    requires urls != []
  {
    var response := After(hop.calls);
    && r.redirectCount == |urls| - 1
    && (forall i: nat | FailsAt(hop, i) ::
          r == DownloadResult(Some(Stages(hop)[i].error), if i >= 7 then hop.status else 0, |urls| - 1, if i >= 6 then response else NO_RESPONSE))
    && (Completes(hop) ==>
          && r.status == hop.status
          && (hop.status == 200 ==> r.error == None && r.response == response)
          && (hop.status != 200 && hop.status !in {301, 302, 303, 307, 308} ==>
                r.error == Some(ResponsePolicy) && r.response == response.(error := Some(Non200Status)))
          && (hop.status in {301, 302, 303, 307, 308} ==>
                && r.response == response
                && if response.location.None? || response.location.value == "" then r.error == Some(Redirect(InvalidLocation))
                   else
                     var target := Target(policy, Canonical(urls), urls[|urls| - 1], response.location.value);
                     target.Err? && r.error == Some(Redirect(target.error))))
  }

  /** Some request of a path completes with status 200. */
  ghost predicate Succeeds(policy: UrlPolicy, hops: nat -> Hop, urls: seq<OriginUrl>) {
    IsPath(policy, hops, urls) && Completes(hops(|urls| - 1)) && hops(|urls| - 1).status == 200
  }

  /** The oracles lead from the URL to a success. */
  ghost predicate CanSucceed(policy: UrlPolicy, hops: nat -> Hop, initial: OriginUrl) {
    exists urls :: Succeeds(policy, hops, urls) && urls[0] == initial
  }

  /** The oracles lead from the URL, by at most ten redirects, to the request that decides the result. */
  ghost predicate IsDecidedByPath(policy: UrlPolicy, hops: nat -> Hop, initial: OriginUrl, r: DownloadResult) {
    exists path :: IsPath(policy, hops, path) && path[0] == initial && |path| <= 11 && EndsWith(policy, path, hops(|path| - 1), r)
  }

  /** The run has come to an answer that is a redirect, and the redirect is refused for this reason. */
  ghost predicate IsRefusedRedirect(policy: UrlPolicy, run: Run, reason: RedirectError) {
    && run.phase.Done? && run.phase.status in {301, 302, 303, 307, 308}
    && if run.phase.location.None? || run.phase.location.value == "" then reason == InvalidLocation
       else Target(policy, run.history, run.current, run.phase.location.value) == Err(reason)
  }

  /** One request passes all its stages or fails at the first it does not pass. */
  lemma StagesDecide(hop: Hop)
    ensures var r := RequestResult(hop);
            && (forall i: nat | FailsAt(hop, i) ::
                  r == DownloadResult(Some(Stages(hop)[i].error), if i >= 7 then hop.status else 0, 0, if i >= 6 then After(hop.calls) else NO_RESPONSE))
            && (Completes(hop) ==> r == DownloadResult(None, hop.status, 0, After(hop.calls)))
            && (Completes(hop) || exists i: nat :: FailsAt(hop, i))
  {
    hide After;
    var s := Stages(hop);
    if Completes(hop) {
      assert s[0].passed && s[1].passed && s[2].passed && s[3].passed && s[4].passed && s[5].passed && s[6].passed && s[7].passed && s[8].passed;
    } else {
      var i := FirstFailing(hop, 0);
      assert !s[i].passed && (i > 0 ==> s[0].passed) && (i > 1 ==> s[1].passed) && (i > 2 ==> s[2].passed) && (i > 3 ==> s[3].passed)
             && (i > 4 ==> s[4].passed) && (i > 5 ==> s[5].passed) && (i > 6 ==> s[6].passed) && (i > 7 ==> s[7].passed);
      OneFailing(hop);
    }
  }

  /** What is logged says how far the request got, and a handle that was opened is closed wherever it fails. */
  predicate IsLogged(url: string, hop: Hop, entries: seq<Entry>) {
    && (FailsAt(hop, 0) ==> entries == [])
    && (FailsAt(hop, 1) ==> entries == [Resolved(url, false)])
    && (FailsAt(hop, 2) || FailsAt(hop, 3) || FailsAt(hop, 4) ==> entries == [Resolved(url, true)])
    && ((exists i | 5 <= i < |Stages(hop)| :: FailsAt(hop, i)) ==> entries == [Resolved(url, true), Opened(url), Closed(url)])
    && (Completes(hop) ==> entries == [Resolved(url, true), Opened(url), Answered(url, hop.status, After(hop.calls).location), Closed(url)])
  }

  /** The tests of the code against the stages. */
  lemma StagesReached(hop: Hop)
    ensures FailsAt(hop, 0) <==> hop.timeLeft <= 0
    ensures hop.timeLeft > 0 ==> (FailsAt(hop, 1) <==> hop.resolutionError)
    ensures hop.timeLeft > 0 && !hop.resolutionError ==> (FailsAt(hop, 2) || FailsAt(hop, 3) || FailsAt(hop, 4) <==> hop.pinError || hop.timeLeftAfterDns <= 0 || !hop.opens)
    ensures hop.timeLeft > 0 && !hop.resolutionError && !hop.pinError && hop.timeLeftAfterDns > 0 && hop.opens ==>
              ((exists i | 5 <= i < |Stages(hop)| :: FailsAt(hop, i)) <==> RequestResult(hop).error.Some?)
    ensures Completes(hop) <==> RequestResult(hop).error.None?
    ensures Completes(hop) ==> RequestResult(hop) == DownloadResult(None, hop.status, 0, After(hop.calls))
    ensures forall i: nat, j: nat | FailsAt(hop, i) && FailsAt(hop, j) :: i == j
    ensures forall i: nat | FailsAt(hop, i) :: !Completes(hop)
  {
    StagesDecide(hop);
    OneFailing(hop);
  }

  lemma OneFailing(hop: Hop)
    ensures forall i: nat, j: nat | FailsAt(hop, i) && FailsAt(hop, j) :: i == j
    ensures forall i: nat | FailsAt(hop, i) :: !Completes(hop)
  {
    hide Stages;
  }

  lemma FirstFailing(hop: Hop, from: nat) returns (i: nat)
    requires from <= |Stages(hop)| && !Completes(hop) && forall j | 0 <= j < from :: Stages(hop)[j].passed
    ensures FailsAt(hop, i)
    decreases |Stages(hop)| - from
  {
    hide Stages;
    i := from;
    if Stages(hop)[from].passed {
      i := FirstFailing(hop, from + 1);
    }
  }

  /** The result is decided at the end of a path, which has at most eleven URLs. */
  lemma {:induction false} DownloadFollowsPath(policy: UrlPolicy, hops: nat -> Hop, urls: seq<OriginUrl>) returns (path: seq<OriginUrl>)
    requires urls != [] && IsPath(policy, hops, urls) && |urls| <= MAXIMUM_REDIRECTS + 1
    ensures path != [] && urls <= path && IsPath(policy, hops, path) && |path| <= MAXIMUM_REDIRECTS + 1
    ensures EndsWith(policy, path, hops(|path| - 1), Download(policy, hops, Canonical(urls), urls[|urls| - 1]))
    decreases MAXIMUM_REDIRECTS + 1 - |urls|
  {
    hide Target, HasScheme, Completes, Download, After, IsPath, EndsWith, Canonical, LeadsTo;
    var hop := hops(|urls| - 1);
    path := urls;
    if LeadsSomewhere(policy, urls, hop) {
      var next :| LeadsTo(policy, urls, hop, next);
      LeadsOn(policy, hops, urls, next);
      path := DownloadFollowsPath(policy, hops, urls + [next]);
    } else {
      LeadsNowhere(policy, hops, urls);
    }
  }

  lemma LeadsOn(policy: UrlPolicy, hops: nat -> Hop, urls: seq<OriginUrl>, next: OriginUrl)
    requires IsPath(policy, hops, urls) && LeadsTo(policy, urls, hops(|urls| - 1), next)
    ensures |urls| <= MAXIMUM_REDIRECTS && IsPath(policy, hops, urls + [next])
    ensures Download(policy, hops, Canonical(urls), urls[|urls| - 1]) == Download(policy, hops, Canonical(urls + [next]), next)
  {
    hide Target, HasScheme, RequestResult, Completes, Stages, Download, After;
    var hop, history, current, longer := hops(|urls| - 1), Canonical(urls), urls[|urls| - 1], urls + [next];
    DownloadStep(policy, hops, history, current);
    StagesDecide(hop);
    TooManyEnds(policy, history, current, After(hop.calls).location.value);
    assert Canonical(longer) == history + [next.canonicalUrl];
    assert longer[..|urls|] == urls;
    assert forall i | 0 < i < |urls| :: longer[..i] == urls[..i];
  }

  lemma LeadsNowhere(policy: UrlPolicy, hops: nat -> Hop, urls: seq<OriginUrl>)
    requires urls != [] && !LeadsSomewhere(policy, urls, hops(|urls| - 1))
    ensures EndsWith(policy, urls, hops(|urls| - 1), Download(policy, hops, Canonical(urls), urls[|urls| - 1]))
  {
    hide Target, HasScheme, RequestResult, FailsAt, Completes, Stages, Download, After;
    var hop, history, current := hops(|urls| - 1), Canonical(urls), urls[|urls| - 1];
    DownloadStep(policy, hops, history, current);
    StagesDecide(hop);
    if Completes(hop) && IsRedirectStatus(hop.status) && After(hop.calls).location.Some? && After(hop.calls).location.value != "" {
      var target := Target(policy, history, current, After(hop.calls).location.value);
      assert target.Ok? ==> LeadsTo(policy, urls, hop, target.value);
    }
  }

  lemma TooManyEnds(policy: UrlPolicy, history: seq<string>, current: OriginUrl, location: string)
    requires Target(policy, history, current, location).Ok?
    ensures |history| <= MAXIMUM_REDIRECTS
  {
  }

  /** The oracles lead along one path only. */
  lemma {:induction false} PathsAgree(policy: UrlPolicy, hops: nat -> Hop, a: seq<OriginUrl>, b: seq<OriginUrl>)
    requires IsPath(policy, hops, a) && IsPath(policy, hops, b) && a[0] == b[0] && |a| <= |b|
    ensures a == b[..|a|]
  {
    hide LeadsTo;
    if |a| > 1 {
      var n := |a| - 1;
      assert forall i | 0 < i < n :: a[..n][..i] == a[..i];
      PathsAgree(policy, hops, a[..n], b);
      assert LeadsTo(policy, a[..n], hops(n - 1), a[n]) && LeadsTo(policy, b[..n], hops(n - 1), b[n]);
      OneNext(policy, a[..n], hops(n - 1), a[n], b[n]);
      assert a == a[..n] + [a[n]];
    } else {
      assert a == [a[0]] == b[..1];
    }
  }

  lemma OneNext(policy: UrlPolicy, urls: seq<OriginUrl>, hop: Hop, a: OriginUrl, b: OriginUrl)
    requires urls != [] && LeadsTo(policy, urls, hop, a) && LeadsTo(policy, urls, hop, b)
    ensures a == b
  {
    hide Target, Completes, After;
  }

  /**
   A download from a valid URL succeeds exactly when the oracles lead it, in at most ten redirects, to a request that
   completes with status 200; the result is then that request's response.
   */
  lemma DownloadSucceedsExactly(policy: UrlPolicy, hops: nat -> Hop, initial: OriginUrl)
    ensures var r := Download(policy, hops, [initial.canonicalUrl], initial);
            && (r.error.None? <==> CanSucceed(policy, hops, initial))
            && (forall urls | Succeeds(policy, hops, urls) && urls[0] == initial ::
                  |urls| <= 11 && r == DownloadResult(None, 200, |urls| - 1, After(hops(|urls| - 1).calls)))
  {
    hide Target, HasScheme, Completes, Stages, Download, After, Canonical, FailsAt;
    assert Canonical([initial]) == [initial.canonicalUrl] by {
      OneCanonical(initial);
    }
    var path := DownloadFollowsPath(policy, hops, [initial]);
    var n := |path|;
    StagesDecide(hops(n - 1));
    forall urls | Succeeds(policy, hops, urls) && urls[0] == initial
      ensures urls == path
    {
      if |urls| <= n {
        PathsAgree(policy, hops, urls, path);
        if |urls| < n {
          assert false;
        }
      } else {
        PathsAgree(policy, hops, path, urls);
        assert false;
      }
    }
  }

  lemma DownloadHasPath(policy: UrlPolicy, hops: nat -> Hop, initial: OriginUrl)
    ensures IsDecidedByPath(policy, hops, initial, Download(policy, hops, [initial.canonicalUrl], initial))
  {
    hide Target, EndsWith, Download;
    OneCanonical(initial);
    var path := DownloadFollowsPath(policy, hops, [initial]);
    assert path[..1] == [initial];
  }

  lemma RunStart(policy: UrlPolicy, initial: OriginUrl)
    ensures RunOf(policy, initial, []) == Some(Run([initial.canonicalUrl], initial, Ready))
  {
  }

  lemma OneCanonical(url: OriginUrl)
    ensures Canonical([url]) == [url.canonicalUrl]
  {
  }

  // ----- the code

  class Network {
    /** What the outside does during the request after n redirects. */
    const hops: nat -> Hop
    var log: seq<Entry>

    constructor (hops: nat -> Hop)
      ensures log == [] && this.hops == hops
    {
      this.hops := hops;
      log := [];
    }

    /** `perform_origin_request` between opening the handle and its destruction. */
    method TransferOnHandle(origin: OriginUrl, hop: Hop) returns (r: DownloadResult)
      modifies this`log
      ensures r.error.None? ==>
                log == old(log) + [Answered(origin.canonicalUrl, r.status, r.response.location)]
      ensures r.error.Some? ==> log == old(log)
      ensures r == TransferResult(hop)
    {
      r := NO_RESULT;
      if !hop.configured {
        return r.(error := Some(CurlConfig));
      }
      var response := new OriginResponseAccumulator();
      Deliver(response, hop.calls);
      r := r.(response := response.State());
      var bodyLimitCompletion := hop.performCode == CURLE_WRITE_ERROR && response.error.None? && |response.body| == MAXIMUM_BODY_BYTES;
      if hop.performCode != CURLE_OK && !bodyLimitCompletion {
        return r.(error := Some(if response.error.None? then Transfer else ResponsePolicy));
      }
      if hop.infoCode != CURLE_OK {
        return r.(status := hop.status, error := Some(ResponseInfo));
      }
      r := r.(status := hop.status);
      if response.error.Some? {
        return r.(error := Some(ResponsePolicy));
      }
      log := log + [Answered(origin.canonicalUrl, r.status, r.response.location)];
    }

    /** `perform_origin_request`. */
    method PerformRequest(origin: OriginUrl, hop: Hop) returns (r: DownloadResult)
      modifies this`log
      ensures old(log) <= log && Exchange(origin.canonicalUrl, r, log[|old(log)|..])
      ensures r == RequestResult(hop)
      ensures IsLogged(origin.canonicalUrl, hop, log[|old(log)|..])
    {
      hide After, FailsAt, Completes, TransferResult, Stages;
      StagesReached(hop);
      r := NO_RESULT;
      if hop.timeLeft <= 0 {
        return r.(error := Some(Deadline));
      }
      // Resolution is the boundary: no handle is created until every address has passed the policy.
      log := log + [Resolved(origin.canonicalUrl, !hop.resolutionError)];
      if hop.resolutionError {
        return r.(error := Some(Resolution));
      }
      if hop.pinError {
        return r.(error := Some(ResolvePin));
      }
      if hop.timeLeftAfterDns <= 0 {
        return r.(error := Some(Deadline));
      }
      if !hop.opens {
        return r.(error := Some(EasyInit));
      }
      log := log + [Opened(origin.canonicalUrl)];
      r := TransferOnHandle(origin, hop);
      log := log + [Closed(origin.canonicalUrl)];
    }

    /** The loop of `download_origin`: request, and follow while it is redirected. */
    method FollowFrom(policy: UrlPolicy, initial: OriginUrl, tracker: RedirectTracker) returns (r: DownloadResult)
      requires log == []
      requires tracker.Valid() && tracker.policy == policy && tracker.current == initial && tracker.History() == [initial.canonicalUrl]
      modifies this`log, tracker, tracker.visited
      ensures r == Download(policy, hops, [initial.canonicalUrl], initial)
      ensures RunOf(policy, initial, log).Some? && AtRest(RunOf(policy, initial, log).value.phase)
      ensures r.error.None? <==> RunOf(policy, initial, log).value.phase.Done? && RunOf(policy, initial, log).value.phase.status == 200
      ensures r.error.None? ==>
                && r.status == 200 && r.response.error.None?
                && r.redirectCount == |RunOf(policy, initial, log).value.history| - 1
      ensures r.error.Some? && r.error.value.Redirect? ==> IsRefusedRedirect(policy, RunOf(policy, initial, log).value, r.error.value.reason)
    {
      hide Transition, Target, HasScheme, Exchange, RequestResult, Download, RunOf, IsLogged;
      RunStart(policy, initial);
      r := NO_RESULT;
      while true
        invariant tracker.Valid() && tracker.policy == policy
        invariant RunOf(policy, initial, log).Some?
        invariant var run := RunOf(policy, initial, log).value;
                  && (run.phase.Ready? || (run.phase.Done? && run.phase.status != 200))
                  && NextUrl(policy, run) == Some(tracker.current)
                  && tracker.History() == HistoryWith(run, tracker.current.canonicalUrl)
        invariant Download(policy, hops, tracker.History(), tracker.current) == Download(policy, hops, [initial.canonicalUrl], initial)
        decreases MAXIMUM_REDIRECTS - tracker.redirectCount
      {
        ghost var before := log;
        RequestErrors(hops(tracker.redirectCount));
        DownloadStep(policy, hops, tracker.History(), tracker.current);
        r := PerformRequest(tracker.current, hops(tracker.redirectCount));
        ghost var entries := log[|before|..];
        assert log == before + entries;
        ExchangeIsAllowed(policy, initial, before, tracker.current, r, entries);
        r := r.(redirectCount := tracker.redirectCount);
        if r.error.Some? {
          return;
        }
        if r.status == 200 {
          if r.response.error.Some? {
            assert false;
          }
          return;
        }
        if !IsRedirectStatus(r.status) {
          return r.(error := Some(ResponsePolicy), response := r.response.(error := Some(Non200Status)));
        }
        var location := r.response.location;
        if location.None? || location.value == "" {
          return r.(error := Some(Redirect(InvalidLocation)));
        }
        var redirected := tracker.Follow(location.value);
        if redirected.Err? {
          return r.(error := Some(Redirect(redirected.error)));
        }
      }
    }

    /**
     `download_origin`. Whatever the oracles answer, they decide the result; the log is a run of the protocol with no
     handle left open, and the download succeeds exactly when the run ends with the answer 200.
     */
    method DownloadOrigin(policy: UrlPolicy, initial: OriginUrl, apisValid: bool) returns (r: DownloadResult)
      requires log == []
      modifies this`log
      ensures !apisValid ==> r == NO_RESULT.(error := Some(InvalidArgument)) && log == []
      ensures apisValid && policy.validate(initial.canonicalUrl) != Ok(initial) ==> r == NO_RESULT.(error := Some(Resolution)) && log == []
      // From the oracles alone: where they lead, and whether that ends in success.
      ensures apisValid && policy.validate(initial.canonicalUrl) == Ok(initial) ==> IsDecidedByPath(policy, hops, initial, r)
      ensures r.error.None? <==>
                && apisValid && policy.validate(initial.canonicalUrl) == Ok(initial)
                && CanSucceed(policy, hops, initial)
      // And from the log, which is a run of the protocol.
      ensures RunOf(policy, initial, log).Some? && AtRest(RunOf(policy, initial, log).value.phase)
      ensures r.error.None? <==> RunOf(policy, initial, log).value.phase.Done? && RunOf(policy, initial, log).value.phase.status == 200
      ensures r.error.None? ==>
                && r.status == 200 && r.response.error.None?
                && r.redirectCount == |RunOf(policy, initial, log).value.history| - 1
      ensures r.error.Some? && r.error.value.Redirect? ==> IsRefusedRedirect(policy, RunOf(policy, initial, log).value, r.error.value.reason)
    {
      hide Download, IsDecidedByPath, CanSucceed, RunOf, IsRefusedRedirect;
      RunStart(policy, initial);
      r := NO_RESULT;
      if !apisValid {
        return r.(error := Some(InvalidArgument));
      }
      DownloadHasPath(policy, hops, initial);
      DownloadSucceedsExactly(policy, hops, initial);
      var tracker := CreateTracker(policy, initial);
      if tracker == null {
        return r.(error := Some(Resolution));
      }
      r := FollowFrom(policy, initial, tracker);
    }
  }
}
