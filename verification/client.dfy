/** The client's configuration and the archiving pipeline (`archive_url`):
    validate, check for a recent archive, return early if one exists,
    otherwise submit and classify the status. The two HTTP exchanges enter as
    their outcomes: the decoded availability response and the final attempt
    of the submission after the retry policy. */
module Client {
  import opened Wrappers
  import opened Timestamps
  import opened Errors
  import opened UrlValidation
  import opened Freshness
  import opened Retry

  const DefaultMaxRequestRetries: nat := 5
  const DefaultUserAgent: string :=
    "Mozilla/5.0 (X11; Fedora; Linux x86_64; rv:40.0) Gecko/20100101 Firefox/40.0"
  const WaybackArchiveEndpoint: string := "https://web.archive.org/save/"
  const WaybackCheckEndpoint: string := "https://archive.org/wayback/available?url="

  /** `ClientConfig`. The threshold is the instant a snapshot must be newer
      than; it is fixed when the configuration is built and never refreshed. */
  datatype ClientConfig = ClientConfig(
    archiveEndpoint: string,
    checkEndpoint: string,
    maxRequestRetries: nat,
    archiveThreshold: DateTime,
    userAgent: string)

  /** `ClientConfig::new`: endpoints are stored in their parsed, serialised
      form; the source panics on an endpoint that does not parse, which here
      is a precondition. `threshold` is the construction-time instant less
      the threshold in days. */
  function NewConfig(parse: string -> Option<ParsedUrl>, archiveEndpoint: string,
                     checkEndpoint: string, maxRequestRetries: nat, threshold: DateTime,
                     userAgent: string): (c: ClientConfig)
    requires parse(archiveEndpoint).Some? && parse(checkEndpoint).Some?
    ensures c.archiveEndpoint == parse(archiveEndpoint).value.text
    ensures c.checkEndpoint == parse(checkEndpoint).value.text
    ensures c.archiveThreshold == threshold && c.maxRequestRetries == maxRequestRetries
  {
    ClientConfig(parse(archiveEndpoint).value.text, parse(checkEndpoint).value.text,
                 maxRequestRetries, threshold, userAgent)
  }

  /** `ClientConfig::default`: the Wayback Machine endpoints, five retries and
      the default user agent; `threshold` is now less the default of 30
      days. */
  function DefaultConfig(threshold: DateTime): (c: ClientConfig)
    ensures c.archiveEndpoint == WaybackArchiveEndpoint && c.checkEndpoint == WaybackCheckEndpoint
    ensures c.maxRequestRetries == DefaultMaxRequestRetries && c.archiveThreshold == threshold
  {
    ClientConfig(WaybackArchiveEndpoint, WaybackCheckEndpoint, DefaultMaxRequestRetries,
                 threshold, DefaultUserAgent)
  }

  /** The three outcomes of an archiving call. */
  datatype ArchiveOutcome = Archived | RecentArchiveExists | Failed(error: Error)

  /** A request the pipeline issues, by target URL. */
  datatype Request = CheckRequest(target: string) | SubmitRequest(target: string)

  /** An archiving call: its outcome and the requests it issued, in order. */
  datatype Run = Run(outcome: ArchiveOutcome, requests: seq<Request>)

  predicate Submits(run: Run) {
    exists i :: 0 <= i < |run.requests| && run.requests[i].SubmitRequest?
  }

  /** `archive_url(raw)`. `check` and `order` describe the availability
      response and the order its map is visited in; `submit` is the
      submission's outcome once the retry policy is done with it. */
  function ArchiveUrl(config: ClientConfig, parse: string -> Option<ParsedUrl>, raw: string,
                      check: CheckResponse, order: seq<string>, submit: Attempt): (run: Run)
    requires VisitedIn(check, order)
    ensures Parse(parse, raw).Err? ==> run == Run(Failed(Parse(parse, raw).error), [])
    ensures Parse(parse, raw).Ok? ==>
      |run.requests| >= 1
      && run.requests[0] == CheckRequest(config.checkEndpoint + parse(raw).value.text)
    ensures run.outcome == RecentArchiveExists <==>
      CheckRecentArchiveExists(config.archiveThreshold, parse, raw, check, order).Ok?
    ensures run.outcome == RecentArchiveExists ==> !Submits(run) && |run.requests| == 1
    ensures Submits(run) <==>
      Parse(parse, raw).Ok? && CheckRecentArchiveExists(config.archiveThreshold, parse, raw, check, order).Err?
    ensures Submits(run) ==>
      run.requests == [CheckRequest(config.checkEndpoint + parse(raw).value.text),
                       SubmitRequest(config.archiveEndpoint + parse(raw).value.text)]
    ensures run.outcome == Archived <==> Submits(run) && submit.Delivered? && IsSuccess(submit.code)
    ensures Submits(run) && submit.Delivered? && !IsSuccess(submit.code) ==>
      run.outcome == Failed(CannotArchive(submit.rendered, raw))
    ensures Submits(run) && submit.Undelivered? ==>
      run.outcome == Failed(RequestFailed(submit.error.message))
  {
    match Parse(parse, raw)
    case Err(e) => Run(Failed(e), [])
    case Ok(toArchive) =>
      var checked := CheckRecentArchiveExists(config.archiveThreshold, parse, raw, check, order);
      var checkRequest := CheckRequest(CheckTarget(config.checkEndpoint, toArchive));
      if checked.Ok? then
        Run(RecentArchiveExists, [checkRequest])
      else
        var requests := [checkRequest, SubmitRequest(config.archiveEndpoint + AsStr(toArchive))];
        assert requests[1].SubmitRequest?;
        match submit
        case Undelivered(error, _) => Run(Failed(FromHttpError(error)), requests)
        case Delivered(code, rendered) =>
          if IsSuccess(code) then Run(Archived, requests)
          else Run(Failed(CannotArchive(rendered, raw)), requests)
  }

  /** A client built by `ClientConfig::new` sends every check to its check
      endpoint, in serialised form, followed by the validated URL, and every
      submission likewise to its archive endpoint. Every call judges freshness
      against the threshold given at construction, whatever URL it is for. */
  lemma ConfiguredTargets(parse: string -> Option<ParsedUrl>, archiveEndpoint: string,
                          checkEndpoint: string, maxRequestRetries: nat, threshold: DateTime,
                          userAgent: string, raw: string, check: CheckResponse,
                          order: seq<string>, submit: Attempt)
    requires parse(archiveEndpoint).Some? && parse(checkEndpoint).Some?
    requires VisitedIn(check, order)
    requires Parse(parse, raw).Ok?
    ensures var run := ArchiveUrl(NewConfig(parse, archiveEndpoint, checkEndpoint, maxRequestRetries,
                                            threshold, userAgent), parse, raw, check, order, submit);
      && run.requests[0] == CheckRequest(parse(checkEndpoint).value.text + parse(raw).value.text)
      && (Submits(run) ==>
            run.requests[1] == SubmitRequest(parse(archiveEndpoint).value.text + parse(raw).value.text))
      && (run.outcome == RecentArchiveExists <==>
            CheckRecentArchiveExists(threshold, parse, raw, check, order).Ok?)
  {
  }

  /** A default client asks the Wayback Machine: checks go to its
      availability API and submissions to its save endpoint. */
  lemma DefaultTargets(threshold: DateTime, parse: string -> Option<ParsedUrl>, raw: string,
                       check: CheckResponse, order: seq<string>, submit: Attempt)
    requires VisitedIn(check, order)
    requires Parse(parse, raw).Ok?
    ensures var run := ArchiveUrl(DefaultConfig(threshold), parse, raw, check, order, submit);
      && run.requests[0] == CheckRequest("https://archive.org/wayback/available?url=" + parse(raw).value.text)
      && (Submits(run) ==>
            run.requests[1] == SubmitRequest("https://web.archive.org/save/" + parse(raw).value.text))
      && (run.outcome == RecentArchiveExists <==>
            CheckRecentArchiveExists(threshold, parse, raw, check, order).Ok?)
  {
  }
}
