/** The concrete cases the repository's own tests pin down, stated over the
    model. Each fixes what the URL parser returns for the test's input and
    what the mocked endpoints answer. */
module Scenarios {
  import opened Wrappers
  import opened Text
  import opened Timestamps
  import opened Errors
  import opened IpAddress
  import opened UrlValidation
  import opened Freshness
  import opened Retry
  import opened Client

  /** A pattern with a character the text lacks does not occur in it. */
  lemma Absent(p: string, s: string, j: nat)
    requires j < |p| && p[j] !in s
    ensures !Occurs(p, s)
  {
    if Occurs(p, s) {
      OccursCharacters(p, s, p[j]);
    }
  }

  /** Excluded domain `k` has a letter "example.com" lacks. */
  lemma NotExampleCom(k: nat)
    requires k < |ExcludedDomains|
    ensures !Occurs(ExcludedDomains[k], "example.com")
  {
    var j := if k == 2 then 2 else if k == 3 then 0 else if k == 4 then 3 else 1;
    Absent(ExcludedDomains[k], "example.com", j);
  }

  /** "example.com" contains neither "localhost" nor any excluded domain. */
  lemma ExampleComIsClean()
    ensures !Occurs(LocalhostMarker, "example.com")
    ensures forall k :: 0 <= k < |ExcludedDomains| ==> !Occurs(ExcludedDomains[k], "example.com")
  {
    Absent(LocalhostMarker, "example.com", 5);
    forall k | 0 <= k < |ExcludedDomains|
      ensures !Occurs(ExcludedDomains[k], "example.com")
    {
      NotExampleCom(k);
    }
  }

  /** The parsed form of `scheme`://example.com/. */
  function ExampleUrl(scheme: string, text: string): ParsedUrl {
    ParsedUrl(scheme, Some(Domain("example.com")), text)
  }

  /** http://example.com/ and https://example.com/ are archivable, and are
      written back exactly as given. */
  lemma ExampleComAccepted(parse: string -> Option<ParsedUrl>, raw: string, scheme: string)
    requires scheme == "http" || scheme == "https"
    requires parse(raw) == Some(ExampleUrl(scheme, raw))
    ensures Parse(parse, raw).Ok? && AsStr(Parse(parse, raw).value) == raw
  {
    ExampleComIsClean();
  }

  /** ftp://example.com/ passes every host check and fails on the scheme. */
  lemma FtpIsInvalid(parse: string -> Option<ParsedUrl>, raw: string)
    requires parse(raw) == Some(ExampleUrl("ftp", raw))
    ensures Parse(parse, raw) == Err(InvalidUrl(raw))
  {
    ExampleComIsClean();
  }

  /** Private and unspecified IPv4 hosts such as 192.168.1.1 and 0.0.0.0 are
      invalid, whatever the scheme. */
  lemma PrivateAndUnspecifiedHostsInvalid(scheme: string, text: string)
    ensures Validate(ParsedUrl(scheme, Some(V4(Ipv4(192, 168, 1, 1))), text)) == Err(InvalidUrl(text))
    ensures Validate(ParsedUrl(scheme, Some(V4(Ipv4(0, 0, 0, 0))), text)) == Err(InvalidUrl(text))
  {
  }

  /** The snapshot the tests serve, keyed "closest". */
  function OneSnapshot(timestamp: string): CheckResponse {
    CheckBody(Some(map["closest" := Snapshot("200", true, timestamp)]))
  }

  /** The one snapshot is the one judged. */
  lemma OneSnapshotChosen(timestamp: string)
    ensures VisitedIn(OneSnapshot(timestamp), ["closest"])
    ensures Chosen(OneSnapshot(timestamp), ["closest"]) == Some(Snapshot("200", true, timestamp))
  {
    var m := map["closest" := Snapshot("200", true, timestamp)];
    assert forall k :: k in ["closest"] <==> k in m;
  }

  /** https://example.com/ as the tests use it is accepted. */
  lemma ExampleHttpsAccepted(parse: string -> Option<ParsedUrl>, raw: string)
    requires parse(raw) == Some(ExampleUrl("https", raw))
    ensures Parse(parse, raw) == Ok(ArchivableUrl(ExampleUrl("https", raw)))
  {
    ExampleComIsClean();
  }

  const TestTimestamp: string := "20230227054528"

  /** The year column of the tests' timestamp. */
  lemma YearColumn()
    ensures Digits(2023, 4) == "2023"
  {
    assert Digits(2, 1) == "2";
    assert Digits(20, 2) == "20";
    assert Digits(202, 3) == "202";
  }

  /** The two-digit columns of the tests' timestamp. */
  lemma TwoDigitColumns()
    ensures Digits(2, 2) == "02" && Digits(27, 2) == "27" && Digits(5, 2) == "05"
    ensures Digits(45, 2) == "45" && Digits(28, 2) == "28"
  {
    assert Digits(0, 1) == "0" && Digits(2, 1) == "2" && Digits(4, 1) == "4";
  }

  lemma ConcatLiteral()
    ensures "2023" + ("02" + ("27" + ("05" + ("45" + "28")))) == TestTimestamp
  {
  }

  /** The tests' timestamp is the rendering of 2023-02-27 05:45:28. */
  lemma TestTimestampRendering()
    ensures Format(DateTime(2023, 2, 27, 5, 45, 28, 0)) == TestTimestamp
  {
    var t := DateTime(2023, 2, 27, 5, 45, 28, 0);
    var y, mo, d := Digits(2023, 4), Digits(2, 2), Digits(27, 2);
    var h, mi, se := Digits(5, 2), Digits(45, 2), Digits(28, 2);
    assert Format(t) == y + (mo + (d + (h + (mi + se))));
    YearColumn();
    TwoDigitColumns();
    ConcatLiteral();
  }

  lemma TestTimestampParses()
    ensures ParseTimestamp(TestTimestamp) == Ok(DateTime(2023, 2, 27, 5, 45, 28, 0))
  {
    TestTimestampRendering();
    ParseFormat(DateTime(2023, 2, 27, 5, 45, 28, 0));
  }

  /** "example.com" without a scheme is not an absolute URL: the call fails
      with the input unchanged and issues no request. */
  lemma NoSchemeIsInvalid(config: ClientConfig, parse: string -> Option<ParsedUrl>,
                          check: CheckResponse, order: seq<string>, submit: Attempt)
    requires VisitedIn(check, order)
    requires parse("example.com") == None
    ensures ArchiveUrl(config, parse, "example.com", check, order, submit)
            == Run(Failed(InvalidUrl("example.com")), [])
  {
  }

  /** http://localhost/page is invalid and issues no request. */
  lemma LocalUrlIsInvalid(config: ClientConfig, parse: string -> Option<ParsedUrl>,
                          check: CheckResponse, order: seq<string>, submit: Attempt)
    requires VisitedIn(check, order)
    requires parse("http://localhost/page")
             == Some(ParsedUrl("http", Some(Domain("localhost")), "http://localhost/page"))
    ensures ArchiveUrl(config, parse, "http://localhost/page", check, order, submit)
            == Run(Failed(InvalidUrl("http://localhost/page")), [])
  {
    assert OccursAt(LocalhostMarker, "localhost", 0);
  }

  /** The tests' snapshot, when not newer than the threshold, is no recent
      archive: the check fails and archiving goes ahead. */
  lemma StaleSnapshotIsNotRecent(config: ClientConfig, parse: string -> Option<ParsedUrl>, raw: string)
    requires parse(raw) == Some(ExampleUrl("https", raw))
    requires !Before(config.archiveThreshold, DateTime(2023, 2, 27, 5, 45, 28, 0))
    ensures Parse(parse, raw).Ok?
    ensures CheckRecentArchiveExists(config.archiveThreshold, parse, raw,
                                     OneSnapshot(TestTimestamp), ["closest"])
            == Err(NoRecentArchive(raw))
  {
    ExampleHttpsAccepted(parse, raw);
    OneSnapshotChosen(TestTimestamp);
    TestTimestampParses();
    assert !Recent(Snapshot("200", true, TestTimestamp), config.archiveThreshold);
  }

  /** A snapshot older than the threshold does not stop archiving: the
      check and the submission are both requested, and a 2xx answer means
      the page was archived. */
  lemma StaleSnapshotIsArchived(config: ClientConfig, parse: string -> Option<ParsedUrl>,
                                raw: string, code: StatusCode, rendered: string)
    requires parse(raw) == Some(ExampleUrl("https", raw))
    requires !Before(config.archiveThreshold, DateTime(2023, 2, 27, 5, 45, 28, 0))
    requires IsSuccess(code)
    ensures ArchiveUrl(config, parse, raw, OneSnapshot(TestTimestamp), ["closest"],
                       Delivered(code, rendered))
            == Run(Archived, [CheckRequest(config.checkEndpoint + raw),
                              SubmitRequest(config.archiveEndpoint + raw)])
  {
    StaleSnapshotIsNotRecent(config, parse, raw);
  }

  /** A submission endpoint that answers 520 to every attempt is asked
      `maxRequestRetries + 1` times, and the call fails with the rendered
      status and the input URL. */
  lemma PersistentServerErrorFails(config: ClientConfig, parse: string -> Option<ParsedUrl>,
                                   raw: string, attempts: seq<Attempt>, rendered: string)
    requires parse(raw) == Some(ExampleUrl("https", raw))
    requires !Before(config.archiveThreshold, DateTime(2023, 2, 27, 5, 45, 28, 0))
    requires |attempts| > config.maxRequestRetries
    requires forall i :: 0 <= i < |attempts| ==> attempts[i] == Delivered(520, rendered)
    ensures SendWithRetries(attempts, config.maxRequestRetries).1 == config.maxRequestRetries + 1
    ensures ArchiveUrl(config, parse, raw, OneSnapshot(TestTimestamp), ["closest"],
                       SendWithRetries(attempts, config.maxRequestRetries).0).outcome
            == Failed(CannotArchive(rendered, raw))
  {
    PersistentFailureExhaustsRetries(attempts, config.maxRequestRetries);
    assert SendWithRetries(attempts, config.maxRequestRetries).0 == Delivered(520, rendered);
    StaleSnapshotIsRejected(config, parse, raw, 520, rendered);
  }

  /** With that stale snapshot, a submission answered by a status outside
      2xx fails with the status text and the input URL. */
  lemma StaleSnapshotIsRejected(config: ClientConfig, parse: string -> Option<ParsedUrl>,
                                raw: string, code: StatusCode, rendered: string)
    requires parse(raw) == Some(ExampleUrl("https", raw))
    requires !Before(config.archiveThreshold, DateTime(2023, 2, 27, 5, 45, 28, 0))
    requires !IsSuccess(code)
    ensures ArchiveUrl(config, parse, raw, OneSnapshot(TestTimestamp), ["closest"],
                       Delivered(code, rendered)).outcome
            == Failed(CannotArchive(rendered, raw))
  {
    StaleSnapshotIsNotRecent(config, parse, raw);
  }

  /** A snapshot newer than the threshold means a recent archive exists: the
      call reports it after the check alone, and calling again changes
      nothing, so the submission endpoint is never asked. */
  lemma RecentSnapshotSkipsSubmission(config: ClientConfig, parse: string -> Option<ParsedUrl>,
                                      raw: string, when: DateTime, submit: Attempt)
    requires parse(raw) == Some(ExampleUrl("https", raw))
    requires ValidDateTime(when) && FitsLayout(when) && Before(config.archiveThreshold, when)
    ensures ArchiveUrl(config, parse, raw, OneSnapshot(Format(when)), ["closest"], submit)
            == Run(RecentArchiveExists, [CheckRequest(config.checkEndpoint + raw)])
  {
    ExampleHttpsAccepted(parse, raw);
    OneSnapshotChosen(Format(when));
    ParseFormat(when);
    assert Recent(Snapshot("200", true, Format(when)), config.archiveThreshold);
  }
}
