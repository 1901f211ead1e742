/** The freshness check (`check_recent_archive_exists`): from the decoded
    availability response, pick the snapshot with the greatest timestamp
    string and accept only if it is newer than the threshold, available, and
    recorded with status "200". Success means "a recent archive exists, do
    not archive again"; every failure lets archiving go ahead. */
module Freshness {
  import opened Wrappers
  import opened Text
  import opened Timestamps
  import opened Errors
  import opened UrlValidation

  /** One entry of `archived_snapshots`. */
  datatype Snapshot = Snapshot(status: string, available: bool, timestamp: string)

  type Snapshots = map<string, Snapshot>

  /** What the availability request produced: a transport failure, a body
      that does not decode, or the decoded `archived_snapshots` field. */
  datatype CheckResponse =
    | CheckTransportFailed(reason: string)
    | CheckBodyInvalid(reason: string)
    | CheckBody(archivedSnapshots: Option<Snapshots>)

  /** `order` lists the keys of `m`, as the map's iterator visits them. */
  ghost predicate Enumerates(order: seq<string>, m: Snapshots) {
    forall k :: k in order <==> k in m
  }

  /** The response's map, when there is one, is visited in `order`. */
  ghost predicate VisitedIn(response: CheckResponse, order: seq<string>) {
    response.CheckBody? && response.archivedSnapshots.Some? ==>
      Enumerates(order, response.archivedSnapshots.value)
  }

  /** `m[k]` has a timestamp no string-greater timestamp in `keys` beats. */
  ghost predicate MaximalAmong(m: Snapshots, k: string, keys: seq<string>)
    requires k in m && forall j :: j in keys ==> j in m
  {
    forall j :: j in keys ==> !LexLess(m[k].timestamp, m[j].timestamp)
  }

  /** `iter().max_by_key(|(_, s)| &s.timestamp)` over the entries visited in
      `order`: on equal timestamps the later entry wins. */
  function MaxByTimestamp(m: Snapshots, order: seq<string>): (r: Option<string>)
    requires forall k :: k in order ==> k in m
    ensures r.None? <==> |order| == 0
    ensures r.Some? ==> r.value in order && MaximalAmong(m, r.value, order)
  {
    if |order| == 0 then None
    else
      var last := order[|order| - 1];
      var init := order[..|order| - 1];
      assert forall j :: j in order ==> j in init || j == last;
      match MaxByTimestamp(m, init)
      case None => LexIrreflexive(m[last].timestamp); Some(last)
      case Some(best) =>
        if LexLess(m[last].timestamp, m[best].timestamp) then
          LexAsymmetric(m[last].timestamp, m[best].timestamp);
          Some(best)
        else
          assert MaximalAmong(m, last, order) by {
            forall j | j in order
              ensures !LexLess(m[last].timestamp, m[j].timestamp)
            {
              if j == last {
                LexIrreflexive(m[last].timestamp);
              } else if m[last].timestamp != m[best].timestamp {
                LexTotal(m[last].timestamp, m[best].timestamp);
                if LexLess(m[last].timestamp, m[j].timestamp) {
                  LexTransitive(m[best].timestamp, m[last].timestamp, m[j].timestamp);
                }
              }
            }
          }
          Some(last)
  }

  /** When every timestamp in the map is well formed, the snapshot picked by
      string comparison is a chronologically latest one. */
  lemma ChosenIsLatest(m: Snapshots, order: seq<string>, k: string)
    requires Enumerates(order, m)
    requires forall j :: j in m ==> WellFormedTimestamp(m[j].timestamp)
    requires MaxByTimestamp(m, order) == Some(k)
    ensures k in m
    ensures forall j :: j in m ==>
      !Before(ParseTimestamp(m[k].timestamp).value, ParseTimestamp(m[j].timestamp).value)
  {
    forall j | j in m
      ensures !Before(ParseTimestamp(m[k].timestamp).value, ParseTimestamp(m[j].timestamp).value)
    {
      LexIsChronological(m[k].timestamp, m[j].timestamp);
    }
  }

  /** The chosen snapshot counts as a recent archive. */
  predicate Recent(s: Snapshot, threshold: DateTime) {
    && ParseTimestamp(s.timestamp).Ok?
    && Before(threshold, ParseTimestamp(s.timestamp).value)
    && s.available
    && s.status == "200"
  }

  /** The snapshot the check decides on, when the response holds one. */
  function Chosen(response: CheckResponse, order: seq<string>): (r: Option<Snapshot>)
    requires VisitedIn(response, order)
    ensures r.Some? ==> response.CheckBody? && response.archivedSnapshots.Some?
    ensures r.Some? ==> var m := response.archivedSnapshots.value;
      exists k :: k in m && m[k] == r.value && MaximalAmong(m, k, order)
    ensures r.None? && response.CheckBody? && response.archivedSnapshots.Some? ==>
      response.archivedSnapshots.value == map[]
  {
    match response
    case CheckBody(Some(m)) =>
      (match MaxByTimestamp(m, order)
       case None =>
         assert forall k :: k !in m;
         None
       case Some(k) => Some(m[k]))
    case _ => None
  }

  /** The request target of the check: check endpoint followed by the
      validated URL's text. */
  function CheckTarget(checkEndpoint: string, url: ArchivableUrl): string {
    checkEndpoint + AsStr(url)
  }

  /** `check_recent_archive_exists(raw)`: re-validates `raw`, then judges the
      response. `Ok(())` means a recent archive exists. */
  function CheckRecentArchiveExists(threshold: DateTime, parse: string -> Option<ParsedUrl>,
                                    raw: string, response: CheckResponse,
                                    order: seq<string>): (r: Result<(), Error>)
    requires VisitedIn(response, order)
    ensures Parse(parse, raw).Err? ==> r == Err(Parse(parse, raw).error)
    ensures r.Ok? <==>
      Parse(parse, raw).Ok? && Chosen(response, order).Some?
      && Recent(Chosen(response, order).value, threshold)
    ensures Parse(parse, raw).Ok? && (response.CheckTransportFailed? || response.CheckBodyInvalid?)
      ==> r == Err(CannotCheckArchive(response.reason))
    ensures Parse(parse, raw).Ok? && Chosen(response, order).Some?
      && ParseTimestamp(Chosen(response, order).value.timestamp).Err?
      ==> r == Err(FromParseError(ParseTimestamp(Chosen(response, order).value.timestamp).error))
    ensures Parse(parse, raw).Ok? && Chosen(response, order).Some?
      && ParseTimestamp(Chosen(response, order).value.timestamp).Ok?
      && !Recent(Chosen(response, order).value, threshold)
      ==> r == Err(NoRecentArchive(raw))
    ensures Parse(parse, raw).Ok? && response.CheckBody? && r.Err? && !r.error.CannotCheckArchive?
      ==> r == Err(NoRecentArchive(raw))
    ensures Parse(parse, raw).Ok? && response.CheckBody? && Chosen(response, order).None?
      ==> r == Err(NoRecentArchive(raw))
  {
    match Parse(parse, raw)
    case Err(e) => Err(e)
    case Ok(_) =>
      match response
      case CheckTransportFailed(reason) => Err(CannotCheckArchive(reason))
      case CheckBodyInvalid(reason) => Err(CannotCheckArchive(reason))
      case CheckBody(_) =>
        match Chosen(response, order)
        case None => Err(NoRecentArchive(raw))
        case Some(snapshot) =>
          match ParseTimestamp(snapshot.timestamp)
          case Err(pe) => Err(FromParseError(pe))
          case Ok(when) =>
            if Before(threshold, when) && snapshot.available && snapshot.status == "200"
            then Ok(())
            else Err(NoRecentArchive(raw))
  }
}
