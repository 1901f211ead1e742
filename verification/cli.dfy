/** The command-line batch (`main`): every distinct link of the document,
    visited in the set's iteration order, is either skipped by an exclude
    pattern or archived, and the per-link outcomes fold into the process
    exit code. Regular expressions are not modelled: `isMatch` says whether a
    pattern matches a URL. The archiving call for each URL enters as an
    outcome function `archive`. */
module Cli {
  import opened Errors
  import opened Client
  import opened PdfLinks

  /** `regex_patterns.iter().any(|regex| regex.is_match(url))`. */
  function AnyMatch(patterns: seq<string>, isMatch: (string, string) -> bool, url: string): (b: bool)
    ensures b <==> exists i :: 0 <= i < |patterns| && isMatch(patterns[i], url)
  {
    if |patterns| == 0 then false
    else if isMatch(patterns[0], url) then true
    else
      assert forall i :: 1 <= i < |patterns| ==> patterns[i] == patterns[1..][i - 1];
      AnyMatch(patterns[1..], isMatch, url)
  }

  /** Outcomes that leave the exit code as it was: archived, a recent archive
      already present, or a URL on the exclusion list. */
  predicate Benign(outcome: ArchiveOutcome) {
    outcome.Archived? || outcome.RecentArchiveExists?
    || (outcome.Failed? && outcome.error.ExcludedUrl?)
  }

  /** The exit code after one more outcome. */
  function NextExitCode(code: int, outcome: ArchiveOutcome): (next: int)
    ensures Benign(outcome) ==> next == code
    ensures !Benign(outcome) ==> next == 1
  {
    match outcome
    case Archived => code
    case RecentArchiveExists => code
    case Failed(ExcludedUrl(_)) => code
    case Failed(_) => 1
  }

  predicate Distinct(s: seq<string>) {
    forall i, j :: 0 <= i < j < |s| ==> s[i] != s[j]
  }

  /** The loop of `main` over `urls`: links matching an exclude pattern are
      skipped and never archived; every other link is archived once, and the
      exit code, starting at 0, becomes 1 at the first outcome that is not
      benign and stays 1. */
  method ArchiveAll(urls: seq<string>, patterns: seq<string>, isMatch: (string, string) -> bool,
                    archive: string -> ArchiveOutcome)
    returns (exitCode: int, processed: seq<string>)
    requires Distinct(urls)
    ensures forall u :: u in processed <==> u in urls && !AnyMatch(patterns, isMatch, u)
    ensures Distinct(processed)
    ensures exitCode == 0 || exitCode == 1
    ensures exitCode == 0 <==> forall i :: 0 <= i < |processed| ==> Benign(archive(processed[i]))
  {
    exitCode := 0;
    processed := [];
    var n := 0;
    while n < |urls|
      invariant 0 <= n <= |urls|
      invariant forall u :: u in processed <==> u in urls[..n] && !AnyMatch(patterns, isMatch, u)
      invariant Distinct(processed)
      invariant exitCode == 0 || exitCode == 1
      invariant exitCode == 0 <==> forall i :: 0 <= i < |processed| ==> Benign(archive(processed[i]))
    {
      var url := urls[n];
      assert url !in urls[..n];
      assert urls[..n + 1] == urls[..n] + [url];
      if AnyMatch(patterns, isMatch, url) {
        n := n + 1;
        continue;
      }
      exitCode := NextExitCode(exitCode, archive(url));
      ghost var before := processed;
      processed := processed + [url];
      assert forall i :: 0 <= i < |before| ==> processed[i] == before[i];
      assert processed[|before|] == url;
      assert (forall i :: 0 <= i < |processed| ==> Benign(archive(processed[i]))) <==>
        (forall i :: 0 <= i < |before| ==> Benign(archive(before[i]))) && Benign(archive(url));
      n := n + 1;
    }
    assert urls[..n] == urls;
  }

  /** `main` after loading: extract the document's links, then archive them in
      `order`, the iteration order of the link set. Each distinct link is
      archived at most once. */
  method ArchivePdfLinks(doc: Document, order: seq<string>, patterns: seq<string>,
                         isMatch: (string, string) -> bool, archive: string -> ArchiveOutcome)
    returns (exitCode: int, processed: seq<string>)
    requires Distinct(order) && forall u :: u in order <==> u in LinkSet(doc)
    ensures Distinct(processed)
    ensures forall u :: u in processed <==>
      (exists p, j :: LinkAt(doc, p, j, u)) && !AnyMatch(patterns, isMatch, u)
    ensures exitCode == 0 <==> forall i :: 0 <= i < |processed| ==> Benign(archive(processed[i]))
  {
    var links := ExtractLinks(doc);
    assert forall u :: u in order <==> u in links;
    exitCode, processed := ArchiveAll(order, patterns, isMatch, archive);
  }
}
