/** The driver of gmail-scraper.py: one fetch per page, the per-page address
    sets merged into one accumulator (`scrape_emails`), the sorted result
    (`run_scraper`), and the empty-URL guard of `main`. The fan-out of page tasks
    under a semaphore is modelled as a sequential loop over the pages; lemma
    CompletionOrderIrrelevant shows that the order in which page tasks finish
    does not change the result. */
module Scraper {
  import opened EmailPattern
  import opened Extractor
  import opened Requests
  import opened Ordering

  /** What one GET produces: the page's visible text, or an `aiohttp.ClientError`
      (a transport failure, or a non-success status from `raise_for_status`). */
  datatype FetchOutcome = Body(text: string) | ClientError(description: string)

  /** What `main` reports: the input error, "no emails found", or the sorted addresses. */
  datatype Report = InputError | NoEmailsFound | Found(emails: seq<string>)

  /** `fetch_emails_from_page` once the response is in: the addresses of the
      page's text, or the empty set when the fetch failed. */
  function PageEmails(outcome: FetchOutcome): set<string>
  {
    match outcome
    case Body(text) => Extract(text)
    case ClientError(_) => {}
  }

  /** Everything a page yields is an address taken from a page that was fetched. */
  lemma PageEmailsAreAddresses(outcome: FetchOutcome, e: string)
    ensures e in PageEmails(outcome) ==> outcome.Body? && IsAddress(e)
  {
    if outcome.Body? { ExtractSound(outcome.text, e); }
  }

  // ---------------------------------------------------------------------------
  // The accumulator
  // ---------------------------------------------------------------------------

  /** `all_emails.update(emails)`. */
  function Merge(acc: set<string>, emails: set<string>): set<string>
  {
    acc + emails
  }

  /** Merging a set twice is merging it once. */
  lemma MergeIdempotent(acc: set<string>, emails: set<string>)
    ensures Merge(Merge(acc, emails), emails) == Merge(acc, emails)
  {
  }

  /** The accumulator after merging each set of `sets` in turn, starting from `acc`. */
  function MergeAll(acc: set<string>, sets: seq<set<string>>): set<string>
    decreases |sets|
  {
    if sets == [] then acc else Merge(MergeAll(acc, sets[..|sets| - 1]), sets[|sets| - 1])
  }

  /** The accumulator holds exactly what it started with and what some merged set held. */
  lemma {:induction false} MergeAllMembers(acc: set<string>, sets: seq<set<string>>, x: string)
    ensures x in MergeAll(acc, sets) <==> x in acc || exists k :: 0 <= k < |sets| && x in sets[k]
    decreases |sets|
  {
    if sets != [] {
      var n := |sets| - 1;
      MergeAllMembers(acc, sets[..n], x);
      if exists k :: 0 <= k < |sets| && x in sets[k] {
        var k :| 0 <= k < |sets| && x in sets[k];
        if k < n { assert sets[..n][k] == sets[k]; }
      }
      if exists k :: 0 <= k < n && x in sets[..n][k] {
        var k :| 0 <= k < n && x in sets[..n][k];
        assert sets[k] == sets[..n][k];
      }
    }
  }

  /** The result of merging depends only on which sets are merged: not on their
      order, and not on how often each is merged. */
  lemma MergeAllOrderIndependent(acc: set<string>, a: seq<set<string>>, b: seq<set<string>>)
    requires forall s :: s in a <==> s in b
    ensures MergeAll(acc, a) == MergeAll(acc, b)
  {
    forall x ensures x in MergeAll(acc, a) <==> x in MergeAll(acc, b) {
      MergeAllMembers(acc, a, x);
      MergeAllMembers(acc, b, x);
      if exists k :: 0 <= k < |a| && x in a[k] {
        var k :| 0 <= k < |a| && x in a[k];
        assert a[k] in b;
        var k' :| 0 <= k' < |b| && b[k'] == a[k];
        assert x in b[k'];
      }
      if exists k :: 0 <= k < |b| && x in b[k] {
        var k :| 0 <= k < |b| && x in b[k];
        assert b[k] in a;
        var k' :| 0 <= k' < |a| && a[k'] == b[k];
        assert x in a[k'];
      }
    }
  }

  // ---------------------------------------------------------------------------
  // The pages
  // ---------------------------------------------------------------------------

  /** `range(n)`. */
  function PageRange(n: nat): (pages: seq<nat>)
    ensures |pages| == n && forall k :: 0 <= k < n ==> pages[k] == k
  {
    seq(n, k => k)
  }

  /** The address sets of the given pages, in the given order. */
  function PageSets(baseUrl: string, fetch: PageRequest -> FetchOutcome, pages: seq<nat>): (sets: seq<set<string>>)
    ensures |sets| == |pages|
    ensures forall k :: 0 <= k < |pages| ==> sets[k] == PageEmails(fetch(RequestFor(baseUrl, pages[k])))
  {
    seq(|pages|, k requires 0 <= k < |pages| => PageEmails(fetch(RequestFor(baseUrl, pages[k]))))
  }

  /** What the scrape of `baseUrl` accumulates when the server answers each
      request as `fetch` says: pages 0 .. MaxPages - 1 merged in page order. */
  function Scraped(baseUrl: string, fetch: PageRequest -> FetchOutcome): set<string>
  {
    MergeAll({}, PageSets(baseUrl, fetch, PageRange(MaxPages)))
  }

  /** The scrape holds an address exactly when one of the pages 0 .. MaxPages - 1 yields it. */
  lemma ScrapedMembers(baseUrl: string, fetch: PageRequest -> FetchOutcome, x: string)
    ensures x in Scraped(baseUrl, fetch) <==>
      exists p :: 0 <= p < MaxPages && x in PageEmails(fetch(RequestFor(baseUrl, p)))
  {
    var sets := PageSets(baseUrl, fetch, PageRange(MaxPages));
    MergeAllMembers({}, sets, x);
    if exists p :: 0 <= p < MaxPages && x in PageEmails(fetch(RequestFor(baseUrl, p))) {
      var p :| 0 <= p < MaxPages && x in PageEmails(fetch(RequestFor(baseUrl, p)));
      assert x in sets[p];
    }
  }

  /** Page tasks may finish in any order: merging the page sets in any order in
      which every page 0 .. MaxPages - 1 finishes gives the same accumulator. */
  lemma CompletionOrderIrrelevant(baseUrl: string, fetch: PageRequest -> FetchOutcome, order: seq<nat>)
    requires forall p :: p in order <==> p < MaxPages
    ensures MergeAll({}, PageSets(baseUrl, fetch, order)) == Scraped(baseUrl, fetch)
  {
    var a := PageSets(baseUrl, fetch, order);
    var b := PageSets(baseUrl, fetch, PageRange(MaxPages));
    forall s ensures s in a <==> s in b {
      if s in a {
        var k :| 0 <= k < |a| && a[k] == s;
        assert order[k] in order;
        assert b[order[k]] == s;
      }
      if s in b {
        var p :| 0 <= p < |b| && b[p] == s;
        assert p in order;
        var k :| 0 <= k < |order| && order[k] == p;
        assert a[k] == s;
      }
    }
    MergeAllOrderIndependent({}, a, b);
  }

  /** Leaving out a merge of the empty set changes nothing. */
  lemma MergeAllDropEmpty(acc: set<string>, sets: seq<set<string>>, p: nat)
    requires p < |sets| && sets[p] == {}
    ensures MergeAll(acc, sets) == MergeAll(acc, sets[..p] + sets[p + 1..])
  {
    var rest := sets[..p] + sets[p + 1..];
    forall x ensures x in MergeAll(acc, sets) <==> x in MergeAll(acc, rest) {
      MergeAllMembers(acc, sets, x);
      MergeAllMembers(acc, rest, x);
      if exists k :: 0 <= k < |sets| && x in sets[k] {
        var k :| 0 <= k < |sets| && x in sets[k];
        if k < p { assert rest[k] == sets[k]; } else { assert rest[k - 1] == sets[k]; }
      }
      if exists k :: 0 <= k < |rest| && x in rest[k] {
        var k :| 0 <= k < |rest| && x in rest[k];
        if k < p { assert rest[k] == sets[k]; } else { assert rest[k] == sets[k + 1]; }
      }
    }
  }

  /** A failed page contributes nothing and stops no other page: the scrape is
      what the other pages, merged without it, accumulate. */
  lemma FailedPageSkipped(baseUrl: string, fetch: PageRequest -> FetchOutcome, p: nat)
    requires p < MaxPages && fetch(RequestFor(baseUrl, p)).ClientError?
    ensures Scraped(baseUrl, fetch) ==
      MergeAll({}, PageSets(baseUrl, fetch, PageRange(MaxPages)[..p] + PageRange(MaxPages)[p + 1..]))
  {
    var all := PageRange(MaxPages);
    var sets := PageSets(baseUrl, fetch, all);
    assert sets[p] == {};
    MergeAllDropEmpty({}, sets, p);
    assert PageSets(baseUrl, fetch, all[..p] + all[p + 1..]) == sets[..p] + sets[p + 1..];
  }

  /** Pages whose text has no `@`, or whose fetch failed, yield no address at all. */
  lemma NoAtNowhereNoEmails(baseUrl: string, fetch: PageRequest -> FetchOutcome)
    requires forall p :: 0 <= p < MaxPages && fetch(RequestFor(baseUrl, p)).Body? ==>
      forall k :: 0 <= k < |fetch(RequestFor(baseUrl, p)).text| ==> fetch(RequestFor(baseUrl, p)).text[k] != '@'
    ensures Scraped(baseUrl, fetch) == {}
  {
    forall x | x in Scraped(baseUrl, fetch) ensures false {
      ScrapedMembers(baseUrl, fetch, x);
      var p :| 0 <= p < MaxPages && x in PageEmails(fetch(RequestFor(baseUrl, p)));
      NoAtNoEmails(fetch(RequestFor(baseUrl, p)).text);
    }
  }

  // ---------------------------------------------------------------------------
  // The driver
  // ---------------------------------------------------------------------------

  /** `scrape_emails(base_url)`, with the page tasks run one after another: each
      page's request is derived, the response read, its addresses extracted and,
      if there are any, merged into `allEmails`. `sent` lists the requests in the
      order this model issues them. */
  method ScrapeEmails(baseUrl: string, fetch: PageRequest -> FetchOutcome)
    returns (allEmails: set<string>, sent: seq<PageRequest>)
    ensures allEmails == Scraped(baseUrl, fetch)
    ensures forall x :: x in allEmails <==>
      exists p :: 0 <= p < MaxPages && x in PageEmails(fetch(RequestFor(baseUrl, p)))
    ensures |sent| == MaxPages && forall p :: 0 <= p < MaxPages ==> sent[p] == RequestFor(baseUrl, p)
  {
    allEmails := {};
    sent := [];
    for page := 0 to MaxPages
      invariant allEmails == MergeAll({}, PageSets(baseUrl, fetch, PageRange(page)))
      invariant |sent| == page && forall p :: 0 <= p < page ==> sent[p] == RequestFor(baseUrl, p)
    {
      var request := RequestFor(baseUrl, page);
      var emails := PageEmails(fetch(request));
      sent := sent + [request];
      ghost var sets := PageSets(baseUrl, fetch, PageRange(page + 1));
      assert sets[..page] == PageSets(baseUrl, fetch, PageRange(page));
      if emails != {} {
        allEmails := Merge(allEmails, emails);
      }
    }
    forall x ensures x in allEmails <==>
      exists p :: 0 <= p < MaxPages && x in PageEmails(fetch(RequestFor(baseUrl, p)))
    {
      ScrapedMembers(baseUrl, fetch, x);
    }
  }

  /** `run_scraper(url)`: the scrape's addresses, sorted. */
  method RunScraper(url: string, fetch: PageRequest -> FetchOutcome)
    returns (emails: seq<string>, sent: seq<PageRequest>)
    ensures StrictlyIncreasing(emails)
    ensures forall x :: x in emails <==> x in Scraped(url, fetch)
    ensures |emails| == |Scraped(url, fetch)|
    ensures |sent| == MaxPages && forall p :: 0 <= p < MaxPages ==> sent[p] == RequestFor(url, p)
  {
    var all;
    all, sent := ScrapeEmails(url, fetch);
    emails := SortedList(all);
  }

  /** `main` once the URL has been read: an empty URL is an input error and
      sends nothing; any other URL is scraped, and the report is either "no
      emails found" or the sorted addresses. */
  method RunFromInput(url: string, fetch: PageRequest -> FetchOutcome)
    returns (report: Report, sent: seq<PageRequest>)
    ensures report == InputError <==> url == ""
    ensures url == "" ==> sent == []
    ensures url != "" ==> |sent| == MaxPages && forall p :: 0 <= p < MaxPages ==> sent[p] == RequestFor(url, p)
    ensures report == NoEmailsFound <==> url != "" && Scraped(url, fetch) == {}
    ensures report.Found? ==>
      && report.emails != []
      && StrictlyIncreasing(report.emails)
      && forall x :: x in report.emails <==> x in Scraped(url, fetch)
  {
    if url == "" {
      return InputError, [];
    }
    var emails;
    emails, sent := RunScraper(url, fetch);
    if emails != [] {
      report := Found(emails);
    } else {
      report := NoEmailsFound;
    }
  }
}
