/** What `fetch_page` derives from a page number before it fetches: the request
    URL and the User-Agent header (gmail-scraper.py, lines 7-11 and 33-34), and
    the fixed page range of `scrape_emails` (lines 29 and 45). */
module Requests {

  /** `max_pages`: the pages fetched are 0 .. MaxPages - 1. */
  const MaxPages: nat := 50

  /** The query text put between the base URL and the page number. */
  const PageParam: string := "&first="

  /** `USER_AGENTS`, in order. */
  const UserAgents: seq<string> := [
    "Mozilla/5.0 (Windows NT 10.0; Win64; x64) AppleWebKit/537.36 (KHTML, like Gecko) Chrome/91.0.4472.124 Safari/537.36",
    "Mozilla/5.0 (Macintosh; Intel Mac OS X 10_15_7) AppleWebKit/537.36 (KHTML, like Gecko) Chrome/92.0.4515.107 Safari/537.36",
    "Mozilla/5.0 (Windows NT 10.0; Win64; x64; rv:91.0) Gecko/20100101 Firefox/91.0"
  ]

  /** One GET: the URL and the value of its User-Agent header. */
  datatype PageRequest = PageRequest(url: string, userAgent: string)

  predicate IsDigits(s: string)
  {
    forall k :: 0 <= k < |s| ==> '0' <= s[k] <= '9'
  }

  function DigitChar(d: nat): (c: char)
    requires d < 10
    ensures '0' <= c <= '9' && c as int - '0' as int == d
  {
    ('0' as int + d) as char
  }

  /** `str(n)` for a non-negative integer: its decimal digits, most significant first. */
  function Decimal(n: nat): (s: string)
    ensures |s| >= 1 && IsDigits(s)
    ensures s[0] == '0' <==> n == 0
    ensures |s| == 1 <==> n < 10
    decreases n
  {
    if n < 10 then [DigitChar(n)] else Decimal(n / 10) + [DigitChar(n % 10)]
  }

  /** The number a string of decimal digits denotes. */
  function DigitsValue(s: string): nat
    requires IsDigits(s)
    decreases |s|
  {
    if s == [] then 0
    else DigitsValue(s[..|s| - 1]) * 10 + (s[|s| - 1] as int - '0' as int)
  }

  /** The digits of `str(n)` denote `n`. */
  lemma {:induction false} DecimalRoundTrip(n: nat)
    ensures DigitsValue(Decimal(n)) == n
    decreases n
  {
    if n >= 10 {
      DecimalRoundTrip(n / 10);
      var s := Decimal(n);
      assert s[..|s| - 1] == Decimal(n / 10);
    }
  }

  lemma DecimalInjective(m: nat, n: nat)
    requires Decimal(m) == Decimal(n)
    ensures m == n
  {
    DecimalRoundTrip(m);
    DecimalRoundTrip(n);
  }

  /** `f"{base_url}&first={page}"`. */
  function PageUrl(baseUrl: string, page: nat): string
  {
    baseUrl + PageParam + Decimal(page)
  }

  /** The URL of a page is the base URL, then `&first=`, then digits that denote the page. */
  lemma PageUrlParts(baseUrl: string, page: nat)
    ensures var url := PageUrl(baseUrl, page);
      && |url| > |baseUrl| + |PageParam|
      && url[..|baseUrl|] == baseUrl
      && url[|baseUrl|..|baseUrl| + |PageParam|] == "&first="
      && IsDigits(url[|baseUrl| + |PageParam|..])
      && DigitsValue(url[|baseUrl| + |PageParam|..]) == page
  {
    var url := PageUrl(baseUrl, page);
    assert url[|baseUrl| + |PageParam|..] == Decimal(page);
    DecimalRoundTrip(page);
  }

  /** Distinct pages of one base URL are requested at distinct URLs. */
  lemma PageUrlInjective(baseUrl: string, p: nat, q: nat)
    requires PageUrl(baseUrl, p) == PageUrl(baseUrl, q)
    ensures p == q
  {
    var n := |baseUrl| + |PageParam|;
    assert PageUrl(baseUrl, p)[n..] == Decimal(p);
    assert PageUrl(baseUrl, q)[n..] == Decimal(q);
    DecimalInjective(p, q);
  }

  /** `USER_AGENTS[page % len(USER_AGENTS)]`: the index is always in bounds. */
  function UserAgentFor(page: nat): (ua: string)
    ensures ua in UserAgents
  {
    UserAgents[page % |UserAgents|]
  }

  /** The rotation has period three. */
  lemma UserAgentPeriodic(page: nat)
    ensures UserAgentFor(page + 3) == UserAgentFor(page)
  {
  }

  /** Consecutive pages are sent with different User-Agent strings. */
  lemma UserAgentChangesEachPage(page: nat)
    ensures UserAgentFor(page + 1) != UserAgentFor(page)
  {
  }

  /** The request `fetch_page` sends for one page. */
  function RequestFor(baseUrl: string, page: nat): PageRequest
  {
    PageRequest(PageUrl(baseUrl, page), UserAgentFor(page))
  }
}
