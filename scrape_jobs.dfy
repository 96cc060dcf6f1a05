/** The scraping endpoint: three source families (Indeed, Craigslist, the
    retailers' own career pages), their aggregation in a fixed order, and the
    request handler. Every `fetch` is an input: either the parts of the body
    the scraper reads (the sequence of matches its regex yields) or
    `Unavailable`, which stands both for a non-ok status and for a request
    that threw, since every call site treats the two alike. */
module ScrapeJobs {
  import opened Common
  import opened Listing

  datatype Fetched<T> = Unavailable | Ok(body: T)

  /** The values `Date.now()`, `Math.random()` and `new Date().toISOString()`
      return while one record is built. */
  datatype Stamp = Stamp(millis: string, random: string, iso: string)

  /** One match of the Indeed job-card pattern: the href, title and company
      capture groups. */
  datatype IndeedMatch = IndeedMatch(href: string, title: string, company: string, stamp: Stamp)

  /** One match of the Craigslist listing-link pattern: href and link text. */
  datatype ListingMatch = ListingMatch(href: string, title: string, stamp: Stamp)

  datatype Retailer = Retailer(name: string, url: string, keywords: string)

  /** How the call of one whole source family ended, seen from the handler's
      `try`: it threw, or it ran on the given fetch outcomes. */
  datatype Family<T> = Threw | Ran(input: T)

  const SearchKeywords: seq<string> := ["seasonal", "temporary", "part-time", "holiday", "warehouse", "retail"]
  const SearchLocation: string := "Redding, CA"

  /** Only this many keywords are searched on Indeed. */
  const KeywordLimit: nat := 2
  /** Indeed stops once the shared list holds this many records. */
  const IndeedCap: nat := 20
  const CraigslistCap: nat := 15

  const IndeedOrigin: string := "https://indeed.com"
  const CraigslistOrigin: string := "https://redding.craigslist.org"

  /** `href.startsWith('http') ? href : origin + href`: plain concatenation,
      not reference resolution. */
  function Resolve(origin: string, href: string): (r: string)
    requires StartsWith(origin, "http")
    ensures StartsWith(r, "http")
    ensures r == href <==> StartsWith(href, "http")
    ensures r != href ==> r == origin + href
  {
    if StartsWith(href, "http") then href
    else
      assert (origin + href)[..4] == origin[..4];
      origin + href
  }

  /** The href always survives whole, at the end of the url. */
  lemma ResolveKeepsHref(origin: string, href: string)
    requires StartsWith(origin, "http")
    ensures |href| <= |Resolve(origin, href)|
    ensures Resolve(origin, href)[|Resolve(origin, href)| - |href|..] == href
  {
    var r := Resolve(origin, href);
    if r != href {
      assert r[|origin|..] == href;
    }
  }

  // ---------------------------------------------------------------- Indeed

  function IndeedJob(keyword: string, location: string, m: IndeedMatch): Job {
    Job("indeed-" + m.stamp.millis + "-" + m.stamp.random,
        Trim(m.title), Trim(m.company), location, "Seasonal",
        Resolve(IndeedOrigin, m.href), "Indeed", "Not specified",
        keyword + " job on Indeed", m.stamp.iso)
  }

  function IndeedCards(keyword: string, location: string, ms: seq<IndeedMatch>): (r: seq<Job>)
    ensures |r| == |ms|
    ensures forall i :: 0 <= i < |ms| ==> r[i] == IndeedJob(keyword, location, ms[i])
  {
    seq(|ms|, i requires 0 <= i < |ms| => IndeedJob(keyword, location, ms[i]))
  }

  /** One keyword's turn: nothing when the response is not usable, otherwise
      the matches in order for as long as the SHARED list is below the cap. */
  function IndeedStep(acc: seq<Job>, keyword: string, location: string, resp: Fetched<seq<IndeedMatch>>): (r: seq<Job>)
    requires |acc| <= IndeedCap
    ensures |r| <= IndeedCap && acc <= r
  {
    match resp
    case Unavailable => acc
    case Ok(ms) => acc + IndeedCards(keyword, location, ms[..Min(|ms|, IndeedCap - |acc|)])
  }

  function IndeedFrom(acc: seq<Job>, kws: seq<string>, location: string, rs: seq<Fetched<seq<IndeedMatch>>>): (r: seq<Job>)
    requires |kws| == |rs| && |acc| <= IndeedCap
    ensures |r| <= IndeedCap && acc <= r
    decreases |kws|
  {
    if kws == [] then acc
    else IndeedFrom(IndeedStep(acc, kws[0], location, rs[0]), kws[1..], location, rs[1..])
  }

  /** `scrapeIndeed(keywords, location)`, one response per searched keyword. */
  function IndeedJobs(keywords: seq<string>, location: string, rs: seq<Fetched<seq<IndeedMatch>>>): seq<Job>
    requires |rs| == Min(KeywordLimit, |keywords|)
  {
    IndeedFrom([], keywords[..Min(KeywordLimit, |keywords|)], location, rs)
  }

  lemma IndeedFromUnfold(acc: seq<Job>, kws: seq<string>, location: string, rs: seq<Fetched<seq<IndeedMatch>>>, i: nat)
    requires |kws| == |rs| && |acc| <= IndeedCap && i < |kws|
    ensures IndeedFrom(acc, kws[i..], location, rs[i..]) ==
            IndeedFrom(IndeedStep(acc, kws[i], location, rs[i]), kws[i + 1..], location, rs[i + 1..])
  {
    assert kws[i..][1..] == kws[i + 1..] && rs[i..][1..] == rs[i + 1..];
  }

  lemma IndeedCardsSnoc(keyword: string, location: string, ms: seq<IndeedMatch>, k: nat)
    requires k < |ms|
    ensures IndeedCards(keyword, location, ms[..k + 1]) == IndeedCards(keyword, location, ms[..k]) + [IndeedJob(keyword, location, ms[k])]
  {
    assert ms[..k + 1] == ms[..k] + [ms[k]];
  }

  /** The `while` over the regex matches of one Indeed page: push one record
      per match for as long as the shared list is below the cap. */
  method PushIndeedCards(jobs: seq<Job>, keyword: string, location: string, matches: seq<IndeedMatch>)
    returns (jobs': seq<Job>)
    requires |jobs| <= IndeedCap
    ensures jobs' == IndeedStep(jobs, keyword, location, Ok(matches))
  {
    jobs' := jobs;
    var k := 0;
    while k < |matches| && |jobs'| < IndeedCap
      invariant 0 <= k <= |matches|
      invariant |jobs'| == |jobs| + k <= IndeedCap
      invariant jobs' == jobs + IndeedCards(keyword, location, matches[..k])
    {
      IndeedCardsSnoc(keyword, location, matches, k);
      jobs' := jobs' + [IndeedJob(keyword, location, matches[k])];
      k := k + 1;
    }
    assert k == Min(|matches|, IndeedCap - |jobs|);
  }

  method ScrapeIndeed(keywords: seq<string>, location: string, responses: seq<Fetched<seq<IndeedMatch>>>)
    returns (jobs: seq<Job>)
    requires |responses| == Min(KeywordLimit, |keywords|)
    ensures jobs == IndeedJobs(keywords, location, responses)
  {
    jobs := [];
    var kws := keywords[..Min(KeywordLimit, |keywords|)];
    for i := 0 to |kws|
      invariant |jobs| <= IndeedCap
      invariant IndeedFrom(jobs, kws[i..], location, responses[i..]) == IndeedJobs(keywords, location, responses)
    {
      IndeedFromUnfold(jobs, kws, location, responses, i);
      match responses[i]
      case Unavailable =>
      case Ok(matches) =>
        jobs := PushIndeedCards(jobs, kws[i], location, matches);
    }
  }

  /** The fields every Indeed record carries. */
  ghost predicate IndeedShaped(j: Job, kws: seq<string>, location: string) {
    j.source == "Indeed" && j.jobType == "Seasonal" && j.salary == "Not specified" &&
    j.location == location && StartsWith(j.url, "http") &&
    exists kw :: kw in kws && j.description == kw + " job on Indeed"
  }

  lemma {:induction false} IndeedFromShaped(acc: seq<Job>, kws: seq<string>, location: string, rs: seq<Fetched<seq<IndeedMatch>>>)
    requires |kws| == |rs| && |acc| <= IndeedCap
    ensures forall i :: |acc| <= i < |IndeedFrom(acc, kws, location, rs)| ==>
              IndeedShaped(IndeedFrom(acc, kws, location, rs)[i], kws, location)
    decreases |kws|
  {
    if kws != [] {
      var next := IndeedStep(acc, kws[0], location, rs[0]);
      IndeedFromShaped(next, kws[1..], location, rs[1..]);
      var r := IndeedFrom(acc, kws, location, rs);
      assert r == IndeedFrom(next, kws[1..], location, rs[1..]);
      forall i | |acc| <= i < |r| ensures IndeedShaped(r[i], kws, location) {
        if i < |next| {
          assert r[i] == next[i];
          assert kws[0] in kws;
        } else {
          assert IndeedShaped(IndeedFrom(next, kws[1..], location, rs[1..])[i], kws[1..], location);
          var kw :| kw in kws[1..] && r[i].description == kw + " job on Indeed";
          assert kw in kws;
        }
      }
    }
  }

  /** Every Indeed record is stamped source 'Indeed', type 'Seasonal', salary
      'Not specified', has an absolute url, and describes itself by one of the
      first two keywords; there are at most 20 over both keywords together. */
  lemma IndeedRecords(keywords: seq<string>, location: string, rs: seq<Fetched<seq<IndeedMatch>>>)
    requires |rs| == Min(KeywordLimit, |keywords|)
    ensures |IndeedJobs(keywords, location, rs)| <= IndeedCap
    ensures forall j :: j in IndeedJobs(keywords, location, rs) ==>
              IndeedShaped(j, keywords[..Min(KeywordLimit, |keywords|)], location)
  {
    IndeedFromShaped([], keywords[..Min(KeywordLimit, |keywords|)], location, rs);
  }

  /** A keyword whose response is not usable adds nothing: the result is the
      same as if that keyword had not been searched at all. */
  lemma {:induction false} IndeedSkipsUnavailable(acc: seq<Job>, kws: seq<string>, location: string,
                                                  rs: seq<Fetched<seq<IndeedMatch>>>, i: nat)
    requires |kws| == |rs| && |acc| <= IndeedCap
    requires i < |rs| && rs[i] == Unavailable
    ensures IndeedFrom(acc, kws, location, rs) ==
            IndeedFrom(acc, kws[..i] + kws[i + 1..], location, rs[..i] + rs[i + 1..])
    decreases i
  {
    var kws', rs' := kws[..i] + kws[i + 1..], rs[..i] + rs[i + 1..];
    if i == 0 {
      assert kws' == kws[1..] && rs' == rs[1..];
    } else {
      var next := IndeedStep(acc, kws[0], location, rs[0]);
      IndeedSkipsUnavailable(next, kws[1..], location, rs[1..], i - 1);
      WithoutAt(kws, i);
      WithoutAt(rs, i);
      assert IndeedFrom(acc, kws', location, rs') == IndeedFrom(next, kws'[1..], location, rs'[1..]);
    }
  }

  /** Leaving out the element at `i > 0` keeps the head and leaves out the
      element at `i - 1` of the tail. */
  lemma WithoutAt<T>(s: seq<T>, i: nat)
    requires 0 < i < |s|
    ensures |s[..i] + s[i + 1..]| == |s| - 1 && (s[..i] + s[i + 1..])[0] == s[0]
    ensures (s[..i] + s[i + 1..])[1..] == s[1..][..i - 1] + s[1..][i..]
  {
  }

  // ------------------------------------------------------------ Craigslist

  function CraigslistJob(location: string, m: ListingMatch): Job {
    Job("craigslist-" + m.stamp.millis + "-" + m.stamp.random,
        Trim(m.title), "Private Employer", location, "Seasonal/Temporary",
        Resolve(CraigslistOrigin, m.href), "Craigslist", "Not specified",
        "Job posting on Craigslist", m.stamp.iso)
  }

  function CraigslistCards(location: string, ms: seq<ListingMatch>): (r: seq<Job>)
    ensures |r| == |ms|
    ensures forall i :: 0 <= i < |ms| ==> r[i] == CraigslistJob(location, ms[i])
  {
    seq(|ms|, i requires 0 <= i < |ms| => CraigslistJob(location, ms[i]))
  }

  lemma CraigslistCardsSnoc(location: string, ms: seq<ListingMatch>, k: nat)
    requires k < |ms|
    ensures CraigslistCards(location, ms[..k + 1]) == CraigslistCards(location, ms[..k]) + [CraigslistJob(location, ms[k])]
  {
    assert ms[..k + 1] == ms[..k] + [ms[k]];
  }

  /** `scrapeCraigslist`: the first 15 matches of the one listing page, or
      nothing when the page is not usable. */
  function CraigslistJobs(location: string, resp: Fetched<seq<ListingMatch>>): (r: seq<Job>)
    ensures |r| <= CraigslistCap
    ensures resp.Unavailable? ==> r == []
    ensures resp.Ok? ==> |r| == Min(|resp.body|, CraigslistCap)
    ensures forall i :: 0 <= i < |r| ==> r[i] == CraigslistJob(location, resp.body[i])
  {
    match resp
    case Unavailable => []
    case Ok(ms) => CraigslistCards(location, ms[..Min(|ms|, CraigslistCap)])
  }

  method ScrapeCraigslist(location: string, response: Fetched<seq<ListingMatch>>) returns (jobs: seq<Job>)
    ensures jobs == CraigslistJobs(location, response)
  {
    jobs := [];
    match response {
      case Unavailable =>
      case Ok(matches) =>
        jobs := PushListings(location, matches);
    }
  }

  /** The `while` over the listing links: push one record per match, with a
      counter of its own, until 15 have been pushed. */
  method PushListings(location: string, matches: seq<ListingMatch>) returns (jobs: seq<Job>)
    ensures jobs == CraigslistJobs(location, Ok(matches))
  {
    jobs := [];
    var k := 0;
    var count := 0;
    while k < |matches| && count < CraigslistCap
      invariant 0 <= k <= |matches| && count == k <= CraigslistCap
      invariant jobs == CraigslistCards(location, matches[..k])
    {
      CraigslistCardsSnoc(location, matches, k);
      jobs := jobs + [CraigslistJob(location, matches[k])];
      k := k + 1;
      count := count + 1;
    }
    assert k == Min(|matches|, CraigslistCap);
  }

  /** Every Craigslist record names 'Private Employer', is typed
      'Seasonal/Temporary', is tagged 'Craigslist' and has an absolute url. */
  lemma CraigslistRecords(location: string, resp: Fetched<seq<ListingMatch>>)
    ensures forall j :: j in CraigslistJobs(location, resp) ==>
              j.company == "Private Employer" && j.jobType == "Seasonal/Temporary" &&
              j.source == "Craigslist" && j.location == location && StartsWith(j.url, "http")
  {
  }

  // ------------------------------------------------------------- Retailers

  const Retailers: seq<Retailer> := [
    Retailer("Amazon", "https://www.amazon.jobs/en/locations/redding-california", "seasonal warehouse"),
    Retailer("Costco", "https://www.costco.com/careers", "seasonal stock"),
    Retailer("Lowe's", "https://careers.lowes.com/search-jobs", "seasonal retail"),
    Retailer("Home Depot", "https://careers.homedepot.com", "seasonal associate"),
    Retailer("Dicks Sporting Goods", "https://www.dickssportinggoods.com/careers", "part-time retail")
  ]

  function RetailerJob(r: Retailer, stamp: Stamp): Job {
    Job(Lower(r.name) + "-" + stamp.millis, "Seasonal/Part-Time Position", r.name,
        "Redding, CA", "Seasonal/Part-Time", r.url, "Direct", "Check company site",
        "Visit " + r.name + " careers page for " + r.keywords + " positions", stamp.iso)
  }

  /** What one retailer adds: a record when its careers page answered. */
  function RetailerStep(ret: Retailer, resp: Fetched<Stamp>): (r: seq<Job>)
    ensures |r| <= 1
  {
    match resp
    case Ok(stamp) => [RetailerJob(ret, stamp)]
    case Unavailable => []
  }

  /** One record for each retailer whose careers page answered, in list order. */
  function RetailerJobsFrom(rets: seq<Retailer>, rs: seq<Fetched<Stamp>>): (r: seq<Job>)
    requires |rets| == |rs|
    ensures |r| <= |rets|
  {
    if rets == [] then [] else RetailerStep(rets[0], rs[0]) + RetailerJobsFrom(rets[1..], rs[1..])
  }

  lemma {:induction false} RetailerJobsConcat(a: seq<Retailer>, b: seq<Retailer>, ra: seq<Fetched<Stamp>>, rb: seq<Fetched<Stamp>>)
    requires |a| == |ra| && |b| == |rb|
    ensures RetailerJobsFrom(a + b, ra + rb) == RetailerJobsFrom(a, ra) + RetailerJobsFrom(b, rb)
  {
    if a != [] {
      assert (a + b)[1..] == a[1..] + b && (ra + rb)[1..] == ra[1..] + rb;
      RetailerJobsConcat(a[1..], b, ra[1..], rb);
    } else {
      assert a + b == b && ra + rb == rb;
    }
  }

  lemma RetailerJobsSnoc(rets: seq<Retailer>, rs: seq<Fetched<Stamp>>, i: nat)
    requires |rets| == |rs| && i < |rets|
    ensures RetailerJobsFrom(rets[..i + 1], rs[..i + 1]) == RetailerJobsFrom(rets[..i], rs[..i]) + RetailerStep(rets[i], rs[i])
  {
    assert rets[..i + 1] == rets[..i] + [rets[i]] && rs[..i + 1] == rs[..i] + [rs[i]];
    RetailerJobsConcat(rets[..i], [rets[i]], rs[..i], [rs[i]]);
    assert RetailerJobsFrom([rets[i]], [rs[i]]) == RetailerStep(rets[i], rs[i]) + RetailerJobsFrom([], []);
  }

  /** The loop over the retailer list, one response per retailer. */
  method ScrapeRetailers(retailers: seq<Retailer>, responses: seq<Fetched<Stamp>>) returns (jobs: seq<Job>)
    requires |responses| == |retailers|
    ensures jobs == RetailerJobsFrom(retailers, responses)
  {
    jobs := [];
    for i := 0 to |retailers|
      invariant jobs == RetailerJobsFrom(retailers[..i], responses[..i])
    {
      RetailerJobsSnoc(retailers, responses, i);
      match responses[i] {
        case Ok(stamp) =>
          jobs := jobs + [RetailerJob(retailers[i], stamp)];
        case Unavailable =>
      }
    }
    assert retailers[..|retailers|] == retailers && responses[..|retailers|] == responses;
  }

  function RetailerUrls(rets: seq<Retailer>): (r: seq<string>)
    ensures |r| == |rets| && forall i :: 0 <= i < |rets| ==> r[i] == rets[i].url
  {
    seq(|rets|, i requires 0 <= i < |rets| => rets[i].url)
  }

  lemma RetailerStepFields(ret: Retailer, resp: Fetched<Stamp>)
    ensures forall j :: j in RetailerStep(ret, resp) ==> j.source == "Direct" && j.url == ret.url && j.company == ret.name
    ensures Urls(RetailerStep(ret, resp)) == if resp.Ok? then [ret.url] else []
  {
  }

  lemma {:induction false} RetailerUrlsFollow(rets: seq<Retailer>, rs: seq<Fetched<Stamp>>)
    requires |rets| == |rs|
    ensures IsSubsequence(Urls(RetailerJobsFrom(rets, rs)), RetailerUrls(rets))
  {
    if rets != [] {
      var step, rest := RetailerStep(rets[0], rs[0]), RetailerJobsFrom(rets[1..], rs[1..]);
      RetailerUrlsFollow(rets[1..], rs[1..]);
      var u, us := rets[0].url, RetailerUrls(rets[1..]);
      assert RetailerUrls(rets) == [u] + us;
      SubsequenceCons(u, Urls(rest), us);
      assert RetailerJobsFrom(rets, rs) == step + rest;
      UrlsConcat(step, rest);
      if rs[0].Ok? {
        assert Urls(step) == [u];
        assert Urls(RetailerJobsFrom(rets, rs)) == [u] + Urls(rest);
      } else {
        assert step == [] && RetailerJobsFrom(rets, rs) == rest;
      }
    }
  }

  /** Every retailer record was built from a retailer whose page answered. */
  lemma {:induction false} RetailerFields(rets: seq<Retailer>, rs: seq<Fetched<Stamp>>)
    requires |rets| == |rs|
    ensures forall j :: j in RetailerJobsFrom(rets, rs) ==>
              exists k :: 0 <= k < |rets| && rs[k].Ok? && j == RetailerJob(rets[k], rs[k].body)
  {
    if rets != [] {
      var step, rest := RetailerStep(rets[0], rs[0]), RetailerJobsFrom(rets[1..], rs[1..]);
      RetailerFields(rets[1..], rs[1..]);
      forall j: Job | j in step + rest
        ensures exists k :: 0 <= k < |rets| && rs[k].Ok? && j == RetailerJob(rets[k], rs[k].body)
      {
        if j in step {
          assert rs[0].Ok? && j == RetailerJob(rets[0], rs[0].body);
        } else {
          var k :| 0 <= k < |rets[1..]| && rs[1..][k].Ok? && j == RetailerJob(rets[1..][k], rs[1..][k].body);
          assert rets[k + 1] == rets[1..][k] && rs[k + 1] == rs[1..][k];
        }
      }
    }
  }

  /** Every retailer whose page answered contributes its record. */
  lemma {:induction false} RetailerPresent(rets: seq<Retailer>, rs: seq<Fetched<Stamp>>)
    requires |rets| == |rs|
    ensures forall k :: 0 <= k < |rets| && rs[k].Ok? ==> RetailerJob(rets[k], rs[k].body) in RetailerJobsFrom(rets, rs)
  {
    if rets != [] {
      RetailerPresent(rets[1..], rs[1..]);
      var step, rest := RetailerStep(rets[0], rs[0]), RetailerJobsFrom(rets[1..], rs[1..]);
      assert RetailerJobsFrom(rets, rs) == step + rest;
      forall k | 0 <= k < |rets| && rs[k].Ok?
        ensures RetailerJob(rets[k], rs[k].body) in step + rest
      {
        if k == 0 {
          assert step == [RetailerJob(rets[0], rs[0].body)];
        } else {
          assert rets[1..][k - 1] == rets[k] && rs[1..][k - 1] == rs[k];
          assert RetailerJob(rets[k], rs[k].body) in rest;
        }
      }
    }
  }

  /** The retailer records follow the retailer list: exactly one per retailer
      whose careers page answered, none for the others, in list order, each
      built from that retailer's name, url and keywords with source 'Direct'. */
  lemma RetailerRecords(rets: seq<Retailer>, rs: seq<Fetched<Stamp>>)
    requires |rets| == |rs|
    ensures IsSubsequence(Urls(RetailerJobsFrom(rets, rs)), RetailerUrls(rets))
    ensures forall k :: 0 <= k < |rets| && rs[k].Ok? ==> RetailerJob(rets[k], rs[k].body) in RetailerJobsFrom(rets, rs)
    ensures forall j :: j in RetailerJobsFrom(rets, rs) ==>
              j.source == "Direct" &&
              exists k :: 0 <= k < |rets| && rs[k].Ok? && j == RetailerJob(rets[k], rs[k].body)
  {
    RetailerUrlsFollow(rets, rs);
    RetailerPresent(rets, rs);
    RetailerFields(rets, rs);
    forall j | j in RetailerJobsFrom(rets, rs) ensures j.source == "Direct" {
      var k :| 0 <= k < |rets| && rs[k].Ok? && j == RetailerJob(rets[k], rs[k].body);
    }
  }

  /** The five retailer urls differ, so the retailer records never collapse
      into each other when duplicates are removed, and a retailer's url is
      listed exactly when its careers page answered. */
  lemma RetailerUrlsDistinct(rs: seq<Fetched<Stamp>>)
    requires |rs| == |Retailers|
    ensures |RetailerJobsFrom(Retailers, rs)| <= 5
    ensures Distinct(Urls(RetailerJobsFrom(Retailers, rs)))
    ensures forall k :: 0 <= k < |Retailers| ==> (Retailers[k].url in Urls(RetailerJobsFrom(Retailers, rs)) <==> rs[k].Ok?)
  {
    var r := RetailerJobsFrom(Retailers, rs);
    assert Distinct(RetailerUrls(Retailers));
    RetailerRecords(Retailers, rs);
    SubsequenceDistinct(Urls(r), RetailerUrls(Retailers));
    forall k | 0 <= k < |Retailers|
      ensures Retailers[k].url in Urls(r) <==> rs[k].Ok?
    {
      RetailerListed(Retailers, rs, k);
    }
  }

  /** With distinct retailer urls, a retailer's url is listed exactly when its
      careers page answered. */
  lemma RetailerListed(rets: seq<Retailer>, rs: seq<Fetched<Stamp>>, k: nat)
    requires |rs| == |rets| && k < |rets|
    requires Distinct(RetailerUrls(rets))
    ensures rets[k].url in Urls(RetailerJobsFrom(rets, rs)) <==> rs[k].Ok?
  {
    if rs[k].Ok? {
      RetailerListedIfAnswered(rets, rs, k);
    }
    if rets[k].url in Urls(RetailerJobsFrom(rets, rs)) {
      RetailerAnsweredIfListed(rets, rs, k);
    }
  }

  lemma RetailerListedIfAnswered(rets: seq<Retailer>, rs: seq<Fetched<Stamp>>, k: nat)
    requires |rs| == |rets| && k < |rets| && rs[k].Ok?
    ensures rets[k].url in Urls(RetailerJobsFrom(rets, rs))
  {
    var r := RetailerJobsFrom(rets, rs);
    RetailerPresent(rets, rs);
    var j := RetailerJob(rets[k], rs[k].body);
    assert j in r;
    var i :| 0 <= i < |r| && r[i] == j;
    assert Urls(r)[i] == rets[k].url;
  }

  lemma RetailerAnsweredIfListed(rets: seq<Retailer>, rs: seq<Fetched<Stamp>>, k: nat)
    requires |rs| == |rets| && k < |rets|
    requires Distinct(RetailerUrls(rets))
    requires rets[k].url in Urls(RetailerJobsFrom(rets, rs))
    ensures rs[k].Ok?
  {
    var r := RetailerJobsFrom(rets, rs);
    RetailerFields(rets, rs);
    var i :| 0 <= i < |r| && Urls(r)[i] == rets[k].url;
    assert r[i] in r;
    var k' :| 0 <= k' < |rets| && rs[k'].Ok? && r[i] == RetailerJob(rets[k'], rs[k'].body);
    assert RetailerUrls(rets)[k'] == RetailerUrls(rets)[k];
  }

  // --------------------------------------------------------------- Handler

  type IndeedInput = seq<Fetched<seq<IndeedMatch>>>
  type CraigslistInput = Fetched<seq<ListingMatch>>
  type RetailerInput = seq<Fetched<Stamp>>

  ghost predicate WellSized(indeed: Family<IndeedInput>, retailers: Family<RetailerInput>) {
    (indeed.Ran? ==> |indeed.input| == KeywordLimit) &&
    (retailers.Ran? ==> |retailers.input| == |Retailers|)
  }

  /** What each family adds to the shared list: nothing when its call threw. */
  function IndeedPart(f: Family<IndeedInput>): seq<Job>
    requires f.Ran? ==> |f.input| == KeywordLimit
  {
    match f
    case Threw => []
    case Ran(rs) => IndeedJobs(SearchKeywords, SearchLocation, rs)
  }

  function CraigslistPart(f: Family<CraigslistInput>): seq<Job> {
    match f
    case Threw => []
    case Ran(resp) => CraigslistJobs(SearchLocation, resp)
  }

  function RetailerPart(f: Family<RetailerInput>): seq<Job>
    requires f.Ran? ==> |f.input| == |Retailers|
  {
    match f
    case Threw => []
    case Ran(rs) => RetailerJobsFrom(Retailers, rs)
  }

  /** The `jobs` array after the three guarded calls. */
  function Aggregate(indeed: Family<IndeedInput>, craigslist: Family<CraigslistInput>, retailers: Family<RetailerInput>): seq<Job>
    requires WellSized(indeed, retailers)
  {
    IndeedPart(indeed) + CraigslistPart(craigslist) + RetailerPart(retailers)
  }

  function SourceRank(j: Job): nat {
    if j.source == "Indeed" then 0 else if j.source == "Craigslist" then 1 else 2
  }

  lemma PartRanks(indeed: Family<IndeedInput>, craigslist: Family<CraigslistInput>, retailers: Family<RetailerInput>)
    requires WellSized(indeed, retailers)
    ensures |IndeedPart(indeed)| <= IndeedCap && forall j :: j in IndeedPart(indeed) ==> SourceRank(j) == 0
    ensures |CraigslistPart(craigslist)| <= CraigslistCap && forall j :: j in CraigslistPart(craigslist) ==> SourceRank(j) == 1
    ensures |RetailerPart(retailers)| <= 5 && forall j :: j in RetailerPart(retailers) ==> j.source == "Direct" && SourceRank(j) == 2
  {
    if indeed.Ran? {
      IndeedRecords(SearchKeywords, SearchLocation, indeed.input);
    }
    if craigslist.Ran? {
      CraigslistRecords(SearchLocation, craigslist.input);
    }
    if retailers.Ran? {
      RetailerRecords(Retailers, retailers.input);
      RetailerUrlsDistinct(retailers.input);
    }
  }

  /** Ranks that never go down along the list. */
  predicate RanksOrdered(jobs: seq<Job>) {
    forall i, k :: 0 <= i < k < |jobs| ==> SourceRank(jobs[i]) <= SourceRank(jobs[k])
  }

  lemma RanksConcat(a: seq<Job>, b: seq<Job>, c: seq<Job>)
    requires forall j :: j in a ==> SourceRank(j) == 0
    requires forall j :: j in b ==> SourceRank(j) == 1
    requires forall j :: j in c ==> SourceRank(j) == 2
    ensures RanksOrdered(a + b + c)
  {
    var all := a + b + c;
    forall i | 0 <= i < |all|
      ensures SourceRank(all[i]) == if i < |a| then 0 else if i < |a| + |b| then 1 else 2
    {
      if i < |a| {
        assert all[i] == a[i] && a[i] in a;
      } else if i < |a| + |b| {
        assert all[i] == b[i - |a|] && b[i - |a|] in b;
      } else {
        assert all[i] == c[i - |a| - |b|] && c[i - |a| - |b|] in c;
      }
    }
  }

  /** The shared list holds the Indeed records, then the Craigslist ones, then
      the Direct ones, and never more than 20 + 15 + 5 of them. */
  lemma AggregateOrder(indeed: Family<IndeedInput>, craigslist: Family<CraigslistInput>, retailers: Family<RetailerInput>)
    requires WellSized(indeed, retailers)
    ensures |Aggregate(indeed, craigslist, retailers)| <= IndeedCap + CraigslistCap + 5
    ensures RanksOrdered(Aggregate(indeed, craigslist, retailers))
  {
    PartRanks(indeed, craigslist, retailers);
    RanksConcat(IndeedPart(indeed), CraigslistPart(craigslist), RetailerPart(retailers));
  }

  const NotAllowed: Response := Response(405, Failure("Method not allowed"))

  /** `handler(req, res)`. Outside GET nothing is scraped. For GET the result
      is the envelope over the filtered, de-duplicated aggregate; since the
      aggregate never exceeds 40 records the cap of 50 is never reached, and
      `count` equals the number of jobs returned. */
  method Handler(httpMethod: string, indeed: Family<IndeedInput>, craigslist: Family<CraigslistInput>,
                 retailers: Family<RetailerInput>, now: string) returns (res: Response)
    requires WellSized(indeed, retailers)
    ensures httpMethod != "GET" ==> res == NotAllowed
    ensures httpMethod == "GET" ==> res == Envelope(FilterJobs(Dedupe(Aggregate(indeed, craigslist, retailers))), now)
    ensures httpMethod == "GET" ==> res.body.Listing? && res.body.count == |res.body.jobs| <= IndeedCap + CraigslistCap + 5
  {
    if httpMethod != "GET" {
      return NotAllowed;
    }
    var jobs: seq<Job> := [];
    match indeed {
      case Threw =>
      case Ran(rs) =>
        var found := ScrapeIndeed(SearchKeywords, SearchLocation, rs);
        jobs := jobs + found;
    }
    assert jobs == IndeedPart(indeed);
    match craigslist {
      case Threw =>
      case Ran(resp) =>
        var found := ScrapeCraigslist(SearchLocation, resp);
        jobs := jobs + found;
    }
    assert jobs == IndeedPart(indeed) + CraigslistPart(craigslist);
    match retailers {
      case Threw =>
      case Ran(rs) =>
        var found := ScrapeRetailers(Retailers, rs);
        jobs := jobs + found;
    }
    assert jobs == Aggregate(indeed, craigslist, retailers);
    AggregateOrder(indeed, craigslist, retailers);
    var unique := Dedupe(jobs);
    var filtered := FilterJobs(unique);
    res := Envelope(filtered, now);
  }
}
