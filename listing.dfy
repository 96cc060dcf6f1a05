/** The pure half of the scraping endpoint: the job record that flows through
    the pipeline, duplicate removal by url (a JavaScript `Map` keyed by url),
    the hospitality filter, and the response envelope with its cap of 50. */
module Listing {
  import opened Common

  /** One normalised listing as the scrapers build it. */
  datatype Job = Job(
    id: string,
    title: string,
    company: string,
    location: string,
    jobType: string,
    url: string,
    source: string,
    salary: string,
    description: string,
    postedDate: string)

  function Urls(jobs: seq<Job>): (r: seq<string>)
    ensures |r| == |jobs|
    ensures forall i :: 0 <= i < |jobs| ==> r[i] == jobs[i].url
  {
    seq(|jobs|, i requires 0 <= i < |jobs| => jobs[i].url)
  }

  /** Position of the first record whose url is `u`. */
  function FirstIndex(jobs: seq<Job>, u: string): (r: nat)
    requires u in Urls(jobs)
    ensures r < |jobs| && jobs[r].url == u
    ensures forall k :: 0 <= k < r ==> jobs[k].url != u
  {
    if jobs[0].url == u then 0
    else
      assert Urls(jobs[1..]) == Urls(jobs)[1..];
      1 + FirstIndex(jobs[1..], u)
  }

  /** Position of the last record whose url is `u`. */
  function LastIndex(jobs: seq<Job>, u: string): (r: nat)
    requires u in Urls(jobs)
    ensures r < |jobs| && jobs[r].url == u
    ensures forall k :: r < k < |jobs| ==> jobs[k].url != u
  {
    var n := |jobs| - 1;
    if jobs[n].url == u then n
    else
      assert Urls(jobs[..n]) == Urls(jobs)[..n];
      LastIndex(jobs[..n], u)
  }

  lemma UrlsAppend(p: seq<Job>, j: Job)
    ensures Urls(p + [j]) == Urls(p) + [j.url]
  {
  }

  lemma UrlsConcat(p: seq<Job>, q: seq<Job>)
    ensures Urls(p + q) == Urls(p) + Urls(q)
  {
  }

  lemma FirstIndexInPrefix(p: seq<Job>, j: Job, u: string)
    requires u in Urls(p)
    ensures u in Urls(p + [j]) && FirstIndex(p + [j], u) == FirstIndex(p, u)
  {
    var s := p + [j];
    UrlsAppend(p, j);
    var a, b := FirstIndex(s, u), FirstIndex(p, u);
    assert s[b] == p[b];
    assert forall k :: 0 <= k < |p| ==> s[k] == p[k];
  }

  lemma FirstIndexOfNew(p: seq<Job>, j: Job)
    requires j.url !in Urls(p)
    ensures j.url in Urls(p + [j]) && FirstIndex(p + [j], j.url) == |p|
  {
    var s := p + [j];
    UrlsAppend(p, j);
    var a := FirstIndex(s, j.url);
    assert forall k :: 0 <= k < |p| ==> Urls(p)[k] == s[k].url;
  }

  /** A JavaScript `Map` from url to record: the keys in order of first
      insertion and the value currently stored under each key. */
  datatype UrlMap = UrlMap(keys: seq<string>, values: map<string, Job>)

  ghost predicate WellFormed(m: UrlMap) {
    Distinct(m.keys) && forall k :: k in m.values <==> k in m.keys
  }

  /** `m.set(key, job)`: a new key goes to the end of the key order; a key
      already present keeps its place and only its value is replaced. */
  function Put(m: UrlMap, key: string, job: Job): (r: UrlMap)
    requires WellFormed(m)
    ensures WellFormed(r)
    ensures r.values == m.values[key := job]
    ensures key in m.values ==> r.keys == m.keys
    ensures key !in m.values ==> r.keys == m.keys + [key]
  {
    if key in m.values then UrlMap(m.keys, m.values[key := job])
    else UrlMap(m.keys + [key], m.values[key := job])
  }

  /** `new Map(jobs.map(job => [job.url, job]))`: the records inserted one
      after the other, each under its url. */
  function FromJobs(jobs: seq<Job>): (m: UrlMap)
    ensures WellFormed(m)
    ensures |m.keys| <= |jobs|
    decreases |jobs|
  {
    if jobs == [] then UrlMap([], map[])
    else
      var last := jobs[|jobs| - 1];
      Put(FromJobs(jobs[..|jobs| - 1]), last.url, last)
  }

  /** `Array.from(m.values())`: the values in key order. */
  function MapValues(m: UrlMap): (r: seq<Job>)
    requires WellFormed(m)
    ensures |r| == |m.keys|
    ensures forall i :: 0 <= i < |r| ==> r[i] == m.values[m.keys[i]]
  {
    seq(|m.keys|, i requires 0 <= i < |m.keys| => m.values[m.keys[i]])
  }

  /** Duplicate removal at api/scrapeJobs.js:41-43. */
  function Dedupe(jobs: seq<Job>): (r: seq<Job>)
    ensures |r| <= |jobs|
  {
    MapValues(FromJobs(jobs))
  }

  /** The keys of the map are exactly the urls of the records inserted. */
  lemma {:induction false} FromJobsKeys(jobs: seq<Job>)
    ensures forall u :: u in FromJobs(jobs).values <==> u in Urls(jobs)
    decreases |jobs|
  {
    if jobs != [] {
      var n := |jobs| - 1;
      FromJobsKeys(jobs[..n]);
      assert jobs == jobs[..n] + [jobs[n]];
      UrlsAppend(jobs[..n], jobs[n]);
    }
  }

  /** Each key is bound to the last record that carries it. */
  lemma {:induction false} FromJobsValues(jobs: seq<Job>)
    ensures forall u :: u in Urls(jobs) ==> u in FromJobs(jobs).values && FromJobs(jobs).values[u] == jobs[LastIndex(jobs, u)]
    decreases |jobs|
  {
    FromJobsKeys(jobs);
    if jobs != [] {
      var n := |jobs| - 1;
      var p, j := jobs[..n], jobs[n];
      FromJobsValues(p);
      assert jobs == p + [j];
      UrlsAppend(p, j);
      forall u | u in Urls(jobs)
        ensures FromJobs(jobs).values[u] == jobs[LastIndex(jobs, u)]
      {
        if u != j.url {
          assert u in Urls(p);
        }
      }
    }
  }

  /** The keys of `m` are urls of `jobs`, ordered by where each first appeared. */
  ghost predicate KeysInFirstOrder(m: UrlMap, jobs: seq<Job>) {
    (forall k :: k in m.keys ==> k in Urls(jobs)) &&
    forall i, k :: 0 <= i < k < |m.keys| ==>
      FirstIndex(jobs, m.keys[i]) < FirstIndex(jobs, m.keys[k])
  }

  lemma OrderStep(m0: UrlMap, p: seq<Job>, j: Job)
    requires WellFormed(m0) && KeysInFirstOrder(m0, p)
    requires forall u :: u in m0.values <==> u in Urls(p)
    ensures KeysInFirstOrder(Put(m0, j.url, j), p + [j])
  {
    var s, m := p + [j], Put(m0, j.url, j);
    UrlsAppend(p, j);
    forall u | u in Urls(p)
      ensures FirstIndex(s, u) == FirstIndex(p, u)
    {
      FirstIndexInPrefix(p, j, u);
    }
    if j.url !in Urls(p) {
      OrderStepNew(m0, p, j);
    }
  }

  /** The case where the url is new: it lands last, after every older key. */
  lemma OrderStepNew(m0: UrlMap, p: seq<Job>, j: Job)
    requires WellFormed(m0) && KeysInFirstOrder(m0, p)
    requires forall u :: u in m0.values <==> u in Urls(p)
    requires j.url !in Urls(p)
    requires forall u :: u in Urls(p) ==> u in Urls(p + [j]) && FirstIndex(p + [j], u) == FirstIndex(p, u)
    ensures KeysInFirstOrder(Put(m0, j.url, j), p + [j])
  {
    var s, m := p + [j], Put(m0, j.url, j);
    UrlsAppend(p, j);
    FirstIndexOfNew(p, j);
    assert m.keys == m0.keys + [j.url];
    forall i, k | 0 <= i < k < |m.keys|
      ensures FirstIndex(s, m.keys[i]) < FirstIndex(s, m.keys[k])
    {
      var u := m0.keys[i];
      assert m.keys[i] == u && u in Urls(p);
      assert FirstIndex(s, u) == FirstIndex(p, u) < |p|;
      if k < |m0.keys| {
        assert m.keys[k] == m0.keys[k];
      } else {
        assert m.keys[k] == j.url;
      }
    }
  }

  /** The keys are ordered by where each url first appeared. */
  lemma {:induction false} FromJobsOrder(jobs: seq<Job>)
    ensures KeysInFirstOrder(FromJobs(jobs), jobs)
    decreases |jobs|
  {
    if jobs != [] {
      var n := |jobs| - 1;
      var p, j := jobs[..n], jobs[n];
      FromJobsOrder(p);
      FromJobsKeys(p);
      assert jobs == p + [j];
      OrderStep(FromJobs(p), p, j);
    }
  }

  lemma DedupeUrlsAreKeys(jobs: seq<Job>)
    ensures Urls(Dedupe(jobs)) == FromJobs(jobs).keys
  {
    FromJobsOrder(jobs);
    FromJobsValues(jobs);
    var m := FromJobs(jobs);
    forall i | 0 <= i < |m.keys|
      ensures Dedupe(jobs)[i].url == m.keys[i]
    {
      assert m.keys[i] in m.values;
    }
  }

  /** The four facts that pin down the output of the `Map` construction:
      urls pairwise distinct, the same urls as the input, slots in order of
      first appearance, and each slot holding the LAST record with its url. */
  lemma DedupeCharacterized(jobs: seq<Job>)
    ensures Distinct(Urls(Dedupe(jobs)))
    ensures forall u :: u in Urls(Dedupe(jobs)) <==> u in Urls(jobs)
    ensures forall i, k :: 0 <= i < k < |Dedupe(jobs)| ==>
              FirstIndex(jobs, Dedupe(jobs)[i].url) < FirstIndex(jobs, Dedupe(jobs)[k].url)
    ensures forall i :: 0 <= i < |Dedupe(jobs)| ==>
              Dedupe(jobs)[i] == jobs[LastIndex(jobs, Dedupe(jobs)[i].url)]
  {
    FromJobsKeys(jobs);
    FromJobsValues(jobs);
    FromJobsOrder(jobs);
    DedupeUrlsAreKeys(jobs);
    var m, d := FromJobs(jobs), Dedupe(jobs);
    forall i | 0 <= i < |d|
      ensures d[i] == jobs[LastIndex(jobs, d[i].url)]
    {
      assert d[i].url == m.keys[i];
      assert m.keys[i] in m.values;
    }
  }

  lemma {:induction false} FromJobsDistinct(jobs: seq<Job>)
    requires Distinct(Urls(jobs))
    ensures FromJobs(jobs).keys == Urls(jobs)
    ensures forall i :: 0 <= i < |jobs| ==> FromJobs(jobs).values[jobs[i].url] == jobs[i]
    decreases |jobs|
  {
    if jobs != [] {
      var n := |jobs| - 1;
      var p, j := jobs[..n], jobs[n];
      assert jobs == p + [j];
      UrlsAppend(p, j);
      DistinctSnoc(Urls(p), j.url);
      FromJobsDistinct(p);
      var m0 := FromJobs(p);
      assert FromJobs(jobs) == Put(m0, j.url, j);
      forall i | 0 <= i < n
        ensures FromJobs(jobs).values[jobs[i].url] == jobs[i]
      {
        assert jobs[i] == p[i] && Urls(p)[i] == p[i].url;
      }
    }
  }

  /** Records whose urls are already distinct pass through unchanged. */
  lemma DedupeIdentity(jobs: seq<Job>)
    requires Distinct(Urls(jobs))
    ensures Dedupe(jobs) == jobs
  {
    FromJobsDistinct(jobs);
  }

  lemma DedupeIdempotent(jobs: seq<Job>)
    ensures Dedupe(Dedupe(jobs)) == Dedupe(jobs)
  {
    DedupeCharacterized(jobs);
    DedupeIdentity(Dedupe(jobs));
  }

  /** Inserting one more record: a url seen before overwrites the record in
      the slot that url already holds; a new url opens a slot at the end. */
  lemma DedupeAppend(p: seq<Job>, j: Job)
    ensures j.url in Urls(p) ==> |Dedupe(p + [j])| == |Dedupe(p)|
    ensures j.url in Urls(p) ==> forall i :: 0 <= i < |Dedupe(p)| ==>
              Dedupe(p + [j])[i] == if Dedupe(p)[i].url == j.url then j else Dedupe(p)[i]
    ensures j.url !in Urls(p) ==> Dedupe(p + [j]) == Dedupe(p) + [j]
  {
    var s := p + [j];
    assert s[..|s| - 1] == p;
    FromJobsKeys(p);
    DedupeUrlsAreKeys(p);
    PutValues(FromJobs(p), j);
  }

  lemma PutValues(m: UrlMap, j: Job)
    requires WellFormed(m)
    ensures j.url in m.values ==> |MapValues(Put(m, j.url, j))| == |MapValues(m)|
    ensures j.url in m.values ==> forall i :: 0 <= i < |MapValues(m)| ==>
              MapValues(Put(m, j.url, j))[i] == if m.keys[i] == j.url then j else MapValues(m)[i]
    ensures j.url !in m.values ==> MapValues(Put(m, j.url, j)) == MapValues(m) + [j]
  {
  }

  /** The first two records share a url and the third has another: the `Map`
      keeps the second record, in the slot where the shared url first
      appeared. */
  lemma DedupeKeepsLastValue(x: Job, y: Job, z: Job)
    requires x.url == y.url && z.url != x.url
    ensures Dedupe([x, y, z]) == [y, z]
  {
    var p1 := [x];
    var p2 := p1 + [y];
    var p3 := p2 + [z];
    assert Urls(p1) == [x.url];
    DedupeIdentity(p1);
    DedupeAppend(p1, y);
    var d2 := Dedupe(p2);
    assert d2 == [y] by {
      assert |d2| == 1 && d2[0] == y;
    }
    assert z.url !in Urls(p2) by {
      assert Urls(p2) == [x.url, y.url];
    }
    DedupeAppend(p2, z);
    assert p3 == [x, y, z];
  }

  /** The hospitality terms of api/scrapeJobs.js:46-51. */
  const ExcludedTerms: seq<string> := ["hospitality", "restaurant", "hotel", "food service"]

  /** The predicate handed to `filter`: the lower-cased description contains
      none of the excluded terms. */
  predicate Kept(job: Job) {
    forall t :: t in ExcludedTerms ==> !Contains(Lower(job.description), t)
  }

  /** The predicate is the four `includes` tests of the source, one per term. */
  lemma KeptMeansNoExcludedTerm(job: Job)
    ensures Kept(job) <==>
              var d := Lower(job.description);
              !Contains(d, "hospitality") && !Contains(d, "restaurant") &&
              !Contains(d, "hotel") && !Contains(d, "food service")
  {
    assert ExcludedTerms[0] == "hospitality" && ExcludedTerms[1] == "restaurant";
    assert ExcludedTerms[2] == "hotel" && ExcludedTerms[3] == "food service";
  }

  /** `uniqueJobs.filter(...)`. */
  function FilterJobs(jobs: seq<Job>): (r: seq<Job>)
    ensures |r| <= |jobs|
    ensures forall j :: j in r <==> j in jobs && Kept(j)
  {
    Filter(jobs, Kept)
  }

  /** The filter keeps, in order, exactly the records whose lower-cased
      description contains none of the excluded terms, and is idempotent. */
  lemma FilterJobsCharacterized(jobs: seq<Job>)
    ensures IsSubsequence(FilterJobs(jobs), jobs)
    ensures forall j :: j in FilterJobs(jobs) <==>
              j in jobs && !Contains(Lower(j.description), "hospitality") &&
              !Contains(Lower(j.description), "restaurant") && !Contains(Lower(j.description), "hotel") &&
              !Contains(Lower(j.description), "food service")
    ensures FilterJobs(FilterJobs(jobs)) == FilterJobs(jobs)
  {
    FilterIsSubsequence(jobs, Kept);
    FilterIdempotent(jobs, Kept);
    forall j | j in jobs {
      KeptMeansNoExcludedTerm(j);
    }
  }

  /** Leaving records out leaves their urls out, order kept. */
  lemma {:induction false} SubsequenceUrls(a: seq<Job>, b: seq<Job>)
    requires IsSubsequence(a, b)
    ensures IsSubsequence(Urls(a), Urls(b))
    decreases |b|
  {
    if a != [] {
      assert Urls(a)[1..] == Urls(a[1..]) && Urls(b)[1..] == Urls(b[1..]);
      if a[0] == b[0] {
        SubsequenceUrls(a[1..], b[1..]);
      } else {
        SubsequenceUrls(a, b[1..]);
        if a[0].url == b[0].url {
          SubsequenceTail(Urls(a), Urls(b[1..]));
        }
      }
    }
  }

  lemma FilterKeepsUrlsDistinct(jobs: seq<Job>)
    requires Distinct(Urls(jobs))
    ensures Distinct(Urls(FilterJobs(jobs)))
  {
    FilterIsSubsequence(jobs, Kept);
    SubsequenceUrls(FilterJobs(jobs), jobs);
    SubsequenceDistinct(Urls(FilterJobs(jobs)), Urls(jobs));
  }

  /** Running duplicate removal and the filter again on their own output
      changes nothing. */
  lemma PipelineIdempotent(jobs: seq<Job>)
    ensures FilterJobs(Dedupe(FilterJobs(Dedupe(jobs)))) == FilterJobs(Dedupe(jobs))
  {
    var once := FilterJobs(Dedupe(jobs));
    DedupeCharacterized(jobs);
    FilterKeepsUrlsDistinct(Dedupe(jobs));
    DedupeIdentity(once);
    FilterIdempotent(Dedupe(jobs), Kept);
  }

  /** A description mentioning "Hotel Operations Associate" is filtered out. */
  lemma HotelIsExcluded(job: Job)
    requires job.description == "Hotel Operations Associate"
    ensures !Kept(job)
  {
    var d := Lower(job.description);
    assert d[..5] == "hotel";
    KeptMeansNoExcludedTerm(job);
  }

  /** Largest number of records the response carries. */
  const MaxJobs: nat := 50

  datatype Body =
    | Failure(error: string)
    | Listing(success: bool, count: nat, jobs: seq<Job>, timestamp: string)

  datatype Response = Response(status: int, body: Body)

  /** The 200 response of api/scrapeJobs.js:53-58. `count` is the length of
      the filtered list BEFORE `slice(0, 50)`. */
  function Envelope(filtered: seq<Job>, timestamp: string): (r: Response)
    ensures r.status == 200 && r.body.Listing? && r.body.success
    ensures r.body.count == |filtered|
    ensures |r.body.jobs| == Min(|filtered|, MaxJobs) && r.body.jobs <= filtered
    ensures r.body.count == |r.body.jobs| <==> |filtered| <= MaxJobs
    ensures r.body.timestamp == timestamp
  {
    Response(200, Listing(true, |filtered|, filtered[..Min(|filtered|, MaxJobs)], timestamp))
  }
}
