/** The search configuration page: the default configuration and the list
    edits. Every edit returns a copy of the configuration (`...prev`) in
    which only its own list differs. */
module SearchConfig {
  import opened Common
  import Listing
  import ScrapeJobs

  datatype Config = Config(
    location: string,
    radius: int,
    jobTypes: seq<string>,
    keywords: seq<string>,
    excludeKeywords: seq<string>,
    companies: seq<string>,
    searchSources: seq<string>)

  /** The configuration together with the two text inputs of the page. */
  datatype Editor = Editor(config: Config, newCompany: string, newKeyword: string)

  /** The sources a configuration may name, and those enabled by default. */
  const AvailableSearchSources: seq<string> := ["Indeed", "Craigslist", "Direct", "LinkedIn", "Facebook Jobs", "ziprecruiter"]
  const DefaultSearchSources: seq<string> := ["Indeed", "Craigslist", "Direct"]

  /** `getDefaultConfig()`. */
  function DefaultConfig(): (c: Config)
    ensures c.location == ScrapeJobs.SearchLocation && c.radius == 15
    ensures c.excludeKeywords == Listing.ExcludedTerms
    ensures c.searchSources == DefaultSearchSources
    ensures c.jobTypes == ["Seasonal", "Temporary", "Part-time"]
    ensures c.keywords == ["seasonal", "temporary", "part-time", "retail", "warehouse", "holiday"]
    ensures c.companies == ["Amazon", "Costco", "Lowe's", "Home Depot", "Dicks Sporting Goods"]
  {
    Config("Redding, CA", 15,
           ["Seasonal", "Temporary", "Part-time"],
           ["seasonal", "temporary", "part-time", "retail", "warehouse", "holiday"],
           ["hospitality", "restaurant", "hotel", "food service"],
           ["Amazon", "Costco", "Lowe's", "Home Depot", "Dicks Sporting Goods"],
           DefaultSearchSources)
  }

  /** The default keywords are the ones the scraper searches, in another
      order. */
  lemma DefaultKeywordsAreSearched()
    ensures multiset(DefaultConfig().keywords) == multiset(ScrapeJobs.SearchKeywords)
  {
    var head, tail := ["seasonal", "temporary", "part-time"], ["retail", "warehouse", "holiday"];
    assert DefaultConfig().keywords == head + tail;
    assert ScrapeJobs.SearchKeywords == head + [tail[2], tail[1], tail[0]];
    ReversedThree(tail);
  }

  lemma ReversedThree<T>(s: seq<T>)
    requires |s| == 3
    ensures multiset([s[2], s[1], s[0]]) == multiset(s)
  {
    assert s == [s[0], s[1], s[2]];
  }

  /** The default companies are the retailers the scraper visits, in its
      order. */
  lemma DefaultCompaniesAreRetailers()
    ensures |DefaultConfig().companies| == |ScrapeJobs.Retailers|
    ensures forall i :: 0 <= i < |ScrapeJobs.Retailers| ==> DefaultConfig().companies[i] == ScrapeJobs.Retailers[i].name
  {
  }

  /** Only available sources are enabled by default. */
  lemma DefaultSourcesAvailable()
    ensures forall s :: s in DefaultConfig().searchSources ==> s in AvailableSearchSources
  {
    assert DefaultSearchSources == AvailableSearchSources[..3];
  }

  /** The guarded append behind `addCompany` and `addKeyword`: the trimmed
      input goes at the end when it is non-empty and not yet listed. */
  function AddEntry(xs: seq<string>, input: string): (r: seq<string>)
    ensures xs <= r && |r| <= |xs| + 1
    ensures forall x :: x in r <==> x in xs || (x == Trim(input) && x != [])
    ensures Distinct(xs) ==> Distinct(r)
    ensures r == xs <==> Trim(input) == [] || Trim(input) in xs
  {
    var t := Trim(input);
    if t != [] && t !in xs then
      assert forall i :: 0 <= i < |xs| ==> (xs + [t])[i] == xs[i];
      xs + [t]
    else xs
  }

  /** Adding the same entry twice adds it once. */
  lemma AddEntryIdempotent(xs: seq<string>, input: string)
    ensures AddEntry(AddEntry(xs, input), input) == AddEntry(xs, input)
  {
    var r := AddEntry(xs, input);
    assert Trim(input) != [] ==> Trim(input) in r;
  }

  /** The filter behind `removeCompany` and `removeKeyword`: every entry equal
      to `x` goes, the others keep their order. */
  function RemoveEntry(xs: seq<string>, x: string): (r: seq<string>)
    ensures x !in r
    ensures forall y :: y in r <==> y in xs && y != x
    ensures |r| <= |xs|
    ensures IsSubsequence(r, xs)
    ensures forall y :: multiset(r)[y] == if y == x then 0 else multiset(xs)[y]
  {
    var keep := (y: string) => y != x;
    FilterIsSubsequence(xs, keep);
    forall y ensures multiset(Filter(xs, keep))[y] == if y == x then 0 else multiset(xs)[y] {
      FilterMultiset(xs, keep, y);
    }
    Filter(xs, keep)
  }

  lemma RemoveEntryIsSubsequence(xs: seq<string>, x: string)
    ensures IsSubsequence(RemoveEntry(xs, x), xs)
    ensures x !in xs ==> RemoveEntry(xs, x) == xs
  {
    FilterIsSubsequence(xs, (y: string) => y != x);
    if x !in xs {
      FilterKeepsAll(xs, (y: string) => y != x);
    }
  }

  /** Removing an entry keeps a duplicate-free list duplicate-free. */
  lemma RemoveEntryDistinct(xs: seq<string>, x: string)
    requires Distinct(xs)
    ensures Distinct(RemoveEntry(xs, x))
  {
    RemoveEntryIsSubsequence(xs, x);
    SubsequenceDistinct(RemoveEntry(xs, x), xs);
  }

  /** Adding an entry that was not listed and removing it again restores
      the list. */
  lemma RemoveUndoesAdd(xs: seq<string>, input: string)
    requires Trim(input) !in xs
    ensures RemoveEntry(AddEntry(xs, input), Trim(input)) == xs
  {
    var t := Trim(input);
    RemoveEntryIsSubsequence(xs, t);
    if t != [] {
      FilterSnoc(xs, t, (y: string) => y != t);
    }
  }

  /** The conditional behind `toggleJobType` and `toggleSource`: a listed
      entry is removed everywhere, an unlisted one is appended. */
  function Toggle(xs: seq<string>, x: string): (r: seq<string>)
    ensures x in r <==> x !in xs
    ensures forall y :: y != x ==> (y in r <==> y in xs)
    ensures x !in xs ==> r == xs + [x]
    ensures x in xs ==> IsSubsequence(r, xs) &&
                        forall y :: multiset(r)[y] == if y == x then 0 else multiset(xs)[y]
  {
    if x in xs then RemoveEntry(xs, x) else xs + [x]
  }

  /** Toggling an unlisted entry twice gives back the original list. */
  lemma ToggleTwice(xs: seq<string>, x: string)
    requires x !in xs
    ensures Toggle(Toggle(xs, x), x) == xs
  {
    assert x in xs + [x];
    FilterSnoc(xs, x, (y: string) => y != x);
    RemoveEntryIsSubsequence(xs, x);
  }

  /** Toggling keeps a duplicate-free list duplicate-free. */
  lemma ToggleDistinct(xs: seq<string>, x: string)
    requires Distinct(xs)
    ensures Distinct(Toggle(xs, x))
  {
    if x in xs {
      RemoveEntryDistinct(xs, x);
    } else {
      var r := xs + [x];
      assert forall i :: 0 <= i < |xs| ==> r[i] == xs[i];
    }
  }

  /** `addCompany`: on success the trimmed name is appended and the input is
      cleared; otherwise nothing changes. Only `companies` can change. */
  function AddCompany(e: Editor): (r: Editor)
    ensures r.config == e.config.(companies := AddEntry(e.config.companies, e.newCompany))
    ensures r.newKeyword == e.newKeyword
    ensures AddEntry(e.config.companies, e.newCompany) == e.config.companies ==> r == e
    ensures AddEntry(e.config.companies, e.newCompany) != e.config.companies ==> r.newCompany == ""
  {
    var c := AddEntry(e.config.companies, e.newCompany);
    if c == e.config.companies then e
    else Editor(e.config.(companies := c), "", e.newKeyword)
  }

  function RemoveCompany(e: Editor, company: string): (r: Editor)
    ensures r.config == e.config.(companies := RemoveEntry(e.config.companies, company))
    ensures r.newCompany == e.newCompany && r.newKeyword == e.newKeyword
  {
    e.(config := e.config.(companies := RemoveEntry(e.config.companies, company)))
  }

  /** `addKeyword`, the same rule on `keywords`. */
  function AddKeyword(e: Editor): (r: Editor)
    ensures r.config == e.config.(keywords := AddEntry(e.config.keywords, e.newKeyword))
    ensures r.newCompany == e.newCompany
    ensures AddEntry(e.config.keywords, e.newKeyword) == e.config.keywords ==> r == e
    ensures AddEntry(e.config.keywords, e.newKeyword) != e.config.keywords ==> r.newKeyword == ""
  {
    var k := AddEntry(e.config.keywords, e.newKeyword);
    if k == e.config.keywords then e
    else Editor(e.config.(keywords := k), e.newCompany, "")
  }

  function RemoveKeyword(e: Editor, keyword: string): (r: Editor)
    ensures r.config == e.config.(keywords := RemoveEntry(e.config.keywords, keyword))
    ensures r.newCompany == e.newCompany && r.newKeyword == e.newKeyword
  {
    e.(config := e.config.(keywords := RemoveEntry(e.config.keywords, keyword)))
  }

  function ToggleJobType(c: Config, jobType: string): (r: Config)
    ensures r == c.(jobTypes := Toggle(c.jobTypes, jobType))
    ensures jobType in r.jobTypes <==> jobType !in c.jobTypes
  {
    c.(jobTypes := Toggle(c.jobTypes, jobType))
  }

  function ToggleSource(c: Config, source: string): (r: Config)
    ensures r == c.(searchSources := Toggle(c.searchSources, source))
    ensures source in r.searchSources <==> source !in c.searchSources
  {
    c.(searchSources := Toggle(c.searchSources, source))
  }

  /** No list of the configuration holds the same entry twice. */
  predicate ListsDistinct(c: Config) {
    Distinct(c.jobTypes) && Distinct(c.keywords) && Distinct(c.companies) && Distinct(c.searchSources)
  }

  lemma DefaultListsDistinct()
    ensures ListsDistinct(DefaultConfig())
  {
    var c := DefaultConfig();
    assert c.jobTypes == ["Seasonal", "Temporary", "Part-time"];
    assert c.searchSources == ["Indeed", "Craigslist", "Direct"];
    assert c.companies[2] == "Lowe's" && c.companies[3] == "Home Depot";
  }

  /** Every edit keeps the configuration free of duplicates. */
  lemma EditsKeepListsDistinct(e: Editor, x: string)
    requires ListsDistinct(e.config)
    ensures ListsDistinct(AddCompany(e).config) && ListsDistinct(AddKeyword(e).config)
    ensures ListsDistinct(RemoveCompany(e, x).config) && ListsDistinct(RemoveKeyword(e, x).config)
    ensures ListsDistinct(ToggleJobType(e.config, x)) && ListsDistinct(ToggleSource(e.config, x))
  {
    RemoveEntryDistinct(e.config.companies, x);
    RemoveEntryDistinct(e.config.keywords, x);
    ToggleDistinct(e.config.jobTypes, x);
    ToggleDistinct(e.config.searchSources, x);
  }
}
