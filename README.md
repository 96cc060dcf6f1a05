# Seasonal job finder — a Dafny model

The system is a small web application for a seasonal job search around
Redding, CA. A serverless endpoint, `api/scrapeJobs.js`, collects listings from
three kinds of source:

- Indeed search pages for the first two keywords;
- one Craigslist listing page;
- the careers pages of five retailers.

It then removes duplicate urls, drops hospitality listings, and answers with a
JSON envelope that holds at most 50 jobs. The browser side has four parts:

- an application tracker (`src/JobTracker.js`);
- a search configuration page (`src/SearchConfig.js`);
- an access log (`src/AccessLog.js`);
- the job finder page (`src/JobScraper.js`), which checks the user's profile
  and records an application when a job is applied for.

The model is split into these modules:

- `Common` (common.dfy): the JavaScript built-ins the source relies on, written
  over `seq<char>`. These are `trim`, `toLowerCase`, `includes`, `startsWith`
  and `Array.prototype.filter`. It also has the subsequence and distinctness
  facts used throughout.
- `Listing` (listing.dfy): the job record; duplicate removal as a JavaScript
  `Map` keyed by url (key order plus stored values); the hospitality filter; the
  response envelope.
- `ScrapeJobs` (scrape_jobs.dfy): the three scrapers and the handler.
  - The scrapers' loops are methods proved equal to specification functions.
  - Every `fetch` becomes an input: the sequence of regex matches a usable
    page yields, or `Unavailable`.
  - Each family's call is either `Threw` or `Ran` on such inputs.
- `JobTracker` (job_tracker.dfy): add, reset, delete, status update, the
  filtered view and the counters. Each is a function from the old state to the
  new one, because React's setters replace whole values.
- `SearchConfig` (search_config.dfy): the default configuration and the list
  edits.
- `AccessLog` (access_log.dfy): the bounded, newest-first log and its clearing.
- `JobScraper` (job_scraper.dfy): the profile from the environment, the
  missing-field check and the apply action. The check and the apply action are
  methods that mirror the source's `push` sequence.

Two behaviours of the code are easy to misread, and the model follows the code
as written:

- **Duplicate removal keeps the LAST record for a url, not the first.** A `Map`
  built from `[url, job]` pairs keeps each url in the position where it first
  appeared, but stores the value of its last occurrence there
  (`Listing.DedupeCharacterized`, `Listing.DedupeKeepsLastValue`).
- **`count` is the filtered length before `slice(0, 50)`.** With the sources as
  wired, the aggregate never exceeds 20 + 15 + 5 = 40 records. So the cap is
  never reached and `count` always equals the number of jobs returned
  (`ScrapeJobs.Handler`).

## Model

| member | source | states |
|---|---|---|
| ScrapeJobs.Handler | api/scrapeJobs.js:4-58 | A non-GET request gets the 405 error. A GET gets the 200 envelope over the filtered, de-duplicated aggregate of the three families. Its `count` equals the number of jobs and is at most 40. |
| ScrapeJobs.AggregateOrder | api/scrapeJobs.js:9-38 | The shared list holds the Indeed records first, then Craigslist's, then the Direct ones, and at most 40 of them. |
| ScrapeJobs.PartRanks | api/scrapeJobs.js:16-38 | A family that threw adds nothing. Otherwise Indeed adds at most 20 records, all of source Indeed; Craigslist at most 15, of source Craigslist; the retailers at most 5, of source Direct. |
| Listing.Dedupe | api/scrapeJobs.js:41-43 | The result is never longer than the input. |
| Listing.DedupeCharacterized | api/scrapeJobs.js:41-43 | The urls of the result are pairwise distinct and are exactly the input's urls. Slots come in order of first appearance. Each slot holds the last record with that url. |
| Listing.DedupeIdentity | api/scrapeJobs.js:41-43 | Records whose urls are already distinct pass through unchanged. |
| Listing.DedupeIdempotent | api/scrapeJobs.js:41-43 | De-duplicating twice is the same as once. |
| Listing.DedupeAppend | api/scrapeJobs.js:41-43 | Inserting one record: a url already seen replaces the record in that url's existing slot; a new url opens a slot at the end. |
| Listing.DedupeKeepsLastValue | api/scrapeJobs.js:41-43 | For x, y sharing a url and z with another url, the result is [y, z]. |
| Listing.Put | api/scrapeJobs.js:42 | Setting a key in the `Map` keeps it well formed. A new key goes to the end of the key order; an existing key keeps its place and only its value changes. |
| Listing.FromJobs | api/scrapeJobs.js:42 | The map built from the records is well formed and has no more keys than records. |
| Listing.FilterJobs | api/scrapeJobs.js:46-51 | A record is in the output if and only if it is in the input and passes the hospitality test. The output is never longer. |
| Listing.KeptMeansNoExcludedTerm | api/scrapeJobs.js:46-51 | The test over the excluded terms is exactly the four `includes` tests on the lower-cased description. |
| Listing.FilterJobsCharacterized | api/scrapeJobs.js:46-51 | The output is an order-keeping subsequence of the input, holds exactly the records free of the excluded terms, and filtering again changes nothing. |
| Listing.FilterKeepsUrlsDistinct | api/scrapeJobs.js:41-51 | Filtering a de-duplicated list keeps its urls distinct. |
| Listing.PipelineIdempotent | api/scrapeJobs.js:41-51 | Running duplicate removal and the filter again on their own output changes nothing. |
| Listing.HotelIsExcluded | api/scrapeJobs.js:49 | The description "Hotel Operations Associate" is dropped: lower-casing lets the capitalised term match. |
| Listing.Envelope | api/scrapeJobs.js:53-58 | The body has status 200 and success. `count` is the length before the cap. The jobs are the first min(n, 50) records. `count` equals the number of jobs if and only if there are at most 50. |
| ScrapeJobs.Resolve | api/scrapeJobs.js:91 | The url starts with "http". It is the href itself exactly when the href starts with "http"; otherwise it is the origin followed by the href. |
| ScrapeJobs.ResolveKeepsHref | api/scrapeJobs.js:91 | The href always survives whole as the suffix of the url. |
| ScrapeJobs.IndeedStep | api/scrapeJobs.js:82-105 | One keyword's turn only extends the shared list and never takes it past 20. |
| ScrapeJobs.IndeedFrom | api/scrapeJobs.js:72-109 | The keywords' turns in order extend the list and never take it past 20. |
| ScrapeJobs.PushIndeedCards | api/scrapeJobs.js:89-105 | The match loop pushes one record per match, in order, until the shared list holds 20. |
| ScrapeJobs.ScrapeIndeed | api/scrapeJobs.js:68-112 | The loop over the first two keywords returns exactly `IndeedJobs`. |
| ScrapeJobs.IndeedRecords | api/scrapeJobs.js:72-104 | At most 20 records. Each has source Indeed, type Seasonal, salary "Not specified", the given location and an absolute url, and is described by one of the searched keywords. |
| ScrapeJobs.IndeedSkipsUnavailable | api/scrapeJobs.js:82 | A keyword whose page is not usable contributes nothing: the result equals the run without that keyword. |
| ScrapeJobs.CraigslistJobs | api/scrapeJobs.js:114-156 | An unusable page gives no records. A usable one gives the first min(n, 15) matches, one record per match, in order. |
| ScrapeJobs.ScrapeCraigslist | api/scrapeJobs.js:114-156 | The method returns exactly `CraigslistJobs`. |
| ScrapeJobs.PushListings | api/scrapeJobs.js:134-150 | The counted match loop returns the first min(n, 15) records. |
| ScrapeJobs.CraigslistRecords | api/scrapeJobs.js:137-148 | Every record has company "Private Employer", type "Seasonal/Temporary", source Craigslist, the given location and an absolute url. |
| ScrapeJobs.RetailerStep | api/scrapeJobs.js:197-210 | A retailer adds at most one record. |
| ScrapeJobs.RetailerJobsFrom | api/scrapeJobs.js:189-214 | There is at most one record per retailer. |
| ScrapeJobs.ScrapeRetailers | api/scrapeJobs.js:158-217 | The loop over the retailer list returns exactly `RetailerJobsFrom`. |
| ScrapeJobs.RetailerRecords | api/scrapeJobs.js:189-214 | Exactly the retailers whose page answered contribute a record (every such retailer does, and every record comes from one), with source Direct, built from that retailer; the record urls follow the retailer list's order. |
| ScrapeJobs.RetailerListed | api/scrapeJobs.js:189-210 | For any retailer list with distinct urls, a retailer's url is among the records if and only if its careers page answered. |
| ScrapeJobs.RetailerUrlsDistinct | api/scrapeJobs.js:161-214 | The five retailer urls differ, so at most five records come out, with distinct urls, and a retailer's url is listed if and only if its page answered. |
| Common.Trim | api/scrapeJobs.js:95 | The result neither starts nor ends with white space. It is empty exactly when the input is all white space. |
| Common.TrimStartDrops | api/scrapeJobs.js:95 | Leading trimming drops exactly the leading white space. |
| Common.TrimEndDrops | api/scrapeJobs.js:95 | Trailing trimming drops exactly the trailing white space. |
| Common.TrimIdempotent | src/SearchConfig.js:40 | Trimming twice is trimming once. |
| Common.Lower | api/scrapeJobs.js:47 | Same length, each character lower-cased (ASCII). |
| Common.Filter | src/JobTracker.js:57 | An element is in the result if and only if it is in the input and kept. The result is never longer. |
| Common.FilterIsSubsequence | src/JobTracker.js:57 | The result keeps the input's order. |
| Common.FilterSnoc | src/JobTracker.js:57 | Filtering distributes over appending one element. |
| JobTracker.ResetForm | src/JobTracker.js:46-54 | Every input is back to its initial value and the list is untouched. |
| JobTracker.ResetFormIdempotent | src/JobTracker.js:46-54 | Resetting twice is resetting once. |
| JobTracker.AddApplication | src/JobTracker.js:25-44 | An empty title or company leaves everything as it was. Otherwise the new record is in front of the old list and the form is reset. |
| JobTracker.AddTwiceAddsOnce | src/JobTracker.js:25-44 | A second add right after the first changes nothing. |
| JobTracker.DeleteApplication | src/JobTracker.js:56-60 | A record stays if and only if its id differs. No record with the id is left. |
| JobTracker.DeleteIsSubsequence | src/JobTracker.js:56-60 | Deleting keeps order, and a second delete of the same id changes nothing. |
| JobTracker.DeleteAbsentId | src/JobTracker.js:56-60 | Deleting an id no record carries changes nothing. |
| JobTracker.DeleteUndoesAdd | src/JobTracker.js:25-60 | Deleting the freshly added id gives back the list from before the add. |
| JobTracker.UpdateStatus | src/JobTracker.js:62-66 | Same records in the same order. Those with the id get the new status; nothing else changes. |
| JobTracker.UpdateStatusIdempotent | src/JobTracker.js:62-66 | Updating twice is updating once. |
| JobTracker.DeleteAfterUpdate | src/JobTracker.js:56-66 | Deleting after a status change equals deleting outright. |
| JobTracker.FilteredAppsCharacterized | src/JobTracker.js:68-74 | The view is an order-keeping subsequence holding exactly the records that pass the status and the case-insensitive search test. |
| JobTracker.UnfilteredViewIsWholeList | src/JobTracker.js:68-74 | With "all" and an empty search the view is the whole list. |
| JobTracker.ComputeStats | src/JobTracker.js:76-83 | The total is the list length, and each counter is at most the total. |
| JobTracker.StatsBounded | src/JobTracker.js:76-83 | The five counters add up to no more than the total. |
| JobTracker.StatsAfterAdd | src/JobTracker.js:25-44 | A successful add raises the total and the form status's counter by one, and no other counter. |
| JobTracker.CountAfterDelete | src/JobTracker.js:56-60 | Deleting never raises a counter. |
| SearchConfig.DefaultConfig | src/SearchConfig.js:15-25 | Location Redding, CA, radius 15, the three job types, the six keywords and five companies in their order, the scraper's four excluded terms, and the default sources. |
| SearchConfig.DefaultKeywordsAreSearched | src/SearchConfig.js:20 | The default keywords are the scraper's six keywords, in another order. |
| SearchConfig.DefaultCompaniesAreRetailers | src/SearchConfig.js:22 | The default companies are the scraper's retailers, in order. |
| SearchConfig.DefaultSourcesAvailable | src/config.js:8-18 | Every default source is an available one. |
| SearchConfig.DefaultListsDistinct | src/SearchConfig.js:15-25 | No default list has duplicates. |
| SearchConfig.AddEntry | src/SearchConfig.js:39-47 | The old list is a prefix with at most one more entry, which is the trimmed input. Distinctness is preserved. The list is unchanged if and only if the trimmed input is empty or already listed. |
| SearchConfig.AddEntryIdempotent | src/SearchConfig.js:39-47 | Adding the same input twice adds it once. |
| SearchConfig.RemoveEntry | src/SearchConfig.js:49-54 | Every copy of the entry goes; the rest is an order-keeping subsequence in which every other value keeps all its copies. |
| SearchConfig.RemoveEntryIsSubsequence | src/SearchConfig.js:49-54 | Removal keeps order, and removing an absent entry changes nothing. |
| SearchConfig.RemoveEntryDistinct | src/SearchConfig.js:49-54 | Removal keeps a list duplicate-free. |
| SearchConfig.RemoveUndoesAdd | src/SearchConfig.js:39-54 | Removing a freshly added entry restores the list. |
| SearchConfig.Toggle | src/SearchConfig.js:73-89 | The entry is listed afterwards if and only if it was not before. An unlisted entry is appended. A listed one is removed in every copy, the others keep their order and their copies. |
| SearchConfig.ToggleTwice | src/SearchConfig.js:73-89 | Toggling an unlisted entry twice restores the list. |
| SearchConfig.ToggleDistinct | src/SearchConfig.js:73-89 | Toggling keeps a list duplicate-free. |
| SearchConfig.AddCompany | src/SearchConfig.js:39-47 | Only `companies` changes, via the guarded add. When the add takes effect the input is cleared; when it is refused the editor is left exactly as it was. |
| SearchConfig.RemoveCompany | src/SearchConfig.js:49-54 | Only `companies` changes, via removal. |
| SearchConfig.AddKeyword | src/SearchConfig.js:56-64 | Only `keywords` changes, via the guarded add. When the add takes effect the input is cleared; when it is refused the editor is left exactly as it was. |
| SearchConfig.RemoveKeyword | src/SearchConfig.js:66-71 | Only `keywords` changes, via removal. |
| SearchConfig.ToggleJobType | src/SearchConfig.js:73-80 | Only `jobTypes` changes. The type is listed afterwards if and only if it was not before. |
| SearchConfig.ToggleSource | src/SearchConfig.js:82-89 | Only `searchSources` changes. The source is listed afterwards if and only if it was not before. |
| SearchConfig.EditsKeepListsDistinct | src/SearchConfig.js:39-89 | Every edit keeps the configuration free of duplicates. |
| AccessLog.Substring | src/AccessLog.js:31 | The result is a prefix of length min(n, length). |
| AccessLog.NewEntry | src/AccessLog.js:27-32 | The stored user agent is a prefix of at most 50 characters, and is the whole string when it is short enough. |
| AccessLog.LogAccess | src/AccessLog.js:26-37 | The new entry comes first, the old entries follow in order, and the length is capped at 100. |
| AccessLog.LogAccessKeepsRecent | src/AccessLog.js:34 | Below 100 nothing is dropped. At 100 the oldest entry goes. |
| AccessLog.LogNewestFirst | src/AccessLog.js:34 | After a run of visits the log holds the newest visits first, up to 100. |
| AccessLog.ClearLogs | src/AccessLog.js:39-44 | A confirmed clear empties the log; a declined one leaves it as it was. |
| AccessLog.LogAfterClear | src/AccessLog.js:26-44 | The first visit after a clear is the only entry. |
| JobScraper.EnvOr | src/JobScraper.js:10-19 | An unset or empty variable yields the fallback; otherwise its value. |
| JobScraper.MissingFields | src/JobScraper.js:41-47 | A field is reported if and only if it is required and missing. |
| JobScraper.MissingFieldsCharacterized | src/JobScraper.js:41-47 | The order is Full Name, Email, Phone. Each field is reported exactly when it is empty, or for the name the placeholder "User". None is reported if and only if all three are set. |
| JobScraper.UnsetNameIsMissing | src/JobScraper.js:11 | Without a name in the environment the placeholder is used and "Full Name" is reported first. |
| JobScraper.GetMissingFields | src/JobScraper.js:41-47 | The three guarded pushes return exactly `MissingFields`. |
| JobScraper.HandleApplyJob | src/JobScraper.js:49-74 | With a field missing nothing changes. Otherwise the record is appended at the END of the stored list, the job's flag becomes "submitted", and the other flags are kept. |
| JobScraper.AppliedRecordFields | src/JobScraper.js:56-65 | The record carries the clock as id and today's date, copies the job's title, company and url, is an online application in status "applied", and its notes read "Found on <source> - <type>". |
| JobScraper.AppliedShowsInStats | src/JobScraper.js:56-69 | In the tracker an apply raises the "applied" counter by one and no other. |

## Left out

- Network access: every `fetch` is an input. A non-ok status and a thrown request are the same `Unavailable` case, because every call site treats them alike.
- Regular expressions: each HTML page is the sequence of matches its regex yields, with the capture groups already extracted. The regexes themselves are not modelled.
- The 500 branch of the handler is left out: with every fetch and every scraper failure caught inside, nothing left in the modelled code can throw.
- Console logging, `alert`, `window.confirm` (its answer is an input of `ClearLogs`), `window.open`, `setTimeout` and all rendering are left out.
- `Date.now()`, `Math.random()`, `toISOString()`, `toLocaleDateString()` and `toLocaleString()` become strings and integers passed in. Their formats are not modelled.
- `localStorage` and JSON are left out. Each component's state is a value. `HandleApplyJob` takes the stored list already parsed, with an absent store read as empty.
- `Common.Lower`: folds ASCII letters only, not the full Unicode case mapping of `toLowerCase`.
- Strings are sequences of code points, not UTF-16 units, so `substring(0, 50)` cuts after 50 code points.
- The location lookup through ipapi.co in `src/AccessLog.js` is an input string.
- `saveConfig`, `resetConfig` and the `parseInt` of the radius input are persistence and UI parsing; only `getDefaultConfig` and the list edits are modelled.
- Loading configuration and applications from storage on first render is left out.
- `searchJobs` in `src/JobScraper.js` only forwards the endpoint's response to the page and is left out.
- The `keywords` parameter of `scrapeCraigslist` is unused by the source and is not modelled.
- `ScrapeJobs.ScrapeRetailers`: takes the retailer list as a parameter; the handler passes the fixed five-retailer list.
- src/App.js (password gate, navigation) and `APP_PASSWORD` in src/config.js are not part of this model.
