# ai4news core, modelled in Dafny

ai4news collects LinkedIn posts from a list of followed targets (people,
companies and hashtags) for a weekly newsletter. This project models the
parts of it that decide what gets stored and how:

- **Identity** (`Identity.dfy`). This covers `build_activity_url`,
  `extract_linkedin_id_from_url` (the leftmost `urn:li:activity:` followed by
  its longest run of digits), and the choice between a post's `data-urn`
  attribute and its permalink. It also covers the default
  `https://www.linkedin.com/feed/update/<id>` permalink.
- **Extraction** (`Extraction.dfy`). This is the element loop of
  `_extract_posts_from_page`: what each element yields, including the
  elements it skips.
- **Config** (`Config.dfy`). This is the validation in `load_targets`: every
  record's type must be one of `person`, `company` and `hashtag`, and the
  first invalid type is reported.
- **Storage** (`Storage.dfy`). The SQLite `Database` is a class with three
  tables as fields. The schema's UNIQUE and REFERENCES constraints form its
  invariant `Valid()`. The class gives `upsert_target`, `remove_target`,
  `list_targets`, `insert_post`, `get_new_posts` and `record_newsletter`.
- **Scrape** (`Scrape.dfy`). This is the loop of `scrape_all_targets`. Each
  target is registered and its page is visited. The page's posts are then
  inserted, or its failure message is logged and the loop goes on. The loop
  keeps a running count of the extracted posts and the new posts.
- **Server** (`Server.dfy`). These are the `add_target` and `remove_target`
  tools, which keep the database registry and the editable targets file
  (the mirror) in step. It also covers the log entry written by
  `generate_newsletter`.

The browser is not modelled. A scrape is given, for each target, either the
post elements found on its page (what the selector queries return for each)
or the message of the exception that loading or scrolling it raised. The mirror file is given as its parsed document, and the tools
hand back the document as the file stands afterwards. The clock is given as
integers: `now` is the `scraped_at` stamp and `cutoff` is the bound of
`get_new_posts`.

Two details where a reader might expect otherwise; the model follows the code:

- Targets are keyed by their url exactly as given. `upsert_target` does
  not normalise trailing slashes, so `…/in/x` and `…/in/x/` are two targets.
- Only `build_activity_url` strips slashes, and it strips every trailing
  `/`, not just one.

## Model

| member | source | states |
|---|---|---|
| Identity.BuildActivityUrl | src/ai4news/scraper.py:21-28 | definition; `ActivityUrlShape` and the examples below state its results |
| Identity.RStripSlash | src/ai4news/scraper.py:22 | the result is a prefix of the input with no trailing '/', and everything cut off is '/' |
| Identity.RStripSlashUnique | src/ai4news/scraper.py:22 | the cut point of `rstrip("/")` is unique: any prefix without a trailing '/' followed only by slashes is the result |
| Identity.ActivityUrlShape | src/ai4news/scraper.py:21-28 | a person's page is the stripped url + "/recent-activity/all/", a company's + "/posts/", any other type the stripped url itself |
| Identity.ActivityUrlIgnoresTrailingSlash | src/ai4news/scraper.py:22-28 | appending '/' to a base url never changes its activity URL |
| Identity.ActivityUrlPersonExample | tests/test_scraper.py:8-12 | the person example gives ".../satyanadella/recent-activity/all/" |
| Identity.ActivityUrlCompanyExample | tests/test_scraper.py:15-19 | the company example gives ".../openai/posts/" |
| Identity.ActivityUrlHashtagExample | tests/test_scraper.py:22-26 | the hashtag url is returned unchanged |
| Identity.ActivityUrlTrailingSlashExample | tests/test_scraper.py:29-33 | the person url written with a trailing '/' gives the same page |
| Identity.ExtractLinkedinId | src/ai4news/scraper.py:31-33 | definition; the lemmas below characterise its result in both directions |
| Identity.FindMatchSpec | src/ai4news/scraper.py:32 | the search finds a match with no match before it, or reports none only when there is none |
| Identity.DigitRunSpec | src/ai4news/scraper.py:32 | `\d+` covers only digits and stops at the first non-digit |
| Identity.ExtractFindsAnyMatch | src/ai4news/scraper.py:31-33 | an id is returned exactly when the pattern occurs somewhere in the url |
| Identity.ExtractIsActivityId | src/ai4news/scraper.py:31-33 | a returned id is "urn:li:activity:" followed by one or more digits |
| Identity.ExtractIsMatchText | src/ai4news/scraper.py:31-33 | a returned id is the text of the leftmost match with its longest digit run |
| Identity.ExtractedIdIsLeftmostMaximal | src/ai4news/scraper.py:31-33 | conversely, the leftmost longest match determines the returned id |
| Identity.ExtractIgnoresQuery | src/ai4news/scraper.py:31-33 | a '?' query appended to a url holding an id does not change the id |
| Identity.ResolveId | src/ai4news/scraper.py:64-70 | the id comes from data-urn when that holds the pattern, else from the permalink; none exactly when neither holds it; any id is well formed |
| Identity.DefaultPermalink | src/ai4news/scraper.py:99-100 | definition; `DefaultPermalinkRoundTrip` states its round trip |
| Identity.DefaultPermalinkRoundTrip | src/ai4news/scraper.py:99-100 | the permalink built for a post without a link gives its own id back |
| Identity.ExtractionExample | tests/test_scraper.py:36-40 | the feed-update url of activity 7296543210 yields "urn:li:activity:7296543210" |
| Identity.ExtractionExampleWithQuery | tests/test_scraper.py:43-47 | the same kind of url with "?utm=test" yields "urn:li:activity:123" |
| Identity.ExtractionExampleNone | tests/test_scraper.py:50-52 | a profile url yields no id |
| Extraction.NonEmptySrcs | src/ai4news/scraper.py:89-92 | the kept image sources are exactly the non-empty ones, and there are no more of them than sources |
| Extraction.CollectMedia | src/ai4news/scraper.py:85-92 | the image loop keeps the non-empty sources in page order |
| Extraction.ToPost | src/ai4news/scraper.py:57-109 | definition of what one element becomes; `ExtractOne` is proved equal to it and `ExtractedPostsWellFormed` and `PermalinkOfLinklessPost` state its properties |
| Extraction.ExtractOne | src/ai4news/scraper.py:57-109 | the loop body gives the post the element becomes, or none when no id resolves |
| Extraction.ExtractPostsFromPage | src/ai4news/scraper.py:56-114 | the element loop returns the elements' posts in page order, skipping unresolvable ones |
| Extraction.ExtractedPosts | src/ai4news/scraper.py:56-114 | a page yields no more posts than it has elements |
| Extraction.ExtractedPostsWellFormed | src/ai4news/scraper.py:64-70 | every extracted post has a well-formed id and a non-empty permalink |
| Extraction.ExtractedPostsMembership | src/ai4news/scraper.py:56-109 | a post is extracted exactly when some element becomes it |
| Extraction.ExtractedPostsSnoc | src/ai4news/scraper.py:56-109 | one more element adds its post, if any, at the end |
| Extraction.UnresolvableCandidatesSkipped | src/ai4news/scraper.py:69-70 | a page whose elements all lack an id yields no posts |
| Extraction.PermalinkOfLinklessPost | src/ai4news/scraper.py:99-100 | a post stored without a page link has a permalink holding its own id |
| Config.LoadTargets | src/ai4news/config.py:32-39 | definition; the `Load` lemmas below state its results |
| Config.ErrorMessage | src/ai4news/config.py:35-38 | definition; `ErrorMessageNamesType` states that it names the type |
| Config.FirstInvalid | src/ai4news/config.py:33-34 | none exactly when all types are valid; otherwise the index of an invalid record with only valid ones before it |
| Config.LoadAllValid | src/ai4news/config.py:32-39 | a list whose records all have valid types loads unchanged |
| Config.LoadMissingTargets | src/ai4news/config.py:32 | a missing or null "targets" entry, or an empty list, loads as [] |
| Config.LoadRejectsFirstInvalid | src/ai4news/config.py:33-38 | loading fails with the type of the first invalid record, and a missing type shows as "None" |
| Config.LoadNeverAltersRecords | src/ai4news/config.py:31-39 | a successful load returns the document's own list, whose records are all valid |
| Config.ErrorMessageNamesType | src/ai4news/config.py:35-38 | the ValueError text contains the offending type |
| Storage.LexLeTotal | src/ai4news/storage.py:110 | any two TEXT values are ordered one way or the other |
| Storage.LexLeTrans | src/ai4news/storage.py:110 | the TEXT ordering is transitive |
| Storage.InsertByPostedAt | src/ai4news/storage.py:110 | keeps `posted_at DESC` order and distinct ids, and adds exactly the new view |
| Storage.NextRowId | src/ai4news/storage.py:19 | a new INTEGER PRIMARY KEY is one more than the largest id present, or 1 in an empty table |
| Storage.PostsNotOf | src/ai4news/storage.py:69 | exactly the posts of other targets are kept, unchanged |
| Storage.UrlsOfUpdate | src/ai4news/storage.py:47-62 | writing a row under a fresh id, or over the row with its url, adds exactly that url |
| Storage.UrlsOfRemove | src/ai4news/storage.py:64-72 | with unique urls, deleting a row removes exactly its url |
| Storage.Database.Valid | src/ai4news/storage.py:18-36 | definition of the schema constraints: target urls are unique and every post names a stored target (post ids are unique as the keys of the posts map); every state-changing method keeps it |
| Storage.Database.constructor | src/ai4news/storage.py:16-45 | a new database satisfies the schema constraints and has empty tables |
| Storage.Database.IdOf | src/ai4news/storage.py:48-49 | finds the row holding the url, or none when no row holds it |
| Storage.Database.IdOfFindsUrls | src/ai4news/storage.py:48-49 | a url is found exactly when it is a registered url |
| Storage.Database.IdOfOwner | src/ai4news/storage.py:20 | with UNIQUE urls, the row holding a url is the one found |
| Storage.Database.UpsertTarget | src/ai4news/storage.py:47-62 | an existing url keeps its id and gets the new type and name; otherwise a row with the next rowid is added; urls stay unique and no other row changes |
| Storage.Database.RemoveTarget | src/ai4news/storage.py:64-72 | false and no change for an unknown url; otherwise that target and all its posts are deleted, and nothing else |
| Storage.Database.ListTargets | src/ai4news/storage.py:74-76 | every target exactly once, with its stored fields |
| Storage.Database.InsertPost | src/ai4news/storage.py:78-99 | true exactly when the id is new and the target exists, and then one row is added; false leaves everything unchanged |
| Storage.Database.JoinView | src/ai4news/storage.py:104-108 | a stored post joined with its target keeps its id and media list |
| Storage.Database.GatherOne | src/ai4news/storage.py:109-117 | one more post is kept, in order, exactly when scraped after the cutoff |
| Storage.Database.GetNewPosts | src/ai4news/storage.py:101-118 | every post scraped after the cutoff exactly once, joined with its target, latest `posted_at` first |
| Storage.Database.RecordNewsletter | src/ai4news/storage.py:120-125 | one log entry is appended and the targets and posts are unchanged |
| Scrape.RowFor | src/ai4news/scraper.py:138-142 | definition: the row registered for a target holds its url, its type and its name, or "" without one |
| Scrape.Label | src/ai4news/scraper.py:172 | definition: a target is named by its name, or its url when it has none |
| Scrape.FailureMessage | src/ai4news/scraper.py:172 | definition of the logged message; `FailureMessageNamesTarget` states its content |
| Scrape.FailureMessageNamesTarget | src/ai4news/scraper.py:172 | a failure message names the target and carries the exception's message |
| Scrape.ErrorLog | src/ai4news/scraper.py:171-174 | there are at most as many messages as targets |
| Scrape.ErrorLogCountsFailures | src/ai4news/scraper.py:171-174 | there is one message per failed page, so no failure is lost |
| Scrape.ActivityUrls | src/ai4news/scraper.py:136-145 | one URL is visited per target |
| Scrape.ActivityUrlsAt | src/ai4news/scraper.py:143-145 | target i is visited i-th, at the activity URL its url and type build |
| Scrape.InsertAll | src/ai4news/scraper.py:151-160 | definition of the posts table after the insert loop; the `InsertAll` lemmas below state its properties |
| Scrape.NewCount | src/ai4news/scraper.py:151-162 | definition of the number of `insert_post` calls that report True; `InsertAllSize` ties it to the table's growth |
| Scrape.InsertAllExtends | src/ai4news/scraper.py:151-160 | inserting never changes or drops a stored post |
| Scrape.InsertAllAddedUnder | src/ai4news/scraper.py:151-160 | rows are added only for the page's posts and only under the target's id |
| Scrape.InsertAllSize | src/ai4news/scraper.py:151-162 | the table grows by the number of posts added, which is at most one per post |
| Scrape.InsertAllStores | src/ai4news/scraper.py:151-160 | afterwards every post of the page is stored |
| Scrape.InsertExtracted | src/ai4news/scraper.py:150-162 | the insert loop leaves the table the page's posts give and counts exactly the inserted ones |
| Scrape.PagePosts | src/ai4news/scraper.py:149 | definition: a loaded page yields the posts extracted from its elements, a failed page none |
| Scrape.IdsOfWellFormed | src/ai4news/scraper.py:149-160 | the ids of extracted posts are all well-formed activity ids |
| Scrape.ScrapeTarget | src/ai4news/scraper.py:137-174 | the target is registered before its page is visited: its row, with its url, type and name, is written under its old id or the next rowid, and no other target row changes; the posts table becomes the page's posts inserted under that id (unchanged for a failed page), with the count of new rows; so every post of a loaded page is stored, the rows added are under its id and keyed by well-formed ids, and a post already stored keeps its target; a failed page gives one message |
| Scrape.ScrapeStep | src/ai4news/scraper.py:136-174 | one turn adds the target's share to the running totals, keeps earlier targets registered, and takes both tables to the run's tables after one more target |
| Scrape.RunTargets | src/ai4news/scraper.py:136-142 | definition: the targets table after each target in turn is registered under its id |
| Scrape.RunPosts | src/ai4news/scraper.py:136-162 | definition: the posts table after each target's page in turn is inserted under its id |
| Scrape.RunTablesStep | src/ai4news/scraper.py:136-162 | registering one more target and inserting its page takes the run's tables one target further |
| Scrape.InsertAllNewOwner | src/ai4news/scraper.py:151-160 | a post new to the table is stored under the target being scraped |
| Scrape.InsertAllAbsent | src/ai4news/scraper.py:151-160 | no row is added for an id the page did not yield |
| Scrape.RunPostsAbsent | src/ai4news/scraper.py:136-162 | the run adds no row for an id no page yielded |
| Scrape.RunPostsFirstOwner | src/ai4news/scraper.py:151-160 | a post new to the run is stored under the first target whose page yielded it; a later page's insert of the same id reports False and leaves the row alone |
| Scrape.StoredPagesStep | src/ai4news/scraper.py:136-162 | a page's posts, once stored, stay stored while later targets only add rows |
| Scrape.AddedByRunStep | src/ai4news/scraper.py:136-162 | every row the run has added so far came from some visited page and is under that page's target |
| Scrape.ScrapeAllTargets | src/ai4news/scraper.py:122-178 | every target is visited in order; the scraped total is the posts extracted, the new total is at most that and equals the table's growth; one message per failure; no stored post is changed; the final targets and posts tables are exactly the run's tables for the ids registered; every post of every loaded page is stored, and each added row has a well-formed id and belongs to a target whose page yielded it |
| Scrape.RegisteredTargetsFound | src/ai4news/scraper.py:138-142 | after the loop every target's url finds the row registered for it |
| Server.ToolTypesAreConfigTypes | src/ai4news/server.py:83 | the tool's type tuple and `VALID_TARGET_TYPES` accept the same types |
| Server.InvalidTypeMessage | src/ai4news/server.py:84 | definition; `InvalidTypeMessageNamesType` states that it names the type |
| Server.InvalidTypeMessageNamesType | src/ai4news/server.py:84 | the error result names the rejected type |
| Server.MirrorAdd | src/ai4news/server.py:89-90 | appends the new record only when no entry has the url |
| Server.MirrorAddProperties | src/ai4news/server.py:89-90 | afterwards the url is listed, existing entries stay in place, and nothing is added when it was listed |
| Server.MirrorAddUrls | src/ai4news/server.py:89-90 | the mirror lists exactly one more url |
| Server.MirrorRemove | src/ai4news/server.py:105 | the filtered list is no longer than the original |
| Server.MirrorRemoveMembers | src/ai4news/server.py:105 | an entry is kept exactly when its url differs |
| Server.MirrorRemoveAbsent | src/ai4news/server.py:105 | filtering out a url no entry has leaves the list as it was |
| Server.MirrorRemoveAppend | src/ai4news/server.py:105 | filtering distributes over concatenation |
| Server.MirrorRemoveUrls | src/ai4news/server.py:105 | the mirror lists exactly one url fewer |
| Server.RemoveAfterAdd | src/ai4news/server.py:89-90 | removing a url right after adding it leaves what removing it alone leaves |
| Server.MirrorAddLoads | src/ai4news/server.py:88-91 | the rewritten file loads back as the edited list |
| Server.MirrorRemoveLoads | src/ai4news/server.py:104-106 | the filtered file loads back as the filtered list |
| Server.AddTarget | src/ai4news/server.py:79-94 | an invalid type changes nothing and gives the error; otherwise the target is upserted, the mirror gains the url only when it lacked it, and a registry and mirror that agreed still agree |
| Server.RemoveTarget | src/ai4news/server.py:98-109 | the mirror is rewritten without the url only when the registry removal succeeded; the result records the flag and url; a registry and mirror that agreed still agree |
| Server.GenerateNewsletter | src/ai4news/server.py:60-63 | one log entry with the rendered file's path and the number of posts passed in |

## Left out

- The browser is not modelled: Playwright, the page loads, scrolling, delays and the selector queries. Each page is given as the values the selector queries return for its post elements, or as the exception message.
- The model does not choose among the three element selectors, and it does not apply `strip()` to author and text. The element's text values are inputs.
- An exception raised while extracting one element is not modelled: it would skip that element with a log warning.
- `\d` is modelled as ASCII 0-9. Python's `str` regex also matches other Unicode decimal digits.
- Config.ErrorMessage: Python prints the set of valid types in an order that varies between runs; the model uses one fixed order.
- Records without a "url" key are not modelled; such a record raises KeyError in the server and the scraper.
- Storage.Database.GetNewPosts: posts with equal `posted_at` come back in an unspecified order. `posted_at` is compared as text; the NUMERIC affinity of the TIMESTAMP column is not modelled.
- Post row ids (`p.id`) and the `created_at` columns are not modelled.
- Storage.NextRowId: does not model SQLite's random rowid choice once the largest id reaches 2^63 - 1.
- Storage.Database.InsertPost: only IntegrityError is modelled; a post whose target was never written is rejected as by the foreign key.
- Scrape.InsertExtracted: requires that the target exists, which holds because the target is registered just before.
- Scrape.ScrapeTarget: a target record whose name is present but null would be stored as NULL and named "None" in messages. The model treats it like a missing name.
- Scrape.ScrapeAllTargets: starts from the list `load_targets` returned. A failing `load_targets` raises before the loop and is covered by its own model.
- YAML reading and writing is not modelled (`save_targets` then `load_targets` is taken to return the list written). The paths and directories of config.py are also not modelled.
- `ai4news.newsletter` is not part of this model: `generate_html` is the given path of the file it wrote.
- The clock is given as integers, and the database connection, closing and server plumbing are not modelled.
- Storage.Database.ListTargets: rows come back in no promised order. The `created_at` column is not modelled.
