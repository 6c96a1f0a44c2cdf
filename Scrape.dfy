/**
 * The counting loop of `scrape_all_targets` (src/ai4news/scraper.py,
 * lines 136-178). The browser is replaced by what it would hand back for
 * each target in turn: the post elements found on the target's activity
 * page, or the exception raised while loading or scrolling it.
 */
module Scrape {
  import opened Wrappers
  import opened Text
  import opened Identity
  import opened Extraction
  import opened Config
  import opened Storage

  /** What visiting a target's activity page produced: the post elements
      found on it, from which `ExtractPostsFromPage` builds the posts, or
      the message of the exception raised while loading or scrolling it. */
  datatype PageOutcome = Loaded(elements: seq<Candidate>) | Failed(reason: string)

  /** The posts a page yields: none when it failed. */
  function PagePosts(page: PageOutcome): seq<PostData> {
    if page.Loaded? then ExtractedPosts(page.elements) else []
  }

  /** The dictionary the function returns. */
  datatype ScrapeSummary = ScrapeSummary(scraped: nat, newPosts: nat, errors: seq<string>)

  /** How a target is named in messages: its name, or its url when it has none. */
  function Label(t: TargetRecord): string {
    t.name.GetOr(t.url)
  }

  /** The row the scraper registers for a target record: its url, its type
      and its name, or "" when it has none. */
  function RowFor(t: TargetRecord): TargetRow {
    TargetRow(t.url, t.targetType.GetOr(""), t.name.GetOr(""))
  }

  /** The message logged when visiting a target raised an exception. */
  function FailureMessage(t: TargetRecord, reason: string): string {
    "Error scraping " + Label(t) + ": " + reason
  }

  /** A failure message names the target and carries the exception's own
      message. */
  lemma FailureMessageNamesTarget(t: TargetRecord, reason: string)
    ensures Contains(FailureMessage(t, reason), Label(t))
    ensures Contains(FailureMessage(t, reason), reason)
  {
    var m := FailureMessage(t, reason);
    ContainsMiddle("Error scraping ", Label(t), ": " + reason);
    assert m == "Error scraping " + Label(t) + (": " + reason);
    ContainsMiddle("Error scraping " + Label(t) + ": ", reason, "");
    assert m == "Error scraping " + Label(t) + ": " + reason + "";
  }

  /** The messages for the first `n` targets: one per failed page, in
      target order. */
  function ErrorLog(targets: seq<TargetRecord>, pages: seq<PageOutcome>, n: nat): (r: seq<string>)
    requires |pages| == |targets| && n <= |targets|
    ensures |r| <= n
  {
    if n == 0 then []
    else
      ErrorLog(targets, pages, n - 1)
        + (if pages[n - 1].Failed? then [FailureMessage(targets[n - 1], pages[n - 1].reason)] else [])
  }

  /** The number of posts extracted from a page: none when it failed. */
  function PageSize(page: PageOutcome): nat {
    |PagePosts(page)|
  }

  /** The number of posts extracted from those of the first `n` pages that
      loaded. */
  function TotalExtracted(pages: seq<PageOutcome>, n: nat): nat
    requires n <= |pages|
  {
    if n == 0 then 0
    else TotalExtracted(pages, n - 1) + PageSize(pages[n - 1])
  }

  /** The activity URLs the browser is sent to for the first `n` targets. */
  function ActivityUrls(targets: seq<TargetRecord>, n: nat): (r: seq<string>)
    requires AllValid(targets) && n <= |targets|
    ensures |r| == n
  {
    if n == 0 then []
    else ActivityUrls(targets, n - 1) + [BuildActivityUrl(targets[n - 1].url, targets[n - 1].targetType.value)]
  }

  /** Target `i` is visited `i`-th, at the activity URL its url and type
      build, so every target is visited once and in order. */
  lemma {:induction false} ActivityUrlsAt(targets: seq<TargetRecord>, n: nat, i: nat)
    requires AllValid(targets) && i < n <= |targets|
    ensures ActivityUrls(targets, n)[i] == BuildActivityUrl(targets[i].url, targets[i].targetType.value)
  {
    if i < n - 1 {
      ActivityUrlsAt(targets, n - 1, i);
    }
  }

  /** The number of failure messages is the number of failed pages, so no
      failure is lost and no later target is skipped. */
  lemma {:induction false} ErrorLogCountsFailures(targets: seq<TargetRecord>, pages: seq<PageOutcome>, n: nat)
    requires |pages| == |targets| && n <= |targets|
    ensures |ErrorLog(targets, pages, n)| == |set i | 0 <= i < n && pages[i].Failed?|
  {
    if n > 0 {
      ErrorLogCountsFailures(targets, pages, n - 1);
      var before := set i | 0 <= i < n - 1 && pages[i].Failed?;
      var all := set i | 0 <= i < n && pages[i].Failed?;
      assert all == before + (if pages[n - 1].Failed? then {n - 1} else {});
    }
  }

  /** The linkedin ids of the first `n` posts. */
  function IdsOf(posts: seq<PostData>, n: nat): set<string>
    requires n <= |posts|
  {
    if n == 0 then {} else IdsOf(posts, n - 1) + {posts[n - 1].linkedinId}
  }

  /** The row `insert_post` stores for an extracted post of `targetId`. */
  function RowOf(targetId: int, p: PostData, now: int): PostRow {
    PostRow(targetId, p.author, p.text, p.url, p.mediaUrls, p.postedAt, now)
  }

  /** The posts table after `insert_post` was called for each of the first
      `n` posts under an existing target: a post whose linkedin id is
      already stored is skipped, any other one is added. */
  function InsertAll(m: map<string, PostRow>, targetId: int, posts: seq<PostData>, n: nat, now: int): map<string, PostRow>
    requires n <= |posts|
  {
    if n == 0 then m
    else
      var r := InsertAll(m, targetId, posts, n - 1, now);
      var p := posts[n - 1];
      if p.linkedinId in r then r else r[p.linkedinId := RowOf(targetId, p, now)]
  }

  /** The rows `b` has beyond `a` all belong to `targetId` and are keyed by
      one of `ids`. */
  ghost predicate AddedUnder(a: map<string, PostRow>, b: map<string, PostRow>, targetId: int, ids: set<string>)
  {
    forall k :: k in b && k !in a ==> b[k].targetId == targetId && k in ids
  }

  /** Inserting never changes or drops a stored row. */
  lemma {:induction false} InsertAllExtends(m: map<string, PostRow>, targetId: int, posts: seq<PostData>, n: nat, now: int)
    requires n <= |posts|
    ensures Extends(m, InsertAll(m, targetId, posts, n, now))
  {
    if n > 0 {
      InsertAllExtends(m, targetId, posts, n - 1, now);
    }
  }

  /** Inserting adds rows only for the given posts and only under `targetId`. */
  lemma {:induction false} InsertAllAddedUnder(m: map<string, PostRow>, targetId: int, posts: seq<PostData>, n: nat, now: int)
    requires n <= |posts|
    ensures AddedUnder(m, InsertAll(m, targetId, posts, n, now), targetId, IdsOf(posts, n))
  {
    if n > 0 {
      InsertAllAddedUnder(m, targetId, posts, n - 1, now);
    }
  }

  /** How many of the first `n` posts `InsertAll` adds a row for. */
  function NewCount(m: map<string, PostRow>, targetId: int, posts: seq<PostData>, n: nat, now: int): nat
    requires n <= |posts|
  {
    if n == 0 then 0
    else
      NewCount(m, targetId, posts, n - 1, now)
        + (if posts[n - 1].linkedinId in InsertAll(m, targetId, posts, n - 1, now) then 0 else 1)
  }

  /** The table grows by exactly the number of posts added, and that is at
      most one per post. */
  lemma {:induction false} InsertAllSize(m: map<string, PostRow>, targetId: int, posts: seq<PostData>, n: nat, now: int)
    requires n <= |posts|
    ensures |InsertAll(m, targetId, posts, n, now)| == |m| + NewCount(m, targetId, posts, n, now)
    ensures NewCount(m, targetId, posts, n, now) <= n
  {
    if n > 0 {
      InsertAllSize(m, targetId, posts, n - 1, now);
    }
  }

  /** After inserting, every one of the posts is stored. */
  lemma {:induction false} InsertAllStores(m: map<string, PostRow>, targetId: int, posts: seq<PostData>, n: nat, now: int)
    requires n <= |posts|
    ensures forall j :: 0 <= j < n ==> posts[j].linkedinId in InsertAll(m, targetId, posts, n, now)
  {
    if n > 0 {
      InsertAllStores(m, targetId, posts, n - 1, now);
    }
  }

  /** One more `insert_post` call extends the table and the count of the
      first `i` posts to those of the first `i + 1`. */
  lemma InsertAllStep(m: map<string, PostRow>, targetId: int, posts: seq<PostData>, i: nat, now: int,
                      r: map<string, PostRow>, r': map<string, PostRow>, c: nat, c': nat)
    requires i < |posts| && r == InsertAll(m, targetId, posts, i, now)
    requires c == NewCount(m, targetId, posts, i, now)
    requires posts[i].linkedinId in r ==> r' == r && c' == c
    requires posts[i].linkedinId !in r ==> r' == r[posts[i].linkedinId := RowOf(targetId, posts[i], now)] && c' == c + 1
    ensures r' == InsertAll(m, targetId, posts, i + 1, now)
    ensures c' == NewCount(m, targetId, posts, i + 1, now)
  {
  }

  /** The inner loop of one target: `insert_post` for every extracted post,
      counting the calls that report True. */
  method InsertExtracted(db: Database, targetId: int, posts: seq<PostData>, now: int) returns (inserted: nat)
    requires db.Valid() && targetId in db.targets
    modifies db
    ensures db.Valid()
    ensures db.posts == InsertAll(old(db.posts), targetId, posts, |posts|, now)
    ensures inserted == NewCount(old(db.posts), targetId, posts, |posts|, now)
    ensures db.targets == old(db.targets) && db.newsletters == old(db.newsletters)
  {
    inserted := 0;
    var i := 0;
    while i < |posts|
      invariant 0 <= i <= |posts|
      invariant db.Valid()
      invariant db.posts == InsertAll(old(db.posts), targetId, posts, i, now)
      invariant inserted == NewCount(old(db.posts), targetId, posts, i, now)
      invariant db.targets == old(db.targets) && db.newsletters == old(db.newsletters)
    {
      var p := posts[i];
      ghost var r, c := db.posts, inserted;
      var ok := db.InsertPost(targetId, p.linkedinId, p.author, p.text, p.url, p.mediaUrls, p.postedAt, now);
      if ok {
        inserted := inserted + 1;
      }
      InsertAllStep(old(db.posts), targetId, posts, i, now, r, db.posts, c, inserted);
      i := i + 1;
    }
  }

  /** The linkedin ids of the posts a page yields. */
  function PageIds(page: PageOutcome): set<string> {
    IdsOf(PagePosts(page), |PagePosts(page)|)
  }

  /** Every post the page yields is stored in `posts`. */
  ghost predicate PageStored(posts: map<string, PostRow>, page: PageOutcome)
  {
    forall j :: 0 <= j < |PagePosts(page)| ==> PagePosts(page)[j].linkedinId in posts
  }

  /** Every row `b` has beyond `a` is keyed by a well-formed activity id. */
  ghost predicate AddedWellFormed(a: map<string, PostRow>, b: map<string, PostRow>)
  {
    forall k :: k in b && k !in a ==> IsActivityId(k)
  }

  /** If all the posts carry well-formed ids, so do the ids of the first `n`. */
  lemma {:induction false} IdsOfWellFormed(posts: seq<PostData>, n: nat)
    requires n <= |posts|
    requires forall p :: p in posts ==> IsActivityId(p.linkedinId)
    ensures forall k :: k in IdsOf(posts, n) ==> IsActivityId(k)
  {
    if n > 0 {
      IdsOfWellFormed(posts, n - 1);
      assert posts[n - 1] in posts;
    }
  }

  /** The body of the `try` block for one target: register it, visit its
      activity page, and either insert the page's posts or report the
      failure. The registry write happens before the page is visited, so
      it stays even when the page fails. */
  method ScrapeTarget(db: Database, target: TargetRecord, page: PageOutcome, now: int)
    returns (targetId: int, activityUrl: string, scraped: nat, added: nat, error: seq<string>)
    requires db.Valid()
    requires IsValidType(target.targetType)
    modifies db
    ensures db.Valid()
    ensures activityUrl == BuildActivityUrl(target.url, target.targetType.value)
    ensures scraped == PageSize(page)
    ensures added <= scraped
    ensures error == (if page.Failed? then [FailureMessage(target, page.reason)] else [])
    ensures |db.posts| == |old(db.posts)| + added
    ensures db.targets == old(db.targets)[targetId := RowFor(target)]
    ensures targetId in db.targets && db.targets[targetId].url == target.url
    ensures old(db.IdOf(target.url)).Some? ==> targetId == old(db.IdOf(target.url)).value
    ensures old(db.IdOf(target.url)).None? ==> targetId == NextRowId(old(db.targets).Keys)
    ensures UrlsKept(old(db.targets), db.targets)
    ensures db.posts == InsertAll(old(db.posts), targetId, PagePosts(page), |PagePosts(page)|, now)
    ensures added == NewCount(old(db.posts), targetId, PagePosts(page), |PagePosts(page)|, now)
    ensures Extends(old(db.posts), db.posts)
    ensures AddedUnder(old(db.posts), db.posts, targetId, PageIds(page))
    ensures AddedWellFormed(old(db.posts), db.posts)
    ensures PageStored(db.posts, page)
    ensures db.newsletters == old(db.newsletters)
  {
    targetId := db.UpsertTarget(target.url, target.targetType.value, target.name.GetOr(""));
    activityUrl := BuildActivityUrl(target.url, target.targetType.value);
    match page
    case Failed(reason) =>
      scraped, added, error := 0, 0, [FailureMessage(target, reason)];
    case Loaded(elements) =>
      var posts := ExtractPostsFromPage(elements);
      ghost var before := db.posts;
      added := InsertExtracted(db, targetId, posts, now);
      scraped, error := |posts|, [];
      InsertAllExtends(before, targetId, posts, |posts|, now);
      InsertAllAddedUnder(before, targetId, posts, |posts|, now);
      InsertAllSize(before, targetId, posts, |posts|, now);
      InsertAllStores(before, targetId, posts, |posts|, now);
      ExtractedPostsWellFormed(elements);
      IdsOfWellFormed(posts, |posts|);
  }

  /** The running values after the first `i` targets: the URLs visited,
      the posts extracted (of which at most all are new) and the messages
      of the pages that failed. */
  ghost predicate Tallied(targets: seq<TargetRecord>, pages: seq<PageOutcome>, i: nat,
                          acc: ScrapeSummary, visited: seq<string>)
  {
    && AllValid(targets) && |pages| == |targets| && i <= |targets|
    && visited == ActivityUrls(targets, i)
    && acc.scraped == TotalExtracted(pages, i) && acc.newPosts <= acc.scraped
    && acc.errors == ErrorLog(targets, pages, i)
  }

  /** `ids[j]` is the row registered for target `j`, for each of the first
      `i` targets. */
  ghost predicate Registered(rows: map<int, TargetRow>, targets: seq<TargetRecord>, ids: seq<int>, i: nat)
  {
    && i <= |targets| && |ids| == i
    && forall j :: 0 <= j < i ==> ids[j] in rows && rows[ids[j]].url == targets[j].url
  }

  /** The posts of each of the first `i` pages are stored. */
  ghost predicate StoredPages(posts: map<string, PostRow>, pages: seq<PageOutcome>, i: nat)
  {
    i <= |pages| && forall j :: 0 <= j < i ==> PageStored(posts, pages[j])
  }

  /** Among the first `i` pages, one yielded the id `k` and its target was
      registered as `targetId`. */
  ghost predicate YieldedBy(k: string, targetId: int, pages: seq<PageOutcome>, ids: seq<int>, i: nat)
    requires i <= |pages| && |ids| == i
  {
    exists j :: 0 <= j < i && targetId == ids[j] && k in PageIds(pages[j])
  }

  /** Every row `b` has beyond `a` was yielded by one of the first `i` pages
      and is stored under the row registered for that page's target. */
  ghost predicate AddedByRun(a: map<string, PostRow>, b: map<string, PostRow>, pages: seq<PageOutcome>,
                             ids: seq<int>, i: nat)
  {
    && i <= |pages| && |ids| == i
    && forall k :: k in b && k !in a ==> YieldedBy(k, b[k].targetId, pages, ids, i)
  }

  /** What the first `i` pages yielded, the first `i + 1` did too. */
  lemma YieldedByGrows(k: string, targetId: int, pages: seq<PageOutcome>, ids: seq<int>, i: nat,
                       newId: int, ids': seq<int>)
    requires i < |pages| && |ids| == i && ids' == ids + [newId]
    requires YieldedBy(k, targetId, pages, ids, i)
    ensures YieldedBy(k, targetId, pages, ids', i + 1)
  {
    var j :| 0 <= j < i && targetId == ids[j] && k in PageIds(pages[j]);
    assert ids'[j] == ids[j];
  }

  /** A page stored stays stored while rows are only added. */
  lemma StoredPagesStep(before: map<string, PostRow>, after: map<string, PostRow>, pages: seq<PageOutcome>, i: nat)
    requires StoredPages(before, pages, i) && i < |pages|
    requires Extends(before, after) && PageStored(after, pages[i])
    ensures StoredPages(after, pages, i + 1)
  {
    forall j | 0 <= j < i + 1
      ensures PageStored(after, pages[j])
    {
      if j < i {
        assert PageStored(before, pages[j]);
      }
    }
  }

  /** The rows target `i` adds, under its id, join those of the targets
      before it. */
  lemma AddedByRunStep(base: map<string, PostRow>, before: map<string, PostRow>, after: map<string, PostRow>,
                       pages: seq<PageOutcome>, ids: seq<int>, i: nat, targetId: int, ids': seq<int>)
    requires AddedByRun(base, before, pages, ids, i) && i < |pages|
    requires Extends(before, after) && AddedUnder(before, after, targetId, PageIds(pages[i]))
    requires ids' == ids + [targetId]
    ensures AddedByRun(base, after, pages, ids', i + 1)
  {
    forall k | k in after && k !in base
      ensures YieldedBy(k, after[k].targetId, pages, ids', i + 1)
    {
      if k in before {
        YieldedByGrows(k, after[k].targetId, pages, ids, i, targetId, ids');
      } else {
        assert ids'[i] == targetId;
      }
    }
  }

  lemma AddedWellFormedTrans(a: map<string, PostRow>, b: map<string, PostRow>, c: map<string, PostRow>)
    requires AddedWellFormed(a, b) && AddedWellFormed(b, c)
    ensures AddedWellFormed(a, c)
  {
  }

  /** Adding target `i`'s share to the values of the first `i` targets gives
      the values of the first `i + 1`. */
  lemma TalliedStep(targets: seq<TargetRecord>, pages: seq<PageOutcome>, i: nat,
                    acc: ScrapeSummary, visited: seq<string>, activityUrl: string, added: nat, error: seq<string>,
                    next: ScrapeSummary, visited': seq<string>)
    requires Tallied(targets, pages, i, acc, visited) && i < |targets|
    requires activityUrl == BuildActivityUrl(targets[i].url, targets[i].targetType.value)
    requires added <= PageSize(pages[i])
    requires error == (if pages[i].Failed? then [FailureMessage(targets[i], pages[i].reason)] else [])
    requires next == ScrapeSummary(acc.scraped + PageSize(pages[i]), acc.newPosts + added, acc.errors + error)
    requires visited' == visited + [activityUrl]
    ensures Tallied(targets, pages, i + 1, next, visited')
  {
  }

  /** A row kept with its url, plus the row of target `i`, registers the
      first `i + 1` targets. */
  lemma RegisteredStep(before: map<int, TargetRow>, rows: map<int, TargetRow>, targets: seq<TargetRecord>,
                       ids: seq<int>, i: nat, targetId: int, ids': seq<int>)
    requires Registered(before, targets, ids, i) && i < |targets|
    requires UrlsKept(before, rows)
    requires targetId in rows && rows[targetId].url == targets[i].url
    requires ids' == ids + [targetId]
    ensures Registered(rows, targets, ids', i + 1)
  {
    forall j | 0 <= j < i
      ensures ids[j] in rows && rows[ids[j]].url == targets[j].url
    {
      UrlsKeptAt(before, rows, ids[j]);
    }
  }

  /** The targets table after the first `n` targets were registered, target
      `j` under `ids[j]`. */
  function RunTargets(m: map<int, TargetRow>, targets: seq<TargetRecord>, ids: seq<int>, n: nat): map<int, TargetRow>
    requires n <= |targets| && n <= |ids|
  {
    if n == 0 then m else RunTargets(m, targets, ids, n - 1)[ids[n - 1] := RowFor(targets[n - 1])]
  }

  /** The posts table after the pages of the first `n` targets were
      inserted, page `j` under `ids[j]`. */
  function RunPosts(m: map<string, PostRow>, pages: seq<PageOutcome>, ids: seq<int>, n: nat, now: int): map<string, PostRow>
    requires n <= |pages| && n <= |ids|
  {
    if n == 0 then m
    else InsertAll(RunPosts(m, pages, ids, n - 1, now), ids[n - 1], PagePosts(pages[n - 1]), |PagePosts(pages[n - 1])|, now)
  }

  /** The run's tables depend only on the ids of the targets already done. */
  lemma {:induction false} RunTablesPrefix(mt: map<int, TargetRow>, mp: map<string, PostRow>, targets: seq<TargetRecord>,
                                           pages: seq<PageOutcome>, ids: seq<int>, ids': seq<int>, n: nat, now: int)
    requires n <= |targets| && n <= |pages| && n <= |ids| && n <= |ids'|
    requires forall j :: 0 <= j < n ==> ids[j] == ids'[j]
    ensures RunTargets(mt, targets, ids, n) == RunTargets(mt, targets, ids', n)
    ensures RunPosts(mp, pages, ids, n, now) == RunPosts(mp, pages, ids', n, now)
  {
    if n > 0 {
      RunTablesPrefix(mt, mp, targets, pages, ids, ids', n - 1, now);
    }
  }

  /** Registering target `i` under `targetId` and inserting its page's posts
      takes the run's tables from the first `i` targets to the first `i + 1`. */
  lemma RunTablesStep(mt: map<int, TargetRow>, mp: map<string, PostRow>, targets: seq<TargetRecord>,
                      pages: seq<PageOutcome>, ids: seq<int>, i: nat, now: int, targetId: int, ids': seq<int>,
                      rows: map<int, TargetRow>, posts: map<string, PostRow>)
    requires i < |targets| && i < |pages| && |ids| == i && ids' == ids + [targetId]
    requires rows == RunTargets(mt, targets, ids, i)[targetId := RowFor(targets[i])]
    requires posts == InsertAll(RunPosts(mp, pages, ids, i, now), targetId, PagePosts(pages[i]), |PagePosts(pages[i])|, now)
    ensures rows == RunTargets(mt, targets, ids', i + 1)
    ensures posts == RunPosts(mp, pages, ids', i + 1, now)
  {
    RunTablesPrefix(mt, mp, targets, pages, ids, ids', i, now);
  }

  /** A post that is new to the table is stored under `targetId` once the
      posts carrying its id were inserted. */
  lemma {:induction false} InsertAllNewOwner(m: map<string, PostRow>, targetId: int, posts: seq<PostData>, n: nat, now: int, k: string)
    requires n <= |posts| && k !in m && k in IdsOf(posts, n)
    ensures k in InsertAll(m, targetId, posts, n, now) && InsertAll(m, targetId, posts, n, now)[k].targetId == targetId
  {
    if k in IdsOf(posts, n - 1) {
      InsertAllNewOwner(m, targetId, posts, n - 1, now, k);
    } else {
      InsertAllAddedUnder(m, targetId, posts, n - 1, now);
    }
  }

  /** Inserting posts none of which carries `k` adds no row for `k`. */
  lemma {:induction false} InsertAllAbsent(m: map<string, PostRow>, targetId: int, posts: seq<PostData>, n: nat, now: int, k: string)
    requires n <= |posts| && k !in m && k !in IdsOf(posts, n)
    ensures k !in InsertAll(m, targetId, posts, n, now)
  {
    if n > 0 {
      InsertAllAbsent(m, targetId, posts, n - 1, now, k);
    }
  }

  /** An id no page yielded is not added by the run. */
  lemma {:induction false} RunPostsAbsent(m: map<string, PostRow>, pages: seq<PageOutcome>, ids: seq<int>, n: nat, now: int, k: string)
    requires n <= |pages| && n <= |ids| && k !in m
    requires forall j :: 0 <= j < n ==> k !in PageIds(pages[j])
    ensures k !in RunPosts(m, pages, ids, n, now)
  {
    if n > 0 {
      RunPostsAbsent(m, pages, ids, n - 1, now, k);
      assert k !in PageIds(pages[n - 1]);
      InsertAllAbsent(RunPosts(m, pages, ids, n - 1, now), ids[n - 1], PagePosts(pages[n - 1]), |PagePosts(pages[n - 1])|, now, k);
    }
  }

  /** A post new to the run is stored under the target of the first page
      that yielded it: inserting it again for a later page reports False and
      leaves the row as it was. */
  lemma {:induction false} RunPostsFirstOwner(m: map<string, PostRow>, pages: seq<PageOutcome>, ids: seq<int>,
                                              n: nat, now: int, k: string, j: nat)
    requires n <= |pages| && n <= |ids| && j < n
    requires k !in m && k in PageIds(pages[j])
    requires forall j' :: 0 <= j' < j ==> k !in PageIds(pages[j'])
    ensures k in RunPosts(m, pages, ids, n, now) && RunPosts(m, pages, ids, n, now)[k].targetId == ids[j]
  {
    var before := RunPosts(m, pages, ids, n - 1, now);
    var posts := PagePosts(pages[n - 1]);
    if j < n - 1 {
      RunPostsFirstOwner(m, pages, ids, n - 1, now, k, j);
      InsertAllExtends(before, ids[n - 1], posts, |posts|, now);
    } else {
      RunPostsAbsent(m, pages, ids, j, now, k);
      InsertAllNewOwner(before, ids[j], posts, |posts|, now, k);
    }
  }

  /** One turn of the loop over targets: scrape target `i` and add its
      share to the running values. */
  method ScrapeStep(db: Database, targets: seq<TargetRecord>, pages: seq<PageOutcome>, now: int,
                    i: nat, acc: ScrapeSummary, visited: seq<string>, ghost ids: seq<int>,
                    ghost base: map<string, PostRow>, ghost baseTargets: map<int, TargetRow>)
    returns (next: ScrapeSummary, visited': seq<string>, ghost ids': seq<int>)
    requires db.Valid() && i < |targets|
    requires Tallied(targets, pages, i, acc, visited)
    requires Registered(db.targets, targets, ids, i)
    requires StoredPages(db.posts, pages, i) && AddedByRun(base, db.posts, pages, ids, i)
    requires AddedWellFormed(base, db.posts)
    requires db.targets == RunTargets(baseTargets, targets, ids, i)
    requires db.posts == RunPosts(base, pages, ids, i, now)
    modifies db
    ensures db.Valid()
    ensures Tallied(targets, pages, i + 1, next, visited')
    ensures Registered(db.targets, targets, ids', i + 1)
    ensures StoredPages(db.posts, pages, i + 1) && AddedByRun(base, db.posts, pages, ids', i + 1)
    ensures AddedWellFormed(base, db.posts)
    ensures db.targets == RunTargets(baseTargets, targets, ids', i + 1)
    ensures db.posts == RunPosts(base, pages, ids', i + 1, now)
    ensures |db.posts| == |old(db.posts)| + (next.newPosts - acc.newPosts)
    ensures UrlsKept(old(db.targets), db.targets)
    ensures Extends(old(db.posts), db.posts)
    ensures db.newsletters == old(db.newsletters)
  {
    assert IsValidType(targets[i].targetType);
    ghost var registered, stored := db.targets, db.posts;
    var targetId, activityUrl, scraped, added, error := ScrapeTarget(db, targets[i], pages[i], now);
    ids' := ids + [targetId];
    RegisteredStep(registered, db.targets, targets, ids, i, targetId, ids');
    StoredPagesStep(stored, db.posts, pages, i);
    AddedByRunStep(base, stored, db.posts, pages, ids, i, targetId, ids');
    AddedWellFormedTrans(base, stored, db.posts);
    RunTablesStep(baseTargets, base, targets, pages, ids, i, now, targetId, ids', db.targets, db.posts);
    next := ScrapeSummary(acc.scraped + scraped, acc.newPosts + added, acc.errors + error);
    visited' := visited + [activityUrl];
    TalliedStep(targets, pages, i, acc, visited, activityUrl, added, error, next, visited');
  }

  /** `scrape_all_targets` from the loaded target list on: every target is
      registered before its page is visited, a failing page adds one error
      message and the loop goes on with the next target. Afterwards every
      post of every loaded page is stored, and each row the run added has a
      well-formed id and belongs to a target whose page yielded it. */
  method ScrapeAllTargets(db: Database, targets: seq<TargetRecord>, pages: seq<PageOutcome>, now: int)
    returns (summary: ScrapeSummary, visited: seq<string>, ghost ids: seq<int>)
    requires db.Valid()
    requires AllValid(targets)  // what load_targets guarantees
    requires |pages| == |targets|
    modifies db
    ensures db.Valid()
    ensures visited == ActivityUrls(targets, |targets|)
    ensures summary.scraped == TotalExtracted(pages, |pages|)
    ensures summary.newPosts <= summary.scraped
    ensures |db.posts| == |old(db.posts)| + summary.newPosts
    ensures summary.errors == ErrorLog(targets, pages, |targets|)
    ensures Registered(db.targets, targets, ids, |targets|)
    ensures StoredPages(db.posts, pages, |pages|)
    ensures AddedByRun(old(db.posts), db.posts, pages, ids, |pages|)
    ensures AddedWellFormed(old(db.posts), db.posts)
    ensures db.targets == RunTargets(old(db.targets), targets, ids, |targets|)
    ensures db.posts == RunPosts(old(db.posts), pages, ids, |pages|, now)
    ensures UrlsKept(old(db.targets), db.targets)
    ensures Extends(old(db.posts), db.posts)
    ensures db.newsletters == old(db.newsletters)
  {
    summary, visited, ids := ScrapeSummary(0, 0, []), [], [];
    ghost var base, baseTargets := db.posts, db.targets;
    var i := 0;
    while i < |targets|
      invariant i <= |targets|
      invariant db.Valid()
      invariant Tallied(targets, pages, i, summary, visited)
      invariant Registered(db.targets, targets, ids, i)
      invariant base == old(db.posts) && baseTargets == old(db.targets)
      invariant db.targets == RunTargets(baseTargets, targets, ids, i)
      invariant db.posts == RunPosts(base, pages, ids, i, now)
      invariant StoredPages(db.posts, pages, i) && AddedByRun(base, db.posts, pages, ids, i)
      invariant AddedWellFormed(base, db.posts)
      invariant |db.posts| == |old(db.posts)| + summary.newPosts
      invariant UrlsKept(old(db.targets), db.targets)
      invariant Extends(old(db.posts), db.posts)
      invariant db.newsletters == old(db.newsletters)
    {
      ghost var posts0, targets0 := db.posts, db.targets;
      summary, visited, ids := ScrapeStep(db, targets, pages, now, i, summary, visited, ids, base, baseTargets);
      ExtendsTrans(old(db.posts), posts0, db.posts);
      UrlsKeptTrans(old(db.targets), targets0, db.targets);
      i := i + 1;
    }
  }

  /** Once every target has its row, looking any of them up by url finds
      that row. */
  lemma RegisteredTargetsFound(db: Database, targets: seq<TargetRecord>, ids: seq<int>)
    requires db.Valid() && Registered(db.targets, targets, ids, |targets|)
    ensures forall j :: 0 <= j < |targets| ==> db.IdOf(targets[j].url) == Some(ids[j])
  {
    forall j | 0 <= j < |targets|
      ensures db.IdOf(targets[j].url) == Some(ids[j])
    {
      db.IdOfOwner(targets[j].url, ids[j]);
    }
  }
}
