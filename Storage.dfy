/**
 * The SQLite store of src/ai4news/storage.py as a class whose three tables
 * are fields: `targets` (keyed by row id), `posts` (keyed by the post's
 * linkedin_id, which the schema declares UNIQUE) and the append-only
 * `newsletters` log. The schema's UNIQUE url, UNIQUE linkedin_id and
 * REFERENCES targets(id) constraints are the object invariant `Valid()`.
 */
module Storage {
  import opened Wrappers

  datatype TargetRow = TargetRow(url: string, targetType: string, name: string)

  /** A stored post; `mediaUrls` stands for the JSON text of the column, whose
      encoding and decoding are taken to be inverse. */
  datatype PostRow = PostRow(
    targetId: int,
    author: string,
    text: string,
    url: string,
    mediaUrls: seq<string>,
    postedAt: string,
    scrapedAt: int)

  datatype NewsletterRow = NewsletterRow(filePath: string, postCount: int)

  /** A row of `list_targets`. */
  datatype Target = Target(id: int, url: string, targetType: string, name: string)

  /** A row of `get_new_posts`: the post joined with its target. */
  datatype PostView = PostView(
    linkedinId: string,
    author: string,
    text: string,
    url: string,
    mediaUrls: seq<string>,
    postedAt: string,
    scrapedAt: int,
    targetName: string,
    targetType: string,
    targetUrl: string)

  // ---------------------------------------------------------------------
  // Ordering of TEXT values (SQLite's BINARY collation)

  /** `a` sorts before or equal to `b`, comparing characters left to right. */
  predicate LexLe(a: string, b: string)
    decreases |a|
  {
    |a| == 0 || (|b| > 0 && (a[0] < b[0] || (a[0] == b[0] && LexLe(a[1..], b[1..]))))
  }

  lemma {:induction false} LexLeTotal(a: string, b: string)
    ensures LexLe(a, b) || LexLe(b, a)
    decreases |a|
  {
    if |a| > 0 && |b| > 0 && a[0] == b[0] {
      LexLeTotal(a[1..], b[1..]);
    }
  }

  lemma {:induction false} LexLeTrans(a: string, b: string, c: string)
    requires LexLe(a, b) && LexLe(b, c)
    ensures LexLe(a, c)
    decreases |a|
  {
    if |a| > 0 && a[0] == b[0] && b[0] == c[0] {
      LexLeTrans(a[1..], b[1..], c[1..]);
    }
  }

  /** `ORDER BY posted_at DESC`: later elements never sort after earlier ones. */
  predicate SortedByPostedAtDesc(vs: seq<PostView>) {
    forall i, j :: 0 <= i < j < |vs| ==> LexLe(vs[j].postedAt, vs[i].postedAt)
  }

  function IdSet(vs: seq<PostView>): set<string> {
    set v | v in vs :: v.linkedinId
  }

  predicate DistinctIds(vs: seq<PostView>) {
    forall i, j :: 0 <= i < j < |vs| ==> vs[i].linkedinId != vs[j].linkedinId
  }

  /** Inserting a view before the first element that does not sort after it
      keeps the order. */
  lemma InsertKeepsOrder(vs: seq<PostView>, j: nat, v: PostView)
    requires SortedByPostedAtDesc(vs) && j <= |vs|
    requires forall m :: 0 <= m < j ==> !LexLe(vs[m].postedAt, v.postedAt)
    requires j < |vs| ==> LexLe(vs[j].postedAt, v.postedAt)
    ensures SortedByPostedAtDesc(vs[..j] + [v] + vs[j..])
  {
    var ws := vs[..j] + [v] + vs[j..];
    forall m | 0 <= m < j
      ensures LexLe(v.postedAt, vs[m].postedAt)
    {
      LexLeTotal(v.postedAt, vs[m].postedAt);
    }
    forall m | j < m < |vs|
      ensures LexLe(vs[m].postedAt, v.postedAt)
    {
      LexLeTrans(vs[m].postedAt, vs[j].postedAt, v.postedAt);
    }
    forall a, b | 0 <= a < b < |ws|
      ensures LexLe(ws[b].postedAt, ws[a].postedAt)
    {
      if b < j {
        assert ws[a] == vs[a] && ws[b] == vs[b];
      } else if b == j {
        assert ws[a] == vs[a] && ws[b] == v;
      } else if a < j {
        assert ws[a] == vs[a] && ws[b] == vs[b - 1];
        LexLeTrans(vs[b - 1].postedAt, v.postedAt, vs[a].postedAt);
      } else if a == j {
        assert ws[a] == v && ws[b] == vs[b - 1];
      } else {
        assert ws[a] == vs[a - 1] && ws[b] == vs[b - 1];
      }
    }
  }

  /** The elements after an insertion are the old ones and the new one. */
  lemma InsertMembers(vs: seq<PostView>, j: nat, v: PostView)
    requires j <= |vs|
    ensures forall w :: w in vs[..j] + [v] + vs[j..] <==> w == v || w in vs
    ensures IdSet(vs[..j] + [v] + vs[j..]) == IdSet(vs) + {v.linkedinId}
  {
    var ws := vs[..j] + [v] + vs[j..];
    assert vs == vs[..j] + vs[j..];
    assert forall w :: w in ws <==> w == v || w in vs;
    forall x | x in IdSet(ws)
      ensures x in IdSet(vs) + {v.linkedinId}
    {
      var w :| w in ws && w.linkedinId == x;
    }
    forall x | x in IdSet(vs) + {v.linkedinId}
      ensures x in IdSet(ws)
    {
      if x != v.linkedinId {
        var w :| w in vs && w.linkedinId == x;
        assert w in ws;
      } else {
        assert v in ws;
      }
    }
  }

  /** Inserting a view with a new id keeps the ids distinct and adds its id. */
  lemma InsertKeepsIds(vs: seq<PostView>, j: nat, v: PostView)
    requires DistinctIds(vs) && v.linkedinId !in IdSet(vs) && j <= |vs|
    ensures DistinctIds(vs[..j] + [v] + vs[j..])
  {
    var ws := vs[..j] + [v] + vs[j..];
    forall a, b | 0 <= a < b < |ws|
      ensures ws[a].linkedinId != ws[b].linkedinId
    {
      if b < j {
        assert ws[a] == vs[a] && ws[b] == vs[b];
      } else if b == j {
        assert ws[a] == vs[a] && ws[b] == v;
        assert vs[a] in vs;
      } else if a < j {
        assert ws[a] == vs[a] && ws[b] == vs[b - 1];
      } else if a == j {
        assert ws[a] == v && ws[b] == vs[b - 1];
        assert vs[b - 1] in vs;
      } else {
        assert ws[a] == vs[a - 1] && ws[b] == vs[b - 1];
      }
    }
  }

  /** Places `v` before the first view that does not sort after it, so
      that the sequence stays in `ORDER BY posted_at DESC` order. */
  method InsertByPostedAt(vs: seq<PostView>, v: PostView) returns (ws: seq<PostView>)
    requires SortedByPostedAtDesc(vs) && DistinctIds(vs) && v.linkedinId !in IdSet(vs)
    ensures SortedByPostedAtDesc(ws) && DistinctIds(ws)
    ensures IdSet(ws) == IdSet(vs) + {v.linkedinId}
    ensures forall w :: w in ws <==> w == v || w in vs
  {
    var j := 0;
    while j < |vs| && !LexLe(vs[j].postedAt, v.postedAt)
      invariant 0 <= j <= |vs|
      invariant forall m :: 0 <= m < j ==> !LexLe(vs[m].postedAt, v.postedAt)
    {
      j := j + 1;
    }
    InsertKeepsOrder(vs, j, v);
    InsertKeepsIds(vs, j, v);
    InsertMembers(vs, j, v);
    ws := vs[..j] + [v] + vs[j..];
  }

  // ---------------------------------------------------------------------
  // Row ids

  lemma {:induction false} MaxExists(s: set<int>)
    requires s != {}
    ensures exists m :: m in s && forall y :: y in s ==> y <= m
    decreases |s|
  {
    if forall y :: y !in s { assert false; }  // a non-empty set has an element
    var x :| x in s;
    if !forall y :: y in s ==> y <= x {
      var z :| z in s && z > x;
      var t := s - {x};
      assert z in t;
      MaxExists(t);
      var m :| m in t && forall y :: y in t ==> y <= m;
      assert forall y :: y in s ==> y == x || y in t;
      assert m in s && forall y :: y in s ==> y <= m;
    }
  }

  /** The row id SQLite gives a row inserted without one into a table with an
      INTEGER PRIMARY KEY: one more than the largest id present, or 1 when the
      table is empty. */
  function NextRowId(ids: set<int>): (r: int)
    ensures r !in ids
    ensures forall y :: y in ids ==> y < r
    ensures ids == {} ==> r == 1
    ensures ids != {} ==> r - 1 in ids
  {
    if ids == {} then 1
    else
      MaxExists(ids);
      var m :| m in ids && forall y :: y in ids ==> y <= m;
      m + 1
  }

  /** The cascade step of `remove_target`: the posts table without the posts
      of the removed target. */
  function PostsNotOf(posts: map<string, PostRow>, targetId: int): (r: map<string, PostRow>)
    ensures forall k :: k in r <==> k in posts && posts[k].targetId != targetId
    ensures forall k :: k in r ==> r[k] == posts[k]
  {
    map k | k in posts && posts[k].targetId != targetId :: posts[k]
  }

  /** Every row of `a` is still in `b`, unchanged. */
  ghost predicate Extends<K, V>(a: map<K, V>, b: map<K, V>)
  {
    forall k :: k in a ==> k in b && b[k] == a[k]
  }

  lemma ExtendsTrans<K, V>(a: map<K, V>, b: map<K, V>, c: map<K, V>)
    requires Extends(a, b) && Extends(b, c)
    ensures Extends(a, c)
  {
  }

  /** Every target row of `a` is still in `b` under the same url. */
  ghost predicate UrlsKept(a: map<int, TargetRow>, b: map<int, TargetRow>)
  {
    forall id :: id in a ==> id in b && b[id].url == a[id].url
  }

  lemma UrlsKeptAt(a: map<int, TargetRow>, b: map<int, TargetRow>, id: int)
    requires UrlsKept(a, b) && id in a
    ensures id in b && b[id].url == a[id].url
  {
  }

  lemma UrlsKeptTrans(a: map<int, TargetRow>, b: map<int, TargetRow>, c: map<int, TargetRow>)
    requires UrlsKept(a, b) && UrlsKept(b, c)
    ensures UrlsKept(a, c)
  {
  }

  /** The urls a targets table holds. */
  ghost function UrlsOf(m: map<int, TargetRow>): set<string>
  {
    set id | id in m :: m[id].url
  }

  /** Writing a row under a fresh id, or over a row with the same url,
      adds exactly that url. */
  lemma UrlsOfUpdate(m: map<int, TargetRow>, id: int, row: TargetRow)
    requires id in m ==> m[id].url == row.url
    ensures UrlsOf(m[id := row]) == UrlsOf(m) + {row.url}
  {
    var m' := m[id := row];
    forall u | u in UrlsOf(m) + {row.url}
      ensures u in UrlsOf(m')
    {
      if u != row.url {
        var k :| k in m && m[k].url == u;
        assert k in m' && m'[k].url == u;
      } else {
        assert id in m' && m'[id].url == u;
      }
    }
  }

  /** With urls unique, deleting a row removes exactly its url. */
  lemma UrlsOfRemove(m: map<int, TargetRow>, id: int)
    requires id in m
    requires forall a, b :: a in m && b in m && a != b ==> m[a].url != m[b].url
    ensures UrlsOf(m - {id}) == UrlsOf(m) - {m[id].url}
  {
    var m' := m - {id};
    forall u | u in UrlsOf(m) - {m[id].url}
      ensures u in UrlsOf(m')
    {
      var k :| k in m && m[k].url == u;
      assert k in m' && m'[k].url == u;
    }
  }

  class Database {
    var targets: map<int, TargetRow>
    var posts: map<string, PostRow>
    var newsletters: seq<NewsletterRow>

    /** The schema's constraints: target urls are unique and every post
        names an existing target. (linkedin_id is unique because it is the
        key of `posts`.) */
    ghost predicate Valid()
      reads this
    {
      && (forall a, b :: a in targets && b in targets && a != b ==> targets[a].url != targets[b].url)
      && (forall k :: k in posts ==> posts[k].targetId in targets)
    }

    /** A new database file: `_create_tables` on an empty file. */
    constructor ()
      ensures Valid()
      ensures targets == map[] && posts == map[] && newsletters == []
    {
      targets := map[];
      posts := map[];
      newsletters := [];
    }

    /** The urls of all registered targets. */
    ghost function Urls(): set<string>
      reads this
    {
      UrlsOf(targets)
    }

    /** The id of the row whose url is exactly `url`, if there is one. */
    function IdOf(url: string): (r: Option<int>)
      reads this
      requires Valid()
      ensures r.Some? ==> r.value in targets && targets[r.value].url == url
      ensures r.None? ==> forall id :: id in targets ==> targets[id].url != url
    {
      if exists id :: id in targets && targets[id].url == url then
        var id :| id in targets && targets[id].url == url;
        Some(id)
      else
        None
    }

    /** A url is found exactly when it is one of the registered urls. */
    lemma IdOfFindsUrls(url: string)
      requires Valid()
      ensures IdOf(url).Some? <==> url in Urls()
    {
      if url in Urls() {
        var id :| id in targets && targets[id].url == url;
      }
    }

    /** With urls unique, the row holding a url is the one `IdOf` finds. */
    lemma IdOfOwner(url: string, id: int)
      requires Valid() && id in targets && targets[id].url == url
      ensures IdOf(url) == Some(id)
    {
    }

    /** `upsert_target`: the row with exactly this url gets the new type and
        name and keeps its id; without one a row with a fresh id is added. */
    method UpsertTarget(url: string, targetType: string, name: string) returns (id: int)
      requires Valid()
      modifies this
      ensures Valid()
      ensures old(IdOf(url)).Some? ==> id == old(IdOf(url)).value
      ensures old(IdOf(url)).None? ==> id !in old(targets) && id == NextRowId(old(targets).Keys)
      ensures targets == old(targets)[id := TargetRow(url, targetType, name)]
      ensures IdOf(url) == Some(id)
      ensures Urls() == old(Urls()) + {url}
      ensures UrlsKept(old(targets), targets)
      ensures posts == old(posts) && newsletters == old(newsletters)
    {
      var row := IdOf(url);
      if row.Some? {
        id := row.value;
        targets := targets[id := TargetRow(url, targetType, name)];
        IdOfOwner(url, id);
        UrlsOfUpdate(old(targets), id, TargetRow(url, targetType, name));
        return;
      }
      id := NextRowId(targets.Keys);
      UrlsOfUpdate(targets, id, TargetRow(url, targetType, name));
      targets := targets[id := TargetRow(url, targetType, name)];
      IdOfOwner(url, id);
    }

    /** `remove_target`: false and no change for an unknown url; otherwise
        the target and all its posts are deleted. */
    method RemoveTarget(url: string) returns (removed: bool)
      requires Valid()
      modifies this
      ensures Valid()
      ensures removed == old(IdOf(url)).Some?
      ensures !removed ==> targets == old(targets) && posts == old(posts)
      ensures removed ==> targets == old(targets) - {old(IdOf(url)).value}
      ensures removed ==> posts == PostsNotOf(old(posts), old(IdOf(url)).value)
      ensures IdOf(url) == None
      ensures Urls() == old(Urls()) - {url}
      ensures newsletters == old(newsletters)
    {
      var row := IdOf(url);
      if row.None? {
        return false;
      }
      UrlsOfRemove(targets, row.value);
      posts := PostsNotOf(posts, row.value);
      targets := targets - {row.value};
      return true;
    }

    /** `list_targets`: every target exactly once, in no promised order. */
    method ListTargets() returns (rows: seq<Target>)
      requires Valid()
      ensures |rows| == |targets|
      ensures forall t :: t in rows <==> t.id in targets && targets[t.id] == TargetRow(t.url, t.targetType, t.name)
      ensures forall i, j :: 0 <= i < j < |rows| ==> rows[i].id != rows[j].id
    {
      rows := [];
      var pending := targets.Keys;
      while pending != {}
        invariant pending <= targets.Keys
        invariant |rows| + |pending| == |targets|
        invariant forall t :: t in rows <==> t.id in targets.Keys - pending && targets[t.id] == TargetRow(t.url, t.targetType, t.name)
        invariant forall i, j :: 0 <= i < j < |rows| ==> rows[i].id != rows[j].id
        decreases |pending|
      {
        if forall y :: y !in pending { assert false; }
        var id :| id in pending;
        var row := targets[id];
        rows := rows + [Target(id, row.url, row.targetType, row.name)];
        pending := pending - {id};
      }
      assert targets.Keys - pending == targets.Keys;
    }

    /** `insert_post`: the UNIQUE linkedin_id and the foreign key on
        target_id both raise IntegrityError, reported as false with no
        change; otherwise one post is added, stamped with `now`. */
    method InsertPost(targetId: int, linkedinId: string, author: string, text: string,
                      url: string, mediaUrls: seq<string>, postedAt: string, now: int)
      returns (inserted: bool)
      requires Valid()
      modifies this
      ensures Valid()
      ensures inserted == (linkedinId !in old(posts) && targetId in old(targets))
      ensures inserted ==> posts == old(posts)[linkedinId := PostRow(targetId, author, text, url, mediaUrls, postedAt, now)]
      ensures !inserted ==> posts == old(posts)
      ensures targets == old(targets) && newsletters == old(newsletters)
    {
      if linkedinId in posts || targetId !in targets {
        return false;
      }
      posts := posts[linkedinId := PostRow(targetId, author, text, url, mediaUrls, postedAt, now)];
      return true;
    }

    /** A stored post joined with its target. */
    function JoinView(linkedinId: string): (v: PostView)
      reads this
      requires Valid() && linkedinId in posts
      ensures v.linkedinId == linkedinId && v.mediaUrls == posts[linkedinId].mediaUrls
    {
      var p := posts[linkedinId];
      var t := targets[p.targetId];
      PostView(linkedinId, p.author, p.text, p.url, p.mediaUrls, p.postedAt, p.scrapedAt,
               t.name, t.targetType, t.url)
    }

    /** The ids of the posts scraped after `cutoff`. */
    ghost function ScrapedAfter(cutoff: int): set<string>
      reads this
    {
      set k | k in posts && posts[k].scrapedAt > cutoff
    }

    /** The state of `get_new_posts` with the ids in `pending` still to look
        at: the posts seen so far that were scraped after the cutoff, each
        once, joined with its target and in `posted_at` order. */
    ghost predicate Gathered(results: seq<PostView>, pending: set<string>, cutoff: int)
      reads this
      requires Valid()
    {
      && pending <= posts.Keys
      && IdSet(results) == ScrapedAfter(cutoff) - pending
      && DistinctIds(results)
      && SortedByPostedAtDesc(results)
      && (forall v :: v in results ==> v.linkedinId in posts && v == JoinView(v.linkedinId))
    }

    /** Looks at one more post: kept, in order, when scraped after the cutoff. */
    method GatherOne(results: seq<PostView>, pending: set<string>, cutoff: int, k: string)
      returns (results': seq<PostView>)
      requires Valid() && Gathered(results, pending, cutoff) && k in pending
      ensures Gathered(results', pending - {k}, cutoff)
    {
      assert ScrapedAfter(cutoff) - (pending - {k})
          == (ScrapedAfter(cutoff) - pending) + (if posts[k].scrapedAt > cutoff then {k} else {});
      if posts[k].scrapedAt > cutoff {
        results' := InsertByPostedAt(results, JoinView(k));
      } else {
        results' := results;
      }
    }

    /** `get_new_posts`: every post scraped after the cutoff exactly once,
        joined with its target, latest `posted_at` first. */
    method GetNewPosts(cutoff: int) returns (results: seq<PostView>)
      requires Valid()
      ensures IdSet(results) == ScrapedAfter(cutoff)
      ensures DistinctIds(results)
      ensures SortedByPostedAtDesc(results)
      ensures forall v :: v in results ==> v.linkedinId in posts && v == JoinView(v.linkedinId)
    {
      results := [];
      var pending := posts.Keys;
      while pending != {}
        invariant Gathered(results, pending, cutoff)
        decreases |pending|
      {
        if forall y :: y !in pending { assert false; }
        var k :| k in pending;
        results := GatherOne(results, pending, cutoff, k);
        pending := pending - {k};
      }
    }

    /** `record_newsletter`: one log entry appended, nothing else changed. */
    method RecordNewsletter(filePath: string, postCount: int)
      requires Valid()
      modifies this
      ensures Valid()
      ensures newsletters == old(newsletters) + [NewsletterRow(filePath, postCount)]
      ensures targets == old(targets) && posts == old(posts)
    {
      newsletters := newsletters + [NewsletterRow(filePath, postCount)];
    }
  }
}
