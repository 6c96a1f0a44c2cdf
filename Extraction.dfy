/**
 * The per-element loop of `_extract_posts_from_page` (src/ai4news/scraper.py):
 * each element found on a target's page becomes a candidate, candidates
 * whose id cannot be resolved are skipped, and the others become post
 * records with their images, author, text, timestamp and permalink.
 * The browser queries themselves are not modelled: the values they return
 * are the fields of a `Candidate`.
 */
module Extraction {
  import opened Wrappers
  import opened Identity

  /** What the page yields for one post element. An attribute or link the
      element lacks is "" (Python treats None and "" alike here); an author or
      text element it lacks is None. */
  datatype Candidate = Candidate(
    dataUrn: string,
    postUrl: string,
    authorText: Option<string>,
    bodyText: Option<string>,
    imageSrcs: seq<string>,
    datetime: string)

  /** A post as handed to the store by the scraper. */
  datatype PostData = PostData(
    linkedinId: string,
    author: string,
    text: string,
    url: string,
    mediaUrls: seq<string>,
    postedAt: string)

  /** The image sources kept for a post: the non-empty ones, in page order. */
  function NonEmptySrcs(srcs: seq<string>): (r: seq<string>)
    ensures |r| <= |srcs|
    ensures forall u :: u in r ==> u != "" && u in srcs
    ensures forall u :: u in srcs && u != "" ==> u in r
  {
    if srcs == [] then []
    else
      var last := srcs[|srcs| - 1];
      assert srcs == srcs[..|srcs| - 1] + [last];
      NonEmptySrcs(srcs[..|srcs| - 1]) + (if last != "" then [last] else [])
  }

  /** The post a candidate becomes, or None when it carries no resolvable id. */
  function ToPost(c: Candidate): Option<PostData> {
    match ResolveId(c.dataUrn, c.postUrl)
    case None => None
    case Some(id) =>
      Some(PostData(id, c.authorText.GetOr("Unknown"), c.bodyText.GetOr(""),
                    DefaultPermalink(c.postUrl, id), NonEmptySrcs(c.imageSrcs), c.datetime))
  }

  /** The posts a page yields: the candidates' posts, in page order, with the
      unresolvable candidates left out. */
  function ExtractedPosts(cs: seq<Candidate>): (r: seq<PostData>)
    ensures |r| <= |cs|
  {
    if cs == [] then []
    else
      var last := cs[|cs| - 1];
      ExtractedPosts(cs[..|cs| - 1]) + (match ToPost(last) case Some(p) => [p] case None => [])
  }

  /** Every extracted post has a well-formed id and a non-empty permalink. */
  lemma {:induction false} ExtractedPostsWellFormed(cs: seq<Candidate>)
    ensures forall p :: p in ExtractedPosts(cs) ==> IsActivityId(p.linkedinId) && p.url != ""
  {
    if cs != [] {
      var last := cs[|cs| - 1];
      ExtractedPostsWellFormed(cs[..|cs| - 1]);
      if ToPost(last).Some? {
        assert ToPost(last).value.url != "";
      }
    }
  }

  lemma ExtractedPostsSnoc(cs: seq<Candidate>, c: Candidate)
    ensures ExtractedPosts(cs + [c]) == ExtractedPosts(cs) + (match ToPost(c) case Some(p) => [p] case None => [])
  {
    assert (cs + [c])[..|cs|] == cs;
  }

  /** A post is extracted exactly when some candidate becomes it. */
  lemma {:induction false} ExtractedPostsMembership(cs: seq<Candidate>, p: PostData)
    ensures p in ExtractedPosts(cs) <==> exists c :: c in cs && ToPost(c) == Some(p)
  {
    if cs != [] {
      var init, last := cs[..|cs| - 1], cs[|cs| - 1];
      assert cs == init + [last];
      ExtractedPostsMembership(init, p);
      if p in ExtractedPosts(init) {
        var c :| c in init && ToPost(c) == Some(p);
        assert c in cs;
      }
      if ToPost(last) == Some(p) {
        assert last in cs;
      }
    }
  }

  /** A page whose candidates all lack an id yields no posts. */
  lemma {:induction false} UnresolvableCandidatesSkipped(cs: seq<Candidate>)
    requires forall c :: c in cs ==> ResolveId(c.dataUrn, c.postUrl).None?
    ensures ExtractedPosts(cs) == []
  {
    if cs != [] {
      assert cs[..|cs| - 1] + [cs[|cs| - 1]] == cs;
      UnresolvableCandidatesSkipped(cs[..|cs| - 1]);
    }
  }

  /** A post built without a link on the page carries a permalink from which
      its own id is recovered. */
  lemma PermalinkOfLinklessPost(c: Candidate)
    requires c.postUrl == "" && ToPost(c).Some?
    ensures ExtractLinkedinId(ToPost(c).value.url) == Some(ToPost(c).value.linkedinId)
  {
    DefaultPermalinkRoundTrip(ToPost(c).value.linkedinId);
  }

  /** The image loop: every image source that is present and non-empty is
      appended to the media list. */
  method CollectMedia(srcs: seq<string>) returns (media: seq<string>)
    ensures media == NonEmptySrcs(srcs)
  {
    media := [];
    var i := 0;
    while i < |srcs|
      invariant 0 <= i <= |srcs|
      invariant media == NonEmptySrcs(srcs[..i])
    {
      assert srcs[..i + 1][..i] == srcs[..i];
      if srcs[i] != "" {
        media := media + [srcs[i]];
      }
      i := i + 1;
    }
    assert srcs[..i] == srcs;
  }

  /** The body of the element loop of `_extract_posts_from_page`: the post
      one element becomes, if any. */
  method ExtractOne(el: Candidate) returns (post: Option<PostData>)
    ensures post == ToPost(el)
  {
    var linkedinId: Option<string> := None;
    if el.dataUrn != "" {
      linkedinId := ExtractLinkedinId(el.dataUrn);
    }
    if linkedinId.None? && el.postUrl != "" {
      linkedinId := ExtractLinkedinId(el.postUrl);
    }
    assert linkedinId == ResolveId(el.dataUrn, el.postUrl);
    if linkedinId.None? {
      return None;
    }
    var author := if el.authorText.Some? then el.authorText.value else "Unknown";
    var text := if el.bodyText.Some? then el.bodyText.value else "";
    var media := CollectMedia(el.imageSrcs);
    var postUrl := el.postUrl;
    if postUrl == "" {
      postUrl := FeedUpdatePrefix + linkedinId.value;
    }
    post := Some(PostData(linkedinId.value, author, text, postUrl, media, el.datetime));
  }

  /** The element loop of `_extract_posts_from_page`. */
  method ExtractPostsFromPage(elements: seq<Candidate>) returns (posts: seq<PostData>)
    ensures posts == ExtractedPosts(elements)
  {
    posts := [];
    var i := 0;
    while i < |elements|
      invariant 0 <= i <= |elements|
      invariant posts == ExtractedPosts(elements[..i])
    {
      var el := elements[i];
      assert elements[..i + 1] == elements[..i] + [el];
      ExtractedPostsSnoc(elements[..i], el);
      var post := ExtractOne(el);
      if post.Some? {
        posts := posts + [post.value];
      }
      i := i + 1;
    }
    assert elements[..i] == elements;
  }
}
