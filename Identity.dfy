/**
 * Pure identity and URL helpers of the scraper (src/ai4news/scraper.py):
 * the activity-page URL of a target, the extraction of a post's activity id
 * from a URL or attribute, the choice between the data-urn attribute and the
 * permalink, and the default permalink of a post that has none.
 */
module Identity {
  import opened Wrappers

  /** `s` ends with a '/'. */
  predicate EndsWithSlash(s: string) {
    |s| > 0 && s[|s| - 1] == '/'
  }

  /** Every character of `s` is '/'. */
  predicate AllSlashes(s: string) {
    forall i :: 0 <= i < |s| ==> s[i] == '/'
  }

  /** Python's `s.rstrip("/")`: removes every trailing '/'. */
  function RStripSlash(s: string): (r: string)
    ensures |r| <= |s| && r == s[..|r|]
    ensures !EndsWithSlash(r)
    ensures AllSlashes(s[|r|..])
  {
    if EndsWithSlash(s) then
      var t := s[..|s| - 1];
      var r := RStripSlash(t);
      assert s[..|r|] == t[..|r|];
      assert s[|r|..] == t[|r|..] + [s[|s| - 1]];
      r
    else s
  }

  /** The cut point of `rstrip("/")` is unique: a prefix with no trailing '/'
      followed only by slashes is exactly what `RStripSlash` keeps. */
  lemma {:induction false} RStripSlashUnique(s: string, k: nat)
    requires k <= |s|
    requires !EndsWithSlash(s[..k]) && AllSlashes(s[k..])
    ensures RStripSlash(s) == s[..k]
  {
    if k == |s| {
      assert s[..k] == s;
    } else {
      assert s[|s| - 1] == s[k..][|s| - 1 - k];
      var t := s[..|s| - 1];
      assert t[..k] == s[..k];
      assert forall i :: 0 <= i < |t[k..]| ==> t[k..][i] == s[k..][i];
      RStripSlashUnique(t, k);
    }
  }

  const PersonSuffix: string := "/recent-activity/all/"
  const CompanySuffix: string := "/posts/"

  /** `build_activity_url`: the page listing a target's recent posts. */
  function BuildActivityUrl(baseUrl: string, targetType: string): string {
    var url := RStripSlash(baseUrl);
    if targetType == "person" then url + PersonSuffix
    else if targetType == "company" then url + CompanySuffix
    else url
  }

  /** The activity URL is the base URL cut before its run of trailing
      slashes, followed by the suffix of the target's type. */
  lemma ActivityUrlShape(baseUrl: string, targetType: string, k: nat)
    requires k <= |baseUrl|
    requires !EndsWithSlash(baseUrl[..k]) && AllSlashes(baseUrl[k..])
    ensures targetType == "person" ==> BuildActivityUrl(baseUrl, targetType) == baseUrl[..k] + "/recent-activity/all/"
    ensures targetType == "company" ==> BuildActivityUrl(baseUrl, targetType) == baseUrl[..k] + "/posts/"
    ensures targetType != "person" && targetType != "company" ==> BuildActivityUrl(baseUrl, targetType) == baseUrl[..k]
  {
    RStripSlashUnique(baseUrl, k);
  }

  /** Appending a '/' to the base URL never changes the activity URL. */
  lemma ActivityUrlIgnoresTrailingSlash(baseUrl: string, targetType: string)
    ensures BuildActivityUrl(baseUrl + "/", targetType) == BuildActivityUrl(baseUrl, targetType)
  {
    var s := baseUrl + "/";
    var k := |RStripSlash(baseUrl)|;
    assert s[..k] == baseUrl[..k];
    assert forall i :: 0 <= i < |s[k..]| ==> s[k..][i] == (baseUrl[k..] + "/")[i];
    RStripSlashUnique(s, k);
  }

  // ---------------------------------------------------------------------
  // extract_linkedin_id_from_url: the first "urn:li:activity:" followed by
  // one or more digits, taken with all the digits that follow it

  const ActivityPrefix: string := "urn:li:activity:"

  predicate IsDigit(c: char) {
    '0' <= c <= '9'
  }

  /** The pattern `urn:li:activity:\d` starts at index `i` of `s`. */
  predicate MatchAt(s: string, i: nat) {
    i + |ActivityPrefix| < |s|
    && s[i..i + |ActivityPrefix|] == ActivityPrefix
    && IsDigit(s[i + |ActivityPrefix|])
  }

  /** `s` contains the pattern somewhere. */
  ghost predicate HasMatch(s: string) {
    exists i: nat :: MatchAt(s, i)
  }

  /** A well-formed activity id: the prefix followed by one or more digits. */
  predicate IsActivityId(id: string) {
    |id| > |ActivityPrefix|
    && id[..|ActivityPrefix|] == ActivityPrefix
    && forall j :: |ActivityPrefix| <= j < |id| ==> IsDigit(id[j])
  }

  /** The leftmost index at or after `from` where the pattern starts. */
  function FindMatch(s: string, from: nat): (r: Option<nat>)
    decreases |s| - from
    ensures r.Some? ==> from <= r.value && r.value + |ActivityPrefix| < |s|
  {
    if from + |ActivityPrefix| >= |s| then None
    else if MatchAt(s, from) then Some(from)
    else FindMatch(s, from + 1)
  }

  /** `FindMatch` finds a match, and no match lies between `from` and it;
      when it finds none, there is none at or after `from`. */
  lemma {:induction false} FindMatchSpec(s: string, from: nat)
    decreases |s| - from
    ensures FindMatch(s, from).Some? ==> MatchAt(s, FindMatch(s, from).value)
    ensures FindMatch(s, from).Some? ==> forall j: nat :: from <= j < FindMatch(s, from).value ==> !MatchAt(s, j)
    ensures FindMatch(s, from).None? ==> forall j: nat :: from <= j ==> !MatchAt(s, j)
  {
    if from + |ActivityPrefix| < |s| && !MatchAt(s, from) {
      FindMatchSpec(s, from + 1);
    }
  }

  /** Length of the maximal run of digits of `s` starting at `from`. */
  function DigitRun(s: string, from: nat): (n: nat)
    requires from <= |s|
    decreases |s| - from
    ensures from + n <= |s|
  {
    if from < |s| && IsDigit(s[from]) then 1 + DigitRun(s, from + 1) else 0
  }

  /** `DigitRun` covers only digits and stops at the first non-digit. */
  lemma {:induction false} DigitRunSpec(s: string, from: nat)
    requires from <= |s|
    decreases |s| - from
    ensures forall j :: from <= j < from + DigitRun(s, from) ==> IsDigit(s[j])
    ensures from + DigitRun(s, from) == |s| || !IsDigit(s[from + DigitRun(s, from)])
  {
    if from < |s| && IsDigit(s[from]) {
      DigitRunSpec(s, from + 1);
    }
  }

  /** The leftmost match of the pattern starts at `i` and its digit run,
      taken as long as possible, makes the match `len` characters long. */
  predicate IsLeftmostMatch(s: string, i: nat, len: nat) {
    && MatchAt(s, i)
    && (forall j: nat :: j < i ==> !MatchAt(s, j))
    && |ActivityPrefix| < len && i + len <= |s|
    && (forall j :: i + |ActivityPrefix| <= j < i + len ==> IsDigit(s[j]))
    && (i + len == |s| || !IsDigit(s[i + len]))
  }

  /** `extract_linkedin_id_from_url`: the leftmost `urn:li:activity:` followed
      by its maximal run of digits, or None. */
  function ExtractLinkedinId(url: string): Option<string> {
    match FindMatch(url, 0)
    case None => None
    case Some(i) => Some(url[i..i + |ActivityPrefix| + DigitRun(url, i + |ActivityPrefix|)])
  }

  /** `id` is the text of the leftmost maximal match in `url`. */
  ghost predicate IsMatchText(url: string, id: string) {
    exists i: nat :: IsLeftmostMatch(url, i, |id|) && url[i..i + |id|] == id
  }

  /** An id is found exactly when the pattern occurs somewhere. */
  lemma ExtractFindsAnyMatch(url: string)
    ensures ExtractLinkedinId(url).None? <==> !HasMatch(url)
  {
    FindMatchSpec(url, 0);
    if FindMatch(url, 0).Some? {
      assert MatchAt(url, FindMatch(url, 0).value);
    }
  }

  /** An extracted id is well formed: the prefix and at least one digit. */
  lemma ExtractIsActivityId(url: string)
    ensures ExtractLinkedinId(url).Some? ==> IsActivityId(ExtractLinkedinId(url).value)
  {
    FindMatchSpec(url, 0);
    match FindMatch(url, 0)
    case None =>
    case Some(i) =>
      DigitRunSpec(url, i + |ActivityPrefix|);
      var id := url[i..i + |ActivityPrefix| + DigitRun(url, i + |ActivityPrefix|)];
      assert id[..|ActivityPrefix|] == url[i..i + |ActivityPrefix|];
  }

  /** An extracted id is the text of the leftmost maximal match. */
  lemma ExtractIsMatchText(url: string)
    ensures ExtractLinkedinId(url).Some? ==> IsMatchText(url, ExtractLinkedinId(url).value)
  {
    FindMatchSpec(url, 0);
    match FindMatch(url, 0)
    case None =>
    case Some(i) =>
      DigitRunSpec(url, i + |ActivityPrefix|);
      var len := |ActivityPrefix| + DigitRun(url, i + |ActivityPrefix|);
      assert IsLeftmostMatch(url, i, len);
      assert |url[i..i + len]| == len;
  }

  /** The leftmost maximal match determines the extracted id completely. */
  lemma {:induction false} ExtractedIdIsLeftmostMaximal(url: string, i: nat, len: nat)
    requires IsLeftmostMatch(url, i, len)
    ensures ExtractLinkedinId(url) == Some(url[i..i + len])
  {
    FindMatchSpec(url, 0);
    assert FindMatch(url, 0) == Some(i);
    DigitRunUnique(url, i + |ActivityPrefix|, i + len);
  }

  lemma {:induction false} DigitRunUnique(s: string, from: nat, e: nat)
    requires from <= e <= |s|
    requires forall j :: from <= j < e ==> IsDigit(s[j])
    requires e == |s| || !IsDigit(s[e])
    ensures from + DigitRun(s, from) == e
    decreases e - from
  {
    if from < e {
      DigitRunUnique(s, from + 1, e);
    }
  }

  /** Text appended after a string does not change the matches that lie
      wholly inside it. */
  lemma MatchAtExtend(u: string, w: string, j: nat)
    requires j + |ActivityPrefix| < |u|
    ensures MatchAt(u + w, j) == MatchAt(u, j)
  {
    assert (u + w)[j..j + |ActivityPrefix|] == u[j..j + |ActivityPrefix|];
  }

  /** The leftmost match of `u` is still the leftmost one after text is
      appended to `u`. */
  lemma {:induction false} FindMatchExtend(u: string, w: string, from: nat, i: nat)
    requires FindMatch(u, from) == Some(i)
    ensures FindMatch(u + w, from) == Some(i)
    decreases |u| - from
  {
    MatchAtExtend(u, w, from);
    if from < i {
      FindMatchExtend(u, w, from + 1, i);
    }
  }

  /** A digit run that ends at the end of `u` stops there when a non-digit
      is appended. */
  lemma {:induction false} DigitRunExtend(u: string, w: string, from: nat)
    requires from <= |u|
    requires |w| > 0 && !IsDigit(w[0])
    ensures DigitRun(u + w, from) == DigitRun(u, from)
    decreases |u| - from
  {
    var s := u + w;
    if from < |u| {
      assert s[from] == u[from];
      DigitRunExtend(u, w, from + 1);
    } else {
      assert s[from] == w[0];
    }
  }

  /** A '?' query string after a URL that already holds an id does not
      change the id: the match never runs into the query. */
  lemma ExtractIgnoresQuery(url: string, query: string)
    requires ExtractLinkedinId(url).Some?
    ensures ExtractLinkedinId(url + "?" + query) == ExtractLinkedinId(url)
  {
    var i := FindMatch(url, 0).value;
    var w := "?" + query;
    var s := url + w;
    assert url + "?" + query == s;
    FindMatchExtend(url, w, 0, i);
    DigitRunExtend(url, w, i + |ActivityPrefix|);
    var n := DigitRun(url, i + |ActivityPrefix|);
    assert s[i..i + |ActivityPrefix| + n] == url[i..i + |ActivityPrefix| + n];
  }

  // ---------------------------------------------------------------------
  // Choosing a post's id and permalink (_extract_posts_from_page)

  /** The id of a candidate post: from its data-urn attribute when that holds
      one, otherwise from its permalink. An absent attribute or link is "". */
  function ResolveId(dataUrn: string, postUrl: string): (r: Option<string>)
    ensures HasMatch(dataUrn) ==> r == ExtractLinkedinId(dataUrn)
    ensures !HasMatch(dataUrn) ==> r == ExtractLinkedinId(postUrl)
    ensures r.None? <==> !HasMatch(dataUrn) && !HasMatch(postUrl)
    ensures r.Some? ==> IsActivityId(r.value)
  {
    ExtractFindsAnyMatch(dataUrn);
    ExtractFindsAnyMatch(postUrl);
    ExtractIsActivityId(dataUrn);
    ExtractIsActivityId(postUrl);
    var fromUrn := if dataUrn != "" then ExtractLinkedinId(dataUrn) else None;
    // ExtractLinkedinId never yields "", so "no id yet" is exactly None
    if fromUrn.None? && postUrl != "" then ExtractLinkedinId(postUrl) else fromUrn
  }

  const FeedUpdatePrefix: string := "https://www.linkedin.com/feed/update/"

  /** The permalink stored for a post: the link found on the page, or the
      feed-update URL built from the id when the page had none. */
  function DefaultPermalink(postUrl: string, linkedinId: string): string {
    if postUrl == "" then FeedUpdatePrefix + linkedinId else postUrl
  }

  /** No match starts inside the feed-update prefix: every window of
      16 characters starting there holds a '/' or does not start with 'u'. */
  lemma NoMatchInFeedPrefix(s: string, j: nat)
    requires |s| >= |FeedUpdatePrefix| && s[..|FeedUpdatePrefix|] == FeedUpdatePrefix
    requires j < |FeedUpdatePrefix|
    ensures !MatchAt(s, j)
  {
    assert |FeedUpdatePrefix| == 37 && FeedUpdatePrefix[7] == '/' && FeedUpdatePrefix[24] == '/'
      && FeedUpdatePrefix[29] == '/' && FeedUpdatePrefix[36] == '/' && FeedUpdatePrefix[8] == 'w';
    assert forall k :: 0 <= k < |ActivityPrefix| ==> ActivityPrefix[k] != '/';
    var q := if j <= 7 then 7 else if j <= 24 then 24 else if j <= 29 then 29 else 36;
    assert s[q] == '/' && s[8] == 'w';
    if j + |ActivityPrefix| < |s| {
      var w := s[j..j + |ActivityPrefix|];
      assert j != 8 ==> w[q - j] == '/';
      assert j == 8 ==> w[0] == 'w';
    }
  }

  /** A permalink built from an id yields that same id back. */
  lemma DefaultPermalinkRoundTrip(linkedinId: string)
    requires IsActivityId(linkedinId)
    ensures ExtractLinkedinId(DefaultPermalink("", linkedinId)) == Some(linkedinId)
  {
    var s := FeedUpdatePrefix + linkedinId;
    var n := |FeedUpdatePrefix|;
    assert s[..n] == FeedUpdatePrefix;
    assert s[n..n + |ActivityPrefix|] == linkedinId[..|ActivityPrefix|];
    assert MatchAt(s, n);
    forall j: nat | j < n
      ensures !MatchAt(s, j)
    {
      NoMatchInFeedPrefix(s, j);
    }
    assert IsLeftmostMatch(s, n, |linkedinId|);
    assert s[n..n + |linkedinId|] == linkedinId;
    ExtractedIdIsLeftmostMaximal(s, n, |linkedinId|);
  }

  // ---------------------------------------------------------------------
  // The expected outputs of tests/test_scraper.py

  const PersonPage: string := "https://www.linkedin.com/in/satyanadella"
  const CompanyPage: string := "https://www.linkedin.com/company/openai"
  const HashtagPage: string := "https://www.linkedin.com/feed/hashtag/ai"

  lemma ActivityUrlPersonExample()
    ensures BuildActivityUrl(PersonPage, "person") == PersonPage + "/recent-activity/all/"
  {
    assert PersonPage[|PersonPage| - 1] == 'a';
  }

  lemma ActivityUrlCompanyExample()
    ensures BuildActivityUrl(CompanyPage, "company") == CompanyPage + "/posts/"
  {
    assert CompanyPage[|CompanyPage| - 1] == 'i';
  }

  lemma ActivityUrlHashtagExample()
    ensures BuildActivityUrl(HashtagPage, "hashtag") == HashtagPage
  {
    assert HashtagPage[|HashtagPage| - 1] == 'i';
  }

  /** The person page written with a trailing '/'. */
  lemma ActivityUrlTrailingSlashExample()
    ensures BuildActivityUrl(PersonPage + "/", "person") == PersonPage + "/recent-activity/all/"
  {
    ActivityUrlIgnoresTrailingSlash(PersonPage, "person");
    ActivityUrlPersonExample();
  }

  /** The feed-update permalink of activity 7296543210. */
  lemma ExtractionExample()
    ensures ExtractLinkedinId(FeedUpdatePrefix + "urn:li:activity:7296543210") == Some("urn:li:activity:7296543210")
  {
    var id := "urn:li:activity:7296543210";
    assert id[..|ActivityPrefix|] == ActivityPrefix;
    DefaultPermalinkRoundTrip(id);
  }

  /** The same kind of permalink followed by a query string. */
  lemma ExtractionExampleWithQuery()
    ensures ExtractLinkedinId(FeedUpdatePrefix + "urn:li:activity:123" + "?" + "utm=test") == Some("urn:li:activity:123")
  {
    var id := "urn:li:activity:123";
    assert id[..|ActivityPrefix|] == ActivityPrefix;
    DefaultPermalinkRoundTrip(id);
    ExtractIgnoresQuery(FeedUpdatePrefix + id, "utm=test");
  }

  lemma ExtractionExampleNone()
    ensures ExtractLinkedinId("https://www.linkedin.com/in/someone") == None
  {
    var s := "https://www.linkedin.com/in/someone";
    assert |s| == 35 && s[7] == '/' && s[8] == 'w' && s[24] == '/';
    assert forall k :: 0 <= k < |ActivityPrefix| ==> ActivityPrefix[k] != '/';
    forall j: nat
      ensures !MatchAt(s, j)
    {
      if j + |ActivityPrefix| < |s| {
        var w := s[j..j + |ActivityPrefix|];
        var q := if j <= 7 then 7 else 24;
        assert j != 8 ==> w[q - j] == '/';
        assert j == 8 ==> w[0] == 'w';
      }
    }
    FindMatchSpec(s, 0);
  }
}
