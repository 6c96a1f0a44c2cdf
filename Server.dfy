/**
 * The target-management tools of src/ai4news/server.py and the bookkeeping
 * of `generate_newsletter`. Two stores hold the followed targets: the
 * registry (the `targets` table of the database) and the mirror (the
 * human-editable targets file, here its parsed document). `add_target`
 * validates the type before touching either, then writes the registry and
 * appends to the mirror only when the url is not listed; `remove_target`
 * rewrites the mirror only when the registry removal succeeded.
 */
module Server {
  import opened Wrappers
  import opened Text
  import opened Config
  import opened Storage

  /** The three types the add tool accepts, in the order it lists them. */
  const ToolTargetTypes: seq<string> := ["person", "company", "hashtag"]

  /** The tool accepts exactly the types the targets file accepts. */
  lemma ToolTypesAreConfigTypes(t: string)
    ensures t in ToolTargetTypes <==> t in ValidTargetTypes
  {
  }

  function InvalidTypeMessage(targetType: string): string {
    "Invalid type: " + targetType + ". Must be person, company, or hashtag."
  }

  /** The error result names the rejected type. */
  lemma InvalidTypeMessageNamesType(targetType: string)
    ensures Contains(InvalidTypeMessage(targetType), targetType)
  {
    ContainsMiddle("Invalid type: ", targetType, ". Must be person, company, or hashtag.");
  }

  /** What `add_target` hands back: the record it stored, the error dict of a
      rejected type, or the exception `load_targets` raised after the
      registry write. */
  datatype AddResult =
    | Added(id: int, url: string, targetType: string, name: string)
    | AddRejected(error: string)
    | AddFailed(cause: ConfigError)

  /** What `remove_target` hands back, or the exception `load_targets`
      raised after the registry removal. */
  datatype RemoveResult =
    | Removal(removed: bool, url: string)
    | RemoveFailed(cause: ConfigError)

  /** Some entry of the mirror has exactly this url. */
  predicate HasUrl(records: seq<TargetRecord>, url: string) {
    exists i :: 0 <= i < |records| && records[i].url == url
  }

  /** The urls the mirror lists. */
  function MirrorUrls(records: seq<TargetRecord>): set<string> {
    set i | 0 <= i < |records| :: records[i].url
  }

  /** The record `add_target` appends. */
  function NewRecord(url: string, targetType: string, name: string): TargetRecord {
    TargetRecord(Some(targetType), Some(name), url)
  }

  /** The mirror after `add_target`: the record appended when no entry has
      the url, the list as it was otherwise. */
  function MirrorAdd(records: seq<TargetRecord>, url: string, targetType: string, name: string): seq<TargetRecord> {
    if HasUrl(records, url) then records else records + [NewRecord(url, targetType, name)]
  }

  /** The mirror without the entries whose url is `url`, in their order. */
  function MirrorRemove(records: seq<TargetRecord>, url: string): (r: seq<TargetRecord>)
    ensures |r| <= |records|
  {
    if records == [] then []
    else
      var rest := MirrorRemove(records[1..], url);
      if records[0].url != url then [records[0]] + rest else rest
  }

  /** After adding, the url is listed; entries already there are kept in
      place, and at most one entry is added, none when the url was listed. */
  lemma MirrorAddProperties(records: seq<TargetRecord>, url: string, targetType: string, name: string)
    ensures HasUrl(MirrorAdd(records, url, targetType, name), url)
    ensures records <= MirrorAdd(records, url, targetType, name)
    ensures HasUrl(records, url) ==> MirrorAdd(records, url, targetType, name) == records
    ensures !HasUrl(records, url) ==> MirrorAdd(records, url, targetType, name) == records + [NewRecord(url, targetType, name)]
  {
    if !HasUrl(records, url) {
      var r := records + [NewRecord(url, targetType, name)];
      assert r[|records|].url == url;
    }
  }

  /** Adding lists exactly one more url. */
  lemma MirrorAddUrls(records: seq<TargetRecord>, url: string, targetType: string, name: string)
    ensures MirrorUrls(MirrorAdd(records, url, targetType, name)) == MirrorUrls(records) + {url}
  {
    var r := MirrorAdd(records, url, targetType, name);
    if HasUrl(records, url) {
      var i :| 0 <= i < |records| && records[i].url == url;
      assert url in MirrorUrls(records);
    } else {
      assert r[|records|].url == url;
      forall u | u in MirrorUrls(r)
        ensures u in MirrorUrls(records) + {url}
      {
        var i :| 0 <= i < |r| && r[i].url == u;
        if i < |records| {
          assert records[i].url == u;
        }
      }
      forall u | u in MirrorUrls(records)
        ensures u in MirrorUrls(r)
      {
        var i :| 0 <= i < |records| && records[i].url == u;
        assert r[i].url == u;
      }
    }
  }

  /** An entry is kept exactly when it is an entry with another url. */
  lemma {:induction false} MirrorRemoveMembers(records: seq<TargetRecord>, url: string)
    ensures forall t :: t in MirrorRemove(records, url) <==> t in records && t.url != url
  {
    if records != [] {
      MirrorRemoveMembers(records[1..], url);
      assert forall t :: t in records <==> t == records[0] || t in records[1..];
    }
  }

  /** Removing the url of no entry leaves the list as it was. */
  lemma {:induction false} MirrorRemoveAbsent(records: seq<TargetRecord>, url: string)
    requires !HasUrl(records, url)
    ensures MirrorRemove(records, url) == records
  {
    if records != [] {
      assert records[0].url != url;
      MirrorRemoveAbsent(records[1..], url);
      assert records == [records[0]] + records[1..];
    }
  }

  /** Removing lists exactly one url fewer. */
  lemma MirrorRemoveUrls(records: seq<TargetRecord>, url: string)
    ensures MirrorUrls(MirrorRemove(records, url)) == MirrorUrls(records) - {url}
  {
    var r := MirrorRemove(records, url);
    MirrorRemoveMembers(records, url);
    forall u | u in MirrorUrls(r)
      ensures u in MirrorUrls(records) - {url}
    {
      var i :| 0 <= i < |r| && r[i].url == u;
      assert r[i] in r;
      var j :| 0 <= j < |records| && records[j] == r[i];
    }
    forall u | u in MirrorUrls(records) - {url}
      ensures u in MirrorUrls(r)
    {
      var j :| 0 <= j < |records| && records[j].url == u;
      assert records[j] in records;
      var i :| 0 <= i < |r| && r[i] == records[j];
    }
  }

  /** Removing a url right after adding it leaves what removing it alone
      leaves. */
  lemma RemoveAfterAdd(records: seq<TargetRecord>, url: string, targetType: string, name: string)
    ensures MirrorRemove(MirrorAdd(records, url, targetType, name), url) == MirrorRemove(records, url)
  {
    if !HasUrl(records, url) {
      MirrorRemoveAppend(records, [NewRecord(url, targetType, name)], url);
      assert MirrorRemove([NewRecord(url, targetType, name)], url) == [];
    }
  }

  lemma {:induction false} MirrorRemoveAppend(a: seq<TargetRecord>, b: seq<TargetRecord>, url: string)
    ensures MirrorRemove(a + b, url) == MirrorRemove(a, url) + MirrorRemove(b, url)
  {
    if a != [] {
      assert (a + b)[1..] == a[1..] + b;
      MirrorRemoveAppend(a[1..], b, url);
    } else {
      assert a + b == b;
    }
  }

  /** Adding keeps every record's type valid, so the next `load_targets` of
      the rewritten file succeeds and returns the edited list. */
  lemma MirrorAddLoads(records: seq<TargetRecord>, url: string, targetType: string, name: string)
    requires AllValid(records)
    requires targetType in ValidTargetTypes
    ensures LoadTargets(Document(Some(MirrorAdd(records, url, targetType, name)))) == Ok(MirrorAdd(records, url, targetType, name))
  {
    var added := MirrorAdd(records, url, targetType, name);
    forall i | 0 <= i < |added|
      ensures IsValidType(added[i].targetType)
    {
      if i >= |records| {
        assert added[i] == NewRecord(url, targetType, name);
      }
    }
    LoadAllValid(added);
  }

  /** Likewise for removing. */
  lemma MirrorRemoveLoads(records: seq<TargetRecord>, url: string)
    requires AllValid(records)
    ensures LoadTargets(Document(Some(MirrorRemove(records, url)))) == Ok(MirrorRemove(records, url))
  {
    var removed := MirrorRemove(records, url);
    MirrorRemoveMembers(records, url);
    forall i | 0 <= i < |removed|
      ensures IsValidType(removed[i].targetType)
    {
      assert removed[i] in removed;
      var j :| 0 <= j < |records| && records[j] == removed[i];
    }
    LoadAllValid(removed);
  }

  /** `add_target`. `doc` is the targets file as parsed before the call and
      `doc'` the file afterwards. */
  method AddTarget(db: Database, doc: ConfigDoc, url: string, targetType: string, name: string)
    returns (result: AddResult, doc': ConfigDoc)
    requires db.Valid()
    modifies db
    ensures db.Valid()
    ensures db.posts == old(db.posts) && db.newsletters == old(db.newsletters)
    ensures targetType !in ValidTargetTypes ==>
      result == AddRejected(InvalidTypeMessage(targetType)) && doc' == doc && db.targets == old(db.targets)
    ensures targetType in ValidTargetTypes ==>
      db.IdOf(url).Some?
      && db.targets == old(db.targets)[db.IdOf(url).value := TargetRow(url, targetType, name)]
      && (old(db.IdOf(url)).Some? ==> db.IdOf(url) == old(db.IdOf(url)))
      && db.Urls() == old(db.Urls()) + {url}
    ensures targetType in ValidTargetTypes && LoadTargets(doc).Err? ==>
      result == AddFailed(LoadTargets(doc).error) && doc' == doc
    ensures targetType in ValidTargetTypes && LoadTargets(doc).Ok? ==>
      result == Added(db.IdOf(url).value, url, targetType, name)
      && LoadTargets(doc') == Ok(MirrorAdd(LoadTargets(doc).value, url, targetType, name))
      && (HasUrl(LoadTargets(doc).value, url) ==> doc' == doc)
    ensures targetType in ValidTargetTypes && LoadTargets(doc).Ok? && MirrorUrls(LoadTargets(doc).value) == old(db.Urls()) ==>
      MirrorUrls(LoadTargets(doc').value) == db.Urls()
  {
    ToolTypesAreConfigTypes(targetType);
    if targetType !in ToolTargetTypes {
      return AddRejected(InvalidTypeMessage(targetType)), doc;
    }
    var tid := db.UpsertTarget(url, targetType, name);
    var loaded := LoadTargets(doc);
    if loaded.Err? {
      return AddFailed(loaded.error), doc;
    }
    var targets := loaded.value;
    doc' := doc;
    MirrorAddUrls(targets, url, targetType, name);
    MirrorAddLoads(targets, url, targetType, name);
    if !HasUrl(targets, url) {
      targets := targets + [NewRecord(url, targetType, name)];
      doc' := Document(Some(targets));
    } else {
      LoadNeverAltersRecords(doc);
    }
    result := Added(tid, url, targetType, name);
  }

  /** `remove_target`. `doc` is the targets file as parsed before the call
      and `doc'` the file afterwards. */
  method RemoveTarget(db: Database, doc: ConfigDoc, url: string)
    returns (result: RemoveResult, doc': ConfigDoc)
    requires db.Valid()
    modifies db
    ensures db.Valid()
    ensures db.newsletters == old(db.newsletters)
    ensures old(db.IdOf(url)).None? ==>
      result == Removal(false, url) && doc' == doc && db.targets == old(db.targets) && db.posts == old(db.posts)
    ensures old(db.IdOf(url)).Some? ==>
      db.targets == old(db.targets) - {old(db.IdOf(url)).value}
      && db.posts == PostsNotOf(old(db.posts), old(db.IdOf(url)).value)
    ensures old(db.IdOf(url)).Some? && LoadTargets(doc).Err? ==>
      result == RemoveFailed(LoadTargets(doc).error) && doc' == doc
    ensures old(db.IdOf(url)).Some? && LoadTargets(doc).Ok? ==>
      result == Removal(true, url) && doc' == Document(Some(MirrorRemove(LoadTargets(doc).value, url)))
    ensures db.Urls() == old(db.Urls()) - {url}
    ensures LoadTargets(doc).Ok? && MirrorUrls(LoadTargets(doc).value) == old(db.Urls()) ==>
      LoadTargets(doc').Ok? && MirrorUrls(LoadTargets(doc').value) == db.Urls()
  {
    db.IdOfFindsUrls(url);
    var removed := db.RemoveTarget(url);
    if !removed {
      return Removal(false, url), doc;
    }
    var loaded := LoadTargets(doc);
    if loaded.Err? {
      return RemoveFailed(loaded.error), doc;
    }
    var targets := MirrorRemove(loaded.value, url);
    MirrorRemoveUrls(loaded.value, url);
    LoadNeverAltersRecords(doc);
    MirrorRemoveLoads(loaded.value, url);
    result, doc' := Removal(true, url), Document(Some(targets));
  }

  /** The bookkeeping of `generate_newsletter`: the file `generate_html`
      wrote (`path`) is logged with the number of posts passed in, and its
      path is returned. */
  method GenerateNewsletter<P>(db: Database, postsWithSummaries: seq<P>, path: string) returns (r: string)
    requires db.Valid()
    modifies db
    ensures db.Valid()
    ensures r == path
    ensures db.newsletters == old(db.newsletters) + [NewsletterRow(path, |postsWithSummaries|)]
    ensures db.targets == old(db.targets) && db.posts == old(db.posts)
  {
    db.RecordNewsletter(path, |postsWithSummaries|);
    r := path;
  }
}
