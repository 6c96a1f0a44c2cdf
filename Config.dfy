/**
 * The validation part of `load_targets` (src/ai4news/config.py): the parsed
 * YAML document's "targets" list is returned as it is when every record's
 * type is one of the valid target types, and otherwise a ValueError names the
 * first invalid type. Reading and writing the YAML file is not modelled: the
 * parsed document is the input.
 */
module Config {
  import opened Wrappers
  import opened Text

  /** `VALID_TARGET_TYPES`. */
  const ValidTargetTypes: set<string> := {"person", "company", "hashtag"}

  /** One record of the targets list. `targetType` and `name` are None when
      the key is missing or null; `url` is assumed present. */
  datatype TargetRecord = TargetRecord(targetType: Option<string>, name: Option<string>, url: string)

  /** The parsed YAML document: an empty file parses to nothing, otherwise a
      mapping whose "targets" entry may be missing or null (None). */
  datatype ConfigDoc = EmptyDocument | Document(targets: Option<seq<TargetRecord>>)

  datatype ConfigError =
    | InvalidTargetType(shown: string)   // ValueError
    | NoMapping                          // AttributeError: the document is empty

  /** A record's type is present and one of the valid target types; a
      missing type is never valid. */
  predicate IsValidType(t: Option<string>) {
    t.Some? && t.value in ValidTargetTypes
  }

  /** How a record's type is shown in the error message: "None" when missing. */
  function ShowType(t: Option<string>): string {
    if t.Some? then t.value else "None"
  }

  predicate AllValid(records: seq<TargetRecord>) {
    forall i :: 0 <= i < |records| ==> IsValidType(records[i].targetType)
  }

  /** Index of the first record whose type is invalid, if any. */
  function FirstInvalid(records: seq<TargetRecord>): (r: Option<nat>)
    ensures r.None? <==> AllValid(records)
    ensures r.Some? ==> r.value < |records| && !IsValidType(records[r.value].targetType)
    ensures r.Some? ==> forall j :: 0 <= j < r.value ==> IsValidType(records[j].targetType)
  {
    if records == [] then None
    else if !IsValidType(records[0].targetType) then Some(0)
    else match FirstInvalid(records[1..])
      case None => None
      case Some(k) => Some(k + 1)
  }

  /** `load_targets` after parsing: a missing or empty targets entry is the
      empty list; then every record's type is checked in list order. */
  function LoadTargets(doc: ConfigDoc): Result<seq<TargetRecord>, ConfigError> {
    match doc
    case EmptyDocument => Err(NoMapping)
    case Document(entry) =>
      var targets := entry.GetOr([]);
      match FirstInvalid(targets)
      case None => Ok(targets)
      case Some(i) => Err(InvalidTargetType(ShowType(targets[i].targetType)))
  }

  /** The text of the ValueError. Python renders the set in an order that
      varies between runs; one fixed order stands for it here. */
  function ErrorMessage(shown: string): string {
    "Invalid target type: " + shown + ". Must be one of: {'person', 'company', 'hashtag'}"
  }

  /** The message names the offending type. */
  lemma ErrorMessageNamesType(shown: string)
    ensures Contains(ErrorMessage(shown), shown)
  {
    ContainsMiddle("Invalid target type: ", shown, ". Must be one of: {'person', 'company', 'hashtag'}");
  }

  /** A document whose records all have valid types loads unchanged. */
  lemma LoadAllValid(records: seq<TargetRecord>)
    requires AllValid(records)
    ensures LoadTargets(Document(Some(records))) == Ok(records)
  {
  }

  /** A missing or null "targets" entry, or an empty list, loads as []. */
  lemma LoadMissingTargets()
    ensures LoadTargets(Document(None)) == Ok([])
    ensures LoadTargets(Document(Some([]))) == Ok([])
  {
  }

  /** Any invalid record makes loading fail, with the type of the first
      invalid record in list order; a missing type shows as "None". */
  lemma LoadRejectsFirstInvalid(records: seq<TargetRecord>, i: nat)
    requires i < |records| && !IsValidType(records[i].targetType)
    requires forall j :: 0 <= j < i ==> IsValidType(records[j].targetType)
    ensures LoadTargets(Document(Some(records))) == Err(InvalidTargetType(ShowType(records[i].targetType)))
  {
    assert FirstInvalid(records) == Some(i);
  }

  /** Loading either returns exactly the document's list or fails. */
  lemma LoadNeverAltersRecords(doc: ConfigDoc)
    requires LoadTargets(doc).Ok?
    ensures doc.Document? && (doc.targets.Some? ==> LoadTargets(doc).value == doc.targets.value)
    ensures AllValid(LoadTargets(doc).value)
  {
  }
}
