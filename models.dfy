/**
 * The records the pipeline passes between its stages, with the field bounds and
 * default values their declarations give them (src/trend_sieve/models.py).
 * A constructor argument with a default may be left out, as with the keyword
 * defaults of the original records.
 */
module Models {
  import opened Basics

  /** A relevance score: validated to lie in 1..10 wherever it is declared with bounds. */
  type Score = s: int | 1 <= s <= 10 witness 1

  /** A trending repository as scraped from the trending page. */
  datatype Repository = Repository(
    name: string,                       // "owner/repo"
    url: string,
    description: Option<string> := None,
    language: Option<string> := None,
    stars: int := 0,
    starsToday: int := 0,
    forks: int := 0)

  /** A quick-start snippet extracted from a README. */
  datatype CodeExample = CodeExample(language: string, code: string)

  /** A repository that cleared the relevance filter, with the classifier's opinion attached. */
  datatype FilteredRepository = FilteredRepository(
    repository: Repository,
    relevanceScore: Score,
    summary: string,
    matchedInterests: seq<string> := [],
    license: Option<string> := None,
    isOpenSource: bool := false,
    codeExamples: seq<CodeExample> := [])

  /** A value of a trend item's metadata map: the declared value type is `int | str`. */
  datatype MetaValue = MInt(i: int) | MStr(s: string)

  /** The common record of both origins: what is stored and what is notified. */
  datatype TrendItem = TrendItem(
    source: string,                     // "github" or "hackernews"
    sourceId: string,
    title: string,
    url: string,
    description: Option<string> := None,
    metadata: map<string, MetaValue> := map[],
    relevanceScore: Option<int> := None,
    summary: Option<string> := None,
    matchedInterests: seq<string> := [],
    codeExample: Option<string> := None,
    license: Option<string> := None,
    isOpenSource: bool := false)

  /** The identity of a trend item across runs: its origin and its origin-local id. */
  datatype Key = Key(source: string, sourceId: string)

  function KeyOf(item: TrendItem): Key {
    Key(item.source, item.sourceId)
  }

  /** A metadata value before validation: whatever the converting code put there, `None` included. */
  datatype RawValue = RInt(i: int) | RStr(s: string) | RNone

  /** The record validator refused a metadata value that is neither an int nor a str. */
  datatype ValidationError = MetadataValueNotIntOrStr

  /** The value check of the `dict[str, int | str]` metadata field. */
  predicate AcceptedValue(v: RawValue) {
    !v.RNone?
  }

  function Accept(v: RawValue): MetaValue
    requires AcceptedValue(v)
  {
    match v
    case RInt(i) => MInt(i)
    case RStr(s) => MStr(s)
  }

  /**
   * Validating raw metadata against `dict[str, int | str]`: it succeeds exactly
   * when no value is `None`, and then keeps every key with its value.
   */
  function ValidateMetadata(raw: map<string, RawValue>): (r: Result<map<string, MetaValue>, ValidationError>)
    ensures r.Ok? <==> forall k | k in raw :: AcceptedValue(raw[k])
    ensures r.Ok? ==> r.value.Keys == raw.Keys
    ensures r.Ok? ==> forall k | k in raw :: r.value[k] == Accept(raw[k])
  {
    if forall k | k in raw :: AcceptedValue(raw[k]) then
      Ok(map k | k in raw :: Accept(raw[k]))
    else
      Err(MetadataValueNotIntOrStr)
  }

  /** The defaults of a repository record: counts 0, description and language absent. */
  lemma RepositoryDefaults(name: string, url: string)
    ensures var r := Repository(name, url);
      r.stars == 0 && r.starsToday == 0 && r.forks == 0 && r.description.None? && r.language.None?
  {
  }

  /** The defaults of a filtered repository: no license, not open source, no snippet, no interests. */
  lemma FilteredRepositoryDefaults(repo: Repository, score: Score, summary: string)
    ensures var f := FilteredRepository(repo, score, summary);
      f.license.None? && !f.isOpenSource && f.codeExamples == [] && f.matchedInterests == []
      && 1 <= f.relevanceScore <= 10
  {
  }

  /** The defaults of a trend item: every optional field absent, empty metadata and interests, not open source. */
  lemma TrendItemDefaults(source: string, sourceId: string, title: string, url: string)
    ensures var t := TrendItem(source, sourceId, title, url);
      t.description.None? && t.metadata == map[] && t.relevanceScore.None? && t.summary.None?
      && t.matchedInterests == [] && t.codeExample.None? && t.license.None? && !t.isOpenSource
  {
  }
}
