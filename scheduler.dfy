/**
 * The scheduled run (src/trend_sieve/scheduler.py): collect the trending
 * repositories, fetch their READMEs and licenses, let the language model pick
 * the relevant ones, convert them to trend items, add the leading discussion-site
 * stories, store the batch, and notify the items that were new. Every outside
 * answer (pages, API responses, the model's answer, the webhook's answer, the
 * clock) is a parameter, and the configuration is a value.
 */
module Scheduler {
  import opened Basics
  import opened PyText
  import opened Models
  import opened Seqs
  import ReadmeEnricher
  import GeminiFilter
  import GitHubTrending
  import HackerNews
  import Supabase
  import Slack

  const GitHubSource: string := "github"
  /** How many top stories are requested, and how many of them join the batch. */
  const HnFetchLimit: int := 50
  const HnKept: int := 10

  // ---------------------------------------------------------------------------
  // converting a filtered repository

  /** The metadata exactly as the converting code writes it: the language entry may hold None. */
  function RawMetadata(repo: Repository): map<string, RawValue> {
    map["stars" := RInt(repo.stars),
        "stars_today" := RInt(repo.starsToday),
        "language" := if repo.language.Some? then RStr(repo.language.value) else RNone,
        "forks" := RInt(repo.forks)]
  }

  /**
   * The metadata of a converted repository: the raw metadata with the entries
   * the record's `int | str` value type would refuse left out, that is, the
   * language exactly when it is unknown; every kept entry keeps its value.
   */
  function GitHubMetadata(repo: Repository): (m: map<string, MetaValue>)
    ensures forall k :: k in m <==> k in RawMetadata(repo) && AcceptedValue(RawMetadata(repo)[k])
    ensures forall k | k in m :: m[k] == Accept(RawMetadata(repo)[k])
    ensures "language" in m <==> repo.language.Some?
    ensures ValidateMetadata(RawMetadata(repo)).Ok? ==> ValidateMetadata(RawMetadata(repo)).value == m
  {
    var counts := map["stars" := MInt(repo.stars), "stars_today" := MInt(repo.starsToday),
                      "forks" := MInt(repo.forks)];
    if repo.language.Some? then counts["language" := MStr(repo.language.value)] else counts
  }

  /**
   * `_convert_github_to_trend_item`, as intended: the repository under the
   * "github" origin with its name as id and title, the classifier's opinion and
   * the license facts carried over, and the first snippet's code when there is one.
   */
  function ConvertGithub(f: FilteredRepository): (t: TrendItem)
    ensures KeyOf(t) == Key(GitHubSource, f.repository.name)
    ensures t.title == f.repository.name && t.url == f.repository.url
    ensures t.description == f.repository.description
    ensures t.metadata == GitHubMetadata(f.repository)
    ensures t.relevanceScore == Some(f.relevanceScore as int) && t.summary == Some(f.summary)
    ensures t.matchedInterests == f.matchedInterests
    ensures t.codeExample.Some? <==> f.codeExamples != []
    ensures t.codeExample.Some? ==> t.codeExample.value == f.codeExamples[0].code
    ensures t.license == f.license && t.isOpenSource == f.isOpenSource
  {
    var repo := f.repository;
    TrendItem(
      source := GitHubSource,
      sourceId := repo.name,
      title := repo.name,
      url := repo.url,
      description := repo.description,
      metadata := GitHubMetadata(repo),
      relevanceScore := Some(f.relevanceScore as int),
      summary := Some(f.summary),
      matchedInterests := f.matchedInterests,
      codeExample := if f.codeExamples != [] then Some(f.codeExamples[0].code) else None,
      license := f.license,
      isOpenSource := f.isOpenSource)
  }

  /**
   * The conversion as written: the raw metadata goes through the record's
   * validation, which refuses a None language, so the conversion fails for every
   * repository whose language is unknown; otherwise it agrees with `ConvertGithub`.
   */
  function ConvertGithubAsWritten(f: FilteredRepository): (r: Result<TrendItem, ValidationError>)
    ensures r.Ok? <==> f.repository.language.Some?
    ensures r.Ok? ==> r.value == ConvertGithub(f)
  {
    var repo := f.repository;
    var raw := RawMetadata(repo);
    assert "language" in raw && raw["language"].RNone? == repo.language.None?;
    assert repo.language.Some? ==> forall k | k in raw :: AcceptedValue(raw[k]);
    match ValidateMetadata(raw)
    case Err(e) => Err(e)
    case Ok(metadata) =>
      Ok(TrendItem(GitHubSource, repo.name, repo.name, repo.url, repo.description, metadata,
                   Some(f.relevanceScore as int), Some(f.summary), f.matchedInterests,
                   if f.codeExamples != [] then Some(f.codeExamples[0].code) else None,
                   f.license, f.isOpenSource))
  }

  /** A repository the trending page lists without a language cannot be converted as written. */
  lemma UnknownLanguageRejected()
    ensures ConvertGithubAsWritten(FilteredRepository(Repository("octo/tool", "https://github.com/octo/tool"), 8, "a CLI")).Err?
    ensures ConvertGithub(FilteredRepository(Repository("octo/tool", "https://github.com/octo/tool"), 8, "a CLI")).sourceId == "octo/tool"
  {
  }

  /** The converted list, in filter order. */
  function GitHubItems(filtered: seq<FilteredRepository>): (items: seq<TrendItem>)
    ensures |items| == |filtered|
    ensures forall i | 0 <= i < |filtered| :: items[i] == ConvertGithub(filtered[i])
  {
    seq(|filtered|, i requires 0 <= i < |filtered| => ConvertGithub(filtered[i]))
  }

  /** The converted list splits at its first repository. */
  lemma GitHubItemsCons(filtered: seq<FilteredRepository>)
    requires filtered != []
    ensures GitHubItems(filtered) == [ConvertGithub(filtered[0])] + GitHubItems(filtered[1..])
  {
    var tail := filtered[1..];
    var g, t := GitHubItems(filtered), GitHubItems(tail);
    forall i | 0 <= i < |t|
      ensures g[i + 1] == t[i]
    {
      assert tail[i] == filtered[i + 1];
    }
    Cons(g, ConvertGithub(filtered[0]), t);
  }

  /** The language condition splits at the first repository. */
  lemma AllLanguagesKnownCons(filtered: seq<FilteredRepository>)
    requires filtered != []
    ensures AllLanguagesKnown(filtered) <==>
      filtered[0].repository.language.Some? && AllLanguagesKnown(filtered[1..])
  {
    var tail := filtered[1..];
    if filtered[0].repository.language.Some? && AllLanguagesKnown(tail) {
      forall i | 0 <= i < |filtered|
        ensures filtered[i].repository.language.Some?
      {
        if i > 0 {
          assert tail[i - 1] == filtered[i];
        }
      }
    }
    if AllLanguagesKnown(filtered) {
      forall i | 0 <= i < |tail|
        ensures tail[i].repository.language.Some?
      {
        assert tail[i] == filtered[i + 1];
      }
    }
  }

  /**
   * The list comprehension of `run` over the conversion as written: the first
   * repository that cannot be converted raises; when none fails, the items are
   * the corrected conversions in filter order.
   */
  function ConvertAllAsWritten(filtered: seq<FilteredRepository>): (r: Result<seq<TrendItem>, ValidationError>)
    ensures r.Ok? <==> AllLanguagesKnown(filtered)
    ensures r.Ok? ==> r.value == GitHubItems(filtered)
    decreases |filtered|
  {
    if filtered == [] then Ok([])
    else
      GitHubItemsCons(filtered);
      AllLanguagesKnownCons(filtered);
      var head := ConvertGithubAsWritten(filtered[0]);
      var rest := ConvertAllAsWritten(filtered[1..]);
      if head.Err? then Err(head.error)
      else if rest.Err? then Err(rest.error)
      else Ok([head.value] + rest.value)
  }

  // ---------------------------------------------------------------------------
  // the enrichment, as the filter receives it

  function Names(repositories: seq<Repository>): (names: seq<string>)
    ensures |names| == |repositories|
    ensures forall i | 0 <= i < |repositories| :: names[i] == repositories[i].name
  {
    seq(|repositories|, i requires 0 <= i < |repositories| => repositories[i].name)
  }

  /** The READMEs handed to the filter: only the names whose README was found and is not empty. */
  function Readmes(e: map<string, ReadmeEnricher.MetadataResult>): (m: map<string, string>)
    ensures forall n :: n in m <==> n in e && e[n].readme.Some? && e[n].readme.value != ""
    ensures forall n | n in m :: m[n] == e[n].readme.value
  {
    map n | n in e && e[n].readme.Some? && e[n].readme.value != "" :: e[n].readme.value
  }

  /** The licenses handed to the filter: every enriched name, with its license or None. */
  function Licenses(e: map<string, ReadmeEnricher.MetadataResult>): (m: map<string, Option<string>>)
    ensures m.Keys == e.Keys
    ensures forall n | n in m :: m[n] == e[n].license
  {
    map n | n in e :: e[n].license
  }

  /** The names the enrichment classified as open source. */
  function OpenSourceSet(e: map<string, ReadmeEnricher.MetadataResult>): (s: set<string>)
    ensures forall n :: n in s <==> n in e && e[n].isOpenSource
  {
    set n | n in e && e[n].isOpenSource
  }

  /**
   * The end-to-end snippet gate: of the GitHub items a run produces, an item is
   * flagged open source only when its recorded license is on the allow-list,
   * and an item carries a quick-start snippet only when it is flagged open source.
   */
  lemma SnippetsOnlyForOpenSource(repositories: seq<Repository>, readmeGet: string -> ReadmeEnricher.HttpResult,
                                  licenseGet: string -> ReadmeEnricher.LicenseResult,
                                  response: GeminiFilter.GeminiResponse)
    ensures var e := ReadmeEnricher.FetchMetadataMany(Names(repositories), readmeGet, licenseGet);
      forall t | t in GitHubItems(GeminiFilter.Answered(response, repositories, Licenses(e), OpenSourceSet(e))) ::
        && (t.codeExample.Some? ==> t.isOpenSource)
        && (t.isOpenSource ==> ReadmeEnricher.IsOpenSource(t.license))
  {
    var e := ReadmeEnricher.FetchMetadataMany(Names(repositories), readmeGet, licenseGet);
    var filtered := GeminiFilter.Answered(response, repositories, Licenses(e), OpenSourceSet(e));
    GeminiFilter.AnsweredGated(response, repositories, Licenses(e), OpenSourceSet(e));
    forall t | t in GitHubItems(filtered)
      ensures t.codeExample.Some? ==> t.isOpenSource
      ensures t.isOpenSource ==> ReadmeEnricher.IsOpenSource(t.license)
    {
      var i :| 0 <= i < |filtered| && t == GitHubItems(filtered)[i];
      var f := filtered[i];
      assert f in filtered;
      if t.isOpenSource {
        var name := f.repository.name;
        assert name in e && e[name].isOpenSource;
        assert t.license == e[name].license;
      }
    }
  }

  // ---------------------------------------------------------------------------
  // the batch, what is new in it, and whether to notify

  /** The stored and notified batch: every converted GitHub item, then the first stories. */
  function Merge(github: seq<TrendItem>, stories: seq<TrendItem>): (all: seq<TrendItem>)
    ensures |all| == |github| + (if |stories| < HnKept then |stories| else HnKept)
  {
    github + SliceTo(stories, HnKept)
  }

  /** The GitHub items come first and whole; then come the leading stories, at most ten of them. */
  lemma MergeOrder(github: seq<TrendItem>, stories: seq<TrendItem>)
    ensures Merge(github, stories)[..|github|] == github
    ensures Merge(github, stories)[|github|..] == stories[..|Merge(github, stories)| - |github|]
    ensures |Merge(github, stories)| - |github| <= HnKept
  {
    var all := Merge(github, stories);
    assert all[..|github|] == github;
    assert all[|github|..] == SliceTo(stories, HnKept);
  }

  /** Items of the two origins never share a key, so neither can make the other look already seen. */
  lemma BatchOriginsDisjoint(filtered: seq<FilteredRepository>, stories: seq<TrendItem>, i: nat, j: nat)
    requires forall x | x in stories :: x.source == HackerNews.Source
    requires i < |filtered| && j < |stories|
    ensures KeyOf(GitHubItems(filtered)[i]) != KeyOf(stories[j])
  {
    assert stories[j] in stories;
    assert GitHubSource[0] != HackerNews.Source[0];
  }

  /**
   * The items a run considers new: every item of the batch when there is no
   * store; otherwise the first occurrence of each key the store did not hold.
   */
  function NewItems(storeConfigured: bool, table: Supabase.Table, all: seq<TrendItem>): (r: seq<TrendItem>)
    ensures !storeConfigured ==> r == all
    ensures forall x | x in r :: x in all
    ensures storeConfigured ==> forall x | x in r :: KeyOf(x) !in table
    ensures storeConfigured ==> Supabase.KeysOf(r) == Supabase.KeysOf(all) - table.Keys
  {
    if storeConfigured then Supabase.Novel(table.Keys, all) else all
  }

  /**
   * With a store, running again on a batch whose keys were all stored by the
   * previous run finds nothing new, so nothing is notified.
   */
  lemma RepeatedBatchNotNotified(table: Supabase.Table, first: seq<TrendItem>, second: seq<TrendItem>, now: int)
    requires Supabase.KeysOf(second) <= Supabase.KeysOf(first)
    ensures NewItems(true, Supabase.Upserted(table, first, now), second) == []
  {
  }

  // ---------------------------------------------------------------------------
  // the run

  /** The configuration values a run reads. */
  datatype Config = Config(
    filter: GeminiFilter.Settings,
    supabaseUrl: Option<string>,
    supabaseKey: Option<string>,
    slackWebhookUrl: Option<string>)

  predicate StoreConfigured(c: Config) {
    c.supabaseUrl.Some? && c.supabaseUrl.value != "" && c.supabaseKey.Some? && c.supabaseKey.value != ""
  }

  /**
   * Why a run aborted: a source raised, or a selected repository could not be
   * converted; nothing catches either.
   */
  datatype RunError =
    | GitHubFailed(githubError: GitHubTrending.FetchError)
    | ConversionFailed(conversionError: ValidationError)
    | HackerNewsFailed(hnError: HackerNews.FetchError)

  /** The repositories the filter keeps, given the trending list and the enrichment answers. */
  function Selected(repositories: seq<Repository>, readmeGet: string -> ReadmeEnricher.HttpResult,
                    licenseGet: string -> ReadmeEnricher.LicenseResult,
                    response: GeminiFilter.GeminiResponse): seq<FilteredRepository>
  {
    var e := ReadmeEnricher.FetchMetadataMany(Names(repositories), readmeGet, licenseGet);
    GeminiFilter.Answered(response, repositories, Licenses(e), OpenSourceSet(e))
  }

  /** Every selected repository has a language, so the conversion as written goes through. */
  predicate AllLanguagesKnown(filtered: seq<FilteredRepository>) {
    forall i | 0 <= i < |filtered| :: filtered[i].repository.language.Some?
  }

  /** What a completed run produced, stage by stage. */
  datatype Report = Report(
    repositories: seq<Repository>,
    enrichments: map<string, ReadmeEnricher.MetadataResult>,
    prompt: Option<GeminiFilter.Prompt>,
    filtered: seq<FilteredRepository>,
    allItems: seq<TrendItem>,
    newItems: seq<TrendItem>,
    table: Supabase.Table,
    notification: Option<Slack.SendOutcome>)

  /**
   * The storage stage of `run`: a store is opened from the configuration; when
   * it is configured it takes the batch and reports what it did not hold,
   * otherwise the whole batch counts as new and the table is left alone.
   */
  method Store(config: Config, table0: Supabase.Table, allItems: seq<TrendItem>, now: int)
    returns (newItems: seq<TrendItem>, table: Supabase.Table)
    requires Supabase.WellKeyed(table0)
    ensures newItems == NewItems(StoreConfigured(config), table0, allItems)
    ensures table == if StoreConfigured(config) then Supabase.Upserted(table0, allItems, now) else table0
  {
    var storage := new Supabase.SupabaseStorage(config.supabaseUrl, config.supabaseKey, table0);
    if storage.configured {
      newItems := storage.UpsertItems(allItems, now);
    } else {
      newItems := allItems;
    }
    table := storage.table;
  }

  /**
   * `run`: the stages in order, each fed by the previous ones. A source that
   * raises, or a selected repository without a language (which the conversion
   * as written refuses), ends the run before anything is stored or sent. The store takes the
   * whole batch when configured, and then only the items it did not hold are
   * notified; without a store the whole batch is notified. A notification is
   * attempted exactly when a webhook URL is set and there are new items.
   */
  method Run(config: Config, page: GitHubTrending.PageResponse,
             readmeGet: string -> ReadmeEnricher.HttpResult, licenseGet: string -> ReadmeEnricher.LicenseResult,
             response: GeminiFilter.GeminiResponse,
             top: Option<HackerNews.TopStories>, getItem: int -> Option<HackerNews.HnItem>,
             table0: Supabase.Table, now: int, post: (string, string) -> Slack.PostResult)
    returns (r: Result<Report, RunError>)
    requires Supabase.WellKeyed(table0)
    ensures page.PageTransportError? ==> r == Err(GitHubFailed(GitHubTrending.TransportFailure))
    ensures page.Page? && !(200 <= page.status < 300) ==> r == Err(GitHubFailed(GitHubTrending.HttpStatusError(page.status)))
    ensures page.Page? && 200 <= page.status < 300 && GitHubTrending.ParseArticles(page.articles).Err? ==>
      r == Err(GitHubFailed(GitHubTrending.NumberFormat(GitHubTrending.ParseArticles(page.articles).error)))
    ensures (&& page.Page? && 200 <= page.status < 300 && GitHubTrending.ParseArticles(page.articles).Ok?
             && !AllLanguagesKnown(Selected(GitHubTrending.ParseArticles(page.articles).value, readmeGet, licenseGet, response)))
      ==> r == Err(ConversionFailed(MetadataValueNotIntOrStr))
    ensures (&& page.Page? && 200 <= page.status < 300 && GitHubTrending.ParseArticles(page.articles).Ok?
             && AllLanguagesKnown(Selected(GitHubTrending.ParseArticles(page.articles).value, readmeGet, licenseGet, response))
             && top.None?)
      ==> r == Err(HackerNewsFailed(HackerNews.TopStoriesTransportFailure))
    ensures r.Ok? <==>
      && page.Page? && 200 <= page.status < 300 && GitHubTrending.ParseArticles(page.articles).Ok?
      && AllLanguagesKnown(Selected(GitHubTrending.ParseArticles(page.articles).value, readmeGet, licenseGet, response))
      && top.Some?
    ensures r.Ok? ==>
      var rep := r.value;
      && GitHubTrending.ParseArticles(page.articles) == Ok(rep.repositories)
      && rep.enrichments == ReadmeEnricher.FetchMetadataMany(Names(rep.repositories), readmeGet, licenseGet)
      && (rep.repositories == [] <==> rep.prompt.None?)
      && (rep.prompt.Some? ==>
            && rep.prompt.value.interests == GeminiFilter.NewFilter(None, None, config.filter).interests
            && |rep.prompt.value.entries| == |rep.repositories|
            && forall i | 0 <= i < |rep.repositories| ::
                 rep.prompt.value.entries[i].readme
                   == GeminiFilter.ReadmeExcerpt(rep.repositories[i].name, Readmes(rep.enrichments)))
      && rep.filtered == GeminiFilter.Answered(response, rep.repositories, Licenses(rep.enrichments),
                                               OpenSourceSet(rep.enrichments))
      && rep.allItems == Merge(GitHubItems(rep.filtered), HackerNews.Stories(top.value, HnFetchLimit, getItem))
      && rep.newItems == NewItems(StoreConfigured(config), table0, rep.allItems)
      && rep.table == (if StoreConfigured(config) then Supabase.Upserted(table0, rep.allItems, now) else table0)
      && (rep.notification.Some? <==> config.slackWebhookUrl.Some? && rep.newItems != [])
      && (rep.notification.Some? ==>
            rep.notification.value == Slack.Send(Slack.SlackNotifier(config.slackWebhookUrl), rep.newItems, post))
  {
    // 1. trending repositories
    var fetched := GitHubTrending.Fetch(page);
    if fetched.Err? {
      return Err(GitHubFailed(fetched.error));
    }
    var repositories := fetched.value;
    assert GitHubTrending.ParseArticles(page.articles) == Ok(repositories);

    // 2. READMEs and licenses
    var enrichments := ReadmeEnricher.FetchMetadataMany(Names(repositories), readmeGet, licenseGet);
    var readmes := Readmes(enrichments);
    var licenses := Licenses(enrichments);
    var openSource := OpenSourceSet(enrichments);

    // 3. relevance filter, then conversion
    var filter := GeminiFilter.NewFilter(None, None, config.filter);
    var prompt, filtered := GeminiFilter.Run(filter, repositories, Some(readmes), Some(licenses), Some(openSource), response);
    assert filtered == Selected(repositories, readmeGet, licenseGet, response);
    var converted := ConvertAllAsWritten(filtered);
    if converted.Err? {
      assert !AllLanguagesKnown(Selected(GitHubTrending.ParseArticles(page.articles).value, readmeGet, licenseGet, response));
      assert converted.error == MetadataValueNotIntOrStr;
      return Err(ConversionFailed(converted.error));
    }
    assert AllLanguagesKnown(Selected(GitHubTrending.ParseArticles(page.articles).value, readmeGet, licenseGet, response));
    var githubItems := converted.value;

    // 4. top stories
    var stories := HackerNews.Fetch(HnFetchLimit, top, getItem);
    if stories.Err? {
      return Err(HackerNewsFailed(stories.error));
    }

    // 5. the batch
    var allItems := Merge(githubItems, stories.value);

    // 6. storage
    var newItems, table := Store(config, table0, allItems, now);

    // 7. notification
    var notifier := Slack.SlackNotifier(config.slackWebhookUrl);
    var notification := None;
    if Slack.IsConfigured(notifier) && newItems != [] {
      notification := Some(Slack.Send(notifier, newItems, post));
    }

    return Ok(Report(repositories, enrichments, prompt, filtered, allItems, newItems, table, notification));
  }
}
