/**
 * The relevance classifier (src/trend_sieve/filters/gemini.py): the request it
 * builds, and the post-processing that maps the language model's scored items
 * back onto the input repositories. The model call itself is replaced by its
 * answer, given as a parameter.
 */
module GeminiFilter {
  import opened Basics
  import opened Models

  /** README excerpts longer than this many characters are cut. */
  const ReadmeBudget: nat := 3000
  const TruncationMarker: string := "\n[... truncated ...]"

  /** The quick-start snippet proposed by the language model; both fields default to "". */
  datatype QuickStartCode = QuickStartCode(language: string := "", code: string := "")

  /** One scored item of the model's answer; `index` is 1-based into the request's repositories. */
  datatype FilteredItem = FilteredItem(
    index: int,
    relevanceScore: Score,
    matchedInterests: seq<string>,
    summary: string,
    quickStart: Option<QuickStartCode> := None)

  /** The model's answer: its raw text (None or "" when empty) and the parsed items (None when parsing failed). */
  datatype GeminiResponse = GeminiResponse(text: Option<string>, parsed: Option<seq<FilteredItem>>)

  /** The process-wide configuration values the filter falls back on. */
  datatype Settings = Settings(interests: seq<string>, relevanceThreshold: int)

  predicate ValidSettings(s: Settings) {
    s.interests != [] && 1 <= s.relevanceThreshold <= 10
  }

  /** A configured filter. */
  datatype Filter = Filter(interests: seq<string>, threshold: int)

  /**
   * The constructor: a missing or falsy argument (None, an empty list, 0)
   * falls back to the configured value; any other argument is kept as given.
   */
  function NewFilter(interests: Option<seq<string>>, threshold: Option<int>, settings: Settings): (f: Filter)
    ensures interests.Some? && interests.value != [] ==> f.interests == interests.value
    ensures interests.None? || interests.value == [] ==> f.interests == settings.interests
    ensures threshold.Some? && threshold.value != 0 ==> f.threshold == threshold.value
    ensures threshold.None? || threshold.value == 0 ==> f.threshold == settings.relevanceThreshold
    ensures ValidSettings(settings) ==> f.interests != [] && f.threshold != 0
  {
    Filter(
      if interests.Some? && interests.value != [] then interests.value else settings.interests,
      if threshold.Some? && threshold.value != 0 then threshold.value else settings.relevanceThreshold)
  }

  // ---------------------------------------------------------------------------
  // the request

  /**
   * The README excerpt sent for one repository: texts over the budget keep
   * their first `ReadmeBudget` characters followed by the truncation marker.
   */
  function TruncateReadme(readme: string): (r: string)
    ensures |readme| <= ReadmeBudget ==> r == readme
    ensures |readme| > ReadmeBudget ==> r == readme[..ReadmeBudget] + TruncationMarker
  {
    if |readme| > ReadmeBudget then readme[..ReadmeBudget] + TruncationMarker else readme
  }

  /** An excerpt is never longer than the budget plus the marker and always starts like the README. */
  lemma TruncateBounded(readme: string)
    ensures |TruncateReadme(readme)| <= ReadmeBudget + |TruncationMarker|
    ensures var n := if |readme| < ReadmeBudget then |readme| else ReadmeBudget;
      n <= |TruncateReadme(readme)| && TruncateReadme(readme)[..n] == readme[..n]
  {
  }

  /** Truncating an excerpt again changes nothing. */
  lemma TruncateIdempotent(readme: string)
    ensures TruncateReadme(TruncateReadme(readme)) == TruncateReadme(readme)
  {
    var r := TruncateReadme(readme);
    if |readme| > ReadmeBudget {
      assert r[..ReadmeBudget] == readme[..ReadmeBudget];
    }
  }

  /** The description of one repository in the request: its 1-based position, the record, and its excerpt if any. */
  datatype PromptEntry = PromptEntry(position: nat, repository: Repository, readme: Option<string>)

  /** The request: the interest list, the threshold, and one entry per repository. */
  datatype Prompt = Prompt(interests: seq<string>, threshold: int, entries: seq<PromptEntry>)

  /** The excerpt sent for `name`: absent when there is no README or it is empty, truncated otherwise. */
  function ReadmeExcerpt(name: string, readmes: map<string, string>): (r: Option<string>)
    ensures r.Some? <==> name in readmes && readmes[name] != ""
    ensures r.Some? ==> r.value == TruncateReadme(readmes[name]) && r.value != ""
  {
    var excerpt := if name in readmes then readmes[name] else "";
    if excerpt == "" then None else Some(TruncateReadme(excerpt))
  }

  /** The loop that describes each repository of the request, in input order. */
  method BuildPrompt(f: Filter, repositories: seq<Repository>, readmes: map<string, string>) returns (p: Prompt)
    ensures p.interests == f.interests && p.threshold == f.threshold
    ensures |p.entries| == |repositories|
    ensures forall i | 0 <= i < |repositories| ::
      p.entries[i] == PromptEntry(i + 1, repositories[i], ReadmeExcerpt(repositories[i].name, readmes))
  {
    var parts: seq<PromptEntry> := [];
    for i := 0 to |repositories|
      invariant |parts| == i
      invariant forall j | 0 <= j < i ::
        parts[j] == PromptEntry(j + 1, repositories[j], ReadmeExcerpt(repositories[j].name, readmes))
    {
      var repo := repositories[i];
      var excerpt := if repo.name in readmes then readmes[repo.name] else "";
      if excerpt != "" && |excerpt| > ReadmeBudget {
        excerpt := excerpt[..ReadmeBudget] + TruncationMarker;
      }
      var entry := PromptEntry(i + 1, repo, if excerpt != "" then Some(excerpt) else None);
      parts := parts + [entry];
    }
    p := Prompt(f.interests, f.threshold, parts);
  }

  // ---------------------------------------------------------------------------
  // post-processing of the answer

  /** Whether an answer item points into the request's repositories. */
  predicate InRange(item: FilteredItem, repositories: seq<Repository>) {
    0 <= item.index - 1 < |repositories|
  }

  /** The license recorded for `name`: None when the name has no entry. */
  function LicenseOf(name: string, licenses: map<string, Option<string>>): Option<string> {
    if name in licenses then licenses[name] else None
  }

  /** The snippet language: the proposed one, else the repository's, else "text". */
  function SnippetLanguage(proposed: string, repoLanguage: Option<string>): (l: string)
    ensures l != ""
    ensures proposed != "" ==> l == proposed
  {
    if proposed != "" then proposed
    else if repoLanguage.Some? && repoLanguage.value != "" then repoLanguage.value
    else "text"
  }

  /**
   * One answer item turned into a result: None when its index is out of range;
   * otherwise the indexed repository with the item's opinion, the license and
   * open-source flag recomputed from the enrichment, and a snippet only when the
   * repository is confirmed open source and the proposal carries code.
   */
  function ResultFor(item: FilteredItem, repositories: seq<Repository>,
                     licenses: map<string, Option<string>>, openSource: set<string>): (r: Option<FilteredRepository>)
    ensures r.Some? <==> InRange(item, repositories)
    ensures r.Some? ==>
      var repo := repositories[item.index - 1];
      && r.value.repository == repo
      && r.value.relevanceScore == item.relevanceScore
      && r.value.summary == item.summary
      && r.value.matchedInterests == item.matchedInterests
      && r.value.license == LicenseOf(repo.name, licenses)
      && (r.value.isOpenSource <==> repo.name in openSource)
      && |r.value.codeExamples| <= 1
      && (r.value.codeExamples != [] <==>
            repo.name in openSource && item.quickStart.Some? && item.quickStart.value.code != "")
      && (r.value.codeExamples != [] ==>
            r.value.codeExamples[0] ==
              CodeExample(SnippetLanguage(item.quickStart.value.language, repo.language), item.quickStart.value.code))
  {
    var idx := item.index - 1;
    if 0 <= idx < |repositories| then
      var repo := repositories[idx];
      var isOpenSource := repo.name in openSource;
      var examples :=
        if item.quickStart.Some? && item.quickStart.value.code != "" && isOpenSource then
          [CodeExample(SnippetLanguage(item.quickStart.value.language, repo.language), item.quickStart.value.code)]
        else [];
      Some(FilteredRepository(repo, item.relevanceScore, item.summary, item.matchedInterests,
                              LicenseOf(repo.name, licenses), isOpenSource, examples))
    else
      None
  }

  function AsSeq<T>(o: Option<T>): seq<T> {
    if o.Some? then [o.value] else []
  }

  /** The results of a whole answer: the in-range items, each turned into its result, in answer order. */
  function Results(items: seq<FilteredItem>, repositories: seq<Repository>,
                   licenses: map<string, Option<string>>, openSource: set<string>): (rs: seq<FilteredRepository>)
    ensures |rs| <= |items|
  {
    if items == [] then []
    else
      Results(items[..|items| - 1], repositories, licenses, openSource)
        + AsSeq(ResultFor(items[|items| - 1], repositories, licenses, openSource))
  }

  /** Post-processing distributes over concatenation of answers: each item is handled on its own. */
  lemma {:induction false} ResultsAppend(a: seq<FilteredItem>, b: seq<FilteredItem>, repositories: seq<Repository>,
                                         licenses: map<string, Option<string>>, openSource: set<string>)
    ensures Results(a + b, repositories, licenses, openSource)
         == Results(a, repositories, licenses, openSource) + Results(b, repositories, licenses, openSource)
  {
    if b == [] {
      assert a + b == a;
    } else {
      var b' := b[..|b| - 1];
      assert (a + b)[..|a + b| - 1] == a + b';
      assert (a + b)[|a + b| - 1] == b[|b| - 1];
      ResultsAppend(a, b', repositories, licenses, openSource);
    }
  }

  /** An item whose index falls outside 1..|repositories| is dropped without affecting the others. */
  lemma DropsOutOfRange(a: seq<FilteredItem>, item: FilteredItem, b: seq<FilteredItem>, repositories: seq<Repository>,
                        licenses: map<string, Option<string>>, openSource: set<string>)
    requires !InRange(item, repositories)
    ensures Results(a + [item] + b, repositories, licenses, openSource)
         == Results(a + b, repositories, licenses, openSource)
  {
    ResultsAppend(a + [item], b, repositories, licenses, openSource);
    ResultsAppend(a, b, repositories, licenses, openSource);
    assert (a + [item])[..|a + [item]| - 1] == a;
  }

  /** When every index is in range nothing is dropped: result k wraps the repository item k points at. */
  lemma {:induction false} ResultsAllInRange(items: seq<FilteredItem>, repositories: seq<Repository>,
                                             licenses: map<string, Option<string>>, openSource: set<string>)
    requires forall i | 0 <= i < |items| :: InRange(items[i], repositories)
    ensures |Results(items, repositories, licenses, openSource)| == |items|
    ensures forall k | 0 <= k < |items| ::
      Results(items, repositories, licenses, openSource)[k] == ResultFor(items[k], repositories, licenses, openSource).value
  {
    if items != [] {
      ResultsAllInRange(items[..|items| - 1], repositories, licenses, openSource);
    }
  }

  /**
   * Every result comes from an in-range answer item, and the snippet gate holds
   * for all of them: at most one snippet, and one only for a repository in the
   * open-source set; the open-source flag is exactly membership in that set.
   */
  lemma {:induction false} ResultsGated(items: seq<FilteredItem>, repositories: seq<Repository>,
                                        licenses: map<string, Option<string>>, openSource: set<string>)
    ensures forall r | r in Results(items, repositories, licenses, openSource) ::
      && (exists i | 0 <= i < |items| :: InRange(items[i], repositories) && r == ResultFor(items[i], repositories, licenses, openSource).value)
      && r.repository in repositories
      && (r.isOpenSource <==> r.repository.name in openSource)
      && |r.codeExamples| <= 1
      && (r.codeExamples != [] ==> r.isOpenSource)
  {
    if items != [] {
      var init := items[..|items| - 1];
      ResultsGated(init, repositories, licenses, openSource);
      var rs := Results(items, repositories, licenses, openSource);
      forall r | r in rs
        ensures exists i | 0 <= i < |items| :: InRange(items[i], repositories) && r == ResultFor(items[i], repositories, licenses, openSource).value
      {
        if r in Results(init, repositories, licenses, openSource) {
          var i :| 0 <= i < |init| && InRange(init[i], repositories) && r == ResultFor(init[i], repositories, licenses, openSource).value;
          assert items[i] == init[i];
        } else {
          assert InRange(items[|items| - 1], repositories);
        }
      }
    }
  }

  /**
   * What `filter` returns: nothing when there are no repositories, when the
   * answer text is missing or empty, or when the answer could not be parsed;
   * otherwise the post-processed answer items.
   */
  function Answered(response: GeminiResponse, repositories: seq<Repository>,
                    licenses: map<string, Option<string>>, openSource: set<string>): (rs: seq<FilteredRepository>)
    ensures repositories == [] || response.parsed.None? ==> rs == []
    ensures response.text.None? || response.text.value == "" ==> rs == []
    ensures response.parsed.Some? ==> |rs| <= |response.parsed.value|
    ensures repositories != [] && response.text.Some? && response.text.value != "" && response.parsed.Some? ==>
      rs == Results(response.parsed.value, repositories, licenses, openSource)
  {
    if repositories == [] || response.text.None? || response.text.value == "" || response.parsed.None? then []
    else Results(response.parsed.value, repositories, licenses, openSource)
  }

  /**
   * Every repository `filter` returns is one of the requested ones, carries the
   * license recorded for its name, is flagged open source exactly when its name
   * is in the open-source set, and has a snippet only when so flagged.
   */
  lemma AnsweredGated(response: GeminiResponse, repositories: seq<Repository>,
                      licenses: map<string, Option<string>>, openSource: set<string>)
    ensures forall r | r in Answered(response, repositories, licenses, openSource) ::
      && r.repository in repositories
      && r.license == LicenseOf(r.repository.name, licenses)
      && (r.isOpenSource <==> r.repository.name in openSource)
      && (r.codeExamples != [] ==> r.isOpenSource)
  {
    var rs := Answered(response, repositories, licenses, openSource);
    if rs != [] {
      var items := response.parsed.value;
      ResultsGated(items, repositories, licenses, openSource);
      forall r | r in rs
        ensures r.license == LicenseOf(r.repository.name, licenses)
      {
        var i :| 0 <= i < |items| && InRange(items[i], repositories)
                 && r == ResultFor(items[i], repositories, licenses, openSource).value;
      }
    }
  }

  /** The post-processing loop over the answer items. */
  method BuildResults(items: seq<FilteredItem>, repositories: seq<Repository>,
                      licenses: map<string, Option<string>>, openSource: set<string>)
    returns (results: seq<FilteredRepository>)
    ensures results == Results(items, repositories, licenses, openSource)
  {
    results := [];
    for i := 0 to |items|
      invariant results == Results(items[..i], repositories, licenses, openSource)
    {
      assert items[..i + 1][..i] == items[..i];
      ghost var before := results;
      var item := items[i];
      var idx := item.index - 1;
      if 0 <= idx < |repositories| {
        var repo := repositories[idx];
        var isOpenSource := repo.name in openSource;
        var codeExamples: seq<CodeExample> := [];
        if item.quickStart.Some? && item.quickStart.value.code != "" && isOpenSource {
          codeExamples := [CodeExample(SnippetLanguage(item.quickStart.value.language, repo.language),
                                                      item.quickStart.value.code)];
        }
        results := results + [FilteredRepository(repo, item.relevanceScore, item.summary, item.matchedInterests,
                                                 LicenseOf(repo.name, licenses), isOpenSource, codeExamples)];
      }
      assert results == before + AsSeq(ResultFor(item, repositories, licenses, openSource));
    }
    assert items[..|items|] == items;
  }

  /**
   * `filter`: no request at all for an empty repository list; otherwise one
   * request (returned as `prompt`), and no results when the answer is empty or
   * unparsed. Missing enrichment maps count as empty.
   */
  method Run(f: Filter, repositories: seq<Repository>, readmes: Option<map<string, string>>,
             licenses: Option<map<string, Option<string>>>, openSource: Option<set<string>>,
             response: GeminiResponse)
    returns (prompt: Option<Prompt>, results: seq<FilteredRepository>)
    ensures repositories == [] ==> prompt.None? && results == []
    ensures repositories != [] ==> prompt.Some? && |prompt.value.entries| == |repositories|
    ensures prompt.Some? ==> prompt.value.interests == f.interests && prompt.value.threshold == f.threshold
    ensures repositories != [] ==> forall i | 0 <= i < |repositories| ::
      prompt.value.entries[i] == PromptEntry(i + 1, repositories[i], ReadmeExcerpt(repositories[i].name, readmes.GetOr(map[])))
    ensures results == Answered(response, repositories, licenses.GetOr(map[]), openSource.GetOr({}))
  {
    if repositories == [] {
      return None, [];
    }
    var readmeMap := readmes.GetOr(map[]);
    var licenseMap := licenses.GetOr(map[]);
    var openSourceSet := openSource.GetOr({});
    var p := BuildPrompt(f, repositories, readmeMap);
    prompt := Some(p);
    if response.text.None? || response.text.value == "" {
      return prompt, [];
    }
    if response.parsed.None? {
      return prompt, [];
    }
    results := BuildResults(response.parsed.value, repositories, licenseMap, openSourceSet);
  }
}
