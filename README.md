# trend-sieve, modelled in Dafny

trend-sieve is a scheduled job. Each run does the following:

- collects the repositories on the GitHub trending page;
- fetches each one's README and license;
- asks a language model which repositories match a list of interests, with a summary and an optional quick-start snippet;
- turns the chosen repositories into common trend items and adds the leading Hacker News top stories;
- stores the batch in a Supabase table keyed by `(source, source_id)`;
- posts the items that were new to a Slack webhook.

This project models that pipeline, one module per source file:

| module | file | models |
|---|---|---|
| `Models` | models.dfy | the records, with their defaults and the `int \| str` metadata check |
| `PyText` | pytext.dfy | the Python string built-ins the pipeline relies on: `strip()` and `strip(chars)`, `lower`, `replace`, `split()[0]`, `int()`, `str()`, `[:n]` |
| `Seqs` | seqs.dfy | generic sequence facts, and `Collect`, the loop shape that keeps present values and stops at the first error |
| `GitHubTrending` | github.dfy | URL building, count parsing, element text, parsing one repository, the page and the fetch loop |
| `ReadmeEnricher` | readme.dfy | README lookup over the four file names, the license lookup, the open-source allow-list, the metadata map |
| `GeminiFilter` | gemini.dfy | filter settings, the prompt's structure and README truncation, post-processing of the model's answer with the snippet gate |
| `HackerNews` | hackernews.dfy | the top-stories fetch with its slice, skip rules and record mapping |
| `Supabase` | supabase.dfy | the storage class: upsert with new-item detection over a table of rows, and the recent-items query |
| `Slack` | slack.dfy | message formatting, as a method proved against a function of the items, and the send decision |
| `Scheduler` | scheduler.dfy | the conversion of a filtered repository to a trend item, and the run composing every stage |

Every outside answer is a parameter of the operation that reads it. These are: the HTTP responses, the trending page (as a list of articles), the language model's parsed answer, the webhook's answer and the current time.

A repository's structure decides the form of its model:
- Code that loops and appends is a `method` with a loop.
  - The GitHub and Hacker News fetches, the README lookup, answer post-processing and message formatting are each proved equal to a recursive specification function.
  - Prompt building is proved against a per-entry postcondition: entry i is repository i, numbered i + 1, with its excerpt.
- The storage object whose table changes is a `class` with a `table` field.
- Pure mappings are functions.

Three behaviours of the code that are easy to miss:
- **Failures end the run.** `run` catches nothing. Each of the following ends the run before anything is stored or sent, and `Scheduler.Run` then returns `Err`:
  - a transport failure or a non-success status from the trending page;
  - a count on the page that does not parse;
  - a selected repository without a language, which the conversion as written refuses (see Findings);
  - an unreachable top-stories endpoint.
- **Counts are strict.** `int()` raises on counts such as `1.2k`, which `GitHubTrending.ParseNumberRejects` exhibits.
- **Repeated names collapse.** A name requested twice yields one entry in the enrichment map, because `dict(zip(...))` keeps one. `ReadmeEnricher.FetchMetadataMany` states exactly that.

`Scheduler.Run` follows the conversion as written, so the run stops at the first selected repository without a language. `Scheduler.ConvertGithub`, the corrected conversion, gives the records whenever the run gets past that step.

## Model

| member | source | states |
|---|---|---|
| Models.ValidateMetadata | src/trend_sieve/models.py:51-53 | validation of `dict[str, int \| str]` succeeds exactly when no value is None, and then keeps every key with its value |
| Models.RepositoryDefaults | src/trend_sieve/models.py:6-15 | a repository built from a name and URL has zero counts and no description or language |
| Models.FilteredRepositoryDefaults | src/trend_sieve/models.py:25-40 | a filtered repository defaults to no license, not open source, no snippets, no interests, and a score within 1..10 |
| Models.TrendItemDefaults | src/trend_sieve/models.py:43-65 | a trend item defaults to empty metadata and interests, every optional field absent, and not open source |
| PyText.LeadingCount | src/trend_sieve/sources/github.py:56 | the number of leading characters `strip` removes: all of them are strippable and the next one is not |
| PyText.StripChars | src/trend_sieve/sources/github.py:56 | `strip(chars)` is the text from the first non-strippable character on, with only strippable characters after it; neither end of a non-empty result is strippable, clean text comes back unchanged, and the result is empty iff every character is strippable |
| PyText.StripCharsUnique | src/trend_sieve/sources/github.py:56 | any infix of the text with only strippable characters around it and non-strippable ends is the stripped text, so the contract fixes the value |
| PyText.Strip | src/trend_sieve/sources/github.py:36 | `strip()` is the infix that starts after the leading whitespace (the ASCII whitespace of `str.isspace`, 0x1C to 0x1F included) with only whitespace after it; its ends are not whitespace, and it is empty exactly when the text is all whitespace |
| PyText.TrimsShift | src/trend_sieve/sources/github.py:36 | a stripped infix stays one after more strippable characters are put in front |
| PyText.StripLeadingSpaces | src/trend_sieve/sources/github.py:36 | leading whitespace of any length never changes the stripped text |
| PyText.StripLeadingSpace | src/trend_sieve/sources/github.py:36 | a single leading whitespace character never changes the stripped text |
| PyText.StripKeeps | src/trend_sieve/sources/github.py:36 | every non-whitespace character of the text survives stripping |
| PyText.Lower | src/trend_sieve/enrichers/readme.py:79 | same length, and each character is lower-cased on its own |
| PyText.LowerIdempotent | src/trend_sieve/enrichers/readme.py:88 | lower-casing twice is lower-casing once |
| PyText.RemoveChar | src/trend_sieve/sources/github.py:36 | `replace(c, "")` leaves no `c`, never lengthens, and leaves text without `c` unchanged |
| PyText.RemoveCharOne | src/trend_sieve/sources/github.py:36 | on one character: nothing when it is `c`, the character itself otherwise; with `RemoveCharAppend` this fixes the value on every text |
| PyText.RemoveCharKeepsOthers | src/trend_sieve/sources/github.py:36 | every character other than `c` survives |
| PyText.RemoveCharAppend | src/trend_sieve/sources/github.py:36 | removal distributes over concatenation |
| PyText.FirstWord | src/trend_sieve/sources/github.py:43-44 | `split()[0]` is absent exactly for all-whitespace text; otherwise it is the maximal run of non-whitespace starting at the first non-whitespace character, non-empty and without whitespace |
| PyText.FirstWordOfPrefix | src/trend_sieve/sources/github.py:43-45 | after leading whitespace, a word followed by whitespace or nothing is the first word |
| PyText.PyInt | src/trend_sieve/sources/github.py:39 | `int()` succeeds exactly when the stripped text is an optional sign followed by one or more digits, and then gives their value, negated after `-`; the last character of an accepted text is a digit |
| PyText.PyIntRejects | src/trend_sieve/sources/github.py:39 | any character that is not a digit, whitespace or sign makes `int()` fail |
| PyText.IntToStringRoundTrip | src/trend_sieve/sources/hackernews.py:80 | `IntToString`, the model of `str(i)`, is read back by `int()` as `i`, for every integer |
| PyText.IntToStringInjective | src/trend_sieve/sources/hackernews.py:80 | distinct ids have distinct text forms |
| PyText.DecimalRoundTrip | src/trend_sieve/sources/github.py:39 | the decimal text of n parses back to n |
| PyText.SliceTo | src/trend_sieve/sources/hackernews.py:63 | `[:limit]` is a prefix whose length is the limit capped by the length, or the length minus a negative limit's magnitude |
| PyText.ContainsTrans | tests/notifiers/test_slack.py:53-55 | for `Contains`, the model of Python's substring `in`: a text containing a line that contains a word contains the word |
| GitHubTrending.BuildUrl | src/trend_sieve/sources/github.py:27-32 | the URL starts with the trending base and ends with `?since=`; the language path segment appears exactly when a language is set |
| GitHubTrending.ParseNumber | src/trend_sieve/sources/github.py:34-39 | blank text is 0; a non-zero result needs a digit in the text |
| GitHubTrending.ParseNumberRejectsStray | src/trend_sieve/sources/github.py:34-39 | a character other than a digit, whitespace, sign or comma anywhere in the text makes the parse raise |
| GitHubTrending.ParseNumberIgnoresLeadingSpace | src/trend_sieve/sources/github.py:34-39 | a leading whitespace character, an information separator included, never changes the parsed count or error |
| GitHubTrending.ParseNumberGrouped | src/trend_sieve/sources/github.py:34-39 | every comma-grouped rendering of n parses back to n |
| GitHubTrending.GroupedDropCommas | src/trend_sieve/sources/github.py:36 | removing the commas of a grouped number leaves its plain decimal form |
| GitHubTrending.ParseNumberRejects | src/trend_sieve/sources/github.py:39 | an abbreviated count such as `1.2k` raises instead of defaulting |
| GitHubTrending.ParseNumberExample | src/trend_sieve/sources/github.py:35 | `1,234` parses as 1234 |
| GitHubTrending.ParseStarsToday | src/trend_sieve/sources/github.py:41-46 | blank text is 0; otherwise the first word is parsed as a count |
| GitHubTrending.ParseStarsTodayOfPhrase | src/trend_sieve/sources/github.py:41-46 | whitespace, then a grouped count, then nothing or a phrase starting with whitespace parses as that count |
| GitHubTrending.ParseStarsTodayExample | src/trend_sieve/sources/github.py:42 | the padded span text `12 stars today` parses as 12 |
| GitHubTrending.CountOf | src/trend_sieve/sources/github.py:68-83 | a missing element counts 0; a present one is parsed |
| GitHubTrending.StrippedText | src/trend_sieve/sources/github.py:60-65 | `text(strip=True)` has no whitespace at either end and is empty exactly when every text node strips to nothing |
| GitHubTrending.StrippedTextOne | src/trend_sieve/sources/github.py:60-65 | an element with one text node gives that node stripped |
| GitHubTrending.StrippedTextAppend | src/trend_sieve/sources/github.py:60-65 | the text of two runs of nodes is the first run's text followed by the second's, with nothing between |
| GitHubTrending.TextOf | src/trend_sieve/sources/github.py:60-65 | a text exactly when the element is present, and then its stripped text |
| GitHubTrending.ParseRepository | src/trend_sieve/sources/github.py:48-93 | no name link gives no record; it raises iff a present count fails to parse; otherwise every field is as derived from its element |
| GitHubTrending.NameHasNoEdgeSlashes | src/trend_sieve/sources/github.py:56 | the name never begins or ends with `/` |
| GitHubTrending.KeepsDuplicates | src/trend_sieve/sources/github.py:110-116 | an article listed twice yields its record twice |
| GitHubTrending.SkipsNameless | src/trend_sieve/sources/github.py:113 | an article without a name link leaves the result unchanged |
| Seqs.Collect | src/trend_sieve/sources/github.py:110-116 | the loop that keeps each present value in order and stops at the first error never yields more values than it was given elements |
| Seqs.CollectRaisesAt | src/trend_sieve/sources/github.py:111-112 | one element whose result is an error makes the whole loop an error |
| Seqs.CollectFirstError | src/trend_sieve/sources/github.py:110-116 | a loop that ends in an error ends in the error of its first failing element, all earlier elements having succeeded |
| GitHubTrending.ParseArticles | src/trend_sieve/sources/github.py:110-116 | the records of a page, never more than its articles |
| GitHubTrending.ParseArticlesFails | src/trend_sieve/sources/github.py:110-116 | the page raises iff some article's parse raises |
| GitHubTrending.ParseArticlesRaisesAt | src/trend_sieve/sources/github.py:111-112 | an article that raises makes the whole page raise |
| GitHubTrending.ParseArticlesFirstError | src/trend_sieve/sources/github.py:110-116 | a page that raises does so with the error of its first failing article, every earlier article parsing |
| GitHubTrending.ParseArticlesOne | src/trend_sieve/sources/github.py:111-114 | one article gives its error, nothing when it has no name link, or its one record |
| GitHubTrending.ParseArticlesAppend | src/trend_sieve/sources/github.py:110-116 | two runs of articles give the first run's records followed by the second's, the first run's error winning; with `ParseArticlesOne` this lists the named records in page order |
| GitHubTrending.ParseArticlesStep | src/trend_sieve/sources/github.py:111-114 | one more article after a prefix that parsed: its error ends the parse, a nameless one changes nothing, a named one is appended |
| GitHubTrending.ParseErrorPersists | src/trend_sieve/sources/github.py:111-112 | once a prefix of the page raises, the whole page raises with the same error |
| GitHubTrending.Fetch | src/trend_sieve/sources/github.py:95-116 | transport failure and non-2xx raise; otherwise the loop returns the parsed records in page order or raises the first parse error |
| ReadmeEnricher.IsOpenSource | src/trend_sieve/enrichers/readme.py:84-88 | open source iff the id is present and its lower-cased form is on the allow-list |
| ReadmeEnricher.IsOpenSourceIgnoresCase | src/trend_sieve/enrichers/readme.py:88 | ids that lower-case alike classify alike |
| ReadmeEnricher.IsOpenSourceExamples | src/trend_sieve/enrichers/readme.py:21-37 | MIT and Apache-2.0 in any case are open source; a proprietary, empty or missing id is not |
| ReadmeEnricher.FetchLicense | src/trend_sieve/enrichers/readme.py:65-82 | a license only for a 200 answer with a non-empty SPDX id, and then that id lower-cased |
| ReadmeEnricher.FirstReadmeIsFirstHit | src/trend_sieve/enrichers/readme.py:52-63 | for `FirstReadme`, the search over the candidate file names: no README iff no candidate answers 200; otherwise the body of the first candidate that does |
| ReadmeEnricher.RequestUrlsDistinct | src/trend_sieve/enrichers/readme.py:55-67 | the URLs built by `ReadmeUrl` and `LicenseUrl` are per request: equal README URLs for two of the four listed file names (or any names of equal length) mean the same repository and file, and equal license URLs the same repository |
| ReadmeEnricher.FetchReadme | src/trend_sieve/enrichers/readme.py:50-63 | the loop returns the first candidate's README as the specification function defines it |
| ReadmeEnricher.FetchMetadata | src/trend_sieve/enrichers/readme.py:90-101 | README and license are each fetched independently; open source iff the license is on the allow-list |
| ReadmeEnricher.OpenSourceIndependentOfReadme | src/trend_sieve/enrichers/readme.py:100 | whether a README was found never changes the open-source flag |
| ReadmeEnricher.FetchMetadataMany | src/trend_sieve/enrichers/readme.py:103-110 | one entry per distinct requested name, each that name's own metadata |
| GeminiFilter.NewFilter | src/trend_sieve/filters/gemini.py:38-49 | empty or missing interests and a zero or missing threshold fall back to the settings |
| GeminiFilter.TruncateReadme | src/trend_sieve/filters/gemini.py:62-63 | a README longer than 3000 characters keeps its first 3000 and gains the truncation marker; a shorter one is unchanged |
| GeminiFilter.TruncateBounded | src/trend_sieve/filters/gemini.py:62-63 | truncation bounds the length and preserves the leading text |
| GeminiFilter.TruncateIdempotent | src/trend_sieve/filters/gemini.py:62-63 | truncating twice is truncating once |
| GeminiFilter.ReadmeExcerpt | src/trend_sieve/filters/gemini.py:60-63 | an excerpt exactly for names with a non-empty README, and it is the truncated README |
| GeminiFilter.BuildPrompt | src/trend_sieve/filters/gemini.py:52-98 | one entry per repository, numbered from 1 in order, with its excerpt, plus the filter's interests and threshold |
| GeminiFilter.SnippetLanguage | src/trend_sieve/filters/gemini.py:119-121 | the proposed language, else the repository's, else `text`; never empty |
| GeminiFilter.ResultFor | src/trend_sieve/filters/gemini.py:109-136 | a result iff the 1-based index is in range; snippet iff the repository is in the open-source set and code was proposed |
| GeminiFilter.Results | src/trend_sieve/filters/gemini.py:100-137 | the post-processed answer, item by item in answer order, never longer than the answer |
| GeminiFilter.ResultsAppend | src/trend_sieve/filters/gemini.py:109 | answer items are post-processed independently of each other |
| GeminiFilter.DropsOutOfRange | src/trend_sieve/filters/gemini.py:111 | an out-of-range index is dropped without affecting the others |
| GeminiFilter.ResultsAllInRange | src/trend_sieve/filters/gemini.py:100-137 | with every index in range, result k is item k's result |
| GeminiFilter.ResultsGated | src/trend_sieve/filters/gemini.py:113-124 | every result comes from an in-range item, and a snippet only ever goes to a repository flagged open source |
| GeminiFilter.BuildResults | src/trend_sieve/filters/gemini.py:100-137 | the loop computes the specification function's results |
| GeminiFilter.Answered | src/trend_sieve/filters/gemini.py:147-177 | no repositories, a missing or empty answer text, or an unparsed answer gives nothing; otherwise the post-processed answer items (`Results`), never more than the answer has |
| GeminiFilter.AnsweredGated | src/trend_sieve/filters/gemini.py:132-134 | every returned repository was requested, carries its recorded license, is flagged open source iff in the set, and has a snippet only when flagged |
| GeminiFilter.Run | src/trend_sieve/filters/gemini.py:139-177 | no prompt and no results for no repositories; otherwise a prompt with the filter's interests and threshold whose entry i is repository i, numbered i + 1, with its excerpt; the results are `Answered`'s |
| HackerNews.StoryUrl | src/trend_sieve/sources/hackernews.py:72-75 | the link when present and non-empty, else the discussion permalink |
| HackerNews.Normalize | src/trend_sieve/sources/hackernews.py:68-91 | a record iff the answer is a story; then every field as mapped, with metadata defaults for missing keys |
| HackerNews.NormalizeAll | src/trend_sieve/sources/hackernews.py:67-93 | never more items than answers, all under the hackernews origin and without a description or snippet |
| HackerNews.NormalizeAllKeepsStories | src/trend_sieve/sources/hackernews.py:68-80 | when every answer is a story nothing is dropped and id order is kept |
| HackerNews.NormalizeAllAppend | src/trend_sieve/sources/hackernews.py:68 | normalisation distributes over concatenation |
| HackerNews.SkipsNonStory | src/trend_sieve/sources/hackernews.py:69-70 | a failed request or a non-story contributes nothing |
| HackerNews.DistinctIdsDistinctKeys | src/trend_sieve/sources/hackernews.py:80 | distinct story ids give distinct storage keys |
| HackerNews.Stories | src/trend_sieve/sources/hackernews.py:59-63 | a non-200 answer gives nothing; never more items than the limit |
| HackerNews.Fetch | src/trend_sieve/sources/hackernews.py:48-93 | an unreachable top-stories endpoint raises; otherwise the loop yields exactly the stories of the first `limit` ids |
| Supabase.KeysOfAppend | src/trend_sieve/storage/supabase.py:39-47 | the keys of a concatenation are the union of the keys |
| Supabase.Upsert1 | src/trend_sieve/storage/supabase.py:41-74 | the item's row holds it with last-seen now; first-seen is kept for an existing key and is now for a new one; other rows untouched |
| Supabase.Upserted | src/trend_sieve/storage/supabase.py:39-74 | the keys afterwards are the old keys plus the batch's keys |
| Supabase.UpsertedUntouched | src/trend_sieve/storage/supabase.py:65-74 | no row is deleted, and rows outside the batch are unchanged |
| Supabase.UpsertedTimes | src/trend_sieve/storage/supabase.py:62-72 | first-seen never changes for existing rows and is now for new ones; every batch key is last seen now |
| Supabase.UpsertedWellKeyed | src/trend_sieve/storage/supabase.py:41-47 | every row stays under its own item's key |
| Supabase.UpsertedAppend | src/trend_sieve/storage/supabase.py:39 | upserting two batches in turn is upserting their concatenation |
| Supabase.UpsertedHoldsLastOccurrence | src/trend_sieve/storage/supabase.py:65-69 | a key occurring several times in the batch ends holding its last occurrence |
| Supabase.Novel | src/trend_sieve/storage/supabase.py:70-74 | reported items come from the batch with unseen keys, covering exactly the unseen keys; nothing when all keys were seen |
| Supabase.NovelDistinctKeys | src/trend_sieve/storage/supabase.py:70-74 | no key is reported new twice, even when it repeats in the batch |
| Supabase.NovelAppend | src/trend_sieve/storage/supabase.py:39-74 | novelty of a concatenation is the first part's novelty plus the second's against what the first added |
| Supabase.SecondUpsertIsQuiet | src/trend_sieve/storage/supabase.py:31-77 | repeating a batch reports nothing new, adds no key and keeps every first-seen time |
| Supabase.RecentKeys | src/trend_sieve/storage/supabase.py:92-97 | the keys whose first-seen time is at or after the cutoff |
| Supabase.NewestExists | src/trend_sieve/storage/supabase.py:98 | a non-empty set of rows has a newest one |
| Supabase.SelectionStep | src/trend_sieve/storage/supabase.py:94-101 | taking the newest remaining recent row keeps the partial answer sorted, distinct and newest-first |
| Supabase.SupabaseStorage.constructor | src/trend_sieve/storage/supabase.py:16-29 | configured iff both URL and key are given and non-empty |
| Supabase.SupabaseStorage.UpsertItems | src/trend_sieve/storage/supabase.py:31-77 | without a client or items, nothing new and the table unchanged; otherwise the new items and table as the specification functions define them |
| Supabase.SupabaseStorage.GetRecentItems | src/trend_sieve/storage/supabase.py:79-102 | nothing without a client; otherwise table rows within the window, newest first, distinct, `min(limit, recent)` of them, with none left out newer than any returned |
| Slack.Header | src/trend_sieve/notifiers/slack.py:32 | the header names the digest title |
| Slack.BySourceMembers | src/trend_sieve/notifiers/slack.py:29-30 | the group `BySource` picks holds exactly the items of that origin |
| Slack.BySourceOne | src/trend_sieve/notifiers/slack.py:29-30 | a single item is its own group exactly when it has that origin, and the group is empty otherwise |
| Slack.BySourceAppend | src/trend_sieve/notifiers/slack.py:29-30 | the group of a concatenation is the first part's group followed by the second's; with `BySourceOne` the group is the order-keeping filter, repeats included, which decides the five items shown |
| Slack.ScoreText | src/trend_sieve/notifiers/slack.py:37-39 | empty exactly for a missing or zero score; otherwise `:star: n/10` |
| Slack.PointsText | src/trend_sieve/notifiers/slack.py:51-53 | a missing `points` key shows as 0; a number shows as `str(points)`, its decimal text, which `int()` reads back as that number; a text value is shown as is |
| Slack.ItemLinesShowTitle | src/trend_sieve/notifiers/slack.py:40-55 | every line `GitHubLine` or `HnLine` builds is a bullet naming the item's title |
| Slack.MapLinesAt | src/trend_sieve/notifiers/slack.py:36-42 | line i is item i's line |
| Slack.JoinContainsLine | src/trend_sieve/notifiers/slack.py:57 | the joined text contains every line |
| Slack.FormatMessage | src/trend_sieve/notifiers/slack.py:27-57 | the loops build exactly the message the specification function describes |
| Slack.AppendLines | src/trend_sieve/notifiers/slack.py:36-42 | the appending loop adds one line per shown item, in order |
| Slack.Send | src/trend_sieve/notifiers/slack.py:59-80 | posts iff the URL is non-empty and there are items; posts the formatted message; delivered iff the answer is 200 |
| Slack.EmptyUrlConfiguredButSilent | src/trend_sieve/notifiers/slack.py:22-25 | `IsConfigured` holds for an empty URL, yet nothing is sent |
| Slack.NoItemsNoPost | src/trend_sieve/notifiers/slack.py:61-62 | nothing is sent for no items |
| Slack.MessageLineCount | src/trend_sieve/notifiers/slack.py:32-55 | line count: header, plus heading, up to five lines and a blank for GitHub, plus heading and up to five lines for Hacker News |
| Slack.ItemLinesAreBullets | src/trend_sieve/notifiers/slack.py:40-55 | every item line starts with a bullet |
| Slack.HeadingsIffGroups | src/trend_sieve/notifiers/slack.py:34-46 | each section heading appears iff some item has that origin |
| Slack.OtherSourcesOnlyCounted | src/trend_sieve/notifiers/slack.py:29-32 | an item of another origin only raises the header's count |
| Slack.MessageShowsTitle | tests/notifiers/test_slack.py:53 | the joined text `Message` builds contains the digest title |
| Slack.MessageShowsGitHubTitles | tests/notifiers/test_slack.py:54 | every shown GitHub item's title is in the message |
| Slack.MessageShowsHnTitles | tests/notifiers/test_slack.py:55 | every shown Hacker News item's title is in the message |
| Scheduler.GitHubMetadata | src/trend_sieve/scheduler.py:32-37 | the raw metadata minus the entries the record refuses (the language, exactly when unknown), with every kept value unchanged |
| Scheduler.ConvertGithub | src/trend_sieve/scheduler.py:21-46 | key `(github, name)`, title and URL from the repository, opinion and license facts carried over, snippet iff the filter kept one |
| Scheduler.ConvertGithubAsWritten | src/trend_sieve/scheduler.py:32-37 | as written, conversion fails exactly when the language is unknown, and otherwise equals the corrected conversion |
| Scheduler.UnknownLanguageRejected | src/trend_sieve/scheduler.py:35 | a concrete repository without a language that the conversion as written rejects |
| Scheduler.GitHubItems | src/trend_sieve/scheduler.py:81 | one converted item per filtered repository, in filter order |
| Scheduler.ConvertAllAsWritten | src/trend_sieve/scheduler.py:81 | the conversion of the whole list as written fails exactly when some repository has no language, and otherwise yields the corrected items |
| Scheduler.Names | src/trend_sieve/scheduler.py:62 | the repository names, one per repository, in order |
| Scheduler.Readmes | src/trend_sieve/scheduler.py:65 | only names whose README was found and is non-empty |
| Scheduler.Licenses | src/trend_sieve/scheduler.py:66 | every enriched name with its license |
| Scheduler.OpenSourceSet | src/trend_sieve/scheduler.py:67 | exactly the names classified open source |
| Scheduler.SnippetsOnlyForOpenSource | src/trend_sieve/scheduler.py:63-81 | in the converted GitHub items, a snippet implies open source, and open source implies an allow-listed license |
| Scheduler.Merge | src/trend_sieve/scheduler.py:96 | the batch is every GitHub item plus at most ten stories |
| Scheduler.MergeOrder | src/trend_sieve/scheduler.py:96 | GitHub items first and whole, then the leading stories in order |
| Scheduler.BatchOriginsDisjoint | src/trend_sieve/scheduler.py:81-96 | no GitHub item shares a key with a story |
| Scheduler.NewItems | src/trend_sieve/scheduler.py:105-111 | without a store, the whole batch; with one, only batch items whose keys it did not hold, covering exactly the batch keys it did not hold |
| Scheduler.RepeatedBatchNotNotified | src/trend_sieve/scheduler.py:105-123 | with a store, a rerun on already stored keys finds nothing new to notify |
| Scheduler.Store | src/trend_sieve/scheduler.py:100-111 | the storage stage's new items and table as the specification functions define them |
| Scheduler.Run | src/trend_sieve/scheduler.py:49-125 | a trending-page failure, a selected repository without a language, or an unreachable top-stories endpoint aborts the run, in that order; otherwise each stage is fed by the previous ones, and a post is attempted iff a webhook is set and something is new |

## Left out

- HTML parsing: the CSS selectors are not modelled. An article is given as the optional texts of the elements the parser looks up; for the description and language, as the element's text nodes, which `StrippedText` strips one by one and joins as `text(strip=True)` does. How selectolax splits an element into text nodes is not modelled.
- Network access, timeouts and `asyncio.gather` concurrency are not modelled. Each request is a function from URL to answer, and results keep request order as `gather` does.
- Malformed JSON in an answer is not modelled. A Hacker News item or top-stories body that is not valid JSON would raise there.
- A JSON `null` where a key's value is expected is not modelled. The story fields and the license id are only present or absent.
- The language model call is not modelled. Its parsed answer is a parameter, and scores outside 1..10 cannot occur because the answer schema rejects them before post-processing.
- Scheduler.Run: does not model three exceptions that end the run in the code, because their source is outside the model: a failing language model call (src/trend_sieve/filters/gemini.py:156-165, no `try`), `create_client` refusing the Supabase URL or key (src/trend_sieve/storage/supabase.py:24), and an API error from any `.execute()` in the upsert loop (src/trend_sieve/storage/supabase.py:41-73), which leaves the batch's earlier rows written and sends nothing.
- GeminiFilter.BuildPrompt: builds the prompt's structure (numbered entries, excerpts, interests, threshold) and not its literal wording or markdown layout.
- Timestamps are integers (seconds) instead of ISO-8601 strings, and the clock is a parameter.
- The table is a map with one row per key. Row ids, extra columns and a store holding several rows for one key are not modelled.
- Logging is not modelled.
- `main.py` (the interactive command line) is not part of this model. It is not part of the pipeline run.
- `sources/__init__.py` does not export `HackerNewsSource`, which `scheduler.py` imports from that package. That import error is outside what the model can express, so the model treats the import as working.
- PyText.Lower: lower-cases ASCII letters only. Python's `str.lower` also folds non-ASCII letters.
- PyText.Strip: strips ASCII whitespace only (and `GitHubTrending.StrippedText` likewise), 0x1C to 0x1F included. Python's `str.strip` also strips non-ASCII whitespace such as U+0085, U+00A0 and U+2000 to U+200A.
- PyText.FirstWord: splits on ASCII whitespace only, 0x1C to 0x1F included. Python's `str.split()` also splits on non-ASCII whitespace such as U+0085, U+00A0 and U+3000.
- PyText.PyInt: accepts an optional sign and ASCII digits. Python's `int()` also accepts underscores and Unicode digits.
- Supabase.SupabaseStorage.GetRecentItems: the order of rows with equal first-seen times is left open, as the query does not fix it.

## Findings

| source | as written | input that shows it | evidently intended | confidence | as-written member | corrected member |
|---|---|---|---|---|---|---|
| src/trend_sieve/scheduler.py:35 | the conversion puts `repo.language` into `metadata`, typed `dict[str, int \| str]`; the trending page lists many repositories without a language, so the value is None and record validation raises, aborting the whole run | a filtered repository whose `language` is None, such as `octo/tool` | a repository without a language still becomes a trend item; its metadata has no language entry | high, not executed | Scheduler.ConvertGithubAsWritten | Scheduler.ConvertGithub |
