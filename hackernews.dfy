/**
 * The discussion-site source (src/trend_sieve/sources/hackernews.py): the
 * top-stories request, the per-story requests and the loop that turns the
 * answered stories into trend items. Each request is replaced by its answer.
 */
module HackerNews {
  import opened Basics
  import opened PyText
  import opened Models

  const Source: string := "hackernews"
  const PermalinkPrefix: string := "https://news.ycombinator.com/item?id="

  /** A story's JSON object; every optional key is None when it is missing. */
  datatype HnItem = HnItem(
    id: int,
    itemType: Option<string>,
    url: Option<string>,
    title: Option<string>,
    score: Option<int>,
    descendants: Option<int>,
    author: Option<string>,   // the "by" key
    time: Option<int>)

  /** The answer to the top-stories request: its status and the ids of the JSON list. */
  datatype TopStories = TopStories(status: int, ids: seq<int>)

  /** Why a whole fetch raised: the top-stories request itself could not be made. */
  datatype FetchError = TopStoriesTransportFailure

  /** The story's link, or its discussion permalink when it has no link or an empty one. */
  function StoryUrl(item: HnItem): (u: string)
    ensures item.url.Some? && item.url.value != "" ==> u == item.url.value
    ensures item.url.None? || item.url.value == "" ==> u == PermalinkPrefix + IntToString(item.id)
  {
    if item.url.Some? && item.url.value != "" then item.url.value
    else PermalinkPrefix + IntToString(item.id)
  }

  /**
   * One answered request as a trend item: nothing for a failed request or an
   * item that is not a story; otherwise the story under this origin, its id as
   * text, no description, and the metadata defaults for missing keys.
   */
  function Normalize(answer: Option<HnItem>): (r: Option<TrendItem>)
    ensures r.Some? <==> answer.Some? && answer.value.itemType == Some("story")
    ensures r.Some? ==>
      var item := answer.value;
      && r.value.source == Source
      && r.value.sourceId == IntToString(item.id)
      && r.value.title == item.title.GetOr("")
      && r.value.url == StoryUrl(item)
      && r.value.description.None?
      && r.value.metadata == map[
           "points" := MInt(item.score.GetOr(0)),
           "comments" := MInt(item.descendants.GetOr(0)),
           "author" := MStr(item.author.GetOr("")),
           "time" := MInt(item.time.GetOr(0))]
      && r.value.relevanceScore.None? && r.value.summary.None? && r.value.codeExample.None?
      && r.value.license.None? && !r.value.isOpenSource && r.value.matchedInterests == []
  {
    if answer.None? || answer.value.itemType != Some("story") then None
    else
      var item := answer.value;
      Some(TrendItem(
        source := Source,
        sourceId := IntToString(item.id),
        title := item.title.GetOr(""),
        url := StoryUrl(item),
        description := None,
        metadata := map[
          "points" := MInt(item.score.GetOr(0)),
          "comments" := MInt(item.descendants.GetOr(0)),
          "author" := MStr(item.author.GetOr("")),
          "time" := MInt(item.time.GetOr(0))]))
  }

  /** The answered requests turned into trend items, in id order, skipping failures and non-stories. */
  function NormalizeAll(answers: seq<Option<HnItem>>): (r: seq<TrendItem>)
    ensures |r| <= |answers|
    ensures forall x | x in r :: x.source == Source && x.description.None? && x.codeExample.None?
  {
    if answers == [] then []
    else
      var last := Normalize(answers[|answers| - 1]);
      NormalizeAll(answers[..|answers| - 1]) + (if last.Some? then [last.value] else [])
  }

  /** When every request answered a story, nothing is dropped and the order of the ids is kept. */
  lemma {:induction false} NormalizeAllKeepsStories(answers: seq<Option<HnItem>>)
    requires forall i | 0 <= i < |answers| :: answers[i].Some? && answers[i].value.itemType == Some("story")
    ensures |NormalizeAll(answers)| == |answers|
    ensures forall i | 0 <= i < |answers| ::
      NormalizeAll(answers)[i].sourceId == IntToString(answers[i].value.id)
  {
    if answers != [] {
      var init := answers[..|answers| - 1];
      NormalizeAllKeepsStories(init);
      var last := Normalize(answers[|answers| - 1]);
      assert NormalizeAll(answers) == NormalizeAll(init) + [last.value];
    }
  }

  /** A failed request or a non-story anywhere is skipped without disturbing the others. */
  lemma {:induction false} NormalizeAllAppend(a: seq<Option<HnItem>>, b: seq<Option<HnItem>>)
    ensures NormalizeAll(a + b) == NormalizeAll(a) + NormalizeAll(b)
    decreases |b|
  {
    if b == [] {
      assert a + b == a;
    } else {
      var init := b[..|b| - 1];
      assert (a + b)[..|a + b| - 1] == a + init;
      assert (a + b)[|a + b| - 1] == b[|b| - 1];
      NormalizeAllAppend(a, init);
    }
  }

  /** An answer that is not a story contributes nothing. */
  lemma SkipsNonStory(a: seq<Option<HnItem>>, answer: Option<HnItem>, b: seq<Option<HnItem>>)
    requires answer.None? || answer.value.itemType != Some("story")
    ensures NormalizeAll(a + [answer] + b) == NormalizeAll(a) + NormalizeAll(b)
  {
    NormalizeAllAppend(a + [answer], b);
    NormalizeAllAppend(a, [answer]);
    assert [answer][..0] == [];
    assert NormalizeAll([answer]) == NormalizeAll([]) + [] == [];
    assert NormalizeAll(a + [answer]) == NormalizeAll(a);
  }

  /** Items of distinct stories have distinct keys: the id's text form identifies it. */
  lemma DistinctIdsDistinctKeys(a: HnItem, b: HnItem)
    requires Normalize(Some(a)).Some? && Normalize(Some(b)).Some?
    requires a.id != b.id
    ensures KeyOf(Normalize(Some(a)).value) != KeyOf(Normalize(Some(b)).value)
  {
    if IntToString(a.id) == IntToString(b.id) {
      IntToStringInjective(a.id, b.id);
    }
  }

  /**
   * The items a fetch yields from a top-stories answer: none for a non-200
   * answer; otherwise the answers to the first `limit` ids, normalised in order.
   */
  function Stories(top: TopStories, limit: int, getItem: int -> Option<HnItem>): (r: seq<TrendItem>)
    ensures top.status != 200 ==> r == []
    ensures limit >= 0 ==> |r| <= limit
    ensures forall x | x in r :: x.source == Source
  {
    if top.status != 200 then []
    else
      var ids := SliceTo(top.ids, limit);
      NormalizeAll(seq(|ids|, i requires 0 <= i < |ids| => getItem(ids[i])))
  }

  /**
   * `fetch`: a non-200 top-stories answer gives no items; otherwise only the
   * first `limit` ids are requested, and the answers are normalised in order.
   * `top` is None when the top-stories request itself fails, which raises.
   */
  method Fetch(limit: int, top: Option<TopStories>, getItem: int -> Option<HnItem>)
    returns (r: Result<seq<TrendItem>, FetchError>)
    ensures top.None? ==> r == Err(TopStoriesTransportFailure)
    ensures top.Some? ==> r == Ok(Stories(top.value, limit, getItem))
  {
    if top.None? {
      return Err(TopStoriesTransportFailure);
    }
    if top.value.status != 200 {
      return Ok([]);
    }
    var storyIds := SliceTo(top.value.ids, limit);
    var items := seq(|storyIds|, i requires 0 <= i < |storyIds| => getItem(storyIds[i]));
    var results: seq<TrendItem> := [];
    for i := 0 to |items|
      invariant results == NormalizeAll(items[..i])
    {
      assert items[..i + 1][..i] == items[..i];
      var item := items[i];
      if item.None? || item.value.itemType != Some("story") {
        continue;
      }
      var url := if item.value.url.Some? && item.value.url.value != "" then item.value.url.value
                 else PermalinkPrefix + IntToString(item.value.id);
      results := results + [TrendItem(
        source := "hackernews",
        sourceId := IntToString(item.value.id),
        title := item.value.title.GetOr(""),
        url := url,
        description := None,
        metadata := map[
          "points" := MInt(item.value.score.GetOr(0)),
          "comments" := MInt(item.value.descendants.GetOr(0)),
          "author" := MStr(item.value.author.GetOr("")),
          "time" := MInt(item.value.time.GetOr(0))])];
    }
    assert items[..|items|] == items;
    return Ok(results);
  }
}
