/**
 * The chat notifier (src/trend_sieve/notifiers/slack.py): whether it is
 * configured, the message it formats from the new items, and the guards and
 * status rule of sending. The webhook POST is an oracle from the URL and the
 * message text to the answer.
 */
module Slack {
  import opened Basics
  import opened PyText
  import opened Models
  import opened Seqs

  /** Lines shown per origin at most. */
  const MaxPerSection: nat := 5
  const Title: string := "오늘의 AI 트렌드"
  const GitHubHeading: string := "*:package: GitHub*"
  const HnHeading: string := "*:newspaper: Hacker News*"

  datatype SlackNotifier = SlackNotifier(webhookUrl: Option<string>)

  /** What the webhook POST gives: a transport error (caught) or a status code. */
  datatype PostResult = PostTransportError | PostStatus(code: int)

  /** The outcome of `send`: whether it reports delivery, and the text it posted, if it posted. */
  datatype SendOutcome = SendOutcome(delivered: bool, posted: Option<string>)

  /** Configured means a URL is present, even an empty one. */
  predicate IsConfigured(n: SlackNotifier) {
    n.webhookUrl.Some?
  }

  /** The first line, counting every item, whatever its origin. */
  function Header(count: nat): (h: string)
    ensures Contains(h, Title)
    ensures h[0] == ':'
  {
    ContainsConcat(":fire: *", Title, "* (" + Decimal(count) + "건)\n");
    ":fire: *" + Title + ("* (" + Decimal(count) + "건)\n")
  }

  /** The items of one origin, in their original order. */
  function BySource(items: seq<TrendItem>, source: string): (r: seq<TrendItem>)
    ensures |r| <= |items|
  {
    if items == [] then []
    else
      var init := items[..|items| - 1];
      var last := items[|items| - 1];
      assert items == init + [last];
      BySource(init, source) + (if last.source == source then [last] else [])
  }

  /** The items of one origin are exactly the items with that origin. */
  lemma {:induction false} BySourceMembers(items: seq<TrendItem>, source: string)
    ensures forall x | x in BySource(items, source) :: x in items && x.source == source
    ensures forall x | x in items && x.source == source :: x in BySource(items, source)
  {
    if items != [] {
      var init := items[..|items| - 1];
      var last := items[|items| - 1];
      assert items == init + [last];
      BySourceMembers(init, source);
    }
  }

  /** A single item forms its own group exactly when it has that origin. */
  lemma BySourceOne(x: TrendItem, source: string)
    ensures BySource([x], source) == if x.source == source then [x] else []
  {
    assert [x][..0] == [];
  }

  /**
   * Grouping keeps the input order and repeats: the group of a concatenation
   * is the group of the first part followed by the group of the second.
   */
  lemma {:induction false} BySourceAppend(a: seq<TrendItem>, b: seq<TrendItem>, source: string)
    ensures BySource(a + b, source) == BySource(a, source) + BySource(b, source)
  {
    if b == [] {
      assert a + b == a;
    } else {
      var b' := b[..|b| - 1];
      var last := b[|b| - 1];
      AppendDropLast(a, b);
      BySourceAppend(a, b', source);
      ConcatAssoc(BySource(a, source), BySource(b', source), if last.source == source then [last] else []);
    }
  }

  /** The score mark: shown only for a present, non-zero score. */
  function ScoreText(score: Option<int>): (r: string)
    ensures r == "" <==> score.None? || score.value == 0
    ensures r != "" ==> r == ":star: " + IntToString(score.value) + "/10"
  {
    if score.Some? && score.value != 0 then ":star: " + IntToString(score.value) + "/10" else ""
  }

  /**
   * The `points` metadata value as text: a missing key shows as 0, a number
   * shows as its decimal text `str(points)`, which reads back as that number,
   * and a text value is shown as is.
   */
  function PointsText(metadata: map<string, MetaValue>): (r: string)
    ensures "points" !in metadata ==> r == "0"
    ensures "points" in metadata && metadata["points"].MInt? ==> r == IntToString(metadata["points"].i)
    ensures "points" in metadata && metadata["points"].MInt? ==> PyInt(r) == Some(metadata["points"].i)
    ensures "points" in metadata && metadata["points"].MStr? ==> r == metadata["points"].s
  {
    var v := if "points" in metadata then metadata["points"] else MInt(0);
    match v
    case MInt(i) => IntToStringRoundTrip(i); IntToString(i)
    case MStr(s) => s
  }

  /** A GitHub line: link, summary (empty when missing) and score mark. */
  function GitHubLine(item: TrendItem): string {
    "• <" + item.url + "|" + item.title + ("> - " + item.summary.GetOr("") + " " + ScoreText(item.relevanceScore))
  }

  /** A Hacker News line: link, points, summary (empty when missing) and score mark. */
  function HnLine(item: TrendItem): string {
    "• <" + item.url + "|" + item.title
    + ("> (" + PointsText(item.metadata) + " points) - " + item.summary.GetOr("") + " " + ScoreText(item.relevanceScore))
  }

  /** Both kinds of item line start with a bullet and show the item's title. */
  lemma ItemLinesShowTitle(item: TrendItem)
    ensures |GitHubLine(item)| > 0 && GitHubLine(item)[0] == '•' && Contains(GitHubLine(item), item.title)
    ensures |HnLine(item)| > 0 && HnLine(item)[0] == '•' && Contains(HnLine(item), item.title)
  {
    ContainsConcat("• <" + item.url + "|", item.title,
      "> - " + item.summary.GetOr("") + " " + ScoreText(item.relevanceScore));
    ContainsConcat("• <" + item.url + "|", item.title,
      "> (" + PointsText(item.metadata) + " points) - " + item.summary.GetOr("") + " " + ScoreText(item.relevanceScore));
  }

  /** The lines of a sequence of items, in item order. */
  function MapLines(xs: seq<TrendItem>, f: TrendItem -> string): (r: seq<string>)
    ensures |r| == |xs|
  {
    if xs == [] then [] else MapLines(xs[..|xs| - 1], f) + [f(xs[|xs| - 1])]
  }

  /** Line i of a section is the line of item i. */
  lemma {:induction false} MapLinesAt(xs: seq<TrendItem>, f: TrendItem -> string, i: nat)
    requires i < |xs|
    ensures MapLines(xs, f)[i] == f(xs[i])
  {
    if i < |xs| - 1 {
      MapLinesAt(xs[..|xs| - 1], f, i);
    }
  }

  lemma MapLinesSnoc(xs: seq<TrendItem>, i: nat, f: TrendItem -> string)
    requires i < |xs|
    ensures MapLines(xs[..i + 1], f) == MapLines(xs[..i], f) + [f(xs[i])]
  {
    assert xs[..i + 1][..i] == xs[..i];
  }

  /** The GitHub section: its heading, at most five lines and a blank line; nothing for no items. */
  function GitHubSection(gh: seq<TrendItem>): seq<string> {
    if gh != [] then [GitHubHeading] + MapLines(SliceTo(gh, MaxPerSection), GitHubLine) + [""] else []
  }

  /** The Hacker News section: its heading and at most five lines; nothing for no items. */
  function HnSection(hn: seq<TrendItem>): seq<string> {
    if hn != [] then [HnHeading] + MapLines(SliceTo(hn, MaxPerSection), HnLine) else []
  }

  /** The lines of the message: the header, then the GitHub section, then the Hacker News section. */
  function MessageLines(items: seq<TrendItem>): seq<string> {
    [Header(|items|)] + GitHubSection(BySource(items, "github")) + HnSection(BySource(items, "hackernews"))
  }

  /** Python's `sep.join(lines)`. */
  function Join(lines: seq<string>, sep: string): string {
    if lines == [] then ""
    else if |lines| == 1 then lines[0]
    else lines[0] + sep + Join(lines[1..], sep)
  }

  /** The message text. */
  function Message(items: seq<TrendItem>): string {
    Join(MessageLines(items), "\n")
  }

  /** Every line appears in the joined text. */
  lemma {:induction false} JoinContainsLine(lines: seq<string>, sep: string, i: nat)
    requires i < |lines|
    ensures Contains(Join(lines, sep), lines[i])
  {
    if |lines| == 1 {
      ContainsConcat([], lines[0], []);
      assert [] + lines[0] + [] == lines[0];
    } else if i == 0 {
      ContainsConcat([], lines[0], sep + Join(lines[1..], sep));
      assert [] + lines[0] + (sep + Join(lines[1..], sep)) == Join(lines, sep);
    } else {
      JoinContainsLine(lines[1..], sep, i - 1);
      ContainsConcat(lines[0] + sep, Join(lines[1..], sep), []);
      assert lines[0] + sep + Join(lines[1..], sep) + [] == Join(lines, sep);
      ContainsTrans(Join(lines, sep), Join(lines[1..], sep), lines[i]);
    }
  }

  /**
   * `_format_message`: splits the items by origin, then appends the header,
   * up to five lines per origin under its heading, in item order.
   */
  method FormatMessage(items: seq<TrendItem>) returns (message: string)
    ensures message == Message(items)
  {
    var githubItems := BySource(items, "github");
    var hnItems := BySource(items, "hackernews");
    var lines := [Header(|items|)];
    ghost var head := lines;
    if githubItems != [] {
      lines := AppendLines(lines + [GitHubHeading], SliceTo(githubItems, MaxPerSection), GitHubLine);
      lines := lines + [""];
      AppendGitHubSection(head, githubItems);
    }
    ghost var middle := lines;
    assert middle == head + GitHubSection(githubItems);
    if hnItems != [] {
      lines := AppendLines(lines + [HnHeading], SliceTo(hnItems, MaxPerSection), HnLine);
      AppendHnSection(middle, hnItems);
    }
    assert lines == middle + HnSection(hnItems);
    message := Join(lines, "\n");
  }

  lemma AppendGitHubSection(a: seq<string>, gh: seq<TrendItem>)
    requires gh != []
    ensures a + [GitHubHeading] + MapLines(SliceTo(gh, MaxPerSection), GitHubLine) + [""] == a + GitHubSection(gh)
  {
  }

  lemma AppendHnSection(a: seq<string>, hn: seq<TrendItem>)
    requires hn != []
    ensures a + [HnHeading] + MapLines(SliceTo(hn, MaxPerSection), HnLine) == a + HnSection(hn)
  {
  }

  /** One section's loop: appends the line of each shown item, in order. */
  method AppendLines(lines: seq<string>, shown: seq<TrendItem>, line: TrendItem -> string) returns (r: seq<string>)
    ensures r == lines + MapLines(shown, line)
  {
    r := lines;
    for i := 0 to |shown|
      invariant r == lines + MapLines(shown[..i], line)
    {
      MapLinesSnoc(shown, i, line);
      r := r + [line(shown[i])];
    }
    assert shown[..|shown|] == shown;
  }

  /**
   * `send`: nothing is formatted or posted without a non-empty URL or without
   * items; otherwise the message is posted to the URL and delivery is
   * reported exactly when the answer is status 200.
   */
  function Send(n: SlackNotifier, items: seq<TrendItem>, post: (string, string) -> PostResult): (r: SendOutcome)
    ensures r.posted.Some? <==> n.webhookUrl.Some? && n.webhookUrl.value != "" && items != []
    ensures r.posted.Some? ==> r.posted.value == Message(items)
    ensures r.delivered <==> r.posted.Some? && post(n.webhookUrl.value, Message(items)) == PostStatus(200)
  {
    if n.webhookUrl.None? || n.webhookUrl.value == "" || items == [] then SendOutcome(false, None)
    else
      var message := Message(items);
      match post(n.webhookUrl.value, message)
      case PostTransportError => SendOutcome(false, Some(message))
      case PostStatus(code) => SendOutcome(code == 200, Some(message))
  }

  /** An empty URL counts as configured, yet nothing is ever sent to it. */
  lemma EmptyUrlConfiguredButSilent(items: seq<TrendItem>, post: (string, string) -> PostResult)
    ensures IsConfigured(SlackNotifier(Some("")))
    ensures Send(SlackNotifier(Some("")), items, post) == SendOutcome(false, None)
  {
  }

  /** Without any items nothing is sent, whatever the URL. */
  lemma NoItemsNoPost(n: SlackNotifier, post: (string, string) -> PostResult)
    ensures Send(n, [], post) == SendOutcome(false, None)
  {
  }

  /** The number of lines: the header, then heading, capped lines and blank line per non-empty section. */
  lemma MessageLineCount(items: seq<TrendItem>)
    ensures var gh := |BySource(items, "github")|;
      var hn := |BySource(items, "hackernews")|;
      |MessageLines(items)| ==
        1 + (if gh > 0 then 2 + (if gh < MaxPerSection then gh else MaxPerSection) else 0)
          + (if hn > 0 then 1 + (if hn < MaxPerSection then hn else MaxPerSection) else 0)
  {
  }

  /** Every item line of a section starts with a bullet. */
  lemma {:induction false} ItemLinesAreBullets(shown: seq<TrendItem>)
    ensures forall l | l in MapLines(shown, GitHubLine) :: |l| > 0 && l[0] == '•'
    ensures forall l | l in MapLines(shown, HnLine) :: |l| > 0 && l[0] == '•'
  {
    if shown != [] {
      ItemLinesAreBullets(shown[..|shown| - 1]);
      ItemLinesShowTitle(shown[|shown| - 1]);
    }
  }

  /** The two headings start with an asterisk and differ from each other and from the blank line. */
  lemma HeadingFacts()
    ensures |GitHubHeading| > 0 && GitHubHeading[0] == '*'
    ensures |HnHeading| > 0 && HnHeading[0] == '*'
    ensures GitHubHeading != HnHeading && HnHeading != "" && GitHubHeading != ""
  {
    assert |GitHubHeading| == 18 && |HnHeading| == 25;
  }

  /** A section made of a heading, bullet lines and a tail holds its heading and no other one. */
  lemma SectionMembership(h: string, other: string, ls: seq<string>, tail: seq<string>)
    requires forall l | l in ls :: |l| > 0 && l[0] == '•'
    requires |other| > 0 && other[0] == '*' && h != other && other !in tail
    ensures h in [h] + ls + tail && other !in [h] + ls + tail
  {
    assert ([h] + ls + tail)[0] == h;
    assert other !in ls;
  }

  /** The GitHub section holds its heading exactly when it has items, and never the other heading. */
  lemma GitHubSectionHeadings(gh: seq<TrendItem>)
    ensures GitHubHeading in GitHubSection(gh) <==> gh != []
    ensures HnHeading !in GitHubSection(gh)
  {
    if gh != [] {
      ItemLinesAreBullets(SliceTo(gh, MaxPerSection));
      HeadingFacts();
      SectionMembership(GitHubHeading, HnHeading, MapLines(SliceTo(gh, MaxPerSection), GitHubLine), [""]);
    }
  }

  /** The Hacker News section holds its heading exactly when it has items, and never the other heading. */
  lemma HnSectionHeadings(hn: seq<TrendItem>)
    ensures HnHeading in HnSection(hn) <==> hn != []
    ensures GitHubHeading !in HnSection(hn)
  {
    if hn != [] {
      ItemLinesAreBullets(SliceTo(hn, MaxPerSection));
      HeadingFacts();
      SectionMembership(HnHeading, GitHubHeading, MapLines(SliceTo(hn, MaxPerSection), HnLine), []);
      assert HnSection(hn) == [HnHeading] + MapLines(SliceTo(hn, MaxPerSection), HnLine) + [];
    }
  }

  /** A section heading appears exactly when some item has that origin. */
  lemma HeadingsIffGroups(items: seq<TrendItem>)
    ensures GitHubHeading in MessageLines(items) <==> exists x | x in items :: x.source == "github"
    ensures HnHeading in MessageLines(items) <==> exists x | x in items :: x.source == "hackernews"
  {
    var gh := BySource(items, "github");
    var hn := BySource(items, "hackernews");
    GitHubSectionHeadings(gh);
    HnSectionHeadings(hn);
    BySourceMembers(items, "github");
    BySourceMembers(items, "hackernews");
    var h := Header(|items|);
    assert h[0] == ':' && GitHubHeading[0] == '*' && HnHeading[0] == '*';
    assert MessageLines(items) == [h] + GitHubSection(gh) + HnSection(hn);
    if gh != [] {
      assert gh[0] in gh;
    }
    if hn != [] {
      assert hn[0] in hn;
    }
  }

  /** Items of any other origin change only the count in the header. */
  lemma OtherSourcesOnlyCounted(items: seq<TrendItem>, x: TrendItem)
    requires x.source != "github" && x.source != "hackernews"
    ensures MessageLines(items + [x])[1..] == MessageLines(items)[1..]
    ensures MessageLines(items + [x])[0] == Header(|items| + 1)
  {
    assert (items + [x])[..|items + [x]| - 1] == items;
    assert BySource(items + [x], "github") == BySource(items, "github");
    assert BySource(items + [x], "hackernews") == BySource(items, "hackernews");
  }

  /** A text contained in some line is contained in the joined message. */
  lemma LineTextInMessage(lines: seq<string>, i: nat, text: string)
    requires i < |lines| && Contains(lines[i], text)
    ensures Contains(Join(lines, "\n"), text)
  {
    JoinContainsLine(lines, "\n", i);
    ContainsTrans(Join(lines, "\n"), lines[i], text);
  }

  /** The message names its title in the header. */
  lemma MessageShowsTitle(items: seq<TrendItem>)
    ensures Contains(Message(items), Title)
  {
    LineTextInMessage(MessageLines(items), 0, Title);
  }


  /** The i-th shown Hacker News item has its own line, after the header, the GitHub section and the heading. */
  lemma HnLineAt(items: seq<TrendItem>, i: nat)
    requires i < |SliceTo(BySource(items, "hackernews"), MaxPerSection)|
    ensures var front := [Header(|items|)] + GitHubSection(BySource(items, "github"));
      && |front| + 1 + i < |MessageLines(items)|
      && MessageLines(items)[|front| + 1 + i] == HnLine(SliceTo(BySource(items, "hackernews"), MaxPerSection)[i])
  {
    var hn := BySource(items, "hackernews");
    var shown := SliceTo(hn, MaxPerSection);
    var m := MapLines(shown, HnLine);
    var h := HnSection(hn);
    var front := [Header(|items|)] + GitHubSection(BySource(items, "github"));
    MapLinesAt(shown, HnLine, i);
    assert h == [HnHeading] + m;
    SecondAt([HnHeading], m, i);
    SecondAt(front, h, 1 + i);
    assert MessageLines(items) == front + h;
  }

  /** The i-th shown Hacker News item's title is in the message. */
  lemma HnTitleShown(items: seq<TrendItem>, i: nat)
    requires i < |SliceTo(BySource(items, "hackernews"), MaxPerSection)|
    ensures Contains(Message(items), SliceTo(BySource(items, "hackernews"), MaxPerSection)[i].title)
  {
    var shown := SliceTo(BySource(items, "hackernews"), MaxPerSection);
    var front := [Header(|items|)] + GitHubSection(BySource(items, "github"));
    HnLineAt(items, i);
    ItemLinesShowTitle(shown[i]);
    LineTextInMessage(MessageLines(items), |front| + 1 + i, shown[i].title);
  }

  /** The i-th shown GitHub item has its own line, after the header and the heading. */
  lemma GitHubLineAt(items: seq<TrendItem>, i: nat)
    requires i < |SliceTo(BySource(items, "github"), MaxPerSection)|
    ensures 2 + i < |MessageLines(items)|
    ensures MessageLines(items)[2 + i] == GitHubLine(SliceTo(BySource(items, "github"), MaxPerSection)[i])
  {
    var gh := BySource(items, "github");
    var shown := SliceTo(gh, MaxPerSection);
    var m := MapLines(shown, GitHubLine);
    MapLinesAt(shown, GitHubLine, i);
    assert GitHubSection(gh) == [GitHubHeading] + m + [""];
    FirstSectionLine(Header(|items|), GitHubHeading, m, [""], HnSection(BySource(items, "hackernews")), i);
  }


  /** The i-th shown GitHub item's title is in the message. */
  lemma GitHubTitleShown(items: seq<TrendItem>, i: nat)
    requires i < |SliceTo(BySource(items, "github"), MaxPerSection)|
    ensures Contains(Message(items), SliceTo(BySource(items, "github"), MaxPerSection)[i].title)
  {
    var shown := SliceTo(BySource(items, "github"), MaxPerSection);
    GitHubLineAt(items, i);
    ItemLinesShowTitle(shown[i]);
    LineTextInMessage(MessageLines(items), 2 + i, shown[i].title);
  }

  /** Every shown GitHub item's title is in the message. */
  lemma MessageShowsGitHubTitles(items: seq<TrendItem>)
    ensures forall x | x in SliceTo(BySource(items, "github"), MaxPerSection) :: Contains(Message(items), x.title)
  {
    var shown := SliceTo(BySource(items, "github"), MaxPerSection);
    forall x | x in shown ensures Contains(Message(items), x.title) {
      var i :| 0 <= i < |shown| && shown[i] == x;
      GitHubTitleShown(items, i);
    }
  }

  /** Every shown Hacker News item's title is in the message. */
  lemma MessageShowsHnTitles(items: seq<TrendItem>)
    ensures forall x | x in SliceTo(BySource(items, "hackernews"), MaxPerSection) :: Contains(Message(items), x.title)
  {
    var shown := SliceTo(BySource(items, "hackernews"), MaxPerSection);
    forall x | x in shown ensures Contains(Message(items), x.title) {
      var i :| 0 <= i < |shown| && shown[i] == x;
      HnTitleShown(items, i);
    }
  }
}
