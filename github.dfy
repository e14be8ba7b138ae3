/**
 * The trending-page scraper (src/trend_sieve/sources/github.py): the page URL,
 * the number parsing, the per-article record and the loop that keeps the
 * parsed records. HTML selection is replaced by an `Article` record holding
 * the text of each element the scraper looks for (None when it is missing);
 * where the scraper asks for `text(strip=True)`, the record keeps the element's
 * separate text nodes, because that call strips each node on its own.
 */
module GitHubTrending {
  import opened Basics
  import opened PyText
  import opened Models
  import opened Seqs

  const BaseUrl: string := "https://github.com/trending"
  const GitHubOrigin: string := "https://github.com"

  /** `int()` refused a cleaned-up count; `text` is what it was given. */
  datatype ValueError = ValueError(text: string)

  /** Why a whole fetch raised. */
  datatype FetchError = TransportFailure | HttpStatusError(status: int) | NumberFormat(cause: ValueError)

  /** What the scraper reads from one `article.Box-row`. */
  datatype Article = Article(
    nameHref: Option<string>,           // None: no `h2 a`; Some(""): the link has no href
    descriptionNodes: Option<seq<string>>,  // text nodes under the first `p`
    languageNodes: Option<seq<string>>,     // text nodes under the programming-language element
    starText: Option<string>,           // text of the first stargazers link
    forkText: Option<string>,           // text of the first forks link
    todayText: Option<string>)          // text of the "stars today" span

  /** The answer to the page request: a transport failure, or a final status with the page's articles. */
  datatype PageResponse = PageTransportError | Page(status: int, articles: seq<Article>)

  // ---------------------------------------------------------------------------
  // URL

  /** The page URL: the base, then "/" and the language only when one is given, then the period. */
  method BuildUrl(since: string, language: Option<string>) returns (url: string)
    ensures |url| >= |BaseUrl| && url[..|BaseUrl|] == BaseUrl
    ensures var tail := "?since=" + since; |url| >= |tail| && url[|url| - |tail|..] == tail
    ensures language.None? || language.value == "" ==> url == BaseUrl + "?since=" + since
    ensures language.Some? && language.value != "" ==> url == BaseUrl + "/" + language.value + "?since=" + since
  {
    url := BaseUrl;
    if language.Some? && language.value != "" {
      url := url + "/" + language.value;
    }
    url := url + "?since=" + since;
  }

  // ---------------------------------------------------------------------------
  // numbers

  /** `_parse_number`: strip, drop every comma; nothing left is 0, anything else goes to `int()`. */
  function ParseNumber(text: string): (r: Result<int, ValueError>)
    ensures Strip(text) == [] ==> r == Ok(0)
    ensures r.Ok? && r.value != 0 ==> exists k | 0 <= k < |text| :: IsDigit(text[k])
  {
    var cleaned := RemoveChar(Strip(text), ',');
    if cleaned == [] then Ok(0)
    else match PyInt(cleaned)
      case Some(n) => CleanedDigitsOccur(text); Ok(n)
      case None => Err(ValueError(cleaned))
  }

  lemma CleanedDigitsOccur(text: string)
    requires exists k | 0 <= k < |RemoveChar(Strip(text), ',')| :: IsDigit(RemoveChar(Strip(text), ',')[k])
    ensures exists k | 0 <= k < |text| :: IsDigit(text[k])
  {
    var cleaned := RemoveChar(Strip(text), ',');
    var k :| 0 <= k < |cleaned| && IsDigit(cleaned[k]);
    RemoveCharKeeps(Strip(text), ',', k);
    var j :| 0 <= j < |Strip(text)| && Strip(text)[j] == cleaned[k];
    StripInfix(text, j);
  }

  lemma {:induction false} RemoveCharKeeps(s: string, c: char, k: nat)
    requires k < |RemoveChar(s, c)|
    ensures exists j | 0 <= j < |s| :: s[j] == RemoveChar(s, c)[k]
  {
    if s[0] == c {
      RemoveCharKeeps(s[1..], c, k);
      var j :| 0 <= j < |s[1..]| && s[1..][j] == RemoveChar(s[1..], c)[k];
      assert s[j + 1] == s[1..][j];
    } else if k > 0 {
      RemoveCharKeeps(s[1..], c, k - 1);
      var j :| 0 <= j < |s[1..]| && s[1..][j] == RemoveChar(s[1..], c)[k - 1];
      assert s[j + 1] == s[1..][j];
    } else {
      assert s[0] == RemoveChar(s, c)[0];
    }
  }

  lemma StripInfix(text: string, j: nat)
    requires j < |Strip(text)|
    ensures exists i | 0 <= i < |text| :: text[i] == Strip(text)[j]
  {
    assert Strip(text)[j] == text[LeadingCount(text, None) + j];
  }

  /** `f"{n:,}"`: the decimal digits of `n` with a comma between each group of three. */
  function Grouped(n: nat): (s: string)
    ensures s != [] && IsDigit(s[0]) && IsDigit(s[|s| - 1]) && NoSpace(s)
  {
    if n < 1000 then Decimal(n) else Grouped(n / 1000) + "," + Pad3(n % 1000)
  }

  /** The three digits of a number below 1000, with leading zeros. */
  function Pad3(m: nat): (s: string)
    requires m < 1000
    ensures |s| == 3 && AllDigits(s)
  {
    [DigitChar(m / 100), DigitChar(m / 10 % 10), DigitChar(m % 10)]
  }

  lemma DecimalSplit(n: nat)
    requires n >= 1000
    ensures Decimal(n) == Decimal(n / 1000) + Pad3(n % 1000)
  {
    var q, m := n / 1000, n % 1000;
    assert n / 10 == q * 100 + m / 10;
    assert n / 10 / 10 == q * 10 + m / 100;
    assert n / 10 / 10 / 10 == q;
    assert n % 10 == m % 10;
    assert n / 10 % 10 == m / 10 % 10;
    assert n / 10 / 10 % 10 == m / 100;
    calc {
      Decimal(n);
      Decimal(n / 10) + [DigitChar(n % 10)];
      Decimal(n / 10 / 10) + [DigitChar(n / 10 % 10)] + [DigitChar(n % 10)];
      Decimal(q) + [DigitChar(n / 10 / 10 % 10)] + [DigitChar(n / 10 % 10)] + [DigitChar(n % 10)];
      Decimal(q) + Pad3(m);
    }
  }

  lemma {:induction false} GroupedDropCommas(n: nat)
    ensures RemoveChar(Grouped(n), ',') == Decimal(n)
  {
    if n >= 1000 {
      GroupedDropCommas(n / 1000);
      RemoveCharAppend(Grouped(n / 1000) + ",", Pad3(n % 1000), ',');
      RemoveCharAppend(Grouped(n / 1000), ",", ',');
      DecimalSplit(n);
    }
  }

  /** A count written with thousands separators, as the page shows it, parses back to itself. */
  lemma ParseNumberGrouped(n: nat)
    ensures ParseNumber(Grouped(n)) == Ok(n)
  {
    var g := Grouped(n);
    StripUnpadded(g);
    GroupedDropCommas(n);
    DecimalRoundTrip(n);
  }

  /**
   * A leading whitespace character, the information separators 0x1C to 0x1F
   * included, never changes what `_parse_number` returns.
   */
  lemma ParseNumberIgnoresLeadingSpace(c: char, text: string)
    requires IsSpace(c)
    ensures ParseNumber([c] + text) == ParseNumber(text)
  {
    StripLeadingSpace(c, text);
  }

  /** "1,234" parses to 1234. */
  lemma ParseNumberExample()
    ensures ParseNumber("1,234") == Ok(1234)
  {
    assert Grouped(1234) == Grouped(1) + "," + Pad3(234);
    assert Grouped(1234) == "1,234";
    ParseNumberGrouped(1234);
  }

  /**
   * A count holding any character other than digits, whitespace, commas and
   * signs raises: removing the commas leaves that character for `int()` to refuse.
   */
  lemma ParseNumberRejectsStray(text: string, c: char)
    requires c in text && !IsDigit(c) && !IsSpace(c) && !IsSign(c) && c != ','
    ensures ParseNumber(text).Err?
  {
    var k :| 0 <= k < |text| && text[k] == c;
    StripKeeps(text, k);
    RemoveCharKeepsOthers(Strip(text), ',', c);
    PyIntRejects(RemoveChar(Strip(text), ','), c);
  }

  /** Text that is not a number, such as an abbreviated count, raises. */
  lemma ParseNumberRejects()
    ensures ParseNumber("1.2k").Err?
  {
    assert "1.2k"[3] == 'k';
    ParseNumberRejectsStray("1.2k", 'k');
  }

  /** `_parse_stars_today`: the number in the first whitespace-separated field, 0 when there is none. */
  function ParseStarsToday(text: string): (r: Result<int, ValueError>)
    ensures (forall k | 0 <= k < |text| :: IsSpace(text[k])) ==> r == Ok(0)
    ensures FirstWord(text).Some? ==> r == ParseNumber(FirstWord(text).value)
  {
    match FirstWord(text)
    case None => Ok(0)
    case Some(word) => ParseNumber(word)
  }

  /**
   * A span reading "N stars today", N written with separators, parses to N,
   * whatever whitespace pads the span's text and whatever words follow N.
   */
  lemma ParseStarsTodayOfPhrase(pad: string, n: nat, rest: string)
    requires forall k | 0 <= k < |pad| :: IsSpace(pad[k])
    requires rest == [] || IsSpace(rest[0])
    ensures ParseStarsToday(pad + Grouped(n) + rest) == Ok(n)
  {
    FirstWordOfPrefix(pad, Grouped(n), rest);
    ParseNumberGrouped(n);
  }

  lemma ParseStarsTodayExample()
    ensures ParseStarsToday("\n  12 stars today\n") == Ok(12)
  {
    assert Grouped(12) == "12";
    assert "\n  12 stars today\n" == "\n  " + Grouped(12) + " stars today\n";
    ParseStarsTodayOfPhrase("\n  ", 12, " stars today\n");
  }

  // ---------------------------------------------------------------------------
  // one article

  /** A count element: absent gives 0, present goes through `parse`. */
  function CountOf(text: Option<string>, parse: string -> Result<int, ValueError>): (r: Result<int, ValueError>)
    ensures text.None? ==> r == Ok(0)
    ensures text.Some? ==> r == parse(text.value)
  {
    if text.None? then Ok(0) else parse(text.value)
  }

  /**
   * selectolax's `text(strip=True)`: every text node under the element is
   * stripped on its own, and the pieces are joined with no separator, so
   * whitespace between two nodes disappears.
   */
  function StrippedText(nodes: seq<string>): (r: string)
    ensures Trimmed(r)
    ensures r == [] <==> forall i | 0 <= i < |nodes| :: Strip(nodes[i]) == []
  {
    if nodes == [] then []
    else
      var init := nodes[..|nodes| - 1];
      var a, b := StrippedText(init), Strip(nodes[|nodes| - 1]);
      assert a + b == [] <==> forall i | 0 <= i < |nodes| :: Strip(nodes[i]) == [] by {
        assert forall i | 0 <= i < |init| :: init[i] == nodes[i];
      }
      TrimmedConcat(a, b);
      a + b
  }

  /** Text with no whitespace at either end. */
  predicate Trimmed(s: string) {
    s != [] ==> !IsSpace(s[0]) && !IsSpace(s[|s| - 1])
  }

  lemma TrimmedConcat(a: string, b: string)
    requires Trimmed(a) && Trimmed(b)
    ensures Trimmed(a + b)
  {
    if a != [] && b != [] {
      assert (a + b)[0] == a[0] && (a + b)[|a + b| - 1] == b[|b| - 1];
    } else if a == [] {
      assert a + b == b;
    } else {
      assert a + b == a;
    }
  }

  /** One node's text is that node stripped. */
  lemma StrippedTextOne(node: string)
    ensures StrippedText([node]) == Strip(node)
  {
    assert [node][..0] == [];
  }

  /** The text of two runs of nodes is the text of the first followed by that of the second. */
  lemma {:induction false} StrippedTextAppend(a: seq<string>, b: seq<string>)
    ensures StrippedText(a + b) == StrippedText(a) + StrippedText(b)
  {
    if b == [] {
      assert a + b == a;
    } else {
      var b' := b[..|b| - 1];
      AppendDropLast(a, b);
      StrippedTextAppend(a, b');
      calc {
        StrippedText(a + b);
        StrippedText(a + b') + Strip(b[|b| - 1]);
        StrippedText(a) + StrippedText(b') + Strip(b[|b| - 1]);
        { ConcatAssoc(StrippedText(a), StrippedText(b'), Strip(b[|b| - 1])); }
        StrippedText(a) + StrippedText(b);
      }
    }
  }

  /** The text of an element the scraper may not find. */
  function TextOf(nodes: Option<seq<string>>): (r: Option<string>)
    ensures r.Some? <==> nodes.Some?
    ensures r.Some? ==> r.value == StrippedText(nodes.value)
  {
    if nodes.None? then None else Some(StrippedText(nodes.value))
  }

  /**
   * `_parse_repository`: no record without a name link; otherwise the name is
   * the href without its surrounding slashes, the URL is the site origin
   * followed by the href, and each missing count is 0. A count text that does
   * not parse makes the whole call raise.
   */
  function ParseRepository(a: Article): (r: Result<Option<Repository>, ValueError>)
    ensures a.nameHref.None? ==> r == Ok(None)
    ensures r.Err? <==> (a.nameHref.Some? &&
      (CountOf(a.starText, ParseNumber).Err? || CountOf(a.forkText, ParseNumber).Err?
       || CountOf(a.todayText, ParseStarsToday).Err?))
    ensures r.Ok? && a.nameHref.Some? ==> r.value.Some?
    ensures r.Ok? && a.nameHref.Some? ==>
      var repo := r.value.value;
      && repo.name == StripChars(a.nameHref.value, Some("/"))
      && repo.url == GitHubOrigin + a.nameHref.value
      && repo.description == TextOf(a.descriptionNodes)
      && repo.language == TextOf(a.languageNodes)
      && Ok(repo.stars) == CountOf(a.starText, ParseNumber)
      && Ok(repo.forks) == CountOf(a.forkText, ParseNumber)
      && Ok(repo.starsToday) == CountOf(a.todayText, ParseStarsToday)
  {
    match a.nameHref
    case None => Ok(None)
    case Some(href) =>
      var stars := CountOf(a.starText, ParseNumber);
      var forks := CountOf(a.forkText, ParseNumber);
      var today := CountOf(a.todayText, ParseStarsToday);
      if stars.Err? then Err(stars.error)
      else if forks.Err? then Err(forks.error)
      else if today.Err? then Err(today.error)
      else Ok(Some(Repository(
        name := StripChars(href, Some("/")),
        url := GitHubOrigin + href,
        description := TextOf(a.descriptionNodes),
        language := TextOf(a.languageNodes),
        stars := stars.value,
        forks := forks.value,
        starsToday := today.value)))
  }

  /** The repository name never begins or ends with a slash, whatever the href. */
  lemma NameHasNoEdgeSlashes(a: Article)
    requires ParseRepository(a).Ok? && ParseRepository(a).value.Some?
    ensures var name := ParseRepository(a).value.value.name;
      name != [] ==> name[0] != '/' && name[|name| - 1] != '/'
  {
  }

  // ---------------------------------------------------------------------------
  // the page

  /** Article `i` is the first of the page whose parse raises. */
  predicate FirstFailure(articles: seq<Article>, i: int)
    requires 0 <= i < |articles|
  {
    ParseRepository(articles[i]).Err? && forall j | 0 <= j < i :: ParseRepository(articles[j]).Ok?
  }

  /**
   * The records of a page, in page order, skipping articles without a name
   * link. The parse raises exactly when some article's does, and then with the
   * error of the first such article.
   */
  function ParseArticles(articles: seq<Article>): (r: Result<seq<Repository>, ValueError>)
    ensures r.Ok? ==> |r.value| <= |articles|
  {
    Collect(ParseRepository, articles)
  }

  /** An article that raises makes the whole page raise. */
  lemma ParseArticlesRaisesAt(articles: seq<Article>, i: nat)
    requires i < |articles| && ParseRepository(articles[i]).Err?
    ensures ParseArticles(articles).Err?
  {
    CollectRaisesAt(ParseRepository, articles, i);
  }

  /** When the parse of a page raises, it is with the error of its first failing article. */
  lemma ParseArticlesFirstError(articles: seq<Article>)
    requires ParseArticles(articles).Err?
    ensures exists i | 0 <= i < |articles| :: FirstFailure(articles, i) && ParseRepository(articles[i]).error == ParseArticles(articles).error
  {
    CollectFirstError(ParseRepository, articles);
  }

  /** The parse of a page raises exactly when the parse of one of its articles does. */
  lemma ParseArticlesFails(articles: seq<Article>)
    ensures ParseArticles(articles).Err? <==> exists i | 0 <= i < |articles| :: ParseRepository(articles[i]).Err?
  {
    if ParseArticles(articles).Err? {
      ParseArticlesFirstError(articles);
    }
    if i :| 0 <= i < |articles| && ParseRepository(articles[i]).Err? {
      ParseArticlesRaisesAt(articles, i);
    }
  }

  /** A page of one article gives its record, nothing when it has no name link, or its error. */
  lemma ParseArticlesOne(a: Article)
    ensures ParseArticles([a]) ==
      match ParseRepository(a)
      case Err(e) => Err(e)
      case Ok(None) => Ok([])
      case Ok(Some(repo)) => Ok([repo])
  {
    assert [a][..0] == [];
    assert ParseArticles([]) == Ok([]);
    match ParseRepository(a)
    case Err(e) =>
      assert ParseArticles([a]) == Err(e);
    case Ok(None) =>
      assert ParseArticles([a]) == Ok([]);
    case Ok(Some(repo)) =>
      assert [] + [repo] == [repo];
      assert ParseArticles([a]) == Ok([repo]);
  }

  /**
   * The page is parsed article by article: the records of two runs of articles
   * are those of the first followed by those of the second, and the first run's
   * error wins over the second's.
   */
  lemma {:induction false} ParseArticlesAppend(a: seq<Article>, b: seq<Article>)
    ensures ParseArticles(a + b) ==
      if ParseArticles(a).Err? then ParseArticles(a)
      else if ParseArticles(b).Err? then Err(ParseArticles(b).error)
      else Ok(ParseArticles(a).value + ParseArticles(b).value)
  {
    if b == [] {
      assert a + b == a;
      assert ParseArticles(a).Ok? ==> ParseArticles(a).value + [] == ParseArticles(a).value;
    } else {
      var b' := b[..|b| - 1];
      AppendDropLast(a, b);
      ParseArticlesAppend(a, b');
      var ra, rb' := ParseArticles(a), ParseArticles(b');
      if ra.Ok? && rb'.Ok? {
        var last := ParseRepository(b[|b| - 1]);
        if last.Ok? && last.value.Some? {
          ConcatAssoc(ra.value, rb'.value, [last.value.value]);
        }
      }
    }
  }

  /** No de-duplication: a page listing the same article twice yields its record twice. */
  lemma KeepsDuplicates(a: Article)
    requires a.nameHref.Some? && ParseRepository(a).Ok?
    ensures ParseArticles([a, a]) == Ok([ParseRepository(a).value.value, ParseRepository(a).value.value])
  {
    assert ParseRepository(a).value.Some?;
    var r := ParseRepository(a).value.value;
    assert [a][..0] == [];
    assert ParseArticles([]) == Ok([]);
    assert [] + [r] == [r];
    assert ParseArticles([a]) == Ok([r]);
    assert [a, a][..1] == [a];
    assert ParseArticles([a, a]) == Ok([r] + [r]);
    assert [r] + [r] == [r, r];
  }

  /** An article without a name link contributes nothing and leaves the others in place. */
  lemma {:induction false} SkipsNameless(articles: seq<Article>, a: Article)
    requires a.nameHref.None?
    ensures ParseArticles(articles + [a]) == ParseArticles(articles)
  {
    assert (articles + [a])[..|articles|] == articles;
  }

  /**
   * `fetch`: a transport failure or a non-success status raises; otherwise the
   * loop keeps every parsed record in page order, and a count that does not
   * parse raises.
   */
  method Fetch(page: PageResponse) returns (r: Result<seq<Repository>, FetchError>)
    ensures page.PageTransportError? ==> r == Err(TransportFailure)
    ensures page.Page? && !(200 <= page.status < 300) ==> r == Err(HttpStatusError(page.status))
    ensures page.Page? && 200 <= page.status < 300 ==>
      match ParseArticles(page.articles)
      case Ok(repos) => r == Ok(repos)
      case Err(e) => r == Err(NumberFormat(e))
  {
    if page.PageTransportError? {
      return Err(TransportFailure);
    }
    if !(200 <= page.status < 300) {
      return Err(HttpStatusError(page.status));
    }
    var articles := page.articles;
    var repositories: seq<Repository> := [];
    for i := 0 to |articles|
      invariant ParseArticles(articles[..i]) == Ok(repositories)
    {
      var parsed := ParseRepository(articles[i]);
      ParseArticlesStep(articles, i);
      if parsed.Err? {
        ParseErrorPersists(articles, i + 1);
        return Err(NumberFormat(parsed.error));
      }
      if parsed.value.Some? {
        repositories := repositories + [parsed.value.value];
      }
    }
    assert articles[..|articles|] == articles;
    return Ok(repositories);
  }

  /** One more article: its error ends the parse, a nameless one changes nothing, any other is appended. */
  lemma ParseArticlesStep(articles: seq<Article>, i: nat)
    requires i < |articles| && ParseArticles(articles[..i]).Ok?
    ensures ParseArticles(articles[..i + 1]) ==
      match ParseRepository(articles[i])
      case Err(e) => Err(e)
      case Ok(None) => ParseArticles(articles[..i])
      case Ok(Some(repo)) => Ok(ParseArticles(articles[..i]).value + [repo])
  {
    assert articles[..i + 1][..i] == articles[..i];
  }

  /** Once an article raises, parsing the rest of the page cannot undo it. */
  lemma {:induction false} ParseErrorPersists(articles: seq<Article>, i: nat)
    requires 0 < i <= |articles|
    requires ParseArticles(articles[..i]).Err?
    ensures ParseArticles(articles) == ParseArticles(articles[..i])
    decreases |articles| - i
  {
    if i < |articles| {
      assert articles[..i + 1][..i] == articles[..i];
      ParseErrorPersists(articles, i + 1);
    } else {
      assert articles[..i] == articles;
    }
  }
}
