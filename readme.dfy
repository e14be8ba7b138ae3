/**
 * README and license enrichment of trending repositories
 * (src/trend_sieve/enrichers/readme.py). The HTTP layer is replaced by two
 * oracles from a URL to the response the server would give; the concurrent
 * fan-out is evaluated in order.
 */
module ReadmeEnricher {
  import opened Basics
  import opened PyText

  /** The allow-list of license ids counted as open source, all lower case. */
  const OpenSourceLicenses: set<string> := {
    "mit", "apache-2.0", "gpl-2.0", "gpl-3.0", "lgpl-2.1", "lgpl-3.0",
    "bsd-2-clause", "bsd-3-clause", "mpl-2.0", "unlicense", "isc",
    "agpl-3.0", "cc0-1.0", "wtfpl", "zlib"
  }

  /** README file names tried in this order. */
  const ReadmeFilenames: seq<string> := ["README.md", "readme.md", "Readme.md", "README.rst"]

  /** What a GET request gives: a transport error (caught and skipped) or a status and a body. */
  datatype HttpResult = RequestError | Response(status: int, body: string)

  /** The `license` object of the license endpoint's JSON body; `spdxId` is None when missing or null. */
  datatype LicenseInfo = LicenseInfo(spdxId: Option<string>)

  /** What the license endpoint answers; `license` is None when the body has no `license` key. */
  datatype LicenseResult = LicenseRequestError | LicenseResponse(status: int, license: Option<LicenseInfo>)

  /** The enrichment of one repository. */
  datatype MetadataResult = MetadataResult(readme: Option<string>, license: Option<string>, isOpenSource: bool)

  // ---------------------------------------------------------------------------
  // license classification

  /**
   * The allow-list test: a missing or empty id is never open source, any other
   * id is open source exactly when its lower-cased form is allow-listed.
   */
  function IsOpenSource(licenseId: Option<string>): (r: bool)
    ensures r <==> licenseId.Some? && Lower(licenseId.value) in OpenSourceLicenses
  {
    if licenseId.None? || licenseId.value == "" then false
    else Lower(licenseId.value) in OpenSourceLicenses
  }

  /** The test ignores letter case: ids that lower-case alike classify alike. */
  lemma IsOpenSourceIgnoresCase(a: string, b: string)
    requires Lower(a) == Lower(b)
    ensures IsOpenSource(Some(a)) == IsOpenSource(Some(b))
  {
  }

  /** "MIT" in any case is open source; "proprietary", an empty id and a missing id are not. */
  lemma IsOpenSourceExamples()
    ensures IsOpenSource(Some("MIT")) && IsOpenSource(Some("mit")) && IsOpenSource(Some("Apache-2.0"))
    ensures !IsOpenSource(Some("proprietary")) && !IsOpenSource(Some("")) && !IsOpenSource(None)
  {
    assert Lower("MIT") == "mit";
    assert Lower("mit") == "mit";
    assert Lower("Apache-2.0") == "apache-2.0";
    assert Lower("proprietary") == "proprietary";
    assert Lower("") == "";
  }

  function LicenseUrl(repoName: string): string {
    "https://api.github.com/repos/" + repoName + "/license"
  }

  /**
   * The license id of a repository: the lower-cased SPDX id of a 200 answer,
   * or None on a transport error, another status, or a missing or empty id.
   */
  function FetchLicense(repoName: string, get: string -> LicenseResult): (r: Option<string>)
    ensures var resp := get(LicenseUrl(repoName));
      r.Some? <==> resp.LicenseResponse? && resp.status == 200 && resp.license.Some?
                   && resp.license.value.spdxId.Some? && resp.license.value.spdxId.value != ""
    ensures r.Some? ==> r.value == Lower(get(LicenseUrl(repoName)).license.value.spdxId.value)
    ensures r.Some? ==> r.value != [] && Lower(r.value) == r.value
  {
    match get(LicenseUrl(repoName))
    case LicenseRequestError => None
    case LicenseResponse(status, license) =>
      if status != 200 then None
      else
        var spdxId := if license.Some? then license.value.spdxId.GetOr("") else "";
        LowerIdempotent(spdxId);
        if spdxId != "" then Some(Lower(spdxId)) else None
  }

  // ---------------------------------------------------------------------------
  // README search

  function ReadmeUrl(repoName: string, filename: string): string {
    "https://raw.githubusercontent.com/" + repoName + "/HEAD/" + filename
  }

  /** The listed README names that end in the same character have the same length. */
  lemma ListedNamesByLastChar(f: string, g: string)
    requires f in ReadmeFilenames && g in ReadmeFilenames
    requires f[|f| - 1] == g[|g| - 1]
    ensures |f| == |g|
  {
    assert f == "README.md" || f == "readme.md" || f == "Readme.md" || f == "README.rst";
    assert g == "README.md" || g == "readme.md" || g == "Readme.md" || g == "README.rst";
  }

  /**
   * Every README request is its own: two requests share a URL only for the
   * same repository and the same file name, and likewise for license requests.
   * Among the listed README names the lengths need not be assumed equal.
   */
  lemma RequestUrlsDistinct(a: string, b: string, f: string, g: string)
    ensures ReadmeUrl(a, f) == ReadmeUrl(b, g) && |f| == |g| ==> a == b && f == g
    ensures f in ReadmeFilenames && g in ReadmeFilenames && ReadmeUrl(a, f) == ReadmeUrl(b, g) ==> a == b && f == g
    ensures LicenseUrl(a) == LicenseUrl(b) ==> a == b
  {
    var raw, api := "https://raw.githubusercontent.com/", "https://api.github.com/repos/";
    if f in ReadmeFilenames && g in ReadmeFilenames && ReadmeUrl(a, f) == ReadmeUrl(b, g) {
      var u := ReadmeUrl(a, f);
      assert u[|u| - 1] == f[|f| - 1] by {
        assert u == ("https://raw.githubusercontent.com/" + a + "/HEAD/") + f;
      }
      assert u[|u| - 1] == g[|g| - 1] by {
        assert u == ("https://raw.githubusercontent.com/" + b + "/HEAD/") + g;
      }
      ListedNamesByLastChar(f, g);
    }
    if ReadmeUrl(a, f) == ReadmeUrl(b, g) && |f| == |g| {
      var u := ReadmeUrl(a, f);
      assert |a| == |b|;
      assert a == u[|raw|..|raw| + |a|] == b;
      assert f == u[|u| - |f|..] == g;
    }
    if LicenseUrl(a) == LicenseUrl(b) {
      var u := LicenseUrl(a);
      assert |a| == |b|;
      assert a == u[|api|..|api| + |a|] == b;
    }
  }

  /** Whether the request for `filename` is answered with status 200. */
  predicate Found(repoName: string, get: string -> HttpResult, filename: string) {
    var resp := get(ReadmeUrl(repoName, filename));
    resp.Response? && resp.status == 200
  }

  /** The body of the first file name among `files` answered with 200, or None. */
  function FirstReadme(repoName: string, get: string -> HttpResult, files: seq<string>): Option<string> {
    if files == [] then None
    else if Found(repoName, get, files[0]) then Some(get(ReadmeUrl(repoName, files[0])).body)
    else FirstReadme(repoName, get, files[1..])
  }

  /**
   * The search finds a README exactly when some name is answered with 200,
   * and then returns the body of the first such name.
   */
  lemma {:induction false} FirstReadmeIsFirstHit(repoName: string, get: string -> HttpResult, files: seq<string>)
    ensures FirstReadme(repoName, get, files).None? <==>
            forall i | 0 <= i < |files| :: !Found(repoName, get, files[i])
    ensures FirstReadme(repoName, get, files).Some? ==>
            exists i | 0 <= i < |files| ::
              && Found(repoName, get, files[i])
              && FirstReadme(repoName, get, files).value == get(ReadmeUrl(repoName, files[i])).body
              && forall j | 0 <= j < i :: !Found(repoName, get, files[j])
  {
    if files != [] && !Found(repoName, get, files[0]) {
      FirstReadmeIsFirstHit(repoName, get, files[1..]);
      var r := FirstReadme(repoName, get, files);
      if r.Some? {
        var i :| 0 <= i < |files[1..]| && Found(repoName, get, files[1..][i])
          && r.value == get(ReadmeUrl(repoName, files[1..][i])).body
          && forall j | 0 <= j < i :: !Found(repoName, get, files[1..][j]);
        assert Found(repoName, get, files[i + 1]);
      }
    } else if files != [] {
      assert Found(repoName, get, files[0]);
    }
  }

  /** The README loop: tries each file name in order and stops at the first 200 answer. */
  method FetchReadme(repoName: string, get: string -> HttpResult) returns (readme: Option<string>)
    ensures readme == FirstReadme(repoName, get, ReadmeFilenames)
  {
    for i := 0 to |ReadmeFilenames|
      invariant FirstReadme(repoName, get, ReadmeFilenames) == FirstReadme(repoName, get, ReadmeFilenames[i..])
    {
      var resp := get(ReadmeUrl(repoName, ReadmeFilenames[i]));
      if resp.RequestError? {
        continue;
      }
      if resp.status == 200 {
        return Some(resp.body);
      }
    }
    return None;
  }

  // ---------------------------------------------------------------------------
  // metadata

  /** The enrichment of one repository: its README, its license id, and the allow-list verdict on that id. */
  function FetchMetadata(repoName: string, readmeGet: string -> HttpResult, licenseGet: string -> LicenseResult): (m: MetadataResult)
    ensures m.readme == FirstReadme(repoName, readmeGet, ReadmeFilenames)
    ensures m.license == FetchLicense(repoName, licenseGet)
    ensures m.isOpenSource <==> m.license.Some? && m.license.value in OpenSourceLicenses
  {
    var license := FetchLicense(repoName, licenseGet);
    MetadataResult(FirstReadme(repoName, readmeGet, ReadmeFilenames), license, IsOpenSource(license))
  }

  /** Whether a repository is open source does not depend on whether its README was found. */
  lemma OpenSourceIndependentOfReadme(repoName: string, get1: string -> HttpResult, get2: string -> HttpResult,
                                      licenseGet: string -> LicenseResult)
    ensures FetchMetadata(repoName, get1, licenseGet).isOpenSource == FetchMetadata(repoName, get2, licenseGet).isOpenSource
  {
  }

  /**
   * The metadata of many repositories, keyed by name: one entry per requested
   * name (a repeated name gives one entry), each holding that name's own metadata.
   */
  function FetchMetadataMany(names: seq<string>, readmeGet: string -> HttpResult,
                              licenseGet: string -> LicenseResult): (m: map<string, MetadataResult>)
    ensures m.Keys == set n | n in names
    ensures forall n | n in m :: m[n] == FetchMetadata(n, readmeGet, licenseGet)
  {
    if names == [] then map[]
    else
      var last := names[|names| - 1];
      var rest := FetchMetadataMany(names[..|names| - 1], readmeGet, licenseGet);
      assert names == names[..|names| - 1] + [last];
      rest[last := FetchMetadata(last, readmeGet, licenseGet)]
  }
}
