/** The GitHub release checker (crates/teleport-daemon/src/updater.rs):
    channel names, which releases a channel accepts, release selection,
    download-asset classification, critical-update detection, the check
    interval and the on-disk cache's validity. The HTTP request, the JSON
    decoding and the cache file's reading and writing are left to the
    caller: the fetched release list and the stored cache are parameters.
    Versions are an abstract type `V` with its parser and its strict order
    given by the caller (the semver crate). */
module Updater {
  import opened Wrappers
  import opened Ints
  import opened Strings

  const NANOS_PER_SEC: nat := 1_000_000_000

  /** Durations are nanoseconds. */
  const DEFAULT_CHECK_INTERVAL: nat := 24 * 60 * 60 * NANOS_PER_SEC
  const MIN_CHECK_INTERVAL: nat := 60 * 60 * NANOS_PER_SEC

  /** `UpdateError`; the payloads of the foreign errors are left out. */
  datatype UpdateError =
    | HttpError
    | VersionParseError
    | JsonError
    | RateLimited
    | NoReleases
    | CacheError(message: string)
    | NetworkUnavailable

  // ---------------------------------------------------------------------
  // Channels

  datatype UpdateChannel = Stable | Beta | Nightly

  /** `Display`. */
  function ChannelName(c: UpdateChannel): string {
    match c
    case Stable => "stable"
    case Beta => "beta"
    case Nightly => "nightly"
  }

  /** The other spellings `from_str` reads as `Nightly`. */
  predicate IsNightlyAlias(s: string) {
    s == "nightly" || s == "alpha" || s == "dev"
  }

  /** `from_str`: case-insensitive; anything but the three names and the
      nightly aliases is an error naming the input. */
  function ParseChannel(s: string): (r: Result<UpdateChannel, string>)
    ensures r.Ok? ==> (LowerAscii(s) == ChannelName(r.value)
                       || (r.value == Nightly && IsNightlyAlias(LowerAscii(s))))
    ensures r.Err? ==> (r.error == "Unknown channel: " + s
                        && LowerAscii(s) != "stable" && LowerAscii(s) != "beta"
                        && !IsNightlyAlias(LowerAscii(s)))
  {
    var l := LowerAscii(s);
    if l == "stable" then Ok(Stable)
    else if l == "beta" then Ok(Beta)
    else if IsNightlyAlias(l) then Ok(Nightly)
    else Err("Unknown channel: " + s)
  }

  /** Every channel's name parses to that channel. */
  lemma ChannelRoundTrip(c: UpdateChannel)
    ensures ParseChannel(ChannelName(c)) == Ok(c)
  {
    match c
    case Stable => assert LowerAscii("stable") == "stable";
    case Beta => assert LowerAscii("beta") == "beta";
    case Nightly => assert LowerAscii("nightly") == "nightly";
  }

  /** Parsing looks at the lower-cased name only. */
  lemma ParseIgnoresCase(s: string)
    ensures ParseChannel(LowerAscii(s)).Ok? == ParseChannel(s).Ok?
    ensures ParseChannel(s).Ok? ==> ParseChannel(LowerAscii(s)).value == ParseChannel(s).value
  {
    LowerAsciiTwice(s);
  }

  /** The parser's tests, and the aliases. */
  lemma ChannelExamples()
    ensures ParseChannel("STABLE") == Ok(Stable)
    ensures ParseChannel("alpha") == Ok(Nightly)
    ensures ParseChannel("dev") == Ok(Nightly)
  {
    assert LowerAscii("STABLE") == "stable";
    assert LowerAscii("alpha") == "alpha";
    assert LowerAscii("dev") == "dev";
  }

  // ---------------------------------------------------------------------
  // Releases

  datatype Asset = Asset(name: string, browserDownloadUrl: string)

  datatype Release = Release(
    tagName: string,
    name: Option<string>,
    body: Option<string>,
    htmlUrl: string,
    prerelease: bool,
    draft: bool,
    publishedAt: string,
    assets: seq<Asset>)

  /** `release_matches_channel`. */
  predicate MatchesChannel(channel: UpdateChannel, release: Release) {
    match channel
    case Stable => !release.prerelease
    case Beta => !release.prerelease || Contains(release.tagName, "beta")
                 || Contains(release.tagName, "rc")
    case Nightly => true
  }

  /** The channels nest: what Stable accepts Beta accepts, and Nightly
      accepts everything; Beta turns down exactly the pre-releases whose
      tag names neither "beta" nor "rc". */
  lemma ChannelsNest(release: Release)
    ensures MatchesChannel(Stable, release) ==> MatchesChannel(Beta, release)
    ensures MatchesChannel(Nightly, release)
    ensures MatchesChannel(Stable, release) <==> !release.prerelease
    ensures !MatchesChannel(Beta, release) <==>
      (release.prerelease && !Contains(release.tagName, "beta") && !Contains(release.tagName, "rc"))
  {
  }

  // ---------------------------------------------------------------------
  // Download assets

  /** The five platform slots of `DownloadUrls`. */
  datatype Platform = MacosArm64 | MacosX64 | LinuxX64 | LinuxArm64 | WindowsX64

  datatype DownloadUrls = DownloadUrls(
    macosArm64: Option<string>,
    macosX64: Option<string>,
    linuxX64: Option<string>,
    linuxArm64: Option<string>,
    windowsX64: Option<string>)

  const NO_URLS := DownloadUrls(None, None, None, None, None)

  function UrlFor(urls: DownloadUrls, p: Platform): Option<string> {
    match p
    case MacosArm64 => urls.macosArm64
    case MacosX64 => urls.macosX64
    case LinuxX64 => urls.linuxX64
    case LinuxArm64 => urls.linuxArm64
    case WindowsX64 => urls.windowsX64
  }

  /** `urls` with slot `p` set to `url` and the other four kept. */
  function WithUrl(urls: DownloadUrls, p: Platform, url: string): (r: DownloadUrls)
    ensures UrlFor(r, p) == Some(url)
    ensures forall q :: q != p ==> UrlFor(r, q) == UrlFor(urls, q)
  {
    match p
    case MacosArm64 => urls.(macosArm64 := Some(url))
    case MacosX64 => urls.(macosX64 := Some(url))
    case LinuxX64 => urls.(linuxX64 := Some(url))
    case LinuxArm64 => urls.(linuxArm64 := Some(url))
    case WindowsX64 => urls.(windowsX64 := Some(url))
  }

  predicate IsMacName(n: string) { Contains(n, "macos") || Contains(n, "darwin") }
  predicate IsArmName(n: string) { Contains(n, "arm64") || Contains(n, "aarch64") }
  predicate IsX64Name(n: string) {
    Contains(n, "x64") || Contains(n, "x86_64") || Contains(n, "amd64")
  }
  predicate IsWindowsName(n: string) {
    Contains(n, "windows") || Contains(n, ".exe") || Contains(n, ".msi")
  }

  /** The slot an asset goes to, judged on its lower-cased name: the macOS
      and Linux markers are tried first, an arm marker before an x64 one,
      and a Windows asset needs an x64 marker too. */
  function Classify(name: string): (r: Option<Platform>)
    ensures r == Some(WindowsX64) ==> IsX64Name(LowerAscii(name))
    ensures r.Some? && r.value != WindowsX64 ==>
      (IsMacName(LowerAscii(name)) || Contains(LowerAscii(name), "linux"))
  {
    var n := LowerAscii(name);
    if IsMacName(n) then
      if IsArmName(n) then Some(MacosArm64)
      else if IsX64Name(n) then Some(MacosX64)
      else None
    else if Contains(n, "linux") then
      if IsArmName(n) then Some(LinuxArm64)
      else if IsX64Name(n) then Some(LinuxX64)
      else None
    else if IsWindowsName(n) && IsX64Name(n) then Some(WindowsX64)
    else None
  }

  /** Classification does not see the case of the name. */
  lemma ClassifyIgnoresCase(name: string)
    ensures Classify(LowerAscii(name)) == Classify(name)
  {
    LowerAsciiTwice(name);
  }

  /** The URL of the last asset classified to `p`: later assets overwrite
      earlier ones in the same slot. */
  function LastUrl(assets: seq<Asset>, p: Platform): (r: Option<string>)
    ensures r.Some? ==> exists i :: 0 <= i < |assets| && Classify(assets[i].name) == Some(p)
                                    && assets[i].browserDownloadUrl == r.value
    ensures r.None? ==> forall i :: 0 <= i < |assets| ==> Classify(assets[i].name) != Some(p)
  {
    if |assets| == 0 then None
    else
      var last := assets[|assets| - 1];
      if Classify(last.name) == Some(p) then Some(last.browserDownloadUrl)
      else LastUrl(assets[..|assets| - 1], p)
  }

  /** `extract_download_urls`' result: each slot holds its last asset's URL. */
  function DownloadUrlsOf(assets: seq<Asset>): DownloadUrls {
    DownloadUrls(LastUrl(assets, MacosArm64), LastUrl(assets, MacosX64),
                 LastUrl(assets, LinuxX64), LastUrl(assets, LinuxArm64),
                 LastUrl(assets, WindowsX64))
  }

  /** A slot of `DownloadUrlsOf` is its own `LastUrl`. */
  lemma UrlForOf(assets: seq<Asset>, p: Platform)
    ensures UrlFor(DownloadUrlsOf(assets), p) == LastUrl(assets, p)
  {
  }

  /** `extract_download_urls`: one pass over the assets, each classified one
      overwriting its slot. */
  method ExtractDownloadUrls(assets: seq<Asset>) returns (urls: DownloadUrls)
    ensures forall p :: UrlFor(urls, p) == LastUrl(assets, p)
    ensures urls == DownloadUrlsOf(assets)
  {
    urls := NO_URLS;
    for i := 0 to |assets|
      invariant forall p :: UrlFor(urls, p) == LastUrl(assets[..i], p)
    {
      var slot := Classify(assets[i].name);
      if slot.Some? {
        urls := WithUrl(urls, slot.value, assets[i].browserDownloadUrl);
      }
      assert assets[..i + 1][..i] == assets[..i];
    }
    assert assets[..|assets|] == assets;
    UrlsEqual(urls, DownloadUrlsOf(assets));
  }

  /** Two URL sets agreeing on every slot are equal. */
  lemma UrlsEqual(a: DownloadUrls, b: DownloadUrls)
    requires forall p :: UrlFor(a, p) == UrlFor(b, p)
    ensures a == b
  {
    assert UrlFor(a, MacosArm64) == UrlFor(b, MacosArm64);
    assert UrlFor(a, MacosX64) == UrlFor(b, MacosX64);
    assert UrlFor(a, LinuxX64) == UrlFor(b, LinuxX64);
    assert UrlFor(a, LinuxArm64) == UrlFor(b, LinuxArm64);
    assert UrlFor(a, WindowsX64) == UrlFor(b, WindowsX64);
  }

  /** An asset appended after the others takes its slot over. */
  lemma LaterAssetWins(assets: seq<Asset>, a: Asset, p: Platform)
    requires Classify(a.name) == Some(p)
    ensures LastUrl(assets + [a], p) == Some(a.browserDownloadUrl)
  {
  }

  /** An asset appended for another slot leaves this one as it was. */
  lemma OtherAssetSkipped(assets: seq<Asset>, a: Asset, p: Platform)
    requires Classify(a.name) != Some(p)
    ensures LastUrl(assets + [a], p) == LastUrl(assets, p)
  {
    assert (assets + [a])[..|assets|] == assets;
  }

  // ---------------------------------------------------------------------
  // Critical updates

  /** `is_critical_update`: the lower-cased "name body" text mentions one of
      the seven keywords. */
  predicate IsCritical(release: Release) {
    var text := CriticalText(release);
    Contains(text, "security") || Contains(text, "critical") || Contains(text, "cve-")
    || Contains(text, "vulnerability") || Contains(text, "urgent")
    || Contains(text, "breaking") || Contains(text, "hotfix")
  }

  /** The text the keywords are looked for in. */
  function CriticalText(release: Release): string {
    LowerAscii(release.name.GetOr("") + " " + release.body.GetOr(""))
  }

  /** One of the seven keywords, by position. */
  function Keyword(k: nat): string
    requires k < 7
  {
    match k
    case 0 => "security"
    case 1 => "critical"
    case 2 => "cve-"
    case 3 => "vulnerability"
    case 4 => "urgent"
    case 5 => "breaking"
    case _ => "hotfix"
  }

  /** Critical exactly when some keyword occurs in the text. */
  lemma CriticalIffKeyword(release: Release)
    ensures IsCritical(release) <==> exists k :: 0 <= k < 7 && Contains(CriticalText(release), Keyword(k))
  {
    var text := CriticalText(release);
    if IsCritical(release) {
      var k := if Contains(text, "security") then 0 else if Contains(text, "critical") then 1
        else if Contains(text, "cve-") then 2 else if Contains(text, "vulnerability") then 3
        else if Contains(text, "urgent") then 4 else if Contains(text, "breaking") then 5 else 6;
      assert Contains(text, Keyword(k));
    }
  }

  /** A keyword in the body, in any case, makes the release critical ... */
  lemma CriticalFromBody(release: Release, k: nat)
    requires k < 7 && release.body.Some? && Contains(LowerAscii(release.body.value), Keyword(k))
    ensures IsCritical(release)
  {
    var head := release.name.GetOr("") + " ";
    LowerAsciiAppend(head, release.body.value);
    ContainsInSuffix(LowerAscii(head), LowerAscii(release.body.value), Keyword(k));
    CriticalIffKeyword(release);
  }

  /** ... and so does one in the name. */
  lemma CriticalFromName(release: Release, k: nat)
    requires k < 7 && release.name.Some? && Contains(LowerAscii(release.name.value), Keyword(k))
    ensures IsCritical(release)
  {
    var tail := " " + release.body.GetOr("");
    assert release.name.value + " " + release.body.GetOr("") == release.name.value + tail;
    LowerAsciiAppend(release.name.value, tail);
    ContainsInPrefix(LowerAscii(release.name.value), LowerAscii(tail), Keyword(k));
    CriticalIffKeyword(release);
  }

  // ---------------------------------------------------------------------
  // Release selection

  /** `UpdateInfo`; the version string is the parsed version's display. */
  datatype UpdateInfo<V> = UpdateInfo(
    version: V,
    name: string,
    body: string,
    htmlUrl: string,
    downloadUrls: DownloadUrls,
    prerelease: bool,
    publishedAt: string,
    isCritical: bool)

  /** The version a release's tag names, with leading 'v's dropped. */
  function TagVersion<V>(parse: string -> Option<V>, release: Release): Option<V> {
    parse(TrimStart(release.tagName, 'v'))
  }

  /** A release the selection loop does not skip: no draft, accepted by the
      channel, with a tag that parses. */
  predicate Eligible<V>(channel: UpdateChannel, parse: string -> Option<V>, release: Release) {
    !release.draft && MatchesChannel(channel, release) && TagVersion(parse, release).Some?
  }

  /** The first eligible release at or after `from`. */
  function FirstEligibleFrom<V>(channel: UpdateChannel, parse: string -> Option<V>,
                                releases: seq<Release>, from: nat): (r: Option<nat>)
    ensures r.Some? ==> (from <= r.value < |releases| && Eligible(channel, parse, releases[r.value])
                         && forall j :: from <= j < r.value ==> !Eligible(channel, parse, releases[j]))
    ensures r.None? ==> forall j :: from <= j < |releases| ==> !Eligible(channel, parse, releases[j])
    decreases |releases| - from
  {
    if from >= |releases| then None
    else if Eligible(channel, parse, releases[from]) then Some(from)
    else FirstEligibleFrom(channel, parse, releases, from + 1)
  }

  /** The update info built from a release and its parsed version. */
  function InfoOf<V>(release: Release, version: V): UpdateInfo<V> {
    UpdateInfo(version, release.name.GetOr(release.tagName), release.body.GetOr(""),
               release.htmlUrl, DownloadUrlsOf(release.assets), release.prerelease,
               release.publishedAt, IsCritical(release))
  }

  /** What selection answers: the first eligible release when its version is
      strictly newer than the running one, and nothing otherwise; later
      releases are never looked at once one is eligible. */
  function Selected<V>(channel: UpdateChannel, parse: string -> Option<V>, newer: (V, V) -> bool,
                       current: V, releases: seq<Release>): Option<UpdateInfo<V>>
  {
    var first := FirstEligibleFrom(channel, parse, releases, 0);
    if first.None? then None
    else
      var v := TagVersion(parse, releases[first.value]).value;
      if newer(v, current) then Some(InfoOf(releases[first.value], v)) else None
  }

  /** An offered update is strictly newer, comes from an eligible release,
      and every release before that one was skipped. */
  lemma SelectedIsNewer<V>(channel: UpdateChannel, parse: string -> Option<V>, newer: (V, V) -> bool,
                           current: V, releases: seq<Release>)
    requires Selected(channel, parse, newer, current, releases).Some?
    ensures var info := Selected(channel, parse, newer, current, releases).value;
      newer(info.version, current)
      && exists i :: (0 <= i < |releases| && Eligible(channel, parse, releases[i])
                      && TagVersion(parse, releases[i]) == Some(info.version)
                      && info == InfoOf(releases[i], info.version)
                      && forall j :: 0 <= j < i ==> !Eligible(channel, parse, releases[j]))
  {
    var i := FirstEligibleFrom(channel, parse, releases, 0).value;
    assert Eligible(channel, parse, releases[i]);
  }

  /** The release that comes first decides: an eligible release that is not
      newer hides every newer one after it. */
  lemma FirstEligibleDecides<V>(channel: UpdateChannel, parse: string -> Option<V>,
                                newer: (V, V) -> bool, current: V, r: Release, rest: seq<Release>)
    requires Eligible(channel, parse, r) && !newer(TagVersion(parse, r).value, current)
    ensures Selected(channel, parse, newer, current, [r] + rest) == None
  {
    assert ([r] + rest)[0] == r;
  }

  /** Drafts are skipped whatever their version. */
  lemma DraftSkipped<V>(channel: UpdateChannel, parse: string -> Option<V>, newer: (V, V) -> bool,
                        current: V, r: Release, rest: seq<Release>)
    requires r.draft
    ensures Selected(channel, parse, newer, current, [r] + rest)
         == Selected(channel, parse, newer, current, rest)
  {
    var all := [r] + rest;
    SkippedShift(channel, parse, all, rest, 0);
    var b := FirstEligibleFrom(channel, parse, rest, 0);
    if b.Some? {
      assert all[b.value + 1] == rest[b.value];
    }
    SameFirstSameSelection(channel, parse, newer, current, all, rest);
  }

  /** Two release lists whose first eligible releases agree select the same. */
  lemma SameFirstSameSelection<V>(channel: UpdateChannel, parse: string -> Option<V>,
                                  newer: (V, V) -> bool, current: V, xs: seq<Release>, ys: seq<Release>)
    requires FirstEligibleFrom(channel, parse, xs, 0).None? <==> FirstEligibleFrom(channel, parse, ys, 0).None?
    requires FirstEligibleFrom(channel, parse, xs, 0).Some? ==>
      xs[FirstEligibleFrom(channel, parse, xs, 0).value] == ys[FirstEligibleFrom(channel, parse, ys, 0).value]
    ensures Selected(channel, parse, newer, current, xs) == Selected(channel, parse, newer, current, ys)
  {
  }

  /** Dropping a skipped head shifts the first eligible index by one. */
  lemma SkippedShift<V>(channel: UpdateChannel, parse: string -> Option<V>,
                        all: seq<Release>, rest: seq<Release>, from: nat)
    requires |all| == |rest| + 1 && all[1..] == rest && !Eligible(channel, parse, all[0])
    ensures var a := FirstEligibleFrom(channel, parse, all, from + 1);
      var b := FirstEligibleFrom(channel, parse, rest, from);
      (a.None? <==> b.None?) && (a.Some? ==> a.value == b.value + 1)
    ensures FirstEligibleFrom(channel, parse, all, 0) == FirstEligibleFrom(channel, parse, all, 1)
    decreases |rest| - from
  {
    if from < |rest| {
      assert all[from + 1] == rest[from];
      SkippedShift(channel, parse, all, rest, from + 1);
    }
  }

  /** `fetch_latest_release` after the request: no releases is an error;
      otherwise the loop skips drafts, channel mismatches and tags that do
      not parse, and returns at the first release left, with an update
      when it is strictly newer than `current`. */
  method FetchLatestRelease<V>(channel: UpdateChannel, parse: string -> Option<V>,
                               newer: (V, V) -> bool, current: V, releases: seq<Release>)
    returns (r: Result<Option<UpdateInfo<V>>, UpdateError>)
    ensures |releases| == 0 ==> r == Err(NoReleases)
    ensures |releases| > 0 ==> r == Ok(Selected(channel, parse, newer, current, releases))
  {
    if |releases| == 0 {
      return Err(NoReleases);
    }
    var i := 0;
    while i < |releases|
      invariant i <= |releases|
      invariant FirstEligibleFrom(channel, parse, releases, 0) == FirstEligibleFrom(channel, parse, releases, i)
    {
      var release := releases[i];
      if release.draft || !MatchesChannel(channel, release) {
        i := i + 1;
        continue;
      }
      var version := TagVersion(parse, release);
      if version.None? {
        i := i + 1;
        continue;
      }
      if !newer(version.value, current) {
        return Ok(None);
      }
      var urls := ExtractDownloadUrls(release.assets);
      var info := UpdateInfo(version.value, release.name.GetOr(release.tagName), release.body.GetOr(""),
                             release.htmlUrl, urls, release.prerelease, release.publishedAt,
                             IsCritical(release));
      return Ok(Some(info));
    }
    return Ok(None);
  }

  // ---------------------------------------------------------------------
  // Checker settings and the cache

  /** The settings of an `UpdateChecker` the model needs. */
  datatype Checker = Checker(
    channel: UpdateChannel,
    currentVersion: string,
    hasCachePath: bool,
    checkInterval: nat,
    skipCache: bool)

  /** `UpdateChecker::new`'s settings: the default interval, the cache used. */
  function NewChecker(channel: UpdateChannel, currentVersion: string, hasCachePath: bool): (c: Checker)
    ensures c.checkInterval == DEFAULT_CHECK_INTERVAL && !c.skipCache
  {
    Checker(channel, currentVersion, hasCachePath, DEFAULT_CHECK_INTERVAL, false)
  }

  /** `with_interval`: an interval below the minimum is raised to it. */
  function WithInterval(c: Checker, interval: nat): (r: Checker)
    ensures r.checkInterval >= MIN_CHECK_INTERVAL
    ensures interval >= MIN_CHECK_INTERVAL ==> r.checkInterval == interval
    ensures interval < MIN_CHECK_INTERVAL ==> r.checkInterval == MIN_CHECK_INTERVAL
    ensures r == c.(checkInterval := r.checkInterval)
  {
    c.(checkInterval := Max(interval, MIN_CHECK_INTERVAL))
  }

  /** `UpdateCache`: when the last check ran (Unix seconds), what it found,
      and the version that was running then. */
  datatype UpdateCache<V> = UpdateCache(lastCheck: u64, cachedUpdate: Option<UpdateInfo<V>>,
                                        checkedVersion: string)

  /** What reading the cache file gave: no file (or no cache path), a read
      or decode failure, or a decoded cache. */
  datatype Stored<V> = NoFile | Unreadable(message: string) | Decoded(cache: UpdateCache<V>)

  /** `read_cache`: a cache written while another version was running is
      ignored; a file that cannot be read or decoded is an error. */
  function ReadCache<V>(c: Checker, stored: Stored<V>): (r: Result<Option<UpdateCache<V>>, UpdateError>)
    ensures r.Ok? && r.value.Some? ==> stored.Decoded? && r.value.value == stored.cache
                                       && stored.cache.checkedVersion == c.currentVersion
    ensures stored.Decoded? && stored.cache.checkedVersion != c.currentVersion ==> r == Ok(None)
    ensures r.Err? <==> c.hasCachePath && stored.Unreadable?
  {
    if !c.hasCachePath then Ok(None)
    else match stored
      case NoFile => Ok(None)
      case Unreadable(m) => Err(CacheError(m))
      case Decoded(cache) =>
        if cache.checkedVersion != c.currentVersion then Ok(None) else Ok(Some(cache))
  }

  /** The age test of `check_for_update`: `now - last_check` on u64, which
      wraps in a release build when the clock is behind the stored time. */
  predicate Fresh(c: Checker, now: u64, lastCheck: u64) {
    (now - lastCheck) % TWO_64 < c.checkInterval / NANOS_PER_SEC
  }

  /** `check_for_update`'s answer, with the fetch's outcome given: the cached
      answer when the cache is readable, valid and fresh, otherwise the fresh
      fetch; an unreadable cache file fails the whole check. */
  function CheckForUpdate<V>(c: Checker, stored: Stored<V>, now: u64,
                             fetched: Result<Option<UpdateInfo<V>>, UpdateError>)
    : (r: Result<Option<UpdateInfo<V>>, UpdateError>)
    ensures c.skipCache ==> r == fetched
    ensures !c.skipCache && c.hasCachePath && stored.Unreadable? ==> r == Err(CacheError(stored.message))
    ensures stored.Decoded? && stored.cache.checkedVersion != c.currentVersion ==> r == fetched
    ensures r != fetched ==> (!c.skipCache && (stored.Unreadable? ||
      (stored.Decoded? && stored.cache.checkedVersion == c.currentVersion
       && Fresh(c, now, stored.cache.lastCheck) && r == Ok(stored.cache.cachedUpdate))))
  {
    if c.skipCache then fetched
    else match ReadCache(c, stored)
      case Err(e) => Err(e)
      case Ok(None) => fetched
      case Ok(Some(cache)) =>
        if Fresh(c, now, cache.lastCheck) then Ok(cache.cachedUpdate) else fetched
  }

  /** The critical release of the detector's tests. */
  lemma CriticalExample()
    ensures IsCritical(Release("v1.0.1", Some("Security Fix"), Some("Fixed CVE-2024-1234"),
                               "https://github.com/test/test", false, false, "2024-01-01", []))
  {
    var release := Release("v1.0.1", Some("Security Fix"), Some("Fixed CVE-2024-1234"),
                           "https://github.com/test/test", false, false, "2024-01-01", []);
    assert "security" <= LowerAscii("Security Fix");
    CriticalFromName(release, 0);
  }

  /** The lower-cased text of the ordinary release of the detector's tests. */
  const ORDINARY_TEXT: string := "bug fixes" + " " + "minor improvements"

  /** That text has none of the keywords. */
  lemma OrdinaryTextHasNoKeyword()
    ensures forall k :: 0 <= k < 7 ==> !Contains(ORDINARY_TEXT, Keyword(k))
  {
    forall k | 0 <= k < 7 ensures !Contains(ORDINARY_TEXT, Keyword(k)) {
      OrdinaryTextLacks(k);
    }
  }

  /** Each keyword holds a character, or a pair of neighbours, that the
      ordinary text lacks. */
  lemma OrdinaryTextLacks(k: nat)
    requires k < 7
    ensures !Contains(ORDINARY_TEXT, Keyword(k))
  {
    var t := ORDINARY_TEXT;
    match k
    case 0 => MissingChar(t, "security", 7, 'y');
    case 1 => MissingChar(t, "critical", 0, 'c');
    case 2 => MissingChar(t, "cve-", 0, 'c');
    case 3 => MissingChar(t, "vulnerability", 12, 'y');
    case 4 =>
      assert forall j :: 0 <= j < |t| - 1 ==> !(t[j] == 'u' && t[j + 1] == 'r');
      MissingPair(t, "urgent", 0, 'u', 'r');
    case 5 => MissingChar(t, "breaking", 4, 'k');
    case _ => MissingChar(t, "hotfix", 0, 'h');
  }

  /** The ordinary release of the detector's tests. */
  lemma NotCriticalExample()
    ensures !IsCritical(Release("v1.0.1", Some("Bug fixes"), Some("Minor improvements"),
                                "https://github.com/test/test", false, false, "2024-01-01", []))
  {
    var release := Release("v1.0.1", Some("Bug fixes"), Some("Minor improvements"),
                           "https://github.com/test/test", false, false, "2024-01-01", []);
    assert CriticalText(release) == ORDINARY_TEXT by {
      LowerAsciiAppend("Bug fixes" + " ", "Minor improvements");
      LowerAsciiAppend("Bug fixes", " ");
      assert LowerAscii("Bug fixes") == "bug fixes";
      assert LowerAscii(" ") == " ";
      assert LowerAscii("Minor improvements") == "minor improvements";
    }
    OrdinaryTextHasNoKeyword();
    CriticalIffKeyword(release);
  }

  /** The asset names of the extraction test. */
  const MAC_ASSET: string := "wormhole-macos-arm64.tar.gz"
  const LINUX_ASSET: string := "wormhole-linux-x86_64.tar.gz"
  const WINDOWS_ASSET: string := "wormhole-windows-x64.exe"

  /** The macOS asset of the extraction test goes to the arm slot. */
  lemma MacAssetExample()
    ensures Classify(MAC_ASSET) == Some(MacosArm64)
  {
    assert LowerAscii(MAC_ASSET) == MAC_ASSET by {
      LowerAsciiKeeps(MAC_ASSET);
    }
    assert Contains(MAC_ASSET, "macos") by {
      ContainsAt(MAC_ASSET, "macos", 9);
    }
    assert Contains(MAC_ASSET, "arm64") by {
      ContainsAt(MAC_ASSET, "arm64", 15);
    }
    MacArmName(MAC_ASSET);
  }

  /** A lower-case macOS name with an arm marker goes to the macOS arm slot. */
  lemma MacArmName(n: string)
    requires LowerAscii(n) == n && Contains(n, "macos") && Contains(n, "arm64")
    ensures Classify(n) == Some(MacosArm64)
  {
  }

  /** A name without 'c' and without 'd' has no macOS marker. */
  lemma NoMacMarker(n: string)
    requires 'c' !in n && 'd' !in n
    ensures !IsMacName(n)
  {
    MissingChar(n, "macos", 2, 'c');
    MissingChar(n, "darwin", 0, 'd');
  }

  /** A name without 'c', 'a' and 'u' names neither macOS nor Linux. */
  lemma NoWindowsUnixMarker(n: string)
    requires 'c' !in n && 'a' !in n && 'u' !in n
    ensures !IsMacName(n) && !Contains(n, "linux")
  {
    MissingChar(n, "macos", 2, 'c');
    MissingChar(n, "darwin", 1, 'a');
    MissingChar(n, "linux", 3, 'u');
  }

  /** A name without 'c' in which 'm' is never followed by '6' has no arm
      marker. */
  lemma NoArmMarker(n: string)
    requires 'c' !in n
    requires forall j :: 0 <= j < |n| - 1 ==> !(n[j] == 'm' && n[j + 1] == '6')
    ensures !IsArmName(n)
  {
    MissingPair(n, "arm64", 2, 'm', '6');
    MissingChar(n, "aarch64", 3, 'c');
  }

  /** A lower-case Linux x64 name with no macOS or arm marker goes to the
      Linux x64 slot. */
  lemma LinuxX64Name(n: string)
    requires LowerAscii(n) == n && !IsMacName(n) && !IsArmName(n)
    requires Contains(n, "linux") && Contains(n, "x86_64")
    ensures Classify(n) == Some(LinuxX64)
  {
  }

  /** A lower-case Windows x64 name with no macOS or Linux marker goes to
      the Windows slot. */
  lemma WindowsX64Name(n: string)
    requires LowerAscii(n) == n && !IsMacName(n) && !Contains(n, "linux")
    requires Contains(n, "windows") && Contains(n, "x64")
    ensures Classify(n) == Some(WindowsX64)
  {
  }

  /** The markers the Linux asset's name does carry. */
  lemma LinuxAssetMarkers()
    ensures LowerAscii(LINUX_ASSET) == LINUX_ASSET
    ensures Contains(LINUX_ASSET, "linux") && Contains(LINUX_ASSET, "x86_64")
  {
    assert LowerAscii(LINUX_ASSET) == LINUX_ASSET by {
      LowerAsciiKeeps(LINUX_ASSET);
    }
    assert Contains(LINUX_ASSET, "linux") by {
      ContainsAt(LINUX_ASSET, "linux", 9);
    }
    ContainsAt(LINUX_ASSET, "x86_64", 15);
  }

  /** The Linux asset's name has no macOS marker ... */
  lemma LinuxAssetNotMac()
    ensures !IsMacName(LINUX_ASSET)
  {
    assert 'c' !in LINUX_ASSET && 'd' !in LINUX_ASSET;
    NoMacMarker(LINUX_ASSET);
  }

  /** ... and no arm marker. */
  lemma LinuxAssetNotArm()
    ensures !IsArmName(LINUX_ASSET)
  {
    var n := LINUX_ASSET;
    assert 'c' !in n;
    assert forall j :: 0 <= j < |n| - 1 ==> !(n[j] == 'm' && n[j + 1] == '6');
    NoArmMarker(n);
  }

  /** The Linux asset of the extraction test goes to the x64 slot. */
  lemma LinuxAssetExample()
    ensures Classify(LINUX_ASSET) == Some(LinuxX64)
  {
    LinuxAssetMarkers();
    LinuxAssetNotMac();
    LinuxAssetNotArm();
    LinuxX64Name(LINUX_ASSET);
  }

  /** The markers the Windows asset's name does carry. */
  lemma WindowsAssetMarkers()
    ensures LowerAscii(WINDOWS_ASSET) == WINDOWS_ASSET
    ensures Contains(WINDOWS_ASSET, "windows") && Contains(WINDOWS_ASSET, "x64")
  {
    assert LowerAscii(WINDOWS_ASSET) == WINDOWS_ASSET by {
      LowerAsciiKeeps(WINDOWS_ASSET);
    }
    assert Contains(WINDOWS_ASSET, "windows") by {
      ContainsAt(WINDOWS_ASSET, "windows", 9);
    }
    ContainsAt(WINDOWS_ASSET, "x64", 17);
  }

  /** The Windows asset of the extraction test goes to the Windows slot. */
  lemma WindowsAssetExample()
    ensures Classify(WINDOWS_ASSET) == Some(WindowsX64)
  {
    WindowsAssetMarkers();
    WindowsAssetNotUnix();
    WindowsX64Name(WINDOWS_ASSET);
  }

  /** The Windows asset's name has no macOS or Linux marker. */
  lemma WindowsAssetNotUnix()
    ensures !IsMacName(WINDOWS_ASSET) && !Contains(WINDOWS_ASSET, "linux")
  {
    assert 'c' !in WINDOWS_ASSET && 'a' !in WINDOWS_ASSET && 'u' !in WINDOWS_ASSET;
    NoWindowsUnixMarker(WINDOWS_ASSET);
  }

  /** The extraction test: each of the three assets fills its own slot. */
  lemma DownloadUrlsExample()
    ensures var urls := DownloadUrlsOf([
        Asset(MAC_ASSET, "https://example.com/macos-arm64"),
        Asset(LINUX_ASSET, "https://example.com/linux-x64"),
        Asset(WINDOWS_ASSET, "https://example.com/windows-x64")]);
      urls.macosArm64 == Some("https://example.com/macos-arm64")
      && urls.linuxX64 == Some("https://example.com/linux-x64")
      && urls.windowsX64 == Some("https://example.com/windows-x64")
  {
    var mac := Asset(MAC_ASSET, "https://example.com/macos-arm64");
    var linux := Asset(LINUX_ASSET, "https://example.com/linux-x64");
    var windows := Asset(WINDOWS_ASSET, "https://example.com/windows-x64");
    MacAssetExample();
    LinuxAssetExample();
    WindowsAssetExample();
    ThreeAssets(mac, linux, windows, MacosArm64, LinuxX64, WindowsX64);
  }

  /** Three assets classified to three different slots each fill their own. */
  lemma ThreeAssets(a: Asset, b: Asset, c: Asset, pa: Platform, pb: Platform, pc: Platform)
    requires Classify(a.name) == Some(pa) && Classify(b.name) == Some(pb)
    requires Classify(c.name) == Some(pc)
    requires pa != pb && pb != pc && pa != pc
    ensures LastUrl([a, b, c], pa) == Some(a.browserDownloadUrl)
    ensures LastUrl([a, b, c], pb) == Some(b.browserDownloadUrl)
    ensures LastUrl([a, b, c], pc) == Some(c.browserDownloadUrl)
  {
    assert [a, b, c] == [a, b] + [c];
    assert [a, b] == [a] + [b];
    assert [a] == [] + [a];
    LaterAssetWins([a, b], c, pc);
    OtherAssetSkipped([a, b], c, pb);
    LaterAssetWins([a], b, pb);
    OtherAssetSkipped([a, b], c, pa);
    OtherAssetSkipped([a], b, pa);
    LaterAssetWins([], a, pa);
  }
}
