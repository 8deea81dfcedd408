/** The npm installer of `npm-wrapper/scripts/postinstall.js`: it maps Node's platform
    and architecture to release names, asks GitHub for the latest release tag (falling
    back to the package version), builds the archive name and download URL, and
    downloads the binary with a bounded number of retries.

    The network is an input: how each request ends, and which of two concurrent
    retries settles first. Streaming, `chmod`, `statSync` and the console
    output are not modelled; `chmod` is recorded as a flag of the outcome. */
module Installer {
  import opened Wrappers

  // ---------------------------------------------------------------------------
  // Names

  datatype PlatformInfo = PlatformInfo(platform: string, arch: string)

  datatype FetchError =
    | BadJson               // the release body did not parse
    | BadStatus(code: int)  // a status the request does not accept
    | NetworkFailure        // the request's `error` event
    | RequestTimeout        // the request's `timeout` event

  datatype InstallError =
    | UnsupportedPlatform(platform: string)
    | UnsupportedArch(arch: string)
    | DownloadFailed(reason: FetchError)

  /** The `platform` switch of `getPlatformInfo`. */
  function PlatformName(platform: string): Option<string> {
    if platform == "darwin" then Some("darwin")
    else if platform == "linux" then Some("linux")
    else if platform == "win32" then Some("windows")
    else None
  }

  /** The `arch` switch of `getPlatformInfo`. */
  function ArchName(arch: string): Option<string> {
    if arch == "x64" then Some("amd64")
    else if arch == "arm64" then Some("arm64")
    else None
  }

  /** `getPlatformInfo`: the platform is checked (and rejected) before the arch. */
  function GetPlatformInfo(platform: string, arch: string): Result<PlatformInfo, InstallError> {
    match PlatformName(platform)
    case None => Err(UnsupportedPlatform(platform))
    case Some(p) =>
      match ArchName(arch)
      case None => Err(UnsupportedArch(arch))
      case Some(a) => Ok(PlatformInfo(p, a))
  }

  /** Exactly the three platforms and two architectures are supported; an unsupported
      platform is reported whatever the architecture; the names are the release's. */
  lemma PlatformInfoCases(platform: string, arch: string)
    ensures GetPlatformInfo(platform, arch).Ok? <==>
      (platform == "darwin" || platform == "linux" || platform == "win32") && (arch == "x64" || arch == "arm64")
    ensures PlatformName(platform).None? ==> GetPlatformInfo(platform, arch) == Err(UnsupportedPlatform(platform))
    ensures PlatformName(platform).Some? && ArchName(arch).None? ==> GetPlatformInfo(platform, arch) == Err(UnsupportedArch(arch))
    ensures GetPlatformInfo(platform, arch).Ok? ==>
      var info := GetPlatformInfo(platform, arch).value;
      && (info.platform == "windows" <==> platform == "win32")
      && (info.arch == "amd64" <==> arch == "x64")
      && (info.platform in {"darwin", "linux", "windows"})
      && (info.arch in {"amd64", "arm64"})
  {
  }

  /** Two different supported inputs never map to the same release names. */
  lemma PlatformInfoInjective(p1: string, a1: string, p2: string, a2: string)
    requires GetPlatformInfo(p1, a1).Ok? && GetPlatformInfo(p2, a2).Ok?
    ensures GetPlatformInfo(p1, a1) == GetPlatformInfo(p2, a2) <==> p1 == p2 && a1 == a2
  {
  }

  /** The file name the binary is saved under. */
  function BinaryName(platform: string): string {
    if platform == "windows" then "yst_mcp.exe" else "yst_mcp"
  }

  /** The release asset's name. */
  function ArchiveName(info: PlatformInfo): string {
    "yst_mcp_" + info.platform + "_" + info.arch + (if info.platform == "windows" then ".exe" else "")
  }

  const ReleasePrefix: string := "https://github.com/Xuzan9396/yst_mcp/releases/download/"

  /** The asset URL of a release tag. */
  function DownloadUrl(version: string, archive: string): string {
    ReleasePrefix + version + "/" + archive
  }

  predicate EndsWith(s: string, suffix: string) {
    |suffix| <= |s| && s[|s| - |suffix|..] == suffix
  }

  predicate Supported(info: PlatformInfo) {
    info.platform in {"darwin", "linux", "windows"} && info.arch in {"amd64", "arm64"}
  }

  /** The binary and the asset carry `.exe` together, on Windows only. */
  lemma ArchiveNameSuffix(info: PlatformInfo)
    requires Supported(info)
    ensures EndsWith(ArchiveName(info), ".exe") <==> info.platform == "windows"
    ensures EndsWith(BinaryName(info.platform), ".exe") <==> info.platform == "windows"
  {
    var name := ArchiveName(info);
    if info.platform == "windows" {
      assert name == "yst_mcp_" + info.platform + "_" + info.arch + ".exe";
      assert name[|name| - 4..] == ".exe";
    } else {
      assert name == "yst_mcp_" + info.platform + "_" + info.arch;
      assert name[|name| - 1] == info.arch[|info.arch| - 1] == '4';
    }
    assert BinaryName("windows")[7..] == ".exe";
  }

  /** The asset name holds no `/`, so it is the last segment of its URL. */
  lemma ArchiveNameHasNoSlash(info: PlatformInfo)
    requires Supported(info)
    ensures '/' !in ArchiveName(info)
  {
    var stem := "yst_mcp_" + info.platform + "_" + info.arch;
    assert '/' !in info.platform && '/' !in info.arch;
    assert '/' !in stem;
    assert ArchiveName(info) == stem + (if info.platform == "windows" then ".exe" else "");
  }

  /** The six supported combinations have six different assets. */
  lemma ArchiveNameInjective(info: PlatformInfo, other: PlatformInfo)
    requires Supported(info) && Supported(other)
    ensures ArchiveName(info) == ArchiveName(other) <==> info == other
  {
    var name, name' := ArchiveName(info), ArchiveName(other);
    assert name[8] == info.platform[0] && name'[8] == other.platform[0];
    if name == name' {
      assert info.platform == other.platform;
      var i := 8 + |info.platform| + 2;
      assert name[i] == info.arch[1] && name'[i] == other.arch[1];
    }
  }

  /** The part of a URL after its last `/`. */
  function LastSegment(s: string): string {
    if s == [] || s[|s| - 1] == '/' then [] else LastSegment(s[..|s| - 1]) + [s[|s| - 1]]
  }

  lemma {:induction false} LastSegmentAfterSlash(x: string, a: string)
    requires '/' !in a
    ensures LastSegment(x + "/" + a) == a
    decreases |a|
  {
    var s := x + "/" + a;
    if a == [] {
      assert s[|s| - 1] == '/';
    } else {
      var a' := a[..|a| - 1];
      assert s[..|s| - 1] == x + "/" + a';
      assert s[|s| - 1] == a[|a| - 1] != '/';
      LastSegmentAfterSlash(x, a');
      assert a' + [a[|a| - 1]] == a;
    }
  }

  /** The URL determines the tag and the asset: the asset is its last segment and the
      tag is what lies between the fixed prefix and it. */
  lemma DownloadUrlDecodes(version: string, archive: string)
    requires '/' !in archive
    ensures var url := DownloadUrl(version, archive);
      && LastSegment(url) == archive
      && url[|ReleasePrefix|..|url| - |archive| - 1] == version
  {
    var url := DownloadUrl(version, archive);
    LastSegmentAfterSlash(ReleasePrefix + version, archive);
    assert url[|ReleasePrefix|..|url| - |archive| - 1] == version;
  }

  lemma DownloadUrlInjective(v1: string, a1: string, v2: string, a2: string)
    requires '/' !in a1 && '/' !in a2
    ensures DownloadUrl(v1, a1) == DownloadUrl(v2, a2) <==> v1 == v2 && a1 == a2
  {
    DownloadUrlDecodes(v1, a1);
    DownloadUrlDecodes(v2, a2);
  }

  // ---------------------------------------------------------------------------
  // Versions

  /** What `require('../package.json')` gives: nothing when it throws, otherwise the
      `version` field, which may be missing. */
  datatype PackageJson = Unreadable | Package(version: Option<string>)

  /** `getPackageVersion`. A missing field prints as `undefined`. */
  function GetPackageVersion(pkg: PackageJson): (v: string)
    ensures |v| >= 1 && v[0] == 'v'
    ensures pkg.Unreadable? ==> v == "v1.0.0"
    ensures pkg.Package? && pkg.version.Some? ==> v[1..] == pkg.version.value
    ensures pkg.Package? && pkg.version.None? ==> v == "vundefined"
  {
    match pkg
    case Unreadable => "v1.0.0"
    case Package(version) => "v" + version.GetOr("undefined")
  }

  /** How one request ends: a full response (the body parsed as JSON to a release
      whose `tag_name` may be missing, or not parsed), a network error, or a timeout
      before any response. */
  datatype VersionReply = Release(status: int, tag: Option<Option<string>>) | VersionError | VersionTimeout

  /** A request is named by the path of retries that led to it: the first request of
      a call is `at`; `at + [false]` is the retry its first handler schedules (the
      `error` handler after an error, the `timeout` handler after a timeout) and
      `at + [true]` the second retry, scheduled by the `error` handler when the
      `req.destroy()` of the `timeout` handler ends the request with an error.
      `replies(p)` is how request `p` ends, and `firstSettles(p)` says whether, of the
      two retries forked at `p`, the one at `p + [false]` settles first. */
  datatype VersionNet = VersionNet(replies: seq<bool> -> VersionReply, firstSettles: seq<bool> -> bool)

  /** The outcome of a call, the number of requests it made in all, and the request
      whose reply settled it. */
  datatype Fetched = Fetched(result: Result<string, FetchError>, requests: nat, decider: seq<bool>)

  /** The most requests on one path of retries of a call with `retries`. */
  function Budget(retries: int): nat {
    (if retries > 0 then retries else 0) + 1
  }

  function Pow2(n: nat): (p: nat)
    ensures p >= 1
  {
    if n == 0 then 1 else 2 * Pow2(n - 1)
  }

  /** `path` lies below the request `at`. */
  predicate Extends(path: seq<bool>, at: seq<bool>) {
    |at| <= |path| && path[..|at|] == at
  }

  /** The two ways of giving up at the network level. */
  predicate NetworkLevel(e: FetchError) {
    e == NetworkFailure || e == RequestTimeout
  }

  /** `getLatestVersion(retries)` whose first request is `at`. A response settles the
      promise (a missing `tag_name` resolves to `undefined`). An error retries with one
      retry less while any is left. A timeout does too, and the `error` that
      `req.destroy()` raises retries a second time; both retries run to the end and
      the first to settle settles the call. With no retry left, the `timeout` handler
      rejects before the `error` handler runs. */
  function GetLatestVersion(net: VersionNet, retries: int, at: seq<bool>): Fetched
    decreases if retries > 0 then retries else 0
  {
    match net.replies(at)
    case Release(status, tag) =>
      if status != 200 then Fetched(Err(BadStatus(status)), 1, at)
      else if tag.None? then Fetched(Err(BadJson), 1, at)
      else Fetched(Ok(tag.value.GetOr("undefined")), 1, at)
    case VersionError =>
      if retries > 0 then
        var f := GetLatestVersion(net, retries - 1, at + [false]); f.(requests := f.requests + 1)
      else Fetched(Err(NetworkFailure), 1, at)
    case VersionTimeout =>
      if retries > 0 then
        var first := GetLatestVersion(net, retries - 1, at + [false]);
        var second := GetLatestVersion(net, retries - 1, at + [true]);
        var settled := if net.firstSettles(at) then first else second;
        Fetched(settled.result, 1 + first.requests + second.requests, settled.decider)
      else Fetched(Err(RequestTimeout), 1, at)
  }

  /** A call makes at least one request and at most `2^(retries + 1) - 1`: each timeout
      can double what is left. */
  lemma {:induction false} LatestVersionRequests(net: VersionNet, retries: int, at: seq<bool>)
    ensures 1 <= GetLatestVersion(net, retries, at).requests <= Pow2(Budget(retries)) - 1
    decreases if retries > 0 then retries else 0
  {
    if retries > 0 && !net.replies(at).Release? {
      assert Pow2(Budget(retries)) == 2 * Pow2(Budget(retries - 1));
      LatestVersionRequests(net, retries - 1, at + [false]);
      LatestVersionRequests(net, retries - 1, at + [true]);
    }
  }

  /** The request that settles a call lies at most `retries` retries below the first;
      every request before it on its path failed at the network level, and its own
      reply decides the outcome. The call gives up on the network exactly when that
      reply is a failure, which happens only with no retry left on the path. */
  lemma {:induction false} LatestVersionDecider(net: VersionNet, retries: int, at: seq<bool>)
    ensures var f := GetLatestVersion(net, retries, at);
      var r := net.replies(f.decider);
      && Extends(f.decider, at) && |f.decider| - |at| < Budget(retries)
      && (forall j :: |at| <= j < |f.decider| ==> !net.replies(f.decider[..j]).Release?)
      && (f.result.Ok? ==> r == Release(200, Some(Some(f.result.value))) ||
                           (r == Release(200, Some(None)) && f.result.value == "undefined"))
      && (f.result == Err(BadJson) ==> r == Release(200, None))
      && (f.result.Err? && f.result.error.BadStatus? ==> r.Release? && r.status == f.result.error.code != 200)
      && (r.Release? <==> !(f.result.Err? && NetworkLevel(f.result.error)))
      && (f.result == Err(NetworkFailure) ==> r == VersionError && |f.decider| - |at| == Budget(retries) - 1)
      && (f.result == Err(RequestTimeout) ==> r == VersionTimeout && |f.decider| - |at| == Budget(retries) - 1)
    decreases if retries > 0 then retries else 0
  {
    if retries > 0 && !net.replies(at).Release? {
      var b := net.replies(at).VersionTimeout? && !net.firstSettles(at);
      var child := at + [b];
      LatestVersionDecider(net, retries - 1, child);
      var d := GetLatestVersion(net, retries - 1, child).decider;
      assert GetLatestVersion(net, retries, at).decider == d;
      assert d[..|at|] == d[..|child|][..|at|] == at;
    }
  }

  /** Without timeouts the retries form a single chain: one request per retry used,
      at most `retries + 1` of them. */
  lemma {:induction false} LatestVersionWithoutTimeouts(net: VersionNet, retries: int, at: seq<bool>)
    requires forall p :: net.replies(p) != VersionTimeout
    ensures var f := GetLatestVersion(net, retries, at);
      f.requests == |f.decider| - |at| + 1 <= Budget(retries)
    decreases if retries > 0 then retries else 0
  {
    LatestVersionDecider(net, retries, at);
    if retries > 0 && net.replies(at) == VersionError {
      LatestVersionWithoutTimeouts(net, retries - 1, at + [false]);
    }
  }

  /** When every request times out the call rejects with the timeout after making
      `2^(retries + 1) - 1` requests. */
  lemma {:induction false} LatestVersionAllTimeouts(net: VersionNet, retries: int, at: seq<bool>)
    requires forall p :: net.replies(p) == VersionTimeout
    ensures GetLatestVersion(net, retries, at).result == Err(RequestTimeout)
    ensures GetLatestVersion(net, retries, at).requests == Pow2(Budget(retries)) - 1
    decreases if retries > 0 then retries else 0
  {
    if retries > 0 {
      LatestVersionAllTimeouts(net, retries - 1, at + [false]);
      LatestVersionAllTimeouts(net, retries - 1, at + [true]);
    }
  }

  /** With the default three retries, errors alone stop after four requests, but
      timeouts alone make fifteen. */
  lemma DefaultRetries(errors: VersionNet, timeouts: VersionNet)
    requires forall p :: errors.replies(p) == VersionError
    requires forall p :: timeouts.replies(p) == VersionTimeout
    ensures GetLatestVersion(errors, 3, []) == Fetched(Err(NetworkFailure), 4, [false, false, false])
    ensures GetLatestVersion(timeouts, 3, []).result == Err(RequestTimeout)
    ensures GetLatestVersion(timeouts, 3, []).requests == 15 > Budget(3)
  {
    assert [] + [false] + [false] + [false] == [false, false, false];
    LatestVersionAllTimeouts(timeouts, 3, []);
  }

  /** The tag `install` uses: the latest release's, else the package's. */
  function ChosenVersion(net: VersionNet, pkg: PackageJson): string {
    var f := GetLatestVersion(net, 3, []);
    if f.result.Ok? then f.result.value else GetPackageVersion(pkg)
  }

  // ---------------------------------------------------------------------------
  // Download

  /** How one download request ends: a response (with its `location` header), a
      network error, or a timeout before any response. */
  datatype DownloadReply = Answer(status: int, location: string) | DownloadError | DownloadTimeout

  /** Download requests are named as version requests are; a redirect is followed at
      `at + [false]`. */
  datatype DownloadNet = DownloadNet(replies: seq<bool> -> DownloadReply, firstSettles: seq<bool> -> bool)

  /** `Saved(url)` names the URL the file finally came from; `Pending` is a path of
      requests longer than the `fuel` the model follows. */
  datatype DownloadResult = Saved(url: string) | Rejected(error: FetchError) | Pending

  /** The outcome, the number of requests made in all, the network failures on the
      path to the settling request, and that request. */
  datatype Download = Download(result: DownloadResult, requests: nat, failures: nat, decider: seq<bool>)

  predicate IsRedirect(status: int) {
    status == 301 || status == 302
  }

  /** `downloadBinary(url, dest, retries)` whose first request is `at`, following
      paths of at most `fuel` requests. A redirect is followed with the same retry
      count; an error retries the same URL with one retry less, and a timeout does
      so twice (the second time from the `error` that `req.destroy()` raises). Of two
      forked retries, one that settles within the fuel settles first; if both do,
      `firstSettles` says which. */
  function DownloadBinary(net: DownloadNet, url: string, retries: int, at: seq<bool>, fuel: nat): Download
    decreases fuel
  {
    if fuel == 0 then Download(Pending, 0, 0, at)
    else
      match net.replies(at)
      case Answer(status, location) =>
        if IsRedirect(status) then
          var d := DownloadBinary(net, location, retries, at + [false], fuel - 1); d.(requests := d.requests + 1)
        else if status != 200 then Download(Rejected(BadStatus(status)), 1, 0, at)
        else Download(Saved(url), 1, 0, at)
      case DownloadError =>
        if retries > 0 then
          var d := DownloadBinary(net, url, retries - 1, at + [false], fuel - 1);
          d.(requests := d.requests + 1, failures := d.failures + 1)
        else Download(Rejected(NetworkFailure), 1, 1, at)
      case DownloadTimeout =>
        if retries > 0 then
          var first := DownloadBinary(net, url, retries - 1, at + [false], fuel - 1);
          var second := DownloadBinary(net, url, retries - 1, at + [true], fuel - 1);
          var settled :=
            if second.result.Pending? then first
            else if first.result.Pending? then second
            else if net.firstSettles(at) then first else second;
          settled.(requests := 1 + first.requests + second.requests, failures := settled.failures + 1)
        else Download(Rejected(RequestTimeout), 1, 1, at)
  }

  /** The network failures among the requests `path[..j]` for `from <= j < to`. */
  function ChainFailures(replies: seq<bool> -> DownloadReply, path: seq<bool>, from: nat, to: nat): nat
    requires from <= to <= |path| + 1
    decreases |path| + 1 - from
  {
    if from == to then 0
    else (if replies(path[..from]).Answer? then 0 else 1) + ChainFailures(replies, path, from + 1, to)
  }

  /** One past the last request made on the settling path: the settling request
      itself is made unless the download is pending. */
  function PathEnd(d: Download): nat {
    |d.decider| + (if d.result.Pending? then 0 else 1)
  }

  /** A path below one of the two retries of `at` lies below `at`, one step further. */
  lemma ChildPath(at: seq<bool>, path: seq<bool>)
    requires Extends(path, at + [false]) || Extends(path, at + [true])
    ensures Extends(path, at) && |path| > |at|
  {
    var b := path[|at|];
    assert path[..|at|] == path[..|at| + 1][..|at|] == (at + [b])[..|at|] == at;
  }

  /** Counting failures along a path that starts at `at` starts with `at` itself. */
  lemma ChainStep(replies: seq<bool> -> DownloadReply, path: seq<bool>, at: seq<bool>, to: nat)
    requires Extends(path, at) && |at| < to <= |path| + 1
    ensures ChainFailures(replies, path, |at|, to) == (if replies(at).Answer? then 0 else 1) + ChainFailures(replies, path, |at| + 1, to)
  {
  }

  /** A download makes at most `2^fuel - 1` requests, and at least one unless it is
      pending. */
  lemma {:induction false} DownloadRequests(net: DownloadNet, url: string, retries: int, at: seq<bool>, fuel: nat)
    ensures var d := DownloadBinary(net, url, retries, at, fuel);
      && d.requests <= Pow2(fuel) - 1
      && (!d.result.Pending? ==> d.requests >= 1)
    decreases fuel
  {
    if fuel > 0 {
      match net.replies(at)
      case Answer(status, location) =>
        if IsRedirect(status) {
          DownloadRequests(net, location, retries, at + [false], fuel - 1);
        }
      case _ =>
        if retries > 0 {
          DownloadRequests(net, url, retries - 1, at + [false], fuel - 1);
          DownloadRequests(net, url, retries - 1, at + [true], fuel - 1);
        }
    }
  }

  /** The settling request of `d` lies below `at`, at depth `fuel` when pending and
      above it otherwise, and the failures counted are the failing requests made on
      its path. */
  predicate OnPath(replies: seq<bool> -> DownloadReply, at: seq<bool>, fuel: nat, d: Download) {
    && Extends(d.decider, at)
    && (d.result.Pending? ==> |d.decider| - |at| == fuel)
    && (!d.result.Pending? ==> |d.decider| - |at| < fuel)
    && d.failures == ChainFailures(replies, d.decider, |at|, PathEnd(d))
  }

  /** A download settled by a retry or redirect of `at` adds `at` to its path. */
  lemma OnPathStep(replies: seq<bool> -> DownloadReply, at: seq<bool>, b: bool, fuel: nat, c: Download, d: Download)
    requires fuel > 0 && OnPath(replies, at + [b], fuel - 1, c)
    requires d.decider == c.decider && d.result == c.result
    requires d.failures == c.failures + (if replies(at).Answer? then 0 else 1)
    ensures OnPath(replies, at, fuel, d)
  {
    ChildPath(at, c.decider);
    ChainStep(replies, c.decider, at, PathEnd(c));
  }

  /** At most `retries + 1` failures, and all of them when giving up on the network. */
  predicate WithinBudget(retries: int, d: Download) {
    && d.failures <= Budget(retries)
    && (d.result.Rejected? && NetworkLevel(d.result.error) ==> d.failures == Budget(retries))
  }

  /** After a timeout, whichever retry settles first carries its facts up to `at`. */
  lemma TimeoutStep(replies: seq<bool> -> DownloadReply, at: seq<bool>, retries: int, fuel: nat,
                    first: Download, second: Download, firstWins: bool, d: Download)
    requires fuel > 0 && retries > 0 && replies(at) == DownloadTimeout
    requires OnPath(replies, at + [false], fuel - 1, first) && WithinBudget(retries - 1, first)
    requires OnPath(replies, at + [true], fuel - 1, second) && WithinBudget(retries - 1, second)
    requires var settled :=
               if second.result.Pending? then first
               else if first.result.Pending? then second
               else if firstWins then first else second;
             d == settled.(requests := 1 + first.requests + second.requests, failures := settled.failures + 1)
    ensures OnPath(replies, at, fuel, d) && WithinBudget(retries, d)
  {
    if second.result.Pending? || (!first.result.Pending? && firstWins) {
      OnPathStep(replies, at, false, fuel, first, d);
    } else {
      OnPathStep(replies, at, true, fuel, second, d);
    }
  }

  /** The settling request lies below the first; a pending download used all its fuel
      on that path. Only network failures use up retries, never redirects: the
      failures counted are exactly the failing requests on the path, there are at most
      `retries + 1` of them, and giving up on the network takes all of them. */
  lemma {:induction false} DownloadRetries(net: DownloadNet, url: string, retries: int, at: seq<bool>, fuel: nat)
    ensures var d := DownloadBinary(net, url, retries, at, fuel);
      OnPath(net.replies, at, fuel, d) && WithinBudget(retries, d)
    decreases fuel
  {
    var d := DownloadBinary(net, url, retries, at, fuel);
    if fuel == 0 {
      assert at[..|at|] == at;
    } else {
      match net.replies(at)
      case Answer(status, location) =>
        if IsRedirect(status) {
          DownloadRetries(net, location, retries, at + [false], fuel - 1);
          OnPathStep(net.replies, at, false, fuel, DownloadBinary(net, location, retries, at + [false], fuel - 1), d);
        } else {
          assert at[..|at|] == at;
        }
      case DownloadError =>
        if retries > 0 {
          DownloadRetries(net, url, retries - 1, at + [false], fuel - 1);
          OnPathStep(net.replies, at, false, fuel, DownloadBinary(net, url, retries - 1, at + [false], fuel - 1), d);
        } else {
          assert at[..|at|] == at;
        }
      case DownloadTimeout =>
        if retries > 0 {
          DownloadRetries(net, url, retries - 1, at + [false], fuel - 1);
          DownloadRetries(net, url, retries - 1, at + [true], fuel - 1);
          TimeoutStep(net.replies, at, retries, fuel, DownloadBinary(net, url, retries - 1, at + [false], fuel - 1),
                      DownloadBinary(net, url, retries - 1, at + [true], fuel - 1), net.firstSettles(at), d);
        } else {
          assert at[..|at|] == at;
        }
    }
  }

  /** A file is saved only from a 200 response, and a rejection for status comes from
      the settling response, which was neither a redirect nor a 200; a network give-up
      is the settling request's own failure. */
  lemma {:induction false} DownloadLastReply(net: DownloadNet, url: string, retries: int, at: seq<bool>, fuel: nat)
    ensures var d := DownloadBinary(net, url, retries, at, fuel);
      var r := net.replies(d.decider);
      && (d.result.Saved? ==> r.Answer? && r.status == 200)
      && (d.result.Rejected? && d.result.error.BadStatus? ==>
            r.Answer? && r.status == d.result.error.code && !IsRedirect(r.status) && r.status != 200)
      && (d.result == Rejected(NetworkFailure) ==> r == DownloadError)
      && (d.result == Rejected(RequestTimeout) ==> r == DownloadTimeout)
    decreases fuel
  {
    if fuel > 0 {
      match net.replies(at)
      case Answer(status, location) =>
        if IsRedirect(status) {
          DownloadLastReply(net, location, retries, at + [false], fuel - 1);
        }
      case _ =>
        if retries > 0 {
          DownloadLastReply(net, url, retries - 1, at + [false], fuel - 1);
          DownloadLastReply(net, url, retries - 1, at + [true], fuel - 1);
        }
    }
  }

  /** Without timeouts nothing forks: every request made lies on the settling path. */
  lemma {:induction false} DownloadWithoutTimeouts(net: DownloadNet, url: string, retries: int, at: seq<bool>, fuel: nat)
    requires forall p :: net.replies(p) != DownloadTimeout
    ensures var d := DownloadBinary(net, url, retries, at, fuel);
      d.requests == PathEnd(d) - |at|
    decreases fuel
  {
    if fuel > 0 {
      var r := net.replies(at);
      if r.Answer? && IsRedirect(r.status) {
        DownloadWithoutTimeouts(net, r.location, retries, at + [false], fuel - 1);
      } else if r == DownloadError && retries > 0 {
        DownloadWithoutTimeouts(net, url, retries - 1, at + [false], fuel - 1);
      }
    }
  }

  /** When every request times out and the fuel covers the retries, the download
      rejects with the timeout after `2^(retries + 1) - 1` requests, all its retries
      used on the settling path. */
  lemma {:induction false} DownloadAllTimeouts(net: DownloadNet, url: string, retries: int, at: seq<bool>, fuel: nat)
    requires forall p :: net.replies(p) == DownloadTimeout
    requires fuel >= Budget(retries)
    ensures var d := DownloadBinary(net, url, retries, at, fuel);
      d.result == Rejected(RequestTimeout) && d.requests == Pow2(Budget(retries)) - 1 && d.failures == Budget(retries)
    decreases fuel
  {
    if retries > 0 {
      DownloadAllTimeouts(net, url, retries - 1, at + [false], fuel - 1);
      DownloadAllTimeouts(net, url, retries - 1, at + [true], fuel - 1);
    }
  }

  /** A server that always redirects is followed for as long as it redirects: the
      retry count does not bound the chain. */
  lemma {:induction false} EndlessRedirects(net: DownloadNet, url: string, retries: int, at: seq<bool>, fuel: nat)
    requires forall p :: net.replies(p).Answer? && IsRedirect(net.replies(p).status)
    ensures var d := DownloadBinary(net, url, retries, at, fuel);
      d.result == Pending && d.requests == fuel && d.failures == 0
    decreases fuel
  {
    if fuel > 0 {
      EndlessRedirects(net, net.replies(at).location, retries, at + [false], fuel - 1);
    }
  }

  // ---------------------------------------------------------------------------
  // install

  /** `Installed` records the tag, the URL, the binary's file name and whether it was
      made executable; `StillDownloading` is a redirect chain beyond the fuel. */
  datatype InstallOutcome =
    | Installed(version: string, url: string, binary: string, executable: bool)
    | InstallFailed(error: InstallError)
    | StillDownloading

  /** `install`: platform names, then the tag, then the download, then `chmod` off
      Windows. Any throw ends in `InstallFailed` (the script exits with status 1). */
  method Install(platform: string, arch: string, versionNet: VersionNet, pkg: PackageJson,
                 downloadNet: DownloadNet, fuel: nat)
    returns (outcome: InstallOutcome)
    ensures GetPlatformInfo(platform, arch).Err? ==> outcome == InstallFailed(GetPlatformInfo(platform, arch).error)
    ensures GetPlatformInfo(platform, arch).Ok? ==>
      var info := GetPlatformInfo(platform, arch).value;
      var url := DownloadUrl(ChosenVersion(versionNet, pkg), ArchiveName(info));
      match DownloadBinary(downloadNet, url, 3, [], fuel).result
      case Saved(_) => outcome == Installed(ChosenVersion(versionNet, pkg), url, BinaryName(info.platform), info.platform != "windows")
      case Rejected(e) => outcome == InstallFailed(DownloadFailed(e))
      case Pending => outcome == StillDownloading
    ensures outcome.Installed? ==> (outcome.executable <==> !EndsWith(outcome.binary, ".exe"))
  {
    var info := GetPlatformInfo(platform, arch);
    if info.Err? {
      return InstallFailed(info.error);
    }
    var p := info.value.platform;
    var version: string;
    var latest := GetLatestVersion(versionNet, 3, []);
    if latest.result.Ok? {
      version := latest.result.value;
    } else {
      version := GetPackageVersion(pkg);
    }
    var binaryName := BinaryName(p);
    var archiveName := ArchiveName(info.value);
    var url := DownloadUrl(version, archiveName);
    var download := DownloadBinary(downloadNet, url, 3, [], fuel);
    match download.result
    case Saved(_) =>
      PlatformInfoCases(platform, arch);
      ArchiveNameSuffix(info.value);
      outcome := Installed(version, url, binaryName, p != "windows");
    case Rejected(e) =>
      outcome := InstallFailed(DownloadFailed(e));
    case Pending =>
      outcome := StillDownloading;
  }
}
