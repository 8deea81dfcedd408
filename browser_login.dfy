/** The interactive login of `browser_login.py`: a browser is launched (system Chrome,
    else the bundled Chromium), the page URL is polled every seven seconds until it
    shows the user inside the site or the timeout passes, and the browser's cookies are
    then written to the cookie file through a `CookieManager`.

    Everything Playwright does is an input: whether each launch succeeds, whether the
    page can be created, what each poll sees (a `Tick`), whether reading the cookies
    succeeds, and the cookies themselves. Time is whole seconds counted by the loop. */
module BrowserLogin {
  import opened Wrappers
  import opened Text
  import opened CookieStore
  import Collector

  /** `TARGET_URL`, the same report list page the collector probes. */
  const TargetUrl: string := Collector.ReportListUrl
  /** `LOGIN_URL`, the site's own login page. */
  const LoginUrl: string := Collector.LoginUrl

  const SiteHost: string := "kpi.drojian.dev"
  const IdentityHost: string := "accounts.google.com"

  /** Seconds slept between two polls. */
  const CheckInterval: nat := 7
  /** The timeout the persistent flow passes to the wait loop. */
  const PersistentTimeout: int := 300

  // ---------------------------------------------------------------------------
  // The URL tests of the wait loop

  /** The login verdict: the URL mentions the site host and does not mention the
      identity provider. Both are substring tests on the whole URL, not host tests. */
  predicate IsAuthenticatedUrl(url: string) {
    Contains(url, SiteHost) && !Contains(url, IdentityHost)
  }

  /** An authenticated page that is not the report list, so one navigation to the
      target is attempted before returning. */
  predicate NeedsCorrectiveNavigation(url: string) {
    !Contains(url, "my-list") && !Contains(url, "report-daily")
  }

  /** Every page of the site mentions the site host. */
  lemma SitePagesMentionHost(path: string)
    ensures Contains(Collector.BaseUrl + path, SiteHost)
  {
    var url := Collector.BaseUrl + path;
    assert url[8..8 + |SiteHost|] == Collector.BaseUrl[8..] == SiteHost;
    assert OccursAt(url, SiteHost, 8);
  }

  /** A site page whose path has no `g` cannot mention the identity provider. */
  lemma SitePagesWithoutG(path: string)
    requires 'g' !in path
    ensures !Contains(Collector.BaseUrl + path, IdentityHost)
  {
    assert 'g' !in Collector.BaseUrl;
    assert 'g' !in Collector.BaseUrl + path;
    assert IdentityHost[9] == 'g';
    MissingCharExcludes(Collector.BaseUrl + path, IdentityHost, 'g');
  }

  /** A site page whose path has no `u` cannot mention the identity provider. */
  lemma SitePagesWithoutU(path: string)
    requires 'u' !in path
    ensures !Contains(Collector.BaseUrl + path, IdentityHost)
  {
    assert 'u' !in Collector.BaseUrl;
    assert 'u' !in Collector.BaseUrl + path;
    assert IdentityHost[4] == 'u';
    MissingCharExcludes(Collector.BaseUrl + path, IdentityHost, 'u');
  }

  /** The report list page counts as logged in and needs no navigation. */
  lemma TargetUrlIsAuthenticated()
    ensures IsAuthenticatedUrl(TargetUrl)
    ensures !NeedsCorrectiveNavigation(TargetUrl)
  {
    var path := "/report/report-daily/my-list";
    assert TargetUrl == Collector.BaseUrl + path;
    SitePagesMentionHost(path);
    assert 'g' !in path;
    SitePagesWithoutG(path);
    assert TargetUrl[|TargetUrl| - 7..] == "my-list";
    assert OccursAt(TargetUrl, "my-list", |TargetUrl| - 7);
  }

  /** As written, the site's own login page also passes the verdict: it mentions the
      site host and does not mention the identity provider. */
  lemma LoginUrlIsAuthenticated()
    ensures IsAuthenticatedUrl(LoginUrl)
    ensures NeedsCorrectiveNavigation(LoginUrl)
  {
    var path := "/site/login";
    assert LoginUrl == Collector.BaseUrl + path;
    SitePagesMentionHost(path);
    assert 'u' !in path;
    SitePagesWithoutU(path);
    assert 'm' !in Collector.BaseUrl && 'm' !in path;
    assert 'y' !in Collector.BaseUrl && 'y' !in path;
    assert "my-list"[0] == 'm' && "report-daily"[11] == 'y';
    MissingCharExcludes(LoginUrl, "my-list", 'm');
    MissingCharExcludes(LoginUrl, "report-daily", 'y');
  }

  /** Another host whose query mentions the site passes. */
  lemma ForeignMentionPasses()
    ensures IsAuthenticatedUrl("https://example.com/?next=kpi.drojian.dev")
  {
    var foreign := "https://example.com/?next=kpi.drojian.dev";
    assert OccursAt(foreign, SiteHost, |foreign| - |SiteHost|);
    assert 'g' !in foreign;
    MissingCharExcludes(foreign, IdentityHost, 'g');
  }

  /** A site page whose query mentions the identity provider fails. */
  lemma IdentityMentionFails()
    ensures !IsAuthenticatedUrl("https://kpi.drojian.dev/cb?from=accounts.google.com")
  {
    var callback := "https://kpi.drojian.dev/cb?from=accounts.google.com";
    assert OccursAt(callback, IdentityHost, |callback| - |IdentityHost|);
  }

  /** The tests look at the whole URL: another host whose query mentions the site
      passes, and a site page whose query mentions the identity provider fails. */
  lemma VerdictIsSubstringBased()
    ensures IsAuthenticatedUrl("https://example.com/?next=kpi.drojian.dev")
    ensures !IsAuthenticatedUrl("https://kpi.drojian.dev/cb?from=accounts.google.com")
  {
    ForeignMentionPasses();
    IdentityMentionFails();
  }

  // ---------------------------------------------------------------------------
  // The wait loop

  /** Where an exception interrupts one poll: before the navigation step (reading the
      URL or reporting it), or after it, before `return True`. Either way the loop
      sleeps one interval and polls again. */
  datatype Fault = Clean | FailsBeforeNavigation | FailsAfterNavigation

  /** What one poll observes: the page URL, where it raises, whether the corrective
      `goto` succeeds and the URL after it, and the seconds the poll itself takes
      before its sleep. */
  datatype Tick = Tick(url: string, fault: Fault, navigationOk: bool, urlAfterNavigation: string, work: nat)

  /** The poll returns `True`. */
  predicate TickSucceeds(t: Tick) {
    t.fault == Clean && IsAuthenticatedUrl(t.url)
  }

  /** The poll calls `page.goto(TARGET_URL)`. */
  predicate TickNavigates(t: Tick) {
    t.fault != FailsBeforeNavigation && IsAuthenticatedUrl(t.url) && NeedsCorrectiveNavigation(t.url)
  }

  /** The result of the loop, the number of polls, the navigations attempted, and the
      elapsed seconds at the last check of the clock. */
  datatype WaitOutcome = WaitOutcome(success: bool, ticks: nat, navigations: nat, elapsed: int)

  function AddNavigations(o: WaitOutcome, n: nat): WaitOutcome {
    o.(navigations := o.navigations + n)
  }

  /** The loop from poll `k` on, `elapsed` seconds after it started. */
  function Poll(env: nat -> Tick, timeout: int, k: nat, elapsed: int): WaitOutcome
    decreases timeout - elapsed
  {
    if elapsed >= timeout then WaitOutcome(false, k, 0, elapsed)
    else
      var t := env(k);
      var nav := if TickNavigates(t) then 1 else 0;
      if TickSucceeds(t) then WaitOutcome(true, k + 1, nav, elapsed)
      else AddNavigations(Poll(env, timeout, k + 1, elapsed + t.work + CheckInterval), nav)
  }

  /** `_wait_for_login_success`. */
  method WaitForLoginSuccess(env: nat -> Tick, timeout: int)
    returns (success: bool, ticks: nat, navigations: nat, elapsed: int)
    ensures WaitOutcome(success, ticks, navigations, elapsed) == Poll(env, timeout, 0, 0)
  {
    success, ticks, navigations, elapsed := false, 0, 0, 0;
    while elapsed < timeout
      invariant Poll(env, timeout, 0, 0) == AddNavigations(Poll(env, timeout, ticks, elapsed), navigations)
      decreases timeout - elapsed
    {
      var t := env(ticks);
      if t.fault != FailsBeforeNavigation && IsAuthenticatedUrl(t.url) {
        if NeedsCorrectiveNavigation(t.url) {
          // The URL after the navigation is only reported, never tested.
          navigations := navigations + 1;
        }
        if t.fault == Clean {
          success, ticks := true, ticks + 1;
          return;
        }
      }
      ticks := ticks + 1;
      elapsed := elapsed + t.work + CheckInterval;
    }
  }

  /** The loop answers false only once the deadline has passed, and true only from a
      poll made before it; it makes at most one navigation per poll. */
  lemma {:induction false} PollDeadline(env: nat -> Tick, timeout: int, k: nat, elapsed: int)
    ensures var r := Poll(env, timeout, k, elapsed);
      && r.ticks >= k
      && r.navigations <= r.ticks - k
      && r.elapsed >= elapsed
      && (r.success ==> r.elapsed < timeout && r.ticks > k && TickSucceeds(env(r.ticks - 1)))
      && (!r.success ==> r.elapsed >= timeout)
      && (elapsed >= timeout ==> r == WaitOutcome(false, k, 0, elapsed))
    decreases timeout - elapsed
  {
    if elapsed < timeout && !TickSucceeds(env(k)) {
      PollDeadline(env, timeout, k + 1, elapsed + env(k).work + CheckInterval);
    }
  }

  /** When no poll takes more than `w` seconds of its own, a failed wait ends less than
      one poll (its work and its sleep) after the timeout. */
  lemma {:induction false} PollOvershoot(env: nat -> Tick, timeout: int, k: nat, elapsed: int, w: nat)
    requires elapsed < timeout
    requires forall j :: k <= j ==> env(j).work <= w
    ensures Poll(env, timeout, k, elapsed).elapsed < timeout + w + CheckInterval
    decreases timeout - elapsed
  {
    var next := elapsed + env(k).work + CheckInterval;
    if !TickSucceeds(env(k)) && next < timeout {
      PollOvershoot(env, timeout, k + 1, next, w);
    }
  }

  /** The loop returns at the first successful poll: every earlier poll failed, and
      a failed wait saw no successful poll at all. */
  lemma {:induction false} PollFirstSuccess(env: nat -> Tick, timeout: int, k: nat, elapsed: int)
    ensures var r := Poll(env, timeout, k, elapsed);
      forall j :: k <= j < r.ticks - 1 ==> !TickSucceeds(env(j))
    ensures var r := Poll(env, timeout, k, elapsed);
      !r.success ==> forall j :: k <= j < r.ticks ==> !TickSucceeds(env(j))
    decreases timeout - elapsed
  {
    if elapsed < timeout && !TickSucceeds(env(k)) {
      PollFirstSuccess(env, timeout, k + 1, elapsed + env(k).work + CheckInterval);
      PollDeadline(env, timeout, k + 1, elapsed + env(k).work + CheckInterval);
    }
  }

  /** Unless a poll raises after its navigation, the target page is requested at most
      once, and only by the poll that then reports success from a page that was not
      the report list. */
  lemma {:induction false} PollNavigatesAtMostOnce(env: nat -> Tick, timeout: int, k: nat, elapsed: int)
    requires forall j :: k <= j ==> env(j).fault != FailsAfterNavigation
    ensures var r := Poll(env, timeout, k, elapsed);
      && r.navigations <= 1
      && (r.navigations == 1 ==> r.success && r.ticks > k && NeedsCorrectiveNavigation(env(r.ticks - 1).url))
    decreases timeout - elapsed
  {
    if elapsed < timeout && !TickSucceeds(env(k)) {
      PollNavigatesAtMostOnce(env, timeout, k + 1, elapsed + env(k).work + CheckInterval);
      PollDeadline(env, timeout, k + 1, elapsed + env(k).work + CheckInterval);
    }
  }

  /** The verdict is taken from the URL read before the navigation: how the navigation
      goes and where it lands change nothing in the outcome. */
  lemma {:induction false} PollIgnoresNavigationResult(env: nat -> Tick, env': nat -> Tick, timeout: int, k: nat, elapsed: int)
    requires forall j :: env(j).url == env'(j).url && env(j).fault == env'(j).fault && env(j).work == env'(j).work
    ensures Poll(env, timeout, k, elapsed) == Poll(env', timeout, k, elapsed)
    decreases timeout - elapsed
  {
    if elapsed < timeout {
      PollIgnoresNavigationResult(env, env', timeout, k + 1, elapsed + env(k).work + CheckInterval);
    }
  }

  /** With instantaneous polls that never succeed, the loop polls once per started
      interval of the remaining time. */
  lemma {:induction false} PollCountWithoutLogin(env: nat -> Tick, timeout: int, k: nat, elapsed: int)
    requires forall j :: env(j).work == 0 && !TickSucceeds(env(j))
    requires elapsed < timeout
    ensures Poll(env, timeout, k, elapsed).ticks == k + (timeout - elapsed + CheckInterval - 1) / CheckInterval
    decreases timeout - elapsed
  {
    var next := elapsed + env(k).work + CheckInterval;
    if next < timeout {
      PollCountWithoutLogin(env, timeout, k + 1, next);
    }
  }

  /** The default five-minute wait with nobody logging in makes 43 polls. */
  lemma DefaultTimeoutPolls(env: nat -> Tick)
    requires forall j :: env(j).work == 0 && !TickSucceeds(env(j))
    ensures Poll(env, PersistentTimeout, 0, 0).ticks == 43
    ensures !Poll(env, PersistentTimeout, 0, 0).success
  {
    PollCountWithoutLogin(env, PersistentTimeout, 0, 0);
    PollDeadline(env, PersistentTimeout, 0, 0);
  }

  // ---------------------------------------------------------------------------
  // Launching

  datatype Channel = SystemChrome | BundledChromium

  /** The launch with fallback: system Chrome first, the bundled Chromium when that
      raises, nothing when both raise. */
  function Launch(chromeOk: bool, chromiumOk: bool): (c: Option<Channel>)
    ensures c.Some? <==> chromeOk || chromiumOk
    ensures c == Some(SystemChrome) <==> chromeOk
    ensures c == Some(BundledChromium) <==> !chromeOk && chromiumOk
  {
    if chromeOk then Some(SystemChrome) else if chromiumOk then Some(BundledChromium) else None
  }

  /** The launch arguments `_get_browser_args` builds for a platform name. */
  function BrowserArgs(system: string): seq<string> {
    ["--start-maximized"] +
    (if system == "Windows" then
       ["--disable-blink-features=AutomationControlled", "--no-sandbox", "--disable-dev-shm-usage", "--disable-gpu"]
     else if system == "Linux" then
       ["--no-sandbox", "--disable-dev-shm-usage"]
     else [])
  }

  /** `_get_browser_args`: the list starts maximised and is extended per platform. */
  method GetBrowserArgs(system: string) returns (args: seq<string>)
    ensures args == BrowserArgs(system)
  {
    args := ["--start-maximized"];
    if system == "Windows" {
      args := args + ["--disable-blink-features=AutomationControlled", "--no-sandbox", "--disable-dev-shm-usage", "--disable-gpu"];
    } else if system == "Linux" {
      args := args + ["--no-sandbox", "--disable-dev-shm-usage"];
    }
  }

  /** Every platform starts maximised; the sandbox is switched off on Windows and Linux
      only, the GPU and the automation flag on Windows only; no flag repeats. */
  lemma BrowserArgsByPlatform(system: string)
    ensures var args := BrowserArgs(system);
      && args[0] == "--start-maximized"
      && |args| == (if system == "Windows" then 5 else if system == "Linux" then 3 else 1)
      && ("--no-sandbox" in args <==> system == "Windows" || system == "Linux")
      && ("--disable-dev-shm-usage" in args <==> system == "Windows" || system == "Linux")
      && ("--disable-gpu" in args <==> system == "Windows")
      && ("--disable-blink-features=AutomationControlled" in args <==> system == "Windows")
      && (forall i, j :: 0 <= i < j < |args| ==> args[i] != args[j])
  {
  }

  /** `_get_user_data_dir`: the persistent browser profile. */
  function UserDataDir(frozen: bool, home: string, moduleDir: string): string {
    if frozen then home + "/.yst_mcp/data/browser_profile" else moduleDir + "/data/browser_profile"
  }

  /** The profile directory and the default cookie file share one data directory. */
  lemma ProfileBesideCookieFile(frozen: bool, home: string, moduleDir: string)
    ensures UserDataDir(frozen, home, moduleDir) == BaseDir(frozen, home, moduleDir) + "/browser_profile"
    ensures CookieFilePath(None, frozen, home, moduleDir) == BaseDir(frozen, home, moduleDir) + "/cookies.json"
  {
    var base := BaseDir(frozen, home, moduleDir);
    if frozen {
      assert home + "/.yst_mcp/data" + "/browser_profile" == home + "/.yst_mcp/data/browser_profile";
    } else {
      assert moduleDir + "/data" + "/browser_profile" == moduleDir + "/data/browser_profile";
    }
    assert base + "/" + CookieFileName == base + "/cookies.json";
  }

  // ---------------------------------------------------------------------------
  // Cookies read from the browser

  /** A cookie as `context.cookies()` reports it; `domain` and `path` are read with
      `.get`, so the model lets them be missing. */
  datatype BrowserCookie = BrowserCookie(name: string, value: string, domain: Option<string>, path: Option<string>)

  /** The cookie-file entry built from a browser cookie: a missing domain becomes the
      empty string and a missing path `/`. */
  function BrowserRecord(c: BrowserCookie): (r: CookieRecord)
    ensures Collector.Complete(r)
    ensures Collector.KeyOf(r) == Collector.JarKey(c.domain.GetOr(""), c.path.GetOr("/"), c.name)
    ensures r.value == Some(c.value)
  {
    FullRecord(c.name, c.value, c.domain.GetOr(""), c.path.GetOr("/"))
  }

  function BrowserRecords(cs: seq<BrowserCookie>): (rs: seq<CookieRecord>)
    ensures |rs| == |cs|
    ensures forall i :: 0 <= i < |cs| ==> rs[i] == BrowserRecord(cs[i])
  {
    seq(|cs|, i requires 0 <= i < |cs| => BrowserRecord(cs[i]))
  }

  /** The conversion loop shared by the three flows: one entry per cookie, in order. */
  method ToCookieList(cookies: seq<BrowserCookie>) returns (cookieList: seq<CookieRecord>)
    ensures cookieList == BrowserRecords(cookies)
  {
    cookieList := [];
    for i := 0 to |cookies|
      invariant cookieList == BrowserRecords(cookies[..i])
    {
      cookieList := cookieList + [BrowserRecord(cookies[i])];
    }
    assert cookies[..|cookies|] == cookies;
  }

  /** A file written by the browser flow always loads in full: every entry installs,
      under the browser's own domain (the empty string when it had none, not the site
      domain), and a cookie not shadowed by a later one with the same key keeps its
      value; the load reports success exactly when the browser had cookies. */
  lemma BrowserRecordsLoad(jar: Collector.Jar, cs: seq<BrowserCookie>)
    ensures Collector.InstallRecords(jar, BrowserRecords(cs)).0
    ensures Collector.AfterLoadSaved(jar, Some(BrowserRecords(cs))).0 <==> cs != []
    ensures forall i :: 0 <= i < |cs| && (forall j :: i < j < |cs| ==> Collector.KeyOf(BrowserRecord(cs[j])) != Collector.KeyOf(BrowserRecord(cs[i]))) ==>
      var k := Collector.JarKey(cs[i].domain.GetOr(""), cs[i].path.GetOr("/"), cs[i].name);
      k in Collector.InstallRecords(jar, BrowserRecords(cs)).1 && Collector.InstallRecords(jar, BrowserRecords(cs)).1[k] == Collector.JarValue(cs[i].value)
  {
    var rs := BrowserRecords(cs);
    Collector.InstallRecordsVerdict(jar, rs);
    forall i | 0 <= i < |cs| && (forall j :: i < j < |cs| ==> Collector.KeyOf(BrowserRecord(cs[j])) != Collector.KeyOf(BrowserRecord(cs[i])))
      ensures var k := Collector.JarKey(cs[i].domain.GetOr(""), cs[i].path.GetOr("/"), cs[i].name);
        k in Collector.InstallRecords(jar, rs).1 && Collector.InstallRecords(jar, rs).1[k] == Collector.JarValue(cs[i].value)
    {
      Collector.InstallRecordsLastWins(jar, rs, i);
    }
  }

  // ---------------------------------------------------------------------------
  // The flows

  /** What the environment decides about the browser: the platform name and whether
      each launch succeeds. */
  datatype Installation = Installation(system: string, chromeOk: bool, chromiumOk: bool)

  /** What happens inside a launched browser: whether the page is obtained, what each
      poll sees, whether `context.cookies()` succeeds and what it returns. */
  datatype Session = Session(pageOk: bool, ticks: nat -> Tick, cookiesOk: bool, cookies: seq<BrowserCookie>)

  /** A flow gets as far as saving the browser's cookies. */
  predicate ReachesSave(inst: Installation, s: Session, timeout: int) {
    && Launch(inst.chromeOk, inst.chromiumOk).Some?
    && s.pageOk
    && Poll(s.ticks, timeout, 0, 0).success
    && s.cookiesOk
  }

  /** `extract_cookies_from_browser` on a headless persistent profile. A launch that
      raises twice, or cookies that cannot be read, give `None`; in the latter case
      the context is not closed explicitly. */
  method ExtractCookiesFromBrowser(inst: Installation, s: Session) returns (r: Option<seq<CookieRecord>>, closes: nat)
    ensures var ok := Launch(inst.chromeOk, inst.chromiumOk).Some? && s.cookiesOk;
      && r == (if ok then Some(BrowserRecords(s.cookies)) else None)
      && closes == (if ok then 1 else 0)
  {
    r, closes := None, 0;
    var context := Launch(inst.chromeOk, inst.chromiumOk);
    if context.None? || !s.cookiesOk {
      return;
    }
    closes := 1;
    var cookieList := ToCookieList(s.cookies);
    r := Some(cookieList);
  }

  class BrowserLogin {
    const manager: CookieManager
    const userDataDir: string

    /** `__init__`: a cookie manager on the default path and the profile directory. */
    constructor(fs: FileSystem, frozen: bool, home: string, moduleDir: string)
      ensures manager.fs == fs
      ensures manager.cookieFile == CookieFilePath(None, frozen, home, moduleDir)
      ensures userDataDir == UserDataDir(frozen, home, moduleDir)
    {
      manager := new CookieManager(fs, None, frozen, home, moduleDir);
      userDataDir := UserDataDir(frozen, home, moduleDir);
    }

    /** `launch_browser_for_login`: true exactly when the wait succeeded and the
        cookies were saved; the browser is closed once whenever it was launched; the
        cookie file changes only if the flow reached the save. */
    method LaunchBrowserForLogin(inst: Installation, s: Session, timeout: int, saveFault: SaveFault)
      returns (ok: bool, closes: nat)
      modifies manager.fs
      ensures closes == (if Launch(inst.chromeOk, inst.chromiumOk).Some? then 1 else 0)
      ensures ok <==> ReachesSave(inst, s, timeout) && saveFault == NoFault
      ensures manager.fs.files ==
        if ReachesSave(inst, s, timeout)
        then StoreAfterSave(old(manager.fs.files), manager.cookieFile, BrowserRecords(s.cookies), saveFault)
        else old(manager.fs.files)
    {
      var browser := Launch(inst.chromeOk, inst.chromiumOk);
      if browser.None? {
        return false, 0;
      }
      ok := false;
      if s.pageOk {
        var success, _, _, _ := WaitForLoginSuccess(s.ticks, timeout);
        if success && s.cookiesOk {
          var cookieList := ToCookieList(s.cookies);
          ok := manager.SaveCookies(cookieList, saveFault);
        }
      }
      closes := 1;
    }

    /** `launch_persistent_browser`: as above with the timeout fixed at 300 seconds,
        except that the result of the save is ignored. */
    method LaunchPersistentBrowser(inst: Installation, s: Session, saveFault: SaveFault)
      returns (ok: bool, closes: nat)
      modifies manager.fs
      ensures closes == (if Launch(inst.chromeOk, inst.chromiumOk).Some? then 1 else 0)
      ensures ok <==> ReachesSave(inst, s, PersistentTimeout)
      ensures manager.fs.files ==
        if ReachesSave(inst, s, PersistentTimeout)
        then StoreAfterSave(old(manager.fs.files), manager.cookieFile, BrowserRecords(s.cookies), saveFault)
        else old(manager.fs.files)
    {
      var context := Launch(inst.chromeOk, inst.chromiumOk);
      if context.None? {
        return false, 0;
      }
      ok := false;
      if s.pageOk {
        var success, _, _, _ := WaitForLoginSuccess(s.ticks, PersistentTimeout);
        if success && s.cookiesOk {
          var cookieList := ToCookieList(s.cookies);
          var _ := manager.SaveCookies(cookieList, saveFault);
          ok := true;
        }
      }
      closes := 1;
    }
  }
}
