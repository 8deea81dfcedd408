# yst_mcp session reuse, modelled in Dafny

yst_mcp collects a user's daily reports from the KPI site `kpi.drojian.dev`. The
site is reached through Google sign-in, so the tool logs in once in a real browser
and then reuses the session cookies. This project models that session-reuse core:

- **The cookie store** (`cookie_manager.py`). One JSON file holds the exported
  cookie list. It is overwritten on save, read back on load, and removed on clear.
  - Its default location is `~/.yst_mcp/data/cookies.json` in a packaged build and
    `data/cookies.json` beside the module in development.
  - The disk is a `FileSystem` object shared by every `CookieManager`. The browser
    flow and the collector each build their own manager over the same path.
- **The report collector** (`report_collector.py`). Its `requests` session jar is
  filled from a cookie header copied from a browser, from a dict, or from the store.
  - A probe of the report list decides whether the session is logged in.
  - A `YYYY-MM` range is expanded to months, one list page is fetched per month, and
    the reports are laid out as a Markdown document.
- **The browser login** (`browser_login.py`). A browser is launched: system Chrome
  first, the bundled Chromium as fallback.
  - The page URL is polled every seven seconds until it shows the user inside the
    site, or until the timeout passes.
  - The browser's cookies are then converted and saved to the store. Both flows
    are modelled: the ephemeral one and the persistent-profile one.
  - Cookie extraction from the headless persistent profile is modelled too.
- **The npm installer** (`npm-wrapper/scripts/postinstall.js`). Node's platform and
  architecture are mapped to release names.
  - The installer asks GitHub for the latest tag, falling back to the package
    version.
  - It builds the asset name and download URL, then downloads with a bounded number
    of retries per path of requests.

Everything outside the program is an input:

- the results of file operations (`SaveFault`, `removeOk`);
- each HTTP answer (oracle functions from URL, or from a request's path of retries,
  to a reply), and which of two concurrent retries settles first;
- each browser observation (`Tick`, `Session`, `Installation`);
- the packaged/development switch, the home directory and the module directory.

The model follows the code as written. Where the code does something its own
comments or design intent suggest otherwise, the model keeps the code's behaviour
and proves what that behaviour is:

- **The login verdict of the wait loop is two substring tests on the whole URL**,
  not a comparison of hosts (`BrowserLogin.VerdictIsSubstringBased`).
  - The site's own login page `https://kpi.drojian.dev/site/login` satisfies it
    (`BrowserLogin.LoginUrlIsAuthenticated`).
  - So does a foreign URL whose query mentions the site host.
  - A site URL whose query mentions `accounts.google.com` does not.
- **The collector's login probe disables redirects.** `requests` then reports the
  request URL itself, which contains no "login".
  - The verdict is therefore decided by the status alone: logged in exactly on a
    200 (`Collector.ProbeVerdictIsStatus`).
  - A redirect to the login page arrives as a 3xx status.
- **Importing a cookie header never fails.**
  - Pieces without `=` are skipped.
  - A header with no pair at all yields an empty dict and the import still reports
    true (`Collector.CookieDictWithoutEquals`).
  - A value keeps any further `=`, and a repeated name keeps its last value.
- **Saved cookies are installed under their stored domain**, whatever it is. Only a
  missing domain defaults to the site host.
  - A record lacking `name` or `value` raises inside the loop.
  - The load then reports false, but the records before it stay installed
    (`Collector.PartialInstall`).
  - The browser writes a missing domain as the empty string, so such a cookie
    comes back under domain `""` (`BrowserLogin.BrowserRecordsLoad`).
- **Saving is not atomic.** The file is opened for writing first.
  - A failure during the JSON dump leaves a truncated file. It still exists, but it
    loads as `None` (`CookieStore.TruncatedSave`).
- **A month's year may be written in the decimal digits of any script.** The `%Y`
  of `strptime` matches Unicode digits, so `２０２５-07` is July 2025
  (`Months.FullwidthYearExample`). The month must be ASCII, and `strftime` writes
  the year back in ASCII (`Months.FormatParse`).
- **The jar rewrites quoted values.** The `set` of a `requests` cookie jar drops
  every `\"` from a value that starts and ends with `"`. So `"x\"y"` is stored as
  `"xy"` (`Collector.JarValueExamples`).
  - Every load goes through this filing, so a saved jar is restored only with its
    values filed again (`Collector.ExportThenLoad`).
  - Filing a second time can change a value again.
- **A reversed month range is empty, not an error** (`Months.RangeExampleReversed`).
  A range ending in December 9999 raises, because the step past it overflows.
- **Polling stops at the first successful poll.** An exception in a poll's checks,
  even after the verdict, only costs one interval, as long as the handler's own
  `❌` message does not raise too. So "one corrective navigation" holds only for
  polls that do not raise after navigating (`BrowserLogin.PollNavigatesAtMostOnce`).
- **The persistent flow ignores the result of saving the cookies.** The ephemeral
  flow reports it.
- **Download redirects do not consume retries.** A server that keeps redirecting is
  followed indefinitely (`Installer.EndlessRedirects`).
- **A timeout retries twice.** The `timeout` handler calls `req.destroy()`, which
  ends the request with an `error` event, so both handlers schedule a retry.
  - Both retries run to the end, and the first to settle decides the call.
  - A request is named by its path of retries, and the retries form a tree.
  - With the default three retries, a lookup that keeps timing out makes 15
    requests, not 4 (`Installer.DefaultRetries`). Errors alone stay within
    `retries + 1` (`Installer.LatestVersionWithoutTimeouts`).
  - Downloads fork the same way, with both retries writing the same file.

Files:

| file | contents |
|---|---|
| `wrappers.dfy` | `Option` and `Result` |
| `text.dfy` | substring test, ASCII lower-casing, `split('; ')` and its inverse, first-`=` search, string order and sorting, decimal digits |
| `cookie_manager.dfy` | `CookieStore`: the file system, `CookieManager`, and clients proving its contract |
| `months.dfy` | `Months`: `YYYY-MM` parsing and formatting, month successor, the range loop |
| `report_collector.dfy` | `Collector`: header parsing, the jar, load and save, the probe, month pages, Markdown, `ReportCollector` |
| `browser_login.dfy` | `BrowserLogin`: URL tests, the wait loop, launching, cookie conversion, the three flows |
| `postinstall.dfy` | `Installer`: names, version lookup with retries, download with retries, `install` |

## Model

| member | source | states |
|---|---|---|
| CookieStore.CookieFilePathByMode | cookie_manager.py:24-42 | An explicit path is used verbatim. Otherwise the file is `cookies.json` under `~/.yst_mcp/data` in a packaged build, independent of the module directory. In development it sits under the module's `data`, independent of the home directory. |
| CookieStore.CookieManager.constructor | cookie_manager.py:31-43 | The manager uses the given disk and settles on the path above. |
| CookieStore.CookieManager.SaveCookies | cookie_manager.py:51-67 | Returns true exactly when writing succeeded. Success replaces the slot with the list. A failed `open` leaves the disk unchanged. A failed dump leaves the file truncated (unreadable). |
| CookieStore.CookieManager.LoadCookies | cookie_manager.py:69-85 | `None` for a missing or unreadable file; otherwise exactly the stored list. |
| CookieStore.CookieManager.HasCookies | cookie_manager.py:87-94 | True exactly when the file exists, whatever it holds. |
| CookieStore.CookieManager.ClearCookies | cookie_manager.py:96-110 | Clearing a missing file succeeds and changes nothing. Otherwise the result is whether removal succeeded, and only a successful removal deletes the file. |
| CookieStore.SaveThenLoad | cookie_manager.py:61-82 | A successful save is read back exactly, and the file then exists. |
| CookieStore.LastSaveWins | cookie_manager.py:61-64 | A second save replaces the first completely. |
| CookieStore.TruncatedSave | cookie_manager.py:61-85 | A save failing after truncation reports false. It leaves a file that exists yet loads as `None`. |
| CookieStore.ClearThenQuery | cookie_manager.py:96-110 | After a successful clear nothing is stored, and clearing again succeeds without change. A failed clear keeps the file. |
| Text.JoinSplit | report_collector.py:87 | Joining the pieces of `split('; ')` with `'; '` gives back the string. |
| Text.SplitJoin | report_collector.py:87 | `split('; ')` of a join of separator-free pieces gives back the pieces. |
| Text.SplitPiecesSepFree | report_collector.py:87 | No piece of `split('; ')` contains the separator. |
| Text.LowerKeepsOccurrence | report_collector.py:137 | A case variant of a word found in a URL is found, lower-cased, at the same place in the lower-cased URL. |
| Text.SortStrings | report_collector.py:288 | `sorted()` of the month keys is ordered and a permutation of them. |
| Text.DecimalDigit | report_collector.py:208-209 | A decimal digit of Unicode 15.0 has a value below 10. Below U+0660 exactly the ASCII digits are digits, with their usual values. |
| Months.ParseMonth | report_collector.py:208-209 | Whatever `strptime('%Y-%m')` accepts is a valid year (1..9999) and month (1..12). The text is four decimal digits of any script, `-`, and a one- or two-digit ASCII month. The year is the value of those four digits. |
| Months.FormatMonth | report_collector.py:214 | `strftime('%Y-%m')` always gives seven characters. |
| Months.ParseFormat | report_collector.py:208-214 | Parsing a formatted month gives back the month. |
| Months.FormatParse | report_collector.py:208-214 | Formatting a parsed seven-character month gives the text back with its year digits in ASCII. An all-ASCII text comes back unchanged. |
| Months.ShortMonthNormalised | report_collector.py:208-214 | `2025-7` parses and is written back as `2025-07`. Month 13, year 0 and month 0 are rejected. |
| Months.FullwidthYearExample | report_collector.py:208-214 | A year in fullwidth digits parses as 2025 and is written back in ASCII. |
| Months.NextMonthIsSuccessor | report_collector.py:215 | Adding one month gives the next month index. December rolls over to January of the next year, and December 9999 has no successor. |
| Months.MonthSpanShape | report_collector.py:211-217 | The range is empty exactly when start is after end. Otherwise it runs from start to end, each month followed by its successor, strictly increasing. |
| Months.MonthRangeDistinct | report_collector.py:197-217 | A successful range never lists a month twice. |
| Months.GenerateMonthRange | report_collector.py:197-217 | A malformed start, then a malformed end, is rejected. A range reaching December 9999 raises. Otherwise the result is the formatted months from start to end. |
| Months.StepMonths | report_collector.py:211-217 | The loop yields the formatted months from start to end. A range reaching December 9999 raises. |
| Months.RangeExample | report_collector.py:211-217 | July to September 2025 gives three months. |
| Months.RangeExampleAcrossYearEnd | report_collector.py:211-217 | November 2025 to February 2026 crosses the year end. |
| Months.RangeExampleReversed | report_collector.py:211-217 | A start after the end gives no months. |
| Collector.SplitAtEquals | report_collector.py:89 | `split('=', 1)`: the name has no `=`, and name, `=`, value rebuild the item. |
| Collector.ParseCookieString | report_collector.py:85-90 | The loop builds the dict of the `=`-holding pieces, assigned in order. |
| Collector.DictOfKeys | report_collector.py:86-90 | A name is in the dict exactly when some pair carries it. |
| Collector.DictOfLastWins | report_collector.py:90 | A pair not followed by another with its name gives the dict's value. |
| Collector.PairsSkipPlainPieces | report_collector.py:88 | Pieces without `=` contribute no pair. |
| Collector.CookieDictWithoutEquals | report_collector.py:85-91 | A header without `=` gives the empty dict. |
| Collector.SplitAtEqualsOfPair | report_collector.py:89 | A name without `=` is split back off `name=value`. |
| Collector.PairsOfPairTexts | report_collector.py:87-89 | The pairs of `name=value` pieces are those pairs. |
| Collector.CookieDictOfHeader | report_collector.py:75-91 | A header written from pairs (names without `=`, no `'; '` inside) parses back to exactly those pairs and to their dict. |
| Collector.HeaderExampleValueWithEquals | report_collector.py:89 | `k=v=w` gives `k` the value `v=w`. |
| Collector.HeaderExampleRepeatedName | report_collector.py:90 | `a=1; b=2; a=3` gives `a` the value `3`. |
| Collector.WithSiteCookies | report_collector.py:67-70 | Every dict entry is set under the site domain and path `/`, with its value as the jar files it. Nothing else is added, and every other cookie is kept. |
| Collector.KeyOf | report_collector.py:116-121 | A record is filed under its own domain and path where present, else under the site domain and `/`. |
| Collector.InstallRecordsVerdict | report_collector.py:114-125 | Loading the records succeeds exactly when every record has a name and a value. |
| Collector.PartialInstall | report_collector.py:114-125 | At the first incomplete record the load reports false. The jar keeps everything set before it. |
| Collector.InstallRecordsKeys | report_collector.py:115-121 | After a complete load the jar holds its old keys plus one key per record, nothing more. |
| Collector.InstallRecordsLastWins | report_collector.py:115-121 | A record not followed by another with its key sets that cookie to its value as the jar files it. |
| Collector.InstallRecordsUntouched | report_collector.py:115-121 | A cookie no record names keeps its value. |
| Collector.ExportRecord | report_collector.py:100-105 | A jar cookie is saved with all four keys and is filed back under its own key and value. |
| Collector.ExportJar | report_collector.py:98-105 | Every cookie of the jar is listed once, as a full record with its value. Nothing else is listed. |
| Collector.ExportThenLoad | report_collector.py:96-125 | Loading what was saved into an empty session restores the jar with every value filed again. A jar whose values filing leaves alone is restored exactly. The load reports true unless the jar was empty. |
| Collector.LoginStatusCases | report_collector.py:134-140 | An exception or a non-200 status means logged out. So does "login" in any letter case in the URL. A 200 without it means logged in. |
| Collector.ProbeVerdictIsStatus | report_collector.py:135-137 | For the report list URL the verdict is true exactly on status 200. |
| Collector.ParseReportItem | report_collector.py:182-195 | A report keeps the item's text. Its link is the first anchor's non-empty `href`, else empty. |
| Collector.MonthReports | report_collector.py:152-170 | An exception or a 4xx/5xx status gives no reports. Otherwise there is one report per list item, in order. |
| Collector.FetchMonthReports | report_collector.py:152-170 | The month's list URL is requested and answered as above. |
| Collector.Urls | report_collector.py:152 | One `?month=` URL per month, in order. |
| Collector.FetchAll | report_collector.py:262-267 | One request per month in order, each month filed with its own reports. |
| Collector.FailureIsolation | report_collector.py:262-267 | The collected map has exactly the range's months. Each entry depends only on that month's own reply, so one failing month leaves the others intact. |
| Collector.TotalCountsAnsweredItems | report_collector.py:273 | The reported total is the number of list items on the pages that did not fail. |
| Collector.GenerateMarkdown | report_collector.py:276-300 | The lines written are the document: the title, then one section per month in sorted order. |
| Collector.SectionsLines | report_collector.py:288-300 | The loop over the months writes exactly their sections, in the order given, each month's reports under its heading. |
| Collector.SectionLines | report_collector.py:288-300 | A month's section: a heading with its count, then `*暂无数据*` or numbered entries with optional link lines and rules. |
| Collector.SectionHeadings | report_collector.py:290 | A section has exactly one heading, its month with its report count. |
| Collector.SectionsHeadings | report_collector.py:288-290 | The headings of the sections are the months in order, each with its count. |
| Collector.DocumentHeadings | report_collector.py:288-290 | The document's headings are the sorted months, a permutation of the keys, each with its count. |
| Collector.LinkLines | report_collector.py:298-299 | A link line appears exactly for the non-empty links of the reports. |
| Collector.EntriesHaveNoMarker | report_collector.py:292-300 | Entries never contain the no-data marker. |
| Collector.SectionMarker | report_collector.py:290-294 | The marker appears exactly for a month without reports, whose section is heading and marker only. |
| Collector.ResolveOutputPathCases | report_collector.py:232-237 | No name gives `new.md` in the default directory. An absolute path is kept, and a relative one is joined to the default directory. With an absolute directory the result is absolute and resolving it again changes nothing. |
| Collector.OutputDirBesideCookies | report_collector.py:34-39 | In development the output directory is the cookie file's data directory. In a packaged build it is a different one. |
| Collector.ReportCollector.constructor | report_collector.py:41-46 | A store on the default path, the default output directory, an empty jar. |
| Collector.ReportCollector.LoadCookiesFromDict | report_collector.py:57-73 | Reports true, and the jar gains the dict under the site domain, each value as the jar files it. |
| Collector.ReportCollector.LoadCookiesFromString | report_collector.py:75-94 | Reports true, and the jar gains the header's dict under the site domain, each value as the jar files it. |
| Collector.ReportCollector.SaveCurrentCookies | report_collector.py:96-106 | The file receives an export of the jar, with the store's three save outcomes. |
| Collector.ReportCollector.LoadSavedCookies | report_collector.py:108-125 | False with the jar unchanged for a missing, unreadable or empty file. Otherwise it is the record-by-record load above. |
| Collector.ReportCollector.Collect | report_collector.py:219-274 | Saved cookies are loaded when the file exists. A probe other than 200 gives "not logged in" with no month fetched. A bad range fails with no month fetched. Otherwise every month is fetched once, and the result carries month count, total, resolved output path and document. |
| BrowserLogin.TargetUrlIsAuthenticated | browser_login.py:366-372 | The report list URL passes the verdict and needs no navigation. |
| BrowserLogin.LoginUrlIsAuthenticated | browser_login.py:366-372 | The site's login URL passes the verdict too, and triggers the corrective navigation. |
| BrowserLogin.VerdictIsSubstringBased | browser_login.py:366-367 | A foreign host mentioning the site passes. A site URL mentioning the identity provider fails. |
| BrowserLogin.WaitForLoginSuccess | browser_login.py:332-409 | The loop's result, poll count, navigations and elapsed time are those of the polling specification. |
| BrowserLogin.PollDeadline | browser_login.py:357-409 | False only once the elapsed time reached the timeout. True only from a poll before it that succeeded. At most one navigation per poll. |
| BrowserLogin.PollOvershoot | browser_login.py:357-405 | If polls take at most `w` seconds, a failed wait ends before `timeout + w + 7`. |
| BrowserLogin.PollFirstSuccess | browser_login.py:357-392 | The loop returns at the first successful poll. A failed wait saw no successful poll. |
| BrowserLogin.PollNavigatesAtMostOnce | browser_login.py:371-392 | Without exceptions after navigating, the target is requested at most once, and only by the final successful poll from a page off the report list. |
| BrowserLogin.PollIgnoresNavigationResult | browser_login.py:375-392 | Whether the navigation succeeds and where it lands does not change the outcome. |
| BrowserLogin.PollCountWithoutLogin | browser_login.py:351-399 | With instantaneous polls that never succeed, one poll per started seven-second interval. |
| BrowserLogin.DefaultTimeoutPolls | browser_login.py:285 | The 300-second wait with nobody logging in makes 43 polls and fails. |
| BrowserLogin.Launch | browser_login.py:102-126 | System Chrome when it launches, else Chromium when that launches, else nothing. |
| BrowserLogin.GetBrowserArgs | browser_login.py:46-77 | The arguments are the platform's list. |
| BrowserLogin.BrowserArgsByPlatform | browser_login.py:54-77 | Always starts maximised. The sandbox and shared-memory flags are on Windows and Linux only, GPU and automation flags on Windows only. The list has 5, 3 or 1 entries and no flag twice. |
| BrowserLogin.ProfileBesideCookieFile | browser_login.py:31-36 | The browser profile and the default cookie file share one data directory. |
| BrowserLogin.BrowserRecord | browser_login.py:174-179 | A browser cookie becomes a complete record keyed by its domain (empty if missing) and path (`/` if missing), with its value. |
| BrowserLogin.BrowserRecords | browser_login.py:172-179 | One record per cookie, in order. |
| BrowserLogin.ToCookieList | browser_login.py:172-179 | The conversion loop produces those records. |
| BrowserLogin.BrowserRecordsLoad | browser_login.py:174-179 | A file the browser wrote always loads in full. Each cookie is filed under the browser's own domain with its value as the jar files it. The load reports true exactly when there were cookies. |
| BrowserLogin.ExtractCookiesFromBrowser | browser_login.py:411-448 | The converted cookies when a launch succeeds and the cookies can be read, else `None`. The context is closed only in the first case. |
| BrowserLogin.BrowserLogin.constructor | browser_login.py:38-44 | A manager on the default cookie path and the profile directory. |
| BrowserLogin.BrowserLogin.LaunchBrowserForLogin | browser_login.py:79-210 | True exactly when launch, page, wait and cookie reading succeed and the save succeeds. The browser is closed once whenever launched. The file changes only if the save was reached. |
| BrowserLogin.BrowserLogin.LaunchPersistentBrowser | browser_login.py:212-330 | As above with timeout 300, except that the save's result does not matter. |
| Installer.PlatformInfoCases | npm-wrapper/scripts/postinstall.js:18-53 | Exactly darwin, linux and win32 on x64 and arm64 are supported. An unsupported platform is reported before the arch. win32 becomes windows and x64 becomes amd64. |
| Installer.PlatformInfoInjective | npm-wrapper/scripts/postinstall.js:26-50 | Different supported inputs give different release names. |
| Installer.ArchiveNameSuffix | npm-wrapper/scripts/postinstall.js:191-192 | Binary and asset end in `.exe` together, exactly on Windows. |
| Installer.ArchiveNameHasNoSlash | npm-wrapper/scripts/postinstall.js:192 | The asset name has no `/`. |
| Installer.ArchiveNameInjective | npm-wrapper/scripts/postinstall.js:192 | The six supported combinations have six different asset names. |
| Installer.DownloadUrlDecodes | npm-wrapper/scripts/postinstall.js:193 | The URL's last segment is the asset, and the text between the fixed prefix and it is the tag. |
| Installer.DownloadUrlInjective | npm-wrapper/scripts/postinstall.js:193 | Different tags or assets give different URLs. |
| Installer.GetPackageVersion | npm-wrapper/scripts/postinstall.js:8-15 | Always starts with `v`. It is `v1.0.0` when the package file cannot be read, `v` followed by the version otherwise, and `vundefined` when the version field is missing. |
| Installer.LatestVersionRequests | npm-wrapper/scripts/postinstall.js:85-106 | A lookup makes between 1 and `2^(retries + 1) - 1` requests. |
| Installer.LatestVersionDecider | npm-wrapper/scripts/postinstall.js:56-108 | The settling request is at most `retries` retries deep, and every earlier request on its path failed at the network level. Its reply decides: a 200 gives its tag, or `undefined` when the tag is missing; an unparsed body gives a JSON error; another status gives that status. The lookup gives up on the network exactly when that reply is a failure, and only at full depth. |
| Installer.LatestVersionWithoutTimeouts | npm-wrapper/scripts/postinstall.js:85-94 | Without timeouts the retries form one chain of at most `retries + 1` requests. |
| Installer.LatestVersionAllTimeouts | npm-wrapper/scripts/postinstall.js:96-106 | When every request times out, the lookup fails with the timeout after `2^(retries + 1) - 1` requests. |
| Installer.DefaultRetries | npm-wrapper/scripts/postinstall.js:56-106 | With the default three retries, errors alone stop after 4 requests, but timeouts alone make 15. |
| Installer.DownloadRequests | npm-wrapper/scripts/postinstall.js:111-168 | A download following at most `fuel` requests per path makes at most `2^fuel - 1` requests in all, and at least one unless it is pending. |
| Installer.DownloadRetries | npm-wrapper/scripts/postinstall.js:111-168 | The settling request lies below the first, and a pending download used its whole fuel on that path. Only errors and timeouts on that path count as failures, never redirects. There are at most `retries + 1` of them, and giving up on the network takes all of them. |
| Installer.DownloadLastReply | npm-wrapper/scripts/postinstall.js:115-164 | A file is saved only from a 200. A status rejection comes from a settling reply that was neither a redirect nor 200. A network give-up is the settling request's own error or timeout. |
| Installer.DownloadWithoutTimeouts | npm-wrapper/scripts/postinstall.js:115-149 | Without timeouts nothing forks: every request made lies on the settling path. |
| Installer.DownloadAllTimeouts | npm-wrapper/scripts/postinstall.js:151-164 | When every request times out, the download fails with the timeout after `2^(retries + 1) - 1` requests, with all `retries + 1` failures on the settling path. |
| Installer.EndlessRedirects | npm-wrapper/scripts/postinstall.js:116-121 | A server that always redirects is followed for as many requests as allowed, with no failure counted. |
| Installer.Install | npm-wrapper/scripts/postinstall.js:170-263 | Unsupported platform or arch fails first. The tag is the latest release's, else the package's. The retry that settles the download first decides the outcome. The binary is installed from the release URL and made executable exactly when it is not a `.exe`. |

## Left out

- Real I/O is not modelled: file contents, JSON encoding, directory creation
  (`_ensure_data_dir`, `mkdir`), console output and logging.
- Playwright is not modelled beyond its observable results. Viewport, user agent,
  headless mode, the initial navigation (whose failure is ignored) and the sleeps
  are left out.
- The `requests` session headers (`_setup_headers`) are left out. Server
  `Set-Cookie` updates to the jar are left out as well.
- A cookie value of JSON `null` is left out: the model's stored values are strings
  or missing. `requests` would delete the cookie instead of setting it.
- A cookie file whose JSON is not a list of objects is left out. The model's file
  is a list of records, or unreadable.
- The Markdown file write is left out. The timestamp line and `raw_html` are left
  out too; the document is returned as lines.
- Lower-casing covers ASCII letters only.
- Decimal digits follow Unicode 15.0, the version Python 3.12 ships. Other Python
  versions use other tables.
- Path handling is left out: Windows separators and drive letters, and `pathlib`
  normalisation. `os.path.isabs` is modelled as a leading `/`.
- Years below 1000 are left out: `strftime` padding for them is platform-dependent.
- Collector.ReportCollector.SaveCurrentCookies: the order of the saved records is
  left open, because `http.cookiejar` iteration order is not modelled.
- BrowserLogin.WaitForLoginSuccess: time is whole seconds. Each poll's own duration
  is an input, and the sleep is exactly seven seconds. The `except` handler is
  assumed not to raise. Its own `❌` print can fail on a console that cannot encode
  it, and that exception would leave the loop.
- BrowserLogin.BrowserLogin.LaunchBrowserForLogin: `browser.close()` raising is not
  modelled, nor is a cookie lacking `name` or `value` (Playwright always supplies
  both).
- BrowserLogin.BrowserLogin.LaunchPersistentBrowser: the same two omissions, for
  `context.close()`.
- Installer.DownloadBinary follows at most `fuel` requests on each path. A longer
  redirect chain is reported as pending, where the script would keep following it.
  Of two forked retries, one that settles within the fuel is taken to settle first.
- Installer.DownloadBinary: a timeout is modelled only before any response. A
  timeout during streaming is not modelled.
- Installer.Install: the file that two concurrent download retries both write is
  not modelled. The model records only which retry settles first, as an input.
- Installer.Install: the 2-second retry delay, `chmod`, `statSync`, the size
  display and `process.exit` are left out. Streaming to the file is left out too,
  and a response that fails mid-stream is not modelled.
- `server.py`, `logger.py`, `playwright_hook.py` and the test scripts are not part
  of this model.
