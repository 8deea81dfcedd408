/** The report collector of `report_collector.py`: it fills a `requests` session's
    cookie jar (from a browser-copied cookie header, from a dict, or from the cookie
    store), probes whether the session is logged in, expands a month range, fetches
    one report list per month, and lays the reports out as a Markdown document.
    HTTP is replaced by oracles: `probe` gives the status of the login probe (or
    `None` when it raises) for the jar that is sent, `pages` answers a month's list URL with a status and the parsed list
    items. */
module Collector {
  import opened Wrappers
  import opened Text
  import opened CookieStore
  import opened Months

  const BaseUrl: string := "https://kpi.drojian.dev"
  const LoginUrl: string := BaseUrl + "/site/login"
  const ReportListUrl: string := BaseUrl + "/report/report-daily/my-list"
  /** The domain every cookie imported from a header or a dict is filed under. */
  const SiteDomain: string := "kpi.drojian.dev"

  // ---------------------------------------------------------------------------
  // The cookie header `name1=value1; name2=value2`

  /** `item.split('=', 1)` for an item holding '=': the text before the first '='
      and everything after it, which may hold further '='. */
  function SplitAtEquals(item: string): (nv: (string, string))
    requires '=' in item
    ensures nv.0 + "=" + nv.1 == item && '=' !in nv.0
  {
    var i := IndexOf(item, '=');
    assert item == item[..i] + "=" + item[i + 1..];
    (item[..i], item[i + 1..])
  }

  /** The name-value pairs of the pieces that hold '=', in order; the other pieces
      are skipped. */
  function Pairs(pieces: seq<string>): seq<(string, string)> {
    if pieces == [] then []
    else
      var last := pieces[|pieces| - 1];
      Pairs(pieces[..|pieces| - 1]) + (if '=' in last then [SplitAtEquals(last)] else [])
  }

  /** The dict built by assigning the pairs in order. */
  function DictOf(ps: seq<(string, string)>): map<string, string> {
    if ps == [] then map[]
    else DictOf(ps[..|ps| - 1])[ps[|ps| - 1].0 := ps[|ps| - 1].1]
  }

  /** The dict `load_cookies_from_string` builds from `s`. */
  function CookieDict(s: string): map<string, string> {
    DictOf(Pairs(Split(s)))
  }

  /** The loop of `load_cookies_from_string` that builds the dict. */
  method ParseCookieString(cookieString: string) returns (d: map<string, string>)
    ensures d == CookieDict(cookieString)
  {
    var items := Split(cookieString);
    d := map[];
    var i := 0;
    while i < |items|
      invariant 0 <= i <= |items|
      invariant d == DictOf(Pairs(items[..i]))
    {
      assert items[..i + 1][..i] == items[..i];
      var item := items[i];
      ghost var ps := Pairs(items[..i]);
      assert Pairs(items[..i + 1]) == ps + (if '=' in item then [SplitAtEquals(item)] else []);
      if '=' in item {
        var nv := SplitAtEquals(item);
        assert (ps + [nv])[..|ps|] == ps;
        d := d[nv.0 := nv.1];
      } else {
        assert ps + [] == ps;
      }
      i := i + 1;
    }
    assert items[..|items|] == items;
  }

  /** A name is a key of the dict exactly when some pair carries it. */
  lemma {:induction false} DictOfKeys(ps: seq<(string, string)>)
    ensures forall k :: k in DictOf(ps) <==> exists i :: 0 <= i < |ps| && ps[i].0 == k
    decreases |ps|
  {
    if ps != [] {
      var init := ps[..|ps| - 1];
      DictOfKeys(init);
      forall k ensures k in DictOf(ps) <==> exists i :: 0 <= i < |ps| && ps[i].0 == k {
        if k in DictOf(ps) && k != ps[|ps| - 1].0 {
          assert k in DictOf(init);
          var i :| 0 <= i < |init| && init[i].0 == k;
          assert ps[i] == init[i];
        }
        if (exists i :: 0 <= i < |ps| && ps[i].0 == k) && k != ps[|ps| - 1].0 {
          var i :| 0 <= i < |ps| && ps[i].0 == k;
          assert init[i] == ps[i];
        }
      }
    }
  }

  /** The last pair with a given name decides its value: a later duplicate
      overwrites an earlier one. */
  lemma {:induction false} DictOfLastWins(ps: seq<(string, string)>, i: int)
    requires 0 <= i < |ps|
    requires forall j :: i < j < |ps| ==> ps[j].0 != ps[i].0
    ensures ps[i].0 in DictOf(ps) && DictOf(ps)[ps[i].0] == ps[i].1
    decreases |ps|
  {
    if i < |ps| - 1 {
      var init := ps[..|ps| - 1];
      assert forall j :: i < j < |init| ==> init[j] == ps[j];
      DictOfLastWins(init, i);
    }
  }

  /** Only pieces that hold '=' contribute, so a header without any '=' gives the
      empty dict. */
  lemma {:induction false} PairsSkipPlainPieces(pieces: seq<string>)
    requires forall p :: p in pieces ==> '=' !in p
    ensures Pairs(pieces) == []
    decreases |pieces|
  {
    if pieces != [] {
      PairsSkipPlainPieces(pieces[..|pieces| - 1]);
    }
  }

  lemma CookieDictWithoutEquals(s: string)
    requires '=' !in s
    ensures CookieDict(s) == map[]
  {
    SplitPiecesLack(s, '=');
    PairsSkipPlainPieces(Split(s));
  }

  /** `name=value` for one pair. */
  function PairText(nv: (string, string)): string {
    nv.0 + "=" + nv.1
  }

  /** The header a browser sends for these pairs: `name=value` items joined by "; ". */
  function HeaderOf(ps: seq<(string, string)>): string
    requires |ps| >= 1
  {
    Join(seq(|ps|, i requires 0 <= i < |ps| => PairText(ps[i])))
  }

  /** A pair whose name holds no '=' and whose item holds no "; " can be written
      into a header and read back. */
  predicate HeaderSafe(nv: (string, string)) {
    '=' !in nv.0 && SepFree(PairText(nv))
  }

  lemma SplitAtEqualsOfPair(nv: (string, string))
    requires '=' !in nv.0
    ensures SplitAtEquals(PairText(nv)) == nv
  {
    IndexOfAfter(nv.0, "=" + nv.1, '=');
    assert PairText(nv) == nv.0 + ("=" + nv.1);
  }

  lemma {:induction false} PairsOfPairTexts(ps: seq<(string, string)>)
    requires forall i :: 0 <= i < |ps| ==> '=' !in ps[i].0
    ensures Pairs(seq(|ps|, i requires 0 <= i < |ps| => PairText(ps[i]))) == ps
    decreases |ps|
  {
    var items := seq(|ps|, i requires 0 <= i < |ps| => PairText(ps[i]));
    if ps != [] {
      var init := ps[..|ps| - 1];
      PairsOfPairTexts(init);
      assert items[..|items| - 1] == seq(|init|, i requires 0 <= i < |init| => PairText(init[i]));
      SplitAtEqualsOfPair(ps[|ps| - 1]);
      assert '=' in PairText(ps[|ps| - 1]) by {
        assert PairText(ps[|ps| - 1])[|ps[|ps| - 1].0|] == '=';
      }
      assert ps == init + [ps[|ps| - 1]];
    }
  }

  /** Parsing a header written from header-safe pairs gives the pairs back, so the
      parsed dict is the dict of those pairs. */
  lemma CookieDictOfHeader(ps: seq<(string, string)>)
    requires |ps| >= 1
    requires forall i :: 0 <= i < |ps| ==> HeaderSafe(ps[i])
    ensures Pairs(Split(HeaderOf(ps))) == ps
    ensures CookieDict(HeaderOf(ps)) == DictOf(ps)
  {
    var items := seq(|ps|, i requires 0 <= i < |ps| => PairText(ps[i]));
    SplitJoin(items);
    PairsOfPairTexts(ps);
  }

  /** Header examples: a value keeps its later '='; a repeated name keeps its last
      value. */
  lemma HeaderExampleValueWithEquals()
    ensures CookieDict(HeaderOf([("k", "v=w")])) == map["k" := "v=w"]
  {
    assert HeaderSafe(("k", "v=w")) by {
      assert PairText(("k", "v=w")) == "k=v=w";
    }
    CookieDictOfHeader([("k", "v=w")]);
    assert [("k", "v=w")][..0] == [];
  }

  lemma HeaderExampleRepeatedName()
    ensures CookieDict(HeaderOf([("a", "1"), ("b", "2"), ("a", "3")])) == map["a" := "3", "b" := "2"]
  {
    var ps := [("a", "1"), ("b", "2"), ("a", "3")];
    forall i | 0 <= i < |ps| ensures HeaderSafe(ps[i]) {
      var t := PairText(ps[i]);
      assert |t| == 3 && t[1] == '=' && t[0] != ';' && t[1] != ';';
    }
    CookieDictOfHeader(ps);
    var ps2, ps1 := ps[..2], ps[..2][..1];
    assert ps2 == [("a", "1"), ("b", "2")] && ps1 == [("a", "1")] && ps1[..0] == [];
    assert DictOf(ps) == DictOf(ps2)["a" := "3"];
    assert DictOf(ps2) == DictOf(ps1)["b" := "2"];
    assert DictOf(ps1) == map["a" := "1"];
  }

  // ---------------------------------------------------------------------------
  // The session's cookie jar

  /** `http.cookiejar` files a cookie under its domain, path and name. */
  datatype JarKey = JarKey(domain: string, path: string, name: string)

  type Jar = map<JarKey, string>

  /** Removes every `\"` pair, scanning from the left as `str.replace('\\"', '')`
      does. */
  function DropEscapedQuotes(s: string): (r: string)
    ensures |r| <= |s|
  {
    if |s| >= 2 && s[0] == '\\' && s[1] == '"' then DropEscapedQuotes(s[2..])
    else if s == [] then []
    else [s[0]] + DropEscapedQuotes(s[1..])
  }

  predicate HasEscapedQuote(s: string) {
    exists i :: 0 <= i < |s| - 1 && s[i] == '\\' && s[i + 1] == '"'
  }

  predicate Quoted(v: string) {
    |v| >= 1 && v[0] == '"' && v[|v| - 1] == '"'
  }

  /** The value `RequestsCookieJar.set_cookie` files for `v`: a value that starts and
      ends with `"` loses every `\"`; any other value is filed as given. */
  function JarValue(v: string): string {
    if Quoted(v) then DropEscapedQuotes(v) else v
  }

  /** The scan changes a string exactly when it holds a `\"` pair, and then it
      shortens it. */
  lemma {:induction false} DropEscapedQuotesChanges(s: string)
    ensures !HasEscapedQuote(s) ==> DropEscapedQuotes(s) == s
    ensures HasEscapedQuote(s) ==> |DropEscapedQuotes(s)| < |s|
    decreases |s|
  {
    if |s| >= 2 && s[0] == '\\' && s[1] == '"' {
      assert HasEscapedQuote(s);
    } else if s != [] {
      var t := s[1..];
      DropEscapedQuotesChanges(t);
      if HasEscapedQuote(s) {
        var i :| 0 <= i < |s| - 1 && s[i] == '\\' && s[i + 1] == '"';
        assert i > 0 && t[i - 1] == s[i] && t[i] == s[i + 1];
      }
      if HasEscapedQuote(t) {
        var i :| 0 <= i < |t| - 1 && t[i] == '\\' && t[i + 1] == '"';
        assert s[i + 1] == t[i] && s[i + 2] == t[i + 1];
      }
      assert [s[0]] + t == s;
    }
  }

  /** A value is filed unchanged exactly when it is not quoted or holds no `\"`. */
  lemma JarValueKeeps(v: string)
    ensures JarValue(v) == v <==> !(Quoted(v) && HasEscapedQuote(v))
  {
    DropEscapedQuotesChanges(v);
  }

  /** Values as filed: `"x\"y"` loses its escape, an unquoted value keeps it, and a
      filed value may change again when it is filed a second time. */
  lemma JarValueExamples()
    ensures JarValue("\"x\\\"y\"") == "\"xy\""
    ensures JarValue("x\\\"y") == "x\\\"y"
    ensures JarValue("\"\\\\\"\"") == "\"\\\"" && JarValue("\"\\\"") == "\""
  {
    var a := "\"x\\\"y\"";
    assert a[1..][1..] == "\\\"y\"" && a[1..][1..][2..] == "y\"";
    var b := "\"\\\\\"\"";
    assert b[1..][1..] == "\\\"\"" && b[1..][1..][2..] == "\"";
    var c := "\"\\\"";
    assert c[1..] == "\\\"";
  }

  /** A key `load_cookies_from_dict(d)` sets: site domain, path `/`, a name of `d`. */
  predicate SetFrom(k: JarKey, d: map<string, string>) {
    k.domain == SiteDomain && k.path == "/" && k.name in d
  }

  /** The jar after `load_cookies_from_dict(d)`: every name is set under the site
      domain and the default path `/`, its value filed as `set_cookie` files it;
      other cookies are kept. */
  function WithSiteCookies(jar: Jar, d: map<string, string>): (r: Jar)
    ensures forall n :: n in d ==> JarKey(SiteDomain, "/", n) in r && r[JarKey(SiteDomain, "/", n)] == JarValue(d[n])
    ensures forall k :: k in r && k !in jar ==> SetFrom(k, d)
    ensures forall k :: k in jar && !SetFrom(k, d) ==> k in r && r[k] == jar[k]
  {
    jar + map n | n in d :: JarKey(SiteDomain, "/", n) := JarValue(d[n])
  }

  /** The three clauses above determine the jar: any jar that has the site keys with
      their filed values, and otherwise exactly the old cookies, is that jar. */
  lemma WithSiteCookiesUnique(jar: Jar, d: map<string, string>, r: Jar)
    requires forall k :: k in r <==> k in jar || SetFrom(k, d)
    requires forall k :: k in r && SetFrom(k, d) ==> r[k] == JarValue(d[k.name])
    requires forall k :: k in r && !SetFrom(k, d) ==> k in jar && r[k] == jar[k]
    ensures r == WithSiteCookies(jar, d)
  {
    var w := WithSiteCookies(jar, d);
    forall k | k in r ensures k in w && w[k] == r[k] {
      if SetFrom(k, d) {
        assert k == JarKey(SiteDomain, "/", k.name);
      }
    }
    forall k | k in w ensures k in r {
    }
    assert r.Keys == w.Keys;
  }

  /** `jar` is `before` with the entries of `done` set as `load_cookies_from_dict` sets
      them. */
  ghost predicate SitesSet(before: Jar, done: map<string, string>, jar: Jar) {
    && (forall k :: k in jar <==> k in before || SetFrom(k, done))
    && (forall k :: k in jar && SetFrom(k, done) ==> jar[k] == JarValue(done[k.name]))
    && (forall k :: k in jar && !SetFrom(k, done) ==> k in before && jar[k] == before[k])
  }

  /** Setting one more entry keeps the description. */
  lemma SitesSetStep(before: Jar, done: map<string, string>, jar: Jar, n: string, v: string)
    requires SitesSet(before, done, jar)
    ensures SitesSet(before, done[n := v], jar[JarKey(SiteDomain, "/", n) := JarValue(v)])
  {
  }

  /** Halfway through loading `d`: the names in `rest` are still to be set, those in
      `done` have been set to their values in `d`. */
  ghost predicate Loading(before: Jar, d: map<string, string>, rest: set<string>, done: map<string, string>, jar: Jar) {
    && rest !! done.Keys && rest + done.Keys == d.Keys
    && (forall n :: n in done ==> done[n] == d[n])
    && SitesSet(before, done, jar)
  }

  lemma LoadingStep(before: Jar, d: map<string, string>, rest: set<string>, done: map<string, string>, jar: Jar, n: string)
    requires Loading(before, d, rest, done, jar) && n in rest
    ensures Loading(before, d, rest - {n}, done[n := d[n]], jar[JarKey(SiteDomain, "/", n) := JarValue(d[n])])
  {
    SitesSetStep(before, done, jar, n, d[n]);
  }

  lemma LoadingDone(before: Jar, d: map<string, string>, done: map<string, string>, jar: Jar)
    requires Loading(before, d, {}, done, jar)
    ensures jar == WithSiteCookies(before, d)
  {
    assert done == d;
    WithSiteCookiesUnique(before, d, jar);
  }

  /** A cookie-file record carries the keys `load_saved_cookies` indexes. */
  predicate Complete(r: CookieRecord) {
    r.name.Some? && r.value.Some?
  }

  /** The jar key of a record: its own domain and path where present, else the site
      domain and `/`. Only complete records are ever filed. */
  function KeyOf(r: CookieRecord): (k: JarKey)
    ensures r.name.Some? ==> k.name == r.name.value
    ensures r.domain.None? ==> k.domain == SiteDomain
    ensures r.path.None? ==> k.path == "/"
    ensures r.domain.Some? ==> k.domain == r.domain.value
    ensures r.path.Some? ==> k.path == r.path.value
  {
    JarKey(r.domain.GetOr(SiteDomain), r.path.GetOr("/"), r.name.GetOr(""))
  }

  /** The loop of `load_saved_cookies`: records are set in order; the first record
      without a name or value raises `KeyError`, which ends the loop with false and
      keeps the records set before it. */
  function InstallRecords(jar: Jar, recs: seq<CookieRecord>): (bool, Jar)
    decreases |recs|
  {
    if recs == [] then (true, jar)
    else if !Complete(recs[0]) then (false, jar)
    else InstallRecords(jar[KeyOf(recs[0]) := JarValue(recs[0].value.value)], recs[1..])
  }

  /** `load_saved_cookies` given what `load_cookies` returned: false with the jar
      untouched for a missing, unreadable or empty file. */
  function AfterLoadSaved(jar: Jar, snap: Option<seq<CookieRecord>>): (bool, Jar) {
    if snap.None? || snap.value == [] then (false, jar) else InstallRecords(jar, snap.value)
  }

  /** The install succeeds exactly when every record is complete. */
  lemma {:induction false} InstallRecordsVerdict(jar: Jar, recs: seq<CookieRecord>)
    ensures InstallRecords(jar, recs).0 <==> forall i :: 0 <= i < |recs| ==> Complete(recs[i])
    decreases |recs|
  {
    if recs != [] && Complete(recs[0]) {
      InstallRecordsVerdict(jar[KeyOf(recs[0]) := JarValue(recs[0].value.value)], recs[1..]);
      assert forall i :: 0 < i < |recs| ==> recs[i] == recs[1..][i - 1];
    }
  }

  /** At the first incomplete record the install stops, keeping what the complete
      records before it set. */
  lemma {:induction false} PartialInstall(jar: Jar, recs: seq<CookieRecord>, i: int)
    requires 0 <= i < |recs| && !Complete(recs[i])
    requires forall j :: 0 <= j < i ==> Complete(recs[j])
    ensures InstallRecords(jar, recs) == (false, InstallRecords(jar, recs[..i]).1)
    ensures InstallRecords(jar, recs[..i]).0
    decreases i
  {
    if i > 0 {
      var jar' := jar[KeyOf(recs[0]) := JarValue(recs[0].value.value)];
      PartialInstall(jar', recs[1..], i - 1);
      assert recs[..i][1..] == recs[1..][..i - 1];
    }
  }

  /** What a complete install leaves: every record's key, holding the value of the
      last record with that key; every other key as it was. */
  lemma {:induction false} InstallRecordsKeys(jar: Jar, recs: seq<CookieRecord>)
    requires forall i :: 0 <= i < |recs| ==> Complete(recs[i])
    ensures forall k :: k in InstallRecords(jar, recs).1 <==> k in jar || exists i :: 0 <= i < |recs| && KeyOf(recs[i]) == k
    decreases |recs|
  {
    if recs != [] {
      var jar' := jar[KeyOf(recs[0]) := JarValue(recs[0].value.value)];
      var tail := recs[1..];
      InstallRecordsKeys(jar', tail);
      var r := InstallRecords(jar, recs).1;
      assert r == InstallRecords(jar', tail).1;
      forall k ensures k in r <==> k in jar || exists i :: 0 <= i < |recs| && KeyOf(recs[i]) == k {
        if k in r && k !in jar && k != KeyOf(recs[0]) {
          var i :| 0 <= i < |tail| && KeyOf(tail[i]) == k;
          assert recs[i + 1] == tail[i];
        }
        if exists i :: 0 <= i < |recs| && KeyOf(recs[i]) == k {
          var i :| 0 <= i < |recs| && KeyOf(recs[i]) == k;
          if i > 0 {
            assert tail[i - 1] == recs[i];
          }
        }
      }
    }
  }

  lemma {:induction false} InstallRecordsLastWins(jar: Jar, recs: seq<CookieRecord>, i: int)
    requires forall j :: 0 <= j < |recs| ==> Complete(recs[j])
    requires 0 <= i < |recs|
    requires forall j :: i < j < |recs| ==> KeyOf(recs[j]) != KeyOf(recs[i])
    ensures KeyOf(recs[i]) in InstallRecords(jar, recs).1
    ensures recs[i].value.Some? && InstallRecords(jar, recs).1[KeyOf(recs[i])] == JarValue(recs[i].value.value)
    decreases |recs|
  {
    var jar' := jar[KeyOf(recs[0]) := JarValue(recs[0].value.value)];
    var tail := recs[1..];
    if i == 0 {
      InstallRecordsUntouched(jar', tail, KeyOf(recs[0]));
    } else {
      assert forall j :: 0 <= j < |tail| ==> tail[j] == recs[j + 1];
      InstallRecordsLastWins(jar', tail, i - 1);
    }
  }

  lemma {:induction false} InstallRecordsUntouched(jar: Jar, recs: seq<CookieRecord>, k: JarKey)
    requires forall j :: 0 <= j < |recs| ==> Complete(recs[j])
    requires forall j :: 0 <= j < |recs| ==> KeyOf(recs[j]) != k
    requires k in jar
    ensures k in InstallRecords(jar, recs).1 && InstallRecords(jar, recs).1[k] == jar[k]
    decreases |recs|
  {
    if recs != [] {
      var jar' := jar[KeyOf(recs[0]) := JarValue(recs[0].value.value)];
      var tail := recs[1..];
      assert forall j :: 0 <= j < |tail| ==> tail[j] == recs[j + 1];
      InstallRecordsUntouched(jar', tail, k);
    }
  }

  /** The record a jar cookie is saved as: all four keys present. */
  function ExportRecord(k: JarKey, v: string): (r: CookieRecord)
    ensures Complete(r) && KeyOf(r) == k && r.value == Some(v)
    ensures r.domain == Some(k.domain) && r.path == Some(k.path)
  {
    FullRecord(k.name, v, k.domain, k.path)
  }

  /** `recs` lists every cookie of `jar` once, in some order, as full records. */
  predicate Exports(recs: seq<CookieRecord>, jar: Jar) {
    && |recs| == |jar|
    && (forall i :: 0 <= i < |recs| ==>
          Complete(recs[i]) && recs[i].domain.Some? && recs[i].path.Some? &&
          KeyOf(recs[i]) in jar && Some(jar[KeyOf(recs[i])]) == recs[i].value)
    && (forall i, j :: 0 <= i < j < |recs| ==> KeyOf(recs[i]) != KeyOf(recs[j]))
    && (forall k :: k in jar ==> exists i :: 0 <= i < |recs| && KeyOf(recs[i]) == k)
  }

  /** The loop of `save_current_cookies` that turns the jar into records. The jar's
      iteration order is left open. */
  method ExportJar(jar: Jar) returns (recs: seq<CookieRecord>)
    ensures Exports(recs, jar)
  {
    recs := [];
    var rest := jar.Keys;
    while rest != {}
      invariant rest <= jar.Keys
      invariant |recs| + |rest| == |jar|
      invariant forall i :: 0 <= i < |recs| ==>
        Complete(recs[i]) && recs[i].domain.Some? && recs[i].path.Some? &&
        KeyOf(recs[i]) in jar && KeyOf(recs[i]) !in rest && Some(jar[KeyOf(recs[i])]) == recs[i].value
      invariant forall i, j :: 0 <= i < j < |recs| ==> KeyOf(recs[i]) != KeyOf(recs[j])
      invariant forall k :: k in jar && k !in rest ==> exists i :: 0 <= i < |recs| && KeyOf(recs[i]) == k
      decreases |rest|
    {
      var k :| k in rest;
      var r := ExportRecord(k, jar[k]);
      ghost var prev := recs;
      recs := recs + [r];
      assert forall i :: 0 <= i < |prev| ==> recs[i] == prev[i];
      assert recs[|prev|] == r;
      rest := rest - {k};
      forall k' | k' in jar && k' !in rest ensures exists i :: 0 <= i < |recs| && KeyOf(recs[i]) == k' {
        if k' == k {
          assert KeyOf(recs[|prev|]) == k;
        } else {
          var i :| 0 <= i < |prev| && KeyOf(prev[i]) == k';
          assert KeyOf(recs[i]) == k';
        }
      }
    }
  }

  /** Every value of `jar` as `set_cookie` would file it. */
  function Refiled(jar: Jar): Jar {
    map k | k in jar :: JarValue(jar[k])
  }

  /** Saving the jar and loading it back into an empty session gives every cookie
      back under its key, its value filed once more, so a jar whose values are
      already as filed is restored exactly; `load_saved_cookies` reports true unless
      the jar was empty. */
  lemma ExportThenLoad(jar: Jar, recs: seq<CookieRecord>)
    requires Exports(recs, jar)
    ensures InstallRecords(map[], recs) == (true, Refiled(jar))
    ensures (forall k :: k in jar ==> JarValue(jar[k]) == jar[k]) ==> InstallRecords(map[], recs).1 == jar
    ensures AfterLoadSaved(map[], Some(recs)) == (jar != map[], Refiled(jar))
  {
    InstallRecordsVerdict(map[], recs);
    ExportedLoad(jar, recs);
    if jar == map[] {
      assert recs == [];
    } else {
      var k :| k in jar;
      assert recs != [];
    }
  }

  /** The jar loaded from an export of `jar` is `jar` refiled. */
  lemma ExportedLoad(jar: Jar, recs: seq<CookieRecord>)
    requires Exports(recs, jar)
    ensures InstallRecords(map[], recs).1 == Refiled(jar)
  {
    InstallRecordsKeys(map[], recs);
    var r := InstallRecords(map[], recs).1;
    forall k | k in jar ensures k in r && r[k] == JarValue(jar[k]) {
      var i :| 0 <= i < |recs| && KeyOf(recs[i]) == k;
      InstallRecordsLastWins(map[], recs, i);
    }
    forall k | k in r ensures k in jar {
      var i :| 0 <= i < |recs| && KeyOf(recs[i]) == k;
    }
    assert r.Keys == Refiled(jar).Keys;
  }

  // ---------------------------------------------------------------------------
  // The login probe

  /** What `session.get` produced: a response, or an exception. */
  datatype HttpReply = Response(status: int, url: string) | Raised

  /** `check_login_status`: a 200 response whose URL, lower-cased, does not hold
      "login"; an exception counts as logged out. */
  function CheckLoginStatus(reply: HttpReply): bool {
    reply.Response? && reply.status == 200 && !Contains(Lower(reply.url), "login")
  }

  /** Logged in exactly for a 200 response without "login" in any letter case in
      its URL. */
  lemma LoginStatusCases(reply: HttpReply, w: string, i: int)
    ensures reply.Raised? ==> !CheckLoginStatus(reply)
    ensures reply.Response? && reply.status != 200 ==> !CheckLoginStatus(reply)
    ensures reply.Response? && OccursAt(reply.url, w, i) && Lower(w) == "login" ==> !CheckLoginStatus(reply)
    ensures reply.Response? && reply.status == 200 && !Contains(Lower(reply.url), "login") ==> CheckLoginStatus(reply)
  {
    if reply.Response? && OccursAt(reply.url, w, i) && Lower(w) == "login" {
      LowerKeepsOccurrence(reply.url, w, i);
      assert 0 <= i <= |Lower(reply.url)| - |"login"|;
    }
  }

  /** The probe is a GET of the report list with redirects off, so the response URL
      `requests` reports is the request URL; an exception is `None`. */
  function ProbeReply(status: Option<int>): HttpReply {
    match status
    case Some(code) => Response(code, ReportListUrl)
    case None => Raised
  }

  /** The report list URL holds no "login" in any letter case, so the probe's verdict
      is decided by the status alone: logged in exactly on a 200. A redirect to the
      login page shows up as a 3xx status and counts as logged out. */
  lemma ProbeVerdictIsStatus(status: Option<int>)
    ensures CheckLoginStatus(ProbeReply(status)) <==> status == Some(200)
  {
    var path := "/report/report-daily/my-list";
    assert ReportListUrl == BaseUrl + path;
    assert 'g' !in BaseUrl && 'G' !in BaseUrl;
    assert 'g' !in path && 'G' !in path;
    assert 'g' !in ReportListUrl && 'G' !in ReportListUrl;
    var low := Lower(ReportListUrl);
    forall i | 0 <= i < |low| ensures low[i] != 'g' {
      assert ReportListUrl[i] != 'g' && ReportListUrl[i] != 'G';
    }
    assert "login"[2] == 'g';
    MissingCharExcludes(low, "login", 'g');
  }

  // ---------------------------------------------------------------------------
  // Month pages

  /** One `#report_list li` element: its stripped text and the `href` of its first
      link, if any. */
  datatype PageItem = PageItem(text: string, href: Option<string>)

  /** The answer to a month's list URL: a status with the list items, or an
      exception. */
  datatype PageReply = Page(status: int, items: seq<PageItem>) | PageRaised

  datatype Report = Report(text: string, link: string)

  /** `_parse_report_item`: the text, and the link's `href` or "" when there is no
      link or it has no `href`. */
  function ParseReportItem(item: PageItem): (r: Report)
    ensures r.text == item.text
    ensures r.link != "" <==> item.href.Some? && item.href.value != ""
    ensures r.link != "" ==> r.link == item.href.value
  {
    Report(item.text, if item.href.Some? then item.href.value else "")
  }

  /** `raise_for_status` raises for client and server errors. */
  predicate RaisesForStatus(status: int) {
    400 <= status < 600
  }

  predicate PageFails(reply: PageReply) {
    reply.PageRaised? || RaisesForStatus(reply.status)
  }

  function MonthUrl(month: string): string {
    ReportListUrl + "?month=" + month
  }

  /** The list `fetch_month_reports` returns for a reply: one report per item, in
      order, or nothing when the request failed. */
  function MonthReports(reply: PageReply): (rs: seq<Report>)
    ensures PageFails(reply) ==> rs == []
    ensures !PageFails(reply) ==>
      |rs| == |reply.items| && (forall i :: 0 <= i < |rs| ==> rs[i] == ParseReportItem(reply.items[i]))
  {
    if PageFails(reply) then []
    else seq(|reply.items|, i requires 0 <= i < |reply.items| => ParseReportItem(reply.items[i]))
  }

  /** `fetch_month_reports`: requests the month's list and parses each item. */
  method FetchMonthReports(month: string, pages: string -> PageReply) returns (reports: seq<Report>)
    ensures reports == MonthReports(pages(MonthUrl(month)))
  {
    var reply := pages(MonthUrl(month));
    if PageFails(reply) {
      return [];
    }
    reports := [];
    var i := 0;
    while i < |reply.items|
      invariant 0 <= i <= |reply.items|
      invariant reports == MonthReports(reply)[..i]
    {
      reports := reports + [ParseReportItem(reply.items[i])];
      i := i + 1;
    }
  }

  /** `all_reports` after the months are fetched in order. */
  function Aggregate(months: seq<string>, pages: string -> PageReply): map<string, seq<Report>> {
    if months == [] then map[]
    else
      var m := months[|months| - 1];
      Aggregate(months[..|months| - 1], pages)[m := MonthReports(pages(MonthUrl(m)))]
  }

  /** Each month's entry depends on that month's reply alone: a failing month gets
      `[]` and does not disturb the others. */
  lemma {:induction false} FailureIsolation(months: seq<string>, pages: string -> PageReply)
    ensures Aggregate(months, pages).Keys == set m | m in months
    ensures forall m :: m in months ==> Aggregate(months, pages)[m] == MonthReports(pages(MonthUrl(m)))
    decreases |months|
  {
    if months != [] {
      var init := months[..|months| - 1];
      FailureIsolation(init, pages);
      assert months == init + [months[|months| - 1]];
    }
  }

  /** `sum(len(reports) for reports in all_reports.values())`, over the months of
      the dict, each listed once. */
  function SumCounts(months: seq<string>, all: map<string, seq<Report>>): nat
    requires forall m :: m in months ==> m in all
  {
    if months == [] then 0 else |all[months[0]]| + SumCounts(months[1..], all)
  }

  /** The number of list items of the months that answered. */
  function ItemsAnswered(months: seq<string>, pages: string -> PageReply): nat {
    if months == [] then 0
    else
      var reply := pages(MonthUrl(months[0]));
      (if PageFails(reply) then 0 else |reply.items|) + ItemsAnswered(months[1..], pages)
  }

  /** The reported total counts every item of every month that answered, and none
      of the months that failed. */
  lemma {:induction false} TotalCountsAnsweredItems(months: seq<string>, pages: string -> PageReply, all: map<string, seq<Report>>)
    requires forall m :: m in months ==> m in all && all[m] == MonthReports(pages(MonthUrl(m)))
    ensures SumCounts(months, all) == ItemsAnswered(months, pages)
    decreases |months|
  {
    if months != [] {
      TotalCountsAnsweredItems(months[1..], pages, all);
    }
  }

  // ---------------------------------------------------------------------------
  // The Markdown document

  /** The lines `_generate_markdown` writes, each followed by a blank line; the
      generation-time line is not modelled. */
  datatype MdLine =
    | Title
    | Heading(month: string, count: nat)
    | NoData
    | Entry(index: nat, text: string)
    | LinkLine(link: string)
    | Rule

  /** The text of a line. */
  function LineText(l: MdLine): string {
    match l
    case Title => "# YST 日报整理"
    case Heading(m, n) => "## " + m + " 月份日报 (" + NatToString(n) + " 条)"
    case NoData => "*暂无数据*"
    case Entry(i, t) => "### " + NatToString(i) + ". " + t
    case LinkLine(link) => "链接：" + link
    case Rule => "---"
  }

  /** The lines of the report numbered `i`: its heading, its link when it has one,
      and a rule. */
  function EntryLines(i: nat, r: Report): seq<MdLine> {
    [Entry(i, r.text)] + (if r.link != "" then [LinkLine(r.link)] else []) + [Rule]
  }

  /** The reports of a month, numbered from 1. */
  function Entries(rs: seq<Report>): seq<MdLine> {
    if rs == [] then [] else Entries(rs[..|rs| - 1]) + EntryLines(|rs|, rs[|rs| - 1])
  }

  /** A month's section: its heading with the count, then the empty-month marker or
      the reports. */
  function Section(month: string, rs: seq<Report>): seq<MdLine> {
    [Heading(month, |rs|)] + (if rs == [] then [NoData] else Entries(rs))
  }

  function Sections(ks: seq<string>, all: map<string, seq<Report>>): seq<MdLine>
    requires forall k :: k in ks ==> k in all
  {
    if ks == [] then [] else Sections(ks[..|ks| - 1], all) + Section(ks[|ks| - 1], all[ks[|ks| - 1]])
  }

  /** The document for a dict whose keys, in insertion order, are `keys`: the title,
      then one section per month in sorted order. */
  function Document(keys: seq<string>, all: map<string, seq<Report>>): seq<MdLine>
    requires forall k :: k in keys ==> k in all
  {
    SortedKeysIn(keys, all);
    [Title] + Sections(SortStrings(keys), all)
  }

  lemma SortedKeysIn(keys: seq<string>, all: map<string, seq<Report>>)
    requires forall k :: k in keys ==> k in all
    ensures forall k :: k in SortStrings(keys) ==> k in all
  {
    forall k | k in SortStrings(keys) ensures k in all {
      assert k in multiset(SortStrings(keys));
    }
  }

  /** `_generate_markdown`, without the file write. */
  method GenerateMarkdown(keys: seq<string>, all: map<string, seq<Report>>) returns (lines: seq<MdLine>)
    requires forall k :: k in keys ==> k in all
    ensures lines == Document(keys, all)
  {
    var months := SortStrings(keys);
    SortedKeysIn(keys, all);
    var sections := SectionsLines(months, all);
    lines := [Title] + sections;
  }

  /** The loop over the sorted months of `_generate_markdown`. */
  method SectionsLines(months: seq<string>, all: map<string, seq<Report>>) returns (lines: seq<MdLine>)
    requires forall k :: k in months ==> k in all
    ensures lines == Sections(months, all)
  {
    lines := [];
    var i := 0;
    while i < |months|
      invariant 0 <= i <= |months|
      invariant lines == Sections(months[..i], all)
    {
      var section := SectionLines(months[i], all[months[i]]);
      SectionsSnoc(months, i, all);
      lines := lines + section;
      i := i + 1;
    }
    assert months[..i] == months;
  }

  lemma SectionsSnoc(ks: seq<string>, i: int, all: map<string, seq<Report>>)
    requires 0 <= i < |ks|
    requires forall k :: k in ks ==> k in all
    ensures Sections(ks[..i + 1], all) == Sections(ks[..i], all) + Section(ks[i], all[ks[i]])
  {
    var done := ks[..i + 1];
    assert done[..i] == ks[..i] && done[i] == ks[i];
  }

  /** One month's part of `_generate_markdown`. */
  method SectionLines(month: string, reports: seq<Report>) returns (lines: seq<MdLine>)
    ensures lines == Section(month, reports)
  {
    lines := [Heading(month, |reports|)];
    if reports == [] {
      lines := lines + [NoData];
      return;
    }
    var j := 0;
    while j < |reports|
      invariant 0 <= j <= |reports|
      invariant lines == [Heading(month, |reports|)] + Entries(reports[..j])
    {
      assert reports[..j + 1][..j] == reports[..j];
      lines := lines + EntryLines(j + 1, reports[j]);
      j := j + 1;
    }
    assert reports[..j] == reports;
  }

  /** The months and counts of the headings, in document order. */
  function Headings(lines: seq<MdLine>): seq<(string, nat)> {
    if lines == [] then []
    else (if lines[0].Heading? then [(lines[0].month, lines[0].count)] else []) + Headings(lines[1..])
  }

  lemma {:induction false} HeadingsAppend(a: seq<MdLine>, b: seq<MdLine>)
    ensures Headings(a + b) == Headings(a) + Headings(b)
    decreases |a|
  {
    if a != [] {
      HeadingsAppend(a[1..], b);
      assert (a + b)[0] == a[0];
      assert (a + b)[1..] == a[1..] + b;
    } else {
      assert a + b == b;
    }
  }

  lemma {:induction false} EntriesHaveNoHeadings(rs: seq<Report>)
    ensures Headings(Entries(rs)) == []
    decreases |rs|
  {
    if rs != [] {
      var r := rs[|rs| - 1];
      EntriesHaveNoHeadings(rs[..|rs| - 1]);
      HeadingsAppend(Entries(rs[..|rs| - 1]), EntryLines(|rs|, r));
      var e := EntryLines(|rs|, r);
      if r.link != "" {
        assert Headings(e) == Headings(e[1..]) == Headings(e[2..]) == Headings(e[3..]);
      } else {
        assert Headings(e) == Headings(e[1..]) == Headings(e[2..]);
      }
    }
  }

  lemma SectionHeadings(month: string, rs: seq<Report>)
    ensures Headings(Section(month, rs)) == [(month, |rs|)]
  {
    var body := if rs == [] then [NoData] else Entries(rs);
    HeadingsAppend([Heading(month, |rs|)], body);
    if rs == [] {
      assert Headings([NoData]) == Headings([NoData][1..]);
    } else {
      EntriesHaveNoHeadings(rs);
    }
    assert Headings([Heading(month, |rs|)]) == [(month, |rs|)] + Headings([Heading(month, |rs|)][1..]);
  }

  lemma {:induction false} SectionsHeadings(ks: seq<string>, all: map<string, seq<Report>>)
    requires forall k :: k in ks ==> k in all
    ensures |Headings(Sections(ks, all))| == |ks|
    ensures forall i :: 0 <= i < |ks| ==> Headings(Sections(ks, all))[i] == (ks[i], |all[ks[i]]|)
    decreases |ks|
  {
    if ks != [] {
      var init := ks[..|ks| - 1];
      var last := ks[|ks| - 1];
      SectionsHeadings(init, all);
      HeadingsAppend(Sections(init, all), Section(last, all[last]));
      SectionHeadings(last, all[last]);
      assert Sections(ks, all) == Sections(init, all) + Section(last, all[last]);
      HeadingsSnoc(ks, all, Headings(Sections(init, all)), Headings(Sections(ks, all)));
    }
  }

  /** One more month's heading extends a list of headings that matched the months
      before it. */
  lemma HeadingsSnoc(ks: seq<string>, all: map<string, seq<Report>>, hi: seq<(string, nat)>, h: seq<(string, nat)>)
    requires ks != [] && forall k :: k in ks ==> k in all
    requires |hi| == |ks| - 1 && forall i :: 0 <= i < |hi| ==> hi[i] == (ks[i], |all[ks[i]]|)
    requires h == hi + [(ks[|ks| - 1], |all[ks[|ks| - 1]]|)]
    ensures |h| == |ks| && forall i :: 0 <= i < |ks| ==> h[i] == (ks[i], |all[ks[i]]|)
  {
  }

  /** The document has one heading per month of the dict, in sorted order, each
      with that month's report count. */
  lemma DocumentHeadings(keys: seq<string>, all: map<string, seq<Report>>)
    requires forall k :: k in keys ==> k in all
    ensures forall k :: k in SortStrings(keys) ==> k in all
    ensures |Headings(Document(keys, all))| == |SortStrings(keys)|
    ensures forall i :: 0 <= i < |SortStrings(keys)| ==>
      Headings(Document(keys, all))[i] == (SortStrings(keys)[i], |all[SortStrings(keys)[i]]|)
    ensures Sorted(SortStrings(keys)) && multiset(SortStrings(keys)) == multiset(keys)
  {
    var sorted := SortStrings(keys);
    SortedKeysIn(keys, all);
    HeadingsAppend([Title], Sections(sorted, all));
    SectionsHeadings(sorted, all);
    assert Headings([Title]) == Headings([Title][1..]);
  }

  /** A link line is written exactly for the reports whose link is non-empty. */
  lemma {:induction false} LinkLines(rs: seq<Report>, link: string)
    ensures LinkLine(link) in Entries(rs) <==> link != "" && exists i :: 0 <= i < |rs| && rs[i].link == link
    decreases |rs|
  {
    if rs != [] {
      var init := rs[..|rs| - 1];
      LinkLines(init, link);
      if exists i :: 0 <= i < |init| && init[i].link == link {
        var i :| 0 <= i < |init| && init[i].link == link;
        assert rs[i] == init[i];
      }
      if exists i :: 0 <= i < |rs| && rs[i].link == link {
        var i :| 0 <= i < |rs| && rs[i].link == link;
        if i < |init| {
          assert init[i] == rs[i];
        }
      }
    }
  }

  /** A section holds the empty-month marker exactly when the month has no
      reports. */
  lemma {:induction false} EntriesHaveNoMarker(rs: seq<Report>)
    ensures NoData !in Entries(rs)
    decreases |rs|
  {
    if rs != [] {
      EntriesHaveNoMarker(rs[..|rs| - 1]);
    }
  }

  lemma SectionMarker(month: string, rs: seq<Report>)
    ensures Section(month, rs)[0] == Heading(month, |rs|)
    ensures NoData in Section(month, rs) <==> rs == []
    ensures rs == [] ==> Section(month, rs) == [Heading(month, 0), NoData]
  {
    if rs != [] {
      EntriesHaveNoMarker(rs);
    }
  }

  // ---------------------------------------------------------------------------
  // The output path

  /** `_get_default_output_dir`. */
  function DefaultOutputDir(frozen: bool, home: string, moduleDir: string): string {
    if frozen then home + "/.yst_mcp/output" else moduleDir + "/data"
  }

  /** `os.path.isabs` on a POSIX path. */
  predicate IsAbsolute(p: string) {
    |p| > 0 && p[0] == '/'
  }

  /** `Path(dir) / name` for a relative `name`; an empty name adds nothing. */
  function JoinPath(dir: string, name: string): string {
    if name == "" then dir else dir + "/" + name
  }

  /** The path `collect` writes to. */
  function ResolveOutputPath(dir: string, outputFile: Option<string>): string {
    match outputFile
    case None => JoinPath(dir, "new.md")
    case Some(p) => if IsAbsolute(p) then p else JoinPath(dir, p)
  }

  /** No path gives `new.md` in the default directory, a relative path is placed in
      it, an absolute path is kept; with an absolute default directory the result is
      absolute and resolving it again changes nothing. */
  lemma ResolveOutputPathCases(dir: string, outputFile: Option<string>)
    ensures outputFile.None? ==> ResolveOutputPath(dir, outputFile) == dir + "/new.md"
    ensures outputFile.Some? && IsAbsolute(outputFile.value) ==> ResolveOutputPath(dir, outputFile) == outputFile.value
    ensures outputFile.Some? && !IsAbsolute(outputFile.value) && outputFile.value != "" ==>
      ResolveOutputPath(dir, outputFile) == dir + "/" + outputFile.value
    ensures IsAbsolute(dir) ==> IsAbsolute(ResolveOutputPath(dir, outputFile))
    ensures IsAbsolute(dir) ==> ResolveOutputPath(dir, Some(ResolveOutputPath(dir, outputFile))) == ResolveOutputPath(dir, outputFile)
  {
    var p := ResolveOutputPath(dir, outputFile);
    if IsAbsolute(dir) {
      assert p[0] == '/';
    }
  }

  /** In development the reports go to the directory that also holds the cookie
      file; a packaged build keeps them apart. */
  lemma OutputDirBesideCookies(frozen: bool, home: string, moduleDir: string)
    ensures !frozen ==> DefaultOutputDir(frozen, home, moduleDir) == BaseDir(frozen, home, moduleDir)
    ensures frozen ==> DefaultOutputDir(frozen, home, moduleDir) != BaseDir(frozen, home, moduleDir)
  {
    if frozen {
      var o, b := DefaultOutputDir(frozen, home, moduleDir), BaseDir(frozen, home, moduleDir);
      assert o[|home| + 10] == 'o' && b[|home| + 10] == 'd';
    }
  }

  // ---------------------------------------------------------------------------
  // The collector

  /** How `collect` ends: the not-logged-in message, a `ValueError` from the month
      range, or the summary of a finished collection with the document written. */
  datatype CollectResult =
    | NotLoggedIn
    | Failed(error: MonthError)
    | Collected(monthCount: nat, totalCount: nat, outputFile: string, document: seq<MdLine>)

  /** The list URLs of the months, in order. */
  function Urls(months: seq<string>): (urls: seq<string>)
    ensures |urls| == |months| && forall i :: 0 <= i < |months| ==> urls[i] == MonthUrl(months[i])
  {
    if months == [] then [] else Urls(months[..|months| - 1]) + [MonthUrl(months[|months| - 1])]
  }

  /** The month loop of `collect`: each month's list is fetched in turn and filed
      under the month. */
  method FetchAll(months: seq<string>, pages: string -> PageReply)
    returns (all: map<string, seq<Report>>, requested: seq<string>)
    ensures all == Aggregate(months, pages)
    ensures requested == Urls(months)
  {
    all := map[];
    requested := [];
    var i := 0;
    while i < |months|
      invariant 0 <= i <= |months|
      invariant all == Aggregate(months[..i], pages)
      invariant requested == Urls(months[..i])
    {
      var reports := FetchMonthReports(months[i], pages);
      assert months[..i + 1][..i] == months[..i];
      all := all[months[i] := reports];
      requested := requested + [MonthUrl(months[i])];
      i := i + 1;
    }
    assert months[..i] == months;
  }

  class ReportCollector {
    const store: CookieManager
    const defaultOutputDir: string
    /** The session's cookie jar. */
    var jar: Jar

    /** `__init__`: a cookie manager over the default cookie file, an empty session;
        the request headers are not modelled. */
    constructor(fs: FileSystem, frozen: bool, home: string, moduleDir: string)
      ensures store.fs == fs
      ensures store.cookieFile == CookieFilePath(None, frozen, home, moduleDir)
      ensures defaultOutputDir == DefaultOutputDir(frozen, home, moduleDir)
      ensures jar == map[]
    {
      store := new CookieManager(fs, None, frozen, home, moduleDir);
      defaultOutputDir := DefaultOutputDir(frozen, home, moduleDir);
      jar := map[];
    }

    /** `load_cookies_from_dict`: sets each name under the site domain. */
    method LoadCookiesFromDict(d: map<string, string>) returns (ok: bool)
      modifies this
      ensures ok && jar == WithSiteCookies(old(jar), d)
    {
      var rest := d.Keys;
      ghost var done: map<string, string> := map[];
      while rest != {}
        invariant Loading(old(jar), d, rest, done, jar)
        decreases |rest|
      {
        var n :| n in rest;
        LoadingStep(old(jar), d, rest, done, jar, n);
        jar := jar[JarKey(SiteDomain, "/", n) := JarValue(d[n])];
        rest := rest - {n};
        done := done[n := d[n]];
      }
      LoadingDone(old(jar), d, done, jar);
      ok := true;
    }

    /** `load_cookies_from_string`: true even when no item holds '='. */
    method LoadCookiesFromString(cookieString: string) returns (ok: bool)
      modifies this
      ensures ok && jar == WithSiteCookies(old(jar), CookieDict(cookieString))
    {
      var d := ParseCookieString(cookieString);
      ok := LoadCookiesFromDict(d);
    }

    /** `save_current_cookies`: the jar, as full records, overwrites the cookie file. */
    method SaveCurrentCookies(fault: SaveFault) returns (ok: bool)
      modifies store.fs
      ensures ok <==> fault == NoFault
      ensures fault == NoFault ==> exists recs :: Exports(recs, jar) && store.fs.files == old(store.fs.files)[store.cookieFile := Stored(recs)]
      ensures fault == OpenFails ==> store.fs.files == old(store.fs.files)
      ensures fault == WriteFails ==> store.fs.files == old(store.fs.files)[store.cookieFile := Unreadable]
    {
      var recs := ExportJar(jar);
      ok := store.SaveCookies(recs, fault);
    }

    /** `load_saved_cookies`. */
    method LoadSavedCookies() returns (ok: bool)
      modifies this
      ensures (ok, jar) == AfterLoadSaved(old(jar), SnapshotAt(store.fs.files, store.cookieFile))
    {
      var snap := store.LoadCookies();
      if snap.None? || snap.value == [] {
        return false;
      }
      var recs := snap.value;
      var i := 0;
      while i < |recs|
        invariant 0 <= i <= |recs|
        invariant InstallRecords(old(jar), recs) == InstallRecords(jar, recs[i..])
      {
        var r := recs[i];
        assert recs[i..][1..] == recs[i + 1..];
        if r.name.None? || r.value.None? {
          return false;
        }
        jar := jar[KeyOf(r) := JarValue(r.value.value)];
        i := i + 1;
      }
      ok := true;
    }

    /** `collect`. The login probe is answered for the jar after the saved cookies
        were loaded; month lists are fetched only once logged in and the range is
        valid, and each month's failure stays in that month. */
    method Collect(startMonth: string, endMonth: string, outputFile: Option<string>,
                   probe: Jar -> Option<int>, pages: string -> PageReply)
      returns (result: CollectResult, requested: seq<string>)
      modifies this
      ensures jar == (if store.cookieFile in store.fs.files
                      then AfterLoadSaved(old(jar), SnapshotAt(store.fs.files, store.cookieFile)).1
                      else old(jar))
      ensures probe(jar) != Some(200) ==> result == NotLoggedIn && requested == []
      ensures probe(jar) == Some(200) && MonthRange(startMonth, endMonth).Err? ==>
        result == Failed(MonthRange(startMonth, endMonth).error) && requested == []
      ensures probe(jar) == Some(200) && MonthRange(startMonth, endMonth).Ok? ==>
        var months := MonthRange(startMonth, endMonth).value;
        var all := Aggregate(months, pages);
        && requested == Urls(months)
        && (forall m :: m in months ==> m in all)
        && result == Collected(|months|, SumCounts(months, all),
                               ResolveOutputPath(defaultOutputDir, outputFile), Document(months, all))
    {
      var path := ResolveOutputPath(defaultOutputDir, outputFile);
      requested := [];
      var present := store.HasCookies();
      if present {
        var _ := LoadSavedCookies();
      }
      ProbeVerdictIsStatus(probe(jar));
      if !CheckLoginStatus(ProbeReply(probe(jar))) {
        return NotLoggedIn, [];
      }
      var range := GenerateMonthRange(startMonth, endMonth);
      if range.Err? {
        return Failed(range.error), [];
      }
      var months := range.value;
      var all;
      all, requested := FetchAll(months, pages);
      FailureIsolation(months, pages);
      var lines := GenerateMarkdown(months, all);
      result := Collected(|months|, SumCounts(months, all), path, lines);
    }
  }
}
