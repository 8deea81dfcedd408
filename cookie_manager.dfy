/** The single-slot cookie store of `cookie_manager.py`: one JSON file holding the
    exported cookie list, overwritten on save, read back on load, removed on clear.
    The disk is a `FileSystem` object shared by every `CookieManager` built on it, as
    the browser flow and the collector each build their own manager over the same
    default path. */
module CookieStore {
  import opened Wrappers
  import opened Text

  /** One entry of the cookie file: a JSON object whose keys may be missing. */
  datatype CookieRecord = CookieRecord(
    name: Option<string>,
    value: Option<string>,
    domain: Option<string>,
    path: Option<string>)

  /** An entry that carries all four keys, as both writers of the file produce. */
  function FullRecord(name: string, value: string, domain: string, path: string): CookieRecord {
    CookieRecord(Some(name), Some(value), Some(domain), Some(path))
  }

  /** The content of a file that exists: a decoded cookie list, or bytes that
      `json.load` (or the `open` before it) rejects. */
  datatype CookieFile = Stored(records: seq<CookieRecord>) | Unreadable

  /** Where `save_cookies` may fail: `open(..., 'w')` itself, which leaves the old
      file alone, or the `json.dump` after the file was truncated. */
  datatype SaveFault = NoFault | OpenFails | WriteFails

  class FileSystem {
    var files: map<string, CookieFile>

    constructor(files: map<string, CookieFile>)
      ensures this.files == files
    {
      this.files := files;
    }
  }

  /** What `load_cookies` returns for the file at `path`. */
  function SnapshotAt(files: map<string, CookieFile>, path: string): Option<seq<CookieRecord>> {
    if path in files && files[path].Stored? then Some(files[path].records) else None
  }

  /** The files after `save_cookies(cookies)` at `path` ends with `fault`. */
  function StoreAfterSave(files: map<string, CookieFile>, path: string, cookies: seq<CookieRecord>, fault: SaveFault): map<string, CookieFile> {
    match fault
    case NoFault => files[path := Stored(cookies)]
    case OpenFails => files
    case WriteFails => files[path := Unreadable]
  }

  const CookieFileName: string := "cookies.json"

  /** `_get_base_dir`: `~/.yst_mcp/data` in a frozen (packaged) build, else the
      `data` directory beside the module. */
  function BaseDir(frozen: bool, home: string, moduleDir: string): string {
    if frozen then home + "/.yst_mcp/data" else moduleDir + "/data"
  }

  /** The path `__init__` settles on. */
  function CookieFilePath(cookieFile: Option<string>, frozen: bool, home: string, moduleDir: string): string {
    match cookieFile
    case Some(p) => p
    case None => BaseDir(frozen, home, moduleDir) + "/" + CookieFileName
  }

  /** An explicit path is used verbatim; otherwise the file is `cookies.json` under
      the home directory in a frozen build (whatever the module directory) and under
      the module directory in development (whatever the home directory). */
  lemma CookieFilePathByMode(cookieFile: Option<string>, frozen: bool, home: string, moduleDir: string, other: string)
    ensures cookieFile.Some? ==> CookieFilePath(cookieFile, frozen, home, moduleDir) == cookieFile.value
    ensures cookieFile.None? && frozen ==>
      CookieFilePath(cookieFile, frozen, home, moduleDir) == home + "/.yst_mcp/data/cookies.json" &&
      CookieFilePath(cookieFile, frozen, home, other) == CookieFilePath(cookieFile, frozen, home, moduleDir)
    ensures cookieFile.None? && !frozen ==>
      CookieFilePath(cookieFile, frozen, home, moduleDir) == moduleDir + "/data/cookies.json" &&
      CookieFilePath(cookieFile, frozen, other, moduleDir) == CookieFilePath(cookieFile, frozen, home, moduleDir)
  {
    if cookieFile.None? {
      if frozen {
        assert home + "/.yst_mcp/data" + "/" + CookieFileName == home + "/.yst_mcp/data/cookies.json";
      } else {
        assert moduleDir + "/data" + "/" + CookieFileName == moduleDir + "/data/cookies.json";
      }
    }
  }

  class CookieManager {
    const fs: FileSystem
    const cookieFile: string

    /** `__init__`; creating the parent directory is not modelled. */
    constructor(fs: FileSystem, cookieFileArg: Option<string>, frozen: bool, home: string, moduleDir: string)
      ensures this.fs == fs
      ensures cookieFile == CookieFilePath(cookieFileArg, frozen, home, moduleDir)
    {
      this.fs := fs;
      cookieFile := CookieFilePath(cookieFileArg, frozen, home, moduleDir);
    }

    /** Overwrites the slot. Returns false exactly when writing failed; a failure
        after the file was opened for writing leaves it truncated. */
    method SaveCookies(cookies: seq<CookieRecord>, fault: SaveFault) returns (ok: bool)
      modifies fs
      ensures ok <==> fault == NoFault
      ensures fault == NoFault ==> fs.files == old(fs.files)[cookieFile := Stored(cookies)]
      ensures fault == OpenFails ==> fs.files == old(fs.files)
      ensures fault == WriteFails ==> fs.files == old(fs.files)[cookieFile := Unreadable]
      ensures fs.files == StoreAfterSave(old(fs.files), cookieFile, cookies, fault)
    {
      match fault
      case NoFault =>
        fs.files := fs.files[cookieFile := Stored(cookies)];
        ok := true;
      case OpenFails =>
        ok := false;
      case WriteFails =>
        fs.files := fs.files[cookieFile := Unreadable];
        ok := false;
    }

    /** `None` when the file is missing or cannot be read or decoded; otherwise
        exactly the stored list. */
    method LoadCookies() returns (r: Option<seq<CookieRecord>>)
      ensures cookieFile !in fs.files ==> r == None
      ensures cookieFile in fs.files && fs.files[cookieFile].Unreadable? ==> r == None
      ensures cookieFile in fs.files && fs.files[cookieFile].Stored? ==> r == Some(fs.files[cookieFile].records)
      ensures r == SnapshotAt(fs.files, cookieFile)
    {
      if cookieFile !in fs.files {
        return None;
      }
      match fs.files[cookieFile]
      case Stored(records) => r := Some(records);
      case Unreadable => r := None;
    }

    /** A test for the file's existence, whatever it holds. */
    method HasCookies() returns (b: bool)
      ensures b <==> cookieFile in fs.files
    {
      b := cookieFile in fs.files;
    }

    /** Removes the file. Clearing a missing file succeeds and changes nothing; a
        removal that fails (`removeOk` false) reports false and leaves the file. */
    method ClearCookies(removeOk: bool) returns (ok: bool)
      modifies fs
      ensures cookieFile !in old(fs.files) ==> ok && fs.files == old(fs.files)
      ensures cookieFile in old(fs.files) ==> ok == removeOk
      ensures cookieFile in old(fs.files) && removeOk ==> fs.files == old(fs.files) - {cookieFile}
      ensures cookieFile in old(fs.files) && !removeOk ==> fs.files == old(fs.files)
    {
      if cookieFile in fs.files {
        if removeOk {
          fs.files := fs.files - {cookieFile};
          ok := true;
        } else {
          ok := false;
        }
      } else {
        ok := true;
      }
    }
  }

  // ---------------------------------------------------------------------------
  // The store's contract, proved from the method contracts alone.

  /** A successful save is read back exactly, and the file then exists. */
  method SaveThenLoad(m: CookieManager, cookies: seq<CookieRecord>) returns (r: Option<seq<CookieRecord>>, present: bool)
    modifies m.fs
    ensures m.fs.files == old(m.fs.files)[m.cookieFile := Stored(cookies)]
    ensures r == Some(cookies) && present
  {
    var ok := m.SaveCookies(cookies, NoFault);
    r := m.LoadCookies();
    present := m.HasCookies();
  }

  /** The second save replaces the first completely: last write wins. */
  method LastSaveWins(m: CookieManager, first: seq<CookieRecord>, second: seq<CookieRecord>) returns (r: Option<seq<CookieRecord>>)
    modifies m.fs
    ensures r == Some(second)
  {
    var ok1 := m.SaveCookies(first, NoFault);
    var ok2 := m.SaveCookies(second, NoFault);
    r := m.LoadCookies();
  }

  /** A save that fails after truncating leaves a file that exists but loads as
      `None`: the store then claims cookies that it cannot return. */
  method TruncatedSave(m: CookieManager, cookies: seq<CookieRecord>) returns (ok: bool, r: Option<seq<CookieRecord>>, present: bool)
    modifies m.fs
    ensures !ok && r == None && present
  {
    ok := m.SaveCookies(cookies, WriteFails);
    r := m.LoadCookies();
    present := m.HasCookies();
  }

  /** After a successful clear nothing is stored; a second clear succeeds and
      changes nothing. */
  method ClearThenQuery(m: CookieManager, removeOk: bool) returns (ok: bool, present: bool, r: Option<seq<CookieRecord>>, again: bool)
    modifies m.fs
    ensures ok ==> !present && r == None
    ensures ok ==> again && m.fs.files == old(m.fs.files) - {m.cookieFile}
    ensures !ok ==> m.fs.files == old(m.fs.files) && present
  {
    ok := m.ClearCookies(removeOk);
    present := m.HasCookies();
    r := m.LoadCookies();
    again := true;
    if ok {
      again := m.ClearCookies(false);
    }
  }
}
