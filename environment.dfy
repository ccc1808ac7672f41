/**
 * What the scanner reads from the machine, given as plain data: the result
 * of canonicalising each raw path, which paths exist, the lines of each log
 * file that can be opened, file modification times, and the registry
 * contents it enumerates. Also the shapes of what it produces.
 */
module Environment {
  import opened Options
  import opened Text
  import opened Timestamps

  type Path = string

  type U64 = x: int | 0 <= x < 0x1_0000_0000_0000_0000

  /** One line of a log file, already matched against the two patterns. */
  datatype Line =
    | Unreadable  // a line that failed to decode; it is skipped
    | Read(url: Option<string>, stamp: Option<Stamp>)
      // url: the capture of the gacha-record URL pattern, if the line matches it
      // stamp: the fields of a leading `[YYYY.MM.DD-HH.MM.SS:mmm]`, if the line starts with one

  /** A file's modification time as `duration_since(UNIX_EPOCH)` sees it. */
  datatype Mtime = BeforeEpoch | SinceEpoch(seconds: U64)

  /** One enumerated registry value (name and rendered data), or an enumeration error. */
  datatype RegValue = BadValue | RegValue(name: string, data: string)

  /** One subkey of an uninstall root: its `DisplayName` and `InstallPath` values when readable. */
  datatype UninstallEntry = BadSubkey | Subkey(displayName: Option<string>, installPath: Option<string>)

  datatype Env = Env(
    canonical: map<string, Path>,              // raw path -> canonical path; absent when canonicalize fails
    existing: set<Path>,                        // paths for which `exists()` holds
    logFiles: map<Path, seq<Line>>,             // files that open, with their lines in order
    modified: map<Path, Mtime>,                 // files whose metadata and mtime are readable
    muiCache: Option<seq<RegValue>>,            // the MuiCache key, None when it does not open
    firewallRules: Option<seq<RegValue>>,       // the FirewallRules key, None when it does not open
    uninstall: map<string, seq<UninstallEntry>> // uninstall roots that open, by key path
  )

  /** One log occurrence of the URL: `(url, timestamp, log file)`; the timestamp is `Seconds` of a `NaiveDateTime`. */
  datatype Candidate = Candidate(url: string, timestamp: int, source: Path)

  /** The progress messages the scanner emits, in place of their rendered text. */
  datatype Message =
    | DirectoryFound(raw: string)
    | NothingFound
    | LinkExpired(generated: int)
    | LinkCopied
    | CopyFailed(reason: string)

  /** A known log file, relative to the installation root: its directory and its name. */
  datatype LogSpec = LogSpec(dir: string, file: string)

  const ClientLog := LogSpec("Client\\Saved\\Logs", "Client.log")
  const DebugLog := LogSpec("Client\\Binaries\\Win64\\ThirdParty\\KrPcSdk_Global\\KRSDKRes\\KRSDKWebView", "debug.log")

  /** Scanned in this order for every admitted directory. */
  const LogSpecs := [ClientLog, DebugLog]

  /** `C:` alone: Windows joins onto it without a separator. */
  predicate IsDrivePrefix(p: Path) {
    |p| == 2 && p[1] == ':' && ('A' <= p[0] <= 'Z' || 'a' <= p[0] <= 'z')
  }

  /** `Path::join` of a relative path on Windows. */
  function Join(base: Path, rel: string): Path {
    if |base| == 0 || IsSeparator(base[|base| - 1]) || IsDrivePrefix(base) then base + rel
    else base + "\\" + rel
  }

  /**
   * Joining keeps `base` in front and `rel` at the end, with one `\` between
   * them exactly when `base` is non-empty, does not end in a separator and
   * is not a bare drive prefix.
   */
  lemma JoinParts(base: Path, rel: string)
    ensures var r := Join(base, rel);
            && |base| + |rel| <= |r| <= |base| + |rel| + 1
            && r[..|base|] == base && r[|r| - |rel|..] == rel
            && (|r| == |base| + |rel| + 1 <==> |base| > 0 && !IsSeparator(base[|base| - 1]) && !IsDrivePrefix(base))
            && (|r| == |base| + |rel| + 1 ==> r[|base|] == '\\')
  {
  }

  function LogPath(root: Path, spec: LogSpec): Path {
    Join(root, spec.dir + "\\" + spec.file)
  }

  /** The parent directory of `LogPath(root, spec)`. */
  function LogDir(root: Path, spec: LogSpec): Path {
    Join(root, spec.dir)
  }

  function Canonicalize(env: Env, raw: string): Path {
    if raw in env.canonical then env.canonical[raw] else raw
  }
}
