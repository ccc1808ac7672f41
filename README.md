# Gacha link finder — a Dafny model of the scanner core

The desktop tool finds the most recent Wuthering Waves gacha-record link on a
Windows machine. It looks for game installation roots in four places, in this order:

- the MuiCache registry key;
- the firewall rules;
- the uninstall registry keys;
- a fixed list of common install folders on every drive.

For each admitted root it reads two known log files (`Client.log` and the web view's
`debug.log`). From each file it keeps the last URL line, and it dates that link by:

1. the last valid `[YYYY.MM.DD-HH.MM.SS:mmm]` stamp on a URL line;
2. otherwise, the file's modification time;
3. otherwise, the UNIX epoch.

It then ranks all links newest first. It copies the winner to the clipboard and reports
whether the link is older than 30 minutes.

This project models that core (`src-tauri/src/lib.rs`) imperatively. Its modules follow the program's stages:

- `Options` holds `Option` and `Result`.
- `Text` has ASCII lower-casing, substring tests, `split('|')` and the `[\\/]client[\\/]`
  split, which keeps the text before the first segment.
- `Timestamps` covers `NaiveDateTime` validity, the proleptic Gregorian second count
  and its order, stamp parsing, and the expiry test.
- `Environment` represents the machine as data: the results of `canonicalize` and
  `exists`, the log file lines, the modification times and the registry contents.
- `LogExtraction` has the line loop (`ScanLines`) and the per-file candidate with its
  timestamp fallbacks.
- `Discovery` has the raw roots each source passes on.
- `Scanner` has a fold `CheckPath`/`CheckPaths` over a scan state (candidates, checked
  set, log, visit order). Its class `Scanner` has the same fields and methods that update
  them in place. Every method is proved to produce exactly the fold's state.
- `Ranking` models the stable descending sort and which candidate ends up first.
- `Pipeline` has `ScanGachaUrl`, the whole command.

Timestamps are whole seconds since 1970-01-01T00:00:00 on the zone-less scale. The lemma
`ChronologicalOrder` shows that this count orders valid date-times exactly as
`NaiveDateTime` does, so the sort on seconds is the sort on date-times. "Now" carries
nanoseconds, because `Local::now()` does. A link exactly 30 minutes old is therefore
fresh only when the nanosecond part is zero.

Two behaviours follow `lib.rs` as written, even where a plain description would suggest otherwise:

- **MuiCache matching.** The MuiCache name is tested case-insensitively for
  `client-win64-shipping.exe`. It is then split case-sensitively on the original-case
  name (`lib.rs:186-197`). A name with `\Client\` yields no root.
  `Discovery.MuiCacheIsCaseSensitive` exhibits this. The firewall source lower-cases the
  whole rule first, so its split matches any case, and the root it passes on is lower-case.
- **Modification time.** The fallback time is `DateTime::from_timestamp(secs, 0)` on a
  UTC value followed by `naive_local()`. That is UTC wall time, not local time
  (`lib.rs:149-150`).

## Model

| member | source | states |
|---|---|---|
| Text.Split | src-tauri/src/lib.rs:230 | `split('|')` yields at least one field and no field contains the separator |
| Text.SplitJoin | src-tauri/src/lib.rs:230 | splitting loses nothing: joining the fields with `|` gives back the rule text |
| Text.ClientRoot | src-tauri/src/lib.rs:194-197 | the root is the prefix before the first `[\\/]client[\\/]` match (case-sensitive); there is a root exactly when the pattern occurs |
| Text.ClientRootFrom | src-tauri/src/lib.rs:194-197 | searching from offset i finds the first match at or after i, or reports that none exists |
| Timestamps.ChronologicalOrder | src-tauri/src/lib.rs:38 | on valid date-times, the second count is strictly increasing in `NaiveDateTime` order and injective |
| Timestamps.EpochIsZero | src-tauri/src/lib.rs:155 | the UNIX epoch sentinel is second 0 |
| Timestamps.LeapStep | src-tauri/src/lib.rs:134 | the leap-year count grows by one exactly at a Gregorian leap year (divisible by 4, and by 400 when a century) |
| Timestamps.YearLengthIsStep | src-tauri/src/lib.rs:134 | consecutive years are 365 or 366 days apart, by the Gregorian leap rule |
| Timestamps.YearsAdvance | src-tauri/src/lib.rs:134 | every later year starts after the whole of an earlier year |
| Timestamps.MonthsAdvance | src-tauri/src/lib.rs:134 | every later month starts after the whole of an earlier month |
| Timestamps.MonthWithinYear | src-tauri/src/lib.rs:134 | every month ends within its year |
| Timestamps.DayNumberIncreasing | src-tauri/src/lib.rs:134 | an earlier valid date has a smaller day number |
| Timestamps.ParseStamp | src-tauri/src/lib.rs:126-138 | a stamp yields a date-time exactly when its fields, with 2024, 1, 1, 0, 0, 0 for those that did not parse (`Defaulted`), form a real calendar date and clock time, and then it is that date-time, field for field |
| Timestamps.ParseStampAccepts | src-tauri/src/lib.rs:127-136 | a fully parsed stamp is accepted exactly when year, month, day, hour, minute and second form a valid `NaiveDateTime`, and then denotes exactly those fields |
| Timestamps.LeapDay | src-tauri/src/lib.rs:134 | February 29 is accepted exactly in Gregorian leap years |
| Timestamps.TwentyFourHundredHoursRefused | src-tauri/src/lib.rs:135 | hour 24 is never a valid time, so such a stamp sets no time |
| Timestamps.ExpiredIff | src-tauri/src/lib.rs:41-44 | about `Expired`, the test `elapsed > Duration::minutes(30)`: expired exactly when more than 30 minutes have elapsed: over 1800 s, or 1800 s and any fraction |
| Timestamps.ExactlyThirtyMinutesIsFresh | src-tauri/src/lib.rs:44 | the comparison is strict: exactly 30 minutes is not expired |
| LogExtraction.LastStamp | src-tauri/src/lib.rs:126-137 | the found time, when there is one, is a valid date-time |
| LogExtraction.LastUrlIsLastMatch | src-tauri/src/lib.rs:123-124 | the found URL is that of the last URL-matching line |
| LogExtraction.LastUrlNone | src-tauri/src/lib.rs:143 | no URL is found exactly when no line matches the URL pattern |
| LogExtraction.LaterMatchWins | src-tauri/src/lib.rs:123-124 | a matching line later in the file overrides everything before it |
| LogExtraction.LastStampIsLastStamped | src-tauri/src/lib.rs:126-137 | the found time is the stamp of the last URL line with a valid stamp |
| LogExtraction.LastStampNone | src-tauri/src/lib.rs:144 | no time is found exactly when no URL line has a valid stamp |
| LogExtraction.UnstampedUrlLineKeepsTime | src-tauri/src/lib.rs:123-139 | an unstamped URL line replaces the URL but keeps the earlier time |
| LogExtraction.ScanLines | src-tauri/src/lib.rs:114-141 | the line loop (skipping unreadable lines) ends with the last URL and the last valid stamp |
| LogExtraction.AsI64 | src-tauri/src/lib.rs:148 | the `as i64` cast: the one value in the signed 64-bit range congruent to the unsigned count modulo 2^64 |
| LogExtraction.FileCandidate | src-tauri/src/lib.rs:99-159 | a file yields a candidate exactly when it exists, opens and has a URL line; the candidate's URL is that of the file's last URL line and its source is that file |
| LogExtraction.FileCandidateTime | src-tauri/src/lib.rs:143-156 | about `ResolveTimestamp`, `MtimeTimestamp` and `FromTimestamp` (the `unwrap_or_else` fallback chain): the candidate time is that of the last stamped URL line; otherwise the in-range mtime, otherwise the epoch |
| LogExtraction.ScanLogFile | src-tauri/src/lib.rs:99-158 | reading one log file produces exactly that file's candidate |
| LogExtraction.DirCandidatesFromFiles | src-tauri/src/lib.rs:87-160 | a directory yields at most one candidate per log file, each from its own file |
| LogExtraction.AnnouncedStep | src-tauri/src/lib.rs:94-97 | the directory is announced once some log folder exists, and stays announced |
| Discovery.FlatMapMembers | src-tauri/src/lib.rs:179-199 | the roots of a key are those of its values, and nothing else |
| Discovery.MuiCacheRootsSpec | src-tauri/src/lib.rs:163-201 | about `MuiCacheRoots`: a MuiCache root is exactly the client-split prefix of a relevant entry (vendor in data, executable in name) |
| Discovery.MuiCacheIsCaseSensitive | src-tauri/src/lib.rs:186-197 | a name containing `\Client\` yields no root, though its lower-cased form would |
| Discovery.FirstAppIndex | src-tauri/src/lib.rs:230-233 | finds the first `app=` field, or reports that there is none |
| Discovery.FirewallRoot | src-tauri/src/lib.rs:224-243 | a rule passes on at most one root: the client-split of its first `app=` field, only if the lower-cased rule is relevant |
| Discovery.FirewallRootAtFirstApp | src-tauri/src/lib.rs:230-242 | only the first `app=` field is used, whether or not it splits; later fields are ignored |
| Discovery.FirewallRootWithoutApp | src-tauri/src/lib.rs:230-233 | a relevant rule without an `app=` field passes on nothing |
| Discovery.FirewallRootsSpec | src-tauri/src/lib.rs:203-245 | about `FirewallRoots`: a firewall root is exactly the root of some rule |
| Discovery.RegistryRootsSpec | src-tauri/src/lib.rs:247-290 | about `RegistryRoots`: a registry root is exactly a non-empty install path of a subkey, under either uninstall key, whose display name mentions the vendor |
| Discovery.SubpathRootsSpec | src-tauri/src/lib.rs:317-327 | under a drive, a root is exactly an existing join of the drive and a common subpath |
| Discovery.DriveContribution | src-tauri/src/lib.rs:312-327 | one drive contributes exactly the existing `X:/` + subpath paths, and only when `X:/` exists |
| Discovery.DriveRootsSpec | src-tauri/src/lib.rs:311-328 | a root is exactly an existing common subpath under an existing drive root among the letters scanned |
| Discovery.CommonPathRootsSpec | src-tauri/src/lib.rs:292-329 | about `CommonPathRoots`: the same over the 26 drive letters and 8 fixed subpaths |
| Environment.JoinParts | src-tauri/src/lib.rs:91 | `Path::join` of a relative path on Windows keeps the base in front and the relative path at the end, with one `\` between exactly when the base is non-empty, does not end in a separator and is not a bare drive prefix |
| Scanner.CheckPathsAppend | src-tauri/src/lib.rs:28-31 | about `CheckPaths`, the fold of `check_game_path` over a list of roots: running two root lists one after another is running their concatenation on the shared state |
| Scanner.CheckPathKeepsInv | src-tauri/src/lib.rs:82-85 | about `CheckPath`, `check_game_path` as a function of the scan state: admission keeps the checked set free of repeats and equal to the scanned directories |
| Scanner.CheckPathsKeepsInv | src-tauri/src/lib.rs:82-85 | the same over any number of roots |
| Scanner.CheckPathsGrows | src-tauri/src/lib.rs:85 | the checked set, candidate list, log and visit order only grow |
| Scanner.CloudSyncIgnored | src-tauri/src/lib.rs:77-80 | a root whose raw text mentions OneDrive (any case) changes nothing |
| Scanner.CheckedPathIgnored | src-tauri/src/lib.rs:82-84 | a root whose canonical path was already checked changes nothing |
| Scanner.VisitsComeFromRoots | src-tauri/src/lib.rs:72-85 | every newly scanned directory exists and is the canonical form of a given root outside OneDrive |
| Scanner.CheckPathsTraced | src-tauri/src/lib.rs:85-160 | the candidates are exactly the candidates of the scanned directories, in scan order |
| Scanner.AtMostTwoPerDirectory | src-tauri/src/lib.rs:87-160 | at most two candidates per scanned directory |
| Scanner.Scanner.constructor | src-tauri/src/lib.rs:25-26 | the scan starts with no candidates, nothing checked and no log |
| Scanner.Scanner.CheckGamePath | src-tauri/src/lib.rs:64-161 | in place: admission, insertion into the checked set, then the directory's candidates and announcement |
| Scanner.Scanner.ScanDirectory | src-tauri/src/lib.rs:87-160 | appends the directory's candidates in log-file order and announces it at most once |
| Scanner.Scanner.ScanMuiCache | src-tauri/src/lib.rs:163-201 | in place: checks the MuiCache roots in enumeration order |
| Scanner.Scanner.ScanRule | src-tauri/src/lib.rs:224-243 | in place: checks the one root of a firewall rule, if any |
| Scanner.Scanner.ScanFirewall | src-tauri/src/lib.rs:203-245 | in place: checks the firewall roots in rule order |
| Scanner.Scanner.ScanRegistry | src-tauri/src/lib.rs:247-290 | in place: checks the install paths in key order, then subkey order |
| Scanner.Scanner.ScanDrive | src-tauri/src/lib.rs:317-327 | in place: checks the existing common subpaths of one drive in list order |
| Scanner.Scanner.ScanCommonPaths | src-tauri/src/lib.rs:292-329 | in place: checks the existing common subpaths of every existing drive, A to Z |
| Ranking.Insert | src-tauri/src/lib.rs:38 | inserting keeps the same candidates plus the new one |
| Ranking.InsertSorted | src-tauri/src/lib.rs:38 | inserting into a newest-first list keeps it newest first, and the newcomer passes only strictly older entries |
| Ranking.SortNewestFirst | src-tauri/src/lib.rs:38 | the ranking is newest first and a permutation of the candidates |
| Ranking.FirstNewestUnique | src-tauri/src/lib.rs:38-40 | there is only one earliest-collected newest candidate |
| Ranking.FirstNewestExtend | src-tauri/src/lib.rs:38 | a later candidate becomes the first newest only if it is strictly newer |
| Ranking.SortHead | src-tauri/src/lib.rs:38-40 | the selected candidate is a newest one, and the earliest collected among equally new ones |
| Ranking.NewerLinkRanksFirst | src-tauri/src/lib.rs:38-44 | of links 10 and 40 minutes old, the 10-minute one is selected in either collection order |
| Pipeline.DiscoverInOrder | src-tauri/src/lib.rs:28-31 | the four sources in order equal one fold over all their roots |
| Pipeline.DiscoverFacts | src-tauri/src/lib.rs:25-31 | about `Discover`, the state after the four sources: after discovery, no directory was scanned twice, the candidates are exactly those of the scanned directories, and at most two per directory |
| Pipeline.DiscoverProvenance | src-tauri/src/lib.rs:28-31 | every scanned directory exists and comes from a root of one of the four sources, outside OneDrive |
| Pipeline.ScanGachaUrl | src-tauri/src/lib.rs:18-62 | with `Verdict` (lib.rs:44-56) as the messages after ranking: no clipboard: the error and no log; no candidate: `Ok(None)`, the not-found message and no clipboard write; otherwise the earliest newest URL is returned and copied, after the expired-or-copied message and any copy-failure warning |

## Left out

- Operating-system access is left out: the registry, `canonicalize`, `exists`,
  `File::open`, line decoding and file metadata. These are the fields of `Env`, decided
  before the scan; a line that fails to decode is `Unreadable`.
- The regular-expression engine is left out. A log line arrives already matched: the URL
  capture, if any, and the six numeric fields of a leading stamp. The digit fields that
  `unwrap_or` defaults would replace (only non-ASCII digits can reach that) are given as
  `None` and get the same defaults.
- Text.Lower: lower-cases ASCII letters only, while `to_lowercase` is full Unicode. The
  patterns searched for are all ASCII, so every `contains` test agrees. A firewall root
  is a slice of the lower-cased rule (`lib.rs:224-240`). A non-ASCII capital in that
  install path therefore reaches `check_game_path` and the `DirectoryFound` message
  lower-cased in the program but unchanged in the model.
- Scanner.CheckPath: the checked set compares paths as strings, while the program's
  `HashSet<PathBuf>` compares path components (`lib.rs:26, 82`). On Windows, `D:/X`, `D:\X`
  and `D:\X\` are one entry. When canonicalisation fails for two such spellings of an
  existing directory, the program scans it once and the model twice. The model then
  repeats its candidates and its `DirectoryFound` message. The same holds for
  `Scanner.Scanner.CheckGamePath`, `Inv` and `CheckedPathIgnored`, which hold up to
  string identity only. The selected URL is unaffected, because the repeated candidates
  tie with the originals and carry the same URL.
- LogExtraction.ScanLines: a log file is a finite list of lines, and a line that fails
  to read is skipped once. In the program, `reader.lines()` with `Err(_) => continue`
  (`lib.rs:117-121`) keeps returning the error while the underlying read keeps failing,
  so a persistent read error makes `check_game_path`, and with it the whole scan, never
  return. That non-termination is not modelled.
- Clipboard internals (`arboard`) are left out. The clipboard is either unavailable, with
  its error text, or available, with the outcome of `set_text`. `copied` records the text
  whose write was attempted.
- The `app.emit` event channel and the rendered message text are left out, including the
  `%Y-%m-%d %H:%M` formatting of the expiry time. Messages are `Message` values appended
  in emission order.
- `Local::now()` is a parameter, given as seconds and nanoseconds on the zone-less scale.
  The local time zone is not modelled.
- Scanner.Scanner.ScanCommonPaths: a path that is not valid UTF-8, which `to_str()` would
  turn into `""`, cannot occur, because paths are strings here.
- Ranking.SortNewestFirst: stability is proved for the selected head only (`SortHead`),
  not for the relative order of every pair of equally new candidates. The sort is modelled
  as an insertion sort, not as Rust's merge sort; the two agree on every stable ordering.
- The `chrono` version is left out. The in-range check for modification times uses the
  `NaiveDate` year range -262143..262142. Other `chrono` versions use slightly different bounds.
- `src/App.tsx`, the user interface, and the Tauri setup in `run` (`lib.rs:331-337`) are
  not part of this model.
