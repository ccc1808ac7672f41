/**
 * Extraction of the gacha link from one log file: every URL-matching line
 * overwrites the found URL, a URL line that also starts with a valid stamp
 * overwrites the found time, and after the scan the time falls back to the
 * file's modification time and then to the UNIX epoch.
 */
module LogExtraction {
  import opened Options
  import opened Timestamps
  import opened Environment

  predicate UrlLine(l: Line) {
    l.Read? && l.url.Some?
  }

  /** The time a line contributes: only URL lines whose stamp is a real date-time. */
  function StampOf(l: Line): Option<DateTime> {
    if UrlLine(l) && l.stamp.Some? then ParseStamp(l.stamp.value) else None
  }

  predicate StampedUrlLine(l: Line) {
    StampOf(l).Some?
  }

  /** Reference definition, read from the end of the file: the URL of the last URL line. */
  function LastUrl(lines: seq<Line>): Option<string> {
    if lines == [] then None
    else if UrlLine(lines[|lines| - 1]) then lines[|lines| - 1].url
    else LastUrl(lines[..|lines| - 1])
  }

  /** Reference definition, read from the end: the time of the last URL line with a valid stamp. */
  function LastStamp(lines: seq<Line>): (t: Option<DateTime>)
    ensures t.Some? ==> Valid(t.value)
  {
    if lines == [] then None
    else if StampedUrlLine(lines[|lines| - 1]) then StampOf(lines[|lines| - 1])
    else LastStamp(lines[..|lines| - 1])
  }

  /** The URL found is that of the last URL line, and there is one exactly when some line matches. */
  lemma {:induction false} LastUrlIsLastMatch(lines: seq<Line>, k: int)
    requires 0 <= k < |lines| && UrlLine(lines[k])
    requires forall j :: k < j < |lines| ==> !UrlLine(lines[j])
    ensures LastUrl(lines) == lines[k].url
    decreases |lines|
  {
    if k < |lines| - 1 {
      LastUrlIsLastMatch(lines[..|lines| - 1], k);
    }
  }

  lemma {:induction false} LastUrlNone(lines: seq<Line>)
    ensures LastUrl(lines).None? <==> forall k :: 0 <= k < |lines| ==> !UrlLine(lines[k])
    decreases |lines|
  {
    if lines != [] {
      LastUrlNone(lines[..|lines| - 1]);
      assert forall k :: 0 <= k < |lines| - 1 ==> lines[..|lines| - 1][k] == lines[k];
    }
  }

  /** Earlier matches never survive: whatever precedes a URL line cannot change the outcome. */
  lemma {:induction false} LaterMatchWins(before: seq<Line>, after: seq<Line>)
    requires exists k :: 0 <= k < |after| && UrlLine(after[k])
    ensures LastUrl(before + after) == LastUrl(after)
    decreases |after|
  {
    var n := |after| - 1;
    assert (before + after)[..|before| + n] == before + after[..n];
    if !UrlLine(after[n]) {
      LaterMatchWins(before, after[..n]);
    }
  }

  lemma {:induction false} LastStampIsLastStamped(lines: seq<Line>, k: int)
    requires 0 <= k < |lines| && StampedUrlLine(lines[k])
    requires forall j :: k < j < |lines| ==> !StampedUrlLine(lines[j])
    ensures LastStamp(lines) == StampOf(lines[k])
    decreases |lines|
  {
    if k < |lines| - 1 {
      LastStampIsLastStamped(lines[..|lines| - 1], k);
    }
  }

  lemma {:induction false} LastStampNone(lines: seq<Line>)
    ensures LastStamp(lines).None? <==> forall k :: 0 <= k < |lines| ==> !StampedUrlLine(lines[k])
    decreases |lines|
  {
    if lines != [] {
      LastStampNone(lines[..|lines| - 1]);
      assert forall k :: 0 <= k < |lines| - 1 ==> lines[..|lines| - 1][k] == lines[k];
    }
  }

  /** A URL line without a valid stamp replaces the URL but keeps the earlier time. */
  lemma UnstampedUrlLineKeepsTime(lines: seq<Line>, l: Line)
    requires UrlLine(l) && !StampedUrlLine(l)
    ensures LastUrl(lines + [l]) == l.url
    ensures LastStamp(lines + [l]) == LastStamp(lines)
  {
    assert (lines + [l])[..|lines|] == lines;
  }

  /**
   * The line loop of the scanner: reads the file front to back, overwriting
   * the two slots, and ends with what the reference definitions pick.
   */
  method ScanLines(lines: seq<Line>) returns (foundUrl: Option<string>, foundTime: Option<DateTime>)
    ensures foundUrl == LastUrl(lines)
    ensures foundTime == LastStamp(lines)
  {
    foundUrl, foundTime := None, None;
    for i := 0 to |lines|
      invariant foundUrl == LastUrl(lines[..i])
      invariant foundTime == LastStamp(lines[..i])
    {
      assert lines[..i + 1][..i] == lines[..i];
      var line := lines[i];
      if line.Unreadable? {
        continue;
      }
      if line.url.Some? {
        foundUrl := line.url;
        if line.stamp.Some? {
          var time := ParseStamp(line.stamp.value);
          if time.Some? {
            foundTime := time;
          }
        }
      }
    }
    assert lines[..|lines|] == lines;
  }

  const U64Half := 0x8000_0000_0000_0000
  const U64Modulus := 0x1_0000_0000_0000_0000

  /** The `as i64` cast of an unsigned 64-bit count (two's-complement wrap-around). */
  function AsI64(x: U64): (r: int)
    ensures -U64Half <= r < U64Half
    ensures (r - x) % U64Modulus == 0
  {
    if x < U64Half then x else x - U64Modulus
  }

  const MinTimestamp := Seconds(DateTime(MinYear, 1, 1, 0, 0, 0))
  const MaxTimestamp := Seconds(DateTime(MaxYear, 12, 31, 23, 59, 59))

  /** `DateTime::from_timestamp(secs, 0)` then `naive_local()` on the UTC result: the same second count, when in chrono's range. */
  function FromTimestamp(secs: int): Option<int> {
    if MinTimestamp <= secs <= MaxTimestamp then Some(secs) else None
  }

  function MtimeTimestamp(m: Option<Mtime>): Option<int> {
    if m.Some? && m.value.SinceEpoch? then FromTimestamp(AsI64(m.value.seconds)) else None
  }

  /** `DateTime::UNIX_EPOCH.naive_utc()` as a second count. */
  const UnixEpoch := 0

  /** The parsed time, else the file's modification time, else the epoch. */
  function ResolveTimestamp(found: Option<DateTime>, mtime: Option<Mtime>): int
    requires found.Some? ==> Valid(found.value)
  {
    if found.Some? then Seconds(found.value) else MtimeTimestamp(mtime).GetOr(UnixEpoch)
  }

  function Lookup<K, V>(m: map<K, V>, k: K): Option<V> {
    if k in m then Some(m[k]) else None
  }

  /** What one log file under `root` contributes: a candidate exactly when it exists, opens and has a URL line. */
  function FileCandidate(env: Env, root: Path, spec: LogSpec): (c: Option<Candidate>)
    ensures c.Some? ==> c.value.source == LogPath(root, spec)
    ensures c.Some? <==> LogPath(root, spec) in env.existing && LogPath(root, spec) in env.logFiles
                         && exists k :: 0 <= k < |env.logFiles[LogPath(root, spec)]| && UrlLine(env.logFiles[LogPath(root, spec)][k])
    ensures c.Some? ==> Some(c.value.url) == LastUrl(env.logFiles[LogPath(root, spec)])
  {
    var full := LogPath(root, spec);
    if full !in env.existing || full !in env.logFiles then None
    else
      var lines := env.logFiles[full];
      LastUrlNone(lines);
      match LastUrl(lines)
      case None => None
      case Some(url) => Some(Candidate(url, ResolveTimestamp(LastStamp(lines), Lookup(env.modified, full)), full))
  }

  /**
   * The time of a file's candidate: that of its last stamped URL line, or,
   * when no URL line carries a valid stamp, the modification time when it is
   * readable and in range, and otherwise the epoch.
   */
  lemma FileCandidateTime(env: Env, root: Path, spec: LogSpec)
    requires FileCandidate(env, root, spec).Some?
    ensures var lines := env.logFiles[LogPath(root, spec)];
            var ts := FileCandidate(env, root, spec).value.timestamp;
            (forall k :: 0 <= k < |lines| ==> !StampedUrlLine(lines[k])) ==>
              ts == MtimeTimestamp(Lookup(env.modified, LogPath(root, spec))).GetOr(UnixEpoch)
    ensures var lines := env.logFiles[LogPath(root, spec)];
            var ts := FileCandidate(env, root, spec).value.timestamp;
            forall k :: 0 <= k < |lines| && StampedUrlLine(lines[k]) && (forall j :: k < j < |lines| ==> !StampedUrlLine(lines[j])) ==>
              ts == Seconds(StampOf(lines[k]).value)
  {
    var lines := env.logFiles[LogPath(root, spec)];
    LastStampNone(lines);
    forall k | 0 <= k < |lines| && StampedUrlLine(lines[k]) && (forall j :: k < j < |lines| ==> !StampedUrlLine(lines[j])) {
      LastStampIsLastStamped(lines, k);
    }
  }

  /** The candidates of a directory, one per log file that yields one, in `specs` order. */
  function DirCandidates(env: Env, root: Path, specs: seq<LogSpec>): seq<Candidate> {
    if specs == [] then []
    else
      var c := FileCandidate(env, root, specs[|specs| - 1]);
      DirCandidates(env, root, specs[..|specs| - 1]) + (if c.Some? then [c.value] else [])
  }

  lemma DirCandidatesStep(env: Env, root: Path, specs: seq<LogSpec>, i: nat)
    requires i < |specs|
    ensures DirCandidates(env, root, specs[..i + 1]) ==
            DirCandidates(env, root, specs[..i]) +
            (if FileCandidate(env, root, specs[i]).Some? then [FileCandidate(env, root, specs[i]).value] else [])
  {
    assert specs[..i + 1][..i] == specs[..i];
  }

  /**
   * Reads one log file under `root`: the last URL line and the last stamp,
   * then the time those resolve to.
   */
  method ScanLogFile(env: Env, root: Path, spec: LogSpec) returns (c: Option<Candidate>)
    ensures c == FileCandidate(env, root, spec)
  {
    var fullPath := LogPath(root, spec);
    if fullPath !in env.existing || fullPath !in env.logFiles {
      return None;
    }
    var url, time := ScanLines(env.logFiles[fullPath]);
    if url.None? {
      return None;
    }
    var timestamp := ResolveTimestamp(time, Lookup(env.modified, fullPath));
    return Some(Candidate(url.value, timestamp, fullPath));
  }

  /** Each log file contributes at most one candidate, taken from that very file. */
  lemma {:induction false} DirCandidatesFromFiles(env: Env, root: Path, specs: seq<LogSpec>)
    ensures |DirCandidates(env, root, specs)| <= |specs|
    ensures forall c :: c in DirCandidates(env, root, specs) ==>
              exists k :: 0 <= k < |specs| && FileCandidate(env, root, specs[k]) == Some(c)
    decreases |specs|
  {
    if specs != [] {
      var n := |specs| - 1;
      DirCandidatesFromFiles(env, root, specs[..n]);
      forall c | c in DirCandidates(env, root, specs)
        ensures exists k :: 0 <= k < |specs| && FileCandidate(env, root, specs[k]) == Some(c)
      {
        if c in DirCandidates(env, root, specs[..n]) {
          var k :| 0 <= k < n && FileCandidate(env, root, specs[..n][k]) == Some(c);
          assert specs[..n][k] == specs[k];
        } else {
          assert FileCandidate(env, root, specs[n]) == Some(c);
        }
      }
    }
  }

  /** Some log directory exists under `root`: the scanner then reports the directory, once. */
  predicate Announced(env: Env, root: Path, specs: seq<LogSpec>) {
    exists k :: 0 <= k < |specs| && LogDir(root, specs[k]) in env.existing
  }

  lemma AnnouncedStep(env: Env, root: Path, specs: seq<LogSpec>, i: nat)
    requires i < |specs|
    ensures Announced(env, root, specs[..i + 1]) <==>
            Announced(env, root, specs[..i]) || LogDir(root, specs[i]) in env.existing
  {
    if LogDir(root, specs[i]) in env.existing {
      assert specs[..i + 1][i] == specs[i];
    }
    if Announced(env, root, specs[..i + 1]) {
      var k :| 0 <= k < i + 1 && LogDir(root, specs[..i + 1][k]) in env.existing;
      if k < i {
        assert specs[..i][k] == specs[..i + 1][k];
      }
    }
    if Announced(env, root, specs[..i]) {
      var k :| 0 <= k < i && LogDir(root, specs[..i][k]) in env.existing;
      assert specs[..i + 1][k] == specs[..i][k];
    }
  }

  function DirMessages(env: Env, raw: string, root: Path): seq<Message> {
    if Announced(env, root, LogSpecs) then [DirectoryFound(raw)] else []
  }
}
