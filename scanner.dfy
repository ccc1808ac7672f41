/**
 * The scan state every source threads through: the candidate list, the set
 * of canonical paths already checked, and the progress log. `CheckPath`
 * and `CheckPaths` say what admitting and scanning roots does to it; the
 * `Scanner` class performs the same steps in place.
 */
module Scanner {
  import opened Options
  import opened Text
  import opened Environment
  import opened LogExtraction
  import opened Discovery

  /** `visited` records, in order, the canonical paths that were scanned. */
  datatype ScanState = ScanState(candidates: seq<Candidate>, checked: set<Path>, logs: seq<Message>, visited: seq<Path>)

  const Fresh := ScanState([], {}, [], [])

  /** A raw root is scanned when it names no OneDrive folder and its canonical path exists and is new. */
  predicate Admitted(env: Env, checked: set<Path>, raw: string) {
    && !Contains(Lower(raw), "onedrive")
    && Canonicalize(env, raw) in env.existing
    && Canonicalize(env, raw) !in checked
  }

  /** One root through admission and, when admitted, extraction of both log files. */
  function CheckPath(env: Env, st: ScanState, raw: string): ScanState {
    if !Admitted(env, st.checked, raw) then st
    else
      var p := Canonicalize(env, raw);
      ScanState(st.candidates + DirCandidates(env, p, LogSpecs), st.checked + {p},
                st.logs + DirMessages(env, raw, p), st.visited + [p])
  }

  function CheckPaths(env: Env, st: ScanState, raws: seq<string>): ScanState {
    if raws == [] then st else CheckPath(env, CheckPaths(env, st, raws[..|raws| - 1]), raws[|raws| - 1])
  }

  lemma {:induction false} CheckPathsAppend(env: Env, st: ScanState, a: seq<string>, b: seq<string>)
    ensures CheckPaths(env, st, a + b) == CheckPaths(env, CheckPaths(env, st, a), b)
    decreases |b|
  {
    if b == [] {
      assert a + b == a;
    } else {
      var n := |b| - 1;
      assert (a + b)[..|a + b| - 1] == a + b[..n];
      CheckPathsAppend(env, st, a, b[..n]);
    }
  }

  lemma CheckPathsExtend(env: Env, st: ScanState, done: seq<string>, part: seq<string>, step: seq<string>)
    ensures CheckPaths(env, st, done + (part + step)) == CheckPaths(env, CheckPaths(env, st, done + part), step)
  {
    assert done + (part + step) == (done + part) + step;
    CheckPathsAppend(env, st, done + part, step);
  }

  lemma CheckPathsOne(env: Env, st: ScanState, raw: string)
    ensures CheckPaths(env, st, [raw]) == CheckPath(env, st, raw)
  {
    assert [raw][..0] == [];
  }

  /** Every checked path was scanned exactly once, and `visited` lists the checked set. */
  ghost predicate Inv(st: ScanState) {
    && (forall i, j :: 0 <= i < j < |st.visited| ==> st.visited[i] != st.visited[j])
    && (forall p :: p in st.checked <==> p in st.visited)
  }

  lemma CheckPathKeepsInv(env: Env, st: ScanState, raw: string)
    requires Inv(st)
    ensures Inv(CheckPath(env, st, raw))
  {
  }

  lemma {:induction false} CheckPathsKeepsInv(env: Env, st: ScanState, raws: seq<string>)
    requires Inv(st)
    ensures Inv(CheckPaths(env, st, raws))
    decreases |raws|
  {
    if raws != [] {
      CheckPathsKeepsInv(env, st, raws[..|raws| - 1]);
      CheckPathKeepsInv(env, CheckPaths(env, st, raws[..|raws| - 1]), raws[|raws| - 1]);
    }
  }

  /** Nothing is ever taken back: the checked set only grows, and candidates, logs and visits are only appended to. */
  lemma {:induction false} CheckPathsGrows(env: Env, st: ScanState, raws: seq<string>)
    ensures var r := CheckPaths(env, st, raws);
            && st.checked <= r.checked
            && st.candidates <= r.candidates && st.logs <= r.logs && st.visited <= r.visited
    decreases |raws|
  {
    if raws != [] {
      CheckPathsGrows(env, st, raws[..|raws| - 1]);
    }
  }

  /** A root whose raw text mentions OneDrive, in any letter case, changes nothing. */
  lemma CloudSyncIgnored(env: Env, st: ScanState, raw: string)
    requires Contains(Lower(raw), "onedrive")
    ensures CheckPath(env, st, raw) == st
  {
  }

  /** A root whose canonical path was already checked changes nothing. */
  lemma CheckedPathIgnored(env: Env, st: ScanState, raw: string)
    requires Canonicalize(env, raw) in st.checked
    ensures CheckPath(env, st, raw) == st
  {
  }

  /**
   * Every directory that gets scanned came from one of the raw roots: a root
   * without OneDrive in its text whose canonical path exists.
   */
  lemma {:induction false} VisitsComeFromRoots(env: Env, st: ScanState, raws: seq<string>)
    ensures var r := CheckPaths(env, st, raws);
            && |st.visited| <= |r.visited|
            && forall i :: |st.visited| <= i < |r.visited| ==>
                 r.visited[i] in env.existing &&
                 exists k :: 0 <= k < |raws| && !Contains(Lower(raws[k]), "onedrive") && Canonicalize(env, raws[k]) == r.visited[i]
    decreases |raws|
  {
    if raws != [] {
      var n := |raws| - 1;
      VisitsComeFromRoots(env, st, raws[..n]);
      CheckPathsGrows(env, st, raws[..n]);
      var mid := CheckPaths(env, st, raws[..n]);
      var r := CheckPaths(env, st, raws);
      forall i | |st.visited| <= i < |r.visited|
        ensures r.visited[i] in env.existing &&
                exists k :: 0 <= k < |raws| && !Contains(Lower(raws[k]), "onedrive") && Canonicalize(env, raws[k]) == r.visited[i]
      {
        if i < |mid.visited| {
          assert exists k :: 0 <= k < |raws[..n]| && !Contains(Lower(raws[..n][k]), "onedrive") && Canonicalize(env, raws[..n][k]) == mid.visited[i];
          var k :| 0 <= k < n && !Contains(Lower(raws[..n][k]), "onedrive") && Canonicalize(env, raws[..n][k]) == mid.visited[i];
          assert raws[..n][k] == raws[k];
        } else {
          assert Canonicalize(env, raws[n]) == r.visited[i];
        }
      }
    }
  }

  /** The candidates that scanning the directories `visits` in order produces. */
  function CandidatesOf(env: Env, visits: seq<Path>): seq<Candidate> {
    if visits == [] then [] else CandidatesOf(env, visits[..|visits| - 1]) + DirCandidates(env, visits[|visits| - 1], LogSpecs)
  }

  /** The candidate list is exactly the candidates of the visited directories, each scanned once, in order. */
  ghost predicate Traced(env: Env, st: ScanState) {
    st.candidates == CandidatesOf(env, st.visited)
  }

  lemma {:induction false} CheckPathsTraced(env: Env, st: ScanState, raws: seq<string>)
    requires Traced(env, st)
    ensures Traced(env, CheckPaths(env, st, raws))
    decreases |raws|
  {
    if raws != [] {
      var n := |raws| - 1;
      CheckPathsTraced(env, st, raws[..n]);
      var mid := CheckPaths(env, st, raws[..n]);
      if Admitted(env, mid.checked, raws[n]) {
        var vs := mid.visited + [Canonicalize(env, raws[n])];
        assert vs[..|vs| - 1] == mid.visited;
      }
    }
  }

  /** Each directory contributes at most one candidate per log file. */
  lemma {:induction false} AtMostTwoPerDirectory(env: Env, visits: seq<Path>)
    ensures |CandidatesOf(env, visits)| <= 2 * |visits|
    decreases |visits|
  {
    if visits != [] {
      AtMostTwoPerDirectory(env, visits[..|visits| - 1]);
      DirCandidatesFromFiles(env, visits[|visits| - 1], LogSpecs);
    }
  }

  /** The scanner's state: the three values the Rust code threads by `&mut`, plus the ghost record of visits. */
  class Scanner {
    var candidates: seq<Candidate>
    var checked: set<Path>
    var logs: seq<Message>
    ghost var visited: seq<Path>

    ghost function State(): ScanState
      reads this
    {
      ScanState(candidates, checked, logs, visited)
    }

    ghost predicate Valid()
      reads this
    {
      Inv(State())
    }

    constructor ()
      ensures Valid() && State() == Fresh
    {
      candidates, checked, logs, visited := [], {}, [], [];
    }

    /** Admission, then the scan of both log files of the admitted directory. */
    method CheckGamePath(env: Env, raw: string)
      requires Valid()
      modifies this
      ensures Valid()
      ensures State() == CheckPath(env, old(State()), raw)
    {
      CheckPathKeepsInv(env, State(), raw);
      var path := Canonicalize(env, raw);
      if Contains(Lower(raw), "onedrive") {
        return;
      }
      if path !in env.existing || path in checked {
        return;
      }
      checked := checked + {path};
      visited := visited + [path];
      ScanDirectory(env, raw, path);
    }

    /** The two log files of an admitted directory: their candidates, and one announcement if a log folder exists. */
    method ScanDirectory(env: Env, raw: string, path: Path)
      modifies this
      ensures candidates == old(candidates) + DirCandidates(env, path, LogSpecs)
      ensures logs == old(logs) + DirMessages(env, raw, path)
      ensures checked == old(checked) && visited == old(visited)
    {
      var foundDirectory := false;
      ghost var candidates0, logs0 := candidates, logs;
      for i := 0 to |LogSpecs|
        invariant checked == old(checked) && visited == old(visited)
        invariant candidates == candidates0 + DirCandidates(env, path, LogSpecs[..i])
        invariant foundDirectory == Announced(env, path, LogSpecs[..i])
        invariant logs == logs0 + (if foundDirectory then [DirectoryFound(raw)] else [])
      {
        DirCandidatesStep(env, path, LogSpecs, i);
        AnnouncedStep(env, path, LogSpecs, i);
        var spec := LogSpecs[i];
        if LogDir(path, spec) in env.existing && !foundDirectory {
          logs := logs + [DirectoryFound(raw)];
          foundDirectory := true;
        }
        var found := ScanLogFile(env, path, spec);
        if found.Some? {
          candidates := candidates + [found.value];
        }
      }
      assert LogSpecs[..|LogSpecs|] == LogSpecs;
    }

    method ScanMuiCache(env: Env)
      requires Valid()
      modifies this
      ensures Valid()
      ensures State() == CheckPaths(env, old(State()), MuiCacheRoots(env))
    {
      if env.muiCache.None? {
        return;
      }
      var values := env.muiCache.value;
      for i := 0 to |values|
        invariant Valid()
        invariant State() == CheckPaths(env, old(State()), FlatMap(MuiRoot, values[..i]))
      {
        FlatMapStep(MuiRoot, values, i);
        ghost var roots := FlatMap(MuiRoot, values[..i]);
        var v := values[i];
        CheckPathsAppend(env, old(State()), roots, MuiRoot(v));
        assert roots + [] == roots;
        if v.BadValue? {
          continue;
        }
        if !Contains(Lower(v.data), "wuthering") || !Contains(Lower(v.name), "client-win64-shipping.exe") {
          continue;
        }
        var root := ClientRoot(v.name);
        if root.Some? {
          CheckGamePath(env, root.value);
          CheckPathsOne(env, CheckPaths(env, old(State()), roots), root.value);
        }
      }
      assert values[..|values|] == values;
    }

    /** One firewall rule: the root taken from its first `app=` field, if the rule names the game. */
    method ScanRule(env: Env, rule: RegValue)
      requires Valid()
      modifies this
      ensures Valid()
      ensures State() == CheckPaths(env, old(State()), FirewallRoot(rule))
    {
      if rule.BadValue? {
        return;
      }
      var value := Lower(rule.data);
      if !Contains(value, "wuthering") || !Contains(value, "client-win64-shipping") {
        return;
      }
      var parts := Split(value, '|');
      var j := 0;
      while j < |parts|
        invariant 0 <= j <= |parts|
        invariant State() == old(State())
        invariant forall k :: 0 <= k < j ==> !StartsWith(parts[k], "app=")
      {
        if !StartsWith(parts[j], "app=") {
          j := j + 1;
          continue;
        }
        var appPath := parts[j][4..];
        var root := ClientRoot(appPath);
        FirewallRootAtFirstApp(rule, j);
        if root.Some? {
          CheckGamePath(env, root.value);
          CheckPathsOne(env, old(State()), root.value);
        }
        break;
      }
      if j == |parts| {
        FirewallRootWithoutApp(rule);
      }
    }

    method ScanFirewall(env: Env)
      requires Valid()
      modifies this
      ensures Valid()
      ensures State() == CheckPaths(env, old(State()), FirewallRoots(env))
    {
      if env.firewallRules.None? {
        return;
      }
      var rules := env.firewallRules.value;
      for i := 0 to |rules|
        invariant Valid()
        invariant State() == CheckPaths(env, old(State()), FlatMap(FirewallRoot, rules[..i]))
      {
        FlatMapStep(FirewallRoot, rules, i);
        ghost var roots := FlatMap(FirewallRoot, rules[..i]);
        var rule := rules[i];
        CheckPathsAppend(env, old(State()), roots, FirewallRoot(rule));
        ScanRule(env, rule);
      }
      assert rules[..|rules|] == rules;
    }

    method ScanRegistry(env: Env)
      requires Valid()
      modifies this
      ensures Valid()
      ensures State() == CheckPaths(env, old(State()), RegistryRoots(env))
    {
      for i := 0 to |UninstallKeys|
        invariant Valid()
        invariant State() == CheckPaths(env, old(State()), RegistryRootsOver(env, UninstallKeys[..i]))
      {
        ghost var outer := RegistryRootsOver(env, UninstallKeys[..i]);
        var keyPath := UninstallKeys[i];
        RegistryRootsOverStep(env, UninstallKeys, i);
        assert outer + [] == outer;
        if keyPath !in env.uninstall {
          continue;
        }
        var subkeys := env.uninstall[keyPath];
        for j := 0 to |subkeys|
          invariant Valid()
          invariant State() == CheckPaths(env, old(State()), outer + FlatMap(InstallRoot, subkeys[..j]))
        {
          ghost var inner := FlatMap(InstallRoot, subkeys[..j]);
          var item := subkeys[j];
          FlatMapStep(InstallRoot, subkeys, j);
          CheckPathsExtend(env, old(State()), outer, inner, InstallRoot(item));
          if item.BadSubkey? {
            continue;
          }
          var displayName := item.displayName.GetOr("");
          if !Contains(Lower(displayName), "wuthering") {
            continue;
          }
          var installPath := item.installPath.GetOr("");
          if installPath == "" {
            continue;
          }
          CheckGamePath(env, installPath);
          CheckPathsOne(env, CheckPaths(env, old(State()), outer + inner), installPath);
        }
        assert subkeys[..|subkeys|] == subkeys;
      }
      assert UninstallKeys[..|UninstallKeys|] == UninstallKeys;
    }

    /** The common install folders under one drive root, in their fixed order. */
    method ScanDrive(env: Env, drivePath: Path)
      requires Valid()
      modifies this
      ensures Valid()
      ensures State() == CheckPaths(env, old(State()), SubpathRoots(env, drivePath, CommonSubpaths))
    {
      for j := 0 to |CommonSubpaths|
        invariant Valid()
        invariant State() == CheckPaths(env, old(State()), SubpathRoots(env, drivePath, CommonSubpaths[..j]))
      {
        ghost var done := SubpathRoots(env, drivePath, CommonSubpaths[..j]);
        var fullPath := Join(drivePath, CommonSubpaths[j]);
        SubpathRootsStep(env, drivePath, CommonSubpaths, j);
        CheckPathsAppend(env, old(State()), done, if fullPath in env.existing then [fullPath] else []);
        assert done + [] == done;
        if fullPath in env.existing {
          CheckPathsOne(env, CheckPaths(env, old(State()), done), fullPath);
          CheckGamePath(env, fullPath);
        }
      }
      assert CommonSubpaths[..|CommonSubpaths|] == CommonSubpaths;
    }

    method ScanCommonPaths(env: Env)
      requires Valid()
      modifies this
      ensures Valid()
      ensures State() == CheckPaths(env, old(State()), CommonPathRoots(env))
    {
      for i := 0 to |Drives|
        invariant Valid()
        invariant State() == CheckPaths(env, old(State()), DriveRoots(env, Drives[..i]))
      {
        ghost var outer := DriveRoots(env, Drives[..i]);
        var drivePath := DrivePath(Drives[i]);
        DriveRootsStep(env, Drives, i);
        assert outer + [] == outer;
        if drivePath !in env.existing {
          continue;
        }
        CheckPathsAppend(env, old(State()), outer, SubpathRoots(env, drivePath, CommonSubpaths));
        ScanDrive(env, drivePath);
      }
      assert Drives[..|Drives|] == Drives;
    }
  }
}
