/**
 * The four discovery sources, as the ordered lists of raw candidate roots
 * each passes to the admission check: the MuiCache entries, the firewall
 * rules, the two uninstall registry roots, and the common install paths.
 */
module Discovery {
  import opened Options
  import opened Text
  import opened Environment

  /** The roots `f` yields for each element of `xs`, concatenated in order. */
  function FlatMap<T>(f: T -> seq<Path>, xs: seq<T>): seq<Path> {
    if xs == [] then [] else FlatMap(f, xs[..|xs| - 1]) + f(xs[|xs| - 1])
  }

  lemma FlatMapStep<T>(f: T -> seq<Path>, xs: seq<T>, i: nat)
    requires i < |xs|
    ensures FlatMap(f, xs[..i + 1]) == FlatMap(f, xs[..i]) + f(xs[i])
  {
    assert xs[..i + 1][..i] == xs[..i];
  }

  lemma {:induction false} FlatMapMembers<T>(f: T -> seq<Path>, xs: seq<T>, r: Path)
    ensures r in FlatMap(f, xs) <==> exists k :: 0 <= k < |xs| && r in f(xs[k])
    decreases |xs|
  {
    if xs != [] {
      var n := |xs| - 1;
      FlatMapMembers(f, xs[..n], r);
      assert forall k :: 0 <= k < n ==> xs[..n][k] == xs[k];
    }
  }

  // ---- MuiCache: recently run executables of the current user ----

  predicate MuiRelevant(v: RegValue) {
    v.RegValue? && Contains(Lower(v.data), "wuthering") && Contains(Lower(v.name), "client-win64-shipping.exe")
  }

  /** The root of a relevant entry: its original-case name, cut before the first `\client\` or `/client/`. */
  function MuiRoot(v: RegValue): seq<Path> {
    if MuiRelevant(v) && ClientRoot(v.name).Some? then [ClientRoot(v.name).value] else []
  }

  function MuiCacheRoots(env: Env): seq<Path> {
    if env.muiCache.None? then [] else FlatMap(MuiRoot, env.muiCache.value)
  }

  /** A MuiCache root comes from a relevant entry whose name contains the `client` segment, and every such entry yields one. */
  lemma MuiCacheRootsSpec(env: Env, r: Path)
    ensures r in MuiCacheRoots(env) <==>
              env.muiCache.Some? &&
              exists k :: 0 <= k < |env.muiCache.value| && MuiRelevant(env.muiCache.value[k])
                          && ClientRoot(env.muiCache.value[k].name) == Some(r)
  {
    if env.muiCache.Some? {
      FlatMapMembers(MuiRoot, env.muiCache.value, r);
    }
  }

  /**
   * The split is case-sensitive: a name with the usual `\Client\` folder
   * yields no root, although its lower-cased form would.
   */
  lemma MuiCacheIsCaseSensitive()
    ensures ClientRoot("D:\\WW\\Client\\a.exe").None?
    ensures ClientRoot(Lower("D:\\WW\\Client\\a.exe")) == Some("d:\\ww")
  {
    NoLowerC("D:\\WW\\Client\\a.exe");
    LowerOfSample();
    LowerSampleRoot();
  }

  lemma LowerSampleRoot()
    ensures ClientRoot("d:\\ww\\client\\a.exe") == Some("d:\\ww")
  {
    var t := "d:\\ww\\client\\a.exe";
    assert t[6..12] == "client";
    assert ClientSegmentAt(t, 5);
    forall k | 0 <= k < 5 ensures !ClientSegmentAt(t, k) {
      assert t[k + 1..k + 7][0] == t[k + 1] != 'c';
    }
    var root := ClientRoot(t);
    assert |root.value| == 5;
    assert t[..5] == "d:\\ww";
  }

  lemma NoLowerC(s: string)
    requires forall i :: 0 <= i < |s| ==> s[i] != 'c'
    ensures forall k :: !ClientSegmentAt(s, k)
  {
    forall k ensures !ClientSegmentAt(s, k) {
      if 0 <= k && k + 8 <= |s| {
        assert s[k + 1..k + 7][0] == s[k + 1];
      }
    }
  }

  lemma LowerOfSample()
    ensures Lower("D:\\WW\\Client\\a.exe") == "d:\\ww\\client\\a.exe"
  {
  }

  // ---- Firewall rules ----

  predicate FirewallRelevant(v: RegValue) {
    v.RegValue? && Contains(Lower(v.data), "wuthering") && Contains(Lower(v.data), "client-win64-shipping")
  }

  /** The `|`-separated fields of a rule, lower-cased. */
  function RuleTokens(v: RegValue): seq<string>
    requires v.RegValue?
  {
    Split(Lower(v.data), '|')
  }

  predicate IsFirstAppToken(parts: seq<string>, k: int) {
    0 <= k < |parts| && StartsWith(parts[k], "app=") && forall j :: 0 <= j < k ==> !StartsWith(parts[j], "app=")
  }

  function FirstAppIndex(parts: seq<string>): (k: nat)
    ensures k <= |parts|
    ensures k < |parts| ==> IsFirstAppToken(parts, k)
    ensures k == |parts| ==> forall j :: 0 <= j < |parts| ==> !StartsWith(parts[j], "app=")
  {
    if parts == [] then 0
    else if StartsWith(parts[0], "app=") then 0
    else
      var k := 1 + FirstAppIndex(parts[1..]);
      assert forall j :: 1 <= j < |parts| ==> parts[j] == parts[1..][j - 1];
      k
  }

  /**
   * A rule yields at most one root: only its first `app=` field is looked
   * at, and the root is the text before that field's first `client` segment.
   */
  function FirewallRoot(v: RegValue): (roots: seq<Path>)
    ensures |roots| <= 1
    ensures forall r :: r in roots <==>
              FirewallRelevant(v) &&
              exists k :: IsFirstAppToken(RuleTokens(v), k) && ClientRoot(RuleTokens(v)[k][4..]) == Some(r)
  {
    if !FirewallRelevant(v) then []
    else
      var parts := RuleTokens(v);
      var k := FirstAppIndex(parts);
      if k == |parts| then []
      else
        var root := ClientRoot(parts[k][4..]);
        if root.Some? then [root.value] else []
  }

  lemma FirewallRootAtFirstApp(v: RegValue, k: int)
    requires FirewallRelevant(v) && IsFirstAppToken(RuleTokens(v), k)
    ensures var root := ClientRoot(RuleTokens(v)[k][4..]);
            FirewallRoot(v) == if root.Some? then [root.value] else []
  {
    var parts := RuleTokens(v);
    var i := FirstAppIndex(parts);
    assert i == k;
  }

  lemma FirewallRootWithoutApp(v: RegValue)
    requires FirewallRelevant(v)
    requires forall k :: 0 <= k < |RuleTokens(v)| ==> !StartsWith(RuleTokens(v)[k], "app=")
    ensures FirewallRoot(v) == []
  {
  }

  function FirewallRoots(env: Env): seq<Path> {
    if env.firewallRules.None? then [] else FlatMap(FirewallRoot, env.firewallRules.value)
  }

  lemma FirewallRootsSpec(env: Env, r: Path)
    ensures r in FirewallRoots(env) <==>
              env.firewallRules.Some? &&
              exists k :: 0 <= k < |env.firewallRules.value| && r in FirewallRoot(env.firewallRules.value[k])
  {
    if env.firewallRules.Some? {
      FlatMapMembers(FirewallRoot, env.firewallRules.value, r);
    }
  }

  // ---- Uninstall registry roots ----

  const UninstallKeys := [
    "SOFTWARE\\Microsoft\\Windows\\CurrentVersion\\Uninstall",
    "SOFTWARE\\WOW6432Node\\Microsoft\\Windows\\CurrentVersion\\Uninstall"
  ]

  predicate InstallRelevant(e: UninstallEntry) {
    e.Subkey? && Contains(Lower(e.displayName.GetOr("")), "wuthering") && e.installPath.GetOr("") != ""
  }

  function InstallRoot(e: UninstallEntry): seq<Path> {
    if InstallRelevant(e) then [e.installPath.GetOr("")] else []
  }

  function KeyRoots(env: Env, key: string): seq<Path> {
    if key in env.uninstall then FlatMap(InstallRoot, env.uninstall[key]) else []
  }

  function RegistryRootsOver(env: Env, keys: seq<string>): seq<Path> {
    if keys == [] then [] else RegistryRootsOver(env, keys[..|keys| - 1]) + KeyRoots(env, keys[|keys| - 1])
  }

  lemma RegistryRootsOverStep(env: Env, keys: seq<string>, i: nat)
    requires i < |keys|
    ensures RegistryRootsOver(env, keys[..i + 1]) == RegistryRootsOver(env, keys[..i]) + KeyRoots(env, keys[i])
  {
    assert keys[..i + 1][..i] == keys[..i];
  }

  function RegistryRoots(env: Env): seq<Path> {
    RegistryRootsOver(env, UninstallKeys)
  }

  /** The registry passes on exactly the non-empty install paths of subkeys whose display name mentions the game. */
  lemma RegistryRootsSpec(env: Env, r: Path)
    ensures r in RegistryRoots(env) <==>
              exists i, k :: 0 <= i < |UninstallKeys| && UninstallKeys[i] in env.uninstall &&
                             0 <= k < |env.uninstall[UninstallKeys[i]]| &&
                             InstallRelevant(env.uninstall[UninstallKeys[i]][k]) &&
                             env.uninstall[UninstallKeys[i]][k].installPath == Some(r)
  {
    var keys := UninstallKeys;
    assert RegistryRoots(env) == KeyRoots(env, keys[0]) + KeyRoots(env, keys[1]) by {
      assert |keys| == 2 && keys[..1][..0] == [];
      assert RegistryRootsOver(env, keys[..1]) == KeyRoots(env, keys[0]);
      assert keys[..|keys| - 1] == keys[..1];
    }
    if keys[0] in env.uninstall {
      FlatMapMembers(InstallRoot, env.uninstall[keys[0]], r);
    }
    if keys[1] in env.uninstall {
      FlatMapMembers(InstallRoot, env.uninstall[keys[1]], r);
    }
  }

  // ---- Common install paths ----

  const Drives := "ABCDEFGHIJKLMNOPQRSTUVWXYZ"

  const CommonSubpaths := [
    "Wuthering Waves Game",
    "Wuthering Waves\\Wuthering Waves Game",
    "Games\\Wuthering Waves Game",
    "Games\\Wuthering Waves\\Wuthering Waves Game",
    "Program Files\\Epic Games\\WutheringWavesj3oFh",
    "Program Files\\Epic Games\\WutheringWavesj3oFh\\Wuthering Waves Game",
    "Games\\WeGameApps\\rail_apps\\Wuthering Waves(2002137)",
    "WeGameApps\\rail_apps\\Wuthering Waves(2002137)"
  ]

  function DrivePath(d: char): Path {
    [d] + ":/"
  }

  function SubpathRoots(env: Env, drive: Path, subs: seq<string>): seq<Path> {
    if subs == [] then []
    else
      var full := Join(drive, subs[|subs| - 1]);
      SubpathRoots(env, drive, subs[..|subs| - 1]) + (if full in env.existing then [full] else [])
  }

  function DriveRoots(env: Env, drives: seq<char>): seq<Path> {
    if drives == [] then []
    else
      var d := DrivePath(drives[|drives| - 1]);
      DriveRoots(env, drives[..|drives| - 1]) + (if d in env.existing then SubpathRoots(env, d, CommonSubpaths) else [])
  }

  lemma SubpathRootsStep(env: Env, drive: Path, subs: seq<string>, j: nat)
    requires j < |subs|
    ensures SubpathRoots(env, drive, subs[..j + 1]) ==
            SubpathRoots(env, drive, subs[..j]) + (if Join(drive, subs[j]) in env.existing then [Join(drive, subs[j])] else [])
  {
    assert subs[..j + 1][..j] == subs[..j];
  }

  lemma DriveRootsStep(env: Env, drives: seq<char>, i: nat)
    requires i < |drives|
    ensures DriveRoots(env, drives[..i + 1]) ==
            DriveRoots(env, drives[..i]) +
            (if DrivePath(drives[i]) in env.existing then SubpathRoots(env, DrivePath(drives[i]), CommonSubpaths) else [])
  {
    assert drives[..i + 1][..i] == drives[..i];
  }

  function CommonPathRoots(env: Env): seq<Path> {
    DriveRoots(env, Drives)
  }

  lemma {:induction false} SubpathRootsSpec(env: Env, drive: Path, subs: seq<string>, r: Path)
    ensures r in SubpathRoots(env, drive, subs) <==>
              r in env.existing && exists j :: 0 <= j < |subs| && r == Join(drive, subs[j])
    decreases |subs|
  {
    if subs != [] {
      var n := |subs| - 1;
      SubpathRootsSpec(env, drive, subs[..n], r);
      assert forall j :: 0 <= j < n ==> subs[..n][j] == subs[j];
    }
  }

  /** `r` is a fixed subpath under the existing drive root of letter `c`. */
  predicate UnderDrive(env: Env, c: char, r: Path) {
    DrivePath(c) in env.existing && exists j :: 0 <= j < |CommonSubpaths| && r == DrivePath(c) + CommonSubpaths[j]
  }

  /** What one drive contributes: its existing fixed subpaths, when the drive root exists. */
  lemma DriveContribution(env: Env, c: char, r: Path)
    ensures (DrivePath(c) in env.existing && r in SubpathRoots(env, DrivePath(c), CommonSubpaths)) <==>
            r in env.existing && UnderDrive(env, c, r)
  {
    var d := DrivePath(c);
    SubpathRootsSpec(env, d, CommonSubpaths, r);
    assert forall j :: 0 <= j < |CommonSubpaths| ==> Join(d, CommonSubpaths[j]) == d + CommonSubpaths[j];
  }

  /** Some letter among `drives` has `r` under its drive root. */
  predicate UnderSomeDrive(env: Env, drives: seq<char>, r: Path) {
    exists i :: 0 <= i < |drives| && UnderDrive(env, drives[i], r)
  }

  lemma UnderSomeDriveStep(env: Env, drives: seq<char>, r: Path)
    requires drives != []
    ensures UnderSomeDrive(env, drives, r) <==>
            UnderSomeDrive(env, drives[..|drives| - 1], r) || UnderDrive(env, drives[|drives| - 1], r)
  {
    var n := |drives| - 1;
    if UnderSomeDrive(env, drives, r) {
      var i :| 0 <= i < |drives| && UnderDrive(env, drives[i], r);
      if i < n {
        assert drives[..n][i] == drives[i];
      }
    }
    if UnderSomeDrive(env, drives[..n], r) {
      var i :| 0 <= i < n && UnderDrive(env, drives[..n][i], r);
      assert drives[..n][i] == drives[i];
    }
  }

  lemma {:induction false} DriveRootsSpec(env: Env, drives: seq<char>, r: Path)
    ensures r in DriveRoots(env, drives) <==> r in env.existing && UnderSomeDrive(env, drives, r)
    decreases |drives|
  {
    if drives != [] {
      var n := |drives| - 1;
      DriveRootsSpec(env, drives[..n], r);
      DriveContribution(env, drives[n], r);
      UnderSomeDriveStep(env, drives, r);
    }
  }

  /** The common-path source yields `X:/sub` for each existing drive and fixed subpath, when that path exists. */
  lemma CommonPathRootsSpec(env: Env, r: Path)
    ensures r in CommonPathRoots(env) <==>
              r in env.existing &&
              exists i, j :: 0 <= i < 26 && 0 <= j < 8 && DrivePath(Drives[i]) in env.existing
                             && r == DrivePath(Drives[i]) + CommonSubpaths[j]
  {
    DriveRootsSpec(env, Drives, r);
  }

  /** Every raw root, in the order the sources run. */
  function AllRoots(env: Env): seq<Path> {
    MuiCacheRoots(env) + FirewallRoots(env) + RegistryRoots(env) + CommonPathRoots(env)
  }
}
