/**
 * The string operations the discovery sources apply to registry data:
 * lower-casing, substring tests, splitting a firewall rule on `|`, and
 * splitting an executable path at its `\client\` segment.
 */
module Text {
  import opened Options

  /** Lower-casing of one character (ASCII letters only). */
  function LowerChar(c: char): char {
    if 'A' <= c <= 'Z' then (c as int - 'A' as int + 'a' as int) as char else c
  }

  function Lower(s: string): string {
    seq(|s|, i requires 0 <= i < |s| => LowerChar(s[i]))
  }

  predicate StartsWith(s: string, prefix: string) {
    |prefix| <= |s| && s[..|prefix|] == prefix
  }

  predicate Contains(s: string, sub: string) {
    exists i | 0 <= i <= |s| - |sub| :: StartsWith(s[i..], sub)
  }

  /** Index of the first `c` in `s`, or `|s|` when there is none. */
  function IndexOf(s: string, c: char): (k: nat)
    ensures k <= |s|
    ensures forall j :: 0 <= j < k ==> s[j] != c
    ensures k < |s| ==> s[k] == c
    decreases |s|
  {
    if s == [] then 0 else if s[0] == c then 0 else 1 + IndexOf(s[1..], c)
  }

  /** `str::split` on one character: every field, including empty ones, in order. */
  function Split(s: string, sep: char): (parts: seq<string>)
    ensures |parts| >= 1
    ensures forall k :: 0 <= k < |parts| ==> sep !in parts[k]
    decreases |s|
  {
    var i := IndexOf(s, sep);
    if i == |s| then [s] else [s[..i]] + Split(s[i + 1..], sep)
  }

  /** The inverse of `Split`: the fields glued back together with `sep`. */
  function JoinWith(parts: seq<string>, sep: char): string
    requires |parts| >= 1
  {
    if |parts| == 1 then parts[0] else parts[0] + [sep] + JoinWith(parts[1..], sep)
  }

  /** Splitting loses nothing: joining the fields gives back the original text. */
  lemma {:induction false} SplitJoin(s: string, sep: char)
    ensures JoinWith(Split(s, sep), sep) == s
    decreases |s|
  {
    var i := IndexOf(s, sep);
    if i < |s| {
      var rest := Split(s[i + 1..], sep);
      var parts := Split(s, sep);
      assert parts == [s[..i]] + rest;
      assert parts[0] == s[..i] && parts[1..] == rest;
      SplitJoin(s[i + 1..], sep);
      assert JoinWith(parts, sep) == s[..i] + [sep] + s[i + 1..];
      assert s == s[..i] + [sep] + s[i + 1..];
    }
  }

  predicate IsSeparator(c: char) {
    c == '\\' || c == '/'
  }

  /** The case-sensitive pattern `[\\/]client[\\/]` matches `s` at offset `i`. */
  predicate ClientSegmentAt(s: string, i: int) {
    0 <= i && i + 8 <= |s| && IsSeparator(s[i]) && s[i + 1..i + 7] == "client" && IsSeparator(s[i + 7])
  }

  function ClientRootFrom(s: string, i: nat): (root: Option<string>)
    requires i <= |s|
    ensures root.Some? ==> i <= |root.value| && ClientSegmentAt(s, |root.value|) && root.value == s[..|root.value|]
    ensures root.Some? ==> forall k :: i <= k < |root.value| ==> !ClientSegmentAt(s, k)
    ensures root.None? ==> forall k :: i <= k ==> !ClientSegmentAt(s, k)
    decreases |s| - i
  {
    if i + 8 > |s| then None
    else if ClientSegmentAt(s, i) then Some(s[..i])
    else ClientRootFrom(s, i + 1)
  }

  /**
   * The first field of a regex split of `s` on `[\\/]client[\\/]`, when the
   * split yields more than one field: the text before the leftmost match.
   */
  function ClientRoot(s: string): (root: Option<string>)
    ensures root.Some? ==> ClientSegmentAt(s, |root.value|) && root.value == s[..|root.value|]
    ensures root.Some? ==> forall k :: 0 <= k < |root.value| ==> !ClientSegmentAt(s, k)
    ensures root.None? <==> forall k :: !ClientSegmentAt(s, k)
  {
    ClientRootFrom(s, 0)
  }
}
