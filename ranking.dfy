/**
 * Ranking of the collected candidates: the stable descending sort by
 * timestamp that the scanner applies, and which candidate ends up first.
 */
module Ranking {
  import opened Environment

  predicate NewestFirst(s: seq<Candidate>) {
    forall i, j :: 0 <= i < j < |s| ==> s[i].timestamp >= s[j].timestamp
  }

  /** Places `c` after every entry at least as new as it, so equal times keep their order. */
  function Insert(c: Candidate, sorted: seq<Candidate>): (r: seq<Candidate>)
    ensures multiset(r) == multiset(sorted) + multiset{c}
    ensures |r| == |sorted| + 1
  {
    if sorted == [] then [c]
    else if sorted[0].timestamp < c.timestamp then [c] + sorted
    else
      assert sorted == [sorted[0]] + sorted[1..];
      [sorted[0]] + Insert(c, sorted[1..])
  }

  /** Inserting into a newest-first sequence keeps it newest first; `c` goes ahead only of strictly older entries. */
  lemma {:induction false} InsertSorted(c: Candidate, sorted: seq<Candidate>)
    requires NewestFirst(sorted)
    ensures NewestFirst(Insert(c, sorted))
    ensures Insert(c, sorted)[0] == if sorted != [] && c.timestamp <= sorted[0].timestamp then sorted[0] else c
    decreases |sorted|
  {
    if sorted == [] || sorted[0].timestamp < c.timestamp {
      assert forall j :: 0 <= j < |sorted| ==> sorted[j].timestamp <= sorted[0].timestamp;
    } else {
      var rest := Insert(c, sorted[1..]);
      InsertSorted(c, sorted[1..]);
      assert rest[0].timestamp <= sorted[0].timestamp;
      forall i, j | 0 <= i < j < |rest| + 1
        ensures ([sorted[0]] + rest)[i].timestamp >= ([sorted[0]] + rest)[j].timestamp
      {
        if i == 0 && j > 1 {
          assert rest[0].timestamp >= rest[j - 1].timestamp;
        }
      }
    }
  }

  /** `candidates.sort_by(|a, b| b.1.cmp(&a.1))`: a stable sort, newest first, of the same candidates. */
  function SortNewestFirst(s: seq<Candidate>): (r: seq<Candidate>)
    ensures NewestFirst(r)
    ensures multiset(r) == multiset(s)
    ensures |r| == |s|
  {
    if s == [] then []
    else
      assert s == s[..|s| - 1] + [s[|s| - 1]];
      InsertSorted(s[|s| - 1], SortNewestFirst(s[..|s| - 1]));
      Insert(s[|s| - 1], SortNewestFirst(s[..|s| - 1]))
  }

  /** `k` holds a newest candidate, and every candidate before it is strictly older. */
  predicate IsFirstNewest(s: seq<Candidate>, k: int) {
    && 0 <= k < |s|
    && (forall j :: 0 <= j < |s| ==> s[j].timestamp <= s[k].timestamp)
    && (forall j :: 0 <= j < k ==> s[j].timestamp < s[k].timestamp)
  }

  lemma FirstNewestUnique(s: seq<Candidate>, k1: int, k2: int)
    requires IsFirstNewest(s, k1) && IsFirstNewest(s, k2)
    ensures k1 == k2
  {
    assert s[k1].timestamp <= s[k2].timestamp && s[k2].timestamp <= s[k1].timestamp;
  }

  /** Appending one candidate: the first newest stays, unless the new one is strictly newer. */
  lemma FirstNewestExtend(s: seq<Candidate>, k0: int)
    requires |s| >= 2 && IsFirstNewest(s[..|s| - 1], k0)
    ensures IsFirstNewest(s, if s[k0].timestamp < s[|s| - 1].timestamp then |s| - 1 else k0)
  {
    var n := |s| - 1;
    var prefix := s[..n];
    assert prefix[k0] == s[k0];
    var k := if s[k0].timestamp < s[n].timestamp then n else k0;
    forall j | 0 <= j < |s| ensures s[j].timestamp <= s[k].timestamp {
      if j < n {
        assert prefix[j] == s[j];
      }
    }
    forall j | 0 <= j < k ensures s[j].timestamp < s[k].timestamp {
      assert prefix[j] == s[j];
    }
  }

  /**
   * The candidate the sort puts first is a newest one; among candidates with
   * the same newest time it is the one collected first.
   */
  lemma {:induction false} SortHead(s: seq<Candidate>)
    requires s != []
    ensures exists k :: IsFirstNewest(s, k) && SortNewestFirst(s)[0] == s[k]
    decreases |s|
  {
    var n := |s| - 1;
    if n == 0 {
      assert IsFirstNewest(s, 0);
    } else {
      var prefix := s[..n];
      SortHead(prefix);
      var k0 :| IsFirstNewest(prefix, k0) && SortNewestFirst(prefix)[0] == prefix[k0];
      var t := SortNewestFirst(prefix);
      assert SortNewestFirst(s) == Insert(s[n], t);
      InsertSorted(s[n], t);
      FirstNewestExtend(s, k0);
      var k := if s[k0].timestamp < s[n].timestamp then n else k0;
      assert SortNewestFirst(s)[0] == s[k];
    }
  }

  /** Two links 10 and 40 minutes old, in either order: the 10-minute one is ranked first. */
  lemma NewerLinkRanksFirst(a: Candidate, b: Candidate, nowSeconds: int)
    requires a.timestamp == nowSeconds - 600 && b.timestamp == nowSeconds - 2400
    ensures SortNewestFirst([a, b])[0] == a
    ensures SortNewestFirst([b, a])[0] == a
  {
    assert [a, b][..1] == [a];
    assert [b, a][..1] == [b];
    assert [a][..0] == [] && [b][..0] == [];
  }
}
