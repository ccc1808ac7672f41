/**
 * The whole scan: acquire the clipboard, run the four discovery sources in
 * order over one shared scan state, rank what was collected, and report
 * the newest link together with its freshness.
 */
module Pipeline {
  import opened Options
  import opened Timestamps
  import opened Environment
  import opened Discovery
  import opened Scanner
  import opened Ranking

  /** The clipboard: unavailable (with the error text), or available with the outcome of writing to it. */
  datatype Clipboard = ClipboardUnavailable(reason: string) | ClipboardReady(writeError: Option<string>)

  /** The scan state after all four sources, starting from an empty state. */
  function Discover(env: Env): ScanState {
    CheckPaths(env, Fresh, AllRoots(env))
  }

  /** Running the four sources one after another is the fold over all their roots. */
  lemma DiscoverInOrder(env: Env)
    ensures Discover(env) ==
            CheckPaths(env, CheckPaths(env, CheckPaths(env, CheckPaths(env, Fresh, MuiCacheRoots(env)),
              FirewallRoots(env)), RegistryRoots(env)), CommonPathRoots(env))
  {
    CheckPathsAppend(env, Fresh, MuiCacheRoots(env), FirewallRoots(env));
    CheckPathsAppend(env, Fresh, MuiCacheRoots(env) + FirewallRoots(env), RegistryRoots(env));
    CheckPathsAppend(env, Fresh, MuiCacheRoots(env) + FirewallRoots(env) + RegistryRoots(env), CommonPathRoots(env));
  }

  /** A complete scan reads each directory once, and keeps exactly the candidates of what it read, at most two each. */
  lemma DiscoverFacts(env: Env)
    ensures Inv(Discover(env))
    ensures Traced(env, Discover(env))
    ensures |Discover(env).candidates| <= 2 * |Discover(env).visited|
  {
    var d := Discover(env);
    assert Inv(Fresh) && Traced(env, Fresh);
    CheckPathsKeepsInv(env, Fresh, AllRoots(env));
    CheckPathsTraced(env, Fresh, AllRoots(env));
    AtMostTwoPerDirectory(env, d.visited);
  }

  /** Every directory a complete scan read exists and is the canonical form of a root outside OneDrive. */
  lemma DiscoverProvenance(env: Env)
    ensures forall i :: 0 <= i < |Discover(env).visited| ==>
              Discover(env).visited[i] in env.existing &&
              exists k :: 0 <= k < |AllRoots(env)| && !Text.Contains(Text.Lower(AllRoots(env)[k]), "onedrive")
                          && Canonicalize(env, AllRoots(env)[k]) == Discover(env).visited[i]
  {
    VisitsComeFromRoots(env, Fresh, AllRoots(env));
  }

  /** The messages after ranking: the freshness verdict, then a warning if writing the clipboard failed. */
  function Verdict(best: Candidate, now: Instant, clipboard: Clipboard): seq<Message>
    requires clipboard.ClipboardReady?
  {
    [if Expired(now, best.timestamp) then LinkExpired(best.timestamp) else LinkCopied]
    + (if clipboard.writeError.Some? then [CopyFailed(clipboard.writeError.value)] else [])
  }

  /**
   * `scan_gacha_url`: returns the link (or none, or the clipboard error), the
   * progress messages in emission order, and the text written to the
   * clipboard, if any.
   */
  method ScanGachaUrl(env: Env, clipboard: Clipboard, now: Instant)
    returns (result: Result<Option<string>, string>, logs: seq<Message>, copied: Option<string>)
    ensures clipboard.ClipboardUnavailable? ==> result == Err(clipboard.reason) && logs == [] && copied == None
    ensures clipboard.ClipboardReady? && Discover(env).candidates == [] ==>
              result == Ok(None) && logs == Discover(env).logs + [NothingFound] && copied == None
    ensures clipboard.ClipboardReady? && Discover(env).candidates != [] ==>
              exists k :: && IsFirstNewest(Discover(env).candidates, k)
                          && result == Ok(Some(Discover(env).candidates[k].url))
                          && copied == Some(Discover(env).candidates[k].url)
                          && logs == Discover(env).logs + Verdict(Discover(env).candidates[k], now, clipboard)
  {
    if clipboard.ClipboardUnavailable? {
      return Err(clipboard.reason), [], None;
    }
    var scanner := new Scanner();
    scanner.ScanMuiCache(env);
    scanner.ScanFirewall(env);
    scanner.ScanRegistry(env);
    scanner.ScanCommonPaths(env);
    DiscoverInOrder(env);

    logs := scanner.logs;
    if scanner.candidates == [] {
      logs := logs + [NothingFound];
      return Ok(None), logs, None;
    }

    var sorted := SortNewestFirst(scanner.candidates);
    var best := sorted[0];
    SortHead(scanner.candidates);
    logs := logs + Verdict(best, now, clipboard);
    copied := Some(best.url);
    return Ok(Some(best.url)), logs, copied;
  }
}
