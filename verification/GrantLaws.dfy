/** What the sandbox grants promise: a request is covered exactly when granting it would
    change nothing that is enforced, grants stay minimal and complete over any run,
    coverage is never lost, and saving then loading gives the same grants. */
module GrantLaws {
  import Options
  import opened MinimalSets
  import opened HostPatterns
  import opened HostParsing
  import opened SandboxGrants

  // ---- The extent of what is enforced ------------------------------------------------------------

  predicate Contains(paths: seq<GrantedWritePath>, path: Path) {
    exists k :: 0 <= k < |paths| && paths[k].CanonicalOrRequested() <= path
  }

  predicate Writable(r: SandboxRequest, path: Path) { r.allowFsWriteAll || Contains(r.writePaths, path) }

  predicate Reaches(r: SandboxRequest, host: string) {
    match r.network
    case NoNetwork => false
    case Hosts(hosts) => AnyMatches(hosts, host)
    case AnyHost => true
  }

  /** In the sandbox or not, same write-all flag, same writable paths, same any-host flag,
      same reachable hosts. */
  ghost predicate SameExtent(a: SandboxRequest, b: SandboxRequest) {
    && a.unsandboxed == b.unsandboxed
    && a.allowFsWriteAll == b.allowFsWriteAll
    && (forall path :: Writable(a, path) <==> Writable(b, path))
    && a.network.AnyHost? == b.network.AnyHost?
    && (forall host :: Reaches(a, host) <==> Reaches(b, host))
  }

  lemma GrantCoversPreorder()
    ensures Preorder(GrantCovers)
  {}

  /** Host lists that cover each other's elements match the same hosts. */
  lemma CoveredMatches(s: seq<HostPattern>, t: seq<HostPattern>, host: string)
    requires forall k :: 0 <= k < |t| ==> CoveredBy(Covers, s, t[k])
    requires AnyMatches(t, host)
    ensures AnyMatches(s, host)
  {
    var k :| 0 <= k < |t| && Matches(t[k], host);
    var l :| 0 <= l < |s| && Covers(s[l], t[k]);
    CoversContains(s[l], t[k], host);
  }

  lemma MinimalCoverOfAll<T(!new)>(covers: Covering<T>, xs: seq<T>)
    requires Preorder(covers)
    ensures MinimalCover(covers, InsertAll(covers, [], xs), xs)
  {
    MinimalCoverAll(covers, [], [], xs);
    assert [] + xs == xs;
  }

  lemma MinimalMatches(m: seq<HostPattern>, xs: seq<HostPattern>, host: string)
    requires MinimalCover(Covers, m, xs)
    ensures AnyMatches(m, host) <==> AnyMatches(xs, host)
  {
    hide Matches, Covers;
    if AnyMatches(m, host) {
      var k :| 0 <= k < |m| && Matches(m[k], host);
      var l :| 0 <= l < |xs| && xs[l] == m[k];
    }
    if AnyMatches(xs, host) {
      CoveredMatches(m, xs, host);
    }
  }

  lemma AnyMatchesAppend(s: seq<HostPattern>, t: seq<HostPattern>, host: string)
    ensures AnyMatches(s + t, host) <==> AnyMatches(s, host) || AnyMatches(t, host)
  {
    hide Matches;
    if AnyMatches(s, host) {
      var k :| 0 <= k < |s| && Matches(s[k], host);
      assert (s + t)[k] == s[k];
    }
    if AnyMatches(t, host) {
      var k :| 0 <= k < |t| && Matches(t[k], host);
      assert (s + t)[|s| + k] == t[k];
    }
  }

  function GrantedHosts(g: Grants, persistent: SandboxPermissions, rules: NameRules): seq<HostPattern> {
    g.networkHosts + ParseHosts(persistent.networkHosts, rules)
  }

  /** The reachable hosts of what is enforced: those of the grants, the settings and the
      request, as one union. */
  lemma EffectiveReaches(g: Grants, request: SandboxRequest, persistent: SandboxPermissions, rules: NameRules,
                         host: string)
    ensures Reaches(Effective(g, request, persistent, rules), host) <==>
      || g.networkAnyHost || persistent.allowAllHosts || request.network.AnyHost?
      || AnyMatches(GrantedHosts(g, persistent, rules), host)
      || AnyMatches(request.network.HostPatterns(), host)
  {
    var granted, asked := GrantedHosts(g, persistent, rules), request.network.HostPatterns();
    hide AnyMatches;
    CoversPreorder();
    MinimalCoverOfAll(Covers, granted + asked);
    MinimalMatches(EffectiveHosts(g, request, persistent, rules), granted + asked, host);
    AnyMatchesAppend(granted, asked, host);
    assert !AnyMatches([], host) by { NoneMatches(host); }
  }

  lemma NoneMatches(host: string)
    ensures !AnyMatches([], host)
  {}

  /** A grant of a bare path. */
  function FromRequested(path: Path): GrantedWritePath {
    GrantedWritePath(path, Options.None, false)
  }

  lemma ContainsIsCovered(paths: seq<GrantedWritePath>, path: Path)
    ensures Contains(paths, path) <==> CoveredBy(GrantCovers, paths, FromRequested(path))
  {}

  /** The writable paths of what is enforced: those of the grants, the settings and the
      request, as one union. */
  lemma EffectiveWritable(g: Grants, request: SandboxRequest, persistent: SandboxPermissions, rules: NameRules,
                          path: Path)
    ensures Writable(Effective(g, request, persistent, rules), path) <==>
      || g.allowFsWriteAll || persistent.allowFsWriteAll || request.allowFsWriteAll
      || Contains(g.writePaths + persistent.writePaths, path)
      || Contains(request.writePaths, path)
  {
    hide Contains, GrantCovers, EffectiveHosts;
    var bare := FromRequested(path);
    var paths := InsertAll(GrantCovers, persistent.writePaths, g.writePaths + request.writePaths);
    GrantCoversPreorder();
    InsertAllCovers(GrantCovers, persistent.writePaths, g.writePaths + request.writePaths, bare);
    CoveredByAppend(GrantCovers, g.writePaths, request.writePaths, bare);
    CoveredByAppend(GrantCovers, g.writePaths, persistent.writePaths, bare);
    ContainsIsCovered(paths, path);
    ContainsIsCovered(g.writePaths + persistent.writePaths, path);
    ContainsIsCovered(request.writePaths, path);
  }

  // ---- Covered means nothing changes ---------------------------------------------------------------

  predicate WellFormedHosts(hosts: seq<HostPattern>) {
    forall k :: 0 <= k < |hosts| ==> WellFormed(hosts[k])
  }

  /** A list of patterns adds hosts to another unless each one is covered. */
  lemma NewHosts(granted: seq<HostPattern>, asked: seq<HostPattern>)
    requires WellFormedHosts(asked)
    ensures (forall k :: 0 <= k < |asked| ==> CoveredBy(Covers, granted, asked[k])) <==>
            (forall host :: AnyMatches(asked, host) ==> AnyMatches(granted, host))
  {
    hide Covers, Matches, WellFormed;
    if forall host :: AnyMatches(asked, host) ==> AnyMatches(granted, host) {
      forall k | 0 <= k < |asked| ensures CoveredBy(Covers, granted, asked[k]) {
        UnionContainsIffCovered(granted, asked[k]);
      }
    }
    if forall k :: 0 <= k < |asked| ==> CoveredBy(Covers, granted, asked[k]) {
      forall host | AnyMatches(asked, host) ensures AnyMatches(granted, host) {
        CoveredMatches(granted, asked, host);
      }
    }
  }

  lemma NewPaths(granted: seq<GrantedWritePath>, asked: seq<GrantedWritePath>)
    ensures (forall k :: 0 <= k < |asked| ==> CoveredBy(GrantCovers, granted, asked[k])) <==>
            (forall path :: Contains(asked, path) ==> Contains(granted, path))
  {
    if forall path :: Contains(asked, path) ==> Contains(granted, path) {
      forall k | 0 <= k < |asked| ensures CoveredBy(GrantCovers, granted, asked[k]) {
        var path := asked[k].CanonicalOrRequested();
        assert Contains(asked, path);
        var l :| 0 <= l < |granted| && granted[l].CanonicalOrRequested() <= path;
        assert GrantCovers(granted[l], asked[k]);
      }
    }
    if forall k :: 0 <= k < |asked| ==> CoveredBy(GrantCovers, granted, asked[k]) {
      forall path | Contains(asked, path) ensures Contains(granted, path) {
        var k :| 0 <= k < |asked| && asked[k].CanonicalOrRequested() <= path;
        var l :| 0 <= l < |granted| && GrantCovers(granted[l], asked[k]);
        assert granted[l].CanonicalOrRequested() <= path;
      }
    }
  }

  lemma NetworkCoveredIffSame(g: Grants, request: SandboxRequest, persistent: SandboxPermissions, rules: NameRules)
    requires WellFormedHosts(request.network.HostPatterns())
    ensures NetworkCovered(g, request.network, persistent, rules) <==>
      && Effective(g, request, persistent, rules).network.AnyHost?
        == Effective(g, NO_REQUEST, persistent, rules).network.AnyHost?
      && (forall host :: Reaches(Effective(g, request, persistent, rules), host) <==>
                         Reaches(Effective(g, NO_REQUEST, persistent, rules), host))
  {
    var granted, asked := GrantedHosts(g, persistent, rules), request.network.HostPatterns();
    forall host
      ensures Reaches(Effective(g, request, persistent, rules), host) <==>
        || g.networkAnyHost || persistent.allowAllHosts || request.network.AnyHost?
        || AnyMatches(granted, host) || AnyMatches(asked, host)
      ensures Reaches(Effective(g, NO_REQUEST, persistent, rules), host) <==>
        || g.networkAnyHost || persistent.allowAllHosts || AnyMatches(granted, host)
    {
      EffectiveReaches(g, request, persistent, rules, host);
      EffectiveReaches(g, NO_REQUEST, persistent, rules, host);
      NoneMatches(host);
    }
    hide AnyMatches, CoveredBy, EffectiveHosts, Reaches, WellFormedHosts;
    NewHosts(granted, asked);
  }

  lemma WritesCoveredIffSame(g: Grants, request: SandboxRequest, persistent: SandboxPermissions, rules: NameRules)
    ensures (&& (request.allowFsWriteAll ==> g.allowFsWriteAll || persistent.allowFsWriteAll)
             && (|| g.allowFsWriteAll || persistent.allowFsWriteAll
                 || forall k :: 0 <= k < |request.writePaths| ==>
                      CoveredBy(GrantCovers, g.writePaths + persistent.writePaths, request.writePaths[k]))) <==>
      && Effective(g, request, persistent, rules).allowFsWriteAll
        == Effective(g, NO_REQUEST, persistent, rules).allowFsWriteAll
      && (forall path :: Writable(Effective(g, request, persistent, rules), path) <==>
                         Writable(Effective(g, NO_REQUEST, persistent, rules), path))
  {
    var granted, asked := g.writePaths + persistent.writePaths, request.writePaths;
    forall path
      ensures Writable(Effective(g, request, persistent, rules), path) <==>
        || g.allowFsWriteAll || persistent.allowFsWriteAll || request.allowFsWriteAll
        || Contains(granted, path) || Contains(asked, path)
      ensures Writable(Effective(g, NO_REQUEST, persistent, rules), path) <==>
        || g.allowFsWriteAll || persistent.allowFsWriteAll || Contains(granted, path)
    {
      EffectiveWritable(g, request, persistent, rules, path);
      EffectiveWritable(g, NO_REQUEST, persistent, rules, path);
    }
    hide Contains, CoveredBy, EffectiveHosts, Writable;
    NewPaths(granted, asked);
  }

  /** What is enforced is unsandboxed exactly if this request asks for it, whatever was
      granted before. */
  lemma EnforcedUnsandboxed(g: Grants, request: SandboxRequest, persistent: SandboxPermissions, rules: NameRules)
    ensures Effective(g, request, persistent, rules).unsandboxed <==> request.unsandboxed
  {}

  /** A request that is not a full escape runs without a prompt exactly when adding it
      would leave what is enforced unchanged; a full escape always changes it, and runs
      without a prompt exactly when one was granted. */
  lemma CoveredIffExtentUnchanged(g: Grants, request: SandboxRequest, persistent: SandboxPermissions, rules: NameRules)
    requires WellFormedHosts(request.network.HostPatterns())
    ensures !request.unsandboxed ==>
      (Covered(g, request, persistent, rules) <==>
       SameExtent(Effective(g, request, persistent, rules), Effective(g, NO_REQUEST, persistent, rules)))
    ensures request.unsandboxed ==>
      && (Covered(g, request, persistent, rules) <==> g.unsandboxed)
      && !SameExtent(Effective(g, request, persistent, rules), Effective(g, NO_REQUEST, persistent, rules))
  {
    EnforcedUnsandboxed(g, request, persistent, rules);
    EnforcedUnsandboxed(g, NO_REQUEST, persistent, rules);
    NetworkCoveredIffSame(g, request, persistent, rules);
    WritesCoveredIffSame(g, request, persistent, rules);
    hide Effective, NetworkCovered, CoveredBy, Writable, Reaches;
  }

  // ---- What is enforced, part by part ----------------------------------------------------------------

  /** No network at all exactly if nothing grants or asks for a host; otherwise the patterns
      enforced are a minimal cover of all that were granted, set or asked for. */
  lemma EffectiveNetwork(g: Grants, request: SandboxRequest, persistent: SandboxPermissions, rules: NameRules)
    ensures var all := GrantedHosts(g, persistent, rules) + request.network.HostPatterns();
      match Effective(g, request, persistent, rules).network
      case AnyHost => g.networkAnyHost || persistent.allowAllHosts || request.network.AnyHost?
      case NoNetwork =>
        !g.networkAnyHost && !persistent.allowAllHosts && !request.network.AnyHost? && all == []
      case Hosts(patterns) =>
        && !g.networkAnyHost && !persistent.allowAllHosts && !request.network.AnyHost?
        && patterns != [] && MinimalCover(Covers, patterns, all)
  {
    hide Covers;
    var all := GrantedHosts(g, persistent, rules) + request.network.HostPatterns();
    CoversPreorder();
    MinimalCoverOfAll(Covers, all);
    var patterns := EffectiveHosts(g, request, persistent, rules);
    assert patterns == InsertAll(Covers, [], all);
    assert all != [] ==> CoveredBy(Covers, patterns, all[0]);
  }

  /** A grant reaches the paths under its resolved target; one that was never resolved, those
      under the path as requested. */
  lemma GrantReaches(paths: seq<GrantedWritePath>, path: Path)
    ensures Contains(paths, path) <==>
      exists k :: 0 <= k < |paths| &&
        match paths[k].resolved
        case Some(target) => target <= path
        case None => paths[k].requested <= path
  {}
}
