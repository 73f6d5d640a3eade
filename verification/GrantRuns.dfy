/** Whole runs of a thread's sandbox grants: requests recorded one after another, the
    fallback acknowledged, and the thread saved and loaded again in between. */
module GrantRuns {
  import opened MinimalSets
  import opened HostPatterns
  import opened HostParsing
  import opened SandboxGrants
  import opened GrantLaws

  // ---- Saving and loading ------------------------------------------------------------------------

  predicate AllReparse(hosts: seq<HostPattern>, rules: NameRules) {
    forall k :: 0 <= k < |hosts| ==> Reparses(hosts[k], rules)
  }

  lemma {:induction false} ParseHostsFull(raw: seq<string>, rules: NameRules)
    ensures |ParseHosts(raw, rules)| <= |raw|
    ensures |ParseHosts(raw, rules)| == |raw| ==>
      forall k :: 0 <= k < |raw| ==> Parse(raw[k], rules) == Parsed(ParseHosts(raw, rules)[k])
  {
    if raw != [] {
      hide Parse;
      ParseHostsFull(raw[1..], rules);
    }
  }

  lemma {:induction false} ParsePrinted(hosts: seq<HostPattern>, rules: NameRules)
    requires AllReparse(hosts, rules)
    ensures ParseHosts(PrintHosts(hosts), rules) == hosts
  {
    if hosts != [] {
      hide Parse, Print, ParseHosts, Reparses;
      ParsePrinted(hosts[1..], rules);
      ParseHostsCons(hosts, rules);
    }
  }

  lemma ParseHostsCons(hosts: seq<HostPattern>, rules: NameRules)
    requires hosts != [] && Reparses(hosts[0], rules)
    ensures ParseHosts(PrintHosts(hosts), rules) == [hosts[0]] + ParseHosts(PrintHosts(hosts[1..]), rules)
  {
    hide Parse, Print;
    assert PrintHosts(hosts)[1..] == PrintHosts(hosts[1..]);
  }

  /** Saving and loading gives the same grants exactly when the host patterns are an
      antichain and each one is read back from its printed form. */
  lemma SaveLoadExact(g: Grants, rules: NameRules)
    ensures Loaded(Saved(g), rules) == g <==> Antichain(Covers, g.networkHosts) && AllReparse(g.networkHosts, rules)
  {
    hide Parse, Print, Covers, WellFormed;
    var hosts := g.networkHosts;
    var parsed := ParseHosts(PrintHosts(hosts), rules);
    if Antichain(Covers, hosts) && AllReparse(hosts, rules) {
      ParsePrinted(hosts, rules);
      assert [] + hosts == hosts;
      ReinsertAntichain(Covers, [], hosts);
    }
    if Loaded(Saved(g), rules) == g {
      assert InsertAll(Covers, [], parsed) == hosts;
      CoversPreorder();
      MinimalCoverOfAll(Covers, parsed);
      assert Antichain(Covers, hosts);
      ParseHostsFull(PrintHosts(hosts), rules);
      InsertAllFull(Covers, [], parsed);
      assert [] + parsed == parsed;
      assert hosts == parsed;
      forall k | 0 <= k < |hosts| ensures Reparses(hosts[k], rules) {
        assert Parse(PrintHosts(hosts)[k], rules) == Parsed(hosts[k]);
      }
    }
  }

  // ---- Runs --------------------------------------------------------------------------------------

  datatype Event = Recording(request: SandboxRequest) | Fallback | Reload

  function Step(g: Grants, e: Event, rules: NameRules): Grants {
    match e
    case Recording(request) => Recorded(g, request)
    case Fallback => g.(sandboxFallback := true)
    case Reload => Loaded(Saved(g), rules)
  }

  function Run(g: Grants, events: seq<Event>, rules: NameRules): Grants
    decreases events
  {
    if events == [] then g else Run(Step(g, events[0], rules), events[1..], rules)
  }

  /** Requested patterns come from parsing, which can read back what it printed. */
  predicate EventsReparse(events: seq<Event>, rules: NameRules) {
    forall k :: 0 <= k < |events| && events[k].Recording? ==>
      AllReparse(events[k].request.network.HostPatterns(), rules)
  }

  function RequestHosts(e: Event): seq<HostPattern> {
    if e.Recording? then e.request.network.HostPatterns() else []
  }

  function RequestPaths(e: Event): seq<GrantedWritePath> {
    if e.Recording? then e.request.writePaths else []
  }

  function AllHosts(events: seq<Event>): seq<HostPattern> {
    if events == [] then [] else RequestHosts(events[0]) + AllHosts(events[1..])
  }

  function AllPaths(events: seq<Event>): seq<GrantedWritePath> {
    if events == [] then [] else RequestPaths(events[0]) + AllPaths(events[1..])
  }

  /** The grants are the minimal cover of what has been recorded so far. */
  ghost predicate Minimal(g: Grants, hosts: seq<HostPattern>, paths: seq<GrantedWritePath>, rules: NameRules) {
    && MinimalCover(Covers, g.networkHosts, hosts)
    && MinimalCover(GrantCovers, g.writePaths, paths)
    && AllReparse(hosts, rules)
  }

  lemma MinimalReparse(g: Grants, hosts: seq<HostPattern>, paths: seq<GrantedWritePath>, rules: NameRules)
    requires Minimal(g, hosts, paths, rules)
    ensures Antichain(Covers, g.networkHosts) && AllReparse(g.networkHosts, rules)
  {}

  lemma StepMinimal(g: Grants, hosts: seq<HostPattern>, paths: seq<GrantedWritePath>, e: Event, rules: NameRules)
    requires Minimal(g, hosts, paths, rules)
    requires AllReparse(RequestHosts(e), rules)
    ensures Minimal(Step(g, e, rules), hosts + RequestHosts(e), paths + RequestPaths(e), rules)
  {
    hide MinimalCover, Reparses, Covers, GrantCovers, Loaded, Saved;
    CoversPreorder();
    GrantCoversPreorder();
    assert hosts + [] == hosts && paths + [] == paths;
    match e
    case Recording(request) =>
      MinimalCoverAll(Covers, g.networkHosts, hosts, RequestHosts(e));
      MinimalCoverAll(GrantCovers, g.writePaths, paths, RequestPaths(e));
    case Fallback =>
    case Reload =>
      MinimalReparse(g, hosts, paths, rules);
      SaveLoadExact(g, rules);
  }

  lemma {:induction false} RunMinimalFrom(
      g: Grants, hosts: seq<HostPattern>, paths: seq<GrantedWritePath>, events: seq<Event>, rules: NameRules)
    requires Minimal(g, hosts, paths, rules) && EventsReparse(events, rules)
    ensures Minimal(Run(g, events, rules), hosts + AllHosts(events), paths + AllPaths(events), rules)
    decreases events
  {
    hide *;
    if events == [] {
      NothingRecorded(g, rules);
      assert hosts + [] == hosts && paths + [] == paths;
    } else {
      var e, rest := events[0], events[1..];
      EventsReparseSplit(events, rules);
      StepMinimal(g, hosts, paths, e, rules);
      RunMinimalFrom(Step(g, e, rules), hosts + RequestHosts(e), paths + RequestPaths(e), rest, rules);
      RunCons(g, events, rules);
      assert hosts + RequestHosts(e) + AllHosts(rest) == hosts + (RequestHosts(e) + AllHosts(rest));
      assert paths + RequestPaths(e) + AllPaths(rest) == paths + (RequestPaths(e) + AllPaths(rest));
    }
  }

  lemma NothingRecorded(g: Grants, rules: NameRules)
    ensures Run(g, [], rules) == g && AllHosts([]) == [] && AllPaths([]) == []
  {}

  lemma RunCons(g: Grants, events: seq<Event>, rules: NameRules)
    requires events != []
    ensures Run(g, events, rules) == Run(Step(g, events[0], rules), events[1..], rules)
    ensures AllHosts(events) == RequestHosts(events[0]) + AllHosts(events[1..])
    ensures AllPaths(events) == RequestPaths(events[0]) + AllPaths(events[1..])
  {}

  lemma EventsReparseSplit(events: seq<Event>, rules: NameRules)
    requires events != [] && EventsReparse(events, rules)
    ensures AllReparse(RequestHosts(events[0]), rules) && EventsReparse(events[1..], rules)
  {}

  /** After any run from no grants, the granted patterns and paths are the minimal cover of
      all that was recorded; in particular they cover exactly what all of it covers. */
  lemma RunMinimal(events: seq<Event>, rules: NameRules)
    requires EventsReparse(events, rules)
    ensures MinimalCover(Covers, Run(NO_GRANTS, events, rules).networkHosts, AllHosts(events))
    ensures MinimalCover(GrantCovers, Run(NO_GRANTS, events, rules).writePaths, AllPaths(events))
    ensures forall pattern :: CoveredBy(Covers, Run(NO_GRANTS, events, rules).networkHosts, pattern) <==>
                              CoveredBy(Covers, AllHosts(events), pattern)
    ensures forall grant :: CoveredBy(GrantCovers, Run(NO_GRANTS, events, rules).writePaths, grant) <==>
                            CoveredBy(GrantCovers, AllPaths(events), grant)
  {
    RunMinimalFrom(NO_GRANTS, [], [], events, rules);
    assert [] + AllHosts(events) == AllHosts(events) && [] + AllPaths(events) == AllPaths(events);
    var g := Run(NO_GRANTS, events, rules);
    hide Run, MinimalCover, CoveredBy, Covers, GrantCovers, AllHosts, AllPaths;
    CoversPreorder();
    GrantCoversPreorder();
    forall pattern {
      MinimalCoverCovers(Covers, g.networkHosts, AllHosts(events), pattern);
    }
    forall grant {
      MinimalCoverCovers(GrantCovers, g.writePaths, AllPaths(events), grant);
    }
  }

  // ---- What every run keeps, from any grants that were loaded -----------------------------------------

  /** The granted patterns are an antichain and each is read back from its printed form. */
  predicate Sound(g: Grants, rules: NameRules) {
    Antichain(Covers, g.networkHosts) && AllReparse(g.networkHosts, rules)
  }

  lemma InsertSound(hosts: seq<HostPattern>, asked: seq<HostPattern>, rules: NameRules)
    requires Antichain(Covers, hosts) && AllReparse(hosts, rules) && AllReparse(asked, rules)
    ensures Antichain(Covers, InsertAll(Covers, hosts, asked)) && AllReparse(InsertAll(Covers, hosts, asked), rules)
  {
    hide Reparses, Covers;
    var m := InsertAll(Covers, hosts, asked);
    CoversPreorder();
    assert MinimalCover(Covers, hosts, hosts) by { CoversItself(hosts); }
    MinimalCoverAll(Covers, hosts, hosts, asked);
    forall k | 0 <= k < |m| ensures Reparses(m[k], rules) {
      MinimalMember(Covers, m, hosts + asked, k);
      var l :| 0 <= l < |hosts + asked| && (hosts + asked)[l] == m[k];
    }
  }

  lemma CoversItself(hosts: seq<HostPattern>)
    requires Antichain(Covers, hosts)
    ensures MinimalCover(Covers, hosts, hosts)
  {}

  /** Grants that were just loaded are sound, whatever the stored row held, if parsing
      reads back what it prints for the patterns it found. */
  lemma LoadedSound(db: DbGrants, rules: NameRules)
    requires AllReparse(ParseHosts(db.networkHosts, rules), rules)
    ensures Sound(Loaded(db, rules), rules)
  {
    InsertSound([], ParseHosts(db.networkHosts, rules), rules);
  }

  lemma {:induction false} RunSound(g: Grants, events: seq<Event>, rules: NameRules)
    requires Sound(g, rules) && EventsReparse(events, rules)
    ensures Sound(Run(g, events, rules), rules)
    decreases events
  {
    if events != [] {
      hide AllReparse, Antichain, Loaded, Saved;
      if events[0].Recording? {
        InsertSound(g.networkHosts, RequestHosts(events[0]), rules);
      }
      SaveLoadExact(g, rules);
      RunSound(Step(g, events[0], rules), events[1..], rules);
    }
  }

  /** Any state reached from sound grants is saved and loaded without a change. */
  lemma RunSavesAndLoads(g: Grants, events: seq<Event>, rules: NameRules)
    requires Sound(g, rules) && EventsReparse(events, rules)
    ensures Loaded(Saved(Run(g, events, rules)), rules) == Run(g, events, rules)
  {
    RunSound(g, events, rules);
    SaveLoadExact(Run(g, events, rules), rules);
  }

  lemma CoverageInserted<T(!new)>(covers: Covering<T>, s: seq<T>, xs: seq<T>, more: seq<T>, y: T)
    requires Preorder(covers) && CoveredBy(covers, s + more, y)
    ensures CoveredBy(covers, InsertAll(covers, s, xs) + more, y)
  {
    CoveredByAppend(covers, s, more, y);
    InsertAllCovers(covers, s, xs, y);
    CoveredByAppend(covers, InsertAll(covers, s, xs), more, y);
  }

  lemma RecordKeepsCovered(
      g: Grants, extra: SandboxRequest, request: SandboxRequest, persistent: SandboxPermissions, rules: NameRules)
    requires Covered(g, request, persistent, rules)
    ensures Covered(Recorded(g, extra), request, persistent, rules)
  {
    hide CoveredBy, ParseHosts, InsertAll, Covers, GrantCovers;
    CoversPreorder();
    GrantCoversPreorder();
    var parsed := ParseHosts(persistent.networkHosts, rules);
    var asked := request.network.HostPatterns();
    forall k | 0 <= k < |asked| && CoveredBy(Covers, g.networkHosts + parsed, asked[k])
      ensures CoveredBy(Covers, Recorded(g, extra).networkHosts + parsed, asked[k])
    {
      CoverageInserted(Covers, g.networkHosts, extra.network.HostPatterns(), parsed, asked[k]);
    }
    forall k | 0 <= k < |request.writePaths|
             && CoveredBy(GrantCovers, g.writePaths + persistent.writePaths, request.writePaths[k])
      ensures CoveredBy(GrantCovers, Recorded(g, extra).writePaths + persistent.writePaths, request.writePaths[k])
    {
      CoverageInserted(GrantCovers, g.writePaths, extra.writePaths, persistent.writePaths, request.writePaths[k]);
    }
  }

  /** A request that is covered once stays covered in every later state of the thread. */
  lemma {:induction false} CoverageNeverLost(
      g: Grants, events: seq<Event>, request: SandboxRequest, persistent: SandboxPermissions, rules: NameRules)
    requires Sound(g, rules) && EventsReparse(events, rules)
    requires Covered(g, request, persistent, rules)
    ensures Covered(Run(g, events, rules), request, persistent, rules)
    decreases events
  {
    if events != [] {
      var e := events[0];
      var next := Step(g, e, rules);
      assert Sound(next, rules) by {
        RunSound(g, [e], rules);
        assert Run(g, [e], rules) == Run(next, [], rules);
      }
      assert Covered(next, request, persistent, rules) by {
        match e {
          case Recording(extra) => RecordKeepsCovered(g, extra, request, persistent, rules);
          case Fallback => assert NetworkCovered(g, request.network, persistent, rules)
            ==> NetworkCovered(next, request.network, persistent, rules);
          case Reload => SaveLoadExact(g, rules);
        }
      }
      hide Covered, Sound, Step;
      CoverageNeverLost(next, events[1..], request, persistent, rules);
    }
  }

  /** Recording a request makes it covered, whatever was granted before. */
  lemma RecordedIsCovered(g: Grants, request: SandboxRequest, persistent: SandboxPermissions, rules: NameRules)
    ensures Covered(Recorded(g, request), request, persistent, rules)
  {
    hide ParseHosts, InsertAll, Covers, GrantCovers;
    var hosts, paths := request.network.HostPatterns(), request.writePaths;
    var parsed := ParseHosts(persistent.networkHosts, rules);
    forall k | 0 <= k < |hosts|
      ensures CoveredBy(Covers, InsertAll(Covers, g.networkHosts, hosts) + parsed, hosts[k])
    {
      CoversPreorder();
      assert Covers(hosts[k], hosts[k]);
      InsertAllCovers(Covers, g.networkHosts, hosts, hosts[k]);
      CoveredByAppend(Covers, InsertAll(Covers, g.networkHosts, hosts), parsed, hosts[k]);
    }
    forall k | 0 <= k < |paths|
      ensures CoveredBy(GrantCovers, InsertAll(GrantCovers, g.writePaths, paths) + persistent.writePaths, paths[k])
    {
      GrantCoversPreorder();
      assert GrantCovers(paths[k], paths[k]);
      InsertAllCovers(GrantCovers, g.writePaths, paths, paths[k]);
      CoveredByAppend(GrantCovers, InsertAll(GrantCovers, g.writePaths, paths), persistent.writePaths, paths[k]);
    }
  }

  // ---- The order of the requests does not matter ----------------------------------------------------

  lemma {:induction false} AllHostsMembers(events: seq<Event>, x: HostPattern)
    ensures x in AllHosts(events) <==> exists k :: 0 <= k < |events| && x in RequestHosts(events[k])
  {
    if events != [] {
      AllHostsMembers(events[1..], x);
      if x in AllHosts(events[1..]) {
        var k :| 0 <= k < |events[1..]| && x in RequestHosts(events[1..][k]);
        assert x in RequestHosts(events[k + 1]);
      }
      if k :| 0 < k < |events| && x in RequestHosts(events[k]) {
        assert x in RequestHosts(events[1..][k - 1]);
      }
    }
  }

  lemma {:induction false} AllPathsMembers(events: seq<Event>, x: GrantedWritePath)
    ensures x in AllPaths(events) <==> exists k :: 0 <= k < |events| && x in RequestPaths(events[k])
  {
    if events != [] {
      AllPathsMembers(events[1..], x);
      if x in AllPaths(events[1..]) {
        var k :| 0 <= k < |events[1..]| && x in RequestPaths(events[1..][k]);
        assert x in RequestPaths(events[k + 1]);
      }
      if k :| 0 < k < |events| && x in RequestPaths(events[k]) {
        assert x in RequestPaths(events[1..][k - 1]);
      }
    }
  }

  lemma SameEventsHosts(a: seq<Event>, b: seq<Event>)
    requires SameMembers(a, b)
    ensures SameMembers(AllHosts(a), AllHosts(b))
  {
    forall k | 0 <= k < |AllHosts(a)| ensures AllHosts(a)[k] in AllHosts(b) { HostsInside(a, b, AllHosts(a)[k]); }
    forall k | 0 <= k < |AllHosts(b)| ensures AllHosts(b)[k] in AllHosts(a) { HostsInside(b, a, AllHosts(b)[k]); }
  }

  lemma HostsInside(a: seq<Event>, b: seq<Event>, x: HostPattern)
    requires SameMembers(a, b) && x in AllHosts(a)
    ensures x in AllHosts(b)
  {
    hide RequestHosts;
    AllHostsMembers(a, x);
    AllHostsMembers(b, x);
    var k :| 0 <= k < |a| && x in RequestHosts(a[k]);
    var l :| 0 <= l < |b| && b[l] == a[k];
  }

  lemma SameEventsPaths(a: seq<Event>, b: seq<Event>)
    requires SameMembers(a, b)
    ensures SameMembers(AllPaths(a), AllPaths(b))
  {
    forall k | 0 <= k < |AllPaths(a)| ensures AllPaths(a)[k] in AllPaths(b) { PathsInside(a, b, AllPaths(a)[k]); }
    forall k | 0 <= k < |AllPaths(b)| ensures AllPaths(b)[k] in AllPaths(a) { PathsInside(b, a, AllPaths(b)[k]); }
  }

  lemma PathsInside(a: seq<Event>, b: seq<Event>, x: GrantedWritePath)
    requires SameMembers(a, b) && x in AllPaths(a)
    ensures x in AllPaths(b)
  {
    hide RequestPaths;
    AllPathsMembers(a, x);
    AllPathsMembers(b, x);
    var k :| 0 <= k < |a| && x in RequestPaths(a[k]);
    var l :| 0 <= l < |b| && b[l] == a[k];
  }

  function PatternSet(hosts: seq<HostPattern>): set<HostPattern> { set h | h in hosts }

  function TargetSet(paths: seq<GrantedWritePath>): set<Path> { set p | p in paths :: p.CanonicalOrRequested() }

  lemma SamePatterns(m: seq<HostPattern>, xs: seq<HostPattern>, m': seq<HostPattern>, xs': seq<HostPattern>)
    requires MinimalCover(Covers, m, xs) && MinimalCover(Covers, m', xs') && SameMembers(xs, xs')
    ensures PatternSet(m) <= PatternSet(m')
  {
    hide MinimalCover, SameMembers, Preorder, Covers;
    CoversPreorder();
    forall h | h in m ensures h in m' {
      var k :| 0 <= k < |m| && m[k] == h;
      MinimalCoverUnique(Covers, m, xs, m', xs', k);
      var l :| 0 <= l < |m'| && Equivalent(Covers, m[k], m'[l]);
      CoversAntisymmetric(m[k], m'[l]);
    }
  }

  lemma SameTargets(m: seq<GrantedWritePath>, xs: seq<GrantedWritePath>, m': seq<GrantedWritePath>,
                    xs': seq<GrantedWritePath>)
    requires MinimalCover(GrantCovers, m, xs) && MinimalCover(GrantCovers, m', xs') && SameMembers(xs, xs')
    ensures TargetSet(m) <= TargetSet(m')
  {
    hide MinimalCover, SameMembers, Preorder;
    GrantCoversPreorder();
    forall grant | grant in m ensures grant.CanonicalOrRequested() in TargetSet(m') {
      var k :| 0 <= k < |m| && m[k] == grant;
      MinimalCoverUnique(GrantCovers, m, xs, m', xs', k);
      var l :| 0 <= l < |m'| && Equivalent(GrantCovers, m[k], m'[l]);
      assert m'[l] in m' && m'[l].CanonicalOrRequested() == grant.CanonicalOrRequested();
    }
  }

  /** Two runs of the same events, in any order and with any repetition, end with the same
      patterns, the same granted targets and the same flags. */
  lemma OrderIrrelevant(a: seq<Event>, b: seq<Event>, rules: NameRules)
    requires EventsReparse(a, rules) && EventsReparse(b, rules) && SameMembers(a, b)
    ensures var ga, gb := Run(NO_GRANTS, a, rules), Run(NO_GRANTS, b, rules);
      && PatternSet(ga.networkHosts) == PatternSet(gb.networkHosts)
      && TargetSet(ga.writePaths) == TargetSet(gb.writePaths)
      && ga.networkAnyHost == gb.networkAnyHost
      && ga.allowFsWriteAll == gb.allowFsWriteAll
      && ga.unsandboxed == gb.unsandboxed
      && ga.sandboxFallback == gb.sandboxFallback
  {
    hide MinimalCover, PatternSet, TargetSet, SameMembers, Run;
    RunMinimal(a, rules);
    RunMinimal(b, rules);
    SameEventsHosts(a, b);
    SameEventsPaths(a, b);
    assert SameMembers(AllHosts(b), AllHosts(a)) && SameMembers(AllPaths(b), AllPaths(a)) by {
      SameMembersSwap(AllHosts(a), AllHosts(b));
      SameMembersSwap(AllPaths(a), AllPaths(b));
    }
    var ga, gb := Run(NO_GRANTS, a, rules), Run(NO_GRANTS, b, rules);
    SamePatterns(ga.networkHosts, AllHosts(a), gb.networkHosts, AllHosts(b));
    SamePatterns(gb.networkHosts, AllHosts(b), ga.networkHosts, AllHosts(a));
    SameTargets(ga.writePaths, AllPaths(a), gb.writePaths, AllPaths(b));
    SameTargets(gb.writePaths, AllPaths(b), ga.writePaths, AllPaths(a));
    RunFlags(NO_GRANTS, a, rules);
    RunFlags(NO_GRANTS, b, rules);
    SameAsked(a, b);
  }

  lemma SameMembersSwap<T>(xs: seq<T>, ys: seq<T>)
    requires SameMembers(xs, ys)
    ensures SameMembers(ys, xs)
  {}

  /** Some event of the run asks for a flag. */
  predicate Asked(events: seq<Event>, flag: Event -> bool) {
    exists k :: 0 <= k < |events| && flag(events[k])
  }

  predicate AsksAnyHost(e: Event) { e.Recording? && e.request.network.AnyHost? }
  predicate AsksWriteAll(e: Event) { e.Recording? && e.request.allowFsWriteAll }
  predicate AsksUnsandboxed(e: Event) { e.Recording? && e.request.unsandboxed }
  predicate AsksFallback(e: Event) { e.Fallback? }

  lemma AskedCons(events: seq<Event>, flag: Event -> bool)
    requires events != []
    ensures Asked(events, flag) <==> flag(events[0]) || Asked(events[1..], flag)
  {}

  lemma {:induction false} RunFlags(g: Grants, events: seq<Event>, rules: NameRules)
    ensures Run(g, events, rules).networkAnyHost <==> g.networkAnyHost || Asked(events, AsksAnyHost)
    ensures Run(g, events, rules).allowFsWriteAll <==> g.allowFsWriteAll || Asked(events, AsksWriteAll)
    ensures Run(g, events, rules).unsandboxed <==> g.unsandboxed || Asked(events, AsksUnsandboxed)
    ensures Run(g, events, rules).sandboxFallback <==> g.sandboxFallback || Asked(events, AsksFallback)
    decreases events
  {
    if events != [] {
      hide Asked;
      AskedCons(events, AsksAnyHost);
      AskedCons(events, AsksWriteAll);
      AskedCons(events, AsksUnsandboxed);
      AskedCons(events, AsksFallback);
      RunFlags(Step(g, events[0], rules), events[1..], rules);
    }
  }

  lemma SameAsked(a: seq<Event>, b: seq<Event>)
    requires SameMembers(a, b)
    ensures Asked(a, AsksAnyHost) == Asked(b, AsksAnyHost) && Asked(a, AsksWriteAll) == Asked(b, AsksWriteAll)
    ensures Asked(a, AsksUnsandboxed) == Asked(b, AsksUnsandboxed) && Asked(a, AsksFallback) == Asked(b, AsksFallback)
  {}

  /** A full escape is covered exactly after a full escape was recorded; the settings
      never cover it. */
  lemma EscapeCovered(events: seq<Event>, request: SandboxRequest, persistent: SandboxPermissions, rules: NameRules)
    requires request.unsandboxed
    ensures Covered(Run(NO_GRANTS, events, rules), request, persistent, rules) <==>
      exists k :: 0 <= k < |events| && events[k].Recording? && events[k].request.unsandboxed
  {
    RunFlags(NO_GRANTS, events, rules);
    if k :| 0 <= k < |events| && events[k].Recording? && events[k].request.unsandboxed {
      assert AsksUnsandboxed(events[k]);
    }
    if Asked(events, AsksUnsandboxed) {
      var k :| 0 <= k < |events| && AsksUnsandboxed(events[k]);
      assert events[k].request.unsandboxed;
    }
  }

  /** Whatever was recorded, acknowledged or loaded before, and for all settings, a command is
      enforced as unsandboxed exactly if it asks for it itself. */
  lemma RunEnforcedUnsandboxed(
      g: Grants, events: seq<Event>, request: SandboxRequest, persistent: SandboxPermissions, rules: NameRules)
    ensures Effective(Run(g, events, rules), request, persistent, rules).unsandboxed <==> request.unsandboxed
  {
    EnforcedUnsandboxed(Run(g, events, rules), request, persistent, rules);
  }
}
