/** The sandbox permissions a user grants to a thread: what `record` keeps, what counts as
    already covered, what is enforced, and what survives being saved and loaded. */
module SandboxGrants {
  import Options
  import opened MinimalSets
  import opened HostPatterns
  import opened HostParsing

  /** A path as its components; a directory contains the paths it is a prefix of. */
  type Path = seq<string>

  datatype GrantedWritePath = GrantedWritePath(requested: Path, resolved: Options.Option<Path>, onWindowsFs: bool) {
    function CanonicalOrRequested(): Path {
      if resolved.Some? then resolved.value else requested
    }
  }

  predicate GrantCovers(a: GrantedWritePath, b: GrantedWritePath) {
    a.CanonicalOrRequested() <= b.CanonicalOrRequested()
  }

  datatype NetworkRequest = NoNetwork | Hosts(patterns: seq<HostPattern>) | AnyHost {
    function HostPatterns(): seq<HostPattern> {
      if Hosts? then patterns else []
    }
  }

  datatype SandboxRequest = SandboxRequest(
    network: NetworkRequest, allowFsWriteAll: bool, unsandboxed: bool, writePaths: seq<GrantedWritePath>)

  /** The request of a command that asks for nothing. */
  const NO_REQUEST := SandboxRequest(NoNetwork, false, false, [])

  /** The persistent "allow always" settings that grants are combined with. */
  datatype SandboxPermissions = SandboxPermissions(
    allowAllHosts: bool, networkHosts: seq<string>, allowFsWriteAll: bool, writePaths: seq<GrantedWritePath>)

  datatype DbGrants = DbGrants(
    writePaths: seq<GrantedWritePath>, networkHosts: seq<string>, networkAnyHost: bool,
    allowFsWriteAll: bool, unsandboxed: bool, sandboxFallback: bool)

  /** The value of a `ThreadSandboxGrants`. */
  datatype Grants = Grants(
    networkAnyHost: bool, networkHosts: seq<HostPattern>, allowFsWriteAll: bool,
    unsandboxed: bool, sandboxFallback: bool, writePaths: seq<GrantedWritePath>)

  const NO_GRANTS := Grants(false, [], false, false, false, [])

  /** The strings that parse, as patterns, in order. */
  function ParseHosts(raw: seq<string>, rules: NameRules): (r: seq<HostPattern>)
    ensures forall k :: 0 <= k < |r| ==> WellFormed(r[k])
  {
    if raw == [] then []
    else (match Parse(raw[0], rules)
          case Parsed(pattern) => [pattern]
          case Rejected(_) => []) + ParseHosts(raw[1..], rules)
  }

  function PrintHosts(hosts: seq<HostPattern>): seq<string> {
    seq(|hosts|, i requires 0 <= i < |hosts| => Print(hosts[i]))
  }

  // ---- The operations, on values -----------------------------------------------------------------

  function Recorded(g: Grants, request: SandboxRequest): Grants {
    Grants(g.networkAnyHost || request.network.AnyHost?,
           InsertAll(Covers, g.networkHosts, request.network.HostPatterns()),
           g.allowFsWriteAll || request.allowFsWriteAll,
           g.unsandboxed || request.unsandboxed,
           g.sandboxFallback,
           InsertAll(GrantCovers, g.writePaths, request.writePaths))
  }

  predicate NetworkCovered(g: Grants, request: NetworkRequest, persistent: SandboxPermissions, rules: NameRules) {
    var anyHostGranted := g.networkAnyHost || persistent.allowAllHosts;
    match request
    case NoNetwork => true
    case AnyHost => anyHostGranted
    case Hosts(requested) =>
      anyHostGranted ||
      var granted := g.networkHosts + ParseHosts(persistent.networkHosts, rules);
      forall k :: 0 <= k < |requested| ==> CoveredBy(Covers, granted, requested[k])
  }

  /** Whether a command with this request runs without prompting again. */
  predicate Covered(g: Grants, request: SandboxRequest, persistent: SandboxPermissions, rules: NameRules) {
    var writeAllGranted := g.allowFsWriteAll || persistent.allowFsWriteAll;
    if request.unsandboxed then g.unsandboxed
    else if !NetworkCovered(g, request.network, persistent, rules) then false
    else if request.allowFsWriteAll && !writeAllGranted then false
    else (writeAllGranted ||
          forall k :: 0 <= k < |request.writePaths| ==>
            CoveredBy(GrantCovers, g.writePaths + persistent.writePaths, request.writePaths[k]))
  }

  function EffectiveHosts(g: Grants, request: SandboxRequest, persistent: SandboxPermissions, rules: NameRules)
    : seq<HostPattern>
  {
    InsertAll(Covers, [], g.networkHosts + ParseHosts(persistent.networkHosts, rules) + request.network.HostPatterns())
  }

  /** What is enforced for a command: grants, settings and the request together. */
  function Effective(g: Grants, request: SandboxRequest, persistent: SandboxPermissions, rules: NameRules)
    : SandboxRequest
  {
    var hosts := EffectiveHosts(g, request, persistent, rules);
    SandboxRequest(
      if g.networkAnyHost || persistent.allowAllHosts || request.network.AnyHost? then AnyHost
      else if hosts == [] then NoNetwork
      else Hosts(hosts),
      persistent.allowFsWriteAll || g.allowFsWriteAll || request.allowFsWriteAll,
      request.unsandboxed,
      InsertAll(GrantCovers, persistent.writePaths, g.writePaths + request.writePaths))
  }

  function Saved(g: Grants): DbGrants {
    DbGrants(g.writePaths, PrintHosts(g.networkHosts), g.networkAnyHost, g.allowFsWriteAll, g.unsandboxed,
             g.sandboxFallback)
  }

  function LoadedHosts(raw: seq<string>, rules: NameRules): seq<HostPattern> {
    InsertAll(Covers, [], ParseHosts(raw, rules))
  }

  function Loaded(db: DbGrants, rules: NameRules): Grants {
    Grants(db.networkAnyHost, LoadedHosts(db.networkHosts, rules), db.allowFsWriteAll, db.unsandboxed,
           db.sandboxFallback, db.writePaths)
  }

  lemma {:induction false} ParseHostsSnoc(raw: seq<string>, s: string, rules: NameRules)
    ensures ParseHosts(raw + [s], rules) ==
      ParseHosts(raw, rules) + (if Parse(s, rules).Parsed? then [Parse(s, rules).pattern] else [])
  {
    if raw == [] {
      assert (raw + [s])[1..] == [];
    } else {
      assert (raw + [s])[1..] == raw[1..] + [s];
      ParseHostsSnoc(raw[1..], s, rules);
    }
  }

  lemma NoneLoaded(raw: seq<string>, rules: NameRules)
    ensures LoadedHosts(raw[..0], rules) == []
  {}

  /** Loading one more string inserts its pattern, if it parses. */
  lemma LoadOne(raw: seq<string>, k: nat, rules: NameRules)
    requires k < |raw|
    ensures var hosts, parsed := LoadedHosts(raw[..k], rules), Parse(raw[k], rules);
            LoadedHosts(raw[..k + 1], rules) ==
              if parsed.Parsed? then Insert(Covers, hosts, parsed.pattern) else hosts
  {
    hide Parse, Insert, InsertAll, ParseHosts;
    var hosts := ParseHosts(raw[..k], rules);
    assert raw[..k + 1] == raw[..k] + [raw[k]];
    ParseHostsSnoc(raw[..k], raw[k], rules);
    if Parse(raw[k], rules).Parsed? {
      InsertAllSnoc(Covers, [], hosts, Parse(raw[k], rules).pattern);
    } else {
      assert hosts + [] == hosts;
    }
  }

  // ---- The operations, in place ------------------------------------------------------------------

  /** Inserts each element of a list in turn, as the loops of `record` do. */
  method InsertEach<T>(covers: Covering<T>, s: seq<T>, xs: seq<T>) returns (r: seq<T>)
    ensures r == InsertAll(covers, s, xs)
  {
    r := s;
    for k := 0 to |xs|
      invariant r == InsertAll(covers, s, xs[..k])
    {
      assert xs[..k + 1] == xs[..k] + [xs[k]];
      InsertAllSnoc(covers, s, xs[..k], xs[k]);
      r := InsertMinimal(covers, r, xs[k]);
    }
    assert xs[..|xs|] == xs;
  }

  class ThreadSandboxGrants {
    var networkAnyHost: bool
    var networkHosts: seq<HostPattern>
    var allowFsWriteAll: bool
    var unsandboxed: bool
    var sandboxFallback: bool
    var writePaths: seq<GrantedWritePath>

    function Value(): Grants
      reads this
    {
      Grants(networkAnyHost, networkHosts, allowFsWriteAll, unsandboxed, sandboxFallback, writePaths)
    }

    constructor ()
      ensures Value() == NO_GRANTS
    {
      networkAnyHost, networkHosts, allowFsWriteAll := false, [], false;
      unsandboxed, sandboxFallback, writePaths := false, false, [];
    }

    constructor FromDb(db: DbGrants, rules: NameRules)
      ensures Value() == Loaded(db, rules)
      ensures networkAnyHost == db.networkAnyHost && allowFsWriteAll == db.allowFsWriteAll
      ensures unsandboxed == db.unsandboxed && sandboxFallback == db.sandboxFallback && writePaths == db.writePaths
    {
      hide Parse, Insert, LoadedHosts;
      var hosts: seq<HostPattern> := [];
      NoneLoaded(db.networkHosts, rules);
      for k := 0 to |db.networkHosts|
        invariant hosts == LoadedHosts(db.networkHosts[..k], rules)
      {
        LoadOne(db.networkHosts, k, rules);
        var parsed := Parse(db.networkHosts[k], rules);
        if parsed.Parsed? {
          hosts := InsertMinimal(Covers, hosts, parsed.pattern);
        }
      }
      assert db.networkHosts[..|db.networkHosts|] == db.networkHosts;
      networkAnyHost, networkHosts, allowFsWriteAll := db.networkAnyHost, hosts, db.allowFsWriteAll;
      unsandboxed, sandboxFallback, writePaths := db.unsandboxed, db.sandboxFallback, db.writePaths;
    }

    /** What is stored, field by field; hosts in their printed form. */
    function ToDb(): (db: DbGrants)
      reads this
      ensures networkAnyHost == db.networkAnyHost && allowFsWriteAll == db.allowFsWriteAll
      ensures unsandboxed == db.unsandboxed && sandboxFallback == db.sandboxFallback && writePaths == db.writePaths
      ensures |db.networkHosts| == |networkHosts|
    {
      Saved(Value())
    }

    method RecordFallback()
      modifies `sandboxFallback
      ensures Value() == old(Value()).(sandboxFallback := true)
    {
      sandboxFallback := true;
    }

    method Record(request: SandboxRequest)
      modifies this
      ensures Value() == Recorded(old(Value()), request)
    {
      match request.network {
        case NoNetwork =>
        case AnyHost => networkAnyHost := true;
        case Hosts(hosts) => networkHosts := InsertEach(Covers, networkHosts, hosts);
      }
      allowFsWriteAll := allowFsWriteAll || request.allowFsWriteAll;
      unsandboxed := unsandboxed || request.unsandboxed;
      writePaths := InsertEach(GrantCovers, writePaths, request.writePaths);
    }

    predicate CoversWithPersistent(request: SandboxRequest, persistent: SandboxPermissions, rules: NameRules)
      reads this
    {
      Covered(Value(), request, persistent, rules)
    }

    method EffectiveWithPersistent(request: SandboxRequest, persistent: SandboxPermissions, rules: NameRules)
      returns (effective: SandboxRequest)
      ensures effective == Effective(Value(), request, persistent, rules)
      ensures effective.unsandboxed == request.unsandboxed
      ensures effective.allowFsWriteAll <==>
        persistent.allowFsWriteAll || allowFsWriteAll || request.allowFsWriteAll
      ensures effective.network.AnyHost? <==>
        networkAnyHost || persistent.allowAllHosts || request.network.AnyHost?
    {
      var network := AnyHost;
      if !(networkAnyHost || persistent.allowAllHosts || request.network.AnyHost?) {
        var hosts := InsertEach(
          Covers, [], networkHosts + ParseHosts(persistent.networkHosts, rules) + request.network.HostPatterns());
        network := if hosts == [] then NoNetwork else Hosts(hosts);
      }
      var paths := InsertEach(GrantCovers, persistent.writePaths, writePaths + request.writePaths);
      effective := SandboxRequest(
        network, persistent.allowFsWriteAll || allowFsWriteAll || request.allowFsWriteAll, request.unsandboxed, paths);
    }
  }
}
