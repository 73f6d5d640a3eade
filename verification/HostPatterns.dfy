/** Host patterns of the network allowlist, on strings: an exact host name or a `*.`
    wildcard.  Which pattern covers which agrees with the sets of hosts they match, and
    a pattern inside a finite union of patterns is covered by a single one of them. */
module HostPatterns {
  import MinimalSets

  datatype HostPattern = Exact(host: string) | Subdomain(parent: string)

  predicate EndsWith(s: string, suffix: string) {
    |suffix| <= |s| && s[|s| - |suffix|..] == suffix
  }

  function WithoutSuffix(s: string, suffix: string): string
    requires EndsWith(s, suffix)
  {
    s[..|s| - |suffix|]
  }

  function LowerChar(c: char): char {
    if 'A' <= c <= 'Z' then ((c as int) + 32) as char else c
  }

  function Lower(s: string): string { seq(|s|, i requires 0 <= i < |s| => LowerChar(s[i])) }

  /** Host names are compared without case and without one trailing dot. */
  function Canonical(host: string): string {
    Lower(if EndsWith(host, ".") then WithoutSuffix(host, ".") else host)
  }

  predicate IsSubdomainOf(host: string, parent: string) {
    && EndsWith(host, parent)
    && EndsWith(WithoutSuffix(host, parent), ".")
    && WithoutSuffix(WithoutSuffix(host, parent), ".") != ""
  }

  predicate Matches(pattern: HostPattern, host: string) {
    match pattern
    case Exact(name) => Canonical(host) == name
    case Subdomain(parent) =>
      EndsWith(Canonical(host), parent) && EndsWith(WithoutSuffix(Canonical(host), parent), ".")
  }

  predicate Covers(self: HostPattern, other: HostPattern) {
    match (self, other)
    case (Exact(a), Exact(b)) => a == b
    case (Exact(_), Subdomain(_)) => false
    case (Subdomain(parent), Exact(host)) => IsSubdomainOf(host, parent)
    case (Subdomain(parent), Subdomain(child)) => child == parent || IsSubdomainOf(child, parent)
  }

  function Name(pattern: HostPattern): string {
    match pattern
    case Exact(host) => host
    case Subdomain(parent) => parent
  }

  /** What parsing guarantees of a name and the laws below need: not empty, lower case,
      no dot at either end. */
  predicate WellFormedName(name: string) {
    && name != ""
    && name[0] != '.'
    && name[|name| - 1] != '.'
    && Lower(name) == name
  }

  predicate WellFormed(pattern: HostPattern) { WellFormedName(Name(pattern)) }

  // ---- Subdomains as concatenations ------------------------------------------------------------

  lemma SubdomainSplits(host: string, parent: string) returns (front: string)
    requires IsSubdomainOf(host, parent)
    ensures front != "" && host == front + "." + parent
  {
    front := WithoutSuffix(WithoutSuffix(host, parent), ".");
  }

  lemma SubdomainJoins(front: string, parent: string)
    requires front != ""
    ensures IsSubdomainOf(front + "." + parent, parent)
  {}

  lemma SubdomainTransitive(a: string, b: string, c: string)
    requires IsSubdomainOf(a, b) && IsSubdomainOf(b, c)
    ensures IsSubdomainOf(a, c)
  {}

  // ---- What matching means -------------------------------------------------------------------------

  predicate Upper(c: char) { 'A' <= c <= 'Z' }

  /** `d` is `c`, in lower case if it is a capital letter. */
  predicate SameLetter(c: char, d: char) {
    if Upper(c) then 'a' <= d <= 'z' && (d as int) - ('a' as int) == (c as int) - ('A' as int) else d == c
  }

  /** The host spells the name, in any case. */
  predicate Spells(host: string, name: string) {
    |host| == |name| && forall i :: 0 <= i < |host| ==> SameLetter(host[i], name[i])
  }

  lemma SpellsIff(host: string, name: string)
    ensures Spells(host, name) <==> Lower(host) == name
  {
    if Lower(host) == name {
      forall i | 0 <= i < |host| ensures SameLetter(host[i], name[i]) { assert name[i] == Lower(host)[i]; }
    }
    if Spells(host, name) {
      forall i | 0 <= i < |host| ensures Lower(host)[i] == name[i] { assert SameLetter(host[i], name[i]); }
    }
  }

  /** The host spells the name, in any case, with or without one trailing dot. */
  predicate SpellsHost(host: string, name: string) { Spells(host, name) || Spells(host, name + ".") }

  lemma CanonicalIff(host: string, name: string)
    requires name == "" || name[|name| - 1] != '.'
    ensures SpellsHost(host, name) ==> Canonical(host) == name
    ensures Canonical(host) == name && name != "" ==> SpellsHost(host, name)
  {
    hide Lower, Spells;
    SpellsIff(host, name);
    SpellsIff(host, name + ".");
    if EndsWith(host, ".") {
      var front := WithoutSuffix(host, ".");
      assert host == front + ".";
      LowerDot(front);
      assert Lower(front)[..|front|] == Lower(front) by { LowerLength(front); }
      LowerLength(front);
      LowerLength(host);
      assert Lower(host)[|host| - 1] == '.';
      if Lower(host) == name + "." {
        assert (name + ".")[..|name|] == name && (Lower(front) + ".")[..|front|] == Lower(front);
      }
    } else {
      LowerLength(host);
      if Lower(host) == name + "." { LowerEnd(host); }
    }
  }

  lemma LowerLength(s: string)
    ensures |Lower(s)| == |s|
  {}

  lemma LowerDot(front: string)
    ensures Lower(front + ".") == Lower(front) + "."
  {}

  lemma LowerEnd(s: string)
    requires s != "" && Lower(s)[|s| - 1] == '.'
    ensures EndsWith(s, ".")
  {
    assert s[|s| - 1..] == [s[|s| - 1]];
  }

  /** An exact pattern matches the hosts that spell its name. */
  lemma ExactMatches(name: string, host: string)
    requires WellFormedName(name)
    ensures Matches(Exact(name), host) <==> SpellsHost(host, name)
  {
    CanonicalIff(host, name);
  }

  /** A wildcard matches the hosts that spell some text, a dot and the parent; never the
      parent itself. */
  lemma WildcardMatches(parent: string, host: string)
    requires WellFormedName(parent)
    ensures Matches(Subdomain(parent), host) <==> exists left :: SpellsHost(host, left + "." + parent)
    ensures SpellsHost(host, parent) ==> !Matches(Subdomain(parent), host)
  {
    hide Canonical, SpellsHost, WellFormedName;
    ParentEnd(parent);
    if Matches(Subdomain(parent), host) {
      var left := MatchesSplit(parent, host);
      CanonicalIff(host, left + "." + parent);
      assert SpellsHost(host, left + "." + parent);
    }
    if left :| SpellsHost(host, left + "." + parent) {
      CanonicalIff(host, left + "." + parent);
      MatchesJoin(left, parent, host);
    }
    CanonicalIff(host, parent);
  }

  lemma ParentEnd(parent: string)
    requires WellFormedName(parent)
    ensures parent != "" && parent[|parent| - 1] != '.'
  {}

  // ---- The order ---------------------------------------------------------------------------------

  lemma CoversPreorder()
    ensures MinimalSets.Preorder(Covers)
  {
    forall x, y, z | Covers(x, y) && Covers(y, z) ensures Covers(x, z) {
      if x.Subdomain? && y.Subdomain? && x != y && y != z {
        SubdomainTransitive(Name(z), y.parent, x.parent);
      }
    }
  }

  lemma CoversAntisymmetric(a: HostPattern, b: HostPattern)
    requires Covers(a, b) && Covers(b, a)
    ensures a == b
  {}

  // ---- Covering is containment ---------------------------------------------------------------------

  lemma MatchesSplit(parent: string, host: string) returns (left: string)
    requires Matches(Subdomain(parent), host)
    ensures Canonical(host) == left + "." + parent
  {
    left := WithoutSuffix(WithoutSuffix(Canonical(host), parent), ".");
  }

  lemma MatchesJoin(left: string, parent: string, host: string)
    requires Canonical(host) == left + "." + parent
    ensures Matches(Subdomain(parent), host)
  {}

  lemma CoversContains(a: HostPattern, b: HostPattern, host: string)
    requires Covers(a, b) && Matches(b, host)
    ensures Matches(a, host)
  {
    match a
    case Exact(_) =>
    case Subdomain(parent) =>
      if a != b {
        var front := SubdomainSplits(Name(b), parent);
        if b.Subdomain? {
          var left := MatchesSplit(b.parent, host);
          assert Canonical(host) == (left + "." + front) + "." + parent;
          MatchesJoin(left + "." + front, parent, host);
        } else {
          MatchesJoin(front, parent, host);
        }
      }
  }

  lemma CanonicalWellFormed(name: string)
    requires WellFormedName(name)
    ensures Canonical(name) == name
  {}

  function LongestName(s: seq<HostPattern>): (n: nat)
    ensures forall k :: 0 <= k < |s| ==> |Name(s[k])| <= n
  {
    if s == [] then 0
    else
      var rest := LongestName(s[1..]);
      if |Name(s[0])| <= rest then rest else |Name(s[0])|
  }

  /** A host that the pattern matches: itself, or a subdomain under a label longer than
      every name in the list. */
  function Witness(s: seq<HostPattern>, pattern: HostPattern): string {
    match pattern
    case Exact(host) => host
    case Subdomain(parent) => seq(LongestName(s) + 1, _ => 'a') + "." + parent
  }

  lemma WitnessMatches(s: seq<HostPattern>, pattern: HostPattern)
    requires WellFormed(pattern)
    ensures WellFormedName(Witness(s, pattern)) && Matches(pattern, Witness(s, pattern))
  {
    var host := Witness(s, pattern);
    if pattern.Subdomain? {
      var front := seq(LongestName(s) + 1, _ => 'a');
      assert Lower(host) == host by {
        forall i | 0 <= i < |host| ensures LowerChar(host[i]) == host[i] {
          if i > |front| {
            assert host[i] == pattern.parent[i - |front| - 1];
            assert Lower(pattern.parent)[i - |front| - 1] == pattern.parent[i - |front| - 1];
          }
        }
      }
      CanonicalWellFormed(host);
      MatchesJoin(front, pattern.parent, host);
    } else {
      CanonicalWellFormed(host);
    }
  }

  /** A suffix starting with a dot cannot start inside a label without one. */
  lemma WitnessUnder(front: string, parent: string, left: string, p: string)
    requires WellFormedName(parent)
    requires forall i :: 0 <= i < |front| ==> front[i] != '.'
    requires front + "." + parent == left + "." + p
    ensures p == parent || IsSubdomainOf(parent, p)
  {
    var host := front + "." + parent;
    assert host[|left|] == '.' by { assert (left + "." + p)[|left|] == '.'; }
    assert |left| >= |front|;
    if |left| == |front| {
      assert host[|front| + 1..] == parent;
      assert (left + "." + p)[|left| + 1..] == p;
    } else {
      var m := left[|front| + 1..];
      assert parent == host[|front| + 1..];
      assert host[|front| + 1..] == m + "." + p by {
        assert (left + "." + p)[|front| + 1..] == m + "." + p;
      }
      assert parent[0] == (m + "." + p)[0];
      SubdomainJoins(m, p);
    }
  }

  /** A wildcard that matches the witness covers the pattern. */
  lemma WildcardCovers(s: seq<HostPattern>, pattern: HostPattern, p: string)
    requires WellFormed(pattern) && Matches(Subdomain(p), Witness(s, pattern))
    ensures Covers(Subdomain(p), pattern)
  {
    hide Lower;
    var host := Witness(s, pattern);
    WitnessMatches(s, pattern);
    CanonicalWellFormed(host);
    var left := MatchesSplit(p, host);
    match pattern {
      case Exact(name) =>
        assert host[0] == (left + "." + p)[0];
        SubdomainJoins(left, p);
      case Subdomain(parent) =>
        WitnessUnder(seq(LongestName(s) + 1, _ => 'a'), parent, left, p);
    }
  }

  /** The witness is matched only by patterns that cover `pattern`. */
  lemma WitnessOnlyCovered(s: seq<HostPattern>, pattern: HostPattern, k: nat)
    requires WellFormed(pattern) && k < |s|
    requires Matches(s[k], Witness(s, pattern))
    ensures Covers(s[k], pattern)
  {
    hide Lower, EndsWith, IsSubdomainOf;
    match s[k]
    case Exact(name) =>
      WitnessMatches(s, pattern);
      CanonicalWellFormed(Witness(s, pattern));
      assert |Name(s[k])| <= LongestName(s);
    case Subdomain(p) =>
      WildcardCovers(s, pattern, p);
  }

  predicate AnyMatches(s: seq<HostPattern>, host: string) {
    exists k :: 0 <= k < |s| && Matches(s[k], host)
  }

  /** The hosts a pattern matches lie inside those of a list exactly when one pattern of
      the list covers it. */
  lemma UnionContainsIffCovered(s: seq<HostPattern>, pattern: HostPattern)
    requires WellFormed(pattern)
    ensures MinimalSets.CoveredBy(Covers, s, pattern) <==> forall host :: Matches(pattern, host) ==> AnyMatches(s, host)
  {
    if MinimalSets.CoveredBy(Covers, s, pattern) {
      var k :| 0 <= k < |s| && Covers(s[k], pattern);
      forall host | Matches(pattern, host) ensures AnyMatches(s, host) {
        CoversContains(s[k], pattern, host);
      }
    } else {
      WitnessMatches(s, pattern);
      forall k | 0 <= k < |s| ensures !Matches(s[k], Witness(s, pattern)) {
        if Matches(s[k], Witness(s, pattern)) { WitnessOnlyCovered(s, pattern, k); }
      }
    }
  }
}
