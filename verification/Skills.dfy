/** Same-named skills: the list the model sees, built in one pass with an index of names,
    against the skill a slash command picks by filtering and reducing. */
module Skills {
  import opened Options

  datatype SkillSource = BuiltIn | Global | ProjectLocal(worktree: nat, rootName: string) {
    function Precedence(): nat {
      match this
      case BuiltIn => 0
      case Global => 1
      case ProjectLocal(_, _) => 2
    }
  }

  datatype Skill = Skill(name: string, source: SkillSource, path: string)

  // ---- What a slash command picks --------------------------------------------------------------

  function Named(skills: seq<Skill>, name: string): (r: seq<Skill>)
    ensures forall k :: 0 <= k < |r| ==> r[k].name == name
  {
    if skills == [] then []
    else
      var last := skills[|skills| - 1];
      Named(skills[..|skills| - 1], name) + if last.name == name then [last] else []
  }

  /** The reduction: a later candidate wins only with a higher precedence. */
  function Best(skills: seq<Skill>): (best: Skill)
    requires skills != []
    ensures best in skills
  {
    if |skills| == 1 then skills[0]
    else
      var best, candidate := Best(skills[..|skills| - 1]), skills[|skills| - 1];
      if candidate.source.Precedence() > best.source.Precedence() then candidate else best
  }

  function Resolved(skills: seq<Skill>, name: string): Option<Skill> {
    if Named(skills, name) == [] then None else Some(Best(Named(skills, name)))
  }

  // ---- What the model sees ---------------------------------------------------------------------

  /** The names of a list, each once, in the order in which they first appear. */
  function FirstNames(skills: seq<Skill>): seq<string> {
    if skills == [] then []
    else
      var names, name := FirstNames(skills[..|skills| - 1]), skills[|skills| - 1].name;
      if name in names then names else names + [name]
  }

  lemma {:induction false} NameResolves(skills: seq<Skill>, name: string)
    ensures name in FirstNames(skills) <==> Resolved(skills, name).Some?
  {
    if skills != [] {
      NameResolves(skills[..|skills| - 1], name);
    }
  }

  function Overridden(skills: seq<Skill>): (r: seq<Skill>)
    ensures |r| == |FirstNames(skills)|
    ensures forall k :: 0 <= k < |r| ==> r[k].name == FirstNames(skills)[k] && Resolved(skills, r[k].name) == Some(r[k])
  {
    forall name ensures name in FirstNames(skills) <==> Named(skills, name) != [] { NameResolves(skills, name); }
    seq(|FirstNames(skills)|, k requires 0 <= k < |FirstNames(skills)| => Best(Named(skills, FirstNames(skills)[k])))
  }

  /** The index holds, for each name seen, its position in the result. */
  ghost predicate Indexed(indices: map<string, nat>, result: seq<Skill>) {
    && (forall name :: name in indices ==> indices[name] < |result| && result[indices[name]].name == name)
    && (forall k :: 0 <= k < |result| ==> result[k].name in indices && indices[result[k].name] == k)
  }

  ghost predicate Agrees(result: seq<Skill>, skills: seq<Skill>) {
    && |result| == |FirstNames(skills)|
    && (forall k :: 0 <= k < |result| ==> result[k].name == FirstNames(skills)[k])
    && (forall k :: 0 <= k < |result| ==> Resolved(skills, result[k].name) == Some(result[k]))
  }

  lemma ResolvedSnoc(skills: seq<Skill>, skill: Skill, name: string)
    ensures name != skill.name ==> Resolved(skills + [skill], name) == Resolved(skills, name)
    ensures name == skill.name ==> Resolved(skills + [skill], name) == Some(
      match Resolved(skills, name)
      case None => skill
      case Some(best) => if skill.source.Precedence() > best.source.Precedence() then skill else best)
  {
    var all := skills + [skill];
    assert all[..|all| - 1] == skills;
    var named := Named(skills, name);
    assert named + [] == named;
    assert (named + [skill])[..|named|] == named;
  }

  lemma FirstNamesSnoc(skills: seq<Skill>, skill: Skill)
    ensures FirstNames(skills + [skill]) ==
      FirstNames(skills) + if skill.name in FirstNames(skills) then [] else [skill.name]
  {}

  /** The winner of an entry and a later skill of the same name. */
  function Winner(entry: Skill, skill: Skill): Skill {
    if skill.source.Precedence() > entry.source.Precedence() then skill else entry
  }

  lemma ReplaceIndexed(result: seq<Skill>, skill: Skill, indices: map<string, nat>)
    requires Indexed(indices, result) && skill.name in indices
    ensures var k := indices[skill.name];
      k < |result| && result[k].name == skill.name && Indexed(indices, result[k := Winner(result[k], skill)])
  {}

  lemma ReplaceAgrees(result: seq<Skill>, skills: seq<Skill>, skill: Skill, k: nat, after: seq<Skill>)
    requires Agrees(result, skills) && k < |result| && result[k].name == skill.name
    requires forall l :: 0 <= l < |result| && l != k ==> result[l].name != skill.name
    requires after == result[k := Winner(result[k], skill)]
    ensures Agrees(after, skills + [skill])
  {
    assert FirstNames(skills)[k] == skill.name;
    FirstNamesSnoc(skills, skill);
    hide Resolved, FirstNames;
    forall l | 0 <= l < |after|
      ensures after[l].name == result[l].name && Resolved(skills + [skill], after[l].name) == Some(after[l])
    {
      ResolvedSnoc(skills, skill, result[l].name);
    }
  }

  lemma ReplaceEntry(result: seq<Skill>, skills: seq<Skill>, skill: Skill, indices: map<string, nat>)
    requires Agrees(result, skills) && Indexed(indices, result) && skill.name in indices
    ensures var k := indices[skill.name];
      && k < |result|
      && Indexed(indices, result[k := Winner(result[k], skill)])
      && Agrees(result[k := Winner(result[k], skill)], skills + [skill])
  {
    hide Agrees;
    ReplaceIndexed(result, skill, indices);
    var k := indices[skill.name];
    ReplaceAgrees(result, skills, skill, k, result[k := Winner(result[k], skill)]);
  }

  lemma PushEntry(result: seq<Skill>, skills: seq<Skill>, skill: Skill, indices: map<string, nat>)
    requires Agrees(result, skills) && Indexed(indices, result) && skill.name !in indices
    ensures Indexed(indices[skill.name := |result|], result + [skill])
    ensures Agrees(result + [skill], skills + [skill])
  {
    hide Agrees, Resolved, FirstNames;
    PushAgrees(result, skills, skill) by {
      forall k | 0 <= k < |result| ensures result[k].name != skill.name {
        assert result[k].name in indices;
      }
    }
  }

  lemma PushAgrees(result: seq<Skill>, skills: seq<Skill>, skill: Skill)
    requires Agrees(result, skills) && forall k :: 0 <= k < |result| ==> result[k].name != skill.name
    ensures Agrees(result + [skill], skills + [skill])
  {
    hide Resolved, FirstNames;
    FirstNamesSnoc(skills, skill);
    assert skill.name !in FirstNames(skills);
    NameResolves(skills, skill.name);
    ResolvedSnoc(skills, skill, skill.name);
    var all := result + [skill];
    forall l | 0 <= l < |all|
      ensures all[l].name == FirstNames(skills + [skill])[l] && Resolved(skills + [skill], all[l].name) == Some(all[l])
    {
      if l < |result| { ResolvedSnoc(skills, skill, result[l].name); }
    }
  }

  lemma AgreesIsOverridden(result: seq<Skill>, skills: seq<Skill>)
    requires Agrees(result, skills)
    ensures result == Overridden(skills)
  {}

  // ---- Which source wins -----------------------------------------------------------------------

  /** Skill `k` is the first of the name whose source is of the kind. */
  ghost predicate FirstOfKind(skills: seq<Skill>, name: string, kind: SkillSource -> bool, k: nat) {
    && k < |skills| && skills[k].name == name && kind(skills[k].source)
    && forall j :: 0 <= j < k && skills[j].name == name ==> !kind(skills[j].source)
  }

  ghost predicate NoneOfKind(skills: seq<Skill>, name: string, kind: SkillSource -> bool) {
    forall j :: 0 <= j < |skills| && skills[j].name == name ==> !kind(skills[j].source)
  }

  predicate IsLocal(source: SkillSource) { source.ProjectLocal? }
  predicate IsGlobal(source: SkillSource) { source.Global? }
  predicate IsBuiltIn(source: SkillSource) { source.BuiltIn? }

  /** The first project-local skill of the name; if there is none, the first global one; if
      there is none either, the first built-in one. */
  ghost predicate Wins(skills: seq<Skill>, name: string, k: nat) {
    || FirstOfKind(skills, name, IsLocal, k)
    || (NoneOfKind(skills, name, IsLocal) && FirstOfKind(skills, name, IsGlobal, k))
    || (NoneOfKind(skills, name, IsLocal) && NoneOfKind(skills, name, IsGlobal)
        && FirstOfKind(skills, name, IsBuiltIn, k))
  }

  lemma WinsSnoc(skills: seq<Skill>, skill: Skill, name: string, k: nat)
    requires Wins(skills, name, k)
    ensures k < |skills| && skills[k].name == name
    ensures Wins(skills + [skill], name,
                 if skill.name == name && skill.source.Precedence() > skills[k].source.Precedence() then |skills|
                 else k)
  {
    var all := skills + [skill];
    assert all[|skills|] == skill && forall j :: 0 <= j < |skills| ==> all[j] == skills[j];
  }

  lemma FirstWins(skills: seq<Skill>, skill: Skill)
    requires forall j :: 0 <= j < |skills| ==> skills[j].name != skill.name
    ensures Wins(skills + [skill], skill.name, |skills|)
  {
    assert forall j :: 0 <= j < |skills| ==> (skills + [skill])[j] == skills[j];
  }

  /** A slash command runs the skill that wins by its source; it runs none exactly if no
      skill has the name. */
  lemma {:induction false} ResolvedWins(skills: seq<Skill>, name: string) returns (k: nat)
    ensures (exists j :: 0 <= j < |skills| && skills[j].name == name) ==>
      Wins(skills, name, k) && k < |skills| && Resolved(skills, name) == Some(skills[k])
    ensures (forall j :: 0 <= j < |skills| ==> skills[j].name != name) ==> Resolved(skills, name) == None
  {
    k := 0;
    if skills != [] {
      hide Resolved, Wins;
      var n := |skills| - 1;
      var init, skill := skills[..n], skills[n];
      assert skills == init + [skill];
      k := ResolvedWins(init, name);
      ResolvedSnoc(init, skill, name);
      if j :| 0 <= j < n && init[j].name == name {
        WinsSnoc(init, skill, name, k);
        k := if skill.name == name && skill.source.Precedence() > init[k].source.Precedence() then n else k;
      } else if skill.name == name {
        FirstWins(init, skill);
        k := n;
      }
    } else {
      assert Named(skills, name) == [];
    }
  }

  lemma {:induction false} FirstNamesAre(skills: seq<Skill>, name: string)
    ensures name in FirstNames(skills) <==> exists j :: 0 <= j < |skills| && skills[j].name == name
  {
    if skills != [] {
      var n := |skills| - 1;
      FirstNamesAre(skills[..n], name);
      if name in FirstNames(skills[..n]) {
        var j :| 0 <= j < n && skills[..n][j].name == name;
        assert skills[j].name == name;
      }
      if j :| 0 <= j < n && skills[j].name == name { assert skills[..n][j].name == name; }
    }
  }

  /** The skill is the one that wins for its name. */
  ghost predicate IsWinner(skills: seq<Skill>, skill: Skill) {
    exists k: nat :: k < |skills| && Wins(skills, skill.name, k) && skill == skills[k]
  }

  ghost predicate HasEntry(result: seq<Skill>, name: string) {
    exists i :: 0 <= i < |result| && result[i].name == name
  }

  /** Every entry is the skill that wins for its name, and every name has an entry. */
  ghost predicate WinnersOnly(skills: seq<Skill>, result: seq<Skill>) {
    && (forall i :: 0 <= i < |result| ==> IsWinner(skills, result[i]))
    && (forall j :: 0 <= j < |skills| ==> HasEntry(result, skills[j].name))
  }

  lemma OverriddenWins(skills: seq<Skill>)
    ensures WinnersOnly(skills, Overridden(skills))
  {
    hide Resolved, Wins, FirstNames;
    var result := Overridden(skills);
    forall i | 0 <= i < |result| ensures IsWinner(skills, result[i]) {
      FirstNamesAre(skills, result[i].name);
      assert FirstNames(skills)[i] in FirstNames(skills);
      var k := ResolvedWins(skills, result[i].name);
    }
    forall j | 0 <= j < |skills| ensures HasEntry(result, skills[j].name) {
      FirstNamesAre(skills, skills[j].name);
      var i :| 0 <= i < |FirstNames(skills)| && FirstNames(skills)[i] == skills[j].name;
      assert result[i].name == skills[j].name;
    }
  }

  /** One pass over the skills; the entry it keeps for a name is the one a slash command
      picks for that name. */
  method ApplySkillOverrides(skills: seq<Skill>) returns (result: seq<Skill>)
    ensures result == Overridden(skills)
    ensures WinnersOnly(skills, result)
  {
    result := [];
    var indices: map<string, nat> := map[];
    for k := 0 to |skills|
      invariant Indexed(indices, result) && Agrees(result, skills[..k])
    {
      hide Agrees, Indexed, Overridden;
      var skill := skills[k];
      assert skills[..k + 1] == skills[..k] + [skill];
      if skill.name in indices {
        var index := indices[skill.name];
        ReplaceEntry(result, skills[..k], skill, indices);
        if skill.source.Precedence() > result[index].source.Precedence() {
          result := result[index := skill];
        } else {
          assert result[index := result[index]] == result;
        }
      } else {
        PushEntry(result, skills[..k], skill, indices);
        indices := indices[skill.name := |result|];
        result := result + [skill];
      }
    }
    assert skills[..|skills|] == skills;
    AgreesIsOverridden(result, skills);
    OverriddenWins(skills);
  }

  // ---- What both promise -----------------------------------------------------------------------

  /** The skill chosen is the first among those of the highest precedence. */
  ghost predicate FirstHighest(skills: seq<Skill>, k: nat) {
    && k < |skills|
    && (forall j :: 0 <= j < k ==> skills[j].source.Precedence() < skills[k].source.Precedence())
    && (forall j :: k <= j < |skills| ==> skills[j].source.Precedence() <= skills[k].source.Precedence())
  }

  lemma {:induction false} BestIsFirstHighest(skills: seq<Skill>) returns (k: nat)
    requires skills != []
    ensures FirstHighest(skills, k) && Best(skills) == skills[k]
  {
    var n := |skills| - 1;
    k := 0;
    if n > 0 {
      k := BestIsFirstHighest(skills[..n]);
      if skills[n].source.Precedence() > skills[k].source.Precedence() {
        k := n;
      }
    }
  }

  lemma {:induction false} NamedMember(skills: seq<Skill>, k: nat)
    requires k < |skills|
    ensures skills[k] in Named(skills, skills[k].name)
  {
    if k < |skills| - 1 {
      NamedMember(skills[..|skills| - 1], k);
    }
  }

  /** For every list and name, the entry the model sees and the skill a slash command picks
      are the same: the first of the highest precedence under that name, or none when no
      skill has the name. */
  lemma SameResolution(skills: seq<Skill>, name: string)
    ensures Resolved(Overridden(skills), name) == Resolved(skills, name)
    ensures Resolved(skills, name).None? <==> forall k :: 0 <= k < |skills| ==> skills[k].name != name
    ensures Resolved(skills, name).Some? ==>
      && Resolved(skills, name).value in Overridden(skills)
      && (exists k: nat :: FirstHighest(Named(skills, name), k) &&
                           Resolved(skills, name) == Some(Named(skills, name)[k]))
      && exists k: nat :: k < |skills| && Wins(skills, name, k) && Resolved(skills, name) == Some(skills[k])
  {
    var winner := ResolvedWins(skills, name);
    OverriddenResolves(skills, name);
    NameResolves(skills, name);
    if Resolved(skills, name).Some? {
      var k := BestIsFirstHighest(Named(skills, name));
      var i :| 0 <= i < |FirstNames(skills)| && FirstNames(skills)[i] == name;
      assert Overridden(skills)[i].name == name;
      NamedInside(skills, name);
    }
    if k :| 0 <= k < |skills| && skills[k].name == name {
      NamedMember(skills, k);
    }
  }

  lemma {:induction false} NamedInside(skills: seq<Skill>, name: string)
    requires Named(skills, name) != []
    ensures exists k :: 0 <= k < |skills| && skills[k].name == name
  {
    var n := |skills| - 1;
    if skills[n].name != name {
      NamedInside(skills[..n], name);
    }
  }

  ghost predicate UniqueNames(skills: seq<Skill>) {
    forall i, j :: 0 <= i < j < |skills| ==> skills[i].name != skills[j].name
  }

  ghost predicate Unique(names: seq<string>) {
    forall i, j :: 0 <= i < j < |names| ==> names[i] != names[j]
  }

  /** Where a name first appears. */
  function FirstIndex(skills: seq<Skill>, name: string): (k: nat)
    ensures k <= |skills|
    ensures k < |skills| ==> skills[k].name == name
    ensures forall j :: 0 <= j < k ==> skills[j].name != name
  {
    if skills == [] then 0
    else
      var k := FirstIndex(skills[..|skills| - 1], name);
      if k < |skills| - 1 || skills[|skills| - 1].name == name then k else k + 1
  }

  /** Names appear once each, in the order of their first appearance. */
  lemma {:induction false} FirstNamesOrdered(skills: seq<Skill>)
    ensures Unique(FirstNames(skills))
    ensures forall i :: 0 <= i < |FirstNames(skills)| ==> FirstIndex(skills, FirstNames(skills)[i]) < |skills|
    ensures forall i, j :: 0 <= i < j < |FirstNames(skills)| ==>
      FirstIndex(skills, FirstNames(skills)[i]) < FirstIndex(skills, FirstNames(skills)[j])
  {
    if skills != [] {
      var n := |skills| - 1;
      var init, name := skills[..n], skills[n].name;
      var names := FirstNames(init);
      FirstNamesOrdered(init);
      forall i | 0 <= i < |names| ensures FirstIndex(skills, names[i]) == FirstIndex(init, names[i]) < n {}
      if name !in names {
        assert FirstIndex(init, name) == n by { Unseen(init, name); }
        assert FirstIndex(skills, name) == n;
      }
    }
  }

  lemma {:induction false} Unseen(skills: seq<Skill>, name: string)
    requires name !in FirstNames(skills)
    ensures FirstIndex(skills, name) == |skills|
  {
    if skills != [] {
      Unseen(skills[..|skills| - 1], name);
    }
  }

  lemma OverriddenUnique(skills: seq<Skill>)
    ensures UniqueNames(Overridden(skills))
  {
    FirstNamesOrdered(skills);
  }

  lemma {:induction false} UniqueNamed(skills: seq<Skill>, k: nat)
    requires UniqueNames(skills) && k < |skills|
    ensures Resolved(skills, skills[k].name) == Some(skills[k])
  {
    var n := |skills| - 1;
    var init := skills[..n];
    assert skills == init + [skills[n]];
    ResolvedSnoc(init, skills[n], skills[k].name);
    if k < n {
      UniqueNamed(init, k);
    } else {
      NoneNamed(init, skills[n].name);
    }
  }

  lemma {:induction false} NoneNamed(skills: seq<Skill>, name: string)
    requires forall k :: 0 <= k < |skills| ==> skills[k].name != name
    ensures Resolved(skills, name) == None
  {
    if skills != [] {
      NoneNamed(skills[..|skills| - 1], name);
    }
  }

  lemma {:induction false} UniqueFirstNames(skills: seq<Skill>)
    requires UniqueNames(skills)
    ensures |FirstNames(skills)| == |skills|
    ensures forall k :: 0 <= k < |skills| ==> FirstNames(skills)[k] == skills[k].name
  {
    if skills != [] {
      UniqueFirstNames(skills[..|skills| - 1]);
    }
  }

  /** A list with unique names is left as it is; hence applying the overrides twice is
      applying them once. */
  lemma OverriddenFixed(skills: seq<Skill>)
    requires UniqueNames(skills)
    ensures Overridden(skills) == skills
  {
    UniqueFirstNames(skills);
    forall k | 0 <= k < |skills| ensures Overridden(skills)[k] == skills[k] {
      UniqueNamed(skills, k);
    }
  }

  lemma OverriddenTwice(skills: seq<Skill>)
    ensures Overridden(Overridden(skills)) == Overridden(skills)
  {
    OverriddenUnique(skills);
    OverriddenFixed(Overridden(skills));
  }

  /** Looking a name up in the overridden list or in the full one is the same. */
  lemma OverriddenResolves(skills: seq<Skill>, name: string)
    ensures Resolved(Overridden(skills), name) == Resolved(skills, name)
  {
    var all := Overridden(skills);
    OverriddenUnique(skills);
    NameResolves(skills, name);
    if name in FirstNames(skills) {
      var k :| 0 <= k < |FirstNames(skills)| && FirstNames(skills)[k] == name;
      assert all[k].name == name;
      UniqueNamed(all, k);
    } else {
      forall k | 0 <= k < |all| ensures all[k].name != name {
        assert FirstNames(skills)[k] in FirstNames(skills);
      }
      NoneNamed(all, name);
    }
  }
}
