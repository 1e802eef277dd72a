/**
  One policy and its version snapshots under every sequence of patch, activate, archive, delete, rollback
  and overwriting import. A request that raises is rolled back.
 */
module PolicyHistory {
  import opened Wrappers

  datatype State = Draft | Active | Archived

  datatype Policy = Policy(rule: string, name: string, level: string, state: State, active: bool, version: nat)

  datatype Snapshot = Snapshot(rule: string, name: string, level: string, state: State, version: nat)

  /** The policy row, its snapshots, and, as history, the rule that was live under version 1, 2, 3, ... */
  datatype Record = Record(policy: Policy, snapshots: seq<Snapshot>, rules: seq<string>)

  datatype Patch = Patch(rule: Option<string>, name: Option<string>, active: Option<bool>)

  function SnapshotOf(p: Policy): Snapshot {
    Snapshot(p.rule, p.name, p.level, p.state, p.version)
  }

  function Created(rule: string, name: string, level: string, state: State): Record {
    Record(Policy(rule, name, level, state, state == Active, 1), [], [rule])
  }

  /** Created by an import: the item's state is not passed on, so the column keeps its default. */
  function Imported(rule: string, name: string, level: string, active: bool): Record {
    Record(Policy(rule, name, level, Active, active, 1), [], [rule])
  }

  // ---- The endpoints as functions ----

  predicate ChangesRule(p: Policy, body: Patch) {
    body.rule.Some? && body.rule.value != p.rule
  }

  predicate Changes(p: Policy, body: Patch) {
    ChangesRule(p, body) || (body.name.Some? && body.name.value != p.name) || body.active.Some?
  }

  /** valid: the new rule passes validation; otherwise, or if the policy is archived, nothing changes. */
  function Update(r: Record, body: Patch, valid: bool): Record {
    var p := r.policy;
    if p.state.Archived? || (ChangesRule(p, body) && !valid) then r
    else
      var q := if ChangesRule(p, body) then p.(rule := body.rule.value, version := p.version + 1) else p;
      var named := if body.name.Some? then q.(name := body.name.value) else q;
      var moved := match body.active
                   case None => named
                   case Some(on) => named.(active := on, state := if on then Active else Archived);
      Record(moved,
             if Changes(p, body) then r.snapshots + [SnapshotOf(p)] else r.snapshots,
             if ChangesRule(p, body) then r.rules + [body.rule.value] else r.rules)
  }

  function SetState(r: Record, state: State): Record {
    r.(policy := r.policy.(state := state, active := state == Active))
  }

  function WithVersion(snapshots: seq<Snapshot>, version: nat): seq<Snapshot> {
    if snapshots == [] then []
    else if snapshots[0].version == version then [snapshots[0]] + WithVersion(snapshots[1..], version)
    else WithVersion(snapshots[1..], version)
  }

  /** Fails unless exactly one snapshot has the version: the lookup raises on none and on several. */
  function Rollback(r: Record, version: nat): Record {
    var found := WithVersion(r.snapshots, version);
    if |found| != 1 then r
    else
      var s := found[0];
      Record(Policy(s.rule, s.name, s.level, s.state, s.state == Active, r.policy.version + 1),
             r.snapshots + [SnapshotOf(r.policy)], r.rules + [s.rule])
  }

  /** An overwriting import writes active and state separately and takes no snapshot. */
  function Overwrite(r: Record, rule: string, level: string, active: bool, state: State): Record {
    r.(policy := r.policy.(rule := rule, level := level, active := active, state := state,
                           version := r.policy.version + 1),
       rules := r.rules + [rule])
  }

  // ---- The endpoints on the row in place ----

  class PolicyRow {
    var policy: Policy
    var snapshots: seq<Snapshot>
    ghost var rules: seq<string>

    ghost function Value(): Record
      reads this
    {
      Record(policy, snapshots, rules)
    }

    constructor (rule: string, name: string, level: string, state: State)
      ensures Value() == Created(rule, name, level, state)
    {
      policy := Policy(rule, name, level, state, state == Active, 1);
      snapshots, rules := [], [rule];
    }

    method SnapshotPolicy()
      modifies this
      ensures Value() == old(Value()).(snapshots := old(snapshots) + [SnapshotOf(old(policy))])
    {
      snapshots := snapshots + [SnapshotOf(policy)];
    }

    method UpdatePolicy(body: Patch, valid: bool)
      modifies this
      ensures Value() == Update(old(Value()), body, valid)
    {
      if policy.state == Archived {
        return;
      }
      var committed := snapshots;
      var changed := (body.rule.Some? && body.rule.value != policy.rule)
                     || (body.name.Some? && body.name.value != policy.name) || body.active.Some?;
      if changed {
        SnapshotPolicy();
      }
      if body.rule.Some? && body.rule.value != policy.rule {
        if !valid {
          snapshots := committed;
          return;
        }
        policy := policy.(rule := body.rule.value);
        policy := policy.(version := policy.version + 1);
        rules := rules + [body.rule.value];
      }
      if body.name.Some? {
        policy := policy.(name := body.name.value);
      }
      if body.active.Some? {
        if body.active.value {
          policy := policy.(state := Active, active := true);
        } else {
          policy := policy.(state := Archived, active := false);
        }
      }
    }

    method ActivatePolicy()
      modifies this
      ensures Value() == (if old(policy).state == Active then old(Value()) else SetState(old(Value()), Active))
    {
      if policy.state == Active {
        return;
      }
      policy := policy.(state := Active, active := true);
    }

    method ArchivePolicy()
      modifies this
      ensures Value() == (if old(policy).state == Archived then old(Value()) else SetState(old(Value()), Archived))
    {
      if policy.state == Archived {
        return;
      }
      policy := policy.(state := Archived, active := false);
    }

    method DeletePolicy()
      modifies this
      ensures Value() == SetState(old(Value()), Archived)
    {
      policy := policy.(state := Archived, active := false);
    }

    method RollbackPolicy(version: nat)
      modifies this
      ensures Value() == Rollback(old(Value()), version)
    {
      var found := WithVersion(snapshots, version);
      if |found| != 1 {
        return;
      }
      var snapshot := found[0];
      SnapshotPolicy();
      policy := policy.(rule := snapshot.rule);
      policy := policy.(name := snapshot.name);
      policy := policy.(level := snapshot.level);
      policy := policy.(state := snapshot.state);
      policy := policy.(active := snapshot.state == Active);
      policy := policy.(version := policy.version + 1);
      rules := rules + [snapshot.rule];
    }
  }

  // ---- Runs ----

  datatype Action =
    | Patching(body: Patch, valid: bool)
    | Activating
    | Archiving
    | Deleting
    | RollingBack(version: nat)
    | Importing(rule: string, level: string, active: bool, state: State)

  function Next(r: Record, a: Action): Record {
    match a
    case Patching(body, valid) => Update(r, body, valid)
    case Activating => if r.policy.state == Active then r else SetState(r, Active)
    case Archiving => if r.policy.state == Archived then r else SetState(r, Archived)
    case Deleting => SetState(r, Archived)
    case RollingBack(version) => Rollback(r, version)
    case Importing(rule, level, active, state) => Overwrite(r, rule, level, active, state)
  }

  function After(r: Record, run: seq<Action>): Record
    decreases |run|
  {
    if run == [] then r else After(Next(r, run[0]), run[1..])
  }

  predicate RuleUnder(r: Record, version: nat, rule: string) {
    1 <= version <= |r.rules| && r.rules[version - 1] == rule
  }

  /** The live rule and every snapshot agree with the rule history. */
  ghost predicate Inv(r: Record) {
    && r.policy.version == |r.rules|
    && RuleUnder(r, r.policy.version, r.policy.rule)
    && forall i | 0 <= i < |r.snapshots| :: RuleUnder(r, r.snapshots[i].version, r.snapshots[i].rule)
  }

  lemma {:induction false} WithVersionIsPart(snapshots: seq<Snapshot>, version: nat)
    ensures forall s :: s in WithVersion(snapshots, version) <==> s in snapshots && s.version == version
  {
    if snapshots != [] {
      WithVersionIsPart(snapshots[1..], version);
      assert snapshots == [snapshots[0]] + snapshots[1..];
    }
  }

  lemma {:induction false} WithVersionAppend(snapshots: seq<Snapshot>, s: Snapshot, version: nat)
    ensures WithVersion(snapshots + [s], version)
         == WithVersion(snapshots, version) + (if s.version == version then [s] else [])
  {
    if snapshots == [] {
      assert [] + [s] == [s];
    } else {
      assert (snapshots + [s])[1..] == snapshots[1..] + [s];
      WithVersionAppend(snapshots[1..], s, version);
    }
  }

  /** A snapshot of the policy before, and one more version, keep the invariant. */
  lemma NextVersionKeepsInv(r: Record, policy: Policy, snapshots: seq<Snapshot>)
    requires Inv(r) && policy.version == r.policy.version + 1
    requires snapshots == r.snapshots || snapshots == r.snapshots + [SnapshotOf(r.policy)]
    ensures Inv(Record(policy, snapshots, r.rules + [policy.rule]))
  {
    var q := Record(policy, snapshots, r.rules + [policy.rule]);
    forall i | 0 <= i < |snapshots| ensures RuleUnder(q, snapshots[i].version, snapshots[i].rule) {
      assert i < |r.snapshots| ==> RuleUnder(r, r.snapshots[i].version, r.snapshots[i].rule);
    }
  }

  /** Every step keeps the invariant, extends the rule history, and never lowers the version. */
  lemma NextKeepsInv(r: Record, a: Action)
    requires Inv(r)
    ensures Inv(Next(r, a)) && r.rules <= Next(r, a).rules && Next(r, a).policy.version >= r.policy.version
  {
    var q := Next(r, a);
    if q.rules == r.rules + [q.policy.rule] && q.policy.version == r.policy.version + 1 {
      NextVersionKeepsInv(r, q.policy, q.snapshots);
    }
  }

  lemma {:induction false} RunKeepsInv(r: Record, run: seq<Action>)
    requires Inv(r)
    ensures Inv(After(r, run)) && r.rules <= After(r, run).rules && After(r, run).policy.version >= r.policy.version
    decreases |run|
  {
    if run != [] {
      NextKeepsInv(r, run[0]);
      RunKeepsInv(Next(r, run[0]), run[1..]);
    }
  }

  /** The live policy or a snapshot has this version and this rule. */
  ghost predicate Carries(r: Record, version: nat, rule: string) {
    || (r.policy.version == version && r.policy.rule == rule)
    || exists i | 0 <= i < |r.snapshots| :: r.snapshots[i].version == version && r.snapshots[i].rule == rule
  }

  /**
    The version determines the rule: at any two moments of any history, imports included, whatever carries
    one version, the live policy or a snapshot, carries the same rule.
   */
  lemma VersionDeterminesRule(start: Record, run: seq<Action>, more: seq<Action>, version: nat,
                              rule: string, other: string)
    requires Inv(start)
    requires Carries(After(start, run), version, rule)
    requires Carries(After(After(start, run), more), version, other)
    ensures rule == other
  {
    RunKeepsInv(start, run);
    RunKeepsInv(After(start, run), more);
    CarriedIsHistory(After(start, run), version, rule);
    CarriedIsHistory(After(After(start, run), more), version, other);
  }

  lemma CarriedIsHistory(r: Record, version: nat, rule: string)
    requires Inv(r) && Carries(r, version, rule)
    ensures RuleUnder(r, version, rule)
  {
  }

  // ---- Rollback ----

  /**
    Rollback to v changes the policy exactly if one snapshot has version v, and then makes live the rule that
    was once live under v.
   */
  lemma RollbackRestores(start: Record, run: seq<Action>, version: nat)
    requires Inv(start)
    ensures var r := After(start, run);
            var q := Rollback(r, version);
            if |WithVersion(r.snapshots, version)| == 1 then
              && RuleUnder(r, version, q.policy.rule) && q.policy.version == r.policy.version + 1
              && SnapshotOf(q.policy).(version := version) in r.snapshots
              && q.snapshots == r.snapshots + [SnapshotOf(r.policy)]
            else q == r
  {
    RunKeepsInv(start, run);
    var r := After(start, run);
    var found := WithVersion(r.snapshots, version);
    WithVersionIsPart(r.snapshots, version);
    if |found| == 1 {
      assert found[0] in found;
    }
  }

  /**
    "The rollback itself is reversible": rolling back to the version just left restores rule, name, level and
    state exactly if that version had no snapshot before; a second one makes the lookup fail.
   */
  lemma RollbackIsReversible(r: Record, version: nat)
    requires Inv(r) && |WithVersion(r.snapshots, version)| == 1
    ensures var there := Rollback(r, version);
            var back := Rollback(there, r.policy.version);
            if WithVersion(r.snapshots, r.policy.version) == [] then
              SnapshotOf(back.policy) == SnapshotOf(r.policy).(version := r.policy.version + 2)
            else back == there
  {
    WithVersionAppend(r.snapshots, SnapshotOf(r.policy), r.policy.version);
  }

  /** A second snapshot of one version is easily made: patching the name leaves the version alone. */
  lemma RenamesShareAVersion(r: Record, first: string, second: string)
    requires !r.policy.state.Archived? && first != r.policy.name && second != first
    ensures var q := Update(Update(r, Patch(None, Some(first), None), true), Patch(None, Some(second), None), true);
            && q.policy.version == r.policy.version
            && |WithVersion(q.snapshots, r.policy.version)| == |WithVersion(r.snapshots, r.policy.version)| + 2
            && Rollback(q, r.policy.version) == q
  {
    var p := r.policy;
    WithVersionAppend(r.snapshots, SnapshotOf(p), p.version);
    WithVersionAppend(r.snapshots + [SnapshotOf(p)], SnapshotOf(p.(name := first)), p.version);
  }

  // ---- active mirrors the state ----

  /** "active iff state = 'active'" */
  predicate Mirrored(p: Policy) {
    p.active <==> p.state == Active
  }

  /** Every version that was left behind has a snapshot. */
  ghost predicate Covered(r: Record) {
    forall v: nat | 1 <= v < r.policy.version :: WithVersion(r.snapshots, v) != []
  }

  ghost predicate Synced(r: Record) {
    Mirrored(r.policy) && Covered(r)
  }

  /** Both ways of creating a policy keep the rule history; an import's policy is mirrored exactly if active. */
  lemma NewPolicies(rule: string, name: string, level: string, state: State, active: bool)
    ensures Inv(Created(rule, name, level, state)) && Synced(Created(rule, name, level, state))
    ensures Inv(Imported(rule, name, level, active))
    ensures Synced(Imported(rule, name, level, active)) <==> active
  {
    assert Mirrored(Imported(rule, name, level, active).policy) <==> active;
  }

  /**
    The step writes state and active, in agreement. Activating an active or archiving an archived policy
    writes nothing.
   */
  predicate Mirrors(r: Record, a: Action) {
    match a
    case Patching(body, valid) =>
      !r.policy.state.Archived? && body.active.Some? && (ChangesRule(r.policy, body) ==> valid)
    case Activating => !r.policy.state.Active?
    case Archiving => !r.policy.state.Archived?
    case Deleting => true
    case RollingBack(version) => |WithVersion(r.snapshots, version)| == 1
    case Importing(_, _, active, state) => active <==> state == Active
  }

  /** An overwriting import that writes them in disagreement. */
  predicate Unmirrors(a: Action) {
    a.Importing? && (a.active <==> a.state != Active)
  }

  /** Exactly what each step does to the mirror: written in agreement, written in disagreement, or left as it was. */
  lemma NextMirrored(r: Record, a: Action)
    ensures Mirrored(Next(r, a).policy) <==> Mirrors(r, a) || (Mirrored(r.policy) && !Unmirrors(a))
  {
  }

  ghost predicate MirrorsAt(r: Record, run: seq<Action>, j: int) {
    0 <= j < |run| && Mirrors(After(r, run[..j]), run[j])
  }

  /** After step k, some step writes state and active in agreement. */
  ghost predicate MirroredAgain(r: Record, run: seq<Action>, k: int) {
    exists j | k < j < |run| :: MirrorsAt(r, run, j)
  }

  lemma {:induction false} RunSplits(r: Record, run: seq<Action>, k: nat)
    requires k < |run|
    ensures After(r, run[..k + 1]) == Next(After(r, run[..k]), run[k])
    decreases |run|
  {
    if k == 0 {
      assert run[..1][1..] == [] && run[..0] == [];
    } else {
      assert run[..k][1..] == run[1..][..k - 1] && run[..k + 1][1..] == run[1..][..k];
      RunSplits(Next(r, run[0]), run[1..], k - 1);
    }
  }

  /**
    Over every run, imports included: at its end active mirrors the state exactly if every disagreeing import
    in it, and a disagreement at its start, was followed by a step that writes both in agreement.
   */
  lemma {:induction false} RunMirrored(r: Record, run: seq<Action>, n: nat)
    requires n <= |run|
    ensures Mirrored(After(r, run[..n]).policy) <==>
            && (!Mirrored(r.policy) ==> MirroredAgain(r, run[..n], -1))
            && (forall k: nat | k < n && Unmirrors(run[k]) :: MirroredAgain(r, run[..n], k))
  {
    if n > 0 {
      var m := n - 1;
      RunMirrored(r, run, m);
      RunSplits(r, run, m);
      NextMirrored(After(r, run[..m]), run[m]);
      forall k: int | -1 <= k < m
        ensures MirroredAgain(r, run[..n], k) <==> MirroredAgain(r, run[..m], k) || Mirrors(After(r, run[..m]), run[m])
      {
        LaterMirror(r, run, m, k);
      }
      assert !MirroredAgain(r, run[..n], m);
    }
  }

  lemma LaterMirror(r: Record, run: seq<Action>, m: nat, k: int)
    requires -1 <= k < m < |run|
    ensures MirroredAgain(r, run[..m + 1], k) <==> MirroredAgain(r, run[..m], k) || Mirrors(After(r, run[..m]), run[m])
  {
    hide After, Mirrors;
    var before, after := run[..m], run[..m + 1];
    assert after[..m] == before;
    forall j | 0 <= j < m ensures MirrorsAt(r, after, j) == MirrorsAt(r, before, j) {
      assert after[..j] == before[..j];
    }
    assert MirrorsAt(r, after, m) == Mirrors(After(r, before), run[m]);
  }

  // ---- No version is lost ----

  /** The version that the policy has now has a snapshot. */
  predicate Saved(r: Record) {
    WithVersion(r.snapshots, r.policy.version) != []
  }

  /** Exactly what each step does to the coverage: only an import loses a version, the one it replaces unsaved. */
  lemma NextCovered(r: Record, a: Action)
    requires Inv(r)
    ensures Covered(Next(r, a)) <==> Covered(r) && (a.Importing? ==> Saved(r))
  {
    var q := Next(r, a);
    forall v: nat ensures q.snapshots == r.snapshots
                       || WithVersion(q.snapshots, v) == WithVersion(r.snapshots, v)
                            + (if v == r.policy.version then [SnapshotOf(r.policy)] else [])
    {
      WithVersionAppend(r.snapshots, SnapshotOf(r.policy), v);
    }
  }

  /** Over every run: all versions left behind have snapshots exactly if each import found its version saved. */
  lemma {:induction false} RunCovered(r: Record, run: seq<Action>, n: nat)
    requires Inv(r) && Covered(r) && n <= |run|
    ensures Covered(After(r, run[..n])) <==> forall k: nat | k < n && run[k].Importing? :: Saved(After(r, run[..k]))
  {
    if n > 0 {
      var m := n - 1;
      RunCovered(r, run, m);
      RunSplits(r, run, m);
      RunKeepsInv(r, run[..m]);
      NextCovered(After(r, run[..m]), run[m]);
    } else {
      assert run[..0] == [];
    }
  }

  // ---- Both ----

  /** An overwriting import keeps both promises exactly if it agrees with itself and its version is saved. */
  lemma OverwriteSynced(r: Record, rule: string, level: string, active: bool, state: State)
    requires Inv(r) && Synced(r)
    ensures Synced(Overwrite(r, rule, level, active, state)) <==>
            (active <==> state == Active) && WithVersion(r.snapshots, r.policy.version) != []
  {
    var a := Importing(rule, level, active, state);
    NextMirrored(r, a);
    NextCovered(r, a);
  }

  /** Every run from a policy that keeps both promises keeps them exactly under the two conditions above. */
  lemma RunSynced(r: Record, run: seq<Action>)
    requires Inv(r) && Synced(r)
    ensures Synced(After(r, run)) <==>
            && (forall k: nat | k < |run| && Unmirrors(run[k]) :: MirroredAgain(r, run, k))
            && (forall k: nat | k < |run| && run[k].Importing? :: Saved(After(r, run[..k])))
  {
    RunMirrored(r, run, |run|);
    RunCovered(r, run, |run|);
    assert run[..|run|] == run;
  }

  ghost predicate NoImport(run: seq<Action>) {
    forall i | 0 <= i < |run| :: !run[i].Importing?
  }

  /** So over the policy endpoints alone: active exactly in the active state, and no superseded version is lost. */
  lemma EndpointsStaySynced(r: Record, run: seq<Action>)
    requires Inv(r) && Synced(r) && NoImport(run)
    ensures Synced(After(r, run))
  {
    RunSynced(r, run);
  }

  /** A disagreement survives the endpoint meant to end it: activating a policy in state "active" changes nothing. */
  lemma ImportBreaksSync(rule: string, other: string, name: string, level: string)
    ensures var q := Overwrite(Created(rule, name, level, Active), other, level, false, Active);
            && !q.policy.active && q.policy.state == Active && Next(q, Activating) == q
            && WithVersion(q.snapshots, 1) == [] && q.policy.version == 2
    ensures var q := Overwrite(Created(rule, name, level, Active), other, level, true, Draft);
            && q.policy.active && q.policy.state == Draft
            && WithVersion(q.snapshots, 1) == [] && q.policy.version == 2
  {
  }

  // ---- What each request does, outright ----

  /** A patch that is accepted: the rule, the name and the switch as given, and the old policy as last snapshot. */
  lemma UpdateExactly(r: Record, body: Patch, valid: bool)
    requires r.policy.state != Archived
    requires body.rule.Some? && body.rule.value != r.policy.rule ==> valid
    ensures var p, u := r.policy, Update(r, body, valid);
            var q, newRule := u.policy, body.rule.Some? && body.rule.value != p.rule;
            && q.rule == (if body.rule.Some? then body.rule.value else p.rule)
            && q.version == (if newRule then p.version + 1 else p.version)
            && q.name == (if body.name.Some? then body.name.value else p.name)
            && q.level == p.level
            && (body.active == Some(true) ==> q.active && q.state == Active)
            && (body.active == Some(false) ==> !q.active && q.state == Archived)
            && (body.active == None ==> q.active == p.active && q.state == p.state)
            && (if newRule || (body.name.Some? && body.name.value != p.name) || body.active.Some? then
                  u.snapshots == r.snapshots + [Snapshot(p.rule, p.name, p.level, p.state, p.version)]
                else u.snapshots == r.snapshots)
  {
  }

  /** Every other patch changes nothing. */
  lemma RefusedUpdate(r: Record, body: Patch, valid: bool)
    requires r.policy.state == Archived || (body.rule.Some? && body.rule.value != r.policy.rule && !valid)
    ensures Update(r, body, valid) == r
  {
  }

  /** Activation, archiving and deletion move state and active together, unless the state is there already. */
  lemma MovesExactly(r: Record)
    ensures var p := r.policy;
            && Next(r, Activating)
               == (if p.state == Active then r else r.(policy := p.(state := Active, active := true)))
            && Next(r, Archiving)
               == (if p.state == Archived then r else r.(policy := p.(state := Archived, active := false)))
            && Next(r, Deleting) == r.(policy := p.(state := Archived, active := false))
  {
  }

  /** Rollback to the one snapshot of a version: its fields live, under a new version, and the old policy saved. */
  lemma RollbackExactly(r: Record, i: nat)
    requires i < |r.snapshots|
    requires forall j | 0 <= j < |r.snapshots| && j != i :: r.snapshots[j].version != r.snapshots[i].version
    ensures var p, s, u := r.policy, r.snapshots[i], Rollback(r, r.snapshots[i].version);
            && u.policy.rule == s.rule && u.policy.name == s.name && u.policy.level == s.level
            && u.policy.state == s.state
            && (u.policy.active <==> s.state == Active) && u.policy.version == p.version + 1
            && u.snapshots == r.snapshots + [Snapshot(p.rule, p.name, p.level, p.state, p.version)]
  {
    OnlyOneHasVersion(r.snapshots, i);
  }

  lemma {:induction false} OnlyOneHasVersion(snapshots: seq<Snapshot>, i: nat)
    requires i < |snapshots|
    requires forall j | 0 <= j < |snapshots| && j != i :: snapshots[j].version != snapshots[i].version
    ensures WithVersion(snapshots, snapshots[i].version) == [snapshots[i]]
  {
    if i == 0 {
      NoneHasVersion(snapshots[1..], snapshots[0].version);
    } else {
      OnlyOneHasVersion(snapshots[1..], i - 1);
    }
  }

  lemma {:induction false} NoneHasVersion(snapshots: seq<Snapshot>, version: nat)
    requires forall j | 0 <= j < |snapshots| :: snapshots[j].version != version
    ensures WithVersion(snapshots, version) == []
  {
    if snapshots != [] {
      NoneHasVersion(snapshots[1..], version);
    }
  }

  /** An overwriting import: the item's fields under the old name and a new version, and no snapshot. */
  lemma OverwriteExactly(r: Record, rule: string, level: string, active: bool, state: State)
    ensures var p, u := r.policy, Next(r, Importing(rule, level, active, state));
            && u.policy == Policy(rule, p.name, level, state, active, p.version + 1)
            && u.snapshots == r.snapshots
  {
  }

  /** Both kinds of new policies are version 1 without snapshots, and hold what they were created with. */
  lemma CreatedExactly(rule: string, name: string, level: string, state: State, active: bool)
    ensures var c, m := Created(rule, name, level, state), Imported(rule, name, level, active);
            && c.policy == Policy(rule, name, level, state, state == Active, 1) && c.snapshots == []
            && m.policy == Policy(rule, name, level, Active, active, 1) && m.snapshots == []
  {
  }
}
