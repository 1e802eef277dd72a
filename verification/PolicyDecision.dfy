/**
  The two policy engines, over rules as abstract syntax: the in-process evaluator, and the Cedar path
  with its companion permits and its second pass. The Cedar binary itself is represented by its
  decision rule, "some permit applies and no forbid does".
 */
module PolicyDecision {
  import opened Text
  import opened ConditionScanner
  import opened ConditionEvaluator
  import opened Wrappers

  datatype Value = Words(words: string) | Number(number: int) | Flag(flag: bool)

  type Context = map<string, Value>

  const APPROVAL := "approval_status"
  const APPROVED := Words("approved")

  /** How leaf texts are judged: a leaf names one attribute (or is not understood) and tests its value. */
  datatype Reader = Reader(attribute: string -> Option<string>, test: (string, Value) -> bool) {
    /** An absent attribute makes every leaf false. */
    function Leaves(ctx: Context): Leaves {
      text => match attribute(text)
              case None => false
              case Some(a) => a in ctx && test(text, ctx[a])
    }

    /** The attribute of a leaf is part of its text. */
    ghost predicate Literal() {
      forall text :: attribute(text).Some? ==> Occurs(attribute(text).value, text)
    }
  }

  /** A leaf is true exactly if it is understood, its attribute is there, and the value passes its test. */
  lemma LeavesExactly(reader: Reader, ctx: Context, text: string)
    ensures reader.Leaves(ctx)(text) <==>
            exists a :: reader.attribute(text) == Some(a) && a in ctx && reader.test(text, ctx[a])
  {
  }

  datatype Effect = Permit | Forbid

  /** The action part of a rule head: unconstrained, or the action names it lists. */
  datatype Scope = AnyAction | Only(names: set<string>)

  datatype Rule = Rule(id: string, effect: Effect, scope: Scope, when: Option<string>, unless: Option<string>) {
    predicate WhenHolds(leaf: Leaves) {
      when.Some? ==> Evaluate(when.value, leaf)
    }

    predicate UnlessHolds(leaf: Leaves) {
      unless.Some? && Evaluate(unless.value, leaf)
    }

    /** Textual test: the rule has an "unless" and mentions approval_status. */
    predicate Gated() {
      unless.Some? && (Occurs(APPROVAL, unless.value) || (when.Some? && Occurs(APPROVAL, when.value)))
    }
  }

  datatype Decision = Allow | Deny | ApprovalRequired

  datatype Outcome = Outcome(decision: Decision, policy: Option<Rule>)

  predicate IsApproved(ctx: Context) {
    APPROVAL in ctx && ctx[APPROVAL] == APPROVED
  }

  // ---- The in-process evaluator ----

  /** An unconstrained action matches in a forbid only; a permit must name the action. */
  predicate Matches(r: Rule, action: string, leaf: Leaves) {
    match r.scope
    case AnyAction => r.effect.Forbid? && r.WhenHolds(leaf)
    case Only(names) => action in names && r.WhenHolds(leaf)
  }

  predicate Blocks(r: Rule, action: string, ctx: Context, reader: Reader) {
    Matches(r, action, reader.Leaves(ctx)) && r.effect.Forbid? && !(r.Gated() && IsApproved(ctx))
  }

  predicate Opens(r: Rule, action: string, ctx: Context, reader: Reader) {
    Matches(r, action, reader.Leaves(ctx)) && (r.effect.Permit? || (r.Gated() && IsApproved(ctx)))
  }

  /** The last rule of the list with property p. */
  function LastWhere(rules: seq<Rule>, p: Rule -> bool): (r: Option<Rule>)
    ensures r.Some? <==> exists q | q in rules :: p(q)
    ensures r.Some? ==> r.value in rules && p(r.value)
  {
    if rules == [] then None
    else
      var n := |rules| - 1;
      if p(rules[n]) then Some(rules[n]) else LastWhere(rules[..n], p)
  }

  function LastBlocking(rules: seq<Rule>, action: string, ctx: Context, reader: Reader): Option<Rule> {
    LastWhere(rules, r => Blocks(r, action, ctx, reader))
  }

  function LastOpening(rules: seq<Rule>, action: string, ctx: Context, reader: Reader): Option<Rule> {
    LastWhere(rules, r => Opens(r, action, ctx, reader))
  }

  /** Deny overrides permit; a blocking rule behind an approval gate turns the denial into a request. */
  function PythonDecision(rules: seq<Rule>, action: string, ctx: Context, reader: Reader): Decision {
    if exists r | r in rules :: Blocks(r, action, ctx, reader) then
      if exists r | r in rules :: Blocks(r, action, ctx, reader) && r.Gated() then ApprovalRequired else Deny
    else if exists r | r in rules :: Opens(r, action, ctx, reader) then Allow
    else Deny
  }

  predicate SomeGateBlocks(rules: seq<Rule>, action: string, ctx: Context, reader: Reader) {
    exists r | r in rules :: Blocks(r, action, ctx, reader) && r.Gated()
  }

  lemma LastNone(action: string, ctx: Context, reader: Reader)
    ensures LastBlocking([], action, ctx, reader) == None == LastOpening([], action, ctx, reader)
    ensures !SomeGateBlocks([], action, ctx, reader)
  {
  }

  lemma LastNext(rules: seq<Rule>, i: nat, action: string, ctx: Context, reader: Reader)
    requires i < |rules|
    ensures LastBlocking(rules[..i + 1], action, ctx, reader)
         == if Blocks(rules[i], action, ctx, reader) then Some(rules[i])
            else LastBlocking(rules[..i], action, ctx, reader)
    ensures LastOpening(rules[..i + 1], action, ctx, reader)
         == if Opens(rules[i], action, ctx, reader) then Some(rules[i])
            else LastOpening(rules[..i], action, ctx, reader)
    ensures SomeGateBlocks(rules[..i + 1], action, ctx, reader)
        <==> (Blocks(rules[i], action, ctx, reader) && rules[i].Gated())
             || SomeGateBlocks(rules[..i], action, ctx, reader)
  {
    hide Blocks, Opens, Rule.Gated;
    assert rules[..i + 1][..i] == rules[..i];
    assert rules[..i + 1] == rules[..i] + [rules[i]];
  }

  lemma DecisionFromLast(rules: seq<Rule>, action: string, ctx: Context, reader: Reader)
    ensures PythonDecision(rules, action, ctx, reader)
         == if LastBlocking(rules, action, ctx, reader).Some? then
              if SomeGateBlocks(rules, action, ctx, reader) then ApprovalRequired else Deny
            else if LastOpening(rules, action, ctx, reader).Some? then Allow
            else Deny
  {
    hide Blocks, Opens, Rule.Gated;
  }

  method PythonEvaluator(policies: seq<Rule>, action: string, ctx: Context, reader: Reader)
    returns (result: Outcome)
    ensures result.decision == PythonDecision(policies, action, ctx, reader)
    ensures result.policy == var blocking := LastBlocking(policies, action, ctx, reader);
                             if blocking.Some? then blocking else LastOpening(policies, action, ctx, reader)
  {
    hide Evaluate, Occurs, LastBlocking, LastOpening, PythonDecision, SomeGateBlocks;
    LastNone(action, ctx, reader);
    var forbidMatch, permitMatch, approvalRequired := None, None, false;
    for i := 0 to |policies|
      invariant forbidMatch == LastBlocking(policies[..i], action, ctx, reader)
      invariant permitMatch == LastOpening(policies[..i], action, ctx, reader)
      invariant approvalRequired == SomeGateBlocks(policies[..i], action, ctx, reader)
    {
      var policy := policies[i];
      LastNext(policies, i, action, ctx, reader);
      if Matches(policy, action, reader.Leaves(ctx)) {
        if policy.effect.Forbid? {
          if policy.Gated() {
            if IsApproved(ctx) {
              permitMatch := Some(policy);
              continue;
            }
            approvalRequired := true;
            forbidMatch := Some(policy);
          } else {
            forbidMatch := Some(policy);
          }
        } else {
          permitMatch := Some(policy);
        }
      }
    }
    assert policies[..|policies|] == policies;
    DecisionFromLast(policies, action, ctx, reader);
    if forbidMatch.Some? {
      return Outcome(if approvalRequired then ApprovalRequired else Deny, forbidMatch);
    }
    if permitMatch.Some? {
      return Outcome(Allow, permitMatch);
    }
    return Outcome(Deny, None);
  }

  // ---- The Cedar path ----

  predicate Applies(r: Rule, action: string, leaf: Leaves) {
    (r.scope.Only? ==> action in r.scope.names) && r.WhenHolds(leaf) && !r.UnlessHolds(leaf)
  }

  /** What the Cedar binary answers for a rule set. */
  predicate CedarAllows(rules: seq<Rule>, action: string, leaf: Leaves) {
    && (exists r | r in rules :: r.effect.Permit? && Applies(r, action, leaf))
    && !(exists r | r in rules :: r.effect.Forbid? && Applies(r, action, leaf))
  }

  /** The permit that mirrors an approval-gated forbid. */
  function Companion(r: Rule): Option<Rule> {
    if r.effect.Forbid? && r.Gated() then
      var u := Trim(r.unless.value);
      var w := if r.when.Some? then Trim(r.when.value) else "";
      var condition := if w != "" then Conjunction(Parenthesized(w), Parenthesized(u)) else u;
      Some(Rule(r.id, Permit, r.scope, Some(condition), None))
    else
      None
  }

  function Expanded(rules: seq<Rule>): seq<Rule> {
    if rules == [] then []
    else
      var n := |rules| - 1;
      var c := Companion(rules[n]);
      Expanded(rules[..n]) + [rules[n]] + (if c.Some? then [c.value] else [])
  }

  method CedarPolicyText(policies: seq<Rule>) returns (rules: seq<Rule>)
    ensures rules == Expanded(policies)
  {
    rules := [];
    for i := 0 to |policies|
      invariant rules == Expanded(policies[..i])
    {
      assert policies[..i + 1][..i] == policies[..i];
      rules := rules + [policies[i]];
      var companion := Companion(policies[i]);
      if companion.Some? {
        rules := rules + [companion.value];
      }
    }
    assert policies[..|policies|] == policies;
  }

  /** Two passes: a denial that an injected approval would lift is an approval request. */
  function CedarCliDecision(rules: seq<Rule>, action: string, ctx: Context, reader: Reader): Decision {
    var expanded := Expanded(rules);
    if CedarAllows(expanded, action, reader.Leaves(ctx)) then Allow
    else if APPROVAL !in ctx && CedarAllows(expanded, action, reader.Leaves(ctx[APPROVAL := APPROVED])) then
      ApprovalRequired
    else Deny
  }

  lemma {:induction false} ExpandedMembers(rules: seq<Rule>, r: Rule)
    ensures r in Expanded(rules) <==> r in rules || exists q | q in rules :: Companion(q) == Some(r)
  {
    if rules != [] {
      var n := |rules| - 1;
      ExpandedMembers(rules[..n], r);
      assert rules == rules[..n] + [rules[n]];
    }
  }

  // ---- The companion permit means "when and unless" ----

  /** Quotes and parentheses of the rule's conditions are closed. */
  ghost predicate Closed(r: Rule) {
    && (r.when.Some? ==> Balanced(Trim(r.when.value)))
    && (r.unless.Some? ==> Balanced(Trim(r.unless.value)))
  }

  /** The rewrite preserves meaning: the companion applies exactly where scope, when and unless all hold. */
  lemma CompanionMeaning(r: Rule, action: string, leaf: Leaves)
    requires Closed(r) && Companion(r).Some?
    ensures Applies(Companion(r).value, action, leaf)
        <==> (r.scope.Only? ==> action in r.scope.names) && r.WhenHolds(leaf) && r.UnlessHolds(leaf)
  {
    hide Evaluate, Balanced;
    var u := Trim(r.unless.value);
    EvaluateTrimmed(r.unless.value, leaf);
    if r.when.Some? {
      var w := Trim(r.when.value);
      EvaluateTrimmed(r.when.value, leaf);
      if w == "" {
        EvaluateNothing(leaf);
      } else {
        EvaluateParenthesizedConjunction(w, u, leaf);
      }
    }
  }

  lemma EvaluateNothing(leaf: Leaves)
    ensures Evaluate("", leaf)
  {
    assert Trim("") == "";
  }

  // ---- Agreement of the two engines ----

  /** Contexts as the approval workflow produces them: no approval_status, or "approved". */
  predicate Admissible(ctx: Context) {
    APPROVAL in ctx ==> ctx[APPROVAL] == APPROVED
  }

  /** An unless text that holds exactly when the context carries the approval. */
  ghost predicate ApprovalGate(u: string, reader: Reader) {
    forall ctx: Context | Admissible(ctx) :: Evaluate(u, reader.Leaves(ctx)) == (APPROVAL in ctx)
  }

  /** Conditions do not look at the approval, and the only unless is an approval gate on a forbid. */
  ghost predicate Canonical(r: Rule, reader: Reader) {
    && Closed(r)
    && (r.when.Some? ==> !Occurs(APPROVAL, r.when.value))
    && (r.unless.Some? ==> r.effect.Forbid? && r.Gated() && ApprovalGate(r.unless.value, reader))
  }

  ghost predicate Domain(rules: seq<Rule>, ctx: Context, reader: Reader) {
    reader.Literal() && Admissible(ctx) && forall r | r in rules :: Canonical(r, reader)
  }

  /** Rule r is a forbid without gate, or a gated one, whose head and when hold. */
  ghost predicate PlainForbid(r: Rule, action: string, leaf: Leaves) {
    r.effect.Forbid? && !r.Gated() && Matches(r, action, leaf)
  }

  ghost predicate GatedForbid(r: Rule, action: string, leaf: Leaves) {
    r.effect.Forbid? && r.Gated() && Matches(r, action, leaf)
  }

  ghost predicate NamedPermit(r: Rule, action: string, leaf: Leaves) {
    r.effect.Permit? && Matches(r, action, leaf)
  }

  /** A permit for any action, which only Cedar lets match. */
  ghost predicate OpenPermit(r: Rule, leaf: Leaves) {
    r.effect.Permit? && r.scope.AnyAction? && r.WhenHolds(leaf)
  }

  ghost predicate SomePlain(rules: seq<Rule>, action: string, leaf: Leaves) {
    exists r | r in rules :: PlainForbid(r, action, leaf)
  }

  ghost predicate SomeGated(rules: seq<Rule>, action: string, leaf: Leaves) {
    exists r | r in rules :: GatedForbid(r, action, leaf)
  }

  ghost predicate SomeNamed(rules: seq<Rule>, action: string, leaf: Leaves) {
    exists r | r in rules :: NamedPermit(r, action, leaf)
  }

  ghost predicate SomeOpen(rules: seq<Rule>, leaf: Leaves) {
    exists r | r in rules :: OpenPermit(r, leaf)
  }

  /** What counts as approved: the attribute with exactly the value "approved". */
  predicate CarriesApproval(ctx: Context) {
    "approval_status" in ctx && ctx["approval_status"] == Words("approved")
  }

  /** With the approval only plain forbids block, without it gated ones too; a permit opens, or a gate with it. */
  lemma BlocksExactly(r: Rule, action: string, ctx: Context, reader: Reader)
    ensures var leaf := reader.Leaves(ctx);
            && (Blocks(r, action, ctx, reader) <==>
                  PlainForbid(r, action, leaf) || (GatedForbid(r, action, leaf) && !CarriesApproval(ctx)))
            && (Opens(r, action, ctx, reader) <==>
                  NamedPermit(r, action, leaf) || (GatedForbid(r, action, leaf) && CarriesApproval(ctx)))
  {
  }

  /** The in-process decision, for every context, whatever its approval_status. */
  lemma PythonByKinds(rules: seq<Rule>, action: string, ctx: Context, reader: Reader)
    ensures var leaf := reader.Leaves(ctx);
            var plain, gated := SomePlain(rules, action, leaf), SomeGated(rules, action, leaf);
            PythonDecision(rules, action, ctx, reader) ==
            if gated && !("approval_status" in ctx && ctx["approval_status"] == Words("approved")) then ApprovalRequired
            else if plain then Deny
            else if gated || SomeNamed(rules, action, leaf) then Allow
            else Deny
  {
    hide Evaluate, Blocks, Opens, PlainForbid, GatedForbid, NamedPermit;
    var leaf := reader.Leaves(ctx);
    forall r | r in rules
      ensures Blocks(r, action, ctx, reader)
           == (PlainForbid(r, action, leaf) || (GatedForbid(r, action, leaf) && !CarriesApproval(ctx)))
      ensures Opens(r, action, ctx, reader)
           == (NamedPermit(r, action, leaf) || (GatedForbid(r, action, leaf) && CarriesApproval(ctx)))
    {
      BlocksExactly(r, action, ctx, reader);
    }
    PlainIsNotGated(action, leaf);
  }

  lemma PlainIsNotGated(action: string, leaf: Leaves)
    ensures forall r: Rule :: PlainForbid(r, action, leaf) ==> !r.Gated()
    ensures forall r: Rule :: GatedForbid(r, action, leaf) ==> r.Gated()
  {
  }

  lemma AdmissibleApproval(ctx: Context)
    requires Admissible(ctx)
    ensures CarriesApproval(ctx) <==> APPROVAL in ctx
  {
  }

  /** A matching gated forbid asks for approval unless the approval is there: absent and any other value are alike. */
  lemma OnlyApprovedOpensTheGate(rules: seq<Rule>, r: Rule, action: string, ctx: Context, reader: Reader)
    requires r in rules && r.effect == Forbid && r.Gated() && Matches(r, action, reader.Leaves(ctx))
    ensures "approval_status" !in ctx || ctx["approval_status"] != Words("approved") ==>
              PythonDecision(rules, action, ctx, reader) == ApprovalRequired
    ensures "approval_status" in ctx && ctx["approval_status"] == Words("approved") ==>
              PythonDecision(rules, action, ctx, reader)
              == if SomePlain(rules, action, reader.Leaves(ctx)) then Deny else Allow
  {
    hide Evaluate, Rule.Gated, PythonDecision;
    assert GatedForbid(r, action, reader.Leaves(ctx));
    PythonByKinds(rules, action, ctx, reader);
  }

  /** The two textual tests for a gate: an unless, and the word approval_status in one of the conditions. */
  lemma GatedExactly(r: Rule)
    ensures r.Gated() <==>
            && r.unless.Some?
            && ((exists pre, post :: r.unless.value == pre + "approval_status" + post)
                || (r.when.Some? && exists pre, post :: r.when.value == pre + "approval_status" + post))
  {
    hide Occurs;
    if r.unless.Some? {
      OccursExactly("approval_status", r.unless.value);
      if r.when.Some? {
        OccursExactly("approval_status", r.when.value);
      }
    }
  }

  /** The named policy is the last of its kind in the list. */
  lemma {:induction false} LastWhereIsLast(rules: seq<Rule>, p: Rule -> bool) returns (i: nat)
    requires LastWhere(rules, p).Some?
    ensures i < |rules| && LastWhere(rules, p).value == rules[i] && p(rules[i])
    ensures forall j | i < j < |rules| :: !p(rules[j])
  {
    i := |rules| - 1;
    if !p(rules[i]) {
      i := LastWhereIsLast(rules[..i], p);
    }
  }

  /** One Cedar pass over the expanded rules. */
  lemma CedarPassByKinds(rules: seq<Rule>, action: string, ctx: Context, reader: Reader)
    requires Domain(rules, ctx, reader)
    ensures var leaf := reader.Leaves(ctx);
            var plain, gated := SomePlain(rules, action, leaf), SomeGated(rules, action, leaf);
            CedarAllows(Expanded(rules), action, leaf) ==
            (!plain && (gated ==> APPROVAL in ctx)
             && (gated || SomeNamed(rules, action, leaf) || SomeOpen(rules, leaf)))
  {
    hide Evaluate, Balanced, Expanded, Companion;
    var leaf, expanded := reader.Leaves(ctx), Expanded(rules);
    forall r | r in rules
      ensures r.effect.Forbid? && Applies(r, action, leaf)
          <==> PlainForbid(r, action, leaf) || (GatedForbid(r, action, leaf) && APPROVAL !in ctx)
      ensures r.effect.Permit? && Applies(r, action, leaf)
          <==> NamedPermit(r, action, leaf) || OpenPermit(r, leaf)
    {
    }
    forall r, q | q in rules && Companion(q) == Some(r)
      ensures r.effect.Permit? && (Applies(r, action, leaf) <==> GatedForbid(q, action, leaf) && APPROVAL in ctx)
    {
      CompanionShape(q);
      CompanionMeaning(q, action, leaf);
    }
    forall r ensures r in expanded <==> r in rules || exists q | q in rules :: Companion(q) == Some(r) {
      ExpandedMembers(rules, r);
    }
    if q :| q in rules && GatedForbid(q, action, leaf) {
      CompanionShape(q);
      assert Companion(q).value in expanded;
    }
  }

  lemma CompanionShape(q: Rule)
    ensures Companion(q).Some? <==> q.effect.Forbid? && q.Gated()
    ensures Companion(q).Some? ==> Companion(q).value.effect.Permit?
  {
  }

  lemma InjectionKeepsWhen(r: Rule, ctx: Context, reader: Reader)
    requires reader.Literal() && APPROVAL !in ctx && (r.when.Some? ==> !Occurs(APPROVAL, r.when.value))
    ensures r.WhenHolds(reader.Leaves(ctx[APPROVAL := APPROVED])) == r.WhenHolds(reader.Leaves(ctx))
  {
    hide Evaluate;
    var leaf, leaf' := reader.Leaves(ctx), reader.Leaves(ctx[APPROVAL := APPROVED]);
    if r.when.Some? {
      forall t | !Occurs(APPROVAL, t) ensures leaf(t) == leaf'(t) {
        var a := reader.attribute(t);
        assert a.Some? ==> a.value != APPROVAL;
      }
      EvaluateFrame(r.when.value, leaf, leaf', APPROVAL);
    }
  }

  /** Injecting the approval changes no condition that does not mention it. */
  lemma InjectionKeepsKinds(rules: seq<Rule>, action: string, ctx: Context, reader: Reader)
    requires Domain(rules, ctx, reader) && APPROVAL !in ctx
    ensures var ctx' := ctx[APPROVAL := APPROVED];
            var leaf, leaf' := reader.Leaves(ctx), reader.Leaves(ctx');
            && Domain(rules, ctx', reader)
            && SomePlain(rules, action, leaf') == SomePlain(rules, action, leaf)
            && SomeGated(rules, action, leaf') == SomeGated(rules, action, leaf)
            && SomeNamed(rules, action, leaf') == SomeNamed(rules, action, leaf)
            && SomeOpen(rules, leaf') == SomeOpen(rules, leaf)
  {
    hide Evaluate;
    var ctx' := ctx[APPROVAL := APPROVED];
    var leaf, leaf' := reader.Leaves(ctx), reader.Leaves(ctx');
    forall r | r in rules ensures r.WhenHolds(leaf') == r.WhenHolds(leaf) {
      InjectionKeepsWhen(r, ctx, reader);
    }
    assert forall r | r in rules :: Matches(r, action, leaf') == Matches(r, action, leaf);
  }

  /**
    On canonical rules the engines give the same decision, except in exactly two situations: without an
    approval, a plain and a gated forbid both match (the evaluator asks for approval, Cedar denies); or
    nothing matches but a permit for any action, which the evaluator does not let match.
   */
  lemma EnginesAgree(rules: seq<Rule>, action: string, ctx: Context, reader: Reader)
    requires Domain(rules, ctx, reader)
    ensures var leaf := reader.Leaves(ctx);
            var plain, gated := SomePlain(rules, action, leaf), SomeGated(rules, action, leaf);
            var python := PythonDecision(rules, action, ctx, reader);
            var cedar := CedarCliDecision(rules, action, ctx, reader);
            var mixed := APPROVAL !in ctx && plain && gated;
            var onlyOpen := SomeOpen(rules, leaf) && !SomeNamed(rules, action, leaf) && !plain && !gated;
            && (python == cedar <==> !mixed && !onlyOpen)
            && (mixed ==> python == ApprovalRequired && cedar == Deny)
            && (onlyOpen ==> python == Deny && cedar == Allow)
  {
    hide Evaluate;
    PythonByKinds(rules, action, ctx, reader);
    AdmissibleApproval(ctx);
    CedarPassByKinds(rules, action, ctx, reader);
    if APPROVAL !in ctx {
      InjectionKeepsKinds(rules, action, ctx, reader);
      CedarPassByKinds(rules, action, ctx[APPROVAL := APPROVED], reader);
    }
  }

  // ---- Growing contexts and reordered rules ----

  ghost predicate Extends(ctx: Context, wider: Context) {
    forall k | k in ctx :: k in wider && wider[k] == ctx[k]
  }

  /** Adding keys to the context never makes a matching rule stop matching. */
  lemma MatchesGrow(r: Rule, action: string, ctx: Context, wider: Context, reader: Reader)
    requires Extends(ctx, wider) && Matches(r, action, reader.Leaves(ctx))
    ensures Matches(r, action, reader.Leaves(wider))
  {
    if r.when.Some? {
      EvaluateMonotone(r.when.value, reader.Leaves(ctx), reader.Leaves(wider));
    }
  }

  /** Once an ungated forbid matches, no further context, not even an approval, yields ALLOW on either engine. */
  lemma PlainForbidIsFinal(rules: seq<Rule>, r: Rule, action: string, ctx: Context, wider: Context, reader: Reader)
    requires r in rules && r.effect.Forbid? && r.unless.None?
    requires Extends(ctx, wider) && Matches(r, action, reader.Leaves(ctx))
    ensures PythonDecision(rules, action, wider, reader) != Allow
    ensures CedarCliDecision(rules, action, wider, reader) == Deny
  {
    MatchesGrow(r, action, ctx, wider, reader);
    assert Blocks(r, action, wider, reader);
    ExpandedMembers(rules, r);
    assert Applies(r, action, reader.Leaves(wider));
    if APPROVAL !in wider {
      var approved := wider[APPROVAL := APPROVED];
      MatchesGrow(r, action, wider, approved, reader);
      assert Applies(r, action, reader.Leaves(approved));
    }
  }

  /** The decision does not depend on the order of the policy list. */
  lemma OrderDoesNotMatter(rules: seq<Rule>, shuffled: seq<Rule>, action: string, ctx: Context, reader: Reader)
    requires multiset(rules) == multiset(shuffled)
    ensures PythonDecision(rules, action, ctx, reader) == PythonDecision(shuffled, action, ctx, reader)
    ensures CedarCliDecision(rules, action, ctx, reader) == CedarCliDecision(shuffled, action, ctx, reader)
  {
    hide Evaluate, Expanded, Companion;
    assert forall r :: r in rules <==> r in multiset(rules);
    assert forall r :: r in shuffled <==> r in multiset(shuffled);
    forall r ensures r in Expanded(rules) <==> r in Expanded(shuffled) {
      ExpandedMembers(rules, r);
      ExpandedMembers(shuffled, r);
    }
  }

  // ---- The approval gates in use ----

  /** The reader takes has for a presence test of the approval, and equals for its comparison with "approved". */
  ghost predicate ReadsApproval(reader: Reader, has: string, equals: string) {
    && reader.attribute(has) == Some(APPROVAL) && (forall v :: reader.test(has, v))
    && reader.attribute(equals) == Some(APPROVAL) && (forall v :: reader.test(equals, v) <==> v == APPROVED)
  }

  /** Both gates found in rule files are approval gates: the bare comparison, and the one guarded by "has". */
  lemma GatesInUse(has: string, equals: string, reader: Reader)
    requires LeafText(has) && LeafText(equals) && ReadsApproval(reader, has, equals)
    ensures ApprovalGate(equals, reader) && ApprovalGate(Conjunction(has, equals), reader)
  {
    hide Evaluate, LeafText, Conjunction;
    forall ctx: Context | Admissible(ctx)
      ensures Evaluate(equals, reader.Leaves(ctx)) == (APPROVAL in ctx)
      ensures Evaluate(Conjunction(has, equals), reader.Leaves(ctx)) == (APPROVAL in ctx)
    {
      var leaf := reader.Leaves(ctx);
      assert leaf(has) == leaf(equals) == (APPROVAL in ctx);
      EvaluateLeafPair(has, equals, leaf);
    }
  }

  lemma EvaluateLeafPair(a: string, b: string, leaf: Leaves)
    requires LeafText(a) && LeafText(b)
    ensures Evaluate(b, leaf) == leaf(b)
    ensures Evaluate(Conjunction(a, b), leaf) == (leaf(a) && leaf(b))
  {
    EvaluateLeaf(a, leaf);
    EvaluateLeaf(b, leaf);
    EvaluateSpacedConjunction(a, b, leaf);
  }

  // ---- Both disagreements occur ----

  /** "permit(principal, action, resource);" alone, for any request: Cedar allows, the evaluator denies. */
  lemma PermitAllDiffers(id: string, action: string, ctx: Context, reader: Reader)
    requires reader.Literal() && Admissible(ctx)
    ensures var rules := [Rule(id, Permit, AnyAction, None, None)];
            && Domain(rules, ctx, reader)
            && PythonDecision(rules, action, ctx, reader) == Deny
            && CedarCliDecision(rules, action, ctx, reader) == Allow
  {
    var r := Rule(id, Permit, AnyAction, None, None);
    assert r in [r];
    assert OpenPermit(r, reader.Leaves(ctx));
    EnginesAgree([r], action, ctx, reader);
  }

  /** A plain and a gated forbid of one action, with no approval: the evaluator asks for one, Cedar denies. */
  lemma MixedForbidsDiffer(plain: Rule, gated: Rule, action: string, reader: Reader)
    requires reader.Literal() && Canonical(plain, reader) && Canonical(gated, reader)
    requires plain == Rule(plain.id, Forbid, Only({action}), None, None)
    requires gated == Rule(gated.id, Forbid, Only({action}), None, gated.unless) && gated.unless.Some?
    ensures PythonDecision([plain, gated], action, map[], reader) == ApprovalRequired
    ensures CedarCliDecision([plain, gated], action, map[], reader) == Deny
  {
    hide Evaluate, Canonical;
    var rules := [plain, gated];
    assert plain in rules && gated in rules;
    GatedByUnless(gated, reader);
    EnginesAgree(rules, action, map[], reader);
    assert PlainForbid(plain, action, reader.Leaves(map[])) && GatedForbid(gated, action, reader.Leaves(map[]));
  }

  lemma GatedByUnless(r: Rule, reader: Reader)
    requires Canonical(r, reader) && r.unless.Some?
    ensures r.Gated()
  {
  }

  const GATE_FRONT := "context.approval_status == "
  const BARE_GATE := GATE_FRONT + (QUOTE + ("approved" + QUOTE))

  /** Reads the one leaf context.approval_status == "approved". */
  const GATE_READER := Reader(text => if text == BARE_GATE then Some(APPROVAL) else None,
                              (_, value) => value == APPROVED)

  lemma BareGateMentionsApproval()
    ensures Occurs(APPROVAL, BARE_GATE)
  {
    var rest := " == " + (QUOTE + ("approved" + QUOTE));
    assert GATE_FRONT == "context." + (APPROVAL + " == ");
    assert BARE_GATE == "context." + (APPROVAL + rest);
    assert BARE_GATE[8..] == APPROVAL + rest;
    assert APPROVAL <= BARE_GATE[8..];
  }

  lemma BareGateIsLeaf()
    ensures LeafText(BARE_GATE)
  {
    hide LeafText;
    QuotedIsLeaf(GATE_FRONT, "approved");
  }

  /** The forbid whose unless compares approval_status with "approved" is canonical. */
  lemma BareGateIsCanonical(id: string, scope: Scope)
    ensures GATE_READER.Literal() && Canonical(Rule(id, Forbid, scope, None, Some(BARE_GATE)), GATE_READER)
  {
    hide Evaluate;
    BareGateMentionsApproval();
    BareGateIsLeaf();
    TrimIs(BARE_GATE);
    forall ctx: Context | Admissible(ctx)
      ensures Evaluate(BARE_GATE, GATE_READER.Leaves(ctx)) == (APPROVAL in ctx)
    {
      EvaluateLeaf(BARE_GATE, GATE_READER.Leaves(ctx));
    }
  }

  /** One such pair of rules, in the empty context. */
  lemma MixedForbidsOccur(action: string)
    ensures var rules := [Rule("plain", Forbid, Only({action}), None, None),
                          Rule("gated", Forbid, Only({action}), None, Some(BARE_GATE))];
            && Domain(rules, map[], GATE_READER)
            && PythonDecision(rules, action, map[], GATE_READER) == ApprovalRequired
            && CedarCliDecision(rules, action, map[], GATE_READER) == Deny
  {
    hide Evaluate, Canonical, PythonDecision, CedarCliDecision;
    var plain := Rule("plain", Forbid, Only({action}), None, None);
    var gated := Rule("gated", Forbid, Only({action}), None, Some(BARE_GATE));
    BareGateIsCanonical("gated", Only({action}));
    PlainIsCanonical("plain", Only({action}), GATE_READER);
    MixedForbidsDiffer(plain, gated, action, GATE_READER);
  }

  lemma PlainIsCanonical(id: string, scope: Scope, reader: Reader)
    ensures Canonical(Rule(id, Forbid, scope, None, None), reader)
  {
  }

  /** One rule, approval_status "pending": the evaluator asks for approval; with "approved" it allows. */
  lemma PendingIsNotApproved(action: string)
    ensures var rules := [Rule("gated", Forbid, Only({action}), None, Some(BARE_GATE))];
            && PythonDecision(rules, action, map["approval_status" := Words("pending")], GATE_READER)
               == ApprovalRequired
            && PythonDecision(rules, action, map["approval_status" := Words("approved")], GATE_READER) == Allow
  {
    hide Evaluate, PythonDecision;
    var r := Rule("gated", Forbid, Only({action}), None, Some(BARE_GATE));
    BareGateMentionsApproval();
    assert r in [r];
    assert "pending" != "approved" by { assert |"pending"| != |"approved"|; }
    OnlyApprovedOpensTheGate([r], r, action, map["approval_status" := Words("pending")], GATE_READER);
    OnlyApprovedOpensTheGate([r], r, action, map["approval_status" := Words("approved")], GATE_READER);
  }
}
