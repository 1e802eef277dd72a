/**
  The Cedar path with evaluation errors. Cedar reads a condition as a tree, evaluates it from left to right,
  errs on an absent attribute unless it only asks for its presence, and skips a rule whose condition errs.
  The in-process engine reads the printed text of the same tree and takes an absent attribute for false.
 */
module CedarErrors {
  import opened Text
  import opened ConditionScanner
  import opened ConditionEvaluator
  import opened PolicyDecision
  import opened Wrappers

  datatype Truth = Yes | No | Err

  type CedarLeaves = string -> Truth

  function CedarMeaning(t: Cond, leaf: CedarLeaves): Truth {
    match t
    case Atom(text) => leaf(text)
    case Both(l, r) => (var v := CedarMeaning(l, leaf); if v.Yes? then CedarMeaning(r, leaf) else v)
    case Either(l, r) => (var v := CedarMeaning(l, leaf); if v.No? then CedarMeaning(r, leaf) else v)
    case Group(inner) => CedarMeaning(inner, leaf)
    case Spaced(_, inner, _) => CedarMeaning(inner, leaf)
  }

  /**
    How both engines judge leaves: reader in process, cedar in Cedar, on which nothing is fixed. presence
    tells the leaves that only ask whether their attribute is there.
   */
  datatype CedarReader = CedarReader(reader: Reader, presence: string -> bool, cedar: (string, Context) -> Truth) {
    function Leaves(ctx: Context): CedarLeaves {
      text => cedar(text, ctx)
    }

    /** Cedar's judgement of a leaf that does not mention the approval does not depend on it. */
    ghost predicate Framed() {
      forall text, ctx: Context | !Occurs(APPROVAL, text) :: cedar(text, ctx[APPROVAL := APPROVED]) == cedar(text, ctx)
    }

    /** What Cedar makes of a leaf that both engines read alike: an absent attribute is an error, or for "has" false. */
    function Expected(text: string, ctx: Context): Truth {
      match reader.attribute(text)
      case None => No
      case Some(a) =>
        if a in ctx then (if reader.test(text, ctx[a]) then Yes else No)
        else if presence(text) then No
        else Err
    }

    /** The leaf is understood in process, and judged by Cedar as expected. */
    ghost predicate Reads(text: string) {
      reader.attribute(text).Some? && forall ctx: Context :: cedar(text, ctx) == Expected(text, ctx)
    }
  }

  /** Every leaf of the condition is read alike. */
  ghost predicate Understood(t: Cond, cr: CedarReader) {
    match t
    case Atom(text) => cr.Reads(text)
    case Both(l, r) => Understood(l, cr) && Understood(r, cr)
    case Either(l, r) => Understood(l, cr) && Understood(r, cr)
    case Group(inner) => Understood(inner, cr)
    case Spaced(_, inner, _) => Understood(inner, cr)
  }

  /** On leaves read alike, Cedar never calls a condition true or false that the in-process engine judges otherwise. */
  lemma {:induction false} CedarRefinesMeaning(t: Cond, ctx: Context, cr: CedarReader)
    requires Understood(t, cr)
    ensures CedarMeaning(t, cr.Leaves(ctx)).Yes? ==> Meaning(t, cr.reader.Leaves(ctx))
    ensures CedarMeaning(t, cr.Leaves(ctx)).No? ==> !Meaning(t, cr.reader.Leaves(ctx))
  {
    match t
    case Atom(_) =>
    case Both(l, r) =>
      CedarRefinesMeaning(l, ctx, cr);
      CedarRefinesMeaning(r, ctx, cr);
    case Either(l, r) =>
      CedarRefinesMeaning(l, ctx, cr);
      CedarRefinesMeaning(r, ctx, cr);
    case Group(inner) =>
      CedarRefinesMeaning(inner, ctx, cr);
    case Spaced(_, inner, _) =>
      CedarRefinesMeaning(inner, ctx, cr);
  }

  // ---- Conditions on which errors do not matter ----

  /** In every context Cedar finds the condition true exactly where the in-process engine does. */
  ghost predicate Steady(t: Cond, cr: CedarReader) {
    forall ctx: Context :: CedarMeaning(t, cr.Leaves(ctx)).Yes? == Meaning(t, cr.reader.Leaves(ctx))
  }

  /** The attributes that are present wherever the condition is true. */
  function Granted(t: Cond, cr: CedarReader): set<string> {
    match t
    case Atom(text) => (var a := cr.reader.attribute(text); if a.Some? then {a.value} else {})
    case Both(l, r) => Granted(l, cr) + Granted(r, cr)
    case Either(l, r) => Granted(l, cr) * Granted(r, cr)
    case Group(inner) => Granted(inner, cr)
    case Spaced(_, inner, _) => Granted(inner, cr)
  }

  /** Never errs, by its shape: every test is of a known attribute, or of one that the conjuncts before it grant. */
  predicate Guarded(t: Cond, known: set<string>, cr: CedarReader) {
    match t
    case Atom(text) =>
      cr.presence(text) || (cr.reader.attribute(text).Some? && cr.reader.attribute(text).value in known)
    case Both(l, r) => Guarded(l, known, cr) && Guarded(r, known + Granted(l, cr), cr)
    case Either(l, r) => Guarded(l, known, cr) && Guarded(r, known, cr)
    case Group(inner) => Guarded(inner, known, cr)
    case Spaced(_, inner, _) => Guarded(inner, known, cr)
  }

  /** What stands before an alternative is guarded; the rest is free. */
  predicate SteadyShape(t: Cond, known: set<string>, cr: CedarReader) {
    match t
    case Atom(_) => true
    case Both(l, r) => SteadyShape(l, known, cr) && SteadyShape(r, known + Granted(l, cr), cr)
    case Either(l, r) => Guarded(l, known, cr) && SteadyShape(r, known, cr)
    case Group(inner) => SteadyShape(inner, known, cr)
    case Spaced(_, inner, _) => SteadyShape(inner, known, cr)
  }

  lemma {:induction false} GrantedArePresent(t: Cond, ctx: Context, cr: CedarReader)
    requires Understood(t, cr) && CedarMeaning(t, cr.Leaves(ctx)).Yes?
    ensures Granted(t, cr) <= ctx.Keys
  {
    match t
    case Atom(_) =>
    case Both(l, r) =>
      GrantedArePresent(l, ctx, cr);
      GrantedArePresent(r, ctx, cr);
    case Either(l, r) =>
      if CedarMeaning(l, cr.Leaves(ctx)).Yes? {
        GrantedArePresent(l, ctx, cr);
      } else {
        GrantedArePresent(r, ctx, cr);
      }
    case Group(inner) =>
      GrantedArePresent(inner, ctx, cr);
    case Spaced(_, inner, _) =>
      GrantedArePresent(inner, ctx, cr);
  }

  lemma {:induction false} GuardedNeverErrs(t: Cond, known: set<string>, ctx: Context, cr: CedarReader)
    requires Understood(t, cr) && Guarded(t, known, cr) && known <= ctx.Keys
    ensures !CedarMeaning(t, cr.Leaves(ctx)).Err?
  {
    match t
    case Atom(_) =>
    case Both(l, r) =>
      GuardedNeverErrs(l, known, ctx, cr);
      if CedarMeaning(l, cr.Leaves(ctx)).Yes? {
        GrantedArePresent(l, ctx, cr);
        GuardedNeverErrs(r, known + Granted(l, cr), ctx, cr);
      }
    case Either(l, r) =>
      GuardedNeverErrs(l, known, ctx, cr);
      GuardedNeverErrs(r, known, ctx, cr);
    case Group(inner) =>
      GuardedNeverErrs(inner, known, ctx, cr);
    case Spaced(_, inner, _) =>
      GuardedNeverErrs(inner, known, ctx, cr);
  }

  lemma {:induction false} ShapeIsSteadyIn(t: Cond, known: set<string>, ctx: Context, cr: CedarReader)
    requires Understood(t, cr) && SteadyShape(t, known, cr) && known <= ctx.Keys && Meaning(t, cr.reader.Leaves(ctx))
    ensures CedarMeaning(t, cr.Leaves(ctx)).Yes?
  {
    match t
    case Atom(_) =>
    case Both(l, r) =>
      ShapeIsSteadyIn(l, known, ctx, cr);
      GrantedArePresent(l, ctx, cr);
      ShapeIsSteadyIn(r, known + Granted(l, cr), ctx, cr);
    case Either(l, r) =>
      GuardedNeverErrs(l, known, ctx, cr);
      CedarRefinesMeaning(l, ctx, cr);
      if !CedarMeaning(l, cr.Leaves(ctx)).Yes? {
        ShapeIsSteadyIn(r, known, ctx, cr);
      }
    case Group(inner) =>
      ShapeIsSteadyIn(inner, known, ctx, cr);
    case Spaced(_, inner, _) =>
      ShapeIsSteadyIn(inner, known, ctx, cr);
  }

  /** A condition in which whatever stands before an alternative is guarded, is steady. */
  lemma ShapeIsSteady(t: Cond, cr: CedarReader)
    requires Understood(t, cr) && SteadyShape(t, {}, cr)
    ensures Steady(t, cr)
  {
    forall ctx: Context ensures CedarMeaning(t, cr.Leaves(ctx)).Yes? == Meaning(t, cr.reader.Leaves(ctx)) {
      CedarRefinesMeaning(t, ctx, cr);
      if Meaning(t, cr.reader.Leaves(ctx)) {
        ShapeIsSteadyIn(t, {}, ctx, cr);
      }
    }
  }

  function SpacedBoth(l: Cond, r: Cond): Cond {
    Both(Spaced("", l, " "), Spaced(" ", r, ""))
  }

  function SpacedEither(l: Cond, r: Cond): Cond {
    Either(Spaced("", l, " "), Spaced(" ", r, ""))
  }

  /** The shapes of the shipped rules, "has a && a ..." and "has a && (a ... || a ...)", are steady and never err. */
  lemma ShippedShapesAreSteady(has: string, first: string, second: string, cr: CedarReader)
    requires cr.Reads(has) && cr.Reads(first) && cr.Reads(second) && cr.presence(has)
    requires cr.reader.attribute(has) == cr.reader.attribute(first) == cr.reader.attribute(second)
    ensures var t, u := SpacedBoth(Atom(has), Atom(first)),
                        SpacedBoth(Atom(has), Group(SpacedEither(Atom(first), Atom(second))));
            && Steady(t, cr) && Guarded(t, {}, cr)
            && Steady(u, cr) && Guarded(u, {}, cr)
  {
    var a := cr.reader.attribute(has).value;
    hide Steady, CedarReader.Reads;
    var before := Spaced("", Atom(has), " ");
    assert Understood(before, cr) && Guarded(before, {}, cr) && SteadyShape(before, {}, cr) by {
      assert Understood(Atom(has), cr) && Guarded(Atom(has), {}, cr);
    }
    assert Granted(before, cr) == {a} by { assert Granted(Atom(has), cr) == {a}; }
    KnownIsGuarded("", first, " ", a, cr);
    KnownIsGuarded(" ", second, "", a, cr);
    BehindIsSteady(before, Atom(first), a, cr);
    var either := SpacedEither(Atom(first), Atom(second));
    assert Understood(either, cr) && Guarded(either, {a}, cr) && SteadyShape(either, {a}, cr);
    BehindIsSteady(before, Group(either), a, cr);
  }

  lemma KnownIsGuarded(pre: string, text: string, post: string, a: string, cr: CedarReader)
    requires cr.Reads(text) && cr.reader.attribute(text) == Some(a)
    ensures var t := Spaced(pre, Atom(text), post);
            Understood(t, cr) && Guarded(t, {a}, cr) && SteadyShape(t, {a}, cr)
    ensures Understood(Atom(text), cr) && Guarded(Atom(text), {a}, cr) && SteadyShape(Atom(text), {a}, cr)
  {
    hide CedarReader.Reads;
    var atom := Atom(text);
    assert Understood(atom, cr) && Guarded(atom, {a}, cr) && SteadyShape(atom, {a}, cr);
  }

  lemma BehindIsSteady(before: Cond, t: Cond, a: string, cr: CedarReader)
    requires Understood(before, cr) && Guarded(before, {}, cr) && SteadyShape(before, {}, cr)
    requires Granted(before, cr) == {a}
    requires Understood(t, cr) && Guarded(t, {a}, cr) && SteadyShape(t, {a}, cr)
    ensures var u := Both(before, Spaced(" ", t, ""));
            Steady(u, cr) && Guarded(u, {}, cr)
  {
    hide Steady;
    assert {} + {a} == {a};
    ShapeIsSteady(Both(before, Spaced(" ", t, "")), cr);
  }

  // ---- Rules over condition trees ----

  function Printed(c: Option<Cond>): Option<string> {
    if c.Some? then Some(Print(c.value)) else None
  }

  /** A condition that prints, without blanks at its ends. */
  ghost predicate Proper(c: Option<Cond>) {
    c.Some? ==> Printable(c.value) && Tight(Print(c.value))
  }

  datatype TreeRule = TreeRule(id: string, effect: Effect, scope: Scope, when: Option<Cond>, unless: Option<Cond>) {
    /** The rule as the in-process engine reads it. */
    function Written(): Rule {
      Rule(id, effect, scope, Printed(when), Printed(unless))
    }

    predicate WhenHolds(leaf: CedarLeaves) {
      when.Some? ==> CedarMeaning(when.value, leaf).Yes?
    }

    predicate UnlessSpares(leaf: CedarLeaves) {
      unless.Some? ==> CedarMeaning(unless.value, leaf).No?
    }
  }

  function AllWritten(rules: seq<TreeRule>): seq<Rule> {
    if rules == [] then [] else AllWritten(rules[..|rules| - 1]) + [rules[|rules| - 1].Written()]
  }

  /** A rule applies when its conditions are decided in its favour; one that errs is skipped. */
  predicate CedarApplies(r: TreeRule, action: string, leaf: CedarLeaves) {
    (r.scope.Only? ==> action in r.scope.names) && r.WhenHolds(leaf) && r.UnlessSpares(leaf)
  }

  predicate CedarPermits(rules: seq<TreeRule>, action: string, leaf: CedarLeaves) {
    && (exists r | r in rules :: r.effect.Permit? && CedarApplies(r, action, leaf))
    && !(exists r | r in rules :: r.effect.Forbid? && CedarApplies(r, action, leaf))
  }

  /** The tree of the companion permit that the program writes as text. */
  function CompanionTree(r: TreeRule): Option<TreeRule> {
    if r.effect.Forbid? && r.Written().Gated() then
      var condition := if r.when.Some? then SpacedBoth(Group(r.when.value), Group(r.unless.value)) else r.unless.value;
      Some(TreeRule(r.id, Permit, r.scope, Some(condition), None))
    else
      None
  }

  function ExpandedTrees(rules: seq<TreeRule>): seq<TreeRule> {
    if rules == [] then []
    else
      var n := |rules| - 1;
      var c := CompanionTree(rules[n]);
      ExpandedTrees(rules[..n]) + [rules[n]] + (if c.Some? then [c.value] else [])
  }

  lemma {:induction false} PrintIsNotEmpty(t: Cond)
    requires Printable(t)
    ensures Print(t) != ""
  {
    match t
    case Atom(_) =>
    case Both(l, r) =>
    case Either(l, r) =>
    case Group(inner) =>
    case Spaced(_, inner, _) => PrintIsNotEmpty(inner);
  }

  lemma SpacedBothPrints(l: Cond, r: Cond)
    ensures Print(SpacedBoth(l, r)) == Conjunction(Print(l), Print(r))
  {
    ConjunctionIsJoined(Print(l), Print(r));
    assert "" + Print(l) + " " == Print(l) + " " && " " + Print(r) + "" == " " + Print(r);
  }

  /** The companion that the program writes is the text of the companion tree. */
  lemma CompanionIsWritten(r: TreeRule)
    requires Proper(r.when) && Proper(r.unless)
    ensures Companion(r.Written()) == if CompanionTree(r).Some? then Some(CompanionTree(r).value.Written()) else None
  {
    hide Evaluate, Printable;
    if CompanionTree(r).Some? {
      TrimIs(Print(r.unless.value));
      if r.when.Some? {
        TrimIs(Print(r.when.value));
        PrintIsNotEmpty(r.when.value);
        SpacedBothPrints(Group(r.when.value), Group(r.unless.value));
      }
    }
  }

  /** So is the whole expanded rule set. */
  lemma {:induction false} ExpandedIsWritten(rules: seq<TreeRule>)
    requires forall r | r in rules :: Proper(r.when) && Proper(r.unless)
    ensures Expanded(AllWritten(rules)) == AllWritten(ExpandedTrees(rules))
  {
    hide Companion, CompanionTree, Proper;
    if rules != [] {
      var n := |rules| - 1;
      var written, front := AllWritten(rules), ExpandedTrees(rules[..n]) + [rules[n]];
      assert written[..n] == AllWritten(rules[..n]) && |written| == n + 1 by {
        WrittenLength(rules[..n]);
      }
      ExpandedIsWritten(rules[..n]);
      CompanionIsWritten(rules[n]);
      assert front[..|front| - 1] == ExpandedTrees(rules[..n]);
      var c := CompanionTree(rules[n]);
      if c.Some? {
        var all := front + [c.value];
        assert all[..|all| - 1] == front;
      } else {
        assert front + [] == front;
        assert AllWritten(front) + [] == AllWritten(front);
      }
    }
  }

  lemma {:induction false} WrittenLength(rules: seq<TreeRule>)
    ensures |AllWritten(rules)| == |rules|
  {
    if rules != [] {
      WrittenLength(rules[..|rules| - 1]);
    }
  }

  lemma {:induction false} WrittenMembers(rules: seq<TreeRule>, r: Rule)
    ensures r in AllWritten(rules) <==> exists q | q in rules :: q.Written() == r
  {
    if rules != [] {
      var n := |rules| - 1;
      WrittenMembers(rules[..n], r);
      assert rules == rules[..n] + [rules[n]];
    }
  }

  lemma {:induction false} ExpandedTreeMembers(rules: seq<TreeRule>, r: TreeRule)
    ensures r in ExpandedTrees(rules) <==> r in rules || exists q | q in rules :: CompanionTree(q) == Some(r)
  {
    if rules != [] {
      var n := |rules| - 1;
      ExpandedTreeMembers(rules[..n], r);
      assert rules == rules[..n] + [rules[n]];
    }
  }

  /** Two passes, as in the program. */
  function CedarDecision(rules: seq<TreeRule>, action: string, ctx: Context, cr: CedarReader): Decision {
    var expanded := ExpandedTrees(rules);
    if CedarPermits(expanded, action, cr.Leaves(ctx)) then Allow
    else if APPROVAL !in ctx && CedarPermits(expanded, action, cr.Leaves(ctx[APPROVAL := APPROVED])) then
      ApprovalRequired
    else Deny
  }

  // ---- Agreement, errors included ----

  /** An unless that is true with the approval, and without it is false, or errs. */
  ghost predicate GateOf(u: Cond, absent: Truth, cr: CedarReader) {
    forall ctx: Context | Admissible(ctx) :: CedarMeaning(u, cr.Leaves(ctx)) == if APPROVAL in ctx then Yes else absent
  }

  ghost predicate GuardedGate(u: Cond, cr: CedarReader) {
    GateOf(u, No, cr)
  }

  ghost predicate BareGate(u: Cond, cr: CedarReader) {
    GateOf(u, Err, cr)
  }

  /** The rule has a gate that Cedar can judge without the approval. */
  ghost predicate Judged(r: TreeRule, cr: CedarReader) {
    r.unless.Some? && GuardedGate(r.unless.value, cr)
  }

  /** Conditions do not mention the approval, and the only unless is an approval gate on a forbid. */
  ghost predicate CanonicalTree(r: TreeRule, cr: CedarReader) {
    && Proper(r.when) && Proper(r.unless)
    && (r.when.Some? ==> !Occurs(APPROVAL, Print(r.when.value)))
    && (r.unless.Some? ==>
          r.effect.Forbid? && r.Written().Gated() && (GuardedGate(r.unless.value, cr) || BareGate(r.unless.value, cr)))
  }

  ghost predicate TreeDomain(rules: seq<TreeRule>, ctx: Context, cr: CedarReader) {
    cr.Framed() && Admissible(ctx) && forall r | r in rules :: CanonicalTree(r, cr)
  }

  /** Cedar finds scope and when of the rule satisfied. */
  predicate Reaches(r: TreeRule, action: string, leaf: CedarLeaves) {
    (r.scope.Only? ==> action in r.scope.names) && r.WhenHolds(leaf)
  }

  ghost predicate CedarPlain(rules: seq<TreeRule>, action: string, leaf: CedarLeaves) {
    exists r | r in rules :: r.effect.Forbid? && !r.Written().Gated() && Reaches(r, action, leaf)
  }

  ghost predicate CedarGated(rules: seq<TreeRule>, action: string, leaf: CedarLeaves) {
    exists r | r in rules :: r.effect.Forbid? && r.Written().Gated() && Reaches(r, action, leaf)
  }

  /** A gated forbid with a gate that Cedar can judge without the approval. */
  ghost predicate CedarJudged(rules: seq<TreeRule>, action: string, leaf: CedarLeaves, cr: CedarReader) {
    exists r | r in rules :: r.effect.Forbid? && r.Written().Gated() && Reaches(r, action, leaf) && Judged(r, cr)
  }

  ghost predicate CedarPermit(rules: seq<TreeRule>, action: string, leaf: CedarLeaves) {
    exists r | r in rules :: r.effect.Permit? && Reaches(r, action, leaf)
  }

  /** How Cedar judges one rule of the set. */
  lemma RuleByKind(r: TreeRule, action: string, ctx: Context, cr: CedarReader)
    requires CanonicalTree(r, cr) && Admissible(ctx)
    ensures CedarApplies(r, action, cr.Leaves(ctx)) <==>
            Reaches(r, action, cr.Leaves(ctx)) && (r.Written().Gated() ==> Judged(r, cr) && APPROVAL !in ctx)
  {
    hide Evaluate, Printable;
  }

  /** How Cedar judges its companion, if it has one. */
  lemma CompanionByKind(q: TreeRule, action: string, ctx: Context, cr: CedarReader)
    requires CanonicalTree(q, cr) && Admissible(ctx) && CompanionTree(q).Some?
    ensures var c := CompanionTree(q).value;
            && c.effect.Permit? && q.effect.Forbid? && q.Written().Gated()
            && (CedarApplies(c, action, cr.Leaves(ctx)) <==> Reaches(q, action, cr.Leaves(ctx)) && APPROVAL in ctx)
  {
    hide Evaluate, Printable;
    if q.when.Some? {
      SpacedBothMeans(Group(q.when.value), Group(q.unless.value), cr.Leaves(ctx));
    }
  }

  lemma SpacedBothMeans(l: Cond, r: Cond, leaf: CedarLeaves)
    ensures CedarMeaning(SpacedBoth(l, r), leaf).Yes? <==> CedarMeaning(l, leaf).Yes? && CedarMeaning(r, leaf).Yes?
  {
    assert CedarMeaning(Spaced("", l, " "), leaf) == CedarMeaning(l, leaf);
    assert CedarMeaning(Spaced(" ", r, ""), leaf) == CedarMeaning(r, leaf);
  }

  /** One pass of Cedar over the expanded rules. */
  lemma CedarPassWithErrors(rules: seq<TreeRule>, action: string, ctx: Context, cr: CedarReader)
    requires TreeDomain(rules, ctx, cr)
    ensures var leaf := cr.Leaves(ctx);
            CedarPermits(ExpandedTrees(rules), action, leaf) ==
            (!CedarPlain(rules, action, leaf) && (CedarJudged(rules, action, leaf, cr) ==> APPROVAL in ctx)
             && (CedarPermit(rules, action, leaf) || (CedarGated(rules, action, leaf) && APPROVAL in ctx)))
  {
    hide CanonicalTree, CompanionTree, ExpandedTrees, CedarApplies, Reaches, Judged, Rule.Gated;
    var leaf, expanded := cr.Leaves(ctx), ExpandedTrees(rules);
    forall r ensures r in expanded <==> r in rules || exists q | q in rules :: CompanionTree(q) == Some(r) {
      ExpandedTreeMembers(rules, r);
    }
    forall r | r in rules
      ensures CedarApplies(r, action, leaf) <==>
              Reaches(r, action, leaf) && (r.Written().Gated() ==> Judged(r, cr) && APPROVAL !in ctx)
      ensures r.effect.Permit? ==> !r.Written().Gated()
      ensures r.effect.Forbid? && r.Written().Gated() ==> CompanionTree(r).Some? && CompanionTree(r).value in expanded
    {
      RuleByKind(r, action, ctx, cr);
      GatedHasCompanion(r, cr);
    }
    forall q | q in rules && CompanionTree(q).Some?
      ensures CompanionTree(q).value.effect.Permit? && q.effect.Forbid? && q.Written().Gated()
      ensures CedarApplies(CompanionTree(q).value, action, leaf) <==> Reaches(q, action, leaf) && APPROVAL in ctx
    {
      CompanionByKind(q, action, ctx, cr);
    }
  }

  lemma GatedHasCompanion(q: TreeRule, cr: CedarReader)
    requires CanonicalTree(q, cr)
    ensures CompanionTree(q).Some? <==> q.effect.Forbid? && q.Written().Gated()
    ensures q.Written().Gated() ==> q.effect.Forbid?
  {
  }

  /** Frame: injecting the approval does not change what Cedar makes of a condition that does not mention it. */
  lemma {:induction false} CedarFrame(t: Cond, ctx: Context, cr: CedarReader)
    requires cr.Framed() && !Occurs(APPROVAL, Print(t))
    ensures CedarMeaning(t, cr.Leaves(ctx[APPROVAL := APPROVED])) == CedarMeaning(t, cr.Leaves(ctx))
  {
    hide Occurs;
    match t
    case Atom(_) =>
    case Both(l, r) =>
      OccursInJoined(Print(l), AndOp, Print(r));
      CedarFrame(l, ctx, cr);
      CedarFrame(r, ctx, cr);
    case Either(l, r) =>
      OccursInJoined(Print(l), OrOp, Print(r));
      CedarFrame(l, ctx, cr);
      CedarFrame(r, ctx, cr);
    case Group(inner) =>
      if Occurs(APPROVAL, Print(inner)) {
        OccursInPart(APPROVAL, "(", Print(inner), ")");
      }
      CedarFrame(inner, ctx, cr);
    case Spaced(pre, inner, post) =>
      if Occurs(APPROVAL, Print(inner)) {
        OccursInPart(APPROVAL, pre, Print(inner), post);
      }
      CedarFrame(inner, ctx, cr);
  }

  lemma OccursInJoined(a: string, op: Operator, b: string)
    requires !Occurs(APPROVAL, Joined(a, op, b))
    ensures !Occurs(APPROVAL, a) && !Occurs(APPROVAL, b)
  {
    assert "" + a + (op.Text() + b) == Joined(a, op, b) == a + op.Text() + b + "";
    if Occurs(APPROVAL, a) {
      OccursInPart(APPROVAL, "", a, op.Text() + b);
    }
    if Occurs(APPROVAL, b) {
      OccursInPart(APPROVAL, a + op.Text(), b, "");
    }
  }

  /** Injecting the approval changes no kind. */
  lemma InjectionKeepsTreeKinds(rules: seq<TreeRule>, action: string, ctx: Context, cr: CedarReader)
    requires TreeDomain(rules, ctx, cr) && APPROVAL !in ctx
    ensures var ctx' := ctx[APPROVAL := APPROVED];
            var leaf, leaf' := cr.Leaves(ctx), cr.Leaves(ctx');
            && TreeDomain(rules, ctx', cr)
            && CedarPlain(rules, action, leaf') == CedarPlain(rules, action, leaf)
            && CedarGated(rules, action, leaf') == CedarGated(rules, action, leaf)
            && CedarPermit(rules, action, leaf') == CedarPermit(rules, action, leaf)
  {
    hide Proper, Judged, GuardedGate, BareGate, Rule.Gated, CedarReader.Framed;
    var leaf, leaf' := cr.Leaves(ctx), cr.Leaves(ctx[APPROVAL := APPROVED]);
    forall r | r in rules ensures Reaches(r, action, leaf') == Reaches(r, action, leaf) {
      if r.when.Some? {
        CedarFrame(r.when.value, ctx, cr);
      }
    }
    hide Reaches;
  }

  /** Cedar's decision, in terms of which rules it finds reached. */
  lemma CedarByKinds(rules: seq<TreeRule>, action: string, ctx: Context, cr: CedarReader)
    requires TreeDomain(rules, ctx, cr)
    ensures var leaf := cr.Leaves(ctx);
            var plain, gated := CedarPlain(rules, action, leaf), CedarGated(rules, action, leaf);
            var judged, permit := CedarJudged(rules, action, leaf, cr), CedarPermit(rules, action, leaf);
            CedarDecision(rules, action, ctx, cr) ==
            if plain || (!permit && !gated) then Deny
            else if APPROVAL in ctx || (permit && !judged) then Allow
            else ApprovalRequired
  {
    hide CanonicalTree, CedarPermits, ExpandedTrees, CedarPlain, CedarPermit, Reaches, CedarReader.Framed;
    CedarPassWithErrors(rules, action, ctx, cr);
    if APPROVAL !in ctx {
      InjectionKeepsTreeKinds(rules, action, ctx, cr);
      CedarPassWithErrors(rules, action, ctx[APPROVAL := APPROVED], cr);
    }
  }

  /**
    When the engines agree, with Cedar's errors in the picture, whatever Cedar makes of leaves: the in-process
    engine goes by the rules that match in process, and Cedar by the ones it finds reached, from which a rule
    is missing whose condition errs.
   */
  lemma EnginesAgreeWithErrors(rules: seq<TreeRule>, action: string, ctx: Context, cr: CedarReader)
    requires TreeDomain(rules, ctx, cr)
    ensures var texts, leaf, cleaf := AllWritten(rules), cr.reader.Leaves(ctx), cr.Leaves(ctx);
            var plain, gated := SomePlain(texts, action, leaf), SomeGated(texts, action, leaf);
            var named := SomeNamed(texts, action, leaf);
            var cplain, cgated := CedarPlain(rules, action, cleaf), CedarGated(rules, action, cleaf);
            var cjudged, cpermit := CedarJudged(rules, action, cleaf, cr), CedarPermit(rules, action, cleaf);
            PythonDecision(texts, action, ctx, cr.reader) == CedarDecision(rules, action, ctx, cr) <==>
            if gated && APPROVAL !in ctx then !cplain && (cpermit || cgated) && (cjudged || !cpermit)
            else if !plain && (gated || named) then
              !cplain && (if APPROVAL in ctx then cpermit || cgated else cpermit && !cjudged)
            else cplain || (!cpermit && !cgated)
  {
    hide AllWritten, PythonDecision, CedarDecision, TreeDomain, SomePlain, SomeGated, SomeNamed;
    hide CedarPlain, CedarGated, CedarJudged, CedarPermit;
    DomainIsAdmissible(rules, ctx, cr);
    AdmissibleApproval(ctx);
    PythonByKinds(AllWritten(rules), action, ctx, cr.reader);
    CedarByKinds(rules, action, ctx, cr);
  }

  lemma DomainIsAdmissible(rules: seq<TreeRule>, ctx: Context, cr: CedarReader)
    requires TreeDomain(rules, ctx, cr)
    ensures Admissible(ctx)
  {
  }

  // ---- The three situations that remain on steady conditions ----

  ghost predicate SteadyRules(rules: seq<TreeRule>, cr: CedarReader) {
    forall r | r in rules :: r.when.Some? ==> Steady(r.when.value, cr)
  }

  /** A gated forbid that matches, with a gate that Cedar can judge without the approval. */
  ghost predicate SomeGuarded(rules: seq<TreeRule>, action: string, leaf: Leaves, cr: CedarReader) {
    exists r | r in rules :: GatedForbid(r.Written(), action, leaf) && Judged(r, cr)
  }

  lemma WhenAgrees(r: TreeRule, ctx: Context, cr: CedarReader)
    requires Proper(r.when) && (r.when.Some? ==> Steady(r.when.value, cr))
    ensures r.WhenHolds(cr.Leaves(ctx)) == r.Written().WhenHolds(cr.reader.Leaves(ctx))
  {
    hide Evaluate, Printable;
    if r.when.Some? {
      PrintedMeaning(r.when.value, cr.reader.Leaves(ctx));
    }
  }

  lemma KindsOfRule(r: TreeRule, action: string, ctx: Context, cr: CedarReader)
    requires Proper(r.when) && (r.when.Some? ==> Steady(r.when.value, cr))
    ensures var w, leaf, reached := r.Written(), cr.reader.Leaves(ctx), Reaches(r, action, cr.Leaves(ctx));
            && (PlainForbid(w, action, leaf) <==> r.effect.Forbid? && !w.Gated() && reached)
            && (GatedForbid(w, action, leaf) <==> r.effect.Forbid? && w.Gated() && reached)
            && (NamedPermit(w, action, leaf) || OpenPermit(w, leaf) <==> r.effect.Permit? && reached)
  {
    hide Evaluate, Proper, Steady, Rule.Gated, Rule.WhenHolds;
    WhenAgrees(r, ctx, cr);
  }

  /** On steady conditions Cedar finds reached what matches in process. */
  lemma SteadyKinds(rules: seq<TreeRule>, action: string, ctx: Context, cr: CedarReader)
    requires TreeDomain(rules, ctx, cr) && SteadyRules(rules, cr)
    ensures var texts, leaf, cleaf := AllWritten(rules), cr.reader.Leaves(ctx), cr.Leaves(ctx);
            && CedarPlain(rules, action, cleaf) == SomePlain(texts, action, leaf)
            && CedarGated(rules, action, cleaf) == SomeGated(texts, action, leaf)
            && CedarJudged(rules, action, cleaf, cr) == SomeGuarded(rules, action, leaf, cr)
            && CedarPermit(rules, action, cleaf) == (SomeNamed(texts, action, leaf) || SomeOpen(texts, leaf))
  {
    hide Evaluate, Proper, Steady, Rule.Gated, Rule.WhenHolds, Judged, AllWritten, Reaches, CedarReader.Framed;
    hide PlainForbid, GatedForbid, NamedPermit, OpenPermit;
    var texts, leaf := AllWritten(rules), cr.reader.Leaves(ctx);
    forall r ensures r in texts <==> exists q | q in rules :: q.Written() == r {
      WrittenMembers(rules, r);
    }
    forall r | r in rules
      ensures var w, reached := r.Written(), Reaches(r, action, cr.Leaves(ctx));
              && (PlainForbid(w, action, leaf) <==> r.effect.Forbid? && !w.Gated() && reached)
              && (GatedForbid(w, action, leaf) <==> r.effect.Forbid? && w.Gated() && reached)
              && (NamedPermit(w, action, leaf) || OpenPermit(w, leaf) <==> r.effect.Permit? && reached)
    {
      KindsOfRule(r, action, ctx, cr);
    }
  }

  /**
    Corollary for steady conditions: the engines give the same decision except in exactly three situations.
    A plain and a gated forbid match without approval; nothing matches but a permit for any action; or,
    without approval, every matching forbid has a bare gate, which Cedar skips, and a permit matches: the
    in-process engine asks for approval and Cedar allows.
   */
  lemma SteadyEnginesAgree(rules: seq<TreeRule>, action: string, ctx: Context, cr: CedarReader)
    requires TreeDomain(rules, ctx, cr) && SteadyRules(rules, cr)
    ensures var leaf, texts := cr.reader.Leaves(ctx), AllWritten(rules);
            var plain, gated := SomePlain(texts, action, leaf), SomeGated(texts, action, leaf);
            var named, open := SomeNamed(texts, action, leaf), SomeOpen(texts, leaf);
            var python, cedar := PythonDecision(texts, action, ctx, cr.reader), CedarDecision(rules, action, ctx, cr);
            var mixed := APPROVAL !in ctx && plain && gated;
            var onlyOpen := open && !named && !plain && !gated;
            var guarded := SomeGuarded(rules, action, leaf, cr);
            var skipped := APPROVAL !in ctx && gated && !guarded && !plain && (named || open);
            && (python == cedar <==> !mixed && !onlyOpen && !skipped)
            && (mixed ==> python == ApprovalRequired && cedar == Deny)
            && (onlyOpen ==> python == Deny && cedar == Allow)
            && (skipped ==> python == ApprovalRequired && cedar == Allow)
  {
    hide AllWritten, PythonDecision, CedarDecision, TreeDomain, SteadyRules, SomePlain, SomeGated, SomeNamed, SomeOpen;
    hide CedarPlain, CedarGated, CedarJudged, CedarPermit, SomeGuarded;
    DomainIsAdmissible(rules, ctx, cr);
    AdmissibleApproval(ctx);
    PythonByKinds(AllWritten(rules), action, ctx, cr.reader);
    CedarByKinds(rules, action, ctx, cr);
    SteadyKinds(rules, action, ctx, cr);
    GuardedIsGated(rules, action, cr.reader.Leaves(ctx), cr);
  }

  lemma GuardedIsGated(rules: seq<TreeRule>, action: string, leaf: Leaves, cr: CedarReader)
    ensures SomeGuarded(rules, action, leaf, cr) ==> SomeGated(AllWritten(rules), action, leaf)
  {
    hide GatedForbid;
    forall q | q in rules ensures q.Written() in AllWritten(rules) {
      WrittenMembers(rules, q.Written());
    }
  }

  // ---- Errors that matter ----

  /** The reader under which Cedar judges every leaf as expected. */
  function Standard(reader: Reader, presence: string -> bool): CedarReader {
    CedarReader(reader, presence, (text, ctx) => CedarReader(reader, presence, (_, _) => Err).Expected(text, ctx))
  }

  lemma StandardReads(reader: Reader, presence: string -> bool)
    requires reader.Literal()
    ensures Standard(reader, presence).Framed()
    ensures forall text :: reader.attribute(text).Some? ==> Standard(reader, presence).Reads(text)
  {
  }

  /** The bare comparison with "approved" errs without the approval; behind "has" it is false instead. */
  lemma GatesWithErrors(has: string, equals: string, cr: CedarReader)
    requires ReadsApproval(cr.reader, has, equals) && cr.Reads(has) && cr.Reads(equals)
    requires cr.presence(has) && !cr.presence(equals)
    ensures BareGate(Atom(equals), cr) && GuardedGate(SpacedBoth(Atom(has), Atom(equals)), cr)
  {
    forall ctx: Context | Admissible(ctx)
      ensures CedarMeaning(Atom(equals), cr.Leaves(ctx)) == if APPROVAL in ctx then Yes else Err
      ensures CedarMeaning(SpacedBoth(Atom(has), Atom(equals)), cr.Leaves(ctx)) == if APPROVAL in ctx then Yes else No
    {
      var leaf := cr.Leaves(ctx);
      assert CedarMeaning(Spaced("", Atom(has), " "), leaf) == leaf(has);
      assert CedarMeaning(Spaced(" ", Atom(equals), ""), leaf) == leaf(equals);
    }
  }

  lemma TwoWritten(p: TreeRule, q: TreeRule)
    ensures forall r :: r in AllWritten([p, q]) <==> r == p.Written() || r == q.Written()
  {
    forall r ensures r in AllWritten([p, q]) <==> r == p.Written() || r == q.Written() {
      WrittenMembers([p, q], r);
      assert p in [p, q] && q in [p, q];
    }
  }

  /** A permit and a forbid with a bare gate, for one action, in the empty context. */
  lemma BareGateDiffers(permit: TreeRule, gated: TreeRule, action: string, cr: CedarReader)
    requires TreeDomain([permit, gated], map[], cr)
    requires permit == TreeRule(permit.id, Permit, Only({action}), None, None)
    requires gated == TreeRule(gated.id, Forbid, Only({action}), None, gated.unless)
    requires gated.unless.Some? && BareGate(gated.unless.value, cr)
    ensures PythonDecision(AllWritten([permit, gated]), action, map[], cr.reader) == ApprovalRequired
    ensures CedarDecision([permit, gated], action, map[], cr) == Allow
  {
    hide GateOf, Proper, PythonDecision, CedarDecision, Evaluate, CedarReader.Framed;
    var rules, leaf := [permit, gated], cr.reader.Leaves(map[]);
    TwoWritten(permit, gated);
    assert permit in rules && gated in rules;
    assert CanonicalTree(gated, cr);
    assert GatedForbid(gated.Written(), action, leaf);
    PythonByKinds(AllWritten(rules), action, map[], cr.reader);
    CedarByKinds(rules, action, map[], cr);
    BareIsNotGuarded(gated.unless.value, cr);
  }

  /** It occurs, with the gate context.approval_status == "approved". */
  lemma BareGateIsSkipped(action: string)
    ensures var cr := Standard(GATE_READER, _ => false);
            var rules := [TreeRule("permit", Permit, Only({action}), None, None),
                          TreeRule("gated", Forbid, Only({action}), None, Some(Atom(BARE_GATE)))];
            && TreeDomain(rules, map[], cr)
            && PythonDecision(AllWritten(rules), action, map[], cr.reader) == ApprovalRequired
            && CedarDecision(rules, action, map[], cr) == Allow
  {
    hide CanonicalTree, PythonDecision, CedarDecision, AllWritten, BareGate, CedarReader.Framed;
    var cr := Standard(GATE_READER, _ => false);
    var permit := TreeRule("permit", Permit, Only({action}), None, None);
    var gated := TreeRule("gated", Forbid, Only({action}), None, Some(Atom(BARE_GATE)));
    BareGateIsProper(gated, cr);
    PermitIsCanonical(permit, cr);
    BareGateDiffers(permit, gated, action, cr);
  }

  lemma BareGateIsProper(r: TreeRule, cr: CedarReader)
    requires r.effect.Forbid? && r.when.None? && r.unless == Some(Atom(BARE_GATE))
    requires cr == Standard(GATE_READER, cr.presence) && !cr.presence(BARE_GATE)
    ensures CanonicalTree(r, cr) && r.Written().Gated() && BareGate(r.unless.value, cr) && cr.Framed()
  {
    BareGateIsLeaf();
    BareGateMentionsApproval();
    StandardReads(GATE_READER, cr.presence);
  }

  lemma PermitIsCanonical(r: TreeRule, cr: CedarReader)
    requires r.when.None? && r.unless.None?
    ensures CanonicalTree(r, cr)
  {
  }

  lemma BareIsNotGuarded(u: Cond, cr: CedarReader)
    requires BareGate(u, cr)
    ensures !GuardedGate(u, cr)
  {
    var ctx: Context := map[];
    assert Admissible(ctx);
  }

  /** A permit, and a plain forbid whose condition is true in process and an error in Cedar: Cedar allows. */
  lemma ErringForbidDiffers(permit: TreeRule, forbid: TreeRule, action: string, ctx: Context, cr: CedarReader)
    requires TreeDomain([permit, forbid], ctx, cr)
    requires permit == TreeRule(permit.id, Permit, Only({action}), None, None)
    requires forbid == TreeRule(forbid.id, Forbid, Only({action}), forbid.when, None) && forbid.when.Some?
    requires Meaning(forbid.when.value, cr.reader.Leaves(ctx)) && CedarMeaning(forbid.when.value, cr.Leaves(ctx)).Err?
    ensures !Steady(forbid.when.value, cr)
    ensures PythonDecision(AllWritten([permit, forbid]), action, ctx, cr.reader) == Deny
    ensures CedarDecision([permit, forbid], action, ctx, cr) == Allow
  {
    hide GateOf, Printable, PythonDecision, CedarDecision, Evaluate, CedarReader.Framed;
    var rules, leaf := [permit, forbid], cr.reader.Leaves(ctx);
    TwoWritten(permit, forbid);
    assert permit in rules && forbid in rules;
    assert CanonicalTree(forbid, cr);
    PrintedMeaning(forbid.when.value, leaf);
    assert PlainForbid(forbid.Written(), action, leaf);
    PythonByKinds(AllWritten(rules), action, ctx, cr.reader);
    CedarByKinds(rules, action, ctx, cr);
  }

  const X_TEST := "context.x == " + (QUOTE + ("v" + QUOTE))
  const Y_TEST := "context.y == " + (QUOTE + ("v" + QUOTE))

  const XY_READER := Reader(text => if text == X_TEST then Some("x") else if text == Y_TEST then Some("y") else None,
                            (_, value) => value == Words("v"))

  /** It occurs: forbid when context.x == "v" || context.y == "v", in a context that has only y. */
  lemma ErringForbidOccurs(action: string)
    ensures var cr, ctx: Context := Standard(XY_READER, _ => false), map["y" := Words("v")];
            var when := SpacedEither(Atom(X_TEST), Atom(Y_TEST));
            var rules := [TreeRule("permit", Permit, Only({action}), None, None),
                          TreeRule("forbid", Forbid, Only({action}), Some(when), None)];
            && TreeDomain(rules, ctx, cr)
            && PythonDecision(AllWritten(rules), action, ctx, cr.reader) == Deny
            && CedarDecision(rules, action, ctx, cr) == Allow
  {
    hide CanonicalTree, PythonDecision, CedarDecision, AllWritten, CedarReader.Framed;
    var cr, ctx: Context := Standard(XY_READER, _ => false), map["y" := Words("v")];
    var when := SpacedEither(Atom(X_TEST), Atom(Y_TEST));
    var permit := TreeRule("permit", Permit, Only({action}), None, None);
    var forbid := TreeRule("forbid", Forbid, Only({action}), Some(when), None);
    XyIsCanonical(forbid, cr);
    PermitIsCanonical(permit, cr);
    XyErrs(cr, ctx);
    ErringForbidDiffers(permit, forbid, action, ctx, cr);
  }

  lemma XyErrs(cr: CedarReader, ctx: Context)
    requires cr == Standard(XY_READER, _ => false) && ctx == map["y" := Words("v")]
    ensures var when := SpacedEither(Atom(X_TEST), Atom(Y_TEST));
            CedarMeaning(when, cr.Leaves(ctx)).Err? && Meaning(when, cr.reader.Leaves(ctx))
  {
    DifferentTests();
    var x, y := Spaced("", Atom(X_TEST), " "), Spaced(" ", Atom(Y_TEST), "");
    assert CedarMeaning(x, cr.Leaves(ctx)) == cr.Leaves(ctx)(X_TEST) == Err;
    assert Meaning(y, cr.reader.Leaves(ctx)) == cr.reader.Leaves(ctx)(Y_TEST);
  }

  lemma DifferentTests()
    ensures X_TEST != Y_TEST
  {
    assert X_TEST[8] == 'x' && Y_TEST[8] == 'y';
  }

  lemma TestIsLeaf(front: string)
    requires front == "context.x == " || front == "context.y == "
    ensures var text := front + (QUOTE + ("v" + QUOTE));
            LeafText(text) && text[|text| - 1] == '"' && text[0] == 'c' && 'a' !in text
  {
    hide LeafText;
    QuotedIsLeaf(front, "v");
  }

  lemma XyIsCanonical(r: TreeRule, cr: CedarReader)
    requires r.unless.None? && r.when == Some(SpacedEither(Atom(X_TEST), Atom(Y_TEST)))
    requires cr == Standard(XY_READER, cr.presence)
    ensures CanonicalTree(r, cr) && cr.Framed()
  {
    hide LeafText;
    TestIsLeaf("context.x == ");
    TestIsLeaf("context.y == ");
    var x, y := Spaced("", Atom(X_TEST), " "), Spaced(" ", Atom(Y_TEST), "");
    PrintSpaced(X_TEST);
    PrintSpaced(Y_TEST);
    BlankSpace();
    assert Printable(x) && Printable(y) by { assert Printable(Atom(X_TEST)) && Printable(Atom(Y_TEST)); }
    var text := Print(r.when.value);
    assert text == (X_TEST + " ") + (OrOp.Text() + (" " + Y_TEST));
    assert text[0] == 'c' && text[|text| - 1] == '"';
    QuoteIsNoSpace();
    NoApprovalWithoutA(text);
    assert XY_READER.Literal() by { TestsNameTheirAttribute(); }
    StandardReads(XY_READER, cr.presence);
  }

  lemma PrintSpaced(text: string)
    ensures Print(Spaced("", Atom(text), " ")) == text + " " && Print(Spaced(" ", Atom(text), "")) == " " + text
  {
    assert Print(Atom(text)) == text;
    assert "" + text + " " == text + " " && " " + text + "" == " " + text;
  }

  lemma BlankSpace()
    ensures Blank("") && Blank(" ")
  {
  }

  lemma NoApprovalWithoutA(text: string)
    requires 'a' !in text
    ensures !Occurs(APPROVAL, text)
  {
    if Occurs(APPROVAL, text) {
      FirstOccurs(APPROVAL, text);
    }
  }

  lemma FirstOccurs(needle: string, s: string)
    requires needle != "" && Occurs(needle, s)
    ensures needle[0] in s
  {
    var i :| 0 <= i <= |s| && needle <= s[i..];
    assert s[i..][0] == needle[0] == s[i];
  }

  lemma TestsNameTheirAttribute()
    ensures Occurs("x", X_TEST) && Occurs("y", Y_TEST)
  {
    assert X_TEST[8..] == "x" + X_TEST[9..] && Y_TEST[8..] == "y" + Y_TEST[9..];
  }
}
