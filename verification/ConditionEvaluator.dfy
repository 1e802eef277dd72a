/**
  The recursive condition evaluator: outer parentheses off, split at "||", else at "&&", else a leaf.
  A leaf is judged by a function of its text; everything around the leaves is modelled in full.
 */
module ConditionEvaluator {
  import opened Text
  import opened ConditionScanner

  type Leaves = string -> bool

  /** What _evaluate_condition_expression answers; it terminates because every split shortens. */
  function Evaluate(e: string, leaf: Leaves): bool
    decreases |e|
  {
    var x := StripOuter(e);
    if x == "" then true
    else
      var ors := Split(x, OrOp);
      if |ors| > 1 then
        exists i | 0 <= i < |ors| :: (SplitShortens(x, OrOp, i); Evaluate(ors[i], leaf))
      else
        var ands := Split(x, AndOp);
        if |ands| > 1 then
          forall i | 0 <= i < |ands| :: (SplitShortens(x, AndOp, i); Evaluate(ands[i], leaf))
        else
          leaf(x)
  }

  ghost predicate SomeHolds(ps: seq<string>, leaf: Leaves) {
    exists i | 0 <= i < |ps| :: Evaluate(ps[i], leaf)
  }

  ghost predicate AllHold(ps: seq<string>, leaf: Leaves) {
    forall i | 0 <= i < |ps| :: Evaluate(ps[i], leaf)
  }

  lemma EvaluateStripped(e: string, f: string, leaf: Leaves)
    requires StripOuter(e) == StripOuter(f)
    ensures Evaluate(e, leaf) == Evaluate(f, leaf)
  {
  }

  lemma EvaluateTrimmed(e: string, leaf: Leaves)
    ensures Evaluate(Trim(e), leaf) == Evaluate(e, leaf)
  {
    var _, _ := TrimCuts(e);
    TrimIs(Trim(e));
    EvaluateStripped(Trim(e), e, leaf);
  }

  lemma TrimmedHold(ps: seq<string>, leaf: Leaves)
    ensures forall i | 0 <= i < |ps| :: Evaluate(TrimAll(ps)[i], leaf) == Evaluate(ps[i], leaf)
  {
    forall i | 0 <= i < |ps| ensures Evaluate(TrimAll(ps)[i], leaf) == Evaluate(ps[i], leaf) {
      TrimAllAt(ps, i);
      EvaluateTrimmed(ps[i], leaf);
    }
  }

  /** Any condition holds when some part between its top-level "||" holds. */
  lemma EvaluateOr(e: string, leaf: Leaves)
    ensures Evaluate(e, leaf) == SomeHolds(Pieces(e, OrOp, START), leaf)
  {
    var ps := Pieces(e, OrOp, START);
    if |ps| == 1 {
      UncutPieces(e, OrOp, START);
      assert SomeHolds([e], leaf) == Evaluate([e][0], leaf);
    } else {
      CutIsNotStripped(e, OrOp);
      var ors := Split(e, OrOp);
      TrimmedHold(ps, leaf);
      assert Trim(e) != "" by { assert Split("", OrOp) == [Trim("")]; }
      assert Evaluate(e, leaf) == exists i | 0 <= i < |ors| :: Evaluate(ors[i], leaf);
    }
  }

  /** A condition without top-level "||" holds when every part between its top-level "&&" holds. */
  lemma EvaluateAnd(e: string, leaf: Leaves)
    requires |Pieces(e, OrOp, START)| == 1
    ensures Evaluate(e, leaf) == AllHold(Pieces(e, AndOp, START), leaf)
  {
    var ps := Pieces(e, AndOp, START);
    if |ps| == 1 {
      UncutPieces(e, AndOp, START);
      assert AllHold([e], leaf) == Evaluate([e][0], leaf);
    } else {
      CutIsNotStripped(e, AndOp);
      TrimKeepsUncut(e, OrOp);
      var ands := Split(e, AndOp);
      TrimmedHold(ps, leaf);
      assert Trim(e) != "" by { assert Split("", AndOp) == [Trim("")]; }
      assert Evaluate(e, leaf) == forall i | 0 <= i < |ands| :: Evaluate(ands[i], leaf);
    }
  }

  // ---- Algebra of conditions ----

  /** The cuts of a, then the operator's own cut, then the cuts of b. */
  lemma {:induction false} GlueConcat(ps: seq<string>, qs: seq<string>)
    requires |ps| > 0 && |qs| > 0
    ensures Glue(ps, [""] + qs) == ps + qs
  {
    assert ([""] + qs)[1..] == qs;
    if |ps| == 1 {
      assert ps[0] + "" == ps[0];
      assert ps == [ps[0]];
    } else {
      GlueConcat(ps[1..], qs);
      assert [ps[0]] + (ps[1..] + qs) == ps + qs;
    }
  }

  lemma PiecesAroundOperator(a: string, b: string, op: Operator)
    requires Run(START, a) == START && (a == "" || a[|a| - 1] != op.Mark())
    ensures Pieces(a + (op.Text() + b), op, START) == Pieces(a, op, START) + Pieces(b, op, START)
  {
    var tail := op.Text() + b;
    PiecesAppend(a, tail, op, START);
    assert tail[2..] == b;
    assert Pieces(tail, op, START) == [""] + Pieces(b, op, START);
    GlueConcat(Pieces(a, op, START), Pieces(b, op, START));
  }

  lemma SomeHoldsConcat(ps: seq<string>, qs: seq<string>, leaf: Leaves)
    ensures SomeHolds(ps + qs, leaf) == (SomeHolds(ps, leaf) || SomeHolds(qs, leaf))
  {
    hide Evaluate;
    if SomeHolds(ps, leaf) {
      var i :| 0 <= i < |ps| && Evaluate(ps[i], leaf);
      assert (ps + qs)[i] == ps[i];
    }
    if SomeHolds(qs, leaf) {
      var i :| 0 <= i < |qs| && Evaluate(qs[i], leaf);
      assert (ps + qs)[|ps| + i] == qs[i];
    }
  }

  lemma AllHoldConcat(ps: seq<string>, qs: seq<string>, leaf: Leaves)
    ensures AllHold(ps + qs, leaf) == (AllHold(ps, leaf) && AllHold(qs, leaf))
  {
    hide Evaluate;
    if AllHold(ps + qs, leaf) {
      forall i | 0 <= i < |ps| ensures Evaluate(ps[i], leaf) {
        assert (ps + qs)[i] == ps[i];
      }
      forall i | 0 <= i < |qs| ensures Evaluate(qs[i], leaf) {
        assert (ps + qs)[|ps| + i] == qs[i];
      }
    }
  }

  /** Two conditions with an operator between them; blanks, if any, belong to a and b. */
  function Joined(a: string, op: Operator, b: string): string {
    a + (op.Text() + b)
  }

  /** The last character of a would run together with an operator that follows it. */
  predicate RunsInto(a: string, op: Operator) {
    a != "" && a[|a| - 1] == op.Mark()
  }

  lemma EvaluateDisjunction(a: string, b: string, leaf: Leaves)
    requires Balanced(a) && !RunsInto(a, OrOp)
    ensures Evaluate(Joined(a, OrOp, b), leaf) == (Evaluate(a, leaf) || Evaluate(b, leaf))
  {
    hide Evaluate, SomeHolds;
    PiecesAroundOperator(a, b, OrOp);
    EvaluateOr(Joined(a, OrOp, b), leaf);
    SomeHoldsConcat(Pieces(a, OrOp, START), Pieces(b, OrOp, START), leaf);
    EvaluateOr(a, leaf);
    EvaluateOr(b, leaf);
  }

  /** Never cut at op by a split. */
  ghost predicate Uncut(a: string, op: Operator) {
    Pieces(a, op, START) == [a]
  }

  lemma OperatorIsBalanced(op: Operator)
    ensures Balanced(op.Text())
  {
    var e, c := op.Text(), op.Mark();
    assert e[1..] == [c] && [c][1..] == "";
    assert Step(START, c) == START;
    assert Run(START, "") == START && StaysAbove("", START, 0);
    assert Run(START, [c]) == START && StaysAbove([c], START, 0);
  }

  lemma JoinedIsBalanced(a: string, op: Operator, b: string)
    requires Balanced(a) && Balanced(b)
    ensures Balanced(Joined(a, op, b))
  {
    hide Balanced;
    OperatorIsBalanced(op);
    BalancedConcat(op.Text(), b);
    BalancedConcat(a, op.Text() + b);
  }

  lemma AmpersandsAreUncut()
    ensures Uncut("&&", OrOp)
  {
    var e := "&&";
    assert e[1..] == "&" && "&"[1..] == "";
    assert Step(START, '&') == START;
    assert Pieces("&", OrOp, START) == ["&"] by {
      assert Pieces("", OrOp, START) == [""];
      assert ['&'] + "" == "&";
    }
    assert ['&'] + "&" == e;
  }

  lemma ConjunctionIsUncut(a: string, b: string)
    requires Balanced(a) && Uncut(a, OrOp) && Uncut(b, OrOp)
    ensures Uncut(Joined(a, AndOp, b), OrOp)
  {
    hide StaysAbove;
    AmpersandsAreUncut();
    OperatorIsBalanced(AndOp);
    PiecesAppend("&&", b, OrOp, START);
    UncutPieces("&&" + b, OrOp, START);
    PiecesAppend(a, "&&" + b, OrOp, START);
    UncutPieces(Joined(a, AndOp, b), OrOp, START);
  }

  lemma EvaluateConjunction(a: string, b: string, leaf: Leaves)
    requires Balanced(a) && !RunsInto(a, AndOp) && Uncut(a, OrOp) && Uncut(b, OrOp)
    ensures Evaluate(Joined(a, AndOp, b), leaf) == (Evaluate(a, leaf) && Evaluate(b, leaf))
  {
    hide Evaluate, AllHold, StaysAbove;
    ConjunctionIsUncut(a, b);
    PiecesAroundOperator(a, b, AndOp);
    EvaluateAnd(Joined(a, AndOp, b), leaf);
    AllHoldConcat(Pieces(a, AndOp, START), Pieces(b, AndOp, START), leaf);
    EvaluateAnd(a, leaf);
    EvaluateAnd(b, leaf);
  }

  // ---- The spaced conjunction ----

  function Conjunction(a: string, b: string): string {
    a + (" && " + b)
  }

  lemma ConjunctionIsJoined(a: string, b: string)
    ensures Conjunction(a, b) == Joined(a + " ", AndOp, " " + b)
  {
  }

  lemma SpaceIsBalanced()
    ensures Balanced(" ")
  {
    assert " "[1..] == "";
    assert Step(START, ' ') == START;
    assert Run(START, "") == START && StaysAbove("", START, 0);
  }

  lemma UncutSpaced(a: string, op: Operator)
    requires Balanced(a) && Uncut(a, op)
    ensures Balanced(a + " ") && Uncut(a + " ", op) && Uncut(" " + a, op)
  {
    SpaceIsBalanced();
    BalancedConcat(a, " ");
    PiecesAppend(a, " ", op, START);
    BlankIsUncut(" ", op, START);
    PiecesAppend(" ", a, op, START);
    BlanksKeepState(START, " ");
    UncutPieces(a + " ", op, START);
    UncutPieces(" " + a, op, START);
  }

  lemma EvaluateSpaced(a: string, leaf: Leaves)
    ensures Evaluate(a + " ", leaf) == Evaluate(a, leaf) && Evaluate(" " + a, leaf) == Evaluate(a, leaf)
  {
    TrimAbsorbsBlanks("", a, " ");
    TrimAbsorbsBlanks(" ", a, "");
    assert "" + a + " " == a + " " && " " + a + "" == " " + a;
    EvaluateTrimmed(a, leaf);
    EvaluateTrimmed(a + " ", leaf);
    EvaluateTrimmed(" " + a, leaf);
  }

  lemma EvaluateSpacedConjunction(a: string, b: string, leaf: Leaves)
    requires Balanced(a) && Balanced(b) && Uncut(a, OrOp) && Uncut(b, OrOp)
    ensures Evaluate(Conjunction(a, b), leaf) == (Evaluate(a, leaf) && Evaluate(b, leaf))
  {
    hide Evaluate, Balanced;
    ConjunctionIsJoined(a, b);
    UncutSpaced(a, OrOp);
    UncutSpaced(b, OrOp);
    EvaluateConjunction(a + " ", " " + b, leaf);
    EvaluateSpaced(a, leaf);
    EvaluateSpaced(b, leaf);
  }

  /**
    The text "(w) && (u)" means w and u, for any balanced w and u. This is what makes the companion
    permit of an approval-gated forbid mean "when and unless".
   */
  lemma EvaluateParenthesizedConjunction(w: string, u: string, leaf: Leaves)
    requires Balanced(w) && Balanced(u)
    ensures Evaluate(Conjunction(Parenthesized(w), Parenthesized(u)), leaf)
         == (Evaluate(w, leaf) && Evaluate(u, leaf))
  {
    ParenthesesWrap(w);
    ParenthesesWrap(u);
    EvaluateSpacedConjunction(Parenthesized(w), Parenthesized(u), leaf);
    EvaluateStripped(Parenthesized(w), w, leaf);
    EvaluateStripped(Parenthesized(u), u, leaf);
  }

  // ---- Printed trees are read back correctly ----

  /** A condition as its author means it, with redundant parentheses and spacing spelled out. */
  datatype Cond =
    | Atom(text: string)
    | Both(l: Cond, r: Cond)
    | Either(l: Cond, r: Cond)
    | Group(inner: Cond)
    | Spaced(pre: string, inner: Cond, post: string)

  function Print(t: Cond): string {
    match t
    case Atom(text) => text
    case Both(l, r) => Joined(Print(l), AndOp, Print(r))
    case Either(l, r) => Joined(Print(l), OrOp, Print(r))
    case Group(inner) => Parenthesized(Print(inner))
    case Spaced(pre, inner, post) => pre + Print(inner) + post
  }

  function Meaning(t: Cond, leaf: Leaves): bool {
    match t
    case Atom(text) => leaf(text)
    case Both(l, r) => Meaning(l, leaf) && Meaning(r, leaf)
    case Either(l, r) => Meaning(l, leaf) || Meaning(r, leaf)
    case Group(inner) => Meaning(inner, leaf)
    case Spaced(_, inner, _) => Meaning(inner, leaf)
  }

  /** Binds more loosely than "&&", so it needs parentheses inside a Both. */
  predicate Loose(t: Cond) {
    t.Either? || (t.Spaced? && Loose(t.inner))
  }

  /** Leaf text: trimmed, not opened by a parenthesis, quotes and parentheses closed, no operator to cut at. */
  ghost predicate LeafText(text: string) {
    text != "" && Tight(text) && text[0] != '(' && Balanced(text) && Uncut(text, OrOp) && Uncut(text, AndOp)
  }

  /** The trees whose printed form has the intended precedence, with any blanks, or none, around operators. */
  ghost predicate Printable(t: Cond) {
    match t
    case Atom(text) => LeafText(text)
    case Both(l, r) => Printable(l) && Printable(r) && !Loose(l) && !Loose(r) && !RunsInto(Print(l), AndOp)
    case Either(l, r) => Printable(l) && Printable(r) && !RunsInto(Print(l), OrOp)
    case Group(inner) => Printable(inner)
    case Spaced(pre, inner, post) => Printable(inner) && Blank(pre) && Blank(post)
  }

  lemma {:induction false} BlankIsBalanced(pad: string)
    requires Blank(pad)
    ensures Balanced(pad)
  {
    BlanksKeepState(START, pad);
    if pad != "" {
      assert IsSpace(pad[0]) && Step(START, pad[0]) == START;
      BlankIsBalanced(pad[1..]);
    }
  }

  lemma SpacedKeepsShape(pre: string, a: string, post: string)
    requires Blank(pre) && Blank(post) && Balanced(a)
    ensures Balanced(pre + a + post)
    ensures Uncut(a, OrOp) ==> Uncut(pre + a + post, OrOp)
  {
    BlankIsBalanced(pre);
    BlankIsBalanced(post);
    BalancedConcat(pre, a);
    BalancedConcat(pre + a, post);
    if Uncut(a, OrOp) {
      SplitAbsorbsBlanks(pre, a, post, OrOp);
      UncutPieces(pre + a + post, OrOp, START);
    }
  }

  lemma {:induction false} PrintedShape(t: Cond)
    requires Printable(t)
    ensures Balanced(Print(t)) && (!Loose(t) ==> Uncut(Print(t), OrOp))
  {
    match t
    case Atom(_) =>
    case Both(l, r) =>
      PrintedShape(l);
      PrintedShape(r);
      JoinedIsBalanced(Print(l), AndOp, Print(r));
      ConjunctionIsUncut(Print(l), Print(r));
    case Either(l, r) =>
      PrintedShape(l);
      PrintedShape(r);
      JoinedIsBalanced(Print(l), OrOp, Print(r));
    case Group(inner) =>
      PrintedShape(inner);
      ParenthesesWrap(Print(inner));
    case Spaced(pre, inner, post) =>
      PrintedShape(inner);
      SpacedKeepsShape(pre, Print(inner), post);
  }

  lemma EvaluateLeaf(text: string, leaf: Leaves)
    requires LeafText(text)
    ensures Evaluate(text, leaf) == leaf(text)
  {
    TrimIs(text);
  }

  /** Whatever tree was printed, with whatever extra parentheses and blanks, the evaluator returns its meaning. */
  lemma {:induction false} PrintedMeaning(t: Cond, leaf: Leaves)
    requires Printable(t)
    ensures Evaluate(Print(t), leaf) == Meaning(t, leaf)
  {
    hide Evaluate;
    match t
    case Atom(text) =>
      EvaluateLeaf(text, leaf);
    case Both(l, r) =>
      PrintedMeaning(l, leaf);
      PrintedMeaning(r, leaf);
      PrintedShape(l);
      PrintedShape(r);
      EvaluateConjunction(Print(l), Print(r), leaf);
    case Either(l, r) =>
      PrintedMeaning(l, leaf);
      PrintedMeaning(r, leaf);
      PrintedShape(l);
      EvaluateDisjunction(Print(l), Print(r), leaf);
    case Group(inner) =>
      PrintedMeaning(inner, leaf);
      PrintedShape(inner);
      ParenthesesWrap(Print(inner));
      EvaluateStripped(Print(t), Print(inner), leaf);
    case Spaced(pre, inner, post) =>
      PrintedMeaning(inner, leaf);
      TrimAbsorbsBlanks(pre, Print(inner), post);
      EvaluateTrimmed(Print(inner), leaf);
      EvaluateTrimmed(Print(t), leaf);
  }

  // ---- Leaves ----

  /** Neither quotes, escapes, parentheses nor operator characters. */
  predicate Unmarked(s: string) {
    forall i | 0 <= i < |s| :: s[i] != '\\' && s[i] != '"' && s[i] != '(' && s[i] != ')' && s[i] != '|' && s[i] != '&'
  }

  /** May stand between quotes: a quote only after a backslash, and after a backslash any character. */
  predicate Quotable(s: string) {
    s == "" || (if s[0] == '\\' then |s| >= 2 && Quotable(s[2..]) else s[0] != '"' && Quotable(s[1..]))
  }

  lemma {:induction false} UnmarkedIsInert(a: string)
    requires Unmarked(a)
    ensures Balanced(a) && forall op :: Uncut(a, op)
  {
    if a != "" {
      assert Step(START, a[0]) == START;
      UnmarkedIsInert(a[1..]);
    }
    forall op ensures Uncut(a, op) {
      assert a != "" ==> Uncut(a[1..], op) && [a[0]] + a[1..] == a;
    }
  }

  const QUOTE := "\""
  const QUOTED := Scan(0, true, false)

  lemma {:induction false} QuotableIsInert(body: string)
    requires Quotable(body)
    ensures Run(QUOTED, body) == QUOTED && StaysAbove(body, QUOTED, 0)
    ensures forall op :: |Pieces(body, op, QUOTED)| == 1
  {
    if body == "" {
    } else if body[0] == '\\' {
      assert body[1..][1..] == body[2..];
      var t := QUOTED.(escaped := true);
      assert Step(QUOTED, body[0]) == t && Step(t, body[1]) == QUOTED;
      QuotableIsInert(body[2..]);
      forall op ensures |Pieces(body, op, QUOTED)| == 1 {
        assert |Pieces(body[1..], op, t)| == |Pieces(body[2..], op, QUOTED)|;
      }
    } else {
      assert Step(QUOTED, body[0]) == QUOTED;
      QuotableIsInert(body[1..]);
    }
  }

  lemma QuoteTurns(s: Scan, t: Scan)
    requires s.depth == 0 && !s.escaped && t == s.(inString := !s.inString)
    ensures Run(s, QUOTE) == t && StaysAbove(QUOTE, s, 0) && forall op :: |Pieces(QUOTE, op, s)| == 1
  {
    assert QUOTE[1..] == "";
    assert Run(t, "") == t && StaysAbove("", t, 0);
  }

  /** A comparison with a quoted word is leaf text, whatever parentheses or operators the word contains. */
  lemma QuotedIsLeaf(front: string, body: string)
    requires Unmarked(front) && Quotable(body) && front != "" && !IsSpace(front[0])
    ensures LeafText(front + (QUOTE + (body + QUOTE)))
  {
    hide IsSpace;
    var word := QUOTE + (body + QUOTE);
    UnmarkedIsInert(front);
    QuotedIsInert(body);
    BalancedConcat(front, word);
    forall op ensures Uncut(front + word, op) {
      assert word[0] == '"' && Uncut(front, op);
      PiecesAppend(front, word, op, START);
      UncutPieces(front + word, op, START);
    }
    QuoteIsNoSpace();
  }

  lemma QuoteIsNoSpace()
    ensures !IsSpace('"')
  {
  }

  lemma QuotedIsInert(body: string)
    requires Quotable(body)
    ensures Balanced(QUOTE + (body + QUOTE)) && forall op :: |Pieces(QUOTE + (body + QUOTE), op, START)| == 1
  {
    QuotableIsInert(body);
    QuoteTurns(START, QUOTED);
    QuoteTurns(QUOTED, START);
    RunConcat(QUOTED, body, QUOTE);
    StaysAboveConcat(body, QUOTE, QUOTED, 0);
    RunConcat(START, QUOTE, body + QUOTE);
    StaysAboveConcat(QUOTE, body + QUOTE, START, 0);
    forall op ensures |Pieces(QUOTE + (body + QUOTE), op, START)| == 1 {
      PiecesAppend(body, QUOTE, op, QUOTED);
      PiecesAppend(QUOTE, body + QUOTE, op, START);
    }
  }

  // ---- What evaluation depends on ----

  lemma {:induction false} StripOuterIsPart(e: string) returns (pre: string, post: string)
    ensures e == pre + StripOuter(e) + post
    decreases |e|
  {
    hide Trim, Blank, Tight, OuterWrapped;
    var x := Trim(e);
    pre, post := TrimCuts(e);
    if Wrapped(x) {
      var y := x[1..|x| - 1];
      var a, b := StripOuterIsPart(y);
      assert y == a + StripOuter(e) + b;
      assert x == [x[0]] + y + [x[|x| - 1]];
      pre, post := pre + [x[0]] + a, b + [x[|x| - 1]] + post;
    }
  }

  lemma {:induction false} PieceIsPart(e: string, op: Operator, s: Scan, k: nat) returns (pre: string, post: string)
    requires k < |Pieces(e, op, s)|
    ensures e == pre + Pieces(e, op, s)[k] + post
    decreases |e|
  {
    if e == "" {
      pre, post := "", "";
    } else if CutsHere(e, op, s) {
      if k == 0 {
        pre, post := "", e;
      } else {
        pre, post := PieceIsPart(e[2..], op, s, k - 1);
        pre := e[..2] + pre;
      }
    } else {
      pre, post := PieceIsPart(e[1..], op, Step(s, e[0]), k);
      if k > 0 {
        pre := [e[0]] + pre;
      } else {
        PiecesStartAtFront(e, op, s);
        var p := Pieces(e, op, s)[0];
        pre, post := "", e[|p|..];
      }
    }
  }

  lemma {:induction false} PiecesStartAtFront(e: string, op: Operator, s: Scan)
    ensures Pieces(e, op, s)[0] <= e
    decreases |e|
  {
    if e != "" && !CutsHere(e, op, s) {
      PiecesStartAtFront(e[1..], op, Step(s, e[0]));
    }
  }

  /** A leaf that occurs in a part of a condition occurs in the condition. */
  lemma SplitPartOccurs(needle: string, x: string, op: Operator, k: nat)
    requires k < |Split(x, op)| && Occurs(needle, Split(x, op)[k])
    ensures Occurs(needle, x)
  {
    var p := Pieces(x, op, START)[k];
    TrimAllAt(Pieces(x, op, START), k);
    var a, b := TrimCuts(p);
    OccursInPart(needle, a, Trim(p), b);
    var c, d := PieceIsPart(x, op, START, k);
    OccursInPart(needle, c, p, d);
  }

  /** Frame: a condition depends only on leaves without needle when needle does not occur in it. */
  lemma {:induction false} EvaluateFrame(e: string, f: Leaves, g: Leaves, needle: string)
    requires !Occurs(needle, e)
    requires forall t | !Occurs(needle, t) :: f(t) == g(t)
    ensures Evaluate(e, f) == Evaluate(e, g)
    decreases |e|
  {
    var x := StripOuter(e);
    var pre, post := StripOuterIsPart(e);
    if Occurs(needle, x) {
      OccursInPart(needle, pre, x, post);
    }
    forall op: Operator, k: nat | k < |Split(x, op)| && |Split(x, op)| > 1
      ensures Evaluate(Split(x, op)[k], f) == Evaluate(Split(x, op)[k], g)
    {
      SplitShortens(x, op, k);
      if Occurs(needle, Split(x, op)[k]) {
        SplitPartOccurs(needle, x, op, k);
      }
      EvaluateFrame(Split(x, op)[k], f, g, needle);
    }
  }

  /** Making more leaves true never makes a condition false: conditions have no negation. */
  lemma {:induction false} EvaluateMonotone(e: string, f: Leaves, g: Leaves)
    requires forall t :: f(t) ==> g(t)
    ensures Evaluate(e, f) ==> Evaluate(e, g)
    decreases |e|
  {
    var x := StripOuter(e);
    forall op: Operator, k: nat | k < |Split(x, op)| && |Split(x, op)| > 1
      ensures Evaluate(Split(x, op)[k], f) ==> Evaluate(Split(x, op)[k], g)
    {
      SplitShortens(x, op, k);
      EvaluateMonotone(Split(x, op)[k], f, g);
    }
  }
}
