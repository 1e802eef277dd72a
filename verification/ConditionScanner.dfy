/**
  The character scanner behind condition splitting: it tracks parenthesis depth, string quoting and
  escapes, cuts a condition at its top-level operators, and recognises a condition that is wrapped in
  one outer pair of parentheses.
 */
module ConditionScanner {
  import opened Text

  datatype Scan = Scan(depth: int, inString: bool, escaped: bool)

  const START := Scan(0, false, false)

  /** The operators that conditions are split at: "||" and "&&". */
  datatype Operator = OrOp | AndOp {
    function Mark(): char {
      if OrOp? then '|' else '&'
    }

    function Text(): string {
      [Mark(), Mark()]
    }
  }

  /** What reading one character (that does not start a cut) does to the scanner. */
  function Step(s: Scan, c: char): Scan {
    if c == '\\' && s.inString && !s.escaped then s.(escaped := true)
    else if c == '"' && !s.escaped then s.(inString := !s.inString)
    else if !s.inString && c == '(' then Scan(s.depth + 1, false, false)
    else if !s.inString && c == ')' then Scan(s.depth - 1, false, false)
    else s.(escaped := false)
  }

  function Run(s: Scan, e: string): Scan
    decreases |e|
  {
    if e == "" then s else Run(Step(s, e[0]), e[1..])
  }

  lemma {:induction false} RunConcat(s: Scan, a: string, b: string)
    ensures Run(s, a + b) == Run(Run(s, a), b)
    decreases |a|
  {
    if a == "" {
      assert a + b == b;
    } else {
      assert (a + b)[1..] == a[1..] + b;
      RunConcat(Step(s, a[0]), a[1..], b);
    }
  }

  /** Outside strings at depth 0: the only states in which an operator is cut. */
  predicate TopLevel(s: Scan) {
    s.depth == 0 && !s.inString
  }

  predicate CutsHere(e: string, op: Operator, s: Scan) {
    TopLevel(s) && |e| >= 2 && e[0] == e[1] == op.Mark()
  }

  /** The untrimmed parts of e, scanning on from state s. */
  function Pieces(e: string, op: Operator, s: Scan): (ps: seq<string>)
    ensures |ps| > 0
  {
    if e == "" then [""]
    else if CutsHere(e, op, s) then [""] + Pieces(e[2..], op, s)
    else
      var ps := Pieces(e[1..], op, Step(s, e[0]));
      [[e[0]] + ps[0]] + ps[1..]
  }

  function TrimAll(ps: seq<string>): (ts: seq<string>)
    ensures |ts| == |ps|
  {
    if ps == [] then [] else [Trim(ps[0])] + TrimAll(ps[1..])
  }

  lemma {:induction false} TrimAllAt(ps: seq<string>, k: nat)
    requires k < |ps|
    ensures TrimAll(ps)[k] == Trim(ps[k])
  {
    if k > 0 {
      TrimAllAt(ps[1..], k - 1);
    }
  }

  /** What _split_top_level returns. */
  function Split(e: string, op: Operator): (ts: seq<string>)
    ensures |ts| > 0
  {
    TrimAll(Pieces(e, op, START))
  }

  /** What the loop of _split_top_level has found when it stands at index in state s. */
  ghost predicate SplitSoFar(e: string, op: Operator, parts: seq<string>, start: nat, index: nat, s: Scan) {
    start <= index <= |e| && (s.escaped ==> s.inString) && (parts == [] ==> start == 0) &&
    var ps := Pieces(e[index..], op, s);
    Split(e, op) == parts + [Trim(e[start..index] + ps[0])] + TrimAll(ps[1..])
  }

  lemma SplitStarts(e: string, op: Operator)
    ensures SplitSoFar(e, op, [], 0, 0, START)
  {
    assert e[0..] == e;
    var ps := Pieces(e, op, START);
    assert e[0..0] + ps[0] == ps[0];
  }

  lemma SplitCuts(e: string, op: Operator, parts: seq<string>, start: nat, index: nat, s: Scan)
    requires SplitSoFar(e, op, parts, start, index, s) && CutsHere(e[index..], op, s)
    ensures index + 2 <= |e|
    ensures SplitSoFar(e, op, parts + [Trim(e[start..index])], index + 2, index + 2, s)
  {
    assert e[index..][2..] == e[index + 2..];
    var qs := Pieces(e[index + 2..], op, s);
    assert e[start..index] + "" == e[start..index];
    assert e[index + 2..index + 2] + qs[0] == qs[0];
  }

  lemma SplitReads(e: string, op: Operator, parts: seq<string>, start: nat, index: nat, s: Scan)
    requires SplitSoFar(e, op, parts, start, index, s)
    requires index < |e| && !CutsHere(e[index..], op, s)
    ensures SplitSoFar(e, op, parts, start, index + 1, Step(s, e[index]))
  {
    assert e[index..][1..] == e[index + 1..];
    var qs := Pieces(e[index + 1..], op, Step(s, e[index]));
    assert e[start..index] + ([e[index]] + qs[0]) == e[start..index + 1] + qs[0];
  }

  lemma SplitEnds(e: string, op: Operator, parts: seq<string>, start: nat, s: Scan)
    requires SplitSoFar(e, op, parts, start, |e|, s)
    ensures Split(e, op) == parts + [Trim(e[start..])] && (parts == [] ==> Split(e, op) == [Trim(e)])
  {
    assert e[start..|e|] + "" == e[start..];
    assert TrimAll([]) == [];
    assert start == 0 ==> e[start..] == e;
  }

  method SplitTopLevel(expression: string, operator: Operator) returns (parts: seq<string>)
    ensures parts == Split(expression, operator)
  {
    parts := [];
    var depth, inString, escaped, start, index := 0, false, false, 0, 0;
    SplitStarts(expression, operator);
    hide SplitSoFar, Split, Pieces;
    while index < |expression|
      invariant 0 <= start <= index <= |expression|
      invariant SplitSoFar(expression, operator, parts, start, index, Scan(depth, inString, escaped))
    {
      var c := expression[index];
      ghost var s := Scan(depth, inString, escaped);
      if c == '\\' && inString && !escaped {
        SplitReads(expression, operator, parts, start, index, s);
        escaped := true;
        index := index + 1;
        continue;
      }
      if c == '"' && !escaped {
        inString := !inString;
      } else if !inString {
        if c == '(' {
          depth := depth + 1;
        } else if c == ')' {
          depth := depth - 1;
        } else if depth == 0 && operator.Text() <= expression[index..] {
          SplitCuts(expression, operator, parts, start, index, s);
          parts := parts + [Trim(expression[start..index])];
          index := index + |operator.Text()|;
          start := index;
          continue;
        }
      }
      SplitReads(expression, operator, parts, start, index, s);
      escaped := false;
      index := index + 1;
    }
    SplitEnds(expression, operator, parts, start, Scan(depth, inString, escaped));
    if parts == [] {
      return [Trim(expression)];
    }
    parts := parts + [Trim(expression[start..])];
  }

  // ---- What splitting means ----

  /** Nothing is lost: the untrimmed parts rejoined with the operator are the input. */
  lemma {:induction false} PiecesJoin(e: string, op: Operator, s: Scan)
    ensures Join(Pieces(e, op, s), op.Text()) == e
  {
    if e == "" {
    } else if CutsHere(e, op, s) {
      PiecesJoin(e[2..], op, s);
      assert Pieces(e, op, s)[1..] == Pieces(e[2..], op, s);
      assert e == "" + (op.Text() + e[2..]);
    } else {
      PiecesJoin(e[1..], op, Step(s, e[0]));
      JoinPrepend([e[0]], Pieces(e[1..], op, Step(s, e[0])), op.Text());
      assert e == [e[0]] + e[1..];
    }
  }

  /** Every cut is made at depth 0 outside quotes: each part but the last is scanned back to top level. */
  lemma {:induction false} PiecesCutAtTopLevel(e: string, op: Operator, s: Scan, k: nat)
    requires (s.escaped ==> s.inString)
    requires k < |Pieces(e, op, s)| - 1
    ensures TopLevel(Run(if k == 0 then s else START, Pieces(e, op, s)[k]))
  {
    if CutsHere(e, op, s) {
      if k > 0 {
        PiecesCutAtTopLevel(e[2..], op, s, k - 1);
      }
    } else {
      var t := Step(s, e[0]);
      PiecesCutAtTopLevel(e[1..], op, t, k);
      if k == 0 {
        assert ([e[0]] + Pieces(e[1..], op, t)[0])[1..] == Pieces(e[1..], op, t)[0];
      }
    }
  }

  /** Dropping a suffix can only drop cuts. */
  lemma {:induction false} PrefixHasNoNewCut(a: string, b: string, op: Operator, s: Scan)
    requires |Pieces(a + b, op, s)| == 1
    ensures Pieces(a, op, s) == [a]
  {
    if a != "" {
      assert (a + b)[1..] == a[1..] + b;
      assert |a| >= 2 ==> (a + b)[1] == a[1];
      PrefixHasNoNewCut(a[1..], b, op, Step(s, a[0]));
      assert [a[0]] + a[1..] == a;
    }
  }

  /** Every part is maximal: scanned from the state in which it started, it holds no further cut. */
  lemma {:induction false} PiecesAreMaximal(e: string, op: Operator, s: Scan, k: nat)
    requires (s.escaped ==> s.inString)
    requires k < |Pieces(e, op, s)|
    ensures var p := Pieces(e, op, s)[k]; Pieces(p, op, if k == 0 then s else START) == [p]
  {
    if e == "" {
    } else if CutsHere(e, op, s) {
      if k > 0 {
        PiecesAreMaximal(e[2..], op, s, k - 1);
      }
    } else {
      var t := Step(s, e[0]);
      PiecesAreMaximal(e[1..], op, t, k);
      if k == 0 {
        var p := Pieces(e[1..], op, t)[0];
        assert ([e[0]] + p)[1..] == p;
      }
    }
  }

  lemma {:induction false} BlanksKeepState(s: Scan, pad: string)
    requires Blank(pad) && (s.escaped ==> s.inString) && !s.inString
    ensures Run(s, pad) == s
  {
    if pad != "" {
      BlanksKeepState(s, pad[1..]);
    }
  }

  lemma {:induction false} LeadingBlanksNeverCut(pad: string, e: string, op: Operator)
    requires Blank(pad)
    ensures |Pieces(pad + e, op, START)| == |Pieces(e, op, START)|
  {
    if pad == "" {
      assert pad + e == e;
    } else {
      assert IsSpace(pad[0]);
      assert (pad + e)[1..] == pad[1..] + e;
      LeadingBlanksNeverCut(pad[1..], e, op);
    }
  }

  /** Trimming an uncut text leaves it uncut. */
  lemma TrimKeepsUncut(p: string, op: Operator)
    requires |Pieces(p, op, START)| == 1
    ensures Pieces(Trim(p), op, START) == [Trim(p)]
  {
    var pre, post := TrimCuts(p);
    var t := Trim(p);
    PrefixHasNoNewCut(pre + t, post, op, START);
    LeadingBlanksNeverCut(pre, t, op);
    assert t + "" == t;
    PrefixHasNoNewCut(t, "", op, START);
  }

  /** Splitting a returned part again gives back that one part. */
  lemma SplitIsFinal(e: string, op: Operator, k: nat)
    requires k < |Split(e, op)|
    ensures Split(Split(e, op)[k], op) == [Split(e, op)[k]]
  {
    var p := Pieces(e, op, START)[k];
    PiecesAreMaximal(e, op, START, k);
    TrimKeepsUncut(p, op);
    TrimAllAt(Pieces(e, op, START), k);
    var _, _ := TrimCuts(p);
    TrimIs(Trim(p));
  }

  /** Each part of a split into several is strictly shorter than the whole. */
  lemma {:induction false} JoinIsLonger(ps: seq<string>, op: Operator, k: nat)
    requires k < |ps|
    ensures |ps[k]| + 2 * (|ps| - 1) <= |Join(ps, op.Text())|
  {
    if |ps| > 1 {
      JoinIsLonger(ps[1..], op, if k == 0 then 0 else k - 1);
    }
  }

  lemma SplitShortens(e: string, op: Operator, k: nat)
    requires k < |Split(e, op)| && |Split(e, op)| > 1
    ensures |Split(e, op)[k]| < |e|
  {
    PiecesJoin(e, op, START);
    TrimAllAt(Pieces(e, op, START), k);
    JoinIsLonger(Pieces(e, op, START), op, k);
  }

  // ---- How cuts compose ----

  /** Two lists of parts of adjacent texts, with the parts that meet run together. */
  function Glue(ps: seq<string>, qs: seq<string>): (r: seq<string>)
    requires |ps| > 0 && |qs| > 0
    ensures |r| == |ps| + |qs| - 1
  {
    if |ps| == 1 then [ps[0] + qs[0]] + qs[1..] else [ps[0]] + Glue(ps[1..], qs)
  }

  /** No operator can start at the end of a and finish in b. */
  predicate Apart(a: string, b: string, op: Operator) {
    a == "" || b == "" || a[|a| - 1] != op.Mark() || b[0] != op.Mark()
  }

  lemma GluePrepend(pre: string, ps: seq<string>, qs: seq<string>)
    requires |ps| > 0 && |qs| > 0
    ensures Glue([pre + ps[0]] + ps[1..], qs) == [pre + Glue(ps, qs)[0]] + Glue(ps, qs)[1..]
  {
    var grown := [pre + ps[0]] + ps[1..];
    assert grown[1..] == ps[1..];
    if |ps| == 1 {
      assert (pre + ps[0]) + qs[0] == pre + (ps[0] + qs[0]);
    }
  }

  lemma PiecesCut(e: string, op: Operator, s: Scan)
    requires CutsHere(e, op, s) && !s.escaped
    ensures Pieces(e, op, s) == [""] + Pieces(e[2..], op, s) && Run(s, e) == Run(s, e[2..])
  {
    assert e[1..][1..] == e[2..];
    assert Step(s, e[0]) == Step(s, e[1]) == s;
  }

  lemma PiecesRead(e: string, op: Operator, s: Scan)
    requires e != "" && !CutsHere(e, op, s)
    ensures var ps := Pieces(e[1..], op, Step(s, e[0]));
            Pieces(e, op, s) == [[e[0]] + ps[0]] + ps[1..] && Run(s, e) == Run(Step(s, e[0]), e[1..])
  {
  }

  lemma PiecesAppendCut(a: string, b: string, op: Operator, s: Scan)
    requires (s.escaped ==> s.inString) && CutsHere(a, op, s)
    requires Pieces(a[2..] + b, op, s) == Glue(Pieces(a[2..], op, s), Pieces(b, op, Run(s, a[2..])))
    ensures Pieces(a + b, op, s) == Glue(Pieces(a, op, s), Pieces(b, op, Run(s, a)))
  {
    hide Pieces, Run;
    PiecesCut(a, op, s);
    PiecesCut(a + b, op, s);
    assert (a + b)[2..] == a[2..] + b;
    assert ([""] + Pieces(a[2..], op, s))[1..] == Pieces(a[2..], op, s);
  }

  lemma PiecesAppendRead(a: string, b: string, op: Operator, s: Scan)
    requires Apart(a, b, op) && a != "" && !CutsHere(a, op, s)
    requires var t := Step(s, a[0]);
             Pieces(a[1..] + b, op, t) == Glue(Pieces(a[1..], op, t), Pieces(b, op, Run(t, a[1..])))
    ensures Pieces(a + b, op, s) == Glue(Pieces(a, op, s), Pieces(b, op, Run(s, a)))
  {
    hide Pieces, Run, Step, Glue;
    assert (a + b)[1..] == a[1..] + b && (a + b)[0] == a[0];
    PiecesRead(a, op, s);
    PiecesRead(a + b, op, s);
    GluePrepend([a[0]], Pieces(a[1..], op, Step(s, a[0])), Pieces(b, op, Run(s, a)));
  }

  /** Appending b leaves the cuts of a, then cuts b from the state in which a ends. */
  lemma {:induction false} PiecesAppend(a: string, b: string, op: Operator, s: Scan)
    requires Apart(a, b, op) && (s.escaped ==> s.inString)
    ensures Pieces(a + b, op, s) == Glue(Pieces(a, op, s), Pieces(b, op, Run(s, a)))
    decreases |a|
  {
    hide Glue;
    if a == "" {
      AppendToNothing(b, op, s);
    } else if CutsHere(a, op, s) {
      PiecesAppend(a[2..], b, op, s);
      PiecesAppendCut(a, b, op, s);
    } else {
      PiecesAppend(a[1..], b, op, Step(s, a[0]));
      PiecesAppendRead(a, b, op, s);
    }
  }

  lemma AppendToNothing(b: string, op: Operator, s: Scan)
    ensures Pieces("" + b, op, s) == Glue(Pieces("", op, s), Pieces(b, op, s))
  {
    assert "" + b == b;
    assert "" + Pieces(b, op, s)[0] == Pieces(b, op, s)[0];
  }

  lemma UncutPieces(e: string, op: Operator, s: Scan)
    requires |Pieces(e, op, s)| == 1
    ensures Pieces(e, op, s) == [e]
  {
    PiecesJoin(e, op, s);
  }

  lemma {:induction false} BlankIsUncut(pad: string, op: Operator, s: Scan)
    requires Blank(pad)
    ensures Pieces(pad, op, s) == [pad]
  {
    if pad != "" {
      assert IsSpace(pad[0]);
      BlankIsUncut(pad[1..], op, Step(s, pad[0]));
      assert [pad[0]] + pad[1..] == pad;
    }
  }

  lemma {:induction false} GlueBlankTrims(ps: seq<string>, pad: string)
    requires |ps| > 0 && Blank(pad)
    ensures TrimAll(Glue(ps, [pad])) == TrimAll(ps)
  {
    if |ps| == 1 {
      TrimAbsorbsBlanks("", ps[0], pad);
      assert "" + ps[0] + pad == ps[0] + pad;
      assert ps == [ps[0]];
    } else {
      GlueBlankTrims(ps[1..], pad);
    }
  }

  /** Blanks around a condition do not change its split. */
  lemma SplitAbsorbsBlanks(pre: string, e: string, post: string, op: Operator)
    requires Blank(pre) && Blank(post)
    ensures Split(pre + e + post, op) == Split(e, op)
  {
    var ps := Pieces(e, op, START);
    assert Apart(pre, e, op) && Apart(pre + e, post, op) by {
      assert pre != "" ==> IsSpace(pre[|pre| - 1]);
      assert post != "" ==> IsSpace(post[0]);
    }
    PiecesAppend(pre, e, op, START);
    BlankIsUncut(pre, op, START);
    BlanksKeepState(START, pre);
    PiecesAppend(pre + e, post, op, START);
    BlankIsUncut(post, op, Run(START, pre + e));
    var qs := [pre + ps[0]] + ps[1..];
    GlueBlankTrims(qs, post);
    assert qs[1..] == ps[1..];
    TrimAbsorbsBlanks(pre, ps[0], "");
    assert pre + ps[0] + "" == pre + ps[0];
  }

  // ---- Outer parentheses ----

  /** What the rest of _is_outer_wrapped answers when it stands before e in state s. */
  function OuterWrapped(e: string, s: Scan): bool
    decreases |e|
  {
    if e == "" then s.depth == 0
    else
      var t := Step(s, e[0]);
      if !s.inString && e[0] == ')' && t.depth == 0 && |e| > 1 then false else OuterWrapped(e[1..], t)
  }

  method IsOuterWrapped(expression: string) returns (wrapped: bool)
    ensures wrapped == OuterWrapped(expression, START)
  {
    var depth, inString, escaped := 0, false, false;
    assert expression[0..] == expression;
    for index := 0 to |expression|
      invariant escaped ==> inString
      invariant OuterWrapped(expression, START)
             == OuterWrapped(expression[index..], Scan(depth, inString, escaped))
    {
      var c := expression[index];
      ghost var s := Scan(depth, inString, escaped);
      assert expression[index..][1..] == expression[index + 1..];
      if c == '\\' && inString && !escaped {
        escaped := true;
        continue;
      }
      if c == '"' && !escaped {
        inString := !inString;
      } else if !inString {
        if c == '(' {
          depth := depth + 1;
        } else if c == ')' {
          depth := depth - 1;
          if depth == 0 && index != |expression| - 1 {
            return false;
          }
        }
      }
      escaped := false;
      assert Scan(depth, inString, escaped) == Step(s, c);
    }
    return depth == 0;
  }

  /** A closing parenthesis, outside quotes and not the last character, at which the parentheses are level. */
  predicate LevelAt(e: string, s: Scan, k: nat) {
    k < |e| - 1 && e[k] == ')' && !Run(s, e[..k]).inString && Run(s, e[..k + 1]).depth == 0
  }

  lemma LevelAtNext(e: string, s: Scan, k: nat)
    requires k < |e|
    ensures LevelAt(e, s, k) <==>
            if k == 0 then |e| > 1 && e[0] == ')' && !s.inString && Step(s, e[0]).depth == 0
            else LevelAt(e[1..], Step(s, e[0]), k - 1)
  {
    hide Step;
    RunFront(e, s, k + 1);
    if k > 0 {
      RunFront(e, s, k);
    } else {
      assert e[..0] == "" && e[1..][..0] == "";
    }
  }

  lemma RunFront(e: string, s: Scan, k: nat)
    requires 1 <= k <= |e|
    ensures Run(s, e[..k]) == Run(Step(s, e[0]), e[1..][..k - 1])
  {
    assert e[..k][0] == e[0] && e[..k][1..] == e[1..][..k - 1];
  }

  /** The text is wrapped exactly if the parentheses are level at its end, and at none that closes before. */
  lemma {:induction false} OuterWrappedExactly(e: string, s: Scan)
    ensures OuterWrapped(e, s) <==> Run(s, e).depth == 0 && forall k: nat :: !LevelAt(e, s, k)
    decreases |e|
  {
    if e != "" {
      hide LevelAt;
      var t, rest := Step(s, e[0]), e[1..];
      OuterWrappedExactly(rest, t);
      LevelAtNext(e, s, 0);
      if k: nat :| LevelAt(e, s, k) {
        NoneLevelBeyond(e, s);
        LevelAtNext(e, s, k);
      }
      if k: nat :| LevelAt(rest, t, k) {
        NoneLevelBeyond(rest, t);
        LevelAtNext(e, s, k + 1);
      }
    }
  }

  lemma NoneLevelBeyond(e: string, s: Scan)
    ensures forall k: nat | k >= |e| :: !LevelAt(e, s, k)
  {
  }

  predicate Wrapped(e: string) {
    |e| >= 2 && e[0] == '(' && e[|e| - 1] == ')' && OuterWrapped(e, START)
  }

  /** What _strip_outer_parens returns. */
  function StripOuter(e: string): (r: string)
    ensures |r| <= |e|
    decreases |e|
  {
    var x := Trim(e);
    if Wrapped(x) then StripOuter(x[1..|x| - 1]) else x
  }

  method StripOuterParens(expression: string) returns (expr: string)
    ensures expr == StripOuter(expression)
  {
    expr := Trim(expression);
    ghost var inner := expression;
    while true
      invariant expr == Trim(inner) && StripOuter(inner) == StripOuter(expression)
      decreases |expr|
    {
      if !(|expr| >= 1 && expr[0] == '(' && expr[|expr| - 1] == ')') {
        return;
      }
      var wrapped := IsOuterWrapped(expr);
      if !wrapped {
        return;
      }
      inner := expr[1..|expr| - 1];
      expr := Trim(expr[1..|expr| - 1]);
    }
  }

  /** A text that is cut somewhere at top level is not wrapped as a whole. */
  lemma {:induction false} CutIsNotWrapped(e: string, op: Operator, s: Scan)
    requires s.depth >= 1 && |Pieces(e, op, s)| > 1
    ensures !OuterWrapped(e, s)
    decreases |e|
  {
    var t := Step(s, e[0]);
    if t.depth >= 1 {
      CutIsNotWrapped(e[1..], op, t);
    }
  }

  lemma CutIsNotStripped(e: string, op: Operator)
    requires |Pieces(e, op, START)| > 1
    ensures StripOuter(e) == Trim(e) && Split(Trim(e), op) == Split(e, op)
  {
    var pre, post := TrimCuts(e);
    var x := Trim(e);
    SplitAbsorbsBlanks(pre, x, post, op);
    if x != "" && x[0] == '(' {
      CutIsNotWrapped(x[1..], op, Step(START, '('));
    }
  }

  // ---- Balanced texts ----

  /** Scanning a from s never goes below depth floor. */
  ghost predicate StaysAbove(a: string, s: Scan, floor: int)
    decreases |a|
  {
    s.depth >= floor && (a == "" || StaysAbove(a[1..], Step(s, a[0]), floor))
  }

  /** Quotes closed, and every parenthesis matched. */
  ghost predicate Balanced(a: string) {
    StaysAbove(a, START, 0) && Run(START, a) == START
  }

  lemma {:induction false} DepthShift(a: string, s: Scan, extra: nat, floor: int)
    requires StaysAbove(a, s, floor)
    ensures StaysAbove(a, s.(depth := s.depth + extra), floor + extra)
    ensures Run(s.(depth := s.depth + extra), a) == Run(s, a).(depth := Run(s, a).depth + extra)
    decreases |a|
  {
    if a != "" {
      DepthShift(a[1..], Step(s, a[0]), extra, floor);
      assert Step(s.(depth := s.depth + extra), a[0]) == Step(s, a[0]).(depth := Step(s, a[0]).depth + extra);
    }
  }

  lemma {:induction false} StaysAboveConcat(a: string, b: string, s: Scan, floor: int)
    requires StaysAbove(a, s, floor) && StaysAbove(b, Run(s, a), floor)
    ensures StaysAbove(a + b, s, floor)
    decreases |a|
  {
    if a == "" {
      assert a + b == b;
    } else {
      assert (a + b)[1..] == a[1..] + b;
      StaysAboveConcat(a[1..], b, Step(s, a[0]), floor);
    }
  }

  lemma BalancedConcat(a: string, b: string)
    requires Balanced(a) && Balanced(b)
    ensures Balanced(a + b)
  {
    RunConcat(START, a, b);
    StaysAboveConcat(a, b, START, 0);
  }

  lemma {:induction false} DeepIsUncut(a: string, op: Operator, s: Scan)
    requires StaysAbove(a, s, 1)
    ensures Pieces(a, op, s) == [a]
    decreases |a|
  {
    if a != "" {
      DeepIsUncut(a[1..], op, Step(s, a[0]));
      assert [a[0]] + a[1..] == a;
    }
  }

  lemma {:induction false} ClosesAtEnd(a: string, s: Scan)
    requires StaysAbove(a, s, 1) && Run(s, a) == Scan(1, false, false)
    ensures OuterWrapped(a + ")", s) && Run(s, a + ")") == START && StaysAbove(a + ")", s, 0)
    decreases |a|
  {
    if a == "" {
      assert a + ")" == ")";
      assert ")"[1..] == "";
      var t := Step(s, ')');
      assert Run(t, "") == t && StaysAbove("", t, 0);
    } else {
      assert (a + ")")[1..] == a[1..] + ")";
      ClosesAtEnd(a[1..], Step(s, a[0]));
    }
  }

  function Parenthesized(a: string): string {
    "(" + a + ")"
  }

  /** Parentheses around a balanced text: one balanced text, never cut inside, and stripped again. */
  lemma ParenthesesWrap(a: string)
    requires Balanced(a)
    ensures Balanced(Parenthesized(a))
    ensures StripOuter(Parenthesized(a)) == StripOuter(a)
    ensures forall op :: Pieces(Parenthesized(a), op, START) == [Parenthesized(a)]
  {
    var e, t := Parenthesized(a), Scan(1, false, false);
    assert e[1..] == a + ")" && e[1..|e| - 1] == a;
    assert Step(START, '(') == t;
    DepthShift(a, START, 1, 0);
    ClosesAtEnd(a, t);
    TrimIs(e);
    forall op ensures Pieces(e, op, START) == [e] {
      ParenthesesHideCuts(a, op);
    }
  }

  lemma ParenthesesHideCuts(a: string, op: Operator)
    requires StaysAbove(a, Scan(1, false, false), 1)
    ensures Pieces(Parenthesized(a), op, START) == [Parenthesized(a)]
  {
    var e, t := Parenthesized(a), Scan(1, false, false);
    assert e[1..] == a + ")";
    DeepIsUncut(a, op, t);
    PiecesAppend(a, ")", op, t);
    ParenIsUncut(op, Run(t, a));
    UncutPieces(e, op, START);
  }

  lemma ParenIsUncut(op: Operator, s: Scan)
    ensures Pieces(")", op, s) == [")"]
  {
    assert ")"[1..] == "";
    assert [')'] + "" == ")";
  }
}
