/**
 * Template literals in the TypeScript tree walker: `getItems` merges the
 * literal's quasis (raw text chunks) and its `${…}` expressions by source
 * position, and `parseTemplateLiteral` prints the merged parts with indent
 * ignored inside the raw text and honoured inside the expressions.
 *
 * Translating one part is outside this model: it is the parameter
 * `parseNode`.
 */
module Templates {
  import opened Wrappers
  import opened PrintItems
  import opened Combinators
  import opened Conditions

  /** A quasi: a raw chunk of the template starting at source offset `start`. */
  datatype TemplateElement = TemplateElement(start: int, raw: string)

  /** An embedded expression starting at source offset `start`; `id` is its node identity. */
  datatype Expression = Expression(start: int, id: nat)

  datatype TemplatePart = QuasiPart(quasi: TemplateElement) | ExprPart(expr: Expression)

  function PartStart(p: TemplatePart): int {
    match p
    case QuasiPart(q) => q.start
    case ExprPart(e) => e.start
  }

  /** The quasis among `parts`, in order. */
  function Quasis(parts: seq<TemplatePart>): seq<TemplateElement> {
    if |parts| == 0 then []
    else (if parts[0].QuasiPart? then [parts[0].quasi] else []) + Quasis(parts[1..])
  }

  /** The expressions among `parts`, in order. */
  function Exprs(parts: seq<TemplatePart>): seq<Expression> {
    if |parts| == 0 then []
    else (if parts[0].ExprPart? then [parts[0].expr] else []) + Exprs(parts[1..])
  }

  /**
   * The merge `getItems` performs: the earlier of the two next candidates
   * goes first, and on a tie the expression goes first.
   */
  function Merge(quasis: seq<TemplateElement>, exprs: seq<Expression>): (r: seq<TemplatePart>)
    ensures |r| == |quasis| + |exprs|
    decreases |quasis| + |exprs|
  {
    if |quasis| > 0 && (|exprs| == 0 || quasis[0].start < exprs[0].start) then
      [QuasiPart(quasis[0])] + Merge(quasis[1..], exprs)
    else if |exprs| > 0 then
      [ExprPart(exprs[0])] + Merge(quasis, exprs[1..])
    else
      []
  }

  /**
   * The merge yields every quasi and every expression exactly once, each
   * list in its own order: filtering the result by kind gives back the
   * two inputs.
   */
  lemma {:induction false} MergeKeepsBoth(quasis: seq<TemplateElement>, exprs: seq<Expression>)
    ensures Quasis(Merge(quasis, exprs)) == quasis
    ensures Exprs(Merge(quasis, exprs)) == exprs
    decreases |quasis| + |exprs|
  {
    var r := Merge(quasis, exprs);
    if |quasis| > 0 && (|exprs| == 0 || quasis[0].start < exprs[0].start) {
      var rest := Merge(quasis[1..], exprs);
      assert r == [QuasiPart(quasis[0])] + rest;
      assert r[1..] == rest;
      MergeKeepsBoth(quasis[1..], exprs);
      assert quasis == [quasis[0]] + quasis[1..];
    } else if |exprs| > 0 {
      var rest := Merge(quasis, exprs[1..]);
      assert r == [ExprPart(exprs[0])] + rest;
      assert r[1..] == rest;
      MergeKeepsBoth(quasis, exprs[1..]);
      assert exprs == [exprs[0]] + exprs[1..];
    }
  }

  /** One step of the merge: which candidate goes first. */
  lemma MergeStep(quasis: seq<TemplateElement>, exprs: seq<Expression>)
    requires |quasis| > 0 || |exprs| > 0
    ensures |quasis| > 0 && (|exprs| == 0 || quasis[0].start < exprs[0].start) ==>
      Merge(quasis, exprs) == [QuasiPart(quasis[0])] + Merge(quasis[1..], exprs)
    ensures !(|quasis| > 0 && (|exprs| == 0 || quasis[0].start < exprs[0].start)) ==>
      Merge(quasis, exprs) == [ExprPart(exprs[0])] + Merge(quasis, exprs[1..])
  {
  }

  /** `p` is one of the given quasis or expressions. */
  predicate IsMember(quasis: seq<TemplateElement>, exprs: seq<Expression>, p: TemplatePart) {
    (p.QuasiPart? && p.quasi in quasis) || (p.ExprPart? && p.expr in exprs)
  }

  /** Every merged part is one of the given quasis or expressions. */
  lemma {:induction false} MergeMembers(quasis: seq<TemplateElement>, exprs: seq<Expression>)
    ensures forall k :: 0 <= k < |Merge(quasis, exprs)| ==> IsMember(quasis, exprs, Merge(quasis, exprs)[k])
    decreases |quasis| + |exprs|
  {
    var r := Merge(quasis, exprs);
    if |r| > 0 {
      MergeStep(quasis, exprs);
      var rest := r[1..];
      if |quasis| > 0 && (|exprs| == 0 || quasis[0].start < exprs[0].start) {
        assert rest == Merge(quasis[1..], exprs);
        MergeMembers(quasis[1..], exprs);
      } else {
        assert rest == Merge(quasis, exprs[1..]);
        MergeMembers(quasis, exprs[1..]);
      }
      forall k | 0 <= k < |r|
        ensures IsMember(quasis, exprs, r[k])
      {
        if k > 0 {
          assert r[k] == rest[k - 1];
          assert r[k].QuasiPart? ==> r[k].quasi in quasis by {
            if r[k].QuasiPart? && r[k].quasi in quasis[1..] {
              var j :| 0 <= j < |quasis[1..]| && quasis[1..][j] == r[k].quasi;
              assert quasis[1..][j] == quasis[j + 1];
            }
          }
          assert r[k].ExprPart? ==> r[k].expr in exprs by {
            if r[k].ExprPart? && r[k].expr in exprs[1..] {
              var j :| 0 <= j < |exprs[1..]| && exprs[1..][j] == r[k].expr;
              assert exprs[1..][j] == exprs[j + 1];
            }
          }
        }
      }
    }
  }

  /** Yielding the quasi at `qi` keeps the loop's account of the merge. */
  lemma MergeFromQuasi(quasis: seq<TemplateElement>, exprs: seq<Expression>, qi: nat, ei: nat, items: seq<TemplatePart>)
    requires qi < |quasis| && ei <= |exprs|
    requires ei == |exprs| || quasis[qi].start < exprs[ei].start
    requires items + Merge(quasis[qi..], exprs[ei..]) == Merge(quasis, exprs)
    ensures (items + [QuasiPart(quasis[qi])]) + Merge(quasis[qi + 1..], exprs[ei..]) == Merge(quasis, exprs)
  {
    var q := quasis[qi..];
    assert q[0] == quasis[qi] && q[1..] == quasis[qi + 1..];
    MergeStep(q, exprs[ei..]);
  }

  /** Yielding the expression at `ei` keeps the loop's account of the merge. */
  lemma MergeFromExpr(quasis: seq<TemplateElement>, exprs: seq<Expression>, qi: nat, ei: nat, items: seq<TemplatePart>)
    requires qi <= |quasis| && ei < |exprs|
    requires qi == |quasis| || quasis[qi].start >= exprs[ei].start
    requires items + Merge(quasis[qi..], exprs[ei..]) == Merge(quasis, exprs)
    ensures (items + [ExprPart(exprs[ei])]) + Merge(quasis[qi..], exprs[ei + 1..]) == Merge(quasis, exprs)
  {
    var e := exprs[ei..];
    assert e[0] == exprs[ei] && e[1..] == exprs[ei + 1..];
    assert qi < |quasis| ==> quasis[qi..][0] == quasis[qi];
    MergeStep(quasis[qi..], e);
  }

  /**
   * `getItems`: the walker's loop over two cursors, yielding the quasi when
   * it starts strictly before the expression, the expression otherwise, and
   * whichever list remains once the other is exhausted.
   */
  method GetItems(quasis: seq<TemplateElement>, exprs: seq<Expression>) returns (items: seq<TemplatePart>)
    ensures items == Merge(quasis, exprs)
    ensures Quasis(items) == quasis && Exprs(items) == exprs
  {
    var quasisIndex := 0;
    var expressionsIndex := 0;
    items := [];
    while quasisIndex < |quasis| || expressionsIndex < |exprs|
      invariant 0 <= quasisIndex <= |quasis| && 0 <= expressionsIndex <= |exprs|
      invariant items + Merge(quasis[quasisIndex..], exprs[expressionsIndex..]) == Merge(quasis, exprs)
      decreases |quasis| - quasisIndex + |exprs| - expressionsIndex
    {
      if quasisIndex < |quasis| && (expressionsIndex == |exprs| || quasis[quasisIndex].start < exprs[expressionsIndex].start) {
        MergeFromQuasi(quasis, exprs, quasisIndex, expressionsIndex, items);
        items := items + [QuasiPart(quasis[quasisIndex])];
        quasisIndex := quasisIndex + 1;
      } else {
        MergeFromExpr(quasis, exprs, quasisIndex, expressionsIndex, items);
        items := items + [ExprPart(exprs[expressionsIndex])];
        expressionsIndex := expressionsIndex + 1;
      }
    }
    assert quasis[quasisIndex..] == [] && exprs[expressionsIndex..] == [];
    MergeKeepsBoth(quasis, exprs);
  }

  ghost predicate SortedQuasis(quasis: seq<TemplateElement>) {
    forall i, j :: 0 <= i < j < |quasis| ==> quasis[i].start <= quasis[j].start
  }

  ghost predicate SortedExprs(exprs: seq<Expression>) {
    forall i, j :: 0 <= i < j < |exprs| ==> exprs[i].start <= exprs[j].start
  }

  ghost predicate SortedParts(parts: seq<TemplatePart>) {
    forall i, j :: 0 <= i < j < |parts| ==> PartStart(parts[i]) <= PartStart(parts[j])
  }

  /** A bound below every quasi and expression is a bound below every merged part. */
  lemma MergeAbove(quasis: seq<TemplateElement>, exprs: seq<Expression>, bound: int)
    requires forall i :: 0 <= i < |quasis| ==> bound <= quasis[i].start
    requires forall i :: 0 <= i < |exprs| ==> bound <= exprs[i].start
    ensures forall k :: 0 <= k < |Merge(quasis, exprs)| ==> bound <= PartStart(Merge(quasis, exprs)[k])
  {
    MergeMembers(quasis, exprs);
  }

  lemma SortedCons(head: TemplatePart, rest: seq<TemplatePart>)
    requires SortedParts(rest)
    requires forall k :: 0 <= k < |rest| ==> PartStart(head) <= PartStart(rest[k])
    ensures SortedParts([head] + rest)
  {
    var r := [head] + rest;
    forall i, j | 0 <= i < j < |r| ensures PartStart(r[i]) <= PartStart(r[j]) {
      assert r[j] == rest[j - 1];
      if i > 0 {
        assert r[i] == rest[i - 1];
      }
    }
  }

  /** Quasis and expressions each in source order merge into parts in source order. */
  lemma {:induction false} MergeSorted(quasis: seq<TemplateElement>, exprs: seq<Expression>)
    requires SortedQuasis(quasis) && SortedExprs(exprs)
    ensures SortedParts(Merge(quasis, exprs))
    decreases |quasis| + |exprs|
  {
    if |quasis| > 0 || |exprs| > 0 {
      MergeStep(quasis, exprs);
      if |quasis| > 0 && (|exprs| == 0 || quasis[0].start < exprs[0].start) {
        var b := quasis[0].start;
        MergeSorted(quasis[1..], exprs);
        assert forall i :: 0 <= i < |quasis[1..]| ==> b <= quasis[1..][i].start by {
          forall i | 0 <= i < |quasis[1..]| ensures b <= quasis[1..][i].start {
            assert quasis[1..][i] == quasis[i + 1];
          }
        }
        assert forall i :: 0 <= i < |exprs| ==> b <= exprs[i].start by {
          forall i | 0 <= i < |exprs| ensures b <= exprs[i].start {
            assert exprs[0].start <= exprs[i].start;
          }
        }
        MergeAbove(quasis[1..], exprs, b);
        SortedCons(QuasiPart(quasis[0]), Merge(quasis[1..], exprs));
      } else {
        var b := exprs[0].start;
        MergeSorted(quasis, exprs[1..]);
        assert forall i :: 0 <= i < |quasis| ==> b <= quasis[i].start by {
          forall i | 0 <= i < |quasis| ensures b <= quasis[i].start {
            assert quasis[0].start <= quasis[i].start;
          }
        }
        assert forall i :: 0 <= i < |exprs[1..]| ==> b <= exprs[1..][i].start by {
          forall i | 0 <= i < |exprs[1..]| ensures b <= exprs[1..][i].start {
            assert exprs[1..][i] == exprs[i + 1];
          }
        }
        MergeAbove(quasis, exprs[1..], b);
        SortedCons(ExprPart(exprs[0]), Merge(quasis, exprs[1..]));
      }
    }
  }

  /**
   * The items around one `${…}` expression: leave ignoring-indent mode, put
   * the expression on its own indented line, and re-enter the mode after `}`.
   */
  function ExpressionSegment(res: Resolvers, parsed: seq<PrintItem>): (r: seq<PrintItem>)
    ensures |r| == |parsed| + 8
    ensures r[0] == Text("${") && IsSignal(r[1], FinishIgnoringIndent)
    ensures r[|r| - 2] == Text("}") && IsSignal(r[|r| - 1], StartIgnoringIndent)
    ensures r[4..|r| - 4] == parsed
  {
    [Text("${"), Sig(FinishIgnoringIndent), Sig(NewLine), Cond(SingleIndentIfStartOfLine(res))]
    + parsed
    + [Sig(NewLine), Cond(SingleIndentIfStartOfLine(res)), Text("}"), Sig(StartIgnoringIndent)]
  }

  function PartItems(res: Resolvers, parseNode: TemplatePart -> seq<PrintItem>, p: TemplatePart): seq<PrintItem> {
    if p.QuasiPart? then parseNode(p) else ExpressionSegment(res, parseNode(p))
  }

  /** The items of the merged parts, one after the other. */
  function PartsItems(res: Resolvers, parseNode: TemplatePart -> seq<PrintItem>, parts: seq<TemplatePart>): seq<PrintItem> {
    if |parts| == 0 then [] else PartItems(res, parseNode, parts[0]) + PartsItems(res, parseNode, parts[1..])
  }

  /** `parseTemplateLiteral`: the whole literal inside one newline group. */
  function ParseTemplateLiteral(
    res: Resolvers, quasis: seq<TemplateElement>, exprs: seq<Expression>,
    parseNode: TemplatePart -> seq<PrintItem>): (r: seq<PrintItem>)
    ensures |r| >= 6
    ensures IsSignal(r[0], StartNewlineGroup) && IsSignal(r[|r| - 1], FinishNewLineGroup)
    ensures r[1] == Text("`") && IsSignal(r[2], StartIgnoringIndent)
    ensures r[|r| - 3] == Text("`") && IsSignal(r[|r| - 2], FinishIgnoringIndent)
    ensures r[3..|r| - 3] == PartsItems(res, parseNode, Merge(quasis, exprs))
  {
    var middle := PartsItems(res, parseNode, Merge(quasis, exprs));
    LiteralShape(middle);
    NewlineGroup([Text("`"), Sig(StartIgnoringIndent)] + middle + [Text("`"), Sig(FinishIgnoringIndent)])
  }

  /** The literal's frame around any middle: group, backtick and ignoring signal on each side. */
  lemma LiteralShape(middle: seq<PrintItem>)
    ensures var r := NewlineGroup([Text("`"), Sig(StartIgnoringIndent)] + middle + [Text("`"), Sig(FinishIgnoringIndent)]);
      && |r| == |middle| + 6
      && r[1] == Text("`") && IsSignal(r[2], StartIgnoringIndent)
      && r[|r| - 3] == Text("`") && IsSignal(r[|r| - 2], FinishIgnoringIndent)
      && r[3..|r| - 3] == middle
  {
    var r := NewlineGroup([Text("`"), Sig(StartIgnoringIndent)] + middle + [Text("`"), Sig(FinishIgnoringIndent)]);
    assert r == [Sig(StartNewlineGroup), Text("`"), Sig(StartIgnoringIndent)] + middle
              + [Text("`"), Sig(FinishIgnoringIndent), Sig(FinishNewLineGroup)];
  }

  /** With its expression balanced, a `${…}` segment goes from ignoring back to ignoring. */
  lemma ExpressionSegmentWalk(res: Resolvers, parsed: seq<PrintItem>)
    requires IgnoringWalk(parsed, false) == Some(false)
    ensures IgnoringWalk(ExpressionSegment(res, parsed), true) == Some(true)
  {
    var head := [Text("${"), Sig(FinishIgnoringIndent), Sig(NewLine), Cond(SingleIndentIfStartOfLine(res))];
    var tail := [Sig(NewLine), Cond(SingleIndentIfStartOfLine(res)), Text("}"), Sig(StartIgnoringIndent)];
    IgnoringWalkAppend(head + parsed, tail, true);
    IgnoringWalkAppend(head, parsed, true);
    assert IgnoringWalk(head, true) == Some(false) by {
      assert head[3..][1..] == [];
      assert IgnoringWalk(head[3..], false) == Some(false);
      assert head[2..][1..] == head[3..];
      assert IgnoringWalk(head[2..], false) == Some(false);
      assert head[1..][1..] == head[2..];
      assert IgnoringWalk(head[1..], true) == Some(false);
    }
    assert IgnoringWalk(tail, false) == Some(true) by {
      assert tail[3..][1..] == [];
      assert IgnoringWalk(tail[3..], false) == Some(true);
      assert tail[2..][1..] == tail[3..];
      assert IgnoringWalk(tail[2..], false) == Some(true);
      assert tail[1..][1..] == tail[2..];
      assert IgnoringWalk(tail[1..], false) == Some(true);
    }
  }

  ghost predicate PartsWellFormed(parseNode: TemplatePart -> seq<PrintItem>, parts: seq<TemplatePart>) {
    forall k :: 0 <= k < |parts| ==>
      if parts[k].QuasiPart? then NoIgnoringSignals(parseNode(parts[k]))
      else IgnoringWalk(parseNode(parts[k]), false) == Some(false)
  }

  lemma {:induction false} PartsItemsWalk(res: Resolvers, parseNode: TemplatePart -> seq<PrintItem>, parts: seq<TemplatePart>)
    requires PartsWellFormed(parseNode, parts)
    ensures IgnoringWalk(PartsItems(res, parseNode, parts), true) == Some(true)
  {
    if |parts| > 0 {
      var p := parts[0];
      if p.QuasiPart? {
        IgnoringWalkNoSignals(parseNode(p), true);
      } else {
        ExpressionSegmentWalk(res, parseNode(p));
      }
      assert PartsWellFormed(parseNode, parts[1..]) by {
        forall k | 0 <= k < |parts[1..]|
          ensures if parts[1..][k].QuasiPart? then NoIgnoringSignals(parseNode(parts[1..][k]))
                  else IgnoringWalk(parseNode(parts[1..][k]), false) == Some(false)
        {
          assert parts[1..][k] == parts[k + 1];
        }
      }
      PartsItemsWalk(res, parseNode, parts[1..]);
      IgnoringWalkAppend(PartItems(res, parseNode, p), PartsItems(res, parseNode, parts[1..]), true);
    }
  }

  /**
   * Parts drawn from the given quasis and expressions meet the part
   * hypotheses: a quasi's items carry no ignoring-indent signal, and an
   * expression's items go from not ignoring back to not ignoring.
   */
  lemma MembersWellFormed(
    quasis: seq<TemplateElement>, exprs: seq<Expression>, parseNode: TemplatePart -> seq<PrintItem>,
    parts: seq<TemplatePart>)
    requires forall i :: 0 <= i < |quasis| ==> NoIgnoringSignals(parseNode(QuasiPart(quasis[i])))
    requires forall i :: 0 <= i < |exprs| ==> IgnoringWalk(parseNode(ExprPart(exprs[i])), false) == Some(false)
    requires forall k :: 0 <= k < |parts| ==> IsMember(quasis, exprs, parts[k])
    ensures PartsWellFormed(parseNode, parts)
  {
    forall k | 0 <= k < |parts|
      ensures if parts[k].QuasiPart? then NoIgnoringSignals(parseNode(parts[k]))
              else IgnoringWalk(parseNode(parts[k]), false) == Some(false)
    {
      PartWellFormed(quasis, exprs, parseNode, parts[k]);
    }
  }

  lemma PartWellFormed(
    quasis: seq<TemplateElement>, exprs: seq<Expression>, parseNode: TemplatePart -> seq<PrintItem>, p: TemplatePart)
    requires forall i :: 0 <= i < |quasis| ==> NoIgnoringSignals(parseNode(QuasiPart(quasis[i])))
    requires forall i :: 0 <= i < |exprs| ==> IgnoringWalk(parseNode(ExprPart(exprs[i])), false) == Some(false)
    requires IsMember(quasis, exprs, p)
    ensures if p.QuasiPart? then NoIgnoringSignals(parseNode(p))
            else IgnoringWalk(parseNode(p), false) == Some(false)
  {
    if p.QuasiPart? {
      var i :| 0 <= i < |quasis| && quasis[i] == p.quasi;
      assert p == QuasiPart(quasis[i]);
    } else {
      var i :| 0 <= i < |exprs| && exprs[i] == p.expr;
      assert p == ExprPart(exprs[i]);
    }
  }

  /** Opening in ignoring mode and closing out of it brackets a body that keeps the mode. */
  lemma LiteralWalk(body: seq<PrintItem>)
    requires IgnoringWalk(body, true) == Some(true)
    ensures IgnoringWalk(NewlineGroup([Text("`"), Sig(StartIgnoringIndent)] + body + [Text("`"), Sig(FinishIgnoringIndent)]), false) == Some(false)
  {
    var open := [Sig(StartNewlineGroup), Text("`"), Sig(StartIgnoringIndent)];
    var close := [Text("`"), Sig(FinishIgnoringIndent), Sig(FinishNewLineGroup)];
    assert NewlineGroup([Text("`"), Sig(StartIgnoringIndent)] + body + [Text("`"), Sig(FinishIgnoringIndent)])
        == open + body + close;
    IgnoringWalkAppend(open + body, close, false);
    IgnoringWalkAppend(open, body, false);
    assert IgnoringWalk(open, false) == Some(true) by {
      assert open[2..][1..] == [];
      assert IgnoringWalk(open[2..], false) == Some(true);
      assert open[1..][1..] == open[2..];
      assert IgnoringWalk(open[1..], false) == Some(true);
    }
    assert IgnoringWalk(close, true) == Some(false) by {
      assert close[2..][1..] == [];
      assert IgnoringWalk(close[2..], false) == Some(false);
      assert close[1..][1..] == close[2..];
      assert IgnoringWalk(close[1..], true) == Some(false);
    }
  }

  /**
   * The ignoring-indent signals of a template literal strictly alternate,
   * starting with StartIgnoringIndent and ending with FinishIgnoringIndent,
   * provided the quasis' items carry no such signal and each expression's
   * items alternate on their own (as a nested template literal does).
   */
  lemma TemplateIgnoringAlternates(
    res: Resolvers, quasis: seq<TemplateElement>, exprs: seq<Expression>,
    parseNode: TemplatePart -> seq<PrintItem>)
    requires forall i :: 0 <= i < |quasis| ==> NoIgnoringSignals(parseNode(QuasiPart(quasis[i])))
    requires forall i :: 0 <= i < |exprs| ==> IgnoringWalk(parseNode(ExprPart(exprs[i])), false) == Some(false)
    ensures IgnoringWalk(ParseTemplateLiteral(res, quasis, exprs, parseNode), false) == Some(false)
  {
    var parts := Merge(quasis, exprs);
    MergeMembers(quasis, exprs);
    MembersWellFormed(quasis, exprs, parseNode, parts);
    PartsItemsWalk(res, parseNode, parts);
    LiteralWalk(PartsItems(res, parseNode, parts));
  }

  lemma {:induction false} PartsItemsAppend(
    res: Resolvers, parseNode: TemplatePart -> seq<PrintItem>, a: seq<TemplatePart>, b: seq<TemplatePart>)
    ensures PartsItems(res, parseNode, a + b) == PartsItems(res, parseNode, a) + PartsItems(res, parseNode, b)
  {
    if |a| == 0 {
      assert a + b == b;
    } else {
      assert (a + b)[1..] == a[1..] + b;
      PartsItemsAppend(res, parseNode, a[1..], b);
    }
  }

  /** The items of the parts, split around part `k`. */
  lemma PartsItemsSplit(
    res: Resolvers, parseNode: TemplatePart -> seq<PrintItem>, parts: seq<TemplatePart>, k: nat)
    requires k < |parts|
    ensures PartsItems(res, parseNode, parts)
         == PartsItems(res, parseNode, parts[..k]) + PartItems(res, parseNode, parts[k])
            + PartsItems(res, parseNode, parts[k + 1..])
  {
    var single := [parts[k]];
    assert parts == parts[..k] + single + parts[k + 1..];
    PartsItemsAppend(res, parseNode, parts[..k] + single, parts[k + 1..]);
    PartsItemsAppend(res, parseNode, parts[..k], single);
    assert PartsItems(res, parseNode, single) == PartItems(res, parseNode, parts[k]) by {
      assert single[1..] == [];
    }
  }

  /**
   * `items` are printed in the place of part `k`: the parts' items are those
   * of the parts before it, then `items`, then those of the parts after it.
   */
  ghost predicate PrintedAt(
    res: Resolvers, parseNode: TemplatePart -> seq<PrintItem>, parts: seq<TemplatePart>, k: int, items: seq<PrintItem>)
  {
    && 0 <= k < |parts|
    && PartsItems(res, parseNode, parts)
       == PartsItems(res, parseNode, parts[..k]) + items + PartsItems(res, parseNode, parts[k + 1..])
  }

  /** A part occurring in `parts` is printed in its place. */
  lemma PartPrinted(res: Resolvers, parseNode: TemplatePart -> seq<PrintItem>, parts: seq<TemplatePart>, p: TemplatePart)
    requires p in parts
    ensures exists k :: 0 <= k < |parts| && parts[k] == p && PrintedAt(res, parseNode, parts, k, PartItems(res, parseNode, p))
  {
    var k :| 0 <= k < |parts| && parts[k] == p;
    PartsItemsSplit(res, parseNode, parts, k);
  }

  lemma {:induction false} QuasiIn(parts: seq<TemplatePart>, q: TemplateElement)
    requires q in Quasis(parts)
    ensures QuasiPart(q) in parts
  {
    if parts[0] != QuasiPart(q) {
      QuasiIn(parts[1..], q);
    }
  }

  lemma {:induction false} ExprIn(parts: seq<TemplatePart>, e: Expression)
    requires e in Exprs(parts)
    ensures ExprPart(e) in parts
  {
    if parts[0] != ExprPart(e) {
      ExprIn(parts[1..], e);
    }
  }

  /** Quasi `j` is printed as its own items in its merged place. */
  lemma QuasiPrinted(
    res: Resolvers, quasis: seq<TemplateElement>, exprs: seq<Expression>,
    parseNode: TemplatePart -> seq<PrintItem>, j: nat)
    requires j < |quasis|
    ensures exists k ::
      && 0 <= k < |Merge(quasis, exprs)| && Merge(quasis, exprs)[k] == QuasiPart(quasis[j])
      && PrintedAt(res, parseNode, Merge(quasis, exprs), k, parseNode(QuasiPart(quasis[j])))
  {
    var parts := Merge(quasis, exprs);
    MergeKeepsBoth(quasis, exprs);
    assert quasis[j] in Quasis(parts);
    QuasiIn(parts, quasis[j]);
    PartPrinted(res, parseNode, parts, QuasiPart(quasis[j]));
  }

  /** Expression `j` is printed inside its `${…}` segment in its merged place. */
  lemma ExprPrinted(
    res: Resolvers, quasis: seq<TemplateElement>, exprs: seq<Expression>,
    parseNode: TemplatePart -> seq<PrintItem>, j: nat)
    requires j < |exprs|
    ensures exists k ::
      && 0 <= k < |Merge(quasis, exprs)| && Merge(quasis, exprs)[k] == ExprPart(exprs[j])
      && PrintedAt(res, parseNode, Merge(quasis, exprs), k, ExpressionSegment(res, parseNode(ExprPart(exprs[j]))))
  {
    var parts := Merge(quasis, exprs);
    MergeKeepsBoth(quasis, exprs);
    assert exprs[j] in Exprs(parts);
    ExprIn(parts, exprs[j]);
    PartPrinted(res, parseNode, parts, ExprPart(exprs[j]));
  }

  /**
   * `parseTemplateLiteral` prints every quasi and every expression in its
   * merged place between the backticks: a quasi as its own items, an
   * expression inside its `${…}` segment, which finishes ignoring indent
   * before the expression and starts it again after the `}`.
   */
  lemma TemplatePrintsEveryPart(
    res: Resolvers, quasis: seq<TemplateElement>, exprs: seq<Expression>,
    parseNode: TemplatePart -> seq<PrintItem>)
    ensures var r := ParseTemplateLiteral(res, quasis, exprs, parseNode);
      r[3..|r| - 3] == PartsItems(res, parseNode, Merge(quasis, exprs))
    ensures forall j :: 0 <= j < |quasis| ==>
      exists k ::
        && 0 <= k < |Merge(quasis, exprs)| && Merge(quasis, exprs)[k] == QuasiPart(quasis[j])
        && PrintedAt(res, parseNode, Merge(quasis, exprs), k, parseNode(QuasiPart(quasis[j])))
    ensures forall j :: 0 <= j < |exprs| ==>
      exists k ::
        && 0 <= k < |Merge(quasis, exprs)| && Merge(quasis, exprs)[k] == ExprPart(exprs[j])
        && PrintedAt(res, parseNode, Merge(quasis, exprs), k, ExpressionSegment(res, parseNode(ExprPart(exprs[j]))))
  {
    forall j | 0 <= j < |quasis| {
      QuasiPrinted(res, quasis, exprs, parseNode, j);
    }
    forall j | 0 <= j < |exprs| {
      ExprPrinted(res, quasis, exprs, parseNode, j);
    }
  }
}
