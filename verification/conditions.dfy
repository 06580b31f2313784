/**
 * The reusable condition library (packages/core/src/parsing/conditions.ts).
 *
 * The condition resolvers are not part of this model: they arrive as a
 * `Resolvers` record of functions about which nothing is assumed, so every
 * contract here holds whatever the resolvers compute.
 */
module Conditions {
  import opened Wrappers
  import opened PrintItems
  import opened Combinators

  /** Where `isMultipleLines` measures to: an info, or the writer's current position. */
  datatype EndPoint = AtInfo(info: InfoRef) | AtWriter(writerInfo: WriterInfo)

  /** The resolvers the library delegates to, left uninterpreted. */
  datatype Resolvers = Resolvers(
    isHanging: (ResolutionContext, InfoRef, Option<InfoRef>) -> Option<bool>,
    isMultipleLines: (ResolutionContext, InfoRef, EndPoint, bool) -> Option<bool>,
    isStartOfNewLine: ResolutionContext -> Option<bool>)

  /** The two admissible values of `spaceChar`: the text " " or the SpaceOrNewLine signal. */
  datatype SpaceChar = Space | SpaceOrNewLineSignal

  function SpaceItem(c: SpaceChar): PrintItem {
    match c
    case Space => Text(" ")
    case SpaceOrNewLineSignal => Sig(SpaceOrNewLine)
  }

  /**
   * What the printer emits for `c` in context `ctx` if it can decide there:
   * None while the predicate is unresolved, otherwise the chosen branch.
   */
  function Emitted(c: Condition, ctx: ResolutionContext): Option<seq<PrintItem>> {
    match c.resolve(ctx)
    case None => None
    case Some(b) => Some(Branch(c, b))
  }

  datatype NewlineIfHangingSpaceOtherwiseOptions = NewlineIfHangingSpaceOtherwiseOptions(
    startInfo: InfoRef,
    endInfo: Option<InfoRef>,
    spaceChar: Option<SpaceChar>)

  /** A newline when the region from `startInfo` hangs, the space character otherwise. */
  function NewlineIfHangingSpaceOtherwise(res: Resolvers, options: NewlineIfHangingSpaceOtherwiseOptions): (c: Condition)
    ensures c.name == "newLineIfHangingSpaceOtherwise"
    ensures c.onTrue == Some([Sig(NewLine)])
    ensures options.spaceChar.None? ==> c.onFalse == Some([Text(" ")])
    ensures options.spaceChar.Some? ==> c.onFalse == Some([SpaceItem(options.spaceChar.value)])
    ensures forall ctx :: c.resolve(ctx) == res.isHanging(ctx, options.startInfo, options.endInfo)
  {
    var space := options.spaceChar.GetOr(Space);
    Condition(
      "newLineIfHangingSpaceOtherwise",
      ctx => res.isHanging(ctx, options.startInfo, options.endInfo),
      Some([Sig(NewLine)]),
      Some([SpaceItem(space)]))
  }

  /**
   * Whatever the resolver answers, the condition emits exactly one item: a
   * newline precisely when the region hangs, and with `spaceChar` omitted a
   * plain space precisely when it does not.
   */
  lemma NewlineIfHangingSpaceOtherwiseEmits(res: Resolvers, options: NewlineIfHangingSpaceOtherwiseOptions, ctx: ResolutionContext)
    ensures var e := Emitted(NewlineIfHangingSpaceOtherwise(res, options), ctx);
      && (e.None? <==> res.isHanging(ctx, options.startInfo, options.endInfo).None?)
      && (e.Some? ==> |e.value| == 1)
      && (e == Some([Sig(NewLine)]) <==> res.isHanging(ctx, options.startInfo, options.endInfo) == Some(true))
      && (options.spaceChar.None? ==>
            (e == Some([Text(" ")]) <==> res.isHanging(ctx, options.startInfo, options.endInfo) == Some(false)))
  {
    var c := NewlineIfHangingSpaceOtherwise(res, options);
    assert c.resolve(ctx) == res.isHanging(ctx, options.startInfo, options.endInfo);
    assert [Sig(NewLine)] != [SpaceItem(options.spaceChar.GetOr(Space))] by {
      assert [SpaceItem(options.spaceChar.GetOr(Space))][0] != Sig(NewLine);
    }
  }

  datatype NewlineIfMultipleLinesSpaceOrNewlineOtherwiseOptions = NewlineIfMultipleLinesSpaceOrNewlineOtherwiseOptions(
    startInfo: InfoRef,
    endInfo: Option<InfoRef>)

  /** The end point `endInfo || conditionContext.writerInfo` selects. */
  function EndPointOf(endInfo: Option<InfoRef>, ctx: ResolutionContext): (p: EndPoint)
    ensures endInfo.Some? ==> p == AtInfo(endInfo.value)
    ensures endInfo.None? ==> p == AtWriter(ctx.writerInfo)
  {
    match endInfo
    case Some(info) => AtInfo(info)
    case None => AtWriter(ctx.writerInfo)
  }

  /**
   * A newline when the region from `startInfo` spans several lines, a
   * space-or-newline otherwise; an unresolved region counts as one line.
   */
  function NewlineIfMultipleLinesSpaceOrNewlineOtherwise(
    res: Resolvers, options: NewlineIfMultipleLinesSpaceOrNewlineOtherwiseOptions): (c: Condition)
    ensures c.name == "newlineIfMultipleLinesSpaceOrNewlineOtherwise"
    ensures c.onTrue == Some([Sig(NewLine)])
    ensures c.onFalse == Some([Sig(SpaceOrNewLine)])
    ensures forall ctx ::
      c.resolve(ctx) == res.isMultipleLines(ctx, options.startInfo, EndPointOf(options.endInfo, ctx), false)
    ensures options.endInfo.None? ==> forall ctx ::
      c.resolve(ctx) == res.isMultipleLines(ctx, options.startInfo, AtWriter(ctx.writerInfo), false)
  {
    Condition(
      "newlineIfMultipleLinesSpaceOrNewlineOtherwise",
      ctx => res.isMultipleLines(ctx, options.startInfo, EndPointOf(options.endInfo, ctx), false),
      Some([Sig(NewLine)]),
      Some([Sig(SpaceOrNewLine)]))
  }

  /**
   * Resolved either way, the condition emits one break opportunity: a hard
   * newline exactly when the region spans several lines.
   */
  lemma NewlineIfMultipleLinesEmits(
    res: Resolvers, options: NewlineIfMultipleLinesSpaceOrNewlineOtherwiseOptions, ctx: ResolutionContext)
    ensures var answer := res.isMultipleLines(ctx, options.startInfo, EndPointOf(options.endInfo, ctx), false);
      var e := Emitted(NewlineIfMultipleLinesSpaceOrNewlineOtherwise(res, options), ctx);
      && (e.None? <==> answer.None?)
      && (e == Some([Sig(NewLine)]) <==> answer == Some(true))
      && (e == Some([Sig(SpaceOrNewLine)]) <==> answer == Some(false))
  {
    var c := NewlineIfMultipleLinesSpaceOrNewlineOtherwise(res, options);
    assert c.resolve(ctx) == res.isMultipleLines(ctx, options.startInfo, EndPointOf(options.endInfo, ctx), false);
    assert [Sig(NewLine)] != [Sig(SpaceOrNewLine)] by {
      assert [Sig(NewLine)][0] != [Sig(SpaceOrNewLine)][0];
    }
  }

  /** A single indent at the start of a line; there is no false branch. */
  function SingleIndentIfStartOfLine(res: Resolvers): (c: Condition)
    ensures c.name == "singleIndentIfStartOfLine"
    ensures c.onTrue == Some([Sig(SingleIndent)])
    ensures c.onFalse.None?
    ensures forall ctx :: c.resolve(ctx) == res.isStartOfNewLine(ctx)
  {
    Condition("singleIndentIfStartOfLine", res.isStartOfNewLine, Some([Sig(SingleIndent)]), None)
  }

  /** Away from the start of a line the condition emits nothing at all. */
  lemma SingleIndentIfStartOfLineEmits(res: Resolvers, ctx: ResolutionContext)
    ensures var e := Emitted(SingleIndentIfStartOfLine(res), ctx);
      && (res.isStartOfNewLine(ctx) == Some(true) ==> e == Some([Sig(SingleIndent)]))
      && (res.isStartOfNewLine(ctx) == Some(false) ==> e == Some([]))
      && (res.isStartOfNewLine(ctx).None? ==> e.None?)
  {
  }

  /**
   * `indentIfStartOfLine`: one condition whose false branch is the items
   * themselves and whose true branch is the same items one level deeper.
   */
  function IndentIfStartOfLine(res: Resolvers, items: seq<PrintItem>): (r: seq<PrintItem>)
    ensures |r| == 1 && r[0].Cond?
    ensures r[0].condition.name == "indentIfStartOfLine"
    ensures r[0].condition.onFalse == Some(items)
    ensures r[0].condition.onTrue == Some(WithIndent(items))
    ensures forall ctx :: r[0].condition.resolve(ctx) == res.isStartOfNewLine(ctx)
  {
    [Cond(Condition("indentIfStartOfLine", res.isStartOfNewLine, Some(WithIndent(items)), Some(items)))]
  }

  /**
   * `withIndentIfStartOfLineIndented`: the same branches as
   * `indentIfStartOfLine`, but decided at once by whether the current line
   * started deeper than the logical indent level.
   */
  function WithIndentIfStartOfLineIndented(items: seq<PrintItem>): (r: seq<PrintItem>)
    ensures |r| == 1 && r[0].Cond?
    ensures r[0].condition.name == "withIndentIfStartOfLineIndented"
    ensures r[0].condition.onFalse == Some(items)
    ensures r[0].condition.onTrue == Some(WithIndent(items))
    ensures forall ctx :: r[0].condition.resolve(ctx).Some?
    ensures forall ctx :: r[0].condition.resolve(ctx) == Some(true) <==>
      ctx.writerInfo.lineStartIndentLevel > ctx.writerInfo.indentLevel
  {
    [Cond(Condition(
      "withIndentIfStartOfLineIndented",
      (ctx: ResolutionContext) => Some(ctx.writerInfo.lineStartIndentLevel > ctx.writerInfo.indentLevel),
      Some(WithIndent(items)),
      Some(items)))]
  }

  /**
   * Both indenting wrappers emit the very same items on either branch, the
   * true branch only adding one balanced indent level around them; so
   * balanced items stay balanced whichever branch the printer picks.
   */
  lemma IndentingBranchesShareItems(res: Resolvers, items: seq<PrintItem>)
    ensures var a := IndentIfStartOfLine(res, items)[0].condition;
      var b := WithIndentIfStartOfLineIndented(items)[0].condition;
      && Branch(a, false) == items && Branch(b, false) == items
      && Branch(a, true)[1..|Branch(a, true)| - 1] == items
      && Branch(b, true)[1..|Branch(b, true)| - 1] == items
      && (IndentBalanced(items) ==> IndentBalanced(Branch(a, true)) && IndentBalanced(Branch(b, true)))
      && (GroupBalanced(items) ==> GroupBalanced(Branch(a, true)) && GroupBalanced(Branch(b, true)))
  {
    WithIndentBalanced(items);
  }

  /**
   * A branch-less condition that stays unresolved until `info` resolves and
   * is false from then on; it only makes the printer revisit this point.
   */
  function ForceReevaluationOnceResolved(info: InfoRef): (c: Condition)
    ensures c.name == "forceReevaluationOnceInfoResolved"
    ensures c.onTrue.None? && c.onFalse.None?
    ensures forall ctx :: c.resolve(ctx) != Some(true)
    ensures forall ctx :: c.resolve(ctx).None? <==> GetResolvedInfo(ctx, info).None?
  {
    Condition(
      "forceReevaluationOnceInfoResolved",
      ctx => if GetResolvedInfo(ctx, info).None? then None else Some(false),
      None,
      None)
  }

  /**
   * Resolution only grows, so once the condition has settled to false it
   * stays false, and it never emits a single item.
   */
  lemma ForceReevaluationIsMonotonic(info: InfoRef, ctx: ResolutionContext, later: ResolutionContext)
    requires ctx.resolvedInfos.Keys <= later.resolvedInfos.Keys
    ensures var c := ForceReevaluationOnceResolved(info);
      && (c.resolve(ctx) == Some(false) ==> c.resolve(later) == Some(false))
      && (Emitted(c, ctx).Some? ==> Emitted(c, ctx) == Some([]))
  {
  }
}
