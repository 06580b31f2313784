/**
 * Trailing-comma policy and comma placement for array-like nodes (array
 * expressions, array patterns, tuple types) in the TypeScript tree walker.
 *
 * Translating a single element is outside this model: it is the parameter
 * `parse`, whose output the model treats as opaque.
 */
module ArrayLike {
  import opened Wrappers
  import opened PrintItems
  import opened Combinators
  import opened Conditions

  /** The `trailingCommas` configuration values. */
  datatype TrailingCommas = Always | OnlyMultiLine | Never

  /** `getForceTrailingCommas`: must the last element carry a comma? */
  function GetForceTrailingCommas(option: TrailingCommas, useNewlines: bool): (r: bool)
    ensures option == Always ==> r
    ensures option == Never ==> !r
    ensures option == OnlyMultiLine ==> (r <==> useNewlines)
  {
    match option
    case Always => true
    case OnlyMultiLine => useNewlines
    case Never => false
  }

  /** Spreading the elements over lines can only add a forced trailing comma, never remove one. */
  lemma ForceTrailingCommasMonotonic(option: TrailingCommas)
    ensures GetForceTrailingCommas(option, false) ==> GetForceTrailingCommas(option, true)
    ensures GetForceTrailingCommas(option, true) != GetForceTrailingCommas(option, false) <==> option == OnlyMultiLine
  {
  }

  /** Whether element `i` of `count` gets a comma: every one but the last, and the last when forced. */
  function HasComma(i: nat, count: nat, force: bool): (r: bool)
    requires i < count
    ensures i < count - 1 ==> r
    ensures i == count - 1 ==> (r <==> force)
  {
    force || i < count - 1
  }

  /** The items of element `element` before any comma; a hole contributes none. */
  function ElementBody<E>(element: Option<E>, parse: E -> seq<PrintItem>): seq<PrintItem> {
    match element
    case Some(e) => parse(e)
    case None => []
  }

  /**
   * `parseElement`: the element's items, followed by "," exactly when
   * `hasComma`; a hole (a null element) is just the comma or nothing.
   */
  function ElementItems<E>(element: Option<E>, hasComma: bool, parse: E -> seq<PrintItem>): (r: seq<PrintItem>)
    ensures var body := ElementBody(element, parse);
      && |r| == |body| + (if hasComma then 1 else 0)
      && r[..|body|] == body
      && (hasComma ==> r[|r| - 1] == Text(","))
    ensures element.None? ==> (hasComma <==> r == [Text(",")]) && (!hasComma <==> r == [])
  {
    ElementBody(element, parse) + (if hasComma then [Text(",")] else [])
  }

  // ---------------------------------------------------------------------
  // The comma and the parentheses of a parenthesised element

  /** `surroundWithParentheses` in `parseNode`: a newline group around "(", the items and ")". */
  function SurroundWithParentheses(items: seq<PrintItem>): (r: seq<PrintItem>)
    ensures |r| == |items| + 4
    ensures r[1] == Text("(") && r[|r| - 2] == Text(")")
    ensures r[2..|r| - 2] == items
  {
    NewlineGroup([Text("(")] + items + [Text(")")])
  }

  /**
   * An element as the walker builds it: the `innerParse` hook appends the
   * comma to the element's own items, and `parseNode` then wraps that in
   * parentheses when the element has them.
   */
  function ElementNodeAsWritten(parsed: seq<PrintItem>, hasParentheses: bool, hasComma: bool): seq<PrintItem> {
    var inner := parsed + (if hasComma then [Text(",")] else []);
    if hasParentheses then SurroundWithParentheses(inner) else inner
  }

  /** The evidently intended element: the parenthesised node, then the comma. */
  function ElementNodeCorrected(parsed: seq<PrintItem>, hasParentheses: bool, hasComma: bool): seq<PrintItem> {
    (if hasParentheses then SurroundWithParentheses(parsed) else parsed) + (if hasComma then [Text(",")] else [])
  }

  /**
   * As written, a parenthesised element that takes a comma prints it just
   * before its closing parenthesis: `[(a), b]` becomes `[(a,), b]`.
   */
  lemma AsWrittenCommaInsideParentheses(parsed: seq<PrintItem>)
    ensures var r := ElementNodeAsWritten(parsed, true, true);
      r[|r| - 3] == Text(",") && r[|r| - 2] == Text(")")
  {
    var inner := parsed + [Text(",")];
    var r := SurroundWithParentheses(inner);
    assert r[|r| - 3] == r[2..|r| - 2][|inner| - 1];
  }

  /**
   * The corrected element keeps the parenthesised node intact and puts the
   * comma after it; without parentheses it is what the walker builds.
   */
  lemma CorrectedCommaAfterParentheses(parsed: seq<PrintItem>, hasParentheses: bool, hasComma: bool)
    ensures var r := ElementNodeCorrected(parsed, hasParentheses, hasComma);
      && (hasComma <==> |r| > 0 && r[|r| - 1] == Text(",") && |r| == |ElementNodeCorrected(parsed, hasParentheses, false)| + 1)
      && (hasComma ==> r[..|r| - 1] == ElementNodeCorrected(parsed, hasParentheses, false))
      && (hasParentheses ==> r[2..|parsed| + 2] == parsed && r[|parsed| + 2] == Text(")"))
      && (!hasParentheses ==> r == ElementNodeAsWritten(parsed, false, hasComma))
  {
    var core := if hasParentheses then SurroundWithParentheses(parsed) else parsed;
    var r := ElementNodeCorrected(parsed, hasParentheses, hasComma);
    assert r[..|core|] == core;
    if hasParentheses {
      assert r[2..|parsed| + 2] == core[2..|core| - 2];
    }
  }

  /** The layout parameters of one array-like node. */
  datatype ArrayLayout<!E> = ArrayLayout(
    res: Resolvers,
    useNewlines: bool,
    force: bool,
    newline: NewlineKind,
    parse: E -> seq<PrintItem>)

  /**
   * The items of element `i` in the loop of `parseElements`: a
   * space-or-newline before it unless it is the first or the node is
   * spread over lines, the element inside `indentIfStartOfLine`, and a
   * newline after it when spread over lines.
   */
  function ElementChunk<E>(layout: ArrayLayout<E>, elements: seq<Option<E>>, i: nat): seq<PrintItem>
    requires i < |elements|
  {
    (if i > 0 && !layout.useNewlines then [Sig(SpaceOrNewLine)] else [])
    + IndentIfStartOfLine(layout.res, ElementItems(elements[i], HasComma(i, |elements|, layout.force), layout.parse))
    + (if layout.useNewlines then [Text(layout.newline.Text())] else [])
  }

  /** The items of elements `i..`, one chunk after another. */
  function ElementRun<E>(layout: ArrayLayout<E>, elements: seq<Option<E>>, i: nat): seq<PrintItem>
    requires i <= |elements|
    decreases |elements| - i
  {
    if i == |elements| then [] else ElementChunk(layout, elements, i) + ElementRun(layout, elements, i + 1)
  }

  /** `parseElements`: a leading newline when spread over lines, then every element. */
  function ElementsItems<E>(layout: ArrayLayout<E>, elements: seq<Option<E>>): seq<PrintItem> {
    if |elements| > 0
    then (if layout.useNewlines then [Text(layout.newline.Text())] else []) + ElementRun(layout, elements, 0)
    else []
  }

  /** The layout `parseArrayLikeNodes` uses. */
  function LayoutOf<E>(
    res: Resolvers, trailingCommas: TrailingCommas, useNewlines: bool, newline: NewlineKind,
    parse: E -> seq<PrintItem>): ArrayLayout<E>
  {
    ArrayLayout(res, useNewlines, GetForceTrailingCommas(trailingCommas, useNewlines), newline, parse)
  }

  /** `parseArrayLikeNodes`: brackets around the elements. */
  function ParseArrayLikeNodes<E>(
    res: Resolvers, elements: seq<Option<E>>, trailingCommas: TrailingCommas,
    useNewlines: bool, newline: NewlineKind, parse: E -> seq<PrintItem>): (r: seq<PrintItem>)
    ensures |r| >= 2 && r[0] == Text("[") && r[|r| - 1] == Text("]")
    ensures |elements| == 0 ==> r == [Text("["), Text("]")]
  {
    [Text("[")] + ElementsItems(LayoutOf(res, trailingCommas, useNewlines, newline, parse), elements) + [Text("]")]
  }

  /** What a condition prints: its name and both of its branches. */
  datatype CondView = CondView(name: string, onFalse: seq<PrintItem>, onTrue: seq<PrintItem>)

  function ViewOf(c: Condition): CondView {
    CondView(c.name, Branch(c, false), Branch(c, true))
  }

  /** The views of the top-level conditions, in order. */
  function Conds(items: seq<PrintItem>): seq<CondView> {
    if |items| == 0 then []
    else (if items[0].Cond? then [ViewOf(items[0].condition)] else []) + Conds(items[1..])
  }

  lemma {:induction false} CondsAppend(a: seq<PrintItem>, b: seq<PrintItem>)
    ensures Conds(a + b) == Conds(a) + Conds(b)
  {
    if |a| == 0 {
      assert a + b == b;
    } else {
      var head := if a[0].Cond? then [ViewOf(a[0].condition)] else [];
      assert (a + b)[0] == a[0] && (a + b)[1..] == a[1..] + b;
      assert Conds(a + b) == head + Conds(a[1..] + b);
      assert Conds(a) == head + Conds(a[1..]);
      CondsAppend(a[1..], b);
    }
  }

  lemma CondsOfPlain(items: seq<PrintItem>)
    requires forall k :: 0 <= k < |items| ==> !items[k].Cond?
    ensures Conds(items) == []
  {
    if |items| > 0 {
      CondsOfPlain(items[1..]);
    }
  }

  /** The view of an `indentIfStartOfLine` condition around `items`: the true branch indents them. */
  function IndentView(items: seq<PrintItem>): CondView {
    CondView("indentIfStartOfLine", items, [Sig(StartIndent)] + items + [Sig(FinishIndent)])
  }

  /** An element's chunk holds exactly one condition, around element `i`'s items. */
  lemma ChunkConds<E>(layout: ArrayLayout<E>, elements: seq<Option<E>>, i: nat)
    requires i < |elements|
    ensures Conds(ElementChunk(layout, elements, i)) == [IndentView(ElementBranch(layout, elements, i))]
  {
    var sep: seq<PrintItem> := if i > 0 && !layout.useNewlines then [Sig(SpaceOrNewLine)] else [];
    var cond := IndentIfStartOfLine(layout.res, ElementBranch(layout, elements, i));
    var after: seq<PrintItem> := if layout.useNewlines then [Text(layout.newline.Text())] else [];
    assert ElementChunk(layout, elements, i) == sep + cond + after;
    CondsAppend(sep + cond, after);
    CondsAppend(sep, cond);
    CondsOfPlain(sep);
    CondsOfPlain(after);
    assert Conds(cond) == [IndentView(ElementBranch(layout, elements, i))] by {
      assert cond[1..] == [];
    }
  }

  /** The conditions of element `i` and of the elements after it. */
  lemma ElementRunCondsStep<E>(layout: ArrayLayout<E>, elements: seq<Option<E>>, i: nat)
    requires i < |elements|
    ensures Conds(ElementRun(layout, elements, i))
         == [IndentView(ElementBranch(layout, elements, i))] + Conds(ElementRun(layout, elements, i + 1))
  {
    CondsAppend(ElementChunk(layout, elements, i), ElementRun(layout, elements, i + 1));
    ChunkConds(layout, elements, i);
  }

  /** The items element `i` carries inside its condition. */
  function ElementBranch<E>(layout: ArrayLayout<E>, elements: seq<Option<E>>, i: nat): seq<PrintItem>
    requires i < |elements|
  {
    ElementItems(elements[i], HasComma(i, |elements|, layout.force), layout.parse)
  }

  /** The element items for elements `i..`, in order. */
  function ExpectedBranches<E>(layout: ArrayLayout<E>, elements: seq<Option<E>>, i: nat): seq<seq<PrintItem>>
    requires i <= |elements|
    decreases |elements| - i
  {
    if i == |elements| then []
    else [ElementBranch(layout, elements, i)] + ExpectedBranches(layout, elements, i + 1)
  }

  lemma {:induction false} ExpectedBranchesLength<E>(layout: ArrayLayout<E>, elements: seq<Option<E>>, i: nat)
    requires i <= |elements|
    ensures |ExpectedBranches(layout, elements, i)| == |elements| - i
    decreases |elements| - i
  {
    if i < |elements| {
      ExpectedBranchesLength(layout, elements, i + 1);
    }
  }

  /** Entry `k` of the expected branches from `i` on belongs to element `i + k`. */
  lemma {:induction false} ExpectedBranchAt<E>(layout: ArrayLayout<E>, elements: seq<Option<E>>, i: nat, k: nat)
    requires i + k < |elements|
    ensures k < |ExpectedBranches(layout, elements, i)|
    ensures ExpectedBranches(layout, elements, i)[k] == ElementBranch(layout, elements, i + k)
    decreases k
  {
    ExpectedBranchesLength(layout, elements, i);
    if k > 0 {
      ExpectedBranchAt(layout, elements, i + 1, k - 1);
      var tail := ExpectedBranches(layout, elements, i + 1);
      assert ExpectedBranches(layout, elements, i) == [ElementBranch(layout, elements, i)] + tail;
    }
  }

  /** The `indentIfStartOfLine` views around each of `bs`, in order. */
  function IndentViews(bs: seq<seq<PrintItem>>): (r: seq<CondView>)
    ensures |r| == |bs|
  {
    if |bs| == 0 then [] else [IndentView(bs[0])] + IndentViews(bs[1..])
  }

  lemma IndentViewsCons(b: seq<PrintItem>, rest: seq<seq<PrintItem>>)
    ensures IndentViews([b] + rest) == [IndentView(b)] + IndentViews(rest)
  {
    assert ([b] + rest)[1..] == rest;
  }

  lemma {:induction false} IndentViewsAt(bs: seq<seq<PrintItem>>, k: nat)
    requires k < |bs|
    ensures IndentViews(bs)[k] == IndentView(bs[k])
    decreases k
  {
    if k > 0 {
      IndentViewsAt(bs[1..], k - 1);
    }
  }

  lemma {:induction false} ElementRunConds<E>(layout: ArrayLayout<E>, elements: seq<Option<E>>, i: nat)
    requires i <= |elements|
    ensures Conds(ElementRun(layout, elements, i)) == IndentViews(ExpectedBranches(layout, elements, i))
    decreases |elements| - i
  {
    if i < |elements| {
      ElementRunCondsStep(layout, elements, i);
      ElementRunConds(layout, elements, i + 1);
      assert ExpectedBranches(layout, elements, i)
          == [ElementBranch(layout, elements, i)] + ExpectedBranches(layout, elements, i + 1);
      IndentViewsCons(ElementBranch(layout, elements, i), ExpectedBranches(layout, elements, i + 1));
    }
  }

  lemma BracketedConds(open: seq<PrintItem>, middle: seq<PrintItem>, close: seq<PrintItem>)
    requires forall k :: 0 <= k < |open| ==> !open[k].Cond?
    requires forall k :: 0 <= k < |close| ==> !close[k].Cond?
    ensures Conds(open + middle + close) == Conds(middle)
  {
    CondsAppend(open + middle, close);
    CondsAppend(open, middle);
    CondsOfPlain(open);
    CondsOfPlain(close);
  }

  lemma NodeConds<E>(
    res: Resolvers, elements: seq<Option<E>>, trailingCommas: TrailingCommas,
    useNewlines: bool, newline: NewlineKind, parse: E -> seq<PrintItem>)
    ensures Conds(ParseArrayLikeNodes(res, elements, trailingCommas, useNewlines, newline, parse))
         == IndentViews(ExpectedBranches(LayoutOf(res, trailingCommas, useNewlines, newline, parse), elements, 0))
  {
    var layout := LayoutOf(res, trailingCommas, useNewlines, newline, parse);
    var middle := ElementsItems(layout, elements);
    BracketedConds([Text("[")], middle, [Text("]")]);
    if |elements| > 0 {
      var lead: seq<PrintItem> := if useNewlines then [Text(newline.Text())] else [];
      CondsAppend(lead, ElementRun(layout, elements, 0));
      CondsOfPlain(lead);
      ElementRunConds(layout, elements, 0);
    }
  }

  /** Element `i`'s expected condition, with its comma decided. */
  lemma ExpectedCommaAt<E>(layout: ArrayLayout<E>, elements: seq<Option<E>>, i: nat)
    requires i < |elements|
    ensures |IndentViews(ExpectedBranches(layout, elements, 0))| == |elements|
    ensures IndentViews(ExpectedBranches(layout, elements, 0))[i]
         == IndentView(ElementItems(elements[i], i < |elements| - 1 || layout.force, layout.parse))
  {
    ExpectedBranchesLength(layout, elements, 0);
    ExpectedBranchAt(layout, elements, 0, i);
    IndentViewsAt(ExpectedBranches(layout, elements, 0), i);
    assert HasComma(i, |elements|, layout.force) == (i < |elements| - 1 || layout.force);
  }

  lemma ExpectedCommaPlacement<E>(layout: ArrayLayout<E>, elements: seq<Option<E>>)
    ensures var c := IndentViews(ExpectedBranches(layout, elements, 0));
      && |c| == |elements|
      && forall i :: 0 <= i < |elements| ==>
           c[i] == IndentView(ElementItems(elements[i], i < |elements| - 1 || layout.force, layout.parse))
  {
    ExpectedBranchesLength(layout, elements, 0);
    forall i | 0 <= i < |elements|
      ensures IndentViews(ExpectedBranches(layout, elements, 0))[i]
           == IndentView(ElementItems(elements[i], i < |elements| - 1 || layout.force, layout.parse))
    {
      ExpectedCommaAt(layout, elements, i);
    }
  }

  /**
   * Comma placement: the node holds one `indentIfStartOfLine` condition per
   * element, in order. Element `i`'s items are followed by "," exactly when
   * it is not the last element or trailing commas are forced, and both
   * branches carry them: the false branch as they are, and the true branch,
   * taken when the element starts a line, inside `withIndent`.
   */
  lemma ArrayCommaPlacement<E>(
    res: Resolvers, elements: seq<Option<E>>, trailingCommas: TrailingCommas,
    useNewlines: bool, newline: NewlineKind, parse: E -> seq<PrintItem>)
    ensures var c := Conds(ParseArrayLikeNodes(res, elements, trailingCommas, useNewlines, newline, parse));
      && |c| == |elements|
      && forall i :: 0 <= i < |elements| ==>
           var items := ElementItems(elements[i],
                                     i < |elements| - 1 || GetForceTrailingCommas(trailingCommas, useNewlines),
                                     parse);
           && c[i].name == "indentIfStartOfLine"
           && c[i].onFalse == items
           && c[i].onTrue == WithIndent(items)
  {
    NodeConds(res, elements, trailingCommas, useNewlines, newline, parse);
    ExpectedCommaPlacement(LayoutOf(res, trailingCommas, useNewlines, newline, parse), elements);
    forall items: seq<PrintItem> ensures IndentView(items).onTrue == WithIndent(items) {
    }
  }

  /** An element's chunk holds one space-or-newline exactly when it is not first and the node is on one line. */
  lemma ChunkSeparators<E>(layout: ArrayLayout<E>, elements: seq<Option<E>>, i: nat)
    requires i < |elements|
    ensures Count(ElementChunk(layout, elements, i), SpaceOrNewLine) == (if i > 0 && !layout.useNewlines then 1 else 0)
  {
    var sep: seq<PrintItem> := if i > 0 && !layout.useNewlines then [Sig(SpaceOrNewLine)] else [];
    var cond := IndentIfStartOfLine(layout.res, ElementItems(elements[i], HasComma(i, |elements|, layout.force), layout.parse));
    var after: seq<PrintItem> := if layout.useNewlines then [Text(layout.newline.Text())] else [];
    assert ElementChunk(layout, elements, i) == sep + cond + after;
    CountAppend(sep + cond, after, SpaceOrNewLine);
    CountAppend(sep, cond, SpaceOrNewLine);
    assert Count(cond, SpaceOrNewLine) == 0 by { assert cond[1..] == []; }
    assert Count(after, SpaceOrNewLine) == 0 by {
      if layout.useNewlines { assert after[1..] == []; }
    }
    assert Count(sep, SpaceOrNewLine) == (if i > 0 && !layout.useNewlines then 1 else 0) by {
      if i > 0 && !layout.useNewlines { assert sep[1..] == []; }
    }
  }

  lemma {:induction false} ElementRunSeparators<E>(layout: ArrayLayout<E>, elements: seq<Option<E>>, i: nat)
    requires i <= |elements|
    ensures Count(ElementRun(layout, elements, i), SpaceOrNewLine) ==
      (if layout.useNewlines || i == |elements| then 0 else if i == 0 then |elements| - 1 else |elements| - i)
    decreases |elements| - i
  {
    if i < |elements| {
      var chunk := ElementChunk(layout, elements, i);
      var rest := ElementRun(layout, elements, i + 1);
      assert ElementRun(layout, elements, i) == chunk + rest;
      CountAppend(chunk, rest, SpaceOrNewLine);
      ChunkSeparators(layout, elements, i);
      ElementRunSeparators(layout, elements, i + 1);
    }
  }

  /**
   * On one line the node holds one space-or-newline fewer than it has
   * elements; spread over lines it holds none.
   */
  lemma ArraySeparators<E>(
    res: Resolvers, elements: seq<Option<E>>, trailingCommas: TrailingCommas,
    useNewlines: bool, newline: NewlineKind, parse: E -> seq<PrintItem>)
    ensures Count(ParseArrayLikeNodes(res, elements, trailingCommas, useNewlines, newline, parse), SpaceOrNewLine)
         == (if useNewlines || |elements| == 0 then 0 else |elements| - 1)
  {
    var layout := LayoutOf(res, trailingCommas, useNewlines, newline, parse);
    var open: seq<PrintItem> := [Text("[")];
    var close: seq<PrintItem> := [Text("]")];
    var middle := ElementsItems(layout, elements);
    assert Count(open, SpaceOrNewLine) == 0 by { assert open[1..] == []; }
    assert Count(close, SpaceOrNewLine) == 0 by { assert close[1..] == []; }
    CountAppend(open + middle, close, SpaceOrNewLine);
    CountAppend(open, middle, SpaceOrNewLine);
    if |elements| > 0 {
      var lead: seq<PrintItem> := if useNewlines then [Text(newline.Text())] else [];
      CountAppend(lead, ElementRun(layout, elements, 0), SpaceOrNewLine);
      assert Count(lead, SpaceOrNewLine) == 0 by {
        if useNewlines { assert lead[1..] == []; }
      }
      ElementRunSeparators(layout, elements, 0);
    }
  }
}
