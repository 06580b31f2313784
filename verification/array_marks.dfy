/**
 * Where the space-or-newline separators of an array-like node sit
 * relative to its elements.
 */
module ArrayMarks {
  import opened PrintItems
  import opened Wrappers
  import opened Conditions
  import opened ArrayLike

  /** A top-level item that matters to the layout: a space-or-newline, or an element's condition. */
  datatype Mark = SepMark | ElemMark

  /** The top-level space-or-newline signals and conditions of `items`, in order. */
  function Marks(items: seq<PrintItem>): seq<Mark> {
    if |items| == 0 then []
    else (if items[0] == Sig(SpaceOrNewLine) then [SepMark] else if items[0].Cond? then [ElemMark] else [])
         + Marks(items[1..])
  }

  lemma {:induction false} MarksAppend(a: seq<PrintItem>, b: seq<PrintItem>)
    ensures Marks(a + b) == Marks(a) + Marks(b)
  {
    if |a| == 0 {
      assert a + b == b;
    } else {
      assert (a + b)[1..] == a[1..] + b;
      MarksAppend(a[1..], b);
    }
  }

  /** The marks of one element's chunk: a separator first when it is not first and the node is on one line. */
  lemma ChunkMarks<E>(layout: ArrayLayout<E>, elements: seq<Option<E>>, i: nat)
    requires i < |elements|
    ensures Marks(ElementChunk(layout, elements, i)) == ChunkMarksOf(layout.useNewlines, i)
  {
    var sep: seq<PrintItem> := if i > 0 && !layout.useNewlines then [Sig(SpaceOrNewLine)] else [];
    var cond := IndentIfStartOfLine(layout.res, ElementItems(elements[i], HasComma(i, |elements|, layout.force), layout.parse));
    var after: seq<PrintItem> := if layout.useNewlines then [Text(layout.newline.Text())] else [];
    assert ElementChunk(layout, elements, i) == sep + cond + after;
    MarksAppend(sep + cond, after);
    MarksAppend(sep, cond);
    assert Marks(cond) == [ElemMark] by { assert cond[1..] == []; }
    assert Marks(after) == [] by {
      if layout.useNewlines { assert after[1..] == []; }
    }
    assert Marks(sep) == (if i > 0 && !layout.useNewlines then [SepMark] else []) by {
      if i > 0 && !layout.useNewlines { assert sep[1..] == []; }
    }
    assert Marks(sep) + [ElemMark] + [] == ChunkMarksOf(layout.useNewlines, i);
  }

  /** Separators exactly at the positions of the given parity, elements elsewhere. */
  ghost predicate SepAt(m: seq<Mark>, parity: nat) {
    forall k :: 0 <= k < |m| ==> m[k] == (if k % 2 == parity then SepMark else ElemMark)
  }

  ghost predicate AllElems(m: seq<Mark>) {
    forall k :: 0 <= k < |m| ==> m[k] == ElemMark
  }

  lemma PrependPair(m: seq<Mark>, c: seq<Mark>, r: seq<Mark>)
    requires m == c + r && c == [SepMark, ElemMark] && SepAt(r, 0)
    ensures |m| == |r| + 2 && SepAt(m, 0)
  {
    forall k | 2 <= k < |m| ensures m[k] == (if k % 2 == 0 then SepMark else ElemMark) {
      assert m[k] == r[k - 2];
    }
  }

  lemma PrependElemAll(m: seq<Mark>, r: seq<Mark>)
    requires m == [ElemMark] + r && AllElems(r)
    ensures |m| == |r| + 1 && AllElems(m)
  {
    forall k | 1 <= k < |m| ensures m[k] == ElemMark {
      assert m[k] == r[k - 1];
    }
  }

  lemma PrependElem(r: seq<Mark>)
    requires SepAt(r, 0)
    ensures SepAt([ElemMark] + r, 1)
  {
    var m := [ElemMark] + r;
    forall k | 1 <= k < |m| ensures m[k] == (if k % 2 == 1 then SepMark else ElemMark) {
      assert m[k] == r[k - 1];
    }
  }

  /** `j` separator-element pairs. */
  function Pairs(j: nat): seq<Mark> {
    if j == 0 then [] else [SepMark, ElemMark] + Pairs(j - 1)
  }

  /** `j` elements. */
  function Elems(j: nat): seq<Mark> {
    if j == 0 then [] else [ElemMark] + Elems(j - 1)
  }

  lemma {:induction false} PairsShape(j: nat)
    ensures |Pairs(j)| == 2 * j && SepAt(Pairs(j), 0)
  {
    if j > 0 {
      PairsShape(j - 1);
      PrependPair(Pairs(j), [SepMark, ElemMark], Pairs(j - 1));
    }
  }

  lemma {:induction false} ElemsShape(j: nat)
    ensures |Elems(j)| == j && AllElems(Elems(j))
  {
    if j > 0 {
      ElemsShape(j - 1);
      PrependElemAll(Elems(j), Elems(j - 1));
    }
  }

  /** The marks element `i`'s chunk contributes. */
  function ChunkMarksOf(useNewlines: bool, i: nat): seq<Mark> {
    if i > 0 && !useNewlines then [SepMark, ElemMark] else [ElemMark]
  }

  /** The marks expected from elements `i..` of `n`. */
  function RunMarksOf(useNewlines: bool, n: nat, i: nat): seq<Mark>
    requires i <= n
    decreases n - i
  {
    if i == n then [] else ChunkMarksOf(useNewlines, i) + RunMarksOf(useNewlines, n, i + 1)
  }

  /** The marks of elements `i..` are those of element `i`, then those of the rest. */
  lemma RunMarksStep<E>(layout: ArrayLayout<E>, elements: seq<Option<E>>, i: nat)
    requires i < |elements|
    ensures Marks(ElementRun(layout, elements, i))
         == ChunkMarksOf(layout.useNewlines, i) + Marks(ElementRun(layout, elements, i + 1))
  {
    assert ElementRun(layout, elements, i) == ElementChunk(layout, elements, i) + ElementRun(layout, elements, i + 1);
    MarksAppend(ElementChunk(layout, elements, i), ElementRun(layout, elements, i + 1));
    ChunkMarks(layout, elements, i);
  }

  lemma {:induction false} RunMarks<E>(layout: ArrayLayout<E>, elements: seq<Option<E>>, i: nat)
    requires i <= |elements|
    ensures Marks(ElementRun(layout, elements, i)) == RunMarksOf(layout.useNewlines, |elements|, i)
    decreases |elements| - i
  {
    if i < |elements| {
      RunMarksStep(layout, elements, i);
      RunMarks(layout, elements, i + 1);
    }
  }

  /** On one line, from element `i >= 1` on, each element brings a separator and itself. */
  lemma {:induction false} RunMarksInline(n: nat, i: nat)
    requires 1 <= i <= n
    ensures RunMarksOf(false, n, i) == Pairs(n - i)
    decreases n - i
  {
    if i < n {
      RunMarksInline(n, i + 1);
      assert Pairs(n - i) == [SepMark, ElemMark] + Pairs(n - (i + 1));
    }
  }

  /** Spread over lines, from element `i` on, each element brings only itself. */
  lemma {:induction false} RunMarksSpread(n: nat, i: nat)
    requires i <= n
    ensures RunMarksOf(true, n, i) == Elems(n - i)
    decreases n - i
  {
    if i < n {
      RunMarksSpread(n, i + 1);
      assert Elems(n - i) == [ElemMark] + Elems(n - (i + 1));
    }
  }

  /** The marks of all `n` elements, in closed form. */
  lemma RunMarksClosed(n: nat, useNewlines: bool)
    ensures RunMarksOf(useNewlines, n, 0) == ExpectedMarks(n, useNewlines)
  {
    if n > 0 {
      if useNewlines {
        RunMarksSpread(n, 0);
      } else {
        RunMarksInline(n, 1);
        assert RunMarksOf(false, n, 0) == [ElemMark] + RunMarksOf(false, n, 1);
      }
    }
  }

  /** The marks of `n` elements: on one line, element, then separator-element pairs. */
  function ExpectedMarks(n: nat, useNewlines: bool): seq<Mark> {
    if n == 0 then [] else if useNewlines then Elems(n) else [ElemMark] + Pairs(n - 1)
  }

  lemma ExpectedMarksShape(n: nat, useNewlines: bool)
    ensures var m := ExpectedMarks(n, useNewlines);
      && |m| == (if n == 0 then 0 else if useNewlines then n else 2 * n - 1)
      && forall k :: 0 <= k < |m| ==> m[k] == (if !useNewlines && k % 2 == 1 then SepMark else ElemMark)
  {
    if n > 0 {
      if useNewlines {
        ElemsShape(n);
      } else {
        PairsShape(n - 1);
        PrependElem(Pairs(n - 1));
      }
    }
  }

  /** Items with neither a space-or-newline nor a condition have no marks. */
  lemma MarksOfPlain(items: seq<PrintItem>)
    requires forall k :: 0 <= k < |items| ==> items[k] != Sig(SpaceOrNewLine) && !items[k].Cond?
    ensures Marks(items) == []
  {
    if |items| > 0 {
      MarksOfPlain(items[1..]);
    }
  }

  lemma BracketedMarks(open: seq<PrintItem>, middle: seq<PrintItem>, close: seq<PrintItem>)
    requires forall k :: 0 <= k < |open| ==> open[k] != Sig(SpaceOrNewLine) && !open[k].Cond?
    requires forall k :: 0 <= k < |close| ==> close[k] != Sig(SpaceOrNewLine) && !close[k].Cond?
    ensures Marks(open + middle + close) == Marks(middle)
  {
    MarksAppend(open + middle, close);
    MarksAppend(open, middle);
    MarksOfPlain(open);
    MarksOfPlain(close);
  }

  /** The brackets and the leading newline add no marks. */
  lemma NodeMarks<E>(
    res: Resolvers, elements: seq<Option<E>>, trailingCommas: TrailingCommas,
    useNewlines: bool, newline: NewlineKind, parse: E -> seq<PrintItem>)
    ensures Marks(ParseArrayLikeNodes(res, elements, trailingCommas, useNewlines, newline, parse))
         == RunMarksOf(useNewlines, |elements|, 0)
  {
    var layout := LayoutOf(res, trailingCommas, useNewlines, newline, parse);
    BracketedMarks([Text("[")], ElementsItems(layout, elements), [Text("]")]);
    if |elements| > 0 {
      var lead: seq<PrintItem> := if useNewlines then [Text(newline.Text())] else [];
      MarksAppend(lead, ElementRun(layout, elements, 0));
      MarksOfPlain(lead);
      RunMarks(layout, elements, 0);
    }
  }

  /**
   * Where the separators sit: on one line the node's top-level marks are
   * element, separator, element, …, element, so exactly one
   * space-or-newline sits between each pair of neighbours and none before
   * the first or after the last; spread over lines there are only the
   * elements.
   */
  lemma ArraySeparatorPositions<E>(
    res: Resolvers, elements: seq<Option<E>>, trailingCommas: TrailingCommas,
    useNewlines: bool, newline: NewlineKind, parse: E -> seq<PrintItem>)
    ensures var m := Marks(ParseArrayLikeNodes(res, elements, trailingCommas, useNewlines, newline, parse));
      && |m| == (if |elements| == 0 then 0 else if useNewlines then |elements| else 2 * |elements| - 1)
      && forall k :: 0 <= k < |m| ==> m[k] == (if !useNewlines && k % 2 == 1 then SepMark else ElemMark)
  {
    NodeMarks(res, elements, trailingCommas, useNewlines, newline, parse);
    RunMarksClosed(|elements|, useNewlines);
    ExpectedMarksShape(|elements|, useNewlines);
  }
}
