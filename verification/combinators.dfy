/**
 * The wrapping combinators of the TypeScript tree walker
 * (src/parsing/typescript/parser.ts, `surroundWithNewLines` through
 * `prependToIterableIfHasItems`), on immutable sequences.
 */
module Combinators {
  import opened PrintItems

  /** `withIndent`: the items one indent level deeper. */
  function WithIndent(items: seq<PrintItem>): (r: seq<PrintItem>)
    ensures |r| == |items| + 2
    ensures IsSignal(r[0], StartIndent) && IsSignal(r[|r| - 1], FinishIndent)
    ensures r[1..|r| - 1] == items
  {
    [Sig(StartIndent)] + items + [Sig(FinishIndent)]
  }

  /** `newlineGroup`: a region whose optional breaks all break together. */
  function NewlineGroup(items: seq<PrintItem>): (r: seq<PrintItem>)
    ensures |r| == |items| + 2
    ensures IsSignal(r[0], StartNewlineGroup) && IsSignal(r[|r| - 1], FinishNewLineGroup)
    ensures r[1..|r| - 1] == items
  {
    [Sig(StartNewlineGroup)] + items + [Sig(FinishNewLineGroup)]
  }

  /** `surroundWithNewLines`: the file's newline text before and after. */
  function SurroundWithNewLines(items: seq<PrintItem>, newline: NewlineKind): (r: seq<PrintItem>)
    ensures |r| == |items| + 2
    ensures r[0] == Text(newline.Text()) && r[|r| - 1] == Text(newline.Text())
    ensures r[1..|r| - 1] == items
  {
    [Text(newline.Text())] + items + [Text(newline.Text())]
  }

  /**
   * `prependToIterableIfHasItems`: walks the iterable once and emits
   * `prefix` just before its first element, so an empty iterable gets no
   * prefix at all.
   */
  method PrependToIterableIfHasItems<T>(iterable: seq<T>, prefix: seq<T>) returns (r: seq<T>)
    ensures |iterable| == 0 ==> r == []
    ensures |iterable| > 0 ==> |r| == |prefix| + |iterable|
    ensures |iterable| > 0 ==> r[..|prefix|] == prefix && r[|prefix|..] == iterable
  {
    var found := false;
    r := [];
    var i := 0;
    while i < |iterable|
      invariant 0 <= i <= |iterable|
      invariant found <==> i > 0
      invariant !found ==> r == []
      invariant found ==> r == prefix + iterable[..i]
    {
      if !found {
        r := r + prefix;
        found := true;
      }
      r := r + [iterable[i]];
      i := i + 1;
    }
    assert iterable[..|iterable|] == iterable;
  }

  /** The depth change of a single signal item. */
  lemma NetDepthSingle(x: Signal, open: Signal, close: Signal)
    requires open != close
    ensures NetDepth([Sig(x)], open, close) == (if x == open then 1 else if x == close then -1 else 0)
  {
    CountSingle(x, open);
    CountSingle(x, close);
  }

  /** A single signal item counts once for its own signal and never for another. */
  lemma CountSingle(x: Signal, s: Signal)
    ensures Count([Sig(x)], s) == if x == s then 1 else 0
  {
    var one := [Sig(x)];
    assert one[1..] == [];
    assert IsSignal(one[0], s) <==> x == s;
  }

  /** Depth is additive over concatenation. */
  lemma NetDepthAppend(a: seq<PrintItem>, b: seq<PrintItem>, open: Signal, close: Signal)
    ensures NetDepth(a + b, open, close) == NetDepth(a, open, close) + NetDepth(b, open, close)
  {
    CountAppend(a, b, open);
    CountAppend(a, b, close);
  }

  /**
   * Wrapping balanced items in a matching open/close pair, or in two
   * signals of another kind, keeps them balanced.
   */
  lemma WrapKeepsBalance(items: seq<PrintItem>, first: Signal, last: Signal, open: Signal, close: Signal)
    requires open != close
    requires Balanced(items, open, close)
    requires (first == open && last == close)
          || (first != open && first != close && last != open && last != close)
    ensures Balanced([Sig(first)] + items + [Sig(last)], open, close)
  {
    var head := [Sig(first)];
    var r := head + items + [Sig(last)];
    NetDepthSingle(first, open, close);
    NetDepthSingle(last, open, close);
    var lead := NetDepth(head, open, close);
    assert lead >= 0;
    NetDepthAppend(head + items, [Sig(last)], open, close);
    NetDepthAppend(head, items, open, close);
    forall k | 0 <= k <= |r|
      ensures NetDepth(r[..k], open, close) >= 0
    {
      if k == 0 {
        assert r[..k] == [];
      } else if k <= |items| + 1 {
        assert r[..k] == head + items[..k - 1];
        NetDepthAppend(head, items[..k - 1], open, close);
      } else {
        assert r[..k] == r;
      }
    }
  }

  /** `withIndent` keeps both indent nesting and newline-group nesting balanced. */
  lemma WithIndentBalanced(items: seq<PrintItem>)
    ensures IndentBalanced(items) ==> IndentBalanced(WithIndent(items))
    ensures GroupBalanced(items) ==> GroupBalanced(WithIndent(items))
    ensures NetDepth(WithIndent(items), StartIndent, FinishIndent) == NetDepth(items, StartIndent, FinishIndent)
  {
    if IndentBalanced(items) {
      WrapKeepsBalance(items, StartIndent, FinishIndent, StartIndent, FinishIndent);
    }
    if GroupBalanced(items) {
      WrapKeepsBalance(items, StartIndent, FinishIndent, StartNewlineGroup, FinishNewLineGroup);
    }
    CountAppend([Sig(StartIndent)] + items, [Sig(FinishIndent)], StartIndent);
    CountAppend([Sig(StartIndent)] + items, [Sig(FinishIndent)], FinishIndent);
    CountAppend([Sig(StartIndent)], items, StartIndent);
    CountAppend([Sig(StartIndent)], items, FinishIndent);
  }

  /** `newlineGroup` keeps both newline-group nesting and indent nesting balanced. */
  lemma NewlineGroupBalanced(items: seq<PrintItem>)
    ensures GroupBalanced(items) ==> GroupBalanced(NewlineGroup(items))
    ensures IndentBalanced(items) ==> IndentBalanced(NewlineGroup(items))
    ensures NetDepth(NewlineGroup(items), StartNewlineGroup, FinishNewLineGroup)
         == NetDepth(items, StartNewlineGroup, FinishNewLineGroup)
  {
    if GroupBalanced(items) {
      WrapKeepsBalance(items, StartNewlineGroup, FinishNewLineGroup, StartNewlineGroup, FinishNewLineGroup);
    }
    if IndentBalanced(items) {
      WrapKeepsBalance(items, StartNewlineGroup, FinishNewLineGroup, StartIndent, FinishIndent);
    }
    CountAppend([Sig(StartNewlineGroup)] + items, [Sig(FinishNewLineGroup)], StartNewlineGroup);
    CountAppend([Sig(StartNewlineGroup)] + items, [Sig(FinishNewLineGroup)], FinishNewLineGroup);
    CountAppend([Sig(StartNewlineGroup)], items, StartNewlineGroup);
    CountAppend([Sig(StartNewlineGroup)], items, FinishNewLineGroup);
  }

  /** `surroundWithNewLines` adds only text, so no signal count changes. */
  lemma {:induction false} SurroundWithNewLinesAddsNoSignals(items: seq<PrintItem>, newline: NewlineKind, s: Signal)
    ensures Count(SurroundWithNewLines(items, newline), s) == Count(items, s)
  {
    var t := [Text(newline.Text())];
    CountAppend(t + items, t, s);
    CountAppend(t, items, s);
  }
}
