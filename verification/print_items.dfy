/**
 * The print item intermediate representation: literal text, raw strings that
 * no text transform may touch, payload-free layout signals, positional info
 * markers and conditions whose branches are chosen once the printer can
 * answer their predicate.
 *
 * Lazily produced iterables are modelled as immutable sequences, so a
 * sequence shared by both branches of a condition is trivially repeatable.
 */
module PrintItems {
  import opened Wrappers

  /** The layout signals of the IR. */
  datatype Signal =
    | NewLine
    | SpaceOrNewLine
    | ExpectNewLine
    | StartIndent
    | FinishIndent
    | SingleIndent
    | StartNewlineGroup
    | FinishNewLineGroup
    | StartIgnoringIndent
    | FinishIgnoringIndent

  /** A snapshot of the writer's position, as an info resolves to. */
  datatype WriterInfo = WriterInfo(
    lineNumber: nat,
    columnNumber: nat,
    indentLevel: nat,
    lineStartIndentLevel: nat)

  /** An info marker; infos are told apart by their identity `id` alone. */
  datatype InfoRef = InfoRef(id: nat, name: string)

  /**
   * What a condition's predicate may look at: the writer's current position
   * and the infos resolved so far, keyed by identity.
   */
  datatype ResolutionContext = ResolutionContext(
    writerInfo: WriterInfo,
    resolvedInfos: map<nat, WriterInfo>)

  /** The context's answer to `getResolvedInfo`: None while unresolved. */
  function GetResolvedInfo(ctx: ResolutionContext, info: InfoRef): (r: Option<WriterInfo>)
    ensures r.Some? <==> info.id in ctx.resolvedInfos
    ensures r.Some? ==> r.value == ctx.resolvedInfos[info.id]
  {
    if info.id in ctx.resolvedInfos then Some(ctx.resolvedInfos[info.id]) else None
  }

  /** `resolve` answers Some(true), Some(false), or None for "not yet known". */
  datatype Condition = Condition(
    name: string,
    resolve: ResolutionContext -> Option<bool>,
    onTrue: Option<seq<PrintItem>>,
    onFalse: Option<seq<PrintItem>>)

  datatype PrintItem =
    | Text(text: string)
    | RawString(raw: string)
    | Sig(signal: Signal)
    | Info(info: InfoRef)
    | Cond(condition: Condition)

  /** The newline text the walker emits as a plain text item. */
  datatype NewlineKind = LF | CRLF {
    function Text(): string {
      match this
      case LF => "\n"
      case CRLF => "\r\n"
    }
  }

  /**
   * The items a condition contributes once it has resolved to `value`: the
   * matching branch, or nothing when that branch is absent.
   */
  function Branch(c: Condition, value: bool): seq<PrintItem> {
    if value then c.onTrue.GetOr([]) else c.onFalse.GetOr([])
  }

  predicate IsSignal(item: PrintItem, s: Signal) {
    item.Sig? && item.signal == s
  }

  /** Number of top-level occurrences of signal `s` in `items`. */
  function Count(items: seq<PrintItem>, s: Signal): nat {
    if |items| == 0 then 0
    else (if IsSignal(items[0], s) then 1 else 0) + Count(items[1..], s)
  }

  lemma {:induction false} CountAppend(a: seq<PrintItem>, b: seq<PrintItem>, s: Signal)
    ensures Count(a + b, s) == Count(a, s) + Count(b, s)
  {
    if |a| == 0 {
      assert a + b == b;
    } else {
      assert (a + b)[1..] == a[1..] + b;
      CountAppend(a[1..], b, s);
    }
  }

  /** Opening signals minus closing signals of one nesting kind. */
  function NetDepth(items: seq<PrintItem>, open: Signal, close: Signal): int {
    Count(items, open) - Count(items, close)
  }

  /**
   * `open`/`close` signals nest properly: no prefix closes more than it has
   * opened, and the whole sequence closes everything it opens.
   */
  ghost predicate Balanced(items: seq<PrintItem>, open: Signal, close: Signal) {
    && NetDepth(items, open, close) == 0
    && forall k :: 0 <= k <= |items| ==> NetDepth(items[..k], open, close) >= 0
  }

  ghost predicate IndentBalanced(items: seq<PrintItem>) {
    Balanced(items, StartIndent, FinishIndent)
  }

  ghost predicate GroupBalanced(items: seq<PrintItem>) {
    Balanced(items, StartNewlineGroup, FinishNewLineGroup)
  }

  /**
   * Walks the top-level ignoring-indent signals starting in state
   * `ignoring`: a Start while already ignoring, or a Finish while not,
   * breaks strict alternation and yields None; otherwise the final state.
   */
  function IgnoringWalk(items: seq<PrintItem>, ignoring: bool): Option<bool> {
    if |items| == 0 then Some(ignoring)
    else if IsSignal(items[0], StartIgnoringIndent) then
      (if ignoring then None else IgnoringWalk(items[1..], true))
    else if IsSignal(items[0], FinishIgnoringIndent) then
      (if ignoring then IgnoringWalk(items[1..], false) else None)
    else IgnoringWalk(items[1..], ignoring)
  }

  lemma {:induction false} IgnoringWalkAppend(a: seq<PrintItem>, b: seq<PrintItem>, ignoring: bool)
    ensures IgnoringWalk(a + b, ignoring) ==
      (match IgnoringWalk(a, ignoring)
       case None => None
       case Some(mid) => IgnoringWalk(b, mid))
  {
    if |a| == 0 {
      assert a + b == b;
    } else {
      assert (a + b)[1..] == a[1..] + b;
      assert (a + b)[0] == a[0];
      if IsSignal(a[0], StartIgnoringIndent) {
        if !ignoring { IgnoringWalkAppend(a[1..], b, true); }
      } else if IsSignal(a[0], FinishIgnoringIndent) {
        if ignoring { IgnoringWalkAppend(a[1..], b, false); }
      } else {
        IgnoringWalkAppend(a[1..], b, ignoring);
      }
    }
  }

  /** No top-level ignoring-indent signal at all. */
  predicate NoIgnoringSignals(items: seq<PrintItem>) {
    forall i :: 0 <= i < |items| ==>
      !IsSignal(items[i], StartIgnoringIndent) && !IsSignal(items[i], FinishIgnoringIndent)
  }

  /** Items free of ignoring-indent signals leave the walk's state unchanged. */
  lemma {:induction false} IgnoringWalkNoSignals(items: seq<PrintItem>, ignoring: bool)
    requires NoIgnoringSignals(items)
    ensures IgnoringWalk(items, ignoring) == Some(ignoring)
  {
    if |items| > 0 {
      assert NoIgnoringSignals(items[1..]) by {
        forall i | 0 <= i < |items[1..]|
          ensures !IsSignal(items[1..][i], StartIgnoringIndent)
          ensures !IsSignal(items[1..][i], FinishIgnoringIndent)
        {
          assert items[1..][i] == items[i + 1];
        }
      }
      IgnoringWalkNoSignals(items[1..], ignoring);
    }
  }
}
