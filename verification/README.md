# dprint print-item layer, modelled in Dafny

dprint formats TypeScript in two stages. A tree walker translates each
syntax node into a stream of *print items*: text, raw strings, signals
(newline, indent, newline-group markers and others), infos that mark
positions, and *conditions* that choose between two item lists once the
printer knows where things landed. The printer then lays the items out.

This project models the item-building layer of that walker:

- the reusable condition library (`conditions.ts`);
- the walker's sequence combinators (`withIndent`, `newlineGroup`,
  `surroundWithNewLines`, `prependToIterableIfHasItems`);
- the `Bag` side channel;
- comma placement in array-like nodes;
- template literals and the merge of their quasis and expressions;
- string-literal requoting;
- comment printing.

The modules follow the source:

| module | file | models |
|---|---|---|
| `Wrappers` | wrappers.dfy | `Option` |
| `PrintItems` | print_items.dfy | print items, signals, conditions, resolution context, signal counting and nesting |
| `Combinators` | combinators.dfy | `withIndent`, `newlineGroup`, `surroundWithNewLines`, `prependToIterableIfHasItems` |
| `Conditions` | conditions.dfy | the six condition factories of `conditions.ts` |
| `Bags` | bag.dfy | `Bag` |
| `ArrayLike` | array_like.dfy | `getForceTrailingCommas`, `parseArrayLikeNodes` |
| `ArrayMarks` | array_marks.dfy | where `parseArrayLikeNodes` puts its separators among the elements |
| `Templates` | templates.dfy | `parseTemplateLiteral`, `getItems` |
| `StringLiterals` | string_literals.dfy | `parseStringOrDirectiveLiteral` |
| `Comments` | comments.dfy | `parseComment`, `parseCommentBlock`, `parseCommentLine`, JavaScript's `trim` |

Modelling choices:

- Generators become sequences of items. `yield* x` becomes concatenation.
  `makeIterableRepeatable` and `RepeatableIterator` only make an iterable
  re-readable, so they are the identity on sequences.
- A condition is a record of a name, a predicate from a resolution context
  to `Option<bool>`, and optional true and false branches. The context
  holds the writer's position and the infos resolved so far. `None` stands
  for `undefined`.
- The condition resolvers `isHanging`, `isMultipleLines` and
  `isStartOfNewLine` are not part of this model. They are passed in as a
  `Resolvers` record of arbitrary functions. Every property holds whatever
  those functions answer.
- The walker's `parseNode` is also external. It is a function parameter
  wherever an element, a template part or an expression is translated.
- Source positions (`node.start`, `node.end`) and the raw text between
  them are passed in as values.
- `context.newlineKind` is a parameter: `\n` or `\r\n`.

## Model

| member | source | states |
|---|---|---|
| Conditions.NewlineIfHangingSpaceOtherwise | packages/core/src/parsing/conditions.ts:16-27 | The true branch is exactly `[NewLine]`. The false branch is exactly the space character, `" "` when omitted. The predicate equals `isHanging(ctx, startInfo, endInfo)` on every context, with an absent `endInfo` passed on as absent. |
| Conditions.NewlineIfHangingSpaceOtherwiseEmits | packages/core/src/parsing/conditions.ts:16-27 | Once resolved, the condition emits exactly one item: a newline iff the region hangs, otherwise the space character. Nothing is emitted while unresolved. |
| Conditions.NewlineIfMultipleLinesSpaceOrNewlineOtherwise | packages/core/src/parsing/conditions.ts:34-43 | The true branch is `[NewLine]` and the false branch is `[SpaceOrNewLine]`. The predicate is `isMultipleLines` with default `false`. It measures to `endInfo`, or to the current writer info when `endInfo` is absent. |
| Conditions.EndPointOf | packages/core/src/parsing/conditions.ts:39 | `endInfo \|\| conditionContext.writerInfo`: the info when given, else the writer's current position. |
| Conditions.NewlineIfMultipleLinesEmits | packages/core/src/parsing/conditions.ts:34-43 | Once resolved, the condition emits one item: a hard newline iff the region spans several lines, else a space-or-newline. |
| Conditions.SingleIndentIfStartOfLine | packages/core/src/parsing/conditions.ts:45-52 | The true branch is `[SingleIndent]`. There is no false branch. The predicate is `isStartOfNewLine`. |
| Conditions.SingleIndentIfStartOfLineEmits | packages/core/src/parsing/conditions.ts:45-52 | Away from the start of a line the condition emits the empty sequence; at the start it emits one single indent. |
| Conditions.IndentIfStartOfLine | packages/core/src/parsing/conditions.ts:54-66 | Exactly one condition item. Its false branch is the items themselves and its true branch is `withIndent` of those same items. It is decided by `isStartOfNewLine`. |
| Conditions.WithIndentIfStartOfLineIndented | packages/core/src/parsing/conditions.ts:68-82 | Same branch structure as `indentIfStartOfLine`. The predicate is always resolved, and it is true iff `lineStartIndentLevel > indentLevel`. |
| Conditions.IndentingBranchesShareItems | packages/core/src/parsing/conditions.ts:54-82 | Both indenting wrappers carry the identical item sequence in both branches. The true branch only adds one indent level, so balanced indentation stays balanced whichever branch is taken. |
| Conditions.ForceReevaluationOnceResolved | packages/core/src/parsing/conditions.ts:89-97 | No branches. The predicate is never true. It is unresolved iff the info is not yet resolved. |
| Conditions.ForceReevaluationIsMonotonic | packages/core/src/parsing/conditions.ts:89-97 | As more infos resolve, a settled `false` stays `false`, and the condition never emits an item. |
| Combinators.WithIndent | src/parsing/typescript/parser.ts:3125-3129 | `StartIndent`, then the items unchanged, then `FinishIndent`. |
| Combinators.WithIndentBalanced | src/parsing/typescript/parser.ts:3125-3129 | Keeps indent nesting and newline-group nesting balanced, and leaves the net indent depth unchanged. |
| Combinators.NewlineGroup | src/parsing/typescript/parser.ts:3131-3135 | `StartNewlineGroup`, then the items unchanged, then `FinishNewLineGroup`. |
| Combinators.NewlineGroupBalanced | src/parsing/typescript/parser.ts:3131-3135 | Keeps group nesting and indent nesting balanced, and leaves the net group depth unchanged. |
| Combinators.WrapKeepsBalance | src/parsing/typescript/parser.ts:3125-3135 | A matching open/close pair, or two signals of another kind, around balanced items leaves them balanced: depth never drops below zero and ends at zero. |
| Combinators.SurroundWithNewLines | src/parsing/typescript/parser.ts:3089-3093 | The newline text before and after the unchanged items. |
| Combinators.SurroundWithNewLinesAddsNoSignals | src/parsing/typescript/parser.ts:3089-3093 | The count of every signal is unchanged. |
| Combinators.PrependToIterableIfHasItems | src/parsing/typescript/parser.ts:3137-3146 | An empty iterable yields nothing. A non-empty one yields the prefix once, followed by every element in order. |
| Bags.Put | src/parsing/typescript/parser.ts:12-14 | The key maps to the new value afterwards, and every other key keeps its value. |
| Bags.Peek | src/parsing/typescript/parser.ts:22-24 | A value iff the key is stored, and then the stored value. |
| Bags.Take | src/parsing/typescript/parser.ts:16-20 | Returns what `peek` would, and removes exactly that key. |
| Bags.TakeRemoves | src/parsing/typescript/parser.ts:16-24 | After a take, neither `peek` nor a second `take` finds the key. |
| Bags.TakeAfterPut | src/parsing/typescript/parser.ts:12-20 | Taking a key just put returns the put value and leaves the bag without the key. |
| Bags.PutOverwrites | src/parsing/typescript/parser.ts:12-24 | A second put of a key replaces the first. |
| Bags.OtherKeysUnaffected | src/parsing/typescript/parser.ts:10-25 | Putting or taking one key is invisible through any other key. |
| ArrayLike.GetForceTrailingCommas | src/parsing/typescript/parser.ts:3209-3222 | `Always` gives true, `Never` gives false, and `OnlyMultiLine` gives `useNewlines`. |
| ArrayLike.ForceTrailingCommasMonotonic | src/parsing/typescript/parser.ts:3209-3222 | Spreading over lines never removes a forced trailing comma. Only `OnlyMultiLine` depends on the layout. |
| ArrayLike.HasComma | src/parsing/typescript/parser.ts:2763 | Every element but the last has a comma. The last has one iff trailing commas are forced. |
| ArrayLike.ElementItems | src/parsing/typescript/parser.ts:2770-2785 | The element's items, then `","` iff `hasComma`. A hole is exactly `[","]` with a comma and `[]` without. |
| ArrayLike.AsWrittenCommaInsideParentheses | src/parsing/typescript/parser.ts:323-335 | For a parenthesised element that takes a comma, the walker prints the comma just before the closing parenthesis. |
| ArrayLike.CorrectedCommaAfterParentheses | src/parsing/typescript/parser.ts:2770-2785 | The corrected element ends with `","` iff it has a comma, and removing that comma leaves the element without one. The parenthesised node is intact, `(` items `)`, before the comma. Without parentheses it equals what the walker builds. |
| ArrayLike.ParseArrayLikeNodes | src/parsing/typescript/parser.ts:2742-2752 | Output opens with `"["` and closes with `"]"`. With no elements it is exactly `["[", "]"]`. |
| ArrayLike.ElementRunConds | src/parsing/typescript/parser.ts:2758-2767 | The loop emits one condition per element, in order: element `i`'s `indentIfStartOfLine` condition, with its name and both branches. |
| ArrayLike.ArrayCommaPlacement | src/parsing/typescript/parser.ts:2742-2787 | The node holds one `indentIfStartOfLine` condition per element, in order. Element `i`'s items are followed by `","` iff it is not the last or trailing commas are forced. Both branches carry them: the false branch as they are, and the true branch, taken when the element starts a line, inside `withIndent`. Holes get only the comma. |
| ArrayLike.ArraySeparators | src/parsing/typescript/parser.ts:2754-2767 | On one line the node holds `n - 1` space-or-newline signals in all. Spread over lines, or with no elements, it holds none. |
| ArrayMarks.ArraySeparatorPositions | src/parsing/typescript/parser.ts:2754-2767 | On one line the top-level space-or-newlines and element conditions alternate element, separator, …, element. So there is one separator between each pair of neighbours and none before the first or after the last. Spread over lines there are only the element conditions. |
| Templates.Merge | src/parsing/typescript/parser.ts:2090-2124 | Output length is the sum of the two list lengths. |
| Templates.MergeKeepsBoth | src/parsing/typescript/parser.ts:2090-2124 | Filtering the output back gives exactly the quasis and exactly the expressions. So every one is yielded once, and each list keeps its relative order. |
| Templates.MergeMembers | src/parsing/typescript/parser.ts:2090-2124 | Every yielded part is one of the quasis or one of the expressions. |
| Templates.MergeSorted | src/parsing/typescript/parser.ts:2090-2124 | When both lists are in start order, the output is in start order. |
| Templates.GetItems | src/parsing/typescript/parser.ts:2090-2124 | The two-index loop yields the merge: all quasis and all expressions, each list in its own order. |
| Templates.ExpressionSegment | src/parsing/typescript/parser.ts:2074-2083 | An expression is wrapped as `"${"`, `FinishIgnoringIndent`, …, `"}"`, `StartIgnoringIndent`, with the expression's own items unchanged in the middle. |
| Templates.ParseTemplateLiteral | src/parsing/typescript/parser.ts:2067-2089 | One newline group that opens with a backtick and `StartIgnoringIndent` and closes with a backtick and `FinishIgnoringIndent`. Between them are the items of the parts in `getItems` merge order. |
| Templates.PartsItemsSplit | src/parsing/typescript/parser.ts:2071-2085 | The loop's output splits around any part `k`: the items of the parts before it, part `k`'s items, then the items of the parts after it. |
| Templates.TemplatePrintsEveryPart | src/parsing/typescript/parser.ts:2067-2089 | Every quasi is printed as its own items at its merged place between the backticks. Every expression is printed there inside its `${…}` segment, so it is bracketed by `FinishIgnoringIndent` … `StartIgnoringIndent`. |
| Templates.QuasiPrinted | src/parsing/typescript/parser.ts:2071-2073 | Quasi `j` sits at some index of the merged parts, and its own items are printed in that place. |
| Templates.ExprPrinted | src/parsing/typescript/parser.ts:2074-2083 | Expression `j` sits at some index of the merged parts, and its `${…}` segment is printed in that place. |
| Templates.TemplateIgnoringAlternates | src/parsing/typescript/parser.ts:2068-2088 | Suppose quasis emit no ignoring signals and each expression's items alternate properly. Then the whole literal's ignoring signals strictly alternate, starting with Start and ending outside ignoring mode. |
| StringLiterals.RequoteAsWrittenShape | src/parsing/typescript/parser.ts:2032-2049 | The original replacements: the result begins and ends with the configured quote, and every configured quote inside follows a backslash. A body with neither quote character is copied verbatim. |
| StringLiterals.AsWrittenBreaksEscapedQuote | src/parsing/typescript/parser.ts:2032-2049 | For `"it\'s"` with single quotes, the original replacements give a literal that ends early: its body holds a bare `'`. |
| StringLiterals.CorrectedOnEscapedQuote | src/parsing/typescript/parser.ts:2032-2049 | On the same input, the corrected definition gives `'it\'s'`, which is well formed. |
| StringLiterals.RequoteStringLiteral | src/parsing/typescript/parser.ts:2026-2051 | The result begins and ends with the configured quote. |
| StringLiterals.ParseStringOrDirectiveLiteral | src/parsing/typescript/parser.ts:2026-2049 | What the walker yields: one raw-string item with the configured quote at both ends. Every configured quote inside follows a backslash. A body with neither quote character is copied verbatim. |
| StringLiterals.ParseStringLiteralCorrected | src/parsing/typescript/parser.ts:2026-2051 | The corrected item: one raw-string item holding a well-formed literal in the configured quote. Read escape by escape, it has the same string value as the source body. |
| StringLiterals.RequoteStringLiteralCorrect | src/parsing/typescript/parser.ts:2026-2051 | Read escape by escape, the new body holds no bare configured quote, and it denotes the same string value as the original body. |
| StringLiterals.RequoteStringLiteralEscapesQuotes | src/parsing/typescript/parser.ts:2034-2038 | Every configured quote inside the result follows a backslash. |
| StringLiterals.RequoteStringLiteralVerbatim | src/parsing/typescript/parser.ts:2026-2051 | A body with neither quote character is copied verbatim between the configured quotes. |
| StringLiterals.RequoteAgreesWithoutBackslashes | src/parsing/typescript/parser.ts:2032-2049 | On bodies without backslashes, the corrected and the original definitions give the same text. |
| Comments.Trim | src/parsing/typescript/parser.ts:2979 | JavaScript `trim`: no whitespace at either end of the result. |
| Comments.TrimDecomposes | src/parsing/typescript/parser.ts:2979 | `trim` removes a whitespace run at each end and nothing else. |
| Comments.TrimIdempotent | src/parsing/typescript/parser.ts:2979-2981 | Trimming twice equals trimming once, so the second `trim` of a non-triple-slash value changes nothing. |
| Comments.CommentBlockItems | src/parsing/typescript/parser.ts:2969-2976 | `"/*"`, the comment's text verbatim as a raw string, then `"*/"`. |
| Comments.CommentLineItems | src/parsing/typescript/parser.ts:2978-2990 | Two or three items: the prefix `//` or `///` first, `ExpectNewLine` last. |
| Comments.CommentLineShape | src/parsing/typescript/parser.ts:2978-2990 | The prefix is `///` iff the trimmed value starts with `/`, i.e. iff its first visible character is `/`. `" " + content` appears iff the content is non-empty. The content is the trimmed value when not triple-slash. A blank comment prints `//` alone. |
| Comments.CommentLineIdempotent | src/parsing/typescript/parser.ts:2978-2990 | Re-reading a printed line comment prints the same items again. |
| Comments.CommentItems | src/parsing/typescript/parser.ts:2958-2966 | Dispatches on the comment kind: a block comment gets the block items, a line comment gets the line items. |
| Comments.ParseComment | src/parsing/typescript/parser.ts:2952-2967 | A comment already handled yields nothing. Otherwise it yields its items and is added to the handled set. The handled set afterwards is always the old set plus this comment. |
| Comments.ParseCommentsOnce | src/parsing/typescript/parser.ts:2952-2956 | Parsing a run of comments a second time yields nothing and handles nothing new, so no comment is ever printed twice. |

## Left out

- The babel node dispatch and the per-node translations other than the
  ones above are not modelled. They map an external syntax tree node by
  node.
- Token scanning, `nodeHelpers` and `infoChecks` are not part of this
  model. In particular, `useNewlines` of an array-like node is a
  parameter and is not computed from token positions.
- Logging through `console` is I/O and is left out.
- The walker's parent-stack bookkeeping in `parseNode` is left out.
- The printer, the condition resolvers' internals, `RepeatableIterator`
  and `makeIterableRepeatable` are not part of this model.
- Newline-kind detection and configuration resolution are not part of
  this model.
- Comment attachment is left out. In the walker, the comma after an
  array element is added inside `parseNode`'s `innerParse` hook, before
  the element's trailing comments. Here `parseNode` is a parameter, so the
  comma follows its whole output.
- Parentheses around an element are left out of `ArrayLike.ParseArrayLikeNodes`.
  `parseNode` wraps the `innerParse` output, the element plus its comma, in
  `surroundWithParentheses` (parser.ts:323-335). So for a parenthesised
  element the walker prints the comma inside the parentheses.
  `ParseArrayLikeNodes` puts the comma after the element's whole output,
  which is the corrected placement (see "## Findings").
  `nodeHelpers.hasParentheses` is not part of this model. Whether an element
  has parentheses is a parameter of `ArrayLike.ElementNodeAsWritten`.
- ArrayLike.ArrayCommaPlacement: states each element condition's name and
  both branches, not its resolver, because a resolver is a function and the
  conditions are compared through an equality-free view. That the
  condition resolves by `isStartOfNewLine` is stated once, by
  `Conditions.IndentIfStartOfLine`.
- Comments.ParseComment: adds the comment to the handled set when it is
  called. In the walker `parseComment` is a generator (parser.ts:2952-2956),
  so its `handledComments.has`/`add` run only when the iterator is first
  advanced. A comment inside a condition branch the printer never enters
  is therefore never marked handled there. The model has no lazy
  evaluation, so it does not model that timing.
- `parseCommentCollection`, which decides the separators between
  comments, is left out. Only `parseComment`'s handled-set rule is
  modelled. `Comments.ParseComments` threads that set through a run.
- The walker's own copies of `indentIfStartOfLine` and
  `withIndentIfStartOfLineIndented` (parser.ts:3095-3123) are modelled
  once, in `Conditions`. They differ from the ones in `conditions.ts`
  (lines 54-82) only in the adapter that makes the items re-readable:
  `new RepeatableIterator(item)` over iterators against
  `makeIterableRepeatable(item)` over iterables. Both adapters are the
  identity on sequences, so the two copies are equivalent here.
- `conditions.ts` takes `withIndent` from `parserHelpers`, which is not
  part of this model. It is assumed to be the walker's `withIndent`
  (parser.ts:3125-3129), modelled as `Combinators.WithIndent`.
- The walker calls an older positional signature of the condition
  factories. The options-object signatures of `conditions.ts` are
  modelled.
- `Comments.IsWhitespace` covers the whitespace and line-terminator
  characters of current ECMAScript. U+180E, which older engines treated
  as a space, is not included.
- The unreachable `default` branch of `parseComment` (`assertNever`) is
  not modelled, because the comment kind is a two-valued datatype.
- `Templates.Merge` states only its length in its own contract. Its
  other properties are the lemmas `MergeKeepsBoth`, `MergeMembers` and
  `MergeSorted`.

## Findings

| source | as written | input that shows it | evidently intended | confidence | as-written member | corrected member |
|---|---|---|---|---|---|---|
| src/parsing/typescript/parser.ts:2032-2049 | The first step replaces backslash + source quote by the bare quote. The second puts a backslash before every configured quote. Neither step reads escapes, so an escaped quote of the other kind gets a second backslash. | The double-quoted literal `"it\'s"` with single quotes configured gives `'it\\'s'`. Its body `it\\` ends at the next `'`, leaving `s'` outside the literal. | Each quote needs exactly one escape: `'it\'s'`, with the same string value. | high; not executed | StringLiterals.RequoteAsWritten and StringLiterals.ParseStringOrDirectiveLiteral, with StringLiterals.AsWrittenBreaksEscapedQuote | StringLiterals.RequoteStringLiteral and StringLiterals.ParseStringLiteralCorrected, with StringLiterals.RequoteStringLiteralCorrect and StringLiterals.CorrectedOnEscapedQuote |
| src/parsing/typescript/parser.ts:323-335 | `parseElement` appends the comma in the `innerParse` hook. `parseNode` then wraps the hook's output in `surroundWithParentheses` when the element has parentheses, so the comma lands inside them. | The array `[(a), b]`, whose first element is parenthesised, prints as `[(a,), b]`, which is not valid JavaScript. | The comma follows the closing parenthesis: `[(a), b]`. | medium (`nodeHelpers.hasParentheses` is not part of this model); not executed | ArrayLike.ElementNodeAsWritten, with ArrayLike.AsWrittenCommaInsideParentheses | ArrayLike.ElementNodeCorrected, with ArrayLike.CorrectedCommaAfterParentheses |

`StringLiterals.RequoteStringLiteral` reads the body as a sequence of
plain characters and backslash escapes. It escapes each bare configured
quote. It drops the backslash of an escaped source quote only when that
quote is not the configured one. It keeps every other escape. On bodies
without backslashes it agrees with the original
(`RequoteAgreesWithoutBackslashes`).
