# rust_calculator: the expression parser in Dafny

`rust_calculator` reads an infix arithmetic expression and prints its value.
Its core is `src/expression.rs`, which has these parts:

- `locate_parenthesis` finds the top-level `(`…`)` groups of a string by
  counting depth.
- `find_minimum_priority_token` scans the string once, left to right. It
  skips whitespace and whatever lies inside the current group. It keeps a
  running `(index, priority)` best and returns the index to split at, or
  `usize::MAX` when there is none.
- `Expression::from_str` trims the string, runs the two functions above,
  and dispatches on the character at the split index:
  - a `-` at index 0 gives a unary negation;
  - `+ - * / ^` gives a binary node of the two slices beside it;
  - `(` gives a parenthesis node of the string without its first and last
    characters;
  - anything else is a number literal.
- `TryFrom<char> for BinaryOperator` maps a character to an operator.

The project models these parts as follows:

- `Parentheses` models `locate_parenthesis`. `LocateParenthesis` is a
  method with the source's `for` loop.
- `Priority` models `find_minimum_priority_token`. `FindMinimumPriorityToken`
  is a method with the source's loop.
- Each loop is proved equal to a fold over the input: `LocateAfter` and
  `ScanAfter`, one step per character. The properties of the scan are
  proved about the fold, as invariants preserved step by step.
- `Text` models the `trim_matches` call.
- `Expressions` holds the tree datatypes, `try_from` and `from_str`.
  `Parse` and `ParseAt` are mutually recursive functions, like the
  source's recursion through `from_str`.
  - The leaf parser `str::parse::<f64>` is a parameter
    `number: string -> Option<N>`.
  - The `color_eyre` reports become the cases of `ParseError`.
  - For every node kind there is a lemma in each direction. `Parse…` says
    what a successful parse implies about the input. `Build…` says what
    makes the parse succeed.
- `Examples` proves what the scan and `Parse` give on small inputs. Most
  of them are built from arbitrary decimal digits, and a one-digit parser
  stands in for the float parser.

Strings are ASCII, so a byte offset and a character index are the same
number.

### Where the code differs from the usual reading of an infix calculator

The model follows the code as written. An infix calculator is expected to
give `2+3*4 = 14`, `-5^2 = -25` and `2*3^2 = 18`. The code does not do
this, for the following reasons.

- At `src/expression.rs:158-161` every update that is not a negation
  stores the constant priority 6, not the token's own priority. Any later
  binary operator therefore replaces the current best (a later negation
  marker does not, because `4 > 4` fails at :154), so the priority table at
  :141-145 hardly matters.
- No binary operator the scan looks at lies after the split
  (`RightmostBinaryOperator`). The split is that operator unless a
  negation marker or a `(` follows it (`NegationMarkerHolds`,
  `ParenthesisReplaces`): `a*-b` splits at the `-` (`ScanNegatedOperand`)
  and `(a)+(b)` at the second `(` (`ScanGroupSum`).
  - `2+3*4` parses as `(2+3)*4` (`ParseLeftToRight`).
  - `-5^2` parses as `(-5)^2` (`ParseNegatedPower`).
  - `1-2-3` parses as `(1-2)-3` (`ParseDifferences`), as intended.
- A `(` also replaces its predecessor, unless a negation marker is stored
  (`ParenthesisReplaces`). The parenthesis branch then drops
  the first and last characters, whatever they are, rather than using the
  located span.
  - `5(7)8` parses to `((7))` (`ParseJuxtaposed`).
  - `(12` parses to `(1)` (`ParseOpenPair`): an unclosed `(` opens no
    group, wins the scan, and is dropped together with the last digit.
  - `(1)+(2)` fails (`ParseGroupSum`). It reaches the error through
    `1)+(2`, `)+(` and `+`.
  - So a `(` wins even when it is not the only top-level token.
- "Index out of range" is not unreachable. It is how the code rejects:
  - empty input (`ParseEmpty`, `ParseBlank`);
  - a missing operand (`ParseDanglingOperator`);
  - `2*-3` (`ParseNegatedOperand`); the `-` after `*` is a negation marker
    and wins the scan, but `from_str` splits on it as a binary operator;
  - an unclosed `(` in shapes such as `(a+b` (`ParseUnclosed`) or `(a`
    (`ParseUnclosedOperand`), though not in every shape (`(12` above).
- The scan moves on to the next group at every `)` it looks at, a stray
  one included (src/expression.rs:150). After a stray `)` before a group
  the scan therefore looks inside that group: `)((a+b))` has the single
  top-level group `(2, 6)` and still splits at the `+` at index 4
  (`ScanEarlyAdvance`). In general the split index is only known not to
  lie inside the group the span iterator is at when the scan reads it.
  When no prefix holds more `)` than `(`, the scan looks at exactly the
  characters that are not blank and lie strictly inside no top-level group
  (`CountedOutsideGroups`).
- Every call trims again, including the recursive ones. The scan itself
  skips space, line feed and carriage return, but not tab.

## Model

| member | source | states |
|---|---|---|
| Text.SkipLeading | src/expression.rs:40 | the first index at or after `a` that is not a trim character (or the end); everything skipped is a trim character |
| Text.SkipTrailing | src/expression.rs:40 | one past the last index before `b` that is not a trim character (or `a`); everything skipped is a trim character |
| Text.Trim | src/expression.rs:40 | the trimmed string is no longer than the input and neither starts nor ends with space, line feed, carriage return or tab |
| Text.TrimSlice | src/expression.rs:40 | the trimmed string is a slice `s[a..b]` of the input, with only trim characters before `a` and after `b` |
| Text.TrimSurrounded | src/expression.rs:40 | trim characters added on either side do not change the result |
| Text.TrimKeeps | src/expression.rs:40 | a string that neither starts nor ends with a trim character is its own trim |
| Text.TrimIdempotent | src/expression.rs:40 | trimming twice is trimming once, so the re-trim of every recursive call only matters for the slices |
| Parentheses.LocateStep | src/expression.rs:100-113 | one turn of the `for` loop: a `(` opens a group at depth 0 and deepens, a `)` pushes the pair at depth 1 and becomes shallower, other characters change nothing; its meaning is stated by `LocateStepInvariant` and `LocateAfterInvariant` |
| Parentheses.LocateAfter | src/expression.rs:96-114 | the loop's state after a prefix, one `LocateStep` per character; its contract is `LocateAfterInvariant`, and `LocateParenthesis` is proved equal to it |
| Parentheses.Locate | src/expression.rs:95-117 | what `locate_parenthesis` returns, the pairs of `LocateAfter` over the whole string; its contract is `LocateSpans`, `SpanShape` and `SpanContents` |
| Parentheses.LocateParenthesis | src/expression.rs:95-117 | the loop returns the fold `Locate(s)`; a pair is returned exactly when it is a top-level group (opened at depth 0, closed at depth 1, depth at least 1 in between); the pairs are in increasing order |
| Parentheses.DepthAppend | src/expression.rs:100-113 | the depth counter is additive over concatenation |
| Parentheses.LocateAfterInvariant | src/expression.rs:100-113 | after each prefix: the depth is opened minus closed parentheses, an open group started at `current`, and the pairs pushed are exactly the top-level groups closed so far, in order |
| Parentheses.LocateSpans | src/expression.rs:95-117 | the pairs are exactly the top-level groups, in both directions, and in increasing order; an unclosed `(` or a stray `)` belongs to no pair |
| Parentheses.SpanShape | src/expression.rs:100-113 | every pair is `(a, b)` with `a < b`, `b` inside the string, `s[a] == '('`, `s[b] == ')'`, and it ends before the next pair starts |
| Parentheses.OrderedApart | src/expression.rs:100-113 | any earlier pair ends before any later pair starts, not only neighbouring ones |
| Parentheses.SpanContents | src/expression.rs:100-113 | inside a pair the depth stays at 1 or more up to `b`, and the text strictly between the parentheses is balanced |
| Priority.IsNegation | src/expression.rs:131-137 | a `-` at index 0, or a `-` whose nearest earlier character that is not ASCII whitespace is an operator; what this means for the result is stated by `NegationMarkerHolds`, and its search by `LastNonWhitespace` |
| Priority.TokenPriority | src/expression.rs:139-147 | the priority table: `(` 5, negation marker 4, `^` 3, `*` and `/` 2, `+` and `-` 1, anything else 255; its effect on the result is stated by `ScanAfterInvariant` and the lemmas after it |
| Priority.ScanStep | src/expression.rs:125-163 | one turn of the scan: skip inside the current group or on blank, advance the group on `)`, store a negation marker only over a larger priority, otherwise store `(i, 6)` over a larger or equal one; its meaning is stated by the step lemmas of `ScanAfterInvariant` |
| Priority.ScanAfter | src/expression.rs:120-164 | the scan's state after a prefix, one `ScanStep` per character; its contract is `ScanAfterInvariant`, and `FindMinimumPriorityToken` is proved equal to it |
| Priority.MinimumPriorityIndex | src/expression.rs:119-167 | what `find_minimum_priority_token` returns; its contract is `MinimumPriorityIndexValid`, `Sentinel`, `RightmostBinaryOperator`, `NegationMarkerHolds`, `ParenthesisReplaces` and `SplitCharChosen` |
| Priority.LastNonWhitespace | src/expression.rs:133-136 | `None` exactly when every character is ASCII whitespace; otherwise the rightmost character that is not |
| Priority.FindMinimumPriorityToken | src/expression.rs:119-167 | the loop returns the fold `MinimumPriorityIndex`; the result is `usize::MAX` or the index of a character the scan looks at that is not `)` |
| Priority.ScanAfterInvariant | src/expression.rs:124-164 | after each prefix: the stored priority is 255, 6 or 4; the best is a candidate read so far and is a negation marker exactly when 4 is stored; it is at or after every binary operator read; a negation marker with no later binary operator holds it; once an operator or `(` is read the best is one too; it is at or after every `(` read when each negation marker before that `(` has a binary operator after it |
| Priority.CursorAfter | src/expression.rs:120-150 | with no stray `)`, the span iterator after each prefix has passed exactly the pairs that end before it |
| Priority.CountedOutsideGroups | src/expression.rs:120-150 | with no stray `)`, the scan looks at an index exactly when it is not blank and lies strictly inside no top-level group (as `LocateSpans` characterises them), in both directions |
| Priority.MinimumPriorityIndexValid | src/expression.rs:123-166 | the result is `usize::MAX` or an index inside the string, outside the current group, not blank and not `)` |
| Priority.Sentinel | src/expression.rs:123-166 | the result is `usize::MAX` exactly when every character the scan looks at is `)` |
| Priority.RightmostBinaryOperator | src/expression.rs:139-161 | every binary operator the scan looks at lies at or before the result, and none lies after it |
| Priority.NegationMarkerHolds | src/expression.rs:131-156 | once a negation marker is read with no binary operator after it, the result is a negation marker at or before it: a later negation, `(` or digit never replaces it |
| Priority.ParenthesisReplaces | src/expression.rs:139-161 | a `(` the scan looks at, with a binary operator after every negation marker before it, lies at or before the result, and the result is an operator or `(` |
| Priority.SplitCharChosen | src/expression.rs:139-161 | when the scan looks at any operator or `(`, the result is an operator or `(` |
| Expressions.BinaryOperator | src/expression.rs:71-78 | the five operators; `OperatorChar` and `OperatorFromChar` relate them to their characters |
| Expressions.Expression | src/expression.rs:8-14 | the tree: binary node (the fields of `BinaryOperationExpr`, :64-69), negation, parenthesis, number leaf; `Size` counts its nodes for `ParseSizeBound` |
| Expressions.ParseError | src/expression.rs:47 | the reports of `from_str`: `Index out of range` (:47), `Invalid operator` (:54, :90), the float parser's error with its text (:59), and the panic of the slice `1..0` (:58) |
| Expressions.OperatorChar | src/expression.rs:85-89 | the character of each operator; it is the inverse of `OperatorFromChar` (`OperatorRoundTrip`) |
| Expressions.OperatorFromChar | src/expression.rs:80-92 | succeeds exactly on `+ - * / ^`, with the operator written by that character; every other character gives `Invalid operator` |
| Expressions.OperatorRoundTrip | src/expression.rs:80-92 | every operator is recovered from its character |
| Expressions.SplitIndex | src/expression.rs:41-43 | the scan's index over the groups of the trimmed string; the lemmas of `MinimumPriorityIndex` state what it is |
| Expressions.Parse | src/expression.rs:37-62 | `from_str`: trim, split, dispatch; its contract is the `Parse…` and `Build…` lemmas for each node kind, `ParseEmpty`, `ParseNothingToSplit`, `ParseNeverInvalidOperator`, `ParseSizeBound` and `ParseIgnoresSurroundingWhitespace` |
| Expressions.ParseAt | src/expression.rs:44-60 | the dispatch on the character at the split index, with the `?` of each recursive call written as an error test; its contract is the `Dispatch…` and `…Fails` lemmas |
| Expressions.ParseNeverInvalidOperator | src/expression.rs:53-54 | no parse fails with `Invalid operator`: the conversion is only applied to one of the five characters |
| Expressions.DispatchNeverInvalidOperator | src/expression.rs:49-60 | the dispatch at any index never fails with `Invalid operator` |
| Expressions.ParseSizeBound | src/expression.rs:37-62 | a parsed tree has no more nodes than the trimmed input has characters |
| Expressions.DispatchSizeBound | src/expression.rs:49-60 | the dispatch at any index builds a tree no larger than its input |
| Expressions.ParseIgnoresSurroundingWhitespace | src/expression.rs:40 | spaces, line feeds, carriage returns and tabs around the input do not change the result |
| Expressions.ParseEmpty | src/expression.rs:44-47 | an empty or all-trim-character input fails with `Index out of range` |
| Expressions.ParseNothingToSplit | src/expression.rs:43-47 | when the scan finds nothing but `)` to look at, the parse fails with `Index out of range` |
| Expressions.DispatchBinary | src/expression.rs:53-57 | a binary node comes from its operator's character at an index `i` inside the string with `i > 0`, with the two slices beside it parsing to its children |
| Expressions.ParseBinaryOperation | src/expression.rs:37-57 | a binary node splits the trimmed input at the scan's index, which holds its operator, is not the first character, has no binary operator after it and, for an input no longer than `usize::MAX`, is not blank and not inside the group the span iterator is at, and, with no stray `)`, inside no top-level group; the two halves parse to its children |
| Expressions.BuildBinaryOperation | src/expression.rs:53-57 | an operator at a positive split index with both slices parsing gives the binary node |
| Expressions.DispatchNegation | src/expression.rs:50-52 | a negation node comes from a `-` at index 0, with the rest parsing to its operand |
| Expressions.ParseUnaryNegation | src/expression.rs:37-52 | a negation node comes from a trimmed input that starts with `-` where the scan stops, a negation marker with no binary operator after it; the rest parses to its operand |
| Expressions.BuildUnaryNegation | src/expression.rs:50-52 | a `-` at index 0 where the scan stops, with the rest parsing, gives the negation node |
| Expressions.DispatchParenthesis | src/expression.rs:58 | a parenthesis node comes from a `(` in an input of two or more characters, whose inner slice parses to its operand |
| Expressions.ParseParenthesis | src/expression.rs:37-58 | a parenthesis node comes from a scan that stops at a `(` with no binary operator after it and, for an input no longer than `usize::MAX`, not inside the group the span iterator is at, and, with no stray `)`, inside no top-level group; its operand is the parse of the trimmed input without its first and last characters, whatever they are |
| Expressions.BuildParenthesis | src/expression.rs:58 | a `(` where the scan stops, in an input of two or more characters whose inner slice parses, gives the parenthesis node |
| Expressions.DispatchNumber | src/expression.rs:59 | a number leaf comes from an index holding neither an operator nor `(`, and holds the leaf parser's value for the whole string |
| Expressions.ParseNumber | src/expression.rs:37-59 | a number leaf is the leaf parser's value for the whole trimmed input, in which the scan looks at no operator and no `(`; with no stray `)` every operator or `(` lies strictly inside a top-level group |
| Expressions.BuildNumber | src/expression.rs:59 | a scan that stops at neither an operator nor `(`, on text the leaf parser accepts, gives the number leaf |
| Expressions.RejectNumber | src/expression.rs:59 | text the leaf parser rejects fails with that text as the literal |
| Expressions.LoneParenthesis | src/expression.rs:58 | a lone `(` fails with the out-of-bounds slice `1..0` |
| Expressions.LeftOperandFails | src/expression.rs:55 | a failing left operand fails the binary dispatch with its own error |
| Expressions.RightOperandFails | src/expression.rs:56 | a failing right operand fails the binary dispatch with its own error |
| Expressions.NegatedOperandFails | src/expression.rs:51 | a failing operand fails the negation with its own error |
| Expressions.EnclosedOperandFails | src/expression.rs:58 | a failing inner slice fails the parenthesis with its own error |
| Examples.SingleDigit | src/expression.rs:59 | the stand-in leaf parser accepts exactly one decimal digit, with its value |
| Examples.ScanSum | src/expression.rs:119-167 | `a+b` has no groups and splits at the `+` |
| Examples.ScanSumProduct | src/expression.rs:119-167 | `a+b*c` splits at the `*`, the rightmost operator |
| Examples.ScanDifference | src/expression.rs:131-137 | in `a-b` the `-` follows a digit, so it is a binary operator and the split point |
| Examples.ScanDifferences | src/expression.rs:119-167 | `a-b-c` splits at the second `-` |
| Examples.ScanNegation | src/expression.rs:131-156 | in `-a` the leading `-` is a negation marker and the split point |
| Examples.ScanDoubleNegation | src/expression.rs:151-156 | in `--a` the second `-` is a negation marker that does not replace the first |
| Examples.ScanNegatedPower | src/expression.rs:139-161 | in `-a^b` the `^` replaces the negation marker |
| Examples.ScanGroup | src/expression.rs:124-150 | `(a+b)` has one group; its inside is skipped and the split is at the `(` |
| Examples.ScanGroupedProduct | src/expression.rs:119-167 | `(a+b)*c` has one group and splits at the `*` after it |
| Examples.ScanSingleGroup | src/expression.rs:119-167 | `(a)` has one group and splits at the `(` |
| Examples.ScanJuxtaposed | src/expression.rs:119-167 | in `a(b)c` the `(` replaces the digit before it and nothing after the group replaces it |
| Examples.ScanGroupSum | src/expression.rs:119-167 | `(a)+(b)` has two groups; the `(` of the second replaces the `+` |
| Examples.ScanStrayClose | src/expression.rs:100-113 | in `a)+(b` the stray `)` drives the depth negative, no group is found, and the split is at the `(` |
| Examples.ScanOpenPair | src/expression.rs:100-113 | `(ab` has no group, because the `(` is never closed, and splits at the `(` |
| Examples.ScanEarlyAdvance | src/expression.rs:124-150 | in `)((a+b))` the stray `)` advances the span iterator past the top-level group `(2, 6)`, so the scan stops at the `+` inside it |
| Examples.ScanInsideOut | src/expression.rs:100-113 | `)+(` has no group and splits at the `(` |
| Examples.ScanLoneOperator | src/expression.rs:119-167 | `+` splits at index 0 |
| Examples.ScanDanglingOperator | src/expression.rs:119-167 | `a*` splits at the `*` |
| Examples.ScanNegatedOperand | src/expression.rs:131-156 | in `a*-b` the negation marker after `*` is chosen, although it is not at index 0 |
| Examples.ScanUnclosedOperand | src/expression.rs:100-113 | `(a` has no group and splits at the `(` |
| Examples.ScanUnclosed | src/expression.rs:100-113 | `(a+b` has no group, because the `(` is never closed, and splits at the `+` |
| Examples.ParseDigit | src/expression.rs:59 | a lone digit parses to a number leaf holding its value |
| Examples.ParseSum | src/expression.rs:53-57 | `a+b` parses to `a + b` |
| Examples.ParseLeftToRight | src/expression.rs:37-62 | `a+b*c` parses to `(a+b)*c`: there is no precedence of `*` over `+` |
| Examples.ParseDifference | src/expression.rs:53-57 | `a-b` parses to `a - b` |
| Examples.ParseDifferences | src/expression.rs:37-62 | `a-b-c` parses to `(a-b)-c` |
| Examples.ParseNegation | src/expression.rs:50-52 | `-a` parses to a negated leaf |
| Examples.ParseDoubleNegation | src/expression.rs:50-52 | `--a` parses to a double negation |
| Examples.ParseNegatedPower | src/expression.rs:37-62 | `-a^b` parses to `(-a)^b` |
| Examples.ParseGroup | src/expression.rs:58 | `(a+b)` parses to a parenthesised sum |
| Examples.ParseGroupedProduct | src/expression.rs:37-62 | `(a+b)*c` parses to a product whose left factor is the parenthesised sum |
| Examples.ParseSingleGroup | src/expression.rs:58 | `(a)` parses to a parenthesised leaf |
| Examples.ParseJuxtaposed | src/expression.rs:58 | `a(b)c` parses to `((b))`, dropping `a` and `c` |
| Examples.ParseLoneParenthesis | src/expression.rs:58 | `(` fails with the out-of-bounds slice |
| Examples.ParseBlank | src/expression.rs:40-47 | a blank input of space, tab and line feed fails with `Index out of range` |
| Examples.ParseLoneOperator | src/expression.rs:53-57 | `+` fails with `Index out of range`: its left operand is empty |
| Examples.ParseInsideOut | src/expression.rs:58 | `)+(` fails with `Index out of range`, from its inner slice `+` |
| Examples.ParseStrayClose | src/expression.rs:58 | `a)+(b` fails with `Index out of range`, from its inner slice `)+(` |
| Examples.ParseGroupSum | src/expression.rs:37-62 | `(a)+(b)` fails with `Index out of range`, from its inner slice `a)+(b` |
| Examples.ParseOpenPair | src/expression.rs:58 | `(ab` parses to `(a)`, dropping the `(` and the last digit |
| Examples.ParseDanglingOperator | src/expression.rs:56 | `a*` fails with `Index out of range`: its right operand is empty |
| Examples.ParseNegatedOperand | src/expression.rs:55 | `a*-b` fails with `Index out of range`: it splits at the `-`, leaving `a*` |
| Examples.ParseUnclosedOperand | src/expression.rs:58 | `(a` fails with `Index out of range`: its inner slice is empty |
| Examples.ParseUnclosed | src/expression.rs:55 | `(a+b` fails with `Index out of range`, from its left operand `(a` |

## Left out

- `Expression::evaluate` (src/expression.rs:17-34): its results are `f64` arithmetic, `powf`, infinities and NaN, which this model does not include. The model stops at the tree.
- `str::parse::<f64>` (src/expression.rs:59) is a library float parser. It is the parameter `number` of `Parse`. The examples use a one-digit parser in its place.
- The `color_eyre` report texts are replaced by the cases of `ParseError`. The float parser's report becomes `InvalidNumber`, which carries the rejected text.
- The slice `s[1..0]` for the input `(` panics in Rust. It is modelled as the error `SliceOutOfBounds`. No other panic is modelled.
- Non-ASCII input is not modelled. The source mixes byte offsets (`char_indices` and slicing) with a character index (`chars().nth`).
- Stack depth is not modelled. The recursion is proved to terminate, and a tree is no larger than its input (`ParseSizeBound`).
- `Parentheses.LocateParenthesis`: `depth` is an `i32` in the source, but the model uses an unbounded integer. Overflow of `depth` (a panic in debug builds, wrap-around in release builds) after 2^31 unmatched parentheses is not modelled.
- Indices are unbounded naturals. `usize` is taken to be 64 bits wide, so the sentinel `USIZE_MAX` is 2^64 - 1.
- `Priority.Sentinel` requires the input to be no longer than `usize::MAX`, which holds for every Rust string. For a longer string the sentinel could collide with a real index.
- `Expressions.ParseNothingToSplit` has the same length requirement, for the same reason.
- `Expressions.ParseBinaryOperation` and `Expressions.ParseParenthesis` state that the split index is not inside the group the span iterator is at only for an input no longer than `usize::MAX`, the same length requirement as `Priority.Sentinel`.
- src/main.rs (reading the line, printing the value or the error, the exit code) is I/O wiring and is not part of this model.
