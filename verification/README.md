# decomment: regular-expression spans and input classification

This project models, in Dafny, the three helper routines of `lib/utils.js` in
the `decomment` comment stripper:

- `parseRegEx` turns the tokenizer's `RegularExpression` tokens into closed
  intervals `{start, end}` of absolute offsets. The comment scanner must not
  open a comment inside these intervals.
- `indexInRegEx` is a binary search over those intervals. It answers whether
  an offset is inside a regular-expression literal.
- `isHtml` decides between markup mode and code mode. It looks at the first
  character that is not a space, tab, CR or LF.

Modules:

- `Wrappers` (wrappers.dfy): `Option` and `Result`. `None` stands for
  JavaScript's `undefined`.
- `Spans` (spans.dfy): `Interval`, membership (`Within`, `Contains`), and the
  `Ordered` shape (sorted by start, non-overlapping).
- `RegexSpans` (regex_spans.dfy): tokens, the projection, and `ParseRegEx`.
- `SpanIndex` (span_index.dfy): `Math.round` of the midpoint and the
  `IndexInRegEx` loop.
- `HtmlCheck` (html_check.dfy): the do-while scan of `isHtml`, with its three
  outcomes `true`, `false` and `undefined`.

Points of lib/utils.js that the model makes explicit:

- `parseRegEx` records `{range[0] + 1, range[1] - 1}`, and `indexInRegEx`
  reads `end` as inclusive. So a recorded interval covers every offset of the
  token except the opening slash. The closing slash and any flags are covered
  (`RegexSpans.Interior`, `RegexSpans.RegexDelimiters`).
- The comment at lib/utils.js:22 calls `indexInRegEx` a linear search. The
  code is a binary search, and that is what `SpanIndex.IndexInRegEx` models.
- For non-empty text made only of blanks, `isHtml` falls out of its loop and
  returns `undefined`, which is falsy. `HtmlCheck.IsHtml` keeps the three
  outcomes `true`, `false` and `undefined` apart. How the result is used by
  code outside lib/utils.js is not part of this model.

## Model

| member | source | states |
|---|---|---|
| SpanIndex.RoundHalf | lib/utils.js:27 | `Math.round(n / 2)` for an integer `n` is the nearest integer to `n / 2`, with ties rounded up: `2r - 1 <= n <= 2r` |
| SpanIndex.Midpoint | lib/utils.js:26-28 | when `low <= high`, the probe `mid` lies in `[low, high]` and is the upper middle, so `regExData[mid]` is always in bounds |
| SpanIndex.IndexInRegEx | lib/utils.js:24-39 | `true` only when some interval holds `idx`, with both ends inclusive. For intervals sorted by start and non-overlapping, `true` exactly when some interval holds `idx`. An empty array gives `false`. The loop terminates because `high - low` shrinks on every step that does not return |
| RegexSpans.Interior | lib/utils.js:12-15 | the recorded interval `{range[0] + 1, range[1] - 1}`, read as closed, holds exactly the offsets `p` with `range[0] < p < range[1]` |
| RegexSpans.RegexIntervals | lib/utils.js:10-17 | the tokenizer callback over the token list, pushing the interior of each `RegularExpression` token. It has no contract of its own; `RegexIntervalsSelect`, `RegexIntervalsContains` and `RegexIntervalsOrdered` state its result |
| RegexSpans.RegexIntervalsSelect | lib/utils.js:10-17 | there is one interval per `RegularExpression` token, in token order; the k-th interval is the interior of the k-th such token; other tokens are dropped |
| RegexSpans.RegexIntervalsContains | lib/utils.js:10-17 | an offset is covered by the result exactly when it lies after the opening slash and inside some `RegularExpression` token |
| RegexSpans.RegexIntervalsOrdered | lib/utils.js:10-18 | tokens in source order without overlap give intervals sorted by start and non-overlapping, which is the shape `indexInRegEx` needs |
| RegexSpans.RegexDelimiters | lib/utils.js:13-14 | for ordered tokens and a regular-expression token of at least two characters, the token's last character (its closing slash or last flag) is covered, and its opening slash is not |
| RegexSpans.ParseRegEx | lib/utils.js:6-19 | a lexing error propagates as a failure. On success, the intervals cover exactly the offsets inside regular-expression tokens, and they are ordered when the tokens are |
| HtmlCheck.CharAt | lib/utils.js:47 | `text[idx]` is a character exactly when `idx` is below the length of `text`, and `undefined` past the end |
| HtmlCheck.ScanFrom | lib/utils.js:45-51 | the do-while loop, one pass per call. It has no contract of its own; `ScanFromSpec` states its result |
| HtmlCheck.ScanFromSpec | lib/utils.js:45-51 | the do-while scan from `idx` (one pass and the passes after it) gives `undefined` exactly when everything from `idx` on is blank. Otherwise it gives whether the first non-blank character is `<`; on empty text it reads `undefined` and gives `false` |
| HtmlCheck.IsHtml | lib/utils.js:44-52 | `true` iff the first character not in {space, tab, CR, LF} is `<`. It is `false` for empty text or a different first visible character, and `undefined` for non-empty all-blank text |
| HtmlCheck.ScanSkipsBlanks | lib/utils.js:46-51 | starting the scan anywhere inside a run of blanks gives the same answer as starting at the end of the run |
| HtmlCheck.BlankPrefixKeepsIsHtml | lib/utils.js:44-52 | prefixing blanks leaves the result unchanged for non-empty text. It never changes truthiness; on empty text it turns `false` into `undefined` |

## Left out

- The tokenizer (`esprima.tokenize`, lib/utils.js:10) is a foreign JavaScript lexer. Its output is an input to `ParseRegEx`: either a token list or an opaque `LexError`. The model does not say which texts fail to lex or which ranges tokens get.
- The `loc: true` option (lib/utils.js:8-10) only affects speed. The `os.EOL` import (lib/utils.js:4) is unused by these routines.
- The comment-scanning state machine and the `<!-- -->` stripper that call these helpers are not part of this model, so the removal policies (safe comments, blank-line collapsing, `trim`) are not modelled.
- Offsets and `idx` are modelled as mathematical integers. JavaScript numbers, including non-integer or `NaN` arguments, are not modelled. Neither are interval objects with missing fields.
- SpanIndex.IndexInRegEx: exact answers are promised only for ordered intervals. On unordered input the search can miss an interval that holds `idx`. The contract then says only that a `true` answer is sound.
