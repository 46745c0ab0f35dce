# draft-js-formula-plugin, modelled in Dafny

The formula plugin turns bracketed formulas such as `[price]` in a draft-js
editor into units the user edits as a whole. This project models four parts
of it:

- **The span scanner** (`getAllMatchPositions` run with `/\[(.*?)\]/g`). It is
  modelled as a `BracketRegExp` class whose `lastIndex` field advances with
  each `exec`, plus the collecting loop. The loop is proved equal to a
  specification function, `Spans`. That function is in turn proved to be the
  one sequence of spans satisfying a declarative definition of a
  left-to-right scan (`IsScanFrom`).
- **The decorator strategy** (`mentionSuggestionsStrategy`). It is modelled as
  the sequence of `(start, end)` pairs handed to the host's callback.
- **`getSearchText`**. It finds the formula around the caret and the text
  between its brackets.
- **The plugin factory in `index.js`**:
  - the `store` registry, as a class whose three variables the methods
    replace;
  - `handleBeforeInput`: typing `[` inserts `[]`, and any other keystroke is
    judged against the formulas of the text;
  - `onChange`: widens the selection to the entity runs it touches. It is an
    imperative method with the source's four walking loops, proved against a
    specification function.

The model follows the code. Where the code misbehaves, the project keeps two
members: one for the behaviour as written, with a concrete input that shows
the problem, and a corrected one with the intended property proved (see
"Findings").

The model covers a one-block document. Offsets count characters. A block's
character list is reduced to the entity key of each character. A throw from
reading an `undefined` list entry or calling an `undefined` function is the
`Err` of a `Result`.

Some behaviours of the code worth stating plainly:
- **Scanner.** For `a [x] b [y] c` the scanner reports `[2, 5)` and
  `[8, 11)` (`MatchPositions.TwoFormulaSpans`).
- **Keystroke filter.** Inside a formula `handleBeforeInput` returns `true`
  whatever was typed. Outside a formula it returns `false` for an operator
  character and `'handled'` otherwise.
- **Dead code.** The `return true` after that test (index.js:194) cannot be
  reached (`BeforeInput.OutsideFormulaByCharacterClass`).

## Model

| member | source | states |
|---|---|---|
| MatchPositions.MatchEndUnique | draft-js-formula-plugin/src/utils/getSearchText.js:11 | an attempt of the lazy pattern at one offset has at most one end |
| MatchPositions.CloseFrom | draft-js-formula-plugin/src/utils/getSearchText.js:11 | the lazy `.*?\]` stops at the first `]` and fails if a line terminator comes first |
| MatchPositions.MatchAt | draft-js-formula-plugin/src/utils/getSearchText.js:11 | an attempt at offset i succeeds exactly when `[i, e)` is a match of the pattern, and fails only when no end exists |
| MatchPositions.NextMatch | draft-js-formula-plugin/src/utils/getAllMatchPositions.js:4 | `exec` from lastIndex returns the leftmost match at or after it, and none when no attempt in the rest of the text succeeds |
| MatchPositions.SpansFromIsScan | draft-js-formula-plugin/src/utils/getAllMatchPositions.js:1-8 | the collected spans satisfy the declarative scan: each is a match, they follow one another, and no match starts in an uncovered gap |
| MatchPositions.ScanTail | draft-js-formula-plugin/src/utils/getAllMatchPositions.js:4-6 | any scan begins with the leftmost match and continues as a scan from that match's end |
| MatchPositions.ScanIsUnique | draft-js-formula-plugin/src/utils/getAllMatchPositions.js:1-8 | a scan is unique: any sequence meeting the declarative definition is the scanner's output |
| MatchPositions.ScanCharacterisation | draft-js-formula-plugin/src/utils/getAllMatchPositions.js:1-8 | a sequence of spans is a scan of the text if and only if it is what the scanner returns |
| MatchPositions.SpansWellFormed | draft-js-formula-plugin/src/utils/getAllMatchPositions.js:5 | every pair lies in the text, is at least 2 long, opens with `[`, closes with `]`, and holds no `]` or line terminator in between |
| MatchPositions.OrderedChain | draft-js-formula-plugin/src/utils/getAllMatchPositions.js:4-6 | successive spans that do not overlap are ordered pairwise |
| MatchPositions.SpansOrdered | draft-js-formula-plugin/src/utils/getAllMatchPositions.js:4-6 | pairs come left to right and never overlap |
| MatchPositions.MatchCoveredFrom | draft-js-formula-plugin/src/utils/getAllMatchPositions.js:4-6 | every offset where a match could start, at or after the scan's start, lies inside a reported span |
| MatchPositions.MatchCovered | draft-js-formula-plugin/src/utils/getAllMatchPositions.js:1-8 | nothing is missed: every offset where a match starts lies inside a reported span |
| MatchPositions.NoBracketNoSpans | draft-js-formula-plugin/src/utils/getAllMatchPositions.js:1-8 | text without `[` (including empty text) yields no pairs |
| MatchPositions.TwoFormulaSpans | draft-js-formula-plugin/src/mentionSuggestionsStrategy.js:11 | `a [x] b [y] c` yields exactly `[2, 5)` and `[8, 11)` |
| MatchPositions.BracketRegExp.constructor | draft-js-formula-plugin/src/mentionSuggestionsStrategy.js:11 | a fresh regular expression literal starts with lastIndex 0 |
| MatchPositions.BracketRegExp.Exec | draft-js-formula-plugin/src/utils/getAllMatchPositions.js:4 | `exec` returns the leftmost match from the old lastIndex, and moves lastIndex to its end, or to 0 on failure |
| MatchPositions.GetAllMatchPositions | draft-js-formula-plugin/src/utils/getAllMatchPositions.js:1-8 | the loop returns the scan from the pattern's lastIndex and leaves lastIndex at 0 |
| MatchPositions.ScanFormulaSpans | draft-js-formula-plugin/src/utils/getSearchText.js:11-13 | scanning with a fresh pattern returns the full scan of the text |
| SuggestionsStrategy.SuggestionCallbacks | draft-js-formula-plugin/src/mentionSuggestionsStrategy.js:7-16 | one callback per span, in order, with the span's offsets; each call covers a whole bracketed formula; calls never overlap |
| SuggestionsStrategy.CallbacksIgnoreConfiguration | draft-js-formula-plugin/src/mentionSuggestionsStrategy.js:7-11 | the trigger and regExp arguments do not affect the calls |
| SuggestionsStrategy.NoFormulaNoCallbacks | draft-js-formula-plugin/src/mentionSuggestionsStrategy.js:13-15 | a block without `[` gets no callback |
| SuggestionsStrategy.TwoFormulaCallbacks | draft-js-formula-plugin/src/mentionSuggestionsStrategy.js:11-15 | `a [x] b [y] c` gets the calls `(2, 5)` then `(8, 11)` |
| SearchText.FindFirst | draft-js-formula-plugin/src/utils/getSearchText.js:15 | `find` returns the first index passing the test, or none when no element passes |
| SearchText.Extract | draft-js-formula-plugin/src/utils/getSearchText.js:17 | with no span found, reading `searchPosition[0]` throws; otherwise the begin and end of the span found, and the text strictly between its brackets |
| SearchText.GetSearchText | draft-js-formula-plugin/src/utils/getSearchText.js:4-17 | throws exactly when no span has `begin <= anchor - 1 <= end`; otherwise returns the first such span and its bracket-free, single-line inner text |
| SearchText.AdjacentFormulaMisread | draft-js-formula-plugin/src/utils/getSearchText.js:15 | in `[a][b]` with the anchor at 4, the inclusive test returns the first formula `(0, 3, "a")` |
| SearchText.GetSearchTextIntended | draft-js-formula-plugin/src/utils/getSearchText.js:15-17 | with the exclusive end, returns a span containing `anchor - 1`, and fails exactly when there is none |
| SearchText.IntendedFindsFormulaAtCaret | draft-js-formula-plugin/src/utils/getSearchText.js:15-17 | with the exclusive end, a caret after a formula's `[` and up to just past its `]` finds exactly that formula |
| SearchStore.Store.constructor | draft-js-formula-plugin/src/index.js:57-59 | both maps start empty and nothing is escaped |
| SearchStore.Store.GetPortalClientRect | draft-js-formula-plugin/src/index.js:64 | returns the stored function for the key, or throws when none is stored |
| SearchStore.Store.GetAllSearches | draft-js-formula-plugin/src/index.js:65 | returns the registered keys, each mapped to itself |
| SearchStore.Store.IsEscaped | draft-js-formula-plugin/src/index.js:66 | true exactly for the key last escaped, and never while the marker is unset |
| SearchStore.Store.EscapeSearch | draft-js-formula-plugin/src/index.js:67-69 | afterwards only this key is escaped; both maps are unchanged |
| SearchStore.Store.ResetEscapedSearch | draft-js-formula-plugin/src/index.js:71-73 | afterwards no key is escaped; both maps are unchanged |
| SearchStore.Store.Register | draft-js-formula-plugin/src/index.js:75-77 | adds the key mapped to itself, is idempotent, and leaves the functions and the marker unchanged |
| SearchStore.Store.UpdatePortalClientRect | draft-js-formula-plugin/src/index.js:79-81 | stores or replaces the key's function, registered or not; nothing else changes |
| SearchStore.Store.Unregister | draft-js-formula-plugin/src/index.js:83-86 | removes the key from both maps, keeps every other entry, and leaves the marker as it was |
| SearchStore.PortalLifecycle | draft-js-formula-plugin/src/index.js:64-86 | a lookup throws after register alone, succeeds after an update, and throws again after unregister |
| SearchStore.EscapeTwice | draft-js-formula-plugin/src/index.js:66-69 | escaping b after a un-escapes a (last write wins) |
| BeforeInput.InsertBracketPair | draft-js-formula-plugin/src/index.js:164-177 | the text up to the anchor, then `[]`, then the text from the focus on; the forced selection is (anchor + 1, focus + 1); the result is 'handled' |
| BeforeInput.HandleBeforeInput | draft-js-formula-plugin/src/index.js:147-195 | `[` inserts the pair; any other input leaves text and selection alone and returns true exactly when the anchor is strictly inside a span; otherwise false exactly for an operator character |
| BeforeInput.CollapsedBracketInsertion | draft-js-formula-plugin/src/index.js:163-180 | `[` at caret o puts `[]` at o, keeps the rest of the text, and moves the caret to o + 1 |
| BeforeInput.PairIsInsideFormula | draft-js-formula-plugin/src/index.js:183-189 | the offset between any `[]` pair is strictly inside a scanned span |
| BeforeInput.BracketThenTypeInside | draft-js-formula-plugin/src/index.js:163-189 | after `[` at a caret, the next non-`[` keystroke returns true |
| BeforeInput.OutsideFormulaByCharacterClass | draft-js-formula-plugin/src/index.js:191-194 | outside every formula the result is false for an operator character and 'handled' otherwise; the last `return true` is never reached |
| BeforeInput.RangedBracketSelectionPastEnd | draft-js-formula-plugin/src/index.js:172-177 | `[` over all of `abcd` leaves `[]` with selection (1, 5), past the end of the text |
| BeforeInput.BackwardBracketDuplicatesText | draft-js-formula-plugin/src/index.js:164-170 | `[` over a backward selection (4, 1) of `abcde` yields `abcd[]bcde` |
| BeforeInput.InsertBracketPairIntended | draft-js-formula-plugin/src/index.js:163-180 | the selected range, either direction, is replaced by `[]`; the caret is collapsed between the brackets and stays within the text |
| BeforeInput.IntendedBracketCaretInFormula | draft-js-formula-plugin/src/index.js:163-189 | after the intended insertion the caret is strictly inside a formula |
| BeforeInput.CollapsedBracketAsIntended | draft-js-formula-plugin/src/index.js:163-180 | for a collapsed caret, the code as written matches the intended insertion |
| SelectionSnap.RunStart | draft-js-formula-plugin/src/index.js:230-237 | the backward walk stops at the first offset of the entity's maximal run |
| SelectionSnap.RunEnd | draft-js-formula-plugin/src/index.js:240-246 | the forward walk stops at the first offset past the entity's maximal run |
| SelectionSnap.RunBoundsShared | draft-js-formula-plugin/src/index.js:230-246 | every offset of a run gives the same run bounds |
| SelectionSnap.OnChange | draft-js-formula-plugin/src/index.js:196-295 | the handler returns what the onChange specification function gives: the forced selection, or the throw |
| SelectionSnap.OnChangeCollapsed | draft-js-formula-plugin/src/index.js:209-253 | the collapsed branch, loops included, computes the collapsed specification |
| SelectionSnap.OnChangeRanged | draft-js-formula-plugin/src/index.js:254-288 | the ranged branch, loops included, computes the ranged specification |
| SelectionSnap.RangedOnChangeErrIff | draft-js-formula-plugin/src/index.js:271-281 | a range throws exactly when the character at its end has an entity whose run reaches the block's end |
| SelectionSnap.OnChangeWidens | draft-js-formula-plugin/src/index.js:196-288 | when the handler returns and the caret is not at 0, the selection is forward, within the block, and contains the old one |
| SelectionSnap.SnapSelection | draft-js-formula-plugin/src/index.js:209-288 | the intended widening: within the block, forward, contains the old selection, ends on run boundaries, and adds only characters of the runs at its ends |
| SelectionSnap.SnapFixesBoundaries | draft-js-formula-plugin/src/index.js:209-288 | a selection already on run boundaries is only turned forward |
| SelectionSnap.SnapIdempotent | draft-js-formula-plugin/src/index.js:254-288 | widening twice equals widening once |
| SelectionSnap.SnapAgreesWithOnChange | draft-js-formula-plugin/src/index.js:209-288 | whenever the handler returns, the caret is not at 0, and a range's end is not at a boundary before another run, the handler equals the intended widening |
| SelectionSnap.CollapsedWalkReadsPastEnd | draft-js-formula-plugin/src/index.js:239-246 | a caret inside a run that reaches the block's end throws; the intended widening selects the run |
| SelectionSnap.RangedWalkReadsPastEnd | draft-js-formula-plugin/src/index.js:271-281 | a range ending inside a run that reaches the block's end throws; the intended widening selects through the run |
| SelectionSnap.CaretAtStartWrapsAround | draft-js-formula-plugin/src/index.js:204-237 | a caret at 0 is compared with the last character and forced to offset -1; the intended widening leaves it |
| SelectionSnap.EndSnapGrowsOverNextRun | draft-js-formula-plugin/src/index.js:271-281 | a run selected by the caret grows over the adjacent run at the next change; the intended widening keeps it |
| SelectionSnap.CaretOutsideEntitiesUnchanged | draft-js-formula-plugin/src/index.js:209-225 | a caret with no entity on either side is left unchanged |
| SelectionSnap.CaretSnapExample | draft-js-formula-plugin/src/index.js:227-253 | a caret at 5 inside a run over offsets 3 to 6 selects `[3, 7)` |

## Left out

- The React and decorator wiring is not modelled: the `defaultTheme`,
  `callbacks` and `ariaProps` objects (index.js:26-55), the suggestion
  components, the `Mention` decorator, `getAccessibilityProps`, `initialize` and the
  keyboard callbacks that only forward to `callbacks` (index.js:89-146). They
  contain no logic of their own.
- The `callbacks.onChange` hook is taken to be unset, so `onChange` returns
  the state it computed.
- `EditorState.push` and the undo stack are not modelled. `forceSelection` is
  modelled by returning the selection it would force.
- `Modifier.replaceText` is modelled only for the text it produces. The
  entity and style of the inserted characters are not modelled.
- Documents with several blocks are not modelled:
  - `handleBeforeInput` scans `getPlainText()` of the whole document, which
    equals the block's text only for one block;
  - `onChange` reads only the start block, even for a selection that spans
    blocks.
- Offsets count Dafny characters rather than UTF-16 code units, so text
  outside the Basic Multilingual Plane is not modelled.
- The `console.log` at mentionSuggestionsStrategy.js:12 is left out.
- `getWordAt`, imported by getSearchText.js, appears only in a comment there.
  It is not part of this model.
- The `RegExp` engine is modelled only for the one pattern the plugin uses.
- SearchStore.Store.GetPortalClientRect: returns the stored function instead
  of calling it, because the rectangle it computes comes from the DOM.
- SuggestionsStrategy.SuggestionCallbacks: the callback is modelled by the
  argument pairs it receives. Whatever the host does with them is not
  modelled.

## Findings

| source | as written | input that shows it | evidently intended | confidence | as-written member | corrected member |
|---|---|---|---|---|---|---|
| draft-js-formula-plugin/src/index.js:239-246 | the collapsed forward walk increments before reading, and reads the entry at the block length, which is undefined, so `.getEntity()` throws | entities `[1, 1]`, caret at 1 | select the whole run `[0, 2)` | high (not executed) | SelectionSnap.CollapsedWalkReadsPastEnd | SelectionSnap.SnapSelection |
| draft-js-formula-plugin/src/index.js:271-281 | the ranged forward walk reads past the end in the same way | entities `[1, 1]`, selection (0, 1) | widen to `[0, 2)` | high (not executed) | SelectionSnap.RangedWalkReadsPastEnd | SelectionSnap.SnapSelection |
| draft-js-formula-plugin/src/index.js:204-237 | a caret at 0 reads `get(-1)`, which is the last character, and forces the anchor -1 | entities `[1, none, 1]`, caret at 0 | leave the caret at 0 | high (not executed) | SelectionSnap.CaretAtStartWrapsAround | SelectionSnap.SnapSelection |
| draft-js-formula-plugin/src/index.js:172-177 | typing `[` over a range forces (anchor + 1, focus + 1) | `abcd`, selection (0, 4) gives `[]` with selection (1, 5) | caret collapsed between the brackets | high (not executed) | BeforeInput.RangedBracketSelectionPastEnd | BeforeInput.InsertBracketPairIntended |
| draft-js-formula-plugin/src/index.js:164-170 | the replaced range is rebuilt as anchor-to-focus, so a backward selection copies text | `abcde`, selection (4, 1) gives `abcd[]bcde` | `a[]e` | medium (not executed) | BeforeInput.BackwardBracketDuplicatesText | BeforeInput.InsertBracketPairIntended |
| draft-js-formula-plugin/src/index.js:271-281 | the end of a range is widened by the first character after it, not the last one in it | entities `[1, 1, 2, 2, none]`: caret at 1 gives (0, 2), and (0, 2) then gives (0, 4) | widening is idempotent and keeps (0, 2) | medium (not executed) | SelectionSnap.EndSnapGrowsOverNextRun | SelectionSnap.SnapIdempotent |
| draft-js-formula-plugin/src/utils/getSearchText.js:15 | the test `anchor - 1 <= end` includes the exclusive end | `[a][b]`, anchor 4 returns `(0, 3, "a")` | the formula `[b]` that the caret is in | medium (not executed) | SearchText.AdjacentFormulaMisread | SearchText.IntendedFindsFormulaAtCaret |
