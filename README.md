# Kanban board page object, modelled in Dafny

This project models `KanbanPage`, the page object that drives the end-to-end
Kanban workflow:
- choose a card with open subtasks outside the first column and open it;
- tick every subtask and count them;
- move the card to the first column;
- check, with the editor still open, that every subtask is struck through;
- capture the card's title and close the editor;
- find the card again in the first column and open it;
- check that the summary reads `Subtasks (N of N)`.

The browser is not modelled. Everything it would return (header texts, card
texts, checkbox lists, label decorations, modal texts) is an input, and
whether a click reaches its target is an oracle passed in.

Layout:

- `wrappers.dfy` (`Wrappers`): `Option`, `Result` and `Outcome`.
- `strings.dfy` (`Strings`): the strings the page object works on:
  - decimal digits and their values (`DigitsValue`, `NumberAt`);
  - decimal rendering of a count (`NatToString`, the `${n}` of a template literal);
  - runs of digits, literals at a position, and substring containment (`includes`, `getByText`).
- `patterns.dfy` (`Patterns`): the two regular expressions the page object applies.
  - It covers `/\d+/` and patterns of the shape `<lit>(\d+)<lit>(\d+)<lit>`, with JavaScript `match` semantics: the leftmost starting position wins and `\d+` is greedy.
  - An executable matcher (`MatchAt`, `FindFrom`, `Find`, `FirstNumber`) is proved equal to a declarative description of the leftmost match (`MatchesWith`, `LeftmostMatchIs`, `FirstNumberAt`).
  - The card pattern keeps the UI's spelling `substasks`.
- `inspector.dfy` (`Inspector`): the pure decisions of the page object:
  - the task count in a column header;
  - the first pass of `chooseWorkingColum`;
  - the incomplete-card predicate and `findIncompleteCard`;
  - what the scan of columns 1.. leaves behind (`ScanOutcome`);
  - the last card showing the captured title;
  - the strikethrough test;
  - the expected summary text.
- `kanban_page.dfy` (`Kanban`): the class `KanbanPage`.
  - Its fields `columnToWork`, `cardToWork`, `subTasksCount` and `taskName` are updated in place by methods that follow the source's loops and branches.
  - Each method is proved against the specification functions and predicates of `Inspector`.

Behaviour kept as the code has it:

- **Header 0 is read through the field.** `getColumnTaskCount(i)` and `findIncompleteCard(i)` use `columnNumber || this.columnToWork`, so column 0 is replaced by the current `columnToWork` (`EffectiveColumn`).
  - The first loop of `chooseWorkingColum` therefore reads header 0 at `columnToWork`.
  - On a fresh page that is header 0 itself.
  - After an earlier selection, a header 0 without a number goes unnoticed (`ColumnZeroReadThroughField`).
  - The scan never uses count 0.
- **When no column is a hit, the fields are not reset.** The scan does not yield a `(0, not found)` pair.
  - `columnToWork` keeps its previous value.
  - `cardToWork` is -1 when some eligible column was read, and keeps its previous value when none was (`ScanOutcomeNoHit`).
  - On a fresh page the fallback click therefore targets card 0 of column 0 when no column had a task count, and card -1 otherwise.
  - Which element a click on card -1 reaches is the browser's business and is part of the click oracle.
- **`cardToWork` is overwritten for every column read**, hits or not. Only the first hit sets `columnToWork` and ends the scan.
- **Every header is read before the scan starts.** A header without a digit aborts the selection before any field changes, and the error names the (effective) column.

## Model

| member | source | states |
|---|---|---|
| Strings.NatToString | pageobjects/KanbanPage.ts:116 | the decimal text of a count is a non-empty run of digits whose value is the count |
| Strings.NatToStringCanonical | pageobjects/KanbanPage.ts:116 | that text has no leading zero (its first digit is `0` only for 0), so it is the one `${n}` produces |
| Patterns.Find | pageobjects/KanbanPage.ts:156 | `text.match(/(\d+) of (\d+) substasks/)`: the two groups of the leftmost match, or nothing; its meaning is `FindIsLeftmostMatch` |
| Patterns.MatchAtSound | pageobjects/KanbanPage.ts:156 | a match found by the greedy matcher at a position is a genuine match of the pattern there, and its groups are the numbers it reports |
| Patterns.MatchAtComplete | pageobjects/KanbanPage.ts:156 | every match of the pattern at a position is the one the greedy matcher finds there, with the same groups |
| Patterns.MatchUnique | pageobjects/KanbanPage.ts:156 | at a given start, the digit runs of a match are maximal, so the match is unique |
| Patterns.FindIsLeftmostMatch | pageobjects/KanbanPage.ts:156 | the search yields the groups of the leftmost match, and yields nothing exactly when the text holds no match at all |
| Patterns.LeftmostMatchIsFound | pageobjects/KanbanPage.ts:156 | conversely, when a match is leftmost, the search returns exactly its two groups |
| Patterns.FirstNumber | pageobjects/KanbanPage.ts:170-174 | `columnText.match(/\d+/)` read by `parseInt(_, 10)`: the value of the first digit run, or nothing; its meaning is `FirstNumberMeaning` |
| Patterns.FirstNumberMeaning | pageobjects/KanbanPage.ts:170-174 | `/\d+/` yields the value of the first maximal run of digits, and yields nothing exactly when the text has no digit |
| Patterns.FirstNumberAtUnique | pageobjects/KanbanPage.ts:170 | a text has only one first maximal digit run |
| Inspector.Message | pageobjects/KanbanPage.ts:46-107 | the texts the page object throws: no task count in column No. N (line 172), no incomplete tasks in any column (46), subtask not struck through (92), card not in the first column (107) |
| Inspector.NoTaskCountMessageNamesColumn | pageobjects/KanbanPage.ts:172 | the error for a header without a count names the column, and its number reads back from the message |
| Inspector.EffectiveColumn | pageobjects/KanbanPage.ts:168 | the logical-or fallback from `columnNumber` to `this.columnToWork`: an argument of 0 falls back to the field (also at line 151) |
| Inspector.ColumnTaskCount | pageobjects/KanbanPage.ts:167-175 | a count is only read from an existing header; a failure is `NoTaskCount` naming the column for an existing header, the locator timeout otherwise |
| Inspector.ColumnTaskCountMeaning | pageobjects/KanbanPage.ts:167-175 | a header's task count is its first number; a header without digits is an error naming the column; a missing header is never found |
| Inspector.ParseHeaders | pageobjects/KanbanPage.ts:125-130 | a successful first pass yields one count per header |
| Inspector.ParseHeadersMeaning | pageobjects/KanbanPage.ts:127-130 | count k is the task count of header `EffectiveColumn(k, columnToWork)`; a failure is the error of the first header whose read fails |
| Inspector.ParseHeadersOkIff | pageobjects/KanbanPage.ts:127-130 | the first pass succeeds exactly when every header read succeeds |
| Inspector.ParseHeadersErrSticks | pageobjects/KanbanPage.ts:127-130 | once a header read throws, later headers do not change the error |
| Inspector.ColumnZeroReadThroughField | pageobjects/KanbanPage.ts:168-169 | the same board fails on a fresh page but parses once `columnToWork` is 1, because header 0 is read at the field |
| Inspector.ParseHeadersFieldOnlyAffectsColumnZero | pageobjects/KanbanPage.ts:168 | the field stands in only for column 0; every other count is the same whatever the field holds |
| Inspector.IsIncomplete | pageobjects/KanbanPage.ts:155-157 | the `map` callback `match && completed < total`, compared `=== true`; its meaning is `IncompleteIff` |
| Inspector.IncompleteIff | pageobjects/KanbanPage.ts:155-158 | a card is incomplete exactly when the leftmost `<a> of <b> substasks` in its text has a < b; no match means not incomplete |
| Inspector.MisspelledProgressIsRecognised | pageobjects/KanbanPage.ts:156 | `1 of 2 substasks` is incomplete |
| Inspector.CorrectSpellingIsNotRecognised | pageobjects/KanbanPage.ts:156 | `1 of 2 subtasks` (correct spelling) is not recognised as incomplete |
| Inspector.FindIncompleteCard | pageobjects/KanbanPage.ts:150-162 | the result is -1 or an index of the column's cards |
| Inspector.FirstIncompleteFromIsFirst | pageobjects/KanbanPage.ts:160 | the result is -1 exactly when no card from the start index on is incomplete; otherwise it is incomplete and no earlier card from the start is |
| Inspector.FindIncompleteCardIsFirst | pageobjects/KanbanPage.ts:155-161 | `findIndex` over the mapped flags: -1 iff no card is incomplete, otherwise the first incomplete card |
| Inspector.FirstIncompleteCards | pageobjects/KanbanPage.ts:135 | one `findIncompleteCard` result per column |
| Inspector.EligibleBelow | pageobjects/KanbanPage.ts:133-134 | its last element, if any, is an eligible column below the bound |
| Inspector.EligibleBelowMembers | pageobjects/KanbanPage.ts:133-134 | the columns a scan up to n reads are exactly the columns 1..n-1 with a non-zero count |
| Inspector.EligibleBelowAscending | pageobjects/KanbanPage.ts:133 | those columns are read in strictly ascending order |
| Inspector.ReachedNext | pageobjects/KanbanPage.ts:137-141 | a column that is not a hit lets the scan go on to the next one |
| Inspector.ScanStopsAtFirstHit | pageobjects/KanbanPage.ts:137-140 | stopping at the first hit, with that column's card, is the outcome the scan describes |
| Inspector.ScanFindsNoHit | pageobjects/KanbanPage.ts:133-142 | running past the last column without a hit keeps `columnToWork` and leaves the last card read |
| Inspector.ScanOutcomeHit | pageobjects/KanbanPage.ts:133-142 | with a hit, the smallest hit column (≥ 1, non-zero count) is chosen with its first incomplete card, and no later column was read |
| Inspector.ScanOutcomeNoHit | pageobjects/KanbanPage.ts:133-142 | without a hit, the column is unchanged; the card is -1 if any column was eligible, and unchanged otherwise |
| Inspector.DirectClickIff | pageobjects/KanbanPage.ts:36 | the direct click is taken exactly when some column is a hit, or when no column was eligible and the old fields already pointed outside column 0 at a card |
| Inspector.LastMatchingCard | pageobjects/KanbanPage.ts:100-108 | the last card of the first column whose text contains the title, or an error naming the title exactly when none does |
| Inspector.IsStruckThrough | pageobjects/KanbanPage.ts:182-188 | the computed `text-decoration` includes `line-through` |
| Inspector.ExpectedSummary | pageobjects/KanbanPage.ts:116 | the template ` Subtasks (${n} of ${n}) `; what it reads back as is `ExpectedSummaryReadsBack` |
| Inspector.ExpectedSummaryMatches | pageobjects/KanbanPage.ts:116 | the expected summary matches `Subtasks (N of N)` from its second character, with the count in both groups |
| Inspector.ExpectedSummaryNoMatchAtStart | pageobjects/KanbanPage.ts:116 | a helper for `ExpectedSummaryReadsBack`: the template's leading space rules out a match at offset 0 (the browser trims that space when it compares, which the model does not) |
| Inspector.ExpectedSummaryReadsBack | pageobjects/KanbanPage.ts:116 | read back through the summary pattern, the expected text states count done out of count |
| Kanban.KanbanPage.constructor | pageobjects/KanbanPage.ts:10-20 | a fresh page starts at column 0, card 0, no subtasks counted, no title |
| Kanban.KanbanPage.ReadTaskCounts | pageobjects/KanbanPage.ts:125-130 | the array loop yields exactly the first pass `ParseHeaders` over all headers, reading header 0 through `columnToWork` |
| Kanban.KanbanPage.ScanColumns | pageobjects/KanbanPage.ts:133-142 | the second loop leaves `columnToWork`, `cardToWork` and the columns read as `ScanOutcome` describes |
| Kanban.KanbanPage.ChooseWorkingColumn | pageobjects/KanbanPage.ts:123-143 | a header without a count fails with that header's error and changes nothing; otherwise the fields end as `ScanOutcome` describes |
| Kanban.KanbanPage.ChooseCardToComplete | pageobjects/KanbanPage.ts:32-50 | after the selection, the direct click when the column is > 0 and the card was found, else the fallback click; a failed fallback is "no incomplete tasks", a failed direct click a timeout |
| Kanban.KanbanPage.CompleteSubtasks | pageobjects/KanbanPage.ts:55-62 | every checkbox ends checked and the counter grows by their number, never reset |
| Kanban.KanbanPage.CloseEditModal | pageobjects/KanbanPage.ts:77-78 | the captured title is the modal's heading |
| Kanban.KanbanPage.VerifySubtasksAreStruckThrough | pageobjects/KanbanPage.ts:87-94 | passes exactly when every label's decoration includes `line-through`; otherwise fails naming the first label that lacks it |
| Kanban.KanbanPage.ClickCardInFirstColumn | pageobjects/KanbanPage.ts:99-109 | clicks the last first-column card showing the captured title, and fails naming the title exactly when there is none |
| Kanban.KanbanPage.VerifyNumberOfCompletedSubtasks | pageobjects/KanbanPage.ts:114-117 | passes exactly when some modal text contains ` Subtasks (N of N) ` with N the counter |

## Left out

- `goto` (navigation to the hosted application) is browser I/O and is not modelled.
- `moveTaskToColumnOne` is only two clicks on a dropdown, with nothing decided or stored, so it is not modelled.
- `closeEditModal`: its three clicks after the title is captured are not modelled; only the capture, which is the state change, is.
- Playwright's locators, waits and timeouts, `allInnerTexts`, `innerText` and `getComputedStyle` are inputs.
  - A click that does not reach its element is the click oracle returning false.
  - A wait that gives up is `ElementNotFound`.
- `Kanban.KanbanPage.ChooseCardToComplete`: which element `nth(cardToWork)` resolves to is left to the click oracle. This matters for -1, which Playwright resolves from the end of the list.
- Kanban.KanbanPage.ClickCardInFirstColumn: matches are modelled as one per card of the first column; the column header and the other elements of the first `section`, which `getByText` also searches, are not, so a title that only the header contains is an error here, where the page would click the header.
- `Kanban.KanbanPage.ClickCardInFirstColumn`: the visibility wait before the click is not modelled.
  - `getByText` is modelled as case-sensitive substring containment.
  - Playwright's whitespace normalisation and case-insensitive matching are left out.
- `Kanban.KanbanPage.VerifyNumberOfCompletedSubtasks`: the same `getByText` simplification applies, and the visibility wait is left out.
- `Kanban.KanbanPage.VerifySubtasksAreStruckThrough`: an `expect` failure is modelled as the method's result, not as an exception.
- `Kanban.KanbanPage.CompleteSubtasks`: `check({ force: true })` is modelled as always succeeding, and the counter as unbounded.
- `parseInt`'s conversion to a double is not modelled: counts and progress numbers are unbounded naturals, so digit runs too long for exact floating point are read exactly.
- `console.warn` in the fallback branch has no effect on the state and is left out.
- `async`/`await` is left out: every call runs to completion in program order.
- The test file that drives these steps in order is not part of this model.
