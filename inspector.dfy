/**
 * The board as the page object sees it, and the pure decisions it takes on
 * what it reads: the task count in a column header, whether a card still has
 * open subtasks, which card of a column to work on, which card of the first
 * column is the relocated one, whether a subtask label is struck through, and
 * the subtask summary the detail view must show.
 *
 * What the browser returns is input here: a `Board` holds the header texts and,
 * per column, the inner texts of its cards in display order.
 */
module Inspector {
  import opened Wrappers
  import opened Strings
  import opened Patterns

  /**
   * `headers[k]` is the text of the k-th `section > div > h2`; `columns[k]` the
   * inner texts of the `article`s of the (k+1)-th section. The two need not
   * agree in length: nothing in the page object relates them.
   */
  datatype Board = Board(headers: seq<string>, columns: seq<seq<string>>)

  /** `section:nth-child(column + 1) article` texts; a section that is not there has no cards. */
  function Cards(board: Board, column: nat): seq<string> {
    if column < |board.columns| then board.columns[column] else []
  }

  /** What the page object throws, or a browser wait that gives up. */
  datatype Error =
    | NoTaskCount(column: nat)           // a header without a digit
    | NoIncompleteTasks                  // the fallback click failed too
    | CardNotInFirstColumn(name: string) // no card of the first column shows the task name
    | NotStruckThrough(text: string)     // a subtask label without `line-through`
    | SummaryNotVisible(expected: string)// the detail view lacks the expected summary
    | ElementNotFound                    // a locator that never resolves (a timeout)

  /** The messages the page object itself builds; the other errors come from the browser library. */
  function Message(e: Error): string
    requires !e.SummaryNotVisible? && !e.ElementNotFound?
  {
    match e
    case NoTaskCount(column) => "Could not find task count in column No. " + NatToString(column)
    case NoIncompleteTasks => "There are no incomplete tasks in any column"
    case CardNotInFirstColumn(name) => "\"" + name + "\" card should be in the first column"
    case NotStruckThrough(text) => "\"" + text + "\" subtask should be striked through"
  }

  /** The column number in a header-parse error can be read back from its message. */
  lemma NoTaskCountMessageNamesColumn(column: nat)
    ensures FirstNumber(Message(NoTaskCount(column))) == Some(column)
  {
    var prefix := "Could not find task count in column No. ";
    var digits := NatToString(column);
    var m := prefix + digits;
    assert m[|prefix|..|m|] == digits;
    forall k: nat | k < |prefix|
      ensures !IsDigit(m[k])
    {
      assert m[k] == prefix[k];
    }
    assert FirstNumberAt(m, |prefix|, |m|);
    FirstNumberMeaning(m);
  }

  // ---------------------------------------------------------------------------
  // Header count

  /** `columnNumber || this.columnToWork`: an argument of 0 falls back to the field. */
  function EffectiveColumn(columnNumber: nat, field: nat): nat {
    if columnNumber != 0 then columnNumber else field
  }

  /** `getColumnTaskCount` on an already resolved column index. */
  function ColumnTaskCount(board: Board, column: nat): (r: Result<nat, Error>)
    ensures r.Ok? ==> column < |board.headers|
    ensures r.Err? ==> r.error == (if column < |board.headers| then NoTaskCount(column) else ElementNotFound)
  {
    if column >= |board.headers| then Err(ElementNotFound)
    else
      match FirstNumber(board.headers[column])
      case None => Err(NoTaskCount(column))
      case Some(n) => Ok(n)
  }

  /**
   * A header's task count is its first number; a header without a digit is an
   * error naming the column; a header that is not there is never found.
   */
  lemma ColumnTaskCountMeaning(board: Board, column: nat)
    ensures column >= |board.headers| ==> ColumnTaskCount(board, column) == Err(ElementNotFound)
    ensures column < |board.headers| ==>
      (ColumnTaskCount(board, column) == Err(NoTaskCount(column)) <==>
       forall m: nat :: m < |board.headers[column]| ==> !IsDigit(board.headers[column][m]))
    ensures forall p: nat, e: nat :: column < |board.headers| && FirstNumberAt(board.headers[column], p, e) ==>
      ColumnTaskCount(board, column) == Ok(DigitsValue(board.headers[column][p..e]))
  {
    if column < |board.headers| {
      FirstNumberMeaning(board.headers[column]);
    }
  }

  /**
   * The first loop of `chooseWorkingColum` over its first `n` headers: header k
   * is read at `EffectiveColumn(k, field)`; the first failure stops the loop.
   */
  function ParseHeaders(board: Board, field: nat, n: nat): (r: Result<seq<nat>, Error>)
    requires n <= |board.headers|
    ensures r.Ok? ==> |r.value| == n
  {
    if n == 0 then Ok([])
    else
      match ParseHeaders(board, field, n - 1)
      case Err(e) => Err(e)
      case Ok(counts) =>
        match ColumnTaskCount(board, EffectiveColumn(n - 1, field))
        case Err(e) => Err(e)
        case Ok(c) => Ok(counts + [c])
  }

  /**
   * The counts are the headers' task counts in column order; an error is the
   * error of the first header whose read fails.
   */
  lemma {:induction false} ParseHeadersMeaning(board: Board, field: nat, n: nat)
    requires n <= |board.headers|
    ensures ParseHeaders(board, field, n).Ok? ==>
      forall k: nat :: k < n ==> ColumnTaskCount(board, EffectiveColumn(k, field)) == Ok(ParseHeaders(board, field, n).value[k])
    ensures ParseHeaders(board, field, n).Err? ==>
      exists k: nat :: k < n && ColumnTaskCount(board, EffectiveColumn(k, field)) == Err(ParseHeaders(board, field, n).error)
                    && forall m: nat :: m < k ==> ColumnTaskCount(board, EffectiveColumn(m, field)).Ok?
  {
    if n > 0 {
      ParseHeadersMeaning(board, field, n - 1);
      var last := ColumnTaskCount(board, EffectiveColumn(n - 1, field));
      if ParseHeaders(board, field, n - 1).Ok? {
        var before := ParseHeaders(board, field, n - 1).value;
        if last.Ok? {
          assert ParseHeaders(board, field, n).value == before + [last.value];
        } else {
          assert forall m: nat :: m < n - 1 ==> ColumnTaskCount(board, EffectiveColumn(m, field)) == Ok(before[m]);
        }
      }
    }
  }

  /** All headers parse exactly when no header read fails. */
  lemma {:induction false} ParseHeadersOkIff(board: Board, field: nat, n: nat)
    requires n <= |board.headers|
    ensures ParseHeaders(board, field, n).Ok? <==>
      forall k: nat :: k < n ==> ColumnTaskCount(board, EffectiveColumn(k, field)).Ok?
  {
    if n > 0 {
      ParseHeadersOkIff(board, field, n - 1);
    }
  }

  /** Once a header fails, reading more headers does not change the error. */
  lemma {:induction false} ParseHeadersErrSticks(board: Board, field: nat, n: nat, m: nat)
    requires n <= m <= |board.headers|
    requires ParseHeaders(board, field, n).Err?
    ensures ParseHeaders(board, field, m) == ParseHeaders(board, field, n)
    decreases m
  {
    if n < m {
      ParseHeadersErrSticks(board, field, n, m - 1);
    }
  }

  /**
   * Header 0 is read through the field: on a fresh page (field 0) a first header
   * without a number stops the loop, but once `columnToWork` is 1 the same board
   * reads column 1's header in its place and parses.
   */
  lemma ColumnZeroReadThroughField()
    ensures ParseHeaders(Board(["TODO", "DOING (2)"], []), 0, 2) == Err(NoTaskCount(0))
    ensures ParseHeaders(Board(["TODO", "DOING (2)"], []), 1, 2) == Ok([2, 2])
  {
    var board := Board(["TODO", "DOING (2)"], []);
    FirstNumberMeaning(board.headers[0]);
    var h := board.headers[1];
    assert FirstNumberAt(h, 7, 8) by {
      assert h[7..8] == "2";
      assert forall m: nat :: m < 7 ==> !IsDigit(h[m]);
    }
    FirstNumberMeaning(h);
    assert DigitsValue(h[7..8]) == 2 by {
      assert h[7..8] == "2";
      assert h[7..8][..0] == [];
    }
    assert ColumnTaskCount(board, 1) == Ok(2);
    assert ParseHeaders(board, 1, 0) == Ok([]);
    assert EffectiveColumn(0, 1) == 1;
    assert [] + [2] == [2];
    assert ParseHeaders(board, 1, 1) == Ok([2]);
    assert [2] + [2] == [2, 2];
  }

  /** The field only stands in for header 0: every other header reads the same whatever it holds. */
  lemma ParseHeadersFieldOnlyAffectsColumnZero(board: Board, f: nat, g: nat, n: nat)
    requires n <= |board.headers|
    requires ParseHeaders(board, f, n).Ok? && ParseHeaders(board, g, n).Ok?
    ensures forall k :: 1 <= k < n ==> ParseHeaders(board, f, n).value[k] == ParseHeaders(board, g, n).value[k]
  {
    ParseHeadersMeaning(board, f, n);
    ParseHeadersMeaning(board, g, n);
    forall k | 1 <= k < n
      ensures ParseHeaders(board, f, n).value[k] == ParseHeaders(board, g, n).value[k]
    {
      assert EffectiveColumn(k, f) == EffectiveColumn(k, g) == k;
    }
  }

  // ---------------------------------------------------------------------------
  // Incomplete cards

  /** The callback of `findIncompleteCard`'s `map`: `match && completed < total`. */
  predicate IsIncomplete(text: string) {
    match Find(text, CardProgress)
    case Some((completed, total)) => completed < total
    case None => false
  }

  /**
   * A card is incomplete exactly when the leftmost `<a> of <b> substasks` in its
   * text has a < b; a text without that pattern is never incomplete.
   */
  lemma IncompleteIff(text: string)
    ensures IsIncomplete(text) <==>
      exists p: nat, i: nat, j: nat :: LeftmostMatchIs(text, CardProgress, p, i, j)
                                    && Groups(text, CardProgress, p, i, j).0 < Groups(text, CardProgress, p, i, j).1
  {
    FindIsLeftmostMatch(text, CardProgress);
    if p: nat, i: nat, j: nat :| LeftmostMatchIs(text, CardProgress, p, i, j)
                                && Groups(text, CardProgress, p, i, j).0 < Groups(text, CardProgress, p, i, j).1 {
      LeftmostMatchIsFound(text, CardProgress, p, i, j);
    }
  }

  /** The misspelled token is the contract: a card showing "1 of 2 substasks" is incomplete... */
  lemma MisspelledProgressIsRecognised()
    ensures IsIncomplete("1 of 2 substasks")
  {
    var good := "1 of 2 substasks";
    assert MatchesWith(good, CardProgress, 0, 1, 6) by {
      assert good[0..0] == "" && good[1..5] == " of " && good[6..16] == " substasks";
    }
    assert Groups(good, CardProgress, 0, 1, 6) == (1, 2);
    LeftmostMatchIsFound(good, CardProgress, 0, 1, 6);
  }

  /** ...while one showing the correctly spelled "1 of 2 subtasks" never is. */
  lemma CorrectSpellingIsNotRecognised()
    ensures !IsIncomplete("1 of 2 subtasks")
  {
    var bad := "1 of 2 subtasks";
    FindIsLeftmostMatch(bad, CardProgress);
    forall p: nat, i: nat, j: nat
      ensures !MatchesWith(bad, CardProgress, p, i, j)
    {
      if MatchesWith(bad, CardProgress, p, i, j) {
        assert false;
      }
    }
  }

  /** `findIncompleteCard` on the texts of one column. */
  function FindIncompleteCard(cards: seq<string>): (r: int)
    ensures -1 <= r < |cards|
  {
    FirstIncompleteFrom(cards, 0)
  }

  function FirstIncompleteFrom(cards: seq<string>, from: nat): (r: int)
    requires from <= |cards|
    ensures r == -1 || from <= r < |cards|
    decreases |cards| - from
  {
    if from == |cards| then -1
    else if IsIncomplete(cards[from]) then from
    else FirstIncompleteFrom(cards, from + 1)
  }

  /** The search from `from` finds the first incomplete card at or after `from`, or -1 when there is none. */
  lemma {:induction false} FirstIncompleteFromIsFirst(cards: seq<string>, from: nat)
    requires from <= |cards|
    ensures FirstIncompleteFrom(cards, from) == -1 <==> forall k :: from <= k < |cards| ==> !IsIncomplete(cards[k])
    ensures FirstIncompleteFrom(cards, from) != -1 ==>
      IsIncomplete(cards[FirstIncompleteFrom(cards, from)])
      && forall k :: from <= k < FirstIncompleteFrom(cards, from) ==> !IsIncomplete(cards[k])
    decreases |cards| - from
  {
    if from < |cards| && !IsIncomplete(cards[from]) {
      FirstIncompleteFromIsFirst(cards, from + 1);
    }
  }

  /**
   * `findIncompleteCard` gives the index of the first incomplete card of the
   * column, or -1 when there is none (an empty column included).
   */
  lemma FindIncompleteCardIsFirst(cards: seq<string>)
    ensures FindIncompleteCard(cards) == -1 <==> forall k :: 0 <= k < |cards| ==> !IsIncomplete(cards[k])
    ensures FindIncompleteCard(cards) != -1 ==>
      IsIncomplete(cards[FindIncompleteCard(cards)])
      && forall k :: 0 <= k < FindIncompleteCard(cards) ==> !IsIncomplete(cards[k])
  {
    FirstIncompleteFromIsFirst(cards, 0);
  }

  // ---------------------------------------------------------------------------
  // Column selection, stated over the parsed header counts

  /** Column `i` has its cards read by the scan's test: it is not the first column and its count is non-zero. */
  predicate Eligible(counts: seq<nat>, i: int) {
    1 <= i < |counts| && counts[i] > 0
  }

  /** `findIncompleteCard` of every column below `n`, in column order. */
  function FirstIncompleteCards(board: Board, n: nat): (firsts: seq<int>)
    ensures |firsts| == n
  {
    seq(n, k requires 0 <= k < n => FindIncompleteCard(Cards(board, k)))
  }

  /**
   * Column `i` would be chosen if the scan reached it; `firsts[i]` is
   * `findIncompleteCard(i)`.
   */
  predicate Hit(firsts: seq<int>, counts: seq<nat>, i: int) {
    Eligible(counts, i) && i < |firsts| && firsts[i] != -1
  }

  /** No column before `i` is a hit, so a scan in ascending order reaches `i`. */
  predicate Reached(firsts: seq<int>, counts: seq<nat>, i: int) {
    forall j :: 1 <= j < i ==> !Hit(firsts, counts, j)
  }

  /** A scan that passes a column without a hit reaches the next one. */
  lemma ReachedNext(firsts: seq<int>, counts: seq<nat>, i: int)
    requires Reached(firsts, counts, i) && !Hit(firsts, counts, i)
    ensures Reached(firsts, counts, i + 1)
  {
  }

  /** `i` is the smallest column that is a hit. */
  predicate FirstHit(firsts: seq<int>, counts: seq<nat>, i: int) {
    Hit(firsts, counts, i) && Reached(firsts, counts, i)
  }

  /** The eligible columns below `n`, in ascending order: the columns a scan up to `n` reads. */
  function EligibleBelow(counts: seq<nat>, n: nat): (r: seq<nat>)
    ensures r != [] ==> Eligible(counts, r[|r| - 1]) && r[|r| - 1] < n
  {
    if n <= 1 then []
    else EligibleBelow(counts, n - 1) + (if Eligible(counts, n - 1) then [n - 1] else [])
  }

  /** `EligibleBelow(counts, n)` holds exactly the eligible columns below `n`. */
  lemma {:induction false} EligibleBelowMembers(counts: seq<nat>, n: nat)
    ensures forall k :: k in EligibleBelow(counts, n) <==> Eligible(counts, k) && k < n
  {
    if n > 1 {
      EligibleBelowMembers(counts, n - 1);
      var below := EligibleBelow(counts, n - 1);
      var tail: seq<nat> := if Eligible(counts, n - 1) then [n - 1] else [];
      assert EligibleBelow(counts, n) == below + tail;
    }
  }

  /** The columns in `EligibleBelow(counts, n)` come in ascending order, each once. */
  lemma {:induction false} EligibleBelowAscending(counts: seq<nat>, n: nat)
    ensures forall a, b :: 0 <= a < b < |EligibleBelow(counts, n)| ==> EligibleBelow(counts, n)[a] < EligibleBelow(counts, n)[b]
  {
    if n > 1 {
      EligibleBelowAscending(counts, n - 1);
      var below := EligibleBelow(counts, n - 1);
      var r := EligibleBelow(counts, n);
      forall a, b | 0 <= a < b < |r|
        ensures r[a] < r[b]
      {
        if b >= |below| {
          EligibleBelowMembers(counts, n - 1);
          assert below[a] in below;
        }
      }
    }
  }

  /**
   * What the second loop of `chooseWorkingColum` leaves behind, given the header
   * counts and the fields before it (`column0`, `card0`):
   *   - `column` is the first hit, or `column0` when there is none;
   *   - `inspected`, the columns whose cards were read, are the eligible ones up
   *     to the first hit, or all eligible ones when there is none;
   *   - `card` is the result for the last column read (`cardToWork` is
   *     overwritten for each), or `card0` when no column was read.
   */
  ghost predicate ScanOutcome(firsts: seq<int>, counts: seq<nat>, column0: nat, card0: int,
                              column: nat, card: int, inspected: seq<nat>)
  {
    && |firsts| == |counts|
    && (if exists i :: Hit(firsts, counts, i)
        then FirstHit(firsts, counts, column) && inspected == EligibleBelow(counts, column + 1)
        else column == column0 && inspected == EligibleBelow(counts, |counts|))
    && card == (if inspected == [] then card0 else firsts[Last(inspected)])
  }

  function Last(s: seq<nat>): (x: nat)
    requires s != []
    ensures x in s
  {
    s[|s| - 1]
  }

  /** The scan stopped at column `i`, the first hit: that is the outcome `ScanOutcome` describes. */
  lemma ScanStopsAtFirstHit(firsts: seq<int>, counts: seq<nat>, column0: nat, card0: int,
                            i: nat, inspected: seq<nat>)
    requires |firsts| == |counts|
    requires FirstHit(firsts, counts, i)
    requires inspected == EligibleBelow(counts, i) + [i]
    ensures ScanOutcome(firsts, counts, column0, card0, i, firsts[i], inspected)
  {
    assert Hit(firsts, counts, i);
    assert Last(inspected) == i;
  }

  /** The scan went past the last column without a hit: that is the outcome `ScanOutcome` describes. */
  lemma ScanFindsNoHit(firsts: seq<int>, counts: seq<nat>, column0: nat, card0: int,
                       card: int, inspected: seq<nat>)
    requires |firsts| == |counts|
    requires Reached(firsts, counts, |counts|)
    requires inspected == EligibleBelow(counts, |counts|)
    requires card == if inspected == [] then card0 else firsts[Last(inspected)]
    ensures ScanOutcome(firsts, counts, column0, card0, column0, card, inspected)
  {
    assert forall i :: !Hit(firsts, counts, i);
  }

  /**
   * With a hit, the scan picks the smallest such column and its first incomplete
   * card, and it read no column after that one.
   */
  lemma ScanOutcomeHit(firsts: seq<int>, counts: seq<nat>, column0: nat, card0: int,
                       column: nat, card: int, inspected: seq<nat>)
    requires ScanOutcome(firsts, counts, column0, card0, column, card, inspected)
    requires exists i :: Hit(firsts, counts, i)
    ensures 1 <= column < |counts| && counts[column] > 0
    ensures forall j :: 1 <= j < column ==> !Hit(firsts, counts, j)
    ensures card == firsts[column] && card != -1
    ensures forall k :: k in inspected ==> k <= column
  {
    assert FirstHit(firsts, counts, column);
    assert inspected == EligibleBelow(counts, column) + [column];
    assert Last(inspected) == column;
    EligibleBelowMembers(counts, column + 1);
  }

  /**
   * Without a hit, the column is left as it was, and the card is -1 when some
   * column was read and left as it was otherwise.
   */
  lemma ScanOutcomeNoHit(firsts: seq<int>, counts: seq<nat>, column0: nat, card0: int,
                         column: nat, card: int, inspected: seq<nat>)
    requires ScanOutcome(firsts, counts, column0, card0, column, card, inspected)
    requires forall i :: !Hit(firsts, counts, i)
    ensures column == column0
    ensures card == if exists i :: Eligible(counts, i) then -1 else card0
  {
    EligibleBelowMembers(counts, |counts|);
    if inspected != [] {
      assert !Hit(firsts, counts, Last(inspected));
    }
  }

  /**
   * The branch `chooseCardToComplete` takes after the selection: the direct click
   * (column outside 0, card found) happens exactly when some column is a hit, or
   * when no column was eligible and the fields already held such a pair from
   * before. On a fresh page (`column0 == 0`) it is exactly "some column is a hit".
   */
  lemma DirectClickIff(firsts: seq<int>, counts: seq<nat>, column0: nat, card0: int,
                       column: nat, card: int, inspected: seq<nat>)
    requires ScanOutcome(firsts, counts, column0, card0, column, card, inspected)
    ensures (column > 0 && card != -1) <==>
      (exists i :: Hit(firsts, counts, i))
      || (column0 > 0 && card0 != -1 && forall i :: !Eligible(counts, i))
  {
    if exists i :: Hit(firsts, counts, i) {
      ScanOutcomeHit(firsts, counts, column0, card0, column, card, inspected);
    } else {
      ScanOutcomeNoHit(firsts, counts, column0, card0, column, card, inspected);
    }
  }

  // ---------------------------------------------------------------------------
  // Relocation, strikethrough and summary

  /**
   * `clickCardInFirstColumn`'s choice among the first column's cards that show
   * `name`: the last one in display order; none is an error naming the task.
   */
  function LastMatchingCard(cards: seq<string>, name: string): (r: Result<nat, Error>)
    ensures r.Ok? <==> exists k :: 0 <= k < |cards| && Contains(cards[k], name)
    ensures r.Ok? ==> r.value < |cards| && Contains(cards[r.value], name)
    ensures r.Ok? ==> forall k :: r.value < k < |cards| ==> !Contains(cards[k], name)
    ensures r.Err? ==> r.error == CardNotInFirstColumn(name)
  {
    if cards == [] then Err(CardNotInFirstColumn(name))
    else if Contains(cards[|cards| - 1], name) then Ok(|cards| - 1)
    else
      var r := LastMatchingCard(cards[..|cards| - 1], name);
      assert forall k :: 0 <= k < |cards| - 1 ==> cards[..|cards| - 1][k] == cards[k];
      r
  }

  /** `isTextStrikedThrough`: the computed `text-decoration` includes `line-through`. */
  predicate IsStruckThrough(decoration: string) {
    Contains(decoration, "line-through")
  }

  /** The text `verifyNumberOfCompletedSubtasksIsCorrect` waits for. */
  function ExpectedSummary(count: nat): string {
    " Subtasks (" + NatToString(count) + " of " + NatToString(count) + ") "
  }

  /** The expected summary matches the summary pattern from its second character, with `count` in both groups. */
  lemma ExpectedSummaryMatches(count: nat, i: nat, j: nat)
    requires i == 11 + |NatToString(count)| && j == i + 4 + |NatToString(count)|
    ensures MatchesWith(ExpectedSummary(count), SubtaskSummary, 1, i, j)
    ensures Groups(ExpectedSummary(count), SubtaskSummary, 1, i, j) == (count, count)
  {
    var d := NatToString(count);
    var s := ExpectedSummary(count);
    assert s[1..11] == "Subtasks (";
    assert s[i..i + 4] == " of ";
    assert s[j..j + 1] == ")";
    assert s[11..i] == d;
    assert s[i + 4..j] == d;
    assert NumberAt(s, 11, i) == count by {
      NumberAtIsDigitsValue(s, 11, i);
    }
    assert NumberAt(s, i + 4, j) == count by {
      NumberAtIsDigitsValue(s, i + 4, j);
    }
  }

  /** The expected summary starts with a space, so the summary pattern cannot match at its first character. */
  lemma ExpectedSummaryNoMatchAtStart(count: nat)
    ensures forall i: nat, j: nat :: !MatchesWith(ExpectedSummary(count), SubtaskSummary, 0, i, j)
  {
    var s := ExpectedSummary(count);
    assert s[0..10][0] == s[0] == ' ';
  }

  /** Read back, the expected summary states `count` done out of `count`. */
  lemma ExpectedSummaryReadsBack(count: nat)
    ensures Find(ExpectedSummary(count), SubtaskSummary) == Some((count, count))
  {
    var i := 11 + |NatToString(count)|;
    var j := i + 4 + |NatToString(count)|;
    ExpectedSummaryMatches(count, i, j);
    ExpectedSummaryNoMatchAtStart(count);
    LeftmostMatchIsFound(ExpectedSummary(count), SubtaskSummary, 1, i, j);
  }
}
