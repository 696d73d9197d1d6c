/**
 * The `KanbanPage` page object: the workflow memory it keeps in its fields
 * (`columnToWork`, `cardToWork`, `subTasksCount`, `taskName`) and the steps that
 * read and update it. What the browser would return is passed in: the board
 * texts, the subtask checkboxes and labels, the modal's texts, and whether a
 * click reaches its target.
 */
module Kanban {
  import opened Wrappers
  import opened Strings
  import opened Patterns
  import opened Inspector

  /** One `label span` of the open card: its inner text and its computed `text-decoration`. */
  datatype SubtaskLabel = SubtaskLabel(text: string, decoration: string)

  /** The card `chooseCardToComplete` clicked, and whether that was the fallback click. */
  datatype OpenedCard = OpenedCard(column: nat, card: int, fallback: bool)

  class KanbanPage {
    var columnToWork: nat
    var cardToWork: int
    var subTasksCount: nat
    var taskName: string

    constructor()
      ensures columnToWork == 0 && cardToWork == 0
      ensures subTasksCount == 0 && taskName == ""
    {
      columnToWork, cardToWork := 0, 0;
      subTasksCount, taskName := 0, "";
    }

    /**
     * The first loop of `chooseWorkingColum`: the task count of every header, in
     * order, each read by `getColumnTaskCount` (so column 0's is read through
     * `columnToWork`); the first header without a number ends the loop with its error.
     */
    method ReadTaskCounts(board: Board) returns (r: Result<seq<nat>, Error>)
      ensures r == ParseHeaders(board, columnToWork, |board.headers|)
    {
      var columns := |board.headers|;
      var counts := new nat[columns];
      var i := 0;
      while i < columns
        invariant 0 <= i <= columns
        invariant ParseHeaders(board, columnToWork, i) == Ok(counts[..i])
      {
        var count := ColumnTaskCount(board, EffectiveColumn(i, columnToWork));
        if count.Err? {
          ParseHeadersErrSticks(board, columnToWork, i + 1, columns);
          return Err(count.error);
        }
        counts[i] := count.value;
        assert counts[..i + 1] == counts[..i] + [count.value];
        i := i + 1;
      }
      assert counts[..] == counts[..columns];
      return Ok(counts[..]);
    }

    /**
     * The second loop of `chooseWorkingColum`, given the header counts: columns
     * 1.. are scanned in order; a column with a non-zero count has its cards read
     * and `cardToWork` overwritten, and the first one holding an incomplete card
     * becomes `columnToWork`, ending the scan. `inspected` records the columns
     * whose cards were read.
     */
    method ScanColumns(board: Board, counts: seq<nat>) returns (ghost inspected: seq<nat>)
      requires |counts| == |board.headers|
      modifies this`columnToWork, this`cardToWork
      ensures ScanOutcome(FirstIncompleteCards(board, |counts|), counts,
                          old(columnToWork), old(cardToWork), columnToWork, cardToWork, inspected)
    {
      ghost var column0, card0 := columnToWork, cardToWork;
      var columns := |counts|;
      ghost var firsts := FirstIncompleteCards(board, columns);
      inspected := [];
      var i := 1;
      while i < columns
        invariant 1 <= i && (columns > 0 ==> i <= columns)
        invariant columnToWork == column0
        invariant Reached(firsts, counts, i)
        invariant inspected == EligibleBelow(counts, i)
        invariant cardToWork == if inspected == [] then card0 else firsts[Last(inspected)]
      {
        if counts[i] > 0 {
          var card := FindIncompleteCard(Cards(board, i));
          assert firsts[i] == card;
          inspected := inspected + [i];
          cardToWork := card;
          if card != -1 {
            columnToWork := i;
            ScanStopsAtFirstHit(firsts, counts, column0, card0, i, inspected);
            return;
          }
        }
        ReachedNext(firsts, counts, i);
        i := i + 1;
      }
      ScanFindsNoHit(firsts, counts, column0, card0, cardToWork, inspected);
    }

    /**
     * `chooseWorkingColum`: reads every header first (column 0's through
     * `columnToWork`, see `EffectiveColumn`) and stops at the first one without a
     * number, changing nothing; then scans columns 1.. in order as `ScanOutcome`
     * describes.
     */
    method ChooseWorkingColumn(board: Board) returns (r: Outcome<Error>, ghost inspected: seq<nat>)
      modifies this`columnToWork, this`cardToWork
      ensures subTasksCount == old(subTasksCount) && taskName == old(taskName)
      ensures ParseHeaders(board, old(columnToWork), |board.headers|).Err? ==>
        && r == Fail(ParseHeaders(board, old(columnToWork), |board.headers|).error)
        && columnToWork == old(columnToWork) && cardToWork == old(cardToWork)
        && inspected == []
      ensures ParseHeaders(board, old(columnToWork), |board.headers|).Ok? ==>
        && r == Pass
        && ScanOutcome(FirstIncompleteCards(board, |board.headers|),
                       ParseHeaders(board, old(columnToWork), |board.headers|).value,
                       old(columnToWork), old(cardToWork), columnToWork, cardToWork, inspected)
    {
      var parsed := ReadTaskCounts(board);
      if parsed.Err? {
        return Fail(parsed.error), [];
      }
      inspected := ScanColumns(board, parsed.value);
      r := Pass;
    }

    /**
     * `chooseCardToComplete`: after the selection, the selected card is clicked
     * when it lies outside column 0 and was found; otherwise one click on the
     * current (column, card) is tried, and its failure becomes
     * `NoIncompleteTasks`. `clickSucceeds` says whether a click reaches its target.
     */
    method ChooseCardToComplete(board: Board, clickSucceeds: (nat, int) -> bool)
      returns (r: Result<OpenedCard, Error>, ghost inspected: seq<nat>)
      modifies this`columnToWork, this`cardToWork
      ensures subTasksCount == old(subTasksCount) && taskName == old(taskName)
      ensures ParseHeaders(board, old(columnToWork), |board.headers|).Err? ==>
        && r == Err(ParseHeaders(board, old(columnToWork), |board.headers|).error)
        && columnToWork == old(columnToWork) && cardToWork == old(cardToWork)
      ensures ParseHeaders(board, old(columnToWork), |board.headers|).Ok? ==>
        && ScanOutcome(FirstIncompleteCards(board, |board.headers|),
                       ParseHeaders(board, old(columnToWork), |board.headers|).value,
                       old(columnToWork), old(cardToWork), columnToWork, cardToWork, inspected)
        && (r.Ok? <==> clickSucceeds(columnToWork, cardToWork))
        && (r.Ok? ==> r.value == OpenedCard(columnToWork, cardToWork, !(columnToWork > 0 && cardToWork != -1)))
        && (r.Err? ==> r.error == if columnToWork > 0 && cardToWork != -1 then ElementNotFound else NoIncompleteTasks)
    {
      var chosen;
      chosen, inspected := ChooseWorkingColumn(board);
      if chosen.Fail? {
        return Err(chosen.error), inspected;
      }
      if columnToWork > 0 && cardToWork != -1 {
        if clickSucceeds(columnToWork, cardToWork) {
          r := Ok(OpenedCard(columnToWork, cardToWork, false));
        } else {
          r := Err(ElementNotFound);
        }
      } else {
        if clickSucceeds(columnToWork, cardToWork) {
          r := Ok(OpenedCard(columnToWork, cardToWork, true));
        } else {
          r := Err(NoIncompleteTasks);
        }
      }
    }

    /**
     * `completeSubTaks`: checks every checkbox of the open card, whatever its
     * state, and counts each one; the counter is never reset.
     */
    method CompleteSubtasks(checkboxes: seq<bool>) returns (checked: seq<bool>)
      modifies this`subTasksCount
      ensures subTasksCount == old(subTasksCount) + |checkboxes|
      ensures |checked| == |checkboxes| && forall k :: 0 <= k < |checked| ==> checked[k]
    {
      checked := [];
      for k := 0 to |checkboxes|
        invariant |checked| == k && forall m :: 0 <= m < k ==> checked[m]
        invariant subTasksCount == old(subTasksCount) + k
      {
        checked := checked + [true];
        subTasksCount := subTasksCount + 1;
      }
    }

    /** `closeEditModal`: the card title is captured before the closing clicks. */
    method CloseEditModal(title: string)
      modifies this`taskName
      ensures taskName == title
    {
      taskName := title;
    }

    /**
     * `verifySubtasksAreStrikedThrough`: passes when every label is struck
     * through; otherwise fails on the first label that is not, naming its text.
     */
    method VerifySubtasksAreStruckThrough(labels: seq<SubtaskLabel>) returns (r: Outcome<Error>)
      ensures r.Pass? <==> forall k :: 0 <= k < |labels| ==> IsStruckThrough(labels[k].decoration)
      ensures r.Fail? ==> exists k :: 0 <= k < |labels| && !IsStruckThrough(labels[k].decoration)
                                   && r.error == NotStruckThrough(labels[k].text)
                                   && forall m :: 0 <= m < k ==> IsStruckThrough(labels[m].decoration)
    {
      for k := 0 to |labels|
        invariant forall m :: 0 <= m < k ==> IsStruckThrough(labels[m].decoration)
      {
        if !IsStruckThrough(labels[k].decoration) {
          return Fail(NotStruckThrough(labels[k].text));
        }
      }
      return Pass;
    }

    /**
     * `clickCardInFirstColumn`: among the first column's cards showing the
     * captured `taskName`, the last one is clicked.
     */
    method ClickCardInFirstColumn(board: Board) returns (r: Result<nat, Error>)
      ensures r.Ok? <==> exists k :: 0 <= k < |Cards(board, 0)| && Contains(Cards(board, 0)[k], taskName)
      ensures r.Ok? ==> r.value < |Cards(board, 0)| && Contains(Cards(board, 0)[r.value], taskName)
                        && forall k :: r.value < k < |Cards(board, 0)| ==> !Contains(Cards(board, 0)[k], taskName)
      ensures r.Err? ==> r.error == CardNotInFirstColumn(taskName)
    {
      r := LastMatchingCard(Cards(board, 0), taskName);
    }

    /**
     * `verifyNumberOfCompletedSubtasksIsCorrect`: some text of the modal shows
     * the summary with `subTasksCount` as both numbers.
     */
    method VerifyNumberOfCompletedSubtasks(modalTexts: seq<string>) returns (r: Outcome<Error>)
      ensures r.Pass? <==> exists k :: 0 <= k < |modalTexts| && Contains(modalTexts[k], ExpectedSummary(subTasksCount))
      ensures r.Fail? ==> r.error == SummaryNotVisible(ExpectedSummary(subTasksCount))
    {
      var expected := ExpectedSummary(subTasksCount);
      if exists k :: 0 <= k < |modalTexts| && Contains(modalTexts[k], expected) {
        r := Pass;
      } else {
        r := Fail(SummaryNotVisible(expected));
      }
    }
  }
}
