/** Spring Data JPA specifications as the listing queries use them. A
    specification is a lambda that builds a criteria predicate; the lambda
    itself may be null, and so may the predicate it builds. `allOf` skips both
    kinds of null and conjoins the rest. */
module Specifications {
  import opened Wrappers
  import opened Text

  /** The criteria predicates the core builds. */
  datatype Criterion =
    | ArchivedEquals(archived: bool)   // cb.equal(root.get("isArchived"), archived)
    | BoardIdEquals(boardId: int)      // cb.equal(root.get("board").get("id"), boardId)
    | NameLike(needle: string)         // cb.like(cb.lower(root.get("name")), "%" + needle + "%")

  /** A non-null specification; `pred == None` is a lambda returning null. */
  datatype Spec = Spec(pred: Option<Criterion>)

  /** The columns a criterion reads; `boardId` is the task's board foreign key
      (always None for a board, which has none). */
  datatype Columns = Columns(isArchived: bool, name: Option<string>, boardId: Option<int>)

  /** SQL truth of one predicate on one row: a comparison with NULL is not
      true, so a null name or a missing board never matches. The LIKE
      pattern is read as a plain substring test. */
  predicate Holds(c: Criterion, row: Columns) {
    match c
    case ArchivedEquals(a) => row.isArchived == a
    case BoardIdEquals(b) => row.boardId == Some(b)
    case NameLike(needle) => row.name.Some? && Contains(ToLower(row.name.value), needle)
  }

  /** `Specification.allOf(specs)` applied to a row. */
  predicate AllOf(specs: seq<Option<Spec>>, row: Columns) {
    forall i | 0 <= i < |specs| && specs[i].Some? && specs[i].value.pred.Some? ::
      Holds(specs[i].value.pred.value, row)
  }

  /** `allOf` over a concatenation is the conjunction of the two halves. */
  lemma AllOfAppend(a: seq<Option<Spec>>, b: seq<Option<Spec>>, row: Columns)
    ensures AllOf(a + b, row) <==> AllOf(a, row) && AllOf(b, row)
  {
    assert forall i | 0 <= i < |b| :: (a + b)[|a| + i] == b[i];
    assert forall i | 0 <= i < |a| :: (a + b)[i] == a[i];
  }

  /** `allOf` of one specification is that specification's predicate, if any. */
  lemma AllOfSingle(s: Option<Spec>, row: Columns)
    ensures AllOf([s], row) <==> (s.Some? && s.value.pred.Some? ==> Holds(s.value.pred.value, row))
  {
    if s.Some? && s.value.pred.Some? && !Holds(s.value.pred.value, row) {
      assert [s][0] == s;
    }
  }

  /** Null specifications and null predicates add no constraint. */
  lemma AllOfSkipsNull(a: seq<Option<Spec>>, row: Columns)
    ensures AllOf([None] + a, row) <==> AllOf(a, row)
    ensures AllOf([Some(Spec(None))] + a, row) <==> AllOf(a, row)
  {
    AllOfAppend([None], a, row);
    AllOfAppend([Some(Spec(None))], a, row);
  }

  /** `nameContainsIgnoreCase(searchText)`, shared by both entities: null for
      blank text, otherwise a LIKE on the lower-cased name with the trimmed,
      lower-cased text. */
  function NameContainsIgnoreCase(searchText: Option<string>): (s: Option<Spec>)
    ensures s.None? <==> IsBlank(searchText)
  {
    if IsBlank(searchText) then None
    else Some(Spec(Some(NameLike(ToLower(Trim(searchText.value))))))
  }

  /** `hasArchived(archived)`, shared by both entities. */
  function HasArchived(archived: bool): Option<Spec> {
    Some(Spec(Some(ArchivedEquals(archived))))
  }

  /** A non-blank search text matches exactly the rows whose lower-cased name
      contains the trimmed, lower-cased text. */
  lemma NameContainsMatches(searchText: Option<string>, row: Columns)
    requires !IsBlank(searchText)
    ensures AllOf([NameContainsIgnoreCase(searchText)], row) <==>
      row.name.Some? && Contains(ToLower(row.name.value), ToLower(Trim(searchText.value)))
  {
    AllOfSingle(NameContainsIgnoreCase(searchText), row);
  }

  lemma HasArchivedMatches(archived: bool, row: Columns)
    ensures AllOf([HasArchived(archived)], row) <==> row.isArchived == archived
  {
    AllOfSingle(HasArchived(archived), row);
  }
}

/** `BoardSpecifications`. */
module BoardSpecifications {
  import opened Wrappers
  import opened Text
  import opened Entities
  import opened Specifications

  function BoardColumns(b: BoardRecord): Columns {
    Columns(b.isArchived, b.data.name, None)
  }

  /** `filterBoards(searchText, archived)`. */
  function FilterBoards(searchText: Option<string>, archived: bool): (specs: seq<Option<Spec>>)
    ensures |specs| == 2
  {
    [HasArchived(archived), NameContainsIgnoreCase(searchText)]
  }

  /** The rows `filterBoards` selects: the archived flag matches, and the name
      contains the text unless the text is blank. */
  lemma FilterBoardsMatches(searchText: Option<string>, archived: bool, b: BoardRecord)
    ensures AllOf(FilterBoards(searchText, archived), BoardColumns(b)) <==>
      b.isArchived == archived &&
      (IsBlank(searchText) ||
        (b.data.name.Some? && Contains(ToLower(b.data.name.value), ToLower(Trim(searchText.value)))))
  {
    var row := BoardColumns(b);
    assert FilterBoards(searchText, archived) == [HasArchived(archived)] + [NameContainsIgnoreCase(searchText)];
    AllOfAppend([HasArchived(archived)], [NameContainsIgnoreCase(searchText)], row);
    HasArchivedMatches(archived, row);
    if !IsBlank(searchText) {
      NameContainsMatches(searchText, row);
    }
  }

  /** With blank text the filter is `hasArchived` alone. */
  lemma BlankFilterIsArchivedOnly(searchText: Option<string>, archived: bool, b: BoardRecord)
    requires IsBlank(searchText)
    ensures AllOf(FilterBoards(searchText, archived), BoardColumns(b)) <==>
      AllOf([HasArchived(archived)], BoardColumns(b))
  {
    FilterBoardsMatches(searchText, archived, b);
    HasArchivedMatches(archived, BoardColumns(b));
  }
}

/** `TaskSpecifications`. */
module TaskSpecifications {
  import opened Wrappers
  import opened Text
  import opened Entities
  import opened Specifications

  function TaskColumns(t: TaskRecord): Columns {
    Columns(t.isArchived, t.data.name, t.data.boardId)
  }

  /** `hasBoardId(boardId)`: a specification whose predicate is null when the
      id is null. */
  function HasBoardId(boardId: Option<int>): (s: Option<Spec>)
    ensures s.Some? && (s.value.pred.None? <==> boardId.None?)
  {
    Some(Spec(if boardId.Some? then Some(BoardIdEquals(boardId.value)) else None))
  }

  /** `filterTasks(searchText, archived)`. */
  function FilterTasks(searchText: Option<string>, archived: bool): (specs: seq<Option<Spec>>)
    ensures |specs| == 2
  {
    [HasArchived(archived), NameContainsIgnoreCase(searchText)]
  }

  /** `filterTasksOfBoard(boardId, searchText, archived)`. */
  function FilterTasksOfBoard(boardId: Option<int>, searchText: Option<string>, archived: bool): (specs: seq<Option<Spec>>)
    ensures |specs| == 3
  {
    [HasArchived(archived), HasBoardId(boardId), NameContainsIgnoreCase(searchText)]
  }

  lemma HasBoardIdMatches(boardId: Option<int>, t: TaskRecord)
    ensures AllOf([HasBoardId(boardId)], TaskColumns(t)) <==>
      boardId.None? || t.data.boardId == boardId
  {
    AllOfSingle(HasBoardId(boardId), TaskColumns(t));
  }

  /** The rows `filterTasks` selects. */
  lemma FilterTasksMatches(searchText: Option<string>, archived: bool, t: TaskRecord)
    ensures AllOf(FilterTasks(searchText, archived), TaskColumns(t)) <==>
      t.isArchived == archived &&
      (IsBlank(searchText) ||
        (t.data.name.Some? && Contains(ToLower(t.data.name.value), ToLower(Trim(searchText.value)))))
  {
    var row := TaskColumns(t);
    assert FilterTasks(searchText, archived) == [HasArchived(archived)] + [NameContainsIgnoreCase(searchText)];
    AllOfAppend([HasArchived(archived)], [NameContainsIgnoreCase(searchText)], row);
    HasArchivedMatches(archived, row);
    if !IsBlank(searchText) {
      NameContainsMatches(searchText, row);
    }
  }

  /** The rows `filterTasksOfBoard` selects: those of `filterTasks` that also
      belong to the board, when one is given. */
  lemma FilterTasksOfBoardMatches(boardId: Option<int>, searchText: Option<string>, archived: bool, t: TaskRecord)
    ensures AllOf(FilterTasksOfBoard(boardId, searchText, archived), TaskColumns(t)) <==>
      AllOf(FilterTasks(searchText, archived), TaskColumns(t)) &&
      (boardId.None? || t.data.boardId == boardId)
  {
    var row := TaskColumns(t);
    assert FilterTasksOfBoard(boardId, searchText, archived) ==
      [HasArchived(archived)] + ([HasBoardId(boardId)] + [NameContainsIgnoreCase(searchText)]);
    assert FilterTasks(searchText, archived) == [HasArchived(archived)] + [NameContainsIgnoreCase(searchText)];
    AllOfAppend([HasArchived(archived)], [HasBoardId(boardId)] + [NameContainsIgnoreCase(searchText)], row);
    AllOfAppend([HasBoardId(boardId)], [NameContainsIgnoreCase(searchText)], row);
    AllOfAppend([HasArchived(archived)], [NameContainsIgnoreCase(searchText)], row);
    HasBoardIdMatches(boardId, t);
  }

  /** The board-scoped filter keeps a subset of what the plain one keeps, and
      without a board id it keeps the same rows. */
  lemma FilterTasksOfBoardSubset(boardId: Option<int>, searchText: Option<string>, archived: bool, t: TaskRecord)
    ensures AllOf(FilterTasksOfBoard(boardId, searchText, archived), TaskColumns(t)) ==>
      AllOf(FilterTasks(searchText, archived), TaskColumns(t))
    ensures boardId.None? ==>
      (AllOf(FilterTasksOfBoard(boardId, searchText, archived), TaskColumns(t)) <==>
       AllOf(FilterTasks(searchText, archived), TaskColumns(t)))
  {
    FilterTasksOfBoardMatches(boardId, searchText, archived, t);
  }
}
