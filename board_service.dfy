/** `BoardServiceImpl`: reading, creating, updating, archiving, restoring
    (optionally with the board's archived tasks) and deleting boards. The
    task side of a restore goes through `TaskServiceImpl`. A failing
    operation returns the exception it would throw and, its transaction
    rolling back, changes nothing. */
module BoardServices {
  import opened Wrappers
  import opened Collections
  import opened Text
  import opened Entities
  import opened Models
  import opened Table
  import opened Repositories
  import opened ServiceErrors
  import opened DefaultNames
  import opened TaskServices
  import BoardRepository
  import TaskMapper
  import BoardMapper

  /** The prefix of `getNextDefaultName`. */
  const BoardPrefix: string := "New Board"

  lemma BoardPrefixGood()
    ensures GoodPrefix(BoardPrefix)
  {
  }

  /** The task belongs to board `boardId` (its `board_id` column). */
  predicate OfBoard(boardId: int, t: TaskRecord) {
    t.data.boardId == Some(boardId)
  }

  function OfBoardFilter(boardId: int): TaskRecord -> bool {
    (t: TaskRecord) => OfBoard(boardId, t)
  }

  /** `board.getTaskList()` as Hibernate loads it: every task whose
      `board_id` is the board's id, archived or not, in ascending id order. */
  function TaskListOf(rows: Rows<TaskData>, boardId: int): (r: Option<seq<Option<TaskRecord>>>)
    ensures r.Some? && CountSome(r.value) == |r.value|
  {
    var found := RecordsAt(rows, FindAll(rows, OfBoardFilter(boardId)));
    NonNullLength(AllSome(found));
    NonNullAllSome(found);
    Some(AllSome(found))
  }

  /** The loaded list holds each task of the board, and no other task. */
  lemma TaskListOfMembers(rows: Rows<TaskData>, boardId: int, t: TaskRecord)
    ensures Some(t) in TaskListOf(rows, boardId).value <==>
      exists k | k in rows :: rows[k] == t && OfBoard(boardId, t)
  {
    var ks := FindAll(rows, OfBoardFilter(boardId));
    var found := RecordsAt(rows, ks);
    var r := TaskListOf(rows, boardId).value;
    if Some(t) in r {
      var i :| 0 <= i < |r| && r[i] == Some(t);
      assert found[i] == t;
      assert ks[i] in ks;
    }
    if exists k | k in rows :: rows[k] == t && OfBoard(boardId, t) {
      var k :| k in rows && rows[k] == t && OfBoard(boardId, t);
      assert OfBoardFilter(boardId)(rows[k]);
      var i :| 0 <= i < |ks| && ks[i] == k;
      assert r[i] == Some(t);
    }
  }

  /** The columns `create` saves: the mapped model with `defaultName` in
      place of a blank name. */
  function CreatedBoard(model: BoardModel, defaultName: string): BoardRecord {
    var b := BoardMapper.EntityColumns(model);
    b.(data := b.data.(name := if IsBlank(b.data.name) then Some(defaultName) else b.data.name))
  }

  /** `update` on a loaded board: the model's name when it is not blank,
      and the model's description even when it is null. */
  function UpdatedBoard(b: BoardRecord, model: BoardModel): BoardRecord {
    b.(data := b.data.(
      name := if IsBlank(model.name) then b.data.name else model.name,
      description := model.description))
  }

  /** A created board is active, always has a non-blank name, and keeps the
      model's id, description and non-blank name. */
  lemma CreatedBoardComplete(model: BoardModel, names: seq<Option<string>>)
    ensures var b := CreatedBoard(model, DefaultName(BoardPrefix, names));
      b.id == model.id && !b.isArchived && !IsBlank(b.data.name) &&
      b.data.description == model.description &&
      (!IsBlank(model.name) ==> b.data.name == model.name) &&
      (IsBlank(model.name) ==> b.data.name == Some(DefaultName(BoardPrefix, names)))
  {
    BoardPrefixGood();
    DefaultNameNotBlank(BoardPrefix, names);
  }

  /** An update keeps the id and the flag, never blanks the name, and is
      idempotent. */
  lemma UpdatedBoardKeeps(b: BoardRecord, model: BoardModel)
    ensures var u := UpdatedBoard(b, model);
      u.id == b.id && u.isArchived == b.isArchived &&
      (!IsBlank(b.data.name) ==> !IsBlank(u.data.name)) &&
      u.data.description == model.description
    ensures UpdatedBoard(UpdatedBoard(b, model), model) == UpdatedBoard(b, model)
  {
  }

  /** The archived tasks of the boards in `boardIds`. */
  function ArchivedTasksOf(rows: Rows<TaskData>, boardIds: set<int>): set<int> {
    set k | k in rows && rows[k].isArchived && rows[k].data.boardId.Some? && rows[k].data.boardId.value in boardIds
  }

  /** The cascade of a board restore: every archived task of those boards
      becomes active. */
  function RestoreTasksOf(rows: Rows<TaskData>, boardIds: set<int>): Rows<TaskData> {
    SetFlag(rows, Some(ArchivedTasksOf(rows, boardIds)), true)
  }

  /** The cascade touches exactly the archived tasks of the given boards,
      and leaves none of their tasks archived. */
  lemma RestoreTasksOfChanges(rows: Rows<TaskData>, boardIds: set<int>)
    ensures RestoreTasksOf(rows, boardIds).Keys == rows.Keys
    ensures forall k | k in rows ::
      RestoreTasksOf(rows, boardIds)[k] ==
        if rows[k].isArchived && rows[k].data.boardId.Some? && rows[k].data.boardId.value in boardIds
        then rows[k].(isArchived := false) else rows[k]
    ensures forall k | k in rows && rows[k].data.boardId.Some? && rows[k].data.boardId.value in boardIds ::
      !RestoreTasksOf(rows, boardIds)[k].isArchived
  {
  }

  /** Restoring the tasks of two sets of boards is restoring those of their
      union. */
  lemma ArchivedTasksOfUnion(rows: Rows<TaskData>, a: set<int>, b: set<int>)
    ensures ArchivedTasksOf(rows, a + b) == ArchivedTasksOf(rows, a) + ArchivedTasksOf(rows, b)
  {
  }

  /** The ids of a list of models, as `map(TaskModel::getId)` collects
      them. */
  function IdsOf(ms: seq<TaskModel>): (r: seq<int>)
    requires forall i | 0 <= i < |ms| :: ms[i].id.Some?
    ensures |r| == |ms| && forall i | 0 <= i < |ms| :: Some(r[i]) == ms[i].id
  {
    seq(|ms|, i requires 0 <= i < |ms| && ms[i].id.Some? => ms[i].id.value)
  }

  /** Once every board is active, the active list names every board. */
  lemma AllListed(repo: Repo<BoardData>)
    requires forall k | k in repo.rows :: !repo.rows[k].isArchived
    ensures IdSet(repo.FindAllByIsArchived(false)) == repo.rows.Keys
    ensures forall k | k in repo.FindAllByIsArchived(false) :: k in repo.rows && !repo.rows[k].isArchived
  {
  }

  class BoardService {
    const boards: Repo<BoardData>
    const taskService: TaskService

    predicate Valid()
      reads this, boards, taskService, taskService.tasks, taskService.boards
    {
      boards.Valid() && taskService.Valid() && taskService.boards == boards
    }

    /** The service over the board repository and the task service. */
    constructor (boards: Repo<BoardData>, taskService: TaskService)
      ensures this.boards == boards && this.taskService == taskService
    {
      this.boards := boards;
      this.taskService := taskService;
    }

    /** `getBoard(id, isArchived)`. */
    function GetBoard(id: int, isArchived: bool): Result<BoardRecord, ServiceError>
      reads boards
    {
      FindInState(boards.rows, BoardResourceName, id, isArchived)
    }

    /** `toModelWithCascade` of board `id` as it is stored now. */
    function CascadeModel(id: int): BoardModel
      requires id in boards.rows
      reads boards, taskService, taskService.tasks
    {
      BoardMapper.ToModelWithCascade(boards.rows[id], TaskListOf(taskService.tasks.rows, id))
    }

    /** A cascaded board model carries the board's columns and the model of
        every task of the board, archived or not, and no other task. */
    lemma CascadeModelTasks(id: int, tm: TaskModel)
      requires id in boards.rows
      ensures CascadeModel(id).id == boards.rows[id].id
      ensures CascadeModel(id).name == boards.rows[id].data.name
      ensures CascadeModel(id).taskModelList.Some?
      ensures tm in NonNull(CascadeModel(id).taskModelList.value) <==>
        exists k | k in taskService.tasks.rows ::
          OfBoard(id, taskService.tasks.rows[k]) && tm == TaskMapper.ToModel(taskService.tasks.rows[k])
    {
      var rows := taskService.tasks.rows;
      var list := TaskListOf(rows, id);
      TaskMapper.ToModelListMembers(list, tm);
      if tm in NonNull(CascadeModel(id).taskModelList.value) {
        var t :| Some(t) in OrEmpty(list) && tm == TaskMapper.ToModel(t);
        TaskListOfMembers(rows, id, t);
        var k :| k in rows && rows[k] == t && OfBoard(id, t);
      }
      if exists k | k in rows :: OfBoard(id, rows[k]) && tm == TaskMapper.ToModel(rows[k]) {
        var k :| k in rows && OfBoard(id, rows[k]) && tm == TaskMapper.ToModel(rows[k]);
        TaskListOfMembers(rows, id, rows[k]);
        assert Some(rows[k]) in OrEmpty(list);
      }
    }

    /** `getList(isArchived)`: the model of every board with that flag, in
        ascending id order. */
    function GetList(isArchived: bool): (r: seq<BoardModel>)
      reads boards
      ensures |r| == |boards.FindAllByIsArchived(isArchived)|
      ensures forall i | 0 <= i < |r| ::
        r[i] == BoardMapper.ToModel(boards.rows[boards.FindAllByIsArchived(isArchived)[i]])
    {
      var ids := boards.FindAllByIsArchived(isArchived);
      assert forall i | 0 <= i < |ids| :: ids[i] in boards.rows by {
        forall i | 0 <= i < |ids| ensures ids[i] in boards.rows {
          assert ids[i] in ids;
        }
      }
      var found := RecordsAt(boards.rows, ids);
      NonNullAllSome(found);
      BoardMapper.ToModelList(Some(AllSome(found)))
    }

    /** `getEl(id, isArchived)`: the cascaded model of the board `getBoard`
        finds. */
    function GetEl(id: int, isArchived: bool): (r: Result<BoardModel, ServiceError>)
      reads boards, taskService, taskService.tasks
      ensures r.Success? <==> id in boards.rows && boards.rows[id].isArchived == isArchived
      ensures r.Success? ==> r.value == CascadeModel(id)
      ensures r.Failure? ==> r.error == GetBoard(id, isArchived).error
    {
      match GetBoard(id, isArchived)
      case Success(_) => Success(CascadeModel(id))
      case Failure(e) => Failure(e)
    }

    /** `getNextDefaultName()`: the names of all boards, archived ones
        included, go into the allocator. */
    method NextDefaultBoardName() returns (name: string)
      ensures name == DefaultName(BoardPrefix, BoardRepository.FindNamesByPrefix(boards, BoardPrefix))
    {
      var names := BoardRepository.FindNamesByPrefix(boards, BoardPrefix);
      name := NextDefaultName(BoardPrefix, names);
    }

    /** The default board name differs, trimmed and lower-cased, from the
        name of every board whose name starts with the prefix, archived
        boards included. */
    lemma DefaultBoardNameIsNew()
      requires |BoardRepository.FindNamesByPrefix(boards, BoardPrefix)| < IntMax
      ensures forall k | k in boards.rows && BoardRepository.NameStartsWith(boards.rows[k].data.name, BoardPrefix) ::
        ToLower(Trim(boards.rows[k].data.name.value)) !=
          ToLower(Trim(DefaultName(BoardPrefix, BoardRepository.FindNamesByPrefix(boards, BoardPrefix))))
    {
      var names := BoardRepository.FindNamesByPrefix(boards, BoardPrefix);
      BoardPrefixGood();
      BoardRepository.FindNamesByPrefixBoards(boards, BoardPrefix);
      DefaultNameIsNew(BoardPrefix, names);
    }

    /** The entity `create` saves: the mapped model, named by
        `getNextDefaultName` when its name is blank. */
    method NewEntity(model: BoardModel) returns (board: BoardEntity)
      ensures fresh(board)
      ensures board.State() == CreatedBoard(model, DefaultName(BoardPrefix, BoardRepository.FindNamesByPrefix(boards, BoardPrefix)))
    {
      board := BoardMapper.ToEntity(model);
      if IsBlank(board.name) {
        var name := NextDefaultBoardName();
        board.name := Some(name);
      }
    }

    /** `create(boardModel)`: the new board gets the next id and the
        columns of `CreatedBoard`; no task changes. */
    method Create(model: BoardModel) returns (r: BoardModel)
      requires Valid() && model.id.None? && CountSome(OrEmpty(model.taskModelList)) == 0
      modifies boards
      ensures Valid()
      ensures boards.nextId == old(boards.nextId) + 1
      ensures var id := old(boards.nextId);
        var b := CreatedBoard(model, old(DefaultName(BoardPrefix, BoardRepository.FindNamesByPrefix(boards, BoardPrefix))));
        id !in old(boards.rows) && boards.rows == old(boards.rows)[id := b.(id := Some(id))] &&
        r == BoardMapper.ToModel(b.(id := Some(id)))
    {
      var board := NewEntity(model);
      var id := boards.Insert(board.State());
      r := BoardMapper.ToModel(boards.rows[id]);
    }

    /** `update(boardModel)`: the active board with the model's id takes the
        columns of `UpdatedBoard`; a missing or archived board is an error
        and nothing changes. */
    method Update(model: BoardModel) returns (r: Result<BoardModel, ServiceError>)
      requires Valid() && model.id.Some?
      modifies boards
      ensures Valid()
      ensures boards.nextId == old(boards.nextId)
      ensures old(GetBoard(model.id.value, false)).Failure? ==>
        r == Failure(old(GetBoard(model.id.value, false)).error) && boards.rows == old(boards.rows)
      ensures old(GetBoard(model.id.value, false)).Success? ==>
        boards.rows == old(boards.rows)[model.id.value := UpdatedBoard(old(boards.rows)[model.id.value], model)] &&
        r == Success(CascadeModel(model.id.value))
    {
      var id := model.id.value;
      var found := GetBoard(id, false);
      if found.Failure? {
        return Failure(found.error);
      }
      var board := found.value;
      if !IsBlank(model.name) {
        board := board.(data := board.data.(name := model.name));
      }
      board := board.(data := board.data.(description := model.description));
      boards.Update(board);
      r := Success(CascadeModel(id));
    }

    /** `archiveEl(id)`: archives the board alone, its tasks keep their
        flags; it fails as `getBoard(id, false)` would. */
    method ArchiveEl(id: int) returns (r: Result<BoardModel, ServiceError>)
      requires Valid()
      modifies boards
      ensures Valid()
      ensures boards.nextId == old(boards.nextId)
      ensures taskService.tasks.rows == old(taskService.tasks.rows)
      ensures old(GetBoard(id, false)).Failure? ==>
        r == Failure(old(GetBoard(id, false)).error) && boards.rows == old(boards.rows)
      ensures old(GetBoard(id, false)).Success? ==>
        boards.rows == old(boards.rows)[id := old(boards.rows)[id].(isArchived := true)] &&
        r == Success(CascadeModel(id))
    {
      CheckAgreesWithFind(boards.rows, BoardResourceName, id, false);
      SingleMatching(boards.rows, id, false);
      ghost var before := boards.rows;
      ghost var check := CheckUpdatedRow(before, BoardResourceName, |Matching(before, Some({id}), false)|, id, false);
      if id in before && !before[id].isArchived {
        SetFlagOne(before, id, false);
      } else {
        SetFlagNoMatch(before, Some({id}), false);
      }
      var updatedRow := boards.ArchiveByIds([id]);
      var err := CheckUpdatedRow(boards.rows, BoardResourceName, updatedRow, id, false);
      assert err == check;
      if err.Some? {
        return Failure(err.value);
      }
      if id !in boards.rows {
        return Failure(BoardVanished(id));
      }
      r := Success(CascadeModel(id));
    }

    /** `archiveList(idList)`: an empty list changes nothing; otherwise
        every listed active board is archived, and the count is how many
        were. */
    method ArchiveList(ids: seq<int>) returns (count: int)
      requires Valid()
      modifies boards
      ensures Valid()
      ensures boards.nextId == old(boards.nextId)
      ensures taskService.tasks.rows == old(taskService.tasks.rows)
      ensures boards.rows == SetFlag(old(boards.rows), Some(IdSet(ids)), false)
      ensures count == |Matching(old(boards.rows), Some(IdSet(ids)), false)| <= |ids|
    {
      if |ids| == 0 {
        assert IdSet(ids) == {};
        SetFlagNoMatch(boards.rows, Some(IdSet(ids)), false);
        return 0;
      }
      var updatedRow := boards.ArchiveByIds(ids);
      if updatedRow == 0 {
        return 0;
      }
      count := updatedRow;
    }

    /** Setting every loaded board's flag to the value the bulk statement
        already wrote, as the `forEach` after it does, changes no row. */
    method RewriteFlags(ids: seq<int>, archived: bool)
      requires Valid() && forall k | k in ids :: k in boards.rows && boards.rows[k].isArchived == archived
      modifies boards
      ensures Valid() && boards.rows == old(boards.rows)
      ensures boards.nextId == old(boards.nextId)
    {
      for i := 0 to |ids|
        invariant Valid() && boards.rows == old(boards.rows) && boards.nextId == old(boards.nextId)
      {
        var k := ids[i];
        assert k in ids;
        boards.Update(boards.rows[k].(isArchived := archived));
        assert boards.rows[k] == old(boards.rows)[k];
      }
    }

    /** `archiveList()`: archives every active board; the count is how many
        were. */
    method ArchiveAll() returns (count: int)
      requires Valid()
      modifies boards
      ensures Valid()
      ensures boards.nextId == old(boards.nextId)
      ensures taskService.tasks.rows == old(taskService.tasks.rows)
      ensures boards.rows == SetFlag(old(boards.rows), None, false)
      ensures count == |Matching(old(boards.rows), None, false)|
    {
      ghost var archivedNow := Matching(old(boards.rows), None, false);
      var updatedRow := boards.ArchiveAllActive();
      if updatedRow == 0 {
        return 0;
      }
      var boardList := boards.FindAllByIsArchived(true);
      HasMember(archivedNow);
      ghost var x :| x in archivedNow;
      assert x in Matching(boards.rows, None, true);
      assert x in boardList;
      if |boardList| == 0 {
        return 0;
      }
      assert forall k | k in boardList :: k in boards.rows && boards.rows[k].isArchived;
      RewriteFlags(boardList, true);
      count := updatedRow;
    }

    /** The ids `taskService.getList(boardId, true)` maps out are those of
        the board's archived tasks. */
    lemma ArchivedTaskIds(boardId: int)
      requires taskService.tasks.Valid()
      ensures forall i | 0 <= i < |taskService.GetListOfBoard(Some(boardId), true)| ::
        taskService.GetListOfBoard(Some(boardId), true)[i].id.Some?
      ensures IdSet(IdsOf(taskService.GetListOfBoard(Some(boardId), true))) ==
        ArchivedTasksOf(taskService.tasks.rows, {boardId})
    {
      taskService.GetListOfBoardIds(Some(boardId), true);
      var ids := taskService.BoardIds(Some(boardId), true);
      assert IdsOf(taskService.GetListOfBoard(Some(boardId), true)) == ids;
    }

    /** Gathers the ids of the archived tasks of every listed board, one
        `taskService.getList(boardId, true)` after another, as the
        `flatMap` does. */
    method GatherArchivedTasks(boardIds: seq<int>) returns (taskIds: seq<int>)
      requires Valid()
      ensures IdSet(taskIds) == ArchivedTasksOf(taskService.tasks.rows, IdSet(boardIds))
    {
      taskIds := [];
      for i := 0 to |boardIds|
        invariant IdSet(taskIds) == ArchivedTasksOf(taskService.tasks.rows, IdSet(boardIds[..i]))
      {
        var b := boardIds[i];
        var taskList := taskService.GetListOfBoard(Some(b), true);
        ArchivedTaskIds(b);
        ArchivedTasksOfUnion(taskService.tasks.rows, IdSet(boardIds[..i]), {b});
        IdSetPrefix(boardIds, i);
        IdSetAppend(taskIds, IdsOf(taskList));
        taskIds := taskIds + IdsOf(taskList);
      }
      assert boardIds[..|boardIds|] == boardIds;
    }

    /** Restores the tasks gathered for `boardIds` through
        `taskService.restoreList`, skipping the call for an empty list. */
    method RestoreTasksOfBoards(boardIds: seq<int>)
      requires Valid()
      modifies taskService.tasks
      ensures Valid()
      ensures taskService.tasks.nextId == old(taskService.tasks.nextId)
      ensures taskService.tasks.rows == RestoreTasksOf(old(taskService.tasks.rows), IdSet(boardIds))
    {
      var taskIdList := GatherArchivedTasks(boardIds);
      if |taskIdList| != 0 {
        var restored := taskService.RestoreList(taskIdList);
      } else {
        assert IdSet(taskIdList) == {};
        SetFlagNoMatch(taskService.tasks.rows, Some(IdSet(taskIdList)), true);
      }
    }

    /** `restoreEl(id, withTasks)`: restores the board and, when asked,
        every archived task of it; it fails as `getBoard(id, true)` would. */
    method RestoreEl(id: int, withTasks: bool) returns (r: Result<BoardModel, ServiceError>)
      requires Valid()
      modifies boards, taskService.tasks
      ensures Valid()
      ensures boards.nextId == old(boards.nextId) && taskService.tasks.nextId == old(taskService.tasks.nextId)
      ensures old(GetBoard(id, true)).Failure? ==>
        r == Failure(old(GetBoard(id, true)).error) && boards.rows == old(boards.rows) &&
        taskService.tasks.rows == old(taskService.tasks.rows)
      ensures old(GetBoard(id, true)).Success? ==>
        boards.rows == old(boards.rows)[id := old(boards.rows)[id].(isArchived := false)] &&
        taskService.tasks.rows ==
          (if withTasks then RestoreTasksOf(old(taskService.tasks.rows), {id}) else old(taskService.tasks.rows)) &&
        r == Success(CascadeModel(id))
    {
      CheckAgreesWithFind(boards.rows, BoardResourceName, id, true);
      SingleMatching(boards.rows, id, true);
      ghost var before := boards.rows;
      ghost var check := CheckUpdatedRow(before, BoardResourceName, |Matching(before, Some({id}), true)|, id, true);
      if id in before && before[id].isArchived {
        SetFlagOne(before, id, true);
      } else {
        SetFlagNoMatch(before, Some({id}), true);
      }
      var updatedRow := boards.RestoreByIds([id]);
      var err := CheckUpdatedRow(boards.rows, BoardResourceName, updatedRow, id, true);
      assert err == check;
      if err.Some? {
        return Failure(err.value);
      }
      if withTasks {
        RestoreTasksOfBoards([id]);
      }
      if id !in boards.rows {
        return Failure(BoardVanished(id));
      }
      r := Success(CascadeModel(id));
    }

    /** `restoreList(idList, withTasks)`: a null or empty list changes
        nothing; otherwise every listed archived board is restored and,
        when asked and at least one board was, every archived task of every
        LISTED board, restored by this call or not. */
    method RestoreList(ids: Option<seq<int>>, withTasks: bool) returns (count: int)
      requires Valid()
      modifies boards, taskService.tasks
      ensures Valid()
      ensures boards.nextId == old(boards.nextId) && taskService.tasks.nextId == old(taskService.tasks.nextId)
      ensures boards.rows == SetFlag(old(boards.rows), Some(IdSet(OrEmpty(ids))), true)
      ensures count == |Matching(old(boards.rows), Some(IdSet(OrEmpty(ids))), true)|
      ensures taskService.tasks.rows ==
        (if withTasks && count != 0 then RestoreTasksOf(old(taskService.tasks.rows), IdSet(OrEmpty(ids)))
         else old(taskService.tasks.rows))
    {
      if ids.None? || |ids.value| == 0 {
        assert IdSet(OrEmpty(ids)) == {};
        SetFlagNoMatch(boards.rows, Some(IdSet(OrEmpty(ids))), true);
        return 0;
      }
      var updatedRow := boards.RestoreByIds(ids.value);
      if updatedRow == 0 {
        return 0;
      }
      if withTasks {
        RestoreTasksOfBoards(ids.value);
      }
      count := updatedRow;
    }

    /** `restoreList(withTasks)`: restores every archived board and, when
        asked and at least one board was, every archived task of every
        board. */
    method RestoreAll(withTasks: bool) returns (count: int)
      requires Valid()
      modifies boards, taskService.tasks
      ensures Valid()
      ensures boards.nextId == old(boards.nextId) && taskService.tasks.nextId == old(taskService.tasks.nextId)
      ensures boards.rows == SetFlag(old(boards.rows), None, true)
      ensures count == |Matching(old(boards.rows), None, true)|
      ensures taskService.tasks.rows ==
        (if withTasks && count != 0 then RestoreTasksOf(old(taskService.tasks.rows), old(boards.rows).Keys)
         else old(taskService.tasks.rows))
    {
      ghost var restoredNow := Matching(old(boards.rows), None, true);
      var updatedRow := boards.RestoreAllArchived();
      if updatedRow == 0 {
        return 0;
      }
      var boardList := boards.FindAllByIsArchived(false);
      HasMember(restoredNow);
      ghost var x :| x in restoredNow;
      assert x in Matching(boards.rows, None, false);
      assert x in boardList;
      AllListed(boards);
      if |boardList| == 0 {
        return 0;
      }
      if withTasks {
        RestoreTasksOfBoards(boardList);
      }
      RewriteFlags(boardList, false);
      count := updatedRow;
    }

    /** `delete(id)`: removes the board when it exists and is archived, and
        fails as `getBoard(id, true)` would otherwise. Its tasks stay. */
    method Delete(id: int) returns (r: Result<int, ServiceError>)
      requires Valid()
      modifies boards
      ensures Valid()
      ensures boards.nextId == old(boards.nextId)
      ensures taskService.tasks.rows == old(taskService.tasks.rows)
      ensures old(GetBoard(id, true)).Failure? ==>
        r == Failure(old(GetBoard(id, true)).error) && boards.rows == old(boards.rows)
      ensures old(GetBoard(id, true)).Success? ==>
        r == Success(1) && boards.rows == old(boards.rows) - {id}
    {
      CheckAgreesWithFind(boards.rows, BoardResourceName, id, true);
      SingleMatching(boards.rows, id, true);
      ghost var before := boards.rows;
      ghost var check := CheckUpdatedRow(before, BoardResourceName, |Matching(before, Some({id}), true)|, id, true);
      if id in before && before[id].isArchived {
        DeleteOne(before, id);
      } else {
        DeleteNoMatch(before, Some({id}));
      }
      var updatedRow := boards.DeleteByIdsIfArchived([id]);
      var err := CheckUpdatedRow(boards.rows, BoardResourceName, updatedRow, id, true);
      assert err == check;
      if err.Some? {
        return Failure(err.value);
      }
      r := Success(updatedRow);
    }

    /** `deleteList(idList)`: every listed archived board goes, with no
        separate check for an empty list; the count is how many did. */
    method DeleteList(ids: seq<int>) returns (count: int)
      requires Valid()
      modifies boards
      ensures Valid()
      ensures boards.nextId == old(boards.nextId)
      ensures taskService.tasks.rows == old(taskService.tasks.rows)
      ensures boards.rows == DeleteArchived(old(boards.rows), Some(IdSet(ids)))
      ensures count == |Matching(old(boards.rows), Some(IdSet(ids)), true)| <= |ids|
    {
      var updatedRow := boards.DeleteByIdsIfArchived(ids);
      if updatedRow == 0 {
        return 0;
      }
      count := updatedRow;
    }

    /** `clear()`: every archived board goes; the count is how many did. */
    method Clear() returns (count: int)
      requires Valid()
      modifies boards
      ensures Valid()
      ensures boards.nextId == old(boards.nextId)
      ensures taskService.tasks.rows == old(taskService.tasks.rows)
      ensures boards.rows == DeleteArchived(old(boards.rows), None)
      ensures count == |Matching(old(boards.rows), None, true)|
      ensures forall k | k in boards.rows :: !boards.rows[k].isArchived
    {
      var updatedRow := BoardRepository.DeleteAllByIsArchivedTrue(boards);
      if updatedRow == 0 {
        return 0;
      }
      count := updatedRow;
    }
  }
}
