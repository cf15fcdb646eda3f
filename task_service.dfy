/** `TaskServiceImpl`: reading, creating, updating, archiving, restoring and
    deleting tasks over the task and board tables. A failing operation
    returns the exception it would throw; as every operation runs in one
    transaction, a failure leaves both tables as they were. */
module TaskServices {
  import opened Wrappers
  import opened Collections
  import opened Text
  import opened TaskEnums
  import opened Entities
  import opened Models
  import opened Table
  import opened Repositories
  import opened Specifications
  import opened TaskSpecifications
  import opened ServiceErrors
  import opened DefaultNames
  import TaskRepository
  import TaskMapper
  import BoardMapper

  /** The prefix of `getNextDefaultTaskName`. */
  const TaskPrefix: string := "New Task"

  lemma TaskPrefixGood()
    ensures GoodPrefix(TaskPrefix)
  {
  }

  /** The board id `create` reads: the id of the model's board model, null
      when either is null. */
  function BoardIdOf(model: TaskModel): (r: Option<int>)
    ensures r.Some? <==> model.boardModel.Some? && model.boardModel.value.id.Some?
    ensures r.Some? ==> r.value == model.boardModel.value.id.value
  {
    if model.boardModel.Some? then model.boardModel.value.id else None
  }

  /** The columns `create` saves for a new task of board `boardId`:
      the mapped model, pointed at the board, with `defaultName` in place of
      a blank name and NONE in place of a null status or icon. */
  function CreatedColumns(model: TaskModel, boardId: int, defaultName: string): TaskRecord {
    var e := TaskMapper.ToEntity(model);
    e.(data := e.data.(
      boardId := Some(boardId),
      name := if IsBlank(e.data.name) then Some(defaultName) else e.data.name,
      status := Some(e.data.status.GetOr(Status.NONE)),
      icon := Some(e.data.icon.GetOr(Icon.NONE))))
  }

  /** `update` on a loaded task: the model's name when it is not blank, and
      the model's description, status and icon even when they are null. */
  function UpdatedColumns(t: TaskRecord, model: TaskModel): TaskRecord {
    t.(data := t.data.(
      name := if IsBlank(model.name) then t.data.name else model.name,
      description := model.description,
      status := model.status,
      icon := model.icon))
  }

  /** A created task is active, belongs to its board, and always has a
      non-blank name, a status and an icon; what the model supplied is
      kept. */
  lemma CreatedColumnsComplete(model: TaskModel, boardId: int, names: seq<Option<string>>)
    ensures var t := CreatedColumns(model, boardId, DefaultName(TaskPrefix, names));
      t.id == model.id && !t.isArchived && t.data.boardId == Some(boardId) &&
      !IsBlank(t.data.name) && t.data.status.Some? && t.data.icon.Some? &&
      t.data.description == model.description &&
      (!IsBlank(model.name) ==> t.data.name == model.name) &&
      (IsBlank(model.name) ==> t.data.name == Some(DefaultName(TaskPrefix, names))) &&
      (model.status.Some? ==> t.data.status == model.status) &&
      (model.icon.Some? ==> t.data.icon == model.icon)
  {
    TaskPrefixGood();
    DefaultNameNotBlank(TaskPrefix, names);
  }

  /** An update never changes a task's id, flag or board, never blanks its
      name, and applying the same model twice changes nothing more. */
  lemma UpdatedColumnsKeeps(t: TaskRecord, model: TaskModel)
    ensures var u := UpdatedColumns(t, model);
      u.id == t.id && u.isArchived == t.isArchived && u.data.boardId == t.data.boardId &&
      (!IsBlank(t.data.name) ==> !IsBlank(u.data.name)) &&
      u.data.description == model.description && u.data.status == model.status &&
      u.data.icon == model.icon
    ensures UpdatedColumns(UpdatedColumns(t, model), model) == UpdatedColumns(t, model)
  {
  }

  /** The rows a specification list without a search text selects: the
      archived flag, and the board when one is given. */
  lemma NoSearchText(rows: Rows<TaskData>, boardId: Option<int>, isArchived: bool)
    ensures forall k | k in rows ::
      AllOf(FilterTasks(None, isArchived), TaskColumns(rows[k])) <==> rows[k].isArchived == isArchived
    ensures forall k | k in rows ::
      AllOf(FilterTasksOfBoard(boardId, None, isArchived), TaskColumns(rows[k])) <==>
        rows[k].isArchived == isArchived && (boardId.None? || rows[k].data.boardId == boardId)
  {
    forall k | k in rows
      ensures AllOf(FilterTasks(None, isArchived), TaskColumns(rows[k])) <==> rows[k].isArchived == isArchived
      ensures AllOf(FilterTasksOfBoard(boardId, None, isArchived), TaskColumns(rows[k])) <==>
        rows[k].isArchived == isArchived && (boardId.None? || rows[k].data.boardId == boardId)
    {
      FilterTasksMatches(None, isArchived, rows[k]);
      FilterTasksOfBoardMatches(boardId, None, isArchived, rows[k]);
    }
  }

  class TaskService {
    const tasks: Repo<TaskData>
    const boards: Repo<BoardData>

    predicate Valid()
      reads this, tasks, boards
    {
      tasks.Valid() && boards.Valid()
    }

    /** The service over its two repositories. */
    constructor (tasks: Repo<TaskData>, boards: Repo<BoardData>)
      ensures this.tasks == tasks && this.boards == boards
    {
      this.tasks := tasks;
      this.boards := boards;
    }

    /** The ids `findAll(filterTasks(null, isArchived))` returns: every task
        with that flag, in ascending id order. */
    function AllIds(isArchived: bool): (r: seq<int>)
      reads tasks
      ensures forall k :: k in r <==> k in tasks.rows && tasks.rows[k].isArchived == isArchived
      ensures StrictlyAscending(r)
    {
      NoSearchText(tasks.rows, None, isArchived);
      TaskRepository.FindAllBySpec(tasks, FilterTasks(None, isArchived))
    }

    /** The ids `findAll(filterTasksOfBoard(boardId, null, isArchived))`
        returns: the tasks with that flag of that board (of every board for
        a null id), in ascending id order. */
    function BoardIds(boardId: Option<int>, isArchived: bool): (r: seq<int>)
      reads tasks
      ensures forall k :: k in r <==> (k in tasks.rows && tasks.rows[k].isArchived == isArchived &&
        (boardId.None? || tasks.rows[k].data.boardId == boardId))
      ensures StrictlyAscending(r)
    {
      NoSearchText(tasks.rows, boardId, isArchived);
      TaskRepository.FindAllBySpec(tasks, FilterTasksOfBoard(boardId, None, isArchived))
    }

    /** Without a board id the board-scoped query is the plain one. */
    lemma BoardIdsOfNone(isArchived: bool)
      ensures BoardIds(None, isArchived) == AllIds(isArchived)
    {
      AscendingUnique(BoardIds(None, isArchived), AllIds(isArchived));
    }

    /** `getList(isArchived)`: the model of every task with that flag. */
    function GetList(isArchived: bool): (r: seq<TaskModel>)
      reads tasks
      ensures |r| == |AllIds(isArchived)|
      ensures forall i | 0 <= i < |r| :: r[i] == TaskMapper.ToModel(tasks.rows[AllIds(isArchived)[i]])
    {
      var ids := AllIds(isArchived);
      var found := RecordsAt(tasks.rows, ids);
      NonNullAllSome(found);
      TaskMapper.ToModelList(Some(AllSome(found)))
    }

    /** `getList(boardId, isArchived)`: the model of every task with that
        flag belonging to the board. */
    function GetListOfBoard(boardId: Option<int>, isArchived: bool): (r: seq<TaskModel>)
      reads tasks
      ensures |r| == |BoardIds(boardId, isArchived)|
      ensures forall i | 0 <= i < |r| :: r[i] == TaskMapper.ToModel(tasks.rows[BoardIds(boardId, isArchived)[i]])
    {
      var ids := BoardIds(boardId, isArchived);
      var found := RecordsAt(tasks.rows, ids);
      NonNullAllSome(found);
      TaskMapper.ToModelList(Some(AllSome(found)))
    }

    /** The board-scoped list holds a model exactly when some task of that
        board with that flag maps to it. */
    lemma GetListOfBoardMembers(boardId: int, isArchived: bool, m: TaskModel)
      ensures m in GetListOfBoard(Some(boardId), isArchived) <==>
        exists k | k in tasks.rows :: tasks.rows[k].isArchived == isArchived &&
          tasks.rows[k].data.boardId == Some(boardId) && m == TaskMapper.ToModel(tasks.rows[k])
    {
      var ids := BoardIds(Some(boardId), isArchived);
      var r := GetListOfBoard(Some(boardId), isArchived);
      if m in r {
        var i :| 0 <= i < |r| && r[i] == m;
        assert ids[i] in ids;
      }
      if exists k | k in tasks.rows :: tasks.rows[k].isArchived == isArchived &&
          tasks.rows[k].data.boardId == Some(boardId) && m == TaskMapper.ToModel(tasks.rows[k]) {
        var k :| k in tasks.rows && tasks.rows[k].isArchived == isArchived &&
          tasks.rows[k].data.boardId == Some(boardId) && m == TaskMapper.ToModel(tasks.rows[k]);
        var i :| 0 <= i < |ids| && ids[i] == k;
        assert r[i] == m;
      }
    }

    /** Each listed model carries the id of its row, so the list is in
        ascending id order. */
    lemma GetListOfBoardIds(boardId: Option<int>, isArchived: bool)
      requires tasks.Valid()
      ensures forall i | 0 <= i < |GetListOfBoard(boardId, isArchived)| ::
        GetListOfBoard(boardId, isArchived)[i].id == Some(BoardIds(boardId, isArchived)[i])
    {
      var ids := BoardIds(boardId, isArchived);
      forall i | 0 <= i < |ids| ensures GetListOfBoard(boardId, isArchived)[i].id == Some(ids[i]) {
        assert ids[i] in ids;
      }
    }

    /** `getTask(id, isArchived)`. */
    function GetTask(id: int, isArchived: bool): Result<TaskRecord, ServiceError>
      reads tasks
    {
      FindInState(tasks.rows, TaskResourceName, id, isArchived)
    }

    /** `getEl(id, isArchived)`: the model of the task `getTask` finds. */
    function GetEl(id: int, isArchived: bool): (r: Result<TaskModel, ServiceError>)
      reads tasks
      ensures r.Success? <==> id in tasks.rows && tasks.rows[id].isArchived == isArchived
      ensures r.Success? ==> r.value == TaskMapper.ToModel(tasks.rows[id])
      ensures r.Failure? ==> r.error == GetTask(id, isArchived).error
    {
      match GetTask(id, isArchived)
      case Success(t) => Success(TaskMapper.ToModel(t))
      case Failure(e) => Failure(e)
    }

    /** `getNextDefaultTaskName(boardId)`. */
    method NextDefaultTaskName(boardId: int) returns (name: string)
      ensures name == DefaultName(TaskPrefix, TaskRepository.FindNamesByPrefixForBoard(tasks, boardId, TaskPrefix))
    {
      var names := TaskRepository.FindNamesByPrefixForBoard(tasks, boardId, TaskPrefix);
      name := NextDefaultName(TaskPrefix, names);
    }

    /** The default task name differs, trimmed and lower-cased, from the
        name of every active task of the board whose name starts with the
        prefix. */
    lemma DefaultTaskNameIsNew(boardId: int)
      requires |TaskRepository.FindNamesByPrefixForBoard(tasks, boardId, TaskPrefix)| < IntMax
      ensures forall k | k in tasks.rows && TaskRepository.NameQueryMatches(tasks.rows[k], boardId, TaskPrefix) ::
        ToLower(Trim(tasks.rows[k].data.name.value)) !=
          ToLower(Trim(DefaultName(TaskPrefix, TaskRepository.FindNamesByPrefixForBoard(tasks, boardId, TaskPrefix))))
    {
      var names := TaskRepository.FindNamesByPrefixForBoard(tasks, boardId, TaskPrefix);
      TaskPrefixGood();
      TaskRepository.FindNamesByPrefixForBoardTasks(tasks, boardId, TaskPrefix);
      DefaultNameIsNew(TaskPrefix, names);
    }

    /** Archived tasks and tasks of other boards take no slot: a board
        without a matching active task gets the bare prefix. */
    lemma DefaultTaskNameOfEmptyBoard(boardId: int)
      requires forall k | k in tasks.rows :: !TaskRepository.NameQueryMatches(tasks.rows[k], boardId, TaskPrefix)
      ensures DefaultName(TaskPrefix, TaskRepository.FindNamesByPrefixForBoard(tasks, boardId, TaskPrefix)) == TaskPrefix
    {
      TaskRepository.FindNamesByPrefixForBoardTasks(tasks, boardId, TaskPrefix);
      assert (set k | k in tasks.rows && TaskRepository.NameQueryMatches(tasks.rows[k], boardId, TaskPrefix)) == {};
      DefaultNameOfNone(TaskPrefix);
    }

    /** `create(taskModel)`: the model must name an existing board; the new
        task gets the next id and the columns of `CreatedColumns`, and the
        result carries the board's model. */
    method Create(model: TaskModel) returns (r: Result<TaskModel, ServiceError>)
      requires Valid() && model.id.None?
      modifies tasks
      ensures Valid()
      ensures r.Failure? ==> tasks.nextId == old(tasks.nextId)
      ensures r.Success? ==> tasks.nextId == old(tasks.nextId) + 1
      ensures BoardIdOf(model).None? ==> r == Failure(MissingBoardId) && tasks.rows == old(tasks.rows)
      ensures BoardIdOf(model).Some? && BoardIdOf(model).value !in boards.rows ==>
        r == Failure(NotFound(BoardResourceName, BoardIdOf(model).value)) && tasks.rows == old(tasks.rows)
      ensures BoardIdOf(model).Some? && BoardIdOf(model).value in boards.rows ==>
        var boardId := BoardIdOf(model).value;
        var id := old(tasks.nextId);
        var t := CreatedColumns(model, boardId,
          old(DefaultName(TaskPrefix, TaskRepository.FindNamesByPrefixForBoard(tasks, boardId, TaskPrefix))));
        id !in old(tasks.rows) &&
        tasks.rows == old(tasks.rows)[id := t.(id := Some(id))] &&
        r == Success(TaskMapper.ToModel(t.(id := Some(id))).(boardModel := Some(BoardMapper.ToModel(boards.rows[boardId]))))
    {
      var boardIdOf := BoardIdOf(model);
      if boardIdOf.None? {
        return Failure(MissingBoardId);
      }
      var boardId := boardIdOf.value;
      if boardId !in boards.rows {
        return Failure(NotFound(BoardResourceName, boardId));
      }
      var board := boards.rows[boardId];
      var task := NewTask(model, boardId);
      var id := tasks.Insert(task);
      var created := TaskMapper.ToModel(task.(id := Some(id)));
      r := Success(created.(boardModel := Some(BoardMapper.ToModel(board))));
    }

    /** The entity `create` saves, before the store gives it an id: the
        default name is looked up only for a blank name. */
    method NewTask(model: TaskModel, boardId: int) returns (task: TaskRecord)
      ensures task == CreatedColumns(model, boardId,
        DefaultName(TaskPrefix, TaskRepository.FindNamesByPrefixForBoard(tasks, boardId, TaskPrefix)))
    {
      task := TaskMapper.ToEntity(model);
      task := task.(data := task.data.(boardId := Some(boardId)));
      if IsBlank(task.data.name) {
        var name := NextDefaultTaskName(boardId);
        task := task.(data := task.data.(name := Some(name)));
      }
      if task.data.status.None? {
        task := task.(data := task.data.(status := Some(Status.NONE)));
      }
      if task.data.icon.None? {
        task := task.(data := task.data.(icon := Some(Icon.NONE)));
      }
    }

    /** `update(taskModel)`: the active task with the model's id takes the
        columns of `UpdatedColumns`; a missing or archived task is an error
        and nothing changes. */
    method Update(model: TaskModel) returns (r: Result<TaskModel, ServiceError>)
      requires Valid() && model.id.Some?
      modifies tasks
      ensures Valid()
      ensures tasks.nextId == old(tasks.nextId)
      ensures old(GetTask(model.id.value, false)).Failure? ==>
        r == Failure(old(GetTask(model.id.value, false)).error) && tasks.rows == old(tasks.rows)
      ensures old(GetTask(model.id.value, false)).Success? ==>
        var u := UpdatedColumns(old(tasks.rows)[model.id.value], model);
        tasks.rows == old(tasks.rows)[model.id.value := u] && r == Success(TaskMapper.ToModel(u))
    {
      var id := model.id.value;
      var found := GetTask(id, false);
      if found.Failure? {
        return Failure(found.error);
      }
      var task := found.value;
      if !IsBlank(model.name) {
        task := task.(data := task.data.(name := model.name));
      }
      task := task.(data := task.data.(description := model.description));
      task := task.(data := task.data.(status := model.status));
      task := task.(data := task.data.(icon := model.icon));
      tasks.Update(task);
      r := Success(TaskMapper.ToModel(task));
    }

    /** `toggleStateEl(id, isArchived)`: restores the task when `isArchived`
        holds and archives it otherwise, then reads it back. It succeeds
        exactly when `getTask(id, isArchived)` would, with the same error
        otherwise; only the flag of that one task changes. */
    method ToggleStateEl(id: int, isArchived: bool) returns (r: Result<TaskModel, ServiceError>)
      requires Valid()
      modifies tasks
      ensures Valid()
      ensures tasks.nextId == old(tasks.nextId)
      ensures old(GetTask(id, isArchived)).Failure? ==>
        r == Failure(old(GetTask(id, isArchived)).error) && tasks.rows == old(tasks.rows)
      ensures old(GetTask(id, isArchived)).Success? ==>
        var t := old(tasks.rows)[id].(isArchived := !isArchived);
        tasks.rows == old(tasks.rows)[id := t] && r == Success(TaskMapper.ToModel(t))
    {
      SingleMatching(tasks.rows, id, isArchived);
      CheckAgreesWithFind(tasks.rows, TaskResourceName, id, isArchived);
      ghost var before := tasks.rows;
      ghost var check := CheckUpdatedRow(before, TaskResourceName, |Matching(before, Some({id}), isArchived)|, id, isArchived);
      if id in before && before[id].isArchived == isArchived {
        SetFlagOne(before, id, isArchived);
      } else {
        SetFlagNoMatch(before, Some({id}), isArchived);
      }
      var updatedRow;
      if isArchived {
        updatedRow := tasks.RestoreByIds([id]);
      } else {
        updatedRow := tasks.ArchiveByIds([id]);
      }
      var err := CheckUpdatedRow(tasks.rows, TaskResourceName, updatedRow, id, isArchived);
      assert err == check;
      if err.Some? {
        return Failure(err.value);
      }
      if id !in tasks.rows {
        return Failure(TaskVanished(id));
      }
      r := Success(TaskMapper.ToModel(tasks.rows[id]));
    }

    /** `toggleStateList(idList, isArchived)`: an empty list changes
        nothing; otherwise every listed task with flag `isArchived` gets the
        other flag, and the count is how many did. */
    method ToggleStateList(ids: seq<int>, isArchived: bool) returns (count: int)
      requires Valid()
      modifies tasks
      ensures Valid()
      ensures tasks.nextId == old(tasks.nextId)
      ensures tasks.rows == SetFlag(old(tasks.rows), Some(IdSet(ids)), isArchived)
      ensures count == |Matching(old(tasks.rows), Some(IdSet(ids)), isArchived)| <= |ids|
    {
      if |ids| == 0 {
        assert IdSet(ids) == {};
        SetFlagNoMatch(tasks.rows, Some(IdSet(ids)), isArchived);
        return 0;
      }
      var updatedRow;
      if isArchived {
        updatedRow := tasks.RestoreByIds(ids);
      } else {
        updatedRow := tasks.ArchiveByIds(ids);
      }
      if updatedRow == 0 {
        return 0;
      }
      count := updatedRow;
    }

    /** `archiveEl(id)`. */
    method ArchiveEl(id: int) returns (r: Result<TaskModel, ServiceError>)
      requires Valid()
      modifies tasks
      ensures Valid()
      ensures tasks.nextId == old(tasks.nextId)
      ensures old(GetTask(id, false)).Failure? ==>
        r == Failure(old(GetTask(id, false)).error) && tasks.rows == old(tasks.rows)
      ensures old(GetTask(id, false)).Success? ==>
        var t := old(tasks.rows)[id].(isArchived := true);
        tasks.rows == old(tasks.rows)[id := t] && r == Success(TaskMapper.ToModel(t))
    {
      r := ToggleStateEl(id, false);
    }

    /** `archiveList(idList)`. */
    method ArchiveList(ids: seq<int>) returns (count: int)
      requires Valid()
      modifies tasks
      ensures Valid()
      ensures tasks.nextId == old(tasks.nextId)
      ensures tasks.rows == SetFlag(old(tasks.rows), Some(IdSet(ids)), false)
      ensures count == |Matching(old(tasks.rows), Some(IdSet(ids)), false)| <= |ids|
    {
      count := ToggleStateList(ids, false);
    }

    /** `restoreEl(id)`. */
    method RestoreEl(id: int) returns (r: Result<TaskModel, ServiceError>)
      requires Valid()
      modifies tasks
      ensures Valid()
      ensures tasks.nextId == old(tasks.nextId)
      ensures old(GetTask(id, true)).Failure? ==>
        r == Failure(old(GetTask(id, true)).error) && tasks.rows == old(tasks.rows)
      ensures old(GetTask(id, true)).Success? ==>
        var t := old(tasks.rows)[id].(isArchived := false);
        tasks.rows == old(tasks.rows)[id := t] && r == Success(TaskMapper.ToModel(t))
    {
      r := ToggleStateEl(id, true);
    }

    /** `restoreList(idList)`. */
    method RestoreList(ids: seq<int>) returns (count: int)
      requires Valid()
      modifies tasks
      ensures Valid()
      ensures tasks.nextId == old(tasks.nextId)
      ensures tasks.rows == SetFlag(old(tasks.rows), Some(IdSet(ids)), true)
      ensures count == |Matching(old(tasks.rows), Some(IdSet(ids)), true)| <= |ids|
    {
      count := ToggleStateList(ids, true);
    }

    /** `delete(id)`: removes the task when it exists and is archived, and
        fails as `getTask(id, true)` would otherwise. */
    method Delete(id: int) returns (r: Result<int, ServiceError>)
      requires Valid()
      modifies tasks
      ensures Valid()
      ensures tasks.nextId == old(tasks.nextId)
      ensures old(GetTask(id, true)).Failure? ==>
        r == Failure(old(GetTask(id, true)).error) && tasks.rows == old(tasks.rows)
      ensures old(GetTask(id, true)).Success? ==>
        r == Success(1) && tasks.rows == old(tasks.rows) - {id}
    {
      SingleMatching(tasks.rows, id, true);
      CheckAgreesWithFind(tasks.rows, TaskResourceName, id, true);
      ghost var before := tasks.rows;
      ghost var check := CheckUpdatedRow(before, TaskResourceName, |Matching(before, Some({id}), true)|, id, true);
      if id in before && before[id].isArchived {
        DeleteOne(before, id);
      } else {
        DeleteNoMatch(before, Some({id}));
      }
      var updated := tasks.DeleteByIdsIfArchived([id]);
      var err := CheckUpdatedRow(tasks.rows, TaskResourceName, updated, id, true);
      assert err == check;
      if err.Some? {
        return Failure(err.value);
      }
      r := Success(updated);
    }

    /** `deleteList(idList)`: a null or empty list deletes nothing;
        otherwise every listed archived task goes, and the count is how
        many did. */
    method DeleteList(ids: Option<seq<int>>) returns (count: int)
      requires Valid()
      modifies tasks
      ensures Valid()
      ensures tasks.nextId == old(tasks.nextId)
      ensures tasks.rows == DeleteArchived(old(tasks.rows), Some(IdSet(OrEmpty(ids))))
      ensures count == |Matching(old(tasks.rows), Some(IdSet(OrEmpty(ids))), true)|
    {
      if ids.None? || |ids.value| == 0 {
        assert IdSet(OrEmpty(ids)) == {};
        DeleteNoMatch(tasks.rows, Some(IdSet(OrEmpty(ids))));
        return 0;
      }
      var updated := tasks.DeleteByIdsIfArchived(ids.value);
      if updated == 0 {
        return 0;
      }
      count := updated;
    }
  }
}
