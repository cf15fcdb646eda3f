/** `TaskMapper`: field copies between the task entity columns, the task
    model and the task resource, and their null-dropping list variants. */
module TaskMapper {
  import opened Wrappers
  import opened Collections
  import opened Entities
  import opened Models

  /** `toEntity`: a new, unattached, active task with the model's id, name,
      description, status and icon. */
  function ToEntity(m: TaskModel): (r: TaskRecord)
    ensures r.id == m.id && !r.isArchived && r.data.boardId.None?
    ensures r.data.name == m.name && r.data.description == m.description
    ensures r.data.status == m.status && r.data.icon == m.icon
  {
    Record(m.id, false, TaskData(m.name, m.description, m.status, m.icon, None))
  }

  /** `toModel`: the same five fields; the archived flag keeps the model's
      default and the board model is left unset. */
  function ToModel(t: TaskRecord): (m: TaskModel)
    ensures m.id == t.id && !m.isArchived && m.boardModel.None?
    ensures m.name == t.data.name && m.description == t.data.description
    ensures m.status == t.data.status && m.icon == t.data.icon
  {
    NewTaskModel.(id := t.id, name := t.data.name, description := t.data.description,
      status := t.data.status, icon := t.data.icon)
  }

  /** `toResource`: the five fields, and the board id exactly when the model
      carries a board model. */
  function ToResource(m: TaskModel): (r: TaskResource)
    ensures r.id == m.id && r.name == m.name && r.description == m.description
    ensures r.status == m.status && r.icon == m.icon
    ensures m.boardModel.None? ==> r.boardId.None?
    ensures m.boardModel.Some? ==> r.boardId == m.boardModel.value.id
  {
    TaskResource(m.id, m.name, m.description, m.status, m.icon,
      if m.boardModel.Some? then m.boardModel.value.id else None)
  }

  /** `toModel(toEntity(m))` keeps the five copied fields and forgets the
      archived flag and the board model. */
  lemma ModelEntityRoundTrip(m: TaskModel)
    ensures ToModel(ToEntity(m)) == m.(isArchived := false, boardModel := None)
  {
  }

  /** `toEntity(toModel(t))` keeps the five copied fields and forgets the
      archived flag and the board. */
  lemma EntityModelRoundTrip(t: TaskRecord)
    ensures ToEntity(ToModel(t)) == t.(isArchived := false, data := t.data.(boardId := None))
  {
  }

  /** `toEntityList`. */
  function ToEntityList(models: Option<seq<Option<TaskModel>>>): (r: seq<TaskRecord>)
    ensures |r| == CountSome(OrEmpty(models))
    ensures forall i | 0 <= i < |r| :: !r[i].isArchived && r[i].data.boardId.None?
  {
    MapNonNullLength(models, ToEntity);
    MapNonNull(models, ToEntity)
  }

  /** `toModelList`. */
  function ToModelList(tasks: Option<seq<Option<TaskRecord>>>): (r: seq<TaskModel>)
    ensures |r| == CountSome(OrEmpty(tasks))
    ensures forall i | 0 <= i < |r| :: !r[i].isArchived && r[i].boardModel.None?
  {
    MapNonNullLength(tasks, ToModel);
    MapNonNull(tasks, ToModel)
  }

  /** `toResourceList`. */
  function ToResourceList(models: Option<seq<Option<TaskModel>>>): (r: seq<TaskResource>)
    ensures |r| == CountSome(OrEmpty(models))
  {
    MapNonNullLength(models, ToResource);
    MapNonNull(models, ToResource)
  }

  /** A resource list holds the resource of a model exactly when that model
      was a non-null element of the input. */
  lemma ToResourceListMembers(models: Option<seq<Option<TaskModel>>>, r: TaskResource)
    ensures r in ToResourceList(models) <==>
      exists m :: Some(m) in OrEmpty(models) && r == ToResource(m)
  {
    MapNonNullMembers(models, ToResource, r);
  }

  /** A model list, likewise, holds the model of every non-null task and
      nothing else. */
  lemma ToModelListMembers(tasks: Option<seq<Option<TaskRecord>>>, m: TaskModel)
    ensures m in ToModelList(tasks) <==>
      exists t :: Some(t) in OrEmpty(tasks) && m == ToModel(t)
  {
    MapNonNullMembers(tasks, ToModel, m);
  }
}

/** `BoardMapper`: the board conversions, delegating task elements to
    `TaskMapper`. */
module BoardMapper {
  import opened Wrappers
  import opened Collections
  import opened Entities
  import opened Models
  import TaskMapper

  /** The columns of the board `toEntity` builds: the model's id, name and
      description, not archived. */
  function EntityColumns(m: BoardModel): (r: BoardRecord)
    ensures r.id == m.id && !r.isArchived
    ensures r.data.name == m.name && r.data.description == m.description
  {
    Record(m.id, false, BoardData(m.name, m.description))
  }

  /** `toEntity`: a new board carrying the model's id (when it has one), name
      and description, owning one new task per non-null task model, in order,
      each pointing back at the board. */
  method ToEntity(m: BoardModel) returns (b: BoardEntity)
    ensures fresh(b) && b.State() == EntityColumns(m)
    ensures b.taskList.Some?
    ensures |b.taskList.value| == |NonNull(OrEmpty(m.taskModelList))| == CountSome(OrEmpty(m.taskModelList))
    ensures forall i | 0 <= i < |b.taskList.value| ::
      var t := b.taskList.value[i];
      fresh(t) && t.board == b &&
      t.State() == TaskMapper.ToEntity(NonNull(OrEmpty(m.taskModelList))[i]).(data :=
        TaskMapper.ToEntity(NonNull(OrEmpty(m.taskModelList))[i]).data.(boardId := m.id))
  {
    b := new BoardEntity();
    var models := NonNull(OrEmpty(m.taskModelList));
    NonNullLength(OrEmpty(m.taskModelList));
    var tasks := NewTasks(models);
    if m.id.Some? {
      b.id := m.id;
    }
    b.description := m.description;
    b.name := m.name;
    assert b.id == m.id;
    b.AddTaskList(Some(tasks));
    assert b.taskList.value == tasks;
  }

  /** The task entities `toEntity` creates, one per model, in order, not yet
      attached to a board. */
  method NewTasks(models: seq<TaskModel>) returns (tasks: seq<TaskEntity>)
    ensures |tasks| == |models|
    ensures forall j | 0 <= j < |tasks| ::
      fresh(tasks[j]) && tasks[j].board == null && tasks[j].State() == TaskMapper.ToEntity(models[j])
  {
    tasks := [];
    for i := 0 to |models|
      invariant |tasks| == i
      invariant forall j | 0 <= j < i ::
        fresh(tasks[j]) && tasks[j].board == null &&
        tasks[j].State() == TaskMapper.ToEntity(models[j])
    {
      var t := new TaskEntity.FromRecord(TaskMapper.ToEntity(models[i]));
      tasks := tasks + [t];
    }
  }

  /** `toModel`: id, name and description only; the task list stays the
      model's initial empty list and the archived flag is not copied. */
  function ToModel(b: BoardRecord): (m: BoardModel)
    ensures m.id == b.id && !m.isArchived
    ensures m.name == b.data.name && m.description == b.data.description
    ensures m.taskModelList == Some([])
  {
    NewBoardModel.(id := b.id, name := b.data.name, description := b.data.description)
  }

  /** `toModelWithCascade`: `toModel` plus the models of the board's non-null
      tasks, in list order. */
  function ToModelWithCascade(b: BoardRecord, taskList: Option<seq<Option<TaskRecord>>>): (m: BoardModel)
    ensures m.id == b.id && !m.isArchived
    ensures m.name == b.data.name && m.description == b.data.description
    ensures m.taskModelList.Some?
    ensures NonNull(m.taskModelList.value) == TaskMapper.ToModelList(taskList)
    ensures forall i | 0 <= i < |m.taskModelList.value| :: m.taskModelList.value[i].Some?
  {
    NonNullAllSome(TaskMapper.ToModelList(taskList));
    AllSomeHasNoNull(TaskMapper.ToModelList(taskList));
    ToModel(b).(taskModelList := Some(AllSome(TaskMapper.ToModelList(taskList))))
  }

  /** `toResource`: id, name and description, and the resources of the
      non-null task models in order. */
  function ToResource(m: BoardModel): (r: BoardResource)
    ensures r.id == m.id && r.name == m.name && r.description == m.description
    ensures r.taskResourceList == TaskMapper.ToResourceList(m.taskModelList)
  {
    BoardResource(m.id, m.name, m.description, TaskMapper.ToResourceList(m.taskModelList))
  }

  /** The resource of a cascaded model lists the resources of the board's
      non-null tasks, one per task, each without a board id. */
  lemma CascadeResource(b: BoardRecord, taskList: Option<seq<Option<TaskRecord>>>)
    ensures |ToResource(ToModelWithCascade(b, taskList)).taskResourceList| == CountSome(OrEmpty(taskList))
    ensures forall r | r in ToResource(ToModelWithCascade(b, taskList)).taskResourceList :: r.boardId.None?
  {
    var m := ToModelWithCascade(b, taskList);
    var ms := TaskMapper.ToModelList(taskList);
    assert NonNull(m.taskModelList.value) == ms;
    forall r | r in ToResource(m).taskResourceList ensures r.boardId.None? {
      TaskMapper.ToResourceListMembers(m.taskModelList, r);
      var tm :| Some(tm) in OrEmpty(m.taskModelList) && r == TaskMapper.ToResource(tm);
      NonNullMembers(m.taskModelList.value, tm);
      assert tm in ms;
    }
  }

  /** A model built by `toModel` holds no tasks, so its resource lists none. */
  lemma ModelResourceHasNoTasks(b: BoardRecord)
    ensures ToResource(ToModel(b)).taskResourceList == []
  {
  }

  /** `toEntityList`: one new board per non-null model, in order. */
  method ToEntityList(models: Option<seq<Option<BoardModel>>>) returns (r: seq<BoardEntity>)
    ensures |r| == |NonNull(OrEmpty(models))| == CountSome(OrEmpty(models))
    ensures forall i | 0 <= i < |r| ::
      fresh(r[i]) && r[i].State() == EntityColumns(NonNull(OrEmpty(models))[i])
  {
    var ms := NonNull(OrEmpty(models));
    NonNullLength(OrEmpty(models));
    r := [];
    for i := 0 to |ms|
      invariant |r| == i
      invariant forall j | 0 <= j < i :: fresh(r[j]) && r[j].State() == EntityColumns(ms[j])
    {
      var b := ToEntity(ms[i]);
      r := r + [b];
    }
  }

  /** `toModelList`. */
  function ToModelList(boards: Option<seq<Option<BoardRecord>>>): (r: seq<BoardModel>)
    ensures |r| == CountSome(OrEmpty(boards))
    ensures forall i | 0 <= i < |r| :: r[i].taskModelList == Some([])
  {
    MapNonNullLength(boards, ToModel);
    MapNonNull(boards, ToModel)
  }

  /** `toResourceList`. */
  function ToResourceList(models: Option<seq<Option<BoardModel>>>): (r: seq<BoardResource>)
    ensures |r| == CountSome(OrEmpty(models))
  {
    MapNonNullLength(models, ToResource);
    MapNonNull(models, ToResource)
  }

  /** A board resource list holds the resource of a model exactly when that
      model was a non-null element of the input. */
  lemma ToResourceListMembers(models: Option<seq<Option<BoardModel>>>, r: BoardResource)
    ensures r in ToResourceList(models) <==>
      exists m :: Some(m) in OrEmpty(models) && r == ToResource(m)
  {
    MapNonNullMembers(models, ToResource, r);
  }
}
