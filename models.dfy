/** The service-layer models, the API resources and the task requests: plain
    records, every reference field nullable as in Java. */
module Models {
  import opened Wrappers
  import opened TaskEnums

  /** `TaskModel` with the `BaseModel` fields it inherits (timestamps aside). */
  datatype TaskModel = TaskModel(
    id: Option<int>,
    isArchived: bool,
    name: Option<string>,
    description: Option<string>,
    status: Option<Status>,
    icon: Option<Icon>,
    boardModel: Option<BoardModel>)

  /** `BoardModel`; its task list starts out as an empty list. */
  datatype BoardModel = BoardModel(
    id: Option<int>,
    isArchived: bool,
    name: Option<string>,
    description: Option<string>,
    taskModelList: Option<seq<Option<TaskModel>>>)

  /** `new TaskModel()`. */
  const NewTaskModel: TaskModel := TaskModel(None, false, None, None, None, None, None)

  /** `new BoardModel()`. */
  const NewBoardModel: BoardModel := BoardModel(None, false, None, None, Some([]))

  /** `TaskResource`: the task as the API returns it. */
  datatype TaskResource = TaskResource(
    id: Option<int>,
    name: Option<string>,
    description: Option<string>,
    status: Option<Status>,
    icon: Option<Icon>,
    boardId: Option<int>)

  /** `BoardResource`: the board as the API returns it. */
  datatype BoardResource = BoardResource(
    id: Option<int>,
    name: Option<string>,
    description: Option<string>,
    taskResourceList: seq<TaskResource>)

  /** `CreateTaskRequest`: status and icon arrive as free text. */
  datatype CreateTaskRequest = CreateTaskRequest(
    name: Option<string>,
    description: Option<string>,
    status: Option<string>,
    icon: Option<string>,
    boardId: Option<int>)

  /** `UpdateTaskRequest`. */
  datatype UpdateTaskRequest = UpdateTaskRequest(
    name: Option<string>,
    description: Option<string>,
    status: Option<string>,
    icon: Option<string>)
}
