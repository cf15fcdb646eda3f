# task-board-be, modelled in Dafny

task-board-be is a Spring Boot back end for a task board. Boards own tasks. Both kinds of entity carry an `isArchived` flag:
- archiving moves a row out of the active list;
- only an archived row may be restored or deleted;
- restoring a board can cascade to the archived tasks of that board.

New boards and tasks that arrive with a blank name get a gap-filling default name: "New Board", "New Board 2", …, or "New Task", "New Task 2", … per board.

This project models the part of the back end that decides what each request does:
- the two service implementations;
- the repository queries and bulk updates they rely on;
- the entity classes with their list mutators and identity;
- the mappers and the task assembler;
- the two enums;
- the exceptions.

It proves that the model keeps the promises the code makes.

The modules follow the program's structure:

- `Wrappers`: `Option` and `Result`. A Java `null` is `None`.
- `Text`: the Java intrinsics the core depends on, as pure functions:
  - `String.trim`, ASCII `toLowerCase`/`toUpperCase` and `StringUtils.isBlank`;
  - `startsWith` and `contains`;
  - `Integer.parseInt`, with an optional sign and the 32-bit range;
  - `String.valueOf(long)`.
- `Collections`: the `filter(Objects::nonNull).map(...)` pattern every mapper list method uses, and sorted key lists.
- `TaskEnums`: `TaskStatus` and `TaskIcon`, with `valueOf` and the case-insensitive `fromValue`.
- `Models`: `TaskModel`, `BoardModel`, the resources and the request bodies, as records.
- `TaskAssembler`: request → model, including the lenient status and icon parsing with its `NONE` fallback.
- `Entities`: the `Board` and `Task` entity classes.
  - The classes keep the fields the code mutates in place: the task list, the back-reference and the archived flag.
  - `BaseEntity.equals`/`hashCode` are modelled as the id-based identity the list removals use.
  - Stored rows are the value records `Record<D>` of module `Table`.
- `TaskMapper`, `BoardMapper`: entity ↔ model ↔ resource. `BoardMapper.toEntity` is a method that builds fresh objects.
- `Specifications`, `BoardSpecifications`, `TaskSpecifications`: the JPA criteria, as predicates over a row's columns, with `Specification.allOf` skipping `null` parts.
- `Table`: the semantics of a table of rows keyed by id:
  - the bulk flag updates (`UPDATE … SET isArchived`), which return the number of changed rows;
  - the delete of archived rows;
  - `findAll` with a predicate.
- `Repositories`: the `Repo<D>` class, the mutable table that `BaseRepo`/`ArchivableRepo`/`PurgeRepo` operate on. Its methods change `rows` exactly as the `Table` functions say. The derived name queries of `BoardRepository` and `TaskRepository` sit beside it.
- `DefaultNames`: `getNextDefaultName`/`getNextDefaultTaskName`.
  - A specification: which slot each existing name marks, and the least free slot.
  - The two-loop method, proved to compute exactly that specification.
  - The promised properties: gap filling, minimality, no collision after trimming and lower-casing, and the examples from the test suite.
- `ServiceErrors`: `NotFoundException` and `StateMismatchException`, with the messages they build, plus `getBoard`/`getTask` and `checkUpdatedRow`.
- `TaskServices`, `BoardServices`: the classes `TaskService` and `BoardService`.
  - Their fields are the repositories they use. `BoardService` reaches the task repository through its `TaskService`, as `BoardServiceImpl` does.
  - Each operation is a method whose postcondition states the whole new state of the tables and the value or error returned.

A row's `isArchived` is the only state the bulk operations change. The "nothing else changes" part of each contract is stated on the whole `rows` map.

## Model

| member | source | states |
|---|---|---|
| Text.Trim | task-board-be/src/main/java/com/example/task_board_be/service/entity/impl/BoardServiceImpl.java:403 | `String.trim`: the result is no longer than the text and neither starts nor ends with a character at or below U+0020 |
| Text.IsBlank | task-board-be/src/main/java/com/example/task_board_be/service/entity/impl/BoardServiceImpl.java:99 | `StringUtils.isBlank` (defined, no ensures): true for null, for the empty text and for text made only of whitespace |
| Text.TrimIdempotent | task-board-be/src/main/java/com/example/task_board_be/service/entity/impl/BoardServiceImpl.java:403 | trimming twice is trimming once |
| Text.TrimPadded | task-board-be/src/main/java/com/example/task_board_be/mapping/assembler/TaskAssembler.java:46 | trimming removes exactly the padding around a text that is itself trimmed |
| Text.ToLower | task-board-be/src/main/java/com/example/task_board_be/repo/spec/BoardSpecifications.java:18 | `toLowerCase(Locale.ROOT)` over ASCII: the result is as long as the text, A-Z lowered and every other character kept |
| Text.ToUpper | task-board-be/src/main/java/com/example/task_board_be/mapping/assembler/TaskAssembler.java:51 | `toUpperCase(Locale.ROOT)` over ASCII: the result is as long as the text, a-z raised and every other character kept |
| Text.UpperOfLower | task-board-be/src/main/java/com/example/task_board_be/mapping/assembler/TaskAssembler.java:51 | upper-casing a lower-cased text is upper-casing the text |
| Text.LowerIdempotent | task-board-be/src/main/java/com/example/task_board_be/service/entity/impl/BoardServiceImpl.java:403 | lower-casing twice is lower-casing once |
| Text.ParseInt | task-board-be/src/main/java/com/example/task_board_be/service/entity/impl/BoardServiceImpl.java:411 | `Integer.parseInt` over ASCII digits: any parsed value lies within the 32-bit int range |
| Text.ParsePrinted | task-board-be/src/main/java/com/example/task_board_be/service/entity/impl/BoardServiceImpl.java:411-426 | parsing the decimal text of a number up to the largest int gives back that number |
| Text.DecimalStringValue | task-board-be/src/main/java/com/example/task_board_be/service/entity/impl/BoardServiceImpl.java:426 | the decimal text of a number has that number as its digit value |
| TaskEnums.StatusValueOf | task-board-be/src/main/java/com/example/task_board_be/enums/task/TaskStatus.java:5-11 | `Enum.valueOf`: a constant is returned only when its name is exactly the text |
| TaskEnums.StatusValueOfIff | task-board-be/src/main/java/com/example/task_board_be/enums/task/TaskStatus.java:5-11 | the text names constant x exactly when it equals x's name; no other text names a constant |
| TaskEnums.StatusFromValue | task-board-be/src/main/java/com/example/task_board_be/enums/task/TaskStatus.java:14-16 | `fromValue` returns a constant only when its name is the upper-cased text |
| TaskEnums.StatusFromValueIff | task-board-be/src/main/java/com/example/task_board_be/enums/task/TaskStatus.java:14-16 | `fromValue(s)` is x exactly when `s` upper-cased is x's name, so matching ignores case and every other text is rejected |
| TaskEnums.StatusNameIsUpper | task-board-be/src/main/java/com/example/task_board_be/enums/task/TaskStatus.java:5-11 | every status name is its own upper case |
| TaskEnums.StatusFromValueAnyCase | task-board-be/src/main/java/com/example/task_board_be/enums/task/TaskStatus.java:14-16 | `fromValue` of a constant's name, and of its lower-cased name, returns that constant |
| TaskEnums.IconValueOf | task-board-be/src/main/java/com/example/task_board_be/enums/task/TaskIcon.java:5-12 | `Enum.valueOf`: a constant is returned only when its name is exactly the text |
| TaskEnums.IconValueOfIff | task-board-be/src/main/java/com/example/task_board_be/enums/task/TaskIcon.java:5-12 | the text names icon x exactly when it equals x's name |
| TaskEnums.IconFromValue | task-board-be/src/main/java/com/example/task_board_be/enums/task/TaskIcon.java:15-17 | `fromValue` returns a constant only when its name is the upper-cased text |
| TaskEnums.IconFromValueIff | task-board-be/src/main/java/com/example/task_board_be/enums/task/TaskIcon.java:15-17 | `fromValue(s)` is x exactly when `s` upper-cased is x's name; every other text is rejected |
| TaskEnums.IconNameIsUpper | task-board-be/src/main/java/com/example/task_board_be/enums/task/TaskIcon.java:5-12 | every icon name is its own upper case |
| TaskEnums.IconFromValueAnyCase | task-board-be/src/main/java/com/example/task_board_be/enums/task/TaskIcon.java:15-17 | `fromValue` of an icon's name, and of its lower-cased name, returns that icon |
| TaskEnums.FromValueDoesNotTrim | task-board-be/src/main/java/com/example/task_board_be/enums/task/TaskStatus.java:15 | `fromValue` does not trim: " todo" is not a status and "bug " is not an icon |
| TaskAssembler.ParseStatusOrNone | task-board-be/src/main/java/com/example/task_board_be/mapping/assembler/TaskAssembler.java:44-56 | a null or blank status text gives NONE |
| TaskAssembler.ParseIconOrNone | task-board-be/src/main/java/com/example/task_board_be/mapping/assembler/TaskAssembler.java:58-70 | a null or blank icon text gives NONE |
| TaskAssembler.FallbackNeverRescues | task-board-be/src/main/java/com/example/task_board_be/mapping/assembler/TaskAssembler.java:47-55 | when the default locale upper-cases like `Locale.ROOT`: if `fromValue` rejects a text, the upper-case `valueOf` fallback rejects it too, so the fallback never changes the result |
| TaskAssembler.ParseStatusIff | task-board-be/src/main/java/com/example/task_board_be/mapping/assembler/TaskAssembler.java:44-56 | for a status x other than NONE: the result is x exactly when the text is non-blank and its trimmed upper case is x's name; every other text gives NONE |
| TaskAssembler.ParseIconIff | task-board-be/src/main/java/com/example/task_board_be/mapping/assembler/TaskAssembler.java:58-70 | for an icon x other than NONE: the result is x exactly when the text is non-blank and its trimmed upper case is x's name; every other text gives NONE |
| TaskAssembler.ParseStatusPadded | task-board-be/src/main/java/com/example/task_board_be/mapping/assembler/TaskAssembler.java:46-48 | whitespace around a status name, in any case, is ignored |
| TaskAssembler.ParseIconPadded | task-board-be/src/main/java/com/example/task_board_be/mapping/assembler/TaskAssembler.java:60-62 | whitespace around an icon name, in any case, is ignored |
| TaskAssembler.ParseStatusExact | task-board-be/src/main/java/com/example/task_board_be/mapping/assembler/TaskAssembler.java:46-48 | a text whose upper case is a status name parses to that status |
| TaskAssembler.ParseIconExact | task-board-be/src/main/java/com/example/task_board_be/mapping/assembler/TaskAssembler.java:60-62 | a text whose upper case is an icon name parses to that icon |
| TaskAssembler.ParseStatusRoundTrip | task-board-be/src/main/java/com/example/task_board_be/mapping/assembler/TaskAssembler.java:44-56 | parsing a status name, or its lower case, gives back that status |
| TaskAssembler.ParseIconRoundTrip | task-board-be/src/main/java/com/example/task_board_be/mapping/assembler/TaskAssembler.java:58-70 | parsing an icon name, or its lower case, gives back that icon |
| TaskAssembler.ParseStatusExample | task-board-be/src/main/java/com/example/task_board_be/mapping/assembler/TaskAssembler.java:46-48 | "  in_progress " parses to IN_PROGRESS |
| TaskAssembler.ParseIconExample | task-board-be/src/main/java/com/example/task_board_be/mapping/assembler/TaskAssembler.java:60-62 | "  bug  " parses to BUG |
| TaskAssembler.ParseUnknownIconExample | task-board-be/src/main/java/com/example/task_board_be/mapping/assembler/TaskAssembler.java:63-67 | unrecognised text such as "???" gives NONE instead of failing |
| TaskAssembler.AssembleCreate | task-board-be/src/main/java/com/example/task_board_be/mapping/assembler/TaskAssembler.java:14-30 | the create model copies name and description verbatim, parses status and icon with the NONE fallback, has no id, and has a board model, carrying the board id, exactly when the request names a board |
| TaskAssembler.AssembleUpdate | task-board-be/src/main/java/com/example/task_board_be/mapping/assembler/TaskAssembler.java:32-42 | the update model carries the given id, copies name and description, parses status and icon the same way, and has no board model |
| Entities.LongHash | task-board-be/src/main/java/com/example/task_board_be/pojo/entity/BaseEntity.java:87 | `Long.hashCode` of a 64-bit id is a 32-bit int |
| Entities.HashCode | task-board-be/src/main/java/com/example/task_board_be/pojo/entity/BaseEntity.java:85-88 | `hashCode` (defined, no ensures): the identity hash, a parameter here, while there is no id, and `Long.hashCode` of the id once there is one |
| Entities.TaskEntity.constructor | task-board-be/src/main/java/com/example/task_board_be/pojo/entity/Task.java:29-30 | a new task has no id, is not archived, and has no name, description, status, icon or board |
| Entities.TaskEntity.FromRecord | task-board-be/src/main/java/com/example/task_board_be/mapping/mapper/TaskMapper.java:14-22 | a task built from stored columns reads back as those columns, with no board yet |
| Entities.TaskEntity.SetBoard | task-board-be/src/main/java/com/example/task_board_be/pojo/entity/Task.java:83-85 | `setBoard` writes the back-reference and nothing else |
| Entities.TaskEntity.SetIsArchived | task-board-be/src/main/java/com/example/task_board_be/pojo/entity/BaseEntity.java:47-49 | `setIsArchived` sets the flag and nothing else |
| Entities.BoardEntity.constructor | task-board-be/src/main/java/com/example/task_board_be/pojo/entity/Board.java:20-25 | a new board has no id, is not archived, has no name or description, and an empty, non-null task list |
| Entities.BoardEntity.SetIsArchived | task-board-be/src/main/java/com/example/task_board_be/pojo/entity/BaseEntity.java:47-49 | `setIsArchived` sets the flag; every other column is unchanged |
| Entities.BoardEntity.AddTask | task-board-be/src/main/java/com/example/task_board_be/pojo/entity/Board.java:62-66 | the task is appended at the end (a null list is first initialised) and its board becomes this board |
| Entities.BoardEntity.RemoveTask | task-board-be/src/main/java/com/example/task_board_be/pojo/entity/Board.java:68-72 | with a null list nothing changes, the back-reference included; otherwise the first equal element is removed and the task's board is cleared |
| Entities.BoardEntity.AddTaskList | task-board-be/src/main/java/com/example/task_board_be/pojo/entity/Board.java:74-79 | the given tasks are appended in order (null or empty input appends nothing, a null list is initialised) and each given task's board becomes this board |
| Entities.BoardEntity.RemoveTaskList | task-board-be/src/main/java/com/example/task_board_be/pojo/entity/Board.java:81-84 | with a null list or null/empty input nothing changes; otherwise every element equal to a given task is removed, the rest keep their order, and no back-reference is touched |
| Entities.BoardEntity.ClearTaskList | task-board-be/src/main/java/com/example/task_board_be/pojo/entity/Board.java:86-89 | afterwards the list is empty and non-null |
| Entities.EqualsReflexive | task-board-be/src/main/java/com/example/task_board_be/pojo/entity/BaseEntity.java:79 | an entity equals itself |
| Entities.EntityEquals | task-board-be/src/main/java/com/example/task_board_be/pojo/entity/BaseEntity.java:77-83 | `equals` (defined, no ensures): the same reference, or another entity of either kind where both ids are non-null and equal; the lemmas below state its properties |
| Entities.EqualsNeedsIds | task-board-be/src/main/java/com/example/task_board_be/pojo/entity/BaseEntity.java:80-81 | two distinct objects are equal only when both are entities with non-null ids |
| Entities.EqualsByIds | task-board-be/src/main/java/com/example/task_board_be/pojo/entity/BaseEntity.java:80-82 | entities with non-null ids are equal exactly when the ids are equal, whatever their other fields |
| Entities.BoardEqualsTask | task-board-be/src/main/java/com/example/task_board_be/pojo/entity/BaseEntity.java:80-82 | a board and a task with the same non-null id are equal, both ways round |
| Entities.EqualsSymmetric | task-board-be/src/main/java/com/example/task_board_be/pojo/entity/BaseEntity.java:77-83 | `equals` is symmetric |
| Entities.EqualsTransitive | task-board-be/src/main/java/com/example/task_board_be/pojo/entity/BaseEntity.java:77-83 | `equals` is transitive |
| Entities.EqualsHashCode | task-board-be/src/main/java/com/example/task_board_be/pojo/entity/BaseEntity.java:85-88 | equal entities have equal hash codes |
| Entities.TaskEqualsIsEquals | task-board-be/src/main/java/com/example/task_board_be/pojo/entity/BaseEntity.java:77-83 | the element comparison the list removals use is `BaseEntity.equals` |
| Entities.RemoveFirst | task-board-be/src/main/java/com/example/task_board_be/pojo/entity/Board.java:70 | `List.remove(Object)`: the first element equal to the task is dropped; with none the list is unchanged |
| Entities.RemoveAll | task-board-be/src/main/java/com/example/task_board_be/pojo/entity/Board.java:83 | `List.removeAll`: exactly the elements equal to no given task remain |
| Entities.RemoveAllAppend | task-board-be/src/main/java/com/example/task_board_be/pojo/entity/Board.java:83 | `removeAll` preserves order: it works element by element over a concatenation |
| Collections.MapNonNull | task-board-be/src/main/java/com/example/task_board_be/mapping/mapper/TaskMapper.java:49-65 | the list variants: the i-th output is the mapping of the i-th non-null input, so nulls are dropped and order is kept |
| Collections.MapNonNullEmpty | task-board-be/src/main/java/com/example/task_board_be/mapping/mapper/TaskMapper.java:51 | null or empty input gives an empty list |
| Collections.MapNonNullLength | task-board-be/src/main/java/com/example/task_board_be/mapping/mapper/TaskMapper.java:52 | the output is as long as the number of non-null inputs, and as long as the input exactly when no input is null |
| Collections.MapNonNullMembers | task-board-be/src/main/java/com/example/task_board_be/mapping/mapper/TaskMapper.java:52 | an output element is exactly the mapping of some non-null input |
| Collections.MapNonNullAppend | task-board-be/src/main/java/com/example/task_board_be/mapping/mapper/TaskMapper.java:52 | mapping a concatenation is the concatenation of the mappings: order is preserved |
| Collections.NonNullMembers | task-board-be/src/main/java/com/example/task_board_be/mapping/mapper/BoardMapper.java:30-34 | filtering nulls keeps exactly the present values |
| Collections.NonNullLength | task-board-be/src/main/java/com/example/task_board_be/mapping/mapper/BoardMapper.java:30-34 | the filtered list has one entry per non-null element |
| Collections.AllSomeHasNoNull | task-board-be/src/main/java/com/example/task_board_be/mapping/mapper/BoardMapper.java:99-103 | a list built by `stream().toList()` over mapped elements has no null entry |
| TaskMapper.ToEntity | task-board-be/src/main/java/com/example/task_board_be/mapping/mapper/TaskMapper.java:14-22 | `toEntity` copies id, name, description, status and icon; the new entity is active and has no board |
| TaskMapper.ToModel | task-board-be/src/main/java/com/example/task_board_be/mapping/mapper/TaskMapper.java:25-33 | `toModel` copies the same five fields and leaves the board model unset |
| TaskMapper.ToResource | task-board-be/src/main/java/com/example/task_board_be/mapping/mapper/TaskMapper.java:36-47 | `toResource` copies the five fields and sets the board id exactly when a board model is present |
| TaskMapper.ModelEntityRoundTrip | task-board-be/src/main/java/com/example/task_board_be/mapping/mapper/TaskMapper.java:14-33 | `toModel(toEntity(m))` keeps id, name, description, status and icon of `m` |
| TaskMapper.EntityModelRoundTrip | task-board-be/src/main/java/com/example/task_board_be/mapping/mapper/TaskMapper.java:14-33 | `toEntity(toModel(t))` keeps every column of `t` except the archived flag and the board |
| TaskMapper.ToEntityList | task-board-be/src/main/java/com/example/task_board_be/mapping/mapper/TaskMapper.java:50-53 | one entity per non-null model, each active and without a board |
| TaskMapper.ToModelList | task-board-be/src/main/java/com/example/task_board_be/mapping/mapper/TaskMapper.java:56-59 | one model per non-null task, none with a board model |
| TaskMapper.ToResourceList | task-board-be/src/main/java/com/example/task_board_be/mapping/mapper/TaskMapper.java:62-65 | one resource per non-null model |
| TaskMapper.ToResourceListMembers | task-board-be/src/main/java/com/example/task_board_be/mapping/mapper/TaskMapper.java:62-65 | the resources are exactly the resources of the non-null models |
| TaskMapper.ToModelListMembers | task-board-be/src/main/java/com/example/task_board_be/mapping/mapper/TaskMapper.java:56-59 | the models are exactly the models of the non-null tasks |
| BoardMapper.EntityColumns | task-board-be/src/main/java/com/example/task_board_be/mapping/mapper/BoardMapper.java:36-41 | the columns `toEntity` copies: id, name and description; the board is active |
| BoardMapper.NewTasks | task-board-be/src/main/java/com/example/task_board_be/mapping/mapper/BoardMapper.java:30-34 | the loop inside `toEntity`: one fresh task entity per model, in order, each holding that model's `TaskMapper.toEntity` columns and no board yet |
| BoardMapper.ToEntity | task-board-be/src/main/java/com/example/task_board_be/mapping/mapper/BoardMapper.java:26-45 | `toEntity` builds a fresh board with the copied columns and one fresh task per non-null task model, in order, each pointing back to the board |
| BoardMapper.ToModel | task-board-be/src/main/java/com/example/task_board_be/mapping/mapper/BoardMapper.java:48-56 | `toModel` copies only id, name and description; the task list stays empty |
| BoardMapper.ToModelWithCascade | task-board-be/src/main/java/com/example/task_board_be/mapping/mapper/BoardMapper.java:95-111 | `toModelWithCascade` also maps every non-null task, in order, and the resulting list has no null entry |
| BoardMapper.ToResource | task-board-be/src/main/java/com/example/task_board_be/mapping/mapper/BoardMapper.java:59-75 | `toResource` copies id, name and description and maps the non-null task models to resources |
| BoardMapper.CascadeResource | task-board-be/src/main/java/com/example/task_board_be/mapping/mapper/BoardMapper.java:59-111 | the resource of a cascaded model has one task resource per non-null task, none carrying a board id |
| BoardMapper.ModelResourceHasNoTasks | task-board-be/src/main/java/com/example/task_board_be/mapping/mapper/BoardMapper.java:48-75 | the resource of a plain `toModel` lists no tasks |
| BoardMapper.ToEntityList | task-board-be/src/main/java/com/example/task_board_be/mapping/mapper/BoardMapper.java:78-81 | one fresh board per non-null model, in order |
| BoardMapper.ToModelList | task-board-be/src/main/java/com/example/task_board_be/mapping/mapper/BoardMapper.java:84-87 | one model per non-null board, each with an empty task list |
| BoardMapper.ToResourceList | task-board-be/src/main/java/com/example/task_board_be/mapping/mapper/BoardMapper.java:90-93 | one resource per non-null model |
| BoardMapper.ToResourceListMembers | task-board-be/src/main/java/com/example/task_board_be/mapping/mapper/BoardMapper.java:90-93 | the resources are exactly those of the non-null models, nulls dropped |
| Specifications.AllOfAppend | task-board-be/src/main/java/com/example/task_board_be/repo/spec/BoardSpecifications.java:22-24 | `Specification.allOf` is the conjunction of its parts |
| Specifications.AllOfSingle | task-board-be/src/main/java/com/example/task_board_be/repo/spec/BoardSpecifications.java:22-24 | a single part constrains a row exactly by its predicate, and not at all when absent |
| Specifications.AllOfSkipsNull | task-board-be/src/main/java/com/example/task_board_be/repo/spec/TaskSpecifications.java:17-40 | a null specification, or one whose predicate is null, adds no constraint |
| Specifications.NameContainsIgnoreCase | task-board-be/src/main/java/com/example/task_board_be/repo/spec/BoardSpecifications.java:16-20 | the name filter is null exactly when the search text is null or blank |
| Specifications.NameContainsMatches | task-board-be/src/main/java/com/example/task_board_be/repo/spec/BoardSpecifications.java:16-20 | for non-blank text, a row matches exactly when its lower-cased name contains the trimmed, lower-cased text |
| Specifications.HasArchivedMatches | task-board-be/src/main/java/com/example/task_board_be/repo/spec/BoardSpecifications.java:12-14 | `hasArchived(a)` matches a row exactly when its flag is `a` |
| Specifications.HasArchived | task-board-be/src/main/java/com/example/task_board_be/repo/spec/BoardSpecifications.java:12-14 | `hasArchived(archived)` (defined, no ensures): a present specification comparing the archived flag; `HasArchivedMatches` states what it selects |
| BoardSpecifications.FilterBoardsMatches | task-board-be/src/main/java/com/example/task_board_be/repo/spec/BoardSpecifications.java:12-24 | `filterBoards` matches a board exactly when its flag matches and, unless the text is blank, its name contains the text ignoring case |
| BoardSpecifications.FilterBoards | task-board-be/src/main/java/com/example/task_board_be/repo/spec/BoardSpecifications.java:22-24 | `filterBoards` is `allOf` of two parts, the flag part and the name part; `FilterBoardsMatches` states which boards it selects |
| BoardSpecifications.BlankFilterIsArchivedOnly | task-board-be/src/main/java/com/example/task_board_be/repo/spec/BoardSpecifications.java:16-24 | with blank text `filterBoards` is `hasArchived` alone |
| TaskSpecifications.HasBoardId | task-board-be/src/main/java/com/example/task_board_be/repo/spec/TaskSpecifications.java:17-19 | `hasBoardId` has a null predicate exactly when the board id is null |
| TaskSpecifications.HasBoardIdMatches | task-board-be/src/main/java/com/example/task_board_be/repo/spec/TaskSpecifications.java:17-19 | `hasBoardId(null)` matches every task; otherwise exactly the tasks of that board |
| TaskSpecifications.FilterTasksMatches | task-board-be/src/main/java/com/example/task_board_be/repo/spec/TaskSpecifications.java:27-32 | `filterTasks` is archived-match and name-match, the name part skipped for blank text |
| TaskSpecifications.FilterTasks | task-board-be/src/main/java/com/example/task_board_be/repo/spec/TaskSpecifications.java:27-32 | `filterTasks` is `allOf` of two parts, the flag part and the name part; `FilterTasksMatches` states which tasks it selects |
| TaskSpecifications.FilterTasksOfBoard | task-board-be/src/main/java/com/example/task_board_be/repo/spec/TaskSpecifications.java:34-40 | `filterTasksOfBoard` is `allOf` of three parts, flag, board and name; `FilterTasksOfBoardMatches` states which tasks it selects |
| TaskSpecifications.FilterTasksOfBoardMatches | task-board-be/src/main/java/com/example/task_board_be/repo/spec/TaskSpecifications.java:34-40 | `filterTasksOfBoard` is `filterTasks` and the board match, the board part skipped for a null id |
| TaskSpecifications.FilterTasksOfBoardSubset | task-board-be/src/main/java/com/example/task_board_be/repo/spec/TaskSpecifications.java:27-40 | every task `filterTasksOfBoard` matches, `filterTasks` matches; with a null board id they match the same tasks |
| Table.SetFlag | task-board-be/src/main/java/com/example/task_board_be/repo/fragment/ArchivableRepo.java:13-29 | a flag update creates and removes no row |
| Table.DeleteArchived | task-board-be/src/main/java/com/example/task_board_be/repo/fragment/ArchivableRepo.java:31-33 | the delete removes exactly the archived rows in the WHERE clause |
| Table.SetFlagChanges | task-board-be/src/main/java/com/example/task_board_be/repo/fragment/ArchivableRepo.java:13-29 | a row changes exactly when it is in the WHERE clause; only its flag changes, and it is flipped |
| Table.SetFlagAgain | task-board-be/src/main/java/com/example/task_board_be/repo/fragment/ArchivableRepo.java:13-29 | repeating a flag update matches no row, so it returns 0 |
| Table.SetFlagAllLeavesNone | task-board-be/src/main/java/com/example/task_board_be/repo/fragment/ArchivableRepo.java:13-19 | after archiving all active rows no row is active; after restoring all archived rows none is archived |
| Table.SetFlagUndo | task-board-be/src/main/java/com/example/task_board_be/repo/fragment/ArchivableRepo.java:21-29 | flipping back exactly the rows a flag update flipped restores the table |
| Table.IdSetCard | task-board-be/src/main/java/com/example/task_board_be/repo/fragment/ArchivableRepo.java:21-33 | an id list names at most as many rows as it has entries, and exactly that many when it has no duplicates |
| Table.MatchingBound | task-board-be/src/main/java/com/example/task_board_be/repo/fragment/ArchivableRepo.java:21-33 | the returned count is at most the number of distinct ids |
| Table.Partition | task-board-be/src/main/java/com/example/task_board_be/repo/BaseRepo.java:10-11 | the active and the archived rows are disjoint and together are every row |
| Table.DeleteArchivedRemoves | task-board-be/src/main/java/com/example/task_board_be/repo/fragment/ArchivableRepo.java:31-33 | the count is the number of rows removed; surviving rows are unchanged and active rows always survive |
| Table.DeleteArchivedAgain | task-board-be/src/main/java/com/example/task_board_be/repo/fragment/ArchivableRepo.java:31-33 | repeating the delete removes nothing |
| Table.FindAll | task-board-be/src/main/java/com/example/task_board_be/service/entity/impl/TaskServiceImpl.java:85 | a query returns exactly the rows its predicate keeps, each once, in ascending id order |
| Table.ProjectFindAll | task-board-be/src/main/java/com/example/task_board_be/repo/entity/BoardRepository.java:18-19 | a column query returns one entry per matching row, and every entry comes from a matching row |
| Repositories.Repo.Insert | task-board-be/src/main/java/com/example/task_board_be/service/entity/impl/BoardServiceImpl.java:103 | `save` of a new entity stores it under a fresh id and changes no other row |
| Repositories.Repo.Update | task-board-be/src/main/java/com/example/task_board_be/service/entity/impl/TaskServiceImpl.java:170 | `save` of an existing entity replaces that row only |
| Repositories.Repo.UpdateFlagByIds | task-board-be/src/main/java/com/example/task_board_be/repo/fragment/ArchivableRepo.java:21-29 | the shared body of the two by-id flag updates: the rows in `ids` with the given flag are flipped, and their number is returned |
| Repositories.Repo.ArchiveByIds | task-board-be/src/main/java/com/example/task_board_be/repo/fragment/ArchivableRepo.java:21-24 | exactly the active rows in `ids` become archived; the count is their number, at most the number of ids |
| Repositories.Repo.RestoreByIds | task-board-be/src/main/java/com/example/task_board_be/repo/fragment/ArchivableRepo.java:26-29 | exactly the archived rows in `ids` become active; the count is their number, at most the number of ids |
| Repositories.Repo.ArchiveAllActive | task-board-be/src/main/java/com/example/task_board_be/repo/fragment/ArchivableRepo.java:13-15 | every active row is archived, the count is their number, and afterwards no row is active |
| Repositories.Repo.RestoreAllArchived | task-board-be/src/main/java/com/example/task_board_be/repo/fragment/ArchivableRepo.java:17-19 | every archived row is restored, the count is their number, and afterwards no row is archived |
| Repositories.Repo.DeleteByIdsIfArchived | task-board-be/src/main/java/com/example/task_board_be/repo/fragment/ArchivableRepo.java:31-33 | exactly the archived rows in `ids` are removed, active rows in `ids` survive, and the count is the number removed |
| Repositories.Repo.FindAllByIsArchived | task-board-be/src/main/java/com/example/task_board_be/repo/BaseRepo.java:10-11 | `findAllByIsArchivedFalse/True` return exactly the rows with that flag, read-only |
| Repositories.FindAllByIsArchivedPartition | task-board-be/src/main/java/com/example/task_board_be/repo/BaseRepo.java:10-11 | the two results are disjoint and together cover every row |
| BoardRepository.FindNamesByPrefix | task-board-be/src/main/java/com/example/task_board_be/repo/entity/BoardRepository.java:18-19 | every returned name starts with the prefix, ignoring case; there is no archived filter |
| BoardRepository.FindNamesByPrefixBoards | task-board-be/src/main/java/com/example/task_board_be/repo/entity/BoardRepository.java:18-19 | one entry per board whose name starts with the prefix, archived boards included |
| BoardRepository.DeleteAllByIsArchivedTrue | task-board-be/src/main/java/com/example/task_board_be/repo/fragment/PurgeRepo.java:10-12 | every archived board is removed, active boards are untouched, and the count is the number removed |
| TaskRepository.FindAllBySpec | task-board-be/src/main/java/com/example/task_board_be/repo/entity/TaskRepository.java:14-17 | `findAll(spec)` returns exactly the tasks the specification matches, in ascending id order |
| TaskRepository.FindNamesByPrefixForBoard | task-board-be/src/main/java/com/example/task_board_be/repo/entity/TaskRepository.java:18-26 | every returned name starts with the prefix, ignoring case |
| TaskRepository.FindNamesByPrefixForBoardTasks | task-board-be/src/main/java/com/example/task_board_be/repo/entity/TaskRepository.java:18-26 | one entry per active task of that board whose name starts with the prefix; archived tasks and other boards' tasks are not returned |
| DefaultNames.SlotOf | task-board-be/src/main/java/com/example/task_board_be/service/entity/impl/BoardServiceImpl.java:401-418 | any slot a name marks lies between 1 and the largest int |
| DefaultNames.SlotOfForm | task-board-be/src/main/java/com/example/task_board_be/service/entity/impl/BoardServiceImpl.java:404-417 | any slot a normalised name marks lies between 1 and the largest int |
| DefaultNames.CounterSlot | task-board-be/src/main/java/com/example/task_board_be/service/entity/impl/BoardServiceImpl.java:408-417 | a tail marks a slot exactly when it parses as an int of at least 2, and then marks that int |
| DefaultNames.SlotOfNormalForm | task-board-be/src/main/java/com/example/task_board_be/service/entity/impl/BoardServiceImpl.java:403 | names with the same trimmed, lower-cased form mark the same slot |
| DefaultNames.MarksIff | task-board-be/src/main/java/com/example/task_board_be/service/entity/impl/BoardServiceImpl.java:398-418 | the set the loop builds holds exactly the slots some name marks |
| DefaultNames.CollectUsedSlots | task-board-be/src/main/java/com/example/task_board_be/service/entity/impl/BoardServiceImpl.java:398-418 | the first loop of `getNextDefaultName`: the set it builds is exactly the set of slots the names mark |
| DefaultNames.UsedSlotsIff | task-board-be/src/main/java/com/example/task_board_be/service/entity/impl/BoardServiceImpl.java:398-418 | a slot is used exactly when some name marks it; used slots are positive |
| DefaultNames.LeastFreeFrom | task-board-be/src/main/java/com/example/task_board_be/service/entity/impl/BoardServiceImpl.java:420-424 | counting up from a point below which all slots are used stops at the least free slot |
| DefaultNames.LeastFree | task-board-be/src/main/java/com/example/task_board_be/service/entity/impl/BoardServiceImpl.java:420-424 | the chosen number is free and every smaller positive number is used |
| DefaultNames.LeastFreeBound | task-board-be/src/main/java/com/example/task_board_be/service/entity/impl/BoardServiceImpl.java:420-424 | the chosen number is at most one more than the number of names |
| DefaultNames.NextDefaultName | task-board-be/src/main/java/com/example/task_board_be/service/entity/impl/BoardServiceImpl.java:395-427 | the method with the two loops returns exactly the gap-filling default name |
| DefaultNames.DefaultName | task-board-be/src/main/java/com/example/task_board_be/service/entity/impl/BoardServiceImpl.java:395-427 | what `getNextDefaultName` returns (defined, no ensures): the prefix rendered with the least free slot of the slots the names mark; the lemmas after it state gap filling and non-collision |
| DefaultNames.SlotOfRender | task-board-be/src/main/java/com/example/task_board_be/service/entity/impl/BoardServiceImpl.java:401-426 | a default name, read back, marks the slot it was made for |
| DefaultNames.SlotOfRenderOne | task-board-be/src/main/java/com/example/task_board_be/service/entity/impl/BoardServiceImpl.java:407-415 | "prefix 1" marks nothing, so it does not take slot 1 |
| DefaultNames.DefaultNameIsLeastFree | task-board-be/src/main/java/com/example/task_board_be/service/entity/impl/BoardServiceImpl.java:420-426 | gap filling: the result is the bare prefix for slot 1 and "prefix n" otherwise, no name marks n, and every slot below n is marked |
| DefaultNames.DefaultNameIsNew | task-board-be/src/main/java/com/example/task_board_be/service/entity/impl/BoardServiceImpl.java:395-427 | non-collision: the default, trimmed and lower-cased, differs from every existing name trimmed and lower-cased |
| DefaultNames.DefaultNameNotBlank | task-board-be/src/main/java/com/example/task_board_be/service/entity/impl/BoardServiceImpl.java:426 | the default name starts with the prefix and is not blank |
| DefaultNames.DefaultNameOfNone | task-board-be/src/main/java/com/example/task_board_be/service/entity/impl/BoardServiceImpl.java:420-426 | with no names the default is the bare prefix |
| DefaultNames.DefaultNameFromSlots | task-board-be/src/main/java/com/example/task_board_be/service/entity/impl/BoardServiceImpl.java:420-426 | minimality, converse: any free slot below which all slots are marked is the one chosen |
| DefaultNames.DefaultNameAfterTwo | task-board-be/src/main/java/com/example/task_board_be/service/entity/impl/BoardServiceImpl.java:395-427 | with slots 1 and 2 taken the default takes slot 3 |
| DefaultNames.BoardExampleTwoTaken | task-board-be/src/test/java/com/example/task_board_be/service/entity/impl/BoardServiceImplTest.java:157-178 | "New Board", "New Board 2" give "New Board 3" |
| DefaultNames.SlotOfFormWord | task-board-be/src/main/java/com/example/task_board_be/service/entity/impl/BoardServiceImpl.java:405-416 | a non-numeric tail after the base marks nothing |
| DefaultNames.SlotOfWordSuffix | task-board-be/src/main/java/com/example/task_board_be/service/entity/impl/BoardServiceImpl.java:405-416 | the prefix followed by a word, in any case, marks nothing |
| DefaultNames.SlotOfPadded | task-board-be/src/main/java/com/example/task_board_be/service/entity/impl/BoardServiceImpl.java:403-406 | the prefix padded with blanks, in any case, marks slot 1 |
| DefaultNames.SlotOfUnrelated | task-board-be/src/main/java/com/example/task_board_be/service/entity/impl/BoardServiceImpl.java:401-418 | a name not starting with the prefix's letter marks nothing |
| DefaultNames.FourthAfterThree | task-board-be/src/main/java/com/example/task_board_be/service/entity/impl/BoardServiceImpl.java:420-426 | with slots 1 to 3 taken by rendered names and slot 4 by none, the default takes slot 4 |
| DefaultNames.BoardNoiseSlots | task-board-be/src/test/java/com/example/task_board_be/service/entity/impl/BoardServiceImplTest.java:577-601 | "new board abc" and "Random Name" mark no slot |
| DefaultNames.BoardExampleWithNoise | task-board-be/src/test/java/com/example/task_board_be/service/entity/impl/BoardServiceImplTest.java:577-601 | names "New Board", "New Board 2", "New Board 3", "new board abc", null, "Random Name" give "New Board 4" |
| DefaultNames.TaskExampleOneTaken | task-board-be/src/test/java/com/example/task_board_be/service/entity/impl/TaskServiceImplTest.java:292-318 | "New Task" alone gives "New Task 2" |
| DefaultNames.TaskNoiseSlots | task-board-be/src/main/java/com/example/task_board_be/service/entity/impl/TaskServiceImpl.java:315-329 | "New Task 5" marks 5, "  new task  " marks 1, "New Task x" marks nothing |
| DefaultNames.TaskCounterSlot | task-board-be/src/main/java/com/example/task_board_be/service/entity/impl/TaskServiceImpl.java:321-325 | "New Task 5" marks slot 5 |
| DefaultNames.TaskPaddedSlot | task-board-be/src/main/java/com/example/task_board_be/service/entity/impl/TaskServiceImpl.java:317-320 | "  new task  " marks slot 1 |
| DefaultNames.TaskWordSlot | task-board-be/src/main/java/com/example/task_board_be/service/entity/impl/TaskServiceImpl.java:321-327 | "New Task x" marks nothing |
| DefaultNames.TaskRenders | task-board-be/src/main/java/com/example/task_board_be/service/entity/impl/TaskServiceImpl.java:333 | slots 1 to 4 render as "New Task", "New Task 2", "New Task 3", "New Task 4" |
| DefaultNames.TaskExampleWithGap | task-board-be/src/test/java/com/example/task_board_be/service/entity/impl/TaskServiceImplTest.java:140-170 | names "New Task", "New Task 2", "New Task 3", "New Task 5", null, "  new task  ", "New Task x" give "New Task 4" |
| ServiceErrors.LongString | task-board-be/src/main/java/com/example/task_board_be/exception/custom/NotFoundException.java:5 | the decimal text of an id: a minus sign exactly for negative ids, then the digits of the magnitude |
| ServiceErrors.StateWord | task-board-be/src/main/java/com/example/task_board_be/exception/custom/StateMismatchException.java:8-10 | the state word is never empty ("archived" or "active") |
| ServiceErrors.Message | task-board-be/src/main/java/com/example/task_board_be/exception/custom/StateMismatchException.java:4-10 | NotFound reads "<resource> not found: id=<id>"; StateMismatch starts "The '<resource>' with id " and ends with the expected state |
| ServiceErrors.NotFoundMessageInjective | task-board-be/src/main/java/com/example/task_board_be/exception/custom/NotFoundException.java:4-6 | two not-found messages of one resource are equal exactly when the ids are |
| ServiceErrors.FindInState | task-board-be/src/main/java/com/example/task_board_be/service/entity/impl/BoardServiceImpl.java:353-361 | `getBoard`/`getTask`: success exactly when the row exists with the wanted flag; otherwise NotFound for a missing id and StateMismatch naming the wanted state |
| ServiceErrors.CheckUpdatedRow | task-board-be/src/main/java/com/example/task_board_be/service/entity/impl/BoardServiceImpl.java:363-369 | no error exactly when a row was updated; otherwise NotFound for a missing id and StateMismatch for an existing one |
| ServiceErrors.CheckAgreesWithFind | task-board-be/src/main/java/com/example/task_board_be/service/entity/impl/TaskServiceImpl.java:288-294 | checking a one-id update's count gives the same outcome and the same error as looking the row up first |
| TaskServices.BoardIdOf | task-board-be/src/main/java/com/example/task_board_be/service/entity/impl/TaskServiceImpl.java:124-126 | a board id is present exactly when the model has a board model with an id |
| TaskServices.CreatedColumns | task-board-be/src/main/java/com/example/task_board_be/service/entity/impl/TaskServiceImpl.java:131-140 | the columns `create` saves (defined, no ensures): the mapped model pointed at the board, a blank name replaced by the default name, a null status or icon replaced by NONE; `CreatedColumnsComplete` states its properties |
| TaskServices.UpdatedColumns | task-board-be/src/main/java/com/example/task_board_be/service/entity/impl/TaskServiceImpl.java:159-168 | the columns `update` writes (defined, no ensures): the model's name only when it is not blank, and its description, status and icon even when null; `UpdatedColumnsKeeps` states its properties |
| TaskServices.CreatedColumnsComplete | task-board-be/src/main/java/com/example/task_board_be/service/entity/impl/TaskServiceImpl.java:131-140 | the created task is active, belongs to the board, keeps the description, keeps a non-blank name and status/icon, and otherwise gets the default name and NONE |
| TaskServices.UpdatedColumnsKeeps | task-board-be/src/main/java/com/example/task_board_be/service/entity/impl/TaskServiceImpl.java:159-168 | update keeps id, flag and board, replaces the name only by a non-blank one, always overwrites description, status and icon, and is idempotent |
| TaskServices.NoSearchText | task-board-be/src/main/java/com/example/task_board_be/service/entity/impl/TaskServiceImpl.java:85-98 | with no search text the list filters are the flag filter, and the flag and board filter |
| TaskServices.TaskService.AllIds | task-board-be/src/main/java/com/example/task_board_be/service/entity/impl/TaskServiceImpl.java:85 | exactly the ids of the tasks with that flag, ascending |
| TaskServices.TaskService.BoardIds | task-board-be/src/main/java/com/example/task_board_be/service/entity/impl/TaskServiceImpl.java:98 | exactly the ids of the tasks with that flag on that board (any board for a null id), ascending |
| TaskServices.TaskService.BoardIdsOfNone | task-board-be/src/main/java/com/example/task_board_be/service/entity/impl/TaskServiceImpl.java:94-98 | with a null board id the board-scoped list is the plain list |
| TaskServices.TaskService.GetList | task-board-be/src/main/java/com/example/task_board_be/service/entity/impl/TaskServiceImpl.java:81-90 | the models of exactly the tasks with that flag |
| TaskServices.TaskService.GetListOfBoard | task-board-be/src/main/java/com/example/task_board_be/service/entity/impl/TaskServiceImpl.java:94-103 | the models of exactly the tasks with that flag on that board |
| TaskServices.TaskService.GetListOfBoardMembers | task-board-be/src/main/java/com/example/task_board_be/service/entity/impl/TaskServiceImpl.java:94-103 | a model is listed exactly when it is the model of a task with that flag on that board |
| TaskServices.TaskService.GetListOfBoardIds | task-board-be/src/main/java/com/example/task_board_be/service/entity/impl/TaskServiceImpl.java:94-103 | each listed model carries its task's id |
| TaskServices.TaskService.GetTask | task-board-be/src/main/java/com/example/task_board_be/service/entity/impl/TaskServiceImpl.java:278-286 | `getTask` (defined, no ensures): `FindInState` over the stored tasks with resource name "task", whose contract gives the row, NotFound or StateMismatch |
| TaskServices.TaskService.GetEl | task-board-be/src/main/java/com/example/task_board_be/service/entity/impl/TaskServiceImpl.java:107-116 | the model of the task when it exists with the wanted flag; otherwise the `getTask` error |
| TaskServices.TaskService.NextDefaultTaskName | task-board-be/src/main/java/com/example/task_board_be/service/entity/impl/TaskServiceImpl.java:308-334 | the gap-filling default over the names of the board's active tasks with the prefix |
| TaskServices.TaskService.DefaultTaskNameIsNew | task-board-be/src/main/java/com/example/task_board_be/service/entity/impl/TaskServiceImpl.java:308-334 | the default collides with no active task of the board whose name starts with "New Task" |
| TaskServices.TaskService.DefaultTaskNameOfEmptyBoard | task-board-be/src/main/java/com/example/task_board_be/service/entity/impl/TaskServiceImpl.java:308-334 | with no such task the default is "New Task" |
| TaskServices.TaskService.NewTask | task-board-be/src/main/java/com/example/task_board_be/service/entity/impl/TaskServiceImpl.java:131-140 | the entity `create` builds before saving: `CreatedColumns` of the model and board, with the gap-filling default over the names of the board's active tasks |
| TaskServices.TaskService.Create | task-board-be/src/main/java/com/example/task_board_be/service/entity/impl/TaskServiceImpl.java:120-151 | no board id gives the missing-board error and a missing board NotFound("board"), both with no store change; otherwise one new task is stored under a fresh id with the defaulted columns, and its model carries the board's model |
| TaskServices.TaskService.Update | task-board-be/src/main/java/com/example/task_board_be/service/entity/impl/TaskServiceImpl.java:155-177 | a missing or archived task gives the `getTask` error and no change; otherwise only that task is rewritten with the updated columns and its model returned |
| TaskServices.TaskService.ToggleStateEl | task-board-be/src/main/java/com/example/task_board_be/service/entity/impl/TaskServiceImpl.java:234-251 | a true flag restores and a false flag archives; when the task is not in the expected state the result is NotFound or StateMismatch and nothing changes; otherwise only that task's flag flips |
| TaskServices.TaskService.ToggleStateList | task-board-be/src/main/java/com/example/task_board_be/service/entity/impl/TaskServiceImpl.java:254-276 | exactly the listed tasks in the expected state flip; the count is their number, at most the list length (0 for an empty list) |
| TaskServices.TaskService.ArchiveEl | task-board-be/src/main/java/com/example/task_board_be/service/entity/impl/TaskServiceImpl.java:181-183 | archives one active task, else NotFound or StateMismatch (expected active) |
| TaskServices.TaskService.ArchiveList | task-board-be/src/main/java/com/example/task_board_be/service/entity/impl/TaskServiceImpl.java:187-189 | archives exactly the listed active tasks and returns their number |
| TaskServices.TaskService.RestoreEl | task-board-be/src/main/java/com/example/task_board_be/service/entity/impl/TaskServiceImpl.java:193-195 | restores one archived task, else NotFound or StateMismatch (expected archived) |
| TaskServices.TaskService.RestoreList | task-board-be/src/main/java/com/example/task_board_be/service/entity/impl/TaskServiceImpl.java:199-201 | restores exactly the listed archived tasks and returns their number |
| TaskServices.TaskService.Delete | task-board-be/src/main/java/com/example/task_board_be/service/entity/impl/TaskServiceImpl.java:205-215 | deletes an archived task and returns 1; else NotFound or StateMismatch (expected archived) and nothing changes |
| TaskServices.TaskService.DeleteList | task-board-be/src/main/java/com/example/task_board_be/service/entity/impl/TaskServiceImpl.java:219-231 | deletes exactly the listed archived tasks and returns their number; a null or empty list deletes nothing and returns 0 |
| BoardServices.TaskListOf | task-board-be/src/main/java/com/example/task_board_be/pojo/entity/Board.java:20-21 | a board's task list is present and has no null entries |
| BoardServices.TaskListOfMembers | task-board-be/src/main/java/com/example/task_board_be/pojo/entity/Board.java:20-21 | a task is in a board's list exactly when it is stored with that board id |
| BoardServices.CreatedBoardComplete | task-board-be/src/main/java/com/example/task_board_be/service/entity/impl/BoardServiceImpl.java:97-101 | the created board is active, keeps the description, keeps a non-blank name and otherwise gets the default name |
| BoardServices.UpdatedBoardKeeps | task-board-be/src/main/java/com/example/task_board_be/service/entity/impl/BoardServiceImpl.java:118-125 | update keeps id and flag, replaces the name only by a non-blank one, always overwrites the description, and is idempotent |
| BoardServices.CreatedBoard | task-board-be/src/main/java/com/example/task_board_be/service/entity/impl/BoardServiceImpl.java:97-101 | the columns `create` saves (defined, no ensures): the mapped model with the default name in place of a blank name; `CreatedBoardComplete` states its properties |
| BoardServices.UpdatedBoard | task-board-be/src/main/java/com/example/task_board_be/service/entity/impl/BoardServiceImpl.java:118-126 | the columns `update` writes (defined, no ensures): the model's name only when it is not blank, and its description even when null; `UpdatedBoardKeeps` states its properties |
| BoardServices.ArchivedTasksOf | task-board-be/src/main/java/com/example/task_board_be/service/entity/impl/BoardServiceImpl.java:255-258 | the tasks the restore cascade gathers (defined, no ensures): the archived tasks whose board is one of the given boards |
| BoardServices.RestoreTasksOf | task-board-be/src/main/java/com/example/task_board_be/service/entity/impl/BoardServiceImpl.java:255-262 | the task table after the restore cascade (defined, no ensures): the flag update restoring exactly `ArchivedTasksOf`; `RestoreTasksOfChanges` states its effect |
| BoardServices.RestoreTasksOfChanges | task-board-be/src/main/java/com/example/task_board_be/service/entity/impl/BoardServiceImpl.java:254-262 | the cascade restores exactly the archived tasks of the given boards and leaves every other task as it was |
| BoardServices.ArchivedTasksOfUnion | task-board-be/src/main/java/com/example/task_board_be/service/entity/impl/BoardServiceImpl.java:255-258 | gathering over several boards is the union of gathering over each |
| BoardServices.AllListed | task-board-be/src/main/java/com/example/task_board_be/service/entity/impl/BoardServiceImpl.java:284 | once no board is archived, the active list holds every board |
| BoardServices.BoardService.GetBoard | task-board-be/src/main/java/com/example/task_board_be/service/entity/impl/BoardServiceImpl.java:353-361 | `getBoard` (defined, no ensures): `FindInState` over the stored boards with resource name "board", whose contract gives the row, NotFound or StateMismatch |
| BoardServices.BoardService.CascadeModel | task-board-be/src/main/java/com/example/task_board_be/service/entity/impl/BoardServiceImpl.java:84 | `toModelWithCascade` of the stored board and its task list (defined, no ensures); `CascadeModelTasks` states what it carries |
| BoardServices.BoardService.CascadeModelTasks | task-board-be/src/main/java/com/example/task_board_be/service/entity/impl/BoardServiceImpl.java:84 | the cascaded model carries the board's id and name and the models of exactly the board's tasks |
| BoardServices.BoardService.GetList | task-board-be/src/main/java/com/example/task_board_be/service/entity/impl/BoardServiceImpl.java:64-76 | the models of exactly the boards with that flag |
| BoardServices.BoardService.GetEl | task-board-be/src/main/java/com/example/task_board_be/service/entity/impl/BoardServiceImpl.java:80-90 | the cascaded model when the board exists with the wanted flag; otherwise the `getBoard` error |
| BoardServices.BoardService.NextDefaultBoardName | task-board-be/src/main/java/com/example/task_board_be/service/entity/impl/BoardServiceImpl.java:395-427 | the gap-filling default over the names of all boards with the prefix |
| BoardServices.BoardService.DefaultBoardNameIsNew | task-board-be/src/main/java/com/example/task_board_be/service/entity/impl/BoardServiceImpl.java:395-427 | the default collides with no board whose name starts with "New Board", archived boards included |
| BoardServices.BoardService.NewEntity | task-board-be/src/main/java/com/example/task_board_be/service/entity/impl/BoardServiceImpl.java:97-101 | the entity `create` saves: a fresh board whose columns are `CreatedBoard` of the model with the gap-filling default over the names of every board starting with the prefix |
| BoardServices.BoardService.Create | task-board-be/src/main/java/com/example/task_board_be/service/entity/impl/BoardServiceImpl.java:93-111 | one new board is stored under a fresh id, with the name replaced by the default only when blank; its plain model is returned |
| BoardServices.BoardService.Update | task-board-be/src/main/java/com/example/task_board_be/service/entity/impl/BoardServiceImpl.java:114-132 | a missing or archived board gives the `getBoard` error and no change; otherwise only that board is rewritten and its cascaded model returned |
| BoardServices.BoardService.ArchiveEl | task-board-be/src/main/java/com/example/task_board_be/service/entity/impl/BoardServiceImpl.java:137-152 | archives one active board, else NotFound or StateMismatch (expected active) with no change; tasks are never touched |
| BoardServices.BoardService.ArchiveList | task-board-be/src/main/java/com/example/task_board_be/service/entity/impl/BoardServiceImpl.java:156-177 | archives exactly the listed active boards and returns their number (0 for an empty list); tasks untouched; never an error |
| BoardServices.BoardService.RewriteFlags | task-board-be/src/main/java/com/example/task_board_be/service/entity/impl/BoardServiceImpl.java:200 | setting the flag the listed boards already have changes nothing |
| BoardServices.BoardService.ArchiveAll | task-board-be/src/main/java/com/example/task_board_be/service/entity/impl/BoardServiceImpl.java:181-205 | archives every active board and returns their number; tasks untouched |
| BoardServices.BoardService.ArchivedTaskIds | task-board-be/src/main/java/com/example/task_board_be/service/entity/impl/BoardServiceImpl.java:218-221 | the ids of the archived task list of a board are exactly its archived tasks |
| BoardServices.BoardService.GatherArchivedTasks | task-board-be/src/main/java/com/example/task_board_be/service/entity/impl/BoardServiceImpl.java:255-258 | the gathered ids are exactly the archived tasks of the listed boards |
| BoardServices.BoardService.RestoreTasksOfBoards | task-board-be/src/main/java/com/example/task_board_be/service/entity/impl/BoardServiceImpl.java:260-262 | one task restore of exactly the archived tasks of the listed boards |
| BoardServices.BoardService.RestoreEl | task-board-be/src/main/java/com/example/task_board_be/service/entity/impl/BoardServiceImpl.java:209-232 | restores one archived board, else NotFound or StateMismatch (expected archived) with no change; with tasks, its archived tasks are restored too, otherwise no task changes |
| BoardServices.BoardService.RestoreList | task-board-be/src/main/java/com/example/task_board_be/service/entity/impl/BoardServiceImpl.java:236-268 | restores exactly the listed archived boards and returns their number (0 for a null or empty list); with tasks and a non-zero count, the archived tasks of every listed board are restored |
| BoardServices.BoardService.RestoreAll | task-board-be/src/main/java/com/example/task_board_be/service/entity/impl/BoardServiceImpl.java:272-308 | restores every archived board and returns their number; with tasks and a non-zero count, every archived task of every board is restored |
| BoardServices.BoardService.Delete | task-board-be/src/main/java/com/example/task_board_be/service/entity/impl/BoardServiceImpl.java:312-323 | deletes an archived board and returns 1; else NotFound or StateMismatch (expected archived) and nothing changes |
| BoardServices.BoardService.DeleteList | task-board-be/src/main/java/com/example/task_board_be/service/entity/impl/BoardServiceImpl.java:327-337 | deletes exactly the listed archived boards and returns their number; tasks untouched |
| BoardServices.BoardService.Clear | task-board-be/src/main/java/com/example/task_board_be/service/entity/impl/BoardServiceImpl.java:341-351 | purges every archived board and returns their number; afterwards no board is archived |

## Left out

- Controllers, request validation (Bean Validation), the global exception handler, pagination (`getPage`) and logging are not part of this model.
  - The controllers de-duplicate id lists before calling a service. The model's bulk operations work on the set of the given ids, so duplicates make no difference either way.
  - An update takes its id from the path variable. That is why the update methods receive a model with an id.
- Transactions, concurrency and the database are not modelled.
  - The services' "row vanished after the update" branches (`IllegalStateException`/`IllegalArgumentException` after a successful update) cannot be reached in a sequential model. They are kept as dead branches.
  - The mock-based test of a task that disappears between update and reload has no counterpart.
- Timestamps (`createdAt`/`updatedAt`) are not modelled.
- What deleting a board does to its tasks is not modelled. The deletes are JPQL bulk statements (`ArchivableRepo.deleteByIdsIfArchived`, `PurgeRepo.deleteAllByIsArchivedTrue`). Bulk statements bypass the `cascade = CascadeType.ALL, orphanRemoval = true` mapping on `Board.taskList`. So only the foreign key on `task.board_id` decides the outcome. With a plain foreign key, deleting an archived board that still has tasks makes the database refuse the statement with a `DataIntegrityViolationException`, which the exception handler turns into a 409 response.
- BoardServices.BoardService.Delete, BoardServices.BoardService.DeleteList and BoardServices.BoardService.Clear assert success where the database may refuse. In the model they always remove the selected boards and leave those boards' tasks in the task table, pointing at a board id that no longer exists.
  - A later BoardServices.BoardService.RestoreList with tasks, over a list holding such a deleted board's id and at least one board it does restore, then also restores the archived orphan tasks of the deleted board.
- SQL `LIKE` wildcards and database collation are not modelled. The name filters are a case-insensitive substring match, and the prefix queries are a case-insensitive prefix match.
- `Text`: case mapping, whitespace and digits are ASCII and Java's `trim`/`isWhitespace` sets only. There is no Unicode case folding or normalisation.
- Text.ParseInt: accepts ASCII digits only. Java's `Integer.parseInt` accepts every Unicode decimal digit (through `Character.digit`). So a name such as "New Board ٢" (Arabic-Indic two) marks slot 2 in Java and nothing in the model, and DefaultNames.DefaultName can then differ from Java's result.
- TaskAssembler.FallbackNeverRescues: holds only when the default locale upper-cases like `Locale.ROOT`. `TaskStatus.fromValue` and `TaskIcon.fromValue` upper-case with the JVM's default locale, and the model's `ToUpper` is the ROOT mapping. Under a Turkish default locale, "in_progress" becomes "İN_PROGRESS", `fromValue` rejects it, and the ROOT `valueOf` fallback of `parseStatusOrNone` rescues it. The model does not capture this locale dependency.
- The `equals` fallback to object identity for entities without ids is modelled.
  - `Entities.HashCode` takes the identity hash as a parameter, because identity hashes are chosen by the VM.
- Query results are modelled in ascending id order, since the order of an unordered database query is not specified. The default-name algorithm does not depend on the order.
- The plain POJOs (`BaseModel`, resources, requests) and `BoardAssembler` are modelled only as the record datatypes they fill.
- Logging and `LoggerUtils` are left out.
- TaskServices.TaskService.Create requires `model.id.None?`, because the only caller passes a model built by `TaskAssembler.create`, which never sets an id. Creating from a model with an id (a JPA merge) is not modelled.
- TaskServices.TaskService.Update requires `model.id.Some?`, because the model comes from `TaskAssembler.update` with the path id.
- BoardServices.BoardService.Update requires `model.id.Some?`, for the same reason (`BoardAssembler.update`).
- BoardServices.BoardService.Create requires no id and no task models, because `BoardAssembler.create` sets neither. JPA's cascade save of a new board's tasks is therefore not modelled.
- DefaultNames.DefaultNameIsNew requires fewer than `Integer.MAX_VALUE` names. With that many names in use, `elNum` could pass the largest int, where Java's `int` would wrap around.
- TaskServices.TaskService.DefaultTaskNameIsNew and BoardServices.BoardService.DefaultBoardNameIsNew carry the same bound.

## Notes on the code's behaviour

- `restoreList(ids, true)` of the board service restores the archived tasks of every listed board as soon as at least one board was restored. This includes listed boards that were already active. The model states exactly that.
- The board service's `deleteList` has no empty-list check and the task service's has one. Both give 0 for an empty list.
- `Board.removeTask` on a board whose task list is `null` leaves the task's back-reference unchanged.
- The board name query counts archived boards. The task name query counts only the board's active tasks. So a default task name may repeat the name of an archived task, but a default board name never repeats any board's name.
- The `LIKE` filters match against the untrimmed stored name but the trimmed search text.
