/** The JPA entities: the fields every record shares (`BaseEntity`), a board
    with its owned task list, and a task with its back-reference to the board.
    A record value is the snapshot of an entity's columns; the classes are the
    in-memory objects whose fields the setters and the list mutators change. */
module Entities {
  import opened Wrappers
  import opened Collections
  import opened TaskEnums

  /** The columns of `Board` beyond the shared ones. */
  datatype BoardData = BoardData(name: Option<string>, description: Option<string>)

  /** The columns of `Task` beyond the shared ones; `boardId` is the
      `board_id` foreign key behind the `board` reference. */
  datatype TaskData = TaskData(
    name: Option<string>,
    description: Option<string>,
    status: Option<Status>,
    icon: Option<Icon>,
    boardId: Option<int>)

  /** `BaseEntity` (id and archived flag; the timestamps are not modelled)
      together with the subclass columns. */
  datatype Record<D> = Record(id: Option<int>, isArchived: bool, data: D)

  type BoardRecord = Record<BoardData>
  type TaskRecord = Record<TaskData>

  const LongMin: int := -0x8000_0000_0000_0000
  const LongMax: int := 0x7fff_ffff_0000_0000 + 0xffff_ffff

  /** `Long.hashCode(v)`: the two 32-bit halves of `v` exclusive-or'ed,
      read back as a signed 32-bit int. */
  function LongHash(v: int): (h: int)
    requires LongMin <= v <= LongMax
    ensures -0x8000_0000 <= h < 0x8000_0000
  {
    var bits := if v < 0 then v + 0x1_0000_0000_0000_0000 else v;
    var high := bits / 0x1_0000_0000;
    var low := bits % 0x1_0000_0000;
    var folded := ((low as bv32) ^ (high as bv32)) as int;
    if folded >= 0x8000_0000 then folded - 0x1_0000_0000 else folded
  }

  /** `BaseEntity.hashCode`: the id's hash, or the identity hash (supplied by
      the runtime, so a parameter here) while there is no id. */
  function HashCode(id: Option<int>, identityHash: int): int
    requires id.Some? ==> LongMin <= id.value <= LongMax
  {
    if id.None? then identityHash else LongHash(id.value)
  }

  /** A task as Hibernate holds it in memory. */
  class TaskEntity {
    var id: Option<int>
    var isArchived: bool
    var name: Option<string>
    var description: Option<string>
    var status: Option<Status>
    var icon: Option<Icon>
    var board: BoardEntity?

    /** `new Task()`: every reference field null, not archived. */
    constructor ()
      ensures id.None? && !isArchived && name.None? && description.None?
      ensures status.None? && icon.None? && board == null
    {
      id := None;
      isArchived := false;
      name := None;
      description := None;
      status := None;
      icon := None;
      board := null;
    }

    /** A new unattached task carrying the columns of `r`. */
    constructor FromRecord(r: TaskRecord)
      requires r.data.boardId.None?
      ensures State() == r && board == null
    {
      id := r.id;
      isArchived := r.isArchived;
      name := r.data.name;
      description := r.data.description;
      status := r.data.status;
      icon := r.data.icon;
      board := null;
    }

    /** The columns this object would be written as. */
    function State(): TaskRecord
      reads this, board
    {
      Record(id, isArchived, TaskData(name, description, status, icon,
        if board == null then None else board.id))
    }

    /** `Task.setBoard`. */
    method SetBoard(b: BoardEntity?)
      modifies this`board
      ensures board == b
    {
      board := b;
    }

    /** `BaseEntity.setIsArchived`. */
    method SetIsArchived(archived: bool)
      modifies this`isArchived
      ensures isArchived == archived
    {
      isArchived := archived;
    }
  }

  /** A board as Hibernate holds it in memory, with its owned task list. */
  class BoardEntity {
    var id: Option<int>
    var isArchived: bool
    var name: Option<string>
    var description: Option<string>
    var taskList: Option<seq<TaskEntity>>

    /** `new Board()`: no id, not archived, an empty task list. */
    constructor ()
      ensures id.None? && !isArchived && name.None? && description.None?
      ensures taskList == Some([])
    {
      id := None;
      isArchived := false;
      name := None;
      description := None;
      taskList := Some([]);
    }

    /** The columns this object would be written as. */
    function State(): BoardRecord
      reads this
    {
      Record(id, isArchived, BoardData(name, description))
    }

    /** `BaseEntity.setIsArchived`. */
    method SetIsArchived(archived: bool)
      modifies this`isArchived
      ensures isArchived == archived
      ensures State() == old(State()).(isArchived := archived)
    {
      isArchived := archived;
    }

    /** `Board.addTask`: appends the task (creating the list if it is null)
        and points the task back at this board. */
    method AddTask(task: TaskEntity)
      modifies this`taskList, task`board
      ensures taskList == Some(OrEmpty(old(taskList)) + [task])
      ensures task.board == this
    {
      if taskList.None? {
        taskList := Some([]);
      }
      taskList := Some(taskList.value + [task]);
      task.board := this;
    }

    /** `Board.removeTask`: with a null list nothing happens, the
        back-reference included; otherwise the first element equal to the
        task leaves the list and the task's back-reference is cleared. */
    method RemoveTask(task: TaskEntity)
      modifies this`taskList, task`board
      ensures old(taskList).None? ==> taskList.None? && task.board == old(task.board)
      ensures old(taskList).Some? ==>
        taskList == Some(RemoveFirst(old(taskList).value, task)) && task.board == null
    {
      if taskList.None? {
        return;
      }
      taskList := Some(RemoveFirst(taskList.value, task));
      task.board := null;
    }

    /** `Board.addTaskList`: a null own list is created first; a null or
        empty argument then changes nothing more; otherwise every given task
        is appended in order and pointed back at this board. */
    method AddTaskList(tasks: Option<seq<TaskEntity>>)
      modifies this`taskList, (set t | t in OrEmpty(tasks))`board
      ensures taskList == Some(OrEmpty(old(taskList)) + OrEmpty(tasks))
      ensures forall t | t in OrEmpty(tasks) :: t.board == this
    {
      if taskList.None? {
        taskList := Some([]);
      }
      if tasks.None? || tasks.value == [] {
        assert taskList.value + OrEmpty(tasks) == taskList.value;
        return;
      }
      var ts := tasks.value;
      taskList := Some(taskList.value + ts);
      for i := 0 to |ts|
        invariant taskList == Some(OrEmpty(old(taskList)) + ts)
        invariant forall j | 0 <= j < i :: ts[j].board == this
      {
        ts[i].board := this;
      }
    }

    /** `Board.removeTaskList`: unless either list is null or the argument is
        empty, every element equal to one of the given tasks leaves the list;
        back-references are left as they are. */
    method RemoveTaskList(tasks: Option<seq<TaskEntity>>)
      modifies this`taskList
      ensures old(taskList).None? || OrEmpty(tasks) == [] ==> taskList == old(taskList)
      ensures old(taskList).Some? && OrEmpty(tasks) != [] ==>
        taskList == Some(RemoveAll(old(taskList).value, tasks.value))
    {
      if taskList.None? || tasks.None? || tasks.value == [] {
        return;
      }
      taskList := Some(RemoveAll(taskList.value, tasks.value));
    }

    /** `Board.clearTaskList`: always leaves an empty, non-null list. */
    method ClearTaskList()
      modifies this`taskList
      ensures taskList == Some([])
    {
      taskList := Some([]);
    }
  }

  /** What `BaseEntity.equals` can tell about its argument. */
  predicate IsEntity(o: object?) {
    o is TaskEntity || o is BoardEntity
  }

  function IdOf(o: object?): Option<int>
    requires IsEntity(o)
    reads o
  {
    if o is TaskEntity then (o as TaskEntity).id else (o as BoardEntity).id
  }

  /** `BaseEntity.equals(o)` called on `self`: the same reference, or another
      entity (of either kind) with the same non-null id. */
  predicate EntityEquals(self: object, o: object?)
    requires IsEntity(self)
    reads self, o
  {
    if self == o then true
    else if !IsEntity(o) then false
    else if IdOf(self).None? || IdOf(o).None? then false
    else IdOf(self).value == IdOf(o).value
  }

  lemma EqualsReflexive(e: object)
    requires IsEntity(e)
    ensures EntityEquals(e, e)
  {
  }

  /** Two different objects one of which has no id are never equal. */
  lemma EqualsNeedsIds(a: object, b: object?)
    requires IsEntity(a) && a != b
    ensures EntityEquals(a, b) ==> IsEntity(b) && IdOf(a).Some? && IdOf(b).Some?
  {
  }

  /** With ids on both sides, equality is equality of ids, whatever the
      other columns and whatever the kinds: a board and a task compare equal. */
  lemma EqualsByIds(a: object, b: object)
    requires IsEntity(a) && IsEntity(b) && IdOf(a).Some? && IdOf(b).Some?
    ensures EntityEquals(a, b) <==> IdOf(a) == IdOf(b)
  {
  }

  lemma BoardEqualsTask(b: BoardEntity, t: TaskEntity)
    requires b.id.Some? && b.id == t.id
    ensures EntityEquals(b, t) && EntityEquals(t, b)
  {
  }

  lemma EqualsSymmetric(a: object, b: object)
    requires IsEntity(a) && IsEntity(b)
    ensures EntityEquals(a, b) == EntityEquals(b, a)
  {
  }

  lemma EqualsTransitive(a: object, b: object, c: object)
    requires IsEntity(a) && IsEntity(b) && IsEntity(c)
    requires EntityEquals(a, b) && EntityEquals(b, c)
    ensures EntityEquals(a, c)
  {
  }

  /** Equal entities with ids have equal hash codes, whatever their
      identity hashes. */
  lemma EqualsHashCode(a: object, b: object, ha: int, hb: int)
    requires IsEntity(a) && IsEntity(b) && IdOf(a).Some? && IdOf(b).Some?
    requires LongMin <= IdOf(a).value <= LongMax && LongMin <= IdOf(b).value <= LongMax
    requires EntityEquals(a, b)
    ensures HashCode(IdOf(a), ha) == HashCode(IdOf(b), hb)
  {
  }

  /** `task.equals(x)`, as `ArrayList.remove` and `removeAll` call it on two
      tasks: it reads nothing but the two ids. */
  predicate TaskEquals(task: TaskEntity, x: TaskEntity)
    reads task`id, x`id
  {
    task == x || (task.id.Some? && x.id.Some? && task.id == x.id)
  }

  lemma TaskEqualsIsEquals(task: TaskEntity, x: TaskEntity)
    ensures TaskEquals(task, x) == EntityEquals(task, x)
  {
  }

  /** Index `i` holds the first element of `xs` equal to `task`. */
  predicate FirstEqualAt(xs: seq<TaskEntity>, task: TaskEntity, i: int)
    reads task`id, (set x | x in xs)`id
  {
    0 <= i < |xs| && TaskEquals(task, xs[i]) && forall j | 0 <= j < i :: !TaskEquals(task, xs[j])
  }

  /** `ArrayList.remove(task)`: drops the first element equal to `task`. */
  function RemoveFirst(xs: seq<TaskEntity>, task: TaskEntity): (r: seq<TaskEntity>)
    reads task`id, (set x | x in xs)`id
    ensures (forall i | 0 <= i < |xs| :: !TaskEquals(task, xs[i])) ==> r == xs
    ensures forall i | FirstEqualAt(xs, task, i) :: r == xs[..i] + xs[i + 1..]
  {
    if xs == [] then []
    else if TaskEquals(task, xs[0]) then xs[1..]
    else
      var rest := RemoveFirst(xs[1..], task);
      RemoveFirstStep(xs, task, rest);
      [xs[0]] + rest
  }

  /** The step of `RemoveFirst` past a head that does not match. */
  lemma RemoveFirstStep(xs: seq<TaskEntity>, task: TaskEntity, rest: seq<TaskEntity>)
    requires xs != [] && !TaskEquals(task, xs[0])
    requires (forall i | 0 <= i < |xs[1..]| :: !TaskEquals(task, xs[1..][i])) ==> rest == xs[1..]
    requires forall i | FirstEqualAt(xs[1..], task, i) :: rest == xs[1..][..i] + xs[1..][i + 1..]
    ensures (forall i | 0 <= i < |xs| :: !TaskEquals(task, xs[i])) ==> [xs[0]] + rest == xs
    ensures forall i | FirstEqualAt(xs, task, i) :: [xs[0]] + rest == xs[..i] + xs[i + 1..]
  {
    var ys := xs[1..];
    if forall i | 0 <= i < |xs| :: !TaskEquals(task, xs[i]) {
      assert forall i | 0 <= i < |ys| :: ys[i] == xs[i + 1];
    }
    forall i | FirstEqualAt(xs, task, i)
      ensures [xs[0]] + rest == xs[..i] + xs[i + 1..]
    {
      assert i >= 1;
      assert forall j | 0 <= j < i - 1 :: ys[j] == xs[j + 1];
      assert FirstEqualAt(ys, task, i - 1);
      assert xs[..i] == [xs[0]] + ys[..i - 1];
      assert xs[i + 1..] == ys[i..];
    }
  }

  /** Whether `x` equals one of `tasks`, as `Collection.contains` decides. */
  predicate ContainsEqual(tasks: seq<TaskEntity>, x: TaskEntity)
    reads x`id, (set t | t in tasks)`id
  {
    exists t | t in tasks :: TaskEquals(x, t)
  }

  /** `ArrayList.removeAll(tasks)`: keeps, in order, the elements equal to
      none of `tasks`. */
  function RemoveAll(xs: seq<TaskEntity>, tasks: seq<TaskEntity>): (r: seq<TaskEntity>)
    reads (set x | x in xs)`id, (set t | t in tasks)`id
    ensures |r| <= |xs|
    ensures forall x | x in r :: x in xs && !ContainsEqual(tasks, x)
    ensures forall x | x in xs && !ContainsEqual(tasks, x) :: x in r
  {
    if xs == [] then []
    else
      var rest := RemoveAll(xs[1..], tasks);
      assert forall x | x in xs :: x == xs[0] || x in xs[1..];
      if ContainsEqual(tasks, xs[0]) then rest else [xs[0]] + rest
  }

  /** The filter keeps the list's order: it distributes over concatenation. */
  lemma {:induction false} RemoveAllAppend(xs: seq<TaskEntity>, ys: seq<TaskEntity>, tasks: seq<TaskEntity>)
    ensures RemoveAll(xs + ys, tasks) == RemoveAll(xs, tasks) + RemoveAll(ys, tasks)
  {
    if xs == [] {
      assert xs + ys == ys;
    } else {
      assert (xs + ys)[1..] == xs[1..] + ys;
      RemoveAllAppend(xs[1..], ys, tasks);
    }
  }
}
