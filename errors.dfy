/** The exceptions the two services throw, as values a failing operation
    returns instead of raising, with the messages their constructors build. */
module ServiceErrors {
  import opened Wrappers
  import opened Text
  import opened Entities
  import opened Table

  /** `RESOURCE_NAME` of `TaskServiceImpl`. */
  const TaskResourceName: string := "task"

  /** `RESOURCE_NAME` of `BoardServiceImpl`, and the literal `create` of a
      task passes when its board does not exist. */
  const BoardResourceName: string := "board"

  datatype ServiceError =
      /** `NotFoundException(resource, id)`. */
    | NotFound(resource: string, id: int)
      /** `StateMismatchException(resource, id, shouldBeArchived)`. */
    | StateMismatch(resource: string, id: int, shouldBeArchived: bool)
      /** The `IllegalArgumentException` task creation throws when the model
          names no board id. */
    | MissingBoardId
      /** The `IllegalStateException` of a task's `toggleStateEl` when the
          updated task cannot be read back. */
    | TaskVanished(id: int)
      /** The `IllegalArgumentException` of a board's `archiveEl` and
          `restoreEl` when the updated board cannot be read back. */
    | BoardVanished(id: int)

  /** `String.valueOf(long)`: a minus sign for negative values, then the
      decimal digits of the magnitude. */
  function LongString(v: int): (r: string)
    ensures r != [] && (r[0] == '-' <==> v < 0)
    ensures v >= 0 ==> AllDigits(r) && DigitsValue(r) == v
    ensures v < 0 ==> r[0] == '-' && AllDigits(r[1..]) && DigitsValue(r[1..]) == -v
  {
    DecimalStringValue(if v < 0 then -v else v);
    if v < 0 then "-" + DecimalString(-v) else DecimalString(v)
  }

  /** The word `StateMismatchException` puts at the end of its message. */
  function StateWord(shouldBeArchived: bool): (w: string)
    ensures w != []
  {
    if shouldBeArchived then "archived" else "active"
  }

  /** The exception's message. The two `IllegalArgumentException` and
      `IllegalStateException` texts are the literals the services throw. */
  function Message(e: ServiceError): (m: string)
    ensures e.NotFound? ==> StartsWith(m, e.resource + " not found: id=")
    ensures e.NotFound? ==> m[|e.resource + " not found: id="|..] == LongString(e.id)
    ensures e.StateMismatch? ==>
      StartsWith(m, "The '" + e.resource + "' with id ") &&
      m[|m| - |StateWord(e.shouldBeArchived)|..] == StateWord(e.shouldBeArchived)
  {
    match e
    case NotFound(resource, id) => resource + " not found: id=" + LongString(id)
    case StateMismatch(resource, id, shouldBeArchived) =>
      "The '" + resource + "' with id " + LongString(id) + " is not " + StateWord(shouldBeArchived)
    case MissingBoardId => "Board id è obbligatorio"
    case TaskVanished(id) => "Task " + LongString(id) + " non trovata dopo l'update"
    case BoardVanished(id) => "Board" + LongString(id) + "non trovata dopo l'update"
  }

  /** Two not-found messages for the same resource coincide exactly when
      the ids do: the message identifies the missing row. */
  lemma NotFoundMessageInjective(resource: string, a: int, b: int)
    ensures Message(NotFound(resource, a)) == Message(NotFound(resource, b)) <==> a == b
  {
    var p := resource + " not found: id=";
    if Message(NotFound(resource, a)) == Message(NotFound(resource, b)) {
      assert LongString(a) == LongString(b);
    }
  }

  /** `getTask` / `getBoard`: the row when it exists and has the wanted
      flag; otherwise NotFound, or StateMismatch naming the wanted state. */
  function FindInState<D>(rows: Rows<D>, resource: string, id: int, isArchived: bool): (r: Result<Record<D>, ServiceError>)
    ensures r.Success? <==> id in rows && rows[id].isArchived == isArchived
    ensures r.Success? ==> r.value == rows[id]
    ensures r.Failure? && id !in rows ==> r.error == NotFound(resource, id)
    ensures r.Failure? && id in rows ==> r.error == StateMismatch(resource, id, isArchived)
  {
    if id !in rows then Failure(NotFound(resource, id))
    else if isArchived != rows[id].isArchived then Failure(StateMismatch(resource, id, isArchived))
    else Success(rows[id])
  }

  /** `checkUpdatedRow(updatedRow, id, isArchived)`: no error when a row
      was updated; otherwise NotFound when the id does not exist and
      StateMismatch when it does. */
  function CheckUpdatedRow<D>(rows: Rows<D>, resource: string, updatedRow: int, id: int, isArchived: bool): (r: Option<ServiceError>)
    ensures r.None? <==> updatedRow != 0
    ensures r.Some? && id !in rows ==> r.value == NotFound(resource, id)
    ensures r.Some? && id in rows ==> r.value == StateMismatch(resource, id, isArchived)
  {
    if updatedRow == 0 then
      if id !in rows then Some(NotFound(resource, id))
      else Some(StateMismatch(resource, id, isArchived))
    else None
  }

  /** Checking the count of a one-id flag update or delete reports the
      same outcome, and the same error, as looking the row up first. */
  lemma CheckAgreesWithFind<D>(rows: Rows<D>, resource: string, id: int, isArchived: bool)
    ensures var count := |Matching(rows, Some({id}), isArchived)|;
      (CheckUpdatedRow(rows, resource, count, id, isArchived).None? <==>
        FindInState(rows, resource, id, isArchived).Success?) &&
      (CheckUpdatedRow(rows, resource, count, id, isArchived).Some? ==>
        CheckUpdatedRow(rows, resource, count, id, isArchived).value ==
          FindInState(rows, resource, id, isArchived).error)
  {
    SingleMatching(rows, id, isArchived);
  }
}
