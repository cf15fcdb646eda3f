/** The two enumerations a task carries, with the lookups by name that Java
    generates (`valueOf`) and the case-insensitive one the JSON layer uses
    (`fromValue`). */
module TaskEnums {
  import opened Wrappers
  import opened Text

  /** `TaskStatus`. */
  datatype Status = NONE | TODO | IN_PROGRESS | DONE | BLOCKED | CANCELED {
    /** `name()`: the constant's identifier. */
    function Name(): string {
      match this
      case NONE => "NONE"
      case TODO => "TODO"
      case IN_PROGRESS => "IN_PROGRESS"
      case DONE => "DONE"
      case BLOCKED => "BLOCKED"
      case CANCELED => "CANCELED"
    }
  }

  /** `TaskStatus.valueOf`: the constant with exactly this name; None stands
      for the `IllegalArgumentException` any other string throws. */
  function StatusValueOf(s: string): (r: Option<Status>)
    ensures r.Some? ==> r.value.Name() == s
  {
    if s == "NONE" then Some(Status.NONE)
    else if s == "TODO" then Some(TODO)
    else if s == "IN_PROGRESS" then Some(IN_PROGRESS)
    else if s == "DONE" then Some(DONE)
    else if s == "BLOCKED" then Some(BLOCKED)
    else if s == "CANCELED" then Some(CANCELED)
    else None
  }

  /** `TaskStatus.fromValue`: `valueOf` of the upper-cased string, not trimmed. */
  function StatusFromValue(s: string): (r: Option<Status>)
    ensures r.Some? ==> r.value.Name() == ToUpper(s)
  {
    StatusValueOf(ToUpper(s))
  }

  /** `valueOf` finds a constant exactly when the string is its name. */
  lemma StatusValueOfIff(s: string, x: Status)
    ensures StatusValueOf(s) == Some(x) <==> s == x.Name()
  {
  }

  /** Names are upper case, so `fromValue` accepts a name in any case. */
  lemma StatusFromValueIff(s: string, x: Status)
    ensures StatusFromValue(s) == Some(x) <==> ToUpper(s) == x.Name()
  {
    StatusValueOfIff(ToUpper(s), x);
  }

  /** Every name is written in upper case. */
  lemma StatusNameIsUpper(x: Status)
    ensures ToUpper(x.Name()) == x.Name()
  {
    match x
    case NONE => assert ToUpper("NONE") == "NONE";
    case TODO => assert ToUpper("TODO") == "TODO";
    case IN_PROGRESS => assert ToUpper("IN_PROGRESS") == "IN_PROGRESS";
    case DONE => assert ToUpper("DONE") == "DONE";
    case BLOCKED => assert ToUpper("BLOCKED") == "BLOCKED";
    case CANCELED => assert ToUpper("CANCELED") == "CANCELED";
  }

  /** Every status name is non-empty, starts with a capital letter and
      does not end in a blank. */
  lemma StatusNameEnds(x: Status)
    ensures x.Name() != [] && 'A' <= x.Name()[0] <= 'Z' && !IsTrimmed(x.Name()[|x.Name()| - 1])
  {
  }

  lemma StatusFromValueAnyCase(x: Status)
    ensures StatusFromValue(x.Name()) == Some(x)
    ensures StatusFromValue(ToLower(x.Name())) == Some(x)
  {
    UpperOfLower(x.Name());
    StatusNameIsUpper(x);
  }

  /** `TaskIcon`. */
  datatype Icon = NONE | BUG | FEATURE | DOCUMENTATION | REFACTOR | TEST | MAINTENANCE {
    /** `name()`: the constant's identifier. */
    function Name(): string {
      match this
      case NONE => "NONE"
      case BUG => "BUG"
      case FEATURE => "FEATURE"
      case DOCUMENTATION => "DOCUMENTATION"
      case REFACTOR => "REFACTOR"
      case TEST => "TEST"
      case MAINTENANCE => "MAINTENANCE"
    }
  }

  /** `TaskIcon.valueOf`; None stands for `IllegalArgumentException`. */
  function IconValueOf(s: string): (r: Option<Icon>)
    ensures r.Some? ==> r.value.Name() == s
  {
    if s == "NONE" then Some(Icon.NONE)
    else if s == "BUG" then Some(BUG)
    else if s == "FEATURE" then Some(FEATURE)
    else if s == "DOCUMENTATION" then Some(DOCUMENTATION)
    else if s == "REFACTOR" then Some(REFACTOR)
    else if s == "TEST" then Some(TEST)
    else if s == "MAINTENANCE" then Some(MAINTENANCE)
    else None
  }

  /** `TaskIcon.fromValue`: `valueOf` of the upper-cased string, not trimmed. */
  function IconFromValue(s: string): (r: Option<Icon>)
    ensures r.Some? ==> r.value.Name() == ToUpper(s)
  {
    IconValueOf(ToUpper(s))
  }

  lemma IconValueOfIff(s: string, x: Icon)
    ensures IconValueOf(s) == Some(x) <==> s == x.Name()
  {
  }

  lemma IconFromValueIff(s: string, x: Icon)
    ensures IconFromValue(s) == Some(x) <==> ToUpper(s) == x.Name()
  {
    IconValueOfIff(ToUpper(s), x);
  }

  lemma IconNameIsUpper(x: Icon)
    ensures ToUpper(x.Name()) == x.Name()
  {
    match x
    case NONE => assert ToUpper("NONE") == "NONE";
    case BUG => assert ToUpper("BUG") == "BUG";
    case FEATURE => assert ToUpper("FEATURE") == "FEATURE";
    case DOCUMENTATION => assert ToUpper("DOCUMENTATION") == "DOCUMENTATION";
    case REFACTOR => assert ToUpper("REFACTOR") == "REFACTOR";
    case TEST => assert ToUpper("TEST") == "TEST";
    case MAINTENANCE => assert ToUpper("MAINTENANCE") == "MAINTENANCE";
  }

  /** Every icon name is non-empty, starts with a capital letter and
      does not end in a blank. */
  lemma IconNameEnds(x: Icon)
    ensures x.Name() != [] && 'A' <= x.Name()[0] <= 'Z' && !IsTrimmed(x.Name()[|x.Name()| - 1])
  {
  }

  lemma IconFromValueAnyCase(x: Icon)
    ensures IconFromValue(x.Name()) == Some(x)
    ensures IconFromValue(ToLower(x.Name())) == Some(x)
  {
    UpperOfLower(x.Name());
    IconNameIsUpper(x);
  }

  /** `fromValue` does not trim: surrounding blanks make the lookup fail. */
  lemma FromValueDoesNotTrim()
    ensures StatusFromValue(" todo") == None
    ensures IconFromValue("bug ") == None
  {
    assert ToUpper(" todo") == " TODO";
    assert ToUpper("bug ") == "BUG ";
  }
}
