/** `TaskAssembler`: builds task models from the create and update requests,
    reading status and icon leniently so that parsing never fails. */
module TaskAssembler {
  import opened Wrappers
  import opened Text
  import opened TaskEnums
  import opened Models

  /** `parseStatusOrNone`: NONE for blank text; otherwise the trimmed text
      through `fromValue`, then through `valueOf` of its upper-cased form,
      then NONE. */
  function ParseStatusOrNone(raw: Option<string>): (r: Status)
    ensures IsBlank(raw) ==> r == Status.NONE
  {
    if IsBlank(raw) then Status.NONE
    else
      var s := Trim(raw.value);
      match StatusFromValue(s)
      case Some(x) => x
      case None =>
        match StatusValueOf(ToUpper(s))
        case Some(x) => x
        case None => Status.NONE
  }

  /** `parseIconOrNone`, the same chain for icons. */
  function ParseIconOrNone(raw: Option<string>): (r: Icon)
    ensures IsBlank(raw) ==> r == Icon.NONE
  {
    if IsBlank(raw) then Icon.NONE
    else
      var s := Trim(raw.value);
      match IconFromValue(s)
      case Some(x) => x
      case None =>
        match IconValueOf(ToUpper(s))
        case Some(x) => x
        case None => Icon.NONE
  }

  /** With `fromValue` upper-casing as `Locale.ROOT` does (the model's
      `ToUpper`), the second lookup only repeats the first one, so it never
      rescues a string `fromValue` rejected. Under a default locale that
      upper-cases differently (Turkish dotted capitals) it would. */
  lemma FallbackNeverRescues(s: string)
    ensures StatusFromValue(s).None? ==> StatusValueOf(ToUpper(s)).None?
    ensures IconFromValue(s).None? ==> IconValueOf(ToUpper(s)).None?
  {
  }

  /** A constant other than NONE comes out exactly when the text, trimmed and
      upper-cased, is its name; anything else (blank or unrecognised) gives NONE. */
  lemma ParseStatusIff(raw: Option<string>, x: Status)
    requires x != Status.NONE
    ensures ParseStatusOrNone(raw) == x <==> !IsBlank(raw) && ToUpper(Trim(raw.value)) == x.Name()
  {
    if !IsBlank(raw) {
      StatusFromValueIff(Trim(raw.value), x);
    }
  }

  lemma ParseIconIff(raw: Option<string>, x: Icon)
    requires x != Icon.NONE
    ensures ParseIconOrNone(raw) == x <==> !IsBlank(raw) && ToUpper(Trim(raw.value)) == x.Name()
  {
    if !IsBlank(raw) {
      IconFromValueIff(Trim(raw.value), x);
    }
  }

  /** Text whose upper-cased form is a name, with any padding of blanks
      around it, parses to that constant. */
  lemma ParseStatusPadded(before: string, text: string, after: string, x: Status)
    requires AllTrimmed(before) && AllTrimmed(after)
    requires ToUpper(text) == x.Name()
    ensures ParseStatusOrNone(Some(before + text + after)) == x
  {
    StatusNameEnds(x);
    assert text != [];
    UpperKeepsTrimmed(text[0]);
    UpperKeepsTrimmed(text[|text| - 1]);
    assert ToUpper(text)[0] == UpperChar(text[0]);
    assert ToUpper(text)[|text| - 1] == UpperChar(text[|text| - 1]);
    TrimPadded(before, text, after);
    NotBlankWith(before + text + after, |before|);
    StatusFromValueIff(text, x);
  }

  lemma ParseIconPadded(before: string, text: string, after: string, x: Icon)
    requires AllTrimmed(before) && AllTrimmed(after)
    requires ToUpper(text) == x.Name()
    ensures ParseIconOrNone(Some(before + text + after)) == x
  {
    IconNameEnds(x);
    assert text != [];
    UpperKeepsTrimmed(text[0]);
    UpperKeepsTrimmed(text[|text| - 1]);
    assert ToUpper(text)[0] == UpperChar(text[0]);
    assert ToUpper(text)[|text| - 1] == UpperChar(text[|text| - 1]);
    TrimPadded(before, text, after);
    NotBlankWith(before + text + after, |before|);
    IconFromValueIff(text, x);
  }

  lemma ParseStatusExact(text: string, x: Status)
    requires ToUpper(text) == x.Name()
    ensures ParseStatusOrNone(Some(text)) == x
  {
    assert [] + text + [] == text;
    ParseStatusPadded([], text, [], x);
  }

  lemma ParseIconExact(text: string, x: Icon)
    requires ToUpper(text) == x.Name()
    ensures ParseIconOrNone(Some(text)) == x
  {
    assert [] + text + [] == text;
    ParseIconPadded([], text, [], x);
  }

  /** Parsing the name of a constant, in either case, gives that constant. */
  lemma ParseStatusRoundTrip(x: Status)
    ensures ParseStatusOrNone(Some(x.Name())) == x
    ensures ParseStatusOrNone(Some(ToLower(x.Name()))) == x
  {
    StatusNameIsUpper(x);
    UpperOfLower(x.Name());
    ParseStatusExact(x.Name(), x);
    ParseStatusExact(ToLower(x.Name()), x);
  }

  lemma ParseIconRoundTrip(x: Icon)
    ensures ParseIconOrNone(Some(x.Name())) == x
    ensures ParseIconOrNone(Some(ToLower(x.Name()))) == x
  {
    IconNameIsUpper(x);
    UpperOfLower(x.Name());
    ParseIconExact(x.Name(), x);
    ParseIconExact(ToLower(x.Name()), x);
  }

  /** The padded, lower-case status of the assembler's unit tests. */
  lemma ParseStatusExample()
    ensures ParseStatusOrNone(Some("  in_progress ")) == IN_PROGRESS
  {
    StatusExampleTexts();
    ParseStatusPadded("  ", "in_progress", " ", IN_PROGRESS);
  }

  lemma StatusExampleTexts()
    ensures ToUpper("in_progress") == IN_PROGRESS.Name()
    ensures "  " + "in_progress" + " " == "  in_progress "
    ensures AllTrimmed("  ") && AllTrimmed(" ")
  {
  }

  /** The padded, lower-case icon of the assembler's unit tests. */
  lemma ParseIconExample()
    ensures ParseIconOrNone(Some("  bug  ")) == BUG
  {
    assert ToUpper("bug") == "BUG";
    assert "  bug  " == "  " + "bug" + "  ";
    ParseIconPadded("  ", "bug", "  ", BUG);
  }

  /** The unrecognised text of the update test gives NONE. */
  lemma ParseUnknownIconExample()
    ensures ParseIconOrNone(Some("???")) == Icon.NONE
  {
    var s := "???";
    assert s[0] == '?' && s[|s| - 1] == '?';
    ParseIconNonLetter(s);
  }

  /** Trimmed text that starts with neither letter case is no icon name. */
  lemma ParseIconNonLetter(t: string)
    requires t != [] && !IsTrimmed(t[0]) && !IsTrimmed(t[|t| - 1])
    requires !('a' <= t[0] <= 'z') && !('A' <= t[0] <= 'Z')
    ensures ParseIconOrNone(Some(t)) == Icon.NONE
  {
    TrimKeepsTrimmed(t);
    NotBlankWith(t, 0);
    assert ToUpper(t)[0] == t[0];
    NoIconStartsWith(ToUpper(t));
  }

  /** So no text starting with anything else names an icon. */
  lemma NoIconStartsWith(u: string)
    requires u != [] && !('A' <= u[0] <= 'Z')
    ensures IconValueOf(u).None?
  {
    if IconValueOf(u).Some? {
      IconNameEnds(IconValueOf(u).value);
    }
  }

  /** `assembleModel(CreateTaskRequest)`: name and description copied as
      they are (even blank), status and icon parsed, and a board model
      holding only the id exactly when the request names a board. */
  function AssembleCreate(request: CreateTaskRequest): (m: TaskModel)
    ensures m.id.None? && !m.isArchived
    ensures m.name == request.name && m.description == request.description
    ensures m.status == Some(ParseStatusOrNone(request.status))
    ensures m.icon == Some(ParseIconOrNone(request.icon))
    ensures m.boardModel.Some? <==> request.boardId.Some?
    ensures m.boardModel.Some? ==> m.boardModel.value == NewBoardModel.(id := request.boardId)
  {
    NewTaskModel.(
      name := request.name,
      description := request.description,
      status := Some(ParseStatusOrNone(request.status)),
      icon := Some(ParseIconOrNone(request.icon)),
      boardModel := if request.boardId.Some? then Some(NewBoardModel.(id := request.boardId)) else None)
  }

  /** `assembleModel(UpdateTaskRequest, id)`: the given id, the copied texts
      and the parsed enums; no board. */
  function AssembleUpdate(request: UpdateTaskRequest, id: Option<int>): (m: TaskModel)
    ensures m.id == id && !m.isArchived && m.boardModel.None?
    ensures m.name == request.name && m.description == request.description
    ensures m.status == Some(ParseStatusOrNone(request.status))
    ensures m.icon == Some(ParseIconOrNone(request.icon))
  {
    NewTaskModel.(
      id := id,
      name := request.name,
      description := request.description,
      status := Some(ParseStatusOrNone(request.status)),
      icon := Some(ParseIconOrNone(request.icon)))
  }
}
