/** The default-name allocator both services share (`getNextDefaultName`
    with the prefix "New Board", `getNextDefaultTaskName` with "New Task"):
    every existing name marks the slot it occupies, and the new name takes
    the least free slot. */
module DefaultNames {
  import opened Wrappers
  import opened Text

  /** The slot a name occupies, compared trimmed and lower-cased; a null
      name marks nothing. */
  function SlotOf(base: string, name: Option<string>): (r: Option<int>)
    ensures r.Some? ==> 1 <= r.value <= IntMax
  {
    if name.None? then None else SlotOfForm(base, ToLower(Trim(name.value)))
  }

  /** The slot of a trimmed, lower-cased name `d`: the bare base marks slot 1;
      the base followed by a space marks the number after it when that parses
      as an int of at least 2; anything else marks nothing. */
  function SlotOfForm(base: string, d: string): (r: Option<int>)
    ensures r.Some? ==> 1 <= r.value <= IntMax
  {
    if d == base then Some(1)
    else if StartsWith(d, base + " ") then CounterSlot(Trim(d[|base|..]))
    else None
  }

  /** The slot a counter text marks. */
  function CounterSlot(tail: string): (r: Option<int>)
    ensures r.Some? ==> 2 <= r.value <= IntMax
    ensures r.Some? <==> ParseInt(tail).Some? && ParseInt(tail).value >= 2
  {
    match ParseInt(tail)
    case Some(c) => if c >= 2 then Some(c) else None
    case None => None
  }

  /** The slot a name marks depends on nothing but its trimmed, lower-cased
      form. */
  lemma SlotOfNormalForm(base: string, a: string, b: string)
    requires ToLower(Trim(a)) == ToLower(Trim(b))
    ensures SlotOf(base, Some(a)) == SlotOf(base, Some(b))
  {
  }

  /** The slot of every name, in order. */
  function SlotsOf(base: string, names: seq<Option<string>>): (r: seq<Option<int>>)
    ensures |r| == |names|
    ensures forall i | 0 <= i < |names| :: r[i] == SlotOf(base, names[i])
  {
    seq(|names|, i requires 0 <= i < |names| => SlotOf(base, names[i]))
  }

  /** The set of the marked slots, filled front to back. */
  function Marks(slots: seq<Option<int>>): (used: set<int>) {
    if slots == [] then {}
    else
      Marks(slots[..|slots| - 1]) +
      (match slots[|slots| - 1] case Some(c) => {c} case None => {})
  }

  /** A slot is in the set exactly when some element marks it. */
  lemma {:induction false} MarksIff(slots: seq<Option<int>>, c: int)
    ensures c in Marks(slots) <==> Some(c) in slots
  {
    if slots != [] {
      var init := slots[..|slots| - 1];
      MarksIff(init, c);
      assert slots == init + [slots[|slots| - 1]];
    }
  }

  /** One more element adds the slot it marks, if any. */
  lemma MarksStep(slots: seq<Option<int>>, i: int)
    requires 0 <= i < |slots|
    ensures Marks(slots[..i + 1]) == Marks(slots[..i]) + (if slots[i].Some? then {slots[i].value} else {})
  {
    assert slots[..i + 1][..i] == slots[..i];
  }

  lemma {:induction false} MarksCard(slots: seq<Option<int>>)
    ensures |Marks(slots)| <= |slots|
  {
    if slots != [] {
      MarksCard(slots[..|slots| - 1]);
    }
  }

  /** The set the loop fills: every slot some name marks. */
  function UsedSlots(base: string, names: seq<Option<string>>): (used: set<int>) {
    Marks(SlotsOf(base, names))
  }

  /** A slot is used exactly when some name marks it, and every used slot is
      positive. */
  lemma UsedSlotsIff(base: string, names: seq<Option<string>>, c: int)
    ensures c in UsedSlots(base, names) <==> exists i | 0 <= i < |names| :: SlotOf(base, names[i]) == Some(c)
    ensures c in UsedSlots(base, names) ==> c >= 1
  {
    var slots := SlotsOf(base, names);
    MarksIff(slots, c);
    if Some(c) in slots {
      var i :| 0 <= i < |slots| && slots[i] == Some(c);
      assert SlotOf(base, names[i]) == Some(c);
    }
  }

  /** A set holding 1 .. n-1 has at least n-1 elements. */
  lemma {:induction false} RangeInSet(used: set<int>, n: int)
    requires n >= 1 && forall j | 1 <= j < n :: j in used
    ensures n - 1 <= |used|
  {
    if n > 1 {
      RangeInSet(used - {n - 1}, n - 1);
    }
  }

  /** The least slot, from `n` upwards, that `used` leaves free. */
  function LeastFreeFrom(used: set<int>, n: int): (r: int)
    requires n >= 1 && forall j | 1 <= j < n :: j in used
    ensures r >= n && r !in used && forall j | 1 <= j < r :: j in used
    decreases |used| - n + 1
  {
    RangeInSet(used, n);
    if n in used then
      RangeInSet(used, n + 1);
      LeastFreeFrom(used, n + 1)
    else n
  }

  /** The least positive slot not in `used`: every smaller slot is used. */
  function LeastFree(used: set<int>): (r: int)
    ensures r >= 1 && r !in used && forall j | 1 <= j < r :: j in used
  {
    LeastFreeFrom(used, 1)
  }

  /** The least free slot never exceeds one more than the number of used
      slots, and so one more than the number of names. */
  lemma {:induction false} LeastFreeBound(base: string, names: seq<Option<string>>)
    ensures LeastFree(UsedSlots(base, names)) <= |names| + 1
  {
    var used := UsedSlots(base, names);
    RangeInSet(used, LeastFree(used));
    MarksCard(SlotsOf(base, names));
  }

  /** The name for a slot: the bare prefix for slot 1, else the prefix, a
      space and the number. */
  function Render(prefix: string, n: nat): string {
    if n == 1 then prefix else prefix + " " + DecimalString(n)
  }

  /** What `getNextDefaultName` returns for the names its query found. */
  function DefaultName(prefix: string, names: seq<Option<string>>): string {
    Render(prefix, LeastFree(UsedSlots(ToLower(prefix), names)))
  }

  /** The allocator as written: a loop marking slots into a set, then a loop
      counting upwards past the used slots. */
  method NextDefaultName(prefix: string, names: seq<Option<string>>) returns (name: string)
    ensures name == DefaultName(prefix, names)
  {
    var used := CollectUsedSlots(ToLower(prefix), names);
    var num := 1;
    while num in used
      invariant 1 <= num && forall j | 1 <= j < num :: j in used
      invariant LeastFreeFrom(used, num) == LeastFree(used)
      decreases |used| - num + 1
    {
      RangeInSet(used, num + 1);
      num := num + 1;
    }
    name := Render(prefix, num);
  }

  /** The allocator's first loop: the slot each name marks goes into the set. */
  method CollectUsedSlots(base: string, names: seq<Option<string>>) returns (used: set<int>)
    ensures used == UsedSlots(base, names)
  {
    used := {};
    ghost var slots := SlotsOf(base, names);
    for i := 0 to |names|
      invariant used == Marks(slots[..i])
    {
      var n := names[i];
      MarksStep(slots, i);
      if n.Some? {
        var d := ToLower(Trim(n.value));
        assert slots[i] == SlotOfForm(base, d);
        if d == base {
          used := used + {1};
        } else if StartsWith(d, base + " ") {
          var tail := Trim(d[|base|..]);
          var counter := ParseInt(tail);
          assert slots[i] == CounterSlot(tail);
          if counter.Some? && counter.value >= 2 {
            used := used + {counter.value};
          }
        }
      }
    }
    assert slots[..|names|] == slots;
  }

  /** The prefixes the services use start and end with a letter. */
  predicate GoodPrefix(prefix: string) {
    prefix != [] && !IsTrimmed(prefix[0]) && !IsTrimmed(prefix[|prefix| - 1])
  }

  lemma LowerDigits(s: string)
    requires AllDigits(s)
    ensures ToLower(s) == s
  {
  }

  /** A rendered name with a counter is already trimmed, and lower-casing
      it touches only the prefix. */
  lemma RenderedForm(prefix: string, digits: string)
    requires GoodPrefix(prefix) && digits != [] && AllDigits(digits)
    ensures ToLower(Trim(prefix + " " + digits)) == ToLower(prefix) + " " + digits
  {
    var s := prefix + " " + digits;
    assert s[0] == prefix[0] && s[|s| - 1] == digits[|digits| - 1];
    TrimKeepsTrimmed(s);
    LowerAppend(prefix, " ");
    LowerAppend(prefix + " ", digits);
    LowerDigits(digits);
  }

  /** The base, a space and digits mark what the digits parse to. */
  lemma SlotOfFormCounter(base: string, digits: string)
    requires digits != [] && AllDigits(digits)
    ensures SlotOfForm(base, base + " " + digits) == CounterSlot(digits)
  {
    var d := base + " " + digits;
    assert d != base by {
      assert |d| > |base|;
    }
    assert StartsWith(d, base + " ") by {
      assert d[..|base + " "|] == base + " ";
    }
    assert d[|base|..] == " " + digits + [];
    assert AllTrimmed(" ");
    assert AllTrimmed([]);
    TrimPadded(" ", digits, []);
  }

  /** Rendering a slot and reading it back gives the slot again. */
  lemma SlotOfRender(prefix: string, n: nat)
    requires GoodPrefix(prefix) && 1 <= n <= IntMax
    ensures SlotOf(ToLower(prefix), Some(Render(prefix, n))) == Some(n)
  {
    if n == 1 {
      TrimKeepsTrimmed(prefix);
    } else {
      RenderedForm(prefix, DecimalString(n));
      SlotOfFormCounter(ToLower(prefix), DecimalString(n));
      ParsePrinted(n);
    }
  }

  /** Slot 1 is taken only by the bare base: "prefix 1" marks nothing. */
  lemma SlotOfRenderOne(prefix: string)
    requires GoodPrefix(prefix)
    ensures SlotOf(ToLower(prefix), Some(prefix + " " + DecimalString(1))) == None
  {
    RenderedForm(prefix, DecimalString(1));
    SlotOfFormCounter(ToLower(prefix), DecimalString(1));
    ParsePrinted(1);
  }

  /** Gap filling: the default name's slot is free, and every smaller slot is
      marked by some existing name. */
  lemma DefaultNameIsLeastFree(prefix: string, names: seq<Option<string>>)
    ensures var n := LeastFree(UsedSlots(ToLower(prefix), names));
      DefaultName(prefix, names) == Render(prefix, n) &&
      (forall i | 0 <= i < |names| :: SlotOf(ToLower(prefix), names[i]) != Some(n)) &&
      (forall j | 1 <= j < n :: exists i | 0 <= i < |names| :: SlotOf(ToLower(prefix), names[i]) == Some(j))
  {
    var base := ToLower(prefix);
    var n := LeastFree(UsedSlots(base, names));
    UsedSlotsIff(base, names, n);
    forall j | 1 <= j < n
      ensures exists i | 0 <= i < |names| :: SlotOf(base, names[i]) == Some(j)
    {
      UsedSlotsIff(base, names, j);
    }
  }

  /** Non-collision: the default name, trimmed and lower-cased, is different
      from every existing name trimmed and lower-cased. */
  lemma DefaultNameIsNew(prefix: string, names: seq<Option<string>>)
    requires GoodPrefix(prefix) && |names| < IntMax
    ensures forall x | Some(x) in names :: ToLower(Trim(x)) != ToLower(Trim(DefaultName(prefix, names)))
  {
    var base := ToLower(prefix);
    var n := LeastFree(UsedSlots(base, names));
    LeastFreeBound(base, names);
    SlotOfRender(prefix, n);
    DefaultNameIsLeastFree(prefix, names);
    forall x | Some(x) in names
      ensures ToLower(Trim(x)) != ToLower(Trim(DefaultName(prefix, names)))
    {
      var i :| 0 <= i < |names| && names[i] == Some(x);
      if ToLower(Trim(x)) == ToLower(Trim(DefaultName(prefix, names))) {
        SlotOfNormalForm(base, x, DefaultName(prefix, names));
      }
    }
  }

  /** The default name starts with the prefix, so it is never blank. */
  lemma DefaultNameNotBlank(prefix: string, names: seq<Option<string>>)
    requires GoodPrefix(prefix)
    ensures StartsWith(DefaultName(prefix, names), prefix)
    ensures !IsBlank(Some(DefaultName(prefix, names)))
  {
    var d := DefaultName(prefix, names);
    assert d[..|prefix|] == prefix;
    NotBlankWith(d, 0);
  }

  /** With no names the default is the bare prefix. */
  lemma DefaultNameOfNone(prefix: string)
    ensures DefaultName(prefix, []) == prefix
  {
  }

  /** There is only one least free slot. */
  lemma LeastFreeUnique(used: set<int>, n: int)
    requires n >= 1 && n !in used && forall j | 1 <= j < n :: j in used
    ensures LeastFree(used) == n
  {
  }

  /** The converse of gap filling: a slot that no name marks, with every
      smaller slot marked, is the default name's slot. */
  lemma DefaultNameFromSlots(prefix: string, names: seq<Option<string>>, n: int)
    requires n >= 1
    requires forall i | 0 <= i < |names| :: SlotOf(ToLower(prefix), names[i]) != Some(n)
    requires forall j | 1 <= j < n :: exists i | 0 <= i < |names| :: SlotOf(ToLower(prefix), names[i]) == Some(j)
    ensures DefaultName(prefix, names) == Render(prefix, n)
  {
    var base := ToLower(prefix);
    var used := UsedSlots(base, names);
    UsedSlotsIff(base, names, n);
    forall j | 1 <= j < n
      ensures j in used
    {
      var i :| 0 <= i < |names| && SlotOf(base, names[i]) == Some(j);
      UsedSlotsIff(base, names, j);
    }
    LeastFreeUnique(used, n);
  }

  /** Slots 1 and 2 taken: the default takes slot 3. */
  lemma DefaultNameAfterTwo(prefix: string)
    requires GoodPrefix(prefix)
    ensures DefaultName(prefix, [Some(Render(prefix, 1)), Some(Render(prefix, 2))]) == Render(prefix, 3)
  {
    var names := [Some(Render(prefix, 1)), Some(Render(prefix, 2))];
    var slots := SlotsOf(ToLower(prefix), names);
    SlotOfRender(prefix, 1);
    SlotOfRender(prefix, 2);
    LeastFreeAfterTwo(slots);
  }

  /** Two elements marking slots 1 and 2 leave slot 3 as the least free. */
  lemma LeastFreeAfterTwo(slots: seq<Option<int>>)
    requires |slots| == 2 && slots[0] == Some(1) && slots[1] == Some(2)
    ensures LeastFree(Marks(slots)) == 3
  {
    assert Some(3) !in slots by {
      forall i | 0 <= i < |slots| ensures slots[i] != Some(3) {
      }
    }
    MarksIff(slots, 1);
    MarksIff(slots, 2);
    MarksIff(slots, 3);
    LeastFreeUnique(Marks(slots), 3);
  }

  /** The board example: "New Board" and "New Board 2" are taken, so the
      next default is "New Board 3". */
  lemma BoardExampleTwoTaken()
    ensures DefaultName("New Board", [Some("New Board"), Some("New Board 2")]) == "New Board 3"
  {
    BoardPrefixFacts();
    BoardRenders();
    DefaultNameAfterTwo("New Board");
  }

  lemma SlotOfFormWord(base: string, word: string)
    requires word != [] && !IsTrimmed(word[0]) && !IsTrimmed(word[|word| - 1])
    requires word[0] != '-' && word[0] != '+' && !IsDigit(word[0])
    ensures SlotOfForm(base, base + " " + word) == None
  {
    var d := base + " " + word;
    assert d != base by {
      assert |d| > |base|;
    }
    assert StartsWith(d, base + " ") by {
      assert d[..|base + " "|] == base + " ";
    }
    assert d[|base|..] == " " + word + [];
    assert AllTrimmed(" ");
    assert AllTrimmed([]);
    TrimPadded(" ", word, []);
  }

  predicate IsLetter(c: char) {
    'a' <= c <= 'z' || 'A' <= c <= 'Z'
  }

  lemma LowerKeepsKind(c: char)
    ensures IsLetter(c) ==> IsLetter(LowerChar(c))
    ensures !IsTrimmed(c) ==> !IsTrimmed(LowerChar(c))
  {
  }

  /** A name that is the prefix and a word starting with a letter marks
      nothing, whatever its case. */
  lemma SlotOfWordSuffix(prefix: string, word: string)
    requires GoodPrefix(prefix) && word != [] && IsLetter(word[0]) && !IsTrimmed(word[|word| - 1])
    ensures SlotOf(ToLower(prefix), Some(prefix + " " + word)) == None
  {
    var s := prefix + " " + word;
    assert s[0] == prefix[0] && s[|s| - 1] == word[|word| - 1];
    TrimKeepsTrimmed(s);
    LowerAppend(prefix, " ");
    LowerAppend(prefix + " ", word);
    var w := ToLower(word);
    LowerKeepsKind(word[0]);
    LowerKeepsKind(word[|word| - 1]);
    assert w[0] == LowerChar(word[0]) && w[|w| - 1] == LowerChar(word[|word| - 1]);
    assert ToLower(s) == ToLower(prefix) + " " + w;
    SlotOfFormWord(ToLower(prefix), w);
  }

  /** The prefix padded with blanks, in any case, marks slot 1 like the bare
      prefix. */
  lemma SlotOfPadded(prefix: string, before: string, after: string)
    requires GoodPrefix(prefix) && AllTrimmed(before) && AllTrimmed(after)
    ensures SlotOf(ToLower(prefix), Some(before + ToLower(prefix) + after)) == Some(1)
  {
    var base := ToLower(prefix);
    LowerKeepsKind(prefix[0]);
    LowerKeepsKind(prefix[|prefix| - 1]);
    assert base[0] == LowerChar(prefix[0]) && base[|base| - 1] == LowerChar(prefix[|prefix| - 1]);
    TrimPadded(before, base, after);
    LowerIdempotent(prefix);
  }

  /** A name whose first letter differs from the prefix's, whatever the
      case, marks nothing. */
  lemma SlotOfUnrelated(prefix: string, name: string)
    requires GoodPrefix(prefix) && GoodPrefix(name) && LowerChar(name[0]) != LowerChar(prefix[0])
    ensures SlotOf(ToLower(prefix), Some(name)) == None
  {
    TrimKeepsTrimmed(name);
    var d := ToLower(name);
    var base := ToLower(prefix);
    assert d[0] != base[0];
    assert d != base;
    assert !StartsWith(d, base + " ") by {
      assert (base + " ")[0] == base[0];
    }
    assert SlotOfForm(base, d) == None;
  }

  /** Slots 1 to 3 taken by the first three names and slot 4 marked by none
      of the others: the default takes slot 4. */
  lemma FourthAfterThree(prefix: string, names: seq<Option<string>>)
    requires GoodPrefix(prefix) && |names| >= 3
    requires names[0] == Some(Render(prefix, 1)) && names[1] == Some(Render(prefix, 2))
    requires names[2] == Some(Render(prefix, 3))
    requires forall i | 3 <= i < |names| :: SlotOf(ToLower(prefix), names[i]) != Some(4)
    ensures DefaultName(prefix, names) == Render(prefix, 4)
  {
    var slots := SlotsOf(ToLower(prefix), names);
    SlotOfRender(prefix, 1);
    SlotOfRender(prefix, 2);
    SlotOfRender(prefix, 3);
    LeastFreeAfterThree(slots);
  }

  /** Slots 1 to 3 marked first and slot 4 never leave slot 4 as the least
      free. */
  lemma LeastFreeAfterThree(slots: seq<Option<int>>)
    requires |slots| >= 3 && slots[0] == Some(1) && slots[1] == Some(2) && slots[2] == Some(3)
    requires forall i | 3 <= i < |slots| :: slots[i] != Some(4)
    ensures LeastFree(Marks(slots)) == 4
  {
    assert Some(4) !in slots by {
      forall i | 0 <= i < |slots| ensures slots[i] != Some(4) {
      }
    }
    MarksIff(slots, 1);
    MarksIff(slots, 2);
    MarksIff(slots, 3);
    MarksIff(slots, 4);
    LeastFreeUnique(Marks(slots), 4);
  }

  /** `SlotOf` for one base, as a function value. */
  function SlotFn(base: string): (f: Option<string> -> Option<int>)
    ensures forall n :: f(n) == SlotOf(base, n)
  {
    n => SlotOf(base, n)
  }

  /** A function applied to every name, in order. */
  function MapNames(f: Option<string> -> Option<int>, names: seq<Option<string>>): (r: seq<Option<int>>)
    ensures |r| == |names| && forall i | 0 <= i < |names| :: r[i] == f(names[i])
  {
    seq(|names|, i requires 0 <= i < |names| => f(names[i]))
  }

  /** The slots of the names are `SlotFn` mapped over them. */
  lemma SlotsOfIsMap(base: string, names: seq<Option<string>>)
    ensures SlotsOf(base, names) == MapNames(SlotFn(base), names)
  {
  }

  /** Mapping over six names, one by one. Only supports the worked examples below. */
  lemma MapSix(f: Option<string> -> Option<int>, n1: Option<string>, n2: Option<string>, n3: Option<string>,
               n4: Option<string>, n5: Option<string>, n6: Option<string>)
    ensures MapNames(f, [n1, n2, n3, n4, n5, n6]) == [f(n1), f(n2), f(n3), f(n4), f(n5), f(n6)]
  {
    var r := MapNames(f, [n1, n2, n3, n4, n5, n6]);
    var t := [f(n1), f(n2), f(n3), f(n4), f(n5), f(n6)];
    assert r[0] == t[0] && r[1] == t[1] && r[2] == t[2];
    assert r[3] == t[3] && r[4] == t[4] && r[5] == t[5];
    assert |r| == |t|;
  }

  /** Mapping over seven names, one by one. Only supports the worked examples below. */
  lemma MapSeven(f: Option<string> -> Option<int>, n1: Option<string>, n2: Option<string>, n3: Option<string>,
                 n4: Option<string>, n5: Option<string>, n6: Option<string>, n7: Option<string>)
    ensures MapNames(f, [n1, n2, n3, n4, n5, n6, n7]) == [f(n1), f(n2), f(n3), f(n4), f(n5), f(n6), f(n7)]
  {
    var r := MapNames(f, [n1, n2, n3, n4, n5, n6, n7]);
    var t := [f(n1), f(n2), f(n3), f(n4), f(n5), f(n6), f(n7)];
    assert r[0] == t[0] && r[1] == t[1] && r[2] == t[2];
    assert r[3] == t[3] && r[4] == t[4] && r[5] == t[5] && r[6] == t[6];
    assert |r| == |t|;
  }

  /** The slots of six names, one by one. Only supports the worked examples below. */
  lemma SlotsOfSix(base: string, n1: Option<string>, n2: Option<string>, n3: Option<string>,
                   n4: Option<string>, n5: Option<string>, n6: Option<string>)
    ensures SlotsOf(base, [n1, n2, n3, n4, n5, n6]) ==
      [SlotOf(base, n1), SlotOf(base, n2), SlotOf(base, n3), SlotOf(base, n4), SlotOf(base, n5), SlotOf(base, n6)]
  {
    SlotsOfIsMap(base, [n1, n2, n3, n4, n5, n6]);
    MapSix(SlotFn(base), n1, n2, n3, n4, n5, n6);
  }

  /** The slots of seven names, one by one. Only supports the worked examples below. */
  lemma SlotsOfSeven(base: string, n1: Option<string>, n2: Option<string>, n3: Option<string>,
                     n4: Option<string>, n5: Option<string>, n6: Option<string>, n7: Option<string>)
    ensures SlotsOf(base, [n1, n2, n3, n4, n5, n6, n7]) ==
      [SlotOf(base, n1), SlotOf(base, n2), SlotOf(base, n3), SlotOf(base, n4), SlotOf(base, n5), SlotOf(base, n6),
       SlotOf(base, n7)]
  {
    SlotsOfIsMap(base, [n1, n2, n3, n4, n5, n6, n7]);
    MapSeven(SlotFn(base), n1, n2, n3, n4, n5, n6, n7);
  }

  /** Slots 1 to 3 followed by three slots other than 4 leave 4 free first. Only supports the worked examples below. */
  lemma LeastFreeThenThree(x: Option<int>, y: Option<int>, z: Option<int>)
    requires x != Some(4) && y != Some(4) && z != Some(4)
    ensures LeastFree(Marks([Some(1), Some(2), Some(3), x, y, z])) == 4
  {
    var slots := [Some(1), Some(2), Some(3), x, y, z];
    forall i | 3 <= i < |slots|
      ensures slots[i] != Some(4)
    {
    }
    LeastFreeAfterThree(slots);
  }

  /** The same with four slots after the first three. Only supports the worked examples below. */
  lemma LeastFreeThenFour(w: Option<int>, x: Option<int>, y: Option<int>, z: Option<int>)
    requires w != Some(4) && x != Some(4) && y != Some(4) && z != Some(4)
    ensures LeastFree(Marks([Some(1), Some(2), Some(3), w, x, y, z])) == 4
  {
    var slots := [Some(1), Some(2), Some(3), w, x, y, z];
    forall i | 3 <= i < |slots|
      ensures slots[i] != Some(4)
    {
    }
    LeastFreeAfterThree(slots);
  }

  /** The board prefix, as the board service uses it. */
  lemma BoardPrefixFacts()
    ensures GoodPrefix("New Board") && ToLower("New Board") == "new board"
    ensures GoodPrefix("new board") && "New Board"[0] == 'N'
  {
  }

  /** The names the first four board slots render to. */
  lemma BoardRenders()
    ensures Render("New Board", 1) == "New Board"
    ensures Render("New Board", 2) == "New Board 2"
    ensures Render("New Board", 3) == "New Board 3"
    ensures Render("New Board", 4) == "New Board 4"
  {
  }

  /** The texts of the noise names of the board example. */
  lemma BoardNoiseTexts()
    ensures "new board" + " " + "abc" == "new board abc"
    ensures "abc" != [] && IsLetter("abc"[0]) && !IsTrimmed("abc"[|"abc"| - 1])
    ensures GoodPrefix("Random Name") && "Random Name"[0] == 'R'
  {
  }

  /** The noise in the board example marks no slot. */
  lemma BoardNoiseSlots()
    ensures ToLower("New Board") == "new board"
    ensures SlotOf("new board", Some("new board abc")).None?
    ensures SlotOf("new board", Some("Random Name")).None?
  {
    BoardPrefixFacts();
    BoardNoiseTexts();
    LowerIdempotent("New Board");
    SlotOfWordSuffix("new board", "abc");
    SlotOfUnrelated("New Board", "Random Name");
  }

  /** The board example with an unrelated, a null and a non-numeric name:
      "New Board", "New Board 2" and "New Board 3" are taken, "new board
      abc", null and "Random Name" mark nothing, so the next default is
      "New Board 4". */
  lemma BoardExampleWithNoise()
    ensures DefaultName("New Board", [Some("New Board"), Some("New Board 2"), Some("New Board 3"),
      Some("new board abc"), None, Some("Random Name")]) == "New Board 4"
  {
    var p := "New Board";
    BoardPrefixFacts();
    BoardRenders();
    BoardNoiseSlots();
    SlotOfRender(p, 1);
    SlotOfRender(p, 2);
    SlotOfRender(p, 3);
    SlotsOfSix(ToLower(p), Some("New Board"), Some("New Board 2"), Some("New Board 3"),
      Some("new board abc"), None, Some("Random Name"));
    LeastFreeThenThree(None, None, None);
  }

  /** One taken slot leaves slot 2 as the least free. */
  lemma LeastFreeAfterOne(slots: seq<Option<int>>)
    requires |slots| == 1 && slots[0] == Some(1)
    ensures LeastFree(Marks(slots)) == 2
  {
    MarksIff(slots, 1);
    MarksIff(slots, 2);
    LeastFreeUnique(Marks(slots), 2);
  }

  /** The task prefix, as the task service uses it. */
  lemma TaskPrefixFacts()
    ensures GoodPrefix("New Task") && ToLower("New Task") == "new task"
  {
  }

  /** The names the task slots of the examples render to. */
  lemma TaskRenders()
    ensures Render("New Task", 1) == "New Task"
    ensures Render("New Task", 2) == "New Task 2"
    ensures Render("New Task", 3) == "New Task 3"
    ensures Render("New Task", 4) == "New Task 4"
    ensures Render("New Task", 5) == "New Task 5"
  {
  }

  /** The task example with one name: "New Task" is taken, so the next
      default is "New Task 2". */
  lemma TaskExampleOneTaken()
    ensures DefaultName("New Task", [Some("New Task")]) == "New Task 2"
  {
    var p := "New Task";
    TaskPrefixFacts();
    TaskRenders();
    var names := [Some(p)];
    var slots := SlotsOf(ToLower(p), names);
    SlotOfRender(p, 1);
    LeastFreeAfterOne(slots);
  }

  /** The texts of the noise names of the larger task example. */
  lemma TaskNoiseTexts()
    ensures AllTrimmed("  ") && "  " + "new task" + "  " == "  new task  "
    ensures "New Task" + " " + "x" == "New Task x"
    ensures "x" != [] && IsLetter("x"[0]) && !IsTrimmed("x"[|"x"| - 1])
  {
  }

  /** The slots the names of the larger task example mark, beyond the
      first three. */
  lemma TaskNoiseSlots()
    ensures ToLower("New Task") == "new task"
    ensures SlotOf("new task", Some("New Task 5")) == Some(5)
    ensures SlotOf("new task", Some("  new task  ")) == Some(1)
    ensures SlotOf("new task", Some("New Task x")).None?
  {
    TaskPrefixFacts();
    TaskCounterSlot();
    TaskPaddedSlot();
    TaskWordSlot();
  }

  lemma TaskCounterSlot()
    ensures SlotOf("new task", Some("New Task 5")) == Some(5)
  {
    TaskPrefixFacts();
    TaskRenders();
    SlotOfRender("New Task", 5);
  }

  lemma TaskPaddedSlot()
    ensures SlotOf("new task", Some("  new task  ")) == Some(1)
  {
    TaskPrefixFacts();
    TaskNoiseTexts();
    SlotOfPadded("New Task", "  ", "  ");
  }

  lemma TaskWordSlot()
    ensures SlotOf("new task", Some("New Task x")).None?
  {
    TaskPrefixFacts();
    TaskNoiseTexts();
    SlotOfWordSuffix("New Task", "x");
  }

  /** The task example with a gap, a null, a padded lower-case duplicate and
      a non-numeric tail: "New Task", "New Task 2", "New Task 3" and
      "New Task 5" are taken, so the next default fills the gap at 4. */
  lemma TaskExampleWithGap()
    ensures DefaultName("New Task", [Some("New Task"), Some("New Task 2"), Some("New Task 3"),
      Some("New Task 5"), None, Some("  new task  "), Some("New Task x")]) == "New Task 4"
  {
    var p := "New Task";
    TaskPrefixFacts();
    TaskRenders();
    TaskNoiseSlots();
    SlotOfRender(p, 1);
    SlotOfRender(p, 2);
    SlotOfRender(p, 3);
    SlotsOfSeven(ToLower(p), Some("New Task"), Some("New Task 2"), Some("New Task 3"),
      Some("New Task 5"), None, Some("  new task  "), Some("New Task x"));
    LeastFreeThenFour(Some(5), None, Some(1), None);
  }
}
