/** The section loop of `main`: walk A's sections in order, match each by name in B,
    filter, and diff the surviving pairs. */
module ElfDiff {
  import opened ElfModel
  import opened SectionLookup
  import opened SectionDiff

  /** Events contributed by one section of A. The type check compares the section's
      type tag with itself, exactly as the program does, so it never fires. */
  function SectionEvents(s: Section, two: Image, hex: HexDump): (r: seq<Event>)
    ensures s.name.None? ==> r == []
    ensures s.name.Some? && SectionWithName(s.name.value, two).None? ==> r == []
    ensures s.name.Some? && SectionWithName(s.name.value, two).Some? && s.shType == Note ==>
              r == [SkipNote(s.name.value)]
    ensures s.name.Some? && FirstNamed(s.name.value, two).Some? && s.shType != Note ==>
              r == DiffSections(s, two[FirstNamed(s.name.value, two).value], hex)
    ensures forall k :: 0 <= k < |r| ==> !r[k].TypeMismatch?
  {
    match s.name
    case None => []
    case Some(nameOne) =>
      match SectionWithName(nameOne, two)
      case None => []
      case Some(sectionTwo) =>
        if s.shType != s.shType then [TypeMismatch(nameOne)]
        else if s.shType == Note then [SkipNote(nameOne)]
        else DiffSections(s, sectionTwo, hex)
  }

  /** The per-section outputs of `sections` under `f`, concatenated in order. */
  function Emit(sections: Image, f: Section -> seq<Event>): seq<Event>
    decreases |sections|
  {
    if sections == [] then []
    else Emit(sections[..|sections| - 1], f) + f(sections[|sections| - 1])
  }

  /** Emitting a concatenation emits the two parts one after the other. */
  lemma {:induction false} EmitAppend(front: Image, back: Image, f: Section -> seq<Event>)
    ensures Emit(front + back, f) == Emit(front, f) + Emit(back, f)
    decreases |back|
  {
    if back == [] {
      assert front + back == front;
    } else {
      var init := back[..|back| - 1];
      assert (front + back)[..|front + back| - 1] == front + init;
      assert (front + back)[|front + back| - 1] == back[|back| - 1];
      EmitAppend(front, init, f);
    }
  }

  /** What `main` prints for one section of A, given B and the formatter. */
  function PerSection(two: Image, hex: HexDump): Section -> seq<Event> {
    s => SectionEvents(s, two, hex)
  }

  /** All events for the sections `one`, in order: each section's events form one block. */
  function Events(one: Image, two: Image, hex: HexDump): seq<Event> {
    Emit(one, PerSection(two, hex))
  }

  /** The "Different section types" notice is never printed. */
  lemma {:induction false} NeverTypeMismatch(one: Image, two: Image, hex: HexDump)
    ensures forall k :: 0 <= k < |Events(one, two, hex)| ==> !Events(one, two, hex)[k].TypeMismatch?
    decreases |one|
  {
    if one != [] {
      var init, last := one[..|one| - 1], one[|one| - 1];
      NeverTypeMismatch(init, two, hex);
      assert Events(one, two, hex) == Events(init, two, hex) + SectionEvents(last, two, hex);
    }
  }

  /** The loop of `main` over A's sections. */
  method DiffImages(one: Image, two: Image, hex: HexDump) returns (out: seq<Event>)
    ensures out == Events(one, two, hex)
  {
    out := [];
    for i := 0 to |one|
      invariant out == Events(one[..i], two, hex)
    {
      assert one[..i + 1][..i] == one[..i];
      var sectionOne := one[i];
      if sectionOne.name.None? {
        continue;
      }
      var nameOne := sectionOne.name.value;
      var found := GetSectionWithName(nameOne, two);
      if found.None? {
        continue;
      }
      var sectionTwo := found.value;
      if sectionOne.shType != sectionOne.shType {
        out := out + [TypeMismatch(nameOne)];
      } else if sectionOne.shType == Note {
        out := out + [SkipNote(nameOne)];
      } else {
        out := out + DiffSections(sectionOne, sectionTwo, hex);
      }
    }
    assert one[..|one|] == one;
  }

  /** Events of a concatenation are the concatenation of the events. */
  lemma EventsAppend(front: Image, back: Image, two: Image, hex: HexDump)
    ensures Events(front + back, two, hex) == Events(front, two, hex) + Events(back, two, hex)
  {
    EmitAppend(front, back, PerSection(two, hex));
  }

  /** The `k`-th section's events sit, complete and contiguous, between those of the
      sections before it and those after it. */
  lemma SectionBlock(one: Image, two: Image, hex: HexDump, k: nat)
    requires k < |one|
    ensures Events(one, two, hex) ==
              Events(one[..k], two, hex) + SectionEvents(one[k], two, hex) + Events(one[k + 1..], two, hex)
  {
    assert one == one[..k] + [one[k]] + one[k + 1..];
    EventsAppend(one[..k] + [one[k]], one[k + 1..], two, hex);
    EventsAppend(one[..k], [one[k]], two, hex);
    assert [one[k]][..0] == [];
  }

  /** A section of A whose name does not resolve, or that has no same-named section
      in B, leaves no trace in the output. */
  lemma DroppedSectionInvisible(one: Image, two: Image, hex: HexDump, k: nat)
    requires k < |one|
    requires one[k].name.None? || SectionWithName(one[k].name.value, two).None?
    ensures Events(one, two, hex) == Events(one[..k] + one[k + 1..], two, hex)
  {
    SectionBlock(one, two, hex, k);
    EventsAppend(one[..k], one[k + 1..], two, hex);
  }

  /** A matched section that is not a Note and whose blob differs from that of the first
      same-named section of B is reported: a header, then the aligned hex lines. Nothing is
      assumed about the counterpart's type tag. */
  lemma SurvivorIsDiffed(s: Section, two: Image, hex: HexDump)
    requires s.name.Some? && FirstNamed(s.name.value, two).Some? && s.shType != Note
    requires Blob(s).Some? && Blob(two[FirstNamed(s.name.value, two).value]).Some?
    requires Blob(s) != Blob(two[FirstNamed(s.name.value, two).value])
    ensures SectionEvents(s, two, hex) ==
              [Differs(s.name.value)] +
              Alignment(hex(Blob(s).value), hex(Blob(two[FirstNamed(s.name.value, two).value]).value))
  {
  }

  /** An example of the type check ignoring B: two raw-blob sections named ".data", typed
      `ProgBits` in A and processor-specific in B, are diffed rather than reported. */
  lemma TypeCheckIgnoresCounterpart(hex: HexDump)
    ensures Events([Section(Some(".data"), ProgBits, Some(Undefined([0])))],
                   [Section(Some(".data"), ProcessorSpecific(1), Some(Undefined([1])))], hex)[0] == Differs(".data")
  {
    var one := [Section(Some(".data"), ProgBits, Some(Undefined([0])))];
    var two := [Section(Some(".data"), ProcessorSpecific(1), Some(Undefined([1])))];
    assert one[..0] == [];
    assert SectionWithName(".data", two) == Some(two[0]);
    assert Blob(one[0]) != Blob(two[0]);
  }

  /** Resolvable names are pairwise distinct within the image. */
  predicate UniqueNames(elf: Image) {
    forall i, j :: 0 <= i < j < |elf| && elf[i].name.Some? ==> elf[i].name != elf[j].name
  }

  /** Only "skipping Note" notices. */
  predicate OnlyNoteNotices(es: seq<Event>) {
    forall k :: 0 <= k < |es| ==> es[k].SkipNote?
  }

  /** Diffing an image with unique section names against itself prints no diff. */
  lemma SelfDiffIsSilent(elf: Image, hex: HexDump)
    requires UniqueNames(elf)
    ensures OnlyNoteNotices(Events(elf, elf, hex))
  {
    SelfDiffPrefixSilent(elf, hex, |elf|);
    assert elf[..|elf|] == elf;
  }

  lemma {:induction false} SelfDiffPrefixSilent(elf: Image, hex: HexDump, n: nat)
    requires UniqueNames(elf) && n <= |elf|
    ensures OnlyNoteNotices(Events(elf[..n], elf, hex))
  {
    if n > 0 {
      assert elf[..n][..n - 1] == elf[..n - 1];
      SelfDiffPrefixSilent(elf, hex, n - 1);
      var s := elf[n - 1];
      if s.name.Some? {
        var q := FirstNamed(s.name.value, elf);
        assert q == Some(n - 1) by {
          assert HasName(elf[n - 1], s.name.value);
        }
      }
    }
  }

  /** With a repeated name, a later section is compared with the first of that name,
      so diffing an image against itself can report a difference. */
  lemma DuplicateNamesBreakSelfDiff(hex: HexDump)
    ensures Differs(".text") in Events([Section(Some(".text"), ProgBits, Some(Undefined([0]))),
                                        Section(Some(".text"), ProgBits, Some(Undefined([1])))],
                                       [Section(Some(".text"), ProgBits, Some(Undefined([0]))),
                                        Section(Some(".text"), ProgBits, Some(Undefined([1])))], hex)
  {
    var elf := [Section(Some(".text"), ProgBits, Some(Undefined([0]))),
                Section(Some(".text"), ProgBits, Some(Undefined([1])))];
    assert elf[..1] == [elf[0]] && elf[..1][..0] == [];
    assert SectionWithName(".text", elf) == Some(elf[0]);
    assert Blob(elf[1]) != Blob(elf[0]);
    assert SectionEvents(elf[1], elf, hex)[0] == Differs(".text");
    assert Events(elf, elf, hex) == Events(elf[..1], elf, hex) + SectionEvents(elf[1], elf, hex);
  }
}
