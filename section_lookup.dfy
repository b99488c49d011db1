/** First-match lookup of a section by name in the second image. */
module SectionLookup {
  import opened ElfModel

  /** Position of the first section of `elf` whose name resolves and equals `name`. */
  function FirstNamed(name: string, elf: Image): (r: Option<nat>)
    ensures r.Some? ==> r.value < |elf| && HasName(elf[r.value], name)
    ensures r.Some? ==> forall j :: 0 <= j < r.value ==> !HasName(elf[j], name)
    ensures r.None? <==> forall j :: 0 <= j < |elf| ==> !HasName(elf[j], name)
    decreases |elf|
  {
    if |elf| == 0 then None
    else if HasName(elf[0], name) then Some(0)
    else
      match FirstNamed(name, elf[1..])
      case None => None
      case Some(i) => Some(i + 1)
  }

  /** The section `get_section_with_name` returns. */
  function SectionWithName(name: string, elf: Image): (r: Option<Section>)
    ensures r.None? <==> forall j :: 0 <= j < |elf| ==> !HasName(elf[j], name)
    ensures r.Some? ==> HasName(r.value, name) && r.value in elf
    ensures r.Some? ==> exists i :: 0 <= i < |elf| && r.value == elf[i] && HasName(elf[i], name)
                                    && forall j :: 0 <= j < i ==> !HasName(elf[j], name)
  {
    match FirstNamed(name, elf)
    case None => None
    case Some(i) => Some(elf[i])
  }

  /** The scan over the section table with its early return. */
  method GetSectionWithName(name: string, elf: Image) returns (r: Option<Section>)
    ensures r == SectionWithName(name, elf)
    ensures r.Some? ==> exists i :: 0 <= i < |elf| && r.value == elf[i] && HasName(elf[i], name)
                                    && forall j :: 0 <= j < i ==> !HasName(elf[j], name)
  {
    for i := 0 to |elf|
      invariant forall j :: 0 <= j < i ==> !HasName(elf[j], name)
    {
      var section := elf[i];
      if section.name.None? {
        continue;
      }
      var n := section.name.value;
      if name != n {
        continue;
      }
      return Some(section);
    }
    return None;
  }

  /** A section whose name does not resolve never affects the lookup. */
  lemma {:induction false} LookupSkipsUnnamed(name: string, elf: Image, k: nat)
    requires k < |elf| && elf[k].name.None?
    ensures SectionWithName(name, elf) == SectionWithName(name, elf[..k] + elf[k + 1..])
  {
    var rest := elf[..k] + elf[k + 1..];
    assert forall j :: 0 <= j < k ==> rest[j] == elf[j];
    assert forall j :: k <= j < |rest| ==> rest[j] == elf[j + 1];
    match FirstNamed(name, elf)
    case None =>
      assert forall j :: 0 <= j < |rest| ==> !HasName(rest[j], name);
    case Some(i) =>
      assert i != k;
      if i < k {
        assert FirstNamed(name, rest) == Some(i) by {
          var q := FirstNamed(name, rest);
          assert q.Some? && q.value <= i;
        }
      } else {
        assert HasName(rest[i - 1], name);
        assert FirstNamed(name, rest) == Some(i - 1) by {
          var q := FirstNamed(name, rest);
          assert q.Some?;
        }
      }
  }
}
