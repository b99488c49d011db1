/** Comparison of one matched pair of sections: the data gate of `diff_sections`
    and the positional alignment of hex lines of `diff_section_data`. */
module SectionDiff {
  import opened ElfModel

  /** The line paired with B's `i`-th line: A's `i`-th line, or the empty line
      once A has run out. */
  function LineOneAt(linesOne: seq<string>, i: nat): string {
    if i < |linesOne| then linesOne[i] else ""
  }

  /** Reference alignment: one line diff per line of B, in B's order. */
  function Alignment(linesOne: seq<string>, linesTwo: seq<string>): seq<Event> {
    seq(|linesTwo|, i requires 0 <= i < |linesTwo| => LineDiff(LineOneAt(linesOne, i), linesTwo[i]))
  }

  /** `diff_section_data`: walk A's lines while drawing from B's iterator, drop A's lines
      once B is exhausted, then pair every line left in B with the empty line. */
  method DiffSectionData(dataOne: seq<byte>, dataTwo: seq<byte>, hex: HexDump) returns (out: seq<Event>)
    ensures out == Alignment(hex(dataOne), hex(dataTwo))
    ensures |out| == |hex(dataTwo)|
    ensures forall i :: 0 <= i < |out| ==>
              out[i] == LineDiff(if i < |hex(dataOne)| then hex(dataOne)[i] else "", hex(dataTwo)[i])
  {
    var hexOne := hex(dataOne);
    var hexTwo := hex(dataTwo);
    var next := 0;  // position of the iterator over hexTwo
    out := [];
    for i := 0 to |hexOne|
      invariant next == if i < |hexTwo| then i else |hexTwo|
      invariant |out| == next
      invariant forall k :: 0 <= k < next ==> out[k] == LineDiff(hexOne[k], hexTwo[k])
    {
      if next == |hexTwo| {
        continue;
      }
      var l := hexTwo[next];
      next := next + 1;
      out := out + [LineDiff(hexOne[i], l)];
    }
    while next < |hexTwo|
      invariant |hexOne| <= next || next == |hexTwo|
      invariant |out| == next <= |hexTwo|
      invariant forall k :: 0 <= k < next ==> out[k] == LineDiff(LineOneAt(hexOne, k), hexTwo[k])
    {
      out := out + [LineDiff("", hexTwo[next])];
      next := next + 1;
    }
  }

  /** A's lines beyond B's line count never reach the output: replacing or extending
      them leaves the alignment unchanged. */
  lemma SurplusLinesUnseen(linesOne: seq<string>, surplus: seq<string>, linesTwo: seq<string>)
    requires |linesTwo| <= |linesOne|
    ensures Alignment(linesOne + surplus, linesTwo) == Alignment(linesOne[..|linesTwo|], linesTwo)
  {
    var l, r := Alignment(linesOne + surplus, linesTwo), Alignment(linesOne[..|linesTwo|], linesTwo);
    forall i | 0 <= i < |linesTwo| ensures l[i] == r[i] {
      assert (linesOne + surplus)[i] == linesOne[..|linesTwo|][i];
    }
  }

  /** The raw bytes of a section whose data extracts as an undecoded blob. */
  function Blob(s: Section): Option<seq<byte>> {
    if s.data.Some? && s.data.value.Undefined? then Some(s.data.value.bytes) else None
  }

  /** `diff_sections`: nothing unless both sides extract as raw blobs that differ; then a
      header for A's section followed by the aligned line diffs. */
  function DiffSections(one: Section, two: Section, hex: HexDump): (r: seq<Event>)
    requires one.name.Some?
    ensures r == [] <==> Blob(one).None? || Blob(two).None? || Blob(one) == Blob(two)
    ensures r != [] ==> r[0] == Differs(one.name.value)
    ensures r != [] ==> r[1..] == Alignment(hex(Blob(one).value), hex(Blob(two).value))
    ensures forall k :: 1 <= k < |r| ==> r[k].LineDiff?
  {
    match one.data
    case None => []
    case Some(dataOne) =>
      match two.data
      case None => []
      case Some(dataTwo) =>
        match dataOne
        case Undefined(a) =>
          (match dataTwo
           case Undefined(b) =>
             if a == b then [] else [Differs(one.name.value)] + Alignment(hex(a), hex(b))
           case _ => [])
        case _ => []
  }
}
