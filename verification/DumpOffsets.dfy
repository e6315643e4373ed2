/** The file offsets in a dumped executable: moved references, disjoint extents, and room for the header. */
module DumpOffsets {
  import opened Bytes
  import opened Regions
  import opened MachO
  import opened DumpSpec
  import opened DumpWrites
  import opened DumpRun
  import opened DumpRest
  import opened DumpTheorems

  // ---- References ----

  /** What a load command refers to by file offset. */
  datatype Table = SymbolTable | StringTable | IndirectSymbols | ExternalRelocs | LocalRelocs | HintTable
                 | SectionContents(j: nat)

  /** Where a command says that a table lies, if it has such a table. */
  function TableOffset(c: Command, t: Table): Option<u32> {
    match t
    case SymbolTable => if c.LcSymtab? then Some(c.symoff) else None
    case StringTable => if c.LcSymtab? then Some(c.stroff) else None
    case IndirectSymbols => if c.LcDysymtab? && c.nindirectsyms > 0 then Some(c.indirectsymoff) else None
    case ExternalRelocs => if c.LcDysymtab? && c.nextrel > 0 then Some(c.extreloff) else None
    case LocalRelocs => if c.LcDysymtab? && c.nlocrel > 0 then Some(c.locreloff) else None
    case HintTable => if c.LcHints? && c.nhints > 0 then Some(c.offset) else None
    case SectionContents(j) => if c.LcSegment? && j < |c.seg.sections| then Some(c.seg.sections[j].offset) else None
  }

  /** Every table of a command moves. */
  lemma TableShifts(c: Command, t: Table, delta: u32)
    ensures TableOffset(ShiftCommand(c, delta), t)
         == if TableOffset(c, t).Some? then Some(Add32(TableOffset(c, t).value, delta)) else None
  {
  }

  /** Where the output's command says that the table of input command i lies. */
  function MovedTable(inp: Input, d: nat, i: nat, t: Table): Option<u32>
    requires WellFormed(inp, d) && i < |inp.cmds|
  {
    CommandPlaced(inp, d, i);
    TableOffset(AllCommands(inp, d)[Position(inp, d, i)], t)
  }

  /** Where the output has the contents that the input has at offset k of command j. */
  function MovedTo(inp: Input, d: nat, j: nat, k: nat): nat
    requires WellFormed(inp, d)
  {
    if j < d then k else k + Growth(inp, d)
  }

  lemma ContentsHeld(inp: Input, d: nat, j: nat, k: nat)
    requires Dumped(inp, d) && j < |inp.cmds| && j != d && InExtent(inp.cmds[j], k)
    requires j < d ==> DumpIt(inp).value.hdr <= k
    ensures k < |inp.file| && Holds(Output(inp), MovedTo(inp, d, j, k), inp.file[k])
  {
    if j < d {
      FrontHeld(inp, d, j, k);
    } else {
      MovedHeld(inp, d, j, k, k + Growth(inp, d));
    }
  }

  /** Contents and the tables that refer to them stay within 32-bit offsets. */
  lemma OffsetsFit(inp: Input, d: nat, j: nat, k: nat)
    requires WellFormed(inp, d) && j < |inp.cmds| && j != d && InExtent(inp.cmds[j], k)
    ensures k + Growth(inp, d) < TWO32
  {
    if j < d {
      assert PreOk(DataSeg(inp, d), inp.cmds[j]);
    } else {
      assert PostOk(DataSeg(inp, d), Growth(inp, d), inp.cmds[j]);
    }
  }

  lemma MovedTableOf(inp: Input, d: nat, i: nat, t: Table)
    requires WellFormed(inp, d) && i < |inp.cmds| && i != d
    ensures MovedTable(inp, d, i, t)
         == TableOffset(if i < d then inp.cmds[i] else ShiftCommand(inp.cmds[i], Growth(inp, d)), t)
  {
    CommandPlaced(inp, d, i);
  }

  /** A table moves with its command. */
  lemma TableMoves(inp: Input, d: nat, i: nat, t: Table)
    requires WellFormed(inp, d) && i < |inp.cmds| && i != d && TableOffset(inp.cmds[i], t).Some?
    requires TableOffset(inp.cmds[i], t).value + Growth(inp, d) < TWO32
    ensures MovedTable(inp, d, i, t) == Some(TableOffset(inp.cmds[i], t).value + if i < d then 0 else Growth(inp, d))
  {
    MovedTableOf(inp, d, i, t);
    TableShifts(inp.cmds[i], t, Growth(inp, d));
  }

  /**
   * Byte n of every table, if it lies in the contents of a segment other than the data's, is in the output;
   * and it is where the rewritten command says if and only if command and contents are on the same side of
   * the data segment, or nothing grew.
   */
  lemma ReferenceTrueIff(inp: Input, d: nat, i: nat, t: Table, j: nat, n: nat, k: nat)
    requires Dumped(inp, d) && i < |inp.cmds| && j < |inp.cmds| && i != d && j != d
    requires TableOffset(inp.cmds[i], t).Some? && k == TableOffset(inp.cmds[i], t).value + n
    requires InExtent(inp.cmds[j], k) && (j < d ==> DumpIt(inp).value.hdr <= k)
    ensures k < |inp.file| && Holds(Output(inp), MovedTo(inp, d, j, k), inp.file[k])
    ensures MovedTable(inp, d, i, t).Some?
    ensures MovedTable(inp, d, i, t).value + n == MovedTo(inp, d, j, k) <==> (d < i) == (d < j) || Growth(inp, d) == 0
  {
    ContentsHeld(inp, d, j, k);
    OffsetsFit(inp, d, j, k);
    TableMoves(inp, d, i, t);
  }

  /** So a command that stands on the contents' side still addresses their bytes. */
  lemma ReferencesStayTrue(inp: Input, d: nat, i: nat, t: Table, j: nat, n: nat, k: nat)
    requires Dumped(inp, d) && i < |inp.cmds| && j < |inp.cmds| && i != d && j != d && (d < i) == (d < j)
    requires TableOffset(inp.cmds[i], t).Some? && k == TableOffset(inp.cmds[i], t).value + n
    requires InExtent(inp.cmds[j], k) && (j < d ==> DumpIt(inp).value.hdr <= k)
    ensures MovedTable(inp, d, i, t).Some?
    ensures k < |inp.file| && Holds(Output(inp), MovedTable(inp, d, i, t).value + n, inp.file[k])
  {
    ReferenceTrueIff(inp, d, i, t, j, n, k);
  }

  // ---- Extents ----

  /** No offset lies in the file contents of two commands. */
  ghost predicate Apart(cs: seq<Command>) {
    forall i, j, k :: 0 <= i < j < |cs| && InExtent(cs[i], k) ==> !InExtent(cs[j], k)
  }

  lemma {:induction false} RegionsConsecutive(rs: seq<Range>, base: u32, i: nat, j: nat)
    requires base + SizeSum(rs) < TWO32 && i < j < |rs|
    ensures RegionOffset(rs, base, i) + rs[i].size <= RegionOffset(rs, base, j)
    decreases |rs|
  {
    if i == 0 {
      RegionPlaced(rs[1..], base + rs[0].size, j - 1);
    } else {
      RegionsConsecutive(rs[1..], base + rs[0].size, i - 1, j - 1);
    }
  }

  /** Whose contents offset k of the output is, as part of the input's or of the regions'. */
  predicate Within(inp: Input, d: nat, p: nat, k: nat)
    requires WellFormed(inp, d) && p < |inp.cmds| + |inp.regions|
  {
    match inp.cmds[d]
    case LcSegment(data) =>
      var base := RegionBase(inp, d);
      if p < d then k < data.fileoff && InExtent(inp.cmds[p], k)
      else if p == d then data.fileoff <= k < base
      else if p <= d + |inp.regions| then
        var r := p - d - 1;
        var at := RegionOffset(inp.regions, base, r);
        at <= k < at + inp.regions[r].size && base <= k < PostBase(inp, d)
      else PostBase(inp, d) <= k && Growth(inp, d) <= k && InExtent(inp.cmds[p - |inp.regions|], k - Growth(inp, d))
    case _ => false
  }

  lemma RegionWithin(inp: Input, d: nat, r: nat, k: nat)
    requires WellFormed(inp, d) && r < |inp.regions| && d + 1 + r < |AllCommands(inp, d)|
    requires InExtent(AllCommands(inp, d)[d + 1 + r], k)
    ensures Within(inp, d, d + 1 + r, k)
  {
    RegionCommandPlaced(inp, d, r);
  }

  lemma FrontWithin(inp: Input, d: nat, p: nat, k: nat)
    requires WellFormed(inp, d) && p <= d && p < |AllCommands(inp, d)| && InExtent(AllCommands(inp, d)[p], k)
    ensures Within(inp, d, p, k)
  {
    CommandPlaced(inp, d, p);
    if p < d {
      assert PreOk(DataSeg(inp, d), inp.cmds[p]);
    }
  }

  lemma MovedWithin(inp: Input, d: nat, i: nat, k: nat)
    requires WellFormed(inp, d) && d < i < |inp.cmds| && InExtent(ShiftCommand(inp.cmds[i], Growth(inp, d)), k)
    ensures InMoved(inp.cmds[i], Growth(inp, d), k) && PostBase(inp, d) <= k
  {
    assert PostOk(DataSeg(inp, d), Growth(inp, d), inp.cmds[i]);
    MovedAside(inp, d, i, k);
  }

  lemma MovedExtentWithin(inp: Input, d: nat, i: nat, k: nat)
    requires WellFormed(inp, d) && d < i < |inp.cmds| && Position(inp, d, i) < |AllCommands(inp, d)|
    requires InExtent(AllCommands(inp, d)[Position(inp, d, i)], k)
    ensures Within(inp, d, Position(inp, d, i), k)
  {
    CommandPlaced(inp, d, i);
    MovedWithin(inp, d, i, k);
  }

  lemma WithinOfMoved(inp: Input, d: nat, p: nat, k: nat)
    requires WellFormed(inp, d) && d + |inp.regions| < p < |inp.cmds| + |inp.regions| && p < |AllCommands(inp, d)|
    requires InExtent(AllCommands(inp, d)[p], k)
    ensures Within(inp, d, p, k)
  {
    MovedExtentWithin(inp, d, p - |inp.regions|, k);
  }

  lemma WithinOfRegion(inp: Input, d: nat, p: nat, k: nat)
    requires WellFormed(inp, d) && d < p <= d + |inp.regions| && p < |AllCommands(inp, d)|
    requires InExtent(AllCommands(inp, d)[p], k)
    ensures Within(inp, d, p, k)
  {
    RegionWithin(inp, d, p - d - 1, k);
  }

  lemma ExtentWithin(inp: Input, d: nat, p: nat, k: nat)
    requires WellFormed(inp, d) && p < |AllCommands(inp, d)| && InExtent(AllCommands(inp, d)[p], k)
    ensures p < |inp.cmds| + |inp.regions| && Within(inp, d, p, k)
  {
    CommandCount(inp, d);
    if p <= d {
      FrontWithin(inp, d, p, k);
    } else if p <= d + |inp.regions| {
      WithinOfRegion(inp, d, p, k);
    } else {
      WithinOfMoved(inp, d, p, k);
    }
  }

  lemma WithinApart(inp: Input, d: nat, p: nat, q: nat, k: nat)
    requires WellFormed(inp, d) && Apart(inp.cmds) && p < q < |inp.cmds| + |inp.regions|
    requires Within(inp, d, p, k)
    ensures !Within(inp, d, q, k)
  {
    if d < p && q <= d + |inp.regions| {
      RegionsConsecutive(inp.regions, RegionBase(inp, d), p - d - 1, q - d - 1);
    }
  }

  /** The file contents of the output's segments do not overlap if the input's do not. */
  lemma OutputExtentsApart(inp: Input, d: nat)
    requires WellFormed(inp, d) && Apart(inp.cmds)
    ensures Apart(AllCommands(inp, d))
  {
    var cs := AllCommands(inp, d);
    forall p, q, k | 0 <= p < q < |cs| && InExtent(cs[p], k)
      ensures !InExtent(cs[q], k)
    {
      ExtentWithin(inp, d, p, k);
      if InExtent(cs[q], k) {
        ExtentWithin(inp, d, q, k);
        WithinApart(inp, d, p, q, k);
      }
    }
  }

  // ---- Room for the header ----

  predicate IsText(c: Command) {
    c.LcSegment? && c.seg.name == SegText
  }

  /** A header of h octets ends in front of every section of every text segment. */
  ghost predicate RoomFor(cs: seq<Command>, h: nat) {
    forall i, j :: 0 <= i < |cs| && IsText(cs[i]) && 0 <= j < |cs[i].seg.sections| ==> h <= cs[i].seg.sections[j].offset
  }

  /** Each text section lies behind the first one of some text segment, or beyond the largest header. */
  ghost predicate FirstSectionsLowest(cs: seq<Command>) {
    forall i, j :: 0 <= i < |cs| && IsText(cs[i]) && 0 <= j < |cs[i].seg.sections| ==>
      NO_TEXT_OFFSET <= cs[i].seg.sections[j].offset || FirstBelow(cs, cs[i].seg.sections[j].offset)
  }

  /** Some text segment's first section has at most this offset. */
  predicate FirstBelow(cs: seq<Command>, o: u32) {
    cs != []
    && (FirstBelow(cs[..|cs| - 1], o)
        || var c := cs[|cs| - 1]; IsText(c) && c.seg.sections != [] && c.seg.sections[0].offset <= o)
  }

  lemma {:induction false} TextLowIsFirst(cs: seq<Command>, o: u32)
    ensures TextLow(cs) <= o <==> NO_TEXT_OFFSET <= o || FirstBelow(cs, o)
    decreases |cs|
  {
    if cs != [] {
      TextLowIsFirst(cs[..|cs| - 1], o);
    }
  }

  /**
   * The check for room lets only such headers pass as leave every text section alone if and only if the
   * first sections lie lowest: the loop that looks for the lowest offset never gets to the others.
   */
  lemma RoomCheckIff(cs: seq<Command>)
    ensures (forall h: nat :: h <= TextLow(cs) ==> RoomFor(cs, h)) <==> FirstSectionsLowest(cs)
  {
    if forall h: nat :: h <= TextLow(cs) ==> RoomFor(cs, h) {
      assert RoomFor(cs, TextLow(cs));
      forall i, j | 0 <= i < |cs| && IsText(cs[i]) && 0 <= j < |cs[i].seg.sections|
        ensures NO_TEXT_OFFSET <= cs[i].seg.sections[j].offset || FirstBelow(cs, cs[i].seg.sections[j].offset)
      {
        TextLowIsFirst(cs, cs[i].seg.sections[j].offset);
      }
    }
    if FirstSectionsLowest(cs) {
      forall i, j | 0 <= i < |cs| && IsText(cs[i]) && 0 <= j < |cs[i].seg.sections|
        ensures TextLow(cs) <= cs[i].seg.sections[j].offset
      {
        TextLowIsFirst(cs, cs[i].seg.sections[j].offset);
      }
    }
  }

  /** Then the contents of text sections are in the output as they were. */
  lemma TextSectionsSurvive(inp: Input, d: nat, i: nat, j: nat, k: nat)
    requires Dumped(inp, d) && FirstSectionsLowest(inp.cmds)
    requires i < d && IsText(inp.cmds[i]) && j < |inp.cmds[i].seg.sections|
    requires inp.cmds[i].seg.sections[j].offset <= k && InExtent(inp.cmds[i], k)
    ensures k < |inp.file| && Holds(Output(inp), k, inp.file[k])
  {
    RoomCheckIff(inp.cmds);
    assert RoomFor(inp.cmds, DumpIt(inp).value.hdr);
    FrontHeld(inp, d, i, k);
  }

  /** What the output has at an offset of a text segment in front of the data: the new header up to its end. */
  lemma TextByte(inp: Input, d: nat, i: nat, k: nat)
    requires Dumped(inp, d) && i < d && IsText(inp.cmds[i]) && InExtent(inp.cmds[i], k) && MACH_HDR <= k
    ensures var header := CommandsBytes(inp.codec, AllCommands(inp, d));
      if k < DumpIt(inp).value.hdr then k - MACH_HDR < |header| && Holds(Output(inp), k, header[k - MACH_HDR])
      else k < |inp.file| && Holds(Output(inp), k, inp.file[k])
  {
    if k < DumpIt(inp).value.hdr {
      FinalState(inp, d);
      HeaderByte(inp, d, k);
    } else {
      FrontHeld(inp, d, i, k);
    }
  }

  predicate InHeader(inp: Input, k: nat)
    requires DumpIt(inp).Some?
  {
    k < DumpIt(inp).value.hdr
  }

  /** A section that the header of a dump does not run over. */
  ghost predicate ClearOfHeader(inp: Input, sec: Section)
    requires DumpIt(inp).Some?
  {
    forall k: nat :: sec.offset <= k < sec.offset + sec.size ==> !InHeader(inp, k)
  }

  /** In each dump, a section is clear of the header if and only if the header ends in front of it. */
  lemma SectionClearIff(inp: Input, sec: Section)
    requires DumpIt(inp).Some? && 0 < sec.size
    ensures ClearOfHeader(inp, sec) <==> DumpIt(inp).value.hdr <= sec.offset
  {
    if ClearOfHeader(inp, sec) {
      assert !InHeader(inp, sec.offset);
    }
  }

  /** A text section that is clear of the header is in the output as it was. */
  lemma ClearSectionSurvives(inp: Input, d: nat, i: nat, sec: Section, k: nat)
    requires Dumped(inp, d) && i < d && IsText(inp.cmds[i]) && sec in inp.cmds[i].seg.sections
    requires ClearOfHeader(inp, sec) && sec.offset <= k < sec.offset + sec.size && InExtent(inp.cmds[i], k)
    ensures k < |inp.file| && Holds(Output(inp), k, inp.file[k])
  {
    assert !InHeader(inp, k);
    FrontHeld(inp, d, i, k);
  }
}
