/**
 * What the output's load commands say, field by field, and that it is true of the output: of the data
 * segment's sections, of the regions and of undone relocations.
 */
module DumpFields {
  import opened Bytes
  import opened Regions
  import opened MachO
  import opened DumpSpec
  import opened DumpWrites
  import opened DumpRun
  import opened DumpRest
  import opened DumpTheorems
  import opened DumpSuccess

  // ---- Undone relocations ----

  function TwoToThe(n: nat): nat {
    if n == 0 then 1 else 2 * TwoToThe(n - 1)
  }

  /**
   * The entry is of 2^length octets in the segment, and k is one of their file offsets.  A segment that does
   * not end below 2^32 has no such entries, as its end is computed in 32 bits.
   */
  predicate InWord(seg: Segment, r: Reloc, k: nat) {
    match r
    case Vanilla(a, length) =>
      && seg.vmaddr <= a < seg.vmaddr + seg.vmsize < TWO32
      && seg.fileoff + (a - seg.vmaddr) <= k < seg.fileoff + (a - seg.vmaddr) + TwoToThe(length)
    case _ => false
  }

  lemma TouchesIff(seg: Segment, r: Reloc, k: nat)
    ensures RelocTouches(seg, r, k) <==> InWord(seg, r, k)
  {
    assert TwoToThe(0) == 1 && TwoToThe(1) == 2 && TwoToThe(2) == 4 && TwoToThe(3) == 8;
  }

  lemma {:induction false} UndoneIff(seg: Segment, rs: seq<Reloc>, k: nat)
    ensures Undone(seg, rs, k) <==> exists r :: r in rs && InWord(seg, r, k)
    decreases |rs|
  {
    if rs != [] {
      TouchesIff(seg, rs[0], k);
      UndoneIff(seg, rs[1..], k);
      assert forall r :: r in rs <==> r == rs[0] || r in rs[1..];
    }
  }

  /** A local or external relocation entry of the command covers offset k. */
  ghost predicate Names(seg: Segment, c: Command, k: nat) {
    match c
    case LcDysymtab(_, _, _, _, _, _, _, local, external) =>
      exists r :: (r in local || r in external) && InWord(seg, r, k)
    case _ => false
  }

  lemma NamesIff(seg: Segment, c: Command, k: nat)
    ensures CommandUndoes(seg, c, k) <==> Names(seg, c, k)
  {
    if c.LcDysymtab? {
      UndoneIff(seg, c.local + c.external, k);
    }
  }

  lemma {:induction false} UndoneByIff(seg: Segment, cs: seq<Command>, k: nat)
    ensures UndoneBy(seg, cs, k) <==> exists i :: 0 <= i < |cs| && Names(seg, cs[i], k)
    decreases |cs|
  {
    if cs != [] {
      var last := |cs| - 1;
      NamesIff(seg, cs[last], k);
      UndoneByIff(seg, cs[..last], k);
    }
  }

  /** A command behind the data segment names a relocation at offset k. */
  ghost predicate Relocated(inp: Input, d: nat, k: nat)
    requires d < |inp.cmds| && inp.cmds[d].LcSegment?
  {
    exists i :: d < i < |inp.cmds| && Names(DataSeg(inp, d), inp.cmds[i], k)
  }

  /** Placing a segment changes neither its addresses nor where it starts in the file. */
  lemma PlacedNames(seg: Segment, c: Command, k: nat)
    ensures Names(PlaceData(seg), c, k) == Names(seg, c, k)
  {
    assert forall r :: InWord(PlaceData(seg), r, k) == InWord(seg, r, k);
  }

  lemma RestoredIff(inp: Input, d: nat, k: nat)
    requires d < |inp.cmds| && inp.cmds[d].LcSegment?
    ensures Restored(inp, d, k) <==> Relocated(inp, d, k)
  {
    var cs := inp.cmds[d + 1..|inp.cmds|];
    UndoneByIff(Placed(inp, d).seg, cs, k);
    if i :| 0 <= i < |cs| && Names(Placed(inp, d).seg, cs[i], k) {
      PlacedNames(DataSeg(inp, d), cs[i], k);
      assert Names(DataSeg(inp, d), inp.cmds[d + 1 + i], k);
    }
    if i :| d < i < |inp.cmds| && Names(DataSeg(inp, d), inp.cmds[i], k) {
      PlacedNames(DataSeg(inp, d), inp.cmds[i], k);
      assert cs[i - d - 1] == inp.cmds[i];
    }
  }

  lemma RestoredInside(inp: Input, d: nat, k: nat)
    requires WellFormed(inp, d) && Restored(inp, d, k)
    ensures DataSeg(inp, d).fileoff <= k < RegionBase(inp, d)
  {
    RestoredIff(inp, d, k);
    var i :| d < i < |inp.cmds| && Names(DataSeg(inp, d), inp.cmds[i], k);
    assert PostOk(DataSeg(inp, d), Growth(inp, d), inp.cmds[i]);
    NamesIff(Placed(inp, d).seg, inp.cmds[i], k);
    PlacedNames(DataSeg(inp, d), inp.cmds[i], k);
    UndoneInside(Placed(inp, d).seg, inp.cmds[i].local + inp.cmds[i].external, k);
  }

  /** Of every relocation entry, the output holds the input's octets, all of them. */
  lemma RelocationHeld(inp: Input, d: nat, i: nat, r: Reloc, k: nat)
    requires Dumped(inp, d) && d < i < |inp.cmds| && inp.cmds[i].LcDysymtab?
    requires (r in inp.cmds[i].local || r in inp.cmds[i].external) && InWord(DataSeg(inp, d), r, k)
    ensures k < |inp.file| && Holds(Output(inp), k, inp.file[k])
  {
    assert Names(DataSeg(inp, d), inp.cmds[i], k);
    RestoredIff(inp, d, k);
    RestoredInside(inp, d, k);
    FinalState(inp, d);
    BodyByte(inp, d, k);
    OutputHolds(inp, k, inp.file[k]);
  }

  // ---- The data segment ----

  /** The output's data segment has file contents for all of its memory, and is otherwise the input's. */
  lemma DataSegmentFields(inp: Input, d: nat, was: Segment, now: Segment)
    requires WellFormed(inp, d) && was == inp.cmds[d].seg
    requires d < |AllCommands(inp, d)| && AllCommands(inp, d)[d] == LcSegment(now)
    ensures now.name == SegData && now.vmaddr == was.vmaddr && now.vmsize == was.vmsize && now.fileoff == was.fileoff
    ensures now.filesize == was.vmsize && now.maxprot == was.maxprot && now.initprot == was.initprot
    ensures now.flags == was.flags && |now.sections| == |was.sections|
  {
    CommandPlaced(inp, d, d);
  }

  /** Each section says where its contents are; bss and common have become regular. */
  predicate SectionSays(seg: Segment, was: Section, now: Section) {
    && now.offset == seg.fileoff + (was.addr - seg.vmaddr)
    && now.flags == (match was.name case Bss => 0 case Common => 0 case _ => was.flags)
    && now.name == was.name && now.segname == was.segname && now.addr == was.addr && now.size == was.size
    && now.align == was.align && now.reloff == was.reloff && now.nreloc == was.nreloc
    && now.reserved1 == was.reserved1 && now.reserved2 == was.reserved2
  }

  lemma PlacedSays(seg: Segment, sec: Section)
    requires SectionInside(seg, sec) && seg.fileoff + seg.vmsize < TWO32
    ensures SectionSays(seg, sec, PlaceSection(seg, sec))
  {
    SectionPlaced(seg, sec);
  }

  lemma DataSectionFields(inp: Input, d: nat, was: Segment, now: Segment, j: nat)
    requires WellFormed(inp, d) && was == inp.cmds[d].seg
    requires d < |AllCommands(inp, d)| && AllCommands(inp, d)[d] == LcSegment(now)
    requires j < |was.sections|
    ensures now.fileoff == was.fileoff && now.vmaddr == was.vmaddr
    ensures |now.sections| == |was.sections| && SectionSays(now, was.sections[j], now.sections[j])
  {
    CommandPlaced(inp, d, d);
    PlaceSectionsAt(was, was.sections, j);
    assert SectionInside(was, was.sections[j]);
    PlacedSays(was, was.sections[j]);
  }

  /** A section's byte i: memory's in data, bss and common, the input's in the sections that are copied. */
  ghost predicate IsSectionByte(inp: Input, sec: Section, i: nat, b: byte) {
    match sec.name
    case Data => b == inp.mem(sec.addr + i)
    case Bss => b == inp.mem(sec.addr + i)
    case Common => b == inp.mem(sec.addr + i)
    case OtherSect(_) => false
    case _ => sec.offset + i < |inp.file| && b == inp.file[sec.offset + i]
  }

  lemma SectionByteIs(inp: Input, sec: Section, i: nat, b: byte)
    requires CanBeDumped(sec.name)
    ensures IsSectionByte(inp, sec, i, b) <==> SectionByte(inp, sec, i) == Some(b)
  {
  }

  /** The dumper knows the section. */
  predicate CanBeDumped(name: SectName) {
    !name.OtherSect?
  }

  lemma {:induction false} SectionsKnown(inp: Input, at: nat, seg: Segment, ss: seq<Section>, j: nat)
    requires SectionWrites(inp, at, seg, ss).Some? && j < |ss|
    ensures CanBeDumped(ss[j].name)
    decreases |ss|
  {
    if j > 0 {
      SectionsKnown(inp, at + SECT_HDR, seg, ss[1..], j - 1);
    }
  }

  lemma DumpedSectionsKnown(inp: Input, d: nat, j: nat)
    requires Dumped(inp, d) && j < |DataSeg(inp, d).sections|
    ensures CanBeDumped(DataSeg(inp, d).sections[j].name)
  {
    DataState(inp, d);
    SectionsKnown(inp, At(inp, d).value.hdr + SEG_HDR, DataSeg(inp, d), DataSeg(inp, d).sections, j);
  }

  /**
   * Where the rewritten section header says, the output holds the section: memory's bytes or the input's,
   * but the input's original where a relocation was undone.
   */
  lemma DataSectionHeld(inp: Input, d: nat, was: Segment, now: Segment, j: nat, i: nat, k: nat) returns (b: byte)
    requires Dumped(inp, d) && was == inp.cmds[d].seg
    requires d < |AllCommands(inp, d)| && AllCommands(inp, d)[d] == LcSegment(now) && |now.sections| == |was.sections|
    requires j < |was.sections| && i < was.sections[j].size && k == now.sections[j].offset + i
    ensures Holds(Output(inp), k, b)
    ensures if Relocated(inp, d, k) then k < |inp.file| && b == inp.file[k]
            else IsSectionByte(inp, was.sections[j], i, b)
  {
    var sec := was.sections[j];
    DataSectionFields(inp, d, was, now, j);
    HeldWhere(inp, d, j, sec, i, k);
    RestoredIff(inp, d, k);
    DumpedSectionsKnown(inp, d, j);
    b := DumpedByte(inp, d, sec, i, k).value;
    SectionByteIs(inp, sec, i, b);
  }

  lemma HeldWhere(inp: Input, d: nat, j: nat, sec: Section, i: nat, k: nat)
    requires Dumped(inp, d) && j < |DataSeg(inp, d).sections| && sec == DataSeg(inp, d).sections[j] && i < sec.size
    requires k == DataSeg(inp, d).fileoff + (sec.addr - DataSeg(inp, d).vmaddr) + i
    ensures HoldsSome(Output(inp), k, DumpedByte(inp, d, sec, i, k))
  {
    assert SectionInside(DataSeg(inp, d), sec);
    SectionPlaced(DataSeg(inp, d), sec);
    SectionHeld(inp, d, j, sec, i, k);
  }

  // ---- Regions ----

  lemma {:induction false} RegionOffsetIsSum(rs: seq<Range>, base: nat, j: nat)
    requires j <= |rs|
    ensures RegionOffset(rs, base, j) == base + SizeSum(rs[..j])
    decreases |rs|
  {
    if j > 0 {
      assert rs[..j][1..] == rs[1..][..j - 1];
      RegionOffsetIsSum(rs[1..], base + rs[0].size, j - 1);
    }
  }

  /** The j-th region's segment: a writable data segment without sections, whole, behind the ones before it. */
  lemma RegionFields(inp: Input, d: nat, j: nat, now: Segment)
    requires WellFormed(inp, d) && j < |inp.regions|
    requires d + 1 + j < |AllCommands(inp, d)| && AllCommands(inp, d)[d + 1 + j] == LcSegment(now)
    ensures now.name == SegData && now.vmaddr == inp.regions[j].address && now.vmsize == inp.regions[j].size
    ensures now.filesize == inp.regions[j].size && now.sections == [] && now.flags == 0
    ensures now.maxprot == 3 && now.initprot == 3
    ensures now.fileoff == DataSeg(inp, d).fileoff + DataSeg(inp, d).vmsize + SizeSum(inp.regions[..j])
  {
    RegionCommandPlaced(inp, d, j);
    RegionOffsetIsSum(inp.regions, RegionBase(inp, d), j);
  }

  // ---- The other commands ----

  /** One section of a segment that moved by g: only its file offset has changed, modulo 2^32. */
  predicate SectionMoved(was: Section, now: Section, g: nat) {
    now == was.(offset := now.offset) && now.offset == (was.offset + g) % TWO32
  }

  predicate SegmentMoved(was: Segment, now: Segment, g: nat) {
    && now == was.(fileoff := now.fileoff, sections := now.sections) && now.fileoff == (was.fileoff + g) % TWO32
    && |now.sections| == |was.sections|
    && forall j :: 0 <= j < |was.sections| ==> SectionMoved(was.sections[j], now.sections[j], g)
  }

  /** The offset of a table of n entries: of an empty one it stays. */
  predicate TableMoved(was: u32, n: u32, now: u32, g: nat) {
    now == if n == 0 then was else (was + g) % TWO32
  }

  /** The file offsets in a command have moved by g, and nothing else in it has changed. */
  predicate CommandMoved(was: Command, now: Command, g: nat) {
    match was
    case LcSegment(seg) => now.LcSegment? && SegmentMoved(seg, now.seg, g)
    case LcSymtab(symoff, nsyms, stroff, strsize) =>
      now == LcSymtab((symoff + g) % TWO32, nsyms, (stroff + g) % TWO32, strsize)
    case LcDysymtab(rest, indirectsymoff, nindirectsyms, extreloff, nextrel, locreloff, nlocrel, local, external) =>
      && now.LcDysymtab?
      && now == was.(indirectsymoff := now.indirectsymoff, extreloff := now.extreloff, locreloff := now.locreloff)
      && TableMoved(indirectsymoff, nindirectsyms, now.indirectsymoff, g)
      && TableMoved(extreloff, nextrel, now.extreloff, g) && TableMoved(locreloff, nlocrel, now.locreloff, g)
    case LcHints(offset, nhints) => now.LcHints? && now.nhints == nhints && TableMoved(offset, nhints, now.offset, g)
    case LcOther(_) => now == was
  }

  lemma AddWraps(a: u32, b: u32)
    ensures Add32(a, b) == (a + b) % TWO32
  {
  }

  lemma SectionsMove(ss: seq<Section>, g: u32)
    ensures forall j :: 0 <= j < |ss| ==> SectionMoved(ss[j], ShiftSections(ss, g)[j], g)
  {
    forall j | 0 <= j < |ss| ensures SectionMoved(ss[j], ShiftSections(ss, g)[j], g) {
      AddWraps(ss[j].offset, g);
    }
  }

  lemma ShiftMoves(c: Command, g: u32)
    ensures CommandMoved(c, ShiftCommand(c, g), g)
  {
    match c
    case LcSegment(seg) => AddWraps(seg.fileoff, g); SectionsMove(seg.sections, g);
    case LcSymtab(symoff, _, stroff, _) => AddWraps(symoff, g); AddWraps(stroff, g);
    case LcDysymtab(_, indirectsymoff, _, extreloff, _, locreloff, _, _, _) =>
      AddWraps(indirectsymoff, g); AddWraps(extreloff, g); AddWraps(locreloff, g);
    case LcHints(offset, _) => AddWraps(offset, g);
    case LcOther(_) =>
  }

  /**
   * Every other command: unchanged in front of the data segment; behind it, and behind the regions' commands,
   * moved by what the data segment grew and the regions take up.
   */
  lemma OtherCommandFields(inp: Input, d: nat, i: nat, was: Command, at: nat, g: nat)
    requires WellFormed(inp, d) && i < |inp.cmds| && i != d && was == inp.cmds[i]
    requires at == (if i < d then i else i + |inp.regions|)
    requires g == DataSeg(inp, d).vmsize - DataSeg(inp, d).filesize + SizeSum(inp.regions)
    ensures at < |AllCommands(inp, d)|
    ensures i < d ==> AllCommands(inp, d)[at] == was
    ensures d < i ==> CommandMoved(was, AllCommands(inp, d)[at], g)
  {
    CommandPlaced(inp, d, i);
    if d < i {
      ShiftMoves(was, g);
    }
  }

  // ---- The octets of the header ----

  /** The size of a command: 56 octets and 68 a section for a segment. */
  function SizeOf(codec: Codec, c: Command): nat {
    match c
    case LcSegment(seg) => 56 + 68 * |seg.sections|
    case _ => |codec.other(c)|
  }

  function SizeOfAll(codec: Codec, cs: seq<Command>): nat {
    if cs == [] then 0 else SizeOfAll(codec, cs[..|cs| - 1]) + SizeOf(codec, cs[|cs| - 1])
  }

  lemma {:induction false} SectionsBytesAt(codec: Codec, ss: seq<Section>, j: nat, k: nat)
    requires j < |ss| && k < 68
    ensures 68 * j + k < |SectionsBytes(codec, ss)| && SectionsBytes(codec, ss)[68 * j + k] == codec.section(ss[j])[k]
    decreases |ss|
  {
    if j > 0 {
      SectionsBytesAt(codec, ss[1..], j - 1, k);
    }
  }

  lemma {:induction false} SizesAgree(codec: Codec, cs: seq<Command>)
    ensures |CommandsBytes(codec, cs)| == SizeOfAll(codec, cs)
    decreases |cs|
  {
    if cs != [] {
      SizesAgree(codec, cs[..|cs| - 1]);
    }
  }

  lemma {:induction false} CommandsBytesAt(codec: Codec, cs: seq<Command>, p: nat, k: nat)
    requires p < |cs| && k < SizeOf(codec, cs[p])
    ensures SizeOfAll(codec, cs[..p]) + k < |CommandsBytes(codec, cs)|
    ensures k < |CommandBytes(codec, cs[p])|
    ensures CommandsBytes(codec, cs)[SizeOfAll(codec, cs[..p]) + k] == CommandBytes(codec, cs[p])[k]
    decreases |cs|
  {
    var front, last := cs[..|cs| - 1], cs[|cs| - 1];
    if p < |cs| - 1 {
      assert front[..p] == cs[..p];
      CommandsBytesAt(codec, front, p, k);
    } else {
      SizesAgree(codec, front);
      assert |CommandBytes(codec, last)| == SizeOf(codec, last);
    }
  }

  /** Octet k of a command: the structure's own, or octet k' of the header of section j. */
  predicate IsOctet(codec: Codec, c: Command, k: nat, b: byte) {
    match c
    case LcSegment(seg) =>
      && (k < 56 ==> b == codec.segment(seg)[k])
      && forall j, m :: 0 <= j < |seg.sections| && 0 <= m < 68 && k == 56 + 68 * j + m ==>
           b == codec.section(seg.sections[j])[m]
    case _ => k < |codec.other(c)| && b == codec.other(c)[k]
  }

  lemma CommandOctet(codec: Codec, c: Command, k: nat)
    requires k < SizeOf(codec, c)
    ensures k < |CommandBytes(codec, c)| && IsOctet(codec, c, k, CommandBytes(codec, c)[k])
  {
    if c.LcSegment? {
      forall j, m | 0 <= j < |c.seg.sections| && 0 <= m < 68 && k == 56 + 68 * j + m
        ensures CommandBytes(codec, c)[k] == codec.section(c.seg.sections[j])[m]
      {
        SectionsBytesAt(codec, c.seg.sections, j, m);
      }
    }
  }

  /** Command p of the output starts 28 octets and the sizes of the commands in front of it from the start. */
  lemma HeaderOctets(inp: Input, d: nat, p: nat, k: nat, at: nat) returns (b: byte)
    requires Dumped(inp, d) && p < |AllCommands(inp, d)| && k < SizeOf(inp.codec, AllCommands(inp, d)[p])
    requires at == 28 + SizeOfAll(inp.codec, AllCommands(inp, d)[..p]) + k
    ensures Holds(Output(inp), at, b) && IsOctet(inp.codec, AllCommands(inp, d)[p], k, b)
  {
    var cs := AllCommands(inp, d);
    HeaderRebuilt(inp, d);
    CommandsBytesAt(inp.codec, cs, p, k);
    CommandOctet(inp.codec, cs[p], k);
    b := CommandBytes(inp.codec, cs[p])[k];
  }

  // ---- When a dump succeeds ----

  /** A run of octets is in the input. */
  predicate Present(inp: Input, from: nat, n: nat) {
    n == 0 || from + n <= |inp.file|
  }

  /** A relocation entry behind the data segment's command: undone below 0x80000000, where the input has it. */
  predicate EntryReady(inp: Input, seg: Segment, r: Reloc) {
    match r
    case Unhandled => false
    case PreboundLazy => true
    case Vanilla(a, n) =>
      seg.vmaddr <= a < seg.vmaddr + seg.vmsize < TWO32 ==>
        a < 0x8000_0000 && Present(inp, seg.fileoff + (a - seg.vmaddr), TwoToThe(n))
  }

  predicate SectionReady(inp: Input, sec: Section) {
    match sec.name
    case OtherSect(_) => false
    case Data => true
    case Bss => true
    case Common => true
    case _ => Present(inp, sec.offset, sec.size)
  }

  /** Command i: in front of the data segment's only prebound entries are let pass. */
  ghost predicate CommandReady(inp: Input, d: nat, i: nat)
    requires d < |inp.cmds| && inp.cmds[d].LcSegment? && i < |inp.cmds|
  {
    match inp.cmds[i]
    case LcSegment(seg) => i == d || Present(inp, seg.fileoff, seg.filesize)
    case LcDysymtab(_, _, _, _, _, _, _, local, external) =>
      forall r :: r in local || r in external ==>
        if i < d then r.PreboundLazy? else EntryReady(inp, DataSeg(inp, d), r)
    case _ => true
  }

  /** Nothing that the dump copies is missing, and it knows all sections and relocations. */
  ghost predicate Ready(inp: Input, d: nat)
    requires d < |inp.cmds| && inp.cmds[d].LcSegment?
  {
    && (forall i :: 0 <= i < |inp.cmds| ==> CommandReady(inp, d, i))
    && (forall j :: 0 <= j < |DataSeg(inp, d).sections| ==> SectionReady(inp, DataSeg(inp, d).sections[j]))
  }

  lemma EntryReadyIff(inp: Input, was: Segment, r: Reloc)
    requires was.fileoff + was.vmsize < TWO32
    ensures CanUndo(inp, Some(DataSegment(was.fileoff, PlaceData(was))), r) <==> EntryReady(inp, was, r)
  {
    assert TwoToThe(0) == 1 && TwoToThe(1) == 2 && TwoToThe(2) == 4 && TwoToThe(3) == 8;
    if r.Vanilla? && InSegment(PlaceData(was), r.address) {
      UndoneBelowMiddle(inp, PlaceData(was), r.address, r.length);
    }
  }

  lemma EntriesReadyIff(inp: Input, was: Segment, local: seq<Reloc>, external: seq<Reloc>)
    requires was.fileoff + was.vmsize < TWO32
    ensures CanUndoAll(inp, Some(DataSegment(was.fileoff, PlaceData(was))), local + external)
       <==> forall r :: r in local || r in external ==> EntryReady(inp, was, r)
  {
    var rs := local + external;
    var data := Some(DataSegment(was.fileoff, PlaceData(was)));
    forall r ensures CanUndo(inp, data, r) <==> EntryReady(inp, was, r) {
      EntryReadyIff(inp, was, r);
    }
    assert forall r :: r in rs <==> r in local || r in external;
    assert CanUndoAll(inp, data, rs) <==> forall r :: r in rs ==> CanUndo(inp, data, r);
  }

  lemma FrontEntriesReadyIff(inp: Input, local: seq<Reloc>, external: seq<Reloc>)
    ensures CanUndoAll(inp, None, local + external) <==> forall r :: r in local || r in external ==> r.PreboundLazy?
  {
    var rs := local + external;
    assert forall r :: r in rs <==> r in local || r in external;
    assert CanUndoAll(inp, None, rs) <==> forall r :: r in rs ==> CanUndo(inp, None, r);
  }

  lemma FrontReadyIff(inp: Input, d: nat, i: nat)
    requires WellFormed(inp, d) && i < d
    ensures CanCopy(inp, None, inp.cmds[i]) <==> CommandReady(inp, d, i)
  {
    if inp.cmds[i].LcDysymtab? {
      FrontEntriesReadyIff(inp, inp.cmds[i].local, inp.cmds[i].external);
    }
  }

  lemma RestReadyIff(inp: Input, d: nat, i: nat)
    requires WellFormed(inp, d) && d < i < |inp.cmds|
    ensures CanCopy(inp, PlacedData(inp, d), inp.cmds[i]) <==> CommandReady(inp, d, i)
  {
    if inp.cmds[i].LcDysymtab? {
      EntriesReadyIff(inp, DataSeg(inp, d), inp.cmds[i].local, inp.cmds[i].external);
    }
  }

  lemma {:induction false} CanCopyAllIff(inp: Input, data: Option<DataSegment>, cs: seq<Command>)
    ensures CanCopyAll(inp, data, cs) <==> forall i :: 0 <= i < |cs| ==> CanCopy(inp, data, cs[i])
    decreases |cs|
  {
    if cs != [] {
      CanCopyAllIff(inp, data, cs[..|cs| - 1]);
    }
  }

  lemma SectionsReadyIff(inp: Input, ss: seq<Section>)
    ensures CanDumpAll(inp, ss) <==> forall j :: 0 <= j < |ss| ==> SectionReady(inp, ss[j])
  {
    assert forall j :: 0 <= j < |ss| ==> (CanDump(inp, ss[j]) <==> SectionReady(inp, ss[j]));
  }

  lemma ReadyIff(inp: Input, d: nat)
    requires WellFormed(inp, d)
    ensures Complete(inp, d) <==> Ready(inp, d)
  {
    var front, rest := inp.cmds[..d], inp.cmds[d + 1..|inp.cmds|];
    CanCopyAllIff(inp, None, front);
    CanCopyAllIff(inp, PlacedData(inp, d), rest);
    SectionsReadyIff(inp, DataSeg(inp, d).sections);
    forall i | 0 <= i < d ensures CanCopy(inp, None, front[i]) <==> CommandReady(inp, d, i) {
      FrontReadyIff(inp, d, i);
    }
    forall i | d < i < |inp.cmds|
      ensures CanCopy(inp, PlacedData(inp, d), rest[i - d - 1]) <==> CommandReady(inp, d, i)
    {
      RestReadyIff(inp, d, i);
    }
    assert CommandReady(inp, d, d);
    assert forall i :: 0 <= i < |rest| ==> rest[i] == inp.cmds[d + 1 + i];
    if Complete(inp, d) {
      forall i | 0 <= i < |inp.cmds| ensures CommandReady(inp, d, i) {
        if i < d {
          assert CanCopy(inp, None, front[i]);
        } else if d < i {
          assert CanCopy(inp, PlacedData(inp, d), rest[i - d - 1]);
        }
      }
    }
    if Ready(inp, d) {
      forall i | 0 <= i < |rest| ensures CanCopy(inp, PlacedData(inp, d), rest[i]) {
        assert CommandReady(inp, d, d + 1 + i);
      }
    }
  }

  /** A header of h octets is let pass: no text segment's first section lies in front of its end, nor 2^28. */
  ghost predicate HasRoom(cs: seq<Command>, h: nat) {
    && h <= 0x1000_0000
    && forall i :: 0 <= i < |cs| ==> RoomInFront(cs[i], h)
  }

  predicate RoomInFront(c: Command, h: nat) {
    match c
    case LcSegment(seg) => seg.name == SegText && seg.sections != [] ==> h <= seg.sections[0].offset
    case _ => true
  }

  lemma {:induction false} RoomIff(cs: seq<Command>, h: nat)
    ensures h <= TextLow(cs) <==> HasRoom(cs, h)
    decreases |cs|
  {
    if cs != [] {
      var last := |cs| - 1;
      RoomIff(cs[..last], h);
      assert forall i :: 0 <= i < last ==> cs[..last][i] == cs[i];
      assert RoomInFront(cs[last], h) || !HasRoom(cs, h);
    }
  }

  /** The dump of a well-formed executable succeeds exactly if everything is there and the commands have room. */
  lemma SucceedsExactly(inp: Input, d: nat)
    requires WellFormed(inp, d)
    ensures DumpIt(inp).Some?
       <==> Ready(inp, d) && HasRoom(inp.cmds, 28 + SizeOfAll(inp.codec, AllCommands(inp, d)))
  {
    DumpSucceedsIff(inp, d);
    ReadyIff(inp, d);
    SizesAgree(inp.codec, AllCommands(inp, d));
    RoomIff(inp.cmds, 28 + SizeOfAll(inp.codec, AllCommands(inp, d)));
  }

  // ---- A second data segment ----

  lemma AdjustedStep(inp: Input, s: Dump, c: Command)
    requires s.delta != 0 && DumpCommand(inp, s, c).Some?
    ensures !IsData(c) && DumpCommand(inp, s, c).value.delta == s.delta
  {
  }

  predicate AdjustedAt(inp: Input, n: nat, delta: u32)
    requires n <= |inp.cmds|
  {
    match At(inp, n)
    case Some(s) => s.delta == delta
    case None => false
  }

  lemma AdjustedNext(inp: Input, n: nat, delta: u32)
    requires n < |inp.cmds| && delta != 0 && AdjustedAt(inp, n, delta) && At(inp, n + 1).Some?
    ensures AdjustedAt(inp, n + 1, delta) && !IsData(inp.cmds[n])
  {
    AdjustedStep(inp, At(inp, n).value, inp.cmds[n]);
  }

  lemma PassedBefore(inp: Input, n: nat)
    requires n < |inp.cmds| && At(inp, n + 1).Some?
    ensures At(inp, n).Some?
  {
    Passed(inp, n, n + 1);
  }

  lemma AllPassed(inp: Input, n: nat)
    requires n <= |inp.cmds| && DumpIt(inp).Some?
    ensures At(inp, n).Some?
  {
    Passed(inp, n, |inp.cmds|);
  }

  lemma AdjustedNextInRun(inp: Input, n: nat, delta: u32)
    requires n < |inp.cmds| && delta != 0 && AdjustedAt(inp, n, delta) && DumpIt(inp).Some?
    ensures AdjustedAt(inp, n + 1, delta) && !IsData(inp.cmds[n])
  {
    AllPassed(inp, n + 1);
    AdjustedNext(inp, n, delta);
  }

  /** While the adjustment is not zero, commands keep it, unless they are a data segment's: that one fails. */
  lemma {:induction false} AdjustedPasses(inp: Input, i: nat, n: nat, delta: u32)
    requires i <= n <= |inp.cmds| && delta != 0 && AdjustedAt(inp, i, delta) && DumpIt(inp).Some?
    ensures AdjustedAt(inp, n, delta)
    decreases n
  {
    if i < n {
      AdjustedPasses(inp, i, n - 1, delta);
      AdjustedNextInRun(inp, n - 1, delta);
    }
  }

  lemma AdjustmentOf(inp: Input, s: Dump, seg: Segment, r: Dump)
    requires CopyDataSegment(inp, s, seg) == Some(r)
    requires seg.filesize <= seg.vmsize && seg.vmsize + SizeSum(inp.regions) < TWO32
    ensures r.delta == seg.vmsize - seg.filesize + SizeSum(inp.regions)
  {
    var sections := SectionWrites(inp, s.hdr + SEG_HDR, seg, seg.sections).value;
    RegionsState(inp, WriteData(inp, s, seg, sections), Add32(seg.fileoff, seg.vmsize), inp.regions);
  }

  lemma AdjustedFirst(inp: Input, i: nat, delta: u32)
    requires i < |inp.cmds| && IsData(inp.cmds[i]) && At(inp, i + 1).Some?
    requires inp.cmds[i].seg.filesize <= inp.cmds[i].seg.vmsize
    requires inp.cmds[i].seg.vmsize + SizeSum(inp.regions) < TWO32
    requires delta == inp.cmds[i].seg.vmsize - inp.cmds[i].seg.filesize + SizeSum(inp.regions)
    ensures AdjustedAt(inp, i + 1, delta)
  {
    PassedBefore(inp, i);
    AdjustmentOf(inp, At(inp, i).value, inp.cmds[i].seg, At(inp, i + 1).value);
  }

  lemma NoneBehind(inp: Input, i: nat, j: nat, delta: u32)
    requires i < j < |inp.cmds| && DumpIt(inp).Some? && delta != 0 && AdjustedAt(inp, i + 1, delta)
    ensures !IsData(inp.cmds[j])
  {
    AdjustedPasses(inp, i + 1, j, delta);
    AdjustedNextInRun(inp, j, delta);
  }

  /** The dump of any executable with two data segments fails if the first of them grew or there are regions. */
  lemma SecondDataSegmentFails(inp: Input, i: nat, j: nat, delta: nat)
    requires i < j < |inp.cmds| && IsData(inp.cmds[i]) && IsData(inp.cmds[j])
    requires inp.cmds[i].seg.filesize <= inp.cmds[i].seg.vmsize
    requires inp.cmds[i].seg.vmsize + SizeSum(inp.regions) < TWO32
    requires 0 < delta == inp.cmds[i].seg.vmsize - inp.cmds[i].seg.filesize + SizeSum(inp.regions)
    ensures DumpIt(inp).None?
  {
    if DumpIt(inp).Some? {
      AllPassed(inp, i + 1);
      AdjustedFirst(inp, i, delta);
      NoneBehind(inp, i, j, delta);
    }
  }
}
