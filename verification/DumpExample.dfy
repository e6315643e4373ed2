/**
 * One small executable, with text that overlaps the header, data, bss and copied sections, relocations and
 * a string table in the text.  It meets the hypotheses of the dump's theorems, and shows where the dump
 * goes wrong: in the string table's offset, and in a second text section that lies below the first.
 */
module DumpExample {
  import opened Bytes
  import opened Regions
  import opened MachO
  import opened DumpSpec
  import opened DumpWrites
  import opened DumpRun
  import opened DumpRest
  import opened DumpTheorems
  import opened DumpSuccess
  import opened DumpOffsets
  import opened DumpImage

  function Zeros(n: nat): (z: seq<byte>)
    ensures |z| == n && forall i :: 0 <= i < n ==> z[i] == 0
  {
    seq(n, _ => 0)
  }

  const OTHER_CMD := 24

  /** Every structure is spelled as zeros. */
  const BLANK: Codec := Codec(_ => Zeros(MACH_HDR), _ => Zeros(SEG_HDR), _ => Zeros(SECT_HDR), _ => Zeros(OTHER_CMD))

  /** The text segment starts with the header; `second` is the offset of its second section. */
  function Text(second: u32): Command {
    LcSegment(Segment(SegText, 0, 4096, 0, 800, 7, 5, 0,
      [Section(OtherSect("__text"), SegText, 700, 50, 700, 2, 0, 0, 0, 0, 0),
       Section(OtherSect("__cstring"), SegText, second, 20, second, 2, 0, 0, 0, 0, 0)]))
  }

  const DATA: Segment := Segment(SegData, 8192, 4096, 800, 100, 7, 3, 0,
    [Section(Data, SegData, 8192, 64, 800, 2, 0, 0, 0, 0, 0),
     Section(LaSymbolPtr, SegData, 8256, 36, 864, 2, 0, 0, 0, 0, 0),
     Section(Bss, SegData, 8292, 3996, 0, 2, 0, 0, 1, 0, 0)])

  const LINKEDIT: Command := LcSegment(Segment(OtherSeg("__LINKEDIT"), 16384, 4096, 900, 200, 7, 1, 0, []))

  /** The symbols are in the link-edit segment, the strings in the text. */
  const SYMTAB: Command := LcSymtab(910, 5, 720, 20)

  const DYSYMTAB: Command := LcDysymtab([], 0, 0, 1000, 1, 1008, 1, [Vanilla(8196, 2)], [PreboundLazy])

  function Commands(second: u32): seq<Command> {
    [Text(second), LcSegment(DATA), LINKEDIT, SYMTAB, DYSYMTAB]
  }

  /** Zeros where the load commands are, sevens behind them; memory holds ones. */
  function Sample(second: u32): Input {
    Input(BLANK, Zeros(584) + seq(516, _ => 7), Header(0, 0, 0, 2, 5, 556, 0), Commands(second), [Range(20480, 16)],
          _ => 1)
  }

  // ---- The load commands ----

  function CommandSize(c: Command): nat {
    if c.LcSegment? then SEG_HDR + SECT_HDR * |c.seg.sections| else OTHER_CMD
  }

  function TotalSize(cs: seq<Command>): nat {
    if cs == [] then 0 else CommandSize(cs[0]) + TotalSize(cs[1..])
  }

  lemma {:induction false} BlankSections(ss: seq<Section>)
    ensures SectionsBytes(BLANK, ss) == Zeros(SECT_HDR * |ss|)
  {
    if ss != [] {
      BlankSections(ss[1..]);
    }
  }

  lemma BlankCommand(c: Command)
    ensures CommandBytes(BLANK, c) == Zeros(CommandSize(c))
  {
    if c.LcSegment? {
      BlankSections(c.seg.sections);
    }
  }

  lemma {:induction false} BlankCommands(cs: seq<Command>)
    ensures CommandsBytes(BLANK, cs) == Zeros(TotalSize(cs))
    decreases |cs|
  {
    if cs != [] {
      assert cs == [cs[0]] + cs[1..];
      CommandsBytesFirst(BLANK, cs[0], cs[1..]);
      BlankCommand(cs[0]);
      BlankCommands(cs[1..]);
    }
  }

  lemma SampleSize(second: u32)
    ensures CommandsBytes(BLANK, Commands(second)) == Zeros(556)
  {
    var c0, c1, c2 := Commands(second), [LcSegment(DATA), LINKEDIT, SYMTAB, DYSYMTAB], [LINKEDIT, SYMTAB, DYSYMTAB];
    var c3, c4 := [SYMTAB, DYSYMTAB], [DYSYMTAB];
    assert c0[1..] == c1 && c1[1..] == c2 && c2[1..] == c3 && c3[1..] == c4 && c4[1..] == [];
    assert TotalSize(c4) == 24;
    assert TotalSize(c3) == 48;
    assert TotalSize(c2) == 104;
    assert TotalSize(c1) == 364;
    assert TotalSize(c0) == 556;
    BlankCommands(c0);
  }

  lemma SampleTextLow(second: u32)
    ensures TextLow(Commands(second)) == 700
  {
    var cs := Commands(second);
    assert cs[..4][..3][..2][..1][..0] == [];
    assert cs[..1] == cs[..4][..3][..2][..1] == [Text(second)];
    assert TextLow([Text(second)][..0]) == NO_TEXT_OFFSET;
    assert TextLow(cs[..4][..3][..2][..1]) == 700;
    assert TextLow(cs[..4][..3][..2]) == 700;
    assert TextLow(cs[..4][..3]) == 700;
    assert TextLow(cs[..4]) == 700;
  }

  // ---- It is well formed, and its dump succeeds ----

  lemma SampleInFile(second: u32)
    ensures InFile(BLANK, Commands(second), Sample(second).file)
  {
    SampleSize(second);
    assert forall k :: 0 <= k < 584 ==> Sample(second).file[k] == 0;
  }

  lemma SampleIsWellFormed(second: u32)
    ensures WellFormed(Sample(second), 1)
  {
    SampleInFile(second);
    SampleTextLow(second);
    assert RelocsInside(PlaceData(DATA), [Vanilla(8196, 2)] + [PreboundLazy]);
  }

  lemma SampleFront(second: u32)
    ensures CanCopyAll(Sample(second), None, [Text(second)])
  {
    assert [Text(second)] == [] + [Text(second)];
    CanCopyNext(Sample(second), None, [], Text(second));
  }

  lemma RelocationsCopy(inp: Input)
    requires 808 <= |inp.file|
    ensures CanUndoAll(inp, Some(DataSegment(DATA.fileoff, PlaceData(DATA))), [Vanilla(8196, 2)] + [PreboundLazy])
  {
  }

  lemma ThreeCopy(inp: Input, data: Option<DataSegment>, a: Command, b: Command, c: Command)
    requires CanCopy(inp, data, a) && CanCopy(inp, data, b) && CanCopy(inp, data, c)
    ensures CanCopyAll(inp, data, [a, b, c])
  {
    assert [a, b, c] == [] + [a] + [b] + [c];
    CanCopyNext(inp, data, [], a);
    CanCopyNext(inp, data, [] + [a], b);
    CanCopyNext(inp, data, [] + [a] + [b], c);
  }

  lemma SampleRest(second: u32)
    ensures CanCopyAll(Sample(second), PlacedData(Sample(second), 1), [LINKEDIT, SYMTAB, DYSYMTAB])
  {
    RelocationsCopy(Sample(second));
    ThreeCopy(Sample(second), PlacedData(Sample(second), 1), LINKEDIT, SYMTAB, DYSYMTAB);
  }

  lemma SampleIsComplete(second: u32)
    ensures Complete(Sample(second), 1)
  {
    var cs := Commands(second);
    assert cs[..1] == [Text(second)] && cs[2..|cs|] == [LINKEDIT, SYMTAB, DYSYMTAB];
    SampleFront(second);
    SampleRest(second);
  }

  /** The hypotheses can be met: by an executable in which the copied text runs over the commands already written. */
  lemma SampleDumps(second: u32)
    ensures Sample(second).header.ncmds == |Sample(second).cmds| && Dumped(Sample(second), 1)
  {
    SampleIsWellFormed(second);
    SampleIsComplete(second);
    SampleSize(second);
    SampleTextLow(second);
    DumpSucceedsIfRoom(Sample(second), 1);
  }

  lemma SampleHeader(second: u32)
    ensures Dumped(Sample(second), 1) && DumpIt(Sample(second)).value.hdr == 640
    ensures CommandsBytes(BLANK, AllCommands(Sample(second), 1)) == Zeros(612)
  {
    var inp := Sample(second);
    SampleDumps(second);
    SampleSize(second);
    FinalState(inp, 1);
    HeaderSize(inp, 1);
    CommandsGrow(inp, 1);
    BlankCommands(AllCommands(inp, 1));
  }

  /** Its segments and its region lie apart in memory. */
  lemma SampleMapsApart(second: u32)
    ensures MapsApart(Commands(second)) && RegionsFree(Sample(second).regions, Commands(second))
    ensures RegionsApart(Sample(second).regions)
  {
  }

  /** With the second text section behind the first, the other hypotheses hold as well. */
  lemma SampleIsOrderly()
    ensures Apart(Commands(750)) && FirstSectionsLowest(Commands(750))
    ensures MapsApart(Commands(750)) && RegionsFree(Sample(750).regions, Commands(750))
    ensures RegionsApart(Sample(750).regions)
  {
    var cs := Commands(750);
    SampleMapsApart(750);
    SampleTextLow(750);
    TextLowIsFirst(cs, 700);
    TextLowIsFirst(cs, 750);
    forall i, j | 0 <= i < |cs| && IsText(cs[i]) && 0 <= j < |cs[i].seg.sections|
      ensures NO_TEXT_OFFSET <= cs[i].seg.sections[j].offset || FirstBelow(cs, cs[i].seg.sections[j].offset)
    {
      assert i == 0;
    }
  }

  /** A relocation of the data section is undone: the output has the input's byte there, not memory's. */
  lemma RelocationUndone()
    ensures Dumped(Sample(750), 1) && Holds(Output(Sample(750)), 804, 7) && Sample(750).mem(8196) == 1
  {
    SampleDumps(750);
    ByteRestored();
    SectionHeld(Sample(750), 1, 0, DATA.sections[0], 4, 804);
  }

  lemma ByteRestored()
    ensures Restored(Sample(750), 1, 804)
  {
    var seg := PlaceData(DATA);
    var cs := Commands(750);
    assert cs[2..|cs|] == [LINKEDIT, SYMTAB, DYSYMTAB];
    assert RelocTouches(seg, Vanilla(8196, 2), 804);
    assert CommandUndoes(seg, DYSYMTAB, 804);
  }

  // ---- A section that is overlooked ----

  /** The second text section lies below the first; the dump succeeds and writes its header over it. */
  lemma OverlookedSection()
    ensures var inp := Sample(600);
      && Dumped(inp, 1) && inp.file[600] == 7 && Holds(Output(inp), 600, 0)
      && !ClearOfHeader(inp, inp.cmds[0].seg.sections[1]) && !FirstSectionsLowest(inp.cmds)
  {
    var inp := Sample(600);
    SampleHeader(600);
    TextByte(inp, 1, 0, 600);
    SectionClearIff(inp, inp.cmds[0].seg.sections[1]);
    SampleTextLow(600);
    RoomCheckIff(inp.cmds);
    assert IsText(inp.cmds[0]) && inp.cmds[0].seg.sections[1].offset == 600;
    TextLowIsFirst(inp.cmds, 600);
  }

  // ---- A reference that goes astray ----

  /**
   * The string table lies in the text and its command behind the data segment: the output still has the
   * strings where they were, but the command says that they are where bss was dumped.
   */
  lemma MisplacedStrings()
    ensures var inp := Sample(750);
      && Dumped(inp, 1) && inp.file[720] == 7 && Holds(Output(inp), 720, 7)
      && MovedTable(inp, 1, 3, StringTable) == Some(4732) && Holds(Output(inp), 4732, 1)
  {
    StringsStay();
    StringsMove();
    BssByte();
  }

  lemma StringsStay()
    ensures Dumped(Sample(750), 1) && Sample(750).file[720] == 7 && Holds(Output(Sample(750)), 720, 7)
  {
    SampleHeader(750);
    ContentsHeld(Sample(750), 1, 0, 720);
  }

  lemma StringsMove()
    ensures WellFormed(Sample(750), 1) && MovedTable(Sample(750), 1, 3, StringTable) == Some(4732)
  {
    SampleIsWellFormed(750);
    TableMoves(Sample(750), 1, 3, StringTable);
  }

  lemma BssByte()
    ensures Dumped(Sample(750), 1) && Holds(Output(Sample(750)), 4732, 1)
  {
    var inp := Sample(750);
    SampleDumps(750);
    SectionHeld(inp, 1, 2, DATA.sections[2], 3832, 4732);
    NotRestored();
  }

  lemma NotRestored()
    ensures !Restored(Sample(750), 1, 4732)
  {
    var seg := PlaceData(DATA);
    var cs := Commands(750);
    assert cs[2..|cs|] == [LINKEDIT, SYMTAB, DYSYMTAB];
    var one, two, three := [LINKEDIT], [LINKEDIT, SYMTAB], [LINKEDIT, SYMTAB, DYSYMTAB];
    assert three[..|three| - 1] == two && two[..|two| - 1] == one && one[..|one| - 1] == [];
    var rs := [Vanilla(8196, 2)] + [PreboundLazy];
    assert rs[1..] == [PreboundLazy] && rs[1..][1..] == [];
    assert !Undone(seg, rs[1..], 4732);
    assert !Undone(seg, rs, 4732);
    assert !UndoneBy(seg, [], 4732) && !UndoneBy(seg, one, 4732);
    assert !UndoneBy(seg, two, 4732);
  }
}
