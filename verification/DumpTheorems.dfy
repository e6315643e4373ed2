/**
 * The dump of a well-formed executable: the finished header, what loading the output gives back, and the
 * file offsets in it.
 */
module DumpTheorems {
  import opened Bytes
  import opened Regions
  import opened MachO
  import opened DumpSpec
  import opened DumpWrites
  import opened DumpRun
  import opened DumpRest

  // ---- The last state ----

  lemma FinalLast(inp: Input, k: nat)
    requires DumpIt(inp).Some?
    ensures At(inp, |inp.cmds|).Some?
    ensures LastByte(DumpIt(inp).value.log, k)
         == if k < MACH_HDR then Some(inp.codec.header(FinalHeader(inp, At(inp, |inp.cmds|).value))[k])
            else LastByte(At(inp, |inp.cmds|).value.log, k)
  {
    var s := At(inp, |inp.cmds|).value;
    var head := Patch(0, inp.codec.header(FinalHeader(inp, s)));
    OneLast(head, k);
    LastByteAppend(s.log, [head], k);
  }

  lemma OutputHolds(inp: Input, k: nat, b: byte)
    requires DumpIt(inp).Some? && LastByte(DumpIt(inp).value.log, k) == Some(b)
    ensures Holds(Output(inp), k, b)
  {
    LastByteHolds(DumpIt(inp).value.log, k);
  }

  /** The commands of the output: in front of the data segment as they were, behind it moved. */
  function AllCommands(inp: Input, d: nat): seq<Command>
    requires WellFormed(inp, d)
  {
    Front(inp, d) + Shifted(inp.cmds[d + 1..|inp.cmds|], Growth(inp, d))
  }

  lemma FinalState(inp: Input, d: nat)
    requires Dumped(inp, d)
    ensures var f := DumpIt(inp).value;
      && f.emitted == AllCommands(inp, d) && f.ncmds == |f.emitted| && At(inp, |inp.cmds|).Some?
      && f.hdr == At(inp, |inp.cmds|).value.hdr && f.ncmds == At(inp, |inp.cmds|).value.ncmds
      && f.hdr <= TextLow(inp.cmds) <= DataSeg(inp, d).fileoff
  {
    RestState(inp, d, |inp.cmds|);
  }

  // ---- The header ----

  lemma HeaderSize(inp: Input, d: nat)
    requires Dumped(inp, d)
    ensures DumpIt(inp).value.hdr == MACH_HDR + |CommandsBytes(inp.codec, DumpIt(inp).value.emitted)|
  {
    FinalState(inp, d);
    HeaderGrows(inp, |inp.cmds|);
    HeaderLast(inp, d, |inp.cmds|, 0);
  }

  lemma HeaderGrows(inp: Input, i: nat)
    requires i <= |inp.cmds| && At(inp, i).Some?
    ensures MACH_HDR <= At(inp, i).value.hdr
  {
    Passed(inp, 0, i);
  }

  lemma HeaderByte(inp: Input, d: nat, k: nat)
    requires Dumped(inp, d) && MACH_HDR <= k < DumpIt(inp).value.hdr
    ensures k - MACH_HDR < |CommandsBytes(inp.codec, DumpIt(inp).value.emitted)|
    ensures Holds(Output(inp), k, CommandsBytes(inp.codec, DumpIt(inp).value.emitted)[k - MACH_HDR])
  {
    FinalState(inp, d);
    HeaderLast(inp, d, |inp.cmds|, k);
    FinalLast(inp, k);
    OutputHolds(inp, k, CommandsBytes(inp.codec, DumpIt(inp).value.emitted)[k - MACH_HDR]);
  }

  lemma MachHeaderByte(inp: Input, k: nat)
    requires DumpIt(inp).Some? && k < MACH_HDR
    ensures At(inp, |inp.cmds|).Some?
    ensures Holds(Output(inp), k, inp.codec.header(FinalHeader(inp, At(inp, |inp.cmds|).value))[k])
  {
    FinalLast(inp, k);
    OutputHolds(inp, k, inp.codec.header(FinalHeader(inp, At(inp, |inp.cmds|).value))[k]);
  }

  /** The Mach header that belongs to these commands. */
  function HeaderFor(inp: Input, cs: seq<Command>): Header {
    inp.header.(ncmds := |cs| % TWO32, sizeofcmds := |CommandsBytes(inp.codec, cs)| % TWO32)
  }

  /** A file that starts with a Mach header for these commands and then the commands, without gaps. */
  ghost predicate HeadedBy(inp: Input, out: seq<byte>, cs: seq<Command>) {
    && (forall k :: 0 <= k < MACH_HDR ==> Holds(out, k, inp.codec.header(HeaderFor(inp, cs))[k]))
    && (forall k :: 0 <= k < |CommandsBytes(inp.codec, cs)| ==>
          Holds(out, MACH_HDR + k, CommandsBytes(inp.codec, cs)[k]))
  }

  /**
   * The finished header is the Mach header followed by every rewritten command and one command per region,
   * with the right count and size, although copying the text segment writes over commands written before.
   */
  lemma HeaderRebuilt(inp: Input, d: nat)
    requires Dumped(inp, d)
    ensures DumpIt(inp).value.emitted == AllCommands(inp, d)
    ensures |AllCommands(inp, d)| == |inp.cmds| + |inp.regions|
    ensures HeadedBy(inp, Output(inp), AllCommands(inp, d))
    ensures MACH_HDR + |CommandsBytes(inp.codec, AllCommands(inp, d))| <= TextLow(inp.cmds)
  {
    FinalState(inp, d);
    HeaderSize(inp, d);
    var cs := AllCommands(inp, d);
    forall k | 0 <= k < MACH_HDR ensures Holds(Output(inp), k, inp.codec.header(HeaderFor(inp, cs))[k]) {
      MachHeaderByte(inp, k);
    }
    forall k | 0 <= k < |CommandsBytes(inp.codec, cs)|
      ensures Holds(Output(inp), MACH_HDR + k, CommandsBytes(inp.codec, cs)[k])
    {
      HeaderByte(inp, d, MACH_HDR + k);
    }
  }

  // ---- Which command is where ----

  /** The place of input command i among the output's commands. */
  function Position(inp: Input, d: nat, i: nat): nat {
    if i <= d then i else i + |inp.regions|
  }

  lemma {:induction false} ShiftedAt(cs: seq<Command>, delta: u32, i: nat)
    requires i < |cs|
    ensures Shifted(cs, delta)[i] == ShiftCommand(cs[i], delta)
    decreases |cs|
  {
    if i < |cs| - 1 {
      ShiftedAt(cs[..|cs| - 1], delta, i);
    }
  }

  lemma ConcatAt<T>(a: seq<T>, x: T, b: seq<T>, c: seq<T>, i: nat)
    requires i < |a| + 1 + |b| + |c|
    ensures (a + [x] + b + c)[i] == if i < |a| then a[i] else if i == |a| then x
                                    else if i <= |a| + |b| then b[i - |a| - 1] else c[i - |a| - 1 - |b|]
  {
  }

  lemma PlacedAt(cs: seq<Command>, d: nat, x: Command, news: seq<Command>, growth: u32, i: nat)
    requires d < |cs| && i < |cs|
    ensures var at := if i <= d then i else i + |news|;
      at < d + 1 + |news| + |Shifted(cs[d + 1..|cs|], growth)|
      && (cs[..d] + [x] + news + Shifted(cs[d + 1..|cs|], growth))[at]
         == if i < d then cs[i] else if i == d then x else ShiftCommand(cs[i], growth)
  {
    ConcatAt(cs[..d], x, news, Shifted(cs[d + 1..|cs|], growth), if i <= d then i else i + |news|);
    if d < i {
      ShiftedAt(cs[d + 1..|cs|], growth, i - d - 1);
    }
  }

  /** Every command of the input is in the output, in order, with the regions' behind the data segment's. */
  lemma CommandPlaced(inp: Input, d: nat, i: nat)
    requires WellFormed(inp, d) && i < |inp.cmds|
    ensures Position(inp, d, i) < |AllCommands(inp, d)|
    ensures AllCommands(inp, d)[Position(inp, d, i)]
         == if i < d then inp.cmds[i] else if i == d then Placed(inp, d) else ShiftCommand(inp.cmds[i], Growth(inp, d))
  {
    PlacedAt(inp.cmds, d, Placed(inp, d), NewCommands(inp, d), Growth(inp, d), i);
  }

  lemma RegionCommandPlaced(inp: Input, d: nat, j: nat)
    requires WellFormed(inp, d) && j < |inp.regions|
    ensures d + 1 + j < |AllCommands(inp, d)|
    ensures RegionBase(inp, d) <= RegionOffset(inp.regions, RegionBase(inp, d), j)
    ensures RegionOffset(inp.regions, RegionBase(inp, d), j) + inp.regions[j].size <= PostBase(inp, d)
    ensures AllCommands(inp, d)[d + 1 + j]
         == RegionCommand(inp.regions[j], RegionOffset(inp.regions, RegionBase(inp, d), j))
  {
    ConcatAt(inp.cmds[..d], Placed(inp, d), NewCommands(inp, d), Shifted(inp.cmds[d + 1..|inp.cmds|], Growth(inp, d)),
             d + 1 + j);
    RegionPlaced(inp.regions, RegionBase(inp, d), j);
  }

  lemma CommandCount(inp: Input, d: nat)
    requires WellFormed(inp, d)
    ensures |AllCommands(inp, d)| == |inp.cmds| + |inp.regions|
  {
  }

  // ---- The bytes behind the header ----

  lemma DataDoneLog(inp: Input, s: Dump, seg: Segment, base: u32, r: Dump)
    requires DataDone(inp, s, seg, base, r)
    ensures SectionWrites(inp, s.hdr + SEG_HDR, seg, seg.sections).Some?
    ensures r.log
         == s.log + DataWrites(inp, s.hdr, seg, SectionWrites(inp, s.hdr + SEG_HDR, seg, seg.sections).value, base)
    ensures r.hdr == s.hdr + DataHeadsSize(seg, inp.regions)
  {
  }

  /** What the data segment and the regions leave at offset k. */
  lemma RegionByte(inp: Input, s: Dump, seg: Segment, base: u32, r: Dump, j: nat, i: nat, k: nat)
    requires DataDone(inp, s, seg, base, r) && base + SizeSum(inp.regions) < TWO32 && r.hdr <= base
    requires j < |inp.regions| && i < inp.regions[j].size && k == RegionOffset(inp.regions, base, j) + i
    ensures LastByte(r.log, k) == Some(inp.mem(inp.regions[j].address + i))
  {
    var sections := SectionWrites(inp, s.hdr + SEG_HDR, seg, seg.sections).value;
    AfterDataLast(inp, s, seg, sections, base, r, k);
    RegionContentLast(inp, RegionHdr(s, seg), base, inp.regions, j, i);
  }

  lemma SectionsByte(inp: Input, s: Dump, seg: Segment, base: u32, r: Dump, j: nat, k: nat)
    requires DataDone(inp, s, seg, base, r) && base + SizeSum(inp.regions) < TWO32 && r.hdr <= k < base
    requires j < |seg.sections| && InSection(seg, seg.sections[j], k) && OnlyIn(seg, seg.sections, j, k)
    ensures LastByte(r.log, k) == SectionByte(inp, seg.sections[j], k - SectionOffset(seg, seg.sections[j]))
    ensures SectionByte(inp, seg.sections[j], k - SectionOffset(seg, seg.sections[j])).Some?
  {
    var sections := SectionWrites(inp, s.hdr + SEG_HDR, seg, seg.sections).value;
    AfterDataLast(inp, s, seg, sections, base, r, k);
    OutsideRegionsLast(inp, RegionHdr(s, seg), base, inp.regions, k);
    InsideLast(inp, s.hdr + SEG_HDR, seg, seg.sections, j, k);
  }

  lemma OutsideDataByte(inp: Input, s: Dump, seg: Segment, base: u32, r: Dump, k: nat)
    requires DataDone(inp, s, seg, base, r) && base + SizeSum(inp.regions) < TWO32 && r.hdr <= k
    requires OutsideSections(seg, seg.sections, k) && !(base <= k < base + SizeSum(inp.regions))
    ensures LastByte(r.log, k) == LastByte(s.log, k)
  {
    DataDoneLog(inp, s, seg, base, r);
    NothingLast(inp, s, seg, SectionWrites(inp, s.hdr + SEG_HDR, seg, seg.sections).value, base, k);
  }

  lemma NothingLast(inp: Input, s: Dump, seg: Segment, sections: seq<Patch>, base: u32, k: nat)
    requires SectionWrites(inp, s.hdr + SEG_HDR, seg, seg.sections) == Some(sections)
    requires base + SizeSum(inp.regions) < TWO32 && s.hdr + DataHeadsSize(seg, inp.regions) <= k
    requires OutsideSections(seg, seg.sections, k) && !(base <= k < base + SizeSum(inp.regions))
    ensures LastByte(s.log + DataWrites(inp, s.hdr, seg, sections, base), k) == LastByte(s.log, k)
  {
    OutsideDataWrites(inp, s.hdr, seg, sections, base, k);
    LastByteAppend(s.log, DataWrites(inp, s.hdr, seg, sections, base), k);
  }

  lemma OutsideDataWrites(inp: Input, hdr: nat, seg: Segment, sections: seq<Patch>, base: u32, k: nat)
    requires SectionWrites(inp, hdr + SEG_HDR, seg, seg.sections) == Some(sections)
    requires base + SizeSum(inp.regions) < TWO32 && hdr + DataHeadsSize(seg, inp.regions) <= k
    requires OutsideSections(seg, seg.sections, k) && !(base <= k < base + SizeSum(inp.regions))
    ensures LastByte(DataWrites(inp, hdr, seg, sections, base), k) == None
  {
    DataWritesLast(inp, hdr, seg, sections, base, k);
    OutsideRegionsLast(inp, hdr + SEG_HDR + SECT_HDR * |seg.sections|, base, inp.regions, k);
    OutsideLast(inp, hdr + SEG_HDR, seg, seg.sections, k);
  }

  /** Behind the header, what the output holds where the data segment left `before`. */
  lemma BodyByte(inp: Input, d: nat, k: nat)
    requires Dumped(inp, d) && DumpIt(inp).value.hdr <= k
    ensures At(inp, d + 1).Some? && At(inp, d + 1).value.hdr <= k
    ensures RestByte(inp.file, Placed(inp, d).seg, Growth(inp, d), PostBase(inp, d), inp.cmds[d + 1..|inp.cmds|], k,
                     LastByte(At(inp, d + 1).value.log, k), LastByte(DumpIt(inp).value.log, k))
  {
    FinalState(inp, d);
    HeaderGrows(inp, |inp.cmds|);
    Passed(inp, d + 1, |inp.cmds|);
    RestLast(inp, d, |inp.cmds|, k);
    FinalLast(inp, k);
  }

  /** The data segment's command and the regions left byte b at offset k. */
  ghost predicate Left(inp: Input, d: nat, k: nat, b: byte)
    requires d < |inp.cmds|
  {
    match At(inp, d + 1)
    case Some(s) => LastByte(s.log, k) == Some(b)
    case None => false
  }

  /** The output's commands restore the input's byte at this place of the data segment. */
  predicate Restored(inp: Input, d: nat, k: nat)
    requires d < |inp.cmds| && inp.cmds[d].LcSegment?
  {
    UndoneBy(Placed(inp, d).seg, inp.cmds[d + 1..|inp.cmds|], k)
  }

  /** Up to the end of the regions, that is what the output holds, but for relocations undone in the data. */
  lemma LeftIsHeld(inp: Input, d: nat, k: nat, b: byte)
    requires Dumped(inp, d) && k < PostBase(inp, d) && Left(inp, d, k, b)
    requires DumpIt(inp).value.hdr <= k || DataSeg(inp, d).fileoff <= k
    ensures Restored(inp, d, k) ==> k < |inp.file| && DataSeg(inp, d).fileoff <= k < RegionBase(inp, d)
    ensures Holds(Output(inp), k, if Restored(inp, d, k) then inp.file[k] else b)
  {
    FinalState(inp, d);
    BodyByte(inp, d, k);
    OutputHolds(inp, k, if Restored(inp, d, k) then inp.file[k] else b);
  }

  lemma RegionLeft(inp: Input, d: nat, j: nat, i: nat, k: nat)
    requires Dumped(inp, d) && j < |inp.regions| && i < inp.regions[j].size
    requires k == RegionOffset(inp.regions, RegionBase(inp, d), j) + i
    ensures Left(inp, d, k, inp.mem(inp.regions[j].address + i))
  {
    DataState(inp, d);
    HeaderRoom(inp, d, d + 1);
    var s, r := At(inp, d).value, At(inp, d + 1).value;
    RegionByte(inp, s, DataSeg(inp, d), RegionBase(inp, d), r, j, i, k);
  }

  lemma SectionByteAt(inp: Input, s: Dump, seg: Segment, base: u32, r: Dump, j: nat, sec: Section, i: nat, k: nat)
    requires DataDone(inp, s, seg, base, r) && base + SizeSum(inp.regions) < TWO32 && r.hdr <= k < base
    requires j < |seg.sections| && sec == seg.sections[j] && i < sec.size
    requires k == SectionOffset(seg, sec) + i && OnlyIn(seg, seg.sections, j, k)
    ensures SectionByte(inp, sec, i).Some? && LastByte(r.log, k) == SectionByte(inp, sec, i)
  {
    SectionsByte(inp, s, seg, base, r, j, k);
  }

  /** Where byte i of a section of the data segment is in the output. */
  function SectionAt(inp: Input, d: nat, sec: Section, i: nat): nat
    requires d < |inp.cmds| && inp.cmds[d].LcSegment?
  {
    SectionOffset(DataSeg(inp, d), sec) + i
  }

  lemma SectionInData(inp: Input, d: nat, j: nat, i: nat, k: nat)
    requires WellFormed(inp, d) && j < |DataSeg(inp, d).sections| && i < DataSeg(inp, d).sections[j].size
    requires k == SectionAt(inp, d, DataSeg(inp, d).sections[j], i)
    ensures DataSeg(inp, d).fileoff <= k < RegionBase(inp, d)
    ensures OnlyIn(DataSeg(inp, d), DataSeg(inp, d).sections, j, k)
  {
    var seg := DataSeg(inp, d);
    assert SectionInside(seg, seg.sections[j]);
    SectionPlaced(seg, seg.sections[j]);
    OnlyInOne(seg, seg.sections, j, k);
  }

  lemma SectionLeft(inp: Input, d: nat, j: nat, sec: Section, i: nat, k: nat)
    requires Dumped(inp, d) && j < |DataSeg(inp, d).sections| && sec == DataSeg(inp, d).sections[j]
    requires i < sec.size && k == SectionAt(inp, d, sec, i)
    ensures SectionByte(inp, sec, i).Some? && Left(inp, d, k, SectionByte(inp, sec, i).value)
  {
    SectionInData(inp, d, j, i, k);
    DataState(inp, d);
    HeaderRoom(inp, d, d + 1);
    SectionByteAt(inp, At(inp, d).value, DataSeg(inp, d), RegionBase(inp, d), At(inp, d + 1).value, j, sec, i, k);
  }

  lemma FrontBefore(inp: Input, d: nat, i: nat, k: nat)
    requires Dumped(inp, d) && i < d && InExtent(inp.cmds[i], k)
    ensures k < DataSeg(inp, d).fileoff && At(inp, d).Some? && FromInput(inp, At(inp, d).value, k)
  {
    assert PreOk(DataSeg(inp, d), inp.cmds[i]);
    CoveredBy(inp.cmds, i, d, k);
    PreLast(inp, d, d, k);
  }

  lemma FrontUntouched(inp: Input, d: nat, k: nat)
    requires Dumped(inp, d) && DumpIt(inp).value.hdr <= k < DataSeg(inp, d).fileoff
    ensures At(inp, d).Some? && At(inp, d + 1).Some?
    ensures LastByte(At(inp, d + 1).value.log, k) == LastByte(At(inp, d).value.log, k)
  {
    var seg := DataSeg(inp, d);
    BodyByte(inp, d, k);
    NoSectionOutside(seg, seg.sections, k);
    DataState(inp, d);
    OutsideDataByte(inp, At(inp, d).value, seg, RegionBase(inp, d), At(inp, d + 1).value, k);
  }

  lemma FrontLeft(inp: Input, d: nat, i: nat, k: nat)
    requires Dumped(inp, d) && i < d && InExtent(inp.cmds[i], k) && DumpIt(inp).value.hdr <= k
    ensures k < |inp.file| && k < DataSeg(inp, d).fileoff && Left(inp, d, k, inp.file[k])
  {
    FrontBefore(inp, d, i, k);
    FrontUntouched(inp, d, k);
  }

  lemma {:induction false} MovedOverBy(cs: seq<Command>, growth: nat, j: nat, k: nat)
    requires j < |cs| && InMoved(cs[j], growth, k)
    ensures MovedOver(cs, growth, k)
    decreases |cs|
  {
    if j < |cs| - 1 {
      MovedOverBy(cs[..|cs| - 1], growth, j, k);
    }
  }

  lemma RestByteMoved(inp: Input, seg: Segment, growth: nat, base: nat, cs: seq<Command>, k: nat, to: nat,
                      before: Option<byte>, now: Option<byte>)
    requires RestByte(inp.file, seg, growth, base, cs, to, before, now) && MovedOver(cs, growth, to) && to == k + growth
    ensures k < |inp.file| && now == Some(inp.file[k])
  {
  }

  lemma MovedAway(inp: Input, d: nat, i: nat, k: nat, to: nat)
    requires Dumped(inp, d) && d < i < |inp.cmds| && InExtent(inp.cmds[i], k) && to == k + Growth(inp, d)
    ensures MovedOver(inp.cmds[d + 1..|inp.cmds|], Growth(inp, d), to) && DumpIt(inp).value.hdr <= to
  {
    MovedAside(inp, d, i, to);
    MovedOverBy(inp.cmds[d + 1..|inp.cmds|], Growth(inp, d), i - d - 1, to);
    FinalState(inp, d);
  }

  /** The contents of a segment behind the data segment are in the output, by the growth further on. */
  lemma MovedHeld(inp: Input, d: nat, i: nat, k: nat, to: nat)
    requires Dumped(inp, d) && d < i < |inp.cmds| && InExtent(inp.cmds[i], k) && to == k + Growth(inp, d)
    ensures k < |inp.file| && Holds(Output(inp), to, inp.file[k])
  {
    MovedAway(inp, d, i, k, to);
    BodyByte(inp, d, to);
    RestByteMoved(inp, Placed(inp, d).seg, Growth(inp, d), PostBase(inp, d), inp.cmds[d + 1..|inp.cmds|], k, to,
                  LastByte(At(inp, d + 1).value.log, to), LastByte(DumpIt(inp).value.log, to));
    OutputHolds(inp, to, inp.file[k]);
  }

  // ---- Loading the output ----

  /** What a loader puts at address a of a segment: the file's byte, and zero behind the file contents. */
  function Loaded(out: seq<byte>, seg: Segment, a: nat): Option<byte>
    requires seg.vmaddr <= a
  {
    var i := a - seg.vmaddr;
    if seg.filesize <= i then Some(0) else if seg.fileoff + i < |out| then Some(out[seg.fileoff + i]) else None
  }

  lemma HeldIsLoaded(out: seq<byte>, seg: Segment, a: nat, b: byte)
    requires seg.vmaddr <= a < seg.vmaddr + seg.filesize && Holds(out, seg.fileoff + (a - seg.vmaddr), b)
    ensures Loaded(out, seg, a) == Some(b)
  {
  }

  lemma RegionHeld(inp: Input, d: nat, j: nat, i: nat, k: nat)
    requires Dumped(inp, d) && j < |inp.regions| && i < inp.regions[j].size
    requires k == RegionOffset(inp.regions, RegionBase(inp, d), j) + i
    ensures Holds(Output(inp), k, inp.mem(inp.regions[j].address + i))
  {
    RegionPlaced(inp.regions, RegionBase(inp, d), j);
    RegionLeft(inp, d, j, i, k);
    LeftIsHeld(inp, d, k, inp.mem(inp.regions[j].address + i));
  }

  /** The segment that a region becomes. */
  function RegionSegment(inp: Input, d: nat, j: nat): Segment
    requires WellFormed(inp, d) && j < |inp.regions|
  {
    RegionPlaced(inp.regions, RegionBase(inp, d), j);
    RegionCommand(inp.regions[j], RegionOffset(inp.regions, RegionBase(inp, d), j)).seg
  }

  lemma RegionIsCommand(inp: Input, d: nat, j: nat)
    requires WellFormed(inp, d) && j < |inp.regions|
    ensures d + 1 + j < |AllCommands(inp, d)| && AllCommands(inp, d)[d + 1 + j] == LcSegment(RegionSegment(inp, d, j))
  {
    RegionCommandPlaced(inp, d, j);
  }

  /** Every region is loaded as it was in memory. */
  lemma RegionLoads(inp: Input, d: nat, j: nat, a: nat)
    requires Dumped(inp, d) && j < |inp.regions| && inp.regions[j].Has(a)
    ensures d + 1 + j < |AllCommands(inp, d)| && AllCommands(inp, d)[d + 1 + j] == LcSegment(RegionSegment(inp, d, j))
    ensures RegionSegment(inp, d, j).vmaddr == inp.regions[j].address
    ensures RegionSegment(inp, d, j).vmsize == RegionSegment(inp, d, j).filesize == inp.regions[j].size
    ensures Loaded(Output(inp), RegionSegment(inp, d, j), a) == Some(inp.mem(a))
  {
    RegionIsCommand(inp, d, j);
    RegionSegmentLoads(inp, d, j, a - inp.regions[j].address, a);
  }

  lemma RegionSegmentLoads(inp: Input, d: nat, j: nat, i: nat, a: nat)
    requires Dumped(inp, d) && j < |inp.regions| && i < inp.regions[j].size && a == inp.regions[j].address + i
    ensures RegionSegment(inp, d, j).vmaddr == inp.regions[j].address
    ensures Loaded(Output(inp), RegionSegment(inp, d, j), a) == Some(inp.mem(a))
  {
    RegionHeld(inp, d, j, i, RegionOffset(inp.regions, RegionBase(inp, d), j) + i);
    HeldIsLoaded(Output(inp), RegionSegment(inp, d, j), a, inp.mem(a));
  }

  /** The command is a segment's that is loaded whole, with byte b at address a. */
  predicate LoadsByte(out: seq<byte>, c: Command, a: nat, b: byte) {
    match c
    case LcSegment(seg) =>
      && seg.vmaddr <= a < seg.vmaddr + seg.vmsize && seg.filesize == seg.vmsize
      && Loaded(out, seg, a) == Some(b)
    case _ => false
  }

  /** So every address in a region is loaded with memory's byte, by one of the output's segments. */
  lemma MemoryLoads(inp: Input, d: nat, a: nat) returns (p: nat)
    requires Dumped(inp, d) && Covers(inp.regions, a)
    ensures p < |AllCommands(inp, d)| && LoadsByte(Output(inp), AllCommands(inp, d)[p], a, inp.mem(a))
  {
    var j :| 0 <= j < |inp.regions| && inp.regions[j].Has(a);
    RegionLoads(inp, d, j, a);
    p := d + 1 + j;
  }

  /** What a dump leaves of byte i of a section at offset k: what SectionByte says, but for undone relocations. */
  function DumpedByte(inp: Input, d: nat, sec: Section, i: nat, k: nat): Option<byte>
    requires d < |inp.cmds| && inp.cmds[d].LcSegment?
  {
    if !Restored(inp, d, k) then SectionByte(inp, sec, i) else if k < |inp.file| then Some(inp.file[k]) else None
  }

  /** The output holds this byte at offset k. */
  predicate HoldsSome(out: seq<byte>, k: nat, b: Option<byte>) {
    b.Some? && Holds(out, k, b.value)
  }

  lemma LeftIsDumped(inp: Input, d: nat, sec: Section, i: nat, k: nat)
    requires Dumped(inp, d) && DataSeg(inp, d).fileoff <= k < RegionBase(inp, d)
    requires SectionByte(inp, sec, i).Some? && Left(inp, d, k, SectionByte(inp, sec, i).value)
    ensures HoldsSome(Output(inp), k, DumpedByte(inp, d, sec, i, k))
  {
    LeftIsHeld(inp, d, k, SectionByte(inp, sec, i).value);
  }

  lemma SectionHeld(inp: Input, d: nat, j: nat, sec: Section, i: nat, k: nat)
    requires Dumped(inp, d) && j < |DataSeg(inp, d).sections| && sec == DataSeg(inp, d).sections[j]
    requires i < sec.size && k == SectionAt(inp, d, sec, i)
    ensures HoldsSome(Output(inp), k, DumpedByte(inp, d, sec, i, k))
  {
    SectionInData(inp, d, j, i, k);
    SectionLeft(inp, d, j, sec, i, k);
    LeftIsDumped(inp, d, sec, i, k);
  }

  /** The address of byte i of a section is where the placed data segment has the byte in its contents. */
  lemma SectionAddress(inp: Input, d: nat, j: nat, sec: Section, i: nat)
    requires WellFormed(inp, d) && j < |DataSeg(inp, d).sections| && sec == DataSeg(inp, d).sections[j] && i < sec.size
    ensures var seg := Placed(inp, d).seg;
      && seg.vmaddr <= sec.addr && sec.addr + i < seg.vmaddr + seg.filesize
      && seg.fileoff + (sec.addr + i - seg.vmaddr) == SectionAt(inp, d, sec, i)
  {
    assert SectionInside(DataSeg(inp, d), sec);
    SectionPlaced(DataSeg(inp, d), sec);
  }

  /**
   * Every section of the data segment is loaded with what SectionByte says: memory for the data, bss and
   * common sections, the input's contents for the others; except where a relocation was undone.
   */
  lemma SectionLoads(inp: Input, d: nat, j: nat, sec: Section, i: nat)
    requires Dumped(inp, d) && j < |DataSeg(inp, d).sections| && sec == DataSeg(inp, d).sections[j] && i < sec.size
    ensures Placed(inp, d).seg.vmaddr <= sec.addr
    ensures sec.addr + i < Placed(inp, d).seg.vmaddr + Placed(inp, d).seg.filesize
    ensures DumpedByte(inp, d, sec, i, SectionAt(inp, d, sec, i)).Some?
    ensures Loaded(Output(inp), Placed(inp, d).seg, sec.addr + i)
         == DumpedByte(inp, d, sec, i, SectionAt(inp, d, sec, i))
  {
    var k := SectionAt(inp, d, sec, i);
    SectionAddress(inp, d, j, sec, i);
    SectionHeld(inp, d, j, sec, i, k);
    HeldIsLoaded(Output(inp), Placed(inp, d).seg, sec.addr + i, DumpedByte(inp, d, sec, i, k).value);
  }

  lemma FrontHeld(inp: Input, d: nat, i: nat, k: nat)
    requires Dumped(inp, d) && i < d && InExtent(inp.cmds[i], k) && DumpIt(inp).value.hdr <= k
    ensures k < |inp.file| && Holds(Output(inp), k, inp.file[k])
  {
    FrontLeft(inp, d, i, k);
    LeftIsHeld(inp, d, k, inp.file[k]);
  }

  lemma FrontLoads(inp: Input, d: nat, i: nat, a: nat, k: nat)
    requires Dumped(inp, d) && i < d && inp.cmds[i].LcSegment?
    requires inp.cmds[i].seg.vmaddr <= a < inp.cmds[i].seg.vmaddr + inp.cmds[i].seg.filesize
    requires DumpIt(inp).value.hdr <= k == inp.cmds[i].seg.fileoff + (a - inp.cmds[i].seg.vmaddr)
    ensures k < |inp.file| && Loaded(Output(inp), inp.cmds[i].seg, a) == Some(inp.file[k])
  {
    FrontHeld(inp, d, i, k);
    HeldIsLoaded(Output(inp), inp.cmds[i].seg, a, inp.file[k]);
  }

  lemma MovedLoads(inp: Input, d: nat, i: nat, a: nat, k: nat)
    requires Dumped(inp, d) && d < i < |inp.cmds| && inp.cmds[i].LcSegment?
    requires inp.cmds[i].seg.vmaddr <= a < inp.cmds[i].seg.vmaddr + inp.cmds[i].seg.filesize
    requires k == inp.cmds[i].seg.fileoff + (a - inp.cmds[i].seg.vmaddr)
    ensures k < |inp.file| && Loaded(Output(inp), ShiftSegment(inp.cmds[i].seg, Growth(inp, d)), a) == Some(inp.file[k])
  {
    MovedHeld(inp, d, i, k, k + Growth(inp, d));
    MovedAside(inp, d, i, k);
    HeldIsLoaded(Output(inp), ShiftSegment(inp.cmds[i].seg, Growth(inp, d)), a, inp.file[k]);
  }

  /** The segment of the output that a segment of the input became. */
  function LoadedSegment(inp: Input, d: nat, i: nat): Segment
    requires WellFormed(inp, d) && i < |inp.cmds| && i != d && inp.cmds[i].LcSegment?
  {
    if i < d then inp.cmds[i].seg else ShiftSegment(inp.cmds[i].seg, Growth(inp, d))
  }

  /**
   * Every other segment is loaded with the input's contents, at the same addresses; in front of the data
   * segment that is said of what lies behind the header.
   */
  lemma SegmentLoads(inp: Input, d: nat, i: nat, a: nat, k: nat)
    requires Dumped(inp, d) && i < |inp.cmds| && i != d && inp.cmds[i].LcSegment?
    requires inp.cmds[i].seg.vmaddr <= a < inp.cmds[i].seg.vmaddr + inp.cmds[i].seg.filesize
    requires k == inp.cmds[i].seg.fileoff + (a - inp.cmds[i].seg.vmaddr) && (i < d ==> DumpIt(inp).value.hdr <= k)
    ensures Position(inp, d, i) < |AllCommands(inp, d)|
    ensures AllCommands(inp, d)[Position(inp, d, i)] == LcSegment(LoadedSegment(inp, d, i))
    ensures k < |inp.file| && Loaded(Output(inp), LoadedSegment(inp, d, i), a) == Some(inp.file[k])
  {
    CommandPlaced(inp, d, i);
    if i < d {
      FrontLoads(inp, d, i, a, k);
    } else {
      MovedLoads(inp, d, i, a, k);
    }
  }
}
