/**
 * A run of the dump over a well-formed executable, command by command: the state in front of every
 * command, and what the last write to each offset was.
 */
module DumpRun {
  import opened Bytes
  import opened Regions
  import opened MachO
  import opened DumpSpec
  import opened DumpWrites

  // ---- Any run ----

  lemma {:induction false} RegionsGrow(inp: Input, s: Dump, base: u32, rs: seq<Range>)
    ensures s.hdr <= WriteRegions(inp, s, base, rs).hdr
    decreases |rs|
  {
    if rs != [] {
      RegionsGrow(inp, WriteRegion(inp, s, base, rs[0]), Add32(base, rs[0].size), rs[1..]);
    }
  }

  /** A run that comes to its end passed every earlier command, and the header only grew. */
  lemma {:induction false} Passed(inp: Input, i: nat, n: nat)
    requires i <= n <= |inp.cmds| && At(inp, n).Some?
    ensures At(inp, i).Some? && At(inp, i).value.hdr <= At(inp, n).value.hdr
    decreases n
  {
    if i < n {
      var s, c := At(inp, n - 1).value, inp.cmds[n - 1];
      if IsData(c) {
        var sections := SectionWrites(inp, s.hdr + SEG_HDR, c.seg, c.seg.sections).value;
        RegionsGrow(inp, WriteData(inp, s, c.seg, sections), Add32(c.seg.fileoff, c.seg.vmsize), inp.regions);
      }
      Passed(inp, i, n - 1);
    }
  }

  // ---- Well-formed executables ----

  function DataSeg(inp: Input, d: nat): Segment
    requires d < |inp.cmds| && inp.cmds[d].LcSegment?
  {
    inp.cmds[d].seg
  }

  /** How much later file contents move: the data segment's growth and the regions. */
  function Growth(inp: Input, d: nat): int
    requires d < |inp.cmds| && inp.cmds[d].LcSegment?
  {
    DataSeg(inp, d).vmsize - DataSeg(inp, d).filesize + SizeSum(inp.regions)
  }

  /** The first file offset behind the regions. */
  function PostBase(inp: Input, d: nat): nat
    requires d < |inp.cmds| && inp.cmds[d].LcSegment?
  {
    DataSeg(inp, d).fileoff + DataSeg(inp, d).vmsize + SizeSum(inp.regions)
  }

  /** A section of the data segment lies inside it. */
  predicate SectionInside(seg: Segment, sec: Section) {
    seg.vmaddr <= sec.addr && sec.addr + sec.size <= seg.vmaddr + seg.vmsize
  }

  predicate DisjointSections(a: Section, b: Section) {
    a.addr + a.size <= b.addr || b.addr + b.size <= a.addr
  }

  predicate DataOk(seg: Segment) {
    && (forall j :: 0 <= j < |seg.sections| ==> SectionInside(seg, seg.sections[j]))
    && (forall i, j :: 0 <= i < j < |seg.sections| ==> DisjointSections(seg.sections[i], seg.sections[j]))
  }

  predicate RelocInside(seg: Segment, r: Reloc) {
    r.Vanilla? && InSegment(seg, r.address) ==> r.address + RelocBytes(r) <= seg.vmaddr + seg.vmsize
  }

  predicate RelocsInside(seg: Segment, rs: seq<Reloc>) {
    rs == [] || (RelocInside(seg, rs[0]) && RelocsInside(seg, rs[1..]))
  }

  /** A command in front of the data segment: its file contents end where the data's begin. */
  predicate PreOk(data: Segment, c: Command) {
    !IsData(c) && (c.LcSegment? && 0 < c.seg.filesize ==> c.seg.fileoff + c.seg.filesize <= data.fileoff)
  }

  /** A command behind it: its file contents start where the data's end, and have room to move. */
  predicate PostOk(data: Segment, growth: int, c: Command) {
    && !IsData(c)
    && (c.LcSegment? && 0 < c.seg.filesize ==>
          data.fileoff + data.filesize <= c.seg.fileoff && c.seg.fileoff + c.seg.filesize + growth < TWO32)
    && (c.LcDysymtab? ==> RelocsInside(PlaceData(data), c.local + c.external))
  }

  /** The load commands as they lie in the file, behind the Mach header. */
  ghost predicate InFile(codec: Codec, cs: seq<Command>, file: seq<byte>) {
    && MACH_HDR + |CommandsBytes(codec, cs)| <= |file|
    && forall k :: 0 <= k < |CommandsBytes(codec, cs)| ==> file[MACH_HDR + k] == CommandsBytes(codec, cs)[k]
  }

  /**
   * One data segment, command d, between the commands in front of it and those behind it; load
   * commands as they lie in the file; 32-bit offsets that do not run over.
   */
  ghost predicate WellFormed(inp: Input, d: nat) {
    d < |inp.cmds| &&
    match inp.cmds[d]
    case LcSegment(data) =>
      && IsData(inp.cmds[d]) && DataOk(data)
      && data.filesize <= data.vmsize && TextLow(inp.cmds) <= data.fileoff
      && PostBase(inp, d) < TWO32
      && InFile(inp.codec, inp.cmds, inp.file)
      && (forall i :: 0 <= i < d ==> PreOk(data, inp.cmds[i]))
      && (forall i :: d < i < |inp.cmds| ==> PostOk(data, Growth(inp, d), inp.cmds[i]))
    case _ => false
  }

  /** A successful dump of a well-formed executable. */
  ghost predicate Dumped(inp: Input, d: nat) {
    match DumpIt(inp)
    case Some(_) => WellFormed(inp, d)
    case None => false
  }

  /** The header never reaches the contents of the data segment or of anything behind it. */
  lemma HeaderRoom(inp: Input, d: nat, i: nat)
    requires Dumped(inp, d) && i <= |inp.cmds|
    ensures At(inp, i).Some? && At(inp, i).value.hdr <= TextLow(inp.cmds) <= DataSeg(inp, d).fileoff
  {
    Passed(inp, i, |inp.cmds|);
  }

  // ---- In front of the data segment ----

  lemma ShiftByZero(c: Command)
    ensures ShiftCommand(c, 0) == c
  {
    if c.LcSegment? {
      assert ShiftSections(c.seg.sections, 0) == c.seg.sections;
    }
  }

  lemma {:induction false} NothingToUndo(inp: Input, rs: seq<Reloc>)
    requires Unrelocated(inp, None, rs).Some?
    ensures Unrelocated(inp, None, rs).value == []
    decreases |rs|
  {
    if rs != [] {
      NothingToUndo(inp, rs[1..]);
    }
  }

  /** Nothing has moved, and the commands so far are emitted as they are. */
  predicate Unmoved(inp: Input, cs: seq<Command>, s: Dump) {
    match s
    case Dump(_, delta, hdr, ncmds, data, emitted) =>
      && delta == 0 && hdr == MACH_HDR + |CommandsBytes(inp.codec, cs)| && ncmds == |inp.cmds| && data.None?
      && emitted == cs
  }

  lemma UnmovedStep(inp: Input, cs: seq<Command>, s: Dump, c: Command)
    requires Unmoved(inp, cs, s) && !IsData(c) && DumpCommand(inp, s, c).Some?
    ensures Unmoved(inp, cs + [c], DumpCommand(inp, s, c).value)
  {
    ShiftByZero(c);
    CommandsBytesAppend(inp.codec, cs, c);
  }

  /** As far as the run gets, nothing moves up to the data segment. */
  lemma {:induction false} PreUnmoved(inp: Input, d: nat, i: nat)
    requires WellFormed(inp, d) && i <= d && At(inp, i).Some?
    ensures Unmoved(inp, inp.cmds[..i], At(inp, i).value)
    decreases i
  {
    if i > 0 {
      PreUnmoved(inp, d, i - 1);
      assert PreOk(DataSeg(inp, d), inp.cmds[i - 1]);
      UnmovedStep(inp, inp.cmds[..i - 1], At(inp, i - 1).value, inp.cmds[i - 1]);
      TakeNext(inp.cmds, i - 1);
    }
  }

  lemma PreState(inp: Input, d: nat, i: nat)
    requires Dumped(inp, d) && i <= d
    ensures At(inp, i).Some? && Unmoved(inp, inp.cmds[..i], At(inp, i).value)
  {
    HeaderRoom(inp, d, i);
    PreUnmoved(inp, d, i);
  }

  /** The commands' bytes lie in the input file one behind the other. */
  lemma {:induction false} CommandsBytesPrefix(codec: Codec, cs: seq<Command>, i: nat)
    requires i <= |cs|
    ensures |CommandsBytes(codec, cs[..i])| <= |CommandsBytes(codec, cs)|
    ensures CommandsBytes(codec, cs)[..|CommandsBytes(codec, cs[..i])|] == CommandsBytes(codec, cs[..i])
    decreases |cs| - i
  {
    if i == |cs| {
      assert cs[..i] == cs;
    } else {
      assert cs[..i + 1] == cs[..i] + [cs[i]];
      CommandsBytesAppend(codec, cs[..i], cs[i]);
      CommandsBytesPrefix(codec, cs, i + 1);
      var all, more := CommandsBytes(codec, cs), CommandsBytes(codec, cs[..i + 1]);
      assert all[..|more|][..|CommandsBytes(codec, cs[..i])|] == CommandsBytes(codec, cs[..i]);
    }
  }

  lemma PrefixByte(a: seq<byte>, b: seq<byte>, k: nat)
    requires |a| <= |b| && b[..|a|] == a && k < |a|
    ensures b[k] == a[k]
  {
  }

  lemma EmitLast(inp: Input, s: Dump, writes: seq<Patch>, c: Command, k: nat)
    ensures LastByte(Emit(inp, s, writes, c).log, k)
         == OrElse(Patch(s.hdr, CommandBytes(inp.codec, c)).Byte(k), OrElse(LastByte(writes, k), LastByte(s.log, k)))
  {
    var head := Patch(s.hdr, CommandBytes(inp.codec, c));
    OneLast(head, k);
    LastByteAppend(writes, [head], k);
    LastByteAppend(s.log, writes + [head], k);
  }

  /** What any other command leaves at offset k: its own bytes, its contents, or what was there. */
  lemma StepLast(inp: Input, s: Dump, c: Command, k: nat)
    requires !IsData(c) && DumpCommand(inp, s, c).Some?
    ensures var s' := DumpCommand(inp, s, c).value;
      var bytes := CommandBytes(inp.codec, ShiftCommand(c, s.delta));
      && ContentWrites(inp, s, c).Some? && s'.hdr == s.hdr + |bytes|
      && LastByte(s'.log, k)
         == OrElse(Patch(s.hdr, bytes).Byte(k),
                   OrElse(LastByte(ContentWrites(inp, s, c).value, k), LastByte(s.log, k)))
  {
    EmitLast(inp, s, ContentWrites(inp, s, c).value, ShiftCommand(c, s.delta), k);
  }

  /** The last write to offset k put the input file's own byte there. */
  predicate FromInput(inp: Input, s: Dump, k: nat) {
    k < |inp.file| && LastByte(s.log, k) == Some(inp.file[k])
  }

  predicate InExtent(c: Command, k: nat) {
    c.LcSegment? && c.seg.fileoff <= k < c.seg.fileoff + c.seg.filesize
  }

  /** Contents of a command that does not move: a copy to the same place, or nothing. */
  lemma UnmovedContentLast(inp: Input, s: Dump, c: Command, k: nat)
    requires s.delta == 0 && s.data.None? && ContentWrites(inp, s, c).Some?
    ensures InExtent(c, k) ==> k < |inp.file|
    ensures LastByte(ContentWrites(inp, s, c).value, k) == if InExtent(c, k) then Some(inp.file[k]) else None
  {
    match c {
      case LcSegment(seg) => CopiedLast(inp, seg.fileoff, seg.fileoff, seg.filesize, k);
      case LcDysymtab(_, _, _, _, _, _, _, local, external) => NothingToUndo(inp, local + external);
      case _ =>
    }
  }

  lemma CommandsBytesNext(codec: Codec, cs: seq<Command>, i: nat)
    requires i < |cs|
    ensures CommandsBytes(codec, cs[..i + 1]) == CommandsBytes(codec, cs[..i]) + CommandBytes(codec, cs[i])
  {
    assert cs[..i + 1] == cs[..i] + [cs[i]];
    CommandsBytesAppend(codec, cs[..i], cs[i]);
  }

  /** The bytes of command i, as they lie among those of the commands up to it. */
  lemma CommandByte(codec: Codec, cs: seq<Command>, i: nat, j: nat)
    requires i < |cs| && j < |CommandBytes(codec, cs[i])|
    ensures var before := |CommandsBytes(codec, cs[..i])|;
      before + j < |CommandsBytes(codec, cs[..i + 1])|
      && CommandsBytes(codec, cs[..i + 1])[before + j] == CommandBytes(codec, cs[i])[j]
  {
    CommandsBytesNext(codec, cs, i);
  }

  /** The command emitted in front of the data segment is what the input file has in its place. */
  lemma PreHeadByte(codec: Codec, cs: seq<Command>, file: seq<byte>, i: nat, at: nat, k: nat)
    requires InFile(codec, cs, file) && i < |cs|
    requires at == MACH_HDR + |CommandsBytes(codec, cs[..i])|
    requires at <= k < at + |CommandBytes(codec, cs[i])|
    ensures k < |file| && CommandBytes(codec, cs[i])[k - at] == file[k]
  {
    CommandByte(codec, cs, i, k - at);
    CommandsBytesPrefix(codec, cs, i + 1);
    PrefixByte(CommandsBytes(codec, cs[..i + 1]), CommandsBytes(codec, cs), k - MACH_HDR);
  }

  /** A command that does not move anything, in terms of the input file's own bytes. */
  lemma UnmovedStepLast(inp: Input, s: Dump, c: Command, k: nat)
    requires !IsData(c) && DumpCommand(inp, s, c).Some? && s.delta == 0 && s.data.None?
    ensures var s' := DumpCommand(inp, s, c).value;
      && s'.hdr == s.hdr + |CommandBytes(inp.codec, c)|
      && (InExtent(c, k) ==> k < |inp.file|)
      && LastByte(s'.log, k)
         == if s.hdr <= k < s'.hdr then Some(CommandBytes(inp.codec, c)[k - s.hdr])
            else if InExtent(c, k) then Some(inp.file[k])
            else LastByte(s.log, k)
  {
    StepLast(inp, s, c, k);
    ShiftByZero(c);
    UnmovedContentLast(inp, s, c, k);
  }

  /** One command in front of the data segment: wherever it writes, it writes the input file's byte. */
  lemma PreStepLast(inp: Input, s: Dump, i: nat, k: nat)
    requires i < |inp.cmds| && InFile(inp.codec, inp.cmds, inp.file) && Unmoved(inp, inp.cmds[..i], s)
    requires !IsData(inp.cmds[i]) && DumpCommand(inp, s, inp.cmds[i]).Some?
    ensures var s' := DumpCommand(inp, s, inp.cmds[i]).value;
      && s.hdr <= s'.hdr
      && if s.hdr <= k < s'.hdr || InExtent(inp.cmds[i], k) then FromInput(inp, s', k)
         else LastByte(s'.log, k) == LastByte(s.log, k)
  {
    UnmovedStepLast(inp, s, inp.cmds[i], k);
    if s.hdr <= k < s.hdr + |CommandBytes(inp.codec, inp.cmds[i])| {
      PreHeadByte(inp.codec, inp.cmds, inp.file, i, s.hdr, k);
    }
  }

  /** One of the first i commands has offset k in its file contents. */
  predicate Covered(cs: seq<Command>, i: nat, k: nat)
    requires i <= |cs|
  {
    i > 0 && (InExtent(cs[i - 1], k) || Covered(cs, i - 1, k))
  }

  lemma {:induction false} CoveredBy(cs: seq<Command>, j: nat, i: nat, k: nat)
    requires j < i <= |cs| && InExtent(cs[j], k)
    ensures Covered(cs, i, k)
    decreases i
  {
    if j < i - 1 {
      CoveredBy(cs, j, i - 1, k);
    }
  }

  /**
   * Every write so far put the input file's own byte where the input has it, even where copying the text
   * segment wrote over commands emitted before; and nothing is left out.
   */
  ghost predicate PreAt(inp: Input, i: nat, k: nat)
    requires i <= |inp.cmds|
  {
    match At(inp, i)
    case Some(s) =>
      if MACH_HDR <= k < s.hdr || Covered(inp.cmds, i, k) then FromInput(inp, s, k)
      else LastByte(s.log, k).Some? ==> FromInput(inp, s, k)
    case None => false
  }

  lemma PreAtNext(inp: Input, i: nat, k: nat)
    requires i < |inp.cmds| && InFile(inp.codec, inp.cmds, inp.file) && !IsData(inp.cmds[i])
    requires At(inp, i + 1).Some? && At(inp, i).Some? && Unmoved(inp, inp.cmds[..i], At(inp, i).value)
    requires PreAt(inp, i, k)
    ensures PreAt(inp, i + 1, k)
  {
    PreStepLast(inp, At(inp, i).value, i, k);
  }

  lemma PreNext(inp: Input, d: nat, i: nat, k: nat)
    requires Dumped(inp, d) && i < d && PreAt(inp, i, k)
    ensures PreAt(inp, i + 1, k)
  {
    PreState(inp, d, i);
    HeaderRoom(inp, d, i + 1);
    assert PreOk(DataSeg(inp, d), inp.cmds[i]);
    PreAtNext(inp, i, k);
  }

  lemma {:induction false} PreLast(inp: Input, d: nat, i: nat, k: nat)
    requires Dumped(inp, d) && i <= d
    ensures PreAt(inp, i, k)
    decreases i
  {
    if i > 0 {
      PreLast(inp, d, i - 1, k);
      PreNext(inp, d, i - 1, k);
    }
  }

  // ---- The data segment ----

  function RegionBase(inp: Input, d: nat): nat
    requires d < |inp.cmds| && inp.cmds[d].LcSegment?
  {
    DataSeg(inp, d).fileoff + DataSeg(inp, d).vmsize
  }

  /** What dumping the data segment and the regions adds to the log. */
  function DataWrites(inp: Input, hdr: nat, seg: Segment, sections: seq<Patch>, base: u32): seq<Patch> {
    sections + [Patch(hdr, inp.codec.segment(PlaceData(seg)))]
      + RegionWrites(inp, hdr + SEG_HDR + SECT_HDR * |seg.sections|, base, inp.regions)
  }

  function Placed(inp: Input, d: nat): Command
    requires d < |inp.cmds| && inp.cmds[d].LcSegment?
  {
    LcSegment(PlaceData(DataSeg(inp, d)))
  }

  function NewCommands(inp: Input, d: nat): seq<Command>
    requires d < |inp.cmds| && inp.cmds[d].LcSegment? && RegionBase(inp, d) < TWO32
  {
    RegionCommands(inp.regions, RegionBase(inp, d))
  }

  /** The header behind the data segment's command. */
  function RegionHdr(s: Dump, seg: Segment): nat {
    s.hdr + SEG_HDR + SECT_HDR * |seg.sections|
  }

  /** The state that `r` is once the regions follow the data segment's command. */
  ghost predicate AfterData(inp: Input, s: Dump, seg: Segment, sections: seq<Patch>, base: u32, r: Dump) {
    match r
    case Dump(log, delta, hdr, ncmds, data, emitted) =>
      && log == s.log + DataWrites(inp, s.hdr, seg, sections, base)
      && delta == seg.vmsize - seg.filesize + SizeSum(inp.regions)
      && hdr == RegionHdr(s, seg) + SEG_HDR * |inp.regions|
      && ncmds == s.ncmds + |inp.regions|
      && data == Some(DataSegment(seg.fileoff, PlaceData(seg)))
      && emitted == s.emitted + [LcSegment(PlaceData(seg))] + RegionCommands(inp.regions, base)
  }

  lemma WriteDataStep(inp: Input, s: Dump, seg: Segment, sections: seq<Patch>, base: u32)
    requires seg.filesize <= seg.vmsize && seg.vmsize + SizeSum(inp.regions) < TWO32
    ensures AfterData(inp, s, seg, sections, base,
                      WriteRegions(inp, WriteData(inp, s, seg, sections), base, inp.regions))
  {
    var w := WriteData(inp, s, seg, sections);
    var head := [Patch(s.hdr, inp.codec.segment(PlaceData(seg)))];
    RegionsState(inp, w, base, inp.regions);
    Reassociate(s.log, sections + head, RegionWrites(inp, w.hdr, base, inp.regions));
  }

  /** `r` follows `s` in that the data segment's sections and command and the regions were written. */
  ghost predicate DataDone(inp: Input, s: Dump, seg: Segment, base: u32, r: Dump) {
    match SectionWrites(inp, s.hdr + SEG_HDR, seg, seg.sections)
    case Some(sections) => AfterData(inp, s, seg, sections, base, r)
    case None => false
  }

  /** The state behind the data segment's command and the regions. */
  lemma DataStep(inp: Input, s: Dump, c: Command, base: u32)
    requires IsData(c) && DumpCommand(inp, s, c).Some? && c.seg.filesize <= c.seg.vmsize
    requires base == c.seg.fileoff + c.seg.vmsize && base + SizeSum(inp.regions) < TWO32
    ensures DataDone(inp, s, c.seg, base, DumpCommand(inp, s, c).value)
  {
    WriteDataStep(inp, s, c.seg, SectionWrites(inp, s.hdr + SEG_HDR, c.seg, c.seg.sections).value, base);
  }

  lemma DataWritesLast(inp: Input, hdr: nat, seg: Segment, sections: seq<Patch>, base: u32, k: nat)
    ensures LastByte(DataWrites(inp, hdr, seg, sections, base), k)
         == OrElse(LastByte(RegionWrites(inp, hdr + SEG_HDR + SECT_HDR * |seg.sections|, base, inp.regions), k),
                   OrElse(Patch(hdr, inp.codec.segment(PlaceData(seg))).Byte(k), LastByte(sections, k)))
  {
    var head := Patch(hdr, inp.codec.segment(PlaceData(seg)));
    OneLast(head, k);
    LastByteAppend(sections, [head], k);
    var regions := RegionWrites(inp, hdr + SEG_HDR + SECT_HDR * |seg.sections|, base, inp.regions);
    LastByteAppend(sections + [head], regions, k);
  }

  /** What the data segment's command and the regions leave at offset k. */
  lemma AfterDataLast(inp: Input, s: Dump, seg: Segment, sections: seq<Patch>, base: u32, r: Dump, k: nat)
    requires r.log == s.log + DataWrites(inp, s.hdr, seg, sections, base)
    ensures LastByte(r.log, k)
         == OrElse(LastByte(RegionWrites(inp, RegionHdr(s, seg), base, inp.regions), k),
                   OrElse(Patch(s.hdr, inp.codec.segment(PlaceData(seg))).Byte(k),
                          OrElse(LastByte(sections, k), LastByte(s.log, k))))
  {
    DataWritesLast(inp, s.hdr, seg, sections, base, k);
    LastByteAppend(s.log, DataWrites(inp, s.hdr, seg, sections, base), k);
  }

  // ---- Where sections lie ----

  lemma SectionPlaced(seg: Segment, sec: Section)
    requires SectionInside(seg, sec) && seg.fileoff + seg.vmsize < TWO32
    ensures SectionOffset(seg, sec) == seg.fileoff + (sec.addr - seg.vmaddr)
  {
  }

  /** Outside the data segment's file contents there are no sections. */
  lemma {:induction false} NoSectionOutside(seg: Segment, ss: seq<Section>, k: nat)
    requires forall j :: 0 <= j < |ss| ==> SectionInside(seg, ss[j])
    requires seg.fileoff + seg.vmsize < TWO32 && !(seg.fileoff <= k < seg.fileoff + seg.vmsize)
    ensures OutsideSections(seg, ss, k)
    decreases |ss|
  {
    if ss != [] {
      assert SectionInside(seg, ss[0]);
      SectionPlaced(seg, ss[0]);
      NoSectionOutside(seg, ss[1..], k);
    }
  }

  lemma {:induction false} OthersOutside(seg: Segment, sec: Section, ss: seq<Section>, k: nat)
    requires forall j :: 0 <= j < |ss| ==> SectionInside(seg, ss[j]) && DisjointSections(sec, ss[j])
    requires SectionInside(seg, sec) && seg.fileoff + seg.vmsize < TWO32 && InSection(seg, sec, k)
    ensures OutsideSections(seg, ss, k)
    decreases |ss|
  {
    if ss != [] {
      assert SectionInside(seg, ss[0]) && DisjointSections(sec, ss[0]);
      SectionPlaced(seg, sec);
      SectionPlaced(seg, ss[0]);
      OthersOutside(seg, sec, ss[1..], k);
    }
  }

  lemma {:induction false} OnlyInOne(seg: Segment, ss: seq<Section>, j: nat, k: nat)
    requires j < |ss| && seg.fileoff + seg.vmsize < TWO32 && InSection(seg, ss[j], k)
    requires forall i :: 0 <= i < |ss| ==> SectionInside(seg, ss[i])
    requires forall i, l :: 0 <= i < l < |ss| ==> DisjointSections(ss[i], ss[l])
    ensures OnlyIn(seg, ss, j, k)
    decreases |ss|
  {
    if j == 0 {
      forall i | 0 <= i < |ss[1..]|
        ensures SectionInside(seg, ss[1..][i]) && DisjointSections(ss[0], ss[1..][i])
      {
        assert ss[1..][i] == ss[i + 1];
      }
      OthersOutside(seg, ss[0], ss[1..], k);
    } else {
      assert DisjointSections(ss[0], ss[j]);
      SectionPlaced(seg, ss[0]);
      SectionPlaced(seg, ss[j]);
      OnlyInOne(seg, ss[1..], j - 1, k);
    }
  }
}
