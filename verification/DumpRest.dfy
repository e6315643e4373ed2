/** The commands behind the data segment: their contents move, and relocation entries are undone. */
module DumpRest {
  import opened Bytes
  import opened Regions
  import opened MachO
  import opened DumpSpec
  import opened DumpWrites
  import opened DumpRun

  // ---- Relocations ----

  /** The entry's bytes, where the data segment has them in the file, include offset k. */
  predicate RelocTouches(seg: Segment, r: Reloc, k: nat) {
    r.Vanilla? && InSegment(seg, r.address)
    && seg.fileoff + (r.address - seg.vmaddr) <= k < seg.fileoff + (r.address - seg.vmaddr) + RelocBytes(r)
  }

  predicate Undone(seg: Segment, rs: seq<Reloc>, k: nat) {
    rs != [] && (RelocTouches(seg, rs[0], k) || Undone(seg, rs[1..], k))
  }

  lemma RelocLast(inp: Input, seg: Segment, r: Reloc, k: nat)
    requires RelocWrites(inp, Some(DataSegment(seg.fileoff, seg)), r).Some? && seg.fileoff + seg.vmsize < TWO32
    ensures RelocTouches(seg, r, k) ==> k < |inp.file|
    ensures LastByte(RelocWrites(inp, Some(DataSegment(seg.fileoff, seg)), r).value, k)
         == if RelocTouches(seg, r, k) then Some(inp.file[k]) else None
  {
    if r.Vanilla? && InSegment(seg, r.address) {
      var at := seg.fileoff + (r.address - seg.vmaddr);
      CopiedLast(inp, at, at, RelocBytes(r), k);
    }
  }

  /** Undoing relocations puts the input file's own bytes back where the data segment has them. */
  lemma {:induction false} UnrelocatedLast(inp: Input, seg: Segment, rs: seq<Reloc>, k: nat)
    requires Unrelocated(inp, Some(DataSegment(seg.fileoff, seg)), rs).Some? && seg.fileoff + seg.vmsize < TWO32
    ensures Undone(seg, rs, k) ==> k < |inp.file|
    ensures LastByte(Unrelocated(inp, Some(DataSegment(seg.fileoff, seg)), rs).value, k)
         == if Undone(seg, rs, k) then Some(inp.file[k]) else None
    decreases |rs|
  {
    if rs != [] {
      var data := Some(DataSegment(seg.fileoff, seg));
      RelocLast(inp, seg, rs[0], k);
      UnrelocatedLast(inp, seg, rs[1..], k);
      LastByteAppend(RelocWrites(inp, data, rs[0]).value, Unrelocated(inp, data, rs[1..]).value, k);
    }
  }

  lemma {:induction false} UndoneInside(seg: Segment, rs: seq<Reloc>, k: nat)
    requires RelocsInside(seg, rs) && Undone(seg, rs, k)
    ensures seg.fileoff <= k < seg.fileoff + seg.vmsize
    decreases |rs|
  {
    if !RelocTouches(seg, rs[0], k) {
      UndoneInside(seg, rs[1..], k);
    }
  }

  // ---- One command ----

  predicate CommandUndoes(seg: Segment, c: Command, k: nat) {
    c.LcDysymtab? && Undone(seg, c.local + c.external, k)
  }

  /** Its file contents end up by `growth` further on. */
  predicate InMoved(c: Command, growth: nat, k: nat) {
    growth <= k && InExtent(c, k - growth)
  }

  /** Contents of a command behind the data segment `seg`, which `growth` was added for. */
  lemma MovedContentLast(inp: Input, s: Dump, seg: Segment, c: Command, k: nat)
    requires s.data == Some(DataSegment(seg.fileoff, seg)) && ContentWrites(inp, s, c).Some?
    requires seg.fileoff + seg.vmsize < TWO32
    requires c.LcSegment? && 0 < c.seg.filesize ==> c.seg.fileoff + s.delta < TWO32
    ensures InMoved(c, s.delta, k) ==> k - s.delta < |inp.file|
    ensures CommandUndoes(seg, c, k) ==> k < |inp.file|
    ensures LastByte(ContentWrites(inp, s, c).value, k)
         == if InMoved(c, s.delta, k) then Some(inp.file[k - s.delta])
            else if CommandUndoes(seg, c, k) then Some(inp.file[k]) else None
  {
    match c {
      case LcSegment(moved) => CopiedLast(inp, Add32(moved.fileoff, s.delta), moved.fileoff, moved.filesize, k);
      case LcDysymtab(_, _, _, _, _, _, _, local, external) => UnrelocatedLast(inp, seg, local + external, k);
      case _ =>
    }
  }

  /** The state keeps everything but the log, the header's end and the commands emitted. */
  lemma RestStep(inp: Input, s: Dump, c: Command)
    requires !IsData(c) && DumpCommand(inp, s, c).Some?
    ensures var s' := DumpCommand(inp, s, c).value;
      && s'.delta == s.delta && s'.data == s.data && s'.ncmds == s.ncmds
      && s'.hdr == s.hdr + |CommandBytes(inp.codec, ShiftCommand(c, s.delta))|
      && s'.emitted == s.emitted + [ShiftCommand(c, s.delta)]
  {
  }

  /** What the command leaves at offset k: its own bytes, its contents, an undone relocation, or what was there. */
  lemma RestStepLast(inp: Input, s: Dump, seg: Segment, c: Command, k: nat)
    requires !IsData(c) && DumpCommand(inp, s, c).Some? && s.data == Some(DataSegment(seg.fileoff, seg))
    requires seg.fileoff + seg.vmsize < TWO32
    requires c.LcSegment? && 0 < c.seg.filesize ==> c.seg.fileoff + s.delta < TWO32
    ensures InMoved(c, s.delta, k) ==> k - s.delta < |inp.file|
    ensures CommandUndoes(seg, c, k) ==> k < |inp.file|
    ensures var s' := DumpCommand(inp, s, c).value;
      && s'.hdr == s.hdr + |CommandBytes(inp.codec, ShiftCommand(c, s.delta))|
      && LastByte(s'.log, k)
         == if s.hdr <= k < s'.hdr then Some(CommandBytes(inp.codec, ShiftCommand(c, s.delta))[k - s.hdr])
            else if InMoved(c, s.delta, k) then Some(inp.file[k - s.delta])
            else if CommandUndoes(seg, c, k) then Some(inp.file[k])
            else LastByte(s.log, k)
  {
    StepLast(inp, s, c, k);
    MovedContentLast(inp, s, seg, c, k);
  }

  // ---- The header under construction ----

  /** At offset k the header holds the commands emitted so far, one behind the other. */
  predicate HeaderAt(codec: Codec, s: Dump, k: nat) {
    && s.hdr == MACH_HDR + |CommandsBytes(codec, s.emitted)|
    && (MACH_HDR <= k < s.hdr ==> LastByte(s.log, k) == Some(CommandsBytes(codec, s.emitted)[k - MACH_HDR]))
  }

  lemma RestHeaderStep(inp: Input, s: Dump, seg: Segment, c: Command, k: nat)
    requires !IsData(c) && DumpCommand(inp, s, c).Some? && s.data == Some(DataSegment(seg.fileoff, seg))
    requires seg.fileoff + seg.vmsize < TWO32
    requires c.LcSegment? && 0 < c.seg.filesize ==> c.seg.fileoff + s.delta < TWO32
    requires HeaderAt(inp.codec, s, k) && !InMoved(c, s.delta, k) && !CommandUndoes(seg, c, k)
    ensures HeaderAt(inp.codec, DumpCommand(inp, s, c).value, k)
  {
    RestStepLast(inp, s, seg, c, k);
    RestStep(inp, s, c);
    CommandsBytesAppend(inp.codec, s.emitted, ShiftCommand(c, s.delta));
  }

  lemma {:induction false} CommandsBytesJoin(codec: Codec, a: seq<Command>, b: seq<Command>)
    ensures CommandsBytes(codec, a + b) == CommandsBytes(codec, a) + CommandsBytes(codec, b)
    decreases |b|
  {
    if b == [] {
      assert a + b == a;
    } else {
      var front, last := b[..|b| - 1], b[|b| - 1];
      assert a + b == (a + front) + [last] && b == front + [last];
      CommandsBytesJoin(codec, a, front);
      CommandsBytesAppend(codec, a + front, last);
      CommandsBytesAppend(codec, front, last);
      Reassociate(CommandsBytes(codec, a), CommandsBytes(codec, front), CommandBytes(codec, last));
    }
  }

  function DataHeadsSize(seg: Segment, rs: seq<Range>): nat {
    SEG_HDR + SECT_HDR * |seg.sections| + SEG_HDR * |rs|
  }

  /** The part of the header that the data segment and the regions take up. */
  function DataHeads(codec: Codec, seg: Segment, rs: seq<Range>, base: u32): (heads: seq<byte>)
    ensures |heads| == DataHeadsSize(seg, rs)
  {
    codec.segment(PlaceData(seg)) + SectionHeads(codec, seg, seg.sections) + RegionHeads(codec, rs, base)
  }

  lemma DataHeadsAreCommands(codec: Codec, before: seq<Command>, seg: Segment, rs: seq<Range>, base: u32)
    ensures CommandsBytes(codec, before + [LcSegment(PlaceData(seg))] + RegionCommands(rs, base))
         == CommandsBytes(codec, before) + DataHeads(codec, seg, rs, base)
  {
    var placed := LcSegment(PlaceData(seg));
    CommandsBytesJoin(codec, before + [placed], RegionCommands(rs, base));
    CommandsBytesAppend(codec, before, placed);
    SectionHeadsArePlaced(codec, seg, seg.sections);
    RegionHeadsAreCommands(codec, rs, base);
    Reassociate(CommandsBytes(codec, before), CommandBytes(codec, placed), RegionHeads(codec, rs, base));
  }

  /** What the data segment's sections leave in front of its contents: only their headers. */
  lemma SectionsHeadsLast(inp: Input, at: nat, seg: Segment, ss: seq<Section>, k: nat)
    requires SectionWrites(inp, at, seg, ss).Some? && OutsideSections(seg, ss, k)
    ensures LastByte(SectionWrites(inp, at, seg, ss).value, k) == Patch(at, SectionHeads(inp.codec, seg, ss)).Byte(k)
  {
    if at <= k < at + SECT_HDR * |ss| {
      SectionHeadersLast(inp, at, seg, ss, k - at);
    } else {
      OutsideLast(inp, at, seg, ss, k);
    }
  }

  /** The same for the regions. */
  lemma RegionsHeadsLast(inp: Input, hdr: nat, base: u32, rs: seq<Range>, k: nat)
    requires base + SizeSum(rs) < TWO32 && hdr + SEG_HDR * |rs| <= base && k < base
    ensures LastByte(RegionWrites(inp, hdr, base, rs), k) == Patch(hdr, RegionHeads(inp.codec, rs, base)).Byte(k)
  {
    if hdr <= k < hdr + SEG_HDR * |rs| {
      RegionHeadersLast(inp, hdr, base, rs, k - hdr);
    } else {
      OutsideRegionsLast(inp, hdr, base, rs, k);
    }
  }

  /** Three pieces side by side are one. */
  lemma ThreePieces(hdr: nat, a: seq<byte>, b: seq<byte>, c: seq<byte>, second: nat, third: nat, k: nat)
    requires second == hdr + |a| && third == second + |b|
    ensures OrElse(Patch(third, c).Byte(k), OrElse(Patch(hdr, a).Byte(k), Patch(second, b).Byte(k)))
         == Patch(hdr, a + b + c).Byte(k)
  {
  }

  /** What the data segment's writes leave in front of its contents: its header, its sections', the regions'. */
  lemma DataHeadsLast(inp: Input, hdr: nat, seg: Segment, sections: seq<Patch>, base: u32, k: nat)
    requires SectionWrites(inp, hdr + SEG_HDR, seg, seg.sections) == Some(sections)
    requires base + SizeSum(inp.regions) < TWO32 && OutsideSections(seg, seg.sections, k)
    requires hdr + DataHeadsSize(seg, inp.regions) <= base && k < hdr + DataHeadsSize(seg, inp.regions)
    ensures LastByte(DataWrites(inp, hdr, seg, sections, base), k)
         == Patch(hdr, DataHeads(inp.codec, seg, inp.regions, base)).Byte(k)
  {
    var second, third := hdr + SEG_HDR, hdr + SEG_HDR + SECT_HDR * |seg.sections|;
    DataWritesLast(inp, hdr, seg, sections, base, k);
    SectionsHeadsLast(inp, second, seg, seg.sections, k);
    RegionsHeadsLast(inp, third, base, inp.regions, k);
    ThreePieces(hdr, inp.codec.segment(PlaceData(seg)), SectionHeads(inp.codec, seg, seg.sections),
                RegionHeads(inp.codec, inp.regions, base), second, third, k);
  }

  /** Bytes written behind the header belong to it, if they are those of the commands added. */
  lemma HeaderExtends(codec: Codec, s: Dump, r: Dump, more: seq<byte>, k: nat)
    requires HeaderAt(codec, s, k) && r.hdr == s.hdr + |more|
    requires CommandsBytes(codec, r.emitted) == CommandsBytes(codec, s.emitted) + more
    requires k < r.hdr ==> LastByte(r.log, k) == OrElse(Patch(s.hdr, more).Byte(k), LastByte(s.log, k))
    ensures HeaderAt(codec, r, k)
  {
  }

  lemma DataHeaderStep(inp: Input, s: Dump, seg: Segment, sections: seq<Patch>, base: u32, r: Dump, k: nat)
    requires SectionWrites(inp, s.hdr + SEG_HDR, seg, seg.sections) == Some(sections)
    requires AfterData(inp, s, seg, sections, base, r) && base + SizeSum(inp.regions) < TWO32
    requires r.hdr <= base && OutsideSections(seg, seg.sections, k) && HeaderAt(inp.codec, s, k)
    ensures HeaderAt(inp.codec, r, k)
  {
    DataHeadsAreCommands(inp.codec, s.emitted, seg, inp.regions, base);
    if k < r.hdr {
      DataHeadsLast(inp, s.hdr, seg, sections, base, k);
      LastByteAppend(s.log, DataWrites(inp, s.hdr, seg, sections, base), k);
    }
    HeaderExtends(inp.codec, s, r, DataHeads(inp.codec, seg, inp.regions, base), k);
  }

  // ---- The run ----

  /** The state behind the data segment's command, as far as the run gets. */
  lemma DataReached(inp: Input, d: nat)
    requires WellFormed(inp, d) && At(inp, d + 1).Some?
    ensures At(inp, d).Some? && Unmoved(inp, inp.cmds[..d], At(inp, d).value)
    ensures DataDone(inp, At(inp, d).value, DataSeg(inp, d), RegionBase(inp, d), At(inp, d + 1).value)
  {
    PreUnmoved(inp, d, d);
    DataStep(inp, At(inp, d).value, inp.cmds[d], RegionBase(inp, d));
  }

  lemma DataState(inp: Input, d: nat)
    requires Dumped(inp, d)
    ensures At(inp, d).Some? && At(inp, d + 1).Some?
    ensures Unmoved(inp, inp.cmds[..d], At(inp, d).value)
    ensures DataDone(inp, At(inp, d).value, DataSeg(inp, d), RegionBase(inp, d), At(inp, d + 1).value)
  {
    HeaderRoom(inp, d, d + 1);
    DataReached(inp, d);
  }

  function Shifted(cs: seq<Command>, delta: u32): (r: seq<Command>)
    ensures |r| == |cs|
  {
    if cs == [] then [] else Shifted(cs[..|cs| - 1], delta) + [ShiftCommand(cs[|cs| - 1], delta)]
  }

  /** The commands in front of the data segment, its own, and those of the regions. */
  function Front(inp: Input, d: nat): seq<Command>
    requires d < |inp.cmds| && inp.cmds[d].LcSegment? && RegionBase(inp, d) < TWO32
  {
    inp.cmds[..d] + [Placed(inp, d)] + NewCommands(inp, d)
  }

  /** Everything behind the data segment moves by the same amount. */
  predicate Moved(inp: Input, placed: Segment, growth: u32, front: seq<Command>, cs: seq<Command>, s: Dump) {
    match s
    case Dump(_, delta, _, ncmds, data, emitted) =>
      && delta == growth && ncmds == |inp.cmds| + |inp.regions| && data == Some(DataSegment(placed.fileoff, placed))
      && emitted == front + Shifted(cs, growth)
  }

  lemma MovedStep(inp: Input, placed: Segment, growth: u32, front: seq<Command>, cs: seq<Command>, s: Dump, c: Command)
    requires Moved(inp, placed, growth, front, cs, s) && !IsData(c) && DumpCommand(inp, s, c).Some?
    ensures Moved(inp, placed, growth, front, cs + [c], DumpCommand(inp, s, c).value)
  {
    RestStep(inp, s, c);
    assert (cs + [c])[..|cs|] == cs;
    Reassociate(front, Shifted(cs, growth), [ShiftCommand(c, growth)]);
  }

  lemma DataMoved(inp: Input, s: Dump, cs: seq<Command>, seg: Segment, base: u32, r: Dump)
    requires Unmoved(inp, cs, s) && DataDone(inp, s, seg, base, r)
    ensures r.delta == seg.vmsize - seg.filesize + SizeSum(inp.regions)
    ensures Moved(inp, PlaceData(seg), r.delta, cs + [LcSegment(PlaceData(seg))] + RegionCommands(inp.regions, base),
                  [], r)
  {
    var front := cs + [LcSegment(PlaceData(seg))] + RegionCommands(inp.regions, base);
    assert front + [] == front;
  }

  /** In front of command i, behind the data segment. */
  predicate MovedAt(inp: Input, placed: Segment, growth: u32, front: seq<Command>, d: nat, i: nat)
    requires d < i <= |inp.cmds|
  {
    match At(inp, i)
    case Some(s) => Moved(inp, placed, growth, front, inp.cmds[d + 1..i], s)
    case None => false
  }

  lemma MovedFirst(inp: Input, d: nat)
    requires WellFormed(inp, d) && At(inp, d + 1).Some?
    ensures RestMoved(inp, d, d + 1)
  {
    DataReached(inp, d);
    DataMoved(inp, At(inp, d).value, inp.cmds[..d], DataSeg(inp, d), RegionBase(inp, d), At(inp, d + 1).value);
  }

  lemma MovedNext(inp: Input, placed: Segment, growth: u32, front: seq<Command>, d: nat, i: nat)
    requires d < i < |inp.cmds| && !IsData(inp.cmds[i]) && At(inp, i + 1).Some?
    requires MovedAt(inp, placed, growth, front, d, i)
    ensures MovedAt(inp, placed, growth, front, d, i + 1)
  {
    MovedStep(inp, placed, growth, front, inp.cmds[d + 1..i], At(inp, i).value, inp.cmds[i]);
    SliceNext(inp.cmds, d + 1, i);
  }

  ghost predicate RestMoved(inp: Input, d: nat, i: nat)
    requires WellFormed(inp, d) && d < i <= |inp.cmds|
  {
    MovedAt(inp, Placed(inp, d).seg, Growth(inp, d), Front(inp, d), d, i)
  }

  lemma RestMovedNext(inp: Input, d: nat, i: nat)
    requires WellFormed(inp, d) && d < i < |inp.cmds| && RestMoved(inp, d, i) && At(inp, i + 1).Some?
    ensures RestMoved(inp, d, i + 1)
  {
    assert PostOk(DataSeg(inp, d), Growth(inp, d), inp.cmds[i]);
    MovedNext(inp, Placed(inp, d).seg, Growth(inp, d), Front(inp, d), d, i);
  }

  /**
   * Behind the data segment, as far as the run gets, every command is emitted with its offsets moved by
   * the same amount.
   */
  lemma {:induction false} RestMoves(inp: Input, d: nat, i: nat)
    requires WellFormed(inp, d) && d < i <= |inp.cmds| && At(inp, i).Some?
    ensures RestMoved(inp, d, i)
    decreases i
  {
    if i == d + 1 {
      MovedFirst(inp, d);
    } else {
      RestMoves(inp, d, i - 1);
      RestMovedNext(inp, d, i - 1);
    }
  }

  lemma RestState(inp: Input, d: nat, i: nat)
    requires Dumped(inp, d) && d < i <= |inp.cmds|
    ensures RestMoved(inp, d, i)
  {
    HeaderRoom(inp, d, i);
    RestMoves(inp, d, i);
  }

  // ---- The bytes behind the header ----

  /** Some command's contents end up over offset k. */
  predicate MovedOver(cs: seq<Command>, growth: nat, k: nat) {
    cs != [] && (InMoved(cs[|cs| - 1], growth, k) || MovedOver(cs[..|cs| - 1], growth, k))
  }

  /** Some command undoes a relocation at offset k. */
  predicate UndoneBy(seg: Segment, cs: seq<Command>, k: nat) {
    cs != [] && (CommandUndoes(seg, cs[|cs| - 1], k) || UndoneBy(seg, cs[..|cs| - 1], k))
  }

  /** `now` is what these commands leave at offset k where there was `before`; `base` parts contents from data. */
  predicate RestByte(file: seq<byte>, seg: Segment, growth: nat, base: nat, cs: seq<Command>, k: nat,
                     before: Option<byte>, now: Option<byte>)
  {
    if MovedOver(cs, growth, k) then base <= k && growth <= k < growth + |file| && now == Some(file[k - growth])
    else if UndoneBy(seg, cs, k) then seg.fileoff <= k < seg.fileoff + seg.vmsize && k < |file| && now == Some(file[k])
    else now == before
  }

  lemma RestByteStep(inp: Input, s: Dump, seg: Segment, base: nat, cs: seq<Command>, c: Command, k: nat,
                     before: Option<byte>)
    requires !IsData(c) && DumpCommand(inp, s, c).Some? && s.data == Some(DataSegment(seg.fileoff, seg))
    requires seg.fileoff + seg.vmsize < TWO32
    requires c.LcSegment? && 0 < c.seg.filesize ==> c.seg.fileoff + s.delta < TWO32
    requires InMoved(c, s.delta, k) ==> base <= k
    requires CommandUndoes(seg, c, k) ==> seg.fileoff <= k < seg.fileoff + seg.vmsize
    requires seg.fileoff + seg.vmsize <= base
    requires DumpCommand(inp, s, c).value.hdr <= k
    requires RestByte(inp.file, seg, s.delta, base, cs, k, before, LastByte(s.log, k))
    ensures RestByte(inp.file, seg, s.delta, base, cs + [c], k, before, LastByte(DumpCommand(inp, s, c).value.log, k))
  {
    RestStepLast(inp, s, seg, c, k);
    assert (cs + [c])[..|cs|] == cs;
  }

  /** Contents that move do not reach the data or the regions; what is undone lies in the data. */
  lemma MovedAside(inp: Input, d: nat, i: nat, k: nat)
    requires WellFormed(inp, d) && d < i < |inp.cmds|
    ensures var c := inp.cmds[i];
      && !IsData(c) && (c.LcSegment? && 0 < c.seg.filesize ==> c.seg.fileoff + Growth(inp, d) < TWO32)
      && (InMoved(c, Growth(inp, d), k) ==> PostBase(inp, d) <= k)
      && (CommandUndoes(Placed(inp, d).seg, c, k) ==> DataSeg(inp, d).fileoff <= k < RegionBase(inp, d))
  {
    var c := inp.cmds[i];
    assert PostOk(DataSeg(inp, d), Growth(inp, d), c);
    if CommandUndoes(Placed(inp, d).seg, c, k) {
      UndoneInside(Placed(inp, d).seg, c.local + c.external, k);
    }
  }

  ghost predicate RestAt(inp: Input, d: nat, i: nat, k: nat, before: Option<byte>)
    requires WellFormed(inp, d) && d < i <= |inp.cmds|
  {
    match At(inp, i)
    case Some(s) =>
      RestByte(inp.file, Placed(inp, d).seg, Growth(inp, d), PostBase(inp, d), inp.cmds[d + 1..i], k, before,
               LastByte(s.log, k))
    case None => false
  }

  lemma RestNext(inp: Input, d: nat, i: nat, k: nat, before: Option<byte>)
    requires Dumped(inp, d) && d < i < |inp.cmds| && RestAt(inp, d, i, k, before)
    requires At(inp, i + 1).Some? && At(inp, i + 1).value.hdr <= k
    ensures RestAt(inp, d, i + 1, k, before)
  {
    RestState(inp, d, i);
    MovedAside(inp, d, i, k);
    RestByteStep(inp, At(inp, i).value, Placed(inp, d).seg, PostBase(inp, d), inp.cmds[d + 1..i], inp.cmds[i], k,
                 before);
    SliceNext(inp.cmds, d + 1, i);
  }

  /** Behind the header, what the commands behind the data segment leave. */
  lemma {:induction false} RestLast(inp: Input, d: nat, i: nat, k: nat)
    requires Dumped(inp, d) && d < i <= |inp.cmds|
    requires At(inp, i).Some? && At(inp, i).value.hdr <= k
    ensures At(inp, d + 1).Some? && RestAt(inp, d, i, k, LastByte(At(inp, d + 1).value.log, k))
    decreases i
  {
    if d + 1 < i {
      Passed(inp, i - 1, i);
      RestLast(inp, d, i - 1, k);
      RestNext(inp, d, i - 1, k, LastByte(At(inp, d + 1).value.log, k));
    }
  }

  // ---- The header ----

  ghost predicate HeaderAtRun(inp: Input, i: nat, k: nat)
    requires i <= |inp.cmds|
  {
    match At(inp, i)
    case Some(s) => HeaderAt(inp.codec, s, k)
    case None => false
  }

  lemma HeaderFirst(inp: Input, d: nat, k: nat)
    requires Dumped(inp, d)
    ensures HeaderAtRun(inp, d, k)
  {
    PreState(inp, d, d);
    PreLast(inp, d, d, k);
    if MACH_HDR <= k < MACH_HDR + |CommandsBytes(inp.codec, inp.cmds[..d])| {
      CommandsBytesPrefix(inp.codec, inp.cmds, d);
      PrefixByte(CommandsBytes(inp.codec, inp.cmds[..d]), CommandsBytes(inp.codec, inp.cmds), k - MACH_HDR);
    }
  }

  lemma HeaderData(inp: Input, d: nat, k: nat)
    requires Dumped(inp, d) && k < TextLow(inp.cmds)
    ensures HeaderAtRun(inp, d + 1, k)
  {
    HeaderFirst(inp, d, k);
    var seg := DataSeg(inp, d);
    DataState(inp, d);
    HeaderRoom(inp, d, d + 1);
    NoSectionOutside(seg, seg.sections, k);
    var s := At(inp, d).value;
    var sections := SectionWrites(inp, s.hdr + SEG_HDR, seg, seg.sections).value;
    DataHeaderStep(inp, s, seg, sections, RegionBase(inp, d), At(inp, d + 1).value, k);
  }

  lemma HeaderStepAt(inp: Input, seg: Segment, growth: u32, i: nat, k: nat)
    requires i < |inp.cmds| && !IsData(inp.cmds[i]) && At(inp, i + 1).Some? && At(inp, i).Some?
    requires At(inp, i).value.data == Some(DataSegment(seg.fileoff, seg)) && At(inp, i).value.delta == growth
    requires seg.fileoff + seg.vmsize < TWO32
    requires inp.cmds[i].LcSegment? && 0 < inp.cmds[i].seg.filesize ==> inp.cmds[i].seg.fileoff + growth < TWO32
    requires HeaderAtRun(inp, i, k) && !InMoved(inp.cmds[i], growth, k) && !CommandUndoes(seg, inp.cmds[i], k)
    ensures HeaderAtRun(inp, i + 1, k)
  {
    RestHeaderStep(inp, At(inp, i).value, seg, inp.cmds[i], k);
  }

  lemma RestDelta(inp: Input, d: nat, i: nat)
    requires Dumped(inp, d) && d < i <= |inp.cmds|
    ensures At(inp, i).Some? && At(inp, i).value.delta == Growth(inp, d)
    ensures At(inp, i).value.data == Some(DataSegment(Placed(inp, d).seg.fileoff, Placed(inp, d).seg))
  {
    RestState(inp, d, i);
  }

  /** Later commands' contents stay clear of what may be header. */
  lemma HeaderAside(inp: Input, d: nat, i: nat, k: nat)
    requires WellFormed(inp, d) && d < i < |inp.cmds| && k < TextLow(inp.cmds)
    ensures !InMoved(inp.cmds[i], Growth(inp, d), k) && !CommandUndoes(Placed(inp, d).seg, inp.cmds[i], k)
  {
    MovedAside(inp, d, i, k);
  }

  lemma HeaderNext(inp: Input, d: nat, i: nat, k: nat)
    requires Dumped(inp, d) && d < i < |inp.cmds| && k < TextLow(inp.cmds) && HeaderAtRun(inp, i, k)
    ensures HeaderAtRun(inp, i + 1, k)
  {
    RestDelta(inp, d, i);
    RestDelta(inp, d, i + 1);
    HeaderAside(inp, d, i, k);
    MovedAside(inp, d, i, 0);
    HeaderStepAt(inp, Placed(inp, d).seg, Growth(inp, d), i, k);
  }

  lemma {:induction false} HeaderLast(inp: Input, d: nat, i: nat, k: nat)
    requires Dumped(inp, d) && d < i <= |inp.cmds| && k < TextLow(inp.cmds)
    ensures HeaderAtRun(inp, i, k)
    decreases i
  {
    if i == d + 1 {
      HeaderData(inp, d, k);
    } else {
      HeaderLast(inp, d, i - 1, k);
      HeaderNext(inp, d, i - 1, k);
    }
  }
}
