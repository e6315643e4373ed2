/**
 * The dump as a function: what each kind of load command writes to the output file and does to the
 * running offset adjustment and to the header under construction.  None stands for a dump that is
 * abandoned with an error.
 */
module DumpSpec {
  import opened Bytes
  import opened Regions
  import opened MachO

  const NO_TEXT_OFFSET: u32 := 0x1000_0000

  /** The input executable, the merged regions, and a snapshot of memory. */
  datatype Input = Input(codec: Codec, file: seq<byte>, header: Header, cmds: seq<Command>, regions: seq<Range>,
                         mem: nat -> byte)

  /** The data segment as it was rewritten, and where it lay in the input. */
  datatype DataSegment = DataSegment(oldFileoff: u32, seg: Segment)

  /**
   * log: the writes so far; delta: what is added to file offsets; hdr: where the next load command
   * goes; emitted: the load commands written so far.
   */
  datatype Dump = Dump(log: seq<Patch>, delta: u32, hdr: nat, ncmds: nat, data: Option<DataSegment>,
                       emitted: seq<Command>)

  function Start(inp: Input): Dump {
    Dump([], 0, MACH_HDR, |inp.cmds|, None, [])
  }

  predicate IsData(c: Command) {
    c.LcSegment? && c.seg.name == SegData
  }

  /** unexec_copy: fails when the input ends before the last byte to copy. */
  function Copied(inp: Input, to: nat, from: nat, n: nat): Option<seq<Patch>> {
    if n == 0 then Some([])
    else if from + n > |inp.file| then None
    else Some([Patch(to, inp.file[from..from + n])])
  }

  /** The state after some writes and then a load command behind the ones already written. */
  function Emit(inp: Input, s: Dump, writes: seq<Patch>, c: Command): Dump {
    var bytes := CommandBytes(inp.codec, c);
    s.(log := s.log + (writes + [Patch(s.hdr, bytes)]), hdr := s.hdr + |bytes|, emitted := s.emitted + [c])
  }

  // ---- Commands that only move ----

  function ShiftSections(ss: seq<Section>, delta: u32): (r: seq<Section>)
    ensures |r| == |ss|
  {
    seq(|ss|, i requires 0 <= i < |ss| => ss[i].(offset := Add32(ss[i].offset, delta)))
  }

  function ShiftSegment(seg: Segment, delta: u32): Segment {
    seg.(fileoff := Add32(seg.fileoff, delta), sections := ShiftSections(seg.sections, delta))
  }

  /** A command with every file offset in it moved by delta. */
  function ShiftCommand(c: Command, delta: u32): Command {
    match c
    case LcSegment(seg) => LcSegment(ShiftSegment(seg, delta))
    case LcSymtab(symoff, _, stroff, _) => c.(symoff := Add32(symoff, delta), stroff := Add32(stroff, delta))
    case LcDysymtab(_, indirectsymoff, nindirectsyms, extreloff, nextrel, locreloff, nlocrel, _, _) =>
      c.(extreloff := if nextrel > 0 then Add32(extreloff, delta) else extreloff,
         locreloff := if nlocrel > 0 then Add32(locreloff, delta) else locreloff,
         indirectsymoff := if nindirectsyms > 0 then Add32(indirectsymoff, delta) else indirectsymoff)
    case LcHints(offset, nhints) => if nhints > 0 then c.(offset := Add32(offset, delta)) else c
    case LcOther(_) => c
  }

  // ---- The data segment ----

  predicate DumpedSection(name: SectName) {
    name.Data? || name.Bss? || name.Common?
  }

  predicate CopiedSection(name: SectName) {
    !DumpedSection(name) && !name.OtherSect?
  }

  /** Where a section of the data segment goes in the output file. */
  function SectionOffset(seg: Segment, sec: Section): u32 {
    Add32(Sub32(sec.addr, seg.vmaddr), seg.fileoff)
  }

  function PlaceSection(seg: Segment, sec: Section): Section {
    sec.(offset := SectionOffset(seg, sec),
         flags := if sec.name.Bss? || sec.name.Common? then S_REGULAR else sec.flags)
  }

  function PlaceSections(seg: Segment, ss: seq<Section>): (r: seq<Section>)
    ensures |r| == |ss|
  {
    if ss == [] then [] else [PlaceSection(seg, ss[0])] + PlaceSections(seg, ss[1..])
  }

  lemma {:induction false} PlaceSectionsAt(seg: Segment, ss: seq<Section>, j: nat)
    requires j < |ss|
    ensures PlaceSections(seg, ss)[j] == PlaceSection(seg, ss[j])
    decreases |ss|
  {
    if j > 0 {
      PlaceSectionsAt(seg, ss[1..], j - 1);
    }
  }

  /** A section's contents, from memory or from the input file. */
  function SectionContent(inp: Input, seg: Segment, sec: Section): Option<seq<Patch>> {
    if DumpedSection(sec.name) then Some([Patch(SectionOffset(seg, sec), MemBytes(inp.mem, sec.addr, sec.size))])
    else if CopiedSection(sec.name) then Copied(inp, SectionOffset(seg, sec), sec.offset, sec.size)
    else None
  }

  /** All sections' contents, each followed by its header, the first of which goes to `at`. */
  function SectionWrites(inp: Input, at: nat, seg: Segment, ss: seq<Section>): Option<seq<Patch>>
    decreases |ss|
  {
    if ss == [] then Some([])
    else
      var content := SectionContent(inp, seg, ss[0]);
      var rest := SectionWrites(inp, at + SECT_HDR, seg, ss[1..]);
      if content.None? || rest.None? then None
      else Some(content.value + [Patch(at, inp.codec.section(PlaceSection(seg, ss[0])))] + rest.value)
  }

  function RegionCommand(r: Range, fileoff: u32): Command {
    LcSegment(Segment(SegData, r.address, r.size, fileoff, r.size, VM_PROT_RW, VM_PROT_RW, 0, []))
  }

  function WriteRegion(inp: Input, s: Dump, fileoff: u32, r: Range): Dump {
    var content := [Patch(fileoff, MemBytes(inp.mem, r.address, r.size))];
    Emit(inp, s, content, RegionCommand(r, fileoff)).(delta := Add32(s.delta, r.size), ncmds := s.ncmds + 1)
  }

  function WriteRegions(inp: Input, s: Dump, fileoff: u32, rs: seq<Range>): Dump
    decreases |rs|
  {
    if rs == [] then s
    else WriteRegions(inp, WriteRegion(inp, s, fileoff, rs[0]), Add32(fileoff, rs[0].size), rs[1..])
  }

  /** The data segment's command after the dump: it has file contents for all of its memory. */
  function PlaceData(seg: Segment): Segment {
    seg.(filesize := seg.vmsize, sections := PlaceSections(seg, seg.sections))
  }

  /** After the sections and the rewritten command of the data segment; its head is written last. */
  function WriteData(inp: Input, s: Dump, seg: Segment, sections: seq<Patch>): Dump {
    s.(log := s.log + (sections + [Patch(s.hdr, inp.codec.segment(PlaceData(seg)))]),
       delta := Sub32(seg.vmsize, seg.filesize),
       hdr := s.hdr + SEG_HDR + SECT_HDR * |seg.sections|,
       data := Some(DataSegment(seg.fileoff, PlaceData(seg))),
       emitted := s.emitted + [LcSegment(PlaceData(seg))])
  }

  function CopyDataSegment(inp: Input, s: Dump, seg: Segment): Option<Dump> {
    var sections := SectionWrites(inp, s.hdr + SEG_HDR, seg, seg.sections);
    if s.delta != 0 || sections.None? then None
    else Some(WriteRegions(inp, WriteData(inp, s, seg, sections.value), Add32(seg.fileoff, seg.vmsize), inp.regions))
  }

  // ---- Relocations ----

  function RelocBytes(r: Reloc): nat
    requires r.Vanilla?
  {
    if r.length == 0 then 1 else if r.length == 1 then 2 else if r.length == 2 then 4 else 8
  }

  /** The segment's end is computed in 32 bits. */
  predicate InSegment(seg: Segment, a: u32) {
    seg.vmaddr <= a < Add32(seg.vmaddr, seg.vmsize)
  }

  /** An address as the signed field of a relocation entry. */
  function SignedAddress(a: u32): int {
    if a < 0x8000_0000 then a else a - TWO32
  }

  /** Where the original bytes are: the sum starts with a 64-bit offset and so takes the address as signed. */
  function RelocSource(data: DataSegment, a: u32): int {
    data.oldFileoff + SignedAddress(a) - data.seg.vmaddr
  }

  /** Where they go: this sum is in unsigned 32-bit words. */
  function RelocTarget(seg: Segment, a: u32): u32 {
    Sub32(Add32(seg.fileoff, a), seg.vmaddr)
  }

  /** Restores the bytes that one relocation entry of the data segment refers to. */
  function RelocWrites(inp: Input, data: Option<DataSegment>, r: Reloc): Option<seq<Patch>> {
    match r
    case Unhandled => None
    case PreboundLazy => Some([])
    case Vanilla(address, _) =>
      if data.None? then None
      else
        var seg := data.value.seg;
        if !InSegment(seg, address) then Some([])
        else if RelocSource(data.value, address) < 0 then None
        else Copied(inp, RelocTarget(seg, address), RelocSource(data.value, address), RelocBytes(r))
  }

  function Unrelocated(inp: Input, data: Option<DataSegment>, rs: seq<Reloc>): Option<seq<Patch>>
    decreases |rs|
  {
    if rs == [] then Some([])
    else
      var first := RelocWrites(inp, data, rs[0]);
      var rest := Unrelocated(inp, data, rs[1..]);
      if first.None? || rest.None? then None else Some(first.value + rest.value)
  }

  // ---- The whole dump ----

  /** What a command other than the data segment's writes besides itself. */
  function ContentWrites(inp: Input, s: Dump, c: Command): Option<seq<Patch>> {
    match c
    case LcSegment(seg) => Copied(inp, Add32(seg.fileoff, s.delta), seg.fileoff, seg.filesize)
    case LcDysymtab(_, _, _, _, _, _, _, local, external) => Unrelocated(inp, s.data, local + external)
    case _ => Some([])
  }

  function DumpCommand(inp: Input, s: Dump, c: Command): Option<Dump> {
    if IsData(c) then CopyDataSegment(inp, s, c.seg)
    else
      var writes := ContentWrites(inp, s, c);
      if writes.None? then None else Some(Emit(inp, s, writes.value, ShiftCommand(c, s.delta)))
  }

  /** The state in front of command i. */
  function At(inp: Input, i: nat): Option<Dump>
    requires i <= |inp.cmds|
  {
    if i == 0 then Some(Start(inp))
    else
      var s := At(inp, i - 1);
      if s.None? then None else DumpCommand(inp, s.value, inp.cmds[i - 1])
  }

  /** The lowest first-section offset of the text segments: further sections are not looked at. */
  function TextLow(cs: seq<Command>): u32 {
    if cs == [] then NO_TEXT_OFFSET
    else
      var c, low := cs[|cs| - 1], TextLow(cs[..|cs| - 1]);
      if c.LcSegment? && c.seg.name == SegText && c.seg.sections != [] && c.seg.sections[0].offset < low
      then c.seg.sections[0].offset else low
  }

  function FinalHeader(inp: Input, s: Dump): Header {
    inp.header.(ncmds := s.ncmds % TWO32, sizeofcmds := (s.hdr - MACH_HDR) % TWO32)
  }

  /** All commands, provided they leave the text sections alone, and then the Mach header. */
  function DumpIt(inp: Input): Option<Dump> {
    var s := At(inp, |inp.cmds|);
    if s.None? || s.value.hdr > TextLow(inp.cmds) then None
    else Some(s.value.(log := s.value.log + [Patch(0, inp.codec.header(FinalHeader(inp, s.value)))]))
  }

  /** The output file of a dump that succeeds. */
  function Output(inp: Input): seq<byte>
    requires DumpIt(inp).Some?
  {
    Apply([], DumpIt(inp).value.log)
  }
}
