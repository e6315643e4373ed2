/** What dumping the data segment and the regions leaves at each offset of the output file. */
module DumpWrites {
  import opened Bytes
  import opened Regions
  import opened MachO
  import opened DumpSpec

  lemma CopiedLast(inp: Input, to: nat, from: nat, n: nat, k: nat)
    requires Copied(inp, to, from, n).Some?
    ensures to <= k < to + n ==>
      from + n <= |inp.file| && LastByte(Copied(inp, to, from, n).value, k) == Some(inp.file[from + (k - to)])
    ensures !(to <= k < to + n) ==> LastByte(Copied(inp, to, from, n).value, k) == None
  {
    if n > 0 {
      LastByteCons(Patch(to, inp.file[from..from + n]), [], k);
      assert [Patch(to, inp.file[from..from + n])] + [] == [Patch(to, inp.file[from..from + n])];
    }
  }

  lemma OneLast(p: Patch, k: nat)
    ensures LastByte([p], k) == p.Byte(k)
  {
    LastByteCons(p, [], k);
    assert [p] + [] == [p];
  }

  // ---- Sections ----

  predicate InSection(seg: Segment, sec: Section, k: nat) {
    SectionOffset(seg, sec) <= k < SectionOffset(seg, sec) + sec.size
  }

  /** The i-th byte of a section after the dump: memory's or the input file's. */
  function SectionByte(inp: Input, sec: Section, i: nat): Option<byte> {
    if DumpedSection(sec.name) then Some(inp.mem(sec.addr + i))
    else if sec.offset + i < |inp.file| then Some(inp.file[sec.offset + i]) else None
  }

  lemma ContentLast(inp: Input, seg: Segment, sec: Section, k: nat)
    requires SectionContent(inp, seg, sec).Some?
    ensures LastByte(SectionContent(inp, seg, sec).value, k)
         == if InSection(seg, sec, k) then SectionByte(inp, sec, k - SectionOffset(seg, sec)) else None
  {
    if DumpedSection(sec.name) {
      OneLast(Patch(SectionOffset(seg, sec), MemBytes(inp.mem, sec.addr, sec.size)), k);
    } else {
      CopiedLast(inp, SectionOffset(seg, sec), sec.offset, sec.size, k);
    }
  }

  /** What one section's header and contents put at offset k. */
  function OneSection(inp: Input, at: nat, seg: Segment, sec: Section, k: nat): Option<byte> {
    if at <= k < at + SECT_HDR then Some(inp.codec.section(PlaceSection(seg, sec))[k - at])
    else if InSection(seg, sec, k) then SectionByte(inp, sec, k - SectionOffset(seg, sec))
    else None
  }

  /** The first section's part of the writes, and the others'. */
  lemma SectionsLastStep(inp: Input, at: nat, seg: Segment, ss: seq<Section>, k: nat)
    requires ss != [] && SectionWrites(inp, at, seg, ss).Some?
    ensures SectionWrites(inp, at + SECT_HDR, seg, ss[1..]).Some?
    ensures LastByte(SectionWrites(inp, at, seg, ss).value, k)
         == OrElse(LastByte(SectionWrites(inp, at + SECT_HDR, seg, ss[1..]).value, k),
                   OneSection(inp, at, seg, ss[0], k))
  {
    var content := SectionContent(inp, seg, ss[0]).value;
    var header := Patch(at, inp.codec.section(PlaceSection(seg, ss[0])));
    var rest := SectionWrites(inp, at + SECT_HDR, seg, ss[1..]).value;
    ContentLast(inp, seg, ss[0], k);
    OneLast(header, k);
    LastByteAppend(content, [header], k);
    LastByteAppend(content + [header], rest, k);
  }

  predicate OutsideSections(seg: Segment, ss: seq<Section>, k: nat) {
    ss == [] || (!InSection(seg, ss[0], k) && OutsideSections(seg, ss[1..], k))
  }

  lemma {:induction false} OutsideLast(inp: Input, at: nat, seg: Segment, ss: seq<Section>, k: nat)
    requires SectionWrites(inp, at, seg, ss).Some?
    requires !(at <= k < at + SECT_HDR * |ss|) && OutsideSections(seg, ss, k)
    ensures LastByte(SectionWrites(inp, at, seg, ss).value, k) == None
    decreases |ss|
  {
    if ss != [] {
      SectionsLastStep(inp, at, seg, ss, k);
      OutsideLast(inp, at + SECT_HDR, seg, ss[1..], k);
    }
  }

  /** The placed sections' headers, one behind the other. */
  function SectionHeads(codec: Codec, seg: Segment, ss: seq<Section>): (heads: seq<byte>)
    ensures |heads| == SECT_HDR * |ss|
  {
    if ss == [] then [] else codec.section(PlaceSection(seg, ss[0])) + SectionHeads(codec, seg, ss[1..])
  }

  lemma {:induction false} SectionHeadsArePlaced(codec: Codec, seg: Segment, ss: seq<Section>)
    ensures SectionHeads(codec, seg, ss) == SectionsBytes(codec, PlaceSections(seg, ss))
    decreases |ss|
  {
    if ss != [] {
      SectionHeadsArePlaced(codec, seg, ss[1..]);
      assert PlaceSections(seg, ss)[1..] == PlaceSections(seg, ss[1..]);
    }
  }

  lemma SectionHeadsNext(codec: Codec, seg: Segment, ss: seq<Section>, k: nat)
    requires k < SECT_HDR * |ss|
    ensures SectionHeads(codec, seg, ss)[k]
         == if k < SECT_HDR then codec.section(PlaceSection(seg, ss[0]))[k]
            else SectionHeads(codec, seg, ss[1..])[k - SECT_HDR]
  {
  }

  lemma FirstHeaderLast(inp: Input, at: nat, seg: Segment, ss: seq<Section>, k: nat)
    requires SectionWrites(inp, at, seg, ss).Some? && ss != [] && k < SECT_HDR
    requires OutsideSections(seg, ss, at + k)
    ensures LastByte(SectionWrites(inp, at, seg, ss).value, at + k)
         == Some(inp.codec.section(PlaceSection(seg, ss[0]))[k])
  {
    SectionsLastStep(inp, at, seg, ss, at + k);
    OutsideLast(inp, at + SECT_HDR, seg, ss[1..], at + k);
  }

  lemma OthersLast(inp: Input, at: nat, seg: Segment, ss: seq<Section>, k: nat, b: byte)
    requires SectionWrites(inp, at, seg, ss).Some? && ss != [] && SectionWrites(inp, at + SECT_HDR, seg, ss[1..]).Some?
    requires LastByte(SectionWrites(inp, at + SECT_HDR, seg, ss[1..]).value, k) == Some(b)
    ensures LastByte(SectionWrites(inp, at, seg, ss).value, k) == Some(b)
  {
    SectionsLastStep(inp, at, seg, ss, k);
  }

  lemma {:induction false} SectionHeadersLast(inp: Input, at: nat, seg: Segment, ss: seq<Section>, k: nat)
    requires SectionWrites(inp, at, seg, ss).Some? && k < SECT_HDR * |ss|
    requires OutsideSections(seg, ss, at + k)
    ensures LastByte(SectionWrites(inp, at, seg, ss).value, at + k) == Some(SectionHeads(inp.codec, seg, ss)[k])
    decreases |ss|
  {
    SectionHeadsNext(inp.codec, seg, ss, k);
    if k < SECT_HDR {
      FirstHeaderLast(inp, at, seg, ss, k);
    } else {
      SectionHeadersLast(inp, at + SECT_HDR, seg, ss[1..], k - SECT_HDR);
      OthersLast(inp, at, seg, ss, at + k, SectionHeads(inp.codec, seg, ss[1..])[k - SECT_HDR]);
    }
  }

  /** No other section shares offset k of the output. */
  predicate OnlyIn(seg: Segment, ss: seq<Section>, j: nat, k: nat)
    requires j < |ss|
  {
    if j == 0 then OutsideSections(seg, ss[1..], k) else !InSection(seg, ss[0], k) && OnlyIn(seg, ss[1..], j - 1, k)
  }

  lemma FirstInsideLast(inp: Input, at: nat, seg: Segment, ss: seq<Section>, k: nat)
    requires SectionWrites(inp, at, seg, ss).Some? && ss != []
    requires at + SECT_HDR * |ss| <= k && InSection(seg, ss[0], k) && OutsideSections(seg, ss[1..], k)
    ensures LastByte(SectionWrites(inp, at, seg, ss).value, k) == SectionByte(inp, ss[0], k - SectionOffset(seg, ss[0]))
    ensures SectionByte(inp, ss[0], k - SectionOffset(seg, ss[0])).Some?
  {
    SectionsLastStep(inp, at, seg, ss, k);
    OutsideLast(inp, at + SECT_HDR, seg, ss[1..], k);
    ContentHasByte(inp, seg, ss[0], k);
  }

  lemma {:induction false} InsideLast(inp: Input, at: nat, seg: Segment, ss: seq<Section>, j: nat, k: nat)
    requires SectionWrites(inp, at, seg, ss).Some? && j < |ss|
    requires at + SECT_HDR * |ss| <= k && InSection(seg, ss[j], k) && OnlyIn(seg, ss, j, k)
    ensures LastByte(SectionWrites(inp, at, seg, ss).value, k) == SectionByte(inp, ss[j], k - SectionOffset(seg, ss[j]))
    ensures SectionByte(inp, ss[j], k - SectionOffset(seg, ss[j])).Some?
    decreases |ss|
  {
    if j == 0 {
      FirstInsideLast(inp, at, seg, ss, k);
    } else {
      InsideLast(inp, at + SECT_HDR, seg, ss[1..], j - 1, k);
      OthersLast(inp, at, seg, ss, k, SectionByte(inp, ss[j], k - SectionOffset(seg, ss[j])).value);
    }
  }

  lemma ContentHasByte(inp: Input, seg: Segment, sec: Section, k: nat)
    requires SectionContent(inp, seg, sec).Some? && InSection(seg, sec, k)
    ensures SectionByte(inp, sec, k - SectionOffset(seg, sec)).Some?
  {
  }

  // ---- Regions ----

  function SizeSum(rs: seq<Range>): nat {
    if rs == [] then 0 else rs[0].size + SizeSum(rs[1..])
  }

  function RegionOffset(rs: seq<Range>, base: nat, j: nat): nat
    requires j <= |rs|
  {
    if j == 0 then base else RegionOffset(rs[1..], base + rs[0].size, j - 1)
  }

  function RegionCommands(rs: seq<Range>, base: u32): (r: seq<Command>)
    ensures |r| == |rs|
  {
    if rs == [] then [] else [RegionCommand(rs[0], base)] + RegionCommands(rs[1..], Add32(base, rs[0].size))
  }

  function RegionHead(codec: Codec, r: Range, fileoff: u32): (head: seq<byte>)
    ensures |head| == SEG_HDR
  {
    codec.segment(RegionCommand(r, fileoff).seg)
  }

  lemma RegionCommandBytes(codec: Codec, r: Range, fileoff: u32)
    ensures CommandBytes(codec, RegionCommand(r, fileoff)) == RegionHead(codec, r, fileoff)
  {
  }

  function RegionHeads(codec: Codec, rs: seq<Range>, base: u32): (heads: seq<byte>)
    ensures |heads| == SEG_HDR * |rs|
    decreases |rs|
  {
    if rs == [] then [] else RegionHead(codec, rs[0], base) + RegionHeads(codec, rs[1..], Add32(base, rs[0].size))
  }

  /** The writes of one region. */
  function OneRegionWrites(inp: Input, hdr: nat, base: u32, r: Range): seq<Patch> {
    [Patch(base, MemBytes(inp.mem, r.address, r.size))] + [Patch(hdr, RegionHead(inp.codec, r, base))]
  }

  /** The writes of the regions, by themselves. */
  function RegionWrites(inp: Input, hdr: nat, base: u32, rs: seq<Range>): seq<Patch>
    decreases |rs|
  {
    if rs == [] then []
    else
      OneRegionWrites(inp, hdr, base, rs[0]) + RegionWrites(inp, hdr + SEG_HDR, Add32(base, rs[0].size), rs[1..])
  }

  lemma RegionState(inp: Input, s: Dump, base: u32, r: Range)
    requires s.delta + r.size < TWO32
    ensures var t := WriteRegion(inp, s, base, r);
      && t.delta == s.delta + r.size && t.hdr == s.hdr + SEG_HDR && t.ncmds == s.ncmds + 1
      && t.data == s.data && t.emitted == s.emitted + [RegionCommand(r, base)]
      && t.log == s.log + OneRegionWrites(inp, s.hdr, base, r)
  {
    RegionCommandBytes(inp.codec, r, base);
  }

  /** The state after the regions; each adds its size to delta and a command of 56 octets. */
  lemma {:induction false} RegionsState(inp: Input, s: Dump, base: u32, rs: seq<Range>)
    requires s.delta + SizeSum(rs) < TWO32
    ensures var r := WriteRegions(inp, s, base, rs);
      && r.delta == s.delta + SizeSum(rs) && r.hdr == s.hdr + SEG_HDR * |rs| && r.ncmds == s.ncmds + |rs|
      && r.data == s.data && r.emitted == s.emitted + RegionCommands(rs, base)
      && r.log == s.log + RegionWrites(inp, s.hdr, base, rs)
    decreases |rs|
  {
    if rs != [] {
      var next := Add32(base, rs[0].size);
      RegionState(inp, s, base, rs[0]);
      RegionsState(inp, WriteRegion(inp, s, base, rs[0]), next, rs[1..]);
      Reassociate(s.emitted, [RegionCommand(rs[0], base)], RegionCommands(rs[1..], next));
      Reassociate(s.log, OneRegionWrites(inp, s.hdr, base, rs[0]), RegionWrites(inp, s.hdr + SEG_HDR, next, rs[1..]));
    }
  }

  /** What one region's command and contents put at offset k. */
  function OneRegion(inp: Input, hdr: nat, base: u32, r: Range, k: nat): Option<byte> {
    if hdr <= k < hdr + SEG_HDR then Some(RegionHead(inp.codec, r, base)[k - hdr])
    else if base <= k < base + r.size then Some(inp.mem(r.address + (k - base)))
    else None
  }

  lemma OneRegionLast(inp: Input, hdr: nat, base: u32, r: Range, k: nat)
    ensures LastByte(OneRegionWrites(inp, hdr, base, r), k) == OneRegion(inp, hdr, base, r, k)
  {
    var content := Patch(base, MemBytes(inp.mem, r.address, r.size));
    var head := Patch(hdr, RegionHead(inp.codec, r, base));
    OneLast(content, k);
    OneLast(head, k);
    LastByteAppend([content], [head], k);
  }

  lemma RegionsLastStep(inp: Input, hdr: nat, base: u32, rs: seq<Range>, next: u32, k: nat)
    requires rs != [] && base + rs[0].size == next
    ensures LastByte(RegionWrites(inp, hdr, base, rs), k)
         == OrElse(LastByte(RegionWrites(inp, hdr + SEG_HDR, next, rs[1..]), k), OneRegion(inp, hdr, base, rs[0], k))
  {
    OneRegionLast(inp, hdr, base, rs[0], k);
    LastByteAppend(OneRegionWrites(inp, hdr, base, rs[0]), RegionWrites(inp, hdr + SEG_HDR, next, rs[1..]), k);
  }

  lemma {:induction false} OutsideRegionsLast(inp: Input, hdr: nat, base: u32, rs: seq<Range>, k: nat)
    requires base + SizeSum(rs) < TWO32
    requires !(hdr <= k < hdr + SEG_HDR * |rs|) && !(base <= k < base + SizeSum(rs))
    ensures LastByte(RegionWrites(inp, hdr, base, rs), k) == None
    decreases |rs|
  {
    if rs != [] {
      var next := base + rs[0].size;
      RegionsLastStep(inp, hdr, base, rs, next, k);
      OutsideRegionsLast(inp, hdr + SEG_HDR, next, rs[1..], k);
    }
  }

  lemma {:induction false} RegionPlaced(rs: seq<Range>, base: u32, j: nat)
    requires base + SizeSum(rs) < TWO32 && j < |rs|
    ensures base <= RegionOffset(rs, base, j) && RegionOffset(rs, base, j) + rs[j].size <= base + SizeSum(rs)
    ensures RegionCommands(rs, base)[j] == RegionCommand(rs[j], RegionOffset(rs, base, j))
    decreases |rs|
  {
    if j > 0 {
      RegionPlaced(rs[1..], base + rs[0].size, j - 1);
    }
  }

  lemma FirstRegionLast(inp: Input, hdr: nat, base: u32, rs: seq<Range>, i: nat)
    requires base + SizeSum(rs) < TWO32 && hdr + SEG_HDR * |rs| <= base && rs != [] && i < rs[0].size
    ensures LastByte(RegionWrites(inp, hdr, base, rs), base + i) == Some(inp.mem(rs[0].address + i))
  {
    var next := base + rs[0].size;
    RegionsLastStep(inp, hdr, base, rs, next, base + i);
    OutsideRegionsLast(inp, hdr + SEG_HDR, next, rs[1..], base + i);
  }

  lemma OtherRegionsLast(inp: Input, hdr: nat, base: u32, rs: seq<Range>, next: u32, k: nat, b: byte)
    requires rs != [] && base + rs[0].size == next
    requires LastByte(RegionWrites(inp, hdr + SEG_HDR, next, rs[1..]), k) == Some(b)
    ensures LastByte(RegionWrites(inp, hdr, base, rs), k) == Some(b)
  {
    RegionsLastStep(inp, hdr, base, rs, next, k);
  }

  /** Each region's bytes are written where its command says, and are memory's. */
  lemma {:induction false} RegionContentLast(inp: Input, hdr: nat, base: u32, rs: seq<Range>, j: nat, i: nat)
    requires base + SizeSum(rs) < TWO32 && hdr + SEG_HDR * |rs| <= base
    requires j < |rs| && i < rs[j].size
    ensures LastByte(RegionWrites(inp, hdr, base, rs), RegionOffset(rs, base, j) + i)
         == Some(inp.mem(rs[j].address + i))
    decreases |rs|
  {
    if j == 0 {
      FirstRegionLast(inp, hdr, base, rs, i);
    } else {
      var next := base + rs[0].size;
      RegionContentLast(inp, hdr + SEG_HDR, next, rs[1..], j - 1, i);
      OtherRegionsLast(inp, hdr, base, rs, next, RegionOffset(rs, base, j) + i, inp.mem(rs[j].address + i));
    }
  }

  lemma CommandsBytesFirst(codec: Codec, c: Command, cs: seq<Command>)
    ensures CommandsBytes(codec, [c] + cs) == CommandBytes(codec, c) + CommandsBytes(codec, cs)
    decreases |cs|
  {
    if cs == [] {
      assert [c] + cs == [c] && [c][..0] == [];
    } else {
      var front := cs[..|cs| - 1];
      CommandsBytesFirst(codec, c, front);
      assert ([c] + cs)[..|cs|] == [c] + front;
      Reassociate(CommandBytes(codec, c), CommandsBytes(codec, front), CommandBytes(codec, cs[|cs| - 1]));
    }
  }

  lemma {:induction false} RegionHeadsAreCommands(codec: Codec, rs: seq<Range>, base: u32)
    ensures CommandsBytes(codec, RegionCommands(rs, base)) == RegionHeads(codec, rs, base)
    decreases |rs|
  {
    if rs != [] {
      var rest := RegionCommands(rs[1..], Add32(base, rs[0].size));
      RegionCommandBytes(codec, rs[0], base);
      CommandsBytesFirst(codec, RegionCommand(rs[0], base), rest);
      RegionHeadsAreCommands(codec, rs[1..], Add32(base, rs[0].size));
    }
  }

  lemma RegionHeadsAt(codec: Codec, rs: seq<Range>, base: u32, next: u32, k: nat)
    requires rs != [] && base + rs[0].size == next && k < SEG_HDR * |rs|
    ensures RegionHeads(codec, rs, base)[k]
         == if k < SEG_HDR then RegionHead(codec, rs[0], base)[k] else RegionHeads(codec, rs[1..], next)[k - SEG_HDR]
  {
  }

  lemma FirstRegionHead(inp: Input, hdr: nat, base: u32, rs: seq<Range>, next: u32, at: nat)
    requires rs != [] && base + rs[0].size == next && next + SizeSum(rs[1..]) < TWO32
    requires hdr + SEG_HDR * |rs| <= base && hdr <= at < hdr + SEG_HDR
    ensures LastByte(RegionWrites(inp, hdr, base, rs), at) == Some(RegionHead(inp.codec, rs[0], base)[at - hdr])
  {
    RegionsLastStep(inp, hdr, base, rs, next, at);
    OutsideRegionsLast(inp, hdr + SEG_HDR, next, rs[1..], at);
  }

  /** The regions' commands are written one behind the other from hdr on. */
  lemma {:induction false} RegionHeadersLast(inp: Input, hdr: nat, base: u32, rs: seq<Range>, k: nat)
    requires base + SizeSum(rs) < TWO32 && hdr + SEG_HDR * |rs| <= base && k < SEG_HDR * |rs|
    ensures LastByte(RegionWrites(inp, hdr, base, rs), hdr + k) == Some(RegionHeads(inp.codec, rs, base)[k])
    decreases |rs|
  {
    var next := base + rs[0].size;
    RegionHeadsAt(inp.codec, rs, base, next, k);
    if k < SEG_HDR {
      FirstRegionHead(inp, hdr, base, rs, next, hdr + k);
    } else {
      RegionHeadersLast(inp, hdr + SEG_HDR, next, rs[1..], k - SEG_HDR);
      OtherRegionsLast(inp, hdr, base, rs, next, hdr + k, RegionHeads(inp.codec, rs, base)[k]);
    }
  }
}
