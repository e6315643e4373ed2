/**
 * The memory image that loading a dump gives, over all of its segments: if the input's segments and the
 * regions do not share addresses, every address comes from one segment, and the regions are as they were.
 */
module DumpImage {
  import opened Bytes
  import opened Regions
  import opened MachO
  import opened DumpSpec
  import opened DumpRun
  import opened DumpTheorems

  /** The command is a segment's, with this address in it. */
  predicate Maps(c: Command, a: nat) {
    c.LcSegment? && c.seg.vmaddr <= a < c.seg.vmaddr + c.seg.vmsize
  }

  /** No address lies in two segments. */
  ghost predicate MapsApart(cs: seq<Command>) {
    forall i, j, a :: 0 <= i < j < |cs| && Maps(cs[i], a) ==> !Maps(cs[j], a)
  }

  /** What the command's segment is loaded with at address a. */
  function ByteOf(out: seq<byte>, c: Command, a: nat): Option<byte>
    requires Maps(c, a)
  {
    Loaded(out, c.seg, a)
  }

  /** What a loader that goes through the commands in order leaves at address a. */
  function Image(out: seq<byte>, cs: seq<Command>, a: nat): Option<byte> {
    if cs == [] then None
    else if Maps(cs[|cs| - 1], a) then ByteOf(out, cs[|cs| - 1], a)
    else Image(out, cs[..|cs| - 1], a)
  }

  /** The regions share no address with the segments. */
  ghost predicate RegionsFree(rs: seq<Range>, cs: seq<Command>) {
    forall j, a: nat :: 0 <= j < |cs| && Covers(rs, a) ==> !Maps(cs[j], a)
  }

  /** Nor with each other. */
  ghost predicate RegionsApart(rs: seq<Range>) {
    forall i, j, a :: 0 <= i < j < |rs| && rs[i].Has(a) ==> !rs[j].Has(a)
  }

  /** Merged regions do not, provided what was recorded did not overlap. */
  lemma DisjointRegionsApart(rs: seq<Range>)
    requires Disjoint(rs)
    ensures RegionsApart(rs)
  {
    forall i, j, a | 0 <= i < j < |rs| && rs[i].Has(a) ensures !rs[j].Has(a) {
      DisjointFurther(rs, i, j);
    }
  }

  lemma DisjointFurther(rs: seq<Range>, i: nat, j: nat)
    requires i < j < |rs| && Disjoint(rs)
    ensures rs[i].address + rs[i].size <= rs[j].address
  {
    var k := i + 1;
    while k < j
      invariant i < k <= j && rs[i].address + rs[i].size <= rs[k].address
    {
      assert rs[k].address + rs[k].size <= rs[k + 1].address;
      k := k + 1;
    }
  }

  /** Segments that agree on an address's byte leave that byte there. */
  lemma {:induction false} ImageOfAgreeing(out: seq<byte>, cs: seq<Command>, p: nat, a: nat, b: Option<byte>)
    requires p < |cs| && Maps(cs[p], a)
    requires forall q :: 0 <= q < |cs| && Maps(cs[q], a) ==> ByteOf(out, cs[q], a) == b
    ensures Image(out, cs, a) == b
    decreases |cs|
  {
    var last := |cs| - 1;
    if !Maps(cs[last], a) {
      ImageOfAgreeing(out, cs[..last], p, a, b);
    }
  }

  // ---- Whose addresses the output's segments have ----

  /** Address a belongs to what command p of the output stands for: an input command or a region. */
  predicate Owns(inp: Input, d: nat, p: nat, a: nat)
    requires d < |inp.cmds| && p < |inp.cmds| + |inp.regions|
  {
    if p <= d then Maps(inp.cmds[p], a)
    else if p <= d + |inp.regions| then inp.regions[p - d - 1].Has(a)
    else Maps(inp.cmds[p - |inp.regions|], a)
  }

  /** Command p of the output has address a if and only if `owned` says so. */
  predicate MapsIff(cs: seq<Command>, p: nat, a: nat, owned: bool) {
    p < |cs| && Maps(cs[p], a) == owned
  }

  lemma SameAddresses(inp: Input, d: nat, i: nat, a: nat)
    requires WellFormed(inp, d) && i < |inp.cmds|
    ensures MapsIff(AllCommands(inp, d), Position(inp, d, i), a, Maps(inp.cmds[i], a))
  {
    CommandPlaced(inp, d, i);
  }

  lemma RegionAddresses(inp: Input, d: nat, j: nat, a: nat)
    requires WellFormed(inp, d) && j < |inp.regions|
    ensures MapsIff(AllCommands(inp, d), d + 1 + j, a, inp.regions[j].Has(a))
  {
    RegionCommandPlaced(inp, d, j);
  }

  lemma MapsWhatItOwns(inp: Input, d: nat, p: nat, a: nat)
    requires WellFormed(inp, d) && p < |inp.cmds| + |inp.regions|
    ensures MapsIff(AllCommands(inp, d), p, a, Owns(inp, d, p, a))
  {
    if p <= d {
      SameAddresses(inp, d, p, a);
      OwnsByPlace(inp, d, p, a);
    } else if p <= d + |inp.regions| {
      RegionAddresses(inp, d, p - d - 1, a);
      OwnsByPlace(inp, d, p, a);
    } else {
      BehindAddresses(inp, d, p - |inp.regions|, p, a);
      OwnsByPlace(inp, d, p, a);
    }
  }

  lemma OwnsByPlace(inp: Input, d: nat, p: nat, a: nat)
    requires d < |inp.cmds| && p < |inp.cmds| + |inp.regions|
    ensures p <= d ==> Owns(inp, d, p, a) == Maps(inp.cmds[p], a)
    ensures d < p <= d + |inp.regions| ==> Owns(inp, d, p, a) == inp.regions[p - d - 1].Has(a)
    ensures d + |inp.regions| < p ==> Owns(inp, d, p, a) == Maps(inp.cmds[p - |inp.regions|], a)
  {
  }

  lemma BehindAddresses(inp: Input, d: nat, i: nat, p: nat, a: nat)
    requires WellFormed(inp, d) && d < i < |inp.cmds| && p == i + |inp.regions|
    ensures MapsIff(AllCommands(inp, d), p, a, Maps(inp.cmds[i], a))
  {
    SameAddresses(inp, d, i, a);
  }

  lemma OwnedIsCovered(inp: Input, d: nat, p: nat, a: nat)
    requires d < |inp.cmds| && p < |inp.cmds| + |inp.regions|
    ensures d < p <= d + |inp.regions| && Owns(inp, d, p, a) ==> Covers(inp.regions, a)
  {
    if d < p <= d + |inp.regions| {
      assert inp.regions[p - d - 1] in inp.regions;
    }
  }

  lemma OwnersApart(inp: Input, d: nat, p: nat, q: nat, a: nat)
    requires d < |inp.cmds| && p < q < |inp.cmds| + |inp.regions|
    requires MapsApart(inp.cmds) && RegionsFree(inp.regions, inp.cmds) && RegionsApart(inp.regions)
    requires Owns(inp, d, p, a)
    ensures !Owns(inp, d, q, a)
  {
    OwnedIsCovered(inp, d, p, a);
    OwnedIsCovered(inp, d, q, a);
  }

  /** No address lies in two segments of the output. */
  lemma OutputMapsApart(inp: Input, d: nat)
    requires WellFormed(inp, d) && MapsApart(inp.cmds)
    requires RegionsFree(inp.regions, inp.cmds) && RegionsApart(inp.regions)
    ensures MapsApart(AllCommands(inp, d))
  {
    var cs := AllCommands(inp, d);
    CommandCount(inp, d);
    forall p, q, a | 0 <= p < q < |cs| && Maps(cs[p], a)
      ensures !Maps(cs[q], a)
    {
      MapsWhatItOwns(inp, d, p, a);
      MapsWhatItOwns(inp, d, q, a);
      OwnersApart(inp, d, p, q, a);
    }
  }

  // ---- The image ----

  /** A segment of the output that has a region's address is a region's. */
  lemma RegionOwner(inp: Input, d: nat, q: nat, a: nat)
    requires d < |inp.cmds| && q < |inp.cmds| + |inp.regions|
    requires RegionsFree(inp.regions, inp.cmds) && Covers(inp.regions, a) && Owns(inp, d, q, a)
    ensures d < q <= d + |inp.regions| && inp.regions[q - d - 1].Has(a)
  {
  }

  /** A segment of the output that has an address of the input's segment i is what that one became. */
  lemma SegmentOwner(inp: Input, d: nat, i: nat, q: nat, a: nat)
    requires d < |inp.cmds| && i < |inp.cmds| && q < |inp.cmds| + |inp.regions|
    requires MapsApart(inp.cmds) && RegionsFree(inp.regions, inp.cmds) && Maps(inp.cmds[i], a) && Owns(inp, d, q, a)
    ensures q == Position(inp, d, i)
  {
    OwnedIsCovered(inp, d, q, a);
  }

  lemma RegionAt(inp: Input, d: nat, q: nat, a: nat)
    requires Dumped(inp, d) && RegionsFree(inp.regions, inp.cmds) && Covers(inp.regions, a)
    requires q < |AllCommands(inp, d)| && Maps(AllCommands(inp, d)[q], a)
    ensures ByteOf(Output(inp), AllCommands(inp, d)[q], a) == Some(inp.mem(a))
  {
    CommandCount(inp, d);
    MapsWhatItOwns(inp, d, q, a);
    RegionOwner(inp, d, q, a);
    RegionLoads(inp, d, q - d - 1, a);
  }

  /** Every address in a region has memory's byte, even if regions overlap each other. */
  lemma RegionImage(inp: Input, d: nat, a: nat)
    requires Dumped(inp, d) && RegionsFree(inp.regions, inp.cmds) && Covers(inp.regions, a)
    ensures Image(Output(inp), AllCommands(inp, d), a) == Some(inp.mem(a))
  {
    var cs := AllCommands(inp, d);
    CommandCount(inp, d);
    forall q | 0 <= q < |cs| && Maps(cs[q], a) ensures ByteOf(Output(inp), cs[q], a) == Some(inp.mem(a)) {
      RegionAt(inp, d, q, a);
    }
    var p := MemoryLoads(inp, d, a);
    ImageOfAgreeing(Output(inp), cs, p, a, Some(inp.mem(a)));
  }

  /** An address of the input's segment i has the byte that what became of that one is loaded with. */
  lemma ImageOfSegment(inp: Input, d: nat, i: nat, a: nat)
    requires WellFormed(inp, d) && DumpIt(inp).Some? && MapsApart(inp.cmds) && RegionsFree(inp.regions, inp.cmds)
    requires i < |inp.cmds| && Maps(inp.cmds[i], a)
    ensures MapsIff(AllCommands(inp, d), Position(inp, d, i), a, true)
    ensures Image(Output(inp), AllCommands(inp, d), a)
         == ByteOf(Output(inp), AllCommands(inp, d)[Position(inp, d, i)], a)
  {
    var cs, p := AllCommands(inp, d), Position(inp, d, i);
    CommandCount(inp, d);
    SameAddresses(inp, d, i, a);
    forall q | 0 <= q < |cs| && Maps(cs[q], a) ensures q == p {
      MapsWhatItOwns(inp, d, q, a);
      SegmentOwner(inp, d, i, q, a);
    }
    ImageOfAgreeing(Output(inp), cs, p, a, ByteOf(Output(inp), cs[p], a));
  }

  /** The data segment's contents are loaded with b at address a. */
  ghost predicate DataLoads(inp: Input, d: nat, a: nat, b: Option<byte>)
    requires DumpIt(inp).Some? && d < |inp.cmds| && inp.cmds[d].LcSegment?
  {
    match Placed(inp, d)
    case LcSegment(seg) => seg.vmaddr <= a < seg.vmaddr + seg.filesize && Loaded(Output(inp), seg, a) == b
    case _ => false
  }

  lemma SectionDataLoads(inp: Input, d: nat, j: nat, sec: Section, i: nat, a: nat, b: Option<byte>)
    requires Dumped(inp, d) && a == sec.addr + i
    requires j < |DataSeg(inp, d).sections| && sec == DataSeg(inp, d).sections[j] && i < sec.size
    requires b == DumpedByte(inp, d, sec, i, SectionAt(inp, d, sec, i))
    ensures DataLoads(inp, d, a, b) && b.Some?
  {
    SectionLoads(inp, d, j, sec, i);
  }

  lemma ImageOfData(inp: Input, d: nat, a: nat, b: Option<byte>)
    requires Dumped(inp, d) && MapsApart(inp.cmds) && RegionsFree(inp.regions, inp.cmds) && DataLoads(inp, d, a, b)
    ensures Image(Output(inp), AllCommands(inp, d), a) == b
  {
    CommandPlaced(inp, d, d);
    ImageOfSegment(inp, d, d, a);
  }

  /** Every address in a section of the data segment has what was dumped there. */
  lemma SectionImage(inp: Input, d: nat, j: nat, sec: Section, i: nat, a: nat, b: Option<byte>)
    requires Dumped(inp, d) && MapsApart(inp.cmds) && RegionsFree(inp.regions, inp.cmds)
    requires j < |DataSeg(inp, d).sections| && sec == DataSeg(inp, d).sections[j] && i < sec.size
    requires a == sec.addr + i && b == DumpedByte(inp, d, sec, i, SectionAt(inp, d, sec, i))
    ensures Image(Output(inp), AllCommands(inp, d), a) == b && b.Some?
  {
    SectionDataLoads(inp, d, j, sec, i, a, b);
    ImageOfData(inp, d, a, b);
  }

  /** Every address in the file contents of another segment has the input's byte. */
  lemma SegmentImage(inp: Input, d: nat, i: nat, a: nat, k: nat)
    requires Dumped(inp, d) && MapsApart(inp.cmds) && RegionsFree(inp.regions, inp.cmds)
    requires i < |inp.cmds| && i != d && Maps(inp.cmds[i], a) && a < inp.cmds[i].seg.vmaddr + inp.cmds[i].seg.filesize
    requires k == inp.cmds[i].seg.fileoff + (a - inp.cmds[i].seg.vmaddr) && (i < d ==> DumpIt(inp).value.hdr <= k)
    ensures k < |inp.file| && Image(Output(inp), AllCommands(inp, d), a) == Some(inp.file[k])
  {
    SegmentLoads(inp, d, i, a, k);
    ImageOfSegment(inp, d, i, a);
  }
}
