/**
 * A whole run: the zone's ranges are recorded and merged, and the executable is dumped with what that leaves.
 */
module Snapshot {
  import opened Bytes
  import opened Regions
  import opened MachO
  import opened DumpSpec
  import opened DumpRun
  import opened DumpTheorems
  import opened DumpImage
  import Dumper

  /** The table covers what was recorded. */
  ghost predicate SameCover(rs: seq<Range>, ranges: seq<Range>) {
    forall p: nat :: Covers(rs, p) <==> Covers(ranges, p)
  }

  /** Then the dump's image has memory's byte wherever a recorded range is. */
  lemma RecordedImage(inp: Input, d: nat, ranges: seq<Range>, a: nat)
    requires Dumped(inp, d) && SameCover(inp.regions, ranges)
    requires RegionsFree(ranges, inp.cmds) && Covers(ranges, a)
    ensures Image(Output(inp), AllCommands(inp, d), a) == Some(inp.mem(a))
  {
    RegionImage(inp, d, a);
  }

  /** And no address is in two of its segments, if none is in two of the executable's or of the ranges. */
  lemma RecordedMapsApart(inp: Input, d: nat, ranges: seq<Range>)
    requires WellFormed(inp, d) && SameCover(inp.regions, ranges) && Disjoint(inp.regions)
    requires RegionsFree(ranges, inp.cmds) && MapsApart(inp.cmds)
    ensures MapsApart(AllCommands(inp, d))
  {
    DisjointRegionsApart(inp.regions);
    OutputMapsApart(inp, d);
  }

  method RecordAndMerge(ranges: seq<Range>) returns (regions: seq<Range>)
    requires AllFit(Recorded(ranges))
    ensures regions != [] && AllFit(regions) && Sorted(regions) && NoneTouching(regions)
    ensures MergesSafely(Recorded(ranges)) ==> SameCover(regions, Recorded(ranges))
    ensures NoOverlaps(Recorded(ranges)) ==> Disjoint(regions)
  {
    var table := new UnexecRegions();
    table.Record(ranges);
    assert table.Contents() == Recorded(ranges);
    table.Merge();
    regions := table.regions[..table.num];
  }

  /**
   * If the dump succeeds, loading its output gives memory's byte at every address of every range that was
   * recorded, provided the executable is well formed and the ranges are free of its segments.
   */
  method TakeSnapshot(codec: Codec, file: seq<byte>, header: Header, cmds: seq<Command>, ranges: seq<Range>,
                      mem: nat -> byte) returns (ok: bool, out: seq<byte>, regions: seq<Range>)
    requires header.ncmds == |cmds| && AllFit(Recorded(ranges))
    ensures ok <==> DumpIt(Input(codec, file, header, cmds, regions, mem)).Some?
    ensures ok ==> out == Output(Input(codec, file, header, cmds, regions, mem))
    ensures NoOverlaps(Recorded(ranges)) ==> Disjoint(regions)
    ensures MergesSafely(Recorded(ranges)) ==> SameCover(regions, Recorded(ranges))
    ensures ok && MergesSafely(Recorded(ranges)) && RegionsFree(Recorded(ranges), cmds) ==>
      forall d: nat, a: nat ::
        WellFormed(Input(codec, file, header, cmds, regions, mem), d) && Covers(Recorded(ranges), a) ==>
          Image(out, AllCommands(Input(codec, file, header, cmds, regions, mem), d), a) == Some(mem(a))
  {
    regions := RecordAndMerge(ranges);
    var inp := Input(codec, file, header, cmds, regions, mem);
    ok, out := Dumper.Unexec(inp);
    if ok && MergesSafely(Recorded(ranges)) && RegionsFree(Recorded(ranges), cmds) {
      forall d: nat, a: nat | WellFormed(inp, d) && Covers(Recorded(ranges), a)
        ensures Image(out, AllCommands(inp, d), a) == Some(mem(a))
      {
        RecordedImage(inp, d, Recorded(ranges), a);
      }
    }
  }
}
