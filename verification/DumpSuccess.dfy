/** When a dump succeeds: everything it copies is there, and the new commands fit in front of the text. */
module DumpSuccess {
  import opened Bytes
  import opened Regions
  import opened MachO
  import opened DumpSpec
  import opened DumpWrites
  import opened DumpRun
  import opened DumpRest
  import opened DumpTheorems

  // ---- What one command needs ----

  /** n bytes from this offset on are in the input. */
  predicate InInput(inp: Input, from: nat, n: nat) {
    n == 0 || from + n <= |inp.file|
  }

  /** The kind of relocation can be handled, and its original bytes are there. */
  predicate CanUndo(inp: Input, data: Option<DataSegment>, r: Reloc) {
    match r
    case Unhandled => false
    case PreboundLazy => true
    case Vanilla(address, _) =>
      data.Some?
      && (InSegment(data.value.seg, address) ==>
            0 <= RelocSource(data.value, address) && InInput(inp, RelocSource(data.value, address), RelocBytes(r)))
  }

  predicate CanUndoAll(inp: Input, data: Option<DataSegment>, rs: seq<Reloc>) {
    forall i :: 0 <= i < |rs| ==> CanUndo(inp, data, rs[i])
  }

  lemma {:induction false} UnrelocatedIff(inp: Input, data: Option<DataSegment>, rs: seq<Reloc>)
    ensures Unrelocated(inp, data, rs).Some? <==> CanUndoAll(inp, data, rs)
    decreases |rs|
  {
    if rs != [] {
      UnrelocatedIff(inp, data, rs[1..]);
      assert forall i :: 1 <= i < |rs| ==> rs[i] == rs[1..][i - 1];
    }
  }

  /** The section's name is known, and its contents are there if they are copied. */
  predicate CanDump(inp: Input, sec: Section) {
    DumpedSection(sec.name) || (CopiedSection(sec.name) && InInput(inp, sec.offset, sec.size))
  }

  predicate CanDumpAll(inp: Input, ss: seq<Section>) {
    forall j :: 0 <= j < |ss| ==> CanDump(inp, ss[j])
  }

  lemma {:induction false} SectionWritesIff(inp: Input, at: nat, seg: Segment, ss: seq<Section>)
    ensures SectionWrites(inp, at, seg, ss).Some? <==> CanDumpAll(inp, ss)
    decreases |ss|
  {
    if ss != [] {
      SectionWritesIff(inp, at + SECT_HDR, seg, ss[1..]);
      assert forall j :: 1 <= j < |ss| ==> ss[j] == ss[1..][j - 1];
    }
  }

  predicate CanCopy(inp: Input, data: Option<DataSegment>, c: Command) {
    && (c.LcSegment? ==> InInput(inp, c.seg.fileoff, c.seg.filesize))
    && (c.LcDysymtab? ==> CanUndoAll(inp, data, c.local + c.external))
  }

  lemma CopyStepIff(inp: Input, s: Dump, c: Command)
    requires !IsData(c)
    ensures DumpCommand(inp, s, c).Some? <==> CanCopy(inp, s.data, c)
  {
    if c.LcDysymtab? {
      UnrelocatedIff(inp, s.data, c.local + c.external);
    }
  }

  // ---- The run ----

  /** The first i commands, without the data segment's, can be copied. */
  predicate CanCopyAll(inp: Input, data: Option<DataSegment>, cs: seq<Command>) {
    cs == [] || (CanCopyAll(inp, data, cs[..|cs| - 1]) && CanCopy(inp, data, cs[|cs| - 1]))
  }

  lemma CanCopyNext(inp: Input, data: Option<DataSegment>, cs: seq<Command>, c: Command)
    ensures CanCopyAll(inp, data, cs + [c]) <==> CanCopyAll(inp, data, cs) && CanCopy(inp, data, c)
  {
    assert (cs + [c])[..|cs|] == cs;
  }

  lemma {:induction false} FrontRunsIff(inp: Input, d: nat, i: nat)
    requires WellFormed(inp, d) && i <= d
    ensures At(inp, i).Some? <==> CanCopyAll(inp, None, inp.cmds[..i])
    decreases i
  {
    if i > 0 {
      FrontRunsIff(inp, d, i - 1);
      TakeNext(inp.cmds, i - 1);
      CanCopyNext(inp, None, inp.cmds[..i - 1], inp.cmds[i - 1]);
      if At(inp, i - 1).Some? {
        PreUnmoved(inp, d, i - 1);
        assert PreOk(DataSeg(inp, d), inp.cmds[i - 1]);
        CopyStepIff(inp, At(inp, i - 1).value, inp.cmds[i - 1]);
      }
    }
  }

  lemma DataRunsIff(inp: Input, d: nat)
    requires WellFormed(inp, d) && At(inp, d).Some?
    ensures At(inp, d + 1).Some? <==> CanDumpAll(inp, DataSeg(inp, d).sections)
  {
    PreUnmoved(inp, d, d);
    SectionWritesIff(inp, At(inp, d).value.hdr + SEG_HDR, DataSeg(inp, d), DataSeg(inp, d).sections);
  }

  /** The data segment that relocations refer to. */
  function PlacedData(inp: Input, d: nat): Option<DataSegment>
    requires d < |inp.cmds| && inp.cmds[d].LcSegment?
  {
    Some(DataSegment(DataSeg(inp, d).fileoff, Placed(inp, d).seg))
  }

  lemma RestRunsNext(inp: Input, d: nat, i: nat)
    requires WellFormed(inp, d) && d < i < |inp.cmds| && At(inp, i).Some?
    ensures At(inp, i + 1).Some? <==> CanCopy(inp, PlacedData(inp, d), inp.cmds[i])
  {
    RestMoves(inp, d, i);
    assert PostOk(DataSeg(inp, d), Growth(inp, d), inp.cmds[i]);
    CopyStepIff(inp, At(inp, i).value, inp.cmds[i]);
  }

  lemma {:induction false} RestRunsIff(inp: Input, d: nat, i: nat)
    requires WellFormed(inp, d) && d < i <= |inp.cmds| && At(inp, d + 1).Some?
    ensures At(inp, i).Some? <==> CanCopyAll(inp, PlacedData(inp, d), inp.cmds[d + 1..i])
    decreases i
  {
    if i > d + 1 {
      RestRunsIff(inp, d, i - 1);
      SliceNext(inp.cmds, d + 1, i - 1);
      CanCopyNext(inp, PlacedData(inp, d), inp.cmds[d + 1..i - 1], inp.cmds[i - 1]);
      if At(inp, i - 1).Some? {
        RestRunsNext(inp, d, i - 1);
      }
    }
  }

  // ---- The size of the header ----

  /** The header ends behind the commands written so far. */
  predicate Sized(codec: Codec, s: Dump) {
    s.hdr == MACH_HDR + |CommandsBytes(codec, s.emitted)|
  }

  lemma EmitSized(inp: Input, s: Dump, writes: seq<Patch>, c: Command)
    requires Sized(inp.codec, s)
    ensures Sized(inp.codec, Emit(inp, s, writes, c))
  {
    CommandsBytesAppend(inp.codec, s.emitted, c);
  }

  lemma DataSized(inp: Input, s: Dump, seg: Segment, base: u32, r: Dump)
    requires Sized(inp.codec, s) && DataDone(inp, s, seg, base, r)
    ensures Sized(inp.codec, r)
  {
    DataHeadsAreCommands(inp.codec, s.emitted, seg, inp.regions, base);
  }

  ghost predicate SizedAt(inp: Input, i: nat)
    requires i <= |inp.cmds|
  {
    match At(inp, i)
    case Some(s) => Sized(inp.codec, s)
    case None => false
  }

  lemma SizedNext(inp: Input, i: nat)
    requires i < |inp.cmds| && At(inp, i + 1).Some? && !IsData(inp.cmds[i]) && SizedAt(inp, i)
    ensures SizedAt(inp, i + 1)
  {
    var s, c := At(inp, i).value, inp.cmds[i];
    EmitSized(inp, s, ContentWrites(inp, s, c).value, ShiftCommand(c, s.delta));
  }

  lemma SizedData(inp: Input, d: nat)
    requires WellFormed(inp, d) && At(inp, d + 1).Some?
    ensures SizedAt(inp, d + 1)
  {
    DataReached(inp, d);
    DataSized(inp, At(inp, d).value, DataSeg(inp, d), RegionBase(inp, d), At(inp, d + 1).value);
  }

  lemma {:induction false} RestSized(inp: Input, d: nat, i: nat)
    requires WellFormed(inp, d) && d < i <= |inp.cmds| && At(inp, i).Some?
    ensures SizedAt(inp, i)
    decreases i
  {
    if i == d + 1 {
      SizedData(inp, d);
    } else {
      RestSized(inp, d, i - 1);
      assert PostOk(DataSeg(inp, d), Growth(inp, d), inp.cmds[i - 1]);
      SizedNext(inp, i - 1);
    }
  }

  // ---- Success ----

  /** All that a dump copies is in the input, and it knows all sections and relocations. */
  ghost predicate Complete(inp: Input, d: nat)
    requires d < |inp.cmds| && inp.cmds[d].LcSegment?
  {
    && CanCopyAll(inp, None, inp.cmds[..d])
    && CanDumpAll(inp, DataSeg(inp, d).sections)
    && CanCopyAll(inp, PlacedData(inp, d), inp.cmds[d + 1..|inp.cmds|])
  }

  lemma RunsIff(inp: Input, d: nat)
    requires WellFormed(inp, d)
    ensures At(inp, |inp.cmds|).Some? <==> Complete(inp, d)
  {
    FrontRunsIff(inp, d, d);
    if At(inp, |inp.cmds|).Some? {
      Passed(inp, d, |inp.cmds|);
      Passed(inp, d + 1, |inp.cmds|);
    }
    if At(inp, d).Some? {
      DataRunsIff(inp, d);
      if At(inp, d + 1).Some? {
        RestRunsIff(inp, d, |inp.cmds|);
      }
    }
  }

  /**
   * The dump of a well-formed executable succeeds if and only if all that it copies is there and the
   * rewritten commands together with the regions' end in front of the text.
   */
  lemma DumpSucceedsIff(inp: Input, d: nat)
    requires WellFormed(inp, d)
    ensures DumpIt(inp).Some?
       <==> Complete(inp, d) && MACH_HDR + |CommandsBytes(inp.codec, AllCommands(inp, d))| <= TextLow(inp.cmds)
  {
    RunsIff(inp, d);
    if At(inp, |inp.cmds|).Some? {
      RestSized(inp, d, |inp.cmds|);
      RestMoves(inp, d, |inp.cmds|);
    }
  }

  /** Moving a command's offsets does not change its size. */
  ghost predicate KeepsSizes(codec: Codec) {
    forall c: Command, delta: u32 :: |codec.other(ShiftCommand(c, delta))| == |codec.other(c)|
  }

  lemma ShiftKeepsSize(codec: Codec, c: Command, delta: u32)
    requires KeepsSizes(codec)
    ensures |CommandBytes(codec, ShiftCommand(c, delta))| == |CommandBytes(codec, c)|
  {
  }

  lemma {:induction false} ShiftedSize(codec: Codec, cs: seq<Command>, delta: u32)
    requires KeepsSizes(codec)
    ensures |CommandsBytes(codec, Shifted(cs, delta))| == |CommandsBytes(codec, cs)|
    decreases |cs|
  {
    if cs != [] {
      var front, last := cs[..|cs| - 1], cs[|cs| - 1];
      ShiftedSize(codec, front, delta);
      ShiftKeepsSize(codec, last, delta);
      CommandsBytesAppend(codec, Shifted(front, delta), ShiftCommand(last, delta));
    }
  }

  lemma SplitSize(codec: Codec, cs: seq<Command>, d: nat)
    requires d < |cs|
    ensures |CommandsBytes(codec, cs)|
         == |CommandsBytes(codec, cs[..d])| + |CommandBytes(codec, cs[d])| + |CommandsBytes(codec, cs[d + 1..|cs|])|
  {
    assert cs == cs[..d] + [cs[d]] + cs[d + 1..|cs|];
    CommandsBytesJoin(codec, cs[..d] + [cs[d]], cs[d + 1..|cs|]);
    CommandsBytesAppend(codec, cs[..d], cs[d]);
  }

  lemma PlacedSize(codec: Codec, seg: Segment)
    ensures |CommandBytes(codec, LcSegment(PlaceData(seg)))| == |CommandBytes(codec, LcSegment(seg))|
  {
  }

  lemma FrontSize(codec: Codec, before: seq<Command>, seg: Segment, rs: seq<Range>, base: u32)
    ensures |CommandsBytes(codec, before + [LcSegment(PlaceData(seg))] + RegionCommands(rs, base))|
         == |CommandsBytes(codec, before)| + |CommandBytes(codec, LcSegment(seg))| + SEG_HDR * |rs|
  {
    DataHeadsAreCommands(codec, before, seg, rs, base);
    PlacedSize(codec, seg);
  }

  /** The commands grow by one 56-octet command per region. */
  lemma CommandsGrow(inp: Input, d: nat)
    requires WellFormed(inp, d) && KeepsSizes(inp.codec)
    ensures |CommandsBytes(inp.codec, AllCommands(inp, d))|
         == |CommandsBytes(inp.codec, inp.cmds)| + SEG_HDR * |inp.regions|
  {
    var rest := inp.cmds[d + 1..|inp.cmds|];
    CommandsBytesJoin(inp.codec, Front(inp, d), Shifted(rest, Growth(inp, d)));
    FrontSize(inp.codec, inp.cmds[..d], DataSeg(inp, d), inp.regions, RegionBase(inp, d));
    ShiftedSize(inp.codec, rest, Growth(inp, d));
    SplitSize(inp.codec, inp.cmds, d);
  }

  /** So whether there is room can be told before the dump. */
  lemma DumpSucceedsIfRoom(inp: Input, d: nat)
    requires WellFormed(inp, d) && KeepsSizes(inp.codec)
    ensures DumpIt(inp).Some?
       <==> Complete(inp, d)
            && MACH_HDR + |CommandsBytes(inp.codec, inp.cmds)| + SEG_HDR * |inp.regions| <= TextLow(inp.cmds)
  {
    DumpSucceedsIff(inp, d);
    CommandsGrow(inp, d);
  }

  /** A relocation in the data segment can only be undone below the middle of the address space. */
  lemma UndoneBelowMiddle(inp: Input, seg: Segment, address: u32, length: RelocLength)
    requires seg.fileoff + seg.vmsize < TWO32 && InSegment(seg, address)
    ensures CanUndo(inp, Some(DataSegment(seg.fileoff, seg)), Vanilla(address, length))
       <==> address < 0x8000_0000
            && InInput(inp, seg.fileoff + (address - seg.vmaddr), RelocBytes(Vanilla(address, length)))
  {
  }
}
