/**
 * The dumper itself: it seeks and writes in the output file, rewrites the load commands in place and keeps
 * the offset adjustment and the header's end as it goes.  Methods return false where the source exits with
 * an error.
 */
module Dumper {
  import opened Bytes
  import opened Regions
  import opened MachO
  import opened DumpSpec
  import DumpRun

  const COPY_BUFSZ := 1024

  /** Two writes, one behind the other, are one. */
  lemma WriteTwice(f: seq<byte>, at: nat, a: seq<byte>, b: seq<byte>)
    ensures Write(Write(f, at, a), at + |a|, b) == Write(f, at, a + b)
  {
    if a == [] {
      assert a + b == b;
    } else if b == [] {
      assert a + b == a;
    } else {
      var one, two := Write(f, at, a + b), Write(Write(f, at, a), at + |a|, b);
      assert |one| == |two|;
      forall i | 0 <= i < |one| ensures one[i] == two[i] {
        assert one[i] == Written(f, at, a + b, i);
        assert two[i] == Written(Write(f, at, a), at + |a|, b, i);
      }
    }
  }

  /** n bytes of a file. */
  function Piece(file: seq<byte>, src: nat, n: nat): (p: seq<byte>)
    requires n == 0 || src + n <= |file|
    ensures |p| == n
  {
    if n == 0 then [] else file[src..src + n]
  }

  lemma PieceJoin(file: seq<byte>, src: nat, n: nat, m: nat)
    requires 0 < m && src + n + m <= |file|
    ensures Piece(file, src, n) + Piece(file, src + n, m) == Piece(file, src, n + m)
  {
  }

  lemma CopyStep(file: seq<byte>, f: seq<byte>, dest: nat, src: nat, n: nat, m: nat)
    requires 0 < m && src + n + m <= |file|
    ensures Write(Write(f, dest, Piece(file, src, n)), dest + n, Piece(file, src + n, m))
         == Write(f, dest, Piece(file, src, n + m))
  {
    WriteTwice(f, dest, Piece(file, src, n), Piece(file, src + n, m));
    PieceJoin(file, src, n, m);
  }

  lemma CopiedPiece(inp: Input, log: seq<Patch>, dest: nat, src: nat, n: nat)
    requires n == 0 || src + n <= |inp.file|
    ensures Copied(inp, dest, src, n).Some?
    ensures Apply([], log + Copied(inp, dest, src, n).value) == Write(Apply([], log), dest, Piece(inp.file, src, n))
  {
    if n == 0 {
      assert log + [] == log;
    } else {
      ApplyAppend([], log, Patch(dest, inp.file[src..src + n]));
    }
  }

  // ---- Specification helpers ----

  lemma EmitLater(inp: Input, s: Dump, writes: seq<Patch>, c: Command)
    ensures Emit(inp, s.(log := s.log + writes), [], c) == Emit(inp, s, writes, c)
  {
    var head := [Patch(s.hdr, CommandBytes(inp.codec, c))];
    assert [] + head == head;
    Reassociate(s.log, writes, head);
  }

  lemma EmitOnly(inp: Input, s: Dump, c: Command)
    ensures Emit(inp, s, [], c).log == s.log + [Patch(s.hdr, CommandBytes(inp.codec, c))]
  {
    assert [] + [Patch(s.hdr, CommandBytes(inp.codec, c))] == [Patch(s.hdr, CommandBytes(inp.codec, c))];
  }

  /** The state behind a command other than the data segment's, if its contents could be written. */
  function Moved(inp: Input, s: Dump, c: Command): Dump
    requires ContentWrites(inp, s, c).Some?
  {
    Emit(inp, s, ContentWrites(inp, s, c).value, ShiftCommand(c, s.delta))
  }

  /** The writes of what is left, behind those that were done. */
  function Behind(done: seq<Patch>, rest: Option<seq<Patch>>): Option<seq<Patch>> {
    if rest.None? then None else Some(done + rest.value)
  }

  lemma BehindNothing(rest: Option<seq<Patch>>)
    ensures Behind([], rest) == rest
  {
    if rest.Some? {
      assert [] + rest.value == rest.value;
    }
  }

  lemma NextDone(log: seq<Patch>, done: seq<Patch>, more: seq<Patch>)
    ensures log + done + more == log + (done + more)
    ensures done + [] == done
  {
  }

  lemma {:induction false} UnrelocatedJoin(inp: Input, data: Option<DataSegment>, a: seq<Reloc>, b: seq<Reloc>)
    ensures Unrelocated(inp, data, a).None? ==> Unrelocated(inp, data, a + b).None?
    ensures Unrelocated(inp, data, a).Some? ==>
      Unrelocated(inp, data, a + b) == Behind(Unrelocated(inp, data, a).value, Unrelocated(inp, data, b))
    decreases |a|
  {
    if a == [] {
      assert a + b == b;
      if Unrelocated(inp, data, b).Some? {
        assert [] + Unrelocated(inp, data, b).value == Unrelocated(inp, data, b).value;
      }
    } else {
      assert (a + b)[1..] == a[1..] + b;
      UnrelocatedJoin(inp, data, a[1..], b);
      var first, rest := RelocWrites(inp, data, a[0]), Unrelocated(inp, data, a[1..]);
      if first.Some? && rest.Some? && Unrelocated(inp, data, b).Some? {
        Reassociate(first.value, rest.value, Unrelocated(inp, data, b).value);
      }
    }
  }

  lemma UnrelocatedNext(inp: Input, data: Option<DataSegment>, rs: seq<Reloc>, i: nat, done: seq<Patch>)
    requires i < |rs|
    ensures RelocWrites(inp, data, rs[i]).None? ==> Unrelocated(inp, data, rs[i..]).None?
    ensures RelocWrites(inp, data, rs[i]).Some? ==>
      Behind(done, Unrelocated(inp, data, rs[i..]))
      == Behind(done + RelocWrites(inp, data, rs[i]).value, Unrelocated(inp, data, rs[i + 1..]))
  {
    assert rs[i..][1..] == rs[i + 1..];
    var first, rest := RelocWrites(inp, data, rs[i]), Unrelocated(inp, data, rs[i + 1..]);
    if first.Some? && rest.Some? {
      Reassociate(done, first.value, rest.value);
    }
  }

  /** The writes of section j, behind those of the sections in front of it. */
  function SectionPatches(inp: Input, at: nat, seg: Segment, sec: Section): Option<seq<Patch>> {
    var content := SectionContent(inp, seg, sec);
    if content.None? then None else Some(content.value + [Patch(at, inp.codec.section(PlaceSection(seg, sec)))])
  }

  lemma SectionWritesNext(inp: Input, at: nat, seg: Segment, ss: seq<Section>, j: nat, done: seq<Patch>)
    requires j < |ss|
    ensures SectionPatches(inp, at, seg, ss[j]).None? ==> SectionWrites(inp, at, seg, ss[j..]).None?
    ensures SectionPatches(inp, at, seg, ss[j]).Some? ==>
      Behind(done, SectionWrites(inp, at, seg, ss[j..]))
      == Behind(done + SectionPatches(inp, at, seg, ss[j]).value, SectionWrites(inp, at + SECT_HDR, seg, ss[j + 1..]))
  {
    assert ss[j..][1..] == ss[j + 1..];
    var first, rest := SectionPatches(inp, at, seg, ss[j]), SectionWrites(inp, at + SECT_HDR, seg, ss[j + 1..]);
    if first.Some? && rest.Some? {
      Reassociate(done, first.value, rest.value);
    }
  }

  /** The sections once the first j were placed. */
  predicate PlacedUpTo(seg: Segment, ss: seq<Section>, now: seq<Section>, j: nat) {
    |now| == |ss| && forall m :: 0 <= m < |ss| ==> now[m] == if m < j then PlaceSection(seg, ss[m]) else ss[m]
  }

  lemma AllPlaced(seg: Segment, ss: seq<Section>, now: seq<Section>)
    requires PlacedUpTo(seg, ss, now, |ss|)
    ensures now == PlaceSections(seg, ss)
  {
    forall m | 0 <= m < |ss| ensures now[m] == PlaceSections(seg, ss)[m] {
      PlaceSectionsAt(seg, ss, m);
    }
  }

  lemma WriteDataLog(inp: Input, s: Dump, seg: Segment, sections: seq<Patch>)
    ensures WriteData(inp, s, seg, sections).log == s.log + sections + [Patch(s.hdr, inp.codec.segment(PlaceData(seg)))]
  {
    Reassociate(s.log, sections, [Patch(s.hdr, inp.codec.segment(PlaceData(seg)))]);
  }

  /** s is the state in front of command i. */
  predicate Reached(inp: Input, i: nat, s: Dump)
    requires i <= |inp.cmds|
  {
    match At(inp, i)
    case Some(t) => t == s
    case None => false
  }

  lemma AtNext(inp: Input, i: nat, s: Dump)
    requires i < |inp.cmds| && Reached(inp, i, s)
    ensures var next := DumpSpec.DumpCommand(inp, s, inp.cmds[i]);
      && (next.Some? ==> Reached(inp, i + 1, next.value))
      && (next.None? ==> At(inp, |inp.cmds|).None?)
  {
    if At(inp, |inp.cmds|).Some? {
      DumpRun.Passed(inp, i + 1, |inp.cmds|);
    }
  }

  lemma CountNext(n: nat)
    ensures Add32(n % TWO32, 1) == (n + 1) % TWO32
  {
  }

  class Dumper {
    const inp: Input
    var out: seq<byte>
    var mh: Header
    var currHeaderOffset: nat
    var delta: u32
    var lca: array<Command>
    var dataSegment: int                // index of the data segment's command, -1 before it was met
    var dataSegmentOldFileoff: u32
    var textSegLowestOffset: u32
    ghost var s: Dump                   // the abstract state

    /** The output file is what the writes so far made of it. */
    ghost predicate Synced()
      reads this
    {
      out == Apply([], s.log)
    }

    ghost predicate Tracked()
      reads this
    {
      && Synced() && delta == s.delta && currHeaderOffset == s.hdr
      && mh == inp.header.(ncmds := s.ncmds % TWO32) && lca.Length == |inp.cmds|
    }

    ghost predicate Valid()
      reads this, lca
    {
      match s.data
      case None => Tracked() && dataSegment == -1
      case Some(data) =>
        && Tracked() && 0 <= dataSegment < lca.Length && lca[dataSegment] == LcSegment(data.seg)
        && dataSegmentOldFileoff == data.oldFileoff
    }

    constructor (inp: Input)
      requires inp.header.ncmds == |inp.cmds|
      ensures Valid() && fresh(lca) && this.inp == inp && s == Start(inp) && lca[..] == inp.cmds
      ensures textSegLowestOffset == NO_TEXT_OFFSET
    {
      this.inp := inp;
      out, mh, currHeaderOffset, delta := [], inp.header, MACH_HDR, 0;
      dataSegment, dataSegmentOldFileoff, textSegLowestOffset := -1, 0, NO_TEXT_OFFSET;
      lca := new Command[|inp.cmds|](i requires 0 <= i < |inp.cmds| => inp.cmds[i]);
      s := Start(inp);
    }

    /** lseek and write. */
    method UnexecWrite(dest: nat, src: seq<byte>)
      requires Synced()
      modifies this`out, this`s
      ensures Synced() && s == old(s).(log := old(s).log + [Patch(dest, src)])
    {
      out := Write(out, dest, src);
      ApplyAppend([], s.log, Patch(dest, src));
      s := s.(log := s.log + [Patch(dest, src)]);
    }

    /** Copies in pieces of at most 1024 octets; a read may return fewer, and none at the end of the input. */
    method CopyPieces(dest: nat, src: nat, count: nat) returns (ok: bool)
      modifies this`out
      ensures ok <==> count == 0 || src + count <= |inp.file|
      ensures ok ==> out == Write(old(out), dest, Piece(inp.file, src, count))
    {
      var done := 0;
      while done < count
        invariant done <= count && (done == 0 || src + done <= |inp.file|)
        invariant out == Write(old(out), dest, Piece(inp.file, src, done))
      {
        var wanted := if count - done > COPY_BUFSZ then COPY_BUFSZ else count - done;
        if |inp.file| <= src + done {
          return false;
        }
        assert 1 <= wanted && src + done + 1 <= |inp.file|;
        var got: nat :| 1 <= got <= wanted && src + done + got <= |inp.file|;
        CopyStep(inp.file, old(out), dest, src, done, got);
        out := Write(out, dest + done, Piece(inp.file, src + done, got));
        done := done + got;
      }
      return true;
    }

    /** A copy, once complete, is one write. */
    method UnexecCopy(dest: nat, src: nat, count: nat) returns (ok: bool)
      requires Synced()
      modifies this`out, this`s
      ensures ok <==> Copied(inp, dest, src, count).Some?
      ensures ok ==> Synced() && s == old(s).(log := old(s).log + Copied(inp, dest, src, count).value)
    {
      ok := CopyPieces(dest, src, count);
      if ok {
        CopiedPiece(inp, s.log, dest, src, count);
        s := s.(log := s.log + Copied(inp, dest, src, count).value);
      }
    }

    /** Writes a load command behind those already written. */
    method WriteCommand(c: Command)
      requires Synced() && currHeaderOffset == s.hdr
      modifies this`out, this`s, this`currHeaderOffset
      ensures Synced() && currHeaderOffset == s.hdr && s == Emit(inp, old(s), [], c)
    {
      var bytes := CommandBytes(inp.codec, c);
      UnexecWrite(currHeaderOffset, bytes);
      currHeaderOffset := currHeaderOffset + |bytes|;
      EmitOnly(inp, old(s), c);
      s := Emit(inp, old(s), [], c);
    }

    /** Adds delta to a segment's file offset and to its sections', one by one. */
    method ShiftOffsets(seg: Segment) returns (scp: Segment)
      ensures scp == ShiftSegment(seg, delta)
    {
      scp := seg.(fileoff := Add32(seg.fileoff, delta));
      ghost var shifted := ShiftSections(seg.sections, delta);
      var j := 0;
      while j < |scp.sections|
        invariant j <= |scp.sections| == |seg.sections| && scp == ShiftSegment(seg, delta).(sections := scp.sections)
        invariant forall m :: 0 <= m < |scp.sections| ==>
          scp.sections[m] == if m < j then shifted[m] else seg.sections[m]
      {
        var sectp := scp.sections[j];
        scp := scp.(sections := scp.sections[j := sectp.(offset := Add32(sectp.offset, delta))]);
        j := j + 1;
      }
      assert scp.sections == shifted;
    }

    /** A segment other than the data segment. */
    method CopySegment(i: nat) returns (ok: bool)
      requires Valid() && i < lca.Length && i != dataSegment && lca[i].LcSegment? && !IsData(lca[i])
      modifies this`out, this`s, this`currHeaderOffset, lca
      ensures ok <==> ContentWrites(inp, old(s), old(lca[i])).Some?
      ensures ok ==> Valid() && s == Moved(inp, old(s), old(lca[i]))
      ensures lca[..] == old(lca[..])[i := ShiftCommand(old(lca[i]), delta)]
    {
      var oldFileoff := lca[i].seg.fileoff;
      var scp := ShiftOffsets(lca[i].seg);
      lca[i] := LcSegment(scp);
      ok := UnexecCopy(scp.fileoff, oldFileoff, scp.filesize);
      if ok {
        WriteCommand(lca[i]);
        EmitLater(inp, old(s), ContentWrites(inp, old(s), old(lca[i])).value, LcSegment(scp));
      }
    }

    method CopySymtab(i: nat)
      requires Valid() && i < lca.Length && i != dataSegment && lca[i].LcSymtab?
      modifies this`out, this`s, this`currHeaderOffset, lca
      ensures Valid() && s == Emit(inp, old(s), [], ShiftCommand(old(lca[i]), delta))
      ensures lca[..] == old(lca[..])[i := ShiftCommand(old(lca[i]), delta)]
    {
      lca[i] := lca[i].(symoff := Add32(lca[i].symoff, delta));
      lca[i] := lca[i].(stroff := Add32(lca[i].stroff, delta));
      WriteCommand(lca[i]);
    }

    method CopyTwolevelhints(i: nat)
      requires Valid() && i < lca.Length && i != dataSegment && lca[i].LcHints?
      modifies this`out, this`s, this`currHeaderOffset, lca
      ensures Valid() && s == Emit(inp, old(s), [], ShiftCommand(old(lca[i]), delta))
      ensures lca[..] == old(lca[..])[i := ShiftCommand(old(lca[i]), delta)]
    {
      if lca[i].nhints > 0 {
        lca[i] := lca[i].(offset := Add32(lca[i].offset, delta));
      }
      WriteCommand(lca[i]);
    }

    method CopyOther(i: nat)
      requires Valid() && i < lca.Length && i != dataSegment && lca[i].LcOther?
      modifies this`out, this`s, this`currHeaderOffset
      ensures Valid() && s == Emit(inp, old(s), [], lca[i])
    {
      WriteCommand(lca[i]);
    }

    /** Undoes one relocation entry, if it lies in the data segment. */
    method UndoReloc(r: Reloc) returns (ok: bool)
      requires Valid()
      modifies this`out, this`s
      ensures ok <==> RelocWrites(inp, old(s).data, r).Some?
      ensures ok ==> Valid() && s == old(s).(log := old(s).log + RelocWrites(inp, old(s).data, r).value)
    {
      NextDone(s.log, s.log, []);
      match r {
        case Vanilla(address, _) =>
          if dataSegment == -1 {
            return false;
          }
          var scp := lca[dataSegment].seg;
          if scp.vmaddr <= address < Add32(scp.vmaddr, scp.vmsize) {
            var srcOff := dataSegmentOldFileoff + SignedAddress(address) - scp.vmaddr;
            var dstOff := Sub32(Add32(scp.fileoff, address), scp.vmaddr);
            if srcOff < 0 {
              return false;
            }
            ok := UnexecCopy(dstOff, srcOff, RelocBytes(r));
          } else {
            ok := true;
          }
        case PreboundLazy =>
          ok := true;
        case Unhandled =>
          ok := false;
      }
    }

    /** Undoes relocations of the data segment, entry by entry. */
    method Unrelocate(rs: seq<Reloc>) returns (ok: bool)
      requires Valid()
      modifies this`out, this`s
      ensures ok <==> Unrelocated(inp, old(s).data, rs).Some?
      ensures ok ==> Valid() && s == old(s).(log := old(s).log + Unrelocated(inp, old(s).data, rs).value)
    {
      var i := 0;
      ghost var done: seq<Patch> := [];
      assert rs[0..] == rs;
      BehindNothing(Unrelocated(inp, s.data, rs));
      assert s.log + [] == s.log;
      while i < |rs|
        invariant i <= |rs| && Valid() && s == old(s).(log := old(s).log + done)
        invariant Behind(done, Unrelocated(inp, s.data, rs[i..])) == Unrelocated(inp, s.data, rs)
      {
        UnrelocatedNext(inp, s.data, rs, i, done);
        ok := UndoReloc(rs[i]);
        if !ok {
          return;
        }
        NextDone(old(s).log, done, RelocWrites(inp, s.data, rs[i]).value);
        done := done + RelocWrites(inp, s.data, rs[i]).value;
        i := i + 1;
      }
      return true;
    }

    method CopyDysymtab(i: nat) returns (ok: bool)
      requires Valid() && i < lca.Length && i != dataSegment && lca[i].LcDysymtab?
      modifies this`out, this`s, this`currHeaderOffset, lca
      ensures ok <==> ContentWrites(inp, old(s), old(lca[i])).Some?
      ensures ok ==> Valid() && s == Moved(inp, old(s), old(lca[i]))
      ensures ok ==> lca[..] == old(lca[..])[i := ShiftCommand(old(lca[i]), delta)]
    {
      var c := lca[i];
      UnrelocatedJoin(inp, s.data, c.local, c.external);
      ok := Unrelocate(c.local);
      if !ok {
        return;
      }
      ok := Unrelocate(c.external);
      if !ok {
        return;
      }
      if c.nextrel > 0 {
        c := c.(extreloff := Add32(c.extreloff, delta));
      }
      if c.nlocrel > 0 {
        c := c.(locreloff := Add32(c.locreloff, delta));
      }
      if c.nindirectsyms > 0 {
        c := c.(indirectsymoff := Add32(c.indirectsymoff, delta));
      }
      assert c == ShiftCommand(lca[i], delta);
      lca[i] := c;
      NextDone(old(s).log, Unrelocated(inp, old(s).data, c.local).value,
               Unrelocated(inp, old(s).data, c.external).value);
      EmitLater(inp, old(s), ContentWrites(inp, old(s), old(lca[i])).value, c);
      WriteCommand(c);
    }

    /** The contents of one section of the data segment: from memory or from the input file. */
    method WriteContents(scp: Segment, section: Section) returns (ok: bool, sectp: Section)
      requires Synced()
      modifies this`out, this`s
      ensures ok <==> SectionContent(inp, scp, section).Some?
      ensures ok ==> Synced() && s == old(s).(log := old(s).log + SectionContent(inp, scp, section).value)
      ensures ok ==> sectp == PlaceSection(scp, section)
    {
      sectp := section.(offset := Add32(Sub32(section.addr, scp.vmaddr), scp.fileoff));
      ok := true;
      if sectp.name.Data? {
        UnexecWrite(sectp.offset, MemBytes(inp.mem, sectp.addr, sectp.size));
      } else if sectp.name.Bss? || sectp.name.Common? {
        sectp := sectp.(flags := S_REGULAR);
        UnexecWrite(sectp.offset, MemBytes(inp.mem, sectp.addr, sectp.size));
      } else if CopiedSection(sectp.name) {
        ok := UnexecCopy(sectp.offset, section.offset, sectp.size);
      } else {
        ok := false;
      }
    }

    /** One section: its contents and then its header, which goes to `at`. */
    method WriteSection(scp: Segment, section: Section, at: nat) returns (ok: bool, sectp: Section)
      requires Synced()
      modifies this`out, this`s
      ensures ok <==> SectionPatches(inp, at, scp, section).Some?
      ensures ok ==> Synced() && s == old(s).(log := old(s).log + SectionPatches(inp, at, scp, section).value)
      ensures ok ==> sectp == PlaceSection(scp, section)
    {
      ok, sectp := WriteContents(scp, section);
      if ok {
        UnexecWrite(at, inp.codec.section(sectp));
        NextDone(old(s).log, SectionContent(inp, scp, section).value, [Patch(at, inp.codec.section(sectp))]);
      }
    }

    /** All sections of the data segment, placed one by one. */
    method WriteSections(seg: Segment) returns (ok: bool, scp: Segment)
      requires Synced() && currHeaderOffset == s.hdr
      modifies this`out, this`s
      ensures ok <==> SectionWrites(inp, old(s).hdr + SEG_HDR, seg, seg.sections).Some?
      ensures ok ==> Synced() && scp == seg.(sections := PlaceSections(seg, seg.sections))
      ensures ok ==> s == old(s).(log := old(s).log + SectionWrites(inp, old(s).hdr + SEG_HDR, seg, seg.sections).value)
    {
      var headerOffset := currHeaderOffset + SEG_HDR;
      ghost var at, ss := headerOffset, seg.sections;
      ghost var done: seq<Patch> := [];
      scp := seg;
      assert ss[0..] == ss && s.log + [] == s.log;
      BehindNothing(SectionWrites(inp, at, seg, ss));
      var j := 0;
      while j < |scp.sections|
        invariant j <= |ss| == |scp.sections| && headerOffset == at + SECT_HDR * j
        invariant scp == seg.(sections := scp.sections) && PlacedUpTo(seg, ss, scp.sections, j)
        invariant Synced() && s == old(s).(log := old(s).log + done)
        invariant Behind(done, SectionWrites(inp, headerOffset, seg, ss[j..])) == SectionWrites(inp, at, seg, ss)
      {
        SectionWritesNext(inp, headerOffset, seg, ss, j, done);
        var written, sectp := WriteSection(seg, scp.sections[j], headerOffset);
        if !written {
          return false, scp;
        }
        NextDone(old(s).log, done, SectionPatches(inp, headerOffset, seg, ss[j]).value);
        done := done + SectionPatches(inp, headerOffset, seg, ss[j]).value;
        scp := scp.(sections := scp.sections[j := sectp]);
        headerOffset := headerOffset + SECT_HDR;
        j := j + 1;
      }
      AllPlaced(seg, ss, scp.sections);
      NextDone([], done, []);
      return true, scp;
    }

    /** One new data segment per region, behind the data segment. */
    method CopyRegions(fileOffset: u32)
      requires Valid()
      modifies this`out, this`s, this`currHeaderOffset, this`delta, this`mh
      ensures Valid() && s == WriteRegions(inp, old(s), fileOffset, inp.regions)
    {
      var at, j := fileOffset, 0;
      assert inp.regions[0..] == inp.regions;
      while j < |inp.regions|
        invariant j <= |inp.regions| && Valid()
        invariant WriteRegions(inp, s, at, inp.regions[j..]) == WriteRegions(inp, old(s), fileOffset, inp.regions)
      {
        var r := inp.regions[j];
        assert inp.regions[j..][0] == r && inp.regions[j..][1..] == inp.regions[j + 1..];
        CopyRegion(at, r);
        at := Add32(at, r.size);
        j := j + 1;
      }
    }

    method CopyRegion(fileOffset: u32, r: Range)
      requires Valid()
      modifies this`out, this`s, this`currHeaderOffset, this`delta, this`mh
      ensures Valid() && s == WriteRegion(inp, old(s), fileOffset, r)
    {
      var sc := Segment(SegData, r.address, r.size, fileOffset, r.size, VM_PROT_RW, VM_PROT_RW, 0, []);
      ghost var content := [Patch(fileOffset, MemBytes(inp.mem, r.address, r.size))];
      UnexecWrite(sc.fileoff, MemBytes(inp.mem, sc.vmaddr, sc.vmsize));
      WriteCommand(LcSegment(sc));
      EmitLater(inp, old(s), content, LcSegment(sc));
      CountRegion(sc.filesize);
    }

    method CountRegion(size: u32)
      requires Valid()
      modifies this`s, this`delta, this`mh
      ensures Valid() && s == old(s).(delta := Add32(old(s).delta, size), ncmds := old(s).ncmds + 1)
    {
      delta := Add32(delta, size);
      mh := mh.(ncmds := Add32(mh.ncmds, 1));
      CountNext(s.ncmds);
      s := s.(delta := delta, ncmds := s.ncmds + 1);
    }

    /** The data segment's own command, behind its sections: it has file contents for all of its memory now. */
    method WriteDataHeader(scp: Segment, ghost was: Dump, ghost seg: Segment, ghost sections: seq<Patch>)
      returns (now: Segment)
      requires scp == seg.(sections := PlaceSections(seg, seg.sections)) && currHeaderOffset == was.hdr
      requires Synced() && s == was.(log := was.log + sections)
      modifies this`out, this`s, this`currHeaderOffset, this`delta
      ensures now == PlaceData(seg) && s == WriteData(inp, was, seg, sections)
      ensures Synced() && delta == s.delta && currHeaderOffset == s.hdr
    {
      delta := Sub32(scp.vmsize, scp.filesize);
      now := scp.(filesize := scp.vmsize);
      UnexecWrite(currHeaderOffset, inp.codec.segment(now));
      currHeaderOffset := currHeaderOffset + SEG_HDR + SECT_HDR * |now.sections|;
      WriteDataLog(inp, was, seg, sections);
      s := WriteData(inp, was, seg, sections);
    }

    /** The data segment's sections and command; its command becomes the one that relocations refer to. */
    method CopyData(i: nat, seg: Segment) returns (ok: bool)
      requires Valid() && i < lca.Length && lca[i] == LcSegment(seg) && delta == 0
      modifies this`out, this`s, this`currHeaderOffset, this`delta, this`dataSegment, this`dataSegmentOldFileoff, lca
      ensures ok <==> SectionWrites(inp, old(s).hdr + SEG_HDR, seg, seg.sections).Some?
      ensures ok ==> Valid() && dataSegment == i
      ensures ok ==> s == WriteData(inp, old(s), seg, SectionWrites(inp, old(s).hdr + SEG_HDR, seg, seg.sections).value)
      ensures ok ==> lca[..] == old(lca[..])[i := LcSegment(PlaceData(seg))]
    {
      dataSegmentOldFileoff, dataSegment := seg.fileoff, i;
      var scp;
      ok, scp := WriteSections(seg);
      if ok {
        scp := WriteDataHeader(scp, old(s), seg, SectionWrites(inp, old(s).hdr + SEG_HDR, seg, seg.sections).value);
        lca[i] := LcSegment(scp);
      }
    }

    /** The data segment and the new ones behind it; there may be only one. */
    method CopyDataSegment(i: nat) returns (ok: bool)
      requires Valid() && i < lca.Length && IsData(lca[i])
      modifies this`out, this`s, this`currHeaderOffset, this`delta, this`mh
      modifies this`dataSegment, this`dataSegmentOldFileoff, lca
      ensures ok <==> DumpSpec.CopyDataSegment(inp, old(s), old(lca[i].seg)).Some?
      ensures ok ==> Valid() && s == DumpSpec.CopyDataSegment(inp, old(s), old(lca[i].seg)).value && dataSegment == i
      ensures ok ==> lca[..] == old(lca[..])[i := LcSegment(PlaceData(old(lca[i].seg)))]
    {
      if delta != 0 {
        return false;
      }
      var seg := lca[i].seg;
      ok := CopyData(i, seg);
      if ok {
        assert lca[i] == LcSegment(PlaceData(seg));
        var base := Add32(lca[i].seg.fileoff, lca[i].seg.filesize);
        assert base == Add32(seg.fileoff, seg.vmsize);
        CopyRegions(base);
      }
    }

    /** What read_load_commands notes: its inner loop looks at the first section every time. */
    method ReadTextSegLowestOffset()
      requires textSegLowestOffset == NO_TEXT_OFFSET && lca.Length == |inp.cmds| && lca[..] == inp.cmds
      modifies this`textSegLowestOffset
      ensures textSegLowestOffset == TextLow(inp.cmds)
    {
      var i := 0;
      while i < lca.Length
        invariant i <= lca.Length && textSegLowestOffset == TextLow(inp.cmds[..i])
      {
        assert lca[i] == inp.cmds[i] && inp.cmds[..i + 1][..i] == inp.cmds[..i];
        if lca[i].LcSegment? && lca[i].seg.name == SegText {
          ghost var low := textSegLowestOffset;
          var sectp := 0;
          var j := 0;
          while j < |lca[i].seg.sections|
            invariant j <= |lca[i].seg.sections|
            invariant textSegLowestOffset
                   == if j > 0 && lca[i].seg.sections[sectp].offset < low then lca[i].seg.sections[sectp].offset
                      else low
          {
            if lca[i].seg.sections[sectp].offset < textSegLowestOffset {
              textSegLowestOffset := lca[i].seg.sections[sectp].offset;
            }
            j := j + 1;
          }
        }
        i := i + 1;
      }
      assert inp.cmds[..i] == inp.cmds;
    }

    /** One load command, rewritten in place. */
    method DumpCommand(i: nat) returns (ok: bool)
      requires Valid() && i < lca.Length && dataSegment < i
      modifies this`out, this`s, this`currHeaderOffset, this`delta, this`mh
      modifies this`dataSegment, this`dataSegmentOldFileoff, lca
      ensures ok <==> DumpSpec.DumpCommand(inp, old(s), old(lca[i])).Some?
      ensures ok ==> Valid() && s == DumpSpec.DumpCommand(inp, old(s), old(lca[i])).value && dataSegment <= i
      ensures ok ==> forall m :: i < m < lca.Length ==> lca[m] == old(lca[m])
    {
      match lca[i] {
        case LcSegment(seg) =>
          if seg.name == SegData {
            ok := CopyDataSegment(i);
          } else {
            ok := CopySegment(i);
          }
        case LcSymtab(_, _, _, _) =>
          CopySymtab(i);
          ok := true;
        case LcDysymtab(_, _, _, _, _, _, _, _, _) =>
          ok := CopyDysymtab(i);
        case LcHints(_, _) =>
          CopyTwolevelhints(i);
          ok := true;
        case LcOther(_) =>
          CopyOther(i);
          ok := true;
      }
    }

    method DumpCommands() returns (ok: bool)
      requires Valid() && s == Start(inp) && lca[..] == inp.cmds
      modifies this`out, this`s, this`currHeaderOffset, this`delta, this`mh
      modifies this`dataSegment, this`dataSegmentOldFileoff, lca
      ensures ok <==> At(inp, |inp.cmds|).Some?
      ensures ok ==> Valid() && Reached(inp, |inp.cmds|, s)
    {
      var i := 0;
      while i < lca.Length
        invariant i <= lca.Length == |inp.cmds| && Valid() && dataSegment < i && Reached(inp, i, s)
        invariant forall m :: i <= m < lca.Length ==> lca[m] == inp.cmds[m]
      {
        AtNext(inp, i, s);
        ok := DumpCommand(i);
        if !ok {
          return;
        }
        i := i + 1;
      }
      return true;
    }

    /** Dumps all load commands and then the Mach header, unless the commands need too much room. */
    method DumpIt() returns (ok: bool)
      requires Valid() && s == Start(inp) && lca[..] == inp.cmds && textSegLowestOffset == TextLow(inp.cmds)
      modifies this`out, this`s, this`currHeaderOffset, this`delta, this`mh
      modifies this`dataSegment, this`dataSegmentOldFileoff, lca
      ensures ok <==> DumpSpec.DumpIt(inp).Some?
      ensures ok ==> out == Output(inp)
    {
      ok := DumpCommands();
      if !ok {
        return;
      }
      if currHeaderOffset > textSegLowestOffset {
        return false;
      }
      WriteMachHeader();
    }

    method WriteMachHeader()
      requires Valid()
      modifies this`out, this`s, this`mh
      ensures out == Apply([], old(s).log + [Patch(0, inp.codec.header(FinalHeader(inp, old(s))))])
    {
      mh := mh.(sizeofcmds := (currHeaderOffset - MACH_HDR) % TWO32);
      UnexecWrite(0, inp.codec.header(mh));
    }
  }

  /** The dump from the input to the output file; false where the source exits with an error. */
  method Unexec(inp: Input) returns (ok: bool, out: seq<byte>)
    requires inp.header.ncmds == |inp.cmds|
    ensures ok <==> DumpSpec.DumpIt(inp).Some?
    ensures ok ==> out == Output(inp)
  {
    var dumper := new Dumper(inp);
    dumper.ReadTextSegLowestOffset();
    ok := dumper.DumpIt();
    out := dumper.out;
  }
}
