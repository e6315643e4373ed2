/**
 * The parts of a Mach-O executable that the dumper reads and rewrites, and how they lie in a file.
 * How a structure is spelled in octets is a parameter: only the sizes matter here.
 */
module MachO {
  import opened Bytes

  const MACH_HDR := 28                 // sizeof (struct mach_header)
  const SEG_HDR := 56                  // sizeof (struct segment_command)
  const SECT_HDR := 68                 // sizeof (struct section)
  const S_REGULAR := 0
  const VM_PROT_RW := 3

  /** The names that the dumper tells apart. */
  datatype SectName =
    | Data | Bss | Common | LaSymbolPtr | NlSymbolPtr | Dyld | Const | Cfstring
    | OtherSect(name: string)
  datatype SegName = SegData | SegText | OtherSeg(name: string)

  datatype Section = Section(name: SectName, segname: SegName, addr: u32, size: u32, offset: u32, align: u32,
                             reloff: u32, nreloc: u32, flags: u32, reserved1: u32, reserved2: u32)

  datatype Segment = Segment(name: SegName, vmaddr: u32, vmsize: u32, fileoff: u32, filesize: u32,
                             maxprot: u32, initprot: u32, flags: u32, sections: seq<Section>)

  /** The binary logarithm of a relocation's size, a field of two bits. */
  type RelocLength = n: nat | n < 4

  /** A relocation entry: one that is undone, one that needs nothing, and one that stops the dump. */
  datatype Reloc = Vanilla(address: u32, length: RelocLength) | PreboundLazy | Unhandled

  /** `rest` is what a command carries besides the fields named; the reloc entries are read elsewhere. */
  datatype Command =
    | LcSegment(seg: Segment)
    | LcSymtab(symoff: u32, nsyms: u32, stroff: u32, strsize: u32)
    | LcDysymtab(rest: seq<byte>, indirectsymoff: u32, nindirectsyms: u32, extreloff: u32, nextrel: u32,
                 locreloff: u32, nlocrel: u32, local: seq<Reloc>, external: seq<Reloc>)
    | LcHints(offset: u32, nhints: u32)
    | LcOther(rest: seq<byte>)

  datatype Header = Header(magic: u32, cputype: u32, cpusubtype: u32, filetype: u32, ncmds: u32, sizeofcmds: u32,
                           flags: u32)

  // ---- Layout ----

  type SectionHdr = b: seq<byte> | |b| == SECT_HDR witness seq(SECT_HDR, _ => 0)
  type SegmentHdr = b: seq<byte> | |b| == SEG_HDR witness seq(SEG_HDR, _ => 0)
  type MachHdr = b: seq<byte> | |b| == MACH_HDR witness seq(MACH_HDR, _ => 0)

  /** The structures of the Mach-O headers as octets; a segment's does not include its sections'. */
  datatype Codec = Codec(header: Header -> MachHdr, segment: Segment -> SegmentHdr, section: Section -> SectionHdr,
                         other: Command -> seq<byte>)

  function SectionsBytes(codec: Codec, ss: seq<Section>): (r: seq<byte>)
    ensures |r| == SECT_HDR * |ss|
  {
    if ss == [] then [] else codec.section(ss[0]) + SectionsBytes(codec, ss[1..])
  }

  function CommandBytes(codec: Codec, c: Command): seq<byte> {
    if c.LcSegment? then codec.segment(c.seg) + SectionsBytes(codec, c.seg.sections) else codec.other(c)
  }

  function CommandsBytes(codec: Codec, cs: seq<Command>): seq<byte> {
    if cs == [] then [] else CommandsBytes(codec, cs[..|cs| - 1]) + CommandBytes(codec, cs[|cs| - 1])
  }

  lemma CommandsBytesAppend(codec: Codec, cs: seq<Command>, c: Command)
    ensures CommandsBytes(codec, cs + [c]) == CommandsBytes(codec, cs) + CommandBytes(codec, c)
  {
    assert (cs + [c])[..|cs|] == cs;
  }

  // ---- Files ----

  /** The byte at offset i after writing: a gap left behind the old end reads as zeros. */
  function Written(f: seq<byte>, at: nat, data: seq<byte>, i: nat): byte {
    if at <= i < at + |data| then data[i - at] else if i < |f| then f[i] else 0
  }

  /** lseek and write. */
  function Write(f: seq<byte>, at: nat, data: seq<byte>): (r: seq<byte>)
    ensures |r| == if data == [] || at + |data| < |f| then |f| else at + |data|
    ensures forall i :: 0 <= i < |r| ==> r[i] == Written(f, at, data, i)
  {
    if data == [] then f
    else seq(if at + |data| < |f| then |f| else at + |data|, i requires 0 <= i => Written(f, at, data, i))
  }

  predicate Holds(f: seq<byte>, k: nat, b: byte) {
    k < |f| && f[k] == b
  }

  lemma WriteHolds(f: seq<byte>, at: nat, data: seq<byte>, k: nat, b: byte)
    ensures at <= k < at + |data| ==> Holds(Write(f, at, data), k, data[k - at])
    ensures !(at <= k < at + |data|) && Holds(f, k, b) ==> Holds(Write(f, at, data), k, b)
  {
  }

  // ---- The writes of a run ----

  datatype Patch = Patch(at: nat, data: seq<byte>) {
    predicate Touches(k: nat) {
      at <= k < at + |data|
    }

    /** What it puts at offset k. */
    function Byte(k: nat): Option<byte> {
      if Touches(k) then Some(data[k - at]) else None
    }
  }

  function Apply(f: seq<byte>, log: seq<Patch>): seq<byte> {
    if log == [] then f
    else Write(Apply(f, log[..|log| - 1]), log[|log| - 1].at, log[|log| - 1].data)
  }

  /** What the last write that reached offset k put there. */
  function LastByte(log: seq<Patch>, k: nat): Option<byte> {
    if log == [] then None
    else
      var p := log[|log| - 1];
      if p.Touches(k) then Some(p.data[k - p.at]) else LastByte(log[..|log| - 1], k)
  }

  /** That is what the file holds. */
  lemma {:induction false} LastByteHolds(log: seq<Patch>, k: nat)
    requires LastByte(log, k).Some?
    ensures Holds(Apply([], log), k, LastByte(log, k).value)
  {
    var p, front := log[|log| - 1], log[..|log| - 1];
    if p.Touches(k) {
      WriteHolds(Apply([], front), p.at, p.data, k, 0);
    } else {
      LastByteHolds(front, k);
      WriteHolds(Apply([], front), p.at, p.data, k, LastByte(front, k).value);
    }
  }

  /** Where no write reached, the file has a gap, which reads as zeros. */
  lemma {:induction false} UnwrittenIsZero(log: seq<Patch>, k: nat)
    requires LastByte(log, k).None? && k < |Apply([], log)|
    ensures Apply([], log)[k] == 0
    decreases |log|
  {
    if log != [] {
      var p, front := log[|log| - 1], log[..|log| - 1];
      assert Apply([], log) == Write(Apply([], front), p.at, p.data);
      if p.data != [] {
        assert Apply([], log)[k] == Written(Apply([], front), p.at, p.data, k);
      }
      if k < |Apply([], front)| {
        UnwrittenIsZero(front, k);
      }
    }
  }

  function OrElse(a: Option<byte>, b: Option<byte>): Option<byte> {
    if a.Some? then a else b
  }

  lemma {:induction false} LastByteAppend(a: seq<Patch>, b: seq<Patch>, k: nat)
    ensures LastByte(a + b, k) == OrElse(LastByte(b, k), LastByte(a, k))
    decreases |b|
  {
    if b == [] {
      assert a + b == a;
    } else {
      var front := b[..|b| - 1];
      assert (a + b)[..|a + b| - 1] == a + front;
      LastByteAppend(a, front, k);
    }
  }

  lemma LastByteCons(p: Patch, rest: seq<Patch>, k: nat)
    ensures LastByte([p] + rest, k)
         == OrElse(LastByte(rest, k), p.Byte(k))
  {
    LastByteAppend([p], rest, k);
    assert [p][..0] == [];
  }

  lemma ApplyAppend(f: seq<byte>, log: seq<Patch>, p: Patch)
    ensures Apply(f, log + [p]) == Write(Apply(f, log), p.at, p.data)
  {
    assert (log + [p])[..|log|] == log;
  }

  function MemBytes(mem: nat -> byte, addr: nat, n: nat): (r: seq<byte>)
    ensures |r| == n && forall i :: 0 <= i < n ==> r[i] == mem(addr + i)
  {
    seq(n, i requires 0 <= i < n => mem(addr + i))
  }
}
