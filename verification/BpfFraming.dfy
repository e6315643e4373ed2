/**
 * The buffer that one read of a BPF device returns: records of a bpf_hdr, a captured frame and
 * padding up to the next aligned offset.  The field offsets, the header's size, the alignment and
 * the byte order of the fields differ between systems and are parameters.
 */
module BpfFraming {
  import opened Bytes

  datatype Abi = Abi(hdrSize: nat, align: nat, capAt: nat, dataAt: nat, lenAt: nat, bigEndian: bool) {
    predicate Valid() {
      && capAt + 4 <= hdrSize && dataAt + 4 <= hdrSize && lenAt + 2 <= hdrSize
      && 0 < align
    }
  }

  function Field16(abi: Abi, buf: seq<byte>, i: nat): u16
    requires i + 2 <= |buf|
  {
    if abi.bigEndian then Be16(buf, i) else buf[i + 1] as int * 0x100 + buf[i]
  }

  function Field32(abi: Abi, buf: seq<byte>, i: nat): u32
    requires i + 4 <= |buf|
  {
    if abi.bigEndian then Be32(buf, i)
    else Field16(abi, buf, i + 2) as int * 0x1_0000 + Field16(abi, buf, i)
  }

  predicate HasHeader(abi: Abi, buf: seq<byte>, off: nat) {
    abi.Valid() && off + abi.hdrSize <= |buf|
  }

  function BhCaplen(abi: Abi, buf: seq<byte>, off: nat): u32
    requires HasHeader(abi, buf, off)
  {
    Field32(abi, buf, off + abi.capAt)
  }

  function BhDatalen(abi: Abi, buf: seq<byte>, off: nat): u32
    requires HasHeader(abi, buf, off)
  {
    Field32(abi, buf, off + abi.dataAt)
  }

  function BhHdrlen(abi: Abi, buf: seq<byte>, off: nat): u16
    requires HasHeader(abi, buf, off)
  {
    Field16(abi, buf, off + abi.lenAt)
  }

  /** A header that the buffer has room for, and whose frame lies inside the buffer. */
  predicate SoundHeader(abi: Abi, buf: seq<byte>, off: nat) {
    && HasHeader(abi, buf, off)
    && abi.hdrSize <= BhHdrlen(abi, buf, off)
    && off + BhHdrlen(abi, buf, off) + BhCaplen(abi, buf, off) <= |buf|
  }

  function Frame(abi: Abi, buf: seq<byte>, off: nat): (frame: seq<byte>)
    requires SoundHeader(abi, buf, off)
    ensures |frame| == BhCaplen(abi, buf, off)
  {
    var start := off + BhHdrlen(abi, buf, off);
    buf[start..start + BhCaplen(abi, buf, off)]
  }

  /** The frame is what the header says: as many octets as were captured, from the header's length on. */
  lemma FrameOctets(abi: Abi, buf: seq<byte>, off: nat, i: nat)
    requires SoundHeader(abi, buf, off) && i < BhCaplen(abi, buf, off)
    ensures off + BhHdrlen(abi, buf, off) + i < |buf|
    ensures Frame(abi, buf, off)[i] == buf[off + BhHdrlen(abi, buf, off) + i]
  {
  }

  /** The fields' octets, in either byte order. */
  lemma FieldOctets(abi: Abi, buf: seq<byte>, i: nat)
    requires i + 4 <= |buf|
    ensures Field32(abi, buf, i)
         == if abi.bigEndian then ((buf[i] as int * 256 + buf[i + 1]) * 256 + buf[i + 2]) * 256 + buf[i + 3]
            else ((buf[i + 3] as int * 256 + buf[i + 2]) * 256 + buf[i + 1]) * 256 + buf[i]
    ensures Field16(abi, buf, i)
         == if abi.bigEndian then buf[i] as int * 256 + buf[i + 1] else buf[i + 1] as int * 256 + buf[i]
  {
  }

  /** n rounded up to a multiple of align. */
  function WordAlign(n: nat, align: nat): (r: nat)
    requires 0 < align
    ensures n <= r < n + align
  {
    var over := n % align;
    if over == 0 then n else n + (align - over)
  }

  lemma WordAlignAligns(n: nat, align: nat)
    requires 0 < align
    ensures WordAlign(n, align) % align == 0
  {
    var q, over := n / align, n % align;
    assert n == align * q + over;
    if over != 0 {
      assert align * (q + 1) == align * q + align;
      ModUnique(WordAlign(n, align), align, q + 1, 0);
    }
  }

  /** Distance to the next record.  The sum of the two lengths is computed in 32 bits. */
  function Stride(abi: Abi, buf: seq<byte>, off: nat): nat
    requires HasHeader(abi, buf, off)
  {
    var sum := BhHdrlen(abi, buf, off) + BhCaplen(abi, buf, off);
    WordAlign(if sum < TWO32 then sum else sum - TWO32, abi.align)
  }

  /** In a buffer shorter than 4 GiB the loops advance past the whole record, whatever its fields say. */
  lemma StrideAdvances(abi: Abi, buf: seq<byte>, off: nat)
    requires SoundHeader(abi, buf, off) && |buf| < TWO32
    ensures Stride(abi, buf, off) >= BhHdrlen(abi, buf, off) + BhCaplen(abi, buf, off) >= abi.hdrSize > 0
  {
  }

  function NextRecord(abi: Abi, buf: seq<byte>, off: nat): (next: nat)
    requires SoundHeader(abi, buf, off) && |buf| < TWO32
    ensures next >= off + BhHdrlen(abi, buf, off) + BhCaplen(abi, buf, off) > off
  {
    StrideAdvances(abi, buf, off);
    off + Stride(abi, buf, off)
  }

  // ---- Buffers as the kernel lays them out ----

  /** hdrlen: where the frame starts; datalen: the frame's length on the wire before capture. */
  datatype Record = Record(hdrlen: nat, frame: seq<byte>, datalen: nat)

  predicate RecordAt(abi: Abi, buf: seq<byte>, off: nat, r: Record) {
    && SoundHeader(abi, buf, off)
    && BhHdrlen(abi, buf, off) == r.hdrlen
    && BhDatalen(abi, buf, off) == r.datalen
    && Frame(abi, buf, off) == r.frame
  }

  lemma NextOfRecord(abi: Abi, buf: seq<byte>, off: nat, r: Record)
    requires |buf| < TWO32 && RecordAt(abi, buf, off, r)
    ensures NextRecord(abi, buf, off) == off + WordAlign(r.hdrlen + |r.frame|, abi.align)
  {
    assert BhHdrlen(abi, buf, off) + BhCaplen(abi, buf, off) == r.hdrlen + |r.frame|;
  }

  /** From off on, `buf` holds exactly the given records, each padded to the alignment. */
  predicate LaidOut(abi: Abi, buf: seq<byte>, off: nat, records: seq<Record>)
    decreases |records|
  {
    if records == [] then off + abi.hdrSize > |buf|
    else
      && RecordAt(abi, buf, off, records[0])
      && LaidOut(abi, buf, off + WordAlign(records[0].hdrlen + |records[0].frame|, abi.align), records[1..])
  }
}
