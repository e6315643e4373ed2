/** Every list of records can be laid out as a read returns them, on any system with separate header fields. */
module BpfLayout {
  import opened Bytes
  import opened BpfFraming

  predicate FieldsApart(abi: Abi) {
    && abi.Valid()
    && (abi.capAt + 4 <= abi.dataAt || abi.dataAt + 4 <= abi.capAt)
    && (abi.capAt + 4 <= abi.lenAt || abi.lenAt + 2 <= abi.capAt)
    && (abi.dataAt + 4 <= abi.lenAt || abi.lenAt + 2 <= abi.dataAt)
  }

  /** The header has room for the fields, and they for the lengths. */
  predicate Framable(abi: Abi, r: Record) {
    abi.hdrSize <= r.hdrlen < 0x1_0000 && |r.frame| < TWO32 && r.datalen < TWO32
  }

  predicate AllFramable(abi: Abi, rs: seq<Record>) {
    forall i :: 0 <= i < |rs| ==> Framable(abi, rs[i])
  }

  function Word16(abi: Abi, w: u16): (b: seq<byte>)
    ensures |b| == 2
  {
    if abi.bigEndian then Put16(w) else [w % 0x100, w / 0x100]
  }

  function Word32(abi: Abi, w: u32): (b: seq<byte>)
    ensures |b| == 4
  {
    if abi.bigEndian then Word16(abi, w / 0x1_0000) + Word16(abi, w % 0x1_0000)
    else Word16(abi, w % 0x1_0000) + Word16(abi, w / 0x1_0000)
  }

  function HeaderByte(abi: Abi, r: Record, i: nat): byte
    requires Framable(abi, r)
  {
    if abi.capAt <= i < abi.capAt + 4 then Word32(abi, |r.frame|)[i - abi.capAt]
    else if abi.dataAt <= i < abi.dataAt + 4 then Word32(abi, r.datalen)[i - abi.dataAt]
    else if abi.lenAt <= i < abi.lenAt + 2 then Word16(abi, r.hdrlen)[i - abi.lenAt]
    else 0
  }

  function RecordHeader(abi: Abi, r: Record): (b: seq<byte>)
    requires Framable(abi, r)
    ensures |b| == r.hdrlen && forall i :: 0 <= i < |b| ==> b[i] == HeaderByte(abi, r, i)
  {
    seq(r.hdrlen, i requires 0 <= i => HeaderByte(abi, r, i))
  }

  function RecordBytes(abi: Abi, r: Record): (b: seq<byte>)
    requires 0 < abi.align && Framable(abi, r)
    ensures |b| == WordAlign(r.hdrlen + |r.frame|, abi.align)
  {
    var size := r.hdrlen + |r.frame|;
    RecordHeader(abi, r) + r.frame + seq(WordAlign(size, abi.align) - size, _ => 0)
  }

  /** The records one behind the other, each padded to the alignment. */
  function Layout(abi: Abi, rs: seq<Record>): seq<byte>
    requires 0 < abi.align && AllFramable(abi, rs)
  {
    if rs == [] then [] else RecordBytes(abi, rs[0]) + Layout(abi, rs[1..])
  }

  lemma Word16Read(abi: Abi, buf: seq<byte>, i: nat, w: u16)
    requires i + 2 <= |buf| && buf[i..i + 2] == Word16(abi, w)
    ensures Field16(abi, buf, i) == w
  {
    assert buf[i] == buf[i..i + 2][0] && buf[i + 1] == buf[i..i + 2][1];
  }

  lemma Word32Read(abi: Abi, buf: seq<byte>, i: nat, w: u32)
    requires i + 4 <= |buf| && buf[i..i + 4] == Word32(abi, w)
    ensures Field32(abi, buf, i) == w
  {
    var high, low := w / 0x1_0000, w % 0x1_0000;
    var first, second := if abi.bigEndian then high else low, if abi.bigEndian then low else high;
    assert buf[i..i + 2] == buf[i..i + 4][..2] == Word16(abi, first);
    assert buf[i + 2..i + 4] == buf[i..i + 4][2..] == Word16(abi, second);
    Word16Read(abi, buf, i, first);
    Word16Read(abi, buf, i + 2, second);
  }

  lemma SliceOfSlice(buf: seq<byte>, off: nat, h: seq<byte>, i: nat, n: nat)
    requires off + |h| <= |buf| && buf[off..off + |h|] == h && i + n <= |h|
    ensures buf[off + i..off + i + n] == h[i..i + n]
  {
    assert forall j :: 0 <= j < |h| ==> buf[off + j] == h[j];
  }

  lemma Read32(abi: Abi, buf: seq<byte>, off: nat, h: seq<byte>, i: nat, w: u32)
    requires off + |h| <= |buf| && buf[off..off + |h|] == h && i + 4 <= |h| && h[i..i + 4] == Word32(abi, w)
    ensures Field32(abi, buf, off + i) == w
  {
    SliceOfSlice(buf, off, h, i, 4);
    Word32Read(abi, buf, off + i, w);
  }

  lemma Read16(abi: Abi, buf: seq<byte>, off: nat, h: seq<byte>, i: nat, w: u16)
    requires off + |h| <= |buf| && buf[off..off + |h|] == h && i + 2 <= |h| && h[i..i + 2] == Word16(abi, w)
    ensures Field16(abi, buf, off + i) == w
  {
    SliceOfSlice(buf, off, h, i, 2);
    Word16Read(abi, buf, off + i, w);
  }

  lemma HeaderFields(abi: Abi, r: Record)
    requires FieldsApart(abi) && Framable(abi, r)
    ensures var h := RecordHeader(abi, r);
      && h[abi.capAt..abi.capAt + 4] == Word32(abi, |r.frame|)
      && h[abi.dataAt..abi.dataAt + 4] == Word32(abi, r.datalen)
      && h[abi.lenAt..abi.lenAt + 2] == Word16(abi, r.hdrlen)
  {
  }

  /** A header that spells these fields, wherever it lies in a buffer. */
  lemma HeaderRead(abi: Abi, buf: seq<byte>, off: nat, h: seq<byte>, caplen: u32, datalen: u32, hdrlen: u16)
    requires abi.Valid() && abi.hdrSize <= |h| && off + |h| <= |buf| && buf[off..off + |h|] == h
    requires h[abi.capAt..abi.capAt + 4] == Word32(abi, caplen) && h[abi.dataAt..abi.dataAt + 4] == Word32(abi, datalen)
    requires h[abi.lenAt..abi.lenAt + 2] == Word16(abi, hdrlen)
    ensures BhCaplen(abi, buf, off) == caplen && BhDatalen(abi, buf, off) == datalen
    ensures BhHdrlen(abi, buf, off) == hdrlen
  {
    Read32(abi, buf, off, h, abi.capAt, caplen);
    Read32(abi, buf, off, h, abi.dataAt, datalen);
    Read16(abi, buf, off, h, abi.lenAt, hdrlen);
  }

  lemma PartsOf(a: seq<byte>, h: seq<byte>, f: seq<byte>, pad: seq<byte>, b: seq<byte>)
    ensures var buf := a + (h + f + pad) + b;
      && |buf| == |a| + |h| + |f| + |pad| + |b|
      && buf[|a|..|a| + |h|] == h && buf[|a| + |h|..|a| + |h| + |f|] == f
  {
  }

  lemma PartsRead(abi: Abi, buf: seq<byte>, off: nat, r: Record)
    requires FieldsApart(abi) && Framable(abi, r) && off + r.hdrlen + |r.frame| <= |buf|
    requires buf[off..off + r.hdrlen] == RecordHeader(abi, r)
    requires buf[off + r.hdrlen..off + r.hdrlen + |r.frame|] == r.frame
    ensures RecordAt(abi, buf, off, r)
  {
    HeaderFields(abi, r);
    HeaderRead(abi, buf, off, RecordHeader(abi, r), |r.frame|, r.datalen, r.hdrlen);
  }

  lemma RecordBytesRead(abi: Abi, before: seq<byte>, r: Record, behind: seq<byte>)
    requires FieldsApart(abi) && Framable(abi, r)
    ensures RecordAt(abi, before + RecordBytes(abi, r) + behind, |before|, r)
  {
    var size := r.hdrlen + |r.frame|;
    PartsOf(before, RecordHeader(abi, r), r.frame, seq(WordAlign(size, abi.align) - size, _ => 0), behind);
    PartsRead(abi, before + RecordBytes(abi, r) + behind, |before|, r);
  }

  lemma LaidOutFirst(abi: Abi, buf: seq<byte>, off: nat, next: nat, rs: seq<Record>)
    requires rs != [] && RecordAt(abi, buf, off, rs[0])
    requires next == off + WordAlign(rs[0].hdrlen + |rs[0].frame|, abi.align) && LaidOut(abi, buf, next, rs[1..])
    ensures LaidOut(abi, buf, off, rs)
  {
  }

  lemma {:induction false} LayoutBehind(abi: Abi, buf: seq<byte>, before: seq<byte>, rs: seq<Record>)
    requires FieldsApart(abi) && AllFramable(abi, rs) && buf == before + Layout(abi, rs)
    ensures LaidOut(abi, buf, |before|, rs)
    decreases |rs|
  {
    if rs != [] {
      var first := RecordBytes(abi, rs[0]);
      Reassociate(before, first, Layout(abi, rs[1..]));
      RecordBytesRead(abi, before, rs[0], Layout(abi, rs[1..]));
      LayoutBehind(abi, buf, before + first, rs[1..]);
      LaidOutFirst(abi, buf, |before|, |before + first|, rs);
    }
  }

  /** A layout is laid out as its records. */
  lemma LayoutIsLaidOut(abi: Abi, rs: seq<Record>)
    requires FieldsApart(abi) && AllFramable(abi, rs)
    ensures LaidOut(abi, Layout(abi, rs), 0, rs)
  {
    assert [] + Layout(abi, rs) == Layout(abi, rs);
    LayoutBehind(abi, Layout(abi, rs), [], rs);
  }
}
