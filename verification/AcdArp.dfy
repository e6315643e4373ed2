/** Address conflict detection on a BPF device: the ARP filter, reading ARP packets and sending one. */
module AcdArp {
  import opened Bytes
  import opened Errno
  import opened Protocol
  import opened BpfMachine
  import opened BpfFraming
  import PacketBsd

  const ARP_LEN := 28                  // sizeof(struct ether_arp)
  const ARPHRD_ETHER := 1
  const EINTR := 4
  const EAGAIN := 35

  type Arp = a: seq<byte> | |a| == ARP_LEN witness seq(ARP_LEN, _ => 0)

  /** What is copied of one packet: at most an ARP packet's length. */
  type ArpPart = a: seq<byte> | |a| <= ARP_LEN

  // ---- The filter ----

  function AcdFilter(): seq<Insn> {
    [ LdAbs(H, 12),                    // A <- ethertype
      JmpEq(ETHERTYPE_ARP, 0, 3),
      LdAbs(H, ETHER_HDR),             // A <- hardware type
      JmpEq(ARPHRD_ETHER, 0, 1),
      Ret(0xffff_ffff),
      Ret(0) ]
  }

  /** The filter accepts exactly the frames that carry ARP for Ethernet hardware. */
  lemma AcdFilterMeaning(f: seq<byte>)
    ensures Verdict(AcdFilter(), f)
         == if ETHER_HDR + 2 <= |f| && Be16(f, 12) == ETHERTYPE_ARP && Be16(f, ETHER_HDR) == ARPHRD_ETHER
            then 0xffff_ffff else 0
  {
    var prog := AcdFilter();
    if ETHER_HDR <= |f| {
      var t := Be16(f, 12);
      assert Verdict(prog, f) == Run(prog, f, 1, t, 0);
      assert Run(prog, f, 5, t, 0) == 0;
      if t == ETHERTYPE_ARP && ETHER_HDR + 2 <= |f| {
        var h := Be16(f, ETHER_HDR);
        assert Run(prog, f, 1, t, 0) == Run(prog, f, 2, t, 0) == Run(prog, f, 3, h, 0);
        assert Run(prog, f, 5, h, 0) == 0 && Run(prog, f, 4, h, 0) == 0xffff_ffff;
      }
    }
  }

  // ---- Reading ----

  /** A record handed on: a frame captured whole, with at least an Ethernet header. */
  predicate HandedOn(abi: Abi, buf: seq<byte>, off: nat)
    requires SoundHeader(abi, buf, off)
  {
    BhCaplen(abi, buf, off) == BhDatalen(abi, buf, off) && ETHER_HDR <= BhCaplen(abi, buf, off)
  }

  /** A frame without its Ethernet header, at most one ARP packet of it. */
  function Stripped(frame: seq<byte>): ArpPart
    requires ETHER_HDR <= |frame|
  {
    frame[ETHER_HDR..ETHER_HDR + Min(|frame| - ETHER_HDR, ARP_LEN)]
  }

  /** What one sound record hands on: one payload or none. */
  function RecordArp(abi: Abi, buf: seq<byte>, off: nat): (arp: seq<ArpPart>)
    requires SoundHeader(abi, buf, off)
    ensures |arp| <= 1
  {
    if HandedOn(abi, buf, off) then [Stripped(Frame(abi, buf, off))] else []
  }

  /** The payloads of all records that are handed on, from off. */
  function Arps(abi: Abi, buf: seq<byte>, off: nat): seq<ArpPart>
    requires |buf| < TWO32
    decreases |buf| - off
  {
    if !SoundHeader(abi, buf, off) then []
    else RecordArp(abi, buf, off) + Arps(abi, buf, NextRecord(abi, buf, off))
  }

  datatype ReadResult = ReadFailed(errno: int) | ReadOk(buf: seq<byte>)

  lemma TakeOfSplit(a: seq<ArpPart>, b: seq<ArpPart>, k: nat)
    requires |a| <= k && (|a| == k || b == [])
    ensures a == (a + b)[..Min(k, |a + b|)]
  {
  }

  /** The payload slots after each payload was copied over the first octets of its slot. */
  function Fill(slots: seq<Arp>, arps: seq<ArpPart>): (after: seq<Arp>)
    requires |arps| <= |slots|
    ensures |after| == |slots|
  {
    seq(|slots|, i requires 0 <= i < |slots| => if i < |arps| then PacketBsd.Overwrite(slots[i], arps[i]) else slots[i])
  }

  function FillLens(lens: seq<nat>, arps: seq<ArpPart>): (after: seq<nat>)
    requires |arps| <= |lens|
    ensures |after| == |lens|
  {
    seq(|lens|, i requires 0 <= i < |lens| => if i < |arps| then |arps[i]| else lens[i])
  }

  method Store(out: array<Arp>, lens: array<nat>, n: nat, arp: ArpPart,
               ghost slots: seq<Arp>, ghost before: seq<nat>, ghost done: seq<ArpPart>)
    requires n == |done| < out.Length == |slots| && n < lens.Length == |before|
    requires out[..] == Fill(slots, done) && lens[..] == FillLens(before, done)
    modifies out, lens
    ensures out[..] == Fill(slots, done + [arp]) && lens[..] == FillLens(before, done + [arp])
  {
    assert out[n] == out[..][n] == slots[n];
    out[n] := PacketBsd.Overwrite(out[n], arp);
    lens[n] := |arp|;
    assert out[..] == Fill(slots, done)[n := PacketBsd.Overwrite(slots[n], arp)];
    assert lens[..] == FillLens(before, done)[n := |arp|];
  }

  method StoreIfAny(out: array<Arp>, lens: array<nat>, n: nat, arp: seq<ArpPart>,
                    ghost slots: seq<Arp>, ghost before: seq<nat>, ghost done: seq<ArpPart>)
    returns (next: nat)
    requires |arp| <= 1 && n == |done| < out.Length == |slots| && n < lens.Length == |before|
    requires out[..] == Fill(slots, done) && lens[..] == FillLens(before, done)
    modifies out, lens
    ensures next == |done + arp|
    ensures out[..] == Fill(slots, done + arp) && lens[..] == FillLens(before, done + arp)
  {
    next := n;
    if arp == [] {
      assert done + arp == done;
    } else {
      assert [arp[0]] == arp;
      Store(out, lens, n, arp[0], slots, before, done);
      next := n + 1;
    }
  }

  /** One record further. */
  lemma ArpsNext(abi: Abi, buf: seq<byte>, off: nat, done: seq<ArpPart>)
    requires |buf| < TWO32 && SoundHeader(abi, buf, off)
    ensures done + Arps(abi, buf, off) == done + RecordArp(abi, buf, off) + Arps(abi, buf, NextRecord(abi, buf, off))
  {
    Reassociate(done, RecordArp(abi, buf, off), Arps(abi, buf, NextRecord(abi, buf, off)));
  }

  /** The walk over the records of one read. */
  method CopyArps(abi: Abi, buf: seq<byte>, out: array<Arp>, lens: array<nat>, nOut: nat) returns (n: nat)
    requires abi.Valid() && nOut <= out.Length && nOut <= lens.Length && |buf| < TWO32
    modifies out, lens
    ensures n == Min(nOut, |Arps(abi, buf, 0)|)
    ensures out[..] == Fill(old(out[..]), Arps(abi, buf, 0)[..n])
    ensures lens[..] == FillLens(old(lens[..]), Arps(abi, buf, 0)[..n])
  {
    var off := 0;
    ghost var done: seq<ArpPart> := [];
    ghost var slots, before := out[..], lens[..];
    n := 0;
    while off + abi.hdrSize <= |buf| && n < nOut
      invariant n == |done| <= nOut && Arps(abi, buf, 0) == done + Arps(abi, buf, off)
      invariant out[..] == Fill(slots, done) && lens[..] == FillLens(before, done)
      decreases |buf| - off
    {
      if !SoundHeader(abi, buf, off) { break; }
      ArpsNext(abi, buf, off, done);
      var arp := RecordArp(abi, buf, off);
      n := StoreIfAny(out, lens, n, arp, slots, before, done);
      done := done + arp;
      off := NextRecord(abi, buf, off);
    }
    TakeOfSplit(done, Arps(abi, buf, off), nOut);
  }

  method ReadArp(abi: Abi, read: ReadResult, out: array<Arp>, lens: array<nat>, nOut: nat)
    returns (r: int, nRead: Option<nat>)
    requires abi.Valid() && nOut <= out.Length && nOut <= lens.Length
    requires read.ReadOk? ==> |read.buf| < TWO32
    modifies out, lens
    ensures read.ReadFailed? && (read.errno == EAGAIN || read.errno == EINTR) ==> r == 0 && nRead == Some(0)
    ensures read.ReadFailed? && read.errno != EAGAIN && read.errno != EINTR ==> r == -read.errno && nRead.None?
    ensures read.ReadFailed? ==> out[..] == old(out[..]) && lens[..] == old(lens[..])
    ensures read.ReadOk? ==>
      var arps := Arps(abi, read.buf, 0);
      var n := Min(nOut, |arps|);
      && r == 0 && nRead == Some(n)
      && out[..] == Fill(old(out[..]), arps[..n]) && lens[..] == FillLens(old(lens[..]), arps[..n])
  {
    if read.ReadFailed? {
      if read.errno == EAGAIN || read.errno == EINTR { return 0, Some(0); }
      return -read.errno, None;
    }
    var n := CopyArps(abi, read.buf, out, lens, nOut);
    return 0, Some(n);
  }

  // ---- Framing is inverted ----

  /** What a record hands on by itself. */
  function Payload1(r: Record): seq<ArpPart> {
    if |r.frame| == r.datalen && ETHER_HDR <= |r.frame| then [Stripped(r.frame)] else []
  }

  function Payloads(records: seq<Record>): seq<ArpPart> {
    if records == [] then [] else Payload1(records[0]) + Payloads(records[1..])
  }

  /** A buffer laid out from records reads back as their payloads, in order. */
  lemma {:induction false} ReadInvertsLayout(abi: Abi, buf: seq<byte>, off: nat, records: seq<Record>)
    requires |buf| < TWO32 && LaidOut(abi, buf, off, records)
    ensures Arps(abi, buf, off) == Payloads(records)
    decreases |records|
  {
    if records != [] {
      assert RecordArp(abi, buf, off) == Payload1(records[0]);
      NextOfRecord(abi, buf, off, records[0]);
      ReadInvertsLayout(abi, buf, NextRecord(abi, buf, off), records[1..]);
    }
  }

  /** A payload's octets: at most 28 of those behind the Ethernet header, from the first. */
  lemma StrippedOctets(frame: seq<byte>)
    requires 14 <= |frame|
    ensures |Stripped(frame)| == Min(|frame| - 14, 28)
    ensures forall j :: 0 <= j < |Stripped(frame)| ==> Stripped(frame)[j] == frame[14 + j]
  {
  }

  /** The frames captured whole, with an Ethernet header. */
  function WholeFrames(records: seq<Record>): seq<seq<byte>> {
    if records == [] then []
    else if |records[0].frame| == records[0].datalen && 14 <= |records[0].frame|
    then [records[0].frame] + WholeFrames(records[1..])
    else WholeFrames(records[1..])
  }

  /** The slot holds what is behind the frame's Ethernet header, and otherwise what it held before. */
  predicate SlotHolds(frame: seq<byte>, before: Arp, after: Arp, len: nat) {
    && 14 <= |frame| && len == (if |frame| < 14 + 28 then |frame| - 14 else 28)
    && forall j :: 0 <= j < 28 ==> after[j] == if j < len then frame[14 + j] else before[j]
  }

  lemma {:induction false} PayloadsAreFrames(records: seq<Record>)
    ensures |Payloads(records)| == |WholeFrames(records)|
    ensures forall i :: 0 <= i < |Payloads(records)| ==>
      14 <= |WholeFrames(records)[i]| && Payloads(records)[i] == Stripped(WholeFrames(records)[i])
    decreases |records|
  {
    if records != [] {
      PayloadsAreFrames(records[1..]);
    }
  }

  /**
   * What a read of any records leaves in the slots and lengths: the first n whole frames' payloads, in their
   * order, and nothing else changed.
   */
  lemma ReadOctets(abi: Abi, buf: seq<byte>, records: seq<Record>, slots: seq<Arp>, lens: seq<nat>, n: nat, i: nat)
    requires |buf| < TWO32 && LaidOut(abi, buf, 0, records)
    requires n <= |WholeFrames(records)| && n <= |slots| && n <= |lens|
    ensures |Arps(abi, buf, 0)| == |WholeFrames(records)|
    ensures i < n ==>
      SlotHolds(WholeFrames(records)[i], slots[i], Fill(slots, Arps(abi, buf, 0)[..n])[i],
                FillLens(lens, Arps(abi, buf, 0)[..n])[i])
    ensures n <= i < |slots| ==> Fill(slots, Arps(abi, buf, 0)[..n])[i] == slots[i]
    ensures n <= i < |lens| ==> FillLens(lens, Arps(abi, buf, 0)[..n])[i] == lens[i]
  {
    ReadInvertsLayout(abi, buf, 0, records);
    PayloadsAreFrames(records);
    if i < n {
      StrippedOctets(WholeFrames(records)[i]);
    }
  }

  // ---- Sending ----

  /** A broadcast from mac that carries the ARP packet. */
  predicate IsArpFrame(f: seq<byte>, mac: seq<byte>, arp: Arp) {
    && |f| == 42 && (forall i :: 0 <= i < 6 ==> f[i] == 0xff) && f[6..12] == mac
    && f[12] == 8 && f[13] == 6 && f[14..] == arp
  }

  /** `written` is what write returns, negative for an error. */
  method SendArp(mac: seq<byte>, arp: Arp, written: int) returns (r: int, sent: seq<byte>)
    requires |mac| == ETHER_ADDR_LEN
    ensures IsArpFrame(sent, mac, arp)
    ensures r == if written < 0 then written else if written != |sent| then -EIO else 0
  {
    var frame := new byte[ETHER_HDR + ARP_LEN](_ => 0);
    var ethertype := Put16(ETHERTYPE_ARP);
    forall i | 0 <= i < ETHER_ADDR_LEN { frame[i] := 0xff; }
    forall i | 0 <= i < ETHER_ADDR_LEN { frame[ETHER_ADDR_LEN + i] := mac[i]; }
    frame[12], frame[13] := ethertype[0], ethertype[1];
    forall i | 0 <= i < ARP_LEN { frame[ETHER_HDR + i] := arp[i]; }
    sent := frame[..];
    r := if written < 0 then written else if written != |sent| then -EIO else 0;
  }

  /**
   * A sent ARP packet that comes back as the first record of a read, with any padding behind it, is the
   * first one read, whole, and the filter lets it through exactly when it is about Ethernet hardware.
   */
  lemma SendReadRoundTrip(abi: Abi, buf: seq<byte>, hdrlen: nat, mac: seq<byte>, arp: Arp, f: seq<byte>,
                          padding: seq<byte>)
    requires |buf| < TWO32 && IsArpFrame(f, mac, arp)
    requires RecordAt(abi, buf, 0, Record(hdrlen, f + padding, |f + padding|))
    ensures |Arps(abi, buf, 0)| > 0 && Arps(abi, buf, 0)[0] == arp
    ensures Verdict(AcdFilter(), f + padding) != 0 <==> arp[0] == 0 && arp[1] == 1
  {
    StrippedOctets(f + padding);
    assert Stripped(f + padding) == arp;
    assert RecordArp(abi, buf, 0) == [arp];
    AcdFilterMeaning(f + padding);
  }
}
