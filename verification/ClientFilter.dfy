/**
 * The DHCP client's packet filter: the Linux program, which reads a packet that starts at its IP
 * header, and the BSD program, which reads the whole Ethernet frame.
 */
module ClientFilter {
  import opened Bytes
  import opened Protocol
  import opened BpfMachine

  const FRAG_MASK := 0x3fff          // IP_MF | IP_OFFMASK
  const CLIENT_PORT := 68
  const BOOTREPLY := 2
  const DHCP_MAGIC := 0x6382_5363
  const ACCEPT := 65535

  /** Where the DHCP structures put what the filter reads; their declarations are not modelled. */
  datatype Dhcp = Dhcp(messageSize: u16, opAt: u16, magicAt: u16)

  function LinuxFilter(c: Dhcp): (prog: seq<Insn>)
    ensures |prog| == 25
  {
    [ // IP
      LdAbs(B, 9),                                 // A <- IP protocol
      JmpEq(IPPROTO_UDP, 1, 0),
      Ret(0),
      LdAbs(H, 6),                                 // A <- flags + fragment offset
      AluAnd(FRAG_MASK),
      JmpEq(0, 1, 0),
      Ret(0),
      LdxMsh(0),                                   // X <- IP header length
      LdLen,
      AluSubX,
      JmpGe(UDP_HDR + c.messageSize, 1, 0),
      Ret(0)
    ] + [ // UDP
      LdInd(H, 2),                                 // A <- destination port
      JmpEq(CLIENT_PORT, 1, 0),
      Ret(0),
      LdImm(UDP_HDR),
      AluAddX,
      Tax                                         // X <- IP and UDP header length
    ] + [ // DHCP
      LdInd(B, c.opAt),
      JmpEq(BOOTREPLY, 1, 0),
      Ret(0),
      LdInd(W, c.magicAt),
      JmpEq(DHCP_MAGIC, 1, 0),
      Ret(0),
      Ret(ACCEPT)
    ]
  }

  function BsdFilter(c: Dhcp): (prog: seq<Insn>)
    ensures |prog| == 28
  {
    [ // Ethernet
      LdAbs(H, 12),                                // A <- ethertype
      JmpEq(ETHERTYPE_IP, 1, 0),
      Ret(0)
    ] + [ // IP
      LdAbs(B, ETHER_HDR + 9),
      JmpEq(IPPROTO_UDP, 1, 0),
      Ret(0),
      LdAbs(H, ETHER_HDR + 6),
      AluAnd(FRAG_MASK),
      JmpEq(0, 1, 0),
      Ret(0),
      LdxMsh(ETHER_HDR),
      LdLen,
      AluSubX,
      JmpGe(ETHER_HDR + UDP_HDR + c.messageSize, 1, 0),
      Ret(0)
    ] + [ // UDP
      LdInd(H, ETHER_HDR + 2),
      JmpEq(CLIENT_PORT, 1, 0),
      Ret(0),
      LdImm(UDP_HDR),
      AluAddX,
      Tax
    ] + [ // DHCP
      LdInd(B, ETHER_HDR + c.opAt),
      JmpEq(BOOTREPLY, 1, 0),
      Ret(0),
      LdInd(W, ETHER_HDR + c.magicAt),
      JmpEq(DHCP_MAGIC, 1, 0),
      Ret(0),
      Ret(ACCEPT)
    ]
  }

  // ---- Equivalence of the two programs ----

  /** A run that starts with a load does not depend on A. */
  lemma FirstLoadIgnoresA(prog: seq<Insn>, p: seq<byte>, pc: nat, w: Width, k: u32, a: u32, a': u32, x: u32)
    requires pc < |prog| && (prog[pc] == LdAbs(w, k) || prog[pc] == LdInd(w, k))
    ensures Run(prog, p, pc, a, x) == Run(prog, p, pc, a', x)
  {
  }

  /** After the length check the two programs agree in every machine state. */
  lemma {:induction false} AgreeAfterLengthCheck(c: Dhcp, f: seq<byte>, a: u32, x: u32)
    requires ETHER_HDR <= |f|
    ensures Run(BsdFilter(c), f, 15, a, x) == Run(LinuxFilter(c), f[ETHER_HDR..], 12, a, x)
  {
    RelocationSimulates(LinuxFilter(c), BsdFilter(c), ETHER_HDR, 3, 12, 25, f, a, x);
  }

  /**
   * The length check of either program, behind an e-byte header: it lets a run through only when the
   * rest of the packet is long enough.  An X beyond the packet wraps A around and passes the
   * comparison; then it is the load of the destination port that drops the packet.
   */
  lemma LengthCheck(c: Dhcp, prog: seq<Insn>, e: nat, pc: nat, p: seq<byte>, a: u32, x: u32)
    requires e <= ETHER_HDR && |p| < TWO32 && pc + 5 <= |prog|
    requires prog[pc] == LdLen && prog[pc + 1] == AluSubX
    requires prog[pc + 2] == JmpGe(e + UDP_HDR + c.messageSize, 1, 0) && prog[pc + 3] == Ret(0)
    requires prog[pc + 4] == LdInd(H, e + 2)
    ensures Run(prog, p, pc, a, x)
         == if e + UDP_HDR + c.messageSize <= |p| - x then Run(prog, p, pc + 4, |p| - x, x) else 0
  {
    var rest: u32 := (|p| - x) % TWO32;
    assert Run(prog, p, pc, a, x) == Run(prog, p, pc + 1, |p|, x);
    assert Run(prog, p, pc + 1, |p|, x) == Run(prog, p, pc + 2, rest, x);
    assert Run(prog, p, pc + 3, rest, x) == 0;
    if |p| < x {
      assert Load(p, H, x + (e + 2)).None?;
      assert Run(prog, p, pc + 4, rest, x) == 0;
    }
  }

  /**
   * They also agree from the length check on, although the check itself does not move alike: an IP
   * header longer than the packet wraps A around on one side only, or on both.
   */
  lemma AgreeFromLengthCheck(c: Dhcp, f: seq<byte>, a: u32, x: u32)
    requires ETHER_HDR <= |f| < TWO32
    ensures Run(BsdFilter(c), f, 11, a, x) == Run(LinuxFilter(c), f[ETHER_HDR..], 8, a, x)
  {
    LengthCheck(c, BsdFilter(c), ETHER_HDR, 11, f, a, x);
    LinuxLengthCheck(c, f[ETHER_HDR..], a, x);
    if ETHER_HDR + UDP_HDR + c.messageSize <= |f| - x {
      AgreeAfterLengthCheck(c, f, |f| - x, x);
      FirstLoadIgnoresA(LinuxFilter(c), f[ETHER_HDR..], 12, H, 2, |f| - x, |f| - ETHER_HDR - x, x);
    }
  }

  /** Behind the ethertype test the two programs agree. */
  lemma AgreeFromIpHeader(c: Dhcp, f: seq<byte>, a: u32)
    requires ETHER_HDR <= |f| < TWO32
    ensures Run(BsdFilter(c), f, 3, a, 0) == Run(LinuxFilter(c), f[ETHER_HDR..], 0, a, 0)
  {
    forall a': u32, x': u32
      ensures Run(BsdFilter(c), f, 8 + 3, a', x') == Run(LinuxFilter(c), f[ETHER_HDR..], 8, a', x')
    {
      AgreeFromLengthCheck(c, f, a', x');
    }
    RelocationSimulates(LinuxFilter(c), BsdFilter(c), ETHER_HDR, 3, 0, 8, f, a, 0);
  }

  /**
   * The rewrite is right for every frame: the BSD filter returns what the Linux filter returns for
   * the frame without its Ethernet header, and drops every frame that is too short to have one or
   * whose ethertype is not IPv4.
   */
  lemma FilterEquivalence(c: Dhcp, f: seq<byte>)
    requires |f| < TWO32
    ensures Verdict(BsdFilter(c), f)
         == if ETHER_HDR <= |f| && Be16(f, 12) == ETHERTYPE_IP
            then Verdict(LinuxFilter(c), f[ETHER_HDR..]) else 0
  {
    LoadAndTest(BsdFilter(c), f, 0, 0, 0, H, 12, ETHERTYPE_IP);
    if ETHER_HDR <= |f| && Be16(f, 12) == ETHERTYPE_IP {
      AgreeFromIpHeader(c, f, ETHERTYPE_IP);
      FirstLoadIgnoresA(LinuxFilter(c), f[ETHER_HDR..], 0, B, 9, ETHERTYPE_IP, 0, 0);
    }
  }

  // ---- What both programs accept ----

  /**
   * An unfragmented UDP datagram to the client port whose payload is long enough for a DHCP message
   * and carries BOOTREPLY and the magic cookie where the message keeps them.
   */
  predicate IsDhcpReply(c: Dhcp, p: seq<byte>) {
    && 10 <= |p|
    && p[9] == IPPROTO_UDP
    && Be16(p, 6) % 0x4000 == 0
    && var ihl := p[0] % 16 * 4;
    && ihl + UDP_HDR + c.messageSize <= |p|
    && ihl + 4 <= |p| && Be16(p, ihl + 2) == CLIENT_PORT
    && ReplyAt(c, p, ihl + UDP_HDR)
  }

  predicate ReplyAt(c: Dhcp, p: seq<byte>, m: nat) {
    && m + c.opAt < |p| && p[m + c.opAt] == BOOTREPLY
    && m + c.magicAt + 4 <= |p| && Be32(p, m + c.magicAt) == DHCP_MAGIC
  }

  lemma DhcpChecks(c: Dhcp, p: seq<byte>, a: u32, x: u32)
    requires x <= 68
    ensures Run(LinuxFilter(c), p, 18, a, x) == if ReplyAt(c, p, x) then ACCEPT else 0
  {
    LoadAndTest(LinuxFilter(c), p, 18, a, x, B, x + c.opAt, BOOTREPLY);
    LoadAndTest(LinuxFilter(c), p, 21, BOOTREPLY, x, W, x + c.magicAt, DHCP_MAGIC);
    assert Run(LinuxFilter(c), p, 24, DHCP_MAGIC, x) == ACCEPT;
  }

  lemma UdpChecks(c: Dhcp, p: seq<byte>, a: u32, x: u32)
    requires x <= 60
    ensures Run(LinuxFilter(c), p, 12, a, x)
         == if x + 4 <= |p| && Be16(p, x + 2) == CLIENT_PORT && ReplyAt(c, p, x + UDP_HDR) then ACCEPT else 0
  {
    PortTest(LinuxFilter(c), p, 12, a, x);
    DhcpChecks(c, p, UDP_HDR + x, UDP_HDR + x);
  }

  lemma PortTest(prog: seq<Insn>, p: seq<byte>, pc: nat, a: u32, x: u32)
    requires pc + 6 <= |prog| && x <= 60
    requires prog[pc] == LdInd(H, 2) && prog[pc + 1] == JmpEq(CLIENT_PORT, 1, 0) && prog[pc + 2] == Ret(0)
    requires prog[pc + 3] == LdImm(UDP_HDR) && prog[pc + 4] == AluAddX && prog[pc + 5] == Tax
    ensures Run(prog, p, pc, a, x)
         == if x + 4 <= |p| && Be16(p, x + 2) == CLIENT_PORT
            then Run(prog, p, pc + 6, UDP_HDR + x, UDP_HDR + x) else 0
  {
    LoadAndTest(prog, p, pc, a, x, H, x + 2, CLIENT_PORT);
    SkipUdpHeader(prog, p, pc + 3, CLIENT_PORT, x);
  }

  lemma SkipUdpHeader(prog: seq<Insn>, p: seq<byte>, pc: nat, a: u32, x: u32)
    requires pc + 3 <= |prog| && x <= 60
    requires prog[pc] == LdImm(UDP_HDR) && prog[pc + 1] == AluAddX && prog[pc + 2] == Tax
    ensures Run(prog, p, pc, a, x) == Run(prog, p, pc + 3, UDP_HDR + x, UDP_HDR + x)
  {
    assert Run(prog, p, pc + 1, UDP_HDR, x) == Run(prog, p, pc + 2, UDP_HDR + x, x);
  }

  lemma FragmentTest(prog: seq<Insn>, p: seq<byte>, pc: nat, a: u32, x: u32)
    requires pc + 4 <= |prog| && 10 <= |p|
    requires prog[pc] == LdAbs(H, 6) && prog[pc + 1] == AluAnd(FRAG_MASK)
    requires prog[pc + 2] == JmpEq(0, 1, 0) && prog[pc + 3] == Ret(0)
    ensures Run(prog, p, pc, a, x) == if Be16(p, 6) % 0x4000 == 0 then Run(prog, p, pc + 4, 0, x) else 0
  {
    var frag: u32 := Be16(p, 6);
    var masked: u32 := And(frag, FRAG_MASK);
    assert LowOnes(14) == FRAG_MASK by {
      assert LowOnes(4) == 0xf && LowOnes(8) == 0xff && LowOnes(12) == 0xfff;
    }
    AndWithLowOnes(frag, 14);
    assert Run(prog, p, pc, a, x) == Run(prog, p, pc + 1, frag, x);
    assert Run(prog, p, pc + 1, frag, x) == Run(prog, p, pc + 2, masked, x);
    assert Run(prog, p, pc + 3, masked, x) == 0;
  }

  lemma ProtocolCheck(c: Dhcp, p: seq<byte>)
    ensures Verdict(LinuxFilter(c), p)
         == if 10 <= |p| && p[9] == IPPROTO_UDP then Run(LinuxFilter(c), p, 3, IPPROTO_UDP, 0) else 0
  {
    LoadAndTest(LinuxFilter(c), p, 0, 0, 0, B, 9, IPPROTO_UDP);
  }

  lemma FragmentCheck(c: Dhcp, p: seq<byte>, a: u32)
    requires 10 <= |p|
    ensures Run(LinuxFilter(c), p, 3, a, 0)
         == if Be16(p, 6) % 0x4000 == 0 then Run(LinuxFilter(c), p, 8, 0, p[0] % 16 * 4) else 0
  {
    FragmentTest(LinuxFilter(c), p, 3, a, 0);
  }

  lemma LinuxLengthCheck(c: Dhcp, p: seq<byte>, a: u32, x: u32)
    requires |p| < TWO32
    ensures Run(LinuxFilter(c), p, 8, a, x)
         == if UDP_HDR + c.messageSize <= |p| - x then Run(LinuxFilter(c), p, 12, |p| - x, x) else 0
  {
    LengthCheck(c, LinuxFilter(c), 0, 8, p, a, x);
  }

  /** The Linux filter accepts exactly the DHCP replies. */
  lemma LinuxFilterMeaning(c: Dhcp, p: seq<byte>)
    requires |p| < TWO32
    ensures Verdict(LinuxFilter(c), p) == if IsDhcpReply(c, p) then ACCEPT else 0
  {
    ProtocolCheck(c, p);
    if 10 <= |p| {
      var ihl := p[0] % 16 * 4;
      FragmentCheck(c, p, IPPROTO_UDP);
      LinuxLengthCheck(c, p, 0, ihl);
      if UDP_HDR + c.messageSize <= |p| - ihl {
        UdpChecks(c, p, |p| - ihl, ihl);
      }
    }
  }

  /** The BSD filter accepts exactly the IPv4 frames that hold one. */
  lemma BsdFilterMeaning(c: Dhcp, f: seq<byte>)
    requires |f| < TWO32
    ensures Verdict(BsdFilter(c), f)
         == if ETHER_HDR <= |f| && Be16(f, 12) == ETHERTYPE_IP && IsDhcpReply(c, f[ETHER_HDR..]) then ACCEPT else 0
  {
    FilterEquivalence(c, f);
    if ETHER_HDR <= |f| {
      LinuxFilterMeaning(c, f[ETHER_HDR..]);
    }
  }
}
