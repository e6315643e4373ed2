/**
 * The internet checksum of section 1 of RFC 1071 and the UDP checksum over the pseudo-header of
 * RFC 768.  The code accumulates plain sums and folds the carries at the end; the specification adds
 * word by word in one's complement arithmetic.
 */
module InetChecksum {
  import opened Bytes
  import opened Protocol

  const ONES := 0xffff

  // ---- Specification ----

  /** Addition with end-around carry. */
  function OnesAdd(a: u16, b: u16): u16 {
    if a + b <= ONES then a + b else a + b - ONES
  }

  /** The first 16-bit word; a last odd octet is padded on the right with zero. */
  function FirstWord(data: seq<byte>): u16
    requires data != []
  {
    if |data| == 1 then data[0] as int * 0x100 else Be16(data, 0)
  }

  function AfterFirstWord(data: seq<byte>): (rest: seq<byte>)
    requires data != []
    ensures |rest| < |data|
  {
    if |data| == 1 then [] else data[2..]
  }

  function OnesSum(data: seq<byte>): u16
    decreases |data|
  {
    if data == [] then 0 else OnesAdd(FirstWord(data), OnesSum(AfterFirstWord(data)))
  }

  function Checksum(data: seq<byte>): u16 {
    ONES - OnesSum(data)
  }

  /** The pseudo-header of RFC 768 followed by the UDP header; `size` is the payload's length. */
  function PseudoHeader(src: seq<byte>, dst: seq<byte>, sport: u16, dport: u16, size: nat, check: u16): seq<byte> {
    src + dst + [0, IPPROTO_UDP] + Put16((8 + size) % 0x1_0000)
      + Put16(sport) + Put16(dport) + Put16((8 + size) % 0x1_0000) + Put16(check)
  }

  function UdpChecksum(src: seq<byte>, dst: seq<byte>, sport: u16, dport: u16, data: seq<byte>, check: u16): u16 {
    Checksum(PseudoHeader(src, dst, sport, dport, |data|, check) + data)
  }

  // ---- The accumulated sum ----

  function PlainSum(data: seq<byte>): nat
    decreases |data|
  {
    if data == [] then 0 else FirstWord(data) + PlainSum(AfterFirstWord(data))
  }

  /** The sum of any packet is far below 2^64, so the code's 64-bit accumulator never wraps. */
  lemma {:induction false} SumBounded(data: seq<byte>)
    ensures PlainSum(data) <= ONES * |data|
    decreases |data|
  {
    if data != [] {
      SumBounded(AfterFirstWord(data));
    }
  }

  /** What is left of a plain sum once every carry has been folded in. */
  function Fold(n: nat): u16 {
    if n == 0 then 0 else (n - 1) % ONES + 1
  }

  lemma FoldIsOnesAdd(a: u16, n: nat)
    ensures OnesAdd(a, Fold(n)) == Fold(a + n)
  {
  }

  /** Deferring the carries does not change the sum. */
  lemma {:induction false} OnesSumIsFold(data: seq<byte>)
    ensures OnesSum(data) == Fold(PlainSum(data))
    decreases |data|
  {
    if data != [] {
      OnesSumIsFold(AfterFirstWord(data));
      FoldIsOnesAdd(FirstWord(data), PlainSum(AfterFirstWord(data)));
    }
  }

  lemma FoldStep(n: nat)
    requires n > ONES
    ensures Fold(n % 0x1_0000 + n / 0x1_0000) == Fold(n)
    ensures n % 0x1_0000 + n / 0x1_0000 < n
  {
    var h, l := n / 0x1_0000, n % 0x1_0000;
    assert n - 1 == ONES * h + (h + l - 1);
    ModUnique(n - 1, ONES, h + (h + l - 1) / ONES, (h + l - 1) % ONES);
  }

  // ---- The code ----

  method Accumulate(start: nat, data: seq<byte>) returns (acc: nat)
    ensures acc == start + PlainSum(data)
  {
    acc := start;
    var iter := data;
    while iter != []
      invariant acc + PlainSum(iter) == start + PlainSum(data)
      decreases |iter|
    {
      acc := acc + FirstWord(iter);
      iter := AfterFirstWord(iter);
    }
  }

  method FoldComplement(sum: nat) returns (r: u16)
    ensures r == ONES - Fold(sum)
  {
    var acc: nat := sum;
    while acc > ONES
      invariant Fold(acc) == Fold(sum)
    {
      FoldStep(acc);
      acc := acc % 0x1_0000 + acc / 0x1_0000;
    }
    r := ONES - acc;
  }

  /** packet_internet_checksum */
  method InternetChecksum(data: seq<byte>) returns (r: u16)
    ensures r == Checksum(data)
  {
    var acc := Accumulate(0, data);
    r := FoldComplement(acc);
    OnesSumIsFold(data);
  }

  /** packet_internet_checksum_udp */
  method InternetChecksumUdp(src: seq<byte>, dst: seq<byte>, sport: u16, dport: u16, data: seq<byte>, check: u16)
    returns (r: u16)
    requires |src| == 4 && |dst| == 4
    ensures r == UdpChecksum(src, dst, sport, dport, data, check)
  {
    var header := PseudoHeader(src, dst, sport, dport, |data|, check);
    var acc := Accumulate(0, header);
    acc := Accumulate(acc, data);
    r := FoldComplement(acc);
    SumAppend(header, data);
    OnesSumIsFold(header + data);
  }

  // ---- Sums of concatenations and of changed words ----

  lemma {:induction false} SumAppend(a: seq<byte>, b: seq<byte>)
    requires |a| % 2 == 0
    ensures PlainSum(a + b) == PlainSum(a) + PlainSum(b)
    decreases |a|
  {
    if a == [] {
      assert a + b == b;
    } else {
      assert AfterFirstWord(a + b) == AfterFirstWord(a) + b;
      SumAppend(AfterFirstWord(a), b);
    }
  }

  /** `data` with the word at offset k replaced. */
  function WithWord(data: seq<byte>, k: nat, w: u16): (r: seq<byte>)
    requires k + 2 <= |data|
    ensures |r| == |data|
  {
    data[..k] + Put16(w) + data[k + 2..]
  }

  lemma SumAround(a: seq<byte>, w: u16, b: seq<byte>)
    requires |a| % 2 == 0
    ensures PlainSum(a + Put16(w) + b) == PlainSum(a) + w + PlainSum(b)
  {
    assert AfterFirstWord(Put16(w) + b) == b;
    assert a + Put16(w) + b == a + (Put16(w) + b);
    SumAppend(a, Put16(w) + b);
  }

  lemma SplitAtWord(data: seq<byte>, k: nat)
    requires k + 2 <= |data|
    ensures data == data[..k] + Put16(Be16(data, k)) + data[k + 2..]
  {
    Put16Be16(data, k);
  }

  lemma SumWithWord(data: seq<byte>, k: nat, w: u16)
    requires k % 2 == 0 && k + 2 <= |data|
    ensures PlainSum(WithWord(data, k, w)) == PlainSum(data) - Be16(data, k) + w
  {
    SplitAtWord(data, k);
    SumAround(data[..k], w, data[k + 2..]);
    SumAround(data[..k], Be16(data, k), data[k + 2..]);
  }

  // ---- Verification ----

  /** Data verifies exactly when its words sum to a positive multiple of 65535. */
  lemma VerifiesIff(data: seq<byte>)
    ensures Checksum(data) == 0 <==> PlainSum(data) > 0 && PlainSum(data) % ONES == 0
  {
    OnesSumIsFold(data);
  }

  /**
   * Storing the checksum computed over a zeroed field makes the data verify; so does storing 0xffff
   * in place of a computed zero.
   */
  lemma StoredChecksumVerifies(data: seq<byte>, k: nat, c: u16)
    requires k % 2 == 0 && k + 2 <= |data| && Be16(data, k) == 0
    requires c == Checksum(data) || (c == ONES && Checksum(data) == 0)
    ensures Checksum(WithWord(data, k, c)) == 0
  {
    SumWithWord(data, k, c);
    OnesSumIsFold(data);
    CompletedVerifies(PlainSum(data), c, WithWord(data, k, c));
  }

  lemma CompletedVerifies(n: nat, c: u16, data: seq<byte>)
    requires PlainSum(data) == n + c && (c == ONES - Fold(n) || (c == ONES && Fold(n) == ONES))
    ensures Checksum(data) == 0
  {
    FoldCompletes(n);
    VerifiesIff(data);
    if c == ONES && Fold(n) == ONES {
      MultiplesDiffer(n, ONES, 0);
    }
  }

  /** Of two data that differ in one aligned word, both verify only if the words are equal modulo 65535. */
  lemma ChangedWordDetected(data: seq<byte>, k: nat, w: u16)
    requires k % 2 == 0 && k + 2 <= |data| && Checksum(data) == 0
    requires PlainSum(WithWord(data, k, w)) > 0
    ensures Checksum(WithWord(data, k, w)) == 0 <==> SameModuloOnes(w, Be16(data, k))
  {
    SumWithWord(data, k, w);
    VerifiesIff(data);
    VerifiesIff(WithWord(data, k, w));
    MultiplesDiffer(PlainSum(data), w, Be16(data, k));
  }

  /** Congruence modulo 65535 of two words: equality, or the pair of zeros of one's complement. */
  predicate SameModuloOnes(v: u16, w: u16) {
    v == w || (v == 0 && w == ONES) || (v == ONES && w == 0)
  }

  lemma MultiplesDiffer(n: nat, v: u16, w: u16)
    requires n % ONES == 0
    ensures (n - w + v) % ONES == 0 <==> SameModuloOnes(v, w)
  {
  }

  // ---- By position ----

  /** Every octet counts 256 times or once, depending on whether its position is even or odd. */
  function OctetSum(data: seq<byte>): nat {
    if data == [] then 0
    else
      var last := |data| - 1;
      OctetSum(data[..last]) + (if last % 2 == 0 then data[last] as int * 0x100 else data[last])
  }

  lemma {:induction false} OctetSumAppend(a: seq<byte>, b: seq<byte>)
    requires |a| % 2 == 0
    ensures OctetSum(a + b) == OctetSum(a) + OctetSum(b)
    decreases |b|
  {
    if b == [] {
      assert a + b == a;
    } else {
      assert (a + b)[..|a + b| - 1] == a + b[..|b| - 1];
      OctetSumAppend(a, b[..|b| - 1]);
    }
  }

  lemma OctetSumOfWord(w: seq<byte>)
    requires 1 <= |w| <= 2
    ensures OctetSum(w) == FirstWord(w)
  {
    assert w[..|w| - 1] == if |w| == 1 then [] else [w[0]];
    assert [w[0]][..0] == [];
  }

  /** Summing words is summing octets by position, an odd last one included. */
  lemma {:induction false} PlainSumIsOctets(data: seq<byte>)
    ensures PlainSum(data) == OctetSum(data)
    decreases |data|
  {
    if 1 <= |data| <= 2 {
      OctetSumOfWord(data);
    } else if data != [] {
      assert data == data[..2] + data[2..];
      OctetSumAppend(data[..2], data[2..]);
      OctetSumOfWord(data[..2]);
      PlainSumIsOctets(data[2..]);
    }
  }

  predicate PositiveMultiple(n: nat) {
    n > 0 && n % 65535 == 0
  }

  /** The checksum is what is missing to a multiple of 65535, and 65535 only for zeros. */
  lemma ChecksumCompletes(data: seq<byte>)
    ensures (OctetSum(data) + Checksum(data)) % ONES == 0
    ensures Checksum(data) == ONES <==> OctetSum(data) == 0
    ensures Checksum(data) == 0 <==> PositiveMultiple(OctetSum(data))
  {
    PlainSumIsOctets(data);
    OnesSumIsFold(data);
    FoldCompletes(OctetSum(data));
  }

  lemma VerifiesBySum(data: seq<byte>, total: nat)
    requires total == OctetSum(data)
    ensures Checksum(data) == 0 <==> PositiveMultiple(total)
  {
    ChecksumCompletes(data);
  }

  lemma FoldCompletes(n: nat)
    ensures (n + (ONES - Fold(n))) % ONES == 0 && (Fold(n) == 0 <==> n == 0)
    ensures Fold(n) == ONES <==> n > 0 && n % ONES == 0
  {
    if n > 0 {
      var q, r := (n - 1) / ONES, (n - 1) % ONES;
      assert n + (ONES - Fold(n)) == ONES * (q + 1);
      ModUnique(n + (ONES - Fold(n)), ONES, q + 1, 0);
      if r + 1 < ONES {
        ModUnique(n, ONES, q, r + 1);
      } else {
        assert n == ONES * (q + 1);
        ModUnique(n, ONES, q + 1, 0);
      }
    }
  }

  /** An odd last octet counts as if a zero followed it. */
  lemma OddIsPadded(data: seq<byte>)
    requires |data| % 2 == 1
    ensures Checksum(data + [0]) == Checksum(data)
  {
    assert (data + [0])[..|data|] == data;
    PlainSumIsOctets(data);
    PlainSumIsOctets(data + [0]);
    OnesSumIsFold(data);
    OnesSumIsFold(data + [0]);
  }

  // ---- The pseudo-header's words ----

  lemma OctetSumNext(a: seq<byte>, w: u16)
    requires |a| % 2 == 0
    ensures OctetSum(a + Put16(w)) == OctetSum(a) + w
  {
    OctetSumAppend(a, Put16(w));
    OctetSumOfWord(Put16(w));
  }

  lemma AddressesSum(src: seq<byte>, dst: seq<byte>, a: seq<byte>)
    requires |src| == 4 && |dst| == 4 && a == src + dst + [0, IPPROTO_UDP]
    ensures |a| == 10 && OctetSum(a) == OctetSum(src) + OctetSum(dst) + 17
  {
    OctetSumAppend(src, dst);
    OctetSumNext(src + dst, IPPROTO_UDP);
    assert Put16(IPPROTO_UDP) == [0, IPPROTO_UDP];
  }

  lemma AddWord(a: seq<byte>, n: nat, w: u16, b: seq<byte>)
    requires |a| == 2 * n && b == a + Put16(w)
    ensures |b| == 2 * (n + 1) && OctetSum(b) == OctetSum(a) + w
  {
    OctetSumNext(a, w);
  }

  lemma FiveWords(a: seq<byte>, v: u16, w: u16, x: u16, y: u16, z: u16, b: seq<byte>)
    requires |a| == 10 && b == a + Put16(v) + Put16(w) + Put16(x) + Put16(y) + Put16(z)
    ensures |b| == 20 && OctetSum(b) == OctetSum(a) + v + w + x + y + z
  {
    var c := a + Put16(v);
    var d := c + Put16(w);
    var e := d + Put16(x);
    var f := e + Put16(y);
    AddWord(a, 5, v, c);
    AddWord(c, 6, w, d);
    AddWord(d, 7, x, e);
    AddWord(e, 8, y, f);
    AddWord(f, 9, z, b);
  }

  lemma PseudoSum(src: seq<byte>, dst: seq<byte>, sport: u16, dport: u16, len: u16, check: u16, h: seq<byte>)
    requires |src| == 4 && |dst| == 4
    requires h == src + dst + [0, IPPROTO_UDP] + Put16(len) + Put16(sport) + Put16(dport) + Put16(len) + Put16(check)
    ensures |h| == 20 && OctetSum(h) == OctetSum(src) + OctetSum(dst) + 17 + len + len + sport + dport + check
  {
    var a := src + dst + [0, IPPROTO_UDP];
    AddressesSum(src, dst, a);
    FiveWords(a, len, sport, dport, len, check, h);
  }

  lemma PseudoHeaderSum(src: seq<byte>, dst: seq<byte>, sport: u16, dport: u16, size: nat, check: u16, len: u16)
    requires |src| == 4 && |dst| == 4 && len == 8 + size
    ensures var h := PseudoHeader(src, dst, sport, dport, size, check);
      |h| == 20 && OctetSum(h) == OctetSum(src) + OctetSum(dst) + 17 + len + len + sport + dport + check
  {
    assert len == (8 + size) % 0x1_0000;
    PseudoSum(src, dst, sport, dport, len, check, PseudoHeader(src, dst, sport, dport, size, check));
  }

  /** The UDP checksum sums addresses, protocol, the length twice, ports, checksum field and data. */
  lemma UdpSumOfParts(src: seq<byte>, dst: seq<byte>, sport: u16, dport: u16, data: seq<byte>, check: u16,
                      len: u16, h: seq<byte>)
    requires |src| == 4 && |dst| == 4 && len == 8 + |data|
    requires h == PseudoHeader(src, dst, sport, dport, |data|, check)
    ensures OctetSum(h + data)
         == OctetSum(src) + OctetSum(dst) + 17 + len + len + sport + dport + check + OctetSum(data)
  {
    PseudoHeaderSum(src, dst, sport, dport, |data|, check, len);
    SumBehind(h, data);
  }

  lemma SumBehind(h: seq<byte>, data: seq<byte>)
    requires |h| == 20
    ensures OctetSum(h + data) == OctetSum(h) + OctetSum(data)
  {
    OctetSumAppend(h, data);
  }

  /** Its octets, as the code's struct has them. */
  lemma PseudoHeaderOctets(src: seq<byte>, dst: seq<byte>, sport: u16, dport: u16, size: nat, check: u16, h: seq<byte>)
    requires |src| == 4 && |dst| == 4 && h == PseudoHeader(src, dst, sport, dport, size, check)
    ensures |h| == 20 && h[..4] == src && h[4..8] == dst && h[8] == 0 && h[9] == 17
    ensures Be16(h, 10) == Be16(h, 16) == (8 + size) % 0x1_0000
    ensures Be16(h, 12) == sport && Be16(h, 14) == dport && Be16(h, 18) == check
  {
  }

  // ---- Byte order ----

  function Swap(w: u16): u16 {
    w % 0x100 * 0x100 + w / 0x100
  }

  /** The plain sum as a little-endian machine accumulates it. */
  function SwappedSum(data: seq<byte>): nat
    decreases |data|
  {
    if data == [] then 0 else Swap(FirstWord(data)) + SwappedSum(AfterFirstWord(data))
  }

  /** The octets that swapping moves down, added up. */
  function HighSum(data: seq<byte>): nat
    decreases |data|
  {
    if data == [] then 0 else FirstWord(data) / 0x100 + HighSum(AfterFirstWord(data))
  }

  lemma SwapRotates(w: u16)
    ensures 0x100 * w == Swap(w) + ONES * (w / 0x100)
    ensures Swap(ONES - w) == ONES - Swap(w)
  {
    var h, l := w / 0x100, w % 0x100;
    ModUnique(ONES - w, 0x100, 0xff - h, 0xff - l);
  }

  lemma {:induction false} SwappedSumCongruent(data: seq<byte>)
    ensures 0x100 * PlainSum(data) == SwappedSum(data) + ONES * HighSum(data)
    ensures SwappedSum(data) == 0 <==> PlainSum(data) == 0
    decreases |data|
  {
    if data != [] {
      SwapRotates(FirstWord(data));
      SwappedSumCongruent(AfterFirstWord(data));
    }
  }

  lemma FoldSwaps(n: nat, m: nat, q: nat)
    requires 0x100 * n == m + ONES * q && (m == 0 <==> n == 0)
    ensures Fold(m) == Swap(Fold(n))
  {
    if n > 0 {
      var t := (n - 1) / ONES;
      var s := Fold(n);
      SwapRotates(s);
      assert m - 1 == ONES * (0x100 * t + s / 0x100 - q) + (Swap(s) - 1);
      ModUnique(m - 1, ONES, 0x100 * t + s / 0x100 - q, Swap(s) - 1);
    }
  }

  /**
   * Section 2(B) of RFC 1071: a machine that loads and stores words in the other byte order gets the
   * swapped checksum, and so stores the same two octets.
   */
  lemma ByteOrderIndependence(data: seq<byte>)
    ensures ONES - Fold(SwappedSum(data)) == Swap(Checksum(data))
  {
    OnesSumIsFold(data);
    SwappedSumCongruent(data);
    FoldSwaps(PlainSum(data), SwappedSum(data), HighSum(data));
    SwapRotates(OnesSum(data));
  }
}
