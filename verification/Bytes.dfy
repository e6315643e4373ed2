/** Octets, fixed-width words and the network byte order used on the wire. */
module Bytes {
  type byte = b: int | 0 <= b < 0x100
  type u16 = w: int | 0 <= w < 0x1_0000
  type u32 = w: int | 0 <= w < 0x1_0000_0000

  datatype Option<+T> = None | Some(value: T)

  const TWO32 := 0x1_0000_0000

  function Min(a: nat, b: nat): nat {
    if a <= b then a else b
  }

  function Be16(s: seq<byte>, i: nat): u16
    requires i + 2 <= |s|
  {
    (s[i] as int) * 0x100 + s[i + 1]
  }

  function Be32(s: seq<byte>, i: nat): u32
    requires i + 4 <= |s|
  {
    (Be16(s, i) as int) * 0x1_0000 + Be16(s, i + 2)
  }

  /** htons: a 16-bit word as it lies on the wire. */
  function Put16(w: u16): seq<byte> {
    [w / 0x100, w % 0x100]
  }

  function Add32(a: u32, b: u32): u32 {
    if a + b < TWO32 then a + b else a + b - TWO32
  }

  function Sub32(a: u32, b: u32): u32 {
    if b <= a then a - b else a - b + TWO32
  }

  lemma Put16Be16(s: seq<byte>, i: nat)
    requires i + 2 <= |s|
    ensures Put16(Be16(s, i)) == s[i..i + 2]
  {
    ModUnique(Be16(s, i), 0x100, s[i], s[i + 1]);
  }

  lemma Reassociate<T>(a: seq<T>, b: seq<T>, c: seq<T>)
    ensures (a + b) + c == a + (b + c)
  {
  }

  lemma SliceNext<T>(s: seq<T>, a: nat, b: nat)
    requires a <= b < |s|
    ensures s[a..b + 1] == s[a..b] + [s[b]]
  {
  }

  lemma TakeNext<T>(s: seq<T>, b: nat)
    requires b < |s|
    ensures s[..b + 1] == s[..b] + [s[b]]
  {
  }

  // ---- Division ----

  lemma MulGap(m: nat, x: int, y: int)
    requires x < y
    ensures m * x + m <= m * y
  {
    assert m * (y - x - 1) >= 0;
    assert m * (y - x - 1) == m * y - m * x - m;
  }

  lemma ModUnique(a: int, m: nat, q: int, r: nat)
    requires r < m && a == m * q + r
    ensures a / m == q && a % m == r
  {
    var q' := a / m;
    assert a == m * q' + a % m;
    if q < q' {
      MulGap(m, q, q');
    } else if q' < q {
      MulGap(m, q', q);
    }
  }
}
