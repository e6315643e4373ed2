/**
 * The classic BPF machine that runs a packet filter: accumulator A and index X,
 * both 32 bits wide, over one packet.  A load that reaches past the packet ends
 * the run with verdict 0 (drop).
 */
module BpfMachine {
  import opened Bytes

  datatype Width = B | H | W

  datatype Insn =
    | LdAbs(width: Width, k: u32)        // A <- P[k]
    | LdInd(width: Width, k: u32)        // A <- P[X + k]
    | LdLen                              // A <- packet length
    | LdImm(k: u32)                      // A <- k
    | LdxMsh(k: u32)                     // X <- 4 * (P[k] & 0xf)
    | JmpEq(k: u32, jt: nat, jf: nat)
    | JmpGe(k: u32, jt: nat, jf: nat)
    | AluAnd(k: u32)
    | AluAddX
    | AluSubX
    | Tax
    | Ret(k: u32)

  datatype Outcome = Return(verdict: u32) | Goto(pc: nat, a: u32, x: u32)

  function WidthBytes(w: Width): nat {
    match w case B => 1 case H => 2 case W => 4
  }

  function Load(p: seq<byte>, w: Width, at: nat): Option<u32> {
    if at + WidthBytes(w) > |p| then None
    else Some(match w case B => p[at] case H => Be16(p, at) case W => Be32(p, at))
  }

  /** Bitwise conjunction of two non-negative integers. */
  function And(a: nat, k: nat): (r: nat)
    ensures r <= a && r <= k
    decreases a
  {
    if a == 0 || k == 0 then 0
    else 2 * And(a / 2, k / 2) + (if a % 2 == 1 && k % 2 == 1 then 1 else 0)
  }

  /** A mask of n ones. */
  function LowOnes(n: nat): nat {
    if n == 0 then 0 else 2 * LowOnes(n - 1) + 1
  }

  /** Conjunction with n low ones keeps the n low bits. */
  lemma {:induction false} AndWithLowOnes(a: nat, n: nat)
    ensures And(a, LowOnes(n)) == a % (LowOnes(n) + 1)
    decreases n
  {
    if n > 0 {
      AndWithLowOnes(a / 2, n - 1);
      AndStep(a, LowOnes(n - 1));
    }
  }

  lemma AndStep(a: nat, m: nat)
    requires And(a / 2, m) == a / 2 % (m + 1)
    ensures And(a, 2 * m + 1) == a % (2 * m + 2)
  {
    HalveMod(a, m + 1);
    assert 2 * (m + 1) == 2 * m + 2;
  }

  lemma HalveMod(a: nat, m: nat)
    requires m > 0
    ensures a % (2 * m) == 2 * (a / 2 % m) + a % 2
  {
    var h, q, r := a / 2, a / 2 / m, a / 2 % m;
    assert h == m * q + r;
    assert 2 * (m * q) == (2 * m) * q;
    ModUnique(a, 2 * m, q, 2 * r + a % 2);
  }

  function LoadA(v: Option<u32>, pc: nat, x: u32): Outcome {
    if v.None? then Return(0) else Goto(pc + 1, v.value, x)
  }

  /** One instruction. */
  function Exec(i: Insn, p: seq<byte>, pc: nat, a: u32, x: u32): Outcome {
    match i
    case LdAbs(w, k) => LoadA(Load(p, w, k), pc, x)
    case LdInd(w, k) => LoadA(Load(p, w, x + k), pc, x)
    case LdLen => Goto(pc + 1, |p| % TWO32, x)
    case LdImm(k) => Goto(pc + 1, k, x)
    case LdxMsh(k) => if k >= |p| then Return(0) else Goto(pc + 1, a, p[k] % 16 * 4)
    case JmpEq(k, jt, jf) => Goto(pc + 1 + (if a == k then jt else jf), a, x)
    case JmpGe(k, jt, jf) => Goto(pc + 1 + (if a >= k then jt else jf), a, x)
    case AluAnd(k) => Goto(pc + 1, And(a, k), x)
    case AluAddX => Goto(pc + 1, (a + x) % TWO32, x)
    case AluSubX => Goto(pc + 1, (a - x) % TWO32, x)
    case Tax => Goto(pc + 1, a, a)
    case Ret(k) => Return(k)
  }

  /** The verdict of a program from a given machine state. */
  function Run(prog: seq<Insn>, p: seq<byte>, pc: nat, a: u32, x: u32): u32
    decreases |prog| - pc
  {
    if pc >= |prog| then 0
    else match Exec(prog[pc], p, pc, a, x)
      case Return(v) => v
      case Goto(pc', a', x') => Run(prog, p, pc', a', x')
  }

  function Verdict(prog: seq<Insn>, p: seq<byte>): u32 {
    Run(prog, p, 0, 0, 0)
  }

  /** A load, a comparison of what it loaded with v, and a drop: the shape of every test below. */
  lemma LoadAndTest(prog: seq<Insn>, p: seq<byte>, pc: nat, a: u32, x: u32, w: Width, at: u32, v: u32)
    requires pc + 3 <= |prog|
    requires prog[pc] == LdAbs(w, at) || (x <= at && prog[pc] == LdInd(w, at - x))
    requires prog[pc + 1] == JmpEq(v, 1, 0) && prog[pc + 2] == Ret(0)
    ensures Run(prog, p, pc, a, x) == if Load(p, w, at) == Some(v) then Run(prog, p, pc + 3, v, x) else 0
  {
    var loaded := Load(p, w, at);
    if loaded.Some? {
      assert Run(prog, p, pc, a, x) == Run(prog, p, pc + 1, loaded.value, x);
      assert Run(prog, p, pc + 2, loaded.value, x) == 0;
    }
  }

  // ---- Relocation past a link header ----

  /** An instruction moved to read the same packet behind an e-byte header. */
  function Relocate(i: Insn, e: nat): Insn
    requires i.LdAbs? || i.LdInd? || i.LdxMsh? ==> i.k + e < TWO32
  {
    match i
    case LdAbs(w, k) => LdAbs(w, k + e)
    case LdInd(w, k) => LdInd(w, k + e)
    case LdxMsh(k) => LdxMsh(k + e)
    case _ => i
  }

  /** `i` can be moved by Relocate alone, and does not jump beyond `room` more instructions. */
  predicate Movable(i: Insn, e: nat, room: nat) {
    && !i.LdLen?
    && (i.LdAbs? || i.LdInd? || i.LdxMsh? ==> i.k + e < TWO32)
    && (i.JmpEq? || i.JmpGe? ==> i.jt <= room && i.jf <= room)
  }

  /**
   * Simulation.  Between pc and cut, `moved` is `prog` relocated by e bytes and shifted by d
   * instructions.  If the two programs agree from cut on, they agree from pc on: `prog` on the
   * packet alone and `moved` on the packet behind its header.
   */
  lemma {:induction false} RelocationSimulates(
    prog: seq<Insn>, moved: seq<Insn>, e: nat, d: nat, pc: nat, cut: nat, f: seq<byte>, a: u32, x: u32)
    requires pc <= cut <= |prog| && cut + d <= |moved|
    requires e <= |f|
    requires forall i {:trigger prog[i]} :: pc <= i < cut ==>
      Movable(prog[i], e, cut - i - 1) && moved[i + d] == Relocate(prog[i], e)
    requires forall a': u32, x': u32 :: Run(moved, f, cut + d, a', x') == Run(prog, f[e..], cut, a', x')
    ensures Run(moved, f, pc + d, a, x) == Run(prog, f[e..], pc, a, x)
    decreases cut - pc
  {
    if pc < cut {
      assert Movable(prog[pc], e, cut - pc - 1);
      match Exec(prog[pc], f[e..], pc, a, x) {
        case Return(_) =>
        case Goto(pc', a', x') =>
          assert Exec(moved[pc + d], f, pc + d, a, x) == Goto(pc' + d, a', x');
          RelocationSimulates(prog, moved, e, d, pc', cut, f, a', x');
      }
    }
  }
}
