/**
 Page-table entries of the two architectures (kernel/src/arch/x86_64/arch.c and
 kernel/src/arch/aarch64/arch.c).  A 64-bit word is a number below 2^64 and a bit is named by its
 weight, so that masks and shifts are remainders and quotients by powers of two.
 */
module Pte {
  import opened Base

  const TWO_48: nat := 0x1_0000_0000_0000
  const TWO_52: nat := 0x10_0000_0000_0000
  const BIT_53: nat := 0x20_0000_0000_0000
  const BIT_54: nat := 0x40_0000_0000_0000
  const BIT_63: nat := 0x8000_0000_0000_0000

  /** The architecture-neutral flags of kernel/include/mm/vmm.h. */
  datatype Flags = Flags(present: bool, writable: bool, user: bool, cacheDisable: bool, noExecute: bool)

  datatype Arch = X86_64 | AArch64

  /** `w & bit` is not zero. */
  predicate Has(w: nat, bit: nat)
    requires bit > 0
  {
    w / bit % 2 == 1
  }

  /** `w | bit` when `on`, else `w`. */
  function Or(w: nat, bit: nat, on: bool): nat
    requires bit > 0
  {
    if on && !Has(w, bit) then w + bit else w
  }

  /** Physical addresses an entry can hold are below this. */
  function PhysLimit(a: Arch): nat { if a.X86_64? then TWO_52 else TWO_48 }

  /** The low half of an entry's bits on x86_64: present, writable, user, cache disable. */
  function X86Low(w: nat, f: Flags): nat {
    Or(Or(Or(Or(w, 1, f.present), 2, f.writable), 4, f.user), 16, f.cacheDisable)
  }

  function MakeX86(phys: Word, f: Flags): nat {
    Or(X86Low(phys / 4096 * 4096, f), BIT_63, f.noExecute)
  }

  function ArmFixed(w: nat, f: Flags): nat {
    Or(Or(Or(Or(w, 2, true), 1, f.present), 1024, true), 512, true)
  }

  /** The low half of a leaf on AArch64: page, valid, access, shareable, device, user, read-only. */
  function ArmLow(w: nat, f: Flags): nat {
    Or(Or(Or(Or(ArmFixed(w, f), 256, true), 4, f.cacheDisable), 64, f.user), 128, !f.writable)
  }

  function ArmLeaf(base: nat, f: Flags): nat {
    Or(Or(ArmLow(base, f), BIT_54, f.noExecute), BIT_53, f.noExecute)
  }

  function MakeArm(phys: Word, f: Flags, table: bool): nat {
    var base := phys % TWO_48 / 4096 * 4096;
    if table then base + 3 else ArmLeaf(base, f)
  }

  function GetPhys(a: Arch, w: Word): (p: nat)
    ensures p % 4096 == 0
  {
    w % PhysLimit(a) / 4096 * 4096
  }

  predicate Present(w: Word) { Has(w, 1) }

  function GetFlags(a: Arch, w: Word): Flags {
    if a.X86_64? then Flags(Has(w, 1), Has(w, 2), Has(w, 4), Has(w, 16), Has(w, BIT_63))
    else Flags(Has(w, 1), !Has(w, 128), Has(w, 64), Has(w, 4), Has(w, BIT_54))
  }

  // ---------------------------------------------------------------------------------------------
  // Bits of a word with twelve clear low bits

  function N(b: bool): nat { if b then 1 else 0 }

  lemma DivUnique(b: nat, q: nat, r: nat)
    requires r < b
    ensures (b * q + r) / b == q && (b * q + r) % b == r
  {
    var a: int := b * q + r;
    var d := a / b - q;
    assert b * d == b * (a / b) - b * q == r - a % b;
    assert d >= 1 ==> b * d >= b;
    assert d <= -1 ==> b * d <= b * -1;
  }

  lemma DivPlus(b: nat, k: nat, x: nat)
    requires b > 0
    ensures (b * k + x) / b == k + x / b
  {
    assert b * k + x == b * (k + x / b) + x % b;
    DivUnique(b, k + x / b, x % b);
  }

  /** Bits below 2^12 do not see what is above. */
  lemma HasLow(q: nat, low: nat, bit: nat, m: nat)
    requires bit > 0 && 2 * bit * m == 4096
    ensures Has(q * 4096 + low, bit) == Has(low, bit)
  {
    var k := m * q;
    calc {
      q * 4096;
      q * (2 * bit * m);
      bit * (2 * k);
    }
    DivPlus(bit, 2 * k, low);
  }

  /** Setting a clear bit below 2^12. */
  lemma OrLow(q: nat, low: nat, bit: nat, m: nat, on: bool)
    requires bit > 0 && 2 * bit * m == 4096 && !Has(low, bit)
    ensures Or(q * 4096 + low, bit, on) == q * 4096 + low + bit * N(on)
  {
    HasLow(q, low, bit, m);
  }

  lemma X86LowIsSum(q: nat, f: Flags)
    ensures X86Low(q * 4096, f) ==
            q * 4096 + (N(f.present) + 2 * N(f.writable) + 4 * N(f.user) + 16 * N(f.cacheDisable))
  {
    var l1 := N(f.present);
    var l2 := l1 + 2 * N(f.writable);
    var l3 := l2 + 4 * N(f.user);
    OrLow(q, 0, 1, 2048, f.present);
    OrLow(q, l1, 2, 1024, f.writable);
    OrLow(q, l2, 4, 512, f.user);
    OrLow(q, l3, 16, 128, f.cacheDisable);
  }

  lemma ArmFixedIsSum(q: nat, f: Flags)
    ensures ArmFixed(q * 4096, f) == q * 4096 + (1538 + N(f.present))
  {
    var l1 := 2 + N(f.present);
    OrLow(q, 0, 2, 1024, true);
    OrLow(q, 2, 1, 2048, f.present);
    OrLow(q, l1, 1024, 2, true);
    OrLow(q, l1 + 1024, 512, 4, true);
  }

  lemma ArmLowIsSum(q: nat, f: Flags)
    ensures ArmLow(q * 4096, f) ==
            q * 4096 + (1794 + N(f.present) + 4 * N(f.cacheDisable) + 64 * N(f.user) + 128 * N(!f.writable))
  {
    ArmFixedIsSum(q, f);
    var l1 := 1538 + N(f.present);
    OrLow(q, l1, 256, 8, true);
    var l2 := l1 + 256;
    OrLow(q, l2, 4, 512, f.cacheDisable);
    OrLow(q, l2 + 4 * N(f.cacheDisable), 64, 32, f.user);
    OrLow(q, l2 + 4 * N(f.cacheDisable) + 64 * N(f.user), 128, 16, !f.writable);
  }

  /** A word cut into bits 0-11, 12-51 and 52-63. */
  function Fields(low: nat, mid: nat, top: nat): nat { low + 4096 * mid + TWO_52 * top }

  ghost predicate InRange(low: nat, mid: nat, top: nat) {
    low < 4096 && mid < 0x100_0000_0000 && top < 4096
  }

  lemma CutWord(w: Word)
    ensures InRange(w % 4096, w / 4096 % 0x100_0000_0000, w / TWO_52)
    ensures w == Fields(w % 4096, w / 4096 % 0x100_0000_0000, w / TWO_52)
  {
  }

  lemma FieldsBack(low: nat, mid: nat, top: nat)
    requires InRange(low, mid, top)
    ensures Fields(low, mid, top) < TWO_64
    ensures Fields(low, mid, top) % TWO_52 == low + 4096 * mid
    ensures Fields(low, mid, top) % TWO_48 == low + 4096 * (mid % 0x10_0000_0000)
  {
    DivUnique(TWO_52, top, low + 4096 * mid);
    var r := low + 4096 * (mid % 0x10_0000_0000);
    var q := mid / 0x10_0000_0000 + 16 * top;
    assert Fields(low, mid, top) == TWO_48 * q + r;
    DivUnique(TWO_48, q, r);
  }

  lemma LowField(low: nat, mid: nat, top: nat, bit: nat, m: nat)
    requires InRange(low, mid, top) && bit > 0 && 2 * bit * m == 4096
    ensures Has(Fields(low, mid, top), bit) == Has(low, bit)
  {
    HasLow(mid + 0x100_0000_0000 * top, low, bit, m);
  }

  lemma TopField(low: nat, mid: nat, top: nat, bit: nat)
    requires InRange(low, mid, top) && bit > 0
    ensures Has(Fields(low, mid, top), TWO_52 * bit) == Has(top, bit)
  {
    var r := low + 4096 * mid;
    var a := Fields(low, mid, top);
    DivUnique(TWO_52, top, r);
    var q, rem := top / bit, top % bit;
    assert a == (TWO_52 * bit) * q + (TWO_52 * rem + r);
    assert TWO_52 * rem + r < TWO_52 * bit;
    DivUnique(TWO_52 * bit, q, TWO_52 * rem + r);
  }

  /** What the two decoders see in a word given by its fields. */
  lemma FrameOfFields(low: nat, mid: nat, top: nat)
    requires InRange(low, mid, top)
    ensures Fields(low, mid, top) < TWO_64
    ensures Present(Fields(low, mid, top)) == Has(low, 1)
    ensures GetPhys(X86_64, Fields(low, mid, top)) == 4096 * mid
    ensures GetPhys(AArch64, Fields(low, mid, top)) == 4096 * (mid % 0x10_0000_0000)
  {
    FieldsBack(low, mid, top);
    LowField(low, mid, top, 1, 2048);
    DivUnique(4096, mid, low);
    DivUnique(4096, mid % 0x10_0000_0000, low);
  }

  lemma FlagsOfFields(low: nat, mid: nat, top: nat)
    requires InRange(low, mid, top)
    ensures Fields(low, mid, top) < TWO_64
    ensures GetFlags(X86_64, Fields(low, mid, top))
         == Flags(Has(low, 1), Has(low, 2), Has(low, 4), Has(low, 16), Has(top, 2048))
    ensures GetFlags(AArch64, Fields(low, mid, top))
         == Flags(Has(low, 1), !Has(low, 128), Has(low, 64), Has(low, 4), Has(top, 4))
  {
    FieldsBack(low, mid, top);
    LowField(low, mid, top, 1, 2048);
    LowField(low, mid, top, 2, 1024);
    LowField(low, mid, top, 4, 512);
    LowField(low, mid, top, 16, 128);
    LowField(low, mid, top, 64, 32);
    LowField(low, mid, top, 128, 16);
    TopField(low, mid, top, 2048);
    TopField(low, mid, top, 4);
  }

  // ---------------------------------------------------------------------------------------------
  // Round trips

  function X86Bits(f: Flags): nat {
    N(f.present) + 2 * N(f.writable) + 4 * N(f.user) + 16 * N(f.cacheDisable)
  }

  lemma X86High(low: nat, mid: nat, top: nat, nx: bool)
    requires InRange(low, mid, top)
    ensures Or(Fields(low, mid, top), BIT_63, nx) == Fields(low, mid, top + 2048 * N(nx && top < 2048))
  {
    TopField(low, mid, top, 2048);
  }

  lemma X86Fields(phys: Word, f: Flags)
    ensures var top := phys / TWO_52;
            MakeX86(phys, f) ==
            Fields(X86Bits(f), phys / 4096 % 0x100_0000_0000, top + 2048 * N(f.noExecute && top < 2048))
  {
    X86LowIsSum(phys / 4096, f);
    CutWord(phys);
    var mid, top := phys / 4096 % 0x100_0000_0000, phys / TWO_52;
    assert X86Low(phys / 4096 * 4096, f) == Fields(X86Bits(f), mid, top);
    X86High(X86Bits(f), mid, top, f.noExecute);
  }

  lemma X86BitsBack(f: Flags)
    ensures X86Bits(f) < 4096
    ensures Has(X86Bits(f), 1) == f.present && Has(X86Bits(f), 2) == f.writable
    ensures Has(X86Bits(f), 4) == f.user && Has(X86Bits(f), 16) == f.cacheDisable
  {
  }

  lemma X86FrameOf(w: nat, mid: nat, top: nat, f: Flags)
    requires mid < 0x100_0000_0000 && top < 4096
    requires w == Fields(X86Bits(f), mid, top + 2048 * N(f.noExecute && top < 2048))
    ensures w < TWO_64 && Present(w) == f.present && GetPhys(X86_64, w) == 4096 * mid
  {
    X86BitsBack(f);
    FrameOfFields(X86Bits(f), mid, top + 2048 * N(f.noExecute && top < 2048));
  }

  /** On x86_64 the frame comes back exactly when it is page aligned and below 2^52. */
  lemma X86Frame(phys: Word, f: Flags)
    ensures MakeX86(phys, f) < TWO_64 && Present(MakeX86(phys, f)) == f.present
    ensures GetPhys(X86_64, MakeX86(phys, f)) == phys <==> phys % 4096 == 0 && phys < TWO_52
  {
    X86Fields(phys, f);
    CutWord(phys);
    X86FrameOf(MakeX86(phys, f), phys / 4096 % 0x100_0000_0000, phys / TWO_52, f);
  }

  lemma X86TopBit(top: nat, nx: bool)
    requires top < 4096
    ensures var top' := top + 2048 * N(nx && top < 2048);
            top' < 4096 && Has(top', 2048) == (top >= 2048 || nx)
  {
  }

  lemma X86FlagsOf(w: nat, mid: nat, top: nat, f: Flags)
    requires mid < 0x100_0000_0000 && top < 4096
    requires w == Fields(X86Bits(f), mid, top + 2048 * N(f.noExecute && top < 2048))
    ensures w < TWO_64 && (GetFlags(X86_64, w) == f <==> top < 2048 || f.noExecute)
  {
    X86BitsBack(f);
    X86TopBit(top, f.noExecute);
    FlagsOfFields(X86Bits(f), mid, top + 2048 * N(f.noExecute && top < 2048));
  }

  /** On x86_64 the flags come back exactly when bit 63 of the frame is clear or asked for anyway. */
  lemma X86FlagsBack(phys: Word, f: Flags)
    ensures MakeX86(phys, f) < TWO_64
    ensures GetFlags(X86_64, MakeX86(phys, f)) == f <==> phys < BIT_63 || f.noExecute
  {
    X86Fields(phys, f);
    X86FlagsOf(MakeX86(phys, f), phys / 4096 % 0x100_0000_0000, phys / TWO_52, f);
  }

  function ArmBits(f: Flags): nat {
    1794 + N(f.present) + 4 * N(f.cacheDisable) + 64 * N(f.user) + 128 * N(!f.writable)
  }

  lemma ArmHigh(low: nat, mid: nat, nx: bool)
    requires InRange(low, mid, 0)
    ensures Or(Or(Fields(low, mid, 0), BIT_54, nx), BIT_53, nx) == Fields(low, mid, 6 * N(nx))
  {
    TopField(low, mid, 0, 4);
    TopField(low, mid, 4, 2);
  }

  lemma ArmLeafFields(mid: nat, f: Flags)
    requires mid < 0x10_0000_0000
    ensures ArmLeaf(mid * 4096, f) == Fields(ArmBits(f), mid, 6 * N(f.noExecute))
  {
    ArmLowIsSum(mid, f);
    ArmHigh(ArmBits(f), mid, f.noExecute);
    assert ArmLow(mid * 4096, f) == Fields(ArmBits(f), mid, 0);
  }

  lemma Masked48(phys: Word)
    ensures phys % TWO_48 / 4096 == phys / 4096 % 0x10_0000_0000
  {
    var q, r := phys / TWO_48, phys % TWO_48;
    assert phys == 4096 * (0x10_0000_0000 * q + r / 4096) + r % 4096;
    DivUnique(4096, 0x10_0000_0000 * q + r / 4096, r % 4096);
    DivUnique(0x10_0000_0000, q, r / 4096);
  }

  lemma ArmFields(phys: Word, f: Flags)
    ensures MakeArm(phys, f, false) == Fields(ArmBits(f), phys / 4096 % 0x10_0000_0000, 6 * N(f.noExecute))
  {
    Masked48(phys);
    ArmLeafFields(phys / 4096 % 0x10_0000_0000, f);
  }

  lemma ArmBitsBack(f: Flags)
    ensures ArmBits(f) < 4096
    ensures Has(ArmBits(f), 1) == f.present && Has(ArmBits(f), 128) == !f.writable
    ensures Has(ArmBits(f), 64) == f.user && Has(ArmBits(f), 4) == f.cacheDisable
  {
  }

  lemma ArmFieldsFrame(low: nat, mid: nat, top: nat)
    requires low < 4096 && mid < 0x10_0000_0000 && top < 4096
    ensures Fields(low, mid, top) < TWO_64 && Present(Fields(low, mid, top)) == Has(low, 1)
    ensures GetPhys(AArch64, Fields(low, mid, top)) == mid * 4096
  {
    FrameOfFields(low, mid, top);
    assert mid % 0x10_0000_0000 == mid;
  }

  lemma ArmLeafFrame(phys: Word, f: Flags)
    ensures MakeArm(phys, f, false) < TWO_64 && Present(MakeArm(phys, f, false)) == f.present
    ensures GetPhys(AArch64, MakeArm(phys, f, false)) == phys / 4096 % 0x10_0000_0000 * 4096
  {
    ArmFields(phys, f);
    ArmBitsBack(f);
    ArmFieldsFrame(ArmBits(f), phys / 4096 % 0x10_0000_0000, 6 * N(f.noExecute));
  }

  lemma ArmTableFrame(phys: Word, f: Flags)
    ensures MakeArm(phys, f, true) < TWO_64 && Present(MakeArm(phys, f, true))
    ensures GetPhys(AArch64, MakeArm(phys, f, true)) == phys / 4096 % 0x10_0000_0000 * 4096
  {
    Masked48(phys);
    FrameOfFields(3, phys / 4096 % 0x10_0000_0000, 0);
  }

  /** On AArch64 the frame comes back exactly when it is page aligned and below 2^48. */
  lemma ArmFrame(phys: Word, f: Flags, table: bool)
    ensures MakeArm(phys, f, table) < TWO_64
    ensures GetPhys(AArch64, MakeArm(phys, f, table)) == phys <==> phys % 4096 == 0 && phys < TWO_48
  {
    assert phys / 4096 % 0x10_0000_0000 * 4096 == phys <==> phys % 4096 == 0 && phys < TWO_48;
    if table { ArmTableFrame(phys, f); } else { ArmLeafFrame(phys, f); }
  }

  /** On AArch64 the flags of a leaf always come back. */
  lemma ArmFlagsBack(phys: Word, f: Flags)
    ensures MakeArm(phys, f, false) < TWO_64
    ensures GetFlags(AArch64, MakeArm(phys, f, false)) == f
  {
    ArmFields(phys, f);
    ArmBitsBack(f);
    FlagsOfFields(ArmBits(f), phys / 4096 % 0x10_0000_0000, 6 * N(f.noExecute));
  }

  // ---------------------------------------------------------------------------------------------
  // Either architecture

  function Make(a: Arch, phys: Word, f: Flags, table: bool): (w: nat)
    ensures w < TWO_64
  {
    X86Frame(phys, f);
    ArmFrame(phys, f, table);
    if a.X86_64? then MakeX86(phys, f) else MakeArm(phys, f, table)
  }

  /** What the page-table walker relies on. */
  lemma EntryBack(a: Arch, phys: nat, f: Flags, table: bool)
    requires phys % 4096 == 0 && phys < PhysLimit(a) && f.present
    ensures Present(Make(a, phys, f, table)) && GetPhys(a, Make(a, phys, f, table)) == phys
    ensures !table ==> GetFlags(a, Make(a, phys, f, table)) == f
  {
    if a.X86_64? {
      X86Frame(phys, f);
      X86FlagsBack(phys, f);
    } else {
      ArmFrame(phys, f, table);
      ArmFlagsBack(phys, f);
      if table { ArmTableFrame(phys, f); } else { ArmLeafFrame(phys, f); }
    }
  }

  lemma ZeroIsAbsent()
    ensures !Present(0)
  {
  }
}
