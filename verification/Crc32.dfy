/** The CRC of services/ptable_parse/ptable.cpp, most significant bit first with reflected input
    and output, and the CRC-32 of section 8 of RFC 1952, least significant bit first with a
    table: they are the same function. Registers are numbers below 2^32. */
module Crc32 {
  import opened Bits
  import opened Device

  // ---------------------------------------------------------------- section 8 of RFC 1952

  const REFLECTED_POLYNOMIAL: nat := 0xEDB88320

  /** One turn of the loop that fills the table. */
  function CrcBit(c: nat): nat {
    if c % 2 == 1 then Xor(REFLECTED_POLYNOMIAL, c / 2) else c / 2
  }

  function CrcBits(c: nat, n: nat): nat
    decreases n, c
  {
    if n == 0 then c else CrcBits(CrcBit(c), n - 1)
  }

  function TableEntry(n: nat): nat {
    CrcBits(n, 8)
  }

  function UpdateByte(c: nat, b: byte): nat {
    Xor(TableEntry(Xor(c, b) % 256), c / 256)
  }

  function Update(c: nat, data: seq<byte>): nat {
    if data == [] then c else UpdateByte(Update(c, data[..|data| - 1]), data[|data| - 1])
  }

  function Crc(data: seq<byte>): nat {
    Xor(Update(0xffff_ffff, data), 0xffff_ffff)
  }

  // ---------------------------------------------------------------- reflection

  /** The lowest `n` bits of `x` in reverse order. */
  function Mirror(x: nat, n: nat): nat
    decreases n, x
  {
    if n == 0 then 0 else Shl(x % 2, n - 1) + Mirror(x / 2, n - 1)
  }

  lemma {:induction false} MirrorBelow(x: nat, n: nat)
    ensures Mirror(x, n) < Pow2(n)
    decreases n
  {
    if 0 < n {
      MirrorBelow(x / 2, n - 1);
      TopBit(x % 2, n - 1);
    }
  }

  /** Ptable::Reflect. */
  method Reflect(data: nat, len: nat) returns (ref: nat)
    requires len <= 32
    ensures ref == Mirror(data, len)
  {
    var d := data;
    ref := 0;
    ghost var high := 0;
    TopBit(0, len);
    for i := 0 to len
      invariant ref == Shl(high, len - i)
      invariant ref + Mirror(d, len - i) == Mirror(data, len)
    {
      OrBelow(high, len - 1 - i);
      TopBit(d % 2, len - 1 - i);
      high := 2 * high + d % 2;
      if d % 2 == 1 {
        ref := Or(ref, Pow2((len - 1) - i));
      }
      d := d / 2;
    }
  }

  /** Peeling the top bit instead of the lowest. */
  lemma {:induction false} MirrorTop(x: nat, t: nat, n: nat)
    requires x < Pow2(n) && t <= 1
    ensures Mirror(x + Shl(t, n), n + 1) == 2 * Mirror(x, n) + t
    decreases n
  {
    if 0 < n {
      MirrorTop(x / 2, t, n - 1);
      assert (x + Shl(t, n)) / 2 == x / 2 + Shl(t, n - 1);
    }
  }

  lemma {:induction false} MirrorXor(x: nat, y: nat, n: nat)
    ensures Mirror(Xor(x, y), n) == Xor(Mirror(x, n), Mirror(y, n))
    decreases n
  {
    if 0 < n {
      MirrorXor(x / 2, y / 2, n - 1);
      XorBits(x, y);
      MirrorXorStep(x, y, Xor(x, y), n);
    }
  }

  lemma MirrorXorStep(x: nat, y: nat, z: nat, n: nat)
    requires 0 < n && z % 2 == Xor(x % 2, y % 2)
    requires Mirror(z / 2, n - 1) == Xor(Mirror(x / 2, n - 1), Mirror(y / 2, n - 1))
    ensures Mirror(z, n) == Xor(Mirror(x, n), Mirror(y, n))
  {
    hide Xor, Shl;
    MirrorBelow(x / 2, n - 1);
    MirrorBelow(y / 2, n - 1);
    XorSplit(x % 2, y % 2, Mirror(x / 2, n - 1), Mirror(y / 2, n - 1), n - 1);
  }

  lemma {:induction false} XorBits(x: nat, y: nat)
    ensures Xor(x, y) % 2 == Xor(x % 2, y % 2) && Xor(x, y) / 2 == Xor(x / 2, y / 2)
  {
    XorHalf(x, y);
  }

  lemma {:induction false} TopBit(t: nat, n: nat)
    requires t <= 1
    ensures Shl(t, n) == if t == 1 then Pow2(n) else 0
  {
    if 0 < n {
      TopBit(t, n - 1);
    }
  }

  /** The same, with the bits read so far at hand. */
  function MirrorOnto(x: nat, done: nat, n: nat): nat
    decreases n, x, done
  {
    if n == 0 then done else MirrorOnto(x / 2, 2 * done + x % 2, n - 1)
  }

  lemma {:induction false} MirrorOntoIs(x: nat, done: nat, n: nat)
    ensures MirrorOnto(x, done, n) == Shl(done, n) + Mirror(x, n)
    decreases n
  {
    if 0 < n {
      MirrorOntoIs(x / 2, 2 * done + x % 2, n - 1);
      OrBelow(done, n - 1);
      ShlAdd(2 * done, x % 2, n - 1);
    }
  }

  lemma FourBits(x: nat, done: nat, n: nat)
    requires 4 <= n
    ensures var d := 8 * (x % 2) + 4 * (x / 2 % 2) + 2 * (x / 4 % 2) + x / 8 % 2;
            MirrorOnto(x, done, n) == MirrorOnto(x / 16, 16 * done + d, n - 4)
  {
    assert MirrorOnto(x, done, n) == MirrorOnto(x / 4, 4 * done + 2 * (x % 2) + x / 2 % 2, n - 2);
  }

  lemma PolynomialMirrored()
    ensures Mirror(POLYNOMIAL_LOW, 32) == REFLECTED_POLYNOMIAL
  {
    hide Mirror, Shl, Pow2;
    PolynomialOnto(0);
    TopBit(0, 32);
  }

  lemma PolynomialOnto(done: nat)
    ensures Shl(done, 32) + Mirror(POLYNOMIAL_LOW, 32) == U32 * done + REFLECTED_POLYNOMIAL
  {
    hide MirrorOnto, Mirror, Shl;
    MirrorOntoIs(POLYNOMIAL_LOW, done, 32);
    FirstHalf(done);
    ThirdByte(0x1_0000 * done + 0xEDB8);
    LastByte(0x100_0000 * done + 0xEDB883);
  }

  lemma FirstHalf(done: nat)
    ensures MirrorOnto(POLYNOMIAL_LOW, done, 32) == MirrorOnto(0x04C1, 0x1_0000 * done + 0xEDB8, 16)
  {
    hide MirrorOnto;
    FourBits(0x04C11DB7, done, 32);
    FourBits(0x04C11DB, 0x10 * done + 0xE, 28);
    FourBits(0x04C11D, 0x100 * done + 0xED, 24);
    FourBits(0x04C11, 0x1000 * done + 0xEDB, 20);
  }

  lemma ThirdByte(done: nat)
    ensures MirrorOnto(0x04C1, done, 16) == MirrorOnto(0x04, 0x100 * done + 0x83, 8)
  {
    hide MirrorOnto;
    FourBits(0x04C1, done, 16);
    FourBits(0x04C, 0x10 * done + 0x8, 12);
  }

  lemma LastByte(done: nat)
    ensures MirrorOnto(0x04, done, 8) == 0x100 * done + 0x20
  {
    FourBits(0x04, done, 8);
    FourBits(0x0, 0x10 * done + 0x2, 4);
  }

  lemma {:induction false} OnesMirrored(n: nat)
    ensures Mirror(Pow2(n) - 1, n) == Pow2(n) - 1
  {
    if 0 < n {
      OnesMirrored(n - 1);
      TopBit(1, n - 1);
    }
  }

  lemma Power7()
    ensures Pow2(7) == 128 && Pow2(8) == 256
  {
  }

  lemma Power31()
    ensures Pow2(31) == 0x8000_0000 && Pow2(32) == U32
  {
    Power7();
    assert Pow2(15) == 256 * 128;
    assert Pow2(23) == 256 * 256 * 128;
  }

  // ---------------------------------------------------------------- the two registers, side by side

  /** The 33 bits of the polynomial, and the 32 that survive the truncation to uint32_t. */
  const POLYNOMIAL: nat := 0x1_04C1_1DB7
  const POLYNOMIAL_LOW: nat := 0x04C1_1DB7

  /** Shifting the mirrored register by one data bit. */
  function StepMirrored(c: nat, bit: nat): nat {
    if c % 2 != bit then Xor(REFLECTED_POLYNOMIAL, c / 2) else c / 2
  }

  /** One turn of the inner loop on the register that holds the most significant bit first. */
  lemma StepMirrors(regs: nat, bit: nat)
    requires regs < U32 && bit <= 1
    ensures var shifted := 2 * regs % U32;
            var next := if regs / 0x8000_0000 % 2 != bit then Xor(shifted, POLYNOMIAL) % U32 else shifted;
            next < U32 && Mirror(next, 32) == StepMirrored(Mirror(regs, 32), bit)
  {
    hide Mirror, Xor, Pow2;
    var t, y := regs / 0x8000_0000, regs % 0x8000_0000;
    var shifted := 2 * regs % U32;
    assert shifted == 2 * y;
    Power31();
    RegisterParts(y, t, regs, 31);
    if t != bit {
      Truncated(shifted);
      PolynomialCombined(shifted);
    }
  }

  lemma RegisterParts(y: nat, t: nat, x: nat, n: nat)
    requires y < Pow2(n) && t <= 1 && x == (if t == 1 then Pow2(n) else 0) + y
    ensures Mirror(x, n + 1) % 2 == t && Mirror(x, n + 1) / 2 == Mirror(2 * y, n + 1)
  {
    TopBit(t, n);
    MirrorTop(y, t, n);
    assert 2 * y / 2 == y && 2 * y % 2 == 0;
    TopBit(0, n);
  }

  lemma PolynomialCombined(shifted: nat)
    ensures Mirror(Xor(shifted, POLYNOMIAL_LOW), 32) == Xor(REFLECTED_POLYNOMIAL, Mirror(shifted, 32))
  {
    hide Mirror, Xor;
    MirrorXor(shifted, POLYNOMIAL_LOW, 32);
    PolynomialMirrored();
    XorComm(Mirror(shifted, 32), REFLECTED_POLYNOMIAL);
  }

  /** The 33rd bit of the polynomial is lost when the result is stored in 32 bits. */
  lemma Truncated(r: nat)
    requires r < U32
    ensures Xor(r, POLYNOMIAL) % U32 == Xor(r, POLYNOMIAL_LOW) < U32
  {
    Power31();
    TopBit(0, 32);
    TopBit(1, 32);
    XorSplit(0, 1, r, POLYNOMIAL_LOW, 32);
  }

  /** A data bit shifted in is a data bit combined with the register beforehand. */
  lemma BitCombined(c: nat, rest: nat)
    ensures Xor(StepMirrored(c, rest % 2), rest / 2) == CrcBit(Xor(c, rest))
  {
    XorHalf(c, rest);
    XorAssoc(REFLECTED_POLYNOMIAL, c / 2, rest / 2);
  }

  /** The bits the loop takes from the top of the reflected byte are those of the byte from its
      lowest one up: `d` is the reflected byte shifted j times, `rest` the byte shifted down. */
  lemma DataBit(d: nat, rest: nat, j: nat)
    requires j < 8 && d % 256 == Shl(Mirror(rest, 8 - j), j)
    ensures d / 128 % 2 == rest % 2
    ensures 2 * d % U32 % 256 == Shl(Mirror(rest / 2, 7 - j), j + 1)
  {
    hide Pow2;
    MirrorBelow(rest / 2, 7 - j);
    BitOnTop(Mirror(rest / 2, 7 - j), rest % 2, j);
    TopOfByte(d, rest % 2, Shl(Mirror(rest / 2, 7 - j), j));
  }

  lemma BitOnTop(low: nat, bit: nat, j: nat)
    requires j < 8 && bit <= 1 && low < Pow2(7 - j)
    ensures Shl(Shl(bit, 7 - j) + low, j) == 128 * bit + Shl(low, j) && Shl(low, j) < 128
  {
    hide Shl, Pow2;
    ShlAdd(Shl(bit, 7 - j), low, j);
    ShlTwice(bit, 7 - j, j);
    ShlBelow(low, 7 - j, j);
    Power7();
    TopBit(bit, 7);
  }

  lemma TopOfByte(d: nat, bit: nat, low: nat)
    requires d % 256 == 128 * bit + low && bit <= 1 && low < 128
    ensures d / 128 % 2 == bit && 2 * d % U32 % 256 == 2 * low
  {
    var q := d / 256;
    assert d == 256 * q + 128 * bit + low;
    assert d / 128 == 2 * q + bit;
    var e := 2 * d;
    assert e % U32 == 256 * (2 * q + bit - 0x100_0000 * (e / U32)) + 2 * low;
  }

  lemma {:induction false} ShlAdd(x: nat, y: nat, k: nat)
    ensures Shl(x + y, k) == Shl(x, k) + Shl(y, k)
  {
    if 0 < k {
      ShlAdd(x, y, k - 1);
    }
  }

  lemma {:induction false} ShlTwice(x: nat, j: nat, k: nat)
    ensures Shl(Shl(x, j), k) == Shl(x, j + k)
  {
    if 0 < k {
      ShlTwice(x, j, k - 1);
    }
  }

  lemma {:induction false} ShlBelow(x: nat, j: nat, k: nat)
    requires x < Pow2(j)
    ensures Shl(x, k) < Pow2(j + k)
  {
    if 0 < k {
      ShlBelow(x, j, k - 1);
    }
  }

  // ---------------------------------------------------------------- bit by bit is table driven

  /** Bits above the ones shifted out only move down. */
  lemma {:induction false} HighBitsWait(low: nat, high: nat, n: nat)
    ensures CrcBits(Xor(low, Shl(high, n)), n) == Xor(CrcBits(low, n), high)
    decreases n
  {
    if 0 < n {
      XorHalf(low, Shl(high, n));
      XorAssoc(REFLECTED_POLYNOMIAL, low / 2, Shl(high, n - 1));
      assert CrcBit(Xor(low, Shl(high, n))) == Xor(CrcBit(low), Shl(high, n - 1));
      HighBitsWait(CrcBit(low), high, n - 1);
    }
  }

  lemma ByteByTable(c: nat, b: byte)
    ensures CrcBits(Xor(c, b), 8) == UpdateByte(c, b)
  {
    hide CrcBits, Xor, Shl;
    LowByte(c, b);
    HighBitsWait(Xor(c, b) % 256, c / 256, 8);
  }

  /** A byte combined with the register changes its lowest byte alone. */
  lemma LowByte(c: nat, b: byte)
    ensures Xor(c, b) == Xor(Xor(c, b) % 256, Shl(c / 256, 8))
  {
    hide Xor, Shl;
    Power7();
    Shl8(c / 256);
    LowBits(c / 256, c % 256, b, 8);
    Remainder(c / 256, Xor(c % 256, b), Xor(c, b));
  }

  lemma Remainder(h: nat, l: nat, x: nat)
    requires x == 256 * h + l && l < 256
    ensures x % 256 == l
  {
  }

  lemma LowBits(h: nat, l: nat, b: nat, n: nat)
    requires l < Pow2(n) && b < Pow2(n)
    ensures Xor(Shl(h, n) + l, b) == Shl(h, n) + Xor(l, b) == Xor(Xor(l, b), Shl(h, n))
    ensures Xor(l, b) < Pow2(n)
  {
    TopBit(0, n);
    XorSplit(h, 0, l, b, n);
    XorSplit(0, h, Xor(l, b), 0, n);
  }

  lemma Shl8(h: nat)
    ensures Shl(h, 8) == 256 * h
  {
    assert Shl(h, 1) == 2 * h;
    assert Shl(h, 2) == 4 * h;
    assert Shl(h, 3) == 8 * h;
    assert Shl(h, 4) == 16 * h;
    assert Shl(h, 5) == 32 * h;
    assert Shl(h, 6) == 64 * h;
    assert Shl(h, 7) == 128 * h;
  }

  // ---------------------------------------------------------------- Ptable::CalculateCrc32

  /** One byte of the outer loop. */
  method UpdateRegister(r: nat, b: byte) returns (regs: nat)
    requires r < U32
    ensures regs < U32 && Mirror(regs, 32) == UpdateByte(Mirror(r, 32), b)
  {
    hide Mirror, Shl, UpdateByte, CrcBit, StepMirrored;
    regs := r;
    var dataByte: nat := Reflect(b, 8);
    ghost var rest: nat := b;
    ghost var whole := CrcBits(Xor(Mirror(r, 32), b), 8);
    Start(b, dataByte);
    for j := 0 to 8
      invariant regs < U32
      invariant dataByte % 256 == Shl(Mirror(rest, 8 - j), j)
      invariant rest < Pow2(8 - j)
      invariant CrcBits(Xor(Mirror(regs, 32), rest), 8 - j) == whole
    {
      DataBit(dataByte, rest, j);
      BitCombined(Mirror(regs, 32), rest);
      StepMirrors(regs, rest % 2);
      var msb := dataByte / 128 % 2;
      var regsMsb := regs / 0x8000_0000 % 2;
      regs := 2 * regs % U32;
      if regsMsb != msb {
        regs := Xor(regs, POLYNOMIAL) % U32;
      }
      dataByte := 2 * dataByte % U32;
      rest := rest / 2;
    }
    ByteByTable(Mirror(r, 32), b);
  }

  lemma Start(b: byte, d: nat)
    requires d == Mirror(b, 8)
    ensures d % 256 == Shl(Mirror(b, 8), 0) && b < Pow2(8)
  {
    Power7();
    MirrorBelow(b, 8);
  }

  /** Ptable::CalculateCrc32 computes the CRC-32 of section 8 of RFC 1952. */
  method CalculateCrc32(buffer: seq<byte>) returns (ret: nat)
    ensures ret == Crc(buffer) < U32
  {
    hide Mirror, Xor, Pow2, UpdateByte;
    EmptyCrc();
    if |buffer| == 0 {
      return 0;
    }
    var regs: nat := 0xffff_ffff;
    Ones();
    for i := 0 to |buffer|
      invariant regs < U32 && Mirror(regs, 32) == Update(0xffff_ffff, buffer[..i])
    {
      assert buffer[..i + 1][..i] == buffer[..i];
      regs := UpdateRegister(regs, buffer[i]);
    }
    assert buffer[..|buffer|] == buffer;
    var ref := Reflect(regs, 32);
    MirrorBelow(regs, 32);
    ret := Xor(ref, 0xffff_ffff);
    Below(ref);
  }

  lemma Ones()
    ensures Mirror(0xffff_ffff, 32) == 0xffff_ffff
  {
    Power31();
    OnesMirrored(32);
  }

  lemma Below(r: nat)
    requires r < Pow2(32)
    ensures Xor(r, 0xffff_ffff) < U32
  {
    Power31();
    XorSplit(0, 0, r, 0xffff_ffff, 32);
  }

  lemma {:induction false} XorSelf(x: nat)
    ensures Xor(x, x) == 0
  {
    if 0 < x {
      XorSelf(x / 2);
    }
  }

  lemma EmptyCrc()
    ensures Crc([]) == 0
  {
    XorSelf(0xffff_ffff);
  }

  lemma CrcBelow(data: seq<byte>)
    ensures Crc(data) < U32
  {
    UpdateBelow(data);
    Below(Update(0xffff_ffff, data));
  }

  lemma {:induction false} UpdateBelow(data: seq<byte>)
    ensures Update(0xffff_ffff, data) < Pow2(32)
  {
    Power31();
    if data != [] {
      var c := Update(0xffff_ffff, data[..|data| - 1]);
      var b := data[|data| - 1];
      UpdateBelow(data[..|data| - 1]);
      XorSplit(0, 0, c, b, 32);
      TopBit(0, 32);
      ByteByTable(c, b);
      BitsBelow(Xor(c, b), 8);
    }
  }

  lemma {:induction false} BitsBelow(c: nat, n: nat)
    requires c < Pow2(32)
    ensures CrcBits(c, n) < Pow2(32)
    decreases n
  {
    if 0 < n {
      Power31();
      TopBit(0, 32);
      XorSplit(0, 0, REFLECTED_POLYNOMIAL, c / 2, 32);
      BitsBelow(CrcBit(c), n - 1);
    }
  }
}
