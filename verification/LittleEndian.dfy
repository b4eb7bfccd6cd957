/** The byte codecs of services/ptable_parse/ptable.h: unsigned numbers laid out least significant
    byte first. */
module LittleEndian {
  import opened Bits
  import opened Device

  const U64: nat := 0x1_0000_0000_0000_0000

  /** 256^n */
  function Base(n: nat): (b: nat)
    ensures 0 < b
  {
    if n == 0 then 1 else 256 * Base(n - 1)
  }

  /** The lowest `n` bytes of `y`. */
  function Bytes(y: nat, n: nat): (s: seq<byte>)
    ensures |s| == n
    decreases n, y
  {
    if n == 0 then [] else [y % 256] + Bytes(y / 256, n - 1)
  }

  function Number(s: seq<byte>): nat {
    if s == [] then 0 else s[0] + 256 * Number(s[1..])
  }

  function Get(s: seq<byte>, at: nat, n: nat): nat
    requires at + n <= |s|
  {
    Number(s[at..at + n])
  }

  function Put(s: seq<byte>, at: nat, y: nat, n: nat): (r: seq<byte>)
    requires at + n <= |s|
    ensures |r| == |s|
  {
    s[..at] + Bytes(y, n) + s[at + n..]
  }

  // ---------------------------------------------------------------- round trips

  lemma {:induction false} NumberOfBytes(y: nat, n: nat)
    ensures Number(Bytes(y, n)) == y % Base(n)
    decreases n
  {
    if n == 0 {
      assert y % 1 == 0;
    } else {
      NumberOfBytes(y / 256, n - 1);
      assert Bytes(y, n)[1..] == Bytes(y / 256, n - 1);
      LowestByte(y, Base(n - 1));
    }
  }

  lemma LowestByte(y: nat, b: nat)
    requires 0 < b
    ensures y % (256 * b) == y % 256 + 256 * ((y / 256) % b)
  {
    var q, r := (y / 256) / b, (y / 256) % b;
    assert y / 256 == b * q + r;
    assert (256 * b) * q == 256 * (b * q);
    ModUnique(y, 256 * b, q, 256 * r + y % 256);
  }

  lemma {:induction false} NumberBelow(s: seq<byte>)
    ensures Number(s) < Base(|s|)
  {
    if s != [] {
      NumberBelow(s[1..]);
    }
  }

  lemma {:induction false} BytesOfNumber(s: seq<byte>)
    ensures Bytes(Number(s), |s|) == s
  {
    if s != [] {
      hide Number;
      BytesOfNumber(s[1..]);
      NumberParts(s);
      assert s == [s[0]] + s[1..];
    }
  }

  lemma NumberParts(s: seq<byte>)
    requires s != []
    ensures Number(s) % 256 == s[0] && Number(s) / 256 == Number(s[1..])
  {
  }

  lemma GetPut(s: seq<byte>, at: nat, y: nat, n: nat)
    requires at + n <= |s| && y < Base(n)
    ensures Get(Put(s, at, y, n), at, n) == y
  {
    assert Put(s, at, y, n)[at..at + n] == Bytes(y, n);
    NumberOfBytes(y, n);
    ModUnique(y, Base(n), 0, y);
  }

  lemma GetElsewhere(s: seq<byte>, at: nat, y: nat, n: nat, other: nat, m: nat)
    requires at + n <= |s| && other + m <= |s| && (other + m <= at || at + n <= other)
    ensures Get(Put(s, at, y, n), other, m) == Get(s, other, m)
  {
    SliceElsewhere(s, at, y, n, other, m);
  }

  lemma SliceElsewhere(s: seq<byte>, at: nat, y: nat, n: nat, other: nat, m: nat)
    requires at + n <= |s| && other + m <= |s| && (other + m <= at || at + n <= other)
    ensures Put(s, at, y, n)[other..other + m] == s[other..other + m]
  {
    hide Bytes;
  }

  lemma PutGet(s: seq<byte>, at: nat, n: nat)
    requires at + n <= |s|
    ensures Put(s, at, Get(s, at, n), n) == s
  {
    hide Number, Bytes;
    BytesOfNumber(s[at..at + n]);
    assert s == s[..at] + s[at..at + n] + s[at + n..];
  }

  lemma Widths()
    ensures Base(1) == 256 && Base(4) == U32 && Base(8) == U64
  {
    assert Base(2) == 0x1_0000;
    assert Base(4) == U32;
    assert Base(6) == 0x1_0000 * U32;
  }

  // ---------------------------------------------------------------- PUT_LONG, PUT_LONG_LONG

  lemma LowBits(z: nat)
    ensures And(z, 0xff) == z % 256
  {
    assert Pow2(8) == 256;
    MaskIsMod(z, 8);
  }

  lemma FourBytes(y: nat)
    ensures Bytes(y, 4) == [y % 256, y / 0x100 % 256, y / 0x1_0000 % 256, y / 0x100_0000 % 256]
  {
    var z := y / 256;
    assert Bytes(z / 256, 2) == [z / 256 % 256, z / 256 / 256 % 256] by {
      assert Bytes(z / 256 / 256, 1) == [z / 256 / 256 % 256] + Bytes(z / 256 / 256 / 256, 0);
    }
    assert Bytes(y, 4) == [y % 256] + ([z % 256] + Bytes(z / 256, 2));
    assert z / 256 == y / 0x1_0000 && z / 256 / 256 == y / 0x100_0000;
  }

  /** `y` without its lowest `m` bytes. */
  function Above(y: nat, m: nat): nat
    decreases m, y
  {
    if m == 0 then y else Above(y / 256, m - 1)
  }

  lemma {:induction false} BytesSplit(y: nat, m: nat, n: nat)
    ensures Bytes(y, m + n) == Bytes(y, m) + Bytes(Above(y, m), n)
    decreases m
  {
    if 0 < m {
      BytesSplit(y / 256, m - 1, n);
    }
  }

  method PutLong(x: array<byte>, at: nat, y: nat)
    requires at + 4 <= x.Length
    modifies x
    ensures x[..] == Put(old(x[..]), at, y, 4)
  {
    hide And, Bytes;
    FourBytes(y);
    LowBits(y);
    LowBits(y / 0x100);
    LowBits(y / 0x1_0000);
    LowBits(y / 0x100_0000);
    x[at] := And(y, 0xff);
    x[at + 1] := And(y / 0x100, 0xff);
    x[at + 2] := And(y / 0x1_0000, 0xff);
    x[at + 3] := And(y / 0x100_0000, 0xff);
  }

  lemma EightBytes(y: nat)
    ensures Bytes(y, 8) == Bytes(y, 4) + Bytes(y / U32, 4)
  {
    hide Bytes;
    BytesSplit(y, 4, 4);
    FourDown(y);
  }

  lemma FourDown(y: nat)
    ensures Above(y, 4) == y / U32
  {
    var a := y / 256;
    var b := a / 256;
    var c := b / 256;
    assert Above(c, 1) == Above(c / 256, 0) == c / 256;
    assert Above(a, 3) == Above(b, 2) == Above(c, 1);
  }

  lemma HighHalf(y: nat)
    ensures y / 0x1_0000_0000 == y / U32
    ensures y / 0x100_0000_0000 == y / U32 / 0x100
    ensures y / 0x1_0000_0000_0000 == y / U32 / 0x1_0000
    ensures y / 0x100_0000_0000_0000 == y / U32 / 0x100_0000
  {
  }

  method PutLongLong(x: array<byte>, at: nat, y: nat)
    requires at + 8 <= x.Length
    modifies x
    ensures x[..] == Put(old(x[..]), at, y, 8)
  {
    hide And, Bytes;
    EightBytes(y);
    FourBytes(y);
    FourBytes(y / U32);
    HighHalf(y);
    LowBits(y);
    LowBits(y / 0x100);
    LowBits(y / 0x1_0000);
    LowBits(y / 0x100_0000);
    LowBits(y / 0x1_0000_0000);
    LowBits(y / 0x100_0000_0000);
    LowBits(y / 0x1_0000_0000_0000);
    LowBits(y / 0x100_0000_0000_0000);
    x[at] := And(y, 0xff);
    x[at + 1] := And(y / 0x100, 0xff);
    x[at + 2] := And(y / 0x1_0000, 0xff);
    x[at + 3] := And(y / 0x100_0000, 0xff);
    x[at + 4] := And(y / 0x1_0000_0000, 0xff);
    x[at + 5] := And(y / 0x100_0000_0000, 0xff);
    x[at + 6] := And(y / 0x1_0000_0000_0000, 0xff);
    x[at + 7] := And(y / 0x100_0000_0000_0000, 0xff);
  }

  // ---------------------------------------------------------------- GET_LWORD_FROM_BYTE, GET_LLWORD_FROM_BYTE

  function GetLword(s: seq<byte>, at: nat): nat
    requires at + 4 <= |s|
  {
    Or(Or(Or(s[at], Shl(s[at + 1], 8)), Shl(s[at + 2], 16)), Shl(s[at + 3], 24))
  }

  function GetLlword(s: seq<byte>, at: nat): nat
    requires at + 8 <= |s|
  {
    Or(Or(Or(Or(GetLword(s, at), Shl(s[at + 4], 32)), Shl(s[at + 5], 40)), Shl(s[at + 6], 48)), Shl(s[at + 7], 56))
  }

  /** OR-ing in bits above all those already there adds them. */
  lemma {:induction false} OrAbove(x: nat, b: nat, k: nat)
    requires x < Pow2(k)
    ensures Or(x, Shl(b, k)) == x + Shl(b, k)
    decreases k
  {
    if 0 < k {
      OrAbove(x / 2, b, k - 1);
    }
  }

  lemma {:induction false} ShlMul(b: nat, k: nat)
    ensures Shl(b, k) == b * Pow2(k)
  {
    if 0 < k {
      ShlMul(b, k - 1);
      assert 2 * (b * Pow2(k - 1)) == b * (2 * Pow2(k - 1));
    }
  }

  lemma NextByte(x: nat, b: byte, k: nat, p: nat)
    requires x < p == Pow2(k)
    ensures Or(x, Shl(b, k)) == x + p * b < 256 * p
  {
    hide Or, Shl;
    OrAbove(x, b, k);
    ShlMul(b, k);
    AtMost(b, p);
  }

  lemma AtMost(b: byte, p: nat)
    ensures p * b <= 255 * p
  {
    assert p * 255 - p * b == p * (255 - b);
  }

  lemma PowersOf256()
    ensures Pow2(8) == 0x100 && Pow2(16) == 0x1_0000 && Pow2(24) == 0x100_0000 && Pow2(32) == U32
    ensures Pow2(40) == 0x100 * U32 && Pow2(48) == 0x1_0000 * U32 && Pow2(56) == 0x100_0000 * U32
  {
    PowerByte(0);
    PowerByte(8);
    PowerByte(16);
    PowerByte(24);
    PowerByte(32);
    PowerByte(40);
    PowerByte(48);
  }

  lemma PowerByte(k: nat)
    ensures Pow2(k + 8) == 256 * Pow2(k)
  {
    assert Pow2(k + 4) == 16 * Pow2(k) by {
      assert Pow2(k + 2) == 4 * Pow2(k);
    }
    assert Pow2(k + 6) == 4 * Pow2(k + 4);
  }

  lemma LwordIsNumber(s: seq<byte>, at: nat)
    requires at + 4 <= |s|
    ensures GetLword(s, at) == Get(s, at, 4) < U32
  {
    hide Or, Shl, Pow2, Number;
    PowersOf256();
    var x1: nat := (s[at] as nat) + 0x100 * (s[at + 1] as nat);
    var x2: nat := x1 + 0x1_0000 * (s[at + 2] as nat);
    NextByte(s[at], s[at + 1], 8, 0x100);
    NextByte(x1, s[at + 2], 16, 0x1_0000);
    NextByte(x2, s[at + 3], 24, 0x100_0000);
    FourNumber(s[at..at + 4]);
  }

  lemma FourNumber(s: seq<byte>)
    requires |s| == 4
    ensures Number(s) == (s[0] as nat) + 0x100 * (s[1] as nat) + 0x1_0000 * (s[2] as nat) + 0x100_0000 * (s[3] as nat)
  {
    assert s[1..][1..] == s[2..] && s[2..][1..] == s[3..] && s[3..][1..] == [];
    assert Number(s[2..]) == s[2] + 256 * Number(s[3..]);
  }

  lemma {:induction false} NumberSplit(s: seq<byte>, m: nat)
    requires m <= |s|
    ensures Number(s) == Number(s[..m]) + Base(m) * Number(s[m..])
    decreases m
  {
    if m == 0 {
      assert s[0..] == s;
    } else {
      hide Number;
      NumberSplit(s[1..], m - 1);
      NumberNext(s);
      NumberNext(s[..m]);
      assert s[1..][m - 1..] == s[m..] && s[1..][..m - 1] == s[..m][1..];
      Distribute(Number(s[..m][1..]), Base(m - 1), Number(s[m..]));
    }
  }

  lemma NumberNext(s: seq<byte>)
    requires s != []
    ensures Number(s) == (s[0] as nat) + 256 * Number(s[1..])
  {
  }

  lemma Distribute(low: nat, b: nat, high: nat)
    ensures 256 * (low + b * high) == 256 * low + (256 * b) * high
  {
    assert (256 * b) * high == 256 * (b * high);
  }

  lemma LlwordIsNumber(s: seq<byte>, at: nat)
    requires at + 8 <= |s|
    ensures GetLlword(s, at) == Get(s, at, 8) < U64
  {
    hide Or, Shl, Pow2, Number, Base;
    PowersOf256();
    LwordIsNumber(s, at);
    var x := GetLword(s, at);
    var x4 := x + U32 * s[at + 4];
    var x5 := x4 + 0x100 * U32 * s[at + 5];
    var x6 := x5 + 0x1_0000 * U32 * s[at + 6];
    NextByte(x, s[at + 4], 32, U32);
    NextByte(x4, s[at + 5], 40, 0x100 * U32);
    NextByte(x5, s[at + 6], 48, 0x1_0000 * U32);
    NextByte(x6, s[at + 7], 56, 0x100_0000 * U32);
    HalvesNumber(s[at..at + 8]);
    assert s[at..at + 8][..4] == s[at..at + 4];
  }

  lemma HalvesNumber(s: seq<byte>)
    requires |s| == 8
    ensures Number(s) == Number(s[..4])
      + U32 * s[4] + 0x100 * U32 * s[5] + 0x1_0000 * U32 * s[6] + 0x100_0000 * U32 * s[7]
  {
    hide Base, Number;
    Widths();
    NumberSplit(s, 4);
    FourNumber(s[4..]);
  }
}
