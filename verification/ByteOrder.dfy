/**
 Integers in machine-independent format, low byte first: the portable macros, the x86-64 forms that
 read and write whole machine words, and the byte-swapped key readers.

 A machine word at an address of little-endian memory is `Value` of its bytes; writing a word
 writes `Bytes` of it. Casts and shifts are written out with their width.
 */
module ByteOrder {
  import opened Bits
  import opened ByteStrings

  function Shl32(x: nat, n: nat): nat {
    Trunc(Shl(x, n), 32)
  }

  function Shl64(x: nat, n: nat): nat {
    Trunc(Shl(x, n), 64)
  }

  // ------------------------------------------------------------ portable loads

  function Uint2korr(p: seq<byte>): nat
    requires |p| >= 2
  {
    Trunc(Or(p[0], Shl32(p[1], 8)), 16)
  }

  function Uint3korr(p: seq<byte>): nat
    requires |p| >= 3
  {
    Trunc(Or(Or(p[0], Shl32(p[1], 8)), Shl32(p[2], 16)), 32)
  }

  function Uint4korr(p: seq<byte>): nat
    requires |p| >= 4
  {
    Trunc(Or(Or(Or(p[0], Shl32(p[1], 8)), Shl32(p[2], 16)), Shl32(p[3], 24)), 32)
  }

  function Uint5korr(p: seq<byte>): nat
    requires |p| >= 5
  {
    Or(Or(Or(Or(p[0], Shl32(p[1], 8)), Shl32(p[2], 16)), Shl32(p[3], 24)), Shl64(p[4], 32))
  }

  function Uint6korr(p: seq<byte>): nat
    requires |p| >= 6
  {
    Or(Or(Or(Or(Or(p[0], Shl32(p[1], 8)), Shl32(p[2], 16)), Shl32(p[3], 24)), Shl64(p[4], 32)), Shl64(p[5], 40))
  }

  function Uint8korr(p: seq<byte>): nat
    requires |p| >= 8
  {
    Or(Or(Or(Or(p[0], Shl32(p[1], 8)), Shl32(p[2], 16)), Shl32(p[3], 24)),
       Shl64(Or(Or(Or(p[4], Shl32(p[5], 8)), Shl32(p[6], 16)), Shl32(p[7], 24)), 32))
  }

  function Sint2korr(p: seq<byte>): int
    requires |p| >= 2
  {
    ToSigned(Trunc(Or(p[0], Shl32(p[1], 8)), 16), 16)
  }

  /** Sign-extends bit 23 by hand. */
  function Sint3korr(p: seq<byte>): int
    requires |p| >= 3
  {
    if And(p[2], 128) != 0
    then ToSigned(Or(Or(Or(Shl32(255, 24), Shl32(p[2], 16)), Shl32(p[1], 8)), p[0]), 32)
    else ToSigned(Or(Or(Shl32(p[2], 16), Shl32(p[1], 8)), p[0]), 32)
  }

  function Sint4korr(p: seq<byte>): int
    requires |p| >= 4
  {
    ToSigned(Or(Or(Or(p[0], Shl32(p[1], 8)), Shl32(p[2], 16)), Shl32(p[3], 24)), 32)
  }

  function Sint8korr(p: seq<byte>): int
    requires |p| >= 8
  {
    ToSigned(Uint8korr(p), 64)
  }

  // -------------------------------------------------------------- x86-64 loads

  /** *(uintN *) (p + off) on little-endian memory */
  function Word(p: seq<byte>, off: nat, n: nat): nat
    requires off + n <= |p|
  {
    Value(p[off..off + n])
  }

  function FastUint5korr(p: seq<byte>): nat
    requires |p| >= 5
  {
    Or(Word(p, 0, 4), Shl64(p[4], 32))
  }

  function FastUint6korr(p: seq<byte>): nat
    requires |p| >= 6
  {
    Or(Word(p, 0, 4), Shl64(Word(p, 4, 2), 32))
  }

  /** The bswapq instruction. */
  function Bswap64(v: nat): nat {
    Value(Reverse(Bytes(v, 8)))
  }

  function MiUint5korr(p: seq<byte>): nat
    requires |p| >= 5
  {
    Bswap64(Shl64(Or(Word(p, 0, 4), Shl64(p[4], 32)), 24))
  }

  function MiUint6korr(p: seq<byte>): nat
    requires |p| >= 6
  {
    Bswap64(Shl64(Or(Word(p, 0, 4), Shl64(Word(p, 4, 2), 32)), 16))
  }

  function MiUint7korr(p: seq<byte>): nat
    requires |p| >= 7
  {
    Bswap64(Shl64(Or(Or(Word(p, 0, 4), Shl64(Word(p, 4, 2), 32)), Shl64(p[6], 48)), 8))
  }

  function MiUint8korr(p: seq<byte>): nat
    requires |p| >= 8
  {
    Bswap64(Word(p, 0, 8))
  }

  // --------------------------------------------------- loads, once for every width

  lemma {:induction false} Pow2Monotone(a: nat, b: nat)
    requires a <= b
    ensures Pow2(a) <= Pow2(b)
    decreases b
  {
    if a == b {
    } else {
      Pow2Monotone(a, b - 1);
    }
  }

  lemma TruncIsNoop(x: nat, w: nat)
    requires x < Pow2(w)
    ensures Trunc(x, w) == x
  {
    RemainderIsUnique(x, 0, x, Pow2(w));
  }

  lemma ShiftFits(a: seq<byte>, b: seq<byte>, w: nat)
    requires 8 * (|a| + |b|) <= w
    ensures Trunc(Shl(Value(b), 8 * |a|), w) == Value(b) * Pow2(8 * |a|) == Value(a + b) - Value(a)
  {
    ValueConcat(a, b);
    ValueBound(a + b);
    Pow2Monotone(8 * (|a| + |b|), w);
    TruncIsNoop(Shl(Value(b), 8 * |a|), w);
  }

  /** `a | (b << 8|a|)`, in a word wide enough, is the number whose bytes are `a` then `b`. */
  lemma OrAppends(a: seq<byte>, b: seq<byte>, w: nat)
    requires 8 * (|a| + |b|) <= w
    ensures Or(Value(a), Trunc(Shl(Value(b), 8 * |a|), w)) == Value(a + b)
  {
    ShiftFits(a, b, w);
    ValueBound(a);
    OrDisjoint(Value(a), Value(b), 8 * |a|);
  }

  lemma OneByte(b: byte)
    ensures Value([b]) == b
  {
    assert [b][1..] == [];
  }

  lemma FirstByte(p: seq<byte>)
    requires p != []
    ensures Value(p[..1]) == p[0]
  {
    assert p[..1] == [p[0]];
    OneByte(p[0]);
  }

  lemma OrByte(p: seq<byte>, n: nat, w: nat)
    requires 1 <= n < |p| && 8 * (n + 1) <= w
    ensures Or(Value(p[..n]), Trunc(Shl(p[n], 8 * n), w)) == Value(p[..n + 1])
  {
    OneByte(p[n]);
    assert p[..n + 1] == p[..n] + [p[n]];
    OrAppends(p[..n], [p[n]], w);
  }

  /** The chain of | and << over the first two, three or four bytes, as the macros write it. */
  lemma LowBytes(p: seq<byte>)
    ensures |p| >= 2 ==> Or(p[0], Shl32(p[1], 8)) == Value(p[..2])
    ensures |p| >= 3 ==> Or(Or(p[0], Shl32(p[1], 8)), Shl32(p[2], 16)) == Value(p[..3])
    ensures |p| >= 4 ==>
              Or(Or(Or(p[0], Shl32(p[1], 8)), Shl32(p[2], 16)), Shl32(p[3], 24)) == Value(p[..4])
  {
    if |p| >= 2 {
      FirstByte(p);
      OrByte(p, 1, 32);
    }
    if |p| >= 3 {
      OrByte(p, 2, 32);
    }
    if |p| >= 4 {
      OrByte(p, 3, 32);
    }
  }

  lemma Fits(p: seq<byte>, n: nat, w: nat)
    requires n <= |p| && 8 * n <= w
    ensures Trunc(Value(p[..n]), w) == Value(p[..n])
  {
    ValueBound(p[..n]);
    Pow2Monotone(8 * n, w);
    TruncIsNoop(Value(p[..n]), w);
  }

  lemma NarrowLoads(p: seq<byte>)
    ensures |p| >= 2 ==> Uint2korr(p) == Value(p[..2])
    ensures |p| >= 3 ==> Uint3korr(p) == Value(p[..3])
    ensures |p| >= 4 ==> Uint4korr(p) == Value(p[..4])
  {
    LowBytes(p);
    if |p| >= 2 { Fits(p, 2, 16); }
    if |p| >= 3 { Fits(p, 3, 32); }
    if |p| >= 4 { Fits(p, 4, 32); }
  }

  lemma LoadsOfFiveAndSix(p: seq<byte>)
    ensures |p| >= 5 ==> Uint5korr(p) == Value(p[..5])
    ensures |p| >= 6 ==> Uint6korr(p) == Value(p[..6])
  {
    LowBytes(p);
    if |p| >= 5 { OrByte(p, 4, 64); }
    if |p| >= 6 { OrByte(p, 5, 64); }
  }

  lemma LoadOfEight(p: seq<byte>)
    requires |p| >= 8
    ensures Uint8korr(p) == Value(p[..8])
  {
    LowBytes(p);
    LowBytes(p[4..]);
    assert p[4..][..4] == p[4..8] && p[..8] == p[..4] + p[4..8];
    OrAppends(p[..4], p[4..8], 64);
  }

  /** Each portable unsigned load returns the low-byte-first number of exactly its bytes. */
  lemma UnsignedLoads(p: seq<byte>)
    ensures |p| >= 2 ==> Uint2korr(p) == Value(p[..2])
    ensures |p| >= 3 ==> Uint3korr(p) == Value(p[..3])
    ensures |p| >= 4 ==> Uint4korr(p) == Value(p[..4])
    ensures |p| >= 5 ==> Uint5korr(p) == Value(p[..5])
    ensures |p| >= 6 ==> Uint6korr(p) == Value(p[..6])
    ensures |p| >= 8 ==> Uint8korr(p) == Value(p[..8])
  {
    NarrowLoads(p);
    LoadsOfFiveAndSix(p);
    if |p| >= 8 {
      LoadOfEight(p);
    }
  }

  lemma SignBit(b: byte)
    ensures And(b, 128) != 0 <==> b >= 128
  {
    Pow2Values();
    AndHighMask(b, 7, 8);
    RemainderIsUnique(b, if b >= 128 then 1 else 0, if b >= 128 then b - 128 else b, 128);
  }

  lemma OrFromHigh(y: nat, x: nat, n: nat)
    requires x < Pow2(n)
    ensures Or(Shl(y, n), x) == y * Pow2(n) + x
  {
    OrDisjoint(x, y, n);
  }

  lemma ValueOfThree(p: seq<byte>, b0: nat, b1: nat, b2: nat)
    requires |p| >= 3 && b0 == p[0] && b1 == p[1] && b2 == p[2]
    ensures Value(p[..3]) == b0 + 256 * (b1 + 256 * b2)
  {
    assert p[..3][1..] == [p[1], p[2]] && [p[1], p[2]][1..] == [p[2]];
    OneByte(p[2]);
  }

  lemma OrTwoFromHigh(top: nat, b0: nat, b1: nat)
    requires b0 < 256 && b1 < 256
    ensures Or(Or(Shl(top, 16), Shl(b1, 8)), b0) == top * 0x1_0000 + (b0 + 256 * b1)
  {
    Pow2Values();
    OrFromHigh(top, Shl(b1, 8), 16);
    assert Or(Shl(top, 16), Shl(b1, 8)) == Shl(256 * top + b1, 8);
    OrFromHigh(256 * top + b1, b0, 8);
  }

  /** Three bytes below a high part, combined from the top down as sint3korr does. */
  lemma OrThreeFromHigh(top: nat, b0: nat, b1: nat, b2: nat)
    requires b0 < 256 && b1 < 256 && b2 < 256
    ensures Or(Or(Or(Shl(top, 24), Shl(b2, 16)), Shl(b1, 8)), b0) == top * 0x100_0000 + (b0 + 256 * (b1 + 256 * b2))
    ensures Or(Or(Shl(b2, 16), Shl(b1, 8)), b0) == b0 + 256 * (b1 + 256 * b2)
  {
    Pow2Values();
    OrFromHigh(top, Shl(b2, 16), 24);
    assert Or(Shl(top, 24), Shl(b2, 16)) == Shl(256 * top + b2, 16);
    OrTwoFromHigh(256 * top + b2, b0, b1);
    OrTwoFromHigh(b2, b0, b1);
  }

  lemma Sint3Parts(p: seq<byte>)
    requires |p| >= 3
    ensures Or(Or(Shl32(p[2], 16), Shl32(p[1], 8)), p[0]) == Value(p[..3])
    ensures Or(Or(Or(Shl32(255, 24), Shl32(p[2], 16)), Shl32(p[1], 8)), p[0]) == 255 * 0x100_0000 + Value(p[..3])
  {
    Pow2Values();
    ValueOfThree(p, p[0], p[1], p[2]);
    TruncIsNoop(Shl(p[2], 16), 32);
    TruncIsNoop(Shl(p[1], 8), 32);
    TruncIsNoop(Shl(255, 24), 32);
    OrThreeFromHigh(255, p[0], p[1], p[2]);
  }

  /** Each signed load returns the two's complement number of exactly its bytes. */
  lemma SignedLoads(p: seq<byte>)
    ensures |p| >= 2 ==> Sint2korr(p) == ToSigned(Value(p[..2]), 16)
    ensures |p| >= 3 ==> Sint3korr(p) == ToSigned(Value(p[..3]), 24)
    ensures |p| >= 4 ==> Sint4korr(p) == ToSigned(Value(p[..4]), 32)
    ensures |p| >= 8 ==> Sint8korr(p) == ToSigned(Value(p[..8]), 64)
  {
    LowBytes(p);
    UnsignedLoads(p);
    if |p| >= 3 {
      Pow2Values();
      Sint3Parts(p);
      ValueOfThree(p, p[0], p[1], p[2]);
      SignBit(p[2]);
    }
  }

  lemma WholeWords(p: seq<byte>)
    ensures |p| >= 2 ==> Word(p, 0, 2) == Uint2korr(p) && ToSigned(Word(p, 0, 2), 16) == Sint2korr(p)
    ensures |p| >= 4 ==> Word(p, 0, 4) == Uint4korr(p) && ToSigned(Word(p, 0, 4), 32) == Sint4korr(p)
    ensures |p| >= 8 ==> Word(p, 0, 8) == Uint8korr(p) && ToSigned(Word(p, 0, 8), 64) == Sint8korr(p)
  {
    UnsignedLoads(p);
    SignedLoads(p);
  }

  lemma SplitWords(p: seq<byte>)
    ensures |p| >= 5 ==> FastUint5korr(p) == Uint5korr(p)
    ensures |p| >= 6 ==> FastUint6korr(p) == Uint6korr(p)
  {
    LoadsOfFiveAndSix(p);
    if |p| >= 5 { LoadFive(p); }
    if |p| >= 6 { LoadSix(p); }
  }

  /** On little-endian memory every x86-64 load equals its portable form on every byte string. */
  lemma FastLoadsAgree(p: seq<byte>)
    ensures |p| >= 2 ==> Word(p, 0, 2) == Uint2korr(p) && ToSigned(Word(p, 0, 2), 16) == Sint2korr(p)
    ensures |p| >= 4 ==> Word(p, 0, 4) == Uint4korr(p) && ToSigned(Word(p, 0, 4), 32) == Sint4korr(p)
    ensures |p| >= 5 ==> FastUint5korr(p) == Uint5korr(p)
    ensures |p| >= 6 ==> FastUint6korr(p) == Uint6korr(p)
    ensures |p| >= 8 ==> Word(p, 0, 8) == Uint8korr(p) && ToSigned(Word(p, 0, 8), 64) == Sint8korr(p)
  {
    WholeWords(p);
    SplitWords(p);
  }

  // ------------------------------------------------------ high byte first keys

  function Zeros(n: nat): (bs: seq<byte>)
    ensures |bs| == n
  {
    if n == 0 then [] else [0] + Zeros(n - 1)
  }

  lemma {:induction false} ZerosValue(n: nat)
    ensures Value(Zeros(n)) == 0 && Reverse(Zeros(n)) == Zeros(n)
  {
    if n == 0 {
    } else {
      ZerosValue(n - 1);
      ZerosCommute(n - 1);
    }
  }

  lemma {:induction false} ZerosCommute(n: nat)
    ensures Zeros(n) + [0] == [0] + Zeros(n)
  {
    if n == 0 {
    } else {
      ZerosCommute(n - 1);
    }
  }

  /** Shifting left by whole bytes puts zero bytes below. */
  lemma ShiftPads(bs: seq<byte>, n: nat)
    requires |bs| + n == 8
    ensures Shl64(Value(bs), 8 * n) == Value(Zeros(n) + bs)
  {
    ZerosValue(n);
    ValueConcat(Zeros(n), bs);
    ValueBound(Zeros(n) + bs);
    TruncIsNoop(Shl(Value(bs), 8 * n), 64);
  }

  lemma SwapPadded(bs: seq<byte>, n: nat)
    ensures Value(Reverse(Zeros(n) + bs)) == BigEndian(bs)
  {
    ReverseConcat(Zeros(n), bs);
    ZerosValue(n);
    ValueConcat(Reverse(bs), Zeros(n));
    ReverseIsBigEndian(bs);
  }

  /** Load some bytes, shift them to the top of the word, swap: the high-byte-first number. */
  lemma ShiftAndSwap(bs: seq<byte>, n: nat)
    requires |bs| + n == 8
    ensures Bswap64(Shl64(Value(bs), 8 * n)) == BigEndian(bs)
  {
    ShiftPads(bs, n);
    BytesOfValue(Zeros(n) + bs);
    SwapPadded(bs, n);
  }

  lemma LoadFive(p: seq<byte>)
    requires |p| >= 5
    ensures FastUint5korr(p) == Value(p[..5])
  {
    OrByte(p, 4, 64);
  }

  lemma KeyOfFive(p: seq<byte>)
    requires |p| >= 5
    ensures MiUint5korr(p) == BigEndian(p[..5])
  {
    LoadFive(p);
    ShiftAndSwap(p[..5], 3);
  }

  lemma LoadSix(p: seq<byte>)
    requires |p| >= 6
    ensures FastUint6korr(p) == Value(p[..6])
  {
    assert p[..6] == p[..4] + p[4..6];
    OrAppends(p[..4], p[4..6], 64);
  }

  lemma KeyOfSix(p: seq<byte>)
    requires |p| >= 6
    ensures MiUint6korr(p) == BigEndian(p[..6])
  {
    LoadSix(p);
    ShiftAndSwap(p[..6], 2);
  }

  lemma LoadSeven(p: seq<byte>)
    requires |p| >= 7
    ensures Or(Or(Word(p, 0, 4), Shl64(Word(p, 4, 2), 32)), Shl64(p[6], 48)) == Value(p[..7])
  {
    LoadSix(p);
    OrByte(p, 6, 64);
  }

  lemma KeyOfSeven(p: seq<byte>)
    requires |p| >= 7
    ensures MiUint7korr(p) == BigEndian(p[..7])
  {
    LoadSeven(p);
    ShiftAndSwap(p[..7], 1);
  }

  lemma KeyOfEight(p: seq<byte>)
    requires |p| >= 8
    ensures MiUint8korr(p) == BigEndian(p[..8])
  {
    ReverseIsBigEndian(p[..8]);
    BytesOfValue(p[..8]);
  }

  /** The key readers return the high-byte-first number of exactly their 5 to 8 bytes. */
  lemma KeyReaders(p: seq<byte>)
    ensures |p| >= 5 ==> MiUint5korr(p) == BigEndian(p[..5])
    ensures |p| >= 6 ==> MiUint6korr(p) == BigEndian(p[..6])
    ensures |p| >= 7 ==> MiUint7korr(p) == BigEndian(p[..7])
    ensures |p| >= 8 ==> MiUint8korr(p) == BigEndian(p[..8])
  {
    if |p| >= 5 { KeyOfFive(p); }
    if |p| >= 6 { KeyOfSix(p); }
    if |p| >= 7 { KeyOfSeven(p); }
    if |p| >= 8 { KeyOfEight(p); }
  }

  /** Comparing keys as numbers is comparing their bytes from the first on. */
  lemma KeysCompareAsBytes(a: seq<byte>, b: seq<byte>)
    requires |a| == |b|
    ensures |a| == 5 ==> (MiUint5korr(a) < MiUint5korr(b) <==> LexLess(a, b))
    ensures |a| == 6 ==> (MiUint6korr(a) < MiUint6korr(b) <==> LexLess(a, b))
    ensures |a| == 7 ==> (MiUint7korr(a) < MiUint7korr(b) <==> LexLess(a, b))
    ensures |a| == 8 ==> (MiUint8korr(a) < MiUint8korr(b) <==> LexLess(a, b))
  {
    KeyReaders(a);
    KeyReaders(b);
    BigEndianOrder(a, b);
    assert a[..|a|] == a && b[..|b|] == b;
  }
}
