/**
 Writing integers low byte first into a buffer, in place: the portable byte-by-byte macros and the
 x86-64 word stores. Every store of width n writes `Bytes(a, n)` at its offset and nothing else.
 */
module ByteStores {
  import opened Bits
  import opened ByteStrings
  import opened ByteOrder

  /** `s` with `bs` written over it at `off`. */
  function Spliced(s: seq<byte>, off: nat, bs: seq<byte>): seq<byte>
    requires off + |bs| <= |s|
  {
    s[..off] + bs + s[off + |bs|..]
  }

  lemma SplicedTwice(s: seq<byte>, off: nat, a: seq<byte>, b: seq<byte>)
    requires off + |a| + |b| <= |s|
    ensures Spliced(Spliced(s, off, a), off + |a|, b) == Spliced(s, off, a + b)
  {
  }

  lemma SplicedPointwise(was: seq<byte>, off: nat, bs: seq<byte>, s: seq<byte>)
    requires off + |bs| <= |was| == |s|
    requires forall i :: 0 <= i < |bs| ==> s[off + i] == bs[i]
    requires forall i :: 0 <= i < |s| && !(off <= i < off + |bs|) ==> s[i] == was[i]
    ensures s == Spliced(was, off, bs)
  {
    forall i | 0 <= i < |s|
      ensures s[i] == Spliced(was, off, bs)[i]
    {
      if off <= i < off + |bs| {
        assert s[off + (i - off)] == bs[i - off];
      }
    }
  }

  /** The bytes of `a`, as the shifts of the macros give them. */
  lemma StoredBytes(a: int, n: nat)
    requires n <= 8
    ensures n > 0 ==> Bytes(a, n)[0] == Uchar(a)
    ensures n > 1 ==> Bytes(a, n)[1] == Uchar(Shr(a, 8))
    ensures n > 2 ==> Bytes(a, n)[2] == Uchar(Shr(a, 16))
    ensures n > 3 ==> Bytes(a, n)[3] == Uchar(Shr(a, 24))
    ensures n > 4 ==> Bytes(a, n)[4] == Uchar(Shr(a, 32))
    ensures n > 5 ==> Bytes(a, n)[5] == Uchar(Shr(a, 40))
  {
    if n > 0 { ByteAt(a, n, 0); }
    if n > 1 { ByteAt(a, n, 1); }
    if n > 2 { ByteAt(a, n, 2); }
    if n > 3 { ByteAt(a, n, 3); }
    if n > 4 { ByteAt(a, n, 4); }
    if n > 5 { ByteAt(a, n, 5); }
  }

  // ------------------------------------------------------------ portable stores

  method Int2Store(t: array<byte>, off: nat, a: int)
    requires off + 2 <= t.Length
    modifies t
    ensures t[..] == Spliced(old(t[..]), off, Bytes(a, 2))
  {
    var temp := Trunc(a, 32);
    BytesOfTruncated(a, 4, 2);
    StoredBytes(temp, 2);
    t[off] := Uchar(temp);
    t[off + 1] := Uchar(Shr(temp, 8));
    SplicedPointwise(old(t[..]), off, Bytes(a, 2), t[..]);
  }

  method Int3Store(t: array<byte>, off: nat, a: int)
    requires off + 3 <= t.Length
    modifies t
    ensures t[..] == Spliced(old(t[..]), off, Bytes(a, 3))
  {
    StoredBytes(a, 3);
    t[off] := Uchar(a);
    t[off + 1] := Uchar(Shr(a, 8));
    t[off + 2] := Uchar(Shr(a, 16));
    SplicedPointwise(old(t[..]), off, Bytes(a, 3), t[..]);
  }

  method Int4Store(t: array<byte>, off: nat, a: int)
    requires off + 4 <= t.Length
    modifies t
    ensures t[..] == Spliced(old(t[..]), off, Bytes(a, 4))
  {
    StoredBytes(a, 4);
    t[off] := Uchar(a);
    t[off + 1] := Uchar(Shr(a, 8));
    t[off + 2] := Uchar(Shr(a, 16));
    t[off + 3] := Uchar(Shr(a, 24));
    SplicedPointwise(old(t[..]), off, Bytes(a, 4), t[..]);
  }

  method Int5Store(t: array<byte>, off: nat, a: int)
    requires off + 5 <= t.Length
    modifies t
    ensures t[..] == Spliced(old(t[..]), off, Bytes(a, 5))
  {
    StoredBytes(a, 5);
    t[off] := Uchar(a);
    t[off + 1] := Uchar(Shr(a, 8));
    t[off + 2] := Uchar(Shr(a, 16));
    t[off + 3] := Uchar(Shr(a, 24));
    t[off + 4] := Uchar(Shr(a, 32));
    SplicedPointwise(old(t[..]), off, Bytes(a, 5), t[..]);
  }

  method Int6Store(t: array<byte>, off: nat, a: int)
    requires off + 6 <= t.Length
    modifies t
    ensures t[..] == Spliced(old(t[..]), off, Bytes(a, 6))
  {
    StoredBytes(a, 6);
    t[off] := Uchar(a);
    t[off + 1] := Uchar(Shr(a, 8));
    t[off + 2] := Uchar(Shr(a, 16));
    t[off + 3] := Uchar(Shr(a, 24));
    t[off + 4] := Uchar(Shr(a, 32));
    t[off + 5] := Uchar(Shr(a, 40));
    SplicedPointwise(old(t[..]), off, Bytes(a, 6), t[..]);
  }

  method Int8Store(t: array<byte>, off: nat, a: int)
    requires off + 8 <= t.Length
    modifies t
    ensures t[..] == Spliced(old(t[..]), off, Bytes(a, 8))
  {
    var temp, temp2 := Trunc(a, 32), Trunc(Shr(a, 32), 32);
    Int4Store(t, off, temp);
    Int4Store(t, off + 4, temp2);
    BytesOfTruncated(a, 4, 4);
    BytesOfTruncated(Shr(a, 32), 4, 4);
    BytesConcat(a, 4, 4);
    SplicedTwice(old(t[..]), off, Bytes(a, 4), Bytes(Shr(a, 32), 4));
  }

  // -------------------------------------------------------------- x86-64 stores

  /** *(uintN *) (t + off) = v on little-endian memory */
  method StoreWord(t: array<byte>, off: nat, v: nat, n: nat)
    requires off + n <= t.Length
    modifies t
    ensures t[..] == Spliced(old(t[..]), off, Bytes(v, n))
  {
    var bs := Bytes(v, n);
    forall i | 0 <= i < n {
      t[off + i] := bs[i];
    }
    SplicedPointwise(old(t[..]), off, bs, t[..]);
  }

  method FastInt2Store(t: array<byte>, off: nat, a: int)
    requires off + 2 <= t.Length
    modifies t
    ensures t[..] == Spliced(old(t[..]), off, Bytes(a, 2))
  {
    StoreWord(t, off, Trunc(a, 16), 2);
    BytesOfTruncated(a, 2, 2);
  }

  /** Only the middle byte goes through a conversion to unsigned first. */
  method FastInt3Store(t: array<byte>, off: nat, a: int)
    requires off + 3 <= t.Length
    modifies t
    ensures t[..] == Spliced(old(t[..]), off, Bytes(a, 3))
  {
    var temp := Trunc(a, 32);
    BytesOfTruncated(a, 4, 3);
    StoredBytes(a, 3);
    StoredBytes(temp, 3);
    t[off] := Uchar(a);
    t[off + 1] := Uchar(Shr(temp, 8));
    t[off + 2] := Uchar(Shr(a, 16));
    SplicedPointwise(old(t[..]), off, Bytes(a, 3), t[..]);
  }

  method FastInt4Store(t: array<byte>, off: nat, a: int)
    requires off + 4 <= t.Length
    modifies t
    ensures t[..] == Spliced(old(t[..]), off, Bytes(a, 4))
  {
    StoreWord(t, off, Trunc(a, 32), 4);
    BytesOfTruncated(a, 4, 4);
  }

  method FastInt5Store(t: array<byte>, off: nat, a: int)
    requires off + 5 <= t.Length
    modifies t
    ensures t[..] == Spliced(old(t[..]), off, Bytes(a, 5))
  {
    StoreWord(t, off, Trunc(a, 32), 4);
    BytesOfTruncated(a, 4, 4);
    ghost var mid := t[..];
    t[off + 4] := Uchar(Shr(a, 32));
    assert Bytes(Shr(a, 32), 1) == [Uchar(Shr(a, 32))];
    SplicedPointwise(mid, off + 4, Bytes(Shr(a, 32), 1), t[..]);
    BytesConcat(a, 4, 1);
    SplicedTwice(old(t[..]), off, Bytes(a, 4), Bytes(Shr(a, 32), 1));
  }

  method FastInt6Store(t: array<byte>, off: nat, a: int)
    requires off + 6 <= t.Length
    modifies t
    ensures t[..] == Spliced(old(t[..]), off, Bytes(a, 6))
  {
    StoreWord(t, off, Trunc(a, 32), 4);
    StoreWord(t, off + 4, Trunc(Shr(a, 32), 16), 2);
    BytesOfTruncated(a, 4, 4);
    BytesOfTruncated(Shr(a, 32), 2, 2);
    BytesConcat(a, 4, 2);
    SplicedTwice(old(t[..]), off, Bytes(a, 4), Bytes(Shr(a, 32), 2));
  }

  method FastInt8Store(t: array<byte>, off: nat, a: int)
    requires off + 8 <= t.Length
    modifies t
    ensures t[..] == Spliced(old(t[..]), off, Bytes(a, 8))
  {
    StoreWord(t, off, Trunc(a, 64), 8);
    BytesOfTruncated(a, 8, 8);
  }

  // ------------------------------------------------------------------ round trips

  /** Storing any integer and loading it back unsigned gives it modulo 256^n. */
  lemma StoreThenLoad(a: int)
    ensures Uint2korr(Bytes(a, 2)) == a % Pow2(16)
    ensures Uint3korr(Bytes(a, 3)) == a % Pow2(24)
    ensures Uint4korr(Bytes(a, 4)) == a % Pow2(32)
    ensures Uint5korr(Bytes(a, 5)) == a % Pow2(40)
    ensures Uint6korr(Bytes(a, 6)) == a % Pow2(48)
    ensures Uint8korr(Bytes(a, 8)) == a % Pow2(64)
  {
    LoadedBack(a, 2);
    LoadedBack(a, 3);
    LoadedBack(a, 4);
    LoadedBack(a, 5);
    LoadedBack(a, 6);
    LoadedBack(a, 8);
    UnsignedLoads(Bytes(a, 2));
    UnsignedLoads(Bytes(a, 3));
    UnsignedLoads(Bytes(a, 4));
    UnsignedLoads(Bytes(a, 5));
    UnsignedLoads(Bytes(a, 6));
    UnsignedLoads(Bytes(a, 8));
  }

  lemma LoadedBack(a: int, n: nat)
    ensures Value(Bytes(a, n)[..n]) == a % Pow2(8 * n)
  {
    assert Bytes(a, n)[..n] == Bytes(a, n);
    ValueOfBytes(a, n);
  }

  /** Loading bytes and storing the result writes the same bytes back. */
  lemma LoadThenStore(p: seq<byte>)
    ensures |p| >= 2 ==> Bytes(Uint2korr(p), 2) == p[..2]
    ensures |p| >= 3 ==> Bytes(Uint3korr(p), 3) == p[..3]
    ensures |p| >= 4 ==> Bytes(Uint4korr(p), 4) == p[..4]
    ensures |p| >= 5 ==> Bytes(Uint5korr(p), 5) == p[..5]
    ensures |p| >= 6 ==> Bytes(Uint6korr(p), 6) == p[..6]
    ensures |p| >= 8 ==> Bytes(Uint8korr(p), 8) == p[..8]
  {
    UnsignedLoads(p);
    if |p| >= 2 { BytesOfValue(p[..2]); }
    if |p| >= 3 { BytesOfValue(p[..3]); }
    if |p| >= 4 { BytesOfValue(p[..4]); }
    if |p| >= 5 { BytesOfValue(p[..5]); }
    if |p| >= 6 { BytesOfValue(p[..6]); }
    if |p| >= 8 { BytesOfValue(p[..8]); }
  }

  predicate FitsSigned(a: int, w: nat)
    requires w >= 1
  {
    0 <= a + Pow2(w - 1) && a < Pow2(w - 1)
  }

  lemma SignedIsRecovered(a: int, n: nat)
    requires n >= 1 && FitsSigned(a, 8 * n)
    ensures ToSigned(Value(Bytes(a, n)[..n]), 8 * n) == a
  {
    LoadedBack(a, n);
    var p := Pow2(8 * n);
    assert p == 2 * Pow2(8 * n - 1);
    if a >= 0 {
      RemainderIsUnique(a, 0, a, p);
    } else {
      RemainderIsUnique(a, -1, a + p, p);
    }
  }

  /** A signed load recovers every value of its range, the 24-bit one included. */
  lemma StoreThenLoadSigned(a: int)
    ensures FitsSigned(a, 16) ==> Sint2korr(Bytes(a, 2)) == a
    ensures FitsSigned(a, 24) ==> Sint3korr(Bytes(a, 3)) == a
    ensures FitsSigned(a, 32) ==> Sint4korr(Bytes(a, 4)) == a
    ensures FitsSigned(a, 64) ==> Sint8korr(Bytes(a, 8)) == a
  {
    SignedLoads(Bytes(a, 2));
    SignedLoads(Bytes(a, 3));
    SignedLoads(Bytes(a, 4));
    SignedLoads(Bytes(a, 8));
    if FitsSigned(a, 16) { SignedIsRecovered(a, 2); }
    if FitsSigned(a, 24) { SignedIsRecovered(a, 3); }
    if FitsSigned(a, 32) { SignedIsRecovered(a, 4); }
    if FitsSigned(a, 64) { SignedIsRecovered(a, 8); }
  }
}
