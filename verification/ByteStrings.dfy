/** Byte strings as numbers, low byte first and high byte first, for every length. */
module ByteStrings {
  import opened Bits

  type byte = x: nat | x < 256

  /** (uchar) x */
  function Uchar(x: int): byte {
    x % 256
  }

  /** The number stored low byte first. */
  function Value(bs: seq<byte>): nat {
    if bs == [] then 0 else bs[0] + 256 * Value(bs[1..])
  }

  /** The number stored high byte first. */
  function BigEndian(bs: seq<byte>): nat
    decreases |bs|
  {
    if bs == [] then 0 else BigEndian(bs[..|bs| - 1]) * 256 + bs[|bs| - 1]
  }

  /** The `n` low bytes of the two's complement form of `v`, low byte first. */
  function Bytes(v: int, n: nat): (bs: seq<byte>)
    ensures |bs| == n
    decreases n
  {
    if n == 0 then [] else [v % 256] + Bytes(v / 256, n - 1)
  }

  function Reverse(bs: seq<byte>): (rs: seq<byte>)
    ensures |rs| == |bs|
  {
    if bs == [] then [] else Reverse(bs[1..]) + [bs[0]]
  }

  lemma Pow2Byte(n: nat)
    requires n >= 1
    ensures Pow2(8 * n) == 256 * Pow2(8 * (n - 1))
  {
    Pow2Sum(8, 8 * (n - 1));
    assert Pow2(8) == 256;
  }

  lemma {:induction false} ValueBound(bs: seq<byte>)
    ensures Value(bs) < Pow2(8 * |bs|)
  {
    if bs == [] {
    } else {
      ValueBound(bs[1..]);
      Pow2Byte(|bs|);
    }
  }

  lemma ScaleByte(x: nat, p: nat)
    ensures x * (256 * p) == 256 * (x * p)
  {
  }

  /** Quotient and remainder by 256p, through the quotient and remainder by 256. */
  lemma DivideByParts(v: int, p: nat)
    requires p >= 1
    ensures v % (256 * p) == 256 * ((v / 256) % p) + v % 256
    ensures v / (256 * p) == (v / 256) / p
  {
    var h := v / 256;
    var q, r := h / p, h % p;
    assert h == q * p + r;
    assert q * (256 * p) == 256 * (q * p);
    RemainderIsUnique(v, q, 256 * r + v % 256, 256 * p);
  }

  lemma {:induction false} ValueConcat(a: seq<byte>, b: seq<byte>)
    ensures Value(a + b) == Value(a) + Value(b) * Pow2(8 * |a|)
  {
    if a == [] {
      assert a + b == b;
    } else {
      assert (a + b)[1..] == a[1..] + b;
      ValueConcat(a[1..], b);
      Pow2Byte(|a|);
      ScaleByte(Value(b), Pow2(8 * (|a| - 1)));
    }
  }

  /** Storing then loading gives the value modulo 256^n. */
  lemma {:induction false} ValueOfBytes(v: int, n: nat)
    ensures Value(Bytes(v, n)) == v % Pow2(8 * n)
    decreases n
  {
    if n == 0 {
      assert v == v * 1 + 0;
    } else {
      ValueOfBytes(v / 256, n - 1);
      Pow2Byte(n);
      assert Bytes(v, n)[1..] == Bytes(v / 256, n - 1);
      DivideByParts(v, Pow2(8 * (n - 1)));
    }
  }

  /** Loading then storing gives the bytes back. */
  lemma {:induction false} BytesOfValue(bs: seq<byte>)
    ensures Bytes(Value(bs), |bs|) == bs
  {
    if bs == [] {
    } else {
      var v := Value(bs);
      RemainderIsUnique(v, Value(bs[1..]), bs[0], 256);
      BytesOfValue(bs[1..]);
    }
  }

  lemma ShiftByte(v: int, m: nat)
    requires m >= 1
    ensures Shr(v / 256, 8 * (m - 1)) == Shr(v, 8 * m)
  {
    Pow2Byte(m);
    DivideByParts(v, Pow2(8 * (m - 1)));
  }

  /** Byte `i` of the stored form is the value shifted right by 8i, converted to a byte. */
  lemma {:induction false} ByteAt(v: int, n: nat, i: nat)
    requires i < n
    ensures Bytes(v, n)[i] == Uchar(Shr(v, 8 * i))
    decreases n
  {
    if i == 0 {
    } else {
      ByteAt(v / 256, n - 1, i - 1);
      ShiftByte(v, i);
    }
  }

  lemma ShiftNothing(v: int)
    ensures Shr(v, 0) == v
  {
    RemainderIsUnique(v, v, 0, Pow2(0));
  }

  lemma BytesStep(v: int, m: nat, n: nat, high: seq<byte>)
    requires m >= 1 && Bytes(v / 256, m - 1 + n) == Bytes(v / 256, m - 1) + high
    ensures Bytes(v, m + n) == Bytes(v, m) + high
  {
    var low := Bytes(v / 256, m - 1);
    assert [v % 256] + (low + high) == ([v % 256] + low) + high;
  }

  lemma {:induction false} BytesConcat(v: int, m: nat, n: nat)
    ensures Bytes(v, m + n) == Bytes(v, m) + Bytes(Shr(v, 8 * m), n)
    decreases m
  {
    if m == 0 {
      ShiftNothing(v);
    } else {
      BytesConcat(v / 256, m - 1, n);
      ShiftByte(v, m);
      BytesStep(v, m, n, Bytes(Shr(v, 8 * m), n));
    }
  }

  /** Converting to `n` bytes or more first does not change the `n` low bytes. */
  lemma {:induction false} BytesOfTruncated(v: int, w: nat, n: nat)
    requires n <= w
    ensures Bytes(Trunc(v, 8 * w), n) == Bytes(v, n)
  {
    ValueOfBytes(v, w);
    BytesOfValue(Bytes(v, w));
    var t := Trunc(v, 8 * w);
    BytesConcat(t, n, w - n);
    BytesConcat(v, n, w - n);
    assert Bytes(t, w)[..n] == Bytes(t, n) && Bytes(v, w)[..n] == Bytes(v, n);
  }

  lemma {:induction false} ReverseConcat(a: seq<byte>, b: seq<byte>)
    ensures Reverse(a + b) == Reverse(b) + Reverse(a)
  {
    if a == [] {
      assert a + b == b;
    } else {
      assert (a + b)[1..] == a[1..] + b;
      ReverseConcat(a[1..], b);
    }
  }

  lemma {:induction false} ReverseIsBigEndian(bs: seq<byte>)
    ensures Value(Reverse(bs)) == BigEndian(bs)
    decreases |bs|
  {
    if bs == [] {
    } else {
      var n := |bs| - 1;
      assert bs == bs[..n] + [bs[n]];
      ReverseConcat(bs[..n], [bs[n]]);
      assert Reverse([bs[n]]) == [bs[n]];
      assert Reverse(bs)[1..] == Reverse(bs[..n]);
      ReverseIsBigEndian(bs[..n]);
    }
  }

  /** memcmp order of byte strings of one length. */
  predicate LexLess(a: seq<byte>, b: seq<byte>)
    requires |a| == |b|
  {
    a != [] && (a[0] < b[0] || (a[0] == b[0] && LexLess(a[1..], b[1..])))
  }

  lemma {:induction false} BigEndianFirst(bs: seq<byte>)
    requires bs != []
    ensures BigEndian(bs) == bs[0] * Pow2(8 * (|bs| - 1)) + BigEndian(bs[1..])
    ensures BigEndian(bs[1..]) < Pow2(8 * (|bs| - 1))
    decreases |bs|
  {
    if |bs| <= 1 {
    } else {
      var n := |bs| - 1;
      BigEndianFirst(bs[..n]);
      assert bs[..n][1..] == bs[1..][..n - 1];
      Pow2Byte(n);
      ScaleByte(bs[0], Pow2(8 * (n - 1)));
    }
  }

  /** Numbers stored high byte first are ordered as their byte strings are. */
  lemma {:induction false} BigEndianOrder(a: seq<byte>, b: seq<byte>)
    requires |a| == |b|
    ensures BigEndian(a) < BigEndian(b) <==> LexLess(a, b)
    ensures BigEndian(a) == BigEndian(b) <==> a == b
  {
    if a == [] {
    } else {
      BigEndianFirst(a);
      BigEndianFirst(b);
      BigEndianOrder(a[1..], b[1..]);
      MultiplesAreApart(a[0], b[0], Pow2(8 * (|a| - 1)));
      MultiplesAreApart(b[0], a[0], Pow2(8 * (|a| - 1)));
      assert a == [a[0]] + a[1..] && b == [b[0]] + b[1..];
    }
  }
}
