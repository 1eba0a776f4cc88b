/** my_uuid2str: the text form of a 16-byte UUID, in the 8-4-4-4-12 layout of section 3 of RFC 4122. */
module Uuid {
  import opened Wrappers
  import opened Bits
  import opened ByteStrings

  const UUID_SIZE := 16

  /** _dig_vec_lower: '0' to '9' are characters 48 to 57, 'a' to 'f' are 97 to 102. */
  function Digit(n: nat): char
    requires n < 16
  {
    if n < 10 then (48 + n) as char else (87 + n) as char
  }

  function HexByte(b: byte): (s: string)
    ensures |s| == 2
  {
    [Digit(b / 16), Digit(b % 16)]
  }

  function Hex(bs: seq<byte>): string {
    if bs == [] then "" else HexByte(bs[0]) + Hex(bs[1..])
  }

  /** The text of a UUID, with or without the four separators. */
  function Text(guid: seq<byte>, separators: bool): string
    requires |guid| == UUID_SIZE
  {
    if separators
    then Hex(guid[..4]) + "-" + (Hex(guid[4..6]) + "-" + (Hex(guid[6..8]) + "-" + (Hex(guid[8..10]) + "-" + Hex(guid[10..]))))
    else Hex(guid)
  }

  // ------------------------------------------------------------------- the mask

  /** The mask after `i` right shifts: bit `i` of the initial mask is now bit 0. */
  function Shifted(mask: nat, i: nat): nat {
    if i == 0 then mask else Shifted(mask, i - 1) / 2
  }

  /** (1 << a) | (1 << b) | (1 << c) | (1 << d) */
  function FourBits(a: nat, b: nat, c: nat, d: nat): nat {
    Or(Or(Or(Shl(1, a), Shl(1, b)), Shl(1, c)), Shl(1, d))
  }

  const SEPARATOR_MASK := FourBits(3, 5, 7, 9)

  predicate SeparatorAfter(i: nat) {
    i == 3 || i == 5 || i == 7 || i == 9
  }

  lemma OrBit(x: nat, y: nat, n: nat)
    requires y == Pow2(n) && x < y
    ensures Or(x, y) == x + y
  {
    OrDisjoint(x, 1, n);
  }

  lemma MaskValue()
    ensures SEPARATOR_MASK == 680
  {
    BitValue(3, 8);
    BitValue(5, 32);
    BitValue(7, 128);
    BitValue(9, 512);
    OrBit(8, 32, 5);
    OrBit(40, 128, 7);
    OrBit(168, 512, 9);
  }

  lemma BitValue(n: nat, p: nat)
    requires p == Pow2(n)
    ensures Shl(1, n) == p
  {
  }

  lemma {:induction false} StaysZero(mask: nat, i: nat, j: nat)
    requires i <= j && Shifted(mask, i) == 0
    ensures Shifted(mask, j) == 0
    decreases j
  {
    if i == j {
    } else {
      StaysZero(mask, i, j - 1);
    }
  }

  lemma MaskParity(i: nat)
    ensures Shifted(680, i) % 2 == 1 <==> SeparatorAfter(i)
  {
    assert Shifted(680, 1) == 340 && Shifted(680, 2) == 170 && Shifted(680, 3) == 85 && Shifted(680, 4) == 42;
    assert Shifted(680, 5) == 21 && Shifted(680, 6) == 10 && Shifted(680, 7) == 5 && Shifted(680, 8) == 2;
    assert Shifted(680, 9) == 1 && Shifted(680, 10) == 0;
    if i >= 10 {
      StaysZero(680, 10, i);
    }
  }

  function Mask(separators: bool): nat {
    if separators then SEPARATOR_MASK else 0
  }

  lemma MaskBit(separators: bool, i: nat)
    ensures And(Shifted(Mask(separators), i), 1) != 0 <==> separators && SeparatorAfter(i)
  {
    var m := Shifted(Mask(separators), i);
    assert Pow2(1) == 2;
    AndLowMask(m, 1);
    if separators {
      MaskValue();
      MaskParity(i);
    } else {
      StaysZero(0, 0, i);
    }
  }

  // ------------------------------------------------------------------- printing

  predicate Separates(separators: bool, i: nat) {
    separators && SeparatorAfter(i)
  }

  function Separator(separators: bool, i: nat): string {
    if Separates(separators, i) then "-" else ""
  }

  /** What the loop has written after `i` bytes. */
  function Printed(guid: seq<byte>, separators: bool, i: nat): string
    requires i <= |guid|
  {
    if i == 0 then ""
    else Printed(guid, separators, i - 1) + HexByte(guid[i - 1]) + Separator(separators, i - 1)
  }

  lemma {:induction false} PrintedLength(guid: seq<byte>, separators: bool, i: nat)
    requires i <= |guid|
    ensures |Printed(guid, separators, i)| ==
            2 * i + if !separators || i <= 3 then 0 else if i <= 5 then 1 else if i <= 7 then 2 else if i <= 9 then 3 else 4
  {
    if i == 0 {
    } else {
      PrintedLength(guid, separators, i - 1);
    }
  }

  lemma {:induction false} HexConcat(a: seq<byte>, b: seq<byte>)
    ensures Hex(a + b) == Hex(a) + Hex(b)
  {
    if a == [] {
      assert a + b == b;
    } else {
      assert (a + b)[1..] == a[1..] + b;
      HexConcat(a[1..], b);
    }
  }

  lemma HexNext(guid: seq<byte>, start: nat, i: nat)
    requires start <= i < |guid|
    ensures Hex(guid[start..i + 1]) == Hex(guid[start..i]) + HexByte(guid[i])
  {
    assert guid[start..i + 1] == guid[start..i] + [guid[i]];
    HexConcat(guid[start..i], [guid[i]]);
    assert [guid[i]][1..] == [];
  }

  lemma Associate(a: string, b: string, c: string)
    ensures (a + b) + c == a + (b + c)
  {
  }

  lemma PrintedNext(guid: seq<byte>, separators: bool, n: nat, before: string, hex: string)
    requires n < |guid| && Printed(guid, separators, n) == before + hex
    ensures Printed(guid, separators, n + 1) == before + ((hex + HexByte(guid[n])) + Separator(separators, n))
  {
    Associate(before, hex, HexByte(guid[n]));
    Associate(before, hex + HexByte(guid[n]), Separator(separators, n));
  }

  /** From byte `start` to byte `i` the loop appends just hex digits. */
  ghost predicate IsGroup(guid: seq<byte>, separators: bool, start: nat, i: nat)
    requires start <= i <= |guid|
  {
    Printed(guid, separators, i) == Printed(guid, separators, start) + Hex(guid[start..i])
  }

  lemma GroupStep(guid: seq<byte>, separators: bool, start: nat, n: nat)
    requires start <= n < |guid| && !Separates(separators, n)
    requires IsGroup(guid, separators, start, n)
    ensures IsGroup(guid, separators, start, n + 1)
  {
    PrintedNext(guid, separators, n, Printed(guid, separators, start), Hex(guid[start..n]));
    HexNext(guid, start, n);
    var hex := Hex(guid[start..n + 1]);
    assert hex + "" == hex;
  }

  lemma EmptyGroup(guid: seq<byte>, separators: bool, i: nat)
    requires i <= |guid|
    ensures IsGroup(guid, separators, i, i)
  {
    assert guid[i..i] == [];
  }

  /** Between two separators the loop appends the hex digits of the bytes it passes. */
  lemma {:induction false} PrintedGroup(guid: seq<byte>, separators: bool, start: nat, i: nat)
    requires start <= i <= |guid|
    requires forall j :: start <= j < i ==> !Separates(separators, j)
    ensures IsGroup(guid, separators, start, i)
    decreases i
  {
    if start == i {
      EmptyGroup(guid, separators, i);
    } else {
      assert !Separates(separators, i - 1);
      PrintedGroup(guid, separators, start, i - 1);
      GroupStep(guid, separators, start, i - 1);
    }
  }

  /** One group of bytes up to a separator. */
  lemma PrintedUpToSeparator(guid: seq<byte>, start: nat, i: nat)
    requires start <= i < |guid| && SeparatorAfter(i)
    requires forall j :: start <= j < i ==> !Separates(true, j)
    ensures Printed(guid, true, i + 1) == Printed(guid, true, start) + (Hex(guid[start..i + 1]) + "-")
  {
    PrintedGroup(guid, true, start, i);
    HexNext(guid, start, i);
    PrintedNext(guid, true, i, Printed(guid, true, start), Hex(guid[start..i]));
  }

  lemma PrintedGroups(guid: seq<byte>, a: nat, b: nat, c: nat, d: nat)
    requires a == 3 && b == 5 && c == 7 && d == 9 && |guid| > d
    ensures Printed(guid, true, a + 1) == Hex(guid[0..a + 1]) + "-"
    ensures Printed(guid, true, b + 1) == Printed(guid, true, a + 1) + (Hex(guid[a + 1..b + 1]) + "-")
    ensures Printed(guid, true, c + 1) == Printed(guid, true, b + 1) + (Hex(guid[b + 1..c + 1]) + "-")
    ensures Printed(guid, true, d + 1) == Printed(guid, true, c + 1) + (Hex(guid[c + 1..d + 1]) + "-")
  {
    PrintedUpToSeparator(guid, 0, a);
    assert Printed(guid, true, 0) == "";
    PrintedUpToSeparator(guid, a + 1, b);
    PrintedUpToSeparator(guid, b + 1, c);
    PrintedUpToSeparator(guid, c + 1, d);
  }

  lemma JoinFive(a: string, b: string, c: string, d: string, e: string)
    ensures (a + "-") + (b + "-") + (c + "-") + (d + "-") + e == a + "-" + (b + "-" + (c + "-" + (d + "-" + e)))
  {
  }

  lemma PrintedWithSeparators(guid: seq<byte>, a: nat, b: nat, c: nat, d: nat, n: nat)
    requires a == 3 && b == 5 && c == 7 && d == 9 && |guid| == UUID_SIZE == n
    ensures Printed(guid, true, n) ==
            Hex(guid[0..a + 1]) + "-" + (Hex(guid[a + 1..b + 1]) + "-" +
              (Hex(guid[b + 1..c + 1]) + "-" + (Hex(guid[c + 1..d + 1]) + "-" + Hex(guid[d + 1..n]))))
  {
    PrintedGroups(guid, a, b, c, d);
    PrintedGroup(guid, true, d + 1, n);
    JoinFive(Hex(guid[0..a + 1]), Hex(guid[a + 1..b + 1]), Hex(guid[b + 1..c + 1]), Hex(guid[c + 1..d + 1]),
             Hex(guid[d + 1..n]));
  }

  /** The shifting mask puts the separators where RFC 4122 wants them. */
  lemma PrintedIsText(guid: seq<byte>, separators: bool, n: nat)
    requires |guid| == UUID_SIZE == n
    ensures Printed(guid, separators, n) == Text(guid, separators) && |Text(guid, separators)| == TextLength(separators)
  {
    PrintedLength(guid, separators, n);
    if separators {
      PrintedWithSeparators(guid, 3, 5, 7, 9, n);
      assert guid[0..4] == guid[..4] && guid[10..n] == guid[10..];
    } else {
      PrintedGroup(guid, false, 0, n);
      assert guid[0..n] == guid && Printed(guid, false, 0) == "";
    }
  }

  lemma NibbleOps(b: byte)
    ensures Shr(b, 4) == b / 16 < 16 && And(b, 15) == b % 16
  {
    assert Pow2(4) == 16;
    AndLowMask(b, 4);
  }

  function Dash(mask: nat): string {
    if And(mask, 1) != 0 then "-" else ""
  }

  /** One turn of the loop: two digits, and a dash if the low bit of the mask is set. */
  method EmitByte(s: array<char>, pos: nat, b: byte, mask: nat, ghost text: string, ghost was: string) returns (next: nat)
    requires pos == |text| && pos + 2 + |Dash(mask)| <= s.Length == |was|
    requires s[..] == text + was[pos..]
    modifies s
    ensures next == pos + 2 + |Dash(mask)|
    ensures s[..] == text + HexByte(b) + Dash(mask) + was[next..]
  {
    NibbleOps(b);
    s[pos] := Digit(Shr(b, 4));
    s[pos + 1] := Digit(And(b, 15));
    next := pos + 2;
    if And(mask, 1) != 0 {
      s[next] := '-';
      next := next + 1;
    }
  }

  function TextLength(separators: bool): nat {
    if separators then 36 else 32
  }

  /** The loop never writes past the text. */
  lemma RoomLeft(guid: seq<byte>, separators: bool, i: nat, mask: nat)
    requires i < |guid| == UUID_SIZE && mask == Shifted(Mask(separators), i)
    ensures Dash(mask) == Separator(separators, i)
    ensures |Printed(guid, separators, i)| + 2 + |Dash(mask)| == |Printed(guid, separators, i + 1)| <= TextLength(separators)
  {
    PrintedLength(guid, separators, i);
    PrintedLength(guid, separators, i + 1);
    MaskBit(separators, i);
  }

  /** my_uuid2str, with `s` as the destination buffer. */
  method Uuid2Str(guid: seq<byte>, s: array<char>, separators: bool)
    requires |guid| == UUID_SIZE && s.Length >= TextLength(separators)
    modifies s
    ensures |Text(guid, separators)| == TextLength(separators)
    ensures s[..] == Text(guid, separators) + old(s[..])[TextLength(separators)..]
  {
    var pos := 0;
    var mask := Mask(separators);
    ghost var was, text := s[..], "";
    for i := 0 to |guid|
      invariant mask == Shifted(Mask(separators), i)
      invariant text == Printed(guid, separators, i)
      invariant pos == |text| <= s.Length
      invariant s[..] == text + was[pos..]
    {
      RoomLeft(guid, separators, i, mask);
      pos := EmitByte(s, pos, guid[i], mask, text, was);
      text := text + HexByte(guid[i]) + Dash(mask);
      mask := mask / 2;
    }
    PrintedIsText(guid, separators, |guid|);
  }

  // ------------------------------------------------------------------- decoding

  function DigitValue(c: char): Option<nat> {
    if '0' <= c <= '9' then Some((c - '0') as nat)
    else if 'a' <= c <= 'f' then Some((c - 'a') as nat + 10)
    else None
  }

  function DecodeByte(hi: char, lo: char): Option<byte> {
    var h, l := DigitValue(hi), DigitValue(lo);
    if h.Some? && l.Some? && 16 * h.value + l.value < 256 then Some(16 * h.value + l.value) else None
  }

  /** Reads pairs of hex digits and skips dashes between pairs. */
  function Decode(s: string): Option<seq<byte>> {
    if s == "" then Some([])
    else if s[0] == '-' then Decode(s[1..])
    else if |s| == 1 then None
    else
      var b, rest := DecodeByte(s[0], s[1]), Decode(s[2..]);
      if b.Some? && rest.Some? then Some([b.value] + rest.value) else None
  }

  lemma DigitRoundTrip(n: nat)
    requires n < 16
    ensures DigitValue(Digit(n)) == Some(n) && Digit(n) != '-'
  {
  }

  lemma DecodeHexByte(b: byte, rest: string)
    requires Decode(rest).Some?
    ensures Decode(HexByte(b) + rest) == Some([b] + Decode(rest).value)
  {
    DigitRoundTrip(b / 16);
    DigitRoundTrip(b % 16);
    var s := HexByte(b) + rest;
    assert s[2..] == rest && s[0] == Digit(b / 16) && s[1] == Digit(b % 16);
  }

  lemma DecodePrepended(b: byte, text: string, rest: string, decoded: seq<byte>)
    requires Decode(text + rest) == Some(decoded)
    ensures Decode((HexByte(b) + text) + rest) == Some([b] + decoded)
  {
    DecodeHexByte(b, text + rest);
    Associate(HexByte(b), text, rest);
  }

  lemma Prepend(bs: seq<byte>, rest: seq<byte>)
    requires bs != []
    ensures [bs[0]] + (bs[1..] + rest) == bs + rest
  {
  }

  lemma {:induction false} DecodeHex(bs: seq<byte>, rest: string)
    requires Decode(rest).Some?
    ensures Decode(Hex(bs) + rest) == Some(bs + Decode(rest).value)
  {
    if bs == [] {
      assert Hex(bs) + rest == rest && bs + Decode(rest).value == Decode(rest).value;
    } else {
      var text, decoded := Hex(bs[1..]), Decode(rest).value;
      DecodeHex(bs[1..], rest);
      DecodePrepended(bs[0], text, rest, bs[1..] + decoded);
      assert Hex(bs) == HexByte(bs[0]) + text;
      Prepend(bs, decoded);
    }
  }

  lemma SkipDash(rest: string)
    ensures Decode("-" + rest) == Decode(rest)
  {
    assert ("-" + rest)[1..] == rest;
  }

  lemma DecodeGroup(bs: seq<byte>, rest: string)
    requires Decode(rest).Some?
    ensures Decode(Hex(bs) + "-" + rest) == Some(bs + Decode(rest).value)
  {
    SkipDash(rest);
    DecodeHex(bs, "-" + rest);
    Associate(Hex(bs), "-", rest);
  }

  lemma DecodeLast(bs: seq<byte>)
    ensures Decode(Hex(bs)) == Some(bs)
  {
    DecodeHex(bs, "");
    assert Hex(bs) + "" == Hex(bs) && bs + [] == bs;
  }

  lemma DecodeFive(g1: seq<byte>, g2: seq<byte>, g3: seq<byte>, g4: seq<byte>, g5: seq<byte>)
    ensures Decode(Hex(g1) + "-" + (Hex(g2) + "-" + (Hex(g3) + "-" + (Hex(g4) + "-" + Hex(g5)))))
            == Some(g1 + (g2 + (g3 + (g4 + g5))))
  {
    DecodeLast(g5);
    DecodeGroup(g4, Hex(g5));
    var t4 := Hex(g4) + "-" + Hex(g5);
    DecodeGroup(g3, t4);
    var t3 := Hex(g3) + "-" + t4;
    DecodeGroup(g2, t3);
    DecodeGroup(g1, Hex(g2) + "-" + t3);
  }

  /** Decoding the printed text recovers the sixteen bytes, for every UUID, in both layouts. */
  lemma DecodeText(guid: seq<byte>, separators: bool)
    requires |guid| == UUID_SIZE
    ensures Decode(Text(guid, separators)) == Some(guid)
  {
    if separators {
      var g1, g2, g3, g4, g5 := guid[..4], guid[4..6], guid[6..8], guid[8..10], guid[10..];
      DecodeFive(g1, g2, g3, g4, g5);
      assert guid == g1 + (g2 + (g3 + (g4 + g5)));
    } else {
      DecodeLast(guid);
    }
  }

  lemma {:induction false} HexChars(bs: seq<byte>, i: nat)
    ensures |Hex(bs)| == 2 * |bs|
    ensures i < |Hex(bs)| ==> DigitValue(Hex(bs)[i]).Some?
  {
    if bs == [] {
    } else {
      HexChars(bs[1..], if i >= 2 then i - 2 else 0);
      DigitRoundTrip(bs[0] / 16);
      DigitRoundTrip(bs[0] % 16);
    }
  }

  /** 36 characters, dashes at 8, 13, 18 and 23, hex digits everywhere else. */
  lemma TextLayout(guid: seq<byte>, i: nat)
    requires |guid| == UUID_SIZE && i < 36
    ensures |Text(guid, true)| == 36
    ensures if i == 8 || i == 13 || i == 18 || i == 23 then Text(guid, true)[i] == '-'
            else DigitValue(Text(guid, true)[i]).Some?
  {
    AllHex(guid[..4]);
    AllHex(guid[4..6]);
    AllHex(guid[6..8]);
    AllHex(guid[8..10]);
    AllHex(guid[10..]);
    JoinedLayout(Hex(guid[..4]), Hex(guid[4..6]), Hex(guid[6..8]), Hex(guid[8..10]), Hex(guid[10..]), i);
  }

  ghost predicate HexOnly(s: string) {
    forall i :: 0 <= i < |s| ==> DigitValue(s[i]).Some?
  }

  lemma AllHex(bs: seq<byte>)
    ensures |Hex(bs)| == 2 * |bs| && HexOnly(Hex(bs))
  {
    HexChars(bs, 0);
    forall i | 0 <= i < |Hex(bs)|
      ensures DigitValue(Hex(bs)[i]).Some?
    {
      HexChars(bs, i);
    }
  }

  lemma JoinedLayout(a: string, b: string, c: string, d: string, e: string, i: nat)
    requires |a| == 8 && |b| == |c| == |d| == 4 && |e| == 12 && i < 36
    requires HexOnly(a) && HexOnly(b) && HexOnly(c) && HexOnly(d) && HexOnly(e)
    ensures var text := a + "-" + (b + "-" + (c + "-" + (d + "-" + e)));
            && |text| == 36
            && if i == 8 || i == 13 || i == 18 || i == 23 then text[i] == '-' else DigitValue(text[i]).Some?
  {
  }
}
