/** Minting effect IDs as UUIDv7 (section 5.7 of RFC 9562), and the check every effect ID must pass. */
module EffectIds {
  import opened Arithmetic
  import opened Wrappers
  import opened Text

  // ----- Unbounded integers as Python's shift and bit operators see them -----

  function Pow2(k: nat): (p: nat)
    ensures p > 0
  {
    if k == 0 then 1 else 2 * Pow2(k - 1)
  }

  function ShiftLeft(x: nat, k: nat): nat { x * Pow2(k) }

  lemma QuotientIsNatural(x: nat, p: nat)
    requires p > 0
    ensures x / p >= 0
  {
  }

  function ShiftRight(x: nat, k: nat): nat {
    var p := Pow2(k);
    QuotientIsNatural(x, p);
    x / p
  }

  function BitOr(a: nat, b: nat): nat {
    if a == 0 && b == 0 then 0
    else (if a % 2 == 1 || b % 2 == 1 then 1 else 0) + 2 * BitOr(a / 2, b / 2)
  }

  function BitAnd(a: nat, b: nat): nat {
    if a == 0 || b == 0 then 0
    else (if a % 2 == 1 && b % 2 == 1 then 1 else 0) + 2 * BitAnd(a / 2, b / 2)
  }

  lemma {:induction false} BitOrZero(a: nat)
    ensures BitOr(a, 0) == a
  {
    if a != 0 {
      BitOrZero(a / 2);
    }
  }

  /** Fields that do not overlap are added by OR. */
  lemma {:induction false} OrOfDisjoint(high: nat, low: nat, k: nat)
    requires low < Pow2(k)
    ensures BitOr(high * Pow2(k), low) == high * Pow2(k) + low
  {
    if k == 0 {
      BitOrZero(high);
    } else {
      var a := high * Pow2(k);
      Halve(high, Pow2(k - 1));
      OrOfDisjoint(high, low / 2, k - 1);
      if a == 0 && low == 0 {
      } else {
        assert low == low / 2 * 2 + low % 2;
      }
    }
  }

  lemma Halve(high: nat, p: nat)
    ensures (high * (2 * p)) / 2 == high * p && (high * (2 * p)) % 2 == 0
  {
    assert high * (2 * p) == 2 * (high * p);
  }

  lemma AndStep(a: nat, p: nat)
    requires p > 0
    ensures BitAnd(a, 2 * p - 1) == a % 2 + 2 * BitAnd(a / 2, p - 1)
  {
    assert (2 * p - 1) / 2 == p - 1 && (2 * p - 1) % 2 == 1;
  }

  /** Bit `k` of a number. */
  function Bit(x: nat, k: nat): int {
    x / Pow2(k) % 2
  }

  lemma BitOfHalf(x: nat, k: nat)
    requires k > 0
    ensures Bit(x, k) == Bit(x / 2, k - 1)
  {
    var p := Pow2(k - 1);
    var q, r := x / 2 / p, x / 2 % p;
    assert x / 2 == q * p + r;
    assert q * (2 * p) == 2 * (q * p);
    DivModUnique(x, 2 * p, q, 2 * r + x % 2);
  }

  /** OR and AND work bit by bit. */
  lemma {:induction false} BitwiseExactly(a: nat, b: nat, k: nat)
    ensures Bit(BitOr(a, b), k) == 1 <==> Bit(a, k) == 1 || Bit(b, k) == 1
    ensures Bit(BitAnd(a, b), k) == 1 <==> Bit(a, k) == 1 && Bit(b, k) == 1
    decreases k
  {
    HalvesOfBitwise(a, b);
    if k == 0 {
      assert Pow2(0) == 1;
    } else {
      BitOfHalf(a, k);
      BitOfHalf(b, k);
      BitOfHalf(BitOr(a, b), k);
      BitOfHalf(BitAnd(a, b), k);
      BitwiseExactly(a / 2, b / 2, k - 1);
    }
  }

  lemma HalvesOfBitwise(a: nat, b: nat)
    ensures BitOr(a, b) / 2 == BitOr(a / 2, b / 2) && (BitOr(a, b) % 2 == 1 <==> a % 2 == 1 || b % 2 == 1)
    ensures BitAnd(a, b) / 2 == BitAnd(a / 2, b / 2) && (BitAnd(a, b) % 2 == 1 <==> a % 2 == 1 && b % 2 == 1)
  {
  }

  /** Masking with 2^k - 1 keeps the low k bits. */
  lemma {:induction false} AndOfMask(a: nat, k: nat)
    ensures BitAnd(a, Pow2(k) - 1) == a % Pow2(k)
  {
    if k > 0 {
      AndStep(a, Pow2(k - 1));
      AndOfMask(a / 2, k - 1);
      ModOfDouble(a, Pow2(k - 1));
    }
  }

  lemma ModOfDouble(a: nat, p: nat)
    requires p > 0
    ensures a % (2 * p) == a % 2 + 2 * (a / 2 % p)
  {
    var q, r := a / 2 / p, a / 2 % p;
    assert a / 2 == q * p + r;
    assert q * (2 * p) == 2 * (q * p);
    DivModUnique(a, 2 * p, q, 2 * r + a % 2);
  }

  lemma {:induction false} PowAdds(a: nat, b: nat, p: nat, q: nat)
    requires Pow2(a) == p && Pow2(b) == q
    ensures Pow2(a + b) == p * q
  {
    if a > 0 {
      PowAdds(a - 1, b, Pow2(a - 1), q);
      assert p * q == 2 * (Pow2(a - 1) * q);
    }
  }

  const P48: nat := 0x1_0000_0000_0000
  const P60: nat := 0x1000_0000_0000_0000
  const P62: nat := 0x4000_0000_0000_0000
  const P64: nat := 0x1_0000_0000_0000_0000
  const P74: nat := 0x400_0000_0000_0000_0000
  const P76: nat := 0x1000_0000_0000_0000_0000
  const P80: nat := 0x1_0000_0000_0000_0000_0000
  const P128: nat := 0x1_0000_0000_0000_0000_0000_0000_0000_0000

  lemma Powers()
    ensures Pow2(48) == P48 && Pow2(60) == P60 && Pow2(62) == P62 && Pow2(64) == P64
    ensures Pow2(74) == P74 && Pow2(76) == P76 && Pow2(80) == P80 && Pow2(128) == P128
  {
    assert Pow2(0) == 1;
    assert Pow2(1) == 2;
    PowAdds(1, 1, 2, 2);
    PowAdds(2, 2, 4, 4);
    PowAdds(4, 4, 0x10, 0x10);
    PowAdds(8, 2, 0x100, 4);
    PowAdds(8, 4, 0x100, 0x10);
    PowAdds(8, 8, 0x100, 0x100);
    PowAdds(16, 16, 0x1_0000, 0x1_0000);
    PowAdds(32, 16, 0x1_0000_0000, 0x1_0000);
    PowAdds(48, 12, P48, 0x1000);
    PowAdds(60, 2, P60, 4);
    PowAdds(62, 2, P62, 4);
    PowAdds(64, 10, P64, 0x400);
    PowAdds(64, 12, P64, 0x1000);
    PowAdds(64, 16, P64, 0x1_0000);
    PowAdds(64, 64, P64, P64);
  }

  // ----- Printing -----

  function HexDigit(d: nat): (c: char)
    requires d < 16
    ensures '0' <= c <= '9' || 'a' <= c <= 'f'
  {
    if d < 10 then '0' + d as char else 'a' + (d - 10) as char
  }

  function Hex(v: nat, width: nat): (s: string)
    ensures |s| == width
    ensures forall i | 0 <= i < |s| :: '0' <= s[i] <= '9' || 'a' <= s[i] <= 'f'
  {
    if width == 0 then "" else Hex(v / 16, width - 1) + [HexDigit(v % 16)]
  }

  /** Hyphens after the groups of the given sizes. */
  function Dashed(s: string, groups: seq<nat>): (t: string)
    ensures forall i | 0 <= i < |t| :: t[i] == '-' || t[i] in s
  {
    if groups == [] || |s| < groups[0] then s
    else s[..groups[0]] + ("-" + Dashed(s[groups[0]..], groups[1..]))
  }

  const GROUPS: seq<nat> := [8, 4, 4, 4]

  function Print(value: nat): string {
    Dashed(Hex(value, 32), GROUPS)
  }

  // ----- Minting -----

  /** The fields are written one after the other into one integer. */
  method Pack(milliseconds: nat, random: nat) returns (value: nat)
    requires random < P74
    ensures value == Packed(milliseconds, random)
  {
    value := WriteTime(milliseconds);
    value := WriteHighRandom(value, milliseconds * 16 + 7, random);
    var tail := LowRandom(random);
    value := WriteTail(value, (milliseconds * 16 + 7) * 4096 + random / P62, tail);
    PackedByGroups(milliseconds, random);
  }

  method WriteTime(milliseconds: nat) returns (value: nat)
    ensures value == (milliseconds * 16 + 7) * P76
  {
    PackHead(milliseconds);
    value := BitOr(ShiftLeft(milliseconds, 80), ShiftLeft(7, 76));
  }

  method WriteHighRandom(before: nat, ghost head: nat, random: nat) returns (value: nat)
    requires before == head * P76 && random < P74
    ensures value == (head * 4096 + random / P62) * P64
  {
    PackMiddle(head, random);
    value := BitOr(before, ShiftLeft(ShiftRight(random, 62), 64));
  }

  method LowRandom(random: nat) returns (tail: nat)
    ensures tail == 2 * P62 + random % P62 < P64
  {
    PackTail(random);
    tail := BitOr(ShiftLeft(2, 62), BitAnd(random, ShiftLeft(1, 62) - 1));
  }

  method WriteTail(before: nat, ghost upper: nat, tail: nat) returns (value: nat)
    requires before == upper * P64 && tail < P64
    ensures value == upper * P64 + tail
  {
    PackAll(upper, tail);
    value := BitOr(before, tail);
  }

  /** `str(UUID(int=value))` refuses a value of more than 128 bits. */
  method Uuid7(milliseconds: nat, random: nat) returns (id: Option<string>)
    requires random < P74
    ensures id == if milliseconds < P48 then Some(Print(Packed(milliseconds, random))) else None
  {
    var value := Pack(milliseconds, random);
    FitsIn128Bits(milliseconds, random);
    if value >= ShiftLeft(1, 128) {
      return None;
    }
    return Some(Print(value));
  }

  /** The fields side by side: 48 bits of time, version 7, 12 random bits, variant 2, 62 random bits. */
  function Packed(milliseconds: nat, random: nat): nat {
    milliseconds * P80 + 7 * P76 + random / P62 * P64 + 2 * P62 + random % P62
  }

  // The fields do not run into one another: each OR below is an addition.

  lemma PackHead(milliseconds: nat)
    ensures BitOr(ShiftLeft(milliseconds, 80), ShiftLeft(7, 76)) == (milliseconds * 16 + 7) * P76
  {
    Powers();
    OrOfDisjoint(milliseconds, 7 * P76, 80);
  }

  lemma PackMiddle(head: nat, random: nat)
    requires random < P74
    ensures BitOr(head * P76, ShiftLeft(ShiftRight(random, 62), 64)) == (head * 4096 + random / P62) * P64
  {
    Powers();
    OrOfDisjoint(head, random / P62 * P64, 76);
  }

  lemma PackTail(random: nat)
    ensures BitOr(ShiftLeft(2, 62), BitAnd(random, ShiftLeft(1, 62) - 1)) == 2 * P62 + random % P62
  {
    Powers();
    AndOfMask(random, 62);
    OrOfDisjoint(2, random % P62, 62);
  }

  lemma PackAll(upper: nat, lower: nat)
    requires lower < P64
    ensures BitOr(upper * P64, lower) == upper * P64 + lower
  {
    Powers();
    OrOfDisjoint(upper, lower, 64);
  }

  lemma PackedByGroups(milliseconds: nat, random: nat)
    ensures Packed(milliseconds, random) ==
            ((milliseconds * 16 + 7) * 4096 + random / P62) * P64 + (2 * P62 + random % P62)
  {
  }

  lemma FitsIn128Bits(milliseconds: nat, random: nat)
    requires random < P74
    ensures ShiftLeft(1, 128) == P128
    ensures Packed(milliseconds, random) < P128 <==> milliseconds < P48
  {
    Powers();
  }

  // ----- What a minted ID tells -----

  lemma UpperFields(milliseconds: nat, random: nat)
    requires random < P74
    ensures Packed(milliseconds, random) / P80 == milliseconds
    ensures Packed(milliseconds, random) / P76 == milliseconds * 16 + 7
  {
    var rest := random / P62 * P64 + 2 * P62 + random % P62;
    assert rest < P76;
    DivModUnique(Packed(milliseconds, random), P76, milliseconds * 16 + 7, rest);
    DivModUnique(Packed(milliseconds, random), P80, milliseconds, 7 * P76 + rest);
  }

  lemma LowerFields(milliseconds: nat, random: nat)
    requires random < P74
    ensures Packed(milliseconds, random) / P64 == (milliseconds * 16 + 7) * 4096 + random / P62
    ensures Packed(milliseconds, random) / P62 == ((milliseconds * 16 + 7) * 4096 + random / P62) * 4 + 2
    ensures Packed(milliseconds, random) % P62 == random % P62
  {
    var upper := (milliseconds * 16 + 7) * 4096 + random / P62;
    DivModUnique(Packed(milliseconds, random), P64, upper, 2 * P62 + random % P62);
    DivModUnique(Packed(milliseconds, random), P62, upper * 4 + 2, random % P62);
  }

  lemma ReadBack(v: nat, milliseconds: nat, random: nat)
    requires random < P74
    requires v / P76 == milliseconds * 16 + 7
    requires v / P64 == (milliseconds * 16 + 7) * 4096 + random / P62
    requires v / P62 == ((milliseconds * 16 + 7) * 4096 + random / P62) * 4 + 2
    requires v % P62 == random % P62
    ensures v / P76 % 16 == 7
    ensures v / P62 % 4 == 2
    ensures v / P64 % 4096 * P62 + v % P62 == random
  {
    var high := random / P62;
    var upper := (milliseconds * 16 + 7) * 4096 + high;
    DivModUnique(milliseconds * 16 + 7, 16, milliseconds, 7);
    DivModUnique(upper * 4 + 2, 4, upper, 2);
    DivModUnique(upper, 4096, milliseconds * 16 + 7, high);
  }

  /** Both inputs can be read back, and the version and variant fields hold 7 and 2. */
  lemma FieldsOfPacked(milliseconds: nat, random: nat)
    requires random < P74
    ensures var v := Packed(milliseconds, random);
            && v / P80 == milliseconds
            && v / P76 % 16 == 7
            && v / P62 % 4 == 2
            && v / P64 % 4096 * P62 + v % P62 == random
  {
    UpperFields(milliseconds, random);
    LowerFields(milliseconds, random);
    ReadBack(Packed(milliseconds, random), milliseconds, random);
  }

  lemma VariantDigit(v: nat, upper: nat, low: nat)
    requires v == upper * P64 + 2 * P62 + low && low < P62
    ensures 8 <= v / P60 % 16 < 12
  {
    DivModUnique(v, P60, upper * 16 + 8 + low / P60, low % P60);
    DivModUnique(upper * 16 + 8 + low / P60, 16, upper, 8 + low / P60);
  }

  /** The packed value orders first by time and then by the random bits. */
  lemma PackedOrder(ms: nat, r: nat, ms': nat, r': nat)
    requires r < P74 && r' < P74
    ensures Packed(ms, r) < Packed(ms', r') <==> ms < ms' || (ms == ms' && r < r')
  {
  }

  lemma DigitwiseOrder(v: nat, w: nat)
    ensures v < w <==> v / 16 < w / 16 || (v / 16 == w / 16 && v % 16 < w % 16)
    ensures Less([HexDigit(v % 16)], [HexDigit(w % 16)]) <==> v % 16 < w % 16
  {
  }

  /** Fixed-width hexadecimal text orders like the numbers it spells. */
  lemma {:induction false} HexOrder(v: nat, w: nat, width: nat, bound: nat)
    requires bound == Pow2(4 * width) && v < bound && w < bound
    ensures Less(Hex(v, width), Hex(w, width)) <==> v < w
  {
    if width > 0 {
      Powers16(width);
      DigitwiseOrder(v, w);
      HexOrder(v / 16, w / 16, width - 1, Pow2(4 * (width - 1)));
      HexInjective(v / 16, w / 16, width - 1, Pow2(4 * (width - 1)));
      LessConcat(Hex(v / 16, width - 1), [HexDigit(v % 16)], Hex(w / 16, width - 1), [HexDigit(w % 16)]);
    }
  }

  lemma Powers16(width: nat)
    requires width > 0
    ensures Pow2(4 * width) == 16 * Pow2(4 * (width - 1))
  {
    PowFourSteps(4 * (width - 1));
    assert 4 * (width - 1) + 4 == 4 * width;
  }

  lemma PowFourSteps(k: nat)
    ensures Pow2(k + 4) == 16 * Pow2(k)
  {
    PowStep(k);
    PowStep(k + 1);
    PowStep(k + 2);
    PowStep(k + 3);
  }

  lemma PowStep(k: nat)
    ensures Pow2(k + 1) == 2 * Pow2(k)
  {
  }

  lemma {:induction false} HexInjective(v: nat, w: nat, width: nat, bound: nat)
    requires bound == Pow2(4 * width) && v < bound && w < bound
    ensures Hex(v, width) == Hex(w, width) <==> v == w
  {
    if width > 0 && Hex(v, width) == Hex(w, width) {
      Powers16(width);
      var a, b := Hex(v / 16, width - 1), Hex(w / 16, width - 1);
      assert a == Hex(v, width)[..width - 1] && b == Hex(w, width)[..width - 1];
      assert HexDigit(v % 16) == Hex(v, width)[width - 1] && HexDigit(w % 16) == Hex(w, width)[width - 1];
      HexInjective(v / 16, w / 16, width - 1, Pow2(4 * (width - 1)));
    }
  }

  lemma {:induction false} DashedOrder(s: string, t: string, groups: seq<nat>)
    requires |s| == |t|
    ensures Less(Dashed(s, groups), Dashed(t, groups)) <==> Less(s, t)
    ensures Dashed(s, groups) == Dashed(t, groups) <==> s == t
  {
    if groups != [] && groups[0] <= |s| {
      var g := groups[0];
      DashedOrder(s[g..], t[g..], groups[1..]);
      DashKeepsOrder(s[..g], s[g..], t[..g], t[g..], Dashed(s[g..], groups[1..]), Dashed(t[g..], groups[1..]));
      assert s == s[..g] + s[g..] && t == t[..g] + t[g..];
    }
  }

  /** A hyphen between equally long heads and tails changes neither order nor equality. */
  lemma DashKeepsOrder(a: string, x: string, b: string, y: string, x': string, y': string)
    requires |a| == |b|
    requires Less(x', y') <==> Less(x, y)
    requires x' == y' <==> x == y
    ensures Less(a + ("-" + x'), b + ("-" + y')) <==> Less(a + x, b + y)
    ensures a + ("-" + x') == b + ("-" + y') <==> a + x == b + y
  {
    LessConcat(a, "-" + x', b, "-" + y');
    LessConcat("-", x', "-", y');
    LessConcat(a, x, b, y);
    LessIrreflexive("-");
    SameHeads(a, x, b, y);
    SameHeads(a, "-" + x', b, "-" + y');
    SameHeads("-", x', "-", y');
  }

  lemma SameHeads(a: string, x: string, b: string, y: string)
    requires |a| == |b|
    ensures a + x == b + y <==> a == b && x == y
  {
    assert (a + x)[..|a|] == a && (b + y)[..|b|] == b && (a + x)[|a|..] == x && (b + y)[|b|..] == y;
  }

  /** Printed IDs sort by time first and random bits second; different inputs print differently. */
  lemma MintedOrder(ms: nat, r: nat, ms': nat, r': nat)
    requires ms < P48 && ms' < P48 && r < P74 && r' < P74
    ensures var id, id' := Print(Packed(ms, r)), Print(Packed(ms', r'));
            && (Less(id, id') <==> ms < ms' || (ms == ms' && r < r'))
            && (id == id' <==> ms == ms' && r == r')
  {
    var v, v' := Packed(ms, r), Packed(ms', r');
    Powers();
    PackedOrder(ms, r, ms', r');
    PackedOrder(ms', r', ms, r);
    HexOrder(v, v', 32, P128);
    HexInjective(v, v', 32, P128);
    DashedOrder(Hex(v, 32), Hex(v', 32), GROUPS);
  }

  lemma DivDiv(v: nat, p: nat)
    requires p > 0
    ensures v / 16 / p == v / (16 * p)
  {
    var q, r := v / 16 / p, v / 16 % p;
    assert v / 16 == q * p + r;
    assert q * (16 * p) == 16 * (q * p);
    DivModUnique(v, 16 * p, q, 16 * r + v % 16);
  }

  /** Which digit of the printed number each position shows. */
  lemma {:induction false} HexAt(v: nat, width: nat, i: nat)
    requires i < width
    ensures Hex(v, width)[i] == HexDigit(v / Pow2(4 * (width - 1 - i)) % 16)
  {
    if i < width - 1 {
      HexAt(v / 16, width - 1, i);
      Powers16(width - 1 - i);
      DivDiv(v, Pow2(4 * (width - 2 - i)));
    } else {
      assert Pow2(0) == 1;
    }
  }

  /** The version and variant digits stand where section 4 of RFC 9562 puts them. */
  lemma PrintedVersionAndVariant(milliseconds: nat, random: nat)
    requires milliseconds < P48 && random < P74
    ensures var id := Print(Packed(milliseconds, random));
            && |id| == 36
            && id[8] == id[13] == id[18] == id[23] == '-'
            && id[14] == '7' && id[19] in "89ab"
  {
    DigitsTwelveAndSixteen(milliseconds, random);
    DashedPositions(Hex(Packed(milliseconds, random), 32));
  }

  lemma DigitsTwelveAndSixteen(milliseconds: nat, random: nat)
    requires random < P74
    ensures Hex(Packed(milliseconds, random), 32)[12] == '7'
    ensures Hex(Packed(milliseconds, random), 32)[16] in "89ab"
  {
    var v := Packed(milliseconds, random);
    DigitAt(v, 32, 12, P76);
    DigitAt(v, 32, 16, P60);
    FieldsOfPacked(milliseconds, random);
    VariantDigit(v, (milliseconds * 16 + 7) * 4096 + random / P62, random % P62);
    VariantCharacter(v / P60 % 16);
  }

  lemma VariantCharacter(d: nat)
    requires 8 <= d < 12
    ensures HexDigit(d) in "89ab"
  {
    assert d == 8 || d == 9 || d == 10 || d == 11;
    assert "89ab"[d - 8] == HexDigit(d);
  }

  lemma DigitAt(v: nat, width: nat, i: nat, p: nat)
    requires (i == 12 && p == P76) || (i == 16 && p == P60)
    requires width == 32
    ensures Hex(v, width)[i] == HexDigit(v / p % 16)
  {
    Powers();
    HexAt(v, width, i);
  }

  lemma DashedPositions(h: string)
    requires |h| == 32
    ensures var id := Dashed(h, GROUPS);
            && |id| == 36
            && id[8] == id[13] == id[18] == id[23] == '-'
            && id[14] == h[12] && id[19] == h[16]
  {
    var a, b, c, d := h[8..], h[8..][4..], h[8..][4..][4..], h[8..][4..][4..][4..];
    assert Dashed(d, []) == d;
    assert GROUPS[1..][1..][1..] == [4] && GROUPS[1..][1..] == [4, 4] && GROUPS[1..] == [4, 4, 4];
    assert Dashed(c, [4]) == c[..4] + ("-" + Dashed(d, []));
    assert Dashed(b, [4, 4]) == b[..4] + ("-" + Dashed(c, [4]));
    assert Dashed(a, [4, 4, 4]) == a[..4] + ("-" + Dashed(b, [4, 4]));
  }

  /** The text is the 32 digits in five groups, and each digit is that of its place. */
  lemma PrintedExactly(value: nat, i: nat)
    requires i < 32
    ensures var h := Hex(value, 32);
            Print(value) == h[..8] + "-" + h[8..12] + "-" + h[12..16] + "-" + h[16..20] + "-" + h[20..]
    ensures Hex(value, 32)[i] == "0123456789abcdef"[value / Pow2(4 * (31 - i)) % 16]
  {
    HexAt(value, 32, i);
    DigitExactly(value / Pow2(4 * (31 - i)) % 16);
    GroupsExactly(Hex(value, 32));
  }

  lemma DigitExactly(d: nat)
    requires d < 16
    ensures HexDigit(d) == "0123456789abcdef"[d]
  {
  }

  lemma GroupsExactly(h: string)
    requires |h| == 32
    ensures Dashed(h, GROUPS) == h[..8] + "-" + h[8..12] + "-" + h[12..16] + "-" + h[16..20] + "-" + h[20..]
  {
    var a, b, c, d := h[8..], h[12..], h[16..], h[20..];
    assert a[4..] == b && b[4..] == c && c[4..] == d;
    assert GROUPS[1..][1..][1..] == [4] && GROUPS[1..][1..] == [4, 4] && GROUPS[1..] == [4, 4, 4];
    assert Dashed(d, []) == d;
    assert Dashed(c, [4]) == c[..4] + ("-" + d);
    assert Dashed(b, [4, 4]) == b[..4] + ("-" + Dashed(c, [4]));
    assert Dashed(a, [4, 4, 4]) == a[..4] + ("-" + Dashed(b, [4, 4]));
    assert a[..4] == h[8..12] && b[..4] == h[12..16] && c[..4] == h[16..20];
  }

  // ----- Validation -----

  ghost predicate ValidEffectId(id: string) {
    && 1 <= Utf8Length(id) <= 128
    && id[0] != ' ' && id[|id| - 1] != ' '
    && forall i | 0 <= i < |id| :: 32 <= id[i] as int != 127
  }

  /** The check on bytes, as the code makes it. */
  method ValidateEffectId(id: string) returns (ok: bool)
    ensures ok <==> ValidEffectId(id)
    ensures ok <==>
            && Fits(id, 128) && !(" " <= id) && id[|id| - 1] != ' '
            && forall b | b in Utf8Encode(id) :: 32 <= b && b != 127
  {
    EmptyFits(id);
    var encoded := Utf8Encode(id);
    if !(1 <= |encoded| <= 128) {
      return false;
    }
    if id[0] == ' ' || id[|id| - 1] == ' ' {
      return false;
    }
    for k := 0 to |encoded|
      invariant forall j | 0 <= j < k :: 32 <= encoded[j] != 127
    {
      if encoded[k] < 32 || encoded[k] == 127 {
        ControlByteIsCharacter(id, encoded[k]);
        return false;
      }
    }
    forall i | 0 <= i < |id| ensures 32 <= id[i] as int != 127 {
      if id[i] as int < 0x80 {
        AsciiBytesAreCharacters(id, id[i] as int);
      }
    }
    return true;
  }

  lemma ControlByteIsCharacter(id: string, b: int)
    requires b in Utf8Encode(id) && (b < 32 || b == 127)
    ensures !ValidEffectId(id)
  {
    Utf8BytesAreNatural(id);
    AsciiBytesAreCharacters(id, b);
  }

  lemma {:induction false} Utf8BytesAreNatural(s: string)
    ensures forall b | b in Utf8Encode(s) :: 0 <= b < 256
  {
    if s != "" {
      Utf8BytesAreNatural(s[1..]);
    }
  }

  /** Every ID the SDK mints passes the check it applies to IDs chosen by callers. */
  lemma MintedIsValid(milliseconds: nat, random: nat)
    requires milliseconds < P48 && random < P74
    ensures ValidEffectId(Print(Packed(milliseconds, random)))
  {
    var id := Print(Packed(milliseconds, random));
    PrintedVersionAndVariant(milliseconds, random);
    AsciiLength(id);
  }
}
