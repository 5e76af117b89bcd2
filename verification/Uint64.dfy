/** Decimal text of a 64-bit unsigned number. */
module Uint64 {
  import opened Arithmetic
  import opened Wrappers

  const UINT64_MAX: nat := 0xFFFF_FFFF_FFFF_FFFF

  predicate Digits(s: string) {
    forall i | 0 <= i < |s| :: '0' <= s[i] <= '9'
  }

  /** The number a digit string spells. */
  function DecimalValue(s: string): nat
    requires Digits(s)
  {
    if s == "" then 0 else DecimalValue(s[..|s| - 1]) * 10 + (s[|s| - 1] as int - '0' as int)
  }

  function StripZeros(s: string): (t: string)
    ensures Digits(s) ==> Digits(t)
    ensures t != "" ==> t[0] != '0'
  {
    if s != "" && s[0] == '0' then StripZeros(s[1..]) else s
  }

  /** Leading zeros are dropped before the length check, so no text in range is refused for its length. */
  function ParseUint64(value: string): Option<nat> {
    if value == "" || !Digits(value) then None
    else
      var stripped := StripZeros(value);
      var normalized := if stripped == "" then "0" else stripped;
      if |normalized| > 20 || DecimalValue(normalized) > UINT64_MAX then None
      else Some(DecimalValue(normalized))
  }

  function Pow10(k: nat): (p: nat)
    ensures p > 0
  {
    if k == 0 then 1 else 10 * Pow10(k - 1)
  }

  lemma {:induction false} LeadingZero(s: string)
    requires s != "" && s[0] == '0' && Digits(s)
    ensures DecimalValue(s) == DecimalValue(s[1..])
  {
    if |s| > 1 {
      var shorter := s[..|s| - 1];
      LeadingZero(shorter);
      assert shorter[1..] == s[1..][..|s| - 2];
    } else {
      assert s[..0] == "" && s[1..] == "";
    }
  }

  lemma {:induction false} StripKeepsValue(s: string)
    requires Digits(s)
    ensures DecimalValue(StripZeros(s)) == DecimalValue(s)
  {
    if s != "" && s[0] == '0' {
      LeadingZero(s);
      StripKeepsValue(s[1..]);
    }
  }

  /** A first digit other than zero makes the number at least a power of ten. */
  lemma {:induction false} ValueIsLarge(s: string)
    requires s != "" && s[0] != '0' && Digits(s)
    ensures DecimalValue(s) >= Pow10(|s| - 1)
  {
    if |s| > 1 {
      ValueIsLarge(s[..|s| - 1]);
    } else {
      assert s[..0] == "";
    }
  }

  lemma {:induction false} Pow10Grows(k: nat, n: nat)
    requires k <= n
    ensures Pow10(k) <= Pow10(n)
  {
    if k < n {
      Pow10Grows(k, n - 1);
    }
  }

  lemma TwentyOneDigitsOverflow(k: nat)
    requires k >= 20
    ensures Pow10(k) > UINT64_MAX
  {
    Pow10Grows(20, k);
    assert Pow10(5) == 100000 by { assert Pow10(2) == 100; }
    assert Pow10(10) == 10000000000 by { assert Pow10(7) == 10000000; }
    assert Pow10(15) == 1000000000000000 by { assert Pow10(12) == 1000000000000; }
    assert Pow10(20) == 100000000000000000000 by { assert Pow10(17) == 100000000000000000; }
  }

  /** Parsing is exact: it yields n precisely for nonempty digit texts that spell n in range. */
  lemma ParsesExactly(value: string, n: nat)
    ensures ParseUint64(value) == Some(n) <==>
            value != "" && Digits(value) && DecimalValue(value) == n && n <= UINT64_MAX
  {
    if value != "" && Digits(value) {
      var stripped := StripZeros(value);
      StripKeepsValue(value);
      if stripped == "" {
        assert DecimalValue("0") == 0 by { assert "0"[..0] == ""; }
      } else if |stripped| > 20 {
        ValueIsLarge(stripped);
        TwentyOneDigitsOverflow(|stripped| - 1);
      }
    }
  }

  /** The decimal text of a number. */
  function Decimal(n: nat): (s: string)
    ensures s != ""
  {
    (if n < 10 then "" else Decimal(n / 10)) + ['0' + (n % 10) as char]
  }

  lemma AppendDigit(t: string, c: char)
    requires Digits(t) && '0' <= c <= '9'
    ensures Digits(t + [c]) && DecimalValue(t + [c]) == 10 * DecimalValue(t) + (c as int - 48)
  {
    assert (t + [c])[..|t|] == t;
  }

  lemma {:induction false} DecimalSpells(n: nat)
    ensures Digits(Decimal(n)) && DecimalValue(Decimal(n)) == n
  {
    var higher := if n < 10 then "" else Decimal(n / 10);
    if n >= 10 {
      DecimalSpells(n / 10);
    }
    AppendDigit(higher, '0' + (n % 10) as char);
  }

  lemma {:induction false} ZerosSpellNothing(zeros: string, t: string)
    requires Digits(t) && forall i | 0 <= i < |zeros| :: zeros[i] == '0'
    ensures Digits(zeros + t) && DecimalValue(zeros + t) == DecimalValue(t)
  {
    if zeros == "" {
      assert zeros + t == t;
    } else {
      ZerosSpellNothing(zeros[1..], t);
      assert (zeros + t)[1..] == zeros[1..] + t;
      LeadingZero(zeros + t);
    }
  }

  /** Parsing undoes printing, with any number of leading zeros, up to 2^64 - 1 and no further. */
  lemma PrintedParses(n: nat, zeros: string)
    requires forall i | 0 <= i < |zeros| :: zeros[i] == '0'
    ensures ParseUint64(zeros + Decimal(n)) == if n <= 0xFFFF_FFFF_FFFF_FFFF then Some(n) else None
  {
    DecimalSpells(n);
    ZerosSpellNothing(zeros, Decimal(n));
    var parsed := ParseUint64(zeros + Decimal(n));
    ParsesExactly(zeros + Decimal(n), n);
    if parsed.Some? {
      ParsesExactly(zeros + Decimal(n), parsed.value);
    }
  }

  lemma DecimalStep(q: nat, c: char)
    requires q > 0 && '0' <= c <= '9'
    ensures Decimal(10 * q + (c as int - 48)) == Decimal(q) + [c]
  {
    var d := c as int - 48;
    DivModUnique(10 * q + d, 10, q, d);
    CharOfDigit(c);
  }

  /** Without leading zeros there is one text of a number. */
  lemma {:induction false} OneDecimal(t: string)
    requires Digits(t) && t != "" && (t[0] != '0' || |t| == 1)
    ensures t == Decimal(DecimalValue(t))
  {
    var higher, last := t[..|t| - 1], t[|t| - 1];
    assert t == higher + [last];
    if higher == "" {
      OneDigit(last);
    } else {
      OneDecimal(higher);
      ValueIsLarge(higher);
      StepOfText(higher, last);
    }
  }

  lemma CharOfDigit(c: char)
    requires '0' <= c <= '9'
    ensures '0' + (c as int - 48) as char == c
  {
  }

  lemma SmallDecimal(d: nat)
    requires d < 10
    ensures Decimal(d) == ['0' + d as char]
  {
  }

  lemma OneDigit(c: char)
    requires '0' <= c <= '9'
    ensures Digits([c]) && [c] == Decimal(DecimalValue([c]))
  {
    var d := c as int - 48;
    AppendDigit("", c);
    assert "" + [c] == [c] && DecimalValue([c]) == d;
    SmallDecimal(d);
    CharOfDigit(c);
  }

  lemma StepOfText(t: string, c: char)
    requires Digits(t) && '0' <= c <= '9' && DecimalValue(t) > 0 && t == Decimal(DecimalValue(t))
    ensures Digits(t + [c]) && t + [c] == Decimal(DecimalValue(t + [c]))
  {
    AppendDigit(t, c);
    DecimalStep(DecimalValue(t), c);
  }

  ghost predicate Zeros(s: string) {
    forall i | 0 <= i < |s| :: s[i] == '0'
  }

  lemma {:induction false} StripSplits(s: string) returns (zeros: string)
    ensures s == zeros + StripZeros(s) && Zeros(zeros)
  {
    if s != "" && s[0] == '0' {
      var rest := StripSplits(s[1..]);
      zeros := "0" + rest;
      assert s == "0" + s[1..];
    } else {
      zeros := "";
    }
  }

  /** What parses is the decimal text of the number behind any number of zeros, and nothing else. */
  lemma ParsesPrinted(value: string, n: nat)
    ensures ParseUint64(value) == Some(n) <==>
            n <= 0xFFFF_FFFF_FFFF_FFFF && exists zeros :: Zeros(zeros) && value == zeros + Decimal(n)
  {
    if ParseUint64(value) == Some(n) {
      ParsesExactly(value, n);
      var zeros := StripSplits(value);
      var t := StripZeros(value);
      StripKeepsValue(value);
      if t == "" {
        assert Zeros(value[..|value| - 1]) && value == value[..|value| - 1] + "0";
        assert DecimalValue("") == 0 && Decimal(0) == "0";
      } else {
        OneDecimal(t);
      }
    }
    forall zeros | Zeros(zeros) && value == zeros + Decimal(n) && n <= 0xFFFF_FFFF_FFFF_FFFF
      ensures ParseUint64(value) == Some(n)
    {
      PrintedParses(n, zeros);
    }
  }
}
