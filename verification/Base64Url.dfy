/** Unpadded base64url (section 5 of RFC 4648) and the two-segment token built from it. */
module Base64Url {
  import opened Arithmetic
  import opened Wrappers
  import opened Text

  type Byte = x: int | 0 <= x < 256
  type Sextet = x: int | 0 <= x < 64

  const MAX_TOKEN_BYTES: nat := 32 * 1024
  const ED25519_SIGNATURE_SIZE: nat := 64

  // ----- Alphabet -----

  function CharOf(v: Sextet): (c: char)
    ensures c as int < 0x80 && c != '=' && c != '.'
  {
    if v < 26 then 'A' + v as char
    else if v < 52 then 'a' + (v - 26) as char
    else if v < 62 then '0' + (v - 52) as char
    else if v == 62 then '-' else '_'
  }

  /** The decoder first maps '-' and '_' to '+' and '/', so it takes both alphabets. */
  function SextetOf(c: char): Option<Sextet> {
    if 'A' <= c <= 'Z' then Some(c as int - 'A' as int)
    else if 'a' <= c <= 'z' then Some(c as int - 'a' as int + 26)
    else if '0' <= c <= '9' then Some(c as int - '0' as int + 52)
    else if c == '-' || c == '+' then Some(62)
    else if c == '_' || c == '/' then Some(63)
    else None
  }

  const UPPER := "ABCDEFGHIJKLMNOPQRSTUVWXYZ"
  const LOWER := "abcdefghijklmnopqrstuvwxyz"
  const OTHERS := "0123456789-_"

  /** Table 2 of section 5 of RFC 4648. */
  function Alphabet(v: Sextet): char {
    if v < 26 then UPPER[v] else if v < 52 then LOWER[v - 26] else OTHERS[v - 52]
  }

  lemma CharIsInTable(v: Sextet)
    ensures CharOf(v) == Alphabet(v)
  {
    if v < 26 {
      UpperAt(v);
    } else if v < 52 {
      LowerAt(v - 26);
    } else {
      OtherAt(v - 52);
    }
  }

  lemma UpperAt(k: nat)
    requires k < 26
    ensures UPPER[k] == 'A' + k as char
  {
  }

  lemma LowerAt(k: nat)
    requires k < 26
    ensures LOWER[k] == 'a' + k as char
  {
  }

  lemma OtherAt(k: nat)
    requires k < 12
    ensures OTHERS[k] == if k < 10 then '0' + k as char else if k == 10 then '-' else '_'
  {
  }

  /** The decoder reads the table, and '+' and '/' for its last two characters. */
  lemma SextetExactly(c: char, v: Sextet)
    ensures SextetOf(c) == Some(v) <==> c == Alphabet(v) || (v == 62 && c == '+') || (v == 63 && c == '/')
  {
    CharIsInTable(v);
  }

  lemma SextetOfChar(v: Sextet)
    ensures SextetOf(CharOf(v)) == Some(v)
  {
  }

  // ----- Encoder -----

  function EncodePadded(raw: seq<Byte>): string {
    if |raw| == 0 then ""
    else if |raw| == 1 then
      [CharOf(raw[0] / 4), CharOf(raw[0] % 4 * 16), '=', '=']
    else if |raw| == 2 then
      [CharOf(raw[0] / 4), CharOf(raw[0] % 4 * 16 + raw[1] / 16), CharOf(raw[1] % 16 * 4), '=']
    else
      Quad(raw[0], raw[1], raw[2]) + EncodePadded(raw[3..])
  }

  function Quad(a: Byte, b: Byte, c: Byte): (q: string)
    ensures |q| == 4
  {
    [CharOf(a / 4), CharOf(a % 4 * 16 + b / 16), CharOf(b % 16 * 4 + c / 64), CharOf(c % 64)]
  }

  function StripPadding(s: string): (t: string) {
    if s == "" || s[|s| - 1] != '=' then s else StripPadding(s[..|s| - 1])
  }

  function Encode(raw: seq<Byte>): string {
    StripPadding(EncodePadded(raw))
  }

  // ----- Decoder -----

  /**
   * The non-strict base64 reader: `quad` counts the characters of the current group, `left` holds
   * their undelivered bits and `pads` the padding seen since the last data character. Characters
   * outside the alphabet are skipped, and a completed padding ends the input.
   */
  function Read(s: string, quad: nat, left: int, pads: nat): Option<seq<Byte>>
    requires quad < 4 && 0 <= left
    requires left < [1, 64, 16, 4][quad]
  {
    if s == "" then
      if quad == 0 then Some([]) else None
    else if s[0] == '=' then
      if quad >= 2 && quad + pads + 1 >= 4 then Some([])
      else Read(s[1..], quad, left, if quad >= 2 then pads + 1 else pads)
    else
      match SextetOf(s[0])
      case None => Read(s[1..], quad, left, pads)
      case Some(v) =>
        if quad == 0 then Read(s[1..], 1, v, 0)
        else if quad == 1 then Emit(left * 4 + v / 16, Read(s[1..], 2, v % 16, 0))
        else if quad == 2 then Emit(left * 16 + v / 4, Read(s[1..], 3, v % 4, 0))
        else Emit(left * 64 + v, Read(s[1..], 0, 0, 0))
  }

  function Emit(b: Byte, rest: Option<seq<Byte>>): Option<seq<Byte>> {
    match rest
    case None => None
    case Some(bytes) => Some([b] + bytes)
  }

  /** The padding that fills n characters up to a multiple of four. */
  function Padding(n: nat): (pad: string)
    ensures (n + |pad|) % 4 == 0 && |pad| < 4
    ensures forall i | 0 <= i < |pad| :: pad[i] == '='
  {
    match n % 4
    case 0 => ""
    case 1 => "==="
    case 2 => "=="
    case _ => "="
  }

  /** Decoding pads to a multiple of four first; text outside ASCII is refused. */
  function Decode(segment: string): Option<seq<Byte>> {
    if exists i | 0 <= i < |segment| :: segment[i] as int >= 0x80 then None
    else Read(segment + Padding(|segment|), 0, 0, 0)
  }

  /** Decoding with the re-encode check that refuses every second spelling. */
  function DecodeCanonical(segment: string): Option<seq<Byte>> {
    match Decode(segment)
    case None => None
    case Some(raw) => if Encode(raw) == segment then Some(raw) else None
  }

  // ----- The codec is a bijection onto canonical text -----

  /** What one data character does to the reader's state. */
  lemma ReadChar(v: Sextet, rest: string, quad: nat, left: int, pads: nat)
    requires quad < 4 && 0 <= left < [1, 64, 16, 4][quad]
    ensures Read([CharOf(v)] + rest, quad, left, pads) ==
            if quad == 0 then Read(rest, 1, v, 0)
            else if quad == 1 then Emit(left * 4 + v / 16, Read(rest, 2, v % 16, 0))
            else if quad == 2 then Emit(left * 16 + v / 4, Read(rest, 3, v % 4, 0))
            else Emit(left * 64 + v, Read(rest, 0, 0, 0))
  {
    SextetOfChar(v);
    assert ([CharOf(v)] + rest)[1..] == rest;
  }

  lemma JoinBytes(a: Byte, b: Byte, c: Byte)
    ensures var v1, v2 := a % 4 * 16 + b / 16, b % 16 * 4 + c / 64;
            && a / 4 * 4 + v1 / 16 == a && v1 % 16 * 16 + v2 / 4 == b && v2 % 4 * 64 + c % 64 == c
            && v1 < 64 && v2 < 64
  {
    DivModUnique(a % 4 * 16 + b / 16, 16, a % 4, b / 16);
    DivModUnique(b % 16 * 4 + c / 64, 4, b % 16, c / 64);
  }

  lemma ReadQuad(a: Byte, b: Byte, c: Byte, rest: string)
    ensures Read(Quad(a, b, c) + rest, 0, 0, 0) == Emit(a, Emit(b, Emit(c, Read(rest, 0, 0, 0))))
  {
    JoinBytes(a, b, c);
    ReadFour(a / 4, a % 4 * 16 + b / 16, b % 16 * 4 + c / 64, c % 64, rest);
    assert Quad(a, b, c) == [CharOf(a / 4), CharOf(a % 4 * 16 + b / 16), CharOf(b % 16 * 4 + c / 64), CharOf(c % 64)];
  }

  lemma ReadFour(v0: Sextet, v1: Sextet, v2: Sextet, v3: Sextet, rest: string)
    ensures Read([CharOf(v0), CharOf(v1), CharOf(v2), CharOf(v3)] + rest, 0, 0, 0) ==
            Emit(v0 * 4 + v1 / 16, Emit(v1 % 16 * 16 + v2 / 4, Emit(v2 % 4 * 64 + v3, Read(rest, 0, 0, 0))))
  {
    var t3 := [CharOf(v3)] + rest;
    var t2 := [CharOf(v2)] + t3;
    var t1 := [CharOf(v1)] + t2;
    assert [CharOf(v0), CharOf(v1), CharOf(v2), CharOf(v3)] + rest == [CharOf(v0)] + t1;
    ReadChar(v0, t1, 0, 0, 0);
    ReadChar(v1, t2, 1, v0, 0);
    ReadChar(v2, t3, 2, v1 % 16, 0);
    ReadChar(v3, rest, 3, v2 % 4, 0);
  }

  /** The bits left over in a group's last character never reach the output. */
  lemma ReadOne(a: Byte, spare: int)
    requires 0 <= spare < 16
    ensures Read([CharOf(a / 4), CharOf(a % 4 * 16 + spare), '=', '='], 0, 0, 0) == Some([a])
  {
    var v1: Sextet := a % 4 * 16 + spare;
    DivModUnique(v1, 16, a % 4, spare);
    ReadChar(a / 4, [CharOf(v1)] + "==", 0, 0, 0);
    ReadChar(v1, "==", 1, a / 4, 0);
    assert "=="[1..] == "=";
    assert Read("=", 2, v1 % 16, 1) == Some([]);
    assert Read("==", 2, v1 % 16, 0) == Some([]);
    assert a / 4 * 4 + v1 / 16 == a && [a] + [] == [a];
    assert [CharOf(a / 4), CharOf(v1), '=', '='] == [CharOf(a / 4)] + ([CharOf(v1)] + "==");
  }

  lemma ReadTwo(a: Byte, b: Byte)
    ensures Read([CharOf(a / 4), CharOf(a % 4 * 16 + b / 16), CharOf(b % 16 * 4), '='], 0, 0, 0) == Some([a, b])
  {
    var v1: Sextet, v2: Sextet := a % 4 * 16 + b / 16, b % 16 * 4;
    DivModUnique(v1, 16, a % 4, b / 16);
    DivModUnique(v2, 4, b % 16, 0);
    var t2 := [CharOf(v2)] + "=";
    var t1 := [CharOf(v1)] + t2;
    ReadChar(a / 4, t1, 0, 0, 0);
    ReadChar(v1, t2, 1, a / 4, 0);
    ReadChar(v2, "=", 2, v1 % 16, 0);
    assert Read("=", 3, v2 % 4, 0) == Some([]);
    assert a / 4 * 4 + v1 / 16 == a && v1 % 16 * 16 + v2 / 4 == b && [a] + ([b] + []) == [a, b];
    assert [CharOf(a / 4), CharOf(v1), CharOf(v2), '='] == [CharOf(a / 4)] + t1;
  }

  lemma EmitThree(raw: seq<Byte>)
    requires |raw| > 2
    ensures Emit(raw[0], Emit(raw[1], Emit(raw[2], Some(raw[3..])))) == Some(raw)
  {
    assert raw == [raw[0]] + ([raw[1]] + ([raw[2]] + raw[3..]));
  }

  lemma {:induction false} ReadEncodePadded(raw: seq<Byte>)
    ensures Read(EncodePadded(raw), 0, 0, 0) == Some(raw)
  {
    if |raw| == 1 {
      ReadOne(raw[0], 0);
      assert raw == [raw[0]];
    } else if |raw| == 2 {
      ReadTwo(raw[0], raw[1]);
      assert raw == [raw[0], raw[1]];
    } else if |raw| > 2 {
      ReadEncodePadded(raw[3..]);
      ReadQuad(raw[0], raw[1], raw[2], EncodePadded(raw[3..]));
      EmitThree(raw);
    }
  }

  lemma EncodeQuad(raw: seq<Byte>)
    requires |raw| > 2
    ensures Encode(raw) == Quad(raw[0], raw[1], raw[2]) + Encode(raw[3..])
  {
    StripSuffix(Quad(raw[0], raw[1], raw[2]), EncodePadded(raw[3..]));
  }

  lemma EncodeOne(a: Byte)
    ensures Encode([a]) == [CharOf(a / 4), CharOf(a % 4 * 16)]
  {
    var t := [CharOf(a / 4), CharOf(a % 4 * 16)];
    assert EncodePadded([a]) == t + "==";
    StripTail(t);
  }

  lemma EncodeTwo(a: Byte, b: Byte)
    ensures Encode([a, b]) == [CharOf(a / 4), CharOf(a % 4 * 16 + b / 16), CharOf(b % 16 * 4)]
  {
    var t := [CharOf(a / 4), CharOf(a % 4 * 16 + b / 16), CharOf(b % 16 * 4)];
    assert EncodePadded([a, b]) == t + "=";
    StripTail(t);
  }

  lemma StripTail(t: string)
    requires t != "" && t[|t| - 1] != '='
    ensures StripPadding(t + "=") == t && StripPadding(t + "==") == t
  {
    assert (t + "==")[..|t| + 1] == t + "=" && (t + "=")[..|t|] == t;
  }

  /** Encoded text is plain ASCII without dots or padding. */
  lemma {:induction false} EncodedText(raw: seq<Byte>)
    ensures Ascii(Encode(raw))
    ensures '.' !in Encode(raw) && '=' !in Encode(raw)
  {
    if |raw| == 1 {
      EncodeOne(raw[0]);
      assert raw == [raw[0]];
    } else if |raw| == 2 {
      EncodeTwo(raw[0], raw[1]);
      assert raw == [raw[0], raw[1]];
    } else if |raw| > 2 {
      EncodeQuad(raw);
      EncodedText(raw[3..]);
    }
  }

  lemma {:induction false} EncodedLength(raw: seq<Byte>)
    ensures |Encode(raw)| == (4 * |raw| + 2) / 3
  {
    if |raw| == 1 {
      EncodeOne(raw[0]);
      assert raw == [raw[0]];
    } else if |raw| == 2 {
      EncodeTwo(raw[0], raw[1]);
      assert raw == [raw[0], raw[1]];
    } else if |raw| > 2 {
      EncodeQuad(raw);
      EncodedLength(raw[3..]);
    }
  }

  /** Stripping removes only the padding of the last group; adding it back restores the text. */
  lemma {:induction false} StripThenPad(raw: seq<Byte>)
    ensures Encode(raw) + Padding(|Encode(raw)|) == EncodePadded(raw)
  {
    if |raw| == 1 {
      EncodeOne(raw[0]);
      assert raw == [raw[0]];
    } else if |raw| == 2 {
      EncodeTwo(raw[0], raw[1]);
      assert raw == [raw[0], raw[1]];
    } else if |raw| > 2 {
      EncodeQuad(raw);
      StripThenPad(raw[3..]);
      PadQuad(Quad(raw[0], raw[1], raw[2]), Encode(raw[3..]));
    }
  }

  /** A whole group does not change how much padding follows. */
  lemma PadQuad(q: string, t: string)
    requires |q| == 4
    ensures (q + t) + Padding(|q + t|) == q + (t + Padding(|t|))
  {
    assert |q + t| % 4 == |t| % 4;
    assert (q + t) + Padding(|t|) == q + (t + Padding(|t|));
  }

  lemma {:induction false} StripSuffix(q: string, t: string)
    requires q != "" && q[|q| - 1] != '='
    ensures StripPadding(q + t) == q + StripPadding(t)
  {
    if t == "" {
      assert q + t == q;
    } else if t[|t| - 1] == '=' {
      assert (q + t)[..|q + t| - 1] == q + t[..|t| - 1];
      StripSuffix(q, t[..|t| - 1]);
    }
  }

  lemma DecodeEncode(raw: seq<Byte>)
    ensures Decode(Encode(raw)) == Some(raw)
  {
    EncodedText(raw);
    StripThenPad(raw);
    ReadEncodePadded(raw);
  }

  /** Each byte string has one accepted spelling, and each accepted spelling one byte string. */
  lemma CanonicalExactly(segment: string, raw: seq<Byte>)
    ensures DecodeCanonical(segment) == Some(raw) <==> segment == Encode(raw)
  {
    DecodeEncode(raw);
  }

  /** Sixteen two-character spellings decode to any one byte; the re-encode check leaves one of them. */
  lemma SpareBits(a: Byte, spare: int)
    requires 0 <= spare < 16
    ensures var s := [CharOf(a / 4), CharOf(a % 4 * 16 + spare)];
            Decode(s) == Some([a]) && (DecodeCanonical(s) == Some([a]) <==> spare == 0)
  {
    var v1: Sextet, canonical: Sextet := a % 4 * 16 + spare, a % 4 * 16;
    var s := [CharOf(a / 4), CharOf(v1)];
    assert s + Padding(2) == [CharOf(a / 4), CharOf(v1), '=', '='];
    ReadOne(a, spare);
    EncodeOne(a);
    SextetOfChar(v1);
    SextetOfChar(canonical);
  }

  // ----- What the lenient decoder lets through -----

  /** A character outside both alphabets that is no padding can stand anywhere. */
  lemma {:induction false} ReadSkips(a: string, junk: char, b: string, quad: nat, left: int, pads: nat)
    requires quad < 4 && 0 <= left < [1, 64, 16, 4][quad]
    requires SextetOf(junk).None? && junk != '='
    ensures Read(a + [junk] + b, quad, left, pads) == Read(a + b, quad, left, pads)
    decreases |a|, 0
  {
    if a == "" {
      assert a + [junk] + b == [junk] + b && ([junk] + b)[1..] == b && a + b == b;
    } else {
      assert (a + [junk] + b)[1..] == a[1..] + [junk] + b && (a + b)[1..] == a[1..] + b;
      assert (a + [junk] + b)[0] == (a + b)[0] == a[0];
      ReadSkipsInTail(a[1..], junk, b, a[0], quad, left, pads);
    }
  }

  lemma {:induction false} ReadSkipsInTail(a: string, junk: char, b: string, c: char, quad: nat, left: int, pads: nat)
    requires quad < 4 && 0 <= left < [1, 64, 16, 4][quad]
    requires SextetOf(junk).None? && junk != '='
    ensures Read([c] + (a + [junk] + b), quad, left, pads) == Read([c] + (a + b), quad, left, pads)
    decreases |a|, 1
  {
    var s, t := a + [junk] + b, a + b;
    assert ([c] + s)[1..] == s && ([c] + t)[1..] == t;
    if c == '=' {
      ReadSkips(a, junk, b, quad, left, if quad >= 2 then pads + 1 else pads);
    } else {
      match SextetOf(c) {
        case None => ReadSkips(a, junk, b, quad, left, pads);
        case Some(v) =>
          if quad == 0 { ReadSkips(a, junk, b, 1, v, 0); }
          else if quad == 1 { ReadSkips(a, junk, b, 2, v % 16, 0); }
          else if quad == 2 { ReadSkips(a, junk, b, 3, v % 4, 0); }
          else { ReadSkips(a, junk, b, 0, 0, 0); }
      }
    }
  }

  /** Nothing after the padding of a finished group is read. */
  lemma ReadStopsAtPadding(v0: Sextet, v1: Sextet, v2: Sextet, rest: string)
    ensures Read([CharOf(v0), CharOf(v1), '=', '='] + rest, 0, 0, 0) == Some([v0 * 4 + v1 / 16])
    ensures Read([CharOf(v0), CharOf(v1), CharOf(v2), '='] + rest, 0, 0, 0) ==
            Some([v0 * 4 + v1 / 16, v1 % 16 * 16 + v2 / 4])
  {
    StopAfterTwo(v0, v1, rest);
    StopAfterThree(v0, v1, v2, rest);
  }

  lemma StopAfterTwo(v0: Sextet, v1: Sextet, rest: string)
    ensures Read([CharOf(v0), CharOf(v1), '=', '='] + rest, 0, 0, 0) == Some([v0 * 4 + v1 / 16])
  {
    var t := ['=', '='] + rest;
    EndAfterTwo(v1 % 16, rest);
    assert [CharOf(v0), CharOf(v1), '=', '='] + rest == [CharOf(v0)] + ([CharOf(v1)] + t);
    ReadChar(v0, [CharOf(v1)] + t, 0, 0, 0);
    ReadChar(v1, t, 1, v0, 0);
    assert [v0 * 4 + v1 / 16] + [] == [v0 * 4 + v1 / 16];
  }

  lemma StopAfterThree(v0: Sextet, v1: Sextet, v2: Sextet, rest: string)
    ensures Read([CharOf(v0), CharOf(v1), CharOf(v2), '='] + rest, 0, 0, 0) ==
            Some([v0 * 4 + v1 / 16, v1 % 16 * 16 + v2 / 4])
  {
    var u := ['='] + rest;
    EndAfterThree(v2 % 4, rest);
    assert [CharOf(v0), CharOf(v1), CharOf(v2), '='] + rest == [CharOf(v0)] + ([CharOf(v1)] + ([CharOf(v2)] + u));
    ReadChar(v0, [CharOf(v1)] + ([CharOf(v2)] + u), 0, 0, 0);
    ReadChar(v1, [CharOf(v2)] + u, 1, v0, 0);
    ReadChar(v2, u, 2, v1 % 16, 0);
    assert [v0 * 4 + v1 / 16] + ([v1 % 16 * 16 + v2 / 4] + []) == [v0 * 4 + v1 / 16, v1 % 16 * 16 + v2 / 4];
  }

  /** A group of one character is refused. */
  lemma LoneCharacterIsRefused(v: Sextet)
    ensures Decode([CharOf(v)]) == None
  {
    assert [CharOf(v)] + Padding(1) == [CharOf(v)] + "===";
    ReadChar(v, "===", 0, 0, 0);
    assert "==="[1..] == "==" && "=="[1..] == "=" && "="[1..] == "";
    assert Read("=", 1, v, 0) == None && Read("==", 1, v, 0) == None && Read("===", 1, v, 0) == None;
  }

  lemma EndAfterTwo(left: nat, rest: string)
    requires left < 16
    ensures Read(['=', '='] + rest, 2, left, 0) == Some([])
  {
    assert (['=', '='] + rest)[1..] == ['='] + rest;
  }

  lemma EndAfterThree(left: nat, rest: string)
    requires left < 4
    ensures Read(['='] + rest, 3, left, 0) == Some([])
  {
  }

  lemma NonAsciiIsRefused(segment: string, i: nat)
    requires i < |segment| && segment[i] as int >= 0x80
    ensures Decode(segment) == None
  {
  }

  // ----- Tokens -----

  function Dots(s: string): nat {
    if s == "" then 0 else (if s[0] == '.' then 1 else 0) + Dots(s[1..])
  }

  /** Position of the first dot, or the length when there is none. */
  function FirstDot(s: string): (n: nat)
    ensures n <= |s|
    ensures n < |s| ==> s[n] == '.'
    ensures forall i | 0 <= i < n :: s[i] != '.'
  {
    if s == "" || s[0] == '.' then 0 else 1 + FirstDot(s[1..])
  }

  predicate TokenShape(encoded: string) {
    encoded != "" && Utf8Length(encoded) <= MAX_TOKEN_BYTES && Dots(encoded) == 1
  }

  lemma {:induction false} OneDotIsInside(s: string)
    requires Dots(s) > 0
    ensures FirstDot(s) < |s|
  {
    if s[0] != '.' {
      OneDotIsInside(s[1..]);
    }
  }

  function DecodeToken(encoded: string): Option<(seq<Byte>, seq<Byte>)> {
    if !TokenShape(encoded) then None else
    OneDotIsInside(encoded);
    var dot := FirstDot(encoded);
    match (DecodeCanonical(encoded[..dot]), DecodeCanonical(encoded[dot + 1..]))
    case (Some(payload), Some(signature)) =>
      if |signature| == ED25519_SIGNATURE_SIZE then Some((payload, signature)) else None
    case _ => None
  }

  function Token(payload: seq<Byte>, signature: seq<Byte>): string {
    Encode(payload) + "." + Encode(signature)
  }

  lemma {:induction false} DotsConcat(a: string, b: string)
    ensures Dots(a + b) == Dots(a) + Dots(b)
  {
    if a == "" {
      assert a + b == b;
    } else {
      assert (a + b)[1..] == a[1..] + b;
      DotsConcat(a[1..], b);
    }
  }

  lemma {:induction false} NoDots(s: string)
    requires forall i | 0 <= i < |s| :: s[i] != '.'
    ensures Dots(s) == 0
  {
    if s != "" {
      NoDots(s[1..]);
    }
  }

  lemma TokenIsPlain(payload: seq<Byte>, signature: seq<Byte>)
    ensures Ascii(Token(payload, signature)) && Dots(Token(payload, signature)) == 1
    ensures FirstDot(Token(payload, signature)) == |Encode(payload)|
  {
    var p, g := Encode(payload), Encode(signature);
    EncodedText(payload);
    EncodedText(signature);
    NoDots(p);
    NoDots(g);
    DotsConcat(p + ".", g);
    DotsConcat(p, ".");
    assert Dots(".") == 1;
    assert Token(payload, signature)[|p|] == '.';
    forall i | 0 <= i < |p| ensures Token(payload, signature)[i] != '.' {
    }
  }

  lemma TokenDecodes(payload: seq<Byte>, signature: seq<Byte>)
    requires |signature| == ED25519_SIGNATURE_SIZE && |Token(payload, signature)| <= MAX_TOKEN_BYTES
    ensures DecodeToken(Token(payload, signature)) == Some((payload, signature))
  {
    var t, p, g := Token(payload, signature), Encode(payload), Encode(signature);
    TokenIsPlain(payload, signature);
    AsciiLength(t);
    assert t[..|p|] == p && t[|p| + 1..] == g;
    CanonicalExactly(p, payload);
    CanonicalExactly(g, signature);
  }

  lemma SplitAt(s: string, dot: nat)
    requires dot < |s| && s[dot] == '.'
    ensures s == s[..dot] + "." + s[dot + 1..]
  {
  }

  lemma DecodedIsToken(encoded: string, payload: seq<Byte>, signature: seq<Byte>)
    requires DecodeToken(encoded) == Some((payload, signature))
    ensures encoded == Token(payload, signature) && |signature| == ED25519_SIGNATURE_SIZE
            && |encoded| <= MAX_TOKEN_BYTES
  {
    OneDotIsInside(encoded);
    var dot := FirstDot(encoded);
    CanonicalExactly(encoded[..dot], payload);
    CanonicalExactly(encoded[dot + 1..], signature);
    SplitAt(encoded, dot);
    LengthAtMostUtf8(encoded);
  }

  /** A string decodes to (payload, signature) exactly when it is their one encoding and fits the limits. */
  lemma TokenExactly(encoded: string, payload: seq<Byte>, signature: seq<Byte>)
    ensures DecodeToken(encoded) == Some((payload, signature)) <==>
            encoded == Token(payload, signature) && |signature| == 64 && |encoded| <= 32768
  {
    if DecodeToken(encoded) == Some((payload, signature)) {
      DecodedIsToken(encoded, payload, signature);
    }
    if encoded == Token(payload, signature) && |signature| == ED25519_SIGNATURE_SIZE && |encoded| <= MAX_TOKEN_BYTES {
      TokenDecodes(payload, signature);
    }
  }

  lemma TokenLength(payload: seq<Byte>, signature: seq<Byte>)
    ensures |Token(payload, signature)| == (4 * |payload| + 2) / 3 + 1 + (4 * |signature| + 2) / 3
  {
    EncodedLength(payload);
    EncodedLength(signature);
  }

  /** Every payload of up to 24510 bytes, and no longer one, has a token. */
  lemma PayloadsThatFit(payload: seq<Byte>, signature: seq<Byte>)
    requires |signature| == ED25519_SIGNATURE_SIZE
    ensures DecodeToken(Token(payload, signature)) == Some((payload, signature)) <==> |payload| <= 24510
  {
    TokenExactly(Token(payload, signature), payload, signature);
    TokenLength(payload, signature);
  }

  lemma DecodedPairDeterminesToken(s: string, t: string)
    requires DecodeToken(s).Some? && DecodeToken(s) == DecodeToken(t)
    ensures s == t
  {
    var (payload, signature) := DecodeToken(s).value;
    TokenExactly(s, payload, signature);
    TokenExactly(t, payload, signature);
  }

  // ----- The text as 24-bit groups, section 4 of RFC 4648 -----

  function ByteAt(raw: seq<Byte>, j: nat): Byte {
    if j < |raw| then raw[j] else 0
  }

  /** Three bytes side by side; bytes missing from the last group count as zero. */
  function Group(raw: seq<Byte>, j: nat): (n: int)
    ensures 0 <= n < 0x100_0000
  {
    ByteAt(raw, 3 * j) * 0x1_0000 + ByteAt(raw, 3 * j + 1) * 0x100 + ByteAt(raw, 3 * j + 2)
  }

  /** The i-th of the four 6-bit numbers a group is made of. */
  function SixBits(n: int, i: nat): (v: Sextet)
    requires 0 <= n < 0x100_0000
  {
    if i == 0 then n / 0x4_0000 else if i == 1 then n / 0x1000 % 64 else if i == 2 then n / 64 % 64 else n % 64
  }

  lemma FirstSix(n: nat, a: Byte, rest: int)
    requires n == a * 0x1_0000 + rest && 0 <= rest < 0x1_0000
    ensures n / 0x4_0000 == a / 4
  {
    DivModUnique(n, 0x4_0000, a / 4, a % 4 * 0x1_0000 + rest);
  }

  lemma SecondSix(n: nat, a: Byte, b: Byte, c: Byte)
    requires n == a * 0x1_0000 + b * 0x100 + c
    ensures n / 0x1000 % 64 == a % 4 * 16 + b / 16
  {
    var upper := a * 16 + b / 16;
    DivModUnique(n, 0x1000, upper, b % 16 * 0x100 + c);
    DivModUnique(upper, 64, a / 4, a % 4 * 16 + b / 16);
  }

  lemma ThirdSix(n: nat, a: Byte, b: Byte, c: Byte)
    requires n == a * 0x1_0000 + b * 0x100 + c
    ensures n / 64 % 64 == b % 16 * 4 + c / 64
  {
    var upper := a * 1024 + b * 4 + c / 64;
    DivModUnique(n, 64, upper, c % 64);
    DivModUnique(upper, 64, a * 16 + b / 16, b % 16 * 4 + c / 64);
  }

  lemma SixBitsOfBytes(a: Byte, b: Byte, c: Byte)
    ensures var n := a * 0x1_0000 + b * 0x100 + c;
            && SixBits(n, 0) == a / 4 && SixBits(n, 1) == a % 4 * 16 + b / 16
            && SixBits(n, 2) == b % 16 * 4 + c / 64 && SixBits(n, 3) == c % 64
  {
    var n := a * 0x1_0000 + b * 0x100 + c;
    FirstSix(n, a, b * 0x100 + c);
    SecondSix(n, a, b, c);
    ThirdSix(n, a, b, c);
  }

  lemma QuadAt(a: Byte, b: Byte, c: Byte, i: nat)
    requires i < 4
    ensures Quad(a, b, c)[i] == CharOf(SixBits(a * 0x1_0000 + b * 0x100 + c, i))
  {
    SixBitsOfBytes(a, b, c);
  }

  lemma EncodeIsQuadPrefix(raw: seq<Byte>, i: nat)
    requires 1 <= |raw| && i < 4 && i < |Encode(raw)|
    ensures Encode(raw)[i] == Quad(ByteAt(raw, 0), ByteAt(raw, 1), ByteAt(raw, 2))[i]
  {
    if |raw| == 1 {
      EncodeOne(raw[0]);
      assert raw == [raw[0]];
      assert Encode(raw) == Quad(raw[0], 0, 0)[..2];
    } else if |raw| == 2 {
      EncodeTwo(raw[0], raw[1]);
      assert raw == [raw[0], raw[1]];
      assert Encode(raw) == Quad(raw[0], raw[1], 0)[..3];
    } else {
      EncodeQuad(raw);
    }
  }

  lemma FirstGroup(raw: seq<Byte>, i: nat)
    requires 1 <= |raw| && i < 4 && i < |Encode(raw)|
    ensures Encode(raw)[i] == Alphabet(SixBits(Group(raw, 0), i))
  {
    CharIsInTable(SixBits(Group(raw, 0), i));
    EncodeIsQuadPrefix(raw, i);
    QuadAt(ByteAt(raw, 0), ByteAt(raw, 1), ByteAt(raw, 2), i);
  }

  lemma GroupShift(raw: seq<Byte>, g: nat)
    requires |raw| > 2 && g > 0
    ensures Group(raw[3..], g - 1) == Group(raw, g)
  {
  }

  /** Each character of the text shows its six bits of its group. */
  lemma {:induction false} EncodedAt(raw: seq<Byte>, g: nat, i: nat)
    requires i < 4 && 4 * g + i < |Encode(raw)|
    ensures Encode(raw)[4 * g + i] == Alphabet(SixBits(Group(raw, g), i))
    decreases g
  {
    EncodedLength(raw);
    if g == 0 {
      FirstGroup(raw, i);
    } else {
      EncodeQuad(raw);
      GroupShift(raw, g);
      EncodedAt(raw[3..], g - 1, i);
    }
  }

  /** The last two characters of the table are the ones that differ from plain base64. */
  lemma LastTwoCharacters()
    ensures Encode([251]) == "-w" && Encode([255]) == "_w"
    ensures DecodeCanonical("-w") == Some([251]) && DecodeCanonical("_w") == Some([255])
  {
    EncodeOne(251);
    EncodeOne(255);
    CanonicalExactly("-w", [251]);
    CanonicalExactly("_w", [255]);
  }

  /** The two characters of plain base64 that differ are read alike. */
  lemma PlainAlphabetIsRead(v: Sextet, rest: string)
    requires v >= 62
    ensures Decode([if v == 62 then '+' else '/'] + rest) == Decode([Alphabet(v)] + rest)
  {
    CharIsInTable(v);
    var s, t := [if v == 62 then '+' else '/'] + rest, [Alphabet(v)] + rest;
    assert (s + Padding(|s|))[1..] == (t + Padding(|t|))[1..];
    forall i | 0 <= i < |s| ensures s[i] as int >= 0x80 <==> t[i] as int >= 0x80 {
    }
  }
}
