/** Strings as the Python code sees them: code-point order and UTF-8 length. */
module Text {

  /** Number of bytes the UTF-8 encoding spends on one code point. */
  function Utf8Width(c: char): (n: nat)
    ensures 1 <= n <= 4
  {
    if c as int < 0x80 then 1 else if c as int < 0x800 then 2 else if c as int < 0x1_0000 then 3 else 4
  }

  function Utf8Length(s: string): nat {
    if s == "" then 0 else Utf8Width(s[0]) + Utf8Length(s[1..])
  }

  function Utf8(c: char): (bytes: seq<int>)
    ensures |bytes| == Utf8Width(c)
    ensures c as int >= 0x80 ==> forall b | b in bytes :: b >= 0x80
  {
    var n := c as int;
    if n < 0x80 then [n]
    else if n < 0x800 then [0xC0 + n / 0x40, 0x80 + n % 0x40]
    else if n < 0x1_0000 then [0xE0 + n / 0x1000, 0x80 + n / 0x40 % 0x40, 0x80 + n % 0x40]
    else [0xF0 + n / 0x4_0000, 0x80 + n / 0x1000 % 0x40, 0x80 + n / 0x40 % 0x40, 0x80 + n % 0x40]
  }

  predicate Continues(b: int) {
    0x80 <= b < 0xC0
  }

  /** The bytes are the one well-formed sequence that spells the code point, section 3 of RFC 3629. */
  lemma Utf8IsShortestForm(c: char)
    ensures var n, b := c as int, Utf8(c);
            || (|b| == 1 && n == b[0] < 0x80)
            || (|b| == 2 && n >= 0x80 && 0xC2 <= b[0] < 0xE0 && Continues(b[1])
                && n == (b[0] - 0xC0) * 0x40 + b[1] - 0x80)
            || (|b| == 3 && n >= 0x800 && 0xE0 <= b[0] < 0xF0 && Continues(b[1]) && Continues(b[2])
                && n == (b[0] - 0xE0) * 0x1000 + (b[1] - 0x80) * 0x40 + b[2] - 0x80)
            || (|b| == 4 && n >= 0x1_0000 && 0xF0 <= b[0] < 0xF5
                && Continues(b[1]) && Continues(b[2]) && Continues(b[3])
                && n == (b[0] - 0xF0) * 0x4_0000 + (b[1] - 0x80) * 0x1000 + (b[2] - 0x80) * 0x40 + b[3] - 0x80)
  {
    var n := c as int;
    assert n / 0x1000 == n / 0x40 / 0x40 && n / 0x4_0000 == n / 0x1000 / 0x40;
  }

  /** The text has at least one and at most `limit` bytes. */
  ghost predicate Fits(s: string, limit: nat) {
    1 <= |Utf8Encode(s)| <= limit
  }

  lemma EmptyFits(s: string)
    ensures |Utf8Encode(s)| == 0 <==> s == ""
  {
  }

  function Utf8Encode(s: string): (bytes: seq<int>)
    ensures |bytes| == Utf8Length(s)
  {
    if s == "" then [] else Utf8(s[0]) + Utf8Encode(s[1..])
  }

  /** A byte below 0x80 occurs in the encoding exactly when that character occurs in the text. */
  lemma {:induction false} AsciiBytesAreCharacters(s: string, b: int)
    requires 0 <= b < 0x80
    ensures b in Utf8Encode(s) <==> exists i | 0 <= i < |s| :: s[i] as int == b
  {
    if s != "" {
      AsciiBytesAreCharacters(s[1..], b);
      assert forall i | 0 <= i < |s| - 1 :: s[1..][i] == s[i + 1];
      if exists i | 0 <= i < |s| :: s[i] as int == b {
        var i :| 0 <= i < |s| && s[i] as int == b;
        if i > 0 {
          assert s[1..][i - 1] as int == b;
        }
      }
    }
  }

  ghost predicate Ascii(s: string) {
    forall i | 0 <= i < |s| :: s[i] as int < 0x80
  }

  lemma {:induction false} AsciiLength(s: string)
    requires Ascii(s)
    ensures Utf8Length(s) == |s|
  {
    if s != "" {
      AsciiLength(s[1..]);
    }
  }

  /** Every code point takes at least one byte. */
  lemma {:induction false} LengthAtMostUtf8(s: string)
    ensures |s| <= Utf8Length(s)
  {
    if s != "" {
      LengthAtMostUtf8(s[1..]);
    }
  }

  /** Python's `a < b` on strings: the first differing code point decides, a proper prefix is smaller. */
  predicate Less(a: string, b: string) {
    b != "" && (a == "" || a[0] < b[0] || (a[0] == b[0] && Less(a[1..], b[1..])))
  }

  /** The first `n` code points agree, and there `a` ends or has the smaller code point. */
  ghost predicate SmallerAt(a: string, b: string, n: nat) {
    n <= |a| && n < |b| && a[..n] == b[..n] && (n == |a| || a[n] as int < b[n] as int)
  }

  lemma HeadAgrees(a: string, b: string, n: nat)
    requires SmallerAt(a, b, n)
    ensures n > 0 ==> a != "" && a[0] == b[0]
  {
    assert n > 0 ==> a[..n][0] == b[..n][0];
  }

  /** Order by code points, told by where two strings first differ. */
  ghost predicate Precedes(a: string, b: string) {
    exists n: nat :: SmallerAt(a, b, n)
  }

  lemma {:induction false} LessExactly(a: string, b: string)
    ensures Less(a, b) <==> Precedes(a, b)
  {
    if a == "" || b == "" || a[0] != b[0] {
      assert b != "" && (a == "" || a[0] < b[0]) ==> SmallerAt(a, b, 0);
      forall n: nat | SmallerAt(a, b, n) ensures Less(a, b) {
        HeadAgrees(a, b, n);
      }
    } else {
      LessExactly(a[1..], b[1..]);
      forall n: nat | SmallerAt(a, b, n) ensures n > 0 && SmallerAt(a[1..], b[1..], n - 1) {
        assert a[1..][..n - 1] == a[..n][1..] && b[1..][..n - 1] == b[..n][1..];
      }
      forall n: nat | SmallerAt(a[1..], b[1..], n) ensures SmallerAt(a, b, n + 1) {
        assert a[..n + 1] == [a[0]] + a[1..][..n] && b[..n + 1] == [b[0]] + b[1..][..n];
      }
    }
  }

  lemma {:induction false} LessIrreflexive(a: string)
    ensures !Less(a, a)
  {
    if a != "" {
      LessIrreflexive(a[1..]);
    }
  }

  lemma {:induction false} LessTransitive(a: string, b: string, c: string)
    requires Less(a, b) && Less(b, c)
    ensures Less(a, c)
  {
    if a != "" && a[0] == b[0] && b[0] == c[0] {
      LessTransitive(a[1..], b[1..], c[1..]);
    }
  }

  lemma {:induction false} LessTotal(a: string, b: string)
    ensures a == b || Less(a, b) || Less(b, a)
  {
    if a != "" && b != "" && a[0] == b[0] {
      LessTotal(a[1..], b[1..]);
      assert a == [a[0]] + a[1..] && b == [b[0]] + b[1..];
    }
  }

  /** With equally long heads, the heads decide unless they are equal. */
  lemma {:induction false} LessConcat(a: string, x: string, b: string, y: string)
    requires |a| == |b|
    ensures Less(a + x, b + y) <==> Less(a, b) || (a == b && Less(x, y))
  {
    if a == "" {
      assert a + x == x && b + y == y;
    } else {
      assert (a + x)[1..] == a[1..] + x && (b + y)[1..] == b[1..] + y;
      assert a == [a[0]] + a[1..] && b == [b[0]] + b[1..];
      LessConcat(a[1..], x, b[1..], y);
    }
  }

  ghost predicate StrictlySorted(values: seq<string>) {
    forall i, j | 0 <= i < j < |values| :: Less(values[i], values[j])
  }

  /** A strictly sorted sequence is the only strictly sorted sequence of its members. */
  lemma {:induction false} SortedIsCanonical(a: seq<string>, b: seq<string>)
    requires StrictlySorted(a) && StrictlySorted(b)
    requires forall v :: v in a <==> v in b
    ensures a == b
  {
    assert a != [] ==> a[0] in a;
    assert b != [] ==> b[0] in b;
    if a != [] {
      HeadsAgree(a, b);
      forall v ensures v in a[1..] <==> v in b[1..] {
        TailMembers(a, v);
        TailMembers(b, v);
      }
      SortedIsCanonical(a[1..], b[1..]);
      assert a == [a[0]] + a[1..] && b == [b[0]] + b[1..];
    }
  }

  lemma HeadsAgree(a: seq<string>, b: seq<string>)
    requires a != [] && b != []
    requires StrictlySorted(a) && StrictlySorted(b)
    requires forall v :: v in a <==> v in b
    ensures a[0] == b[0]
  {
    assert a[0] in b && b[0] in a;
    if a[0] != b[0] {
      assert Less(b[0], a[0]) && Less(a[0], b[0]);
      LessTransitive(a[0], b[0], a[0]);
      LessIrreflexive(a[0]);
    }
  }

  lemma TailMembers(a: seq<string>, v: string)
    requires a != [] && StrictlySorted(a)
    ensures v in a[1..] <==> v in a && v != a[0]
  {
    LessIrreflexive(a[0]);
  }
}
