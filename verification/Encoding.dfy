/** Decimal and hexadecimal printing, and UTF-8. */
module Encoding {
  import opened Basics

  // ----- decimal -----

  predicate IsDigit(c: char) { '0' <= c <= '9' }

  function DigitChar(d: nat): (c: char)
    requires d < 10
    ensures IsDigit(c) && DigitValue(c) == d
  {
    '0' + d as char
  }

  function DigitValue(c: char): (d: nat)
    requires IsDigit(c)
    ensures d < 10
  {
    c as int - '0' as int
  }

  function ReadDigits(s: string): (n: nat)
    requires All(IsDigit, s)
  {
    if s == [] then 0 else 10 * ReadDigits(s[..|s| - 1]) + DigitValue(s[|s| - 1])
  }

  function Digits(n: nat): (s: string)
    ensures |s| > 0 && All(IsDigit, s)
    ensures ReadDigits(s) == n
  {
    if n < 10 then
      assert ReadDigits([]) == 0;
      [DigitChar(n)]
    else
      var front := Digits(n / 10);
      var s := front + [DigitChar(n % 10)];
      assert s[..|s| - 1] == front;
      s
  }

  /** Reads optional minus and decimal digits; the inverse of Str. */
  function ReadInt(s: string): (r: Option<int>) {
    if s != [] && All(IsDigit, s) then Some(ReadDigits(s))
    else if |s| > 1 && s[0] == '-' && All(IsDigit, s[1..]) then Some(0 - ReadDigits(s[1..]))
    else None
  }

  /** Python's str(n). */
  function Str(n: int): (s: string)
    ensures ReadInt(s) == Some(n)
    ensures s != [] && (s[0] == '-' || IsDigit(s[0])) && All(IsDigit, s[1..])
  {
    if n < 0 then
      assert ("-" + Digits(-n))[1..] == Digits(-n);
      "-" + Digits(-n)
    else Digits(n)
  }

  predicate IsNumeral(c: char) { c == '-' || IsDigit(c) }

  /** A printed integer can be cut off a text in only one way. */
  lemma StrUnique(m: int, r: string, n: int, t: string)
    requires Str(m) + r == Str(n) + t && Stops(IsNumeral, r) && Stops(IsNumeral, t)
    ensures m == n && r == t
  {
    assert forall k :: All(IsNumeral, Str(k)) by {
      forall k ensures All(IsNumeral, Str(k)) {
        var s := Str(k);
        forall i | 0 <= i < |s| ensures IsNumeral(s[i]) {
          assert i > 0 ==> s[i] == s[1..][i - 1];
        }
      }
    }
    SplitUnique(IsNumeral, Str(m), r, Str(n), t);
    assert Some(m) == ReadInt(Str(m)) == ReadInt(Str(n)) == Some(n);
  }

  // ----- hexadecimal -----

  predicate IsHex(c: char) { IsDigit(c) || 'a' <= c <= 'f' }

  function HexChar(d: nat): (c: char)
    requires d < 16
    ensures IsHex(c) && HexValue(c) == d
  {
    if d < 10 then DigitChar(d) else 'a' + (d - 10) as char
  }

  function HexValue(c: char): (d: nat)
    requires IsHex(c)
    ensures d < 16
  {
    if IsDigit(c) then DigitValue(c) else c as int - 'a' as int + 10
  }

  function ReadHex4(s: string): (n: nat)
    requires |s| == 4 && All(IsHex, s)
  {
    4096 * HexValue(s[0]) + 256 * HexValue(s[1]) + 16 * HexValue(s[2]) + HexValue(s[3])
  }

  /** '{0:04x}'.format(n) for one UTF-16 code unit. */
  function Hex4(n: nat): (s: string)
    requires n < 0x10000
    ensures |s| == 4 && All(IsHex, s) && ReadHex4(s) == n
  {
    var (h, l) := (n / 256, n % 256);
    [HexChar(h / 16), HexChar(h % 16), HexChar(l / 16), HexChar(l % 16)]
  }

  // ----- bytes -----

  type Byte = b: int | 0 <= b < 256
  type Bytes = seq<Byte>

  predicate IsAscii(s: string) { forall i :: 0 <= i < |s| ==> s[i] < '\U{0080}' }

  predicate NulFree(s: string) { forall i :: 0 <= i < |s| ==> s[i] != '\0' }

  /** The length of a UTF-8 sequence, told by its first byte. */
  function LeadLength(lead: Byte): nat {
    if lead < 0x80 then 1 else if lead < 0xE0 then 2 else if lead < 0xF0 then 3 else 4
  }

  function CodePoint(b: Bytes): int
    requires 1 <= |b| <= 4
  {
    var d: seq<int> := seq(|b|, i requires 0 <= i < |b| => b[i] as int - 0x80);
    if |b| == 1 then d[0] + 0x80
    else if |b| == 2 then 64 * (d[0] - 0x40) + d[1]
    else if |b| == 3 then 64 * (64 * (d[0] - 0x60) + d[1]) + d[2]
    else 64 * (64 * (64 * (d[0] - 0x70) + d[1]) + d[2]) + d[3]
  }

  /** Hex text is ASCII without NUL. */
  lemma HexIsPlain(s: string)
    requires All(IsHex, s)
    ensures IsAscii(s) && NulFree(s)
  {
    forall i | 0 <= i < |s| ensures '\0' < s[i] < '\U{0080}' {
      assert IsHex(s[i]);
    }
  }

  /** One code point in UTF-8. */
  function Utf8Char(c: char): (b: Bytes)
    ensures 1 <= |b| <= 4 && |b| == LeadLength(b[0]) && CodePoint(b) == c as int
    ensures 0 in b <==> c == '\0'
  {
    var n := c as int;
    if n < 0x80 then [n]
    else
      var n1 := n / 64;
      if n < 0x800 then [0xC0 + n1, 0x80 + n % 64]
      else
        var n2 := n1 / 64;
        if n < 0x10000 then [0xE0 + n2, 0x80 + n1 % 64, 0x80 + n % 64]
        else [0xF0 + n2 / 64, 0x80 + n2 % 64, 0x80 + n1 % 64, 0x80 + n % 64]
  }

  function Utf8(s: string): (b: Bytes)
    ensures 0 in b <==> '\0' in s
  {
    if s == [] then [] else Utf8Char(s[0]) + Utf8(s[1..])
  }

  lemma Utf8CharUnique(c: char, x: Bytes, d: char, y: Bytes)
    requires Utf8Char(c) + x == Utf8Char(d) + y
    ensures c == d && x == y
  {
    var (p, q) := (Utf8Char(c), Utf8Char(d));
    assert p[0] == (p + x)[0] == (q + y)[0] == q[0];
    CutAt(p, x, q, y);
    assert c as int == d as int;
  }

  /** UTF-8 loses nothing. */
  lemma {:induction false} Utf8Injective(s: string, t: string)
    requires Utf8(s) == Utf8(t)
    ensures s == t
  {
    if s != [] && t != [] {
      Utf8CharUnique(s[0], Utf8(s[1..]), t[0], Utf8(t[1..]));
      Utf8Injective(s[1..], t[1..]);
      assert s == [s[0]] + s[1..] && t == [t[0]] + t[1..];
    }
  }

  lemma {:induction false} Utf8Concat(s: string, t: string)
    ensures Utf8(s + t) == Utf8(s) + Utf8(t)
  {
    hide Utf8Char;
    if s == [] {
      assert s + t == t;
    } else {
      Utf8Concat(s[1..], t);
      assert (s + t)[0] == s[0] && (s + t)[1..] == s[1..] + t;
      Associate(Utf8Char(s[0]), Utf8(s[1..]), Utf8(t));
    }
  }

  // ----- the printed forms themselves -----

  /** A printed number has no leading zero. */
  lemma {:induction false} NoLeadingZero(n: nat)
    ensures n > 0 ==> Digits(n)[0] != '0'
    ensures n < 10 ==> |Digits(n)| == 1
  {
    if n >= 10 {
      NoLeadingZero(n / 10);
      assert Digits(n)[0] == Digits(n / 10)[0];
    }
  }

  /** Some printed numbers. */
  lemma PrintedNumbers()
    ensures Str(0) == "0" && Str(1) == "1" && Str(1203) == "1203" && Str(-45) == "-45"
  {
    assert Digits(1) == "1" && Digits(4) == "4";
    assert Digits(12) == "12" && Digits(45) == "45";
    assert Digits(120) == "120";
  }

  /**
   * UTF-8 in its shortest form (RFC 3629, section 3): as long as the code point needs, lead and trail bytes in range.
   */
  lemma Utf8CharIsShortest(c: char)
    ensures var (n, b) := (c as int, Utf8Char(c));
      && |b| == (if n <= 0x7F then 1 else if n <= 0x7FF then 2 else if n <= 0xFFFF then 3 else 4)
      && (|b| == 1 ==> b[0] == n)
      && (|b| == 2 ==> 0xC2 <= b[0] <= 0xDF) && (|b| == 3 ==> 0xE0 <= b[0] <= 0xEF)
      && (|b| == 4 ==> 0xF0 <= b[0] <= 0xF4)
      && forall i :: 1 <= i < |b| ==> 0x80 <= b[i] <= 0xBF
  {
  }

  /** ASCII text is encoded byte for byte. */
  lemma {:induction false} Utf8OfAscii(s: string)
    requires IsAscii(s)
    ensures |Utf8(s)| == |s| && forall i :: 0 <= i < |s| ==> Utf8(s)[i] == s[i] as int
  {
    if s != [] {
      Utf8OfAscii(s[1..]);
      Utf8CharIsShortest(s[0]);
      assert Utf8(s) == [s[0] as int] + Utf8(s[1..]);
    }
  }

  /** Longer sequences: e acute, the euro sign and an emoji. */
  lemma Utf8Samples()
    ensures Utf8Char('\U{E9}') == [0xC3, 0xA9] && Utf8Char('\U{20AC}') == [0xE2, 0x82, 0xAC]
    ensures Utf8Char('\U{1F600}') == [0xF0, 0x9F, 0x98, 0x80]
  {
  }
}
