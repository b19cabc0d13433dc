/** The encodings of Go's standard library that shape the handlers'
    outputs: `base64.URLEncoding` (share tokens), `strconv.Atoi` (the
    `expires` parameter) and the `%x` verb of `fmt` on integers (the ETag).
    Each comes with an independent inverse and a round-trip lemma. */
module Codecs {
  import opened Http

  // ---------------------------------------------------------------------
  // Base64 with the URL- and filename-safe alphabet, RFC 4648 section 5.
  // ---------------------------------------------------------------------

  predicate IsBase64UrlChar(c: char)
  {
    ('A' <= c <= 'Z') || ('a' <= c <= 'z') || ('0' <= c <= '9') || c == '-' || c == '_'
  }

  /** The character for a 6-bit value in the URL-safe alphabet. */
  function Base64UrlChar(v: nat): (c: char)
    requires v < 64
    ensures IsBase64UrlChar(c)
  {
    if v < 26 then ('A' as int + v) as char
    else if v < 52 then ('a' as int + (v - 26)) as char
    else if v < 62 then ('0' as int + (v - 52)) as char
    else if v == 62 then '-'
    else '_'
  }

  /** The 6-bit value of a character of the URL-safe alphabet. */
  function Base64UrlValue(c: char): (v: nat)
    requires IsBase64UrlChar(c)
    ensures v < 64
  {
    if 'A' <= c <= 'Z' then c as int - 'A' as int
    else if 'a' <= c <= 'z' then c as int - 'a' as int + 26
    else if '0' <= c <= '9' then c as int - '0' as int + 52
    else if c == '-' then 62
    else 63
  }

  lemma Base64UrlCharValue(v: nat)
    requires v < 64
    ensures Base64UrlValue(Base64UrlChar(v)) == v
  {
  }

  /** Every character of `s` is in the URL-safe alphabet. */
  predicate AllBase64Url(s: string)
  {
    forall c | c in s :: IsBase64UrlChar(c)
  }

  lemma AllBase64UrlConcat(a: string, b: string)
    ensures AllBase64Url(a) && AllBase64Url(b) ==> AllBase64Url(a + b)
  {
  }

  /** The first three elements of a sequence, then the rest, are the sequence. */
  lemma SplitThree(b: seq<byte>)
    requires |b| >= 3
    ensures [b[0], b[1], b[2]] + b[3..] == b
  {
  }

  const PadChar := '='

  // Splitting a number into a high and a low bit field, for the widths the
  // encoding uses.
  lemma Split4(hi: nat, lo: nat)
    requires lo < 4
    ensures (hi * 4 + lo) / 4 == hi && (hi * 4 + lo) % 4 == lo
  {
  }

  lemma Split16(hi: nat, lo: nat)
    requires lo < 16
    ensures (hi * 16 + lo) / 16 == hi && (hi * 16 + lo) % 16 == lo
  {
  }

  /** Three bytes as four characters. */
  function EncodeTriple(b0: byte, b1: byte, b2: byte): (q: string)
    ensures |q| == 4 && AllBase64Url(q)
  {
    [Base64UrlChar(b0 / 4), Base64UrlChar((b0 % 4) * 16 + b1 / 16),
     Base64UrlChar((b1 % 16) * 4 + b2 / 64), Base64UrlChar(b2 % 64)]
  }

  /** Three more bytes make one more group of four characters. */
  lemma GroupCount(n: nat)
    requires n >= 3
    ensures (n + 2) / 3 == (n - 3 + 2) / 3 + 1
    ensures n % 3 == (n - 3) % 3
  {
  }

  /** `base64.URLEncoding.EncodeToString`: groups of three bytes become four
      alphabet characters; a final group of one or two bytes is padded with
      '=' to four characters. */
  function EncodeBase64Url(b: seq<byte>): (s: string)
    ensures |s| == 4 * ((|b| + 2) / 3)
    ensures |b| % 3 == 0 ==> AllBase64Url(s)
    decreases |b|
  {
    if |b| == 0 then ""
    else if |b| == 1 then
      [Base64UrlChar(b[0] / 4), Base64UrlChar((b[0] % 4) * 16), PadChar, PadChar]
    else if |b| == 2 then
      [Base64UrlChar(b[0] / 4), Base64UrlChar((b[0] % 4) * 16 + b[1] / 16),
       Base64UrlChar((b[1] % 16) * 4), PadChar]
    else
      GroupCount(|b|);
      var head, tail := EncodeTriple(b[0], b[1], b[2]), EncodeBase64Url(b[3..]);
      AllBase64UrlConcat(head, tail);
      head + tail
  }

  /** Four alphabet characters. */
  predicate IsQuad(q: string)
  {
    |q| == 4 && IsBase64UrlChar(q[0]) && IsBase64UrlChar(q[1]) && IsBase64UrlChar(q[2]) && IsBase64UrlChar(q[3])
  }

  /** Four alphabet characters back to three bytes. */
  function DecodeQuad(q: string): (b: seq<byte>)
    requires IsQuad(q)
    ensures |b| == 3
  {
    var v0, v1, v2, v3 := Base64UrlValue(q[0]), Base64UrlValue(q[1]), Base64UrlValue(q[2]), Base64UrlValue(q[3]);
    [v0 * 4 + v1 / 16, (v1 % 16) * 16 + v2 / 4, (v2 % 4) * 64 + v3]
  }

  /** The final group of four, which may carry one or two padding characters. */
  function DecodeLastQuad(q: string): Option<seq<byte>>
    requires |q| == 4
  {
    if IsQuad(q) then Some(DecodeQuad(q))
    else if IsBase64UrlChar(q[0]) && IsBase64UrlChar(q[1]) && q[2] == PadChar && q[3] == PadChar then
      Some([Base64UrlValue(q[0]) * 4 + Base64UrlValue(q[1]) / 16])
    else if IsBase64UrlChar(q[0]) && IsBase64UrlChar(q[1]) && IsBase64UrlChar(q[2]) && q[3] == PadChar then
      var v1, v2 := Base64UrlValue(q[1]), Base64UrlValue(q[2]);
      Some([Base64UrlValue(q[0]) * 4 + v1 / 16, (v1 % 16) * 16 + v2 / 4])
    else None
  }

  /** The inverse of EncodeBase64Url: padded groups of four characters back
      to bytes; None for text that no encoding produces in this shape. */
  function DecodeBase64Url(s: string): Option<seq<byte>>
    decreases |s|
  {
    if |s| == 0 then Some([])
    else if |s| < 4 then None
    else if |s| == 4 then DecodeLastQuad(s)
    else if IsQuad(s[..4]) then
      match DecodeBase64Url(s[4..])
      case None => None
      case Some(rest) => Some(DecodeQuad(s[..4]) + rest)
    else None
  }

  /** Four characters whose values carry the bit fields of three bytes
      decode to those bytes. */
  lemma DecodeThreeFields(b0: byte, b1: byte, b2: byte, c0: char, c1: char, c2: char, c3: char)
    requires IsQuad([c0, c1, c2, c3])
    requires Base64UrlValue(c0) == b0 / 4
    requires Base64UrlValue(c1) == (b0 % 4) * 16 + b1 / 16
    requires Base64UrlValue(c2) == (b1 % 16) * 4 + b2 / 64
    requires Base64UrlValue(c3) == b2 % 64
    ensures DecodeQuad([c0, c1, c2, c3]) == [b0, b1, b2]
  {
    Split16(b0 % 4, b1 / 16);
    Split4(b1 % 16, b2 / 64);
  }

  lemma DecodeEncodeTriple(b0: byte, b1: byte, b2: byte)
    ensures IsQuad(EncodeTriple(b0, b1, b2))
    ensures DecodeQuad(EncodeTriple(b0, b1, b2)) == [b0, b1, b2]
  {
    var v0, v1, v2, v3 := b0 / 4, (b0 % 4) * 16 + b1 / 16, (b1 % 16) * 4 + b2 / 64, b2 % 64;
    var c0, c1, c2, c3 := Base64UrlChar(v0), Base64UrlChar(v1), Base64UrlChar(v2), Base64UrlChar(v3);
    assert EncodeTriple(b0, b1, b2) == [c0, c1, c2, c3];
    Base64UrlCharValue(v0);
    Base64UrlCharValue(v1);
    Base64UrlCharValue(v2);
    Base64UrlCharValue(v3);
    DecodeThreeFields(b0, b1, b2, c0, c1, c2, c3);
  }

  /** A final group with two pads decodes to one byte. */
  lemma DecodePaddedTwice(c0: char, c1: char)
    requires IsBase64UrlChar(c0) && IsBase64UrlChar(c1)
    ensures DecodeLastQuad([c0, c1, PadChar, PadChar])
            == Some([Base64UrlValue(c0) * 4 + Base64UrlValue(c1) / 16])
  {
    assert !IsBase64UrlChar(PadChar);
  }

  /** A final group with one pad decodes to two bytes. */
  lemma DecodePaddedOnce(c0: char, c1: char, c2: char)
    requires IsBase64UrlChar(c0) && IsBase64UrlChar(c1) && IsBase64UrlChar(c2)
    ensures DecodeLastQuad([c0, c1, c2, PadChar])
            == Some([Base64UrlValue(c0) * 4 + Base64UrlValue(c1) / 16,
                     (Base64UrlValue(c1) % 16) * 16 + Base64UrlValue(c2) / 4])
  {
    assert !IsBase64UrlChar(PadChar);
  }

  /** Two characters and two pads whose values carry the bit fields of one
      byte decode to that byte. */
  lemma DecodeOneField(b0: byte, c0: char, c1: char)
    requires IsBase64UrlChar(c0) && IsBase64UrlChar(c1)
    requires Base64UrlValue(c0) == b0 / 4 && Base64UrlValue(c1) == (b0 % 4) * 16
    ensures DecodeBase64Url([c0, c1, PadChar, PadChar]) == Some([b0])
  {
    DecodePaddedTwice(c0, c1);
    Split16(b0 % 4, 0);
    var q := [c0, c1, PadChar, PadChar];
    assert DecodeBase64Url(q) == DecodeLastQuad(q);
  }

  /** Three characters and a pad whose values carry the bit fields of two
      bytes decode to those bytes. */
  lemma DecodeTwoFields(b0: byte, b1: byte, c0: char, c1: char, c2: char)
    requires IsBase64UrlChar(c0) && IsBase64UrlChar(c1) && IsBase64UrlChar(c2)
    requires Base64UrlValue(c0) == b0 / 4
    requires Base64UrlValue(c1) == (b0 % 4) * 16 + b1 / 16
    requires Base64UrlValue(c2) == (b1 % 16) * 4
    ensures DecodeBase64Url([c0, c1, c2, PadChar]) == Some([b0, b1])
  {
    DecodePaddedOnce(c0, c1, c2);
    Split16(b0 % 4, b1 / 16);
    Split4(b1 % 16, 0);
    var q := [c0, c1, c2, PadChar];
    assert DecodeBase64Url(q) == DecodeLastQuad(q);
  }

  /** A final group of one byte: two characters and two pads. */
  lemma DecodeEncodeOne(b: seq<byte>)
    requires |b| == 1
    ensures DecodeBase64Url(EncodeBase64Url(b)) == Some(b)
  {
    var v0, v1 := b[0] / 4, (b[0] % 4) * 16;
    var c0, c1 := Base64UrlChar(v0), Base64UrlChar(v1);
    assert EncodeBase64Url(b) == [c0, c1, PadChar, PadChar] by {
      assert |b| != 0 && |b| == 1;
    }
    Base64UrlCharValue(v0);
    Base64UrlCharValue(v1);
    DecodeOneField(b[0], c0, c1);
    assert b == [b[0]];
  }

  /** A final group of two bytes: three characters and one pad. */
  lemma DecodeEncodeTwo(b: seq<byte>)
    requires |b| == 2
    ensures DecodeBase64Url(EncodeBase64Url(b)) == Some(b)
  {
    var v0, v1, v2 := b[0] / 4, (b[0] % 4) * 16 + b[1] / 16, (b[1] % 16) * 4;
    var c0, c1, c2 := Base64UrlChar(v0), Base64UrlChar(v1), Base64UrlChar(v2);
    assert EncodeBase64Url(b) == [c0, c1, c2, PadChar] by {
      assert |b| != 0 && |b| != 1 && |b| == 2;
    }
    Base64UrlCharValue(v0);
    Base64UrlCharValue(v1);
    Base64UrlCharValue(v2);
    DecodeTwoFields(b[0], b[1], c0, c1, c2);
    assert b == [b[0], b[1]];
  }

  /** A leading group of four alphabet characters decodes to three bytes in
      front of whatever the rest decodes to. */
  lemma DecodeAfterQuad(q: string, t: string)
    requires IsQuad(q)
    ensures DecodeBase64Url(q + t)
            == if DecodeBase64Url(t).Some? then Some(DecodeQuad(q) + DecodeBase64Url(t).value) else None
  {
    var s := q + t;
    assert s[..4] == q && s[4..] == t;
    if t == [] {
      assert s == q;
      assert DecodeQuad(q) + [] == DecodeQuad(q);
    }
  }

  /** Decoding an encoding gives back the bytes. */
  lemma {:induction false} DecodeEncodeBase64Url(b: seq<byte>)
    ensures DecodeBase64Url(EncodeBase64Url(b)) == Some(b)
    decreases |b|
  {
    if |b| == 0 {
    } else if |b| == 1 {
      DecodeEncodeOne(b);
    } else if |b| == 2 {
      DecodeEncodeTwo(b);
    } else {
      var head := EncodeTriple(b[0], b[1], b[2]);
      var tail := EncodeBase64Url(b[3..]);
      assert EncodeBase64Url(b) == head + tail;
      DecodeEncodeTriple(b[0], b[1], b[2]);
      DecodeEncodeBase64Url(b[3..]);
      DecodeAfterQuad(head, tail);
      SplitThree(b);
    }
  }

  // ---------------------------------------------------------------------
  // strconv.Atoi on 64-bit platforms.
  // ---------------------------------------------------------------------

  const MinInt64: int := -0x8000_0000_0000_0000
  const MaxInt64: int := 0x7fff_ffff_ffff_ffff

  predicate IsDigit(c: char)
  {
    '0' <= c <= '9'
  }

  predicate AllDigits(s: string)
  {
    forall i | 0 <= i < |s| :: IsDigit(s[i])
  }

  /** The value of a string of decimal digits, most significant first. */
  function DigitsValue(s: string): nat
    requires AllDigits(s)
    decreases |s|
  {
    if s == [] then 0 else DigitsValue(s[..|s| - 1]) * 10 + (s[|s| - 1] as int - '0' as int)
  }

  /** The text after an optional leading '+' or '-'. */
  function Unsigned(s: string): (u: string)
    ensures |u| <= |s|
    ensures s != "" && (s[0] == '+' || s[0] == '-') ==> s == [s[0]] + u
    ensures !(s != "" && (s[0] == '+' || s[0] == '-')) ==> u == s
  {
    if s != "" && (s[0] == '-' || s[0] == '+') then s[1..] else s
  }

  /** `strconv.Atoi`: an optional '+' or '-' followed by one or more decimal
      digits (leading zeros allowed) whose value fits in 64 bits; None for
      anything else (a syntax or range error). */
  function Atoi(s: string): (r: Option<int>)
    ensures r.Some? ==> MinInt64 <= r.value <= MaxInt64
    ensures r.Some? <==>
              && Unsigned(s) != [] && AllDigits(Unsigned(s))
              && DigitsValue(Unsigned(s)) <= (if s[0] == '-' then -MinInt64 else MaxInt64)
    ensures r.Some? ==> r.value == (if s[0] == '-' then -(DigitsValue(Unsigned(s)) as int) else DigitsValue(Unsigned(s)))
    ensures r.Some? ==> s != "" && forall i | 0 < i < |s| :: IsDigit(s[i])
    ensures r.Some? && IsDigit(s[0]) ==> r.value >= 0
  {
    var negative := s != "" && s[0] == '-';
    var digits := Unsigned(s);
    if digits == [] || !AllDigits(digits) then None
    else
      var value: int := DigitsValue(digits);
      var v := if negative then -value else value;
      if MinInt64 <= v <= MaxInt64 then Some(v) else None
  }

  /** Decimal digits of a natural number, most significant first, no leading
      zeros (the digits of `strconv.Itoa`). */
  function NatDigits(n: nat): (s: string)
    ensures s != [] && AllDigits(s)
    ensures DigitsValue(s) == n
    decreases n
  {
    if n < 10 then [('0' as int + n) as char]
    else
      var prefix := NatDigits(n / 10);
      var s := prefix + [('0' as int + n % 10) as char];
      assert s[..|s| - 1] == prefix;
      s
  }

  /** `strconv.Itoa`: the reference formatting Atoi inverts. */
  function Itoa(n: int): string
  {
    if n < 0 then "-" + NatDigits(-n) else NatDigits(n)
  }

  /** Text that is not canonical is accepted too: leading zeros, an
      explicit '+', a negative zero; a bare sign, a leading space and a
      letter are not. */
  lemma AtoiNonCanonical()
    ensures Atoi("007") == Some(7) && Atoi("+5") == Some(5) && Atoi("-0") == Some(0)
    ensures Atoi("+") == None && Atoi(" 1") == None && Atoi("a") == None
  {
    assert Unsigned("007") == "007" && "007"[..2] == "00" && "00"[..1] == "0" && "0"[..0] == "";
    assert DigitsValue("0") == 0 && DigitsValue("00") == 0 && DigitsValue("007") == 7;
    assert Unsigned("+5") == "5";
    assert Unsigned("-0") == "0";
    assert !AllDigits(" 1") by { assert !IsDigit(" 1"[0]); }
    assert !AllDigits("a") by { assert !IsDigit("a"[0]); }
  }

  /** Every 64-bit integer survives formatting and parsing. */
  lemma AtoiItoa(n: int)
    requires MinInt64 <= n <= MaxInt64
    ensures Atoi(Itoa(n)) == Some(n)
  {
    if n < 0 {
      assert Itoa(n)[1..] == NatDigits(-n);
    }
  }

  // ---------------------------------------------------------------------
  // The %x verb of fmt on integers: lower-case hexadecimal, '-' for
  // negative values, no leading zeros.
  // ---------------------------------------------------------------------

  predicate IsHexDigit(c: char)
  {
    ('0' <= c <= '9') || ('a' <= c <= 'f')
  }

  function HexDigit(d: nat): (c: char)
    requires d < 16
    ensures IsHexDigit(c)
  {
    if d < 10 then ('0' as int + d) as char else ('a' as int + (d - 10)) as char
  }

  function HexDigitValue(c: char): (d: nat)
    requires IsHexDigit(c)
    ensures d < 16 && HexDigit(d) == c
  {
    if '0' <= c <= '9' then c as int - '0' as int else c as int - 'a' as int + 10
  }

  /** Hexadecimal digits of a natural number, most significant first. */
  function HexNat(n: nat): (s: string)
    ensures s != []
    ensures forall i | 0 <= i < |s| :: IsHexDigit(s[i])
    ensures n > 0 ==> s[0] != '0'
    decreases n
  {
    if n < 16 then [HexDigit(n)] else HexNat(n / 16) + [HexDigit(n % 16)]
  }

  /** The value of a string of hexadecimal digits. */
  function ParseHexNat(s: string): nat
    requires forall i | 0 <= i < |s| :: IsHexDigit(s[i])
    decreases |s|
  {
    if s == [] then 0 else ParseHexNat(s[..|s| - 1]) * 16 + HexDigitValue(s[|s| - 1])
  }

  lemma {:induction false} ParseHexNatRoundTrip(n: nat)
    ensures ParseHexNat(HexNat(n)) == n
    decreases n
  {
    if n >= 16 {
      var s := HexNat(n);
      assert s[..|s| - 1] == HexNat(n / 16);
      ParseHexNatRoundTrip(n / 16);
    }
  }

  /** `fmt.Sprintf("%x", n)` for an integer n: the hexadecimal digits of
      its magnitude, after a '-' when it is negative. */
  function FormatHex(n: int): (t: string)
    ensures n >= 0 ==> (forall i | 0 <= i < |t| :: IsHexDigit(t[i])) && ParseHexNat(t) == n
    ensures n < 0 ==> t != [] && t[0] == '-' && (forall i | 1 <= i < |t| :: IsHexDigit(t[i]))
                      && ParseHexNat(t[1..]) == -n
  {
    if n < 0 then
      ParseHexNatRoundTrip(-n);
      assert ("-" + HexNat(-n))[1..] == HexNat(-n);
      "-" + HexNat(-n)
    else
      ParseHexNatRoundTrip(n);
      HexNat(n)
  }

  /** The text starts with '-' exactly for negative integers. */
  lemma FormatHexSign(n: int)
    ensures FormatHex(n) != [] && (FormatHex(n)[0] == '-' <==> n < 0)
  {
    if n >= 0 {
      assert IsHexDigit(HexNat(n)[0]);
    }
  }

  lemma HexNatInjective(m: nat, n: nat)
    requires HexNat(m) == HexNat(n)
    ensures m == n
  {
    ParseHexNatRoundTrip(m);
    ParseHexNatRoundTrip(n);
  }

  /** %x loses no information: equal texts come from equal integers. */
  lemma FormatHexInjective(m: int, n: int)
    requires FormatHex(m) == FormatHex(n)
    ensures m == n
  {
    FormatHexSign(m);
    FormatHexSign(n);
    if m < 0 {
      assert HexNat(-m) == FormatHex(m)[1..] == FormatHex(n)[1..] == HexNat(-n);
      HexNatInjective(-m, -n);
    } else {
      HexNatInjective(m, n);
    }
  }
}
