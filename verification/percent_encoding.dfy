/** `urllib.parse.quote(s)` with its default `safe='/'`: the string is
    encoded as UTF-8, and every octet outside the unreserved set of section
    2.3 of RFC 3986 (ALPHA, DIGIT, "-", ".", "_", "~") and other than "/" is
    written as a percent-encoded octet, "%" followed by two upper-case hex
    digits, as section 2.1 of RFC 3986 describes.

    Text here is a sequence of Unicode scalar values, so UTF-8 encoding always
    succeeds. A Python `str` holding a lone surrogate (as command-line bytes
    that are not valid UTF-8 are decoded) makes `quote` raise instead; that
    error is not modelled. */
module PercentEncoding {
  import opened Wrappers

  type byte = x: int | 0 <= x < 256

  predicate IsAlpha(b: byte)
  {
    ('A' as int <= b <= 'Z' as int) || ('a' as int <= b <= 'z' as int)
  }

  predicate IsDigitByte(b: byte)
  {
    '0' as int <= b <= '9' as int
  }

  /** Unreserved octets, section 2.3 of RFC 3986. */
  predicate IsUnreserved(b: byte)
  {
    IsAlpha(b) || IsDigitByte(b) || b == '-' as int || b == '.' as int || b == '_' as int || b == '~' as int
  }

  /** Octets `quote` leaves as they are: the unreserved ones and "/". */
  predicate IsKept(b: byte)
  {
    IsUnreserved(b) || b == '/' as int
  }

  /** Characters that may appear in `quote`'s output. */
  predicate IsUrlSafe(c: char)
  {
    (c as int) < 128 && (IsKept(c as int) || c == '%')
  }

  /** Upper-case hex digit of a nibble. */
  function HexDigit(d: nat): (c: char)
    requires d < 16
    ensures IsUrlSafe(c)
  {
    if d < 10 then (('0' as int) + d) as char else (('A' as int) + d - 10) as char
  }

  predicate IsHex(c: char)
  {
    ('0' <= c <= '9') || ('A' <= c <= 'F') || ('a' <= c <= 'f')
  }

  function HexValue(c: char): (d: nat)
    requires IsHex(c)
    ensures d < 16
  {
    if '0' <= c <= '9' then (c as int) - ('0' as int)
    else if 'A' <= c <= 'F' then (c as int) - ('A' as int) + 10
    else (c as int) - ('a' as int) + 10
  }

  lemma HexRoundTrip(d: nat)
    requires d < 16
    ensures IsHex(HexDigit(d)) && HexValue(HexDigit(d)) == d
  {
  }

  /** UTF-8 encoding of one Unicode scalar value (section 3 of RFC 3629). */
  function Utf8Char(c: char): (bs: seq<byte>)
    ensures 1 <= |bs| <= 4
    ensures (c as int) < 128 <==> |bs| == 1
    ensures (c as int) < 128 ==> bs[0] == c as int
    ensures (c as int) >= 128 ==> forall i | 0 <= i < |bs| :: bs[i] >= 128
  {
    var v := c as int;
    if v < 0x80 then [v]
    else if v < 0x800 then [0xC0 + v / 0x40, 0x80 + v % 0x40]
    else if v < 0x1_0000 then [0xE0 + v / 0x1000, 0x80 + (v / 0x40) % 0x40, 0x80 + v % 0x40]
    else [0xF0 + v / 0x4_0000, 0x80 + (v / 0x1000) % 0x40, 0x80 + (v / 0x40) % 0x40, 0x80 + v % 0x40]
  }

  function Utf8(s: string): (bs: seq<byte>)
    ensures |bs| >= |s|
  {
    if |s| == 0 then [] else Utf8Char(s[0]) + Utf8(s[1..])
  }

  /** One octet as `quote` writes it. */
  function EncodeByte(b: byte): (e: string)
    ensures IsKept(b) ==> e == [b as char]
    ensures !IsKept(b) ==> |e| == 3 && e[0] == '%'
    ensures forall i | 0 <= i < |e| :: IsUrlSafe(e[i])
  {
    if IsKept(b) then [b as char] else ['%', HexDigit(b / 16), HexDigit(b % 16)]
  }

  function EncodeBytes(bs: seq<byte>): (e: string)
    ensures forall i | 0 <= i < |e| :: IsUrlSafe(e[i])
    ensures |e| >= |bs|
  {
    if |bs| == 0 then [] else EncodeByte(bs[0]) + EncodeBytes(bs[1..])
  }

  /** `urllib.parse.quote(s, safe='/')`. */
  function Quote(s: string): (e: string)
    ensures forall i | 0 <= i < |e| :: IsUrlSafe(e[i])
    ensures DecodePercent(e) == Some(Utf8(s))
  {
    DecodeEncoded(Utf8(s));
    EncodeBytes(Utf8(s))
  }

  /** Reads a percent-encoded string back into octets; `None` for a stray
      "%" or a non-ASCII character. */
  function DecodePercent(e: string): Option<seq<byte>>
    decreases |e|
  {
    if |e| == 0 then Some([])
    else if e[0] == '%' then
      if |e| >= 3 && IsHex(e[1]) && IsHex(e[2]) then
        match DecodePercent(e[3..])
        case None => None
        case Some(rest) => Some([16 * HexValue(e[1]) + HexValue(e[2])] + rest)
      else None
    else if (e[0] as int) < 128 then
      match DecodePercent(e[1..])
      case None => None
      case Some(rest) => Some([e[0] as int] + rest)
    else None
  }

  lemma DecodeOneByte(b: byte, tail: string)
    ensures DecodePercent(EncodeByte(b) + tail) ==
      match DecodePercent(tail)
      case None => None
      case Some(rest) => Some([b] + rest)
  {
    var e := EncodeByte(b);
    if IsKept(b) {
      assert (e + tail)[0] == b as char;
      assert (e + tail)[1..] == tail;
    } else {
      HexRoundTrip(b / 16);
      HexRoundTrip(b % 16);
      assert (e + tail)[3..] == tail;
    }
  }

  /** Decoding undoes encoding, for every octet string. */
  lemma {:induction false} DecodeEncoded(bs: seq<byte>)
    ensures DecodePercent(EncodeBytes(bs)) == Some(bs)
    decreases |bs|
  {
    if |bs| > 0 {
      DecodeEncoded(bs[1..]);
      DecodeOneByte(bs[0], EncodeBytes(bs[1..]));
      assert [bs[0]] + bs[1..] == bs;
    }
  }

  /** A string made only of unreserved ASCII characters and "/" is left
      exactly as it is. */
  lemma {:induction false} QuoteKeepsSafeText(s: string)
    requires forall i | 0 <= i < |s| :: (s[i] as int) < 128 && IsKept(s[i] as int)
    ensures Quote(s) == s
    decreases |s|
  {
    if |s| > 0 {
      QuoteKeepsSafeText(s[1..]);
      assert Utf8(s) == [s[0] as int] + Utf8(s[1..]);
      assert Utf8(s)[1..] == Utf8(s[1..]);
    }
  }

  lemma {:induction false} Utf8Concat(a: string, b: string)
    ensures Utf8(a + b) == Utf8(a) + Utf8(b)
    decreases |a|
  {
    if |a| == 0 {
      assert a + b == b;
    } else {
      Utf8Concat(a[1..], b);
      var head := Utf8Char(a[0]);
      assert (a + b)[0] == a[0];
      assert (a + b)[1..] == a[1..] + b;
      assert Utf8(a + b) == head + Utf8(a[1..] + b);
      assert Utf8(a) == head + Utf8(a[1..]);
      assert head + (Utf8(a[1..]) + Utf8(b)) == (head + Utf8(a[1..])) + Utf8(b);
    }
  }

  lemma {:induction false} EncodeConcat(a: seq<byte>, b: seq<byte>)
    ensures EncodeBytes(a + b) == EncodeBytes(a) + EncodeBytes(b)
    decreases |a|
  {
    if |a| == 0 {
      assert a + b == b;
    } else {
      EncodeConcat(a[1..], b);
      assert (a + b)[1..] == a[1..] + b;
    }
  }

  /** Quoting works piece by piece: the quoted whole is the quoted parts. */
  lemma QuoteConcat(a: string, b: string)
    ensures Quote(a + b) == Quote(a) + Quote(b)
  {
    Utf8Concat(a, b);
    EncodeConcat(Utf8(a), Utf8(b));
  }

  /** The "+" joining search words is written as "%2B". */
  lemma QuotePlus()
    ensures Quote("+") == "%2B"
  {
    assert Utf8("+") == [43];
  }
}
