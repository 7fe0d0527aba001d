/** `urllib.parse.quote(query)` with its default `safe='/'`: the query is
    encoded as UTF-8 (RFC 3629) and every byte outside the unreserved set of
    section 2.3 of RFC 3986 and `/` becomes a percent-encoded triplet
    (section 2.1 of RFC 3986) with upper-case hex digits. */
module PercentEncoding {
  import opened Options
  import opened Seqs

  type byte = b: int | 0 <= b < 256

  /** The UTF-8 encoding of one code point (section 3 of RFC 3629). */
  function Utf8Char(c: char): (r: seq<byte>)
    ensures 1 <= |r| <= 4
  {
    var cp := c as int;
    if cp < 0x80 then [cp]
    else if cp < 0x800 then [0xC0 + cp / 64, 0x80 + cp % 64]
    else if cp < 0x10000 then [0xE0 + cp / 4096, 0x80 + (cp / 64) % 64, 0x80 + cp % 64]
    else [0xF0 + cp / 262144, 0x80 + (cp / 4096) % 64, 0x80 + (cp / 64) % 64, 0x80 + cp % 64]
  }

  /** `s.encode("utf-8")`. */
  function Utf8(s: string): seq<byte> {
    FlatMap(s, Utf8Char)
  }

  /** The length of the UTF-8 sequence a lead byte announces. */
  function LeadLength(b: byte): nat {
    if b < 0x80 then 1 else if b < 0xE0 then 2 else if b < 0xF0 then 3 else 4
  }

  /** The code point a complete UTF-8 sequence carries. */
  function ChunkValue(r: seq<int>): int
    requires 1 <= |r| <= 4
  {
    var b0 := r[0];
    if |r| == 1 then b0
    else if |r| == 2 then (b0 - 0xC0) * 64 + (r[1] - 0x80)
    else if |r| == 3 then (b0 - 0xE0) * 4096 + (r[1] - 0x80) * 64 + (r[2] - 0x80)
    else (b0 - 0xF0) * 262144 + (r[1] - 0x80) * 4096 + (r[2] - 0x80) * 64 + (r[3] - 0x80)
  }

  /** A code point's encoding announces its own length and decodes back to
      the code point. */
  lemma Utf8CharDecodes(c: char)
    ensures LeadLength(Utf8Char(c)[0]) == |Utf8Char(c)|
    ensures ChunkValue(Utf8Char(c)) == c as int
  {
    var cp := c as int;
    var q := cp / 64;
    assert cp == q * 64 + cp % 64;
    if cp >= 0x800 {
      assert q == (q / 64) * 64 + q % 64;
      assert cp / 4096 == q / 64;
      if cp >= 0x10000 {
        var q2 := q / 64;
        assert q2 == (q2 / 64) * 64 + q2 % 64;
        assert cp / 262144 == q2 / 64;
        assert (cp / 4096) % 64 == q2 % 64;
      }
    }
  }

  lemma Utf8CharInjective(a: char, b: char)
    requires Utf8Char(a) == Utf8Char(b)
    ensures a == b
  {
    Utf8CharDecodes(a);
    Utf8CharDecodes(b);
  }

  /** Different strings have different UTF-8 encodings. */
  lemma {:induction false} Utf8Injective(a: string, b: string)
    requires Utf8(a) == Utf8(b)
    ensures a == b
    decreases |a|
  {
    if |a| > 0 && |b| > 0 {
      var ea, eb := Utf8Char(a[0]), Utf8Char(b[0]);
      assert Utf8(a) == ea + Utf8(a[1..]);
      assert Utf8(b) == eb + Utf8(b[1..]);
      Utf8CharDecodes(a[0]);
      Utf8CharDecodes(b[0]);
      assert ea[0] == Utf8(a)[0] == eb[0];
      assert ea == Utf8(a)[..|ea|] == eb;
      Utf8CharInjective(a[0], b[0]);
      assert Utf8(a[1..]) == Utf8(a)[|ea|..] == Utf8(b[1..]);
      Utf8Injective(a[1..], b[1..]);
      assert a == [a[0]] + a[1..] && b == [b[0]] + b[1..];
    }
  }

  /** The unreserved characters of section 2.3 of RFC 3986, which `quote`
      never encodes. */
  predicate IsUnreserved(c: char) {
    || ('A' <= c <= 'Z') || ('a' <= c <= 'z') || ('0' <= c <= '9')
    || c == '-' || c == '.' || c == '_' || c == '~'
  }

  /** Left as they are: the unreserved characters and the default `safe`
      character `/`. */
  predicate IsSafeChar(c: char) {
    IsUnreserved(c) || c == '/'
  }

  predicate IsSafeByte(b: byte) {
    b < 128 && IsSafeChar(b as char)
  }

  const HexDigits: string := "0123456789ABCDEF"

  predicate IsUpperHex(c: char) {
    ('0' <= c <= '9') || ('A' <= c <= 'F')
  }

  predicate IsHex(c: char) {
    IsUpperHex(c) || ('a' <= c <= 'f')
  }

  function HexValue(c: char): (v: nat)
    requires IsHex(c)
    ensures v < 16
  {
    if '0' <= c <= '9' then c as int - '0' as int
    else if 'A' <= c <= 'F' then c as int - 'A' as int + 10
    else c as int - 'a' as int + 10
  }

  lemma HexDigitValue(d: nat)
    requires d < 16
    ensures IsUpperHex(HexDigits[d]) && HexValue(HexDigits[d]) == d
  {
  }

  /** One byte as `quote` writes it: itself when safe, else `%XY`. */
  function QuoteByte(b: byte): string {
    if IsSafeByte(b) then [b as char]
    else ['%', HexDigits[b / 16], HexDigits[b % 16]]
  }

  /** `urllib.parse.quote_from_bytes(bs, safe='/')`. */
  function QuoteBytes(bs: seq<byte>): string {
    FlatMap(bs, QuoteByte)
  }

  /** `urllib.parse.quote(s)`. */
  function Quote(s: string): string {
    QuoteBytes(Utf8(s))
  }

  /** The shape `quote` produces: safe characters, and `%` followed by two
      upper-case hex digits. */
  predicate WellEncoded(t: string)
    decreases |t|
  {
    || |t| == 0
    || (IsSafeChar(t[0]) && WellEncoded(t[1..]))
    || (&& |t| >= 3 && t[0] == '%' && IsUpperHex(t[1]) && IsUpperHex(t[2])
        && WellEncoded(t[3..]))
  }

  /** None of the characters that delimit or end a query parameter. */
  predicate NoDelimiters(t: string) {
    forall i :: 0 <= i < |t| ==>
      t[i] != '&' && t[i] != '=' && t[i] != '?' && t[i] != '#' && t[i] != ' '
  }

  lemma {:induction false} QuoteBytesWellEncoded(bs: seq<byte>)
    ensures WellEncoded(QuoteBytes(bs))
    decreases |bs|
  {
    if |bs| > 0 {
      var b := bs[0];
      var rest := QuoteBytes(bs[1..]);
      QuoteBytesWellEncoded(bs[1..]);
      var t := QuoteByte(b) + rest;
      assert QuoteBytes(bs) == t;
      if IsSafeByte(b) {
        assert t[1..] == rest;
      } else {
        HexDigitValue(b / 16);
        HexDigitValue(b % 16);
        assert t[3..] == rest;
      }
    }
  }

  lemma {:induction false} WellEncodedHasNoDelimiters(t: string)
    requires WellEncoded(t)
    ensures NoDelimiters(t)
    decreases |t|
  {
    if |t| > 0 {
      if IsSafeChar(t[0]) && WellEncoded(t[1..]) {
        WellEncodedHasNoDelimiters(t[1..]);
        assert forall i :: 1 <= i < |t| ==> t[i] == t[1..][i - 1];
      } else {
        WellEncodedHasNoDelimiters(t[3..]);
        assert forall i :: 3 <= i < |t| ==> t[i] == t[3..][i - 3];
      }
    }
  }

  /** The encoded query has only unreserved characters, `/` and `%XY`
      triplets, and so no `&`, `=`, `?`, `#` or space. */
  lemma QuoteShape(s: string)
    ensures WellEncoded(Quote(s)) && NoDelimiters(Quote(s))
  {
    QuoteBytesWellEncoded(Utf8(s));
    WellEncodedHasNoDelimiters(Quote(s));
  }

  /** Reverses percent-encoding (section 2.1 of RFC 3986), or `None` for
      text that is not percent-encoded ASCII. */
  function PercentDecode(t: string): Option<seq<byte>>
    decreases |t|
  {
    if |t| == 0 then Some([])
    else if t[0] == '%' then
      if |t| >= 3 && IsHex(t[1]) && IsHex(t[2]) then
        match PercentDecode(t[3..])
        case None => None
        case Some(rest) => Some([HexValue(t[1]) * 16 + HexValue(t[2])] + rest)
      else None
    else if t[0] as int < 128 then
      match PercentDecode(t[1..])
      case None => None
      case Some(rest) => Some([t[0] as int] + rest)
    else None
  }

  /** Decoding reads one quoted byte back off the front of the text. */
  lemma DecodeQuotedByte(b: byte, rest: string, tail: seq<byte>)
    requires PercentDecode(rest) == Some(tail)
    ensures PercentDecode(QuoteByte(b) + rest) == Some([b] + tail)
  {
    var t := QuoteByte(b) + rest;
    if IsSafeByte(b) {
      assert t[1..] == rest;
    } else {
      HexDigitValue(b / 16);
      HexDigitValue(b % 16);
      assert t[3..] == rest;
    }
  }

  lemma {:induction false} DecodeQuoteBytes(bs: seq<byte>)
    ensures PercentDecode(QuoteBytes(bs)) == Some(bs)
    decreases |bs|
  {
    if |bs| > 0 {
      DecodeQuoteBytes(bs[1..]);
      assert QuoteBytes(bs) == QuoteByte(bs[0]) + QuoteBytes(bs[1..]);
      DecodeQuotedByte(bs[0], QuoteBytes(bs[1..]), bs[1..]);
      assert bs == [bs[0]] + bs[1..];
    }
  }

  /** Percent-decoding the encoded query gives back the UTF-8 bytes of the
      query. */
  lemma DecodeQuote(s: string)
    ensures PercentDecode(Quote(s)) == Some(Utf8(s))
  {
    DecodeQuoteBytes(Utf8(s));
  }

  /** Different queries are encoded differently. */
  lemma QuoteInjective(a: string, b: string)
    requires Quote(a) == Quote(b)
    ensures a == b
  {
    DecodeQuote(a);
    DecodeQuote(b);
    Utf8Injective(a, b);
  }

  /** Text made only of safe characters is left unchanged. */
  lemma {:induction false} QuoteSafeText(s: string)
    requires forall i :: 0 <= i < |s| ==> IsSafeChar(s[i])
    ensures Quote(s) == s
    decreases |s|
  {
    if |s| > 0 {
      QuoteSafeText(s[1..]);
      assert Utf8(s) == [s[0] as int] + Utf8(s[1..]);
      assert Quote(s) == QuoteByte(s[0] as int) + Quote(s[1..]);
      assert s == [s[0]] + s[1..];
    }
  }
}
