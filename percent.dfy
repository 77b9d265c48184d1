/** `urllib.parse.quote(s)` with its default `safe="/"`: the UTF-8 bytes of
    `s`, each either kept as its ASCII character or written `%XX` with two
    upper-case hex digits (section 2.1 of RFC 3986). */
module Percent {
  import opened Results
  import opened Utf8

  /** Section 2.3 of RFC 3986: ALPHA / DIGIT / "-" / "." / "_" / "~". */
  predicate IsUnreserved(c: char)
  {
    || ('A' <= c <= 'Z')
    || ('a' <= c <= 'z')
    || ('0' <= c <= '9')
    || c == '-' || c == '.' || c == '_' || c == '~'
  }

  /** The characters `quote` leaves alone: the unreserved ones and `/`. */
  predicate IsSafe(c: char)
  {
    IsUnreserved(c) || c == '/'
  }

  /** The safe characters, listed one by one: Python's always-safe set of
      letters, digits and `_.-~`, and the default extra safe `/`. */
  const UpperList := "ABCDEFGHIJKLMNOPQRSTUVWXYZ"
  const LowerList := "abcdefghijklmnopqrstuvwxyz"
  const DigitList := "0123456789"
  const MarkList := "_.-~/"

  /** `IsSafe` holds of exactly the characters of the four lists. */
  lemma SafeIsListed(c: char)
    ensures IsSafe(c) <==> c in UpperList || c in LowerList || c in DigitList || c in MarkList
  {
    UpperListed(c);
    LowerListed(c);
    DigitListed(c);
  }

  /** The upper-case letters are the run `A`-`Z`. */
  lemma UpperListed(c: char)
    ensures 'A' <= c <= 'Z' <==> c in UpperList
  {
  }

  /** The lower-case letters are the run `a`-`z`. */
  lemma LowerListed(c: char)
    ensures 'a' <= c <= 'z' <==> c in LowerList
  {
  }

  /** The digits are the run `0`-`9`. */
  lemma DigitListed(c: char)
    ensures '0' <= c <= '9' <==> c in DigitList
  {
  }

  /** The character whose code is the byte `b`. */
  function ByteChar(b: byte): (c: char)
    ensures c as int == b as int
  {
    b as int as char
  }

  /** A hex digit as `quote` writes it: a decimal digit or `A`-`F`. */
  predicate IsUpperHex(c: char)
  {
    ('0' <= c <= '9') || ('A' <= c <= 'F')
  }

  /** Upper-case hex digit of `k`. */
  function HexDigit(k: int): (c: char)
    requires 0 <= k < 16
    ensures IsUpperHex(c) && HexValue(c) == Some(k)
    ensures IsUnreserved(c) && c != '%'
  {
    if k < 10 then ('0' as int + k) as char else ('A' as int + k - 10) as char
  }

  /** Value of a hex digit of either case. */
  function HexValue(c: char): (r: Option<int>)
    ensures r.Some? ==> 0 <= r.value < 16
  {
    if '0' <= c <= '9' then Some(c as int - '0' as int)
    else if 'A' <= c <= 'F' then Some(c as int - 'A' as int + 10)
    else if 'a' <= c <= 'f' then Some(c as int - 'a' as int + 10)
    else None
  }

  /** One byte as `quote` writes it: a safe character stays as itself, any
      other byte becomes `%` and two upper-case hex digits whose value is
      the byte. */
  function QuoteByte(b: byte): (r: string)
    ensures IsSafe(ByteChar(b)) ==> r == [ByteChar(b)]
    ensures !IsSafe(ByteChar(b)) ==>
      && |r| == 3 && r[0] == '%' && IsUpperHex(r[1]) && IsUpperHex(r[2])
      && HexValue(r[1]).value * 16 + HexValue(r[2]).value == b as int
    ensures forall i :: 0 <= i < |r| ==> IsSafe(r[i]) || r[i] == '%'
  {
    var c := ByteChar(b);
    if IsSafe(c) then [c] else ['%', HexDigit(b as int / 16), HexDigit(b as int % 16)]
  }

  /** `urllib.parse.quote_from_bytes(bs)` with `safe="/"`. Its output uses
      only safe characters and `%`. */
  function QuoteBytes(bs: seq<byte>): (r: string)
    ensures |bs| <= |r| <= 3 * |bs|
    ensures forall i :: 0 <= i < |r| ==> IsSafe(r[i]) || r[i] == '%'
  {
    if bs == [] then [] else QuoteByte(bs[0]) + QuoteBytes(bs[1..])
  }

  /** `urllib.parse.quote(s)`: percent-encoding of the UTF-8 bytes of `s`. */
  function Quote(s: string): (r: string)
    ensures forall i :: 0 <= i < |r| ==> IsSafe(r[i]) || r[i] == '%'
  {
    QuoteBytes(Encode(s))
  }

  /** A strict percent-decoder: `%` must start a two-hex-digit escape, and
      any other character must be ASCII and stands for its own code. */
  function PercentDecode(s: string): (r: Option<seq<byte>>)
  {
    if s == [] then Some([])
    else if s[0] == '%' then
      if |s| >= 3 && HexValue(s[1]).Some? && HexValue(s[2]).Some? then
        match PercentDecode(s[3..])
        case None => None
        case Some(rest) => Some([(HexValue(s[1]).value * 16 + HexValue(s[2]).value) as byte] + rest)
      else None
    else if s[0] as int < 0x80 then
      match PercentDecode(s[1..])
      case None => None
      case Some(rest) => Some([s[0] as int as byte] + rest)
    else None
  }

  /** Quoting distributes over concatenation of byte strings. */
  lemma {:induction false} QuoteBytesAppend(a: seq<byte>, b: seq<byte>)
    ensures QuoteBytes(a + b) == QuoteBytes(a) + QuoteBytes(b)
  {
    if a == [] {
      assert a + b == b;
    } else {
      assert (a + b)[1..] == a[1..] + b;
      QuoteBytesAppend(a[1..], b);
    }
  }

  /** Every `%` that quoting writes opens an escape of two upper-case hex
      digits (section 2.1 of RFC 3986). */
  predicate EscapesUpperHex(r: string)
  {
    forall i :: 0 <= i < |r| && r[i] == '%' ==> i + 2 < |r| && IsUpperHex(r[i + 1]) && IsUpperHex(r[i + 2])
  }

  lemma {:induction false} QuoteBytesUpperHex(bs: seq<byte>)
    ensures EscapesUpperHex(QuoteBytes(bs))
  {
    if bs != [] {
      var q, rest := QuoteByte(bs[0]), QuoteBytes(bs[1..]);
      QuoteBytesUpperHex(bs[1..]);
      var r := q + rest;
      forall i | 0 <= i < |r| && r[i] == '%'
        ensures i + 2 < |r| && IsUpperHex(r[i + 1]) && IsUpperHex(r[i + 2])
      {
        if i >= |q| {
          assert rest[i - |q|] == '%';
          assert r[i + 1] == rest[i - |q| + 1] && r[i + 2] == rest[i - |q| + 2];
        } else {
          assert q[i] == '%';
        }
      }
    }
  }

  /** Quoting distributes over concatenation of strings. */
  lemma QuoteAppend(s: string, t: string)
    ensures Quote(s + t) == Quote(s) + Quote(t)
  {
    EncodeAppend(s, t);
    QuoteBytesAppend(Encode(s), Encode(t));
  }

  /** The bytes of one escape or kept character decode back, followed by
      whatever decodes after them. */
  lemma PercentDecodeQuoteByte(b: byte, rest: string)
    ensures PercentDecode(QuoteByte(b) + rest) ==
      match PercentDecode(rest)
      case None => None
      case Some(tail) => Some([b] + tail)
  {
    var q := QuoteByte(b) + rest;
    if IsSafe(ByteChar(b)) {
      assert q[1..] == rest;
    } else {
      assert q[3..] == rest;
      assert (b as int / 16) * 16 + b as int % 16 == b as int;
    }
  }

  /** Percent-decoding inverts quoting: no byte is lost or altered. */
  lemma {:induction false} PercentDecodeQuoteBytes(bs: seq<byte>)
    ensures PercentDecode(QuoteBytes(bs)) == Some(bs)
  {
    if bs != [] {
      PercentDecodeQuoteBytes(bs[1..]);
      PercentDecodeQuoteByte(bs[0], QuoteBytes(bs[1..]));
      assert [bs[0]] + bs[1..] == bs;
    }
  }

  /** The quoted text of a string decodes to that string's UTF-8 bytes, and
      from there to the string itself. */
  lemma QuoteRoundTrip(s: string)
    ensures PercentDecode(Quote(s)) == Some(Encode(s))
    ensures Decode(PercentDecode(Quote(s)).value) == Some(s)
  {
    PercentDecodeQuoteBytes(Encode(s));
    DecodeEncode(s);
  }

  /** Quoting leaves a byte string unchanged exactly when every byte is a
      safe character: any other byte grows into a three-character escape. */
  lemma {:induction false} QuoteBytesUnchangedIffSafe(bs: seq<byte>)
    ensures (forall i :: 0 <= i < |bs| ==> IsSafe(ByteChar(bs[i]))) <==>
            QuoteBytes(bs) == seq(|bs|, i requires 0 <= i < |bs| => ByteChar(bs[i]))
  {
    if bs != [] {
      QuoteBytesUnchangedIffSafe(bs[1..]);
      var whole := seq(|bs|, i requires 0 <= i < |bs| => ByteChar(bs[i]));
      var tail := seq(|bs| - 1, i requires 0 <= i < |bs| - 1 => ByteChar(bs[1..][i]));
      assert whole == [ByteChar(bs[0])] + tail;
      assert QuoteBytes(bs) == QuoteByte(bs[0]) + QuoteBytes(bs[1..]);
      if !IsSafe(ByteChar(bs[0])) {
        assert |QuoteBytes(bs)| > |bs|;
      } else if QuoteBytes(bs) == whole {
        assert QuoteBytes(bs)[1..] == QuoteBytes(bs[1..]);
        assert whole[1..] == tail;
        forall i | 0 <= i < |bs| ensures IsSafe(ByteChar(bs[i])) {
          if i > 0 { assert bs[i] == bs[1..][i - 1]; }
        }
      } else {
        assert !(forall i :: 0 <= i < |bs[1..]| ==> IsSafe(ByteChar(bs[1..][i])));
      }
    }
  }

  /** A string of safe characters is its own quotation. */
  lemma {:induction false} QuoteSafeString(s: string)
    requires forall i :: 0 <= i < |s| ==> IsSafe(s[i])
    ensures Quote(s) == s
  {
    EncodeAscii(s);
    var bs := Encode(s);
    assert forall i :: 0 <= i < |bs| ==> ByteChar(bs[i]) == s[i];
    QuoteBytesUnchangedIffSafe(bs);
    assert seq(|bs|, i requires 0 <= i < |bs| => ByteChar(bs[i])) == s;
  }

  /** A space is written `%20`. */
  lemma QuoteSpace()
    ensures Quote(" ") == "%20"
  {
    assert Encode(" ") == [0x20];
  }

  /** Safe words joined by a space: the space alone is escaped. */
  lemma QuoteSpaced(a: string, rest: string)
    requires forall i :: 0 <= i < |a| ==> IsSafe(a[i])
    ensures Quote(a + " " + rest) == a + "%20" + Quote(rest)
  {
    QuoteAppend(a + " ", rest);
    QuoteAppend(a, " ");
    QuoteSafeString(a);
    QuoteSpace();
  }

  /** Three safe words joined by spaces. */
  lemma QuoteWords(a: string, b: string, c: string)
    requires forall i :: 0 <= i < |a| ==> IsSafe(a[i])
    requires forall i :: 0 <= i < |b| ==> IsSafe(b[i])
    requires forall i :: 0 <= i < |c| ==> IsSafe(c[i])
    ensures Quote(a + " " + b + " " + c) == a + "%20" + b + "%20" + c
  {
    assert a + " " + b + " " + c == a + " " + (b + " " + c);
    QuoteSpaced(a, b + " " + c);
    QuoteSpaced(b, c);
    QuoteSafeString(c);
  }

  /** Quoting distributes over five concatenated strings. */
  lemma QuoteFive(a: string, b: string, c: string, d: string, e: string)
    ensures Quote(a + b + c + d + e) == Quote(a) + Quote(b) + Quote(c) + Quote(d) + Quote(e)
  {
    QuoteAppend(a + b + c + d, e);
    QuoteAppend(a + b + c, d);
    QuoteAppend(a + b, c);
    QuoteAppend(a, b);
  }

  /** A character whose UTF-8 form is two bytes at or above 0x80 is written
      as two escapes. */
  lemma QuoteTwoByteChar(s: string, b0: byte, b1: byte)
    requires |s| == 1 && EncodeChar(s[0]) == [b0, b1]
    ensures Quote(s) == QuoteByte(b0) + QuoteByte(b1)
  {
    assert s[1..] == [];
    assert Encode(s) == [b0, b1];
    assert [b0, b1][1..] == [b1];
    assert [b1][1..] == [];
    assert QuoteBytes([b1]) == QuoteByte(b1);
  }

  /** Every character outside ASCII is percent-encoded, byte by byte: none
      of its UTF-8 bytes is safe, so each takes a three-character escape. */
  lemma QuoteNonAscii(c: char)
    requires c as int >= 0x80
    ensures Quote([c]) == QuoteBytes(EncodeChar(c))
    ensures forall i :: 0 <= i < |EncodeChar(c)| ==> !IsSafe(ByteChar(EncodeChar(c)[i]))
    ensures |Quote([c])| == 3 * |EncodeChar(c)|
  {
    var e := EncodeChar(c);
    assert [c][1..] == [];
    assert Encode([c]) == e + [];
    assert Encode([c]) == e;
    QuoteAllEscaped(e);
  }

  lemma {:induction false} QuoteAllEscaped(bs: seq<byte>)
    requires forall i :: 0 <= i < |bs| ==> bs[i] >= 0x80
    ensures |QuoteBytes(bs)| == 3 * |bs|
  {
    if bs != [] {
      QuoteAllEscaped(bs[1..]);
    }
  }
}
