/**
 * The two encoders of `src/files_listing.rs`: `utf8_percent_encode` with the
 * `CONTROLS` set for the link target, and the HTML escaper for the label.
 *
 * `CONTROLS` is taken as the `percent_encoding` crate defines it: the C0
 * controls (bytes below 0x20) and DEL (0x7F); `utf8_percent_encode` also
 * encodes every byte of a non-ASCII character. Encoded bytes become `%`
 * and two upper-case hex digits. The HTML escaper replaces `<`, `>`, `&`,
 * `"` and `'` by the entities `&lt;`, `&gt;`, `&amp;`, `&quot;`, `&#x27;`.
 */
module Encoding {
  newtype byte = x: int | 0 <= x < 256

  // ---------------------------------------------------------------------
  // UTF-8
  // ---------------------------------------------------------------------

  /** The UTF-8 encoding of one Unicode scalar value. */
  function Utf8(c: char): (r: seq<byte>)
    ensures 1 <= |r| <= 4
    ensures |r| == 1 <==> c as int < 0x80
    ensures |r| == 1 ==> r[0] as int == c as int
    ensures |r| > 1 ==> r[0] >= 0xC0 && r[|r| - 1] >= 0x80
  {
    var n := c as int;
    if n < 0x80 then [n as byte]
    else if n < 0x800 then [(0xC0 + n / 64) as byte, (0x80 + n % 64) as byte]
    else if n < 0x10000 then
      [(0xE0 + n / 4096) as byte, (0x80 + n / 64 % 64) as byte, (0x80 + n % 64) as byte]
    else
      [(0xF0 + n / 262144) as byte, (0x80 + n / 4096 % 64) as byte,
       (0x80 + n / 64 % 64) as byte, (0x80 + n % 64) as byte]
  }

  /** The length of a UTF-8 sequence, read off its lead byte. */
  function LeadLength(b: byte): (r: nat) {
    if b < 0x80 then 1 else if b < 0xE0 then 2 else if b < 0xF0 then 3 else 4
  }

  /** The code point a well-formed sequence of one of the four shapes holds. */
  function CodePoint(r: seq<byte>): (cp: int)
    requires 1 <= |r| <= 4
  {
    if |r| == 1 then r[0] as int
    else if |r| == 2 then (r[0] as int - 0xC0) * 64 + (r[1] as int - 0x80)
    else if |r| == 3 then (r[0] as int - 0xE0) * 4096 + (r[1] as int - 0x80) * 64 + (r[2] as int - 0x80)
    else (r[0] as int - 0xF0) * 262144 + (r[1] as int - 0x80) * 4096 + (r[2] as int - 0x80) * 64 + (r[3] as int - 0x80)
  }

  /** Decoding gives the character back, and the lead byte gives the length. */
  lemma Utf8Decodes(c: char)
    ensures CodePoint(Utf8(c)) == c as int
    ensures LeadLength(Utf8(c)[0]) == |Utf8(c)|
  {
    var n := c as int;
    if n < 0x80 {
    } else if n < 0x800 {
      Utf8DecodesTwo(c);
    } else if n < 0x10000 {
      Utf8DecodesThree(c);
    } else {
      Utf8DecodesFour(c);
    }
  }

  lemma Utf8DecodesTwo(c: char)
    requires 0x80 <= c as int < 0x800
    ensures CodePoint(Utf8(c)) == c as int
    ensures LeadLength(Utf8(c)[0]) == 2
  {
    var n := c as int;
    assert n == n / 64 * 64 + n % 64;
  }

  lemma Utf8DecodesThree(c: char)
    requires 0x800 <= c as int < 0x10000
    ensures CodePoint(Utf8(c)) == c as int
    ensures LeadLength(Utf8(c)[0]) == 3
  {
    var n := c as int;
    assert n / 64 == n / 4096 * 64 + n / 64 % 64;
    assert n == n / 64 * 64 + n % 64;
  }

  lemma Utf8DecodesFour(c: char)
    requires 0x10000 <= c as int
    ensures CodePoint(Utf8(c)) == c as int
    ensures LeadLength(Utf8(c)[0]) == 4
  {
    var n := c as int;
    assert n / 4096 == n / 262144 * 64 + n / 4096 % 64;
    assert n / 64 == n / 4096 * 64 + n / 64 % 64;
    assert n == n / 64 * 64 + n % 64;
  }

  lemma Utf8Injective(a: char, b: char)
    ensures Utf8(a) == Utf8(b) ==> a == b
  {
    Utf8Decodes(a);
    Utf8Decodes(b);
  }

  /** `str::as_bytes`. */
  function Utf8Str(s: string): (r: seq<byte>)
    ensures |r| >= |s|
    ensures r == [] <==> s == []
  {
    if s == [] then [] else Utf8(s[0]) + Utf8Str(s[1..])
  }

  lemma {:induction false} Utf8StrConcat(s: string, t: string)
    ensures Utf8Str(s + t) == Utf8Str(s) + Utf8Str(t)
    decreases |s|
  {
    if s == [] {
      assert s + t == t;
    } else {
      assert (s + t)[1..] == s[1..] + t;
      Utf8StrConcat(s[1..], t);
    }
  }

  /** Distinct strings have distinct bytes: the lead byte of each character
      says how many bytes it takes. */
  lemma {:induction false} Utf8StrInjective(s: string, t: string)
    requires Utf8Str(s) == Utf8Str(t)
    ensures s == t
    decreases |s|
  {
    if s != [] {
      var bs := Utf8(s[0]);
      var bt := Utf8(t[0]);
      Utf8Decodes(s[0]);
      Utf8Decodes(t[0]);
      assert Utf8Str(s) == bs + Utf8Str(s[1..]);
      assert Utf8Str(t) == bt + Utf8Str(t[1..]);
      assert bs[0] == Utf8Str(s)[0] == bt[0];
      assert |bs| == |bt|;
      assert bs == Utf8Str(s)[..|bs|] == bt;
      Utf8Injective(s[0], t[0]);
      assert Utf8Str(s[1..]) == Utf8Str(s)[|bs|..] == Utf8Str(t[1..]);
      Utf8StrInjective(s[1..], t[1..]);
      assert s == [s[0]] + s[1..];
      assert t == [t[0]] + t[1..];
    }
  }

  // ---------------------------------------------------------------------
  // Percent encoding with the CONTROLS set
  // ---------------------------------------------------------------------

  /** The bytes `utf8_percent_encode(_, CONTROLS)` replaces by `%XX`. */
  predicate Encoded(b: byte) {
    b < 0x20 || b >= 0x7F
  }

  function HexDigit(d: int): (c: char)
    requires 0 <= d < 16
    ensures '0' <= c <= '9' || 'A' <= c <= 'F'
  {
    if d < 10 then ('0' as int + d) as char else ('A' as int + d - 10) as char
  }

  predicate IsHexDigit(c: char) {
    '0' <= c <= '9' || 'A' <= c <= 'F' || 'a' <= c <= 'f'
  }

  function HexValue(c: char): (d: int)
    requires IsHexDigit(c)
    ensures 0 <= d < 16
  {
    if c <= '9' then c as int - '0' as int
    else if c <= 'F' then c as int - 'A' as int + 10
    else c as int - 'a' as int + 10
  }

  lemma HexRoundTrip(d: int)
    requires 0 <= d < 16
    ensures IsHexDigit(HexDigit(d)) && HexValue(HexDigit(d)) == d
  {
  }

  function EncodeByte(b: byte): (r: string)
    ensures Encoded(b) ==> |r| == 3 && r[0] == '%'
    ensures !Encoded(b) ==> r == [b as char]
  {
    if Encoded(b) then ['%', HexDigit(b as int / 16), HexDigit(b as int % 16)] else [b as char]
  }

  function PercentEncode(bs: seq<byte>): (r: string)
    ensures |r| >= |bs|
  {
    if bs == [] then [] else EncodeByte(bs[0]) + PercentEncode(bs[1..])
  }

  /** The link-target encoder: the UTF-8 bytes of `s`, percent-encoded. */
  function EncodeUrl(s: string): (r: string) {
    PercentEncode(Utf8Str(s))
  }

  predicate PrintableAscii(c: char) {
    0x20 <= c as int < 0x7F
  }

  /** `percent_decode_str`: `%` and two hex digits (either case) give one
      byte; every other character gives its own UTF-8 bytes. */
  function PercentDecode(s: string): (r: seq<byte>)
    decreases |s|
  {
    if s == [] then []
    else if |s| >= 3 && s[0] == '%' && IsHexDigit(s[1]) && IsHexDigit(s[2]) then
      [(HexValue(s[1]) * 16 + HexValue(s[2])) as byte] + PercentDecode(s[3..])
    else Utf8(s[0]) + PercentDecode(s[1..])
  }

  /** The encoder's output is printable ASCII. */
  lemma {:induction false} EncodedIsPrintable(bs: seq<byte>)
    ensures forall i :: 0 <= i < |PercentEncode(bs)| ==> PrintableAscii(PercentEncode(bs)[i])
    decreases |bs|
  {
    if bs != [] {
      EncodedIsPrintable(bs[1..]);
      var e := EncodeByte(bs[0]);
      assert forall i :: 0 <= i < |e| ==> PrintableAscii(e[i]);
    }
  }

  lemma DecodeEncodedByte(b: byte, t: string)
    requires b != 0x25
    ensures PercentDecode(EncodeByte(b) + t) == [b] + PercentDecode(t)
  {
    var s := EncodeByte(b) + t;
    if Encoded(b) {
      HexRoundTrip(b as int / 16);
      HexRoundTrip(b as int % 16);
      assert s[3..] == t;
    } else {
      assert s[0] == b as char && s[0] != '%';
      assert s[1..] == t;
    }
  }

  /** Decoding inverts the encoder on bytes without a `%`: the encoder
      keeps `%` itself as it is, so a `%` in the input is ambiguous. */
  lemma {:induction false} PercentRoundTrip(bs: seq<byte>)
    requires forall i :: 0 <= i < |bs| ==> bs[i] != 0x25
    ensures PercentDecode(PercentEncode(bs)) == bs
    decreases |bs|
  {
    if bs != [] {
      PercentRoundTrip(bs[1..]);
      DecodeEncodedByte(bs[0], PercentEncode(bs[1..]));
      assert bs == [bs[0]] + bs[1..];
    }
  }

  /** The encoding is not injective: the control byte 0x01 and the three
      characters "%01" are written the same way. */
  lemma PercentNotInjective()
    ensures EncodeUrl("\U{1}") == EncodeUrl("%01") == "%01"
  {
    assert Utf8Str("\U{1}") == [1 as byte];
    var s := "%01";
    assert Utf8Str(s) == [0x25 as byte] + Utf8Str(s[1..]);
    assert Utf8Str(s[1..]) == [0x30 as byte] + Utf8Str(s[2..]);
    assert Utf8Str(s[2..]) == [0x31 as byte];
    assert PercentEncode([0x31 as byte]) == "1";
    assert PercentEncode([0x30 as byte, 0x31 as byte]) == "0" + PercentEncode([0x31 as byte]);
    assert PercentEncode([0x25 as byte, 0x30 as byte, 0x31 as byte]) == "%" + PercentEncode([0x30 as byte, 0x31 as byte]);
  }

  lemma {:induction false} EncodeAppend(a: seq<byte>, b: seq<byte>)
    ensures PercentEncode(a + b) == PercentEncode(a) + PercentEncode(b)
    decreases |a|
  {
    if a == [] {
      assert a + b == b;
    } else {
      assert (a + b)[1..] == a[1..] + b;
      EncodeAppend(a[1..], b);
    }
  }

  /** Text that does not end in `/` is encoded into text that does not:
      the last byte is not 0x2F, and an escape ends in a hex digit. */
  lemma EncodeUrlKeepsLastNonSlash(s: string)
    requires s != [] && s[|s| - 1] != '/'
    ensures var h := EncodeUrl(s); h != [] && h[|h| - 1] != '/'
  {
    var c := s[|s| - 1];
    var front := s[..|s| - 1];
    assert s == front + [c];
    Utf8StrConcat(front, [c]);
    assert Utf8Str([c]) == Utf8(c) + Utf8Str([]);
    var u := Utf8(c);
    var last := u[|u| - 1];
    assert Utf8Str(s) == Utf8Str(front) + u[..|u| - 1] + [last];
    EncodeAppend(Utf8Str(front) + u[..|u| - 1], [last]);
    assert PercentEncode([last]) == EncodeByte(last) + PercentEncode([]);
    assert last != 0x2F;
  }

  /** Printable ASCII text, space, `"`, `<` and `%` included, is copied
      into the link target unchanged. */
  lemma {:induction false} PrintableUnchanged(s: string)
    requires forall i :: 0 <= i < |s| ==> PrintableAscii(s[i])
    ensures EncodeUrl(s) == s
    decreases |s|
  {
    if s != [] {
      PrintableUnchanged(s[1..]);
      assert Utf8Str(s) == [s[0] as int as byte] + Utf8Str(s[1..]);
      assert s == [s[0]] + s[1..];
    }
  }

  /** A character outside printable ASCII is never copied: it turns into
      one `%XX` triple per UTF-8 byte. */
  lemma NonPrintableEncoded(c: char)
    requires !PrintableAscii(c)
    ensures forall i :: 0 <= i < |Utf8(c)| ==> Encoded(Utf8(c)[i])
  {
    var r := Utf8(c);
    var n := c as int;
    if n >= 0x80 {
      assert forall i :: 0 <= i < |r| ==> r[i] >= 0x80;
    }
  }

  // ---------------------------------------------------------------------
  // HTML escaping
  // ---------------------------------------------------------------------

  function EscapeChar(c: char): (r: string) {
    match c
    case '<' => "&lt;"
    case '>' => "&gt;"
    case '&' => "&amp;"
    case '"' => "&quot;"
    case '\'' => "&#x27;"
    case _ => [c]
  }

  function HtmlEscape(s: string): (r: string) {
    if s == [] then [] else EscapeChar(s[0]) + HtmlEscape(s[1..])
  }

  /** Reads back the five entities `HtmlEscape` writes; every other
      character is copied. */
  function HtmlUnescape(s: string): (r: string)
    decreases |s|
  {
    if s == [] then []
    else if s[0] == '&' && "&lt;" <= s then "<" + HtmlUnescape(s[4..])
    else if s[0] == '&' && "&gt;" <= s then ">" + HtmlUnescape(s[4..])
    else if s[0] == '&' && "&amp;" <= s then "&" + HtmlUnescape(s[5..])
    else if s[0] == '&' && "&quot;" <= s then "\"" + HtmlUnescape(s[6..])
    else if s[0] == '&' && "&#x27;" <= s then "'" + HtmlUnescape(s[6..])
    else [s[0]] + HtmlUnescape(s[1..])
  }

  lemma UnescapeEscapedChar(c: char, t: string)
    ensures HtmlUnescape(EscapeChar(c) + t) == [c] + HtmlUnescape(t)
  {
    var e := EscapeChar(c);
    var s := e + t;
    assert e <= s;
    assert s[|e|..] == t;
    assert s[0] == e[0];
    if c == '&' {
      assert s[1] == 'a' && s[2] == 'm';
      assert !("&lt;" <= s) && !("&gt;" <= s);
    } else if c == '"' {
      assert s[1] == 'q';
      assert !("&lt;" <= s) && !("&gt;" <= s) && !("&amp;" <= s);
    } else if c == '\'' {
      assert s[1] == '#';
      assert !("&lt;" <= s) && !("&gt;" <= s) && !("&amp;" <= s) && !("&quot;" <= s);
    } else if c == '>' {
      assert s[1] == 'g';
      assert !("&lt;" <= s);
    }
  }

  /** Unescaping the label gives back the raw name. */
  lemma {:induction false} EscapeRoundTrip(s: string)
    ensures HtmlUnescape(HtmlEscape(s)) == s
    decreases |s|
  {
    if s != [] {
      EscapeRoundTrip(s[1..]);
      UnescapeEscapedChar(s[0], HtmlEscape(s[1..]));
      assert s == [s[0]] + s[1..];
    }
  }

  /** The label can neither open a tag nor close a quoted attribute. */
  lemma {:induction false} EscapedHasNoMarkup(s: string)
    ensures forall i :: 0 <= i < |HtmlEscape(s)| ==> HtmlEscape(s)[i] !in "<>\"'"
    decreases |s|
  {
    if s != [] {
      EscapedHasNoMarkup(s[1..]);
      var e := EscapeChar(s[0]);
      assert forall i :: 0 <= i < |e| ==> e[i] !in "<>\"'";
    }
  }
}
