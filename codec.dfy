/** Percent-encoding as the bridge uses it (section 2.1 of RFC 3986):
    `android.net.Uri.decode` for navigation URLs, and `java.net.URLDecoder` /
    `java.net.URLEncoder` (the application/x-www-form-urlencoded format of
    section 17.13.4.1 of HTML 4.01) for values and payloads. Decoding works on
    single bytes: an escape `%XY` becomes the character with code 0xXY. */
module Codec {
  import opened Base
  import opened JavaStrings

  predicate IsHexDigit(c: char) {
    '0' <= c <= '9' || 'a' <= c <= 'f' || 'A' <= c <= 'F'
  }

  function HexValue(c: char): (d: nat)
    requires IsHexDigit(c)
    ensures d < 16
  {
    if '0' <= c <= '9' then c as int - '0' as int
    else if 'a' <= c <= 'f' then c as int - 'a' as int + 10
    else c as int - 'A' as int + 10
  }

  /** The character an escape `%hl` stands for. */
  function EscapedChar(h: char, l: char): char
    requires IsHexDigit(h) && IsHexDigit(l)
  {
    (HexValue(h) * 16 + HexValue(l)) as char
  }

  predicate IsEscapeAt(s: string, i: nat) {
    i + 2 < |s| && s[i] == '%' && IsHexDigit(s[i + 1]) && IsHexDigit(s[i + 2])
  }

  // ---------------------------------------------------------------------------
  // Uri.decode (RichEditor.java:1154, 1176)

  /** `Uri.decode(s)`: every well-formed escape is decoded; everything else,
      `+` included, is copied unchanged. */
  function UriDecode(s: string): string
    decreases |s|
  {
    if s == [] then []
    else if IsEscapeAt(s, 0) then [EscapedChar(s[1], s[2])] + UriDecode(s[3..])
    else [s[0]] + UriDecode(s[1..])
  }

  /** A prefix without `%` passes through decoding untouched, so the scheme
      prefix of a callback URL survives decoding. */
  lemma {:induction false} UriDecodePlainPrefix(p: string, rest: string)
    requires '%' !in p
    ensures UriDecode(p + rest) == p + UriDecode(rest)
  {
    if p != [] {
      var s := p + rest;
      assert s[0] == p[0] && s[1..] == p[1..] + rest;
      assert '%' !in p[1..] by { assert forall c :: c in p[1..] ==> c in p; }
      UriDecodePlainPrefix(p[1..], rest);
      assert p == [p[0]] + p[1..];
    } else {
      assert p + rest == rest;
    }
  }

  /** Text without `%` (including `+`, `#`, `&` and non-ASCII characters) is left unchanged. */
  lemma UriDecodeWithoutEscapes(s: string)
    requires '%' !in s
    ensures UriDecode(s) == s
  {
    UriDecodePlainPrefix(s, []);
    assert s + [] == s;
  }

  // ---------------------------------------------------------------------------
  // URLDecoder.decode(s, "UTF-8") (RichEditor.java:225)

  function Prepend(c: char, o: Option<string>): Option<string> {
    match o
    case None => None
    case Some(t) => Some([c] + t)
  }

  /** An escape `URLDecoder` accepts at `i`. It reads the two characters after
      the `%` with `Integer.parseInt(pair, 16)` and throws only when that fails
      or is negative, so besides two hex digits a signed pair is accepted:
      `+` and a hex digit, or `-0`. */
  predicate IsFormEscapeAt(s: string, i: nat) {
    i + 2 < |s| && s[i] == '%' && IsHexDigit(s[i + 2])
    && (IsHexDigit(s[i + 1]) || s[i + 1] == '+' || (s[i + 1] == '-' && s[i + 2] == '0'))
  }

  /** The value `Integer.parseInt` gives for an accepted pair. */
  function FormEscapedChar(h: char, l: char): char
    requires IsHexDigit(l) && (IsHexDigit(h) || h == '+' || (h == '-' && l == '0'))
  {
    if IsHexDigit(h) then EscapedChar(h, l) else HexValue(l) as char
  }

  /** `URLDecoder.decode(s, "UTF-8")`: `+` becomes a space, an accepted escape
      becomes its character, and any other `%` makes the call throw
      `IllegalArgumentException` (`None`). */
  function FormDecode(s: string): Option<string>
    decreases |s|
  {
    if s == [] then Some([])
    else if s[0] == '+' then Prepend(' ', FormDecode(s[1..]))
    else if s[0] == '%' then
      if IsFormEscapeAt(s, 0) then Prepend(FormEscapedChar(s[1], s[2]), FormDecode(s[3..])) else None
    else Prepend(s[0], FormDecode(s[1..]))
  }

  /** `Integer.parseInt` reads `+5` as 5 and `-0` as 0, so those escapes
      decode, while the negative `-5` throws. */
  lemma SignedEscapes(plus: string, minusZero: string, minus: string)
    requires plus == "%+5" && minusZero == "%-0" && minus == "%-5"
    ensures FormDecode(plus) == Some("\U{5}")
    ensures FormDecode(minusZero) == Some("\U{0}")
    ensures FormDecode(minus) == None
  {
    assert IsFormEscapeAt(plus, 0) && plus[3..] == [];
    assert FormEscapedChar(plus[1], plus[2]) == '\U{5}';
    assert FormDecode(plus) == Some(['\U{5}'] + []);
    assert ['\U{5}'] + [] == "\U{5}";
    assert IsFormEscapeAt(minusZero, 0) && minusZero[3..] == [];
    assert FormEscapedChar(minusZero[1], minusZero[2]) == '\U{0}';
    assert FormDecode(minusZero) == Some(['\U{0}'] + []);
    assert ['\U{0}'] + [] == "\U{0}";
    assert !IsFormEscapeAt(minus, 0);
  }

  /** Text without `%` and `+` is returned unchanged. */
  lemma {:induction false} FormDecodeWithoutEscapes(s: string)
    requires '%' !in s && '+' !in s
    ensures FormDecode(s) == Some(s)
  {
    if s != [] {
      assert '%' !in s[1..] && '+' !in s[1..] by { assert forall c :: c in s[1..] ==> c in s; }
      FormDecodeWithoutEscapes(s[1..]);
      assert s == [s[0]] + s[1..];
    }
  }

  // ---------------------------------------------------------------------------
  // URLEncoder.encode(s, "UTF-8") (RichEditor.java:343, 878)

  /** The characters `URLEncoder` leaves as they are. */
  predicate IsUnreserved(c: char) {
    'a' <= c <= 'z' || 'A' <= c <= 'Z' || '0' <= c <= '9' || c == '.' || c == '-' || c == '*' || c == '_'
  }

  /** The UTF-8 encoding of one Unicode scalar value. */
  function Utf8(c: char): (bytes: seq<nat>)
    ensures 1 <= |bytes| <= 4
    ensures forall i :: 0 <= i < |bytes| ==> bytes[i] < 256
    ensures (c as int) < 0x80 ==> bytes == [c as int]
  {
    var cp := c as int;
    if cp < 0x80 then [cp]
    else if cp < 0x800 then [0xC0 + cp / 0x40, 0x80 + cp % 0x40]
    else if cp < 0x1_0000 then [0xE0 + cp / 0x1000, 0x80 + (cp / 0x40) % 0x40, 0x80 + cp % 0x40]
    else [0xF0 + cp / 0x4_0000, 0x80 + (cp / 0x1000) % 0x40, 0x80 + (cp / 0x40) % 0x40, 0x80 + cp % 0x40]
  }

  /** `%XY` per byte, with upper-case hex digits. */
  function PercentEncoded(bytes: seq<nat>): string
    requires forall i :: 0 <= i < |bytes| ==> bytes[i] < 256
  {
    if bytes == [] then []
    else ['%', DigitChar(bytes[0] / 16), DigitChar(bytes[0] % 16)] + PercentEncoded(bytes[1..])
  }

  /** Every `%` in `e` begins an escape of two upper-case hex digits. */
  predicate EscapesComplete(e: string) {
    forall i :: 0 <= i < |e| && e[i] == '%' ==> i + 2 < |e| && IsDigitIn(e[i + 1], 16) && IsDigitIn(e[i + 2], 16)
  }

  lemma EscapesCompleteAppend(a: string, b: string)
    requires EscapesComplete(a) && EscapesComplete(b)
    ensures EscapesComplete(a + b)
  {
    var s := a + b;
    forall i | 0 <= i < |s| && s[i] == '%'
      ensures i + 2 < |s| && IsDigitIn(s[i + 1], 16) && IsDigitIn(s[i + 2], 16)
    {
      if i < |a| {
        assert a[i] == '%';
      } else {
        assert b[i - |a|] == '%';
        assert s[i + 1] == b[i - |a| + 1] && s[i + 2] == b[i - |a| + 2];
      }
    }
  }

  lemma EscapesCompleteDrop(e: string, n: nat)
    requires EscapesComplete(e) && n <= |e|
    ensures EscapesComplete(e[n..])
  {
    var t := e[n..];
    forall i | 0 <= i < |t| && t[i] == '%'
      ensures i + 2 < |t| && IsDigitIn(t[i + 1], 16) && IsDigitIn(t[i + 2], 16)
    {
      assert e[n + i] == '%';
    }
  }

  lemma {:induction false} PercentEncodedComplete(bytes: seq<nat>)
    requires forall i :: 0 <= i < |bytes| ==> bytes[i] < 256
    ensures EscapesComplete(PercentEncoded(bytes))
  {
    if bytes != [] {
      PercentEncodedComplete(bytes[1..]);
      var head := ['%', DigitChar(bytes[0] / 16), DigitChar(bytes[0] % 16)];
      assert EscapesComplete(head);
      EscapesCompleteAppend(head, PercentEncoded(bytes[1..]));
    }
  }

  function FormEncodeChar(c: char): string {
    if IsUnreserved(c) then [c]
    else if c == ' ' then "+"
    else PercentEncoded(Utf8(c))
  }

  /** What `URLEncoder.encode` can produce. */
  predicate IsFormSafe(c: char) {
    IsUnreserved(c) || c == '+' || c == '%'
  }

  lemma {:induction false} PercentEncodedIsSafe(bytes: seq<nat>)
    requires forall i :: 0 <= i < |bytes| ==> bytes[i] < 256
    ensures forall c :: c in PercentEncoded(bytes) ==> IsFormSafe(c)
  {
    if bytes != [] {
      PercentEncodedIsSafe(bytes[1..]);
    }
  }

  /** `URLEncoder.encode(s, "UTF-8")`. Its output consists of unreserved
      characters, `+` and `%` only, so no quote, apostrophe or backslash can
      appear in it, and every `%` begins an escape of two upper-case hex
      digits. */
  function FormEncode(s: string): (e: string)
    ensures forall c :: c in e ==> IsFormSafe(c)
    ensures EscapesComplete(e)
    decreases |s|
  {
    if s == [] then []
    else
      PercentEncodedIsSafe(Utf8(s[0]));
      PercentEncodedComplete(Utf8(s[0]));
      var rest := FormEncode(s[1..]);
      EscapesCompleteAppend(FormEncodeChar(s[0]), rest);
      FormEncodeChar(s[0]) + rest
  }

  /** `URLDecoder.decode` does not throw on text in which every `%` begins a
      complete escape. */
  lemma {:induction false} FormDecodeComplete(e: string)
    requires EscapesComplete(e)
    ensures FormDecode(e).Some?
    decreases |e|
  {
    if e != [] {
      if e[0] == '%' {
        assert IsFormEscapeAt(e, 0);
        EscapesCompleteDrop(e, 3);
        FormDecodeComplete(e[3..]);
      } else {
        EscapesCompleteDrop(e, 1);
        FormDecodeComplete(e[1..]);
      }
    }
  }

  /** Decoding a form-encoded payload never throws, whatever its text. */
  lemma FormDecodeEncodeSucceeds(s: string)
    ensures FormDecode(FormEncode(s)).Some?
  {
    FormDecodeComplete(FormEncode(s));
  }

  predicate IsAscii(s: string) {
    forall i :: 0 <= i < |s| ==> (s[i] as int) < 0x80
  }

  lemma FormDecodeEncodedChar(c: char, rest: string)
    requires (c as int) < 0x80
    ensures FormDecode(FormEncodeChar(c) + rest) == Prepend(c, FormDecode(rest))
  {
    var e := FormEncodeChar(c) + rest;
    if IsUnreserved(c) {
      assert e == [c] + rest && e[1..] == rest;
    } else if c == ' ' {
      assert e == "+" + rest && e[1..] == rest;
    } else {
      var b := c as int;
      assert PercentEncoded([b]) == ['%', DigitChar(b / 16), DigitChar(b % 16)] + PercentEncoded([]);
      assert e == ['%', DigitChar(b / 16), DigitChar(b % 16)] + rest;
      assert e[3..] == rest;
      assert IsEscapeAt(e, 0) && IsFormEscapeAt(e, 0);
      assert HexValue(e[1]) == b / 16 && HexValue(e[2]) == b % 16;
      assert FormEscapedChar(e[1], e[2]) == EscapedChar(e[1], e[2]) == c;
    }
  }

  /** Decoding undoes encoding for ASCII text. */
  lemma {:induction false} FormDecodeEncode(s: string)
    requires IsAscii(s)
    ensures FormDecode(FormEncode(s)) == Some(s)
  {
    if s != [] {
      FormDecodeEncode(s[1..]);
      FormDecodeEncodedChar(s[0], FormEncode(s[1..]));
      assert s == [s[0]] + s[1..];
    }
  }
}
