/** `RichEditor.onReceiveValue` (RichEditor.java:221-240): the editor is the
    result callback of `evaluateJavascript`, which hands it the script's
    result as JSON text. The bridge URL-decodes that text, and unless it is
    `null` strips the enclosing quotes and undoes three JSON escapes by plain
    text replacement. */
module ValueCallback {
  import opened Base
  import opened JavaStrings
  import opened Codec

  const BACKSLASH_PAIR := "\\\\"
  const ESCAPED_QUOTE := "\\\""
  const ESCAPED_LT := "\\u003C"

  /** The first replacement: `\\` becomes `\`. */
  function UnescapeBackslash(s: string): string {
    ReplaceAll(s, BACKSLASH_PAIR, "\\")
  }

  /** The second replacement: `\"` becomes `"`. */
  function UnescapeQuote(s: string): string {
    ReplaceAll(s, ESCAPED_QUOTE, "\"")
  }

  /** The third replacement: the six characters `\u003C` become `<`. */
  function UnescapeLt(s: string): string {
    ReplaceAll(s, ESCAPED_LT, "<")
  }

  /** The text handed to `onDataReceived`, or the exception that escapes
      `onReceiveValue`. `URLDecoder.decode` throws `IllegalArgumentException`
      on a malformed escape (only `UnsupportedEncodingException` is caught),
      and `substring(1, length - 1)` throws when fewer than two characters
      remain. */
  function ReceiveValue(value: string): (r: Result<string>)
    ensures FormDecode(value).None? <==> r == Thrown(IllegalArgument)
    ensures FormDecode(value) == Some("null") ==> r == Ok("null")
    ensures r == Thrown(IndexOutOfBounds) <==> FormDecode(value).Some? && FormDecode(value).value != "null" && |FormDecode(value).value| < 2
  {
    match FormDecode(value)
    case None => Thrown(IllegalArgument)
    case Some(u) =>
      if u == "null" then Ok(u)
      else if |u| < 2 then Thrown(IndexOutOfBounds)
      else Ok(Unquote(u))
  }

  /** `substring(1, length - 1)` followed by the three replacements, in the
      order RichEditor.java:231-234 applies them. */
  function Unquote(u: string): string
    requires |u| >= 2
  {
    UnescapeLt(UnescapeQuote(UnescapeBackslash(u[1..|u| - 1])))
  }

  // ---------------------------------------------------------------------------
  // The page side: how a string result is quoted.

  /** The characters the WebView's JSON writer escapes besides `\`, `"` and
      `<`: the control characters and the two line-separator code points. */
  predicate IsJsonControl(c: char) {
    c < ' ' || c == '\U{2028}' || c == '\U{2029}'
  }

  predicate IsAlphanumeric(c: char) {
    ('0' <= c <= '9') || ('A' <= c <= 'Z') || ('a' <= c <= 'z')
  }

  /** The escape written for such a character: a backslash and a letter for
      the five with a short form, otherwise `\u` and four upper-case hex
      digits. It starts with its only backslash and is never `\u003C`. */
  function ControlEscape(c: char): (e: string)
    requires IsJsonControl(c)
    ensures 2 <= |e| && e[0] == '\\'
    ensures forall k :: 1 <= k < |e| ==> IsAlphanumeric(e[k])
    ensures e[1] == 'u' ==> |e| == 6 && (e[2] != '0' || e[4] != '3')
  {
    if c == '\U{8}' then "\\b"
    else if c == '\U{C}' then "\\f"
    else if c == '\n' then "\\n"
    else if c == '\r' then "\\r"
    else if c == '\t' then "\\t"
    else if c == '\U{2028}' then "\\u2028"
    else if c == '\U{2029}' then "\\u2029"
    else "\\u00" + [DigitChar(c as int / 16), DigitChar(c as int % 16)]
  }

  /** The escape the WebView writes into a JSON string result for one character. */
  function JsonEscapeChar(c: char): string {
    if c == '\\' then BACKSLASH_PAIR
    else if c == '"' then ESCAPED_QUOTE
    else if c == '<' then ESCAPED_LT
    else if IsJsonControl(c) then ControlEscape(c)
    else [c]
  }

  function JsonEscaped(t: string): string
    decreases |t|
  {
    if t == [] then [] else JsonEscapeChar(t[0]) + JsonEscaped(t[1..])
  }

  /** A string result as JSON text: quoted and escaped. */
  function JsonString(t: string): string {
    "\"" + JsonEscaped(t) + "\""
  }

  /** The text after the first replacement: backslashes restored, every other
      escape still in place. */
  function AfterBackslashChar(c: char): string {
    if c == '\\' then "\\"
    else if c == '"' then ESCAPED_QUOTE
    else if c == '<' then ESCAPED_LT
    else if IsJsonControl(c) then ControlEscape(c)
    else [c]
  }

  function AfterBackslash(t: string): string
    decreases |t|
  {
    if t == [] then [] else AfterBackslashChar(t[0]) + AfterBackslash(t[1..])
  }

  /** The text after the second replacement: `<` and the control characters
      still escaped. */
  function AfterQuoteChar(c: char): string {
    if c == '<' then ESCAPED_LT
    else if IsJsonControl(c) then ControlEscape(c)
    else [c]
  }

  function AfterQuote(t: string): string
    decreases |t|
  {
    if t == [] then [] else AfterQuoteChar(t[0]) + AfterQuote(t[1..])
  }

  /** The text after the third replacement: the control characters and line
      separators keep their JSON escapes, which the bridge does not undo. */
  function DeliveredChar(c: char): string {
    if IsJsonControl(c) then ControlEscape(c) else [c]
  }

  function Delivered(t: string): string
    decreases |t|
  {
    if t == [] then [] else DeliveredChar(t[0]) + Delivered(t[1..])
  }

  // ---------------------------------------------------------------------------
  // Scanning facts

  /** No occurrence of a backslash-led two-or-more-character pattern begins at
      a position that holds no backslash, or a backslash followed by a
      character other than the pattern's second one. */
  lemma NoMatchBeforeByChars(s: string, p: string, n: nat)
    requires 2 <= |p| && p[0] == '\\' && n <= |s|
    requires forall k :: 0 <= k < n ==> s[k] != '\\' || k + 1 == |s| || s[k + 1] != p[1]
    ensures NoMatchBefore(s, p, n)
  {
    forall k | 0 <= k < n ensures !StartsWith(s[k..], p) {
      if s[k] != '\\' { MismatchAt(s, p, k, 0); } else if k + 1 < |s| { MismatchAt(s, p, k, 1); }
    }
  }

  /** `AfterBackslash` never begins with a quote: every quote it holds is the
      second character of an escape. */
  lemma AfterBackslashHead(t: string)
    requires t != []
    ensures AfterBackslash(t)[0] != '"'
  {
  }

  lemma OccursInTail(t: string, p: string)
    requires t != [] && Occurs(t[1..], p)
    ensures Occurs(t, p)
  {
    var k :| 0 <= k <= |t[1..]| && StartsWith(t[1..][k..], p);
    assert t[1..][k..] == t[k + 1..];
  }

  /** A prefix free of backslashes, quotes and `<` is in `AfterQuote(r)` only
      if it is in `r`. */
  lemma {:induction false} AfterQuotePlainPrefix(r: string, w: string)
    requires '\\' !in w && '<' !in w
    requires StartsWith(AfterQuote(r), w)
    ensures StartsWith(r, w)
    decreases |w|
  {
    if w != [] {
      assert r != [];
      var a := AfterQuote(r);
      assert a[0] == w[0];
      assert r[0] != '<';
      assert a == [r[0]] + AfterQuote(r[1..]);
      assert '\\' !in w[1..] && '<' !in w[1..] by { assert forall c :: c in w[1..] ==> c in w; }
      assert StartsWith(AfterQuote(r[1..]), w[1..]) by {
        assert AfterQuote(r[1..])[..|w| - 1] == a[1..][..|w| - 1] == w[1..];
      }
      AfterQuotePlainPrefix(r[1..], w[1..]);
      assert r[..|w|] == [r[0]] + r[1..][..|w| - 1];
    }
  }

  // ---------------------------------------------------------------------------
  // The three stages

  lemma BackslashStep(c: char, rest: string)
    requires c != '\\'
    ensures UnescapeBackslash(JsonEscapeChar(c) + rest) == AfterBackslashChar(c) + UnescapeBackslash(rest)
  {
    var e := JsonEscapeChar(c);
    var s := e + rest;
    assert forall k :: 0 <= k < |e| ==> s[k] == e[k];
    NoMatchBeforeByChars(s, BACKSLASH_PAIR, |e|);
    ReplaceAllSkip(s, |e|, BACKSLASH_PAIR, "\\");
    assert s[..|e|] == e && s[|e|..] == rest;
  }

  /** The first replacement turns the escaped text into `AfterBackslash`. */
  lemma {:induction false} UnescapeBackslashEscaped(t: string)
    ensures UnescapeBackslash(JsonEscaped(t)) == AfterBackslash(t)
    decreases |t|
  {
    if t != [] {
      UnescapeBackslashEscaped(t[1..]);
      if t[0] == '\\' {
        ReplaceAllHead(BACKSLASH_PAIR, JsonEscaped(t[1..]), "\\");
      } else {
        BackslashStep(t[0], JsonEscaped(t[1..]));
      }
    }
  }

  lemma QuoteStepPlain(c: char, rest: string)
    requires c != '\\' && c != '"'
    ensures UnescapeQuote(AfterBackslashChar(c) + rest) == AfterQuoteChar(c) + UnescapeQuote(rest)
  {
    var e := AfterBackslashChar(c);
    var s := e + rest;
    assert forall k :: 0 <= k < |e| ==> s[k] == e[k];
    NoMatchBeforeByChars(s, ESCAPED_QUOTE, |e|);
    ReplaceAllSkip(s, |e|, ESCAPED_QUOTE, "\"");
    assert s[..|e|] == e && s[|e|..] == rest;
  }

  /** A restored backslash is never taken for the start of an escaped quote. */
  lemma QuoteStepBackslash(rest: string)
    requires rest == [] || rest[0] != '"'
    ensures UnescapeQuote("\\" + rest) == "\\" + UnescapeQuote(rest)
  {
    var s := "\\" + rest;
    if rest != [] { MismatchAt(s, ESCAPED_QUOTE, 0, 1); }
    assert s[0..] == s;
    ReplaceAllStep(s, ESCAPED_QUOTE, "\"");
    assert s[1..] == rest;
  }

  /** The second replacement turns `AfterBackslash` into `AfterQuote`. */
  lemma {:induction false} UnescapeQuoteAfterBackslash(t: string)
    ensures UnescapeQuote(AfterBackslash(t)) == AfterQuote(t)
    decreases |t|
  {
    if t != [] {
      UnescapeQuoteAfterBackslash(t[1..]);
      var rest := AfterBackslash(t[1..]);
      if t[0] == '"' {
        ReplaceAllHead(ESCAPED_QUOTE, rest, "\"");
      } else if t[0] == '\\' {
        if t[1..] != [] { AfterBackslashHead(t[1..]); }
        QuoteStepBackslash(rest);
      } else {
        QuoteStepPlain(t[0], rest);
      }
    }
  }

  /** An escaped `<` can begin at a character other than `<` only where the
      text itself holds the six characters. */
  lemma LtOnlyFromText(t: string)
    requires t != [] && t[0] != '<' && !IsJsonControl(t[0])
    ensures StartsWith([t[0]] + AfterQuote(t[1..]), ESCAPED_LT) ==> StartsWith(t, ESCAPED_LT)
  {
    var rest := AfterQuote(t[1..]);
    var s := [t[0]] + rest;
    if StartsWith(s, ESCAPED_LT) {
      assert StartsWith(rest, "u003C") by {
        assert rest[..5] == s[1..][..5] == ESCAPED_LT[1..];
      }
      AfterQuotePlainPrefix(t[1..], "u003C");
      assert t[..6] == [t[0]] + t[1..][..5];
    }
  }

  lemma LtStep(t: string)
    requires t != [] && t[0] != '<' && !IsJsonControl(t[0]) && !StartsWith(t, ESCAPED_LT)
    ensures UnescapeLt(AfterQuote(t)) == [t[0]] + UnescapeLt(AfterQuote(t[1..]))
  {
    var rest := AfterQuote(t[1..]);
    var s := [t[0]] + rest;
    LtOnlyFromText(t);
    ReplaceAllStep(s, ESCAPED_LT, "<");
    assert s[1..] == rest;
  }

  /** The escape of a control character is passed over by the third
      replacement. */
  lemma LtStepControl(t: string)
    requires t != [] && IsJsonControl(t[0])
    ensures UnescapeLt(AfterQuote(t)) == ControlEscape(t[0]) + UnescapeLt(AfterQuote(t[1..]))
  {
    var e := ControlEscape(t[0]);
    var rest := AfterQuote(t[1..]);
    var s := e + rest;
    assert forall k :: 0 <= k < |e| ==> s[k] == e[k];
    forall k | 0 <= k < |e| ensures !StartsWith(s[k..], ESCAPED_LT) {
      if k > 0 {
        MismatchAt(s, ESCAPED_LT, k, 0);
      } else if e[1] != 'u' {
        MismatchAt(s, ESCAPED_LT, 0, 1);
      } else if e[2] != '0' {
        MismatchAt(s, ESCAPED_LT, 0, 2);
      } else {
        MismatchAt(s, ESCAPED_LT, 0, 4);
      }
    }
    ReplaceAllSkip(s, |e|, ESCAPED_LT, "<");
    assert s[..|e|] == e && s[|e|..] == rest;
  }

  /** The third replacement yields the delivered text, provided that the text
      does not itself contain the six characters `\u003C`. */
  lemma {:induction false} UnescapeLtAfterQuote(t: string)
    requires !Occurs(t, ESCAPED_LT)
    ensures UnescapeLt(AfterQuote(t)) == Delivered(t)
    decreases |t|
  {
    if t != [] {
      NotOccursTail(t, ESCAPED_LT);
      UnescapeLtAfterQuote(t[1..]);
      if t[0] == '<' {
        ReplaceAllHead(ESCAPED_LT, AfterQuote(t[1..]), "<");
      } else if IsJsonControl(t[0]) {
        LtStepControl(t);
      } else {
        LtStep(t);
      }
    }
  }

  lemma NotOccursTail(t: string, p: string)
    requires t != [] && !Occurs(t, p)
    ensures !Occurs(t[1..], p) && !StartsWith(t, p)
  {
    if Occurs(t[1..], p) { OccursInTail(t, p); }
    assert t[0..] == t;
  }

  lemma JsonEscapedPlain(t: string)
    requires '%' !in t && '+' !in t
    ensures '%' !in JsonString(t) && '+' !in JsonString(t)
  {
    assert forall c :: c in JsonString(t) ==> c == '"' || c in JsonEscaped(t);
    JsonEscapedChars(t);
  }

  lemma {:induction false} JsonEscapedChars(t: string)
    ensures forall c :: c in JsonEscaped(t) ==> c in t || c == '\\' || c == '"' || IsAlphanumeric(c)
    decreases |t|
  {
    if t != [] {
      JsonEscapedChars(t[1..]);
      assert forall c :: c in t[1..] ==> c in t;
    }
  }

  // ---------------------------------------------------------------------------
  // What the listener receives

  /** For a result free of `%` and `+`, what arrives is the text after the
      first two replacements with the third applied. */
  lemma ReceiveStringStages(t: string)
    requires '%' !in t && '+' !in t
    ensures ReceiveValue(JsonString(t)) == Ok(UnescapeLt(AfterQuote(t)))
  {
    var v := JsonString(t);
    JsonEscapedPlain(t);
    FormDecodeWithoutEscapes(v);
    assert v[1..|v| - 1] == JsonEscaped(t);
    assert v != "null" by { assert v[0] == '"'; }
    UnescapeBackslashEscaped(t);
    UnescapeQuoteAfterBackslash(t);
  }

  /** For a string result with no `%`, no `+` (both are taken as form
      encoding) and not the six characters `\u003C`, the listener receives the
      text with its control characters and line separators still escaped. */
  lemma ReceiveStringDelivered(t: string)
    requires '%' !in t && '+' !in t && !Occurs(t, ESCAPED_LT)
    ensures ReceiveValue(JsonString(t)) == Ok(Delivered(t))
  {
    ReceiveStringStages(t);
    UnescapeLtAfterQuote(t);
  }

  lemma {:induction false} DeliveredPlain(t: string)
    requires forall i :: 0 <= i < |t| ==> !IsJsonControl(t[i])
    ensures Delivered(t) == t
    decreases |t|
  {
    if t != [] {
      DeliveredPlain(t[1..]);
      assert t == [t[0]] + t[1..];
    }
  }

  /** A string result reaches `onDataReceived` unchanged when, in addition, it
      holds no control character and no line separator. */
  lemma ReceiveStringResult(t: string)
    requires '%' !in t && '+' !in t && !Occurs(t, ESCAPED_LT)
    requires forall i :: 0 <= i < |t| ==> !IsJsonControl(t[i])
    ensures ReceiveValue(JsonString(t)) == Ok(t)
  {
    ReceiveStringDelivered(t);
    DeliveredPlain(t);
  }

  /** A newline in a result arrives as the two characters `\n`. */
  lemma NewlineArrivesEscaped(t: string)
    requires t == "a\nb"
    ensures ReceiveValue(JsonString(t)) == Ok("a\\nb")
  {
    NotOccursWithoutChar(t, ESCAPED_LT, 'u');
    ReceiveStringDelivered(t);
    var b := t[1..][1..];
    assert b == "b" && t[1..][0] == '\n' && t[0] == 'a';
    assert Delivered(b) == "b" by { assert b[1..] == []; }
    assert Delivered(t[1..]) == "\\n" + "b";
    assert Delivered(t) == "a" + "\\nb";
    assert "a" + "\\nb" == "a\\nb";
  }

  /** A result holding a backslash, a quote and a `<`, which the page sends
      as `"a\\b\"c\u003Cd"`, arrives intact. */
  lemma TransportExample(t: string)
    requires t == "a\\b\"c<d"
    ensures ReceiveValue(JsonString(t)) == Ok(t)
  {
    NotOccursWithoutChar(t, ESCAPED_LT, 'u');
    ReceiveStringResult(t);
  }

  /** The text `\u003C` itself arrives as `<`. */
  lemma EscapedLtTextMisread(t: string)
    requires t == ESCAPED_LT
    ensures ReceiveValue(JsonString(t)) == Ok("<")
  {
    EscapedLtChars(t);
    ReceiveStringStages(t);
    AfterQuoteWithoutLt(t);
    UnescapeLtOfEscapedLt();
  }

  lemma EscapedLtChars(t: string)
    requires t == ESCAPED_LT
    ensures '%' !in t && '+' !in t
    ensures forall i :: 0 <= i < |t| ==> t[i] != '<' && !IsJsonControl(t[i])
  {
    assert t == [t[0], t[1], t[2], t[3], t[4], t[5]];
  }

  lemma UnescapeLtOfEscapedLt()
    ensures UnescapeLt(ESCAPED_LT) == "<"
  {
    ReplaceAllHead(ESCAPED_LT, [], "<");
    assert ESCAPED_LT + [] == ESCAPED_LT;
  }

  lemma {:induction false} AfterQuoteWithoutLt(t: string)
    requires forall i :: 0 <= i < |t| ==> t[i] != '<' && !IsJsonControl(t[i])
    ensures AfterQuote(t) == t
    decreases |t|
  {
    if t != [] {
      AfterQuoteWithoutLt(t[1..]);
      assert t == [t[0]] + t[1..];
    }
  }

  lemma FormDecodeHead(s: string)
    requires s != [] && s[0] != '+' && s[0] != '%'
    ensures FormDecode(s) == Prepend(s[0], FormDecode(s[1..]))
  {
  }

  /** A `+` in a string result arrives as a space. */
  lemma PlusArrivesAsSpace(value: string)
    requires value == "\"a+b\""
    ensures ReceiveValue(value) == Ok("a b")
  {
    var d := "\"a b\"";
    PlusDecodes(value, d);
    var u := d[1..|d| - 1];
    assert u == "a b";
    ReceiveDecoded(value, d);
    NoBackslashUnchanged(u);
  }

  lemma PlusDecodes(value: string, d: string)
    requires value == "\"a+b\"" && d == "\"a b\""
    ensures FormDecode(value) == Some(d)
  {
    var s1, s2, s3 := value[1..], value[2..], value[3..];
    assert s2 == s1[1..] && s3 == s2[1..];
    assert s2 == "+b\"" && s3 == "b\"";
    FormDecodeWithoutEscapes(s3);
    assert FormDecode(s2) == Some(" " + s3);
    FormDecodeHead(s1);
    assert FormDecode(s1) == Some("a b\"") by { assert "a" + (" " + s3) == "a b\""; }
    FormDecodeHead(value);
    assert "\"" + "a b\"" == d;
  }

  /** A decoded result other than "null" with room for its quotes is unquoted and unescaped. */
  lemma ReceiveDecoded(value: string, u: string)
    requires FormDecode(value) == Some(u) && u != "null" && |u| >= 2
    ensures ReceiveValue(value) == Ok(Unquote(u))
  {
  }

  /** Text without a backslash is left alone by all three replacements. */
  lemma NoBackslashUnchanged(u: string)
    requires forall i :: 0 <= i < |u| ==> u[i] != '\\'
    ensures UnescapeLt(UnescapeQuote(UnescapeBackslash(u))) == u
  {
    NotOccursWithoutChar(u, BACKSLASH_PAIR, '\\');
    NotOccursWithoutChar(u, ESCAPED_QUOTE, '\\');
    NotOccursWithoutChar(u, ESCAPED_LT, '\\');
  }

  /** A `%` not followed by two hex digits makes `onReceiveValue` throw before
      any listener is called. */
  lemma PercentThrows(value: string)
    requires value == "\"100%\""
    ensures ReceiveValue(value) == Thrown(IllegalArgument)
  {
    var w := value[4..];
    assert w == "%\"" && !IsFormEscapeAt(w, 0);
    assert FormDecode(w) == None;
    FormDecodeHead(value[3..]);
    FormDecodeHead(value[2..]);
    FormDecodeHead(value[1..]);
    FormDecodeHead(value);
    assert value[1..][1..] == value[2..] && value[2..][1..] == value[3..] && value[3..][1..] == w;
  }

  /** A signed escape is decoded rather than rejected: the returned string
      `%+5` reaches the listener as the single character U+0005. */
  lemma SignedEscapeDelivered(value: string)
    requires value == "\"%+5\""
    ensures ReceiveValue(value) == Ok("\U{5}")
  {
    var d := "\"\U{5}\"";
    var w := value[1..];
    assert w == "%+5\"" && IsFormEscapeAt(w, 0) && w[3..] == "\"";
    FormDecodeWithoutEscapes(w[3..]);
    assert FormEscapedChar(w[1], w[2]) == '\U{5}';
    assert FormDecode(w) == Some(['\U{5}'] + "\"");
    assert ['\U{5}'] + "\"" == "\U{5}\"";
    FormDecodeHead(value);
    assert "\"" + "\U{5}\"" == d;
    ReceiveDecoded(value, d);
    NoBackslashUnchanged(d[1..|d| - 1]);
    assert d[1..|d| - 1] == "\U{5}";
  }

  /** A `null` result and the string result "null" reach the listener alike. */
  lemma NullIsAmbiguous(t: string)
    requires t == "null"
    ensures ReceiveValue("null") == ReceiveValue(JsonString(t)) == Ok("null")
  {
    FormDecodeWithoutEscapes("null");
    ReceiveStringResult(t);
  }
}
