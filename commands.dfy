/** The outbound command builders of `RichEditor`: the colour formatter
    (RichEditor.java:313-315) and the trigger strings each public operation
    hands to `exec` (RichEditor.java:338-347, 459-1085). */
module Commands {
  import opened Base
  import opened JavaStrings
  import opened Codec

  // ---------------------------------------------------------------------------
  // convertHexColorString (RichEditor.java:313-315)

  /** `String.format("#%06X", 0xFFFFFF & color)`. For a two's-complement
      `int`, masking with 0xFFFFFF keeps the value modulo 2^24, which is
      Dafny's (never negative) `%`. */
  function ConvertHexColorString(color: Int32): (hex: string)
    ensures |hex| == 7 && hex[0] == '#'
    ensures AllDigitsIn(hex[1..], 16)
    ensures ParseDigits(hex[1..], 16) == color % 0x100_0000
  {
    var n := color % 0x100_0000;
    var digits := NatToDigits(n, 16);
    assert Pow16(6) == 0x100_0000;
    HexDigitsLength(n, 6);
    ParseNatToDigits(n, 16);
    ParseLeadingZeros(6 - |digits|, digits, 16);
    "#" + FormatHex(n, 6)
  }

  /** Only the low 24 bits matter: two colours print alike exactly when they
      agree on red, green and blue, whatever their alpha bytes. */
  lemma ColorIgnoresAlpha(a: Int32, b: Int32)
    ensures ConvertHexColorString(a) == ConvertHexColorString(b) <==> a % 0x100_0000 == b % 0x100_0000
  {
    if ConvertHexColorString(a) == ConvertHexColorString(b) {
      assert ConvertHexColorString(a)[1..] == ConvertHexColorString(b)[1..];
    }
  }

  /** Opaque red, `0xFFFF0000` as a Java `int`, prints as `#FF0000`. */
  lemma OpaqueRed()
    ensures ConvertHexColorString(-0x1_0000) == "#FF0000"
  {
    var h := "FF0000";
    RedDigits(h);
    HexColorCanonical(h);
    ColorIgnoresAlpha(-0x1_0000, 0xFF0000);
  }

  lemma RedDigits(h: string)
    requires h == "FF0000"
    ensures AllDigitsIn(h, 16) && ParseDigits(h, 16) == 0xFF0000
  {
    assert ParseDigits(h[..1], 16) == 0xF;
    assert ParseDigits(h[..2], 16) == 0xFF by { assert h[..2][..1] == h[..1]; }
    assert ParseDigits(h[..3], 16) == 0xFF0 by { assert h[..3][..2] == h[..2]; }
    assert ParseDigits(h[..4], 16) == 0xFF00 by { assert h[..4][..3] == h[..3]; }
    assert ParseDigits(h[..5], 16) == 0xFF000 by { assert h[..5][..4] == h[..4]; }
    assert h[..5] == h[..|h| - 1];
  }

  /** Pure green prints with its leading zeros. */
  lemma PureGreen()
    ensures ConvertHexColorString(0x00FF00) == "#00FF00"
  {
    var h := "00FF00";
    GreenDigits(h);
    HexColorCanonical(h);
  }

  lemma GreenDigits(h: string)
    requires h == "00FF00"
    ensures AllDigitsIn(h, 16) && ParseDigits(h, 16) == 0xFF00
  {
    assert ParseDigits(h[..1], 16) == 0;
    assert ParseDigits(h[..2], 16) == 0 by { assert h[..2][..1] == h[..1]; }
    assert ParseDigits(h[..3], 16) == 0xF by { assert h[..3][..2] == h[..2]; }
    assert ParseDigits(h[..4], 16) == 0xFF by { assert h[..4][..3] == h[..3]; }
    assert ParseDigits(h[..5], 16) == 0xFF0 by { assert h[..5][..4] == h[..4]; }
    assert h[..5] == h[..|h| - 1];
  }

  /** Formatting the value of a six-digit upper-case hex colour gives that
      colour back, so re-normalising a normalised colour changes nothing. */
  lemma HexColorCanonical(h: string)
    requires |h| == 6 && AllDigitsIn(h, 16)
    ensures ParseDigits(h, 16) < 0x100_0000
    ensures ConvertHexColorString(ParseDigits(h, 16)) == "#" + h
  {
    var n := ParseDigits(h, 16);
    ParseDigitsBound(h, 16);
    assert Pow16(6) == 0x100_0000;
    assert n % 0x100_0000 == n;
    var hex := ConvertHexColorString(n);
    ParseHexInjective(hex[1..], h);
    assert hex == [hex[0]] + hex[1..];
  }

  // ---------------------------------------------------------------------------
  // Trigger strings

  const PREPARE_INSERT := "javascript:RE.prepareInsert();"
  /** `insertTable` issues its prepare without the semicolon (RichEditor.java:1083). */
  const PREPARE_INSERT_BARE := "javascript:RE.prepareInsert()"

  predicate IsPrepare(t: string) {
    t == PREPARE_INSERT || t == PREPARE_INSERT_BARE
  }

  /** `Boolean.toString` / string concatenation of a `boolean`. */
  function BoolText(b: bool): string {
    if b then "true" else "false"
  }

  /** The properties `insertYoutubeVideo` always passes (RichEditor.java:1025). */
  const YOUTUBE_PROPERTIES := "frameborder=\"0\" allow=\"accelerometer; autoplay; clipboard-write; encrypted-media; gyroscope; picture-in-picture; fullscreen\""

  /** The six-argument `insertIFrame` call, the shape `insertYoutubeVideo`
      uses (RichEditor.java:1026). */
  function IFrameCommand(src: string, name: string, width: string, height: string, relative: bool, optProperties: string): string {
    "javascript:RE.insertIFrame('" + src + "', '" + name + "', '" + width + "', '" + height + "', '" + BoolText(relative) + "', '" + optProperties + "');"
  }

  /** The insertion command of `insertIFrame` exactly as RichEditor.java:1010
      concatenates it. */
  function IFrameAsWritten(src: string, name: string, width: string, height: string, relative: bool, optProperties: string): string {
    "javascript:RE.insertIFrame('" + src + "', '" + name + "', '" + "', '" + width + "', '" + height + "', '" + BoolText(relative) + "', '" + optProperties + "');"
  }

  /** As written, `insertIFrame` passes seven arguments: an extra empty one
      follows the name, so the page receives the width where the six-argument
      call has the height, and every later argument one place late. */
  lemma IFrameAsWrittenHasExtraArgument(src: string, name: string, width: string, height: string, relative: bool, optProperties: string)
    ensures IFrameAsWritten(src, name, width, height, relative, optProperties)
         == IFrameCommand(src, name + "', '", width, height, relative, optProperties)
    ensures |IFrameAsWritten(src, name, width, height, relative, optProperties)|
         == |IFrameCommand(src, name, width, height, relative, optProperties)| + 4
  {
  }

  // ---------------------------------------------------------------------------
  // The gravity layout attribute (RichEditor.java:268-298)

  /** `View.NO_ID`, what `getInt` returns when the attribute is absent. */
  const NO_ID := -1
  /** The `android.view.Gravity` values `applyAttributes` switches on. */
  const GRAVITY_CENTER_HORIZONTAL := 0x01
  const GRAVITY_LEFT := 0x03
  const GRAVITY_RIGHT := 0x05
  const GRAVITY_CENTER_VERTICAL := 0x10
  const GRAVITY_CENTER := 0x11
  const GRAVITY_TOP := 0x30
  const GRAVITY_BOTTOM := 0x50

  predicate IsSwitchedGravity(gravity: int) {
    gravity == GRAVITY_LEFT || gravity == GRAVITY_RIGHT || gravity == GRAVITY_TOP || gravity == GRAVITY_BOTTOM
    || gravity == GRAVITY_CENTER_VERTICAL || gravity == GRAVITY_CENTER_HORIZONTAL || gravity == GRAVITY_CENTER
  }

  const ALIGN_CENTER := "javascript:RE.setTextAlign(\"center\")"
  const ALIGN_MIDDLE := "javascript:RE.setVerticalAlign(\"middle\")"

  /** The triggers `applyAttributes` passes to `exec` for a gravity value.
      The `switch` compares whole values, so any value other than the seven
      it names aligns nothing; only `CENTER` issues two triggers. */
  function GravityScripts(gravity: int): (ts: seq<string>)
    ensures ts != [] <==> IsSwitchedGravity(gravity)
    ensures |ts| == 2 <==> gravity == GRAVITY_CENTER
    ensures |ts| <= 2
  {
    if gravity == GRAVITY_LEFT then ["javascript:RE.setTextAlign(\"left\")"]
    else if gravity == GRAVITY_RIGHT then ["javascript:RE.setTextAlign(\"right\")"]
    else if gravity == GRAVITY_TOP then ["javascript:RE.setVerticalAlign(\"top\")"]
    else if gravity == GRAVITY_BOTTOM then ["javascript:RE.setVerticalAlign(\"bottom\")"]
    else if gravity == GRAVITY_CENTER_VERTICAL then [ALIGN_MIDDLE]
    else if gravity == GRAVITY_CENTER_HORIZONTAL then [ALIGN_CENTER]
    else if gravity == GRAVITY_CENTER then [ALIGN_MIDDLE, ALIGN_CENTER]
    else []
  }

  /** `CENTER` is `CENTER_VERTICAL | CENTER_HORIZONTAL`, and it issues the
      vertical centring and then the horizontal one. */
  lemma GravityCenterIsBothAxes()
    ensures GRAVITY_CENTER == GRAVITY_CENTER_VERTICAL + GRAVITY_CENTER_HORIZONTAL
    ensures GravityScripts(GRAVITY_CENTER) == GravityScripts(GRAVITY_CENTER_VERTICAL) + GravityScripts(GRAVITY_CENTER_HORIZONTAL)
  {
  }

  /** An absent attribute, and a combined value such as `TOP | LEFT`, match
      no case of the `switch`: nothing is aligned. */
  lemma GravityCombinationIgnored()
    ensures GravityScripts(NO_ID) == []
    ensures GRAVITY_TOP + GRAVITY_LEFT == 0x33 && GravityScripts(GRAVITY_TOP + GRAVITY_LEFT) == []
  {
  }

  /** The vocabulary of modelled operations. `Option` arguments are the
      `String` parameters the source replaces by "" when null. */
  datatype Operation =
    | SetHtml(contents: Option<string>)
    | InsertHtml(html: Option<string>)
    | InsertHrLine
    | InsertCollapsibleSection(section: string, content: string)
    | InsertImage(url: string, alt: string, width: string, height: string, relative: bool)
    | InsertVideo(url: string, alt: string, width: string, height: string, relative: bool, optProperties: string)
    | InsertAudio(url: string, optProperties: string)
    | InsertIFrame(src: string, name: string, width: string, height: string, relative: bool, optProperties: string)
    | InsertYoutubeVideo(src: string, width: string, height: string, relative: bool)
    | InsertLink(href: string, text: string, title: string)
    | InsertCheckbox
    | InsertTable(col: Int32, row: Int32)
    | SetTextColor(color: string)
    | SetTextColorValue(colorValue: Int32)
    | SetTextBackgroundColor(color: string)
    | SetTextBackgroundColorValue(colorValue: Int32)
    | SetEditorFontColor(colorValue: Int32)
    | SetFontSize(size: Int32)
    | SetHeading(heading: Int32)
    | SetBold(enabled: bool)

  /** `setTextColor(String)`; `setTextColor(int)` formats the colour first. */
  function TextColorScripts(color: string): seq<string> {
    [PREPARE_INSERT, "javascript:RE.setTextColor('" + color + "');"]
  }

  /** `setTextBackgroundColor(String)`; the `int` overload formats the colour first. */
  function TextBackgroundColorScripts(color: string): seq<string> {
    [PREPARE_INSERT, "javascript:RE.setTextBackgroundColor('" + color + "');"]
  }

  /** The triggers each operation passes to `exec`, in order. `insertIFrame`
      sends the seven-argument string the source concatenates
      (`IFrameAsWritten`); `IFrameScripts` is the six-argument form. */
  function Scripts(op: Operation): seq<string> {
    match op
    case SetHtml(c) => ["javascript:RE.setHtml('" + FormEncode(c.GetOr("")) + "');"]
    case InsertHtml(c) => [PREPARE_INSERT, "javascript:RE.insertHTML('" + FormEncode(c.GetOr("")) + "');"]
    case InsertHrLine => [PREPARE_INSERT, "javascript:RE.insertHTML('<hr>');"]
    case InsertCollapsibleSection(section, content) =>
      ["javascript:RE.insertCollapsibleSection('" + section + "', '" + content + "');"]
    case InsertImage(url, alt, width, height, relative) =>
      [PREPARE_INSERT, "javascript:RE.insertImage('" + url + "', '" + alt + "','" + width + "', '" + height + "', '" + BoolText(relative) + "');"]
    case InsertVideo(url, alt, width, height, relative, opt) =>
      [PREPARE_INSERT, "javascript:RE.insertVideo('" + url + "', '" + alt + "', '" + width + "','" + height + "', '" + BoolText(relative) + "', '" + opt + "');"]
    case InsertAudio(url, opt) =>
      [PREPARE_INSERT, "javascript:RE.insertAudio('" + url + "', '" + opt + "');"]
    case InsertIFrame(src, name, width, height, relative, opt) =>
      [PREPARE_INSERT, IFrameAsWritten(src, name, width, height, relative, opt)]
    case InsertYoutubeVideo(src, width, height, relative) =>
      ["javascript:RE.insertIFrame('" + src + "', '', '" + width + "', '" + height + "', '" + BoolText(relative) + "', '" + YOUTUBE_PROPERTIES + "');"]
    case InsertLink(href, text, title) =>
      [PREPARE_INSERT, "javascript:RE.insertLink('" + href + "', '" + text + "', '" + title + "');"]
    case InsertCheckbox => [PREPARE_INSERT, "javascript:RE.setCheckbox();"]
    case InsertTable(col, row) =>
      [PREPARE_INSERT_BARE, "javascript:RE.insertTable(" + IntToDecimal(col) + "," + IntToDecimal(row) + ")"]
    case SetTextColor(color) => TextColorScripts(color)
    case SetTextColorValue(c) => TextColorScripts(ConvertHexColorString(c))
    case SetTextBackgroundColor(color) => TextBackgroundColorScripts(color)
    case SetTextBackgroundColorValue(c) => TextBackgroundColorScripts(ConvertHexColorString(c))
    case SetEditorFontColor(c) => ["javascript:RE.setBaseTextColor('" + ConvertHexColorString(c) + "');"]
    case SetFontSize(size) => ["javascript:RE.setFontSize('" + IntToDecimal(size) + "');"]
    case SetHeading(heading) => ["javascript:RE.setHeading('" + IntToDecimal(heading) + "');"]
    case SetBold(enabled) => ["javascript:RE.setBold(" + BoolText(enabled) + ");"]
  }

  /** The operations that capture the insertion point before they change the
      document: the inserting builders and the text-colour setters.
      `insertYoutubeVideo` and `insertCollapsibleSection` are not among them. */
  predicate PreparesInsert(op: Operation) {
    op.InsertHtml? || op.InsertHrLine? || op.InsertImage? || op.InsertVideo? || op.InsertAudio?
    || op.InsertIFrame? || op.InsertLink? || op.InsertCheckbox? || op.InsertTable?
    || op.SetTextColor? || op.SetTextColorValue? || op.SetTextBackgroundColor? || op.SetTextBackgroundColorValue?
  }

  /** Every call after the `javascript:RE.` prefix names its function; no
      function other than `prepareInsert` begins with `p`. */
  lemma NotPrepare(t: string)
    requires |t| > 14 && t[14] != 'p'
    ensures !IsPrepare(t)
  {
    assert PREPARE_INSERT[14] == 'p' && PREPARE_INSERT_BARE[14] == 'p';
  }

  lemma LastCallNotPrepareA(op: Operation)
    requires op.SetHtml? || op.InsertHtml? || op.InsertHrLine?
    ensures 1 <= |Scripts(op)| <= 2 && !IsPrepare(Scripts(op)[|Scripts(op)| - 1])
    ensures PreparesInsert(op) <==> |Scripts(op)| == 2 && IsPrepare(Scripts(op)[0])
  {
    var last := Scripts(op)[|Scripts(op)| - 1];
    assert |last| > 14 && last[14] != 'p';
    NotPrepare(last);
  }

  lemma LastCallNotPrepareB(op: Operation)
    requires op.InsertCollapsibleSection? || op.InsertImage? || op.InsertVideo?
    ensures 1 <= |Scripts(op)| <= 2 && !IsPrepare(Scripts(op)[|Scripts(op)| - 1])
    ensures PreparesInsert(op) <==> |Scripts(op)| == 2 && IsPrepare(Scripts(op)[0])
  {
    var last := Scripts(op)[|Scripts(op)| - 1];
    assert |last| > 14 && last[14] != 'p';
    NotPrepare(last);
  }

  lemma LastCallNotPrepareC(op: Operation)
    requires op.InsertAudio? || op.InsertIFrame?
    ensures 1 <= |Scripts(op)| <= 2 && !IsPrepare(Scripts(op)[|Scripts(op)| - 1])
    ensures PreparesInsert(op) <==> |Scripts(op)| == 2 && IsPrepare(Scripts(op)[0])
  {
    var last := Scripts(op)[|Scripts(op)| - 1];
    assert |last| > 14 && last[14] != 'p';
    NotPrepare(last);
  }

  lemma LastCallNotPrepareD(op: Operation)
    requires op.InsertYoutubeVideo? || op.InsertLink? || op.InsertCheckbox?
    ensures 1 <= |Scripts(op)| <= 2 && !IsPrepare(Scripts(op)[|Scripts(op)| - 1])
    ensures PreparesInsert(op) <==> |Scripts(op)| == 2 && IsPrepare(Scripts(op)[0])
  {
    var last := Scripts(op)[|Scripts(op)| - 1];
    assert |last| > 14 && last[14] != 'p';
    NotPrepare(last);
  }

  lemma LastCallNotPrepareE(op: Operation)
    requires op.InsertTable? || op.SetTextColor? || op.SetTextColorValue?
    ensures 1 <= |Scripts(op)| <= 2 && !IsPrepare(Scripts(op)[|Scripts(op)| - 1])
    ensures PreparesInsert(op) <==> |Scripts(op)| == 2 && IsPrepare(Scripts(op)[0])
  {
    var last := Scripts(op)[|Scripts(op)| - 1];
    assert |last| > 14 && last[14] != 'p';
    NotPrepare(last);
  }

  lemma LastCallNotPrepareF(op: Operation)
    requires op.SetTextBackgroundColor? || op.SetTextBackgroundColorValue? || op.SetEditorFontColor?
    ensures 1 <= |Scripts(op)| <= 2 && !IsPrepare(Scripts(op)[|Scripts(op)| - 1])
    ensures PreparesInsert(op) <==> |Scripts(op)| == 2 && IsPrepare(Scripts(op)[0])
  {
    var last := Scripts(op)[|Scripts(op)| - 1];
    assert |last| > 14 && last[14] != 'p';
    NotPrepare(last);
  }

  lemma LastCallNotPrepareG(op: Operation)
    requires op.SetFontSize? || op.SetHeading? || op.SetBold?
    ensures 1 <= |Scripts(op)| <= 2 && !IsPrepare(Scripts(op)[|Scripts(op)| - 1])
    ensures PreparesInsert(op) <==> |Scripts(op)| == 2 && IsPrepare(Scripts(op)[0])
  {
    var last := Scripts(op)[|Scripts(op)| - 1];
    assert |last| > 14 && last[14] != 'p';
    NotPrepare(last);
  }

  /** Each operation issues its own call last, preceded by exactly one
      `prepareInsert` when it is an insertion and by nothing otherwise. */
  lemma PrepareImmediatelyBefore(op: Operation)
    ensures 1 <= |Scripts(op)| <= 2
    ensures !IsPrepare(Scripts(op)[|Scripts(op)| - 1])
    ensures PreparesInsert(op) <==> |Scripts(op)| == 2 && IsPrepare(Scripts(op)[0])
  {
    if op.SetHtml? || op.InsertHtml? || op.InsertHrLine? {
      LastCallNotPrepareA(op);
    } else if op.InsertCollapsibleSection? || op.InsertImage? || op.InsertVideo? {
      LastCallNotPrepareB(op);
    } else if op.InsertAudio? || op.InsertIFrame? {
      LastCallNotPrepareC(op);
    } else if op.InsertYoutubeVideo? || op.InsertLink? || op.InsertCheckbox? {
      LastCallNotPrepareD(op);
    } else if op.InsertTable? || op.SetTextColor? || op.SetTextColorValue? {
      LastCallNotPrepareE(op);
    } else if op.SetTextBackgroundColor? || op.SetTextBackgroundColorValue? || op.SetEditorFontColor? {
      LastCallNotPrepareF(op);
    } else {
      LastCallNotPrepareG(op);
    }
  }

  /** `insertYoutubeVideo` is the six-argument `insertIFrame` call with an
      empty name and fixed properties, and it issues no prepare. */
  lemma YoutubeIsIFrameWithoutName(src: string, width: string, height: string, relative: bool)
    ensures Scripts(InsertYoutubeVideo(src, width, height, relative))
         == [IFrameCommand(src, "", width, height, relative, YOUTUBE_PROPERTIES)]
  {
    var x := "javascript:RE.insertIFrame('" + src;
    assert x + "', '" + "" == x + "', '";
    assert x + "', '" + "', '" == x + "', '', '";
  }

  /** The triggers of `insertIFrame` with the six-argument call that
      `insertYoutubeVideo` uses and the page's `RE.insertIFrame` expects. */
  function IFrameScripts(src: string, name: string, width: string, height: string, relative: bool, optProperties: string): seq<string> {
    [PREPARE_INSERT, IFrameCommand(src, name, width, height, relative, optProperties)]
  }

  /** With the six-argument call, `insertIFrame` with an empty name and the
      YouTube properties inserts exactly what `insertYoutubeVideo` inserts,
      after its prepare. */
  lemma IFrameAgreesWithYoutube(src: string, width: string, height: string, relative: bool)
    ensures IFrameScripts(src, "", width, height, relative, YOUTUBE_PROPERTIES)
         == [PREPARE_INSERT] + Scripts(InsertYoutubeVideo(src, width, height, relative))
  {
    YoutubeIsIFrameWithoutName(src, width, height, relative);
  }

  /** The command as written differs from the one `insertYoutubeVideo` sends
      for the same frame. */
  lemma IFrameAsWrittenDisagreesWithYoutube(src: string, width: string, height: string, relative: bool)
    ensures IFrameAsWritten(src, "", width, height, relative, YOUTUBE_PROPERTIES)
         != Scripts(InsertYoutubeVideo(src, width, height, relative))[0]
    ensures Scripts(InsertIFrame(src, "", width, height, relative, YOUTUBE_PROPERTIES))
         != [PREPARE_INSERT] + Scripts(InsertYoutubeVideo(src, width, height, relative))
  {
    IFrameAsWrittenHasExtraArgument(src, "", width, height, relative, YOUTUBE_PROPERTIES);
    YoutubeIsIFrameWithoutName(src, width, height, relative);
    var sent := Scripts(InsertIFrame(src, "", width, height, relative, YOUTUBE_PROPERTIES));
    var expected := [PREPARE_INSERT] + Scripts(InsertYoutubeVideo(src, width, height, relative));
    assert sent[1] != expected[1];
  }

  /** The payload of `setHtml` / `insertHTML` is form-encoded: it contains no
      quote, apostrophe or backslash that could end the string literal early,
      a null payload is sent as the empty one, and for ASCII text decoding the
      payload gives the contents back. */
  lemma HtmlPayloadEncoded(contents: Option<string>)
    ensures var e := FormEncode(contents.GetOr(""));
      && Scripts(SetHtml(contents)) == ["javascript:RE.setHtml('" + e + "');"]
      && Scripts(InsertHtml(contents)) == [PREPARE_INSERT, "javascript:RE.insertHTML('" + e + "');"]
      && '\'' !in e && '"' !in e && '\\' !in e
      && (IsAscii(contents.GetOr("")) ==> FormDecode(e) == Some(contents.GetOr("")))
  {
    var e := FormEncode(contents.GetOr(""));
    assert !IsFormSafe('\'') && !IsFormSafe('"') && !IsFormSafe('\\');
    if IsAscii(contents.GetOr("")) {
      FormDecodeEncode(contents.GetOr(""));
    }
  }

  /** `setFontSize` neither clamps nor rejects: distinct sizes, in range or
      not, give distinct commands. */
  lemma FontSizeUnclamped(a: Int32, b: Int32)
    requires Scripts(SetFontSize(a)) == Scripts(SetFontSize(b))
    ensures a == b
  {
    var pre, post := "javascript:RE.setFontSize('", "');";
    var x, y := pre + IntToDecimal(a) + post, pre + IntToDecimal(b) + post;
    assert x == y;
    assert IntToDecimal(a) == x[|pre|..|x| - |post|];
    assert IntToDecimal(b) == y[|pre|..|y| - |post|];
    IntToDecimalInjective(a, b);
  }

  /** `setBold(true)` is one command, with no prepare. */
  lemma SetBoldTrue()
    ensures Scripts(SetBold(true)) == ["javascript:RE.setBold(true);"]
  {
    assert "javascript:RE.setBold(" + "true" + ");" == "javascript:RE.setBold(true);";
  }
}
