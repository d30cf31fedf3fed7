# RichEditor for Android: a Dafny model of the editor bridge

RichEditor is an Android `WebView` subclass that hosts an HTML page
(`rich_editor.html` with `rich_editor.js`) and drives it as a rich-text
editor. The Java side sends `javascript:RE.…` triggers into the page. The page
answers in two ways. It navigates to `re-callback://`, `re-state://` and
`re-click://` URLs, which the view's `WebViewClient` intercepts. It also
returns values of `evaluateJavascript` calls, which arrive in
`onReceiveValue`.

This project models the deterministic core of that exchange and proves its
properties in Dafny 4.11:

- `Base` holds `Option`, `Result`, the Java exceptions that can escape, and
  the 32-bit `int` range.
- `JavaStrings` models the `String`/`TextUtils` operations the bridge relies
  on: `indexOf`, `replace`, `replaceFirst`, `toUpperCase`,
  `equalsIgnoreCase`, and decimal and hexadecimal formatting.
- `Codec` models three decoders and encoders:
  - `Uri.decode`, where `+` is kept;
  - `URLDecoder.decode`, where `+` becomes a space and a bad `%` throws;
  - `URLEncoder.encode`.
- `Decoration` models the `Type` enum and the `stateCheck` classifier loop.
- `Gate` models the readiness gate of `exec`, a pure state machine over
  `isReady`, the calls the page has received, and the triggers posted with
  `postDelayed`.
- `Commands` models the outbound command builders and the `#RRGGBB` colour
  formatter.
- `ValueCallback` models the unescaping chain of `onReceiveValue`.
- `Bridge` is the class `RichEditor`. Its fields are the readiness flag, the
  five listener slots, `mEvaluateFinished`, the page-call log, the pending
  queue and a log of listener invocations. It also holds the URL dispatcher
  of both `shouldOverrideUrlLoading` overloads and `onPageFinished`.
- `PageScript` models the DOM-independent logic of `rich_editor.js`:
  - the class `EditorScript` with `RE.callbackQueue`;
  - the selection predicates;
  - anchor collection and its `while` loop;
  - `_findNodeByNameInContainer` and `getSelectedHref`;
  - the placeholder and heading choices;
  - the nested loops of `insertTable`.

### Where the behaviour differs from what the editor's documentation suggests

The model follows the code:

- `onPageFinished` assigns `isReady` on every page load. A later load of
  another URL makes the editor not ready again (`Bridge.ReadinessCanRevert`).
  The load listener is called each time with that flag.
- `requestJSData` calls `evaluateJavascript` directly. It is not gated by
  `isReady` and always returns `true`. So `hasRangeSelection` and
  `getSelectedHref` both return `true`, although the Javadoc of
  `getSelectedHref` says it returns `false` without a selection.
- `mEvaluateFinished` is only ever set to `false`.
- Triggers deferred before readiness are re-posted at the back of the
  looper queue. A `prepareInsert`/insert pair can therefore reach the page in
  the wrong order (`Gate.PairCanBeReordered`). A trigger issued after
  readiness can overtake an earlier deferred one (`Gate.LateTriggerOvertakes`).
- `insertYoutubeVideo` and `insertCollapsibleSection` issue no `prepareInsert`.
- `setFontSize` logs out-of-range sizes but sends them unchanged.
- The constructor's `applyAttributes` compares the whole `android:gravity`
  value against seven constants. A combined value such as `top|left` aligns
  nothing (`Commands.GravityCombinationIgnored`). The triggers it does issue
  are posted before the page is ready, so they wait in the retry queue.
- `onReceiveValue` delivers the page's `null` as the four-letter string
  `"null"`, which cannot be told apart from a returned string `"null"`.
  `URLDecoder` turns a `+` in the value into a space. It reads the two
  characters after a `%` with `Integer.parseInt(pair, 16)`. So, besides two
  hex digits, it also accepts a signed pair: `%+5` becomes U+0005 and `%-0`
  becomes U+0000 (`ValueCallback.SignedEscapeDelivered`). Any other `%`
  throws `IllegalArgumentException`, and a decoded value
  shorter than two characters throws `StringIndexOutOfBoundsException`;
  neither is caught. Text that itself contains `\u003C` comes out as `<`.
- The chain reverses only three escapes. A newline, tab or other control
  character in a returned string arrives as the text of its JSON escape: a
  newline arrives as a backslash and `n` (`ValueCallback.NewlineArrivesEscaped`).
- Nothing in `RichEditor.java` calls `RE.getCommandQueue`, so the page's queue
  is never drained, and each `re-callback://` signal gives the text listener
  the empty text (`PageScript.SignalCarriesNoText`).
- `_findNodeByNameInContainer` discards the result of its recursive call. An
  anchor above the selection's direct parent is found but lost, and
  `getSelectedHref` then throws a `TypeError` (`PageScript.AnchorGrandparentLost`).

## Model

| member | source | states |
|---|---|---|
| JavaStrings.IndexOf | richeditor/src/main/java/jp/wasabeef/richeditor/RichEditor.java:1156-1156 | `TextUtils.indexOf` is -1 exactly when the pattern does not occur; otherwise it is the first index at which the pattern starts |
| JavaStrings.IndexOfZeroIffStartsWith | richeditor/src/main/java/jp/wasabeef/richeditor/RichEditor.java:1178-1178 | the scheme test `indexOf(url, scheme) == 0` holds exactly when the URL starts with the scheme |
| JavaStrings.ReplaceFirstOfPrefix | richeditor/src/main/java/jp/wasabeef/richeditor/RichEditor.java:244-244 | `replaceFirst(scheme, "")` on a URL that starts with the scheme leaves exactly the rest |
| JavaStrings.ReplaceAllHead | richeditor/src/main/java/jp/wasabeef/richeditor/RichEditor.java:232-234 | `replace` rewrites a match at the front and continues after it |
| JavaStrings.ReplaceAllSkip | richeditor/src/main/java/jp/wasabeef/richeditor/RichEditor.java:232-234 | `replace` leaves a prefix containing no match unchanged |
| JavaStrings.EqualsIgnoreCaseIffSameUpper | richeditor/src/main/java/jp/wasabeef/richeditor/RichEditor.java:1141-1141 | two URLs are equal ignoring case exactly when their upper-case forms are equal |
| JavaStrings.ParseNatToDigits | richeditor/src/main/java/jp/wasabeef/richeditor/RichEditor.java:776-776 | reading back the digits printed for a number gives that number |
| JavaStrings.IntToDecimalInjective | richeditor/src/main/java/jp/wasabeef/richeditor/RichEditor.java:776-776 | distinct `int` values print as distinct decimal text |
| JavaStrings.IntToDecimalSign | richeditor/src/main/java/jp/wasabeef/richeditor/RichEditor.java:776-776 | printed decimal text is non-empty and starts with `-` exactly for negative values |
| Codec.UriDecodePlainPrefix | richeditor/src/main/java/jp/wasabeef/richeditor/RichEditor.java:1154-1154 | `Uri.decode` leaves a prefix without `%` in place and decodes only what follows |
| Codec.UriDecodeWithoutEscapes | richeditor/src/test/java/richeditor/UrlDecoderTest.java:15-20 | `Uri.decode` leaves text without `%` unchanged, including `+`, `#`, `&` and non-ASCII characters |
| Codec.UriDecode | richeditor/src/main/java/jp/wasabeef/richeditor/RichEditor.java:1154-1154 | `Uri.decode`, one character per escape; no contract of its own: `Codec.UriDecodePlainPrefix` and `Codec.UriDecodeWithoutEscapes` state what it does |
| Codec.FormDecodeWithoutEscapes | richeditor/src/main/java/jp/wasabeef/richeditor/RichEditor.java:225-225 | `URLDecoder.decode` returns text without `%` and `+` unchanged and does not throw |
| Codec.FormDecode | richeditor/src/main/java/jp/wasabeef/richeditor/RichEditor.java:225-225 | `URLDecoder.decode`, with `None` for the `IllegalArgumentException` of a `%` not followed by two hex digits, `+` and a hex digit, or `-0`; no contract of its own: the `Codec.FormDecode…` lemmas and `Codec.SignedEscapes` state what it does |
| Codec.FormDecodeComplete | richeditor/src/main/java/jp/wasabeef/richeditor/RichEditor.java:225-225 | `URLDecoder.decode` does not throw on text in which every `%` begins an escape of two hex digits |
| Codec.SignedEscapes | richeditor/src/main/java/jp/wasabeef/richeditor/RichEditor.java:225-225 | `URLDecoder.decode` decodes `%+5` to U+0005 and `%-0` to U+0000, as `Integer.parseInt` reads the signed pair, and throws on the negative `%-5` |
| Codec.FormEncode | richeditor/src/main/java/jp/wasabeef/richeditor/RichEditor.java:343-343 | `URLEncoder.encode` output consists only of unreserved characters, `+` and `%`, and every `%` is followed by two upper-case hex digits |
| Codec.FormDecodeEncode | richeditor/src/main/java/jp/wasabeef/richeditor/RichEditor.java:878-878 | `URLDecoder.decode` undoes `URLEncoder.encode` on ASCII text |
| Codec.FormDecodeEncodeSucceeds | richeditor/src/main/java/jp/wasabeef/richeditor/RichEditor.java:343-343 | decoding a form-encoded payload never throws, whatever its text, non-ASCII included |
| Commands.ConvertHexColorString | richeditor/src/main/java/jp/wasabeef/richeditor/RichEditor.java:313-315 | the result is `#` then six upper-case hex digits whose value is the colour's low 24 bits |
| Commands.ColorIgnoresAlpha | richeditor/src/main/java/jp/wasabeef/richeditor/RichEditor.java:313-315 | two colours print alike exactly when their low 24 bits agree; the alpha byte is ignored |
| Commands.HexColorCanonical | richeditor/src/main/java/jp/wasabeef/richeditor/RichEditor.java:313-315 | formatting the value of any six-digit upper-case hex colour gives `#` and those six digits back, leading zeros included |
| Commands.OpaqueRed | richeditor/src/main/java/jp/wasabeef/richeditor/RichEditor.java:313-315 | `0xFFFF0000` as a Java `int` prints as `#FF0000` |
| Commands.PureGreen | richeditor/src/main/java/jp/wasabeef/richeditor/RichEditor.java:313-315 | `0x00FF00` prints as `#00FF00`, zero-padded |
| Commands.Scripts | richeditor/src/main/java/jp/wasabeef/richeditor/RichEditor.java:459-1085 | the triggers each builder passes to `exec`: one or two, the last never `prepareInsert`, and two, `prepareInsert` first, exactly for the inserting builders and the text-colour setters; `insertIFrame` sends the command as concatenated |
| Commands.GravityScripts | richeditor/src/main/java/jp/wasabeef/richeditor/RichEditor.java:268-298 | `applyAttributes` issues alignment triggers exactly for the seven gravity values its `switch` names, two of them only for `CENTER` |
| Commands.GravityCenterIsBothAxes | richeditor/src/main/java/jp/wasabeef/richeditor/RichEditor.java:295-297 | `CENTER` is the sum of the vertical and horizontal centring values and issues their two triggers, vertical first |
| Commands.GravityCombinationIgnored | richeditor/src/main/java/jp/wasabeef/richeditor/RichEditor.java:275-297 | an absent attribute (`NO_ID`) and a combined value such as `TOP \| LEFT` align nothing |
| Commands.PrepareImmediatelyBefore | richeditor/src/main/java/jp/wasabeef/richeditor/RichEditor.java:459-1085 | every builder issues one or two triggers and the last is not `prepareInsert`; there are two, the first being `prepareInsert`, exactly for the inserting builders and the text-colour setters |
| Commands.YoutubeIsIFrameWithoutName | richeditor/src/main/java/jp/wasabeef/richeditor/RichEditor.java:1024-1027 | `insertYoutubeVideo` issues a single trigger, with no prepare: the six-argument `insertIFrame` call with an empty name and the fixed properties |
| Commands.IFrameCommand | richeditor/src/main/java/jp/wasabeef/richeditor/RichEditor.java:1024-1027 | the six-argument `insertIFrame` call that `insertYoutubeVideo` sends; no contract of its own: `Commands.YoutubeIsIFrameWithoutName` states its use |
| Commands.IFrameAsWritten | richeditor/src/main/java/jp/wasabeef/richeditor/RichEditor.java:1008-1011 | the `insertIFrame` command exactly as concatenated; no contract of its own: `Commands.IFrameAsWrittenHasExtraArgument` states how it differs from the six-argument call |
| Commands.IFrameAsWrittenHasExtraArgument | richeditor/src/main/java/jp/wasabeef/richeditor/RichEditor.java:1008-1011 | the `insertIFrame` command as concatenated is the six-argument call with an extra empty argument after the name, four characters longer |
| Commands.IFrameAsWrittenDisagreesWithYoutube | richeditor/src/main/java/jp/wasabeef/richeditor/RichEditor.java:1008-1027 | as written, `insertIFrame` with an empty name and the YouTube properties sends a different command from `insertYoutubeVideo`, so its triggers are not `prepareInsert` followed by `insertYoutubeVideo`'s |
| Commands.IFrameAgreesWithYoutube | richeditor/src/main/java/jp/wasabeef/richeditor/RichEditor.java:1008-1027 | with the six-argument call (`Commands.IFrameScripts`), `insertIFrame` with an empty name and the YouTube properties sends `prepareInsert` and then exactly what `insertYoutubeVideo` sends |
| Commands.HtmlPayloadEncoded | richeditor/src/main/java/jp/wasabeef/richeditor/RichEditor.java:338-347 | `setHtml` sends one trigger and `insertHTML` a prepare plus one, both with the form-encoded payload (null sent as ""); the payload has no quote, apostrophe or backslash, and decodes back to ASCII contents |
| Commands.FontSizeUnclamped | richeditor/src/main/java/jp/wasabeef/richeditor/RichEditor.java:773-778 | `setFontSize` sends distinct commands for distinct sizes, in range or not |
| Commands.SetBoldTrue | richeditor/src/main/java/jp/wasabeef/richeditor/RichEditor.java:638-640 | `setBold(true)` is the single trigger `javascript:RE.setBold(true);` |
| Decoration.AllTypesInOrder | richeditor/src/main/java/jp/wasabeef/richeditor/RichEditor.java:61-63 | `Type.values()` lists every type once, at its ordinal |
| Decoration.Select | richeditor/src/main/java/jp/wasabeef/richeditor/RichEditor.java:257-262 | the types of a list kept by the loop; no contract of its own: `Decoration.SelectMembers` and `Decoration.SelectOrdered` state what it keeps |
| Decoration.Classify | richeditor/src/main/java/jp/wasabeef/richeditor/RichEditor.java:255-262 | the loop over `Type.values()`; no contract of its own: the `Decoration.Classify…` lemmas state what it reports |
| Decoration.StateText | richeditor/src/main/java/jp/wasabeef/richeditor/RichEditor.java:256-256 | the state text, the rest after `re-state://` upper-cased; no contract of its own: `Bridge.StateNavigation` states what the listener receives |
| Decoration.SelectMembers | richeditor/src/main/java/jp/wasabeef/richeditor/RichEditor.java:257-262 | the loop keeps a type of the scanned list exactly when its name occurs in the state text |
| Decoration.SelectOrdered | richeditor/src/main/java/jp/wasabeef/richeditor/RichEditor.java:257-262 | the loop keeps the order of the list it scans |
| Decoration.ActiveTypes | richeditor/src/main/java/jp/wasabeef/richeditor/RichEditor.java:256-262 | the `stateCheck` loop collects exactly the classifier's list |
| Decoration.ClassifyMembers | richeditor/src/main/java/jp/wasabeef/richeditor/RichEditor.java:255-262 | a type is reported exactly when its name is a substring of the state text |
| Decoration.ClassifyInDeclarationOrder | richeditor/src/main/java/jp/wasabeef/richeditor/RichEditor.java:257-262 | reported types follow enum declaration order, without repetition |
| Decoration.ClassifyIs | richeditor/src/main/java/jp/wasabeef/richeditor/RichEditor.java:257-262 | the reported list is the only declaration-ordered list with those members |
| Decoration.IncreasingUnique | richeditor/src/main/java/jp/wasabeef/richeditor/RichEditor.java:61-63 | two declaration-ordered type lists with the same members are equal |
| Decoration.BoldItalicH1Names | richeditor/src/main/java/jp/wasabeef/richeditor/RichEditor.java:259-259 | in "BOLD ITALIC H1" exactly the names BOLD, ITALIC and H1 occur |
| Decoration.ClassifyBoldItalicH1 | richeditor/src/main/java/jp/wasabeef/richeditor/RichEditor.java:255-267 | state "BOLD ITALIC H1" reports `[BOLD, ITALIC, H1]` |
| Decoration.UnorderedListNames | richeditor/src/main/java/jp/wasabeef/richeditor/RichEditor.java:259-259 | in "UNORDEREDLIST" exactly the names ORDEREDLIST and UNORDEREDLIST occur |
| Decoration.ClassifyUnorderedListAlsoOrdered | richeditor/src/main/java/jp/wasabeef/richeditor/RichEditor.java:255-267 | an unordered list reports `[ORDEREDLIST, UNORDEREDLIST]` |
| Decoration.UnorderedImpliesOrdered | richeditor/src/main/java/jp/wasabeef/richeditor/RichEditor.java:259-259 | whenever UNORDEREDLIST is reported, ORDEREDLIST is too |
| Gate.Exec | richeditor/src/main/java/jp/wasabeef/richeditor/RichEditor.java:317-327 | one `exec` call; no contract of its own: `Gate.ExecEffect` states its effect |
| Gate.ExecAll | richeditor/src/main/java/jp/wasabeef/richeditor/RichEditor.java:317-327 | consecutive `exec` calls; no contract of its own: `Gate.ExecAllNotReady` and `Gate.ExecAllReady` state their effect |
| Gate.Tick | richeditor/src/main/java/jp/wasabeef/richeditor/RichEditor.java:320-324 | one firing of the oldest posted runnable; no contract of its own: `Gate.TickNotReady` and `Gate.DrainWhenReady` state its effect |
| Gate.ExecEffect | richeditor/src/main/java/jp/wasabeef/richeditor/RichEditor.java:317-327 | when ready, `exec` loads the trigger at once; when not, it loads nothing and queues the identical trigger; readiness is unchanged |
| Gate.ExecAllNotReady | richeditor/src/main/java/jp/wasabeef/richeditor/RichEditor.java:317-327 | before readiness, consecutive `exec` calls append their triggers to the queue, unchanged and in order, and nothing reaches the page |
| Gate.ExecAllReady | richeditor/src/main/java/jp/wasabeef/richeditor/RichEditor.java:317-327 | after readiness, consecutive `exec` calls reach the page in issue order |
| Gate.TickNotReady | richeditor/src/main/java/jp/wasabeef/richeditor/RichEditor.java:320-324 | a posted runnable that fires before readiness re-posts its trigger at the back; nothing is dropped or altered |
| Gate.TicksRotate | richeditor/src/main/java/jp/wasabeef/richeditor/RichEditor.java:320-324 | n firings before readiness rotate the queue by n |
| Gate.FullRoundIdentity | richeditor/src/main/java/jp/wasabeef/richeditor/RichEditor.java:320-324 | a full round of firings before readiness leaves the state as it was |
| Gate.DrainWhenReady | richeditor/src/main/java/jp/wasabeef/richeditor/RichEditor.java:317-327 | once ready, one firing per queued trigger delivers them all, oldest first, and empties the queue |
| Gate.NothingLoadsBeforeReady | richeditor/src/main/java/jp/wasabeef/richeditor/RichEditor.java:317-327 | while the page never becomes ready, nothing reaches it and the queue holds exactly the earlier and issued triggers |
| Gate.LateTriggerOvertakes | richeditor/src/main/java/jp/wasabeef/richeditor/RichEditor.java:317-327 | a trigger issued after readiness reaches the page before one deferred earlier |
| Gate.PairCanBeReordered | richeditor/src/main/java/jp/wasabeef/richeditor/RichEditor.java:715-718 | a prepare/insert pair issued before readiness can reach the page as insert, then prepare |
| Bridge.SchemesExclusive | richeditor/src/main/java/jp/wasabeef/richeditor/RichEditor.java:125-127 | no URL starts with two of the three schemes |
| Bridge.Dispatch | richeditor/src/main/java/jp/wasabeef/richeditor/RichEditor.java:1153-1189 | the scheme tests of both `shouldOverrideUrlLoading` overloads; no contract of its own: the `Bridge.…Navigation` lemmas and `Bridge.DispatchConsumes` state its outcomes |
| Bridge.DispatchConsumes | richeditor/src/main/java/jp/wasabeef/richeditor/RichEditor.java:1174-1189 | a navigation is consumed exactly when it starts with `re-callback://` or `re-state://`, or with `re-click://` in the request overload; one not consumed notifies no listener |
| Bridge.OverloadsAgreeOffClick | richeditor/src/main/java/jp/wasabeef/richeditor/RichEditor.java:1153-1165 | the two overloads agree on every URL that does not start with `re-click://` |
| Bridge.SchemeIsPlain | richeditor/src/main/java/jp/wasabeef/richeditor/RichEditor.java:1154-1157 | decoding keeps a `%`-free scheme in front, and stripping it leaves the decoded rest |
| Bridge.CallbackNavigation | richeditor/src/main/java/jp/wasabeef/richeditor/RichEditor.java:1178-1180 | `re-callback://` + rest is consumed and the text listener, if set, receives the decoded rest |
| Bridge.StateNavigation | richeditor/src/main/java/jp/wasabeef/richeditor/RichEditor.java:1181-1183 | `re-state://` + rest is consumed and the decoration listener, if set, receives the upper-cased decoded rest and its types |
| Bridge.ClickNavigation | richeditor/src/main/java/jp/wasabeef/richeditor/RichEditor.java:1184-1186 | `re-click://` + rest reaches the click listener from the request overload; the `String` overload lets it through unconsumed |
| Bridge.EscapedSchemeNotRecognised | richeditor/src/main/java/jp/wasabeef/richeditor/RichEditor.java:1176-1178 | a scheme spelt with an escape decodes to the scheme, but is not recognised, because the test reads the raw URL |
| Bridge.DecodeFixtureOpening | richeditor/src/test/java/richeditor/UrlDecoderTest.java:15-20 | the opening of the fixture, `%20%20%3Cdiv%3E`, decodes to two spaces and `<div>` |
| Bridge.DecodeFixturePlusSigns | richeditor/src/test/java/richeditor/UrlDecoderTest.java:15-20 | the fixture's `++_%20++` decodes to `++_ ++` |
| Bridge.PageFinished | richeditor/src/main/java/jp/wasabeef/richeditor/RichEditor.java:1140-1145 | `onPageFinished` sets readiness to whether the URL equals the setup page ignoring case, changes nothing else, and passes that same flag to the load listener if one is set |
| Bridge.ReadinessCanRevert | richeditor/src/main/java/jp/wasabeef/richeditor/RichEditor.java:1141-1141 | finishing another page after the setup page makes the editor not ready again |
| Bridge.ReadyDrainsPending | richeditor/src/main/java/jp/wasabeef/richeditor/RichEditor.java:1140-1145 | once the setup page has finished, the queued triggers reach the page in order and later ones run at once |
| Bridge.BoldBeforeReady | richeditor/src/main/java/jp/wasabeef/richeditor/RichEditor.java:317-327 | `setBold(true)` issued before the page is ready reaches it only after the setup page has finished, as one call |
| Bridge.RichEditor.constructor | richeditor/src/main/java/jp/wasabeef/richeditor/RichEditor.java:159-169 | a new editor is not ready, has started loading the setup page and has empty listener slots; the alignment triggers of its `android:gravity` value, and nothing else, are pending, in order |
| Bridge.RichEditor.SetOnTextChangeListener | richeditor/src/main/java/jp/wasabeef/richeditor/RichEditor.java:184-186 | replaces the text-change slot and nothing else |
| Bridge.RichEditor.SetOnClickListener | richeditor/src/main/java/jp/wasabeef/richeditor/RichEditor.java:192-194 | replaces the click slot and nothing else |
| Bridge.RichEditor.SetOnJSDataListener | richeditor/src/main/java/jp/wasabeef/richeditor/RichEditor.java:201-203 | replaces the data slot and nothing else |
| Bridge.RichEditor.SetOnDecorationChangeListener | richeditor/src/main/java/jp/wasabeef/richeditor/RichEditor.java:205-207 | replaces the decoration slot and nothing else |
| Bridge.RichEditor.SetOnInitialLoadListener | richeditor/src/main/java/jp/wasabeef/richeditor/RichEditor.java:213-215 | replaces the load slot and nothing else |
| Bridge.RichEditor.Exec | richeditor/src/main/java/jp/wasabeef/richeditor/RichEditor.java:317-327 | the editor's state moves by one step of the gate; the listeners are untouched |
| Bridge.RichEditor.Tick | richeditor/src/main/java/jp/wasabeef/richeditor/RichEditor.java:320-324 | the oldest posted runnable fires: it re-runs `exec` on its trigger |
| Bridge.RichEditor.Perform | richeditor/src/main/java/jp/wasabeef/richeditor/RichEditor.java:459-1085 | a builder passes its triggers through the gate one after another |
| Bridge.RichEditor.ExecTriggers | richeditor/src/main/java/jp/wasabeef/richeditor/RichEditor.java:715-718 | consecutive `exec` calls compose in order |
| Bridge.RichEditor.RequestJSData | richeditor/src/main/java/jp/wasabeef/richeditor/RichEditor.java:360-368 | returns `true`, clears `mEvaluateFinished`, and sends the query to the page at once, whether ready or not |
| Bridge.RichEditor.HasRangeSelection | richeditor/src/main/java/jp/wasabeef/richeditor/RichEditor.java:438-440 | returns `true` after sending `RE.rangeSelectionExists()` |
| Bridge.RichEditor.GetSelectedHref | richeditor/src/main/java/jp/wasabeef/richeditor/RichEditor.java:424-430 | always sends both queries and returns `true`; the `false` branch is unreachable |
| Bridge.RichEditor.OnReceiveValue | richeditor/src/main/java/jp/wasabeef/richeditor/RichEditor.java:221-240 | a thrown exception leaves the state untouched; otherwise the data listener, if set, receives the unescaped value |
| Bridge.RichEditor.Callback | richeditor/src/main/java/jp/wasabeef/richeditor/RichEditor.java:242-247 | the text listener, if set, receives the value without its first `re-callback://` |
| Bridge.RichEditor.CallbackClick | richeditor/src/main/java/jp/wasabeef/richeditor/RichEditor.java:249-253 | the click listener, if set, receives the value without its first `re-click://` |
| Bridge.RichEditor.StateCheck | richeditor/src/main/java/jp/wasabeef/richeditor/RichEditor.java:255-267 | the decoration listener, if set, receives the stripped upper-cased text and the types whose names occur in it |
| Bridge.RichEditor.ShouldOverrideUrlLoading | richeditor/src/main/java/jp/wasabeef/richeditor/RichEditor.java:1153-1189 | returns whether the dispatcher consumed the URL, or else the superclass answer, and records exactly the dispatcher's listener calls |
| Bridge.RichEditor.OnPageFinished | richeditor/src/main/java/jp/wasabeef/richeditor/RichEditor.java:1140-1145 | the new state is the one `onPageFinished` specifies |
| ValueCallback.ReceiveValue | richeditor/src/main/java/jp/wasabeef/richeditor/RichEditor.java:221-240 | a `%` that does not begin an escape `URLDecoder` accepts (two hex digits, `+` and a hex digit, or `-0`) throws `IllegalArgumentException`; a decoded "null" is delivered as "null"; any other decoded value shorter than two characters throws `StringIndexOutOfBoundsException` |
| ValueCallback.Unquote | richeditor/src/main/java/jp/wasabeef/richeditor/RichEditor.java:231-234 | `substring(1, length - 1)` and the three replacements; it requires the two characters the call needs, and `ValueCallback.ReceiveValue` throws `StringIndexOutOfBoundsException` without them |
| ValueCallback.UnescapeBackslashEscaped | richeditor/src/main/java/jp/wasabeef/richeditor/RichEditor.java:232-232 | the first replacement turns every escaped backslash of a JSON string body back into one backslash |
| ValueCallback.UnescapeQuoteAfterBackslash | richeditor/src/main/java/jp/wasabeef/richeditor/RichEditor.java:233-233 | the second replacement then turns every escaped quote back into a quote |
| ValueCallback.UnescapeLtAfterQuote | richeditor/src/main/java/jp/wasabeef/richeditor/RichEditor.java:234-234 | the third replacement then gives back the original text, with each control character as the text of its JSON escape, unless that text itself contains `\u003C` |
| ValueCallback.ReceiveStringStages | richeditor/src/main/java/jp/wasabeef/richeditor/RichEditor.java:221-234 | a JSON string whose text has no `%` or `+` arrives as the three stages applied to its body |
| ValueCallback.ReceiveStringResult | richeditor/src/main/java/jp/wasabeef/richeditor/RichEditor.java:221-240 | a string the page returns arrives intact when it has no `%`, no `+`, no `\u003C` and no character the JSON writer escapes with a backslash (code points below 0x20, U+2028, U+2029) |
| ValueCallback.ReceiveStringDelivered | richeditor/src/main/java/jp/wasabeef/richeditor/RichEditor.java:221-240 | a string without `%`, `+` or `\u003C` arrives with each control character replaced by the text of its JSON escape and every other character intact |
| ValueCallback.NewlineArrivesEscaped | richeditor/src/main/java/jp/wasabeef/richeditor/RichEditor.java:221-240 | the returned string `a`, newline, `b` arrives as `a`, backslash, `n`, `b` |
| ValueCallback.TransportExample | richeditor/src/main/java/jp/wasabeef/richeditor/RichEditor.java:231-234 | a string holding a backslash, a quote and `<` arrives intact |
| ValueCallback.EscapedLtTextMisread | richeditor/src/main/java/jp/wasabeef/richeditor/RichEditor.java:234-234 | a string whose text is `\u003C` arrives as `<` |
| ValueCallback.NoBackslashUnchanged | richeditor/src/main/java/jp/wasabeef/richeditor/RichEditor.java:232-234 | text without a backslash passes the replacement chain unchanged |
| ValueCallback.PlusArrivesAsSpace | richeditor/src/main/java/jp/wasabeef/richeditor/RichEditor.java:225-225 | the returned string `a+b` arrives as `a b` |
| ValueCallback.PercentThrows | richeditor/src/main/java/jp/wasabeef/richeditor/RichEditor.java:224-228 | the returned string `100%` throws `IllegalArgumentException`, which the `catch` does not handle |
| ValueCallback.SignedEscapeDelivered | richeditor/src/main/java/jp/wasabeef/richeditor/RichEditor.java:221-240 | the returned string `%+5` is not rejected: the data listener receives the single character U+0005 |
| ValueCallback.NullIsAmbiguous | richeditor/src/main/java/jp/wasabeef/richeditor/RichEditor.java:229-229 | JavaScript `null` and the string "null" are delivered alike |
| PageScript.RangeSelectionExists | richeditor/src/main/assets/rich_editor.js:28-35 | holds for a selection of type "Range"; a null selection is never a range |
| PageScript.RangeOrCaretSelectionExists | richeditor/src/main/assets/rich_editor.js:37-44 | holds for every range and for a caret, which is not a range; never for a null selection or one of type "None" |
| PageScript.SelectedText | richeditor/src/main/assets/rich_editor.js:47-52 | a range reports the selection's own text; text is reported only for a range, so a caret reports none |
| PageScript.EditorScript.constructor | richeditor/src/main/assets/rich_editor.js:77-77 | the callback queue starts empty and no navigation has been signalled |
| PageScript.EditorScript.RunCallbackQueue | richeditor/src/main/assets/rich_editor.js:78-86 | an empty queue signals nothing; a non-empty one signals one `re-callback://` navigation; the queue is unchanged |
| PageScript.EditorScript.Callback | richeditor/src/main/assets/rich_editor.js:94-97 | the message is appended to the queue and one navigation is signalled |
| PageScript.EditorScript.GetCommandQueue | richeditor/src/main/assets/rich_editor.js:88-92 | returns the queued messages in push order and leaves the queue empty |
| PageScript.SignalCarriesNoText | richeditor/src/main/assets/rich_editor.js:83-85 | the signal URL reaches the text listener with the empty text |
| PageScript.PlaceholderRemoved | richeditor/src/main/assets/rich_editor.js:128-134 | the placeholder class goes exactly when "img" occurs anywhere in the markup as text, or text and markup are both non-empty |
| PageScript.PlaceholderCases | richeditor/src/main/assets/rich_editor.js:128-134 | an empty editor keeps the placeholder; one holding an image drops it even without text |
| PageScript.LineBreakKeepsPlaceholder | richeditor/src/main/assets/rich_editor.js:128-134 | markup with neither an image nor text, `<br>` with empty text, keeps the placeholder |
| PageScript.PlaceholderStaysRemoved | richeditor/src/main/assets/rich_editor.js:128-134 | appending markup while the text stays the same never brings the placeholder back |
| PageScript.HeadingBlock | richeditor/src/main/assets/rich_editor.js:198-201 | the block `setHeading` formats into is a single tag in angle brackets |
| PageScript.HeadingToggles | richeditor/src/main/assets/rich_editor.js:198-201 | `setHeading(n)` on a block that is not level n makes it `<hn>`, and a second one turns it back into `<p>` |
| PageScript.HeadingAlternates | richeditor/src/main/assets/rich_editor.js:198-201 | two `setHeading(n)` calls in a row choose different blocks, one of them a paragraph, whatever block the selection starts in |
| PageScript.AnchorHrefs | richeditor/src/main/assets/rich_editor.js:442-452 | the hrefs of the anchors among the siblings, at most one per sibling |
| PageScript.AnchorHrefsAllAnchors | richeditor/src/main/assets/rich_editor.js:442-452 | on all-anchor siblings, every href is collected, in order |
| PageScript.AnchorHrefsNoAnchors | richeditor/src/main/assets/rich_editor.js:442-452 | siblings without anchors yield no hrefs |
| PageScript.AnchorHrefsAppend | richeditor/src/main/assets/rich_editor.js:442-452 | the collection of a concatenation is the concatenation of the collections |
| PageScript.GetAnchorTagsInNode | richeditor/src/main/assets/rich_editor.js:442-452 | the `while` loop returns the hrefs of the anchors after the start node, in sibling order |
| PageScript.CountAnchorTagsInNode | richeditor/src/main/assets/rich_editor.js:454-456 | the count is the length of that list |
| PageScript.StartNodeExcluded | richeditor/src/main/assets/rich_editor.js:445-446 | the start node itself never contributes, whatever it is |
| PageScript.CountsOfTheTests | richeditor/src/main/assets/rich_editor_tests.js:7-67 | in the fixtures' sibling lists, text, link, text counts 1 and text, link, text, link, text counts 2 |
| PageScript.FindNodeByNameInContainer | richeditor/src/main/assets/rich_editor.js:427-436 | `_findNodeByNameInContainer` over the ancestor chain; no contract of its own: `PageScript.SearchOutcomes` states its outcomes |
| PageScript.SearchOutcomes | richeditor/src/main/assets/rich_editor.js:427-436 | the search yields its argument when that matches, null when it is the root, a `TypeError` when the chain ends first, and `undefined` otherwise |
| PageScript.AnchorGrandparentLost | richeditor/src/main/assets/rich_editor.js:427-436 | an anchor one level above the start is lost: the result is `undefined` |
| PageScript.GetSelectedHref | richeditor/src/main/assets/rich_editor.js:462-481 | `RE.getSelectedHref`; no contract of its own: `PageScript.GetSelectedHrefBranches` states its branches |
| PageScript.GetSelectedHrefBranches | richeditor/src/main/assets/rich_editor.js:462-481 | null without a range or caret selection or with several anchors; the one anchor's href when there is one; otherwise the parent anchor's href, or a `TypeError`; a returned href is never empty |
| PageScript.Grid | richeditor/src/main/assets/rich_editor.js:365-372 | h rows of w cells each, none for non-positive sizes |
| PageScript.TableRows | richeditor/src/main/assets/rich_editor.js:365-372 | the nested loops build that grid |
| PageScript.EditorScript.InsertTable | richeditor/src/main/assets/rich_editor.js:365-376 | builds the grid, then queues `input` and signals one navigation |
| PageScript.GridCells | richeditor/src/main/assets/rich_editor.js:365-372 | the grid of w by h holds w·h cells |

## Left out

- The `WebView` itself. `loadUrl`, `load`, `evaluateJavascript` and the page's execution become entries in the page-call log. The superclass answer of `shouldOverrideUrlLoading` is a parameter.
- The 100 ms delay of `postDelayed`. It is modelled as a first-in, first-out queue of posted triggers, and a looper firing is an explicit step. Time, and the interleaving of other looper work, are not modelled.
- Concurrency between the UI thread and the page.
- `AtomicBoolean` atomicity. `mEvaluateFinished` is a plain field, which is enough because it is only ever set to `false`.
- `JavaStrings.ToUpperAscii`: upper-cases ASCII letters only. `Locale.ENGLISH` upper-casing of other letters (`ß`, accented letters) is not modelled.
- `JavaStrings.EqualsIgnoreCase`: compares ASCII case only, for the same reason.
- `Codec.UriDecode`: decodes each escape to one character. Multi-byte UTF-8 sequences are not reassembled. A malformed escape passes through unchanged, where `Uri.decode` may substitute a replacement character.
- `Codec.FormDecode`: the same per-byte limit. Hex digits are ASCII only. `Integer.parseInt` also accepts any digit `Character.digit` accepts, such as fullwidth letters and Arabic-Indic digits, so `URLDecoder` decodes such pairs too; the model makes them throw. The behaviour of `URLDecoder` follows the OpenJDK class that Android ships, which is not part of this model.
- `Codec.FormDecodeEncode`: the round trip is proved for ASCII text only.
- `ValueCallback.JsonString`: the escape table of the `WebView`'s JSON writer is not part of these sources and is assumed: the backslash, the quote, `<` as `\u003C`, `\b \f \n \r \t`, other code points below 0x20 as `\u00XX` with upper-case hex digits, and U+2028 and U+2029. DEL, lone surrogates and results other than strings and `null` are not modelled.
- `ValueCallback.ReceiveStringResult`: requires that the text hold no character the JSON writer escapes beyond the three the chain reverses; `ValueCallback.ReceiveStringDelivered` covers such text.
- The `UnsupportedEncodingException` branches. UTF-8 is always supported, so they cannot be taken.
- Null `Boolean` and `Integer` arguments, which throw `NullPointerException`, and `Log.e`.
- The other one-line builders (`undo`, `setItalic`, the alignment and list setters, `focus`, table row and column edits and the like). Each sends one fixed trigger through the same `exec`.
- The other `requestJSData` getters.
- `insertImageAsBase64`, the padding, size and background setters, `loadCSS` and `LoadFont`. These are Android resource and bitmap calls.
- `Bridge.RichEditor.constructor`: the `android:gravity` value is a parameter. Reading it through `obtainStyledAttributes` is not modelled, and the `Gravity` and `NO_ID` values are those of the Android SDK, which is not part of this model.
- `Utils.java` and the sample `MainActivity`.
- In the page, the DOM and `document.execCommand` effects: formatting, `backuprange`/`restorerange`, focus and caret geometry (`getRelativeCaretYPosition`).
- `isCursorInTable`.
- `getSelection().getRangeAt(0)` throwing without a range in `setHeading`.
- URL resolution of `element.href`.
- `JSON.stringify` of the queue. `getCommandQueue` returns the list itself.
- `setTimeout` in `runCallbackQueue`. It becomes one entry in the signal log.
- The page-side implementations of `RE.insertIFrame`, `RE.insertHTML` and the other insertion functions are not part of this model. Only the command strings that reach them are.
- Any round trip of HTML through the page. `RE.setHtml` assigns its argument without decoding it, so the code establishes none.
- Injection safety of arguments concatenated unescaped into triggers, such as URLs, colours and names. The code promises none.

## Findings

| source | as written | input that shows it | evidently intended | confidence | as-written member | corrected member |
|---|---|---|---|---|---|---|
| richeditor/src/main/java/jp/wasabeef/richeditor/RichEditor.java:1008-1011 | `insertIFrame` concatenates `"', '" + name + "', '" + "', '" + width …`, so the page receives seven arguments, with an extra empty one between the name and the width | any call, e.g. name "" with the properties `insertYoutubeVideo` uses: the page's width parameter receives the empty string and every later argument arrives one place late | the six-argument `RE.insertIFrame(src, name, width, height, relative, properties)` call that `insertYoutubeVideo` sends at line 1026 | not executed | Commands.IFrameAsWrittenHasExtraArgument, Commands.IFrameAsWrittenDisagreesWithYoutube (`Commands.Scripts` sends `Commands.IFrameAsWritten`) | Commands.IFrameAgreesWithYoutube (on `Commands.IFrameScripts`, which sends `Commands.IFrameCommand`) |
