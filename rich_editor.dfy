/** `jp.wasabeef.richeditor.RichEditor`: the WebView subclass that bridges an
    Android app and the editing page. It keeps a readiness flag and five
    listener slots, sends commands to the page through the readiness gate,
    asks the page for values, and receives the page's notifications as
    navigations to `re-callback://`, `re-state://` and `re-click://` URLs. */
module Bridge {
  import opened Base
  import opened JavaStrings
  import opened Codec
  import opened Decoration
  import opened Gate
  import opened Commands
  import opened ValueCallback

  const SETUP_HTML := "file:///android_asset/rich_editor.html"
  const CALLBACK_SCHEME := "re-callback://"
  const CLICK_SCHEME := "re-click://"

  /** An application object registered as a listener, known by identity. */
  datatype Handler = Handler(id: nat)

  /** The five listener slots of the editor. */
  datatype Listeners = Listeners(
    textChange: Option<Handler>,
    click: Option<Handler>,
    jsData: Option<Handler>,
    decorationState: Option<Handler>,
    load: Option<Handler>)

  /** A call into one of the listener interfaces (RichEditor.java:85-122). */
  datatype ListenerCall =
    | OnTextChange(text: string)
    | OnClick(text: string)
    | OnDataReceived(value: string)
    | OnStateChange(state: string, types: seq<Decoration.Type>)
    | OnAfterInitialLoad(ready: bool)

  datatype Event = Event(listener: Handler, call: ListenerCall)

  /** Every listener call is guarded by a null check of its slot: at most
      one call is made, only when a listener is registered, and it goes to
      that listener with the given arguments. */
  function Notify(slot: Option<Handler>, call: ListenerCall): (es: seq<Event>)
    ensures |es| <= 1
    ensures es != [] <==> slot.Some?
    ensures forall e :: e in es ==> Some(e.listener) == slot && e.call == call
  {
    match slot
    case None => []
    case Some(h) => [Event(h, call)]
  }

  /** Everything about the editor that its methods read or change. */
  datatype EditorState = EditorState(gate: GateState, listeners: Listeners, evaluateFinished: bool, events: seq<Event>)

  // ---------------------------------------------------------------------------
  // Inbound navigations (RichEditor.java:1147-1189)

  /** The two `shouldOverrideUrlLoading` overloads: the deprecated one taking
      the URL as a `String`, and the one taking a `WebResourceRequest`. */
  datatype Overload = StringOverload | RequestOverload

  /** Whether a navigation is consumed by the bridge, and the listener calls
      it makes. The scheme test is on the raw URL; the handlers receive the
      `Uri.decode`d URL. */
  datatype Outcome = Outcome(consumed: bool, events: seq<Event>)

  function Dispatch(ls: Listeners, url: string, o: Overload): Outcome {
    var decode := UriDecode(url);
    if IndexOf(url, CALLBACK_SCHEME) == 0 then
      Outcome(true, Notify(ls.textChange, OnTextChange(ReplaceFirst(decode, CALLBACK_SCHEME, ""))))
    else if IndexOf(url, STATE_SCHEME) == 0 then
      Outcome(true, Notify(ls.decorationState, OnStateChange(StateText(decode), Classify(StateText(decode)))))
    else if o == RequestOverload && IndexOf(url, CLICK_SCHEME) == 0 then
      Outcome(true, Notify(ls.click, OnClick(ReplaceFirst(decode, CLICK_SCHEME, ""))))
    else Outcome(false, [])
  }

  /** No URL starts with two of the schemes, so the order of the tests does
      not matter. */
  lemma SchemesExclusive(url: string)
    ensures !(StartsWith(url, CALLBACK_SCHEME) && StartsWith(url, STATE_SCHEME))
    ensures !(StartsWith(url, CALLBACK_SCHEME) && StartsWith(url, CLICK_SCHEME))
    ensures !(StartsWith(url, STATE_SCHEME) && StartsWith(url, CLICK_SCHEME))
  {
    if StartsWith(url, CALLBACK_SCHEME) {
      assert url[3] == 'c' && url[4] == 'a';
    }
    if StartsWith(url, STATE_SCHEME) {
      assert url[3] == 's';
    }
  }

  /** A navigation is consumed exactly when the URL starts with one of the
      schemes the overload knows; `re-click://` is known only to the request
      overload. */
  lemma DispatchConsumes(ls: Listeners, url: string, o: Overload)
    ensures Dispatch(ls, url, o).consumed
        <==> StartsWith(url, CALLBACK_SCHEME) || StartsWith(url, STATE_SCHEME)
             || (o == RequestOverload && StartsWith(url, CLICK_SCHEME))
    ensures !Dispatch(ls, url, o).consumed ==> Dispatch(ls, url, o).events == []
  {
    IndexOfZeroIffStartsWith(url, CALLBACK_SCHEME);
    IndexOfZeroIffStartsWith(url, STATE_SCHEME);
    IndexOfZeroIffStartsWith(url, CLICK_SCHEME);
  }

  /** The overloads differ only on `re-click://` URLs. */
  lemma OverloadsAgreeOffClick(ls: Listeners, url: string)
    requires !StartsWith(url, CLICK_SCHEME)
    ensures Dispatch(ls, url, StringOverload) == Dispatch(ls, url, RequestOverload)
  {
    IndexOfZeroIffStartsWith(url, CLICK_SCHEME);
  }

  lemma SchemeIsPlain(scheme: string, rest: string)
    requires '%' !in scheme
    ensures StartsWith(scheme + rest, scheme)
    ensures UriDecode(scheme + rest) == scheme + UriDecode(rest)
    ensures ReplaceFirst(UriDecode(scheme + rest), scheme, "") == UriDecode(rest)
  {
    assert (scheme + rest)[..|scheme|] == scheme;
    UriDecodePlainPrefix(scheme, rest);
    ReplaceFirstOfPrefix(scheme, UriDecode(rest));
  }

  /** `re-callback://` + `rest`: the text-change listener receives the decoded
      `rest`, under both overloads. */
  lemma CallbackNavigation(ls: Listeners, rest: string, o: Overload)
    ensures Dispatch(ls, CALLBACK_SCHEME + rest, o) == Outcome(true, Notify(ls.textChange, OnTextChange(UriDecode(rest))))
  {
    var url := CALLBACK_SCHEME + rest;
    assert '%' !in CALLBACK_SCHEME;
    SchemeIsPlain(CALLBACK_SCHEME, rest);
    IndexOfZeroIffStartsWith(url, CALLBACK_SCHEME);
  }

  /** `re-state://` + `rest`: the decoration listener receives the decoded,
      upper-cased `rest` and the types whose names occur in it. */
  lemma StateNavigation(ls: Listeners, rest: string, o: Overload)
    ensures var state := ToUpperAscii(UriDecode(rest));
      Dispatch(ls, STATE_SCHEME + rest, o) == Outcome(true, Notify(ls.decorationState, OnStateChange(state, Classify(state))))
  {
    var url := STATE_SCHEME + rest;
    assert '%' !in STATE_SCHEME;
    SchemeIsPlain(STATE_SCHEME, rest);
    SchemesExclusive(url);
    IndexOfZeroIffStartsWith(url, CALLBACK_SCHEME);
    IndexOfZeroIffStartsWith(url, STATE_SCHEME);
  }

  /** `re-click://` + `rest`: the click listener receives the decoded `rest`
      from the request overload; the `String` overload lets the navigation
      through. */
  lemma ClickNavigation(ls: Listeners, rest: string)
    ensures Dispatch(ls, CLICK_SCHEME + rest, RequestOverload) == Outcome(true, Notify(ls.click, OnClick(UriDecode(rest))))
    ensures Dispatch(ls, CLICK_SCHEME + rest, StringOverload) == Outcome(false, [])
  {
    var url := CLICK_SCHEME + rest;
    assert '%' !in CLICK_SCHEME;
    SchemeIsPlain(CLICK_SCHEME, rest);
    SchemesExclusive(url);
    IndexOfZeroIffStartsWith(url, CALLBACK_SCHEME);
    IndexOfZeroIffStartsWith(url, STATE_SCHEME);
    IndexOfZeroIffStartsWith(url, CLICK_SCHEME);
  }

  /** The scheme is tested on the raw URL: a URL whose scheme is written with
      an escape is not recognised, although it decodes to a callback URL. */
  lemma EscapedSchemeNotRecognised(ls: Listeners, rest: string, o: Overload)
    ensures UriDecode("re%2Dcallback://" + rest) == CALLBACK_SCHEME + UriDecode(rest)
    ensures Dispatch(ls, "re%2Dcallback://" + rest, o) == Outcome(false, [])
  {
    var url := "re%2Dcallback://" + rest;
    EscapedSchemeDecodes(rest);
    assert url[2] == '%';
    MismatchAt(url, CALLBACK_SCHEME, 0, 2);
    MismatchAt(url, STATE_SCHEME, 0, 2);
    MismatchAt(url, CLICK_SCHEME, 0, 2);
    assert url[0..] == url;
    DispatchConsumes(ls, url, o);
  }

  lemma EscapedSchemeDecodes(rest: string)
    ensures UriDecode("re%2Dcallback://" + rest) == CALLBACK_SCHEME + UriDecode(rest)
  {
    var tail := "callback://" + rest;
    assert "re%2Dcallback://" + rest == "re" + (['%', '2', 'D'] + tail);
    UriDecodePlainPrefix("re", ['%', '2', 'D'] + tail);
    UriDecodeEscapeHead('2', 'D', tail);
    UriDecodePlainPrefix("callback://", rest);
    assert EscapedChar('2', 'D') == '-';
    assert "re" + (['-'] + ("callback://" + UriDecode(rest))) == CALLBACK_SCHEME + UriDecode(rest);
  }

  /** An escape `%hl` at the front decodes to its character. */
  lemma UriDecodeEscapeHead(h: char, l: char, rest: string)
    requires IsHexDigit(h) && IsHexDigit(l)
    ensures UriDecode(['%', h, l] + rest) == [EscapedChar(h, l)] + UriDecode(rest)
  {
    var s := ['%', h, l] + rest;
    assert IsEscapeAt(s, 0) && s[3..] == rest;
  }

  /** The opening of the decoding fixture in UrlDecoderTest.java:
      "%20%20%3Cdiv%3E" after the callback scheme decodes to "  <div>". */
  lemma DecodeFixtureOpening(rest: string)
    requires rest == "%20%20%3Cdiv%3E"
    ensures UriDecode(CALLBACK_SCHEME + rest) == CALLBACK_SCHEME + "  <div>"
  {
    UriDecodePlainPrefix(CALLBACK_SCHEME, rest);
    DecodeFixtureSpaces(rest);
  }

  lemma DecodeFixtureSpaces(rest: string)
    requires rest == "%20%20%3Cdiv%3E"
    ensures UriDecode(rest) == "  <div>"
  {
    var r := rest[6..];
    FixtureSplit(rest, r);
    DecodeTwoSpaces(rest, r);
    DecodeFixtureDiv(r);
    assert "  " + "<div>" == "  <div>";
  }

  lemma FixtureSplit(rest: string, r: string)
    requires rest == "%20%20%3Cdiv%3E" && r == rest[6..]
    ensures rest == ['%', '2', '0', '%', '2', '0'] + r && r == "%3Cdiv%3E"
  {
  }

  /** Two escaped spaces at the front decode to two spaces. */
  lemma DecodeTwoSpaces(s: string, r: string)
    requires s == ['%', '2', '0', '%', '2', '0'] + r
    ensures UriDecode(s) == "  " + UriDecode(r)
  {
    var r1 := ['%', '2', '0'] + r;
    assert s == ['%', '2', '0'] + r1;
    UriDecodeEscapeHead('2', '0', r1);
    UriDecodeEscapeHead('2', '0', r);
    assert EscapedChar('2', '0') == ' ';
  }

  lemma DecodeFixtureDiv(r: string)
    requires r == "%3Cdiv%3E"
    ensures UriDecode(r) == "<div>"
  {
    var r1, r2 := r[3..], r[6..];
    assert r == ['%', '3', 'C'] + r1 && r1 == "div" + r2 && r2 == ['%', '3', 'E'] + [];
    UriDecodeEscapeHead('3', 'C', r1);
    UriDecodePlainPrefix("div", r2);
    UriDecodeEscapeHead('3', 'E', []);
    assert EscapedChar('3', 'C') == '<' && EscapedChar('3', 'E') == '>';
    assert ['<'] + ("div" + (['>'] + [])) == "<div>";
  }

  /** The fixture's "++_%20++" keeps its plus signs: only the escape is decoded. */
  lemma DecodeFixturePlusSigns(rest: string)
    requires rest == "++_%20++"
    ensures UriDecode(rest) == "++_ ++"
  {
    var tail := rest[6..];
    assert tail == "++" && '%' !in tail;
    assert rest == "++_" + (['%', '2', '0'] + tail);
    UriDecodePlainPrefix("++_", ['%', '2', '0'] + tail);
    UriDecodeEscapeHead('2', '0', tail);
    UriDecodeWithoutEscapes(tail);
    assert EscapedChar('2', '0') == ' ';
    assert "++_" + ([' '] + tail) == "++_ ++";
  }

  // ---------------------------------------------------------------------------
  // onPageFinished (RichEditor.java:1140-1145)

  /** `isReady` becomes whether the URL is the setup page, ignoring case, on
      every call, and the load listener is told that same value. */
  function PageFinished(s: EditorState, url: string): (r: EditorState)
    ensures r.gate.ready <==> ToUpperAscii(url) == ToUpperAscii(SETUP_HTML)
    ensures r.gate.page == s.gate.page && r.gate.pending == s.gate.pending
    ensures r.listeners == s.listeners && r.evaluateFinished == s.evaluateFinished
    ensures r.events == s.events + Notify(s.listeners.load, OnAfterInitialLoad(r.gate.ready))
  {
    EqualsIgnoreCaseIffSameUpper(url, SETUP_HTML);
    var ready := EqualsIgnoreCase(url, SETUP_HTML);
    s.(gate := s.gate.(ready := ready), events := s.events + Notify(s.listeners.load, OnAfterInitialLoad(ready)))
  }

  /** A later page load of another URL turns readiness off again. */
  lemma ReadinessCanRevert(s: EditorState, other: string)
    requires ToUpperAscii(other) != ToUpperAscii(SETUP_HTML)
    ensures PageFinished(s, SETUP_HTML).gate.ready
    ensures !PageFinished(PageFinished(s, SETUP_HTML), other).gate.ready
  {
  }

  /** Once the setup page has finished, the posted triggers all reach the
      page in order, one per tick, and later triggers run at once. */
  lemma ReadyDrainsPending(s: EditorState, t: string)
    ensures var g := PageFinished(s, SETUP_HTML).gate;
      Ticks(g, |g.pending|) == g.(page := g.page + Runs(g.pending), pending := [])
      && Exec(g, t) == g.(page := g.page + [Run(t)])
  {
    DrainWhenReady(PageFinished(s, SETUP_HTML).gate);
  }

  /** `setBold(true)` issued before readiness reaches the page only after the
      setup page has finished, as exactly one call. */
  lemma BoldBeforeReady(s: EditorState)
    requires s.gate == GateState(false, [Open(SETUP_HTML)], [])
    ensures ExecAll(s.gate, Scripts(SetBold(true))).page == [Open(SETUP_HTML)]
    ensures var g := PageFinished(s.(gate := ExecAll(s.gate, Scripts(SetBold(true)))), SETUP_HTML).gate;
      Tick(g) == GateState(true, [Open(SETUP_HTML), Run("javascript:RE.setBold(true);")], [])
  {
    var bold := "javascript:RE.setBold(true);";
    SetBoldTrue();
    ExecAllNotReady(s.gate, [bold]);
    assert ExecAll(s.gate, [bold]) == GateState(false, [Open(SETUP_HTML)], [bold]);
  }

  // ---------------------------------------------------------------------------
  // The editor

  const RANGE_SELECTION_QUERY := "RE.rangeSelectionExists()"
  const SELECTED_HREF_QUERY := "RE.getSelectedHref()"

  class RichEditor {
    var isReady: bool
    var textChangeListener: Option<Handler>
    var clickListener: Option<Handler>
    var jsDataListener: Option<Handler>
    var decorationStateListener: Option<Handler>
    var loadListener: Option<Handler>
    /** The calls the WebView has received, oldest first. */
    var page: seq<PageCall>
    /** Triggers whose retry runnables are posted, oldest first. */
    var pending: seq<string>
    /** `mEvaluateFinished` (RichEditor.java:65). */
    var evaluateFinished: bool
    /** The listener calls made so far, oldest first. */
    var events: seq<Event>

    function GateView(): GateState
      reads this
    {
      GateState(isReady, page, pending)
    }

    function Slots(): Listeners
      reads this
    {
      Listeners(textChangeListener, clickListener, jsDataListener, decorationStateListener, loadListener)
    }

    function State(): EditorState
      reads this
    {
      EditorState(GateView(), Slots(), evaluateFinished, events)
    }

    /** The constructor starts loading the setup page and then applies the
        layout's `android:gravity` value (`NO_ID` when it has none). Nothing
        is ready yet, so the alignment triggers of `applyAttributes` are
        posted, in order; no listener is set. */
    constructor (gravity: int)
      ensures State() == EditorState(GateState(false, [Open(SETUP_HTML)], GravityScripts(gravity)), Listeners(None, None, None, None, None), false, [])
    {
      isReady := false;
      textChangeListener, clickListener, jsDataListener, decorationStateListener, loadListener := None, None, None, None, None;
      page := [Open(SETUP_HTML)];
      pending := [];
      evaluateFinished := false;
      events := [];
      new;
      ExecAllNotReady(GateView(), GravityScripts(gravity));
      ExecTriggers(GravityScripts(gravity));
    }

    method SetOnTextChangeListener(l: Option<Handler>)
      modifies this
      ensures State() == old(State()).(listeners := old(Slots()).(textChange := l))
    {
      textChangeListener := l;
    }

    method SetOnClickListener(l: Option<Handler>)
      modifies this
      ensures State() == old(State()).(listeners := old(Slots()).(click := l))
    {
      clickListener := l;
    }

    method SetOnJSDataListener(l: Option<Handler>)
      modifies this
      ensures State() == old(State()).(listeners := old(Slots()).(jsData := l))
    {
      jsDataListener := l;
    }

    method SetOnDecorationChangeListener(l: Option<Handler>)
      modifies this
      ensures State() == old(State()).(listeners := old(Slots()).(decorationState := l))
    {
      decorationStateListener := l;
    }

    method SetOnInitialLoadListener(l: Option<Handler>)
      modifies this
      ensures State() == old(State()).(listeners := old(Slots()).(load := l))
    {
      loadListener := l;
    }

    /** `exec(trigger)`: loads the trigger when ready, otherwise posts a
        runnable that will call `exec(trigger)` again. */
    method Exec(trigger: string)
      modifies this
      ensures State() == old(State()).(gate := Gate.Exec(old(GateView()), trigger))
    {
      if isReady {
        page := page + [Run(trigger)];
      } else {
        pending := pending + [trigger];
      }
    }

    /** The looper runs the oldest posted runnable. */
    method Tick()
      modifies this
      ensures State() == old(State()).(gate := Gate.Tick(old(GateView())))
    {
      if pending != [] {
        var t := pending[0];
        pending := pending[1..];
        Exec(t);
      }
    }

    /** One of the public command methods: its triggers go through `exec`
        in order. */
    method Perform(op: Operation)
      modifies this
      ensures State() == old(State()).(gate := ExecAll(old(GateView()), Scripts(op)))
    {
      ExecTriggers(Scripts(op));
    }

    /** Hands a sequence of triggers to `exec`, one after the other. */
    method ExecTriggers(ts: seq<string>)
      modifies this
      ensures State() == old(State()).(gate := ExecAll(old(GateView()), ts))
    {
      for i := 0 to |ts|
        invariant State() == old(State()).(gate := ExecAll(old(GateView()), ts[..i]))
      {
        ExecAllSnoc(old(GateView()), ts[..i], ts[i]);
        assert ts[..i + 1] == ts[..i] + [ts[i]];
        Exec(ts[i]);
      }
      assert ts[..|ts|] == ts;
    }

    /** `requestJSData(cmdJS)`: evaluates the script at once, whether or not
        the page is ready, with the editor as result callback, and reports
        success unconditionally. */
    method RequestJSData(cmdJS: string) returns (requested: bool)
      modifies this
      ensures requested
      ensures State() == old(State()).(gate := old(GateView()).(page := old(page) + [Query(cmdJS)]), evaluateFinished := false)
    {
      evaluateFinished := false;
      page := page + [Query(cmdJS)];
      requested := true;
    }

    method HasRangeSelection() returns (r: bool)
      modifies this
      ensures r
      ensures State() == old(State()).(gate := old(GateView()).(page := old(page) + [Query(RANGE_SELECTION_QUERY)]), evaluateFinished := false)
    {
      r := RequestJSData(RANGE_SELECTION_QUERY);
    }

    /** `getSelectedHref`: the selection query answers only through the
        result callback, so `hasRangeSelection()` is always true here, the
        href query is always sent, and the method never returns false. */
    method GetSelectedHref() returns (r: bool)
      modifies this
      ensures r
      ensures State() == old(State()).(gate := old(GateView()).(page := old(page) + [Query(RANGE_SELECTION_QUERY), Query(SELECTED_HREF_QUERY)]), evaluateFinished := false)
    {
      var hasRange := HasRangeSelection();
      if !hasRange {
        r := false;
      } else {
        r := RequestJSData(SELECTED_HREF_QUERY);
      }
    }

    /** `onReceiveValue(value)`: the data listener receives the unescaped
        value; an exception thrown on the way leaves before any listener
        call. */
    method OnReceiveValue(value: string) returns (thrown: Option<JavaException>)
      modifies this
      ensures ReceiveValue(value).Thrown? ==> thrown == Some(ReceiveValue(value).error) && State() == old(State())
      ensures ReceiveValue(value).Ok? ==> thrown == None
      ensures ReceiveValue(value).Ok? ==>
        State() == old(State()).(events := old(events) + Notify(old(jsDataListener), OnDataReceived(ReceiveValue(value).value)))
    {
      match ReceiveValue(value)
      case Thrown(e) =>
        thrown := Some(e);
      case Ok(t) =>
        thrown := None;
        events := events + Notify(jsDataListener, OnDataReceived(t));
    }

    method Callback(value: string)
      modifies this
      ensures State() == old(State()).(events := old(events) + Notify(old(textChangeListener), OnTextChange(ReplaceFirst(value, CALLBACK_SCHEME, ""))))
    {
      if textChangeListener != None {
        events := events + [Event(textChangeListener.value, OnTextChange(ReplaceFirst(value, CALLBACK_SCHEME, "")))];
      }
    }

    method CallbackClick(value: string)
      modifies this
      ensures State() == old(State()).(events := old(events) + Notify(old(clickListener), OnClick(ReplaceFirst(value, CLICK_SCHEME, ""))))
    {
      if clickListener != None {
        events := events + [Event(clickListener.value, OnClick(ReplaceFirst(value, CLICK_SCHEME, "")))];
      }
    }

    /** `stateCheck(text)`: the type list is built by the loop over the enum. */
    method StateCheck(text: string)
      modifies this
      ensures State() == old(State()).(events := old(events) + Notify(old(decorationStateListener), OnStateChange(StateText(text), Classify(StateText(text)))))
    {
      var state := StateText(text);
      var types := ActiveTypes(state);
      if decorationStateListener != None {
        events := events + [Event(decorationStateListener.value, OnStateChange(state, types))];
      }
    }

    /** `shouldOverrideUrlLoading`: a recognised navigation goes to its
        handler and is consumed; any other is answered by the superclass,
        whose answer is `superResult`. */
    method ShouldOverrideUrlLoading(url: string, o: Overload, superResult: bool) returns (consumed: bool)
      modifies this
      ensures var d := Dispatch(old(Slots()), url, o);
        consumed == (d.consumed || superResult)
        && State() == old(State()).(events := old(events) + d.events)
    {
      var decode := UriDecode(url);
      if IndexOf(url, CALLBACK_SCHEME) == 0 {
        Callback(decode);
        consumed := true;
      } else if IndexOf(url, STATE_SCHEME) == 0 {
        StateCheck(decode);
        consumed := true;
      } else if o == RequestOverload && IndexOf(url, CLICK_SCHEME) == 0 {
        CallbackClick(decode);
        consumed := true;
      } else {
        consumed := superResult;
      }
    }

    /** `EditorWebViewClient.onPageFinished(view, url)`. */
    method OnPageFinished(url: string)
      modifies this
      ensures State() == PageFinished(old(State()), url)
    {
      isReady := EqualsIgnoreCase(url, SETUP_HTML);
      if loadListener != None {
        events := events + [Event(loadListener.value, OnAfterInitialLoad(isReady))];
      }
    }
  }
}
