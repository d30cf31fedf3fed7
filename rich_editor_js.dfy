/** The decision logic of the editing page, `rich_editor.js`, over abstract
    selections, sibling lists and ancestor chains in place of a DOM. */
module PageScript {
  import opened Base
  import opened JavaStrings
  import opened Codec
  import Bridge

  // ---------------------------------------------------------------------------
  // Selection predicates (rich_editor.js:28-52)

  /** A selection object: its `type` ("None", "Caret" or "Range") and its text.
      `document.getSelection()` may also return null (`None`). */
  datatype Selection = Selection(kind: string, text: string)

  /** `RE.rangeSelectionExists()`: it holds for a selection of type
      "Range", and a null selection is never a range. */
  function RangeSelectionExists(sel: Option<Selection>): (b: bool)
    ensures sel.Some? && sel.value.kind == "Range" ==> b
    ensures b ==> sel.Some?
  {
    match sel
    case None => false
    case Some(s) => s.kind == "Range"
  }

  /** `RE.rangeOrCaretSelectionExists()`: it holds for every range, and also
      for a caret, which is not a range; never for a null selection or one
      of type "None". */
  function RangeOrCaretSelectionExists(sel: Option<Selection>): (b: bool)
    ensures RangeSelectionExists(sel) ==> b
    ensures sel.Some? && sel.value.kind == "Caret" ==> b && !RangeSelectionExists(sel)
    ensures sel.None? || sel.value.kind == "None" ==> !b
  {
    match sel
    case None => false
    case Some(s) => s.kind == "Range" || s.kind == "Caret"
  }

  /** `RE.selectedText()`: text is reported only for a range, and it is
      then the selection's own text; a caret reports none. */
  function SelectedText(sel: Option<Selection>): (t: string)
    ensures RangeSelectionExists(sel) ==> t == sel.value.text
    ensures t != "" ==> RangeSelectionExists(sel)
    ensures RangeOrCaretSelectionExists(sel) && !RangeSelectionExists(sel) ==> t == ""
  {
    if RangeSelectionExists(sel) then sel.value.text else ""
  }

  // ---------------------------------------------------------------------------
  // Callback queue (rich_editor.js:77-97)

  /** The URL the page navigates to, through `setTimeout`, to signal that the
      queue holds messages. */
  const SIGNAL_URL := "re-callback://"

  class EditorScript {
    /** `RE.callbackQueue`. */
    var callbackQueue: seq<string>
    /** The navigations scheduled so far, oldest first. */
    var signals: seq<string>

    constructor ()
      ensures callbackQueue == [] && signals == []
    {
      callbackQueue := [];
      signals := [];
    }

    /** `RE.runCallbackQueue()`: schedules a signal unless the queue is empty. */
    method RunCallbackQueue()
      modifies this
      ensures callbackQueue == old(callbackQueue)
      ensures old(callbackQueue) == [] ==> signals == old(signals)
      ensures old(callbackQueue) != [] ==> signals == old(signals) + [SIGNAL_URL]
    {
      if |callbackQueue| == 0 {
        return;
      }
      signals := signals + [SIGNAL_URL];
    }

    /** `RE.callback(method)`: queues the message and, the queue being
        non-empty now, always schedules a signal. */
    method Callback(message: string)
      modifies this
      ensures callbackQueue == old(callbackQueue) + [message]
      ensures signals == old(signals) + [SIGNAL_URL]
    {
      callbackQueue := callbackQueue + [message];
      RunCallbackQueue();
    }

    /** `RE.getCommandQueue()`: everything queued, in push order, and the
        queue is empty afterwards. (The JSON text of the list is not modelled:
        the list itself is returned.) */
    method GetCommandQueue() returns (commands: seq<string>)
      modifies this
      ensures commands == old(callbackQueue)
      ensures callbackQueue == [] && signals == old(signals)
    {
      commands := callbackQueue;
      callbackQueue := [];
    }

    /** `RE.insertTable(width, height)`: builds the grid of empty cells, then
        reports an "input". The insertion of the table's HTML into the
        document is not modelled. */
    method InsertTable(width: int, height: int) returns (rows: seq<seq<Cell>>)
      modifies this
      ensures rows == Grid(width, height)
      ensures callbackQueue == old(callbackQueue) + ["input"]
      ensures signals == old(signals) + [SIGNAL_URL]
    {
      rows := TableRows(width, height);
      Callback("input");
    }
  }

  /** Every signal carries no text of its own: the native side's text-change
      listener receives the empty string, and the queued messages stay in the
      page until `getCommandQueue` is called. */
  lemma SignalCarriesNoText(ls: Bridge.Listeners, o: Bridge.Overload)
    ensures Bridge.Dispatch(ls, SIGNAL_URL, o) == Bridge.Outcome(true, Bridge.Notify(ls.textChange, Bridge.OnTextChange("")))
  {
    Bridge.CallbackNavigation(ls, "", o);
    assert Bridge.CALLBACK_SCHEME + "" == SIGNAL_URL;
  }

  // ---------------------------------------------------------------------------
  // Placeholder (rich_editor.js:128-134)

  /** `RE.updatePlaceholder()` removes the placeholder class exactly when
      this holds, and adds it otherwise. "img" is searched in the markup as
      text, so it matches inside any word. */
  function PlaceholderRemoved(innerHtml: string, textContent: string): (removed: bool)
    ensures removed <==> Occurs(innerHtml, "img") || (|textContent| > 0 && |innerHtml| > 0)
  {
    IndexOf(innerHtml, "img") != -1 || (|textContent| > 0 && |innerHtml| > 0)
  }

  /** An empty editor shows the placeholder; an image alone hides it. */
  lemma PlaceholderCases(img: string, rest: string)
    requires img == "<img src=\"a.png\">"
    ensures !PlaceholderRemoved("", "")
    ensures PlaceholderRemoved(img + rest, "")
  {
    assert !Occurs("", "img") by {
      NotOccursWithoutChar("", "img", 'i');
    }
    assert StartsWith((img + rest)[1..], "img") by {
      assert (img + rest)[1..][..3] == img[1..4] == "img";
    }
    OccursAt(img + rest, "img", 1);
  }

  /** Markup with neither an image nor text, such as the `<br>` an emptied
      editable leaves behind, keeps the placeholder. */
  lemma LineBreakKeepsPlaceholder(html: string)
    requires html == "<br>"
    ensures !PlaceholderRemoved(html, "")
  {
    NotOccursWithoutChar(html, "img", 'i');
  }

  /** Appending markup while the text stays the same never brings the
      placeholder back. */
  lemma PlaceholderStaysRemoved(html: string, more: string, text: string)
    requires PlaceholderRemoved(html, text)
    ensures PlaceholderRemoved(html + more, text)
  {
    if Occurs(html, "img") {
      var k :| 0 <= k <= |html| && StartsWith(html[k..], "img");
      assert (html + more)[k..][..3] == html[k..][..3];
      OccursAt(html + more, "img", k);
    }
  }

  // ---------------------------------------------------------------------------
  // Heading toggle (rich_editor.js:198-201)

  /** The block `RE.setHeading(heading)` formats into: a paragraph when the
      selection's parent already is that heading, the heading otherwise.
      `heading` is the argument text the native side sends. */
  function HeadingBlock(parentTag: string, heading: string): (block: string)
    ensures |block| >= 3 && block[0] == '<' && block[|block| - 1] == '>'
  {
    if parentTag == "H" + heading then "<p>" else "<h" + heading + ">"
  }

  /** The tag name of an element written as `<name>`: upper case. */
  function TagName(block: string): string
    requires |block| >= 2
  {
    ToUpperAscii(block[1..|block| - 1])
  }

  /** Applying `setHeading(n)` twice returns to a paragraph: a block that is
      not level `n` becomes `<hn>`, whose tag name is `Hn`. */
  lemma HeadingToggles(parentTag: string, n: int)
    requires parentTag != "H" + IntToDecimal(n)
    ensures var first := HeadingBlock(parentTag, IntToDecimal(n));
      first == "<h" + IntToDecimal(n) + ">" && HeadingBlock(TagName(first), IntToDecimal(n)) == "<p>"
  {
    var h := IntToDecimal(n);
    var first := HeadingBlock(parentTag, h);
    assert first[1..|first| - 1] == "h" + h;
    DecimalHasNoLowerCase(n);
    assert ToUpperAscii("h" + h) == "H" + h;
  }

  /** Two `setHeading(n)` calls in a row choose different blocks, and one
      of them is a paragraph, whatever block the selection starts in. */
  lemma HeadingAlternates(parentTag: string, n: int)
    ensures var h := IntToDecimal(n);
      var first := HeadingBlock(parentTag, h);
      var second := HeadingBlock(TagName(first), h);
      first != second && (first == "<p>" || second == "<p>")
  {
    var h := IntToDecimal(n);
    if parentTag == "H" + h {
      var first := HeadingBlock(parentTag, h);
      assert first[1..|first| - 1] == "p";
      assert TagName(first)[0] == 'P';
      var second := HeadingBlock(TagName(first), h);
      assert second[1] == 'h';
    } else {
      HeadingToggles(parentTag, n);
    }
  }

  lemma DecimalHasNoLowerCase(n: int)
    ensures forall i :: 0 <= i < |IntToDecimal(n)| ==> UpperChar(IntToDecimal(n)[i]) == IntToDecimal(n)[i]
  {
    var s := IntToDecimal(n);
    if n >= 0 {
      assert AllDigitsIn(NatToDigits(n, 10), 10);
    } else {
      assert AllDigitsIn(NatToDigits(-n, 10), 10);
      assert forall i :: 1 <= i < |s| ==> s[i] == NatToDigits(-n, 10)[i - 1];
    }
  }

  // ---------------------------------------------------------------------------
  // Anchors after the selection (rich_editor.js:438-456)

  /** A DOM node as the anchor walk sees it: its `nodeName` and its `href`
      attribute (`getAttribute` gives null when there is none). */
  datatype Node = Node(nodeName: string, hrefAttribute: Option<string>)

  /** `isAnchorNode`. */
  predicate IsAnchorNode(n: Node) {
    n.nodeName == "A"
  }

  /** The `href` attributes of the anchors among `nodes`, in order. */
  function AnchorHrefs(nodes: seq<Node>): (hrefs: seq<Option<string>>)
    ensures |hrefs| <= |nodes|
    decreases |nodes|
  {
    if nodes == [] then []
    else AnchorHrefs(nodes[..|nodes| - 1]) + (if IsAnchorNode(nodes[|nodes| - 1]) then [nodes[|nodes| - 1].hrefAttribute] else [])
  }

  lemma {:induction false} AnchorHrefsAllAnchors(nodes: seq<Node>)
    requires forall i :: 0 <= i < |nodes| ==> IsAnchorNode(nodes[i])
    ensures |AnchorHrefs(nodes)| == |nodes|
    ensures forall i :: 0 <= i < |nodes| ==> AnchorHrefs(nodes)[i] == nodes[i].hrefAttribute
    decreases |nodes|
  {
    if nodes != [] {
      AnchorHrefsAllAnchors(nodes[..|nodes| - 1]);
    }
  }

  lemma {:induction false} AnchorHrefsNoAnchors(nodes: seq<Node>)
    requires forall i :: 0 <= i < |nodes| ==> !IsAnchorNode(nodes[i])
    ensures AnchorHrefs(nodes) == []
    decreases |nodes|
  {
    if nodes != [] {
      AnchorHrefsNoAnchors(nodes[..|nodes| - 1]);
    }
  }

  lemma {:induction false} AnchorHrefsAppend(a: seq<Node>, b: seq<Node>)
    ensures AnchorHrefs(a + b) == AnchorHrefs(a) + AnchorHrefs(b)
    decreases |b|
  {
    if b == [] {
      assert a + b == a;
    } else {
      var b' := b[..|b| - 1];
      assert (a + b)[..|a + b| - 1] == a + b';
      AnchorHrefsAppend(a, b');
    }
  }

  /** `RE.getAnchorTagsInNode(node)`: `node` is `siblings[at]`, and the walk
      follows `nextSibling` to the end of the list, collecting the `href` of
      every anchor after `node`. */
  method GetAnchorTagsInNode(siblings: seq<Node>, at: nat) returns (links: seq<Option<string>>)
    requires at < |siblings|
    ensures links == AnchorHrefs(siblings[at + 1..])
  {
    links := [];
    var i := at;
    while i + 1 < |siblings|
      invariant at <= i < |siblings|
      invariant links == AnchorHrefs(siblings[at + 1..i + 1])
      decreases |siblings| - i
    {
      i := i + 1;
      assert siblings[at + 1..i + 1][..i - at - 1] == siblings[at + 1..i];
      if IsAnchorNode(siblings[i]) {
        links := links + [siblings[i].hrefAttribute];
      }
    }
    assert siblings[at + 1..i + 1] == siblings[at + 1..];
  }

  /** `RE.countAnchorTagsInNode(node)`. */
  method CountAnchorTagsInNode(siblings: seq<Node>, at: nat) returns (count: nat)
    requires at < |siblings|
    ensures count == |AnchorHrefs(siblings[at + 1..])|
  {
    var links := GetAnchorTagsInNode(siblings, at);
    count := |links|;
  }

  /** The node the walk starts from is never counted, anchor or not. */
  lemma StartNodeExcluded(siblings: seq<Node>, at: nat, other: Node)
    requires at < |siblings|
    ensures AnchorHrefs(siblings[at := other][at + 1..]) == AnchorHrefs(siblings[at + 1..])
  {
    assert siblings[at := other][at + 1..] == siblings[at + 1..];
  }

  /** The in-page tests (rich_editor_tests.js:7-9, 51-67): in `#prose` the
      selection's text node is followed by the link and a text node, and
      counts one; in `#two_links` it is followed by link, text, link, text,
      and counts two. */
  lemma CountsOfTheTests(text: Node, link: Node)
    requires !IsAnchorNode(text) && IsAnchorNode(link)
    ensures |AnchorHrefs([text, link, text][1..])| == 1
    ensures |AnchorHrefs([text, link, text, link, text][1..])| == 2
  {
    AnchorHrefsAllAnchors([link]);
    AnchorHrefsNoAnchors([text]);
    assert [text, link, text][1..] == [link] + [text];
    AnchorHrefsAppend([link], [text]);
    var pair := [link] + [text];
    assert [text, link, text, link, text][1..] == pair + pair;
    AnchorHrefsAppend(pair, pair);
  }

  // ---------------------------------------------------------------------------
  // Ancestor search (rich_editor.js:427-436), as written

  /** An element on the `parentElement` chain: `nodeName`, `id`, and the
      `href` property (anchors have one; "" when the attribute is absent). */
  datatype Element = Element(nodeName: string, id: string, href: string)

  /** What a call evaluates to, or that it throws. */
  datatype SearchResult = Found(element: Element) | Null | Undefined | TypeError

  /** `_findNodeByNameInContainer(element, nodeName, rootElementId)` where
      `chain[0]` is `element` and `chain[i + 1]` is the parent of `chain[i]`;
      past the end of `chain` the parent is null. The recursive call is made
      but its value is not returned, so the function yields `undefined`
      unless its own argument matches or is the root; an exception from the
      recursion, a property read on null, still propagates. */
  function FindNodeByNameInContainer(chain: seq<Element>, nodeName: string, rootElementId: string): SearchResult
    decreases |chain|
  {
    if chain == [] then TypeError
    else if chain[0].nodeName == nodeName then Found(chain[0])
    else if chain[0].id == rootElementId then Null
    else if FindNodeByNameInContainer(chain[1..], nodeName, rootElementId) == TypeError then TypeError
    else Undefined
  }

  /** The chain ends (or stops) at an element that matches or is the root. */
  ghost predicate Stops(chain: seq<Element>, nodeName: string, rootElementId: string) {
    exists k :: 0 <= k < |chain| && (chain[k].nodeName == nodeName || chain[k].id == rootElementId)
  }

  /** The four outcomes: the argument itself when it matches, null when it is
      the root, a TypeError when the chain runs out before any match or root,
      and undefined in every other case, including when an ancestor matches. */
  lemma {:induction false} SearchOutcomes(chain: seq<Element>, nodeName: string, rootElementId: string)
    ensures var r := FindNodeByNameInContainer(chain, nodeName, rootElementId);
      && (r.Found? <==> chain != [] && chain[0].nodeName == nodeName)
      && (r.Found? ==> r.element == chain[0])
      && (r == Null <==> chain != [] && chain[0].nodeName != nodeName && chain[0].id == rootElementId)
      && (r == TypeError <==> !Stops(chain, nodeName, rootElementId))
    decreases |chain|
  {
    if chain != [] && chain[0].nodeName != nodeName && chain[0].id != rootElementId {
      SearchOutcomes(chain[1..], nodeName, rootElementId);
      if Stops(chain, nodeName, rootElementId) {
        var k :| 0 <= k < |chain| && (chain[k].nodeName == nodeName || chain[k].id == rootElementId);
        assert chain[1..][k - 1] == chain[k];
      }
      if Stops(chain[1..], nodeName, rootElementId) {
        var k :| 0 <= k < |chain[1..]| && (chain[1..][k].nodeName == nodeName || chain[1..][k].id == rootElementId);
        assert chain[k + 1] == chain[1..][k];
      }
    } else if chain != [] {
      assert Stops(chain, nodeName, rootElementId) by {
        assert chain[0].nodeName == nodeName || chain[0].id == rootElementId;
      }
    }
  }

  /** An anchor one level up is found by the search, but the value is lost. */
  lemma AnchorGrandparentLost(span: Element, anchor: Element, editor: Element)
    requires span.nodeName == "SPAN" && span.id == "" && anchor.nodeName == "A" && editor.id == "editor"
    ensures FindNodeByNameInContainer([span, anchor, editor], "A", "editor") == Undefined
  {
    SearchOutcomes([span, anchor, editor], "A", "editor");
    assert [span, anchor, editor][1] == anchor;
  }

  // ---------------------------------------------------------------------------
  // getSelectedHref (rich_editor.js:462-481)

  datatype HrefResult = Href(href: string) | NullHref | ThrowsTypeError

  /** `href ? href : null`: the empty href and a missing one give null. */
  function Truthy(href: Option<string>): HrefResult {
    if href.Some? && href.value != "" then Href(href.value) else NullHref
  }

  /** `RE.getSelectedHref()`: `siblings[at]` is the selection's anchor node and
      `parents` the `parentElement` chain above it. */
  function GetSelectedHref(sel: Option<Selection>, siblings: seq<Node>, at: nat, parents: seq<Element>): HrefResult
    requires at < |siblings|
  {
    if !RangeOrCaretSelectionExists(sel) then NullHref
    else
      var tags := AnchorHrefs(siblings[at + 1..]);
      if |tags| > 1 then NullHref
      else if |tags| == 1 then Truthy(tags[0])
      else match FindNodeByNameInContainer(parents, "A", "editor")
        case Found(node) => Truthy(Some(node.href))
        case _ => ThrowsTypeError
  }

  /** The branches: null without a range or caret selection, null with more
      than one anchor after the selection, that anchor's href (or null when
      empty or missing) with exactly one; with none, the href of the
      selection's parent when it is an anchor, and otherwise the property read
      on null or undefined throws. A returned href is never empty. */
  lemma GetSelectedHrefBranches(sel: Option<Selection>, siblings: seq<Node>, at: nat, parents: seq<Element>)
    requires at < |siblings|
    ensures var r := GetSelectedHref(sel, siblings, at, parents);
      var tags := AnchorHrefs(siblings[at + 1..]);
      && (!RangeOrCaretSelectionExists(sel) ==> r == NullHref)
      && (RangeOrCaretSelectionExists(sel) && |tags| > 1 ==> r == NullHref)
      && (RangeOrCaretSelectionExists(sel) && |tags| == 1 ==> r == Truthy(tags[0]))
      && (RangeOrCaretSelectionExists(sel) && |tags| == 0 ==>
            if parents != [] && parents[0].nodeName == "A" then r == Truthy(Some(parents[0].href)) else r == ThrowsTypeError)
      && (r.Href? ==> r.href != "")
  {
    SearchOutcomes(parents, "A", "editor");
  }

  // ---------------------------------------------------------------------------
  // Table shape (rich_editor.js:365-372)

  datatype Cell = Cell

  /** `height` rows of `width` cells; a count that is not positive gives none. */
  function Grid(width: int, height: int): (g: seq<seq<Cell>>)
    ensures |g| == if height > 0 then height else 0
    ensures forall i :: 0 <= i < |g| ==> |g[i]| == if width > 0 then width else 0
  {
    seq(if height > 0 then height else 0, i => Row(width))
  }

  function Row(width: int): (r: seq<Cell>)
    ensures |r| == if width > 0 then width else 0
  {
    seq(if width > 0 then width else 0, j => Cell)
  }

  /** The nested loops of `insertTable`: `insertRow` for each of `height`
      rows, then `insertCell` `width` times in it. */
  method TableRows(width: int, height: int) returns (rows: seq<seq<Cell>>)
    ensures rows == Grid(width, height)
  {
    rows := [];
    var i := 0;
    while i < height
      invariant 0 <= i <= (if height > 0 then height else 0)
      invariant |rows| == i && forall k :: 0 <= k < i ==> rows[k] == Row(width)
    {
      var row: seq<Cell> := [];
      var j := 0;
      while j < width
        invariant 0 <= j <= (if width > 0 then width else 0)
        invariant row == seq(j, _ => Cell)
      {
        row := row + [Cell];
        j := j + 1;
      }
      assert row == Row(width);
      rows := rows + [row];
      i := i + 1;
    }
    assert |rows| == |Grid(width, height)|;
    assert forall k :: 0 <= k < |rows| ==> rows[k] == Grid(width, height)[k];
  }

  function Cells(g: seq<seq<Cell>>): nat
    decreases |g|
  {
    if g == [] then 0 else Cells(g[..|g| - 1]) + |g[|g| - 1]|
  }

  /** The table holds `width * height` cells for positive sizes. */
  lemma {:induction false} GridCells(width: int, height: int)
    requires width > 0 && height > 0
    ensures Cells(Grid(width, height)) == width * height
    decreases height
  {
    var g := Grid(width, height);
    if height > 1 {
      GridCells(width, height - 1);
      assert g[..height - 1] == Grid(width, height - 1);
    } else {
      assert g[..0] == [];
    }
  }
}
