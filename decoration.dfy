/** The decoration classifier of `RichEditor.stateCheck`
    (RichEditor.java:61-63, 255-267): which formatting states a `re-state://`
    message announces. */
module Decoration {
  import opened JavaStrings

  /** `RichEditor.Type`, in declaration order. */
  datatype Type =
    | BOLD | ITALIC | SUBSCRIPT | SUPERSCRIPT | STRIKETHROUGH | UNDERLINE
    | H1 | H2 | H3 | H4 | H5 | H6 | HTML | HR | ORDEREDLIST | UNORDEREDLIST
    | JUSTIFYCENTER | JUSTIFYFULL | JUSTIFYLEFT | JUSTIFYRIGHT

  /** `Type.values()`. */
  const ALL_TYPES: seq<Type> :=
    [BOLD, ITALIC, SUBSCRIPT, SUPERSCRIPT, STRIKETHROUGH, UNDERLINE,
     H1, H2, H3, H4, H5, H6, HTML, HR, ORDEREDLIST, UNORDEREDLIST,
     JUSTIFYCENTER, JUSTIFYFULL, JUSTIFYLEFT, JUSTIFYRIGHT]

  /** `type.name()`. */
  function Name(t: Type): string {
    match t
    case BOLD => "BOLD"
    case ITALIC => "ITALIC"
    case SUBSCRIPT => "SUBSCRIPT"
    case SUPERSCRIPT => "SUPERSCRIPT"
    case STRIKETHROUGH => "STRIKETHROUGH"
    case UNDERLINE => "UNDERLINE"
    case H1 => "H1"
    case H2 => "H2"
    case H3 => "H3"
    case H4 => "H4"
    case H5 => "H5"
    case H6 => "H6"
    case HTML => "HTML"
    case HR => "HR"
    case ORDEREDLIST => "ORDEREDLIST"
    case UNORDEREDLIST => "UNORDEREDLIST"
    case JUSTIFYCENTER => "JUSTIFYCENTER"
    case JUSTIFYFULL => "JUSTIFYFULL"
    case JUSTIFYLEFT => "JUSTIFYLEFT"
    case JUSTIFYRIGHT => "JUSTIFYRIGHT"
  }

  /** `type.ordinal()`. */
  function Ordinal(t: Type): nat {
    match t
    case BOLD => 0
    case ITALIC => 1
    case SUBSCRIPT => 2
    case SUPERSCRIPT => 3
    case STRIKETHROUGH => 4
    case UNDERLINE => 5
    case H1 => 6
    case H2 => 7
    case H3 => 8
    case H4 => 9
    case H5 => 10
    case H6 => 11
    case HTML => 12
    case HR => 13
    case ORDEREDLIST => 14
    case UNORDEREDLIST => 15
    case JUSTIFYCENTER => 16
    case JUSTIFYFULL => 17
    case JUSTIFYLEFT => 18
    case JUSTIFYRIGHT => 19
  }

  lemma AllTypesInOrder()
    ensures forall i :: 0 <= i < |ALL_TYPES| ==> Ordinal(ALL_TYPES[i]) == i
    ensures forall t: Type :: ALL_TYPES[Ordinal(t)] == t
  {
    forall t: Type ensures ALL_TYPES[Ordinal(t)] == t {
      match t
      case BOLD =>
      case ITALIC =>
      case SUBSCRIPT =>
      case SUPERSCRIPT =>
      case STRIKETHROUGH =>
      case UNDERLINE =>
      case H1 =>
      case H2 =>
      case H3 =>
      case H4 =>
      case H5 =>
      case H6 =>
      case HTML =>
      case HR =>
      case ORDEREDLIST =>
      case UNORDEREDLIST =>
      case JUSTIFYCENTER =>
      case JUSTIFYFULL =>
      case JUSTIFYLEFT =>
      case JUSTIFYRIGHT =>
    }
  }

  /** The types among `ts` whose name occurs in `state`, in the order of `ts`. */
  function Select(ts: seq<Type>, state: string): seq<Type>
    decreases |ts|
  {
    if ts == [] then []
    else
      var last := ts[|ts| - 1];
      Select(ts[..|ts| - 1], state) + (if IndexOf(state, Name(last)) != -1 then [last] else [])
  }

  /** The specification of the loop in `stateCheck`. */
  function Classify(state: string): seq<Type> {
    Select(ALL_TYPES, state)
  }

  lemma {:induction false} SelectMembers(ts: seq<Type>, state: string, t: Type)
    ensures t in Select(ts, state) <==> t in ts && Occurs(state, Name(t))
    decreases |ts|
  {
    if ts != [] {
      var init := ts[..|ts| - 1];
      SelectMembers(init, state, t);
      assert ts == init + [ts[|ts| - 1]];
    }
  }

  lemma {:induction false} SelectOrdered(ts: seq<Type>, state: string)
    requires forall i, j :: 0 <= i < j < |ts| ==> Ordinal(ts[i]) < Ordinal(ts[j])
    ensures forall i, j :: 0 <= i < j < |Select(ts, state)| ==> Ordinal(Select(ts, state)[i]) < Ordinal(Select(ts, state)[j])
    decreases |ts|
  {
    if ts != [] {
      var init, last := ts[..|ts| - 1], ts[|ts| - 1];
      SelectOrdered(init, state);
      var s := Select(init, state);
      forall t | t in s ensures Ordinal(t) < Ordinal(last) {
        SelectMembers(init, state, t);
        var i :| 0 <= i < |init| && init[i] == t;
        assert ts[i] == t;
      }
    }
  }

  /** The type list holds exactly the types whose name is a substring of the
      state text: a plain containment test, so a longer name also activates a
      shorter one inside it. */
  lemma ClassifyMembers(state: string, t: Type)
    ensures t in Classify(state) <==> Occurs(state, Name(t))
  {
    AllTypesInOrder();
    assert t in ALL_TYPES by { assert ALL_TYPES[Ordinal(t)] == t; }
    SelectMembers(ALL_TYPES, state, t);
  }

  /** The type list follows the enum's declaration order, not the order of the text. */
  lemma ClassifyInDeclarationOrder(state: string)
    ensures forall i, j :: 0 <= i < j < |Classify(state)| ==> Ordinal(Classify(state)[i]) < Ordinal(Classify(state)[j])
  {
    AllTypesInOrder();
    SelectOrdered(ALL_TYPES, state);
  }

  /** The loop of `stateCheck`: every type in `Type.values()` order is tested
      with `TextUtils.indexOf` and appended when its name occurs. */
  method ActiveTypes(state: string) returns (types: seq<Type>)
    ensures types == Classify(state)
  {
    types := [];
    for i := 0 to |ALL_TYPES|
      invariant types == Select(ALL_TYPES[..i], state)
    {
      var t := ALL_TYPES[i];
      assert ALL_TYPES[..i + 1][..i] == ALL_TYPES[..i];
      if IndexOf(state, Name(t)) != -1 {
        types := types + [t];
      }
    }
    assert ALL_TYPES[..|ALL_TYPES|] == ALL_TYPES;
  }

  /** The state text `stateCheck` hands to the listener: the first `re-state://`
      removed, then upper-cased. */
  const STATE_SCHEME := "re-state://"

  function StateText(text: string): string {
    ToUpperAscii(ReplaceFirst(text, STATE_SCHEME, ""))
  }

  ghost predicate Increasing(ts: seq<Type>) {
    forall i, j :: 0 <= i < j < |ts| ==> Ordinal(ts[i]) < Ordinal(ts[j])
  }

  lemma FirstIsLeast(ts: seq<Type>, t: Type)
    requires Increasing(ts) && t in ts
    ensures Ordinal(ts[0]) <= Ordinal(t)
  {
  }

  lemma TailMembers(ts: seq<Type>, t: Type)
    requires Increasing(ts) && ts != []
    ensures t in ts[1..] <==> t in ts && t != ts[0]
  {
    if t in ts[1..] {
      var i :| 0 <= i < |ts[1..]| && ts[1..][i] == t;
      assert ts[i + 1] == t;
    }
    if t in ts && t != ts[0] {
      var i :| 0 <= i < |ts| && ts[i] == t;
      assert ts[1..][i - 1] == t;
    }
  }

  /** Two type lists in declaration order with the same members are equal. */
  lemma {:induction false} IncreasingUnique(a: seq<Type>, b: seq<Type>)
    requires Increasing(a) && Increasing(b)
    requires forall t :: t in a <==> t in b
    ensures a == b
    decreases |a|
  {
    if a == [] {
      assert b == [] by { assert forall i :: 0 <= i < |b| ==> b[i] in b; }
    } else {
      assert |b| > 0 by { assert a[0] in b; }
      FirstIsLeast(a, b[0]);
      FirstIsLeast(b, a[0]);
      AllTypesInOrder();
      assert a[0] == ALL_TYPES[Ordinal(a[0])] == ALL_TYPES[Ordinal(b[0])] == b[0];
      forall t ensures t in a[1..] <==> t in b[1..] {
        TailMembers(a, t);
        TailMembers(b, t);
      }
      IncreasingUnique(a[1..], b[1..]);
      assert a == [a[0]] + a[1..] && b == [b[0]] + b[1..];
    }
  }

  /** The type list is determined by which names occur in the state text. */
  lemma ClassifyIs(state: string, ts: seq<Type>)
    requires Increasing(ts)
    requires forall t :: t in ts <==> Occurs(state, Name(t))
    ensures Classify(state) == ts
  {
    ClassifyInDeclarationOrder(state);
    forall t ensures t in Classify(state) <==> t in ts {
      ClassifyMembers(state, t);
    }
    IncreasingUnique(Classify(state), ts);
  }

  /** The names that occur in "BOLD ITALIC H1", one group of absent names at a time. */
  lemma BoldItalicH1Present(s: string, t: Type)
    requires s == "BOLD ITALIC H1" && (t == BOLD || t == ITALIC || t == H1)
    ensures Occurs(s, Name(t))
  {
    if t == BOLD { OccursAt(s, "BOLD", 0); }
    else if t == ITALIC { OccursAt(s, "ITALIC", 5); }
    else { OccursAt(s, "H1", 12); }
  }

  lemma BoldItalicH1LacksS(s: string, t: Type)
    requires s == "BOLD ITALIC H1"
    requires t == SUBSCRIPT || t == SUPERSCRIPT || t == STRIKETHROUGH || t == JUSTIFYCENTER
          || t == JUSTIFYFULL || t == JUSTIFYLEFT || t == JUSTIFYRIGHT
    ensures !Occurs(s, Name(t))
  {
    NotOccursWithoutChar(s, Name(t), 'S');
  }

  lemma BoldItalicH1LacksR(s: string, t: Type)
    requires s == "BOLD ITALIC H1"
    requires t == UNDERLINE || t == HR || t == ORDEREDLIST || t == UNORDEREDLIST
    ensures !Occurs(s, Name(t))
  {
    NotOccursWithoutChar(s, Name(t), 'R');
  }

  lemma BoldItalicH1LacksDigit(s: string, t: Type)
    requires s == "BOLD ITALIC H1"
    requires t == H2 || t == H3 || t == H4 || t == H5 || t == H6
    ensures !Occurs(s, Name(t))
  {
    NotOccursWithoutChar(s, Name(t), Name(t)[1]);
  }

  lemma BoldItalicH1Names(s: string, t: Type)
    requires s == "BOLD ITALIC H1"
    ensures Occurs(s, Name(t)) <==> t == BOLD || t == ITALIC || t == H1
  {
    if t == BOLD || t == ITALIC || t == H1 {
      BoldItalicH1Present(s, t);
    } else if t == HTML {
      NotOccursWithoutChar(s, "HTML", 'M');
    } else if t == H2 || t == H3 || t == H4 || t == H5 || t == H6 {
      BoldItalicH1LacksDigit(s, t);
    } else if t == UNDERLINE || t == HR || t == ORDEREDLIST || t == UNORDEREDLIST {
      BoldItalicH1LacksR(s, t);
    } else {
      BoldItalicH1LacksS(s, t);
    }
  }

  /** A bold, italic, level-1 heading selection. */
  lemma ClassifyBoldItalicH1(state: string)
    requires state == "BOLD ITALIC H1"
    ensures Classify(state) == [BOLD, ITALIC, H1]
  {
    forall t ensures t in [BOLD, ITALIC, H1] <==> Occurs(state, Name(t)) {
      BoldItalicH1Names(state, t);
    }
    ClassifyIs(state, [BOLD, ITALIC, H1]);
  }

  lemma UnorderedListLacksH(s: string, t: Type)
    requires s == "UNORDEREDLIST"
    requires t == H1 || t == H2 || t == H3 || t == H4 || t == H5 || t == H6 || t == HTML || t == HR
          || t == STRIKETHROUGH || t == JUSTIFYRIGHT
    ensures !Occurs(s, Name(t))
  {
    NotOccursWithoutChar(s, Name(t), 'H');
  }

  lemma UnorderedListLacksJ(s: string, t: Type)
    requires s == "UNORDEREDLIST"
    requires t == JUSTIFYCENTER || t == JUSTIFYFULL || t == JUSTIFYLEFT
    ensures !Occurs(s, Name(t))
  {
    NotOccursWithoutChar(s, Name(t), 'J');
  }

  lemma UnorderedListLacksBAP(s: string, t: Type)
    requires s == "UNORDEREDLIST"
    requires t == BOLD || t == SUBSCRIPT || t == ITALIC || t == SUPERSCRIPT
    ensures !Occurs(s, Name(t))
  {
    if t == ITALIC { NotOccursWithoutChar(s, "ITALIC", 'A'); }
    else if t == SUPERSCRIPT { NotOccursWithoutChar(s, "SUPERSCRIPT", 'P'); }
    else { NotOccursWithoutChar(s, Name(t), 'B'); }
  }

  /** "UNDERLINE" shares its first two letters with "UNORDEREDLIST" but no more. */
  lemma UnorderedListLacksUnderline(s: string)
    requires s == "UNORDEREDLIST"
    ensures !Occurs(s, "UNDERLINE")
  {
    var p := "UNDERLINE";
    forall k | 0 <= k <= |s| ensures !StartsWith(s[k..], p) {
      if k == 0 { MismatchAt(s, p, 0, 2); }
      else if k + |p| <= |s| { MismatchAt(s, p, k, 0); }
    }
  }

  lemma UnorderedListNames(s: string, t: Type)
    requires s == "UNORDEREDLIST"
    ensures Occurs(s, Name(t)) <==> t == ORDEREDLIST || t == UNORDEREDLIST
  {
    if t == ORDEREDLIST { OccursAt(s, "ORDEREDLIST", 2); }
    else if t == UNORDEREDLIST { OccursAt(s, "UNORDEREDLIST", 0); }
    else if t == UNDERLINE { UnorderedListLacksUnderline(s); }
    else if t == BOLD || t == SUBSCRIPT || t == ITALIC || t == SUPERSCRIPT { UnorderedListLacksBAP(s, t); }
    else if t == JUSTIFYCENTER || t == JUSTIFYFULL || t == JUSTIFYLEFT { UnorderedListLacksJ(s, t); }
    else { UnorderedListLacksH(s, t); }
  }

  /** An unordered list also reports an ordered one, because "ORDEREDLIST" is a
      substring of "UNORDEREDLIST". */
  lemma ClassifyUnorderedListAlsoOrdered(state: string)
    requires state == "UNORDEREDLIST"
    ensures Classify(state) == [ORDEREDLIST, UNORDEREDLIST]
  {
    forall t ensures t in [ORDEREDLIST, UNORDEREDLIST] <==> Occurs(state, Name(t)) {
      UnorderedListNames(state, t);
    }
    ClassifyIs(state, [ORDEREDLIST, UNORDEREDLIST]);
  }

  /** In general, whenever an unordered list is reported an ordered one is too. */
  lemma UnorderedImpliesOrdered(state: string)
    requires UNORDEREDLIST in Classify(state)
    ensures ORDEREDLIST in Classify(state)
  {
    ClassifyMembers(state, UNORDEREDLIST);
    ClassifyMembers(state, ORDEREDLIST);
    OrderedListInsideUnordered(state);
  }

  lemma OrderedListInsideUnordered(state: string)
    requires Occurs(state, "UNORDEREDLIST")
    ensures Occurs(state, "ORDEREDLIST")
  {
    var k :| 0 <= k <= |state| && StartsWith(state[k..], "UNORDEREDLIST");
    StartsWithDrop(state, k, "UNORDEREDLIST", 2);
    assert "UNORDEREDLIST"[2..] == "ORDEREDLIST";
    OccursAt(state, "ORDEREDLIST", k + 2);
  }
}
