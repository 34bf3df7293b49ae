// Kobo markup edits on an XHTML element tree
// (src/calibre/ebooks/oeb/polish/kepubify.py): the Kobo style element, the
// two wrapper divs around the body's content, the sentence-span id counter
// and the leading-whitespace split used when wrapping text in spans.
//
// Trees are values here: every edit returns the edited tree.

module Kepubify {
  import opened Wrappers
  import Text

  const XhtmlNs := "http://www.w3.org/1999/xhtml"
  const KoboStyleHacks := "kobostylehacks"
  const OuterDivId := "book-columns"
  const InnerDivId := "book-inner"
  const DefaultCss := "div#book-inner { margin-top: 0; margin-bottom: 0; }"

  /** An element's qualified name: its namespace (None for no namespace)
      and its local name; lxml writes it `{ns}local` or `local`. */
  datatype QName = QName(ns: Option<string>, local: string)

  /** An lxml element: its tag, its attributes, the text before its first
      child, its children, and the text after its end tag. */
  datatype Element = Element(
    tag: QName,
    attrs: map<string, string>,
    text: Option<string>,
    children: seq<Element>,
    tail: Option<string>)

  /** calibre's `XHTML(name)`: the name in the XHTML namespace. */
  function XHTML(local: string): QName {
    QName(Some(XhtmlNs), local)
  }

  predicate HasAttr(e: Element, name: string, value: string) {
    name in e.attrs && e.attrs[name] == value
  }

  predicate Truthy(s: Option<string>) {
    s.Some? && s.value != []
  }

  /** `(s or '') + t` */
  function AppendText(s: Option<string>, t: string): Option<string> {
    Some(s.GetOr([]) + t)
  }

  // ---------------------------------------------------------------------
  // Removing children, keeping their tail text

  /** `h:style[@type="text/css" and @class="kobostylehacks"]` */
  predicate IsKoboStyle(e: Element) {
    e.tag == XHTML("style") && HasAttr(e, "type", "text/css") && HasAttr(e, "class", KoboStyleHacks)
  }

  /** `h:div[@id="book-columns"]` */
  predicate IsOuter(e: Element) {
    e.tag == XHTML("div") && HasAttr(e, "id", OuterDivId)
  }

  /** `h:div[@id="book-inner"]` */
  predicate IsInner(e: Element) {
    e.tag == XHTML("div") && HasAttr(e, "id", InnerDivId)
  }

  predicate HasInnerChild(s: seq<Element>) {
    exists i :: 0 <= i < |s| && IsInner(s[i])
  }

  /** An outer wrapper div that has an inner wrapper div as a child. */
  predicate IsBodyWrapper(e: Element) {
    IsOuter(e) && HasInnerChild(e.children)
  }

  /** One `extract(elem)` of calibre.ebooks.oeb.polish.utils: the element
      leaves its parent and a non-empty tail is appended to the tail of the
      sibling before it, or to the parent's text when it was the first
      child. `text` and `kept` are the parent's text and the children
      before the element. */
  function ExtractStep(text: Option<string>, kept: seq<Element>, c: Element)
    : (r: (Option<string>, seq<Element>))
    ensures |r.1| == |kept|
  {
    if !Truthy(c.tail) then (text, kept)
    else if kept == [] then (AppendText(text, c.tail.value), kept)
    else
      var last := kept[|kept| - 1];
      (text, kept[..|kept| - 1] + [last.(tail := AppendText(last.tail, c.tail.value))])
  }

  /** Extracting, in document order, every selected child in `rest`, after
      the children `kept` that are already done. */
  function ExtractFold(sel: Element -> bool, text: Option<string>, kept: seq<Element>, rest: seq<Element>)
    : (Option<string>, seq<Element>)
    decreases |rest|
  {
    if rest == [] then (text, kept)
    else if sel(rest[0]) then
      var s := ExtractStep(text, kept, rest[0]);
      ExtractFold(sel, s.0, s.1, rest[1..])
    else ExtractFold(sel, text, kept + [rest[0]], rest[1..])
  }

  /** The children that are not selected, in order. */
  function Unselected(sel: Element -> bool, s: seq<Element>): (r: seq<Element>)
    ensures |r| <= |s|
    ensures forall j :: 0 <= j < |r| ==> !sel(r[j]) && r[j] in s
    decreases |s|
  {
    if s == [] then []
    else (if sel(s[0]) then [] else [s[0]]) + Unselected(sel, s[1..])
  }

  /** The elements with their tails left out. */
  function Untailed(s: seq<Element>): (r: seq<Element>)
    ensures |r| == |s|
    ensures forall j :: 0 <= j < |s| ==> r[j] == s[j].(tail := None)
  {
    seq(|s|, j requires 0 <= j < |s| => s[j].(tail := None))
  }

  lemma UntailedConcat(a: seq<Element>, b: seq<Element>)
    ensures Untailed(a + b) == Untailed(a) + Untailed(b)
  {
  }

  /** One extraction changes no kept sibling but in its tail. */
  lemma ExtractStepUntailed(text: Option<string>, kept: seq<Element>, c: Element)
    ensures Untailed(ExtractStep(text, kept, c).1) == Untailed(kept)
  {
    var r := ExtractStep(text, kept, c).1;
    forall j | 0 <= j < |kept| ensures r[j].(tail := None) == kept[j].(tail := None) {
    }
  }

  /** Extraction leaves the other children alone: up to their tails, the
      children after it are the unselected ones, in their order. */
  lemma {:induction false} ExtractFoldKeepsOthers(sel: Element -> bool, text: Option<string>,
                                                  kept: seq<Element>, rest: seq<Element>)
    ensures Untailed(ExtractFold(sel, text, kept, rest).1) == Untailed(kept) + Untailed(Unselected(sel, rest))
    decreases |rest|
  {
    if rest == [] {
      assert Untailed([]) == [];
    } else if sel(rest[0]) {
      var s := ExtractStep(text, kept, rest[0]);
      ExtractStepUntailed(text, kept, rest[0]);
      ExtractFoldKeepsOthers(sel, s.0, s.1, rest[1..]);
      assert Unselected(sel, rest) == Unselected(sel, rest[1..]);
    } else {
      ExtractFoldKeepsOthers(sel, text, kept + [rest[0]], rest[1..]);
      KeptOneMore(kept, rest[0], Unselected(sel, rest[1..]));
      assert Unselected(sel, rest) == [rest[0]] + Unselected(sel, rest[1..]);
    }
  }

  lemma KeptOneMore(kept: seq<Element>, c: Element, more: seq<Element>)
    ensures Untailed(kept + [c]) + Untailed(more) == Untailed(kept) + Untailed([c] + more)
  {
    UntailedConcat(kept, [c]);
    UntailedConcat([c], more);
  }

  /** The concatenated tails of a sequence of siblings. */
  function Tails(s: seq<Element>): string
    decreases |s|
  {
    if s == [] then [] else s[0].tail.GetOr([]) + Tails(s[1..])
  }

  lemma {:induction false} TailsConcat(a: seq<Element>, b: seq<Element>)
    ensures Tails(a + b) == Tails(a) + Tails(b)
    decreases |a|
  {
    if a == [] {
      assert a + b == b;
    } else {
      assert (a + b)[1..] == a[1..] + b;
      TailsConcat(a[1..], b);
    }
  }

  /** The character data that belongs to a parent directly: its text and
      the tails of its children. */
  function OwnText(text: Option<string>, kids: seq<Element>): string {
    text.GetOr([]) + Tails(kids)
  }

  /** One extraction moves the element's tail into the parent's own text. */
  lemma ExtractStepKeepsText(text: Option<string>, kept: seq<Element>, c: Element)
    ensures OwnText(ExtractStep(text, kept, c).0, ExtractStep(text, kept, c).1)
         == OwnText(text, kept) + c.tail.GetOr([])
  {
    if Truthy(c.tail) && kept != [] {
      var init := kept[..|kept| - 1];
      var last := kept[|kept| - 1];
      var last' := last.(tail := AppendText(last.tail, c.tail.value));
      assert kept == init + [last];
      TailsConcat(init, [last]);
      TailsConcat(init, [last']);
      assert Tails([last]) == last.tail.GetOr([]);
      assert Tails([last']) == last.tail.GetOr([]) + c.tail.value;
    }
  }

  /** The same, followed by the siblings `more` that come after. */
  lemma StepThenMoreKeepsText(text: Option<string>, kept: seq<Element>, c: Element, more: seq<Element>)
    ensures OwnText(ExtractStep(text, kept, c).0, ExtractStep(text, kept, c).1 + more)
         == OwnText(text, kept + ([c] + more))
  {
    var s := ExtractStep(text, kept, c);
    ExtractStepKeepsText(text, kept, c);
    TailsConcat(s.1, more);
    TailsConcat(kept, [c] + more);
    assert Tails([c] + more) == c.tail.GetOr([]) + Tails(more) by {
      assert ([c] + more)[1..] == more;
    }
    var a, b, t, d := text.GetOr([]), Tails(kept), c.tail.GetOr([]), Tails(more);
    var x, y := s.0.GetOr([]), Tails(s.1);
    assert x + y == a + b + t;
    ConcatAssoc(x, y, d);
    ConcatAssoc(a + b, t, d);
    ConcatAssoc(a, b, t + d);
  }

  lemma ConcatAssoc(a: string, b: string, c: string)
    ensures a + (b + c) == a + b + c
  {
  }

  /** Extraction loses no character data of the parent: each removed
      element's tail moves to the previous kept sibling or to the text. */
  lemma {:induction false} ExtractFoldKeepsText(sel: Element -> bool, text: Option<string>,
                                                kept: seq<Element>, rest: seq<Element>)
    ensures OwnText(ExtractFold(sel, text, kept, rest).0, ExtractFold(sel, text, kept, rest).1)
         == OwnText(text, kept + rest)
    decreases |rest|
  {
    if rest == [] {
      assert kept + rest == kept;
    } else {
      var c := rest[0];
      assert rest == [c] + rest[1..];
      if sel(c) {
        var s := ExtractStep(text, kept, c);
        ExtractFoldKeepsText(sel, s.0, s.1, rest[1..]);
        StepThenMoreKeepsText(text, kept, c, rest[1..]);
      } else {
        ExtractFoldKeepsText(sel, text, kept + [c], rest[1..]);
        assert (kept + [c]) + rest[1..] == kept + rest;
      }
    }
  }

  /** Extracting over one more child is one more step. */
  lemma {:induction false} ExtractFoldSnoc(sel: Element -> bool, text: Option<string>, kept: seq<Element>,
                                           rest: seq<Element>, x: Element)
    ensures ExtractFold(sel, text, kept, rest + [x])
         == (var s := ExtractFold(sel, text, kept, rest);
             if sel(x) then ExtractStep(s.0, s.1, x) else (s.0, s.1 + [x]))
    decreases |rest|
  {
    if rest == [] {
      assert [x][1..] == [];
    } else {
      assert (rest + [x])[1..] == rest[1..] + [x];
      if sel(rest[0]) {
        var s := ExtractStep(text, kept, rest[0]);
        ExtractFoldSnoc(sel, s.0, s.1, rest[1..], x);
      } else {
        ExtractFoldSnoc(sel, text, kept + [rest[0]], rest[1..], x);
      }
    }
  }

  /** With nothing selected, extraction changes nothing. */
  lemma {:induction false} ExtractFoldNoneSelected(sel: Element -> bool, text: Option<string>,
                                                   kept: seq<Element>, rest: seq<Element>)
    requires forall j :: 0 <= j < |rest| ==> !sel(rest[j])
    ensures ExtractFold(sel, text, kept, rest) == (text, kept + rest)
    decreases |rest|
  {
    if rest == [] {
      assert kept + rest == kept;
    } else {
      ExtractFoldNoneSelected(sel, text, kept + [rest[0]], rest[1..]);
      assert (kept + [rest[0]]) + rest[1..] == kept + rest;
    }
  }

  // ---------------------------------------------------------------------
  // remove_kobo_styles

  /** remove_kobo_styles: every Kobo style element below `e`, at any depth,
      is extracted. (The root itself has no parent, so `extract` leaves it.) */
  function RemoveKoboStyles(e: Element): (r: Element)
    ensures r.tag == e.tag && r.attrs == e.attrs && r.tail == e.tail
    decreases e
  {
    var kids := RemoveKoboStylesAll(e.children);
    var s := ExtractFold(IsKoboStyle, e.text, [], kids);
    e.(text := s.0, children := s.1)
  }

  function RemoveKoboStylesAll(s: seq<Element>): (r: seq<Element>)
    ensures |r| == |s|
    ensures forall j :: 0 <= j < |s| ==> r[j] == RemoveKoboStyles(s[j])
    decreases s
  {
    if s == [] then [] else [RemoveKoboStyles(s[0])] + RemoveKoboStylesAll(s[1..])
  }

  /** No Kobo style element anywhere below `e`. */
  predicate NoKoboStyleBelow(e: Element)
    decreases e
  {
    forall j :: 0 <= j < |e.children| ==> !IsKoboStyle(e.children[j]) && NoKoboStyleBelow(e.children[j])
  }

  /** After remove_kobo_styles no Kobo style element is left below the root. */
  lemma {:induction false} RemoveKoboStylesRemovesAll(e: Element)
    ensures NoKoboStyleBelow(RemoveKoboStyles(e))
    decreases e
  {
    var kids := RemoveKoboStylesAll(e.children);
    var s := ExtractFold(IsKoboStyle, e.text, [], kids);
    ExtractFoldKeepsOthers(IsKoboStyle, e.text, [], kids);
    assert Untailed(s.1) == Untailed(Unselected(IsKoboStyle, kids));
    var u := Unselected(IsKoboStyle, kids);
    forall j | 0 <= j < |s.1|
      ensures !IsKoboStyle(s.1[j]) && NoKoboStyleBelow(s.1[j])
    {
      var x, y := s.1[j], u[j];
      assert x.(tail := None) == y.(tail := None);
      assert y in kids;
      var m :| 0 <= m < |kids| && kids[m] == y;
      RemoveKoboStylesRemovesAll(e.children[m]);
      NoKoboStyleBelowIgnoresTail(x, y);
    }
  }

  lemma NoKoboStyleBelowIgnoresTail(x: Element, y: Element)
    requires x.(tail := None) == y.(tail := None)
    requires !IsKoboStyle(y) && NoKoboStyleBelow(y)
    ensures !IsKoboStyle(x) && NoKoboStyleBelow(x)
  {
    assert x.children == y.children && x.tag == y.tag && x.attrs == y.attrs;
  }

  /** A tree with no Kobo style element is left as it is. */
  lemma {:induction false} RemoveKoboStylesNoop(e: Element)
    requires NoKoboStyleBelow(e)
    ensures RemoveKoboStyles(e) == e
    decreases e
  {
    var kids := RemoveKoboStylesAll(e.children);
    forall j | 0 <= j < |e.children| ensures kids[j] == e.children[j] {
      RemoveKoboStylesNoop(e.children[j]);
    }
    assert kids == e.children;
    ExtractFoldNoneSelected(IsKoboStyle, e.text, [], kids);
    assert [] + kids == kids;
  }

  /** Removing the Kobo styles twice is removing them once. */
  lemma RemoveKoboStylesIdempotent(e: Element)
    ensures RemoveKoboStyles(RemoveKoboStyles(e)) == RemoveKoboStyles(e)
  {
    RemoveKoboStylesRemovesAll(e);
    RemoveKoboStylesNoop(RemoveKoboStyles(e));
  }

  // ---------------------------------------------------------------------
  // add_style

  /** The element `add` builds: `<style type="text/css" class="{cls}">css</style>`. */
  function StyleElement(css: string, cls: string): Element {
    Element(XHTML("style"), map["type" := "text/css", "class" := cls], Some(css), [], None)
  }

  /** The index of the last child with the given tag, or -1. */
  function LastWithTag(s: seq<Element>, tag: QName): (i: int)
    ensures -1 <= i < |s|
    ensures i >= 0 ==> s[i].tag == tag
    ensures forall k :: i < k < |s| ==> s[k].tag != tag
    decreases |s|
  {
    if s == [] then -1
    else if s[|s| - 1].tag == tag then |s| - 1
    else LastWithTag(s[..|s| - 1], tag)
  }

  /** The child add_style writes into: the last `head` child, otherwise the
      last `body` child, otherwise none (-1). */
  function StyleTarget(root: Element): (i: int)
    ensures -1 <= i < |root.children|
    ensures LastWithTag(root.children, XHTML("head")) >= 0 ==> i == LastWithTag(root.children, XHTML("head"))
    ensures LastWithTag(root.children, XHTML("head")) < 0 ==> i == LastWithTag(root.children, XHTML("body"))
  {
    var h := LastWithTag(root.children, XHTML("head"));
    if h >= 0 then h else LastWithTag(root.children, XHTML("body"))
  }

  /** `insert_self_closing(parent, e)` of calibre.ebooks.oeb.polish.utils:
      `e` becomes the parent's last child. */
  function AppendChild(parent: Element, e: Element): Element {
    parent.(children := parent.children + [e])
  }

  /** add_style: returns whether a head or body child was found, and the
      tree with the style element appended to the chosen one. */
  function AddStyle(root: Element, css: string, cls: string): (r: (bool, Element))
    ensures r.0 <==> (exists i :: 0 <= i < |root.children|
                       && (root.children[i].tag == XHTML("head") || root.children[i].tag == XHTML("body")))
    ensures !r.0 ==> r.1 == root
    ensures r.0 ==> var t := StyleTarget(root);
            0 <= t && r.1 == root.(children := root.children[t := AppendChild(root.children[t], StyleElement(css, cls))])
  {
    var t := StyleTarget(root);
    if t < 0 then (false, root)
    else (true, root.(children := root.children[t := AppendChild(root.children[t], StyleElement(css, cls))]))
  }

  /** remove_kobo_styles takes away exactly what add_style added. */
  lemma AddStyleThenRemove(root: Element, css: string)
    ensures RemoveKoboStyles(AddStyle(root, css, KoboStyleHacks).1) == RemoveKoboStyles(root)
  {
    var r := AddStyle(root, css, KoboStyleHacks);
    if r.0 {
      var t := StyleTarget(root);
      var p' := AppendChild(root.children[t], StyleElement(css, KoboStyleHacks));
      AppendedStyleRemoved(root.children[t], css);
      RemoveAllUpdate(root.children, t, p');
      assert r.1.children == root.children[t := p'];
    }
  }

  /** The appended style element is the one thing removal takes away. */
  lemma AppendedStyleRemoved(p: Element, css: string)
    ensures RemoveKoboStyles(AppendChild(p, StyleElement(css, KoboStyleHacks))) == RemoveKoboStyles(p)
  {
    var st := StyleElement(css, KoboStyleHacks);
    var p' := AppendChild(p, st);
    var kids := RemoveKoboStylesAll(p.children);
    assert RemoveKoboStyles(st) == st by {
      assert RemoveKoboStylesAll(st.children) == [];
    }
    assert RemoveKoboStylesAll(p'.children) == kids + [st];
    ExtractFoldSnoc(IsKoboStyle, p.text, [], kids, st);
    assert IsKoboStyle(st) && st.tail == None;
  }

  /** Replacing one child by one with the same removal result changes
      nothing in the removal of all of them. */
  lemma RemoveAllUpdate(s: seq<Element>, t: nat, x: Element)
    requires t < |s| && RemoveKoboStyles(x) == RemoveKoboStyles(s[t])
    ensures RemoveKoboStylesAll(s[t := x]) == RemoveKoboStylesAll(s)
  {
    var a, b := RemoveKoboStylesAll(s[t := x]), RemoveKoboStylesAll(s);
    forall j | 0 <= j < |s| ensures a[j] == b[j] {
      if j != t {
        assert s[t := x][j] == s[j];
      }
    }
  }

  // ---------------------------------------------------------------------
  // wrap_body_contents

  /** `elem.xpath('string()')`: all the character data of the subtree. */
  function StringValue(e: Element): string
    decreases e
  {
    e.text.GetOr([]) + StringValueAll(e.children)
  }

  function StringValueAll(s: seq<Element>): string
    decreases s
  {
    if s == [] then [] else StringValue(s[0]) + s[0].tail.GetOr([]) + StringValueAll(s[1..])
  }

  /** The test of the id clean-up AS WRITTEN:
      the second operand of the `or` is not quoted, so it compares the id
      with the string values of the element's children named `book-inner`
      in no namespace, not with the text "book-inner". */
  predicate IdMatchesAsWritten(e: Element) {
    HasAttr(e, "id", OuterDivId)
    || exists j :: 0 <= j < |e.children| && e.children[j].tag == QName(None, InnerDivId)
                  && HasAttr(e, "id", StringValue(e.children[j]))
  }

  /** The test as intended: the id is either wrapper id. */
  predicate IdMatches(e: Element) {
    HasAttr(e, "id", OuterDivId) || HasAttr(e, "id", InnerDivId)
  }

  /** Which of the two tests the id clean-up uses. */
  datatype IdTest = AsWritten | Intended

  predicate IdTestHolds(test: IdTest, e: Element) {
    match test
    case AsWritten => IdMatchesAsWritten(e)
    case Intended => IdMatches(e)
  }

  /** `elem.attrib.pop('id')` on every matching element of the document. */
  function StripIds(test: IdTest, e: Element): (r: Element)
    ensures r.tag == e.tag && r.text == e.text && r.tail == e.tail && |r.children| == |e.children|
    decreases e
  {
    var kids := StripIdsAll(test, e.children);
    e.(attrs := if IdTestHolds(test, e) then e.attrs - {"id"} else e.attrs, children := kids)
  }

  function StripIdsAll(test: IdTest, s: seq<Element>): (r: seq<Element>)
    ensures |r| == |s|
    ensures forall j :: 0 <= j < |s| ==> r[j] == StripIds(test, s[j])
    decreases s
  {
    if s == [] then [] else [StripIds(test, s[0])] + StripIdsAll(test, s[1..])
  }

  /** The number of elements of the subtree whose id is `id`. */
  function CountId(e: Element, id: string): nat
    decreases e
  {
    (if HasAttr(e, "id", id) then 1 else 0) + CountIdAll(e.children, id)
  }

  function CountIdAll(s: seq<Element>, id: string): nat
    decreases s
  {
    if s == [] then 0 else CountId(s[0], id) + CountIdAll(s[1..], id)
  }

  lemma {:induction false} CountIdAllConcat(a: seq<Element>, b: seq<Element>, id: string)
    ensures CountIdAll(a + b, id) == CountIdAll(a, id) + CountIdAll(b, id)
    decreases |a|
  {
    if a == [] {
      assert a + b == b;
    } else {
      assert (a + b)[1..] == a[1..] + b;
      CountIdAllConcat(a[1..], b, id);
    }
  }

  lemma {:induction false} CountIdAllUpdate(s: seq<Element>, i: nat, x: Element, id: string)
    requires i < |s|
    ensures CountIdAll(s[i := x], id) + CountId(s[i], id) == CountIdAll(s, id) + CountId(x, id)
  {
    assert s == s[..i] + [s[i]] + s[i + 1..];
    assert s[i := x] == s[..i] + [x] + s[i + 1..];
    CountIdAllConcat(s[..i] + [s[i]], s[i + 1..], id);
    CountIdAllConcat(s[..i], [s[i]], id);
    CountIdAllConcat(s[..i] + [x], s[i + 1..], id);
    CountIdAllConcat(s[..i], [x], id);
    assert CountIdAll([x], id) == CountId(x, id);
    assert CountIdAll([s[i]], id) == CountId(s[i], id);
  }

  /** After the clean-up no element carries the id `book-columns`, and,
      with the intended test, none carries `book-inner` either. */
  lemma {:induction false} StripIdsClears(test: IdTest, e: Element, id: string)
    requires id == OuterDivId || (test == Intended && id == InnerDivId)
    ensures CountId(StripIds(test, e), id) == 0
    decreases e
  {
    StripIdsAllClears(test, e.children, id);
  }

  lemma {:induction false} StripIdsAllClears(test: IdTest, s: seq<Element>, id: string)
    requires id == OuterDivId || (test == Intended && id == InnerDivId)
    ensures CountIdAll(StripIdsAll(test, s), id) == 0
    decreases s
  {
    if s != [] {
      StripIdsClears(test, s[0], id);
      StripIdsAllClears(test, s[1..], id);
      assert StripIdsAll(test, s) == [StripIds(test, s[0])] + StripIdsAll(test, s[1..]);
    }
  }

  /** The result of wrap_body_contents on the document `root` whose
      `bi`-th child is the body: the new document and the inner div. */
  datatype Wrapped = Wrapped(root: Element, inner: Element)

  function WrapperDiv(id: string, text: Option<string>, children: seq<Element>): Element {
    Element(XHTML("div"), map["id" := id], text, children, None)
  }

  /** wrap_body_contents, with the id clean-up `test`. */
  function WrapSpec(test: IdTest, root: Element, bi: nat): (r: Wrapped)
    requires bi < |root.children|
  {
    var doc := StripIds(test, root);
    var body := doc.children[bi];
    var inner := WrapperDiv(InnerDivId, body.text, body.children);
    var outer := WrapperDiv(OuterDivId, None, [inner]);
    Wrapped(doc.(children := doc.children[bi := body.(text := None, children := [outer])]), inner)
  }

  /** wrap_body_contents, moving the body's children into the inner div
      one at a time. `test` picks the id clean-up: `AsWritten` is the
      source's, which never strips a `book-inner` id (see
      WrapAsWrittenLeavesDuplicateInnerId); `Intended` strips both. */
  method WrapBodyContents(test: IdTest, root: Element, bi: nat) returns (r: Element, inner: Element)
    requires bi < |root.children|
    ensures Wrapped(r, inner) == WrapSpec(test, root, bi)
    ensures var body := StripIds(test, root).children[bi];
            && r.children[bi].text == None
            && r.children[bi].children == [WrapperDiv(OuterDivId, None, [inner])]
            && inner == WrapperDiv(InnerDivId, body.text, body.children)
    ensures |r.children| == |root.children|
    ensures forall j :: 0 <= j < |root.children| && j != bi ==> r.children[j] == StripIds(test, root.children[j])
  {
    var doc := StripIds(test, root);
    var body := doc.children[bi];
    var moved: seq<Element> := [];
    for i := 0 to |body.children|
      invariant moved == body.children[..i]
    {
      moved := moved + [body.children[i]];
    }
    assert moved == body.children;
    inner := WrapperDiv(InnerDivId, body.text, moved);
    var outer := WrapperDiv(OuterDivId, None, [inner]);
    body := body.(text := None, children := [outer]);
    r := doc.(children := doc.children[bi := body]);
  }

  /** With the intended clean-up, the wrapped document has exactly one
      element with each wrapper id: the two new divs. */
  lemma WrapLeavesUniqueIds(root: Element, bi: nat, id: string)
    requires bi < |root.children|
    requires id == OuterDivId || id == InnerDivId
    ensures CountId(WrapSpec(Intended, root, bi).root, id) == 1
  {
    var doc := StripIds(Intended, root);
    var body := doc.children[bi];
    var w := WrapSpec(Intended, root, bi);
    StripIdsClears(Intended, root, id);
    CountIdAllZero(doc.children, id);
    assert CountIdAll(body.children, id) == 0;
    var outer := WrapperDiv(OuterDivId, None, [w.inner]);
    var body' := body.(text := None, children := [outer]);
    assert CountId(w.inner, id) == (if id == InnerDivId then 1 else 0);
    assert CountId(outer, id) == (if id == OuterDivId then 1 else 0) + CountId(w.inner, id) by {
      assert CountIdAll([w.inner], id) == CountId(w.inner, id);
    }
    assert CountId(body', id) == CountId(outer, id) by {
      assert CountIdAll([outer], id) == CountId(outer, id);
    }
    CountIdAllUpdate(doc.children, bi, body', id);
    assert w.root == doc.(children := doc.children[bi := body']);
  }

  /** A forest with no element of a given id has none in any tree. */
  lemma {:induction false} CountIdAllZero(s: seq<Element>, id: string)
    requires CountIdAll(s, id) == 0
    ensures forall j :: 0 <= j < |s| ==> CountId(s[j], id) == 0
    decreases |s|
  {
    if s != [] {
      CountIdAllZero(s[1..], id);
      assert forall j :: 0 < j < |s| ==> s[j] == s[1..][j - 1];
    }
  }

  /** The document that shows the clean-up as written: a body holding one
      div that already has the id `book-inner`. */
  function DocWithInnerId(): Element {
    var div := Element(XHTML("div"), map["id" := InnerDivId], None, [], None);
    Element(XHTML("html"), map[], None, [Element(XHTML("body"), map[], None, [div], None)], None)
  }

  /** The clean-up as written keeps an existing `book-inner` id, so the
      wrapped document has two elements with that id. */
  lemma WrapAsWrittenLeavesDuplicateInnerId()
    ensures CountId(WrapSpec(AsWritten, DocWithInnerId(), 0).root, InnerDivId) == 2
  {
    var doc := DocWithInnerId();
    var body := doc.children[0];
    var div := body.children[0];
    assert !IdMatchesAsWritten(div);
    assert StripIds(AsWritten, div) == div by {
      assert StripIdsAll(AsWritten, []) == [];
    }
    assert !IdMatchesAsWritten(body);
    assert !IdMatchesAsWritten(doc);
    var sdoc := StripIds(AsWritten, doc);
    var sbody := StripIds(AsWritten, body);
    assert sdoc.children == [sbody];
    assert sbody.children == [div];
    var w := WrapSpec(AsWritten, doc, 0);
    assert w.inner == WrapperDiv(InnerDivId, None, [div]);
    assert CountId(div, InnerDivId) == 1 by {
      assert CountIdAll([], InnerDivId) == 0;
    }
    assert CountIdAll([div], InnerDivId) == 1;
    assert CountId(w.inner, InnerDivId) == 2;
    var outer := WrapperDiv(OuterDivId, None, [w.inner]);
    assert CountIdAll([w.inner], InnerDivId) == 2;
    assert CountId(outer, InnerDivId) == 2;
    var body' := sbody.(text := None, children := [outer]);
    assert CountIdAll([outer], InnerDivId) == 2;
    assert CountId(body', InnerDivId) == 2;
    assert w.root == sdoc.(children := [body']);
    assert CountIdAll([body'], InnerDivId) == 2;
  }

  // ---------------------------------------------------------------------
  // unwrap_body_contents

  /** The children of the inner divs among `s`, in order. */
  function InnerChildren(s: seq<Element>): seq<Element>
    decreases |s|
  {
    if s == [] then []
    else InnerChildren(s[..|s| - 1]) + (if IsInner(s[|s| - 1]) then s[|s| - 1].children else [])
  }

  /** The non-empty texts of the inner divs among `s`, concatenated. */
  function InnerText(s: seq<Element>): string
    decreases |s|
  {
    if s == [] then []
    else InnerText(s[..|s| - 1]) + (if IsInner(s[|s| - 1]) && Truthy(s[|s| - 1].text) then s[|s| - 1].text.value else [])
  }

  /** What the XPath `./h:div[@id="book-columns"]/h:div[@id="book-inner"]`
      contributes from the body's children `s`: their inner divs' children. */
  function Collected(s: seq<Element>): seq<Element>
    decreases |s|
  {
    if s == [] then []
    else Collected(s[..|s| - 1]) + (if IsOuter(s[|s| - 1]) then InnerChildren(s[|s| - 1].children) else [])
  }

  function CollectedText(s: seq<Element>): string
    decreases |s|
  {
    if s == [] then []
    else CollectedText(s[..|s| - 1]) + (if IsOuter(s[|s| - 1]) then InnerText(s[|s| - 1].children) else [])
  }

  /** unwrap_body_contents: each outer div holding an inner div is
      extracted, the inner divs' children go to the end of the body and
      the body's text becomes the inner divs' texts joined. */
  function UnwrapSpec(body: Element): Element {
    var s := ExtractFold(IsBodyWrapper, body.text, [], body.children);
    body.(text := Some(CollectedText(body.children)), children := s.1 + Collected(body.children))
  }

  lemma InnerChildrenNone(s: seq<Element>)
    requires !HasInnerChild(s)
    ensures InnerChildren(s) == [] && InnerText(s) == []
    decreases |s|
  {
    if s != [] {
      InnerChildrenNone(s[..|s| - 1]);
    }
  }

  /** The inner part of one step of unwrap_body_contents: the children and
      texts of the inner divs below an outer div `c`, and whether there was
      one (in which case `c` is extracted). */
  method CollectInner(c: Element) returns (kids: seq<Element>, text: string, found: bool)
    ensures kids == InnerChildren(c.children)
    ensures text == InnerText(c.children)
    ensures found == HasInnerChild(c.children)
  {
    kids, text, found := [], [], false;
    for j := 0 to |c.children|
      invariant kids == InnerChildren(c.children[..j])
      invariant text == InnerText(c.children[..j])
      invariant found == HasInnerChild(c.children[..j])
    {
      var x := c.children[j];
      assert c.children[..j + 1][..j] == c.children[..j];
      HasInnerChildSnoc(c.children[..j], x);
      assert c.children[..j + 1] == c.children[..j] + [x];
      if IsInner(x) {
        kids := kids + x.children;
        if Truthy(x.text) {
          text := text + x.text.value;
        }
        found := true;
      }
    }
    assert c.children[..|c.children|] == c.children;
  }

  lemma HasInnerChildSnoc(s: seq<Element>, x: Element)
    ensures HasInnerChild(s + [x]) == (HasInnerChild(s) || IsInner(x))
  {
    if HasInnerChild(s) {
      var k :| 0 <= k < |s| && IsInner(s[k]);
      assert (s + [x])[k] == s[k];
    }
    if HasInnerChild(s + [x]) && !IsInner(x) {
      var k :| 0 <= k < |s| + 1 && IsInner((s + [x])[k]);
      assert k < |s| && (s + [x])[k] == s[k];
    }
    if IsInner(x) {
      assert (s + [x])[|s|] == x;
    }
  }

  /** unwrap_body_contents as the source has it: one pass over the inner
      divs the XPath selects, in document order, collecting their children
      and texts and extracting each outer div. */
  method UnwrapBodyContents(body: Element) returns (r: Element)
    ensures r == UnwrapSpec(body)
  {
    var children: seq<Element> := [];
    var text: string := [];
    var bodyText := body.text;
    var kept: seq<Element> := [];
    var all := body.children;
    for i := 0 to |all|
      invariant children == Collected(all[..i])
      invariant text == CollectedText(all[..i])
      invariant ExtractFold(IsBodyWrapper, body.text, [], all)
             == ExtractFold(IsBodyWrapper, bodyText, kept, all[i..])
    {
      var c := all[i];
      assert all[..i + 1][..i] == all[..i];
      assert all[i..][1..] == all[i + 1..];
      if IsOuter(c) {
        var kids, t, found := CollectInner(c);
        children, text := children + kids, text + t;
        if found {
          var s := ExtractStep(bodyText, kept, c);
          bodyText, kept := s.0, s.1;
        } else {
          kept := kept + [c];
        }
      } else {
        kept := kept + [c];
      }
    }
    assert all[..|all|] == all;
    r := body.(text := Some(text), children := kept + children);
  }

  /** Unwrapping a freshly wrapped body gives back the body as the clean-up
      left it, its text turned from None into the empty string. */
  lemma UnwrapAfterWrap(test: IdTest, root: Element, bi: nat)
    requires bi < |root.children|
    ensures var body := StripIds(test, root).children[bi];
            UnwrapSpec(WrapSpec(test, root, bi).root.children[bi])
              == body.(text := Some(body.text.GetOr([])))
  {
    var body := StripIds(test, root).children[bi];
    var w := WrapSpec(test, root, bi);
    var inner := w.inner;
    var outer := WrapperDiv(OuterDivId, None, [inner]);
    var wrapped := body.(text := None, children := [outer]);
    assert w.root.children[bi] == wrapped;
    assert inner == WrapperDiv(InnerDivId, body.text, body.children);
    assert [outer][..0] == [] && [inner][..0] == [];
    assert InnerChildren([inner]) == body.children;
    assert InnerText([inner]) == body.text.GetOr([]);
    assert Collected([outer]) == body.children;
    assert CollectedText([outer]) == body.text.GetOr([]);
    assert HasInnerChild(outer.children) by {
      assert outer.children[0] == inner;
    }
    assert ExtractFold(IsBodyWrapper, None, [], [outer]) == (None, []) by {
      assert [outer][1..] == [];
    }
  }

  /** When the original body carries neither wrapper id, the round trip
      restores it exactly, apart from None text becoming "". */
  lemma {:induction false} StripIdsNoop(e: Element)
    requires CountId(e, OuterDivId) == 0 && CountId(e, InnerDivId) == 0
    ensures StripIds(Intended, e) == e
    decreases e
  {
    StripIdsAllNoop(e.children);
  }

  lemma {:induction false} StripIdsAllNoop(s: seq<Element>)
    requires CountIdAll(s, OuterDivId) == 0 && CountIdAll(s, InnerDivId) == 0
    ensures StripIdsAll(Intended, s) == s
    decreases s
  {
    if s != [] {
      StripIdsNoop(s[0]);
      StripIdsAllNoop(s[1..]);
    }
  }

  lemma UnwrapAfterWrapRestores(root: Element, bi: nat)
    requires bi < |root.children|
    requires CountId(root, OuterDivId) == 0 && CountId(root, InnerDivId) == 0
    ensures var body := root.children[bi];
            UnwrapSpec(WrapSpec(Intended, root, bi).root.children[bi])
              == body.(text := Some(body.text.GetOr([])))
  {
    StripIdsNoop(root);
    UnwrapAfterWrap(Intended, root, bi);
  }

  // ---------------------------------------------------------------------
  // The sentence-span counter and the whitespace split of add_kobo_spans

  /** The tags that start a new paragraph number. */
  const BlockTags: set<string> := {"p", "ol", "ul", "table", "h1", "h2", "h3", "h4", "h5", "h6"}

  /** The id of a sentence span: `kobo.{paranum}.{segnum}`. */
  function SpanId(paranum: nat, segnum: nat): (id: string)
    ensures Text.StartsWith(id, "kobo.")
  {
    "kobo." + Text.NatToString(paranum) + "." + Text.NatToString(segnum)
  }

  /** The index of the first `c` in `s`, or |s|. */
  function FindChar(s: string, c: char): (i: nat)
    ensures i <= |s|
    decreases |s|
  {
    if s == [] then 0 else if s[0] == c then 0 else 1 + FindChar(s[1..], c)
  }

  lemma {:induction false} FindDotAfterDigits(a: string, b: string)
    requires Text.AllDigits(a)
    ensures FindChar(a + "." + b, '.') == |a|
    decreases |a|
  {
    if a != [] {
      assert (a + "." + b)[1..] == a[1..] + "." + b;
      FindDotAfterDigits(a[1..], b);
    }
  }

  lemma DigitsDotUnique(a: string, b: string, c: string, d: string)
    requires Text.AllDigits(a) && Text.AllDigits(c)
    requires a + "." + b == c + "." + d
    ensures a == c && b == d
  {
    var x := a + "." + b;
    FindDotAfterDigits(a, b);
    FindDotAfterDigits(c, d);
    assert a == x[..|a|] == c;
    assert b == x[|a| + 1..] == d;
  }

  /** Different counter values give different ids. */
  lemma SpanIdInjective(p1: nat, s1: nat, p2: nat, s2: nat)
    requires SpanId(p1, s1) == SpanId(p2, s2)
    ensures p1 == p2 && s1 == s2
  {
    var a := Text.NatToString(p1);
    var c := Text.NatToString(p2);
    var b := Text.NatToString(s1);
    var d := Text.NatToString(s2);
    assert SpanId(p1, s1) == "kobo." + (a + "." + b);
    assert SpanId(p2, s2) == "kobo." + (c + "." + d);
    assert a + "." + b == c + "." + d;
    DigitsDotUnique(a, b, c, d);
    Text.NatToStringInjective(p1, p2);
    Text.NatToStringInjective(s1, s2);
  }

  /** `(p1, s1)` comes strictly before `(p2, s2)`. */
  predicate Before(p1: nat, s1: nat, p2: nat, s2: nat) {
    p1 < p2 || (p1 == p2 && s1 < s2)
  }

  /** The nonlocal counters of add_kobo_spans. `issued` records the
      (paranum, segnum) pairs of the spans made so far. */
  class KoboSpanCounter {
    var paranum: nat
    var segnum: nat
    var incrementNextPara: bool
    ghost var issued: set<(nat, nat)>

    /** Every span made so far is numbered at or before the current pair. */
    ghost predicate Valid()
      reads this
    {
      forall q :: q in issued ==> Before(q.0, q.1, paranum, segnum) || q == (paranum, segnum)
    }

    constructor ()
      ensures Valid()
      ensures paranum == 0 && segnum == 0 && incrementNextPara && issued == {}
    {
      paranum, segnum, incrementNextPara := 0, 0, true;
      issued := {};
    }

    /** The start of wrap_text_in_spans: a pending paragraph break takes
        the next paragraph number and restarts the sentence number. */
    method BeginText()
      requires Valid()
      modifies this
      ensures Valid()
      ensures old(incrementNextPara) ==> paranum == old(paranum) + 1 && segnum == 0
      ensures !old(incrementNextPara) ==> paranum == old(paranum) && segnum == old(segnum)
      ensures !incrementNextPara && issued == old(issued)
    {
      if incrementNextPara {
        paranum := paranum + 1;
        segnum := 0;
        incrementNextPara := false;
      }
    }

    /** kobo_span: the next sentence number, and the id it gives. The
        id was never given before. */
    method NextSpanId() returns (id: string)
      requires Valid()
      modifies this
      ensures Valid()
      ensures paranum == old(paranum) && segnum == old(segnum) + 1
      ensures incrementNextPara == old(incrementNextPara)
      ensures id == SpanId(paranum, segnum)
      ensures (paranum, segnum) !in old(issued)
      ensures issued == old(issued) + {(paranum, segnum)}
    {
      segnum := segnum + 1;
      issued := issued + {(paranum, segnum)};
      id := SpanId(paranum, segnum);
    }

    /** An element node taken off the stack: a block tag marks a pending
        paragraph break. */
    method EnterElement(tagname: string)
      requires Valid()
      modifies this
      ensures Valid()
      ensures paranum == old(paranum) && segnum == old(segnum) && issued == old(issued)
      ensures incrementNextPara == (old(incrementNextPara) || tagname in BlockTags)
    {
      if !incrementNextPara && tagname in BlockTags {
        incrementNextPara := true;
      }
    }

    /** An `img` child: it is wrapped in a span of its own paragraph. */
    method WrapImage() returns (id: string)
      requires Valid()
      modifies this
      ensures Valid()
      ensures paranum == old(paranum) + 1 && segnum == 1 && !incrementNextPara
      ensures id == SpanId(paranum, segnum)
      ensures (paranum, segnum) !in old(issued)
      ensures issued == old(issued) + {(paranum, segnum)}
    {
      incrementNextPara := false;
      paranum := paranum + 1;
      segnum := 0;
      id := NextSpanId();
    }
  }

  /** Two spans made at different counter values have different ids. */
  lemma SpanIdsDistinct(q: (nat, nat), paranum: nat, segnum: nat)
    requires q != (paranum, segnum)
    ensures SpanId(q.0, q.1) != SpanId(paranum, segnum)
  {
    if SpanId(q.0, q.1) == SpanId(paranum, segnum) {
      SpanIdInjective(q.0, q.1, paranum, segnum);
    }
  }

  /** The split in wrap_text_in_spans: `ws` is the leading whitespace, or
      None when there is none, and `stripped` is the rest. */
  function SplitLeadingWhitespace(text: string): (r: (Option<string>, string))
    ensures r.0.GetOr([]) + r.1 == text
    ensures r.0 == None <==> (text == [] || !Text.IsSpace(text[0]))
    ensures r.0.Some? ==> Text.AllSpace(r.0.value)
    ensures r.1 != [] ==> !Text.IsSpace(r.1[0])
  {
    var num := Text.LeadingSpaceCount(text);
    (if num == 0 then None else Some(text[..num]), text[num..])
  }
}
