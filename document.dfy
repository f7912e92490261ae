/**
 * The editable document as the alias features see it, and the alias token.
 *
 * The document is flattened to a sequence of inline units: a character of
 * some text node, or one alias token. A caret is an index between units.
 * A text node is a maximal run of characters; the anchor of a caret is a
 * text node exactly when that run is non-empty.
 */
module Document {
  import opened Wrappers

  /** An entry of the alias catalog. */
  datatype Alias = Alias(id: string, value: string, labelText: string)

  /** One unit of the document: a character of a text node, or an alias token. */
  datatype Inline = Ch(c: char) | Token(value: string, id: string, labelText: string)

  /** Parsed markup: the element tree that `renderAlias` describes. */
  datatype Attr = Attr(name: string, val: string)
  datatype Node = Text(text: string) | Element(tag: string, attrs: seq<Attr>, children: seq<Node>)

  /** `getAttribute(name)`: the value of the first attribute of that name, if any. */
  function AttrOf(attrs: seq<Attr>, name: string): (r: Option<string>)
    ensures r.Some? <==> exists i :: 0 <= i < |attrs| && attrs[i].name == name
    ensures r.Some? ==> exists i :: FirstAttrAt(attrs, name, i) && attrs[i].val == r.value
  {
    if attrs == [] then None
    else if attrs[0].name == name then
      assert FirstAttrAt(attrs, name, 0);
      Some(attrs[0].val)
    else
      var r := AttrOf(attrs[1..], name);
      FirstAttrShift(attrs, name, r);
      r
  }

  /** A first attribute of the tail is the first of the whole list when the head's name
      differs. */
  lemma FirstAttrShift(attrs: seq<Attr>, name: string, r: Option<string>)
    requires |attrs| > 0 && attrs[0].name != name
    requires r.Some? ==> exists i :: FirstAttrAt(attrs[1..], name, i) && attrs[1..][i].val == r.value
    ensures r.Some? ==> exists i :: FirstAttrAt(attrs, name, i) && attrs[i].val == r.value
  {
    if r.Some? {
      var i :| FirstAttrAt(attrs[1..], name, i) && attrs[1..][i].val == r.value;
      assert FirstAttrAt(attrs, name, i + 1);
    }
  }

  /** The attribute at `i` is the first one named `name`. */
  predicate FirstAttrAt(attrs: seq<Attr>, name: string, i: int) {
    0 <= i < |attrs| && attrs[i].name == name && forall j :: 0 <= j < i ==> attrs[j].name != name
  }

  predicate HasAttr(n: Node, name: string) {
    n.Element? && AttrOf(n.attrs, name).Some?
  }

  /** `target.dataset.aliasDelete` is truthy: the attribute is there and not empty. */
  predicate IsDeleteControl(n: Node) {
    n.Element? && AttrOf(n.attrs, "data-alias-delete").Some? && AttrOf(n.attrs, "data-alias-delete").value != ""
  }

  /** The tree `renderAlias` returns: a non-editable span carrying the alias' value and id,
      a label span, and a delete button marked with `data-alias-delete`. */
  function RenderAlias(a: Alias): Node {
    Element("span",
      [Attr("class", "custom-alias"), Attr("contenteditable", "false"),
       Attr("data-alias-value", a.value), Attr("data-alias-id", a.id)],
      [Element("span", [], if a.labelText == "" then [] else [Text(a.labelText)]),
       Element("button", [Attr("data-alias-delete", "true")],
         [Element("i", [Attr("class", "delete-icon")],
           [Element("span", [Attr("class", "a11y")], [Text("삭제")])])])])
  }

  /** The concatenated text of a tree and of a forest (`textContent`). */
  function TextContent(n: Node): string
    decreases n, 1
  {
    match n
    case Text(t) => t
    case Element(_, _, children) => TextContents(children)
  }

  function TextContents(ns: seq<Node>): string
    decreases ns, 0
  {
    if ns == [] then "" else TextContent(ns[0]) + TextContents(ns[1..])
  }

  /** Reads a parsed node back as a document unit: an element carrying `data-alias-value`
      is a token whose label is the text of its first child. */
  function TokenOf(n: Node): Option<Inline> {
    match n
    case Text(_) => None
    case Element(_, attrs, children) =>
      match AttrOf(attrs, "data-alias-value")
      case None => None
      case Some(v) =>
        var id := AttrOf(attrs, "data-alias-id");
        Some(Token(v, if id.Some? then id.value else "", if children == [] then "" else TextContent(children[0])))
  }

  /** The node that the markup of `renderAlias(a)` parses to, as a document unit: the
      parse of rendered markup always yields a root node, and that node carries the
      alias' value, id and label. */
  function Render(a: Alias): (t: Inline)
    ensures t == Token(a.value, a.id, a.labelText)
  {
    RenderedAttrs(a);
    match TokenOf(RenderAlias(a))
    case Some(t) => t
    case None => assert false; Ch(' ')
  }

  lemma RenderedAttrs(a: Alias)
    ensures AttrOf(RenderAlias(a).attrs, "class") == Some("custom-alias")
    ensures AttrOf(RenderAlias(a).attrs, "contenteditable") == Some("false")
    ensures AttrOf(RenderAlias(a).attrs, "data-alias-value") == Some(a.value)
    ensures AttrOf(RenderAlias(a).attrs, "data-alias-id") == Some(a.id)
    ensures TokenOf(RenderAlias(a)) == Some(Token(a.value, a.id, a.labelText))
  {
    RootAttrs(a);
    LabelText(a);
    TokenOfElement(RenderAlias(a), a.value, a.id);
  }

  /** An element carrying a value and an id reads back as the token with its first
      child's text as label. */
  lemma TokenOfElement(n: Node, v: string, id: string)
    requires n.Element? && |n.children| > 0
    requires AttrOf(n.attrs, "data-alias-value") == Some(v) && AttrOf(n.attrs, "data-alias-id") == Some(id)
    ensures TokenOf(n) == Some(Token(v, id, TextContent(n.children[0])))
  {
  }

  /** The label span's text is the label. */
  lemma LabelText(a: Alias)
    ensures TextContent(RenderAlias(a).children[0]) == a.labelText
  {
    var labelSpan := RenderAlias(a).children[0];
    assert TextContent(labelSpan) == TextContents(labelSpan.children);
    if a.labelText != "" {
      assert labelSpan.children[1..] == [];
      assert TextContents(labelSpan.children) == a.labelText + TextContents(labelSpan.children[1..]);
    }
  }

  lemma RootAttrs(a: Alias)
    ensures AttrOf(RenderAlias(a).attrs, "class") == Some("custom-alias")
    ensures AttrOf(RenderAlias(a).attrs, "contenteditable") == Some("false")
    ensures AttrOf(RenderAlias(a).attrs, "data-alias-value") == Some(a.value)
    ensures AttrOf(RenderAlias(a).attrs, "data-alias-id") == Some(a.id)
  {
    var attrs := RenderAlias(a).attrs;
    assert attrs == [Attr("class", "custom-alias"), Attr("contenteditable", "false"),
      Attr("data-alias-value", a.value), Attr("data-alias-id", a.id)];
    AttrOfFirst(attrs, "class", 0);
    AttrOfFirst(attrs, "contenteditable", 1);
    AttrOfFirst(attrs, "data-alias-value", 2);
    AttrOfFirst(attrs, "data-alias-id", 3);
  }

  /** `getAttribute` returns the value of the first attribute of the name. */
  lemma {:induction false} AttrOfFirst(attrs: seq<Attr>, name: string, i: nat)
    requires FirstAttrAt(attrs, name, i)
    ensures AttrOf(attrs, name) == Some(attrs[i].val)
    decreases i
  {
    if i > 0 {
      assert attrs[0].name != name;
      assert FirstAttrAt(attrs[1..], name, i - 1);
      AttrOfFirst(attrs[1..], name, i - 1);
    }
  }

  /** The element tree that a token of the document stands for. */
  function TreeOf(t: Inline): Node {
    match t
    case Ch(c) => Text([c])
    case Token(v, id, l) => RenderAlias(Alias(id, v, l))
  }

  /** The node reached from `n` by following child indices. */
  function NodeAt(n: Node, path: seq<nat>): Option<Node>
    decreases path
  {
    if path == [] then Some(n)
    else match n
      case Text(_) => None
      case Element(_, _, children) =>
        if path[0] < |children| then NodeAt(children[path[0]], path[1..]) else None
  }

  /** The node at `path` exists and carries `data-alias-value`. */
  predicate CarriesValue(n: Node, path: seq<nat>) {
    NodeAt(n, path).Some? && HasAttr(NodeAt(n, path).value, "data-alias-value")
  }

  /** `closest("[data-alias-value]")` inside one tree: the length of the longest prefix of
      `path` whose node carries `data-alias-value`; `None` when no node on the way from
      the root carries it. */
  function Closest(n: Node, path: seq<nat>): (r: Option<nat>)
    ensures r.Some? ==> r.value <= |path| && CarriesValue(n, path[..r.value])
    ensures forall m :: (if r.Some? then r.value else -1) < m <= |path| ==> !CarriesValue(n, path[..m])
    decreases |path|
  {
    if CarriesValue(n, path) then
      assert path[..|path|] == path;
      Some(|path|)
    else if path == [] then
      assert path[..0] == path;
      None
    else
      var parent := path[..|path| - 1];
      var r := Closest(n, parent);
      assert forall m :: 0 <= m <= |parent| ==> parent[..m] == path[..m];
      assert path[..|path|] == path;
      r
  }

  lemma {:induction false} RenderAliasShape(a: Alias)
    ensures RenderAlias(a).tag == "span"
    ensures AttrOf(RenderAlias(a).attrs, "class") == Some("custom-alias")
    ensures AttrOf(RenderAlias(a).attrs, "contenteditable") == Some("false")
    ensures AttrOf(RenderAlias(a).attrs, "data-alias-value") == Some(a.value)
    ensures AttrOf(RenderAlias(a).attrs, "data-alias-id") == Some(a.id)
    ensures TokenOf(RenderAlias(a)) == Some(Token(a.value, a.id, a.labelText))
    ensures forall path :: NodeAt(RenderAlias(a), path).Some? && IsDeleteControl(NodeAt(RenderAlias(a), path).value) <==> path == [1]
    ensures forall path :: NodeAt(RenderAlias(a), path).Some? ==> Closest(RenderAlias(a), path) == Some(0)
  {
    RenderedAttrs(a);
    var root := RenderAlias(a);
    forall path
      ensures NodeAt(root, path).Some? && IsDeleteControl(NodeAt(root, path).value) <==> path == [1]
      ensures NodeAt(root, path).Some? ==> Closest(root, path) == Some(0)
    {
      InnerNodes(a, path);
      if NodeAt(root, path).Some? {
        ClosestIsRoot(a, path);
      }
    }
  }

  /** Below the root, the rendered tree has one delete control (the button) and no
      node carrying `data-alias-value`. */
  lemma InnerNodes(a: Alias, path: seq<nat>)
    ensures NodeAt(RenderAlias(a), path).Some? && IsDeleteControl(NodeAt(RenderAlias(a), path).value) <==> path == [1]
    ensures path != [] && NodeAt(RenderAlias(a), path).Some? ==> !HasAttr(NodeAt(RenderAlias(a), path).value, "data-alias-value")
  {
    var root := RenderAlias(a);
    if path == [] {
    } else if path[0] == 0 {
      var labelSpan := root.children[0];
      assert NodeAt(root, path) == NodeAt(labelSpan, path[1..]);
      if |path| > 1 {
        if path[1] == 0 && a.labelText != "" {
          assert NodeAt(labelSpan, path[1..]) == NodeAt(Text(a.labelText), path[2..]);
        }
      }
    } else if path[0] == 1 {
      var button := root.children[1];
      assert NodeAt(root, path) == NodeAt(button, path[1..]);
      if |path| > 1 && path[1] == 0 {
        var icon := button.children[0];
        assert NodeAt(button, path[1..]) == NodeAt(icon, path[2..]);
        if |path| > 2 && path[2] == 0 {
          var hidden := icon.children[0];
          assert NodeAt(icon, path[2..]) == NodeAt(hidden, path[3..]);
          if |path| > 3 && path[3] == 0 {
            assert NodeAt(hidden, path[3..]) == NodeAt(Text("삭제"), path[4..]);
          }
        }
      }
    }
  }

  lemma {:induction false} ClosestIsRoot(a: Alias, path: seq<nat>)
    requires NodeAt(RenderAlias(a), path).Some?
    ensures Closest(RenderAlias(a), path) == Some(0)
    decreases |path|
  {
    InnerNodes(a, path);
    RenderedAttrs(a);
    if path != [] {
      PrefixExists(RenderAlias(a), path);
      ClosestIsRoot(a, path[..|path| - 1]);
    }
  }

  lemma {:induction false} PrefixExists(n: Node, path: seq<nat>)
    requires path != [] && NodeAt(n, path).Some?
    ensures NodeAt(n, path[..|path| - 1]).Some?
    decreases path
  {
    if |path| > 1 {
      var child := n.children[path[0]];
      assert path[1..][..|path[1..]| - 1] == path[..|path| - 1][1..];
      PrefixExists(child, path[1..]);
    }
  }

  // ---------------------------------------------------------------------
  // Edits of the flat document

  predicate AllChars(s: seq<Inline>) {
    forall i :: 0 <= i < |s| ==> s[i].Ch?
  }

  /** The string held by a run of characters. */
  function CharsOf(s: seq<Inline>): (r: string)
    requires AllChars(s)
    ensures |r| == |s| && forall i :: 0 <= i < |s| ==> s[i] == Ch(r[i])
  {
    seq(|s|, i requires 0 <= i < |s| => s[i].c)
  }

  function CountTokens(s: seq<Inline>): nat {
    if s == [] then 0 else (if s[0].Token? then 1 else 0) + CountTokens(s[1..])
  }

  lemma {:induction false} CountTokensAppend(s: seq<Inline>, t: seq<Inline>)
    ensures CountTokens(s + t) == CountTokens(s) + CountTokens(t)
  {
    if s == [] {
      assert s + t == t;
    } else {
      assert (s + t)[1..] == s[1..] + t;
      CountTokensAppend(s[1..], t);
    }
  }

  lemma {:induction false} CharsHaveNoTokens(s: seq<Inline>)
    requires AllChars(s)
    ensures CountTokens(s) == 0
  {
    if s != [] {
      CharsHaveNoTokens(s[1..]);
    }
  }

  /** `range.insertNode(node)` at caret `p`. */
  function InsertAt(doc: seq<Inline>, p: nat, t: Inline): (r: seq<Inline>)
    requires p <= |doc|
  {
    doc[..p] + [t] + doc[p..]
  }

  /** `range.deleteContents()` on the range `[s, e)`. */
  function DeleteRange(doc: seq<Inline>, s: nat, e: nat): seq<Inline>
    requires s <= e <= |doc|
  {
    doc[..s] + doc[e..]
  }

  /** `element.remove()` on the unit at index `k`. */
  function RemoveAt(doc: seq<Inline>, k: nat): seq<Inline>
    requires k < |doc|
  {
    doc[..k] + doc[k + 1..]
  }

  lemma InsertAtShape(doc: seq<Inline>, p: nat, t: Inline)
    requires p <= |doc|
    ensures |InsertAt(doc, p, t)| == |doc| + 1
    ensures InsertAt(doc, p, t)[p] == t
    ensures InsertAt(doc, p, t)[..p] == doc[..p] && InsertAt(doc, p, t)[p + 1..] == doc[p..]
    ensures t.Token? ==> CountTokens(InsertAt(doc, p, t)) == CountTokens(doc) + 1
  {
    var r := InsertAt(doc, p, t);
    assert r[p + 1..] == doc[p..];
    CountTokensAppend(doc[..p] + [t], doc[p..]);
    CountTokensAppend(doc[..p], [t]);
    CountTokensAppend(doc[..p], doc[p..]);
    assert doc[..p] + doc[p..] == doc;
  }

  lemma RemoveAtShape(doc: seq<Inline>, k: nat)
    requires k < |doc|
    ensures |RemoveAt(doc, k)| == |doc| - 1
    ensures RemoveAt(doc, k)[..k] == doc[..k] && RemoveAt(doc, k)[k..] == doc[k + 1..]
    ensures doc[k].Token? ==> CountTokens(RemoveAt(doc, k)) == CountTokens(doc) - 1
  {
    var r := RemoveAt(doc, k);
    assert r[k..] == doc[k + 1..];
    assert doc == doc[..k] + [doc[k]] + doc[k + 1..];
    CountTokensAppend(doc[..k] + [doc[k]], doc[k + 1..]);
    CountTokensAppend(doc[..k], [doc[k]]);
    CountTokensAppend(doc[..k], doc[k + 1..]);
  }

  /** Where a live caret or range boundary ends up when the unit at `k` is removed. */
  function ShiftForRemoval(pos: nat, k: nat): nat {
    if k < pos then pos - 1 else pos
  }

  // ---------------------------------------------------------------------
  // Text runs: the text node that holds a caret

  /** Start of the run of characters that ends at caret `k`. */
  function RunStart(doc: seq<Inline>, k: nat): (j: nat)
    requires k <= |doc|
    ensures j <= k && AllChars(doc[j..k]) && (j == 0 || doc[j - 1].Token?)
    decreases k
  {
    if k == 0 || doc[k - 1].Token? then k
    else
      var j := RunStart(doc, k - 1);
      assert doc[j..k] == doc[j..k - 1] + [doc[k - 1]];
      j
  }

  /** End of the run of characters that starts at caret `k`. */
  function RunEnd(doc: seq<Inline>, k: nat): (j: nat)
    requires k <= |doc|
    ensures k <= j <= |doc| && AllChars(doc[k..j]) && (j == |doc| || doc[j].Token?)
    decreases |doc| - k
  {
    if k == |doc| || doc[k].Token? then k
    else
      var j := RunEnd(doc, k + 1);
      assert doc[k..j] == [doc[k]] + doc[k + 1..j];
      j
  }

  /** The whole run of characters around caret `k` (the text node that holds it). */
  lemma RunIsChars(doc: seq<Inline>, k: nat)
    requires k <= |doc|
    ensures AllChars(doc[RunStart(doc, k)..RunEnd(doc, k)])
  {
    var rs, re := RunStart(doc, k), RunEnd(doc, k);
    assert doc[rs..re] == doc[rs..k] + doc[k..re];
  }

  /** The editable area together with the window's selection. The selection is
      collapsed: `caret` is its first range, `None` when it has no range. */
  class Surface {
    var doc: seq<Inline>
    var caret: Option<nat>
    /** `window.getSelection()` returns an object. */
    const hasSelection: bool
    /** Synthetic `input` events dispatched on the editable area. */
    var inputEvents: nat

    ghost predicate Valid()
      reads this
    {
      && (caret.Some? ==> caret.value <= |doc|)
      && (!hasSelection ==> caret.None?)
    }

    constructor (doc: seq<Inline>, caret: Option<nat>, hasSelection: bool)
      requires caret.Some? ==> hasSelection && caret.value <= |doc|
      ensures Valid()
      ensures this.doc == doc && this.caret == caret && this.hasSelection == hasSelection && inputEvents == 0
    {
      this.doc := doc;
      this.caret := caret;
      this.hasSelection := hasSelection;
      inputEvents := 0;
    }

    /** `selection.removeAllRanges(); selection.addRange(range)` with a collapsed range at `p`. */
    method Select(p: nat)
      requires Valid() && hasSelection && p <= |doc|
      modifies this
      ensures Valid()
      ensures caret == Some(p) && doc == old(doc) && inputEvents == old(inputEvents)
    {
      caret := Some(p);
    }

    /** `range.deleteContents()` on `[s, e)`, then the collapsed range is made the selection. */
    method DeleteContents(s: nat, e: nat)
      requires Valid() && hasSelection && s <= e <= |doc|
      modifies this
      ensures Valid()
      ensures doc == DeleteRange(old(doc), s, e) && caret == Some(s) && inputEvents == old(inputEvents)
    {
      doc := DeleteRange(doc, s, e);
      caret := Some(s);
    }

    /** `range.insertNode(node)` at `p`, then the selection is collapsed just after the node. */
    method InsertNode(p: nat, t: Inline)
      requires Valid() && hasSelection && p <= |doc|
      modifies this
      ensures Valid()
      ensures doc == InsertAt(old(doc), p, t) && caret == Some(p + 1) && inputEvents == old(inputEvents)
    {
      doc := InsertAt(doc, p, t);
      caret := Some(p + 1);
    }

    /** `element.remove()` on the unit at `k`; the live selection moves with the document. */
    method Remove(k: nat)
      requires Valid() && k < |doc|
      modifies this
      ensures Valid()
      ensures doc == RemoveAt(old(doc), k) && inputEvents == old(inputEvents)
      ensures caret == (if old(caret).Some? then Some(ShiftForRemoval(old(caret).value, k)) else None)
    {
      doc := RemoveAt(doc, k);
      if caret.Some? {
        caret := Some(ShiftForRemoval(caret.value, k));
      }
    }

    /** `dispatchEvent(new Event("input", { bubbles: true }))`. */
    method DispatchInput()
      requires Valid()
      modifies this
      ensures Valid()
      ensures doc == old(doc) && caret == old(caret) && inputEvents == old(inputEvents) + 1
    {
      inputEvents := inputEvents + 1;
    }
  }
}
