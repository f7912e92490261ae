/**
 * Dragging an alias from the palette into the editor, and removing a token
 * with its delete button (`useAliasDnD`, and the same helpers in `helper.tsx`).
 *
 * The hook keeps one mutable slot, the saved range: every dragover stores the
 * caret under the mouse there, and a drop inserts the dragged alias' token at
 * it and clears it. The palette's drag start and drag end set and clear the
 * selected alias.
 */
module AliasDnD {
  import opened Wrappers
  import opened Document

  /** What a click lands on: a node inside unit `k` of the document, reached by
      `path` in that unit's tree, or an element outside the editable area, described
      by whether it carries `data-alias-delete` and has an ancestor carrying
      `data-alias-value`. */
  datatype ClickTarget =
    | InDocument(k: nat, path: seq<nat>)
    | Outside(deleteControl: bool, insideToken: bool)

  /** The target is part of the document as it stands. */
  predicate TargetExists(doc: seq<Inline>, target: ClickTarget) {
    target.InDocument? ==> target.k < |doc| && NodeAt(TreeOf(doc[target.k]), target.path).Some?
  }

  /** `target.dataset.aliasDelete` is truthy and `target.closest("[data-alias-value]")`
      finds an element. */
  predicate HitsDeleteControl(doc: seq<Inline>, target: ClickTarget)
    requires TargetExists(doc, target)
  {
    match target
    case InDocument(k, path) =>
      IsDeleteControl(NodeAt(TreeOf(doc[k]), path).value) && Closest(TreeOf(doc[k]), path).Some?
    case Outside(deleteControl, insideToken) => deleteControl && insideToken
  }

  /** Inside the document exactly one node per token is a delete control, the token's
      button, and its enclosing `[data-alias-value]` element is the token itself. */
  lemma HitsExactlyTheButton(doc: seq<Inline>, k: nat, path: seq<nat>)
    requires TargetExists(doc, InDocument(k, path))
    ensures HitsDeleteControl(doc, InDocument(k, path)) <==> doc[k].Token? && path == [1]
    ensures HitsDeleteControl(doc, InDocument(k, path)) ==> Closest(TreeOf(doc[k]), path) == Some(0)
  {
    match doc[k]
    case Ch(c) =>
      assert path == [];
    case Token(v, id, l) =>
      RenderAliasShape(Alias(id, v, l));
  }

  /** Dropping an alias and then clicking the new token's delete button gives the
      document back. */
  lemma DropThenDeleteRestores(doc: seq<Inline>, p: nat, a: Alias)
    requires p <= |doc|
    ensures TargetExists(InsertAt(doc, p, Render(a)), InDocument(p, [1]))
    ensures HitsDeleteControl(InsertAt(doc, p, Render(a)), InDocument(p, [1]))
    ensures RemoveAt(InsertAt(doc, p, Render(a)), p) == doc
  {
    var d := InsertAt(doc, p, Render(a));
    InsertAtShape(doc, p, Render(a));
    ButtonOfRender(a);
    HitsExactlyTheButton(d, p, [1]);
    RemoveAtShape(d, p);
    assert RemoveAt(d, p) == doc[..p] + doc[p..];
  }

  /** The tree of a rendered token has its delete button at child 1. */
  lemma ButtonOfRender(a: Alias)
    ensures NodeAt(TreeOf(Render(a)), [1]).Some?
  {
    var n := RenderAlias(a);
    assert TreeOf(Render(a)) == n;
    assert [1][1..] == [];
    assert NodeAt(n, [1]) == NodeAt(n.children[1], []);
  }

  class AliasDragDrop {
    /** The palette's `selectedAlias` state. */
    var selectedAlias: Option<Alias>
    /** `savedRangeRef.current`, collapsed: the caret stored by the last dragover. */
    var savedRange: Option<nat>
    /** The editable area and the window's selection. */
    const surface: Surface

    ghost predicate Valid()
      reads this, surface
    {
      surface.Valid() && (savedRange.Some? ==> savedRange.value <= |surface.doc|)
    }

    constructor (surface: Surface)
      requires surface.Valid()
      ensures Valid()
      ensures this.surface == surface && selectedAlias.None? && savedRange.None?
    {
      this.surface := surface;
      selectedAlias := None;
      savedRange := None;
    }

    /** The palette item's `onDragStart`. */
    method DragStart(a: Alias)
      requires Valid()
      modifies this
      ensures Valid()
      ensures selectedAlias == Some(a) && savedRange == old(savedRange)
    {
      selectedAlias := Some(a);
    }

    /** The palette item's `onDragEnd`. */
    method DragEnd()
      requires Valid()
      modifies this
      ensures Valid()
      ensures selectedAlias.None? && savedRange == old(savedRange)
    {
      selectedAlias := None;
    }

    /** `updateCaretToMouse` on dragover; `hit` is what `caretRangeFromPoint` returns. */
    method UpdateCaretToMouse(hit: Option<nat>)
      requires Valid()
      requires hit.Some? ==> hit.value <= |surface.doc|
      modifies this, surface
      ensures Valid()
      ensures hit.None? ==> savedRange == old(savedRange) && surface.caret == old(surface.caret)
      ensures hit.Some? ==>
        savedRange == hit && surface.caret == (if surface.hasSelection then hit else old(surface.caret))
      ensures surface.doc == old(surface.doc) && surface.inputEvents == old(surface.inputEvents)
      ensures selectedAlias == old(selectedAlias)
    {
      if hit.None? {
        return;
      }
      if surface.hasSelection {
        surface.Select(hit.value);
      }
      savedRange := hit;
    }

    /** `handleDropEvent`. The drop event itself is not an input: the outcome depends
        only on the selected alias and the saved range. */
    method Drop()
      requires Valid()
      modifies this, surface
      ensures Valid()
      ensures old(selectedAlias).None? || old(savedRange).None? || !surface.hasSelection ==>
        && savedRange == old(savedRange)
        && surface.doc == old(surface.doc) && surface.caret == old(surface.caret)
      ensures old(selectedAlias).Some? && old(savedRange).Some? && surface.hasSelection ==>
        && surface.doc == InsertAt(old(surface.doc), old(savedRange).value, Render(old(selectedAlias).value))
        && surface.caret == Some(old(savedRange).value + 1)
        && savedRange.None?
      ensures surface.inputEvents == old(surface.inputEvents) && selectedAlias == old(selectedAlias)
    {
      if selectedAlias.None? {
        return;
      }
      if savedRange.None? || !surface.hasSelection {
        return;
      }
      var at := savedRange.value;
      surface.Select(at);
      var node := Render(selectedAlias.value);
      surface.InsertNode(at, node);
      savedRange := None;
    }

    /** `removeAlias` on a click; `editorPresent` is `editorRef.current`, and
        `areaPresent` says whether the editor has its editable area to notify. */
    method RemoveAlias(target: ClickTarget, editorPresent: bool, areaPresent: bool)
      requires Valid() && TargetExists(surface.doc, target)
      modifies this, surface
      ensures Valid()
      ensures !HitsDeleteControl(old(surface.doc), target) || !editorPresent ==>
        && surface.doc == old(surface.doc) && surface.caret == old(surface.caret)
        && savedRange == old(savedRange) && surface.inputEvents == old(surface.inputEvents)
      ensures HitsDeleteControl(old(surface.doc), target) && editorPresent ==>
        && surface.inputEvents == old(surface.inputEvents) + (if areaPresent then 1 else 0)
        && (target.Outside? ==>
              surface.doc == old(surface.doc) && surface.caret == old(surface.caret) && savedRange == old(savedRange))
        && (target.InDocument? ==>
              && surface.doc == RemoveAt(old(surface.doc), target.k)
              && surface.caret == (if old(surface.caret).Some? then Some(ShiftForRemoval(old(surface.caret).value, target.k)) else None)
              && savedRange == (if old(savedRange).Some? then Some(ShiftForRemoval(old(savedRange).value, target.k)) else None))
      ensures selectedAlias == old(selectedAlias)
    {
      if !HitsDeleteControl(surface.doc, target) || !editorPresent {
        return;
      }
      if target.InDocument? {
        surface.Remove(target.k);
        if savedRange.Some? {
          savedRange := Some(ShiftForRemoval(savedRange.value, target.k));
        }
      }
      if areaPresent {
        surface.DispatchInput();
      }
    }
  }
}
