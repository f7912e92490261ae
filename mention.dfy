/**
 * The mention controller (`useMention`): a five-field state machine driven by
 * the editable area's input, keydown and keyup events, the suggestion filter
 * over the alias catalog, and the text edit that replaces the typed
 * `@query` with an alias token.
 *
 * Each handler is a function from the old state to the new one, and the
 * class `MentionController` holds the five fields and calls them, so that
 * properties of whole event sequences can be stated as lemmas.
 */
module Mention {
  import opened Wrappers
  import opened Chars
  import opened Document
  import opened CaretQuery

  /** Page coordinates of the panel; computed from layout, an input here. */
  datatype Position = Position(top: int, left: int)

  const Origin := Position(0, 0)

  /** `showPanel`, `query`, `position`, `highlightedIndex`, `disabledUntilNextSpace`. */
  datatype MentionState = MentionState(
    showPanel: bool,
    query: string,
    position: Position,
    highlightedIndex: int,
    disabledUntilNextSpace: bool)

  /** The state before any event. */
  const Initial := MentionState(false, "", Origin, -1, false)

  /** The state after a completed selection (the cooldown flag is not touched). */
  function Closed(disabled: bool): MentionState {
    MentionState(false, "", Origin, -1, disabled)
  }

  // ---------------------------------------------------------------------
  // The suggestion filter

  /** `label.toLowerCase().includes(query.toLowerCase())`. */
  predicate LabelMatches(a: Alias, query: string) {
    Includes(Lower(a.labelText), Lower(query))
  }

  function Filter(catalog: seq<Alias>, query: string): (r: seq<Alias>)
    ensures |r| <= |catalog|
    ensures forall a :: a in r <==> a in catalog && LabelMatches(a, query)
  {
    if catalog == [] then []
    else (if LabelMatches(catalog[0], query) then [catalog[0]] else []) + Filter(catalog[1..], query)
  }

  /** `filteredAliases`: `alias?.filter(...) || []`; an absent catalog gives `[]`. */
  function FilterAliases(catalog: Option<seq<Alias>>, query: string): (r: seq<Alias>)
    ensures catalog.None? ==> r == []
    ensures catalog.Some? ==> forall a :: a in r <==> a in catalog.value && LabelMatches(a, query)
  {
    if catalog.None? then [] else Filter(catalog.value, query)
  }

  /** The filter keeps catalog order: filtering a concatenation filters each part. */
  lemma {:induction false} FilterAppend(s: seq<Alias>, t: seq<Alias>, query: string)
    ensures Filter(s + t, query) == Filter(s, query) + Filter(t, query)
  {
    if s == [] {
      assert s + t == t;
    } else {
      assert (s + t)[1..] == s[1..] + t;
      FilterAppend(s[1..], t, query);
    }
  }

  /** The filter keeps an entry exactly as often as the catalog has it, when it matches. */
  lemma {:induction false} FilterCounts(s: seq<Alias>, query: string, a: Alias)
    ensures multiset(Filter(s, query))[a] == if LabelMatches(a, query) then multiset(s)[a] else 0
  {
    if s != [] {
      FilterCounts(s[1..], query, a);
      assert s == [s[0]] + s[1..];
    }
  }

  /** An empty query (a bare `@`) lists the whole catalog. */
  lemma {:induction false} EmptyQueryKeepsAll(s: seq<Alias>)
    ensures Filter(s, "") == s
  {
    if s != [] {
      assert OccursAt(Lower(s[0].labelText), Lower(""), 0);
      EmptyQueryKeepsAll(s[1..]);
    }
  }

  lemma LowerIdempotent(s: string)
    ensures Lower(Lower(s)) == Lower(s)
  {
  }

  /** The case of the query does not matter, only its lower-cased form. */
  lemma {:induction false} QueryCaseIrrelevant(s: seq<Alias>, query: string)
    ensures Filter(s, Lower(query)) == Filter(s, query)
  {
    LowerIdempotent(query);
    if s != [] {
      QueryCaseIrrelevant(s[1..], query);
    }
  }

  /** A label containing the query is listed; a label not containing it is not. */
  lemma KoreanLabelExample()
    ensures Filter([Alias("position", "position", "팀장")], "팀") == [Alias("position", "position", "팀장")]
    ensures Filter([Alias("position", "position", "팀장")], "xyz") == []
  {
    var a := Alias("position", "position", "팀장");
    assert Lower("팀장")[0..1] == Lower("팀");
    assert OccursAt(Lower(a.labelText), Lower("팀"), 0);
    assert !LabelMatches(a, "xyz") by {
      assert |Lower("xyz")| > |Lower(a.labelText)|;
    }
  }

  // ---------------------------------------------------------------------
  // Input events

  /** `handleInput`, given the extracted query and the caret's page position. */
  function OnInput(st: MentionState, queryResult: Option<string>, caret: Position): (r: MentionState)
    ensures st.disabledUntilNextSpace ==> r == st
    ensures !st.disabledUntilNextSpace && queryResult.Some? ==>
      && r.showPanel && r.query == queryResult.value && r.highlightedIndex == 0
      && r.position == (if st.showPanel then st.position else caret)
    ensures !st.disabledUntilNextSpace && queryResult.None? ==> r == Closed(false)
    ensures r.disabledUntilNextSpace == st.disabledUntilNextSpace
  {
    if st.disabledUntilNextSpace then st
    else
      var position := if !st.showPanel && queryResult.Some? then caret else st.position;
      var query := if queryResult.Some? then queryResult.value else "";
      var showPanel := queryResult.Some?;
      if queryResult.Some? then MentionState(showPanel, query, position, 0, st.disabledUntilNextSpace)
      else MentionState(showPanel, query, Origin, -1, st.disabledUntilNextSpace)
  }

  // ---------------------------------------------------------------------
  // Keydown events

  /** JavaScript's `%`: the remainder takes the sign of the dividend. */
  function JsRem(a: int, n: int): (r: int)
    requires n > 0
    ensures a >= 0 ==> r == a % n
    ensures a < 0 ==> -n < r <= 0
  {
    if a >= 0 then a % n else -((-a) % n)
  }

  /** The handler acts (and calls `preventDefault` and `stopPropagation`). */
  predicate Suppresses(st: MentionState, filtered: seq<Alias>, key: string) {
    && st.showPanel && |filtered| > 0
    && (key == "ArrowDown" || key == "ArrowUp" || key == "Enter" || key == "Escape")
  }

  /** The entry that Enter hands to the selection: `highlightedIndex !== -1 &&
      filteredAliases[highlightedIndex]` (an index outside the list reads `undefined`). */
  function EnterChoice(st: MentionState, filtered: seq<Alias>, key: string): (r: Option<Alias>)
    ensures r.Some? <==> st.showPanel && |filtered| > 0 && key == "Enter" && 0 <= st.highlightedIndex < |filtered|
    ensures r.Some? ==> r.value == filtered[st.highlightedIndex]
  {
    if !st.showPanel || |filtered| == 0 || key != "Enter" then None
    else if st.highlightedIndex != -1 && 0 <= st.highlightedIndex < |filtered| then Some(filtered[st.highlightedIndex])
    else None
  }

  /** `handleKeyDown`'s own state changes (Enter's selection is `HandleMentionSelect`). */
  function OnKeyDown(st: MentionState, filtered: seq<Alias>, key: string): (r: MentionState)
    ensures !st.showPanel || |filtered| == 0 ==> r == st
    ensures key != "ArrowDown" && key != "ArrowUp" && key != "Escape" ==> r == st
    ensures st.showPanel && |filtered| > 0 && key == "Escape" ==>
      r == MentionState(false, "", st.position, -1, true)
    ensures key == "ArrowDown" || key == "ArrowUp" ==>
      r == st.(highlightedIndex := r.highlightedIndex)
  {
    if !st.showPanel || |filtered| == 0 then st
    else if key == "ArrowDown" then
      st.(highlightedIndex := JsRem(st.highlightedIndex + 1, |filtered|))
    else if key == "ArrowUp" then
      st.(highlightedIndex := JsRem(st.highlightedIndex - 1 + |filtered|, |filtered|))
    else if key == "Escape" then
      st.(showPanel := false, query := "", highlightedIndex := -1, disabledUntilNextSpace := true)
    else st
  }

  /** Arrow keys move the highlight cyclically within the list. */
  lemma ArrowNavigation(st: MentionState, filtered: seq<Alias>)
    requires st.showPanel && 0 <= st.highlightedIndex < |filtered|
    ensures OnKeyDown(st, filtered, "ArrowDown").highlightedIndex == (st.highlightedIndex + 1) % |filtered|
    ensures OnKeyDown(st, filtered, "ArrowUp").highlightedIndex == (st.highlightedIndex - 1 + |filtered|) % |filtered|
    ensures 0 <= OnKeyDown(st, filtered, "ArrowDown").highlightedIndex < |filtered|
    ensures 0 <= OnKeyDown(st, filtered, "ArrowUp").highlightedIndex < |filtered|
    ensures st.highlightedIndex == |filtered| - 1 ==> OnKeyDown(st, filtered, "ArrowDown").highlightedIndex == 0
    ensures st.highlightedIndex == 0 ==> OnKeyDown(st, filtered, "ArrowUp").highlightedIndex == |filtered| - 1
  {
    var n := |filtered|;
    var i := st.highlightedIndex;
    assert OnKeyDown(st, filtered, "ArrowDown").highlightedIndex == JsRem(i + 1, n);
    assert OnKeyDown(st, filtered, "ArrowUp").highlightedIndex == JsRem(i - 1 + n, n);
    if i == n - 1 {
      ModUnique(i + 1, n, 1, 0);
    } else {
      ModUnique(i + 1, n, 0, i + 1);
    }
    if i == 0 {
      ModUnique(i - 1 + n, n, 0, n - 1);
    } else {
      ModUnique(i - 1 + n, n, 1, i - 1);
    }
  }

  /** ArrowUp undoes ArrowDown. */
  lemma ArrowUpUndoesArrowDown(st: MentionState, filtered: seq<Alias>)
    requires st.showPanel && 0 <= st.highlightedIndex < |filtered|
    ensures OnKeyDown(OnKeyDown(st, filtered, "ArrowDown"), filtered, "ArrowUp") == st
  {
    var n := |filtered|;
    var i := st.highlightedIndex;
    var j := if i == n - 1 then 0 else i + 1;
    if i == n - 1 {
      ModUnique(i + 1, n, 1, 0);
      ModUnique(j - 1 + n, n, 0, i);
    } else {
      ModUnique(i + 1, n, 0, i + 1);
      ModUnique(j - 1 + n, n, 1, i);
    }
    var down := OnKeyDown(st, filtered, "ArrowDown");
    assert down == st.(highlightedIndex := j);
    assert OnKeyDown(down, filtered, "ArrowUp") == down.(highlightedIndex := i);
  }

  // ---------------------------------------------------------------------
  // Keyup events

  /** The keys that end the cooldown. */
  predicate IsBreakKey(key: string) {
    key == " " || key == "Enter" || key == "Tab"
  }

  /** The keyup handler: a space, Enter or Tab ends the cooldown; nothing else changes. */
  function OnKeyUp(st: MentionState, key: string): (r: MentionState)
    ensures r.disabledUntilNextSpace <==> st.disabledUntilNextSpace && !IsBreakKey(key)
    ensures r == st.(disabledUntilNextSpace := r.disabledUntilNextSpace)
  {
    if st.disabledUntilNextSpace && IsBreakKey(key) then st.(disabledUntilNextSpace := false) else st
  }

  // ---------------------------------------------------------------------
  // The invariant every handler keeps

  /** The panel is shown exactly when an entry index is set; a hidden panel has no query;
      a shown panel with entries highlights one of them. */
  ghost predicate Wellformed(st: MentionState, catalog: Option<seq<Alias>>) {
    && (st.showPanel <==> st.highlightedIndex >= 0)
    && (!st.showPanel ==> st.highlightedIndex == -1 && st.query == "")
    && (st.showPanel && |FilterAliases(catalog, st.query)| > 0 ==>
          st.highlightedIndex < |FilterAliases(catalog, st.query)|)
  }

  // ---------------------------------------------------------------------
  // Locating the typed `@query` for the selection

  /** `hay.lastIndexOf(needle, from)`: the last start at or before `from`, or -1. */
  function LastIndexOf(hay: string, needle: string, from: nat): (r: int)
    ensures r == -1 || (0 <= r <= from && OccursAt(hay, needle, r))
    ensures forall j :: r < j <= from ==> !OccursAt(hay, needle, j)
  {
    LastIndexFrom(hay, needle, if from <= |hay| then from else |hay|)
  }

  function LastIndexFrom(hay: string, needle: string, k: int): (r: int)
    requires k <= |hay|
    ensures r == -1 || (0 <= r <= k && OccursAt(hay, needle, r))
    ensures forall j :: r < j <= k ==> !OccursAt(hay, needle, j)
    decreases k + 1
  {
    if k < 0 then -1
    else if OccursAt(hay, needle, k) then k
    else LastIndexFrom(hay, needle, k - 1)
  }

  /** The start of the span to replace, as the source computes it:
      `fullText.lastIndexOf("@" + query, anchorOffset)`. */
  function SpanStartAsWritten(text: string, needle: string, offset: nat): (r: int)
    ensures r == -1 || (0 <= r <= offset && OccursAt(text, needle, r))
    ensures forall j :: r < j <= offset ==> !OccursAt(text, needle, j)
  {
    LastIndexOf(text, needle, offset)
  }

  /** The corrected lookup: the `needle` that ends exactly at the caret, or -1 when the
      text before the caret does not end with it. An earlier occurrence, such as a stale
      query the caret has moved away from, is never taken. */
  function SpanStart(text: string, needle: string, offset: nat): (r: int)
    requires offset <= |text|
    ensures r != -1 <==> |needle| <= offset && OccursAt(text, needle, offset - |needle|)
    ensures r != -1 ==> r == offset - |needle|
  {
    if |needle| <= offset && text[offset - |needle|..offset] == needle then offset - |needle| else -1
  }

  /** The anchor of caret `k` is a text node: the run of characters around it is not empty. */
  predicate AnchorIsText(doc: seq<Inline>, k: nat)
    requires k <= |doc|
  {
    RunStart(doc, k) < RunEnd(doc, k)
  }

  /** `anchorNode.textContent` of a caret whose anchor is a text node. */
  function AnchorText(doc: seq<Inline>, k: nat): string
    requires k <= |doc|
  {
    RunIsChars(doc, k);
    CharsOf(doc[RunStart(doc, k)..RunEnd(doc, k)])
  }

  /** The text from the start of the anchor text node to the caret. */
  function TextBeforeCaret(doc: seq<Inline>, k: nat): string
    requires k <= |doc|
  {
    CharsOf(doc[RunStart(doc, k)..k])
  }

  /** A piece of a run of characters is one, spelling the piece of the run's string. */
  lemma SubRun(doc: seq<Inline>, rs: nat, re: nat, a: nat, b: nat)
    requires rs <= a <= b <= re <= |doc| && AllChars(doc[rs..re])
    ensures AllChars(doc[a..b]) && CharsOf(doc[a..b]) == CharsOf(doc[rs..re])[a - rs..b - rs]
  {
    var run := doc[rs..re];
    assert forall i :: 0 <= i < b - a ==> doc[a..b][i] == run[a - rs + i];
    assert doc[a..b] == run[a - rs..b - rs];
  }

  /** The corrected lookup (see `SpanStart`): where the deletion starts, in document
      indices, when the anchor text node has `@query` ending exactly at the caret;
      `None` when the anchor is not a text node or the text before the caret does not
      end with `@query`. */
  function QuerySpanStart(doc: seq<Inline>, k: nat, query: string): (r: Option<nat>)
    requires k <= |doc|
    ensures r.Some? ==> RunStart(doc, k) <= r.value && r.value + |query| + 1 == k
    ensures r.Some? ==> AllChars(doc[r.value..k]) && CharsOf(doc[r.value..k]) == "@" + query
    ensures r.None? && AnchorIsText(doc, k) && RunStart(doc, k) + |query| + 1 <= k ==>
      !OccursAt(AnchorText(doc, k), "@" + query, k - RunStart(doc, k) - |query| - 1)
  {
    var rs := RunStart(doc, k);
    var re := RunEnd(doc, k);
    if rs == re then None
    else
      RunIsChars(doc, k);
      var text := CharsOf(doc[rs..re]);
      var s := SpanStart(text, "@" + query, k - rs);
      if s == -1 then None
      else
        var p := rs + s;
        FoundSpan(doc, k, query, rs, re, s, p);
        Some(p)
  }

  /** An occurrence of `@query` in the anchor text node that ends at the caret is a run
      of characters of the document spelling `@query`. */
  lemma FoundSpan(doc: seq<Inline>, k: nat, query: string, rs: nat, re: nat, s: int, p: nat)
    requires rs <= k <= re <= |doc| && AllChars(doc[rs..re])
    requires 0 <= s && s + |"@" + query| == k - rs && OccursAt(CharsOf(doc[rs..re]), "@" + query, s)
    requires p == rs + s
    ensures rs <= p && p + |query| + 1 == k
    ensures AllChars(doc[p..k]) && CharsOf(doc[p..k]) == "@" + query
  {
    SubRun(doc, rs, re, p, k);
  }

  /** The corrected selection's insertion point: the start of the deleted span, or the
      caret. */
  function SelectInsertPoint(doc: seq<Inline>, k: nat, query: string): (p: nat)
    requires k <= |doc|
    ensures p <= k
  {
    match QuerySpanStart(doc, k, query)
    case Some(s) => s
    case None => k
  }

  /** The corrected selection with the caret at `k`: the document `handleMentionSelect`
      would leave if its lookup took only the `@query` ending at the caret. */
  function SelectEdit(doc: seq<Inline>, k: nat, query: string, alias: Alias): seq<Inline>
    requires k <= |doc|
  {
    var p := SelectInsertPoint(doc, k, query);
    InsertAt(DeleteRange(doc, p, k), p, Render(alias))
  }

  /** The corrected selection's edit, by whether the typed `@query` was found. */
  lemma SelectEditCases(doc: seq<Inline>, k: nat, query: string, alias: Alias)
    requires k <= |doc|
    ensures var span := QuerySpanStart(doc, k, query);
      && (span.Some? ==>
            && SelectInsertPoint(doc, k, query) == span.value
            && SelectEdit(doc, k, query, alias) == InsertAt(DeleteRange(doc, span.value, k), span.value, Render(alias)))
      && (span.None? ==>
            && SelectInsertPoint(doc, k, query) == k
            && SelectEdit(doc, k, query, alias) == InsertAt(doc, k, Render(alias)))
  {
    assert DeleteRange(doc, k, k) == doc;
  }

  /** Replacing a run of characters `[p, k)` by a token keeps everything outside it and
      adds one token. */
  lemma ReplaceCharsShape(doc: seq<Inline>, p: nat, k: nat, t: Inline)
    requires p <= k <= |doc| && AllChars(doc[p..k]) && t.Token?
    ensures InsertAt(DeleteRange(doc, p, k), p, t) == doc[..p] + [t] + doc[k..]
    ensures CountTokens(InsertAt(DeleteRange(doc, p, k), p, t)) == CountTokens(doc) + 1
  {
    SpliceShape(doc, p, k, t);
    SwapCharsForToken(doc, p, k, t);
  }

  lemma SpliceShape(doc: seq<Inline>, p: nat, k: nat, t: Inline)
    requires p <= k <= |doc|
    ensures InsertAt(DeleteRange(doc, p, k), p, t) == doc[..p] + [t] + doc[k..]
  {
    var d := DeleteRange(doc, p, k);
    assert d == doc[..p] + doc[k..];
    assert d[..p] == doc[..p] && d[p..] == doc[k..];
  }

  /** Exchanging a run of characters for one token adds one token to the count. */
  lemma SwapCharsForToken(doc: seq<Inline>, p: nat, k: nat, t: Inline)
    requires p <= k <= |doc| && AllChars(doc[p..k]) && t.Token?
    ensures CountTokens(doc[..p] + [t] + doc[k..]) == CountTokens(doc) + 1
  {
    var a, b, c := doc[..p], doc[p..k], doc[k..];
    assert doc == a + b + c;
    CharsHaveNoTokens(b);
    assert CountTokens([t]) == 1 by {
      assert [t][1..] == [];
    }
    CountTokensAppend(a + [t], c);
    CountTokensAppend(a, [t]);
    CountTokensAppend(a + b, c);
    CountTokensAppend(a, b);
  }

  /** The corrected selection deletes only characters, from its insertion point to the
      caret, and inserts exactly one token there. */
  lemma SelectEditShape(doc: seq<Inline>, k: nat, query: string, alias: Alias)
    requires k <= |doc|
    ensures var p := SelectInsertPoint(doc, k, query);
      && SelectEdit(doc, k, query, alias) == doc[..p] + [Render(alias)] + doc[k..]
      && AllChars(doc[p..k])
      && CountTokens(SelectEdit(doc, k, query, alias)) == CountTokens(doc) + 1
  {
    var p := SelectInsertPoint(doc, k, query);
    assert AllChars(doc[p..k]);
    ReplaceCharsShape(doc, p, k, Render(alias));
  }

  /** The corrected selection deletes either nothing or exactly the `@query` ending at
      the caret, whatever the query and wherever the caret is. */
  lemma SelectEditDeletesOnlyQuery(doc: seq<Inline>, k: nat, query: string, alias: Alias)
    requires k <= |doc|
    ensures var p := SelectInsertPoint(doc, k, query);
      && (p == k || (p + |query| + 1 == k && AllChars(doc[p..k]) && CharsOf(doc[p..k]) == "@" + query))
      && SelectEdit(doc, k, query, alias) == doc[..p] + [Render(alias)] + doc[k..]
  {
    SelectEditShape(doc, k, query, alias);
  }

  /** With the corrected lookup, the query that input extraction found is exactly the
      text the selection deletes: when the text before a text-node caret yields query
      `q`, the corrected selection replaces the `@q` just before the caret by the token. */
  lemma TypedQueryIsReplaced(doc: seq<Inline>, k: nat, q: string, alias: Alias)
    requires k <= |doc| && AnchorIsText(doc, k)
    requires QueryFromCaret(Some(TextBeforeCaret(doc, k))) == Some(q)
    ensures SelectInsertPoint(doc, k, q) == k - |q| - 1
    ensures SelectEdit(doc, k, q, alias) == doc[..k - |q| - 1] + [Render(alias)] + doc[k..]
  {
    ExtractedIsQuery(TextBeforeCaret(doc, k), q);
    TypedQueryEdit(doc, k, q, alias);
  }

  lemma TypedQueryEdit(doc: seq<Inline>, k: nat, q: string, alias: Alias)
    requires k <= |doc| && AnchorIsText(doc, k)
    requires IsQueryOf(TextBeforeCaret(doc, k), q)
    ensures |q| + 1 <= k && SelectInsertPoint(doc, k, q) == k - |q| - 1
    ensures SelectEdit(doc, k, q, alias) == doc[..k - |q| - 1] + [Render(alias)] + doc[k..]
  {
    TypedSpanFound(doc, k, q);
    SelectEditAt(doc, k, q, alias, k - |q| - 1);
  }

  lemma SelectEditAt(doc: seq<Inline>, k: nat, query: string, alias: Alias, p: nat)
    requires k <= |doc| && p == SelectInsertPoint(doc, k, query)
    ensures SelectEdit(doc, k, query, alias) == doc[..p] + [Render(alias)] + doc[k..]
  {
    SelectEditShape(doc, k, query, alias);
  }

  lemma ExtractedIsQuery(before: string, q: string)
    requires QueryFromCaret(Some(before)) == Some(q)
    ensures IsQueryOf(before, q)
  {
  }

  /** The corrected lookup finds the typed `@q` right before the caret. */
  lemma TypedSpanFound(doc: seq<Inline>, k: nat, q: string)
    requires k <= |doc| && AnchorIsText(doc, k)
    requires IsQueryOf(TextBeforeCaret(doc, k), q)
    ensures SelectInsertPoint(doc, k, q) == k - |q| - 1
  {
    var rs := RunStart(doc, k);
    var re := RunEnd(doc, k);
    RunIsChars(doc, k);
    var text := CharsOf(doc[rs..re]);
    TextBeforeCaretIsPrefix(doc, k, rs, re, text);
    QueryEndsText(text, k - rs, q);
    SpanAtEnd(text, "@" + q, k - rs, k - rs - |q| - 1);
    SpanInRun(doc, k, q, rs, re, text, k - rs - |q| - 1);
  }

  /** Where the lookup in the anchor text node succeeds, the insertion point is the
      span's start in the document. */
  lemma SpanInRun(doc: seq<Inline>, k: nat, query: string, rs: nat, re: nat, text: string, s: nat)
    requires k <= |doc| && rs == RunStart(doc, k) && re == RunEnd(doc, k) && rs < re
    requires AllChars(doc[rs..re]) && text == CharsOf(doc[rs..re])
    requires SpanStart(text, "@" + query, k - rs) == s
    ensures SelectInsertPoint(doc, k, query) == rs + s
  {
  }

  /** A query of the text before the caret is spelled, after its `@`, right up to the caret. */
  lemma QueryEndsText(text: string, offset: nat, q: string)
    requires offset <= |text| && IsQueryOf(text[..offset], q)
    ensures |q| + 1 <= offset && OccursAt(text, "@" + q, offset - |q| - 1)
  {
    var n := |q| + 1;
    assert text[offset - n..offset] == text[..offset][offset - n..];
  }

  /** An occurrence that ends exactly at the caret is the one the lookup finds. */
  lemma SpanAtEnd(text: string, needle: string, offset: nat, j: nat)
    requires offset <= |text| && j + |needle| == offset && OccursAt(text, needle, j)
    ensures SpanStart(text, needle, offset) == j
  {
  }

  /** The text before the caret is a prefix of the anchor text node's text. */
  lemma TextBeforeCaretIsPrefix(doc: seq<Inline>, k: nat, rs: nat, re: nat, text: string)
    requires k <= |doc| && rs == RunStart(doc, k) && re == RunEnd(doc, k)
    requires AllChars(doc[rs..re]) && text == CharsOf(doc[rs..re])
    ensures TextBeforeCaret(doc, k) == text[..k - rs]
  {
    SubRun(doc, rs, re, rs, k);
  }

  /** Where `handleMentionSelect` starts deleting, in document indices:
      `fullText.lastIndexOf("@" + query, anchorOffset)` in the anchor text node, the
      last occurrence that starts at or before the caret, even one that runs past it;
      `None` when the anchor is not a text node or there is no such occurrence. */
  function QuerySpanStartAsWritten(doc: seq<Inline>, k: nat, query: string): (r: Option<nat>)
    requires k <= |doc|
    ensures r.Some? ==> AnchorIsText(doc, k) && RunStart(doc, k) <= r.value <= k && AllChars(doc[r.value..k])
    ensures r.Some? ==> OccursAt(AnchorText(doc, k), "@" + query, r.value - RunStart(doc, k))
    ensures r.Some? ==> forall j :: r.value - RunStart(doc, k) < j <= k - RunStart(doc, k) ==>
      !OccursAt(AnchorText(doc, k), "@" + query, j)
    ensures r.None? && AnchorIsText(doc, k) ==> forall j :: 0 <= j <= k - RunStart(doc, k) ==>
      !OccursAt(AnchorText(doc, k), "@" + query, j)
  {
    var rs := RunStart(doc, k);
    var re := RunEnd(doc, k);
    if rs == re then None
    else
      var s := SpanStartAsWritten(AnchorText(doc, k), "@" + query, k - rs);
      if s == -1 then None
      else
        AsWrittenSpanChars(doc, k, rs, re, s);
        Some(rs + s)
  }

  /** Everything from a start in the anchor text node up to the caret is characters. */
  lemma AsWrittenSpanChars(doc: seq<Inline>, k: nat, rs: nat, re: nat, s: nat)
    requires k <= |doc| && rs == RunStart(doc, k) && re == RunEnd(doc, k) && s <= k - rs
    ensures AllChars(doc[rs + s..k])
  {
    RunIsChars(doc, k);
    SubRun(doc, rs, re, rs + s, k);
  }

  /** Where `handleMentionSelect` inserts the token: the start of the deleted span, or
      the caret when nothing was found. */
  function SelectInsertPointAsWritten(doc: seq<Inline>, k: nat, query: string): (p: nat)
    requires k <= |doc|
    ensures p <= k
  {
    match QuerySpanStartAsWritten(doc, k, query)
    case Some(s) => s
    case None => k
  }

  /** The document after `handleMentionSelect` with the caret at `k`. */
  function SelectEditAsWritten(doc: seq<Inline>, k: nat, query: string, alias: Alias): seq<Inline>
    requires k <= |doc|
  {
    var p := SelectInsertPointAsWritten(doc, k, query);
    InsertAt(DeleteRange(doc, p, k), p, Render(alias))
  }

  /** `handleMentionSelect`'s edit, by whether the lookup found something. */
  lemma SelectEditAsWrittenCases(doc: seq<Inline>, k: nat, query: string, alias: Alias)
    requires k <= |doc|
    ensures var span := QuerySpanStartAsWritten(doc, k, query);
      && (span.Some? ==>
            && SelectInsertPointAsWritten(doc, k, query) == span.value
            && SelectEditAsWritten(doc, k, query, alias) == InsertAt(DeleteRange(doc, span.value, k), span.value, Render(alias)))
      && (span.None? ==>
            && SelectInsertPointAsWritten(doc, k, query) == k
            && SelectEditAsWritten(doc, k, query, alias) == InsertAt(doc, k, Render(alias)))
  {
    assert DeleteRange(doc, k, k) == doc;
  }

  /** `handleMentionSelect` deletes only characters of the anchor text node, from its
      insertion point to the caret, and inserts exactly one token there. */
  lemma SelectEditAsWrittenShape(doc: seq<Inline>, k: nat, query: string, alias: Alias)
    requires k <= |doc|
    ensures var p := SelectInsertPointAsWritten(doc, k, query);
      && RunStart(doc, k) <= p <= k
      && SelectEditAsWritten(doc, k, query, alias) == doc[..p] + [Render(alias)] + doc[k..]
      && AllChars(doc[p..k])
      && CountTokens(SelectEditAsWritten(doc, k, query, alias)) == CountTokens(doc) + 1
  {
    var p := SelectInsertPointAsWritten(doc, k, query);
    assert AllChars(doc[p..k]);
    ReplaceCharsShape(doc, p, k, Render(alias));
  }

  /** When the text before a text-node caret yields query `q`, `handleMentionSelect`
      replaces exactly the typed `@q` if and only if no other `@q` starts after the
      typed one's `@` and at or before the caret. */
  lemma AsWrittenReplacesTypedQueryIff(doc: seq<Inline>, k: nat, q: string)
    requires k <= |doc| && AnchorIsText(doc, k)
    requires IsQueryOf(TextBeforeCaret(doc, k), q)
    ensures RunStart(doc, k) + |q| + 1 <= k
    ensures SelectInsertPointAsWritten(doc, k, q) == k - |q| - 1 <==>
      forall j :: k - RunStart(doc, k) - |q| - 1 < j <= k - RunStart(doc, k) ==> !OccursAt(AnchorText(doc, k), "@" + q, j)
  {
    var rs := RunStart(doc, k);
    var re := RunEnd(doc, k);
    RunIsChars(doc, k);
    var text := AnchorText(doc, k);
    TextBeforeCaretIsPrefix(doc, k, rs, re, text);
    QueryEndsText(text, k - rs, q);
    var t0 := k - rs - |q| - 1;
    var span := QuerySpanStartAsWritten(doc, k, q);
    assert OccursAt(text, "@" + q, t0);
    assert span.Some? && span.value - rs >= t0;
  }

  /** The as-written lookup can pick an `@query` that starts inside the typed one: with
      text `@@` and the caret after the first `@`, the extracted query is empty, the
      lookup finds the second `@`, nothing is deleted and the typed `@` stays. */
  lemma AsWrittenLeavesTypedQuery(alias: Alias)
    ensures QueryFromCaret(Some(TextBeforeCaret([Ch('@'), Ch('@')], 1))) == Some("")
    ensures SelectEditAsWritten([Ch('@'), Ch('@')], 1, "", alias) == [Ch('@'), Render(alias), Ch('@')]
    ensures SelectEdit([Ch('@'), Ch('@')], 1, "", alias) == [Render(alias), Ch('@')]
  {
    var doc := [Ch('@'), Ch('@')];
    AtAtQuery(doc);
    AtAtAsWritten(doc, alias);
    AtAtCorrected(doc, alias);
  }

  lemma AtAtQuery(doc: seq<Inline>)
    requires doc == [Ch('@'), Ch('@')]
    ensures QueryFromCaret(Some(TextBeforeCaret(doc, 1))) == Some("")
  {
    AtAtRun(doc);
    assert TextBeforeCaret(doc, 1) == "@";
    BareAtGivesEmptyQuery("@");
  }

  lemma AtAtAsWritten(doc: seq<Inline>, alias: Alias)
    requires doc == [Ch('@'), Ch('@')]
    ensures SelectEditAsWritten(doc, 1, "", alias) == [Ch('@'), Render(alias), Ch('@')]
  {
    AtAtRun(doc);
    AtAtLookup();
    assert "@" + "" == "@";
    assert AnchorText(doc, 1) == "@@";
    assert QuerySpanStartAsWritten(doc, 1, "") == Some(1);
    AtAtSplice(doc, Render(alias));
  }

  /** The as-written lookup of `@` in `@@` from offset 1 finds the second `@`. */
  lemma AtAtLookup()
    ensures SpanStartAsWritten("@@", "@", 1) == 1
  {
    assert OccursAt("@@", "@", 1);
  }

  /** Inserting a node after the first `@` of `@@`, with nothing deleted. */
  lemma AtAtSplice(doc: seq<Inline>, t: Inline)
    requires doc == [Ch('@'), Ch('@')]
    ensures InsertAt(DeleteRange(doc, 1, 1), 1, t) == [Ch('@'), t, Ch('@')]
  {
    assert DeleteRange(doc, 1, 1) == doc;
    assert InsertAt(doc, 1, t) == [Ch('@')] + [t] + [Ch('@')];
  }

  lemma AtAtCorrected(doc: seq<Inline>, alias: Alias)
    requires doc == [Ch('@'), Ch('@')]
    ensures SelectEdit(doc, 1, "", alias) == [Render(alias), Ch('@')]
  {
    AtAtRun(doc);
    AtAtQuery(doc);
    TypedQueryIsReplaced(doc, 1, "", alias);
    assert doc[..0] + [Render(alias)] + doc[1..] == [Render(alias)] + [Ch('@')];
  }

  /** A stale query: the caret moved to the end of `@ab cd` without an input event, so
      the query is still `ab`. The as-written lookup finds the `@ab` at 0 and the
      selection deletes the whole text, ` cd` included; the corrected selection deletes
      nothing and inserts the token at the caret. */
  lemma StaleQueryEdits(alias: Alias)
    ensures SelectEditAsWritten([Ch('@'), Ch('a'), Ch('b'), Ch(' '), Ch('c'), Ch('d')], 6, "ab", alias)
      == [Render(alias)]
    ensures SelectEdit([Ch('@'), Ch('a'), Ch('b'), Ch(' '), Ch('c'), Ch('d')], 6, "ab", alias)
      == [Ch('@'), Ch('a'), Ch('b'), Ch(' '), Ch('c'), Ch('d'), Render(alias)]
  {
    var doc := [Ch('@'), Ch('a'), Ch('b'), Ch(' '), Ch('c'), Ch('d')];
    StaleRun(doc);
    StaleAsWritten(doc, alias);
    StaleCorrected(doc, alias);
  }

  /** The text node `@ab cd` with the caret at its end. */
  lemma StaleRun(doc: seq<Inline>)
    requires doc == [Ch('@'), Ch('a'), Ch('b'), Ch(' '), Ch('c'), Ch('d')]
    ensures RunStart(doc, 6) == 0 && RunEnd(doc, 6) == 6 && AnchorIsText(doc, 6)
    ensures AnchorText(doc, 6) == "@ab cd"
  {
    assert doc[0..6] == doc;
  }

  lemma StaleAsWritten(doc: seq<Inline>, alias: Alias)
    requires doc == [Ch('@'), Ch('a'), Ch('b'), Ch(' '), Ch('c'), Ch('d')]
    requires RunStart(doc, 6) == 0 && RunEnd(doc, 6) == 6 && AnchorText(doc, 6) == "@ab cd"
    ensures SelectEditAsWritten(doc, 6, "ab", alias) == [Render(alias)]
  {
    var text := "@ab cd";
    assert "@" + "ab" == "@ab";
    assert OccursAt(text, "@ab", 0);
    assert QuerySpanStartAsWritten(doc, 6, "ab") == Some(0);
    assert DeleteRange(doc, 0, 6) == [];
  }

  lemma StaleCorrected(doc: seq<Inline>, alias: Alias)
    requires doc == [Ch('@'), Ch('a'), Ch('b'), Ch(' '), Ch('c'), Ch('d')]
    requires RunStart(doc, 6) == 0 && RunEnd(doc, 6) == 6 && AnchorText(doc, 6) == "@ab cd"
    ensures SelectEdit(doc, 6, "ab", alias) == doc + [Render(alias)]
  {
    var text := "@ab cd";
    assert "@" + "ab" == "@ab";
    assert text[3] == ' ';
    assert SpanStart(text, "@ab", 6) == -1;
    assert QuerySpanStart(doc, 6, "ab") == None;
    assert DeleteRange(doc, 6, 6) == doc;
  }

  /** The runs around the caret in the text node `@@`. */
  lemma AtAtRun(doc: seq<Inline>)
    requires doc == [Ch('@'), Ch('@')]
    ensures RunStart(doc, 1) == 0 && RunEnd(doc, 1) == 2 && AnchorIsText(doc, 1)
    ensures CharsOf(doc[0..1]) == "@" && CharsOf(doc[0..2]) == "@@"
  {
    assert RunStart(doc, 0) == 0;
    assert RunEnd(doc, 2) == 2;
  }

  /** The editing part of `handleMentionSelect` with the caret at `k`: the `@query`
      that `lastIndexOf` finds in the anchor text node is deleted up to the caret, and
      the token is inserted where the deletion started, or at the caret. */
  method ReplaceTypedQuery(editor: Surface, k: nat, query: string, alias: Alias)
    requires editor.Valid() && editor.caret == Some(k)
    modifies editor
    ensures editor.Valid()
    ensures editor.doc == SelectEditAsWritten(old(editor.doc), k, query, alias)
    ensures editor.caret == Some(SelectInsertPointAsWritten(old(editor.doc), k, query) + 1)
    ensures editor.inputEvents == old(editor.inputEvents)
  {
    SelectEditAsWrittenCases(editor.doc, k, query, alias);
    var span := QuerySpanStartAsWritten(editor.doc, k, query);
    var at := k;
    if span.Some? {
      editor.DeleteContents(span.value, k);
      at := span.value;
    }
    editor.InsertNode(at, Render(alias));
  }

  // ---------------------------------------------------------------------
  // Event sequences

  /** The events the controller listens to. `hasRange` says whether the editor and a
      selection range are there when Enter completes a selection. */
  datatype Event =
    | Input(preceding: Option<string>, caret: Position)
    | KeyDown(key: string, hasRange: bool)
    | KeyUp(key: string)

  function Step(st: MentionState, catalog: Option<seq<Alias>>, ev: Event): MentionState {
    match ev
    case Input(preceding, caret) => OnInput(st, QueryFromCaret(preceding), caret)
    case KeyDown(key, hasRange) =>
      var filtered := FilterAliases(catalog, st.query);
      if EnterChoice(st, filtered, key).Some? && hasRange then Closed(st.disabledUntilNextSpace)
      else OnKeyDown(st, filtered, key)
    case KeyUp(key) => OnKeyUp(st, key)
  }

  function Run(st: MentionState, catalog: Option<seq<Alias>>, evs: seq<Event>): MentionState
    decreases |evs|
  {
    if evs == [] then st else Run(Step(st, catalog, evs[0]), catalog, evs[1..])
  }

  lemma StepKeepsWellformed(st: MentionState, catalog: Option<seq<Alias>>, ev: Event)
    requires Wellformed(st, catalog)
    ensures Wellformed(Step(st, catalog, ev), catalog)
  {
    match ev
    case Input(preceding, caret) =>
    case KeyDown(key, hasRange) =>
      var filtered := FilterAliases(catalog, st.query);
      if st.showPanel && |filtered| > 0 && (key == "ArrowDown" || key == "ArrowUp") {
        assert st.highlightedIndex + 1 >= 0 && st.highlightedIndex - 1 + |filtered| >= 0;
      }
    case KeyUp(key) =>
  }

  /** Every sequence of events keeps the invariant. */
  lemma {:induction false} RunKeepsWellformed(st: MentionState, catalog: Option<seq<Alias>>, evs: seq<Event>)
    requires Wellformed(st, catalog)
    ensures Wellformed(Run(st, catalog, evs), catalog)
    decreases |evs|
  {
    if evs != [] {
      StepKeepsWellformed(st, catalog, evs[0]);
      RunKeepsWellformed(Step(st, catalog, evs[0]), catalog, evs[1..]);
    }
  }

  /** During the cooldown the panel stays closed and nothing changes, whatever input,
      keydown or keyup events arrive, until a space, Enter or Tab is released. */
  lemma {:induction false} CooldownHolds(st: MentionState, catalog: Option<seq<Alias>>, evs: seq<Event>)
    requires st.disabledUntilNextSpace && !st.showPanel
    requires forall i :: 0 <= i < |evs| ==> !(evs[i].KeyUp? && IsBreakKey(evs[i].key))
    ensures Run(st, catalog, evs) == st
    decreases |evs|
  {
    if evs != [] {
      assert Step(st, catalog, evs[0]) == st;
      CooldownHolds(st, catalog, evs[1..]);
    }
  }

  /** Escape on an open panel with entries closes it and starts the cooldown; an input
      right after does not reopen it, even if the caret still follows an `@query`; after
      a released space, the same input reopens it. */
  lemma EscapeThenInput(st: MentionState, catalog: Option<seq<Alias>>, text: string, caret: Position)
    requires st.showPanel && |FilterAliases(catalog, st.query)| > 0
    requires QueryFromCaret(Some(text)).Some?
    ensures var escaped := Step(st, catalog, KeyDown("Escape", true));
      && !escaped.showPanel && escaped.disabledUntilNextSpace && escaped.position == st.position
      && Step(escaped, catalog, Input(Some(text), caret)) == escaped
      && Step(Step(escaped, catalog, KeyUp(" ")), catalog, Input(Some(text), caret)).showPanel
  {
  }

  /** `k` ArrowDown keys in a row. */
  function ArrowDowns(k: nat): (r: seq<Event>)
    ensures |r| == k && forall i :: 0 <= i < k ==> r[i] == KeyDown("ArrowDown", true)
  {
    if k == 0 then [] else [KeyDown("ArrowDown", true)] + ArrowDowns(k - 1)
  }

  /** `k` ArrowDowns advance the highlight by `k` modulo the list length and change
      nothing else; in particular `n` of them come back to the start. */
  lemma {:induction false} ArrowDownsAdvance(st: MentionState, catalog: Option<seq<Alias>>, k: nat)
    requires st.showPanel && 0 <= st.highlightedIndex < |FilterAliases(catalog, st.query)|
    ensures var n := |FilterAliases(catalog, st.query)|;
      Run(st, catalog, ArrowDowns(k)) == st.(highlightedIndex := (st.highlightedIndex + k) % n)
    decreases k
  {
    var n := |FilterAliases(catalog, st.query)|;
    var i := st.highlightedIndex;
    if k == 0 {
      ModUnique(i, n, 0, i);
    } else {
      var evs := ArrowDowns(k);
      var next := Step(st, catalog, evs[0]);
      assert next == st.(highlightedIndex := (i + 1) % n) by {
        if i + 1 < n { ModUnique(i + 1, n, 0, i + 1); } else { ModUnique(i + 1, n, 1, 0); }
      }
      assert Run(st, catalog, evs) == Run(next, catalog, evs[1..]);
      assert evs[1..] == ArrowDowns(k - 1);
      ArrowDownsAdvance(next, catalog, k - 1);
      ModAddOne(i, k - 1, n);
    }
  }

  lemma ModUnique(x: int, n: int, q: int, r: int)
    requires n > 0 && 0 <= r < n && x == n * q + r
    ensures x % n == r
  {
    var q', r' := x / n, x % n;
    assert n * q' + r' == n * q + r;
    if q' > q {
      assert n * (q' - q) >= n by { MulAtLeast(n, q' - q); }
    } else if q' < q {
      assert n * (q - q') >= n by { MulAtLeast(n, q - q'); }
    }
  }

  lemma MulAtLeast(n: int, d: int)
    requires n > 0 && d >= 1
    ensures n * d >= n
  {
  }

  lemma ModAddOne(i: int, k: nat, n: int)
    requires 0 <= i < n
    ensures ((i + 1) % n + k) % n == (i + k + 1) % n
  {
    var x := i + k + 1;
    var q, r := x / n, x % n;
    if i + 1 == n {
      assert (i + 1) % n == 0 by { ModUnique(i + 1, n, 1, 0); }
      ModUnique(k, n, q - 1, r);
    } else {
      assert (i + 1) % n == i + 1 by { ModUnique(i + 1, n, 0, i + 1); }
    }
  }

  // ---------------------------------------------------------------------
  // The controller

  class MentionController {
    var showPanel: bool
    var query: string
    var position: Position
    var highlightedIndex: int
    var disabledUntilNextSpace: bool
    /** The `alias` prop. */
    const catalog: Option<seq<Alias>>
    /** The editable area; `null` when the editor instance or its area is missing. */
    const editor: Surface?

    function State(): MentionState
      reads this
    {
      MentionState(showPanel, query, position, highlightedIndex, disabledUntilNextSpace)
    }

    /** `filteredAliases` for the current query. */
    function Filtered(): seq<Alias>
      reads this
    {
      FilterAliases(catalog, query)
    }

    ghost predicate Valid()
      reads this, editor
    {
      Wellformed(State(), catalog) && (editor != null ==> editor.Valid())
    }

    constructor (catalog: Option<seq<Alias>>, editor: Surface?)
      requires editor != null ==> editor.Valid()
      ensures Valid() && State() == Initial
      ensures this.catalog == catalog && this.editor == editor
    {
      this.catalog := catalog;
      this.editor := editor;
      showPanel, query, position, highlightedIndex, disabledUntilNextSpace := false, "", Origin, -1, false;
    }

    /** `handleInput`: `preceding` is the text from the start of the anchor node to the
        caret (`None` without a selection range), `caret` the caret's page position. */
    method HandleInput(preceding: Option<string>, caret: Position)
      requires Valid()
      modifies this
      ensures Valid()
      ensures State() == OnInput(old(State()), QueryFromCaret(preceding), caret)
    {
      if disabledUntilNextSpace {
        return;
      }
      var queryResult := QueryFromCaret(preceding);
      if !showPanel && queryResult.Some? {
        position := caret;
      }
      query := if queryResult.Some? then queryResult.value else "";
      showPanel := queryResult.Some?;
      if queryResult.Some? {
        highlightedIndex := 0;
      } else {
        highlightedIndex := -1;
        position := Origin;
      }
    }

    /** `handleMentionSelect(alias)`. */
    method HandleMentionSelect(alias: Alias)
      requires Valid()
      modifies this, editor
      ensures Valid()
      ensures editor == null || old(editor.caret).None? ==>
        State() == old(State()) && (editor != null ==> editor.doc == old(editor.doc) && editor.caret == old(editor.caret))
      ensures editor != null && old(editor.caret).Some? ==>
        && State() == Closed(old(disabledUntilNextSpace))
        && editor.doc == SelectEditAsWritten(old(editor.doc), old(editor.caret).value, old(query), alias)
        && editor.caret == Some(SelectInsertPointAsWritten(old(editor.doc), old(editor.caret).value, old(query)) + 1)
      ensures editor != null ==> editor.inputEvents == old(editor.inputEvents)
    {
      if editor == null || editor.caret.None? {
        return;
      }
      ReplaceTypedQuery(editor, editor.caret.value, query, alias);
      CloseAfterSelect();
    }

    /** The state reset at the end of `handleMentionSelect`. */
    method CloseAfterSelect()
      requires editor != null ==> editor.Valid()
      modifies this
      ensures Valid() && State() == Closed(old(disabledUntilNextSpace))
    {
      showPanel := false;
      query := "";
      highlightedIndex := -1;
      position := Origin;
    }

    /** `handleKeyDown`; `suppressed` says whether it called `preventDefault`. */
    method HandleKeyDown(key: string) returns (suppressed: bool)
      requires Valid()
      modifies this, editor
      ensures Valid()
      ensures suppressed == Suppresses(old(State()), FilterAliases(catalog, old(query)), key)
      ensures EnterChoice(old(State()), FilterAliases(catalog, old(query)), key).None? ==>
        State() == OnKeyDown(old(State()), FilterAliases(catalog, old(query)), key)
        && (editor != null ==> editor.doc == old(editor.doc) && editor.caret == old(editor.caret))
      ensures EnterChoice(old(State()), FilterAliases(catalog, old(query)), key).Some? ==>
        var alias := EnterChoice(old(State()), FilterAliases(catalog, old(query)), key).value;
        && (editor == null || old(editor.caret).None? ==>
              State() == old(State()) && (editor != null ==> editor.doc == old(editor.doc) && editor.caret == old(editor.caret)))
        && (editor != null && old(editor.caret).Some? ==>
              && State() == Closed(old(disabledUntilNextSpace))
              && editor.doc == SelectEditAsWritten(old(editor.doc), old(editor.caret).value, old(query), alias)
              && editor.caret == Some(SelectInsertPointAsWritten(old(editor.doc), old(editor.caret).value, old(query)) + 1))
      ensures editor != null ==> editor.inputEvents == old(editor.inputEvents)
    {
      var filtered := Filtered();
      if !showPanel || |filtered| == 0 {
        return false;
      }
      suppressed := false;
      if key == "ArrowDown" {
        suppressed := true;
        highlightedIndex := JsRem(highlightedIndex + 1, |filtered|);
      } else if key == "ArrowUp" {
        suppressed := true;
        highlightedIndex := JsRem(highlightedIndex - 1 + |filtered|, |filtered|);
      } else if key == "Enter" {
        suppressed := true;
        if highlightedIndex != -1 && 0 <= highlightedIndex < |filtered| {
          HandleMentionSelect(filtered[highlightedIndex]);
        }
      } else if key == "Escape" {
        suppressed := true;
        showPanel := false;
        query := "";
        highlightedIndex := -1;
        disabledUntilNextSpace := true;
      }
    }

    /** The keyup listener. */
    method HandleKeyUp(key: string)
      requires Valid()
      modifies this
      ensures Valid()
      ensures State() == OnKeyUp(old(State()), key)
    {
      if disabledUntilNextSpace && IsBreakKey(key) {
        disabledUntilNextSpace := false;
      }
    }
  }
}
