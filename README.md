# Alias editor core, modelled in Dafny

The editor adds *alias tokens* to a rich-text surface. An alias token is an atomic, non-editable inline widget. It stands for a named variable (a department, a title, a name) and is not literal text.

There are two ways to create a token:
- **Drag and drop.** An alias is dragged from the palette. Every `dragover` stores the caret under the mouse as the *saved range*. The `drop` inserts the token there.
- **`@mention`.** Typing `@` and part of a label opens a filtered suggestion list. Arrow keys move the highlight through it. Enter replaces the typed `@query` with the chosen token. Escape closes the list and starts a *cooldown*: the list stays closed until a space, Enter or Tab key is released.

A token is removed by clicking its delete button.

Before preview, `replaceAliasesToRealValue` resolves the tokens of a finished document into real values. There are two versions:
- a DOM version, which replaces each token element by a text node;
- a string version, which uses a global regular-expression replace.

## How the model is built

- **Document** (`document.dfy`). A document is a flat `seq<Inline>`: a character of a text node, or one whole token. A caret is an index between units. A text node is a maximal run of characters, so the anchor of a caret is a text node exactly when that run is non-empty. `RenderAlias` is the element tree that `renderAlias` builds. `Render` reads that tree back as a token. `Surface` is a class holding the editable area and the window selection; its methods are the DOM operations the handlers call: `deleteContents`, `insertNode`, `remove`, `addRange` and `dispatchEvent`.
- **Caret query** (`caret_query.dfy`). The input is the text from the start of the anchor node to the caret. The extraction is a pure function of that text, compared against an independent definition (`IsQueryOf`).
- **Mention controller** (`mention.dfy`). Each handler is a function from the old five-field state to the new one. The class `MentionController` holds the fields, and its methods are proved equal to those functions. Lemmas over whole event sequences (`Run`) state the invariant, the cooldown and the arrow cycle.
- **Drag and drop** (`dnd.dfy`). The class `AliasDragDrop` holds the selected alias and the saved range, and its methods change them in place.
- **DOM substitution** (`dom_substitution.dfy`). A loop method replaces tokens in place and is proved equal to the function `Substituted`.
- **String substitution** (`markup_substitution.dfy`). A left-to-right scanner that reproduces the backtracking order of the regular expression.
- **Rendered token** (`token_markup.dfy`). The markup `renderAlias` gives for one alias, and the results of the global replace, as written and corrected, on that markup.

`renderAlias`, `removeAlias` and `updateCaretToMouse` appear twice with the same text, in `helper.tsx` and in `useAliasDnD.tsx`. Each is modelled once, and the table cites both copies.

## Model

| member | source | states |
|---|---|---|
| Chars.IsAliasChar | src/components/Editor/helper.tsx:93 | the class `[\p{L}\w-]`: a letter, an ASCII digit, `_` or `-`; no contract of its own, used by the query extraction |
| Chars.AtIsNotAliasChar | src/components/Editor/helper.tsx:93 | `@` is not in the class `[\p{L}\w-]`, so a query never contains one |
| Chars.Lower | src/components/Editor/useMention.tsx:20 | lower-casing keeps the length and lowers each character separately |
| Chars.IsJsSpace | src/components/Editor/helper.ts:2 | the characters `trim` removes: white space and line terminators; no contract of its own |
| Chars.IsBlank | src/components/Editor/helper.ts:2 | `!html \|\| html.trim() === ""`: the string is empty or white space only; no contract of its own, used by both substitutions |
| CaretQuery.QueryFromCaret | src/components/Editor/helper.tsx:85-99 | no selection or no range gives null; any result `q` is 0 to 30 characters of `[\p{L}\w-]`, and the preceding text ends with `"@" + q` |
| CaretQuery.QueryFromCaretComplete | src/components/Editor/helper.tsx:93-96 | the converse: whenever the preceding text ends with `"@" + q` for such a `q`, exactly that `q` is returned |
| CaretQuery.QueryAnchoredAtLastAt | src/components/Editor/helper.tsx:93-98 | the match always starts at the last `@`: the result is the text after it when that text qualifies, and null otherwise |
| CaretQuery.NoQueryCases | src/components/Editor/helper.tsx:93-98 | null when there is no `@`, when a character outside the class follows the last `@`, or when more than 30 characters follow it |
| CaretQuery.BareAtGivesEmptyQuery | src/components/Editor/helper.tsx:93-96 | text ending in `@` yields the empty query |
| CaretQuery.FirstMatch | src/components/Editor/helper.tsx:93 | the leftmost start where `@` is followed by at most 30 class characters up to the end |
| CaretQuery.LastAt | src/components/Editor/helper.tsx:93 | the index of the last `@`, with no `@` after it |
| Document.AttrOf | src/components/Editor/helper.tsx:13 | `getAttribute` finds a value exactly when an attribute of that name exists, and the value is that of the first attribute of that name |
| Document.RenderAlias | src/components/Editor/helper.tsx:26-42 | the element tree `renderAlias` returns; no contract of its own, its properties are `RenderedAttrs` and `RenderAliasShape` |
| Document.RenderedAttrs | src/components/Editor/helper.tsx:26-42 | the rendered root carries `class="custom-alias"`, `contenteditable="false"`, the value and the id, and reads back as the alias' token |
| Document.RenderAliasShape | src/components/Editor/helper.tsx:26-42 | one span element with those attributes; its only delete control is the button; from every node inside it, `closest("[data-alias-value]")` is the root; `useAliasDnD.tsx` lines 109-125 are an identical copy |
| Document.Render | src/components/Editor/useMention.tsx:50-56 | parsing the rendered markup always gives a first node, and that node is the token with the alias' value, id and label, so `if (!node) return` is never taken |
| Document.Closest | src/components/Editor/helper.tsx:48 | `closest("[data-alias-value]")` returns the longest prefix of the target's path whose node carries `data-alias-value`: no longer prefix carries it, and `None` means that no prefix does |
| Document.RunStart | src/components/Editor/useMention.tsx:33-37 | the start of the anchor text node: everything from it to the caret is characters, and a token or the document start comes just before it |
| Document.RunEnd | src/components/Editor/useMention.tsx:37 | the end of the anchor text node, by the same rule |
| Document.RunIsChars | src/components/Editor/useMention.tsx:37 | the whole anchor text node consists of characters |
| Document.CharsOf | src/components/Editor/useMention.tsx:37 | `textContent` of a run of characters, one character per unit |
| Document.InsertAtShape | src/components/Editor/useAliasDnD.tsx:83 | `insertNode` adds one unit at the caret, keeps everything before and after it, and adds one token |
| Document.InsertAt | src/components/Editor/useMention.tsx:58 | `range.insertNode(node)` at the caret; its properties are `InsertAtShape` |
| Document.DeleteRange | src/components/Editor/useMention.tsx:44 | `range.deleteContents()` on a range; no contract of its own, its properties are `SelectEditShape` and `SelectEditAsWrittenShape` |
| Document.RemoveAtShape | src/components/Editor/helper.tsx:53 | `remove` drops one unit, keeps the rest in order, and removes one token |
| Document.RemoveAt | src/components/Editor/helper.tsx:53 | `element.remove()` on one unit; its properties are `RemoveAtShape` |
| Document.CountTokensAppend | src/components/Editor/useAliasDnD.tsx:83 | the token count of a concatenation is the sum of the counts |
| Document.CharsHaveNoTokens | src/components/Editor/useMention.tsx:44 | deleting a run of characters deletes no token |
| Document.Surface.Select | src/components/Editor/useAliasDnD.tsx:72-73 | `removeAllRanges` then `addRange`: the caret moves and the document stays the same |
| Document.Surface.DeleteContents | src/components/Editor/useMention.tsx:42-46 | deletes the range and collapses the selection at its start |
| Document.Surface.InsertNode | src/components/Editor/useMention.tsx:58-64 | inserts the node and collapses the selection right after it |
| Document.Surface.Remove | src/components/Editor/helper.tsx:53 | removes one unit; a live caret after it moves back by one |
| Document.Surface.DispatchInput | src/components/Editor/helper.tsx:55-56 | one more input event; document and selection unchanged |
| Mention.Filter | src/components/Editor/useMention.tsx:19-22 | an entry is listed exactly when it is in the catalog and its lower-cased label contains the lower-cased query |
| Mention.FilterAliases | src/components/Editor/useMention.tsx:19-22 | the same, and an absent catalog gives `[]` |
| Mention.FilterAppend | src/components/Editor/useMention.tsx:20 | catalog order is kept: filtering a concatenation filters each part in turn |
| Mention.FilterCounts | src/components/Editor/useMention.tsx:20 | a matching entry is listed as often as the catalog holds it; a non-matching one never |
| Mention.EmptyQueryKeepsAll | src/components/Editor/useMention.tsx:20 | the empty query (a bare `@`) lists the whole catalog |
| Mention.QueryCaseIrrelevant | src/components/Editor/useMention.tsx:20 | only the lower-cased query matters |
| Mention.KoreanLabelExample | src/components/Editor/useMention.tsx:20 | `팀` lists the label `팀장`; `xyz` does not |
| Mention.OnInput | src/components/Editor/useMention.tsx:74-93 | nothing changes during the cooldown; a found query shows the panel with that query and index 0, and sets the position only if the panel was hidden; no query resets to hidden, `""`, -1 and the origin |
| Mention.JsRem | src/components/Editor/useMention.tsx:104 | JavaScript `%` equals Euclidean `%` for a non-negative dividend, and lies in (-n, 0] otherwise |
| Mention.EnterChoice | src/components/Editor/useMention.tsx:114-120 | Enter selects exactly when the panel is open, the list is non-empty and the index is an entry of the list; the selected alias is that entry |
| Mention.Suppresses | src/components/Editor/useMention.tsx:97-125 | the cases where the keydown handler acts and calls `preventDefault`: the panel is shown, the list is non-empty and the key is an arrow, Enter or Escape; no contract of its own, used by `HandleKeyDown` |
| Mention.OnKeyDown | src/components/Editor/useMention.tsx:95-136 | no change when the panel is hidden or the list is empty; Escape hides the panel, clears the query and index, and starts the cooldown, keeping the position; the arrow keys change only the index; other keys change nothing |
| Mention.ArrowNavigation | src/components/Editor/useMention.tsx:101-112 | from 0 <= i < n, ArrowDown gives (i+1) mod n and ArrowUp gives (i-1+n) mod n; both stay in [0, n); n-1 wraps to 0 and 0 wraps to n-1 |
| Mention.ArrowUpUndoesArrowDown | src/components/Editor/useMention.tsx:101-112 | ArrowUp right after ArrowDown restores the state |
| Mention.ArrowDownsAdvance | src/components/Editor/useMention.tsx:101-105 | k ArrowDowns move the index by k modulo the list length and change nothing else, so n of them return to the start |
| Mention.Step | src/components/Editor/useMention.tsx:74-159 | one event applied to the state: input, keydown (an Enter that selects closes the panel) or keyup; no contract of its own, its properties are the lemmas below |
| Mention.Run | src/components/Editor/useMention.tsx:74-159 | a sequence of events applied in order; no contract of its own |
| Mention.IsBreakKey | src/components/Editor/useMention.tsx:156 | the keys `[" ", "Enter", "Tab"]` that end the cooldown; no contract of its own |
| Mention.OnKeyUp | src/components/Editor/useMention.tsx:154-159 | the cooldown ends exactly on a space, Enter or Tab key; nothing else changes |
| Mention.StepKeepsWellformed | src/components/Editor/useMention.tsx:74-136 | every event keeps the invariant: the panel is shown iff an index is set, a hidden panel has no query, and an open panel highlights an entry of a non-empty list |
| Mention.RunKeepsWellformed | src/components/Editor/useMention.tsx:74-159 | so does every sequence of events |
| Mention.CooldownHolds | src/components/Editor/useMention.tsx:75-158 | during the cooldown no input, keydown or keyup changes the state until a space, Enter or Tab is released |
| Mention.EscapeThenInput | src/components/Editor/useMention.tsx:75-158 | after Escape, an input that would open a query does not reopen the panel; after a space is released, the same input does |
| Mention.LastIndexOf | src/components/Editor/useMention.tsx:39 | `lastIndexOf(needle, from)` returns the last occurrence starting at or before `from`, or -1 when there is none |
| Mention.SpanStartAsWritten | src/components/Editor/useMention.tsx:39 | the lookup as written, `lastIndexOf("@" + query, anchorOffset)`: the last occurrence that starts at or before the caret, or -1 when there is none |
| Mention.QuerySpanStartAsWritten | src/components/Editor/useMention.tsx:33-43 | when the lookup succeeds, the anchor is a text node, the start lies in that node at or before the caret, everything from it to the caret is characters, `@query` starts there and no later occurrence starts at or before the caret; when it fails on a text node, no occurrence starts at or before the caret |
| Mention.SelectInsertPointAsWritten | src/components/Editor/useMention.tsx:41-58 | the token goes at the start of the deleted range, never after the caret |
| Mention.SelectEditAsWritten | src/components/Editor/useMention.tsx:41-58 | the document `handleMentionSelect` leaves: the range from the lookup's result to the caret is deleted and the token inserted there; no contract of its own, its properties are the next two rows |
| Mention.SelectEditAsWrittenCases | src/components/Editor/useMention.tsx:39-58 | a found span is deleted and the token goes at its start; when nothing is found, the token is inserted at the caret and nothing is deleted |
| Mention.SelectEditAsWrittenShape | src/components/Editor/useMention.tsx:36-58 | the selection deletes only characters of the anchor text node, from the insertion point to the caret, and inserts exactly one token there |
| Mention.AsWrittenReplacesTypedQueryIff | src/components/Editor/useMention.tsx:36-58 | when the text before the caret yielded query `q`, the typed `@q` is replaced exactly when no other `@q` starts after its `@` and at or before the caret |
| Mention.AsWrittenLeavesTypedQuery | src/components/Editor/useMention.tsx:39 | the as-written half of Finding 1: on text `@@` with the caret after the first `@`, the query is `""`, nothing is deleted and the typed `@` stays; the corrected selection replaces it |
| Mention.StaleQueryEdits | src/components/Editor/useMention.tsx:39 | a stale query (Finding 1): on `@ab cd` with the caret at the end and the query still `ab`, the selection as written deletes the whole text and leaves only the token; the corrected one deletes nothing and appends the token |
| Mention.SpanStart | src/components/Editor/useMention.tsx:39 | the corrected lookup (Finding 1): the `@query` that ends exactly at the caret, found exactly when the text before the caret ends with it, or -1 |
| Mention.QuerySpanStart | src/components/Editor/useMention.tsx:39 | the corrected lookup in document indices (Finding 1): a span found lies in the anchor text node, ends exactly at the caret, is all characters and spells `@query`; on a text node, `None` means the text before the caret does not end with `@query` |
| Mention.SelectInsertPoint | src/components/Editor/useMention.tsx:39 | the corrected insertion point (Finding 1): the start of the deleted span, or the caret when nothing is deleted |
| Mention.SelectEdit | src/components/Editor/useMention.tsx:39 | the corrected selection (Finding 1); no contract of its own, its properties are the next two rows |
| Mention.SelectEditShape | src/components/Editor/useMention.tsx:39 | the corrected selection (Finding 1) deletes only characters, from the insertion point to the caret, and inserts exactly one token there |
| Mention.SelectEditDeletesOnlyQuery | src/components/Editor/useMention.tsx:39 | for every document, caret and query, the corrected selection deletes either nothing or exactly the `@query` ending at the caret (Finding 1) |
| Mention.TypedQueryIsReplaced | src/components/Editor/useMention.tsx:39 | the corrected half of Finding 1: when the text before the caret yielded query `q`, the corrected selection replaces exactly the `@q` before the caret with the token |
| Mention.MentionController.HandleInput | src/components/Editor/useMention.tsx:74-93 | the new state is `OnInput` of the old state, the extracted query and the caret position; the invariant is kept |
| Mention.ReplaceTypedQuery | src/components/Editor/useMention.tsx:36-64 | the editor's document becomes `SelectEditAsWritten` of the old one (the `lastIndexOf` lookup as written), the caret sits right after the inserted token, and no input event is raised |
| Mention.MentionController.HandleMentionSelect | src/components/Editor/useMention.tsx:24-72 | nothing changes without an editor or a range; otherwise the document becomes `SelectEditAsWritten` (the `lastIndexOf` lookup as written), the caret sits right after the token, the state resets to hidden / `""` / -1 / origin, and the cooldown flag is kept |
| Mention.MentionController.CloseAfterSelect | src/components/Editor/useMention.tsx:66-69 | the panel is hidden, the query cleared, the index unset and the position reset, keeping the cooldown flag |
| Mention.MentionController.HandleKeyDown | src/components/Editor/useMention.tsx:95-136 | the default action is prevented exactly in the acting cases; an Enter that selects has the effect of `HandleMentionSelect`; every other key has the effect of `OnKeyDown` |
| Mention.MentionController.HandleKeyUp | src/components/Editor/useMention.tsx:154-159 | the new state is `OnKeyUp` of the old one |
| AliasDnD.HitsExactlyTheButton | src/components/Editor/helper.tsx:44-51 | the only click targets in the document that remove something are token delete buttons, and each removes its own token; `useAliasDnD.tsx` lines 94-101 are an identical copy |
| AliasDnD.DropThenDeleteRestores | src/components/Editor/useAliasDnD.tsx:83-103 | a dropped token's delete button removes it again and gives the document back |
| AliasDnD.AliasDragDrop.DragStart | src/components/Editor/Alias.tsx:37 | drag start selects the alias |
| AliasDnD.AliasDragDrop.DragEnd | src/components/Editor/Alias.tsx:38 | drag end clears it |
| AliasDnD.AliasDragDrop.UpdateCaretToMouse | src/components/Editor/useAliasDnD.tsx:49-60 | no hit leaves the selection and the saved range as they were; a hit becomes the saved range, and also the selection when there is one; the document is unchanged; `helper.tsx` lines 59-70 are an identical copy |
| AliasDnD.AliasDragDrop.Drop | src/components/Editor/useAliasDnD.tsx:62-92 | no change without a selected alias, a saved range or a selection; otherwise exactly one token is inserted at the saved range, the caret is right after it, and the saved range is cleared; the outcome does not depend on the drop event itself |
| AliasDnD.AliasDragDrop.RemoveAlias | src/components/Editor/useAliasDnD.tsx:94-107 | nothing happens unless the target is a delete control inside a token and there is an editor; then exactly that token is removed, the caret and saved range follow the document, and one input event is sent when the area exists; `helper.tsx` lines 44-57 are an identical copy |
| DomSubstitution.TextUnits | src/components/Editor/helper.tsx:18 | a text node holds exactly the value |
| DomSubstitution.SubstituteUnit | src/components/Editor/helper.tsx:13-20 | what one unit becomes: a token with a non-empty value and an entry becomes the entry's text, everything else stays; no contract of its own |
| DomSubstitution.Substituted | src/components/Editor/helper.tsx:12-21 | every top-level unit substituted in document order; no contract of its own, its properties are the lemmas below |
| DomSubstitution.ReplaceAliasesToRealValue | src/components/Editor/helper.tsx:4-24 | blank markup is returned as it is; otherwise the loop's in-place replacements give exactly `Substituted` of the parsed document |
| DomSubstitution.VisitStep | src/components/Editor/helper.tsx:12-21 | splicing the visited node's replacement into the document advances the loop's invariant by one top-level node |
| DomSubstitution.SubstitutedAppend | src/components/Editor/helper.tsx:12-21 | each token is handled on its own; what comes before and after it is not affected |
| DomSubstitution.PlainTextUnchanged | src/components/Editor/helper.tsx:10-12 | content with no token is returned unchanged |
| DomSubstitution.EntryCases | src/components/Editor/helper.tsx:13-20 | an entry of `""` makes the token disappear; a missing key or an empty attribute leaves the token in place |
| DomSubstitution.TokensLeft | src/components/Editor/helper.tsx:12-21 | every replaced token disappears and every other token stays: the remaining tokens are exactly those without an entry |
| DomSubstitution.FixedPointIff | src/components/Editor/helper.tsx:12-21 | the document is unchanged exactly when it holds no token with an entry |
| DomSubstitution.SubstitutedIdempotent | src/components/Editor/helper.tsx:12-21 | a second pass changes nothing |
| MarkupSubstitution.FirstChar | src/components/Editor/helper.ts:7 | `[^"]*"` and `[^>]*>` stop at the first quote and the first `>` |
| MarkupSubstitution.CloseOf | src/components/Editor/helper.ts:7 | the `</span>` that closes the element, counting nested `<span` elements: the corrected end; no contract of its own, its properties are `ClosesAgree` and `BalancedCloseReplacesToken` |
| MarkupSubstitution.FirstClose | src/components/Editor/helper.ts:7 | `[\s\S]*?</span>` ends at the first `</span>` |
| MarkupSubstitution.Completion | src/components/Editor/helper.ts:7 | after `data-alias-value="` the key has no quote and runs to the closing quote; the tag ends at the next `>`; the element ends at the chosen `</span>` |
| MarkupSubstitution.TryValue | src/components/Editor/helper.ts:7 | the second `[^>]*` tries the longest candidate first: the result is the right-most valid `data-alias-value="` |
| MarkupSubstitution.TryClass | src/components/Editor/helper.ts:7 | the first `[^>]*` tries the longest candidate first: the right-most `class="custom-alias"` that leads to a match |
| MarkupSubstitution.MatchAt | src/components/Editor/helper.ts:7 | a match found is valid: `<span`, both attributes in the opening tag with no `>` before the value, a key and the rest |
| MarkupSubstitution.MatchAtFirst | src/components/Editor/helper.ts:7 | the match found is the first valid one in backtracking order; none is found only when no valid match starts there |
| MarkupSubstitution.MatchShape | src/components/Editor/helper.ts:7 | a match starts `<span`, holds `class="custom-alias"` before `data-alias-value="K"`, `K` has no quote, and the match ends with `</span>` |
| MarkupSubstitution.Replacement | src/components/Editor/helper.ts:8-11 | a non-empty entry replaces the match; a missing key or an empty entry keeps the matched text |
| MarkupSubstitution.Replace | src/components/Editor/helper.ts:6-12 | the global replace from a position on: a match is replaced by its callback's result and the scan resumes after it; elsewhere one character is copied; no contract of its own |
| MarkupSubstitution.ReplaceAliasesToRealValue | src/components/Editor/helper.ts:1-15 | empty or blank markup is returned as it is; otherwise the global replace as written |
| MarkupSubstitution.UnmatchedStep | src/components/Editor/helper.ts:6-7 | where no match starts, the scan copies one character and moves on |
| MarkupSubstitution.UnmatchedTextKept | src/components/Editor/helper.ts:6-7 | text where no match starts is copied in place and in order |
| MarkupSubstitution.MatchReplaced | src/components/Editor/helper.ts:6-11 | a match is replaced as a whole and the scan resumes after it, so matches never overlap |
| MarkupSubstitution.NoMatchUnchanged | src/components/Editor/helper.ts:6-14 | markup with no match comes back unchanged |
| MarkupSubstitution.KeptStep | src/components/Editor/helper.ts:8-11 | when no key has a non-empty entry, each step of the scan copies a non-empty slice of the markup as it is |
| MarkupSubstitution.NoEntriesUnchanged | src/components/Editor/helper.ts:8-11 | when no key has a non-empty entry, every match keeps its text and the markup is unchanged |
| MarkupSubstitution.ClosesAgree | src/components/Editor/helper.ts:7 | without a nested `<span`, the balanced end is the lazy end |
| TokenMarkup.LazyCloseLeavesStrayTag | src/components/Editor/helper.ts:7 | the static markup of the token `renderAlias` produces for label `이름`, key `name` and id `1`, with `name` mapped to `홍길동`, comes out as `홍길동<button data-alias-delete="true"><i class="delete-icon"><span class="a11y">삭제</span></i></button></span>`: the match ends at the label's `</span>` and the delete button and the token's own `</span>` are left behind |
| MarkupSubstitution.ReplaceAliasTokens | src/components/Editor/helper.ts:1-15 | the corrected substitution: blank markup unchanged, otherwise the scan that ends each element at its own `</span>` |
| TokenMarkup.BalancedCloseReplacesToken | src/components/Editor/helper.ts:7 | with the corrected end, the same token markup is replaced by exactly `홍길동` |

## Left out

- Pixel positions (`getPositionFromCaret`, `helper.tsx:72-83`) are layout and floating-point arithmetic. The panel position is an opaque pair of integers given to `HandleInput` as an input.
- `window.getSelection`, `caretRangeFromPoint`, `DOMParser` and `renderToStaticMarkup` are browser and React calls. The selection is `Surface.caret`, a hit test is an `Option<nat>` input, and parsing is modelled by `Render` and by the `parsed` input of the DOM substitution.
- The DOM substitution returns the edited document, not its serialization to `innerHTML`.
- Only collapsed selections are modelled. A caret or range boundary inside a token's own subtree, such as in its label, cannot be represented in the flat document.
- Prototype keys of the alias record (`aliases["constructor"]`) are not modelled. The record is a `map` of its own keys.
- Registering and removing event listeners, React render batching and stale closures are not modelled. Each handler reads the current state.
- Dafny strings count Unicode scalar values, while `anchorOffset`, `lastIndexOf` and the regular expressions count UTF-16 code units. The two agree unless a caret or a match boundary falls inside a surrogate pair, which the model does not represent.
- `IsLetter`, `LowerChar`: these cover only Latin, Latin-1, Hangul, kana and CJK ranges, not the full Unicode tables of `\p{L}` and `toLowerCase`. The proofs use only that `@` is not an alias character and that lowering works per character.
- Mention.MentionController.HandleKeyDown: a non-keyboard event is ignored by the source (`useMention.tsx:98`). Keys are modelled as strings, so this case does not arise.
- The code does not refuse a drop inside an existing token, and the model has no such check.
- The code does not intercept Backspace or Delete next to a token, and the model has no such handler.
- The code clears the saved range only after a successful drop and keeps it on the early returns; so does the model.
- Document.RunStart: `RunStart`, `RunEnd`, `QuerySpanStart` and `QuerySpanStartAsWritten` treat a maximal run of characters as one text node. The DOM also splits text nodes at `<div>` and `<br>` elements, and `insertNode` and `remove()` leave neighbouring text nodes unmerged. For `@a`, a token, `b`, after `removeAlias` the source holds two text nodes `@a` and `b`; with the panel still open on query `ab` and the caret after `b`, Enter makes the source search only `b`, find nothing and insert at the caret, while the model searches `@ab` and deletes it.
- TokenMarkup.LazyCloseLeavesStrayTag: the witness is the static markup of `renderAlias`'s output written out by hand, attribute by attribute in React's order; no serializer from `RenderAlias` to markup is defined or proved.
- Mention.Step: the `hasRange` flag of a keydown event summarises whether the editor and a selection range exist when Enter completes a selection. Document effects are covered by the class methods, not by the trace lemmas.
- AliasDnD.AliasDragDrop.RemoveAlias: a delete control outside the editable area (for example in a preview) is an `Outside` target. Its removal outside the document is not modelled; only the input event sent to the editor is.

## Findings

| source | as written | input that shows it | evidently intended | confidence | as-written member | corrected member |
|---|---|---|---|---|---|---|
| src/components/Editor/useMention.tsx:39 | `fullText.lastIndexOf("@" + query, anchorOffset)` accepts any occurrence that starts at or before the caret: one that starts at the caret or inside the typed `@query` and runs past it, or an older one far before the caret | text node `@@` with the caret after the first `@`: the query is `""`, the search finds the `@` at the caret, nothing is deleted, and the typed `@` stays in front of the token; also `@ab cd` with the caret at the end and the query still `ab` from before the caret moved: everything from `@ab` to the caret is deleted, ` cd` included | take only the `@query` that ends exactly at the caret, and otherwise insert at the caret without deleting; then the selection deletes nothing or exactly that `@query`, for every caret and query; the controller's methods keep the lookup as written, and the corrected lookup is proved beside it | medium; not executed | Mention.AsWrittenLeavesTypedQuery | Mention.TypedQueryIsReplaced |
| src/components/Editor/helper.ts:7 | the lazy `[\s\S]*?</span>` ends the match at the first `</span>`, and `renderAlias` puts the label in a nested `<span>` | `<span class="custom-alias" contenteditable="false" data-alias-value="name" data-alias-id="1"><span>이름</span><button data-alias-delete="true"><i class="delete-icon"><span class="a11y">삭제</span></i></button></span>` with `name` mapped to `홍길동` gives `홍길동<button data-alias-delete="true"><i class="delete-icon"><span class="a11y">삭제</span></i></button></span>` | the token element is replaced up to its own closing tag, giving `홍길동` | high; not executed | TokenMarkup.LazyCloseLeavesStrayTag | TokenMarkup.BalancedCloseReplacesToken |
