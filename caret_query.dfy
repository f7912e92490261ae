/**
 * Query extraction from the caret (`getQueryFromCaret`): the text from the
 * start of the anchor node to the caret is matched against
 * `/@([\p{L}\w-]{0,30})$/u`, and the captured group is the query.
 */
module CaretQuery {
  import opened Wrappers
  import opened Chars

  /** The `{0,30}` bound of the pattern. */
  const MaxQueryLength: nat := 30

  /** The pattern matches when the regex engine starts at index `i`: an `@` whose
      whole remainder is at most 30 alias characters (the `$` anchor leaves the
      greedy repetition one choice only). */
  predicate MatchesAt(text: string, i: nat) {
    && i < |text| && text[i] == '@'
    && |text| - (i + 1) <= MaxQueryLength
    && forall j :: i < j < |text| ==> IsAliasChar(text[j])
  }

  /** The leftmost start at or after `i` where the pattern matches. */
  function FirstMatch(text: string, i: nat): (r: Option<nat>)
    requires i <= |text|
    ensures r.Some? ==> i <= r.value < |text| && MatchesAt(text, r.value)
    ensures r.Some? ==> forall j :: i <= j < r.value ==> !MatchesAt(text, j)
    ensures r.None? ==> forall j :: i <= j < |text| ==> !MatchesAt(text, j)
    decreases |text| - i
  {
    if i == |text| then None
    else if MatchesAt(text, i) then Some(i)
    else FirstMatch(text, i + 1)
  }

  /** `getQueryFromCaret()`, given the text preceding the caret in its anchor node
      (`None`: there is no selection, or it has no range). */
  function QueryFromCaret(preceding: Option<string>): (r: Option<string>)
    ensures preceding.None? ==> r.None?
    ensures r.Some? ==> IsQueryOf(preceding.value, r.value)
  {
    match preceding
    case None => None
    case Some(text) =>
      match FirstMatch(text, 0)
      case None => None
      case Some(i) =>
        assert text == text[..i] + "@" + text[i + 1..];
        Some(text[i + 1..])
  }

  /** Reference definition: `text` ends with `@` + `q`, and `q` is 0 to 30 alias characters. */
  predicate IsQueryOf(text: string, q: string) {
    && |q| <= MaxQueryLength
    && (forall j :: 0 <= j < |q| ==> IsAliasChar(q[j]))
    && |q| + 1 <= |text| && text[|text| - |q| - 1..] == "@" + q
  }

  /** Every query the reference definition admits is the one extracted: together with
      the ensures of `QueryFromCaret`, the two agree exactly. */
  lemma QueryFromCaretComplete(text: string, q: string)
    requires IsQueryOf(text, q)
    ensures QueryFromCaret(Some(text)) == Some(q)
  {
    AtIsNotAliasChar();
    var i := |text| - |q| - 1;
    assert text[i..][0] == '@';
    assert MatchesAt(text, i) by {
      forall j | i < j < |text| ensures IsAliasChar(text[j]) {
        assert text[j] == text[i..][j - i] == q[j - i - 1];
      }
    }
    var m := FirstMatch(text, 0);
    assert m == Some(i);
    assert text[i + 1..] == text[i..][1..] == q;
  }

  /** The last `@` of `text`, if any. */
  function LastAt(text: string): (r: Option<nat>)
    ensures r.Some? ==> r.value < |text| && text[r.value] == '@' && forall j :: r.value < j < |text| ==> text[j] != '@'
    ensures r.None? ==> forall j :: 0 <= j < |text| ==> text[j] != '@'
  {
    if text == [] then None
    else if text[|text| - 1] == '@' then Some(|text| - 1)
    else LastAt(text[..|text| - 1])
  }

  /** Since `@` is not an alias character, the match is always anchored at the last `@`:
      there is a query exactly when the text after the last `@` is at most 30 alias
      characters, and then the query is that text. */
  lemma QueryAnchoredAtLastAt(text: string)
    ensures LastAt(text).None? ==> QueryFromCaret(Some(text)).None?
    ensures LastAt(text).Some? ==>
      var tail := text[LastAt(text).value + 1..];
      QueryFromCaret(Some(text)) == if |tail| <= MaxQueryLength && forall j :: 0 <= j < |tail| ==> IsAliasChar(tail[j]) then Some(tail) else None
  {
    AtIsNotAliasChar();
    var r := QueryFromCaret(Some(text));
    match LastAt(text)
    case None =>
    case Some(p) =>
      var tail := text[p + 1..];
      if |tail| <= MaxQueryLength && forall j :: 0 <= j < |tail| ==> IsAliasChar(tail[j]) {
        assert text[p..] == "@" + tail;
        QueryFromCaretComplete(text, tail);
      }
  }

  /** The three ways the extraction fails on a text: no `@` at all, a character outside
      the class after the last `@` (a space, say), or more than 30 characters after it. */
  lemma NoQueryCases(text: string)
    ensures (forall j :: 0 <= j < |text| ==> text[j] != '@') ==> QueryFromCaret(Some(text)).None?
    ensures LastAt(text).Some? && (exists j :: LastAt(text).value < j < |text| && !IsAliasChar(text[j])) ==> QueryFromCaret(Some(text)).None?
    ensures LastAt(text).Some? && |text| - LastAt(text).value - 1 > MaxQueryLength ==> QueryFromCaret(Some(text)).None?
  {
    QueryAnchoredAtLastAt(text);
    if LastAt(text).Some? {
      var p := LastAt(text).value;
      var tail := text[p + 1..];
      forall j | p < j < |text| && !IsAliasChar(text[j]) ensures !IsAliasChar(tail[j - p - 1]) {
      }
    }
  }

  /** Typing `@` alone opens a query, and it is empty. */
  lemma BareAtGivesEmptyQuery(text: string)
    requires |text| > 0 && text[|text| - 1] == '@'
    ensures QueryFromCaret(Some(text)) == Some("")
  {
    assert text[|text| - 1..] == "@" + "";
    QueryFromCaretComplete(text, "");
  }
}
