/**
 * `replaceAliasesToRealValue` in `helper.ts`: one global `String.replace` with the
 * pattern
 *   `<span` [^>]* `class="custom-alias"` [^>]* `data-alias-value="` ([^"]*) `"` [^>]* `>` [\s\S]*? `</span>`
 * whose callback returns the alias map's entry for the captured key when that entry
 * is a non-empty string, and the matched text otherwise.
 *
 * The regular expression is modelled as the search its backtracking engine makes:
 * at each start position, the first `[^>]*` is tried longest first, then the second,
 * and the first combination whose remainder matches wins; matching then resumes at
 * the end of the match. `balanced` selects how the element's end is found: `false`
 * is the lazy `[\s\S]*?</span>` of the source (the first `</span>`), `true` the
 * `</span>` that closes the opening tag, counting nested `<span` elements.
 */
module MarkupSubstitution {
  import opened Wrappers
  import opened Chars

  const SpanOpen := "<span"
  const ClassAttr := "class=\"custom-alias\""
  const ValueAttr := "data-alias-value=\""
  const SpanClose := "</span>"

  /** No character `ch` in `s[i..j]`. */
  predicate NoChar(s: string, ch: char, i: int, j: int) {
    forall k :: i <= k < j && 0 <= k < |s| ==> s[k] != ch
  }

  /** The first `ch` at or after `i`. */
  function FirstChar(s: string, ch: char, i: nat): (r: Option<nat>)
    ensures r.Some? ==> i <= r.value < |s| && s[r.value] == ch
    ensures NoChar(s, ch, i, if r.Some? then r.value else |s|)
    decreases |s| - i
  {
    if i >= |s| then None
    else if s[i] == ch then Some(i)
    else FirstChar(s, ch, i + 1)
  }

  /** The first `</span>` at or after `i` (`[\s\S]*?</span>`). */
  function FirstClose(s: string, i: nat): (r: Option<nat>)
    ensures r.Some? ==> i <= r.value && OccursAt(s, SpanClose, r.value)
    ensures forall j :: i <= j < (if r.Some? then r.value else |s|) ==> !OccursAt(s, SpanClose, j)
    decreases |s| - i
  {
    if i >= |s| then None
    else if OccursAt(s, SpanClose, i) then Some(i)
    else FirstClose(s, i + 1)
  }

  /** The `</span>` at or after `i` that closes the element open at depth `depth`. */
  function CloseOf(s: string, i: nat, depth: nat): (r: Option<nat>)
    ensures r.Some? ==> i <= r.value && OccursAt(s, SpanClose, r.value)
    decreases |s| - i
  {
    if i >= |s| then None
    else if OccursAt(s, SpanClose, i) then (if depth == 0 then Some(i) else CloseOf(s, i + 7, depth - 1))
    else if OccursAt(s, SpanOpen, i) then CloseOf(s, i + 5, depth + 1)
    else CloseOf(s, i + 1, depth)
  }

  /** Where an element's content ends. */
  function ElementClose(s: string, i: nat, balanced: bool): (r: Option<nat>)
    ensures r.Some? ==> i <= r.value && OccursAt(s, SpanClose, r.value)
  {
    if balanced then CloseOf(s, i, 0) else FirstClose(s, i)
  }

  /** The part of a match after `data-alias-value="`: the captured key, the closing
      quote, the `>` ending the opening tag and the `</span>` ending the match. */
  datatype Tail = Tail(key: string, quoteAt: nat, tagEnd: nat, closeAt: nat)

  /** `([^"]*)"[^>]*>[\s\S]*?</span>` from `d + 18`, the end of `data-alias-value="`
      at `d`. Each part has exactly one way to match: the key runs to the first quote,
      the tag to the first `>` after it. */
  function Completion(s: string, d: nat, balanced: bool): (r: Option<Tail>)
    ensures r.Some? ==>
      && d + 18 <= r.value.quoteAt < r.value.tagEnd < r.value.closeAt && r.value.closeAt + 7 <= |s|
      && r.value.key == s[d + 18..r.value.quoteAt] && NoChar(s, '"', d + 18, r.value.quoteAt)
      && s[r.value.quoteAt] == '"'
      && NoChar(s, '>', r.value.quoteAt + 1, r.value.tagEnd) && s[r.value.tagEnd] == '>'
      && ElementClose(s, r.value.tagEnd + 1, balanced) == Some(r.value.closeAt)
  {
    match FirstChar(s, '"', d + 18)
    case None => None
    case Some(e) =>
      match FirstChar(s, '>', e + 1)
      case None => None
      case Some(g) =>
        match ElementClose(s, g + 1, balanced)
        case None => None
        case Some(h) => if h + 7 <= |s| then Some(Tail(s[d + 18..e], e, g, h)) else None
  }

  /** The pattern matches at `p` with `class="custom-alias"` at `c` and
      `data-alias-value="` at `d`: nothing between `<span` and the end of
      `data-alias-value="` is a `>`, and the rest matches. */
  predicate ValidAt(s: string, p: nat, c: nat, d: nat, balanced: bool) {
    && OccursAt(s, SpanOpen, p) && p + 5 <= c && c + 20 <= d && d + 18 <= |s|
    && OccursAt(s, ClassAttr, c) && OccursAt(s, ValueAttr, d)
    && NoChar(s, '>', p + 5, d + 18)
    && Completion(s, d, balanced).Some?
  }

  /** A match: where its two attributes start, and its tail. */
  datatype Hit = Hit(classAt: nat, valueAt: nat, tail: Tail)

  /** The second `[^>]*`, longest first: tries `data-alias-value="` at `dmax`, `dmax - 1`,
      ... down to just after `class="custom-alias"` at `c`. */
  function TryValue(s: string, p: nat, c: nat, dmax: int, balanced: bool): (r: Option<Hit>)
    ensures r.Some? ==>
      && r.value.classAt == c && c + 20 <= r.value.valueAt <= dmax
      && ValidAt(s, p, c, r.value.valueAt, balanced)
      && Completion(s, r.value.valueAt, balanced) == Some(r.value.tail)
    ensures forall d: nat :: (if r.Some? then r.value.valueAt else c + 19) < d <= dmax ==> !ValidAt(s, p, c, d, balanced)
    decreases dmax - c
  {
    if dmax < c + 20 then None
    else if ValidAt(s, p, c, dmax, balanced) then Some(Hit(c, dmax, Completion(s, dmax, balanced).value))
    else
      var r := TryValue(s, p, c, dmax - 1, balanced);
      ValuesBelow(s, p, c, dmax, balanced, r);
      r
  }

  /** `data-alias-value="` at `dmax` gives no match, so the candidates ruled out below
      `dmax` are all those ruled out up to it. */
  lemma ValuesBelow(s: string, p: nat, c: nat, dmax: nat, balanced: bool, r: Option<Hit>)
    requires !ValidAt(s, p, c, dmax, balanced)
    requires forall d: nat :: (if r.Some? then r.value.valueAt else c + 19) < d <= dmax - 1 ==> !ValidAt(s, p, c, d, balanced)
    ensures forall d: nat :: (if r.Some? then r.value.valueAt else c + 19) < d <= dmax ==> !ValidAt(s, p, c, d, balanced)
  {
  }

  /** The first `[^>]*`, longest first: tries `class="custom-alias"` at `cmax`,
      `cmax - 1`, ... down to just after `<span`. */
  function TryClass(s: string, p: nat, cmax: int, balanced: bool): (r: Option<Hit>)
    ensures r.Some? ==>
      && p + 5 <= r.value.classAt <= cmax
      && ValidAt(s, p, r.value.classAt, r.value.valueAt, balanced)
      && Completion(s, r.value.valueAt, balanced) == Some(r.value.tail)
      && forall d: nat :: r.value.valueAt < d ==> !ValidAt(s, p, r.value.classAt, d, balanced)
    ensures forall c: nat, d: nat :: (if r.Some? then r.value.classAt else p + 4) < c <= cmax ==> !ValidAt(s, p, c, d, balanced)
    decreases cmax - p
  {
    if cmax < p + 5 then None
    else
      var v := TryValue(s, p, cmax, |s| - 18, balanced);
      ValuesAtClass(s, p, cmax, v, balanced);
      if v.Some? then v
      else
        var r := TryClass(s, p, cmax - 1, balanced);
        ClassesBelow(s, p, cmax, balanced, r);
        r
  }

  /** Nothing matches with `class="custom-alias"` at `cmax`, so the candidates ruled out
      below `cmax` are all those ruled out up to it. */
  lemma ClassesBelow(s: string, p: nat, cmax: nat, balanced: bool, r: Option<Hit>)
    requires forall d: nat :: !ValidAt(s, p, cmax, d, balanced)
    requires forall c: nat, d: nat :: (if r.Some? then r.value.classAt else p + 4) < c <= cmax - 1 ==> !ValidAt(s, p, c, d, balanced)
    ensures forall c: nat, d: nat :: (if r.Some? then r.value.classAt else p + 4) < c <= cmax ==> !ValidAt(s, p, c, d, balanced)
  {
  }

  /** What the search for `data-alias-value="` tells about one position of
      `class="custom-alias"`. */
  lemma ValuesAtClass(s: string, p: nat, c: nat, v: Option<Hit>, balanced: bool)
    requires v == TryValue(s, p, c, |s| - 18, balanced)
    ensures v.None? ==> forall d: nat :: !ValidAt(s, p, c, d, balanced)
    ensures v.Some? ==> forall d: nat :: v.value.valueAt < d ==> !ValidAt(s, p, c, d, balanced)
  {
  }

  /** The match of the pattern starting at `p`, if any: the one the backtracking
      order reaches first, with the right-most `class="custom-alias"` and then the
      right-most `data-alias-value="` that lead to a match. */
  function MatchAt(s: string, p: nat, balanced: bool): (r: Option<Hit>)
    ensures r.Some? ==>
      ValidAt(s, p, r.value.classAt, r.value.valueAt, balanced) && Completion(s, r.value.valueAt, balanced) == Some(r.value.tail)
  {
    if !OccursAt(s, SpanOpen, p) then None
    else TryClass(s, p, |s| - 38, balanced)
  }

  /** The match found is the first in backtracking order, and none is found only when
      no combination matches. */
  lemma MatchAtFirst(s: string, p: nat, balanced: bool)
    ensures var r := MatchAt(s, p, balanced);
      r.Some? ==> forall c: nat, d: nat :: ValidAt(s, p, c, d, balanced) ==>
        c < r.value.classAt || (c == r.value.classAt && d <= r.value.valueAt)
    ensures MatchAt(s, p, balanced).None? ==> forall c: nat, d: nat :: !ValidAt(s, p, c, d, balanced)
  {
  }

  /** The end of a match. */
  function End(m: Hit): nat {
    m.tail.closeAt + 7
  }

  /** The callback: `aliases[aliasKey] || match`. */
  function Replacement(matched: string, key: string, aliases: map<string, string>): (r: string)
    ensures key in aliases && aliases[key] != "" ==> r == aliases[key]
    ensures key !in aliases || aliases[key] == "" ==> r == matched
  {
    if key in aliases && aliases[key] != "" then aliases[key] else matched
  }

  /** The global replace from position `p` on. */
  function Replace(s: string, aliases: map<string, string>, p: nat, balanced: bool): string
    requires p <= |s|
    decreases |s| - p
  {
    if p == |s| then ""
    else match MatchAt(s, p, balanced)
      case Some(m) => Replacement(s[p..End(m)], m.tail.key, aliases) + Replace(s, aliases, End(m), balanced)
      case None => [s[p]] + Replace(s, aliases, p + 1, balanced)
  }

  /** `replaceAliasesToRealValue` as written: empty or blank markup is returned as it
      is; otherwise the pattern with the lazy `</span>`. */
  function ReplaceAliasesToRealValue(html: string, aliases: map<string, string>): (r: string)
    ensures IsBlank(html) ==> r == html
    ensures !IsBlank(html) ==> r == Replace(html, aliases, 0, false)
  {
    if IsBlank(html) then html else Replace(html, aliases, 0, false)
  }

  /** The substitution with the token element matched up to the `</span>` that closes it. */
  function ReplaceAliasTokens(html: string, aliases: map<string, string>): (r: string)
    ensures IsBlank(html) ==> r == html
    ensures !IsBlank(html) ==> r == Replace(html, aliases, 0, true)
  {
    if IsBlank(html) then html else Replace(html, aliases, 0, true)
  }

  // ---------------------------------------------------------------------
  // Properties of the scan

  /** Text where no match starts is copied as it is, in place and in order. */
  lemma {:induction false} UnmatchedTextKept(s: string, aliases: map<string, string>, p: nat, q: nat, balanced: bool)
    requires p <= q <= |s|
    requires forall j :: p <= j < q ==> MatchAt(s, j, balanced).None?
    ensures Replace(s, aliases, p, balanced) == s[p..q] + Replace(s, aliases, q, balanced)
    decreases q - p
  {
    if p < q {
      UnmatchedStep(s, aliases, p, balanced);
      UnmatchedTextKept(s, aliases, p + 1, q, balanced);
      ConsSlice(s, p, q, Replace(s, aliases, q, balanced));
    } else {
      EmptySlice(s, p, Replace(s, aliases, q, balanced));
    }
  }

  lemma EmptySlice(s: string, p: nat, rest: string)
    requires p <= |s|
    ensures s[p..p] + rest == rest
  {
  }

  lemma ConsSlice(s: string, p: nat, q: nat, rest: string)
    requires p < q <= |s|
    ensures [s[p]] + (s[p + 1..q] + rest) == s[p..q] + rest
  {
    assert s[p..q] == [s[p]] + s[p + 1..q];
  }

  /** Where no match starts, one character is copied and the scan moves on by one. */
  lemma UnmatchedStep(s: string, aliases: map<string, string>, p: nat, balanced: bool)
    requires p < |s| && MatchAt(s, p, balanced).None?
    ensures Replace(s, aliases, p, balanced) == [s[p]] + Replace(s, aliases, p + 1, balanced)
  {
  }

  /** A match is replaced as a whole and the scan resumes right after it, so matches
      never overlap. */
  lemma MatchReplaced(s: string, aliases: map<string, string>, p: nat, balanced: bool)
    requires p < |s| && MatchAt(s, p, balanced).Some?
    ensures var m := MatchAt(s, p, balanced).value;
      p < End(m) <= |s| &&
      Replace(s, aliases, p, balanced) == Replacement(s[p..End(m)], m.tail.key, aliases) + Replace(s, aliases, End(m), balanced)
  {
  }

  /** A match covers `<span`, the two attributes in the opening tag and the captured key,
      which holds no quote. */
  lemma MatchShape(s: string, p: nat, balanced: bool)
    requires MatchAt(s, p, balanced).Some?
    ensures var m := MatchAt(s, p, balanced).value;
      && OccursAt(s, SpanOpen, p) && OccursAt(s, ClassAttr, m.classAt) && OccursAt(s, ValueAttr, m.valueAt)
      && p + 5 <= m.classAt && m.classAt + 20 <= m.valueAt
      && '"' !in m.tail.key && OccursAt(s, SpanClose, End(m) - 7)
  {
    var m := MatchAt(s, p, balanced).value;
    TailShape(s, m.valueAt, balanced, m.tail);
  }

  /** The captured key holds no quote, and the tail ends with `</span>`. */
  lemma TailShape(s: string, d: nat, balanced: bool, t: Tail)
    requires Completion(s, d, balanced) == Some(t)
    ensures '"' !in t.key && OccursAt(s, SpanClose, t.closeAt)
  {
    var key := t.key;
    forall k | 0 <= k < |key|
      ensures key[k] != '"'
    {
      assert key[k] == s[d + 18 + k];
    }
  }

  /** Markup without any match is returned unchanged. */
  lemma NoMatchUnchanged(s: string, aliases: map<string, string>, balanced: bool)
    requires forall j :: 0 <= j < |s| ==> MatchAt(s, j, balanced).None?
    ensures Replace(s, aliases, 0, balanced) == s
  {
    UnmatchedTextKept(s, aliases, 0, |s|, balanced);
  }

  /** When no key has a non-empty entry every match keeps its text: the markup comes
      back unchanged. */
  lemma {:induction false} NoEntriesUnchanged(s: string, aliases: map<string, string>, p: nat, balanced: bool)
    requires p <= |s|
    requires forall k :: k in aliases ==> aliases[k] == ""
    ensures Replace(s, aliases, p, balanced) == s[p..]
    decreases |s| - p
  {
    if p == |s| {
      assert s[p..] == [];
    } else {
      var n := KeptStep(s, aliases, p, balanced);
      NoEntriesUnchanged(s, aliases, n, balanced);
      SplitSuffix(s, p, n);
    }
  }

  /** When no key has a non-empty entry, the scan copies `s[p..n]` and moves on to `n`. */
  lemma KeptStep(s: string, aliases: map<string, string>, p: nat, balanced: bool) returns (n: nat)
    requires p < |s|
    requires forall k :: k in aliases ==> aliases[k] == ""
    ensures p < n <= |s| && Replace(s, aliases, p, balanced) == s[p..n] + Replace(s, aliases, n, balanced)
  {
    match MatchAt(s, p, balanced)
    case Some(m) =>
      MatchReplaced(s, aliases, p, balanced);
      n := End(m);
    case None =>
      UnmatchedStep(s, aliases, p, balanced);
      n := p + 1;
  }

  lemma SplitSuffix(s: string, p: nat, e: nat)
    requires p <= e <= |s|
    ensures s[p..e] + s[e..] == s[p..]
  {
  }

  /** Where the content holds no nested `<span`, both ways of finding the element's
      end agree. */
  lemma {:induction false} ClosesAgree(s: string, i: nat)
    requires FirstClose(s, i).Some?
    requires forall j :: i <= j < FirstClose(s, i).value ==> !OccursAt(s, SpanOpen, j)
    ensures CloseOf(s, i, 0) == FirstClose(s, i)
    decreases |s| - i
  {
    if !OccursAt(s, SpanClose, i) {
      ClosesAgree(s, i + 1);
    }
  }
}
