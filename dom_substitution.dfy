/**
 * `replaceAliasesToRealValue` in `helper.tsx`: the markup is parsed, every element
 * carrying `data-alias-value` is visited in document order, and one whose key has a
 * defined entry in the alias map is replaced, in place, by a text node holding that
 * entry (the empty string included). The serialization back to markup is not part
 * of this model: the result is the edited document.
 */
module DomSubstitution {
  import opened Chars
  import opened Document

  /** The units of a text node holding `s`. */
  function TextUnits(s: string): (r: seq<Inline>)
    ensures |r| == |s| && AllChars(r) && CharsOf(r) == s
  {
    seq(|s|, i requires 0 <= i < |s| => Ch(s[i]))
  }

  /** The token is replaced: its key is not empty and the map has an entry for it. */
  predicate Substitutable(u: Inline, aliases: map<string, string>) {
    u.Token? && u.value != "" && u.value in aliases
  }

  /** What one unit of the parsed document becomes. */
  function SubstituteUnit(u: Inline, aliases: map<string, string>): seq<Inline> {
    if Substitutable(u, aliases) then TextUnits(aliases[u.value]) else [u]
  }

  /** The document after every token has been visited. */
  function Substituted(doc: seq<Inline>, aliases: map<string, string>): seq<Inline> {
    if doc == [] then [] else SubstituteUnit(doc[0], aliases) + Substituted(doc[1..], aliases)
  }

  /** The result, as the source returns it. */
  datatype Output = Verbatim(html: string) | Serialized(doc: seq<Inline>)

  /** Each unit is handled on its own: the substitution distributes over concatenation.
      Replacing one token never affects the content before or after it. */
  lemma {:induction false} SubstitutedAppend(s: seq<Inline>, t: seq<Inline>, aliases: map<string, string>)
    ensures Substituted(s + t, aliases) == Substituted(s, aliases) + Substituted(t, aliases)
  {
    if s == [] {
      assert s + t == t;
    } else {
      assert (s + t)[1..] == s[1..] + t;
      SubstitutedAppend(s[1..], t, aliases);
    }
  }

  /** Content without tokens is left as it is. */
  lemma {:induction false} PlainTextUnchanged(doc: seq<Inline>, aliases: map<string, string>)
    requires AllChars(doc)
    ensures Substituted(doc, aliases) == doc
  {
    if doc != [] {
      PlainTextUnchanged(doc[1..], aliases);
    }
  }

  /** How many tokens of `doc` get replaced. */
  function CountSubstitutable(doc: seq<Inline>, aliases: map<string, string>): nat {
    if doc == [] then 0 else (if Substitutable(doc[0], aliases) then 1 else 0) + CountSubstitutable(doc[1..], aliases)
  }

  /** Every replaced token disappears and every other one stays. */
  lemma {:induction false} TokensLeft(doc: seq<Inline>, aliases: map<string, string>)
    ensures CountTokens(Substituted(doc, aliases)) + CountSubstitutable(doc, aliases) == CountTokens(doc)
    ensures forall u :: u in Substituted(doc, aliases) && u.Token? ==> u in doc && !Substitutable(u, aliases)
  {
    if doc != [] {
      TokensLeft(doc[1..], aliases);
      var head := SubstituteUnit(doc[0], aliases);
      CountTokensAppend(head, Substituted(doc[1..], aliases));
      if Substitutable(doc[0], aliases) {
        CharsHaveNoTokens(head);
      } else {
        assert CountTokens(head) == (if doc[0].Token? then 1 else 0) by {
          assert head[1..] == [];
        }
      }
    }
  }

  /** The document is left as it is exactly when it has no token to replace. */
  lemma FixedPointIff(doc: seq<Inline>, aliases: map<string, string>)
    ensures Substituted(doc, aliases) == doc <==> CountSubstitutable(doc, aliases) == 0
  {
    TokensLeft(doc, aliases);
    if CountSubstitutable(doc, aliases) == 0 {
      NothingToReplace(doc, aliases);
    }
  }

  lemma {:induction false} NothingToReplace(doc: seq<Inline>, aliases: map<string, string>)
    requires CountSubstitutable(doc, aliases) == 0
    ensures Substituted(doc, aliases) == doc
  {
    if doc != [] {
      NothingToReplace(doc[1..], aliases);
      assert doc == [doc[0]] + doc[1..];
    }
  }

  /** A second pass changes nothing: what is left has no token to replace. */
  lemma SubstitutedIdempotent(doc: seq<Inline>, aliases: map<string, string>)
    ensures Substituted(Substituted(doc, aliases), aliases) == Substituted(doc, aliases)
  {
    var r := Substituted(doc, aliases);
    TokensLeft(doc, aliases);
    NoneLeft(r, aliases);
    FixedPointIff(r, aliases);
  }

  lemma {:induction false} NoneLeft(r: seq<Inline>, aliases: map<string, string>)
    requires forall u :: u in r && u.Token? ==> !Substitutable(u, aliases)
    ensures CountSubstitutable(r, aliases) == 0
  {
    if r != [] {
      assert r[0] in r;
      assert forall u :: u in r[1..] ==> u in r;
      NoneLeft(r[1..], aliases);
    }
  }

  lemma SubstitutedSingle(u: Inline, aliases: map<string, string>)
    ensures Substituted([u], aliases) == SubstituteUnit(u, aliases)
  {
    assert [u][1..] == [];
  }

  /** Visiting one more unit of the parsed document. */
  lemma SubstitutedExtend(parsed: seq<Inline>, j: nat, aliases: map<string, string>)
    requires j < |parsed|
    ensures Substituted(parsed[..j + 1], aliases) == Substituted(parsed[..j], aliases) + SubstituteUnit(parsed[j], aliases)
  {
    assert parsed[..j + 1] == parsed[..j] + [parsed[j]];
    SubstitutedAppend(parsed[..j], [parsed[j]], aliases);
    SubstitutedSingle(parsed[j], aliases);
  }

  /** A token whose entry is the empty string vanishes; one whose key is missing, or
      whose key is empty, stays. */
  lemma EntryCases(before: seq<Inline>, t: Inline, after: seq<Inline>, aliases: map<string, string>)
    requires t.Token?
    ensures t.value != "" && t.value in aliases && aliases[t.value] == "" ==>
      Substituted(before + [t] + after, aliases) == Substituted(before, aliases) + Substituted(after, aliases)
    ensures t.value == "" || t.value !in aliases ==>
      Substituted(before + [t] + after, aliases) == Substituted(before, aliases) + [t] + Substituted(after, aliases)
  {
    var whole := Substituted(before + [t] + after, aliases);
    var unit := SubstituteUnit(t, aliases);
    assert whole == Substituted(before, aliases) + unit + Substituted(after, aliases) by {
      SubstitutedAppend(before + [t], after, aliases);
      SubstitutedAppend(before, [t], aliases);
      SubstitutedSingle(t, aliases);
    }
    if t.value != "" && t.value in aliases && aliases[t.value] == "" {
      assert unit == [];
    }
  }

  /** `replaceAliasesToRealValue`: `parsed` is what `DOMParser` makes of `html`. */
  method ReplaceAliasesToRealValue(html: string, parsed: seq<Inline>, aliases: map<string, string>) returns (r: Output)
    ensures IsBlank(html) ==> r == Verbatim(html)
    ensures !IsBlank(html) ==> r == Serialized(Substituted(parsed, aliases))
  {
    if IsBlank(html) {
      return Verbatim(html);
    }
    var doc := parsed;
    var i := 0;
    var j := 0;
    while j < |parsed|
      invariant 0 <= j <= |parsed|
      invariant doc == Substituted(parsed[..j], aliases) + parsed[j..]
      invariant i == |Substituted(parsed[..j], aliases)|
    {
      VisitStep(parsed, aliases, j, doc, i);
      var item := doc[i];
      if item.Token? && item.value != "" && item.value in aliases {
        var text := TextUnits(aliases[item.value]);
        doc := doc[..i] + text + doc[i + 1..];
        i := i + |text|;
      } else {
        assert SubstituteUnit(item, aliases) == [item];
        i := i + 1;
      }
      j := j + 1;
    }
    assert parsed[..j] == parsed;
    return Serialized(doc);
  }

  /** One turn of the visit: the unit at `i` of the document being edited is the `j`-th
      parsed unit, and replacing it by what it becomes keeps the loop's invariant. */
  lemma VisitStep(parsed: seq<Inline>, aliases: map<string, string>, j: nat, doc: seq<Inline>, i: nat)
    requires j < |parsed|
    requires doc == Substituted(parsed[..j], aliases) + parsed[j..]
    requires i == |Substituted(parsed[..j], aliases)|
    ensures i < |doc| && doc[i] == parsed[j] && doc[..i] + [doc[i]] + doc[i + 1..] == doc
    ensures doc[..i] + SubstituteUnit(doc[i], aliases) + doc[i + 1..] == Substituted(parsed[..j + 1], aliases) + parsed[j + 1..]
    ensures i + |SubstituteUnit(doc[i], aliases)| == |Substituted(parsed[..j + 1], aliases)|
  {
    var done := Substituted(parsed[..j], aliases);
    var u := parsed[j];
    var rest := parsed[j + 1..];
    assert parsed[j..] == [u] + rest;
    assert doc == done + [u] + rest;
    SpliceAt(done, u, rest, SubstituteUnit(u, aliases));
    SpliceAt(done, u, rest, [u]);
    SubstitutedExtend(parsed, j, aliases);
  }

  /** Replacing the unit right after `done` by `repl`. */
  lemma SpliceAt(done: seq<Inline>, u: Inline, rest: seq<Inline>, repl: seq<Inline>)
    ensures var doc := done + [u] + rest;
      |done| < |doc| && doc[|done|] == u && doc[..|done|] + repl + doc[|done| + 1..] == done + repl + rest
  {
    var doc := done + [u] + rest;
    assert doc[..|done|] == done;
    assert doc[|done| + 1..] == rest;
  }
}
