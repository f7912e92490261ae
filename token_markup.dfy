/**
 * The markup `renderAlias` (`helper.tsx`) gives for one alias, and what the global
 * replace of `helper.ts` makes of it: the lazy `</span>` ends the match inside the
 * token, the balanced one at the token's own closing tag.
 *
 * Facts about the string literals are kept in small lemmas of their own; the rest of
 * the reasoning works on any string `w` with the same parts (`WitnessShape`), so no
 * proof has to look at all 212 characters at once.
 */
module TokenMarkup {
  import opened Wrappers
  import opened Chars
  import opened MarkupSubstitution

  /** Tools for reading a concrete string. */
  lemma {:induction false} FirstCharAt(s: string, ch: char, i: nat, j: nat)
    requires i <= j < |s| && s[j] == ch && NoChar(s, ch, i, j)
    ensures FirstChar(s, ch, i) == Some(j)
    decreases j - i
  {
    if i < j {
      FirstCharAt(s, ch, i + 1, j);
    }
  }

  lemma {:induction false} FirstCloseAt(s: string, i: nat, j: nat)
    requires i <= j && OccursAt(s, SpanClose, j)
    requires forall k :: i <= k < j ==> !OccursAt(s, SpanClose, k)
    ensures FirstClose(s, i) == Some(j)
    decreases j - i
  {
    if i < j {
      FirstCloseAt(s, i + 1, j);
    }
  }

  /** Neither tag starts where there is no `<`. */
  lemma NoTagWithoutLt(s: string, k: nat)
    requires k < |s| && s[k] != '<'
    ensures !OccursAt(s, SpanClose, k) && !OccursAt(s, SpanOpen, k)
  {
    if k + 7 <= |s| {
      assert s[k..k + 7][0] == s[k];
    }
    if k + 5 <= |s| {
      assert s[k..k + 5][0] == s[k];
    }
  }

  lemma {:induction false} CloseOfSkip(s: string, i: nat, j: nat, depth: nat)
    requires i <= j < |s| && NoChar(s, '<', i, j)
    ensures CloseOf(s, i, depth) == CloseOf(s, j, depth)
    decreases j - i
  {
    if i < j {
      NoTagWithoutLt(s, i);
      CloseOfSkip(s, i + 1, j, depth);
    }
  }

  lemma NoCharJoin(s: string, ch: char, i: nat, j: nat, k: nat)
    requires i <= j <= k && NoChar(s, ch, i, j) && NoChar(s, ch, j, k)
    ensures NoChar(s, ch, i, k)
  {
  }

  /** No `ch` in `s[i..j]` when that part is `u`, which has no `ch`. */
  lemma NoCharOver(s: string, i: nat, j: nat, u: string, ch: char)
    requires i <= j <= |s| && s[i..j] == u && ch !in u
    ensures NoChar(s, ch, i, j)
  {
    forall k | i <= k < j
      ensures s[k] != ch
    {
      assert s[k] == u[k - i];
    }
  }

  /** The parts of a part `t` of `s` at `o` are parts of `s`. */
  lemma PartsShift(s: string, o: nat, t: string)
    requires o + |t| <= |s| && s[o..o + |t|] == t
    ensures forall a, b :: 0 <= a <= b <= |t| ==> s[o + a..o + b] == t[a..b]
  {
    forall a, b | 0 <= a <= b <= |t|
      ensures s[o + a..o + b] == t[a..b]
    {
      forall k | 0 <= k < b - a
        ensures s[o + a..o + b][k] == t[a..b][k]
      {
        assert t[a + k] == s[o..o + |t|][a + k];
      }
    }
  }

  // The markup `renderAlias` gives for the alias with id `1`, value `name` and label
  // `이름`, as React writes it out: the opening tag, the label span, the delete button
  // and the token's own `</span>`.
  const ContentEditable := " contenteditable=\"false\" "
  const IdAttr := " data-alias-id=\"1\""
  const TokenTag := SpanOpen + " " + ClassAttr + ContentEditable + ValueAttr + "name" + "\"" + IdAttr + ">"
  const TokenLabel := SpanOpen + ">이름" + SpanClose
  const ButtonAttr := " data-alias-delete=\"true\">"
  const IconAttr := " class=\"delete-icon\">"
  const A11yAttr := " class=\"a11y\">"
  const DeleteButton := "<button" + ButtonAttr + "<i" + IconAttr + SpanOpen + A11yAttr + "삭제" + SpanClose + "</i>" + "</button>"
  const Witness := TokenTag + TokenLabel + DeleteButton + SpanClose

  /** How the opening tag is put together. */
  predicate TagParts(w: string) {
    && 93 <= |w| && w[0..5] == SpanOpen && w[5..6] == " " && w[6..26] == ClassAttr
    && w[26..51] == ContentEditable && w[51..69] == ValueAttr && w[69..73] == "name"
    && w[73..74] == "\"" && w[74..92] == IdAttr && w[92..93] == ">"
  }

  /** How the label span at `o` is put together. */
  predicate LabelParts(w: string, o: nat) {
    o + 15 <= |w| && w[o..o + 5] == SpanOpen && w[o + 5..o + 8] == ">이름" && w[o + 8..o + 15] == SpanClose
  }

  /** How the delete button at `o` is put together. */
  predicate ButtonParts(w: string, o: nat) {
    && o + 97 <= |w| && w[o..o + 7] == "<button" && w[o + 7..o + 33] == ButtonAttr && w[o + 33..o + 35] == "<i"
    && w[o + 35..o + 56] == IconAttr && w[o + 56..o + 61] == SpanOpen && w[o + 61..o + 75] == A11yAttr
    && w[o + 75..o + 77] == "삭제" && w[o + 77..o + 84] == SpanClose && w[o + 84..o + 88] == "</i>"
    && w[o + 88..o + 97] == "</button>"
  }

  predicate WitnessParts(w: string) {
    |w| == 212 && TagParts(w) && LabelParts(w, 93) && ButtonParts(w, 108) && w[205..212] == SpanClose
  }

  lemma TokenTagParts()
    ensures |TokenTag| == 93 && TagParts(TokenTag)
  {
  }

  lemma TokenLabelParts()
    ensures |TokenLabel| == 15 && LabelParts(TokenLabel, 0)
  {
  }

  lemma DeleteButtonParts()
    ensures |DeleteButton| == 97 && ButtonParts(DeleteButton, 0)
  {
    var b := DeleteButton;
    assert b[..56] == "<button" + ButtonAttr + "<i" + IconAttr;
  }

  lemma FourParts(a: string, b: string, c: string, d: string)
    ensures var w := a + b + c + d;
      && w[..|a|] == a && w[|a|..|a| + |b|] == b && w[|a| + |b|..|a| + |b| + |c|] == c
      && w[|a| + |b| + |c|..] == d && w[|a| + |b|..] == c + d
  {
  }

  lemma TagPartsLift(t: string, w: string)
    requires TagParts(t) && |t| == 93 <= |w| && w[..93] == t
    ensures TagParts(w)
  {
    PartsShift(w, 0, t);
  }

  lemma LabelPartsLift(t: string, w: string, o: nat)
    requires LabelParts(t, 0) && |t| == 15 && o + 15 <= |w| && w[o..o + 15] == t
    ensures LabelParts(w, o)
  {
    PartsShift(w, o, t);
  }

  lemma ButtonPartsLift(t: string, w: string, o: nat)
    requires ButtonParts(t, 0) && |t| == 97 && o + 97 <= |w| && w[o..o + 97] == t
    ensures ButtonParts(w, o)
  {
    PartsShift(w, o, t);
  }

  lemma WitnessHasParts()
    ensures WitnessParts(Witness)
  {
    TokenTagParts();
    TokenLabelParts();
    DeleteButtonParts();
    FourParts(TokenTag, TokenLabel, DeleteButton, SpanClose);
    TagPartsLift(TokenTag, Witness);
    LabelPartsLift(TokenLabel, Witness, 93);
    ButtonPartsLift(DeleteButton, Witness, 108);
  }
  // Letters of the parts
  lemma GtNotInTagParts()
    ensures '>' !in ClassAttr && '>' !in ContentEditable
  {
  }

  lemma GtNotInTagValue()
    ensures '>' !in ValueAttr && '>' !in IdAttr
  {
  }

  lemma LettersOfKey()
    ensures '>' !in "name" && '"' !in "name" && 'd' !in "name"
  {
  }

  lemma LettersOfValueAttr()
    ensures ValueAttr[1..] == "ata-alias-value=\"" && IdAttr[0] == ' '
  {
  }

  lemma NoDInValueAttr()
    ensures 'd' !in "ata-alias-value=\""
  {
  }

  lemma LettersOfClassAttr()
    ensures ClassAttr[1..7] == "lass=\"" && 'c' !in "lass=\"" && ClassAttr[8] == 'u'
  {
  }

  lemma LettersOfClassName()
    ensures ClassAttr[8..] == "ustom-alias\"" && 'c' !in "ustom-alias\""
  {
  }

  lemma LettersOfContentEditable()
    ensures ContentEditable[0] == ' ' && ContentEditable[2..] == "ontenteditable=\"false\" "
  {
    assert ContentEditable == " c" + "ontenteditable=\"false\" ";
  }

  lemma NoCInContentEditable()
    ensures "ontenteditable=\"false\" "[0] == 'o' && 'c' !in "ontenteditable=\"false\" "
  {
  }

  lemma NoCInValueAttr()
    ensures 'c' !in ValueAttr && ValueAttr[0] == 'd'
  {
  }

  lemma FirstLettersOfClassAttr()
    ensures ClassAttr[0] == 'c' && ClassAttr[1] == 'l'
  {
  }

  /** The opening tag holds no `>` before its end. */
  lemma TagHoldsNoGt(w: string)
    requires TagParts(w)
    ensures NoChar(w, '>', 5, 92)
  {
    TagHoldsNoGtLeft(w);
    TagHoldsNoGtRight(w);
    NoCharJoin(w, '>', 5, 51, 92);
  }

  lemma TagHoldsNoGtLeft(w: string)
    requires TagParts(w)
    ensures NoChar(w, '>', 5, 51)
  {
    GtNotInTagParts();
    NoCharOver(w, 5, 6, " ", '>');
    NoCharOver(w, 6, 26, ClassAttr, '>');
    NoCharOver(w, 26, 51, ContentEditable, '>');
    NoCharJoin(w, '>', 5, 6, 26);
    NoCharJoin(w, '>', 5, 26, 51);
  }

  lemma TagHoldsNoGtRight(w: string)
    requires TagParts(w)
    ensures NoChar(w, '>', 51, 92)
  {
    GtNotInTagValue();
    LettersOfKey();
    NoCharOver(w, 51, 69, ValueAttr, '>');
    NoCharOver(w, 69, 73, "name", '>');
    NoCharOver(w, 73, 74, "\"", '>');
    NoCharOver(w, 74, 92, IdAttr, '>');
    NoCharJoin(w, '>', 51, 69, 73);
    NoCharJoin(w, '>', 51, 73, 74);
    NoCharJoin(w, '>', 51, 74, 92);
  }

  /** The only `d` starting `data-alias-value="` in reach is the one at 51: there is
      none after it up to the end of the key and its quote. */
  lemma TagKeyGaps(w: string)
    requires TagParts(w)
    ensures NoChar(w, '"', 69, 73) && NoChar(w, 'd', 52, 75)
  {
    LettersOfKey();
    LettersOfValueAttr();
    NoDInValueAttr();
    PartsShift(w, 51, ValueAttr);
    PartsShift(w, 74, IdAttr);
    NoCharOver(w, 69, 73, "name", '"');
    NoCharOver(w, 52, 69, "ata-alias-value=\"", 'd');
    NoCharOver(w, 69, 73, "name", 'd');
    NoCharOver(w, 73, 74, "\"", 'd');
    NoCharOver(w, 74, 75, " ", 'd');
    NoCharJoin(w, 'd', 52, 69, 73);
    NoCharJoin(w, 'd', 52, 73, 74);
    NoCharJoin(w, 'd', 52, 74, 75);
  }

  /** The letters `c` after the one at 6, up to the end of `data-alias-value="`, are
      not followed by `l`. */
  lemma TagClassGaps(w: string)
    requires TagParts(w)
    ensures NoChar(w, 'c', 7, 13) && w[14] == 'u' && NoChar(w, 'c', 14, 27)
    ensures w[28] == 'o' && NoChar(w, 'c', 28, 69)
  {
    TagClassGapsLeft(w);
    TagClassGapsRight(w);
  }

  lemma TagClassGapsLeft(w: string)
    requires TagParts(w)
    ensures NoChar(w, 'c', 7, 13) && w[14] == 'u' && NoChar(w, 'c', 14, 27)
  {
    LettersOfClassAttr();
    LettersOfClassName();
    LettersOfContentEditable();
    PartsShift(w, 6, ClassAttr);
    NoCharOver(w, 7, 13, "lass=\"", 'c');
    NoCharOver(w, 14, 26, "ustom-alias\"", 'c');
    assert w[26] == ContentEditable[0];
    NoCharJoin(w, 'c', 14, 26, 27);
  }

  lemma TagClassGapsRight(w: string)
    requires TagParts(w)
    ensures w[28] == 'o' && NoChar(w, 'c', 28, 69)
  {
    LettersOfContentEditable();
    NoCInContentEditable();
    NoCInValueAttr();
    PartsShift(w, 26, ContentEditable);
    NoCharOver(w, 28, 51, "ontenteditable=\"false\" ", 'c');
    NoCharOver(w, 51, 69, ValueAttr, 'c');
    NoCharJoin(w, 'c', 28, 51, 69);
  }
  lemma LettersOfTags()
    ensures SpanOpen[0] == '<' && SpanOpen[1] == 's' && SpanClose[1] == '/' && SpanClose[2] == 's'
    ensures SpanOpen[1..5] == "span" && '<' !in "span" && SpanClose[1..7] == "/span>" && '<' !in "/span>"
  {
  }

  lemma LettersOfLabel()
    ensures '<' !in ">이름"
  {
  }

  lemma LettersOfButtonTags()
    ensures "<button"[1..7] == "button" && "<button"[1] == 'b' && '<' !in "button"
    ensures "<i"[1..2] == "i" && "<i"[1] == 'i' && '<' !in "i"
  {
  }

  lemma LettersOfClosingTags()
    ensures "</i>"[1..4] == "/i>" && "</i>"[1] == '/' && "</i>"[2] == 'i' && '<' !in "/i>"
    ensures "</button>"[1..9] == "/button>" && "</button>"[1] == '/' && "</button>"[2] == 'b' && '<' !in "/button>"
  {
  }

  lemma LettersOfButtonAttrs()
    ensures '<' !in ButtonAttr && '<' !in IconAttr
  {
  }

  lemma LettersOfA11yAttr()
    ensures '<' !in A11yAttr && A11yAttr[13] == '>' && '<' !in "삭제"
  {
  }

  /** The facts about the opening tag the matching argument uses: where its attributes
      are, where the key ends and the tag closes, and where the first letters of the
      two attributes are not. */
  predicate TagMarks(w: string) {
    && 93 <= |w| && w[0] == '<'
    && OccursAt(w, SpanOpen, 0) && OccursAt(w, ClassAttr, 6) && OccursAt(w, ValueAttr, 51)
    && w[69..73] == "name" && w[73] == '"' && w[92] == '>'
    && NoChar(w, '>', 5, 92) && NoChar(w, '"', 69, 73) && NoChar(w, 'd', 52, 75)
    && NoChar(w, 'c', 7, 13) && w[14] == 'u' && NoChar(w, 'c', 14, 27) && w[28] == 'o' && NoChar(w, 'c', 28, 69)
  }

  /** The label span at `o`: no `<` between its `<span` and its `</span>`. */
  predicate LabelMarks(w: string, o: nat) {
    && o + 15 <= |w|
    && OccursAt(w, SpanOpen, o) && OccursAt(w, SpanClose, o + 8) && NoChar(w, '<', o + 1, o + 8)
  }

  /** The delete button at `o`: where each `<` is and what follows it, and the `>` that
      ends the inner span's opening tag. */
  predicate ButtonMarks(w: string, o: nat) {
    && o + 97 <= |w|
    && w[o + 1] == 'b' && w[o + 34] == 'i' && OccursAt(w, SpanOpen, o + 56) && w[o + 74] == '>'
    && OccursAt(w, SpanClose, o + 77) && w[o + 85] == '/' && w[o + 86] == 'i'
    && w[o + 89] == '/' && w[o + 90] == 'b'
    && NoChar(w, '<', o + 1, o + 33) && NoChar(w, '<', o + 34, o + 56) && NoChar(w, '<', o + 57, o + 77)
    && NoChar(w, '<', o + 78, o + 84) && NoChar(w, '<', o + 85, o + 88) && NoChar(w, '<', o + 89, o + 97)
  }

  predicate WitnessShape(w: string) {
    && |w| == 212 && TagMarks(w) && LabelMarks(w, 93) && ButtonMarks(w, 108)
    && OccursAt(w, SpanClose, 205) && NoChar(w, '<', 206, 212)
  }

  lemma TagHasMarks(w: string)
    requires TagParts(w)
    ensures TagMarks(w)
  {
    LettersOfTags();
    TagHoldsNoGt(w);
    TagKeyGaps(w);
    TagClassGaps(w);
  }

  lemma LabelHasMarks(w: string, o: nat)
    requires LabelParts(w, o)
    ensures LabelMarks(w, o)
  {
    LettersOfTags();
    LettersOfLabel();
    PartsShift(w, o, SpanOpen);
    NoCharOver(w, o + 1, o + 5, "span", '<');
    NoCharOver(w, o + 5, o + 8, ">이름", '<');
    NoCharJoin(w, '<', o + 1, o + 5, o + 8);
  }

  lemma ButtonHasMarks(w: string, o: nat)
    requires ButtonParts(w, o)
    ensures ButtonMarks(w, o)
  {
    ButtonTagsMarks(w, o);
    ButtonLabelMarks(w, o);
  }

  lemma ButtonTagsMarks(w: string, o: nat)
    requires ButtonParts(w, o)
    ensures w[o + 1] == 'b' && w[o + 34] == 'i'
    ensures NoChar(w, '<', o + 1, o + 33) && NoChar(w, '<', o + 34, o + 56)
  {
    LettersOfButtonTags();
    LettersOfButtonAttrs();
    PartsShift(w, o, "<button");
    PartsShift(w, o + 33, "<i");
    NoCharOver(w, o + 1, o + 7, "button", '<');
    NoCharOver(w, o + 7, o + 33, ButtonAttr, '<');
    NoCharJoin(w, '<', o + 1, o + 7, o + 33);
    NoCharOver(w, o + 34, o + 35, "i", '<');
    NoCharOver(w, o + 35, o + 56, IconAttr, '<');
    NoCharJoin(w, '<', o + 34, o + 35, o + 56);
  }

  lemma ButtonLabelMarks(w: string, o: nat)
    requires ButtonParts(w, o)
    ensures OccursAt(w, SpanOpen, o + 56) && w[o + 74] == '>' && OccursAt(w, SpanClose, o + 77)
    ensures w[o + 85] == '/' && w[o + 86] == 'i' && w[o + 89] == '/' && w[o + 90] == 'b'
    ensures NoChar(w, '<', o + 57, o + 77) && NoChar(w, '<', o + 78, o + 84)
    ensures NoChar(w, '<', o + 85, o + 88) && NoChar(w, '<', o + 89, o + 97)
  {
    ButtonInnerSpanMarks(w, o);
    ButtonClosingMarks(w, o);
  }

  lemma ButtonInnerSpanMarks(w: string, o: nat)
    requires ButtonParts(w, o)
    ensures OccursAt(w, SpanOpen, o + 56) && w[o + 74] == '>' && NoChar(w, '<', o + 57, o + 77)
  {
    LettersOfTags();
    LettersOfA11yAttr();
    PartsShift(w, o + 56, SpanOpen);
    assert w[o + 74] == A11yAttr[13] by { assert w[o + 61..o + 75][13] == w[o + 74]; }
    NoCharOver(w, o + 57, o + 61, "span", '<');
    NoCharOver(w, o + 61, o + 75, A11yAttr, '<');
    NoCharOver(w, o + 75, o + 77, "삭제", '<');
    NoCharJoin(w, '<', o + 57, o + 61, o + 75);
    NoCharJoin(w, '<', o + 57, o + 75, o + 77);
  }

  lemma ButtonClosingMarks(w: string, o: nat)
    requires ButtonParts(w, o)
    ensures OccursAt(w, SpanClose, o + 77)
    ensures w[o + 85] == '/' && w[o + 86] == 'i' && w[o + 89] == '/' && w[o + 90] == 'b'
    ensures NoChar(w, '<', o + 78, o + 84) && NoChar(w, '<', o + 85, o + 88) && NoChar(w, '<', o + 89, o + 97)
  {
    LettersOfTags();
    LettersOfClosingTags();
    PartsShift(w, o + 77, SpanClose);
    PartsShift(w, o + 84, "</i>");
    PartsShift(w, o + 88, "</button>");
    NoCharOver(w, o + 78, o + 84, "/span>", '<');
    NoCharOver(w, o + 85, o + 88, "/i>", '<');
    NoCharOver(w, o + 89, o + 97, "/button>", '<');
  }

  lemma WitnessHasShape()
    ensures WitnessShape(Witness)
  {
    var w := Witness;
    WitnessHasParts();
    TagHasMarks(w);
    LabelHasMarks(w, 93);
    ButtonHasMarks(w, 108);
    LettersOfTags();
    PartsShift(w, 205, SpanClose);
    NoCharOver(w, 206, 212, "/span>", '<');
  }
  /** No `</span>` starts at `k` when the two characters after it rule it out. */
  lemma NoCloseAt(s: string, k: nat)
    requires k + 2 < |s| && (s[k + 1] != '/' || s[k + 2] != 's')
    ensures !OccursAt(s, SpanClose, k)
  {
    LettersOfTags();
    if k + 7 <= |s| {
      assert s[k..k + 7][1] == s[k + 1] && s[k..k + 7][2] == s[k + 2];
    }
  }

  /** No `<span` starts at `k` when the character after it rules it out. */
  lemma NoOpenAt(s: string, k: nat)
    requires k + 1 < |s| && s[k + 1] != 's'
    ensures !OccursAt(s, SpanOpen, k)
  {
    LettersOfTags();
    if k + 5 <= |s| {
      assert s[k..k + 5][1] == s[k + 1];
    }
  }

  /** Neither tag starts at `k` when the next characters rule both out. */
  lemma NoTagAt(s: string, k: nat)
    requires k + 2 < |s| && s[k + 1] != 's' && (s[k + 1] != '/' || s[k + 2] != 's')
    ensures !OccursAt(s, SpanClose, k) && !OccursAt(s, SpanOpen, k)
  {
    NoCloseAt(s, k);
    NoOpenAt(s, k);
  }

  /** The character after the start of a tag. */
  lemma TagLetters(s: string, k: nat)
    requires OccursAt(s, SpanOpen, k) || OccursAt(s, SpanClose, k)
    ensures OccursAt(s, SpanOpen, k) ==> s[k + 1] == 's'
    ensures OccursAt(s, SpanClose, k) ==> s[k + 1] == '/' && s[k + 2] == 's'
  {
    LettersOfTags();
    if OccursAt(s, SpanOpen, k) {
      assert s[k..k + 5][1] == s[k + 1];
    }
    if OccursAt(s, SpanClose, k) {
      assert s[k..k + 7][1] == s[k + 1] && s[k..k + 7][2] == s[k + 2];
    }
  }

  /** Where the label's content ends, by each rule: the lazy rule stops at the label's
      `</span>` at 101; the balanced one counts the label span and moves on. */
  lemma LabelCloses(w: string)
    requires LabelMarks(w, 93)
    ensures FirstClose(w, 93) == Some(101)
    ensures CloseOf(w, 93, 0) == CloseOf(w, 108, 0)
  {
    TagLetters(w, 93);
    NoCloseAt(w, 93);
    forall k | 93 < k < 101
      ensures !OccursAt(w, SpanClose, k)
    {
      NoTagWithoutLt(w, k);
    }
    FirstCloseAt(w, 93, 101);
    assert CloseOf(w, 93, 0) == CloseOf(w, 98, 1);
    CloseOfSkip(w, 98, 101, 1);
    assert CloseOf(w, 101, 1) == CloseOf(w, 108, 0);
  }

  /** The balanced rule walks through the delete button to the token's own `</span>`. */
  lemma ButtonCloses(w: string)
    requires WitnessShape(w)
    ensures CloseOf(w, 108, 0) == Some(205)
  {
    ButtonClosesInner(w);
    TagLetters(w, 185);
    assert CloseOf(w, 185, 1) == CloseOf(w, 192, 0);
    ButtonClosesOuter(w);
  }

  lemma ButtonClosesInner(w: string)
    requires ButtonMarks(w, 108)
    ensures CloseOf(w, 108, 0) == CloseOf(w, 185, 1)
  {
    NoTagAt(w, 108);
    CloseOfSkip(w, 109, 141, 0);
    NoTagAt(w, 141);
    CloseOfSkip(w, 142, 164, 0);
    TagLetters(w, 164);
    NoCloseAt(w, 164);
    CloseOfSkip(w, 169, 185, 1);
  }

  lemma ButtonClosesOuter(w: string)
    requires ButtonMarks(w, 108) && OccursAt(w, SpanClose, 205)
    ensures CloseOf(w, 192, 0) == Some(205)
  {
    NoTagAt(w, 192);
    CloseOfSkip(w, 193, 196, 0);
    NoTagAt(w, 196);
    CloseOfSkip(w, 197, 205, 0);
  }
  /** Where the token's content ends, by each rule: the lazy rule stops at the label's
      `</span>` at 101, the balanced one at the token's own at 205. */
  lemma WitnessCloses(w: string)
    requires WitnessShape(w)
    ensures ElementClose(w, 93, false) == Some(101)
    ensures ElementClose(w, 93, true) == Some(205)
  {
    LabelCloses(w);
    ButtonCloses(w);
  }

  lemma WitnessCompletion(w: string, balanced: bool)
    requires WitnessShape(w)
    ensures Completion(w, 51, balanced) == Some(Tail("name", 73, 92, if balanced then 205 else 101))
  {
    WitnessCloses(w);
    FirstCharAt(w, '"', 69, 73);
    FirstCharAt(w, '>', 74, 92);
  }

  /** The one match at the start: `class="custom-alias"` at 6 and `data-alias-value="`
      at 51 are the only candidates the opening tag offers. */
  lemma WitnessMatch(w: string, balanced: bool)
    requires WitnessShape(w)
    ensures MatchAt(w, 0, balanced) == Some(Hit(6, 51, Tail("name", 73, 92, if balanced then 205 else 101)))
  {
    WitnessCompletion(w, balanced);
    assert ValidAt(w, 0, 6, 51, balanced);
    MatchAtFirst(w, 0, balanced);
    var m := MatchAt(w, 0, balanced).value;
    ValueInTag(w, m.classAt, m.valueAt, balanced);
    ClassAtSix(w, m.classAt);
    ValueAtFiftyOne(w, m.valueAt);
  }

  /** A match at 0 keeps `data-alias-value="` inside the opening tag. */
  lemma ValueInTag(w: string, c: nat, d: nat, balanced: bool)
    requires TagMarks(w) && ValidAt(w, 0, c, d, balanced)
    ensures d + 18 <= 92
  {
  }

  lemma ClassAtSix(w: string, c: nat)
    requires TagMarks(w) && 6 <= c <= 54 && OccursAt(w, ClassAttr, c)
    ensures c == 6
  {
    FirstLettersOfClassAttr();
    assert w[c] == 'c' && w[c + 1] == 'l' by { assert w[c..c + 20][0] == w[c] && w[c..c + 20][1] == w[c + 1]; }
  }

  lemma ValueAtFiftyOne(w: string, d: nat)
    requires TagMarks(w) && 51 <= d <= 74 && OccursAt(w, ValueAttr, d)
    ensures d == 51
  {
    NoCInValueAttr();
    assert w[d] == 'd' by { assert w[d..d + 18][0] == w[d]; }
  }

  /** No match starts inside the delete button: the inner span's opening tag ends at 182,
      before any `data-alias-value="` after it could end. */
  lemma NoMatchInButton(w: string, j: nat)
    requires WitnessShape(w) && 108 <= j < 212
    ensures MatchAt(w, j, false).None?
  {
    if j == 164 {
      assert w[182] == '>';
    } else if j in {108, 141, 185, 192, 196, 205} {
      TagLetters(w, 185);
      TagLetters(w, 205);
      NoOpenAt(w, j);
    } else {
      NoTagWithoutLt(w, j);
    }
  }

  /** After the early end, the delete button and the token's own `</span>` are left
      over as plain text. */
  lemma WitnessRestIsText(w: string, aliases: map<string, string>)
    requires WitnessShape(w)
    ensures Replace(w, aliases, 108, false) == w[108..]
  {
    forall j | 108 <= j < 212
      ensures MatchAt(w, j, false).None?
    {
      NoMatchInButton(w, j);
    }
    UnmatchedTextKept(w, aliases, 108, 212, false);
  }

  lemma LazyOnShape(w: string, v: string)
    requires WitnessShape(w) && v != ""
    ensures ReplaceAliasesToRealValue(w, map["name" := v]) == v + w[108..]
  {
    var aliases := map["name" := v];
    WitnessMatch(w, false);
    MatchReplaced(w, aliases, 0, false);
    WitnessRestIsText(w, aliases);
  }

  lemma BalancedOnShape(w: string, v: string)
    requires WitnessShape(w) && v != ""
    ensures ReplaceAliasTokens(w, map["name" := v]) == v
  {
    var aliases := map["name" := v];
    WitnessMatch(w, true);
    MatchReplaced(w, aliases, 0, true);
    assert Replace(w, aliases, 212, true) == "";
  }

  /** As written, the token `renderAlias` renders is replaced only up to its label's
      `</span>`: the value is followed by the delete button's markup and a stray
      `</span>`. */
  lemma LazyCloseLeavesStrayTag()
    ensures ReplaceAliasesToRealValue(Witness, map["name" := "홍길동"]) == "홍길동" + DeleteButton + SpanClose
  {
    WitnessHasShape();
    LazyOnShapes("홍길동");
    WitnessRest();
  }

  lemma LazyOnShapes(v: string)
    requires v != ""
    ensures forall w :: WitnessShape(w) ==> ReplaceAliasesToRealValue(w, map["name" := v]) == v + w[108..]
  {
    forall w | WitnessShape(w)
      ensures ReplaceAliasesToRealValue(w, map["name" := v]) == v + w[108..]
    {
      LazyOnShape(w, v);
    }
  }

  lemma WitnessRest()
    ensures Witness[108..] == DeleteButton + SpanClose
  {
    TokenTagParts();
    TokenLabelParts();
    FourParts(TokenTag, TokenLabel, DeleteButton, SpanClose);
  }

  /** With the balanced end, the whole token is replaced by its value. */
  lemma BalancedCloseReplacesToken()
    ensures ReplaceAliasTokens(Witness, map["name" := "홍길동"]) == "홍길동"
  {
    WitnessHasShape();
    BalancedOnShapes("홍길동");
  }

  lemma BalancedOnShapes(v: string)
    requires v != ""
    ensures forall w :: WitnessShape(w) ==> ReplaceAliasTokens(w, map["name" := v]) == v
  {
    forall w | WitnessShape(w)
      ensures ReplaceAliasTokens(w, map["name" := v]) == v
    {
      BalancedOnShape(w, v);
    }
  }
}
