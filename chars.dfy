/**
 * Character classes and string predicates shared by the query extraction,
 * the suggestion filter and the two substitution routines.
 *
 * The Unicode tables behind `\p{L}` and `String.prototype.toLowerCase` are
 * not reproduced: `IsLetter` and `LowerChar` cover the Latin, Latin-1,
 * Hangul, kana and CJK ranges, and every proof about the editor uses only
 * two facts about them: `'@'` is not an alias character, and lowering a
 * string lowers it one character at a time.
 */
module Chars {

  /** Letters accepted by `\p{L}` in this model. */
  predicate IsLetter(c: char) {
    || ('A' <= c <= 'Z') || ('a' <= c <= 'z')
    || ('\U{00C0}' <= c <= '\U{00D6}') || ('\U{00D8}' <= c <= '\U{00F6}') || ('\U{00F8}' <= c <= '\U{00FF}')
    || ('\U{1100}' <= c <= '\U{11FF}') || ('\U{3131}' <= c <= '\U{318E}') || ('\U{AC00}' <= c <= '\U{D7A3}')
    || ('\U{3041}' <= c <= '\U{3096}') || ('\U{30A1}' <= c <= '\U{30FA}') || ('\U{4E00}' <= c <= '\U{9FFF}')
  }

  /** `\w` outside case-insensitive mode: ASCII letters, digits and underscore. */
  predicate IsWordChar(c: char) {
    ('A' <= c <= 'Z') || ('a' <= c <= 'z') || ('0' <= c <= '9') || c == '_'
  }

  /** The class `[\p{L}\w-]` that a mention query is made of. */
  predicate IsAliasChar(c: char) {
    IsLetter(c) || IsWordChar(c) || c == '-'
  }

  lemma AtIsNotAliasChar()
    ensures !IsAliasChar('@')
  {
  }

  /** Lower-casing of one character (ASCII and Latin-1 capitals). */
  function LowerChar(c: char): char {
    if 'A' <= c <= 'Z' || ('\U{00C0}' <= c <= '\U{00DE}' && c != '\U{00D7}') then
      (c as int + 32) as char
    else
      c
  }

  /** `toLowerCase`, applied character by character. */
  function Lower(s: string): (r: string)
    ensures |r| == |s|
    ensures forall i :: 0 <= i < |s| ==> r[i] == LowerChar(s[i])
  {
    seq(|s|, i requires 0 <= i < |s| => LowerChar(s[i]))
  }

  /** `t` occurs in `s` starting at index `i`. */
  predicate OccursAt(s: string, t: string, i: int) {
    0 <= i && i + |t| <= |s| && s[i..i + |t|] == t
  }

  /** `s.includes(t)`. */
  predicate Includes(s: string, t: string) {
    exists i :: 0 <= i <= |s| - |t| && OccursAt(s, t, i)
  }

  /** The characters that `String.prototype.trim` removes: white space and line terminators. */
  predicate IsJsSpace(c: char) {
    || c == '\t' || c == '\n' || c == '\U{000B}' || c == '\U{000C}' || c == '\r' || c == ' '
    || c == '\U{00A0}' || c == '\U{1680}' || ('\U{2000}' <= c <= '\U{200A}')
    || c == '\U{2028}' || c == '\U{2029}' || c == '\U{202F}' || c == '\U{205F}'
    || c == '\U{3000}' || c == '\U{FEFF}'
  }

  /** `!s || s.trim() === ""`: the string is empty or white space only. */
  predicate IsBlank(s: string) {
    forall i :: 0 <= i < |s| ==> IsJsSpace(s[i])
  }
}
