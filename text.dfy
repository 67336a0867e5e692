/**
 * Character classes and string operations that the scraper borrows from
 * Python: `str.lower`, `in` on strings, `str.startswith`, `int()` on a run of
 * digits, and the classes `\d`, `\w` and `\s` of Python's `re` module.
 */
module Text {

  /** `\d`, restricted to the ASCII digits. */
  predicate IsDigit(c: char) {
    '0' <= c <= '9'
  }

  predicate IsUpperAscii(c: char) {
    'A' <= c <= 'Z'
  }

  predicate IsLowerAscii(c: char) {
    'a' <= c <= 'z'
  }

  /** `\w` (the side test of `\b`), restricted to ASCII letters, digits and `_`. */
  predicate IsWordChar(c: char) {
    IsDigit(c) || IsUpperAscii(c) || IsLowerAscii(c) || c == '_'
  }

  /** `\s` of a `str` pattern: every character for which `str.isspace()` holds. */
  predicate IsSpace(c: char) {
    || c == ' ' || ('\t' <= c <= '\r') || ('\U{1C}' <= c <= '\U{1F}')
    || c == '\U{85}' || c == '\U{A0}' || c == '\U{1680}'
    || ('\U{2000}' <= c <= '\U{200A}') || c == '\U{2028}' || c == '\U{2029}'
    || c == '\U{202F}' || c == '\U{205F}' || c == '\U{3000}'
  }

  /** ASCII letter folded to lower case; every other character unchanged. */
  function FoldAscii(c: char): char {
    if IsUpperAscii(c) then (c as int + 32) as char else c
  }

  /**
   * `str.lower()` of one character, as far as it can produce ASCII letters:
   * ASCII capitals, the Kelvin sign (lower-cased to `k`) and the capital I
   * with dot above (lower-cased to `i` followed by a combining dot).
   */
  function LowerChar(c: char): (r: string)
    ensures IsLowerAscii(c) ==> r == [c]
  {
    if IsUpperAscii(c) then [FoldAscii(c)]
    else if c == '\U{212A}' then "k"
    else if c == '\U{130}' then "i\U{307}"
    else [c]
  }

  /** `s.lower()`. */
  function Lower(s: string): string
  {
    if s == [] then [] else Lower(s[..|s| - 1]) + LowerChar(s[|s| - 1])
  }

  /** `t` is `s` with the case of some ASCII letters changed. */
  predicate CaseVariant(s: string, t: string) {
    |s| == |t| && forall k :: 0 <= k < |s| ==> FoldAscii(s[k]) == FoldAscii(t[k])
  }

  /** Lower-casing forgets the case of ASCII letters. */
  lemma {:induction false} LowerIgnoresCase(s: string, t: string)
    requires CaseVariant(s, t)
    ensures Lower(s) == Lower(t)
  {
    if s != [] {
      var n := |s| - 1;
      assert CaseVariant(s[..n], t[..n]);
      LowerIgnoresCase(s[..n], t[..n]);
      assert FoldAscii(s[n]) == FoldAscii(t[n]);
      assert LowerChar(s[n]) == LowerChar(t[n]) by {
        if IsUpperAscii(s[n]) || IsUpperAscii(t[n]) {
          assert IsLowerAscii(FoldAscii(s[n]));
        }
      }
    }
  }

  /** `needle` occurs at position `i` of `s`. */
  predicate OccursAt(s: string, needle: string, i: int) {
    0 <= i && i + |needle| <= |s| && s[i..i + |needle|] == needle
  }

  /** Python's `needle in hay` on strings. */
  predicate Contains(hay: string, needle: string)
    decreases |hay|
  {
    if |hay| < |needle| then false
    else needle <= hay || Contains(hay[1..], needle)
  }

  /** `needle in hay` holds exactly when `needle` occurs at some position of `hay`. */
  lemma {:induction false} ContainsIff(hay: string, needle: string)
    ensures Contains(hay, needle) <==> exists i :: OccursAt(hay, needle, i)
    decreases |hay|
  {
    if |hay| < |needle| {
      forall i | OccursAt(hay, needle, i) ensures false { }
    } else if needle <= hay {
      assert OccursAt(hay, needle, 0);
    } else {
      ContainsIff(hay[1..], needle);
      if Contains(hay[1..], needle) {
        var i :| OccursAt(hay[1..], needle, i);
        assert hay[1..][i..i + |needle|] == hay[i + 1..i + 1 + |needle|];
        assert OccursAt(hay, needle, i + 1);
      } else {
        forall i | OccursAt(hay, needle, i) ensures false {
          if i == 0 {
            assert false;
          } else {
            assert hay[1..][i - 1..i - 1 + |needle|] == hay[i..i + |needle|];
            assert OccursAt(hay[1..], needle, i - 1);
          }
        }
      }
    }
  }

  /** `s.startswith(prefix)`. */
  predicate StartsWith(s: string, prefix: string) {
    prefix <= s
  }

  /** `int(digits)` for a non-empty run of ASCII digits. */
  function DecimalValue(digits: string): nat
    requires forall k :: 0 <= k < |digits| ==> IsDigit(digits[k])
  {
    if digits == [] then 0
    else 10 * DecimalValue(digits[..|digits| - 1]) + DigitValue(digits[|digits| - 1])
  }

  function DigitValue(c: char): (v: nat)
    requires IsDigit(c)
    ensures v < 10
  {
    c as int - '0' as int
  }
}
