/**
 * String comparison as the controller and the store perform it.
 *
 * Strings are sequences of code points; for UTF-8 encoded text the byte order
 * that the store and PHP compare by coincides with code point order, and ASCII
 * case folding touches the same characters, so the results agree.
 */
module Strcmp {

  /** Sign of an integer: -1, 0 or 1. */
  function Sign(x: int): (r: int)
    ensures -1 <= r <= 1
    ensures (r < 0 <==> x < 0) && (r == 0 <==> x == 0)
  {
    if x < 0 then -1 else if x == 0 then 0 else 1
  }

  /**
   * Binary three-way compare: the first differing character decides, and a
   * proper prefix sorts first. This is the order of the store's String column.
   */
  function LexCmp(a: string, b: string): (r: int)
    ensures -1 <= r <= 1
  {
    if a == [] && b == [] then 0
    else if a == [] then -1
    else if b == [] then 1
    else if a[0] < b[0] then -1
    else if a[0] > b[0] then 1
    else LexCmp(a[1..], b[1..])
  }

  lemma {:induction false} LexCmpZero(a: string, b: string)
    ensures LexCmp(a, b) == 0 <==> a == b
  {
    if a != [] && b != [] && a[0] == b[0] {
      LexCmpZero(a[1..], b[1..]);
      assert a == [a[0]] + a[1..] && b == [b[0]] + b[1..];
    }
  }

  lemma {:induction false} LexCmpAntisymmetric(a: string, b: string)
    ensures LexCmp(a, b) == -LexCmp(b, a)
  {
    if a != [] && b != [] && a[0] == b[0] {
      LexCmpAntisymmetric(a[1..], b[1..]);
    }
  }

  lemma {:induction false} LexCmpTransitive(a: string, b: string, c: string)
    requires LexCmp(a, b) <= 0 && LexCmp(b, c) <= 0
    ensures LexCmp(a, c) <= 0
  {
    if a != [] && b != [] && c != [] && a[0] == b[0] && b[0] == c[0] {
      LexCmpTransitive(a[1..], b[1..], c[1..]);
    }
  }

  /** ASCII-only lower-casing, as PHP 8's strcasecmp applies it per byte. */
  function ToLowerAscii(c: char): (l: char)
    ensures 'A' <= c <= 'Z' ==> l as int == c as int + 32
    ensures !('A' <= c <= 'Z') ==> l == c
  {
    if 'A' <= c <= 'Z' then (c as int + 32) as char else c
  }

  /** The string with every ASCII capital replaced by its lower-case letter. */
  function Fold(s: string): (f: string)
    ensures |f| == |s|
    ensures forall i :: 0 <= i < |s| ==> f[i] == ToLowerAscii(s[i])
  {
    if s == [] then [] else [ToLowerAscii(s[0])] + Fold(s[1..])
  }

  /**
   * strcasecmp: walk both strings while their folded characters agree; the
   * first folded difference decides, otherwise the length difference does.
   * Only the sign of PHP's result is kept, which is all the comparator uses.
   */
  function StrCaseCmp(a: string, b: string): (r: int)
    ensures -1 <= r <= 1
  {
    if a == [] || b == [] then Sign(|a| - |b|)
    else if ToLowerAscii(a[0]) != ToLowerAscii(b[0]) then
      Sign(ToLowerAscii(a[0]) as int - ToLowerAscii(b[0]) as int)
    else StrCaseCmp(a[1..], b[1..])
  }

  /** strcasecmp is the binary compare of the case-folded strings. */
  lemma {:induction false} StrCaseCmpIsFoldedLexCmp(a: string, b: string)
    ensures StrCaseCmp(a, b) == LexCmp(Fold(a), Fold(b))
  {
    if a != [] && b != [] {
      assert Fold(a)[1..] == Fold(a[1..]);
      assert Fold(b)[1..] == Fold(b[1..]);
      StrCaseCmpIsFoldedLexCmp(a[1..], b[1..]);
    }
  }

  lemma StrCaseCmpZero(a: string, b: string)
    ensures StrCaseCmp(a, b) == 0 <==> Fold(a) == Fold(b)
  {
    StrCaseCmpIsFoldedLexCmp(a, b);
    LexCmpZero(Fold(a), Fold(b));
  }

  lemma StrCaseCmpAntisymmetric(a: string, b: string)
    ensures StrCaseCmp(a, b) == -StrCaseCmp(b, a)
  {
    StrCaseCmpIsFoldedLexCmp(a, b);
    StrCaseCmpIsFoldedLexCmp(b, a);
    LexCmpAntisymmetric(Fold(a), Fold(b));
  }

  lemma StrCaseCmpTransitive(a: string, b: string, c: string)
    requires StrCaseCmp(a, b) <= 0 && StrCaseCmp(b, c) <= 0
    ensures StrCaseCmp(a, c) <= 0
  {
    StrCaseCmpIsFoldedLexCmp(a, b);
    StrCaseCmpIsFoldedLexCmp(b, c);
    StrCaseCmpIsFoldedLexCmp(a, c);
    LexCmpTransitive(Fold(a), Fold(b), Fold(c));
  }

  /** Letters that differ only in ASCII case compare equal. */
  lemma StrCaseCmpIgnoresCase(a: string, b: string)
    requires |a| == |b|
    requires forall i :: 0 <= i < |a| ==> ToLowerAscii(a[i]) == ToLowerAscii(b[i])
    ensures StrCaseCmp(a, b) == 0
  {
    StrCaseCmpZero(a, b);
    assert Fold(a) == Fold(b);
  }
}
