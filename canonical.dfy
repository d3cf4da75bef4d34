/**
 * The canonical version of a migration name: the 12-digit timestamp that the
 * pattern  m?(\d{6}_?\d{6})(\D.*)?$  (case-insensitive, dot matches newline)
 * captures, with the underscore removed, or the whole name when nothing matches.
 *
 * The pattern is unanchored on the left and anchored on the right. Neither the
 * optional leading "m" nor the optional underscore can shift where the captured
 * group starts (a letter and an underscore are never digits), so the group
 * starts at the leftmost index where a block, as BlockAt defines it, begins.
 */
module Canonical {
  import opened Wrappers

  /** \d without the Unicode flag: an ASCII digit. */
  predicate IsDigit(c: char) {
    '0' <= c <= '9'
  }

  /** s[i..i + n] exists and consists of digits. */
  predicate DigitsAt(s: string, i: nat, n: nat) {
    i + n <= |s| && forall k :: i <= k < i + n ==> IsDigit(s[k])
  }

  /** (\D.*)?$ can match from index j: the string ends there or a non-digit follows. */
  predicate TailAt(s: string, j: nat) {
    j == |s| || (j < |s| && !IsDigit(s[j]))
  }

  /** \d{6}_?\d{6}(\D.*)?$ matches from index i. The greedy _? takes an underscore when one is there. */
  predicate BlockAt(s: string, i: nat) {
    DigitsAt(s, i, 6) &&
    if i + 6 < |s| && s[i + 6] == '_' then DigitsAt(s, i + 7, 6) && TailAt(s, i + 13)
    else DigitsAt(s, i + 6, 6) && TailAt(s, i + 12)
  }

  /** A block starts at i and at no earlier index: where preg_match's capture begins. */
  predicate LeftmostBlock(s: string, i: nat) {
    i < |s| && BlockAt(s, i) && forall j :: 0 <= j < i ==> !BlockAt(s, j)
  }

  /** The captured group with the underscore removed (str_replace('_', '', ...)). */
  function BlockDigits(s: string, i: nat): (d: string)
    requires BlockAt(s, i)
    ensures |d| == 12 && forall k :: 0 <= k < 12 ==> IsDigit(d[k])
  {
    if s[i + 6] == '_' then s[i..i + 6] + s[i + 7..i + 13] else s[i..i + 12]
  }

  /** The regex engine's left-to-right scan for a match start, from index `from`. */
  function FindBlock(s: string, from: nat): (r: Option<nat>)
    requires from <= |s|
    ensures r.Some? ==> from <= r.value < |s| && BlockAt(s, r.value)
    ensures r.Some? ==> forall j :: from <= j < r.value ==> !BlockAt(s, j)
    ensures r.None? ==> forall j :: from <= j < |s| ==> !BlockAt(s, j)
    decreases |s| - from
  {
    if from == |s| then None
    else if BlockAt(s, from) then Some(from)
    else FindBlock(s, from + 1)
  }

  /** The canonical version the controller stores in each history row. */
  function Canonicalize(version: string): (c: string)
    ensures c == version || (|c| == 12 && forall k :: 0 <= k < 12 ==> IsDigit(c[k]))
  {
    match FindBlock(version, 0)
    case Some(i) => BlockDigits(version, i)
    case None => version
  }

  /**
   * The canonical version is the leftmost block's twelve digits when a block
   * begins anywhere in the name, and the name itself when none does.
   */
  lemma CanonicalizeSpec(version: string)
    ensures (forall i :: 0 <= i < |version| ==> !BlockAt(version, i)) ==> Canonicalize(version) == version
    ensures forall i :: LeftmostBlock(version, i) ==> Canonicalize(version) == BlockDigits(version, i)
    ensures (exists i :: 0 <= i < |version| && BlockAt(version, i)) <==>
              |Canonicalize(version)| == 12 && (forall k :: 0 <= k < 12 ==> IsDigit(Canonicalize(version)[k]))
  {
    if |version| == 12 && forall k :: 0 <= k < 12 ==> IsDigit(version[k]) {
      assert DigitsAt(version, 0, 6) && DigitsAt(version, 6, 6) && TailAt(version, 12);
      assert BlockAt(version, 0);
    }
  }

  /**
   * Both naming conventions canonicalise to the bare timestamp: a prefix without
   * digits ("m", "M", a namespace such as "app\migrations\M"), six digits, an
   * optional underscore, six digits, and a descriptor that does not start with a digit.
   */
  lemma CanonicalizeTimestampName(prefix: string, d1: string, sep: string, d2: string, tail: string)
    requires forall k :: 0 <= k < |prefix| ==> !IsDigit(prefix[k])
    requires |d1| == 6 && (forall k :: 0 <= k < 6 ==> IsDigit(d1[k]))
    requires |d2| == 6 && (forall k :: 0 <= k < 6 ==> IsDigit(d2[k]))
    requires sep == "" || sep == "_"
    requires tail == "" || !IsDigit(tail[0])
    ensures Canonicalize(prefix + d1 + sep + d2 + tail) == d1 + d2
  {
    var v := prefix + d1 + sep + d2 + tail;
    var p := |prefix|;
    assert forall k :: 0 <= k < 6 ==> v[p + k] == d1[k];
    assert forall k :: 0 <= k < 6 ==> v[p + 6 + |sep| + k] == d2[k];
    assert |sep| == 1 ==> v[p + 6] == '_';
    assert |sep| == 0 ==> v[p + 6] == d2[0];
    assert tail != "" ==> v[p + 12 + |sep|] == tail[0];
    assert BlockAt(v, p);
    forall j | 0 <= j < p ensures !BlockAt(v, j) {
      assert v[j] == prefix[j];
    }
    assert LeftmostBlock(v, p);
    CanonicalizeSpec(v);
    if sep == "" {
      assert v[p..p + 12] == d1 + d2;
    } else {
      assert v[p..p + 6] == d1 && v[p + 7..p + 13] == d2;
    }
  }

  /** A name in which no block begins is its own canonical version (never the empty string). */
  lemma CanonicalizeFreeFormName(version: string)
    requires forall k :: 0 <= k < |version| ==> !IsDigit(version[k])
    ensures Canonicalize(version) == version
  {
    forall i | 0 <= i < |version| ensures !BlockAt(version, i) {
      assert !IsDigit(version[i]);
    }
    CanonicalizeSpec(version);
  }

  /** In "m20230615_101500_init" the first block starts at index 3. */
  lemma LeftmostBlockOfUnderscoreName()
    ensures LeftmostBlock("m20230615_101500_init", 3)
  {
    var u := "m20230615_101500_init";
    assert !IsDigit(u[0]) && !IsDigit(u[9]) && u[9] == '_' && !IsDigit(u[16]);
    assert !BlockAt(u, 0) && !BlockAt(u, 1) && !BlockAt(u, 2);
    assert DigitsAt(u, 3, 6) && DigitsAt(u, 10, 6) && TailAt(u, 16);
  }

  /** In "20230615101500desc" the first block starts at index 2. */
  lemma LeftmostBlockOfPlainName()
    ensures LeftmostBlock("20230615101500desc", 2)
  {
    var d := "20230615101500desc";
    assert IsDigit(d[12]) && IsDigit(d[13]) && !IsDigit(d[14]);
    assert !BlockAt(d, 0) && !BlockAt(d, 1);
    assert DigitsAt(d, 2, 6) && DigitsAt(d, 8, 6) && TailAt(d, 14);
  }

  /** With the underscore after the date, the leftmost block starts three characters in. */
  lemma CanonicalizeEightDigitDateUnderscore()
    ensures Canonicalize("m20230615_101500_init") == "230615101500"
  {
    var u := "m20230615_101500_init";
    LeftmostBlockOfUnderscoreName();
    CanonicalizeSpec(u);
    assert u[3..9] == "230615" && u[10..16] == "101500";
  }

  /** Run together with its descriptor, the same timestamp's block starts two digits in. */
  lemma CanonicalizeEightDigitDatePlain()
    ensures Canonicalize("20230615101500desc") == "230615101500"
  {
    var d := "20230615101500desc";
    LeftmostBlockOfPlainName();
    CanonicalizeSpec(d);
    assert d[2..8] == "230615" && d[8..14] == "101500";
    assert d[2..14] == d[2..8] + d[8..14];
  }

  /** An eight-digit date, with or without the underscore, gives both names the same canonical version. */
  lemma CanonicalizeEightDigitDates()
    ensures Canonicalize("m20230615_101500_init") == Canonicalize("20230615101500desc")
  {
    CanonicalizeEightDigitDateUnderscore();
    CanonicalizeEightDigitDatePlain();
  }
}
