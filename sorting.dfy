/**
 * Sorting by a comparator, and taking a prefix of bounded length.
 *
 * `before(a, b)` means that a may come first; for the comparators of this
 * project it is a total preorder, so ties are possible and a sorted result is
 * determined only up to the order of tied elements.
 */
module Sorting {
  import opened Wrappers

  ghost predicate TotalPreorder<T(!new)>(before: (T, T) -> bool) {
    && (forall a, b :: before(a, b) || before(b, a))
    && (forall a, b, c :: before(a, b) && before(b, c) ==> before(a, c))
  }

  ghost predicate SortedBy<T>(s: seq<T>, before: (T, T) -> bool) {
    forall i, j :: 0 <= i < j < |s| ==> before(s[i], s[j])
  }

  /** Put x after every element it does not strictly precede. */
  function InsertBy<T>(s: seq<T>, x: T, before: (T, T) -> bool): (r: seq<T>)
    ensures |r| == |s| + 1
    ensures multiset(r) == multiset(s) + multiset{x}
  {
    if s == [] then [x]
    else if before(s[0], x) then
      assert s == [s[0]] + s[1..];
      [s[0]] + InsertBy(s[1..], x, before)
    else [x] + s
  }

  /** Insertion sort, taking the elements in their given order. */
  function SortBy<T>(s: seq<T>, before: (T, T) -> bool): (r: seq<T>)
    ensures |r| == |s|
    ensures multiset(r) == multiset(s)
  {
    if s == [] then []
    else
      assert s == s[..|s| - 1] + [s[|s| - 1]];
      InsertBy(SortBy(s[..|s| - 1], before), s[|s| - 1], before)
  }

  lemma {:induction false} InsertBySorted<T(!new)>(s: seq<T>, x: T, before: (T, T) -> bool)
    requires TotalPreorder(before)
    requires SortedBy(s, before)
    ensures SortedBy(InsertBy(s, x, before), before)
  {
    if s == [] {
    } else if before(s[0], x) {
      InsertBySorted(s[1..], x, before);
      var rest := InsertBy(s[1..], x, before);
      forall y | y in rest ensures before(s[0], y) {
        assert y in multiset(rest);
        if y != x {
          assert y in multiset(s[1..]);
          var k :| 0 <= k < |s[1..]| && s[1..][k] == y;
          assert s[k + 1] == y;
        }
      }
      var r := [s[0]] + rest;
      forall i, j | 0 <= i < j < |r| ensures before(r[i], r[j]) {
        if i == 0 {
          assert r[j] == rest[j - 1];
          assert rest[j - 1] in rest;
        } else {
          assert r[i] == rest[i - 1] && r[j] == rest[j - 1];
        }
      }
    } else {
      assert before(x, s[0]);
      var r := [x] + s;
      forall i, j | 0 <= i < j < |r| ensures before(r[i], r[j]) {
        if i == 0 {
          assert r[j] == s[j - 1];
          if j > 1 {
            assert before(s[0], s[j - 1]);
          }
        } else {
          assert r[i] == s[i - 1] && r[j] == s[j - 1];
        }
      }
    }
  }

  /** The result of usort: ordered by the comparator, holding exactly the input elements. */
  lemma {:induction false} SortBySorted<T(!new)>(s: seq<T>, before: (T, T) -> bool)
    requires TotalPreorder(before)
    ensures SortedBy(SortBy(s, before), before)
  {
    if s != [] {
      SortBySorted(s[..|s| - 1], before);
      InsertBySorted(SortBy(s[..|s| - 1], before), s[|s| - 1], before);
    }
  }

  lemma {:induction false} InsertByAfterAll<T>(s: seq<T>, x: T, before: (T, T) -> bool)
    requires forall i :: 0 <= i < |s| ==> before(s[i], x)
    ensures InsertBy(s, x, before) == s + [x]
  {
    if s != [] {
      InsertByAfterAll(s[1..], x, before);
      assert [s[0]] + (s[1..] + [x]) == s + [x];
    }
  }

  /** Sorting an already sorted sequence leaves it as it is. */
  lemma {:induction false} SortBySortedUnchanged<T>(s: seq<T>, before: (T, T) -> bool)
    requires SortedBy(s, before)
    ensures SortBy(s, before) == s
  {
    if s != [] {
      var init := s[..|s| - 1];
      SortBySortedUnchanged(init, before);
      InsertByAfterAll(init, s[|s| - 1], before);
      assert init + [s[|s| - 1]] == s;
    }
  }

  /** Sorting is deterministic and idempotent: a second sort changes nothing. */
  lemma SortByIdempotent<T(!new)>(s: seq<T>, before: (T, T) -> bool)
    requires TotalPreorder(before)
    ensures SortBy(SortBy(s, before), before) == SortBy(s, before)
  {
    SortBySorted(s, before);
    SortBySortedUnchanged(SortBy(s, before), before);
  }

  lemma MultisetSplitAt<T>(s: seq<T>, k: nat)
    requires k < |s|
    ensures multiset(s) == multiset(s[..k] + s[k + 1..]) + multiset{s[k]}
  {
    assert s == s[..k] + [s[k]] + s[k + 1..];
  }

  /** Three elements given in order stay in order. */
  lemma SortByThreeInOrder<T>(x: T, y: T, z: T, before: (T, T) -> bool)
    requires before(x, y) && before(x, z) && before(y, z)
    ensures SortBy([x, y, z], before) == [x, y, z]
  {
    assert SortedBy([x, y, z], before);
    SortBySortedUnchanged([x, y, z], before);
  }

  /** When y strictly follows x, the sort moves x in front of y. */
  lemma SortByThreeSwapped<T>(x: T, y: T, z: T, before: (T, T) -> bool)
    requires before(x, y) && !before(y, x) && before(x, z) && before(y, z)
    ensures SortBy([y, x, z], before) == [x, y, z]
  {
    assert [y, x, z][..2] == [y, x] && [y, x][..1] == [y];
    assert SortBy([y], before) == [y];
    assert SortBy([y, x], before) == [x, y];
    assert [x, y][1..] == [y];
    assert InsertBy([y], z, before) == [y, z];
  }

  /** Where the head of a permutation sits in the other sequence, and what is left on both sides. */
  lemma PermutationRemoveHead<T>(a: seq<T>, b: seq<T>) returns (k: nat)
    requires multiset(a) == multiset(b) && a != []
    ensures k < |b| && b[k] == a[0]
    ensures multiset(a[1..]) == multiset(b[..k] + b[k + 1..])
  {
    var x := a[0];
    assert x in multiset(b);
    k :| 0 <= k < |b| && b[k] == x;
    var b' := b[..k] + b[k + 1..];
    MultisetSplitAt(b, k);
    assert a == [x] + a[1..];
    assert multiset{x} + multiset(a[1..]) == multiset(b') + multiset{x};
    forall y ensures multiset(a[1..])[y] == multiset(b')[y] {
      assert (multiset{x} + multiset(a[1..]))[y] == (multiset(b') + multiset{x})[y];
    }
  }

  /** The first `limit` elements (all of them when there is no limit): SQL LIMIT and array_slice($s, 0, $limit). */
  function Take<T>(s: seq<T>, limit: Option<nat>): (r: seq<T>)
    ensures limit.None? ==> r == s
    ensures limit.Some? ==> |r| == Min(limit.value, |s|)
    ensures r == s[..|r|]
  {
    match limit
    case None => s
    case Some(n) => if n < |s| then s[..n] else s
  }

  lemma TakeMultiset<T>(s: seq<T>, limit: Option<nat>)
    ensures multiset(Take(s, limit)) <= multiset(s)
  {
    var r := Take(s, limit);
    assert s == r + s[|r|..];
  }

  /** A prefix holds no element more often than the whole sequence. */
  lemma PrefixMultiset<T>(p: seq<T>, s: seq<T>)
    requires |p| <= |s| && p == s[..|p|]
    ensures multiset(p) <= multiset(s)
  {
    assert s == p + s[|p|..];
  }

  lemma TakeSorted<T>(s: seq<T>, limit: Option<nat>, before: (T, T) -> bool)
    requires SortedBy(s, before)
    ensures SortedBy(Take(s, limit), before)
  {
    var r := Take(s, limit);
    forall i, j | 0 <= i < j < |r| ensures before(r[i], r[j]) {
      assert r[i] == s[i] && r[j] == s[j];
    }
  }
}
