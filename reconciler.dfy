/**
 * The applied-history view the controller returns, in its two regimes.
 *
 * Without extra migration namespaces the store orders the rows, LIMIT cuts
 * them, and only then is the sentinel dropped. With namespaces the whole table
 * is read, the sentinel dropped, each row given its canonical version, the
 * rows sorted by the three-level comparator, and only then is the limit applied.
 * The view is an ordered list of (version, apply_time) pairs.
 */
module Reconciler {
  import opened Wrappers
  import opened Strcmp
  import opened Canonical
  import opened Sorting
  import opened Ledger

  /** A row as the namespace loop rewrites it, with its canonical version added. */
  datatype Entry = Entry(version: string, applyTime: int, canonicalVersion: string)

  /** The row with its canonical version added: dropping that field gives the row back. */
  function Annotate(r: Row): (e: Entry) {
    Entry(r.version, r.applyTime, Canonicalize(r.version))
  }

  /** The (version, apply_time) pair that ArrayHelper::map keeps of an entry. */
  function ToPair(e: Entry): (r: Row) {
    Row(e.version, e.applyTime)
  }

  function ToPairs(es: seq<Entry>): (rs: seq<Row>)
    ensures |rs| == |es|
    ensures forall i :: 0 <= i < |es| ==> rs[i] == ToPair(es[i])
  {
    if es == [] then [] else [ToPair(es[0])] + ToPairs(es[1..])
  }

  // ---------------------------------------------------------------------------
  // The store's order: ORDER BY apply_time DESC, version DESC

  predicate DbBefore(a: Row, b: Row) {
    a.applyTime > b.applyTime || (a.applyTime == b.applyTime && LexCmp(a.version, b.version) >= 0)
  }

  lemma DbBeforeTotalPreorder()
    ensures TotalPreorder(DbBefore)
  {
    forall a: Row, b: Row ensures DbBefore(a, b) || DbBefore(b, a) {
      LexCmpAntisymmetric(a.version, b.version);
    }
    forall a: Row, b: Row, c: Row | DbBefore(a, b) && DbBefore(b, c) ensures DbBefore(a, c) {
      if a.applyTime == b.applyTime == c.applyTime {
        LexCmpAntisymmetric(a.version, b.version);
        LexCmpAntisymmetric(b.version, c.version);
        LexCmpAntisymmetric(a.version, c.version);
        LexCmpTransitive(c.version, b.version, a.version);
      }
    }
  }

  /** What SELECT version, apply_time ... ORDER BY ... returns: every row, in the store's order. */
  function QueryAll(rows: seq<Row>): (q: seq<Row>)
    ensures |q| == |rows|
    ensures multiset(q) == multiset(rows)
    ensures SortedBy(q, DbBefore)
  {
    DbBeforeTotalPreorder();
    SortBySorted(rows, DbBefore);
    SortBy(rows, DbBefore)
  }

  // ---------------------------------------------------------------------------
  // The usort comparator of the namespace regime

  /**
   * Negative when a goes first: the later apply_time first; for the same
   * apply_time the greater canonical version, then the greater version, both
   * compared without regard to ASCII case.
   */
  function UsortCompare(a: Entry, b: Entry): (r: int)
    ensures -1 <= r <= 1
  {
    if a.applyTime == b.applyTime then
      var c := StrCaseCmp(b.canonicalVersion, a.canonicalVersion);
      if c != 0 then c else StrCaseCmp(b.version, a.version)
    else if a.applyTime > b.applyTime then -1 else 1
  }

  predicate UsortBefore(a: Entry, b: Entry) {
    UsortCompare(a, b) <= 0
  }

  /** Swapping the arguments flips the sign: the comparator is consistent. */
  lemma UsortCompareAntisymmetric(a: Entry, b: Entry)
    ensures UsortCompare(a, b) == -UsortCompare(b, a)
  {
    StrCaseCmpAntisymmetric(a.canonicalVersion, b.canonicalVersion);
    StrCaseCmpAntisymmetric(a.version, b.version);
  }

  /** Two entries tie exactly when all three keys agree up to ASCII case. */
  lemma UsortCompareTie(a: Entry, b: Entry)
    ensures UsortCompare(a, b) == 0 <==>
              a.applyTime == b.applyTime &&
              Fold(a.canonicalVersion) == Fold(b.canonicalVersion) &&
              Fold(a.version) == Fold(b.version)
  {
    StrCaseCmpZero(b.canonicalVersion, a.canonicalVersion);
    StrCaseCmpZero(b.version, a.version);
  }

  lemma UsortCompareTransitive(a: Entry, b: Entry, c: Entry)
    requires UsortCompare(a, b) <= 0 && UsortCompare(b, c) <= 0
    ensures UsortCompare(a, c) <= 0
  {
    if a.applyTime == b.applyTime == c.applyTime {
      var ca, cb, cc := a.canonicalVersion, b.canonicalVersion, c.canonicalVersion;
      StrCaseCmpTransitive(cc, cb, ca);
      if StrCaseCmp(cc, ca) == 0 {
        StrCaseCmpIsFoldedLexCmp(cb, ca);
        StrCaseCmpIsFoldedLexCmp(cb, cc);
        StrCaseCmpZero(cc, ca);
        StrCaseCmpAntisymmetric(cc, cb);
        assert StrCaseCmp(cb, ca) == StrCaseCmp(cb, cc);
        StrCaseCmpTransitive(c.version, b.version, a.version);
      }
    }
  }

  lemma UsortBeforeTotalPreorder()
    ensures TotalPreorder(UsortBefore)
  {
    forall a: Entry, b: Entry ensures UsortBefore(a, b) || UsortBefore(b, a) {
      UsortCompareAntisymmetric(a, b);
    }
    forall a: Entry, b: Entry, c: Entry | UsortBefore(a, b) && UsortBefore(b, c)
      ensures UsortBefore(a, c)
    {
      UsortCompareTransitive(a, b, c);
    }
  }

  /** The tie-break chain on returned pairs, written out. */
  predicate Precedes(a: Row, b: Row) {
    || a.applyTime > b.applyTime
    || (&& a.applyTime == b.applyTime
        && StrCaseCmp(Canonicalize(a.version), Canonicalize(b.version)) > 0)
    || (&& a.applyTime == b.applyTime
        && StrCaseCmp(Canonicalize(a.version), Canonicalize(b.version)) == 0
        && StrCaseCmp(a.version, b.version) >= 0)
  }

  /** The comparator, applied to rows with their canonical versions, is the tie-break chain. */
  lemma UsortBeforeIsPrecedes(a: Row, b: Row)
    ensures UsortBefore(Annotate(a), Annotate(b)) <==> Precedes(a, b)
  {
    StrCaseCmpAntisymmetric(Canonicalize(a.version), Canonicalize(b.version));
    StrCaseCmpAntisymmetric(a.version, b.version);
  }

  // ---------------------------------------------------------------------------
  // The foreach loop of the namespace regime

  /** The rows the loop keeps, in order: every row but the sentinel, with its canonical version. */
  function Collect(rows: seq<Row>): (es: seq<Entry>)
    ensures |es| <= |rows|
  {
    if rows == [] then []
    else
      var last := rows[|rows| - 1];
      Collect(rows[..|rows| - 1]) + (if last.version == BASE_MIGRATION then [] else [Annotate(last)])
  }

  /** The loop skips a sentinel row. */
  lemma CollectSnocSentinel(init: seq<Row>, last: Row)
    requires last.version == BASE_MIGRATION
    ensures Collect(init + [last]) == Collect(init)
  {
    assert (init + [last])[..|init|] == init;
  }

  /** The loop appends the entry of any other row. */
  lemma CollectSnoc(init: seq<Row>, last: Row)
    requires last.version != BASE_MIGRATION
    ensures Collect(init + [last]) == Collect(init) + [Annotate(last)]
  {
    assert (init + [last])[..|init|] == init;
  }

  /** Each kept entry is a non-sentinel row of the input, carrying that row's canonical version. */
  lemma {:induction false} CollectMembers(rows: seq<Row>)
    ensures forall e :: e in Collect(rows) ==>
              e.version != BASE_MIGRATION && e == Annotate(ToPair(e)) && ToPair(e) in rows
  {
    if rows != [] {
      CollectMembers(rows[..|rows| - 1]);
      assert forall r :: r in rows[..|rows| - 1] ==> r in rows;
    }
  }

  lemma ToPairsConcat(a: seq<Entry>, b: seq<Entry>)
    ensures ToPairs(a + b) == ToPairs(a) + ToPairs(b)
  {
  }

  lemma {:induction false} CollectIsWithout(rows: seq<Row>)
    ensures ToPairs(Collect(rows)) == Without(rows, BASE_MIGRATION)
  {
    if rows != [] {
      var init, last := rows[..|rows| - 1], rows[|rows| - 1];
      var tail := if last.version == BASE_MIGRATION then [] else [Annotate(last)];
      assert Collect(rows) == Collect(init) + tail;
      CollectIsWithout(init);
      ToPairsConcat(Collect(init), tail);
      assert ToPairs(tail) == Without([last], BASE_MIGRATION);
      assert rows == init + [last];
      WithoutConcat(init, [last], BASE_MIGRATION);
    }
  }

  lemma ToPairsRemoveAt(b: seq<Entry>, k: nat)
    requires k < |b|
    ensures multiset(ToPairs(b)) == multiset(ToPairs(b[..k] + b[k + 1..])) + multiset{ToPair(b[k])}
  {
    var tb := ToPairs(b);
    var b' := b[..k] + b[k + 1..];
    var tb' := ToPairs(b');
    var r := tb[..k] + tb[k + 1..];
    forall i | 0 <= i < |r| ensures tb'[i] == r[i] {
      if i < k { assert b'[i] == b[i]; } else { assert b'[i] == b[i + 1]; }
    }
    assert tb' == r;
    MultisetSplitAt(tb, k);
  }

  /** Dropping the canonical versions of a permuted list permutes the pairs. */
  lemma {:induction false} ToPairsPermutation(a: seq<Entry>, b: seq<Entry>)
    requires multiset(a) == multiset(b)
    ensures multiset(ToPairs(a)) == multiset(ToPairs(b))
    decreases |a|
  {
    if a == [] {
      assert |b| == |multiset(b)| == 0;
    } else {
      var k := PermutationRemoveHead(a, b);
      ToPairsPermutation(a[1..], b[..k] + b[k + 1..]);
      assert ToPairs(a) == [ToPair(a[0])] + ToPairs(a[1..]);
      ToPairsRemoveAt(b, k);
    }
  }

  // ---------------------------------------------------------------------------
  // The two regimes

  function SingleNamespaceView(rows: seq<Row>, limit: Option<nat>): (h: seq<Row>)
    ensures |h| <= |rows|
    ensures forall r :: r in h ==> r in rows && r.version != BASE_MIGRATION
  {
    var q := QueryAll(rows);
    var t := Take(q, limit);
    assert forall r :: r in t ==> r in q;
    assert forall r :: r in q ==> r in multiset(q) && r in multiset(rows) && r in rows;
    Without(Take(QueryAll(rows), limit), BASE_MIGRATION)
  }

  /** The namespace regime over the rows the unbounded query returned. */
  function NamespacedView(queried: seq<Row>, limit: Option<nat>): (h: seq<Row>)
    ensures |h| <= |queried|
  {
    ToPairs(Take(SortBy(Collect(queried), UsortBefore), limit))
  }

  /** getMigrationHistory's result over the table's rows. */
  function HistoryView(rows: seq<Row>, migrationNamespaces: seq<string>, limit: Option<nat>): (h: seq<Row>)
    ensures |h| <= |rows|
  {
    if |migrationNamespaces| == 0 then SingleNamespaceView(rows, limit)
    else NamespacedView(QueryAll(rows), limit)
  }

  /** The foreach loop, usort, array_slice and ArrayHelper::map of the namespace regime. */
  method NamespacedHistory(queried: seq<Row>, limit: Option<nat>) returns (history: seq<Row>)
    ensures history == NamespacedView(queried, limit)
  {
    var rows: seq<Entry> := [];
    for k := 0 to |queried|
      invariant rows == Collect(queried[..k])
    {
      var row := queried[k];
      assert queried[..k + 1][..k] == queried[..k];
      if row.version == BASE_MIGRATION {
        continue;
      }
      var canonicalVersion := Canonicalize(row.version);
      rows := rows + [Entry(row.version, row.applyTime, canonicalVersion)];
    }
    assert queried[..|queried|] == queried;
    var sorted := SortBy(rows, UsortBefore);
    var sliced := Take(sorted, limit);
    history := ToPairs(sliced);
  }

  // ---------------------------------------------------------------------------
  // Properties of the view

  lemma NamespacedViewMembers(queried: seq<Row>, limit: Option<nat>)
    ensures forall r :: r in NamespacedView(queried, limit) ==>
              r.version != BASE_MIGRATION && r in queried
  {
    var sorted := SortBy(Collect(queried), UsortBefore);
    var sliced := Take(sorted, limit);
    CollectMembers(queried);
    forall r | r in NamespacedView(queried, limit)
      ensures r.version != BASE_MIGRATION && r in queried
    {
      var i :| 0 <= i < |sliced| && ToPairs(sliced)[i] == r;
      assert sliced[i] == sorted[i];
      assert sorted[i] in multiset(Collect(queried));
    }
  }

  /** The sentinel row is never reported, in either regime. */
  lemma HistoryExcludesSentinel(rows: seq<Row>, migrationNamespaces: seq<string>, limit: Option<nat>)
    ensures forall r :: r in HistoryView(rows, migrationNamespaces, limit) ==> r.version != BASE_MIGRATION
  {
    if |migrationNamespaces| != 0 {
      NamespacedViewMembers(QueryAll(rows), limit);
    }
  }

  lemma WithoutSubMultiset(rows: seq<Row>, version: string)
    ensures multiset(Without(rows, version)) <= multiset(rows)
  {
    WithoutMultiset(rows, version);
  }

  /** The single regime reports a sub-multiset of the table. */
  lemma SingleNamespaceViewProvenance(rows: seq<Row>, limit: Option<nat>)
    ensures multiset(SingleNamespaceView(rows, limit)) <= multiset(rows)
  {
    var q := QueryAll(rows);
    TakeMultiset(q, limit);
    WithoutSubMultiset(Take(q, limit), BASE_MIGRATION);
  }

  /** The namespace regime reports a sub-multiset of the query result. */
  lemma NamespacedViewProvenance(queried: seq<Row>, limit: Option<nat>)
    ensures multiset(NamespacedView(queried, limit)) <= multiset(queried)
  {
    var a := NamespacedView(queried, None);
    NamespacedViewUnlimited(queried);
    WithoutSubMultiset(queried, BASE_MIGRATION);
    if limit.Some? {
      var h := NamespacedView(queried, limit);
      NamespacedViewPrefix(queried, limit.value);
      PrefixMultiset(h, a);
    }
  }

  /**
   * Every reported pair is a row of the ledger, and no pair is reported more
   * often than the ledger holds it.
   */
  lemma HistoryProvenance(rows: seq<Row>, migrationNamespaces: seq<string>, limit: Option<nat>)
    ensures multiset(HistoryView(rows, migrationNamespaces, limit)) <= multiset(rows)
  {
    if |migrationNamespaces| == 0 {
      SingleNamespaceViewProvenance(rows, limit);
    } else {
      NamespacedViewProvenance(QueryAll(rows), limit);
    }
  }

  /** Unlimited, the namespace regime reports exactly the non-sentinel rows, reordered. */
  lemma NamespacedViewUnlimited(queried: seq<Row>)
    ensures multiset(NamespacedView(queried, None)) == multiset(Without(queried, BASE_MIGRATION))
  {
    var c := Collect(queried);
    ToPairsPermutation(SortBy(c, UsortBefore), c);
    CollectIsWithout(queried);
  }

  /** The namespace regime cuts after dropping the sentinel: min(limit, non-sentinel rows). */
  lemma NamespacedViewLength(queried: seq<Row>, limit: Option<nat>)
    ensures var n := |queried| - CountVersion(queried, BASE_MIGRATION);
            |NamespacedView(queried, limit)| == match limit case None => n case Some(l) => Min(l, n)
  {
    CollectIsWithout(queried);
    WithoutLength(queried, BASE_MIGRATION);
  }

  /**
   * The single regime cuts before dropping the sentinel: at most `limit` pairs,
   * and fewer than min(limit, rows) by at most the number of sentinel rows.
   */
  lemma SingleNamespaceViewLength(rows: seq<Row>, limit: Option<nat>)
    ensures var h := SingleNamespaceView(rows, limit);
            var cut := match limit case None => |rows| case Some(l) => Min(l, |rows|);
            |h| <= cut && |h| + CountVersion(rows, BASE_MIGRATION) >= cut
  {
    var q := QueryAll(rows);
    var t := Take(q, limit);
    WithoutLength(t, BASE_MIGRATION);
    CountVersionPrefix(q, |t|, BASE_MIGRATION);
    WithoutPermutation(q, rows, BASE_MIGRATION);
    assert |q| == |multiset(q)| == |multiset(rows)| == |rows|;
  }

  /** Without a limit, both regimes report exactly the ledger's non-sentinel rows. */
  lemma HistoryUnlimitedMembers(rows: seq<Row>, migrationNamespaces: seq<string>)
    ensures forall r :: r in HistoryView(rows, migrationNamespaces, None) <==>
                        r in rows && r.version != BASE_MIGRATION
  {
    var q := QueryAll(rows);
    var h := HistoryView(rows, migrationNamespaces, None);
    var w := Without(q, BASE_MIGRATION);
    if |migrationNamespaces| != 0 {
      NamespacedViewUnlimited(q);
    }
    assert multiset(h) == multiset(w);
    forall r ensures r in h <==> r in rows && r.version != BASE_MIGRATION {
      assert r in h <==> r in multiset(h);
      assert r in w <==> r in multiset(w);
      assert r in q <==> r in multiset(rows);
    }
  }

  /** Right after the table is created only the sentinel is there, so nothing is reported. */
  lemma HistoryOfFreshTable(now: int, migrationNamespaces: seq<string>, limit: Option<nat>)
    ensures HistoryView([Row(BASE_MIGRATION, now)], migrationNamespaces, limit) == []
  {
    var h := HistoryView([Row(BASE_MIGRATION, now)], migrationNamespaces, limit);
    HistoryProvenance([Row(BASE_MIGRATION, now)], migrationNamespaces, limit);
    HistoryExcludesSentinel([Row(BASE_MIGRATION, now)], migrationNamespaces, limit);
    var sentinel := Row(BASE_MIGRATION, now);
    assert sentinel !in h;
    assert multiset(h) == multiset{};
    assert |h| == |multiset(h)|;
  }

  /** A version recorded by an append is reported by the next unlimited history read. */
  lemma AppliedIsReported(rows: seq<Row>, migrationNamespaces: seq<string>, version: string, now: int)
    requires version != BASE_MIGRATION
    ensures Row(version, now) in HistoryView(rows + [Row(version, now)], migrationNamespaces, None)
  {
    HistoryUnlimitedMembers(rows + [Row(version, now)], migrationNamespaces);
  }

  /** After a delete by version, no history read reports that version. */
  lemma RemovedIsNotReported(rows: seq<Row>, migrationNamespaces: seq<string>, limit: Option<nat>, version: string)
    ensures forall r :: r in HistoryView(Without(rows, version), migrationNamespaces, limit) ==>
                        r.version != version
  {
    var rest := Without(rows, version);
    var h := HistoryView(rest, migrationNamespaces, limit);
    HistoryProvenance(rest, migrationNamespaces, limit);
    forall r | r in h ensures r.version != version {
      assert r in multiset(h);
      assert r in multiset(rest);
    }
  }

  /** With a limit, neither regime reports more than `limit` pairs. */
  lemma HistoryBound(rows: seq<Row>, migrationNamespaces: seq<string>, lim: nat)
    ensures |HistoryView(rows, migrationNamespaces, Some(lim))| <= lim
  {
    if |migrationNamespaces| == 0 {
      SingleNamespaceViewLength(rows, Some(lim));
    } else {
      NamespacedViewLength(QueryAll(rows), Some(lim));
    }
  }

  /**
   * The sentinel's name has the timestamp shape, with an all-zero timestamp;
   * the loop skips it before it would be canonicalised.
   */
  lemma SentinelCanonicalVersion()
    ensures Canonicalize(BASE_MIGRATION) == "000000000000"
  {
    var z := "000000";
    assert BASE_MIGRATION == "m" + z + "_" + z + "_base";
    CanonicalizeTimestampName("m", z, "_", z, "_base");
    assert z + z == "000000000000";
  }

  /** The single regime's limited read is the newest part of its unlimited read. */
  lemma SingleNamespaceViewPrefix(rows: seq<Row>, l: nat)
    ensures var h := SingleNamespaceView(rows, Some(l));
            var a := SingleNamespaceView(rows, None);
            |h| <= |a| && h == a[..|h|]
  {
    var q := QueryAll(rows);
    var t := Take(q, Some(l));
    assert q == t + q[|t|..];
    WithoutConcat(t, q[|t|..], BASE_MIGRATION);
    var h := Without(t, BASE_MIGRATION);
    var a := Without(q, BASE_MIGRATION);
    assert a == h + Without(q[|t|..], BASE_MIGRATION);
    assert a[..|h|] == h;
  }

  /** The namespace regime's limited read is the first part of its unlimited read. */
  lemma NamespacedViewPrefix(queried: seq<Row>, l: nat)
    ensures var h := NamespacedView(queried, Some(l));
            var a := NamespacedView(queried, None);
            |h| <= |a| && h == a[..|h|]
  {
    var sorted := SortBy(Collect(queried), UsortBefore);
    var t := Take(sorted, Some(l));
    var h := ToPairs(t);
    var a := ToPairs(sorted);
    forall i | 0 <= i < |h| ensures h[i] == a[i] {
      assert t[i] == sorted[i];
    }
  }

  /**
   * In both regimes a limited read keeps the pairs an unlimited read lists
   * first: the newest ones, not some other selection of that size.
   */
  lemma HistoryPrefix(rows: seq<Row>, migrationNamespaces: seq<string>, l: nat)
    ensures var h := HistoryView(rows, migrationNamespaces, Some(l));
            var a := HistoryView(rows, migrationNamespaces, None);
            |h| <= |a| && h == a[..|h|]
  {
    if |migrationNamespaces| == 0 {
      SingleNamespaceViewPrefix(rows, l);
    } else {
      NamespacedViewPrefix(QueryAll(rows), l);
    }
  }

  /** The namespace regime reports pairs along the tie-break chain. */
  lemma NamespacedViewOrdered(queried: seq<Row>, limit: Option<nat>)
    ensures var h := NamespacedView(queried, limit);
            forall i, j :: 0 <= i < j < |h| ==> Precedes(h[i], h[j])
  {
    var c := Collect(queried);
    var sorted := SortBy(c, UsortBefore);
    var sliced := Take(sorted, limit);
    UsortBeforeTotalPreorder();
    SortBySorted(c, UsortBefore);
    TakeSorted(sorted, limit, UsortBefore);
    var h := ToPairs(sliced);
    CollectMembers(queried);
    forall i, j | 0 <= i < j < |h| ensures Precedes(h[i], h[j]) {
      assert sliced[i] in multiset(c) && sliced[j] in multiset(c);
      assert sliced[i] == Annotate(h[i]) && sliced[j] == Annotate(h[j]);
      UsortBeforeIsPrecedes(h[i], h[j]);
    }
  }

  /** The single regime reports pairs in the store's order. */
  lemma SingleNamespaceViewOrdered(rows: seq<Row>, limit: Option<nat>)
    ensures var h := SingleNamespaceView(rows, limit);
            forall i, j :: 0 <= i < j < |h| ==> DbBefore(h[i], h[j])
  {
    TakeSorted(QueryAll(rows), limit, DbBefore);
    WithoutSorted(Take(QueryAll(rows), limit), BASE_MIGRATION, DbBefore);
  }

  /** The store returns three such rows with c last, a and b in the order of their versions. */
  lemma QueryThreeSameSecond(a: Row, b: Row, c: Row)
    requires a.applyTime == b.applyTime > c.applyTime
    ensures QueryAll([a, b, c]) == if DbBefore(a, b) then [a, b, c] else [b, a, c]
  {
    if DbBefore(a, b) {
      SortByThreeInOrder(a, b, c, DbBefore);
    } else {
      LexCmpAntisymmetric(a.version, b.version);
      SortByThreeSwapped(b, a, c, DbBefore);
    }
  }

  /** usort puts the entry with the greater canonical version first, and the older entry last. */
  lemma UsortThreeSameSecond(ea: Entry, eb: Entry, ec: Entry)
    requires ea.applyTime == eb.applyTime > ec.applyTime
    requires StrCaseCmp(ea.canonicalVersion, eb.canonicalVersion) > 0
    ensures SortBy([ea, eb, ec], UsortBefore) == [ea, eb, ec]
    ensures SortBy([eb, ea, ec], UsortBefore) == [ea, eb, ec]
  {
    StrCaseCmpAntisymmetric(ea.canonicalVersion, eb.canonicalVersion);
    assert UsortBefore(ea, eb) && !UsortBefore(eb, ea);
    assert UsortBefore(ea, ec) && UsortBefore(eb, ec);
    SortByThreeInOrder(ea, eb, ec, UsortBefore);
    SortByThreeSwapped(ea, eb, ec, UsortBefore);
  }

  /** The loop keeps three rows of which none is the sentinel. */
  lemma CollectThree(x: Row, y: Row, z: Row)
    requires x.version != BASE_MIGRATION && y.version != BASE_MIGRATION && z.version != BASE_MIGRATION
    ensures Collect([x, y, z]) == [Annotate(x), Annotate(y), Annotate(z)]
  {
    CollectSnoc([], x);
    CollectSnoc([x], y);
    CollectSnoc([x, y], z);
    assert [x] + [y] == [x, y] && [x, y] + [z] == [x, y, z];
  }

  lemma TakeTwoOfThree<T>(x: T, y: T, z: T)
    ensures Take([x, y, z], Some(2)) == [x, y]
  {
  }

  lemma ToPairsTwo(x: Entry, y: Entry)
    ensures ToPairs([x, y]) == [ToPair(x), ToPair(y)]
  {
  }

  /** Whichever of the two orders the store returns, usort and the limit give [a, b]. */
  lemma TieBreakView(a: Row, b: Row, c: Row, q: seq<Row>)
    requires a.version != BASE_MIGRATION && b.version != BASE_MIGRATION && c.version != BASE_MIGRATION
    requires a.applyTime == b.applyTime > c.applyTime
    requires StrCaseCmp(Canonicalize(a.version), Canonicalize(b.version)) > 0
    requires q == [a, b, c] || q == [b, a, c]
    ensures NamespacedView(q, Some(2)) == [a, b]
  {
    var ea, eb, ec := Annotate(a), Annotate(b), Annotate(c);
    UsortThreeSameSecond(ea, eb, ec);
    if q == [a, b, c] {
      CollectThree(a, b, c);
    } else {
      CollectThree(b, a, c);
    }
    var sorted := SortBy(Collect(q), UsortBefore);
    assert sorted == [ea, eb, ec];
    TakeTwoOfThree(ea, eb, ec);
    ToPairsTwo(ea, eb);
  }

  /**
   * Two rows applied in the same second are told apart by their canonical
   * versions before the third, older row: with limit 2 the result is [a, b].
   */
  lemma SameSecondTieBreak(a: Row, b: Row, c: Row, migrationNamespaces: seq<string>)
    requires |migrationNamespaces| > 0
    requires a.version != BASE_MIGRATION && b.version != BASE_MIGRATION && c.version != BASE_MIGRATION
    requires a.applyTime == b.applyTime > c.applyTime
    requires StrCaseCmp(Canonicalize(a.version), Canonicalize(b.version)) > 0
    ensures HistoryView([a, b, c], migrationNamespaces, Some(2)) == [a, b]
  {
    QueryThreeSameSecond(a, b, c);
    TieBreakView(a, b, c, QueryAll([a, b, c]));
  }

  /** Rows whose apply_times strictly decrease are already in the store's order. */
  lemma QueryAllOfOrdered(rows: seq<Row>)
    requires forall i, j :: 0 <= i < j < |rows| ==> rows[i].applyTime > rows[j].applyTime
    ensures QueryAll(rows) == rows
  {
    SortBySortedUnchanged(rows, DbBefore);
  }

  /** Without a sentinel row the loop keeps every row, each with its canonical version. */
  lemma {:induction false} CollectWithoutSentinel(rows: seq<Row>)
    requires CountVersion(rows, BASE_MIGRATION) == 0
    ensures |Collect(rows)| == |rows|
    ensures forall i :: 0 <= i < |rows| ==> Collect(rows)[i] == Annotate(rows[i])
  {
    if rows != [] {
      var init := rows[..|rows| - 1];
      assert rows == init + [rows[|rows| - 1]];
      WithoutConcat(init, [rows[|rows| - 1]], BASE_MIGRATION);
      WithoutLength(rows, BASE_MIGRATION);
      WithoutLength(init, BASE_MIGRATION);
      WithoutLength([rows[|rows| - 1]], BASE_MIGRATION);
      CollectWithoutSentinel(init);
    }
  }

  function ExampleRows(): seq<Row> {
    [Row("b", 300), Row(BASE_MIGRATION, 200), Row("a", 100)]
  }

  lemma ExampleSingleView()
    ensures SingleNamespaceView(ExampleRows(), Some(2)) == [Row("b", 300)]
  {
    var rb, rs := Row("b", 300), Row(BASE_MIGRATION, 200);
    QueryAllOfOrdered(ExampleRows());
    assert Take(ExampleRows(), Some(2)) == [rb, rs];
    assert [rb, rs][1..] == [rs] && [rs][1..] == [];
  }

  /** The loop over the example keeps the two real rows and skips the sentinel. */
  lemma ExampleCollect()
    ensures Collect(ExampleRows()) == [Annotate(Row("b", 300)), Annotate(Row("a", 100))]
  {
    var rows := ExampleRows();
    var rb, rs, ra := rows[0], rows[1], rows[2];
    CollectSnoc([], rb);
    CollectSnocSentinel([rb], rs);
    CollectSnoc([rb, rs], ra);
    assert [rb] + [rs] == [rb, rs] && [rb, rs] + [ra] == rows;
  }

  /** The newer entry stays in front. */
  lemma ExampleSort()
    ensures var es := [Annotate(Row("b", 300)), Annotate(Row("a", 100))];
            SortBy(es, UsortBefore) == es
  {
    var es := [Annotate(Row("b", 300)), Annotate(Row("a", 100))];
    assert SortedBy(es, UsortBefore);
    SortBySortedUnchanged(es, UsortBefore);
  }

  /** The example rows are already in the store's order. */
  lemma ExampleQuery()
    ensures QueryAll(ExampleRows()) == ExampleRows()
  {
    QueryAllOfOrdered(ExampleRows());
  }

  lemma ExampleNamespacedView()
    ensures NamespacedView(ExampleRows(), Some(2)) == [Row("b", 300), Row("a", 100)]
  {
    ExampleCollect();
    ExampleSort();
    var es := [Annotate(Row("b", 300)), Annotate(Row("a", 100))];
    assert Take(es, Some(2)) == es;
    assert ToPairs(es) == [Row("b", 300), Row("a", 100)];
  }

  /**
   * The single regime counts the sentinel against the limit: when the sentinel
   * is among the newest rows, limit 2 yields one pair there but two with namespaces.
   */
  lemma SingleRegimeCountsSentinelAgainstLimit(migrationNamespaces: seq<string>)
    requires |migrationNamespaces| > 0
    ensures HistoryView(ExampleRows(), [], Some(2)) == [Row("b", 300)]
    ensures HistoryView(ExampleRows(), migrationNamespaces, Some(2)) == [Row("b", 300), Row("a", 100)]
  {
    ExampleSingleView();
    ExampleQuery();
    ExampleNamespacedView();
  }
}
