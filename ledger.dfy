/**
 * The rows of the migration history table and the delete-by-version filter.
 *
 * The table has no uniqueness constraint: the same version may occur in
 * several rows, and every statement about rows below allows for that.
 */
module Ledger {
  import opened Sorting

  /** The reserved version of the sentinel row written when the table is created. */
  const BASE_MIGRATION: string := "m000000_000000_base"

  /** One row of the history table: `version` and `apply_time` in unix seconds. */
  datatype Row = Row(version: string, applyTime: int)

  /** The rows left by ALTER TABLE ... DELETE WHERE version = :version, in their order. */
  function Without(rows: seq<Row>, version: string): (r: seq<Row>)
    ensures |r| <= |rows|
    ensures forall x :: x in r <==> x in rows && x.version != version
  {
    if rows == [] then []
    else (if rows[0].version == version then [] else [rows[0]]) + Without(rows[1..], version)
  }

  /** How many rows carry `version`. */
  function CountVersion(rows: seq<Row>, version: string): (n: nat)
    ensures n <= |rows|
    ensures n == 0 <==> forall i :: 0 <= i < |rows| ==> rows[i].version != version
  {
    if rows == [] then 0
    else (if rows[0].version == version then 1 else 0) + CountVersion(rows[1..], version)
  }

  /** Deleting distributes over concatenation: it keeps the order of the remaining rows. */
  lemma {:induction false} WithoutConcat(a: seq<Row>, b: seq<Row>, version: string)
    ensures Without(a + b, version) == Without(a, version) + Without(b, version)
  {
    if a != [] {
      var head := if a[0].version == version then [] else [a[0]];
      assert (a + b)[0] == a[0] && (a + b)[1..] == a[1..] + b;
      assert Without(a + b, version) == head + Without(a[1..] + b, version);
      WithoutConcat(a[1..], b, version);
      assert Without(a, version) == head + Without(a[1..], version);
    } else {
      assert a + b == b;
    }
  }

  /** Exactly the rows with that version go; every other row keeps its multiplicity. */
  lemma {:induction false} WithoutMultiset(rows: seq<Row>, version: string)
    ensures forall x :: multiset(Without(rows, version))[x] ==
                        if x.version == version then 0 else multiset(rows)[x]
  {
    if rows != [] {
      WithoutMultiset(rows[1..], version);
      assert rows == [rows[0]] + rows[1..];
    }
  }

  /** Deleting a version that no row carries changes nothing. */
  lemma {:induction false} WithoutAbsent(rows: seq<Row>, version: string)
    requires CountVersion(rows, version) == 0
    ensures Without(rows, version) == rows
  {
    if rows != [] {
      WithoutAbsent(rows[1..], version);
      assert rows == [rows[0]] + rows[1..];
    }
  }

  /** The deleted rows are exactly the counted ones. */
  lemma {:induction false} WithoutLength(rows: seq<Row>, version: string)
    ensures |Without(rows, version)| + CountVersion(rows, version) == |rows|
  {
    if rows != [] {
      WithoutLength(rows[1..], version);
    }
  }

  /** After a delete no row carries the version, so a second delete changes nothing. */
  lemma WithoutIdempotent(rows: seq<Row>, version: string)
    ensures CountVersion(Without(rows, version), version) == 0
    ensures Without(Without(rows, version), version) == Without(rows, version)
  {
    WithoutAbsent(Without(rows, version), version);
  }

  /** Reordering the rows does not change which rows a delete keeps, nor how many. */
  lemma WithoutPermutation(a: seq<Row>, b: seq<Row>, version: string)
    requires multiset(a) == multiset(b)
    ensures multiset(Without(a, version)) == multiset(Without(b, version))
    ensures CountVersion(a, version) == CountVersion(b, version)
  {
    WithoutMultiset(a, version);
    WithoutMultiset(b, version);
    assert multiset(Without(a, version)) == multiset(Without(b, version));
    assert |Without(a, version)| == |multiset(Without(a, version))|;
    assert |Without(b, version)| == |multiset(Without(b, version))|;
    assert |a| == |multiset(a)| && |b| == |multiset(b)|;
    WithoutLength(a, version);
    WithoutLength(b, version);
  }

  /** A prefix holds no more rows of a version than the whole sequence. */
  lemma CountVersionPrefix(rows: seq<Row>, k: nat, version: string)
    requires k <= |rows|
    ensures CountVersion(rows[..k], version) <= CountVersion(rows, version)
  {
    assert rows == rows[..k] + rows[k..];
    WithoutConcat(rows[..k], rows[k..], version);
    WithoutLength(rows, version);
    WithoutLength(rows[..k], version);
    WithoutLength(rows[k..], version);
  }

  /** The first row of a sorted sequence may come before every later row. */
  lemma SortedHeadBefore(rows: seq<Row>, y: Row, before: (Row, Row) -> bool)
    requires SortedBy(rows, before)
    requires rows != [] && y in rows[1..]
    ensures before(rows[0], y)
  {
    var k :| 0 <= k < |rows[1..]| && rows[1..][k] == y;
    assert rows[k + 1] == y;
  }

  /** Deleting keeps any order the rows were in. */
  lemma {:induction false} WithoutSorted(rows: seq<Row>, version: string, before: (Row, Row) -> bool)
    requires SortedBy(rows, before)
    ensures SortedBy(Without(rows, version), before)
  {
    if rows != [] {
      assert SortedBy(rows[1..], before) by {
        forall i, j | 0 <= i < j < |rows[1..]| ensures before(rows[1..][i], rows[1..][j]) {
          assert rows[1..][i] == rows[i + 1] && rows[1..][j] == rows[j + 1];
        }
      }
      WithoutSorted(rows[1..], version, before);
      var rest := Without(rows[1..], version);
      if rows[0].version != version {
        var r := [rows[0]] + rest;
        forall i, j | 0 <= i < j < |r| ensures before(r[i], r[j]) {
          if i == 0 {
            assert r[j] == rest[j - 1] && rest[j - 1] in rest;
            SortedHeadBefore(rows, r[j], before);
          } else {
            assert r[i] == rest[i - 1] && r[j] == rest[j - 1];
          }
        }
      }
    }
  }

  /**
   * Appending a row and then deleting its version removes every row of that
   * version, the new one and any earlier duplicates; when the version was not
   * recorded before, it restores the ledger exactly.
   */
  lemma AppendThenRemove(rows: seq<Row>, version: string, now: int)
    ensures Without(rows + [Row(version, now)], version) == Without(rows, version)
    ensures CountVersion(rows, version) == 0 ==> Without(rows + [Row(version, now)], version) == rows
  {
    WithoutConcat(rows, [Row(version, now)], version);
    assert Without([Row(version, now)], version) == [];
    if CountVersion(rows, version) == 0 {
      WithoutAbsent(rows, version);
    }
  }

  /** Nothing stops a second append of the same version: it is recorded twice. */
  lemma AppendCountsDuplicates(rows: seq<Row>, version: string, now: int)
    ensures CountVersion(rows + [Row(version, now)], version) == CountVersion(rows, version) + 1
  {
    var r := rows + [Row(version, now)];
    WithoutConcat(rows, [Row(version, now)], version);
    assert Without([Row(version, now)], version) == [];
    WithoutLength(r, version);
    WithoutLength(rows, version);
  }
}
