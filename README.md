# Migration history ledger of the ClickHouse migrate controller

This project models the bookkeeping part of `commands/MigrateController.php` in
kak-clickhouse, a ClickHouse integration for Yii 2. It also proves properties of that model.

The controller keeps a history table, `migration` by default. Each row of the table is a
pair `(version, apply_time)`.

The controller provides four operations:
- It creates that table on first use. The new table starts with a sentinel row whose
  version is `m000000_000000_base`.
- It appends a row when a migration is applied.
- It deletes every row of a version when a migration is reverted.
- It reads the history back, newest first.

The history read works in one of two regimes:
- **Without migration namespaces**, it trusts the store's `ORDER BY apply_time DESC,
  version DESC` and its `LIMIT`. It then drops the sentinel.
- **With namespaces**, it passes over the rows in a loop:
  1. It fetches every row.
  2. It skips the sentinel.
  3. It gives each row a *canonical version*: the 12-digit timestamp found by the pattern
     `m?(\d{6}_?\d{6})(\D.*)?$`, with the underscore removed, or the row's whole version
     when the pattern does not match.
  4. It sorts the rows with a three-level comparator: `apply_time` descending, then the
     canonical version descending, then the version descending. Both version comparisons
     ignore case (`strcasecmp`).
  5. It slices to the limit.

Modules, in dependency order:

- `Wrappers`: `Option` and `Min`.
- `Strcmp`: the store's binary string order (`LexCmp`), PHP's `strcasecmp` (`StrCaseCmp`), and
  the fact that `strcasecmp` is the binary order of the ASCII-folded strings.
- `Canonical`: the canonical version. The regular expression is expressed by the `BlockAt`
  predicate, and the capture starts at the leftmost index where a block begins.
- `Sorting`: a comparator-driven sort (the model of `usort`), and `Take` (SQL `LIMIT`, and
  `array_slice($s, 0, $limit)`).
- `Ledger`: the row type, the sentinel, and the delete-by-version filter `Without`.
- `Reconciler`: the two reading regimes.
  - `QueryAll` is the store's ordered `SELECT`.
  - `Collect` is the specification of the `foreach` loop; `NamespacedHistory` is the loop itself.
  - `UsortCompare` is the `usort` callback.
  - `HistoryView` is the complete read.
- `Migrate`: the `MigrateController` class. Its fields are `tableExists` and `rows`, and its
  methods create the table, append to it, delete from it and read it.

The current time (`time()`) is a `now` parameter. The limit is `Option<nat>`, with `None` for
PHP's `null`. The store is the pair `(tableExists, rows)` held by the class.

Two facts about the code shape the model:
- The sentinel row is stamped with the current time, by `addMigrationHistory`
  (lines 145 and 159).
- When the pattern does not match, the canonical version is the whole version (line 106).
  The comparator compares it with the other row's canonical version, ignoring case, so a
  free-form name can sort before or after a timestamp.

## Model

| member | source | states |
|---|---|---|
| Strcmp.LexCmp | commands/MigrateController.php:85 | the store's `version DESC` key compares binary strings with a three-way result in -1..1 |
| Strcmp.LexCmpZero | commands/MigrateController.php:85 | the binary compare reports a tie exactly when the strings are equal |
| Strcmp.LexCmpAntisymmetric | commands/MigrateController.php:85 | swapping the operands negates the binary compare |
| Strcmp.LexCmpTransitive | commands/MigrateController.php:85 | the binary order is transitive |
| Strcmp.StrCaseCmp | commands/MigrateController.php:114-118 | `strcasecmp` returns a sign in -1..1 |
| Strcmp.StrCaseCmpIsFoldedLexCmp | commands/MigrateController.php:114-118 | `strcasecmp(a, b)` equals the binary compare of the two ASCII-lower-cased strings |
| Strcmp.StrCaseCmpZero | commands/MigrateController.php:114-118 | `strcasecmp` reports a tie exactly when the folded strings are equal |
| Strcmp.StrCaseCmpAntisymmetric | commands/MigrateController.php:114-118 | swapping the operands of `strcasecmp` negates the result |
| Strcmp.StrCaseCmpTransitive | commands/MigrateController.php:114-118 | `strcasecmp` induces a transitive order |
| Strcmp.StrCaseCmpIgnoresCase | commands/MigrateController.php:114-118 | names that differ only in ASCII letter case compare equal |
| Canonical.Canonicalize | commands/MigrateController.php:102-107 | the canonical version is either the name itself or twelve digits; `CanonicalizeSpec` states which, and when |
| Canonical.BlockDigits | commands/MigrateController.php:102-104 | the captured group, with the underscore removed, is exactly twelve digits |
| Canonical.FindBlock | commands/MigrateController.php:102 | the scan returns the first index at or after `from` where the pattern can match, or reports that there is none |
| Canonical.CanonicalizeSpec | commands/MigrateController.php:102-107 | the canonical version is the leftmost block's twelve digits, or the name itself when no block begins anywhere; it is 12 digits exactly when a block exists |
| Canonical.CanonicalizeTimestampName | commands/MigrateController.php:102-104 | `mYYMMDD_HHMMSS_name`, `YYMMDDHHMMSSname` and namespaced forms all give the bare 12-digit timestamp |
| Canonical.CanonicalizeFreeFormName | commands/MigrateController.php:105-107 | a name without digits is its own canonical version |
| Canonical.LeftmostBlockOfUnderscoreName | commands/MigrateController.php:102 | in `m20230615_101500_init` the pattern's group can start at index 3 and at no earlier index |
| Canonical.LeftmostBlockOfPlainName | commands/MigrateController.php:102 | in `20230615101500desc` the group can start at index 2 and at no earlier index |
| Canonical.CanonicalizeEightDigitDateUnderscore | commands/MigrateController.php:102-104 | `m20230615_101500_init` gives `230615101500`: the unanchored match starts two digits into the date |
| Canonical.CanonicalizeEightDigitDatePlain | commands/MigrateController.php:102-104 | `20230615101500desc` gives `230615101500` |
| Canonical.CanonicalizeEightDigitDates | commands/MigrateController.php:102-107 | both spellings of that timestamp get the same canonical version |
| Sorting.InsertBy | commands/MigrateController.php:112 | inserting keeps every element and adds exactly the new one |
| Sorting.SortBy | commands/MigrateController.php:112 | `usort` returns a permutation of its input |
| Sorting.InsertBySorted | commands/MigrateController.php:112 | for a total-preorder comparator, inserting into a sorted list keeps it sorted |
| Sorting.SortBySorted | commands/MigrateController.php:112-122 | for a total-preorder comparator, the sorted result is ordered by the comparator |
| Sorting.InsertByAfterAll | commands/MigrateController.php:112 | an element that everything may precede goes last |
| Sorting.SortBySortedUnchanged | commands/MigrateController.php:112 | sorting an already ordered list leaves it unchanged |
| Sorting.SortByIdempotent | commands/MigrateController.php:112-122 | sorting twice gives the same sequence as sorting once |
| Sorting.Take | commands/MigrateController.php:88 | the first `min(limit, n)` elements, or everything with no limit, as a prefix of the input |
| Sorting.TakeMultiset | commands/MigrateController.php:124 | slicing never invents elements |
| Sorting.TakeSorted | commands/MigrateController.php:124 | slicing keeps the order |
| Ledger.CountVersion | commands/MigrateController.php:167-172 | the number of rows carrying a version: zero exactly when no row carries it; `WithoutLength` ties it to the rows a delete removes |
| Ledger.Without | commands/MigrateController.php:167-172 | after the delete, a row is present exactly when it was present and has another version |
| Ledger.WithoutConcat | commands/MigrateController.php:167-172 | the delete keeps the order of the surviving rows |
| Ledger.WithoutMultiset | commands/MigrateController.php:167-172 | rows of the deleted version drop to zero copies, other rows keep their multiplicity |
| Ledger.WithoutAbsent | commands/MigrateController.php:167-172 | deleting a version no row carries changes nothing |
| Ledger.WithoutLength | commands/MigrateController.php:167-172 | the number of rows removed is the number of rows carrying the version |
| Ledger.WithoutIdempotent | commands/MigrateController.php:167-172 | after a delete no row carries the version, and a second delete changes nothing |
| Ledger.WithoutPermutation | commands/MigrateController.php:167-172 | the rows a delete keeps do not depend on the order of the table |
| Ledger.WithoutSorted | commands/MigrateController.php:91 | removing rows from an ordered result keeps it ordered |
| Ledger.AppendThenRemove | commands/MigrateController.php:154-172 | appending then deleting a version removes all its rows; for a new version it restores the ledger |
| Ledger.AppendCountsDuplicates | commands/MigrateController.php:154-161 | a second append of the same version is recorded as a second row |
| Reconciler.SentinelCanonicalVersion | commands/MigrateController.php:99-104 | the sentinel `m000000_000000_base` (the constant `Ledger.BASE_MIGRATION`, written at line 145, dropped at lines 91 and 99) has the timestamp shape, with canonical version `000000000000` |
| Reconciler.DbBefore | commands/MigrateController.php:85 | `ORDER BY apply_time DESC, version DESC` as a relation; `DbBeforeTotalPreorder` shows it is a total preorder, and `QueryAll` sorts by it |
| Reconciler.DbBeforeTotalPreorder | commands/MigrateController.php:85 | `ORDER BY apply_time DESC, version DESC` is a total preorder |
| Reconciler.QueryAll | commands/MigrateController.php:82-85 | the `SELECT` returns every row of the table, once each, in the `ORDER BY` order |
| Reconciler.QueryAllOfOrdered | commands/MigrateController.php:85 | rows with strictly decreasing apply times come back as they are |
| Reconciler.UsortCompare | commands/MigrateController.php:112-122 | the callback returns -1, 0 or 1 |
| Reconciler.UsortBefore | commands/MigrateController.php:112-122 | the callback read as "may come first" (result <= 0); `UsortBeforeTotalPreorder` and `UsortBeforeIsPrecedes` specify it |
| Reconciler.Precedes | commands/MigrateController.php:112-122 | the tie-break chain written out on rows (later time; or the same time and a greater canonical version; or both equal and a version that is not smaller, ignoring case); `UsortBeforeIsPrecedes` proves it equal to the callback |
| Reconciler.UsortCompareAntisymmetric | commands/MigrateController.php:112-122 | swapping the entries negates the callback's result |
| Reconciler.UsortCompareTie | commands/MigrateController.php:112-122 | the callback reports a tie exactly when the apply times are equal and the canonical and raw versions are equal ignoring case |
| Reconciler.UsortCompareTransitive | commands/MigrateController.php:112-122 | the callback's order is transitive |
| Reconciler.UsortBeforeTotalPreorder | commands/MigrateController.php:112-122 | the callback induces a total preorder, so `usort` has a well-defined result up to ties |
| Reconciler.UsortBeforeIsPrecedes | commands/MigrateController.php:112-122 | a row may precede another exactly when its time is later; or the times are equal and its canonical version is greater ignoring case; or both are equal and its version is not smaller ignoring case |
| Reconciler.Annotate | commands/MigrateController.php:102-108 | a row with its canonical version added; `CollectMembers` and `UsortBeforeIsPrecedes` specify the entries it builds |
| Reconciler.ToPairs | commands/MigrateController.php:126 | keeps the `(version, apply_time)` pair of each entry, position by position; `ToPairsPermutation` shows it respects reordering |
| Reconciler.Collect | commands/MigrateController.php:97-110 | the loop's result has no more entries than the query result; `CollectIsWithout` and `CollectMembers` state what it holds |
| Reconciler.CollectSnocSentinel | commands/MigrateController.php:99-101 | the loop skips the sentinel row |
| Reconciler.CollectSnoc | commands/MigrateController.php:102-109 | the loop appends any other row with its canonical version |
| Reconciler.CollectMembers | commands/MigrateController.php:97-110 | every kept entry is a non-sentinel row of the query result, annotated with its own canonical version |
| Reconciler.CollectIsWithout | commands/MigrateController.php:97-110 | the kept pairs are exactly the query result without the sentinel, in query order |
| Reconciler.CollectWithoutSentinel | commands/MigrateController.php:97-110 | with no sentinel present, the loop keeps every row in order |
| Reconciler.ToPairsPermutation | commands/MigrateController.php:126 | reordering entries reorders their `(version, apply_time)` pairs in the same way |
| Reconciler.SingleNamespaceView | commands/MigrateController.php:85-91 | the single regime reports at most as many pairs as the table has rows, each a non-sentinel row of the table; its order, length and prefix lemmas say the rest |
| Reconciler.NamespacedView | commands/MigrateController.php:95-128 | the namespace regime reports at most as many pairs as the query returned; its membership, order, length and prefix lemmas say the rest |
| Reconciler.HistoryView | commands/MigrateController.php:77-128 | the complete read reports at most as many pairs as the table has rows; `HistoryExcludesSentinel`, `HistoryProvenance`, `HistoryUnlimitedMembers` and `HistoryPrefix` specify it |
| Reconciler.NamespacedHistory | commands/MigrateController.php:95-128 | the loop, `usort` and `array_slice` compute the namespace regime's view |
| Reconciler.NamespacedViewMembers | commands/MigrateController.php:97-101 | every pair of the namespace view is a non-sentinel row of the query result |
| Reconciler.HistoryExcludesSentinel | commands/MigrateController.php:91 | neither regime reports the sentinel |
| Reconciler.SingleNamespaceViewProvenance | commands/MigrateController.php:87-91 | the single regime reports no pair more often than the table holds it |
| Reconciler.NamespacedViewProvenance | commands/MigrateController.php:95-128 | the namespace regime reports no pair more often than the query result holds it |
| Reconciler.HistoryProvenance | commands/MigrateController.php:77-128 | no pair is reported more often than the table holds it |
| Reconciler.NamespacedViewUnlimited | commands/MigrateController.php:95-128 | unlimited, the namespace view is a permutation of the non-sentinel rows |
| Reconciler.NamespacedViewLength | commands/MigrateController.php:124 | the namespace view has `min(limit, non-sentinel rows)` pairs: the sentinel does not count against the limit |
| Reconciler.SingleNamespaceViewLength | commands/MigrateController.php:87-91 | the single view has at most `min(limit, rows)` pairs, fewer by at most the number of sentinel rows |
| Reconciler.HistoryUnlimitedMembers | commands/MigrateController.php:77-128 | unlimited, a pair is reported exactly when it is a non-sentinel row of the table, in both regimes |
| Reconciler.HistoryOfFreshTable | commands/MigrateController.php:79-80 | a freshly created table reports an empty history |
| Reconciler.AppliedIsReported | commands/MigrateController.php:154-161 | an appended non-sentinel version is reported by the next unlimited read |
| Reconciler.RemovedIsNotReported | commands/MigrateController.php:167-172 | after a delete, no read reports the deleted version |
| Reconciler.HistoryBound | commands/MigrateController.php:88 | with a limit, neither regime reports more than `limit` pairs |
| Reconciler.SingleNamespaceViewPrefix | commands/MigrateController.php:85-91 | with a limit, the single regime's result is a prefix of its unlimited result: `LIMIT` keeps the newest rows |
| Reconciler.NamespacedViewPrefix | commands/MigrateController.php:112-124 | with a limit, the namespace regime's result is a prefix of its unlimited result: `array_slice` keeps the first of the sorted pairs |
| Reconciler.HistoryPrefix | commands/MigrateController.php:77-128 | in both regimes a limited read is a prefix of the unlimited read, so it returns the newest pairs |
| Reconciler.NamespacedViewOrdered | commands/MigrateController.php:112-124 | the namespace view lists pairs along the three-level tie-break chain |
| Reconciler.SingleNamespaceViewOrdered | commands/MigrateController.php:85-91 | the single view lists pairs in the store's order |
| Reconciler.QueryThreeSameSecond | commands/MigrateController.php:85 | the store puts the older third row last, and orders the first two by version |
| Reconciler.UsortThreeSameSecond | commands/MigrateController.php:112-122 | for equal apply times, the greater canonical version goes first, whatever the input order |
| Reconciler.CollectThree | commands/MigrateController.php:97-110 | three non-sentinel rows are all kept, in order |
| Reconciler.TieBreakView | commands/MigrateController.php:95-128 | either store order of `[A, B, C]`, with both `A` and `B` at the same time, gives `[A, B]` with limit 2 |
| Reconciler.SameSecondTieBreak | commands/MigrateController.php:112-124 | rows `A` and `B` in the same second, `A` with the greater canonical version, and an older `C`: with namespaces and limit 2 the history is `[A, B]` |
| Reconciler.ExampleSingleView | commands/MigrateController.php:87-91 | the single regime over `[b@300, sentinel@200, a@100]` with limit 2 reports only `b` |
| Reconciler.ExampleCollect | commands/MigrateController.php:97-110 | the loop over that table keeps `b` and `a` |
| Reconciler.ExampleSort | commands/MigrateController.php:112-122 | the newer `b` stays before `a` |
| Reconciler.ExampleQuery | commands/MigrateController.php:85 | that table is already in the store's order |
| Reconciler.ExampleNamespacedView | commands/MigrateController.php:95-128 | with namespaces, the same read reports `b` and `a` |
| Reconciler.SingleRegimeCountsSentinelAgainstLimit | commands/MigrateController.php:87-124 | the two regimes differ on the same table and limit: the single regime counts the sentinel against the limit, the namespace regime does not |
| Migrate.MigrateController.constructor | commands/MigrateController.php:21-28 | a controller over a table that exists, or an absent table without rows |
| Migrate.MigrateController.AddMigrationHistory | commands/MigrateController.php:154-161 | on an existing table, the row `(version, now)` is appended and nothing else changes; on a missing table the insert fails and nothing changes |
| Migrate.MigrateController.RemoveMigrationHistory | commands/MigrateController.php:167-172 | on an existing table, every row of the version is deleted and the rest keep their order; otherwise the delete fails |
| Migrate.MigrateController.CreateMigrationHistoryTable | commands/MigrateController.php:135-148 | an absent table is created holding only the sentinel stamped `now`; creating an existing table fails and changes nothing |
| Migrate.MigrateController.GetMigrationHistory | commands/MigrateController.php:77-129 | a missing table is bootstrapped and then reads back empty; an existing table is left unchanged; the result is the history view of the configured regime |
| Migrate.ReadHistoryTwice | commands/MigrateController.php:79-80 | bootstrapping happens once: two reads leave exactly one sentinel, stamped by the first, and both report nothing |
| Migrate.ApplyThenRevert | commands/MigrateController.php:154-172 | applying a new version and then reverting it restores the table |

## Left out

- Migration units (`Migration.php`), and how migrations are discovered, loaded and run
  (`createMigration`, `options`, `beforeAction`). Migration.php is not part of this model.
- `BASE_MIGRATION`'s value, `m000000_000000_base`. It is inherited from Yii's
  `BaseMigrateController`, which is not part of this model.
- Console output (`stdout`). SQL text generation, the connection, and the schema cache are
  left out too: the store is the `(tableExists, rows)` pair.
- Engine options of `CREATE TABLE`. The engine's primary key on `version` enforces no
  uniqueness, so the table is a plain sequence of rows.
- Store errors. The source lets the store's exception propagate. The model reports
  `ok == false` and changes nothing for the failures it can see: creating an existing table,
  and writing to a missing one.
- Migrate.MigrateController.RemoveMigrationHistory: the delete is a ClickHouse mutation that is
  applied eventually. The model applies it at once, so a read right after a revert may, in
  reality, still see the row.
- The conversion of ClickHouse's `DateTime` column into unix seconds. `apply_time` is an
  integer throughout, so line 108's `(int)` cast is the identity.
- Reconciler.UsortCompare: the comparator compares integers with `===`. It relies on the cast
  at line 108 having made both sides `int`.
- `ArrayHelper::map` keyed by version. PHP's array overwrites an earlier key with a later
  duplicate. The model returns the ordered list of `(version, apply_time)` pairs, so duplicate
  versions appear once per row.
- Sorting.SortBy: the model is a stable insertion sort. From PHP 8.0 `usort` is stable, and
  for a total-preorder comparator such as this one a stable sort has exactly one result, so
  the model gives `usort`'s result. Before PHP 8.0 `usort` was not stable and left the order of
  tied elements unspecified; for those versions the order properties
  (`NamespacedViewOrdered`) hold only up to ties.
- Reconciler.QueryAll: the store's order among rows that tie on both `apply_time` and `version`
  is unspecified. The model fixes one order, and the properties hold up to such ties.
- Strcmp.StrCaseCmp: keeps only the sign of PHP's result, which is all `usort` uses. Strings are
  sequences of code points; for UTF-8 text, byte order and code point order agree.
- Canonical.FindBlock: the regular expression engine itself. The `i` flag does not affect
  digits or the underscore, and the `s` flag only lets `.` cross newlines. So the match is
  described by where the captured group can start (`BlockAt`), not by backtracking.
- Concurrent controllers writing the same table.
