/**
 * The migrate controller's bookkeeping: the migration history table, which
 * may not exist yet, and the four operations that create it, append to it,
 * delete from it and read it.
 *
 * The table is the pair (tableExists, rows). A statement the store would
 * reject (creating a table that exists, writing to a table that does not)
 * leaves everything as it was and reports ok == false.
 */
module Migrate {
  import opened Wrappers
  import opened Sorting
  import opened Ledger
  import opened Reconciler

  class MigrateController {
    /** The configured migration namespaces; empty selects the single-namespace read. */
    const migrationNamespaces: seq<string>
    var tableExists: bool
    var rows: seq<Row>

    /** A table that does not exist holds no rows. */
    ghost predicate Valid()
      reads this
    {
      !tableExists ==> rows == []
    }

    constructor (migrationNamespaces: seq<string>, tableExists: bool, rows: seq<Row>)
      requires !tableExists ==> rows == []
      ensures Valid()
      ensures this.migrationNamespaces == migrationNamespaces
      ensures this.tableExists == tableExists && this.rows == rows
    {
      this.migrationNamespaces := migrationNamespaces;
      this.tableExists := tableExists;
      this.rows := rows;
    }

    /** INSERT (version, now): a new row at the end, with no check for an existing one. */
    method AddMigrationHistory(version: string, now: int) returns (ok: bool)
      requires Valid()
      modifies this`rows
      ensures Valid()
      ensures ok == tableExists
      ensures rows == if ok then old(rows) + [Row(version, now)] else old(rows)
    {
      ok := tableExists;
      if ok {
        rows := rows + [Row(version, now)];
      }
    }

    /** DELETE WHERE version = :version: every row of that version goes, the others stay in order. */
    method RemoveMigrationHistory(version: string) returns (ok: bool)
      requires Valid()
      modifies this`rows
      ensures Valid()
      ensures ok == tableExists
      ensures rows == if ok then Without(old(rows), version) else old(rows)
    {
      ok := tableExists;
      if ok {
        rows := Without(rows, version);
      }
    }

    /** CREATE TABLE, then the sentinel row stamped with the current time. */
    method CreateMigrationHistoryTable(now: int) returns (ok: bool)
      requires Valid()
      modifies this`tableExists, this`rows
      ensures Valid()
      ensures ok == !old(tableExists)
      ensures ok ==> tableExists && rows == [Row(BASE_MIGRATION, now)]
      ensures !ok ==> tableExists && rows == old(rows)
    {
      if tableExists {
        return false;
      }
      tableExists := true;
      var added := AddMigrationHistory(BASE_MIGRATION, now);
      ok := true;
    }

    /**
     * The applied migrations, newest first: the table is created on first
     * use, then read in the regime the namespace configuration selects.
     */
    method GetMigrationHistory(limit: Option<nat>, now: int) returns (history: seq<Row>)
      requires Valid()
      modifies this`tableExists, this`rows
      ensures Valid() && tableExists
      ensures old(tableExists) ==> rows == old(rows)
      ensures !old(tableExists) ==> rows == [Row(BASE_MIGRATION, now)] && history == []
      ensures history == HistoryView(rows, migrationNamespaces, limit)
    {
      if !tableExists {
        var created := CreateMigrationHistoryTable(now);
        HistoryOfFreshTable(now, migrationNamespaces, limit);
      }
      var queried := QueryAll(rows);
      if |migrationNamespaces| == 0 {
        history := Without(Take(queried, limit), BASE_MIGRATION);
      } else {
        history := NamespacedHistory(queried, limit);
      }
    }
  }

  /**
   * Bootstrapping happens once: a second history read finds the table and
   * adds no second sentinel, and neither read reports the sentinel.
   */
  method ReadHistoryTwice(c: MigrateController, limit: Option<nat>, first: int, second: int)
    returns (h1: seq<Row>, h2: seq<Row>)
    requires c.Valid() && !c.tableExists
    modifies c
    ensures c.Valid() && c.rows == [Row(BASE_MIGRATION, first)]
    ensures CountVersion(c.rows, BASE_MIGRATION) == 1
    ensures h1 == [] && h2 == []
  {
    h1 := c.GetMigrationHistory(limit, first);
    h2 := c.GetMigrationHistory(limit, second);
  }

  /** Applying a migration then reverting it leaves the ledger as before, when the version was new. */
  method ApplyThenRevert(c: MigrateController, version: string, now: int) returns (ok: bool)
    requires c.Valid() && c.tableExists
    requires CountVersion(c.rows, version) == 0
    modifies c
    ensures ok && c.Valid() && c.rows == old(c.rows)
  {
    var added := c.AddMigrationHistory(version, now);
    AppendThenRemove(old(c.rows), version, now);
    ok := c.RemoveMigrationHistory(version);
  }
}
