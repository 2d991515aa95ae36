/** Rows of the ledger table and its CHECK constraint. */
module LedgerTable {
  import opened Basics
  import opened HashChain

  /** One row; `entry` holds the hashed columns. Instants are microseconds since the epoch. */
  datatype LedgerRow = LedgerRow(
    id: int,
    timestamp: int,
    moduleVersion: string,
    entry: Entry,
    thisHash: string,
    paramHash: string,
    createdAt: int)

  predicate CheckConstraint(row: LedgerRow) {
    (row.id == 1 && row.entry.prev.None?) || (row.id > 1 && row.entry.prev.Some?)
  }

  predicate IdsIncrease(rows: seq<LedgerRow>) {
    forall i, j :: 0 <= i < j < |rows| ==> rows[i].id < rows[j].id
  }
}
