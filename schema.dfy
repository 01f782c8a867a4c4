/**
  The two tables of the inventory database: `products` and `inventory_logs`.
  Both use `INTEGER PRIMARY KEY AUTOINCREMENT`, modelled by a counter that
  holds the next id to hand out (SQLite's `sqlite_sequence` entry plus one);
  a table is a sequence of rows in rowid order.
 */
module Schema {
  import opened Wrappers

  /** A row of `products`. `name` is TEXT NOT NULL, `stock` INTEGER NOT NULL;
      the other text columns may be NULL (`None`). No CHECK constraint bounds
      `stock`. */
  datatype Product = Product(
    id: int,
    name: string,
    unit: Option<string>,
    category: Option<string>,
    brand: Option<string>,
    stock: int,
    status: Option<string>,
    image: Option<string>)

  /** A row of `inventory_logs`. `productId` is declared as a foreign key to
      `products(id)`, but foreign-key enforcement is never switched on, so it
      may name a product that no longer exists. */
  datatype LogEntry = LogEntry(
    id: int,
    productId: int,
    oldStock: int,
    newStock: int,
    changedBy: string,
    timestamp: nat)

  /** The ids of a table read in rowid order rise strictly, and every one is
      below the next id AUTOINCREMENT will assign; ids start at 1. */
  ghost predicate ProductIdsOrdered(ps: seq<Product>, nextId: int) {
    0 < nextId && (forall i :: 0 <= i < |ps| ==> 0 < ps[i].id < nextId) && IdsAscending(ps)
  }

  ghost predicate IdsAscending(ps: seq<Product>) {
    forall i, j :: 0 <= i < j < |ps| ==> ps[i].id < ps[j].id
  }

  ghost predicate LogIdsOrdered(logs: seq<LogEntry>, nextId: int) {
    0 < nextId && (forall i :: 0 <= i < |logs| ==> 0 < logs[i].id < nextId) &&
    (forall i, j :: 0 <= i < j < |logs| ==> logs[i].id < logs[j].id)
  }

  /** `name TEXT UNIQUE`: no two rows carry exactly the same name. */
  ghost predicate NamesUnique(ps: seq<Product>) {
    forall i, j :: 0 <= i < j < |ps| ==> ps[i].name != ps[j].name
  }

  /** Everything the schema itself enforces. Note what is absent: stock may be
      negative, and a log row may point at a product that is gone. */
  ghost predicate TablesWellFormed(ps: seq<Product>, nextProductId: int, logs: seq<LogEntry>, nextLogId: int) {
    ProductIdsOrdered(ps, nextProductId) && NamesUnique(ps) && LogIdsOrdered(logs, nextLogId)
  }
}
