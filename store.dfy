/**
  The write handlers of the inventory API over one in-memory store: create,
  update (with its stock audit), delete and the CSV import. Each request is
  one atomic step; the read handlers are the functions of module `Queries`
  applied to `products` and `logs`.
 */
module Inventory {
  import opened Wrappers
  import opened Text
  import opened Schema
  import opened Queries
  import opened Import

  /** The outcomes the handlers report besides success: HTTP 400 for a failed
      validation or a taken name, HTTP 404 for an unknown id. */
  datatype Error = ValidationError | DuplicateName | NotFound

  datatype Result<T> = Ok(value: T) | Err(error: Error)

  /** The import handler's JSON reply. */
  datatype Summary = Summary(added: nat, skipped: nat, duplicates: seq<Duplicate>)

  /** The express-validator chain shared by create and update: name, unit,
      category, brand and status non-empty, stock an integer of at least 0.
      A field the request leaves out arrives as the empty string. */
  predicate RequestValid(name: string, unit: string, category: string, brand: string,
                         stock: int, status: string)
  {
    name != "" && stock >= 0 && unit != "" && category != "" && brand != "" && status != ""
  }

  /** The row after `UPDATE products SET name = ?, ..., image = ?`: every
      column but the id is replaced, and `image || product.image` keeps the
      stored image when the request gives none. */
  function Revised(before: Product, name: string, unit: string, category: string, brand: string,
                   stock: int, status: string, image: string): Product
  {
    Product(before.id, name, Some(unit), Some(category), Some(brand), stock, Some(status),
            if image != "" then Some(image) else before.image)
  }

  /** The audit row an update writes: `changedBy || 'admin'`. */
  function AuditEntry(logId: int, productId: int, oldStock: int, newStock: int,
                      changedBy: string, now: nat): LogEntry
  {
    LogEntry(logId, productId, oldStock, newStock, if changedBy != "" then changedBy else "admin", now)
  }

  class Store {
    var products: seq<Product>
    var logs: seq<LogEntry>
    var nextProductId: int
    var nextLogId: int

    /** The schema's constraints plus the handlers' name invariant. */
    ghost predicate Valid()
      reads this
    {
      TablesWellFormed(products, nextProductId, logs, nextLogId) &&
      NamesDistinct(products) && NamesPresent(products)
    }

    /** A freshly created database: both tables empty. */
    constructor ()
      ensures Valid()
      ensures products == [] && logs == [] && nextProductId == 1 && nextLogId == 1
    {
      products, logs := [], [];
      nextProductId, nextLogId := 1, 1;
    }

    /** POST /api/products. */
    method Create(name: string, unit: string, category: string, brand: string, stock: int,
                  status: string, image: string) returns (r: Result<Product>)
      requires Valid()
      modifies this
      ensures Valid()
      ensures logs == old(logs) && nextLogId == old(nextLogId)
      ensures r.Ok? || r == Err(ValidationError) || r == Err(DuplicateName)
      ensures r == Err(ValidationError) <==> !RequestValid(name, unit, category, brand, stock, status)
      ensures r == Err(DuplicateName) <==>
        RequestValid(name, unit, category, brand, stock, status) &&
        exists p :: p in old(products) && SameName(p.name, name)
      ensures r.Err? ==> products == old(products) && nextProductId == old(nextProductId)
      ensures r.Ok? ==>
        r.value == Product(old(nextProductId), name, Some(unit), Some(category), Some(brand),
                           stock, Some(status), Some(image)) &&
        products == old(products) + [r.value] && nextProductId == old(nextProductId) + 1
    {
      if !RequestValid(name, unit, category, brand, stock, status) {
        return Err(ValidationError);
      }
      if FindByName(products, name).Some? {
        return Err(DuplicateName);
      }
      var p := Product(nextProductId, name, Some(unit), Some(category), Some(brand),
                       stock, Some(status), Some(image));
      InsertKeepsValid(products, nextProductId, p);
      products := products + [p];
      nextProductId := nextProductId + 1;
      r := Ok(p);
    }

    /** PUT /api/products/:id. The name check comes before the existence
        check, and an audit row is written exactly when the stock changes. */
    method Update(id: int, name: string, unit: string, category: string, brand: string,
                  stock: int, status: string, image: string, changedBy: string, now: nat)
      returns (r: Result<Product>)
      requires Valid()
      modifies this
      ensures Valid()
      ensures nextProductId == old(nextProductId)
      ensures r.Ok? || r == Err(ValidationError) || r == Err(DuplicateName) || r == Err(NotFound)
      ensures r == Err(ValidationError) <==> !RequestValid(name, unit, category, brand, stock, status)
      ensures r == Err(DuplicateName) <==>
        RequestValid(name, unit, category, brand, stock, status) &&
        exists p :: p in old(products) && p.id != id && SameName(p.name, name)
      ensures r == Err(NotFound) <==>
        RequestValid(name, unit, category, brand, stock, status) &&
        (forall p :: p in old(products) && p.id != id ==> !SameName(p.name, name)) &&
        forall p :: p in old(products) ==> p.id != id
      ensures r.Err? ==> products == old(products) && logs == old(logs) && nextLogId == old(nextLogId)
      ensures r.Ok? ==>
        IndexOfId(old(products), id).Some? &&
        var k := IndexOfId(old(products), id).value;
        var before := old(products)[k];
        r.value == Revised(before, name, unit, category, brand, stock, status, image) &&
        products == old(products)[k := r.value] &&
        (before.stock != stock ==>
          logs == old(logs) + [AuditEntry(old(nextLogId), id, before.stock, stock, changedBy, now)] &&
          nextLogId == old(nextLogId) + 1) &&
        (before.stock == stock ==> logs == old(logs) && nextLogId == old(nextLogId))
    {
      if !RequestValid(name, unit, category, brand, stock, status) {
        return Err(ValidationError);
      }
      if FindClash(products, name, id).Some? {
        return Err(DuplicateName);
      }
      var found := IndexOfId(products, id);
      if found.None? {
        return Err(NotFound);
      }
      var k := found.value;
      var before := products[k];
      var after := Revised(before, name, unit, category, brand, stock, status, image);
      ReplaceKeepsValid(products, nextProductId, k, after);
      products := products[k := after];
      if before.stock != stock {
        logs := logs + [AuditEntry(nextLogId, id, before.stock, stock, changedBy, now)];
        nextLogId := nextLogId + 1;
      }
      r := Ok(after);
    }

    /** DELETE /api/products/:id. The product's log rows stay behind. */
    method Delete(id: int) returns (r: Result<()>)
      requires Valid()
      modifies this
      ensures Valid()
      ensures r == Ok(()) || r == Err(NotFound)
      ensures r == Err(NotFound) <==> forall p :: p in old(products) ==> p.id != id
      ensures products == RemoveId(old(products), id)
      ensures |products| == if r.Ok? then |old(products)| - 1 else |old(products)|
      ensures logs == old(logs) && nextProductId == old(nextProductId) && nextLogId == old(nextLogId)
    {
      var found := IndexOfId(products, id);
      RemoveIdCount(products, id);
      SelectionKeepsValid(products, RemoveId(products, id), nextProductId);
      products := RemoveId(products, id);
      r := if found.Some? then Ok(()) else Err(NotFound);
    }

    /** POST /api/products/import: the rows, already parsed, handled one by
        one in order, as `ImportAll` describes. */
    method Import(rows: seq<Row>) returns (summary: Summary)
      requires Valid()
      modifies this
      ensures Valid()
      ensures var b := ImportAll(Batch(old(products), old(nextProductId), 0, 0, []), rows);
        products == b.products && nextProductId == b.nextId &&
        summary == Summary(b.added, b.skipped, b.duplicates)
      ensures summary.added + summary.skipped == |rows|
      ensures logs == old(logs) && nextLogId == old(nextLogId)
    {
      ghost var start := Batch(products, nextProductId, 0, 0, []);
      summary := Summary(0, 0, []);
      var i := 0;
      while i < |rows|
        invariant 0 <= i <= |rows|
        invariant Batch(products, nextProductId, summary.added, summary.skipped, summary.duplicates)
          == ImportAll(start, rows[..i])
        invariant logs == old(logs) && nextLogId == old(nextLogId)
      {
        ghost var before := Batch(products, nextProductId, summary.added, summary.skipped, summary.duplicates);
        summary := ImportOne(rows[i], summary);
        ImportAllNext(start, rows, i, before);
        i := i + 1;
      }
      assert rows[..|rows|] == rows;
    }

    /** One row of an import: dropped when it has no name, recorded as a
        duplicate when a product already has its name, inserted otherwise. */
    method ImportOne(row: Row, so: Summary) returns (next: Summary)
      modifies this
      ensures Batch(products, nextProductId, next.added, next.skipped, next.duplicates)
        == ImportRow(Batch(old(products), old(nextProductId), so.added, so.skipped, so.duplicates), row)
      ensures logs == old(logs) && nextLogId == old(nextLogId)
    {
      ghost var b := Batch(products, nextProductId, so.added, so.skipped, so.duplicates);
      next := so;
      if !HasName(row) {
        next := next.(skipped := next.skipped + 1);
        ImportNamelessRow(b, row);
      } else {
        var name := row.name.value;
        match FindByName(products, name)
        case Some(existing) =>
          next := next.(skipped := next.skipped + 1, duplicates := next.duplicates + [Duplicate(name, existing.id)]);
          ImportMatchedRow(b, row, existing);
        case None =>
          ImportFreshRow(b, row);
          products := products + [NewProduct(nextProductId, row)];
          nextProductId := nextProductId + 1;
          next := next.(added := next.added + 1);
      }
    }
  }
}
