/**
  POST /api/products/import: the reconciler that walks the parsed CSV rows
  one at a time, in order, adding a product for each row whose name is new
  and counting everything else as skipped. `ImportAll` is the whole batch as
  a function of the table and the rows; `Store.Import` runs it as a loop.
 */
module Import {
  import opened Wrappers
  import opened Text
  import opened Schema
  import opened Queries
  import opened Csv
  import opened Export

  /** One parsed CSV row: any column may be missing. */
  datatype Row = Row(
    name: Option<string>,
    unit: Option<string>,
    category: Option<string>,
    brand: Option<string>,
    stock: Option<string>,
    status: Option<string>,
    image: Option<string>)

  /** A skipped row whose name an existing product already has. */
  datatype Duplicate = Duplicate(name: string, existingId: int)

  /** The table as the batch sees it, and the batch's counters so far. */
  datatype Batch = Batch(
    products: seq<Product>,
    nextId: int,
    added: nat,
    skipped: nat,
    duplicates: seq<Duplicate>)

  /** `if (!name)` fails for a missing and for an empty name. */
  predicate HasName(row: Row) {
    row.name.Some? && row.name.value != ""
  }

  /** `parseInt(stock || '0', 10)`; `None` is NaN. */
  function ParsedStock(row: Row): Option<int> {
    ParseInt(OrElse(row.stock, "0"))
  }

  /** A missing or empty stock column falls back to `'0'`, which parses as 0;
      any other text is parsed as it stands. */
  lemma ParsedStockDefault(row: Row)
    ensures row.stock == None || row.stock == Some("") ==> ParsedStock(row) == Some(0)
    ensures row.stock.Some? && row.stock.value != "" ==> ParsedStock(row) == ParseInt(row.stock.value)
  {
    assert DecimalString(0) + "" == "0";
    ParseIntDecimal(0, "");
  }

  /** `isNaN(stockVal) ? 0 : stockVal`. A negative number is kept. */
  function StockOf(row: Row): (stock: int)
    ensures ParsedStock(row).None? ==> stock == 0
    ensures ParsedStock(row).Some? ==> stock == ParsedStock(row).value
  {
    match ParsedStock(row)
    case None => 0
    case Some(v) => v
  }

  /** `status || (stockVal > 0 ? 'In Stock' : 'Out of Stock')`; NaN is not
      greater than zero. */
  function StatusOf(row: Row): (status: string)
    ensures row.status.Some? && row.status.value != "" ==> status == row.status.value
    ensures (row.status == None || row.status == Some("")) ==>
      status == (if StockOf(row) > 0 then "In Stock" else "Out of Stock")
  {
    var inStock := match ParsedStock(row) case Some(v) => v > 0 case None => false;
    OrElse(row.status, if inStock then "In Stock" else "Out of Stock")
  }

  /** The row the INSERT writes: missing text columns become `''`. */
  function NewProduct(id: int, row: Row): (p: Product)
    requires HasName(row)
    ensures p.id == id && p.name == row.name.value && p.stock == StockOf(row)
    ensures p.status == Some(StatusOf(row))
    ensures p.unit == Some(OrElse(row.unit, "")) && p.category == Some(OrElse(row.category, ""))
    ensures p.brand == Some(OrElse(row.brand, "")) && p.image == Some(OrElse(row.image, ""))
  {
    Product(id, row.name.value, Some(OrElse(row.unit, "")), Some(OrElse(row.category, "")),
            Some(OrElse(row.brand, "")), StockOf(row), Some(StatusOf(row)), Some(OrElse(row.image, "")))
  }

  /** One step of `processNext`: exactly one of the two counters grows; a
      nameless row is dropped silently, a row whose name matches a product
      (case-insensitively) is recorded as a duplicate of it, and any other row
      is inserted under the next id. */
  function ImportRow(b: Batch, row: Row): (r: Batch)
    ensures r.added + r.skipped == b.added + b.skipped + 1
    ensures r.added == b.added + 1 <==> HasName(row) && FindByName(b.products, row.name.value).None?
    ensures r.added == b.added + 1 ==>
      r.products == b.products + [NewProduct(b.nextId, row)] && r.nextId == b.nextId + 1 &&
      r.duplicates == b.duplicates
    ensures r.skipped == b.skipped + 1 ==> r.products == b.products && r.nextId == b.nextId
    ensures !(HasName(row) && FindByName(b.products, row.name.value).None?) ==>
      r.added == b.added && r.skipped == b.skipped + 1 && r.products == b.products && r.nextId == b.nextId
    ensures !HasName(row) ==> r.duplicates == b.duplicates
    ensures HasName(row) && FindByName(b.products, row.name.value).Some? ==>
      r.duplicates == b.duplicates + [Duplicate(row.name.value, FindByName(b.products, row.name.value).value.id)]
    ensures CatalogValid(b.products, b.nextId) && HasName(row) ==>
      forall q :: q in b.products && SameName(q.name, row.name.value) ==>
        r.duplicates == b.duplicates + [Duplicate(row.name.value, q.id)]
    ensures CatalogValid(b.products, b.nextId) ==> CatalogValid(r.products, r.nextId)
  {
    if !HasName(row) then
      b.(skipped := b.skipped + 1)
    else
      var name := row.name.value;
      match FindByName(b.products, name)
      case Some(existing) =>
        OnlyMatch(b.products, b.nextId, name, existing);
        b.(skipped := b.skipped + 1, duplicates := b.duplicates + [Duplicate(name, existing.id)])
      case None =>
        var p := NewProduct(b.nextId, row);
        FreshKeepsValid(b.products, b.nextId, p);
        b.(products := b.products + [p], nextId := b.nextId + 1, added := b.added + 1)
  }

  /** Under the invariant, the product the lookup finds is the only match. */
  lemma OnlyMatch(ps: seq<Product>, nextId: int, name: string, existing: Product)
    requires FindByName(ps, name) == Some(existing)
    ensures CatalogValid(ps, nextId) ==>
      forall q :: q in ps && SameName(q.name, name) ==> q == existing
  {
    if CatalogValid(ps, nextId) {
      forall q | q in ps && SameName(q.name, name) ensures q == existing {
        FindByNameUnique(ps, name, q);
      }
    }
  }

  /** Appending a new product whose name matches nothing keeps the invariant. */
  lemma FreshKeepsValid(ps: seq<Product>, nextId: int, p: Product)
    requires p.id == nextId && p.name != "" && FindByName(ps, p.name).None?
    ensures CatalogValid(ps, nextId) ==> CatalogValid(ps + [p], nextId + 1)
  {
    if CatalogValid(ps, nextId) { InsertKeepsValid(ps, nextId, p); }
  }

  /** The rows processed strictly in input order, each one seeing the
      products the rows before it inserted. */
  function ImportAll(b: Batch, rows: seq<Row>): (r: Batch)
    ensures r.added + r.skipped == b.added + b.skipped + |rows|
    ensures r.added >= b.added && r.skipped >= b.skipped
    ensures |r.products| == |b.products| + (r.added - b.added) && r.products[..|b.products|] == b.products
    ensures r.nextId == b.nextId + (r.added - b.added)
    ensures |r.duplicates| >= |b.duplicates| && r.duplicates[..|b.duplicates|] == b.duplicates
    ensures CatalogValid(b.products, b.nextId) ==> CatalogValid(r.products, r.nextId)
    decreases |rows|
  {
    if rows == [] then b
    else
      var mid := ImportAll(b, rows[..|rows| - 1]);
      var r := ImportRow(mid, rows[|rows| - 1]);
      assert r.products[..|b.products|] == b.products by {
        assert r.products[..|mid.products|] == mid.products;
        assert mid.products[..|b.products|] == b.products;
      }
      assert r.duplicates[..|b.duplicates|] == b.duplicates by {
        assert r.duplicates[..|mid.duplicates|] == mid.duplicates;
      }
      r
  }

  /** One more row of the input, folded into the batch so far. */
  lemma ImportAllNext(b: Batch, rows: seq<Row>, i: nat, mid: Batch)
    requires i < |rows| && mid == ImportAll(b, rows[..i])
    ensures ImportAll(b, rows[..i + 1]) == ImportRow(mid, rows[i])
  {
    assert rows[..i + 1][..i] == rows[..i];
  }

  // ---------------------------------------------------------------------
  // Properties of a batch

  /** Every named row has a case-insensitive match among `ps`. */
  ghost predicate Covered(ps: seq<Product>, rows: seq<Row>) {
    forall k :: 0 <= k < |rows| && HasName(rows[k]) ==> FindByName(ps, rows[k].name.value).Some?
  }

  /** Once a lookup succeeds, it keeps succeeding on any longer table. */
  lemma FindByNameExtends(ps: seq<Product>, qs: seq<Product>, name: string)
    requires FindByName(ps, name).Some?
    ensures FindByName(ps + qs, name).Some?
  {
    var p := FindByName(ps, name).value;
    assert p in ps + qs;
  }

  /** After a batch, every named row of it matches some product: it was either
      a duplicate of one already there, or it was added. */
  lemma {:induction false} ImportCovers(b: Batch, rows: seq<Row>)
    ensures Covered(ImportAll(b, rows).products, rows)
    decreases |rows|
  {
    if rows != [] {
      var n := |rows| - 1;
      var mid := ImportAll(b, rows[..n]);
      var r := ImportRow(mid, rows[n]);
      assert ImportAll(b, rows) == r;
      ImportCovers(b, rows[..n]);
      forall k | 0 <= k < |rows| && HasName(rows[k])
        ensures FindByName(r.products, rows[k].name.value).Some?
      {
        var name := rows[k].name.value;
        if k < n {
          assert rows[..n][k] == rows[k];
          ImportRowKeepsMatch(mid, rows[n], name);
        } else {
          ImportRowCoversItself(mid, rows[n]);
        }
      }
    }
  }

  /** A name that matched before a row still matches after it. */
  lemma ImportRowKeepsMatch(mid: Batch, row: Row, name: string)
    requires FindByName(mid.products, name).Some?
    ensures FindByName(ImportRow(mid, row).products, name).Some?
  {
    var r := ImportRow(mid, row);
    FindByNameExtends(mid.products, r.products[|mid.products|..], name);
    assert mid.products + r.products[|mid.products|..] == r.products;
  }

  /** After a named row, its name matches some product. */
  lemma ImportRowCoversItself(mid: Batch, row: Row)
    requires HasName(row)
    ensures FindByName(ImportRow(mid, row).products, row.name.value).Some?
  {
    if FindByName(mid.products, row.name.value).Some? {
      ImportRowKeepsMatch(mid, row, row.name.value);
    } else {
      assert NewProduct(mid.nextId, row) in ImportRow(mid, row).products;
    }
  }

  /** A batch whose named rows all match existing products changes nothing
      but the skip counter and the duplicate list. */
  lemma {:induction false} ImportAllCovered(b: Batch, rows: seq<Row>)
    requires Covered(b.products, rows)
    ensures var r := ImportAll(b, rows);
      r.products == b.products && r.nextId == b.nextId && r.added == b.added &&
      r.skipped == b.skipped + |rows|
    decreases |rows|
  {
    if rows != [] {
      var n := |rows| - 1;
      assert Covered(b.products, rows[..n]) by {
        forall k | 0 <= k < n && HasName(rows[..n][k])
          ensures FindByName(b.products, rows[..n][k].name.value).Some?
        {
          assert rows[..n][k] == rows[k];
        }
      }
      ImportAllCovered(b, rows[..n]);
    }
  }

  /** Importing the same batch a second time, with no deletions in between,
      adds nothing and skips every row. */
  lemma ImportAgain(b: Batch, rows: seq<Row>)
    ensures var first := ImportAll(b, rows);
      var second := ImportAll(Batch(first.products, first.nextId, 0, 0, []), rows);
      second.added == 0 && second.skipped == |rows| &&
      second.products == first.products && second.nextId == first.nextId
  {
    var first := ImportAll(b, rows);
    ImportCovers(b, rows);
    ImportAllCovered(Batch(first.products, first.nextId, 0, 0, []), rows);
  }

  /** Two rows with the same name (up to case) and no earlier match: the
      first is added and the second is reported as a duplicate of it. */
  lemma ImportSameNameTwice(b: Batch, first: Row, second: Row)
    requires HasName(first) && HasName(second) && SameName(first.name.value, second.name.value)
    requires FindByName(b.products, first.name.value).None?
    ensures var r := ImportAll(b, [first, second]);
      r.added == b.added + 1 && r.skipped == b.skipped + 1 &&
      r.products == b.products + [NewProduct(b.nextId, first)] &&
      r.duplicates == b.duplicates + [Duplicate(second.name.value, b.nextId)]
  {
    var rows := [first, second];
    assert rows[..1] == [first] && [first][..0] == [];
    var mid := ImportAll(b, [first]);
    assert ImportAll(b, []) == b;
    assert mid == ImportRow(b, first);
    var p := NewProduct(b.nextId, first);
    assert FindByName(b.products, second.name.value).None?;
    FindByNameAppend(b.products, p, second.name.value);
  }

  /** The product a duplicate entry points at is in `ps`, under that id and
      with a matching name. */
  ghost predicate Refers(ps: seq<Product>, d: Duplicate) {
    exists p :: p in ps && p.id == d.existingId && SameName(p.name, d.name)
  }

  /** Every duplicate a batch reports names a product that is in the table
      at the end of the batch and whose name matches it case-insensitively. */
  lemma {:induction false} ImportDuplicatesExist(b: Batch, rows: seq<Row>)
    ensures forall k :: |b.duplicates| <= k < |ImportAll(b, rows).duplicates| ==>
      Refers(ImportAll(b, rows).products, ImportAll(b, rows).duplicates[k])
    decreases |rows|
  {
    if rows != [] {
      var n := |rows| - 1;
      var mid := ImportAll(b, rows[..n]);
      var r := ImportRow(mid, rows[n]);
      ImportDuplicatesExist(b, rows[..n]);
      forall k | |b.duplicates| <= k < |r.duplicates|
        ensures Refers(r.products, r.duplicates[k])
      {
        if k < |mid.duplicates| {
          assert r.duplicates[k] == mid.duplicates[k];
          assert Refers(mid.products, mid.duplicates[k]);
          var p :| p in mid.products && p.id == mid.duplicates[k].existingId &&
                   SameName(p.name, mid.duplicates[k].name);
          assert p in r.products;
        } else {
          var p := FindByName(mid.products, rows[n].name.value).value;
          assert p in r.products;
        }
      }
    }
  }

  // ---------------------------------------------------------------------
  // Export, then import

  /** The row a CSV reader produces from one exported line, by column. */
  function RowOf(fields: seq<string>): (row: Row)
    requires |fields| == 7
    ensures row.name == Some(fields[0]) && row.stock == Some(fields[4])
  {
    Row(Some(fields[0]), Some(fields[1]), Some(fields[2]), Some(fields[3]),
        Some(fields[4]), Some(fields[5]), Some(fields[6]))
  }

  function RowsOf(records: seq<seq<string>>): (rows: seq<Row>)
    requires forall k :: 0 <= k < |records| ==> |records[k]| == 7
    ensures |rows| == |records|
    ensures forall k :: 0 <= k < |records| ==> rows[k] == RowOf(records[k])
  {
    if records == [] then [] else [RowOf(records[0])] + RowsOf(records[1..])
  }

  lemma RowsOfPrefix(ps: seq<Product>, n: nat)
    requires n <= |ps|
    ensures RowsOf(Records(ps))[..n] == RowsOf(Records(ps[..n]))
  {
    var whole, prefix := RowsOf(Records(ps))[..n], RowsOf(Records(ps[..n]));
    forall k | 0 <= k < n ensures whole[k] == prefix[k] {
      assert ps[..n][k] == ps[k];
    }
  }

  /** The product an exported product turns into on import: the same name
      and stock, NULL text columns as `''`, and an empty status replaced by
      the default its stock implies. */
  function Reimported(p: Product, id: int): Product {
    Product(id, p.name, Some(OrElse(p.unit, "")), Some(OrElse(p.category, "")),
            Some(OrElse(p.brand, "")), p.stock,
            Some(OrElse(p.status, if p.stock > 0 then "In Stock" else "Out of Stock")),
            Some(OrElse(p.image, "")))
  }

  /** Importing the line exported for a product writes `Reimported`: in
      particular `parseInt` reads back the stock `String()` wrote. */
  lemma ReimportOne(p: Product, id: int)
    requires p.name != ""
    ensures NewProduct(id, RowOf(Fields(p))) == Reimported(p, id)
  {
    var fields := Fields(p);
    var row := RowOf(fields);
    var ds := DecimalString(p.stock);
    assert row.stock == Some(ds) && ds != "";
    ParseIntDecimal(p.stock, "");
    assert ds + "" == ds;
    assert ParsedStock(row) == Some(p.stock);
    assert StockOf(row) == p.stock;
    var q, want := NewProduct(id, row), Reimported(p, id);
    assert q.unit == want.unit && q.category == want.category && q.brand == want.brand by {
      assert row.unit == Some(fields[1]) && row.category == Some(fields[2]) && row.brand == Some(fields[3]);
    }
    assert q.status == want.status by {
      assert row.status == Some(OrElse(p.status, ""));
    }
    assert q.image == want.image by {
      assert row.image == Some(fields[6]);
    }
  }

  /** `qs` is what importing `ps`, in order, from id `nextId` on, writes. */
  ghost predicate ReimportedAll(ps: seq<Product>, qs: seq<Product>, nextId: int) {
    |qs| == |ps| && forall k :: 0 <= k < |ps| ==> qs[k] == Reimported(ps[k], nextId + k)
  }

  /** The next exported product matches none imported before it. */
  lemma NoEarlierMatch(ps: seq<Product>, qs: seq<Product>, nextId: int)
    requires NamesDistinct(ps) && NamesPresent(ps) && |ps| > 0
    requires ReimportedAll(ps[..|ps| - 1], qs, nextId)
    ensures FindByName(qs, ps[|ps| - 1].name).None?
  {
    var n := |ps| - 1;
    forall q | q in qs ensures !SameName(q.name, ps[n].name) {
      var i :| 0 <= i < |qs| && qs[i] == q;
      assert q.name == ps[i].name;
    }
  }

  lemma ReimportedAllSnoc(ps: seq<Product>, qs: seq<Product>, nextId: int)
    requires |ps| > 0
    requires ReimportedAll(ps[..|ps| - 1], qs, nextId)
    ensures ReimportedAll(ps, qs + [Reimported(ps[|ps| - 1], nextId + |ps| - 1)], nextId)
  {
    var n := |ps| - 1;
    forall k | 0 <= k < n ensures qs[k] == Reimported(ps[k], nextId + k) {
      assert ps[..n][k] == ps[k];
    }
  }

  /** A named row that matches nothing is added under the next id. */
  lemma ImportFreshRow(mid: Batch, row: Row)
    requires HasName(row) && FindByName(mid.products, row.name.value).None?
    ensures ImportRow(mid, row) ==
      mid.(products := mid.products + [NewProduct(mid.nextId, row)], nextId := mid.nextId + 1,
           added := mid.added + 1)
  {
  }

  /** A row without a name is only counted as skipped. */
  lemma ImportNamelessRow(b: Batch, row: Row)
    requires !HasName(row)
    ensures ImportRow(b, row) == b.(skipped := b.skipped + 1)
  {
  }

  /** A named row that matches a product is skipped and listed as its duplicate. */
  lemma ImportMatchedRow(b: Batch, row: Row, existing: Product)
    requires HasName(row) && FindByName(b.products, row.name.value) == Some(existing)
    ensures ImportRow(b, row) ==
      b.(skipped := b.skipped + 1, duplicates := b.duplicates + [Duplicate(row.name.value, existing.id)])
  {
  }

  /** The state after importing the first `|done|` exported products. */
  ghost predicate ImportedSoFar(done: seq<Product>, nextId: int, mid: Batch) {
    mid.added == |done| && mid.skipped == 0 && mid.duplicates == [] &&
    mid.nextId == nextId + |done| && ReimportedAll(done, mid.products, nextId)
  }

  lemma ExportThenImportStep(ps: seq<Product>, nextId: int, mid: Batch)
    requires NamesDistinct(ps) && NamesPresent(ps) && |ps| > 0
    requires ImportedSoFar(ps[..|ps| - 1], nextId, mid)
    ensures ImportedSoFar(ps, nextId, ImportRow(mid, RowOf(Fields(ps[|ps| - 1]))))
  {
    var n := |ps| - 1;
    var row := RowOf(Fields(ps[n]));
    NoEarlierMatch(ps, mid.products, nextId);
    ImportFreshRow(mid, row);
    var next := ImportRow(mid, row);
    var q := NewProduct(mid.nextId, row);
    assert next.products == mid.products + [q];
    ReimportOne(ps[n], nextId + n);
    assert q == Reimported(ps[n], nextId + n);
    ReimportedAllSnoc(ps, mid.products, nextId);
    assert ReimportedAll(ps, next.products, nextId);
    assert next.added == |ps| && next.skipped == 0 && next.duplicates == [] && next.nextId == nextId + |ps|;
  }

  /** The records of an export, read back as rows and imported into an empty
      table, add one product per exported product, in the same order, and
      skip nothing. */
  lemma {:induction false} ExportThenImport(ps: seq<Product>, nextId: int)
    requires NamesDistinct(ps) && NamesPresent(ps)
    ensures ImportedSoFar(ps, nextId, ImportAll(Batch([], nextId, 0, 0, []), RowsOf(Records(ps))))
    decreases |ps|
  {
    if ps != [] {
      var n := |ps| - 1;
      PrefixValid(ps, n);
      ExportThenImport(ps[..n], nextId);
      ExportThenImportLast(ps, nextId);
    }
  }

  lemma PrefixValid(ps: seq<Product>, n: nat)
    requires NamesDistinct(ps) && NamesPresent(ps) && n <= |ps|
    ensures NamesDistinct(ps[..n]) && NamesPresent(ps[..n])
  {
    assert forall i :: 0 <= i < n ==> ps[..n][i] == ps[i];
  }

  /** The last exported line, imported after all the others. */
  lemma ExportThenImportLast(ps: seq<Product>, nextId: int)
    requires NamesDistinct(ps) && NamesPresent(ps) && |ps| > 0
    requires ImportedSoFar(ps[..|ps| - 1], nextId,
      ImportAll(Batch([], nextId, 0, 0, []), RowsOf(Records(ps[..|ps| - 1]))))
    ensures ImportedSoFar(ps, nextId, ImportAll(Batch([], nextId, 0, 0, []), RowsOf(Records(ps))))
  {
    var b := Batch([], nextId, 0, 0, []);
    var rows := RowsOf(Records(ps));
    var n := |ps| - 1;
    RowsOfPrefix(ps, n);
    var mid := ImportAll(b, rows[..n]);
    assert mid == ImportAll(b, RowsOf(Records(ps[..n])));
    assert ImportedSoFar(ps[..n], nextId, mid);
    assert rows[n] == RowOf(Fields(ps[n]));
    assert ImportAll(b, rows) == ImportRow(mid, rows[n]);
    ExportThenImportStep(ps, nextId, mid);
  }

  /** The same, starting from the exported text itself: the document reads
      back as the records, and importing them re-creates every product with
      its name and stock. */
  lemma ExportDocumentThenImport(ps: seq<Product>, nextId: int)
    requires NamesDistinct(ps) && NamesPresent(ps)
    ensures DecodeExport(ExportCsv(ps)) == Some(Records(ps))
    ensures var r := ImportAll(Batch([], nextId, 0, 0, []), RowsOf(Records(ps)));
      r.added == |ps| && r.skipped == 0 && |r.products| == |ps| &&
      forall k :: 0 <= k < |ps| ==> r.products[k].name == ps[k].name && r.products[k].stock == ps[k].stock
  {
    ExportRoundTrip(ps);
    ExportThenImport(ps, nextId);
  }
}
