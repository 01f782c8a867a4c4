# Inventory backend, modelled in Dafny

This project models the Express/SQLite backend of a small inventory manager.
The backend keeps a `products` table and an `inventory_logs` audit table. Its
handlers do the following:

- list products, optionally filtered by category;
- search products by a case-insensitive name fragment;
- show the stock history of a product, newest first;
- create, update and delete products;
- import products from a CSV file;
- export all products as CSV.

The model is split into modules that follow the program:

| file | module | what it holds |
|---|---|---|
| `wrappers.dfy` | `Wrappers` | `Option` |
| `text.dfy` | `Text` | SQLite `lower()`, the substring test behind `LIKE '%q%'`, JavaScript `a \|\| b` on optional strings, `String(n)` and `parseInt(s, 10)` |
| `schema.dfy` | `Schema` | the two tables and the constraints their DDL declares |
| `queries.dfy` | `Queries` | the read queries and the lookups the write handlers run; the name invariant and the lemmas that the writes keep it |
| `csv.dfy` | `Csv` | the quoting the export uses, and a reader for that dialect |
| `export.dfy` | `Export` | `GET /api/products/export` |
| `import.dfy` | `Import` | `POST /api/products/import` as a pure fold over the rows (`ImportAll`), its properties, and export-then-import |
| `store.dfy` | `Inventory` | class `Store`: the database as mutable state, and the write handlers as methods |

A table is a sequence of rows in rowid order. AUTOINCREMENT is a counter
holding the next id to hand out. `Store.Valid()` holds these facts:

- both tables satisfy their schema (ids ascending, positive and below the counter);
- `name` is UNIQUE;
- no two product names are equal after lower-casing;
- no product name is empty.

The last two facts are not in the DDL. The handlers maintain them: every
insert and rename first checks `lower(name) = lower(?)`. Each write method
states its whole new state in terms of the old one.

## Model

Some functions are plain definitions that the contracts below are written in,
and have no row of their own:

- `Text.OrElse` (`v || fallback`);
- `Export.Fields`, the seven exported columns of a product;
- `Import.StockOf` and `Import.NewProduct`, the stock and the row the import's INSERT writes;
- `Import.RowOf`, the row a CSV reader makes of an exported line;
- `Csv.Join`, `Csv.EncodeLine` and `Csv.Encode`;
- `Import.HasName`;
- `Inventory.RequestValid`, `Inventory.Revised` and `Inventory.AuditEntry`.

Their meaning is stated by the rows that use them:

- `Import.ParsedStockDefault`, `Import.StatusOf`, `Import.ImportRow` and `Import.ReimportOne` for the import's definitions;
- `Export.Records` and `Export.ExportRoundTrip` for the export's;
- `Csv.EncodeRoundTrip` for the CSV encoding;
- `Inventory.Store.Create` and `Inventory.Store.Update` for the request checks, the revised row and the audit row.

| member | source | states |
|---|---|---|
| Inventory.Store.constructor | backend/db.js:8-31 | a new database has both tables empty and both AUTOINCREMENT counters at 1, and satisfies the invariant |
| Queries.DistinctNamesAreUnique | backend/db.js:11 | names that differ after lower-casing are also different as written, so the handlers' case-insensitive check implies the UNIQUE constraint |
| Queries.InsertKeepsValid | backend/db.js:9-18 | inserting a row under the next id, with a non-empty name that matches no product case-insensitively, keeps ids ascending and bounded and names unique |
| Queries.SelectionKeepsValid | backend/server.js:66 | any subset of a valid table's rows, kept in rowid order, is still valid; this covers what DELETE leaves |
| Queries.ReplaceKeepsValid | backend/server.js:118-134 | replacing one row by a row with the same id, whose non-empty name no other row matches, keeps the table valid |
| Queries.FindByName | backend/server.js:215-218 | the lookup finds a product whose lower-cased name equals the lower-cased query, and finds none exactly when no product matches |
| Queries.FindByNameUnique | backend/server.js:215-226 | under the name invariant at most one product matches a name, so the lookup returns that product whichever row SQLite happens to return first |
| Queries.FindByNameAppend | backend/server.js:215-227 | once a name matches nothing, appending a matching row makes the lookup return that row |
| Queries.FindClash | backend/server.js:98-106 | finds a product with a different id whose name matches case-insensitively, and finds none exactly when no such product exists |
| Queries.IndexOfId | backend/server.js:109-112 | gives the position of the row with the given id, or nothing exactly when no row has that id |
| Queries.RemoveId | backend/server.js:66 | DELETE keeps exactly the rows whose id differs, keeps ids ascending, and leaves the table unchanged when the id is absent |
| Queries.RemoveIdCount | backend/server.js:66-70 | DELETE removes exactly one row when the id is present and none otherwise, so `this.changes === 0` means not found |
| Queries.WithCategory | backend/server.js:26-29 | `WHERE category = ?` keeps exactly the rows whose category equals the filter (a NULL category never does), in rowid order |
| Queries.ListProducts | backend/server.js:21-34 | a missing, empty or `All` category returns the whole table; any other category returns exactly the rows with that category, in rowid order |
| Queries.WithNameContaining | backend/server.js:42-43 | keeps exactly the rows whose lower-cased name contains the fragment, in rowid order |
| Queries.SearchProducts | backend/server.js:38-49 | a missing or empty query returns nothing; otherwise a product is returned exactly when its lower-cased name contains the lower-cased query somewhere; the result is in rowid order |
| Queries.OfProduct | backend/server.js:54-55 | `WHERE productId = ?` keeps each log row of the given product exactly as often as it is stored, and no row of another product |
| Queries.InsertByTime | backend/server.js:55 | inserting an entry into a newest-first list keeps it newest first and adds exactly that entry |
| Queries.NewestFirstOrder | backend/server.js:55 | `ORDER BY timestamp DESC` gives a newest-first permutation of its input |
| Queries.History | backend/server.js:52-61 | the history is newest first, holds each log row of the product exactly as often as it is stored, and holds no other row |
| Text.Lower | backend/server.js:43 | `lower()` keeps the length and folds each character on its own |
| Text.Contains | backend/server.js:42-43 | `LIKE '%q%'` on a wildcard-free q holds exactly when q occurs at some position of the text |
| Text.NatString | backend/server.js:292 | the decimal digits of a natural number are non-empty, all digits, spell that number, and start with `0` only for 0 itself |
| Text.DecimalString | backend/server.js:292 | `String(n)` of an integer starts with `-` exactly when n is negative; the rest is non-empty, all digits, spells the magnitude of n, and has no leading zero unless n is 0 |
| Text.SkipSpace | backend/server.js:234 | parseInt's skip drops exactly the leading white space: everything dropped is white space, and what is left is a suffix that does not start with white space |
| Text.SkipSpaceAppend | backend/server.js:234 | white space put in front of a text changes nothing after the skip |
| Text.ParseIntSkipsSpace | backend/server.js:234 | `parseInt(w + s, 10)` equals `parseInt(s, 10)` whenever w is all white space |
| Text.ParseIntNaN | backend/server.js:234-243 | once white space is skipped, `parseInt` gives NaN exactly when no digit follows the optional sign, so an empty or non-numeric stock column is NaN |
| Text.DigitRun | backend/server.js:234 | the digit run parseInt reads is all digits and stops at the first non-digit |
| Text.ParseDigits | backend/server.js:234 | reading digits fails (NaN) exactly when the text does not start with a digit |
| Text.ParseIntDecimal | backend/server.js:234 | `parseInt(String(n) + rest, 10)` is n for every integer n, whatever non-digit text follows |
| Text.ParseIntNatDecimal | backend/server.js:234 | the same, for the digits of a natural number |
| Text.ParseIntNegativeDecimal | backend/server.js:234 | the same, for a minus sign followed by digits |
| Csv.ReadEscaped | backend/server.js:292 | reading an escaped field stops at its closing quote and gives back the field and exactly the text after it |
| Csv.Quote | backend/server.js:292 | wrapping a field in quotes with each inner `"` doubled loses nothing: stripping the quotes and collapsing `""` gives back the field |
| Csv.DecodeLineThen | backend/server.js:292-297 | a record followed by the encoding of further records reads back as that record followed by those records |
| Csv.EncodeRoundTrip | backend/server.js:292-297 | any non-empty list of non-empty records, quoted and joined by commas and line feeds, reads back exactly |
| Export.Records | backend/server.js:282-295 | one record per product, in table order, each the product's seven fields |
| Export.ExportCsv | backend/server.js:270-297 | an empty table exports the header alone; otherwise the header, a line feed and the encoded records |
| Export.ExportRoundTrip | backend/server.js:266-306 | the exported document reads back as exactly the records of the products, in table order |
| Import.ParsedStockDefault | backend/server.js:234 | `parseInt(stock \|\| '0', 10)` is 0 when the stock column is missing or empty, and parses the column's own text otherwise |
| Import.StatusOf | backend/server.js:244 | a non-empty status is kept; otherwise `In Stock` when the parsed stock is positive and `Out of Stock` otherwise, NaN included |
| Import.ImportRow | backend/server.js:198-255 | handling one row adds one to exactly one counter. A row is added exactly when it has a name that matches no product; an added row is appended under the next id. Every other row adds one to `skipped` only and leaves the table and the id counter alone. A nameless row lists no duplicate; a matching row is listed as a duplicate of the matching product, which under the invariant is the only one. The invariant is kept |
| Import.ImportAll | backend/server.js:192-260 | after a batch, added plus skipped is the number of rows. Existing products stay in place and new ones are appended. The id counter rises by the number added. The invariant is kept |
| Import.ImportCovers | backend/server.js:209-227 | after a batch, every named row matches some product case-insensitively |
| Import.ImportAllCovered | backend/server.js:215-227 | a batch whose named rows all match existing products changes no product and skips every row |
| Import.ImportAgain | backend/server.js:192-260 | importing the same file twice in a row adds nothing the second time and skips every row |
| Import.ImportSameNameTwice | backend/server.js:215-251 | two rows with the same name up to case: the first is added and the second is reported as a duplicate of the product just added |
| Import.ImportDuplicatesExist | backend/server.js:223-226 | every reported duplicate names a product in the table under that id whose name matches case-insensitively |
| Import.RowsOf | backend/server.js:185-189 | one row per record, in order |
| Import.ReimportOne | backend/server.js:234-246 | importing the line exported for a product writes the same name and stock, with `''` for NULL columns and the default status for an empty one |
| Import.ExportThenImport | backend/server.js:171-306 | exporting a valid table and importing the result into an empty one adds every product, in order, under consecutive ids, and skips nothing |
| Import.ExportDocumentThenImport | backend/server.js:266-306 | the same, starting from the exported text: it reads back as the records, and importing them re-creates each product's name and stock |
| Inventory.Store.Create | backend/server.js:310-360 | fails validation exactly when a required field is empty or the stock is negative. Otherwise fails with a duplicate exactly when a product's name matches case-insensitively. Otherwise appends the product under the next id, with a missing image stored as `''`. Logs are untouched |
| Inventory.Store.Update | backend/server.js:75-168 | checks validation, then a name clash with another product, then existence, each error leaving the tables alone. On success only that row changes, to the request's values; an empty image keeps the stored one. One audit row (`changedBy` defaulting to `admin`) is appended exactly when the stock changed |
| Inventory.Store.Delete | backend/server.js:63-72 | removes exactly the row with the id. Reports not found exactly when no row has it. Leaves the log rows behind |
| Inventory.Store.Import | backend/server.js:171-263 | the loop over the rows leaves the table, the id counter and the summary exactly as `ImportAll` describes. added plus skipped is the number of rows, logs are untouched and the invariant is kept |
| Inventory.Store.ImportOne | backend/server.js:198-256 | one row changes the table and the counters exactly as `ImportRow` describes |

## Left out

- HTTP itself is not modelled: routing, status codes, JSON bodies and the `GET /` banner. Each handler is a method or function whose result names the outcome.
- Database errors (the HTTP 500 branches) are left out. In the import, a failed lookup or insert counts as skipped; the model has no database failures, so that branch never arises. With the name invariant, the INSERT cannot violate UNIQUE.
- Concurrency is not modelled. Each request is one atomic step. The audit insert in the update handler is fire-and-forget; the model writes it within the same step.
- express-validator is reduced to what it checks: non-empty strings, and a stock that is an integer of at least 0. A request field that is absent is the empty string. The stock arrives as an integer, so the model does not apply the update handler's `parseInt` to a validated string.
- The file upload (multer), the file stream, `fs.unlinkSync` and `csv-parser` are not modelled. The import takes the rows already parsed. csv-parser maps columns by header; the export-then-import lemmas use the export's column order (`RowOf`). A missing upload (HTTP 400) is not modelled.
- Timestamps are natural numbers given to `Store.Update` (`now`). They stand for `new Date().toISOString()`, whose strings sort like the instants they name.
- Queries.History: SQL leaves the order of rows with equal timestamps open; the model picks one newest-first order.
- Queries.ListProducts: `SELECT *` without `ORDER BY` is taken to return rows in rowid order.
- Queries.SearchProducts: `%` and `_` inside the query act as LIKE wildcards in SQLite; the model treats them as ordinary characters.
- Text.Lower: SQLite's `lower()` and LIKE fold only ASCII letters; JavaScript's `toLowerCase()` also folds non-ASCII letters. The model folds ASCII on both sides.
- Text.ParseIntDecimal: JavaScript numbers are doubles. Integers beyond 2^53 and exponent notation in `String(n)` are not modelled.
- The frontend is not part of this model.
