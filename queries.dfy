/**
  The read side of the inventory API, each a pure function of the tables:
  the product list with its category filter, the case-insensitive name
  search, a product's stock history, and the lookups the write handlers run
  before they change anything.
 */
module Queries {
  import opened Wrappers
  import opened Text
  import opened Schema

  /** The service-level invariant on names: no two products share a name once
      both are lower-cased, and no product has an empty name. */
  ghost predicate NamesDistinct(ps: seq<Product>) {
    forall i, j :: 0 <= i < j < |ps| ==> Lower(ps[i].name) != Lower(ps[j].name)
  }

  ghost predicate NamesPresent(ps: seq<Product>) {
    forall i :: 0 <= i < |ps| ==> ps[i].name != ""
  }

  /** Distinct lower-cased names imply the exact-match UNIQUE constraint. */
  lemma DistinctNamesAreUnique(ps: seq<Product>)
    requires NamesDistinct(ps)
    ensures NamesUnique(ps)
  {
    forall i, j | 0 <= i < j < |ps| ensures ps[i].name != ps[j].name {
      assert Lower(ps[i].name) != Lower(ps[j].name);
    }
  }

  /** The products table as the handlers keep it: the schema's constraints
      plus the case-insensitive name invariant. */
  ghost predicate CatalogValid(ps: seq<Product>, nextId: int) {
    ProductIdsOrdered(ps, nextId) && NamesUnique(ps) && NamesDistinct(ps) && NamesPresent(ps)
  }

  /** Inserting a row under the next AUTOINCREMENT id, with a non-empty name
      no product matches case-insensitively, keeps the table valid. */
  lemma InsertKeepsValid(ps: seq<Product>, nextId: int, p: Product)
    requires CatalogValid(ps, nextId)
    requires p.id == nextId && p.name != "" && FindByName(ps, p.name).None?
    ensures CatalogValid(ps + [p], nextId + 1)
  {
    var qs := ps + [p];
    forall i, j | 0 <= i < j < |qs| ensures Lower(qs[i].name) != Lower(qs[j].name) {
      assert qs[i] == ps[i];
      if j == |ps| {
        assert qs[j] == p && ps[i] in ps;
        assert !SameName(ps[i].name, p.name);
      } else {
        assert qs[j] == ps[j];
      }
    }
    DistinctNamesAreUnique(qs);
    forall i | 0 <= i < |qs| ensures 0 < qs[i].id < nextId + 1 && qs[i].name != "" {
      if i < |ps| { assert qs[i] == ps[i]; }
    }
    forall i, j | 0 <= i < j < |qs| ensures qs[i].id < qs[j].id {
      assert qs[i] == ps[i];
      if j < |ps| { assert qs[j] == ps[j]; }
    }
  }

  /** Any selection of a valid table's rows, kept in rowid order, is valid:
      what Delete leaves behind. */
  lemma SelectionKeepsValid(ps: seq<Product>, qs: seq<Product>, nextId: int)
    requires CatalogValid(ps, nextId)
    requires IdsAscending(qs) && forall q :: q in qs ==> q in ps
    ensures CatalogValid(qs, nextId)
  {
    forall i, j | 0 <= i < j < |qs| ensures Lower(qs[i].name) != Lower(qs[j].name) {
      assert qs[i] in ps && qs[j] in ps;
      var a :| 0 <= a < |ps| && ps[a] == qs[i];
      var b :| 0 <= b < |ps| && ps[b] == qs[j];
      assert a != b;
    }
    DistinctNamesAreUnique(qs);
    forall i | 0 <= i < |qs| ensures 0 < qs[i].id < nextId && qs[i].name != "" {
      assert qs[i] in ps;
    }
  }

  /** Replacing one row by a row with the same id and a non-empty name that
      no other product matches case-insensitively keeps the table valid:
      what Update does. */
  lemma ReplaceKeepsValid(ps: seq<Product>, nextId: int, k: nat, q: Product)
    requires CatalogValid(ps, nextId) && k < |ps|
    requires q.id == ps[k].id && q.name != ""
    requires forall p :: p in ps && p.id != q.id ==> !SameName(p.name, q.name)
    ensures CatalogValid(ps[k := q], nextId)
  {
    var qs := ps[k := q];
    forall i, j | 0 <= i < j < |qs| ensures Lower(qs[i].name) != Lower(qs[j].name) {
      if i == k {
        assert ps[j] in ps && ps[j].id != q.id;
      } else if j == k {
        assert ps[i] in ps && ps[i].id != q.id;
      }
    }
    DistinctNamesAreUnique(qs);
  }

  // ---------------------------------------------------------------------
  // Lookups

  /** `SELECT id FROM products WHERE lower(name) = lower(?)`: the first
      product, in rowid order, whose name matches case-insensitively. */
  function FindByName(ps: seq<Product>, name: string): (r: Option<Product>)
    ensures r.Some? ==> r.value in ps && SameName(r.value.name, name)
    ensures r.None? <==> forall p :: p in ps ==> !SameName(p.name, name)
  {
    if ps == [] then None
    else if SameName(ps[0].name, name) then Some(ps[0])
    else FindByName(ps[1..], name)
  }

  /** Under distinct names at most one product matches a name, so the lookup
      returns that product whichever row order the table has. */
  lemma {:induction false} FindByNameUnique(ps: seq<Product>, name: string, q: Product)
    requires NamesDistinct(ps) && q in ps && SameName(q.name, name)
    ensures FindByName(ps, name) == Some(q)
  {
    if q == ps[0] {
    } else if SameName(ps[0].name, name) {
      assert false;
    } else {
      assert q in ps[1..] by {
        var j :| 0 <= j < |ps| && ps[j] == q;
        assert ps[1..][j - 1] == q;
      }
      FindByNameUnique(ps[1..], name, q);
    }
  }

  /** Appending a row that matches, to a table with no match, makes the lookup
      return that row. */
  lemma {:induction false} FindByNameAppend(ps: seq<Product>, p: Product, name: string)
    requires FindByName(ps, name).None? && SameName(p.name, name)
    ensures FindByName(ps + [p], name) == Some(p)
  {
    if ps == [] {
      assert ps + [p] == [p];
    } else {
      assert (ps + [p])[1..] == ps[1..] + [p];
      FindByNameAppend(ps[1..], p, name);
    }
  }

  /** `... WHERE lower(name) = lower(?) AND id != ?`: a product other than
      `id` whose name matches case-insensitively. */
  function FindClash(ps: seq<Product>, name: string, id: int): (r: Option<Product>)
    ensures r.Some? ==> r.value in ps && r.value.id != id && SameName(r.value.name, name)
    ensures r.None? <==> forall p :: p in ps && p.id != id ==> !SameName(p.name, name)
  {
    if ps == [] then None
    else if ps[0].id != id && SameName(ps[0].name, name) then Some(ps[0])
    else FindClash(ps[1..], name, id)
  }

  /** The position of the row whose primary key is `id`. */
  function IndexOfId(ps: seq<Product>, id: int): (r: Option<nat>)
    ensures r.Some? ==> r.value < |ps| && ps[r.value].id == id
    ensures r.None? <==> forall p :: p in ps ==> p.id != id
  {
    if ps == [] then None
    else if ps[0].id == id then Some(0)
    else match IndexOfId(ps[1..], id)
      case None => None
      case Some(k) => Some(k + 1)
  }

  /** In a table read in rowid order, every row after the first has a larger id. */
  lemma FirstIdSmallest(ps: seq<Product>)
    requires IdsAscending(ps) && ps != []
    ensures forall p :: p in ps[1..] ==> ps[0].id < p.id
  {
    forall p | p in ps[1..] ensures ps[0].id < p.id {
      var j :| 0 <= j < |ps[1..]| && ps[1..][j] == p;
      assert ps[j + 1] == p;
    }
  }

  /** `DELETE FROM products WHERE id = ?`: keeps every other row, in order. */
  function RemoveId(ps: seq<Product>, id: int): (r: seq<Product>)
    ensures forall p :: p in r <==> p in ps && p.id != id
    ensures IndexOfId(ps, id).None? ==> r == ps
    ensures IdsAscending(ps) ==> IdsAscending(r)
  {
    if ps == [] then []
    else
      var rest := RemoveId(ps[1..], id);
      if ps[0].id == id then rest
      else
        var r := [ps[0]] + rest;
        assert IdsAscending(ps) ==> IdsAscending(r) by {
          if IdsAscending(ps) { KeepFirst(ps, rest); }
        }
        r
  }

  /** Putting a table's first row in front of rows drawn, in order, from the
      rest of the table keeps the ids ascending. */
  lemma KeepFirst(ps: seq<Product>, rest: seq<Product>)
    requires IdsAscending(ps) && ps != []
    requires IdsAscending(rest) && forall p :: p in rest ==> p in ps[1..]
    ensures IdsAscending([ps[0]] + rest)
  {
    FirstIdSmallest(ps);
    var r := [ps[0]] + rest;
    forall i, j | 0 <= i < j < |r| ensures r[i].id < r[j].id {
      assert r[j] == rest[j - 1];
      assert rest[j - 1] in ps[1..];
      if i > 0 { assert r[i] == rest[i - 1]; }
    }
  }

  /** On a table with unique ids, Delete removes exactly one row when the id
      is present and none otherwise. */
  lemma {:induction false} RemoveIdCount(ps: seq<Product>, id: int)
    requires IdsAscending(ps)
    ensures |RemoveId(ps, id)| == if IndexOfId(ps, id).Some? then |ps| - 1 else |ps|
  {
    if ps != [] {
      RemoveIdCount(ps[1..], id);
      if ps[0].id == id {
        FirstIdSmallest(ps);
        assert IndexOfId(ps[1..], id).None?;
      }
    }
  }

  // ---------------------------------------------------------------------
  // GET /api/products?category=...

  /** A missing, empty or `"All"` category means no filter. */
  predicate ShowsAll(category: Option<string>) {
    category == None || category == Some("") || category == Some("All")
  }

  /** `... WHERE category = ?`: a NULL category never equals the filter. */
  function WithCategory(ps: seq<Product>, category: string): (r: seq<Product>)
    ensures forall p :: p in r <==> p in ps && p.category == Some(category)
    ensures IdsAscending(ps) ==> IdsAscending(r)
  {
    if ps == [] then []
    else
      var rest := WithCategory(ps[1..], category);
      if ps[0].category == Some(category) then
        assert IdsAscending(ps) ==> IdsAscending([ps[0]] + rest) by {
          if IdsAscending(ps) { KeepFirst(ps, rest); }
        }
        [ps[0]] + rest
      else rest
  }

  function ListProducts(ps: seq<Product>, category: Option<string>): (r: seq<Product>)
    ensures ShowsAll(category) ==> r == ps
    ensures !ShowsAll(category) ==>
      forall p :: p in r <==> p in ps && p.category == category
    ensures IdsAscending(ps) ==> IdsAscending(r)
  {
    if ShowsAll(category) then ps else WithCategory(ps, category.value)
  }

  // ---------------------------------------------------------------------
  // GET /api/products/search?name=...

  function WithNameContaining(ps: seq<Product>, needle: string): (r: seq<Product>)
    ensures forall p :: p in r <==> p in ps && Contains(Lower(p.name), needle)
    ensures IdsAscending(ps) ==> IdsAscending(r)
  {
    if ps == [] then []
    else
      var rest := WithNameContaining(ps[1..], needle);
      if Contains(Lower(ps[0].name), needle) then
        assert IdsAscending(ps) ==> IdsAscending([ps[0]] + rest) by {
          if IdsAscending(ps) { KeepFirst(ps, rest); }
        }
        [ps[0]] + rest
      else rest
  }

  /** `lower(name) LIKE '%' + query.toLowerCase() + '%'`; a missing or empty
      query returns no rows without reading the table. */
  function SearchProducts(ps: seq<Product>, query: Option<string>): (r: seq<Product>)
    ensures query == None || query == Some("") ==> r == []
    ensures query.Some? && query.value != "" ==>
      forall p :: p in r <==> p in ps && Contains(Lower(p.name), Lower(query.value))
    ensures IdsAscending(ps) ==> IdsAscending(r)
  {
    if query == None || query == Some("") then []
    else
      var r := WithNameContaining(ps, Lower(query.value));
      assert IdsAscending(ps) ==> IdsAscending(r);
      r
  }

  // ---------------------------------------------------------------------
  // GET /api/products/:id/history

  ghost predicate NewestFirst(logs: seq<LogEntry>) {
    forall i, j :: 0 <= i < j < |logs| ==> logs[i].timestamp >= logs[j].timestamp
  }

  function OfProduct(logs: seq<LogEntry>, productId: int): (r: seq<LogEntry>)
    ensures forall e :: e in r <==> e in logs && e.productId == productId
    ensures forall e :: multiset(r)[e] == if e.productId == productId then multiset(logs)[e] else 0
  {
    if logs == [] then []
    else
      var rest := OfProduct(logs[1..], productId);
      assert logs == [logs[0]] + logs[1..];
      if logs[0].productId == productId then [logs[0]] + rest else rest
  }

  function InsertByTime(e: LogEntry, sorted: seq<LogEntry>): (r: seq<LogEntry>)
    requires NewestFirst(sorted)
    ensures NewestFirst(r)
    ensures multiset(r) == multiset(sorted) + multiset{e}
    ensures |r| > 0 && (r[0] == e || (sorted != [] && r[0] == sorted[0]))
  {
    if sorted == [] || e.timestamp >= sorted[0].timestamp then
      PrependNewest(e, sorted);
      [e] + sorted
    else
      var rest := InsertByTime(e, sorted[1..]);
      assert sorted == [sorted[0]] + sorted[1..];
      PrependNewest(sorted[0], rest);
      [sorted[0]] + rest
  }

  /** An entry no older than the first of a newest-first list can go in front. */
  lemma PrependNewest(head: LogEntry, rest: seq<LogEntry>)
    requires NewestFirst(rest)
    requires rest != [] ==> rest[0].timestamp <= head.timestamp
    ensures NewestFirst([head] + rest)
  {
    var r := [head] + rest;
    forall i, j | 0 <= i < j < |r| ensures r[i].timestamp >= r[j].timestamp {
      assert r[j] == rest[j - 1];
      if i > 0 { assert r[i] == rest[i - 1]; }
      else { assert rest[0].timestamp >= rest[j - 1].timestamp || j == 1; }
    }
  }

  function NewestFirstOrder(logs: seq<LogEntry>): (r: seq<LogEntry>)
    ensures NewestFirst(r)
    ensures multiset(r) == multiset(logs)
  {
    if logs == [] then []
    else
      assert logs == [logs[0]] + logs[1..];
      InsertByTime(logs[0], NewestFirstOrder(logs[1..]))
  }

  /** `SELECT * FROM inventory_logs WHERE productId = ? ORDER BY timestamp
      DESC`: the product's log rows, each exactly as often as it is stored,
      newest first. SQL leaves the order of equal timestamps open; this
      function picks one such order. */
  function History(logs: seq<LogEntry>, productId: int): (r: seq<LogEntry>)
    ensures NewestFirst(r)
    ensures multiset(r) == multiset(OfProduct(logs, productId))
    ensures forall e :: multiset(r)[e] == if e.productId == productId then multiset(logs)[e] else 0
    ensures forall e :: e in r <==> e in logs && e.productId == productId
  {
    var r := NewestFirstOrder(OfProduct(logs, productId));
    assert forall e :: e in r <==> e in multiset(r);
    r
  }
}
