/**
  GET /api/products/export: the whole products table as CSV text, a fixed
  header line followed by one quoted line per product in table order.
 */
module Export {
  import opened Wrappers
  import opened Text
  import opened Schema
  import opened Csv

  /** The column names, joined by commas and left unquoted. */
  const Header: string := "name,unit,category,brand,stock,status,image"

  /** The seven values written for a product: a NULL or empty text column
      becomes the empty string and the stock its decimal form. */
  function Fields(p: Product): (r: seq<string>)
    ensures |r| == 7 && r[0] == p.name && r[4] == DecimalString(p.stock)
  {
    [p.name, OrElse(p.unit, ""), OrElse(p.category, ""), OrElse(p.brand, ""),
     DecimalString(p.stock), OrElse(p.status, ""), OrElse(p.image, "")]
  }

  function Records(ps: seq<Product>): (r: seq<seq<string>>)
    ensures |r| == |ps|
    ensures forall k :: 0 <= k < |ps| ==> r[k] == Fields(ps[k])
    ensures forall k :: 0 <= k < |r| ==> |r[k]| == 7
  {
    if ps == [] then [] else [Fields(ps[0])] + Records(ps[1..])
  }

  /** `[header, ...lines].join('\n')`. */
  function ExportCsv(ps: seq<Product>): (doc: string)
    ensures ps == [] ==> doc == Header
    ensures ps != [] ==> doc == Header + "\n" + Encode(Records(ps))
  {
    var lines := [Header] + EncodeLines(Records(ps));
    assert lines[0] == Header && lines[1..] == EncodeLines(Records(ps));
    Join("\n", lines)
  }

  /** Reads an exported document back into its data records. */
  function DecodeExport(doc: string): Option<seq<seq<string>>> {
    var n := |Header|;
    if doc == Header then Some([])
    else if |doc| > n && doc[..n + 1] == Header + "\n" then DecodeRecords(doc[n + 1..])
    else None
  }

  /** The exported text determines, product by product and in table order,
      exactly the seven values the export meant to write. */
  lemma ExportRoundTrip(ps: seq<Product>)
    ensures DecodeExport(ExportCsv(ps)) == Some(Records(ps))
  {
    if ps != [] {
      var doc := ExportCsv(ps);
      var n := |Header|;
      assert doc[..n + 1] == Header + "\n";
      assert doc[n + 1..] == Encode(Records(ps));
      EncodeRoundTrip(Records(ps));
    }
  }
}
