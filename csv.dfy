/**
  The CSV dialect the export handler writes: every field wrapped in double
  quotes with each inner `"` doubled, fields joined by `,`, records joined by
  a line feed. `DecodeRecords` reads that dialect back; it is the reference
  against which the encoding is shown to lose nothing.
 */
module Csv {
  import opened Wrappers

  /** `parts.join(sep)`. */
  function Join(sep: string, parts: seq<string>): string {
    if |parts| == 0 then ""
    else if |parts| == 1 then parts[0]
    else parts[0] + sep + Join(sep, parts[1..])
  }

  /** `s.replace(/"/g, '""')`. */
  function Escape(s: string): (r: string)
    ensures |r| >= |s|
  {
    if s == [] then []
    else if s[0] == '"' then "\"\"" + Escape(s[1..])
    else [s[0]] + Escape(s[1..])
  }

  /** `"${String(val).replace(/"/g, '""')}"`: stripping the outer quotes and
      collapsing `""` gives back the field. */
  function Quote(s: string): (r: string)
    ensures Unquote(r) == Some(s)
  {
    ReadEscaped(s, "");
    var r := "\"" + Escape(s) + "\"";
    assert r[1..] == Escape(s) + "\"" + "";
    r
  }

  function QuoteAll(fields: seq<string>): (r: seq<string>)
    ensures |r| == |fields|
  {
    if fields == [] then [] else [Quote(fields[0])] + QuoteAll(fields[1..])
  }

  /** One record: its quoted fields joined by commas. */
  function EncodeLine(fields: seq<string>): string {
    Join(",", QuoteAll(fields))
  }

  function EncodeLines(records: seq<seq<string>>): (r: seq<string>)
    ensures |r| == |records|
  {
    if records == [] then [] else [EncodeLine(records[0])] + EncodeLines(records[1..])
  }

  /** Records joined by line feeds. */
  function Encode(records: seq<seq<string>>): string {
    Join("\n", EncodeLines(records))
  }

  // ---------------------------------------------------------------------
  // Reading the dialect back

  /** Reads the inside of a quoted field; `t` starts just after the opening
      quote. `""` stands for one quote and a lone `"` closes the field. Gives
      the field's text and what follows the closing quote, or `None` when the
      closing quote is missing. */
  function ReadQuoted(t: string): (r: Option<(string, string)>)
    ensures r.Some? ==> |r.value.1| < |t|
  {
    if t == [] then None
    else if t[0] == '"' then
      if |t| > 1 && t[1] == '"' then
        match ReadQuoted(t[2..])
        case None => None
        case Some((f, rest)) => Some(("\"" + f, rest))
      else Some(("", t[1..]))
    else
      match ReadQuoted(t[1..])
      case None => None
      case Some((f, rest)) => Some(([t[0]] + f, rest))
  }

  /** A single quoted field with nothing after it. */
  function Unquote(q: string): Option<string> {
    if q == [] || q[0] != '"' then None
    else match ReadQuoted(q[1..])
      case Some((f, rest)) => if rest == [] then Some(f) else None
      case None => None
  }

  /** Reads one or more records of quoted fields; each record holds at least
      one field. `None` for text the export never writes. */
  function DecodeRecords(t: string): (r: Option<seq<seq<string>>>)
    ensures r.Some? ==> |r.value| > 0 && |r.value[0]| > 0
    decreases |t|
  {
    if t == [] || t[0] != '"' then None
    else match ReadQuoted(t[1..])
      case None => None
      case Some((f, rest)) =>
        if rest == [] then Some([[f]])
        else if rest[0] == ',' then
          match DecodeRecords(rest[1..])
          case None => None
          case Some(rs) => Some([[f] + rs[0]] + rs[1..])
        else if rest[0] == '\n' then
          match DecodeRecords(rest[1..])
          case None => None
          case Some(rs) => Some([[f]] + rs)
        else None
  }

  // ---------------------------------------------------------------------
  // Round trips

  /** Reading an escaped field stops at its closing quote, whatever follows
      that quote, as long as it is not another quote. */
  lemma {:induction false} ReadEscaped(s: string, rest: string)
    requires rest == [] || rest[0] != '"'
    ensures ReadQuoted(Escape(s) + "\"" + rest) == Some((s, rest))
  {
    var t := Escape(s) + "\"" + rest;
    if s == [] {
      assert t == "\"" + rest;
      assert t[1..] == rest;
    } else if s[0] == '"' {
      assert t == "\"\"" + (Escape(s[1..]) + "\"" + rest);
      assert t[2..] == Escape(s[1..]) + "\"" + rest;
      ReadEscaped(s[1..], rest);
      assert "\"" + s[1..] == s;
    } else {
      assert t == [s[0]] + (Escape(s[1..]) + "\"" + rest);
      assert t[1..] == Escape(s[1..]) + "\"" + rest;
      ReadEscaped(s[1..], rest);
      assert [s[0]] + s[1..] == s;
    }
  }

  /** What follows a record in `Encode`: nothing, or a line feed and the
      remaining records. */
  function After(more: seq<seq<string>>): string {
    if more == [] then "" else "\n" + Encode(more)
  }

  ghost predicate NoEmptyRecord(records: seq<seq<string>>) {
    forall k :: 0 <= k < |records| ==> |records[k]| > 0
  }

  lemma EncodeFirst(records: seq<seq<string>>)
    requires records != []
    ensures Encode(records) == EncodeLine(records[0]) + After(records[1..])
  {
    var lines := EncodeLines(records);
    assert lines[1..] == EncodeLines(records[1..]);
  }

  /** Reading a quoted field, then what its separator says. */
  lemma ReadField(f: string, rest: string)
    requires rest == [] || rest[0] != '"'
    ensures (Quote(f) + rest)[0] == '"'
    ensures ReadQuoted((Quote(f) + rest)[1..]) == Some((f, rest))
  {
    assert (Quote(f) + rest)[1..] == Escape(f) + "\"" + rest;
    ReadEscaped(f, rest);
  }

  lemma DecodeLastField(f: string)
    ensures DecodeRecords(Quote(f)) == Some([[f]])
  {
    ReadField(f, "");
    assert Quote(f) + "" == Quote(f);
  }

  lemma DecodeFieldThenComma(f: string, tail: string, rs: seq<seq<string>>)
    requires DecodeRecords(tail) == Some(rs)
    ensures DecodeRecords(Quote(f) + ("," + tail)) == Some([[f] + rs[0]] + rs[1..])
  {
    ReadField(f, "," + tail);
    assert ("," + tail)[1..] == tail;
  }

  lemma DecodeFieldThenNewline(f: string, tail: string, rs: seq<seq<string>>)
    requires DecodeRecords(tail) == Some(rs)
    ensures DecodeRecords(Quote(f) + ("\n" + tail)) == Some([[f]] + rs)
  {
    ReadField(f, "\n" + tail);
    assert ("\n" + tail)[1..] == tail;
  }

  lemma EncodeLineFirst(fields: seq<string>)
    requires |fields| > 0
    ensures |fields| == 1 ==> EncodeLine(fields) == Quote(fields[0])
    ensures |fields| > 1 ==> EncodeLine(fields) == Quote(fields[0]) + "," + EncodeLine(fields[1..])
  {
    var quoted := QuoteAll(fields);
    assert quoted[0] == Quote(fields[0]);
    assert quoted[1..] == QuoteAll(fields[1..]);
  }

  /** A record of one field with nothing after it. */
  lemma LastRecordStep(fields: seq<string>)
    requires |fields| == 1
    ensures DecodeRecords(EncodeLine(fields) + After([])) == Some([fields] + [])
  {
    EncodeLineFirst(fields);
    DecodeLastField(fields[0]);
    assert EncodeLine(fields) + After([]) == Quote(fields[0]);
    assert fields == [fields[0]];
    assert [fields] + [] == [[fields[0]]];
  }

  /** The last field of a record, then a line feed and the records after it. */
  lemma NewlineStep(fields: seq<string>, more: seq<seq<string>>)
    requires |fields| == 1 && more != []
    requires DecodeRecords(EncodeLine(more[0]) + After(more[1..])) == Some([more[0]] + more[1..])
    ensures DecodeRecords(EncodeLine(fields) + After(more)) == Some([fields] + more)
  {
    EncodeLineFirst(fields);
    EncodeFirst(more);
    assert [more[0]] + more[1..] == more;
    DecodeFieldThenNewline(fields[0], Encode(more), more);
    assert fields == [fields[0]];
  }

  /** A field of a record, then a comma and the rest of that record. */
  lemma CommaStep(fields: seq<string>, more: seq<seq<string>>)
    requires |fields| > 1
    requires DecodeRecords(EncodeLine(fields[1..]) + After(more)) == Some([fields[1..]] + more)
    ensures DecodeRecords(EncodeLine(fields) + After(more)) == Some([fields] + more)
  {
    var f := fields[0];
    var tail := EncodeLine(fields[1..]) + After(more);
    LineThenComma(fields, tail, After(more));
    DecodeFieldThenComma(f, tail, [fields[1..]] + more);
    assert [f] + fields[1..] == fields;
  }

  lemma LineThenComma(fields: seq<string>, tail: string, after: string)
    requires |fields| > 1 && tail == EncodeLine(fields[1..]) + after
    ensures EncodeLine(fields) + after == Quote(fields[0]) + ("," + tail)
  {
    EncodeLineFirst(fields);
  }

  /** A record, then what follows it in `Encode`, reads back as that record
      followed by the rest. */
  lemma {:induction false} DecodeLineThen(fields: seq<string>, more: seq<seq<string>>)
    requires |fields| > 0 && NoEmptyRecord(more)
    ensures DecodeRecords(EncodeLine(fields) + After(more)) == Some([fields] + more)
    decreases |more|, |fields|
  {
    if |fields| > 1 {
      DecodeLineThen(fields[1..], more);
      CommaStep(fields, more);
    } else if more == [] {
      LastRecordStep(fields);
    } else {
      DecodeLineThen(more[0], more[1..]);
      NewlineStep(fields, more);
    }
  }

  /** Every non-empty list of non-empty records is read back exactly. */
  lemma EncodeRoundTrip(records: seq<seq<string>>)
    requires records != [] && NoEmptyRecord(records)
    ensures DecodeRecords(Encode(records)) == Some(records)
  {
    EncodeFirst(records);
    DecodeLineThen(records[0], records[1..]);
    assert [records[0]] + records[1..] == records;
  }
}
