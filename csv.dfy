/**
 * Comma-separated text as RFC 4180 section 2 defines it: records separated
 * by line breaks, fields by commas, and a field that holds a quote, comma or
 * line break enclosed in double quotes with each inner quote doubled (rule
 * 7).  The screens' exports write such text; the parser here is the reader
 * the round-trip properties are stated against.  Line breaks are '\n'.
 */
module Csv {
  import opened Wrappers
  import opened JsText

  /** `s.replace(/"/g, '""')`. */
  function Escape(s: string): (r: string)
    ensures |r| >= |s|
  {
    if s == [] then []
    else (if s[0] == '"' then "\"\"" else [s[0]]) + Escape(s[1..])
  }

  /** A field enclosed in quotes, inner quotes doubled. */
  function Quote(s: string): string {
    "\"" + Escape(s) + "\""
  }

  /** Text that may stand as a field without quotes (rule 6). */
  predicate Plain(s: string) {
    forall i :: 0 <= i < |s| ==> s[i] != '"' && s[i] != ',' && s[i] != '\n'
  }

  /** A field as an export writes it: enclosed in quotes or bare. */
  datatype Cell = Quoted(text: string) | Bare(text: string)

  predicate WellFormed(c: Cell) {
    c.Bare? ==> Plain(c.text)
  }

  function Encode(c: Cell): string {
    if c.Quoted? then Quote(c.text) else c.text
  }

  function Texts(cells: seq<Cell>): (r: seq<string>)
    ensures |r| == |cells| && forall i :: 0 <= i < |cells| ==> r[i] == cells[i].text
  {
    seq(|cells|, i requires 0 <= i < |cells| => cells[i].text)
  }

  /** One record: the encoded fields joined with commas. */
  function EncodeRecord(cells: seq<Cell>): string {
    Join(seq(|cells|, i requires 0 <= i < |cells| => Encode(cells[i])), ",")
  }

  /** A file: the records joined with line breaks. */
  function EncodeFile(records: seq<seq<Cell>>): string {
    Join(seq(|records|, i requires 0 <= i < |records| => EncodeRecord(records[i])), "\n")
  }

  // ---------------------------------------------------------------- reading

  /** The rest of a quoted field after its opening quote: its text and what
      follows the closing quote, or `None` when the quote is never closed. */
  function QuotedRest(s: string): (r: Option<(string, string)>)
    ensures r.Some? ==> |r.value.1| < |s|
    decreases |s|
  {
    if s == [] then None
    else if s[0] == '"' then
      if |s| >= 2 && s[1] == '"' then
        match QuotedRest(s[2..])
        case None => None
        case Some(p) => Some(("\"" + p.0, p.1))
      else Some(("", s[1..]))
    else
      match QuotedRest(s[1..])
      case None => None
      case Some(p) => Some(([s[0]] + p.0, p.1))
  }

  /** A bare field runs up to the next comma, line break or the end. */
  function BareRest(s: string): (r: (string, string))
    ensures |r.1| <= |s|
    decreases |s|
  {
    if s == [] || s[0] == ',' || s[0] == '\n' then ([], s)
    else
      var p := BareRest(s[1..]);
      ([s[0]] + p.0, p.1)
  }

  /** One field and what follows it; a bare field may not hold a quote. */
  function ParseField(s: string): (r: Option<(string, string)>)
    ensures r.Some? ==> |r.value.1| <= |s|
  {
    if s != [] && s[0] == '"' then QuotedRest(s[1..])
    else
      var p := BareRest(s);
      if Plain(p.0) then Some(p) else None
  }

  /** One record and, when a line break ends it, the text after the break. */
  function ParseRecord(s: string): (r: Option<(seq<string>, Option<string>)>)
    ensures r.Some? && r.value.1.Some? ==> |r.value.1.value| < |s|
    decreases |s|
  {
    match ParseField(s)
    case None => None
    case Some(p) =>
      var (f, rest) := p;
      if rest == [] then Some(([f], None))
      else if rest[0] == ',' then
        match ParseRecord(rest[1..])
        case None => None
        case Some(q) => Some(([f] + q.0, q.1))
      else if rest[0] == '\n' then Some(([f], Some(rest[1..])))
      else None
  }

  /** All records of a text, or `None` when it is malformed. */
  function ParseFile(s: string): Option<seq<seq<string>>>
    decreases |s|
  {
    match ParseRecord(s)
    case None => None
    case Some(p) =>
      if p.1.None? then Some([p.0])
      else
        match ParseFile(p.1.value)
        case None => None
        case Some(rs) => Some([p.0] + rs)
  }

  // ---------------------------------------------------------------- round trip

  predicate Boundary(tail: string) {
    tail == [] || tail[0] == ',' || tail[0] == '\n'
  }

  lemma {:induction false} QuotedRestOfEscape(f: string, tail: string)
    requires tail == [] || tail[0] != '"'
    ensures QuotedRest(Escape(f) + "\"" + tail) == Some((f, tail))
    decreases |f|
  {
    var s := Escape(f) + "\"" + tail;
    if f == [] {
      assert s == "\"" + tail;
      assert s[1..] == tail;
    } else {
      QuotedRestOfEscape(f[1..], tail);
      var s' := Escape(f[1..]) + "\"" + tail;
      if f[0] == '"' {
        assert s == "\"\"" + s';
        assert s[2..] == s';
        assert "\"" + f[1..] == f;
      } else {
        assert s == [f[0]] + s';
        assert s[1..] == s';
        assert [f[0]] + f[1..] == f;
      }
    }
  }

  lemma {:induction false} BareRestOfPlain(f: string, tail: string)
    requires Plain(f) && Boundary(tail)
    ensures BareRest(f + tail) == (f, tail)
    decreases |f|
  {
    if f != [] {
      assert (f + tail)[1..] == f[1..] + tail;
      BareRestOfPlain(f[1..], tail);
      assert [f[0]] + f[1..] == f;
    } else {
      assert f + tail == tail;
    }
  }

  lemma QuotedFieldRoundTrip(f: string, tail: string)
    requires Boundary(tail)
    ensures ParseField(Quote(f) + tail) == Some((f, tail))
  {
    var s := Quote(f) + tail;
    QuotedRestOfEscape(f, tail);
    assert s[0] == '"' && s[1..] == Escape(f) + "\"" + tail;
  }

  lemma BareFieldRoundTrip(f: string, tail: string)
    requires Plain(f) && Boundary(tail)
    ensures ParseField(f + tail) == Some((f, tail))
  {
    BareRestOfPlain(f, tail);
    if f == [] {
      assert f + tail == tail;
    } else {
      assert (f + tail)[0] == f[0];
    }
  }

  lemma FieldRoundTrip(c: Cell, tail: string)
    requires WellFormed(c) && Boundary(tail)
    ensures ParseField(Encode(c) + tail) == Some((c.text, tail))
  {
    if c.Quoted? {
      QuotedFieldRoundTrip(c.text, tail);
    } else {
      BareFieldRoundTrip(c.text, tail);
    }
  }

  lemma {:induction false} RecordRoundTrip(cells: seq<Cell>, tail: string)
    requires cells != [] && forall i :: 0 <= i < |cells| ==> WellFormed(cells[i])
    requires tail == [] || tail[0] == '\n'
    ensures ParseRecord(EncodeRecord(cells) + tail) == Some((Texts(cells), if tail == [] then None else Some(tail[1..])))
    decreases |cells|
  {
    if |cells| == 1 {
      RecordLast(cells[0], tail);
      assert EncodeRecord(cells) == Encode(cells[0]);
      assert Texts(cells) == [cells[0].text];
    } else {
      var rest := cells[1..];
      RecordRoundTrip(rest, tail);
      RecordStep(cells, tail);
    }
  }

  /** The last field of a record, followed by the end or a line break. */
  lemma RecordLast(c: Cell, tail: string)
    requires WellFormed(c) && (tail == [] || tail[0] == '\n')
    ensures ParseRecord(Encode(c) + tail) == Some(([c.text], if tail == [] then None else Some(tail[1..])))
  {
    FieldRoundTrip(c, tail);
  }

  /** A record of several fields is its first field, a comma and the rest. */
  lemma EncodeRecordCons(cells: seq<Cell>, tail: string)
    requires |cells| >= 2
    ensures EncodeRecord(cells) + tail == Encode(cells[0]) + ("," + (EncodeRecord(cells[1..]) + tail))
  {
    var enc := seq(|cells|, i requires 0 <= i < |cells| => Encode(cells[i]));
    var rest := cells[1..];
    var encRest := seq(|rest|, i requires 0 <= i < |rest| => Encode(rest[i]));
    assert enc[1..] == encRest;
    assert EncodeRecord(cells) == Encode(cells[0]) + "," + EncodeRecord(rest);
  }

  lemma RecordStep(cells: seq<Cell>, tail: string)
    requires |cells| >= 2 && forall i :: 0 <= i < |cells| ==> WellFormed(cells[i])
    requires ParseRecord(EncodeRecord(cells[1..]) + tail) == Some((Texts(cells[1..]), if tail == [] then None else Some(tail[1..])))
    ensures ParseRecord(EncodeRecord(cells) + tail) == Some((Texts(cells), if tail == [] then None else Some(tail[1..])))
  {
    var x := EncodeRecord(cells[1..]) + tail;
    var q := (Texts(cells[1..]), if tail == [] then None else Some(tail[1..]));
    calc {
      ParseRecord(EncodeRecord(cells) + tail);
      { EncodeRecordCons(cells, tail); }
      ParseRecord(Encode(cells[0]) + ("," + x));
      { RecordCons(cells[0], x, q); }
      Some(([cells[0].text] + q.0, q.1));
      { assert [cells[0].text] + Texts(cells[1..]) == Texts(cells); }
      Some((Texts(cells), q.1));
    }
  }

  /** A field followed by a comma starts a record whose other fields are read
      from what follows the comma. */
  lemma RecordCons(c: Cell, x: string, q: (seq<string>, Option<string>))
    requires WellFormed(c) && ParseRecord(x) == Some(q)
    ensures ParseRecord(Encode(c) + ("," + x)) == Some(([c.text] + q.0, q.1))
  {
    FieldRoundTrip(c, "," + x);
    assert ("," + x)[1..] == x;
  }

  /** The text of every field, record by record. */
  function FileTexts(records: seq<seq<Cell>>): (r: seq<seq<string>>)
    ensures |r| == |records| && forall k :: 0 <= k < |records| ==> r[k] == Texts(records[k])
  {
    seq(|records|, k requires 0 <= k < |records| => Texts(records[k]))
  }

  /** Reading back an encoded file gives every field's text, record by record. */
  lemma {:induction false} FileRoundTrip(records: seq<seq<Cell>>)
    requires records != []
    requires forall k :: 0 <= k < |records| ==> records[k] != []
    requires forall k, i :: 0 <= k < |records| && 0 <= i < |records[k]| ==> WellFormed(records[k][i])
    ensures ParseFile(EncodeFile(records)) == Some(FileTexts(records))
    decreases |records|
  {
    if |records| == 1 {
      RecordRoundTrip(records[0], []);
      assert EncodeFile(records) == EncodeRecord(records[0]) + [];
      assert FileTexts(records) == [Texts(records[0])];
    } else {
      FileRoundTrip(records[1..]);
      FileStep(records);
    }
  }

  /** A file of several records is its first record, a line break and the rest. */
  lemma EncodeFileCons(records: seq<seq<Cell>>)
    requires |records| >= 2
    ensures EncodeFile(records) == EncodeRecord(records[0]) + ("\n" + EncodeFile(records[1..]))
  {
    var lines := seq(|records|, k requires 0 <= k < |records| => EncodeRecord(records[k]));
    var rest := records[1..];
    var restLines := seq(|rest|, k requires 0 <= k < |rest| => EncodeRecord(rest[k]));
    assert lines[1..] == restLines;
  }

  lemma FileStep(records: seq<seq<Cell>>)
    requires |records| >= 2 && records[0] != []
    requires forall i :: 0 <= i < |records[0]| ==> WellFormed(records[0][i])
    requires ParseFile(EncodeFile(records[1..])) == Some(FileTexts(records[1..]))
    ensures ParseFile(EncodeFile(records)) == Some(FileTexts(records))
  {
    var tail := "\n" + EncodeFile(records[1..]);
    EncodeFileCons(records);
    RecordRoundTrip(records[0], tail);
    assert tail[1..] == EncodeFile(records[1..]);
    assert [Texts(records[0])] + FileTexts(records[1..]) == FileTexts(records);
  }
  // ------------------------------------------------------- quoted tables

  /** Every field in quotes, inner quotes doubled. */
  function QuoteAll(fields: seq<string>): (r: seq<string>)
    ensures |r| == |fields| && forall k :: 0 <= k < |fields| ==> r[k] == Quote(fields[k])
  {
    seq(|fields|, k requires 0 <= k < |fields| => Quote(fields[k]))
  }

  /** The lines of a table export: the header names joined with commas, then
      each row with every field quoted. */
  function TableLines(header: seq<string>, rows: seq<seq<string>>): (r: seq<string>)
    ensures |r| == |rows| + 1
  {
    [Join(header, ",")] + seq(|rows|, i requires 0 <= i < |rows| => Join(QuoteAll(rows[i]), ","))
  }

  /** A table export: its lines joined with line breaks. */
  function QuotedTable(header: seq<string>, rows: seq<seq<string>>): string {
    Join(TableLines(header, rows), "\n")
  }

  /** The records a table export encodes: bare header cells, quoted fields. */
  function TableRecords(header: seq<string>, rows: seq<seq<string>>): (r: seq<seq<Cell>>)
    ensures |r| == |rows| + 1
  {
    [seq(|header|, k requires 0 <= k < |header| => Bare(header[k]))]
    + seq(|rows|, i requires 0 <= i < |rows| => seq(|rows[i]|, k requires 0 <= k < |rows[i]| => Quoted(rows[i][k])))
  }

  lemma HeaderLine(header: seq<string>, rows: seq<seq<string>>)
    ensures EncodeRecord(TableRecords(header, rows)[0]) == TableLines(header, rows)[0]
  {
    var r := TableRecords(header, rows)[0];
    assert seq(|r|, k requires 0 <= k < |r| => Encode(r[k])) == header;
  }

  lemma RowLine(header: seq<string>, rows: seq<seq<string>>, i: nat)
    requires i < |rows|
    ensures EncodeRecord(TableRecords(header, rows)[i + 1]) == TableLines(header, rows)[i + 1]
  {
    var r := TableRecords(header, rows)[i + 1];
    assert seq(|r|, k requires 0 <= k < |r| => Encode(r[k])) == QuoteAll(rows[i]);
  }

  lemma TableLinesAreRecords(header: seq<string>, rows: seq<seq<string>>)
    ensures forall i :: 0 <= i < |rows| + 1 ==> TableLines(header, rows)[i] == EncodeRecord(TableRecords(header, rows)[i])
  {
    forall i | 0 <= i < |rows| + 1 ensures EncodeRecord(TableRecords(header, rows)[i]) == TableLines(header, rows)[i] {
      if i == 0 {
        HeaderLine(header, rows);
      } else {
        RowLine(header, rows, i - 1);
      }
    }
  }

  /** A table export is the encoding of its records. */
  lemma TableIsEncoding(header: seq<string>, rows: seq<seq<string>>)
    ensures QuotedTable(header, rows) == EncodeFile(TableRecords(header, rows))
  {
    var rs := TableRecords(header, rows);
    var lines := seq(|rs|, i requires 0 <= i < |rs| => EncodeRecord(rs[i]));
    TableLinesAreRecords(header, rows);
    assert lines == TableLines(header, rows);
  }

  lemma TableTexts(header: seq<string>, rows: seq<seq<string>>)
    ensures FileTexts(TableRecords(header, rows)) == [header] + rows
  {
    var texts := FileTexts(TableRecords(header, rows));
    forall i | 0 <= i < |rows| + 1 ensures texts[i] == ([header] + rows)[i] {
      RecordTexts(header, rows, i);
    }
  }

  lemma RecordTexts(header: seq<string>, rows: seq<seq<string>>, i: nat)
    requires i < |rows| + 1
    ensures Texts(TableRecords(header, rows)[i]) == ([header] + rows)[i]
  {
    var r := TableRecords(header, rows)[i];
    if i == 0 {
      assert Texts(r) == header;
    } else {
      assert Texts(r) == rows[i - 1];
    }
  }

  /** Reading a table export back gives the header and every row, whatever
      quotes, commas or line breaks the fields hold, as long as the header
      names need no quotes and no record is empty. */
  lemma TableReadsBack(header: seq<string>, rows: seq<seq<string>>)
    requires header != [] && forall k :: 0 <= k < |header| ==> Plain(header[k])
    requires forall i :: 0 <= i < |rows| ==> rows[i] != []
    ensures ParseFile(QuotedTable(header, rows)) == Some([header] + rows)
  {
    var rs := TableRecords(header, rows);
    TableIsEncoding(header, rows);
    forall k, i | 0 <= k < |rs| && 0 <= i < |rs[k]| ensures WellFormed(rs[k][i]) {
    }
    FileRoundTrip(rs);
    TableTexts(header, rows);
  }
}
