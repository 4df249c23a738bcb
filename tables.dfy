/**
 * `_read_table` (app/content_loader.py): one sheet of the workbook becomes a
 * list of records, header name to cell value. A sheet is the sequence of
 * rows the spreadsheet library yields; a workbook maps sheet names to sheets.
 */
module Tables {
  import opened Text
  import opened Cells

  type Sheet = seq<seq<Cell>>
  type Workbook = map<string, Sheet>

  /** A header cell's name: `str(h).strip()`, or "" for an empty cell. */
  function HeaderName(c: Cell): string {
    if c.Missing? then "" else Strip(PyStr(c))
  }

  function Headers(first: seq<Cell>): seq<string> {
    seq(|first|, i requires 0 <= i < |first| => HeaderName(first[i]))
  }

  predicate BlankCell(c: Cell) {
    c.Missing? || Strip(PyStr(c)) == ""
  }

  /** A row whose every cell is None or blank; `_read_table` skips it. */
  predicate BlankRow(r: seq<Cell>) {
    forall i :: 0 <= i < |r| ==> BlankCell(r[i])
  }

  /** `r[i] if i < len(r) else None`. */
  function CellAt(r: seq<Cell>, i: nat): Cell {
    if i < |r| then r[i] else Missing
  }

  /** The record built from row r under the given headers (headers[k] names column k). */
  function RecordOf(headers: seq<string>, r: seq<Cell>): Row
    decreases |headers|
  {
    if headers == [] then map[]
    else
      var i := |headers| - 1;
      var d := RecordOf(headers[..i], r);
      if headers[i] == "" then d else d[headers[i] := CellAt(r, i)]
  }

  /** The records of the data rows, blank rows left out. */
  function Records(headers: seq<string>, rows: seq<seq<Cell>>): seq<Row>
    decreases |rows|
  {
    if rows == [] then []
    else
      var r := rows[|rows| - 1];
      Records(headers, rows[..|rows| - 1]) + (if BlankRow(r) then [] else [RecordOf(headers, r)])
  }

  /** What `_read_table(wb, name)` returns. */
  function Table(wb: Workbook, name: string): seq<Row> {
    if name !in wb || wb[name] == [] then []
    else Records(Headers(wb[name][0]), wb[name][1..])
  }

  /** `_read_table(wb, name)`: the first row gives the headers, every other non-blank row a record. */
  method ReadTable(wb: Workbook, name: string) returns (out: seq<Row>)
    ensures out == Table(wb, name)
  {
    if name !in wb {
      return [];
    }
    var rows := wb[name];
    if |rows| == 0 {
      return [];
    }
    var headers := Headers(rows[0]);
    out := [];
    var k := 1;
    while k < |rows|
      invariant 1 <= k <= |rows|
      invariant out == Records(headers, rows[1..k])
    {
      var r := rows[k];
      RecordsStep(headers, rows, k);
      if !BlankRow(r) {
        var d := BuildRecord(headers, r);
        out := out + [d];
      }
      k := k + 1;
    }
    assert rows[1..|rows|] == rows[1..];
  }

  /** Taking one more row adds that row's record, unless the row is blank. */
  lemma RecordsStep(headers: seq<string>, rows: seq<seq<Cell>>, k: nat)
    requires 1 <= k < |rows|
    ensures Records(headers, rows[1..k + 1])
         == Records(headers, rows[1..k]) + (if BlankRow(rows[k]) then [] else [RecordOf(headers, rows[k])])
  {
    assert rows[1..k + 1][..k - 1] == rows[1..k];
  }

  /** The inner loop of `_read_table`: one dict per row, keyed by the non-empty headers. */
  method BuildRecord(headers: seq<string>, r: seq<Cell>) returns (d: Row)
    ensures d == RecordOf(headers, r)
  {
    d := map[];
    var i := 0;
    while i < |headers|
      invariant 0 <= i <= |headers|
      invariant d == RecordOf(headers[..i], r)
    {
      assert headers[..i + 1][..i] == headers[..i];
      if headers[i] != "" {
        d := d[headers[i] := if i < |r| then r[i] else Missing];
      }
      i := i + 1;
    }
    assert headers[..|headers|] == headers;
  }

  /** A record has a key for every non-empty header and for nothing else. */
  lemma {:induction false} RecordKeys(headers: seq<string>, r: seq<Cell>)
    ensures forall h :: h in RecordOf(headers, r) <==> h != "" && h in headers
    decreases |headers|
  {
    if headers != [] {
      var i := |headers| - 1;
      RecordKeys(headers[..i], r);
      assert headers == headers[..i] + [headers[i]];
    }
  }

  /**
   * The value under a header is the cell in that header's column (None past
   * the row's end); when a header repeats, the last column with it wins.
   */
  lemma {:induction false} RecordValue(headers: seq<string>, r: seq<Cell>, i: nat)
    requires i < |headers| && headers[i] != ""
    requires forall j :: i < j < |headers| ==> headers[j] != headers[i]
    ensures headers[i] in RecordOf(headers, r)
    ensures RecordOf(headers, r)[headers[i]] == CellAt(r, i)
    decreases |headers|
  {
    var n := |headers| - 1;
    if i < n {
      RecordValue(headers[..n], r, i);
    }
  }

  /** Records keeps the rows' order: the records of a + b are those of a, then those of b. */
  lemma {:induction false} RecordsAppend(headers: seq<string>, a: seq<seq<Cell>>, b: seq<seq<Cell>>)
    ensures Records(headers, a + b) == Records(headers, a) + Records(headers, b)
    decreases |b|
  {
    if b == [] {
      assert a + b == a;
    } else {
      var b' := b[..|b| - 1];
      assert (a + b)[..|a + b| - 1] == a + b';
      RecordsAppend(headers, a, b');
    }
  }

  /** A single row gives its record, or nothing when it is blank. */
  lemma RecordsSingle(headers: seq<string>, r: seq<Cell>)
    ensures Records(headers, [r]) == if BlankRow(r) then [] else [RecordOf(headers, r)]
  {
    assert [r][..0] == [];
  }

  /** A missing sheet and an empty sheet both read as no records. */
  lemma TableOfNothing(wb: Workbook, name: string)
    requires name !in wb || wb[name] == [] || |wb[name]| == 1
    ensures Table(wb, name) == []
  {
  }
}
