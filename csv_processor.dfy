/** `processJsonInRow` and the row loop of `processCsvFile`: every data cell
    that looks like JSON goes through the pruner, every other cell and the
    header row pass through verbatim, and a cell the pruner fails on keeps
    its text. */
module CsvProcessor {
  import opened Wrappers
  import opened JsonTree
  import opened CellClassifier
  import opened JsonPruner

  /** A cell of a CSV row: a Java `String` reference, None being null. */
  type Cell = Option<string>

  /** The new content of one data cell. */
  function ProcessCell(parse: string -> Option<Json>, ser: Json -> string, cell: Cell): (r: Cell)
    ensures !IsJsonFormat(cell) ==> r == cell
    ensures IsJsonFormat(cell) && parse(cell.value).None? ==> r == cell
    ensures r != cell ==> IsJsonFormat(cell) && parse(cell.value).Some? && r.Some?
  {
    if IsJsonFormat(cell) then
      match Extract(parse, ser, cell.value)
      case Some(text) => Some(text)
      case None => cell
    else cell
  }

  /** A data row after processing: each cell on its own, in its own column.
      The second ensures follows from the third and is stated for emphasis:
      a cell that is not JSON-shaped is written out as read. */
  function ProcessedRow(parse: string -> Option<Json>, ser: Json -> string, row: seq<Cell>): (r: seq<Cell>)
    ensures |r| == |row|
    ensures forall i :: 0 <= i < |row| && !IsJsonFormat(row[i]) ==> r[i] == row[i]
    ensures forall i :: 0 <= i < |row| && r[i] != row[i] ==> IsJsonFormat(row[i]) && parse(row[i].value).Some?
  {
    seq(|row|, i requires 0 <= i < |row| => ProcessCell(parse, ser, row[i]))
  }

  /** The rows written out: the header row as read, every later row processed. */
  function ProcessedFile(parse: string -> Option<Json>, ser: Json -> string, rows: seq<seq<Cell>>): (r: seq<seq<Cell>>)
    ensures |r| == |rows|
    ensures |rows| > 0 ==> r[0] == rows[0]
    ensures forall k :: 0 <= k < |rows| ==> |r[k]| == |rows[k]|
  {
    seq(|rows|, k requires 0 <= k < |rows| => if k == 0 then rows[0] else ProcessedRow(parse, ser, rows[k]))
  }

  /** `processJsonInRow`: allocates the output row and fills it cell by cell. */
  method ProcessJsonInRow(parse: string -> Option<Json>, ser: Json -> string, row: seq<Cell>)
    returns (processed: seq<Cell>)
    ensures |processed| == |row|
    ensures forall i :: 0 <= i < |row| ==> processed[i] == ProcessCell(parse, ser, row[i])
  {
    var processedRow := new Cell[|row|];
    for i := 0 to |row|
      invariant forall k :: 0 <= k < i ==> processedRow[k] == ProcessCell(parse, ser, row[k])
    {
      processedRow[i] := ProcessJsonCell(parse, ser, row[i]);
    }
    processed := processedRow[..];
  }

  /** The body of the loop in `processJsonInRow`: the pruner's answer for a
      JSON-like cell, the original text when the pruner throws or the cell
      is not JSON-like. */
  method ProcessJsonCell(parse: string -> Option<Json>, ser: Json -> string, cellValue: Cell)
    returns (cell: Cell)
    ensures cell == ProcessCell(parse, ser, cellValue)
  {
    cell := cellValue;
    if IsJsonFormat(cellValue) {
      var processedJson := ExtractDataAndRemoveResult(parse, ser, cellValue.value);
      if processedJson.Some? {
        cell := processedJson;
      }
    }
  }

  /** The reading loop of `processCsvFile`, over the rows the CSV reader
      yields, in order. */
  method ProcessCsvRows(parse: string -> Option<Json>, ser: Json -> string, rows: seq<seq<Cell>>)
    returns (processedRows: seq<seq<Cell>>)
    ensures processedRows == ProcessedFile(parse, ser, rows)
  {
    processedRows := [];
    var isFirstRow := true;
    var n := 0;
    while n < |rows|
      invariant 0 <= n <= |rows|
      invariant isFirstRow <==> n == 0
      invariant processedRows == ProcessedFile(parse, ser, rows[..n])
    {
      var nextLine := rows[n];
      if isFirstRow {
        processedRows := processedRows + [nextLine];
        isFirstRow := false;
      } else {
        var processedRow := ProcessJsonInRow(parse, ser, nextLine);
        assert processedRow == ProcessedRow(parse, ser, nextLine);
        processedRows := processedRows + [processedRow];
      }
      n := n + 1;
      assert rows[..n][..n - 1] == rows[..n - 1];
    }
    assert rows[..n] == rows;
  }

  // ---- Properties of the row and file transformation ----

  /** The output has as many rows as the input, the header row is verbatim,
      every later row is processed and keeps its number of columns. */
  lemma FileShape(parse: string -> Option<Json>, ser: Json -> string, rows: seq<seq<Cell>>)
    ensures |ProcessedFile(parse, ser, rows)| == |rows|
    ensures |rows| > 0 ==> ProcessedFile(parse, ser, rows)[0] == rows[0]
    ensures forall k :: 0 < k < |rows| ==> ProcessedFile(parse, ser, rows)[k] == ProcessedRow(parse, ser, rows[k])
    ensures forall k :: 0 <= k < |rows| ==> |ProcessedFile(parse, ser, rows)[k]| == |rows[k]|
  {
  }

  /** A data cell that is not JSON-like, or whose text does not parse (the
      one way the pruner fails), is written out exactly as it was read. */
  lemma UnprocessableCellKept(parse: string -> Option<Json>, ser: Json -> string, rows: seq<seq<Cell>>, k: nat, i: nat)
    requires 0 < k < |rows| && i < |rows[k]|
    requires !IsJsonFormat(rows[k][i]) || parse(rows[k][i].value).None?
    ensures ProcessedFile(parse, ser, rows)[k][i] == rows[k][i]
  {
  }

  /** Each output cell depends on the input cell in the same position only:
      changing other cells of the row, or the number of columns, leaves it alone. */
  lemma CellsIndependent(parse: string -> Option<Json>, ser: Json -> string, row1: seq<Cell>, row2: seq<Cell>, i: nat)
    requires i < |row1| && i < |row2| && row1[i] == row2[i]
    ensures ProcessedRow(parse, ser, row1)[i] == ProcessedRow(parse, ser, row2)[i]
  {
  }

  /** A JSON-like cell whose text parses is replaced by the pruner's answer:
      the serialised selected node, or its own text for a non-object root. */
  lemma ParsedCellReplaced(parse: string -> Option<Json>, ser: Json -> string, s: string, root: Json)
    requires IsJsonFormat(Some(s)) && parse(s) == Some(root)
    ensures Select(root).Serialize? ==> ProcessCell(parse, ser, Some(s)) == Some(ser(Select(root).node))
    ensures Select(root).ReturnInput? ==> ProcessCell(parse, ser, Some(s)) == Some(s)
  {
  }
}
