/**
 * Reading the VMAF batch tool's existing results file into keys and value cells.
 */
module VmafResults {
  import opened Wrappers
  import opened Text
  import opened VmafKeys

  // ---------------------------------------------------------------------------
  // Reading the existing results
  // ---------------------------------------------------------------------------

  /** Where the three fields are found in a row of the results file. */
  datatype Columns = Columns(spec: nat, vmaf: Option<nat>, bitrate: Option<nat>)

  /** `xs.index(x)`: the first position of `x`. */
  function IndexOf(xs: seq<string>, x: string): (i: nat)
    requires x in xs
    ensures i < |xs| && xs[i] == x
    ensures forall j :: 0 <= j < i ==> xs[j] != x
  {
    if xs[0] == x then 0 else 1 + IndexOf(xs[1..], x)
  }

  function OptionalIndex(header: seq<string>, name: string): (r: Option<nat>)
    ensures r.Some? <==> name in header
    ensures r.Some? ==> r.value < |header| && header[r.value] == name
  {
    if name in header then Some(IndexOf(header, name)) else None
  }

  /** The columns named by a header that has `FileSpec`; otherwise the fixed positions 0, 1, 2. */
  function ColumnsOf(header: Option<seq<string>>): (c: Columns)
    ensures header.Some? && "FileSpec" in header.value ==>
      c.spec < |header.value| && header.value[c.spec] == "FileSpec"
      && (c.vmaf.Some? <==> "VMAF-Value" in header.value)
      && (c.bitrate.Some? <==> "Bitrate" in header.value)
    ensures !(header.Some? && "FileSpec" in header.value) ==> c == Columns(0, Some(1), Some(2))
  {
    if header.Some? && header.value != [] && "FileSpec" in header.value then
      var h := header.value;
      Columns(IndexOf(h, "FileSpec"), OptionalIndex(h, "VMAF-Value"), OptionalIndex(h, "Bitrate"))
    else Columns(0, Some(1), Some(2))
  }

  /** The cell at an optional column, or "" when the column is absent or the row too short. */
  function CellOr(row: seq<string>, idx: Option<nat>): (cell: string)
    ensures idx.Some? && idx.value < |row| ==> cell == row[idx.value]
    ensures !(idx.Some? && idx.value < |row|) ==> cell == ""
  {
    if idx.Some? && idx.value < |row| then row[idx.value] else ""
  }

  /** The results already on file: keys in first-seen order, and each key's two value cells. */
  datatype Existing = Existing(order: seq<string>, values: map<string, (string, string)>)

  predicate WellFormed(e: Existing)
  {
    (forall i, j :: 0 <= i < j < |e.order| ==> e.order[i] != e.order[j])
    && (forall k :: k in e.values ==> k in e.order)
    && (forall i :: 0 <= i < |e.order| ==> e.order[i] in e.values)
  }

  const IndexErrorMessage: string := "IndexError: list index out of range"

  /**
   * The reading loop over the rows after the header: empty rows are passed over, a row
   * too short for the key column raises `IndexError`, and a repeated key keeps its first
   * cells.
   */
  function ReadRows(rows: seq<seq<string>>, cols: Columns): (r: Result<Existing>)
    ensures r.Ok? ==> WellFormed(r.value)
    ensures r.Err? ==> r.message == IndexErrorMessage
  {
    if rows == [] then Ok(Existing([], map[]))
    else
      var init := rows[..|rows| - 1];
      var row := rows[|rows| - 1];
      assert forall k :: 0 <= k < |init| ==> init[k] == rows[k];
      match ReadRows(init, cols)
      case Err(m) => Err(m)
      case Ok(e) =>
        if row == [] then Ok(e)
        else if cols.spec >= |row| then Err(IndexErrorMessage)
        else
          var spec := Normalize(row[cols.spec]);
          if spec in e.values then Ok(e)
          else Ok(Existing(e.order + [spec], e.values[spec := (CellOr(row, cols.vmaf), CellOr(row, cols.bitrate))]))
  }

  /** A row that `row[spec]` cannot index: non-empty, and too short for the key column. */
  predicate TooShort(row: seq<string>, cols: Columns)
  {
    row != [] && cols.spec >= |row|
  }

  /** The file raises exactly when some row is too short for the key column. */
  lemma {:induction false} ReadRowsErrIff(rows: seq<seq<string>>, cols: Columns)
    ensures ReadRows(rows, cols).Err? <==> exists k :: 0 <= k < |rows| && TooShort(rows[k], cols)
  {
    if rows != [] {
      var init := rows[..|rows| - 1];
      var last := rows[|rows| - 1];
      ReadRowsErrIff(init, cols);
      assert ReadRows(rows, cols).Err? <==> ReadRows(init, cols).Err? || TooShort(last, cols);
      assert forall k :: 0 <= k < |init| ==> init[k] == rows[k];
    }
  }

  /** An empty row is passed over. */
  lemma EmptyRowSkipped(rows: seq<seq<string>>, cols: Columns)
    requires ReadRows(rows, cols).Ok?
    ensures ReadRows(rows + [[]], cols) == ReadRows(rows, cols)
  {
    assert (rows + [[]])[..|rows|] == rows;
  }

  /** A later row whose key is already on file changes nothing: the first cells are kept. */
  lemma DuplicateKeepsFirst(rows: seq<seq<string>>, cols: Columns, row: seq<string>)
    requires ReadRows(rows, cols).Ok? && row != [] && cols.spec < |row|
    requires Normalize(row[cols.spec]) in ReadRows(rows, cols).value.values
    ensures ReadRows(rows + [row], cols) == ReadRows(rows, cols)
  {
    assert (rows + [row])[..|rows|] == rows;
  }

  /** A new key is appended with its value cells, missing ones as "". */
  lemma NewKeyAppended(rows: seq<seq<string>>, cols: Columns, row: seq<string>)
    requires ReadRows(rows, cols).Ok? && row != [] && cols.spec < |row|
    requires Normalize(row[cols.spec]) !in ReadRows(rows, cols).value.values
    ensures var e := ReadRows(rows, cols).value;
      var spec := Normalize(row[cols.spec]);
      ReadRows(rows + [row], cols) == Ok(Existing(e.order + [spec], e.values[spec := (CellOr(row, cols.vmaf), CellOr(row, cols.bitrate))]))
  {
    assert (rows + [row])[..|rows|] == rows;
  }

  /** The reading of a whole results file: header first, then its rows. */
  function ResultsFile(lines: seq<seq<string>>): Result<Existing>
  {
    ReadRows(if lines == [] then [] else lines[1..], ColumnsOf(if lines == [] then None else Some(lines[0])))
  }

  /** The reading loop of `main`, on the file's rows (header first, if any). */
  method ReadExisting(lines: seq<seq<string>>) returns (r: Result<Existing>)
    ensures r == ResultsFile(lines)
  {
    var header := if lines == [] then None else Some(lines[0]);
    var body := if lines == [] then [] else lines[1..];
    r := ReadBody(body, ColumnsOf(header));
  }

  /** The loop over the rows after the header, in the columns the header names. */
  method ReadBody(body: seq<seq<string>>, cols: Columns) returns (r: Result<Existing>)
    ensures r == ReadRows(body, cols)
  {
    var order: seq<string> := [];
    var values: map<string, (string, string)> := map[];
    var k := 0;
    while k < |body|
      invariant 0 <= k <= |body|
      invariant ReadRows(body[..k], cols) == Ok(Existing(order, values))
    {
      var row := body[k];
      assert body[..k + 1] == body[..k] + [row];
      if row == [] {
        EmptyRowSkipped(body[..k], cols);
      } else {
        if cols.spec >= |row| {
          assert body[..k + 1][..k] == body[..k];
          ReadRowsErrSticks(body, k + 1, cols);
          assert body[..|body|] == body;
          return Err(IndexErrorMessage);
        }
        var spec := Normalize(row[cols.spec]);
        if spec !in values {
          NewKeyAppended(body[..k], cols, row);
          values := values[spec := (CellOr(row, cols.vmaf), CellOr(row, cols.bitrate))];
          order := order + [spec];
        } else {
          DuplicateKeepsFirst(body[..k], cols, row);
        }
      }
      k := k + 1;
    }
    assert body[..|body|] == body;
    return Ok(Existing(order, values));
  }

  /** Once a prefix raises, the whole file raises with the same error. */
  lemma {:induction false} ReadRowsErrSticks(rows: seq<seq<string>>, k: nat, cols: Columns)
    requires k <= |rows| && ReadRows(rows[..k], cols) == Err(IndexErrorMessage)
    ensures ReadRows(rows, cols) == Err(IndexErrorMessage)
    decreases |rows| - k
  {
    if k < |rows| {
      assert rows[..k + 1][..k] == rows[..k];
      ReadRowsErrSticks(rows, k + 1, cols);
    } else {
      assert rows[..k] == rows;
    }
  }
}
