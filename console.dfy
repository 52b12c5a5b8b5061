/**
 * Console output helpers. Every helper prints whole lines; here each returns the lines
 * it prints, in order, and printing them is left to the caller.
 */
module Console {
  import opened Wrappers
  import opened Text

  // ---------------------------------------------------------------------------
  // Tagged messages
  // ---------------------------------------------------------------------------

  /** A tag counts only when present and non-empty (Python's truthiness of `tag`). */
  predicate Tagged(tag: Option<string>) { tag.Some? && tag.value != "" }

  /** `_emit(message, tag, leading_blank)`: an optional blank line, then `[tag] message` or `message`. */
  function Emit(message: string, tag: Option<string>, leadingBlank: bool): (lines: seq<string>)
    ensures |lines| == if leadingBlank then 2 else 1
    ensures leadingBlank ==> lines[0] == ""
    ensures EndsWith(lines[|lines| - 1], message)
    ensures Tagged(tag) ==>
      (StartsWith(lines[|lines| - 1], "[" + tag.value + "] ") && |lines[|lines| - 1]| == |tag.value| + 3 + |message|)
    ensures !Tagged(tag) ==> lines[|lines| - 1] == message
  {
    var text :=
      if Tagged(tag) then
        var prefix := "[" + tag.value + "] ";
        EndsWithConcat(prefix, message);
        assert (prefix + message)[..|prefix|] == prefix;
        prefix + message
      else
        assert message[|message| - |message|..] == message;
        message;
    if leadingBlank then ["", text] else [text]
  }

  function Info(message: string, leadingBlank: bool): seq<string> { Emit(message, Some("信息"), leadingBlank) }

  function Success(message: string, leadingBlank: bool): seq<string> { Emit(message, Some("成功"), leadingBlank) }

  function Warn(message: string, leadingBlank: bool): seq<string> { Emit(message, Some("警告"), leadingBlank) }

  function Error(message: string, leadingBlank: bool): seq<string> { Emit(message, Some("错误"), leadingBlank) }

  function PhaseStart(scope: string, message: string): seq<string> { Emit(scope + " | " + message, Some("开始"), true) }

  function PhaseEnd(scope: string, message: string): seq<string> { Emit(scope + " | " + message, Some("完成"), true) }

  function Progress(current: int, total: int, message: string): seq<string>
  {
    Emit("[" + IntToString(current) + "/" + IntToString(total) + "] " + message, Some("进度"), false)
  }

  function Section(title: string): seq<string>
  {
    ["", Repeat('=', 16) + " " + title + " " + Repeat('=', 16)]
  }

  /** The four level wrappers print one `[tag] message` line, after a blank line on request. */
  lemma LevelLines(message: string, leadingBlank: bool)
    ensures var n := if leadingBlank then 1 else 0;
      Info(message, leadingBlank)[n] == "[信息] " + message
      && Success(message, leadingBlank)[n] == "[成功] " + message
      && Warn(message, leadingBlank)[n] == "[警告] " + message
      && Error(message, leadingBlank)[n] == "[错误] " + message
      && |Info(message, leadingBlank)| == n + 1
  {
    EmitTagged(message, "信息", leadingBlank);
    EmitTagged(message, "成功", leadingBlank);
    EmitTagged(message, "警告", leadingBlank);
    EmitTagged(message, "错误", leadingBlank);
    assert "[" + "信息" + "] " == "[信息] ";
    assert "[" + "成功" + "] " == "[成功] ";
    assert "[" + "警告" + "] " == "[警告] ";
    assert "[" + "错误" + "] " == "[错误] ";
  }

  /** A non-empty tag: the optional blank line, then `[tag] message`. */
  lemma EmitTagged(message: string, tag: string, leadingBlank: bool)
    requires tag != ""
    ensures Emit(message, Some(tag), leadingBlank)
         == (if leadingBlank then [""] else []) + ["[" + tag + "] " + message]
  {
  }

  /** Phase markers always start with a blank line, then `[tag] scope | message`. */
  lemma PhaseLines(scope: string, message: string)
    ensures PhaseStart(scope, message) == ["", "[开始] " + (scope + " | " + message)]
    ensures PhaseEnd(scope, message) == ["", "[完成] " + (scope + " | " + message)]
  {
    assert "[" + "开始" + "] " == "[开始] ";
    assert "[" + "完成" + "] " == "[完成] ";
  }

  /** A progress line is `[进度] [current/total] message`, with no blank line. */
  lemma ProgressLine(current: int, total: int, message: string)
    ensures Progress(current, total, message)
         == ["[进度] " + ("[" + IntToString(current) + "/" + IntToString(total) + "] " + message)]
  {
    assert "[" + "进度" + "] " == "[进度] ";
  }

  /** A section is a blank line, then the title between two runs of sixteen '='. */
  lemma SectionLines(title: string)
    ensures |Section(title)| == 2 && Section(title)[0] == ""
    ensures |Section(title)[1]| == 34 + |title|
    ensures Section(title)[1][..17] == Repeat('=', 16) + " "
    ensures Section(title)[1][17..17 + |title|] == title
    ensures Section(title)[1][17 + |title|..] == " " + Repeat('=', 16)
  {
    var line := Section(title)[1];
    assert line == (Repeat('=', 16) + " ") + title + (" " + Repeat('=', 16));
  }

  // ---------------------------------------------------------------------------
  // Column-aligned tables
  // ---------------------------------------------------------------------------

  /** The widest cell of column `c` over the rows of `matrix` that have such a cell, or 0. */
  function ColumnWidth(matrix: seq<seq<string>>, c: nat): (w: nat)
    ensures forall k :: 0 <= k < |matrix| && c < |matrix[k]| ==> |matrix[k][c]| <= w
  {
    if matrix == [] then 0
    else
      var rest := ColumnWidth(matrix[..|matrix| - 1], c);
      var last := matrix[|matrix| - 1];
      assert forall k :: 0 <= k < |matrix| - 1 ==> matrix[..|matrix| - 1][k] == matrix[k];
      if c < |last| && |last[c]| > rest then |last[c]| else rest
  }

  /** A non-zero column width is the length of some cell of that column. */
  lemma {:induction false} ColumnWidthAttained(matrix: seq<seq<string>>, c: nat)
    ensures var w := ColumnWidth(matrix, c);
      w == 0 || exists k :: 0 <= k < |matrix| && c < |matrix[k]| && |matrix[k][c]| == w
  {
    if matrix != [] {
      var init := matrix[..|matrix| - 1];
      ColumnWidthAttained(init, c);
      var w := ColumnWidth(init, c);
      if w != 0 && w == ColumnWidth(matrix, c) {
        var k :| 0 <= k < |init| && c < |init[k]| && |init[k][c]| == w;
        assert matrix[k] == init[k];
      }
    }
  }

  /** The widths of the first `n` columns. */
  function Widths(matrix: seq<seq<string>>, n: nat): (ws: seq<nat>)
    ensures |ws| == n && forall c :: 0 <= c < n ==> ws[c] == ColumnWidth(matrix, c)
  {
    seq(n, (c: int) requires 0 <= c => ColumnWidth(matrix, c))
  }

  /** Every row fits under the header: no row has more cells than the header. */
  predicate RowsFit(headers: seq<string>, rows: seq<seq<string>>)
  {
    forall k :: 0 <= k < |rows| ==> |rows[k]| <= |headers|
  }

  /** `_fmt(row)`: each cell padded to its column's width, joined by " | ". */
  function FormatRow(row: seq<string>, widths: seq<nat>): string
    requires |row| <= |widths|
  {
    Join(" | ", seq(|row|, i requires 0 <= i < |row| => LJust(row[i], widths[i])))
  }

  /** The rule under the header: one run of '-' per column, joined by "-+-". */
  function Separator(widths: seq<nat>): string
  {
    Join("-+-", seq(|widths|, i requires 0 <= i < |widths| => Repeat('-', widths[i])))
  }

  /** One formatted line per row, in order. */
  function FormatRows(rows: seq<seq<string>>, widths: seq<nat>): (lines: seq<string>)
    requires forall k :: 0 <= k < |rows| ==> |rows[k]| <= |widths|
    ensures |lines| == |rows|
    ensures forall k :: 0 <= k < |rows| ==> lines[k] == FormatRow(rows[k], widths)
  {
    if rows == [] then []
    else FormatRows(rows[..|rows| - 1], widths) + [FormatRow(rows[|rows| - 1], widths)]
  }

  /** The lines `print_table` prints; with a one-shot `rows` iterator the body loop sees nothing. */
  function TableLines(headers: seq<string>, rows: seq<seq<string>>, reiterable: bool): seq<string>
    requires RowsFit(headers, rows)
  {
    var widths := Widths([headers] + rows, |headers|);
    var body := if reiterable then rows else [];
    [FormatRow(headers, widths), Separator(widths)] + FormatRows(body, widths)
  }

  /** Adding a row to the matrix widens each column to that row's cell, where it has one. */
  lemma ColumnWidthSnoc(matrix: seq<seq<string>>, row: seq<string>, c: nat)
    ensures var w := ColumnWidth(matrix, c);
      ColumnWidth(matrix + [row], c) == if c < |row| && |row[c]| > w then |row[c]| else w
  {
    assert (matrix + [row])[..|matrix|] == matrix;
  }

  /** The inner loop of the width computation: widen each column to this row's cell; `IndexError` past the header. */
  method WidenRow(widths: array<nat>, row: seq<string>) returns (ok: bool)
    modifies widths
    ensures ok <==> |row| <= widths.Length
    ensures ok ==> forall c :: 0 <= c < widths.Length ==>
      widths[c] == if c < |row| && |row[c]| > old(widths[c]) then |row[c]| else old(widths[c])
  {
    var i := 0;
    while i < |row|
      invariant 0 <= i <= |row| && i <= widths.Length
      invariant forall c :: 0 <= c < i ==>
        widths[c] == if |row[c]| > old(widths[c]) then |row[c]| else old(widths[c])
      invariant forall c :: i <= c < widths.Length ==> widths[c] == old(widths[c])
    {
      if i >= widths.Length {
        return false;
      }
      if |row[i]| > widths[i] {
        widths[i] := |row[i]|;
      }
      i := i + 1;
    }
    return true;
  }

  /** The width-computing nested loop of `print_table`; a row longer than the header raises `IndexError`. */
  method ComputeWidths(matrix: seq<seq<string>>) returns (r: Result<seq<nat>>)
    requires matrix != []
    ensures r.Ok? <==> forall k :: 0 <= k < |matrix| ==> |matrix[k]| <= |matrix[0]|
    ensures r.Ok? ==> r.value == Widths(matrix, |matrix[0]|)
  {
    var colCount := |matrix[0]|;
    var widths := new nat[colCount](_ => 0);
    var k := 0;
    while k < |matrix|
      invariant 0 <= k <= |matrix| && widths.Length == colCount
      invariant forall j :: 0 <= j < k ==> |matrix[j]| <= colCount
      invariant forall c :: 0 <= c < colCount ==> widths[c] == ColumnWidth(matrix[..k], c)
    {
      var row := matrix[k];
      assert matrix[..k + 1] == matrix[..k] + [row];
      forall c | 0 <= c < colCount {
        ColumnWidthSnoc(matrix[..k], row, c);
      }
      var ok := WidenRow(widths, row);
      if !ok {
        return Err("IndexError: list index out of range");
      }
      k := k + 1;
    }
    assert matrix[..|matrix|] == matrix;
    return Ok(widths[..]);
  }

  /** `print_table(headers, rows)`: the lines printed, or the `IndexError` raised before any. */
  method PrintTable(headers: seq<string>, rows: seq<seq<string>>, reiterable: bool) returns (r: Result<seq<string>>)
    ensures r.Ok? <==> RowsFit(headers, rows)
    ensures r.Ok? ==> RowsFit(headers, rows) && r.value == TableLines(headers, rows, reiterable)
  {
    var matrix := [headers] + rows;
    assert matrix[0] == headers;
    assert forall k :: 0 <= k < |rows| ==> matrix[k + 1] == rows[k];
    var w := ComputeWidths(matrix);
    if w.Err? {
      return Err(w.message);
    }
    var widths := w.value;
    var body := FormatBody(if reiterable then rows else [], widths);
    return Ok([FormatRow(headers, widths), Separator(widths)] + body);
  }

  /** The row loop of `print_table`: one line per row, in order. */
  method FormatBody(rows: seq<seq<string>>, widths: seq<nat>) returns (lines: seq<string>)
    requires forall k :: 0 <= k < |rows| ==> |rows[k]| <= |widths|
    ensures lines == FormatRows(rows, widths)
  {
    lines := [];
    var k := 0;
    while k < |rows|
      invariant 0 <= k <= |rows|
      invariant lines == FormatRows(rows[..k], widths)
    {
      assert rows[..k + 1][..k] == rows[..k];
      lines := lines + [FormatRow(rows[k], widths)];
      k := k + 1;
    }
    assert rows[..|rows|] == rows;
  }

  // ---------------------------------------------------------------------------
  // Facts about tables
  // ---------------------------------------------------------------------------

  function Sum(ws: seq<nat>): nat
  {
    if ws == [] then 0 else ws[0] + Sum(ws[1..])
  }

  lemma {:induction false} SumLengthsPointwise(parts: seq<string>, ws: seq<nat>)
    requires |parts| == |ws| && forall i :: 0 <= i < |ws| ==> |parts[i]| == ws[i]
    ensures SumLengths(parts) == Sum(ws)
  {
    if parts != [] {
      SumLengthsPointwise(parts[1..], ws[1..]);
    }
  }

  /** A row of `m` cells, each no wider than its column, is the first `m` widths plus `3*(m-1)` long. */
  lemma FormatRowLength(row: seq<string>, widths: seq<nat>)
    requires 0 < |row| <= |widths|
    requires forall i :: 0 <= i < |row| ==> |row[i]| <= widths[i]
    ensures |FormatRow(row, widths)| == Sum(widths[..|row|]) + 3 * (|row| - 1)
  {
    var parts := seq(|row|, i requires 0 <= i < |row| => LJust(row[i], widths[i]));
    JoinLength(" | ", parts);
    SumLengthsPointwise(parts, widths[..|row|]);
  }

  /** The rule is exactly as long as a full row. */
  lemma SeparatorLength(widths: seq<nat>)
    requires widths != []
    ensures |Separator(widths)| == Sum(widths) + 3 * (|widths| - 1)
  {
    var parts := seq(|widths|, i requires 0 <= i < |widths| => Repeat('-', widths[i]));
    JoinLength("-+-", parts);
    SumLengthsPointwise(parts, widths);
  }

  /**
   * With a non-empty header and rows as long as the header, the header, the rule and
   * every row line all have the same length, the widths plus three per column gap.
   */
  lemma TableAligned(headers: seq<string>, rows: seq<seq<string>>, reiterable: bool)
    requires headers != [] && forall k :: 0 <= k < |rows| ==> |rows[k]| == |headers|
    ensures RowsFit(headers, rows)
    ensures var lines := TableLines(headers, rows, reiterable);
      var widths := Widths([headers] + rows, |headers|);
      forall l :: 0 <= l < |lines| ==> |lines[l]| == Sum(widths) + 3 * (|headers| - 1)
  {
    var widths := Widths([headers] + rows, |headers|);
    var lines := TableLines(headers, rows, reiterable);
    var body := if reiterable then rows else [];
    forall l | 0 <= l < |lines|
      ensures |lines[l]| == Sum(widths) + 3 * (|headers| - 1)
    {
      if l == 0 {
        HeaderLineLength(headers, rows);
      } else if l == 1 {
        SeparatorLength(widths);
      } else {
        assert lines[l] == FormatRow(body[l - 2], widths);
        RowLineLength(headers, rows, l - 2);
      }
    }
  }

  /** The header line is as long as a full row. */
  lemma HeaderLineLength(headers: seq<string>, rows: seq<seq<string>>)
    requires headers != []
    ensures var widths := Widths([headers] + rows, |headers|);
      |FormatRow(headers, widths)| == Sum(widths) + 3 * (|headers| - 1)
  {
    var matrix := [headers] + rows;
    var widths := Widths(matrix, |headers|);
    assert widths[..|headers|] == widths;
    assert matrix[0] == headers;
    FormatRowLength(headers, widths);
  }

  /** A row as long as the header gives a line as long as a full row. */
  lemma RowLineLength(headers: seq<string>, rows: seq<seq<string>>, k: nat)
    requires k < |rows| && |rows[k]| == |headers| > 0
    ensures var widths := Widths([headers] + rows, |headers|);
      |FormatRow(rows[k], widths)| == Sum(widths) + 3 * (|headers| - 1)
  {
    var matrix := [headers] + rows;
    var widths := Widths(matrix, |headers|);
    assert widths[..|headers|] == widths;
    assert matrix[k + 1] == rows[k];
    FormatRowLength(rows[k], widths);
  }

  /** Column widths are attained maxima: each cell fits, and each non-zero width is some cell's length. */
  lemma WidthsAreMaxima(headers: seq<string>, rows: seq<seq<string>>, c: nat)
    requires c < |headers|
    ensures var w := Widths([headers] + rows, |headers|)[c];
      |headers[c]| <= w
      && (forall k :: 0 <= k < |rows| && c < |rows[k]| ==> |rows[k][c]| <= w)
      && (w == |headers[c]| || exists k :: 0 <= k < |rows| && c < |rows[k]| && |rows[k][c]| == w)
  {
    var matrix := [headers] + rows;
    assert matrix[0] == headers;
    assert forall k :: 0 <= k < |rows| ==> matrix[k + 1] == rows[k];
    var w := ColumnWidth(matrix, c);
    ColumnWidthAttained(matrix, c);
    if w != 0 && w != |headers[c]| {
      var k :| 0 <= k < |matrix| && c < |matrix[k]| && |matrix[k][c]| == w;
      assert k != 0;
      assert rows[k - 1] == matrix[k];
    }
  }

  /** A one-shot iterator of rows leaves only the header and the rule. */
  lemma OneShotRowsPrintNoBody(headers: seq<string>, rows: seq<seq<string>>)
    requires RowsFit(headers, rows)
    ensures |TableLines(headers, rows, false)| == 2
    ensures |TableLines(headers, rows, true)| == 2 + |rows|
  {
  }
}
