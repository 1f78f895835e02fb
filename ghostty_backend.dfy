/*
 * Assembling the text of a terminal selection from the cells of the
 * viewport (crates/terminal/src/ghostty_backend.rs). The terminal library
 * itself is abstracted as a `Grid`: what the library writes for each
 * viewport row into a zeroed buffer of one cell per column, the lossy
 * UTF-8 decoding of a cell's bytes, and the number of columns.
 */
module GhosttyBackend {
  import opened Wrappers
  import opened Strings

  type byte = x: int | 0 <= x < 0x100

  /** A viewport cell: its display width and its text bytes (None for a null pointer). */
  datatype Cell = Cell(width: nat, text: Option<seq<byte>>)

  datatype Grid = Grid(rowCells: nat -> seq<Cell>, lossy: seq<byte> -> string, cols: nat)

  /** A selection with its corners ordered: rows `r0..r1`, columns `c0..c1`, all inclusive. */
  datatype Selection = Selection(r0: nat, r1: nat, c0: nat, c1: nat)

  /** The zeroed cell the buffer starts with. */
  const Zeroed: Cell := Cell(0, None)

  /** Cell `i` of row `r`: what the library wrote, or the zeroed cell beyond that. */
  function CellAt(g: Grid, r: nat, i: nat): Cell
  {
    if i < |g.rowCells(r)| then g.rowCells(r)[i] else Zeroed
  }

  /** The buffer of `cols` cells the library fills for row `r`. */
  function RowCells(g: Grid, r: nat): (cells: seq<Cell>)
    ensures |cells| == g.cols
    ensures forall i | 0 <= i < g.cols :: cells[i] == CellAt(g, r, i)
  {
    seq(g.cols, i requires 0 <= i < g.cols => CellAt(g, r, i))
  }

  /** A cell of width 0, without text or with empty text contributes nothing. */
  function CellText(g: Grid, c: Cell): string
  {
    if c.width == 0 || c.text.None? || |c.text.value| == 0 then "" else g.lossy(c.text.value)
  }

  /** The text of cells `lo..end` (exclusive) of row `r`, cell after cell. */
  function SpanText(g: Grid, r: nat, lo: nat, end: nat): string
    decreases end
  {
    if end <= lo then "" else SpanText(g, r, lo, end - 1) + CellText(g, CellAt(g, r, end - 1))
  }

  function Min(a: nat, b: nat): nat { if a <= b then a else b }
  function Max(a: nat, b: nat): nat { if a <= b then b else a }

  /** The selection between two corners given in any order. */
  function Ordered(row0: nat, col0: nat, row1: nat, col1: nat): (sel: Selection)
    ensures sel.r0 <= sel.r1 && sel.c0 <= sel.c1
    ensures {sel.r0, sel.r1} == {row0, row1} && {sel.c0, sel.c1} == {col0, col1}
  {
    Selection(Min(row0, row1), Max(row0, row1), Min(col0, col1), Max(col0, col1))
  }

  /**
   * The columns read on `row` as the code chooses them (inclusive): the
   * first row from the smaller column, the last row up to the larger
   * column, every other row the whole width. Only the last row can read
   * past the width, and only when its larger column is outside the row.
   */
  function ColumnsAsWritten(sel: Selection, cols: nat, row: nat): (span: (nat, nat))
    requires cols > 0
    ensures span.1 < cols || (row == sel.r1 && sel.c1 >= cols)
  {
    (if row == sel.r0 then sel.c0 else 0, if row == sel.r1 then sel.c1 else cols - 1)
  }

  /**
   * The larger column is not bounded by the width: a one-row selection
   * ending at column 80 of an 80-column terminal reads cell 80 of a row
   * of 80 cells.
   */
  lemma ColumnsAsWrittenOverrun()
    ensures ColumnsAsWritten(Selection(0, 0, 0, 80), 80, 0).1 >= 80
  {
  }

  /**
   * The selected columns of `row` as a half-open range, with the larger
   * column bounded by the last column of the row.
   */
  function Columns(sel: Selection, cols: nat, row: nat): (span: (nat, nat))
    requires cols > 0
    ensures span.0 <= span.1 <= cols
  {
    var first := if row == sel.r0 then sel.c0 else 0;
    var last := if row == sel.r1 then Min(sel.c1, cols - 1) else cols - 1;
    if first <= last then (first, last + 1) else (0, 0)
  }

  /**
   * The corrected columns are the columns the code reads, cut at the width
   * of the row; where the larger column is inside the row the two agree.
   */
  lemma ColumnsWithinRow(sel: Selection, cols: nat, row: nat, i: nat)
    requires cols > 0
    ensures var span := Columns(sel, cols, row);
            var w := ColumnsAsWritten(sel, cols, row);
            (span.0 <= i < span.1 <==> w.0 <= i <= w.1 && i < cols)
            && (sel.c1 < cols ==> (span.0 <= i < span.1 <==> w.0 <= i <= w.1))
  {
  }

  /** The text one row of the selection contributes. */
  function RowText(g: Grid, sel: Selection, row: nat): string
    requires g.cols > 0
  {
    var span := Columns(sel, g.cols, row);
    SpanText(g, row, span.0, span.1)
  }

  /** The texts of rows `r0..row` of the selection, in order. */
  function Rows(g: Grid, sel: Selection, row: nat): (rows: seq<string>)
    requires g.cols > 0 && sel.r0 <= row
    ensures |rows| == row - sel.r0 + 1
    decreases row
  {
    if row == sel.r0 then [RowText(g, sel, row)]
    else Rows(g, sel, row - 1) + [RowText(g, sel, row)]
  }

  /** The text before row `row`: the earlier rows, each ended by '\n'. */
  ghost function RowsBefore(g: Grid, sel: Selection, row: nat): string
    requires g.cols > 0 && sel.r0 <= row
  {
    if row == sel.r0 then "" else Join(Rows(g, sel, row - 1)) + "\n"
  }

  lemma RowsStep(g: Grid, sel: Selection, row: nat)
    requires g.cols > 0 && sel.r0 <= row
    ensures RowsBefore(g, sel, row) + RowText(g, sel, row) == Join(Rows(g, sel, row))
    ensures Join(Rows(g, sel, row)) + "\n" == RowsBefore(g, sel, row + 1)
  {
    if row == sel.r0 {
      assert "" + RowText(g, sel, row) == RowText(g, sel, row);
    } else {
      JoinSnoc(Rows(g, sel, row - 1), RowText(g, sel, row));
    }
  }

  /** The selection text between two corners given in any order: its rows joined by '\n'. */
  function SelectionText(g: Grid, row0: nat, col0: nat, row1: nat, col1: nat): string
    requires g.cols > 0
  {
    var sel := Ordered(row0, col0, row1, col1);
    Join(Rows(g, sel, sel.r1))
  }

  /**
   * `read_selection_text_grid`: nothing on a terminal without columns;
   * otherwise the text of the selected cells, row by row.
   */
  method ReadSelectionText(g: Grid, row0: nat, col0: nat, row1: nat, col1: nat) returns (text: Option<string>)
    ensures text.None? <==> g.cols == 0
    ensures text.Some? ==> text.value == SelectionText(g, row0, col0, row1, col1)
  {
    if g.cols == 0 {
      return None;
    }
    var (r0, r1) := if row0 <= row1 then (row0, row1) else (row1, row0);
    var (c0, c1) := if col0 <= col1 then (col0, col1) else (col1, col0);
    var sel := Selection(r0, r1, c0, c1);
    assert sel == Ordered(row0, col0, row1, col1);
    var out := "";
    var row := r0;
    while row <= r1
      invariant r0 <= row <= r1 + 1
      invariant row <= r1 ==> out == RowsBefore(g, sel, row)
      invariant row == r1 + 1 ==> out == Join(Rows(g, sel, r1))
      decreases r1 + 1 - row
    {
      var span := Columns(sel, g.cols, row);
      var cells := RowCells(g, row);
      out := AppendCells(g, out, row, cells, span.0, span.1);
      RowsStep(g, sel, row);
      if row != r1 {
        out := out + "\n";
      }
      row := row + 1;
    }
    text := Some(out);
  }

  /** The inner loop of `read_selection_text_grid`: appends the text of `cells[lo..end]`. */
  method AppendCells(g: Grid, out: string, row: nat, cells: seq<Cell>, lo: nat, end: nat) returns (r: string)
    requires lo <= end <= |cells| && forall i | 0 <= i < |cells| :: cells[i] == CellAt(g, row, i)
    ensures r == out + SpanText(g, row, lo, end)
  {
    r := out;
    var i := lo;
    while i < end
      invariant lo <= i <= end
      invariant r == out + SpanText(g, row, lo, i)
    {
      var cell := cells[i];
      if cell.width != 0 && cell.text.Some? && |cell.text.value| != 0 {
        r := r + g.lossy(cell.text.value);
      }
      Reassociate(out, SpanText(g, row, lo, i), CellText(g, cell));
      i := i + 1;
    }
  }

  /** The order in which the two corners are given does not matter. */
  lemma SelectionSymmetric(g: Grid, row0: nat, col0: nat, row1: nat, col1: nat)
    requires g.cols > 0
    ensures SelectionText(g, row0, col0, row1, col1) == SelectionText(g, row1, col1, row0, col0)
    ensures SelectionText(g, row0, col0, row1, col1) == SelectionText(g, row0, col1, row1, col0)
  {
    assert Ordered(row0, col0, row1, col1) == Ordered(row1, col1, row0, col0) == Ordered(row0, col1, row1, col0);
  }

  /** No decoded cell text holds a line break. */
  ghost predicate SingleLineCells(g: Grid)
  {
    forall b: seq<byte> :: '\n' !in g.lossy(b)
  }

  /**
   * When no cell decodes to a line break, no row holds one, so the rows of
   * the selection are separated by exactly one '\n' each, with none after
   * the last.
   */
  lemma SelectionLines(g: Grid, row0: nat, col0: nat, row1: nat, col1: nat)
    requires g.cols > 0 && SingleLineCells(g)
    ensures var sel := Ordered(row0, col0, row1, col1);
            Newlines(SelectionText(g, row0, col0, row1, col1)) == sel.r1 - sel.r0
  {
    var sel := Ordered(row0, col0, row1, col1);
    RowsSingle(g, sel, sel.r1);
    JoinNewlines(Rows(g, sel, sel.r1));
  }

  lemma {:induction false} RowsSingle(g: Grid, sel: Selection, row: nat)
    requires g.cols > 0 && sel.r0 <= row
    requires SingleLineCells(g)
    ensures forall l | l in Rows(g, sel, row) :: '\n' !in l
    decreases row
  {
    RowSingle(g, sel, row);
    if row > sel.r0 {
      RowsSingle(g, sel, row - 1);
    }
  }

  lemma RowSingle(g: Grid, sel: Selection, row: nat)
    requires g.cols > 0
    requires SingleLineCells(g)
    ensures '\n' !in RowText(g, sel, row)
  {
    var span := Columns(sel, g.cols, row);
    SpanSingle(g, row, span.0, span.1);
  }

  lemma {:induction false} SpanSingle(g: Grid, row: nat, lo: nat, end: nat)
    requires SingleLineCells(g)
    ensures '\n' !in SpanText(g, row, lo, end)
    decreases end
  {
    if end > lo {
      SpanSingle(g, row, lo, end - 1);
      var cell := CellAt(g, row, end - 1);
      if cell.text.Some? {
        assert '\n' !in g.lossy(cell.text.value);
      }
    }
  }

  /** `to_io`: an error code of 0 becomes -1, so the OS error never reads as success. */
  function ToIo(code: int): (os: int)
    ensures os != 0
    ensures code != 0 ==> os == code
  {
    if code == 0 then -1 else code
  }
}
