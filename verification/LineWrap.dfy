/** Wrapping a styled line into terminal rows of a given cell width. */
module LineWrap {
  import opened Wrappers

  datatype Span = Span(text: string, style: string, background: Option<string>)

  datatype Line = Line(spans: seq<Span>)

  predicate IsCombiningMark(c: int) {
    || 0x0300 <= c <= 0x036f
    || 0x1ab0 <= c <= 0x1aff
    || 0x1dc0 <= c <= 0x1dff
    || 0x20d0 <= c <= 0x20ff
    || 0xfe20 <= c <= 0xfe2f
  }

  predicate IsWide(c: int) {
    || 0x1100 <= c <= 0x115f
    || 0x2329 <= c <= 0x232a
    || 0x2e80 <= c <= 0xa4cf
    || 0xac00 <= c <= 0xd7a3
    || 0xf900 <= c <= 0xfaff
    || 0xfe10 <= c <= 0xfe19
    || 0xfe30 <= c <= 0xfe6f
    || 0xff00 <= c <= 0xff60
    || 0xffe0 <= c <= 0xffe6
    || 0x1f300 <= c <= 0x1faff
  }

  /** Terminal cells taken by one character: none, one or two. */
  function CellWidth(character: char): (w: nat)
    ensures w <= 2
  {
    var c := character as int;
    if c < 0x20 || 0x7f <= c < 0xa0 then 0
    else if IsCombiningMark(c) then 0
    else if IsWide(c) then 2
    else 1
  }

  // ---------------------------------------------------------------- characters and cells

  datatype Glyph = Glyph(c: char, style: string, background: Option<string>)

  function SpanGlyphs(span: Span): (glyphs: seq<Glyph>)
    ensures |glyphs| == |span.text|
    ensures forall i :: 0 <= i < |glyphs| ==> glyphs[i] == Glyph(span.text[i], span.style, span.background)
  {
    seq(|span.text|, i requires 0 <= i < |span.text| => Glyph(span.text[i], span.style, span.background))
  }

  function Glyphs(spans: seq<Span>): seq<Glyph> {
    if spans == [] then [] else Glyphs(spans[..|spans| - 1]) + SpanGlyphs(spans[|spans| - 1])
  }

  /** A character that takes room, with the zero-width characters that follow it. */
  datatype Cell = Cell(base: char, style: string, background: Option<string>, marks: string)

  function Marked(cells: seq<Cell>, c: char): seq<Cell>
    requires cells != []
  {
    var last := cells[|cells| - 1];
    cells[..|cells| - 1] + [last.(marks := last.marks + [c])]
  }

  /** The cells of a text; zero-width characters before the first cell belong to none. */
  function Cells(glyphs: seq<Glyph>): seq<Cell> {
    if glyphs == [] then []
    else
      var before := Cells(glyphs[..|glyphs| - 1]);
      var g := glyphs[|glyphs| - 1];
      if CellWidth(g.c) > 0 then before + [Cell(g.c, g.style, g.background, "")]
      else if before == [] then []
      else Marked(before, g.c)
  }

  function Width(cells: seq<Cell>): nat {
    if cells == [] then 0 else Width(cells[..|cells| - 1]) + CellWidth(cells[|cells| - 1].base)
  }

  ghost predicate WellFormed(cells: seq<Cell>) {
    forall i :: 0 <= i < |cells| ==>
      && CellWidth(cells[i].base) > 0
      && forall j :: 0 <= j < |cells[i].marks| ==> CellWidth(cells[i].marks[j]) == 0
  }

  // ---------------------------------------------------------------- the reference: longest rows first

  /** How many leading cells fit into a width. */
  function Fit(cells: seq<Cell>, width: nat): (k: nat)
    ensures k <= |cells|
  {
    if cells == [] || CellWidth(cells[0].base) > width then 0
    else 1 + Fit(cells[1..], width - CellWidth(cells[0].base))
  }

  /**
   * Rows of cells, each as long as fits. A cell wider than a whole row gets a row of its own, after
   * an empty row unless the row above it is such a row too (`blank` says which).
   */
  function Wrap(cells: seq<Cell>, width: nat, blank: bool): seq<seq<Cell>>
    decreases |cells|
  {
    if cells == [] then []
    else
      var k := Fit(cells, width);
      if k == 0 then (if blank then [[]] else []) + [[cells[0]]] + Wrap(cells[1..], width, false)
      else [cells[..k]] + Wrap(cells[k..], width, true)
  }

  function Rows(cells: seq<Cell>, width: nat): seq<seq<Cell>> {
    if cells == [] then [[]] else Wrap(cells, width, true)
  }

  predicate SameLook(span: Span, cell: Cell) {
    span.style == cell.style && span.background == cell.background
  }

  function CellText(cell: Cell): string {
    [cell.base] + cell.marks
  }

  /** The spans of a row: runs of cells with one style and background. */
  function Spans(cells: seq<Cell>): seq<Span> {
    if cells == [] then []
    else
      var n := |cells| - 1;
      AddCell(Spans(cells[..n]), cells[n])
  }

  function AddCell(spans: seq<Span>, cell: Cell): seq<Span> {
    var m := |spans| - 1;
    if spans != [] && SameLook(spans[m], cell) then
      spans[..m] + [spans[m].(text := spans[m].text + CellText(cell))]
    else
      spans + [Span(CellText(cell), cell.style, cell.background)]
  }

  /** Zero-width characters after the cell that fills the row have nowhere to go. */
  function Shown(row: seq<Cell>, width: nat): seq<Cell> {
    if row != [] && Width(row) == width then row[..|row| - 1] + [row[|row| - 1].(marks := "")] else row
  }

  function Render(row: seq<Cell>, width: nat): Line {
    Line(Spans(Shown(row, width)))
  }

  function RenderAll(rows: seq<seq<Cell>>, width: nat): (lines: seq<Line>)
    ensures |lines| == |rows|
    ensures forall i :: 0 <= i < |rows| ==> lines[i] == Render(rows[i], width)
  {
    if rows == [] then [] else RenderAll(rows[..|rows| - 1], width) + [Render(rows[|rows| - 1], width)]
  }

  /** The reference: what splitting a line into rows should give. */
  function Split(line: Line, width: nat): seq<Line> {
    RenderAll(Rows(Cells(Glyphs(line.spans)), width), width)
  }

  // ---------------------------------------------------------------- adding one character at a time

  lemma {:induction false} WidthConcat(a: seq<Cell>, b: seq<Cell>)
    ensures Width(a + b) == Width(a) + Width(b)
  {
    if b == [] {
      assert a + b == a;
    } else {
      var n := |b| - 1;
      WidthConcat(a, b[..n]);
      assert (a + b)[..|a| + n] == a + b[..n];
    }
  }

  lemma {:induction false} FitWidth(cells: seq<Cell>, width: nat)
    ensures
      var k := Fit(cells, width);
      && Width(cells[..k]) <= width
      && (k < |cells| ==> Width(cells[..k]) + CellWidth(cells[k].base) > width)
  {
    if cells != [] && CellWidth(cells[0].base) <= width {
      var rest := cells[1..];
      FitWidth(rest, width - CellWidth(cells[0].base));
      var k := Fit(cells, width);
      assert cells[..k] == [cells[0]] + rest[..k - 1];
      WidthConcat([cells[0]], rest[..k - 1]);
      WidthOne(cells[0]);
    }
  }

  lemma WidthOne(cell: Cell)
    ensures Width([cell]) == CellWidth(cell.base)
  {
    assert [cell][..0] == [];
  }

  lemma {:induction false} FitSnoc(cells: seq<Cell>, width: nat, cell: Cell)
    ensures
      var k := Fit(cells, width);
      Fit(cells + [cell], width) ==
      if k == |cells| && Width(cells) + CellWidth(cell.base) <= width then k + 1 else k
  {
    if cells == [] {
      assert (cells + [cell])[1..] == [];
    } else if CellWidth(cells[0].base) <= width {
      FitSnoc(cells[1..], width - CellWidth(cells[0].base), cell);
      assert (cells + [cell])[1..] == cells[1..] + [cell];
      assert cells == [cells[0]] + cells[1..];
      WidthConcat([cells[0]], cells[1..]);
      WidthOne(cells[0]);
    }
  }

  /** The rows once one more cell has arrived, given the rows before it. */
  function AddToRows(rows: seq<seq<Cell>>, width: nat, blank: bool, cell: Cell): seq<seq<Cell>> {
    var n := |rows| - 1;
    if rows != [] && Width(rows[n]) + CellWidth(cell.base) <= width then rows[..n] + [rows[n] + [cell]]
    else if CellWidth(cell.base) > width && (if rows == [] then blank else Width(rows[n]) == width) then
      rows + [[], [cell]]
    else
      rows + [[cell]]
  }

  lemma AddBelow(top: seq<seq<Cell>>, rows: seq<seq<Cell>>, width: nat, outer: bool, blank: bool, cell: Cell)
    requires top != []
    requires rows == [] ==>
      && Width(top[|top| - 1]) + CellWidth(cell.base) > width
      && (CellWidth(cell.base) > width ==> (blank <==> Width(top[|top| - 1]) == width))
    ensures AddToRows(top + rows, width, outer, cell) == top + AddToRows(rows, width, blank, cell)
  {
    if rows != [] {
      var n := |rows| - 1;
      assert (top + rows)[|top| + n] == rows[n];
      assert (top + rows)[..|top| + n] == top + rows[..n];
    } else {
      assert top + rows == top;
    }
  }

  /** Longest-first wrapping can be computed one cell at a time. */
  lemma {:induction false} WrapSnoc(cells: seq<Cell>, width: nat, blank: bool, cell: Cell)
    requires width >= 1 && WellFormed(cells) && CellWidth(cell.base) > 0
    ensures Wrap(cells + [cell], width, blank) == AddToRows(Wrap(cells, width, blank), width, blank, cell)
    decreases |cells|
  {
    hide CellWidth, AddToRows, Width, WellFormed;
    var k := Fit(cells, width);
    if cells == [] {
      FirstSnoc(width, blank, cell);
      assert cells + [cell] == [cell];
    } else if k == |cells| {
      OneRowSnoc(cells, width, blank, cell);
    } else {
      var k' := if k == 0 then 1 else k;
      PartWellFormed(cells, k');
      WrapSnoc(cells[k'..], width, k > 0, cell);
      TopRowSnoc(cells, width, blank, cell);
    }
  }

  lemma PartWellFormed(cells: seq<Cell>, k: nat)
    requires WellFormed(cells) && k <= |cells|
    ensures WellFormed(cells[..k]) && WellFormed(cells[k..])
  {
  }

  lemma FirstSnoc(width: nat, blank: bool, cell: Cell)
    ensures Wrap([cell], width, blank) == AddToRows([], width, blank, cell)
  {
    assert [cell][1..] == [] && [cell][..1] == [cell];
  }

  /** The rows below the first one take the new cell, whatever the first one is. */
  lemma TopRowSnoc(cells: seq<Cell>, width: nat, blank: bool, cell: Cell)
    requires width >= 1 && CellWidth(cell.base) > 0
    requires cells != [] && Fit(cells, width) < |cells|
    requires
      var k := if Fit(cells, width) == 0 then 1 else Fit(cells, width);
      Wrap(cells[k..] + [cell], width, Fit(cells, width) > 0) ==
      AddToRows(Wrap(cells[k..], width, Fit(cells, width) > 0), width, Fit(cells, width) > 0, cell)
    ensures Wrap(cells + [cell], width, blank) == AddToRows(Wrap(cells, width, blank), width, blank, cell)
  {
    hide CellWidth, AddToRows, Width;
    var k := Fit(cells, width);
    var more := cells + [cell];
    FitSnoc(cells, width, cell);
    FitWidth(cells, width);
    var k' := if k == 0 then 1 else k;
    var top := if k > 0 then [cells[..k]] else (if blank then [[]] else []) + [[cells[0]]];
    var below := Wrap(cells[k'..], width, k > 0);
    assert more[k'..] == cells[k'..] + [cell] && more[..k] == cells[..k];
    WidthOne(cells[0]);
    assert Wrap(cells, width, blank) == top + below;
    assert Wrap(more, width, blank) == top + AddToRows(below, width, k > 0, cell);
    assert k > 0 ==> below != [];
    AddBelow(top, below, width, blank, k > 0, cell);
  }

  lemma OneRowSnoc(cells: seq<Cell>, width: nat, blank: bool, cell: Cell)
    requires width >= 1 && WellFormed(cells) && CellWidth(cell.base) > 0
    requires cells != [] && Fit(cells, width) == |cells|
    ensures Wrap(cells + [cell], width, blank) == AddToRows(Wrap(cells, width, blank), width, blank, cell)
  {
    hide CellWidth;
    var k := |cells|;
    var more := cells + [cell];
    FitSnoc(cells, width, cell);
    FitWidth(cells, width);
    assert cells[..k] == cells && cells[k..] == [];
    assert Wrap(cells, width, blank) == [cells];
    assert [cells][..0] == [];
    if Width(cells) + CellWidth(cell.base) <= width {
      assert more[..k + 1] == more && more[k + 1..] == [];
    } else {
      assert more[..k] == cells && more[k..] == [cell];
      assert [cell][1..] == [] && [cell][..1] == [cell];
      assert Wrap([cell], width, true) == if CellWidth(cell.base) <= width then [[cell]] else [[], [cell]];
      assert Width(cells) >= 1;
    }
  }

  // ---------------------------------------------------------------- the zero-width characters

  function MarkRows(rows: seq<seq<Cell>>, c: char): seq<seq<Cell>>
    requires rows != [] && rows[|rows| - 1] != []
  {
    rows[..|rows| - 1] + [Marked(rows[|rows| - 1], c)]
  }

  lemma {:induction false} FitMark(cells: seq<Cell>, width: nat, c: char)
    requires cells != []
    ensures Fit(Marked(cells, c), width) == Fit(cells, width)
  {
    if |cells| > 1 && CellWidth(cells[0].base) <= width {
      FitMark(cells[1..], width - CellWidth(cells[0].base), c);
      assert Marked(cells, c)[1..] == Marked(cells[1..], c);
    } else if |cells| == 1 {
      assert Marked(cells, c)[1..] == [] && cells[1..] == [];
    }
  }

  /** The first row of a wrap with what stands above it, and the number of cells in it. */
  function Top(cells: seq<Cell>, width: nat, blank: bool): (top: (seq<seq<Cell>>, nat))
    requires cells != []
    ensures 1 <= top.1 <= |cells|
  {
    var k := Fit(cells, width);
    if k == 0 then ((if blank then [[]] else []) + [[cells[0]]], 1) else ([cells[..k]], k)
  }

  lemma WrapTop(cells: seq<Cell>, width: nat, blank: bool)
    requires cells != []
    ensures
      var (top, k) := Top(cells, width, blank);
      Wrap(cells, width, blank) == top + Wrap(cells[k..], width, Fit(cells, width) > 0)
  {
  }

  lemma TopMark(cells: seq<Cell>, width: nat, blank: bool, c: char)
    requires cells != []
    ensures
      var (top, k) := Top(cells, width, blank);
      var (top', k') := Top(Marked(cells, c), width, blank);
      && k' == k
      && top != [] && top[|top| - 1] == cells[..k]
      && top' == if k == |cells| then MarkRows(top, c) else top
  {
    FitMark(cells, width, c);
    var k := Fit(cells, width);
    assert cells[..1] == [cells[0]] && Marked(cells, c)[..1] == [Marked(cells, c)[0]];
    if k == |cells| {
      assert cells[..k] == cells && Marked(cells, c)[..k] == Marked(cells, c);
    } else {
      assert Marked(cells, c)[..k] == cells[..k];
    }
  }

  /** Zero-width characters never move a cell to another row. */
  lemma {:induction false} WrapMark(cells: seq<Cell>, width: nat, blank: bool, c: char)
    requires cells != []
    ensures
      var rows := Wrap(cells, width, blank);
      && rows != [] && rows[|rows| - 1] != []
      && Wrap(Marked(cells, c), width, blank) == MarkRows(rows, c)
    decreases |cells|
  {
    hide Wrap, Top, Marked;
    var marked := Marked(cells, c);
    MarkedTail(cells, 0, c);
    WrapTop(cells, width, blank);
    WrapTop(marked, width, blank);
    TopMark(cells, width, blank, c);
    FitMark(cells, width, c);
    var (top, k) := Top(cells, width, blank);
    if k < |cells| {
      var below := Wrap(cells[k..], width, Fit(cells, width) > 0);
      WrapMark(cells[k..], width, Fit(cells, width) > 0, c);
      MarkedTail(cells, k, c);
      assert MarkRows(top + below, c) == top + MarkRows(below, c);
    } else {
      MarkedTail(cells, k, c);
      assert cells[k..] == [];
      WrapNothing(width, Fit(cells, width) > 0);
      assert top + [] == top;
    }
  }

  lemma WrapNothing(width: nat, blank: bool)
    ensures Wrap([], width, blank) == []
  {
  }

  lemma MarkedTail(cells: seq<Cell>, k: nat, c: char)
    requires cells != [] && k <= |cells|
    ensures |Marked(cells, c)| == |cells|
    ensures Marked(cells, c)[k..] == if k < |cells| then Marked(cells[k..], c) else []
  {
  }

  lemma SpansMarked(row: seq<Cell>, c: char)
    requires row != []
    ensures Spans(row) != []
    ensures
      var spans := Spans(row);
      var m := |spans| - 1;
      Spans(Marked(row, c)) == spans[..m] + [spans[m].(text := spans[m].text + [c])]
  {
    var n := |row| - 1;
    assert Marked(row, c)[..n] == row[..n];
    assert CellText(Marked(row, c)[n]) == CellText(row[n]) + [c];
    var before := Spans(row[..n]);
    if before != [] && SameLook(before[|before| - 1], row[n]) {
      var m := |before| - 1;
      assert before[m].text + CellText(row[n]) + [c] == before[m].text + (CellText(row[n]) + [c]);
    }
  }

  // ---------------------------------------------------------------- the loop

  /** The loop's variables after the characters that make up `cells`. */
  ghost predicate Placed(cells: seq<Cell>, width: nat, output: seq<Line>, current: seq<Span>, remaining: int) {
    var rows := Wrap(cells, width, true);
    var n := |rows| - 1;
    if current == [] then
      && output == RenderAll(rows, width)
      && remaining == width
      && (rows == [] || Width(rows[n]) == width)
    else
      && rows != [] && rows[n] != []
      && output == RenderAll(rows[..n], width)
      && current == Spans(rows[n])
      && remaining == width - Width(rows[n]) != 0
  }

  lemma RenderOneMore(rows: seq<seq<Cell>>, row: seq<Cell>, width: nat)
    ensures RenderAll(rows + [row], width) == RenderAll(rows, width) + [Render(row, width)]
  {
    assert (rows + [row])[..|rows|] == rows;
  }

  lemma SpansSnoc(row: seq<Cell>, cell: Cell)
    ensures Spans(row + [cell]) == AddCell(Spans(row), cell) != []
    ensures Width(row + [cell]) == Width(row) + CellWidth(cell.base)
  {
    assert (row + [cell])[..|row|] == row;
  }

  lemma ShownUnmarked(row: seq<Cell>, cell: Cell, width: nat)
    requires cell.marks == ""
    ensures Shown(row + [cell], width) == row + [cell]
  {
    assert cell.(marks := "") == cell;
    assert (row + [cell])[..|row|] == row;
  }

  /** A character that fits into the current row. */
  lemma ExtendStep(
    cells: seq<Cell>, width: nat, output: seq<Line>, current: seq<Span>, remaining: int, cell: Cell)
    requires width >= 1 && WellFormed(cells) && CellWidth(cell.base) > 0 && cell.marks == ""
    requires Placed(cells, width, output, current, remaining)
    requires current != [] && CellWidth(cell.base) <= remaining
    ensures
      var current' := AddCell(current, cell);
      if remaining == CellWidth(cell.base) then Placed(cells + [cell], width, output + [Line(current')], [], width)
      else Placed(cells + [cell], width, output, current', remaining - CellWidth(cell.base))
  {
    hide CellWidth, WellFormed, Wrap, AddCell;
    var rows := Wrap(cells, width, true);
    var n := |rows| - 1;
    WrapSnoc(cells, width, true, cell);
    SpansSnoc(rows[n], cell);
    ShownUnmarked(rows[n], cell, width);
    RenderOneMore(rows[..n], rows[n] + [cell], width);
    var rows' := rows[..n] + [rows[n] + [cell]];
    assert rows'[..n] == rows[..n];
    assert Wrap(cells + [cell], width, true) == rows';
  }

  /** A character that opens a row under finished rows. */
  lemma OpenRow(cells: seq<Cell>, width: nat, output: seq<Line>, above: seq<seq<Cell>>, cell: Cell)
    requires CellWidth(cell.base) > 0 && cell.marks == "" && output == RenderAll(above, width)
    requires Wrap(cells + [cell], width, true) == above + [[cell]]
    ensures
      var remaining: int := width - CellWidth(cell.base);
      if remaining == 0 then Placed(cells + [cell], width, output + [Line(AddCell([], cell))], [], width)
      else Placed(cells + [cell], width, output, AddCell([], cell), remaining)
  {
    SpansSnoc([], cell);
    assert [] + [cell] == [cell];
    ShownUnmarked([], cell, width);
    RenderOneMore(above, [cell], width);
    assert (above + [[cell]])[..|above|] == above;
  }

  /** A character with room: start a new row if it does not fit, add it, and close a full row. */
  lemma CellStep(
    cells: seq<Cell>, width: nat, output: seq<Line>, current: seq<Span>, remaining: int, cell: Cell)
    requires width >= 1 && WellFormed(cells) && CellWidth(cell.base) > 0 && cell.marks == ""
    requires Placed(cells, width, output, current, remaining)
    ensures
      var turn := CellWidth(cell.base) > remaining;
      var output' := if turn then output + [Line(current)] else output;
      var current' := AddCell(if turn then [] else current, cell);
      var remaining' := (if turn then width as int else remaining) - CellWidth(cell.base);
      if remaining' == 0 then Placed(cells + [cell], width, output' + [Line(current')], [], width)
      else Placed(cells + [cell], width, output', current', remaining')
  {
    assert current == [] ==> remaining == width;
    hide *;
    if current != [] && CellWidth(cell.base) <= remaining {
      ExtendStep(cells, width, output, current, remaining, cell);
    } else {
      assert (if CellWidth(cell.base) > remaining then [] else current) == [];
      TurnStep(cells, width, output, current, remaining, cell);
    }
  }

  lemma TurnStep(
    cells: seq<Cell>, width: nat, output: seq<Line>, current: seq<Span>, remaining: int, cell: Cell)
    requires width >= 1 && WellFormed(cells) && CellWidth(cell.base) > 0 && cell.marks == ""
    requires Placed(cells, width, output, current, remaining)
    requires current == [] || CellWidth(cell.base) > remaining
    ensures
      var output' := if CellWidth(cell.base) > remaining then output + [Line(current)] else output;
      var remaining' := (width as int) - CellWidth(cell.base);
      if remaining' == 0 then Placed(cells + [cell], width, output' + [Line(AddCell([], cell))], [], width)
      else Placed(cells + [cell], width, output', AddCell([], cell), remaining')
  {
    var rows := Wrap(cells, width, true);
    if CellWidth(cell.base) <= remaining {
      StartsRow(cells, width, output, remaining, cell);
      OpenRow(cells, width, output, rows, cell);
    } else if current == [] {
      LeavesBlank(cells, width, output, remaining, cell);
      OpenRow(cells, width, output + [Line(current)], rows + [[]], cell);
    } else {
      LeavesRow(cells, width, output, current, remaining, cell);
      OpenRow(cells, width, output + [Line(current)], rows, cell);
    }
  }

  lemma StartsRow(cells: seq<Cell>, width: nat, output: seq<Line>, remaining: int, cell: Cell)
    requires width >= 1 && WellFormed(cells) && 0 < CellWidth(cell.base) <= remaining
    requires Placed(cells, width, output, [], remaining)
    ensures output == RenderAll(Wrap(cells, width, true), width)
    ensures Wrap(cells + [cell], width, true) == Wrap(cells, width, true) + [[cell]]
  {
    hide CellWidth, WellFormed, Wrap;
    WrapSnoc(cells, width, true, cell);
  }

  lemma LeavesBlank(cells: seq<Cell>, width: nat, output: seq<Line>, remaining: int, cell: Cell)
    requires width >= 1 && WellFormed(cells) && CellWidth(cell.base) > remaining
    requires Placed(cells, width, output, [], remaining) && CellWidth(cell.base) > 0
    ensures output + [Line([])] == RenderAll(Wrap(cells, width, true) + [[]], width)
    ensures Wrap(cells + [cell], width, true) == Wrap(cells, width, true) + [[]] + [[cell]]
  {
    hide CellWidth, WellFormed, Wrap;
    var rows := Wrap(cells, width, true);
    WrapSnoc(cells, width, true, cell);
    RenderOneMore(rows, [], width);
    assert rows + [[], [cell]] == rows + [[]] + [[cell]];
  }

  lemma LeavesRow(
    cells: seq<Cell>, width: nat, output: seq<Line>, current: seq<Span>, remaining: int, cell: Cell)
    requires width >= 1 && WellFormed(cells) && CellWidth(cell.base) > remaining && current != []
    requires Placed(cells, width, output, current, remaining) && CellWidth(cell.base) > 0
    ensures output + [Line(current)] == RenderAll(Wrap(cells, width, true), width)
    ensures Wrap(cells + [cell], width, true) == Wrap(cells, width, true) + [[cell]]
  {
    hide CellWidth, WellFormed, Wrap;
    var rows := Wrap(cells, width, true);
    var n := |rows| - 1;
    assert Render(rows[n], width) == Line(current);
    hide Render, Spans;
    WrapSnoc(cells, width, true, cell);
    assert rows == rows[..n] + [rows[n]];
    RenderOneMore(rows[..n], rows[n], width);
  }

  /** A character without room joins the span before it in the row, if the row has one. */
  lemma MarkStep(
    cells: seq<Cell>, width: nat, output: seq<Line>, current: seq<Span>, remaining: int, c: char)
    requires Placed(cells, width, output, current, remaining)
    ensures cells == [] ==> current == []
    ensures
      var m := |current| - 1;
      var current' := if current == [] then [] else current[..m] + [current[m].(text := current[m].text + [c])];
      cells != [] ==> Placed(Marked(cells, c), width, output, current', remaining)
  {
    hide Marked, Spans, Shown, Fit, Width;
    if cells != [] {
      WrapMark(cells, width, true, c);
      var rows := Wrap(cells, width, true);
      var n := |rows| - 1;
      hide Wrap;
      WidthMarked(rows[n], width, c);
      SpansMarked(rows[n], c);
      assert rows[..n] + [rows[n]] == rows;
      RenderOneMore(rows[..n], rows[n], width);
      RenderOneMore(rows[..n], Marked(rows[n], c), width);
      assert MarkRows(rows, c)[..n] == rows[..n];
    }
  }

  lemma WidthMarked(row: seq<Cell>, width: nat, c: char)
    requires row != []
    ensures Marked(row, c) != [] && Width(Marked(row, c)) == Width(row)
    ensures Width(row) == width ==> Shown(Marked(row, c), width) == Shown(row, width)
  {
    assert Marked(row, c)[..|row| - 1] == row[..|row| - 1];
  }

  lemma {:induction false} CellsWellFormed(glyphs: seq<Glyph>)
    ensures WellFormed(Cells(glyphs))
  {
    hide CellWidth;
    if glyphs != [] {
      CellsWellFormed(glyphs[..|glyphs| - 1]);
    }
  }

  lemma CellsSnoc(glyphs: seq<Glyph>, g: Glyph)
    ensures Cells(glyphs + [g]) ==
      var before := Cells(glyphs);
      if CellWidth(g.c) > 0 then before + [Cell(g.c, g.style, g.background, "")]
      else if before == [] then []
      else Marked(before, g.c)
  {
    assert (glyphs + [g])[..|glyphs|] == glyphs;
  }

  /** Splitting character by character yields the longest-rows-first reference, at every width. */
  method SplitLine(line: Line, width: nat) returns (output: seq<Line>)
    requires width >= 1
    ensures output == Split(line, width)
  {
    hide *;
    output := [];
    var current: seq<Span> := [];
    var remaining: int := width;
    ghost var done: seq<Glyph> := [];
    NothingPlaced(width);
    for s := 0 to |line.spans|
      invariant done == Glyphs(line.spans[..s])
      invariant Placed(Cells(done), width, output, current, remaining)
    {
      var span := line.spans[s];
      for i := 0 to |span.text|
        invariant done == Glyphs(line.spans[..s]) + SpanGlyphs(span)[..i]
        invariant Placed(Cells(done), width, output, current, remaining)
      {
        var c := span.text[i];
        var w := CellWidth(c);
        CellsSnoc(done, Glyph(c, span.style, span.background));
        CellsWellFormed(done);
        if w == 0 {
          MarkStep(Cells(done), width, output, current, remaining, c);
          if current != [] {
            var last := current[|current| - 1];
            current := current[..|current| - 1] + [last.(text := last.text + [c])];
          }
        } else {
          CellStep(Cells(done), width, output, current, remaining, Cell(c, span.style, span.background, ""));
          if w > remaining {
            output, current, remaining := output + [Line(current)], [], width;
          }
          current := AddCell(current, Cell(c, span.style, span.background, ""));
          remaining := remaining - w;
          if remaining == 0 {
            output, current, remaining := output + [Line(current)], [], width;
          }
        }
        done := done + [Glyph(c, span.style, span.background)];
      }
      GlyphsOneMore(line.spans, s);
    }
    assert line.spans[..|line.spans|] == line.spans;
    AllPlaced(line, width, output, current, remaining);
    if |current| > 0 || |output| == 0 {
      output := output + [Line(current)];
    }
  }

  lemma NothingPlaced(width: nat)
    ensures Glyphs([]) == [] && Placed(Cells([]), width, [], [], width)
  {
  }

  lemma GlyphsOneMore(spans: seq<Span>, s: nat)
    requires s < |spans|
    ensures |SpanGlyphs(spans[s])| == |spans[s].text|
    ensures Glyphs(spans[..s + 1]) == Glyphs(spans[..s]) + SpanGlyphs(spans[s])
  {
    assert spans[..s + 1][..s] == spans[..s];
  }

  lemma AllPlaced(line: Line, width: nat, output: seq<Line>, current: seq<Span>, remaining: int)
    requires Placed(Cells(Glyphs(line.spans)), width, output, current, remaining)
    ensures Split(line, width) == if |current| > 0 || |output| == 0 then output + [Line(current)] else output
  {
    var cells := Cells(Glyphs(line.spans));
    var rows := Wrap(cells, width, true);
    hide Cells, Glyphs, CellWidth, Fit;
    if cells == [] {
      assert RenderAll([[]], width) == RenderAll([], width) + [Render([], width)] by {
        RenderOneMore([], [], width);
        var none: seq<seq<Cell>> := [];
        assert none + [[]] == [[]];
      }
      assert Render([], width) == Line([]) && RenderAll([], width) == [];
    } else {
      WrapTop(cells, width, true);
      assert rows != [] && Rows(cells, width) == rows;
      hide Wrap, Top, RenderAll, Spans, Shown, Width;
      if current != [] {
        LastRowOpen(rows, width);
      }
    }
  }

  /** A row that is not full is shown as it is. */
  lemma LastRowOpen(rows: seq<seq<Cell>>, width: nat)
    requires rows != [] && Width(rows[|rows| - 1]) != width
    ensures RenderAll(rows, width) == RenderAll(rows[..|rows| - 1], width) + [Line(Spans(rows[|rows| - 1]))]
  {
    hide Spans, Width;
  }
}
