/** What the wrapping promises: rows that fit, content kept in order, as few rows as possible. */
module WrapProperties {
  import opened Wrappers
  import opened LineWrap

  function Concat<T>(rows: seq<seq<T>>): seq<T> {
    if rows == [] then [] else rows[0] + Concat(rows[1..])
  }

  lemma {:induction false} ConcatAppend<T>(a: seq<seq<T>>, b: seq<seq<T>>)
    ensures Concat(a + b) == Concat(a) + Concat(b)
  {
    if a == [] {
      assert a + b == b;
    } else {
      ConcatAppend(a[1..], b);
      assert (a + b)[1..] == a[1..] + b && (a + b)[0] == a[0];
      assert Concat(a + b) == a[0] + Concat(a[1..] + b);
      assert Concat(a) == a[0] + Concat(a[1..]);
      hide *;
    }
  }

  /** No single cell is wider than a row; always so from width 2 on. */
  ghost predicate Fitting(cells: seq<Cell>, width: nat) {
    forall i :: 0 <= i < |cells| ==> CellWidth(cells[i].base) <= width
  }

  // ---------------------------------------------------------------- the rows of cells

  /** Wrapping distributes the cells over rows without losing, adding or reordering any. */
  lemma {:induction false} WrapKeepsCells(cells: seq<Cell>, width: nat, blank: bool)
    ensures Concat(Wrap(cells, width, blank)) == cells
    decreases |cells|
  {
    hide CellWidth;
    if cells != [] {
      WrapTop(cells, width, blank);
      var (top, k) := Top(cells, width, blank);
      var below := Wrap(cells[k..], width, Fit(cells, width) > 0);
      WrapKeepsCells(cells[k..], width, Fit(cells, width) > 0);
      ConcatAppend(top, below);
      assert Concat([cells[..k]]) == cells[..k];
      assert cells[..1] == [cells[0]];
      if |top| == 2 {
        assert top[1..] == [[cells[0]]];
      }
    }
  }

  lemma {:induction false} MemberWidth(cells: seq<Cell>, cell: Cell)
    requires cell in cells
    ensures Width(cells) >= CellWidth(cell.base)
  {
    if cells[|cells| - 1] != cell {
      MemberWidth(cells[..|cells| - 1], cell);
    }
  }

  lemma {:induction false} MemberRow(rows: seq<seq<Cell>>, cell: Cell)
    requires cell in Concat(rows)
    ensures exists row :: row in rows && cell in row
  {
    if cell in rows[0] {
      assert rows[0] in rows;
    } else {
      MemberRow(rows[1..], cell);
    }
  }

  lemma {:induction false} FittingRowsFit(cells: seq<Cell>, width: nat, blank: bool)
    requires Fitting(cells, width)
    ensures forall row :: row in Wrap(cells, width, blank) ==> row != [] && Width(row) <= width
    decreases |cells|
  {
    if cells != [] {
      var k := Fit(cells, width);
      assert k > 0;
      FitWidth(cells, width);
      FittingRowsFit(cells[k..], width, true);
    }
  }

  /** The rows respect the width exactly when no cell is wider than a row. */
  lemma RowsFitIff(cells: seq<Cell>, width: nat)
    ensures (forall row :: row in Rows(cells, width) ==> Width(row) <= width) <==> Fitting(cells, width)
  {
    if Fitting(cells, width) {
      FittingRowsFit(cells, width, true);
    } else {
      var i :| 0 <= i < |cells| && CellWidth(cells[i].base) > width;
      WrapKeepsCells(cells, width, true);
      MemberRow(Rows(cells, width), cells[i]);
      var row :| row in Rows(cells, width) && cells[i] in row;
      MemberWidth(row, cells[i]);
    }
  }

  /** Each row is as long as possible: the first cell of the next row would not have fitted. */
  ghost predicate Maximal(rows: seq<seq<Cell>>, width: nat) {
    |rows| > 1 ==>
      && rows[1] != []
      && Width(rows[0]) + CellWidth(rows[1][0].base) > width
      && Maximal(rows[1..], width)
  }

  lemma {:induction false} WrapIsMaximal(cells: seq<Cell>, width: nat, blank: bool)
    requires Fitting(cells, width)
    ensures Maximal(Wrap(cells, width, blank), width)
    decreases |cells|
  {
    if cells != [] {
      var k := Fit(cells, width);
      assert k > 0;
      FitWidth(cells, width);
      var below := Wrap(cells[k..], width, true);
      WrapIsMaximal(cells[k..], width, true);
      assert ([cells[..k]] + below)[1..] == below;
      if below != [] {
        assert below[0] == cells[k..][..Fit(cells[k..], width)];
      }
    }
  }

  /** A stretch of cells that fits cannot reach past the longest fitting one that starts inside it. */
  lemma FitsNoFurther(cells: seq<Cell>, i: nat, j: nat, end: nat, width: nat)
    requires i <= j <= end <= |cells| && Width(cells[i..end]) <= width
    ensures end <= j + Fit(cells[j..], width)
  {
    hide CellWidth, Width, Fit;
    var tail := cells[j..];
    var k := Fit(tail, width);
    FitWidth(tail, width);
    if end > j + k {
      var rest := cells[j + k + 1..end];
      assert cells[i..end] == cells[i..j] + ((tail[..k] + [tail[k]]) + rest);
      WidthConcat(cells[i..j], (tail[..k] + [tail[k]]) + rest);
      WidthConcat(tail[..k] + [tail[k]], rest);
      WidthConcat(tail[..k], [tail[k]]);
      WidthOne(tail[k]);
    }
  }

  /** A fitting partition of a tail that starts no later than another tail has at least as many rows. */
  lemma {:induction false} TailOptimal(
    cells: seq<Cell>, i: nat, j: nat, width: nat, blank: bool, other: seq<seq<Cell>>)
    requires i <= j <= |cells| && Fitting(cells, width)
    requires Concat(other) == cells[i..] && forall row :: row in other ==> Width(row) <= width
    ensures |Wrap(cells[j..], width, blank)| <= |other|
    decreases |other|
  {
    hide CellWidth, Width;
    assert |cells[i..]| == |cells| - i;
    if j < |cells| {
      var k := Fit(cells[j..], width);
      assert cells[j..][0] == cells[j] && k > 0;
      var first := other[0];
      assert first in other;
      var end := i + |first|;
      assert cells[i..][..|first|] == first && cells[i..][|first|..] == Concat(other[1..]);
      assert cells[i..end] == first;
      if j <= end {
        FitsNoFurther(cells, i, j, end, width);
      }
      assert cells[end..] == cells[i..][|first|..] && cells[j + k..] == cells[j..][k..];
      TailOptimal(cells, end, j + k, width, true, other[1..]);
    }
  }

  /** No other way to cut the cells into fitting rows needs fewer rows. */
  lemma WrapIsOptimal(cells: seq<Cell>, width: nat, other: seq<seq<Cell>>)
    requires Fitting(cells, width) && Concat(other) == cells
    requires other != [] && forall row :: row in other ==> Width(row) <= width
    ensures |Rows(cells, width)| <= |other|
  {
    assert cells[0..] == cells;
    TailOptimal(cells, 0, 0, width, true, other);
  }

  // ---------------------------------------------------------------- where rows are empty

  /** A row is empty only in front of a cell that is too wide, behind a row that is neither empty nor too wide. */
  ghost predicate EmptyAt(rows: seq<seq<Cell>>, width: nat, blank: bool, j: nat)
    requires j < |rows|
  {
    && j + 1 < |rows| && Width(rows[j + 1]) > width
    && if j == 0 then blank else rows[j - 1] != [] && Width(rows[j - 1]) <= width
  }

  /** A row that is too wide has an empty one in front, or another one that is too wide. */
  ghost predicate WideAt(rows: seq<seq<Cell>>, width: nat, blank: bool, j: nat)
    requires j < |rows|
  {
    if j == 0 then !blank else rows[j - 1] == [] || Width(rows[j - 1]) > width
  }

  /** Every too wide cell stands behind one empty row, unless it follows another such cell; no other row is empty. */
  ghost predicate EmptyAsNeeded(rows: seq<seq<Cell>>, width: nat, blank: bool) {
    && (forall j :: 0 <= j < |rows| && rows[j] == [] ==> EmptyAt(rows, width, blank, j))
    && (forall j :: 0 <= j < |rows| && Width(rows[j]) > width ==> WideAt(rows, width, blank, j))
  }

  lemma {:induction false} EmptyRows(cells: seq<Cell>, width: nat, blank: bool)
    ensures EmptyAsNeeded(Wrap(cells, width, blank), width, blank)
    decreases |cells|
  {
    hide CellWidth, EmptyAsNeeded;
    var k := Fit(cells, width);
    FitWidth(cells, width);
    if cells == [] {
      NoRows(width, blank);
    } else if k == 0 {
      EmptyRows(cells[1..], width, false);
      WideRow(cells[0], width, blank);
      EmptyBelow((if blank then [[]] else []) + [[cells[0]]], Wrap(cells[1..], width, false), width, blank, false);
    } else {
      EmptyRows(cells[k..], width, true);
      FullRow(cells[..k], width, blank);
      EmptyBelow([cells[..k]], Wrap(cells[k..], width, true), width, blank, true);
    }
  }

  lemma NoRows(width: nat, blank: bool)
    ensures EmptyAsNeeded([], width, blank)
  {
  }

  lemma WideRow(cell: Cell, width: nat, blank: bool)
    requires CellWidth(cell.base) > width
    ensures EmptyAsNeeded((if blank then [[]] else []) + [[cell]], width, blank)
    ensures Width([cell]) > width
  {
    WidthOne(cell);
    assert Width([]) == 0;
    hide Width, CellWidth;
  }

  lemma FullRow(row: seq<Cell>, width: nat, blank: bool)
    requires row != [] && Width(row) <= width
    ensures EmptyAsNeeded([row], width, blank)
  {
    hide Width;
  }

  lemma EmptyBelow(top: seq<seq<Cell>>, below: seq<seq<Cell>>, width: nat, blank: bool, inner: bool)
    requires EmptyAsNeeded(below, width, inner) && EmptyAsNeeded(top, width, blank)
    requires top != [] && top[|top| - 1] != [] && (inner <==> Width(top[|top| - 1]) <= width)
    ensures EmptyAsNeeded(top + below, width, blank)
  {
    hide Width;
    var rows := top + below;
    forall j | 0 <= j < |rows| && rows[j] == [] ensures EmptyAt(rows, width, blank, j) {
      if j < |top| {
        assert EmptyAt(top, width, blank, j);
      } else {
        assert EmptyAt(below, width, inner, j - |top|);
      }
    }
    forall j | 0 <= j < |rows| && Width(rows[j]) > width ensures WideAt(rows, width, blank, j) {
      if j < |top| {
        assert WideAt(top, width, blank, j);
      } else {
        assert WideAt(below, width, inner, j - |top|);
      }
    }
  }

  /** The widths at the edges of the ranges: none for controls and marks, two for wide characters, else one. */
  lemma CellWidthIff(c: char)
    ensures CellWidth(c) == 0 <==>
      || c < ' ' || '\U{7f}' <= c <= '\U{9f}'
      || '\U{300}' <= c <= '\U{36f}' || '\U{1ab0}' <= c <= '\U{1aff}' || '\U{1dc0}' <= c <= '\U{1dff}'
      || '\U{20d0}' <= c <= '\U{20ff}' || '\U{fe20}' <= c <= '\U{fe2f}'
    ensures CellWidth(c) == 2 <==>
      || '\U{1100}' <= c <= '\U{115f}' || '\U{2329}' <= c <= '\U{232a}' || '\U{2e80}' <= c <= '\U{a4cf}'
      || '\U{ac00}' <= c <= '\U{d7a3}' || '\U{f900}' <= c <= '\U{faff}' || '\U{fe10}' <= c <= '\U{fe19}'
      || '\U{fe30}' <= c <= '\U{fe6f}' || '\U{ff00}' <= c <= '\U{ff60}' || '\U{ffe0}' <= c <= '\U{ffe6}'
      || '\U{1f300}' <= c <= '\U{1faff}'
  {
  }

  // ---------------------------------------------------------------- from cells back to characters

  function CellGlyphs(cells: seq<Cell>): seq<Glyph> {
    if cells == [] then []
    else
      var n := |cells| - 1;
      CellGlyphs(cells[..n]) + SpanGlyphs(Span(CellText(cells[n]), cells[n].style, cells[n].background))
  }

  lemma SpanGlyphsAppend(span: Span, text: string)
    ensures SpanGlyphs(span.(text := span.text + text)) == SpanGlyphs(span) + SpanGlyphs(span.(text := text))
  {
  }

  lemma GlyphsSnoc(spans: seq<Span>, span: Span)
    ensures Glyphs(spans + [span]) == Glyphs(spans) + SpanGlyphs(span)
  {
    assert (spans + [span])[..|spans|] == spans;
  }

  lemma NoGlyphs()
    ensures Glyphs([]) == []
  {
  }

  lemma AddCellGlyphs(spans: seq<Span>, cell: Cell)
    ensures Glyphs(AddCell(spans, cell)) ==
            Glyphs(spans) + SpanGlyphs(Span(CellText(cell), cell.style, cell.background))
  {
    hide Glyphs, CellText, SpanGlyphs;
    var text := CellText(cell);
    var m := |spans| - 1;
    if spans != [] && SameLook(spans[m], cell) {
      SpanGlyphsAppend(spans[m], text);
      GlyphsSnoc(spans[..m], spans[m]);
      GlyphsSnoc(spans[..m], spans[m].(text := spans[m].text + text));
      assert spans[..m] + [spans[m]] == spans;
      assert spans[m].(text := text) == Span(text, cell.style, cell.background);
    } else {
      GlyphsSnoc(spans, Span(text, cell.style, cell.background));
    }
  }

  /** Joining cells into spans changes no character and no look. */
  lemma {:induction false} GlyphsOfSpans(cells: seq<Cell>)
    ensures Glyphs(Spans(cells)) == CellGlyphs(cells)
  {
    hide AddCell, SpanGlyphs, Glyphs;
    NoGlyphs();
    if cells != [] {
      var n := |cells| - 1;
      GlyphsOfSpans(cells[..n]);
      AddCellGlyphs(Spans(cells[..n]), cells[n]);
    }
  }

  lemma {:induction false} CellsOfMarks(glyphs: seq<Glyph>, cell: Cell, text: seq<Glyph>, k: nat)
    requires k <= |cell.marks| && WellFormed([cell])
    requires text == SpanGlyphs(Span(CellText(cell), cell.style, cell.background))
    ensures |text| == |cell.marks| + 1
    ensures Cells(glyphs + text[..k + 1]) == Cells(glyphs) + [cell.(marks := cell.marks[..k])]
  {
    hide CellWidth, Cells;
    assert [cell][0] == cell;
    assert glyphs + text[..k + 1] == glyphs + text[..k] + [text[k]];
    CellsSnoc(glyphs + text[..k], text[k]);
    if k == 0 {
      assert glyphs + text[..0] == glyphs;
      assert cell.marks[..0] == "";
    } else {
      CellsOfMarks(glyphs, cell, text, k - 1);
      var last := cell.(marks := cell.marks[..k - 1]);
      assert (Cells(glyphs) + [last])[..|Cells(glyphs)|] == Cells(glyphs);
      assert cell.marks[..k] == cell.marks[..k - 1] + [cell.marks[k - 1]];
    }
  }

  /** Reading the characters of a row again gives the row's cells. */
  lemma {:induction false} CellsOfGlyphs(cells: seq<Cell>)
    requires WellFormed(cells)
    ensures Cells(CellGlyphs(cells)) == cells
  {
    hide CellWidth, Cells, CellText;
    if cells == [] {
      NoCells();
    } else {
      var n := |cells| - 1;
      var cell := cells[n];
      PartWellFormed(cells, n);
      CellsOfGlyphs(cells[..n]);
      assert [cell] == cells[n..];
      var text := SpanGlyphs(Span(CellText(cell), cell.style, cell.background));
      CellsOfMarks(CellGlyphs(cells[..n]), cell, text, |cell.marks|);
      assert text[..|text|] == text && cell.marks[..|cell.marks|] == cell.marks;
      assert cell.(marks := cell.marks) == cell;
      assert cells[..n] + [cell] == cells;
    }
  }

  lemma NoCells()
    ensures Cells([]) == []
  {
  }

  // ---------------------------------------------------------------- spans

  /** Spans hold text, and neighbours differ in style or background. */
  ghost predicate Coalesced(spans: seq<Span>) {
    && (forall i :: 0 <= i < |spans| ==> spans[i].text != "")
    && forall i, j :: 0 <= i && j == i + 1 && j < |spans| ==>
         spans[i].style != spans[j].style || spans[i].background != spans[j].background
  }

  lemma {:induction false} SpansCoalesced(cells: seq<Cell>)
    ensures Coalesced(Spans(cells))
  {
    if cells != [] {
      SpansCoalesced(cells[..|cells| - 1]);
    }
  }

  predicate SameStyle(a: Glyph, b: Glyph) {
    a.style == b.style && a.background == b.background
  }

  /** A cut of some characters: the part after it has one look, the character before it has another. */
  ghost predicate LooksCut(front: seq<Glyph>, back: seq<Glyph>) {
    && back != []
    && (forall i :: 0 <= i < |back| ==> SameStyle(back[i], back[|back| - 1]))
    && (front != [] ==> !SameStyle(front[|front| - 1], back[|back| - 1]))
  }

  lemma CutAsWhole(front: seq<Glyph>, back: seq<Glyph>, all: seq<Glyph>)
    requires LooksCut(front, back) && all == front + back
    ensures |front| < |all| && all[..|front|] == front && all[|front|..] == back
    ensures forall i :: |front| <= i < |all| ==> SameStyle(all[i], all[|all| - 1])
    ensures front != [] ==> !SameStyle(all[|front| - 1], all[|all| - 1])
  {
    forall i | |front| <= i < |all| ensures SameStyle(all[i], all[|all| - 1]) {
      assert all[i] == back[i - |front|];
    }
  }

  lemma CutUnique(f: seq<Glyph>, p: seq<Glyph>, g: seq<Glyph>, q: seq<Glyph>)
    requires f + p == g + q && LooksCut(f, p) && LooksCut(g, q)
    ensures f == g && p == q
  {
    CutAsWhole(f, p, f + p);
    CutAsWhole(g, q, f + p);
  }

  lemma LastCut(spans: seq<Span>)
    requires Coalesced(spans) && spans != []
    ensures
      var m := |spans| - 1;
      && Glyphs(spans) == Glyphs(spans[..m]) + SpanGlyphs(spans[m])
      && LooksCut(Glyphs(spans[..m]), SpanGlyphs(spans[m]))
  {
    var m := |spans| - 1;
    if m > 0 {
      var front := spans[..m];
      assert front[m - 1] == spans[m - 1] && spans[m - 1].text != "";
      assert Glyphs(front) == Glyphs(front[..m - 1]) + SpanGlyphs(front[m - 1]);
    }
  }

  lemma SameGlyphsSameSpan(p: Span, q: Span)
    requires SpanGlyphs(p) == SpanGlyphs(q) && p.text != ""
    ensures p == q
  {
    forall i | 0 <= i < |p.text| ensures p.text[i] == q.text[i] {
      assert SpanGlyphs(p)[i] == SpanGlyphs(q)[i];
    }
    assert p.text == q.text;
    assert SpanGlyphs(p)[0] == SpanGlyphs(q)[0];
  }

  /** Coalesced spans are determined by their characters, so a row has only one rendering. */
  lemma {:induction false} CoalescedUnique(s: seq<Span>, t: seq<Span>)
    requires Coalesced(s) && Coalesced(t) && Glyphs(s) == Glyphs(t)
    ensures s == t
    decreases |s|
  {
    hide Glyphs, SpanGlyphs;
    if s == [] {
      NoGlyphsNoSpans(t);
    } else if t == [] {
      NoGlyphsNoSpans(s);
    } else {
      var n, m := |s| - 1, |t| - 1;
      LastCut(s);
      LastCut(t);
      CutUnique(Glyphs(s[..n]), SpanGlyphs(s[n]), Glyphs(t[..m]), SpanGlyphs(t[m]));
      SameGlyphsSameSpan(s[n], t[m]);
      CoalescedUnique(s[..n], t[..m]);
      assert s == s[..n] + [s[n]] && t == t[..m] + [t[m]];
    }
  }

  lemma NoGlyphsNoSpans(spans: seq<Span>)
    requires Coalesced(spans)
    ensures Glyphs([]) == [] && (Glyphs(spans) == [] ==> spans == [])
  {
    if spans != [] {
      LastCut(spans);
    }
  }

  // ---------------------------------------------------------------- about the produced lines

  /** Cells taken by a produced line on the terminal. */
  function GlyphsWidth(glyphs: seq<Glyph>): nat {
    if glyphs == [] then 0 else GlyphsWidth(glyphs[..|glyphs| - 1]) + CellWidth(glyphs[|glyphs| - 1].c)
  }

  /** The width of a text is the width of its cells, if it starts with one. */
  lemma {:induction false} WidthOfCells(glyphs: seq<Glyph>)
    ensures Width(Cells(glyphs)) == GlyphsWidth(glyphs)
  {
    hide CellWidth;
    if glyphs != [] {
      var n := |glyphs| - 1;
      WidthOfCells(glyphs[..n]);
      var before := Cells(glyphs[..n]);
      if CellWidth(glyphs[n].c) > 0 {
        WidthConcat(before, [Cell(glyphs[n].c, glyphs[n].style, glyphs[n].background, "")]);
        WidthOne(Cell(glyphs[n].c, glyphs[n].style, glyphs[n].background, ""));
      } else if before != [] {
        WidthMarked(before, 0, glyphs[n].c);
      }
    }
  }

  lemma ShownWellFormed(row: seq<Cell>, width: nat)
    requires WellFormed(row)
    ensures WellFormed(Shown(row, width)) && Width(Shown(row, width)) == Width(row)
    ensures |Shown(row, width)| == |row|
    ensures forall i :: 0 <= i < |row| ==> Shown(row, width)[i].(marks := "") == row[i].(marks := "")
  {
    hide CellWidth;
    if row != [] && Width(row) == width {
      var n := |row| - 1;
      assert Shown(row, width)[..n] == row[..n];
    }
  }

  /** The characters, cells and width of one produced line. */
  lemma RenderedRow(row: seq<Cell>, width: nat)
    requires WellFormed(row)
    ensures
      var line := Render(row, width);
      && Coalesced(line.spans)
      && Glyphs(line.spans) == CellGlyphs(Shown(row, width))
      && Cells(Glyphs(line.spans)) == Shown(row, width)
      && GlyphsWidth(Glyphs(line.spans)) == Width(row)
  {
    ShownWellFormed(row, width);
    SpansCoalesced(Shown(row, width));
    GlyphsOfSpans(Shown(row, width));
    CellsOfGlyphs(Shown(row, width));
    WidthOfCells(Glyphs(Render(row, width).spans));
  }

  lemma {:induction false} RowsWellFormed(rows: seq<seq<Cell>>, row: seq<Cell>)
    requires WellFormed(Concat(rows)) && row in rows
    ensures WellFormed(row)
  {
    var all := Concat(rows);
    assert all[..|rows[0]|] == rows[0] && all[|rows[0]|..] == Concat(rows[1..]);
    PartWellFormed(all, |rows[0]|);
    if rows[0] != row {
      RowsWellFormed(rows[1..], row);
    }
  }

  /** Each produced line comes from one row of the cells of the input. */
  lemma LineOfRow(line: Line, width: nat, i: nat)
    requires i < |Split(line, width)|
    ensures
      var rows := Rows(Cells(Glyphs(line.spans)), width);
      && |rows| == |Split(line, width)|
      && WellFormed(rows[i]) && Split(line, width)[i] == Render(rows[i], width)
  {
    var cells := Cells(Glyphs(line.spans));
    CellsWellFormed(Glyphs(line.spans));
    WrapKeepsCells(cells, width, true);
    if cells != [] {
      RowsWellFormed(Rows(cells, width), Rows(cells, width)[i]);
    }
  }

  /** The produced lines fit the width exactly when no single character is wider than it. */
  lemma SplitFitsIff(line: Line, width: nat)
    requires width >= 1
    ensures (forall i :: 0 <= i < |Split(line, width)| ==> GlyphsWidth(Glyphs(Split(line, width)[i].spans)) <= width)
            <==> width >= 2 || forall g :: g in Glyphs(line.spans) ==> CellWidth(g.c) < 2
  {
    var cells := Cells(Glyphs(line.spans));
    var rows := Rows(cells, width);
    var out := Split(line, width);
    forall i | 0 <= i < |out| ensures GlyphsWidth(Glyphs(out[i].spans)) == Width(rows[i]) {
      LineOfRow(line, width, i);
      RenderedRow(rows[i], width);
    }
    RowsFitIff(cells, width);
    assert (forall i :: 0 <= i < |rows| ==> Width(rows[i]) <= width) <==> Fitting(cells, width);
    WideCells(Glyphs(line.spans));
  }

  lemma {:induction false} WideCells(glyphs: seq<Glyph>)
    ensures Fitting(Cells(glyphs), 1) <==> forall g :: g in glyphs ==> CellWidth(g.c) < 2
  {
    hide CellWidth;
    if glyphs != [] {
      var n := |glyphs| - 1;
      WideCells(glyphs[..n]);
      var before := Cells(glyphs[..n]);
      assert glyphs == glyphs[..n] + [glyphs[n]];
      if CellWidth(glyphs[n].c) > 0 {
        var last := Cell(glyphs[n].c, glyphs[n].style, glyphs[n].background, "");
        FittingSnoc(before, last, 1);
      } else if before != [] {
        FittingMarked(before, glyphs[n].c, 1);
      }
    }
  }

  lemma FittingSnoc(cells: seq<Cell>, last: Cell, width: nat)
    ensures Fitting(cells + [last], width) <==> Fitting(cells, width) && CellWidth(last.base) <= width
  {
    hide CellWidth;
    var more := cells + [last];
    assert more[|cells|] == last;
    assert forall i :: 0 <= i < |cells| ==> more[i] == cells[i];
  }

  lemma FittingMarked(cells: seq<Cell>, c: char, width: nat)
    requires cells != []
    ensures Fitting(Marked(cells, c), width) <==> Fitting(cells, width)
  {
    hide CellWidth;
    var marked := Marked(cells, c);
    assert forall i :: 0 <= i < |cells| ==> marked[i].base == cells[i].base;
  }

  lemma SplitOneRow(line: Line, width: nat, cells: seq<Cell>)
    requires Cells(Glyphs(line.spans)) == cells != [] && Width(cells) <= width
    ensures Split(line, width) == [Render(cells, width)]
  {
    FitsWhole(cells, width);
    RenderOneMore([], cells, width);
    assert [] + [cells] == Rows(cells, width);
  }

  /** Splitting a produced line again returns it alone, exactly when it fits. */
  lemma ResplitIff(line: Line, width: nat, i: nat)
    requires width >= 1 && i < |Split(line, width)|
    ensures
      var produced := Split(line, width)[i];
      Split(produced, width) == [produced] <==> GlyphsWidth(Glyphs(produced.spans)) <= width
  {
    var row := Rows(Cells(Glyphs(line.spans)), width)[i];
    LineOfRow(line, width, i);
    RenderedRow(row, width);
    ShownWellFormed(row, width);
    var shown := Shown(row, width);
    FitWidth(shown, width);
    var k := Fit(shown, width);
    if shown == [] {
      RenderOneMore([], [], width);
      assert [] + [[]] == Rows(shown, width);
    } else if Width(row) <= width {
      SplitOneRow(Render(row, width), width, shown);
      ShownTwice(row, width);
    } else {
      TooWideSplits(shown, width);
    }
  }

  lemma ShownTwice(row: seq<Cell>, width: nat)
    ensures Shown(Shown(row, width), width) == Shown(row, width)
  {
    if row != [] && Width(row) == width {
      var n := |row| - 1;
      assert Shown(row, width)[..n] == row[..n];
    }
  }

  lemma FitsWhole(cells: seq<Cell>, width: nat)
    requires cells != [] && Width(cells) <= width
    ensures Wrap(cells, width, true) == [cells]
  {
    assert cells[0..|cells|] == cells;
    FitsNoFurther(cells, 0, 0, |cells|, width);
    assert cells[0..] == cells && cells[..|cells|] == cells && cells[|cells|..] == [];
  }

  lemma TooWideSplits(cells: seq<Cell>, width: nat)
    requires Width(cells) > width
    ensures |Wrap(cells, width, true)| >= 2
  {
    FitWidth(cells, width);
    var k := Fit(cells, width);
    assert cells[..|cells|] == cells;
  }

  // ---------------------------------------------------------------- content

  /** The characters that take room. */
  function Solid(glyphs: seq<Glyph>): seq<Glyph> {
    if glyphs == [] then []
    else
      var n := |glyphs| - 1;
      Solid(glyphs[..n]) + (if CellWidth(glyphs[n].c) > 0 then [glyphs[n]] else [])
  }

  function Bases(cells: seq<Cell>): seq<Glyph> {
    seq(|cells|, i requires 0 <= i < |cells| => Glyph(cells[i].base, cells[i].style, cells[i].background))
  }

  lemma {:induction false} SolidIsBases(glyphs: seq<Glyph>)
    ensures Solid(glyphs) == Bases(Cells(glyphs))
  {
    hide CellWidth, Bases;
    BasesSnoc([], Cell('a', "", None, ""));
    if glyphs != [] {
      var n := |glyphs| - 1;
      var before := Cells(glyphs[..n]);
      SolidIsBases(glyphs[..n]);
      BasesSnoc(before, Cell(glyphs[n].c, glyphs[n].style, glyphs[n].background, ""));
      BasesMarked(before, glyphs[n].c);
    }
  }

  lemma BasesSnoc(cells: seq<Cell>, last: Cell)
    ensures Bases(cells + [last]) == Bases(cells) + [Glyph(last.base, last.style, last.background)]
    ensures Bases([]) == []
  {
  }

  lemma BasesMarked(cells: seq<Cell>, c: char)
    ensures cells != [] ==> Bases(Marked(cells, c)) == Bases(cells)
  {
  }

  lemma {:induction false} BasesOfConcat(rows: seq<seq<Cell>>)
    ensures Bases(Concat(rows)) == Concat(seq(|rows|, i requires 0 <= i < |rows| => Bases(rows[i])))
  {
    var each := seq(|rows|, i requires 0 <= i < |rows| => Bases(rows[i]));
    if rows != [] {
      BasesOfConcat(rows[1..]);
      assert each[1..] == seq(|rows| - 1, i requires 0 <= i < |rows| - 1 => Bases(rows[1..][i]));
      assert Bases(rows[0] + Concat(rows[1..])) == Bases(rows[0]) + Bases(Concat(rows[1..]));
    }
  }

  /** Every character that takes room survives, in order, with its own style and background. */
  lemma SplitKeepsContent(line: Line, width: nat)
    requires width >= 1
    ensures
      var out := Split(line, width);
      Concat(seq(|out|, i requires 0 <= i < |out| => Solid(Glyphs(out[i].spans)))) == Solid(Glyphs(line.spans))
  {
    var out := Split(line, width);
    var cells := Cells(Glyphs(line.spans));
    var rows := Rows(cells, width);
    forall i | 0 <= i < |out| ensures Solid(Glyphs(out[i].spans)) == Bases(rows[i]) {
      LineOfRow(line, width, i);
      RenderedRow(rows[i], width);
      SolidIsBases(Glyphs(out[i].spans));
      SameBases(rows[i], width);
    }
    assert seq(|out|, i requires 0 <= i < |out| => Solid(Glyphs(out[i].spans)))
        == seq(|rows|, i requires 0 <= i < |rows| => Bases(rows[i]));
    WrapKeepsCells(cells, width, true);
    BasesOfConcat(rows);
    SolidIsBases(Glyphs(line.spans));
  }

  lemma SameBases(row: seq<Cell>, width: nat)
    requires WellFormed(row)
    ensures Bases(Shown(row, width)) == Bases(row)
  {
    ShownWellFormed(row, width);
    forall i | 0 <= i < |row| ensures Bases(Shown(row, width))[i] == Bases(row)[i] {
      assert Shown(row, width)[i].(marks := "") == row[i].(marks := "");
    }
  }

  // ---------------------------------------------------------------- zero-width characters

  function Length(cells: seq<Cell>): nat {
    if cells == [] then 0 else Length(cells[..|cells| - 1]) + 1 + |cells[|cells| - 1].marks|
  }

  lemma {:induction false} LengthConcat(a: seq<Cell>, b: seq<Cell>)
    ensures Length(a + b) == Length(a) + Length(b)
  {
    if b == [] {
      assert a + b == a;
    } else {
      var n := |b| - 1;
      LengthConcat(a, b[..n]);
      assert (a + b)[..|a| + n] == a + b[..n];
    }
  }

  lemma LengthOne(cell: Cell)
    ensures Length([cell]) == 1 + |cell.marks|
  {
    assert [cell][..0] == [];
  }

  lemma {:induction false} CellGlyphsLength(cells: seq<Cell>)
    ensures |CellGlyphs(cells)| == Length(cells)
  {
    if cells != [] {
      CellGlyphsLength(cells[..|cells| - 1]);
    }
  }

  /** The zero-width characters before the first cell. */
  function Leading(glyphs: seq<Glyph>): nat {
    if glyphs == [] || CellWidth(glyphs[0].c) > 0 then 0 else 1 + Leading(glyphs[1..])
  }

  lemma LeadingSnoc(glyphs: seq<Glyph>, g: Glyph)
    ensures Leading(glyphs) <= |glyphs|
    ensures Leading(glyphs + [g]) ==
            Leading(glyphs) + if Leading(glyphs) == |glyphs| && CellWidth(g.c) == 0 then 1 else 0
  {
    hide CellWidth;
    if glyphs == [] {
      assert (glyphs + [g])[1..] == [];
    } else {
      assert (glyphs + [g])[1..] == glyphs[1..] + [g];
      LeadingSnoc(glyphs[1..], g);
    }
  }

  lemma {:induction false} CellsLength(glyphs: seq<Glyph>)
    ensures |glyphs| == Leading(glyphs) + Length(Cells(glyphs))
    ensures Cells(glyphs) == [] <==> Leading(glyphs) == |glyphs|
  {
    hide CellWidth;
    if glyphs != [] {
      var n := |glyphs| - 1;
      var g := glyphs[n];
      var before := Cells(glyphs[..n]);
      CellsLength(glyphs[..n]);
      LeadingSnoc(glyphs[..n], g);
      assert glyphs == glyphs[..n] + [g];
      if CellWidth(g.c) > 0 {
        LengthConcat(before, [Cell(g.c, g.style, g.background, "")]);
        LengthOne(Cell(g.c, g.style, g.background, ""));
      } else if before != [] {
        MarkedLength(before, g.c);
      }
    }
  }

  lemma MarkedLength(cells: seq<Cell>, c: char)
    requires cells != []
    ensures Length(Marked(cells, c)) == Length(cells) + 1
  {
    assert Marked(cells, c)[..|cells| - 1] == cells[..|cells| - 1];
  }

  /** The zero-width characters that follow a cell which fills its row. */
  function Lost(row: seq<Cell>, width: nat): nat {
    if row != [] && Width(row) == width then |row[|row| - 1].marks| else 0
  }

  lemma ShownLength(row: seq<Cell>, width: nat)
    ensures Length(Shown(row, width)) + Lost(row, width) == Length(row)
  {
    if row != [] && Width(row) == width {
      var n := |row| - 1;
      assert Shown(row, width)[..n] == row[..n];
    }
  }

  function Characters(lines: seq<Line>): nat {
    if lines == [] then 0 else |Glyphs(lines[0].spans)| + Characters(lines[1..])
  }

  lemma {:induction false} RowsLength(rows: seq<seq<Cell>>, lines: seq<Line>, width: nat)
    requires |lines| == |rows| && forall i :: 0 <= i < |rows| ==> lines[i] == Render(rows[i], width)
    ensures Characters(lines) <= Length(Concat(rows))
    ensures Characters(lines) == Length(Concat(rows)) <==> forall row :: row in rows ==> Lost(row, width) == 0
  {
    if rows != [] {
      RowsLength(rows[1..], lines[1..], width);
      LengthConcat(rows[0], Concat(rows[1..]));
      ShownLength(rows[0], width);
      GlyphsOfSpans(Shown(rows[0], width));
      CellGlyphsLength(Shown(rows[0], width));
      assert forall row :: row in rows <==> row == rows[0] || row in rows[1..];
    }
  }

  /**
   * No character at all is dropped exactly when the line does not start with a zero-width character
   * and no zero-width character follows a cell that fills its row.
   */
  lemma SplitKeepsEveryCharacterIff(line: Line, width: nat)
    requires width >= 1
    ensures
      var glyphs := Glyphs(line.spans);
      Characters(Split(line, width)) == |glyphs| <==>
      && (glyphs != [] ==> CellWidth(glyphs[0].c) > 0)
      && forall row :: row in Rows(Cells(glyphs), width) ==> Lost(row, width) == 0
  {
    hide CellWidth, Rows;
    var glyphs := Glyphs(line.spans);
    var rows := Rows(Cells(glyphs), width);
    RowsKeepCells(Cells(glyphs), width);
    RowsLength(rows, Split(line, width), width);
    CellsLength(glyphs);
  }

  lemma RowsKeepCells(cells: seq<Cell>, width: nat)
    ensures Concat(Rows(cells, width)) == cells
  {
    WrapKeepsCells(cells, width, true);
  }

  /** An accent on the last column is lost: its letter fills the row before the accent arrives. */
  lemma AccentAtTheEdgeIsLost(letter: char, accent: char, style: string)
    requires CellWidth(letter) > 0 && CellWidth(accent) == 0
    ensures
      Split(Line([Span([letter, accent], style, None)]), CellWidth(letter)) == [Line([Span([letter], style, None)])]
  {
    hide *;
    var e, mark := Glyph(letter, style, None), Glyph(accent, style, None);
    TwoGlyphs(letter, accent, style);
    AccentedCell(e, mark);
    RowOfLetter(letter, accent, style);
    SplitOneRow(
      Line([Span([letter, accent], style, None)]), CellWidth(letter), [Cell(letter, style, None, [accent])]);
  }

  lemma TwoGlyphs(letter: char, accent: char, style: string)
    ensures Glyphs([Span([letter, accent], style, None)]) == [Glyph(letter, style, None)] + [Glyph(accent, style, None)]
  {
    GlyphsSnoc([], Span([letter, accent], style, None));
    assert [] + [Span([letter, accent], style, None)] == [Span([letter, accent], style, None)];
  }

  lemma RowOfLetter(letter: char, accent: char, style: string)
    ensures Width([Cell(letter, style, None, [accent])]) == CellWidth(letter)
    ensures Render([Cell(letter, style, None, [accent])], CellWidth(letter)) == Line([Span([letter], style, None)])
  {
    hide CellWidth;
    var cell := Cell(letter, style, None, [accent]);
    WidthOne(cell);
    SpansSnoc([], cell.(marks := ""));
    assert [] + [cell.(marks := "")] == Shown([cell], CellWidth(letter));
    assert [letter] + "" == [letter];
  }

  lemma AccentedCell(e: Glyph, mark: Glyph)
    requires CellWidth(e.c) > 0 && CellWidth(mark.c) == 0
    ensures Cells([e] + [mark]) == [Cell(e.c, e.style, e.background, [mark.c])]
  {
    hide CellWidth;
    CellsSnoc([], e);
    CellsSnoc([e], mark);
    assert [] + [e] == [e];
    NoCells();
    var cell := Cell(e.c, e.style, e.background, "");
    assert [] + [cell] == [cell];
    assert [cell][..0] == [] && "" + [mark.c] == [mark.c];
  }
}
