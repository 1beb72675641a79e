/** What each operation of the display buffer does, told by the rows, elements and numbers it was given. */
module BufferResults {
  import opened JsIntegers
  import opened Wrappers
  import opened LineWrap
  import opened RowNumbers
  import opened DisplayBuffer
  import opened BufferRuns

  // ---------------------------------------------------------------- the top row

  /** The top rows at or behind the last top are those from which the window reaches behind the last row. */
  lemma LastTopIff(rows: seq<Row>, height: int, top: int)
    requires rows != []
    ensures top >= MaxTop(rows, height) <==>
      top >= rows[0].absoluteRow && top + height > rows[|rows| - 1].absoluteRow
  {
  }

  /** A row that was asked for is taken if the window may begin there, else the nearest row where it may. */
  ghost predicate TopFor(rows: seq<Row>, height: int, asked: int, top: int) {
    var first, last := if rows == [] then 0 else rows[0].absoluteRow, MaxTop(rows, height);
    && (first <= asked <= last ==> top == asked)
    && (asked < first ==> top == first)
    && (asked > last ==> top == last)
  }

  /**
   * Scrolling goes to the row that was asked for, and follows the tail exactly when that was asked for and
   * the window is at the end. The rows and the layout stay as they are.
   */
  lemma ScrollTakesRow(s: Snapshot, v: Viewport)
    requires Inv(s)
    ensures Scrolled(s, v).Success? <==> 0 <= v.topRow <= MAX_SAFE_INTEGER && 0 <= v.height <= MAX_SAFE_INTEGER
    ensures Scrolled(s, v).Failure? ==> Scrolled(s, v).error == InvalidViewport
    ensures Scrolled(s, v).Success? ==>
      var t := Scrolled(s, v).value;
      && TopFor(s.Rows(), v.height, v.topRow, t.viewport.topRow)
      && t.viewport.height == v.height
      && (t.viewport.followTail <==> v.followTail && t.viewport.topRow == MaxTop(s.Rows(), v.height))
      && t.committed == s.committed && t.live == s.live && t.width == s.width && t.paddingX == s.paddingX
      && t.revision == s.revision + 1
  {
  }

  /**
   * A reflow keeps the height and whether the tail is followed; while it is, the window is at the end, and
   * otherwise it stays at its row as far as the new rows allow.
   */
  lemma ReflowKeepsTop(s: Snapshot, elements: seq<Element>, width: int, paddingX: int)
    requires Inv(s) && Reflowed(s, elements, width, paddingX).Success?
    ensures
      var t := Reflowed(s, elements, width, paddingX).value;
      && t.viewport.height == s.viewport.height && t.viewport.followTail == s.viewport.followTail
      && (s.viewport.followTail ==> t.viewport.topRow == MaxTop(t.Rows(), s.viewport.height))
      && (!s.viewport.followTail ==> TopFor(t.Rows(), s.viewport.height, s.viewport.topRow, t.viewport.topRow))
      && t.width == width && t.paddingX == paddingX && t.revision == s.revision + 1
  {
    ReflowShows(s, elements, width, paddingX);
    hide NumberedRows, CommittedKept, LiveLast, Retained, FirstLive;
  }

  /** A reset drops all rows, goes to the top and follows the tail; layout and height stay. */
  lemma ResetShowsNothing(s: Snapshot)
    ensures
      var t := Cleared(s);
      && t.Rows() == [] && t.revision == s.revision + 1 && t.width == s.width && t.paddingX == s.paddingX
      && t.viewport == Viewport(0, s.viewport.height, true)
  {
  }

  // ---------------------------------------------------------------- the rows

  /** A reflow shows the last 1000 of all numbered rows, or all if there are fewer, cut at the first live one. */
  lemma ReflowShows(s: Snapshot, elements: seq<Element>, width: int, paddingX: int)
    requires Reflowed(s, elements, width, paddingX).Success?
    ensures
      var rows := NumberedRows(s, elements, width, paddingX);
      var t := Reflowed(s, elements, width, paddingX).value;
      && t.Rows() == Retained(rows)
      && (forall i :: 0 <= i < |t.committed| ==> t.committed[i].lifecycle == Stable)
      && (t.live != [] ==> t.live[0].lifecycle == Live)
  {
    hide NumberedRows, CommittedKept, LiveLast, Retained, FirstLive, First, MaxTop;
    CutAtLive(Retained(NumberedRows(s, elements, width, paddingX)));
  }

  lemma CutAtLive(kept: seq<Row>)
    ensures
      var split := FirstLive(kept);
      && kept[..split] + kept[split..] == kept
      && (forall i :: 0 <= i < |kept[..split]| ==> kept[..split][i].lifecycle == Stable)
      && (kept[split..] != [] ==> kept[split..][0].lifecycle == Live)
  {
    var split := FirstLive(kept);
    hide FirstLive;
  }

  /** What is retained are the last rows, 1000 of them or all. */
  lemma RetainedIff(rows: seq<Row>, kept: seq<Row>)
    ensures kept == Retained(rows) <==>
      |kept| == Min(|rows|, 1000) && exists dropped :: rows == dropped + kept
  {
    if |kept| == Min(|rows|, 1000) && exists dropped :: rows == dropped + kept {
      var dropped :| rows == dropped + kept;
      assert kept == rows[|dropped|..];
    }
    if kept == Retained(rows) {
      assert rows == rows[..|rows| - |kept|] + kept;
    }
  }

  /** The lines of several lines are those of the first ones, in front of those of the others. */
  lemma {:induction false} SplitAllAppend(a: seq<Line>, b: seq<Line>, width: nat)
    ensures SplitAll(a + b, width) == SplitAll(a, width) + SplitAll(b, width)
  {
    hide Split;
    if b == [] {
      assert a + b == a;
    } else {
      var n := |b| - 1;
      assert (a + b)[..|a| + n] == a + b[..n];
      SplitAllAppend(a, b[..n], width);
    }
  }

  lemma SplitAllOne(line: Line, width: nat)
    ensures SplitAll([line], width) == Split(line, width)
  {
    hide Split;
    assert [line][..0] == [];
  }

  /** The rows with their numbers moved on. */
  function Below(rows: seq<Row>, start: nat): seq<Row> {
    seq(|rows|, i requires 0 <= i < |rows| => rows[i].(absoluteRow := rows[i].absoluteRow + start))
  }

  /** The rows of later elements stand below those of earlier ones. */
  lemma {:induction false} ElementsStack(a: seq<Element>, b: seq<Element>, width: nat)
    ensures RowsOf(a + b, width) == RowsOf(a, width) + Below(RowsOf(b, width), |RowsOf(a, width)|)
  {
    hide SplitAll;
    if b == [] {
      assert a + b == a;
    } else {
      var n := |b| - 1;
      assert (a + b)[..|a| + n] == a + b[..n];
      ElementsStack(a, b[..n], width);
    }
  }

  /** The rows of one element are its wrapped lines in order, counted from zero. */
  lemma OneElement(e: Element, width: nat)
    ensures
      var rows, lines := RowsOf([e], width), SplitAll(e.lines, width);
      && |rows| == |lines|
      && forall i :: 0 <= i < |rows| ==> rows[i] == Row(i, e.elementId, e.sourceId, i, e.lifecycle, lines[i])
  {
    hide SplitAll;
    assert [e][..0] == [];
  }

  // ---------------------------------------------------------------- numbers

  /** No later row has the same key. */
  ghost predicate LastOfKey(rows: seq<Row>, key: RowKey, j: nat) {
    && j < |rows| && KeyOf(rows[j]) == key
    && forall k :: j < k < |rows| ==> KeyOf(rows[k]) != key
  }

  lemma {:induction false} NumberOfKey(rows: seq<Row>, key: RowKey, j: nat)
    requires LastOfKey(rows, key, j)
    ensures j < |rows| && key in NumberByKey(rows) && NumberByKey(rows)[key] == rows[j].absoluteRow
  {
    var n := |rows| - 1;
    if j < n {
      NumberOfKey(rows[..n], key, j);
    }
  }

  /** The row is this one, with whatever number. */
  ghost predicate SameBut(row: Row, raw: Row) {
    && row.elementId == raw.elementId && row.sourceId == raw.sourceId && row.lineIndex == raw.lineIndex
    && row.lifecycle == raw.lifecycle && row.line == raw.line
  }

  /**
   * A reflow changes nothing but numbers in the rows of the elements. At a new layout rows are numbered
   * from zero; at the same one each row that was there, by its ids and its place, has its number.
   */
  lemma RowsKeepNumbers(s: Snapshot, elements: seq<Element>, width: int, paddingX: int)
    requires width - paddingX * 2 >= 1
    ensures
      var raw, rows := RowsOf(elements, width - paddingX * 2), NumberedRows(s, elements, width, paddingX);
      && |rows| == |raw|
      && (forall i :: 0 <= i < |rows| ==> SameBut(rows[i], raw[i]))
      && (s.width != width || s.paddingX != paddingX ==>
            forall i :: 0 <= i < |rows| ==> rows[i].absoluteRow == i)
      && (s.width == width && s.paddingX == paddingX ==>
            forall i :: 0 <= i < |rows| ==> KeepsNumber(s.Rows(), rows[i]))
  {
    hide *;
    var raw := RowsOf(elements, width - paddingX * 2);
    NumberedByLayout(s, elements, width, paddingX);
    if s.width == width && s.paddingX == paddingX {
      PreservedKeeps(raw, s.Rows());
    } else {
      RowsNumbered(elements, width - paddingX * 2);
      SameButSelf(raw);
    }
  }

  lemma SameButSelf(rows: seq<Row>)
    ensures forall i :: 0 <= i < |rows| ==> SameBut(rows[i], rows[i])
  {
  }

  lemma NumberedByLayout(s: Snapshot, elements: seq<Element>, width: int, paddingX: int)
    requires width - paddingX * 2 >= 1
    ensures
      var raw := RowsOf(elements, width - paddingX * 2);
      NumberedRows(s, elements, width, paddingX) ==
      if s.width == width && s.paddingX == paddingX then Preserved(raw, s.Rows()) else raw
  {
    hide RowsOf, Preserved;
  }

  /** If a row with these ids and this place was there, the last such row had the same number. */
  ghost predicate KeepsNumber(previous: seq<Row>, row: Row) {
    forall j: nat :: LastOfKey(previous, KeyOf(row), j) ==> previous[j].absoluteRow == row.absoluteRow
  }

  lemma PreservedKeeps(raw: seq<Row>, previous: seq<Row>)
    ensures
      var rows := Preserved(raw, previous);
      && |rows| == |raw|
      && (forall i :: 0 <= i < |rows| ==> SameBut(rows[i], raw[i]))
      && (forall i :: 0 <= i < |rows| ==> KeepsNumber(previous, rows[i]))
  {
    var known := KnownNumbers(raw, NumberByKey(previous));
    hide NumberByKey, LastOfKey;
    forall i | 0 <= i < |raw| ensures KeepsNumber(previous, Preserved(raw, previous)[i]) {
      var row := Preserved(raw, previous)[i];
      assert row == raw[i].(absoluteRow := Number(known, i)) && KeyOf(row) == KeyOf(raw[i]);
      forall j: nat | LastOfKey(previous, KeyOf(row), j)
        ensures j < |previous| && previous[j].absoluteRow == row.absoluteRow
      {
        NumberOfKey(previous, KeyOf(row), j);
        KnownNumber(known, i);
      }
    }
  }

  // ---------------------------------------------------------------- what is the same content

  /** An absent background and an empty one look the same. */
  predicate SameBackground(a: Option<string>, b: Option<string>) {
    a == b || (a in {None, Some("")} && b in {None, Some("")})
  }

  /** Two lines count as the same exactly when their spans have the same texts and looks. */
  lemma SameLineIff(a: Line, b: Line)
    ensures LineSignature(a) == LineSignature(b) <==>
      && |a.spans| == |b.spans|
      && forall i :: 0 <= i < |a.spans| ==>
           && a.spans[i].text == b.spans[i].text && a.spans[i].style == b.spans[i].style
           && SameBackground(a.spans[i].background, b.spans[i].background)
  {
    if LineSignature(a) == LineSignature(b) {
      assert |LineSignature(a)| == |a.spans| && |LineSignature(b)| == |b.spans|;
      forall i | 0 <= i < |a.spans| ensures SpanSignature(a.spans[i]) == SpanSignature(b.spans[i]) {
        assert LineSignature(a)[i] == LineSignature(b)[i];
      }
    }
  }

  /** Two rows have the same content exactly when they have the same ids, place and line, whatever their lifecycle. */
  lemma SameContentIff(a: Row, b: Row)
    ensures SignatureOf(a) == SignatureOf(b) <==>
      a.elementId == b.elementId && a.sourceId == b.sourceId && a.lineIndex == b.lineIndex
      && LineSignature(a.line) == LineSignature(b.line)
  {
  }

  // ---------------------------------------------------------------- when a reflow is refused

  /** The last of the stable rows with this number. */
  ghost predicate LastStable(rows: seq<Row>, number: int, i: nat) {
    && i < |rows| && rows[i].lifecycle == Stable && rows[i].absoluteRow == number
    && forall j :: i < j < |rows| && rows[j].lifecycle == Stable ==> rows[j].absoluteRow != number
  }

  lemma {:induction false} StableByNumber(rows: seq<Row>, number: int) returns (i: nat)
    ensures number in RowByNumber(StableRows(rows)) <==> LastStable(rows, number, i)
    ensures LastStable(rows, number, i) ==> RowByNumber(StableRows(rows))[number] == rows[i]
    ensures forall j: nat :: LastStable(rows, number, j) ==> j == i
  {
    i := 0;
    if rows != [] {
      var n := |rows| - 1;
      if rows[n].lifecycle == Stable && rows[n].absoluteRow == number {
        i := n;
        assert LastStable(rows, number, n);
      } else {
        i := StableByNumber(rows[..n], number);
        forall j: nat ensures LastStable(rows, number, j) <==> LastStable(rows[..n], number, j) {
        }
      }
      StableRowsSnoc(rows, number);
    }
  }

  lemma StableRowsSnoc(rows: seq<Row>, number: int)
    requires rows != []
    ensures
      var n := |rows| - 1;
      var before, after := RowByNumber(StableRows(rows[..n])), RowByNumber(StableRows(rows));
      after == if rows[n].lifecycle == Stable then before[rows[n].absoluteRow := rows[n]] else before
  {
    var n := |rows| - 1;
    var before := StableRows(rows[..n]);
    if rows[n].lifecycle == Stable {
      assert StableRows(rows) == before + [rows[n]];
      assert (before + [rows[n]])[..|before|] == before;
    } else {
      assert StableRows(rows) == before + [] == before;
    }
  }

  /** The committed row is still there: the last stable row with its number has its content. */
  ghost predicate StillThere(row: Row, rows: seq<Row>) {
    exists i: nat :: LastStable(rows, row.absoluteRow, i) && SignatureOf(rows[i]) == SignatureOf(row)
  }

  lemma CommittedKeptIff(committed: seq<Row>, rows: seq<Row>)
    ensures CommittedKept(committed, rows) <==> forall row :: row in committed ==> StillThere(row, rows)
  {
    forall row ensures StillThere(row, rows) <==>
      var stable := RowByNumber(StableRows(rows));
      row.absoluteRow in stable && SignatureOf(stable[row.absoluteRow]) == SignatureOf(row)
    {
      var i := StableByNumber(rows, row.absoluteRow);
      hide RowByNumber, StableRows, LastStable, SignatureOf;
    }
    hide StillThere;
  }

  /**
   * A reflow is refused exactly for a layout without room, for a stable element behind a live one, or, at
   * an unchanged layout, if a committed row is not there any more.
   */
  lemma ReflowRefusedIff(s: Snapshot, elements: seq<Element>, width: int, paddingX: int)
    ensures
      var r := Reflowed(s, elements, width, paddingX);
      var room := 1 <= width <= 9007199254740991 && 0 <= paddingX <= 9007199254740991 && width - paddingX * 2 >= 1;
      && (r == Failure(InvalidLayout) <==> !room)
      && (r == Failure(StableAfterLive) <==> room && !LiveLast(elements))
      && (r == Failure(CommittedChanged) <==>
            && room && LiveLast(elements) && s.width == width && s.paddingX == paddingX
            && exists row :: row in s.committed && !StillThere(row, NumberedRows(s, elements, width, paddingX)))
      && (r.Failure? ==> r.error in {InvalidLayout, StableAfterLive, CommittedChanged})
  {
    hide StillThere, CommittedKept, Displayed, LiveLast;
    if width - paddingX * 2 >= 1 {
      CommittedKeptIff(s.committed, NumberedRows(s, elements, width, paddingX));
    }
    hide NumberedRows;
  }
}
