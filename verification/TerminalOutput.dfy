/** From a buffer snapshot to a frame, and from frames to the rows that must be written again. */
module TerminalOutput {
  import opened StableSort
  import opened Collections
  import opened JsIntegers
  import opened Wrappers
  import opened RowNumbers
  import LineWrap
  import opened DisplayBuffer
  import opened BufferRuns

  datatype FrameRow = FrameRow(absoluteRow: int, line: LineWrap.Line)

  datatype Frame = Frame(
    revision: int, width: int, paddingX: int, topRow: int, height: int,
    committedRows: seq<int>, scrollbackRows: seq<FrameRow>, rows: seq<FrameRow>)

  // ---------------------------------------------------------------- rendering

  function FrameRows(rows: seq<Row>): seq<FrameRow> {
    seq(|rows|, i requires 0 <= i < |rows| => FrameRow(rows[i].absoluteRow, rows[i].line))
  }

  /** The rows inside the viewport, in order. */
  function Window(rows: seq<Row>, topRow: int, height: int): seq<Row> {
    if rows == [] then []
    else
      var n := |rows| - 1;
      Window(rows[..n], topRow, height) +
      (if topRow <= rows[n].absoluteRow < topRow + height then [rows[n]] else [])
  }

  function Project(s: Snapshot): Frame {
    Frame(
      s.revision, s.width, s.paddingX, s.viewport.topRow, s.viewport.height,
      NumbersOf(s.committed), FrameRows(s.committed),
      FrameRows(Window(s.Rows(), s.viewport.topRow, s.viewport.height)))
  }

  lemma {:induction false} WindowOfConsecutive(rows: seq<Row>, topRow: int, height: int)
    requires Consecutive(NumbersOf(rows)) && height >= 0
    ensures
      var from, to := Clamp(topRow - First(rows), |rows|), Clamp(topRow + height - First(rows), |rows|);
      from <= to && Window(rows, topRow, height) == rows[from..to]
    decreases |rows|
  {
    if rows != [] {
      var n := |rows| - 1;
      assert NumbersOf(rows)[n] == First(rows) + n;
      assert NumbersOf(rows[..n]) == NumbersOf(rows)[0..n];
      SliceConsecutive(NumbersOf(rows), 0, n);
      hide Consecutive, NumbersOf;
      WindowOfConsecutive(rows[..n], topRow, height);
      assert n > 0 ==> First(rows[..n]) == First(rows);
      WindowSnoc(rows, topRow - First(rows), topRow - First(rows) + height);
    }
  }

  lemma WindowSnoc(rows: seq<Row>, lo: int, hi: int)
    requires rows != [] && lo <= hi
    ensures
      var n := |rows| - 1;
      rows[Clamp(lo, n + 1)..Clamp(hi, n + 1)] ==
      rows[..n][Clamp(lo, n)..Clamp(hi, n)] + if lo <= n < hi then [rows[n]] else []
  {
    var n := |rows| - 1;
    if hi <= n {
      SliceBefore(rows, Clamp(lo, n), Clamp(hi, n));
    } else if lo <= n {
      SliceSnoc(rows, Clamp(lo, n));
    } else {
      assert Clamp(lo, n + 1) == n + 1 && Clamp(hi, n + 1) == n + 1 && Clamp(lo, n) == n && Clamp(hi, n) == n;
    }
  }

  lemma SliceBefore<T>(xs: seq<T>, a: nat, b: nat)
    requires xs != [] && a <= b <= |xs| - 1
    ensures xs[..|xs| - 1][a..b] + [] == xs[a..b]
  {
  }

  lemma SliceSnoc<T>(xs: seq<T>, a: nat)
    requires a < |xs|
    ensures xs[..|xs| - 1][a..] + [xs[|xs| - 1]] == xs[a..]
    ensures xs[..|xs| - 1][a..|xs| - 1] + [xs[|xs| - 1]] == xs[a..|xs|]
  {
  }

  function Clamp(i: int, n: nat): (c: nat)
    ensures c <= n
  {
    if i < 0 then 0 else if i > n then n else i
  }

  /**
   * A frame of a consecutively numbered buffer shows as many rows as the viewport is high, or all rows
   * if there are fewer, consecutively from the top row.
   */
  lemma FrameIsFull(s: Snapshot)
    requires Inv(s) && Numbered(s)
    ensures
      var f := Project(s);
      && |f.rows| == Min(s.viewport.height, |s.Rows()|)
      && forall i :: 0 <= i < |f.rows| ==> f.rows[i].absoluteRow == s.viewport.topRow + i
  {
    var rows := s.Rows();
    WindowOfConsecutive(rows, s.viewport.topRow, s.viewport.height);
    WindowBounds(s);
    hide Window, Clamp, Consecutive, First, MaxTop;
    var from := Clamp(s.viewport.topRow - First(rows), |rows|);
    forall i | 0 <= i < |Project(s).rows| ensures Project(s).rows[i].absoluteRow == s.viewport.topRow + i {
      NumberAt(rows, from + i);
      FirstIs(rows);
    }
  }

  lemma WindowBounds(s: Snapshot)
    requires Inv(s) && Numbered(s)
    ensures
      var rows, top, height := s.Rows(), s.viewport.topRow, s.viewport.height;
      var from, to := Clamp(top - First(rows), |rows|), Clamp(top + height - First(rows), |rows|);
      && from <= to && to - from == Min(height, |rows|)
      && (from < to ==> First(rows) + from == top)
  {
    if s.Rows() != [] {
      NumberAt(s.Rows(), |s.Rows()| - 1);
    }
    hide Consecutive, NumbersOf;
  }

  /** What a frame shows: the number and the line of the row. */
  ghost predicate ShowsRow(f: FrameRow, row: Row) {
    f.absoluteRow == row.absoluteRow && f.line == row.line
  }

  /** The frame speaks of its snapshot, and its scrollback holds the committed rows, number and line, in order. */
  lemma FrameOfSnapshot(s: Snapshot)
    ensures
      var f := Project(s);
      && f.revision == s.revision && f.width == s.width && f.paddingX == s.paddingX
      && f.topRow == s.viewport.topRow && f.height == s.viewport.height
      && |f.committedRows| == |f.scrollbackRows| == |s.committed|
      && forall i :: 0 <= i < |s.committed| ==>
           f.committedRows[i] == s.committed[i].absoluteRow && ShowsRow(f.scrollbackRows[i], s.committed[i])
  {
    hide Window;
  }

  ghost predicate InView(v: Viewport, row: Row) {
    v.topRow <= row.absoluteRow < v.topRow + v.height
  }

  /** Each row of a frame is a retained row inside the window, and each of those is in it. */
  lemma FrameRowsIff(s: Snapshot)
    ensures forall f :: f in Project(s).rows ==>
      exists row :: row in s.Rows() && InView(s.viewport, row) && ShowsRow(f, row)
    ensures forall row :: row in s.Rows() && InView(s.viewport, row) ==>
      FrameRow(row.absoluteRow, row.line) in Project(s).rows
  {
    var shown := Window(s.Rows(), s.viewport.topRow, s.viewport.height);
    WindowIff(s.Rows(), s.viewport.topRow, s.viewport.height);
    hide Window;
    forall f | f in Project(s).rows ensures exists row :: row in shown && ShowsRow(f, row) {
      var i :| 0 <= i < |shown| && Project(s).rows[i] == f;
      assert ShowsRow(f, shown[i]);
    }
    forall row | row in shown ensures FrameRow(row.absoluteRow, row.line) in Project(s).rows {
      var i :| 0 <= i < |shown| && shown[i] == row;
      assert Project(s).rows[i] == FrameRow(row.absoluteRow, row.line);
    }
  }

  lemma {:induction false} WindowIff(rows: seq<Row>, topRow: int, height: int)
    ensures forall r :: r in Window(rows, topRow, height) <==> r in rows && topRow <= r.absoluteRow < topRow + height
  {
    if rows != [] {
      var n := |rows| - 1;
      WindowIff(rows[..n], topRow, height);
      assert rows == rows[..n] + [rows[n]];
    }
  }

  /** The i-th row of the frame of a consecutively numbered buffer is the retained row i places below the top row. */
  ghost predicate FrameHolds(s: Snapshot) {
    var f, rows := Project(s), s.Rows();
    f.rows != [] ==>
      && rows != []
      && var from := s.viewport.topRow - rows[0].absoluteRow;
         && 0 <= from && from + |f.rows| <= |rows|
         && forall i :: 0 <= i < |f.rows| ==> ShowsRow(f.rows[i], rows[from + i])
  }

  lemma FrameHoldsRows(s: Snapshot)
    requires Inv(s) && Numbered(s)
    ensures FrameHolds(s)
  {
    var rows := s.Rows();
    WindowOfConsecutive(rows, s.viewport.topRow, s.viewport.height);
    WindowBounds(s);
    hide Window, Clamp, Consecutive, MaxTop;
    if rows != [] {
      FirstIs(rows);
    }
  }

  // ---------------------------------------------------------------- output

  datatype OutputSnapshot = OutputSnapshot(
    sessionKey: Option<string>, revision: int, width: int, paddingX: int, scrollbackRows: seq<int>,
    stableRows: seq<FrameRow>, pendingStableRows: seq<FrameRow>, liveRows: seq<int>,
    visibleRows: seq<FrameRow>, dirtyRows: seq<int>)

  datatype OutputError = OutputDisposed | InvalidFrame | UnorderedRows | StaleFrame | EmptySessionKey

  function FrameNumbers(rows: seq<FrameRow>): seq<int> {
    seq(|rows|, i requires 0 <= i < |rows| => rows[i].absoluteRow)
  }

  ghost predicate Ordered(numbers: seq<int>) {
    forall i, j :: 0 <= i < j < |numbers| ==> numbers[i] < numbers[j]
  }

  /** The frame check: fields in range and rows in strictly increasing order. */
  method ValidateFrame(frame: Frame) returns (error: Option<OutputError>)
    ensures error == if !(0 <= frame.revision <= MAX_SAFE_INTEGER && 1 <= frame.width <= MAX_SAFE_INTEGER
                          && 0 <= frame.paddingX <= MAX_SAFE_INTEGER) then Some(InvalidFrame)
                     else if !Ordered(FrameNumbers(frame.rows)) then Some(UnorderedRows) else None
  {
    if frame.revision < 0 || frame.revision > MAX_SAFE_INTEGER {
      return Some(InvalidFrame);
    }
    if frame.width < 1 || frame.width > MAX_SAFE_INTEGER {
      return Some(InvalidFrame);
    }
    if frame.paddingX < 0 || frame.paddingX > MAX_SAFE_INTEGER {
      return Some(InvalidFrame);
    }
    var index := 1;
    while index < |frame.rows|
      invariant 1 <= index && (index <= |frame.rows| || |frame.rows| == 0)
      invariant forall i, j :: 0 <= i < j < index && j < |frame.rows| ==>
        frame.rows[i].absoluteRow < frame.rows[j].absoluteRow
    {
      if frame.rows[index - 1].absoluteRow >= frame.rows[index].absoluteRow {
        assert FrameNumbers(frame.rows)[index - 1] >= FrameNumbers(frame.rows)[index];
        return Some(UnorderedRows);
      }
      index := index + 1;
    }
    return None;
  }

  /** The row shown at each number; as in a JavaScript Map, the last row with a number wins. */
  function Screen(rows: seq<FrameRow>): map<int, FrameRow> {
    if rows == [] then map[]
    else
      var n := |rows| - 1;
      Screen(rows[..n])[rows[n].absoluteRow := rows[n]]
  }

  lemma {:induction false} ScreenKeys(rows: seq<FrameRow>)
    ensures forall n :: n in Screen(rows) <==> exists i :: 0 <= i < |rows| && rows[i].absoluteRow == n
  {
    if rows != [] {
      var k := |rows| - 1;
      ScreenKeys(rows[..k]);
      forall n | n in Screen(rows) ensures exists i :: 0 <= i < |rows| && rows[i].absoluteRow == n {
        if n == rows[k].absoluteRow {
        } else {
          assert n in Screen(rows[..k]);
          var i :| 0 <= i < |rows[..k]| && rows[..k][i].absoluteRow == n;
          assert rows[i].absoluteRow == n;
        }
      }
      forall i | 0 <= i < |rows| ensures rows[i].absoluteRow in Screen(rows) {
        if i < k {
          assert rows[..k][i].absoluteRow == rows[i].absoluteRow;
        }
      }
    }
  }

  /** At a number the screen shows the last row with it; in an accepted frame that is the only one. */
  lemma {:induction false} ScreenShows(rows: seq<FrameRow>, i: nat)
    requires i < |rows| && forall j :: i < j < |rows| ==> rows[j].absoluteRow != rows[i].absoluteRow
    ensures rows[i].absoluteRow in Screen(rows) && Screen(rows)[rows[i].absoluteRow] == rows[i]
  {
    var k := |rows| - 1;
    if i < k {
      ScreenShows(rows[..k], i);
    }
  }

  predicate SameRow(a: FrameRow, b: FrameRow) {
    LineSignature(a.line) == LineSignature(b.line)
  }

  /** A row that is not on both screens with the same content. */
  predicate Differs(previous: map<int, FrameRow>, next: map<int, FrameRow>, n: int) {
    (n in previous || n in next) && !(n in previous && n in next && SameRow(previous[n], next[n]))
  }

  function AtMost(): (int, int) -> bool {
    (a: int, b: int) => a <= b
  }

  /** The members of a set, given in insertion order, sorted. */
  function Ascending(numbers: seq<int>): (sorted: seq<int>)
    requires Distinct(numbers)
    ensures Ordered(sorted)
    ensures forall n :: n in sorted <==> n in numbers
  {
    Sorts(numbers, AtMost());
    SortKeepsDistinct(numbers, AtMost());
    var sorted := Sort(numbers, AtMost());
    assert forall i, j :: 0 <= i < j < |sorted| ==> AtMost()(sorted[i], sorted[j]);
    sorted
  }

  /** The rows of a scrollback whose numbers are not among the known ones. */
  function Pending(rows: seq<FrameRow>, known: set<int>): seq<FrameRow> {
    if rows == [] then []
    else
      var n := |rows| - 1;
      Pending(rows[..n], known) + (if rows[n].absoluteRow in known then [] else [rows[n]])
  }

  const BLANK := OutputSnapshot(None, 0, 0, 0, [], [], [], [], [], [])

  class TuiTerminalOutput {
    var snapshot: OutputSnapshot
    var disposed: bool

    constructor ()
      ensures snapshot == BLANK && !disposed
    {
      snapshot, disposed := BLANK, false;
    }

    method Reset(sessionKey: string) returns (error: Option<OutputError>)
      modifies this`snapshot
      ensures error ==
        if disposed then Some(OutputDisposed) else if sessionKey == "" then Some(EmptySessionKey) else None
      ensures snapshot ==
        if error.Some? || old(snapshot).sessionKey == Some(sessionKey) then old(snapshot)
        else BLANK.(sessionKey := Some(sessionKey))
    {
      if disposed {
        return Some(OutputDisposed);
      }
      if |sessionKey| == 0 {
        return Some(EmptySessionKey);
      }
      if snapshot.sessionKey == Some(sessionKey) {
        return None;
      }
      snapshot := BLANK.(sessionKey := Some(sessionKey));
      return None;
    }

    /**
     * Applying a frame shows its rows, and lists as dirty exactly the rows that differ from what was
     * shown before, in increasing order. A rejected frame changes nothing.
     */
    method Apply(frame: Frame) returns (result: Result<OutputSnapshot, OutputError>)
      modifies this`snapshot
      ensures result.Success? <==>
        && !disposed && 0 <= frame.revision <= MAX_SAFE_INTEGER
        && 1 <= frame.width <= MAX_SAFE_INTEGER && 0 <= frame.paddingX <= MAX_SAFE_INTEGER
        && Ordered(FrameNumbers(frame.rows)) && old(snapshot).revision <= frame.revision
      ensures snapshot == if result.Success? then result.value else old(snapshot)
      ensures result.Success? ==>
        var before, s := old(snapshot), result.value;
        && s.sessionKey == before.sessionKey && s.revision == frame.revision
        && s.width == frame.width && s.paddingX == frame.paddingX
        && s.visibleRows == frame.rows && s.liveRows == FrameNumbers(frame.rows)
        && s.stableRows == frame.scrollbackRows && s.scrollbackRows == FrameNumbers(frame.scrollbackRows)
        && s.pendingStableRows == Pending(
             frame.scrollbackRows,
             if before.width == frame.width && before.paddingX == frame.paddingX
             then set n | n in before.scrollbackRows else {})
        && Ordered(s.dirtyRows)
        && forall n :: n in s.dirtyRows <==> Differs(Screen(before.visibleRows), Screen(frame.rows), n)
    {
      hide Screen, Pending, LineSignature;
      if disposed {
        return Failure(OutputDisposed);
      }
      var error := ValidateFrame(frame);
      if error.Some? {
        return Failure(error.value);
      }
      if frame.revision < snapshot.revision {
        return Failure(StaleFrame);
      }
      var layoutChanged := snapshot.width != frame.width || snapshot.paddingX != frame.paddingX;
      var known: set<int> := if layoutChanged then {} else set n | n in snapshot.scrollbackRows;
      var previousRows, nextRows := Screen(snapshot.visibleRows), Screen(frame.rows);
      ScreenKeys(snapshot.visibleRows);
      ScreenKeys(frame.rows);
      var dirty := DirtyRows(snapshot.visibleRows, frame.rows, previousRows, nextRows);
      var dirtyRows := Ascending(dirty);
      snapshot := OutputSnapshot(
        snapshot.sessionKey, frame.revision, frame.width, frame.paddingX, FrameNumbers(frame.scrollbackRows),
        frame.scrollbackRows, Pending(frame.scrollbackRows, known), FrameNumbers(frame.rows), frame.rows, dirtyRows);
      return Success(snapshot);
    }
  }

  /** Adding to a JavaScript Set keeps the first insertion only. */
  function AddOnce(xs: seq<int>, x: int): seq<int> {
    if x in xs then xs else xs + [x]
  }

  /** The two loops that collect changed rows: over what was shown, and over what is to be shown. */
  method DirtyRows(
    visible: seq<FrameRow>, rows: seq<FrameRow>, previous: map<int, FrameRow>, next: map<int, FrameRow>)
    returns (dirty: seq<int>)
    requires forall n :: n in previous <==> exists i :: 0 <= i < |visible| && visible[i].absoluteRow == n
    requires forall n :: n in next <==> exists i :: 0 <= i < |rows| && rows[i].absoluteRow == n
    ensures Distinct(dirty)
    ensures forall n :: n in dirty <==> Differs(previous, next, n)
  {
    hide LineSignature;
    dirty := [];
    for k := 0 to |visible|
      invariant Distinct(dirty)
      invariant forall n :: n in dirty ==> Differs(previous, next, n)
      invariant forall i :: 0 <= i < k && Differs(previous, next, visible[i].absoluteRow) ==>
                  visible[i].absoluteRow in dirty
    {
      var n := visible[k].absoluteRow;
      assert n in previous;
      if n !in next || !SameRow(previous[n], next[n]) {
        dirty := AddOnce(dirty, n);
      }
    }
    for k := 0 to |rows|
      invariant Distinct(dirty)
      invariant forall n :: n in dirty ==> Differs(previous, next, n)
      invariant forall i :: 0 <= i < |visible| && Differs(previous, next, visible[i].absoluteRow) ==>
                  visible[i].absoluteRow in dirty
      invariant forall i :: 0 <= i < k && Differs(previous, next, rows[i].absoluteRow) ==> rows[i].absoluteRow in dirty
    {
      var n := rows[k].absoluteRow;
      assert n in next;
      if n !in previous || !SameRow(previous[n], next[n]) {
        dirty := AddOnce(dirty, n);
      }
    }
  }

  // ---------------------------------------------------------------- a repaint of the dirty rows is enough

  /** What the terminal shows: the content at each row number. */
  function Shows(screen: map<int, FrameRow>): map<int, seq<(string, string, string)>> {
    map n | n in screen :: LineSignature(screen[n].line)
  }

  /** Repaint only some rows: clear or write those, leave the others as they were. */
  function Repaint<T>(previous: map<int, T>, next: map<int, T>, dirty: set<int>): map<int, T> {
    map n | n in previous.Keys + next.Keys && (if n in dirty then n in next else n in previous) ::
      if n in dirty then next[n] else previous[n]
  }

  /** Repainting the dirty rows shows the whole next frame, and no smaller set of rows does. */
  lemma DirtyRowsSuffice(previous: seq<FrameRow>, next: seq<FrameRow>, dirty: set<int>)
    requires forall n :: n in dirty <==> Differs(Screen(previous), Screen(next), n)
    ensures Repaint(Shows(Screen(previous)), Shows(Screen(next)), dirty) == Shows(Screen(next))
    ensures forall other: set<int> ::
      Repaint(Shows(Screen(previous)), Shows(Screen(next)), other) == Shows(Screen(next)) ==> dirty <= other
  {
    hide Screen, LineSignature;
    var p, q := Shows(Screen(previous)), Shows(Screen(next));
    var painted := Repaint(p, q, dirty);
    forall n ensures n in painted <==> n in q {
      assert Differs(Screen(previous), Screen(next), n) <==> n in dirty;
    }
    forall n | n in q ensures painted[n] == q[n] {
      assert Differs(Screen(previous), Screen(next), n) <==> n in dirty;
    }
    forall other: set<int>, n | Repaint(p, q, other) == q && n in dirty ensures n in other {
      assert n in Repaint(p, q, other) <==> n in q;
    }
  }

  // ---------------------------------------------------------------- the pipeline

  /** A frame of a consecutively numbered buffer is never rejected for its rows. */
  lemma FrameIsAccepted(s: Snapshot)
    requires Inv(s) && Numbered(s)
    ensures Ordered(FrameNumbers(Project(s).rows))
  {
    FrameIsFull(s);
  }

  /** Over any steady run of the buffer every frame is full, holds the buffer's own rows, and is accepted. */
  lemma SteadyRunsRender(ops: seq<Operation>)
    requires SteadyRun(ops)
    ensures Inv(Run(ops)) && Numbered(Run(ops))
    ensures |Project(Run(ops)).rows| == Min(Run(ops).viewport.height, |Run(ops).Rows()|)
    ensures FrameHolds(Run(ops))
    ensures Ordered(FrameNumbers(Project(Run(ops)).rows))
  {
    ReachableInv(ops);
    ReachableNumbered(ops);
    FrameIsFull(Run(ops));
    FrameHoldsRows(Run(ops));
    FrameIsAccepted(Run(ops));
  }

  // ---------------------------------------------------------------- what the scrollback receives over a run

  /** The same numbers and contents, row by row. */
  ghost predicate SameRows(a: seq<FrameRow>, b: seq<FrameRow>) {
    |a| == |b| && forall i :: 0 <= i < |a| ==> a[i].absoluteRow == b[i].absoluteRow && SameRow(a[i], b[i])
  }

  /** The rows are still there, in front of the new ones. */
  ghost predicate Extended(a: seq<FrameRow>, b: seq<FrameRow>) {
    |a| <= |b| && SameRows(a, b[..|a|])
  }

  function Scrollback(s: Snapshot): seq<FrameRow> {
    FrameRows(s.committed)
  }

  /** All pending rows of frames applied one after another, of which the first has a new layout. */
  function Printed(shown: seq<seq<FrameRow>>): seq<FrameRow> {
    if shown == [] then []
    else
      var n := |shown| - 1;
      Printed(shown[..n]) + Pending(shown[n], if n == 0 then {} else NumberSet(shown[n - 1]))
  }

  function NumberSet(rows: seq<FrameRow>): set<int> {
    set n | n in FrameNumbers(rows)
  }

  /** Scrollbacks in order, each of which continues the one before it. */
  ghost predicate Growing(shown: seq<seq<FrameRow>>) {
    shown != [] ==>
      var n := |shown| - 1;
      && Ordered(FrameNumbers(shown[n])) && Growing(shown[..n])
      && (n > 0 ==> Extended(shown[n - 1], shown[n]))
  }

  lemma {:induction false} PendingIsRest(rows: seq<FrameRow>, k: nat, known: set<int>)
    requires k <= |rows|
    requires forall i :: 0 <= i < |rows| ==> (rows[i].absoluteRow in known <==> i < k)
    ensures Pending(rows, known) == rows[k..]
  {
    if rows != [] {
      var n := |rows| - 1;
      PendingIsRest(rows[..n], Min(k, n), known);
      if k <= n {
        SliceSnoc(rows, k);
      } else {
        assert rows[..n][n..] == [] && rows[k..] == [];
      }
    }
  }

  lemma PendingBehind(a: seq<FrameRow>, b: seq<FrameRow>)
    requires Extended(a, b) && Ordered(FrameNumbers(b))
    ensures Pending(b, NumberSet(a)) == b[|a|..]
  {
    hide SameRow, Pending;
    assert forall i :: 0 <= i < |a| ==> FrameNumbers(a)[i] == a[i].absoluteRow == b[..|a|][i].absoluteRow;
    assert forall i :: 0 <= i < |b| ==> FrameNumbers(b)[i] == b[i].absoluteRow;
    forall i | 0 <= i < |b| ensures b[i].absoluteRow in NumberSet(a) <==> i < |a| {
      if i < |a| {
        assert FrameNumbers(a)[i] == b[i].absoluteRow;
      } else {
        forall j | 0 <= j < |a| ensures FrameNumbers(a)[j] < b[i].absoluteRow {
          assert FrameNumbers(b)[j] < FrameNumbers(b)[i];
        }
      }
    }
    PendingIsRest(b, |a|, NumberSet(a));
  }

  /** Where rows are only ever appended, the pending rows make up the last scrollback, in order, each once. */
  lemma {:induction false} PrintedOnce(shown: seq<seq<FrameRow>>)
    requires shown != [] && Growing(shown)
    ensures SameRows(Printed(shown), shown[|shown| - 1])
  {
    var n := |shown| - 1;
    hide Pending, SameRow, Ordered;
    if n == 0 {
      PendingIsRest(shown[0], 0, {});
      assert Printed(shown[..0]) == [] && [] + shown[0] == shown[0] && shown[0][0..] == shown[0];
      assert Printed(shown) == shown[0];
      SameRowsSelf(shown[0]);
    } else {
      PrintedOnce(shown[..n]);
      PendingBehind(shown[n - 1], shown[n]);
      assert Printed(shown) == Printed(shown[..n]) + shown[n][|shown[n - 1]|..];
      hide *;
      Continued(Printed(shown[..n]), shown[n - 1], shown[n]);
    }
  }

  lemma SameRowsSelf(a: seq<FrameRow>)
    ensures SameRows(a, a)
  {
  }

  lemma Continued(printed: seq<FrameRow>, a: seq<FrameRow>, b: seq<FrameRow>)
    requires SameRows(printed, a) && Extended(a, b)
    ensures SameRows(printed + b[|a|..], b)
  {
    hide LineSignature;
  }

  /** The first retained row keeps its number: nothing is evicted, and nothing evicted is shown again. */
  ghost predicate KeepsFirst(s: Snapshot, t: Snapshot) {
    s.committed != [] ==> t.Rows() != [] && First(t.Rows()) == First(s.Rows())
  }

  lemma ScrollbackExtends(s: Snapshot, op: Operation)
    requires Inv(s) && Numbered(s) && Steady(s, op) && LayoutStays(s, op) && KeepsFirst(s, After(s, op))
    ensures Extended(Scrollback(s), Scrollback(After(s, op)))
  {
    var t := After(s, op);
    if op.ReflowBuffer? && Attempt(s, op).Success? {
      forall i | 0 <= i < |s.committed| ensures CommittedAt(s.committed[i], t, i) {
        CommittedPlace(s, op, i);
      }
      EachInPlace(s, t);
    } else {
      assert t.committed == s.committed || (op.ResetBuffer? && s.committed == []);
      assert Scrollback(s) == Scrollback(t)[..|s.committed|];
    }
  }

  lemma EachInPlace(s: Snapshot, t: Snapshot)
    requires forall i :: 0 <= i < |s.committed| ==> CommittedAt(s.committed[i], t, i)
    ensures Extended(Scrollback(s), Scrollback(t))
  {
    hide LineSignature;
    var a, b := s.committed, t.committed;
    if |a| > 0 {
      assert CommittedAt(a[|a| - 1], t, |a| - 1);
    }
    forall i | 0 <= i < |a| ensures
      && Scrollback(s)[i].absoluteRow == Scrollback(t)[..|a|][i].absoluteRow
      && SameRow(Scrollback(s)[i], Scrollback(t)[..|a|][i])
    {
      assert CommittedAt(a[i], t, i);
    }
  }

  ghost predicate CommittedAt(row: Row, t: Snapshot, i: nat) {
    && i < |t.committed| && t.committed[i].absoluteRow == row.absoluteRow
    && SignatureOf(t.committed[i]) == SignatureOf(row)
  }

  lemma CommittedPlace(s: Snapshot, op: Operation, i: nat)
    requires Inv(s) && Numbered(s) && Steady(s, op) && LayoutStays(s, op) && KeepsFirst(s, After(s, op))
    requires op.ReflowBuffer? && Attempt(s, op).Success? && i < |s.committed|
    ensures CommittedAt(s.committed[i], After(s, op), i)
  {
    var t, row := After(s, op), s.committed[i];
    AfterNumbered(s, op);
    ValidIfReflowed(s, op.elements, op.width, op.paddingX);
    NumberedRowsIff(s, op.elements, op.width, op.paddingX);
    CommittedByNumber(s, op.elements, op.width, op.paddingX, row);
    assert t == Reflowed(s, op.elements, op.width, op.paddingX).value;
    FirstAndKept(s, t, i);
    hide *;
    InPlaceByNumber(s, t, i);
  }

  lemma FirstAndKept(s: Snapshot, t: Snapshot, i: nat)
    requires Numbered(s) && KeepsFirst(s, t) && i < |s.committed|
    ensures t.Rows() != [] && First(t.Rows()) == First(s.Rows()) && s.committed[i].absoluteRow >= First(t.Rows())
  {
    NumberInRow(s, i);
  }

  lemma InPlaceByNumber(s: Snapshot, t: Snapshot, i: nat)
    requires Numbered(s) && Numbered(t) && i < |s.committed| && First(t.Rows()) == First(s.Rows())
    requires exists r :: r in t.committed && r.absoluteRow == s.committed[i].absoluteRow
    requires forall r :: r in t.Rows() && r.absoluteRow == s.committed[i].absoluteRow ==>
      SignatureOf(r) == SignatureOf(s.committed[i])
    ensures CommittedAt(s.committed[i], t, i)
  {
    hide SignatureOf, Numbered;
    NumberInRow(s, i);
    var r :| r in t.committed && r.absoluteRow == s.committed[i].absoluteRow;
    var j :| 0 <= j < |t.committed| && t.committed[j] == r;
    NumberInRow(t, j);
  }

  lemma NumberInRow(s: Snapshot, i: nat)
    requires Numbered(s) && i < |s.committed|
    ensures s.committed[i].absoluteRow == First(s.Rows()) + i && s.committed[i] in s.Rows()
  {
    NumberAt(s.Rows(), i);
    assert s.Rows()[i] == s.committed[i];
  }

  /** From the k-th operation on the layout stays and the first retained row keeps its number. */
  ghost predicate OnlyAppends(ops: seq<Operation>, k: nat)
    decreases |ops|
  {
    |ops| > k ==>
      var n := |ops| - 1;
      && OnlyAppends(ops[..n], k)
      && LayoutStays(Run(ops[..n]), ops[n]) && KeepsFirst(Run(ops[..n]), Run(ops))
  }

  lemma ScrollbackOrdered(s: Snapshot)
    requires Numbered(s)
    ensures Ordered(FrameNumbers(Scrollback(s)))
  {
    forall i | 0 <= i < |s.committed| ensures s.committed[i].absoluteRow == First(s.Rows()) + i {
      NumberInRow(s, i);
    }
  }

  lemma {:induction false} RunExtends(ops: seq<Operation>, k: nat, i: nat)
    requires SteadyRun(ops) && OnlyAppends(ops, k) && k <= i <= |ops|
    ensures Extended(Scrollback(Run(ops[..i])), Scrollback(Run(ops)))
    ensures Run(ops[..i]).width == Run(ops).width && Run(ops[..i]).paddingX == Run(ops).paddingX
    decreases |ops|
  {
    assert i == |ops| ==> ops[..i] == ops;
    assert OnlyAppends(ops, k);
    hide Run, SteadyRun, Extended, LayoutStays, KeepsFirst, Attempt, After;
    if i == |ops| {
      ExtendedSelf(Scrollback(Run(ops)));
    } else {
      var n := |ops| - 1;
      assert ops[..n][..i] == ops[..i];
      SteadyBefore(ops);
      ReachableInv(ops[..n]);
      ReachableNumbered(ops[..n]);
      RunOne(ops);
      assert LayoutStays(Run(ops[..n]), ops[n]) && KeepsFirst(Run(ops[..n]), Run(ops));
      hide *;
      RunExtends(ops[..n], k, i);
      ScrollbackExtends(Run(ops[..n]), ops[n]);
      SameLayoutAfter(Run(ops[..n]), ops[n]);
      ExtendedTransitive(Scrollback(Run(ops[..i])), Scrollback(Run(ops[..n])), Scrollback(Run(ops)));
    }
  }

  lemma SteadyBefore(ops: seq<Operation>)
    requires SteadyRun(ops) && ops != []
    ensures SteadyRun(ops[..|ops| - 1]) && Steady(Run(ops[..|ops| - 1]), ops[|ops| - 1])
  {
  }

  lemma SameLayoutAfter(s: Snapshot, op: Operation)
    requires LayoutStays(s, op)
    ensures After(s, op).width == s.width && After(s, op).paddingX == s.paddingX
  {
    hide NumberedRows, CommittedKept, LiveLast, Retained, FirstLive;
  }

  lemma ExtendedTransitive(a: seq<FrameRow>, b: seq<FrameRow>, c: seq<FrameRow>)
    requires Extended(a, b) && Extended(b, c)
    ensures Extended(a, c)
  {
    hide LineSignature;
    forall i | 0 <= i < |a| ensures a[i].absoluteRow == c[i].absoluteRow && SameRow(a[i], c[i]) {
      assert a[i].absoluteRow == b[..|a|][i].absoluteRow && SameRow(a[i], b[..|a|][i]);
      assert b[i].absoluteRow == c[..|b|][i].absoluteRow && SameRow(b[i], c[..|b|][i]);
    }
  }

  lemma ExtendedSelf(a: seq<FrameRow>)
    ensures Extended(a, a)
  {
    hide LineSignature;
  }

  /** The scrollbacks of the frames rendered after the given numbers of operations. */
  ghost function ShownAt(ops: seq<Operation>, moments: seq<nat>): seq<seq<FrameRow>>
    requires forall i :: 0 <= i < |moments| ==> moments[i] <= |ops|
  {
    seq(|moments|, i requires 0 <= i < |moments| => Project(Run(ops[..moments[i]])).scrollbackRows)
  }

  ghost predicate Moments(ops: seq<Operation>, moments: seq<nat>) {
    && moments != [] && (forall i :: 0 <= i < |moments| ==> moments[i] <= |ops|)
    && forall i, j :: 0 <= i < j < |moments| ==> moments[i] <= moments[j]
  }

  /**
   * Frames rendered at any moments of a steady run, from the first on at one layout and without eviction
   * or return: all rows handed to the scrollback are, in order and each once, the committed rows.
   */
  lemma ScrollbackReceivesOnce(ops: seq<Operation>, moments: seq<nat>)
    requires Moments(ops, moments) && SteadyRun(ops) && OnlyAppends(ops, moments[0])
    ensures
      var printed, committed := Printed(ShownAt(ops, moments)), Run(ops[..moments[|moments| - 1]]).committed;
      && |printed| == |committed|
      && forall i :: 0 <= i < |committed| ==>
           && printed[i].absoluteRow == committed[i].absoluteRow
           && LineSignature(printed[i].line) == LineSignature(committed[i].line)
  {
    var last := Run(ops[..moments[|moments| - 1]]);
    ShownGrows(ops, moments);
    PrintedOnce(ShownAt(ops, moments));
    FrameOfSnapshot(last);
    hide Printed, Run, Project, LineSignature, SteadyRun, OnlyAppends, Growing;
    assert SameRows(Printed(ShownAt(ops, moments)), Project(last).scrollbackRows);
  }

  lemma {:induction false} ShownGrows(ops: seq<Operation>, moments: seq<nat>)
    requires Moments(ops, moments) && SteadyRun(ops) && OnlyAppends(ops, moments[0])
    ensures Growing(ShownAt(ops, moments))
    decreases |moments|
  {
    var n := |moments| - 1;
    var shown := ShownAt(ops, moments);
    assert shown[..n] == ShownAt(ops, moments[..n]);
    OneShown(ops, moments[0], moments[n], moments[n]);
    if n > 0 {
      ShownGrows(ops, moments[..n]);
      OneShown(ops, moments[0], moments[n - 1], moments[n]);
    } else {
      assert shown[..0] == [];
    }
    hide Extended, Ordered;
  }

  lemma OneShown(ops: seq<Operation>, k: nat, a: nat, b: nat)
    requires SteadyRun(ops) && OnlyAppends(ops, k) && k <= a <= b <= |ops|
    ensures Ordered(FrameNumbers(Project(Run(ops[..b])).scrollbackRows))
    ensures Extended(Project(Run(ops[..a])).scrollbackRows, Project(Run(ops[..b])).scrollbackRows)
  {
    PrefixOfRun(ops, k, b);
    assert ops[..b][..a] == ops[..a];
    hide SteadyRun, OnlyAppends, Run, Extended, Ordered, Numbered;
    RunExtends(ops[..b], k, a);
    ReachableNumbered(ops[..b]);
    ScrollbackOrdered(Run(ops[..b]));
  }

  lemma {:induction false} PrefixOfRun(ops: seq<Operation>, k: nat, b: nat)
    requires SteadyRun(ops) && OnlyAppends(ops, k) && k <= b <= |ops|
    ensures SteadyRun(ops[..b]) && OnlyAppends(ops[..b], k)
    decreases |ops|
  {
    hide Steady, LayoutStays, KeepsFirst, Run;
    if b == |ops| {
      assert ops[..b] == ops;
    } else {
      var n := |ops| - 1;
      assert ops[..n][..b] == ops[..b];
      PrefixOfRun(ops[..n], k, b);
    }
  }

  /** Two rows with one number, as an insertion between kept rows produces, make a frame that is rejected. */
  lemma CollidingRowsAreRejected(rows: seq<Row>, topRow: int, height: int, i: nat, j: nat)
    requires i < j < |rows| && rows[i].absoluteRow == rows[j].absoluteRow
    requires topRow <= rows[i].absoluteRow < topRow + height
    ensures !Ordered(FrameNumbers(FrameRows(Window(rows, topRow, height))))
  {
    WindowKeepsOrder(rows, topRow, height, i, j);
    var shown := Window(rows, topRow, height);
    var a, b :| 0 <= a < b < |shown| && shown[a] == rows[i] && shown[b] == rows[j];
    assert FrameNumbers(FrameRows(shown))[a] == FrameNumbers(FrameRows(shown))[b];
  }

  lemma {:induction false} WindowKeeps(rows: seq<Row>, topRow: int, height: int, i: nat)
    requires i < |rows| && topRow <= rows[i].absoluteRow < topRow + height
    ensures rows[i] in Window(rows, topRow, height)
  {
    var n := |rows| - 1;
    if i < n {
      WindowKeeps(rows[..n], topRow, height, i);
    }
  }

  lemma {:induction false} WindowKeepsOrder(rows: seq<Row>, topRow: int, height: int, i: nat, j: nat)
    requires i < j < |rows|
    requires topRow <= rows[i].absoluteRow < topRow + height && topRow <= rows[j].absoluteRow < topRow + height
    ensures exists a, b ::
      0 <= a < b < |Window(rows, topRow, height)|
      && Window(rows, topRow, height)[a] == rows[i] && Window(rows, topRow, height)[b] == rows[j]
  {
    var n := |rows| - 1;
    var shown := Window(rows, topRow, height);
    var before := Window(rows[..n], topRow, height);
    if j < n {
      WindowKeepsOrder(rows[..n], topRow, height, i, j);
      var a, b :| 0 <= a < b < |before| && before[a] == rows[i] && before[b] == rows[j];
      assert shown[a] == rows[i] && shown[b] == rows[j];
    } else {
      WindowKeeps(rows[..n], topRow, height, i);
      var a :| 0 <= a < |before| && before[a] == rows[i];
      assert shown[a] == rows[i] && shown[|before|] == rows[j];
    }
  }
}
