/** The display buffer: wrapped rows with stable numbers, a committed part that only grows, and a viewport. */
module DisplayBuffer {
  import opened JsIntegers
  import opened Wrappers
  import opened LineWrap
  import opened RowNumbers

  const MAX_RETAINED_ROWS := 1000

  datatype Lifecycle = Stable | Live

  datatype Element = Element(elementId: string, sourceId: string, lifecycle: Lifecycle, lines: seq<Line>)

  datatype Row = Row(
    absoluteRow: int, elementId: string, sourceId: string, lineIndex: nat, lifecycle: Lifecycle, line: Line)

  datatype Viewport = Viewport(topRow: int, height: int, followTail: bool)

  datatype Snapshot = Snapshot(
    revision: nat, width: int, paddingX: int, committed: seq<Row>, live: seq<Row>, viewport: Viewport)
  {
    function Rows(): seq<Row> {
      committed + live
    }
  }

  datatype BufferError = Disposed | InvalidLayout | StableAfterLive | CommittedChanged | InvalidViewport

  /** What identifies a row across reflows. */
  datatype RowKey = RowKey(elementId: string, sourceId: string, lineIndex: nat)

  /** What must not change in a committed row; the lifecycle may. An absent background counts as an empty one. */
  datatype RowSignature = RowSignature(key: RowKey, spans: seq<(string, string, string)>)

  function KeyOf(row: Row): RowKey {
    RowKey(row.elementId, row.sourceId, row.lineIndex)
  }

  function SpanSignature(span: Span): (string, string, string) {
    (span.style, if span.background.Some? then span.background.value else "", span.text)
  }

  function LineSignature(line: Line): seq<(string, string, string)> {
    seq(|line.spans|, i requires 0 <= i < |line.spans| => SpanSignature(line.spans[i]))
  }

  function SignatureOf(row: Row): RowSignature {
    RowSignature(KeyOf(row), LineSignature(row.line))
  }

  // ---------------------------------------------------------------- the rows of the elements

  function SplitAll(lines: seq<Line>, width: nat): seq<Line> {
    if lines == [] then [] else SplitAll(lines[..|lines| - 1], width) + Split(lines[|lines| - 1], width)
  }

  function ElementRows(e: Element, start: nat, width: nat): seq<Row> {
    var lines := SplitAll(e.lines, width);
    seq(|lines|, i requires 0 <= i < |lines| => Row(start + i, e.elementId, e.sourceId, i, e.lifecycle, lines[i]))
  }

  /** The wrapped lines of all elements in order, numbered by position, and by place in their element. */
  function RowsOf(elements: seq<Element>, width: nat): seq<Row> {
    if elements == [] then []
    else
      var n := |elements| - 1;
      var before := RowsOf(elements[..n], width);
      before + ElementRows(elements[n], |before|, width)
  }

  ghost predicate LiveLast(elements: seq<Element>) {
    forall i, j :: 0 <= i < j < |elements| && elements[i].lifecycle == Live ==> elements[j].lifecycle == Live
  }

  method RowsFor(elements: seq<Element>, width: nat) returns (result: Result<seq<Row>, BufferError>)
    requires width >= 1
    ensures result == if LiveLast(elements) then Success(RowsOf(elements, width)) else Failure(StableAfterLive)
  {
    hide Split, SplitAll;
    var rows: seq<Row> := [];
    var sawLive := false;
    for e := 0 to |elements|
      invariant rows == RowsOf(elements[..e], width)
      invariant sawLive <==> exists i :: 0 <= i < e && elements[i].lifecycle == Live
      invariant forall i, j :: 0 <= i < j < e && elements[i].lifecycle == Live ==> elements[j].lifecycle == Live
    {
      var element := elements[e];
      if element.lifecycle == Live {
        sawLive := true;
      }
      if sawLive && element.lifecycle == Stable {
        return Failure(StableAfterLive);
      }
      var split := SplitLines(element.lines, width);
      ghost var before := rows;
      var lineIndex := 0;
      for k := 0 to |split|
        invariant lineIndex == k
        invariant rows == before + ElementRows(element, |before|, width)[..k]
      {
        rows := rows + [Row(|rows|, element.elementId, element.sourceId, lineIndex, element.lifecycle, split[k])];
        lineIndex := lineIndex + 1;
      }
      assert elements[..e + 1][..e] == elements[..e];
    }
    assert elements[..|elements|] == elements;
    return Success(rows);
  }

  method SplitLines(lines: seq<Line>, width: nat) returns (split: seq<Line>)
    requires width >= 1
    ensures split == SplitAll(lines, width)
  {
    hide Split;
    split := [];
    for k := 0 to |lines|
      invariant split == SplitAll(lines[..k], width)
    {
      var parts := SplitLine(lines[k], width);
      assert lines[..k + 1][..k] == lines[..k];
      split := split + parts;
    }
    assert lines[..|lines|] == lines;
  }

  // ---------------------------------------------------------------- numbering against the previous rows

  /** The number of each key; as in a JavaScript Map, the last row with a key wins. */
  function NumberByKey(rows: seq<Row>): map<RowKey, int> {
    if rows == [] then map[]
    else
      var n := |rows| - 1;
      NumberByKey(rows[..n])[KeyOf(rows[n]) := rows[n].absoluteRow]
  }

  function KnownNumbers(rows: seq<Row>, byKey: map<RowKey, int>): seq<Option<int>> {
    seq(|rows|, i requires 0 <= i < |rows| =>
      if KeyOf(rows[i]) in byKey then Some(byKey[KeyOf(rows[i])]) else None)
  }

  function Renumbered(rows: seq<Row>, numbers: seq<int>): seq<Row>
    requires |numbers| == |rows|
  {
    seq(|rows|, i requires 0 <= i < |rows| => rows[i].(absoluteRow := numbers[i]))
  }

  function Preserved(rows: seq<Row>, previous: seq<Row>): seq<Row> {
    Renumbered(rows, Numbers(KnownNumbers(rows, NumberByKey(previous))))
  }

  method PreserveAbsoluteRows(rows: seq<Row>, previous: seq<Row>) returns (result: seq<Row>)
    ensures result == Preserved(rows, previous)
  {
    var byKey := NumberByKey(previous);
    var numbers := PreserveNumbers(KnownNumbers(rows, byKey));
    result := Renumbered(rows, numbers);
  }

  // ---------------------------------------------------------------- what each operation should produce

  function First(rows: seq<Row>): int {
    if rows == [] then 0 else rows[0].absoluteRow
  }

  function MaxTop(rows: seq<Row>, height: int): int {
    if rows == [] then 0 else Max(First(rows), rows[|rows| - 1].absoluteRow - height + 1)
  }

  function StableRows(rows: seq<Row>): seq<Row> {
    if rows == [] then []
    else
      var n := |rows| - 1;
      StableRows(rows[..n]) + (if rows[n].lifecycle == Stable then [rows[n]] else [])
  }

  function RowByNumber(rows: seq<Row>): map<int, Row> {
    if rows == [] then map[]
    else
      var n := |rows| - 1;
      RowByNumber(rows[..n])[rows[n].absoluteRow := rows[n]]
  }

  /** Every committed row is still there, stable and with the same content. */
  predicate CommittedKept(committed: seq<Row>, rows: seq<Row>) {
    var stable := RowByNumber(StableRows(rows));
    forall row :: row in committed ==>
      row.absoluteRow in stable && SignatureOf(row) == SignatureOf(stable[row.absoluteRow])
  }

  function Retained(rows: seq<Row>): (r: seq<Row>)
    ensures |r| <= MAX_RETAINED_ROWS
  {
    if |rows| <= MAX_RETAINED_ROWS then rows else rows[|rows| - MAX_RETAINED_ROWS..]
  }

  function FirstLive(rows: seq<Row>): (k: nat)
    ensures k <= |rows|
    ensures forall i :: 0 <= i < k ==> rows[i].lifecycle == Stable
    ensures k < |rows| ==> rows[k].lifecycle == Live
  {
    if rows == [] || rows[0].lifecycle == Live then 0
    else
      var k := FirstLive(rows[1..]);
      assert rows[0].lifecycle == Stable;
      assert forall i :: 0 < i < 1 + k ==> rows[i] == rows[1..][i - 1] && rows[1..][i - 1].lifecycle == Stable;
      1 + k
  }

  predicate SameLayout(s: Snapshot, width: int, paddingX: int) {
    s.width == width && s.paddingX == paddingX
  }

  /** All rows of the elements with the numbers they get in this buffer. */
  function NumberedRows(s: Snapshot, elements: seq<Element>, width: int, paddingX: int): seq<Row>
    requires width - paddingX * 2 >= 1
  {
    var raw := RowsOf(elements, width - paddingX * 2);
    if SameLayout(s, width, paddingX) then Preserved(raw, s.Rows()) else raw
  }

  /** The snapshot that shows the last rows of a complete numbered list. */
  function Displayed(s: Snapshot, rows: seq<Row>, width: int, paddingX: int): Snapshot {
    var kept := Retained(rows);
    var split := FirstLive(kept);
    var maxTop := MaxTop(kept, s.viewport.height);
    var topRow := if s.viewport.followTail then maxTop else Max(First(kept), Min(s.viewport.topRow, maxTop));
    Snapshot(s.revision + 1, width, paddingX, kept[..split], kept[split..], s.viewport.(topRow := topRow))
  }

  predicate ValidLayout(width: int, paddingX: int) {
    1 <= width <= MAX_SAFE_INTEGER && 0 <= paddingX <= MAX_SAFE_INTEGER && width - paddingX * 2 >= 1
  }

  ghost function Reflowed(s: Snapshot, elements: seq<Element>, width: int, paddingX: int)
    : Result<Snapshot, BufferError>
  {
    if !ValidLayout(width, paddingX) then Failure(InvalidLayout)
    else if !LiveLast(elements) then Failure(StableAfterLive)
    else
      var rows := NumberedRows(s, elements, width, paddingX);
      if SameLayout(s, width, paddingX) && !CommittedKept(s.committed, rows) then Failure(CommittedChanged)
      else Success(Displayed(s, rows, width, paddingX))
  }

  predicate ValidViewport(v: Viewport) {
    0 <= v.topRow <= MAX_SAFE_INTEGER && 0 <= v.height <= MAX_SAFE_INTEGER
  }

  function Scrolled(s: Snapshot, v: Viewport): Result<Snapshot, BufferError> {
    if !ValidViewport(v) then Failure(InvalidViewport)
    else
      var maxTop := MaxTop(s.Rows(), v.height);
      var topRow := Max(First(s.Rows()), Min(v.topRow, maxTop));
      Success(s.(
        revision := s.revision + 1,
        viewport := Viewport(topRow, v.height, topRow == maxTop && v.followTail)))
  }

  function Cleared(s: Snapshot): Snapshot {
    Snapshot(s.revision + 1, s.width, s.paddingX, [], [], Viewport(0, s.viewport.height, true))
  }

  const INITIAL := Snapshot(0, 1, 0, [], [], Viewport(0, 0, true))

  // ---------------------------------------------------------------- the service

  /** The service object. An operation that throws leaves the snapshot as it was. */
  class TuiDisplayBuffer {
    var snapshot: Snapshot
    var disposed: bool

    constructor ()
      ensures snapshot == INITIAL && !disposed
    {
      snapshot := INITIAL;
      disposed := false;
    }

    method Reset() returns (result: Result<Snapshot, BufferError>)
      modifies this`snapshot
      ensures result == if disposed then Failure(Disposed) else Success(Cleared(old(snapshot)))
      ensures snapshot == if result.Success? then result.value else old(snapshot)
    {
      if disposed {
        return Failure(Disposed);
      }
      snapshot := Snapshot(
        snapshot.revision + 1, snapshot.width, snapshot.paddingX, [], [], Viewport(0, snapshot.viewport.height, true));
      return Success(snapshot);
    }

    method Reflow(elements: seq<Element>, width: int, paddingX: int) returns (result: Result<Snapshot, BufferError>)
      modifies this`snapshot
      ensures result == if disposed then Failure(Disposed) else Reflowed(old(snapshot), elements, width, paddingX)
      ensures snapshot == if result.Success? then result.value else old(snapshot)
    {
      hide RowsOf, Preserved, CommittedKept, LiveLast, Retained, FirstLive, First, MaxTop, Max, Min;
      if disposed {
        return Failure(Disposed);
      }
      if width < 1 || width > MAX_SAFE_INTEGER || paddingX < 0 || paddingX > MAX_SAFE_INTEGER
        || width - paddingX * 2 < 1
      {
        return Failure(InvalidLayout);
      }
      var raw := RowsFor(elements, width - paddingX * 2);
      if raw.Failure? {
        return Failure(raw.error);
      }
      var rows := raw.value;
      var layoutChanged := snapshot.width != width || snapshot.paddingX != paddingX;
      if !layoutChanged {
        rows := PreserveAbsoluteRows(rows, snapshot.committed + snapshot.live);
        if !CommittedKept(snapshot.committed, rows) {
          return Failure(CommittedChanged);
        }
      }
      var retained := Retained(rows);
      var split := FirstLive(retained);
      var committed, live := retained[..split], retained[split..];
      assert committed + live == retained;
      var previous := snapshot.viewport;
      var first := First(committed + live);
      var maxTop := MaxTop(committed + live, previous.height);
      var topRow := if previous.followTail then maxTop else Max(first, Min(previous.topRow, maxTop));
      snapshot := Snapshot(
        snapshot.revision + 1, width, paddingX, committed, live,
        Viewport(topRow, previous.height, previous.followTail));
      return Success(snapshot);
    }

    method SetViewport(viewport: Viewport) returns (result: Result<Snapshot, BufferError>)
      modifies this`snapshot
      ensures result == if disposed then Failure(Disposed) else Scrolled(old(snapshot), viewport)
      ensures snapshot == if result.Success? then result.value else old(snapshot)
    {
      if disposed {
        return Failure(Disposed);
      }
      if viewport.topRow < 0 || viewport.topRow > MAX_SAFE_INTEGER
        || viewport.height < 0 || viewport.height > MAX_SAFE_INTEGER
      {
        return Failure(InvalidViewport);
      }
      var rows := snapshot.committed + snapshot.live;
      var maxTop := MaxTop(rows, viewport.height);
      var topRow := Max(First(rows), Min(viewport.topRow, maxTop));
      var followTail := if topRow == maxTop then viewport.followTail else false;
      snapshot := snapshot.(
        revision := snapshot.revision + 1, viewport := Viewport(topRow, viewport.height, followTail));
      return Success(snapshot);
    }

    method Read() returns (result: Result<Snapshot, BufferError>)
      ensures result == if disposed then Failure(Disposed) else Success(snapshot)
    {
      return if disposed then Failure(Disposed) else Success(snapshot);
    }

    method Dispose()
      modifies this`disposed
      ensures disposed
    {
      disposed := true;
    }
  }
}
