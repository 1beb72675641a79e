/** What holds of the display buffer after any sequence of operations. */
module BufferRuns {
  import opened JsIntegers
  import opened Wrappers
  import opened RowNumbers
  import opened DisplayBuffer

  datatype Operation =
    | ResetBuffer
    | ReflowBuffer(elements: seq<Element>, width: int, paddingX: int)
    | ScrollBuffer(viewport: Viewport)

  ghost function Attempt(s: Snapshot, op: Operation): Result<Snapshot, BufferError> {
    match op
    case ResetBuffer => Success(Cleared(s))
    case ReflowBuffer(elements, width, paddingX) => Reflowed(s, elements, width, paddingX)
    case ScrollBuffer(viewport) => Scrolled(s, viewport)
  }

  /** A failed operation changes nothing. */
  ghost function After(s: Snapshot, op: Operation): Snapshot {
    if Attempt(s, op).Success? then Attempt(s, op).value else s
  }

  ghost function Run(ops: seq<Operation>): Snapshot {
    if ops == [] then INITIAL else After(Run(ops[..|ops| - 1]), ops[|ops| - 1])
  }

  ghost predicate Inv(s: Snapshot) {
    && (forall i :: 0 <= i < |s.committed| ==> s.committed[i].lifecycle == Stable)
    && (forall i :: 0 <= i < |s.live| ==> s.live[i].lifecycle == Live)
    && |s.Rows()| <= MAX_RETAINED_ROWS
    && s.viewport.height >= 0
    && First(s.Rows()) <= s.viewport.topRow <= MaxTop(s.Rows(), s.viewport.height)
    && (s.viewport.followTail ==> s.viewport.topRow == MaxTop(s.Rows(), s.viewport.height))
  }

  /** No stable row below a live one. */
  ghost predicate LiveBelow(rows: seq<Row>) {
    forall i, j :: 0 <= i < j < |rows| && rows[i].lifecycle == Live ==> rows[j].lifecycle == Live
  }

  lemma {:induction false} RowsLifecycle(elements: seq<Element>, width: nat, i: nat)
    requires i < |RowsOf(elements, width)|
    ensures exists e :: 0 <= e < |elements| && elements[e].lifecycle == RowsOf(elements, width)[i].lifecycle
  {
    var n := |elements| - 1;
    var before := RowsOf(elements[..n], width);
    if i < |before| {
      RowsLifecycle(elements[..n], width, i);
    } else {
      assert elements[n].lifecycle == RowsOf(elements, width)[i].lifecycle;
    }
  }

  lemma {:induction false} RowsLiveBelow(elements: seq<Element>, width: nat)
    requires LiveLast(elements)
    ensures LiveBelow(RowsOf(elements, width))
  {
    hide SplitAll;
    if elements != [] {
      var n := |elements| - 1;
      var before := RowsOf(elements[..n], width);
      RowsLiveBelow(elements[..n], width);
      forall i | 0 <= i < |before| && before[i].lifecycle == Live ensures elements[n].lifecycle == Live {
        RowsLifecycle(elements[..n], width, i);
      }
    }
  }

  lemma {:induction false} RowsNumbered(elements: seq<Element>, width: nat)
    ensures forall i :: 0 <= i < |RowsOf(elements, width)| ==> RowsOf(elements, width)[i].absoluteRow == i
  {
    hide SplitAll;
    if elements != [] {
      RowsNumbered(elements[..|elements| - 1], width);
    }
  }

  lemma ShownInv(s: Snapshot, rows: seq<Row>, width: int, paddingX: int)
    requires Inv(s) && LiveBelow(rows)
    ensures Inv(Displayed(s, rows, width, paddingX))
    ensures Displayed(s, rows, width, paddingX).Rows() == Retained(rows)
  {
    var kept := Retained(rows);
    KeptInTwo(rows);
    TopInRange(kept, s.viewport.height);
    hide Retained, FirstLive, LiveBelow, First, MaxTop;
    var t := Displayed(s, rows, width, paddingX);
    assert t.Rows() == kept;
  }

  /** The retained rows are stable ones above live ones. */
  lemma KeptInTwo(rows: seq<Row>)
    requires LiveBelow(rows)
    ensures
      var kept := Retained(rows);
      var split := FirstLive(kept);
      && kept[..split] + kept[split..] == kept
      && (forall i :: 0 <= i < |kept[..split]| ==> kept[..split][i].lifecycle == Stable)
      && (forall i :: 0 <= i < |kept[split..]| ==> kept[split..][i].lifecycle == Live)
  {
    RetainedLiveBelow(rows);
    hide *;
    SplitInTwo(Retained(rows), FirstLive(Retained(rows)));
  }

  lemma SplitInTwo(rows: seq<Row>, k: nat)
    requires k <= |rows|
    requires forall i :: 0 <= i < k ==> rows[i].lifecycle == Stable
    requires forall i :: k <= i < |rows| ==> rows[i].lifecycle == Live
    ensures rows[..k] + rows[k..] == rows
    ensures forall i :: 0 <= i < |rows[..k]| ==> rows[..k][i].lifecycle == Stable
    ensures forall i :: 0 <= i < |rows[k..]| ==> rows[k..][i].lifecycle == Live
  {
  }

  lemma TopInRange(rows: seq<Row>, height: int)
    requires height >= 0
    ensures First(rows) <= MaxTop(rows, height)
  {
  }

  lemma RetainedLiveBelow(rows: seq<Row>)
    requires LiveBelow(rows)
    ensures LiveBelow(Retained(rows))
    ensures forall i :: FirstLive(Retained(rows)) <= i < |Retained(rows)| ==> Retained(rows)[i].lifecycle == Live
  {
    var kept := Retained(rows);
    var drop := |rows| - |kept|;
    assert forall i :: 0 <= i < |kept| ==> kept[i] == rows[drop + i];
    hide Retained;
    var k := FirstLive(kept);
    hide FirstLive;
    forall i | k <= i < |kept| ensures kept[i].lifecycle == Live {
      assert kept[k].lifecycle == Live && rows[drop + k] == kept[k] && rows[drop + i] == kept[i];
    }
  }

  lemma NumberedLiveBelow(s: Snapshot, elements: seq<Element>, width: int, paddingX: int)
    requires width - paddingX * 2 >= 1 && LiveLast(elements)
    ensures LiveBelow(NumberedRows(s, elements, width, paddingX))
  {
    hide RowsOf, KnownNumbers, NumberByKey, Numbers;
    RowsLiveBelow(elements, width - paddingX * 2);
  }

  lemma AfterInv(s: Snapshot, op: Operation)
    requires Inv(s)
    ensures Inv(After(s, op))
  {
    if op.ReflowBuffer? && Attempt(s, op).Success? {
      NumberedLiveBelow(s, op.elements, op.width, op.paddingX);
      ShownInv(s, NumberedRows(s, op.elements, op.width, op.paddingX), op.width, op.paddingX);
    }
  }

  /**
   * In every reachable state the committed rows are stable and above all live rows, at most 1000 rows
   * are retained, and the viewport lies within them and sits at the end while it follows the tail.
   */
  lemma {:induction false} ReachableInv(ops: seq<Operation>)
    ensures Inv(Run(ops))
  {
    if ops != [] {
      ReachableInv(ops[..|ops| - 1]);
      AfterInv(Run(ops[..|ops| - 1]), ops[|ops| - 1]);
    }
  }

  /** The revision counts the operations that succeeded, so it grows strictly with each of them. */
  lemma RevisionGrows(s: Snapshot, op: Operation)
    ensures After(s, op).revision == s.revision + if Attempt(s, op).Success? then 1 else 0
    ensures Attempt(s, op).Failure? ==> After(s, op) == s
  {
  }

  // ---------------------------------------------------------------- committed rows only grow

  function NumbersOf(rows: seq<Row>): seq<int> {
    seq(|rows|, i requires 0 <= i < |rows| => rows[i].absoluteRow)
  }

  lemma {:induction false} RowByNumberFinds(rows: seq<Row>, n: int)
    ensures n in RowByNumber(rows) <==> exists i :: 0 <= i < |rows| && rows[i].absoluteRow == n
    ensures n in RowByNumber(rows) ==> RowByNumber(rows)[n] in rows && RowByNumber(rows)[n].absoluteRow == n
  {
    if rows != [] {
      var k := |rows| - 1;
      RowByNumberFinds(rows[..k], n);
      assert rows == rows[..k] + [rows[k]];
      if n in RowByNumber(rows[..k]) {
        var i :| 0 <= i < k && rows[..k][i].absoluteRow == n;
        assert rows[i].absoluteRow == n;
      }
    }
  }

  lemma {:induction false} StableRowsAre(rows: seq<Row>)
    ensures forall r :: r in StableRows(rows) <==> r in rows && r.lifecycle == Stable
  {
    if rows != [] {
      var k := |rows| - 1;
      StableRowsAre(rows[..k]);
      assert rows == rows[..k] + [rows[k]];
    }
  }

  /** After a successful reflow at an unchanged layout each committed row is still a stable row with its content. */
  lemma CommittedStays(s: Snapshot, elements: seq<Element>, width: int, paddingX: int, row: Row)
    requires Reflowed(s, elements, width, paddingX).Success? && SameLayout(s, width, paddingX)
    requires row in s.committed
    ensures exists r :: r in NumberedRows(s, elements, width, paddingX) && r.lifecycle == Stable
                        && r.absoluteRow == row.absoluteRow && SignatureOf(r) == SignatureOf(row)
  {
    var rows := NumberedRows(s, elements, width, paddingX);
    assert CommittedKept(s.committed, rows);
    hide NumberedRows, SignatureOf, Reflowed;
    RowByNumberFinds(StableRows(rows), row.absoluteRow);
    StableRowsAre(rows);
  }

  function KeysOf(rows: seq<Row>): seq<RowKey> {
    seq(|rows|, i requires 0 <= i < |rows| => KeyOf(rows[i]))
  }

  ghost predicate DistinctKeys(rows: seq<Row>) {
    forall i, j :: 0 <= i < j < |rows| ==> KeyOf(rows[i]) != KeyOf(rows[j])
  }

  lemma RenumberedKeys(rows: seq<Row>, previous: seq<Row>)
    ensures KeysOf(Preserved(rows, previous)) == KeysOf(rows)
  {
  }

  lemma NumberedKeys(s: Snapshot, elements: seq<Element>, width: int, paddingX: int)
    requires width - paddingX * 2 >= 1
    ensures
      KeysOf(NumberedRows(s, elements, width, paddingX)) == KeysOf(RowsOf(elements, width - paddingX * 2))
  {
    hide RowsOf;
    RenumberedKeys(RowsOf(elements, width - paddingX * 2), s.Rows());
  }

  lemma SameKeysDistinct(a: seq<Row>, b: seq<Row>)
    requires KeysOf(a) == KeysOf(b) && DistinctKeys(b)
    ensures DistinctKeys(a)
  {
    assert |KeysOf(a)| == |a| && |KeysOf(b)| == |b|;
    forall i, j | 0 <= i < j < |a| ensures KeyOf(a[i]) != KeyOf(a[j]) {
      assert KeysOf(a)[i] == KeysOf(b)[i] && KeysOf(a)[j] == KeysOf(b)[j];
    }
  }

  lemma RetainedDistinct(rows: seq<Row>)
    requires DistinctKeys(rows)
    ensures DistinctKeys(Retained(rows))
    ensures forall r :: r in Retained(rows) ==> r in rows
  {
  }

  lemma ByKey(rows: seq<Row>, r: Row, q: Row)
    requires DistinctKeys(rows) && r in rows && q in rows && KeyOf(r) == KeyOf(q)
    ensures r == q
  {
  }

  /** The elements of a reflow name their rows apart. */
  ghost predicate NamedApart(op: Operation) {
    op.ReflowBuffer? && ValidLayout(op.width, op.paddingX) ==>
      DistinctKeys(RowsOf(op.elements, op.width - op.paddingX * 2))
  }

  lemma AfterDistinct(s: Snapshot, op: Operation)
    requires Inv(s) && DistinctKeys(s.Rows()) && NamedApart(op)
    ensures DistinctKeys(After(s, op).Rows())
  {
    hide NumberedRows, Displayed, RowsOf, DistinctKeys, CommittedKept;
    if op.ReflowBuffer? && Attempt(s, op).Success? {
      ValidIfReflowed(s, op.elements, op.width, op.paddingX);
      DisplayedDistinct(s, op.elements, op.width, op.paddingX);
    } else if op.ResetBuffer? {
      NoRowsDistinct(After(s, op).Rows());
    } else {
      assert After(s, op).Rows() == s.Rows();
    }
  }

  lemma NoRowsDistinct(rows: seq<Row>)
    ensures rows == [] ==> DistinctKeys(rows)
  {
  }

  lemma DisplayedDistinct(s: Snapshot, elements: seq<Element>, width: int, paddingX: int)
    requires Inv(s) && LiveLast(elements) && ValidLayout(width, paddingX)
    requires DistinctKeys(RowsOf(elements, width - paddingX * 2))
    ensures DistinctKeys(Displayed(s, NumberedRows(s, elements, width, paddingX), width, paddingX).Rows())
  {
    var rows := NumberedRows(s, elements, width, paddingX);
    NumberedLiveBelow(s, elements, width, paddingX);
    ShownInv(s, rows, width, paddingX);
    NumberedKeys(s, elements, width, paddingX);
    hide *;
    SameKeysDistinct(rows, RowsOf(elements, width - paddingX * 2));
    RetainedDistinct(rows);
  }

  lemma {:induction false} ReachableDistinct(ops: seq<Operation>)
    requires forall op :: op in ops ==> NamedApart(op)
    ensures DistinctKeys(Run(ops).Rows())
  {
    if ops != [] {
      var n := |ops| - 1;
      ReachableDistinct(ops[..n]);
      ReachableInv(ops[..n]);
      AfterDistinct(Run(ops[..n]), ops[n]);
    }
  }

  /** Whatever now has the row's key is the same row: committed, with the same number and the same content. */
  ghost predicate Unchanged(row: Row, s: Snapshot) {
    forall r :: r in s.Rows() && KeyOf(r) == KeyOf(row) ==>
      r in s.committed && r.absoluteRow == row.absoluteRow && SignatureOf(r) == SignatureOf(row)
  }

  /**
   * A reflow that succeeds at an unchanged layout leaves each committed row that stays as it is. Numbers
   * may collide next to it; by its key the row is still one.
   */
  lemma CommittedContentFixed(s: Snapshot, elements: seq<Element>, width: int, paddingX: int, row: Row)
    requires Inv(s) && Reflowed(s, elements, width, paddingX).Success? && SameLayout(s, width, paddingX)
    requires DistinctKeys(RowsOf(elements, width - paddingX * 2))
    requires row in s.committed
    ensures Unchanged(row, Reflowed(s, elements, width, paddingX).value)
  {
    var rows := NumberedRows(s, elements, width, paddingX);
    var t := Reflowed(s, elements, width, paddingX).value;
    CommittedStays(s, elements, width, paddingX, row);
    NumberedLiveBelow(s, elements, width, paddingX);
    ShownInv(s, rows, width, paddingX);
    NumberedKeys(s, elements, width, paddingX);
    AfterInv(s, ReflowBuffer(elements, width, paddingX));
    hide *;
    SameKeysDistinct(rows, RowsOf(elements, width - paddingX * 2));
    RetainedDistinct(rows);
    var r0 :| r0 in rows && r0.lifecycle == Stable
              && r0.absoluteRow == row.absoluteRow && SignatureOf(r0) == SignatureOf(row);
    FoundAgain(rows, t, row, r0);
  }

  lemma FoundAgain(rows: seq<Row>, t: Snapshot, row: Row, found: Row)
    requires DistinctKeys(rows) && Inv(t) && forall r :: r in t.Rows() ==> r in rows
    requires found in rows && found.lifecycle == Stable
    requires found.absoluteRow == row.absoluteRow && SignatureOf(found) == SignatureOf(row)
    ensures Unchanged(row, t)
  {
    hide LineSignature, First, MaxTop;
    forall r | r in t.Rows() && KeyOf(r) == KeyOf(row) ensures r == found && r in t.committed {
      ByKey(rows, r, found);
      assert r in t.committed || r in t.live;
    }
  }

  lemma ValidIfReflowed(s: Snapshot, elements: seq<Element>, width: int, paddingX: int)
    requires Reflowed(s, elements, width, paddingX).Success?
    ensures ValidLayout(width, paddingX)
  {
    hide LiveLast, NumberedRows, CommittedKept, Displayed;
  }

  ghost predicate HasKey(s: Snapshot, key: RowKey) {
    exists r :: r in s.Rows() && KeyOf(r) == key
  }

  /** No reflow that changes the layout succeeds. */
  ghost predicate LayoutStays(s: Snapshot, op: Operation) {
    op.ReflowBuffer? && Attempt(s, op).Success? ==> SameLayout(s, op.width, op.paddingX)
  }

  lemma NothingAfterReset(s: Snapshot, key: RowKey)
    ensures !HasKey(After(s, ResetBuffer), key)
  {
    assert After(s, ResetBuffer).Rows() == [];
  }

  lemma CommittedAfter(s: Snapshot, op: Operation, row: Row)
    requires Inv(s) && DistinctKeys(s.Rows()) && NamedApart(op) && LayoutStays(s, op)
    requires row in s.committed && HasKey(After(s, op), KeyOf(row))
    ensures Unchanged(row, After(s, op))
  {
    NothingAfterReset(s, KeyOf(row));
    hide Reflowed, RowsOf, DistinctKeys, Unchanged, Inv, SameLayout, HasKey;
    if op.ReflowBuffer? && Attempt(s, op).Success? {
      ValidIfReflowed(s, op.elements, op.width, op.paddingX);
      CommittedContentFixed(s, op.elements, op.width, op.paddingX, row);
    } else if !op.ResetBuffer? {
      assert After(s, op).Rows() == s.Rows() && After(s, op).committed == s.committed;
      OnlyWithItsKey(After(s, op), row);
    }
  }

  lemma StillUnchanged(row: Row, s: Snapshot, t: Snapshot)
    requires Unchanged(row, s) && HasKey(s, KeyOf(row))
    requires forall r :: r in s.committed && KeyOf(r) == KeyOf(row) ==> Unchanged(r, t)
    ensures Unchanged(row, t)
  {
    var r :| r in s.Rows() && KeyOf(r) == KeyOf(row);
    assert r in s.committed;
  }

  /** The row is committed after k operations, and from there on the layout stays and the row is retained. */
  ghost predicate StaysRetained(ops: seq<Operation>, k: nat, row: Row)
    decreases |ops|
  {
    && HasKey(Run(ops), KeyOf(row))
    && if |ops| <= k then |ops| == k && row in Run(ops).committed
       else
         var n := |ops| - 1;
         StaysRetained(ops[..n], k, row) && LayoutStays(Run(ops[..n]), ops[n])
  }

  lemma StayedRetained(ops: seq<Operation>, k: nat, row: Row)
    requires StaysRetained(ops, k, row) && k < |ops|
    ensures
      var n := |ops| - 1;
      && StaysRetained(ops[..n], k, row) && LayoutStays(Run(ops[..n]), ops[n])
      && HasKey(Run(ops[..n]), KeyOf(row)) && HasKey(Run(ops), KeyOf(row))
  {
    hide Run, LayoutStays, HasKey, KeyOf;
  }

  /**
   * Once a row is committed, then as long as the layout stays and the row is retained, its number and its
   * content never change, whatever the operations in between.
   */
  lemma {:induction false} CommittedForGood(ops: seq<Operation>, k: nat, row: Row)
    requires forall op :: op in ops ==> NamedApart(op)
    requires StaysRetained(ops, k, row)
    ensures Unchanged(row, Run(ops))
    decreases |ops|
  {
    assert |ops| <= k ==> row in Run(ops).committed;
    hide *;
    if |ops| <= k {
      ReachableDistinct(ops);
      OnlyWithItsKey(Run(ops), row);
    } else {
      var n := |ops| - 1;
      StayedRetained(ops, k, row);
      CommittedForGood(ops[..n], k, row);
      ReachableInv(ops[..n]);
      ReachableDistinct(ops[..n]);
      RunOne(ops);
      CommittedOneMore(Run(ops[..n]), ops[n], row);
    }
  }

  lemma CommittedOneMore(s: Snapshot, op: Operation, row: Row)
    requires Inv(s) && DistinctKeys(s.Rows()) && NamedApart(op) && LayoutStays(s, op)
    requires Unchanged(row, s) && HasKey(s, KeyOf(row)) && HasKey(After(s, op), KeyOf(row))
    ensures Unchanged(row, After(s, op))
  {
    var t := After(s, op);
    hide Inv, DistinctKeys, NamedApart, LayoutStays, After, Unchanged;
    forall r | r in s.committed && KeyOf(r) == KeyOf(row) ensures Unchanged(r, t) {
      CommittedAfter(s, op, r);
    }
    StillUnchanged(row, s, t);
  }

  lemma RunOne(ops: seq<Operation>)
    requires ops != []
    ensures Run(ops) == After(Run(ops[..|ops| - 1]), ops[|ops| - 1])
  {
  }

  lemma OnlyWithItsKey(s: Snapshot, row: Row)
    requires DistinctKeys(s.Rows()) && row in s.committed
    ensures Unchanged(row, s)
  {
    forall r | r in s.Rows() && KeyOf(r) == KeyOf(row) ensures r == row {
      ByKey(s.Rows(), r, row);
    }
  }

  /**
   * The same by number, where the new rows are numbered consecutively: the number of a committed row is
   * found again while it is in range, and whatever has it is stable with the same content.
   */
  lemma CommittedByNumber(s: Snapshot, elements: seq<Element>, width: int, paddingX: int, row: Row)
    requires Inv(s) && Reflowed(s, elements, width, paddingX).Success? && SameLayout(s, width, paddingX)
    requires Consecutive(NumbersOf(NumberedRows(s, elements, width, paddingX)))
    requires row in s.committed
    ensures
      var t := Reflowed(s, elements, width, paddingX).value;
      && (row.absoluteRow >= First(t.Rows()) && t.Rows() != [] ==>
            exists r :: r in t.committed && r.absoluteRow == row.absoluteRow)
      && (forall r :: r in t.Rows() && r.absoluteRow == row.absoluteRow ==>
            r.lifecycle == Stable && SignatureOf(r) == SignatureOf(row))
  {
    var rows := NumberedRows(s, elements, width, paddingX);
    var t := Reflowed(s, elements, width, paddingX).value;
    CommittedStays(s, elements, width, paddingX, row);
    NumberedLiveBelow(s, elements, width, paddingX);
    ShownInv(s, rows, width, paddingX);
    AfterInv(s, ReflowBuffer(elements, width, paddingX));
    hide NumberedRows, SignatureOf, Reflowed, Displayed;
    var r0 :| r0 in rows && r0.lifecycle == Stable
              && r0.absoluteRow == row.absoluteRow && SignatureOf(r0) == SignatureOf(row);
    OnlyRowWithNumber(rows, r0);
    RetainedFromFirst(rows, r0);
    if row.absoluteRow >= First(t.Rows()) && t.Rows() != [] {
      assert r0 in t.committed + t.live;
      assert r0 in t.committed;
    }
  }

  lemma OnlyRowWithNumber(rows: seq<Row>, row: Row)
    requires Consecutive(NumbersOf(rows)) && row in rows
    ensures forall r :: r in rows && r.absoluteRow == row.absoluteRow ==> r == row
    ensures forall r :: r in Retained(rows) ==> r in rows
  {
    var i :| 0 <= i < |rows| && rows[i] == row;
    forall r | r in rows && r.absoluteRow == row.absoluteRow ensures r == row {
      var j :| 0 <= j < |rows| && rows[j] == r;
      assert NumbersOf(rows)[j] == NumbersOf(rows)[i];
    }
  }

  lemma RetainedFromFirst(rows: seq<Row>, row: Row)
    requires Consecutive(NumbersOf(rows)) && row in rows && Retained(rows) != []
    ensures row.absoluteRow >= First(Retained(rows)) <==> row in Retained(rows)
  {
    var kept := Retained(rows);
    var cut := |rows| - |kept|;
    assert kept == rows[cut..];
    hide *;
    forall k | 0 <= k < |rows| ensures rows[k].absoluteRow == rows[0].absoluteRow + k {
      NumberAt(rows, k);
    }
    FromCut(rows, cut, row);
    assert First(rows[cut..]) == rows[cut].absoluteRow by {
      FirstIs(rows[cut..]);
    }
  }

  lemma NumberAt(rows: seq<Row>, k: nat)
    requires Consecutive(NumbersOf(rows)) && k < |rows|
    ensures rows[k].absoluteRow == rows[0].absoluteRow + k
  {
    assert NumbersOf(rows)[k] == NumbersOf(rows)[0] + k;
  }

  lemma FirstIs(rows: seq<Row>)
    requires rows != []
    ensures First(rows) == rows[0].absoluteRow
  {
  }

  lemma FromCut(rows: seq<Row>, cut: nat, row: Row)
    requires cut < |rows| && row in rows
    requires forall k :: 0 <= k < |rows| ==> rows[k].absoluteRow == rows[0].absoluteRow + k
    ensures row.absoluteRow >= rows[cut].absoluteRow <==> row in rows[cut..]
  {
    var i :| 0 <= i < |rows| && rows[i] == row;
    if i >= cut {
      assert rows[cut..][i - cut] == row;
    }
    if row in rows[cut..] {
      var j :| 0 <= j < |rows| - cut && rows[cut..][j] == row;
      assert rows[cut + j] == row;
    }
  }

  // ---------------------------------------------------------------- stable numbering

  ghost predicate Numbered(s: Snapshot) {
    Consecutive(NumbersOf(s.Rows()))
  }

  /** Elements with different ids give rows with different keys. */
  lemma {:induction false} ElementsGiveDistinctKeys(elements: seq<Element>, width: nat)
    requires forall i, j :: 0 <= i < j < |elements| ==>
      elements[i].elementId != elements[j].elementId || elements[i].sourceId != elements[j].sourceId
    ensures DistinctKeys(RowsOf(elements, width))
    ensures forall r :: r in RowsOf(elements, width) ==>
      exists i :: 0 <= i < |elements| && r.elementId == elements[i].elementId && r.sourceId == elements[i].sourceId
  {
    hide SplitAll;
    if elements != [] {
      var n := |elements| - 1;
      var before, last := RowsOf(elements[..n], width), ElementRows(elements[n], |RowsOf(elements[..n], width)|, width);
      ElementsGiveDistinctKeys(elements[..n], width);
      forall r | r in before
        ensures exists i :: 0 <= i < n && r.elementId == elements[i].elementId && r.sourceId == elements[i].sourceId
      {
        var i :| 0 <= i < n && r.elementId == elements[..n][i].elementId && r.sourceId == elements[..n][i].sourceId;
        assert elements[i] == elements[..n][i];
      }
      forall i, j | 0 <= i < |before| && 0 <= j < |last| ensures KeyOf(before[i]) != KeyOf(last[j]) {
        assert before[i] in before;
      }
    }
  }

  lemma {:induction false} NumberByKeyFinds(rows: seq<Row>, key: RowKey)
    ensures key in NumberByKey(rows) <==> exists i :: 0 <= i < |rows| && KeyOf(rows[i]) == key
    ensures DistinctKeys(rows) ==>
      forall i :: 0 <= i < |rows| && KeyOf(rows[i]) == key ==>
        key in NumberByKey(rows) && NumberByKey(rows)[key] == rows[i].absoluteRow
  {
    if rows != [] {
      var k := |rows| - 1;
      NumberByKeyFinds(rows[..k], key);
      assert forall i :: 0 <= i < k ==> rows[..k][i] == rows[i];
    }
  }

  /**
   * Appending rows, prepending history, or showing evicted rows again: when the new rows are unseen
   * ones, a run of the previous rows, and unseen ones, then the run keeps its numbers and all numbers
   * are consecutive.
   */
  lemma StableNumbering(previous: seq<Row>, rows: seq<Row>, a: nat, b: nat, p: nat)
    requires a < b <= |previous| && p + (b - a) <= |rows|
    requires DistinctKeys(previous) && Consecutive(NumbersOf(previous))
    requires KeysOf(rows)[p..p + (b - a)] == KeysOf(previous)[a..b]
    requires forall i, j :: 0 <= i < |rows| && !(p <= i < p + (b - a)) && 0 <= j < |previous| ==>
      KeyOf(rows[i]) != KeyOf(previous[j])
    ensures
      var now := Preserved(rows, previous);
      && Consecutive(NumbersOf(now))
      && NumbersOf(now)[p..p + (b - a)] == NumbersOf(previous)[a..b]
  {
    var kept := NumbersOf(previous)[a..b];
    var known := KnownNumbers(rows, NumberByKey(previous));
    var after := |rows| - p - (b - a);
    SliceConsecutive(NumbersOf(previous), a, b);
    forall i | 0 <= i < |rows|
      ensures known[i] == if p <= i < p + (b - a) then Some(kept[i - p]) else None
    {
      NumberByKeyFinds(previous, KeyOf(rows[i]));
      if p <= i < p + (b - a) {
        assert KeysOf(rows)[p..p + (b - a)][i - p] == KeysOf(previous)[a..b][i - p];
      }
    }
    assert known ==
      seq(p, _ => None) + seq(|kept|, i requires 0 <= i < |kept| => Some(kept[i])) + seq(after, _ => None);
    AroundKept(p, kept, after);
    assert NumbersOf(Preserved(rows, previous)) == Numbers(known);
  }

  lemma SliceConsecutive(numbers: seq<int>, a: nat, b: nat)
    requires Consecutive(numbers) && a <= b <= |numbers|
    ensures Consecutive(numbers[a..b])
  {
    var slice := numbers[a..b];
    forall i | 0 <= i < |slice| ensures slice[i] == slice[0] + i {
      assert slice[i] == numbers[a + i] && slice[0] == numbers[a];
    }
  }

  /** The exact condition of one reflow: kept rows must be as far apart as their numbers say. */
  ghost predicate Steady(s: Snapshot, op: Operation) {
    op.ReflowBuffer? && ValidLayout(op.width, op.paddingX) && SameLayout(s, op.width, op.paddingX) ==>
      Spaced(KnownNumbers(RowsOf(op.elements, op.width - op.paddingX * 2), NumberByKey(s.Rows())))
  }

  lemma NumberedRowsIff(s: Snapshot, elements: seq<Element>, width: int, paddingX: int)
    requires ValidLayout(width, paddingX)
    ensures Consecutive(NumbersOf(NumberedRows(s, elements, width, paddingX)))
            <==> Steady(s, ReflowBuffer(elements, width, paddingX))
  {
    hide RowsOf, KnownNumbers, NumberByKey, Numbers, Consecutive, Spaced;
    var raw := RowsOf(elements, width - paddingX * 2);
    if SameLayout(s, width, paddingX) {
      var known := KnownNumbers(raw, NumberByKey(s.Rows()));
      PreservedNumbers(raw, s.Rows());
      ConsecutiveIff(known);
    } else {
      RowsNumbered(elements, width - paddingX * 2);
      PositionsConsecutive(raw);
    }
  }

  lemma PreservedNumbers(rows: seq<Row>, previous: seq<Row>)
    ensures NumbersOf(Preserved(rows, previous)) == Numbers(KnownNumbers(rows, NumberByKey(previous)))
  {
    hide Number, NumberByKey;
  }

  lemma PositionsConsecutive(rows: seq<Row>)
    requires forall i :: 0 <= i < |rows| ==> rows[i].absoluteRow == i
    ensures Consecutive(NumbersOf(rows))
  {
  }

  lemma RetainedNumbered(rows: seq<Row>)
    requires Consecutive(NumbersOf(rows))
    ensures Consecutive(NumbersOf(Retained(rows)))
  {
    var kept := Retained(rows);
    var cut := |rows| - |kept|;
    SliceConsecutive(NumbersOf(rows), cut, |rows|);
    assert NumbersOf(kept) == NumbersOf(rows)[cut..|rows|];
  }

  lemma AfterNumbered(s: Snapshot, op: Operation)
    requires Inv(s) && Numbered(s) && Steady(s, op)
    ensures Numbered(After(s, op))
  {
    if op.ReflowBuffer? && Attempt(s, op).Success? {
      var rows := NumberedRows(s, op.elements, op.width, op.paddingX);
      NumberedLiveBelow(s, op.elements, op.width, op.paddingX);
      ShownInv(s, rows, op.width, op.paddingX);
      NumberedRowsIff(s, op.elements, op.width, op.paddingX);
      RetainedNumbered(rows);
    }
  }

  ghost predicate SteadyRun(ops: seq<Operation>) {
    ops != [] ==>
      var n := |ops| - 1;
      SteadyRun(ops[..n]) && Steady(Run(ops[..n]), ops[n])
  }

  /** Over any run of steady operations the retained rows are numbered consecutively. */
  lemma {:induction false} ReachableNumbered(ops: seq<Operation>)
    requires SteadyRun(ops)
    ensures Numbered(Run(ops))
  {
    if ops != [] {
      var n := |ops| - 1;
      ReachableNumbered(ops[..n]);
      ReachableInv(ops[..n]);
      AfterNumbered(Run(ops[..n]), ops[n]);
    }
  }
}
