/** Absolute row numbers across reflows: rows seen before keep their number, new rows are numbered around them. */
module RowNumbers {
  import opened Wrappers

  /** The first place after `i` that already has a number, or the length. */
  function NextKnown(known: seq<Option<int>>, i: nat): (j: nat)
    requires i < |known|
    ensures i < j <= |known|
    ensures j < |known| ==> known[j].Some?
    ensures forall k :: i < k < j ==> known[k].None?
    decreases |known| - i
  {
    if i + 1 == |known| || known[i + 1].Some? then i + 1 else NextKnown(known, i + 1)
  }

  /**
   * The number of a row: its own if it has one, else counted back from the next row that has one,
   * else counted on from the last row that has one, else its position.
   */
  function Number(known: seq<Option<int>>, i: nat): int
    requires i < |known|
  {
    if known[i].Some? then known[i].value
    else
      var j := NextKnown(known, i);
      if j < |known| then known[j].value - (j - i)
      else if LastKnown(known, i) >= 0 then known[LastKnown(known, i)].value + (i - LastKnown(known, i))
      else i
  }

  /** The last place before `i` that already has a number, or -1. */
  function LastKnown(known: seq<Option<int>>, i: nat): (j: int)
    requires i <= |known|
    ensures -1 <= j < i
    ensures j >= 0 ==> known[j].Some?
    ensures forall k :: j < k < i ==> known[k].None?
  {
    if i == 0 then -1 else if known[i - 1].Some? then i - 1 else LastKnown(known, i - 1)
  }

  function Numbers(known: seq<Option<int>>): seq<int> {
    seq(|known|, i requires 0 <= i < |known| => Number(known, i))
  }

  /** A gap between two places is numbered from its right edge if that has a number, else from its left edge. */
  lemma GapNumber(known: seq<Option<int>>, start: nat, end: nat, i: nat)
    requires start <= i < end <= |known|
    requires forall k :: start <= k < end ==> known[k].None?
    requires start > 0 ==> known[start - 1].Some?
    requires end < |known| ==> known[end].Some?
    ensures Number(known, i) ==
      (if end < |known| then known[end].value - (end - start)
       else if start > 0 then known[start - 1].value + 1 else 0) + (i - start)
  {
    var j, l := NextKnown(known, i), LastKnown(known, i);
    assert j == end;
    assert l == start - 1;
  }

  /** The in-place numbering: each run of unnumbered rows is filled when its right edge is reached. */
  method PreserveNumbers(known: seq<Option<int>>) returns (numbers: seq<int>)
    ensures numbers == Numbers(known)
  {
    hide *;
    var n := |known|;
    var slots := new Option<int>[n](i requires 0 <= i < n => known[i]);
    var index := 0;
    while index < n
      invariant 0 <= index <= n
      invariant index > 0 && index < n ==> known[index - 1].Some? || known[index].Some?
      invariant forall i :: 0 <= i < index ==> slots[i] == Some(Number(known, i))
      invariant forall i :: index <= i < n ==> slots[i] == known[i]
    {
      if slots[index].Some? {
        KnownNumber(known, index);
        index := index + 1;
        continue;
      }
      var start := index;
      while index < n && slots[index].None?
        invariant start <= index <= n
        invariant forall i :: start <= i < index ==> known[i].None?
        decreases n - index
      {
        index := index + 1;
      }
      var first :=
        if index < n then slots[index].value - (index - start)
        else if start > 0 && slots[start - 1].Some? then slots[start - 1].value + 1
        else 0;
      for offset := 0 to index - start
        invariant forall i :: 0 <= i < start ==> slots[i] == Some(Number(known, i))
        invariant forall i :: start <= i < start + offset ==> slots[i] == Some(first + (i - start))
        invariant forall i :: start + offset <= i < n ==> slots[i] == known[i]
      {
        slots[start + offset] := Some(first + offset);
      }
      if start > 0 {
        KnownNumber(known, start - 1);
      }
      forall i | start <= i < index ensures slots[i] == Some(Number(known, i)) {
        GapNumber(known, start, index, i);
      }
    }
    numbers := [];
    for i := 0 to n
      invariant |numbers| == i
      invariant forall j :: 0 <= j < i ==> numbers[j] == Number(known, j)
      invariant forall j :: 0 <= j < n ==> slots[j] == Some(Number(known, j))
    {
      numbers := numbers + [slots[i].value];
    }
    NumbersAre(known, numbers);
  }

  lemma KnownNumber(known: seq<Option<int>>, i: nat)
    requires i < |known| && known[i].Some?
    ensures Number(known, i) == known[i].value
  {
  }

  lemma NumbersAre(known: seq<Option<int>>, numbers: seq<int>)
    requires |numbers| == |known| && forall i :: 0 <= i < |known| ==> numbers[i] == Number(known, i)
    ensures numbers == Numbers(known)
  {
  }

  // ---------------------------------------------------------------- consecutive numbering

  ghost predicate Consecutive(numbers: seq<int>) {
    forall i :: 0 <= i < |numbers| ==> numbers[i] == numbers[0] + i
  }

  /** The rows that keep their numbers are as far apart now as their numbers say. */
  ghost predicate Spaced(known: seq<Option<int>>) {
    forall i, j :: 0 <= i < j < |known| && known[i].Some? && known[j].Some? ==>
      known[j].value - known[i].value == j - i
  }

  /** The result is consecutive exactly when the kept rows are spaced as their numbers say. */
  lemma ConsecutiveIff(known: seq<Option<int>>)
    ensures Consecutive(Numbers(known)) <==> Spaced(known)
  {
    if Consecutive(Numbers(known)) {
      forall i, j | 0 <= i < j < |known| && known[i].Some? && known[j].Some?
        ensures known[j].value - known[i].value == j - i
      {
        assert Numbers(known)[i] == known[i].value && Numbers(known)[j] == known[j].value;
      }
    }
    if Spaced(known) {
      forall i | 0 <= i < |known| ensures Number(known, i) == Number(known, 0) + i {
        SpacedNumber(known, i);
        SpacedNumber(known, 0);
      }
    }
  }

  lemma SpacedNumber(known: seq<Option<int>>, i: nat)
    requires Spaced(known) && i < |known|
    ensures forall k :: 0 <= k < |known| && known[k].Some? ==> Number(known, i) == known[k].value + (i - k)
    ensures (forall k :: 0 <= k < |known| ==> known[k].None?) ==> Number(known, i) == i
  {
    if k :| 0 <= k < |known| && known[k].Some? {
      var j, l := NextKnown(known, i), LastKnown(known, i);
    }
  }

  /** New rows above and below a run of kept rows: the kept rows keep their numbers, all are consecutive. */
  lemma AroundKept(before: nat, kept: seq<int>, after: nat)
    requires kept != [] && Consecutive(kept)
    ensures
      var known :=
        seq(before, _ => None) + seq(|kept|, i requires 0 <= i < |kept| => Some(kept[i])) + seq(after, _ => None);
      && Consecutive(Numbers(known))
      && Numbers(known)[before..before + |kept|] == kept
  {
    var known: seq<Option<int>> :=
      seq(before, _ => None) + seq(|kept|, i requires 0 <= i < |kept| => Some(kept[i])) + seq(after, _ => None);
    assert forall i :: 0 <= i < |known| && known[i].Some? ==>
      before <= i < before + |kept| && known[i].value == kept[i - before];
    assert Spaced(known);
    ConsecutiveIff(known);
    forall i | 0 <= i < |kept| ensures Numbers(known)[before + i] == kept[i] {
      assert known[before + i] == Some(kept[i]);
    }
  }

  /**
   * Rows inserted between two rows that were neighbours are numbered back from the lower one, so the last
   * of them takes the number of the upper one.
   */
  lemma InsertedRowCollides(known: seq<Option<int>>, i: nat, j: nat)
    requires i + 1 < j < |known| && known[i].Some? && known[j].Some?
    requires known[j].value == known[i].value + 1
    requires forall k :: i < k < j ==> known[k].None?
    ensures Numbers(known)[j - 1] == known[i].value == Numbers(known)[i]
    ensures forall k :: i < k < j ==> Numbers(known)[k] == known[i].value - (j - 1 - k)
    ensures !Consecutive(Numbers(known))
  {
    forall k | i < k < j ensures Number(known, k) == known[i].value - (j - 1 - k) {
      GapNumber(known, i + 1, j, k);
    }
    KnownNumber(known, i);
    assert !Spaced(known);
    ConsecutiveIff(known);
  }
}
