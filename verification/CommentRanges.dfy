/** HTML comments in Markdown: where they are, and whether a line still shows text without them. */
module CommentRanges {
  import opened JsIntegers
  import opened StableSort
  import opened TextLines
  import opened Wrappers

  datatype Range = Range(start: nat, end: nat)

  ghost predicate Covers(r: Range, i: nat) {
    r.start <= i < r.end
  }

  ghost predicate Covered(ranges: seq<Range>, i: nat) {
    exists r :: r in ranges && Covers(r, i)
  }

  // ---------------------------------------------------------------- scanning for comments

  const OPENING := "<!--"

  const CLOSING := "-->"

  /** The next comment from a position outside all comments; one that is never closed ends with the text. */
  function NextComment(s: string, cursor: nat): (r: Option<Range>)
    ensures r.Some? ==> cursor <= r.value.start < r.value.end <= |s|
  {
    IndexOfFirst(s, OPENING, cursor);
    var start := IndexOf(s, OPENING, cursor);
    if start.None? then None
    else
      IndexOfFirst(s, CLOSING, start.value + 4);
      var close := IndexOf(s, CLOSING, start.value + 4);
      Some(Range(start.value, if close.None? then |s| else close.value + 3))
  }

  /** The comments of one HTML node, at their offsets in the source. */
  function Comments(s: string, cursor: nat, offset: nat): seq<Range>
    decreases |s| - cursor
  {
    var next := NextComment(s, cursor);
    if next.None? then []
    else [Range(offset + next.value.start, offset + next.value.end)] + Comments(s, next.value.end, offset)
  }

  method ScanComments(value: string, offset: nat) returns (comments: seq<Range>)
    ensures comments == Comments(value, 0, offset)
  {
    comments := [];
    var cursor := 0;
    hide NextComment;
    while true
      invariant cursor <= |value|
      invariant Comments(value, 0, offset) == comments + Comments(value, cursor, offset)
      decreases |value| - cursor
    {
      var next := NextComment(value, cursor);
      if next.None? {
        break;
      }
      comments := comments + [Range(offset + next.value.start, offset + next.value.end)];
      cursor := next.value.end;
    }
  }

  // ---------------------------------------------------------------- reading character by character

  /** Whether position `i` is in a comment, for a reader that stands at `at` outside of any. */
  ghost predicate InText(s: string, at: nat, i: nat)
    requires at <= i < |s|
    decreases |s| - at
  {
    if StartsAt(s, at, OPENING) then i < at + 4 || InBody(s, at + 4, i)
    else i > at && InText(s, at + 1, i)
  }

  /** The same for a reader inside a comment, which ends at the first closing mark or with the text. */
  ghost predicate InBody(s: string, at: nat, i: nat)
    requires at <= i < |s|
    decreases |s| - at
  {
    if StartsAt(s, at, CLOSING) then i < at + 3 || InText(s, at + 3, i)
    else i == at || InBody(s, at + 1, i)
  }

  lemma {:induction false} TextUntil(s: string, at: nat, to: nat, i: nat)
    requires at <= to <= |s| && at <= i < |s|
    requires forall k {:trigger StartsAt(s, k, OPENING)} :: at <= k < to ==> !StartsAt(s, k, OPENING)
    ensures InText(s, at, i) <==> i >= to && InText(s, to, i)
    decreases |s| - at
  {
    hide StartsAt;
    if at < to && at < i {
      TextUntil(s, at + 1, to, i);
    }
  }

  lemma {:induction false} BodyUntil(s: string, at: nat, to: nat, i: nat)
    requires at <= to <= |s| && at <= i < |s|
    requires forall k {:trigger StartsAt(s, k, CLOSING)} :: at <= k < to ==> !StartsAt(s, k, CLOSING)
    ensures InBody(s, at, i) <==> i < to || InBody(s, to, i)
    decreases |s| - at
  {
    hide StartsAt;
    if at < to && at < i {
      BodyUntil(s, at + 1, to, i);
    }
  }

  lemma {:induction false} CommentsAscend(s: string, cursor: nat, offset: nat)
    requires cursor <= |s|
    ensures forall r :: r in Comments(s, cursor, offset) ==> offset + cursor <= r.start < r.end <= offset + |s|
    decreases |s| - cursor
  {
    hide NextComment;
    var next := NextComment(s, cursor);
    if next.Some? {
      CommentsAscend(s, next.value.end, offset);
    }
  }

  lemma CoveredFirst(first: Range, rest: seq<Range>, i: nat)
    ensures Covered([first] + rest, i) <==> Covers(first, i) || Covered(rest, i)
  {
    if Covers(first, i) {
      assert first in [first] + rest;
    }
    if Covered(rest, i) {
      var r :| r in rest && Covers(r, i);
      assert r in [first] + rest;
    }
  }

  /** What the reader sees up to the end of the next comment. */
  lemma NextCommentIsRead(s: string, cursor: nat, i: nat)
    requires cursor <= i < |s|
    ensures
      match NextComment(s, cursor)
      case None => !InText(s, cursor, i)
      case Some(r) => InText(s, cursor, i) <==> Covers(r, i) || (i >= r.end && InText(s, r.end, i))
  {
    hide InText, InBody, IndexOf;
    IndexOfFirst(s, OPENING, cursor);
    var start := IndexOf(s, OPENING, cursor);
    if start.None? {
      TextUntil(s, cursor, |s|, i);
    } else {
      MarkFits(s, start.value, OPENING);
      hide StartsAt;
      TextUntil(s, cursor, start.value, i);
      if i >= start.value {
        BodyIsRead(s, start.value, i);
      }
    }
  }

  /** From an opening mark to the end of its comment. */
  lemma BodyIsRead(s: string, from: nat, i: nat)
    requires StartsAt(s, from, OPENING) && from <= i < |s| && from + 4 <= |s|
    ensures
      var close := IndexOf(s, CLOSING, from + 4);
      var end := if close.None? then |s| else close.value + 3;
      InText(s, from, i) <==> i < end || (i >= end && InText(s, end, i))
  {
    hide InText, InBody, IndexOf;
    IndexOfFirst(s, CLOSING, from + 4);
    AtOpening(s, from, i);
    var close := IndexOf(s, CLOSING, from + 4);
    if close.Some? {
      MarkFits(s, close.value, CLOSING);
    }
    hide StartsAt;
    if i >= from + 4 {
      BodyUntil(s, from + 4, if close.None? then |s| else close.value, i);
      if close.Some? && i >= close.value {
        AtClosing(s, close.value, i);
      }
    }
  }

  lemma AtOpening(s: string, at: nat, i: nat)
    requires StartsAt(s, at, OPENING) && at <= i < |s|
    ensures InText(s, at, i) <==> i < at + 4 || InBody(s, at + 4, i)
  {
  }

  lemma AtClosing(s: string, at: nat, i: nat)
    requires StartsAt(s, at, CLOSING) && at <= i < |s|
    ensures InBody(s, at, i) <==> i < at + 3 || InText(s, at + 3, i)
  {
  }

  /** The index searches find exactly the comments that a character-by-character reader sees. */
  lemma {:induction false} ScanFindsComments(s: string, cursor: nat, offset: nat, i: nat)
    requires cursor <= i < |s|
    ensures Covered(Comments(s, cursor, offset), offset + i) <==> InText(s, cursor, i)
    decreases |s| - cursor
  {
    NextCommentIsRead(s, cursor, i);
    hide NextComment, InText;
    var next := NextComment(s, cursor);
    if next.Some? {
      var first := Range(offset + next.value.start, offset + next.value.end);
      CoveredFirst(first, Comments(s, next.value.end, offset), offset + i);
      CommentsAscend(s, next.value.end, offset);
      if i >= next.value.end {
        ScanFindsComments(s, next.value.end, offset, i);
      }
    }
  }

  /** An HTML node of the parsed document, with its place in the source. */
  datatype Html = Html(value: string, offset: nat)

  function AllComments(nodes: seq<Html>): seq<Range> {
    if nodes == [] then []
    else
      var n := |nodes| - 1;
      AllComments(nodes[..n]) + Comments(nodes[n].value, 0, nodes[n].offset)
  }

  /** A source offset is in a comment if some node's own text puts it there. */
  ghost predicate InComment(nodes: seq<Html>, at: nat) {
    exists k :: 0 <= k < |nodes| && InNode(nodes[k], at)
  }

  ghost predicate InNode(node: Html, at: nat) {
    node.offset <= at < node.offset + |node.value| && InText(node.value, 0, at - node.offset)
  }

  lemma CoveredAppend(a: seq<Range>, b: seq<Range>, i: nat)
    ensures Covered(a + b, i) <==> Covered(a, i) || Covered(b, i)
  {
    if Covered(a, i) {
      var r :| r in a && Covers(r, i);
      assert r in a + b;
    }
    if Covered(b, i) {
      var r :| r in b && Covers(r, i);
      assert r in a + b;
    }
  }

  lemma NodeComments(node: Html, at: nat)
    ensures Covered(Comments(node.value, 0, node.offset), at) <==> InNode(node, at)
  {
    CommentsAscend(node.value, 0, node.offset);
    hide Comments;
    if node.offset <= at < node.offset + |node.value| {
      ScanFindsComments(node.value, 0, node.offset, at - node.offset);
    }
  }

  /** The scanned ranges cover exactly the source offsets that lie in comments. */
  lemma {:induction false} AllCommentsExact(nodes: seq<Html>, at: nat)
    ensures Covered(AllComments(nodes), at) <==> InComment(nodes, at)
  {
    if nodes != [] {
      var n := |nodes| - 1;
      AllCommentsExact(nodes[..n], at);
      NodeComments(nodes[n], at);
      CoveredAppend(AllComments(nodes[..n]), Comments(nodes[n].value, 0, nodes[n].offset), at);
      assert AllComments(nodes) == AllComments(nodes[..n]) + Comments(nodes[n].value, 0, nodes[n].offset);
      hide *;
      LastNode(nodes, at);
    }
  }

  lemma LastNode(nodes: seq<Html>, at: nat)
    requires nodes != []
    ensures InComment(nodes, at) <==> InComment(nodes[..|nodes| - 1], at) || InNode(nodes[|nodes| - 1], at)
  {
    hide InNode;
    var n := |nodes| - 1;
    if InComment(nodes[..n], at) {
      var k :| 0 <= k < n && InNode(nodes[..n][k], at);
      assert InNode(nodes[k], at);
    }
    if InComment(nodes, at) && !InNode(nodes[n], at) {
      var k :| 0 <= k < |nodes| && InNode(nodes[k], at);
      assert InNode(nodes[..n][k], at);
    }
  }

  // ---------------------------------------------------------------- columns of a line

  /** The part of a comment that lies in a line, if any. */
  function OnLine(c: Range, offset: nat, length: nat): seq<Range> {
    var from, to := Max(c.start, offset), Min(c.end, offset + length);
    if from < to || (length == 0 && c.start <= offset && c.end > offset) then [Range(from - offset, to - offset)]
    else []
  }

  function LineRanges(comments: seq<Range>, offset: nat, length: nat): seq<Range> {
    if comments == [] then []
    else
      LineRanges(comments[..|comments| - 1], offset, length) + OnLine(comments[|comments| - 1], offset, length)
  }

  /** The parts on a line keep the order of the comments. */
  lemma {:induction false} LineRangesAppend(a: seq<Range>, b: seq<Range>, offset: nat, length: nat)
    ensures LineRanges(a + b, offset, length) == LineRanges(a, offset, length) + LineRanges(b, offset, length)
  {
    if b == [] {
      assert a + b == a;
    } else {
      var n := |b| - 1;
      assert (a + b)[..|a| + n] == a + b[..n];
      LineRangesAppend(a, b[..n], offset, length);
    }
  }

  method CollectComments(nodes: seq<Html>) returns (comments: seq<Range>)
    ensures comments == AllComments(nodes)
  {
    comments := [];
    for k := 0 to |nodes|
      invariant comments == AllComments(nodes[..k])
    {
      var more := ScanComments(nodes[k].value, nodes[k].offset);
      assert nodes[..k + 1][..k] == nodes[..k];
      comments := comments + more;
    }
    assert nodes[..|nodes|] == nodes;
  }

  /** The ranges of every line that a comment touches, keyed by its number from 1. */
  method ColumnRanges(nodes: seq<Html>, rawLines: seq<string>) returns (ranges: map<nat, seq<Range>>)
    ensures forall n :: n in ranges <==>
      1 <= n <= |rawLines| && LineRanges(AllComments(nodes), Offset(rawLines, n - 1), |rawLines[n - 1]|) != []
    ensures forall n :: n in ranges ==>
      ranges[n] == LineRanges(AllComments(nodes), Offset(rawLines, n - 1), |rawLines[n - 1]|)
  {
    hide Comments, LineRanges;
    var comments := CollectComments(nodes);
    ranges := map[];
    var lineOffset := 0;
    for index := 0 to |rawLines|
      invariant lineOffset == Offset(rawLines, index)
      invariant forall n :: n in ranges <==>
        1 <= n <= index && LineRanges(comments, Offset(rawLines, n - 1), |rawLines[n - 1]|) != []
      invariant forall n :: n in ranges ==>
        ranges[n] == LineRanges(comments, Offset(rawLines, n - 1), |rawLines[n - 1]|)
    {
      var lineRanges := RangesOf(comments, lineOffset, |rawLines[index]|);
      if lineRanges != [] {
        ranges := ranges[index + 1 := lineRanges];
      }
      lineOffset := lineOffset + |rawLines[index]| + 1;
    }
  }

  /** The inner loop over the comments. */
  method RangesOf(comments: seq<Range>, lineOffset: nat, length: nat) returns (ranges: seq<Range>)
    ensures ranges == LineRanges(comments, lineOffset, length)
  {
    ranges := [];
    for k := 0 to |comments|
      invariant ranges == LineRanges(comments[..k], lineOffset, length)
    {
      assert comments[..k + 1][..k] == comments[..k];
      ranges := ranges + OnLine(comments[k], lineOffset, length);
    }
    assert comments[..|comments|] == comments;
  }

  /** A column is in a range of its line exactly when its offset is in a comment. */
  lemma {:induction false} ColumnsExact(comments: seq<Range>, offset: nat, length: nat, column: nat)
    requires column < length
    ensures Covered(LineRanges(comments, offset, length), column) <==> Covered(comments, offset + column)
  {
    if comments != [] {
      var n := |comments| - 1;
      ColumnsExact(comments[..n], offset, length, column);
      CoveredAppend(LineRanges(comments[..n], offset, length), OnLine(comments[n], offset, length), column);
      CoveredAppend(comments[..n], [comments[n]], offset + column);
      assert comments[..n] + [comments[n]] == comments;
      OneColumn(comments[n], offset, length, column);
    }
  }

  lemma OneColumn(c: Range, offset: nat, length: nat, column: nat)
    requires column < length
    ensures Covered(OnLine(c, offset, length), column) <==> Covered([c], offset + column)
  {
    assert Covered([c], offset + column) <==> Covers(c, offset + column) by {
      CoveredFirst(c, [], offset + column);
      assert [c] + [] == [c];
    }
    var on := OnLine(c, offset, length);
    if on != [] {
      CoveredFirst(on[0], [], column);
      assert [on[0]] + [] == on;
    }
  }

  /** A line has ranges exactly when a comment covers one of its columns, or the place of an empty line. */
  lemma {:induction false} TouchedIff(comments: seq<Range>, offset: nat, length: nat)
    requires forall c :: c in comments ==> c.start <= c.end
    ensures LineRanges(comments, offset, length) != [] <==>
      exists i: nat :: offset <= i < offset + Max(length, 1) && Covered(comments, i)
    ensures forall r :: r in LineRanges(comments, offset, length) ==> r.start <= r.end <= length
  {
    if comments != [] {
      var n := |comments| - 1;
      var last := comments[n];
      TouchedIff(comments[..n], offset, length);
      assert comments[..n] + [last] == comments && [last] + [] == [last];
      forall i: nat ensures Covered(comments, i) <==> Covered(comments[..n], i) || Covers(last, i) {
        CoveredAppend(comments[..n], [last], i);
        CoveredFirst(last, [], i);
      }
      hide Covered;
      if OnLine(last, offset, length) != [] {
        var i := Max(last.start, offset);
        assert Covers(last, i);
      }
    }
  }

  // ---------------------------------------------------------------- what stays visible

  /** A slice of a string, as the language takes it: empty when the ends are the wrong way round. */
  function Slice(s: string, from: nat, to: nat): string {
    if from < to <= |s| then s[from..to] else if from < |s| < to then s[from..] else ""
  }

  ghost function Outside(raw: string, ranges: seq<Range>, n: nat): string
    requires n <= |raw|
  {
    if n == 0 then ""
    else Outside(raw, ranges, n - 1) + (if Covered(ranges, n - 1) then "" else [raw[n - 1]])
  }

  lemma {:induction false} OutsideGap(raw: string, ranges: seq<Range>, from: nat, to: nat)
    requires from <= to <= |raw| && forall i: nat :: from <= i < to ==> !Covered(ranges, i)
    ensures Outside(raw, ranges, to) == Outside(raw, ranges, from) + raw[from..to]
  {
    hide Covered;
    if from < to {
      OutsideGap(raw, ranges, from, to - 1);
      assert raw[from..to] == raw[from..to - 1] + [raw[to - 1]];
    }
  }

  lemma {:induction false} OutsideCovered(raw: string, ranges: seq<Range>, from: nat, to: nat)
    requires from <= to <= |raw| && forall i: nat :: from <= i < to ==> Covered(ranges, i)
    ensures Outside(raw, ranges, to) == Outside(raw, ranges, from)
  {
    hide Covered;
    if from < to {
      OutsideCovered(raw, ranges, from, to - 1);
    }
  }

  lemma {:induction false} OutsideBlankIff(raw: string, ranges: seq<Range>, n: nat)
    requires n <= |raw|
    ensures Blank(Outside(raw, ranges, n)) <==> !exists i: nat :: i < n && !Covered(ranges, i) && !IsSpace(raw[i])
  {
    hide Covered, IsSpace;
    if n > 0 {
      OutsideBlankIff(raw, ranges, n - 1);
    }
  }

  function ByStart(): (Range, Range) -> bool {
    (a: Range, b: Range) => a.start <= b.start
  }

  /** One range of the sweep: what comes before it is kept, what it covers is not. */
  lemma SweepRange(raw: string, sorted: seq<Range>, j: nat, cursor: nat)
    requires Sorted(sorted, ByStart()) && j < |sorted| && cursor <= |raw|
    requires forall r :: r in sorted ==> r.start <= r.end <= |raw|
    requires forall r :: r in sorted[..j] ==> r.end <= cursor
    ensures Outside(raw, sorted, Max(cursor, sorted[j].end)) ==
      Outside(raw, sorted, cursor) + Slice(raw, cursor, sorted[j].start)
  {
    var r := sorted[j];
    var from := Max(cursor, r.start);
    forall i: nat | cursor <= i < from ensures !Covered(sorted, i) {
      forall k | 0 <= k < |sorted| ensures !Covers(sorted[k], i) {
        if k < j {
          assert sorted[k] == sorted[..j][k];
        } else if k > j {
          assert ByStart()(sorted[j], sorted[k]);
        }
      }
    }
    OutsideGap(raw, sorted, cursor, from);
    forall i: nat | from <= i < Max(cursor, r.end) ensures Covered(sorted, i) {
      assert r in sorted && Covers(r, i);
    }
    hide Covered;
    if from <= r.end {
      OutsideCovered(raw, sorted, from, Max(cursor, r.end));
    }
  }

  lemma SameCover(a: seq<Range>, b: seq<Range>)
    requires forall r :: r in a <==> r in b
    ensures forall i: nat :: Covered(a, i) <==> Covered(b, i)
  {
  }

  /**
   * Without ranges every line counts as text. With ranges, in any order and however they overlap, a line
   * counts when some character outside all of them is not white space.
   */
  method HasRenderedText(raw: string, ranges: Option<seq<Range>>) returns (has: bool)
    requires ranges.Some? ==> forall r :: r in ranges.value ==> r.start <= r.end <= |raw|
    ensures ranges.None? ==> has
    ensures ranges.Some? ==> (has <==> exists i: nat :: i < |raw| && !Covered(ranges.value, i) && !IsSpace(raw[i]))
  {
    if ranges.None? {
      return true;
    }
    var sorted := Sort(ranges.value, ByStart());
    SortedRanges(ranges.value);
    var cursor: nat := 0;
    var visible := "";
    assert visible == Outside(raw, sorted, 0);
    hide Covered, IsSpace, Trim, Sort, Outside, Slice, Blank, Sorted, ByStart;
    for j := 0 to |sorted|
      invariant cursor <= |raw|
      invariant visible == Outside(raw, sorted, cursor)
      invariant forall r :: r in sorted[..j] ==> r.end <= cursor
    {
      SweepRange(raw, sorted, j, cursor);
      assert sorted[..j + 1] == sorted[..j] + [sorted[j]];
      visible := visible + Slice(raw, cursor, sorted[j].start);
      cursor := Max(cursor, sorted[j].end);
    }
    SweepEnd(raw, sorted, cursor);
    visible := visible + Slice(raw, cursor, |raw|);
    OutsideBlankIff(raw, sorted, |raw|);
    TrimIsEmptyIff(visible);
    has := |Trim(visible)| > 0;
  }

  lemma SortedRanges(ranges: seq<Range>)
    ensures Sorted(Sort(ranges, ByStart()), ByStart())
    ensures forall r :: r in Sort(ranges, ByStart()) <==> r in ranges
    ensures forall i: nat :: Covered(Sort(ranges, ByStart()), i) <==> Covered(ranges, i)
  {
    Sorts(ranges, ByStart());
    SameMembers(Sort(ranges, ByStart()), ranges);
    hide *;
    SameCover(Sort(ranges, ByStart()), ranges);
  }

  lemma SweepEnd(raw: string, sorted: seq<Range>, cursor: nat)
    requires cursor <= |raw| && forall r :: r in sorted[..|sorted|] ==> r.end <= cursor
    ensures Outside(raw, sorted, |raw|) == Outside(raw, sorted, cursor) + Slice(raw, cursor, |raw|)
  {
    assert sorted[..|sorted|] == sorted;
    OutsideGap(raw, sorted, cursor, |raw|);
  }

  /**
   * From the parsed document to the line: a line keeps its text unless a comment touches it and every
   * character of it outside all comments is white space.
   */
  method LineHasText(nodes: seq<Html>, source: string, k: nat) returns (has: bool)
    requires k < |Lines(source)|
    ensures
      var line, at := Lines(source)[k], Offset(Lines(source), k);
      has <==>
        || (forall i: nat :: at <= i < at + Max(|line|, 1) ==> !InComment(nodes, i))
        || (exists c: nat :: c < |line| && !InComment(nodes, at + c) && !IsSpace(line[c]))
  {
    var rawLines := Lines(source);
    var ranges := ColumnRanges(nodes, rawLines);
    ghost var at, comments := Offset(rawLines, k), AllComments(nodes);
    var raw := rawLines[k];
    assert k + 1 in ranges <==> LineRanges(comments, at, |raw|) != [];
    assert k + 1 in ranges ==> ranges[k + 1] == LineRanges(comments, at, |raw|);
    hide *;
    LineIsExact(nodes, at, |raw|);
    has := HasRenderedText(raw, if k + 1 in ranges then Some(ranges[k + 1]) else None);
  }

  /** The ranges of one line, in terms of what a reader of the nodes sees. */
  lemma LineIsExact(nodes: seq<Html>, at: nat, length: nat)
    ensures
      var ranges := LineRanges(AllComments(nodes), at, length);
      && (ranges != [] <==> exists i: nat :: at <= i < at + Max(length, 1) && InComment(nodes, i))
      && (forall c: nat :: c < length ==> (Covered(ranges, c) <==> InComment(nodes, at + c)))
      && (forall r :: r in ranges ==> r.start <= r.end <= length)
  {
    var comments := AllComments(nodes);
    hide *;
    CommentsAreRanges(nodes);
    TouchedIff(comments, at, length);
    forall i: nat ensures Covered(comments, i) <==> InComment(nodes, i) {
      AllCommentsExact(nodes, i);
    }
    forall c: nat | c < length ensures Covered(LineRanges(comments, at, length), c) <==> InComment(nodes, at + c) {
      ColumnsExact(comments, at, length, c);
    }
  }

  lemma {:induction false} CommentsAreRanges(nodes: seq<Html>)
    ensures forall r :: r in AllComments(nodes) ==> r.start <= r.end
  {
    hide Comments;
    if nodes != [] {
      var n := |nodes| - 1;
      CommentsAreRanges(nodes[..n]);
      CommentsAscend(nodes[n].value, 0, nodes[n].offset);
    }
  }
}
