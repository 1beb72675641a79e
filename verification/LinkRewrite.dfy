/** Splicing new link destinations into a text. */
module LinkRewrite {
  import opened LinkDestinations
  import opened StableSort
  import opened Wrappers

  // ---------------------------------------------------------------- splicing

  datatype Replacement = Replacement(start: nat, end: nat, value: string)

  /** Destinations of different links: in the text, and each before or after the other. */
  ghost predicate Apart(source: string, rs: seq<Replacement>) {
    && (forall r :: r in rs ==> r.start <= r.end <= |source|)
    && forall i, j :: 0 <= i < j < |rs| ==> Before(rs[i], rs[j]) || Before(rs[j], rs[i])
  }

  predicate Before(a: Replacement, b: Replacement) {
    a.start < b.start && a.end <= b.start
  }

  function LastFirst(): (Replacement, Replacement) -> bool {
    (a: Replacement, b: Replacement) => a.start >= b.start
  }

  /** All replacements at once, for the text up to `to`; the list goes from the last to the first. */
  function Woven(source: string, rs: seq<Replacement>, to: nat): string
    requires to <= |source| && Descending(source, rs, to)
  {
    if rs == [] then source[..to]
    else Woven(source, rs[1..], rs[0].start) + rs[0].value + source[rs[0].end..to]
  }

  predicate Descending(source: string, rs: seq<Replacement>, to: nat) {
    rs != [] ==>
      && rs[0].start <= rs[0].end <= to <= |source|
      && (|rs| > 1 ==> rs[1].start < rs[0].start)
      && Descending(source, rs[1..], rs[0].start)
  }

  lemma {:induction false} SortedDescends(source: string, rs: seq<Replacement>, to: nat)
    requires Apart(source, rs) && Sorted(rs, LastFirst())
    requires to <= |source| && (rs != [] ==> rs[0].end <= to)
    ensures Descending(source, rs, to)
  {
    if |rs| > 1 {
      assert LastFirst()(rs[0], rs[1]);
      SortedDescends(source, rs[1..], rs[0].start);
    }
  }

  ghost predicate ApartFrom(x: Replacement, rs: seq<Replacement>) {
    forall r :: r in rs ==> Before(x, r) || Before(r, x)
  }

  lemma {:induction false} InsertKeepsApart(source: string, x: Replacement, rs: seq<Replacement>)
    requires Apart(source, rs) && ApartFrom(x, rs) && x.start <= x.end <= |source|
    ensures Apart(source, Insert(x, rs, LastFirst()))
    ensures forall r :: r in Insert(x, rs, LastFirst()) <==> r == x || r in rs
  {
    if rs != [] && !LastFirst()(x, rs[0]) {
      InsertKeepsApart(source, x, rs[1..]);
      assert rs == [rs[0]] + rs[1..];
      assert ApartFrom(rs[0], Insert(x, rs[1..], LastFirst()));
    }
  }

  lemma {:induction false} SortKeepsApart(source: string, rs: seq<Replacement>)
    requires Apart(source, rs)
    ensures Apart(source, Sort(rs, LastFirst())) && Sorted(Sort(rs, LastFirst()), LastFirst())
    ensures forall r :: r in Sort(rs, LastFirst()) <==> r in rs
  {
    LastFirstTotal();
    hide TotalOrder, LastFirst;
    Sorts(rs, LastFirst());
    if rs != [] {
      var rest := rs[1..];
      assert rs == [rs[0]] + rest && rs[0] in rs;
      assert Apart(source, rest) && ApartFrom(rs[0], rest) && rs[0].start <= rs[0].end <= |source|;
      hide Apart, Sorted;
      SortKeepsApart(source, rest);
      InsertKeepsApart(source, rs[0], Sort(rest, LastFirst()));
    }
  }

  lemma LastFirstTotal()
    ensures TotalOrder(LastFirst())
  {
  }

  method Splice(source: string, replacements: seq<Replacement>) returns (projected: string)
    requires Apart(source, replacements)
    ensures Descending(source, Sort(replacements, LastFirst()), |source|)
    ensures projected == Woven(source, Sort(replacements, LastFirst()), |source|)
  {
    projected := source;
    var sorted := Sort(replacements, LastFirst());
    SortKeepsApart(source, replacements);
    SortedDescends(source, sorted, |source|);
    ghost var to: nat := |source|;
    assert projected[to..] == "" && sorted[0..] == sorted;
    hide Sort, Sorted, Apart, Woven, Descending;
    for k := 0 to |sorted|
      invariant to <= |source| && to <= |projected| && projected[..to] == source[..to]
      invariant Descending(source, sorted[k..], to)
      invariant Woven(source, sorted, |source|) == Woven(source, sorted[k..], to) + projected[to..]
    {
      var r := sorted[k];
      assert sorted[k..][0] == r && sorted[k..][1..] == sorted[k + 1..];
      SpliceStep(source, sorted[k..], to, projected);
      projected := projected[..r.start] + r.value + projected[r.end..];
      to := r.start;
    }
    assert sorted[|sorted|..] == [];
    NothingWoven(source, to);
    assert projected == projected[..to] + projected[to..];
  }

  lemma Assoc(a: string, b: string, c: string)
    ensures (a + b) + c == a + (b + c)
  {
  }

  lemma NothingWoven(source: string, to: nat)
    requires to <= |source|
    ensures Descending(source, [], to) && Woven(source, [], to) == source[..to]
  {
  }

  lemma SpliceStep(source: string, rs: seq<Replacement>, to: nat, projected: string)
    requires rs != [] && to <= |source| && Descending(source, rs, to)
    requires to <= |projected| && projected[..to] == source[..to]
    ensures rs[0].start <= rs[0].end <= to && Descending(source, rs[1..], rs[0].start)
    ensures
      var r := rs[0];
      var next := projected[..r.start] + r.value + projected[r.end..];
      && next[..r.start] == source[..r.start]
      && Woven(source, rs, to) + projected[to..] == Woven(source, rs[1..], r.start) + next[r.start..]
  {
    var r := rs[0];
    var head := Woven(source, rs[1..], r.start);
    assert Woven(source, rs, to) == head + r.value + source[r.end..to];
    hide *;
    SameStart(source, projected, to, r.start, r.end);
    CutBehind(projected[..r.start], r.value, projected[r.end..]);
    Assoc(head + r.value, source[r.end..to], projected[to..]);
    Assoc(head, r.value, source[r.end..to] + projected[to..]);
  }

  lemma SameStart(source: string, projected: string, to: nat, start: nat, end: nat)
    requires start <= end <= to <= |source| && to <= |projected| && projected[..to] == source[..to]
    ensures projected[..start] == source[..start]
    ensures projected[end..] == source[end..to] + projected[to..]
  {
    assert projected[..start] == projected[..to][..start] && source[..start] == source[..to][..start];
    assert projected[end..to] == projected[..to][end..] && source[end..to] == source[..to][end..];
  }

  lemma CutBehind(a: string, b: string, c: string)
    ensures (a + b + c)[..|a|] == a && (a + b + c)[|a|..] == b + c
  {
  }

  // ---------------------------------------------------------------- what became of every character

  /** How much longer the text becomes by the replacements that start before an offset. */
  function Growth(rs: seq<Replacement>, before: nat): int {
    if rs == [] then 0
    else (if rs[0].start < before then |rs[0].value| - (rs[0].end - rs[0].start) else 0) + Growth(rs[1..], before)
  }

  lemma {:induction false} GrowthOfInsert(x: Replacement, rs: seq<Replacement>, before: nat)
    ensures Growth(Insert(x, rs, LastFirst()), before) == Growth([x] + rs, before)
  {
    assert ([x] + rs)[1..] == rs;
    if rs != [] && !LastFirst()(x, rs[0]) {
      GrowthOfInsert(x, rs[1..], before);
      assert ([x] + rs[1..])[1..] == rs[1..];
    }
  }

  lemma {:induction false} GrowthOfSort(rs: seq<Replacement>, before: nat)
    ensures Growth(Sort(rs, LastFirst()), before) == Growth(rs, before)
  {
    if rs != [] {
      GrowthOfSort(rs[1..], before);
      GrowthOfInsert(rs[0], Sort(rs[1..], LastFirst()), before);
      assert ([rs[0]] + Sort(rs[1..], LastFirst()))[1..] == Sort(rs[1..], LastFirst());
    }
  }

  /** With every replacement before the offset, or none below it, the sum is the whole one. */
  lemma {:induction false} WovenLength(source: string, rs: seq<Replacement>, to: nat, before: nat)
    requires to <= |source| && Descending(source, rs, to)
    requires rs != [] ==> rs[0].start < before
    ensures |Woven(source, rs, to)| == to + Growth(rs, before)
  {
    if rs != [] {
      WovenLength(source, rs[1..], rs[0].start, before);
    }
  }

  /** A character outside every replacement is still there, moved by the growth before it. */
  lemma {:induction false} UntouchedStays(source: string, rs: seq<Replacement>, to: nat, i: nat)
    requires to <= |source| && Descending(source, rs, to) && i < to
    requires forall r :: r in rs ==> !(r.start <= i < r.end)
    ensures
      var at := i + Growth(rs, i + 1);
      0 <= at < |Woven(source, rs, to)| && Woven(source, rs, to)[at] == source[i]
  {
    if rs != [] {
      var r := rs[0];
      assert r in rs;
      if i < r.start {
        UntouchedStays(source, rs[1..], r.start, i);
      } else {
        WovenLength(source, rs[1..], r.start, i + 1);
      }
    }
  }

  /** Every new destination stands where the old one began, moved by the growth before it. */
  lemma {:induction false} ValueIsPlaced(source: string, rs: seq<Replacement>, to: nat, r: Replacement)
    requires to <= |source| && Descending(source, rs, to) && r in rs
    ensures
      var at := r.start + Growth(rs, r.start);
      0 <= at && at + |r.value| <= |Woven(source, rs, to)| && Woven(source, rs, to)[at..at + |r.value|] == r.value
  {
    if r == rs[0] {
      WovenLength(source, rs[1..], r.start, r.start);
    } else {
      assert r in rs[1..];
      StartsBelow(source, rs[1..], rs[0].start, r);
      ValueIsPlaced(source, rs[1..], rs[0].start, r);
    }
  }

  lemma {:induction false} StartsBelow(source: string, rs: seq<Replacement>, to: nat, r: Replacement)
    requires Descending(source, rs, to) && r in rs
    ensures r.start <= rs[0].start
  {
    if r != rs[0] {
      StartsBelow(source, rs[1..], rs[0].start, r);
    }
  }

  /** A character of the source, at its place in the new text. */
  ghost predicate KeptAt(source: string, rs: seq<Replacement>, projected: string, i: nat)
    requires i < |source|
  {
    var at := i + Growth(rs, i + 1);
    0 <= at < |projected| && projected[at] == source[i]
  }

  /** A new value, at its place in the new text. */
  ghost predicate PlacedAt(rs: seq<Replacement>, projected: string, r: Replacement) {
    var at := r.start + Growth(rs, r.start);
    0 <= at && at + |r.value| <= |projected| && projected[at..at + |r.value|] == r.value
  }

  /**
   * The spliced text is the simultaneous substitution, in whatever order the replacements were found:
   * every character outside them is kept, every new value is in place, and nothing else is there.
   */
  lemma SpliceIsSimultaneous(source: string, replacements: seq<Replacement>, projected: string)
    requires Apart(source, replacements) && Descending(source, Sort(replacements, LastFirst()), |source|)
    requires projected == Woven(source, Sort(replacements, LastFirst()), |source|)
    ensures |projected| == |source| + Growth(replacements, |source| + 1)
    ensures forall i: nat :: i < |source| && (forall r :: r in replacements ==> !(r.start <= i < r.end)) ==>
      KeptAt(source, replacements, projected, i)
    ensures forall r :: r in replacements ==> PlacedAt(replacements, projected, r)
  {
    hide *;
    GrowsByAll(source, replacements, projected);
    forall i: nat | i < |source| && (forall r :: r in replacements ==> !(r.start <= i < r.end))
      ensures KeptAt(source, replacements, projected, i)
    {
      OneKept(source, replacements, projected, i);
    }
    forall r | r in replacements ensures PlacedAt(replacements, projected, r) {
      OnePlaced(source, replacements, projected, r);
    }
  }

  lemma GrowsByAll(source: string, replacements: seq<Replacement>, projected: string)
    requires Apart(source, replacements) && Descending(source, Sort(replacements, LastFirst()), |source|)
    requires projected == Woven(source, Sort(replacements, LastFirst()), |source|)
    ensures |projected| == |source| + Growth(replacements, |source| + 1)
  {
    var sorted := Sort(replacements, LastFirst());
    GrowthOfSort(replacements, |source| + 1);
    assert sorted != [] ==> sorted[0].start <= |source|;
    hide Woven, Descending, Sort, Growth, Apart, LastFirst;
    WovenLength(source, sorted, |source|, |source| + 1);
  }

  lemma OneKept(source: string, replacements: seq<Replacement>, projected: string, i: nat)
    requires Apart(source, replacements) && Descending(source, Sort(replacements, LastFirst()), |source|)
    requires projected == Woven(source, Sort(replacements, LastFirst()), |source|)
    requires i < |source| && forall r :: r in replacements ==> !(r.start <= i < r.end)
    ensures KeptAt(source, replacements, projected, i)
  {
    hide Woven, Descending, Sort, Growth, Apart, Sorted, LastFirst;
    SortKeepsApart(source, replacements);
    GrowthOfSort(replacements, i + 1);
    UntouchedStays(source, Sort(replacements, LastFirst()), |source|, i);
  }

  lemma OnePlaced(source: string, replacements: seq<Replacement>, projected: string, r: Replacement)
    requires Apart(source, replacements) && Descending(source, Sort(replacements, LastFirst()), |source|)
    requires projected == Woven(source, Sort(replacements, LastFirst()), |source|) && r in replacements
    ensures PlacedAt(replacements, projected, r)
  {
    hide Woven, Descending, Sort, Growth, Apart, Sorted, LastFirst;
    SortKeepsApart(source, replacements);
    GrowthOfSort(replacements, r.start);
    ValueIsPlaced(source, Sort(replacements, LastFirst()), |source|, r);
  }

  // ---------------------------------------------------------------- from the links to the text

  /** A link, image or definition in the source, with the target it should get. */
  datatype Node = Node(offset: nat, length: nat, kind: Kind, target: string)

  ghost predicate InSource(source: string, n: Node) {
    n.offset + n.length <= |source|
  }

  function Raw(source: string, n: Node): string
    requires InSource(source, n)
  {
    source[n.offset..n.offset + n.length]
  }

  /** One node stands in the label of the other, as an image in a link does. */
  ghost predicate InLabel(source: string, inner: Node, outer: Node)
    requires InSource(source, outer)
  {
    && outer.offset <= inner.offset
    && EndOfLabel(Raw(source, outer)).Some?
    && inner.offset + inner.length <= outer.offset + EndOfLabel(Raw(source, outer)).value
  }

  ghost predicate Separate(source: string, a: Node, b: Node)
    requires InSource(source, a) && InSource(source, b)
  {
    || a.offset + a.length <= b.offset
    || b.offset + b.length <= a.offset
    || InLabel(source, a, b)
    || InLabel(source, b, a)
  }

  /** What the Markdown parser guarantees of the nodes: they follow one another or nest in labels. */
  ghost predicate WellPlaced(source: string, nodes: seq<Node>) {
    && (forall i :: 0 <= i < |nodes| ==> InSource(source, nodes[i]))
    && forall i, j :: 0 <= i < j < |nodes| ==> Separate(source, nodes[i], nodes[j])
  }

  ghost predicate Located(source: string, n: Node, r: Replacement)
    requires InSource(source, n)
  {
    && DestinationOf(Raw(source, n), n.kind).Success?
    && var range := DestinationOf(Raw(source, n), n.kind).value;
       r == Replacement(n.offset + range.start, n.offset + range.end, n.target)
  }

  lemma LocatedInNode(source: string, n: Node, r: Replacement)
    requires InSource(source, n) && Located(source, n, r)
    ensures n.offset < r.start <= r.end <= n.offset + n.length
    ensures EndOfLabel(Raw(source, n)).Some? && n.offset + EndOfLabel(Raw(source, n)).value < r.start
  {
    DestinationIsBehind(Raw(source, n), n.kind);
  }

  /** Destinations of separate nodes never touch: that of an outer node lies behind the label. */
  lemma DestinationsAreApart(source: string, a: Node, r: Replacement, b: Node, q: Replacement)
    requires InSource(source, a) && InSource(source, b) && Separate(source, a, b)
    requires Located(source, a, r) && Located(source, b, q)
    ensures Before(r, q) || Before(q, r)
  {
    LocatedInNode(source, a, r);
    LocatedInNode(source, b, q);
    hide Located, EndOfLabel, Raw;
  }

  /**
   * The rewriting of one page: an error exactly when some node has no destination to be found, and else
   * the simultaneous substitution of all targets for the destinations.
   */
  method RewriteMarkdown(source: string, nodes: seq<Node>)
    returns (result: Result<string, DestinationError>, ghost replacements: seq<Replacement>)
    requires WellPlaced(source, nodes)
    ensures result.Success? <==>
      forall i :: 0 <= i < |nodes| ==> DestinationOf(Raw(source, nodes[i]), nodes[i].kind).Success?
    ensures result.Failure? ==>
      exists i :: 0 <= i < |nodes| && DestinationOf(Raw(source, nodes[i]), nodes[i].kind) == Failure(result.error)
                  && forall j :: 0 <= j < i ==> DestinationOf(Raw(source, nodes[j]), nodes[j].kind).Success?
    ensures result.Success? ==>
      && |replacements| == |nodes|
      && (forall i :: 0 <= i < |nodes| ==> Located(source, nodes[i], replacements[i]))
      && |result.value| == |source| + Growth(replacements, |source| + 1)
      && (forall i: nat :: i < |source| && (forall r :: r in replacements ==> !(r.start <= i < r.end)) ==>
            KeptAt(source, replacements, result.value, i))
      && forall r :: r in replacements ==> PlacedAt(replacements, result.value, r)
  {
    hide DestinationOf;
    var found: seq<Replacement> := [];
    replacements := [];
    for k := 0 to |nodes|
      invariant |found| == k
      invariant forall i :: 0 <= i < k ==> Located(source, nodes[i], found[i])
    {
      var range := DestinationRange(source[nodes[k].offset..nodes[k].offset + nodes[k].length], nodes[k].kind);
      if range.Failure? {
        return Failure(range.error), [];
      }
      var node := nodes[k];
      found := found + [Replacement(node.offset + range.value.start, node.offset + range.value.end, node.target)];
    }
    replacements := found;
    AllApart(source, nodes, found);
    hide *;
    var projected := Splice(source, found);
    SpliceIsSimultaneous(source, found, projected);
    result := Success(projected);
  }

  lemma AllApart(source: string, nodes: seq<Node>, found: seq<Replacement>)
    requires WellPlaced(source, nodes) && |found| == |nodes|
    requires forall i :: 0 <= i < |nodes| ==> Located(source, nodes[i], found[i])
    ensures Apart(source, found)
  {
    hide Located;
    forall r | r in found ensures r.start <= r.end <= |source| {
      var i :| 0 <= i < |found| && found[i] == r;
      LocatedInNode(source, nodes[i], r);
    }
    hide Separate, Before;
    forall i, j | 0 <= i < j < |found| ensures Before(found[i], found[j]) || Before(found[j], found[i]) {
      DestinationsAreApart(source, nodes[i], found[i], nodes[j], found[j]);
    }
  }
}
