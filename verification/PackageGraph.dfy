/** Ordering workspace packages by dependency layers. */
module PackageGraph {
  import opened JsIntegers
  import opened Wrappers
  import opened StableSort

  datatype Package = Package(short: string, group: string, deps: seq<string>)

  // ---------------------------------------------------------------- the tiebreak inside a layer

  function IndexOf(groups: seq<string>, group: string): (i: int)
    ensures -1 <= i < |groups|
    ensures i >= 0 ==> groups[i] == group
    ensures i == -1 <==> group !in groups
  {
    if groups == [] then -1
    else if groups[0] == group then 0
    else
      var i := IndexOf(groups[1..], group);
      if i == -1 then -1 else i + 1
  }

  function GroupRank(groups: seq<string>, group: string): int {
    var i := IndexOf(groups, group);
    if i == -1 then MAX_SAFE_INTEGER else i
  }

  /** The sign of a comparison; the locale collation is given by a sort key for every string. */
  function Compare(a: Package, b: Package, groups: seq<string>, collation: string -> real): real {
    var byRank := GroupRank(groups, a.group) - GroupRank(groups, b.group);
    if byRank != 0 then byRank as real
    else if collation(a.group) != collation(b.group) then collation(a.group) - collation(b.group)
    else collation(a.short) - collation(b.short)
  }

  predicate InOrder(a: Package, b: Package, groups: seq<string>, collation: string -> real) {
    Compare(a, b, groups, collation) <= 0.0
  }

  lemma InOrderTransitive(a: Package, b: Package, c: Package, groups: seq<string>, collation: string -> real)
    requires InOrder(a, b, groups, collation) && InOrder(b, c, groups, collation)
    ensures InOrder(a, c, groups, collation)
  {
    hide GroupRank;
  }

  lemma InOrderTotal(a: Package, b: Package, groups: seq<string>, collation: string -> real)
    ensures InOrder(a, b, groups, collation) || InOrder(b, a, groups, collation)
  {
    hide GroupRank;
  }

  /** The order that a layer is sorted by. */
  function LayerOrder(groups: seq<string>, collation: string -> real): (Package, Package) -> bool {
    (a: Package, b: Package) => InOrder(a, b, groups, collation)
  }

  lemma LayerOrderTotal(groups: seq<string>, collation: string -> real)
    ensures TotalOrder(LayerOrder(groups, collation))
  {
    var le := LayerOrder(groups, collation);
    forall a: Package, b: Package ensures le(a, b) || le(b, a) {
      InOrderTotal(a, b, groups, collation);
    }
    forall a: Package, b: Package, c: Package | le(a, b) && le(b, c) ensures le(a, c) {
      InOrderTransitive(a, b, c, groups, collation);
    }
  }

  /** The group is listed, and the other one is not listed as early. */
  ghost predicate ListedBefore(groups: seq<string>, group: string, other: string) {
    exists i :: 0 <= i < |groups| && groups[i] == group && forall j :: 0 <= j <= i ==> groups[j] != other
  }

  lemma {:induction false} IndexIsFirst(groups: seq<string>, group: string)
    ensures forall j :: 0 <= j < IndexOf(groups, group) ==> groups[j] != group
  {
    if groups != [] && groups[0] != group {
      IndexIsFirst(groups[1..], group);
      assert forall j :: 1 <= j < |groups| ==> groups[j] == groups[1..][j - 1];
    }
  }

  lemma ListedBeforeIff(groups: seq<string>, group: string, other: string)
    requires |groups| < MAX_SAFE_INTEGER
    ensures ListedBefore(groups, group, other) <==> GroupRank(groups, group) < GroupRank(groups, other)
  {
    IndexIsFirst(groups, group);
    IndexIsFirst(groups, other);
    var i, k := IndexOf(groups, group), IndexOf(groups, other);
    if i != -1 && (k == -1 || i < k) {
      assert groups[i] == group && forall j :: 0 <= j <= i ==> groups[j] != other;
    }
  }

  /** The order inside a layer: by the place of the group in the list, then by group, then by name. */
  lemma InOrderIff(a: Package, b: Package, groups: seq<string>, collation: string -> real)
    requires |groups| < MAX_SAFE_INTEGER
    ensures LayerOrder(groups, collation)(a, b) <==>
      || ListedBefore(groups, a.group, b.group)
      || (&& !ListedBefore(groups, b.group, a.group)
          && (|| collation(a.group) < collation(b.group)
              || (collation(a.group) == collation(b.group) && collation(a.short) <= collation(b.short))))
  {
    ListedBeforeIff(groups, a.group, b.group);
    ListedBeforeIff(groups, b.group, a.group);
    hide GroupRank, ListedBefore;
  }

  // ---------------------------------------------------------------- what an ordering is

  predicate HasShort(ps: seq<Package>, short: string) {
    exists p :: p in ps && p.short == short
  }

  ghost predicate Distinct(ps: seq<Package>) {
    forall i, j :: 0 <= i < j < |ps| ==> ps[i].short != ps[j].short
  }

  function PositionOf(ps: seq<Package>, short: string): (k: nat)
    ensures k <= |ps|
    ensures k < |ps| ==> ps[k].short == short
    ensures k == |ps| ==> !HasShort(ps, short)
  {
    if ps == [] || ps[0].short == short then 0
    else
      assert HasShort(ps, short) ==> HasShort(ps[1..], short);
      1 + PositionOf(ps[1..], short)
  }

  /** A JavaScript Map from names to packages: the first insertion decides the place, the last one the value. */
  function ByShort(packages: seq<Package>): seq<Package> {
    if packages == [] then []
    else
      var n := |packages| - 1;
      var before := ByShort(packages[..n]);
      var k := PositionOf(before, packages[n].short);
      if k < |before| then before[k := packages[n]] else before + [packages[n]]
  }

  lemma {:induction false} ByShortDistinct(packages: seq<Package>)
    ensures Distinct(ByShort(packages))
  {
    if packages != [] {
      var n := |packages| - 1;
      var before := ByShort(packages[..n]);
      ByShortDistinct(packages[..n]);
      if PositionOf(before, packages[n].short) == |before| {
        forall i | 0 <= i < |before| ensures before[i].short != packages[n].short {
          assert before[i] in before;
        }
      }
    }
  }

  /** The last package with its name. */
  ghost predicate LastNamed(packages: seq<Package>, p: Package) {
    exists i :: 0 <= i < |packages| && packages[i] == p && !HasShort(packages[i + 1..], p.short)
  }

  /** Of packages with one name the last one is kept. */
  lemma {:induction false} ByShortIff(packages: seq<Package>, p: Package)
    ensures p in ByShort(packages) <==> LastNamed(packages, p)
  {
    if packages != [] {
      var n := |packages| - 1;
      var front, last := packages[..n], packages[n];
      var before, after := ByShort(front), ByShort(packages);
      ByShortIff(front, p);
      ByShortDistinct(front);
      LastNamedSnoc(packages, p);
      var k := PositionOf(before, last.short);
      if k < |before| {
        assert after[k] == last;
        forall q ensures q in after <==> q == last || (q in before && q.short != last.short) {
          if q in before && q.short != last.short {
            var i :| 0 <= i < |before| && before[i] == q;
            assert after[i] == q;
          }
        }
      } else {
        assert forall q :: q in before ==> q.short != last.short;
      }
    }
  }

  lemma LastNamedSnoc(packages: seq<Package>, p: Package)
    requires packages != []
    ensures
      var n := |packages| - 1;
      LastNamed(packages, p) <==>
        p == packages[n] || (p.short != packages[n].short && LastNamed(packages[..n], p))
  {
    var n := |packages| - 1;
    assert packages[n + 1..] == [];
    if p != packages[n] && LastNamed(packages, p) {
      var i :| 0 <= i < |packages| && packages[i] == p && !HasShort(packages[i + 1..], p.short);
      BehindSnoc(packages, i, p.short);
      assert packages[..n][i] == p;
    }
    if p.short != packages[n].short && LastNamed(packages[..n], p) {
      var i :| 0 <= i < n && packages[..n][i] == p && !HasShort(packages[..n][i + 1..], p.short);
      BehindSnoc(packages, i, p.short);
      assert packages[i] == p;
    }
  }

  lemma BehindSnoc(packages: seq<Package>, i: nat, short: string)
    requires i + 1 < |packages|
    ensures
      var n := |packages| - 1;
      HasShort(packages[i + 1..], short) <==> HasShort(packages[..n][i + 1..], short) || packages[n].short == short
  {
    var n := |packages| - 1;
    assert packages[i + 1..] == packages[..n][i + 1..] + [packages[n]];
  }

  /** Packages with different names are all kept as they are. */
  lemma {:induction false} ByShortKeeps(packages: seq<Package>)
    requires Distinct(packages)
    ensures ByShort(packages) == packages
  {
    if packages != [] {
      var n := |packages| - 1;
      ByShortKeeps(packages[..n]);
      assert packages[..n] + [packages[n]] == packages;
    }
  }

  /** A numbering in which every dependency is known and comes before its dependents. */
  ghost predicate Ranking(ps: seq<Package>, rank: map<string, nat>) {
    forall p, d :: p in ps && d in p.deps ==> HasShort(ps, d) && d in rank && p.short in rank && rank[d] < rank[p.short]
  }

  ghost predicate Orderable(ps: seq<Package>) {
    exists rank :: Ranking(ps, rank)
  }

  function Concat(layers: seq<seq<Package>>): seq<Package> {
    if layers == [] then [] else Concat(layers[..|layers| - 1]) + layers[|layers| - 1]
  }

  function Names(ps: seq<Package>): (names: set<string>)
    ensures forall s :: s in names <==> HasShort(ps, s)
  {
    set p | p in ps :: p.short
  }

  /** The names of the first `n` layers. */
  function Placed(layers: seq<seq<Package>>, n: nat): set<string>
    requires n <= |layers|
  {
    if n == 0 then {} else Placed(layers, n - 1) + Names(layers[n - 1])
  }

  /** Some dependency of the package has not been placed. */
  ghost predicate Waits(p: Package, placed: set<string>) {
    exists d :: d in p.deps && d !in placed
  }

  /** A package in its earliest layer: all its dependencies lie above, and one in the layer directly above. */
  ghost predicate EarliestAt(layers: seq<seq<Package>>, i: nat, p: Package)
    requires i <= |layers|
  {
    && p.short !in Placed(layers, i)
    && (forall d :: d in p.deps ==> d in Placed(layers, i))
    && (i > 0 ==> Waits(p, Placed(layers, i - 1)))
  }

  ghost predicate Layered(layers: seq<seq<Package>>) {
    forall i, p {:trigger EarliestAt(layers, i, p)} :: 0 <= i < |layers| && p in layers[i] ==> EarliestAt(layers, i, p)
  }

  // ---------------------------------------------------------------- the loop

  function ReadyPackages(remaining: seq<Package>, placed: set<string>): (ready: seq<Package>)
    ensures forall p :: p in ready <==> p in remaining && forall d :: d in p.deps ==> d in placed
  {
    if remaining == [] then []
    else
      var p := remaining[0];
      var rest := ReadyPackages(remaining[1..], placed);
      if forall d :: d in p.deps ==> d in placed then [p] + rest else rest
  }

  function Without(remaining: seq<Package>, placed: set<string>): (rest: seq<Package>)
    ensures forall p :: p in rest <==> p in remaining && p.short !in placed
    ensures |rest| <= |remaining|
  {
    if remaining == [] then []
    else
      var rest := Without(remaining[1..], placed);
      if remaining[0].short in placed then rest else [remaining[0]] + rest
  }

  lemma {:induction false} WithoutTwice(remaining: seq<Package>, a: set<string>, b: set<string>)
    ensures Without(Without(remaining, a), b) == Without(remaining, a + b)
  {
    if remaining != [] {
      WithoutTwice(remaining[1..], a, b);
    }
  }

  lemma {:induction false} WithoutNone(remaining: seq<Package>)
    ensures Without(remaining, {}) == remaining
  {
    if remaining != [] {
      WithoutNone(remaining[1..]);
    }
  }

  lemma {:induction false} WithoutDistinct(remaining: seq<Package>, names: set<string>)
    requires Distinct(remaining)
    ensures Distinct(Without(remaining, names))
  {
    if remaining != [] {
      var rest := remaining[1..];
      WithoutDistinct(rest, names);
      forall i | 0 <= i < |Without(rest, names)| ensures Without(rest, names)[i].short != remaining[0].short {
        var p := Without(rest, names)[i];
        assert p in rest;
        var j :| 0 <= j < |rest| && rest[j] == p;
      }
    }
  }

  /** Taking the ready packages out of the remaining ones splits them in two. */
  lemma {:induction false} WithoutSplits(remaining: seq<Package>, placed: set<string>, names: set<string>)
    requires forall p :: p in remaining ==> (p.short in names <==> forall d :: d in p.deps ==> d in placed)
    ensures multiset(Without(remaining, names)) + multiset(ReadyPackages(remaining, placed)) == multiset(remaining)
  {
    if remaining != [] {
      var first, rest := remaining[0], remaining[1..];
      assert remaining == [first] + rest;
      assert first in remaining;
      var others, ready := Without(rest, names), ReadyPackages(rest, placed);
      WithoutSplits(rest, placed, names);
      if first.short in names {
        assert Without(remaining, names) == others && ReadyPackages(remaining, placed) == [first] + ready;
      } else {
        assert Without(remaining, names) == [first] + others && ReadyPackages(remaining, placed) == ready;
      }
    }
  }

  lemma PlacedAppend(layers: seq<seq<Package>>, layer: seq<Package>, n: nat)
    requires n <= |layers|
    ensures Placed(layers + [layer], n) == Placed(layers, n)
  {
    if n > 0 {
      PlacedAppend(layers, layer, n - 1);
    }
  }

  /** What the loop has built from the packages, layer by layer. */
  ghost predicate Building(
    ps: seq<Package>, groups: seq<string>, collation: string -> real,
    layers: seq<seq<Package>>, placed: set<string>, remaining: seq<Package>)
  {
    && Layered(layers)
    && placed == Placed(layers, |layers|)
    && (forall i :: 0 <= i < |layers| ==> layers[i] != [] && Sorted(layers[i], LayerOrder(groups, collation)))
    && multiset(Concat(layers)) + multiset(remaining) == multiset(ps)
    && Distinct(remaining)
    && (forall p :: p in remaining ==> p.short !in placed)
    && (layers != [] ==> forall p :: p in remaining ==> Waits(p, Placed(layers, |layers| - 1)))
  }

  lemma EarliestAppend(layers: seq<seq<Package>>, layer: seq<Package>, i: nat, p: Package)
    requires i <= |layers| && EarliestAt(layers, i, p)
    ensures EarliestAt(layers + [layer], i, p)
  {
    PlacedAppend(layers, layer, i);
    if i > 0 {
      PlacedAppend(layers, layer, i - 1);
    }
  }

  lemma LayeredAppend(layers: seq<seq<Package>>, layer: seq<Package>)
    requires Layered(layers) && forall p :: p in layer ==> EarliestAt(layers, |layers|, p)
    ensures Layered(layers + [layer])
  {
    hide EarliestAt;
    var more := layers + [layer];
    forall i, p | 0 <= i < |more| && p in more[i] ensures EarliestAt(more, i, p) {
      EarliestAppend(layers, layer, i, p);
    }
  }

  /** The ready packages are those whose earliest layer is the next one. */
  lemma ReadyIsEarliest(
    ps: seq<Package>, groups: seq<string>, collation: string -> real,
    layers: seq<seq<Package>>, placed: set<string>, remaining: seq<Package>, layer: seq<Package>)
    requires Building(ps, groups, collation, layers, placed, remaining)
    requires forall p :: p in layer <==> p in ReadyPackages(remaining, placed)
    ensures forall p :: p in layer ==> EarliestAt(layers, |layers|, p)
    ensures forall p :: p in remaining ==> (p.short in Names(layer) <==> forall d :: d in p.deps ==> d in placed)
    ensures forall p :: p in Without(remaining, Names(layer)) ==> Waits(p, placed) && p.short !in placed + Names(layer)
  {
    hide Sorted, Layered, Placed;
    forall p | p in remaining ensures p.short in Names(layer) <==> forall d :: d in p.deps ==> d in placed {
      if p.short in Names(layer) {
        var q :| q in layer && q.short == p.short;
        SameShort(remaining, p, q);
      } else {
        assert p !in layer;
      }
    }
    forall p | p in layer ensures EarliestAt(layers, |layers|, p) {
      assert p in remaining;
    }
  }

  lemma SortedAppend(
    layers: seq<seq<Package>>, layer: seq<Package>, groups: seq<string>, collation: string -> real)
    requires forall i :: 0 <= i < |layers| ==> layers[i] != [] && Sorted(layers[i], LayerOrder(groups, collation))
    requires layer != [] && Sorted(layer, LayerOrder(groups, collation))
    ensures
      var more := layers + [layer];
      forall i :: 0 <= i < |more| ==> more[i] != [] && Sorted(more[i], LayerOrder(groups, collation))
  {
    hide Sorted;
  }

  lemma NextLayer(
    ps: seq<Package>, groups: seq<string>, collation: string -> real,
    layers: seq<seq<Package>>, placed: set<string>, remaining: seq<Package>, layer: seq<Package>)
    requires Building(ps, groups, collation, layers, placed, remaining)
    requires layer != [] && Sorted(layer, LayerOrder(groups, collation))
    requires multiset(layer) == multiset(ReadyPackages(remaining, placed))
    ensures Building(
      ps, groups, collation, layers + [layer], placed + Names(layer), Without(remaining, Names(layer)))
    ensures |Without(remaining, Names(layer))| < |remaining|
    ensures Concat(layers + [layer]) == Concat(layers) + layer
  {
    hide Sorted, Layered, EarliestAt, ReadyPackages, Without, Waits, Names, HasShort, Concat, Placed, Distinct;
    SameMembers(layer, ReadyPackages(remaining, placed));
    ReadyIsEarliest(ps, groups, collation, layers, placed, remaining, layer);
    LayeredAppend(layers, layer);
    SortedAppend(layers, layer, groups, collation);
    OneMoreLayer(layers, layer);
    WithoutSplits(remaining, placed, Names(layer));
    WithoutDistinct(remaining, Names(layer));
    Regroup(Concat(layers), layer, Without(remaining, Names(layer)), remaining, ps);
  }

  lemma OneMoreLayer(layers: seq<seq<Package>>, layer: seq<Package>)
    ensures Concat(layers + [layer]) == Concat(layers) + layer
    ensures Placed(layers + [layer], |layers|) == Placed(layers, |layers|)
    ensures Placed(layers + [layer], |layers| + 1) == Placed(layers, |layers|) + Names(layer)
  {
    var more := layers + [layer];
    assert more[..|layers|] == layers && more[|layers|] == layer;
    PlacedAppend(layers, layer, |layers|);
  }

  lemma Regroup(out: seq<Package>, layer: seq<Package>, rest: seq<Package>, remaining: seq<Package>, ps: seq<Package>)
    requires multiset(out) + multiset(remaining) == multiset(ps)
    requires multiset(rest) + multiset(layer) == multiset(remaining) && layer != []
    ensures multiset(out + layer) + multiset(rest) == multiset(ps)
    ensures |rest| < |remaining|
  {
    assert |multiset(rest)| + |multiset(layer)| == |multiset(remaining)|;
  }

  lemma SameShort(ps: seq<Package>, p: Package, q: Package)
    requires Distinct(ps) && p in ps && q in ps && p.short == q.short
    ensures p == q
  {
    var i :| 0 <= i < |ps| && ps[i] == p;
    var j :| 0 <= j < |ps| && ps[j] == q;
  }

  /** With nothing ready, following unplaced dependencies never ends, so no ranking exists. */
  lemma {:induction false} StuckHasNoRanking(
    ps: seq<Package>, layers: seq<seq<Package>>, placed: set<string>, remaining: seq<Package>,
    rank: map<string, nat>, at: Package)
    requires multiset(Concat(layers)) + multiset(remaining) == multiset(ps)
    requires placed == Placed(layers, |layers|) && ReadyPackages(remaining, placed) == []
    requires Ranking(ps, rank) && at in remaining
    ensures false
    decreases if at.short in rank then rank[at.short] + 1 else 0
  {
    assert at !in ReadyPackages(remaining, placed);
    var d :| d in at.deps && d !in placed;
    assert at in multiset(remaining) && at in multiset(ps);
    assert at in ps && HasShort(ps, d);
    var q :| q in ps && q.short == d;
    assert q in multiset(Concat(layers)) + multiset(remaining);
    if q in Concat(layers) {
      ConcatPlaced(layers, q);
    } else {
      assert q in remaining;
      StuckHasNoRanking(ps, layers, placed, remaining, rank, q);
    }
  }

  lemma {:induction false} ConcatPlaced(layers: seq<seq<Package>>, p: Package)
    requires p in Concat(layers)
    ensures p.short in Placed(layers, |layers|)
    ensures exists i :: 0 <= i < |layers| && p in layers[i]
  {
    var n := |layers| - 1;
    if p in layers[n] {
    } else {
      ConcatPlaced(layers[..n], p);
      var i :| 0 <= i < n && p in layers[..n][i];
      assert layers[i] == layers[..n][i];
      assert layers[..n] + [layers[n]] == layers;
      PlacedAppend(layers[..n], layers[n], n);
    }
  }

  lemma {:induction false} PlacedIn(layers: seq<seq<Package>>, n: nat, s: string)
    requires n <= |layers| && s in Placed(layers, n)
    ensures exists i, p :: 0 <= i < n && p in layers[i] && p.short == s
  {
    if s in Placed(layers, n - 1) {
      PlacedIn(layers, n - 1, s);
    }
  }

  lemma {:induction false} PlacedGrows(layers: seq<seq<Package>>, m: nat, n: nat)
    requires m <= n <= |layers|
    ensures Placed(layers, m) <= Placed(layers, n)
  {
    if m < n {
      PlacedGrows(layers, m, n - 1);
    }
  }

  /** The number of the layer that places a name. */
  function LayerOf(layers: seq<seq<Package>>, n: nat, s: string): (i: nat)
    requires n <= |layers| && s in Placed(layers, n)
    ensures i < n && s in Placed(layers, i + 1) && s !in Placed(layers, i)
  {
    if s in Placed(layers, n - 1) then LayerOf(layers, n - 1, s) else n - 1
  }

  lemma LayersAreRanking(ps: seq<Package>, layers: seq<seq<Package>>)
    requires Layered(layers) && multiset(Concat(layers)) == multiset(ps)
    ensures Orderable(ps)
  {
    var n := |layers|;
    var rank := map s | s in Placed(layers, n) :: LayerOf(layers, n, s);
    SameMembers(Concat(layers), ps);
    forall p, d | p in ps && d in p.deps
      ensures HasShort(ps, d) && d in rank && p.short in rank && rank[d] < rank[p.short]
    {
      ConcatPlaced(layers, p);
      var i :| 0 <= i < n && p in layers[i];
      assert EarliestAt(layers, i, p);
      hide *;
      DependencyAbove(layers, i, p, d);
      var q :| q in Concat(layers) && q.short == d;
      assert q in ps;
      SomeShort(ps, q);
    }
    assert Ranking(ps, rank);
  }

  lemma SomeShort(ps: seq<Package>, p: Package)
    requires p in ps
    ensures HasShort(ps, p.short)
  {
  }

  lemma DependencyAbove(layers: seq<seq<Package>>, i: nat, p: Package, d: string)
    requires i < |layers| && p in layers[i] && EarliestAt(layers, i, p) && d in p.deps
    ensures exists q :: q in Concat(layers) && q.short == d
    ensures d in Placed(layers, |layers|) && p.short in Placed(layers, |layers|)
    ensures LayerOf(layers, |layers|, d) < LayerOf(layers, |layers|, p.short)
  {
    var n := |layers|;
    EarliestIsPlaced(layers, i, p, d);
    hide *;
    PlacedGrows(layers, i, n);
    PlacedGrows(layers, i + 1, n);
    PlacedIn(layers, i, d);
    var j, q :| 0 <= j < i && q in layers[j] && q.short == d;
    InConcat(layers, j, q);
    LayerBelow(layers, n, i, d);
    var k := LayerOf(layers, n, p.short);
    if k < i {
      PlacedGrows(layers, k + 1, i);
    }
  }

  lemma EarliestIsPlaced(layers: seq<seq<Package>>, i: nat, p: Package, d: string)
    requires i < |layers| && p in layers[i] && EarliestAt(layers, i, p) && d in p.deps
    ensures d in Placed(layers, i) && p.short in Placed(layers, i + 1)
  {
  }

  lemma LayerBelow(layers: seq<seq<Package>>, n: nat, i: nat, s: string)
    requires i <= n <= |layers| && s in Placed(layers, i) && s in Placed(layers, n)
    ensures LayerOf(layers, n, s) < i
  {
    var k := LayerOf(layers, n, s);
    if i <= k {
      PlacedGrows(layers, i, k);
    }
  }

  lemma {:induction false} InConcat(layers: seq<seq<Package>>, i: nat, p: Package)
    requires i < |layers| && p in layers[i]
    ensures p in Concat(layers)
  {
    var n := |layers| - 1;
    if i < n {
      assert layers[..n][i] == layers[i];
      InConcat(layers[..n], i, p);
    }
  }

  // ---------------------------------------------------------------- what the order promises

  /** No ranking puts a package lower than its layer: each package is placed as early as possible. */
  lemma {:induction false} LayerIsEarliest(
    ps: seq<Package>, layers: seq<seq<Package>>, rank: map<string, nat>, i: nat, p: Package)
    requires Layered(layers) && multiset(Concat(layers)) == multiset(ps) && Ranking(ps, rank)
    requires i < |layers| && p in layers[i]
    ensures i > 0 ==> p.short in rank && rank[p.short] >= i
  {
    if i > 0 {
      var d, q := LayerAbove(layers, i, p);
      hide *;
      LayerIsEarliest(ps, layers, rank, i - 1, q);
      InConcat(layers, i, p);
      SameMembers(Concat(layers), ps);
      RankFalls(ps, rank, p, d);
    }
  }

  lemma LayerAbove(layers: seq<seq<Package>>, i: nat, p: Package) returns (d: string, q: Package)
    requires Layered(layers) && 0 < i < |layers| && p in layers[i]
    ensures d in p.deps && q in layers[i - 1] && q.short == d
  {
    assert EarliestAt(layers, i, p);
    hide Layered;
    d :| d in p.deps && d !in Placed(layers, i - 1);
    assert d in Placed(layers, i);
    q :| q in layers[i - 1] && q.short == d;
  }

  lemma RankFalls(ps: seq<Package>, rank: map<string, nat>, p: Package, d: string)
    requires Ranking(ps, rank) && p in ps && d in p.deps
    ensures d in rank && p.short in rank && rank[d] < rank[p.short]
  {
  }

  /** Every dependency stands before its dependents. */
  lemma {:induction false} DependenciesFirst(layers: seq<seq<Package>>, i: nat, d: string)
    requires Layered(layers) && i < |Concat(layers)| && d in Concat(layers)[i].deps
    ensures exists j :: 0 <= j < i && Concat(layers)[j].short == d
  {
    var n := |layers| - 1;
    var before := Concat(layers[..n]);
    LayeredPrefix(layers);
    if i < |before| {
      DependenciesFirst(layers[..n], i, d);
      var j :| 0 <= j < i && before[j].short == d;
      assert Concat(layers)[j] == before[j];
    } else {
      var p := Concat(layers)[i];
      assert p in layers[n] && EarliestAt(layers, n, p);
      PlacedIn(layers, n, d);
      var k, q :| 0 <= k < n && q in layers[k] && q.short == d;
      assert layers[..n][k] == layers[k];
      InConcat(layers[..n], k, q);
      var j :| 0 <= j < |before| && before[j] == q;
      assert Concat(layers)[j] == before[j];
    }
  }

  lemma LayeredPrefix(layers: seq<seq<Package>>)
    requires layers != [] && Layered(layers)
    ensures Layered(layers[..|layers| - 1])
  {
    var n := |layers| - 1;
    var front := layers[..n];
    assert front + [layers[n]] == layers;
    forall i, p | 0 <= i < n && p in front[i] ensures EarliestAt(front, i, p) {
      assert EarliestAt(layers, i, p);
      PlacedAppend(front, layers[n], i);
      if i > 0 {
        PlacedAppend(front, layers[n], i - 1);
      }
    }
  }

  /** Each name that is reported as stuck still waits for a dependency that was never placed. */
  ghost predicate Stuck(ps: seq<Package>, names: seq<string>) {
    && names != []
    && forall s :: s in names ==>
         exists p :: p in ps && p.short == s && exists d :: d in p.deps && (d in names || !HasShort(ps, d))
  }

  /**
   * The order is made of earliest layers, each sorted, and holds each package once; it fails exactly
   * when a dependency cycle or an unknown dependency leaves no order at all.
   */
  method TopoSort(packages: seq<Package>, groups: seq<string>, collation: string -> real)
    returns (result: Result<seq<Package>, seq<string>>, ghost layers: seq<seq<Package>>)
    ensures result.Success? <==> Orderable(ByShort(packages))
    ensures result.Success? ==>
      && Layered(layers)
      && result.value == Concat(layers)
      && multiset(result.value) == multiset(ByShort(packages))
      && forall i :: 0 <= i < |layers| ==> layers[i] != [] && Sorted(layers[i], LayerOrder(groups, collation))
    ensures result.Failure? ==> Stuck(ByShort(packages), result.error)
  {
    hide Sorted, InOrder, LayerOrder, ByShort, Layered;
    ghost var ps := ByShort(packages);
    var remaining := ByShort(packages);
    var placed: set<string> := {};
    var out: seq<Package> := [];
    layers := [];
    ByShortDistinct(packages);
    BuildingStarts(ps, groups, collation);
    while |remaining| > 0
      invariant Building(ps, groups, collation, layers, placed, remaining)
      invariant out == Concat(layers)
      decreases |remaining|
    {
      var ready := Sort(ReadyPackages(remaining, placed), LayerOrder(groups, collation));
      LayerOrderTotal(groups, collation);
      Sorts(ReadyPackages(remaining, placed), LayerOrder(groups, collation));
      if |ready| == 0 {
        ReportStuck(ps, groups, collation, layers, placed, remaining);
        return Failure(Shorts(remaining)), layers;
      }
      NextLayer(ps, groups, collation, layers, placed, remaining, ready);
      out, placed, remaining := PlaceAll(ready, out, placed, remaining);
      layers := layers + [ready];
    }
    AllPlaced(ps, groups, collation, layers, placed, remaining);
    result := Success(out);
  }

  lemma OneMoreName(ps: seq<Package>, k: nat)
    requires k < |ps|
    ensures ps[..k + 1] == ps[..k] + [ps[k]]
    ensures Names(ps[..k + 1]) == Names(ps[..k]) + {ps[k].short}
  {
  }

  lemma OneMoreOut(out: seq<Package>, ready: seq<Package>, k: nat)
    requires k < |ready|
    ensures out + ready[..k + 1] == out + ready[..k] + [ready[k]]
  {
  }

  /** The loop that moves the ready packages from the remaining ones to the output. */
  method PlaceAll(ready: seq<Package>, out0: seq<Package>, placed0: set<string>, remaining0: seq<Package>)
    returns (out: seq<Package>, placed: set<string>, remaining: seq<Package>)
    ensures out == out0 + ready
    ensures placed == placed0 + Names(ready)
    ensures remaining == Without(remaining0, Names(ready))
  {
    out, placed, remaining := out0, placed0, remaining0;
    WithoutNone(remaining0);
    assert Names(ready[..0]) == {};
    hide *;
    for k := 0 to |ready|
      invariant out == out0 + ready[..k]
      invariant placed == placed0 + Names(ready[..k])
      invariant remaining == Without(remaining0, Names(ready[..k]))
    {
      OneMoreName(ready, k);
      OneMoreOut(out0, ready, k);
      WithoutTwice(remaining0, Names(ready[..k]), {ready[k].short});
      out := out + [ready[k]];
      placed := placed + {ready[k].short};
      remaining := Without(remaining, {ready[k].short});
    }
    assert ready[..|ready|] == ready;
  }

  function Shorts(ps: seq<Package>): seq<string> {
    seq(|ps|, i requires 0 <= i < |ps| => ps[i].short)
  }

  lemma BuildingStarts(ps: seq<Package>, groups: seq<string>, collation: string -> real)
    requires Distinct(ps)
    ensures Building(ps, groups, collation, [], {}, ps)
  {
  }

  lemma AllPlaced(
    ps: seq<Package>, groups: seq<string>, collation: string -> real,
    layers: seq<seq<Package>>, placed: set<string>, remaining: seq<Package>)
    requires Building(ps, groups, collation, layers, placed, remaining) && remaining == []
    ensures Orderable(ps) && multiset(Concat(layers)) == multiset(ps)
  {
    assert multiset(Concat(layers)) == multiset(ps);
    LayersAreRanking(ps, layers);
  }

  lemma ReportStuck(
    ps: seq<Package>, groups: seq<string>, collation: string -> real,
    layers: seq<seq<Package>>, placed: set<string>, remaining: seq<Package>)
    requires Building(ps, groups, collation, layers, placed, remaining) && remaining != []
    requires multiset(ReadyPackages(remaining, placed)) == multiset{}
    ensures !Orderable(ps) && Stuck(ps, Shorts(remaining))
  {
    hide Layered, Sorted, LayerOrder, Distinct, Placed, Concat;
    var ready := ReadyPackages(remaining, placed);
    assert |multiset(ready)| == 0;
    forall rank | Ranking(ps, rank) ensures false {
      assert remaining[0] in remaining;
      StuckHasNoRanking(ps, layers, placed, remaining, rank, remaining[0]);
    }
    forall s | s in Shorts(remaining)
      ensures exists p ::
                p in ps && p.short == s && exists d :: d in p.deps && (d in Shorts(remaining) || !HasShort(ps, d))
    {
      var i :| 0 <= i < |remaining| && Shorts(remaining)[i] == s;
      var p := remaining[i];
      assert p in multiset(ps) && p !in ready;
      var d :| d in p.deps && d !in placed;
      if HasShort(ps, d) {
        var q :| q in ps && q.short == d;
        assert q in multiset(Concat(layers)) + multiset(remaining);
        if q in Concat(layers) {
          ConcatPlaced(layers, q);
        }
        var j :| 0 <= j < |remaining| && remaining[j] == q;
        assert Shorts(remaining)[j] == d;
      }
    }
  }
}
