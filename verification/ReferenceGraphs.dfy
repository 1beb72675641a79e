/** Two worklists over project references: face isolation and the search for one referenced project. */
module ReferenceGraphs {
  import opened Collections
  import opened Wrappers
  import opened StableSort

  /** An absolute path, as its segments. */
  type Path = seq<string>

  /** A reference without a text path is None. */
  datatype Config = Config(references: seq<Option<string>>, base: Option<string>)

  /** The configs that exist, and how a relative path is resolved from a directory. */
  datatype World = World(root: Path, configs: map<Path, Config>, resolve: (Path, string) -> Path)

  function Directory(p: Path): Path {
    if p == [] then [] else p[..|p| - 1]
  }

  function FileName(p: Path): string {
    if p == [] then "" else p[|p| - 1]
  }

  predicate EndsWith(s: string, suffix: string) {
    |suffix| <= |s| && s[|s| - |suffix|..] == suffix
  }

  predicate IsJson(p: Path) {
    EndsWith(FileName(p), ".json")
  }

  function ConfigOf(p: Path): Path {
    if IsJson(p) then p else p + ["tsconfig.json"]
  }

  // ---------------------------------------------------------------- reachability

  /** For each config that exists, the configs its references lead to. */
  type Edges = map<Path, seq<Path>>

  ghost predicate Walk(edges: Edges, path: seq<Path>) {
    && path != []
    && (forall i :: 0 <= i < |path| ==> path[i] in edges)
    && forall i :: 0 <= i < |path| - 1 ==> path[i + 1] in edges[path[i]]
  }

  ghost predicate Reachable(edges: Edges, starts: seq<Path>, c: Path) {
    exists path :: Walk(edges, path) && path[0] in starts && path[|path| - 1] == c
  }

  /** What a worklist knows: everything found is reachable, and nothing next to it is forgotten. */
  ghost predicate Exploring(edges: Edges, starts: seq<Path>, pending: seq<Path>, visited: set<Path>) {
    && visited <= edges.Keys
    && (forall c :: c in visited ==> Reachable(edges, starts, c))
    && (forall c :: c in pending && c in edges ==> Reachable(edges, starts, c))
    && (forall c :: c in starts && c in edges ==> c in visited || c in pending)
    && (forall c, n :: c in visited && n in edges[c] && n in edges ==> n in visited || n in pending)
  }

  lemma ExploringStarts(edges: Edges, starts: seq<Path>)
    ensures Exploring(edges, starts, starts, {})
  {
    forall c | c in starts && c in edges ensures Reachable(edges, starts, c) {
      assert Walk(edges, [c]);
    }
  }

  lemma ExploringSkips(edges: Edges, starts: seq<Path>, pending: seq<Path>, visited: set<Path>)
    requires pending != [] && Exploring(edges, starts, pending, visited)
    requires pending[|pending| - 1] in visited || pending[|pending| - 1] !in edges
    ensures Exploring(edges, starts, pending[..|pending| - 1], visited)
  {
    hide Reachable;
    assert pending == pending[..|pending| - 1] + [pending[|pending| - 1]];
  }

  lemma ExploringExpands(edges: Edges, starts: seq<Path>, pending: seq<Path>, visited: set<Path>)
    requires pending != [] && Exploring(edges, starts, pending, visited)
    requires pending[|pending| - 1] in edges
    ensures
      var c := pending[|pending| - 1];
      Exploring(edges, starts, pending[..|pending| - 1] + edges[c], visited + {c})
  {
    var c := pending[|pending| - 1];
    assert c in pending && Reachable(edges, starts, c);
    assert pending == pending[..|pending| - 1] + [c];
    hide *;
    forall n | n in edges[c] && n in edges ensures Reachable(edges, starts, n) {
      OneFurther(edges, starts, c, n);
    }
    ExpandKeeps(edges, starts, pending[..|pending| - 1], visited, c);
  }

  lemma OneFurther(edges: Edges, starts: seq<Path>, c: Path, n: Path)
    requires Reachable(edges, starts, c) && c in edges && n in edges[c] && n in edges
    ensures Reachable(edges, starts, n)
  {
    var path :| Walk(edges, path) && path[0] in starts && path[|path| - 1] == c;
    assert Walk(edges, path + [n]);
    assert (path + [n])[0] in starts;
  }

  lemma ExpandKeeps(edges: Edges, starts: seq<Path>, rest: seq<Path>, visited: set<Path>, c: Path)
    requires Exploring(edges, starts, rest + [c], visited) && c in edges
    requires forall n :: n in edges[c] && n in edges ==> Reachable(edges, starts, n)
    ensures Exploring(edges, starts, rest + edges[c], visited + {c})
  {
    hide Reachable;
    assert c in rest + [c];
  }

  lemma {:induction false} ExploredCovers(edges: Edges, starts: seq<Path>, visited: set<Path>, path: seq<Path>)
    requires Exploring(edges, starts, [], visited) && Walk(edges, path) && path[0] in starts
    ensures path[|path| - 1] in visited
  {
    hide Reachable;
    var n := |path| - 1;
    if n > 0 {
      assert Walk(edges, path[..n]);
      ExploredCovers(edges, starts, visited, path[..n]);
      assert path[n - 1 + 1] in edges[path[n - 1]];
    }
  }

  lemma ExploredIsReachable(edges: Edges, starts: seq<Path>, visited: set<Path>)
    requires Exploring(edges, starts, [], visited)
    ensures forall c :: c in visited <==> Reachable(edges, starts, c)
  {
    forall c | Reachable(edges, starts, c) ensures c in visited {
      var path :| Walk(edges, path) && path[0] in starts && path[|path| - 1] == c;
      ExploredCovers(edges, starts, visited, path);
    }
  }

  // ---------------------------------------------------------------- which split project a path is in

  predicate IsSplit(w: World, dir: Path) {
    dir + ["tsconfig.host.json"] in w.configs && dir + ["tsconfig.client.json"] in w.configs
  }

  /** A directory is split exactly when it has the configs of both faces. */
  lemma IsSplitIff(w: World, dir: Path)
    ensures IsSplit(w, dir) <==>
      forall name :: name in {"tsconfig.host.json", "tsconfig.client.json"} ==> dir + [name] in w.configs
  {
    var host, client := dir + ["tsconfig.host.json"], dir + ["tsconfig.client.json"];
    assert "tsconfig.host.json" in {"tsconfig.host.json", "tsconfig.client.json"};
    assert "tsconfig.client.json" in {"tsconfig.host.json", "tsconfig.client.json"};
  }

  /** The length of the path's text: every segment with its separator. */
  function TextLength(p: Path): nat {
    if p == [] then 0 else TextLength(p[..|p| - 1]) + |p[|p| - 1]| + 1
  }

  function LongerFirst(): (Path, Path) -> bool {
    (p: Path, q: Path) => TextLength(p) >= TextLength(q)
  }

  function SplitDirs(w: World, dirs: seq<Path>): (r: seq<Path>)
    ensures forall q :: q in r <==> q in dirs && IsSplit(w, q)
  {
    if dirs == [] then []
    else (if IsSplit(w, dirs[0]) then [dirs[0]] else []) + SplitDirs(w, dirs[1..])
  }

  /** The split projects among the workspace directories, longest path first. */
  function SplitRoots(w: World, dirs: seq<Path>): seq<Path> {
    Sort(SplitDirs(w, dirs), LongerFirst())
  }

  function ContainingSplitRoot(roots: seq<Path>, target: Path): Option<Path> {
    if roots == [] then None
    else if roots[0] <= target then Some(roots[0])
    else ContainingSplitRoot(roots[1..], target)
  }

  lemma SplitRootsOrdered(w: World, dirs: seq<Path>)
    ensures Sorted(SplitRoots(w, dirs), LongerFirst())
    ensures forall q :: q in SplitRoots(w, dirs) <==> q in dirs && IsSplit(w, q)
  {
    Sorts(SplitDirs(w, dirs), LongerFirst());
    SameMembers(SplitRoots(w, dirs), SplitDirs(w, dirs));
  }

  /** The innermost split project that contains the path. */
  ghost predicate Owner(w: World, dirs: seq<Path>, target: Path, d: Path) {
    && d in dirs && IsSplit(w, d) && d <= target
    && forall e :: e in dirs && IsSplit(w, e) && e <= target ==> e <= d
  }

  lemma {:induction false} ShorterText(d: Path, e: Path, target: Path)
    requires d <= target && e <= target && TextLength(e) <= TextLength(d)
    ensures e <= d
  {
    if |d| < |e| {
      assert e == target[..|e|] && d == target[..|d|];
      assert d <= e;
      PrefixText(d, e);
    } else {
      assert e == target[..|e|] && d == target[..|d|];
    }
  }

  lemma {:induction false} PrefixText(d: Path, e: Path)
    requires d <= e
    ensures TextLength(d) + (|e| - |d|) <= TextLength(e)
  {
    if |d| < |e| {
      PrefixText(d, e[..|e| - 1]);
    } else {
      assert d == e;
    }
  }

  lemma {:induction false} FirstContaining(roots: seq<Path>, target: Path)
    requires Sorted(roots, LongerFirst())
    ensures
      match ContainingSplitRoot(roots, target)
      case None => forall e :: e in roots ==> !(e <= target)
      case Some(d) => d in roots && d <= target && forall e :: e in roots && e <= target ==> e <= d
  {
    if roots == [] {
    } else if roots[0] <= target {
      forall e | e in roots && e <= target ensures e <= roots[0] {
        var i :| 0 <= i < |roots| && roots[i] == e;
        assert i > 0 ==> LongerFirst()(roots[0], roots[i]);
        ShorterText(roots[0], e, target);
      }
    } else {
      FirstContaining(roots[1..], target);
      assert forall e :: e in roots <==> e == roots[0] || e in roots[1..];
    }
  }

  /** The first containing root of the sorted list is the innermost split project. */
  lemma ContainingIsOwner(w: World, dirs: seq<Path>, target: Path, d: Path)
    ensures ContainingSplitRoot(SplitRoots(w, dirs), target) == Some(d) <==> Owner(w, dirs, target, d)
  {
    hide TextLength, IsSplit, Sorted, LongerFirst, SplitRoots;
    var roots := SplitRoots(w, dirs);
    SplitRootsOrdered(w, dirs);
    FirstContaining(roots, target);
    if Owner(w, dirs, target, d) {
      assert d in roots;
      var found := ContainingSplitRoot(roots, target).value;
      assert found in roots && found <= d && d <= found;
      assert found == d[..|found|] && d[..|found|] == d;
    }
  }

  // ---------------------------------------------------------------- the face of a config

  datatype Face = Host | Client

  function LeafName(f: Face): string {
    match f
    case Host => "tsconfig.host.json"
    case Client => "tsconfig.client.json"
  }

  /** The face a config has by its own name or place. */
  function OwnFace(w: World, c: Path): Option<Face> {
    if FileName(c) == "tsconfig.host.json" then Some(Host)
    else if FileName(c) == "tsconfig.client.json" then Some(Client)
    else if c == w.root + ["tsconfig.base.json"] then Some(Host)
    else if c == w.root + ["tsconfig.base.client.json"] then Some(Client)
    else None
  }

  /** A config has a face of its own exactly by one of two file names, or as one of the two base configs. */
  lemma OwnFaceIff(w: World, c: Path)
    ensures OwnFace(w, c) == Some(Host) <==>
      (c != [] && c[|c| - 1] == "tsconfig.host.json") || c == w.root + ["tsconfig.base.json"]
    ensures OwnFace(w, c) == Some(Client) <==>
      (c != [] && c[|c| - 1] == "tsconfig.client.json") || c == w.root + ["tsconfig.base.client.json"]
  {
    var host, client := w.root + ["tsconfig.base.json"], w.root + ["tsconfig.base.client.json"];
    assert FileName(host) == "tsconfig.base.json" && FileName(client) == "tsconfig.base.client.json";
    FaceNamesDiffer();
  }

  lemma FaceNamesDiffer()
    ensures "tsconfig.base.json" != "tsconfig.host.json" && "tsconfig.base.json" != "tsconfig.client.json"
    ensures "tsconfig.base.client.json" != "tsconfig.host.json"
    ensures "tsconfig.base.client.json" != "tsconfig.client.json"
    ensures "tsconfig.host.json" != "tsconfig.client.json" && "tsconfig.base.json" != "tsconfig.base.client.json"
  {
    assert "tsconfig.base.json"[9] == 'b' && "tsconfig.host.json"[9] == 'h' && "tsconfig.client.json"[9] == 'c';
    assert "tsconfig.base.client.json"[9] == 'b' && |"tsconfig.base.json"| == 18 && |"tsconfig.base.client.json"| == 25;
  }

  function WithJson(p: Path): Path {
    if IsJson(p) then p else Directory(p) + [FileName(p) + ".json"]
  }

  /** The local config that a config extends, if it exists. */
  function Base(w: World, c: Path): (b: Option<Path>)
    ensures b.Some? ==> b.value in w.configs
  {
    if c !in w.configs || w.configs[c].base.None? then None
    else
      var value := w.configs[c].base.value;
      if value == "" || value[0] != '.' then None
      else
        var parent := WithJson(w.resolve(Directory(c), value));
        if parent in w.configs then Some(parent) else None
  }

  /** The last name of the path ends in `.json`. */
  ghost predicate NamesJson(p: Path) {
    p != [] && exists stem :: p[|p| - 1] == stem + ".json"
  }

  lemma IsJsonIff(p: Path)
    ensures IsJson(p) <==> NamesJson(p)
  {
    if p == [] {
      assert |".json"| == 5;
    } else {
      EndsWithIff(p[|p| - 1], ".json");
    }
  }

  lemma EndsWithIff(s: string, suffix: string)
    ensures EndsWith(s, suffix) <==> exists stem :: s == stem + suffix
  {
    if EndsWith(s, suffix) {
      assert s == s[..|s| - |suffix|] + suffix;
    }
  }

  /** A reference to anything but a JSON file is to the config in that directory; a base gets the ending added. */
  lemma PathsOfConfigs(p: Path)
    ensures NamesJson(p) ==> ConfigOf(p) == p && WithJson(p) == p
    ensures !NamesJson(p) ==> ConfigOf(p) == p + ["tsconfig.json"]
    ensures !NamesJson(p) && p != [] ==> WithJson(p) == p[..|p| - 1] + [p[|p| - 1] + ".json"]
  {
    IsJsonIff(p);
    hide IsJson, NamesJson;
  }

  /** A config extends exactly the existing file that its text leads to, if the text is a relative one. */
  lemma BaseIff(w: World, c: Path, parent: Path)
    ensures Base(w, c) == Some(parent) <==>
      exists value, rest ::
        && c in w.configs && w.configs[c].base == Some(value) && value == "." + rest
        && parent == WithJson(w.resolve(Directory(c), value)) && parent in w.configs
  {
    hide IsJson, WithJson;
    if Base(w, c) == Some(parent) {
      var value := w.configs[c].base.value;
      assert value == "." + value[1..];
    }
  }

  function ProjectFace(w: World, c: Path, seen: set<Path>): Option<Face>
    requires c in w.configs
    decreases w.configs.Keys - seen
  {
    if OwnFace(w, c).Some? then OwnFace(w, c)
    else if c in seen then None
    else
      var parent := Base(w, c);
      if parent.None? then None else ProjectFace(w, parent.value, seen + {c})
  }

  /** The first face found along at most `n` steps of extending, with no memory of where it has been. */
  ghost function FaceWithin(w: World, c: Path, n: nat): Option<Face>
    decreases n
  {
    if OwnFace(w, c).Some? || n == 0 || Base(w, c).None? then OwnFace(w, c)
    else FaceWithin(w, Base(w, c).value, n - 1)
  }

  lemma {:induction false} ClosedHasNoFace(w: World, closed: set<Path>, c: Path, n: nat)
    requires c in closed
    requires forall s :: s in closed ==> OwnFace(w, s).None? && (Base(w, s).Some? ==> Base(w, s).value in closed)
    ensures FaceWithin(w, c, n) == None
    decreases n
  {
    hide OwnFace, Base;
    if n > 0 && Base(w, c).Some? {
      ClosedHasNoFace(w, closed, Base(w, c).value, n - 1);
    }
  }

  /**
   * The visited set only cuts cycles: following bases without any memory settles on the same face,
   * however far it goes.
   */
  lemma {:induction false} FaceIsFirst(w: World, c: Path, seen: set<Path>) returns (enough: nat)
    requires c in w.configs
    requires forall s :: s in seen ==> OwnFace(w, s).None? && (Base(w, s).Some? ==> Base(w, s).value in seen + {c})
    ensures forall n: nat :: n >= enough ==> FaceWithin(w, c, n) == ProjectFace(w, c, seen)
    decreases w.configs.Keys - seen
  {
    hide OwnFace, Base;
    enough := 0;
    if OwnFace(w, c).Some? {
    } else if c in seen {
      assert seen + {c} == seen;
      forall n: nat ensures FaceWithin(w, c, n) == None {
        ClosedHasNoFace(w, seen, c, n);
      }
    } else if Base(w, c).Some? {
      var parent := Base(w, c).value;
      var further := FaceIsFirst(w, parent, seen + {c});
      enough := further + 1;
      forall n: nat | n >= enough ensures FaceWithin(w, c, n) == ProjectFace(w, c, seen) {
        assert FaceWithin(w, c, n) == FaceWithin(w, parent, n - 1);
      }
    }
  }

  // ---------------------------------------------------------------- face isolation

  datatype Violation = Violation(config: Path, reference: string, owner: Path, expected: Option<Path>)

  function ReferenceTarget(w: World, c: Path, reference: string): Path {
    ConfigOf(w.resolve(Directory(c), reference))
  }

  /** What one reference of a config comes to: a violation, or the config to go on with. */
  function Judge(w: World, roots: seq<Path>, c: Path, reference: string): Result<Path, Violation>
    requires c in w.configs
  {
    var target := ReferenceTarget(w, c, reference);
    var owner := ContainingSplitRoot(roots, target);
    if owner.None? then Success(target)
    else
      match ProjectFace(w, c, {})
      case None => Failure(Violation(c, reference, owner.value, None))
      case Some(face) =>
        var expected := owner.value + [LeafName(face)];
        if target != expected then Failure(Violation(c, reference, owner.value, Some(expected)))
        else Success(target)
  }

  /** The targets of the references that are followed. */
  function Followed(w: World, roots: seq<Path>, c: Path, references: seq<Option<string>>): seq<Path>
    requires c in w.configs
  {
    if references == [] then []
    else
      var n := |references| - 1;
      Followed(w, roots, c, references[..n]) +
      (if references[n].None? then []
       else match Judge(w, roots, c, references[n].value) case Success(t) => [t] case Failure(_) => [])
  }

  function Found(w: World, roots: seq<Path>, c: Path, references: seq<Option<string>>): seq<Violation>
    requires c in w.configs
  {
    if references == [] then []
    else
      var n := |references| - 1;
      Found(w, roots, c, references[..n]) +
      (if references[n].None? then []
       else match Judge(w, roots, c, references[n].value) case Success(_) => [] case Failure(v) => [v])
  }

  /** The graph that the face check walks: only references without a violation are edges. */
  function FollowedEdges(w: World, roots: seq<Path>): Edges {
    map c | c in w.configs :: Followed(w, roots, c, w.configs[c].references)
  }

  function Aggregates(w: World): seq<Path> {
    [w.root + ["tsconfig.host.json"], w.root + ["tsconfig.client.json"]]
  }

  function AllFound(w: World, roots: seq<Path>, order: seq<Path>): seq<Violation>
    requires forall c :: c in order ==> c in w.configs
  {
    if order == [] then []
    else
      var n := |order| - 1;
      AllFound(w, roots, order[..n]) + Found(w, roots, order[n], w.configs[order[n]].references)
  }

  /** The references of one config, one after another. */
  method Inspect(w: World, roots: seq<Path>, c: Path) returns (targets: seq<Path>, violations: seq<Violation>)
    requires c in w.configs
    ensures targets == Followed(w, roots, c, w.configs[c].references)
    ensures violations == Found(w, roots, c, w.configs[c].references)
  {
    hide Judge;
    targets, violations := [], [];
    var references := w.configs[c].references;
    for k := 0 to |references|
      invariant targets == Followed(w, roots, c, references[..k])
      invariant violations == Found(w, roots, c, references[..k])
    {
      assert references[..k + 1][..k] == references[..k];
      if references[k].Some? {
        match Judge(w, roots, c, references[k].value) {
          case Success(target) => targets := targets + [target];
          case Failure(violation) => violations := violations + [violation];
        }
      }
    }
    assert references[..|references|] == references;
  }

  // ---------------------------------------------------------------- what face isolation means

  /** All references as edges, right or wrong. */
  function AllTargets(w: World, c: Path, references: seq<Option<string>>): seq<Path> {
    if references == [] then []
    else
      var n := |references| - 1;
      AllTargets(w, c, references[..n]) +
      (if references[n].None? then [] else [ReferenceTarget(w, c, references[n].value)])
  }

  function AllEdges(w: World): Edges {
    map c | c in w.configs :: AllTargets(w, c, w.configs[c].references)
  }

  /** A reference that enters a split project names the leaf of its own config's face. */
  ghost predicate Isolated(w: World, dirs: seq<Path>, c: Path, target: Path)
    requires c in w.configs
  {
    forall d :: Owner(w, dirs, target, d) ==>
      match ProjectFace(w, c, {})
      case None => false
      case Some(face) => target == d + [LeafName(face)]
  }

  lemma JudgeIsIsolated(w: World, dirs: seq<Path>, c: Path, reference: string)
    requires c in w.configs
    ensures
      var r := Judge(w, SplitRoots(w, dirs), c, reference);
      && (r.Success? <==> Isolated(w, dirs, c, ReferenceTarget(w, c, reference)))
      && (r.Success? ==> r.value == ReferenceTarget(w, c, reference))
      && (r.Failure? ==> Owner(w, dirs, ReferenceTarget(w, c, reference), r.error.owner))
  {
    var target := ReferenceTarget(w, c, reference);
    forall d ensures ContainingSplitRoot(SplitRoots(w, dirs), target) == Some(d) <==> Owner(w, dirs, target, d) {
      ContainingIsOwner(w, dirs, target, d);
    }
    hide SplitRoots, ContainingSplitRoot, Owner, ProjectFace, ReferenceTarget;
  }

  /** What a violation says: the config and its reference, the project entered, and the leaf expected there. */
  lemma ViolationSays(w: World, dirs: seq<Path>, c: Path, reference: string, v: Violation)
    requires c in w.configs && Judge(w, SplitRoots(w, dirs), c, reference) == Failure(v)
    ensures v.config == c && v.reference == reference
    ensures Owner(w, dirs, ReferenceTarget(w, c, reference), v.owner)
    ensures match ProjectFace(w, c, {})
            case None => v.expected == None
            case Some(Host) => v.expected == Some(v.owner + ["tsconfig.host.json"])
            case Some(Client) => v.expected == Some(v.owner + ["tsconfig.client.json"])
  {
    JudgeIsIsolated(w, dirs, c, reference);
    hide SplitRoots, ContainingSplitRoot, Owner, ProjectFace, ReferenceTarget;
  }

  /** The references of a config that are violations, and the ones that are followed. */
  lemma {:induction false} FoundIff(w: World, roots: seq<Path>, c: Path, references: seq<Option<string>>)
    requires c in w.configs
    ensures forall v :: v in Found(w, roots, c, references) <==>
              exists r :: Some(r) in references && Judge(w, roots, c, r) == Failure(v)
    ensures forall t :: t in Followed(w, roots, c, references) <==>
              exists r :: Some(r) in references && Judge(w, roots, c, r) == Success(t)
    ensures forall t :: t in AllTargets(w, c, references) <==>
              exists r :: Some(r) in references && ReferenceTarget(w, c, r) == t
  {
    hide Judge, ReferenceTarget;
    if references != [] {
      var n := |references| - 1;
      FoundIff(w, roots, c, references[..n]);
      assert references == references[..n] + [references[n]];
    }
  }

  lemma {:induction false} WhoReported(w: World, roots: seq<Path>, order: seq<Path>, v: Violation) returns (c: Path)
    requires forall c :: c in order ==> c in w.configs
    requires v in AllFound(w, roots, order)
    ensures c in order && v in Found(w, roots, c, w.configs[c].references)
  {
    var n := |order| - 1;
    c := order[n];
    hide Found;
    if v !in Found(w, roots, c, w.configs[c].references) {
      c := WhoReported(w, roots, order[..n], v);
    }
  }

  lemma {:induction false} IsReported(w: World, roots: seq<Path>, order: seq<Path>, c: Path, v: Violation)
    requires forall c :: c in order ==> c in w.configs
    requires c in order && v in Found(w, roots, c, w.configs[c].references)
    ensures v in AllFound(w, roots, order)
  {
    var n := |order| - 1;
    hide Found;
    if c != order[n] {
      assert c in order[..n];
      IsReported(w, roots, order[..n], c, v);
    }
  }

  /** What a violation says: a reached config has the reference, and the reference is not isolated. */
  ghost predicate Wrong(w: World, dirs: seq<Path>, v: Violation) {
    exists c, r ::
      && Reachable(FollowedEdges(w, SplitRoots(w, dirs)), Aggregates(w), c) && c in w.configs
      && Some(r) in w.configs[c].references
      && !Isolated(w, dirs, c, ReferenceTarget(w, c, r))
      && Judge(w, SplitRoots(w, dirs), c, r) == Failure(v)
  }

  /** The reported violations are exactly the wrong references of the configs that are reached. */
  lemma ViolationsExact(w: World, dirs: seq<Path>, order: seq<Path>, v: Violation)
    requires forall c :: c in order <==> Reachable(FollowedEdges(w, SplitRoots(w, dirs)), Aggregates(w), c)
    requires forall c :: c in order ==> c in w.configs
    ensures v in AllFound(w, SplitRoots(w, dirs), order) <==> Wrong(w, dirs, v)
  {
    var roots := SplitRoots(w, dirs);
    if v in AllFound(w, roots, order) {
      var c := WhoReported(w, roots, order, v);
    }
    forall c | c in order && v in Found(w, roots, c, w.configs[c].references) ensures v in AllFound(w, roots, order) {
      IsReported(w, roots, order, c, v);
    }
    forall c | c in w.configs
      ensures v in Found(w, roots, c, w.configs[c].references) <==>
              exists r :: Some(r) in w.configs[c].references && Judge(w, roots, c, r) == Failure(v)
    {
      FoundIff(w, roots, c, w.configs[c].references);
    }
    forall c, r | c in w.configs && Judge(w, roots, c, r) == Failure(v)
      ensures !Isolated(w, dirs, c, ReferenceTarget(w, c, r))
    {
      JudgeIsIsolated(w, dirs, c, r);
    }
    hide Reachable, FollowedEdges, SplitRoots, Aggregates, Isolated, ReferenceTarget, Judge, AllFound, Found;
  }

  ghost predicate AllIsolated(w: World, dirs: seq<Path>, c: Path)
    requires c in w.configs
  {
    forall r :: Some(r) in w.configs[c].references ==> Isolated(w, dirs, c, ReferenceTarget(w, c, r))
  }

  lemma NothingFoundIff(w: World, dirs: seq<Path>, c: Path)
    requires c in w.configs
    ensures Found(w, SplitRoots(w, dirs), c, w.configs[c].references) == [] <==> AllIsolated(w, dirs, c)
    ensures AllIsolated(w, dirs, c) ==>
      forall t :: t in AllEdges(w)[c] <==> t in FollowedEdges(w, SplitRoots(w, dirs))[c]
    ensures forall t :: t in FollowedEdges(w, SplitRoots(w, dirs))[c] ==> t in AllEdges(w)[c]
  {
    var roots, references := SplitRoots(w, dirs), w.configs[c].references;
    FoundIff(w, roots, c, references);
    forall r ensures
      var j := Judge(w, roots, c, r);
      && (j.Success? <==> Isolated(w, dirs, c, ReferenceTarget(w, c, r)))
      && (j.Success? ==> j.value == ReferenceTarget(w, c, r))
    {
      JudgeIsIsolated(w, dirs, c, r);
    }
    assert AllEdges(w)[c] == AllTargets(w, c, references);
    assert FollowedEdges(w, roots)[c] == Followed(w, roots, c, references);
    hide Judge, ReferenceTarget, Isolated, Found, Followed, AllTargets, SplitRoots;
    if Found(w, roots, c, references) != [] {
      assert Found(w, roots, c, references)[0] in Found(w, roots, c, references);
    }
  }

  /** A walk stays a walk in a graph that has all its edges. */
  lemma {:induction false} SameWalk(a: Edges, b: Edges, starts: seq<Path>, path: seq<Path>)
    requires a.Keys == b.Keys && Walk(a, path) && path[0] in starts
    requires forall c, t :: Reachable(b, starts, c) && c in a && t in a[c] ==> t in b[c]
    ensures Walk(b, path)
    ensures Reachable(b, starts, path[|path| - 1])
  {
    var n := |path| - 1;
    if n > 0 {
      assert Walk(a, path[..n]);
      SameWalk(a, b, starts, path[..n]);
      assert path[n - 1 + 1] in a[path[n - 1]];
      assert path[..n][n - 1] == path[n - 1];
      assert Walk(b, path) by {
        forall i | 0 <= i < |path| - 1 ensures path[i + 1] in b[path[i]] {
          if i < n - 1 {
            assert path[..n][i + 1] in b[path[..n][i]];
          }
        }
      }
    }
  }

  lemma SameReach(a: Edges, b: Edges, starts: seq<Path>)
    requires a.Keys == b.Keys
    requires forall c, t :: Reachable(b, starts, c) && c in a && t in a[c] ==> t in b[c]
    ensures forall c :: Reachable(a, starts, c) ==> Reachable(b, starts, c)
  {
    forall c | Reachable(a, starts, c) ensures Reachable(b, starts, c) {
      var path :| Walk(a, path) && path[0] in starts && path[|path| - 1] == c;
      SameWalk(a, b, starts, path);
    }
  }

  /**
   * Nothing is reported exactly when every reference that the aggregates reach, through any references,
   * and that enters a split project names the leaf of its own config's face.
   */
  lemma NoViolationsIff(w: World, dirs: seq<Path>, order: seq<Path>)
    requires forall c :: c in order <==> Reachable(FollowedEdges(w, SplitRoots(w, dirs)), Aggregates(w), c)
    requires forall c :: c in order ==> c in w.configs
    ensures AllFound(w, SplitRoots(w, dirs), order) == [] <==>
      forall c :: Reachable(AllEdges(w), Aggregates(w), c) && c in w.configs ==> AllIsolated(w, dirs, c)
  {
    var roots := SplitRoots(w, dirs);
    var followed, all := FollowedEdges(w, roots), AllEdges(w);
    assert followed.Keys == w.configs.Keys && all.Keys == w.configs.Keys;
    forall c | c in w.configs
      ensures Found(w, roots, c, w.configs[c].references) == [] <==> AllIsolated(w, dirs, c)
      ensures AllIsolated(w, dirs, c) ==> forall t :: t in all[c] <==> t in followed[c]
      ensures forall t :: t in followed[c] ==> t in all[c]
    {
      NothingFoundIff(w, dirs, c);
    }
    forall c ensures Reachable(followed, Aggregates(w), c) ==> Reachable(all, Aggregates(w), c) {
      SameReach(followed, all, Aggregates(w));
    }
    NothingFoundAtAll(w, roots, order);
    hide *;
    if forall c :: c in order ==> AllIsolated(w, dirs, c) {
      SameReach(all, followed, Aggregates(w));
    }
  }

  lemma {:induction false} NothingFoundAtAll(w: World, roots: seq<Path>, order: seq<Path>)
    requires forall c :: c in order ==> c in w.configs
    ensures AllFound(w, roots, order) == [] <==>
      forall c :: c in order ==> Found(w, roots, c, w.configs[c].references) == []
  {
    hide Found;
    if order != [] {
      var front, last := order[..|order| - 1], order[|order| - 1];
      NothingFoundAtAll(w, roots, front);
      assert AllFound(w, roots, order) == AllFound(w, roots, front) + Found(w, roots, last, w.configs[last].references);
      assert order == front + [last];
      hide AllFound;
      assert forall c :: c in order <==> c in front || c == last;
    }
  }

  /**
   * Every config that the followed references reach is inspected exactly once, and no other; the
   * violations are theirs, reference by reference.
   */
  method CollectViolations(w: World, dirs: seq<Path>)
    returns (violations: seq<Violation>, ghost order: seq<Path>)
    ensures forall c :: c in order <==> Reachable(FollowedEdges(w, SplitRoots(w, dirs)), Aggregates(w), c)
    ensures Distinct(order) && forall c :: c in order ==> c in w.configs
    ensures violations == AllFound(w, SplitRoots(w, dirs), order)
    ensures forall v :: v in violations <==> Wrong(w, dirs, v)
    ensures violations == [] <==>
      forall c :: Reachable(AllEdges(w), Aggregates(w), c) && c in w.configs ==> AllIsolated(w, dirs, c)
  {
    var roots := SplitRoots(w, dirs);
    ghost var edges := FollowedEdges(w, roots);
    var pending := Aggregates(w);
    var visited: set<Path> := {};
    violations, order := [], [];
    ExploringStarts(edges, Aggregates(w));
    hide Exploring, Followed, Found, Aggregates, SplitRoots;
    while pending != []
      invariant Exploring(edges, Aggregates(w), pending, visited)
      invariant visited <= w.configs.Keys
      invariant Distinct(order) && forall c :: c in order <==> c in visited
      invariant violations == AllFound(w, roots, order)
      decreases w.configs.Keys - visited, |pending|
    {
      var c := pending[|pending| - 1];
      var rest := pending[..|pending| - 1];
      if c in visited || c !in w.configs {
        ExploringSkips(edges, Aggregates(w), pending, visited);
        pending := rest;
      } else {
        ExploringExpands(edges, Aggregates(w), pending, visited);
        var targets, more := Inspect(w, roots, c);
        assert (order + [c])[..|order|] == order;
        pending, visited, violations, order := rest + targets, visited + {c}, violations + more, order + [c];
      }
    }
    ExploredIsReachable(edges, Aggregates(w), visited);
    hide *;
    forall v ensures v in violations <==> Wrong(w, dirs, v) {
      ViolationsExact(w, dirs, order, v);
    }
    NoViolationsIff(w, dirs, order);
  }

  // ---------------------------------------------------------------- the rule by aggregates

  function Aggregate(w: World, f: Face): Path {
    w.root + [LeafName(f)]
  }

  /** The config is reached from the aggregate of this face, through any references. */
  ghost predicate From(w: World, f: Face, c: Path) {
    c in w.configs && Reachable(AllEdges(w), [Aggregate(w, f)], c)
  }

  ghost predicate Enters(w: World, dirs: seq<Path>, c: Path, r: string, d: Path)
    requires c in w.configs
  {
    Some(r) in w.configs[c].references && Owner(w, dirs, ReferenceTarget(w, c, r), d)
  }

  ghost predicate NamesLeaf(w: World, dirs: seq<Path>, c: Path, f: Face)
    requires c in w.configs
  {
    forall r, d :: Enters(w, dirs, c, r, d) ==> ReferenceTarget(w, c, r) == d + [LeafName(f)]
  }

  /** The documented rule: whatever enters a split project names the leaf of the aggregate it was reached from. */
  ghost predicate AggregateRule(w: World, dirs: seq<Path>) {
    forall f, c :: From(w, f, c) ==> NamesLeaf(w, dirs, c, f)
  }

  /** Every config with a reference into a split project has the face of the aggregate it was reached from. */
  ghost predicate OneFace(w: World, dirs: seq<Path>) {
    forall f, c, r, d :: From(w, f, c) && Enters(w, dirs, c, r, d) ==> ProjectFace(w, c, {}) == Some(f)
  }

  lemma NamesOwnLeaf(w: World, dirs: seq<Path>, c: Path, f: Face)
    requires c in w.configs
    requires forall r, d :: Enters(w, dirs, c, r, d) ==> ProjectFace(w, c, {}) == Some(f)
    ensures NamesLeaf(w, dirs, c, f) <==> AllIsolated(w, dirs, c)
  {
    hide Owner, ProjectFace, ReferenceTarget;
    if NamesLeaf(w, dirs, c, f) {
      forall r | Some(r) in w.configs[c].references ensures Isolated(w, dirs, c, ReferenceTarget(w, c, r)) {
        forall d | Owner(w, dirs, ReferenceTarget(w, c, r), d)
          ensures ProjectFace(w, c, {}) == Some(f) && ReferenceTarget(w, c, r) == d + [LeafName(f)]
        {
          assert Enters(w, dirs, c, r, d);
        }
      }
    }
    if AllIsolated(w, dirs, c) {
      forall r, d | Enters(w, dirs, c, r, d) ensures ReferenceTarget(w, c, r) == d + [LeafName(f)] {
        assert Isolated(w, dirs, c, ReferenceTarget(w, c, r));
      }
    }
  }

  lemma LeafTellsFace(d: Path, f: Face, g: Face)
    requires d + [LeafName(f)] == d + [LeafName(g)]
    ensures f == g
  {
    assert (d + [LeafName(f)])[|d|] == LeafName(f) && (d + [LeafName(g)])[|d|] == LeafName(g);
    assert |"tsconfig.host.json"| == 18 && |"tsconfig.client.json"| == 20;
  }

  lemma FromEither(w: World, c: Path)
    ensures c in w.configs && Reachable(AllEdges(w), Aggregates(w), c) <==> From(w, Host, c) || From(w, Client, c)
  {
    var edges := AllEdges(w);
    assert Aggregates(w) == [Aggregate(w, Host), Aggregate(w, Client)];
    hide AllEdges, Walk, Aggregates, Aggregate;
    forall f | From(w, f, c) ensures Reachable(edges, Aggregates(w), c) {
      var path :| Walk(edges, path) && path[0] in [Aggregate(w, f)] && path[|path| - 1] == c;
      assert path[0] == Aggregate(w, f);
      assert path[0] in Aggregates(w);
    }
    if c in w.configs && Reachable(edges, Aggregates(w), c) {
      var path :| Walk(edges, path) && path[0] in Aggregates(w) && path[|path| - 1] == c;
      var f := if path[0] == Aggregate(w, Host) then Host else Client;
      assert path[0] in [Aggregate(w, f)];
      assert From(w, f, c);
    }
  }

  /**
   * What the check has to do with the documented rule. If it reports nothing, the rule holds exactly when
   * every config that enters a split project has the face of its aggregates; and where configs have those
   * faces, the rule holds exactly when nothing is reported.
   */
  lemma AggregateRuleIff(w: World, dirs: seq<Path>, order: seq<Path>)
    requires forall c :: c in order <==> Reachable(FollowedEdges(w, SplitRoots(w, dirs)), Aggregates(w), c)
    requires forall c :: c in order ==> c in w.configs
    ensures AllFound(w, SplitRoots(w, dirs), order) == [] ==> (AggregateRule(w, dirs) <==> OneFace(w, dirs))
    ensures OneFace(w, dirs) ==> (AggregateRule(w, dirs) <==> AllFound(w, SplitRoots(w, dirs), order) == [])
  {
    NoViolationsIff(w, dirs, order);
    forall c
      ensures c in w.configs && Reachable(AllEdges(w), Aggregates(w), c) <==> From(w, Host, c) || From(w, Client, c)
    {
      FromEither(w, c);
    }
    hide AllFound, SplitRoots, FollowedEdges, Reachable, AllEdges, Aggregates, From, AllIsolated;
    hide Owner, ProjectFace, NamesLeaf, Enters;
    if OneFace(w, dirs) {
      forall f, c | From(w, f, c) ensures NamesLeaf(w, dirs, c, f) <==> AllIsolated(w, dirs, c) {
        NamesOwnLeaf(w, dirs, c, f);
      }
    }
    if AllFound(w, SplitRoots(w, dirs), order) == [] && AggregateRule(w, dirs) {
      forall f, c, r, d | From(w, f, c) && Enters(w, dirs, c, r, d) ensures ProjectFace(w, c, {}) == Some(f) {
        assert f == Host || f == Client;
        assert AllIsolated(w, dirs, c) && NamesLeaf(w, dirs, c, f);
        FaceByLeaf(w, dirs, c, f, r, d);
      }
    }
  }

  lemma FaceByLeaf(w: World, dirs: seq<Path>, c: Path, f: Face, r: string, d: Path)
    requires c in w.configs && AllIsolated(w, dirs, c) && NamesLeaf(w, dirs, c, f) && Enters(w, dirs, c, r, d)
    ensures ProjectFace(w, c, {}) == Some(f)
  {
    hide Owner, ProjectFace, ReferenceTarget, LeafName;
    assert Isolated(w, dirs, c, ReferenceTarget(w, c, r));
    LeafTellsFace(d, f, ProjectFace(w, c, {}).value);
  }

  /**
   * The face that counts is the config's own, not that of the aggregate the walk began at: where the Host
   * aggregate leads to a config that extends the Client base, that config is to name the Client leaf, and
   * the documented rule does not hold.
   */
  lemma AggregateFaceIsNotChecked(
    w: World, dirs: seq<Path>, host: Path, between: Path, base: Path, dir: Path, r: string, q: string
  )
    requires host == Aggregate(w, Host) && host in w.configs && between in w.configs
    requires Some(r) in w.configs[host].references && ReferenceTarget(w, host, r) == between
    requires Some(q) in w.configs[between].references && ReferenceTarget(w, between, q) == dir + [LeafName(Client)]
    requires OwnFace(w, between) == None && Base(w, between) == Some(base)
    requires base == w.root + ["tsconfig.base.client.json"]
    requires Owner(w, dirs, dir + [LeafName(Client)], dir)
    ensures From(w, Host, between) && Enters(w, dirs, between, q, dir)
    ensures Judge(w, SplitRoots(w, dirs), between, q) == Success(dir + [LeafName(Client)])
    ensures !AggregateRule(w, dirs)
  {
    ClientByBase(w, between, base);
    ContainingIsOwner(w, dirs, dir + [LeafName(Client)], dir);
    hide OwnFace, Base, ProjectFace, ReferenceTarget, SplitRoots, ContainingSplitRoot, Owner, LeafName;
    assert Judge(w, SplitRoots(w, dirs), between, q) == Success(dir + [LeafName(Client)]);
    hide Judge;
    LedTo(w, host, between, r);
    hide *;
    assert Enters(w, dirs, between, q, dir);
    HostLeafMissed(w, dirs, between, q, dir);
  }

  lemma LedTo(w: World, host: Path, between: Path, r: string)
    requires host == Aggregate(w, Host) && host in w.configs && between in w.configs
    requires Some(r) in w.configs[host].references && ReferenceTarget(w, host, r) == between
    ensures From(w, Host, between)
  {
    var path := [host, between];
    AllTargetsHas(w, host, w.configs[host].references, r);
    hide ReferenceTarget, AllTargets, Aggregate;
    assert path[0] in [Aggregate(w, Host)];
    assert Walk(AllEdges(w), path);
  }

  lemma {:induction false} AllTargetsHas(w: World, c: Path, references: seq<Option<string>>, r: string)
    requires Some(r) in references
    ensures ReferenceTarget(w, c, r) in AllTargets(w, c, references)
  {
    hide ReferenceTarget;
    var n := |references| - 1;
    if references[n] != Some(r) {
      AllTargetsHas(w, c, references[..n], r);
    }
  }

  lemma HostLeafMissed(w: World, dirs: seq<Path>, c: Path, r: string, d: Path)
    requires From(w, Host, c) && Enters(w, dirs, c, r, d) && ReferenceTarget(w, c, r) == d + [LeafName(Client)]
    ensures !AggregateRule(w, dirs)
  {
    hide ReferenceTarget, Owner, Reachable, LeafName;
    if NamesLeaf(w, dirs, c, Host) {
      LeafTellsFace(d, Client, Host);
    }
  }

  lemma OnlyOwner(w: World, dir: Path)
    requires IsSplit(w, dir)
    ensures w.root + [LeafName(Host)] in Aggregates(w)
    ensures Owner(w, [dir], dir + [LeafName(Client)], dir) && dir + [LeafName(Client)] in w.configs
  {
    hide IsSplit;
    assert dir in [dir];
    assert w.root + [LeafName(Host)] == Aggregates(w)[0];
    assert dir + [LeafName(Client)] in w.configs by {
      SplitLeaf(w, dir);
    }
  }

  lemma SplitLeaf(w: World, dir: Path)
    requires IsSplit(w, dir)
    ensures dir + [LeafName(Client)] in w.configs
  {
  }

  /** Where a text leads from a directory; the names between the separators are taken one after another. */
  function Resolve(dir: Path, text: string): Path {
    Enter(if text != "" && text[0] == '/' then [] else dir, "", text)
  }

  /** One more name from a directory. */
  function Into(dir: Path, name: string): Path {
    if name == "" || name == "." then dir else if name == ".." then Directory(dir) else dir + [name]
  }

  /** The rest of a text, behind the characters of the name that has been begun. */
  function Enter(dir: Path, name: string, text: string): Path
    decreases |text|
  {
    if text == "" then Into(dir, name)
    else if text[0] == '/' then Enter(Into(dir, name), "", text[1..])
    else Enter(dir, name + [text[0]], text[1..])
  }

  lemma {:induction false} EnterName(dir: Path, name: string, more: string, rest: string)
    requires '/' !in more
    ensures Enter(dir, name, more + rest) == Enter(dir, name + more, rest)
    decreases |more|
  {
    if more == "" {
      assert more + rest == rest && name + more == name;
    } else {
      assert (more + rest)[1..] == more[1..] + rest && name + [more[0]] + more[1..] == name + more;
      EnterName(dir, name + [more[0]], more[1..], rest);
    }
  }

  /** One name and the separator behind it. */
  lemma EnterOne(dir: Path, name: string, rest: string)
    requires '/' !in name
    ensures Enter(dir, "", name + "/" + rest) == Enter(Into(dir, name), "", rest)
    ensures Enter(dir, "", name) == Into(dir, name)
  {
    assert name + "/" + rest == name + ("/" + rest) && "" + name == name && name + "" == name;
    EnterName(dir, "", name, "/" + rest);
    EnterName(dir, "", name, "");
    assert ("/" + rest)[1..] == rest;
  }

  /** A name in the same directory, written with its dot. */
  lemma BesideIt(dir: Path, name: string)
    requires '/' !in name && name != "" && name != "." && name != ".."
    ensures Resolve(dir, "./" + name) == dir + [name]
  {
    assert "./" + name == "." + "/" + name;
    EnterOne(dir, ".", name);
    EnterOne(dir, name, "");
  }

  /** A name in the directory above, and one written from the root. */
  lemma AboveIt(dir: Path, name: string)
    requires '/' !in name && name != "" && name != "." && name != ".."
    ensures Resolve(dir, "../" + name) == Directory(dir) + [name]
    ensures Resolve(dir, "/" + name) == [name]
  {
    assert "../" + name == ".." + "/" + name && "/" + name == "" + "/" + name;
    EnterOne(dir, "..", name);
    EnterOne(Directory(dir), name, "");
    EnterOne([], "", name);
    EnterOne([], name, "");
  }

  /** A small repository: the Host aggregate, a config with the Client base, and one split application. */
  function SmallRepository(): World {
    World([], map[
      ["tsconfig.host.json"] := Config([Some("./a.json")], None),
      ["a.json"] := Config([Some("./apps/b/tsconfig.client.json")], Some("./tsconfig.base.client.json")),
      ["tsconfig.base.client.json"] := Config([], None),
      ["apps", "b", "tsconfig.host.json"] := Config([], None),
      ["apps", "b", "tsconfig.client.json"] := Config([], None)
    ], Resolve)
  }

  lemma BetweenText()
    ensures "./" + "a.json" == "./a.json"
  {
  }

  lemma BaseText()
    ensures "./" + "tsconfig.base.client.json" == "./tsconfig.base.client.json"
  {
  }

  lemma LeafText()
    ensures "./apps/b/" + "tsconfig.client.json" == "./apps/b/tsconfig.client.json"
  {
  }

  lemma SmallPaths()
    ensures Resolve([], "./a.json") == ["a.json"]
    ensures Resolve([], "./apps/b/tsconfig.client.json") == ["apps", "b", "tsconfig.client.json"]
    ensures Resolve([], "./tsconfig.base.client.json") == ["tsconfig.base.client.json"]
  {
    hide Resolve;
    BetweenText();
    BaseText();
    LeafText();
    PlainName("a.json");
    PlainName("tsconfig.base.client.json");
    PlainName("tsconfig.client.json");
    BesideIt([], "a.json");
    BesideIt([], "tsconfig.base.client.json");
    LeafPath("tsconfig.client.json");
  }

  lemma PlainName(name: string)
    requires name == "a.json" || name == "tsconfig.base.client.json" || name == "tsconfig.client.json"
    ensures '/' !in name && name != "" && name != "." && name != ".."
  {
  }

  lemma LeafPath(leaf: string)
    requires '/' !in leaf && leaf != "" && leaf != "." && leaf != ".."
    ensures Resolve([], "./apps/b/" + leaf) == ["apps", "b", leaf]
  {
    var one := "b" + "/" + leaf;
    var two := "apps" + "/" + one;
    assert "./apps/b/" + leaf == "." + "/" + two;
    assert Resolve([], "./apps/b/" + leaf) == Enter([], "", "." + "/" + two);
    assert Into([], ".") == [] && Into([], "apps") == ["apps"] && Into(["apps"], "b") == ["apps", "b"];
    hide Resolve, Enter;
    EnterOne([], ".", two);
    EnterOne([], "apps", one);
    EnterOne(["apps"], "b", leaf);
    EnterOne(["apps", "b"], leaf, "");
  }

  lemma {:induction false} WalkStays(edges: Edges, few: set<Path>, path: seq<Path>)
    requires Walk(edges, path) && path[0] in few
    requires forall c, t :: c in few && c in edges && t in edges[c] && t in edges ==> t in few
    ensures path[|path| - 1] in few
  {
    var n := |path| - 1;
    if n > 0 {
      assert Walk(edges, path[..n]);
      WalkStays(edges, few, path[..n]);
      assert path[n - 1 + 1] in edges[path[n - 1]];
    }
  }

  /** Where one directory is split, exactly what lies below it has an owner. */
  lemma OnlyInside(w: World, dir: Path, target: Path, d: Path)
    requires Owner(w, [dir], target, d)
    ensures d == dir && dir <= target
  {
    assert d in [dir];
  }

  lemma OneTarget(w: World, c: Path, r: string)
    ensures AllTargets(w, c, [Some(r)]) == [ReferenceTarget(w, c, r)]
  {
    assert [Some(r)][..0] == [];
    assert AllTargets(w, c, []) == [];
  }

  /** Two configs on the way to a leaf, and nothing else. */
  ghost predicate Chain(w: World, host: Path, between: Path, leaf: Path, r: string, q: string) {
    && host in w.configs && w.configs[host].references == [Some(r)] && ReferenceTarget(w, host, r) == between
    && between in w.configs && w.configs[between].references == [Some(q)] && ReferenceTarget(w, between, q) == leaf
    && leaf in w.configs && w.configs[leaf].references == []
  }

  lemma ChainReach(w: World, host: Path, between: Path, leaf: Path, r: string, q: string, c: Path)
    requires Chain(w, host, between, leaf, r, q)
    requires host == Aggregate(w, Host) && Aggregate(w, Client) !in w.configs
    requires Reachable(AllEdges(w), Aggregates(w), c)
    ensures c in {host, between, leaf}
  {
    var edges := AllEdges(w);
    var path :| Walk(edges, path) && path[0] in Aggregates(w) && path[|path| - 1] == c;
    OneTarget(w, host, r);
    OneTarget(w, between, q);
    assert Aggregates(w) == [Aggregate(w, Host), Aggregate(w, Client)];
    assert edges[host] == [between] && edges[between] == [leaf] && edges[leaf] == [];
    hide ReferenceTarget, AllEdges, Aggregates, Aggregate;
    assert path[0] == host;
    WalkStays(edges, {host, between, leaf}, path);
  }

  /** In such a chain nothing is reported, if what stands between has the Client face and the leaf is one. */
  lemma ChainIsolated(w: World, host: Path, between: Path, dir: Path, r: string, q: string, c: Path)
    requires Chain(w, host, between, dir + [LeafName(Client)], r, q)
    requires !(dir <= between) && ProjectFace(w, between, {}) == Some(Client)
    requires c in {host, between, dir + [LeafName(Client)]}
    ensures AllIsolated(w, [dir], c)
  {
    hide ReferenceTarget, LeafName, ProjectFace;
    forall target, d | Owner(w, [dir], target, d) ensures d == dir && dir <= target {
      OnlyInside(w, dir, target, d);
    }
    hide Owner;
  }

  lemma SmallClientFace(w: World, between: Path, base: Path)
    requires w == SmallRepository() && between == ["a.json"] && base == ["tsconfig.base.client.json"]
    ensures between in w.configs && OwnFace(w, between) == None && Base(w, between) == Some(base)
    ensures base == w.root + ["tsconfig.base.client.json"]
  {
    hide SmallRepository, Resolve, IsJson, OwnFace, Base;
    var value := "./tsconfig.base.client.json";
    SmallPaths();
    JsonNames();
    NoFace(w, between);
    SmallBase(w, between, value, base);
    BaseIs(w, between, value, base);
  }

  lemma SmallBase(w: World, between: Path, value: string, base: Path)
    requires w == SmallRepository() && between == ["a.json"] && base == ["tsconfig.base.client.json"]
    requires value == "./tsconfig.base.client.json"
    ensures between in w.configs && w.configs[between].base == Some(value)
    ensures base in w.configs && w.resolve == Resolve
    ensures value != "" && value[0] == '.' && Directory(between) == []
    ensures base == w.root + ["tsconfig.base.client.json"]
  {
    assert w.root + ["tsconfig.base.client.json"] == base;
  }

  lemma BaseIs(w: World, c: Path, value: string, base: Path)
    requires c in w.configs && w.configs[c].base == Some(value) && value != "" && value[0] == '.'
    requires base in w.configs && w.resolve(Directory(c), value) == base && IsJson(base)
    ensures Base(w, c) == Some(base)
  {
  }

  lemma SmallOwner(w: World, dir: Path)
    requires w == SmallRepository() && dir == ["apps", "b"]
    ensures Owner(w, [dir], dir + [LeafName(Client)], dir)
  {
    assert dir + ["tsconfig.client.json"] == ["apps", "b", "tsconfig.client.json"];
    assert dir + ["tsconfig.host.json"] == ["apps", "b", "tsconfig.host.json"];
    assert IsSplit(w, dir);
    hide IsSplit, SmallRepository;
    OnlyOwner(w, dir);
  }

  lemma SmallChain(w: World, host: Path, between: Path, leaf: Path)
    requires w == SmallRepository() && host == ["tsconfig.host.json"] && between == ["a.json"]
    requires leaf == ["apps", "b", "tsconfig.client.json"]
    ensures Chain(w, host, between, leaf, "./a.json", "./apps/b/tsconfig.client.json")
  {
    SmallPaths();
    JsonNames();
    hide Resolve, IsJson;
    assert Directory(host) == [] && Directory(between) == [];
    assert IsJson(between) && IsJson(leaf);
    assert host in w.configs && w.configs[host].references == [Some("./a.json")];
    assert between in w.configs && w.configs[between].references == [Some("./apps/b/tsconfig.client.json")];
    assert leaf in w.configs && w.configs[leaf].references == [];
  }

  /** The small repository has a Host aggregate and no Client aggregate. */
  lemma SmallAggregates(w: World)
    requires w == SmallRepository()
    ensures Aggregate(w, Host) == ["tsconfig.host.json"] && Aggregate(w, Client) !in w.configs
  {
    var client := "tsconfig.client.json";
    assert Aggregate(w, Client) == [client] && Aggregate(w, Host) == ["tsconfig.host.json"];
    assert |client| == 20 && |"tsconfig.host.json"| == 18 && |"a.json"| == 6 && |"tsconfig.base.client.json"| == 25;
    assert [client][0] == client;
  }

  /**
   * In the small repository nothing is reported, and yet the Host aggregate reaches a reference to the
   * Client leaf: the documented rule does not hold.
   */
  lemma HostReachesClientLeaf() returns (w: World, dir: Path, between: Path, q: string)
    ensures w == SmallRepository()
    ensures forall c :: Reachable(AllEdges(w), Aggregates(w), c) && c in w.configs ==> AllIsolated(w, [dir], c)
    ensures From(w, Host, between) && Enters(w, [dir], between, q, dir)
    ensures ReferenceTarget(w, between, q) == dir + [LeafName(Client)]
    ensures !AggregateRule(w, [dir])
  {
    w, dir, between, q := SmallRepository(), ["apps", "b"], ["a.json"], "./apps/b/tsconfig.client.json";
    var host, base, r := ["tsconfig.host.json"], ["tsconfig.base.client.json"], "./a.json";
    assert dir + [LeafName(Client)] == ["apps", "b", "tsconfig.client.json"];
    assert !(dir <= between);
    SmallAggregates(w);
    SmallChain(w, host, between, dir + [LeafName(Client)]);
    SmallOwner(w, dir);
    SmallClientFace(w, between, base);
    hide SmallRepository;
    ClientByBase(w, between, base);
    NothingReported(w, host, between, base, dir, r, q);
  }

  lemma NothingReported(w: World, host: Path, between: Path, base: Path, dir: Path, r: string, q: string)
    requires Chain(w, host, between, dir + [LeafName(Client)], r, q) && !(dir <= between)
    requires host == Aggregate(w, Host) && Aggregate(w, Client) !in w.configs
    requires OwnFace(w, between) == None && Base(w, between) == Some(base)
    requires base == w.root + ["tsconfig.base.client.json"]
    requires Owner(w, [dir], dir + [LeafName(Client)], dir)
    ensures forall c :: Reachable(AllEdges(w), Aggregates(w), c) && c in w.configs ==> AllIsolated(w, [dir], c)
    ensures From(w, Host, between) && Enters(w, [dir], between, q, dir)
    ensures ReferenceTarget(w, between, q) == dir + [LeafName(Client)]
    ensures !AggregateRule(w, [dir])
  {
    ClientByBase(w, between, base);
    hide OwnFace, Base, ProjectFace, ReferenceTarget, Owner, LeafName, Reachable, AllEdges, Aggregates, AllIsolated;
    forall c | Reachable(AllEdges(w), Aggregates(w), c) && c in w.configs ensures AllIsolated(w, [dir], c) {
      ChainReach(w, host, between, dir + [LeafName(Client)], r, q, c);
      ChainIsolated(w, host, between, dir, r, q, c);
    }
    assert Some(r) in [Some(r)] && Some(q) in [Some(q)];
    AggregateFaceIsNotChecked(w, [dir], host, between, base, dir, r, q);
  }

  lemma NoFace(w: World, c: Path)
    requires FileName(c) == "a.json"
    ensures OwnFace(w, c) == None
  {
    assert |"a.json"| == 6 && |"tsconfig.host.json"| == 18 && |"tsconfig.client.json"| == 20;
    var host, client := w.root + ["tsconfig.base.json"], w.root + ["tsconfig.base.client.json"];
    assert FileName(host) == "tsconfig.base.json" && |FileName(host)| == 18;
    assert FileName(client) == "tsconfig.base.client.json" && |FileName(client)| == 25;
  }

  lemma JsonNames()
    ensures IsJson(["a.json"]) && IsJson(["apps", "b", LeafName(Client)]) && IsJson(["tsconfig.base.client.json"])
  {
    assert "a.json"[1..] == ".json" && "tsconfig.client.json"[15..] == ".json";
    assert "tsconfig.base.client.json"[20..] == ".json";
  }

  lemma ClientByBase(w: World, between: Path, base: Path)
    requires between in w.configs && OwnFace(w, between) == None && Base(w, between) == Some(base)
    requires base == w.root + ["tsconfig.base.client.json"]
    ensures ProjectFace(w, between, {}) == Some(Client)
  {
    ClientBaseFace(w);
    hide OwnFace, Base;
    assert ProjectFace(w, base, {} + {between}) == Some(Client);
  }

  lemma ClientBaseFace(w: World)
    ensures OwnFace(w, w.root + ["tsconfig.base.client.json"]) == Some(Client)
  {
    var base := w.root + ["tsconfig.base.client.json"];
    assert FileName(base) == "tsconfig.base.client.json";
    assert |FileName(base)| == 25 && |"tsconfig.host.json"| == 18 && |"tsconfig.client.json"| == 20;
    var other := w.root + ["tsconfig.base.json"];
    assert FileName(other) == "tsconfig.base.json" && |FileName(other)| == 18;
  }

  // ---------------------------------------------------------------- the search for one project

  predicate InOwner(owner: Path, p: Path) {
    owner != [] && owner < p
  }

  /** The configs of the same owner that the references lead to. */
  function Children(w: World, owner: Path, c: Path, references: seq<Option<string>>): seq<Path> {
    if references == [] then []
    else
      var n := |references| - 1;
      Children(w, owner, c, references[..n]) +
      (if references[n].None? then []
       else
         var referenced := w.resolve(Directory(c), references[n].value);
         if InOwner(owner, referenced) && ConfigOf(referenced) in w.configs then [ConfigOf(referenced)] else [])
  }

  function OwnerEdges(w: World, owner: Path): Edges {
    map c | c in w.configs :: Children(w, owner, c, w.configs[c].references)
  }

  /** The path lies below the owner's directory. */
  ghost predicate Inside(owner: Path, p: Path) {
    owner != [] && exists below :: below != [] && p == owner + below
  }

  lemma InOwnerIff(owner: Path, p: Path)
    ensures InOwner(owner, p) <==> Inside(owner, p)
  {
    if InOwner(owner, p) {
      assert p == owner + p[|owner|..];
    }
  }

  /** An edge leads to the existing config of a reference that stays inside the owner, and there are no others. */
  lemma OwnerEdgesIff(w: World, owner: Path, c: Path, target: Path)
    requires c in w.configs
    ensures target in OwnerEdges(w, owner)[c] <==>
      exists r ::
        && Some(r) in w.configs[c].references && Inside(owner, w.resolve(Directory(c), r))
        && target == ConfigOf(w.resolve(Directory(c), r)) && target in w.configs
  {
    ChildrenIff(w, owner, c, w.configs[c].references, target);
  }

  lemma {:induction false} ChildrenIff(
    w: World, owner: Path, c: Path, references: seq<Option<string>>, target: Path)
    ensures target in Children(w, owner, c, references) <==>
      exists r ::
        && Some(r) in references && Inside(owner, w.resolve(Directory(c), r))
        && target == ConfigOf(w.resolve(Directory(c), r)) && target in w.configs
  {
    hide ConfigOf, Inside;
    if references != [] {
      var n := |references| - 1;
      ChildrenIff(w, owner, c, references[..n], target);
      assert references == references[..n] + [references[n]];
      if references[n].Some? {
        InOwnerIff(owner, w.resolve(Directory(c), references[n].value));
      }
    }
  }

  ghost predicate References(w: World, c: Path, target: Path) {
    c in w.configs && exists r :: Some(r) in w.configs[c].references && w.resolve(Directory(c), r) == target
  }

  /** The references of one config, up to the one that is looked for. */
  method Scan(w: World, owner: Path, target: Path, c: Path) returns (found: bool, children: seq<Path>)
    requires c in w.configs
    ensures found <==> References(w, c, target)
    ensures !found ==> children == Children(w, owner, c, w.configs[c].references)
  {
    hide ConfigOf, IsJson, InOwner;
    found, children := false, [];
    var references := w.configs[c].references;
    for k := 0 to |references|
      invariant children == Children(w, owner, c, references[..k])
      invariant forall i :: 0 <= i < k && references[i].Some? ==>
                  w.resolve(Directory(c), references[i].value) != target
    {
      assert references[..k + 1][..k] == references[..k];
      if references[k].Some? {
        var referenced := w.resolve(Directory(c), references[k].value);
        if referenced == target {
          assert references[k] == Some(references[k].value);
          return true, children;
        }
        if InOwner(owner, referenced) && ConfigOf(referenced) in w.configs {
          children := children + [ConfigOf(referenced)];
        }
      }
    }
    assert references[..|references|] == references;
  }

  /**
   * True exactly when some config, reached from the entry through configs of the same owner, references
   * the target; a missing entry is an error.
   */
  method ReferencesTarget(w: World, owner: Path, target: Path, entry: Path) returns (result: Result<bool, Path>)
    ensures entry !in w.configs ==> result == Failure(entry)
    ensures entry in w.configs ==> result.Success?
    ensures result.Success? ==>
      (result.value <==> exists c :: Reachable(OwnerEdges(w, owner), [entry], c) && References(w, c, target))
  {
    if entry !in w.configs {
      return Failure(entry);
    }
    ghost var edges := OwnerEdges(w, owner);
    var pending := [entry];
    var visited: set<Path> := {};
    ExploringStarts(edges, [entry]);
    ChildrenExist(w, owner);
    hide Exploring, Children, References, Reachable;
    while pending != []
      invariant Exploring(edges, [entry], pending, visited)
      invariant visited <= w.configs.Keys && forall c :: c in pending ==> c in w.configs
      invariant forall c :: c in visited ==> !References(w, c, target)
      decreases w.configs.Keys - visited, |pending|
    {
      var c := pending[|pending| - 1];
      var rest := pending[..|pending| - 1];
      if c in visited {
        ExploringSkips(edges, [entry], pending, visited);
        pending := rest;
      } else {
        PendingIsReachable(edges, [entry], pending, visited, c);
        var found, children := Scan(w, owner, target, c);
        if found {
          return Success(true);
        }
        ExploringExpands(edges, [entry], pending, visited);
        assert edges[c] == children;
        pending, visited := rest + children, visited + {c};
      }
    }
    ExploredIsReachable(edges, [entry], visited);
    result := Success(false);
  }

  lemma PendingIsReachable(edges: Edges, starts: seq<Path>, pending: seq<Path>, visited: set<Path>, c: Path)
    requires Exploring(edges, starts, pending, visited) && c in pending && c in edges
    ensures Reachable(edges, starts, c)
  {
  }

  lemma ChildrenExist(w: World, owner: Path)
    ensures forall c, n :: c in w.configs && n in OwnerEdges(w, owner)[c] ==> n in w.configs
  {
    forall c | c in w.configs ensures forall n :: n in OwnerEdges(w, owner)[c] ==> n in w.configs {
      ChildExists(w, owner, c, w.configs[c].references);
    }
  }

  lemma {:induction false} ChildExists(w: World, owner: Path, c: Path, references: seq<Option<string>>)
    ensures forall n :: n in Children(w, owner, c, references) ==> n in w.configs
  {
    if references != [] {
      ChildExists(w, owner, c, references[..|references| - 1]);
    }
  }
}
