/** Publishing a release bundle to a registry, one registry step at a time. */
module Publication {
  import opened Wrappers

  const ENTRY := "@deepseek-ai/dsh"
  const LATEST := "latest"

  datatype Package = Package(name: string, integrity: string)

  datatype Manifest = Manifest(version: string, distTag: string, packages: seq<Package>)

  /** What the registry holds of one package: the integrity of each version, and the version of each tag. */
  datatype Entry = Entry(versions: map<string, string>, tags: map<string, string>)

  type Registry = map<string, Entry>

  datatype PublishError =
    | NoIntegrity(name: string)
    | IntegrityConflict(name: string)
    | CommandFailed(name: string)
    | PackageMissing(name: string)
    | IntegrityMismatch(name: string)
    | WrongTag(name: string, tag: string)

  /** What loading or creating a bundle guarantees: at least one package, distinct names, sha512 integrities. */
  ghost predicate Valid(m: Manifest) {
    && m.packages != []
    && (forall i, j :: 0 <= i < j < |m.packages| ==> m.packages[i].name != m.packages[j].name)
    && (forall p :: p in m.packages ==> "sha512-" <= p.integrity)
  }

  // ---------------------------------------------------------------- registry queries and steps

  /** The recorded integrity of the release version, none if the registry does not have it. */
  function RemoteIntegrity(m: Manifest, r: Registry, name: string): Result<Option<string>, PublishError> {
    if name !in r || m.version !in r[name].versions then Success(None)
    else if "sha512-" <= r[name].versions[m.version] then Success(Some(r[name].versions[m.version]))
    else Failure(NoIntegrity(name))
  }

  function RemoteDistTag(r: Registry, name: string, tag: string): Result<Option<string>, PublishError> {
    if name !in r then Failure(CommandFailed(name))
    else if tag in r[name].tags then Success(Some(r[name].tags[tag]))
    else Success(None)
  }

  /** `npm publish --tag`: the version appears and the tag moves to it, in one step. */
  function Published(m: Manifest, r: Registry, p: Package): Registry {
    var e := if p.name in r then r[p.name] else Entry(map[], map[]);
    r[p.name := Entry(e.versions[m.version := p.integrity], e.tags[m.distTag := m.version])]
  }

  function Tagged(m: Manifest, r: Registry, name: string, tag: string): Registry
    requires name in r
  {
    r[name := r[name].(tags := r[name].tags[tag := m.version])]
  }

  // ---------------------------------------------------------------- an uninterrupted run

  /** A run: the registry after each of its steps, and the error that ended it, if any. */
  datatype Trace = Trace(states: seq<Registry>, error: Option<PublishError>)

  function Last(r: Registry, states: seq<Registry>): Registry {
    if states == [] then r else states[|states| - 1]
  }

  function EnsureTrace(m: Manifest, name: string, tag: string, r: Registry): Trace {
    match RemoteDistTag(r, name, tag)
    case Failure(e) => Trace([], Some(e))
    case Success(current) =>
      if current == Some(m.version) then Trace([], None)
      else if m.version in r[name].versions then Trace([Tagged(m, r, name, tag)], None)
      else Trace([], Some(CommandFailed(name)))
  }

  function PackageTrace(m: Manifest, p: Package, r: Registry): Trace {
    match RemoteIntegrity(m, r, p.name)
    case Failure(e) => Trace([], Some(e))
    case Success(None) =>
      var published := Published(m, r, p);
      var tag := EnsureTrace(m, p.name, m.distTag, published);
      Trace([published] + tag.states, tag.error)
    case Success(Some(existing)) =>
      if existing != p.integrity then Trace([], Some(IntegrityConflict(p.name)))
      else EnsureTrace(m, p.name, m.distTag, r)
  }

  function PackagesTrace(m: Manifest, ps: seq<Package>, r: Registry): Trace {
    if ps == [] then Trace([], None)
    else
      var first := PackageTrace(m, ps[0], r);
      if first.error.Some? then first
      else
        var rest := PackagesTrace(m, ps[1..], Last(r, first.states));
        Trace(first.states + rest.states, rest.error)
  }

  function PublishTrace(m: Manifest, r: Registry): Trace {
    var packages := PackagesTrace(m, m.packages, r);
    if packages.error.Some? then packages
    else
      var entry := EnsureTrace(m, ENTRY, LATEST, Last(r, packages.states));
      if entry.error.Some? then Trace(packages.states + entry.states, entry.error)
      else
        var states := packages.states + entry.states;
        Trace(states, Verification(m, Last(r, states)))
  }

  /** The first thing the final verification objects to. */
  function Verification(m: Manifest, r: Registry): Option<PublishError> {
    var remote := VerifyPackages(m, m.packages, r);
    if remote.Some? then remote
    else VerifyTag(m, ENTRY, LATEST, r)
  }

  function VerifyTag(m: Manifest, name: string, tag: string, r: Registry): Option<PublishError> {
    match RemoteDistTag(r, name, tag)
    case Failure(e) => Some(e)
    case Success(current) => if current == Some(m.version) then None else Some(WrongTag(name, tag))
  }

  function VerifyPackages(m: Manifest, ps: seq<Package>, r: Registry): Option<PublishError> {
    if ps == [] then None
    else
      var first := VerifyPackage(m, ps[0], r);
      if first.Some? then first else VerifyPackages(m, ps[1..], r)
  }

  function VerifyPackage(m: Manifest, p: Package, r: Registry): Option<PublishError> {
    match RemoteIntegrity(m, r, p.name)
    case Failure(e) => Some(e)
    case Success(None) => Some(PackageMissing(p.name))
    case Success(Some(integrity)) =>
      if integrity != p.integrity then Some(IntegrityMismatch(p.name))
      else VerifyTag(m, p.name, m.distTag, r)
  }

  // ---------------------------------------------------------------- packages that are done stay done

  /** Present with the recorded integrity and the release tag. */
  ghost predicate Done(m: Manifest, p: Package, r: Registry) {
    && p.name in r
    && m.version in r[p.name].versions && r[p.name].versions[m.version] == p.integrity
    && m.distTag in r[p.name].tags && r[p.name].tags[m.distTag] == m.version
  }

  /** What the registry holds of a package, nothing if it does not know it. */
  function EntryOf(r: Registry, name: string): Entry {
    if name in r then r[name] else Entry(map[], map[])
  }

  /**
   * What steps may do: every version that existed keeps its integrity and every tag remains; a version
   * that is new is the release, and a tag that is new or has moved points to the release.
   */
  ghost predicate Step(m: Manifest, r: Registry, s: Registry) {
    && (forall n :: n in r ==> n in s)
    && forall n :: EntryStep(m, EntryOf(r, n), EntryOf(s, n))
  }

  ghost predicate EntryStep(m: Manifest, e: Entry, f: Entry) {
    && (forall v :: v in e.versions ==> v in f.versions && f.versions[v] == e.versions[v])
    && (forall v :: v in f.versions ==> v in e.versions || v == m.version)
    && (forall t :: t in e.tags ==> t in f.tags)
    && (forall t :: t in f.tags ==> f.tags[t] == m.version || (t in e.tags && f.tags[t] == e.tags[t]))
  }

  lemma StepTransitive(m: Manifest, r: Registry, s: Registry, t: Registry)
    requires Step(m, r, s) && Step(m, s, t)
    ensures Step(m, r, t)
  {
  }

  lemma StepKeepsDone(m: Manifest, p: Package, r: Registry, s: Registry)
    requires Step(m, r, s) && Done(m, p, r)
    ensures Done(m, p, s)
  {
    assert EntryStep(m, EntryOf(r, p.name), EntryOf(s, p.name));
  }

  ghost predicate Steps(m: Manifest, r: Registry, states: seq<Registry>) {
    forall i :: 0 <= i < |states| ==> Step(m, r, states[i])
  }

  lemma EnsureSteps(m: Manifest, name: string, tag: string, r: Registry)
    ensures
      var t := EnsureTrace(m, name, tag, r);
      && Steps(m, r, t.states) && Step(m, r, Last(r, t.states)) && |t.states| <= 1
      && (t.error.Some? ==> t.states == [])
      && (t.error.None? ==>
            var s := Last(r, t.states);
            && name in s && tag in s[name].tags && s[name].tags[tag] == m.version
            && s[name].versions == r[name].versions)
  {
  }

  lemma PackageSteps(m: Manifest, p: Package, r: Registry)
    requires "sha512-" <= p.integrity
    ensures
      var t := PackageTrace(m, p, r);
      && |t.states| <= 1
      && Steps(m, r, t.states) && Step(m, r, Last(r, t.states))
      && (t.error.None? ==> Done(m, p, Last(r, t.states)))
      && (t.error.Some? ==> t.states == [])
  {
    EnsureSteps(m, p.name, m.distTag, r);
  }

  /** A package that is done needs no step. */
  lemma DoneNeedsNothing(m: Manifest, p: Package, r: Registry)
    requires "sha512-" <= p.integrity && Done(m, p, r)
    ensures PackageTrace(m, p, r) == Trace([], None)
    ensures VerifyPackage(m, p, r) == None
  {
  }

  lemma {:induction false} PackagesSteps(m: Manifest, ps: seq<Package>, r: Registry)
    requires forall p :: p in ps ==> "sha512-" <= p.integrity
    ensures
      var t := PackagesTrace(m, ps, r);
      && Steps(m, r, t.states) && Step(m, r, Last(r, t.states))
      && (t.error.None? ==> forall p :: p in ps ==> Done(m, p, Last(r, t.states)))
  {
    hide Step, Done, PackageTrace;
    StepReflexive(m, r);
    if ps != [] {
      PackageSteps(m, ps[0], r);
      var first := PackageTrace(m, ps[0], r);
      if first.error.None? {
        var s := Last(r, first.states);
        PackagesSteps(m, ps[1..], s);
        var rest := PackagesTrace(m, ps[1..], s);
        forall i | 0 <= i < |rest.states| ensures Step(m, r, rest.states[i]) {
          StepTransitive(m, r, s, rest.states[i]);
        }
        StepTransitive(m, r, s, Last(s, rest.states));
        StepKeepsDone(m, ps[0], s, Last(s, rest.states));
        LastAppend(r, first.states, rest.states);
        assert forall p :: p in ps <==> p == ps[0] || p in ps[1..];
      }
    }
  }

  lemma StepReflexive(m: Manifest, r: Registry)
    ensures Step(m, r, r)
  {
  }

  lemma LastAppend(r: Registry, a: seq<Registry>, b: seq<Registry>)
    ensures Last(r, a + b) == Last(Last(r, a), b)
  {
  }

  // ---------------------------------------------------------------- stopping and starting again

  /** The registry when a run has been stopped after `k` of its steps. */
  function StoppedAt(r: Registry, t: Trace, k: nat): Registry
    requires k <= |t.states|
  {
    Last(r, t.states[..k])
  }

  lemma {:induction false} PackagesResume(m: Manifest, ps: seq<Package>, r: Registry, k: nat)
    requires forall p :: p in ps ==> "sha512-" <= p.integrity
    requires k <= |PackagesTrace(m, ps, r).states|
    ensures
      var t := PackagesTrace(m, ps, r);
      PackagesTrace(m, ps, StoppedAt(r, t, k)) == Trace(t.states[k..], t.error)
  {
    hide Step, Done, PackageTrace;
    if ps != [] {
      var t := PackagesTrace(m, ps, r);
      var first := PackageTrace(m, ps[0], r);
      PackageSteps(m, ps[0], r);
      if k == 0 {
        assert t.states[..0] == [] && t.states[0..] == t.states;
      } else if first.error.None? {
        // the first package is done at every stop after its own step
        var s := Last(r, first.states);
        var rest := PackagesTrace(m, ps[1..], s);
        var j := k - |first.states|;
        PackagesSteps(m, ps[1..], s);
        PackagesResume(m, ps[1..], s, j);
        assert t.states[..k] == first.states + rest.states[..j];
        assert t.states[k..] == rest.states[j..];
        LastAppend(r, first.states, rest.states[..j]);
        var stop := StoppedAt(s, rest, j);
        StepReflexive(m, s);
        assert j > 0 ==> stop == rest.states[j - 1];
        StepKeepsDone(m, ps[0], s, stop);
        DoneNeedsNothing(m, ps[0], stop);
      }
    }
  }

  /**
   * Publishing is resumable: a run started where another was stopped takes exactly the steps that were
   * left, and ends with the same outcome.
   */
  lemma PublishResumes(m: Manifest, r: Registry, k: nat)
    requires Valid(m) && k <= |PublishTrace(m, r).states|
    ensures
      var t := PublishTrace(m, r);
      PublishTrace(m, StoppedAt(r, t, k)) == Trace(t.states[k..], t.error)
  {
    hide Step, Done, PackagesTrace, Verification;
    var t := PublishTrace(m, r);
    var packages := PackagesTrace(m, m.packages, r);
    var n := |packages.states|;
    if k <= n {
      PackagesResume(m, m.packages, r, k);
      assert t.states[..k] == packages.states[..k];
      var stop := StoppedAt(r, t, k);
      LastAppend(r, packages.states[..k], packages.states[k..]);
      assert packages.states[..k] + packages.states[k..] == packages.states;
      if packages.error.None? {
        var entry := EnsureTrace(m, ENTRY, LATEST, Last(r, packages.states));
        assert t.states[k..] == packages.states[k..] + entry.states;
        LastAppend(r, packages.states[..k], packages.states[k..] + entry.states);
        assert packages.states[..k] + (packages.states[k..] + entry.states) == packages.states + entry.states;
      }
    } else {
      var s := Last(r, packages.states);
      EnsureSteps(m, ENTRY, LATEST, s);
      PackagesSteps(m, m.packages, r);
      assert t.states[..k] == t.states && t.states[k..] == [];
      LastAppend(r, packages.states, EnsureTrace(m, ENTRY, LATEST, s).states);
      AllDoneNeedsNothing(m, s, Last(r, t.states));
    }
  }

  lemma AllDoneNeedsNothing(m: Manifest, s: Registry, end: Registry)
    requires Valid(m) && Step(m, s, end) && forall p :: p in m.packages ==> Done(m, p, s)
    ensures PackagesTrace(m, m.packages, end) == Trace([], None)
    ensures VerifyPackages(m, m.packages, end) == None
  {
    forall p | p in m.packages ensures Done(m, p, end) {
      StepKeepsDone(m, p, s, end);
    }
    NothingLeft(m, m.packages, end);
  }

  lemma {:induction false} NothingLeft(m: Manifest, ps: seq<Package>, r: Registry)
    requires forall p :: p in ps ==> "sha512-" <= p.integrity && Done(m, p, r)
    ensures PackagesTrace(m, ps, r) == Trace([], None)
    ensures VerifyPackages(m, ps, r) == None
  {
    hide Done, PackageTrace, VerifyPackage;
    if ps != [] {
      DoneNeedsNothing(m, ps[0], r);
      NothingLeft(m, ps[1..], r);
    }
  }

  /** The registry after runs stopped after the given numbers of steps (or at their end) one after another. */
  function AfterStops(m: Manifest, r: Registry, stops: seq<nat>): Registry
    decreases |stops|
  {
    if stops == [] then r
    else
      var t := PublishTrace(m, r);
      var k := if stops[0] <= |t.states| then stops[0] else |t.states|;
      AfterStops(m, StoppedAt(r, t, k), stops[1..])
  }

  /** However often it was stopped before, a run to the end leaves the registry and outcome of one uninterrupted run. */
  lemma {:induction false} AnyInterruptions(m: Manifest, r: Registry, stops: seq<nat>)
    requires Valid(m)
    ensures
      var once := PublishTrace(m, r);
      var s := AfterStops(m, r, stops);
      var t := PublishTrace(m, s);
      Last(s, t.states) == Last(r, once.states) && t.error == once.error
    decreases |stops|
  {
    hide PublishTrace, Valid;
    if stops != [] {
      var t := PublishTrace(m, r);
      var k := if stops[0] <= |t.states| then stops[0] else |t.states|;
      assert AfterStops(m, r, stops) == AfterStops(m, StoppedAt(r, t, k), stops[1..]);
      assert StoppedAt(r, t, k) == Last(r, t.states[..k]);
      hide *;
      PublishResumes(m, r, k);
      AnyInterruptions(m, StoppedAt(r, t, k), stops[1..]);
      LastAppend(r, t.states[..k], t.states[k..]);
      assert t.states[..k] + t.states[k..] == t.states;
    }
  }

  // ---------------------------------------------------------------- what a run guarantees

  /** No step of a run changes the integrity of a version that the registry already had. */
  lemma IntegrityNeverChanges(m: Manifest, r: Registry)
    requires Valid(m)
    ensures Steps(m, r, PublishTrace(m, r).states)
  {
    hide Step, PackagesTrace, EnsureTrace, Verification;
    PackagesSteps(m, m.packages, r);
    var packages := PackagesTrace(m, m.packages, r);
    var s := Last(r, packages.states);
    EnsureSteps(m, ENTRY, LATEST, s);
    var entry := EnsureTrace(m, ENTRY, LATEST, s);
    forall i | 0 <= i < |entry.states| ensures Step(m, r, entry.states[i]) {
      StepTransitive(m, r, s, entry.states[i]);
    }
  }

  /** Nothing in the registry speaks against the package: the release version is absent, or is the recorded one. */
  ghost predicate Open(m: Manifest, p: Package, r: Registry) {
    p.name in r && m.version in r[p.name].versions ==> r[p.name].versions[m.version] == p.integrity
  }

  /** The entry package's latest tag can be set, or is set already. */
  ghost predicate EntryAtHand(m: Manifest, r: Registry) {
    ENTRY in r && (m.version in r[ENTRY].versions || (LATEST in r[ENTRY].tags && r[ENTRY].tags[LATEST] == m.version))
  }

  lemma PackageSucceedsIff(m: Manifest, p: Package, r: Registry)
    requires "sha512-" <= p.integrity
    ensures PackageTrace(m, p, r).error.None? <==> Open(m, p, r)
    ensures
      var s := Last(r, PackageTrace(m, p, r).states);
      forall n :: n != p.name ==> (n in s <==> n in r) && (n in r ==> s[n] == r[n])
  {
  }

  /** The packages succeed exactly when all of them are open before the run; the others are not touched. */
  lemma {:induction false} PackagesSucceedIff(m: Manifest, ps: seq<Package>, r: Registry)
    requires forall p :: p in ps ==> "sha512-" <= p.integrity
    requires forall i, j :: 0 <= i < j < |ps| ==> ps[i].name != ps[j].name
    ensures PackagesTrace(m, ps, r).error.None? <==> forall p :: p in ps ==> Open(m, p, r)
    ensures
      var s := Last(r, PackagesTrace(m, ps, r).states);
      forall n :: (forall p :: p in ps ==> p.name != n) ==> (n in s <==> n in r) && (n in r ==> s[n] == r[n])
  {
    hide PackageTrace;
    if ps != [] {
      var first := PackageTrace(m, ps[0], r);
      PackageSucceedsIff(m, ps[0], r);
      if first.error.None? {
        var s := Last(r, first.states);
        PackagesSucceedIff(m, ps[1..], s);
        LastAppend(r, first.states, PackagesTrace(m, ps[1..], s).states);
        forall p | p in ps[1..] ensures p.name != ps[0].name && (Open(m, p, s) <==> Open(m, p, r)) {
          var i :| 0 < i < |ps| && ps[i] == p;
        }
      }
      assert forall p :: p in ps <==> p == ps[0] || p in ps[1..];
    }
  }

  lemma EnsureSucceedsIff(m: Manifest, r: Registry)
    ensures EnsureTrace(m, ENTRY, LATEST, r).error.None? <==> EntryAtHand(m, r)
  {
  }

  /**
   * Told by what the registry held before: a run succeeds exactly when each package's release version is
   * absent or is the recorded one, and the entry package is in the bundle or at hand. The verification that
   * ends a run never objects: only the steps before it can fail.
   */
  lemma PublishVerifies(m: Manifest, r: Registry)
    requires Valid(m)
    ensures PublishTrace(m, r).error.None? <==>
      && (forall p :: p in m.packages ==> Open(m, p, r))
      && ((exists p :: p in m.packages && p.name == ENTRY) || EntryAtHand(m, r))
    ensures PublishTrace(m, r).error.None? ==> Verification(m, Last(r, PublishTrace(m, r).states)) == None
  {
    hide Step, Done, PackagesTrace, Open, EntryAtHand;
    var packages := PackagesTrace(m, m.packages, r);
    PackagesSucceedIff(m, m.packages, r);
    if packages.error.None? {
      var s := Last(r, packages.states);
      EnsureSteps(m, ENTRY, LATEST, s);
      EnsureSucceedsIff(m, s);
      EntryAfterPackages(m, r);
      LastAppend(r, packages.states, EnsureTrace(m, ENTRY, LATEST, s).states);
      AllDoneNeedsNothing(m, s, Last(s, EnsureTrace(m, ENTRY, LATEST, s).states));
    }
  }

  lemma EntryAfterPackages(m: Manifest, r: Registry)
    requires Valid(m) && PackagesTrace(m, m.packages, r).error.None?
    ensures
      var s := Last(r, PackagesTrace(m, m.packages, r).states);
      && (forall p :: p in m.packages ==> Done(m, p, s))
      && (EntryAtHand(m, s) <==> (exists p :: p in m.packages && p.name == ENTRY) || EntryAtHand(m, r))
  {
    hide Step, PackagesTrace;
    PackagesSucceedIff(m, m.packages, r);
    PackagesSteps(m, m.packages, r);
  }

  // ---------------------------------------------------------------- what a run touches

  ghost predicate InBundle(ps: seq<Package>, name: string) {
    exists p :: p in ps && p.name == name
  }

  /** The versions are as before, or have gained the release with the integrity of a bundle package. */
  ghost predicate VersionsTouched(m: Manifest, ps: seq<Package>, name: string, e: Entry, f: Entry) {
    || f.versions == e.versions
    || exists p :: p in ps && p.name == name && f.versions == e.versions[m.version := p.integrity]
  }

  /** A tag is as before, or is the release tag of a bundle package, or the entry's latest tag. */
  ghost predicate TagsTouched(m: Manifest, ps: seq<Package>, name: string, e: Entry, f: Entry) {
    forall t :: t in f.tags ==>
      || (t in e.tags && f.tags[t] == e.tags[t])
      || (t == m.distTag && InBundle(ps, name))
      || (t == LATEST && name == ENTRY)
  }

  ghost predicate Touched(m: Manifest, ps: seq<Package>, r: Registry, s: Registry) {
    && (forall n :: n in s ==> n in r || InBundle(ps, n))
    && forall n :: VersionsTouched(m, ps, n, EntryOf(r, n), EntryOf(s, n))
                   && TagsTouched(m, ps, n, EntryOf(r, n), EntryOf(s, n))
  }

  lemma TouchedTransitive(m: Manifest, ps: seq<Package>, r: Registry, s: Registry, t: Registry)
    requires forall i, j :: 0 <= i < j < |ps| ==> ps[i].name != ps[j].name
    requires Touched(m, ps, r, s) && Touched(m, ps, s, t)
    ensures Touched(m, ps, r, t)
  {
    hide InBundle, EntryOf;
    forall n ensures VersionsTouched(m, ps, n, EntryOf(r, n), EntryOf(t, n))
                     && TagsTouched(m, ps, n, EntryOf(r, n), EntryOf(t, n))
    {
      var e, f, g := EntryOf(r, n), EntryOf(s, n), EntryOf(t, n);
      assert VersionsTouched(m, ps, n, e, f) && TagsTouched(m, ps, n, e, f);
      assert VersionsTouched(m, ps, n, f, g) && TagsTouched(m, ps, n, f, g);
    }
  }

  lemma TouchedSelf(m: Manifest, ps: seq<Package>, r: Registry)
    ensures Touched(m, ps, r, r)
  {
  }

  lemma PackageTouches(m: Manifest, ps: seq<Package>, p: Package, r: Registry)
    requires p in ps
    ensures Touched(m, ps, r, Last(r, PackageTrace(m, p, r).states))
    ensures |PackageTrace(m, p, r).states| <= 1
  {
    TagTouches(m, ps, p.name, m.distTag, r);
    TagTouches(m, ps, p.name, m.distTag, Published(m, r, p));
    assert InBundle(ps, p.name);
    assert Touched(m, ps, r, Published(m, r, p));
    TouchedSelf(m, ps, r);
    hide Touched;
  }

  lemma TagTouches(m: Manifest, ps: seq<Package>, name: string, tag: string, r: Registry)
    requires (tag == m.distTag && InBundle(ps, name)) || (tag == LATEST && name == ENTRY)
    ensures Touched(m, ps, r, Last(r, EnsureTrace(m, name, tag, r).states))
    ensures |EnsureTrace(m, name, tag, r).states| <= 1
  {
    TouchedSelf(m, ps, r);
  }

  lemma {:induction false} PackagesTouch(m: Manifest, all: seq<Package>, ps: seq<Package>, r: Registry)
    requires forall i, j :: 0 <= i < j < |all| ==> all[i].name != all[j].name
    requires forall p :: p in ps ==> p in all
    ensures forall s :: s in PackagesTrace(m, ps, r).states ==> Touched(m, all, r, s)
    ensures Touched(m, all, r, Last(r, PackagesTrace(m, ps, r).states))
  {
    hide Touched, PackageTrace;
    TouchedSelf(m, all, r);
    if ps != [] {
      var first := PackageTrace(m, ps[0], r);
      var s := Last(r, first.states);
      PackageTouches(m, all, ps[0], r);
      assert forall x :: x in first.states ==> x == s;
      if first.error.None? {
        var rest := PackagesTrace(m, ps[1..], s);
        PackagesTouch(m, all, ps[1..], s);
        forall x | x in rest.states || x == Last(s, rest.states) ensures Touched(m, all, r, x) {
          TouchedTransitive(m, all, r, s, x);
        }
        LastAppend(r, first.states, rest.states);
      }
    }
  }

  /**
   * No step of a run touches anything but the release version and the release tag of the bundle's own
   * packages, and the latest tag of the entry package.
   */
  lemma RunTouchesOnly(m: Manifest, r: Registry, s: Registry)
    requires Valid(m) && s in PublishTrace(m, r).states
    ensures Touched(m, m.packages, r, s)
  {
    hide Touched, PackagesTrace, EnsureTrace, Verification;
    PackagesTouch(m, m.packages, m.packages, r);
    var before := Last(r, PackagesTrace(m, m.packages, r).states);
    TagTouches(m, m.packages, ENTRY, LATEST, before);
    if s !in PackagesTrace(m, m.packages, r).states {
      assert s in EnsureTrace(m, ENTRY, LATEST, before).states;
      TouchedTransitive(m, m.packages, r, before, s);
    }
  }

  // ---------------------------------------------------------------- what the verification objects to

  ghost predicate Recorded(m: Manifest, r: Registry, name: string, integrity: string) {
    name in r && m.version in r[name].versions && r[name].versions[m.version] == integrity
  }

  ghost predicate TagAtRelease(m: Manifest, r: Registry, name: string, tag: string) {
    name in r && tag in r[name].tags && r[name].tags[tag] == m.version
  }

  /** A package passes exactly when it is done; each objection is made on exactly one state of the registry. */
  lemma PackageVerifiedIff(m: Manifest, p: Package, r: Registry)
    requires "sha512-" <= p.integrity
    ensures VerifyPackage(m, p, r) == None <==> Done(m, p, r)
    ensures VerifyPackage(m, p, r) == Some(PackageMissing(p.name)) <==>
      forall i :: !Recorded(m, r, p.name, i)
    ensures VerifyPackage(m, p, r) == Some(NoIntegrity(p.name)) <==>
      exists i :: Recorded(m, r, p.name, i) && !("sha512-" <= i)
    ensures VerifyPackage(m, p, r) == Some(IntegrityMismatch(p.name)) <==>
      exists i :: Recorded(m, r, p.name, i) && "sha512-" <= i && i != p.integrity
    ensures VerifyPackage(m, p, r) == Some(WrongTag(p.name, m.distTag)) <==>
      Recorded(m, r, p.name, p.integrity) && !TagAtRelease(m, r, p.name, m.distTag)
  {
    if p.name in r && m.version in r[p.name].versions {
      assert Recorded(m, r, p.name, r[p.name].versions[m.version]);
    }
  }

  /** The first package that is not done. */
  ghost predicate FirstUndone(m: Manifest, ps: seq<Package>, r: Registry, k: nat) {
    k < |ps| && !Done(m, ps[k], r) && forall j :: 0 <= j < k ==> Done(m, ps[j], r)
  }

  lemma {:induction false} FirstObjection(m: Manifest, ps: seq<Package>, r: Registry)
    requires forall p :: p in ps ==> "sha512-" <= p.integrity
    ensures VerifyPackages(m, ps, r) == None <==> forall p :: p in ps ==> Done(m, p, r)
    ensures forall k: nat :: FirstUndone(m, ps, r, k) ==> VerifyPackages(m, ps, r) == VerifyPackage(m, ps[k], r)
  {
    hide Done, VerifyPackage;
    if ps != [] {
      PackageVerifiedIff(m, ps[0], r);
      FirstObjection(m, ps[1..], r);
      assert forall p :: p in ps <==> p == ps[0] || p in ps[1..];
      if Done(m, ps[0], r) {
        forall k: nat | FirstUndone(m, ps, r, k) ensures k > 0 && FirstUndone(m, ps[1..], r, k - 1) {
        }
      } else {
        assert forall k: nat :: FirstUndone(m, ps, r, k) ==> k == 0;
      }
    }
  }

  /**
   * The verification passes exactly the registries in which the whole bundle is done and the entry's latest
   * tag is at the release. Otherwise it objects to the first package in bundle order that is not done, as
   * PackageVerifiedIff tells, or if there is none to the entry's tag.
   */
  lemma VerificationIff(m: Manifest, r: Registry)
    requires Valid(m)
    ensures Verification(m, r) == None <==>
      (forall p :: p in m.packages ==> Done(m, p, r)) && TagAtRelease(m, r, ENTRY, LATEST)
    ensures forall k: nat :: FirstUndone(m, m.packages, r, k) ==>
      Verification(m, r) == VerifyPackage(m, m.packages[k], r) && Verification(m, r).Some?
    ensures (forall p :: p in m.packages ==> Done(m, p, r)) && !TagAtRelease(m, r, ENTRY, LATEST) ==>
      Verification(m, r) == Some(if ENTRY in r then WrongTag(ENTRY, LATEST) else CommandFailed(ENTRY))
  {
    hide Done, VerifyPackage, VerifyPackages;
    FirstObjection(m, m.packages, r);
    forall k: nat | FirstUndone(m, m.packages, r, k) ensures VerifyPackage(m, m.packages[k], r).Some? {
      assert m.packages[k] in m.packages;
      PackageVerifiedIff(m, m.packages[k], r);
    }
  }

  // ---------------------------------------------------------------- why a run fails

  /** The first package that something in the registry speaks against. */
  ghost predicate FirstClosed(m: Manifest, ps: seq<Package>, r: Registry, k: nat) {
    k < |ps| && !Open(m, ps[k], r) && forall j :: 0 <= j < k ==> Open(m, ps[j], r)
  }

  lemma PackageFailsWith(m: Manifest, p: Package, r: Registry, e: PublishError)
    requires "sha512-" <= p.integrity
    ensures PackageTrace(m, p, r).error == Some(e) <==>
      exists i :: Recorded(m, r, p.name, i) && i != p.integrity
                  && e == if "sha512-" <= i then IntegrityConflict(p.name) else NoIntegrity(p.name)
  {
    if p.name in r && m.version in r[p.name].versions {
      assert Recorded(m, r, p.name, r[p.name].versions[m.version]);
    }
  }

  /** Whether a package can be published depends on nothing but what the registry has under its name. */
  lemma OnlyItsOwnName(m: Manifest, p: Package, r: Registry, s: Registry)
    requires (p.name in s <==> p.name in r) && (p.name in r ==> s[p.name] == r[p.name])
    ensures Open(m, p, s) <==> Open(m, p, r)
    ensures forall i :: Recorded(m, s, p.name, i) <==> Recorded(m, r, p.name, i)
  {
  }

  /** The packages in front of the first closed one are done, those from it on are as before. */
  lemma {:induction false} PackagesFailAt(m: Manifest, ps: seq<Package>, r: Registry, k: nat, e: PublishError)
    requires forall p :: p in ps ==> "sha512-" <= p.integrity
    requires forall i, j :: 0 <= i < j < |ps| ==> ps[i].name != ps[j].name
    requires FirstClosed(m, ps, r, k)
    ensures
      var t := PackagesTrace(m, ps, r);
      var s := Last(r, t.states);
      && (t.error == Some(e) <==> PackageTrace(m, ps[k], r).error == Some(e))
      && (forall j :: 0 <= j < k ==> Done(m, ps[j], s))
      && forall j :: k <= j < |ps| ==> (ps[j].name in s <==> ps[j].name in r)
                                       && (ps[j].name in r ==> s[ps[j].name] == r[ps[j].name])
  {
    hide Done, PackageTrace, Open, Step;
    var first := PackageTrace(m, ps[0], r);
    PackageSucceedsIff(m, ps[0], r);
    PackageSteps(m, ps[0], r);
    if k > 0 {
      var s, rest := Last(r, first.states), ps[1..];
      forall p | p in rest ensures p.name != ps[0].name && (Open(m, p, s) <==> Open(m, p, r)) {
        var i :| 0 <= i < |rest| && rest[i] == p;
        assert ps[i + 1].name != ps[0].name;
        OnlyItsOwnName(m, p, r, s);
      }
      assert FirstClosed(m, rest, s, k - 1);
      PackagesFailAt(m, rest, s, k - 1, e);
      PackageFailsWith(m, ps[k], r, e);
      PackageFailsWith(m, ps[k], s, e);
      OnlyItsOwnName(m, ps[k], r, s);
      PackagesSteps(m, rest, s);
      StepKeepsDone(m, ps[0], s, Last(s, PackagesTrace(m, rest, s).states));
      LastAppend(r, first.states, PackagesTrace(m, rest, s).states);
    }
  }

  /**
   * A run that fails says why, in terms of the registry before it: the first package with another recorded
   * integrity, or with one that is unusable; or, when the packages are in place, the entry package that is
   * not there at the version. The packages in front of the one that stops the run are done, the others as
   * they were.
   */
  lemma PublishFailsWith(m: Manifest, r: Registry, e: PublishError)
    requires Valid(m) && PublishTrace(m, r).error == Some(e)
    ensures (forall p :: p in m.packages ==> Open(m, p, r)) ==> e == CommandFailed(ENTRY)
    ensures forall k: nat :: FirstClosed(m, m.packages, r, k) ==>
      && (exists i :: Recorded(m, r, m.packages[k].name, i) && i != m.packages[k].integrity
                      && e == if "sha512-" <= i then IntegrityConflict(m.packages[k].name)
                              else NoIntegrity(m.packages[k].name))
      && var s := Last(r, PublishTrace(m, r).states);
         && (forall j :: 0 <= j < k ==> Done(m, m.packages[j], s))
         && forall j :: k <= j < |m.packages| ==>
              && (m.packages[j].name in s <==> m.packages[j].name in r)
              && (m.packages[j].name in r ==> s[m.packages[j].name] == r[m.packages[j].name])
  {
    hide Done, PackagesTrace, PackageTrace, Open, Step, EntryAtHand, Verification, Recorded;
    var packages := PackagesTrace(m, m.packages, r);
    PackagesSucceedIff(m, m.packages, r);
    forall k: nat | FirstClosed(m, m.packages, r, k)
      ensures packages.error.Some?
    {
      assert m.packages[k] in m.packages;
    }
    if packages.error.None? {
      PublishVerifies(m, r);
      EntryAfterPackages(m, r);
      EntryFails(m, Last(r, packages.states));
    } else {
      assert packages.error == Some(e) && PublishTrace(m, r) == packages;
      forall k: nat | FirstClosed(m, m.packages, r, k)
        ensures exists i :: Recorded(m, r, m.packages[k].name, i) && i != m.packages[k].integrity
                            && e == if "sha512-" <= i then IntegrityConflict(m.packages[k].name)
                                    else NoIntegrity(m.packages[k].name)
      {
        assert m.packages[k] in m.packages;
        PackagesFailAt(m, m.packages, r, k, e);
        PackageFailsWith(m, m.packages[k], r, e);
      }
      forall k: nat | FirstClosed(m, m.packages, r, k)
        ensures forall j :: 0 <= j < k ==> Done(m, m.packages[j], Last(r, packages.states))
        ensures forall j :: k <= j < |m.packages| ==>
          && (m.packages[j].name in Last(r, packages.states) <==> m.packages[j].name in r)
          && (m.packages[j].name in r ==> Last(r, packages.states)[m.packages[j].name] == r[m.packages[j].name])
      {
        PackagesFailAt(m, m.packages, r, k, e);
      }
    }
  }

  lemma EntryFails(m: Manifest, r: Registry)
    ensures !EntryAtHand(m, r) ==> EnsureTrace(m, ENTRY, LATEST, r).error == Some(CommandFailed(ENTRY))
    ensures EntryAtHand(m, r) ==> EnsureTrace(m, ENTRY, LATEST, r).error == None
  {
  }

  function LatestOfEntry(r: Registry): Option<string> {
    if ENTRY in r && LATEST in r[ENTRY].tags then Some(r[ENTRY].tags[LATEST]) else None
  }

  /** The entry package's latest tag has not moved unless the whole bundle is in place. */
  ghost predicate LatestLast(m: Manifest, r: Registry, s: Registry) {
    LatestOfEntry(s) == LatestOfEntry(r) || forall p :: p in m.packages ==> Done(m, p, s)
  }

  lemma StepElsewhere(m: Manifest, p: Package, r: Registry)
    requires "sha512-" <= p.integrity && (m.distTag != LATEST || p.name != ENTRY)
    ensures LatestOfEntry(Last(r, PackageTrace(m, p, r).states)) == LatestOfEntry(r)
    ensures forall s :: s in PackageTrace(m, p, r).states ==> LatestOfEntry(s) == LatestOfEntry(r)
  {
    PackageSteps(m, p, r);
  }

  /** The entry package's own publication moves its latest tag only if the release tag is `latest` itself. */
  ghost predicate EntryComesLast(m: Manifest, ps: seq<Package>) {
    m.distTag != LATEST || forall i :: 0 <= i < |ps| - 1 ==> ps[i].name != ENTRY
  }

  lemma {:induction false} PackagesLatestLast(m: Manifest, ps: seq<Package>, r0: Registry, r: Registry)
    requires forall p :: p in ps ==> "sha512-" <= p.integrity
    requires forall p :: p in m.packages ==> p in ps || Done(m, p, r)
    requires EntryComesLast(m, ps) && LatestLast(m, r0, r)
    ensures forall s :: s in PackagesTrace(m, ps, r).states ==> LatestLast(m, r0, s)
    ensures LatestLast(m, r0, Last(r, PackagesTrace(m, ps, r).states))
  {
    hide Step, Done, PackageTrace, LatestOfEntry;
    if ps != [] {
      var first := PackageTrace(m, ps[0], r);
      var s := Last(r, first.states);
      PackageSteps(m, ps[0], r);
      assert first.states == [] || first.states == [s];
      forall p | p in m.packages && first.error.None? ensures p in ps[1..] || Done(m, p, s) {
        if p in ps {
          assert p == ps[0] || p in ps[1..];
        } else {
          StepKeepsDone(m, p, r, s);
        }
      }
      if m.distTag != LATEST || ps[0].name != ENTRY {
        StepElsewhere(m, ps[0], r);
        if forall p :: p in m.packages ==> Done(m, p, r) {
          forall p | p in m.packages ensures Done(m, p, s) {
            StepKeepsDone(m, p, r, s);
          }
        }
      } else if first.error.None? {
        assert ps[1..] == [];
        assert forall p :: p in m.packages ==> Done(m, p, s);
      }
      assert LatestLast(m, r0, s);
      if first.error.None? {
        PackagesLatestLast(m, ps[1..], r0, s);
        LastAppend(r, first.states, PackagesTrace(m, ps[1..], s).states);
      }
    }
  }

  lemma RunLatestLast(m: Manifest, r: Registry)
    requires Valid(m) && EntryComesLast(m, m.packages)
    ensures forall s :: s in PublishTrace(m, r).states ==> LatestLast(m, r, s)
  {
    hide Step, Done, PackagesTrace, LatestOfEntry, Verification;
    PackagesLatestLast(m, m.packages, r, r);
    var packages := PackagesTrace(m, m.packages, r);
    if packages.error.None? {
      var s := Last(r, packages.states);
      PackagesSteps(m, m.packages, r);
      EnsureSteps(m, ENTRY, LATEST, s);
      forall t, p | t in EnsureTrace(m, ENTRY, LATEST, s).states && p in m.packages ensures Done(m, p, t) {
        StepKeepsDone(m, p, s, t);
      }
    }
  }

  /** On a registry that has none of the packages, each step publishes the next one. */
  lemma {:induction false} FirstPublication(m: Manifest, ps: seq<Package>, r: Registry)
    requires forall p :: p in ps ==> p.name !in r
    requires forall i, j :: 0 <= i < j < |ps| ==> ps[i].name != ps[j].name
    ensures
      var t := PackagesTrace(m, ps, r);
      && t.error.None? && |t.states| == |ps|
      && forall i :: 0 <= i < |ps| ==>
           && Done(m, ps[i], t.states[i])
           && forall j :: i < j < |ps| ==> ps[j].name !in t.states[i]
  {
    if ps != [] {
      var s := Published(m, r, ps[0]);
      assert PackageTrace(m, ps[0], r) == Trace([s], None);
      FirstPublication(m, ps[1..], s);
      var rest := PackagesTrace(m, ps[1..], s);
      assert PackagesTrace(m, ps, r).states == [s] + rest.states;
      forall j | 0 < j < |ps| ensures ps[j].name !in s {
        assert ps[j] in ps;
      }
    }
  }

  /**
   * The entry package's latest tag moves only once the whole bundle is in place, whatever the registry
   * held before: exactly when the release tag is not `latest`, or the entry package is published last.
   */
  lemma LatestMovesLastIff(m: Manifest)
    requires Valid(m)
    ensures (forall r, s :: s in PublishTrace(m, r).states ==> LatestLast(m, r, s)) <==> EntryComesLast(m, m.packages)
  {
    hide PublishTrace, LatestLast;
    if EntryComesLast(m, m.packages) {
      forall r, s | s in PublishTrace(m, r).states ensures LatestLast(m, r, s) {
        RunLatestLast(m, r);
      }
    } else {
      var s := LatestMovesEarly(m);
    }
  }

  /** With the release tag `latest`, a first publication moves the tag before the packages after the entry exist. */
  lemma LatestMovesEarly(m: Manifest) returns (s: Registry)
    requires Valid(m) && !EntryComesLast(m, m.packages)
    ensures s in PublishTrace(m, map[]).states && !LatestLast(m, map[], s)
  {
    hide PackagesTrace;
    var i :| 0 <= i < |m.packages| - 1 && m.packages[i].name == ENTRY;
    FirstPublication(m, m.packages, map[]);
    var packages := PackagesTrace(m, m.packages, map[]);
    s := packages.states[i];
    assert s in packages.states;
    assert LatestOfEntry(s) == Some(m.version) && LatestOfEntry(map[]) == None;
    assert m.packages[i + 1] in m.packages && m.packages[i + 1].name !in s;
  }

  // ---------------------------------------------------------------- the publisher

  datatype Outcome = Completed | Stopped | Failed(error: PublishError)

  /**
   * From registry `r` and with `left` steps allowed, a run has taken as many steps of a trace as it
   * could: it now has `now` and `stepsLeft`, and was stopped exactly if the trace has more steps.
   */
  ghost predicate Took(r: Registry, left: nat, t: Trace, now: Registry, stepsLeft: nat, outcome: Outcome) {
    var k := if left <= |t.states| then left else |t.states|;
    && now == StoppedAt(r, t, k)
    && stepsLeft == left - k
    && outcome == if left < |t.states| then Stopped
                  else if t.error.Some? then Failed(t.error.value) else Completed
  }

  /** If a part of a trace, after some taken steps, does not complete, neither does the trace, in the same way. */
  lemma PartEnds(
    r: Registry, left: nat, taken: seq<Registry>, part: Trace, t: Trace, now: Registry, stepsLeft: nat,
    outcome: Outcome)
    requires |taken| <= left && Took(Last(r, taken), left - |taken|, part, now, stepsLeft, outcome)
    requires outcome != Completed
    requires part.error.Some? ==> t == Trace(taken + part.states, part.error)
    requires taken + part.states <= t.states
    ensures Took(r, left, t, now, stepsLeft, outcome)
  {
    var j := if left - |taken| <= |part.states| then left - |taken| else |part.states|;
    LastAppend(r, taken, part.states[..j]);
    assert t.states[..|taken| + j] == (taken + part.states)[..|taken| + j] == taken + part.states[..j];
    assert j == |part.states| && part.error.Some? ==> t.states[..|taken| + j] == t.states;
  }

  lemma PartCompletes(r: Registry, left: nat, taken: seq<Registry>, part: Trace, now: Registry, stepsLeft: nat)
    requires |taken| <= left && Took(Last(r, taken), left - |taken|, part, now, stepsLeft, Completed)
    ensures part.error.None? && |taken + part.states| <= left && stepsLeft == left - |taken + part.states|
    ensures now == Last(r, taken + part.states)
  {
    assert part.states[..|part.states|] == part.states;
    LastAppend(r, taken, part.states);
  }

  lemma NextPackage(m: Manifest, k: nat, taken: seq<Registry>, at: Registry)
    requires k < |m.packages|
    ensures
      var first := PackageTrace(m, m.packages[k], at);
      var rest := PackagesTrace(m, m.packages[k + 1..], Last(at, first.states));
      var t := PackagesTrace(m, m.packages[k..], at);
      if first.error.Some? then t == first
      else t.error == rest.error && taken + t.states == (taken + first.states) + rest.states
  {
    assert m.packages[k..][1..] == m.packages[k + 1..];
  }

  /** The publisher working on a registry, in a process that is stopped when it wants one step too many. */
  class RegistryPublication {
    const manifest: Manifest
    var registry: Registry
    var stepsLeft: nat

    constructor (manifest: Manifest, registry: Registry, stepsLeft: nat)
      ensures this.manifest == manifest && this.registry == registry && this.stepsLeft == stepsLeft
    {
      this.manifest, this.registry, this.stepsLeft := manifest, registry, stepsLeft;
    }

    method EnsureDistTag(name: string, tag: string) returns (outcome: Outcome)
      modifies this
      ensures Took(
        old(registry), old(stepsLeft), EnsureTrace(manifest, name, tag, old(registry)), registry, stepsLeft, outcome)
    {
      var current := RemoteDistTag(registry, name, tag);
      if current.Failure? {
        return Failed(current.error);
      }
      if current.value == Some(manifest.version) {
        return Completed;
      }
      if manifest.version !in registry[name].versions {
        return Failed(CommandFailed(name));
      }
      if stepsLeft == 0 {
        return Stopped;
      }
      registry := Tagged(manifest, registry, name, tag);
      stepsLeft := stepsLeft - 1;
      return Completed;
    }

    method PublishPackage(p: Package) returns (outcome: Outcome)
      modifies this
      ensures Took(
        old(registry), old(stepsLeft), PackageTrace(manifest, p, old(registry)), registry, stepsLeft, outcome)
    {
      var existing := RemoteIntegrity(manifest, registry, p.name);
      if existing.Failure? {
        return Failed(existing.error);
      }
      ghost var r, left := registry, stepsLeft;
      ghost var taken: seq<Registry> := [];
      if existing.value.None? {
        if stepsLeft == 0 {
          return Stopped;
        }
        registry := Published(manifest, registry, p);
        stepsLeft := stepsLeft - 1;
        taken := [registry];
      } else if existing.value.value != p.integrity {
        return Failed(IntegrityConflict(p.name));
      }
      ghost var tag := EnsureTrace(manifest, p.name, manifest.distTag, registry);
      outcome := EnsureDistTag(p.name, manifest.distTag);
      if outcome == Completed {
        PartCompletes(r, left, taken, tag, registry, stepsLeft);
        assert (taken + tag.states)[..|taken + tag.states|] == taken + tag.states;
      } else {
        PartEnds(r, left, taken, tag, PackageTrace(manifest, p, r), registry, stepsLeft, outcome);
      }
    }

    /** The checks of the final verification, package by package. */
    method VerifyRemote() returns (error: Option<PublishError>)
      ensures error == Verification(manifest, registry)
    {
      assert manifest.packages[0..] == manifest.packages;
      for k := 0 to |manifest.packages|
        invariant VerifyPackages(manifest, manifest.packages, registry) ==
                  VerifyPackages(manifest, manifest.packages[k..], registry)
      {
        error := VerifyPackage(manifest, manifest.packages[k], registry);
        assert manifest.packages[k..][1..] == manifest.packages[k + 1..];
        if error.Some? {
          return;
        }
      }
      return VerifyTag(manifest, ENTRY, LATEST, registry);
    }

    /** The loop over the packages of the bundle. */
    method PublishPackages() returns (outcome: Outcome)
      modifies this
      ensures Took(
        old(registry), old(stepsLeft), PackagesTrace(manifest, manifest.packages, old(registry)),
        registry, stepsLeft, outcome)
    {
      hide *;
      ghost var r, left, all := registry, stepsLeft, PackagesTrace(manifest, manifest.packages, registry);
      ghost var taken: seq<Registry> := [];
      assert manifest.packages[0..] == manifest.packages;
      NothingTaken(r);
      for k := 0 to |manifest.packages|
        invariant |taken| <= left && stepsLeft == left - |taken| && registry == Last(r, taken)
        invariant
          var rest := PackagesTrace(manifest, manifest.packages[k..], registry);
          all == Trace(taken + rest.states, rest.error)
      {
        ghost var first := PackageTrace(manifest, manifest.packages[k], registry);
        NextPackage(manifest, k, taken, registry);
        outcome := PublishPackage(manifest.packages[k]);
        if outcome != Completed {
          PartEnds(r, left, taken, first, all, registry, stepsLeft, outcome);
          return;
        }
        PartCompletes(r, left, taken, first, registry, stepsLeft);
        LastAppend(r, taken, first.states);
        taken := taken + first.states;
      }
      NoPackages(manifest, registry);
      assert taken + [] == taken;
      WholeRun(r, left, all, registry, stepsLeft, Completed);
      outcome := Completed;
    }

    /** A run takes the steps of the trace in order until it ends or is stopped. */
    method Publish() returns (outcome: Outcome)
      modifies this
      ensures Took(
        old(registry), old(stepsLeft), PublishTrace(manifest, old(registry)), registry, stepsLeft, outcome)
    {
      hide PackageTrace, EnsureTrace, Verification, PackagesTrace, Took;
      ghost var r, left, all := registry, stepsLeft, PublishTrace(manifest, registry);
      ghost var packages := PackagesTrace(manifest, manifest.packages, registry);
      outcome := PublishPackages();
      if outcome != Completed {
        PartEnds(r, left, [], packages, all, registry, stepsLeft, outcome);
        return;
      }
      PartCompletes(r, left, [], packages, registry, stepsLeft);
      assert [] + packages.states == packages.states;
      ghost var entry := EnsureTrace(manifest, ENTRY, LATEST, registry);
      outcome := EnsureDistTag(ENTRY, LATEST);
      if outcome != Completed {
        PartEnds(r, left, packages.states, entry, all, registry, stepsLeft, outcome);
        return;
      }
      PartCompletes(r, left, packages.states, entry, registry, stepsLeft);
      var error := VerifyRemote();
      outcome := if error.Some? then Failed(error.value) else Completed;
      WholeRun(r, left, all, registry, stepsLeft, outcome);
    }
  }

  lemma NothingTaken(r: Registry)
    ensures Last(r, []) == r
  {
  }

  lemma NoPackages(m: Manifest, r: Registry)
    ensures PackagesTrace(m, m.packages[|m.packages|..], r) == Trace([], None)
  {
  }

  lemma WholeRun(r: Registry, left: nat, t: Trace, now: Registry, stepsLeft: nat, outcome: Outcome)
    requires |t.states| <= left && stepsLeft == left - |t.states| && now == Last(r, t.states)
    requires outcome == if t.error.Some? then Failed(t.error.value) else Completed
    ensures Took(r, left, t, now, stepsLeft, outcome)
  {
    assert t.states[..|t.states|] == t.states;
  }
}
