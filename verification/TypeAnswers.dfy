/** When the lookup of a path answers definitely: what the shared guard of the walk costs, and when nothing. */
module TypeAnswers {
  import opened Collections
  import opened KeyPaths
  import opened TypePaths
  import opened Wrappers

  /** What the guard remembers: a declaration, and the number of steps left when it was entered. */
  type Key = (DeclId, nat)

  // ---------------------------------------------------------------- the same walk without a guard

  /** A walk that never looks back returns with the keys it has entered, in order and as often as entered. */
  datatype Free<T> = Walked(answer: T, keys: seq<Key>) | TooDeep

  function FreeFinish(parts: Free<seq<Answer>>, join: seq<Answer> -> Answer): Free<Answer> {
    match parts
    case TooDeep => TooDeep
    case Walked(answers, keys) => Walked(join(answers), keys)
  }

  function FreeType(w: World, file: string, t: Type, steps: seq<Step>, depth: nat): Free<Answer>
    decreases depth, 0
  {
    if depth == 0 then TooDeep
    else if steps == [] then Walked(Found, [])
    else
      match t
      case Literal(members) =>
        if steps[0].Element? then Walked(Unknown, [])
        else
          (match FindProperty(members, steps[0].name)
           case None => Walked(Missing, [])
           case Some(ty) => FreeMember(w, file, ty, steps, depth - 1))
      case Parenthesized(inner) => FreeType(w, file, inner, steps, depth - 1)
      case Intersection(parts) => FreeFinish(FreeAll(w, file, parts, steps, depth - 1), Combine)
      case Union(parts) => FreeFinish(FreeAll(w, file, parts, steps, depth - 1), Agreed)
      case ArrayOf(element) =>
        if steps[0].Element? then FreeType(w, file, element, steps[1..], depth - 1) else Walked(Unknown, [])
      case Operator(inner) => FreeType(w, file, inner, steps, depth - 1)
      case Indexed(owner, key) =>
        if key.Some? then FreeType(w, file, owner, [Member(key.value)] + steps, depth - 1) else Walked(Unknown, [])
      case Reference(head, qualified, args) =>
        if head in PASSTHROUGH && args != [] then FreeType(w, file, args[0], steps, depth - 1)
        else if head in ARRAYS && args != [] then
          if steps[0].Element? then FreeType(w, file, args[0], steps[1..], depth - 1) else Walked(Unknown, [])
        else if qualified then Walked(Unknown, [])
        else
          (match Resolve(w, file, head)
           case None => Walked(Unknown, [])
           case Some(id) => FreeDecl(w, id, steps, depth - 1))
      case Other => Walked(Unknown, [])
  }

  function FreeMember(w: World, file: string, ty: Option<Type>, steps: seq<Step>, depth: nat): Free<Answer>
    requires steps != []
    decreases depth, 1
  {
    if |steps| == 1 then Walked(Found, [])
    else if ty.None? then Walked(Unknown, [])
    else FreeType(w, file, ty.value, steps[1..], depth)
  }

  function FreeAll(w: World, file: string, ts: seq<Type>, steps: seq<Step>, depth: nat): Free<seq<Answer>>
    decreases depth, 1 + |ts|
  {
    if ts == [] then Walked([], [])
    else
      match FreeType(w, file, ts[0], steps, depth)
      case TooDeep => TooDeep
      case Walked(first, keys1) =>
        match FreeAll(w, file, ts[1..], steps, depth)
        case TooDeep => TooDeep
        case Walked(rest, keys2) => Walked([first] + rest, keys1 + keys2)
  }

  function FreeDecl(w: World, id: DeclId, steps: seq<Step>, depth: nat): Free<Answer>
    requires id in w.decls
    decreases depth, 0
  {
    if depth == 0 then TooDeep
    else if steps == [] then Walked(Found, [])
    else
      match FreeBody(w, id, steps, depth - 1)
      case TooDeep => TooDeep
      case Walked(answer, keys) => Walked(answer, [(id, |steps|)] + keys)
  }

  /** Past the declaration's own key. */
  function FreeBody(w: World, id: DeclId, steps: seq<Step>, depth: nat): Free<Answer>
    requires id in w.decls && steps != []
    decreases depth, 10
  {
    match w.decls[id]
    case Alias(ty) => FreeType(w, id.file, ty, steps, depth)
    case Interface(members, bases) =>
      if steps[0].Element? then Walked(Unknown, [])
      else
        match FindProperty(members, steps[0].name)
        case Some(ty) => FreeMember(w, id.file, ty, steps, depth)
        case None => FreeFinish(FreeBases(w, id.file, bases, steps, depth), Combine)
  }

  function FreeBases(w: World, file: string, bases: seq<Base>, steps: seq<Step>, depth: nat): Free<seq<Answer>>
    decreases depth, 1, |bases|
  {
    if bases == [] then Walked([], [])
    else
      match FreeBase(w, file, bases[0], steps, depth)
      case TooDeep => TooDeep
      case Walked(first, keys1) =>
        match FreeBases(w, file, bases[1..], steps, depth)
        case TooDeep => TooDeep
        case Walked(rest, keys2) => Walked([first] + rest, keys1 + keys2)
  }

  function FreeBase(w: World, file: string, base: Base, steps: seq<Step>, depth: nat): Free<Answer>
    decreases depth, 1, 0
  {
    match base
    case Computed => Walked(Unknown, [])
    case Named(name) =>
      match Resolve(w, file, name)
      case None => Walked(Unknown, [])
      case Some(id) => FreeDecl(w, id, steps, depth)
  }

  // ---------------------------------------------------------------- following it with a guard

  function Entered(keys: seq<Key>): Seen {
    set k | k in keys
  }

  /** No key that the guard knows, and none twice. */
  ghost predicate Unseen(keys: seq<Key>, seen: Seen) {
    Distinct(keys) && forall k :: k in keys ==> k !in seen
  }

  /** A guarded walk that has done what the free one did, and remembers its keys. */
  ghost predicate Followed<T>(r: Outcome<T>, free: Free<T>, seen: Seen) {
    free.Walked? && Unseen(free.keys, seen) ==> r == Returned(free.answer, seen + Entered(free.keys))
  }

  lemma UnseenParts(a: seq<Key>, b: seq<Key>, seen: Seen)
    requires Unseen(a + b, seen)
    ensures Unseen(a, seen) && Unseen(b, seen + Entered(a))
    ensures seen + Entered(a) + Entered(b) == seen + Entered(a + b)
  {
    var all := a + b;
    forall i, j | 0 <= i < j < |a| ensures a[i] != a[j] {
      assert all[i] == a[i] && all[j] == a[j];
    }
    forall i, j | 0 <= i < j < |b| ensures b[i] != b[j] {
      assert all[|a| + i] == b[i] && all[|a| + j] == b[j];
    }
    forall k | k in b ensures k !in a {
      var j :| 0 <= j < |b| && b[j] == k;
      assert all[|a| + j] == k;
      forall i | 0 <= i < |a| ensures a[i] != k {
        assert all[i] == a[i];
      }
    }
    assert forall k :: k in all <==> k in a || k in b;
  }

  lemma {:induction false} TypeFollows(w: World, file: string, t: Type, steps: seq<Step>, seen: Seen, depth: nat)
    ensures Followed(LookupType(w, file, t, steps, seen, depth), FreeType(w, file, t, steps, depth), seen)
    decreases depth, 0
  {
    assert seen + Entered([]) == seen;
    if depth > 0 && steps != [] {
      match t
      case Literal(members) =>
        if steps[0].Member? && FindProperty(members, steps[0].name).Some? {
          MemberFollows(w, file, FindProperty(members, steps[0].name).value, steps, seen, depth - 1);
        }
      case Parenthesized(inner) => TypeFollows(w, file, inner, steps, seen, depth - 1);
      case Intersection(parts) => AllFollow(w, file, parts, steps, seen, depth - 1);
      case Union(parts) => AllFollow(w, file, parts, steps, seen, depth - 1);
      case ArrayOf(element) => TypeFollows(w, file, element, steps[1..], seen, depth - 1);
      case Operator(inner) => TypeFollows(w, file, inner, steps, seen, depth - 1);
      case Indexed(owner, key) =>
        if key.Some? { TypeFollows(w, file, owner, [Member(key.value)] + steps, seen, depth - 1); }
      case Reference(head, qualified, args) =>
        if args != [] {
          TypeFollows(w, file, args[0], steps, seen, depth - 1);
          TypeFollows(w, file, args[0], steps[1..], seen, depth - 1);
        }
        if Resolve(w, file, head).Some? {
          DeclFollows(w, Resolve(w, file, head).value, steps, seen, depth - 1);
        }
      case Other =>
    }
  }

  lemma {:induction false} MemberFollows(
    w: World, file: string, ty: Option<Type>, steps: seq<Step>, seen: Seen, depth: nat)
    requires steps != []
    ensures Followed(LookupMember(w, file, ty, steps, seen, depth), FreeMember(w, file, ty, steps, depth), seen)
    decreases depth, 1
  {
    assert seen + Entered([]) == seen;
    if |steps| > 1 && ty.Some? {
      TypeFollows(w, file, ty.value, steps[1..], seen, depth);
    }
  }

  lemma {:induction false} AllFollow(w: World, file: string, ts: seq<Type>, steps: seq<Step>, seen: Seen, depth: nat)
    ensures Followed(LookupAll(w, file, ts, steps, seen, depth), FreeAll(w, file, ts, steps, depth), seen)
    decreases depth, 1 + |ts|
  {
    assert seen + Entered([]) == seen;
    var free := FreeAll(w, file, ts, steps, depth);
    if ts != [] && free.Walked? && Unseen(free.keys, seen) {
      var first, rest := FreeType(w, file, ts[0], steps, depth), FreeAll(w, file, ts[1..], steps, depth);
      UnseenParts(first.keys, rest.keys, seen);
      TypeFollows(w, file, ts[0], steps, seen, depth);
      AllFollow(w, file, ts[1..], steps, seen + Entered(first.keys), depth);
    }
  }

  lemma {:induction false} DeclFollows(w: World, id: DeclId, steps: seq<Step>, seen: Seen, depth: nat)
    requires id in w.decls
    ensures Followed(LookupDecl(w, id, steps, seen, depth), FreeDecl(w, id, steps, depth), seen)
    decreases depth, 0
  {
    assert seen + Entered([]) == seen;
    var free := FreeDecl(w, id, steps, depth);
    if steps != [] && free.Walked? && Unseen(free.keys, seen) {
      var key := (id, |steps|);
      var body := FreeBody(w, id, steps, depth - 1);
      UnseenParts([key], body.keys, seen);
      assert Entered([key]) == {key} && key in free.keys;
      BodyFollows(w, id, steps, seen + {key}, depth - 1);
    }
  }

  /** The part of a guarded lookup behind its own key. */
  function LookupBody(w: World, id: DeclId, steps: seq<Step>, seen: Seen, depth: nat): Outcome<Answer>
    requires id in w.decls && steps != []
  {
    match w.decls[id]
    case Alias(ty) => LookupType(w, id.file, ty, steps, seen, depth)
    case Interface(members, bases) =>
      if steps[0].Element? then Returned(Unknown, seen)
      else
        match FindProperty(members, steps[0].name)
        case Some(ty) => LookupMember(w, id.file, ty, steps, seen, depth)
        case None => Finish(LookupBases(w, id.file, bases, steps, seen, depth), Combine)
  }

  lemma {:induction false} BodyFollows(w: World, id: DeclId, steps: seq<Step>, seen: Seen, depth: nat)
    requires id in w.decls && steps != []
    ensures Followed(LookupBody(w, id, steps, seen, depth), FreeBody(w, id, steps, depth), seen)
    decreases depth, 10
  {
    assert seen + Entered([]) == seen;
    match w.decls[id]
    case Alias(ty) => TypeFollows(w, id.file, ty, steps, seen, depth);
    case Interface(members, bases) =>
      if steps[0].Member? {
        match FindProperty(members, steps[0].name) {
          case Some(ty) => MemberFollows(w, id.file, ty, steps, seen, depth);
          case None => BasesFollow(w, id.file, bases, steps, seen, depth);
        }
      }
  }

  lemma {:induction false} BasesFollow(
    w: World, file: string, bases: seq<Base>, steps: seq<Step>, seen: Seen, depth: nat)
    ensures Followed(LookupBases(w, file, bases, steps, seen, depth), FreeBases(w, file, bases, steps, depth), seen)
    decreases depth, 1, |bases|
  {
    assert seen + Entered([]) == seen;
    var free := FreeBases(w, file, bases, steps, depth);
    if bases != [] && free.Walked? && Unseen(free.keys, seen) {
      var first, rest := FreeBase(w, file, bases[0], steps, depth), FreeBases(w, file, bases[1..], steps, depth);
      UnseenParts(first.keys, rest.keys, seen);
      if bases[0].Named? && Resolve(w, file, bases[0].name).Some? {
        DeclFollows(w, Resolve(w, file, bases[0].name).value, steps, seen, depth);
      }
      BasesFollow(w, file, bases[1..], steps, seen + Entered(first.keys), depth);
    }
  }

  // ---------------------------------------------------------------- without a guard every answer that exists is found

  /** An answer that is unknown only if neither presence nor absence can be derived. */
  ghost predicate Decides(a: Answer, present: bool, absent: bool) {
    (present ==> a == Found) && (absent ==> a == Missing)
  }

  lemma {:induction false} TypeDecides(w: World, file: string, t: Type, steps: seq<Step>, depth: nat, n: nat)
    ensures
      var r := FreeType(w, file, t, steps, depth);
      r.Walked? ==> Decides(r.answer, PresentType(w, file, t, steps, n), AbsentType(w, file, t, steps, n))
    decreases depth, 0
  {
    hide FreeAll, FreeDecl, FindProperty, PresentDecl, AbsentDecl, Combine, Agreed, Resolve;
    if depth > 0 && steps != [] && n > 0 {
      match t
      case Literal(members) =>
        if steps[0].Member? && FindProperty(members, steps[0].name).Some? {
          MemberDecides(w, file, FindProperty(members, steps[0].name).value, steps, depth - 1, n - 1);
        }
      case Parenthesized(inner) => TypeDecides(w, file, inner, steps, depth - 1, n - 1);
      case Intersection(parts) =>
        AllDecide(w, file, parts, steps, depth - 1, n - 1);
        JoinDecides(FreeAll(w, file, parts, steps, depth - 1), parts,
          p => PresentType(w, file, p, steps, n - 1), p => AbsentType(w, file, p, steps, n - 1));
      case Union(parts) =>
        AllDecide(w, file, parts, steps, depth - 1, n - 1);
        JoinDecides(FreeAll(w, file, parts, steps, depth - 1), parts,
          p => PresentType(w, file, p, steps, n - 1), p => AbsentType(w, file, p, steps, n - 1));
      case ArrayOf(element) => TypeDecides(w, file, element, steps[1..], depth - 1, n - 1);
      case Operator(inner) => TypeDecides(w, file, inner, steps, depth - 1, n - 1);
      case Indexed(owner, key) =>
        if key.Some? { TypeDecides(w, file, owner, [Member(key.value)] + steps, depth - 1, n - 1); }
      case Reference(head, qualified, args) =>
        if args != [] {
          TypeDecides(w, file, args[0], steps, depth - 1, n - 1);
          TypeDecides(w, file, args[0], steps[1..], depth - 1, n - 1);
        }
        if Resolve(w, file, head).Some? {
          DeclDecides(w, Resolve(w, file, head).value, steps, depth - 1, n - 1);
        }
      case Other =>
    }
  }

  /** Joining decided answers decides the whole. */
  lemma JoinDecides<T>(r: Free<seq<Answer>>, parts: seq<T>, present: T -> bool, absent: T -> bool)
    requires r.Walked? ==>
      |r.answer| == |parts|
      && forall i :: 0 <= i < |parts| ==> Decides(r.answer[i], present(parts[i]), absent(parts[i]))
    ensures r.Walked? ==>
      Decides(Combine(r.answer), exists p :: p in parts && present(p), forall p :: p in parts ==> absent(p))
    ensures r.Walked? ==>
      Decides(
        Agreed(r.answer), forall p :: p in parts ==> present(p), parts != [] && forall p :: p in parts ==> absent(p))
  {
    if r.Walked? {
      if p :| p in parts && present(p) {
        var i :| 0 <= i < |parts| && parts[i] == p;
        assert r.answer[i] in r.answer;
      }
      if forall p :: p in parts ==> absent(p) {
        forall a | a in r.answer ensures a == Missing {
          var i :| 0 <= i < |r.answer| && r.answer[i] == a;
          assert parts[i] in parts;
        }
        if parts != [] {
          assert r.answer[0] in r.answer;
        }
      }
      if forall p :: p in parts ==> present(p) {
        forall a | a in r.answer ensures a == Found {
          var i :| 0 <= i < |r.answer| && r.answer[i] == a;
          assert parts[i] in parts;
        }
      }
    }
  }

  lemma {:induction false} MemberDecides(w: World, file: string, ty: Option<Type>, steps: seq<Step>, depth: nat, n: nat)
    requires steps != []
    ensures
      var r := FreeMember(w, file, ty, steps, depth);
      r.Walked? ==> Decides(r.answer,
        |steps| == 1 || (ty.Some? && PresentType(w, file, ty.value, steps[1..], n)),
        |steps| > 1 && ty.Some? && AbsentType(w, file, ty.value, steps[1..], n))
    decreases depth, 1
  {
    if |steps| > 1 && ty.Some? {
      TypeDecides(w, file, ty.value, steps[1..], depth, n);
    }
  }

  lemma {:induction false} AllDecide(w: World, file: string, ts: seq<Type>, steps: seq<Step>, depth: nat, n: nat)
    ensures
      var r := FreeAll(w, file, ts, steps, depth);
      r.Walked? ==>
        && |r.answer| == |ts|
        && forall i :: 0 <= i < |ts| ==>
             Decides(r.answer[i], PresentType(w, file, ts[i], steps, n), AbsentType(w, file, ts[i], steps, n))
    decreases depth, 1 + |ts|
  {
    if ts != [] {
      TypeDecides(w, file, ts[0], steps, depth, n);
      AllDecide(w, file, ts[1..], steps, depth, n);
    }
  }

  lemma {:induction false} DeclDecides(w: World, id: DeclId, steps: seq<Step>, depth: nat, n: nat)
    requires id in w.decls
    ensures
      var r := FreeDecl(w, id, steps, depth);
      r.Walked? ==> Decides(r.answer, PresentDecl(w, id, steps, n), AbsentDecl(w, id, steps, n))
    decreases depth, 0
  {
    if depth > 0 && steps != [] && n > 0 {
      match w.decls[id]
      case Alias(ty) => TypeDecides(w, id.file, ty, steps, depth - 1, n - 1);
      case Interface(members, bases) =>
        if steps[0].Member? {
          match FindProperty(members, steps[0].name) {
            case Some(ty) => MemberDecides(w, id.file, ty, steps, depth - 1, n - 1);
            case None =>
              BasesDecide(w, id.file, bases, steps, depth - 1, n - 1);
              JoinDecides(FreeBases(w, id.file, bases, steps, depth - 1), bases,
                b => PresentBase(w, id.file, b, steps, n - 1), b => AbsentBase(w, id.file, b, steps, n - 1));
          }
        }
    }
  }

  lemma {:induction false} BasesDecide(w: World, file: string, bases: seq<Base>, steps: seq<Step>, depth: nat, n: nat)
    ensures
      var r := FreeBases(w, file, bases, steps, depth);
      r.Walked? ==>
        && |r.answer| == |bases|
        && forall i :: 0 <= i < |bases| ==>
             Decides(r.answer[i], PresentBase(w, file, bases[i], steps, n), AbsentBase(w, file, bases[i], steps, n))
    decreases depth, 1, |bases|
  {
    if bases != [] {
      if bases[0].Named? && Resolve(w, file, bases[0].name).Some? {
        DeclDecides(w, Resolve(w, file, bases[0].name).value, steps, depth, n);
      }
      BasesDecide(w, file, bases[1..], steps, depth, n);
    }
  }

  /** An answer that is definite whenever the declarations decide the question. */
  ghost predicate Definite(w: World, id: DeclId, steps: seq<Step>, r: Outcome<Answer>)
    requires id in w.decls
  {
    && r.Returned?
    && (r.answer == Found <==> Present(w, id, steps))
    && (r.answer == Missing <==> Absent(w, id, steps))
  }

  /**
   * If the walk without a guard returns and enters no key twice, the guard costs nothing: the lookup finds
   * whatever is certainly present, misses whatever is certainly absent, and is unknown about the rest only.
   */
  lemma GuardCostsNothing(w: World, id: DeclId, steps: seq<Step>, depth: nat)
    requires id in w.decls && FreeDecl(w, id, steps, depth).Walked? && Distinct(FreeDecl(w, id, steps, depth).keys)
    ensures Definite(w, id, steps, LookupDecl(w, id, steps, {}, depth))
  {
    DeclFollows(w, id, steps, {}, depth);
    LookupSound(w, id, steps, {}, depth);
    forall n: nat
      ensures Decides(FreeDecl(w, id, steps, depth).answer, PresentDecl(w, id, steps, n), AbsentDecl(w, id, steps, n))
    {
      DeclDecides(w, id, steps, depth, n);
    }
  }

  // ---------------------------------------------------------------- a condition to be read off the declarations

  function Both(a: Option<seq<Key>>, b: Option<seq<Key>>): Option<seq<Key>> {
    if a.Some? && b.Some? then Some(a.value + b.value) else None
  }

  /**
   * The declarations a type names along a path, each with the number of steps left there; none if the path
   * leads into an indexed access by a literal key.
   */
  function Names(w: World, file: string, t: Type, steps: seq<Step>): Option<seq<Key>>
    decreases Height(t), 0
  {
    if steps == [] then Some([])
    else
      match t
      case Literal(members) =>
        if steps[0].Element? then Some([])
        else
          MemberHeight(members, steps[0].name);
          (match FindProperty(members, steps[0].name)
           case None => Some([])
           case Some(ty) => if |steps| == 1 || ty.None? then Some([]) else Names(w, file, ty.value, steps[1..]))
      case Parenthesized(inner) => Names(w, file, inner, steps)
      case Intersection(parts) => NamesAll(w, file, parts, steps)
      case Union(parts) => NamesAll(w, file, parts, steps)
      case ArrayOf(element) => if steps[0].Element? then Names(w, file, element, steps[1..]) else Some([])
      case Operator(inner) => Names(w, file, inner, steps)
      case Indexed(_, key) => if key.Some? then None else Some([])
      case Reference(head, qualified, args) =>
        if head in PASSTHROUGH && args != [] then
          PartHeight(args, args[0]);
          Names(w, file, args[0], steps)
        else if head in ARRAYS && args != [] then
          PartHeight(args, args[0]);
          if steps[0].Element? then Names(w, file, args[0], steps[1..]) else Some([])
        else if !qualified && Resolve(w, file, head).Some? then Some([(Resolve(w, file, head).value, |steps|)])
        else Some([])
      case Other => Some([])
  }

  function NamesAll(w: World, file: string, ts: seq<Type>, steps: seq<Step>): Option<seq<Key>>
    decreases PartsHeight(ts), 1 + |ts|
  {
    if ts == [] then Some([]) else Both(Names(w, file, ts[0], steps), NamesAll(w, file, ts[1..], steps))
  }

  function NamesBases(w: World, file: string, bases: seq<Base>, steps: seq<Step>): seq<Key> {
    if bases == [] then []
    else
      (if bases[0].Named? && Resolve(w, file, bases[0].name).Some?
       then [(Resolve(w, file, bases[0].name).value, |steps|)] else [])
      + NamesBases(w, file, bases[1..], steps)
  }

  function NamesDecl(w: World, id: DeclId, steps: seq<Step>): Option<seq<Key>>
    requires id in w.decls
  {
    if steps == [] then Some([])
    else
      match w.decls[id]
      case Alias(ty) => Names(w, id.file, ty, steps)
      case Interface(members, bases) =>
        if steps[0].Element? then Some([])
        else
          match FindProperty(members, steps[0].name)
          case Some(ty) => if |steps| == 1 || ty.None? then Some([]) else Names(w, id.file, ty.value, steps[1..])
          case None => Some(NamesBases(w, id.file, bases, steps))
  }

  /** The last `k` steps of the path. */
  function Left(path: seq<Step>, k: nat): seq<Step>
    requires k <= |path|
  {
    path[|path| - k..]
  }

  predicate OnPath(w: World, path: seq<Step>, key: Key) {
    key.0 in w.decls && key.1 <= |path|
  }

  /** What a declaration names where `key.1` steps of the path are left. */
  function NamesAt(w: World, path: seq<Step>, key: Key): seq<Key> {
    if OnPath(w, path, key) then
      var names := NamesDecl(w, key.0, Left(path, key.1));
      if names.Some? then names.value else []
    else []
  }

  /**
   * Along the path every declaration is named at most once where the same steps are left, naming never goes
   * round without using up a step, and nothing is indexed by a literal key. The keys are those that can be
   * come to by following names; a recursive type may be among them any number of times, at different steps.
   */
  ghost predicate NamedOnce(w: World, path: seq<Step>, keys: set<Key>, rank: map<Key, nat>) {
    && (forall k :: k in keys ==> OnPath(w, path, k) && NamesDecl(w, k.0, Left(path, k.1)).Some?)
    && (forall k, x :: k in keys && x in NamesAt(w, path, k) ==> x in keys)
    && (forall k, l, i, j ::
          && k in keys && l in keys
          && 0 <= i < |NamesAt(w, path, k)| && 0 <= j < |NamesAt(w, path, l)|
          && NamesAt(w, path, k)[i] == NamesAt(w, path, l)[j]
          ==> k == l && i == j)
    && (forall k :: k in keys ==> k in rank)
    && (forall k, x :: k in keys && x in NamesAt(w, path, k) ==> x in rank && rank[x] < rank[k])
  }

  // ---------------------------------------------------------------- then no key is entered twice

  /** A chain of keys, each named by the one before. */
  ghost predicate Chain(w: World, path: seq<Step>, chain: seq<Key>) {
    chain != [] && forall i :: 0 < i < |chain| ==> chain[i] in NamesAt(w, path, chain[i - 1])
  }

  ghost predicate Below(w: World, path: seq<Step>, from: Key, to: Key) {
    exists chain :: Chain(w, path, chain) && chain[0] == from && chain[|chain| - 1] == to
  }

  lemma {:induction false} ChainFalls(
    w: World, path: seq<Step>, keys: set<Key>, rank: map<Key, nat>, chain: seq<Key>)
    requires NamedOnce(w, path, keys, rank) && Chain(w, path, chain) && chain[0] in keys
    ensures forall i :: 0 <= i < |chain| ==> chain[i] in keys
    ensures rank[chain[|chain| - 1]] <= rank[chain[0]]
  {
    hide NamesAt;
    var n := |chain| - 1;
    if n > 0 {
      assert chain[..n][0] == chain[0] && Chain(w, path, chain[..n]);
      ChainFalls(w, path, keys, rank, chain[..n]);
      assert chain[n - 1] == chain[..n][n - 1] && chain[n] in NamesAt(w, path, chain[n - 1]);
    }
  }

  lemma BelowFalls(w: World, path: seq<Step>, keys: set<Key>, rank: map<Key, nat>, from: Key, to: Key)
    requires NamedOnce(w, path, keys, rank) && Below(w, path, from, to) && from in keys
    ensures to in keys && rank[to] <= rank[from]
  {
    var chain :| Chain(w, path, chain) && chain[0] == from && chain[|chain| - 1] == to;
    ChainFalls(w, path, keys, rank, chain);
  }

  lemma OnlyNamer(w: World, path: seq<Step>, keys: set<Key>, rank: map<Key, nat>, k: Key, l: Key, x: Key)
    requires NamedOnce(w, path, keys, rank) && k in keys && l in keys
    requires x in NamesAt(w, path, k) && x in NamesAt(w, path, l)
    ensures k == l
  {
    var i :| 0 <= i < |NamesAt(w, path, k)| && NamesAt(w, path, k)[i] == x;
    var j :| 0 <= j < |NamesAt(w, path, l)| && NamesAt(w, path, l)[j] == x;
  }

  /** Two chains to one key, from different names of one declaration, cannot be. */
  lemma {:induction false} ChainsApart(
    w: World, path: seq<Step>, keys: set<Key>, rank: map<Key, nat>, owner: Key, a: seq<Key>, b: seq<Key>)
    requires NamedOnce(w, path, keys, rank) && owner in keys
    requires Chain(w, path, a) && a[0] in NamesAt(w, path, owner)
    requires Chain(w, path, b) && b[0] in NamesAt(w, path, owner)
    requires a[|a| - 1] == b[|b| - 1]
    ensures a[0] == b[0]
    decreases |a| + |b|
  {
    hide NamesAt;
    var m, n := |a| - 1, |b| - 1;
    ChainFalls(w, path, keys, rank, a);
    ChainFalls(w, path, keys, rank, b);
    if m > 0 && n > 0 {
      assert a[m] in NamesAt(w, path, a[m - 1]) && b[n] in NamesAt(w, path, b[n - 1]);
      OnlyNamer(w, path, keys, rank, a[m - 1], b[n - 1], a[m]);
      FrontChain(w, path, a);
      FrontChain(w, path, b);
      ChainsApart(w, path, keys, rank, owner, a[..m], b[..n]);
    } else if n > 0 {
      NotUnderOwnName(w, path, keys, rank, owner, b);
    } else if m > 0 {
      NotUnderOwnName(w, path, keys, rank, owner, a);
    }
  }

  lemma FrontChain(w: World, path: seq<Step>, chain: seq<Key>)
    requires Chain(w, path, chain) && |chain| > 1
    ensures Chain(w, path, chain[..|chain| - 1])
    ensures chain[..|chain| - 1][0] == chain[0] && chain[..|chain| - 1][|chain| - 2] == chain[|chain| - 2]
  {
    hide NamesAt;
  }

  /** A chain that begins at a name of a declaration never comes to a name of it again. */
  lemma NotUnderOwnName(
    w: World, path: seq<Step>, keys: set<Key>, rank: map<Key, nat>, owner: Key, chain: seq<Key>)
    requires NamedOnce(w, path, keys, rank) && owner in keys && |chain| > 1
    requires Chain(w, path, chain) && chain[0] in NamesAt(w, path, owner)
    ensures chain[|chain| - 1] !in NamesAt(w, path, owner)
  {
    hide NamesAt;
    var n := |chain| - 1;
    ChainFalls(w, path, keys, rank, chain);
    FrontChain(w, path, chain);
    ChainFalls(w, path, keys, rank, chain[..n]);
    assert chain[n] in NamesAt(w, path, chain[n - 1]);
    if chain[n] in NamesAt(w, path, owner) {
      OnlyNamer(w, path, keys, rank, owner, chain[n - 1], chain[n]);
    }
  }

  lemma BelowApart(
    w: World, path: seq<Step>, keys: set<Key>, rank: map<Key, nat>, owner: Key, x: Key, y: Key, z: Key)
    requires NamedOnce(w, path, keys, rank) && owner in keys
    requires x in NamesAt(w, path, owner) && y in NamesAt(w, path, owner)
    requires Below(w, path, x, z) && Below(w, path, y, z)
    ensures x == y
  {
    hide NamesAt;
    var a :| Chain(w, path, a) && a[0] == x && a[|a| - 1] == z;
    var b :| Chain(w, path, b) && b[0] == y && b[|b| - 1] == z;
    ChainsApart(w, path, keys, rank, owner, a, b);
  }

  /** A free walk that returns, enters no key twice, and only keys at or below the given names. */
  ghost predicate Tidy<T>(w: World, path: seq<Step>, r: Free<T>, names: seq<Key>) {
    r.Walked? && Distinct(r.keys) && forall y :: y in r.keys ==> Covered(w, path, names, y)
  }

  ghost predicate Covered(w: World, path: seq<Step>, names: seq<Key>, y: Key) {
    exists x :: x in names && Below(w, path, x, y)
  }

  /** Names that one key of the condition gives, all of a rank below `mu`. */
  ghost predicate NamesOf(
    w: World, path: seq<Step>, keys: set<Key>, rank: map<Key, nat>, owner: Key, names: seq<Key>, mu: nat)
  {
    && owner in keys
    && Distinct(names)
    && forall x :: x in names ==> x in NamesAt(w, path, owner) && x in rank && rank[x] < mu
  }

  ghost predicate Low(w: World, keys: set<Key>, h: nat) {
    forall k :: k in keys && k.0 in w.decls ==> DeclHeight(w.decls[k.0]) <= h
  }

  lemma TidyJoin(
    w: World, path: seq<Step>, keys: set<Key>, rank: map<Key, nat>, owner: Key, mu: nat,
    a: Free<Answer>, ns: seq<Key>, b: Free<seq<Answer>>, ms: seq<Key>)
    requires NamedOnce(w, path, keys, rank) && NamesOf(w, path, keys, rank, owner, ns + ms, mu)
    requires Tidy(w, path, a, ns) && Tidy(w, path, b, ms)
    ensures Distinct(a.keys + b.keys) && forall y :: y in a.keys + b.keys ==> Covered(w, path, ns + ms, y)
  {
    forall y | y in a.keys + b.keys ensures Covered(w, path, ns + ms, y) {
      if y in a.keys {
        var x :| x in ns && Below(w, path, x, y);
        assert x in ns + ms;
      } else {
        var x :| x in ms && Below(w, path, x, y);
        assert x in ns + ms;
      }
    }
    forall y | y in a.keys && y in b.keys ensures false {
      var x :| x in ns && Below(w, path, x, y);
      var z :| z in ms && Below(w, path, z, y);
      assert x in ns + ms && z in ns + ms;
      hide *;
      BelowApartIn(w, path, keys, rank, owner, mu, ns + ms, x, z, y);
      SplitDistinct(ns, ms, x);
    }
    hide Tidy, NamedOnce, NamesOf, Covered;
    JoinDistinct(a.keys, b.keys);
  }

  lemma BelowApartIn(
    w: World, path: seq<Step>, keys: set<Key>, rank: map<Key, nat>, owner: Key, mu: nat, names: seq<Key>,
    x: Key, z: Key, y: Key)
    requires NamedOnce(w, path, keys, rank) && NamesOf(w, path, keys, rank, owner, names, mu)
    requires x in names && z in names && Below(w, path, x, y) && Below(w, path, z, y)
    ensures x == z
  {
    BelowApart(w, path, keys, rank, owner, x, z, y);
  }

  lemma SplitDistinct(a: seq<Key>, b: seq<Key>, x: Key)
    requires Distinct(a + b) && x in a
    ensures x !in b
  {
    var i :| 0 <= i < |a| && a[i] == x;
    forall j | 0 <= j < |b| ensures b[j] != x {
      assert (a + b)[i] == x && (a + b)[|a| + j] == b[j];
    }
  }

  lemma JoinDistinct(a: seq<Key>, b: seq<Key>)
    requires Distinct(a) && Distinct(b) && forall x :: !(x in a && x in b)
    ensures Distinct(a + b)
  {
    var all := a + b;
    forall i, j | 0 <= i < j < |all| ensures all[i] != all[j] {
      if i < |a| <= j {
        assert all[i] in a && all[j] == b[j - |a|] && all[j] in b;
      } else if |a| <= i {
        assert all[i] == b[i - |a|] && all[j] == b[j - |a|];
      }
    }
  }

  lemma NamesOfParts(
    w: World, path: seq<Step>, keys: set<Key>, rank: map<Key, nat>, owner: Key, ns: seq<Key>, ms: seq<Key>, mu: nat)
    requires NamesOf(w, path, keys, rank, owner, ns + ms, mu)
    ensures NamesOf(w, path, keys, rank, owner, ns, mu) && NamesOf(w, path, keys, rank, owner, ms, mu)
  {
    var all := ns + ms;
    forall i, j | 0 <= i < j < |ns| ensures ns[i] != ns[j] {
      assert all[i] == ns[i] && all[j] == ns[j];
    }
    forall i, j | 0 <= i < j < |ms| ensures ms[i] != ms[j] {
      assert all[|ns| + i] == ms[i] && all[|ns| + j] == ms[j];
    }
    assert forall x :: x in ns || x in ms ==> x in all;
  }

  /** The stack that a walk below rank `mu` may need. */
  function Room(mu: nat, h: nat): nat {
    mu * (h + 2)
  }

  lemma RoomGrows(mu: nat, less: nat, h: nat)
    requires less < mu
    ensures Room(less, h) + h + 2 <= Room(mu, h)
  {
    assert (mu - less - 1) * (h + 2) >= 0;
    assert mu * (h + 2) == less * (h + 2) + (h + 2) + (mu - less - 1) * (h + 2);
  }

  lemma {:induction false} TypeTree(
    w: World, path: seq<Step>, keys: set<Key>, rank: map<Key, nat>, h: nat, owner: Key, mu: nat,
    file: string, t: Type, steps: seq<Step>, ns: seq<Key>, depth: nat)
    requires NamedOnce(w, path, keys, rank) && Low(w, keys, h) && NamesOf(w, path, keys, rank, owner, ns, mu)
    requires |steps| <= |path| && steps == Left(path, |steps|) && Names(w, file, t, steps) == Some(ns)
    requires depth >= Height(t) + Room(mu, h)
    ensures Tidy(w, path, FreeType(w, file, t, steps, depth), ns)
    decreases depth, 0
  {
    hide NamedOnce, Low, NamesOf, Room, Covered, FreeAll, FreeMember, FreeDecl, NamesAll, FindProperty;
    if steps != [] {
      assert steps[1..] == Left(path, |steps| - 1);
      match t {
      case Literal(members) =>
        if steps[0].Member? && FindProperty(members, steps[0].name).Some? {
          var ty := FindProperty(members, steps[0].name).value;
          MemberHeight(members, steps[0].name);
          MemberTree(w, path, keys, rank, h, owner, mu, file, ty, steps, ns, depth - 1);
        }
      case Parenthesized(inner) => TypeTree(w, path, keys, rank, h, owner, mu, file, inner, steps, ns, depth - 1);
      case Intersection(parts) => AllTree(w, path, keys, rank, h, owner, mu, file, parts, steps, ns, depth - 1);
      case Union(parts) => AllTree(w, path, keys, rank, h, owner, mu, file, parts, steps, ns, depth - 1);
      case ArrayOf(element) =>
        if steps[0].Element? {
          TypeTree(w, path, keys, rank, h, owner, mu, file, element, steps[1..], ns, depth - 1);
        }
      case Operator(inner) => TypeTree(w, path, keys, rank, h, owner, mu, file, inner, steps, ns, depth - 1);
      case Indexed(_, key) =>
      case Reference(head, qualified, args) =>
        if args != [] {
          PartHeight(args, args[0]);
        }
        if head in PASSTHROUGH && args != [] {
          TypeTree(w, path, keys, rank, h, owner, mu, file, args[0], steps, ns, depth - 1);
        } else if head in ARRAYS && args != [] {
          if steps[0].Element? {
            TypeTree(w, path, keys, rank, h, owner, mu, file, args[0], steps[1..], ns, depth - 1);
          }
        } else if !qualified && Resolve(w, file, head).Some? {
          NameTree(w, path, keys, rank, h, owner, mu, (Resolve(w, file, head).value, |steps|), depth - 1);
        }
      case Other =>
      }
    }
  }

  /** A name of the condition leads to a tidy walk. */
  lemma {:induction false} NameTree(
    w: World, path: seq<Step>, keys: set<Key>, rank: map<Key, nat>, h: nat, owner: Key, mu: nat, key: Key, depth: nat)
    requires NamedOnce(w, path, keys, rank) && Low(w, keys, h) && NamesOf(w, path, keys, rank, owner, [key], mu)
    requires depth >= Room(mu, h)
    ensures OnPath(w, path, key) && Tidy(w, path, FreeDecl(w, key.0, Left(path, key.1), depth), [key])
    decreases depth, 20
  {
    assert key in [key];
    assert key in keys && rank[key] < mu && OnPath(w, path, key);
    hide NamedOnce, Low, NamesOf, NamesAt;
    RoomGrows(mu, rank[key], h);
    DeclTree(w, path, keys, rank, h, key, depth);
  }

  lemma {:induction false} MemberTree(
    w: World, path: seq<Step>, keys: set<Key>, rank: map<Key, nat>, h: nat, owner: Key, mu: nat,
    file: string, ty: Option<Type>, steps: seq<Step>, ns: seq<Key>, depth: nat)
    requires NamedOnce(w, path, keys, rank) && Low(w, keys, h) && NamesOf(w, path, keys, rank, owner, ns, mu)
    requires 0 < |steps| <= |path| && steps == Left(path, |steps|)
    requires if |steps| == 1 || ty.None? then ns == [] else Names(w, file, ty.value, steps[1..]) == Some(ns)
    requires ty.Some? ==> depth >= Height(ty.value) + Room(mu, h)
    ensures Tidy(w, path, FreeMember(w, file, ty, steps, depth), ns)
    decreases depth, 1
  {
    hide NamedOnce, Low, NamesOf, Room, Covered;
    if |steps| > 1 && ty.Some? {
      assert steps[1..] == Left(path, |steps| - 1);
      TypeTree(w, path, keys, rank, h, owner, mu, file, ty.value, steps[1..], ns, depth);
    }
  }

  lemma {:induction false} AllTree(
    w: World, path: seq<Step>, keys: set<Key>, rank: map<Key, nat>, h: nat, owner: Key, mu: nat,
    file: string, ts: seq<Type>, steps: seq<Step>, ns: seq<Key>, depth: nat)
    requires NamedOnce(w, path, keys, rank) && Low(w, keys, h) && NamesOf(w, path, keys, rank, owner, ns, mu)
    requires |steps| <= |path| && steps == Left(path, |steps|) && NamesAll(w, file, ts, steps) == Some(ns)
    requires depth >= PartsHeight(ts) + Room(mu, h)
    ensures Tidy(w, path, FreeAll(w, file, ts, steps, depth), ns)
    decreases depth, 1 + |ts|
  {
    hide NamedOnce, Low, NamesOf, Room, Covered, Names, FreeType;
    if ts != [] {
      var first, rest := Names(w, file, ts[0], steps).value, NamesAll(w, file, ts[1..], steps).value;
      NamesOfParts(w, path, keys, rank, owner, first, rest, mu);
      TypeTree(w, path, keys, rank, h, owner, mu, file, ts[0], steps, first, depth);
      AllTree(w, path, keys, rank, h, owner, mu, file, ts[1..], steps, rest, depth);
      TidyJoin(w, path, keys, rank, owner, mu, FreeType(w, file, ts[0], steps, depth), first,
        FreeAll(w, file, ts[1..], steps, depth), rest);
    }
  }

  lemma {:induction false} DeclTree(
    w: World, path: seq<Step>, keys: set<Key>, rank: map<Key, nat>, h: nat, key: Key, depth: nat)
    requires NamedOnce(w, path, keys, rank) && Low(w, keys, h) && key in keys
    requires depth >= Room(rank[key], h) + h + 2
    ensures Tidy(w, path, FreeDecl(w, key.0, Left(path, key.1), depth), [key])
    decreases depth, 0
  {
    var steps, names := Left(path, key.1), NamesAt(w, path, key);
    assert OnPath(w, path, key) && |steps| == key.1 && NamesDecl(w, key.0, steps) == Some(names);
    assert key in rank && DeclHeight(w.decls[key.0]) <= h;
    hide NamedOnce, Low, NamesOf, NamesAt, NamesDecl, Room, Left, FreeBody, Tidy, DeclHeight;
    if steps == [] {
      assert FreeDecl(w, key.0, steps, depth) == Walked(Found, []);
      NothingTidy(w, path, Found, [key]);
    } else {
      OwnNames(w, path, keys, rank, key);
      BodyTree(w, path, keys, rank, h, key, steps, names, depth - 1);
      KeyAndBody(w, path, keys, rank, key, names, FreeBody(w, key.0, steps, depth - 1));
    }
  }

  lemma NothingTidy(w: World, path: seq<Step>, answer: Answer, names: seq<Key>)
    ensures Tidy(w, path, Walked(answer, []), names)
  {
  }

  lemma KeyAndBody(
    w: World, path: seq<Step>, keys: set<Key>, rank: map<Key, nat>, key: Key, names: seq<Key>, body: Free<Answer>)
    requires NamedOnce(w, path, keys, rank) && key in keys && names == NamesAt(w, path, key)
    requires Tidy(w, path, body, names)
    ensures Tidy(w, path, Walked(body.answer, [key] + body.keys), [key])
  {
    hide NamedOnce, NamesAt, Covered, Below;
    SelfBelow(w, path, key);
    forall y | y in body.keys ensures Below(w, path, key, y) && y != key {
      UnderKey(w, path, keys, rank, key, names, y);
    }
    assert key in [key];
    JoinDistinct([key], body.keys);
    forall y | y in [key] + body.keys ensures Covered(w, path, [key], y) {
      CoveredBy(w, path, key, y);
    }
  }

  lemma CoveredBy(w: World, path: seq<Step>, key: Key, y: Key)
    requires Below(w, path, key, y)
    ensures Covered(w, path, [key], y)
  {
    hide Below;
    assert key in [key];
  }

  lemma SelfBelow(w: World, path: seq<Step>, key: Key)
    ensures Below(w, path, key, key)
  {
    assert Chain(w, path, [key]) && [key][0] == key;
  }

  lemma OwnNames(w: World, path: seq<Step>, keys: set<Key>, rank: map<Key, nat>, key: Key)
    requires NamedOnce(w, path, keys, rank) && key in keys
    ensures NamesOf(w, path, keys, rank, key, NamesAt(w, path, key), rank[key])
  {
    hide NamesAt;
  }

  lemma UnderKey(w: World, path: seq<Step>, keys: set<Key>, rank: map<Key, nat>, key: Key, names: seq<Key>, y: Key)
    requires NamedOnce(w, path, keys, rank) && key in keys && names == NamesAt(w, path, key)
    requires Covered(w, path, names, y)
    ensures Below(w, path, key, y) && y != key
  {
    hide NamesAt, Below;
    var x :| x in names && Below(w, path, x, y);
    assert x in keys && rank[x] < rank[key];
    BelowFalls(w, path, keys, rank, x, y);
    hide NamedOnce;
    OneAbove(w, path, key, x, y);
  }

  lemma OneAbove(w: World, path: seq<Step>, key: Key, x: Key, y: Key)
    requires x in NamesAt(w, path, key) && Below(w, path, x, y)
    ensures Below(w, path, key, y)
  {
    hide NamesAt;
    var chain :| Chain(w, path, chain) && chain[0] == x && chain[|chain| - 1] == y;
    var longer := [key] + chain;
    forall i | 0 < i < |longer| ensures longer[i] in NamesAt(w, path, longer[i - 1]) {
      if i > 1 {
        assert longer[i] == chain[i - 1] && longer[i - 1] == chain[i - 2];
        assert chain[i - 1] in NamesAt(w, path, chain[i - 1 - 1]);
      }
    }
    assert longer[0] == key && longer[|longer| - 1] == y;
  }

  lemma {:induction false} BodyTree(
    w: World, path: seq<Step>, keys: set<Key>, rank: map<Key, nat>, h: nat, key: Key, steps: seq<Step>,
    names: seq<Key>, depth: nat)
    requires NamedOnce(w, path, keys, rank) && Low(w, keys, h)
    requires key.0 in w.decls && key in rank && NamesOf(w, path, keys, rank, key, names, rank[key])
    requires 0 < |steps| <= |path| && steps == Left(path, |steps|) && NamesDecl(w, key.0, steps) == Some(names)
    requires DeclHeight(w.decls[key.0]) <= h && depth >= Room(rank[key], h) + h + 1
    ensures Tidy(w, path, FreeBody(w, key.0, steps, depth), names)
    decreases depth, 40
  {
    hide NamedOnce, Low, NamesOf, Room, Covered, Names, FreeType, FreeBases, FreeMember, FindProperty;
    var mu := rank[key];
    match w.decls[key.0]
    case Alias(ty) => TypeTree(w, path, keys, rank, h, key, mu, key.0.file, ty, steps, names, depth);
    case Interface(members, bases) =>
      if steps[0].Member? {
        match FindProperty(members, steps[0].name) {
          case Some(ty) =>
            MemberHeight(members, steps[0].name);
            MemberTree(w, path, keys, rank, h, key, mu, key.0.file, ty, steps, names, depth);
          case None => BasesTree(w, path, keys, rank, h, key, mu, key.0.file, bases, steps, names, depth);
        }
      }
  }

  lemma {:induction false} BasesTree(
    w: World, path: seq<Step>, keys: set<Key>, rank: map<Key, nat>, h: nat, owner: Key, mu: nat,
    file: string, bases: seq<Base>, steps: seq<Step>, ns: seq<Key>, depth: nat)
    requires NamedOnce(w, path, keys, rank) && Low(w, keys, h) && NamesOf(w, path, keys, rank, owner, ns, mu)
    requires |steps| <= |path| && steps == Left(path, |steps|) && NamesBases(w, file, bases, steps) == ns
    requires depth >= Room(mu, h)
    ensures Tidy(w, path, FreeBases(w, file, bases, steps, depth), ns)
    decreases depth, 30, |bases|
  {
    hide NamedOnce, Low, NamesOf, Room, Covered, FreeDecl;
    if bases != [] {
      var named := bases[0].Named? && Resolve(w, file, bases[0].name).Some?;
      var first := if named then [(Resolve(w, file, bases[0].name).value, |steps|)] else [];
      var rest := NamesBases(w, file, bases[1..], steps);
      NamesOfParts(w, path, keys, rank, owner, first, rest, mu);
      if named {
        NameTree(w, path, keys, rank, h, owner, mu, first[0], depth);
      }
      BasesTree(w, path, keys, rank, h, owner, mu, file, bases[1..], steps, rest, depth);
      TidyJoin(w, path, keys, rank, owner, mu, FreeBase(w, file, bases[0], steps, depth), first,
        FreeBases(w, file, bases[1..], steps, depth), rest);
    }
  }

  lemma {:induction false} LowBound(w: World, keys: set<Key>) returns (h: nat)
    ensures Low(w, keys, h)
  {
    var ids := set k | k in keys && k.0 in w.decls :: k.0;
    h := TallestDecl(w, ids);
  }

  /**
   * Where the declarations along the path are named once, the lookup returns and is definite whenever the
   * declarations decide the question.
   */
  lemma NamedOnceIsDefinite(w: World, id: DeclId, path: seq<Step>, keys: set<Key>, rank: map<Key, nat>)
    returns (bound: nat)
    requires NamedOnce(w, path, keys, rank) && (id, |path|) in keys
    ensures id in w.decls
    ensures forall depth: nat :: depth >= bound ==> Definite(w, id, path, LookupDecl(w, id, path, {}, depth))
  {
    var key := (id, |path|);
    assert OnPath(w, path, key) && Left(path, |path|) == path;
    hide NamedOnce;
    var h := LowBound(w, keys);
    bound := Room(rank[key], h) + h + 2;
    forall depth: nat | depth >= bound ensures Definite(w, id, path, LookupDecl(w, id, path, {}, depth)) {
      DeclTree(w, path, keys, rank, h, key, depth);
      GuardCostsNothing(w, id, path, depth);
    }
  }

  // ---------------------------------------------------------------- where the guard always costs the answer

  ghost predicate Grown<T>(r: Outcome<T>, seen: Seen) {
    r.Returned? ==> seen <= r.seen
  }

  lemma {:induction false} TypeGrows(w: World, file: string, t: Type, steps: seq<Step>, seen: Seen, depth: nat)
    ensures Grown(LookupType(w, file, t, steps, seen, depth), seen)
    decreases depth, 0
  {
    if depth > 0 && steps != [] {
      match t
      case Literal(members) =>
        if steps[0].Member? && FindProperty(members, steps[0].name).Some? {
          MemberGrows(w, file, FindProperty(members, steps[0].name).value, steps, seen, depth - 1);
        }
      case Parenthesized(inner) => TypeGrows(w, file, inner, steps, seen, depth - 1);
      case Intersection(parts) => AllGrow(w, file, parts, steps, seen, depth - 1);
      case Union(parts) => AllGrow(w, file, parts, steps, seen, depth - 1);
      case ArrayOf(element) => TypeGrows(w, file, element, steps[1..], seen, depth - 1);
      case Operator(inner) => TypeGrows(w, file, inner, steps, seen, depth - 1);
      case Indexed(owner, key) =>
        if key.Some? { TypeGrows(w, file, owner, [Member(key.value)] + steps, seen, depth - 1); }
      case Reference(head, qualified, args) =>
        if args != [] {
          TypeGrows(w, file, args[0], steps, seen, depth - 1);
          TypeGrows(w, file, args[0], steps[1..], seen, depth - 1);
        }
        if Resolve(w, file, head).Some? {
          DeclGrows(w, Resolve(w, file, head).value, steps, seen, depth - 1);
        }
      case Other =>
    }
  }

  lemma {:induction false} MemberGrows(
    w: World, file: string, ty: Option<Type>, steps: seq<Step>, seen: Seen, depth: nat)
    requires steps != []
    ensures Grown(LookupMember(w, file, ty, steps, seen, depth), seen)
    decreases depth, 1
  {
    if |steps| > 1 && ty.Some? {
      TypeGrows(w, file, ty.value, steps[1..], seen, depth);
    }
  }

  lemma {:induction false} AllGrow(w: World, file: string, ts: seq<Type>, steps: seq<Step>, seen: Seen, depth: nat)
    ensures Grown(LookupAll(w, file, ts, steps, seen, depth), seen)
    decreases depth, 1 + |ts|
  {
    if ts != [] {
      TypeGrows(w, file, ts[0], steps, seen, depth);
      var first := LookupType(w, file, ts[0], steps, seen, depth);
      if first.Returned? {
        AllGrow(w, file, ts[1..], steps, first.seen, depth);
      }
    }
  }

  lemma {:induction false} DeclGrows(w: World, id: DeclId, steps: seq<Step>, seen: Seen, depth: nat)
    requires id in w.decls
    ensures Grown(LookupDecl(w, id, steps, seen, depth), seen)
    ensures steps != [] && LookupDecl(w, id, steps, seen, depth).Returned? ==>
      (id, |steps|) in LookupDecl(w, id, steps, seen, depth).seen
    decreases depth, 0
  {
    if depth > 0 && steps != [] && (id, |steps|) !in seen {
      var seen' := seen + {(id, |steps|)};
      match w.decls[id]
      case Alias(ty) => TypeGrows(w, id.file, ty, steps, seen', depth - 1);
      case Interface(members, bases) =>
        if steps[0].Member? {
          match FindProperty(members, steps[0].name) {
            case Some(ty) => MemberGrows(w, id.file, ty, steps, seen', depth - 1);
            case None => BasesGrow(w, id.file, bases, steps, seen', depth - 1);
          }
        }
    }
  }

  lemma {:induction false} BasesGrow(w: World, file: string, bases: seq<Base>, steps: seq<Step>, seen: Seen, depth: nat)
    ensures Grown(LookupBases(w, file, bases, steps, seen, depth), seen)
    decreases depth, 1 + |bases|
  {
    if bases != [] {
      if bases[0].Named? && Resolve(w, file, bases[0].name).Some? {
        DeclGrows(w, Resolve(w, file, bases[0].name).value, steps, seen, depth);
      }
      var first := LookupBase(w, file, bases[0], steps, seen, depth);
      if first.Returned? {
        BasesGrow(w, file, bases[1..], steps, first.seen, depth);
      }
    }
  }

  /** A reference that the walk resolves to a declaration. */
  predicate RefersTo(w: World, file: string, t: Type, id: DeclId) {
    && t.Reference? && !t.qualified
    && (t.head in PASSTHROUGH + ARRAYS ==> t.args == [])
    && Resolve(w, file, t.head) == Some(id)
  }

  /** Once entered, a declaration is unknown to every later branch with the same steps left. */
  lemma {:induction false} LaterBranchIsUnknown(
    w: World, file: string, ts: seq<Type>, steps: seq<Step>, seen: Seen, depth: nat, j: nat, id: DeclId)
    requires j < |ts| && RefersTo(w, file, ts[j], id) && steps != [] && (id, |steps|) in seen
    requires LookupAll(w, file, ts, steps, seen, depth).Returned?
    ensures |LookupAll(w, file, ts, steps, seen, depth).answer| == |ts|
    ensures LookupAll(w, file, ts, steps, seen, depth).answer[j] == Unknown
    decreases |ts|
  {
    TypeGrows(w, file, ts[0], steps, seen, depth);
    AllSound(w, file, ts, steps, seen, depth);
    var first := LookupType(w, file, ts[0], steps, seen, depth);
    if j == 0 {
      assert first == LookupDecl(w, id, steps, seen, depth - 1);
      assert first.answer == Unknown;
    } else {
      LaterBranchIsUnknown(w, file, ts[1..], steps, first.seen, depth, j - 1, id);
    }
  }

  lemma {:induction false} TwiceIsUnknown(
    w: World, file: string, ts: seq<Type>, steps: seq<Step>, seen: Seen, depth: nat, i: nat, j: nat, id: DeclId)
    requires i < j < |ts| && RefersTo(w, file, ts[i], id) && RefersTo(w, file, ts[j], id) && steps != []
    requires LookupAll(w, file, ts, steps, seen, depth).Returned?
    ensures Unknown in LookupAll(w, file, ts, steps, seen, depth).answer
    decreases |ts|
  {
    var first := LookupType(w, file, ts[0], steps, seen, depth);
    var rest := LookupAll(w, file, ts[1..], steps, first.seen, depth);
    if i > 0 {
      TwiceIsUnknown(w, file, ts[1..], steps, first.seen, depth, i - 1, j - 1, id);
    } else {
      DeclGrows(w, id, steps, seen, depth - 1);
      LaterBranchIsUnknown(w, file, ts[1..], steps, first.seen, depth, j - 1, id);
      assert rest.answer[j - 1] in rest.answer;
    }
  }

  /** A union that names one declaration in two of its branches is never answered definitely. */
  lemma UnionNamingTwiceIsUnknown(
    w: World, file: string, parts: seq<Type>, steps: seq<Step>, seen: Seen, depth: nat, i: nat, j: nat, id: DeclId)
    requires i < j < |parts| && RefersTo(w, file, parts[i], id) && RefersTo(w, file, parts[j], id) && steps != []
    requires LookupType(w, file, Union(parts), steps, seen, depth).Returned?
    ensures LookupType(w, file, Union(parts), steps, seen, depth).answer == Unknown
  {
    TwiceIsUnknown(w, file, parts, steps, seen, depth - 1, i, j, id);
  }

  // ---------------------------------------------------------------- what the condition allows, and what it leaves out

  const NODE := DeclId("f", 0)

  /** `interface Node { next: Node; a }`. */
  const LINKED := World(
    map[NODE := Interface([Property("next", Some(Reference("Node", false, []))), Property("a", None)], [])],
    map[("f", "Node") := NODE])

  /** A recursive type meets the condition: each round of `next` uses up a step. */
  lemma LinkedIsNamedOnce() returns (keys: set<Key>, rank: map<Key, nat>)
    ensures (NODE, 2) in keys && NamedOnce(LINKED, [Member("next"), Member("a")], keys, rank)
  {
    var w, path := LINKED, [Member("next"), Member("a")];
    var members := [Property("next", Some(Reference("Node", false, []))), Property("a", None)];
    var far, near: Key := (NODE, 2), (NODE, 1);
    assert w.decls[NODE] == Interface(members, []) && Resolve(w, "f", "Node") == Some(NODE);
    assert FindProperty(members, "next") == Some(Some(Reference("Node", false, [])));
    assert members[1..][0] == Property("a", None) && FindProperty(members[1..], "a") == Some(None);
    assert FindProperty(members, "a") == Some(None);
    assert Left(path, 2) == path && path[1..] == [Member("a")] && Left(path, 1) == [Member("a")];
    assert Names(w, "f", Reference("Node", false, []), [Member("a")]) == Some([near]);
    assert NamesAt(w, path, far) == [near] && NamesAt(w, path, near) == [];
    hide *;
    keys, rank := {far, near}, map[far := 1, near := 0];
    NamedTwo(w, path, far, near, keys, rank);
  }

  lemma NamedTwo(w: World, path: seq<Step>, far: Key, near: Key, keys: set<Key>, rank: map<Key, nat>)
    requires far != near && keys == {far, near} && rank == map[far := 1, near := 0]
    requires OnPath(w, path, far) && NamesDecl(w, far.0, Left(path, far.1)).Some? && NamesAt(w, path, far) == [near]
    requires OnPath(w, path, near) && NamesDecl(w, near.0, Left(path, near.1)).Some? && NamesAt(w, path, near) == []
    ensures NamedOnce(w, path, keys, rank)
  {
    hide NamesAt, NamesDecl, Left, OnPath;
  }

  const BOTH := DeclId("f", 2)

  /** `interface Item { a }` and `type Both = Item & Item`. */
  const INTERSECTED := World(
    map[ITEM := Interface([Property("a", None)], []),
        BOTH := Alias(Intersection([Reference("Item", false, []), Reference("Item", false, [])]))],
    map[("f", "Item") := ITEM, ("f", "Both") := BOTH])

  /** A key may be entered twice without any cost: one found part is enough for an intersection. */
  lemma RepeatedPartIsStillFound(depth: nat)
    requires depth >= 4
    ensures FreeDecl(INTERSECTED, BOTH, [Member("a")], depth) == Walked(Found, [(BOTH, 1), (ITEM, 1), (ITEM, 1)])
    ensures Definite(INTERSECTED, BOTH, [Member("a")], LookupDecl(INTERSECTED, BOTH, [Member("a")], {}, depth))
  {
    var w, steps, item := INTERSECTED, [Member("a")], Reference("Item", false, []);
    assert w.decls[ITEM] == Interface([Property("a", None)], []) && w.decls[BOTH] == Alias(Intersection([item, item]));
    assert Resolve(w, "f", "Item") == Some(ITEM) && FindProperty([Property("a", None)], "a") == Some(None);
    FreeTwo(w, item, steps, depth);
    var seen1: Seen := {(BOTH, 1)};
    var seen2: Seen := seen1 + {(ITEM, 1)};
    assert LookupDecl(w, ITEM, steps, seen1, depth - 3) == Returned(Found, seen2);
    assert LookupType(w, "f", item, steps, seen1, depth - 2) == Returned(Found, seen2);
    assert LookupDecl(w, ITEM, steps, seen2, depth - 3) == Returned(Unknown, seen2);
    assert LookupType(w, "f", item, steps, seen2, depth - 2) == Returned(Unknown, seen2);
    LookupTwo(w, "f", item, steps, seen1, seen2, depth - 2, Found, Unknown);
    assert [Found, Unknown][0] == Found;
    assert Combine([Found, Unknown]) == Found;
    assert LookupType(w, "f", Intersection([item, item]), steps, seen1, depth - 1) == Returned(Found, seen2);
    assert {} + {(BOTH, 1)} == seen1;
    hide LookupType, FreeType;
    LookupSound(w, BOTH, steps, {}, depth);
  }

  lemma FreeTwo(w: World, item: Type, steps: seq<Step>, depth: nat)
    requires w == INTERSECTED && item == Reference("Item", false, []) && steps == [Member("a")] && depth >= 4
    ensures FreeDecl(w, BOTH, steps, depth) == Walked(Found, [(BOTH, 1), (ITEM, 1), (ITEM, 1)])
  {
    assert w.decls[ITEM] == Interface([Property("a", None)], []) && w.decls[BOTH] == Alias(Intersection([item, item]));
    assert Resolve(w, "f", "Item") == Some(ITEM) && FindProperty([Property("a", None)], "a") == Some(None);
    var key: seq<Key> := [(ITEM, 1)];
    assert FreeBody(w, ITEM, steps, depth - 4) == Walked(Found, []) && key + [] == key;
    assert FreeDecl(w, ITEM, steps, depth - 3) == Walked(Found, key);
    assert FreeType(w, "f", item, steps, depth - 2) == Walked(Found, key);
    assert [item, item][1..] == [item] && [item][1..] == [];
    assert FreeAll(w, "f", [], steps, depth - 2) == Walked([], []);
    assert FreeAll(w, "f", [item], steps, depth - 2) == Walked([Found], key) by {
      assert [Found] + [] == [Found] && key + [] == key;
    }
    assert FreeAll(w, "f", [item, item], steps, depth - 2) == Walked([Found, Found], key + key) by {
      assert [Found] + [Found] == [Found, Found];
    }
    assert [Found, Found][0] == Found && Combine([Found, Found]) == Found;
    assert FreeType(w, "f", Intersection([item, item]), steps, depth - 1) == Walked(Found, key + key);
    assert FreeBody(w, BOTH, steps, depth - 1) == Walked(Found, key + key);
    assert [(BOTH, 1)] + (key + key) == [(BOTH, 1), (ITEM, 1), (ITEM, 1)];
  }
}
