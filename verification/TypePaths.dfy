/** Presence of a schema key path in a declared type: a three-valued walk over recursive declarations. */
module TypePaths {
  import opened Wrappers
  import opened KeyPaths

  // ---------------------------------------------------------------- the syntax that is walked

  datatype Type =
    | Literal(members: seq<TypeMember>)
    | Parenthesized(inner: Type)
    | Intersection(parts: seq<Type>)
    | Union(parts: seq<Type>)
    | ArrayOf(element: Type)
    | Operator(inner: Type)
    | Indexed(owner: Type, key: Option<string>)  // the key is known only when it is a string literal
    | Reference(head: string, qualified: bool, args: seq<Type>)
    | Other

  datatype TypeMember = Property(name: string, ty: Option<Type>) | OtherMember

  datatype Base = Named(name: string) | Computed

  datatype Decl = Interface(members: seq<TypeMember>, bases: seq<Base>) | Alias(ty: Type)

  /** A declaration is identified by its file and source position. */
  datatype DeclId = DeclId(file: string, pos: nat)

  /** The declarations, and what each name means in each file; all else is out of reach. */
  datatype World = World(decls: map<DeclId, Decl>, names: map<(string, string), DeclId>)

  function Resolve(w: World, file: string, name: string): (id: Option<DeclId>)
    ensures id.Some? ==> id.value in w.decls
  {
    if (file, name) in w.names && w.names[(file, name)] in w.decls then Some(w.names[(file, name)]) else None
  }

  const PASSTHROUGH := {"Partial", "Required", "Readonly", "NonNullable"}
  const ARRAYS := {"Array", "ReadonlyArray"}

  /** The type annotation of the first property with the name. */
  function FindProperty(members: seq<TypeMember>, name: string): Option<Option<Type>> {
    if members == [] then None
    else if members[0].Property? && members[0].name == name then Some(members[0].ty)
    else FindProperty(members[1..], name)
  }

  // ---------------------------------------------------------------- the walk

  datatype Answer = Found | Missing | Unknown

  /** The guard: declarations already entered, each with the number of steps that were left. */
  type Seen = set<(DeclId, nat)>

  /** A call either returns, with the grown guard, or needs more stack than there is. */
  datatype Outcome<T> = Returned(answer: T, seen: Seen) | Overflow

  function Combine(answers: seq<Answer>): Answer {
    if Found in answers then Found else if Unknown in answers then Unknown else Missing
  }

  function Agreed(answers: seq<Answer>): Answer {
    if forall a :: a in answers ==> a == Found then Found
    else if forall a :: a in answers ==> a == Missing then Missing
    else Unknown
  }

  function Finish(parts: Outcome<seq<Answer>>, join: seq<Answer> -> Answer): Outcome<Answer> {
    match parts
    case Overflow => Overflow
    case Returned(answers, seen) => Returned(join(answers), seen)
  }

  function LookupType(w: World, file: string, t: Type, steps: seq<Step>, seen: Seen, depth: nat): Outcome<Answer>
    decreases depth, 0
  {
    if depth == 0 then Overflow
    else if steps == [] then Returned(Found, seen)
    else
      match t
      case Literal(members) =>
        if steps[0].Element? then Returned(Unknown, seen)
        else
          (match FindProperty(members, steps[0].name)
           case None => Returned(Missing, seen)
           case Some(ty) => LookupMember(w, file, ty, steps, seen, depth - 1))
      case Parenthesized(inner) => LookupType(w, file, inner, steps, seen, depth - 1)
      case Intersection(parts) => Finish(LookupAll(w, file, parts, steps, seen, depth - 1), Combine)
      case Union(parts) => Finish(LookupAll(w, file, parts, steps, seen, depth - 1), Agreed)
      case ArrayOf(element) =>
        if steps[0].Element? then LookupType(w, file, element, steps[1..], seen, depth - 1)
        else Returned(Unknown, seen)
      case Operator(inner) => LookupType(w, file, inner, steps, seen, depth - 1)
      case Indexed(owner, key) =>
        if key.Some? then LookupType(w, file, owner, [Member(key.value)] + steps, seen, depth - 1)
        else Returned(Unknown, seen)
      case Reference(head, qualified, args) =>
        if head in PASSTHROUGH && args != [] then LookupType(w, file, args[0], steps, seen, depth - 1)
        else if head in ARRAYS && args != [] then
          if steps[0].Element? then LookupType(w, file, args[0], steps[1..], seen, depth - 1)
          else Returned(Unknown, seen)
        else if qualified then Returned(Unknown, seen)
        else
          (match Resolve(w, file, head)
           case None => Returned(Unknown, seen)
           case Some(id) => LookupDecl(w, id, steps, seen, depth - 1))
      case Other => Returned(Unknown, seen)
  }

  /** Past a matching property: the path ends here, or goes on in its annotation. */
  function LookupMember(
    w: World, file: string, ty: Option<Type>, steps: seq<Step>, seen: Seen, depth: nat): Outcome<Answer>
    requires steps != []
    decreases depth, 1
  {
    if |steps| == 1 then Returned(Found, seen)
    else if ty.None? then Returned(Unknown, seen)
    else LookupType(w, file, ty.value, steps[1..], seen, depth)
  }

  function LookupAll(
    w: World, file: string, ts: seq<Type>, steps: seq<Step>, seen: Seen, depth: nat): Outcome<seq<Answer>>
    decreases depth, 1 + |ts|
  {
    if ts == [] then Returned([], seen)
    else
      match LookupType(w, file, ts[0], steps, seen, depth)
      case Overflow => Overflow
      case Returned(first, seen1) =>
        match LookupAll(w, file, ts[1..], steps, seen1, depth)
        case Overflow => Overflow
        case Returned(rest, seen2) => Returned([first] + rest, seen2)
  }

  function LookupDecl(w: World, id: DeclId, steps: seq<Step>, seen: Seen, depth: nat): Outcome<Answer>
    requires id in w.decls
    decreases depth, 0
  {
    if depth == 0 then Overflow
    else if steps == [] then Returned(Found, seen)
    else if (id, |steps|) in seen then Returned(Unknown, seen)
    else
      var seen' := seen + {(id, |steps|)};
      match w.decls[id]
      case Alias(ty) => LookupType(w, id.file, ty, steps, seen', depth - 1)
      case Interface(members, bases) =>
        if steps[0].Element? then Returned(Unknown, seen')
        else
          match FindProperty(members, steps[0].name)
          case Some(ty) => LookupMember(w, id.file, ty, steps, seen', depth - 1)
          case None => Finish(LookupBases(w, id.file, bases, steps, seen', depth - 1), Combine)
  }

  function LookupBases(
    w: World, file: string, bases: seq<Base>, steps: seq<Step>, seen: Seen, depth: nat): Outcome<seq<Answer>>
    decreases depth, 1 + |bases|
  {
    if bases == [] then Returned([], seen)
    else
      match LookupBase(w, file, bases[0], steps, seen, depth)
      case Overflow => Overflow
      case Returned(first, seen1) =>
        match LookupBases(w, file, bases[1..], steps, seen1, depth)
        case Overflow => Overflow
        case Returned(rest, seen2) => Returned([first] + rest, seen2)
  }

  function LookupBase(w: World, file: string, base: Base, steps: seq<Step>, seen: Seen, depth: nat): Outcome<Answer>
    decreases depth, 1
  {
    match base
    case Computed => Returned(Unknown, seen)
    case Named(name) =>
      match Resolve(w, file, name)
      case None => Returned(Unknown, seen)
      case Some(id) => LookupDecl(w, id, steps, seen, depth)
  }

  // ---------------------------------------------------------------- presence and absence, without a guard

  /** The declared type certainly has a member at the path, by a derivation of height at most `n`. */
  ghost predicate PresentType(w: World, file: string, t: Type, steps: seq<Step>, n: nat)
    decreases n, 0
  {
    steps == [] || (n > 0 && match t
    case Literal(members) =>
      steps[0].Member? &&
      var p := FindProperty(members, steps[0].name);
      p.Some? && (|steps| == 1 || (p.value.Some? && PresentType(w, file, p.value.value, steps[1..], n - 1)))
    case Parenthesized(inner) => PresentType(w, file, inner, steps, n - 1)
    case Intersection(parts) => exists p :: p in parts && PresentType(w, file, p, steps, n - 1)
    case Union(parts) => forall p :: p in parts ==> PresentType(w, file, p, steps, n - 1)
    case ArrayOf(element) => steps[0].Element? && PresentType(w, file, element, steps[1..], n - 1)
    case Operator(inner) => PresentType(w, file, inner, steps, n - 1)
    case Indexed(owner, key) => key.Some? && PresentType(w, file, owner, [Member(key.value)] + steps, n - 1)
    case Reference(head, qualified, args) =>
      if head in PASSTHROUGH && args != [] then PresentType(w, file, args[0], steps, n - 1)
      else if head in ARRAYS && args != [] then steps[0].Element? && PresentType(w, file, args[0], steps[1..], n - 1)
      else
        && !qualified
        && Resolve(w, file, head).Some?
        && PresentDecl(w, Resolve(w, file, head).value, steps, n - 1)
    case Other => false)
  }

  ghost predicate PresentDecl(w: World, id: DeclId, steps: seq<Step>, n: nat)
    requires id in w.decls
    decreases n, 0
  {
    steps == [] || (n > 0 && match w.decls[id]
    case Alias(ty) => PresentType(w, id.file, ty, steps, n - 1)
    case Interface(members, bases) =>
      steps[0].Member? &&
      var p := FindProperty(members, steps[0].name);
      if p.Some? then |steps| == 1 || (p.value.Some? && PresentType(w, id.file, p.value.value, steps[1..], n - 1))
      else exists b :: b in bases && PresentBase(w, id.file, b, steps, n - 1))
  }

  ghost predicate PresentBase(w: World, file: string, base: Base, steps: seq<Step>, n: nat)
    decreases n, 1
  {
    base.Named? && Resolve(w, file, base.name).Some? && PresentDecl(w, Resolve(w, file, base.name).value, steps, n)
  }

  /** The declared type certainly has no member at the path, by a derivation of height at most `n`. */
  ghost predicate AbsentType(w: World, file: string, t: Type, steps: seq<Step>, n: nat)
    decreases n, 0
  {
    steps != [] && n > 0 && match t
    case Literal(members) =>
      steps[0].Member? &&
      var p := FindProperty(members, steps[0].name);
      p.Some? ==> |steps| > 1 && p.value.Some? && AbsentType(w, file, p.value.value, steps[1..], n - 1)
    case Parenthesized(inner) => AbsentType(w, file, inner, steps, n - 1)
    case Intersection(parts) => forall p :: p in parts ==> AbsentType(w, file, p, steps, n - 1)
    case Union(parts) => parts != [] && forall p :: p in parts ==> AbsentType(w, file, p, steps, n - 1)
    case ArrayOf(element) => steps[0].Element? && AbsentType(w, file, element, steps[1..], n - 1)
    case Operator(inner) => AbsentType(w, file, inner, steps, n - 1)
    case Indexed(owner, key) => key.Some? && AbsentType(w, file, owner, [Member(key.value)] + steps, n - 1)
    case Reference(head, qualified, args) =>
      if head in PASSTHROUGH && args != [] then AbsentType(w, file, args[0], steps, n - 1)
      else if head in ARRAYS && args != [] then steps[0].Element? && AbsentType(w, file, args[0], steps[1..], n - 1)
      else
        && !qualified
        && Resolve(w, file, head).Some?
        && AbsentDecl(w, Resolve(w, file, head).value, steps, n - 1)
    case Other => false
  }

  ghost predicate AbsentDecl(w: World, id: DeclId, steps: seq<Step>, n: nat)
    requires id in w.decls
    decreases n, 0
  {
    steps != [] && n > 0 && match w.decls[id]
    case Alias(ty) => AbsentType(w, id.file, ty, steps, n - 1)
    case Interface(members, bases) =>
      steps[0].Member? &&
      var p := FindProperty(members, steps[0].name);
      if p.Some? then |steps| > 1 && p.value.Some? && AbsentType(w, id.file, p.value.value, steps[1..], n - 1)
      else forall b :: b in bases ==> AbsentBase(w, id.file, b, steps, n - 1)
  }

  ghost predicate AbsentBase(w: World, file: string, base: Base, steps: seq<Step>, n: nat)
    decreases n, 1
  {
    base.Named? && Resolve(w, file, base.name).Some? && AbsentDecl(w, Resolve(w, file, base.name).value, steps, n)
  }

  ghost predicate Present(w: World, id: DeclId, steps: seq<Step>)
    requires id in w.decls
  {
    exists n: nat :: PresentDecl(w, id, steps, n)
  }

  ghost predicate Absent(w: World, id: DeclId, steps: seq<Step>)
    requires id in w.decls
  {
    exists n: nat :: AbsentDecl(w, id, steps, n)
  }

  lemma {:induction false} TypeExclusive(w: World, file: string, t: Type, steps: seq<Step>, n: nat, m: nat)
    ensures !(PresentType(w, file, t, steps, n) && AbsentType(w, file, t, steps, m))
    decreases n
  {
    if PresentType(w, file, t, steps, n) && AbsentType(w, file, t, steps, m) {
      match t
      case Literal(members) =>
        TypeExclusive(w, file, FindProperty(members, steps[0].name).value.value, steps[1..], n - 1, m - 1);
      case Parenthesized(inner) => TypeExclusive(w, file, inner, steps, n - 1, m - 1);
      case Intersection(parts) =>
        var p :| p in parts && PresentType(w, file, p, steps, n - 1);
        TypeExclusive(w, file, p, steps, n - 1, m - 1);
      case Union(parts) =>
        assert parts[0] in parts;
        TypeExclusive(w, file, parts[0], steps, n - 1, m - 1);
      case ArrayOf(element) => TypeExclusive(w, file, element, steps[1..], n - 1, m - 1);
      case Operator(inner) => TypeExclusive(w, file, inner, steps, n - 1, m - 1);
      case Indexed(owner, key) => TypeExclusive(w, file, owner, [Member(key.value)] + steps, n - 1, m - 1);
      case Reference(head, qualified, args) =>
        if head in PASSTHROUGH && args != [] {
          TypeExclusive(w, file, args[0], steps, n - 1, m - 1);
        } else if head in ARRAYS && args != [] {
          TypeExclusive(w, file, args[0], steps[1..], n - 1, m - 1);
        } else {
          DeclExclusive(w, Resolve(w, file, head).value, steps, n - 1, m - 1);
        }
      case Other =>
    }
  }

  lemma {:induction false} DeclExclusive(w: World, id: DeclId, steps: seq<Step>, n: nat, m: nat)
    requires id in w.decls
    ensures !(PresentDecl(w, id, steps, n) && AbsentDecl(w, id, steps, m))
    decreases n
  {
    if PresentDecl(w, id, steps, n) && AbsentDecl(w, id, steps, m) {
      match w.decls[id]
      case Alias(ty) => TypeExclusive(w, id.file, ty, steps, n - 1, m - 1);
      case Interface(members, bases) =>
        var p := FindProperty(members, steps[0].name);
        if p.Some? {
          TypeExclusive(w, id.file, p.value.value, steps[1..], n - 1, m - 1);
        } else {
          var b :| b in bases && PresentBase(w, id.file, b, steps, n - 1);
          DeclExclusive(w, Resolve(w, id.file, b.name).value, steps, n - 1, m - 1);
        }
    }
  }

  // ---------------------------------------------------------------- what a step finds

  /** The k-th member is the first property with this name, and this is its annotation. */
  ghost predicate FirstNamed(members: seq<TypeMember>, name: string, ty: Option<Type>, k: nat) {
    && k < |members| && members[k] == Property(name, ty)
    && forall j :: 0 <= j < k ==> !(members[j].Property? && members[j].name == name)
  }

  /** A property is found exactly when there is one with the name, and the first one counts. */
  lemma {:induction false} FirstPropertyIff(members: seq<TypeMember>, name: string, ty: Option<Type>)
    ensures FindProperty(members, name) == None <==>
      forall m :: m in members ==> !(m.Property? && m.name == name)
    ensures FindProperty(members, name) == Some(ty) <==> exists k: nat :: FirstNamed(members, name, ty, k)
  {
    if members != [] {
      FirstPropertyIff(members[1..], name, ty);
      assert forall m :: m in members <==> m == members[0] || m in members[1..];
      if members[0].Property? && members[0].name == name {
        assert FirstNamed(members, name, members[0].ty, 0);
        assert forall k: nat :: FirstNamed(members, name, ty, k) ==> k == 0;
      } else {
        FirstNamedShifts(members, name, ty);
      }
    }
  }

  lemma FirstNamedShifts(members: seq<TypeMember>, name: string, ty: Option<Type>)
    requires members != [] && !(members[0].Property? && members[0].name == name)
    ensures (exists k: nat :: FirstNamed(members, name, ty, k))
            <==> exists k: nat :: FirstNamed(members[1..], name, ty, k)
  {
    if k: nat :| FirstNamed(members, name, ty, k) {
      assert members[1..][k - 1] == members[k];
      assert FirstNamed(members[1..], name, ty, k - 1);
    }
    if k: nat :| FirstNamed(members[1..], name, ty, k) {
      assert FirstNamed(members, name, ty, k + 1);
    }
  }

  /** At the end of a path an interface without bases has exactly its own properties. */
  lemma LastStepIff(w: World, id: DeclId, name: string, seen: Seen, depth: nat)
    requires id in w.decls && w.decls[id].Interface? && w.decls[id].bases == []
    requires depth >= 2 && (id, 1) !in seen
    ensures
      var r := LookupDecl(w, id, [Member(name)], seen, depth);
      var named := exists m :: m in w.decls[id].members && m.Property? && m.name == name;
      r.Returned? && r.answer == if named then Found else Missing
  {
    FirstPropertyIff(w.decls[id].members, name, None);
  }

  /** Utility wrappers pass any path through to their first argument; list types take one array step from it. */
  lemma WrappersPassThrough(
    w: World, file: string, head: string, qualified: bool, args: seq<Type>, steps: seq<Step>, seen: Seen, depth: nat)
    requires args != [] && steps != [] && depth > 0
    ensures head == "Partial" || head == "Required" || head == "Readonly" || head == "NonNullable" ==>
      LookupType(w, file, Reference(head, qualified, args), steps, seen, depth)
        == LookupType(w, file, args[0], steps, seen, depth - 1)
    ensures head == "Array" || head == "ReadonlyArray" ==>
      LookupType(w, file, Reference(head, qualified, args), steps, seen, depth)
        == LookupType(w, file, ArrayOf(args[0]), steps, seen, depth)
  {
    assert |"Array"| == 5 && |"ReadonlyArray"| == 13;
  }

  // ---------------------------------------------------------------- soundness

  /** What the two ways of joining answers say when each answer is right about its own part. */
  lemma JoinSound<T>(r: Outcome<seq<Answer>>, parts: seq<T>, present: T -> bool, absent: T -> bool)
    requires r.Returned? ==>
      && |r.answer| == |parts|
      && forall i :: 0 <= i < |parts| ==>
           && (r.answer[i] == Found ==> present(parts[i]))
           && (r.answer[i] == Missing ==> absent(parts[i]))
    ensures r.Returned? && Combine(r.answer) == Found ==> exists p :: p in parts && present(p)
    ensures r.Returned? && Combine(r.answer) == Missing ==> forall p :: p in parts ==> absent(p)
    ensures r.Returned? && Agreed(r.answer) == Found ==> forall p :: p in parts ==> present(p)
    ensures r.Returned? && Agreed(r.answer) == Missing ==> parts != [] && forall p :: p in parts ==> absent(p)
  {
    if r.Returned? {
      forall p | p in parts
        ensures Combine(r.answer) == Missing || Agreed(r.answer) == Missing ==> absent(p)
        ensures Agreed(r.answer) == Found ==> present(p)
      {
        var i :| 0 <= i < |parts| && parts[i] == p;
        assert r.answer[i] in r.answer;
      }
      if Combine(r.answer) == Found {
        var i :| 0 <= i < |r.answer| && r.answer[i] == Found;
        assert parts[i] in parts;
      }
    }
  }

  lemma {:induction false} TypeSound(w: World, file: string, t: Type, steps: seq<Step>, seen: Seen, depth: nat)
    ensures
      var r := LookupType(w, file, t, steps, seen, depth);
      && (r.Returned? && r.answer == Found ==> PresentType(w, file, t, steps, depth))
      && (r.Returned? && r.answer == Missing ==> AbsentType(w, file, t, steps, depth))
    decreases depth, 0
  {
    if depth > 0 && steps != [] {
      match t
      case Literal(members) =>
        if steps[0].Member? && FindProperty(members, steps[0].name).Some? {
          MemberSound(w, file, FindProperty(members, steps[0].name).value, steps, seen, depth - 1);
        }
      case Parenthesized(inner) => TypeSound(w, file, inner, steps, seen, depth - 1);
      case Intersection(parts) =>
        AllSound(w, file, parts, steps, seen, depth - 1);
        JoinSound(LookupAll(w, file, parts, steps, seen, depth - 1), parts,
          p => PresentType(w, file, p, steps, depth - 1), p => AbsentType(w, file, p, steps, depth - 1));
      case Union(parts) =>
        AllSound(w, file, parts, steps, seen, depth - 1);
        JoinSound(LookupAll(w, file, parts, steps, seen, depth - 1), parts,
          p => PresentType(w, file, p, steps, depth - 1), p => AbsentType(w, file, p, steps, depth - 1));
      case ArrayOf(element) => TypeSound(w, file, element, steps[1..], seen, depth - 1);
      case Operator(inner) => TypeSound(w, file, inner, steps, seen, depth - 1);
      case Indexed(owner, key) =>
        if key.Some? { TypeSound(w, file, owner, [Member(key.value)] + steps, seen, depth - 1); }
      case Reference(head, qualified, args) =>
        if args != [] {
          TypeSound(w, file, args[0], steps, seen, depth - 1);
          TypeSound(w, file, args[0], steps[1..], seen, depth - 1);
        }
        if Resolve(w, file, head).Some? {
          DeclSound(w, Resolve(w, file, head).value, steps, seen, depth - 1);
        }
      case Other =>
    }
  }

  lemma {:induction false} MemberSound(
    w: World, file: string, ty: Option<Type>, steps: seq<Step>, seen: Seen, depth: nat)
    requires steps != []
    ensures
      var r := LookupMember(w, file, ty, steps, seen, depth);
      && (r.Returned? && r.answer == Found ==>
            |steps| == 1 || (ty.Some? && PresentType(w, file, ty.value, steps[1..], depth)))
      && (r.Returned? && r.answer == Missing ==>
            |steps| > 1 && ty.Some? && AbsentType(w, file, ty.value, steps[1..], depth))
    decreases depth, 1
  {
    if |steps| > 1 && ty.Some? {
      TypeSound(w, file, ty.value, steps[1..], seen, depth);
    }
  }

  lemma {:induction false} AllSound(
    w: World, file: string, ts: seq<Type>, steps: seq<Step>, seen: Seen, depth: nat)
    ensures
      var r := LookupAll(w, file, ts, steps, seen, depth);
      r.Returned? ==>
        && |r.answer| == |ts|
        && forall i :: 0 <= i < |ts| ==>
             && (r.answer[i] == Found ==> PresentType(w, file, ts[i], steps, depth))
             && (r.answer[i] == Missing ==> AbsentType(w, file, ts[i], steps, depth))
    decreases depth, 1 + |ts|
  {
    if ts != [] {
      TypeSound(w, file, ts[0], steps, seen, depth);
      var first := LookupType(w, file, ts[0], steps, seen, depth);
      if first.Returned? {
        AllSound(w, file, ts[1..], steps, first.seen, depth);
      }
    }
  }

  lemma {:induction false} DeclSound(w: World, id: DeclId, steps: seq<Step>, seen: Seen, depth: nat)
    requires id in w.decls
    ensures
      var r := LookupDecl(w, id, steps, seen, depth);
      && (r.Returned? && r.answer == Found ==> PresentDecl(w, id, steps, depth))
      && (r.Returned? && r.answer == Missing ==> AbsentDecl(w, id, steps, depth))
    decreases depth, 0
  {
    if depth > 0 && steps != [] && (id, |steps|) !in seen {
      var seen' := seen + {(id, |steps|)};
      match w.decls[id]
      case Alias(ty) => TypeSound(w, id.file, ty, steps, seen', depth - 1);
      case Interface(members, bases) =>
        if steps[0].Member? {
          match FindProperty(members, steps[0].name) {
            case Some(ty) => MemberSound(w, id.file, ty, steps, seen', depth - 1);
            case None =>
              BasesSound(w, id.file, bases, steps, seen', depth - 1);
              JoinSound(LookupBases(w, id.file, bases, steps, seen', depth - 1), bases,
                b => PresentBase(w, id.file, b, steps, depth - 1), b => AbsentBase(w, id.file, b, steps, depth - 1));
          }
        }
    }
  }

  lemma {:induction false} BasesSound(
    w: World, file: string, bases: seq<Base>, steps: seq<Step>, seen: Seen, depth: nat)
    ensures
      var r := LookupBases(w, file, bases, steps, seen, depth);
      r.Returned? ==>
        && |r.answer| == |bases|
        && forall i :: 0 <= i < |bases| ==>
             && (r.answer[i] == Found ==> PresentBase(w, file, bases[i], steps, depth))
             && (r.answer[i] == Missing ==> AbsentBase(w, file, bases[i], steps, depth))
    decreases depth, 1 + |bases|
  {
    if bases != [] {
      if bases[0].Named? && Resolve(w, file, bases[0].name).Some? {
        DeclSound(w, Resolve(w, file, bases[0].name).value, steps, seen, depth);
      }
      var first := LookupBase(w, file, bases[0], steps, seen, depth);
      if first.Returned? {
        BasesSound(w, file, bases[1..], steps, first.seen, depth);
      }
    }
  }

  /** A definite answer is right, whatever the guard held: the guard can only make an answer unknown. */
  lemma LookupSound(w: World, id: DeclId, steps: seq<Step>, seen: Seen, depth: nat)
    requires id in w.decls && LookupDecl(w, id, steps, seen, depth).Returned?
    ensures
      var answer := LookupDecl(w, id, steps, seen, depth).answer;
      && (answer == Found ==> Present(w, id, steps) && !Absent(w, id, steps))
      && (answer == Missing ==> Absent(w, id, steps) && !Present(w, id, steps))
  {
    DeclSound(w, id, steps, seen, depth);
    forall n: nat, m: nat ensures !(PresentDecl(w, id, steps, n) && AbsentDecl(w, id, steps, m)) {
      DeclExclusive(w, id, steps, n, m);
    }
  }

  // ---------------------------------------------------------------- termination

  /**
   * What the walk can meet in a type: no indexed access by a literal key, the one form that makes the
   * remaining path longer, and no names but those of the given declarations.
   */
  predicate Confined(w: World, file: string, t: Type, ids: set<DeclId>) {
    match t
    case Literal(members) =>
      forall m :: m in members && m.Property? && m.ty.Some? ==> Confined(w, file, m.ty.value, ids)
    case Parenthesized(inner) => Confined(w, file, inner, ids)
    case Intersection(parts) => forall p :: p in parts ==> Confined(w, file, p, ids)
    case Union(parts) => forall p :: p in parts ==> Confined(w, file, p, ids)
    case ArrayOf(element) => Confined(w, file, element, ids)
    case Operator(inner) => Confined(w, file, inner, ids)
    case Indexed(_, key) => key.None?
    case Reference(head, qualified, args) =>
      if head in PASSTHROUGH + ARRAYS && args != [] then Confined(w, file, args[0], ids)
      else !qualified && Resolve(w, file, head).Some? ==> Resolve(w, file, head).value in ids
    case Other => true
  }

  ghost predicate ConfinedBases(w: World, file: string, bases: seq<Base>, ids: set<DeclId>) {
    forall b :: b in bases && b.Named? && Resolve(w, file, b.name).Some? ==> Resolve(w, file, b.name).value in ids
  }

  /** A bound on the structural descent inside one type. */
  function Height(t: Type): nat {
    2 + match t
    case Literal(members) => MembersHeight(members)
    case Parenthesized(inner) => Height(inner)
    case Intersection(parts) => PartsHeight(parts)
    case Union(parts) => PartsHeight(parts)
    case ArrayOf(element) => Height(element)
    case Operator(inner) => Height(inner)
    case Indexed(owner, _) => Height(owner)
    case Reference(_, _, args) => PartsHeight(args)
    case Other => 0
  }

  function PartsHeight(parts: seq<Type>): nat {
    if parts == [] then 0 else Height(parts[0]) + PartsHeight(parts[1..])
  }

  function MembersHeight(members: seq<TypeMember>): nat {
    if members == [] then 0
    else
      (if members[0].Property? && members[0].ty.Some? then Height(members[0].ty.value) else 0)
      + MembersHeight(members[1..])
  }

  /** Declarations that name only each other, and use no indexed access with a literal key. */
  ghost predicate SelfContained(w: World, ids: set<DeclId>) {
    && ids <= w.decls.Keys
    && forall id :: id in ids ==>
         match w.decls[id]
         case Alias(ty) => Confined(w, id.file, ty, ids)
         case Interface(members, bases) =>
           Confined(w, id.file, Literal(members), ids) && ConfinedBases(w, id.file, bases, ids)
  }

  function DeclHeight(d: Decl): nat {
    match d
    case Alias(ty) => Height(ty)
    case Interface(members, _) => Height(Literal(members))
  }

  /** Self-contained declarations that are at most `h` high. */
  ghost predicate Tame(w: World, ids: set<DeclId>, h: nat) {
    && SelfContained(w, ids)
    && forall id :: id in ids ==> DeclHeight(w.decls[id]) <= h
  }

  lemma {:induction false} TallestDecl(w: World, ids: set<DeclId>) returns (h: nat)
    requires ids <= w.decls.Keys
    ensures forall id :: id in ids ==> DeclHeight(w.decls[id]) <= h
  {
    if ids == {} {
      h := 0;
    } else {
      var id :| id in ids;
      h := TallestDecl(w, ids - {id});
      h := if h < DeclHeight(w.decls[id]) then DeclHeight(w.decls[id]) else h;
    }
  }

  /** What the guard can still admit: declarations paired with at most `len` remaining steps. */
  ghost function Fresh(w: World, len: nat, seen: Seen): Seen {
    (set id, k: nat | id in w.decls && k <= len :: (id, k)) - seen
  }

  lemma FreshShrinks(w: World, len: nat, seen: Seen, id: DeclId, k: nat)
    requires id in w.decls && k <= len && (id, k) !in seen
    ensures |Fresh(w, len, seen + {(id, k)})| == |Fresh(w, len, seen)| - 1
  {
    assert (id, k) in Fresh(w, len, seen);
    assert Fresh(w, len, seen + {(id, k)}) == Fresh(w, len, seen) - {(id, k)};
  }

  lemma FreshMonotone(w: World, len: nat, seen: Seen, more: Seen)
    requires seen <= more
    ensures |Fresh(w, len, more)| <= |Fresh(w, len, seen)|
  {
    var gone := Fresh(w, len, seen) * more;
    assert Fresh(w, len, more) == Fresh(w, len, seen) - gone;
    assert Fresh(w, len, seen) == Fresh(w, len, more) + gone;
  }

  lemma {:induction false} PartHeight(parts: seq<Type>, p: Type)
    requires p in parts
    ensures Height(p) <= PartsHeight(parts)
  {
    if parts[0] != p {
      PartHeight(parts[1..], p);
    }
  }

  lemma {:induction false} MemberHeight(members: seq<TypeMember>, name: string)
    ensures
      var p := FindProperty(members, name);
      p.Some? && p.value.Some? ==> Height(p.value.value) <= MembersHeight(members)
  {
    if members != [] {
      MemberHeight(members[1..], name);
    }
  }

  lemma {:induction false} MemberConfined(
    w: World, file: string, members: seq<TypeMember>, name: string, ids: set<DeclId>)
    requires Confined(w, file, Literal(members), ids)
    ensures
      var p := FindProperty(members, name);
      p.Some? && p.value.Some? ==> Confined(w, file, p.value.value, ids)
  {
    if members != [] {
      assert Confined(w, file, Literal(members[1..]), ids) by {
        assert forall m :: m in members[1..] ==> m in members;
      }
      assert members[0] in members;
      MemberConfined(w, file, members[1..], name, ids);
    }
  }

  /** Stack enough to walk a type of height `height` with `left` admissible guard entries left. */
  function Enough(height: nat, left: nat, h: nat): nat
    decreases left
  {
    height + if left == 0 then 0 else Enough(h + 2, left - 1, h)
  }

  lemma {:induction false} EnoughMonotone(height: nat, left: nat, less: nat, h: nat)
    requires less <= left
    ensures Enough(height, less, h) <= Enough(height, left, h)
    ensures less < left ==> Enough(height, less, h) + h + 2 <= Enough(height, left, h)
    decreases left
  {
    if less < left {
      EnoughMonotone(h + 2, left - 1, less, h);
      assert Enough(h + 2, less, h) == h + 2 + Enough(height, less, h) - height;
    }
  }

  /** A call that returns, having only added to the guard. */
  ghost predicate Returns<T>(r: Outcome<T>, seen: Seen) {
    r.Returned? && seen <= r.seen
  }

  lemma {:induction false} TypeReturns(
    w: World, ids: set<DeclId>, h: nat, len: nat, file: string, t: Type, steps: seq<Step>, seen: Seen, depth: nat)
    requires Tame(w, ids, h) && Confined(w, file, t, ids) && |steps| <= len
    requires depth >= Enough(Height(t), |Fresh(w, len, seen)|, h)
    ensures Returns(LookupType(w, file, t, steps, seen, depth), seen)
    decreases depth, 0
  {
    hide FindProperty, LookupMember, LookupAll, LookupDecl, Fresh, MembersHeight, PartsHeight, Tame;
    if steps != [] {
      match t {
      case Literal(members) =>
        if steps[0].Member? && FindProperty(members, steps[0].name).Some? {
          MemberHeight(members, steps[0].name);
          MemberConfined(w, file, members, steps[0].name, ids);
          MemberReturns(w, ids, h, len, file, FindProperty(members, steps[0].name).value, steps, seen, depth - 1);
        }
      case Parenthesized(inner) => TypeReturns(w, ids, h, len, file, inner, steps, seen, depth - 1);
      case Intersection(parts) => AllReturn(w, ids, h, len, file, parts, steps, seen, depth - 1);
      case Union(parts) => AllReturn(w, ids, h, len, file, parts, steps, seen, depth - 1);
      case ArrayOf(element) =>
        if steps[0].Element? { TypeReturns(w, ids, h, len, file, element, steps[1..], seen, depth - 1); }
      case Operator(inner) => TypeReturns(w, ids, h, len, file, inner, steps, seen, depth - 1);
      case Indexed(owner, key) =>
      case Reference(head, qualified, args) =>
        if args != [] {
          PartHeight(args, args[0]);
        }
        if head in PASSTHROUGH && args != [] {
          TypeReturns(w, ids, h, len, file, args[0], steps, seen, depth - 1);
        } else if head in ARRAYS && args != [] {
          if steps[0].Element? { TypeReturns(w, ids, h, len, file, args[0], steps[1..], seen, depth - 1); }
        } else if !qualified && Resolve(w, file, head).Some? {
          DeclReturns(w, ids, h, len, Resolve(w, file, head).value, steps, seen, depth - 1);
        }
      case Other =>
      }
    }
  }

  lemma {:induction false} MemberReturns(
    w: World, ids: set<DeclId>, h: nat, len: nat, file: string, ty: Option<Type>, steps: seq<Step>, seen: Seen,
    depth: nat)
    requires Tame(w, ids, h) && steps != [] && |steps| <= len
    requires ty.Some? ==>
      Confined(w, file, ty.value, ids) && depth >= Enough(Height(ty.value), |Fresh(w, len, seen)|, h)
    ensures Returns(LookupMember(w, file, ty, steps, seen, depth), seen)
    decreases depth, 1
  {
    if |steps| > 1 && ty.Some? {
      TypeReturns(w, ids, h, len, file, ty.value, steps[1..], seen, depth);
    }
  }

  lemma {:induction false} AllReturn(
    w: World, ids: set<DeclId>, h: nat, len: nat, file: string, ts: seq<Type>, steps: seq<Step>, seen: Seen, depth: nat)
    requires Tame(w, ids, h) && |steps| <= len && forall t :: t in ts ==> Confined(w, file, t, ids)
    requires depth >= Enough(PartsHeight(ts), |Fresh(w, len, seen)|, h)
    ensures Returns(LookupAll(w, file, ts, steps, seen, depth), seen)
    decreases depth, 1 + |ts|
  {
    if ts != [] {
      TypeReturns(w, ids, h, len, file, ts[0], steps, seen, depth);
      var first := LookupType(w, file, ts[0], steps, seen, depth);
      FreshMonotone(w, len, seen, first.seen);
      EnoughMonotone(PartsHeight(ts[1..]), |Fresh(w, len, seen)|, |Fresh(w, len, first.seen)|, h);
      AllReturn(w, ids, h, len, file, ts[1..], steps, first.seen, depth);
    }
  }

  lemma {:induction false} DeclReturns(
    w: World, ids: set<DeclId>, h: nat, len: nat, id: DeclId, steps: seq<Step>, seen: Seen, depth: nat)
    requires Tame(w, ids, h) && id in ids && |steps| <= len
    requires depth >= Enough(1, |Fresh(w, len, seen)|, h)
    ensures Returns(LookupDecl(w, id, steps, seen, depth), seen)
    decreases depth, 0
  {
    hide FindProperty, LookupMember, LookupType, LookupBases, Fresh, MembersHeight;
    if steps != [] && (id, |steps|) !in seen {
      var seen' := seen + {(id, |steps|)};
      FreshShrinks(w, len, seen, id, |steps|);
      EnoughMonotone(1, |Fresh(w, len, seen)|, |Fresh(w, len, seen')|, h);
      match w.decls[id]
      case Alias(ty) => TypeReturns(w, ids, h, len, id.file, ty, steps, seen', depth - 1);
      case Interface(members, bases) =>
        if steps[0].Member? {
          MemberHeight(members, steps[0].name);
          MemberConfined(w, id.file, members, steps[0].name, ids);
          match FindProperty(members, steps[0].name) {
            case Some(ty) => MemberReturns(w, ids, h, len, id.file, ty, steps, seen', depth - 1);
            case None => BasesReturn(w, ids, h, len, id.file, bases, steps, seen', depth - 1);
          }
        }
    }
  }

  lemma {:induction false} BasesReturn(
    w: World, ids: set<DeclId>, h: nat, len: nat, file: string, bases: seq<Base>, steps: seq<Step>, seen: Seen,
    depth: nat)
    requires Tame(w, ids, h) && |steps| <= len && ConfinedBases(w, file, bases, ids)
    requires depth >= Enough(1, |Fresh(w, len, seen)|, h)
    ensures Returns(LookupBases(w, file, bases, steps, seen, depth), seen)
    decreases depth, 1 + |bases|
  {
    if bases != [] {
      if bases[0].Named? && Resolve(w, file, bases[0].name).Some? {
        DeclReturns(w, ids, h, len, Resolve(w, file, bases[0].name).value, steps, seen, depth);
      }
      var first := LookupBase(w, file, bases[0], steps, seen, depth);
      FreshMonotone(w, len, seen, first.seen);
      EnoughMonotone(1, |Fresh(w, len, seen)|, |Fresh(w, len, first.seen)|, h);
      BasesReturn(w, ids, h, len, file, bases[1..], steps, first.seen, depth);
    }
  }

  /**
   * The walk returns on arbitrarily recursive declarations, given a stack bounded by their number and
   * height. Only declarations that can be reached from the one that is asked for matter.
   */
  lemma LookupReturns(w: World, id: DeclId, steps: seq<Step>, ids: set<DeclId>) returns (bound: nat)
    requires id in ids && SelfContained(w, ids)
    ensures forall depth: nat :: depth >= bound ==> LookupDecl(w, id, steps, {}, depth).Returned?
  {
    var h := TallestDecl(w, ids);
    bound := Enough(1, |Fresh(w, |steps|, {})|, h);
    forall depth: nat | depth >= bound ensures LookupDecl(w, id, steps, {}, depth).Returned? {
      DeclReturns(w, ids, h, |steps|, id, steps, {}, depth);
    }
  }

  /** An alias that indexes itself: `type A = A['x']`. */
  const SELF := DeclId("f", 0)
  const SELF_INDEXED :=
    World(map[SELF := Alias(Indexed(Reference("A", false, []), Some("x")))], map[("f", "A") := SELF])

  /** Every round of such an alias lengthens the path, so the guard never fires and no stack is enough. */
  lemma {:induction false} SelfIndexedNeverReturns(steps: seq<Step>, seen: Seen, depth: nat)
    requires steps != [] && forall k: nat :: k >= |steps| ==> (SELF, k) !in seen
    ensures LookupDecl(SELF_INDEXED, SELF, steps, seen, depth).Overflow?
    decreases depth
  {
    var w := SELF_INDEXED;
    var name := Reference("A", false, []);
    assert w.decls[SELF] == Alias(Indexed(name, Some("x"))) && Resolve(w, "f", "A") == Some(SELF);
    if depth >= 3 {
      var seen' := seen + {(SELF, |steps|)};
      var longer := [Member("x")] + steps;
      SelfIndexedNeverReturns(longer, seen', depth - 3);
      assert LookupType(w, "f", name, longer, seen', depth - 2) == LookupDecl(w, SELF, longer, seen', depth - 3);
      assert LookupType(w, "f", Indexed(name, Some("x")), steps, seen', depth - 1).Overflow?;
    } else if depth == 2 {
      assert LookupType(w, "f", Indexed(name, Some("x")), steps, seen + {(SELF, |steps|)}, 1).Overflow?;
    }
  }

  // ---------------------------------------------------------------- what the shared guard gives up

  const ITEM := DeclId("f", 0)
  const PAIR := DeclId("f", 1)

  /** `interface Item { a }` and `type Pair = Item | Item`. */
  const REPEATED := World(
    map[ITEM := Interface([Property("a", None)], []),
        PAIR := Alias(Union([Reference("Item", false, []), Reference("Item", false, [])]))],
    map[("f", "Item") := ITEM, ("f", "Pair") := PAIR])

  /**
   * The guard is shared by sibling branches, not only by ancestors: a union naming one interface
   * twice certainly has its members, is not recursive, and is still answered 'unknown'.
   */
  lemma RepeatedBranchIsUnknown(depth: nat)
    requires depth >= 4
    ensures Present(REPEATED, PAIR, [Member("a")])
    ensures LookupDecl(REPEATED, PAIR, [Member("a")], {}, depth).Returned?
    ensures LookupDecl(REPEATED, PAIR, [Member("a")], {}, depth).answer == Unknown
  {
    var w, steps, item := REPEATED, [Member("a")], Reference("Item", false, []);
    assert w.decls[ITEM] == Interface([Property("a", None)], []) && w.decls[PAIR] == Alias(Union([item, item]));
    assert Resolve(w, "f", "Item") == Some(ITEM);
    assert FindProperty([Property("a", None)], "a") == Some(None);
    assert PresentDecl(w, ITEM, steps, 1);
    assert PresentType(w, "f", item, steps, 2);
    assert PresentType(w, "f", Union([item, item]), steps, 3);
    assert PresentDecl(w, PAIR, steps, 4);
    var seen1: Seen := {(PAIR, 1)};
    var seen2: Seen := seen1 + {(ITEM, 1)};
    assert LookupDecl(w, ITEM, steps, seen1, depth - 3) == Returned(Found, seen2);
    assert LookupType(w, "f", item, steps, seen1, depth - 2) == Returned(Found, seen2);
    assert LookupDecl(w, ITEM, steps, seen2, depth - 3) == Returned(Unknown, seen2);
    assert LookupType(w, "f", item, steps, seen2, depth - 2) == Returned(Unknown, seen2);
    LookupTwo(w, "f", item, steps, seen1, seen2, depth - 2, Found, Unknown);
    assert [Found, Unknown][0] == Found && [Found, Unknown][1] == Unknown;
    assert Found in [Found, Unknown] && Unknown in [Found, Unknown];
    assert Agreed([Found, Unknown]) == Unknown;
    assert LookupType(w, "f", Union([item, item]), steps, seen1, depth - 1) == Returned(Unknown, seen2);
    assert {} + {(PAIR, 1)} == seen1;
  }

  lemma LookupTwo(
    w: World, file: string, t: Type, steps: seq<Step>, seen: Seen, seen': Seen, depth: nat, a: Answer, b: Answer)
    requires LookupType(w, file, t, steps, seen, depth) == Returned(a, seen')
    requires LookupType(w, file, t, steps, seen', depth) == Returned(b, seen')
    ensures LookupAll(w, file, [t, t], steps, seen, depth) == Returned([a, b], seen')
  {
    assert [t, t][1..] == [t] && [t][1..] == [];
    assert LookupAll(w, file, [], steps, seen', depth) == Returned([], seen');
    assert [b] + [] == [b] && [a] + [b] == [a, b];
    assert LookupAll(w, file, [t], steps, seen', depth) == Returned([b], seen');
  }
}
