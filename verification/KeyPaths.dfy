/** Schema key paths such as `agents[].id`: the parser, and the printer it inverts. */
module KeyPaths {
  /** One hop of a key path: into a named member, or into the elements of an array. */
  datatype Step = Member(name: string) | Element

  /** JavaScript's `path.split('.')`. */
  function Split(path: string): (segments: seq<string>)
    ensures segments != []
  {
    if path == [] then [""]
    else
      var rest := Split(path[1..]);
      if path[0] == '.' then [""] + rest else [[path[0]] + rest[0]] + rest[1..]
  }

  predicate EndsInBrackets(s: string) {
    |s| >= 2 && s[|s| - 2] == '[' && s[|s| - 1] == ']'
  }

  /** A step printed back: members are separated by dots, an array hop is a pair of brackets. */
  function Format(steps: seq<Step>): string {
    if steps == [] then ""
    else
      var n := |steps| - 1;
      Format(steps[..n]) +
      match steps[n]
      case Element => "[]"
      case Member(name) => (if n == 0 then "" else ".") + name
  }

  function Hops(n: nat): seq<Step> {
    seq(n, _ => Element)
  }

  /** Paths that start with a member, with names that hold no dot and do not end in brackets. */
  ghost predicate Canonical(steps: seq<Step>) {
    && steps != [] && steps[0].Member?
    && forall i :: 0 <= i < |steps| && steps[i].Member? ==> '.' !in steps[i].name && !EndsInBrackets(steps[i].name)
  }

  function Join(segments: seq<string>): string {
    if segments == [] then ""
    else
      var n := |segments| - 1;
      Join(segments[..n]) + (if n == 0 then "" else ".") + segments[n]
  }

  lemma {:induction false} JoinFront(a: string, segments: seq<string>)
    ensures Join([a] + segments) == a + (if segments == [] then "" else "." + Join(segments))
  {
    var all := [a] + segments;
    var n := |all| - 1;
    if segments == [] {
      assert all[..0] == [];
    } else {
      var front, last := segments[..n - 1], segments[n - 1];
      JoinFront(a, front);
      assert all[..n] == [a] + front && all[n] == last;
      assert Join(all) == Join([a] + front) + "." + last;
      assert Join(segments) == Join(front) + (if front == [] then "" else ".") + last;
      assert front == [] ==> Join(front) == "";
      hide *;
      if front == [] {
        OnlyLast(a, last);
      } else {
        DotsBetween(a, Join(front), last);
      }
    }
  }

  lemma OnlyLast(a: string, last: string)
    ensures a + "" + "." + last == a + ("." + ("" + "" + last))
  {
    assert "" + "" + last == last && a + "" == a;
    assert a + "." + last == a + ("." + last);
  }

  lemma DotsBetween(a: string, b: string, c: string)
    ensures a + ("." + b) + "." + c == a + ("." + (b + "." + c))
  {
    assert ("." + b) + ("." + c) == "." + (b + "." + c);
    assert a + ("." + b) + "." + c == a + (("." + b) + ("." + c));
  }

  lemma {:induction false} SplitSegments(path: string)
    ensures forall i :: 0 <= i < |Split(path)| ==> '.' !in Split(path)[i]
  {
    if path != [] {
      SplitSegments(path[1..]);
    }
  }

  lemma {:induction false} JoinOfSplit(path: string)
    ensures Join(Split(path)) == path
  {
    if path == [] {
      JoinFront("", []);
    } else {
      hide Join;
      JoinOfSplit(path[1..]);
      JoinSplit(path[0], Split(path[1..]));
      assert path == [path[0]] + path[1..];
    }
  }

  lemma JoinSplit(c: char, rest: seq<string>)
    requires rest != []
    ensures Join([""] + rest) == "." + Join(rest)
    ensures Join([[c] + rest[0]] + rest[1..]) == [c] + Join(rest)
  {
    hide Join;
    assert rest == [rest[0]] + rest[1..];
    JoinFront("", rest);
    JoinFront(rest[0], rest[1..]);
    JoinFront([c] + rest[0], rest[1..]);
    var tail := if rest[1..] == [] then "" else "." + Join(rest[1..]);
    assert ([c] + rest[0]) + tail == [c] + (rest[0] + tail);
    assert "" + ("." + Join(rest)) == "." + Join(rest);
  }

  lemma HopAfter(n: nat)
    ensures Format(Hops(n + 1)) == Format(Hops(n)) + "[]"
  {
    assert Hops(n + 1)[..n] == Hops(n);
  }

  lemma {:induction false} HopBefore(n: nat)
    ensures Format(Hops(n + 1)) == "[]" + Format(Hops(n))
  {
    HopAfter(n);
    if n > 0 {
      HopBefore(n - 1);
      HopAfter(n - 1);
    }
  }

  /** Only an array hop prints brackets at the end. */
  lemma LastPrinted(steps: seq<Step>)
    requires Canonical(steps)
    ensures EndsInBrackets(Format(steps)) <==> steps[|steps| - 1].Element?
  {
    var n := |steps| - 1;
    if steps[n].Member? && n == 0 {
      assert Format(steps[..0]) == "";
    }
  }

  lemma SameAfterDot(p: string, a: string, q: string, b: string)
    requires '.' !in a && '.' !in b && p + ("." + a) == q + ("." + b)
    ensures p == q && a == b
  {
    var whole := p + ("." + a);
    assert whole[|p|] == '.' && (q + ("." + b))[|q|] == '.';
    assert forall i :: |p| < i < |whole| ==> whole[i] == a[i - |p| - 1];
    assert forall i :: |q| < i < |whole| ==> (q + ("." + b))[i] == b[i - |q| - 1];
    assert whole[..|p|] == p && (q + ("." + b))[..|q|] == q;
    assert whole[|p| + 1..] == a && (q + ("." + b))[|q| + 1..] == b;
  }

  lemma DotsPrinted(steps: seq<Step>)
    requires Canonical(steps) && steps[|steps| - 1].Member?
    ensures '.' in Format(steps) <==> |steps| > 1
  {
    var n := |steps| - 1;
    if n > 0 {
      assert Format(steps)[|Format(steps[..n])|] == '.';
    }
  }

  lemma {:induction false} FormatInjective(s: seq<Step>, t: seq<Step>)
    requires Canonical(s) && Canonical(t) && Format(s) == Format(t)
    ensures s == t
    decreases |s|
  {
    hide EndsInBrackets;
    var n, m := |s| - 1, |t| - 1;
    LastPrinted(s);
    LastPrinted(t);
    var p, q := Format(s[..n]), Format(t[..m]);
    if s[n].Element? {
      assert p + "[]" == q + "[]";
      assert (p + "[]")[..|p|] == p && (q + "[]")[..|q|] == q;
      FormatInjective(s[..n], t[..m]);
    } else {
      DotsPrinted(s);
      DotsPrinted(t);
      if n > 0 {
        SameAfterDot(p, s[n].name, q, t[m].name);
        FormatInjective(s[..n], t[..m]);
      } else {
        assert Format(s) == s[0].name && Format(t) == t[0].name;
      }
    }
    assert s == s[..n] + [s[n]] && t == t[..m] + [t[m]];
  }

  lemma FormatEmpty()
    ensures Format([]) == "" && Join([]) == "" && Format(Hops(0)) == ""
  {
  }

  lemma CanonicalSnoc(steps: seq<Step>, last: Step)
    requires if steps == [] then last.Member? else Canonical(steps)
    requires last.Member? ==> '.' !in last.name && !EndsInBrackets(last.name)
    ensures Canonical(steps + [last])
  {
  }

  lemma JoinSnoc(segments: seq<string>, k: nat)
    requires k < |segments|
    ensures Join(segments[..k + 1]) == Join(segments[..k]) + (if k == 0 then "" else ".") + segments[k]
  {
    assert segments[..k + 1][..k] == segments[..k];
  }

  lemma FormatSnoc(steps: seq<Step>, last: Step)
    ensures Format(steps + [last]) ==
            Format(steps)
              + match last case Element => "[]" case Member(name) => (if steps == [] then "" else ".") + name
  {
    assert (steps + [last])[..|steps|] == steps;
  }

  /** The loop that strips bracket pairs off a segment and counts them. */
  method StripHops(segment: string) returns (name: string, arrays: nat)
    ensures segment == name + Format(Hops(arrays)) && !EndsInBrackets(name)
    ensures '.' !in segment ==> '.' !in name
  {
    name, arrays := segment, 0;
    while EndsInBrackets(name)
      invariant segment == name + Format(Hops(arrays))
      invariant '.' !in segment ==> '.' !in name
      decreases |name|
    {
      HopBefore(arrays);
      var shorter := name[..|name| - 2];
      assert name == shorter + "[]";
      assert shorter + ("[]" + Format(Hops(arrays))) == name + Format(Hops(arrays));
      name, arrays := shorter, arrays + 1;
    }
  }

  /** Parsing loses nothing and yields canonical steps, so it is the inverse of printing. */
  method ParsePath(path: string) returns (steps: seq<Step>)
    ensures Canonical(steps) && Format(steps) == path
    ensures forall other :: Canonical(other) && Format(other) == path ==> other == steps
  {
    hide *;
    steps := [];
    var segments := Split(path);
    SplitSegments(path);
    JoinOfSplit(path);
    FormatEmpty();
    for k := 0 to |segments|
      invariant if k == 0 then steps == [] else steps != [] && Canonical(steps)
      invariant Format(steps) == Join(segments[..k])
    {
      var name, arrays := StripHops(segments[k]);
      JoinSnoc(segments, k);
      FormatSnoc(steps, Member(name));
      CanonicalSnoc(steps, Member(name));
      ghost var front, dot, hops := Format(steps), if k == 0 then "" else ".", Format(Hops(arrays));
      assert (if steps == [] then "" else ".") == dot;
      assert Format(steps + [Member(name)]) == front + (dot + name);
      steps := steps + [Member(name)];
      ghost var named := Format(steps);
      for i := 0 to arrays
        invariant steps != [] && Canonical(steps)
        invariant Format(steps) == named + Format(Hops(i))
      {
        HopAfter(i);
        FormatSnoc(steps, Element);
        CanonicalSnoc(steps, Element);
        steps := steps + [Element];
      }
      assert (front + (dot + name)) + hops == (front + dot) + (name + hops);
    }
    assert segments[..|segments|] == segments;
    forall other | Canonical(other) && Format(other) == path ensures other == steps {
      FormatInjective(other, steps);
    }
  }
}
