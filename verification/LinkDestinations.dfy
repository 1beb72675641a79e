/** Finding the destination of a Markdown link behind its label. */
module LinkDestinations {
  import opened TextLines
  import opened Wrappers

  // ---------------------------------------------------------------- matching brackets

  /** A pair of brackets, and whether white space outside of them ends a scan. */
  datatype Delimiters = Delimiters(open: char, close: char, spaceEnds: bool)

  const LABEL := Delimiters('[', ']', false)

  const DESTINATION := Delimiters('(', ')', true)

  /** Text in which brackets match: plain characters, escapes, and nested brackets. */
  datatype Body = End | Plain(c: char, rest: Body) | Escaped(c: char, rest: Body) | Nested(inner: Body, rest: Body)

  predicate Valid(b: Body, d: Delimiters) {
    match b
    case End => true
    case Plain(c, rest) => c != '\\' && c != d.open && c != d.close && Valid(rest, d)
    case Escaped(_, rest) => Valid(rest, d)
    case Nested(inner, rest) => Valid(inner, d) && Valid(rest, d)
  }

  /** No plain white space outside the nested brackets. */
  predicate Unspaced(b: Body) {
    match b
    case End => true
    case Plain(c, rest) => !IsSpace(c) && Unspaced(rest)
    case Escaped(_, rest) => Unspaced(rest)
    case Nested(_, rest) => Unspaced(rest)
  }

  predicate Proper(b: Body, d: Delimiters) {
    Valid(b, d) && (d.spaceEnds ==> Unspaced(b))
  }

  function Print(b: Body, d: Delimiters): string {
    match b
    case End => ""
    case Plain(c, rest) => [c] + Print(rest, d)
    case Escaped(c, rest) => ['\\', c] + Print(rest, d)
    case Nested(inner, rest) => [d.open] + Print(inner, d) + [d.close] + Print(rest, d)
  }

  predicate Stops(c: char, d: Delimiters) {
    c == d.close || (d.spaceEnds && IsSpace(c) && c != '\\' && c != d.open)
  }

  /** The first place outside all brackets that ends the scan, for a reader inside `depth` of them. */
  function Scan(s: string, index: nat, depth: nat, d: Delimiters): Option<nat>
    decreases |s| - index
  {
    if index >= |s| then None
    else if s[index] == '\\' then Scan(s, index + 2, depth, d)
    else if s[index] == d.open then Scan(s, index + 1, depth + 1, d)
    else if depth == 0 && Stops(s[index], d) then Some(index)
    else if s[index] == d.close then Scan(s, index + 1, depth - 1, d)
    else Scan(s, index + 1, depth, d)
  }

  ghost predicate StandsAt(s: string, index: nat, a: string) {
    index + |a| <= |s| && s[index..index + |a|] == a
  }

  lemma StandsInTwo(s: string, index: nat, a: string, b: string)
    requires StandsAt(s, index, a + b)
    ensures StandsAt(s, index, a) && StandsAt(s, index + |a|, b)
  {
    var whole := s[index..index + |a + b|];
    assert whole[..|a|] == s[index..index + |a|] && whole[|a|..] == s[index + |a|..index + |a| + |b|];
  }

  lemma StandsOne(s: string, index: nat, c: char)
    ensures StandsAt(s, index, [c]) <==> index < |s| && s[index] == c
  {
  }

  /** Reading over a body leaves the reader as deep as before. */
  lemma {:induction false} BodyIsSkipped(s: string, index: nat, depth: nat, b: Body, d: Delimiters)
    requires Valid(b, d) && (depth == 0 && d.spaceEnds ==> Unspaced(b)) && StandsAt(s, index, Print(b, d))
    requires d.open != '\\' && d.close != '\\' && d.open != d.close
    ensures Scan(s, index, depth, d) == Scan(s, index + |Print(b, d)|, depth, d)
    decreases b, 1
  {
    hide StandsAt, IsSpace;
    match b
    case End =>
    case Plain(c, rest) =>
      StandsInTwo(s, index, [c], Print(rest, d));
      StandsOne(s, index, c);
      BodyIsSkipped(s, index + 1, depth, rest, d);
    case Escaped(c, rest) =>
      StandsInTwo(s, index, ['\\', c], Print(rest, d));
      assert ['\\'] + [c] == ['\\', c];
      StandsInTwo(s, index, ['\\'], [c]);
      StandsOne(s, index, '\\');
      BodyIsSkipped(s, index + 2, depth, rest, d);
    case Nested(inner, rest) =>
      NestedIsSkipped(s, index, depth, b, d);
  }

  lemma {:induction false} NestedIsSkipped(s: string, index: nat, depth: nat, b: Body, d: Delimiters)
    requires Valid(b, d) && (depth == 0 && d.spaceEnds ==> Unspaced(b)) && StandsAt(s, index, Print(b, d))
    requires b.Nested? && d.open != '\\' && d.close != '\\' && d.open != d.close
    ensures Scan(s, index, depth, d) == Scan(s, index + |Print(b, d)|, depth, d)
    decreases b, 0
  {
    var inner, rest := Print(b.inner, d), Print(b.rest, d);
    assert Print(b, d) == [d.open] + inner + [d.close] + rest && Valid(b.inner, d) && Valid(b.rest, d);
    assert depth == 0 && d.spaceEnds ==> Unspaced(b.rest);
    hide StandsAt, Print, Valid, Unspaced, IsSpace, Scan;
    var close := index + 1 + |inner|;
    StandsInFour(s, index, d, inner, rest);
    BodyIsSkipped(s, index + 1, depth + 1, b.inner, d);
    BodyIsSkipped(s, close + 1, depth, b.rest, d);
    StepIn(s, index, depth, d);
    StepOut(s, close, depth + 1, d);
  }

  lemma StandsInFour(s: string, index: nat, d: Delimiters, inner: string, rest: string)
    requires StandsAt(s, index, [d.open] + inner + [d.close] + rest)
    ensures index < |s| && s[index] == d.open && StandsAt(s, index + 1, inner)
    ensures index + 1 + |inner| < |s| && s[index + 1 + |inner|] == d.close
    ensures StandsAt(s, index + 2 + |inner|, rest)
  {
    hide StandsAt;
    StandsInTwo(s, index, [d.open] + inner + [d.close], rest);
    StandsInTwo(s, index, [d.open] + inner, [d.close]);
    StandsInTwo(s, index, [d.open], inner);
    StandsOne(s, index, d.open);
    StandsOne(s, index + 1 + |inner|, d.close);
  }

  lemma StepIn(s: string, index: nat, depth: nat, d: Delimiters)
    requires index < |s| && s[index] == d.open && d.open != '\\'
    ensures Scan(s, index, depth, d) == Scan(s, index + 1, depth + 1, d)
  {
  }

  lemma StepOut(s: string, index: nat, depth: nat, d: Delimiters)
    requires index < |s| && s[index] == d.close && d.close != '\\' && d.close != d.open && depth > 0
    ensures Scan(s, index, depth, d) == Scan(s, index + 1, depth - 1, d)
  {
  }

  /** Bodies with a closing bracket between each and the next. */
  function PrintAll(bodies: seq<Body>, d: Delimiters): string
    requires bodies != []
  {
    if |bodies| == 1 then Print(bodies[0], d) else Print(bodies[0], d) + [d.close] + PrintAll(bodies[1..], d)
  }

  lemma PrintMore(first: Body, pre: string, more: seq<Body>, d: Delimiters)
    requires more != [] && Print(first, d) == pre + Print(more[0], d)
    ensures PrintAll([first] + more[1..], d) == pre + PrintAll(more, d)
  {
    var bodies := [first] + more[1..];
    assert bodies[1..] == more[1..];
    if |more| > 1 {
      var a, b := Print(more[0], d), PrintAll(more[1..], d);
      assert PrintAll(bodies, d) == pre + a + [d.close] + b && PrintAll(more, d) == a + [d.close] + b;
      hide *;
      assert pre + a + [d.close] + b == pre + (a + [d.close] + b);
    }
  }

  lemma PrintNested(more: seq<Body>, d: Delimiters)
    requires |more| >= 2
    ensures PrintAll([Nested(more[0], more[1])] + more[2..], d) == [d.open] + PrintAll(more, d)
  {
    var nested := Nested(more[0], more[1]);
    var merged := [nested] + more[2..];
    var after := more[1..];
    assert merged[1..] == more[2..] && after[1..] == more[2..] && after[0] == more[1];
    var a, b := Print(more[0], d), Print(more[1], d);
    assert Print(nested, d) == [d.open] + a + [d.close] + b;
    assert PrintAll(more, d) == a + [d.close] + PrintAll(after, d);
    if |more| == 2 {
      assert PrintAll(after, d) == b && PrintAll(merged, d) == Print(nested, d);
      hide *;
      assert [d.open] + a + [d.close] + b == [d.open] + (a + [d.close] + b);
    } else {
      var c := PrintAll(more[2..], d);
      assert PrintAll(after, d) == b + [d.close] + c && PrintAll(merged, d) == Print(nested, d) + [d.close] + c;
      hide *;
      FiveParts([d.open], a + [d.close], b, [d.close], c);
      assert [d.open] + a + [d.close] == [d.open] + (a + [d.close]);
    }
  }

  lemma FiveParts(a: string, b: string, c: string, e: string, f: string)
    ensures a + b + c + e + f == a + (b + (c + e + f))
  {
    assert c + e + f == c + (e + f);
    assert a + b + c + e + f == (a + b) + (c + (e + f));
  }

  lemma PrintEnd(more: seq<Body>, d: Delimiters)
    requires more != []
    ensures PrintAll([End] + more, d) == [d.close] + PrintAll(more, d)
  {
    assert ([End] + more)[1..] == more;
  }

  /** The bodies that a reader inside brackets has still to read; the outermost one is unspaced. */
  ghost predicate AllProper(bodies: seq<Body>, d: Delimiters) {
    && (forall i :: 0 <= i < |bodies| ==> Valid(bodies[i], d))
    && (bodies != [] && d.spaceEnds ==> Unspaced(bodies[|bodies| - 1]))
  }

  /** Where a scan ends, everything before is made of matching bodies. */
  lemma {:induction false} BodiesBefore(s: string, index: nat, depth: nat, d: Delimiters) returns (bodies: seq<Body>)
    requires Scan(s, index, depth, d).Some?
    requires d.open != '\\' && d.close != '\\' && d.open != d.close
    ensures index <= Scan(s, index, depth, d).value < |s| && Stops(s[Scan(s, index, depth, d).value], d)
    ensures |bodies| == depth + 1 && AllProper(bodies, d)
    ensures PrintAll(bodies, d) == s[index..Scan(s, index, depth, d).value]
    decreases |s| - index
  {
    hide PrintAll, IsSpace;
    var c, end := s[index], Scan(s, index, depth, d).value;
    if c == '\\' {
      var more := BodiesBefore(s, index + 2, depth, d);
      var first := Escaped(s[index + 1], more[0]);
      bodies := [first] + more[1..];
      PrintMore(first, [c, s[index + 1]], more, d);
      assert s[index..end] == [c, s[index + 1]] + s[index + 2..end];
    } else if c == d.open {
      var more := BodiesBefore(s, index + 1, depth + 1, d);
      bodies := [Nested(more[0], more[1])] + more[2..];
      PrintNested(more, d);
      assert s[index..end] == [c] + s[index + 1..end];
    } else if depth == 0 && Stops(c, d) {
      bodies := [End];
      assert PrintAll([End], d) == "" by { PrintNothing(d); }
      assert s[index..end] == "";
    } else if c == d.close {
      var more := BodiesBefore(s, index + 1, depth - 1, d);
      bodies := [End] + more;
      PrintEnd(more, d);
      assert s[index..end] == [c] + s[index + 1..end];
    } else {
      var more := BodiesBefore(s, index + 1, depth, d);
      var first := Plain(c, more[0]);
      bodies := [first] + more[1..];
      PrintMore(first, [c], more, d);
      assert s[index..end] == [c] + s[index + 1..end];
    }
  }

  lemma PrintNothing(d: Delimiters)
    ensures PrintAll([End], d) == ""
  {
  }

  /** A body from `index` to `end`, and a character behind it that ends it. */
  ghost predicate Delimited(s: string, index: nat, end: nat, b: Body, d: Delimiters) {
    && Proper(b, d)
    && StandsAt(s, index, Print(b, d))
    && end == index + |Print(b, d)| < |s|
    && Stops(s[end], d)
  }

  /** A scan ends exactly behind a body whose brackets match, however they nest. */
  lemma ScanIff(s: string, index: nat, end: nat, d: Delimiters)
    requires d.open != '\\' && d.close != '\\' && d.open != d.close
    ensures Scan(s, index, 0, d) == Some(end) <==> exists b :: Delimited(s, index, end, b, d)
  {
    hide IsSpace;
    if Scan(s, index, 0, d) == Some(end) {
      var bodies := BodiesBefore(s, index, 0, d);
      assert PrintAll(bodies, d) == Print(bodies[0], d);
      assert Delimited(s, index, end, bodies[0], d);
    }
    if b :| Delimited(s, index, end, b, d) {
      BodyIsSkipped(s, index, 0, b, d);
    }
  }

  // ---------------------------------------------------------------- the end of a label

  function EndOfLabel(s: string): Option<nat> {
    var first := IndexOf(s, "[", 0);
    if first.None? then None else Scan(s, first.value + 1, 0, LABEL)
  }

  method LabelEnd(source: string) returns (r: Option<nat>)
    ensures r == EndOfLabel(source)
  {
    var first := IndexOf(source, "[", 0);
    if first.None? {
      return None;
    }
    OpeningAt(source);
    var depth: int := 0;
    var index: int := first.value;
    while index < |source|
      invariant first.value <= index && depth >= 0 && (if index == first.value then depth == 0 else depth >= 1)
      invariant index > first.value ==> EndOfLabel(source) == Scan(source, index, depth - 1, LABEL)
      decreases |source| - index
    {
      if source[index] == '\\' {
        index := index + 1;
      } else if source[index] == '[' {
        depth := depth + 1;
      } else if source[index] == ']' {
        depth := depth - 1;
        if depth == 0 {
          return Some(index);
        }
      }
      index := index + 1;
    }
    r := None;
  }

  lemma OpeningAt(s: string)
    requires IndexOf(s, "[", 0).Some?
    ensures IndexOf(s, "[", 0).value < |s| && s[IndexOf(s, "[", 0).value] == '['
    ensures '[' !in s[..IndexOf(s, "[", 0).value]
  {
    IndexOfFirst(s, "[", 0);
    var first := IndexOf(s, "[", 0).value;
    assert s[first..first + 1] == "[";
    forall i | 0 <= i < first ensures s[i] != '[' {
      assert !StartsAt(s, i, "[") && s[i..i + 1] == [s[i]];
    }
  }

  /** A label: the first opening bracket, a body whose brackets match, and the bracket that closes it. */
  ghost predicate Label(s: string, first: nat, end: nat, b: Body) {
    && first < |s| && s[first] == '[' && '[' !in s[..first]
    && Delimited(s, first + 1, end, b, LABEL)
  }

  lemma FirstIsUnique(s: string, first: nat)
    requires first < |s| && s[first] == '[' && '[' !in s[..first]
    ensures IndexOf(s, "[", 0) == Some(first)
  {
    forall i | 0 <= i < first ensures s[i] != '[' {
      assert s[i] == s[..first][i];
    }
    IndexOfFirst(s, "[", 0);
    assert s[first..first + 1] == "[" && StartsAt(s, first, "[");
    OpeningAt(s);
  }

  /** The scan finds the end of a label exactly when there is one, however its brackets nest. */
  lemma EndOfLabelIff(s: string, end: nat)
    ensures EndOfLabel(s) == Some(end) <==> exists first: nat, b :: Label(s, first, end, b)
  {
    hide Delimited, Scan, IndexOf;
    if EndOfLabel(s) == Some(end) {
      var first := IndexOf(s, "[", 0).value;
      OpeningAt(s);
      ScanIff(s, first + 1, end, LABEL);
      var b :| Delimited(s, first + 1, end, b, LABEL);
      assert Label(s, first, end, b);
    }
    if first: nat, b :| Label(s, first, end, b) {
      FirstIsUnique(s, first);
      ScanIff(s, first + 1, end, LABEL);
    }
  }

  // ---------------------------------------------------------------- the destination behind it

  datatype Kind = Link | Image | Definition

  datatype Span = Span(start: nat, end: nat)

  datatype DestinationError = NoLabelEnd | NoSeparator | NoInlineDestination | NoAngleEnd

  function SkipWhitespace(s: string, start: nat): (k: nat)
    ensures start <= k && (k <= |s| || k == start)
    ensures k < |s| ==> !IsSpace(s[k])
    decreases |s| - start
  {
    if start < |s| && IsSpace(s[start]) then SkipWhitespace(s, start + 1) else start
  }

  /** The first closing angle bracket that is not escaped. */
  function AngleEnd(s: string, index: nat): (r: Option<nat>)
    ensures r.Some? ==> index <= r.value < |s| && s[r.value] == '>'
    decreases |s| - index
  {
    if index >= |s| then None
    else if s[index] == '\\' then AngleEnd(s, index + 2)
    else if s[index] == '>' then Some(index)
    else AngleEnd(s, index + 1)
  }

  /** Where the destination may begin, behind the label. */
  function DestinationStart(raw: string, kind: Kind): Result<nat, DestinationError> {
    var labelEnd := EndOfLabel(raw);
    if labelEnd.None? then Failure(NoLabelEnd)
    else if kind.Definition? then
      var colon := IndexOf(raw, ":", labelEnd.value + 1);
      if colon.None? then Failure(NoSeparator) else Success(SkipWhitespace(raw, colon.value + 1))
    else if labelEnd.value + 1 >= |raw| || raw[labelEnd.value + 1] != '(' then Failure(NoInlineDestination)
    else Success(SkipWhitespace(raw, labelEnd.value + 2))
  }

  function DestinationOf(raw: string, kind: Kind): Result<Span, DestinationError> {
    match DestinationStart(raw, kind)
    case Failure(e) => Failure(e)
    case Success(start) =>
      if start < |raw| && raw[start] == '<' then
        var end := AngleEnd(raw, start + 1);
        if end.None? then Failure(NoAngleEnd) else Success(Span(start + 1, end.value))
      else
        var end := Scan(raw, start, 0, DESTINATION);
        Success(Span(start, if end.None? then |raw| else end.value))
  }

  /** No place from an index on holds the character. */
  ghost predicate NoneFrom(s: string, c: char, from: nat) {
    forall i :: from <= i < |s| ==> s[i] != c
  }

  lemma ColonIff(s: string, from: nat)
    ensures IndexOf(s, ":", from) == None <==> NoneFrom(s, ':', from)
    ensures IndexOf(s, ":", from).Some? ==>
      var k := IndexOf(s, ":", from).value;
      from <= k < |s| && s[k] == ':' && NoneFrom(s[..k], ':', from)
  {
    IndexOfFirst(s, ":", from);
    forall i | from <= i < |s| ensures StartsAt(s, i, ":") <==> s[i] == ':' {
      assert s[i..i + 1] == [s[i]];
    }
  }

  lemma {:induction false} SkipWhitespaceIff(s: string, start: nat)
    ensures
      var k := SkipWhitespace(s, start);
      && start <= k && (forall i :: start <= i < k ==> i < |s| && IsSpace(s[i])) && (k < |s| ==> !IsSpace(s[k]))
    decreases |s| - start
  {
    hide IsSpace;
    if start < |s| && IsSpace(s[start]) {
      SkipWhitespaceIff(s, start + 1);
    }
  }

  /** Which error is reported: the one of the first part that is missing. */
  lemma DestinationFailsIff(raw: string, kind: Kind)
    ensures
      var r, end := DestinationOf(raw, kind), EndOfLabel(raw);
      && (r == Failure(NoLabelEnd) <==> end == None)
      && (r == Failure(NoSeparator) <==> end.Some? && kind.Definition? && NoneFrom(raw, ':', end.value + 1))
      && (r == Failure(NoInlineDestination) <==>
            end.Some? && !kind.Definition? && !(end.value + 1 < |raw| && raw[end.value + 1] == '('))
      && (r == Failure(NoAngleEnd) <==>
            && DestinationStart(raw, kind).Success?
            && var start := DestinationStart(raw, kind).value;
               start < |raw| && raw[start] == '<' && AngleEnd(raw, start + 1) == None)
  {
    hide EndOfLabel, SkipWhitespace, Scan, AngleEnd, NoneFrom, IndexOf;
    if EndOfLabel(raw).Some? {
      ColonIff(raw, EndOfLabel(raw).value + 1);
    }
  }

  method DestinationRange(rawNode: string, kind: Kind) returns (r: Result<Span, DestinationError>)
    ensures r == DestinationOf(rawNode, kind)
  {
    hide IsSpace, IndexOf, EndOfLabel;
    var endOfLabel := LabelEnd(rawNode);
    if endOfLabel.None? {
      return Failure(NoLabelEnd);
    }
    var start: nat;
    if kind.Definition? {
      var colon := IndexOf(rawNode, ":", endOfLabel.value + 1);
      if colon.None? {
        return Failure(NoSeparator);
      }
      start := SkipWhitespace(rawNode, colon.value + 1);
    } else {
      if endOfLabel.value + 1 >= |rawNode| || rawNode[endOfLabel.value + 1] != '(' {
        return Failure(NoInlineDestination);
      }
      start := SkipWhitespace(rawNode, endOfLabel.value + 2);
    }
    assert DestinationStart(rawNode, kind) == Success(start);
    hide DestinationStart;
    if start < |rawNode| && rawNode[start] == '<' {
      r := AngleRange(rawNode, start);
    } else {
      r := BareRange(rawNode, start);
    }
  }

  /** The loop over a destination in angle brackets. */
  method AngleRange(rawNode: string, start: nat) returns (r: Result<Span, DestinationError>)
    ensures
      var end := AngleEnd(rawNode, start + 1);
      r == if end.None? then Failure(NoAngleEnd) else Success(Span(start + 1, end.value))
  {
    var index := start + 1;
    while index < |rawNode|
      invariant AngleEnd(rawNode, start + 1) == AngleEnd(rawNode, index)
      decreases |rawNode| - index
    {
      if rawNode[index] == '\\' {
        index := index + 1;
      } else if rawNode[index] == '>' {
        return Success(Span(start + 1, index));
      }
      index := index + 1;
    }
    r := Failure(NoAngleEnd);
  }

  /** The loop over a bare destination. */
  method BareRange(rawNode: string, start: nat) returns (r: Result<Span, DestinationError>)
    ensures
      var end := Scan(rawNode, start, 0, DESTINATION);
      r == Success(Span(start, if end.None? then |rawNode| else end.value))
  {
    hide IsSpace;
    var depth: nat := 0;
    var index := start;
    while index < |rawNode|
      invariant Scan(rawNode, start, 0, DESTINATION) == Scan(rawNode, index, depth, DESTINATION)
      decreases |rawNode| - index
    {
      if rawNode[index] == '\\' {
        index := index + 1;
      } else if rawNode[index] == '(' {
        depth := depth + 1;
      } else if rawNode[index] == ')' {
        if depth == 0 {
          return Success(Span(start, index));
        }
        depth := depth - 1;
      } else if IsSpace(rawNode[index]) && depth == 0 {
        return Success(Span(start, index));
      }
      index := index + 1;
    }
    return Success(Span(start, |rawNode|));
  }

  // ---------------------------------------------------------------- what the range is

  /** A destination lies behind the label, so what is inside the label is never part of it. */
  lemma DestinationIsBehind(raw: string, kind: Kind)
    requires DestinationOf(raw, kind).Success?
    ensures EndOfLabel(raw).Some?
    ensures
      var r := DestinationOf(raw, kind).value;
      EndOfLabel(raw).value + 1 < r.start <= r.end <= |raw|
  {
    var labelEnd, start := EndOfLabel(raw).value, DestinationStart(raw, kind).value;
    if kind.Definition? {
      IndexOfFirst(raw, ":", labelEnd + 1);
    }
    assert labelEnd + 1 < start <= |raw|;
    hide DestinationStart, EndOfLabel, IndexOf;
    ScanInRange(raw, start, 0, DESTINATION);
  }

  lemma {:induction false} ScanInRange(s: string, index: nat, depth: nat, d: Delimiters)
    ensures Scan(s, index, depth, d).Some? ==> index <= Scan(s, index, depth, d).value < |s|
    decreases |s| - index
  {
    hide IsSpace;
    if index < |s| {
      ScanInRange(s, index + 1, depth, d);
      ScanInRange(s, index + 2, depth, d);
      ScanInRange(s, index + 1, depth + 1, d);
      if depth > 0 {
        ScanInRange(s, index + 1, depth - 1, d);
      }
    }
  }

  /** What stands between a label and its destination: the opening parenthesis, or text up to the first colon. */
  ghost predicate Connects(connector: string, kind: Kind) {
    if kind.Definition? then
      connector != "" && connector[|connector| - 1] == ':' && ':' !in connector[..|connector| - 1]
    else
      connector == "("
  }

  /** What may stand behind a bare destination. */
  ghost predicate EndsBare(dest: Body, tail: string) {
    && (tail == "" || Stops(tail[0], DESTINATION))
    && (dest == End && tail != "" ==> !IsSpace(tail[0]))
  }

  lemma StandsLast(a: string, b: string)
    ensures StandsAt(a + b, |a|, b)
  {
  }

  lemma StandsStill(a: string, b: string, at: nat, x: string)
    requires StandsAt(a, at, x)
    ensures StandsAt(a + b, at, x)
  {
    assert (a + b)[at..at + |x|] == a[at..at + |x|];
  }

  /** Skipping white space stops where the white space does. */
  lemma {:induction false} SkipsBlank(s: string, start: nat, blank: string)
    requires StandsAt(s, start, blank) && Blank(blank)
    requires start + |blank| < |s| ==> !IsSpace(s[start + |blank|])
    ensures SkipWhitespace(s, start) == start + |blank|
    decreases |blank|
  {
    hide IsSpace;
    if blank != "" {
      assert blank == [blank[0]] + blank[1..];
      StandsInTwo(s, start, [blank[0]], blank[1..]);
      StandsOne(s, start, blank[0]);
      assert blank[0] in blank;
      SkipsBlank(s, start + 1, blank[1..]);
    }
  }

  /** A link as it is written: something without brackets, a label, a connector, blanks, a destination, and the rest. */
  function Written(pre: string, text: string, connector: string, blank: string, dest: string, tail: string): string {
    pre + "[" + text + "]" + connector + blank + dest + tail
  }

  function WrittenStart(pre: string, text: string, connector: string, blank: string): nat {
    |pre| + 2 + |text| + |connector| + |blank|
  }

  /** Where the parts of a written link stand. */
  ghost predicate LaidOut(
    s: string, pre: string, text: string, connector: string, blank: string, dest: string, tail: string)
  {
    var start := WrittenStart(pre, text, connector, blank);
    && StandsAt(s, 0, pre) && StandsAt(s, |pre|, "[") && StandsAt(s, |pre| + 1, text)
    && StandsAt(s, |pre| + 1 + |text|, "]") && StandsAt(s, |pre| + 2 + |text|, connector)
    && StandsAt(s, start - |blank|, blank) && StandsAt(s, start, dest) && StandsAt(s, start + |dest|, tail)
    && |s| == start + |dest| + |tail|
  }

  lemma WrittenParts(pre: string, text: string, connector: string, blank: string, dest: string, tail: string)
    ensures LaidOut(Written(pre, text, connector, blank, dest, tail), pre, text, connector, blank, dest, tail)
  {
    hide StandsAt;
    var s, front := Written(pre, text, connector, blank, dest, tail), pre + "[" + text + "]";
    FrontParts(pre, text);
    RestParts(front, connector, blank, dest, tail);
    StandsWithin(s, front, 0, pre);
    StandsWithin(s, front, |pre|, "[");
    StandsWithin(s, front, |pre| + 1, text);
    StandsWithin(s, front, |pre| + 1 + |text|, "]");
  }

  lemma FrontParts(pre: string, l: string)
    ensures
      var front := pre + "[" + l + "]";
      && StandsAt(front, 0, pre) && StandsAt(front, |pre|, "[") && StandsAt(front, |pre| + 1, l)
      && StandsAt(front, |pre| + 1 + |l|, "]") && |front| == |pre| + 2 + |l|
  {
    StandsLast([], pre);
    assert [] + pre == pre;
    hide StandsAt;
    StandsLast(pre, "[");
    StandsLast(pre + "[", l);
    StandsLast(pre + "[" + l, "]");
    Extend(pre, "[", l, 0, pre);
    StandsStill(pre + "[" + l, "]", 0, pre);
    Extend(pre + "[", l, "]", |pre|, "[");
    StandsStill(pre + "[" + l, "]", |pre| + 1, l);
  }

  lemma RestParts(front: string, a: string, b: string, c: string, e: string)
    ensures
      var s := front + a + b + c + e;
      && StandsAt(s, 0, front) && StandsAt(s, |front|, a) && StandsAt(s, |front| + |a|, b)
      && StandsAt(s, |front| + |a| + |b|, c) && StandsAt(s, |front| + |a| + |b| + |c|, e)
      && |s| == |front| + |a| + |b| + |c| + |e|
  {
    StandsLast([], front);
    assert [] + front == front;
    hide StandsAt;
    var s1, s2 := front + a, front + a + b;
    StandsLast(front, a);
    StandsLast(s1, b);
    StandsLast(s2, c);
    StandsLast(s2 + c, e);
    Extend(front, a, b, 0, front);
    Extend(s2, c, e, 0, front);
    StandsStill(s1, b, |front|, a);
    Extend(s2, c, e, |front|, a);
    Extend(s2, c, e, |s1|, b);
    StandsStill(s2 + c, e, |s2|, c);
  }

  lemma StandsWithin(s: string, front: string, at: nat, x: string)
    requires StandsAt(s, 0, front) && StandsAt(front, at, x)
    ensures StandsAt(s, at, x)
  {
    assert front[at..at + |x|] == s[0..0 + |front|][at..at + |x|] == s[at..at + |x|];
  }

  lemma Extend(a: string, b: string, c: string, at: nat, x: string)
    requires StandsAt(a, at, x)
    ensures StandsAt(a + b, at, x) && StandsAt(a + b + c, at, x)
  {
    StandsStill(a, b, at, x);
    StandsStill(a + b, c, at, x);
  }

  lemma WrittenLabel(s: string, pre: string, text: Body)
    requires '[' !in pre && Proper(text, LABEL)
    requires StandsAt(s, 0, pre) && StandsAt(s, |pre|, "[") && StandsAt(s, |pre| + 1, Print(text, LABEL))
    requires StandsAt(s, |pre| + 1 + |Print(text, LABEL)|, "]")
    ensures EndOfLabel(s) == Some(|pre| + 1 + |Print(text, LABEL)|)
  {
    var end := |pre| + 1 + |Print(text, LABEL)|;
    assert s[|pre|] == '[' && s[end] == ']' && s[..|pre|] == s[0..0 + |pre|] == pre by {
      StandsOne(s, |pre|, '[');
      StandsOne(s, end, ']');
    }
    hide StandsAt, Print, Proper, EndOfLabel;
    assert Delimited(s, |pre| + 1, end, text, LABEL);
    assert Label(s, |pre|, end, text);
    EndOfLabelIff(s, end);
  }

  /** The connector leads to the place right behind it. */
  lemma WrittenConnector(s: string, end: nat, connector: string, kind: Kind)
    requires EndOfLabel(s) == Some(end) && StandsAt(s, end + 1, connector) && Connects(connector, kind)
    ensures DestinationStart(s, kind) == Success(SkipWhitespace(s, end + 1 + |connector|))
  {
    hide EndOfLabel, IsSpace, IndexOf, SkipWhitespace, StandsAt;
    if kind.Definition? {
      var mid := connector[..|connector| - 1];
      assert connector == mid + ":";
      ColonBehind(s, end + 1, mid);
    } else {
      StandsOne(s, end + 1, '(');
    }
  }

  lemma ColonBehind(s: string, from: nat, mid: string)
    requires StandsAt(s, from, mid + ":") && ':' !in mid
    ensures IndexOf(s, ":", from) == Some(from + |mid|)
  {
    StandsInTwo(s, from, mid, ":");
    StandsOne(s, from + |mid|, ':');
    assert s[from..from + |mid|] == mid;
    hide *;
    FirstColon(s, from, from + |mid|);
  }

  lemma FirstColon(s: string, from: nat, colon: nat)
    requires from <= colon < |s| && s[colon] == ':' && ':' !in s[from..colon]
    ensures IndexOf(s, ":", from) == Some(colon)
  {
    forall i | from <= i < colon ensures s[i] != ':' {
      assert s[i] == s[from..colon][i - from];
    }
    IndexOfFirst(s, ":", from);
    assert s[colon..colon + 1] == ":" && StartsAt(s, colon, ":");
    var found := IndexOf(s, ":", from).value;
    assert s[found..found + 1] == ":" && s[found] == s[found..found + 1][0];
  }

  /** The start of the range, behind label, connector and blanks. */
  lemma StartOfWritten(
    s: string, pre: string, text: Body, connector: string, kind: Kind, blank: string, dest: string, tail: string)
    requires '[' !in pre && Proper(text, LABEL) && Connects(connector, kind) && Blank(blank)
    requires LaidOut(s, pre, Print(text, LABEL), connector, blank, dest, tail)
    requires dest != "" ==> !IsSpace(dest[0])
    requires dest == "" && tail != "" ==> !IsSpace(tail[0])
    ensures DestinationStart(s, kind) == Success(WrittenStart(pre, Print(text, LABEL), connector, blank))
  {
    var start := WrittenStart(pre, Print(text, LABEL), connector, blank);
    hide Proper, StandsAt, Print, Connects, EndOfLabel, IsSpace, Blank, Scan, IndexOf, SkipWhitespace;
    FirstCharacter(s, start, dest, tail);
    WrittenLabel(s, pre, text);
    WrittenConnector(s, |pre| + 1 + |Print(text, LABEL)|, connector, kind);
    hide DestinationStart;
    SkipsBlank(s, start - |blank|, blank);
  }

  /** The end of the range, at the end of the destination. */
  lemma EndOfWritten(s: string, start: nat, kind: Kind, dest: Body, tail: string)
    requires DestinationStart(s, kind) == Success(start) && Proper(dest, DESTINATION) && EndsBare(dest, tail)
    requires StandsAt(s, start, Print(dest, DESTINATION)) && StandsAt(s, start + |Print(dest, DESTINATION)|, tail)
    requires |s| == start + |Print(dest, DESTINATION)| + |tail|
    requires Print(dest, DESTINATION) != "" ==> Print(dest, DESTINATION)[0] != '<'
    ensures DestinationOf(s, kind) == Success(Span(start, start + |Print(dest, DESTINATION)|))
  {
    var e := Print(dest, DESTINATION);
    hide StandsAt, Print, Proper, EndsBare, Valid, Unspaced, Stops, IsSpace, DestinationOf, DestinationStart, Scan;
    ProperBare(dest, tail);
    FirstCharacter(s, start, e, tail);
    BodyIsSkipped(s, start, 0, dest, DESTINATION);
    WrittenEnd(s, start + |e|, tail);
    StopIsNotAngle();
    BareIsScanned(s, start, kind);
  }

  lemma ProperBare(dest: Body, tail: string)
    requires Proper(dest, DESTINATION) && EndsBare(dest, tail)
    ensures Valid(dest, DESTINATION) && Unspaced(dest) && (tail == "" || Stops(tail[0], DESTINATION))
  {
  }

  lemma StopIsNotAngle()
    ensures !Stops('<', DESTINATION)
  {
  }

  lemma BareIsScanned(s: string, start: nat, kind: Kind)
    requires DestinationStart(s, kind) == Success(start) && (start < |s| ==> s[start] != '<')
    ensures
      var end := Scan(s, start, 0, DESTINATION);
      DestinationOf(s, kind) == Success(Span(start, if end.None? then |s| else end.value))
  {
    hide DestinationStart, Scan;
  }

  lemma BareDestination(
    pre: string, text: Body, connector: string, kind: Kind, blank: string, dest: Body, tail: string)
    requires '[' !in pre && Proper(text, LABEL) && Connects(connector, kind) && Blank(blank)
    requires Proper(dest, DESTINATION) && EndsBare(dest, tail)
    requires Print(dest, DESTINATION) != "" ==> Print(dest, DESTINATION)[0] != '<'
    ensures
      var words, e := Print(text, LABEL), Print(dest, DESTINATION);
      var start := WrittenStart(pre, words, connector, blank);
      DestinationOf(Written(pre, words, connector, blank, e, tail), kind) == Success(Span(start, start + |e|))
  {
    var l, e := Print(text, LABEL), Print(dest, DESTINATION);
    var s, start := Written(pre, l, connector, blank, e, tail), WrittenStart(pre, l, connector, blank);
    hide StandsAt, Print, Proper, IsSpace, Written, Connects, Blank, Scan, IndexOf, DestinationOf;
    FirstOf(dest);
    WrittenParts(pre, l, connector, blank, e, tail);
    assert StandsAt(s, start, e) && StandsAt(s, start + |e|, tail) && |s| == start + |e| + |tail|;
    assert e == "" && tail != "" ==> !IsSpace(tail[0]);
    hide *;
    StartOfWritten(s, pre, text, connector, kind, blank, e, tail);
    EndOfWritten(s, start, kind, dest, tail);
  }

  lemma FirstCharacter(s: string, start: nat, e: string, tail: string)
    requires StandsAt(s, start, e) && StandsAt(s, start + |e|, tail) && |s| == start + |e| + |tail|
    ensures e != "" ==> s[start] == e[0]
    ensures e == "" && tail != "" ==> s[start] == tail[0]
    ensures start < |s| <==> e != "" || tail != ""
  {
    if e != "" {
      assert s[start..start + |e|][0] == e[0];
    } else if tail != "" {
      assert s[start..start + |tail|][0] == tail[0];
    }
  }

  /** A destination does not begin with white space, and only an empty one prints nothing. */
  lemma FirstOf(dest: Body)
    requires Proper(dest, DESTINATION)
    ensures Print(dest, DESTINATION) != "" ==> !IsSpace(Print(dest, DESTINATION)[0])
    ensures Print(dest, DESTINATION) == "" <==> dest == End
  {
  }

  lemma WrittenEnd(s: string, end: nat, tail: string)
    requires StandsAt(s, end, tail) && |s| == end + |tail| && (tail == "" || Stops(tail[0], DESTINATION))
    ensures
      var e := Scan(s, end, 0, DESTINATION);
      (if e.None? then |s| else e.value) == end
  {
    hide IsSpace;
    if tail != "" {
      assert s[end..end + |tail|][0] == s[end];
    }
  }

  // ---------------------------------------------------------------- destinations in angle brackets

  /** Text without an unescaped closing angle bracket, as a body that nests nothing. */
  predicate Flat(b: Body) {
    match b
    case End => true
    case Plain(c, rest) => c != '\\' && c != '>' && Flat(rest)
    case Escaped(_, rest) => Flat(rest)
    case Nested(_, _) => false
  }

  /** The search stops exactly behind a text whose closing brackets are all escaped. */
  lemma {:induction false} AngleEndIff(s: string, index: nat, end: nat)
    ensures AngleEnd(s, index) == Some(end) <==>
      exists b ::
        Flat(b) && StandsAt(s, index, Print(b, LABEL)) && end == index + |Print(b, LABEL)| < |s| && s[end] == '>'
  {
    if AngleEnd(s, index) == Some(end) {
      var b := FlatBefore(s, index);
      assert StandsAt(s, index, Print(b, LABEL));
    }
    if b :| Flat(b) && StandsAt(s, index, Print(b, LABEL)) && end == index + |Print(b, LABEL)| < |s| && s[end] == '>' {
      hide StandsAt;
      FlatIsSkipped(s, index, b);
    }
  }

  lemma {:induction false} FlatBefore(s: string, index: nat) returns (b: Body)
    requires AngleEnd(s, index).Some?
    ensures Flat(b) && Print(b, LABEL) == s[index..AngleEnd(s, index).value]
    decreases |s| - index
  {
    var end := AngleEnd(s, index).value;
    if s[index] == '\\' {
      var rest := FlatBefore(s, index + 2);
      b := Escaped(s[index + 1], rest);
      assert s[index..end] == ['\\', s[index + 1]] + s[index + 2..end];
    } else if s[index] == '>' {
      b := End;
    } else {
      var rest := FlatBefore(s, index + 1);
      b := Plain(s[index], rest);
      assert s[index..end] == [s[index]] + s[index + 1..end];
    }
  }

  lemma {:induction false} FlatIsSkipped(s: string, index: nat, b: Body)
    requires Flat(b) && StandsAt(s, index, Print(b, LABEL))
    ensures AngleEnd(s, index) == AngleEnd(s, index + |Print(b, LABEL)|)
    decreases b
  {
    hide StandsAt;
    match b
    case End =>
    case Plain(c, rest) =>
      StandsInTwo(s, index, [c], Print(rest, LABEL));
      StandsOne(s, index, c);
      FlatIsSkipped(s, index + 1, rest);
    case Escaped(c, rest) =>
      StandsInTwo(s, index, ['\\', c], Print(rest, LABEL));
      assert ['\\'] + [c] == ['\\', c];
      StandsInTwo(s, index, ['\\'], [c]);
      StandsOne(s, index, '\\');
      FlatIsSkipped(s, index + 2, rest);
  }

  // ---------------------------------------------------------------- destinations as they are written

  datatype Target = Bare(body: Body) | InAngles(body: Body)

  function TargetText(t: Target): string {
    match t
    case Bare(body) => Print(body, DESTINATION)
    case InAngles(body) => Print(body, LABEL)
  }

  function TargetPrint(t: Target): string {
    match t
    case Bare(_) => TargetText(t)
    case InAngles(_) => "<" + TargetText(t) + ">"
  }

  /** What can be written in front of this rest: bare without an angle bracket first, or anything escaped in angles. */
  ghost predicate Writable(t: Target, tail: string) {
    match t
    case Bare(body) =>
      && Proper(body, DESTINATION) && EndsBare(body, tail)
      && (Print(body, DESTINATION) != "" ==> Print(body, DESTINATION)[0] != '<')
    case InAngles(body) => Flat(body)
  }

  lemma AngleIsFound(s: string, start: nat, kind: Kind, dest: Body)
    requires DestinationStart(s, kind) == Success(start) && Flat(dest)
    requires StandsAt(s, start, "<" + Print(dest, LABEL) + ">")
    ensures DestinationOf(s, kind) == Success(Span(start + 1, start + 1 + |Print(dest, LABEL)|))
  {
    hide StandsAt, Print, DestinationStart;
    var e := Print(dest, LABEL);
    StandsInTwo(s, start, "<" + e, ">");
    StandsInTwo(s, start, "<", e);
    StandsOne(s, start, '<');
    StandsOne(s, start + 1 + |e|, '>');
    FlatIsSkipped(s, start + 1, dest);
  }

  lemma AngleDestination(
    pre: string, text: Body, connector: string, kind: Kind, blank: string, dest: Body, tail: string)
    requires '[' !in pre && Proper(text, LABEL) && Connects(connector, kind) && Blank(blank) && Flat(dest)
    ensures
      var words, e := Print(text, LABEL), Print(dest, LABEL);
      var start := WrittenStart(pre, words, connector, blank) + 1;
      DestinationOf(Written(pre, words, connector, blank, "<" + e + ">", tail), kind)
        == Success(Span(start, start + |e|))
  {
    var words, e := Print(text, LABEL), "<" + Print(dest, LABEL) + ">";
    var s, start := Written(pre, words, connector, blank, e, tail), WrittenStart(pre, words, connector, blank);
    hide StandsAt, Print, Proper, IsSpace, Written, Connects, Blank, DestinationOf;
    WrittenParts(pre, words, connector, blank, e, tail);
    assert StandsAt(s, start, e);
    hide *;
    AngleFirst(Print(dest, LABEL));
    StartOfWritten(s, pre, text, connector, kind, blank, e, tail);
    AngleIsFound(s, start, kind, dest);
  }

  /**
   * The range is the destination that was written, whatever brackets, escapes and blanks the label and the
   * destination hold, and whether it is written bare or in angle brackets.
   */
  lemma WrittenDestination(
    pre: string, text: Body, connector: string, kind: Kind, blank: string, dest: Target, tail: string)
    requires '[' !in pre && Proper(text, LABEL) && Connects(connector, kind) && Blank(blank)
    requires Writable(dest, tail)
    ensures
      var words := Print(text, LABEL);
      var start := WrittenStart(pre, words, connector, blank) + if dest.InAngles? then 1 else 0;
      DestinationOf(Written(pre, words, connector, blank, TargetPrint(dest), tail), kind)
        == Success(Span(start, start + |TargetText(dest)|))
  {
    hide Print, Proper, Connects, Blank, Written, DestinationOf, EndsBare;
    match dest
    case Bare(body) =>
      BareDestination(pre, text, connector, kind, blank, body, tail);
    case InAngles(body) =>
      AngleDestination(pre, text, connector, kind, blank, body, tail);
  }

  lemma AngleFirst(text: string)
    ensures ("<" + text + ">")[0] == '<' && !IsSpace('<')
  {
  }
}
