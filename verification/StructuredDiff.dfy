/** The before-and-after card of a file edit: common head and tail, and the numbered lines between them. */
module StructuredDiff {
  import opened JsIntegers
  import opened Wrappers
  import opened TextLines

  datatype Mark = Context | Removed | Added

  datatype Segment = Segment(mark: Mark, number: nat, line: string)

  datatype Item = Item(oldText: Option<string>, newText: Option<string>)

  function TextOf(t: Option<string>): string {
    if t.Some? then t.value else ""
  }

  // ---------------------------------------------------------------- head and tail

  /** The end of the common head, searched from line `k` on. */
  function HeadFrom(was: seq<string>, now: seq<string>, k: nat): (n: nat)
    requires k <= |was| && k <= |now|
    ensures k <= n <= |was| && n <= |now|
    decreases |was| - k
  {
    if k < |was| && k < |now| && was[k] == now[k] then HeadFrom(was, now, k + 1) else k
  }

  /** The number of common lines at the start. */
  function Head(was: seq<string>, now: seq<string>): (n: nat)
    ensures n <= |was| && n <= |now|
  {
    HeadFrom(was, now, 0)
  }

  /** The length of the common tail, `k` lines of it known, without reaching into the head. */
  function TailFrom(was: seq<string>, now: seq<string>, k: nat): (n: nat)
    requires k <= |was| - Head(was, now) && k <= |now| - Head(was, now)
    ensures k <= n <= |was| - Head(was, now) && n <= |now| - Head(was, now)
    decreases |was| - k
  {
    var head := Head(was, now);
    if k < |was| - head && k < |now| - head && was[|was| - k - 1] == now[|now| - k - 1]
    then TailFrom(was, now, k + 1)
    else k
  }

  function Tail(was: seq<string>, now: seq<string>): (n: nat)
    ensures Head(was, now) + n <= |was| && Head(was, now) + n <= |now|
  {
    TailFrom(was, now, 0)
  }

  lemma {:induction false} HeadFromCommon(was: seq<string>, now: seq<string>, k: nat)
    requires k <= |was| && k <= |now| && was[..k] == now[..k]
    ensures
      var n := HeadFrom(was, now, k);
      && was[..n] == now[..n]
      && (n < |was| && n < |now| ==> was[n] != now[n])
    decreases |was| - k
  {
    if k < |was| && k < |now| && was[k] == now[k] {
      assert was[..k + 1] == was[..k] + [was[k]] && now[..k + 1] == now[..k] + [now[k]];
      HeadFromCommon(was, now, k + 1);
    }
  }

  lemma {:induction false} TailFromCommon(was: seq<string>, now: seq<string>, k: nat)
    requires k <= |was| - Head(was, now) && k <= |now| - Head(was, now)
    requires was[|was| - k..] == now[|now| - k..]
    ensures
      var n := TailFrom(was, now, k);
      && was[|was| - n..] == now[|now| - n..]
      && (n < |was| - Head(was, now) && n < |now| - Head(was, now) ==> was[|was| - n - 1] != now[|now| - n - 1])
    decreases |was| - k
  {
    hide Head;
    var head := Head(was, now);
    if k < |was| - head && k < |now| - head && was[|was| - k - 1] == now[|now| - k - 1] {
      OneMoreBelow(was, k);
      OneMoreBelow(now, k);
      TailFromCommon(was, now, k + 1);
    }
  }

  lemma OneMoreBelow(lines: seq<string>, k: nat)
    requires k < |lines|
    ensures lines[|lines| - k - 1..] == [lines[|lines| - k - 1]] + lines[|lines| - k..]
  {
  }

  /** Both texts are the same head, a middle of their own, and the same tail. */
  lemma Middles(was: seq<string>, now: seq<string>)
    returns (before: seq<string>, red: seq<string>, green: seq<string>, after: seq<string>)
    ensures was == before + red + after
    ensures now == before + green + after
    ensures |before| == Head(was, now) && |after| == Tail(was, now)
    ensures red == was[Head(was, now)..|was| - Tail(was, now)]
    ensures green == now[Head(was, now)..|now| - Tail(was, now)]
    ensures red != [] && green != [] ==> red[0] != green[0] && red[|red| - 1] != green[|green| - 1]
  {
    hide *;
    var p, s := Head(was, now), Tail(was, now);
    Ends(was, now);
    CutInThree(was, p, s);
    CutInThree(now, p, s);
    MiddleEnds(was, p, s);
    MiddleEnds(now, p, s);
    before, red, green, after := was[..p], was[p..|was| - s], now[p..|now| - s], was[|was| - s..];
  }

  lemma Ends(was: seq<string>, now: seq<string>)
    ensures
      var p, s := Head(was, now), Tail(was, now);
      && was[..p] == now[..p]
      && was[|was| - s..] == now[|now| - s..]
      && (p < |was| && p < |now| ==> was[p] != now[p])
      && (p + s < |was| && p + s < |now| ==> was[|was| - s - 1] != now[|now| - s - 1])
  {
    assert Head(was, now) == HeadFrom(was, now, 0) && Tail(was, now) == TailFrom(was, now, 0);
    assert was[..0] == now[..0] && was[|was| - 0..] == now[|now| - 0..];
    hide *;
    HeadFromCommon(was, now, 0);
    TailFromCommon(was, now, 0);
  }

  lemma MiddleEnds(lines: seq<string>, p: nat, s: nat)
    requires p + s <= |lines|
    ensures
      var middle := lines[p..|lines| - s];
      middle != [] ==> middle[0] == lines[p] && middle[|middle| - 1] == lines[|lines| - s - 1]
  {
  }

  lemma CutInThree(lines: seq<string>, p: nat, s: nat)
    requires p + s <= |lines|
    ensures lines == lines[..p] + lines[p..|lines| - s] + lines[|lines| - s..]
  {
  }

  function Numbered(mark: Mark, lines: seq<string>, first: nat): seq<Segment> {
    seq(|lines|, i requires 0 <= i < |lines| => Segment(mark, first + i, lines[i]))
  }

  lemma NumberedAt(mark: Mark, lines: seq<string>, first: nat)
    ensures |Numbered(mark, lines, first)| == |lines|
    ensures forall i :: 0 <= i < |lines| ==> Numbered(mark, lines, first)[i] == Segment(mark, first + i, lines[i])
  {
  }

  /** The last line of a head of `p` lines, and the first of a tail of `s` lines. */
  function Above(lines: seq<string>, p: nat): seq<Segment>
    requires p <= |lines|
  {
    if p > 0 then [Segment(Context, p, lines[p - 1])] else []
  }

  function Below(lines: seq<string>, s: nat): seq<Segment>
    requires s <= |lines|
  {
    if s > 0 then [Segment(Context, |lines| - s + 1, lines[|lines| - s])] else []
  }

  lemma NumberedSnoc(mark: Mark, lines: seq<string>, from: nat, to: nat, first: nat)
    requires from <= to < |lines|
    ensures Numbered(mark, lines[from..to + 1], first) ==
      Numbered(mark, lines[from..to], first) + [Segment(mark, first + to - from, lines[to])]
  {
  }

  /** The lines shown for one edit. */
  function Card(was: seq<string>, now: seq<string>): seq<Segment> {
    var p, s := Head(was, now), Tail(was, now);
    Above(was, p) + Numbered(Removed, was[p..|was| - s], p + 1) + Numbered(Added, now[p..|now| - s], p + 1)
      + Below(now, s)
  }

  function Cards(items: seq<Item>): seq<Segment> {
    if items == [] then []
    else
      var last := items[|items| - 1];
      Cards(items[..|items| - 1]) + Card(Lines(TextOf(last.oldText)), Lines(TextOf(last.newText)))
  }

  method CardOf(was: seq<string>, now: seq<string>) returns (segments: seq<Segment>)
    ensures segments == Card(was, now)
  {
    var prefix := 0;
    while prefix < |was| && prefix < |now| && was[prefix] == now[prefix]
      invariant prefix <= |was| && prefix <= |now|
      invariant Head(was, now) == HeadFrom(was, now, prefix)
    {
      prefix := prefix + 1;
    }
    assert prefix == Head(was, now);
    hide Head, HeadFrom;
    var suffix := 0;
    while suffix < |was| - prefix && suffix < |now| - prefix && was[|was| - suffix - 1] == now[|now| - suffix - 1]
      invariant suffix <= |was| - prefix && suffix <= |now| - prefix
      invariant Tail(was, now) == TailFrom(was, now, suffix)
    {
      suffix := suffix + 1;
    }
    assert suffix == Tail(was, now);
    hide Tail, TailFrom;
    segments := CardSegments(was, now, prefix, suffix);
  }

  /** The loops that write out the lines. */
  method CardSegments(was: seq<string>, now: seq<string>, prefix: nat, suffix: nat) returns (segments: seq<Segment>)
    requires prefix == Head(was, now) && suffix == Tail(was, now)
    ensures segments == Card(was, now)
  {
    hide Head, Tail, Numbered;
    segments := [];
    if prefix > 0 {
      segments := segments + [Segment(Context, prefix, was[prefix - 1])];
    }
    segments := PushLines(segments, Removed, was, prefix, |was| - suffix);
    segments := PushLines(segments, Added, now, prefix, |now| - suffix);
    if suffix > 0 {
      var index := |now| - suffix;
      segments := segments + [Segment(Context, index + 1, now[index])];
    }
  }

  method PushLines(segments0: seq<Segment>, mark: Mark, lines: seq<string>, from: nat, to: nat)
    returns (segments: seq<Segment>)
    requires from <= to <= |lines|
    ensures segments == segments0 + Numbered(mark, lines[from..to], from + 1)
  {
    segments := segments0;
    for index := from to to
      invariant segments == segments0 + Numbered(mark, lines[from..index], from + 1)
    {
      NumberedSnoc(mark, lines, from, index, from + 1);
      segments := segments + [Segment(mark, index + 1, lines[index])];
    }
  }

  method StructuredDiffSegments(items: seq<Item>) returns (segments: seq<Segment>)
    ensures segments == Cards(items)
  {
    hide Lines, TextOf, Card;
    segments := [];
    for k := 0 to |items|
      invariant segments == Cards(items[..k])
    {
      assert items[..k + 1][..k] == items[..k] && items[..k + 1][k] == items[k];
      var card := CardOf(Lines(TextOf(items[k].oldText)), Lines(TextOf(items[k].newText)));
      segments := segments + card;
    }
    assert items[..|items|] == items;
  }

  // ---------------------------------------------------------------- what the card means

  /** The segments with one mark. */
  function Shown(segments: seq<Segment>, mark: Mark): seq<Segment> {
    if segments == [] then []
    else (if segments[0].mark == mark then [segments[0]] else []) + Shown(segments[1..], mark)
  }

  /** Taking out the numbered lines, last first, so that the numbers stay those of the whole text. */
  function Delete(lines: seq<string>, segments: seq<Segment>): Option<seq<string>>
    decreases |segments|
  {
    if segments == [] then Some(lines)
    else
      var x := segments[|segments| - 1];
      if 1 <= x.number <= |lines| && lines[x.number - 1] == x.line then
        Delete(lines[..x.number - 1] + lines[x.number..], segments[..|segments| - 1])
      else None
  }

  /** Putting the numbered lines in, first first, so that each stands at its own number. */
  function PutIn(lines: seq<string>, segments: seq<Segment>): Option<seq<string>>
    decreases |segments|
  {
    if segments == [] then Some(lines)
    else
      var x := segments[0];
      if 1 <= x.number <= |lines| + 1 then
        PutIn(lines[..x.number - 1] + [x.line] + lines[x.number - 1..], segments[1..])
      else None
  }

  /** Following the card on a text: take out the lines of one mark, put in those of the other. */
  function Follow(lines: seq<string>, segments: seq<Segment>, out: Mark, into: Mark): Option<seq<string>> {
    var kept := Delete(lines, Shown(segments, out));
    if kept.None? then None else PutIn(kept.value, Shown(segments, into))
  }

  lemma {:induction false} ShownAppend(a: seq<Segment>, b: seq<Segment>, mark: Mark)
    ensures Shown(a + b, mark) == Shown(a, mark) + Shown(b, mark)
  {
    if a == [] {
      assert a + b == b;
    } else {
      assert (a + b)[1..] == a[1..] + b && (a + b)[0] == a[0];
      ShownAppend(a[1..], b, mark);
      var first := if a[0].mark == mark then [a[0]] else [];
      assert Shown(a + b, mark) == first + Shown(a[1..] + b, mark);
      assert Shown(a, mark) == first + Shown(a[1..], mark);
      hide *;
    }
  }

  lemma {:induction false} ShownAll(s: seq<Segment>, mark: Mark, shown: Mark)
    requires forall i :: 0 <= i < |s| ==> s[i].mark == mark
    ensures Shown(s, shown) == if shown == mark then s else []
  {
    if s != [] {
      ShownAll(s[1..], mark, shown);
    }
  }

  /** Which lines of the card are removed, and which are added. */
  lemma ShownCard(was: seq<string>, now: seq<string>)
    ensures
      var p, s := Head(was, now), Tail(was, now);
      && Shown(Card(was, now), Removed) == Numbered(Removed, was[p..|was| - s], p + 1)
      && Shown(Card(was, now), Added) == Numbered(Added, now[p..|now| - s], p + 1)
      && Shown(Card(was, now), Context) == Above(was, p) + Below(now, s)
  {
    var p, s := Head(was, now), Tail(was, now);
    var red, green := Numbered(Removed, was[p..|was| - s], p + 1), Numbered(Added, now[p..|now| - s], p + 1);
    NumberedAt(Removed, was[p..|was| - s], p + 1);
    NumberedAt(Added, now[p..|now| - s], p + 1);
    hide Head, Tail, Numbered;
    ShownInFour(Above(was, p), red, green, Below(now, s), Removed);
    ShownInFour(Above(was, p), red, green, Below(now, s), Added);
    ShownInFour(Above(was, p), red, green, Below(now, s), Context);
  }

  lemma ShownInFour(head: seq<Segment>, red: seq<Segment>, green: seq<Segment>, tail: seq<Segment>, mark: Mark)
    requires forall i :: 0 <= i < |head| ==> head[i].mark == Context
    requires forall i :: 0 <= i < |red| ==> red[i].mark == Removed
    requires forall i :: 0 <= i < |green| ==> green[i].mark == Added
    requires forall i :: 0 <= i < |tail| ==> tail[i].mark == Context
    ensures mark == Removed ==> Shown(head + red + green + tail, mark) == red
    ensures mark == Added ==> Shown(head + red + green + tail, mark) == green
    ensures mark == Context ==> Shown(head + red + green + tail, mark) == head + tail
  {
    hide Shown;
    ShownAppend(head + red + green, tail, mark);
    ShownAppend(head + red, green, mark);
    ShownAppend(head, red, mark);
    ShownAll(head, Context, mark);
    ShownAll(red, Removed, mark);
    ShownAll(green, Added, mark);
    ShownAll(tail, Context, mark);
  }

  lemma {:induction false} DeleteBlock(before: seq<string>, block: seq<string>, after: seq<string>, mark: Mark)
    ensures Delete(before + block + after, Numbered(mark, block, |before| + 1)) == Some(before + after)
  {
    var lines, segments := before + block + after, Numbered(mark, block, |before| + 1);
    if block == [] {
      assert lines == before + after;
    } else {
      var n := |block| - 1;
      assert segments[..n] == Numbered(mark, block[..n], |before| + 1);
      var x := segments[n];
      assert lines[x.number - 1] == block[n];
      assert lines[..x.number - 1] + lines[x.number..] == before + block[..n] + after;
      DeleteBlock(before, block[..n], after, mark);
    }
  }

  lemma {:induction false} PutInBlock(before: seq<string>, block: seq<string>, after: seq<string>, mark: Mark)
    ensures PutIn(before + after, Numbered(mark, block, |before| + 1)) == Some(before + block + after)
    decreases |block|
  {
    var lines, segments := before + after, Numbered(mark, block, |before| + 1);
    if block == [] {
      assert lines == before + block + after;
    } else {
      var more := before + [block[0]];
      assert segments[1..] == Numbered(mark, block[1..], |more| + 1);
      hide Numbered;
      PutOne(before, block, after);
      PutInBlock(more, block[1..], after, mark);
    }
  }

  lemma PutOne(before: seq<string>, block: seq<string>, after: seq<string>)
    requires block != []
    ensures (before + after)[..|before|] + [block[0]] + (before + after)[|before|..] == before + [block[0]] + after
    ensures before + [block[0]] + block[1..] + after == before + block + after
  {
    assert (before + after)[..|before|] == before && (before + after)[|before|..] == after;
    assert [block[0]] + block[1..] == block;
  }

  /**
   * The card can be followed both ways by its numbers alone: taking out the removed lines and putting in
   * the added ones turns the old text into the new one, and the reverse turns it back.
   */
  lemma CardTurnsOldIntoNew(oldText: string, newText: string)
    ensures
      var card := Card(Lines(oldText), Lines(newText));
      var there, back := Follow(Lines(oldText), card, Removed, Added), Follow(Lines(newText), card, Added, Removed);
      && there.Some? && Join(there.value) == newText
      && back.Some? && Join(back.value) == oldText
  {
    var was, now := Lines(oldText), Lines(newText);
    hide Lines, Card, Head, Tail, Delete, PutIn, Numbered, Join;
    var before, red, green, after := Middles(was, now);
    ShownCard(was, now);
    DeleteBlock(before, red, after, Removed);
    PutInBlock(before, green, after, Added);
    DeleteBlock(before, green, after, Added);
    PutInBlock(before, red, after, Removed);
    JoinLines(oldText);
    JoinLines(newText);
  }

  /** An absent text counts as an empty one. */
  ghost predicate IsText(t: Option<string>, text: string) {
    t == Some(text) || (t == None && text == "")
  }

  /** One edit's part of a card: followed by its numbers it turns either text into the other. */
  ghost predicate Edits(part: seq<Segment>, item: Item) {
    forall oldText, newText :: IsText(item.oldText, oldText) && IsText(item.newText, newText) ==>
      var there, back := Follow(Lines(oldText), part, Removed, Added), Follow(Lines(newText), part, Added, Removed);
      && there.Some? && Join(there.value) == newText
      && back.Some? && Join(back.value) == oldText
  }

  function Concat(parts: seq<seq<Segment>>): seq<Segment> {
    if parts == [] then [] else Concat(parts[..|parts| - 1]) + parts[|parts| - 1]
  }

  /** The whole card is made of one part for each item, in order, and each part edits its own item's texts. */
  lemma {:induction false} CardsEditItems(items: seq<Item>) returns (parts: seq<seq<Segment>>)
    ensures |parts| == |items| && Cards(items) == Concat(parts)
    ensures forall k :: 0 <= k < |items| ==> Edits(parts[k], items[k])
  {
    hide Edits, TextOf, Lines, Card;
    parts := [];
    if items != [] {
      var n := |items| - 1;
      var front := CardsEditItems(items[..n]);
      CardEdits(items[n]);
      parts := front + [Card(Lines(TextOf(items[n].oldText)), Lines(TextOf(items[n].newText)))];
      assert parts[..n] == front;
    }
  }

  lemma CardEdits(item: Item)
    ensures Edits(Card(Lines(TextOf(item.oldText)), Lines(TextOf(item.newText))), item)
  {
    hide Follow, Lines, Join, Card;
    CardTurnsOldIntoNew(TextOf(item.oldText), TextOf(item.newText));
  }

  /** The order of the marks on a card: a line above, removed lines, added lines, a line below. */
  ghost predicate InOrder(above: seq<Segment>, red: seq<Segment>, green: seq<Segment>, below: seq<Segment>) {
    && |above| <= 1 && |below| <= 1
    && (forall x :: x in above + below ==> x.mark == Context)
    && (forall x :: x in red ==> x.mark == Removed)
    && (forall x :: x in green ==> x.mark == Added)
  }

  /** The line stands in the text at its number. */
  ghost predicate StandsIn(x: Segment, lines: seq<string>) {
    1 <= x.number <= |lines| && lines[x.number - 1] == x.line
  }

  /**
   * What a card shows: removed lines stand in the old text at their numbers, all others in the new one. The
   * line above stands right in front of the first change, the line below right behind the last added line;
   * they are missing only where the text begins or ends.
   */
  lemma CardShows(was: seq<string>, now: seq<string>)
    returns (above: seq<Segment>, red: seq<Segment>, green: seq<Segment>, below: seq<Segment>)
    ensures Card(was, now) == above + red + green + below && InOrder(above, red, green, below)
    ensures forall x :: x in red ==> StandsIn(x, was)
    ensures forall x :: x in above + green + below ==> StandsIn(x, now)
    ensures
      var start := if above == [] then 0 else above[0].number;
      && (forall i :: 0 <= i < |red| ==> red[i].number == start + 1 + i)
      && (forall i :: 0 <= i < |green| ==> green[i].number == start + 1 + i)
      && (below == [] ==> start + |green| == |now| && start + |red| == |was|)
      && (below != [] ==> below[0].number == start + |green| + 1)
  {
    hide *;
    var p, s := Head(was, now), Tail(was, now);
    above, red := Above(was, p), Numbered(Removed, was[p..|was| - s], p + 1);
    green, below := Numbered(Added, now[p..|now| - s], p + 1), Below(now, s);
    Ends(was, now);
    CardInFour(was, now);
    EndsOfCard(was, now, p, s);
    MiddleOfCard(Removed, was, p, |was| - s);
    MiddleOfCard(Added, now, p, |now| - s);
    assert InOrder(above, red, green, below) by {
      OrderOfMarks(above, red, green, below);
    }
    forall x | x in above + green + below ensures StandsIn(x, now) {
      assert x in above || x in green || x in below;
    }
  }

  lemma CardInFour(was: seq<string>, now: seq<string>)
    ensures
      var p, s := Head(was, now), Tail(was, now);
      Card(was, now) ==
        Above(was, p) + Numbered(Removed, was[p..|was| - s], p + 1) + Numbered(Added, now[p..|now| - s], p + 1)
          + Below(now, s)
  {
    hide Head, Tail, Numbered;
  }

  lemma OrderOfMarks(above: seq<Segment>, red: seq<Segment>, green: seq<Segment>, below: seq<Segment>)
    requires |above| <= 1 && |below| <= 1
    requires (forall x :: x in above ==> x.mark == Context) && (forall x :: x in below ==> x.mark == Context)
    requires (forall x :: x in red ==> x.mark == Removed) && (forall x :: x in green ==> x.mark == Added)
    ensures InOrder(above, red, green, below)
  {
  }

  lemma EndsOfCard(was: seq<string>, now: seq<string>, p: nat, s: nat)
    requires p + s <= |was| && p + s <= |now| && was[..p] == now[..p]
    ensures
      var above, below := Above(was, p), Below(now, s);
      && |above| <= 1 && |below| <= 1
      && (forall x :: x in above ==> x.mark == Context && StandsIn(x, now))
      && (forall x :: x in below ==> x.mark == Context && StandsIn(x, now))
      && (if above == [] then p == 0 else above[0].number == p)
      && (if below == [] then s == 0 else below[0].number == |now| - s + 1)
  {
    if p > 0 {
      assert was[p - 1] == was[..p][p - 1] == now[..p][p - 1];
    }
  }

  lemma MiddleOfCard(mark: Mark, lines: seq<string>, from: nat, to: nat)
    requires from <= to <= |lines|
    ensures
      var middle := Numbered(mark, lines[from..to], from + 1);
      && |middle| == to - from
      && (forall i :: 0 <= i < |middle| ==> middle[i].number == from + 1 + i)
      && forall x :: x in middle ==> x.mark == mark && StandsIn(x, lines)
  {
  }

  /** The context lines are common lines: the last of the head and the first of the tail, numbered in the new text. */
  lemma ContextIsCommon(was: seq<string>, now: seq<string>)
    ensures
      var p, s := Head(was, now), Tail(was, now);
      && Shown(Card(was, now), Context) == Above(now, p) + Below(now, s)
      && Above(now, p) == Above(was, p)
      && (s > 0 ==> now[|now| - s] == was[|was| - s])
  {
    hide Card, Head, Tail, Shown;
    ShownCard(was, now);
    var before, red, green, after := Middles(was, now);
    SameEnds(before, red, green, after);
  }

  lemma SameEnds(before: seq<string>, red: seq<string>, green: seq<string>, after: seq<string>)
    ensures
      var was, now := before + red + after, before + green + after;
      && (|before| > 0 ==> was[|before| - 1] == now[|before| - 1])
      && (|after| > 0 ==> was[|was| - |after|] == now[|now| - |after|])
  {
  }

  // ---------------------------------------------------------------- nothing smaller would do

  lemma {:induction false} HeadIsLongest(was: seq<string>, now: seq<string>, n: nat, k: nat)
    requires k <= n <= |was| && n <= |now| && was[..n] == now[..n]
    ensures HeadFrom(was, now, k) >= n
    decreases |was| - k
  {
    if k < n {
      assert was[k] == was[..n][k] == now[..n][k];
      HeadIsLongest(was, now, n, k + 1);
    }
  }

  lemma {:induction false} TailIsLongest(was: seq<string>, now: seq<string>, n: nat, k: nat)
    requires k <= n <= |was| - Head(was, now) && n <= |now| - Head(was, now)
    requires was[|was| - n..] == now[|now| - n..]
    ensures TailFrom(was, now, k) >= n
    decreases |was| - k
  {
    hide Head;
    if k < n {
      assert was[|was| - k - 1] == was[|was| - n..][n - k - 1] == now[|now| - n..][n - k - 1];
      TailIsLongest(was, now, n, k + 1);
    }
  }

  /**
   * Every other way to turn the old lines into the new ones by replacing one block removes at least as
   * many lines and adds at least as many.
   */
  lemma NoSmallerReplacement(before: seq<string>, red: seq<string>, green: seq<string>, after: seq<string>)
    ensures
      var was, now := before + red + after, before + green + after;
      |before| + |after| <= Head(was, now) + Tail(was, now)
  {
    var was, now := before + red + after, before + green + after;
    assert was[..|before|] == before && now[..|before|] == before;
    HeadIsLongest(was, now, |before|, 0);
    var p := Head(was, now);
    var n := Min(|after|, Min(|was| - p, |now| - p));
    assert was[|was| - n..] == after[|after| - n..] && now[|now| - n..] == after[|after| - n..];
    TailIsLongest(was, now, n, 0);
  }

  /**
   * The removed and the added lines, when there are both, differ in their first and in their last line;
   * there are neither exactly when nothing changed.
   */
  lemma ChangesAreTight(was: seq<string>, now: seq<string>)
    ensures
      var red, green := Shown(Card(was, now), Removed), Shown(Card(was, now), Added);
      && (red != [] && green != [] ==>
            red[0].line != green[0].line && red[|red| - 1].line != green[|green| - 1].line)
      && (red == [] && green == [] <==> was == now)
  {
    hide Card, Head, Tail, Shown;
    var before, red, green, after := Middles(was, now);
    ShownCard(was, now);
    if was == now {
      assert was + [] + [] == was;
      NoSmallerReplacement(was, [], [], []);
    }
  }
}
