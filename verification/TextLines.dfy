/** Text: white space, searching, and lines. */
module TextLines {
  import opened Wrappers

  predicate IsSpace(c: char) {
    c in " \t\n\r\U{0b}\U{0c}\U{a0}\U{1680}\U{2028}\U{2029}\U{202f}\U{205f}\U{3000}\U{feff}"
    || '\U{2000}' <= c <= '\U{200a}'
  }

  /** The white space of the language, by code points. */
  lemma SpaceIff(c: char)
    ensures IsSpace(c) <==>
      || 9 <= c as int <= 13 || c as int == 32 || c as int == 0xa0 || c as int == 0x1680
      || 0x2000 <= c as int <= 0x200a || c as int == 0x2028 || c as int == 0x2029 || c as int == 0x202f
      || c as int == 0x205f || c as int == 0x3000 || c as int == 0xfeff
  {
  }

  predicate StartsAt(s: string, i: nat, word: string) {
    i + |word| <= |s| && s[i..i + |word|] == word
  }

  function IndexOf(s: string, word: string, from: nat): Option<nat>
    decreases |s| - from
  {
    if from >= |s| then None
    else if StartsAt(s, from, word) then Some(from)
    else IndexOf(s, word, from + 1)
  }

  lemma {:induction false} IndexOfFirst(s: string, word: string, from: nat)
    ensures
      match IndexOf(s, word, from)
      case None => forall i {:trigger StartsAt(s, i, word)} :: from <= i < |s| ==> !StartsAt(s, i, word)
      case Some(k) =>
        && from <= k < |s| && StartsAt(s, k, word)
        && forall i {:trigger StartsAt(s, i, word)} :: from <= i < k ==> !StartsAt(s, i, word)
    decreases |s| - from
  {
    if from < |s| && !StartsAt(s, from, word) {
      hide StartsAt;
      IndexOfFirst(s, word, from + 1);
    }
  }

  lemma MarkFits(s: string, i: nat, word: string)
    requires StartsAt(s, i, word)
    ensures i + |word| <= |s|
  {
  }

  function TrimStart(s: string): string {
    if s != "" && IsSpace(s[0]) then TrimStart(s[1..]) else s
  }

  function TrimEnd(s: string): string {
    if s != "" && IsSpace(s[|s| - 1]) then TrimEnd(s[..|s| - 1]) else s
  }

  function Trim(s: string): string {
    TrimEnd(TrimStart(s))
  }

  predicate Blank(s: string) {
    forall c :: c in s ==> IsSpace(c)
  }

  lemma {:induction false} TrimStartBlank(s: string)
    ensures Blank(TrimStart(s)) <==> Blank(s)
  {
    hide IsSpace;
    if s != "" && IsSpace(s[0]) {
      TrimStartBlank(s[1..]);
      assert s == [s[0]] + s[1..];
    }
  }

  lemma {:induction false} TrimEndBlank(s: string)
    ensures TrimEnd(s) == "" <==> Blank(s)
  {
    hide IsSpace;
    if s != "" && IsSpace(s[|s| - 1]) {
      TrimEndBlank(s[..|s| - 1]);
      assert s == s[..|s| - 1] + [s[|s| - 1]];
    }
  }

  /** Trimming leaves nothing exactly of a text of white space. */
  lemma TrimIsEmptyIff(s: string)
    ensures Trim(s) == "" <==> Blank(s)
  {
    hide Blank;
    TrimStartBlank(s);
    TrimEndBlank(TrimStart(s));
  }

  function LineLength(text: string): (n: nat)
    ensures n <= |text| && '\n' !in text[..n]
    ensures n < |text| ==> text[n] == '\n'
  {
    if text == "" || text[0] == '\n' then 0 else 1 + LineLength(text[1..])
  }

  /** Splitting at every newline; the empty text is one empty line. */
  function Lines(text: string): (lines: seq<string>)
    ensures lines != []
  {
    var n := LineLength(text);
    if n == |text| then [text] else [text[..n]] + Lines(text[n + 1..])
  }

  function Join(lines: seq<string>): string {
    if lines == [] then ""
    else if |lines| == 1 then lines[0]
    else lines[0] + "\n" + Join(lines[1..])
  }

  lemma {:induction false} LinesHoldNoNewline(text: string, i: nat)
    requires i < |Lines(text)|
    ensures '\n' !in Lines(text)[i]
  {
    if i > 0 {
      LinesHoldNoNewline(text[LineLength(text) + 1..], i - 1);
    }
  }

  lemma {:induction false} JoinLines(text: string)
    ensures Join(Lines(text)) == text
  {
    hide LineLength;
    var n := LineLength(text);
    if n < |text| {
      var rest := Lines(text[n + 1..]);
      JoinLines(text[n + 1..]);
      assert Lines(text) == [text[..n]] + rest && ([text[..n]] + rest)[1..] == rest;
      assert Join([text[..n]] + rest) == text[..n] + "\n" + Join(rest);
      hide *;
      assert text[n..n + 1] == "\n";
      assert text == text[..n] + text[n..n + 1] + text[n + 1..];
    }
  }

  /** Where a line starts, counting one newline after every line before it. */
  function Offset(lines: seq<string>, k: nat): nat
    requires k <= |lines|
  {
    if k == 0 then 0 else Offset(lines, k - 1) + |lines[k - 1]| + 1
  }

  lemma {:induction false} OffsetTail(lines: seq<string>, k: nat)
    requires 0 < k <= |lines|
    ensures Offset(lines, k) == |lines[0]| + 1 + Offset(lines[1..], k - 1)
  {
    if k > 1 {
      OffsetTail(lines, k - 1);
    }
  }

  /** Every line is the text at its offset. */
  lemma {:induction false} LineAtOffset(text: string, k: nat)
    requires k < |Lines(text)|
    ensures Offset(Lines(text), k) + |Lines(text)[k]| <= |text|
    ensures text[Offset(Lines(text), k)..][..|Lines(text)[k]|] == Lines(text)[k]
  {
    var n := LineLength(text);
    if k > 0 {
      var rest := text[n + 1..];
      assert Lines(text) == [text[..n]] + Lines(rest);
      hide Lines, Offset;
      LineAtOffset(rest, k - 1);
      OffsetTail(Lines(text), k);
      assert Lines(text)[1..] == Lines(rest) && Lines(text)[k] == Lines(rest)[k - 1];
      assert text[Offset(Lines(text), k)..] == rest[Offset(Lines(rest), k - 1)..];
    }
  }
}
