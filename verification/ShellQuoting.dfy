/** Printing a command line for copying into a shell, and reading it back the way a shell does. */
module ShellQuoting {
  import opened Wrappers

  // ---------------------------------------------------------------- the printer

  /** The characters of the pattern `[\w./:@=+-]`. */
  predicate Safe(c: char) {
    || 'a' <= c <= 'z' || 'A' <= c <= 'Z' || '0' <= c <= '9'
    || c in ['_', '.', '/', ':', '@', '=', '+', '-']
  }

  predicate AllSafe(s: string) {
    forall i :: 0 <= i < |s| ==> Safe(s[i])
  }

  /** Every single quote replaced by one that is closed, double-quoted and opened again. */
  function Escape(s: string): string {
    if s == [] then ""
    else (if s[0] == '\'' then "'\"'\"'" else [s[0]]) + Escape(s[1..])
  }

  function QuoteShellArgument(value: string): string {
    if value != "" && AllSafe(value) then value else "'" + Escape(value) + "'"
  }

  function JoinQuoted(words: seq<string>): string {
    if words == [] then ""
    else if |words| == 1 then QuoteShellArgument(words[0])
    else QuoteShellArgument(words[0]) + " " + JoinQuoted(words[1..])
  }

  function FormatCopyableCommand(command: string, args: seq<string>): string {
    JoinQuoted([command] + args)
  }

  /** An argument is printed as it is exactly when it is not empty and no character needs quoting. */
  lemma PlainIff(value: string)
    ensures QuoteShellArgument(value) == value <==>
      value != "" && forall c :: c in value ==>
        || 'a' <= c <= 'z' || 'A' <= c <= 'Z' || '0' <= c <= '9' || c == '_'
        || c == '.' || c == '/' || c == ':' || c == '@' || c == '=' || c == '+' || c == '-'
    ensures QuoteShellArgument(value) != value ==> exists inner :: QuoteShellArgument(value) == "'" + inner + "'"
  {
    assert AllSafe(value) <==> forall c :: c in value ==> Safe(c) by {
      forall i | 0 <= i < |value| ensures value[i] in value {
      }
    }
    if !(value != "" && AllSafe(value)) {
      EscapeGrows(value);
      assert |"'" + Escape(value) + "'"| >= |value| + 2;
    }
  }

  lemma {:induction false} EscapeGrows(s: string)
    ensures |Escape(s)| >= |s|
  {
    if s != [] {
      EscapeGrows(s[1..]);
    }
  }

  // ---------------------------------------------------------------- the reader

  /** Quoting states of section 2.2 (Quoting) of the POSIX.1-2017 Shell Command Language. */
  datatype Mode = Plain | Single | Double

  /** Unquoted characters that would mean something other than themselves. */
  predicate Special(c: char) {
    c in ['|', '&', ';', '<', '>', '(', ')', '$', '`', '\n', '*', '?', '[', '#', '~', '%']
  }

  function WordSoFar(word: Option<string>): string {
    match word case None => "" case Some(w) => w
  }

  function Prepend(w: string, words: Option<seq<string>>): Option<seq<string>> {
    match words case None => None case Some(ws) => Some([w] + ws)
  }

  /**
   * The words of a command line, none if it ends inside a quotation or holds a character with a
   * special meaning. `word` is the word being read, if one has begun.
   */
  function Lex(s: string, mode: Mode, word: Option<string>): Option<seq<string>>
    decreases |s|
  {
    if s == [] then
      if mode != Plain then None else match word case None => Some([]) case Some(w) => Some([w])
    else
      var c, rest, w := s[0], s[1..], WordSoFar(word);
      match mode
      case Plain =>
        if c == ' ' || c == '\t' then
          if word.None? then Lex(rest, Plain, None) else Prepend(w, Lex(rest, Plain, None))
        else if c == '\'' then Lex(rest, Single, Some(w))
        else if c == '"' then Lex(rest, Double, Some(w))
        else if c == '\\' then
          if rest == [] then None
          else if rest[0] == '\n' then Lex(rest[1..], Plain, word)
          else Lex(rest[1..], Plain, Some(w + [rest[0]]))
        else if Special(c) then None
        else Lex(rest, Plain, Some(w + [c]))
      case Single =>
        if c == '\'' then Lex(rest, Plain, Some(w)) else Lex(rest, Single, Some(w + [c]))
      case Double =>
        if c == '"' then Lex(rest, Plain, Some(w))
        else if c == '$' || c == '`' then None
        else if c == '\\' && rest != [] && rest[0] in ['$', '`', '"', '\\'] then
          Lex(rest[1..], Double, Some(w + [rest[0]]))
        else if c == '\\' && rest != [] && rest[0] == '\n' then Lex(rest[1..], Double, Some(w))
        else Lex(rest, Double, Some(w + [c]))
  }

  // ---------------------------------------------------------------- the round trip

  lemma LexSafeChar(c: char, rest: string, word: Option<string>)
    requires Safe(c)
    ensures Lex([c] + rest, Plain, word) == Lex(rest, Plain, Some(WordSoFar(word) + [c]))
  {
    SafeIsOrdinary(c);
    hide Safe, Special;
    assert ([c] + rest)[1..] == rest;
  }

  lemma SafeIsOrdinary(c: char)
    requires Safe(c)
    ensures c != ' ' && c != '\t' && c != '\'' && c != '"' && c != '\\' && !Special(c)
  {
  }

  lemma {:induction false} LexSafe(s: string, rest: string, w: string)
    requires AllSafe(s)
    ensures Lex(s + rest, Plain, Some(w)) == Lex(rest, Plain, Some(w + s))
    decreases |s|
  {
    if s == [] {
      assert s + rest == rest && w + s == w;
    } else {
      assert Safe(s[0]) && AllSafe(s[1..]);
      hide Safe, AllSafe, Lex;
      LexSafeChar(s[0], s[1..] + rest, Some(w));
      LexSafe(s[1..], rest, w + [s[0]]);
      MoveOne(s, rest, w);
    }
  }

  lemma MoveOne(s: string, rest: string, w: string)
    requires s != []
    ensures s + rest == [s[0]] + (s[1..] + rest)
    ensures w + s == w + [s[0]] + s[1..]
  {
  }

  lemma LexPunctuation(rest: string, w: string)
    ensures Lex("'" + rest, Plain, None) == Lex(rest, Single, Some(""))
    ensures Lex(" " + rest, Plain, Some(w)) == Prepend(w, Lex(rest, Plain, None))
    ensures Lex("", Plain, Some(w)) == Some([w])
  {
    assert ("'" + rest)[1..] == rest && (" " + rest)[1..] == rest;
  }

  /** A single quote inside a quoted argument: out of the quotation, in and out of another, back in. */
  lemma LexQuote(rest: string, w: string)
    ensures Lex("'\"'\"'" + rest, Single, Some(w)) == Lex(rest, Single, Some(w + ['\'']))
  {
    var a := "'\"'\"'" + rest;
    assert a[1..] == "\"'\"'" + rest;
    assert a[1..][1..] == "'\"'" + rest;
    assert a[1..][1..][1..] == "\"'" + rest;
    assert a[1..][1..][1..][1..] == "'" + rest;
    assert a[1..][1..][1..][1..][1..] == rest;
    assert Lex("'" + rest, Plain, Some(w + ['\''])) == Lex(rest, Single, Some(w + ['\'']));
    assert Lex("\"'" + rest, Double, Some(w + ['\''])) == Lex("'" + rest, Plain, Some(w + ['\'']));
    assert Lex("'\"'" + rest, Double, Some(w)) == Lex("\"'" + rest, Double, Some(w + ['\'']));
    assert Lex("\"'\"'" + rest, Plain, Some(w)) == Lex("'\"'" + rest, Double, Some(w));
  }

  lemma {:induction false} LexEscaped(s: string, rest: string, w: string)
    ensures Lex(Escape(s) + "'" + rest, Single, Some(w)) == Lex(rest, Plain, Some(w + s))
    decreases |s|
  {
    hide Safe, Special;
    var all := Escape(s) + "'" + rest;
    if s == [] {
      assert all[1..] == rest && w + s == w;
    } else {
      var tail := Escape(s[1..]) + "'" + rest;
      LexEscaped(s[1..], rest, w + [s[0]]);
      assert w + s == (w + [s[0]]) + s[1..];
      if s[0] == '\'' {
        assert all == "'\"'\"'" + tail;
        LexQuote(tail, w);
      } else {
        assert all == [s[0]] + tail && all[1..] == tail;
      }
    }
  }

  /** A printed argument, followed by anything, reads as the argument. */
  lemma LexArgument(value: string, rest: string)
    ensures Lex(QuoteShellArgument(value) + rest, Plain, None) == Lex(rest, Plain, Some(value))
  {
    hide Lex, Safe;
    if value != "" && AllSafe(value) {
      LexBare(value, rest);
    } else {
      assert QuoteShellArgument(value) == "'" + Escape(value) + "'";
      LexQuoted(value, rest);
    }
  }

  lemma LexBare(value: string, rest: string)
    requires value != "" && AllSafe(value)
    ensures Lex(value + rest, Plain, None) == Lex(rest, Plain, Some(value))
  {
    hide Lex, Safe;
    assert Safe(value[0]) && AllSafe(value[1..]);
    LexSafeChar(value[0], value[1..] + rest, None);
    LexSafe(value[1..], rest, [value[0]]);
    hide AllSafe;
    assert value + rest == [value[0]] + (value[1..] + rest);
    assert "" + [value[0]] == [value[0]] && [value[0]] + value[1..] == value;
  }

  lemma LexQuoted(value: string, rest: string)
    ensures Lex("'" + Escape(value) + "'" + rest, Plain, None) == Lex(rest, Plain, Some(value))
  {
    hide Lex, Escape, Safe, AllSafe;
    var tail := Escape(value) + "'" + rest;
    assert "'" + Escape(value) + "'" + rest == "'" + tail;
    LexPunctuation(tail, "");
    LexEscaped(value, rest, "");
    assert "" + value == value;
  }

  lemma {:induction false} LexJoined(words: seq<string>)
    requires words != []
    ensures Lex(JoinQuoted(words), Plain, None) == Some(words)
  {
    hide Lex, QuoteShellArgument;
    if |words| == 1 {
      LexArgument(words[0], "");
      LexPunctuation("", words[0]);
      assert QuoteShellArgument(words[0]) + "" == QuoteShellArgument(words[0]);
      assert words == [words[0]];
    } else {
      var tail := JoinQuoted(words[1..]);
      LexJoined(words[1..]);
      LexArgument(words[0], " " + tail);
      LexPunctuation(tail, words[0]);
      assert QuoteShellArgument(words[0]) + " " + tail == QuoteShellArgument(words[0]) + (" " + tail);
      assert words == [words[0]] + words[1..];
    }
  }

  /** Reading a printed command line gives the command and its arguments, whatever characters they hold. */
  lemma CommandRoundTrip(command: string, args: seq<string>)
    ensures Lex(FormatCopyableCommand(command, args), Plain, None) == Some([command] + args)
  {
    LexJoined([command] + args);
  }

  /** So different command lines never print the same. */
  lemma CommandsPrintDifferently(command: string, args: seq<string>, command': string, args': seq<string>)
    requires FormatCopyableCommand(command, args) == FormatCopyableCommand(command', args')
    ensures command == command' && args == args'
  {
    CommandRoundTrip(command, args);
    CommandRoundTrip(command', args');
    assert ([command] + args)[1..] == args && ([command'] + args')[1..] == args';
    assert ([command] + args)[0] == command && ([command'] + args')[0] == command';
  }
}
