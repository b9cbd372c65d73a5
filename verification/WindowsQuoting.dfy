/**
 The Windows form of `quote_command_argument` (`crates/runonmine-connectors/src/openai.rs`) and
 the reader it is written for: the argument parsing rules of the Microsoft C runtime, which read
 the program name differently from the arguments after it.
 */
module WindowsQuoting {
  import opened CommandLine
  import opened Common

  // ---- Quoting -------------------------------------------------------------------------------------------

  predicate NeedsNoQuotes(argument: string) {
    argument != "" && forall i | 0 <= i < |argument| :: !Whitespace(argument[i]) && argument[i] != '\"'
  }

  function Slashes(n: nat): (r: string)
    ensures |r| == n && forall i | 0 <= i < n :: r[i] == '\\'
  {
    seq(n, _ => '\\')
  }

  /** What follows the opening quote when `pending` backslashes have been held back. */
  function Body(argument: string, pending: nat): string
    decreases |argument|
  {
    if argument == "" then Slashes(2 * pending) + "\""
    else if argument[0] == '\\' then Body(argument[1..], pending + 1)
    else if argument[0] == '\"' then Slashes(2 * pending + 1) + "\"" + Body(argument[1..], 0)
    else Slashes(pending) + [argument[0]] + Body(argument[1..], 0)
  }

  function Quote(argument: string): string {
    if NeedsNoQuotes(argument) then argument else "\"" + Body(argument, 0)
  }

  lemma {:induction false} BodyIsLonger(argument: string, pending: nat)
    ensures |Body(argument, pending)| > |argument| + pending
    decreases |argument|
  {
    if argument != "" {
      BodyIsLonger(argument[1..], if argument[0] == '\\' then pending + 1 else 0);
    }
  }

  /** Only an argument that is empty or holds white space or a double quote is quoted. */
  lemma QuotedMeans(argument: string)
    ensures Quote(argument) == argument <==>
      argument != "" && '\"' !in argument && forall c | c in argument :: !Whitespace(c)
  {
    BodyIsLonger(argument, 0);
  }

  /** The loop of the source, holding back backslashes until the character after them is known. */
  method QuoteCommandArgument(argument: string) returns (quoted: string)
    ensures quoted == Quote(argument)
  {
    if NeedsNoQuotes(argument) {
      return argument;
    }
    quoted := "\"";
    var backslashes := 0;
    for i := 0 to |argument|
      invariant quoted + Body(argument[i..], backslashes) == Quote(argument)
    {
      hide Quote;
      ghost var rest := argument[i..];
      assert rest[1..] == argument[i + 1..];
      ghost var before := quoted;
      if argument[i] == '\\' {
        backslashes := backslashes + 1;
      } else {
        ghost var pending := backslashes;
        var added := Slashes(if argument[i] == '\"' then 2 * backslashes + 1 else backslashes);
        assert Body(rest, pending) == added + [argument[i]] + Body(rest[1..], 0);
        quoted := quoted + added;
        backslashes := 0;
        quoted := quoted + [argument[i]];
        assert quoted + Body(rest[1..], 0) == before + Body(rest, pending);
      }
    }
    ghost var before := quoted;
    quoted := quoted + Slashes(2 * backslashes);
    quoted := quoted + "\"";
    assert quoted == before + Body(argument[|argument|..], backslashes);
  }

  // ---- Reading arguments -----------------------------------------------------------------------------------

  predicate Blank(c: char) {
    c == ' ' || c == '\t'
  }

  datatype Reader = Between | Inside(quoted: bool, slashes: nat, word: string)

  /**
   The arguments of a line. Backslashes are literal unless a double quote follows them: 2n of
   them stand for n and leave the quote its meaning, 2n+1 stand for n and a literal quote. A
   doubled quote inside quotes is one literal quote.
   */
  function Arguments(s: string, reader: Reader, words: seq<string>): seq<string>
    decreases |s|, reader.Between?
  {
    if s == "" then
      match reader
      case Between => words
      case Inside(_, n, word) => words + [word + Slashes(n)]
    else
      match reader
      case Between =>
        if Blank(s[0]) then Arguments(s[1..], Between, words) else Arguments(s, Inside(false, 0, ""), words)
      case Inside(quoted, n, word) =>
        if s[0] == '\\' then Arguments(s[1..], Inside(quoted, n + 1, word), words)
        else if s[0] == '\"' then
          if n % 2 == 1 then Arguments(s[1..], Inside(quoted, 0, word + Slashes(n / 2) + "\""), words)
          else if quoted && |s| > 1 && s[1] == '\"' then
            Arguments(s[2..], Inside(quoted, 0, word + Slashes(n / 2) + "\""), words)
          else Arguments(s[1..], Inside(!quoted, 0, word + Slashes(n / 2)), words)
        else if !quoted && Blank(s[0]) then Arguments(s[1..], Between, words + [word + Slashes(n)])
        else Arguments(s[1..], Inside(quoted, 0, word + Slashes(n) + [s[0]]), words)
  }

  /** Where a rendered argument may end: at the end of the line or before the joining space. */
  predicate AtEnd(rest: string) {
    rest == "" || rest[0] == ' '
  }

  lemma {:induction false} ReadSlashes(
    k: nat, rest: string, quoted: bool, n: nat, word: string, words: seq<string>)
    ensures Arguments(Slashes(k) + rest, Inside(quoted, n, word), words) ==
      Arguments(rest, Inside(quoted, n + k, word), words)
  {
    if k == 0 {
      assert Slashes(k) + rest == rest;
    } else {
      var s := Slashes(k) + rest;
      assert s[0] == '\\' && s[1..] == Slashes(k - 1) + rest;
      ReadSlashes(k - 1, rest, quoted, n + 1, word, words);
    }
  }

  lemma ReadClosingQuote(rest: string, n: nat, word: string, words: seq<string>)
    requires AtEnd(rest)
    ensures Arguments("\"" + rest, Inside(true, 2 * n, word), words) ==
      Arguments(rest, Inside(false, 0, word + Slashes(n)), words)
  {
    var s := "\"" + rest;
    assert s[0] == '\"' && s[1..] == rest;
  }

  lemma ReadLiteralQuote(rest: string, n: nat, word: string, words: seq<string>)
    ensures Arguments("\"" + rest, Inside(true, 2 * n + 1, word), words) ==
      Arguments(rest, Inside(true, 0, word + Slashes(n) + "\""), words)
  {
    var s := "\"" + rest;
    assert s[0] == '\"' && s[1..] == rest;
    assert (2 * n + 1) % 2 == 1 && (2 * n + 1) / 2 == n;
  }

  lemma ReadOrdinary(c: char, rest: string, quoted: bool, n: nat, word: string, words: seq<string>)
    requires c != '\\' && c != '\"' && (quoted || !Blank(c))
    ensures Arguments([c] + rest, Inside(quoted, n, word), words) ==
      Arguments(rest, Inside(quoted, 0, word + Slashes(n) + [c]), words)
  {
    var s := [c] + rest;
    assert s[0] == c && s[1..] == rest;
  }

  lemma ReadBackslash(rest: string, quoted: bool, n: nat, word: string, words: seq<string>)
    ensures Arguments("\\" + rest, Inside(quoted, n, word), words) ==
      Arguments(rest, Inside(quoted, n + 1, word), words)
  {
    var s := "\\" + rest;
    assert s[0] == '\\' && s[1..] == rest;
  }

  lemma SlashesMore(word: string, n: nat, rest: string)
    ensures word + Slashes(n + 1) + rest == word + Slashes(n) + (['\\'] + rest)
  {
    assert Slashes(n + 1) == Slashes(n) + ['\\'];
  }

  /** The body of a quoted argument gives back the held backslashes and the argument. */
  lemma {:induction false} ReadBody(argument: string, pending: nat, rest: string, word: string, words: seq<string>)
    requires AtEnd(rest)
    ensures Arguments(Body(argument, pending) + rest, Inside(true, 0, word), words) ==
      Arguments(rest, Inside(false, 0, word + Slashes(pending) + argument), words)
    decreases |argument|
  {
    hide Arguments;
    hide Slashes;
    hide AtEnd;
    if argument == "" {
      assert Body(argument, pending) + rest == Slashes(2 * pending) + ("\"" + rest);
      ReadSlashes(2 * pending, "\"" + rest, true, 0, word, words);
      ReadClosingQuote(rest, pending, word, words);
      assert word + Slashes(pending) + argument == word + Slashes(pending);
    } else {
      var c, tail := argument[0], argument[1..];
      assert argument == [c] + tail;
      if c == '\\' {
        ReadBody(tail, pending + 1, rest, word, words);
        SlashesMore(word, pending, tail);
      } else {
        var more := Body(tail, 0) + rest;
        var held := if c == '\"' then 2 * pending + 1 else pending;
        assert Body(argument, pending) + rest == Slashes(held) + ([c] + more);
        ReadSlashes(held, [c] + more, true, 0, word, words);
        var next := word + Slashes(pending) + [c];
        if c == '\"' {
          ReadLiteralQuote(more, pending, word, words);
        } else {
          ReadOrdinary(c, more, true, pending, word, words);
        }
        ReadBody(tail, 0, rest, next, words);
        NoSlashes(next, tail);
        assert next + tail == word + Slashes(pending) + argument;
      }
    }
  }

  lemma NoSlashes(word: string, rest: string)
    ensures word + Slashes(0) + rest == word + rest
  {
  }

  lemma ReadEnd(rest: string, n: nat, word: string, words: seq<string>)
    requires AtEnd(rest)
    ensures Arguments(rest, Inside(false, n, word), words) ==
      Arguments(rest, Inside(false, 0, word + Slashes(n)), words)
  {
    assert word + Slashes(n) + Slashes(0) == word + Slashes(n);
  }

  lemma {:induction false} ReadUnquoted(argument: string, rest: string, n: nat, word: string, words: seq<string>)
    requires forall i | 0 <= i < |argument| :: !Whitespace(argument[i]) && argument[i] != '\"'
    requires AtEnd(rest)
    ensures Arguments(argument + rest, Inside(false, n, word), words) ==
      Arguments(rest, Inside(false, 0, word + Slashes(n) + argument), words)
    decreases |argument|
  {
    hide Arguments;
    hide Slashes;
    hide AtEnd;
    if argument == "" {
      assert argument + rest == rest && word + Slashes(n) + argument == word + Slashes(n);
      ReadEnd(rest, n, word, words);
    } else {
      var c, tail := argument[0], argument[1..];
      assert argument == [c] + tail && argument + rest == [c] + (tail + rest);
      if c == '\\' {
        ReadBackslash(tail + rest, false, n, word, words);
        ReadUnquoted(tail, rest, n + 1, word, words);
        SlashesMore(word, n, tail);
      } else {
        ReadOrdinary(c, tail + rest, false, n, word, words);
        var next := word + Slashes(n) + [c];
        ReadUnquoted(tail, rest, 0, next, words);
        NoSlashes(next, tail);
        assert next + tail == word + Slashes(n) + argument;
      }
    }
  }

  lemma ReadFirst(s: string, words: seq<string>)
    requires s != "" && !Blank(s[0])
    ensures Arguments(s, Between, words) == Arguments(s, Inside(false, 0, ""), words)
  {
  }

  lemma ReadOpeningQuote(rest: string, words: seq<string>)
    ensures Arguments("\"" + rest, Between, words) == Arguments(rest, Inside(true, 0, ""), words)
  {
    var s := "\"" + rest;
    assert s[0] == '\"' && s[1..] == rest;
    assert "" + Slashes(0) == "";
  }

  /** One rendered argument is read back as one word. */
  lemma ReadArgument(argument: string, rest: string, words: seq<string>)
    requires AtEnd(rest)
    ensures Arguments(Quote(argument) + rest, Between, words) == Arguments(rest, Inside(false, 0, argument), words)
  {
    hide Arguments;
    hide Slashes;
    hide AtEnd;
    hide Body;
    NoSlashes("", argument);
    assert "" + argument == argument;
    if NeedsNoQuotes(argument) {
      assert (argument + rest)[0] == argument[0];
      ReadFirst(argument + rest, words);
      ReadUnquoted(argument, rest, 0, "", words);
    } else {
      assert Quote(argument) + rest == "\"" + (Body(argument, 0) + rest);
      ReadOpeningQuote(Body(argument, 0) + rest, words);
      ReadBody(argument, 0, rest, "", words);
    }
  }

  lemma ReadSeparator(rest: string, word: string, words: seq<string>)
    ensures Arguments(" " + rest, Inside(false, 0, word), words) == Arguments(rest, Between, words + [word])
    ensures Arguments("", Inside(false, 0, word), words) == words + [word]
  {
    var s := " " + rest;
    assert s[0] == ' ' && s[1..] == rest;
    assert word + Slashes(0) == word;
  }

  lemma {:induction false} ReadArguments(arguments: seq<string>, words: seq<string>)
    ensures Arguments(Render(Quote, arguments), Between, words) == words + arguments
    decreases |arguments|
  {
    if arguments == [] {
      assert words + arguments == words;
    } else {
      RenderTail(Quote, arguments);
      hide Arguments;
      hide Quote;
      hide Render;
      var first, more := arguments[0], Render(Quote, arguments[1..]);
      ReadArgument(first, if |arguments| == 1 then "" else " " + more, words);
      ReadSeparator(more, first, words);
      if |arguments| == 1 {
        assert arguments == [first];
      } else {
        ReadArguments(arguments[1..], words + [first]);
        assert (words + [first]) + arguments[1..] == words + arguments;
      }
    }
  }

  /** Every argument vector survives rendering and reading by the argument rules. */
  lemma WindowsRoundTrip(arguments: seq<string>)
    ensures Arguments(Render(Quote, arguments), Between, []) == arguments
  {
    ReadArguments(arguments, []);
    assert [] + arguments == arguments;
  }

  // ---- Reading the program name --------------------------------------------------------------------------------

  /** The program name and what follows it: quotes only toggle, and backslashes are always literal. */
  function ProgramName(s: string, quoted: bool): (r: (string, string))
    ensures '\"' !in r.0
  {
    if s == "" || (!quoted && Blank(s[0])) then ("", s)
    else if s[0] == '\"' then ProgramName(s[1..], !quoted)
    else
      var (name, rest) := ProgramName(s[1..], quoted);
      ([s[0]] + name, rest)
  }

  /** The whole argument vector of a program started with `line`. */
  function Argv(line: string): seq<string> {
    var (name, rest) := ProgramName(line, false);
    Arguments(rest, Between, [name])
  }

  /** The number of backslashes at the end of `held` backslashes followed by `path`. */
  function Trailing(path: string, held: nat): nat
    decreases |path|
  {
    if path == "" then held else Trailing(path[1..], if path[0] == '\\' then held + 1 else 0)
  }

  lemma {:induction false} TrailingMeaning(path: string, held: nat)
    ensures Trailing(path, held) == 0 <==> if path == "" then held == 0 else path[|path| - 1] != '\\'
    decreases |path|
  {
    if path != "" {
      TrailingMeaning(path[1..], if path[0] == '\\' then held + 1 else 0);
    }
  }

  /** Without a double quote inside, quoting only doubles the trailing backslashes. */
  lemma {:induction false} BodyOfPath(path: string, pending: nat)
    requires '\"' !in path
    ensures Body(path, pending) == Slashes(pending) + path + Slashes(Trailing(path, pending)) + "\""
    decreases |path|
  {
    if path == "" {
      assert Slashes(2 * pending) == Slashes(pending) + path + Slashes(pending);
    } else {
      var c, tail := path[0], path[1..];
      assert path == [c] + tail;
      if c == '\\' {
        BodyOfPath(tail, pending + 1);
        SlashesMore("", pending, tail);
        assert "" + Slashes(pending + 1) == Slashes(pending + 1) && "" + Slashes(pending) == Slashes(pending);
      } else {
        BodyOfPath(tail, 0);
        assert Slashes(0) + tail == tail;
        PathStep(Slashes(pending), c, tail, Slashes(Trailing(tail, 0)));
      }
    }
  }

  lemma PathStep(before: string, c: char, tail: string, after: string)
    ensures before + [c] + (tail + after + "\"") == before + ([c] + tail) + after + "\""
  {
  }

  lemma {:induction false} ReadName(path: string, rest: string, quoted: bool)
    requires '\"' !in path
    requires quoted || forall i | 0 <= i < |path| :: !Blank(path[i])
    ensures var (name, after) := ProgramName(rest, quoted);
      ProgramName(path + rest, quoted) == (path + name, after)
  {
    var (name, after) := ProgramName(rest, quoted);
    if path == "" {
      assert path + rest == rest && path + name == name;
    } else {
      var s := path + rest;
      assert s[0] == path[0] && s[1..] == path[1..] + rest;
      ReadName(path[1..], rest, quoted);
      assert [path[0]] + (path[1..] + name) == path + name;
    }
  }

  lemma NameEnds(rest: string)
    requires AtEnd(rest)
    ensures ProgramName(rest, false) == ("", rest)
    ensures ProgramName("\"" + rest, true) == ("", rest)
  {
    assert ("\"" + rest)[1..] == rest;
  }

  /** What the program-name rule makes of a rendered path. */
  function NameRead(path: string): string {
    if NeedsNoQuotes(path) then path else path + Slashes(Trailing(path, 0))
  }

  lemma NameReadHasNoQuote(path: string)
    requires '\"' !in path
    ensures '\"' !in NameRead(path)
  {
  }

  lemma QuotedPath(path: string)
    requires '\"' !in path && !NeedsNoQuotes(path)
    ensures Quote(path) == "\"" + (NameRead(path) + "\"")
  {
    BodyOfPath(path, 0);
    assert Slashes(0) + path == path;
  }

  lemma ReadNameQuote(rest: string)
    ensures ProgramName("\"" + rest, false) == ProgramName(rest, true)
  {
    assert ("\"" + rest)[1..] == rest;
  }

  lemma ReadProgram(path: string, rest: string)
    requires '\"' !in path && AtEnd(rest)
    ensures ProgramName(Quote(path) + rest, false) == (NameRead(path), rest)
  {
    hide AtEnd;
    hide ProgramName;
    NameEnds(rest);
    if NeedsNoQuotes(path) {
      ReadName(path, rest, false);
      assert path + "" == path;
    } else {
      hide Quote;
      hide NameRead;
      hide NeedsNoQuotes;
      var read := NameRead(path);
      QuotedPath(path);
      assert Quote(path) + rest == "\"" + (read + ("\"" + rest));
      ReadNameQuote(read + ("\"" + rest));
      NameReadHasNoQuote(path);
      ReadName(read, "\"" + rest, true);
      assert read + "" == read;
    }
  }

  /** A path the program-name rule cannot give back: one holding a quote, or a quoted one ending in a backslash. */
  predicate NameSurvives(path: string) {
    '\"' !in path && (NeedsNoQuotes(path) || path == "" || path[|path| - 1] != '\\')
  }

  lemma {:induction false} ArgumentsKeepWords(s: string, reader: Reader, words: seq<string>)
    ensures |words| <= |Arguments(s, reader, words)| && Arguments(s, reader, words)[..|words|] == words
    decreases |s|, reader.Between?
  {
    if s != "" {
      match reader
      case Between =>
        if Blank(s[0]) { ArgumentsKeepWords(s[1..], Between, words); }
        else { ArgumentsKeepWords(s, Inside(false, 0, ""), words); }
      case Inside(quoted, n, word) =>
        if s[0] == '\\' { ArgumentsKeepWords(s[1..], Inside(quoted, n + 1, word), words); }
        else if s[0] == '\"' {
          if n % 2 == 1 { ArgumentsKeepWords(s[1..], Inside(quoted, 0, word + Slashes(n / 2) + "\""), words); }
          else if quoted && |s| > 1 && s[1] == '\"' {
            ArgumentsKeepWords(s[2..], Inside(quoted, 0, word + Slashes(n / 2) + "\""), words);
          } else { ArgumentsKeepWords(s[1..], Inside(!quoted, 0, word + Slashes(n / 2)), words); }
        } else if !quoted && Blank(s[0]) {
          ArgumentsKeepWords(s[1..], Between, words + [word + Slashes(n)]);
        } else { ArgumentsKeepWords(s[1..], Inside(quoted, 0, word + Slashes(n) + [s[0]]), words); }
    }
  }

  lemma NameReadIff(path: string)
    requires '\"' !in path
    ensures NameRead(path) == path <==> NameSurvives(path)
  {
    TrailingMeaning(path, 0);
    assert |path + Slashes(Trailing(path, 0))| == |path| + Trailing(path, 0);
  }

  lemma ReadJoined(arguments: seq<string>, words: seq<string>)
    ensures Arguments(" " + Render(Quote, arguments), Between, words) == words + arguments
  {
    var s := " " + Render(Quote, arguments);
    assert s[0] == ' ' && s[1..] == Render(Quote, arguments);
    ReadArguments(arguments, words);
  }

  /** The started program sees the executable and arguments exactly when the executable's path survives. */
  lemma RenderedCommandIff(executable: string, arguments: seq<string>)
    ensures Argv(Render(Quote, [executable] + arguments)) == [executable] + arguments <==> NameSurvives(executable)
  {
    hide Arguments;
    hide ProgramName;
    hide Render;
    hide Quote;
    hide NameRead;
    hide NeedsNoQuotes;
    var all := [executable] + arguments;
    var line := Render(Quote, all);
    var (name, after) := ProgramName(line, false);
    ArgumentsKeepWords(after, Between, [name]);
    assert Argv(line)[0] == Argv(line)[..1][0] == name;
    if '\"' in executable {
      assert name != executable;
    } else {
      RenderTail(Quote, all);
      assert all[1..] == arguments;
      var rest := if |all| == 1 then "" else " " + Render(Quote, arguments);
      ReadProgram(executable, rest);
      NameReadIff(executable);
      AfterName(arguments, rest, name);
    }
  }

  lemma AfterName(arguments: seq<string>, rest: string, name: string)
    requires rest == if arguments == [] then "" else " " + Render(Quote, arguments)
    ensures Arguments(rest, Between, [name]) == [name] + arguments
  {
    if arguments != [] {
      ReadJoined(arguments, [name]);
    }
  }
}
