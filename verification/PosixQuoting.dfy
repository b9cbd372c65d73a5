/**
 The Unix form of `quote_command_argument` (`crates/runonmine-connectors/src/openai.rs`) and the
 reader it is written for: sections 2.2.1 and 2.2.2 of the POSIX.1-2017 Shell Command Language.
 */
module PosixQuoting {
  import opened CommandLine
  import opened Common

  // ---- Quoting ---------------------------------------------------------------------------------

  predicate AsciiAlphanumeric(c: char) {
    '0' <= c <= '9' || 'A' <= c <= 'Z' || 'a' <= c <= 'z'
  }

  predicate PlainChar(c: char) {
    || AsciiAlphanumeric(c)
    || c == '_' || c == '+' || c == '-' || c == '.' || c == '/' || c == ':' || c == '=' || c == '@'
  }

  predicate PlainArgument(argument: string) {
    argument != "" && forall i | 0 <= i < |argument| :: PlainChar(argument[i])
  }

  /** `replace('\'', "'\\''")`. */
  function EscapeQuotes(argument: string): string {
    if argument == "" then ""
    else (if argument[0] == '\'' then "'\\''" else [argument[0]]) + EscapeQuotes(argument[1..])
  }

  function QuotePosix(argument: string): string {
    if PlainArgument(argument) then argument else "'" + EscapeQuotes(argument) + "'"
  }

  /** Only what needs quotes gets them, and quotes are all it gets unless it holds one itself. */
  lemma QuotedMeans(argument: string)
    ensures QuotePosix(argument) == argument <==>
      && argument != ""
      && forall c | c in argument ::
           'A' <= c <= 'Z' || 'a' <= c <= 'z' || '0' <= c <= '9' || c in "_+-./:=@"
    ensures QuotePosix(argument) != argument && '\'' !in argument ==> QuotePosix(argument) == "'" + argument + "'"
  {
    NothingToEscape(argument);
    LongerInQuotes(argument);
    PlainMeans(argument);
    hide PlainArgument;
  }

  lemma PlainMeans(argument: string)
    ensures PlainArgument(argument) <==>
      && argument != ""
      && forall c | c in argument ::
           'A' <= c <= 'Z' || 'a' <= c <= 'z' || '0' <= c <= '9' || c in "_+-./:=@"
  {
    forall c: char ensures PlainChar(c) <==>
      'A' <= c <= 'Z' || 'a' <= c <= 'z' || '0' <= c <= '9' || c in "_+-./:=@"
    {
      PunctuationMeans(c);
    }
    hide PlainChar;
  }

  lemma PunctuationMeans(c: char)
    ensures c in "_+-./:=@" <==>
      c == '_' || c == '+' || c == '-' || c == '.' || c == '/' || c == ':' || c == '=' || c == '@'
  {
    var all := "_+-./:=@";
    assert all[0] == '_' && all[1] == '+' && all[2] == '-' && all[3] == '.';
    assert all[4] == '/' && all[5] == ':' && all[6] == '=' && all[7] == '@';
  }

  lemma {:induction false} NothingToEscape(argument: string)
    ensures '\'' !in argument ==> EscapeQuotes(argument) == argument
  {
    if argument != "" {
      NothingToEscape(argument[1..]);
      assert argument == [argument[0]] + argument[1..];
    }
  }

  lemma {:induction false} LongerInQuotes(argument: string)
    ensures |EscapeQuotes(argument)| >= |argument|
  {
    if argument != "" {
      LongerInQuotes(argument[1..]);
    }
  }

  // ---- Reading ------------------------------------------------------------------------------------

  /** Characters with a meaning to the shell when they are not quoted. */
  predicate ShellSpecial(c: char) {
    || c == '|' || c == '&' || c == ';' || c == '<' || c == '>' || c == '(' || c == ')' || c == '$'
    || c == '`' || c == '\\' || c == '\"' || c == '\'' || c == ' ' || c == '\t' || c == '\n'
    || c == '*' || c == '?' || c == '[' || c == '#' || c == '~' || c == '%'
  }

  datatype Mode = Between | InWord | InSingle

  /** The words of a command line, or nothing when it holds an unquoted special character or ends inside quotes. */
  function Shell(s: string, mode: Mode, word: string, words: seq<string>): Option<seq<string>>
    decreases |s|
  {
    if s == "" then
      match mode
      case Between => Some(words)
      case InWord => Some(words + [word])
      case InSingle => None
    else if mode.InSingle? then
      if s[0] == '\'' then Shell(s[1..], InWord, word, words)
      else Shell(s[1..], InSingle, word + [s[0]], words)
    else if s[0] == '\'' then Shell(s[1..], InSingle, word, words)
    else if s[0] == '\\' then
      if |s| < 2 then None
      else if s[1] == '\n' then Shell(s[2..], mode, word, words)
      else Shell(s[2..], InWord, word + [s[1]], words)
    else if s[0] == ' ' || s[0] == '\t' then
      if mode.Between? then Shell(s[1..], Between, word, words) else Shell(s[1..], Between, "", words + [word])
    else if ShellSpecial(s[0]) then None
    else Shell(s[1..], InWord, word + [s[0]], words)
  }

  function SplitPosix(line: string): Option<seq<string>> {
    Shell(line, Between, "", [])
  }

  /** Outside quotes a backslash keeps the next character, and any other special character is not read. */
  lemma OutsideQuotes(c: char, rest: string, mode: Mode, word: string, words: seq<string>)
    requires !mode.InSingle?
    ensures c != '\n' ==> Shell("\\" + ([c] + rest), mode, word, words) == Shell(rest, InWord, word + [c], words)
    ensures c in "|&;<>()$`\"\n*?[#~%" ==> Shell([c] + rest, mode, word, words) == None
  {
    var s := "\\" + ([c] + rest);
    assert s[1] == c && s[2..] == rest && |s| >= 2;
    var t := [c] + rest;
    assert t[0] == c;
    if c in "|&;<>()$`\"\n*?[#~%" {
      SpecialMeans(c);
      hide ShellSpecial;
    }
  }

  lemma SpecialMeans(c: char)
    requires c in "|&;<>()$`\"\n*?[#~%"
    ensures ShellSpecial(c) && c != '\'' && c != '\\' && c != ' ' && c != '\t'
  {
    var all := "|&;<>()$`\"\n*?[#~%";
    var i :| 0 <= i < |all| && all[i] == c;
    assert i < 17;
  }

  lemma ReadPlainChar(c: char, rest: string, mode: Mode, word: string, words: seq<string>)
    requires PlainChar(c) && !mode.InSingle?
    ensures Shell([c] + rest, mode, word, words) == Shell(rest, InWord, word + [c], words)
  {
    var s := [c] + rest;
    assert s[0] == c && s[1..] == rest;
    assert !ShellSpecial(c);
  }

  lemma {:induction false} ReadPlain(argument: string, rest: string, word: string, words: seq<string>)
    requires forall i | 0 <= i < |argument| :: PlainChar(argument[i])
    ensures Shell(argument + rest, InWord, word, words) == Shell(rest, InWord, word + argument, words)
    decreases |argument|
  {
    hide PlainChar;
    hide Shell;
    if argument == "" {
      assert argument + rest == rest && word + argument == word;
    } else {
      ReadPlainChar(argument[0], argument[1..] + rest, InWord, word, words);
      ReadPlain(argument[1..], rest, word + [argument[0]], words);
      assert argument + rest == [argument[0]] + (argument[1..] + rest);
      assert (word + [argument[0]]) + argument[1..] == word + argument;
    }
  }

  lemma ReadEscapedQuote(rest: string, word: string, words: seq<string>)
    ensures Shell("'\\''" + rest, InSingle, word, words) == Shell(rest, InSingle, word + ['\''], words)
  {
    var s := "'\\''" + rest;
    assert s[1..] == "\\''" + rest;
    assert s[1..][2..] == "'" + rest;
    assert ("'" + rest)[1..] == rest;
    assert Shell(s[1..], InWord, word, words) == Shell("'" + rest, InWord, word + ['\''], words);
  }

  lemma {:induction false} ReadSingleQuoted(argument: string, rest: string, word: string, words: seq<string>)
    ensures Shell(EscapeQuotes(argument) + "'" + rest, InSingle, word, words) ==
      Shell(rest, InWord, word + argument, words)
    decreases |argument|
  {
    var tail := "'" + rest;
    if argument == "" {
      assert EscapeQuotes(argument) + "'" + rest == tail && tail[1..] == rest && word + argument == word;
    } else {
      var c := argument[0];
      var more := EscapeQuotes(argument[1..]) + "'" + rest;
      ReadSingleQuoted(argument[1..], rest, word + [c], words);
      assert (word + [c]) + argument[1..] == word + argument;
      if c == '\'' {
        assert EscapeQuotes(argument) + "'" + rest == "'\\''" + more;
        ReadEscapedQuote(more, word, words);
      } else {
        var s := EscapeQuotes(argument) + "'" + rest;
        assert s == [c] + more && s[1..] == more;
      }
    }
  }

  lemma ReadPlainArgument(argument: string, rest: string, words: seq<string>)
    requires PlainArgument(argument)
    ensures Shell(argument + rest, Between, "", words) == Shell(rest, InWord, argument, words)
  {
    hide PlainChar;
    hide Shell;
    var c, tail := argument[0], argument[1..];
    ReadPlainChar(c, tail + rest, Between, "", words);
    ReadPlain(tail, rest, [c], words);
    assert argument + rest == [c] + (tail + rest);
    assert "" + [c] == [c] && [c] + tail == argument;
  }

  lemma ReadOpeningQuote(rest: string, words: seq<string>)
    ensures Shell("'" + rest, Between, "", words) == Shell(rest, InSingle, "", words)
  {
    assert ("'" + rest)[1..] == rest;
  }

  /** One rendered argument is read back as one word. */
  lemma ReadArgument(argument: string, rest: string, words: seq<string>)
    ensures Shell(QuotePosix(argument) + rest, Between, "", words) == Shell(rest, InWord, argument, words)
  {
    hide Shell;
    hide EscapeQuotes;
    hide PlainArgument;
    if PlainArgument(argument) {
      ReadPlainArgument(argument, rest, words);
    } else {
      var body := EscapeQuotes(argument) + "'" + rest;
      assert QuotePosix(argument) + rest == "'" + body;
      ReadOpeningQuote(body, words);
      ReadSingleQuoted(argument, rest, "", words);
      assert "" + argument == argument;
    }
  }

  lemma ReadBlank(rest: string, word: string, words: seq<string>)
    ensures Shell(" " + rest, InWord, word, words) == Shell(rest, Between, "", words + [word])
    ensures Shell("", InWord, word, words) == Some(words + [word])
  {
    assert (" " + rest)[1..] == rest;
  }

  lemma {:induction false} ReadArguments(arguments: seq<string>, words: seq<string>)
    ensures Shell(Render(QuotePosix, arguments), Between, "", words) == Some(words + arguments)
    decreases |arguments|
  {
    if arguments == [] {
      assert words + arguments == words;
    } else {
      RenderTail(QuotePosix, arguments);
      hide Shell;
      hide QuotePosix;
      hide Render;
      var more := Render(QuotePosix, arguments[1..]);
      ReadArgument(arguments[0], if |arguments| == 1 then "" else " " + more, words);
      ReadBlank(more, arguments[0], words);
      if |arguments| == 1 {
        assert arguments == [arguments[0]];
      } else {
        ReadArguments(arguments[1..], words + [arguments[0]]);
        assert (words + [arguments[0]]) + arguments[1..] == words + arguments;
      }
    }
  }

  /** Every argument vector survives rendering and reading, empty arguments and quotes included. */
  lemma PosixRoundTrip(arguments: seq<string>)
    ensures SplitPosix(Render(QuotePosix, arguments)) == Some(arguments)
  {
    ReadArguments(arguments, []);
    assert [] + arguments == arguments;
  }
}
