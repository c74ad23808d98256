/**
 Shell commands that are printed for people to paste: those of the installer builder of the
 documentation, and those of `beampipe-cli`. Both quote with single quotes, in two styles.

 What a command means is said by a reader of POSIX shell words (sections 2.2 and 2.6.1 of the
 POSIX.1-2017 Shell Command Language). It refuses everything it does not know to be literal.
 */
module ShellCommand {
  import opened Options
  import opened Text
  import CounterKeys

  // ---------------------------------------------------------------- the reader

  /** A part of an argument: a character, or a home directory, of the named user or one's own. */
  datatype Piece = Char(c: char) | Home | HomeOf(user: string)

  type Arg = seq<Piece>

  function Literally(text: string): (arg: Arg)
    ensures |arg| == |text| && forall i | 0 <= i < |arg| :: arg[i] == Char(text[i])
  {
    seq(|text|, i requires 0 <= i < |text| => Char(text[i]))
  }

  /** Characters with a meaning of their own when they are not quoted. */
  predicate Special(c: char) {
    c in {'|', '&', ';', '<', '>', '(', ')', '$', '`', '*', '?', '[', '#', '=', '%', '{', '}', '!', '\t', '\r', '\n'}
  }

  predicate IsNameChar(c: char) {
    'A' <= c <= 'Z' || 'a' <= c <= 'z' || '0' <= c <= '9' || c == '_'
  }

  datatype Mode = Between | InWord | InSingle | InDouble

  /** The length of the login name after a tilde. */
  function LoginLength(s: string): (n: nat)
    ensures n <= |s|
  {
    if s == "" || s[0] in {' ', '/', '\'', '"', '\\'} || Special(s[0]) then 0 else 1 + LoginLength(s[1..])
  }

  function Prepend(arg: Arg, args: Option<seq<Arg>>): Option<seq<Arg>> {
    if args.None? then None else Some([arg] + args.value)
  }

  const HOME_VARIABLE := "$HOME"

  /** The arguments in `s`, the first of which continues `word` unless the reader is between words. */
  function Read(s: string, mode: Mode, word: Arg): Option<seq<Arg>>
    decreases |s|, if mode == Between then 1 else 0
  {
    match mode
    case Between =>
      if s == "" then Some([])
      else if s[0] == ' ' then Read(s[1..], Between, [])
      else if s[0] == '~' then
        var n := LoginLength(s[1..]);
        var rest := s[1..][n..];
        if rest == "" || rest[0] in {' ', '/'} then
          Read(rest, InWord, [if n == 0 then Home else HomeOf(s[1..][..n])])
        else None
      else Read(s, InWord, [])
    case InWord =>
      if s == "" then Some([word])
      else if s[0] == ' ' then Prepend(word, Read(s[1..], Between, []))
      else if s[0] == '\'' then Read(s[1..], InSingle, word)
      else if s[0] == '"' then Read(s[1..], InDouble, word)
      else if s[0] == '\\' then
        if |s| == 1 || s[1] == '\n' then None else Read(s[2..], InWord, word + [Char(s[1])])
      else if Special(s[0]) then None
      else Read(s[1..], InWord, word + [Char(s[0])])
    case InSingle =>
      if s == "" then None
      else if s[0] == '\'' then Read(s[1..], InWord, word)
      else Read(s[1..], InSingle, word + [Char(s[0])])
    case InDouble =>
      if s == "" then None
      else if s[0] == '"' then Read(s[1..], InWord, word)
      else if HOME_VARIABLE <= s && (|s| == 5 || !IsNameChar(s[5])) then Read(s[5..], InDouble, word + [Home])
      else if s[0] in {'$', '`', '\\'} then None
      else Read(s[1..], InDouble, word + [Char(s[0])])
  }

  function Arguments(s: string): Option<seq<Arg>> {
    Read(s, Between, [])
  }

  // ---------------------------------------------------------------- quoting

  /** The characters that need no quotes. */
  predicate IsPlain(c: char) {
    IsNameChar(c) || c in {'.', '/', '~', ':', '@', '+', '-'}
  }

  predicate AllPlain(s: string) {
    forall c <- s :: IsPlain(c)
  }

  /** Every single quote replaced. */
  function Escaped(s: string, quote: string): string {
    if s == "" then "" else (if s[0] == '\'' then quote else [s[0]]) + Escaped(s[1..], quote)
  }

  const BACKSLASH_STYLE := "'\\''"
  const DOUBLE_STYLE := "'\"'\"'"

  function SingleQuoted(s: string, quote: string): string {
    "'" + Escaped(s, quote) + "'"
  }

  /** The quoting of the installer builder. */
  function ShellQuote(s: string): string {
    if s != "" && AllPlain(s) then s else SingleQuoted(s, BACKSLASH_STYLE)
  }

  /** The quoting of the command line. */
  function CliQuote(s: string): string {
    SingleQuoted(s, DOUBLE_STYLE)
  }

  lemma LiterallyConcat(a: string, b: string)
    ensures Literally(a + b) == Literally(a) + Literally(b)
  {
  }

  lemma {:induction false} ReadPlain(s: string, rest: string, word: Arg)
    requires AllPlain(s)
    ensures Read(s + rest, InWord, word) == Read(rest, InWord, word + Literally(s))
  {
    if s == "" {
      assert s + rest == rest && word + Literally(s) == word;
    } else {
      assert (s + rest)[1..] == s[1..] + rest;
      PlainIsNotSpecial(s[0]);
      ReadPlain(s[1..], rest, word + [Char(s[0])]);
      assert word + [Char(s[0])] + Literally(s[1..]) == word + Literally(s);
    }
  }

  lemma ReadBackslashStyle(rest: string, word: Arg)
    ensures Read(BACKSLASH_STYLE + rest, InSingle, word) == Read(rest, InSingle, word + [Char('\'')])
  {
    var s, more := BACKSLASH_STYLE + rest, word + [Char('\'')];
    assert s[0] == '\'' && s[1] == '\\' && s[2] == '\'' && s[3] == '\'';
    assert Read(s, InSingle, word) == Read(s[1..], InWord, word);
    assert s[1..][0] == '\\' && s[1..][1] == '\'' && s[1..][2..] == s[3..];
    assert Read(s[1..], InWord, word) == Read(s[3..], InWord, more);
    assert s[3..][0] == '\'' && s[3..][1..] == rest;
  }

  lemma ReadDoubleStyle(rest: string, word: Arg)
    ensures Read(DOUBLE_STYLE + rest, InSingle, word) == Read(rest, InSingle, word + [Char('\'')])
  {
    var s, more := DOUBLE_STYLE + rest, word + [Char('\'')];
    assert s[0] == '\'' && s[1] == '"' && s[2] == '\'' && s[3] == '"' && s[4] == '\'';
    assert Read(s, InSingle, word) == Read(s[1..], InWord, word);
    assert s[1..][0] == '"' && s[1..][1..] == s[2..];
    assert Read(s[1..], InWord, word) == Read(s[2..], InDouble, word);
    assert s[2..][0] == '\'' && s[2..][1..] == s[3..] && HOME_VARIABLE[0] == '$';
    assert Read(s[2..], InDouble, word) == Read(s[3..], InDouble, more);
    assert s[3..][0] == '"' && s[3..][1..] == s[4..] && !(HOME_VARIABLE <= s[3..]);
    assert Read(s[3..], InDouble, more) == Read(s[4..], InWord, more);
    assert s[4..][0] == '\'' && s[4..][1..] == rest;
  }

  predicate IsQuoteStyle(quote: string) {
    quote == BACKSLASH_STYLE || quote == DOUBLE_STYLE
  }

  /** One character of an escaped text. */
  lemma ReadEscapedChar(c: char, quote: string, rest: string, word: Arg)
    requires IsQuoteStyle(quote)
    ensures Read((if c == '\'' then quote else [c]) + rest, InSingle, word) == Read(rest, InSingle, word + [Char(c)])
  {
    if c == '\'' {
      if quote == BACKSLASH_STYLE { ReadBackslashStyle(rest, word); } else { ReadDoubleStyle(rest, word); }
    } else {
      var t := [c] + rest;
      assert t[0] == c && t[1..] == rest;
    }
  }

  lemma ReadClosingQuote(rest: string, word: Arg)
    ensures Read("'" + rest, InSingle, word) == Read(rest, InWord, word)
  {
    var t := "'" + rest;
    assert t[0] == '\'' && t[1..] == rest;
  }

  lemma LiterallyOfOneMore(word: Arg, s: string)
    requires s != ""
    ensures word + [Char(s[0])] + Literally(s[1..]) == word + Literally(s)
  {
  }

  /** Either style of quoting is undone by the reader, for any text in any word. */
  lemma {:induction false} ReadEscaped(s: string, quote: string, rest: string, word: Arg)
    requires IsQuoteStyle(quote)
    ensures Read(Escaped(s, quote) + ("'" + rest), InSingle, word) == Read(rest, InWord, word + Literally(s))
  {
    if s == "" {
      assert Escaped(s, quote) + ("'" + rest) == "'" + rest;
      assert word + Literally(s) == word;
      ReadClosingQuote(rest, word);
    } else {
      var head := if s[0] == '\'' then quote else [s[0]];
      var tail := Escaped(s[1..], quote) + ("'" + rest);
      assert Escaped(s, quote) + ("'" + rest) == head + tail;
      ReadEscapedChar(s[0], quote, tail, word);
      ReadEscaped(s[1..], quote, rest, word + [Char(s[0])]);
      LiterallyOfOneMore(word, s);
    }
  }

  lemma ReadSingleQuoted(s: string, quote: string, rest: string, word: Arg)
    requires IsQuoteStyle(quote)
    ensures Read(SingleQuoted(s, quote) + rest, InWord, word) == Read(rest, InWord, word + Literally(s))
  {
    ReadEscaped(s, quote, rest, word);
    var t := SingleQuoted(s, quote) + rest;
    assert t[0] == '\'' && t[1..] == Escaped(s, quote) + ("'" + rest);
  }

  lemma ReadShellQuoteInWord(s: string, rest: string, word: Arg)
    ensures Read(ShellQuote(s) + rest, InWord, word) == Read(rest, InWord, word + Literally(s))
  {
    if s != "" && AllPlain(s) {
      ReadPlain(s, rest, word);
    } else {
      ReadSingleQuoted(s, BACKSLASH_STYLE, rest, word);
    }
  }

  // ---------------------------------------------------------------- words

  /** `text` is one word that stands for `arg`, wherever it ends. */
  ghost predicate IsWord(text: string, arg: Arg) {
    && Arguments(text) == Some([arg])
    && forall rest: string :: Arguments(text + " " + rest) == Prepend(arg, Arguments(rest))
  }

  lemma WordFromInside(text: string, arg: Arg)
    requires forall rest: string :: Read(text + rest, Between, []) == Read(rest, InWord, arg)
    ensures IsWord(text, arg)
  {
    assert text + "" == text;
    assert Read("", InWord, arg) == Some([arg]);
    forall rest: string ensures Arguments(text + " " + rest) == Prepend(arg, Arguments(rest)) {
      assert text + " " + rest == text + (" " + rest);
      assert (" " + rest)[0] == ' ' && (" " + rest)[1..] == rest;
    }
  }

  /** The texts of words, joined by single spaces, are read as their arguments. */
  lemma {:induction false} JoinedWords(texts: seq<string>, args: seq<Arg>)
    requires |texts| == |args| && forall i | 0 <= i < |texts| :: IsWord(texts[i], args[i])
    ensures Arguments(Join(texts, " ")) == Some(args)
  {
    if |texts| == 0 {
    } else if |texts| == 1 {
      assert args == [args[0]];
    } else {
      JoinedWords(texts[1..], args[1..]);
      assert args == [args[0]] + args[1..];
    }
  }

  /** A tilde at the start of a text that is not quoted. */
  predicate BareTilde(s: string) {
    s != "" && s[0] == '~' && AllPlain(s)
  }

  function LoginOf(s: string): nat
    requires s != ""
  {
    LoginLength(s[1..])
  }

  /** What the shell makes of a text that the installer builder quotes. */
  function Meaning(s: string): Arg {
    if BareTilde(s) then
      var n := LoginOf(s);
      [if n == 0 then Home else HomeOf(s[1..][..n])] + Literally(s[1..][n..])
    else Literally(s)
  }

  lemma PlainIsNotSpecial(c: char)
    requires IsPlain(c)
    ensures !Special(c) && c !in {' ', '\'', '"', '\\'}
  {
  }

  lemma {:induction false} LoginEnds(s: string, rest: string)
    requires AllPlain(s) && (rest == "" || rest[0] == ' ')
    ensures LoginLength(s + rest) == LoginLength(s)
    ensures s[LoginLength(s)..] == "" || s[LoginLength(s)..][0] == '/'
  {
    if s == "" {
      assert s + rest == rest;
    } else {
      PlainIsNotSpecial(s[0]);
      assert (s + rest)[1..] == s[1..] + rest;
      if s[0] != '/' { LoginEnds(s[1..], rest); }
    }
  }

  lemma ReadTilde(login: string, tail: string)
    requires LoginLength(login + tail) == |login| && (tail == "" || tail[0] == ' ' || tail[0] == '/')
    ensures Read("~" + (login + tail), Between, []) ==
            Read(tail, InWord, [if login == "" then Home else HomeOf(login)])
  {
    var t := "~" + (login + tail);
    assert t[0] == '~' && t[1..] == login + tail;
    assert t[1..][..|login|] == login && t[1..][|login|..] == tail;
  }

  lemma PlainFrom(s: string, n: nat)
    requires AllPlain(s) && n <= |s|
    ensures AllPlain(s[n..])
  {
    assert forall c <- s[n..] :: c in s;
  }

  lemma ReadLoginAndTail(login: string, tail: string, rest: string)
    requires AllPlain(tail) && LoginLength(login + (tail + rest)) == |login|
    requires tail + rest == "" || (tail + rest)[0] in {' ', '/'}
    ensures Read("~" + (login + (tail + rest)), Between, []) ==
            Read(rest, InWord, [if login == "" then Home else HomeOf(login)] + Literally(tail))
  {
    ReadTilde(login, tail + rest);
    ReadPlain(tail, rest, [if login == "" then Home else HomeOf(login)]);
  }

  lemma SplitAfterTilde(s: string, n: nat, rest: string)
    requires s != "" && s[0] == '~' && n <= |s| - 1
    ensures s[1..] + rest == s[1..][..n] + (s[1..][n..] + rest)
    ensures s + rest == "~" + (s[1..][..n] + (s[1..][n..] + rest))
  {
    assert s == "~" + s[1..];
    assert s[1..] == s[1..][..n] + s[1..][n..];
  }

  lemma ReadBareTilde(s: string, rest: string)
    requires BareTilde(s) && (rest == "" || rest[0] == ' ')
    ensures Read(s + rest, Between, []) == Read(rest, InWord, Meaning(s))
  {
    var n := LoginOf(s);
    PlainFrom(s, 1);
    PlainFrom(s[1..], n);
    LoginEnds(s[1..], rest);
    SplitAfterTilde(s, n, rest);
    ReadLoginAndTail(s[1..][..n], s[1..][n..], rest);
  }

  lemma BareTildeIsWord(s: string)
    requires BareTilde(s)
    ensures IsWord(s, Meaning(s))
  {
    ReadBareTilde(s, "");
    assert s + "" == s && Read("", InWord, Meaning(s)) == Some([Meaning(s)]);
    forall rest: string ensures Arguments(s + " " + rest) == Prepend(Meaning(s), Arguments(rest)) {
      ReadBareTilde(s, " " + rest);
      assert s + " " + rest == s + (" " + rest);
      assert (" " + rest)[0] == ' ' && (" " + rest)[1..] == rest;
    }
  }

  lemma StartOfWord(s: string)
    requires s != "" && s[0] !in {' ', '~'}
    ensures Read(s, Between, []) == Read(s, InWord, [])
  {
  }

  lemma ReadQuotedWord(s: string, rest: string)
    requires !BareTilde(s)
    ensures Read(ShellQuote(s) + rest, Between, []) == Read(rest, InWord, Literally(s))
  {
    ReadShellQuoteInWord(s, rest, []);
    assert [] + Literally(s) == Literally(s);
    assert (ShellQuote(s) + rest)[0] == ShellQuote(s)[0];
    if s != "" && AllPlain(s) { PlainIsNotSpecial(s[0]); }
    StartOfWord(ShellQuote(s) + rest);
  }

  /** Quoted texts are words that mean the text itself, unless they start with a bare tilde. */
  lemma ShellQuoteIsWord(s: string)
    ensures IsWord(ShellQuote(s), Meaning(s))
  {
    if BareTilde(s) {
      BareTildeIsWord(s);
    } else {
      forall rest: string ensures Read(ShellQuote(s) + rest, Between, []) == Read(rest, InWord, Literally(s)) {
        ReadQuotedWord(s, rest);
      }
      WordFromInside(ShellQuote(s), Literally(s));
    }
  }

  /** A text is misread exactly if it starts with a bare tilde. */
  lemma MeaningIsLiteral(s: string)
    ensures Meaning(s) == Literally(s) <==> !BareTilde(s)
  {
    if BareTilde(s) {
      assert Meaning(s)[0] != Literally(s)[0];
    }
  }

  lemma CliQuoteIsWord(s: string)
    ensures IsWord(CliQuote(s), Literally(s))
  {
    forall rest: string ensures Read(CliQuote(s) + rest, Between, []) == Read(rest, InWord, Literally(s)) {
      ReadSingleQuoted(s, DOUBLE_STYLE, rest, []);
      assert [] + Literally(s) == Literally(s);
      assert (CliQuote(s) + rest)[0] == '\'';
      StartOfWord(CliQuote(s) + rest);
    }
    WordFromInside(CliQuote(s), Literally(s));
  }

  /** A text that stands for itself without quotes. */
  predicate PlainWord(s: string) {
    s != "" && AllPlain(s) && s[0] != '~'
  }

  lemma PlainIsWord(s: string)
    requires PlainWord(s)
    ensures IsWord(s, Literally(s))
  {
    ShellQuoteIsWord(s);
  }

  // ---------------------------------------------------------------- home directories

  function HomeArgument(s: string): string {
    if s == "~" then "\"$HOME\""
    else if "~/" <= s then "\"$HOME\"/" + ShellQuote(s[2..])
    else ShellQuote(s)
  }

  /** The directory that a person means by `~` or `~/x`. */
  function DirectoryMeant(s: string): Arg {
    if s == "~" then [Home]
    else if "~/" <= s then [Home] + Literally(s[1..])
    else Literally(s)
  }

  lemma ReadHomeVariable(rest: string)
    ensures Read("\"$HOME\"" + rest, Between, []) == Read(rest, InWord, [Home])
  {
    var s := "\"$HOME\"" + rest;
    assert s[0] == '"' && s[1..] == "$HOME\"" + rest;
    var t := s[1..];
    assert t[..5] == HOME_VARIABLE && HOME_VARIABLE <= t && t[0] == '$' && t[5] == '"';
    StartOfWord(s);
    assert Read(s, InWord, []) == Read(t, InDouble, []);
    assert Read(t, InDouble, []) == Read(t[5..], InDouble, [] + [Home]);
    assert t[5..][0] == '"' && t[5..][1..] == rest && !(HOME_VARIABLE <= t[5..]);
    assert [] + [Home] == [Home];
  }

  lemma SplitAfterHome(s: string, quoted: string, rest: string)
    requires "~/" <= s
    ensures "\"$HOME\"/" + quoted + rest == "\"$HOME\"" + ("/" + (quoted + rest))
    ensures [Home] + Literally("/") + Literally(s[2..]) == [Home] + Literally(s[1..])
  {
    assert "/" + s[2..] == s[1..];
    LiterallyConcat("/", s[2..]);
    assert [Home] + Literally("/") + Literally(s[2..]) == [Home] + (Literally("/") + Literally(s[2..]));
  }

  lemma ReadBelowHome(s: string, rest: string)
    requires "~/" <= s
    ensures Read("\"$HOME\"/" + ShellQuote(s[2..]) + rest, Between, []) == Read(rest, InWord, [Home] + Literally(s[1..]))
  {
    SplitAfterHome(s, ShellQuote(s[2..]), rest);
    ReadHomeVariable("/" + (ShellQuote(s[2..]) + rest));
    ReadPlain("/", ShellQuote(s[2..]) + rest, [Home]);
    ReadShellQuoteInWord(s[2..], rest, [Home] + Literally("/"));
  }

  lemma HomeArgumentIsWord(s: string)
    requires s != "" && (s[0] == '~' ==> s == "~" || "~/" <= s)
    ensures IsWord(HomeArgument(s), DirectoryMeant(s))
  {
    if s == "~" {
      forall rest: string ensures Read(HomeArgument(s) + rest, Between, []) == Read(rest, InWord, [Home]) {
        ReadHomeVariable(rest);
      }
      WordFromInside(HomeArgument(s), [Home]);
    } else if "~/" <= s {
      forall rest: string
        ensures Read(HomeArgument(s) + rest, Between, []) == Read(rest, InWord, DirectoryMeant(s))
      {
        ReadBelowHome(s, rest);
      }
      WordFromInside(HomeArgument(s), DirectoryMeant(s));
    } else {
      ShellQuoteIsWord(s);
    }
  }

  // ---------------------------------------------------------------- the installer builder

  datatype Runtime = Docker | Host

  datatype Form = Form(
    unattended: bool, runtime: Runtime, start: bool, dashboard: bool, directory: string,
    projectMode: string, projectConfig: string,
    adminUser: string, adminEmail: string, adminPasswordFile: string,
    apiPort: string, postgresPort: string, metricsPort: string)

  function RuntimeText(runtime: Runtime): string {
    match runtime
    case Docker => "docker"
    case Host => "host"
  }

  const PIPELINE :=
    "curl -fsSL https://github.com/jbwod/beampipe-core-v2/releases/latest/download/install.sh | sh"

  /** `/^\d+$/` and a value from 1 to 65535. */
  predicate IsPort(s: string) {
    s != "" && CounterKeys.AllDigits(s) && 1 <= CounterKeys.DecimalValue(s) <= 65_535
  }

  datatype FormError = DirectoryNotAbsolute | ProjectMissing | PortInvalid(service: string)

  function PortError(service: string, port: string): Option<FormError> {
    if port != "" && !IsPort(port) then Some(PortInvalid(service)) else None
  }

  /** The first complaint about a form. */
  function ValidationError(f: Form): Option<FormError> {
    if f.directory != "" && f.directory != "~" && !("~/" <= f.directory) && f.directory[0] != '/' then
      Some(DirectoryNotAbsolute)
    else if f.projectMode == "custom" && f.projectConfig == "" then Some(ProjectMissing)
    else if PortError("API", f.apiPort).Some? then PortError("API", f.apiPort)
    else if PortError("PostgreSQL", f.postgresPort).Some? then PortError("PostgreSQL", f.postgresPort)
    else PortError("Metrics", f.metricsPort)
  }

  /** Each complaint about a form, and when it is the first one. */
  lemma FormErrorExactly(f: Form)
    ensures var error, sound := ValidationError(f), f.directory in {"", "~"} || f.directory[0] == '/' || "~/" <= f.directory;
            var missing := f.projectMode == "custom" && f.projectConfig == "";
            var api, postgres := f.apiPort == "" || IsPort(f.apiPort), f.postgresPort == "" || IsPort(f.postgresPort);
      && (error == Some(DirectoryNotAbsolute) <==> !sound)
      && (error == Some(ProjectMissing) <==> sound && missing)
      && (error == Some(PortInvalid("API")) <==> sound && !missing && !api)
      && (error == Some(PortInvalid("PostgreSQL")) <==> sound && !missing && api && !postgres)
      && (error == Some(PortInvalid("Metrics")) <==>
            sound && !missing && api && postgres && f.metricsPort != "" && !IsPort(f.metricsPort))
      && (error.None? <==> sound && !missing && api && postgres && (f.metricsPort == "" || IsPort(f.metricsPort)))
  {
  }

  /** Ports are the numbers from 1 to 65535, in decimal digits. */
  lemma PortsAreNumbers(n: nat)
    ensures IsPort(CounterKeys.Decimal(n)) <==> 1 <= n <= 65_535
  {
    CounterKeys.ReadingUndoesPrinting(n);
  }

  /** A flag with its value, which is left out if it is empty. */
  function Flag(name: string, value: string, meaning: Arg): seq<Arg> {
    if value == "" then [] else [Literally(name), meaning]
  }

  /** The project file, if the form uses one. */
  function ProjectFile(f: Form): string {
    if f.projectMode == "custom" then f.projectConfig else ""
  }

  function HeadArgs(f: Form): seq<Arg> {
    (if f.unattended then [Literally("--yes")] else [])
    + [Literally("--runtime"), Literally(RuntimeText(f.runtime))]
    + (if f.start then [] else [Literally("--no-start")])
    + (if f.dashboard && f.runtime == Docker then [Literally("--dashboard")] else [])
    + Flag("--directory", f.directory, DirectoryMeant(f.directory))
    + (if f.projectMode == "wallaby-hires" then [Literally("--sample"), Literally("wallaby-hires")] else [])
  }

  /** The argument list of a form, with the given arguments for its free texts. */
  function ArgumentList(f: Form, project: Arg, user: Arg, email: Arg, passwordFile: Arg): seq<Arg> {
    HeadArgs(f)
    + Flag("--project-config", ProjectFile(f), project)
    + Flag("--admin-user", f.adminUser, user)
    + Flag("--admin-email", f.adminEmail, email)
    + Flag("--admin-password-file", f.adminPasswordFile, passwordFile)
    + Flag("--api-port", f.apiPort, Literally(f.apiPort))
    + Flag("--postgres-port", f.postgresPort, Literally(f.postgresPort))
    + Flag("--metrics-port", f.metricsPort, Literally(f.metricsPort))
  }

  /** What the form asks for. */
  function Intended(f: Form): seq<Arg> {
    ArgumentList(f, Literally(ProjectFile(f)), Literally(f.adminUser), Literally(f.adminEmail),
                 Literally(f.adminPasswordFile))
  }

  /** What the shell passes on. */
  function Passed(f: Form): seq<Arg> {
    ArgumentList(f, Meaning(ProjectFile(f)), Meaning(f.adminUser), Meaning(f.adminEmail),
                 Meaning(f.adminPasswordFile))
  }

  ghost predicate AreWords(texts: seq<string>, args: seq<Arg>) {
    |texts| == |args| && forall i | 0 <= i < |texts| :: IsWord(texts[i], args[i])
  }

  // The texts that the builder pushes.

  function FlagText(name: string, value: string, quoted: string): seq<string> {
    if value == "" then [] else [name, quoted]
  }

  function Switch(on: bool, words: seq<string>): seq<string> {
    if on then words else []
  }

  function HeadTexts(f: Form): seq<string> {
    Switch(f.unattended, ["--yes"])
    + ["--runtime", RuntimeText(f.runtime)]
    + Switch(!f.start, ["--no-start"])
    + Switch(f.dashboard && f.runtime == Docker, ["--dashboard"])
    + FlagText("--directory", f.directory, HomeArgument(f.directory))
    + Switch(f.projectMode == "wallaby-hires", ["--sample", "wallaby-hires"])
  }

  function FlagTexts(f: Form): seq<string> {
    HeadTexts(f)
    + FlagText("--project-config", ProjectFile(f), ShellQuote(ProjectFile(f)))
    + FlagText("--admin-user", f.adminUser, ShellQuote(f.adminUser))
    + FlagText("--admin-email", f.adminEmail, ShellQuote(f.adminEmail))
    + FlagText("--admin-password-file", f.adminPasswordFile, ShellQuote(f.adminPasswordFile))
    + FlagText("--api-port", f.apiPort, f.apiPort)
    + FlagText("--postgres-port", f.postgresPort, f.postgresPort)
    + FlagText("--metrics-port", f.metricsPort, f.metricsPort)
  }

  method AddFlag(flags: seq<string>, name: string, value: string, quoted: string) returns (more: seq<string>)
    ensures more == flags + FlagText(name, value, quoted)
  {
    more := flags;
    if value != "" {
      more := more + [name, quoted];
    }
  }

  method AddSwitch(flags: seq<string>, on: bool, words: seq<string>) returns (more: seq<string>)
    ensures more == flags + Switch(on, words)
  {
    more := flags;
    if on {
      more := more + words;
    }
  }

  /** What is read before the arguments of the installer. */
  const COMMAND_HEAD := PIPELINE + " -s -- "

  /** What follows that head. */
  function FlagsOf(command: string): string {
    if |COMMAND_HEAD| <= |command| then command[|COMMAND_HEAD|..] else ""
  }

  /**
   Builds the command, whether or not the form is valid. For a valid one, what the shell hands to
   the installer is the list the form means, exactly if no free text starts with a bare tilde.
   */
  method BuildCommand(f: Form) returns (command: string)
    ensures command == COMMAND_HEAD + Join(FlagTexts(f), " ")
    ensures ValidationError(f).None? ==>
      && Arguments(FlagsOf(command)) == Some(Passed(f))
      && (Arguments(FlagsOf(command)) == Some(Intended(f)) <==> NoBareTildes(f))
  {
    var flags := AddSwitch([], f.unattended, ["--yes"]);
    assert flags == Switch(f.unattended, ["--yes"]);
    flags := flags + ["--runtime", RuntimeText(f.runtime)];
    flags := AddSwitch(flags, !f.start, ["--no-start"]);
    flags := AddSwitch(flags, f.dashboard && f.runtime == Docker, ["--dashboard"]);
    flags := AddFlag(flags, "--directory", f.directory, HomeArgument(f.directory));
    flags := AddSwitch(flags, f.projectMode == "wallaby-hires", ["--sample", "wallaby-hires"]);
    flags := AddFlag(flags, "--project-config", ProjectFile(f), ShellQuote(ProjectFile(f)));
    flags := AddFlag(flags, "--admin-user", f.adminUser, ShellQuote(f.adminUser));
    flags := AddFlag(flags, "--admin-email", f.adminEmail, ShellQuote(f.adminEmail));
    flags := AddFlag(flags, "--admin-password-file", f.adminPasswordFile, ShellQuote(f.adminPasswordFile));
    flags := AddFlag(flags, "--api-port", f.apiPort, f.apiPort);
    flags := AddFlag(flags, "--postgres-port", f.postgresPort, f.postgresPort);
    flags := AddFlag(flags, "--metrics-port", f.metricsPort, f.metricsPort);
    command := COMMAND_HEAD + Join(flags, " ");
    CommandIsRead(f, command, Join(flags, " "));
  }

  lemma FlagIsWords(name: string, value: string, quoted: string, meaning: Arg)
    requires PlainWord(name)
    requires value != "" ==> IsWord(quoted, meaning)
    ensures AreWords(FlagText(name, value, quoted), Flag(name, value, meaning))
  {
    PlainIsWord(name);
  }

  lemma QuotedFlag(name: string, value: string)
    requires PlainWord(name)
    ensures AreWords(FlagText(name, value, ShellQuote(value)), Flag(name, value, Meaning(value)))
  {
    ShellQuoteIsWord(value);
    FlagIsWords(name, value, ShellQuote(value), Meaning(value));
  }

  lemma PortFlag(name: string, port: string)
    requires PlainWord(name)
    requires port == "" || IsPort(port)
    ensures AreWords(FlagText(name, port, port), Flag(name, port, Literally(port)))
  {
    if port != "" {
      assert AllPlain(port) by {
        forall c <- port ensures IsPlain(c) {
          var i :| 0 <= i < |port| && port[i] == c;
        }
      }
      PlainIsWord(port);
    }
    FlagIsWords(name, port, port, Literally(port));
  }

  lemma SwitchIsWord(on: bool, word: string)
    requires PlainWord(word)
    ensures AreWords(Switch(on, [word]), if on then [Literally(word)] else [])
  {
    PlainIsWord(word);
  }

  lemma PairIsWords(a: string, b: string)
    requires PlainWord(a)
    requires PlainWord(b)
    ensures AreWords([a, b], [Literally(a), Literally(b)])
  {
    PlainIsWord(a);
    PlainIsWord(b);
  }

  lemma WordsAppend(a: seq<string>, x: seq<Arg>, b: seq<string>, y: seq<Arg>)
    requires AreWords(a, x) && AreWords(b, y)
    ensures AreWords(a + b, x + y)
  {
    forall i | 0 <= i < |a + b| ensures IsWord((a + b)[i], (x + y)[i]) {
      if i < |a| { assert IsWord(a[i], x[i]); } else { assert IsWord(b[i - |a|], y[i - |a|]); }
    }
  }

  lemma SwitchesArePlain()
    ensures PlainWord("--yes") && PlainWord("--runtime") && PlainWord("docker") && PlainWord("host")
    ensures PlainWord("--no-start") && PlainWord("--dashboard") && PlainWord("--directory")
  {
  }

  lemma SampleIsPlain()
    ensures PlainWord("--sample") && PlainWord("wallaby-hires") && PlainWord("--project-config")
  {
  }

  lemma AdminNamesArePlain()
    ensures PlainWord("--admin-user") && PlainWord("--admin-email") && PlainWord("--admin-password-file")
  {
  }

  lemma PortNamesArePlain()
    ensures PlainWord("--api-port") && PlainWord("--postgres-port") && PlainWord("--metrics-port")
  {
  }

  lemma HeadIsWords(f: Form)
    requires ValidationError(f).None?
    ensures AreWords(HeadTexts(f), HeadArgs(f))
  {
    SwitchesArePlain();
    SampleIsPlain();
    var t, a := Switch(f.unattended, ["--yes"]), if f.unattended then [Literally("--yes")] else [];
    SwitchIsWord(f.unattended, "--yes");
    PairIsWords("--runtime", RuntimeText(f.runtime));
    t, a := Append(t, a, ["--runtime", RuntimeText(f.runtime)], [Literally("--runtime"), Literally(RuntimeText(f.runtime))]);
    t, a := AppendSwitch(t, a, !f.start, "--no-start");
    t, a := AppendSwitch(t, a, f.dashboard && f.runtime == Docker, "--dashboard");
    if f.directory != "" { HomeArgumentIsWord(f.directory); }
    FlagIsWords("--directory", f.directory, HomeArgument(f.directory), DirectoryMeant(f.directory));
    t, a := Append(t, a, FlagText("--directory", f.directory, HomeArgument(f.directory)),
                   Flag("--directory", f.directory, DirectoryMeant(f.directory)));
    var sample := f.projectMode == "wallaby-hires";
    PairIsWords("--sample", "wallaby-hires");
    t, a := Append(t, a, Switch(sample, ["--sample", "wallaby-hires"]),
                   if sample then [Literally("--sample"), Literally("wallaby-hires")] else []);
  }

  lemma FlagsAreWords(f: Form)
    requires ValidationError(f).None?
    ensures AreWords(FlagTexts(f), Passed(f))
  {
    HeadIsWords(f);
    SampleIsPlain();
    AdminNamesArePlain();
    PortNamesArePlain();
    var t, a := AppendQuoted(HeadTexts(f), HeadArgs(f), "--project-config", ProjectFile(f));
    t, a := AppendQuoted(t, a, "--admin-user", f.adminUser);
    t, a := AppendQuoted(t, a, "--admin-email", f.adminEmail);
    t, a := AppendQuoted(t, a, "--admin-password-file", f.adminPasswordFile);
    t, a := AppendPort(t, a, "--api-port", f.apiPort);
    t, a := AppendPort(t, a, "--postgres-port", f.postgresPort);
    t, a := AppendPort(t, a, "--metrics-port", f.metricsPort);
  }

  lemma AppendSwitch(a: seq<string>, x: seq<Arg>, on: bool, word: string) returns (t: seq<string>, z: seq<Arg>)
    requires AreWords(a, x) && PlainWord(word)
    ensures t == a + Switch(on, [word]) && z == x + (if on then [Literally(word)] else [])
    ensures AreWords(t, z)
  {
    SwitchIsWord(on, word);
    t, z := Append(a, x, Switch(on, [word]), if on then [Literally(word)] else []);
  }

  lemma Append(a: seq<string>, x: seq<Arg>, b: seq<string>, y: seq<Arg>) returns (t: seq<string>, z: seq<Arg>)
    requires AreWords(a, x) && AreWords(b, y)
    ensures t == a + b && z == x + y && AreWords(t, z)
  {
    WordsAppend(a, x, b, y);
    t, z := a + b, x + y;
  }

  lemma AppendQuoted(a: seq<string>, x: seq<Arg>, name: string, value: string) returns (t: seq<string>, z: seq<Arg>)
    requires AreWords(a, x) && PlainWord(name)
    ensures t == a + FlagText(name, value, ShellQuote(value)) && z == x + Flag(name, value, Meaning(value))
    ensures AreWords(t, z)
  {
    QuotedFlag(name, value);
    t, z := Append(a, x, FlagText(name, value, ShellQuote(value)), Flag(name, value, Meaning(value)));
  }

  lemma AppendPort(a: seq<string>, x: seq<Arg>, name: string, port: string) returns (t: seq<string>, z: seq<Arg>)
    requires AreWords(a, x) && PlainWord(name)
    requires port == "" || IsPort(port)
    ensures t == a + FlagText(name, port, port) && z == x + Flag(name, port, Literally(port))
    ensures AreWords(t, z)
  {
    PortFlag(name, port);
    t, z := Append(a, x, FlagText(name, port, port), Flag(name, port, Literally(port)));
  }

  /** No free text that the command uses starts with a bare tilde. */
  predicate NoBareTildes(f: Form) {
    !BareTilde(ProjectFile(f)) && !BareTilde(f.adminUser) && !BareTilde(f.adminEmail) && !BareTilde(f.adminPasswordFile)
  }

  /**
   The flags of a form without validation error are read by the shell as one argument list, and it
   is the intended one exactly if none of the free texts starts with a bare tilde.
   */
  lemma CommandRoundTrip(f: Form)
    requires ValidationError(f).None?
    ensures Arguments(Join(FlagTexts(f), " ")) == Some(Passed(f))
    ensures Passed(f) == Intended(f) <==> NoBareTildes(f)
  {
    FlagsAreWords(f);
    JoinedWords(FlagTexts(f), Passed(f));
    ListsDiffer(f, Literally(ProjectFile(f)), Literally(f.adminUser), Literally(f.adminEmail), Literally(f.adminPasswordFile));
    MeaningIsLiteral(ProjectFile(f));
    MeaningIsLiteral(f.adminUser);
    MeaningIsLiteral(f.adminEmail);
    MeaningIsLiteral(f.adminPasswordFile);
  }

  lemma FlagsFollowHead(command: string, flags: string)
    requires command == COMMAND_HEAD + flags
    ensures FlagsOf(command) == flags
  {}

  lemma CommandIsRead(f: Form, command: string, flags: string)
    requires command == COMMAND_HEAD + flags && flags == Join(FlagTexts(f), " ")
    ensures ValidationError(f).None? ==>
      && Arguments(FlagsOf(command)) == Some(Passed(f))
      && (Arguments(FlagsOf(command)) == Some(Intended(f)) <==> NoBareTildes(f))
  {
    FlagsFollowHead(command, flags);
    if ValidationError(f).None? { CommandRoundTrip(f); }
  }

  lemma LastFlagsEqual(a: seq<Arg>, b: seq<Arg>, name: string, value: string, x: Arg, y: Arg)
    requires a + Flag(name, value, x) == b + Flag(name, value, y)
    ensures a == b && (value != "" ==> x == y)
  {
    var m, n := Flag(name, value, x), Flag(name, value, y);
    assert |a| == |b|;
    assert a == (a + m)[..|a|] && b == (b + n)[..|b|];
    if value != "" { assert (a + m)[|a| + 1] == x && (b + n)[|b| + 1] == y; }
  }

  /** Argument lists are equal only if the arguments in the places of the non-empty texts are. */
  lemma ListsDiffer(f: Form, project: Arg, user: Arg, email: Arg, passwordFile: Arg)
    ensures Passed(f) == ArgumentList(f, project, user, email, passwordFile) ==>
              && (ProjectFile(f) != "" ==> Meaning(ProjectFile(f)) == project)
              && (f.adminUser != "" ==> Meaning(f.adminUser) == user)
              && (f.adminEmail != "" ==> Meaning(f.adminEmail) == email)
              && (f.adminPasswordFile != "" ==> Meaning(f.adminPasswordFile) == passwordFile)
  {
    if Passed(f) == ArgumentList(f, project, user, email, passwordFile) {
      var a1 := HeadArgs(f) + Flag("--project-config", ProjectFile(f), Meaning(ProjectFile(f)));
      var b1 := HeadArgs(f) + Flag("--project-config", ProjectFile(f), project);
      var a2, b2 := a1 + Flag("--admin-user", f.adminUser, Meaning(f.adminUser)), b1 + Flag("--admin-user", f.adminUser, user);
      var a3, b3 := a2 + Flag("--admin-email", f.adminEmail, Meaning(f.adminEmail)), b2 + Flag("--admin-email", f.adminEmail, email);
      var a4 := a3 + Flag("--admin-password-file", f.adminPasswordFile, Meaning(f.adminPasswordFile));
      var b4 := b3 + Flag("--admin-password-file", f.adminPasswordFile, passwordFile);
      var api := Flag("--api-port", f.apiPort, Literally(f.apiPort));
      var postgres := Flag("--postgres-port", f.postgresPort, Literally(f.postgresPort));
      LastFlagsEqual(a4 + api + postgres, b4 + api + postgres, "--metrics-port", f.metricsPort,
                     Literally(f.metricsPort), Literally(f.metricsPort));
      LastFlagsEqual(a4 + api, b4 + api, "--postgres-port", f.postgresPort, Literally(f.postgresPort), Literally(f.postgresPort));
      LastFlagsEqual(a4, b4, "--api-port", f.apiPort, Literally(f.apiPort), Literally(f.apiPort));
      LastFlagsEqual(a3, b3, "--admin-password-file", f.adminPasswordFile, Meaning(f.adminPasswordFile), passwordFile);
      LastFlagsEqual(a2, b2, "--admin-email", f.adminEmail, Meaning(f.adminEmail), email);
      LastFlagsEqual(a1, b1, "--admin-user", f.adminUser, Meaning(f.adminUser), user);
      LastFlagsEqual(HeadArgs(f), HeadArgs(f), "--project-config", ProjectFile(f), Meaning(ProjectFile(f)), project);
    }
  }

  // ---------------------------------------------------------------- commands for an installed Core

  function OperatorCommand(directory: string, action: string): string {
    "beampipe" + (if directory == "" then "" else " " + "--home" + " " + HomeArgument(directory)) + " " + action
  }

  /** The words in front of an action. */
  function OperatorPrefix(directory: string): seq<Arg> {
    if directory == "" then [Literally("beampipe")]
    else [Literally("beampipe"), Literally("--home"), DirectoryMeant(directory)]
  }

  function Followed(prefix: seq<Arg>, args: Option<seq<Arg>>): Option<seq<Arg>> {
    if args.None? then None else Some(prefix + args.value)
  }

  /** Hints name the directory that the form means, in front of the words of the action. */
  lemma OperatorCommandRoundTrip(f: Form, action: string)
    requires ValidationError(f).None?
    ensures Arguments(OperatorCommand(f.directory, action)) == Followed(OperatorPrefix(f.directory), Arguments(action))
  {
    OperatorWordsArePlain();
    PlainIsWord("beampipe");
    if f.directory == "" {
      assert OperatorCommand(f.directory, action) == "beampipe" + " " + action;
    } else {
      PlainIsWord("--home");
      HomeArgumentIsWord(f.directory);
      ThreeWords("beampipe", Literally("beampipe"), "--home", Literally("--home"),
                 HomeArgument(f.directory), DirectoryMeant(f.directory), action);
      Regrouped("beampipe", "--home", HomeArgument(f.directory), action);
    }
  }

  lemma OperatorWordsArePlain()
    ensures PlainWord("beampipe") && PlainWord("--home")
  {
  }

  lemma Regrouped(a: string, b: string, c: string, rest: string)
    ensures a + (" " + b + " " + c) + " " + rest == a + " " + (b + " " + (c + " " + rest))
  {
  }

  lemma ThreeWords(a: string, x: Arg, b: string, y: Arg, c: string, z: Arg, rest: string)
    requires IsWord(a, x) && IsWord(b, y) && IsWord(c, z)
    ensures Arguments(a + " " + (b + " " + (c + " " + rest))) == Followed([x, y, z], Arguments(rest))
  {
    assert Arguments(c + " " + rest) == Prepend(z, Arguments(rest));
    assert Arguments(b + " " + (c + " " + rest)) == Prepend(y, Arguments(c + " " + rest));
    if Arguments(rest).Some? {
      assert [x] + ([y] + ([z] + Arguments(rest).value)) == [x, y, z] + Arguments(rest).value;
    }
  }

  function RecipeCommand(root: Option<string>, args: string): string {
    match root
    case Some(path) => "  " + ("beampipe" + (" " + "--home" + " " + CliQuote(path)) + " " + args)
    case None => "  " + ("beampipe" + " " + args)
  }

  /** The command line's own hints name any directory whatever, character by character. */
  lemma RecipeCommandRoundTrip(root: Option<string>, args: string)
    ensures Arguments(RecipeCommand(root, args)) ==
            Followed(if root.None? then [Literally("beampipe")]
                     else [Literally("beampipe"), Literally("--home"), Literally(root.value)], Arguments(args))
  {
    OperatorWordsArePlain();
    PlainIsWord("beampipe");
    match root
    case None =>
      Indented("beampipe" + " " + args);
    case Some(path) =>
      PlainIsWord("--home");
      CliQuoteIsWord(path);
      ThreeWords("beampipe", Literally("beampipe"), "--home", Literally("--home"), CliQuote(path), Literally(path), args);
      Regrouped("beampipe", "--home", CliQuote(path), args);
      Indented("beampipe" + (" " + "--home" + " " + CliQuote(path)) + " " + args);
  }

  lemma Indented(s: string)
    ensures Arguments("  " + s) == Arguments(s)
  {
    var t := "  " + s;
    assert t[0] == ' ' && t[1..][0] == ' ' && t[1..][1..] == s;
    assert Arguments(t) == Arguments(t[1..]);
  }
}
