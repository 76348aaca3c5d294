/** The portfolio terminal's command line: how an entered line is split into
    a command and its argument, what each command answers and asks of the
    window manager, and what pressing Enter does to the screen and to the
    command history. */
module Terminal {
  import opened Wrappers
  import opened Types
  import opened Text

  /** The commands the terminal knows, in the order Tab completion offers them. */
  const Commands: seq<string> := ["help", "ls", "cat", "open", "contact", "theme", "neofetch", "clear", "login", "exit"]

  /** The names of the projects that are portfolio content (`projectNames`,
      and the listing of `ls`), in project order. */
  function ProjectNames(projects: seq<Project>): (r: seq<string>)
    ensures |r| <= |projects|
    ensures forall p :: p in projects && !IsSystemId(p.id) ==> p.name in r
    ensures forall n :: n in r ==> exists p :: p in projects && !IsSystemId(p.id) && p.name == n
  {
    if |projects| == 0 then []
    else
      var rest := ProjectNames(projects[1..]);
      assert forall p :: p in projects[1..] ==> p in projects;
      if IsSystemId(projects[0].id) then rest else [projects[0].name] + rest
  }

  /** The name of a content project, nothing for a built-in window. */
  function NameOf(x: Project): seq<string> {
    if IsSystemId(x.id) then [] else [x.name]
  }

  lemma NamesCons(x: Project, rest: seq<Project>)
    ensures ProjectNames([x] + rest) == NameOf(x) + ProjectNames(rest)
  {
    assert ([x] + rest)[0] == x && ([x] + rest)[1..] == rest;
  }

  /** The listing distributes over concatenation: names appear in project
      order. */
  lemma {:induction false} ProjectNamesOrder(xs: seq<Project>, ys: seq<Project>)
    ensures ProjectNames(xs + ys) == ProjectNames(xs) + ProjectNames(ys)
    decreases |xs|
  {
    if |xs| == 0 {
      assert xs + ys == ys;
    } else {
      var x, rest := xs[0], xs[1..];
      assert xs == [x] + rest;
      assert xs + ys == [x] + (rest + ys);
      ProjectNamesOrder(rest, ys);
      NamesCons(x, rest + ys);
      NamesCons(x, rest);
      AppendAssoc(NameOf(x), ProjectNames(rest), ProjectNames(ys));
    }
  }

  // ---------------------------------------------------------------------
  // Tokens
  // ---------------------------------------------------------------------

  /** `command.toLowerCase().split(' ').filter(Boolean)`. */
  function Tokens(command: string): seq<string> {
    NonEmpty(Split(Lower(command), ' '))
  }

  /** Every token is a non-empty lower-case word without spaces. */
  lemma TokensAreWords(command: string)
    ensures forall t :: t in Tokens(command) ==> t != "" && ' ' !in t && Lower(t) == t
  {
    forall t | t in Tokens(command)
      ensures Lower(t) == t
    {
      LowerPieces(command, t);
    }
  }

  /** Every piece of an already lower-case string is lower case. */
  lemma LowerPieces(s: string, t: string)
    requires t in NonEmpty(Split(Lower(s), ' '))
    ensures Lower(t) == t
  {
    var l := Lower(s);
    LowerIdempotent(s);
    assert t in Split(l, ' ');
    SplitPiecesLower(l);
  }

  lemma {:induction false} SplitPiecesLower(s: string)
    requires Lower(s) == s
    ensures forall t :: t in Split(s, ' ') ==> Lower(t) == t
    decreases |s|
  {
    var i := IndexOf(s, ' ');
    if i < |s| {
      var rest := s[i + 1..];
      LowerOfSlice(s, i + 1, |s|);
      assert rest == s[i + 1..|s|];
      SplitPiecesLower(rest);
      LowerOfSlice(s, 0, i);
      assert s[..i] == s[0..i];
      assert Split(s, ' ') == [s[..i]] + Split(rest, ' ');
    }
  }

  /** Every slice of a lower-case string is lower case. */
  lemma LowerOfSlice(s: string, a: nat, b: nat)
    requires Lower(s) == s && a <= b <= |s|
    ensures Lower(s[a..b]) == s[a..b]
  {
    forall j | 0 <= j < b - a
      ensures Lower(s[a..b])[j] == s[a..b][j]
    {
      assert s[a..b][j] == s[a + j];
    }
  }

  /** `args.join(' ')`: the tokens after the command word. */
  function Arg(tokens: seq<string>): string {
    if |tokens| == 0 then "" else Join(tokens[1..], " ")
  }

  lemma LowerIdempotent(s: string)
    ensures Lower(Lower(s)) == Lower(s)
  {
  }

  /** Lowercasing the line first changes nothing: commands are case-insensitive. */
  lemma TokensIgnoreCase(command: string)
    ensures Tokens(Lower(command)) == Tokens(command)
  {
    LowerIdempotent(command);
  }

  /** Lower-case words without spaces joined by single spaces tokenize back
      to the same words. */
  lemma {:induction false} TokensOfJoin(ws: seq<string>)
    requires forall i :: 0 <= i < |ws| ==> ws[i] != "" && ' ' !in ws[i] && Lower(ws[i]) == ws[i]
    ensures Tokens(Join(ws, " ")) == ws
    decreases |ws|
  {
    if |ws| == 0 {
      assert Split("", ' ') == [""];
    } else {
      SplitJoin(ws);
      LowerJoin(ws);
      NonEmptyAll(ws);
    }
  }

  lemma {:induction false} SplitJoin(ws: seq<string>)
    requires |ws| > 0
    requires forall i :: 0 <= i < |ws| ==> ' ' !in ws[i]
    ensures Split(Join(ws, " "), ' ') == ws
    decreases |ws|
  {
    if |ws| == 1 {
      SplitNoSeparator(ws[0], ' ');
    } else {
      SplitJoin(ws[1..]);
      assert Join(ws, " ") == ws[0] + [' '] + Join(ws[1..], " ");
      SplitCons(ws[0], ' ', Join(ws[1..], " "));
    }
  }

  lemma LowerAppend(a: string, b: string)
    ensures Lower(a + b) == Lower(a) + Lower(b)
  {
    assert forall i :: 0 <= i < |a + b| ==> Lower(a + b)[i] == (Lower(a) + Lower(b))[i];
  }

  lemma {:induction false} LowerJoin(ws: seq<string>)
    requires forall i :: 0 <= i < |ws| ==> Lower(ws[i]) == ws[i]
    ensures Lower(Join(ws, " ")) == Join(ws, " ")
    decreases |ws|
  {
    if |ws| > 1 {
      LowerJoin(ws[1..]);
      LowerAppend(ws[0] + " ", Join(ws[1..], " "));
      LowerAppend(ws[0], " ");
    }
  }

  lemma {:induction false} NonEmptyAll(ws: seq<string>)
    requires forall i :: 0 <= i < |ws| ==> ws[i] != ""
    ensures NonEmpty(ws) == ws
    decreases |ws|
  {
    if |ws| > 0 {
      NonEmptyAll(ws[1..]);
      assert [ws[0]] + ws[1..] == ws;
    }
  }

  /** The line Enter hands to the dispatcher is trimmed and non-empty, so it
      always has a command word. */
  lemma TrimmedLineHasCommand(command: string)
    requires command != "" && Trimmed(command)
    ensures |Tokens(command)| >= 1
  {
    var l := Lower(command);
    assert l[0] == LowerChar(command[0]);
    assert l[0] != ' ';
    var i := IndexOf(l, ' ');
    assert i > 0;
    var parts := Split(l, ' ');
    assert parts[0] == l[..i];
    assert parts[0] in parts && parts[0] != "";
  }

  // ---------------------------------------------------------------------
  // Dispatch
  // ---------------------------------------------------------------------

  /** `projects.find(p => p.name.toLowerCase() === arg.toLowerCase())`. */
  function FindByName(projects: seq<Project>, arg: string): (r: Option<Project>)
    ensures r.Some? ==> r.value in projects && Lower(r.value.name) == Lower(arg)
    ensures r.None? <==> forall p :: p in projects ==> Lower(p.name) != Lower(arg)
  {
    if |projects| == 0 then None
    else if Lower(projects[0].name) == Lower(arg) then Some(projects[0])
    else
      var r := FindByName(projects[1..], arg);
      assert forall p :: p in projects ==> p == projects[0] || p in projects[1..];
      r
  }

  /** `find` returns the FIRST project whose name matches. */
  lemma {:induction false} FindByNameFirst(projects: seq<Project>, arg: string, i: nat)
    requires i < |projects| && Lower(projects[i].name) == Lower(arg)
    requires forall j :: 0 <= j < i ==> Lower(projects[j].name) != Lower(arg)
    ensures FindByName(projects, arg) == Some(projects[i])
    decreases i
  {
    if i > 0 {
      assert Lower(projects[0].name) != Lower(arg);
      FindByNameFirst(projects[1..], arg, i - 1);
    }
  }

  /** What a command prints. */
  datatype Reply =
    | HelpText
    | Listing(names: seq<string>)
    | Usage(command: string)
    | NoSuchProject(command: string, arg: string)
    | Details(project: Project)
    | Opening(name: string)
    | ContactInfo
    | ThemeSet(theme: ThemeName)
    | SystemInfo
    | NoOutput
    | OpeningLogin
    | Closing
    | NotFound(command: string)

  /** What a command asks of the rest of the application. */
  datatype Effect =
    | NoEffect
    | OpenWindow(id: string)
    | SetTheme(theme: ThemeName)
    | ClearScreen
    | CloseTerminal

  /** `${cmd}` when there is no command word. */
  const Undefined := "undefined"

  /** The command words `processCommand` recognises; `/login` is a second
      spelling of `login`. */
  datatype Command = Help | Ls | Cat | Open | Contact | Theme | Neofetch | Clear | Login | Exit

  function CommandOf(word: string): Option<Command> {
    if word == "help" then Some(Help)
    else if word == "ls" then Some(Ls)
    else if word == "cat" then Some(Cat)
    else if word == "open" then Some(Open)
    else if word == "contact" then Some(Contact)
    else if word == "theme" then Some(Theme)
    else if word == "neofetch" then Some(Neofetch)
    else if word == "clear" then Some(Clear)
    else if word == "login" || word == "/login" then Some(Login)
    else if word == "exit" then Some(Exit)
    else None
  }

  /** The recognised words are exactly those `Commands` lists, and `/login`. */
  lemma CommandsRecognised(word: string)
    ensures CommandOf(word).Some? <==> word in Commands || word == "/login"
  {
  }

  /** `processCommand(command)`: the reply and the effect of one command
      line. */
  function Process(command: string, projects: seq<Project>): (Reply, Effect) {
    Dispatch(Tokens(command), projects)
  }

  /** The reply and effect for an already tokenised command line: "command
      not found" exactly for an unknown command word, and an effect only for
      `open`, `theme`, `clear`, `login` and `exit`. */
  function Dispatch(tokens: seq<string>, projects: seq<Project>): (r: (Reply, Effect))
    ensures |tokens| == 0 ==> r == (NotFound(Undefined), NoEffect)
    ensures |tokens| > 0 ==> (r.0.NotFound? <==> CommandOf(tokens[0]).None?)
    ensures |tokens| > 0 && r.0.NotFound? ==> r == (NotFound(tokens[0]), NoEffect)
    ensures r.1 != NoEffect ==> |tokens| > 0 && CommandOf(tokens[0]) in {Some(Open), Some(Theme), Some(Clear), Some(Login), Some(Exit)}
    ensures r.1 == ClearScreen <==> |tokens| > 0 && CommandOf(tokens[0]) == Some(Clear)
    ensures r.1 == CloseTerminal <==> |tokens| > 0 && CommandOf(tokens[0]) == Some(Exit)
    ensures r.1.SetTheme? <==> |tokens| > 0 && CommandOf(tokens[0]) == Some(Theme)
    ensures r.1.SetTheme? ==> r.0 == ThemeSet(r.1.theme)
  {
    if |tokens| == 0 then (NotFound(Undefined), NoEffect)
    else
      var word := tokens[0];
      match CommandOf(word)
      case None => (NotFound(word), NoEffect)
      case Some(cmd) => Answer(cmd, word, Arg(tokens), projects)
  }

  /** The reply and effect of a recognised command word `word` with
      argument `arg`. */
  function Answer(cmd: Command, word: string, arg: string, projects: seq<Project>): (Reply, Effect) {
    match cmd
    case Help => (HelpText, NoEffect)
    case Ls => (Listing(ProjectNames(projects)), NoEffect)
    case Cat =>
      if arg == "" then (Usage(word), NoEffect)
      else
        (match FindByName(projects, arg)
         case None => (NoSuchProject(word, arg), NoEffect)
         case Some(p) => (Details(p), NoEffect))
    case Open =>
      if arg == "" then (Usage(word), NoEffect)
      else
        (match FindByName(projects, arg)
         case None => (NoSuchProject(word, arg), NoEffect)
         case Some(p) => (Opening(p.name), OpenWindow(p.id)))
    case Contact => (ContactInfo, NoEffect)
    case Theme =>
      var t := if arg == "light" then Light else Dark;
      (ThemeSet(t), SetTheme(t))
    case Neofetch => (SystemInfo, NoEffect)
    case Clear => (NoOutput, ClearScreen)
    case Login => (OpeningLogin, OpenWindow("login"))
    case Exit => (Closing, CloseTerminal)
  }

  /** A command line opens a window only for `login`, or for `open` naming
      an existing project, and then it opens that project. */
  lemma OpensOnlyNamed(command: string, projects: seq<Project>)
    ensures var r := Process(command, projects);
            r.1.OpenWindow? ==>
              || (r.1.id == "login" && r.0 == OpeningLogin)
              || (var p := FindByName(projects, Arg(Tokens(command)));
                  p.Some? && r.1.id == p.value.id && r.0 == Opening(p.value.name))
  {
    var tokens := Tokens(command);
    if |tokens| > 0 && CommandOf(tokens[0]).Some? {
      AnswerOpensOnlyNamed(CommandOf(tokens[0]).value, tokens[0], Arg(tokens), projects);
    }
  }

  lemma AnswerOpensOnlyNamed(cmd: Command, word: string, arg: string, projects: seq<Project>)
    ensures var r := Answer(cmd, word, arg, projects);
            r.1.OpenWindow? ==>
              || (r.1.id == "login" && r.0 == OpeningLogin)
              || (var p := FindByName(projects, arg);
                  p.Some? && r.1.id == p.value.id && r.0 == Opening(p.value.name))
  {
    match cmd
    case Open =>
    case Login =>
    case _ =>
  }

  /** "Command not found" is printed exactly for an empty line or an unknown
      first word, and it has no effect. */
  lemma NotFoundIffUnknown(command: string, projects: seq<Project>)
    ensures var r := Process(command, projects);
            && (r.0.NotFound? <==> |Tokens(command)| == 0 || CommandOf(Tokens(command)[0]).None?)
            && (r.0.NotFound? ==> r.1 == NoEffect)
  {
  }

  /** A single lower-case word is its own only token. */
  lemma SingleWord(w: string)
    requires w != "" && ' ' !in w && NoUpper(w)
    ensures Tokens(w) == [w] && Arg(Tokens(w)) == ""
  {
    LowerFixed(w);
    TokensOfJoin([w]);
  }

  /** `cat` and `open` without a name only print their usage. */
  lemma UsageWithoutName(projects: seq<Project>, cmd: string)
    requires cmd == "cat" || cmd == "open"
    ensures Process(cmd, projects) == (Usage(cmd), NoEffect)
  {
    SingleWord(cmd);
  }

  /** `open <name>` opens the first project whose name matches without regard
      to case, and opens nothing when none does. */
  lemma OpenByName(projects: seq<Project>, name: seq<string>)
    requires |name| > 0
    requires forall i :: 0 <= i < |name| ==> name[i] != "" && ' ' !in name[i] && Lower(name[i]) == name[i]
    ensures var r := Process(Join(["open"] + name, " "), projects);
            var found := FindByName(projects, Join(name, " "));
            && (found.Some? ==> r == (Opening(found.value.name), OpenWindow(found.value.id)))
            && (found.None? ==> r == (NoSuchProject("open", Join(name, " ")), NoEffect))
  {
    var ws := ["open"] + name;
    OpenTokens(name);
    OpenWord();
    assert ws[1..] == name;
    NonEmptyJoin(name);
    calc {
      Process(Join(ws, " "), projects);
      Dispatch(ws, projects);
      Answer(Open, "open", Join(name, " "), projects);
    }
    AnswerOpen(Join(name, " "), projects);
  }

  lemma AnswerOpen(arg: string, projects: seq<Project>)
    requires arg != ""
    ensures var r := Answer(Open, "open", arg, projects);
            var found := FindByName(projects, arg);
            && (found.Some? ==> r == (Opening(found.value.name), OpenWindow(found.value.id)))
            && (found.None? ==> r == (NoSuchProject("open", arg), NoEffect))
  {
  }

  /** `open` followed by lower-case words tokenizes back to those words. */
  lemma OpenTokens(name: seq<string>)
    requires forall i :: 0 <= i < |name| ==> name[i] != "" && ' ' !in name[i] && Lower(name[i]) == name[i]
    ensures Tokens(Join(["open"] + name, " ")) == ["open"] + name
  {
    var ws := ["open"] + name;
    OpenWord();
    forall i | 0 <= i < |ws|
      ensures ws[i] != "" && ' ' !in ws[i] && Lower(ws[i]) == ws[i]
    {
      if i > 0 {
        assert ws[i] == name[i - 1];
      }
    }
    TokensOfJoin(ws);
  }

  /** `open` is a lower-case word recognised as the open command. */
  lemma OpenWord()
    ensures var w := "open";
            w != "" && ' ' !in w && Lower(w) == w && CommandOf(w) == Some(Open)
  {
    var w := "open";
    assert |w| == 4 && w[0] == 'o';
    LowerFixed(w);
  }

  lemma NonEmptyJoin(ws: seq<string>)
    requires |ws| > 0 && ws[0] != ""
    ensures Join(ws, " ") != ""
  {
    if |ws| > 1 {
      assert |Join(ws, " ")| >= |ws[0]|;
    }
  }

  /** `theme` selects the light theme exactly when its argument is `light`. */
  lemma ThemeChoice(command: string, projects: seq<Project>)
    requires |Tokens(command)| > 0 && Tokens(command)[0] == "theme"
    ensures var r := Process(command, projects);
            && r.1.SetTheme?
            && (r.1.theme == Light <==> Arg(Tokens(command)) == "light")
            && r.0 == ThemeSet(r.1.theme)
  {
  }

  /** `login` and `/login` both open the login window. */
  lemma LoginOpensLogin(projects: seq<Project>, w: string)
    requires w == "login" || w == "/login"
    ensures Process(w, projects) == (OpeningLogin, OpenWindow("login"))
  {
    LoginWord(w);
    SingleWord(w);
    var tokens := Tokens(w);
    assert tokens[0] == w && Arg(tokens) == "";
    assert Dispatch(tokens, projects) == Answer(Login, w, "", projects);
  }

  /** Both spellings are single lower-case words recognised as `login`. */
  lemma LoginWord(w: string)
    requires w == "login" || w == "/login"
    ensures w != "" && ' ' !in w && NoUpper(w)
    ensures CommandOf(w) == Some(Login)
  {
    if w == "login" {
      assert |w| == 5 && w[0] == 'l';
    } else {
      assert |w| == 6;
    }
  }

  // ---------------------------------------------------------------------
  // Terminal state and Enter
  // ---------------------------------------------------------------------

  /** One entry of the scroll-back. */
  datatype Line = Text(text: string) | Echo(command: string) | Output(reply: Reply)

  datatype TermState = TermState(
    screen: seq<Line>,
    input: string,
    commandHistory: seq<string>,
    historyIndex: int,
    suggestions: seq<string>,
    suggestionIndex: int)

  const Welcome: seq<Line> := [
    Text("Welcome to my interactive portfolio terminal."),
    Text("Type `help` to see a list of available commands.")]

  const Initial := TermState(Welcome, "", [], -1, [], 0)

  /** The lines a reply adds under the echo: none for a command that prints
      nothing. */
  function ReplyLines(reply: Reply): seq<Line> {
    if reply == NoOutput then [] else [Output(reply)]
  }

  /** The screen after echoing `command` and its reply, if it has one. */
  function Scrolled(screen: seq<Line>, command: string, reply: Option<Reply>): seq<Line> {
    var echoed := screen + [Echo(command)];
    if reply.Some? && reply.value != NoOutput then echoed + [Output(reply.value)] else echoed
  }

  /** Enter as the handler is written: `clear` empties the scroll-back and
      the handler then stores the echoed scroll-back over it, so the later
      write wins. */
  function EnterAsWritten(st: TermState, projects: seq<Project>): (r: (TermState, Effect))
    ensures r.0.input == "" && r.0.historyIndex == -1 && r.0.suggestions == [] && r.0.suggestionIndex == 0
    ensures Trim(st.input) == "" ==> r.0.commandHistory == st.commandHistory && r.1 == NoEffect
    ensures Trim(st.input) != "" ==> r.0.commandHistory == [Trim(st.input)] + st.commandHistory
    ensures |r.0.screen| > |st.screen| && r.0.screen[|st.screen|] == Echo(Trim(st.input))
    ensures r.0.screen[..|st.screen|] == st.screen
    ensures Trim(st.input) == "" ==> |r.0.screen| == |st.screen| + 1
    ensures Trim(st.input) != "" ==> r.1 == Process(Trim(st.input), projects).1
    ensures Trim(st.input) != "" ==>
              r.0.screen[|st.screen| + 1..] == ReplyLines(Process(Trim(st.input), projects).0)
  {
    var command := Trim(st.input);
    var reply := if command == "" then None else Some(Process(command, projects));
    var history := if command == "" then st.commandHistory else [command] + st.commandHistory;
    var screen := Scrolled(st.screen, command, if reply.Some? then Some(reply.value.0) else None);
    (TermState(screen, "", history, -1, [], 0), if reply.Some? then reply.value.1 else NoEffect)
  }

  /** `clear` as written leaves every earlier line on the screen and adds
      its own echo. */
  lemma ClearKeepsScreen(st: TermState, projects: seq<Project>)
    requires Trim(st.input) == "clear"
    ensures EnterAsWritten(st, projects).0.screen == st.screen + [Echo("clear")]
    ensures EnterAsWritten(st, projects).1 == ClearScreen
  {
    ClearCommand(projects);
  }

  /** `clear` prints nothing and asks for the screen to be cleared. */
  lemma ClearCommand(projects: seq<Project>)
    ensures Process("clear", projects) == (NoOutput, ClearScreen)
  {
    SingleWord("clear");
  }

  /** Enter with `clear` emptying the screen, as its help text promises. */
  function Enter(st: TermState, projects: seq<Project>): (r: (TermState, Effect))
    ensures r.0.input == "" && r.0.historyIndex == -1 && r.0.suggestions == [] && r.0.suggestionIndex == 0
    ensures Trim(st.input) == "" ==> r.0.commandHistory == st.commandHistory && r.1 == NoEffect
    ensures Trim(st.input) != "" ==> r.0.commandHistory == [Trim(st.input)] + st.commandHistory
    ensures r.1 == ClearScreen <==> r.0.screen == []
    ensures r.1 != ClearScreen ==> r == EnterAsWritten(st, projects)
  {
    var (s, e) := EnterAsWritten(st, projects);
    if e == ClearScreen then (s.(screen := []), e) else (s, e)
  }

  /** `clear` leaves an empty screen. */
  lemma ClearEmptiesScreen(st: TermState, projects: seq<Project>)
    requires Trim(st.input) == "clear"
    ensures Enter(st, projects).0.screen == []
  {
    ClearKeepsScreen(st, projects);
  }
}
