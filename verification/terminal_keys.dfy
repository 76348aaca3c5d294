/** The terminal's keyboard: typing, Tab completion with cycling through
    several candidates, Enter, and walking the command history with the
    arrow keys. */
module TerminalKeys {
  import opened Wrappers
  import opened Types
  import opened Text
  import opened Terminal
  import Arith

  // ---------------------------------------------------------------------
  // State invariant
  // ---------------------------------------------------------------------

  /** What every reachable terminal state keeps: the history cursor is -1 or
      a position in the history, and while suggestions are offered the
      cursor points at one of them and the input ends with it. */
  predicate Valid(st: TermState) {
    && -1 <= st.historyIndex < |st.commandHistory|
    && 0 <= st.suggestionIndex
    && (|st.suggestions| > 0 ==>
          && st.suggestionIndex < |st.suggestions|
          && HasSuffix(st.input, st.suggestions[st.suggestionIndex]))
  }

  // ---------------------------------------------------------------------
  // Typing
  // ---------------------------------------------------------------------

  /** `handleInputChange`: the new text replaces the input and any offered
      suggestions are withdrawn. */
  function InputChange(st: TermState, value: string): (r: TermState)
    ensures r.input == value && r.suggestions == []
    ensures Valid(st) ==> Valid(r)
    ensures r.screen == st.screen && r.commandHistory == st.commandHistory && r.historyIndex == st.historyIndex
    ensures |st.suggestions| > 0 ==> r.suggestionIndex == 0
    ensures |st.suggestions| == 0 ==> r.suggestionIndex == st.suggestionIndex
  {
    if |st.suggestions| > 0 then st.(input := value, suggestions := [], suggestionIndex := 0)
    else st.(input := value)
  }

  // ---------------------------------------------------------------------
  // History
  // ---------------------------------------------------------------------

  /** ArrowUp: one entry further back, if there is one; the most recent
      command is entry 0. */
  function HistoryUp(st: TermState): (r: TermState)
    requires Valid(st)
    ensures Valid(r)
    ensures st.historyIndex < |st.commandHistory| - 1 ==>
              && r.historyIndex == st.historyIndex + 1
              && r.input == st.commandHistory[r.historyIndex]
              && r.suggestions == []
    ensures st.historyIndex >= |st.commandHistory| - 1 ==> r == st
    ensures r.screen == st.screen && r.commandHistory == st.commandHistory
    ensures r.suggestionIndex == st.suggestionIndex
  {
    if st.historyIndex < |st.commandHistory| - 1 then
      var i := st.historyIndex + 1;
      st.(historyIndex := i, input := st.commandHistory[i], suggestions := [])
    else st
  }

  /** ArrowDown: one entry more recent, or back to an empty line past the
      most recent one. */
  function HistoryDown(st: TermState): (r: TermState)
    requires Valid(st)
    ensures Valid(r)
    ensures st.historyIndex > 0 ==>
              r.historyIndex == st.historyIndex - 1 && r.input == st.commandHistory[r.historyIndex]
    ensures st.historyIndex <= 0 ==> r.historyIndex == -1 && r.input == ""
    ensures r.suggestions == []
    ensures r.screen == st.screen && r.commandHistory == st.commandHistory
    ensures r.suggestionIndex == st.suggestionIndex
  {
    if st.historyIndex > 0 then
      var i := st.historyIndex - 1;
      st.(historyIndex := i, input := st.commandHistory[i], suggestions := [])
    else
      st.(historyIndex := -1, input := "", suggestions := [])
  }

  /** ArrowUp then ArrowDown returns to the same history entry and input,
      unless the cursor was at the oldest entry or on the empty line. */
  lemma UpThenDown(st: TermState)
    requires Valid(st) && 0 <= st.historyIndex < |st.commandHistory| - 1
    requires st.input == st.commandHistory[st.historyIndex]
    ensures var up := HistoryUp(st);
            Valid(up) && HistoryDown(up).historyIndex == st.historyIndex && HistoryDown(up).input == st.input
  {
  }

  /** Pressing ArrowUp `k` times from the empty line recalls the `k`-th most
      recent command, as long as there is one. */
  lemma {:induction false} UpRecalls(st: TermState, k: nat)
    requires Valid(st) && st.historyIndex == -1
    requires 0 < k <= |st.commandHistory|
    ensures var r := UpTimes(st, k);
            r.historyIndex == k - 1 && r.input == st.commandHistory[k - 1]
  {
    if k > 1 {
      UpRecalls(st, k - 1);
    }
  }

  /** The state after `k` presses of ArrowUp. */
  function UpTimes(st: TermState, k: nat): (r: TermState)
    requires Valid(st)
    ensures Valid(r) && r.commandHistory == st.commandHistory
  {
    if k == 0 then st
    else
      var prev := UpTimes(st, k - 1);
      HistoryUp(prev)
  }

  // ---------------------------------------------------------------------
  // Completion candidates
  // ---------------------------------------------------------------------

  /** The entries of `xs` that begin with `w`, in order: after lower-casing
      them when `ignoreCase` holds (`w` is then lower-cased by the caller). */
  function Matching(xs: seq<string>, w: string, ignoreCase: bool): (r: seq<string>)
    ensures |r| <= |xs|
    ensures forall x :: x in r <==> x in xs && StartsWith(if ignoreCase then Lower(x) else x, w)
  {
    if |xs| == 0 then []
    else
      var rest := Matching(xs[1..], w, ignoreCase);
      if StartsWith(if ignoreCase then Lower(xs[0]) else xs[0], w) then [xs[0]] + rest else rest
  }

  /** The entry itself when it begins with `w`, nothing otherwise. */
  function MatchOf(x: string, w: string, ignoreCase: bool): seq<string> {
    if StartsWith(if ignoreCase then Lower(x) else x, w) then [x] else []
  }

  lemma MatchingCons(x: string, rest: seq<string>, w: string, ignoreCase: bool)
    ensures Matching([x] + rest, w, ignoreCase) == MatchOf(x, w, ignoreCase) + Matching(rest, w, ignoreCase)
  {
    assert ([x] + rest)[0] == x && ([x] + rest)[1..] == rest;
  }

  /** The candidates keep the order of the list they come from, which fixes
      the first suggestion and the order Tab cycles through. */
  lemma {:induction false} MatchingOrder(xs: seq<string>, ys: seq<string>, w: string, ignoreCase: bool)
    ensures Matching(xs + ys, w, ignoreCase) == Matching(xs, w, ignoreCase) + Matching(ys, w, ignoreCase)
    decreases |xs|
  {
    if |xs| == 0 {
      assert xs + ys == ys;
    } else {
      var x, rest := xs[0], xs[1..];
      assert xs == [x] + rest;
      assert xs + ys == [x] + (rest + ys);
      MatchingOrder(rest, ys, w, ignoreCase);
      MatchingCons(x, rest + ys, w, ignoreCase);
      MatchingCons(x, rest, w, ignoreCase);
      AppendAssoc(MatchOf(x, w, ignoreCase), Matching(rest, w, ignoreCase), Matching(ys, w, ignoreCase));
    }
  }

  /** `parts[parts.length - 1]` for `parts = input.split(' ')`. */
  function CurrentWord(input: string): string {
    var parts := Split(input, ' ');
    parts[|parts| - 1]
  }

  /** `input.trim().split(/\s+/)`. */
  function CommandParts(input: string): seq<string> {
    SplitWs(Trim(input))
  }

  /** Tab completes a command word when the trimmed line is one piece and
      that piece is the word under the cursor. */
  predicate CompletingCommand(input: string) {
    var cp := CommandParts(input);
    |cp| <= 1 && cp[0] == CurrentWord(input)
  }

  /** `cat` and `open` complete project names. */
  predicate TakesProjectName(input: string) {
    Lower(CommandParts(input)[0]) in ["cat", "open"]
  }

  /** The text a project name is completed from: nothing after a trailing
      space, otherwise the last white-space separated piece. */
  function ArgToComplete(input: string): string {
    var cp := CommandParts(input);
    if EndsWith(input, ' ') then "" else cp[|cp| - 1]
  }

  /** `potentialCompletions`: commands extending the current word, or, after
      `cat` or `open`, project names extending the argument regardless of
      case. */
  function Completions(input: string, projects: seq<Project>): seq<string> {
    if CompletingCommand(input) then Matching(Commands, CurrentWord(input), false)
    else if TakesProjectName(input) then Matching(ProjectNames(projects), Lower(ArgToComplete(input)), true)
    else []
  }

  /** Completing a command word offers exactly the commands that extend it. */
  lemma CommandCompletions(input: string, projects: seq<Project>, x: string)
    requires CompletingCommand(input)
    ensures x in Completions(input, projects) <==> x in Commands && StartsWith(x, CurrentWord(input))
  {
  }

  /** After `cat` or `open`, the candidates are exactly the names of
      portfolio projects that extend the argument, ignoring case. */
  lemma NameCompletions(input: string, projects: seq<Project>, x: string)
    requires !CompletingCommand(input) && TakesProjectName(input)
    ensures x in Completions(input, projects) <==>
              && (exists p :: p in projects && !IsSystemId(p.id) && p.name == x)
              && StartsWith(Lower(x), Lower(ArgToComplete(input)))
  {
    var names := ProjectNames(projects);
    assert x in Completions(input, projects) <==> x in names && StartsWith(Lower(x), Lower(ArgToComplete(input)));
  }

  /** Any other line has nothing to complete. */
  lemma NoCompletions(input: string, projects: seq<Project>)
    requires !CompletingCommand(input) && !TakesProjectName(input)
    ensures Completions(input, projects) == []
  {
  }

  /** The word under the cursor is the text after the last space. */
  lemma CurrentWordIsTail(input: string)
    ensures CurrentWord(input) == input[LastPieceStart(input, ' ')..]
  {
    LastPiece(input, ' ');
  }

  /** The line with its last space-separated word replaced by `w`. */
  function ReplaceWord(input: string, w: string): string {
    ReplaceLast(input, ' ', w)
  }

  /** Replacing the last word keeps everything up to the last space. */
  lemma ReplaceWordKeepsPrefix(input: string, w: string)
    ensures ReplaceWord(input, w) == input[..LastPieceStart(input, ' ')] + w
  {
    ReplaceLastPiece(input, ' ', w);
  }

  // ---------------------------------------------------------------------
  // Tab
  // ---------------------------------------------------------------------

  /** The handler gives up at once when the word under the cursor is empty
      and the line does not end with a space. */
  predicate NothingTyped(input: string) {
    CurrentWord(input) == "" && !EndsWith(input, ' ')
  }

  /** That happens exactly for the empty line. */
  lemma NothingTypedIffEmpty(input: string)
    ensures NothingTyped(input) <==> input == ""
  {
    assert Split("", ' ') == [""];
    if input != "" && CurrentWord(input) == "" {
      CurrentWordIsTail(input);
      LastPieceStartSpec(input, ' ');
    }
  }

  /** Tab without suggestions on offer, given the candidates: a single one
      replaces the word under the cursor (and is followed by a space when
      it is a command); several are offered with the first shown; none
      changes nothing. */
  function Offer(st: TermState, cands: seq<string>, completing: bool): (r: TermState)
    ensures r.screen == st.screen && r.commandHistory == st.commandHistory && r.historyIndex == st.historyIndex
    ensures |cands| == 0 ==> r == st
    ensures |cands| == 1 ==>
              && r.input == st.input[..LastPieceStart(st.input, ' ')] + cands[0] + (if completing then " " else "")
              && r.suggestions == st.suggestions && r.suggestionIndex == st.suggestionIndex
    ensures |cands| > 1 ==>
              && r.input == st.input[..LastPieceStart(st.input, ' ')] + cands[0]
              && r.suggestions == cands && r.suggestionIndex == 0
  {
    if |cands| == 0 then st
    else
      ReplaceWordKeepsPrefix(st.input, cands[0]);
      if |cands| == 1 then
        st.(input := ReplaceWord(st.input, cands[0]) + (if completing then " " else ""))
      else
        st.(suggestions := cands, suggestionIndex := 0, input := ReplaceWord(st.input, cands[0]))
  }

  /** Tab when no suggestions are on offer. */
  function Complete(st: TermState, projects: seq<Project>): (r: TermState)
    ensures r.screen == st.screen && r.commandHistory == st.commandHistory && r.historyIndex == st.historyIndex
    ensures Valid(st) && |st.suggestions| == 0 ==> Valid(r)
  {
    if NothingTyped(st.input) then st
    else Offer(st, Completions(st.input, projects), CompletingCommand(st.input))
  }

  /** Tab as the handler is written: while suggestions are on offer, the next
      one replaces the last space-separated word of the input. */
  function TabAsWritten(st: TermState, projects: seq<Project>): (r: TermState)
    ensures r.screen == st.screen && r.commandHistory == st.commandHistory && r.historyIndex == st.historyIndex
    ensures |st.suggestions| > 0 ==>
              && r.suggestions == st.suggestions
              && r.suggestionIndex == (st.suggestionIndex + 1) % |st.suggestions|
    ensures Valid(st) ==> Valid(r)
  {
    if |st.suggestions| > 0 then CycleAsWritten(st) else Complete(st, projects)
  }

  /** The suggestion after the one shown, wrapping round to the first. */
  function NextIndex(st: TermState): (i: nat)
    requires |st.suggestions| > 0
    ensures i < |st.suggestions|
  {
    (st.suggestionIndex + 1) % |st.suggestions|
  }

  /** The handler's step to the next suggestion: only the text after the
      last space is replaced. */
  function CycleAsWritten(st: TermState): (r: TermState)
    requires |st.suggestions| > 0
    ensures r.input == st.input[..LastPieceStart(st.input, ' ')] + st.suggestions[NextIndex(st)]
    ensures Valid(st) ==> Valid(r)
  {
    ReplaceWordKeepsPrefix(st.input, st.suggestions[NextIndex(st)]);
    var keep := st.input[..LastPieceStart(st.input, ' ')];
    assert (keep + st.suggestions[NextIndex(st)])[|keep|..] == st.suggestions[NextIndex(st)];
    st.(suggestionIndex := NextIndex(st), input := ReplaceWord(st.input, st.suggestions[NextIndex(st)]))
  }

  /** The text before the suggestion currently shown in the input. */
  function Base(st: TermState): (b: string)
    requires Valid(st) && |st.suggestions| > 0
    ensures st.input == b + st.suggestions[st.suggestionIndex]
  {
    st.input[..|st.input| - |st.suggestions[st.suggestionIndex]|]
  }

  /** The step to the next suggestion with the shown one replaced as a
      whole, so that a project name containing spaces is swapped for the
      next one. */
  function Cycle(st: TermState): (r: TermState)
    requires Valid(st) && |st.suggestions| > 0
    ensures Valid(r) && |r.suggestions| > 0
    ensures r.suggestions == st.suggestions && r.suggestionIndex == NextIndex(st)
    ensures Base(r) == Base(st)
    ensures r.screen == st.screen && r.commandHistory == st.commandHistory && r.historyIndex == st.historyIndex
  {
    var next := NextIndex(st);
    var r := st.(suggestionIndex := next, input := Base(st) + st.suggestions[next]);
    assert r.input[|r.input| - |st.suggestions[next]|..] == st.suggestions[next];
    r
  }

  /** Tab with the cycling fixed. */
  function Tab(st: TermState, projects: seq<Project>): (r: TermState)
    requires Valid(st)
    ensures Valid(r)
    ensures r.screen == st.screen && r.commandHistory == st.commandHistory && r.historyIndex == st.historyIndex
  {
    if |st.suggestions| > 0 then Cycle(st) else Complete(st, projects)
  }

  /** Tab on an empty line does nothing. */
  lemma TabOnEmptyLine(st: TermState, projects: seq<Project>)
    requires Valid(st) && st.input == "" && st.suggestions == []
    ensures Tab(st, projects) == st
  {
    NothingTypedIffEmpty(st.input);
  }

  /** A single candidate replaces the word under the cursor, followed by a
      space when it is a command; several are offered, the first shown. */
  lemma TabCompletes(st: TermState, projects: seq<Project>)
    requires Valid(st) && st.suggestions == [] && st.input != ""
    ensures var cands := Completions(st.input, projects);
            var keep := st.input[..LastPieceStart(st.input, ' ')];
            var r := Tab(st, projects);
            && (|cands| == 0 ==> r == st)
            && (|cands| == 1 ==>
                  r.input == keep + cands[0] + (if CompletingCommand(st.input) then " " else "")
                  && r.suggestions == [])
            && (|cands| > 1 ==>
                  r.input == keep + cands[0] && r.suggestions == cands && r.suggestionIndex == 0)
  {
    NothingTypedIffEmpty(st.input);
  }

  /** `k` presses of Tab. */
  function TabTimes(st: TermState, projects: seq<Project>, k: nat): (r: TermState)
    requires Valid(st)
    ensures Valid(r)
  {
    if k == 0 then st else Tab(TabTimes(st, projects, k - 1), projects)
  }

  /** While suggestions are on offer, `k` presses of Tab show the suggestion
      `k` places further on, cyclically, after the same text. */
  lemma {:induction false} TabCycles(st: TermState, projects: seq<Project>, k: nat)
    requires Valid(st) && |st.suggestions| > 0
    ensures var r := TabTimes(st, projects, k);
            && r.suggestions == st.suggestions
            && r.suggestionIndex == (st.suggestionIndex + k) % |st.suggestions|
            && r.input == Base(st) + st.suggestions[(st.suggestionIndex + k) % |st.suggestions|]
  {
    var n := |st.suggestions|;
    if k == 0 {
      Arith.DivModUnique(st.suggestionIndex, n, 0, st.suggestionIndex);
    } else {
      TabCycles(st, projects, k - 1);
      var prev := TabTimes(st, projects, k - 1);
      var i := (st.suggestionIndex + k - 1) % n;
      assert prev.suggestionIndex == i;
      assert TabTimes(st, projects, k) == Cycle(prev);
      Arith.ModStep(st.suggestionIndex + k - 1, n);
      assert NextIndex(prev) == (i + 1) % n == (st.suggestionIndex + k) % n;
    }
  }

  /** As written, cycling away from a suggestion that contains a space does
      not restore the text before it: only its last word is replaced. */
  lemma CyclingSplitsNames(st: TermState, projects: seq<Project>)
    requires Valid(st) && |st.suggestions| > 0
    requires ' ' in st.suggestions[st.suggestionIndex]
    ensures var r := TabAsWritten(st, projects);
            r.input != Base(st) + r.suggestions[r.suggestionIndex]
  {
    var w := st.suggestions[st.suggestionIndex];
    var b := Base(st);
    var next := st.suggestions[NextIndex(st)];
    var k :| 0 <= k < |w| && w[k] == ' ';
    assert st.input[|b| + k] == ' ';
    LastPieceStartSpec(st.input, ' ');
    assert LastPieceStart(st.input, ' ') > |b| + k;
    assert TabAsWritten(st, projects) == CycleAsWritten(st);
  }

  // ---------------------------------------------------------------------
  // Key presses
  // ---------------------------------------------------------------------

  datatype Key = Typed(value: string) | TabKey | EnterKey | ArrowUp | ArrowDown

  /** The terminal after one key press, with the effect Enter hands on. */
  function Press(st: TermState, key: Key, projects: seq<Project>): (r: (TermState, Effect))
    requires Valid(st)
    ensures Valid(r.0)
    ensures !key.EnterKey? ==> r.1 == NoEffect && r.0.screen == st.screen
  {
    match key
    case Typed(v) => (InputChange(st, v), NoEffect)
    case TabKey => (Tab(st, projects), NoEffect)
    case EnterKey => Enter(st, projects)
    case ArrowUp => (HistoryUp(st), NoEffect)
    case ArrowDown => (HistoryDown(st), NoEffect)
  }

  /** The terminal after a sequence of key presses. */
  function Keys(st: TermState, keys: seq<Key>, projects: seq<Project>): (r: TermState)
    requires Valid(st)
    ensures Valid(r)
    decreases |keys|
  {
    if |keys| == 0 then st else Keys(Press(st, keys[0], projects).0, keys[1..], projects)
  }

  /** The opening state is valid, so every state keys can reach is. */
  lemma InitialValid()
    ensures Valid(Initial)
  {
  }

  /** Only Enter adds commands to the history, each time at its front. */
  lemma {:induction false} HistoryGrowsOnlyOnEnter(st: TermState, keys: seq<Key>, projects: seq<Project>)
    requires Valid(st)
    requires forall i :: 0 <= i < |keys| ==> !keys[i].EnterKey?
    ensures Keys(st, keys, projects).commandHistory == st.commandHistory
    ensures Keys(st, keys, projects).screen == st.screen
    decreases |keys|
  {
    if |keys| > 0 {
      HistoryGrowsOnlyOnEnter(Press(st, keys[0], projects).0, keys[1..], projects);
    }
  }

  /** The key handler as written: Tab cycles with `TabAsWritten` and Enter
      runs `EnterAsWritten`. */
  function PressAsWritten(st: TermState, key: Key, projects: seq<Project>): (r: (TermState, Effect))
    requires Valid(st)
    ensures Valid(r.0)
    ensures !key.EnterKey? ==> r.1 == NoEffect && r.0.screen == st.screen
  {
    match key
    case Typed(v) => (InputChange(st, v), NoEffect)
    case TabKey => (TabAsWritten(st, projects), NoEffect)
    case EnterKey => EnterAsWritten(st, projects)
    case ArrowUp => (HistoryUp(st), NoEffect)
    case ArrowDown => (HistoryDown(st), NoEffect)
  }

  /** The terminal as written after a sequence of key presses. */
  function KeysAsWritten(st: TermState, keys: seq<Key>, projects: seq<Project>): (r: TermState)
    requires Valid(st)
    ensures Valid(r)
    decreases |keys|
  {
    if |keys| == 0 then st else KeysAsWritten(PressAsWritten(st, keys[0], projects).0, keys[1..], projects)
  }

  /** The corrected handler differs from the written one only on Tab and on
      a `clear` entered with Enter. */
  lemma PressDiffersOnlyOnFixes(st: TermState, key: Key, projects: seq<Project>)
    requires Valid(st)
    ensures !key.TabKey? && PressAsWritten(st, key, projects).1 != ClearScreen ==>
              Press(st, key, projects) == PressAsWritten(st, key, projects)
  {
  }

  /** As written too, only Enter adds commands to the history or lines to the
      screen. */
  lemma {:induction false} HistoryGrowsOnlyOnEnterAsWritten(st: TermState, keys: seq<Key>, projects: seq<Project>)
    requires Valid(st)
    requires forall i :: 0 <= i < |keys| ==> !keys[i].EnterKey?
    ensures KeysAsWritten(st, keys, projects).commandHistory == st.commandHistory
    ensures KeysAsWritten(st, keys, projects).screen == st.screen
    decreases |keys|
  {
    if |keys| > 0 {
      HistoryGrowsOnlyOnEnterAsWritten(PressAsWritten(st, keys[0], projects).0, keys[1..], projects);
    }
  }
}
