/** The line-at-a-time interpreter of if/then/else/fi, on values.

    A line is its list of arguments; an empty list is a blank or comment line.  Commands are
    an oracle: whether a command fails may depend on everything executed before it and on
    the exit status that `$?` would expand to. */
module ParserState {

  datatype Mode = Normal | If | Then | Else

  datatype Level = Level(mode: Mode, disabled: bool, ifcond: bool)

  /** `ndx` is the current level of the stack `st`. */
  datatype Parser = Parser(st: seq<Level>, ndx: nat, fail: bool)

  type Line = seq<string>

  /** A command that was run, whether as the test of an `if`, and whether it failed. */
  datatype Executed = Executed(argv: Line, isTest: bool, failed: bool)

  type History = seq<Executed>
  type Oracle = (History, Line, bool) -> bool

  datatype Shell = Shell(np: Parser, history: History)

  const MaxArgvEntries: nat := 10

  /** Arguments beyond the size of the argument vector are dropped: nine words are kept. */
  function Argv(cmd: Line): (argv: Line)
    ensures |cmd| <= 9 ==> argv == cmd
    ensures |cmd| > 9 ==> |argv| == 9 && argv <= cmd
  {
    if |cmd| < MaxArgvEntries then cmd else cmd[..MaxArgvEntries - 1]
  }

  predicate WfParser(np: Parser) {
    np.ndx < |np.st|
  }

  function Top(np: Parser): Level
    requires WfParser(np)
  {
    np.st[np.ndx]
  }

  predicate LevelEnabled(level: Level) {
    !level.disabled && (level.mode == Then ==> !level.ifcond) && (level.mode == Else ==> level.ifcond)
  }

  predicate CmdEnabled(np: Parser)
    requires WfParser(np)
  {
    LevelEnabled(Top(np))
  }

  const Bottom := Level(Normal, false, false)

  function Reset(np: Parser): Parser
    requires WfParser(np)
  {
    np.(ndx := 0, st := np.st[0 := Bottom])
  }

  function SetMode(np: Parser, mode: Mode): Parser
    requires WfParser(np)
  {
    np.(st := np.st[np.ndx := Top(np).(mode := mode)])
  }

  /** A new level, disabled if the current one is. */
  function Push(np: Parser): Parser
    requires WfParser(np) && np.ndx + 1 < |np.st|
  {
    np.(ndx := np.ndx + 1, st := np.st[np.ndx + 1 := Level(If, !CmdEnabled(np), false)])
  }

  /** What a line does to the control structure, and the command left to run. */
  datatype Control = Continue(np: Parser, cmd: Line) | SyntaxError(np: Parser)

  function IfThenElse(np: Parser, line: Line): (c: Control)
    requires WfParser(np)
    ensures WfParser(c.np) && |c.np.st| == |np.st|
  {
    if line == [] then
      Continue(np, [])
    else if line[0] == "if" then
      if |line| == 1 || Top(np).mode == If || np.ndx + 1 >= |np.st| then SyntaxError(Reset(np))
      else Continue(Push(np), line[1..])
    else if line[0] == "then" then
      if |line| > 1 || Top(np).mode != If then SyntaxError(Reset(np)) else Continue(SetMode(np, Then), [])
    else if line[0] == "else" then
      if |line| > 1 || Top(np).mode != Then then SyntaxError(Reset(np)) else Continue(SetMode(np, Else), [])
    else if line[0] == "fi" then
      if |line| > 1 || (Top(np).mode != Then && Top(np).mode != Else) || np.ndx < 1 then SyntaxError(Reset(np))
      else Continue(np.(ndx := np.ndx - 1), [])
    else if Top(np).mode == If then
      SyntaxError(Reset(np))
    else
      Continue(np, line)
  }

  /** The result of a test goes into its level, any other result is the exit status. */
  function SaveResult(np: Parser, failed: bool): Parser
    requires WfParser(np)
  {
    if Top(np).mode == If then np.(fail := false, st := np.st[np.ndx := Top(np).(ifcond := failed)])
    else np.(fail := failed)
  }

  /** One line; the second result is whether it returns success. */
  function Parse(sh: Shell, line: Line, exec: Oracle): (r: (Shell, bool))
    requires WfParser(sh.np)
    ensures WfParser(r.0.np) && |r.0.np.st| == |sh.np.st|
  {
    match IfThenElse(sh.np, line)
    case SyntaxError(np) => (Shell(SaveResult(np, true), sh.history), Top(np).mode == If)
    case Continue(np, cmd) =>
      if cmd == [] || !CmdEnabled(np) then (Shell(np, sh.history), true)
      else
        var failed := exec(sh.history, Argv(cmd), np.fail);
        var isTest := Top(np).mode == If;
        (Shell(SaveResult(np, failed), sh.history + [Executed(Argv(cmd), isTest, failed)]), isTest || !failed)
  }

  /** The console loop: every line in turn, whatever it returns. */
  function Console(sh: Shell, lines: seq<Line>, exec: Oracle): (sh': Shell)
    requires WfParser(sh.np)
    ensures WfParser(sh'.np) && |sh'.np.st| == |sh.np.st|
    decreases lines
  {
    if lines == [] then sh else Console(Parse(sh, lines[0], exec).0, lines[1..], exec)
  }

  /** The lines of a script in turn, up to the first that does not return success. */
  function ScriptLines(sh: Shell, lines: seq<Line>, exec: Oracle): (r: (Shell, bool))
    requires WfParser(sh.np)
    ensures WfParser(r.0.np) && |r.0.np.st| == |sh.np.st|
    decreases lines
  {
    if lines == [] then (sh, true)
    else
      var (sh', ok) := Parse(sh, lines[0], exec);
      if ok then ScriptLines(sh', lines[1..], exec) else (sh', false)
  }

  /** A script without any line does not succeed. */
  function Script(sh: Shell, lines: seq<Line>, exec: Oracle): (r: (Shell, bool))
    requires WfParser(sh.np)
    ensures WfParser(r.0.np) && |r.0.np.st| == |sh.np.st|
  {
    var (sh', ok) := ScriptLines(sh, lines, exec);
    (sh', lines != [] && ok)
  }

  // ---------------------------------------------------------------- lines that do not fit

  /** A syntax error: a keyword with too many or too few words, in the wrong place, or one
      level too deep, or a command where `then` is expected. */
  predicate Misplaced(np: Parser, line: Line)
    requires WfParser(np)
  {
    var mode := Top(np).mode;
    line != [] &&
    match line[0]
    case "if" => line == ["if"] || mode == If || np.ndx == |np.st| - 1
    case "then" => line != ["then"] || mode in {Normal, Then, Else}
    case "else" => line != ["else"] || mode in {Normal, If, Else}
    case "fi" => line != ["fi"] || mode in {Normal, If}
    case _ => mode == If
  }

  lemma ErrorIff(np: Parser, line: Line)
    requires StackOk(np)
    ensures IfThenElse(np, line).SyntaxError? <==> Misplaced(np, line)
  {
    assert Top(np).mode == Then || Top(np).mode == Else ==> np.ndx >= 1;
    if line != [] && |line| == 1 { assert line == [line[0]]; }
  }

  /** After an error the shell is at its outermost level, enabled, with a failed exit status;
      nothing was run, and the line returns failure. */
  lemma AfterError(sh: Shell, line: Line, exec: Oracle)
    requires WfParser(sh.np) && IfThenElse(sh.np, line).SyntaxError?
    ensures var (sh', ok) := Parse(sh, line, exec);
            && !ok && sh'.history == sh.history && sh'.np.fail
            && sh'.np.ndx == 0 && Top(sh'.np).mode == Normal && CmdEnabled(sh'.np)
  {}

  /** A line that is not an error, and of which nothing is to be run, leaves the exit status
      alone and succeeds. */
  lemma NothingToRun(sh: Shell, line: Line, exec: Oracle)
    requires WfParser(sh.np) && IfThenElse(sh.np, line).Continue?
    requires var c := IfThenElse(sh.np, line); c.cmd == [] || !CmdEnabled(c.np)
    ensures var (sh', ok) := Parse(sh, line, exec); ok && sh'.history == sh.history && sh'.np.fail == sh.np.fail
  {}

  // ---------------------------------------------------------------- arbitrary input

  /** The shape the stack keeps on any input: level 0 is normal and enabled, levels below the
      top are in a branch, and a level is disabled exactly when the one below is not
      enabled. */
  predicate StackOk(np: Parser) {
    && WfParser(np)
    && np.st[0].mode == Normal && !np.st[0].disabled
    && (forall j | 0 < j < np.ndx :: np.st[j].mode == Then || np.st[j].mode == Else)
    && (np.ndx > 0 ==> Top(np).mode != Normal)
    && (forall j | 0 < j <= np.ndx :: np.st[j].disabled == !LevelEnabled(np.st[j - 1]))
  }

  lemma ResetKeepsStack(np: Parser)
    requires StackOk(np)
    ensures StackOk(Reset(np))
  {}

  lemma PushKeepsStack(np: Parser)
    requires StackOk(np) && np.ndx + 1 < |np.st| && Top(np).mode != If
    ensures StackOk(Push(np))
  {
    var np' := Push(np);
    forall j | 0 < j <= np'.ndx ensures np'.st[j].disabled == !LevelEnabled(np'.st[j - 1]) {
      if j <= np.ndx { assert np.st[j].disabled == !LevelEnabled(np.st[j - 1]); }
    }
  }

  lemma BranchKeepsStack(np: Parser, mode: Mode)
    requires StackOk(np) && np.ndx > 0 && (mode == Then || mode == Else)
    ensures StackOk(SetMode(np, mode))
  {}

  lemma PopKeepsStack(np: Parser)
    requires StackOk(np) && np.ndx > 0
    ensures StackOk(np.(ndx := np.ndx - 1))
  {}

  lemma ControlKeepsStack(np: Parser, line: Line)
    requires StackOk(np)
    ensures StackOk(IfThenElse(np, line).np)
  {
    assert Top(np).mode == If ==> np.ndx > 0;
    assert Top(np).mode == Then ==> np.ndx > 0;
    ResetKeepsStack(np);
    if np.ndx > 0 {
      BranchKeepsStack(np, Then);
      BranchKeepsStack(np, Else);
      PopKeepsStack(np);
    }
    if np.ndx + 1 < |np.st| && Top(np).mode != If { PushKeepsStack(np); }
    hide StackOk, Reset, Push, SetMode;
  }

  lemma ParseKeepsStack(sh: Shell, line: Line, exec: Oracle)
    requires StackOk(sh.np)
    ensures StackOk(Parse(sh, line, exec).0.np)
  {
    ControlKeepsStack(sh.np, line);
  }

  /** Every sequence of lines, well formed or not, keeps the stack in shape. */
  lemma {:induction false} ConsoleKeepsStack(sh: Shell, lines: seq<Line>, exec: Oracle)
    requires StackOk(sh.np)
    ensures StackOk(Console(sh, lines, exec).np)
    decreases lines
  {
    assert WfParser(sh.np);
    hide Parse, StackOk;
    if lines != [] {
      ParseKeepsStack(sh, lines[0], exec);
      ConsoleKeepsStack(Parse(sh, lines[0], exec).0, lines[1..], exec);
    }
  }

  /** Hence `fi` in a valid context always has a level to pop: the internal-error exit of
      `fi` is never taken. */
  lemma FiHasLevel(np: Parser)
    requires StackOk(np) && (Top(np).mode == Then || Top(np).mode == Else)
    ensures np.ndx >= 1
  {}
}
