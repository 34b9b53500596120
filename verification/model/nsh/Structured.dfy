/** Structured programs, their meaning by recursion over the structure, and the proof that
    the line-at-a-time interpreter computes it. */
module Structured {
  import opened ParserState

  /** A list of statements: blank lines, commands, and conditionals with an optional else
      branch. */
  datatype Program =
    | End
    | Blank(next: Program)
    | Run(argv: Line, next: Program)
    | Branch(test: Line, yes: Program, hasElse: bool, no: Program, next: Program)

  predicate IsKeyword(word: string) {
    word == "if" || word == "then" || word == "else" || word == "fi"
  }

  predicate WellFormed(p: Program) {
    match p
    case End => true
    case Blank(next) => WellFormed(next)
    case Run(argv, next) => argv != [] && !IsKeyword(argv[0]) && WellFormed(next)
    case Branch(test, yes, hasElse, no, next) =>
      test != [] && WellFormed(yes) && WellFormed(no) && (!hasElse ==> no == End) && WellFormed(next)
  }

  function Max(a: nat, b: nat): nat { if a > b then a else b }

  function Depth(p: Program): nat {
    match p
    case End => 0
    case Blank(next) => Depth(next)
    case Run(argv, next) => Depth(next)
    case Branch(test, yes, hasElse, no, next) => Max(1 + Max(Depth(yes), Depth(no)), Depth(next))
  }

  /** The text of a program, one line per entry. */
  function Lines(p: Program): seq<Line> {
    match p
    case End => []
    case Blank(next) => [[]] + Lines(next)
    case Run(argv, next) => [argv] + Lines(next)
    case Branch(test, yes, hasElse, no, next) =>
      [["if"] + test, ["then"]] + Lines(yes) + (if hasElse then [["else"]] + Lines(no) else []) + [["fi"]] + Lines(next)
  }

  /** What executing statements leads to: what was run, and the exit status. */
  datatype Outcome = Outcome(history: History, fail: bool)

  /** The meaning of a program.  A test runs first; it resets the exit status and selects the
      branch. */
  function Eval(p: Program, o: Outcome, exec: Oracle): Outcome
    decreases p
  {
    match p
    case End => o
    case Blank(next) => Eval(next, o, exec)
    case Run(argv, next) => Eval(next, RunCommand(argv, o, exec), exec)
    case Branch(test, yes, hasElse, no, next) =>
      var failed := exec(o.history, test, o.fail);
      var o' := RunTest(test, o, exec);
      Eval(next, if !failed then Eval(yes, o', exec) else Eval(no, o', exec), exec)
  }

  function RunCommand(argv: Line, o: Outcome, exec: Oracle): Outcome {
    var failed := exec(o.history, argv, o.fail);
    Outcome(o.history + [Executed(argv, false, failed)], failed)
  }

  function RunTest(test: Line, o: Outcome, exec: Oracle): Outcome {
    Outcome(o.history + [Executed(test, true, exec(o.history, test, o.fail))], false)
  }

  /** No command or test has more than nine words. */
  predicate Short(p: Program) {
    match p
    case End => true
    case Blank(next) => Short(next)
    case Run(argv, next) => |argv| <= 9 && Short(next)
    case Branch(test, yes, hasElse, no, next) => |test| <= 9 && Short(yes) && Short(no) && Short(next)
  }

  /** The program with all words beyond the ninth dropped. */
  function Kept(p: Program): Program {
    match p
    case End => End
    case Blank(next) => Blank(Kept(next))
    case Run(argv, next) => Run(Argv(argv), Kept(next))
    case Branch(test, yes, hasElse, no, next) => Branch(Argv(test), Kept(yes), hasElse, Kept(no), Kept(next))
  }

  lemma {:induction false} ShortIsKept(p: Program)
    requires Short(p)
    ensures Kept(p) == p
  {
    match p
    case End =>
    case Blank(next) => ShortIsKept(next);
    case Run(argv, next) => ShortIsKept(next);
    case Branch(test, yes, hasElse, no, next) =>
      ShortIsKept(yes);
      ShortIsKept(no);
      ShortIsKept(next);
  }

  // ---------------------------------------------------------------- the simulation

  /** The shell is between statements: not waiting for a `then`. */
  predicate Between(np: Parser) {
    WfParser(np) && Top(np).mode != If
  }

  /** Same level and same stack up to it; entries above the top are left-overs. */
  predicate SameStack(np: Parser, np': Parser) {
    && WfParser(np) && |np'.st| == |np.st| && np'.ndx == np.ndx
    && np'.st[..np.ndx + 1] == np.st[..np.ndx + 1]
  }

  lemma SameStackTop(np: Parser, np': Parser)
    requires SameStack(np, np')
    ensures WfParser(np') && Top(np') == Top(np)
  {
    assert np'.st[np.ndx] == np'.st[..np.ndx + 1][np.ndx];
  }

  lemma SameStackTrans(a: Parser, b: Parser, c: Parser)
    requires SameStack(a, b) && SameStack(b, c)
    ensures SameStack(a, c)
  {}

  /** No line of the run is a syntax error. */
  predicate Clean(sh: Shell, lines: seq<Line>, exec: Oracle)
    requires WfParser(sh.np)
    decreases lines
  {
    lines == [] || (
      && IfThenElse(sh.np, lines[0]).Continue?
      && Clean(Parse(sh, lines[0], exec).0, lines[1..], exec))
  }

  lemma {:induction false} ConsoleSplit(sh: Shell, l1: seq<Line>, l2: seq<Line>, exec: Oracle)
    requires WfParser(sh.np)
    ensures Console(sh, l1 + l2, exec) == Console(Console(sh, l1, exec), l2, exec)
    ensures Clean(sh, l1 + l2, exec) <==> Clean(sh, l1, exec) && Clean(Console(sh, l1, exec), l2, exec)
    decreases l1
  {
    hide Parse, IfThenElse;
    if l1 == [] {
      assert l1 + l2 == l2;
    } else {
      assert (l1 + l2)[1..] == l1[1..] + l2;
      ConsoleSplit(Parse(sh, l1[0], exec).0, l1[1..], l2, exec);
    }
  }

  function OutcomeOf(sh: Shell): Outcome {
    Outcome(sh.history, sh.np.fail)
  }

  /** Running the lines of a program, with enough levels left: an enabled shell does what the
      program means, a disabled one does nothing, and both end at the level they started. */
  predicate Simulates(sh: Shell, p: Program, sh': Shell, exec: Oracle)
    requires WfParser(sh.np)
  {
    && SameStack(sh.np, sh'.np)
    && OutcomeOf(sh') == if CmdEnabled(sh.np) then Eval(Kept(p), OutcomeOf(sh), exec) else OutcomeOf(sh)
  }

  // One line at a time.

  lemma ConsoleStep(sh: Shell, line: Line, rest: seq<Line>, exec: Oracle)
    requires WfParser(sh.np)
    ensures Console(sh, [line] + rest, exec) == Console(Parse(sh, line, exec).0, rest, exec)
    ensures Clean(sh, [line] + rest, exec) <==>
              IfThenElse(sh.np, line).Continue? && Clean(Parse(sh, line, exec).0, rest, exec)
  {
    hide Parse, IfThenElse;
    assert ([line] + rest)[1..] == rest;
  }

  lemma BlankLine(sh: Shell, exec: Oracle)
    requires Between(sh.np)
    ensures Parse(sh, [], exec) == (sh, true) && IfThenElse(sh.np, []).Continue?
  {}

  lemma RunLine(sh: Shell, argv: Line, exec: Oracle)
    requires Between(sh.np) && argv != [] && !IsKeyword(argv[0])
    ensures var sh' := Parse(sh, argv, exec).0;
            && sh'.np == sh.np.(fail := sh'.np.fail)
            && OutcomeOf(sh') == (if CmdEnabled(sh.np) then RunCommand(Argv(argv), OutcomeOf(sh), exec) else OutcomeOf(sh))
            && IfThenElse(sh.np, argv).Continue?
  {
    hide Argv;
  }

  /** One level above `sh`, in the branch `mode` of a conditional whose test failed or not. */
  predicate InBranch(sh: Shell, s: Shell, mode: Mode, ifcond: bool)
    requires WfParser(sh.np)
  {
    && WfParser(s.np) && |s.np.st| == |sh.np.st| && s.np.ndx == sh.np.ndx + 1
    && s.np.st[..sh.np.ndx + 1] == sh.np.st[..sh.np.ndx + 1]
    && Top(s.np) == Level(mode, !CmdEnabled(sh.np), ifcond)
  }

  /** Whether the test of a conditional is run and fails. */
  predicate TestFails(sh: Shell, test: Line, exec: Oracle)
    requires WfParser(sh.np)
  {
    CmdEnabled(sh.np) && exec(sh.history, Argv(test), sh.np.fail)
  }

  lemma IfLine(sh: Shell, test: Line, exec: Oracle)
    requires Between(sh.np) && test != [] && sh.np.ndx + 1 < |sh.np.st|
    ensures IfThenElse(sh.np, ["if"] + test).Continue?
    ensures var s := Parse(sh, ["if"] + test, exec).0;
            && InBranch(sh, s, If, TestFails(sh, test, exec))
            && OutcomeOf(s) == if CmdEnabled(sh.np) then RunTest(Argv(test), OutcomeOf(sh), exec) else OutcomeOf(sh)
  {
    hide Argv;
    assert (["if"] + test)[1..] == test;
  }

  lemma ThenLine(sh: Shell, s: Shell, c: bool, exec: Oracle)
    requires WfParser(sh.np) && InBranch(sh, s, If, c)
    ensures IfThenElse(s.np, ["then"]).Continue?
    ensures var s' := Parse(s, ["then"], exec).0; InBranch(sh, s', Then, c) && OutcomeOf(s') == OutcomeOf(s)
  {}

  lemma ElseLine(sh: Shell, s: Shell, c: bool, exec: Oracle)
    requires WfParser(sh.np) && InBranch(sh, s, Then, c)
    ensures IfThenElse(s.np, ["else"]).Continue?
    ensures var s' := Parse(s, ["else"], exec).0; InBranch(sh, s', Else, c) && OutcomeOf(s') == OutcomeOf(s)
  {}

  lemma FiLine(sh: Shell, s: Shell, mode: Mode, c: bool, exec: Oracle)
    requires WfParser(sh.np) && InBranch(sh, s, mode, c) && (mode == Then || mode == Else)
    ensures IfThenElse(s.np, ["fi"]).Continue?
    ensures var s' := Parse(s, ["fi"], exec).0; SameStack(sh.np, s'.np) && OutcomeOf(s') == OutcomeOf(s)
  {}

  /** A branch leaves its own level as it was. */
  lemma BranchStays(sh: Shell, s: Shell, s': Shell, mode: Mode, c: bool)
    requires WfParser(sh.np) && InBranch(sh, s, mode, c) && SameStack(s.np, s'.np)
    ensures InBranch(sh, s', mode, c)
  {
    SameStackTop(s.np, s'.np);
    assert s'.np.st[..sh.np.ndx + 1] == s'.np.st[..s.np.ndx + 1][..sh.np.ndx + 1];
    assert s.np.st[..sh.np.ndx + 1] == s.np.st[..s.np.ndx + 1][..sh.np.ndx + 1];
  }

  /** The lines of a conditional, without what follows it. */
  function BranchLines(p: Program): seq<Line>
    requires p.Branch?
  {
    [["if"] + p.test] + ([["then"]] + (Lines(p.yes) + (ElseLines(p) + [["fi"]])))
  }

  function ElseLines(p: Program): seq<Line>
    requires p.Branch?
  {
    if p.hasElse then [["else"]] + Lines(p.no) else []
  }

  lemma BranchLinesAre(p: Program)
    requires p.Branch?
    ensures Lines(p) == BranchLines(p) + Lines(p.next)
  {
    hide Lines;
    var e := ElseLines(p);
    assert Lines(p) == [["if"] + p.test, ["then"]] + Lines(p.yes) + e + [["fi"]] + Lines(p.next) by { LinesOfBranch(p); }
  }

  lemma LinesOfBranch(p: Program)
    requires p.Branch?
    ensures Lines(p) == [["if"] + p.test, ["then"]] + Lines(p.yes) + ElseLines(p) + [["fi"]] + Lines(p.next)
  {}

  /** A command and what follows it. */
  lemma RunSimulates(sh: Shell, p: Program, sh': Shell, sh'': Shell, exec: Oracle)
    requires p.Run? && WfParser(sh.np) && sh'.np == sh.np.(fail := sh'.np.fail)
    requires OutcomeOf(sh') == (if CmdEnabled(sh.np) then RunCommand(Argv(p.argv), OutcomeOf(sh), exec) else OutcomeOf(sh))
    requires Simulates(sh', p.next, sh'', exec)
    ensures Simulates(sh, p, sh'', exec)
  {}

  /** A conditional and what follows it. */
  lemma BranchSimulates(sh: Shell, p: Program, sh': Shell, sh'': Shell, exec: Oracle)
    requires p.Branch? && WfParser(sh.np) && SameStack(sh.np, sh'.np)
    requires OutcomeOf(sh') == (if CmdEnabled(sh.np) then EvalBranch(p, OutcomeOf(sh), exec) else OutcomeOf(sh))
    requires Simulates(sh', p.next, sh'', exec)
    ensures Simulates(sh, p, sh'', exec)
  {
    SameStackTop(sh.np, sh'.np);
    SameStackTrans(sh.np, sh'.np, sh''.np);
  }


  /** Feeding the lines of a program one by one is running the program. */
  lemma {:induction false} ConsoleRunsProgram(sh: Shell, p: Program, exec: Oracle)
    requires Between(sh.np) && WellFormed(p) && sh.np.ndx + Depth(p) < |sh.np.st|
    ensures Simulates(sh, p, Console(sh, Lines(p), exec), exec)
    ensures Clean(sh, Lines(p), exec)
    decreases p, 1
  {
    if p.End? {
      return;
    }
    hide Parse, IfThenElse, Console, Clean, RunCommand, EvalBranch;
    LinesOf(p);
    match p
    case Blank(next) =>
      BlankLine(sh, exec);
      ConsoleStep(sh, [], Lines(next), exec);
      ConsoleRunsProgram(sh, next, exec);
    case Run(argv, next) =>
      hide Simulates;
      RunLine(sh, argv, exec);
      ConsoleStep(sh, argv, Lines(next), exec);
      var sh' := Parse(sh, argv, exec).0;
      ConsoleRunsProgram(sh', next, exec);
      RunSimulates(sh, p, sh', Console(sh', Lines(next), exec), exec);
    case Branch(test, yes, hasElse, no, next) =>
      hide Simulates, Lines, SameStack;
      BranchLinesAre(p);
      ConsoleSplit(sh, BranchLines(p), Lines(next), exec);
      ConsoleRunsBranch(sh, p, exec);
      var sh' := Console(sh, BranchLines(p), exec);
      assert Between(sh'.np) && sh'.np.ndx == sh.np.ndx && |sh'.np.st| == |sh.np.st| by { SameStackBetween(sh.np, sh'.np); }
      ConsoleRunsProgram(sh', next, exec);
      BranchSimulates(sh, p, sh', Console(sh', Lines(next), exec), exec);
  }

  /** For a program whose lines have at most nine words, what runs are the commands and tests
      as they are written. */
  lemma ConsoleRunsAsWritten(sh: Shell, p: Program, exec: Oracle)
    requires Between(sh.np) && CmdEnabled(sh.np) && WellFormed(p) && Short(p) && sh.np.ndx + Depth(p) < |sh.np.st|
    ensures OutcomeOf(Console(sh, Lines(p), exec)) == Eval(p, OutcomeOf(sh), exec)
  {
    hide Console, Lines, Clean, Eval;
    ConsoleRunsProgram(sh, p, exec);
    ShortIsKept(p);
  }

  lemma SameStackBetween(np: Parser, np': Parser)
    requires SameStack(np, np') && Between(np)
    ensures Between(np') && np'.ndx == np.ndx && |np'.st| == |np.st|
  {}

  /** What a conditional does before what follows it. */
  function EvalBranch(p: Program, o: Outcome, exec: Oracle): Outcome
    requires p.Branch?
  {
    var o' := RunTest(Argv(p.test), o, exec);
    if !exec(o.history, Argv(p.test), o.fail) then Eval(Kept(p.yes), o', exec) else Eval(Kept(p.no), o', exec)
  }

  lemma {:induction false} ConsoleRunsBranch(sh: Shell, p: Program, exec: Oracle)
    requires p.Branch? && Between(sh.np) && WellFormed(p) && sh.np.ndx + Depth(p) < |sh.np.st|
    ensures var sh' := Console(sh, BranchLines(p), exec);
            && SameStack(sh.np, sh'.np)
            && OutcomeOf(sh') == if CmdEnabled(sh.np) then EvalBranch(p, OutcomeOf(sh), exec) else OutcomeOf(sh)
    ensures Clean(sh, BranchLines(p), exec)
    decreases p, 0
  {
    hide Parse, Console, Lines, InBranch, SameStack, IfThenElse, Clean;
    var c := TestFails(sh, p.test, exec);
    IfLine(sh, p.test, exec);
    var s1 := Parse(sh, ["if"] + p.test, exec).0;
    ConsoleStep(sh, ["if"] + p.test, [["then"]] + (Lines(p.yes) + (ElseLines(p) + [["fi"]])), exec);
    ThenLine(sh, s1, c, exec);
    var s2 := Parse(s1, ["then"], exec).0;
    ConsoleStep(s1, ["then"], Lines(p.yes) + (ElseLines(p) + [["fi"]]), exec);
    ConsoleSplit(s2, Lines(p.yes), ElseLines(p) + [["fi"]], exec);
    BranchFacts(sh, s2, Then, c);
    ConsoleRunsProgram(s2, p.yes, exec);
    var s3 := Console(s2, Lines(p.yes), exec);
    BranchStays(sh, s2, s3, Then, c);
    ConsoleRunsElse(sh, p, s3, c, exec);
  }

  lemma BranchFacts(sh: Shell, s: Shell, mode: Mode, c: bool)
    requires WfParser(sh.np) && InBranch(sh, s, mode, c) && (mode == Then || mode == Else)
    ensures Between(s.np) && s.np.ndx == sh.np.ndx + 1 && |s.np.st| == |sh.np.st|
    ensures CmdEnabled(s.np) <==> CmdEnabled(sh.np) && (c <==> mode == Else)
  {}

  /** The optional else branch and the `fi`. */
  lemma {:induction false} ConsoleRunsElse(sh: Shell, p: Program, s: Shell, c: bool, exec: Oracle)
    requires p.Branch? && Between(sh.np) && WellFormed(p) && sh.np.ndx + Depth(p) < |sh.np.st|
    requires InBranch(sh, s, Then, c)
    ensures var sh' := Console(s, ElseLines(p) + [["fi"]], exec);
            && SameStack(sh.np, sh'.np)
            && OutcomeOf(sh') == if CmdEnabled(sh.np) && c then Eval(Kept(p.no), OutcomeOf(s), exec) else OutcomeOf(s)
    ensures Clean(s, ElseLines(p) + [["fi"]], exec)
    decreases p.no
  {
    BranchFacts(sh, s, Then, c);
    hide Parse, Lines, InBranch, SameStack, IfThenElse;
    if !p.hasElse {
      assert ElseLines(p) + [["fi"]] == [["fi"]] + [];
      ConsoleStep(s, ["fi"], [], exec);
      FiLine(sh, s, Then, c, exec);
    } else {
      ElseLine(sh, s, c, exec);
      var s1 := Parse(s, ["else"], exec).0;
      assert ElseLines(p) + [["fi"]] == [["else"]] + (Lines(p.no) + [["fi"]]);
      ConsoleStep(s, ["else"], Lines(p.no) + [["fi"]], exec);
      ConsoleSplit(s1, Lines(p.no), [["fi"]], exec);
      BranchFacts(sh, s1, Else, c);
      ConsoleRunsProgram(s1, p.no, exec);
      var s2 := Console(s1, Lines(p.no), exec);
      BranchStays(sh, s1, s2, Else, c);
      FiLine(sh, s2, Else, c, exec);
      ConsoleStep(s2, ["fi"], [], exec);
      assert [["fi"]] + [] == [["fi"]];
    }
  }

  // ---------------------------------------------------------------- depth

  /** A program nested deeper than the remaining levels runs into a syntax error. */
  lemma {:induction false} TooDeepIsError(sh: Shell, p: Program, exec: Oracle)
    requires Between(sh.np) && WellFormed(p) && sh.np.ndx + Depth(p) >= |sh.np.st|
    ensures !Clean(sh, Lines(p), exec)
    decreases p, 1
  {
    hide Parse, Lines, InBranch, IfThenElse, Clean, Console;
    match p
    case Blank(next) =>
      BlankLine(sh, exec);
      LinesOf(p);
      ConsoleStep(sh, [], Lines(next), exec);
      TooDeepIsError(sh, next, exec);
    case Run(argv, next) =>
      RunLine(sh, argv, exec);
      LinesOf(p);
      ConsoleStep(sh, argv, Lines(next), exec);
      TooDeepIsError(Parse(sh, argv, exec).0, next, exec);
    case Branch(test, yes, hasElse, no, next) =>
      BranchLinesAre(p);
      ConsoleSplit(sh, BranchLines(p), Lines(next), exec);
      if sh.np.ndx + 1 + Max(Depth(yes), Depth(no)) < |sh.np.st| {
        ConsoleRunsBranch(sh, BranchOnly(p), exec);
        var sh' := Console(sh, BranchLines(p), exec);
        SameStackTop(sh.np, sh'.np);
        TooDeepIsError(sh', next, exec);
      } else {
        TooDeepBranch(sh, p, exec);
      }
  }

  lemma LinesOf(p: Program)
    ensures p.Blank? ==> Lines(p) == [[]] + Lines(p.next)
    ensures p.Run? ==> Lines(p) == [p.argv] + Lines(p.next)
  {}

  /** A conditional on its own. */
  function BranchOnly(p: Program): (q: Program)
    requires p.Branch?
    ensures q.Branch? && BranchLines(q) == BranchLines(p)
  {
    Branch(p.test, p.yes, p.hasElse, p.no, End)
  }

  lemma {:induction false} TooDeepBranch(sh: Shell, p: Program, exec: Oracle)
    requires p.Branch? && Between(sh.np) && WellFormed(p)
    requires sh.np.ndx + 1 + Max(Depth(p.yes), Depth(p.no)) >= |sh.np.st|
    ensures !Clean(sh, BranchLines(p), exec)
    decreases p, 0
  {
    hide Parse, Lines, InBranch, IfThenElse, Clean, Console, SameStack;
    var c := TestFails(sh, p.test, exec);
    var rest := Lines(p.yes) + (ElseLines(p) + [["fi"]]);
    ConsoleStep(sh, ["if"] + p.test, [["then"]] + rest, exec);
    if sh.np.ndx + 1 >= |sh.np.st| {
      NoLevelLeft(sh, p.test);
      return;
    }
    IfLine(sh, p.test, exec);
    var s1 := Parse(sh, ["if"] + p.test, exec).0;
    ThenLine(sh, s1, c, exec);
    var s2 := Parse(s1, ["then"], exec).0;
    ConsoleStep(s1, ["then"], rest, exec);
    ConsoleSplit(s2, Lines(p.yes), ElseLines(p) + [["fi"]], exec);
    BranchFacts(sh, s2, Then, c);
    if s2.np.ndx + Depth(p.yes) >= |s2.np.st| {
      TooDeepIsError(s2, p.yes, exec);
    } else {
      ConsoleRunsProgram(s2, p.yes, exec);
      var s3 := Console(s2, Lines(p.yes), exec);
      BranchStays(sh, s2, s3, Then, c);
      TooDeepElse(sh, p, s3, c, exec);
    }
  }

  lemma NoLevelLeft(sh: Shell, test: Line)
    requires WfParser(sh.np) && sh.np.ndx + 1 >= |sh.np.st|
    ensures IfThenElse(sh.np, ["if"] + test).SyntaxError?
  {}

  lemma {:induction false} TooDeepElse(sh: Shell, p: Program, s: Shell, c: bool, exec: Oracle)
    requires p.Branch? && Between(sh.np) && WellFormed(p) && InBranch(sh, s, Then, c)
    requires sh.np.ndx + 1 < |sh.np.st| && sh.np.ndx + 1 + Depth(p.no) >= |sh.np.st|
    ensures !Clean(s, ElseLines(p) + [["fi"]], exec)
    decreases p.no
  {
    BranchFacts(sh, s, Then, c);
    hide Parse, Lines, InBranch, IfThenElse, Clean, Console;
    ElseLine(sh, s, c, exec);
    var s1 := Parse(s, ["else"], exec).0;
    assert ElseLines(p) + [["fi"]] == [["else"]] + (Lines(p.no) + [["fi"]]);
    ConsoleStep(s, ["else"], Lines(p.no) + [["fi"]], exec);
    ConsoleSplit(s1, Lines(p.no), [["fi"]], exec);
    BranchFacts(sh, s1, Else, c);
    TooDeepIsError(s1, p.no, exec);
  }

  // ---------------------------------------------------------------- scripts

  /** A command in a body that failed. */
  predicate Fatal(e: Executed) {
    e.failed && !e.isTest
  }

  /** A history up to and including the first command, other than a test, that failed. */
  function CutAfterFailure(h: History): History {
    if h == [] then []
    else if Fatal(h[0]) then [h[0]]
    else [h[0]] + CutAfterFailure(h[1..])
  }

  /** The history only grows. */
  lemma {:induction false} ConsoleAppends(sh: Shell, lines: seq<Line>, exec: Oracle)
    requires WfParser(sh.np)
    ensures sh.history <= Console(sh, lines, exec).history
    decreases lines
  {
    if lines != [] { ConsoleAppends(Parse(sh, lines[0], exec).0, lines[1..], exec); }
  }

  lemma CutOne(before: History, e: Executed, all: History)
    requires before + [e] <= all
    ensures before + CutAfterFailure(all[|before|..]) ==
            if Fatal(e) then before + [e] else before + [e] + CutAfterFailure(all[|before| + 1..])
    ensures all[|before|..] == [e] + all[|before| + 1..]
  {
    assert all[|before|] == (before + [e])[|before|] == e;
    assert all[|before|..][1..] == all[|before| + 1..];
  }

  /** A script runs what the console would run, cut after the first failing command that is
      not a test; it succeeds if and only if it has a line and there was no such command. */
  lemma {:induction false} ScriptCuts(sh: Shell, lines: seq<Line>, exec: Oracle)
    requires WfParser(sh.np) && Clean(sh, lines, exec)
    ensures var n, all := |sh.history|, Console(sh, lines, exec).history;
            && sh.history <= all
            && ScriptLines(sh, lines, exec).0.history == sh.history + CutAfterFailure(all[n..])
            && (ScriptLines(sh, lines, exec).1 <==> forall e | e in all[n..] :: !Fatal(e))
    decreases lines
  {
    hide Parse, IfThenElse, CutAfterFailure;
    ConsoleAppends(sh, lines, exec);
    if lines == [] {
      NothingCut(sh.history);
    } else {
      var (sh', ok) := Parse(sh, lines[0], exec);
      var all := Console(sh, lines, exec).history;
      LineAppends(sh, lines[0], exec);
      ConsoleAppends(sh', lines[1..], exec);
      if ok { ScriptCuts(sh', lines[1..], exec); }
      if |sh'.history| > |sh.history| {
        var e := sh'.history[|sh.history|];
        assert sh'.history == sh.history + [e];
        CutOne(sh.history, e, all);
      }
    }
  }

  lemma NothingCut(h: History)
    ensures h[|h|..] == [] && h + CutAfterFailure([]) == h
  {}

  /** A line runs at most one command, and is unsuccessful exactly when that command fails
      and is not a test. */
  lemma LineAppends(sh: Shell, line: Line, exec: Oracle)
    requires WfParser(sh.np) && IfThenElse(sh.np, line).Continue?
    ensures var (sh', ok) := Parse(sh, line, exec);
            || (ok && sh'.history == sh.history)
            || (&& |sh'.history| == |sh.history| + 1 && sh'.history[..|sh.history|] == sh.history
                && var e := sh'.history[|sh.history|]; ok <==> !(e.failed && !e.isTest))
  {
    hide Argv;
  }

  /** Structured equivalence for scripts: of a program of sufficient depth, a script runs
      exactly the commands of its meaning up to the first failing body command. */
  lemma ScriptRunsProgram(sh: Shell, p: Program, exec: Oracle)
    requires Between(sh.np) && CmdEnabled(sh.np) && WellFormed(p) && sh.np.ndx + Depth(p) < |sh.np.st|
    ensures var n := |sh.history|;
            && sh.history <= Eval(Kept(p), OutcomeOf(sh), exec).history
            && var all := Eval(Kept(p), OutcomeOf(sh), exec).history[n..];
            && Script(sh, Lines(p), exec).0.history == sh.history + CutAfterFailure(all)
            && (Script(sh, Lines(p), exec).1 <==> Lines(p) != [] && forall e | e in all :: !Fatal(e))
  {
    hide Eval, Lines, Console, ScriptLines, Clean, CutAfterFailure;
    ConsoleRunsProgram(sh, p, exec);
    ScriptCuts(sh, Lines(p), exec);
  }
}
