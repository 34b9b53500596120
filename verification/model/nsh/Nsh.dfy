/** The parser state of the shell as it is updated in place. */
module Nsh {
  import opened ParserState

  class NshParser {
    const st: array<Level>
    var ndx: nat
    var fail: bool
    var history: History

    ghost predicate Valid()
      reads this
    {
      ndx < st.Length
    }

    /** The value this object represents. */
    ghost function Value(): (sh: Shell)
      reads this, st
      ensures Valid() ==> WfParser(sh.np)
    {
      Shell(Parser(st[..], ndx, fail), history)
    }

    constructor (nestDepth: nat)
      requires nestDepth > 0
      ensures Valid() && StackOk(Value().np) && Value().np.st == seq(nestDepth, _ => Bottom)
      ensures ndx == 0 && !fail && history == [] && fresh(st)
    {
      st := new Level[nestDepth](_ => Bottom);
      ndx, fail, history := 0, false, [];
    }

    method NshCmdEnabled() returns (enabled: bool)
      requires Valid()
      ensures enabled <==> CmdEnabled(Value().np)
    {
      enabled := !st[ndx].disabled;
      if enabled {
        match st[ndx].mode
        case Normal =>
        case If =>
        case Then => enabled := !st[ndx].ifcond;
        case Else => enabled := st[ndx].ifcond;
      }
    }

    method ResetStack()
      requires Valid()
      modifies this, st
      ensures Valid() && Value() == old(Value()).(np := Reset(old(Value()).np))
    {
      ndx := 0;
      st[0] := Level(Normal, false, false);
    }

    /** The control words.  An empty `cmd` means that the line leaves no command to run. */
    method NshIfThenElse(line: Line) returns (ok: bool, cmd: Line)
      requires Valid()
      modifies this, st
      ensures Valid() && history == old(history)
      ensures var c := IfThenElse(old(Value()).np, line);
              Value().np == c.np && (ok <==> c.Continue?) && (ok ==> cmd == c.cmd)
    {
      ok, cmd := true, line;
      if line == [] {
        return;
      }
      if line[0] == "if" {
        if |line| > 1 && st[ndx].mode != If && ndx < st.Length - 1 {
          var enabled := NshCmdEnabled();
          ndx := ndx + 1;
          st[ndx] := Level(If, !enabled, false);
          cmd := line[1..];
          return;
        }
      } else if line[0] == "then" {
        if |line| == 1 && st[ndx].mode == If {
          st[ndx] := st[ndx].(mode := Then);
          cmd := [];
          return;
        }
      } else if line[0] == "else" {
        if |line| == 1 && st[ndx].mode == Then {
          st[ndx] := st[ndx].(mode := Else);
          cmd := [];
          return;
        }
      } else if line[0] == "fi" {
        if |line| == 1 && (st[ndx].mode == Then || st[ndx].mode == Else) && ndx >= 1 {
          ndx := ndx - 1;
          cmd := [];
          return;
        }
      } else if st[ndx].mode != If {
        return;
      }
      ok := false;
      ResetStack();
    }

    /** Saves the result of a command (true: it failed) and says what the line returns. */
    method NshSaveResult(result: bool) returns (ok: bool)
      requires Valid()
      modifies this, st
      ensures Valid() && Value() == old(Value()).(np := SaveResult(old(Value()).np, result))
      ensures ok <==> old(Top(Value().np)).mode == If || !result
    {
      if st[ndx].mode == If {
        fail := false;
        st[ndx] := st[ndx].(ifcond := result);
        ok := true;
      } else {
        fail := result;
        ok := !result;
      }
    }

    /** The command name and the arguments behind it, as far as the argument vector goes. */
    static method GatherArgs(words: Line) returns (argv: Line)
      requires words != []
      ensures argv == Argv(words)
    {
      argv := [words[0]];
      var argc := 1;
      while argc < MaxArgvEntries - 1 && argc < |words|
        invariant 1 <= argc <= |words| && argc <= MaxArgvEntries - 1 && argv == words[..argc]
      {
        argv, argc := argv + [words[argc]], argc + 1;
      }
    }

    /** One line of input. */
    method NshParse(line: Line, exec: Oracle) returns (ok: bool)
      requires Valid()
      modifies this, st
      ensures Valid() && (Value(), ok) == Parse(old(Value()), line, exec)
    {
      hide IfThenElse, SaveResult;
      var go, cmd := NshIfThenElse(line);
      if !go {
        ok := NshSaveResult(true);
        return;
      }
      var enabled := NshCmdEnabled();
      if cmd == [] || !enabled {
        return true;
      }
      var argv := GatherArgs(cmd);
      var failed := exec(history, argv, fail);
      history := history + [Executed(argv, st[ndx].mode == If, failed)];
      ok := NshSaveResult(failed);
    }

    /** The console loop. */
    method ConsoleMain(lines: seq<Line>, exec: Oracle)
      requires Valid()
      modifies this, st
      ensures Valid() && Value() == Console(old(Value()), lines, exec)
    {
      hide Parse;
      var i := 0;
      while i < |lines|
        invariant 0 <= i <= |lines| && Valid()
        invariant Console(old(Value()), lines, exec) == Console(Value(), lines[i..], exec)
      {
        assert lines[i..][1..] == lines[i + 1..];
        var ok := NshParse(lines[i], exec);
        i := i + 1;
      }
    }

    /** The loop over the lines of a script file. */
    method NshScript(lines: seq<Line>, exec: Oracle) returns (ok: bool)
      requires Valid()
      modifies this, st
      ensures Valid() && (Value(), ok) == Script(old(Value()), lines, exec)
    {
      hide Parse;
      var i := 0;
      var ret := false;
      while i < |lines| && (i == 0 || ret)
        invariant 0 <= i <= |lines| && Valid()
        invariant ScriptLines(old(Value()), lines, exec) ==
                  if i == 0 || ret then ScriptLines(Value(), lines[i..], exec) else (Value(), false)
        invariant i == 0 ==> !ret
      {
        assert lines[i..][1..] == lines[i + 1..];
        ret := NshParse(lines[i], exec);
        i := i + 1;
      }
      ok := ret;
    }
  }
}
