/** The argument tokenizer of the shell, which cuts a NUL-terminated line buffer in place. */
module Tokens {

  const NUL: char := '\0'

  predicate IsDelim(c: char) { c == ' ' || c == '\t' || c == '\n' }

  /** A NUL-terminated buffer and a place in it. */
  predicate InBuffer(buf: seq<char>, pos: nat) {
    |buf| > 0 && buf[|buf| - 1] == NUL && pos < |buf|
  }

  /** The C string that starts at a place of the buffer. */
  function CString(buf: seq<char>, i: nat): string
    requires InBuffer(buf, i)
    decreases |buf| - i
  {
    if buf[i] == NUL then "" else [buf[i]] + CString(buf, i + 1)
  }

  function SkipDelims(buf: seq<char>, pos: nat): (b: nat)
    requires InBuffer(buf, pos)
    ensures pos <= b < |buf| && !IsDelim(buf[b])
    ensures forall k | pos <= k < b :: IsDelim(buf[k])
    decreases |buf| - pos
  {
    if IsDelim(buf[pos]) then SkipDelims(buf, pos + 1) else pos
  }

  predicate Terminates(c: char, quoted: bool) {
    c == NUL || (if quoted then c == '"' else IsDelim(c))
  }

  function ScanEnd(buf: seq<char>, pos: nat, quoted: bool): (e: nat)
    requires InBuffer(buf, pos)
    ensures pos <= e < |buf| && Terminates(buf[e], quoted)
    ensures forall k | pos <= k < e :: !Terminates(buf[k], quoted)
    decreases |buf| - pos
  {
    if Terminates(buf[pos], quoted) then pos else ScanEnd(buf, pos + 1, quoted)
  }

  /** An argument is a place in the buffer or one of the constant strings; none is left at
      the end of the line or at a comment. */
  datatype Token = NoToken | Literal(text: string) | At(start: nat)

  type Environment = string -> string

  datatype Step = Step(token: Token, buf: seq<char>, pos: nat)

  /** An opening quote is followed by something: the scan for the closing quote begins one
      character later. */
  predicate QuoteHasText(buf: seq<char>, pos: nat)
    requires InBuffer(buf, pos)
  {
    var b := SkipDelims(buf, pos);
    buf[b] == '"' ==> b + 2 < |buf|
  }

  function Argument(buf: seq<char>, pos: nat, fail: bool, env: Environment): (s: Step)
    requires InBuffer(buf, pos) && QuoteHasText(buf, pos)
    ensures InBuffer(s.buf, s.pos) && |s.buf| == |buf|
    ensures s.token.At? ==> InBuffer(s.buf, s.token.start)
  {
    var b := SkipDelims(buf, pos);
    if buf[b] == NUL then Step(NoToken, buf, pos)
    else if buf[b] == '>' then
      if buf[b + 1] == '>' then Step(Literal(">>"), buf, b + 2) else Step(Literal(">"), buf, b + 1)
    else if buf[b] == '#' then Step(NoToken, buf, b)
    else
      var quoted := buf[b] == '"';
      var start := if quoted then b + 1 else b;
      var e := ScanEnd(buf, start + 1, quoted);
      var buf' := if buf[e] == NUL then buf else buf[e := NUL];
      var pos' := if buf[e] == NUL then e else e + 1;
      if buf[start] == '$' && !quoted then
        var name := CString(buf', start);
        Step(Literal(if name == "$?" then (if fail then "1" else "0") else env(CString(buf', start + 1))), buf', pos')
      else Step(At(start), buf', pos')
  }

  /** The first place from `pos` on that is not a delimiter. */
  method FindStart(buf: array<char>, pos: nat) returns (pbegin: nat)
    requires InBuffer(buf[..], pos)
    ensures pbegin == SkipDelims(buf[..], pos)
  {
    pbegin := pos;
    while buf[pbegin] != NUL && IsDelim(buf[pbegin])
      invariant pos <= pbegin < buf.Length
      invariant SkipDelims(buf[..], pos) == SkipDelims(buf[..], pbegin)
      decreases buf.Length - pbegin
    {
      pbegin := pbegin + 1;
    }
  }

  /** The first place from `pos` on that ends the token. */
  method FindEnd(buf: array<char>, pos: nat, quoted: bool) returns (pend: nat)
    requires InBuffer(buf[..], pos)
    ensures pend == ScanEnd(buf[..], pos, quoted)
  {
    pend := pos;
    while buf[pend] != NUL && !Terminates(buf[pend], quoted)
      invariant pos <= pend < buf.Length
      invariant ScanEnd(buf[..], pos, quoted) == ScanEnd(buf[..], pend, quoted)
      decreases buf.Length - pend
    {
      pend := pend + 1;
    }
  }

  method ReadString(buf: array<char>, from: nat) returns (s: string)
    requires InBuffer(buf[..], from)
    ensures s == CString(buf[..], from)
  {
    var i := from;
    s := "";
    while buf[i] != NUL
      invariant from <= i < buf.Length && s + CString(buf[..], i) == CString(buf[..], from)
      decreases buf.Length - i
    {
      s, i := s + [buf[i]], i + 1;
    }
  }

  /** The next argument of the line; the delimiter behind it is overwritten with a NUL. */
  method NshArgument(buf: array<char>, saveptr: nat, fail: bool, env: Environment) returns (token: Token, next: nat)
    requires InBuffer(buf[..], saveptr) && QuoteHasText(buf[..], saveptr)
    modifies buf
    ensures Step(token, buf[..], next) == Argument(old(buf[..]), saveptr, fail, env)
  {
    hide CString, SkipDelims, ScanEnd;
    var pbegin := FindStart(buf, saveptr);
    if buf[pbegin] == NUL {
      return NoToken, saveptr;
    }
    if buf[pbegin] == '>' {
      if buf[pbegin + 1] == '>' {
        return Literal(">>"), pbegin + 2;
      }
      return Literal(">"), pbegin + 1;
    }
    if buf[pbegin] == '#' {
      return NoToken, pbegin;
    }
    var quoted := buf[pbegin] == '"';
    if quoted {
      pbegin := pbegin + 1;
    }
    var pend := FindEnd(buf, pbegin + 1, quoted);
    if buf[pend] != NUL {
      buf[pend] := NUL;
      pend := pend + 1;
    }
    next := pend;
    token := At(pbegin);
    if buf[pbegin] == '$' && !quoted {
      var name := ReadString(buf, pbegin);
      if name == "$?" {
        token := Literal(if fail then "1" else "0");
      } else {
        name := ReadString(buf, pbegin + 1);
        token := Literal(env(name));
      }
    }
  }

  // ---------------------------------------------------------------- single tokens

  predicate IsSeparator(sep: string) { forall i | 0 <= i < |sep| :: IsDelim(sep[i]) }

  /** Without delimiter and NUL. */
  predicate Unbroken(s: string) { forall i | 0 <= i < |s| :: !Terminates(s[i], false) }

  /** Can stand on a line as it is. */
  predicate IsWord(arg: string) {
    arg != "" && Unbroken(arg) && arg[0] !in {'>', '#', '"', '$'}
  }

  /** Can stand between quotes. */
  predicate Printable(arg: string) { '"' !in arg && NUL !in arg }

  lemma SkipIs(buf: seq<char>, pos: nat, b: nat)
    requires InBuffer(buf, pos) && pos <= b < |buf| && !IsDelim(buf[b])
    requires forall k | pos <= k < b :: IsDelim(buf[k])
    ensures SkipDelims(buf, pos) == b
  {
    hide SkipDelims;
  }

  lemma ScanIs(buf: seq<char>, pos: nat, e: nat, quoted: bool)
    requires InBuffer(buf, pos) && pos <= e < |buf| && Terminates(buf[e], quoted)
    requires forall k | pos <= k < e :: !Terminates(buf[k], quoted)
    ensures ScanEnd(buf, pos, quoted) == e
  {
    hide ScanEnd;
  }

  lemma {:induction false} CStringIs(buf: seq<char>, i: nat, arg: string)
    requires InBuffer(buf, i) && i + |arg| < |buf| && buf[i..i + |arg|] == arg && NUL !in arg && buf[i + |arg|] == NUL
    ensures CString(buf, i) == arg
    decreases |arg|
  {
    if arg != "" {
      assert buf[i] == buf[i..i + |arg|][0] == arg[0];
      assert buf[i + 1..i + 1 + |arg[1..]|] == arg[1..] by {
        assert buf[i + 1..i + |arg|] == buf[i..i + |arg|][1..];
      }
      CStringIs(buf, i + 1, arg[1..]);
      assert arg == [arg[0]] + arg[1..];
    }
  }

  /** An argument on a line: the delimiters in front, whether it is quoted, and the character
      that ends it, which is the NUL where the line ends. */
  datatype Item = Item(sep: string, arg: string, quoted: bool, close: char)

  function Opening(item: Item): string {
    item.sep + (if item.quoted then ['"'] else []) + item.arg
  }

  /** The place of the argument behind the start of its separator. */
  function Inset(item: Item): nat {
    |item.sep| + if item.quoted then 1 else 0
  }

  predicate Spelled(item: Item) {
    && IsSeparator(item.sep) && Terminates(item.close, item.quoted)
    && if item.quoted then Printable(item.arg) else IsWord(item.arg)
  }

  /** What follows the character `t` in a NUL-terminated line. */
  predicate Follows(t: char, rest: seq<char>) {
    if t == NUL then rest == [] else rest != [] && rest[|rest| - 1] == NUL
  }

  /** A line cut into what is in front, an item, the character that ends it, and the rest. */
  function Joined(pre: seq<char>, mid: seq<char>, t: char, rest: seq<char>): seq<char> {
    pre + mid + [t] + rest
  }

  lemma JoinedAt(pre: seq<char>, mid: seq<char>, t: char, rest: seq<char>)
    requires Follows(t, rest)
    ensures var buf, e := Joined(pre, mid, t, rest), |pre| + |mid|;
            && InBuffer(buf, |pre|) && e < |buf| && buf[e] == t && (t != NUL ==> e + 1 < |buf|)
            && (forall k | 0 <= k < |mid| :: buf[|pre| + k] == mid[k])
            && buf[e := NUL] == Joined(pre, mid, NUL, rest)
  {}

  /** The place behind the character that ended a token. */
  function Behind(buf: seq<char>, e: nat): nat
    requires e < |buf|
  {
    if buf[e] == NUL then e else e + 1
  }

  /** A token that is not quoted, from `b` to `e`. */
  lemma WordAt(buf: seq<char>, pos: nat, b: nat, e: nat, fail: bool, env: Environment)
    requires InBuffer(buf, pos) && pos <= b < e < |buf| && Terminates(buf[e], false)
    requires (forall k | pos <= k < b :: IsDelim(buf[k])) && (forall k | b <= k < e :: !Terminates(buf[k], false))
    requires buf[b] !in {'>', '#', '"'}
    ensures QuoteHasText(buf, pos) && InBuffer(buf[e := NUL], b) && InBuffer(buf[e := NUL], b + 1)
    ensures Argument(buf, pos, fail, env) ==
            Step(if buf[b] != '$' then At(b)
                 else if CString(buf[e := NUL], b) == "$?" then Literal(if fail then "1" else "0")
                 else Literal(env(CString(buf[e := NUL], b + 1))),
                 buf[e := NUL], Behind(buf, e))
  {
    hide CString, SkipDelims, ScanEnd;
    SkipIs(buf, pos, b);
    ScanIs(buf, b + 1, e, false);
    assert buf[e] == NUL ==> buf[e := NUL] == buf;
  }

  /** A quoted token, whose quote is at `b` and whose end at `e`. */
  lemma QuotedAt(buf: seq<char>, pos: nat, b: nat, e: nat, fail: bool, env: Environment)
    requires InBuffer(buf, pos) && pos <= b && b + 1 < e < |buf| && Terminates(buf[e], true)
    requires (forall k | pos <= k < b :: IsDelim(buf[k])) && (forall k | b < k < e :: !Terminates(buf[k], true))
    requires buf[b] == '"'
    ensures QuoteHasText(buf, pos) && Argument(buf, pos, fail, env) == Step(At(b + 1), buf[e := NUL], Behind(buf, e))
  {
    hide CString, SkipDelims, ScanEnd;
    SkipIs(buf, pos, b);
    ScanIs(buf, b + 2, e, true);
    assert buf[e] == NUL ==> buf[e := NUL] == buf;
  }

  /** Reading one argument, quoted or not: it is found at its first character, the character
      that ends it becomes a NUL, and the place to go on is behind that. */
  lemma ReadItem(pre: seq<char>, item: Item, rest: seq<char>, fail: bool, env: Environment)
    requires Spelled(item) && item.arg != "" && Follows(item.close, rest)
    ensures var buf := Joined(pre, Opening(item), item.close, rest);
            && InBuffer(buf, |pre|) && QuoteHasText(buf, |pre|)
            && Argument(buf, |pre|, fail, env) ==
               Step(At(|pre| + Inset(item)), Joined(pre, Opening(item), NUL, rest),
                    |pre| + |Opening(item)| + if item.close == NUL then 0 else 1)
  {
    hide Joined, Argument, QuoteHasText;
    JoinedAt(pre, Opening(item), item.close, rest);
    var buf := Joined(pre, Opening(item), item.close, rest);
    var b, e := |pre| + |item.sep|, |pre| + |Opening(item)|;
    OpeningAt(buf, |pre|, item);
    if item.quoted {
      QuotedAt(buf, |pre|, b, e, fail, env);
    } else {
      WordAt(buf, |pre|, b, e, fail, env);
    }
  }

  /** The characters of an item in a buffer. */
  lemma OpeningAt(buf: seq<char>, pos: nat, item: Item)
    requires pos + |Opening(item)| <= |buf| && forall k | 0 <= k < |Opening(item)| :: buf[pos + k] == Opening(item)[k]
    ensures forall k | pos <= k < pos + |item.sep| :: buf[k] == item.sep[k - pos]
    ensures item.quoted ==> buf[pos + |item.sep|] == '"'
    ensures forall k | pos + Inset(item) <= k < pos + |Opening(item)| :: buf[k] == item.arg[k - pos - Inset(item)]
  {
    forall k | pos <= k < pos + |Opening(item)| ensures buf[k] == Opening(item)[k - pos] {
      assert buf[pos + (k - pos)] == Opening(item)[k - pos];
    }
  }

  /** A variable that is not quoted: `$?` is the exit status, any other the environment's
      value of its name. */
  lemma ReadVariable(pre: seq<char>, sep: string, name: string, t: char, rest: seq<char>, fail: bool, env: Environment)
    requires IsSeparator(sep) && Unbroken(name) && Terminates(t, false) && Follows(t, rest)
    ensures var mid := sep + ['$'] + name;
            var buf := Joined(pre, mid, t, rest);
            && InBuffer(buf, |pre|) && QuoteHasText(buf, |pre|)
            && Argument(buf, |pre|, fail, env) ==
               Step(Literal(if name != "?" then env(name) else if fail then "1" else "0"),
                    Joined(pre, mid, NUL, rest), |pre| + |mid| + if t == NUL then 0 else 1)
  {
    hide Joined, Argument, QuoteHasText, CString;
    var mid := sep + ['$'] + name;
    JoinedAt(pre, mid, t, rest);
    VariableAt(Joined(pre, mid, t, rest), |pre|, sep, name, fail, env);
  }

  /** A variable in a buffer. */
  lemma VariableAt(buf: seq<char>, pos: nat, sep: string, name: string, fail: bool, env: Environment)
    requires InBuffer(buf, pos) && IsSeparator(sep) && Unbroken(name) && pos + |sep| + 1 + |name| < |buf|
    requires Terminates(buf[pos + |sep| + 1 + |name|], false)
    requires forall k | 0 <= k < |sep| + 1 + |name| :: buf[pos + k] == (sep + ['$'] + name)[k]
    ensures var e := pos + |sep| + 1 + |name|;
            && QuoteHasText(buf, pos)
            && Argument(buf, pos, fail, env) ==
               Step(Literal(if name != "?" then env(name) else if fail then "1" else "0"), buf[e := NUL], Behind(buf, e))
  {
    hide Argument, QuoteHasText, CString;
    var b, e := pos + |sep|, pos + |sep| + 1 + |name|;
    forall k | pos <= k < e ensures buf[k] == (sep + ['$'] + name)[k - pos] {
      assert buf[pos + (k - pos)] == (sep + ['$'] + name)[k - pos];
    }
    WordAt(buf, pos, b, e, fail, env);
    NameAt(buf[e := NUL], b, name);
  }

  /** The strings of a variable with and without its `$`. */
  lemma NameAt(buf: seq<char>, b: nat, name: string)
    requires b + 1 + |name| < |buf| && InBuffer(buf, b) && Unbroken(name)
    requires buf[b] == '$' && buf[b + 1 + |name|] == NUL && forall k | b < k < b + 1 + |name| :: buf[k] == name[k - b - 1]
    ensures CString(buf, b + 1) == name && (CString(buf, b) == "$?" <==> name == "?")
  {
    assert buf[b + 1..b + 1 + |name|] == name;
    CStringIs(buf, b + 1, name);
    assert CString(buf, b)[1..] == name;
  }

  /** Redirections need no delimiter behind them; the buffer is not changed. */
  lemma ReadRedirection(pre: seq<char>, sep: string, rest: seq<char>, fail: bool, env: Environment)
    requires IsSeparator(sep) && rest != [] && rest[|rest| - 1] == NUL
    ensures var buf, b := pre + sep + ">" + rest, |pre| + |sep|;
            && InBuffer(buf, |pre|) && QuoteHasText(buf, |pre|)
            && Argument(buf, |pre|, fail, env) ==
               if rest[0] == '>' then Step(Literal(">>"), buf, b + 2) else Step(Literal(">"), buf, b + 1)
  {
    var buf := pre + sep + ">" + rest;
    var b := |pre| + |sep|;
    assert forall k | |pre| <= k < b :: buf[k] == sep[k - |pre|];
    assert buf[b] == '>' && buf[b + 1] == rest[0];
    SkipIs(buf, |pre|, b);
  }

  /** At a comment, and at the end of the line, there is no further argument, now and
      whenever it is asked for. */
  lemma ReadNothing(pre: seq<char>, sep: string, rest: seq<char>, fail: bool, env: Environment)
    requires IsSeparator(sep) && rest != [] && rest[|rest| - 1] == NUL && (rest[0] == NUL || rest[0] == '#')
    ensures var buf := pre + sep + rest;
            && InBuffer(buf, |pre|) && QuoteHasText(buf, |pre|)
            && var s := Argument(buf, |pre|, fail, env);
            && s.token == NoToken && s.buf == buf && s.pos == |pre| + (if rest[0] == NUL then 0 else |sep|)
            && QuoteHasText(buf, s.pos)
            && Argument(buf, s.pos, fail, env) == s
  {
    hide CString, ScanEnd;
    var buf := pre + sep + rest;
    var b := |pre| + |sep|;
    assert forall k | |pre| <= k < b :: buf[k] == sep[k - |pre|];
    assert buf[b] == rest[0];
    SkipIs(buf, |pre|, b);
    SkipIs(buf, b, b);
  }

  // ---------------------------------------------------------------- printing and reading back

  /** A line of arguments, with a last separator behind them. */
  function Text(items: seq<Item>, last: string): (t: seq<char>)
    ensures t != [] && t[|t| - 1] == NUL
    decreases |items|, 1
  {
    if items == [] then last + [NUL] else Opening(items[0]) + [items[0].close] + RestOf(items, last)
  }

  /** What follows the character that ends the first argument. */
  function RestOf(items: seq<Item>, last: string): (rest: seq<char>)
    requires items != []
    ensures Follows(items[0].close, rest)
    decreases |items|, 0
  {
    if items[0].close == NUL then [] else Text(items[1..], last)
  }

  function Args(items: seq<Item>): seq<string> {
    if items == [] then [] else [items[0].arg] + Args(items[1..])
  }

  /** Each argument is spelled so that it can be read, and only the last ends the line. */
  predicate Separated(items: seq<Item>) {
    forall i | 0 <= i < |items| :: Spelled(items[i]) && (items[i].close == NUL ==> i == |items| - 1)
  }

  /** The buffer after `n` arguments have been read. */
  function Final(buf: seq<char>, pos: nat, n: nat, fail: bool, env: Environment): (fin: seq<char>)
    requires InBuffer(buf, pos)
    ensures |fin| == |buf| && fin[|fin| - 1] == NUL
    decreases n
  {
    if n == 0 || !QuoteHasText(buf, pos) then buf
    else
      var s := Argument(buf, pos, fail, env);
      Final(s.buf, s.pos, n - 1, fail, env)
  }

  /** Repeated calls return places that hold exactly `args` in the final buffer, then no
      further token, and move forward with every token. */
  predicate Reads(buf: seq<char>, pos: nat, args: seq<string>, fail: bool, env: Environment)
    requires InBuffer(buf, pos)
    decreases |args|
  {
    && QuoteHasText(buf, pos)
    && var s := Argument(buf, pos, fail, env);
       if args == [] then s.token == NoToken
       else
         && s.token.At? && pos < s.pos
         && CString(Final(buf, pos, |args|, fail, env), s.token.start) == args[0]
         && Reads(s.buf, s.pos, args[1..], fail, env)
  }

  /** Reading on changes only what lies behind the current place. */
  lemma {:induction false} FinalKeeps(buf: seq<char>, pos: nat, n: nat, fail: bool, env: Environment)
    requires InBuffer(buf, pos)
    ensures Final(buf, pos, n, fail, env)[..pos] == buf[..pos]
    decreases n
  {
    if n > 0 && QuoteHasText(buf, pos) {
      var s := Argument(buf, pos, fail, env);
      FinalKeeps(s.buf, s.pos, n - 1, fail, env);
      ArgumentKeeps(buf, pos, fail, env);
      var fin := Final(buf, pos, n, fail, env);
      assert fin[..pos] == fin[..s.pos][..pos];
      assert s.buf[..s.pos][..pos] == s.buf[..pos];
    }
  }

  lemma ArgumentKeeps(buf: seq<char>, pos: nat, fail: bool, env: Environment)
    requires InBuffer(buf, pos) && QuoteHasText(buf, pos)
    ensures var s := Argument(buf, pos, fail, env); s.pos >= pos && s.buf[..pos] == buf[..pos]
  {
    hide CString, SkipDelims, ScanEnd;
  }

  function Line(pre: seq<char>, items: seq<Item>, last: string): seq<char> {
    pre + Text(items, last)
  }

  /** What lies behind once an argument has been read. */
  function Past(pre: seq<char>, item: Item): seq<char> {
    pre + Opening(item) + if item.close == NUL then [] else [NUL]
  }

  function LastOf(items: seq<Item>, last: string): string
    requires items != []
  {
    if items[0].close == NUL then "" else last
  }

  /** A line before and after its first argument has been read. */
  lemma LineIs(pre: seq<char>, items: seq<Item>, last: string)
    requires items != [] && Separated(items) && IsSeparator(last)
    ensures var item, rest := items[0], RestOf(items, last);
            && Spelled(item) && Separated(items[1..]) && Follows(item.close, rest) && IsSeparator(LastOf(items, last))
            && Line(pre, items, last) == Joined(pre, Opening(item), item.close, rest)
            && Joined(pre, Opening(item), NUL, rest) == Line(Past(pre, item), items[1..], LastOf(items, last))
            && |Past(pre, item)| == |pre| + |Opening(item)| + (if item.close == NUL then 0 else 1)
            && InBuffer(Line(pre, items, last), |pre|)
            && InBuffer(Line(Past(pre, item), items[1..], LastOf(items, last)), |Past(pre, item)|)
  {
    hide Opening, Spelled;
    var item := items[0];
    if item.close == NUL {
      assert items[1..] == [];
    }
  }

  /** Round trip: a line of non-empty arguments, each quoted or bare, is read back exactly. */
  lemma {:induction false} RoundTrip(pre: seq<char>, items: seq<Item>, last: string, fail: bool, env: Environment)
    requires Separated(items) && IsSeparator(last)
    requires forall i | 0 <= i < |items| :: items[i].arg != ""
    ensures Reads(Line(pre, items, last), |pre|, Args(items), fail, env)
    decreases |items|
  {
    hide CString, Argument, QuoteHasText, Separated, IsSeparator, Opening, Inset, Joined, RestOf, Spelled, Final, Text,
         Line, Past, LastOf, Reads, Follows;
    if items == [] {
      ReadsNil(pre, last, fail, env);
    } else {
      var item, rest := items[0], RestOf(items, last);
      LineIs(pre, items, last);
      ReadItem(pre, item, rest, fail, env);
      RoundTrip(Past(pre, item), items[1..], LastOf(items, last), fail, env);
      assert Args(items)[0] == item.arg && Args(items)[1..] == Args(items[1..]);
      ItemAt(pre, item, rest);
      ReadsCons(Line(pre, items, last), |pre|, Args(items), fail, env);
    }
  }

  lemma ReadsNil(pre: seq<char>, last: string, fail: bool, env: Environment)
    requires IsSeparator(last)
    ensures Reads(Line(pre, [], last), |pre|, [], fail, env)
  {
    hide CString, Argument, QuoteHasText;
    ReadNothing(pre, last, [NUL], fail, env);
    assert Line(pre, [], last) == pre + last + [NUL];
  }

  /** Reading a first argument whose string is in the buffer, then the rest. */
  lemma ReadsCons(buf: seq<char>, pos: nat, args: seq<string>, fail: bool, env: Environment)
    requires InBuffer(buf, pos) && QuoteHasText(buf, pos) && args != [] && NUL !in args[0]
    requires var s := Argument(buf, pos, fail, env);
             && s.token.At? && pos < s.pos && Reads(s.buf, s.pos, args[1..], fail, env)
             && var i := s.token.start;
                var e := i + |args[0]|;
                && e <= s.pos && s.buf[i..e] == args[0] && s.buf[e] == NUL && (e == s.pos ==> s.pos == |s.buf| - 1)
    ensures Reads(buf, pos, args, fail, env)
  {
    hide Argument, QuoteHasText, CString;
    var s := Argument(buf, pos, fail, env);
    FinalString(s.buf, s.pos, s.token.start, args[0], |args| - 1, fail, env);
  }

  /** The string of a token survives the reading of the rest. */
  lemma FinalString(buf: seq<char>, pos: nat, i: nat, arg: string, n: nat, fail: bool, env: Environment)
    requires InBuffer(buf, pos) && i + |arg| <= pos && buf[i..i + |arg|] == arg && NUL !in arg && buf[i + |arg|] == NUL
    requires i + |arg| == pos ==> pos == |buf| - 1
    ensures CString(Final(buf, pos, n, fail, env), i) == arg
  {
    hide Final, CString;
    FinalKeeps(buf, pos, n, fail, env);
    var fin, e := Final(buf, pos, n, fail, env), i + |arg|;
    assert fin[i..e] == fin[..pos][i..e] == buf[..pos][i..e];
    assert e < pos ==> fin[e] == fin[..pos][e] == buf[..pos][e];
    CStringIs(fin, i, arg);
  }

  /** The place of an argument once the character that ends it is a NUL. */
  lemma ItemAt(pre: seq<char>, item: Item, rest: seq<char>)
    requires Spelled(item) && Follows(item.close, rest)
    ensures var buf := Joined(pre, Opening(item), NUL, rest);
            var i, e := |pre| + Inset(item), |pre| + |Opening(item)|;
            && e == i + |item.arg| && InBuffer(buf, e) && (if item.close == NUL then e == |buf| - 1 else e + 1 < |buf|)
            && buf[i..e] == item.arg && buf[e] == NUL && NUL !in item.arg
  {
    hide IsSeparator, IsWord, Printable;
    SpelledNoNul(item);
  }

  lemma SpelledNoNul(item: Item)
    requires Spelled(item)
    ensures NUL !in item.arg
  {}

  /** An empty argument is not read back: the scan for the closing quote starts behind it, so
      the token begins with the quote itself. */
  lemma ReadEmpty(pre: seq<char>, item: Item, rest: seq<char>, args: seq<string>, fail: bool, env: Environment)
    requires Spelled(item) && item.arg == "" && Follows(item.close, rest) && args != [] && args[0] == ""
    ensures InBuffer(Joined(pre, Opening(item), item.close, rest), |pre|)
    ensures !Reads(Joined(pre, Opening(item), item.close, rest), |pre|, args, fail, env)
  {
    var buf := Joined(pre, Opening(item), item.close, rest);
    if item.close == NUL {
      EmptyUnclosed(pre, item.sep);
      assert buf == pre + item.sep + ['"', NUL];
    } else {
      assert buf == pre + item.sep + ['"', '"'] + rest;
      EmptyToken(pre, item.sep, rest, fail, env);
      NotEmpty(buf, |pre|, |pre| + |item.sep| + 1, args, fail, env);
    }
  }

  lemma EmptyUnclosed(pre: seq<char>, sep: string)
    requires IsSeparator(sep)
    ensures var buf := pre + sep + ['"', NUL]; InBuffer(buf, |pre|) && !QuoteHasText(buf, |pre|)
  {
    hide SkipDelims;
    var buf := pre + sep + ['"', NUL];
    var b := |pre| + |sep|;
    assert forall k | |pre| <= k < b :: buf[k] == sep[k - |pre|];
    SkipIs(buf, |pre|, b);
  }

  /** A token that begins with a quote is not the empty argument. */
  lemma NotEmpty(buf: seq<char>, pos: nat, i: nat, args: seq<string>, fail: bool, env: Environment)
    requires InBuffer(buf, pos) && QuoteHasText(buf, pos) && args != [] && args[0] == ""
    requires var s := Argument(buf, pos, fail, env); s.token == At(i) && s.pos > i && s.buf[i] == '"'
    ensures !Reads(buf, pos, args, fail, env)
  {
    hide Argument, SkipDelims, ScanEnd, QuoteHasText;
    var s := Argument(buf, pos, fail, env);
    FinalKeeps(s.buf, s.pos, |args| - 1, fail, env);
    var fin := Final(buf, pos, |args|, fail, env);
    assert fin[i] == fin[..s.pos][i] == s.buf[..s.pos][i];
  }

  lemma EmptyToken(pre: seq<char>, sep: string, tail: seq<char>, fail: bool, env: Environment)
    requires IsSeparator(sep) && |tail| > 0 && tail[|tail| - 1] == NUL
    ensures var buf := pre + sep + ['"', '"'] + tail;
            && InBuffer(buf, |pre|) && QuoteHasText(buf, |pre|)
            && var s, i := Argument(buf, |pre|, fail, env), |pre| + |sep| + 1;
               s.token == At(i) && s.pos > i && s.buf[i] == '"'
  {
    hide SkipDelims, ScanEnd, CString;
    var buf := pre + sep + ['"', '"'] + tail;
    var b := |pre| + |sep|;
    assert forall k | |pre| <= k < b :: buf[k] == sep[k - |pre|];
    assert buf[b] == '"' && buf[b + 1] == '"';
    SkipIs(buf, |pre|, b);
  }

  /** Where more is read than the first argument, the rest is. */
  lemma ReadsRest(buf: seq<char>, pos: nat, args: seq<string>, fail: bool, env: Environment)
    requires InBuffer(buf, pos) && QuoteHasText(buf, pos) && args != []
    ensures var s := Argument(buf, pos, fail, env);
            Reads(buf, pos, args, fail, env) ==> Reads(s.buf, s.pos, args[1..], fail, env)
  {
    hide Argument, QuoteHasText, CString, Final;
  }

  /** The round trip holds exactly for lists without empty arguments. */
  lemma {:induction false} RoundTripIff(pre: seq<char>, items: seq<Item>, last: string, fail: bool, env: Environment)
    requires Separated(items) && IsSeparator(last)
    ensures Reads(Line(pre, items, last), |pre|, Args(items), fail, env) <==>
            forall i | 0 <= i < |items| :: items[i].arg != ""
    decreases |items|
  {
    hide CString, Argument, QuoteHasText, Separated, IsSeparator, Opening, Inset, Joined, RestOf, Spelled, Final, Text,
         Line, Past, LastOf, Reads, Follows;
    if forall i | 0 <= i < |items| :: items[i].arg != "" {
      RoundTrip(pre, items, last, fail, env);
    } else {
      var item, rest := items[0], RestOf(items, last);
      LineIs(pre, items, last);
      assert Args(items)[0] == item.arg && Args(items)[1..] == Args(items[1..]);
      if item.arg == "" {
        ReadEmpty(pre, item, rest, Args(items), fail, env);
      } else {
        ReadItem(pre, item, rest, fail, env);
        RoundTripIff(Past(pre, item), items[1..], LastOf(items, last), fail, env);
        forall i | 0 <= i < |items| && items[i].arg == "" ensures i > 0 && items[1..][i - 1].arg == "" {}
        ReadsRest(Line(pre, items, last), |pre|, Args(items), fail, env);
      }
    }
  }
}
