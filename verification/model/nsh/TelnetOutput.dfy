/** The sending half of the telnet front end, as values: strings are gathered in a buffer,
    a final newline becomes CR LF, and the buffer is sent before it can overflow. */
module TelnetOutput {
  import opened Bytes
  import opened TelnetInput

  /** The sizes of the output buffer and of a line. */
  datatype Sizes = Sizes(iobuffer: nat, linelen: nat) {
    predicate Ok() { 2 < linelen && linelen + 1 < iobuffer }
  }

  datatype Output = Output(sent: seq<byte>, buffer: seq<byte>)

  /** Everything printed so far, sent or not. */
  function All(v: Output): seq<byte> {
    v.sent + v.buffer
  }

  predicate EndsLine(s: seq<byte>) {
    s != [] && s[|s| - 1] == LF
  }

  function Flush(v: Output): Output {
    Output(v.sent + v.buffer, [])
  }

  /** A newline at the end of the buffer is expanded if there is room. */
  function LineEnd(c: Sizes, b: seq<byte>): seq<byte> {
    if |b| < c.iobuffer - 2 && EndsLine(b) then b[..|b| - 1] + [CR, LF] else b
  }

  /** A string is cut to what the buffer holds with its terminator; then comes the newline. */
  function Gather(c: Sizes, buffer: seq<byte>, s: seq<byte>): seq<byte>
    requires c.Ok() && |buffer| <= c.iobuffer - c.linelen
  {
    var room := c.iobuffer - 2 - |buffer|;
    LineEnd(c, buffer + s[..if |s| <= room then |s| else room])
  }

  function Print(c: Sizes, v: Output, s: seq<byte>): (v': Output)
    requires c.Ok() && |v.buffer| <= c.iobuffer - c.linelen
    ensures |v'.buffer| <= c.iobuffer - c.linelen
  {
    var b := Gather(c, v.buffer, s);
    if |b| > c.iobuffer - c.linelen then Flush(Output(v.sent, b)) else Output(v.sent, b)
  }

  /** Raw bytes go out at once, behind what is buffered. */
  function Write(v: Output, bytes: seq<byte>): Output {
    Output(Flush(v).sent + bytes, [])
  }

  // ---------------------------------------------------------------- what a string means

  /** The string with a final newline as a network virtual terminal wants it. */
  function Expand(s: seq<byte>): seq<byte> {
    if EndsLine(s) then s[..|s| - 1] + [CR, LF] else s
  }

  /** What a string leaves in the buffer and what it sends.  It waits in the buffer as long
      as the next line still fits behind it.  Otherwise all is sent at once, and a string the
      buffer has no room for is cut, its newline left as it is. */
  lemma PrintExactly(c: Sizes, v: Output, s: seq<byte>)
    requires c.Ok() && |v.buffer| <= c.iobuffer - c.linelen && s != []
    ensures var n := |v.buffer| + |Expand(s)|;
            Print(c, v, s) ==
            if n <= c.iobuffer - c.linelen then Output(v.sent, v.buffer + Expand(s))
            else if n <= c.iobuffer - 2 then Output(All(v) + Expand(s), [])
            else Output(All(v) + s[..c.iobuffer - 2 - |v.buffer|], [])
  {
    hide Gather, Expand;
    GatherExactly(c, v.buffer, s);
    var room := c.iobuffer - 2 - |v.buffer|;
    if |v.buffer| + |Expand(s)| <= c.iobuffer - 2 {
      assert All(v) + Expand(s) == v.sent + (v.buffer + Expand(s));
    } else {
      assert All(v) + s[..room] == v.sent + (v.buffer + s[..room]);
    }
  }

  lemma GatherExactly(c: Sizes, buffer: seq<byte>, s: seq<byte>)
    requires c.Ok() && |buffer| <= c.iobuffer - c.linelen && s != []
    ensures var room := c.iobuffer - 2 - |buffer|;
            if |Expand(s)| <= room then Gather(c, buffer, s) == buffer + Expand(s)
            else |s| >= room && Gather(c, buffer, s) == buffer + s[..room]
  {
    var room := c.iobuffer - 2 - |buffer|;
    if |Expand(s)| > room && |s| == room {
      assert s[..room] == s;
    }
  }

  lemma PrintGathers(c: Sizes, v: Output, s: seq<byte>)
    requires c.Ok() && |v.buffer| <= c.iobuffer - c.linelen
    ensures All(Print(c, v, s)) == v.sent + Gather(c, v.buffer, s)
  {}

  /** A string arrives whole, with its line end expanded, if and only if the buffer has
      room for it. */
  lemma PrintArrivesIff(c: Sizes, v: Output, s: seq<byte>)
    requires c.Ok() && |v.buffer| <= c.iobuffer - c.linelen && s != []
    ensures All(Print(c, v, s)) == All(v) + Expand(s) <==> |v.buffer| + |Expand(s)| <= c.iobuffer - 2
  {
    hide Print, Expand, Gather;
    PrintExactly(c, v, s);
    if |v.buffer| + |Expand(s)| <= c.iobuffer - 2 {
      assert All(v) + Expand(s) == v.sent + (v.buffer + Expand(s));
    } else {
      GatherExactly(c, v.buffer, s);
      assert All(Print(c, v, s)) == All(v) + s[..c.iobuffer - 2 - |v.buffer|];
    }
  }

  /** Strings up to three short of a line always do. */
  lemma ShortStringsArrive(c: Sizes, v: Output, s: seq<byte>)
    requires c.Ok() && |v.buffer| <= c.iobuffer - c.linelen && s != [] && |s| <= c.linelen - 3
    ensures All(Print(c, v, s)) == All(v) + Expand(s)
  {
    PrintArrivesIff(c, v, s);
  }

  /** An empty string is not always nothing: behind a buffered newline it adds another CR. */
  lemma EmptyStringAddsCr(c: Sizes, v: Output)
    requires c.Ok() && |v.buffer| <= c.iobuffer - c.linelen && v.buffer != []
    ensures All(Print(c, v, [])) == All(v) <==> !EndsLine(v.buffer)
  {
    PrintGathers(c, v, []);
    assert v.buffer + [] == v.buffer;
  }

  /** An example: a newline, then the empty string, is sent as CR CR LF. */
  lemma EmptyStringExample(c: Sizes)
    requires c.Ok() && c.iobuffer - c.linelen >= 3
    ensures var v := Print(c, Output([], []), [LF]); All(v) == [CR, LF] && All(Print(c, v, [])) == [CR, CR, LF]
  {
    assert [] + [LF] == [LF] && [LF][..0] == [];
    assert Gather(c, [], [LF]) == [CR, LF];
    assert [CR, LF] + [] == [CR, LF] && [CR, LF][..1] == [CR];
    assert Gather(c, [CR, LF], []) == [CR, CR, LF];
  }

  // ---------------------------------------------------------------- whole sessions

  datatype Op = Str(s: seq<byte>) | Raw(bytes: seq<byte>) | Prompted

  function Run(c: Sizes, v: Output, ops: seq<Op>): (v': Output)
    requires c.Ok() && |v.buffer| <= c.iobuffer - c.linelen
    ensures |v'.buffer| <= c.iobuffer - c.linelen
    decreases |ops|
  {
    if ops == [] then v
    else
      match ops[0]
      case Str(s) => Run(c, Print(c, v, s), ops[1..])
      case Raw(bytes) => Run(c, Write(v, bytes), ops[1..])
      case Prompted => Run(c, Flush(v), ops[1..])
  }

  function Meaning(ops: seq<Op>): seq<byte> {
    if ops == [] then []
    else
      match ops[0]
      case Str(s) => Expand(s) + Meaning(ops[1..])
      case Raw(bytes) => bytes + Meaning(ops[1..])
      case Prompted => Meaning(ops[1..])
  }

  /** Over a whole session nothing is lost, doubled or reordered. */
  lemma {:induction false} SessionArrives(c: Sizes, v: Output, ops: seq<Op>)
    requires c.Ok() && |v.buffer| <= c.iobuffer - c.linelen
    requires forall i | 0 <= i < |ops| :: ops[i].Str? ==> 0 < |ops[i].s| <= c.linelen - 3
    ensures All(Run(c, v, ops)) == All(v) + Meaning(ops)
    decreases |ops|
  {
    hide Print, Expand;
    if ops == [] {
      assert All(v) + [] == All(v);
    } else {
      var rest := ops[1..];
      match ops[0]
      case Str(s) =>
        ShortStringsArrive(c, v, s);
        SessionArrives(c, Print(c, v, s), rest);
        assert All(v) + Expand(s) + Meaning(rest) == All(v) + (Expand(s) + Meaning(rest));
      case Raw(bytes) =>
        SessionArrives(c, Write(v, bytes), rest);
        assert All(v) + bytes + Meaning(rest) == All(v) + (bytes + Meaning(rest));
      case Prompted =>
        SessionArrives(c, Flush(v), rest);
    }
  }
}
