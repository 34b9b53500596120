/** The receiving half of the telnet front end, as values: a byte-by-byte machine that takes
    telnet commands (RFC 854) out of the stream, answers them, and gathers lines. */
module TelnetInput {
  import opened Bytes

  const LF: byte := 10
  const CR: byte := 13
  const WILL: byte := 251
  const WONT: byte := 252
  const DO: byte := 253
  const DONT: byte := 254
  const IAC: byte := 255

  datatype State = Normal | SeenIac | SeenWill | SeenWont | SeenDo | SeenDont

  /** `pending` is the line so far, `parsed` the lines given to the shell's parser and
      `replies` the messages sent back. */
  datatype Input = Input(state: State, pending: seq<byte>, parsed: seq<seq<byte>>, replies: seq<seq<byte>>)

  const Connected := Input(Normal, [], [], [])

  /** What a reader of a NUL-terminated string sees. */
  function CString(s: seq<byte>): (r: seq<byte>)
    ensures r <= s && 0 !in r
    ensures 0 !in s ==> r == s
  {
    if s == [] || s[0] == 0 then [] else [s[0]] + CString(s[1..])
  }

  /** Adds a character to the line; a newline, or a character that no longer fits, ends it. */
  function PutChar(linelen: nat, v: Input, ch: byte): (v': Input)
    requires |v.pending| < linelen
    ensures |v'.pending| < linelen
  {
    if ch == CR then v
    else if ch == LF || |v.pending| == linelen - 1 then v.(pending := [], parsed := v.parsed + [CString(v.pending)])
    else v.(pending := v.pending + [ch])
  }

  function Reply(verb: byte, option: byte): seq<byte> {
    [IAC, verb, option, 0]
  }

  function SendOpt(v: Input, verb: byte, option: byte): Input {
    v.(state := Normal, replies := v.replies + [Reply(verb, option)])
  }

  /** One received byte. */
  function Accept(linelen: nat, v: Input, ch: byte): (v': Input)
    requires |v.pending| < linelen
    ensures |v'.pending| < linelen
  {
    match v.state
    case SeenIac =>
      if ch == IAC then PutChar(linelen, v, ch).(state := Normal)
      else if ch == WILL then v.(state := SeenWill)
      else if ch == WONT then v.(state := SeenWont)
      else if ch == DO then v.(state := SeenDo)
      else if ch == DONT then v.(state := SeenDont)
      else v.(state := Normal)
    case SeenWill => SendOpt(v, DONT, ch)
    case SeenWont => SendOpt(v, DONT, ch)
    case SeenDo => SendOpt(v, WONT, ch)
    case SeenDont => SendOpt(v, WONT, ch)
    case Normal =>
      if ch == IAC then v.(state := SeenIac) else PutChar(linelen, v, ch)
  }

  /** One received buffer. */
  function Receive(linelen: nat, v: Input, bytes: seq<byte>): (v': Input)
    requires |v.pending| < linelen
    ensures |v'.pending| < linelen
    decreases |bytes|
  {
    if bytes == [] then v else Receive(linelen, Accept(linelen, v, bytes[0]), bytes[1..])
  }

  /** The buffers of a connection, in order. */
  function ReceiveAll(linelen: nat, v: Input, buffers: seq<seq<byte>>): (v': Input)
    requires |v.pending| < linelen
    ensures |v'.pending| < linelen
    decreases |buffers|
  {
    if buffers == [] then v else ReceiveAll(linelen, Receive(linelen, v, buffers[0]), buffers[1..])
  }

  lemma {:induction false} ReceiveSplit(linelen: nat, v: Input, a: seq<byte>, b: seq<byte>)
    requires |v.pending| < linelen
    ensures Receive(linelen, v, a + b) == Receive(linelen, Receive(linelen, v, a), b)
    decreases |a|
  {
    if a == [] {
      assert a + b == b;
    } else {
      ReceiveSplit(linelen, Accept(linelen, v, a[0]), a[1..], b);
      assert (a + b)[1..] == a[1..] + b;
    }
  }

  /** Where the stream is cut into buffers does not matter. */
  lemma {:induction false} CutsDoNotMatter(linelen: nat, v: Input, buffers: seq<seq<byte>>)
    requires |v.pending| < linelen
    ensures ReceiveAll(linelen, v, buffers) == Receive(linelen, v, Concat(buffers))
    decreases |buffers|
  {
    if buffers != [] {
      ReceiveSplit(linelen, v, buffers[0], Concat(buffers[1..]));
      CutsDoNotMatter(linelen, Receive(linelen, v, buffers[0]), buffers[1..]);
    }
  }

  // ---------------------------------------------------------------- what a client sends

  /** A data byte, an option negotiation, or a command without an option. */
  datatype Item = Data(b: byte) | Will(option: byte) | Wont(option: byte) | Do(option: byte) | Dont(option: byte)
                | Command(c: byte)

  /** The codes above 250 are the negotiations and IAC itself. */
  predicate Legal(items: seq<Item>) {
    forall i | 0 <= i < |items| && items[i].Command? :: items[i].c <= 250
  }

  /** The telnet command structure: 255 introduces a command and is doubled as data. */
  function Encode(item: Item): seq<byte> {
    match item
    case Data(b) => if b == 255 then [255, 255] else [b]
    case Will(o) => [255, 251, o]
    case Wont(o) => [255, 252, o]
    case Do(o) => [255, 253, o]
    case Dont(o) => [255, 254, o]
    case Command(c) => [255, c]
  }

  function EncodeAll(items: seq<Item>): seq<byte> {
    if items == [] then [] else Encode(items[0]) + EncodeAll(items[1..])
  }

  function Datum(item: Item): seq<byte> {
    if item.Data? then [item.b] else []
  }

  function DataOf(items: seq<Item>): seq<byte> {
    if items == [] then [] else Datum(items[0]) + DataOf(items[1..])
  }

  /** Every offer is refused: DONT (254) answers WILL and WONT, WONT (252) answers DO and
      DONT.  Other commands are not answered. */
  function Answer(item: Item): seq<seq<byte>> {
    match item
    case Data(_) => []
    case Will(o) => [[255, 254, o, 0]]
    case Wont(o) => [[255, 254, o, 0]]
    case Do(o) => [[255, 252, o, 0]]
    case Dont(o) => [[255, 252, o, 0]]
    case Command(_) => []
  }

  function Answers(items: seq<Item>): seq<seq<byte>> {
    if items == [] then [] else Answer(items[0]) + Answers(items[1..])
  }

  /** The line gathering alone, without telnet. */
  function PutAll(linelen: nat, v: Input, data: seq<byte>): (v': Input)
    requires |v.pending| < linelen
    ensures |v'.pending| < linelen
    decreases |data|
  {
    if data == [] then v else PutAll(linelen, PutChar(linelen, v, data[0]), data[1..])
  }

  lemma ReceiveItem(linelen: nat, v: Input, item: Item, rest: seq<byte>)
    requires |v.pending| < linelen && v.state.Normal? && (item.Command? ==> item.c <= 250)
    ensures Receive(linelen, v, Encode(item) + rest) ==
            Receive(linelen, PutAll(linelen, v, Datum(item)).(replies := v.replies + Answer(item)), rest)
  {
    hide Receive;
    match item
    case Data(b) =>
      assert PutAll(linelen, v, [b]) == PutChar(linelen, v, b) && v.replies + [] == v.replies;
      if b == IAC {
        ReceiveTwo(linelen, v, IAC, b, rest);
      } else {
        ReceiveOne(linelen, v, b, rest);
      }
    case Will(o) => ReceiveThree(linelen, v, WILL, o, rest);
    case Wont(o) => ReceiveThree(linelen, v, WONT, o, rest);
    case Do(o) => ReceiveThree(linelen, v, DO, o, rest);
    case Dont(o) => ReceiveThree(linelen, v, DONT, o, rest);
    case Command(c) =>
      ReceiveTwo(linelen, v, IAC, c, rest);
      assert v.replies + [] == v.replies;
  }

  lemma ReceiveOne(linelen: nat, v: Input, b: byte, rest: seq<byte>)
    requires |v.pending| < linelen
    ensures Receive(linelen, v, [b] + rest) == Receive(linelen, Accept(linelen, v, b), rest)
  {
    assert ([b] + rest)[1..] == rest;
  }

  lemma ReceiveTwo(linelen: nat, v: Input, a: byte, b: byte, rest: seq<byte>)
    requires |v.pending| < linelen
    ensures Receive(linelen, v, [a, b] + rest) == Receive(linelen, Accept(linelen, Accept(linelen, v, a), b), rest)
  {
    hide Receive, Accept;
    assert [a, b] + rest == [a] + ([b] + rest);
    ReceiveOne(linelen, v, a, [b] + rest);
    ReceiveOne(linelen, Accept(linelen, v, a), b, rest);
  }

  /** IAC, a verb and an option. */
  lemma ReceiveThree(linelen: nat, v: Input, verb: byte, option: byte, rest: seq<byte>)
    requires |v.pending| < linelen && v.state.Normal? && verb in {WILL, WONT, DO, DONT}
    ensures Receive(linelen, v, [IAC, verb, option] + rest) ==
            Receive(linelen, SendOpt(v, if verb in {WILL, WONT} then DONT else WONT, option), rest)
  {
    hide Receive;
    assert [IAC, verb, option] + rest == [IAC, verb] + ([option] + rest);
    ReceiveTwo(linelen, v, IAC, verb, [option] + rest);
    ReceiveOne(linelen, Accept(linelen, Accept(linelen, v, IAC), verb), option, rest);
  }

  /** Negotiations are answered in order, and they and other commands leave the data untouched. */
  lemma {:induction false} ReceiveEncoded(linelen: nat, v: Input, items: seq<Item>)
    requires |v.pending| < linelen && v.state.Normal? && Legal(items)
    ensures Receive(linelen, v, EncodeAll(items)) == PutAll(linelen, v, DataOf(items)).(replies := v.replies + Answers(items))
    decreases |items|
  {
    hide Receive, PutAll, Encode, Datum, Answer;
    if items == [] {
      NoBytes(linelen, v);
    } else {
      var rest, data := items[1..], Datum(items[0]);
      var v1 := PutAll(linelen, v, data);
      var replies := v.replies + Answer(items[0]);
      ReceiveItem(linelen, v, items[0], EncodeAll(rest));
      PutAllState(linelen, v, data);
      ReceiveEncoded(linelen, v1.(replies := replies), rest);
      PutAllReplies(linelen, v1, replies, DataOf(rest));
      PutSplit(linelen, v, data, DataOf(rest));
      assert replies + Answers(rest) == v.replies + Answers(items);
    }
  }

  lemma NoBytes(linelen: nat, v: Input)
    requires |v.pending| < linelen
    ensures Receive(linelen, v, []) == v && PutAll(linelen, v, []) == v
  {}

  lemma {:induction false} PutAllState(linelen: nat, v: Input, data: seq<byte>)
    requires |v.pending| < linelen
    ensures PutAll(linelen, v, data).state == v.state
    decreases |data|
  {
    if data != [] {
      PutAllState(linelen, PutChar(linelen, v, data[0]), data[1..]);
    }
  }

  lemma {:induction false} PutAllReplies(linelen: nat, v: Input, replies: seq<seq<byte>>, data: seq<byte>)
    requires |v.pending| < linelen
    ensures PutAll(linelen, v.(replies := replies), data) == PutAll(linelen, v, data).(replies := replies)
    decreases |data|
  {
    if data != [] {
      PutAllReplies(linelen, PutChar(linelen, v, data[0]), replies, data[1..]);
    }
  }

  // ---------------------------------------------------------------- lines

  predicate IsLine(l: seq<byte>) {
    CR !in l && LF !in l
  }

  /** What the shell is given for a line: the line itself when it fits, and otherwise its
      pieces, the character that ends each full piece being lost. */
  function Delivered(linelen: nat, l: seq<byte>): (r: seq<seq<byte>>)
    requires linelen > 0
    ensures 0 !in l ==> (r == [l] <==> |l| < linelen)
    decreases |l|
  {
    if |l| < linelen then [CString(l)] else [CString(l[..linelen - 1])] + Delivered(linelen, l[linelen..])
  }

  /** The lines, each ended by a newline. */
  function Wire(lines: seq<seq<byte>>): seq<byte> {
    if lines == [] then [] else lines[0] + [LF] + Wire(lines[1..])
  }

  function WithoutCr(data: seq<byte>): seq<byte> {
    if data == [] then [] else (if data[0] == CR then [] else [data[0]]) + WithoutCr(data[1..])
  }

  /** Carriage returns are ignored wherever they stand. */
  lemma {:induction false} CrIgnored(linelen: nat, v: Input, data: seq<byte>)
    requires |v.pending| < linelen
    ensures PutAll(linelen, v, data) == PutAll(linelen, v, WithoutCr(data))
    decreases |data|
  {
    if data != [] {
      var rest := WithoutCr(data[1..]);
      CrIgnored(linelen, PutChar(linelen, v, data[0]), data[1..]);
      assert [] + rest == rest && ([data[0]] + rest)[1..] == rest;
    }
  }

  function DeliveredAll(linelen: nat, lines: seq<seq<byte>>): seq<seq<byte>>
    requires linelen > 0
  {
    if lines == [] then [] else Delivered(linelen, lines[0]) + DeliveredAll(linelen, lines[1..])
  }

  lemma {:induction false} PutSplit(linelen: nat, v: Input, a: seq<byte>, b: seq<byte>)
    requires |v.pending| < linelen
    ensures PutAll(linelen, v, a + b) == PutAll(linelen, PutAll(linelen, v, a), b)
    decreases |a|
  {
    if a == [] {
      assert a + b == b;
    } else {
      PutSplit(linelen, PutChar(linelen, v, a[0]), a[1..], b);
      assert (a + b)[1..] == a[1..] + b;
    }
  }

  lemma {:induction false} PutShort(linelen: nat, v: Input, l: seq<byte>)
    requires |v.pending| + |l| < linelen && IsLine(l)
    ensures PutAll(linelen, v, l) == v.(pending := v.pending + l)
    decreases |l|
  {
    if l == [] {
      assert v.pending + l == v.pending;
    } else {
      PutShort(linelen, PutChar(linelen, v, l[0]), l[1..]);
      assert v.pending + [l[0]] + l[1..] == v.pending + l;
    }
  }

  lemma PutShortLine(linelen: nat, v: Input, l: seq<byte>)
    requires v.pending == [] && IsLine(l) && |l| < linelen
    ensures PutAll(linelen, v, l + [LF]) == v.(parsed := v.parsed + [CString(l)])
  {
    PutSplit(linelen, v, l, [LF]);
    PutShort(linelen, v, l);
    assert v.pending + l == l;
    assert PutAll(linelen, v.(pending := l), [LF]) == PutChar(linelen, v.(pending := l), LF);
  }

  lemma {:induction false} PutLine(linelen: nat, v: Input, l: seq<byte>)
    requires linelen > 0 && v.pending == [] && IsLine(l)
    ensures PutAll(linelen, v, l + [LF]) == v.(parsed := v.parsed + Delivered(linelen, l))
    decreases |l|
  {
    hide PutAll, CString;
    if |l| < linelen {
      PutShortLine(linelen, v, l);
    } else {
      var first, ch, rest := l[..linelen - 1], l[linelen - 1], l[linelen..];
      var v1 := v.(parsed := v.parsed + [CString(first)]);
      assert PutAll(linelen, v, l + [LF]) == PutAll(linelen, v1, rest + [LF]) by {
        assert l + [LF] == first + ([ch] + (rest + [LF]));
        PutSplit(linelen, v, first, [ch] + (rest + [LF]));
        PutShort(linelen, v, first);
        assert v.pending + first == first;
        PutFull(linelen, v.(pending := first), ch, rest + [LF]);
      }
      PutLine(linelen, v1, rest);
      assert v1.parsed + Delivered(linelen, rest) == v.parsed + ([CString(first)] + Delivered(linelen, rest));
    }
  }

  /** A full line is ended by the next character, which is lost. */
  lemma PutFull(linelen: nat, v: Input, ch: byte, rest: seq<byte>)
    requires linelen > 0 && |v.pending| == linelen - 1 && ch != CR
    ensures PutAll(linelen, v, [ch] + rest) == PutAll(linelen, v.(pending := [], parsed := v.parsed + [CString(v.pending)]), rest)
  {
    assert ([ch] + rest)[1..] == rest;
  }

  lemma {:induction false} PutLines(linelen: nat, v: Input, lines: seq<seq<byte>>)
    requires linelen > 0 && v.pending == [] && forall i | 0 <= i < |lines| :: IsLine(lines[i])
    ensures PutAll(linelen, v, Wire(lines)) == v.(parsed := v.parsed + DeliveredAll(linelen, lines))
    decreases |lines|
  {
    hide Delivered;
    if lines != [] {
      PutSplit(linelen, v, lines[0] + [LF], Wire(lines[1..]));
      PutLine(linelen, v, lines[0]);
      PutLines(linelen, v.(parsed := v.parsed + Delivered(linelen, lines[0])), lines[1..]);
    }
  }

  lemma {:induction false} ShortLinesAreKept(linelen: nat, lines: seq<seq<byte>>)
    requires linelen > 0 && forall i | 0 <= i < |lines| :: |lines[i]| < linelen && 0 !in lines[i]
    ensures DeliveredAll(linelen, lines) == lines
    decreases |lines|
  {
    if lines != [] { ShortLinesAreKept(linelen, lines[1..]); }
  }

  /** Whatever negotiations are mixed in and however the stream is cut, the shell is given
      the lines that were sent, in order, and every negotiation is refused, in order.  Carriage
      returns do not count. */
  lemma LinesArrive(linelen: nat, items: seq<Item>, lines: seq<seq<byte>>, buffers: seq<seq<byte>>)
    requires linelen > 0
    requires forall i | 0 <= i < |lines| :: IsLine(lines[i])
    requires Legal(items) && WithoutCr(DataOf(items)) == Wire(lines) && Concat(buffers) == EncodeAll(items)
    ensures ReceiveAll(linelen, Connected, buffers) == Input(Normal, [], DeliveredAll(linelen, lines), Answers(items))
    ensures (forall i | 0 <= i < |lines| :: |lines[i]| < linelen && 0 !in lines[i]) ==> DeliveredAll(linelen, lines) == lines
  {
    hide Receive, ReceiveAll, PutAll, EncodeAll, DataOf, WithoutCr, Wire, Concat, DeliveredAll;
    CutsDoNotMatter(linelen, Connected, buffers);
    ReceiveEncoded(linelen, Connected, items);
    CrIgnored(linelen, Connected, DataOf(items));
    PutLines(linelen, Connected, lines);
    if forall i | 0 <= i < |lines| :: |lines[i]| < linelen && 0 !in lines[i] {
      ShortLinesAreKept(linelen, lines);
    }
  }
}
