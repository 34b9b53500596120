/** One telnet connection: the line buffer and byte machine of its receiving half, the
    output buffer of its sending half. */
module Telnetd {
  import opened Bytes
  import opened TelnetInput
  import TelnetOutput

  /** A terminator ends a string wherever the buffer ends. */
  lemma {:induction false} CStringCut(buffer: seq<byte>, n: nat)
    requires n < |buffer| && buffer[n] == 0
    ensures CString(buffer) == CString(buffer[..n])
  {
    if n > 0 && buffer[0] != 0 {
      CStringCut(buffer[1..], n - 1);
      assert buffer[..n][1..] == buffer[1..][..n - 1];
    }
  }

  class Connection {
    const cmd: array<byte>
    const outbuffer: array<byte>
    var bufndx: nat
    var state: State
    var sndlen: nat
    ghost var parsed: seq<seq<byte>>
    ghost var replies: seq<seq<byte>>
    ghost var sent: seq<byte>

    ghost predicate Valid()
      reads this, cmd, outbuffer
    {
      && cmd != outbuffer && bufndx < cmd.Length <= 256
      && Sizes().Ok() && sndlen <= outbuffer.Length - cmd.Length
    }

    ghost function Sizes(): TelnetOutput.Sizes {
      TelnetOutput.Sizes(outbuffer.Length, cmd.Length)
    }

    ghost function In(): Input
      requires Valid()
      reads this, cmd, outbuffer
    {
      Input(state, cmd[..bufndx], parsed, replies)
    }

    ghost function Out(): TelnetOutput.Output
      requires Valid()
      reads this, cmd, outbuffer
    {
      TelnetOutput.Output(sent, outbuffer[..sndlen])
    }

    constructor (linelen: nat, iobuffer: nat)
      requires TelnetOutput.Sizes(iobuffer, linelen).Ok() && linelen <= 256
      ensures Valid() && In() == Connected && Out() == TelnetOutput.Output([], [])
      ensures Sizes() == TelnetOutput.Sizes(iobuffer, linelen)
    {
      cmd, outbuffer := new byte[linelen], new byte[iobuffer];
      bufndx, state, sndlen := 0, Normal, 0;
      parsed, replies, sent := [], [], [];
    }

    /** The index of the line buffer stays inside, whatever is received. */
    method NshPutChar(ch: byte)
      requires Valid()
      modifies cmd, `bufndx, `parsed
      ensures Valid() && In() == PutChar(cmd.Length, old(In()), ch)
    {
      if ch == CR {
        return;
      }
      ghost var line := cmd[..bufndx];
      cmd[bufndx] := ch;
      if ch == LF || bufndx == cmd.Length - 1 {
        cmd[bufndx] := 0;
        CStringCut(cmd[..], bufndx);
        assert cmd[..][..bufndx] == line;
        parsed := parsed + [CString(cmd[..])];
        bufndx := 0;
      } else {
        bufndx := bufndx + 1;
        assert cmd[..bufndx] == line + [ch];
      }
    }

    method NshSendOpt(verb: byte, option: byte)
      modifies `replies
      ensures replies == old(replies) + [Reply(verb, option)]
    {
      replies := replies + [Reply(verb, option)];
    }

    method NextByte(ch: byte)
      requires Valid()
      modifies cmd, `bufndx, `parsed, `replies, `state
      ensures Valid() && In() == Accept(cmd.Length, old(In()), ch)
    {
      hide PutChar;
      match state {
        case SeenIac =>
          if ch == IAC {
            NshPutChar(ch);
            state := Normal;
          } else {
            state := match ch
              case 251 => SeenWill
              case 252 => SeenWont
              case 253 => SeenDo
              case 254 => SeenDont
              case _ => Normal;
          }
        case SeenWill => NshSendOpt(DONT, ch); state := Normal;
        case SeenWont => NshSendOpt(DONT, ch); state := Normal;
        case SeenDo => NshSendOpt(WONT, ch); state := Normal;
        case SeenDont => NshSendOpt(WONT, ch); state := Normal;
        case Normal =>
          if ch == IAC {
            state := SeenIac;
          } else {
            NshPutChar(ch);
          }
      }
    }

    method NshReceive(inbuffer: seq<byte>)
      requires Valid()
      modifies cmd, `bufndx, `parsed, `replies, `state
      ensures Valid() && In() == Receive(cmd.Length, old(In()), inbuffer)
    {
      hide Accept;
      var i := 0;
      while i < |inbuffer|
        invariant i <= |inbuffer| && Valid()
        invariant Receive(cmd.Length, In(), inbuffer[i..]) == Receive(cmd.Length, old(In()), inbuffer)
      {
        assert inbuffer[i..][1..] == inbuffer[i + 1..];
        NextByte(inbuffer[i]);
        i := i + 1;
      }
    }

    method NshFlush()
      requires Valid()
      modifies `sndlen, `sent
      ensures Valid() && Out() == TelnetOutput.Flush(old(Out()))
    {
      if sndlen > 0 {
        sent := sent + outbuffer[..sndlen];
      }
      sndlen := 0;
    }

    method NshTelnetWrite(buffer: seq<byte>)
      requires Valid()
      modifies `sndlen, `sent
      ensures Valid() && Out() == TelnetOutput.Write(old(Out()), buffer)
    {
      NshFlush();
      sent := sent + buffer;
    }

    /** Stores as much of the string as fits with its terminator. */
    method Format(s: seq<byte>) returns (len: nat)
      requires Valid()
      modifies outbuffer
      ensures Valid()
      ensures len == if |s| <= outbuffer.Length - 2 - sndlen then |s| else outbuffer.Length - 2 - sndlen
      ensures outbuffer[..sndlen + len] == old(outbuffer[..sndlen]) + s[..len] && outbuffer[sndlen + len] == 0
    {
      len := 0;
      while len < |s| && len < outbuffer.Length - 2 - sndlen
        invariant len <= |s| && len <= outbuffer.Length - 2 - sndlen
        invariant outbuffer[..sndlen + len] == old(outbuffer[..sndlen]) + s[..len]
      {
        outbuffer[sndlen + len] := s[len];
        len := len + 1;
        assert s[..len] == s[..len - 1] + [s[len - 1]];
        assert outbuffer[..sndlen + len] == outbuffer[..sndlen + len - 1] + [s[len - 1]];
      }
      outbuffer[sndlen + len] := 0;
    }

    /** Prints a string.  An empty string needs something in the buffer before it. */
    method NshTelnetOutput(s: seq<byte>) returns (len: nat)
      requires Valid() && 0 !in s && (s != [] || sndlen > 0)
      modifies outbuffer, `sndlen, `sent
      ensures Valid() && Out() == TelnetOutput.Print(Sizes(), old(Out()), s)
      ensures var room := outbuffer.Length - 2 - old(sndlen); len == if |s| <= room then |s| else room
      ensures sndlen > 0 ==> outbuffer[sndlen] == 0
    {
      len := Format(s);
      var nbytes := ExpandLineEnd(sndlen + len);
      if nbytes > outbuffer.Length - cmd.Length {
        sent, sndlen := sent + outbuffer[..nbytes], 0;
      } else {
        sndlen := nbytes;
      }
    }

    /** Makes CR LF of a newline that ends the first `nbytes` bytes. */
    method ExpandLineEnd(nbytes: nat) returns (n: nat)
      requires Valid() && 0 < nbytes <= outbuffer.Length - 2 && outbuffer[nbytes] == 0
      modifies outbuffer
      ensures Valid() && n <= outbuffer.Length - 2 && outbuffer[n] == 0
      ensures outbuffer[..n] == TelnetOutput.LineEnd(Sizes(), old(outbuffer[..nbytes]))
    {
      n := nbytes;
      if nbytes < outbuffer.Length - 2 && outbuffer[nbytes - 1] == LF {
        outbuffer[nbytes - 1] := CR;
        outbuffer[nbytes] := LF;
        outbuffer[nbytes + 1] := 0;
        n := nbytes + 1;
      }
    }
  }
}
