/** The ring of messages between a head and a tail index.  One slot always stays free. */
module CanRing {

  datatype Msg = Msg(hdr: bv16, data: seq<bv8>)

  /** What lies between head and tail, going round at the end of the buffer. */
  function Ring(buffer: seq<Msg>, head: nat, tail: nat): seq<Msg>
    requires head < |buffer| && tail < |buffer|
  {
    if head <= tail then buffer[head..tail] else buffer[head..] + buffer[..tail]
  }

  function Next(size: nat, i: nat): nat {
    if i + 1 >= size then 0 else i + 1
  }

  lemma RingEmpty(buffer: seq<Msg>, head: nat, tail: nat)
    requires head < |buffer| && tail < |buffer|
    ensures Ring(buffer, head, tail) == [] <==> head == tail
    ensures |Ring(buffer, head, tail)| < |buffer|
    ensures |Ring(buffer, head, tail)| == |buffer| - 1 <==> Next(|buffer|, tail) == head
  {}

  /** Moving the head removes the first message. */
  lemma RingTake(buffer: seq<Msg>, head: nat, tail: nat)
    requires head < |buffer| && tail < |buffer| && head != tail
    ensures Ring(buffer, head, tail)[0] == buffer[head]
    ensures Ring(buffer, Next(|buffer|, head), tail) == Ring(buffer, head, tail)[1..]
  {}

  /** Storing at the tail and moving it to a place other than the head appends if and only if
      that place is the next one; otherwise even the length is wrong. */
  lemma RingPut(buffer: seq<Msg>, head: nat, tail: nat, next: nat, m: Msg)
    requires head < |buffer| && tail < |buffer| && next < |buffer| && next != head
    ensures next == Next(|buffer|, tail) ==> Ring(buffer[tail := m], head, next) == Ring(buffer, head, tail) + [m]
    ensures next != Next(|buffer|, tail) ==> |Ring(buffer[tail := m], head, next)| != |Ring(buffer, head, tail)| + 1
  {}
}
