/** Descriptor tables as values, and the references they hold. */
module Slots {
  import opened Forests

  /** One entry of a descriptor table; it is free when it has no inode. */
  datatype Slot = Slot(oflags: int, pos: int, inode: Inode?)

  const FreeSlot := Slot(0, 0, null)

  /** A slot without an inode has zero flags and position. */
  predicate CleanSlots(slots: seq<Slot>) {
    forall i | 0 <= i < |slots| :: slots[i].inode == null ==> slots[i] == FreeSlot
  }

  function RefOf(n: Inode?): multiset<Inode> {
    if n == null then multiset{} else multiset{n}
  }

  /** One reference for every slot that names an inode. */
  function SlotRefs(slots: seq<Slot>): multiset<Inode> {
    if slots == [] then multiset{} else RefOf(slots[0].inode) + SlotRefs(slots[1..])
  }

  /** The references of all tables. */
  function TableRefs(tables: seq<seq<Slot>>): multiset<Inode> {
    if tables == [] then multiset{} else SlotRefs(tables[0]) + TableRefs(tables[1..])
  }

  lemma SumCancel<T>(h: multiset<T>, a: multiset<T>, b: multiset<T>, c: multiset<T>, d: multiset<T>)
    requires a + b == c + d
    ensures h + a + b == h + c + d
  {
    assert h + a + b == h + (a + b);
    assert h + c + d == h + (c + d);
  }

  lemma {:induction false} SlotRefsUpdate(slots: seq<Slot>, i: nat, x: Slot)
    requires i < |slots|
    ensures SlotRefs(slots[i := x]) + RefOf(slots[i].inode) == SlotRefs(slots) + RefOf(x.inode)
  {
    var tail, tail' := slots[1..], slots[i := x][1..];
    assert SlotRefs(slots) == RefOf(slots[0].inode) + SlotRefs(tail);
    assert SlotRefs(slots[i := x]) == RefOf(slots[i := x][0].inode) + SlotRefs(tail');
    hide RefOf, SlotRefs;
    if i == 0 {
      assert tail' == tail;
    } else {
      SlotRefsUpdate(tail, i - 1, x);
      assert tail' == tail[i - 1 := x];
      SumCancel(RefOf(slots[0].inode), SlotRefs(tail'), RefOf(slots[i].inode), SlotRefs(tail), RefOf(x.inode));
    }
  }

  lemma {:induction false} TableRefsUpdate(tables: seq<seq<Slot>>, t: nat, slots: seq<Slot>)
    requires t < |tables|
    ensures TableRefs(tables[t := slots]) + SlotRefs(tables[t]) == TableRefs(tables) + SlotRefs(slots)
  {
    var tail, tail' := tables[1..], tables[t := slots][1..];
    assert TableRefs(tables) == SlotRefs(tables[0]) + TableRefs(tail);
    assert TableRefs(tables[t := slots]) == SlotRefs(tables[t := slots][0]) + TableRefs(tail');
    hide SlotRefs, TableRefs;
    if t == 0 {
      assert tail' == tail;
    } else {
      TableRefsUpdate(tail, t - 1, slots);
      assert tail' == tail[t - 1 := slots];
      SumCancel(SlotRefs(tables[0]), TableRefs(tail'), SlotRefs(tables[t]), TableRefs(tail), SlotRefs(slots));
    }
  }

  /** Changing one slot exchanges one reference. */
  lemma SlotExchange(tables: seq<seq<Slot>>, t: nat, i: nat, x: Slot)
    requires t < |tables| && i < |tables[t]|
    ensures TableRefs(tables[t := tables[t][i := x]]) + RefOf(tables[t][i].inode) == TableRefs(tables) + RefOf(x.inode)
  {
    hide SlotRefs, TableRefs, RefOf;
    var slots' := tables[t][i := x];
    SlotRefsUpdate(tables[t], i, x);
    TableRefsUpdate(tables, t, slots');
    var T', T, S', S := TableRefs(tables[t := slots']), TableRefs(tables), SlotRefs(slots'), SlotRefs(tables[t]);
    var old', new' := RefOf(tables[t][i].inode), RefOf(x.inode);
    forall n | n in T' + T + S' + S + old' + new' ensures (T' + old')[n] == (T + new')[n] {
      assert (T' + S)[n] == (T + S')[n];
      assert (S' + old')[n] == (S + new')[n];
    }
  }

  lemma {:induction false} SlotRefsIn(slots: seq<Slot>, i: nat)
    requires i < |slots| && slots[i].inode != null
    ensures slots[i].inode in SlotRefs(slots)
  {
    if i > 0 { SlotRefsIn(slots[1..], i - 1); }
  }

  /** An inode named by a slot is referenced. */
  lemma {:induction false} TableRefsIn(tables: seq<seq<Slot>>, t: nat, i: nat)
    requires t < |tables| && i < |tables[t]| && tables[t][i].inode != null
    ensures tables[t][i].inode in TableRefs(tables)
  {
    if t == 0 {
      SlotRefsIn(tables[0], i);
    } else {
      TableRefsIn(tables[1..], t - 1, i);
    }
  }

  lemma {:induction false} NoRefs(slots: seq<Slot>)
    requires forall i | 0 <= i < |slots| :: slots[i].inode == null
    ensures SlotRefs(slots) == multiset{}
  {
    if slots != [] { NoRefs(slots[1..]); }
  }

  lemma {:induction false} TableRefsAppend(tables: seq<seq<Slot>>, slots: seq<Slot>)
    ensures TableRefs(tables + [slots]) == TableRefs(tables) + SlotRefs(slots)
  {
    if tables == [] {
      assert tables + [slots] == [slots];
    } else {
      assert (tables + [slots])[1..] == tables[1..] + [slots];
      TableRefsAppend(tables[1..], slots);
    }
  }

  lemma {:induction false} TableRefsDrop(tables: seq<seq<Slot>>, t: nat)
    requires t < |tables|
    ensures TableRefs(tables[..t] + tables[t + 1..]) + SlotRefs(tables[t]) == TableRefs(tables)
  {
    if t == 0 {
      assert tables[..0] + tables[1..] == tables[1..];
    } else {
      TableRefsDrop(tables[1..], t - 1);
      assert (tables[..t] + tables[t + 1..])[1..] == tables[1..][..t - 1] + tables[1..][t..];
    }
  }
}
