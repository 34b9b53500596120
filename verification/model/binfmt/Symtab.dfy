/** Symbol table searches: the linear ones, which need no order, and the binary ones. */
module Symtab {
  import opened Names

  datatype Symbol = Symbol(name: string, value: nat)

  datatype Found = Missing | At(i: nat)

  predicate SortedByName(tab: seq<Symbol>) {
    forall i, j | 0 <= i < j < |tab| :: Before(tab[i].name, tab[j].name)
  }

  predicate SortedByValue(tab: seq<Symbol>) {
    forall i, j | 0 <= i < j < |tab| :: tab[i].value < tab[j].value
  }

  /** The first entry of that name. */
  predicate IsNamed(tab: seq<Symbol>, name: string, r: Found) {
    match r
    case Missing => forall i | 0 <= i < |tab| :: tab[i].name != name
    case At(k) => k < |tab| && tab[k].name == name && forall i | 0 <= i < k :: tab[i].name != name
  }

  /** The first of the entries with the greatest value that is not above the given one. */
  predicate IsFloor(tab: seq<Symbol>, value: nat, r: Found) {
    match r
    case Missing => forall i | 0 <= i < |tab| :: tab[i].value > value
    case At(k) =>
      && k < |tab| && tab[k].value <= value
      && (forall i | 0 <= i < |tab| :: tab[i].value <= value ==> tab[i].value <= tab[k].value)
      && (forall i | 0 <= i < k :: tab[i].value != tab[k].value)
  }

  /** The entry of exactly that value. */
  predicate IsValued(tab: seq<Symbol>, value: nat, r: Found) {
    match r
    case Missing => forall i | 0 <= i < |tab| :: tab[i].value != value
    case At(k) => k < |tab| && tab[k].value == value
  }

  method FindByName(tab: seq<Symbol>, name: string) returns (r: Found)
    ensures IsNamed(tab, name, r)
  {
    for i := 0 to |tab|
      invariant forall j | 0 <= j < i :: tab[j].name != name
    {
      if tab[i].name == name {
        return At(i);
      }
    }
    return Missing;
  }

  method FindByValue(tab: seq<Symbol>, value: nat) returns (r: Found)
    ensures IsFloor(tab, value, r)
  {
    r := Missing;
    for i := 0 to |tab|
      invariant IsFloor(tab[..i], value, r)
      invariant r.At? ==> tab[r.i].value != value
    {
      if tab[i].value <= value {
        if r.Missing? || tab[i].value > tab[r.i].value {
          r := At(i);
          if tab[i].value == value {
            return r;
          }
        }
      }
    }
  }

  /** Every probe is inside the table and the interval shrinks. */
  method FindOrderedByName(tab: seq<Symbol>, name: string) returns (r: Found)
    requires |tab| > 0 && SortedByName(tab)
    ensures IsNamed(tab, name, r)
  {
    var low, high := 0, |tab| - 1;
    while low < high
      invariant 0 <= low < |tab| && low - 1 <= high < |tab|
      invariant forall i | 0 <= i < |tab| && !(low <= i <= high) :: tab[i].name != name
      decreases high - low
    {
      var mid := (low + high) / 2;
      Probe(tab, name, mid);
      if Before(name, tab[mid].name) {
        high := mid - 1;
      } else if Before(tab[mid].name, name) {
        low := mid + 1;
      } else {
        return At(mid);
      }
    }
    if name == tab[low].name {
      Probe(tab, name, low);
      return At(low);
    }
    return Missing;
  }

  /** One comparison settles a whole side of a sorted table. */
  lemma Probe(tab: seq<Symbol>, name: string, mid: nat)
    requires SortedByName(tab) && mid < |tab|
    ensures Before(name, tab[mid].name) ==> forall i | mid <= i < |tab| :: tab[i].name != name
    ensures Before(tab[mid].name, name) ==> forall i | 0 <= i <= mid :: tab[i].name != name
    ensures !Before(name, tab[mid].name) && !Before(tab[mid].name, name) ==> name == tab[mid].name
    ensures name == tab[mid].name ==> forall i | 0 <= i < |tab| && i != mid :: tab[i].name != name
  {
    BeforeTotal(name, tab[mid].name);
    forall i | 0 <= i < |tab| && tab[i].name == name && i != mid
      ensures i < mid ==> Before(name, tab[mid].name)
      ensures i > mid ==> Before(tab[mid].name, name)
      ensures name != tab[mid].name
    {
      BeforeTotal(name, name);
    }
  }

  method FindOrderedByValue(tab: seq<Symbol>, value: nat) returns (r: Found)
    requires |tab| > 0 && SortedByValue(tab)
    ensures IsValued(tab, value, r)
  {
    var low, high := 0, |tab| - 1;
    while low < high
      invariant 0 <= low < |tab| && low - 1 <= high < |tab|
      invariant forall i | 0 <= i < |tab| && !(low <= i <= high) :: tab[i].value != value
      decreases high - low
    {
      var mid := (low + high) / 2;
      if value < tab[mid].value {
        high := mid - 1;
      } else if value > tab[mid].value {
        low := mid + 1;
      } else {
        return At(mid);
      }
    }
    return if value == tab[low].value then At(low) else Missing;
  }

  /** On a table sorted by name both searches give the same entry. */
  lemma NamesAgree(tab: seq<Symbol>, name: string, linear: Found, binary: Found)
    requires IsNamed(tab, name, linear) && IsNamed(tab, name, binary)
    ensures linear == binary
  {
    if linear.At? && binary.At? {
      assert !(linear.i < binary.i) && !(binary.i < linear.i);
    }
  }

  /** On a table sorted by value they give the same entry if and only if the value is in the
      table or below all of it: between two entries only the linear search finds the lower. */
  lemma ValuesAgreeIff(tab: seq<Symbol>, value: nat, linear: Found, binary: Found)
    requires SortedByValue(tab) && IsFloor(tab, value, linear) && IsValued(tab, value, binary)
    ensures linear == binary <==>
              (exists i | 0 <= i < |tab| :: tab[i].value == value) || (forall i | 0 <= i < |tab| :: tab[i].value > value)
  {
    if linear.At? && binary.At? {
      assert tab[binary.i].value <= tab[linear.i].value;
    }
  }

  /** An example: with the values 1 and 5, the linear search for 3 finds the entry of 1 and
      the binary one finds nothing. */
  lemma ValuesDisagree(low: string, high: string, linear: Found, binary: Found)
    requires var tab := [Symbol(low, 1), Symbol(high, 5)]; IsFloor(tab, 3, linear) && IsValued(tab, 3, binary)
    ensures linear == At(0) && binary == Missing
  {
    var tab := [Symbol(low, 1), Symbol(high, 5)];
    assert tab[0].value <= 3 && tab[1].value > 3;
  }
}
