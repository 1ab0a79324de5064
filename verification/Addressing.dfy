/** How a flat file position is turned into a place in the device: which list item, which slot of
    that item's pointer array, and which byte of the quantum hanging from that slot. */
module Addressing {
  import opened Division

  /** The two sizes of a container: bytes per quantum and pointers per array. */
  datatype Geometry = Geometry(quantum: nat, qset: nat)

  /** Both sizes are positive; the driver's own sizes are the witness. */
  type Geo = g: Geometry | g.quantum > 0 && g.qset > 0 witness Geometry(4000, 1000)

  const DRIVER: Geo := Geometry(4000, 1000)

  /** A slot of the device: list item and index into that item's pointer array. */
  datatype Place = Place(item: nat, slot: nat)

  function ItemSize(g: Geo): (n: nat)
    ensures n > 0
  {
    MulPositive(g.quantum, g.qset);
    g.quantum * g.qset
  }

  function Item(g: Geo, p: nat): nat { p / ItemSize(g) }

  function Rest(g: Geo, p: nat): nat { p % ItemSize(g) }

  function Slot(g: Geo, p: nat): nat { Rest(g, p) / g.quantum }

  function Offset(g: Geo, p: nat): nat { Rest(g, p) % g.quantum }

  function PlaceOf(g: Geo, p: nat): Place { Place(Item(g, p), Slot(g, p)) }

  /** The position a place and an offset stand for. */
  function Position(g: Geo, item: nat, slot: nat, offset: nat): nat {
    item * ItemSize(g) + slot * g.quantum + offset
  }

  // ---- the addressing bijection ----

  /** Every position has a place inside the geometry, and that place stands for the position. */
  lemma AddressRoundTrip(g: Geo, p: nat)
    ensures Slot(g, p) < g.qset && Offset(g, p) < g.quantum
    ensures Position(g, Item(g, p), Slot(g, p), Offset(g, p)) == p
  {
    var r := Rest(g, p);
    assert r == Slot(g, p) * g.quantum + Offset(g, p);
    if Slot(g, p) >= g.qset {
      MulMonotone(g.qset, Slot(g, p), g.quantum);
      assert false;
    }
  }

  /** The nested divisions of the driver's read and write, spelled out. */
  lemma NestedDivisions(g: Geo, p: nat)
    ensures g.quantum * g.qset == ItemSize(g)
    ensures Item(g, p) == p / ItemSize(g)
    ensures Slot(g, p) == p % ItemSize(g) / g.quantum
    ensures Offset(g, p) == p % ItemSize(g) % g.quantum
  {
  }

  /** No other place stands for that position. */
  lemma AddressUnique(g: Geo, item: nat, slot: nat, offset: nat)
    requires slot < g.qset && offset < g.quantum
    ensures var p := Position(g, item, slot, offset);
            Item(g, p) == item && Slot(g, p) == slot && Offset(g, p) == offset
  {
    var rest := slot * g.quantum + offset;
    assert rest < ItemSize(g) by {
      MulMonotone(slot + 1, g.qset, g.quantum);
      assert (slot + 1) * g.quantum == slot * g.quantum + g.quantum;
    }
    DivModUnique(Position(g, item, slot, offset), ItemSize(g), item, rest);
    DivModUnique(rest, g.quantum, slot, offset);
  }

  /** The nested division numbers the quanta consecutively: a place is the quotient and an offset
      the remainder of the position over the quantum size alone. */
  lemma QuantumNumber(g: Geo, p: nat)
    ensures Offset(g, p) == p % g.quantum
    ensures Item(g, p) * g.qset + Slot(g, p) == p / g.quantum
  {
    hide Item, Rest, Slot, Offset;
    AddressRoundTrip(g, p);
    Regroup(Item(g, p), Slot(g, p), g.quantum, g.qset);
    DivModUnique(p, g.quantum, Item(g, p) * g.qset + Slot(g, p), Offset(g, p));
  }

  lemma Regroup(i: nat, s: nat, q: nat, n: nat)
    ensures i * (q * n) + s * q == (i * n + s) * q
  {
    assert i * (q * n) == i * n * q;
  }

  /** Two positions share a place exactly when they share a quantum number. */
  lemma SamePlace(g: Geo, p: nat, p': nat)
    ensures PlaceOf(g, p) == PlaceOf(g, p') <==> p / g.quantum == p' / g.quantum
  {
    hide Item, Rest, Slot, Offset;
    QuantumNumber(g, p);
    QuantumNumber(g, p');
    AddressRoundTrip(g, p);
    AddressRoundTrip(g, p');
    var k := p / g.quantum;
    if k == p' / g.quantum {
      DivModUnique(k, g.qset, Item(g, p), Slot(g, p));
      DivModUnique(k, g.qset, Item(g, p'), Slot(g, p'));
    }
  }

  /** A transfer clipped to its quantum stays in one place, at consecutive offsets. */
  lemma ClippedTransfer(g: Geo, p: nat, i: nat)
    requires Offset(g, p) + i < g.quantum
    ensures PlaceOf(g, p + i) == PlaceOf(g, p) && Offset(g, p + i) == Offset(g, p) + i
  {
    AddressRoundTrip(g, p);
    AddressUnique(g, Item(g, p), Slot(g, p), Offset(g, p) + i);
  }

  /** Within one place, offsets tell positions apart. */
  lemma OffsetInPlace(g: Geo, p: nat, p': nat)
    requires PlaceOf(g, p) == PlaceOf(g, p')
    ensures p' == p - Offset(g, p) + Offset(g, p')
  {
    AddressRoundTrip(g, p);
    AddressRoundTrip(g, p');
  }

  /** A transfer clipped to its quantum ends inside the item that holds it. */
  lemma ClippedEnd(g: Geo, p: nat, n: nat)
    requires Offset(g, p) + n <= g.quantum
    ensures p + n <= (Item(g, p) + 1) * ItemSize(g)
  {
    AddressRoundTrip(g, p);
    MulMonotone(Slot(g, p) + 1, g.qset, g.quantum);
    assert (Slot(g, p) + 1) * g.quantum == Slot(g, p) * g.quantum + g.quantum;
    assert (Item(g, p) + 1) * ItemSize(g) == Item(g, p) * ItemSize(g) + ItemSize(g);
  }

  /** A position below the capacity of a list lies in one of its items, and only then. */
  lemma BelowCapacity(g: Geo, p: nat, length: nat)
    ensures p < length * ItemSize(g) <==> Item(g, p) < length
  {
    var c := ItemSize(g);
    assert p == Item(g, p) * c + Rest(g, p);
    if Item(g, p) < length {
      MulMonotone(Item(g, p) + 1, length, c);
      assert (Item(g, p) + 1) * c == Item(g, p) * c + c;
    } else {
      MulMonotone(length, Item(g, p), c);
    }
  }

  // ---- the driver's 32-bit variables ----

  const TWO31 := 0x8000_0000
  const TWO32 := 0x1_0000_0000

  /** Conversion of an integer to a 32-bit int, as the assignments to `item` and `rest` do it. */
  function ToInt(x: int): (r: int)
    ensures -TWO31 <= r < TWO31
    ensures (r - x) % TWO32 == 0
  {
    var m := x % TWO32;
    if m < TWO31 then m else m - TWO32
  }

  /** The conversion keeps a number exactly when the number fits. */
  lemma ToIntExact(x: nat)
    ensures ToInt(x) == x <==> x < TWO31
  {
  }

  /** The positions whose list item fits the driver's `int item`. */
  predicate InRange(g: Geo, p: nat) {
    ItemSize(g) < TWO31 && p < TWO31 * ItemSize(g)
  }

  /** The list item as the driver computes it: a 32-bit product, a long division, a 32-bit result. */
  function MachineItem(g: Geo, p: nat): int
    requires ItemSize(g) < TWO31
  {
    ToIntExact(ItemSize(g));
    ToInt(p / ToInt(ItemSize(g)))
  }

  function MachineRest(g: Geo, p: nat): int
    requires ItemSize(g) < TWO31
  {
    ToIntExact(ItemSize(g));
    ToInt(p % ToInt(ItemSize(g)))
  }

  /** The 32-bit item is the true one exactly for positions below 2^31 items; slot and offset are
      right at every position. */
  lemma MachineAddress(g: Geo, p: nat)
    requires ItemSize(g) < TWO31
    ensures MachineItem(g, p) == Item(g, p) <==> InRange(g, p)
    ensures MachineRest(g, p) == Rest(g, p)
    ensures ToInt(MachineRest(g, p) / g.quantum) == Slot(g, p)
    ensures ToInt(MachineRest(g, p) % g.quantum) == Offset(g, p)
  {
    ToIntExact(ItemSize(g));
    ToIntExact(Item(g, p));
    ToIntExact(Rest(g, p));
    SlotAtMostRest(Rest(g, p), g.quantum);
    ToIntExact(Slot(g, p));
    ToIntExact(Offset(g, p));
    BelowCapacity(g, p, TWO31);
  }

  /** With the driver's own sizes the 32-bit variables are right for the first 2^31 * 4000000
      positions and for no other. */
  lemma DriverAddress(p: nat)
    ensures ItemSize(DRIVER) == 4_000_000
    ensures MachineItem(DRIVER, p) == Item(DRIVER, p) <==> p < TWO31 * 4_000_000
    ensures 0 <= Rest(DRIVER, p) < 4_000_000 && Slot(DRIVER, p) < 1000 && Offset(DRIVER, p) < 4000
  {
    MachineAddress(DRIVER, p);
    AddressRoundTrip(DRIVER, p);
  }

  lemma SlotAtMostRest(a: nat, b: nat)
    requires b > 0
    ensures 0 <= a / b <= a && 0 <= a % b <= a
  {
    MulMonotone(1, b, a / b);
  }
}
