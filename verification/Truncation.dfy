/** The list item of a position is an `int` in the driver.  Positions of 2^31 items and more do not
    fit, and there reads and writes go elsewhere: this module says exactly where the driver's steps
    are the store's, and what happens beyond. */
module Truncation {
  import opened Addressing
  import opened Division
  import opened Octets
  import opened SparseStore

  /** A write as the driver computes its item; there is none for a negative item, whose counting down
      to zero is not defined in C. */
  ghost predicate DriverWrite(g: Geo, st: Store, pos: nat, buf: seq<byte>, reply: Reply, st': Store)
    requires ItemSize(g) < TWO31
  {
    MachineItem(g, pos) >= 0 && WriteStepVia(g, st, MachineItem(g, pos), pos, buf, reply, st')
  }

  ghost predicate DriverRead(g: Geo, st: Store, pos: nat, count: nat, reply: Reply, data: seq<byte>, st': Store)
    requires ItemSize(g) < TWO31
  {
    MachineItem(g, pos) >= 0 && ReadStepVia(g, st, MachineItem(g, pos), pos, count, reply, data, st')
  }

  ghost predicate WritesRight(g: Geo, pos: nat)
    requires ItemSize(g) < TWO31
  {
    forall st, buf, reply, st' ::
      DriverWrite(g, st, pos, buf, reply, st') <==> WriteStep(g, st, pos, buf, reply, st')
  }

  ghost predicate ReadsRight(g: Geo, pos: nat)
    requires ItemSize(g) < TWO31
  {
    forall st, count, reply, data, st' | Ok(g, st) ::
      DriverRead(g, st, pos, count, reply, data, st') <==> ReadStep(g, st, pos, count, reply, data, st')
  }

  /** The truncated item is never beyond the true one. */
  lemma TruncatedBelow(g: Geo, pos: nat)
    requires ItemSize(g) < TWO31
    ensures MachineItem(g, pos) <= Item(g, pos)
  {
    ToIntExact(ItemSize(g));
    var x := Item(g, pos);
    assert x % TWO32 <= x;
  }

  /** The driver's writes are those of the position's own place if and only if its item fits. */
  lemma WritesRightExactlyInRange(g: Geo, pos: nat)
    requires ItemSize(g) < TWO31
    ensures WritesRight(g, pos) <==> InRange(g, pos)
  {
    hide Item, MachineItem, ItemSize, Slot, Offset;
    MachineAddress(g, pos);
    if !InRange(g, pos) {
      var item := Item(g, pos);
      var st' := Reached(TRIMMED, item);
      assert WriteStep(g, TRIMMED, pos, [], NoMemory(ForQuantum), st');
      assert item in st'.arrays;
      assert !DriverWrite(g, TRIMMED, pos, [], NoMemory(ForQuantum), st');
    }
  }

  /** A store that holds a quantum for the truncated item and none for the true one. */
  function Confused(g: Geo, pos: nat, item: nat): Store {
    Store(Item(g, pos) + 1, {item}, map[Place(item, Slot(g, pos)) := seq(g.quantum, _ => 0)], pos + 1)
  }

  lemma ConfusedOk(g: Geo, pos: nat, item: nat)
    requires item <= Item(g, pos)
    ensures Ok(g, Confused(g, pos, item)) && Offset(g, pos) < g.quantum
  {
    AddressRoundTrip(g, pos);
    BelowCapacity(g, pos, Item(g, pos) + 1);
  }

  /** The driver's reads are those of the position's own place, in every well-formed store, if and
      only if its item fits. */
  lemma ReadsRightExactlyInRange(g: Geo, pos: nat)
    requires ItemSize(g) < TWO31
    ensures ReadsRight(g, pos) <==> InRange(g, pos)
  {
    hide Item, MachineItem, ItemSize, Slot, Offset;
    MachineAddress(g, pos);
    if InRange(g, pos) {
      forall st | Ok(g, st) ensures pos < st.size ==> Item(g, pos) < st.length {
        if pos < st.size {
          ReadFindsItsNode(g, st, pos);
        }
      }
    } else {
      ReadConfused(g, pos);
    }
  }

  lemma ReadConfused(g: Geo, pos: nat)
    requires ItemSize(g) < TWO31 && !InRange(g, pos)
    ensures !ReadsRight(g, pos)
  {
    hide Item, MachineItem, ItemSize, Slot, Offset;
    MachineAddress(g, pos);
    var item := MachineItem(g, pos);
    if item < 0 {
      assert Ok(g, TRIMMED);
      assert ReadStep(g, TRIMMED, pos, 0, Interrupted, [], TRIMMED);
      assert !DriverRead(g, TRIMMED, pos, 0, Interrupted, [], TRIMMED);
    } else {
      TruncatedBelow(g, pos);
      ConfusedOk(g, pos, item);
      var st, at := Confused(g, pos, item), Offset(g, pos);
      var data := st.quanta[Place(item, Slot(g, pos))][at..at + 1];
      assert ReadLengthVia(g, st, item, pos, 1) == 1;
      assert DriverRead(g, st, pos, 1, Done(1), data, st);
      assert Place(Item(g, pos), Slot(g, pos)) !in st.quanta;
      assert !ReadStep(g, st, pos, 1, Done(1), data, st);
    }
  }

  /** The first position beyond 2^32 items of the driver's own sizes. */
  const WRAPPED: nat := TWO32 * 4_000_000

  lemma WrappedAddress()
    ensures ItemSize(DRIVER) == 4_000_000 && MachineItem(DRIVER, WRAPPED) == 0
    ensures Slot(DRIVER, WRAPPED) == Offset(DRIVER, WRAPPED) == 0 && !InRange(DRIVER, WRAPPED)
    ensures MachineItem(DRIVER, 4_000_000) == 1 && Slot(DRIVER, 4_000_000) == 0
  {
    ItemMultiple(TWO32);
    ItemMultiple(1);
    assert ToInt(TWO32) == 0;
  }

  /** Positions at the start of an item, with the driver's own sizes. */
  lemma ItemMultiple(i: nat)
    ensures ItemSize(DRIVER) == 4_000_000 && MachineItem(DRIVER, i * 4_000_000) == ToInt(i)
    ensures Slot(DRIVER, i * 4_000_000) == Offset(DRIVER, i * 4_000_000) == 0
  {
    DivModUnique(i * 4_000_000, 4_000_000, i, 0);
    assert ItemSize(DRIVER) == 4_000_000;
    ToIntExact(4_000_000);
    assert Rest(DRIVER, i * 4_000_000) == 0;
  }

  /** A failing input: on an empty device, one byte written at position 2^32 * 4000000 lands at
      position 0, the size ends up beyond what the one-node list can hold, and the next read at
      position 4000000, which the size check lets through, makes the list grow. */
  lemma WrapsToTheStart(b: byte, st: Store)
    requires DriverWrite(DRIVER, TRIMMED, WRAPPED, [b], Done(1), st)
    ensures Place(0, 0) in st.quanta && |st.quanta[Place(0, 0)]| > 0 && st.quanta[Place(0, 0)][0] == b
    ensures st.length == 1 && st.size == WRAPPED + 1 && !Ok(DRIVER, st)
    ensures DriverRead(DRIVER, st, 4_000_000, 1, Done(0), [], st.(length := 2))
  {
    WrappedAddress();
    hide Item, MachineItem, Slot, Offset;
    assert st.quanta[Place(0, 0)][0..1] == [b][..1];
    assert st.quanta.Keys == {Place(0, 0)};
  }
}
