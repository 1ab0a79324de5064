/** The device's contents as values, one level above the heap: how long the node list is, which
    nodes own a pointer array, which slots own a quantum and what it holds, and the size.  Each
    file operation is a relation between two such stores; allocation outcomes, copy faults and the
    bytes of a fresh quantum are what the relation leaves open. */
module SparseStore {
  import opened Addressing
  import opened Octets
  import opened Division

  datatype Store = Store(length: nat, arrays: set<nat>, quanta: map<Place, seq<byte>>, size: nat)

  /** What trimming leaves behind, and the state the driver is meant to start in. */
  const TRIMMED := Store(0, {}, map[], 0)

  /** Quanta hang from arrays, arrays from nodes, and the size never exceeds what the list can hold. */
  ghost predicate Ok(g: Geo, st: Store) {
    && (forall i | i in st.arrays :: i < st.length)
    && (forall pl | pl in st.quanta :: pl.item in st.arrays && pl.slot < g.qset && |st.quanta[pl]| == g.quantum)
    && st.size <= st.length * ItemSize(g)
  }

  /** The three kinds of block a write may fail to get. */
  datatype AllocPoint = ForNode | ForArray | ForQuantum

  const ENOMEM := 12
  const EFAULT := 14
  const ERESTARTSYS := 512

  datatype Reply =
    | Done(n: nat)
    | NoMemory(point: AllocPoint)
    | Fault
    | Interrupted
  {
    /** The value the C function returns. */
    function ReturnValue(): int {
      match this
      case Done(n) => n
      case NoMemory(_) => -ENOMEM
      case Fault => -EFAULT
      case Interrupted => -ERESTARTSYS
    }
  }

  /** One completed file operation: its arguments, its reply and, for a read, the bytes delivered. */
  datatype Event =
    | Open(writeOnly: bool)
    | Read(pos: nat, count: nat, reply: Reply, data: seq<byte>)
    | Write(pos: nat, buf: seq<byte>, reply: Reply)

  /** What can go wrong with a call, as its reply tells. */
  datatype Trouble = Shortage | BadCopy | Signal

  predicate Met(ev: Event, trouble: Trouble) {
    !ev.Open? &&
    match trouble
    case Shortage => ev.reply.NoMemory?
    case BadCopy => ev.reply.Fault?
    case Signal => ev.reply.Interrupted?
  }

  /** How many events of a history met that trouble. */
  function Tally(events: seq<Event>, trouble: Trouble): nat {
    if events == [] then 0
    else Tally(events[..|events| - 1], trouble) + if Met(events[|events| - 1], trouble) then 1 else 0
  }

  lemma TallyStep(events: seq<Event>, ev: Event)
    ensures forall trouble ::
              Tally(events + [ev], trouble) == Tally(events, trouble) + if Met(ev, trouble) then 1 else 0
  {
    assert (events + [ev])[..|events|] == events;
  }

  /** A history without trouble: every read and write was done. */
  lemma {:induction false} UntroubledIsDone(events: seq<Event>)
    requires Tally(events, Shortage) == Tally(events, BadCopy) == Tally(events, Signal) == 0
    ensures forall i | 0 <= i < |events| && !events[i].Open? :: events[i].reply.Done?
    decreases |events|
  {
    if events != [] {
      UntroubledIsDone(events[..|events| - 1]);
    }
  }

  function Min(a: int, b: int): int { if a < b then a else b }

  function Max(a: int, b: int): int { if a < b then b else a }

  /** How much of a write fits up to the end of its quantum. */
  function WriteLength(g: Geo, pos: nat, count: nat): nat {
    Min(count, g.quantum - Offset(g, pos))
  }

  /** How much a read of a place delivers: nothing at or past the size or in a hole, otherwise up to
      the size and to the end of the quantum. */
  function ReadLengthVia(g: Geo, st: Store, item: nat, pos: nat, count: nat): nat {
    if pos >= st.size || Place(item, Slot(g, pos)) !in st.quanta then 0
    else Min(Min(count, st.size - pos), g.quantum - Offset(g, pos))
  }

  /** How much a read of the position's own place delivers. */
  function ReadLength(g: Geo, st: Store, pos: nat, count: nat): nat {
    ReadLengthVia(g, st, Item(g, pos), pos, count)
  }

  /** The store once the list reaches `item` and that item has its pointer array. */
  function Reached(st: Store, item: nat): Store {
    st.(length := Max(st.length, item + 1), arrays := st.arrays + {item})
  }

  /** The quantum at `pl` is there, and if it was there before, only [lo, hi) of it may differ. */
  ghost predicate Overwritten(g: Geo, before: map<Place, seq<byte>>, after: map<Place, seq<byte>>,
                              pl: Place, lo: nat, hi: nat)
  {
    && pl in after
    && |after[pl]| == g.quantum
    && after == before[pl := after[pl]]
    && (pl in before ==>
          forall i | 0 <= i < g.quantum && i < |before[pl]| && !(lo <= i < hi) :: after[pl][i] == before[pl][i])
  }

  /** First getting a quantum and then copying into it overwrites no more than the copy's range. */
  lemma OverwrittenThrough(g: Geo, before: map<Place, seq<byte>>, between: map<Place, seq<byte>>,
                           pl: Place, lo: nat, hi: nat, bytes: seq<byte>)
    requires Overwritten(g, before, between, pl, 0, 0) && lo <= hi <= g.quantum && |bytes| == g.quantum
    requires bytes[..lo] == between[pl][..lo] && bytes[hi..] == between[pl][hi..]
    ensures Overwritten(g, before, between[pl := bytes], pl, lo, hi)
  {
    forall i | 0 <= i < g.quantum && !(lo <= i < hi) ensures bytes[i] == between[pl][i] {
      if i < lo {
        assert bytes[..lo][i] == between[pl][..lo][i];
      } else {
        assert bytes[hi..][i - hi] == between[pl][hi..][i - hi];
      }
    }
  }

  /** The bytes a read hands over, given how many it may. */
  ghost predicate Hands(g: Geo, st: Store, item: nat, pos: nat, length: nat, reply: Reply, data: seq<byte>) {
    match reply
    case Done(n) =>
      && n == length
      && (n == 0 ==> data == [])
      && (n > 0 ==>
            var pl, at := Place(item, Slot(g, pos)), Offset(g, pos);
            pl in st.quanta && at + n <= |st.quanta[pl]| && data == st.quanta[pl][at..at + n])
    case NoMemory(_) => false
    case Fault => length > 0 && data == []
    case Interrupted => data == []
  }

  /** A read that looks for its position in list item `item`, whatever that item is: the list may grow
      towards it, nothing else changes. */
  ghost predicate ReadStepVia(g: Geo, st: Store, item: nat, pos: nat, count: nat,
                              reply: Reply, data: seq<byte>, st': Store)
  {
    && st.length <= st'.length <= Max(st.length, item + 1)
    && st' == st.(length := st'.length)
    && (pos >= st.size ==> st' == st)
    && Hands(g, st, item, pos, ReadLengthVia(g, st, item, pos, count), reply, data)
  }

  /** A read of the position's own place, in a store that stays as it is. */
  ghost predicate ReadStep(g: Geo, st: Store, pos: nat, count: nat, reply: Reply, data: seq<byte>, st': Store) {
    st' == st && Hands(g, st, Item(g, pos), pos, ReadLength(g, st, pos, count), reply, data)
  }

  /** Looked for in its own item, in a store that is not changed, the position is read as it should. */
  lemma ReadInPlace(g: Geo, st: Store, pos: nat, count: nat, reply: Reply, data: seq<byte>)
    requires ReadStepVia(g, st, Item(g, pos), pos, count, reply, data, st)
    ensures ReadStep(g, st, pos, count, reply, data, st)
  {
  }

  lemma InterruptedRead(g: Geo, st: Store, pos: nat, count: nat)
    ensures forall item: nat :: ReadStepVia(g, st, item, pos, count, Interrupted, [], st)
  {
  }

  /** Reading never fails for want of memory. */
  lemma ReadNeedsNoMemory(g: Geo, st: Store, pos: nat, count: nat, reply: Reply, data: seq<byte>, st': Store)
    requires ReadStep(g, st, pos, count, reply, data, st')
    ensures !reply.NoMemory?
  {
  }

  /** A write that puts its position into list item `item`, whatever that item is. */
  ghost predicate WriteStepVia(g: Geo, st: Store, item: nat, pos: nat, buf: seq<byte>, reply: Reply, st': Store) {
    var pl, at := Place(item, Slot(g, pos)), Offset(g, pos);
    var n := WriteLength(g, pos, |buf|);
    match reply
    case Interrupted => st' == st
    case NoMemory(ForNode) => st.length <= st'.length <= item && st' == st.(length := st'.length)
    case NoMemory(ForArray) => item !in st.arrays && st' == st.(length := Max(st.length, item + 1))
    case NoMemory(ForQuantum) => pl !in st.quanta && st' == Reached(st, item)
    case Fault =>
      && n > 0
      && st' == Reached(st, item).(quanta := st'.quanta)
      && Overwritten(g, st.quanta, st'.quanta, pl, at, at + n)
    case Done(m) =>
      && m == n
      && st' == Reached(st, item).(quanta := st'.quanta, size := Max(st.size, pos + n))
      && Overwritten(g, st.quanta, st'.quanta, pl, at, at + n)
      && st'.quanta[pl][at..at + n] == buf[..n]
  }

  lemma InterruptedWrite(g: Geo, st: Store, pos: nat, buf: seq<byte>)
    ensures forall item: nat :: WriteStepVia(g, st, item, pos, buf, Interrupted, st)
  {
  }

  /** A write into the position's own place. */
  ghost predicate WriteStep(g: Geo, st: Store, pos: nat, buf: seq<byte>, reply: Reply, st': Store) {
    WriteStepVia(g, st, Item(g, pos), pos, buf, reply, st')
  }

  ghost predicate Step(g: Geo, st: Store, ev: Event, st': Store) {
    match ev
    case Open(writeOnly) => st' == if writeOnly then TRIMMED else st
    case Read(pos, count, reply, data) => ReadStep(g, st, pos, count, reply, data, st')
    case Write(pos, buf, reply) => WriteStep(g, st, pos, buf, reply, st')
  }

  /** The i-th event leads from the i-th state to the next. */
  ghost predicate StepAt(g: Geo, states: seq<Store>, events: seq<Event>, i: nat)
    requires i < |events| && i + 1 < |states|
  {
    Step(g, states[i], events[i], states[i + 1])
  }

  /** A run: one state more than events, each pair of neighbours joined by a step. */
  ghost predicate Run(g: Geo, states: seq<Store>, events: seq<Event>) {
    && |states| == |events| + 1
    && forall i | 0 <= i < |events| :: StepAt(g, states, events, i)
  }

  lemma RunExtend(g: Geo, states: seq<Store>, events: seq<Event>, ev: Event, st: Store)
    requires Run(g, states, events) && Step(g, states[|events|], ev, st)
    ensures Run(g, states + [st], events + [ev])
  {
    var ss, es := states + [st], events + [ev];
    forall i | 0 <= i < |es| ensures StepAt(g, ss, es, i) {
      if i < |events| {
        assert StepAt(g, states, events, i);
        assert ss[i] == states[i] && ss[i + 1] == states[i + 1] && es[i] == events[i];
      }
    }
  }

  // ---- what every step keeps ----

  /** A write that got as far as reaching its item leaves room for the bytes it may count. */
  lemma ReachedCapacity(g: Geo, st: Store, pos: nat, n: nat)
    requires Ok(g, st) && Offset(g, pos) + n <= g.quantum
    ensures var cap := Max(st.length, Item(g, pos) + 1) * ItemSize(g);
            st.size <= cap && pos + n <= cap
  {
    var len := Max(st.length, Item(g, pos) + 1);
    ClippedEnd(g, pos, n);
    MulMonotone(st.length, len, ItemSize(g));
    MulMonotone(Item(g, pos) + 1, len, ItemSize(g));
  }

  lemma StepKeepsOk(g: Geo, st: Store, ev: Event, st': Store)
    requires Ok(g, st) && Step(g, st, ev, st')
    ensures Ok(g, st')
  {
    if ev.Write? && !ev.reply.Interrupted? {
      AddressRoundTrip(g, ev.pos);
      ReachedCapacity(g, st, ev.pos, WriteLength(g, ev.pos, |ev.buf|));
      MulMonotone(st.length, st'.length, ItemSize(g));
    }
  }

  /** Every state of a run that starts well-formed is well-formed: in particular the size stays
      within the list's capacity whatever allocation failures and faults occur. */
  lemma {:induction false} RunKeepsOk(g: Geo, states: seq<Store>, events: seq<Event>, i: nat)
    requires Run(g, states, events) && Ok(g, states[0]) && i < |states|
    ensures Ok(g, states[i])
  {
    if i > 0 {
      RunKeepsOk(g, states, events, i - 1);
      assert StepAt(g, states, events, i - 1);
      StepKeepsOk(g, states[i - 1], events[i - 1], states[i]);
    }
  }

  /** A read that passes the size check finds its list item in place, so following the list to it
      allocates nothing. */
  lemma ReadFindsItsNode(g: Geo, st: Store, pos: nat)
    requires Ok(g, st) && pos < st.size
    ensures Item(g, pos) < st.length
  {
    BelowCapacity(g, pos, st.length);
  }
}
