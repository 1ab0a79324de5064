/** The reference device: a size and a sparse map from position to byte, with no lists, arrays or
    slots.  Allocation shows in one way only, through the quantum number `position / quantum`.
    Every step of the store is a step of this device. */
module FlatDevice {
  import opened Addressing
  import opened Octets
  import opened SparseStore

  datatype Device = Device(bytes: imap<nat, byte>, size: nat)

  ghost const EMPTY := Device(imap[], 0)

  /** The position-to-byte map a store stands for. */
  ghost function Bytes(g: Geo, st: Store): imap<nat, byte>
    requires Ok(g, st)
  {
    imap p: nat | PlaceOf(g, p) in st.quanta :: st.quanta[PlaceOf(g, p)][Offset(g, p)]
  }

  ghost function View(g: Geo, st: Store): Device
    requires Ok(g, st)
  {
    Device(Bytes(g, st), st.size)
  }

  /** Length of a transfer clipped to the end of the quantum that holds `pos`. */
  function Clip(q: nat, pos: nat, count: nat): (n: nat)
    requires q > 0
    ensures count > 0 ==> n > 0
  {
    Min(count, q - pos % q)
  }

  /** How much the reference device delivers at `pos`. */
  ghost function Available(q: nat, d: Device, pos: nat, count: nat): nat
    requires q > 0
  {
    if pos >= d.size || pos !in d.bytes then 0 else Clip(q, pos, Min(count, d.size - pos))
  }

  /** From `d` to `d'` exactly the quantum of `pos` is allocated, and outside [pos, pos + n) every
      byte that was there stays what it was. */
  ghost predicate Touches(q: nat, d: Device, pos: nat, n: nat, d': Device)
    requires q > 0
  {
    && (forall p: nat :: p in d'.bytes <==> p in d.bytes || p / q == pos / q)
    && (forall p: nat | p in d.bytes && !(pos <= p < pos + n) :: d'.bytes[p] == d.bytes[p])
  }

  ghost predicate FlatRead(q: nat, d: Device, pos: nat, count: nat, reply: Reply, data: seq<byte>)
    requires q > 0
  {
    match reply
    case Done(n) =>
      && n == |data| == Available(q, d, pos, count)
      && forall p: nat | pos <= p < pos + n :: p in d.bytes && data[p - pos] == d.bytes[p]
    case NoMemory(_) => false
    case Fault => Available(q, d, pos, count) > 0 && data == []
    case Interrupted => data == []
  }

  ghost predicate FlatWrite(q: nat, d: Device, pos: nat, buf: seq<byte>, reply: Reply, d': Device)
    requires q > 0
  {
    var n := Clip(q, pos, |buf|);
    match reply
    case Interrupted => d' == d
    case NoMemory(_) => d' == d && pos !in d.bytes
    case Fault => n > 0 && d'.size == d.size && Touches(q, d, pos, n, d')
    case Done(m) =>
      && m == n
      && d'.size == Max(d.size, pos + n)
      && Touches(q, d, pos, n, d')
      && forall p: nat | pos <= p < pos + n :: p in d'.bytes && d'.bytes[p] == buf[p - pos]
  }

  ghost predicate FlatStep(q: nat, d: Device, ev: Event, d': Device)
    requires q > 0
  {
    match ev
    case Open(writeOnly) => d' == if writeOnly then EMPTY else d
    case Read(pos, count, reply, data) => d' == d && FlatRead(q, d, pos, count, reply, data)
    case Write(pos, buf, reply) => FlatWrite(q, d, pos, buf, reply, d')
  }

  /** The i-th event leads from the i-th state to the next. */
  ghost predicate FlatStepAt(q: nat, ds: seq<Device>, events: seq<Event>, i: nat)
    requires q > 0 && i < |events| && i + 1 < |ds|
  {
    FlatStep(q, ds[i], events[i], ds[i + 1])
  }

  ghost predicate FlatRun(q: nat, ds: seq<Device>, events: seq<Event>)
    requires q > 0
  {
    && |ds| == |events| + 1
    && forall i | 0 <= i < |events| :: FlatStepAt(q, ds, events, i)
  }

  // ---- the store refines the reference device ----

  /** Both descriptions clip a transfer at the same byte. */
  lemma LengthsAgree(g: Geo, st: Store, pos: nat, count: nat)
    requires Ok(g, st)
    ensures Clip(g.quantum, pos, count) == WriteLength(g, pos, count)
    ensures Available(g.quantum, View(g, st), pos, count) == ReadLength(g, st, pos, count)
  {
    QuantumNumber(g, pos);
  }

  /** A stretch of one quantum holds the bytes of consecutive positions. */
  lemma BlockBytes(g: Geo, st: Store, pos: nat, n: nat)
    requires Ok(g, st) && PlaceOf(g, pos) in st.quanta && Offset(g, pos) + n <= g.quantum
    ensures var stretch := st.quanta[PlaceOf(g, pos)][Offset(g, pos)..Offset(g, pos) + n];
            forall p: nat | pos <= p < pos + n :: p in Bytes(g, st) && Bytes(g, st)[p] == stretch[p - pos]
  {
    forall p: nat | pos <= p < pos + n
      ensures PlaceOf(g, p) == PlaceOf(g, pos) && Offset(g, p) == Offset(g, pos) + (p - pos)
    {
      ClippedTransfer(g, pos, p - pos);
    }
  }

  lemma ReadRefines(g: Geo, st: Store, pos: nat, count: nat, reply: Reply, data: seq<byte>)
    requires Ok(g, st) && ReadStep(g, st, pos, count, reply, data, st)
    ensures FlatRead(g.quantum, View(g, st), pos, count, reply, data)
  {
    hide Item, Rest, Slot, Offset, Clip;
    LengthsAgree(g, st, pos, count);
    if reply.Done? && reply.n > 0 {
      BlockBytes(g, st, pos, reply.n);
    }
  }

  /** Overwriting part of one quantum touches that quantum's positions and no others. */
  lemma OverwriteTouches(g: Geo, st: Store, st': Store, pos: nat, n: nat)
    requires Ok(g, st) && Ok(g, st')
    requires Offset(g, pos) + n <= g.quantum
    requires Overwritten(g, st.quanta, st'.quanta, PlaceOf(g, pos), Offset(g, pos), Offset(g, pos) + n)
    ensures Touches(g.quantum, View(g, st), pos, n, View(g, st'))
  {
    var d, d' := View(g, st), View(g, st');
    forall p: nat ensures p in d'.bytes <==> p in d.bytes || p / g.quantum == pos / g.quantum {
      SamePlace(g, p, pos);
    }
    forall p: nat | p in d.bytes && !(pos <= p < pos + n) ensures d'.bytes[p] == d.bytes[p] {
      if PlaceOf(g, p) == PlaceOf(g, pos) {
        OffsetInPlace(g, pos, p);
      }
    }
  }

  lemma WriteRefines(g: Geo, st: Store, pos: nat, buf: seq<byte>, reply: Reply, st': Store)
    requires Ok(g, st) && Ok(g, st') && WriteStep(g, st, pos, buf, reply, st')
    ensures FlatWrite(g.quantum, View(g, st), pos, buf, reply, View(g, st'))
  {
    hide Item, Rest, Slot, Offset, Clip;
    match reply
    case Interrupted =>
    case NoMemory(_) => NoMemoryKeepsView(g, st, pos, buf, reply, st');
    case Fault =>
      LengthsAgree(g, st, pos, |buf|);
      OverwriteTouches(g, st, st', pos, WriteLength(g, pos, |buf|));
    case Done(_) => CopiedBytes(g, st, pos, buf, reply, st');
  }

  lemma CopiedBytes(g: Geo, st: Store, pos: nat, buf: seq<byte>, reply: Reply, st': Store)
    requires Ok(g, st) && Ok(g, st') && reply.Done? && WriteStep(g, st, pos, buf, reply, st')
    ensures FlatWrite(g.quantum, View(g, st), pos, buf, reply, View(g, st'))
  {
    hide Item, Rest, Slot, Offset, Clip, Touches, Bytes;
    var n := WriteLength(g, pos, |buf|);
    LengthsAgree(g, st, pos, |buf|);
    OverwriteTouches(g, st, st', pos, n);
    StretchCopied(g, st', pos, buf[..n]);
  }

  lemma StretchCopied(g: Geo, st: Store, pos: nat, bytes: seq<byte>)
    requires Ok(g, st) && PlaceOf(g, pos) in st.quanta && Offset(g, pos) + |bytes| <= g.quantum
    requires st.quanta[PlaceOf(g, pos)][Offset(g, pos)..Offset(g, pos) + |bytes|] == bytes
    ensures forall p: nat | pos <= p < pos + |bytes| :: p in Bytes(g, st) && Bytes(g, st)[p] == bytes[p - pos]
  {
    BlockBytes(g, st, pos, |bytes|);
  }

  /** A write that runs out of memory, at whichever allocation, leaves every mapped byte and the
      size as they were; it can only happen at a position whose quantum is not there. */
  lemma NoMemoryKeepsView(g: Geo, st: Store, pos: nat, buf: seq<byte>, reply: Reply, st': Store)
    requires Ok(g, st) && Ok(g, st') && reply.NoMemory? && WriteStep(g, st, pos, buf, reply, st')
    ensures View(g, st') == View(g, st) && pos !in Bytes(g, st)
  {
  }

  lemma TrimmedIsEmpty(g: Geo)
    ensures Ok(g, TRIMMED) && View(g, TRIMMED) == EMPTY
  {
  }

  /** Each step of the store is a step of the reference device. */
  lemma StepRefines(g: Geo, st: Store, ev: Event, st': Store)
    requires Ok(g, st) && Step(g, st, ev, st')
    ensures Ok(g, st') && FlatStep(g.quantum, View(g, st), ev, View(g, st'))
  {
    StepKeepsOk(g, st, ev, st');
    match ev
    case Open(_) => TrimmedIsEmpty(g);
    case Read(pos, count, reply, data) => ReadRefines(g, st, pos, count, reply, data);
    case Write(pos, buf, reply) => WriteRefines(g, st, pos, buf, reply, st');
  }

  /** Quanta are mapped as a whole: of two positions with the same quantum number both are or neither. */
  ghost predicate WholeQuanta(q: nat, d: Device)
    requires q > 0
  {
    forall x: nat, y: nat | x in d.bytes && x / q == y / q :: y in d.bytes
  }

  lemma ViewWhole(g: Geo, st: Store)
    requires Ok(g, st)
    ensures WholeQuanta(g.quantum, View(g, st))
  {
    forall x: nat, y: nat | x in Bytes(g, st) && x / g.quantum == y / g.quantum ensures y in Bytes(g, st) {
      SamePlace(g, x, y);
    }
  }

  lemma StepKeepsWhole(q: nat, d: Device, ev: Event, d': Device)
    requires q > 0 && WholeQuanta(q, d) && FlatStep(q, d, ev, d')
    ensures WholeQuanta(q, d')
  {
  }

  lemma {:induction false} RunKeepsWhole(q: nat, ds: seq<Device>, events: seq<Event>, k: nat)
    requires q > 0 && FlatRun(q, ds, events) && WholeQuanta(q, ds[0]) && k < |ds|
    ensures WholeQuanta(q, ds[k])
  {
    if k > 0 {
      RunKeepsWhole(q, ds, events, k - 1);
      assert FlatStepAt(q, ds, events, k - 1);
      StepKeepsWhole(q, ds[k - 1], events[k - 1], ds[k]);
    }
  }

  /** The reference states of a run. */
  ghost function Views(g: Geo, states: seq<Store>): (ds: seq<Device>)
    requires forall i | 0 <= i < |states| :: Ok(g, states[i])
    ensures |ds| == |states| && forall i | 0 <= i < |ds| :: ds[i] == View(g, states[i])
  {
    seq(|states|, i requires 0 <= i < |states| => View(g, states[i]))
  }

  /** Whole runs refine: any sequence of operations on the store, with whatever allocation failures
      and copy faults, is a run of the reference device with the same replies and the same data. */
  lemma RunRefines(g: Geo, states: seq<Store>, events: seq<Event>)
    requires Run(g, states, events) && Ok(g, states[0])
    ensures forall i | 0 <= i < |states| :: Ok(g, states[i])
    ensures FlatRun(g.quantum, Views(g, states), events)
  {
    forall i | 0 <= i < |states| ensures Ok(g, states[i]) {
      RunKeepsOk(g, states, events, i);
    }
    var ds := Views(g, states);
    forall i | 0 <= i < |events| ensures FlatStepAt(g.quantum, ds, events, i) {
      assert StepAt(g, states, events, i);
      StepRefines(g, states[i], events[i], states[i + 1]);
    }
  }
}
