/** The callers that retry, as loops over the driver: one stores all its bytes, one fetches them
    back.  Both give up at the first call that fails. */
module Client {
  import opened Addressing
  import opened Octets
  import opened SparseStore
  import opened FlatDevice
  import opened Memory
  import opened Mev
  import opened Transfers

  /** All positions of [p, p + n) are in range. */
  predicate StretchInRange(g: Geo, p: nat, n: nat) {
    n > 0 ==> InRange(g, p + n - 1)
  }

  lemma PartInRange(g: Geo, p: nat, n: nat, x: nat)
    requires StretchInRange(g, p, n) && p <= x < p + n
    ensures InRange(g, x)
  {
  }

  /** The device holds `data` from position `p` on. */
  ghost predicate Holds(d: Device, p: nat, data: seq<byte>) {
    forall x: nat | p <= x < p + |data| :: x in d.bytes && d.bytes[x] == data[x - p]
  }

  /** From `d` to `d'` no byte outside [p, p + n) is lost or changed. */
  ghost predicate KeepsOthers(d: Device, p: nat, n: nat, d': Device) {
    forall x: nat | x in d.bytes && !(p <= x < p + n) :: x in d'.bytes && d'.bytes[x] == d.bytes[x]
  }

  /** One more successful write of what is left. */
  lemma StoredMore(q: nat, d: Device, d': Device, d'': Device, p: nat, data: seq<byte>, stored: nat, n: nat)
    requires q > 0 && stored < |data|
    requires Holds(d', p, data[..stored]) && KeepsOthers(d, p, |data|, d')
    requires FlatWrite(q, d', p + stored, data[stored..], Done(n), d'')
    ensures 0 < n <= |data| - stored && d''.size == Max(d'.size, p + stored + n)
    ensures Holds(d'', p, data[..stored + n]) && KeepsOthers(d, p, |data|, d'')
    ensures Quanta(q, p + stored, |data| - stored) == 1 + Quanta(q, p + stored + n, |data| - stored - n)
  {
    OneWrite(q, d', p + stored, data[stored..], n, d'');
    forall x: nat | p <= x < p + stored + n ensures x in d''.bytes && d''.bytes[x] == data[x - p] {
      if x < p + stored {
        assert data[..stored][x - p] == data[x - p];
      } else {
        assert data[stored..][x - (p + stored)] == data[x - p];
      }
    }
  }

  /** A write that failed takes nothing away that was stored before it. */
  lemma StoredNoMore(q: nat, d: Device, d': Device, d'': Device, p: nat, data: seq<byte>, stored: nat, reply: Reply)
    requires q > 0 && stored < |data| && !reply.Done?
    requires Holds(d', p, data[..stored]) && KeepsOthers(d, p, |data|, d')
    requires FlatWrite(q, d', p + stored, data[stored..], reply, d'')
    ensures d''.size == d'.size && Holds(d'', p, data[..stored]) && KeepsOthers(d, p, |data|, d'')
  {
  }

  lemma NothingStored(d: Device, p: nat, data: seq<byte>)
    ensures Holds(d, p, data[..0]) && KeepsOthers(d, p, |data|, d)
  {
  }

  /** Stores `data` from `p` on, one call a quantum.  Whatever fails, what was stored is there, and
      every other byte of the device is what it was. */
  method StoreAll(c: Container, p: nat, data: seq<byte>) returns (stored: nat, calls: nat)
    requires c.Valid() && StretchInRange(c.g, p, |data|)
    modifies c, c.kernel
    ensures c.Valid() && stored <= |data|
    ensures Ok(c.g, old(c.Contents())) && Ok(c.g, c.Contents())
    ensures var d, d' := View(c.g, old(c.Contents())), View(c.g, c.Contents());
            && Holds(d', p, data[..stored]) && KeepsOthers(d, p, |data|, d')
            && d'.size == if stored == 0 then d.size else Max(d.size, p + stored)
    ensures var q, failed := c.g.quantum, if stored < |data| then 1 else 0;
            && calls + Quanta(q, p + stored, |data| - stored) == Quanta(q, p, |data|) + failed
            && c.kernel.Mishaps() == old(c.kernel.Mishaps()) + failed
  {
    hide Shaped, StoreOf, Step, FlatWrite, Bytes, Holds, KeepsOthers, Quanta, Ok, InRange;
    StoreOfOk(c.g, c.kernel.mem, c.data, c.shape, c.size);
    ghost var d := View(c.g, c.Contents());
    stored, calls := 0, 0;
    NothingStored(d, p, data);
    while stored < |data|
      invariant c.Valid() && stored <= |data| && Ok(c.g, c.Contents())
      invariant var d' := View(c.g, c.Contents());
                && Holds(d', p, data[..stored]) && KeepsOthers(d, p, |data|, d')
                && d'.size == if stored == 0 then d.size else Max(d.size, p + stored)
      invariant calls + Quanta(c.g.quantum, p + stored, |data| - stored) == Quanta(c.g.quantum, p, |data|)
      invariant c.kernel.Mishaps() == old(c.kernel.Mishaps())
    {
      PartInRange(c.g, p, |data|, p + stored);
      ghost var st := c.Contents();
      var ev := Dispatch(c, WriteCall(p + stored, data[stored..]));
      StepRefines(c.g, st, ev, c.Contents());
      calls := calls + 1;
      if !ev.reply.Done? {
        StoredNoMore(c.g.quantum, d, View(c.g, st), View(c.g, c.Contents()), p, data, stored, ev.reply);
        return;
      }
      StoredMore(c.g.quantum, d, View(c.g, st), View(c.g, c.Contents()), p, data, stored, ev.reply.n);
      stored := stored + ev.reply.n;
    }
  }

  /** Every position of [p, p + n) can be read. */
  ghost predicate AllReadable(d: Device, p: nat, n: nat) {
    forall x: nat | p <= x < p + n :: Readable(d, x)
  }

  /** How many of the `n` bytes from `p` on there are to get. */
  ghost function Wanted(d: Device, p: nat, n: nat): (w: nat)
    ensures w <= n
  {
    Min(n, ReadableEnd(d, p) - p)
  }

  lemma AllWanted(d: Device, p: nat, n: nat)
    ensures Wanted(d, p, n) == n <==> AllReadable(d, p, n)
  {
    if AllReadable(d, p, n) {
      SameEnd(d, p, n);
    }
  }

  /** One more successful read of what is missing. */
  lemma FetchedMore(q: nat, d: Device, p: nat, n: nat, out: seq<byte>, m: nat, data: seq<byte>)
    requires q > 0 && WholeQuanta(q, d) && |out| < n && |out| <= Wanted(d, p, n) && Holds(d, p, out)
    requires FlatRead(q, d, p + |out|, n - |out|, Done(m), data)
    ensures m == |data| && |out| + m <= Wanted(d, p, n) && Holds(d, p, out + data)
    ensures m == 0 <==> |out| == Wanted(d, p, n)
    ensures var at, missing := p + |out|, Wanted(d, p, n) - |out|;
            m > 0 ==> Quanta(q, at, missing) == 1 + Quanta(q, at + m, missing - m)
  {
    hide Quanta, WholeQuanta;
    var at, missing := p + |out|, Wanted(d, p, n) - |out|;
    SameEnd(d, p, |out|);
    ReadDelivers(q, d, at, n - |out|, m, data);
    if m > 0 {
      assert m == Clip(q, at, missing);
      OneQuantumLess(q, at, missing);
    }
    forall x: nat | p <= x < at + m ensures x in d.bytes && d.bytes[x] == (out + data)[x - p] {
      if x >= at {
        assert (out + data)[x - p] == data[x - at];
      }
    }
  }

  /** Fetches `n` bytes from `p` on, or as many as there are, and leaves the device as it is.  If no call
      fails it gets them all up to the end of what is readable, in one call a quantum and, when there
      are fewer than it wants, one more that tells it so. */
  method FetchAll(c: Container, p: nat, n: nat) returns (out: seq<byte>, calls: nat, last: Reply)
    requires c.Valid() && StretchInRange(c.g, p, n)
    modifies c, c.kernel
    ensures c.Valid() && c.Contents() == old(c.Contents()) && Ok(c.g, c.Contents())
    ensures c.kernel.Mishaps() == old(c.kernel.Mishaps()) + if last.Done? then 0 else 1
    ensures Holds(View(c.g, c.Contents()), p, out)
    ensures var q, wanted := c.g.quantum, Wanted(View(c.g, c.Contents()), p, n);
            && |out| <= wanted && (last.Done? ==> |out| == wanted) && (|out| == n ==> last.Done?)
            && calls + Quanta(q, p + |out|, wanted - |out|) ==
               Quanta(q, p, wanted) + if |out| < n then 1 else 0
  {
    hide Shaped, StoreOf, Step, FlatRead, Bytes, Holds, Wanted, WholeQuanta, Quanta, Ok, InRange;
    StoreOfOk(c.g, c.kernel.mem, c.data, c.shape, c.size);
    ghost var st, q := c.Contents(), c.g.quantum;
    ghost var d, wanted := View(c.g, st), Wanted(View(c.g, st), p, n);
    ViewWhole(c.g, st);
    out, calls, last := [], 0, Done(0);
    NothingFetched(d, p);
    while |out| < n
      invariant c.Valid() && c.Contents() == st && last.Done?
      invariant c.kernel.Mishaps() == old(c.kernel.Mishaps())
      invariant |out| <= wanted && Holds(d, p, out)
      invariant calls + Quanta(q, p + |out|, wanted - |out|) == Quanta(q, p, wanted)
      decreases n - |out|
    {
      PartInRange(c.g, p, n, p + |out|);
      var ev := Dispatch(c, ReadCall(p + |out|, n - |out|));
      ReadKeepsStore(c.g, st, ev, c.Contents());
      StepRefines(c.g, st, ev, c.Contents());
      calls, last := calls + 1, ev.reply;
      if !last.Done? {
        return;
      }
      FetchedMore(q, d, p, n, out, last.n, ev.data);
      if last.n == 0 {
        return;
      }
      out := out + ev.data;
    }
  }

  lemma ReadKeepsStore(g: Geo, st: Store, ev: Event, st': Store)
    requires Step(g, st, ev, st') && ev.Read?
    ensures st' == st
  {
  }

  lemma NothingFetched(d: Device, p: nat)
    ensures Holds(d, p, [])
  {
  }

  /** The round trip on the driver: what was stored comes back, each way in as many calls as the bytes
      span quanta, unless a call fails; and then what did come back is a prefix of it. */
  method StoreAndFetch(c: Container, p: nat, data: seq<byte>)
      returns (stored: nat, storing: nat, out: seq<byte>, fetching: nat, last: Reply)
    requires c.Valid() && StretchInRange(c.g, p, |data|)
    modifies c, c.kernel
    ensures c.Valid() && stored <= |data| && out <= data[..stored]
    ensures c.kernel.Mishaps() == old(c.kernel.Mishaps()) ==> stored == |data| && out == data
    ensures out == data[..stored] <==> last.Done?
    ensures stored == |data| ==> storing == Quanta(c.g.quantum, p, |data|)
    ensures last.Done? ==> fetching == Quanta(c.g.quantum, p, stored)
  {
    hide Shaped, StoreOf, Bytes, Ok, InRange, KeepsOthers, Holds, AllReadable, Wanted, Quanta;
    stored, storing := StoreAll(c, p, data);
    ghost var d := View(c.g, c.Contents());
    StoredIsReadable(d, p, data[..stored]);
    AllWanted(d, p, stored);
    assert StretchInRange(c.g, p, stored) by {
      if stored > 0 {
        PartInRange(c.g, p, |data|, p + stored - 1);
      }
    }
    SomeQuanta(c.g.quantum, p + |data|, 0);
    SomeQuanta(c.g.quantum, p + stored, 0);
    out, fetching, last := FetchAll(c, p, stored);
    SamePrefix(d, p, data[..stored], out);
  }

  lemma StoredIsReadable(d: Device, p: nat, data: seq<byte>)
    requires Holds(d, p, data) && (data == [] || p + |data| <= d.size)
    ensures AllReadable(d, p, |data|)
  {
  }

  lemma SamePrefix(d: Device, p: nat, data: seq<byte>, out: seq<byte>)
    requires Holds(d, p, data) && Holds(d, p, out) && |out| <= |data|
    ensures out <= data && (out == data <==> |out| == |data|)
  {
    assert forall i | 0 <= i < |out| :: out[i] == d.bytes[p + i] == data[i] by {
      forall i | 0 <= i < |out| ensures out[i] == d.bytes[p + i] == data[i] {
        assert out[p + i - p] == out[i] && data[p + i - p] == data[i];
      }
    }
  }
}
