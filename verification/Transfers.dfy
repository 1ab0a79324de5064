/** Callers that retry: one that keeps writing until all its bytes are stored, and one that keeps
    reading until it has what it wants or is told there is no more.  Each call moves at most one
    quantum, so the number of calls is exact. */
module Transfers {
  import opened Octets
  import opened Division
  import opened SparseStore
  import opened FlatDevice
  import opened Histories

  /** How many quanta the positions [p, p + n) lie in. */
  function Quanta(q: nat, p: nat, n: nat): nat
    requires q > 0
  {
    if n == 0 then 0 else Span(q, p, n)
  }

  function Span(q: nat, p: nat, n: nat): nat
    requires q > 0 && n > 0
  {
    QuotientMonotone(q, p, p + n - 1);
    (p + n - 1) / q - p / q + 1
  }

  lemma QuotientMonotone(q: nat, a: nat, b: nat)
    requires q > 0 && a <= b
    ensures a / q <= b / q
  {
    if a / q > b / q {
      MulMonotone(b / q + 1, a / q, q);
    }
  }

  /** Moving what fits into the first quantum leaves one quantum fewer to go. */
  lemma OneQuantumLess(q: nat, p: nat, n: nat)
    requires q > 0 && n > 0
    ensures 0 < Clip(q, p, n) <= n
    ensures Quanta(q, p, n) == 1 + Quanta(q, p + Clip(q, p, n), n - Clip(q, p, n))
  {
    var m := Clip(q, p, n);
    if m == n {
      DivModUnique(p + n - 1, q, p / q, p % q + n - 1);
    } else {
      assert p + m == (p / q + 1) * q;
      DivModUnique(p + m, q, p / q + 1, 0);
    }
  }

  lemma SomeQuanta(q: nat, p: nat, n: nat)
    requires q > 0
    ensures Quanta(q, p, n) == 0 <==> n == 0
  {
    if n > 0 {
      QuotientMonotone(q, p, p + n - 1);
    }
  }

  // ---- a retrying writer ----

  /** The calls of a caller that stores `data` from position `p` on: each offers what is left at the
      position reached, and all of them succeed.  `left` is what it has not stored yet. */
  ghost predicate RetryingWriter(events: seq<Event>, p: nat, data: seq<byte>, left: seq<byte>)
    decreases |events|
  {
    if events == [] then left == data
    else
      && data != []
      && events[0].Write? && events[0].pos == p && events[0].buf == data
      && events[0].reply.Done? && events[0].reply.n <= |data|
      && RetryingWriter(events[1..], p + events[0].reply.n, data[events[0].reply.n..], left)
  }

  lemma RunTail(q: nat, ds: seq<Device>, events: seq<Event>)
    requires q > 0 && FlatRun(q, ds, events) && events != []
    ensures |ds| > 1 && FlatRun(q, ds[1..], events[1..]) && FlatStep(q, ds[0], events[0], ds[1])
  {
    assert FlatStepAt(q, ds, events, 0);
    forall i | 0 <= i < |events| - 1 ensures FlatStepAt(q, ds[1..], events[1..], i) {
      assert FlatStepAt(q, ds, events, i + 1);
    }
  }

  /** A successful write of something stores what fits into its quantum. */
  lemma OneWrite(q: nat, d: Device, p: nat, data: seq<byte>, n: nat, d': Device)
    requires q > 0 && data != [] && FlatWrite(q, d, p, data, Done(n), d')
    ensures 0 < n <= |data|
    ensures Quanta(q, p, |data|) == 1 + Quanta(q, p + n, |data| - n)
  {
    OneQuantumLess(q, p, |data|);
  }

  /** The first call of a retrying writer stores what lies in the first quantum, and leaves a writer of
      the rest. */
  lemma FirstStore(q: nat, ds: seq<Device>, events: seq<Event>, p: nat, data: seq<byte>, left: seq<byte>)
    requires q > 0 && FlatRun(q, ds, events) && RetryingWriter(events, p, data, left) && events != []
    ensures |ds| > 1 && FlatRun(q, ds[1..], events[1..])
    ensures events[0].Write? && events[0].reply.Done? && events[0].reply.n <= |data|
    ensures var n := events[0].reply.n;
            && RetryingWriter(events[1..], p + n, data[n..], left)
            && Quanta(q, p, |data|) == 1 + Quanta(q, p + n, |data| - n)
  {
    hide FlatRun, Quanta, Clip, FlatRead, FlatWrite;
    RunTail(q, ds, events);
    OneWrite(q, ds[0], p, data, events[0].reply.n, ds[1]);
  }

  lemma TailOfTail(data: seq<byte>, n: nat, left: seq<byte>)
    requires n + |left| <= |data| && left == data[n..][|data| - n - |left|..]
    ensures left == data[|data| - |left|..]
  {
  }

  /** What is left is the tail of the data, and every call has cost one quantum: the writer is done
      after exactly as many calls as its data spans quanta, so it cannot go on forever. */
  lemma {:induction false} WriterCost(q: nat, ds: seq<Device>, events: seq<Event>,
                                      p: nat, data: seq<byte>, left: seq<byte>)
    requires q > 0 && FlatRun(q, ds, events) && RetryingWriter(events, p, data, left)
    ensures |left| <= |data| && left == data[|data| - |left|..]
    ensures |events| + Quanta(q, p + |data| - |left|, |left|) == Quanta(q, p, |data|)
    ensures |events| == Quanta(q, p, |data|) <==> left == []
    decreases |events|
  {
    hide FlatRun, Quanta;
    if events != [] {
      FirstStore(q, ds, events, p, data, left);
      var n := events[0].reply.n;
      WriterCost(q, ds[1..], events[1..], p + n, data[n..], left);
      TailOfTail(data, n, left);
    }
    SomeQuanta(q, p + |data| - |left|, |left|);
  }

  /** What the writer has stored is there, and every other byte that was mapped is as before. */
  lemma {:induction false} WriterStores(q: nat, ds: seq<Device>, events: seq<Event>,
                                        p: nat, data: seq<byte>, left: seq<byte>)
    requires q > 0 && FlatRun(q, ds, events) && RetryingWriter(events, p, data, left)
    ensures |left| <= |data|
    ensures var d, d', n := ds[0], ds[|events|], |data| - |left|;
            && (forall x: nat | p <= x < p + n :: x in d'.bytes && d'.bytes[x] == data[x - p])
            && (forall x: nat | x in d.bytes && !(p <= x < p + n) :: x in d'.bytes && d'.bytes[x] == d.bytes[x])
            && d'.size == if events == [] then d.size else Max(d.size, p + n)
    decreases |events|
  {
    if events != [] {
      RunTail(q, ds, events);
      var n := events[0].reply.n;
      WriterStores(q, ds[1..], events[1..], p + n, data[n..], left);
    }
  }

  // ---- a retrying reader ----

  /** The calls of a caller that wants `n` bytes from position `p` on: each asks for all that is
      missing at the position reached, and none faults or is interrupted.  `left` is how many bytes it
      has not got yet. */
  ghost predicate RetryingReader(events: seq<Event>, p: nat, n: nat, left: nat)
    decreases |events|
  {
    if events == [] then left == n
    else
      && n > 0
      && events[0].Read? && events[0].pos == p && events[0].count == n
      && events[0].reply.Done? && events[0].reply.n <= n
      && RetryingReader(events[1..], p + events[0].reply.n, n - events[0].reply.n, left)
  }

  /** All bytes the reads of a history delivered, in order. */
  function Collected(events: seq<Event>): seq<byte> {
    if events == [] then [] else (if events[0].Read? then events[0].data else []) + Collected(events[1..])
  }

  /** The bytes [p, p + n) of a device. */
  ghost function Stretch(d: Device, p: nat, n: nat): (s: seq<byte>)
    requires forall x: nat | p <= x < p + n :: x in d.bytes
    ensures |s| == n && forall i | 0 <= i < n :: s[i] == d.bytes[p + i]
  {
    if n == 0 then [] else Stretch(d, p, n - 1) + [d.bytes[p + n - 1]]
  }

  lemma StretchSplit(d: Device, p: nat, m: nat, n: nat)
    requires m <= n && forall x: nat | p <= x < p + n :: x in d.bytes
    ensures Stretch(d, p, n) == Stretch(d, p, m) + Stretch(d, p + m, n - m)
  {
    forall i | m <= i < n ensures Stretch(d, p, n)[i] == Stretch(d, p + m, n - m)[i - m] {
      assert p + i == p + m + (i - m);
    }
  }

  lemma OneRead(q: nat, d: Device, p: nat, n: nat, m: nat, data: seq<byte>)
    requires q > 0 && n > 0 && FlatRead(q, d, p, n, Done(m), data)
    requires p + n <= d.size && forall x: nat | p <= x < p + n :: x in d.bytes
    ensures m == Clip(q, p, n) <= n && data == Stretch(d, p, m)
  {
    OneQuantumLess(q, p, n);
    assert p in d.bytes && Min(n, d.size - p) == n;
    forall i | 0 <= i < m ensures data[i] == Stretch(d, p, m)[i] {
      assert data[(p + i) - p] == d.bytes[p + i];
    }
  }

  /** The first call of a reader of mapped bytes below the size gets what lies in the first quantum, and
      leaves a reader of the rest. */
  lemma FirstFetch(q: nat, ds: seq<Device>, events: seq<Event>, p: nat, n: nat, left: nat)
    requires q > 0 && FlatRun(q, ds, events) && RetryingReader(events, p, n, left) && events != []
    requires p + n <= ds[0].size && forall x: nat | p <= x < p + n :: x in ds[0].bytes
    ensures |ds| > 1 && FlatRun(q, ds[1..], events[1..]) && ds[1] == ds[0]
    ensures events[0].Read? && events[0].reply.Done? && events[0].reply.n <= n
    ensures var m := events[0].reply.n;
            && RetryingReader(events[1..], p + m, n - m, left)
            && Quanta(q, p, n) == 1 + Quanta(q, p + m, n - m)
            && Collected(events) == Stretch(ds[0], p, m) + Collected(events[1..])
  {
    hide FlatRun, Quanta, Clip, Available, FlatRead, FlatWrite;
    RunTail(q, ds, events);
    OneQuantumLess(q, p, n);
    OneRead(q, ds[0], p, n, events[0].reply.n, events[0].data);
  }

  /** Every call of such a reader costs one quantum: it has all its bytes after exactly as many calls
      as they span quanta, so it cannot go on forever. */
  lemma {:induction false} ReaderCost(q: nat, ds: seq<Device>, events: seq<Event>, p: nat, n: nat, left: nat)
    requires q > 0 && FlatRun(q, ds, events) && RetryingReader(events, p, n, left)
    requires p + n <= ds[0].size && forall x: nat | p <= x < p + n :: x in ds[0].bytes
    ensures left <= n && |events| + Quanta(q, p + n - left, left) == Quanta(q, p, n)
    ensures |events| == Quanta(q, p, n) <==> left == 0
    decreases |events|
  {
    hide FlatRun, Quanta;
    if events != [] {
      FirstFetch(q, ds, events, p, n, left);
      var m := events[0].reply.n;
      ReaderCost(q, ds[1..], events[1..], p + m, n - m, left);
    }
    SomeQuanta(q, p + n - left, left);
  }

  /** It gets exactly these bytes, in order, and changes nothing. */
  lemma {:induction false} ReaderGets(q: nat, ds: seq<Device>, events: seq<Event>, p: nat, n: nat, left: nat)
    requires q > 0 && FlatRun(q, ds, events) && RetryingReader(events, p, n, left)
    requires p + n <= ds[0].size && forall x: nat | p <= x < p + n :: x in ds[0].bytes
    ensures ds[|events|] == ds[0]
    ensures left <= n && Collected(events) == Stretch(ds[0], p, n - left)
    decreases |events|
  {
    hide FlatStepAt, Quanta;
    if events != [] {
      FirstFetch(q, ds, events, p, n, left);
      var m := events[0].reply.n;
      ReaderGets(q, ds[1..], events[1..], p + m, n - m, left);
      StretchSplit(ds[0], p, m, n - left);
    }
  }

  /** Round trip with exact cost: a retrying writer is done exactly when it has made as many calls as
      its bytes span quanta, at any position of any device; a retrying reader then gets a prefix of
      these bytes, and gets them all exactly when it has made as many calls.  If the device was empty
      before, the size is where the bytes end and the next read, of any count, gets nothing. */
  lemma RoundTrip(q: nat, ds: seq<Device>, stores: seq<Event>, ds': seq<Device>, fetches: seq<Event>,
                  p: nat, data: seq<byte>, left: seq<byte>, missing: nat, count: nat)
    requires q > 0 && data != []
    requires FlatRun(q, ds, stores) && RetryingWriter(stores, p, data, left)
    requires FlatRun(q, ds', fetches) && RetryingReader(fetches, p, |data|, missing) && ds'[0] == ds[|stores|]
    ensures var calls := Quanta(q, p, |data|);
            && |stores| <= calls && (|stores| == calls <==> left == [])
            && (left == [] ==>
                  && |fetches| <= calls && (|fetches| == calls <==> missing == 0)
                  && Collected(fetches) <= data && (missing == 0 <==> Collected(fetches) == data)
                  && (ds[0] == EMPTY ==>
                        && ds'[|fetches|].size == p + |data|
                        && Available(q, ds'[|fetches|], p + |data|, count) == 0))
  {
    hide FlatStepAt, Quanta, Clip, RetryingWriter, RetryingReader, Collected;
    WriterCost(q, ds, stores, p, data, left);
    WriterStores(q, ds, stores, p, data, left);
    if left == [] {
      SomeQuanta(q, p, |data|);
      ReaderCost(q, ds', fetches, p, |data|, missing);
      ReaderGets(q, ds', fetches, p, |data|, missing);
      assert Stretch(ds'[0], p, |data| - missing) == data[..|data| - missing];
    }
  }

  // ---- a reader that goes on until it gets nothing ----

  /** The calls of a caller that reads from `p` on with counts of its own choice, none zero. */
  ghost predicate SequentialReader(events: seq<Event>, p: nat)
    decreases |events|
  {
    events != [] ==>
      && events[0].Read? && events[0].pos == p && events[0].count > 0 && events[0].reply.Done?
      && SequentialReader(events[1..], p + events[0].reply.n)
  }

  /** The reader has just been told that there is no more. */
  predicate ToldNoMore(events: seq<Event>) {
    events != [] && events[|events| - 1].Read? && events[|events| - 1].reply == Done(0)
  }

  /** A read at `p` delivers something. */
  ghost predicate Readable(d: Device, p: nat) {
    p < d.size && p in d.bytes
  }

  /** The least position from `p` on that is at or past the size or lies in a hole. */
  ghost function ReadableEnd(d: Device, p: nat): (e: nat)
    ensures e >= p && !Readable(d, e)
    ensures forall x: nat | p <= x < e :: Readable(d, x)
    decreases d.size - p
  {
    if Readable(d, p) then ReadableEnd(d, p + 1) else p
  }

  /** It gets the device's bytes in order, and each call advances until it is told that there is no
      more, which happens exactly where the bytes end: so it is told at the latest after as many calls
      as there are bytes. */
  lemma {:induction false} SequentialBytes(q: nat, ds: seq<Device>, events: seq<Event>, p: nat)
    requires q > 0 && FlatRun(q, ds, events) && SequentialReader(events, p)
    ensures ds[|events|] == ds[0]
    ensures var out := Collected(events);
            && p + |out| <= ReadableEnd(ds[0], p)
            && forall x: nat | p <= x < p + |out| :: x in ds[0].bytes && out[x - p] == ds[0].bytes[x]
    ensures ToldNoMore(events) ==>
              p + |Collected(events)| == ReadableEnd(ds[0], p)
    ensures ToldNoMore(events) || |events| <= |Collected(events)| <= ReadableEnd(ds[0], p) - p
    decreases |events|
  {
    if events != [] {
      RunTail(q, ds, events);
      var d, n := ds[0], events[0].reply.n;
      assert forall x: nat | p <= x < p + n :: Readable(d, x);
      SameEnd(d, p, n);
      SequentialBytes(q, ds[1..], events[1..], p + n);
      if |events| == 1 && n == 0 {
        assert !Readable(d, p);
      }
      if |events| > 1 {
        assert events[1..][|events| - 2] == events[|events| - 1];
      }
    }
  }

  lemma {:induction false} SameEnd(d: Device, p: nat, n: nat)
    requires forall x: nat | p <= x < p + n :: Readable(d, x)
    ensures ReadableEnd(d, p) == ReadableEnd(d, p + n)
    decreases n
  {
    if n > 0 {
      SameEnd(d, p + 1, n - 1);
    }
  }

  /** How much a read at `p` delivers: what is asked for, up to where the readable bytes and the quantum
      end. */
  ghost function Deliverable(q: nat, d: Device, p: nat, count: nat): (n: nat)
    requires q > 0
    ensures n > 0 <==> count > 0 && Readable(d, p)
  {
    Min(count, Min(ReadableEnd(d, p) - p, q - p % q))
  }

  lemma SameQuantum(q: nat, p: nat, x: nat)
    requires q > 0 && p <= x < p + (q - p % q)
    ensures x / q == p / q
  {
    DivModUnique(x, q, p / q, p % q + (x - p));
  }

  lemma ReadableToo(q: nat, d: Device, p: nat, x: nat)
    requires q > 0 && WholeQuanta(q, d) && Readable(d, p)
    requires p <= x < d.size && x < p + (q - p % q)
    ensures Readable(d, x)
  {
    SameQuantum(q, p, x);
  }

  /** Within one quantum only the size ends what is readable. */
  lemma ReadableInQuantum(q: nat, d: Device, p: nat)
    requires q > 0 && WholeQuanta(q, d) && Readable(d, p)
    ensures Min(ReadableEnd(d, p) - p, q - p % q) == Min(d.size - p, q - p % q)
  {
    hide WholeQuanta;
    var m, e := Min(d.size - p, q - p % q), ReadableEnd(d, p);
    assert e <= d.size by {
      assert e > p ==> Readable(d, e - 1);
    }
    forall x: nat | p <= x < p + m ensures Readable(d, x) {
      ReadableToo(q, d, p, x);
    }
    SameEnd(d, p, m);
  }

  lemma ReadDelivers(q: nat, d: Device, p: nat, count: nat, n: nat, data: seq<byte>)
    requires q > 0 && WholeQuanta(q, d) && FlatRead(q, d, p, count, Done(n), data)
    ensures n == |data| == Deliverable(q, d, p, count)
  {
    if Readable(d, p) {
      ReadableInQuantum(q, d, p);
    }
  }

  /** In every run from the trimmed state a successful read delivers exactly the bytes from its position
      on, up to its count, the end of what is readable and the end of the quantum. */
  lemma ReadsDeliver(q: nat, ds: seq<Device>, events: seq<Event>, k: nat)
    requires q > 0 && FlatRun(q, ds, events) && ds[0] == EMPTY && k < |events|
    requires events[k].Read? && events[k].reply.Done?
    ensures var p, count, n := events[k].pos, events[k].count, events[k].reply.n;
            && n == Min(count, Min(ReadableEnd(ds[k], p) - p, q - p % q)) == |events[k].data|
            && forall x: nat | p <= x < p + n :: x in ds[k].bytes && events[k].data[x - p] == ds[k].bytes[x]
  {
    RunKeepsWhole(q, ds, events, k);
    assert FlatStepAt(q, ds, events, k);
    ReadDelivers(q, ds[k], events[k].pos, events[k].count, events[k].reply.n, events[k].data);
  }

  /** A sequential reader that has been told there is no more has got exactly the bytes up to the
      first hole or the size; if the writes since the last trim left no gap, that is up to the size. */
  lemma HolesEndReads(q: nat, ds: seq<Device>, events: seq<Event>, k: nat, p: nat)
    requires q > 0 && FlatRun(q, ds, events) && ds[0] == EMPTY && k < |events|
    requires SequentialReader(events[k..], p) && ToldNoMore(events)
    ensures var e, out := ReadableEnd(ds[k], p), Collected(events[k..]);
            && |out| == e - p
            && (forall x: nat | p <= x < e :: x in ds[k].bytes && out[x - p] == ds[k].bytes[x])
            && (GapFree(ds, events, k) && p <= ds[k].size ==> e == ds[k].size)
  {
    RunDrop(q, ds, events, k);
    SequentialBytes(q, ds[k..], events[k..], p);
    if GapFree(ds, events, k) && p <= ds[k].size {
      GapFreeHasNoHoles(q, ds, events, k);
      assert forall x: nat | p <= x < ds[k].size :: Readable(ds[k], x);
      SameEnd(ds[k], p, ds[k].size - p);
    }
  }

  lemma RunDrop(q: nat, ds: seq<Device>, events: seq<Event>, k: nat)
    requires q > 0 && FlatRun(q, ds, events) && k <= |events|
    ensures FlatRun(q, ds[k..], events[k..])
  {
    forall i | 0 <= i < |events| - k ensures FlatStepAt(q, ds[k..], events[k..], i) {
      assert FlatStepAt(q, ds, events, k + i);
    }
  }
}
