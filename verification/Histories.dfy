/** What whole histories of the device guarantee: which bytes a read can see, how the size comes
    about, which quanta and arrays exist.  The statements are about runs of the reference device,
    so by refinement about every run of the store. */
module Histories {
  import opened Addressing
  import opened SparseStore
  import opened FlatDevice

  predicate IsTrim(ev: Event) {
    ev.Open? && ev.writeOnly
  }

  /** Index of the first event after the last trim. */
  function SinceTrim(events: seq<Event>): (k: nat)
    ensures k <= |events|
    ensures k > 0 ==> IsTrim(events[k - 1])
    ensures forall i | k <= i < |events| :: !IsTrim(events[i])
  {
    if events == [] then 0
    else if IsTrim(events[|events| - 1]) then |events|
    else SinceTrim(events[..|events| - 1])
  }

  lemma SinceTrimStep(events: seq<Event>, k: nat)
    requires k < |events|
    ensures SinceTrim(events[..k + 1]) == if IsTrim(events[k]) then k + 1 else SinceTrim(events[..k])
  {
    assert events[..k + 1][..k] == events[..k];
  }

  // ---- last write wins ----

  /** A successful write that covers position `p`. */
  predicate Writes(ev: Event, p: nat) {
    ev.Write? && ev.reply.Done? && ev.pos <= p < ev.pos + ev.reply.n
  }

  /** A faulted write whose target range covers `p`. */
  predicate Spoils(q: nat, ev: Event, p: nat)
    requires q > 0
  {
    ev.Write? && ev.reply.Fault? && ev.pos <= p < ev.pos + Clip(q, ev.pos, |ev.buf|)
  }

  /** An event that may change what is at `p`. */
  predicate Disturbs(q: nat, ev: Event, p: nat)
    requires q > 0
  {
    IsTrim(ev) || Writes(ev, p) || Spoils(q, ev, p)
  }

  /** An event that does not disturb a mapped position keeps its byte and keeps it mapped. */
  lemma Undisturbed(q: nat, d: Device, ev: Event, d': Device, p: nat)
    requires q > 0 && FlatStep(q, d, ev, d') && p in d.bytes && !Disturbs(q, ev, p)
    ensures p in d'.bytes && d'.bytes[p] == d.bytes[p] && d'.size >= d.size
  {
  }

  /** A byte stays where a successful write put it until an event disturbs it. */
  lemma {:induction false} WrittenByteStays(q: nat, ds: seq<Device>, events: seq<Event>, i: nat, k: nat, p: nat)
    requires q > 0 && FlatRun(q, ds, events) && i < k <= |events|
    requires Writes(events[i], p)
    requires forall j | i < j < k :: !Disturbs(q, events[j], p)
    ensures p in ds[k].bytes && p < ds[k].size
    ensures p - events[i].pos < |events[i].buf| && ds[k].bytes[p] == events[i].buf[p - events[i].pos]
  {
    if k == i + 1 {
      assert FlatStepAt(q, ds, events, i);
    } else {
      WrittenByteStays(q, ds, events, i, k - 1, p);
      assert FlatStepAt(q, ds, events, k - 1);
      Undisturbed(q, ds[k - 1], events[k - 1], ds[k], p);
    }
  }

  /** Last write wins: a byte a read returns is the one the most recent successful write put at its
      position, if no trim and no faulted write came in between. */
  lemma LastWriteWins(q: nat, ds: seq<Device>, events: seq<Event>, i: nat, k: nat, p: nat)
    requires q > 0 && FlatRun(q, ds, events) && i < k < |events|
    requires Writes(events[i], p)
    requires forall j | i < j < k :: !Disturbs(q, events[j], p)
    requires events[k].Read? && events[k].reply.Done? && events[k].pos <= p < events[k].pos + events[k].reply.n
    ensures |events[k].data| == events[k].reply.n && p - events[i].pos < |events[i].buf|
    ensures events[k].data[p - events[k].pos] == events[i].buf[p - events[i].pos]
  {
    WrittenByteStays(q, ds, events, i, k, p);
    assert FlatStepAt(q, ds, events, k);
  }

  // ---- the size ----

  /** Where a successful write ended. */
  function EndOf(ev: Event): nat {
    if ev.Write? && ev.reply.Done? then ev.pos + ev.reply.n else 0
  }

  lemma SizeStep(q: nat, d: Device, ev: Event, d': Device)
    requires q > 0 && FlatStep(q, d, ev, d')
    ensures d'.size == if IsTrim(ev) then 0 else Max(d.size, EndOf(ev))
  {
  }

  /** The size is the high-water mark of the successful writes since the last trim, zero-length
      ones included: none ended beyond it, and one ended there unless it is 0. */
  lemma {:induction false} SizeIsHighWater(q: nat, ds: seq<Device>, events: seq<Event>, k: nat)
    requires q > 0 && FlatRun(q, ds, events) && ds[0] == EMPTY && k <= |events|
    ensures forall i | SinceTrim(events[..k]) <= i < k :: EndOf(events[i]) <= ds[k].size
    ensures ds[k].size == 0 || exists i :: SinceTrim(events[..k]) <= i < k && EndOf(events[i]) == ds[k].size
  {
    hide FlatStep;
    if k > 0 {
      SizeIsHighWater(q, ds, events, k - 1);
      SinceTrimStep(events, k - 1);
      assert FlatStepAt(q, ds, events, k - 1);
      SizeStep(q, ds[k - 1], events[k - 1], ds[k]);
      var last := events[k - 1];
      if !IsTrim(last) && ds[k].size != 0 {
        if EndOf(last) == ds[k].size {
        } else {
          var i :| SinceTrim(events[..k - 1]) <= i < k - 1 && EndOf(events[i]) == ds[k - 1].size;
        }
      }
    }
  }

  /** Between trims the size never decreases. */
  lemma {:induction false} SizeGrows(q: nat, ds: seq<Device>, events: seq<Event>, i: nat, k: nat)
    requires q > 0 && FlatRun(q, ds, events) && i <= k <= |events|
    requires forall j | i <= j < k :: !IsTrim(events[j])
    ensures ds[i].size <= ds[k].size
  {
    if i < k {
      SizeGrows(q, ds, events, i, k - 1);
      assert FlatStepAt(q, ds, events, k - 1);
      SizeStep(q, ds[k - 1], events[k - 1], ds[k]);
    }
  }

  // ---- what is allocated ----

  /** A write that got past the allocation of its quantum, whether its copy then faulted or not. */
  predicate Reaches(ev: Event) {
    ev.Write? && (ev.reply.Done? || ev.reply.Fault?)
  }

  /** The allocated quanta are exactly those of the writes since the last trim that got past quantum
      allocation. */
  lemma {:induction false} QuantaAreThoseReached(q: nat, ds: seq<Device>, events: seq<Event>, k: nat, p: nat)
    requires q > 0 && FlatRun(q, ds, events) && ds[0] == EMPTY && k <= |events|
    ensures p in ds[k].bytes <==>
            exists i :: SinceTrim(events[..k]) <= i < k && Reaches(events[i]) && events[i].pos / q == p / q
  {
    if k > 0 {
      QuantaAreThoseReached(q, ds, events, k - 1, p);
      SinceTrimStep(events, k - 1);
      assert FlatStepAt(q, ds, events, k - 1);
      var last := events[k - 1];
      if p in ds[k].bytes {
        if p in ds[k - 1].bytes {
          var i :| SinceTrim(events[..k - 1]) <= i < k - 1 && Reaches(events[i]) && events[i].pos / q == p / q;
        } else {
          assert Reaches(last) && last.pos / q == p / q;
        }
      }
    }
  }

  /** A write that got past the allocation of its pointer array. */
  predicate ReachesArray(ev: Event) {
    Reaches(ev) || (ev.Write? && ev.reply == NoMemory(ForQuantum))
  }

  lemma ArrayStep(g: Geo, st: Store, ev: Event, st': Store, item: nat)
    requires Step(g, st, ev, st')
    ensures item in st'.arrays <==>
            !IsTrim(ev) && (item in st.arrays || (ReachesArray(ev) && Item(g, ev.pos) == item))
  {
  }

  /** Pointer arrays exist exactly for the items where a write since the last trim got past array
      allocation. */
  lemma {:induction false} ArraysAreThoseReached(g: Geo, states: seq<Store>, events: seq<Event>, k: nat, item: nat)
    requires Run(g, states, events) && states[0] == TRIMMED && k <= |events|
    ensures item in states[k].arrays <==>
            exists i :: SinceTrim(events[..k]) <= i < k && ReachesArray(events[i]) && Item(g, events[i].pos) == item
  {
    hide Step, Item;
    if k > 0 {
      ArraysAreThoseReached(g, states, events, k - 1, item);
      SinceTrimStep(events, k - 1);
      assert StepAt(g, states, events, k - 1);
      ArrayStep(g, states[k - 1], events[k - 1], states[k], item);
    }
  }

  /** A write that got the semaphore, and so set out along the list. */
  predicate SetsOut(ev: Event) {
    ev.Write? && !ev.reply.Interrupted?
  }

  /** A write that got to the end of its way along the list. */
  predicate Arrives(ev: Event) {
    SetsOut(ev) && ev.reply != NoMemory(ForNode)
  }

  lemma LengthStep(g: Geo, st: Store, ev: Event, st': Store)
    requires Step(g, st, ev, st')
    ensures IsTrim(ev) ==> st'.length == 0
    ensures !IsTrim(ev) ==> st.length <= st'.length
    ensures Arrives(ev) ==> Item(g, ev.pos) < st'.length
    ensures st'.length > st.length ==> SetsOut(ev) && st'.length <= Item(g, ev.pos) + 1
  {
  }

  /** The list is as long as the largest item a write since the last trim arrived at demands, and no
      longer than some write that set out demanded: a failed write may leave it in between. */
  lemma {:induction false} ListLength(g: Geo, states: seq<Store>, events: seq<Event>, k: nat)
    requires Run(g, states, events) && states[0] == TRIMMED && k <= |events|
    ensures forall i | SinceTrim(events[..k]) <= i < k && Arrives(events[i]) ::
              Item(g, events[i].pos) < states[k].length
    ensures states[k].length == 0 || exists i :: SinceTrim(events[..k]) <= i < k && SetsOut(events[i])
                                                 && states[k].length <= Item(g, events[i].pos) + 1
    ensures (forall i | SinceTrim(events[..k]) <= i < k && SetsOut(events[i]) :: Arrives(events[i])) ==>
              states[k].length == 0 || exists i :: SinceTrim(events[..k]) <= i < k && Arrives(events[i])
                                                   && states[k].length == Item(g, events[i].pos) + 1
  {
    hide Step, Item;
    if k > 0 {
      ListLength(g, states, events, k - 1);
      SinceTrimStep(events, k - 1);
      assert StepAt(g, states, events, k - 1);
      LengthStep(g, states[k - 1], events[k - 1], states[k]);
    }
  }

  /** One operation adds at most one quantum and one array, and none unless it is a write. */
  lemma AtMostOneBlock(g: Geo, st: Store, ev: Event, st': Store)
    requires Step(g, st, ev, st')
    ensures exists i :: st'.arrays <= st.arrays + {i}
    ensures exists pl :: st'.quanta.Keys <= st.quanta.Keys + {pl}
    ensures !ev.Write? ==> st'.arrays <= st.arrays && st'.quanta.Keys <= st.quanta.Keys
  {
    var p := if ev.Write? then ev.pos else 0;
    assert st'.arrays <= st.arrays + {Item(g, p)};
    assert st'.quanta.Keys <= st.quanta.Keys + {PlaceOf(g, p)};
  }

  // ---- runs of writes without gaps ----

  /** Every successful write since the last trim started no further than where its predecessors had
      brought the size. */
  ghost predicate GapFree(ds: seq<Device>, events: seq<Event>, k: nat)
    requires k < |ds| && k <= |events|
  {
    forall i | SinceTrim(events[..k]) <= i < k && events[i].Write? && events[i].reply.Done? ::
      events[i].pos <= ds[i].size
  }

  /** Then no hole lies below the size. */
  lemma {:induction false} GapFreeHasNoHoles(q: nat, ds: seq<Device>, events: seq<Event>, k: nat)
    requires q > 0 && FlatRun(q, ds, events) && ds[0] == EMPTY && k <= |events| && GapFree(ds, events, k)
    ensures forall p: nat | p < ds[k].size :: p in ds[k].bytes
  {
    if k > 0 {
      var last := events[k - 1];
      SinceTrimStep(events, k - 1);
      assert FlatStepAt(q, ds, events, k - 1);
      if !IsTrim(last) {
        GapFreeHasNoHoles(q, ds, events, k - 1);
      }
    }
  }
}
