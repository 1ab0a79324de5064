/** The circular buffer: an array with two wrapping indices and a length.  It behaves as a bounded
    FIFO queue, and its array always shows the latest values it accepted. */
module CircularBuffer {
  import opened Division

  // ---- what the array and the indices stand for ----

  /** `length` values of the array from `start` on, around its end. */
  function Ring(raw: seq<int>, start: nat, length: nat): (s: seq<int>)
    requires raw != []
    ensures |s| == length && forall i | 0 <= i < length :: s[i] == raw[(start + i) % |raw|]
  {
    seq(length, i requires 0 <= i < length => raw[(start + i) % |raw|])
  }

  /** What slot `j` of an initially zero array of `n` slots shows after the values of `accepted` went
      in one after the other, the k-th to slot k % n. */
  function SlotAfter(n: nat, accepted: seq<int>, j: nat): int
    requires n > 0
  {
    if accepted == [] then 0
    else if (|accepted| - 1) % n == j then accepted[|accepted| - 1]
    else SlotAfter(n, accepted[..|accepted| - 1], j)
  }

  /** The array shows each of the latest `n` accepted values at its index mod n, values already read
      included. */
  lemma {:induction false} LatestInPlace(n: nat, accepted: seq<int>, k: nat)
    requires n > 0 && |accepted| <= k + n && k < |accepted|
    ensures SlotAfter(n, accepted, k % n) == accepted[k]
  {
    if k < |accepted| - 1 {
      WrapDistinct(k, |accepted| - 1, n);
      LatestInPlace(n, accepted[..|accepted| - 1], k);
    }
  }

  /** A slot no value has gone to yet still shows 0. */
  lemma {:induction false} UntouchedIsZero(n: nat, accepted: seq<int>, j: nat)
    requires |accepted| <= j < n
    ensures SlotAfter(n, accepted, j) == 0
  {
    if accepted != [] {
      DivModUnique(|accepted| - 1, n, 0, |accepted| - 1);
      UntouchedIsZero(n, accepted[..|accepted| - 1], j);
    }
  }

  /** One value more goes to its index mod n and to no other slot. */
  lemma SlotsAfterPut(n: nat, accepted: seq<int>, raw: seq<int>, value: int)
    requires n > 0 && |raw| == n && forall j | 0 <= j < n :: raw[j] == SlotAfter(n, accepted, j)
    ensures var raw' := raw[|accepted| % n := value];
            forall j | 0 <= j < n :: raw'[j] == SlotAfter(n, accepted + [value], j)
  {
    assert (accepted + [value])[..|accepted|] == accepted;
  }

  /** The values not yet read are those the ring shows from the read index on. */
  lemma RingIsQueue(n: nat, accepted: seq<int>, taken: nat, raw: seq<int>)
    requires n > 0 && taken <= |accepted| <= taken + n && |raw| == n
    requires forall j | 0 <= j < n :: raw[j] == SlotAfter(n, accepted, j)
    ensures Ring(raw, taken % n, |accepted| - taken) == accepted[taken..]
  {
    forall i | 0 <= i < |accepted| - taken
      ensures Ring(raw, taken % n, |accepted| - taken)[i] == accepted[taken..][i]
    {
      WrapAdd(taken, i, n);
      LatestInPlace(n, accepted, taken + i);
    }
  }

  /** What reading an empty buffer returns. */
  const EMPTY := -1

  class Buffer {
    var buffer: array<int>
    var length: nat
    var indexRead: nat
    var indexWrite: nat

    // every value accepted so far, every value read so far
    ghost var accepted: seq<int>
    ghost var taken: seq<int>

    ghost predicate Valid()
      reads this, buffer
    {
      && buffer.Length > 0
      && length <= buffer.Length
      && |taken| + length == |accepted| && taken == accepted[..|taken|]
      && indexRead == |taken| % buffer.Length
      && indexWrite == |accepted| % buffer.Length
      && forall j | 0 <= j < buffer.Length :: buffer[j] == SlotAfter(buffer.Length, accepted, j)
    }

    /** The values waiting to be read, as array, index and length show them. */
    function Contents(): seq<int>
      requires buffer.Length > 0
      reads this, buffer
    {
      Ring(buffer[..], indexRead, length)
    }

    /** First in, first out: accepted is what has been read followed by what is waiting; and the write
        index is where the waiting values end. */
    lemma Fifo()
      requires Valid()
      ensures accepted == taken + Contents() && |Contents()| == length <= buffer.Length
      ensures indexWrite == (indexRead + length) % buffer.Length
    {
      RingIsQueue(buffer.Length, accepted, |taken|, buffer[..]);
      WrapAdd(|taken|, length, buffer.Length);
      assert accepted == accepted[..|taken|] + accepted[|taken|..];
    }

    constructor (capacity: nat)
      requires capacity > 0
      ensures Valid() && fresh(buffer) && buffer.Length == capacity
      ensures accepted == taken == [] && Contents() == []
    {
      buffer := new int[capacity](_ => 0);
      length, indexRead, indexWrite := 0, 0, 0;
      accepted, taken := [], [];
    }

    /** The oldest waiting value; nothing but a failure flag when there is none. */
    method Read() returns (ok: bool, value: int)
      requires Valid()
      modifies `length, `indexRead, `taken
      ensures Valid()
      ensures ok <==> old(Contents()) != []
      ensures ok ==> value == old(Contents())[0] && Contents() == old(Contents())[1..] && taken == old(taken) + [value]
      ensures ok ==> value == buffer[|old(taken)| % buffer.Length]
      ensures !ok ==> value == EMPTY && unchanged(this)
    {
      hide SlotAfter;
      Fifo();
      if length == 0 {
        return false, EMPTY;
      }
      value := buffer[indexRead];
      indexRead := indexRead + 1;
      length := length - 1;
      if indexRead == buffer.Length {
        indexRead := 0;
      }
      WrapStep(|taken|, 1, buffer.Length);
      LatestInPlace(buffer.Length, accepted, |taken|);
      taken := taken + [value];
      Fifo();
      ok := true;
    }

    /** Appends the value, to slot k % N if it is the k-th accepted; a full buffer stays as it is. */
    method Write(value: int)
      requires Valid()
      modifies this, buffer
      ensures Valid() && buffer == old(buffer)
      ensures if |old(Contents())| == buffer.Length
              then Contents() == old(Contents()) && accepted == old(accepted) && buffer[..] == old(buffer[..])
              else Contents() == old(Contents()) + [value] && accepted == old(accepted) + [value]
                   && buffer[..] == old(buffer[..])[|old(accepted)| % buffer.Length := value]
      ensures taken == old(taken)
    {
      hide SlotAfter;
      Fifo();
      if length == buffer.Length {
        return;
      }
      SlotsAfterPut(buffer.Length, accepted, buffer[..], value);
      buffer[indexWrite] := value;
      indexWrite := indexWrite + 1;
      length := length + 1;
      if indexWrite == buffer.Length {
        indexWrite := 0;
      }
      WrapStep(|accepted|, 1, buffer.Length);
      assert buffer[..] == old(buffer[..])[|accepted| % buffer.Length := value];
      accepted := accepted + [value];
      Fifo();
    }
  }

  // ---- whole histories ----

  datatype Op = Put(value: int) | Take

  /** A bounded queue: what it accepted, what was taken from it, what is in it. */
  datatype Queue = Queue(accepted: seq<int>, taken: seq<int>, contents: seq<int>)

  function Apply(n: nat, q: Queue, op: Op): Queue {
    match op
    case Put(v) =>
      if |q.contents| == n then q else q.(accepted := q.accepted + [v], contents := q.contents + [v])
    case Take =>
      if q.contents == [] then q else q.(taken := q.taken + [q.contents[0]], contents := q.contents[1..])
  }

  /** The queue of capacity `n` after a history. */
  function After(n: nat, ops: seq<Op>): Queue {
    if ops == [] then Queue([], [], []) else Apply(n, After(n, ops[..|ops| - 1]), ops[|ops| - 1])
  }

  /** Nothing is lost, made up or reordered, and the capacity is never exceeded. */
  lemma {:induction false} QueueConserves(n: nat, ops: seq<Op>)
    ensures var q := After(n, ops); q.accepted == q.taken + q.contents && |q.contents| <= n
  {
    if ops != [] {
      QueueConserves(n, ops[..|ops| - 1]);
    }
  }

  /** The values put, and the number of takes, in a history. */
  function Puts(ops: seq<Op>): seq<int> {
    if ops == [] then []
    else Puts(ops[..|ops| - 1]) + if ops[|ops| - 1].Put? then [ops[|ops| - 1].value] else []
  }

  function Takes(ops: seq<Op>): nat {
    if ops == [] then 0
    else Takes(ops[..|ops| - 1]) + if ops[|ops| - 1].Take? then 1 else 0
  }

  lemma CountsStep(ops: seq<Op>, op: Op)
    ensures Puts(ops + [op]) == Puts(ops) + if op.Put? then [op.value] else []
    ensures Takes(ops + [op]) == Takes(ops) + if op.Take? then 1 else 0
  {
    assert (ops + [op])[..|ops|] == ops;
  }

  /** At no time more takes than puts, nor more than `n` puts ahead. */
  predicate Balanced(n: nat, ops: seq<Op>) {
    forall k | 0 <= k <= |ops| :: Within(n, ops[..k])
  }

  predicate Within(n: nat, ops: seq<Op>) {
    Takes(ops) <= |Puts(ops)| <= Takes(ops) + n
  }

  /** The operations of a history that are not refused: a put into a full queue and a take from an empty
      one are. */
  function Kept(n: nat, ops: seq<Op>): seq<Op> {
    if ops == [] then []
    else
      var kept, op := Kept(n, ops[..|ops| - 1]), ops[|ops| - 1];
      if Within(n, kept + [op]) then kept + [op] else kept
  }

  /** The queue a balanced history leaves: all values put were accepted, the first of them taken, one a
      take, and the rest is there. */
  function QueueOf(ops: seq<Op>): Queue
    requires Takes(ops) <= |Puts(ops)|
  {
    Queue(Puts(ops), Puts(ops)[..Takes(ops)], Puts(ops)[Takes(ops)..])
  }

  lemma ApplyKept(n: nat, kept: seq<Op>, op: Op)
    requires Within(n, kept)
    ensures var kept' := if Within(n, kept + [op]) then kept + [op] else kept;
            Apply(n, QueueOf(kept), op) == QueueOf(kept')
  {
    hide Puts, Takes;
    CountsStep(kept, op);
  }

  /** The operations not refused say all there is to know: they are balanced, and the queue is the one
      they leave. */
  lemma {:induction false} QueueOfKept(n: nat, ops: seq<Op>)
    ensures var kept := Kept(n, ops);
            Balanced(n, kept) && Within(n, kept) && After(n, ops) == QueueOf(kept)
  {
    hide Puts, Takes;
    NothingYet(n);
    if ops != [] {
      var m := |ops| - 1;
      var kept, op := Kept(n, ops[..m]), ops[m];
      QueueOfKept(n, ops[..m]);
      ApplyKept(n, kept, op);
      BalancedStep(n, kept, op);
    }
  }

  lemma NothingYet(n: nat)
    ensures Puts([]) == [] && Takes([]) == 0 && Balanced(n, [])
  {
  }

  lemma BalancedStep(n: nat, ops: seq<Op>, op: Op)
    requires Balanced(n, ops)
    ensures Balanced(n, ops + [op]) <==> Within(n, ops + [op])
  {
    hide Within;
    var more := ops + [op];
    assert more[..|more|] == more;
    forall k | 0 <= k <= |ops| ensures more[..k] == ops[..k] {
    }
  }

  /** A history is refused nothing exactly if it is balanced. */
  lemma {:induction false} NothingRefused(n: nat, ops: seq<Op>)
    ensures Kept(n, ops) == ops <==> Balanced(n, ops)
    ensures |Kept(n, ops)| <= |ops|
  {
    hide Within;
    NothingYet(n);
    if ops != [] {
      var m := |ops| - 1;
      NothingRefused(n, ops[..m]);
      assert ops == ops[..m] + [ops[m]];
      if Balanced(n, ops) {
        BalancedPrefix(n, ops, m);
        BalancedStep(n, ops[..m], ops[m]);
      } else if Balanced(n, ops[..m]) {
        BalancedStep(n, ops[..m], ops[m]);
      }
    }
  }

  lemma BalancedPrefix(n: nat, ops: seq<Op>, m: nat)
    requires Balanced(n, ops) && m <= |ops|
    ensures Balanced(n, ops[..m])
  {
    forall k | 0 <= k <= m ensures ops[..m][..k] == ops[..k] {
    }
  }

  /** First in, first out, over any balanced history: every value put is accepted, those taken are the
      first put, in order, and the rest is still there. */
  lemma BalancedFifo(n: nat, ops: seq<Op>)
    requires Balanced(n, ops)
    ensures Takes(ops) <= |Puts(ops)|
    ensures After(n, ops) == QueueOf(ops)
  {
    NothingRefused(n, ops);
    QueueOfKept(n, ops);
  }

  /** What the takes of a history return, one after the other. */
  function Results(n: nat, ops: seq<Op>): seq<int> {
    if ops == [] then []
    else
      var m := |ops| - 1;
      Results(n, ops[..m]) + if ops[m].Take? then [FrontOf(After(n, ops[..m]))] else []
  }

  function FrontOf(q: Queue): int {
    if q.contents == [] then EMPTY else q.contents[0]
  }

  lemma ResultsStep(n: nat, ops: seq<Op>, op: Op)
    ensures Results(n, ops + [op]) == Results(n, ops) + if op.Take? then [FrontOf(After(n, ops))] else []
  {
    assert (ops + [op])[..|ops|] == ops;
  }

  /** In a balanced history the takes return the first values put, in order. */
  lemma {:induction false} BalancedResults(n: nat, ops: seq<Op>)
    requires Balanced(n, ops)
    ensures Takes(ops) <= |Puts(ops)| && Results(n, ops) == Puts(ops)[..Takes(ops)]
  {
    hide Puts, Takes;
    NothingYet(n);
    BalancedFifo(n, ops);
    if ops != [] {
      var m := |ops| - 1;
      BalancedPrefix(n, ops, m);
      BalancedResults(n, ops[..m]);
      BalancedFifo(n, ops[..m]);
      assert ops == ops[..m] + [ops[m]];
      CountsStep(ops[..m], ops[m]);
    }
  }

  /** Any history on a fresh buffer: it ends as the queue does, and its array shows the latest values
      accepted.  The reads return what the queue gives out, so in a balanced history the first values
      put, in order. */
  method Perform(capacity: nat, ops: seq<Op>) returns (b: Buffer, results: seq<int>)
    requires capacity > 0
    ensures b.Valid() && b.buffer.Length == capacity
    ensures var q := After(capacity, ops);
            b.Contents() == q.contents && b.accepted == q.accepted && b.taken == q.taken
    ensures forall j | 0 <= j < capacity :: b.buffer[j] == SlotAfter(capacity, After(capacity, ops).accepted, j)
    ensures results == Results(capacity, ops)
    ensures Balanced(capacity, ops) ==> Takes(ops) <= |Puts(ops)| && results == Puts(ops)[..Takes(ops)]
  {
    hide Puts, Takes, Balanced, SlotAfter, Results;
    b := new Buffer(capacity);
    results := [];
    NoResults(capacity);
    for i := 0 to |ops|
      invariant fresh(b) && fresh(b.buffer) && b.Valid() && b.buffer.Length == capacity
      invariant var q := After(capacity, ops[..i]);
                b.Contents() == q.contents && b.accepted == q.accepted && b.taken == q.taken
      invariant results == Results(capacity, ops[..i])
    {
      assert ops[..i + 1][..i] == ops[..i];
      assert ops[..i + 1] == ops[..i] + [ops[i]];
      ResultsStep(capacity, ops[..i], ops[i]);
      match ops[i]
      case Put(v) => b.Write(v);
      case Take =>
        var _, value := b.Read();
        results := results + [value];
    }
    assert ops[..|ops|] == ops;
    if Balanced(capacity, ops) {
      BalancedResults(capacity, ops);
    }
  }

  lemma NoResults(n: nat)
    ensures Results(n, []) == []
  {
  }
}
