/** The message device: a cursor into a NUL-terminated message, moved by reads and rewound when it
    has reached the end, so that the reads of a whole session spell the message over and over. */
module MessageDevice {

  import opened Octets
  import opened Division

  /** Where byte number `k` of the endless repetition of a message of `n` bytes stands in it. */
  function Spot(k: nat, n: nat): (r: nat)
    requires n > 0
    ensures r < n
  {
    k % n
  }

  lemma SpotStep(k: nat, i: nat, n: nat)
    requires n > 0 && Spot(k, n) + i <= n
    ensures Spot(k + i, n) == if Spot(k, n) + i == n then 0 else Spot(k, n) + i
  {
    WrapStep(k, i, n);
  }

  /** What became of one byte of the repetition: handed to the reader, or lost to a faulting put. */
  datatype Fate = Delivered(b: byte) | Lost

  /** The bytes the reader has, in order. */
  function Received(fates: seq<Fate>): seq<byte> {
    if fates == [] then []
    else
      var last := fates[|fates| - 1];
      Received(fates[..|fates| - 1]) + if last.Delivered? then [last.b] else []
  }

  function Losses(fates: seq<Fate>): nat {
    if fates == [] then 0
    else Losses(fates[..|fates| - 1]) + if fates[|fates| - 1].Lost? then 1 else 0
  }

  /** Each byte delivered is the one the endless repetition of the message has at its place. */
  ghost predicate Cyclic(message: seq<byte>, fates: seq<Fate>)
    requires message != []
  {
    forall k | 0 <= k < |fates| && fates[k].Delivered? :: fates[k].b == message[Spot(k, |message|)]
  }

  lemma CyclicStep(message: seq<byte>, fates: seq<Fate>, next: Fate)
    requires message != [] && Cyclic(message, fates)
    requires next.Delivered? ==> next.b == message[Spot(|fates|, |message|)]
    ensures Cyclic(message, fates + [next])
  {
  }

  /** Exactly one byte of the repetition is skipped per fault: the byte received after `i` others and
      `f` faults is number i + f of the repetition. */
  lemma {:induction false} OneByteLostPerFault(message: seq<byte>, fates: seq<Fate>, k: nat)
    requires message != [] && Cyclic(message, fates) && k < |fates| && fates[k].Delivered?
    ensures var i, f := |Received(fates[..k])|, Losses(fates[..k]);
            && k == i + f && i < |Received(fates)|
            && Received(fates)[i] == message[Spot(i + f, |message|)]
    decreases |fates|
  {
    ReceivedAndLost(fates[..k]);
    if k == |fates| - 1 {
    } else {
      var shorter := fates[..|fates| - 1];
      assert shorter[..k] == fates[..k];
      OneByteLostPerFault(message, shorter, k);
    }
  }

  lemma {:induction false} ReceivedAndLost(fates: seq<Fate>)
    ensures |fates| == |Received(fates)| + Losses(fates)
    decreases |fates|
  {
    if fates != [] {
      ReceivedAndLost(fates[..|fates| - 1]);
    }
  }

  /** Which byte of the repetition became the i-th one received. */
  ghost function FateOf(fates: seq<Fate>, i: nat): (k: nat)
    requires i < |Received(fates)|
    ensures k < |fates| && fates[k].Delivered? && |Received(fates[..k])| == i
  {
    var m := |fates| - 1;
    if i == |Received(fates[..m])| then m
    else
      var k := FateOf(fates[..m], i);
      assert fates[..m][..k] == fates[..k];
      k
  }

  /** How many bytes were lost before the i-th one received. */
  ghost function LostBefore(fates: seq<Fate>, i: nat): nat
    requires i < |Received(fates)|
  {
    Losses(fates[..FateOf(fates, i)])
  }

  /** Later bytes have at least the losses of earlier ones before them: the stream never steps back. */
  lemma LossesAddUp(fates: seq<Fate>, i: nat, j: nat)
    requires i <= j < |Received(fates)|
    ensures LostBefore(fates, i) <= LostBefore(fates, j) <= Losses(fates)
  {
    hide Received, Losses, FateOf;
    var k, k' := FateOf(fates, i), FateOf(fates, j);
    Prefix(fates, k');
    if k <= k' {
      Prefix(fates[..k'], k);
      assert fates[..k'][..k] == fates[..k];
    } else {
      Prefix(fates[..k], k');
      assert fates[..k][..k'] == fates[..k'];
    }
  }

  lemma Prefix(fates: seq<Fate>, k: nat)
    requires k <= |fates|
    ensures Received(fates[..k]) <= Received(fates) && Losses(fates[..k]) <= Losses(fates)
  {
    hide Received, Losses;
    ReceivedAppend(fates[..k], fates[k..]);
    assert fates == fates[..k] + fates[k..];
  }

  /** One stretch of the repetition after another: what is received and what is lost add up. */
  lemma {:induction false} ReceivedAppend(a: seq<Fate>, b: seq<Fate>)
    ensures Received(a + b) == Received(a) + Received(b)
    ensures Losses(a + b) == Losses(a) + Losses(b)
    decreases |b|
  {
    if b == [] {
      assert a + b == a;
    } else {
      var m := |b| - 1;
      ReceivedAppend(a, b[..m]);
      assert (a + b)[..|a| + m] == a + b[..m];
    }
  }

  lemma {:induction false} ReceivedOfDelivered(bytes: seq<byte>)
    ensures Received(AllDelivered(bytes)) == bytes && Losses(AllDelivered(bytes)) == 0
    decreases |bytes|
  {
    if bytes != [] {
      var m := |bytes| - 1;
      ReceivedOfDelivered(bytes[..m]);
      OneMoreDelivered(bytes[..m], bytes[m]);
      assert bytes == bytes[..m] + [bytes[m]];
      assert AllDelivered(bytes)[..m] == AllDelivered(bytes[..m]);
    }
  }

  /** What one read adds: the bytes in the buffer, and a loss if it faulted. */
  lemma AfterRead(fates: seq<Fate>, bytes: seq<byte>, faulted: bool)
    ensures var after := fates + AllDelivered(bytes) + if faulted then [Lost] else [];
            && Received(after) == Received(fates) + bytes
            && Losses(after) == Losses(fates) + if faulted then 1 else 0
  {
    ReceivedOfDelivered(bytes);
    ReceivedAppend(fates, AllDelivered(bytes));
    ReceivedAppend(fates + AllDelivered(bytes), [Lost]);
    assert fates + AllDelivered(bytes) + [] == fates + AllDelivered(bytes);
  }

  lemma ReceivedStep(fates: seq<Fate>)
    ensures fates == [] ==> Received(fates) == [] && Losses(fates) == 0
    ensures fates != [] ==>
              var m := |fates| - 1;
              && Received(fates) == Received(fates[..m]) + (if fates[m].Delivered? then [fates[m].b] else [])
              && Losses(fates) == Losses(fates[..m]) + if fates[m].Lost? then 1 else 0
  {
  }

  /** Without faults the reader has a prefix of the endless repetition. */
  lemma {:induction false} NoFaultsNoGaps(message: seq<byte>, fates: seq<Fate>)
    requires message != [] && Cyclic(message, fates) && Losses(fates) == 0
    ensures |Received(fates)| == |fates|
    ensures forall k | 0 <= k < |fates| :: Received(fates)[k] == message[Spot(k, |message|)]
    decreases |fates|
  {
    hide Spot, Received, Losses;
    ReceivedStep(fates);
    if fates != [] {
      NoFaultsNoGaps(message, fates[..|fates| - 1]);
    }
  }

  /** Delivered one after the other. */
  function AllDelivered(bytes: seq<byte>): (fates: seq<Fate>)
    ensures |fates| == |bytes| && forall i | 0 <= i < |bytes| :: fates[i] == Delivered(bytes[i])
  {
    seq(|bytes|, i requires 0 <= i < |bytes| => Delivered(bytes[i]))
  }

  lemma OneMoreDelivered(bytes: seq<byte>, b: byte)
    ensures AllDelivered(bytes + [b]) == AllDelivered(bytes) + [Delivered(b)]
  {
  }

  lemma OneMoreInBuffer(before: seq<byte>, n: nat, b: byte)
    requires n < |before|
    ensures var after := before[n := b];
            && AllDelivered(after[..n + 1]) == AllDelivered(before[..n]) + [Delivered(b)]
            && after[n + 1..] == before[n..][1..]
  {
    OneMoreDelivered(before[..n], b);
    assert before[n := b][..n + 1] == before[..n] + [b];
  }

  /** The user's memory: it decides which puts fault, the k-th put of all by `faulty(k)`. */
  class User {
    const faulty: nat -> bool
    var puts: nat

    constructor (faulty: nat -> bool)
      ensures this.faulty == faulty && puts == 0
    {
      this.faulty := faulty;
      puts := 0;
    }

    /** put_user of one byte; a put past the user's buffer faults as well. */
    method Put(buf: array<byte>, at: nat, value: byte) returns (fault: bool)
      modifies this, buf
      ensures puts == old(puts) + 1
      ensures fault <==> faulty(old(puts)) || at >= buf.Length
      ensures buf[..] == if fault then old(buf[..]) else old(buf[..])[at := value]
    {
      fault := faulty(puts) || at >= buf.Length;
      puts := puts + 1;
      if !fault {
        buf[at] := value;
      }
    }
  }

  /** How many of `want` bytes get into a buffer of `room` bytes when the first of their puts is number
      `k`: all, or those before the first put that faults. */
  ghost predicate GetsThrough(faulty: nat -> bool, k: nat, want: nat, room: nat, n: nat) {
    && n <= want && n <= room
    && (forall j | k <= j < k + n :: !faulty(j))
    && (n < want ==> n == room || faulty(k + n))
  }

  /** That number is determined. */
  lemma GetsThroughUnique(faulty: nat -> bool, k: nat, want: nat, room: nat, n: nat, n': nat)
    requires GetsThrough(faulty, k, want, room, n) && GetsThrough(faulty, k, want, room, n')
    ensures n == n'
  {
  }

  /** All of them got through so far: the count stands if that is all or the next put faults. */
  lemma Through(faulty: nat -> bool, k: nat, want: nat, room: nat, n: nat)
    requires n <= want && n <= room && forall j | k <= j < k + n :: !faulty(j)
    requires n == want || n == room || faulty(k + n)
    ensures GetsThrough(faulty, k, want, room, n)
  {
  }

  /** How many bytes a read is for: those asked for, up to the end of the message. */
  function Asked(message: seq<byte>, k: nat, len: nat): nat
    requires message != []
  {
    var left := |message| - Spot(k, |message|);
    if len < left then len else left
  }

  class Device {
    const message: seq<byte>
    // the message and its terminating NUL
    const text: array<byte>
    // the pointer into the text, as an index
    var cursor: nat
    var openCount: int

    // what became of each byte of the repetition so far
    ghost var fates: seq<Fate>

    ghost predicate Valid()
      reads this, text
    {
      && message != [] && (forall i | 0 <= i < |message| :: message[i] != 0)
      && text.Length == |message| + 1
      && (forall i | 0 <= i < |message| :: text[i] == message[i]) && text[|message|] == 0
      && cursor <= |message|
      && cursor == (if Spot(|fates|, |message|) == 0 && cursor != 0 then |message| else Spot(|fates|, |message|))
      && Cyclic(message, fates)
    }

    /** The set-up: the text is the message, NUL-terminated, and the cursor is at its start. */
    constructor (message: seq<byte>)
      requires message != [] && 0 !in message
      ensures Valid() && fresh(text) && this.message == message
      ensures cursor == 0 && openCount == 0 && fates == []
    {
      this.message := message;
      var full := message + [0];
      text := new byte[|full|](i requires 0 <= i < |full| => full[i]);
      cursor, openCount := 0, 0;
      fates := [];
    }

    /** Only one opening at a time; the cursor stays where it is. */
    method Open() returns (busy: bool)
      requires Valid()
      modifies `openCount
      ensures Valid() && cursor == old(cursor) && fates == old(fates)
      ensures busy <==> old(openCount) > 0
      ensures openCount == old(openCount) + if busy then 0 else 1
    {
      busy := openCount > 0;
      if !busy {
        openCount := openCount + 1;
      }
    }

    method Release()
      requires Valid()
      modifies `openCount
      ensures Valid() && cursor == old(cursor) && fates == old(fates)
      ensures openCount == old(openCount) - 1
    {
      openCount := openCount - 1;
    }

    /** Hands the byte under the cursor to the user; the cursor moves on whether the put faults or not. */
    method Put(user: User, buf: array<byte>, at: nat) returns (fault: bool)
      requires Valid() && buf != text && cursor < |message|
      modifies `cursor, `fates, user, buf
      ensures Valid() && cursor == old(cursor) + 1 && user.puts == old(user.puts) + 1
      ensures fault <==> user.faulty(old(user.puts)) || at >= buf.Length
      ensures fault ==> fates == old(fates) + [Lost] && buf[..] == old(buf[..])
      ensures !fault ==>
                && buf[..] == old(buf[..])[at := message[old(cursor)]]
                && fates == old(fates) + [Delivered(message[old(cursor)])]
    {
      hide Spot, Cyclic;
      SpotStep(|fates|, 0, |message|);
      SpotStep(|fates|, 1, |message|);
      var value := text[cursor];
      cursor := cursor + 1;
      fault := user.Put(buf, at, value);
      ghost var fate := if fault then Lost else Delivered(value);
      CyclicStep(message, fates, fate);
      fates := fates + [fate];
    }

    /** A cursor at the terminating NUL goes back to the start, where the repetition goes on. */
    method Rewind()
      requires Valid()
      modifies `cursor
      ensures Valid() && cursor == Spot(|fates|, |message|)
    {
      hide Spot, Cyclic;
      if text[cursor] == 0 {
        cursor := 0;
      }
    }

    /** The NUL under the cursor is the end of the message. */
    lemma NulEnds()
      requires Valid()
      ensures cursor < text.Length && cursor <= |message| && (text[cursor] == 0 <==> cursor == |message|)
    {
    }

    /** Hands over bytes until `len` of them are delivered, the message ends or a put faults. */
    method Read(user: User, buf: array<byte>, len: nat) returns (bytesRead: nat, ghost faulted: bool)
      requires Valid() && buf != text
      modifies `cursor, `fates, user, buf
      ensures Valid()
      ensures var want := Asked(message, |old(fates)|, len);
              && GetsThrough(user.faulty, old(user.puts), want, buf.Length, bytesRead)
              && (faulted <==> bytesRead < want)
      ensures user.puts == old(user.puts) + bytesRead + if faulted then 1 else 0
      ensures bytesRead <= buf.Length
      ensures fates == old(fates) + AllDelivered(buf[..bytesRead]) + if faulted then [Lost] else []
      ensures buf[bytesRead..] == old(buf[bytesRead..])
    {
      hide Spot, Cyclic, AllDelivered, GetsThrough, Device.Valid;
      bytesRead, faulted := 0, false;
      Rewind();
      NulEnds();
      ghost var from := cursor;
      var todo := len;
      while todo != 0 && text[cursor] != 0
        invariant Valid() && cursor == from + bytesRead
        invariant cursor < text.Length && cursor <= |message| && (text[cursor] == 0 <==> cursor == |message|)
        invariant todo >= 0 && todo + bytesRead == len && bytesRead <= buf.Length
        invariant user.puts == old(user.puts) + bytesRead
        invariant forall j | old(user.puts) <= j < user.puts :: !user.faulty(j)
        invariant fates == old(fates) + AllDelivered(buf[..bytesRead])
        invariant buf[bytesRead..] == old(buf[bytesRead..])
        decreases todo
      {
        ghost var before := buf[..];
        var fault := Put(user, buf, bytesRead);
        NulEnds();
        if fault {
          faulted := true;
          Through(user.faulty, user.puts - 1 - bytesRead, Asked(message, |old(fates)|, len), buf.Length, bytesRead);
          return;
        }
        todo := todo - 1;
        bytesRead := bytesRead + 1;
        OneMoreInBuffer(before, bytesRead - 1, message[cursor - 1]);
      }
      Through(user.faulty, user.puts - bytesRead, bytesRead, buf.Length, bytesRead);
    }
  }

  // ---- whole sessions ----

  /** A file operation on the device; a read comes with a user buffer of `room` bytes. */
  datatype Request = OpenDevice | ReadBytes(len: nat, room: nat) | ReleaseDevice

  /** What a read handed over and whether a put of it faulted; whether an open found the device busy. */
  datatype Answer = Answer(bytes: seq<byte>, faulted: bool, busy: bool)

  const NOTHING := Answer([], false, false)

  /** The answer a request gets when the next byte of the repetition, and so the next put, is number `k`
      and the device is open `open` times. */
  ghost predicate Fits(message: seq<byte>, faulty: nat -> bool, k: nat, open: int, request: Request, answer: Answer)
    requires message != []
  {
    match request
    case ReadBytes(len, room) =>
      var n, want := |answer.bytes|, Asked(message, k, len);
      GetsThrough(faulty, k, want, room, n) && (answer.faulted <==> n < want) && !answer.busy
    case OpenDevice => answer == NOTHING.(busy := open > 0)
    case ReleaseDevice => answer == NOTHING
  }

  /** How often the device is open: the opens that found it free, less the releases. */
  function OpenNow(requests: seq<Request>, answers: seq<Answer>): int
    requires |requests| == |answers|
  {
    if requests == [] then 0
    else
      var m := |requests| - 1;
      OpenNow(requests[..m], answers[..m])
      + match requests[m]
        case OpenDevice => if answers[m].busy then 0 else 1
        case ReleaseDevice => -1
        case ReadBytes(_, _) => 0
  }

  /** What the answers, in order, have made of the repetition. */
  function History(answers: seq<Answer>): seq<Fate> {
    if answers == [] then []
    else
      var m := |answers| - 1;
      History(answers[..m]) + AllDelivered(answers[m].bytes) + if answers[m].faulted then [Lost] else []
  }

  /** The bytes of all reads together, and how many of them faulted. */
  function Output(answers: seq<Answer>): seq<byte> {
    if answers == [] then [] else Output(answers[..|answers| - 1]) + answers[|answers| - 1].bytes
  }

  function Faults(answers: seq<Answer>): nat {
    if answers == [] then 0
    else Faults(answers[..|answers| - 1]) + if answers[|answers| - 1].faulted then 1 else 0
  }

  /** The output is what is received, and each fault is one loss. */
  lemma {:induction false} OutputReceived(answers: seq<Answer>)
    ensures Output(answers) == Received(History(answers)) && Faults(answers) == Losses(History(answers))
    decreases |answers|
  {
    hide Received, Losses;
    NothingYet();
    if answers != [] {
      var m := |answers| - 1;
      OutputReceived(answers[..m]);
      AfterRead(History(answers[..m]), answers[m].bytes, answers[m].faulted);
    }
  }

  /** The answers to requests on a fresh device. */
  ghost predicate Answered(message: seq<byte>, faulty: nat -> bool, requests: seq<Request>, answers: seq<Answer>)
    requires message != []
  {
    && |answers| == |requests|
    && forall c | 0 <= c < |answers| :: AnsweredAt(message, faulty, requests, answers, c)
  }

  ghost predicate AnsweredAt(message: seq<byte>, faulty: nat -> bool, requests: seq<Request>, answers: seq<Answer>,
                             c: nat)
    requires message != [] && c < |answers| == |requests|
  {
    Fits(message, faulty, |History(answers[..c])|, OpenNow(requests[..c], answers[..c]), requests[c], answers[c])
  }

  lemma OneMoreAnswer(message: seq<byte>, faulty: nat -> bool, requests: seq<Request>, answers: seq<Answer>,
                      request: Request, answer: Answer)
    requires message != [] && Answered(message, faulty, requests, answers)
    requires Fits(message, faulty, |History(answers)|, OpenNow(requests, answers), request, answer)
    ensures Answered(message, faulty, requests + [request], answers + [answer])
    ensures Output(answers + [answer]) == Output(answers) + answer.bytes
    ensures History(answers + [answer]) ==
            History(answers) + AllDelivered(answer.bytes) + if answer.faulted then [Lost] else []
  {
    hide Fits, History, Output, OpenNow;
    var asked, more := requests + [request], answers + [answer];
    assert asked[..|requests|] == requests && more[..|answers|] == answers;
    forall c | 0 <= c < |more| ensures AnsweredAt(message, faulty, asked, more, c) {
      if c < |answers| {
        assert AnsweredAt(message, faulty, requests, answers, c);
        assert more[..c] == answers[..c] && asked[..c] == requests[..c];
      }
    }
    HistoryStep(more);
  }

  lemma OpenStep(requests: seq<Request>, answers: seq<Answer>, request: Request, answer: Answer)
    requires |requests| == |answers|
    ensures OpenNow(requests + [request], answers + [answer]) == OpenNow(requests, answers) +
            match request
            case OpenDevice => if answer.busy then 0 else 1
            case ReleaseDevice => -1
            case ReadBytes(_, _) => 0
  {
    assert (requests + [request])[..|requests|] == requests && (answers + [answer])[..|answers|] == answers;
  }

  /** Two openings never overlap. */
  lemma {:induction false} OpenAtMostOnce(message: seq<byte>, faulty: nat -> bool,
                                          requests: seq<Request>, answers: seq<Answer>)
    requires message != [] && Answered(message, faulty, requests, answers)
    ensures OpenNow(requests, answers) <= 1
    decreases |requests|
  {
    hide History;
    if requests != [] {
      var m := |requests| - 1;
      forall c | 0 <= c < m ensures AnsweredAt(message, faulty, requests[..m], answers[..m], c) {
        assert AnsweredAt(message, faulty, requests, answers, c);
        assert answers[..m][..c] == answers[..c] && requests[..m][..c] == requests[..c];
      }
      OpenAtMostOnce(message, faulty, requests[..m], answers[..m]);
      assert AnsweredAt(message, faulty, requests, answers, m);
    }
  }

  lemma HistoryStep(answers: seq<Answer>)
    requires answers != []
    ensures var m := |answers| - 1;
            && Output(answers) == Output(answers[..m]) + answers[m].bytes
            && History(answers) ==
               History(answers[..m]) + AllDelivered(answers[m].bytes) + if answers[m].faulted then [Lost] else []
  {
  }

  /** Any sequence of opens, reads and releases from the set-up on, with puts faulting as the user's
      memory has it: each read delivers all it is for or stops at the first put that faults, and the
      output of all reads together spells the endless repetition of the message, except that each
      read that faulted skips exactly one byte of it. */
  method Session(message: seq<byte>, faulty: nat -> bool, requests: seq<Request>)
      returns (out: seq<byte>, d: Device, ghost answers: seq<Answer>)
    requires message != [] && 0 !in message
    ensures d.Valid() && d.message == message && d.fates == History(answers)
    ensures Answered(message, faulty, requests, answers) && out == Output(answers)
    ensures d.openCount == OpenNow(requests, answers) <= 1
    ensures forall i | 0 <= i < |out| ::
              i < |Received(d.fates)| && out[i] == message[Spot(i + LostBefore(d.fates, i), |message|)]
    ensures Faults(answers) == 0 ==> forall i | 0 <= i < |out| :: out[i] == message[Spot(i, |message|)]
    ensures d.cursor <= |message| && d.cursor % |message| == (|out| + Faults(answers)) % |message|
  {
    hide Received, Losses, Cyclic, LostBefore, Spot, AllDelivered, Answered, GetsThrough, Asked;
    hide History, Output, Faults, OpenNow;
    d := new Device(message);
    var user := new User(faulty);
    out, answers := [], [];
    NoAnswers(message, faulty);
    for c := 0 to |requests|
      invariant fresh(d) && fresh(d.text) && fresh(user) && d.Valid() && d.message == message
      invariant user.faulty == faulty && user.puts == |d.fates|
      invariant d.fates == History(answers) && Answered(message, faulty, requests[..c], answers)
      invariant out == Output(answers) && |answers| == c && d.openCount == OpenNow(requests[..c], answers)
    {
      ghost var answer := NOTHING;
      match requests[c] {
        case OpenDevice =>
          var busy := d.Open();
          answer := NOTHING.(busy := busy);
        case ReleaseDevice => d.Release();
        case ReadBytes(len, room) =>
          var buf := new byte[room];
          var bytesRead, faulted := d.Read(user, buf, len);
          out := out + buf[..bytesRead];
          answer := Answer(buf[..bytesRead], faulted, false);
      }
      OneMoreAnswer(message, faulty, requests[..c], answers, requests[c], answer);
      OpenStep(requests[..c], answers, requests[c], answer);
      answers := answers + [answer];
      assert requests[..c + 1] == requests[..c] + [requests[c]];
    }
    assert requests[..|requests|] == requests;
    OpenAtMostOnce(message, faulty, requests, answers);
    OutputReceived(answers);
    SpellsMessage(message, d.fates);
    ReceivedAndLost(d.fates);
    CursorPlace(d.cursor, |d.fates|, |message|);
  }

  lemma NoAnswers(message: seq<byte>, faulty: nat -> bool)
    requires message != []
    ensures Answered(message, faulty, [], []) && History([]) == [] && Output([]) == [] && OpenNow([], []) == 0
  {
  }

  lemma NothingYet()
    ensures Received([]) == [] && Losses([]) == 0
  {
  }

  lemma SpellsAt(message: seq<byte>, fates: seq<Fate>, i: nat)
    requires message != [] && Cyclic(message, fates) && i < |Received(fates)|
    ensures Received(fates)[i] == message[Spot(i + LostBefore(fates, i), |message|)]
  {
    hide Spot, Received, Losses, Cyclic;
    OneByteLostPerFault(message, fates, FateOf(fates, i));
  }

  lemma SpellsMessage(message: seq<byte>, fates: seq<Fate>)
    requires message != [] && Cyclic(message, fates)
    ensures var out := Received(fates);
            && (forall i | 0 <= i < |out| :: out[i] == message[Spot(i + LostBefore(fates, i), |message|)])
            && (Losses(fates) == 0 ==> forall i | 0 <= i < |out| :: out[i] == message[Spot(i, |message|)])
  {
    hide Spot, Received, Losses, LostBefore, Cyclic;
    forall i | 0 <= i < |Received(fates)|
      ensures Received(fates)[i] == message[Spot(i + LostBefore(fates, i), |message|)]
    {
      SpellsAt(message, fates, i);
    }
    if Losses(fates) == 0 {
      NoFaultsNoGaps(message, fates);
    }
  }

  /** The cursor stands at the place of the next byte of the repetition, or at the end where that is
      about to start over. */
  lemma CursorPlace(cursor: nat, k: nat, n: nat)
    requires n > 0 && cursor <= n
    requires cursor == if Spot(k, n) == 0 && cursor != 0 then n else Spot(k, n)
    ensures cursor % n == k % n
  {
    if cursor == n {
      DivModUnique(cursor, n, 1, 0);
    } else {
      DivModUnique(cursor, n, 0, cursor);
    }
  }
}
