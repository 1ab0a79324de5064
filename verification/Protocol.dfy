/** The device under concurrency: any number of tasks issue reads and writes, each reads the sizes,
    waits for the semaphore, works through its operation in small steps and gives the semaphore back.
    The semaphore makes every interleaving equal to some order of whole operations. */
module Protocol {
  import opened Addressing
  import opened Octets
  import opened SparseStore

  datatype Request = ReadRequest(pos: nat, count: nat) | WriteRequest(pos: nat, buf: seq<byte>)

  /** How far the holder of the semaphore has come. */
  datatype Stage =
    | Checking                                   // a read compares its position with the size
    | Walking                                    // the list is followed, node by node
    | AtArray                                    // the item's pointer array is looked up
    | AtQuantum                                  // the slot's quantum is looked up
    | Copying                                    // the user copy is due
    | Counting(n: nat)                           // a write has copied n bytes, the size is due
    | Finished(reply: Reply, data: seq<byte>)

  datatype Phase =
    | Waiting(req: Request, sizes: Geometry, began: nat)
    | Holding(req: Request, sizes: Geometry, began: nat, stage: Stage)
    | Returning(answer: Event, entry: nat)

  /** An operation in the order the run amounts to: who, what, when it began and when it took effect. */
  datatype Entry = Entry(task: nat, event: Event, began: nat, took: nat)

  /** The container's fields, which tasks are in a call, and the history kept for the proof: the operations
      that took effect, the stores between them, and when calls returned. */
  datatype System = System(
    store: Store, quantum: nat, qset: nat, sem: nat,
    tasks: map<nat, Phase>,
    log: seq<Entry>, past: seq<Store>, returned: map<nat, nat>, clock: nat)

  datatype Action =
    | Begin(req: Request)
    | Interrupt
    | Acquire
    | Work(fails: bool)
    | Release
    | Return
    | TrimOnOpen

  datatype Move = Move(task: nat, action: Action)

  function EventOf(req: Request, reply: Reply, data: seq<byte>): Event {
    match req
    case ReadRequest(pos, count) => Read(pos, count, reply, data)
    case WriteRequest(pos, buf) => Write(pos, buf, reply)
  }

  function Events(log: seq<Entry>): (es: seq<Event>)
    ensures |es| == |log| && forall i | 0 <= i < |es| :: es[i] == log[i].event
  {
    seq(|log|, i requires 0 <= i < |log| => log[i].event)
  }

  /** The store as the last completed operation left it. */
  function Base(s: System): Store {
    if s.past == [] then s.store else s.past[|s.past| - 1]
  }

  function Holders(s: System): set<nat> {
    set t | t in s.tasks && s.tasks[t].Holding?
  }

  // ---- the steps ----

  /** One step of a write that holds the semaphore; every address comes from the sizes it read, and
      `item` is the list item it computed.  `fails` is what the allocator or the user copy decides, in
      the steps that use one. */
  ghost predicate WriteWork(g: Geo, item: nat, pos: nat, buf: seq<byte>, fails: bool,
                            stage: Stage, st: Store, stage': Stage, st': Store)
  {
    var pl, at := Place(item, Slot(g, pos)), Offset(g, pos);
    var n := WriteLength(g, pos, |buf|);
    match stage
    case Walking =>
      if item < st.length then !fails && stage' == AtArray && st' == st
      else if fails then stage' == Finished(NoMemory(ForNode), []) && st' == st
      else stage' == Walking && st' == st.(length := st.length + 1)
    case AtArray =>
      if fails then item !in st.arrays && stage' == Finished(NoMemory(ForArray), []) && st' == st
      else stage' == AtQuantum && st' == st.(arrays := st.arrays + {item})
    case AtQuantum =>
      if pl in st.quanta then !fails && stage' == Copying && st' == st
      else if fails then stage' == Finished(NoMemory(ForQuantum), []) && st' == st
      else
        && stage' == Copying
        && st' == st.(quanta := st'.quanta) && Overwritten(g, st.quanta, st'.quanta, pl, 0, 0)
    case Copying =>
      && st' == st.(quanta := st'.quanta)
      && Overwritten(g, st.quanta, st'.quanta, pl, at, at + n)
      && if fails then n > 0 && stage' == Finished(Fault, [])
         else stage' == Counting(n) && st'.quanta[pl][at..at + n] == buf[..n]
    case Counting(m) =>
      !fails && stage' == Finished(Done(m), []) && st' == st.(size := Max(st.size, pos + m))
    case _ => false
  }

  /** One step of a read that holds the semaphore. */
  ghost predicate ReadWork(g: Geo, item: nat, pos: nat, count: nat, fails: bool,
                           stage: Stage, st: Store, stage': Stage, st': Store)
  {
    var pl, at := Place(item, Slot(g, pos)), Offset(g, pos);
    match stage
    case Checking =>
      !fails && st' == st && stage' == if pos >= st.size then Finished(Done(0), []) else Walking
    case Walking =>
      if item < st.length then !fails && stage' == AtArray && st' == st
      else if fails then stage' == Finished(Done(0), []) && st' == st
      else stage' == Walking && st' == st.(length := st.length + 1)
    case AtArray =>
      !fails && st' == st && stage' == if item in st.arrays then AtQuantum else Finished(Done(0), [])
    case AtQuantum =>
      !fails && st' == st && stage' == if pl in st.quanta then Copying else Finished(Done(0), [])
    case Copying =>
      var n := Min(Min(count, st.size - pos), g.quantum - at);
      && st' == st && n >= 0 && pl in st.quanta && at + n <= |st.quanta[pl]|
      && if fails then n > 0 && stage' == Finished(Fault, [])
         else stage' == Finished(Done(n), st.quanta[pl][at..at + n])
    case _ => false
  }

  ghost predicate WorkStep(g: Geo, req: Request, fails: bool, stage: Stage, st: Store, stage': Stage, st': Store) {
    && ItemSize(g) < TWO31 && MachineItem(g, req.pos) >= 0
    && var item := MachineItem(g, req.pos);
       match req
       case ReadRequest(pos, count) => ReadWork(g, item, pos, count, fails, stage, st, stage', st')
       case WriteRequest(pos, buf) => WriteWork(g, item, pos, buf, fails, stage, st, stage', st')
  }

  function FirstStage(req: Request): Stage {
    if req.ReadRequest? then Checking else Walking
  }

  /** A task's action; `g` are the sizes a trim installs.  The positions asked for are those whose list
      item fits the driver's 32-bit variable.  Trimming happens on open, without the
      semaphore: it is taken to happen only while nobody holds it. */
  ghost predicate Next(g: Geo, s: System, t: nat, a: Action, s': System) {
    match a
    case Begin(req) =>
      && t !in s.tasks && InRange(g, req.pos)
      && s' == s.(tasks := s.tasks[t := Waiting(req, Geometry(s.quantum, s.qset), s.clock)], clock := s.clock + 1)
    case Interrupt =>
      && t in s.tasks && s.tasks[t].Waiting?
      && var w := s.tasks[t];
         s' == Logged(s, Entry(t, EventOf(w.req, Interrupted, []), w.began, s.clock), [Base(s)])
    case Acquire =>
      && t in s.tasks && s.tasks[t].Waiting? && s.sem > 0
      && var w := s.tasks[t];
         s' == s.(sem := s.sem - 1,
                  tasks := s.tasks[t := Holding(w.req, w.sizes, w.began, FirstStage(w.req))],
                  clock := s.clock + 1)
    case Work(fails) =>
      && t in s.tasks && s.tasks[t].Holding?
      && var h := s.tasks[t];
         && h.sizes.quantum > 0 && h.sizes.qset > 0
         && t in s'.tasks && s'.tasks[t].Holding?
         && s' == s.(store := s'.store, tasks := s.tasks[t := h.(stage := s'.tasks[t].stage)], clock := s.clock + 1)
         && WorkStep(h.sizes, h.req, fails, h.stage, s.store, s'.tasks[t].stage, s'.store)
    case Release =>
      && t in s.tasks && s.tasks[t].Holding? && s.tasks[t].stage.Finished?
      && var h := s.tasks[t];
         s' == Logged(s, Entry(t, EventOf(h.req, h.stage.reply, h.stage.data), h.began, s.clock), [s.store])
               .(sem := s.sem + 1)
    case Return =>
      && t in s.tasks && s.tasks[t].Returning?
      && s' == s.(tasks := s.tasks - {t}, returned := s.returned[s.tasks[t].entry := s.clock], clock := s.clock + 1)
    case TrimOnOpen =>
      && t !in s.tasks && Holders(s) == {}
      && s' == Logged(s, Entry(t, Open(true), s.clock, s.clock), [TRIMMED])
               .(store := TRIMMED, quantum := g.quantum, qset := g.qset)
  }

  /** The system once an operation has taken effect and its caller is about to return. */
  function Logged(s: System, e: Entry, after: seq<Store>): System {
    s.(tasks := s.tasks[e.task := Returning(e.event, |s.log|)],
       log := s.log + [e], past := s.past + after, clock := s.clock + 1)
  }

  predicate Init(g: Geo, s: System) {
    s == System(TRIMMED, g.quantum, g.qset, 1, map[], [], [TRIMMED], map[], 0)
  }

  /** An execution: every move is a step of the task that makes it. */
  ghost predicate Execution(g: Geo, run: seq<System>, moves: seq<Move>) {
    && |run| == |moves| + 1 && Init(g, run[0])
    && forall i | 0 <= i < |moves| :: MovesAt(g, run, moves, i)
  }

  ghost predicate MovesAt(g: Geo, run: seq<System>, moves: seq<Move>, i: nat)
    requires i < |moves| && i + 1 < |run|
  {
    Next(g, run[i], moves[i].task, moves[i].action, run[i + 1])
  }

  // ---- what holds at every stage of an operation ----

  /** What the holder has made of the store `base` it found. */
  ghost predicate WriteProgress(g: Geo, base: Store, pos: nat, buf: seq<byte>, stage: Stage, st: Store) {
    var item, pl, at := Item(g, pos), PlaceOf(g, pos), Offset(g, pos);
    var reached := Reached(base, item);
    match stage
    case Walking => base.length <= st.length <= Max(base.length, item + 1) && st == base.(length := st.length)
    case AtArray => st == base.(length := Max(base.length, item + 1))
    case AtQuantum => st == reached
    case Copying => st == reached.(quanta := st.quanta) && Overwritten(g, base.quanta, st.quanta, pl, 0, 0)
    case Counting(n) =>
      && n == WriteLength(g, pos, |buf|)
      && st == reached.(quanta := st.quanta) && Overwritten(g, base.quanta, st.quanta, pl, at, at + n)
      && st.quanta[pl][at..at + n] == buf[..n]
    case Finished(reply, data) => !reply.Interrupted? && WriteStep(g, base, pos, buf, reply, st)
    case _ => false
  }

  ghost predicate ReadProgress(g: Geo, base: Store, pos: nat, count: nat, stage: Stage, st: Store) {
    && st == base
    && match stage
       case Checking => true
       case Walking => pos < st.size
       case AtArray => pos < st.size
       case AtQuantum => pos < st.size
       case Copying => pos < st.size && PlaceOf(g, pos) in st.quanta
       case Finished(reply, data) => !reply.Interrupted? && ReadStep(g, base, pos, count, reply, data, st)
       case Counting(_) => false
  }

  ghost predicate Progress(g: Geo, base: Store, req: Request, stage: Stage, st: Store) {
    match req
    case ReadRequest(pos, count) => ReadProgress(g, base, pos, count, stage, st)
    case WriteRequest(pos, buf) => WriteProgress(g, base, pos, buf, stage, st)
  }

  lemma OverwrittenTwice(g: Geo, a: map<Place, seq<byte>>, b: map<Place, seq<byte>>, c: map<Place, seq<byte>>,
                         pl: Place, lo: nat, hi: nat)
    requires Overwritten(g, a, b, pl, 0, 0) && Overwritten(g, b, c, pl, lo, hi)
    ensures Overwritten(g, a, c, pl, lo, hi)
  {
    if pl in a {
      forall i | 0 <= i < g.quantum && i < |a[pl]| && !(lo <= i < hi) ensures c[pl][i] == a[pl][i] {
        assert b[pl][i] == a[pl][i];
      }
    }
  }

  lemma WriteWorkProgress(g: Geo, base: Store, pos: nat, buf: seq<byte>, fails: bool,
                          stage: Stage, st: Store, stage': Stage, st': Store)
    requires Ok(g, base) && WriteProgress(g, base, pos, buf, stage, st)
    requires WriteWork(g, Item(g, pos), pos, buf, fails, stage, st, stage', st')
    ensures WriteProgress(g, base, pos, buf, stage', st')
  {
    hide Overwritten, Item, Offset, Slot;
    var pl, at, n := PlaceOf(g, pos), Offset(g, pos), WriteLength(g, pos, |buf|);
    match stage
    case Walking =>
    case AtArray =>
    case AtQuantum =>
      if pl in st.quanta {
        UnchangedIsOverwritten(g, base, pl);
      }
    case Copying =>
      OverwrittenTwice(g, base.quanta, st.quanta, st'.quanta, pl, at, at + n);
    case Counting(_) =>
  }

  lemma UnchangedIsOverwritten(g: Geo, st: Store, pl: Place)
    requires Ok(g, st) && pl in st.quanta
    ensures Overwritten(g, st.quanta, st.quanta, pl, 0, 0)
  {
  }

  lemma ReadWorkProgress(g: Geo, base: Store, pos: nat, count: nat, fails: bool,
                         stage: Stage, st: Store, stage': Stage, st': Store)
    requires Ok(g, base) && ReadProgress(g, base, pos, count, stage, st)
    requires ReadWork(g, Item(g, pos), pos, count, fails, stage, st, stage', st')
    ensures ReadProgress(g, base, pos, count, stage', st')
  {
    if pos < st.size {
      ReadFindsItsNode(g, st, pos);
    }
  }

  /** No step of an operation leaves the path from the store it found to its result. */
  lemma WorkKeepsProgress(g: Geo, base: Store, req: Request, fails: bool,
                          stage: Stage, st: Store, stage': Stage, st': Store)
    requires Ok(g, base) && Progress(g, base, req, stage, st) && WorkStep(g, req, fails, stage, st, stage', st')
    requires InRange(g, req.pos)
    ensures Progress(g, base, req, stage', st')
  {
    MachineAddress(g, req.pos);
    match req
    case ReadRequest(pos, count) => ReadWorkProgress(g, base, pos, count, fails, stage, st, stage', st');
    case WriteRequest(pos, buf) => WriteWorkProgress(g, base, pos, buf, fails, stage, st, stage', st');
  }

  /** A failure ends the operation with an error, and nothing else does. */
  lemma FailureShows(g: Geo, base: Store, req: Request, fails: bool,
                     stage: Stage, st: Store, stage': Stage, st': Store)
    requires Ok(g, base) && Progress(g, base, req, stage, st) && WorkStep(g, req, fails, stage, st, stage', st')
    requires InRange(g, req.pos)
    ensures !stage.Finished? && (fails ==> stage'.Finished?)
    ensures stage'.Finished? ==> (stage'.reply.Done? <==> !fails)
  {
    hide Item, Overwritten;
    MachineAddress(g, req.pos);
    if req.ReadRequest? && req.pos < st.size {
      ReadFindsItsNode(g, st, req.pos);
    }
  }

  /** How many more steps the holder takes at most. */
  function StepsLeft(item: nat, stage: Stage, st: Store): nat {
    var missing := Max(0, item + 1 - st.length);
    match stage
    case Checking => 6 + missing
    case Walking => 5 + missing
    case AtArray => 4
    case AtQuantum => 3
    case Copying => 2
    case Counting(_) => 1
    case Finished(_, _) => 0
  }

  /** The holder is done after that many steps, so no operation keeps the semaphore forever. */
  lemma WorkCountsDown(g: Geo, req: Request, fails: bool, stage: Stage, st: Store, stage': Stage, st': Store)
    requires WorkStep(g, req, fails, stage, st, stage', st')
    ensures var item := MachineItem(g, req.pos);
            StepsLeft(item, stage', st') < StepsLeft(item, stage, st) <= item + 7
  {
    hide Overwritten, MachineItem;
  }

  /** A quantum that is there with its bytes in [at, at + |bytes|) replaced. */
  function Patched(g: Geo, quanta: map<Place, seq<byte>>, pl: Place, at: nat, bytes: seq<byte>): map<Place, seq<byte>>
    requires pl in quanta && at + |bytes| <= |quanta[pl]|
  {
    quanta[pl := quanta[pl][..at] + bytes + quanta[pl][at + |bytes|..]]
  }

  lemma ReadEnabled(g: Geo, base: Store, pos: nat, count: nat, stage: Stage, st: Store)
      returns (stage': Stage, st': Store)
    requires Ok(g, base) && ReadProgress(g, base, pos, count, stage, st) && !stage.Finished?
    ensures ReadWork(g, Item(g, pos), pos, count, false, stage, st, stage', st')
  {
    hide Item, Slot, Offset;
    AddressRoundTrip(g, pos);
    var item, pl, at := Item(g, pos), PlaceOf(g, pos), Offset(g, pos);
    st' := st;
    match stage
    case Checking => stage' := if pos >= st.size then Finished(Done(0), []) else Walking;
    case Walking =>
      if item < st.length {
        stage' := AtArray;
      } else {
        stage', st' := Walking, st.(length := st.length + 1);
      }
    case AtArray => stage' := if item in st.arrays then AtQuantum else Finished(Done(0), []);
    case AtQuantum => stage' := if pl in st.quanta then Copying else Finished(Done(0), []);
    case Copying =>
      var n := Min(Min(count, st.size - pos), g.quantum - at);
      stage' := Finished(Done(n), st.quanta[pl][at..at + n]);
  }

  lemma WriteEnabled(g: Geo, base: Store, pos: nat, buf: seq<byte>, stage: Stage, st: Store)
      returns (stage': Stage, st': Store)
    requires Ok(g, base) && WriteProgress(g, base, pos, buf, stage, st) && !stage.Finished?
    ensures WriteWork(g, Item(g, pos), pos, buf, false, stage, st, stage', st')
  {
    hide Item, Slot, Offset;
    AddressRoundTrip(g, pos);
    var item, pl, at := Item(g, pos), PlaceOf(g, pos), Offset(g, pos);
    st' := st;
    match stage
    case Walking =>
      if item < st.length {
        stage' := AtArray;
      } else {
        stage', st' := Walking, st.(length := st.length + 1);
      }
    case AtArray => stage', st' := AtQuantum, st.(arrays := st.arrays + {item});
    case AtQuantum =>
      stage' := Copying;
      if pl !in st.quanta {
        st' := st.(quanta := st.quanta[pl := seq(g.quantum, _ => 0)]);
      }
    case Copying =>
      var n := WriteLength(g, pos, |buf|);
      stage', st' := Counting(n), st.(quanta := Patched(g, st.quanta, pl, at, buf[..n]));
    case Counting(n) => stage', st' := Finished(Done(n), []), st.(size := Max(st.size, pos + n));
  }

  /** The holder can always take its next step, if nothing fails. */
  lemma WorkEnabled(g: Geo, base: Store, req: Request, stage: Stage, st: Store)
      returns (stage': Stage, st': Store)
    requires Ok(g, base) && Progress(g, base, req, stage, st) && InRange(g, req.pos) && !stage.Finished?
    ensures WorkStep(g, req, false, stage, st, stage', st')
  {
    MachineAddress(g, req.pos);
    match req
    case ReadRequest(pos, count) => stage', st' := ReadEnabled(g, base, pos, count, stage, st);
    case WriteRequest(pos, buf) => stage', st' := WriteEnabled(g, base, pos, buf, stage, st);
  }

  // ---- what holds in every reachable state ----

  /** The sizes a task has read are the ones the container still has. */
  ghost predicate FreshSizes(g: Geo, s: System) {
    && s.quantum == g.quantum && s.qset == g.qset
    && forall t | t in s.tasks && !s.tasks[t].Returning? ::
         s.tasks[t].sizes == g && InRange(g, s.tasks[t].req.pos)
  }

  /** The semaphore is free and nobody holds it, or it is taken and one task does. */
  ghost predicate Exclusive(s: System) {
    && s.sem <= 1
    && (s.sem == 0 <==> exists t :: t in s.tasks && s.tasks[t].Holding?)
    && forall t, u | t in s.tasks && u in s.tasks && s.tasks[t].Holding? && s.tasks[u].Holding? :: t == u
  }

  /** The operations that took effect form a sequential run from the trimmed store, and the store is
      what the last of them left, or is on the holder's way from there to its result. */
  ghost predicate Sequential(g: Geo, s: System) {
    && s.past != [] && Run(g, s.past, Events(s.log)) && s.past[0] == TRIMMED
    && (s.sem != 0 ==> s.store == Base(s))
    && forall t | t in s.tasks && s.tasks[t].Holding? ::
         Progress(g, Base(s), s.tasks[t].req, s.tasks[t].stage, s.store)
  }

  /** Operations take effect one after the other, each between its call's begin and its return. */
  ghost predicate Timely(s: System) {
    && (forall i | 0 <= i < |s.log| :: s.log[i].began <= s.log[i].took < s.clock)
    && (forall i, j | 0 <= i < j < |s.log| :: s.log[i].took < s.log[j].took)
    && (forall i | i in s.returned :: i < |s.log| && s.log[i].took < s.returned[i] < s.clock)
    && (forall t | t in s.tasks && !s.tasks[t].Returning? :: s.tasks[t].began < s.clock)
    && (forall t | t in s.tasks && s.tasks[t].Returning? :: s.tasks[t].entry < |s.log|)
  }

  /** The log entries of calls that have not returned are one to one with the callers about to return. */
  ghost predicate Paired(s: System) {
    && (forall i | i in s.returned :: i < |s.log|)
    && (forall t | t in s.tasks && s.tasks[t].Returning? ::
          && s.tasks[t].entry < |s.log|
          && s.log[s.tasks[t].entry].task == t && s.log[s.tasks[t].entry].event == s.tasks[t].answer
          && s.tasks[t].entry !in s.returned)
    && (forall i | 0 <= i < |s.log| && i !in s.returned ::
          var t := s.log[i].task; t in s.tasks && s.tasks[t].Returning? && s.tasks[t].entry == i)
  }

  lemma StepKeepsSizes(g: Geo, s: System, t: nat, a: Action, s': System)
    requires FreshSizes(g, s) && Next(g, s, t, a, s')
    ensures FreshSizes(g, s')
  {
    hide WorkStep;
  }

  lemma StepKeepsExclusive(g: Geo, s: System, t: nat, a: Action, s': System)
    requires Exclusive(s) && Next(g, s, t, a, s')
    ensures Exclusive(s')
  {
    hide WorkStep;
    if s'.sem == 0 {
      if a.Acquire? || a.Work? {
        assert s'.tasks[t].Holding?;
      } else {
        var h :| h in s.tasks && s.tasks[h].Holding?;
        assert h != t && s'.tasks[h].Holding?;
      }
    }
  }

  lemma StepKeepsTimely(g: Geo, s: System, t: nat, a: Action, s': System)
    requires Timely(s) && Next(g, s, t, a, s')
    ensures Timely(s')
  {
    hide WorkStep;
  }

  lemma StepKeepsPaired(g: Geo, s: System, t: nat, a: Action, s': System)
    requires Paired(s) && Next(g, s, t, a, s')
    ensures Paired(s')
  {
    hide WorkStep, EventOf;
  }

  lemma LoggedRun(g: Geo, s: System, e: Entry, st: Store)
    requires Run(g, s.past, Events(s.log)) && s.past[0] == TRIMMED && Step(g, Base(s), e.event, st)
    ensures var s' := Logged(s, e, [st]);
            Run(g, s'.past, Events(s'.log)) && s'.past[0] == TRIMMED && Base(s') == st
  {
    RunExtend(g, s.past, Events(s.log), e.event, st);
    assert Events(s.log + [e]) == Events(s.log) + [e.event];
  }

  lemma BaseOk(g: Geo, s: System)
    requires Run(g, s.past, Events(s.log)) && s.past[0] == TRIMMED
    ensures Ok(g, Base(s))
  {
    RunKeepsOk(g, s.past, Events(s.log), |s.past| - 1);
  }

  lemma StepKeepsSequential(g: Geo, s: System, t: nat, a: Action, s': System)
    requires FreshSizes(g, s) && Exclusive(s) && Sequential(g, s) && Next(g, s, t, a, s')
    ensures Sequential(g, s')
  {
    hide WorkStep, Run, WriteStep, ReadStep, WriteProgress, ReadProgress;
    match a
    case Interrupt =>
      InterruptStep(g, Base(s), s.tasks[t].req);
      LoggedRun(g, s, s'.log[|s.log|], Base(s));
    case Acquire =>
      StartProgress(g, s.store, s.tasks[t].req);
    case Work(_) =>
      var h := s.tasks[t];
      assert s.sem == 0;
      BaseOk(g, s);
      WorkKeepsProgress(g, Base(s), h.req, a.fails, h.stage, s.store, s'.tasks[t].stage, s'.store);
      forall u | u in s'.tasks && s'.tasks[u].Holding? ensures u == t {
        assert s.tasks[u].Holding?;
      }
    case Release =>
      var h := s.tasks[t];
      FinishedStep(g, Base(s), h.req, h.stage, s.store);
      LoggedRun(g, s, s'.log[|s.log|], s.store);
    case TrimOnOpen =>
      LoggedRun(g, s, s'.log[|s.log|], TRIMMED);
      assert forall h | h in s.tasks :: s.tasks[h].Holding? ==> h in Holders(s);
    case Begin(_) =>
    case Return =>
  }

  lemma InterruptStep(g: Geo, st: Store, req: Request)
    ensures Step(g, st, EventOf(req, Interrupted, []), st)
  {
  }

  lemma StartProgress(g: Geo, st: Store, req: Request)
    ensures Progress(g, st, req, FirstStage(req), st)
  {
  }

  lemma FinishedStep(g: Geo, base: Store, req: Request, stage: Stage, st: Store)
    requires Progress(g, base, req, stage, st) && stage.Finished?
    ensures Step(g, base, EventOf(req, stage.reply, stage.data), st)
  {
  }

  ghost predicate Reachable(g: Geo, s: System) {
    FreshSizes(g, s) && Exclusive(s) && Sequential(g, s) && Timely(s) && Paired(s)
  }

  lemma InitReachable(g: Geo, s: System)
    requires Init(g, s)
    ensures Reachable(g, s)
  {
  }

  lemma {:induction false} ExecutionReachable(g: Geo, run: seq<System>, moves: seq<Move>, k: nat)
    requires Execution(g, run, moves) && k < |run|
    ensures Reachable(g, run[k]) && run[k].clock == k
  {
    hide FreshSizes, Exclusive, Sequential, Timely, Paired, Next;
    if k == 0 {
      InitReachable(g, run[0]);
    } else {
      ExecutionReachable(g, run, moves, k - 1);
      assert MovesAt(g, run, moves, k - 1);
      var t, a := moves[k - 1].task, moves[k - 1].action;
      StepKeepsSizes(g, run[k - 1], t, a, run[k]);
      StepKeepsExclusive(g, run[k - 1], t, a, run[k]);
      StepKeepsSequential(g, run[k - 1], t, a, run[k]);
      StepKeepsTimely(g, run[k - 1], t, a, run[k]);
      StepKeepsPaired(g, run[k - 1], t, a, run[k]);
      ClockTicks(g, run[k - 1], t, a, run[k]);
    }
  }

  lemma ClockTicks(g: Geo, s: System, t: nat, a: Action, s': System)
    requires Next(g, s, t, a, s')
    ensures s'.clock == s.clock + 1
  {
    hide WorkStep;
  }

  // ---- what the history says about the moves made ----

  /** The event is an answer to this very request. */
  predicate Answers(req: Request, ev: Event) {
    match req
    case ReadRequest(pos, count) => ev.Read? && ev.pos == pos && ev.count == count
    case WriteRequest(pos, buf) => ev.Write? && ev.pos == pos && ev.buf == buf
  }

  /** A logged operation is one its task asked for when it began: a trim takes effect there and then,
      a request when its task gives the semaphore back or is interrupted. */
  predicate AskedFor(moves: seq<Move>, e: Entry) {
    && e.began <= e.took < |moves|
    && if e.event.Open? then
         e.event.writeOnly && e.began == e.took && moves[e.took] == Move(e.task, TrimOnOpen)
       else
         && moves[e.began].task == e.task && moves[e.began].action.Begin?
         && Answers(moves[e.began].action.req, e.event)
         && moves[e.took] == Move(e.task, if e.event.reply.Interrupted? then Interrupt else Release)
  }

  /** Task `t` is in the call it began at `j`, which has not taken effect yet. */
  predicate Pending(s: System, t: nat, j: nat) {
    t in s.tasks && !s.tasks[t].Returning? && s.tasks[t].began == j
  }

  ghost predicate LoggedFrom(log: seq<Entry>, j: nat) {
    exists i :: 0 <= i < |log| && log[i].began == j
  }

  /** Every call that has not taken effect and every logged operation is one that was asked for. */
  ghost predicate Traced(moves: seq<Move>, s: System) {
    && s.clock <= |moves|
    && (forall t | t in s.tasks && !s.tasks[t].Returning? ::
          s.tasks[t].began < s.clock && moves[s.tasks[t].began] == Move(t, Begin(s.tasks[t].req)))
    && (forall i | 0 <= i < |s.log| :: s.log[i].took < s.clock && AskedFor(moves, s.log[i]))
  }

  /** No call takes effect twice. */
  ghost predicate Once(s: System) {
    && (forall i, j | 0 <= i < j < |s.log| :: s.log[i].began != s.log[j].began)
    && (forall t | t in s.tasks && !s.tasks[t].Returning? :: !LoggedFrom(s.log, s.tasks[t].began))
  }

  /** No call is lost. */
  ghost predicate NoneLost(moves: seq<Move>, s: System) {
    && s.clock <= |moves|
    && (forall j | 0 <= j < s.clock && moves[j].action.Begin? ::
          Pending(s, moves[j].task, j) || LoggedFrom(s.log, j))
  }

  /** What a caller is told on return is the answer of the log entry that is marked as returned. */
  ghost predicate Told(run: seq<System>, moves: seq<Move>, s: System) {
    && s.clock <= |moves| < |run|
    && (forall i | i in s.returned ::
          i < |s.log| && s.returned[i] < s.clock && ToldAt(run, moves, s.log[i], i, s.returned[i]))
  }

  /** Every return is marked. */
  ghost predicate ReturnsMarked(moves: seq<Move>, s: System) {
    && s.clock <= |moves|
    && (forall r | 0 <= r < s.clock && moves[r].action.Return? :: r in s.returned.Values)
  }

  ghost predicate ToldAt(run: seq<System>, moves: seq<Move>, e: Entry, i: nat, r: nat)
    requires r < |moves| < |run|
  {
    && moves[r] == Move(e.task, Return)
    && e.task in run[r].tasks && run[r].tasks[e.task] == Returning(e.event, i)
  }

  /** An allocation or a user copy of task `t` failed in the moves from `from` on, up to `to`. */
  ghost predicate Failed(moves: seq<Move>, t: nat, from: nat, to: nat) {
    exists j :: from <= j < to && j < |moves| && moves[j] == Move(t, Work(true))
  }

  lemma FailedStep(moves: seq<Move>, t: nat, from: nat, to: nat)
    requires from <= to < |moves|
    ensures Failed(moves, t, from, to + 1) <==> Failed(moves, t, from, to) || moves[to] == Move(t, Work(true))
  {
  }

  lemma NothingFailedYet(moves: seq<Move>, t: nat, from: nat)
    requires from < |moves| && !moves[from].action.Work?
    ensures !Failed(moves, t, from, from) && !Failed(moves, t, from, from + 1)
  {
  }

  /** In a reachable state a work step fails exactly if it ends the operation with an error. */
  lemma WorkShows(g: Geo, s: System, t: nat, a: Action, s': System)
    requires FreshSizes(g, s) && Sequential(g, s) && a.Work? && Next(g, s, t, a, s')
    ensures !s.tasks[t].stage.Finished?
    ensures a.fails <==> s'.tasks[t].stage.Finished? && !s'.tasks[t].stage.reply.Done?
  {
    hide WorkStep, Progress, Run;
    var h := s.tasks[t];
    BaseOk(g, s);
    FailureShows(g, Base(s), h.req, a.fails, h.stage, s.store, s'.tasks[t].stage, s'.store);
  }

  /** The reply so far is due to what failed. */
  ghost predicate Due(moves: seq<Move>, t: nat, phase: Phase, clock: nat) {
    match phase
    case Waiting(_, _, began) => !Failed(moves, t, began, clock)
    case Holding(_, _, began, stage) =>
      Failed(moves, t, began, clock) <==> stage.Finished? && !stage.reply.Done?
    case Returning(_, _) => true
  }

  /** A logged operation has an error for its reply exactly if something failed in it. */
  ghost predicate DueEntry(moves: seq<Move>, e: Entry) {
    e.event.Open? || (Failed(moves, e.task, e.began, e.took) <==> !e.event.reply.Done? && !e.event.reply.Interrupted?)
  }

  ghost predicate Caused(moves: seq<Move>, s: System) {
    && s.clock <= |moves|
    && (forall t | t in s.tasks :: Due(moves, t, s.tasks[t], s.clock))
    && (forall i | 0 <= i < |s.log| :: DueEntry(moves, s.log[i]))
  }

  lemma FinishedUninterrupted(g: Geo, s: System, t: nat)
    requires Sequential(g, s) && t in s.tasks && s.tasks[t].Holding? && s.tasks[t].stage.Finished?
    ensures !s.tasks[t].stage.reply.Interrupted?
  {
    hide Run;
  }

  lemma StepKeepsTraced(g: Geo, moves: seq<Move>, s: System, s': System)
    requires Sequential(g, s) && Traced(moves, s) && s.clock < |moves|
    requires Next(g, s, moves[s.clock].task, moves[s.clock].action, s')
    ensures Traced(moves, s')
  {
    hide WorkStep, Sequential;
    var t := moves[s.clock].task;
    if moves[s.clock].action.Release? {
      FinishedUninterrupted(g, s, t);
    }
  }

  lemma LogGrows(log: seq<Entry>, e: Entry)
    ensures forall j :: LoggedFrom(log + [e], j) <==> LoggedFrom(log, j) || e.began == j
  {
    forall j ensures LoggedFrom(log + [e], j) <==> LoggedFrom(log, j) || e.began == j {
      var more := log + [e];
      if LoggedFrom(log, j) {
        var i :| 0 <= i < |log| && log[i].began == j;
        assert more[i].began == j;
      }
      assert more[|log|] == e;
    }
  }

  lemma Unlogged(log: seq<Entry>, j: nat)
    ensures LoggedFrom(log, j) || forall i | 0 <= i < |log| :: log[i].began != j
    ensures (forall i | 0 <= i < |log| :: log[i].began < j) ==> !LoggedFrom(log, j)
  {
  }

  lemma StepKeepsOnce(g: Geo, moves: seq<Move>, s: System, s': System)
    requires Timely(s) && Traced(moves, s) && Once(s) && s.clock < |moves|
    requires Next(g, s, moves[s.clock].task, moves[s.clock].action, s')
    ensures Once(s')
  {
    hide WorkStep, EventOf, AskedFor, LoggedFrom;
    Unlogged(s.log, s.clock);
    if s'.log != s.log {
      Unlogged(s.log, s'.log[|s.log|].began);
      LogGrows(s.log, s'.log[|s.log|]);
    }
  }

  lemma StepKeepsNoneLost(g: Geo, moves: seq<Move>, s: System, s': System)
    requires NoneLost(moves, s) && s.clock < |moves|
    requires Next(g, s, moves[s.clock].task, moves[s.clock].action, s')
    ensures NoneLost(moves, s')
  {
    hide WorkStep, EventOf, LoggedFrom;
    if s'.log != s.log {
      LogGrows(s.log, s'.log[|s.log|]);
    }
  }

  lemma StepKeepsTold(g: Geo, run: seq<System>, moves: seq<Move>, s: System, s': System)
    requires Paired(s) && Told(run, moves, s) && s.clock < |moves| && run[s.clock] == s
    requires Next(g, s, moves[s.clock].task, moves[s.clock].action, s')
    ensures Told(run, moves, s')
  {
    hide WorkStep, EventOf;
  }

  lemma StepKeepsMarked(g: Geo, moves: seq<Move>, s: System, s': System)
    requires Paired(s) && ReturnsMarked(moves, s) && s.clock < |moves|
    requires Next(g, s, moves[s.clock].task, moves[s.clock].action, s')
    ensures ReturnsMarked(moves, s')
  {
    hide WorkStep, EventOf;
    if moves[s.clock].action.Return? {
      var i := s.tasks[moves[s.clock].task].entry;
      assert s'.returned == s.returned[i := s.clock] && i !in s.returned;
      forall r | r in s.returned.Values ensures r in s'.returned.Values {
        var j :| j in s.returned && s.returned[j] == r;
        assert s'.returned[j] == r;
      }
      assert s'.returned[i] == s.clock;
    }
  }

  lemma StepKeepsCaused(g: Geo, moves: seq<Move>, s: System, s': System)
    requires FreshSizes(g, s) && Sequential(g, s) && Timely(s) && Caused(moves, s) && s.clock < |moves|
    requires Next(g, s, moves[s.clock].task, moves[s.clock].action, s')
    ensures Caused(moves, s')
  {
    hide WorkStep, Sequential, Failed;
    var t, a := moves[s.clock].task, moves[s.clock].action;
    if a.Release? {
      FinishedUninterrupted(g, s, t);
    }
    if a.Work? {
      WorkShows(g, s, t, a, s');
    }
    if a.Begin? || a.TrimOnOpen? {
      NothingFailedYet(moves, t, s.clock);
    }
    forall u | u in s'.tasks && !s'.tasks[u].Returning? ensures Due(moves, u, s'.tasks[u], s'.clock) {
      if u in s.tasks && !s.tasks[u].Returning? {
        FailedStep(moves, u, s.tasks[u].began, s.clock);
        assert Due(moves, u, s.tasks[u], s.clock);
      }
    }
  }

  ghost predicate Recorded(run: seq<System>, moves: seq<Move>, s: System) {
    && Traced(moves, s) && Once(s) && NoneLost(moves, s)
    && Told(run, moves, s) && ReturnsMarked(moves, s) && Caused(moves, s)
  }

  lemma InitRecorded(g: Geo, run: seq<System>, moves: seq<Move>, s: System)
    requires Init(g, s) && |moves| < |run|
    ensures Recorded(run, moves, s)
  {
  }

  lemma {:induction false} ExecutionRecorded(g: Geo, run: seq<System>, moves: seq<Move>, k: nat)
    requires Execution(g, run, moves) && k < |run|
    ensures Recorded(run, moves, run[k])
  {
    hide FreshSizes, Exclusive, Sequential, Timely, Paired, Next, Traced, Once, NoneLost;
    hide Told, ReturnsMarked, Caused;
    if k == 0 {
      InitRecorded(g, run, moves, run[0]);
    } else {
      ExecutionRecorded(g, run, moves, k - 1);
      ExecutionReachable(g, run, moves, k - 1);
      assert MovesAt(g, run, moves, k - 1);
      StepKeepsTraced(g, moves, run[k - 1], run[k]);
      StepKeepsOnce(g, moves, run[k - 1], run[k]);
      StepKeepsNoneLost(g, moves, run[k - 1], run[k]);
      StepKeepsTold(g, run, moves, run[k - 1], run[k]);
      StepKeepsMarked(g, moves, run[k - 1], run[k]);
      StepKeepsCaused(g, moves, run[k - 1], run[k]);
    }
  }

  // ---- the theorems ----

  /** Semaphore count plus holders is always one. */
  lemma MutualExclusion(g: Geo, run: seq<System>, moves: seq<Move>, k: nat)
    requires Execution(g, run, moves) && k < |run|
    ensures run[k].sem + |Holders(run[k])| == 1
  {
    ExecutionReachable(g, run, moves, k);
    var s := run[k];
    if s.sem == 0 {
      var t :| t in s.tasks && s.tasks[t].Holding?;
      assert Holders(s) == {t};
    } else {
      assert Holders(s) == {};
    }
  }

  /** The sizes a task read before it took the semaphore are still the container's when it uses them. */
  lemma SnapshotsNeverStale(g: Geo, run: seq<System>, moves: seq<Move>, k: nat, t: nat)
    requires Execution(g, run, moves) && k < |run| && t in run[k].tasks && !run[k].tasks[t].Returning?
    ensures run[k].tasks[t].sizes == Geometry(run[k].quantum, run[k].qset) == g
  {
    ExecutionReachable(g, run, moves, k);
  }

  /** Every interleaving amounts to a sequential order of whole reads, writes and trims: the logged
      operations are a run of the store, the store is its outcome whenever nobody holds the
      semaphore, the operations whose calls have not returned are one to one with the callers about
      to return and give the answers these are told, each operation is the very one its task asked for
      when it began and takes effect within its call, a returned call was told its own answer, and
      one that returned before another began comes first. */
  lemma Linearisable(g: Geo, run: seq<System>, moves: seq<Move>, k: nat)
    requires Execution(g, run, moves) && k < |run|
    ensures var s := run[k];
            && Run(g, s.past, Events(s.log)) && s.past[0] == TRIMMED
            && (Holders(s) == {} ==> s.past[|s.log|] == s.store)
            && (forall t | t in s.tasks && s.tasks[t].Returning? ::
                  && s.tasks[t].entry < |s.log| && s.tasks[t].entry !in s.returned
                  && s.log[s.tasks[t].entry].task == t && s.log[s.tasks[t].entry].event == s.tasks[t].answer)
            && (forall i | 0 <= i < |s.log| && i !in s.returned ::
                  var t := s.log[i].task; t in s.tasks && s.tasks[t].Returning? && s.tasks[t].entry == i)
            && (forall i | 0 <= i < |s.log| :: s.log[i].took < k && AskedFor(moves, s.log[i]))
            && (forall i | i in s.returned ::
                  && i < |s.log| && s.log[i].began <= s.log[i].took < s.returned[i] < k
                  && ToldAt(run, moves, s.log[i], i, s.returned[i]))
            && (forall i, j | i in s.returned && 0 <= j < |s.log| && s.returned[i] < s.log[j].began :: i < j)
  {
    hide StepAt, FreshSizes, Exclusive, Once, NoneLost, ReturnsMarked, Caused, AskedFor, ToldAt, MovesAt;
    ExecutionReachable(g, run, moves, k);
    ExecutionRecorded(g, run, moves, k);
    MutualExclusion(g, run, moves, k);
    var s := run[k];
    forall i, j | i in s.returned && 0 <= j < |s.log| && s.returned[i] < s.log[j].began ensures i < j {
      assert s.log[i].took < s.log[j].took;
    }
  }

  /** What has taken effect stays: the order is only ever extended. */
  lemma LogOnlyGrows(g: Geo, s: System, t: nat, a: Action, s': System)
    requires Next(g, s, t, a, s')
    ensures s.log <= s'.log && s.past <= s'.past
  {
  }

  /** While a read holds the semaphore the store does not change at all. */
  lemma ReadsChangeNothing(g: Geo, run: seq<System>, moves: seq<Move>, k: nat, t: nat)
    requires Execution(g, run, moves) && k < |run|
    requires t in run[k].tasks && run[k].tasks[t].Holding? && run[k].tasks[t].req.ReadRequest?
    ensures run[k].store == Base(run[k])
  {
    ExecutionReachable(g, run, moves, k);
  }

  /** Each call takes effect at most once, and one that has not is still waiting or at work; every
      return is that of a logged operation. */
  lemma EveryCallOnce(g: Geo, run: seq<System>, moves: seq<Move>, k: nat)
    requires Execution(g, run, moves) && k < |run|
    ensures var s := run[k];
            && (forall i, j | 0 <= i < j < |s.log| :: s.log[i].began != s.log[j].began)
            && (forall j | 0 <= j < k && moves[j].action.Begin? ::
                  Pending(s, moves[j].task, j) <==> !LoggedFrom(s.log, j))
            && (forall r | 0 <= r < k && moves[r].action.Return? :: r in s.returned.Values)
  {
    ExecutionReachable(g, run, moves, k);
    ExecutionRecorded(g, run, moves, k);
  }

  /** An operation is answered with an error exactly if an allocation or a user copy of its task failed
      while it was at work, or it was interrupted before; otherwise it is done. */
  lemma ErrorsHaveCauses(g: Geo, run: seq<System>, moves: seq<Move>, k: nat, i: nat)
    requires Execution(g, run, moves) && k < |run| && i < |run[k].log| && !run[k].log[i].event.Open?
    ensures var e := run[k].log[i];
            && e.took < k
            && (e.event.reply.Interrupted? <==> moves[e.took].action.Interrupt?)
            && (e.event.reply.NoMemory? || e.event.reply.Fault? <==> Failed(moves, e.task, e.began, e.took))
  {
    ExecutionReachable(g, run, moves, k);
    ExecutionRecorded(g, run, moves, k);
  }

  /** A task that is not in a call may at any time begin any read or write in range, whoever else is
      busy, and a waiting one may be interrupted. */
  lemma CallersAreFree(g: Geo, s: System, t: nat, req: Request) returns (a: Action, s': System)
    requires t in s.tasks ==> s.tasks[t].Waiting?
    requires InRange(g, req.pos)
    ensures a == if t in s.tasks then Interrupt else Begin(req)
    ensures Next(g, s, t, a, s') && t in s'.tasks
    ensures if t in s.tasks
            then s'.tasks[t].Returning? && s'.tasks[t].answer.reply == Interrupted && s'.store == s.store
            else s'.tasks[t].Waiting? && s'.tasks[t].req == req
    ensures forall u | u in s.tasks && u != t :: u in s'.tasks && s'.tasks[u] == s.tasks[u]
  {
    if t in s.tasks {
      var w := s.tasks[t];
      a, s' := Interrupt, Logged(s, Entry(t, EventOf(w.req, Interrupted, []), w.began, s.clock), [Base(s)]);
    } else {
      a := Begin(req);
      s' := s.(tasks := s.tasks[t := Waiting(req, Geometry(s.quantum, s.qset), s.clock)], clock := s.clock + 1);
    }
  }

  /** A move by which a call gets further without anything going wrong. */
  predicate Advances(a: Action) {
    a.Acquire? || a == Work(false) || a.Release? || a.Return?
  }

  /** There is no deadlock: as long as any task is in a call, one of them can get further. */
  lemma NeverStuck(g: Geo, run: seq<System>, moves: seq<Move>, k: nat)
      returns (t: nat, a: Action, s': System)
    requires Execution(g, run, moves) && k < |run| && run[k].tasks != map[]
    ensures t in run[k].tasks && Advances(a) && Next(g, run[k], t, a, s')
  {
    hide WorkStep, Progress, Run, Reachable;
    ExecutionReachable(g, run, moves, k);
    var s := run[k];
    t :| t in s.tasks;
    if s.tasks[t].Returning? {
      a := Return;
      s' := s.(tasks := s.tasks - {t}, returned := s.returned[s.tasks[t].entry := s.clock], clock := s.clock + 1);
    } else if s.tasks[t].Waiting? {
      t, a, s' := NextOfWaiter(g, s, t);
    } else {
      a, s' := NextOfHolder(g, s, t);
    }
  }

  lemma NextOfHolder(g: Geo, s: System, t: nat) returns (a: Action, s': System)
    requires Reachable(g, s) && t in s.tasks && s.tasks[t].Holding?
    ensures Advances(a) && Next(g, s, t, a, s')
  {
    hide WorkStep, Progress, StepAt, Exclusive, Timely, Paired, EventOf;
    var h := s.tasks[t];
    if h.stage.Finished? {
      a := Release;
      s' := Logged(s, Entry(t, EventOf(h.req, h.stage.reply, h.stage.data), h.began, s.clock), [s.store])
            .(sem := s.sem + 1);
    } else {
      BaseOk(g, s);
      var stage', st' := WorkEnabled(g, Base(s), h.req, h.stage, s.store);
      a := Work(false);
      s' := s.(store := st', tasks := s.tasks[t := h.(stage := stage')], clock := s.clock + 1);
    }
  }

  /** A waiting task can get the semaphore if it is free; else the holder can get further. */
  lemma NextOfWaiter(g: Geo, s: System, waiting: nat) returns (t: nat, a: Action, s': System)
    requires Reachable(g, s) && waiting in s.tasks && s.tasks[waiting].Waiting?
    ensures t in s.tasks && Advances(a) && Next(g, s, t, a, s')
  {
    hide Sequential, FreshSizes, Timely, Paired;
    t := waiting;
    if s.sem == 0 {
      t :| t in s.tasks && s.tasks[t].Holding?;
      a, s' := NextOfHolder(g, s, t);
    } else {
      var w := s.tasks[t];
      a := Acquire;
      s' := s.(sem := s.sem - 1, tasks := s.tasks[t := Holding(w.req, w.sizes, w.began, FirstStage(w.req))],
               clock := s.clock + 1);
    }
  }
}
