/** The kernel services the memory-backed device relies on.  Their outcomes are the environment's
    choice; what it chose is recorded in ghost counters, so a reply can be tied to its cause. */
module KernelServices {
  import opened Octets
  import opened SparseStore
  import opened Memory

  class Kernel {
    var mem: Mem

    // how often kmalloc returned NULL, a user copy faulted, a wait for the semaphore was interrupted
    ghost var failures: nat
    ghost var faults: nat
    ghost var signals: nat

    /** How often anything went wrong. */
    ghost function Mishaps(): nat
      reads `failures, `faults, `signals
    {
      failures + faults + signals
    }

    constructor ()
      ensures mem == NOTHING
    {
      mem := NOTHING;
    }

    /** An address for a new block, or NULL. */
    method Allocate() returns (p: Ptr)
      modifies `failures
      ensures p != NULL ==> !mem.Live(p)
      ensures failures == old(failures) + if p == NULL then 1 else 0
    {
      p := *;
      if p in mem.nodes || p in mem.arrays || p in mem.quanta {
        p := NULL;
      }
      if p == NULL {
        failures := failures + 1;
      }
    }

    // kmalloc: NULL, or a new block with arbitrary contents.

    method AllocNode() returns (p: Ptr)
      modifies `mem, `failures
      ensures p != NULL ==>
                && !old(mem).Live(p) && p in mem.nodes
                && mem == old(mem).(nodes := old(mem.nodes)[p := mem.nodes[p]])
      ensures p == NULL ==> mem == old(mem)
      ensures failures == old(failures) + if p == NULL then 1 else 0
    {
      p := Allocate();
      if p != NULL {
        var garbage: Node := *;
        mem := mem.(nodes := mem.nodes[p := garbage]);
      }
    }

    method AllocArray(length: nat) returns (p: Ptr)
      modifies `mem, `failures
      ensures p != NULL ==>
                && !old(mem).Live(p) && p in mem.arrays && |mem.arrays[p]| == length
                && mem == old(mem).(arrays := old(mem.arrays)[p := mem.arrays[p]])
      ensures p == NULL ==> mem == old(mem)
      ensures failures == old(failures) + if p == NULL then 1 else 0
    {
      p := Allocate();
      if p != NULL {
        var garbage := Garbage<Ptr>(length, NULL);
        mem := mem.(arrays := mem.arrays[p := garbage]);
      }
    }

    method AllocQuantum(length: nat) returns (p: Ptr)
      modifies `mem, `failures
      ensures p != NULL ==>
                && !old(mem).Live(p) && p in mem.quanta && |mem.quanta[p]| == length
                && mem == old(mem).(quanta := old(mem.quanta)[p := mem.quanta[p]])
      ensures p == NULL ==> mem == old(mem)
      ensures failures == old(failures) + if p == NULL then 1 else 0
    {
      p := Allocate();
      if p != NULL {
        var garbage := Garbage<byte>(length, 0);
        mem := mem.(quanta := mem.quanta[p := garbage]);
      }
    }

    // Stores through a pointer; the block has to be live.

    method StoreNode(p: Ptr, n: Node)
      requires p in mem.nodes
      modifies `mem
      ensures mem == old(mem).(nodes := old(mem.nodes)[p := n])
    {
      mem := mem.(nodes := mem.nodes[p := n]);
    }

    method StoreSlot(p: Ptr, s: nat, q: Ptr)
      requires p in mem.arrays && s < |mem.arrays[p]|
      modifies `mem
      ensures mem == old(mem).(arrays := old(mem.arrays)[p := old(mem.arrays[p])[s := q]])
    {
      mem := mem.(arrays := mem.arrays[p := mem.arrays[p][s := q]]);
    }

    /** memset of a whole pointer array to zero. */
    method ClearArray(p: Ptr)
      requires p in mem.arrays
      modifies `mem
      ensures mem == old(mem).(arrays := old(mem.arrays)[p := seq(|old(mem.arrays[p])|, _ => NULL)])
    {
      mem := mem.(arrays := mem.arrays[p := seq(|mem.arrays[p]|, _ => NULL)]);
    }

    // kfree: the address has to be live as the very block freed, and is gone afterwards; freeing NULL
    // does nothing.

    method FreeNode(p: Ptr)
      requires p != NULL ==> p in mem.nodes && p !in mem.arrays && p !in mem.quanta
      modifies `mem
      ensures mem == if p == NULL then old(mem) else old(mem).(nodes := old(mem.nodes) - {p})
    {
      if p != NULL {
        mem := mem.(nodes := mem.nodes - {p});
      }
    }

    method FreeArray(p: Ptr)
      requires p != NULL ==> p in mem.arrays && p !in mem.nodes && p !in mem.quanta
      modifies `mem
      ensures mem == if p == NULL then old(mem) else old(mem).(arrays := old(mem.arrays) - {p})
    {
      if p != NULL {
        mem := mem.(arrays := mem.arrays - {p});
      }
    }

    method FreeQuantum(p: Ptr)
      requires p != NULL ==> p in mem.quanta && p !in mem.nodes && p !in mem.arrays
      modifies `mem
      ensures mem == if p == NULL then old(mem) else old(mem).(quanta := old(mem.quanta) - {p})
    {
      if p != NULL {
        mem := mem.(quanta := mem.quanta - {p});
      }
    }

    /** copy_from_user: all of `src`, or a fault that leaves arbitrary bytes in the target range.
        Copying nothing cannot fault. */
    method CopyFromUser(p: Ptr, at: nat, src: seq<byte>) returns (ok: bool)
      requires p in mem.quanta && at + |src| <= |mem.quanta[p]|
      modifies `mem, `faults
      ensures var was := old(mem.quanta[p]);
              && p in mem.quanta && |mem.quanta[p]| == |was|
              && mem.quanta[p][..at] == was[..at] && mem.quanta[p][at + |src|..] == was[at + |src|..]
              && mem == old(mem).(quanta := old(mem.quanta)[p := mem.quanta[p]])
      ensures ok ==> mem.quanta[p][at..at + |src|] == src && faults == old(faults)
      ensures !ok ==> src != [] && faults == old(faults) + 1
    {
      var copied := src;
      ok := true;
      if src != [] {
        ok := *;
      }
      if !ok {
        copied := Garbage<byte>(|src|, 0);
        faults := faults + 1;
      }
      var was := mem.quanta[p];
      mem := mem.(quanta := mem.quanta[p := was[..at] + copied + was[at + |src|..]]);
    }

    /** copy_to_user, into the user's buffer; one that is too short is a fault. */
    method CopyToUser(dst: array<byte>, src: seq<byte>) returns (ok: bool)
      modifies dst, `faults
      ensures forall i | |src| <= i < dst.Length :: dst[i] == old(dst[i])
      ensures ok ==> |src| <= dst.Length && dst[..|src|] == src && faults == old(faults)
      ensures !ok ==> src != [] && faults == old(faults) + 1
    {
      var copied := src;
      ok := true;
      if src != [] {
        ok := *;
      }
      if |src| > dst.Length {
        ok := false;
      }
      if !ok {
        copied := Garbage<byte>(|src|, 0);
        faults := faults + 1;
      }
      forall i | 0 <= i < |src| && i < dst.Length {
        dst[i] := copied[i];
      }
    }
  }

  /** A block's worth of arbitrary values. */
  method Garbage<T>(length: nat, some: T) returns (s: seq<T>)
    ensures |s| == length
  {
    s := [];
    for i := 0 to length
      invariant |s| == i
    {
      var x: T := some;
      if * {
        x := *;
      }
      s := s + [x];
    }
  }
}

/** The memory-backed character device: a container with a growable list of nodes, each with an
    array of pointers, each to a block of bytes. */
module Mev {
  import opened Addressing
  import opened Octets
  import opened SparseStore
  import opened FlatDevice
  import opened Memory
  import opened KernelServices

  /** An open file, for its position. */
  class File {
    var pos: nat

    constructor ()
      ensures pos == 0
    {
      pos := 0;
    }
  }

  /** The bytes a read has delivered into the user's buffer. */
  function Delivered(buf: seq<byte>, reply: Reply): seq<byte> {
    if reply.Done? && reply.n <= |buf| then buf[..reply.n] else []
  }

  /** How much of the user's buffer a read may have written: the bytes it delivered or, if its copy
      faulted, those it was to deliver. */
  function Filled(g: Geo, st: Store, item: nat, pos: nat, count: nat, reply: Reply): nat {
    match reply
    case Done(n) => n
    case Fault => ReadLengthVia(g, st, item, pos, count)
    case _ => 0
  }

  class Container {
    // the sizes every trim installs
    const g: Geo
    const kernel: Kernel

    var data: Ptr
    var quantum: int
    var qset: int
    var size: nat
    var sem: nat

    ghost var shape: Shape

    /** The sizes are the ones a trim installs and their product fits an int; the live blocks are
        exactly those of the container. */
    ghost predicate Linked()
      reads this, kernel`mem
    {
      && quantum == g.quantum && qset == g.qset && ItemSize(g) < TWO31
      && Shaped(g, kernel.mem, data, shape)
    }

    /** The size is within what the list can hold. */
    ghost predicate Sized()
      reads this
    {
      size <= |shape.spine| * ItemSize(g)
    }

    /** Linked, and the semaphore is free. */
    ghost predicate Ready()
      reads this, kernel`mem
    {
      Linked() && sem == 1
    }

    ghost predicate Valid()
      reads this, kernel`mem
    {
      Ready() && Sized()
    }

    /** The store this structure represents. */
    ghost function Contents(): Store
      requires Linked()
      reads this, kernel`mem
    {
      StoreOf(g, kernel.mem, data, shape, size)
    }

    constructor (g: Geo, kernel: Kernel)
      requires kernel.mem == NOTHING && ItemSize(g) < TWO31
      ensures this.g == g && this.kernel == kernel
      ensures Valid() && Contents() == TRIMMED
    {
      this.g, this.kernel := g, kernel;
      data, size, sem := NULL, 0, 1;
      quantum, qset := g.quantum, g.qset;
      shape := BARE;
    }

    /** Allocates a node behind the last one (the first one, if there is none) and clears it; on
        failure the list keeps its end. */
    method Extend(last: Ptr) returns (node: Ptr)
      requires Linked()
      requires last == At(shape.spine, |shape.spine| - 1)
      modifies `data, `shape, kernel`mem, kernel`failures
      ensures Linked()
      ensures kernel.mem.quanta == old(kernel.mem.quanta)
      ensures shape == if node == NULL then old(shape) else old(shape).(spine := old(shape.spine) + [node])
      ensures kernel.failures == old(kernel.failures) + if node == NULL then 1 else 0
    {
      hide Shaped;
      ghost var mem := kernel.mem;
      HeadAt(g, mem, data, shape);
      if shape.spine != [] {
        NodeAt(g, mem, data, shape, |shape.spine| - 1);
      }
      node := kernel.AllocNode();
      if last == NULL {
        data := node;
      } else {
        kernel.StoreNode(last, kernel.mem.nodes[last].(next := node));
      }
      if node == NULL {
        assert kernel.mem.nodes == mem.nodes;
        return;
      }
      kernel.StoreNode(node, CLEARED);
      assert kernel.mem.nodes == LinkNode(mem, last, node).nodes;
      NodeLinked(g, mem, old(data), shape, node);
      shape := shape.(spine := shape.spine + [node]);
    }

    /** The n-th node, allocating every missing one on the way. */
    method Follow(n: nat) returns (node: Ptr)
      requires Linked()
      modifies `data, `shape, kernel`mem, kernel`failures
      ensures Linked()
      ensures shape == old(shape).(spine := shape.spine) && old(shape.spine) <= shape.spine
      ensures node == At(shape.spine, n)
      ensures Contents() == old(Contents()).(length := Contents().length)
      ensures if node == NULL then old(Contents()).length <= Contents().length <= n
              else Contents().length == Max(old(Contents()).length, n + 1)
      ensures n < old(Contents()).length ==> unchanged(`data, `shape, kernel`mem)
      ensures kernel.mem.quanta == old(kernel.mem.quanta)
      ensures kernel.failures == old(kernel.failures) + if node == NULL then 1 else 0
    {
      hide Shaped;
      node := data;
      HeadAt(g, kernel.mem, data, shape);
      if node == NULL {
        node := Extend(NULL);
        if node == NULL {
          return;
        }
      }
      var m := n;
      while m != 0
        invariant 0 <= m <= n && n - m < |shape.spine| && node == shape.spine[n - m] != NULL
        invariant Linked()
        invariant kernel.mem.quanta == old(kernel.mem.quanta)
        invariant shape == old(shape).(spine := shape.spine)
        invariant old(shape.spine) <= shape.spine && |shape.spine| <= Max(|old(shape.spine)|, n - m + 1)
        invariant n < |old(shape.spine)| ==> unchanged(`data, `shape, kernel`mem)
        invariant kernel.failures == old(kernel.failures)
        decreases m
      {
        NodeAt(g, kernel.mem, data, shape, n - m);
        m := m - 1;
        if kernel.mem.nodes[node].next == NULL {
          var last := Extend(node);
          if last == NULL {
            return NULL;
          }
          NodeAt(g, kernel.mem, data, shape, n - m - 1);
        }
        node := kernel.mem.nodes[node].next;
      }
    }

    /** Where a position is: list item, slot and offset, in the driver's 32-bit variables. */
    method Locate(pos: nat, quantum: int, qset: int) returns (item: int, slot: nat, offset: nat)
      requires quantum == g.quantum && qset == g.qset && ItemSize(g) < TWO31
      ensures item == MachineItem(g, pos) && slot == Slot(g, pos) && offset == Offset(g, pos)
      ensures slot < g.qset && offset < g.quantum
    {
      MachineAddress(g, pos);
      AddressRoundTrip(g, pos);
      ToIntExact(ItemSize(g));
      var itemsize := ToInt(quantum * qset);
      item := ToInt(pos / itemsize);
      var rest := ToInt(pos % itemsize);
      slot := ToInt(rest / quantum);
      offset := ToInt(rest % quantum);
    }

    /** down_interruptible: takes the semaphore, or is interrupted while waiting for it. */
    method Down() returns (interrupted: bool)
      requires sem > 0
      modifies `sem, kernel`signals
      ensures interrupted ==> sem == old(sem) && kernel.signals == old(kernel.signals) + 1
      ensures !interrupted ==> sem == old(sem) - 1 && kernel.signals == old(kernel.signals)
    {
      interrupted := *;
      if interrupted {
        kernel.signals := kernel.signals + 1;
      } else {
        sem := sem - 1;
      }
    }

    method Up()
      modifies `sem
      ensures sem == old(sem) + 1
    {
      sem := sem + 1;
    }

    /** The pointer array of item `i`, allocated and cleared if its node has none yet. */
    method ArrayOf(node: Ptr, ghost i: nat) returns (a: Ptr)
      requires Linked()
      requires i < Contents().length && node == At(shape.spine, i)
      modifies `shape, kernel`mem, kernel`failures
      ensures Linked()
      ensures shape == old(shape).(arrayOf := shape.arrayOf)
      ensures a == ArrayAt(shape, i)
      ensures Contents() == if a == NULL then old(Contents())
                            else old(Contents()).(arrays := old(Contents()).arrays + {i})
      ensures a == NULL ==> i !in Contents().arrays
      ensures kernel.failures == old(kernel.failures) + if a == NULL then 1 else 0
    {
      hide Shaped;
      ghost var mem := kernel.mem;
      NodeAt(g, mem, data, shape, i);
      a := kernel.mem.nodes[node].data;
      if i in shape.arrayOf {
        SlotAt(g, mem, data, shape, i, 0);
      }
      if a == NULL {
        a := kernel.AllocArray(qset);
        kernel.StoreNode(node, kernel.mem.nodes[node].(data := a));
        if a == NULL {
          assert kernel.mem.nodes == mem.nodes;
          return;
        }
        kernel.ClearArray(a);
        assert kernel.mem.arrays == LinkArray(g, mem, node, a).arrays;
        ArrayLinked(g, mem, data, shape, i, a);
        shape := shape.(arrayOf := shape.arrayOf[i := a]);
      }
    }

    /** The quantum in slot `s` of the array of item `i`, allocated (not cleared) if the slot is empty. */
    method QuantumOf(a: Ptr, ghost i: nat, s: nat) returns (q: Ptr)
      requires Linked()
      requires i in Contents().arrays && a == ArrayAt(shape, i) && s < g.qset
      modifies `shape, kernel`mem, kernel`failures
      ensures Linked()
      ensures shape == old(shape).(quantumOf := shape.quantumOf)
      ensures q == QuantumAt(shape, Place(i, s))
      ensures Contents() == old(Contents()).(quanta := Contents().quanta)
      ensures q == NULL ==> Place(i, s) !in Contents().quanta && Contents() == old(Contents())
      ensures q != NULL ==> Overwritten(g, old(Contents()).quanta, Contents().quanta, Place(i, s), 0, 0)
      ensures kernel.failures == old(kernel.failures) + if q == NULL then 1 else 0
    {
      hide Shaped;
      ghost var mem := kernel.mem;
      ghost var pl := Place(i, s);
      SlotAt(g, mem, data, shape, i, s);
      q := kernel.mem.arrays[a][s];
      if q == NULL {
        q := kernel.AllocQuantum(quantum);
        kernel.StoreSlot(a, s, q);
        if q == NULL {
          assert mem.arrays[a][s := NULL] == mem.arrays[a];
          assert kernel.mem.arrays == mem.arrays;
          return;
        }
        QuantumLinked(g, mem, data, shape, pl, q, kernel.mem.quanta[q]);
        QuantumHeld(g, mem, data, shape, pl, q, kernel.mem.quanta[q]);
        shape := shape.(quantumOf := shape.quantumOf[pl := q]);
        assert Contents().quanta == old(Contents()).quanta[pl := kernel.mem.quanta[q]];
      }
      assert Contents().quanta[pl] == kernel.mem.quanta[q];
    }

    /** The part of a write before its copy: follow the list to the item, then get the item's array
        and the slot's quantum, allocating what is missing. */
    method Reserve(ghost pos: nat, item: nat, slot: nat) returns (block: Ptr, failed: AllocPoint)
      requires Linked() && slot == Slot(g, pos) && slot < g.qset
      modifies `data, `shape, kernel`mem, kernel`failures
      ensures Linked()
      ensures block == NULL ==> WriteStepVia(g, old(Contents()), item, pos, [], NoMemory(failed), Contents())
      ensures block != NULL ==>
                && block == QuantumAt(shape, Place(item, slot))
                && Contents() == Reached(old(Contents()), item).(quanta := Contents().quanta)
                && Overwritten(g, old(Contents()).quanta, Contents().quanta, Place(item, slot), 0, 0)
      ensures kernel.failures == old(kernel.failures) + if block == NULL then 1 else 0
    {
      hide Shaped, StoreOf, At, ArrayAt, QuantumAt, Overwritten;
      hide Item, Rest, Slot, Offset, Position, ItemSize;
      block := NULL;
      failed := ForNode;
      var node := Follow(item);
      if node != NULL {
        failed := ForArray;
        var pointers := ArrayOf(node, item);
        if pointers != NULL {
          failed := ForQuantum;
          block := QuantumOf(pointers, item, slot);
        }
      }
    }

    /** Frees every block of the container, each once and none after it is gone, and installs the
        driver's sizes. */
    method Trim()
      requires Linked()
      modifies `data, `quantum, `qset, `size, `shape, kernel`mem
      ensures Linked() && Sized() && Contents() == TRIMMED
      ensures kernel.mem == NOTHING && data == NULL
    {
      hide Shaped, Leftover, Separate;
      var qset := this.qset;
      var dptr := data;
      ghost var mem, head, sh, i := kernel.mem, data, shape, 0;
      HeadAt(g, mem, head, sh);
      LeftoverStart(mem, sh);
      ShapedSeparate(g, mem, head, sh);
      while dptr != NULL
        invariant i <= |sh.spine| && dptr == At(sh.spine, i) && (dptr == NULL ==> i == |sh.spine|)
        invariant kernel.mem == Leftover(mem, sh, i, 0)
        decreases |sh.spine| - i
      {
        NodeAt(g, mem, head, sh, i);
        LeftoverItem(g, mem, head, sh, i, 0);
        ghost var j := 0;
        if i in sh.arrayOf {
          SlotAt(g, mem, head, sh, i, 0);
        }
        var pointers := kernel.mem.nodes[dptr].data;
        if pointers != NULL {
          for s := 0 to qset
            invariant kernel.mem == Leftover(mem, sh, i, s)
          {
            LeftoverItem(g, mem, head, sh, i, s);
            LeftoverSlot(g, mem, head, sh, i, s);
            LeftoverSeparate(mem, sh, i, s);
            OneKind(kernel.mem);
            kernel.FreeQuantum(kernel.mem.arrays[pointers][s]);
          }
          j := qset;
          LeftoverItem(g, mem, head, sh, i, j);
          LeftoverSeparate(mem, sh, i, j);
          OneKind(kernel.mem);
          kernel.FreeArray(pointers);
          kernel.StoreNode(dptr, kernel.mem.nodes[dptr].(data := NULL));
        }
        ghost var left := Leftover(mem, sh, i, j);
        LeftoverSeparate(mem, sh, i, j);
        OneKind(left);
        var next := kernel.mem.nodes[dptr].next;
        kernel.FreeNode(dptr);
        assert kernel.mem.nodes == left.nodes - {dptr};
        LeftoverNext(g, mem, head, sh, i, j);
        dptr := next;
        i := i + 1;
      }
      LeftoverEnd(g, mem, head, sh);
      size := 0;
      quantum := g.quantum;
      this.qset := g.qset;
      data := NULL;
      shape := BARE;
      NothingShaped(g);
    }

    /** The quantum of a place, NULL if it has none: the part of a read before its copy.  Following the
        list may allocate nodes, but not towards an item that is there. */
    method Find(item: nat, slot: nat) returns (block: Ptr)
      requires Linked() && slot < g.qset
      modifies `data, `shape, kernel`mem, kernel`failures
      ensures Linked() && kernel.mem.quanta == old(kernel.mem.quanta)
      ensures Contents() == old(Contents()).(length := Contents().length)
      ensures old(Contents()).length <= Contents().length <= Max(old(Contents()).length, item + 1)
      ensures item < old(Contents()).length ==> unchanged(`data, `shape, kernel`mem, kernel`failures)
      ensures block == NULL <==> Place(item, slot) !in Contents().quanta
      ensures block != NULL ==>
                && block in kernel.mem.quanta && |kernel.mem.quanta[block]| == g.quantum
                && kernel.mem.quanta[block] == Contents().quanta[Place(item, slot)]
    {
      hide Shaped;
      StoreOfHangs(g, kernel.mem, data, shape, size);
      block := NULL;
      var node := Follow(item);
      if node != NULL {
        NodeAt(g, kernel.mem, data, shape, item);
        BlockAt(g, kernel.mem, data, shape, size, Place(item, slot));
        if item in shape.arrayOf {
          SlotAt(g, kernel.mem, data, shape, item, slot);
        }
        if kernel.mem.nodes[node].data != NULL {
          block := kernel.mem.arrays[kernel.mem.nodes[node].data][slot];
        }
      }
    }

    /** What a read does while it holds the semaphore; the sizes were read before.  The place it looks
        at is the one of the 32-bit item, which must not be negative: counting a negative one down
        to zero is not defined in C. */
    method ReadLocked(file: File, buf: array<byte>, count: nat, quantum: int, qset: int) returns (reply: Reply)
      requires Linked() && sem == 0 && quantum == g.quantum && qset == g.qset
      requires MachineItem(g, file.pos) >= 0
      modifies `data, `shape, kernel`mem, kernel`failures, kernel`faults, file, buf
      ensures Linked() && !reply.Interrupted?
      ensures ReadStepVia(g, old(Contents()), MachineItem(g, old(file.pos)), old(file.pos), count,
                          reply, Delivered(buf[..], reply), Contents())
      ensures old(file.pos) >= old(size) || MachineItem(g, old(file.pos)) < old(Contents()).length ==>
                unchanged(`data, `shape, kernel`mem, kernel`failures)
      ensures reply.Done? ==> reply.n <= buf.Length
      ensures var item, pos := MachineItem(g, old(file.pos)), old(file.pos);
              forall i | Filled(g, old(Contents()), item, pos, count, reply) <= i < buf.Length ::
                buf[i] == old(buf[i])
      ensures file.pos == old(file.pos) + if reply.Done? then reply.n else 0
      ensures kernel.faults == old(kernel.faults) + if reply.Fault? then 1 else 0
    {
      hide Shaped, Held;
      hide Item, Rest, Slot, Offset, Position, ItemSize, MachineItem;
      var pos := file.pos;
      if pos >= size {
        return Done(0);
      }
      var amount := count;
      if pos + amount > size {
        amount := size - pos;
      }
      var item, slot, offset := Locate(pos, quantum, qset);
      var block := Find(item, slot);
      if block == NULL {
        return Done(0);
      }
      if amount > quantum - offset {
        amount := quantum - offset;
      }
      var ok := kernel.CopyToUser(buf, kernel.mem.quanta[block][offset..offset + amount]);
      if !ok {
        return Fault;
      }
      file.pos := pos + amount;
      reply := Done(amount);
    }

    /** A read delivers into `buf` and advances the file.  For positions in range it delivers what the
        store holds there and leaves the whole structure as it was. */
    method Read(file: File, buf: array<byte>, count: nat) returns (reply: Reply)
      requires Ready() && MachineItem(g, file.pos) >= 0
      modifies this, kernel, file, buf
      ensures Ready() && size == old(size)
      ensures reply.Interrupted? ==> Contents() == old(Contents())
      ensures ReadStepVia(g, old(Contents()), MachineItem(g, old(file.pos)), old(file.pos), count,
                          reply, Delivered(buf[..], reply), Contents())
      ensures InRange(g, old(file.pos)) && old(Sized()) ==>
                && Sized() && unchanged(`data, `shape, kernel`mem, kernel`failures)
                && ReadStep(g, old(Contents()), old(file.pos), count, reply, Delivered(buf[..], reply), Contents())
      ensures reply.Done? ==> reply.n <= buf.Length
      ensures var item, pos := MachineItem(g, old(file.pos)), old(file.pos);
              forall i | Filled(g, old(Contents()), item, pos, count, reply) <= i < buf.Length ::
                buf[i] == old(buf[i])
      ensures reply.ReturnValue() >= 0 <==> reply.Done?
      ensures file.pos == old(file.pos) + Max(0, reply.ReturnValue())
      ensures kernel.faults == old(kernel.faults) + if reply.ReturnValue() == -EFAULT then 1 else 0
      ensures kernel.signals == old(kernel.signals) + if reply.ReturnValue() == -ERESTARTSYS then 1 else 0
    {
      hide Shaped, MachineItem, ItemSize, Item, ReadStepVia, ReadStep;
      var quantum, qset := this.quantum, this.qset;
      ghost var before, pos, sound := Contents(), file.pos, InRange(g, file.pos) && Sized();
      if sound {
        MachineAddress(g, pos);
        StoreOfOk(g, kernel.mem, data, shape, size);
        if pos < size {
          ReadFindsItsNode(g, before, pos);
        }
      }
      InterruptedRead(g, before, pos, count);
      var interrupted := Down();
      if interrupted {
        reply := Interrupted;
      } else {
        reply := ReadLocked(file, buf, count, quantum, qset);
        Up();
      }
      if sound {
        ReadInPlace(g, before, pos, count, reply, Delivered(buf[..], reply));
      }
    }

    /** What a write does while it holds the semaphore; the sizes were read before.  As for a read, the
        32-bit item must not be negative. */
    method WriteLocked(file: File, buf: seq<byte>, quantum: int, qset: int) returns (reply: Reply)
      requires Linked() && sem == 0 && quantum == g.quantum && qset == g.qset
      requires MachineItem(g, file.pos) >= 0
      modifies `data, `shape, `size, kernel`mem, kernel`failures, kernel`faults, file
      ensures Linked() && !reply.Interrupted?
      ensures WriteStepVia(g, old(Contents()), MachineItem(g, old(file.pos)), old(file.pos), buf, reply, Contents())
      ensures file.pos == old(file.pos) + if reply.Done? then reply.n else 0
      ensures kernel.failures == old(kernel.failures) + if reply.NoMemory? then 1 else 0
      ensures kernel.faults == old(kernel.faults) + if reply.Fault? then 1 else 0
    {
      hide Shaped, Held, QuantumAt, Overwritten;
      hide Item, Rest, Slot, Offset, Position, ItemSize, MachineItem;
      var pos := file.pos;
      var item, slot, offset := Locate(pos, quantum, qset);
      ghost var pl, before := Place(item, slot), Contents();
      var block, failed := Reserve(pos, item, slot);
      if block == NULL {
        return NoMemory(failed);
      }
      BlockAt(g, kernel.mem, data, shape, size, pl);
      var count := |buf|;
      if count > quantum - offset {
        count := quantum - offset;
      }
      ghost var mem, reserved := kernel.mem, Contents();
      var ok := kernel.CopyFromUser(block, offset, buf[..count]);
      ghost var bytes := kernel.mem.quanta[block];
      OverwrittenThrough(g, before.quanta, reserved.quanta, pl, offset, offset + count, bytes);
      if ok {
        file.pos := pos + count;
        reply := Done(count);
        if size < file.pos {
          size := file.pos;
        }
      } else {
        reply := Fault;
      }
      QuantumWritten(g, mem, data, shape, reserved.size, pl, bytes, size);
    }

    /** A write puts its bytes where the 32-bit item says.  For positions in range that is the
        position's own place, and the size stays within what the list can hold. */
    method Write(file: File, buf: seq<byte>) returns (reply: Reply)
      requires Ready() && MachineItem(g, file.pos) >= 0
      modifies this, kernel, file
      ensures Ready()
      ensures WriteStepVia(g, old(Contents()), MachineItem(g, old(file.pos)), old(file.pos), buf, reply, Contents())
      ensures InRange(g, old(file.pos)) && old(Sized()) ==>
                && Sized()
                && WriteStep(g, old(Contents()), old(file.pos), buf, reply, Contents())
      ensures reply.ReturnValue() >= 0 <==> reply.Done?
      ensures file.pos == old(file.pos) + Max(0, reply.ReturnValue())
      ensures kernel.failures == old(kernel.failures) + if reply.ReturnValue() == -ENOMEM then 1 else 0
      ensures kernel.faults == old(kernel.faults) + if reply.ReturnValue() == -EFAULT then 1 else 0
      ensures kernel.signals == old(kernel.signals) + if reply.ReturnValue() == -ERESTARTSYS then 1 else 0
    {
      hide Shaped, MachineItem, ItemSize, Item, WriteStepVia;
      var quantum, qset := this.quantum, this.qset;
      ghost var before, pos, sound := Contents(), file.pos, InRange(g, file.pos) && Sized();
      if sound {
        MachineAddress(g, pos);
        StoreOfOk(g, kernel.mem, data, shape, size);
      }
      var interrupted := Down();
      if interrupted {
        InterruptedWrite(g, before, pos, buf);
        return Interrupted;
      }
      reply := WriteLocked(file, buf, quantum, qset);
      Up();
      if sound {
        StepKeepsOk(g, before, SparseStore.Write(pos, buf, reply), Contents());
      }
    }

    /** Opening for writing only starts the device over. */
    method Open(writeOnly: bool)
      requires Ready()
      modifies `data, `quantum, `qset, `size, `shape, kernel`mem
      ensures Ready() && Contents() == if writeOnly then TRIMMED else old(Contents())
      ensures writeOnly ==> kernel.mem == NOTHING
      ensures writeOnly || old(Sized()) ==> Sized()
    {
      if writeOnly {
        Trim();
      }
    }
  }

  /** A request to the device: the file operations of its table with the position they work at. */
  datatype Call =
    | OpenCall(writeOnly: bool)
    | ReadCall(pos: nat, count: nat)
    | WriteCall(pos: nat, buf: seq<byte>)

  /** The position's list item fits the driver's 32-bit variable. */
  predicate CallInRange(g: Geo, call: Call) {
    !call.OpenCall? ==> InRange(g, call.pos)
  }

  /** The event is an answer to this very call. */
  predicate Answers(call: Call, ev: Event) {
    match call
    case OpenCall(writeOnly) => ev == SparseStore.Open(writeOnly)
    case ReadCall(pos, count) => ev.Read? && ev.pos == pos && ev.count == count
    case WriteCall(pos, buf) => ev.Write? && ev.pos == pos && ev.buf == buf
  }

  /** One call, at a position supplied by the caller. */
  method Dispatch(c: Container, call: Call) returns (ev: Event)
    requires c.Valid() && CallInRange(c.g, call)
    modifies c, c.kernel
    ensures c.Valid()
    ensures Answers(call, ev) && Step(c.g, old(c.Contents()), ev, c.Contents())
    ensures c.kernel.failures == old(c.kernel.failures) + if Met(ev, Shortage) then 1 else 0
    ensures c.kernel.faults == old(c.kernel.faults) + if Met(ev, BadCopy) then 1 else 0
    ensures c.kernel.signals == old(c.kernel.signals) + if Met(ev, Signal) then 1 else 0
  {
    hide Shaped, StoreOf, WriteStepVia, ReadStepVia, Hands, ItemSize, Item;
    ghost var st := c.Contents();
    if !call.OpenCall? {
      MachineAddress(c.g, call.pos);
    }
    match call
    case OpenCall(writeOnly) =>
      c.Open(writeOnly);
      ev := SparseStore.Open(writeOnly);
    case ReadCall(pos, count) =>
      var file := new File();
      var buf := new byte[count];
      file.pos := pos;
      var reply := c.Read(file, buf, count);
      ReadNeedsNoMemory(c.g, st, pos, count, reply, Delivered(buf[..], reply), c.Contents());
      ev := SparseStore.Read(pos, count, reply, Delivered(buf[..], reply));
    case WriteCall(pos, buf) =>
      var file := new File();
      file.pos := pos;
      var reply := c.Write(file, buf);
      ev := SparseStore.Write(pos, buf, reply);
  }

  /** Any sequence of calls at positions in range, whatever the allocator, the user copies and the
      signals do on the way: what the structure goes through is a run of the store, and so of the
      reference device; and there are as many failed replies of each kind as there were failures of
      that kind, so that without any every read and write is done. */
  method Serve(c: Container, calls: seq<Call>) returns (events: seq<Event>, ghost states: seq<Store>)
    requires c.Valid() && forall i | 0 <= i < |calls| :: CallInRange(c.g, calls[i])
    modifies c, c.kernel
    ensures c.Valid()
    ensures |events| == |calls| && forall i | 0 <= i < |calls| :: Answers(calls[i], events[i])
    ensures Run(c.g, states, events) && states[0] == old(c.Contents()) && states[|calls|] == c.Contents()
    ensures forall i | 0 <= i < |states| :: Ok(c.g, states[i])
    ensures FlatRun(c.g.quantum, Views(c.g, states), events)
    ensures c.kernel.failures == old(c.kernel.failures) + Tally(events, Shortage)
    ensures c.kernel.faults == old(c.kernel.faults) + Tally(events, BadCopy)
    ensures c.kernel.signals == old(c.kernel.signals) + Tally(events, Signal)
    ensures c.kernel.Mishaps() == old(c.kernel.Mishaps()) ==>
              forall i | 0 <= i < |events| && !events[i].Open? :: events[i].reply.Done?
  {
    hide Shaped, StoreOf, Step, Tally, Met;
    NoTrouble();
    events, states := [], [c.Contents()];
    StoreOfOk(c.g, c.kernel.mem, c.data, c.shape, c.size);
    for k := 0 to |calls|
      invariant c.Valid() && |events| == k && forall i | 0 <= i < k :: Answers(calls[i], events[i])
      invariant Run(c.g, states, events) && states[0] == old(c.Contents()) && states[k] == c.Contents()
      invariant c.kernel.failures == old(c.kernel.failures) + Tally(events, Shortage)
      invariant c.kernel.faults == old(c.kernel.faults) + Tally(events, BadCopy)
      invariant c.kernel.signals == old(c.kernel.signals) + Tally(events, Signal)
    {
      var ev := Dispatch(c, calls[k]);
      TallyStep(events, ev);
      RunExtend(c.g, states, events, ev, c.Contents());
      events, states := events + [ev], states + [c.Contents()];
    }
    RunRefines(c.g, states, events);
    if c.kernel.Mishaps() == old(c.kernel.Mishaps()) {
      UntroubledIsDone(events);
    }
  }

  lemma NoTrouble()
    ensures forall trouble :: Tally([], trouble) == 0
  {
  }
}
