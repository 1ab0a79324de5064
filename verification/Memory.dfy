/** Kernel memory as the driver sees it: addresses and the blocks that live at them.  A block that is
    not there cannot be read, so following a NULL or dangling pointer is a proof failure. */
module Memory {
  import opened Addressing
  import opened Octets
  import opened SparseStore

  type Ptr = int
  const NULL: Ptr := 0

  /** struct mev_qset */
  datatype Node = Node(data: Ptr, next: Ptr)

  const CLEARED := Node(NULL, NULL)

  /** The live blocks: list nodes, pointer arrays and quanta. */
  datatype Mem = Mem(nodes: map<Ptr, Node>, arrays: map<Ptr, seq<Ptr>>, quanta: map<Ptr, seq<byte>>) {
    ghost predicate Live(p: Ptr) {
      p in nodes || p in arrays || p in quanta
    }
  }

  const NOTHING := Mem(map[], map[], map[])

  /** Where the blocks of a container are: its nodes in list order, the pointer array of each item
      that has one and the quantum of each place that has one. */
  datatype Shape = Shape(spine: seq<Ptr>, arrayOf: map<nat, Ptr>, quantumOf: map<Place, Ptr>)

  const BARE := Shape([], map[], map[])

  /** The node at an index, NULL before and past the list. */
  function At(spine: seq<Ptr>, i: int): Ptr {
    if 0 <= i < |spine| then spine[i] else NULL
  }

  function ArrayAt(sh: Shape, i: nat): Ptr {
    if i in sh.arrayOf then sh.arrayOf[i] else NULL
  }

  function QuantumAt(sh: Shape, pl: Place): Ptr {
    if pl in sh.quantumOf then sh.quantumOf[pl] else NULL
  }

  /** No pointer occurs twice, none is NULL. */
  ghost predicate Distinct(sh: Shape) {
    && (forall i | 0 <= i < |sh.spine| :: sh.spine[i] != NULL)
    && (forall i, j | 0 <= i < j < |sh.spine| :: sh.spine[i] != sh.spine[j])
    && (forall i | i in sh.arrayOf :: sh.arrayOf[i] != NULL)
    && (forall i, j | i in sh.arrayOf && j in sh.arrayOf && i != j :: sh.arrayOf[i] != sh.arrayOf[j])
    && (forall pl | pl in sh.quantumOf :: sh.quantumOf[pl] != NULL)
    && (forall pl, pl' | pl in sh.quantumOf && pl' in sh.quantumOf && pl != pl' ::
          sh.quantumOf[pl] != sh.quantumOf[pl'])
  }

  /** The list starts at `head`, runs through the spine and ends; each node points to its item's array. */
  ghost predicate Listed(mem: Mem, head: Ptr, sh: Shape) {
    && head == At(sh.spine, 0)
    && (forall i | 0 <= i < |sh.spine| :: sh.spine[i] in mem.nodes)
    && (forall i {:trigger mem.nodes[sh.spine[i]]} | 0 <= i < |sh.spine| ::
          mem.nodes[sh.spine[i]] == Node(ArrayAt(sh, i), At(sh.spine, i + 1)))
    && (forall i | i in sh.arrayOf :: i < |sh.spine|)
  }

  /** Each array has `qset` slots, and each slot points to the quantum of its place. */
  ghost predicate Slotted(g: Geo, mem: Mem, sh: Shape) {
    && (forall i | i in sh.arrayOf :: sh.arrayOf[i] in mem.arrays && |mem.arrays[sh.arrayOf[i]]| == g.qset)
    && (forall i, s {:trigger mem.arrays[sh.arrayOf[i]][s]} | i in sh.arrayOf && 0 <= s < g.qset ::
          mem.arrays[sh.arrayOf[i]][s] == QuantumAt(sh, Place(i, s)))
    && (forall pl | pl in sh.quantumOf ::
          && pl.item in sh.arrayOf && pl.slot < g.qset
          && sh.quantumOf[pl] in mem.quanta && |mem.quanta[sh.quantumOf[pl]]| == g.quantum)
  }

  /** Nothing is live but what the shape names. */
  ghost predicate Covered(mem: Mem, sh: Shape) {
    && (forall p | p in mem.nodes :: p in sh.spine)
    && (forall p | p in mem.arrays :: p in sh.arrayOf.Values)
    && (forall p | p in mem.quanta :: p in sh.quantumOf.Values)
  }

  /** One address, one block: no address is live as two kinds of block. */
  ghost predicate Separate(mem: Mem) {
    && mem.nodes.Keys !! mem.arrays.Keys
    && mem.nodes.Keys !! mem.quanta.Keys
    && mem.arrays.Keys !! mem.quanta.Keys
  }

  /** The container at `head` has shape `sh`, and its blocks are exactly the live ones. */
  ghost predicate Shaped(g: Geo, mem: Mem, head: Ptr, sh: Shape) {
    Distinct(sh) && Listed(mem, head, sh) && Slotted(g, mem, sh) && Covered(mem, sh) && Separate(mem)
  }

  /** What the quanta hold, by place. */
  ghost function Held(quanta: map<Ptr, seq<byte>>, quantumOf: map<Place, Ptr>): map<Place, seq<byte>>
    requires forall pl | pl in quantumOf :: quantumOf[pl] in quanta
  {
    map pl | pl in quantumOf :: quanta[quantumOf[pl]]
  }

  /** What the i-th node of a shaped memory holds. */
  lemma NodeAt(g: Geo, mem: Mem, head: Ptr, sh: Shape, i: nat)
    requires Shaped(g, mem, head, sh) && i < |sh.spine|
    ensures sh.spine[i] != NULL && sh.spine[i] in mem.nodes
    ensures mem.nodes[sh.spine[i]] == Node(ArrayAt(sh, i), At(sh.spine, i + 1))
    ensures At(sh.spine, i + 1) == NULL <==> i + 1 == |sh.spine|
  {
  }

  /** The list is empty exactly when its head is NULL. */
  lemma HeadAt(g: Geo, mem: Mem, head: Ptr, sh: Shape)
    requires Shaped(g, mem, head, sh)
    ensures head == At(sh.spine, 0)
    ensures head == NULL <==> sh.spine == []
  {
  }

  /** What slot `s` of item `i`'s array points to. */
  lemma SlotAt(g: Geo, mem: Mem, head: Ptr, sh: Shape, i: nat, s: nat)
    requires Shaped(g, mem, head, sh) && i in sh.arrayOf && s < g.qset
    ensures sh.arrayOf[i] != NULL && sh.arrayOf[i] in mem.arrays && |mem.arrays[sh.arrayOf[i]]| == g.qset
    ensures mem.arrays[sh.arrayOf[i]][s] == QuantumAt(sh, Place(i, s))
    ensures var q := QuantumAt(sh, Place(i, s));
            if Place(i, s) in sh.quantumOf then q != NULL && q in mem.quanta && |mem.quanta[q]| == g.quantum
            else q == NULL
  {
  }

  /** The store a shaped memory represents. */
  ghost function StoreOf(g: Geo, mem: Mem, head: Ptr, sh: Shape, size: nat): Store
    requires Shaped(g, mem, head, sh)
  {
    Store(|sh.spine|, sh.arrayOf.Keys, Held(mem.quanta, sh.quantumOf), size)
  }

  /** A place has a quantum in the store exactly when it has one in memory, with the same bytes. */
  lemma BlockAt(g: Geo, mem: Mem, head: Ptr, sh: Shape, size: nat, pl: Place)
    requires Shaped(g, mem, head, sh)
    ensures var q, st := QuantumAt(sh, pl), StoreOf(g, mem, head, sh, size);
            && (pl in st.quanta <==> q != NULL)
            && (q != NULL ==> q in mem.quanta && mem.quanta[q] == st.quanta[pl] && |mem.quanta[q]| == g.quantum)
  {
  }

  /** In the store, quanta hang from arrays and arrays from nodes. */
  lemma StoreOfHangs(g: Geo, mem: Mem, head: Ptr, sh: Shape, size: nat)
    requires Shaped(g, mem, head, sh)
    ensures var st := StoreOf(g, mem, head, sh, size);
            && (forall i | i in st.arrays :: i < st.length)
            && (forall pl | pl in st.quanta :: pl.item in st.arrays)
  {
  }

  lemma StoreOfOk(g: Geo, mem: Mem, head: Ptr, sh: Shape, size: nat)
    requires Shaped(g, mem, head, sh) && size <= |sh.spine| * ItemSize(g)
    ensures Ok(g, StoreOf(g, mem, head, sh, size))
  {
  }

  // ---- conservation ----

  /** A duplicate-free sequence has as many values as places. */
  lemma {:induction false} DistinctCount(s: seq<Ptr>)
    requires forall i, j | 0 <= i < j < |s| :: s[i] != s[j]
    ensures |set i | 0 <= i < |s| :: s[i]| == |s|
  {
    var all := set i | 0 <= i < |s| :: s[i];
    if s == [] {
      assert all == {};
    } else {
      var n := |s| - 1;
      DistinctCount(s[..n]);
      var some := set i | 0 <= i < n :: s[..n][i];
      assert s[n] !in some;
      assert all == some + {s[n]};
    }
  }

  /** An injective map has as many values as keys. */
  lemma {:induction false} InjectiveCount<K>(m: map<K, Ptr>)
    requires forall k, k' | k in m && k' in m && k != k' :: m[k] != m[k']
    ensures |m.Values| == |m|
    decreases |m|
  {
    if m != map[] {
      var k :| k in m;
      var rest := m - {k};
      InjectiveCount(rest);
      assert m == rest[k := m[k]];
      InsertedValues(rest, k, m[k]);
      assert m[k] !in rest.Values;
    } else {
      assert m.Values == {};
    }
  }

  /** Every live address, whatever kind of block is there. */
  function Addresses(mem: Mem): set<Ptr> {
    mem.nodes.Keys + mem.arrays.Keys + mem.quanta.Keys
  }

  /** Ownership is conserved: there are exactly as many live nodes, arrays and quanta as the store
      has items, arrays and quanta, and no address is live as two of them, so no block is leaked and
      none is shared. */
  lemma OwnershipConserved(g: Geo, mem: Mem, head: Ptr, sh: Shape, size: nat)
    requires Shaped(g, mem, head, sh)
    ensures var st := StoreOf(g, mem, head, sh, size);
            && |mem.nodes| == st.length && |mem.arrays| == |st.arrays| && |mem.quanta| == |st.quanta|
            && |Addresses(mem)| == st.length + |st.arrays| + |st.quanta|
    ensures Separate(mem)
  {
    hide Distinct, Listed, Slotted, Covered;
    LiveNodes(g, mem, head, sh);
    LiveArrays(g, mem, head, sh);
    LiveQuanta(g, mem, head, sh);
    assert StoreOf(g, mem, head, sh, size).quanta.Keys == sh.quantumOf.Keys;
    assert (mem.nodes.Keys + mem.arrays.Keys) !! mem.quanta.Keys;
  }

  lemma LiveNodes(g: Geo, mem: Mem, head: Ptr, sh: Shape)
    requires Shaped(g, mem, head, sh)
    ensures |mem.nodes| == |sh.spine|
  {
    DistinctCount(sh.spine);
    var named := set i | 0 <= i < |sh.spine| :: sh.spine[i];
    forall p | p in mem.nodes ensures p in named {
      assert p in sh.spine;
    }
    assert mem.nodes.Keys == named;
  }

  lemma LiveArrays(g: Geo, mem: Mem, head: Ptr, sh: Shape)
    requires Shaped(g, mem, head, sh)
    ensures |mem.arrays| == |sh.arrayOf|
  {
    hide Listed;
    forall p: Ptr | p in mem.arrays.Keys ensures p in sh.arrayOf.Values {
      assert p in mem.arrays;
    }
    CountByValues(sh.arrayOf, mem.arrays.Keys);
  }

  lemma LiveQuanta(g: Geo, mem: Mem, head: Ptr, sh: Shape)
    requires Shaped(g, mem, head, sh)
    ensures |mem.quanta| == |sh.quantumOf|
  {
    hide Listed;
    forall p: Ptr | p in mem.quanta.Keys ensures p in sh.quantumOf.Values {
      assert p in mem.quanta;
    }
    CountByValues(sh.quantumOf, mem.quanta.Keys);
  }

  lemma CountByValues<K>(m: map<K, Ptr>, live: set<Ptr>)
    requires forall k, k' | k in m && k' in m && k != k' :: m[k] != m[k']
    requires forall k | k in m :: m[k] in live
    requires live <= m.Values
    ensures |live| == |m|
  {
    InjectiveCount(m);
    assert m.Values <= live;
    assert m.Values == live;
  }

  // ---- the three ways a shape grows ----

  /** One more block at an address that was not live keeps addresses and blocks one to one. */
  lemma SeparateGrows(mem: Mem, mem': Mem, p: Ptr)
    requires Separate(mem) && !mem.Live(p)
    requires var n, a, q := mem.nodes.Keys, mem.arrays.Keys, mem.quanta.Keys;
             || (mem'.nodes.Keys == n + {p} && mem'.arrays.Keys == a && mem'.quanta.Keys == q)
             || (mem'.nodes.Keys == n && mem'.arrays.Keys == a + {p} && mem'.quanta.Keys == q)
             || (mem'.nodes.Keys == n && mem'.arrays.Keys == a && mem'.quanta.Keys == q + {p})
    ensures Separate(mem')
  {
  }

  /** The memory once a cleared node `p` stands behind the last one. */
  function LinkNode(mem: Mem, last: Ptr, p: Ptr): Mem
    requires last != NULL ==> last in mem.nodes
  {
    var nodes := if last == NULL then mem.nodes else mem.nodes[last := mem.nodes[last].(next := p)];
    mem.(nodes := nodes[p := CLEARED])
  }

  lemma NodeLinked(g: Geo, mem: Mem, head: Ptr, sh: Shape, p: Ptr)
    requires Shaped(g, mem, head, sh) && p != NULL && !mem.Live(p)
    ensures var sh' := sh.(spine := sh.spine + [p]);
            var mem' := LinkNode(mem, At(sh.spine, |sh.spine| - 1), p);
            Shaped(g, mem', At(sh'.spine, 0), sh')
  {
    var sh' := sh.(spine := sh.spine + [p]);
    var mem' := LinkNode(mem, At(sh.spine, |sh.spine| - 1), p);
    hide Distinct, Listed, Slotted, Covered, Separate;
    NodeListed(mem, head, sh, p);
    NodeSlotted(g, mem, head, sh, p);
    NodeCovered(mem, head, sh, p);
    NodeDistinct(sh, p);
    SeparateGrows(mem, LinkNode(mem, At(sh.spine, |sh.spine| - 1), p), p);
  }

  lemma NodeDistinct(sh: Shape, p: Ptr)
    requires Distinct(sh) && p != NULL && forall i | 0 <= i < |sh.spine| :: sh.spine[i] != p
    ensures Distinct(sh.(spine := sh.spine + [p]))
  {
  }

  lemma NodeSlotted(g: Geo, mem: Mem, head: Ptr, sh: Shape, p: Ptr)
    requires Listed(mem, head, sh) && Slotted(g, mem, sh)
    ensures Slotted(g, LinkNode(mem, At(sh.spine, |sh.spine| - 1), p), sh.(spine := sh.spine + [p]))
    ensures |sh.spine| > 0 ==> sh.spine[|sh.spine| - 1] in mem.nodes
    ensures forall i | 0 <= i < |sh.spine| :: sh.spine[i] in mem.nodes
  {
  }

  lemma NodeCovered(mem: Mem, head: Ptr, sh: Shape, p: Ptr)
    requires Listed(mem, head, sh) && Covered(mem, sh)
    ensures Covered(LinkNode(mem, At(sh.spine, |sh.spine| - 1), p), sh.(spine := sh.spine + [p]))
  {
    var spine' := sh.spine + [p];
    assert spine'[|sh.spine|] == p;
    forall q | q in sh.spine ensures q in spine' {
      var i :| 0 <= i < |sh.spine| && sh.spine[i] == q;
      assert spine'[i] == q;
    }
  }

  lemma NodeListed(mem: Mem, head: Ptr, sh: Shape, p: Ptr)
    requires Distinct(sh) && Listed(mem, head, sh) && p !in mem.nodes
    ensures var sh' := sh.(spine := sh.spine + [p]);
            Listed(LinkNode(mem, At(sh.spine, |sh.spine| - 1), p), At(sh'.spine, 0), sh')
  {
    var k := |sh.spine|;
    var sh' := sh.(spine := sh.spine + [p]);
    var mem' := LinkNode(mem, At(sh.spine, k - 1), p);
    forall i | 0 <= i < k + 1
      ensures sh'.spine[i] in mem'.nodes
      ensures mem'.nodes[sh'.spine[i]] == Node(ArrayAt(sh', i), At(sh'.spine, i + 1))
    {
      if i < k {
        assert sh.spine[i] in mem.nodes && sh'.spine[i] == sh.spine[i];
      }
    }
  }

  lemma InsertedValues<K, V>(m: map<K, V>, k: K, v: V)
    requires k !in m
    ensures m[k := v].Values == m.Values + {v}
  {
    var m' := m[k := v];
    forall x | x in m.Values + {v} ensures x in m'.Values {
      if x in m.Values {
        var j :| j in m && m[j] == x;
        assert m'[j] == x;
      } else {
        assert m'[k] == x;
      }
    }
  }

  /** The memory once node `n` points to a cleared array `p`. */
  function LinkArray(g: Geo, mem: Mem, n: Ptr, p: Ptr): Mem
    requires n in mem.nodes
  {
    mem.(nodes := mem.nodes[n := mem.nodes[n].(data := p)], arrays := mem.arrays[p := seq(g.qset, _ => NULL)])
  }

  lemma ArrayLinked(g: Geo, mem: Mem, head: Ptr, sh: Shape, i: nat, p: Ptr)
    requires Shaped(g, mem, head, sh) && i < |sh.spine| && i !in sh.arrayOf && p != NULL && !mem.Live(p)
    ensures var sh' := sh.(arrayOf := sh.arrayOf[i := p]);
            Shaped(g, LinkArray(g, mem, sh.spine[i], p), head, sh')
  {
    hide Distinct, Listed, Slotted, Covered, Separate;
    NodeAt(g, mem, head, sh, i);
    ArrayNamed(g, mem, sh, i, p);
    ArrayListed(g, mem, head, sh, i, p);
    ArraySlotted(g, mem, sh, i, p);
    SeparateGrows(mem, LinkArray(g, mem, sh.spine[i], p), p);
  }

  lemma ArrayNamed(g: Geo, mem: Mem, sh: Shape, i: nat, p: Ptr)
    requires Distinct(sh) && Slotted(g, mem, sh) && Covered(mem, sh) && i < |sh.spine| && sh.spine[i] in mem.nodes
    requires i !in sh.arrayOf && p != NULL && p !in mem.arrays
    ensures var sh' := sh.(arrayOf := sh.arrayOf[i := p]);
            Distinct(sh') && Covered(LinkArray(g, mem, sh.spine[i], p), sh')
  {
    InsertedValues(sh.arrayOf, i, p);
  }

  lemma ArrayListed(g: Geo, mem: Mem, head: Ptr, sh: Shape, i: nat, p: Ptr)
    requires Distinct(sh) && Listed(mem, head, sh) && i < |sh.spine|
    ensures Listed(LinkArray(g, mem, sh.spine[i], p), head, sh.(arrayOf := sh.arrayOf[i := p]))
  {
  }

  lemma ArraySlotted(g: Geo, mem: Mem, sh: Shape, i: nat, p: Ptr)
    requires Slotted(g, mem, sh) && i < |sh.spine| && sh.spine[i] in mem.nodes
    requires i !in sh.arrayOf && p !in mem.arrays
    ensures Slotted(g, LinkArray(g, mem, sh.spine[i], p), sh.(arrayOf := sh.arrayOf[i := p]))
  {
  }

  /** The memory once slot `s` of array `a` points to a quantum `p` holding `bytes`. */
  function LinkQuantum(mem: Mem, a: Ptr, s: nat, p: Ptr, bytes: seq<byte>): Mem
    requires a in mem.arrays && s < |mem.arrays[a]|
  {
    mem.(arrays := mem.arrays[a := mem.arrays[a][s := p]], quanta := mem.quanta[p := bytes])
  }

  lemma QuantumLinked(g: Geo, mem: Mem, head: Ptr, sh: Shape, pl: Place, p: Ptr, bytes: seq<byte>)
    requires Shaped(g, mem, head, sh) && pl.item in sh.arrayOf && pl.slot < g.qset && pl !in sh.quantumOf
    requires p != NULL && !mem.Live(p) && |bytes| == g.quantum
    ensures var sh' := sh.(quantumOf := sh.quantumOf[pl := p]);
            Shaped(g, LinkQuantum(mem, sh.arrayOf[pl.item], pl.slot, p, bytes), head, sh')
  {
    hide Distinct, Listed, Slotted, Covered, Separate;
    SlotAt(g, mem, head, sh, pl.item, pl.slot);
    QuantumDistinct(g, mem, sh, pl, p);
    QuantumCovered(mem, sh, pl, p, bytes);
    QuantumListed(mem, head, sh, pl, p, bytes);
    QuantumSlotted(g, mem, sh, pl, p, bytes);
    SeparateGrows(mem, LinkQuantum(mem, sh.arrayOf[pl.item], pl.slot, p, bytes), p);
  }

  lemma QuantumDistinct(g: Geo, mem: Mem, sh: Shape, pl: Place, p: Ptr)
    requires Distinct(sh) && Slotted(g, mem, sh) && p != NULL && p !in mem.quanta
    ensures Distinct(sh.(quantumOf := sh.quantumOf[pl := p]))
  {
  }

  lemma QuantumListed(mem: Mem, head: Ptr, sh: Shape, pl: Place, p: Ptr, bytes: seq<byte>)
    requires Listed(mem, head, sh) && pl.item in sh.arrayOf
    requires sh.arrayOf[pl.item] in mem.arrays && pl.slot < |mem.arrays[sh.arrayOf[pl.item]]|
    ensures Listed(LinkQuantum(mem, sh.arrayOf[pl.item], pl.slot, p, bytes), head,
                   sh.(quantumOf := sh.quantumOf[pl := p]))
  {
  }

  lemma QuantumCovered(mem: Mem, sh: Shape, pl: Place, p: Ptr, bytes: seq<byte>)
    requires Covered(mem, sh) && pl.item in sh.arrayOf && pl !in sh.quantumOf
    requires sh.arrayOf[pl.item] in mem.arrays && pl.slot < |mem.arrays[sh.arrayOf[pl.item]]|
    ensures Covered(LinkQuantum(mem, sh.arrayOf[pl.item], pl.slot, p, bytes), sh.(quantumOf := sh.quantumOf[pl := p]))
  {
    InsertedValues(sh.quantumOf, pl, p);
  }

  /** A quantum added under a new address adds its place to what is held. */
  lemma QuantumHeld(g: Geo, mem: Mem, head: Ptr, sh: Shape, pl: Place, p: Ptr, bytes: seq<byte>)
    requires Shaped(g, mem, head, sh) && pl !in sh.quantumOf && p !in mem.quanta
    ensures Held(mem.quanta[p := bytes], sh.quantumOf[pl := p]) == Held(mem.quanta, sh.quantumOf)[pl := bytes]
  {
  }

  lemma QuantumSlotted(g: Geo, mem: Mem, sh: Shape, pl: Place, p: Ptr, bytes: seq<byte>)
    requires Distinct(sh) && Slotted(g, mem, sh) && pl.item in sh.arrayOf && pl.slot < g.qset && pl !in sh.quantumOf
    requires p !in mem.quanta && |bytes| == g.quantum
    ensures var sh' := sh.(quantumOf := sh.quantumOf[pl := p]);
            Slotted(g, LinkQuantum(mem, sh.arrayOf[pl.item], pl.slot, p, bytes), sh')
  {
    var sh' := sh.(quantumOf := sh.quantumOf[pl := p]);
    var mem' := LinkQuantum(mem, sh.arrayOf[pl.item], pl.slot, p, bytes);
    forall i, s | i in sh.arrayOf && 0 <= s < g.qset
      ensures mem'.arrays[sh.arrayOf[i]][s] == QuantumAt(sh', Place(i, s))
    {
      assert mem.arrays[sh.arrayOf[i]][s] == QuantumAt(sh, Place(i, s));
    }
  }

  /** Overwriting a quantum changes what its place holds and nothing else. */
  lemma QuantumWritten(g: Geo, mem: Mem, head: Ptr, sh: Shape, size: nat, pl: Place, bytes: seq<byte>, size': nat)
    requires Shaped(g, mem, head, sh) && QuantumAt(sh, pl) != NULL && |bytes| == g.quantum
    ensures var mem' := mem.(quanta := mem.quanta[QuantumAt(sh, pl) := bytes]);
            && Shaped(g, mem', head, sh)
            && var st := StoreOf(g, mem, head, sh, size);
               StoreOf(g, mem', head, sh, size') == st.(quanta := st.quanta[pl := bytes], size := size')
  {
    hide Distinct, Slotted, Held;
    WrittenSlotted(g, mem, sh, pl, bytes);
    WrittenHeld(g, mem, sh, pl, bytes);
    assert Listed(mem.(quanta := mem.quanta[QuantumAt(sh, pl) := bytes]), head, sh);
  }

  lemma WrittenSlotted(g: Geo, mem: Mem, sh: Shape, pl: Place, bytes: seq<byte>)
    requires Slotted(g, mem, sh) && pl in sh.quantumOf && |bytes| == g.quantum
    ensures Slotted(g, mem.(quanta := mem.quanta[sh.quantumOf[pl] := bytes]), sh)
    ensures sh.quantumOf[pl] in mem.quanta
  {
  }

  lemma WrittenHeld(g: Geo, mem: Mem, sh: Shape, pl: Place, bytes: seq<byte>)
    requires Distinct(sh) && Slotted(g, mem, sh) && pl in sh.quantumOf
    ensures Held(mem.quanta[sh.quantumOf[pl] := bytes], sh.quantumOf) == Held(mem.quanta, sh.quantumOf)[pl := bytes]
  {
  }

  // ---- taking a shape down from the front ----

  function NodesBelow(sh: Shape, i: nat): set<Ptr> {
    set k | 0 <= k < i && k < |sh.spine| :: sh.spine[k]
  }

  function ArraysBelow(sh: Shape, i: nat): set<Ptr> {
    set k | k in sh.arrayOf && k < i :: sh.arrayOf[k]
  }

  /** The quanta of the items before `i` and of the first `j` slots of item `i`. */
  function QuantaBelow(sh: Shape, i: nat, j: nat): set<Ptr> {
    set pl | pl in sh.quantumOf && (pl.item < i || (pl.item == i && pl.slot < j)) :: sh.quantumOf[pl]
  }

  /** What is left of `mem` once the items before `i` and `j` quanta of item `i` are gone. */
  function Leftover(mem: Mem, sh: Shape, i: nat, j: nat): Mem {
    Mem(mem.nodes - NodesBelow(sh, i), mem.arrays - ArraysBelow(sh, i), mem.quanta - QuantaBelow(sh, i, j))
  }

  lemma NothingShaped(g: Geo)
    ensures Shaped(g, NOTHING, NULL, BARE) && StoreOf(g, NOTHING, NULL, BARE, 0) == TRIMMED
  {
  }

  lemma LeftoverStart(mem: Mem, sh: Shape)
    ensures Leftover(mem, sh, 0, 0) == mem
  {
  }

  /** Once every item is gone nothing is live. */
  lemma LeftoverEnd(g: Geo, mem: Mem, head: Ptr, sh: Shape)
    requires Shaped(g, mem, head, sh)
    ensures Leftover(mem, sh, |sh.spine|, 0) == NOTHING
  {
    var n := |sh.spine|;
    assert forall p | p in mem.nodes :: p in NodesBelow(sh, n);
    assert forall p | p in mem.arrays :: p in ArraysBelow(sh, n);
    assert forall p | p in mem.quanta :: p in QuantaBelow(sh, n, 0);
  }

  /** No address of what is left is live as two kinds of block. */
  lemma LeftoverSeparate(mem: Mem, sh: Shape, i: nat, j: nat)
    requires Separate(mem)
    ensures Separate(Leftover(mem, sh, i, j))
  {
  }

  /** What is live as one kind of block is not live as another. */
  lemma OneKind(mem: Mem)
    requires Separate(mem)
    ensures forall p | p in mem.nodes :: p !in mem.arrays && p !in mem.quanta
    ensures forall p | p in mem.arrays :: p !in mem.nodes && p !in mem.quanta
    ensures forall p | p in mem.quanta :: p !in mem.nodes && p !in mem.arrays
  {
  }

  lemma ShapedSeparate(g: Geo, mem: Mem, head: Ptr, sh: Shape)
    requires Shaped(g, mem, head, sh)
    ensures Separate(mem)
  {
  }

  /** The next node and its array are still there, unchanged. */
  lemma LeftoverItem(g: Geo, mem: Mem, head: Ptr, sh: Shape, i: nat, j: nat)
    requires Shaped(g, mem, head, sh) && i < |sh.spine|
    ensures var left, n := Leftover(mem, sh, i, j), sh.spine[i];
            && n != NULL && n in left.nodes && left.nodes[n] == mem.nodes[n]
            && (i in sh.arrayOf ==> sh.arrayOf[i] in left.arrays
                                    && left.arrays[sh.arrayOf[i]] == mem.arrays[sh.arrayOf[i]])
  {
  }

  /** Each slot of the next array is NULL or points to a quantum that is still there; freeing it
      takes down one slot more. */
  lemma LeftoverSlot(g: Geo, mem: Mem, head: Ptr, sh: Shape, i: nat, j: nat)
    requires Shaped(g, mem, head, sh) && i in sh.arrayOf && j < g.qset
    ensures var left, q := Leftover(mem, sh, i, j), QuantumAt(sh, Place(i, j));
            && mem.arrays[sh.arrayOf[i]][j] == q
            && (q != NULL ==> q in left.quanta)
            && Leftover(mem, sh, i, j + 1) ==
                 if q == NULL then left else left.(quanta := left.quanta - {q})
  {
    hide Listed, Slotted, Covered;
    var q := QuantumAt(sh, Place(i, j));
    SlotAt(g, mem, head, sh, i, j);
    assert QuantaBelow(sh, i, j + 1) == if q == NULL then QuantaBelow(sh, i, j) else QuantaBelow(sh, i, j) + {q} by {
      forall pl | pl in sh.quantumOf && pl.item == i && pl.slot == j ensures pl == Place(i, j) {
      }
    }
  }

  /** Freeing an item's array and node, its quanta gone, takes down the item. */
  lemma LeftoverNext(g: Geo, mem: Mem, head: Ptr, sh: Shape, i: nat, j: nat)
    requires Shaped(g, mem, head, sh) && i < |sh.spine| && j == if i in sh.arrayOf then g.qset else 0
    ensures var left := Leftover(mem, sh, i, j);
            var arrays := if i in sh.arrayOf then left.arrays - {sh.arrayOf[i]} else left.arrays;
            Leftover(mem, sh, i + 1, 0) == Mem(left.nodes - {sh.spine[i]}, arrays, left.quanta)
  {
    hide Distinct, Listed, Covered;
    NodesStep(sh, i);
    ArraysStep(sh, i);
    QuantaStep(g, mem, sh, i, j);
  }

  lemma NodesStep(sh: Shape, i: nat)
    requires i < |sh.spine|
    ensures NodesBelow(sh, i + 1) == NodesBelow(sh, i) + {sh.spine[i]}
  {
  }

  lemma ArraysStep(sh: Shape, i: nat)
    ensures ArraysBelow(sh, i + 1) ==
            if i in sh.arrayOf then ArraysBelow(sh, i) + {sh.arrayOf[i]} else ArraysBelow(sh, i)
  {
  }

  lemma QuantaStep(g: Geo, mem: Mem, sh: Shape, i: nat, j: nat)
    requires Slotted(g, mem, sh) && j == if i in sh.arrayOf then g.qset else 0
    ensures QuantaBelow(sh, i + 1, 0) == QuantaBelow(sh, i, j)
  {
  }
}
