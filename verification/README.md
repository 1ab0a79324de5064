# A model of the memory-backed character device, the circular buffer and the message device

The kernel module `lkm_mev.c` keeps a file's bytes in memory: a container owns a list of nodes, a node
may own an array of pointers, a pointer may own a block of bytes (a quantum). Reading and writing turn
a file position into list item, slot and offset, follow and extend the list, and move at most one
quantum; opening for writing only throws everything away. Allocations, user copies and the wait for the
semaphore may all fail. This project models that device at four levels and connects them:

- `Mev.dfy` is the driver itself: a container whose fields the operations update in place, over a kernel
  whose memory maps live addresses to blocks. No address is live as two blocks, of one kind or of two. A
  NULL or dangling pointer cannot be followed, a block can be freed only while it is live as the block it
  was allocated as, and what `kmalloc`, the user copies and signals choose is arbitrary.
- `SparseStore.dfy` says what each operation does to list length, arrays, quanta and size, as a
  relation; `Memory.dfy` says which memory represents which store and proves the ways it grows and
  is taken down.
- `FlatDevice.dfy` is the reference: a size and a sparse map from position to byte. Every step and
  every run of the store is one of the reference device.
- `Histories.dfy` and `Transfers.dfy` prove what whole runs guarantee, `Client.dfy` loops over the driver
  to store and fetch; `Protocol.dfy` lets any number of concurrent callers interleave, in steps as small
  as one node of the list.

`Addressing.dfy` is the position arithmetic, with the driver's 32-bit variables; `Basics.dfy` holds the
division lemmas. The sizes of quantum and array are arbitrary positive numbers whose product fits an
`int`; the driver's 4000 and 1000 are one instance.

The driver keeps the list item of a position in an `int` (lkm_mev.c:306, 433). Reads and writes of the
model compute it in 32 bits and use whatever place comes out. A position below 2^31 items is *in range*:
`Truncation.dfy` proves that reads and writes work at the position's own place exactly there, and shows
what goes wrong at 2^32 items. Everything said about runs of the driver is about positions in range.

`CircularBuffer.dfy` models the circular buffer of the rehearsals and `MessageDevice.dfy` the read
cursor of `lkm_device.c`.

Where the model takes a side:

- A position whose 32-bit item is negative (from 2^31 to 2^32 items, and so on modulo 2^32) has no
  behaviour in the model: the driver counts the item down to zero (lkm_mev.c:221), which for a negative
  one overflows and is undefined in C.
- The initial state is the one a trim leaves. `lkm_mev_init` allocates the container without clearing
  it (lkm_mev.c:139), so this is the intended start rather than what the code sets up.
- A read in a hole returns 0 rather than zero bytes (lkm_mev.c:353-358); so does one at or past the size.
- A write of no bytes still allocates and may raise the size to its position (lkm_mev.c:515-523).
- A user copy of no bytes cannot fault.
- Which of the message device's puts fault is given, for every put that will ever be made; one past the
  user's buffer faults too (lkm_device.c:81).
- A fresh quantum holds arbitrary bytes: it is not cleared (lkm_mev.c:490-496).

## Model

| member | source | states |
|---|---|---|
| Addressing.AddressRoundTrip | lkm_mev.c:338-344 | every position has an item, slot and offset inside the geometry, and they stand for that position again |
| Addressing.AddressUnique | lkm_mev.c:450-456 | no other item, slot and offset stand for it |
| Addressing.QuantumNumber | lkm_mev.c:338-344 | the nested divisions number the quanta consecutively: item * qset + slot is p / quantum, the offset is p % quantum |
| Addressing.SamePlace | lkm_mev.c:450-456 | two positions share item and slot exactly when they share p / quantum |
| Addressing.ClippedTransfer | lkm_mev.c:360-365 | a transfer clipped to its quantum stays in one slot, at consecutive offsets |
| Addressing.MachineAddress | lkm_mev.c:303-344 | the 32-bit item is the true one if and only if the position is below 2^31 items; slot and offset are right everywhere |
| Addressing.DriverAddress | lkm_mev.c:41-42 | the same for the driver's sizes: exactly the positions below 2^31 * 4000000 |
| Truncation.WritesRightExactlyInRange | lkm_mev.c:450-461 | the driver's writes are those of the position's own place if and only if the position is below 2^31 items |
| Truncation.ReadsRightExactlyInRange | lkm_mev.c:338-353 | the same for reads, over every well-formed store |
| Truncation.WrapsToTheStart | lkm_mev.c:450 | a failing input: a byte written at 2^32 * 4000000 lands at position 0, the size is then beyond what the list can hold, and a read at 4000000 makes the list grow |
| SparseStore.RunKeepsOk | lkm_mev.c:518-523 | in every state of every run arrays hang from nodes, quanta from arrays, and the size is within list length * quantum * qset |
| SparseStore.ReadFindsItsNode | lkm_mev.c:320-349 | a read that passes the size check finds its list item, so following the list allocates nothing |
| SparseStore.UntroubledIsDone | lkm_mev.c:296-528 | in a history with no failed reply of any kind every read and write is done |
| FlatDevice.ReadRefines | lkm_mev.c:320-377 | a read delivers exactly the bytes the position map has at its positions, as many as size, hole and quantum allow |
| FlatDevice.WriteRefines | lkm_mev.c:447-523 | a write maps exactly its quantum; a successful one stores its bytes at [pos, pos + n) and keeps all other mapped bytes; a faulted one keeps the size and every mapped byte outside its clipped range |
| FlatDevice.NoMemoryKeepsView | lkm_mev.c:461-494 | a write that runs out of memory at any allocation leaves position map and size as they were, and can only happen where no quantum is |
| FlatDevice.StepRefines | lkm_mev.c:280-282 | each open, read and write of the store is one of the reference device |
| FlatDevice.RunRefines | lkm_mev.c:296-528 | every run of the store, with any failures and faults, is a run of the reference device with the same replies and data |
| FlatDevice.ViewWhole | lkm_mev.c:486-497 | positions are mapped a quantum at a time |
| Memory.OwnershipConserved | lkm_mev.c:202-243 | as many nodes, arrays and quanta are live as the store has items, arrays and quanta, all at different addresses: no leak, no sharing, within a kind or across kinds |
| Memory.NodeLinked | lkm_mev.c:224-235 | linking a cleared node behind the last one extends the list by one item and keeps everything else in shape |
| Memory.ArrayLinked | lkm_mev.c:472-484 | hanging a cleared array from a node without one keeps the structure in shape |
| Memory.QuantumLinked | lkm_mev.c:486-497 | hanging a quantum from an empty slot keeps the structure in shape |
| Memory.QuantumWritten | lkm_mev.c:506-513 | overwriting a quantum changes what its place holds and nothing else |
| Memory.LeftoverSlot | lkm_mev.c:399-406 | while trimming, each slot not yet visited is NULL or points to a quantum that is still live |
| Memory.LeftoverNext | lkm_mev.c:408-414 | with its quanta gone, freeing an item's array and node takes down exactly that item |
| Memory.LeftoverEnd | lkm_mev.c:395-414 | when every item has been taken down nothing is live |
| Mev.Container.constructor | lkm_mev.c:416-419 | the state a trim leaves: in shape, empty, semaphore free |
| Mev.Container.Extend | lkm_mev.c:209-235 | one node is allocated, cleared and linked at the end of the list, or the list stays as it was |
| Mev.Container.Follow | lkm_mev.c:202-243 | returns the n-th node of a list of length max(old, n + 1), or NULL after one failed allocation with a list no longer than n; old nodes keep their place and everything they own, new ones own nothing; a list long enough stays untouched |
| Mev.Container.Locate | lkm_mev.c:338-344 | item, slot and offset as the 32-bit variables get them: slot and offset are right, the item is the truncated one |
| Mev.Container.Find | lkm_mev.c:349-358 | a read's lookup: the quantum of the place, NULL exactly if there is none; the list may grow, but not towards an item that is there |
| Mev.Container.ArrayOf | lkm_mev.c:472-484 | the item has its pointer array afterwards, or nothing changed and one allocation failed |
| Mev.Container.QuantumOf | lkm_mev.c:486-497 | the slot has its quantum afterwards, an existing one with its bytes, or nothing changed and one allocation failed |
| Mev.Container.Reserve | lkm_mev.c:461-497 | the three allocations before a write's copy, with the store each failing point leaves |
| Mev.Container.WriteLocked | lkm_mev.c:447-523 | while the semaphore is held a write is a step of the store at the place of the driver's 32-bit item, and keeps live blocks = reachable blocks on every exit |
| Mev.Container.Write | lkm_mev.c:423-528 | the whole write, semaphore free again on every path: a step at the place of the 32-bit item, which in range is the position's own place and keeps the size within the list; the return value is -ENOMEM exactly if an allocation failed, -EFAULT exactly if the copy did, -ERESTARTSYS exactly if the wait was interrupted, otherwise what was written, by which the file position moves |
| Mev.Container.ReadLocked | lkm_mev.c:320-377 | while the semaphore is held a read looks at the place of the 32-bit item; it changes no memory, list or size if that item is in the list or the position past the size, and no byte of the user's buffer behind those it delivers (or, on a fault, was to deliver) |
| Mev.Container.Read | lkm_mev.c:296-382 | the whole read: the user's buffer gets what the store holds at the place of the 32-bit item and is untouched behind it; the file position moves by the return value if that is not an error; in range the place is the position's own and the structure is unchanged |
| Mev.Container.Trim | lkm_mev.c:386-420 | frees every block once, only while it is live as that kind of block and no other, none is used after it is gone, nothing is live afterwards; sizes and size are reset |
| Mev.Container.Open | lkm_mev.c:257-285 | opening for writing only starts over, any other opening leaves the contents alone |
| Mev.Container.Down | lkm_mev.c:439-445 | the semaphore is taken, or the wait was interrupted and it is not |
| Mev.Serve | lkm_mev.c:75-85 | any sequence of calls at positions in range, whatever fails, is a run of the store and of the reference device that answers each call; there are exactly as many replies of each kind of error as failures of that kind, so without failures every read and write is done |
| Histories.WrittenByteStays | lkm_mev.c:506-523 | a successfully written byte stays mapped, unchanged and below the size until a trim, an overlapping write or an overlapping faulted write |
| Histories.LastWriteWins | lkm_mev.c:367-377 | a byte a read returns is that of the most recent successful write at its position, if no trim and no faulted write came in between |
| Histories.SizeIsHighWater | lkm_mev.c:515-523 | the size is the largest end of a successful write since the last trim, zero-length ones included, 0 if there is none |
| Histories.SizeGrows | lkm_mev.c:518-523 | between trims the size never decreases |
| Histories.QuantaAreThoseReached | lkm_mev.c:486-497 | the allocated quanta are exactly those of the writes since the last trim that got past quantum allocation |
| Histories.ArraysAreThoseReached | lkm_mev.c:472-484 | the arrays are exactly those of the items where a write since the last trim got past array allocation |
| Histories.ListLength | lkm_mev.c:202-243 | since a trim the list reaches the item of every write that got past the list walk, and is no longer than some uninterrupted write asked for; if none stopped on the way it is exactly the largest item + 1 |
| Histories.AtMostOneBlock | lkm_mev.c:472-497 | one operation adds at most one array and one quantum, and none unless it is a write |
| Histories.GapFreeHasNoHoles | lkm_mev.c:518-523 | if every successful write since the trim started at or before the size it found, no hole lies below the size |
| Transfers.WriterCost | lkm_mev.c:499-516 | each call of a retrying writer takes one quantum off what is left, so it is done after exactly as many calls as its bytes span quanta and cannot go on longer |
| Transfers.WriterStores | lkm_mev.c:506-523 | what a retrying writer has stored so far is there, everything else mapped is unchanged |
| Transfers.ReaderCost | lkm_mev.c:327-377 | each call of a retrying reader takes one quantum off what is left, so it is done after exactly as many calls as its bytes span quanta and cannot go on longer |
| Transfers.ReaderGets | lkm_mev.c:327-377 | a retrying reader of mapped bytes has at every point got exactly the first of them, in order, and changed nothing |
| Transfers.RoundTrip | Makefile:177-178 | the writer is done exactly when it has made one call a quantum, (p + n - 1) / quantum - p / quantum + 1 in all; a reader then gets a prefix of the bytes, all of them exactly after as many calls; after a trim the next read gets nothing |
| Transfers.ReadsDeliver | lkm_mev.c:320-365 | in every run from the trimmed state a successful read delivers exactly the bytes from its position on, min(count, end of what is readable, end of the quantum) of them |
| Transfers.SequentialBytes | lkm_mev.c:353-377 | a reader with counts of its own choice gets the map's bytes in order, stops exactly at the least position at or past the size or in a hole, and is told so at the latest after one call a byte |
| Transfers.HolesEndReads | lkm_mev.c:320-365 | the same within a run from the trimmed state; without gaps between the writes it stops at the size |
| Client.StoreAll | lkm_mev.c:499-516 | a loop of writes over the driver: one call a quantum, gives up only if something failed; what was stored is there either way and all other mapped bytes are kept |
| Client.FetchAll | lkm_mev.c:353-377 | a loop of reads over the driver: without a failure it gets the bytes up to its count or the end of what is readable, in one call a quantum and one more if there are fewer than it wants; it changes nothing |
| Client.StoreAndFetch | Makefile:176-178 | stored bytes come back, each way in as many calls as they span quanta, unless a call failed; then a prefix of what was stored comes back |
| Protocol.WorkKeepsProgress | lkm_mev.c:447-523 | after every small step of the holder the store is on the way from what it found to a result a whole operation allows |
| Protocol.MutualExclusion | lkm_mev.c:312-380 | in every reachable state of any number of callers, semaphore count plus holders is one |
| Protocol.SnapshotsNeverStale | lkm_mev.c:430-439 | the sizes a caller read before it got the semaphore are still the container's |
| Protocol.Linearisable | lkm_mev.c:303-381 | every interleaving amounts to a sequential order of whole operations: each is the very request its task began, takes effect within its call and is what the caller is told on return; those not returned are one to one with the callers about to return; calls that did not overlap keep their order |
| Protocol.EveryCallOnce | lkm_mev.c:303-381 | every call begun has taken effect once, or is still waiting or at work; every return is that of an operation that took effect |
| Protocol.ErrorsHaveCauses | lkm_mev.c:439-527 | an operation is answered with an error exactly if an allocation or user copy of its task failed while it was at work, and with -ERESTARTSYS exactly if its wait was interrupted |
| Protocol.NeverStuck | lkm_mev.c:312-380 | no deadlock: while any task is in a call, some task can get further without anything failing |
| Protocol.WorkCountsDown | lkm_mev.c:221-240 | an operation at item i gives the semaphore back after at most i + 7 steps |
| Protocol.CallersAreFree | lkm_mev.c:439-445 | any task may begin any request in range at any time, and any waiting one may be interrupted, without a trace in the store |
| Protocol.ReadsChangeNothing | lkm_mev.c:320-349 | while a read holds the semaphore the store is what the last operation left |
| Protocol.LogOnlyGrows | lkm_mev.c:525-527 | what has taken effect stays in effect, in the same order |
| CircularBuffer.LatestInPlace | rehearsals/circular-buffers/simple_circular_buffer.c:59-64 | the array shows each of the latest N accepted values at its index mod N, read or not |
| CircularBuffer.UntouchedIsZero | rehearsals/circular-buffers/simple_circular_buffer.c:28-31 | slots no value has gone to show 0 |
| CircularBuffer.RingIsQueue | rehearsals/circular-buffers/simple_circular_buffer.c:41-46 | the ring from the read index on shows the accepted values not yet read, in order |
| CircularBuffer.Buffer.Fifo | rehearsals/circular-buffers/simple_circular_buffer.c:33-65 | accepted values = values read, then values waiting; at most N wait; the write index is where they end |
| CircularBuffer.Buffer.Read | rehearsals/circular-buffers/simple_circular_buffer.c:33-49 | the oldest waiting value, from slot k % N for the k-th read; on an empty buffer -1, and nothing changes |
| CircularBuffer.Buffer.Write | rehearsals/circular-buffers/simple_circular_buffer.c:51-65 | the value goes last in line, to slot k % N for the k-th accepted; a full buffer stays as it is |
| CircularBuffer.QueueConserves | rehearsals/circular-buffers/simple_circular_buffer.c:33-65 | over any history a bounded queue never exceeds its capacity, and what it accepted is what it gave out followed by what it holds |
| CircularBuffer.QueueOfKept | rehearsals/circular-buffers/simple_circular_buffer.c:33-65 | after any history the queue accepted exactly the values of the puts not refused, gave out the first of them, one for each take not refused, and holds the rest |
| CircularBuffer.NothingRefused | rehearsals/circular-buffers/simple_circular_buffer.c:35-56 | nothing is refused if and only if at all times 0 <= puts - takes <= N |
| CircularBuffer.BalancedFifo | rehearsals/circular-buffers/simple_circular_buffer.c:33-65 | then all values put are accepted, the first `takes` of them are taken and the rest is there |
| CircularBuffer.BalancedResults | rehearsals/circular-buffers/simple_circular_buffer.c:41-48 | and the reads return the first values put, in order |
| CircularBuffer.Perform | rehearsals/circular-buffers/simple_circular_buffer.c:75-100 | over any history the buffer ends as the bounded queue does, array contents included, and its reads return what the queue gives out: in a balanced history the first values put, in order |
| MessageDevice.OneByteLostPerFault | lkm_device.c:79-90 | in whatever became of the bytes of the repetition, the one received after i others and f losses is number i + f |
| MessageDevice.NoFaultsNoGaps | lkm_device.c:76-92 | with nothing lost, what is received is a prefix of the endless repetition |
| MessageDevice.LossesAddUp | lkm_device.c:79-90 | a later byte has at least the losses of an earlier one before it: the stream skips but never steps back |
| MessageDevice.OutputReceived | lkm_device.c:70-93 | the concatenated answers of all reads are what is received, and each faulted read is one loss |
| MessageDevice.GetsThroughUnique | lkm_device.c:79-90 | the user's memory and the buffer's room determine how many bytes a read delivers |
| MessageDevice.OpenAtMostOnce | lkm_device.c:104-116 | over any session two openings never overlap |
| MessageDevice.Session | lkm_device.c:70-125 | any sequence of opens, reads and releases, with puts faulting as the user's memory has it: each read delivers all it is for or stops at the first faulting put, the output of all of them together spells the endless repetition with one byte skipped per faulted read, the cursor stands behind all of that, and an open is refused exactly while the device is open |
| MessageDevice.Device.constructor | lkm_device.c:161-162 | the message is NUL-terminated and the cursor at its start |
| MessageDevice.Device.Put | lkm_device.c:81-89 | the cursor moves on whether the put faults or not; it faults exactly where the user's memory does or past the buffer |
| MessageDevice.Device.Read | lkm_device.c:70-93 | continues the repetition where the last read left it; it delivers min(len, bytes left in the current repetition), or stops at the first put that faults |
| MessageDevice.Device.Open | lkm_device.c:104-116 | one opening at a time; the cursor stays |
| MessageDevice.Device.Release | lkm_device.c:118-125 | the cursor stays |

## Left out

- Blocks as objects: nodes, arrays and quanta are entries of an address-indexed memory that the operations reassign, so that liveness is checked at every access; pointers into the middle of a block are not modelled.
- Wrap-around of `*f_pos + count` in 64 bits: positions and counts are unbounded; the 32-bit variables are part of the model.
- Mev.Container.Read, Mev.Container.Write: a negative 32-bit item, whose counting down to zero is undefined in C, is not followed.
- Protocol.Linearisable: its calls are at positions in range, since the driver's other reads may allocate.
- Trimming while another caller holds the semaphore: `mev_open` does not take it, and Protocol lets a trim happen only while nobody holds it.
- Down: a caller that would block is not modelled in the sequential driver, which starts with a free semaphore; waiting is part of Protocol.
- `lkm_mev_init`, `lkm_mev_setup_cdev`, `lkm_mev_exit`: kernel registration; only the initial state and the trim are kept.
- `mev_ioctl`, `mev_llseek`, `mev_release`: they only return 0; positions are supplied per call.
- `container_of`, the missing-container error of `mev_open`, open flags beyond write-only, log output.
- `lkm_device.c`: registration, `/proc` output, `device_write`, and concurrent opens racing on the open count.
- CircularBuffer.Buffer.Read: the value -1 returned on an empty buffer is told apart from a stored -1 by a flag, which the C function does not have.
- `print_buffer` formatting and the fixed scenario of `main`.
- The other modules, rehearsals and proofs of concept: wrappers around kernel functions, logging and process demonstrations.
