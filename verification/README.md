# A model of fasthttp in Dafny

This project models the hard parts of the Go HTTP library fasthttp and proves what they promise. Protocols between
goroutines are state machines whose steps are the critical sections, channel operations and atomic updates of the
code, and the theorems speak about every interleaving. Code that works in place is a class or a method over arrays,
with its loops, proved against a function of the input. Each area has an independent, simple description of what the
code should do, and a theorem that connects the two.

| files | what they model |
|---|---|
| `ConnPool.dfy`, `ConnPoolProofs.dfy`, `ConnPoolTheorems.dfy`, `ConnPoolCalls.dfy` | HostClient: acquire, release, close, dial for a waiter, cancel, CloseIdleConnections and Clean, all interleaved; what every run keeps, and how every call ends |
| `HostClient.dfy` | the two-stage waiter queue over reused arrays, the pop loops, the binary search of Clean |
| `LinkBuffer.dfy`, `NodeChain.dfy` | the chain of nodes behind a LinkBuffer as a queue of bytes |
| `NodeRefs.dfy`, `NodeTable.dfy`, `BufferRuns.dfy` | the reference counts of nodes that buffers share, who gives memory back and when, and what each buffer holds |
| `DeadlineHeap.dfy`, `Cleaner.dfy` | the 4-ary heap of deadlines and the scheduler that works it off |
| `PathSpec.dfy`, `PathNormal.dfy` | path normalisation in place, against a stack of segments |
| `Uri.dfy`, `UriProofs.dfy`, `UriGrammar.dfy`, `Escaping.dfy`, `QueryArgs.dfy` | parsing and printing URIs and query strings |
| `Wire.dfy`, `Chunked.dfy`, `ChunkedProofs.dfy`, `ChunkedStream.dfy`, `ChunkedErrors.dfy` | the chunked transfer coding: writer, reader, streaming reader |
| `FixedBody.dfy`, `RoundUp.dfy` | bodies with a Content-Length and the three ways to stream them |
| `Headers.dfy`, `HeaderProofs.dfy` | the header scanner, raw header blocks, name spelling, printing |
| `WorkerPool.dfy`, `WorkerPoolProofs.dfy`, `WorkerPoolProgress.dfy` | the server's pool of workers |
| `Pipeline.dfy`, `PipelineProgress.dfy` | one connection of the pipelining client |
| `Ledger.dfy`, `Bytes.dfy` | sums over lists, and searches in bytes |

`dafny verify dfyconfig.toml` checks all of it.

Where the code does something its comments or readers would not expect, the model follows the code:

- `decodeArgAppend` copies everything from a `%` within the last two bytes on. That shows exactly on inputs that end in
  `%+`, whose plus sign stays (`Escaping.EarlyEndShows`, `Escaping.PercentPlusStays`).
- A host that contains `%` after parsing does not survive printing and parsing (`UriProofs.PercentHostIsLost`);
  `http://a%25b/` is one (`UriProofs.PercentHostExample`).
- A streamed chunked body ends with a plain `io.EOF` although it is incomplete exactly when the wire ends behind whole
  chunks, in a size line, or before or in the CRLF behind the data of a chunk (`ChunkedStream.EarlyEofExactly`,
  `ChunkedStream.EarlyEofExample`).
- So does a streamed body that is shorter than its Content-Length, exactly if it is too long to be buffered and the wire
  ends behind the part that was read ahead (`FixedBody.ReadWholeBody`, `FixedBody.ShortBodyIsAccepted`).
- A negative maxBodySize makes `readBodyWithStreaming` panic, exactly if the Content-Length exceeds the size of the
  buffer plus that number (`FixedBody.ReadBodyWithStreaming`, `FixedBody.NegativeLimitPanics`).
- `WriteDirect` into allocated bytes makes two nodes of one memory without a common count. When the buffer has released
  both, the memory is given back although a slice of the first still shows it (`NodeRefs.SplitFreesEarly`,
  `BufferRuns.SliceOutlivesMemory`). Which releases give back what is held is stated exactly (`NodeRefs.SafeExactly`,
  `NodeRefs.SafeRuns`).
- A second split of the same node gives its memory back twice (`NodeRefs.SecondSplitFreesTwice`). Which memory has been
  given back twice (`NodeRefs.TwiceExactly`), which releases give memory back again (`NodeRefs.AgainExactly`,
  `NodeRefs.OnceRuns`) and which splits lead there (`NodeRefs.OneGiverExactly`, `NodeRefs.OneGiverRuns`) are stated exactly.
- A split of a node over the caller's memory hands that memory to the pool (`NodeRefs.ForeignIsFreed`), and no other step
  does (`NodeRefs.OursExactly`, `NodeRefs.OursRuns`). Without a split none of the three happens (`NodeRefs.HeldIsAlive`,
  `NodeRefs.WithoutSplitOnce`).
- The comment on `Slice` says that it releases what has been read; it does so only when the slice spans several nodes
  (`LinkBuffer.LinkBuffer.Slice`).
- `MallocAck(0)` leaves what is pending in the flush node allocated (`LinkBuffer.LinkBuffer.MallocAck`,
  `BufferRuns.AckOfNothingKeepsAll`).
- `update0When` compares with a published deadline that may be stale, and Register reads the clock before it has the
  lock. An item whose deadline passes while Register waits for the lock can be overslept (`Cleaner.AddKeeps`,
  `Cleaner.LockWaitIsOverslept`); one that is added before its deadline never is
  (`Cleaner.EveryRun`, `Cleaner.OversleptExactly`).
- The guard `readyLen <= 2>>10` of `DefaultCleanThresholdFunc` is `readyLen <= 0` (`WorkerPool.DefaultCleanThreshold`).

## Model

| member | source | states |
|---|---|---|
| `ConnPoolProofs.EveryRun` | client.go:1519-1739 | in every interleaving of acquire, release, close, dial for a waiter, cancel, CloseIdleConnections and Clean, for any number of goroutines: the ledger of slots, connections and delivery rights balances, and every waiter and program counter is consistent with it |
| `ConnPoolProofs.KeepStep` | client.go:1519-1627 | every single atomic action of any goroutine keeps that invariant |
| `ConnPoolTheorems.ConnsCountConserved` | client.go:1519-1739 | connsCount is idle + held + delivered but unclaimed + dial slots in flight + taken for closing, never negative, and never above a maxConns that is not negative |
| `ConnPoolTheorems.ExactlyOneOwner` | client.go:1768-1800 | a dialed connection has exactly one owner (idle list, one goroutine, one waiter) until it is closed, and is closed at most once; one delivered to a waiter that then times out is not lost |
| `ConnPoolTheorems.SettledOnce` | client.go:2018-2060 | a wantConn is settled by delivery or by cancel, never both, and its ready channel is closed once, exactly then |
| `ConnPoolTheorems.FailedWaitersCover` | client.go:1578-1590 | failedWaiters is at least the number of settled waiters still queued; len() > 0 implies that a queued waiter still waits |
| `ConnPoolTheorems.WaitsOnlyWhenFull` | client.go:1519-1565 | a goroutine starts to wait only when nothing is idle, connsCount equals maxConns and waiting is allowed |
| `ConnPoolTheorems.NobodyWaits` | client.go:1519-1565 | with waitFreeConnTimeout zero there is never a waiter, in any run |
| `ConnPoolTheorems.ReuseOrder` | client.go:1519-1560 | in every run acquireConn takes, of the idle connections, the one parked last with LIFO and the one parked first with FIFO; the others stay in order |
| `ConnPoolTheorems.IdleInOrder` | client.go:1768-1800 | in every run, with connections taken at both ends and closed in between, the idle list is in the order in which its connections were last parked |
| `ConnPoolTheorems.UntimedState` | client.go:1578-1582 | without a time-out nothing is ever counted as failed, and whoever may still be answered is waiting |
| `ConnPoolTheorems.UntimedNeverIdleWhileQueued` | client.go:1714-1739 | without a time-out the idle list grows and connsCount drops only in states where nobody is queued |
| `ConnPoolTheorems.UntimedRelease` | client.go:1768-1800 | without a time-out each step of a release goes on: pop the oldest waiter, find it waiting, deliver to it |
| `ConnPoolTheorems.UntimedFreedSlot` | client.go:1714-1739 | without a time-out each step of decConnsCount goes on: pop the oldest waiter, start a dial for it, keep connsCount |
| `ConnPoolTheorems.UntimedHandOver` | client.go:1768-1800 | without a time-out, in every continuation of every run, a release that has the lock while w is the oldest waiter hands its connection to w with its third step at the latest, however many steps others take, and w keeps it |
| `ConnPoolTheorems.UntimedRefill` | client.go:1714-1739 | in every such continuation a decConnsCount that has the lock while w is the oldest waiter starts a dial for w with its second step, and w is answered with the second step of that dial |
| `ConnPoolTheorems.DialAnswers` | client.go:1614-1627 | with or without time-outs, a dial started for a waiter leaves it answered after its second step, in every continuation |
| `ConnPoolTheorems.DeliveredStays` | client.go:2028-2060 | without a time-out no step takes back a connection that was delivered to a waiter |
| `ConnPoolCalls.AcquireDecides` | client.go:1519-1560 | in every run, with nothing idle: acquireConn dials and raises connsCount if and only if a slot is free, is refused if and only if connsCount equals maxConns and waiting is not allowed, and becomes a waiter if and only if connsCount equals maxConns and it is |
| `ConnPoolCalls.DialDecides` | client.go:1590-1600 | a dial of its own that succeeds leaves a goroutine with the new connection and the slot; one that fails leads to decConnsCount |
| `ConnPoolCalls.FreeSlotIsUsed` | client.go:1519-1600 | from every reachable state with the lock free, nothing idle and a slot free, a new goroutine has a new connection with its second step |
| `ConnPoolCalls.QueueingBegins` | client.go:1603-1612 | queueForIdle takes the lock as soon as it is free |
| `ConnPoolCalls.QueueingEnds` | client.go:1603-1612 | it drops exactly settled waiters from the front, then puts its own at the end and lets the lock go |
| `ConnPoolCalls.WaitersInOrder` | client.go:1603-1612 | in every run the queue is in the order in which its waiters were queued |
| `ConnPoolCalls.WaitDecides` | client.go:1572-1589 | a waiting caller goes on if and only if its waiter is settled or, with a time-out, its timer fires; it gets exactly the connection that was delivered |
| `ConnPoolCalls.CancelDecides` | client.go:2046-2060 | a waiter that is given up is failed for good, and a connection that had been delivered to it is released, not closed |
| `ConnPoolCalls.GivenUpStays` | client.go:2046-2060 | in every continuation a waiter that was given up has no connection |
| `ConnPoolCalls.ReleaseEnds` | client.go:1768-1800 | a thread that gives a connection back goes on until it is parked at the end of the idle list, which it is only when no waiter is left to be answered, or delivered to a waiter that was waiting; it is never closed |
| `ConnPoolCalls.ReleaseParks` | client.go:1768-1800 | a release that nobody waits for parks its connection with at most two steps |
| `ConnPoolCalls.DialForDecides` | client.go:1614-1621 | a dial for a waiter has a new connection, or fails the waiter once and gives the slot up |
| `ConnPoolCalls.DialForEnds` | client.go:1622-1627 | its connection is delivered if the waiter still waits, else released |
| `ConnPoolCalls.HolderDecides` | client.go:1708-1800 | a caller releases or closes its connection, as it chooses |
| `ConnPoolCalls.ClosingEnds` | client.go:1629-1712 | in every continuation a connection that a goroutine has set out to close is closed or still in its hands |
| `ConnPoolCalls.IdleAreClosed` | client.go:1629-1712 | CloseIdleConnections takes every idle connection and Clean the first k; when the goroutine is done all of them are closed |
| `ConnPoolCalls.LockIsExclusive` | client.go:1519-1800 | while a goroutine has the lock no step of another one changes the idle list, connsCount, the queue or the lock |
| `ConnPoolCalls.NobodyIsStuck` | client.go:1519-1800 | in every run every goroutine that is not done and not waiting for an unsettled waiter can move on, or another one has the lock, which can move on |
| `HostClient.WantConnQueue.constructor` | client.go:2065-2086 | an empty queue |
| `HostClient.WantConnQueue.Len` | client.go:2088-2090 | the number of queued waiters less failedWaiters |
| `HostClient.WantConnQueue.PushBack` | client.go:2093-2095 | appends to head[headPos:] ++ tail |
| `HostClient.WantConnQueue.PopFront` | client.go:2098-2111 | takes the first of head[headPos:] ++ tail, across a swap of the stages that reuses the old head array |
| `HostClient.WantConnQueue.PeekFront` | client.go:2114-2122 | the first of head[headPos:] ++ tail without taking it |
| `HostClient.WantConnQueue.ClearFront` | client.go:2126-2136 | drops exactly the settled waiters before the first one that waits, counts each off failedWaiters, and says whether there were any |
| `HostClient.WantConnQueue.PopWaiting` | client.go:1781-1796 | while failedWaiters covers the settled waiters, a positive len() yields the oldest waiter that waits; the loop ends; nothing is taken otherwise |
| `HostClient.HostClient.ReleaseConn` | client.go:1768-1800 | the connection goes to the oldest waiter that still waits, else to the end of the idle list |
| `HostClient.HostClient.DecConnsCount` | client.go:1714-1739 | the slot goes to a dial for the oldest waiter that still waits, else connsCount drops by one |
| `HostClient.ExpiredPrefix` | client.go:1661-1669 | the binary search of Clean stops at a border between expired and unexpired; in a list sorted by last use it finds exactly the expired ones |
| `NodeChain.TakeFromNode` | nocopy_linkbuffer.go:846-850 | taking bytes out of the node at the read cursor takes them off the front of the queue and leaves the pending bytes |
| `NodeChain.NewLast` | nocopy_linkbuffer.go:750-763 | what hangs behind the write cursor can be replaced by a new node; the queue gains exactly what that node has allocated |
| `NodeChain.FlushBytes` | nocopy_linkbuffer.go:414-433 | flushing every node between the cursors appends the pending bytes, in order, to the readable ones |
| `NodeChain.AckChain` | nocopy_linkbuffer.go:390-411 | setting the write cursor back keeps the readable bytes and a prefix of the pending ones |
| `NodeChain.Insert` | nocopy_linkbuffer.go:519-570 | putting nodes with nothing to read in place of a node keeps the readable bytes and inserts what they have allocated |
| `LinkBuffer.LinkBuffer.constructor` | nocopy_linkbuffer.go:40-49 | a new buffer has nothing to read and nothing pending, and holds one new node |
| `LinkBuffer.LinkBuffer.RecalLen` | nocopy_linkbuffer.go:740-747 | the length changes by delta, and reading empties the peek cache |
| `LinkBuffer.LinkBuffer.IsSingleNode` | nocopy_linkbuffer.go:768-778 | passes empty nodes without changing the queue and tells whether the first bytes lie in one node |
| `LinkBuffer.LinkBuffer.Next` | nocopy_linkbuffer.go:83-118 | the exact first n bytes of the queue across any node boundaries, which leave it; refused, with nothing changed, if there are fewer. They stay in a node that the buffer holds, or are copied to memory that the next Release gives back, or to memory of their own |
| `LinkBuffer.LinkBuffer.Peek` | nocopy_linkbuffer.go:122-178 | the exact first n bytes, queue unchanged; the peek cache stays a prefix of the unread bytes |
| `LinkBuffer.LinkBuffer.PeekAcross` | nocopy_linkbuffer.go:165-175 | the loop over nodes extends any prefix of the queue to the first n bytes |
| `LinkBuffer.LinkBuffer.Skip` | nocopy_linkbuffer.go:181-201 | drops the first n bytes of the queue |
| `LinkBuffer.LinkBuffer.Release` | nocopy_linkbuffer.go:205-225 | releases the nodes that have been read, each once and in order, and holds the rest; readable and pending bytes stay, the caches are empty; nodes of other buffers are not touched |
| `LinkBuffer.LinkBuffer.DropFirst` | nocopy_linkbuffer.go:209-214 | one round of it: the head of the chain is released, queue and pending bytes stay |
| `LinkBuffer.LinkBuffer.Close` | nocopy_linkbuffer.go:582-596 | releases every node the buffer holds, each once, and no other |
| `LinkBuffer.LinkBuffer.ReadBinary` | nocopy_linkbuffer.go:240-295 | the exact first n bytes of the queue, which leave it, always as a copy: nothing stays behind for Release to give back |
| `LinkBuffer.LinkBuffer.ReadByte` | nocopy_linkbuffer.go:298-310 | the first byte of the queue, which leaves it |
| `LinkBuffer.LinkBuffer.IndexOf` | nocopy_linkbuffer.go:706-735 | the first position of a byte at or behind skip, or -1, across nodes |
| `LinkBuffer.LinkBuffer.Until` | nocopy_linkbuffer.go:313-319 | the bytes up to and with the first delimiter; fails exactly if there is none |
| `LinkBuffer.LinkBuffer.Slice` | nocopy_linkbuffer.go:325-370 | the first n bytes become a valid buffer of their own and leave this one; it holds one new node for every node it refers to, all of them held by this buffer; read nodes are released, each once, exactly if the slice has more than one node; no other steps are taken |
| `LinkBuffer.LinkBuffer.AllBytes` | nocopy_linkbuffer.go:601-615 | Bytes: all readable bytes |
| `LinkBuffer.LinkBuffer.Growth` | nocopy_linkbuffer.go:750-763 | the write cursor ends at a reusable node with room, queue and pending bytes unchanged, with at most one new node |
| `LinkBuffer.LinkBuffer.Malloc` | nocopy_linkbuffer.go:375-382 | what the caller writes is appended to the pending bytes |
| `LinkBuffer.LinkBuffer.WriteBinary` | nocopy_linkbuffer.go:497-516 | the block is appended to the pending bytes, copied or as a node of its own |
| `LinkBuffer.LinkBuffer.Flush` | nocopy_linkbuffer.go:414-433 | the pending bytes are appended to the readable ones, none stay pending |
| `LinkBuffer.LinkBuffer.MallocAck` | nocopy_linkbuffer.go:390-411 | n > 0 keeps the first n pending bytes; n == 0 leaves the buffer consistent exactly if nothing was pending in the flush node |
| `LinkBuffer.LinkBuffer.WriteDirect` | nocopy_linkbuffer.go:519-570 | the block is inserted exactly remain bytes before the end of the pending bytes, wherever node boundaries lie; it becomes a node of its own, and with remain > 0 the node it falls into is split, once |
| `LinkBuffer.NewNode` | nocopy_linkbuffer.go:796-809 | an empty node with room for size bytes, and for 4096 unless size is not positive |
| `NodeRefs.EveryRun` | nocopy_linkbuffer.go:864-895 | after every sequence of new, Refer, Split and Release by the holders, every count is that of its holders; a held node shows memory that was given back exactly if another giver of that memory, with all that was referred from it, has been released |
| `NodeRefs.KeepReferred` | nocopy_linkbuffer.go:864-875 | Refer keeps every count equal to its holders |
| `NodeRefs.KeepSplitOff` | nocopy_linkbuffer.go:541-557 | so does the split of WriteDirect, which makes a second node of the same memory with a count of its own |
| `NodeRefs.KeepReleased` | nocopy_linkbuffer.go:880-895 | Release keeps every count equal to its holders, and every memory as often given back as its givers were freed |
| `NodeRefs.GivenBackExactly` | nocopy_linkbuffer.go:880-895 | memory has been given back exactly when some node that gives it back, and every node referred from that one, have been released |
| `NodeRefs.HeldExactly` | nocopy_linkbuffer.go:880-895 | memory that a held node shows has been given back exactly if it has another giver than the node's root, released with all that was referred from it |
| `NodeRefs.ReleaseGives` | nocopy_linkbuffer.go:880-895 | what one Release gives back, and whether somebody still holds it, from what can be checked before the call |
| `NodeRefs.SafeExactly` | nocopy_linkbuffer.go:864-895 | from a state in which nothing held has been given back, a step leads to one in which something held has exactly if it is a Release of the last reference to a giver whose memory another held node shows |
| `NodeRefs.SafeRuns` | nocopy_linkbuffer.go:864-895 | in a whole run nothing that is held is ever given back if and only if no step is such a Release |
| `NodeRefs.SplitFreesEarly` | nocopy_linkbuffer.go:545-551 | new, split, slice of the first half, release of both halves: the memory is given back while the slice holds it |
| `NodeRefs.SecondSplitFreesTwice` | nocopy_linkbuffer.go:545-551 | a node that is split twice: its memory is given back twice |
| `NodeRefs.TwiceExactly` | nocopy_linkbuffer.go:880-895 | memory has been given back more than once if and only if two of its givers, each with all that was referred from it, have been released |
| `NodeRefs.AgainExactly` | nocopy_linkbuffer.go:880-895 | a Release gives back memory that was given back before if and only if it drops the last reference to a giver while another giver of that memory has been released with all that was referred from it |
| `NodeRefs.OnceExactly` | nocopy_linkbuffer.go:864-895 | from a state in which no memory was given back twice, a step leads to one in which some was if and only if it is such a Release |
| `NodeRefs.OnceRuns` | nocopy_linkbuffer.go:864-895 | in a whole run no memory is given back twice if and only if no step is such a Release |
| `NodeRefs.OneGiverExactly` | nocopy_linkbuffer.go:545-551 | a step gives some memory a second giver if and only if it splits a node that does not give its memory back while another one does |
| `NodeRefs.OneGiverRuns` | nocopy_linkbuffer.go:545-551 | after a whole run every memory has at most one giver if and only if no step was such a split |
| `NodeRefs.OursExactly` | nocopy_linkbuffer.go:545-551 | a step makes a giver of memory that is not from the pool if and only if it splits a node over such memory |
| `NodeRefs.OursRuns` | nocopy_linkbuffer.go:545-551 | after a whole run only memory from the pool has a giver if and only if no step was such a split |
| `NodeRefs.ForeignIsFreed` | nocopy_linkbuffer.go:545-551 | a node over the caller's memory is split and released: that memory is given to the pool |
| `NodeRefs.FreedExactly` | nocopy_linkbuffer.go:880-895 | memory with one giver is given back exactly when the giver and every slice of it have been released, and once |
| `NodeRefs.WithoutSplit` | nocopy_linkbuffer.go:864-895 | in runs without a split every node gives back its own memory or none |
| `NodeRefs.WithoutSplitOnce` | nocopy_linkbuffer.go:864-895 | in runs without a split no memory has two givers, none is given back twice, and only memory from the pool is given back |
| `NodeRefs.HeldIsAlive` | nocopy_linkbuffer.go:864-895 | in runs without a split nothing that is held has been given back |
| `NodeTable.RefTable.New` | nocopy_linkbuffer.go:796-809 | a new node is one step of such a run, held and with one reference |
| `NodeTable.RefTable.Refer` | nocopy_linkbuffer.go:864-875 | Refer of a held node is one step of such a run |
| `NodeTable.RefTable.Split` | nocopy_linkbuffer.go:541-557 | the split of a held root is one step of such a run |
| `NodeTable.RefTable.Release` | nocopy_linkbuffer.go:880-895 | Release of a held node, first of its origin and then of itself, is one step of such a run, after which the node is not held |
| `NodeTable.OthersKeep` | nocopy_linkbuffer.go:205-225 | whatever one buffer does to its nodes, a buffer that shares none of them holds what it held |
| `BufferRuns.SliceOutlivesMemory` | nocopy_linkbuffer.go:519-570 | Malloc of 100 bytes, WriteDirect in their middle, Flush, Slice of 30 bytes, Close: the slice is a valid buffer with its bytes, its node is held, and the memory of that node has been given back |
| `BufferRuns.AckOfNothingKeepsAll` | nocopy_linkbuffer.go:390-411 | Malloc, then MallocAck(0): mallocSize is 0 and all the bytes are still pending |
| `DeadlineHeap.SiftUpIsHeap` | client_cleaner.go:115-136 | siftUp repairs a heap that is wrong only above one item, and permutes |
| `DeadlineHeap.SiftUpToRoot` | client_cleaner.go:251-258 | the item reaches the root exactly if it is alone or earlier than the old root |
| `DeadlineHeap.SiftDownIsHeap` | client_cleaner.go:138-179 | siftDown repairs a heap that is wrong only below one item, and permutes |
| `DeadlineHeap.RootIsFirst` | client_cleaner.go:194-201 | the root of a heap has the earliest deadline |
| `DeadlineHeap.SiftUpArray` | client_cleaner.go:115-136 | the loop that moves a hole up the array does what siftUp by swaps does, and nothing behind the heap |
| `DeadlineHeap.SiftDownArray` | client_cleaner.go:138-179 | the loop that moves a hole down the array does what siftDown by swaps does, and nothing behind the heap |
| `DeadlineHeap.EarliestChild` | client_cleaner.go:151-168 | the search in two pairs finds the earliest of up to four children |
| `Cleaner.RunOneKeeps` | client_cleaner.go:181-192 | one Clean of a due root leaves a heap, exchanges that item for at most one that is not due, keeps zeroWhen at or below the root, and one item less is due |
| `Cleaner.AddKeeps` | client_cleaner.go:251-258 | adding keeps heap and zeroWhen for every deadline, however late the timer is. Then the timer does not oversleep, except exactly if the new root's deadline equals the stale published one and the timer is set later, or the item is not the root and the old root was being overslept |
| `Cleaner.FutureIsArmed` | client_cleaner.go:217-230 | a new root whose deadline is still to come when it is added is never taken for a published one |
| `Cleaner.EveryRun` | client_cleaner.go:57-109 | in every run of Register and timer rounds from the empty cleaner zeroWhen never exceeds the root's deadline; if every item was added before its deadline, the timer never oversleeps the root |
| `Cleaner.OversleptExactly` | client_cleaner.go:217-230 | in a whole run the timer never oversleeps the root if and only if no added root's deadline equals the stale published one with the timer set later |
| `Cleaner.LockWaitIsOverslept` | client_cleaner.go:57-88 | a run of three events from the empty cleaner, with positive durations and no oversleeping before the last: an item waits for the lock past its deadline and is overslept |
| `Cleaner.TickedKeeps` | client_cleaner.go:90-109 | one round of the timer loop leads from any ordered state, overslept or not, to one in which the timer does not oversleep |
| `Cleaner.OnceEach` | client_cleaner.go:232-249 | Clean was called exactly once for every item that was due and for no other; the survivors are the others and the rescheduled |
| `Cleaner.NothingDue` | client_cleaner.go:233-236 | the early return of checkItems skips nothing that is due |
| `Cleaner.DurationCleaner.UpdateZero` | client_cleaner.go:217-230 | afterwards the root's deadline is the published one, and the timer does not oversleep it exactly if the published deadline was not that one already with the timer set later |
| `Cleaner.DurationCleaner.DelRoot` | client_cleaner.go:203-215 | the heap without its root, republished |
| `Cleaner.DurationCleaner.RunRoot` | client_cleaner.go:181-192 | the root is rescheduled by at least minDuration, or dropped |
| `Cleaner.DurationCleaner.Register` | client_cleaner.go:57-88 | the clock is read before the lock is taken and again under it; heap and zeroWhen stay right for every deadline; the timer oversleeps exactly in the case of AddKeeps, and never if the deadline is still to come under the lock and it did not before |
| `Cleaner.DurationCleaner.CheckItems` | client_cleaner.go:232-249 | terminates, since fewer items are due after each round; cleans due items only, once each; leaves a heap of items that are all later than now; pollUntil is in the future and not behind the root; the new state is that of the rounds as a function |
| `Cleaner.DurationCleaner.Tick` | client_cleaner.go:90-109 | one round of the loop: the panic is unreachable and the timer does not oversleep the root |
| `PathSpec.NormalIsFixed` | uri.go:597-652 | a path without `//`, `/./`, `/../` and a final `/..` is its own normal form |
| `PathSpec.NormalizedIsNormal` | uri.go:597-652 | the segment stack always yields such a path |
| `PathNormal.RemoveSlashSlash` | uri.go:602-615 | the loop ends, removes every `//` in place, and keeps the normal form |
| `PathNormal.RemoveSlashDotSlash` | uri.go:617-627 | the loop ends, removes every `/./` in place, and keeps the normal form |
| `PathNormal.RemoveSlashDotDotSlash` | uri.go:629-642 | the loop ends, removes every `/../` with the segment before it, and keeps the normal form |
| `PathNormal.RemoveLastDotDot` | uri.go:644-652 | a final `/..` is removed with the segment before it, and the normal form kept |
| `PathNormal.NormalizePath` | uri.go:597-652 | for every input the result is that of the segment stack over the decoded path, starts with `/` and has no `//`, `/./`, `/../` or final `/..` |
| `PathNormal.Rooted` | uri_unix.go:5-12 | the decoded path begins with a slash |
| `PathNormal.QuotedPathIsRead` | bytesconv.go:333-347 | normalising the quoted form of a normal path gives that path back |
| `PathNormal.PathOfIsNormal` | uri.go:597-652 | every normalised path is normal |
| `Escaping.Escape` | bytesconv.go:325-326 | two hexadecimal digits behind `%` that stand for the byte |
| `Escaping.AppendQuotedArg` | bytesconv.go:319-331 | appends the quoted bytes one by one |
| `Escaping.AppendQuotedPath` | bytesconv.go:333-347 | appends the quoted bytes one by one, and a lone `*` as it is |
| `Escaping.DecodeArgAppend` | args.go:543-588 | the fast path and the loop give what decoding byte by byte gives, for every input |
| `Escaping.DecodeArgAppendNoPlus` | args.go:595-623 | the same without plus signs |
| `Escaping.DecodeSlow` | args.go:566-588 | the loop decodes exactly as the definition does, malformed and cut escapes included |
| `Escaping.EarlyEndShows` | args.go:566-588 | stopping at a `%` in the last two bytes changes the result exactly for inputs that end in `%+`, where plus signs are decoded |
| `Escaping.PercentPlusStays` | args.go:566-588 | `%+` is such an input: it stays as it is |
| `Escaping.ArgRoundTrip` | bytesconv.go:319-331 | decoding a quoted argument gives it back |
| `Escaping.PathRoundTrip` | bytesconv.go:333-347 | decoding a quoted path gives it back |
| `Escaping.QuotedArgBytes` | bytesconv.go:319-331 | a quoted argument contains no `&` and no `=` |
| `Escaping.ArgBytes` | bytesconv.go:319-331 | which bytes an argument keeps, and that a blank becomes a plus sign and all others an escape |
| `Escaping.PathBytes` | bytesconv.go:333-347 | which bytes a path keeps |
| `Escaping.QuotedByByte` | bytesconv.go:319-347 | a text is quoted byte by byte |
| `Escaping.UnitsAreDecoded` | args.go:543-623 | every text of plain bytes, plus signs and escapes in either case is decoded to what they mean |
| `Escaping.StrayPercentStays` | args.go:566-588 | a percent sign that begins no escape stays |
| `Uri.UnescapeInPlace` | uri.go:457-517 | the slice is unescaped in its own memory, with the right error otherwise; nothing outside it changes |
| `Uri.DecodeEscapes` | uri.go:505-516 | the second pass overwrites the slice from its start with the decoded bytes and never reaches what it has still to read |
| `Uri.ParseHostInPlace` | uri.go:383-437 | in one array the host is replaced by the parsed host, or the error of the first thing wrong is returned; the three slices of a host with a zone are unescaped and appended to each other over their own memory without a byte being lost |
| `Uri.UnescapeParts` | uri.go:402-417 | that branch: what one part's unescaping and each overlapping append leave of the others |
| `UriProofs.UnescapeExactly` | uri.go:457-517 | unescape succeeds with t if and only if the text is a list of plain host bytes and allowed escapes that mean t |
| `UriGrammar.ParseHostExactly` | uri.go:383-437 | parseHost succeeds with t if and only if the host is a name with an optional port, or an address in brackets with an optional zone and port, in allowed bytes and escapes that mean t |
| `UriGrammar.HostBytes` | uri.go:526-575 | the bytes that may stand in a host as they are |
| `Uri.UserIsRead` | uri.go:319-331 | a user name, password and host written with `:` and `@` are read back, with either part missing too |
| `Uri.UserWasRead` | uri.go:319-331 | whatever is read as userinfo was written in one of those forms before the first `@` |
| `Uri.URI.ParseUri` | uri.go:301-375 | sets exactly the parts that the pure parse gives, or fails as it does |
| `UriGrammar.OriginForm` | uri.go:301-375 | for every host and target without a scheme: parse succeeds exactly if the host parses, with that host in small letters, the path, query and hash of the target, and https or http by isTLS |
| `UriGrammar.AbsoluteForm` | uri.go:301-375 | for every scheme, userinfo, host and target: whatever Host was given, all parts are those of the URI; a query may follow the host directly |
| `UriGrammar.NoHost` | uri.go:876-905 | with no host given and no scheme or authority in the URI: http, no host, and the URI is the target |
| `UriGrammar.RefusedExactly` | uri.go:304-306 | a URI is refused as invalid if and only if it holds a control byte |
| `UriProofs.ParsedHostIsStable` | uri.go:383-437 | a parsed host without `%` is one that parsing leaves alone |
| `UriProofs.ParsedIsPrintable` | uri.go:301-375 | what parse returns can be printed without ambiguity |
| `UriProofs.PrintedIsRead` | uri.go:849-906 | parsing a printed URI gives its scheme, host, path, query and hash |
| `UriProofs.FullUriRoundTrip` | uri.go:301-375 | after every successful parse whose host has no `%`, parsing FullURI again gives the same scheme, host, path, query and hash |
| `UriProofs.PercentHostIsLost` | uri.go:457-517 | if the parsed host has a `%`, parsing FullURI again never gives that host back |
| `UriProofs.PrintAndParse` | uri.go:849-863 | the same two facts about the methods: a URI parsed from the print of another has its fields, or, if the host has a `%`, not its host |
| `UriProofs.PercentHostExample` | uri.go:457-517 | `http://a%25b/` names the host `a%b` and prints as `http://a%b/`, which is refused |
| `QueryArgs.AppendBytes` | args.go:131-146 | appends the print of the argument list |
| `QueryArgs.ArgsScanner.Next` | args.go:503-541 | one pass finds the first piece, its first `=` and its decoded parts; nothing of a reused slot survives |
| `QueryArgs.ParseBytes` | args.go:87-101 | keeps exactly the pieces with a key or a value, in order |
| `QueryArgs.PrintParse` | args.go:131-146 | parsing a printed list of proper arguments gives it back, no-value marks included |
| `QueryArgs.ParsedIsProper` | args.go:87-101 | parsing yields proper arguments only |
| `QueryArgs.ParsePrintParse` | args.go:87-101 | parse, print, parse is parse, for every byte string |
| `QueryArgs.RawArgsAreParsed` | args.go:87-101 | whatever pieces are written, quoted or not: each is split at its first equals sign and decoded, and those with a key or value are kept in order |
| `QueryArgs.MoveBack` | args.go:404-408 | the matching slot is moved behind the last one by one overlapping copy |
| `QueryArgs.DelAllArgs` | args.go:400-413 | exactly the arguments with other keys remain, in order, and no slot is lost |
| `QueryArgs.MovedBackPermutes` | args.go:404-408 | moving a slot back is a permutation and removes it from the shortened list |
| `ChunkedProofs.WriteHexInt` | bytesconv.go:278-297 | fills the buffer from the end with the hexadecimal digits of n |
| `ChunkedProofs.HexDigitsAreRead` | bytesconv.go:278-297 | those digits are worth n, and there are at most k for n below 16 to the power k |
| `ChunkedProofs.WriteChunk` | http.go:2827-2846 | appends one chunk of the grammar with the block as its data, well-formed for every non-empty block shorter than 16 to the power 15 |
| `ChunkedProofs.WriteBodyChunked` | http.go:2676-2701 | appends the chunks of the blocks read and, only after io.EOF, the last chunk; after another read error the coding stays open |
| `Chunked.ReadHexInt` | bytesconv.go:250-276 | at most 15 digits; what is read, what is left unread and each error |
| `Chunked.ReadCrLf` | http.go:3068-3081 | CR LF, or the error and how far it read |
| `Chunked.ParseChunkSize` | http.go:3036-3066 | size, skipped extension, CRLF; what is left unread and each error |
| `Chunked.SkipExtension` | http.go:3042-3059 | leaves the reader at the first CR, or fails at the end of the wire |
| `Chunked.AppendBodyFixedSize` | http.go:2970-2997 | exactly the next n bytes through any short reads, or all there are and io.EOF; for a negative n the panic, with nothing read |
| `Chunked.ReadBodyChunked` | http.go:3004-3034 | data, error and cursor for every wire and limit |
| `ChunkedProofs.ReadsExactlyTheCoding` | http.go:3004-3034 | without a limit it succeeds with given data and rest if and only if the wire is the chunked coding of that data followed by that rest |
| `ChunkedProofs.LimitIsExact` | http.go:3020-3022 | a positive limit refuses exactly the bodies that are longer and changes nothing for the others |
| `ChunkedProofs.LineIsRead` | http.go:3036-3066 | every well-formed size line is read |
| `ChunkedProofs.LineWasRead` | http.go:3036-3066 | only well-formed size lines are read |
| `ChunkedProofs.ChunkedRoundTrip` | http.go:2676-2701 | for every list of blocks shorter than 16 to the power 15, what was written is read back as their concatenation, and the trailer section is left unread |
| `ChunkedProofs.AbortedIsSeen` | http.go:2676-2701 | a body whose writer stopped at another error is read as its blocks and io.EOF, never as complete |
| `ChunkedStream.RequestStream.Read` | streaming.go:25-63 | one call moves bytes from what is to come to the caller, for every destination size and short read, or ends as it must |
| `ChunkedStream.Drain` | streaming.go:25-63 | for every wire, destination sizes and short reads the stream reaches the last chunk exactly if readBodyChunked succeeds, with the same bytes and the reader in the same place |
| `ChunkedStream.StreamAgrees` | streaming.go:25-63 | the same as a statement about every wire; an early io.EOF stands where readBodyChunked fails with io.EOF |
| `ChunkedStream.EarlyEofExactly` | streaming.go:30-62 | the stream reports io.EOF on an incomplete body if and only if the wire is whole chunks followed by nothing, by a size line cut before its LF, by a line and data without CRLF, or by a chunk cut between CR and LF |
| `ChunkedStream.EarlyEofExample` | streaming.go:30-62 | `1 CR LF a` is such a wire |
| `ChunkedStream.EarlyEofBytes` | streaming.go:30-62 | at an early io.EOF the stream has delivered what readBodyChunked returns beside its error, if and only if the wire was not cut between CR and LF behind a chunk |
| `ChunkedErrors.FaultIsReported` | http.go:3004-3081 | behind any good chunks a missing digit, too many digits, a size line or data without CR LF is reported as that, by readBodyChunked and by the stream, with the data before it |
| `ChunkedErrors.WriteExample` | http.go:2676-2701 | abc is written as `3 CR LF abc CR LF 0 CR LF` |
| `FixedBody.TwoBytesReader.Read` | http.go:2010-2030 | delivers the first part and then the second, with no empty read before the end |
| `FixedBody.PrefetchedStream.Read` | streaming.go:64-85 | delivers the prefetched bytes, then the rest of the body from the wire and no more |
| `FixedBody.ReadAhead` | http.go:2872-2879 | the least of the limit, the Content-Length and 8192 |
| `FixedBody.ReadBodyWithStreaming` | http.go:2863-2913 | for every limit, negative ones included: which strategy is chosen, what it has read, where it leaves the reader, when it fails and when it panics |
| `FixedBody.ReadBodyStream` | http.go:1927-1955 | the stream it hands out holds exactly the body, or there is none and which error is returned |
| `FixedBody.ReadWholeBody` | http.go:1927-1955 | for every Content-Length, limit, buffer size and read sizes, draining gives the first Content-Length bytes and leaves the reader behind them. A body that the wire cuts short is refused if it fits into the buffer plus the limit and plus 8192; a longer one is handed over, without an error, if and only if the first bytes of it, as many as the limit or 8192, have arrived |
| `FixedBody.ShortBodyIsAccepted` | streaming.go:64-85 | two bytes of a hundred announced reach the handler without an error |
| `FixedBody.NegativeLimitPanics` | http.go:2863-2913 | limit -1, a buffer of 16 and a Content-Length of 100: the panic, for every wire |
| `RoundUp.RoundsUp` | round2_64.go:5-23 | never less than n; up to 100 MB the least power of two that is not |
| `Headers.CanonicalTwice` | header.go:3729-3748 | spelling a name canonically twice changes nothing more |
| `Headers.NormalizeHeaderKey` | header.go:3729-3748 | the in-place loop yields the canonical spelling, by position: a letter at the beginning or behind a separating dash is a capital, any other letter is small, all other bytes stay |
| `Headers.CanonicalIsSpelled` | header.go:3729-3748 | the same of the spelling as a function |
| `Headers.ContentType` | header.go:3729-3748 | content-type is spelled Content-Type |
| `Headers.HeaderScanner.FindColon` | header.go:3541-3565 | the cached colon is the one a search finds; the error of a line without a name |
| `Headers.HeaderScanner.TakeValue` | header.go:3570-3628 | the cached newline is the one a search finds; the trimmed value, and what the caches know of the next line |
| `Headers.HeaderScanner.Next` | header.go:3524-3634 | for every buffer the next field is that of the first line, whatever is cached; the scan ends at the empty line; errors |
| `Headers.ValueEnd` | header.go:3590-3612 | finds the continuation lines, and the colon and newline of the next line |
| `HeaderProofs.Scan` | header.go:3524-3634 | the loop over next collects the fields of an unfolded block and its length |
| `HeaderProofs.ScanExactly` | header.go:3524-3565 | the end exactly at an empty line, a field exactly for a colon in a complete first line, a bad name exactly if the first colon is in a later line, else more is needed |
| `HeaderProofs.RawLineIsRead` | header.go:3566-3628 | a name, a colon, any blanks, a value, any blanks, CR LF or LF: the name spelled canonically unless that is switched off, and the value |
| `HeaderProofs.ReadRawHeaders` | header.go:3189-3215 | the length of the block up to and with its first empty line |
| `HeaderProofs.RawExactly` | header.go:3189-3215 | that length is exactly the end of the first LF or CR LF at the beginning or behind another LF |
| `HeaderProofs.SameLength` | header.go:3189-3215 | for every unfolded buffer the scanner accepts, readRawHeaders reports the length the scanner counted |
| `HeaderProofs.AppendHeaderLine` | header.go:2908-2913 | the scanner reads the appended line back, whatever follows it, if and only if name and value are writable |
| `HeaderProofs.LineRoundTrip` | header.go:2908-2913 | a printed line is read back, whatever follows, if and only if the name has no colon or newline and the value no newline and no outer blanks |
| `HeaderProofs.BlockRoundTrip` | header.go:3524-3634 | every list of such fields is read back from its print, without a fold, with hLen its length, which readRawHeaders reports too |
| `HeaderProofs.BlockExactly` | header.go:2908-2913 | a list of fields is found again in its print, line by line and whatever body follows, if and only if every field is writable; a name or value that would start a line of its own never passes |
| `HeaderProofs.CanonicalFieldsStay` | header.go:3729-3748 | canonical names come back as they are |
| `WorkerPool.DefaultCleanThreshold` | workerpool.go:56-90 | asks for a quarter or half of the idle workers, by how many there are and how long those at the quarters have been idle, and for none otherwise |
| `WorkerPoolProofs.KeepApply` | workerpool.go:205-290 | every step keeps the ledger of tokens, connections and workers |
| `WorkerPoolProofs.EveryRun` | workerpool.go:117-290 | so does every interleaving of Serve, worker steps, clean and Stop |
| `WorkerPoolProofs.WorkersConserved` | workerpool.go:205-290 | workersCount is idle + about to be sent to + busy + told to stop or exiting, within MaxWorkersCount; after Stop ready is empty |
| `WorkerPoolProofs.ChannelsAreExclusive` | workerpool.go:146-189 | no channel twice in ready; a channel in ready or about to be sent on is empty, with a waiting worker and no second sender, so no send blocks; a recycled channel is empty |
| `WorkerPoolProofs.ServedOnce` | workerpool.go:182-189 | every accepted connection is in exactly one place and is served at most once, by one worker |
| `WorkerPoolProofs.StopIsFinal` | workerpool.go:117-136 | after Stop no step brings a worker back into ready |
| `WorkerPoolProofs.StopTellsAllIdle` | workerpool.go:128-134 | Stop puts nil into the channel of every idle worker, which was empty, and touches no other channel |
| `WorkerPoolProofs.CleanTakesLongestIdle` | workerpool.go:159-179 | clean tells exactly the n workers that have been in ready longest, each once |
| `WorkerPoolProofs.LastReleasedServesNext` | workerpool.go:205-248 | in every run a connection that finds idle workers goes to the one released last, and the others keep their places |
| `WorkerPoolProofs.ReadyInOrder` | workerpool.go:205-248 | in every run of Serve, worker steps, clean and Stop, ready is in the order in which its workers were last released |
| `WorkerPoolProofs.CleanedWereIdleLongest` | workerpool.go:159-179 | in every run every worker that clean tells to stop was released before every one it leaves |
| `WorkerPoolProgress.AcceptsExactly` | workerpool.go:205-235 | in every run, with no idle worker, a connection is accepted if and only if there are fewer than MaxWorkersCount workers |
| `WorkerPoolProgress.NewWorkerServes` | workerpool.go:205-235 | it is accepted once, workersCount rises by one, and it is on its way to a waiting worker on an empty channel that nobody else will send on |
| `WorkerPoolProgress.ServedReturns` | workerpool.go:237-290 | a worker that has served is the last of the idle ones again, or leaves after Stop |
| `WorkerPoolProgress.NobodyLeavesUnasked` | workerpool.go:250-290 | in every run without clean and Stop workersCount never drops |
| `WorkerPoolProgress.WorkShrinks` | workerpool.go:182-290 | every step other than Serve, clean and Stop leaves less to do, so only finitely many follow each other |
| `WorkerPoolProgress.AllIsServed` | workerpool.go:182-290 | from every reachable state the goroutines that are there bring the pool to rest: every accepted connection served, every remaining worker idle |
| `WorkerPoolProgress.StopEndsAll` | workerpool.go:117-136 | Stop is possible at any time, and then the pool winds down to no worker with every accepted connection served |
| `Pipeline.EveryRunInOrder` | client.go:2694-2845 | written = taken ++ drained ++ chR ++ what the writer still holds, in every run |
| `Pipeline.AnswersInOrder` | client.go:2801-2845 | the k-th response read fills the k-th request written, and chR is exactly what was written and not taken |
| `Pipeline.QueuedInOrder` | client.go:2488-2505 | chW is first in, first out: the writer takes, and a caller ousts, what has waited longest |
| `Pipeline.EveryRunOnce` | client.go:2488-2511 | an item is in exactly one place, or signalled once, or given back |
| `Pipeline.SignalledOnce` | client.go:2627-2676 | done is signalled at most once per submission, and then the item is nowhere else |
| `PipelineProgress.ChannelsBounded` | client.go:2694-2795 | in every run chW and chR hold no more than their capacity |
| `PipelineProgress.WriterStopIsFinal` | client.go:2694-2795 | once the writer has stopped nothing more is written, in every continuation |
| `PipelineProgress.FailedWriteIsLast` | client.go:2745-2790 | a request that could not be written or handed on is answered, and nothing is written after it |
| `PipelineProgress.FailedReadIsLast` | client.go:2825-2845 | a response that could not be read is answered with its error, and no later one is taken for another request |
| `PipelineProgress.WrittenOnce` | client.go:2694-2795 | in every run a request is written at most once |
| `PipelineProgress.ExpiredIsNotWritten` | client.go:2738-2742 | a request whose deadline had passed when the writer took it is answered and never written, in every continuation |
| `PipelineProgress.OustedIsNotWritten` | client.go:2488-2505 | nor is one that was ousted from the queue |
| `PipelineProgress.WhoWaits` | client.go:2488-2845 | in every run: who can go on and what for; the writer does not wait for responses, and a full queue can always be made room in |
| `PipelineProgress.WorkShrinks` | client.go:2488-2845 | every step but a new request leaves less to do |
| `PipelineProgress.AllAreAnswered` | client.go:2627-2676 | from every reachable state the goroutines come to rest with every request answered once, refused, or still queued for the next connection |
| `PipelineProgress.RequestIsAnswered` | client.go:2694-2845 | with both goroutines idle the oldest request is written, answered and signalled, and both are idle again |

## Left out

- Sockets, TLS, dialing, DNS and real time: they are nondeterministic steps, parameters, or byte sequences with a cursor.
- Fairness: that a step which can be taken is taken at some time. `failedWaiters` may over-count after a time-out race, and
  `queueForIdle` does not look at the idle list again, so a timed waiter may wait longer than it had to.
- SetMaxConns while connections are in use: maxConns is fixed in a run.
- A caller that gives a connection back twice: goroutines release or close what they hold once, as RoundTrip does.
- `HostClient.HostClient.ReleaseConn`: models the locked section alone; how it interleaves with cancelling waiters is in the state machine.
- `HostClient.HostClient.DecConnsCount`: models the locked section alone, as above.
- The bytes of shared memory: nodes hold values, so writes of a caller into what it was handed, and what a pool puts into
  memory that was given back, are not seen. Which memory is given back, and when, is.
- `LinkBuffer.LinkBuffer.MallocAck`: not for a batch that also used WriteDirect, whose new node shares memory with the one before it; that it sets the counts behind the write cursor to 1 is not modelled: they are 1.
- Nodes that growth and WriteBinary drop from behind the write cursor: the source leaves them to the garbage collector, so they stay held in the table.
- `LinkBuffer.LinkBuffer.AllBytes`: not for slices, where Bytes of the source has no flush node to read.
- WriteBuffer, Append, GetBytes, book, bookAck and resetTail of LinkBuffer.
- `Cleaner.DurationCleaner.Register`: items are values, not reused pointers, and deadlines are unbounded integers.
- `Cleaner.DurationCleaner.Tick`: the time between reading the clock and setting the timer is not counted.
- The Windows branch of normalizePath, updateBytes, and userinfo in FullURI, which the source does not print.
- DisablePathNormalizing and parsed query arguments in RequestURI.
- Folded header values: `normalizeHeaderValue` and its shrinking in place are not modelled.
- `Headers.HeaderScanner.Next`: says nothing about the value of a folded line.
- `HeaderProofs.Scan`: for blocks without folded lines.
- `HeaderProofs.BlockExactly`: by the scan line by line; what the source makes of a print that folds is not modelled.
- The trailer section, and a chunked stream after its first io.EOF.
- Readers that return data and io.EOF in one call: the wire reports its end in a call of its own.
- Write errors while a chunked body is written.
- `FixedBody.ReadBodyStream`: not for chunked, identity or empty bodies, nor the multipart branch; the parts point into no buffer.
- readBodyIdentity, AppendUint, parseUintBuf and initHeaderV.
- `WorkerPool.DefaultCleanThreshold`: takes the ages of workers instead of reading the clock.
- A worker pool that is started again after Stop, and channels without a buffer, whose runs are among those modelled.
- Restarts of the pipelining connection: one run of worker is modelled.
- Compression, static files, the serving loop, cookies, multipart forms, adaptors and the load balancer.
