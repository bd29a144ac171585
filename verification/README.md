# Verified core of Pretty5gs

A Dafny model of the parts of this repository that every daemon runs on, and of the SMS
provisioning service, with proofs about them. `dafny verify dfyconfig.toml` checks all of it.

| files | what they model |
|---|---|
| RbShape, RbTree | the intrusive red-black tree: shapes and zippers as values, and the pointer code proved against them |
| TimerQueue, TimerManager, TimerRuns | the timer manager: a queue of deadlines, its reference, the tree that implements it, whole runs |
| HashTable, HashRuns | the chained hash table as a finite map, its growth, free list and iterator, whole runs, and owner-checked removal |
| QueueCalls, QueueRuns, QueueWaits | the bounded queue: critical sections, the ring buffer, all interleavings, the bounded wait, the wake-up protocol |
| Pool, Pkbuf, PkbufRuns | node pools with random ids; packet buffers with size classes, reference counts, fallback and windows |
| RateLimiter | the sliding-window rate limiter and circuit breaker of the provisioning service |
| Utf8, Wbxml, WbxmlReader, WbxmlRoundTrip, WbxmlExact, CpBuilder, CpRoundTrip, Wsp, Sms | the provisioning document: builder, re-parser, WSP push, SMS concatenation |
| Calendar, Bcd | the closed-form day count; semi-octet identities |
| Basics | what the others share |

How the model is built:

- Objects the source updates in place are classes, and every method is proved against a function
  on values; what the source promises is proved about those functions.
- A call on the queue holds the mutex between waits. Each such stretch is one atomic step, and a
  wait may end by a signal, a broadcast, a time-out or for no reason. A signal wakes one sleeper,
  whose wait may still end in a time-out or an error.
- `hash & max` is written `hash % (max + 1)`, which is the same because the table always has a
  power of two of buckets. The hash function is arbitrary. An entry has the octets of its key and
  the memory it points to; the octets do not change while that memory is alive.
- The packet buffers follow the pool build (`OGS_USE_TALLOC == 0`); `lib/core/ogs-core.h:27`
  selects the other build at present. A request above the largest class ends the process there,
  so it is outside the model.
- Clocks, wake-ups, seeds, the outcome of a send, the MAC and the Unicode tables behind
  `str.upper` and `int` are parameters. Time in the rate limiter is real-valued.
- `lib/core/ogs-timer.c:197` says that callbacks may start, stop and delete timers and line 218
  that they should not delete any. The list the callbacks are taken from runs through the timers
  themselves, so the model follows line 218.
- Where the source raises an exception or returns an error code the model returns that case.

Seven statements one might expect are not what the code does, and the exact conditions are proved:

- After owner-checked teardown a lookup does not always find the latest claimant still alive: if
  the latest claimant tears down before an older one the key is gone (`HashRuns.LatestMissed`).
  It always finds it exactly when that never happens (`HashRuns.LatestAlways`).
- `decode_wsp_push` does not stop on every input: a MAC parameter with no NUL after it sends the
  loop back to position 0 (`WspSpec.NeverStops`). It stops exactly otherwise
  (`WspSpec.StopsExactly`).
- `validator.py:5-8` says that the re-parser catches a wrong value-length. It skips any
  (`WspSpec.AnyLengthAccepted`); the one the builder writes is right (`WspSpec.FieldMeasured`).
- The skipped removal that keeps a newer claimant findable can leave its entry with a key in freed
  memory, because a present key keeps the memory it was first stored with
  (`HashRuns.FreedUnderneath`; contexts free it as in `src/ausf/context.c:177-185`). It never
  happens exactly when no teardown frees the memory a key was first stored with while the key
  stays in the table (`HashRuns.KeysAlive`).
- A pop or push can sleep on beside an item or a free slot, when a call that was woken still ends
  in a time-out or an error (`QueueRuns.LateLeavesItem`). It never happens exactly when every such
  call left enough awake ones behind (`QueueRuns.RunCovered`), so never in a run without one
  (`QueueRuns.NoLateCovered`).
- A wake-up of the consumer can be lost (`QueueWakeup.FailedWriteLoses`). It never is exactly when
  the last notification owed never fails on a clear latch while the consumer sleeps beside an item
  (`QueueWakeup.NeverLost`).
- An APN with a NUL character is accepted by the builder and does not survive the round trip
  (`CpRoundTrip.BuiltReadsBack`), and a PDU of more than 255 * 128 octets cannot be rebuilt
  (`Sms.RebuiltExactly`).

## Model

| member | source | states |
|---|---|---|
| RbShape.FillInOrder | lib/core/ogs-rbtree.c:55-90 | the in-order sequence of a tree is that of a subtree between what lies before and after its place, so repairs can be judged locally |
| RbShape.FillRB | lib/core/ogs-rbtree.c:92-210 | a tree satisfies the red-black rules once the subtree and its surroundings do and meet in black height |
| RbShape.HeightUnique | lib/core/ogs-rbtree.c:212-321 | a red-black subtree has one black height |
| RbShape.RotateLeftInOrder | lib/core/ogs-rbtree.c:55-66 | a left rotation leaves the in-order sequence of the whole tree as it was |
| RbShape.RotateRightInOrder | lib/core/ogs-rbtree.c:79-90 | a right rotation leaves the in-order sequence of the whole tree as it was |
| RbShape.FlipStep | lib/core/ogs-rbtree.c:107-122 | red uncle: recolouring moves the one red-red violation two levels up and keeps order and black heights |
| RbShape.FixLeftStep | lib/core/ogs-rbtree.c:123-153 | black uncle, parent a left child: the rotations end with a red-black tree of the same order |
| RbShape.FixRightStep | lib/core/ogs-rbtree.c:174-204 | black uncle, parent a right child: the mirror image |
| RbShape.RedSiblingLeftStep | lib/core/ogs-rbtree.c:222-236 | red sibling: the rotation gives a black sibling and keeps the shortage, the order and the rules elsewhere |
| RbShape.BlackNephewsLeftStep | lib/core/ogs-rbtree.c:237-250 | two black nephews: the shortage moves up one level or is gone |
| RbShape.NearNephewLeftStep | lib/core/ogs-rbtree.c:252-269 | red near nephew: the rotation gives a red far nephew and keeps the shortage |
| RbShape.FarNephewLeftStep | lib/core/ogs-rbtree.c:270-286 | red far nephew: the rotation ends with a red-black tree of the same order |
| RbShape.RedSiblingRightStep | lib/core/ogs-rbtree.c:290-296 | the mirror image for a right child |
| RbShape.BlackNephewsRightStep | lib/core/ogs-rbtree.c:297-301 | the mirror image for a right child |
| RbShape.NearNephewRightStep | lib/core/ogs-rbtree.c:303-309 | the mirror image for a right child |
| RbShape.FarNephewRightStep | lib/core/ogs-rbtree.c:310-315 | the mirror image for a right child |
| RbShape.RemoveInOrder | lib/core/ogs-rbtree.c:323-372 | putting the two subtrees in the place of a node takes exactly that node out of the order |
| RbShape.SpliceInOrder | lib/core/ogs-rbtree.c:343-368 | moving the successor into the place of a node takes exactly that node out of the order |
| RbShape.SpliceFacts | lib/core/ogs-rbtree.c:343-368 | after that move the rules hold but for a shortage of one black node where the successor was |
| RbTree.Tree.ChangeChild | lib/core/ogs-rbtree.c:22-33 | the parent, or the root, refers to the new child and to nothing else than before |
| RbTree.Tree.ReplaceNode | lib/core/ogs-rbtree.c:35-42 | the same, with the parent pointer of the new child set |
| RbTree.Tree.RotateLeft | lib/core/ogs-rbtree.c:55-66 | the pointers after the call are those of the rotated tree, parent links matching child links |
| RbTree.Tree.RotateRight | lib/core/ogs-rbtree.c:79-90 | the pointers after the call are those of the rotated tree |
| RbTree.Tree.InsertColor | lib/core/ogs-rbtree.c:92-210 | from a new red leaf the loop ends in a valid red-black tree with the same in-order sequence, always finding the grandparent it needs |
| RbTree.Tree.DeleteColor | lib/core/ogs-rbtree.c:212-321 | from a place one black node short the loop ends, never following a null sibling, in a valid red-black tree with the same in-order sequence |
| RbTree.Tree.DeleteSplice | lib/core/ogs-rbtree.c:343-368 | a node with two children is replaced by its successor; what is left is short of at most one black node where the successor was |
| RbTree.Tree.Detach | lib/core/ogs-rbtree.c:331-368 | the unlinking part of the deletion for every number of children |
| RbTree.Tree.Delete | lib/core/ogs-rbtree.c:323-372 | deleting any node of a valid tree yields a valid tree whose in-order sequence is the old one without that node |
| RbTree.Tree.LinkNode | lib/core/ogs-rbtree.h:52-61 | the new node is a red leaf in the empty place found for it |
| RbTree.Tree.Min | lib/core/ogs-rbtree.h:66-75 | the result is the end of the left spine |
| RbTree.Tree.Max | lib/core/ogs-rbtree.h:77-86 | the result is the end of the right spine |
| RbTree.Tree.First | lib/core/ogs-rbtree.c:374-384 | the first of the in-order sequence, or NULL for the empty tree |
| RbTree.Tree.Last | lib/core/ogs-rbtree.c:386-396 | the last of the in-order sequence, or NULL |
| RbTree.Tree.Next | lib/core/ogs-rbtree.c:400-416 | the successor in the in-order sequence, or NULL |
| RbTree.Tree.Prev | lib/core/ogs-rbtree.c:418-434 | the predecessor in the in-order sequence, or NULL |
| TimerManager.Descend | lib/core/ogs-timer.c:48-57 | the descent ends at the empty place that has every deadline not later before it and every later one after it |
| TimerManager.AddTimerNode | lib/core/ogs-timer.c:38-61 | linking and recolouring keep the tree valid and place the timer after all equal deadlines |
| TimerManager.List.Add | lib/core/ogs-list.h:114-125 | the list holds its old items in order and then the new one, links in both directions |
| TimerManager.Manager.constructor | lib/core/ogs-timer.c:63-75 | no timer runs and the whole pool is free |
| TimerManager.Manager.RunningIsQueued | lib/core/ogs-timer.c:123-158 | a timer is in the tree exactly when its running flag is set |
| TimerManager.Manager.Add | lib/core/ogs-timer.c:86-107 | the next free pool entry, cleared and not running, or NULL, with nothing changed, exactly when the pool is exhausted; no other timer changes |
| TimerManager.Manager.Delete | lib/core/ogs-timer.c:109-121 | the timer leaves the tree if it runs and goes back to the pool |
| TimerManager.Manager.Start | lib/core/ogs-timer.c:123-140 | the queue loses the old entry of the timer and gains one with the new deadline |
| TimerManager.Manager.Stop | lib/core/ogs-timer.c:142-158 | the queue loses the entry of the timer, and nothing else |
| TimerManager.Manager.Next | lib/core/ogs-timer.c:160-182 | 0, the time to the earliest deadline, or infinity, as the queue says |
| TimerManager.Manager.CollectDue | lib/core/ogs-timer.c:202-209 | the walk over the tree collects exactly the due timers in order |
| TimerManager.Manager.DetachAll | lib/core/ogs-timer.c:211-215 | all timers of the batch, and no other, leave the tree and stop running before any callback |
| TimerManager.Manager.DetachDue | lib/core/ogs-timer.c:194-216 | the list holds exactly the due timers in queue order, and all of them, and no other, have stopped and left the tree |
| TimerQueue.RunAgrees | lib/core/ogs-timer.c:123-225 | over every run of starts, stops and expiries the queue lists exactly the running timers of a reference map from timer to deadline and start number, by deadline and then start order |
| TimerQueue.ExpireBatch | lib/core/ogs-timer.c:184-225 | the expiry batch after any run is exactly the timers due, by deadline and then start order, and none of them is queued afterwards |
| TimerQueue.NextExact | lib/core/ogs-timer.c:160-182 | after any run the next wait is 0 exactly when an expiry at that instant would find a timer, infinite exactly when none runs, and else the time to the earliest deadline |
| TimerRuns.RunCallbacks | lib/core/ogs-timer.c:220-224 | whatever timers the callbacks add, start and stop, the walk over the batch invokes the callbacks of exactly the batch, in order, skipping those that are NULL |
| TimerRuns.ExpireAll | lib/core/ogs-timer.c:184-225 | an expiry fires exactly the due timers in queue order, all of them detached first, and then the tree and the pool are those of the reference after the calls the callbacks made |
| TimerRuns.FiresOnTime | lib/core/ogs-timer.c:38-61 | after any run a timer started for a duration is fired by an expiry exactly from the time of the start plus the duration on, and one that is stopped or deleted by none |
| TimerRuns.Replay | lib/core/ogs-timer.c:63-225 | every sequential run of adds, deletes, starts, stops and expiries from an empty manager, whose callbacks may add, start and stop timers, hands out and takes back pool entries as the reference does, fires at each expiry exactly its batch, and leaves the tree listing the queue of the reference; a timer is marked running exactly while the reference has it running |
| HashTable.Table.constructor | lib/core/ogs-hash.c:94-103 | an empty table with 16 buckets |
| HashTable.Table.Scan | lib/core/ogs-hash.c:284-293 | the link field that holds the entry of the key, or the end of its chain when the key is absent |
| HashTable.Table.FindEntry | lib/core/ogs-hash.c:273-310 | an absent key gets the entry recycled last, or a new one when there is none, at the end of the chain of its bucket; a present one is left alone |
| HashTable.Table.Expand | lib/core/ogs-hash.c:190-206 | relinking every entry into a table of twice the buckets keeps the map, every entry in the bucket of its hash |
| HashTable.Table.Get | lib/core/ogs-hash.c:312-326 | the value the map gives the key, or NULL |
| HashTable.Table.Set | lib/core/ogs-hash.c:328-356 | with a value the map is updated, a present key keeping the key memory its entry was made with; with NULL the key leaves it; count equals the size of the map and stays at most max; the table doubles exactly when count would exceed max |
| HashTable.Table.GetOrSet | lib/core/ogs-hash.c:358-378 | the present value, or the given one, which is then stored unless it is NULL |
| HashTable.Table.UnsetIfOwner | lib/core/ogs-hash.c:380-406 | the key is removed, and true returned, exactly when the owner is the value stored |
| HashTable.Table.Clear | lib/core/ogs-hash.c:414-447 | the map is empty and every entry waits for reuse |
| HashTable.Table.First | lib/core/ogs-hash.c:141-154 | the walk stands on the first entry in bucket order, if there is one |
| HashTable.Table.Next | lib/core/ogs-hash.c:126-139 | the walk moves to the next entry in bucket order even when the current one has been deleted |
| HashTable.Table.DropCurrent | lib/core/ogs-hash.c:337-345 | deleting the entry the walk stands on takes it alone out of its chain and the rest of the walk stands |
| HashTable.Table.Sweep | lib/core/ogs-hash.c:126-154 | a walk whose body deletes any chosen entries terminates, visits every key once, and leaves exactly the keys not chosen |
| HashTable.LayoutFlat | lib/core/ogs-hash.c:126-154 | bucket by bucket, chain by chain, the entries are those of the keys, each once |
| HashTable.MoveEnd | lib/core/ogs-hash.c:190-206 | once every entry is moved the new buckets are a proper layout of the same keys |
| HashRuns.Replay | lib/core/ogs-hash.c:273-447 | every run of set, get, get_or_set, owner-checked unset and clear, for any hash function, across growth and recycling, ends in the finite map the reference ends in and gives its answers, one by one |
| HashRuns.FirstWins | lib/core/ogs-hash.c:358-378 | of callers that race with get_or_set for a key the first wins: the key has its value from then on and every later caller gets that one |
| HashRuns.LatestFound | lib/core/ogs-hash.c:380-406 | when contexts claim a key with set and tear down only with the owner check, and no teardown overtakes, a lookup finds the latest claimant that has not torn down, however late older teardowns arrive (whether the key memory it goes through is alive is `HashRuns.KeysAlive`) |
| HashRuns.LatestAlways | lib/core/ogs-hash.c:380-406 | a lookup finds the latest living claimant at every point of a run exactly when the latest claimant never tears down while an older one lives |
| HashRuns.OvertakenLost | lib/core/ogs-hash.c:380-406 | right after the first overtaking teardown the lookup finds nothing although a claimant lives |
| HashRuns.LatestMissed | lib/core/ogs-hash.c:380-406 | two contexts are enough: A claims, B claims, B tears down, and A is not found |
| HashRuns.FirstHeld | lib/core/ogs-hash.c:294-308 | over every run the entry of a key reads it from the memory of the call that last found the key absent, whoever has claimed it since |
| HashRuns.KeysAlive | lib/core/ogs-hash.c:328-406 | when a teardown frees the memory of its key, every lookup of a run reads living key memory exactly when no teardown frees the memory with which the key was first stored while the key stays in the table |
| HashRuns.FreedUnderneath | lib/core/ogs-hash.c:396-406 | A claims, B claims, A tears down: the removal is skipped and B is found, but the entry of B reads its key from the memory A has freed |
| HashRuns.TwoNeverSound | lib/core/ogs-hash.c:380-406 | once two contexts have claimed a key, whichever tears down first, either the other is no longer found or its entry is left with freed key memory |
| RingQueue.Ring.constructor | lib/core/ogs-queue.c:76-112 | an empty queue with room for the capacity |
| RingQueue.Ring.Store | lib/core/ogs-queue.c:200-217 | the item goes to the end of the queue, the index wraps, and the hint says whether the queue was empty |
| RingQueue.Ring.Push | lib/core/ogs-queue.c:127-218 | the stretch from the lock to the first wait or the return, for every timeout |
| RingQueue.Ring.ResumePush | lib/core/ogs-queue.c:157-218 | the stretch from a wake-up to the next wait or the return, with every return code |
| RingQueue.Ring.Take | lib/core/ogs-queue.c:324-336 | the oldest item leaves the queue and the index wraps |
| RingQueue.Ring.Pop | lib/core/ogs-queue.c:273-337 | the stretch from the lock to the first wait or the return |
| RingQueue.Ring.ResumePop | lib/core/ogs-queue.c:283-337 | the stretch from a wake-up to the next wait or the return |
| RingQueue.Ring.Terminate | lib/core/ogs-queue.c:367-377 | the queue is terminated and its contents are as before |
| QueueRuns.PushEnters | lib/core/ogs-queue.c:127-218 | in every run a push that takes the mutex returns OGS_DONE exactly after a termination, else OGS_OK, with its item in, exactly when fewer items are pushed and not popped than the queue holds, else OGS_RETRY exactly with timeout 0, and else waits, from that reading of the clock on |
| QueueRuns.PushResumes | lib/core/ogs-queue.c:157-218 | in every run a push whose wait did not fail returns OGS_OK exactly when there is room, even after a termination, else OGS_DONE exactly after a termination, else OGS_ERROR exactly with a timeout; one without a timeout returns OGS_RETRY exactly when it first waited 20 ms ago or more, and else waits again |
| QueueRuns.PushFails | lib/core/ogs-queue.c:175-179 | a push whose wait failed ends without its item, with the code of the wait if it has a timeout and else OGS_RETRY |
| QueueRuns.PopEnters | lib/core/ogs-queue.c:273-337 | in every run a pop that takes the mutex returns OGS_DONE exactly after a termination, else OGS_OK, with the oldest item pushed and not popped, exactly when there is one, else OGS_RETRY exactly with timeout 0, and else waits |
| QueueRuns.PopResumes | lib/core/ogs-queue.c:295-337 | in every run a pop whose wait did not fail returns OGS_OK exactly when there is an item, even after a termination, else OGS_DONE exactly after a termination, else OGS_ERROR exactly with a timeout, and else waits again |
| QueueRuns.PopFails | lib/core/ogs-queue.c:304-308 | a pop whose wait failed ends with the code of the wait and nothing taken |
| QueueRuns.StepKeeps | lib/core/ogs-queue.c:127-379 | every critical section, wake-up and end of a wait keeps: pushed is popped followed by the contents, within bounds; the waiter counts count the waiting calls. It keeps every item and slot beside a sleeper spoken for by one awake, exactly unless it is the late end of a wait the others needed |
| QueueRuns.RunKeeps | lib/core/ogs-queue.c:127-379 | in every state of every interleaving of any number of threads popped items are a prefix of pushed items in order, and the contents stay within bounds |
| QueueRuns.RunCovered | lib/core/ogs-queue.c:127-379 | in no state of a run does a thread sleep beside an item or slot nobody awake has come for, exactly when every wait that ended late, in a time-out or an error after the call had been woken, left enough awake calls |
| QueueRuns.NoLateCovered | lib/core/ogs-queue.c:127-379 | so it never happens in a run in which no call that has been woken still ends in a time-out or an error |
| QueueRuns.LateLeavesItem | lib/core/ogs-queue.c:300-312 | the condition is needed: of two waiting pops the signal wakes the timed one, whose wait still ends in a time-out, and the other sleeps on beside the item |
| QueueRuns.DoneAfterTerm | lib/core/ogs-queue.c:136-139 | a call that first takes the mutex after termination returns OGS_DONE and changes nothing |
| QueueRuns.TermReleases | lib/core/ogs-queue.c:354-379 | once the broadcast of a termination is out nobody sleeps any more, and each call that resumes leaves the queue |
| PushWaits.TotalBounded | lib/core/ogs-queue.c:157-198 | an infinite push waits less than 40 ms in all, whatever the wake-ups, if no wait outlasts its timeout and the clock does not run back |
| PushWaits.RoundsBounded | lib/core/ogs-queue.c:157-198 | if the clock moves between readings the push finishes within 20001 rounds |
| QueueWakeup.NeverLost | lib/core/ogs-queue.c:200-216 | in every interleaving of any number of producers with a consumer that drains before it sleeps, a consumer asleep beside a non-empty queue always has a latched notification or a producer that still owes one, exactly when the last notification owed never fails on a clear latch while the consumer sleeps beside an item |
| QueueWakeup.WritesSuffice | lib/core/ogs-notify.c:67-91 | so no wake-up is lost while no write of a notification fails |
| QueueWakeup.FailedWriteLoses | lib/core/ogs-notify.c:67-91 | such a failed write does leave the consumer asleep beside the item |
| QueueWakeup.DrainingNeeded | lib/core/ogs-queue.c:235-245 | the consumer's part is needed: asleep before the queue is empty it would miss an item whose producer owes nothing |
| PoolSpec.RunPartitioned | lib/core/ogs-pool.h:135-156 | over every run of allocs and frees of live nodes, each node is on the free ring once or live, never both |
| PoolSpec.AllocKeeps | lib/core/ogs-pool.h:135-147 | no live node is handed out |
| PoolSpec.FreeKeeps | lib/core/ogs-pool.h:149-156 | a freed live node goes to the end of the ring and nothing else changes |
| PoolSpec.RingOrder | lib/core/ogs-pool.h:135-156 | nodes are handed out in ring order over every run |
| PoolSpec.ReissuedLast | lib/core/ogs-pool.h:135-156 | a freed node is handed out again only after every node that was free at that moment |
| PoolSpec.PeakTrue | lib/core/ogs-pool.h:135-147 | peak is the largest number of nodes in use at any point of the run |
| NodePool.NodePool.constructor | lib/core/ogs-pool.h:53-72 | every node is free, in the order of the array |
| NodePool.NodePool.TailFollows | lib/core/ogs-pool.h:135-156 | tail is head plus avail, modulo size |
| NodePool.NodePool.Alloc | lib/core/ogs-pool.h:135-147 | the first node of the ring, now live and findable, or NULL exactly when none is free |
| NodePool.NodePool.Free | lib/core/ogs-pool.h:149-156 | the node goes to the end of the ring and is no longer found; with all nodes free nothing happens |
| NodePool.NodePool.Find | lib/core/ogs-pool.h:158-160 | the index of a node finds it exactly while it is live; any other index finds nothing |
| PoolIds.RandomIds | lib/core/ogs-pool.h:202-219 | for every seed the array ends up as 1 to size with, from the last position down, each swapped with the one the generator draws for it, so a permutation |
| PoolIds.EveryPermutation | lib/core/ogs-pool.h:209-218 | every permutation of 1 to size comes from some draws |
| PoolIds.DrawsUnique | lib/core/ogs-pool.h:209-218 | and from only one choice of draws, so the shuffle favours none |
| PoolIds.NeverZero | lib/core/ogs-pool.h:206-213 | a seed with its lowest bit set never runs the generator into 0 |
| PoolIds.LiveIdsDistinct | lib/core/ogs-pool.h:202-219 | ids read from live nodes are pairwise distinct and within 1 to size |
| PkbufSpec.ClassOf | lib/core/ogs-pkbuf.c:464-491 | the smallest size class that fits the request |
| PkbufSpec.GivenSize | lib/core/ogs-pkbuf.c:464-491 | the octets each request is given, 128 to 1048584 |
| PkbufSpec.MetaSuffices | lib/core/ogs-pkbuf.c:192-198 | the cluster-meta pool never refuses a request whose size class has a buffer |
| PkbufPools.PkbufPool.constructor | lib/core/ogs-pkbuf.c:178-211 | pools of the configured sizes, nothing in use |
| PkbufPools.PkbufPool.ClusterAlloc | lib/core/ogs-pkbuf.c:448-507 | a cluster with the next buffer of the class, or nothing, with the meta cell given back, exactly when the class is exhausted |
| PkbufPools.PkbufPool.ClusterFree | lib/core/ogs-pkbuf.c:509-549 | the buffer goes back to its own class and the cell to the meta pool |
| PkbufPools.PkbufPool.AllocFrom | lib/core/ogs-pkbuf.c:309-358 | a pkbuf of the size, with head, data and tail at the start of a buffer no other pkbuf uses, or, exactly when the class or the pkbuf pool is exhausted, nothing with every buffer and pkbuf as before |
| PkbufPools.PkbufPool.Release | lib/core/ogs-pkbuf.c:361-387 | the pkbuf leaves; reference counts still equal the live pkbufs sharing each cluster |
| PkbufPools.PkbufPool.Copy | lib/core/ogs-pkbuf.c:389-445 | a second pkbuf on the same buffer, or nothing exactly when the pkbuf has no room or the pool no pkbuf |
| PkbufPools.AttachKeeps | lib/core/ogs-pkbuf.c:428-442 | one more pkbuf on a cluster keeps every reference count equal to the live pkbufs that share the cluster |
| PkbufPools.DetachKeeps | lib/core/ogs-pkbuf.c:361-387 | one pkbuf fewer keeps them equal, and leaves no sharer exactly when the count was one |
| PkbufPools.LastKeeps | lib/core/ogs-pkbuf.c:378-383 | freeing the last pkbuf on a cluster frees the cluster and its buffer |
| PkbufPools.TakeUndone | lib/core/ogs-pkbuf.c:327-334 | the rollback puts the buffer and the meta cell back |
| PkbufPools.BuffersInUse | lib/core/ogs-pkbuf.c:361-387 | a buffer is taken exactly while some live pkbuf uses it, so it returns on the last free and not before |
| PkbufPools.PkbufPool.Reserve | lib/core/ogs-pkbuf.h:123-127 | data and tail move by that much |
| PkbufPools.PkbufPool.Put | lib/core/ogs-pkbuf.h:129-140 | the octets behind grow by that much; the answer is where they begin |
| PkbufPools.PkbufPool.Push | lib/core/ogs-pkbuf.h:161-170 | the octets in front grow by that much; the answer is where they now begin |
| PkbufPools.PkbufPool.Pull | lib/core/ogs-pkbuf.h:172-183 | that many octets leave in front, or, exactly when there are fewer, NULL and nothing changes |
| PkbufPools.PkbufPool.Trim | lib/core/ogs-pkbuf.h:185-198 | that many octets are left, or, exactly when there are fewer, an error and nothing changes |
| PkbufPools.Allocate | lib/core/ogs-pkbuf.c:254-306 | with nothing between its two attempts: the given pool serves the request; or the thread's pool if it can, and else the default pool; nothing exactly when none can; every pool that did not serve it keeps its pkbufs, their buffers and its stock |
| PkbufPools.ServerOrder | lib/core/ogs-pkbuf.c:286-304 | the pool given and no other; or the thread's pool whenever it can serve, and the default pool only when that cannot |
| PkbufPools.CopyPkbuf | lib/core/ogs-pkbuf.c:389-445 | copied by any thread, the copy is a pkbuf of the pool of the original, on the same buffer |
| PkbufRuns.ServesExactly | lib/core/ogs-pkbuf.c:309-358 | a pool can serve a request exactly when fewer allocations of that class are still in use than it has buffers, and fewer pkbufs than it has cells |
| PkbufRuns.PoolOrder | lib/core/ogs-pkbuf.c:286-304 | in a run an alloc asks the pool given and no other; or the thread's pool, and only when that refuses the default pool, later; or the default pool |
| PkbufRuns.InOwnBuffer | lib/core/ogs-pkbuf.h:123-198 | in every state of every run each pkbuf in use lies in its own buffer: 0 <= head <= data <= tail <= end <= size of the buffer, with tail - data == len |
| PkbufRuns.Replay | lib/core/ogs-pkbuf.c:254-549 | in every interleaving of the attempts, copies, frees and moves of any threads over any set of pools, from pools nothing is in use of: an alloc is served by the pool given, or by the thread's pool if that can serve it then, or else by the default pool if that can when it is asked, and refused exactly when the last pool asked has no pkbuf or no buffer of the class left; refusals and rollbacks leave no trace; two pkbufs of a pool share a buffer exactly when one alloc and copies of it made them both; and each shows of its buffer what the reserves, puts, pushes, pulls and trims made on it, and on its original before the copy, come to |
| PkbufPools.FreePkbuf | lib/core/ogs-pkbuf.c:361-387 | freed by any thread, a pkbuf goes back to the pool it came from |
| RateLimiting.RateLimiter.GlobalCount | apn-provisioner/apn_provisioner/rate_limiter.py:32-35 | sends more than 60 s old are taken off and the rest counted |
| RateLimiting.RateLimiter.Check | apn-provisioner/apn_provisioner/rate_limiter.py:37-70 | the answer and the new state of the specification, branch by branch |
| RateLimiting.RateLimiter.StartSend | apn-provisioner/apn_provisioner/rate_limiter.py:72-73 | the IMSI is in flight since that time |
| RateLimiting.RateLimiter.FinishSend | apn-provisioner/apn_provisioner/rate_limiter.py:75-81 | no longer in flight; a success is recorded in every window |
| RateLimiting.RateLimiter.Serve | apn-provisioner/apn_provisioner/service.py:135-188 | a run of the service is the run of the specification |
| RateSpec.PruneTracks | apn-provisioner/apn_provisioner/rate_limiter.py:32-35 | what pruning leaves of a queue is exactly the sends of the window, counted from the whole history |
| RateSpec.RunInv | apn-provisioner/apn_provisioner/rate_limiter.py:32-81 | in every sequential run the limiter's queues and maps are a true extract of the history of sends |
| RateSpec.RunRefines | apn-provisioner/apn_provisioner/rate_limiter.py:32-81 | over every sequential run the sends, and the state of the breaker, are those of a limiter that keeps every send and decides from all of them |
| RateSpec.RunDecides | apn-provisioner/apn_provisioner/rate_limiter.py:37-70 | at every point of every sequential run the answer is that of the limiter that keeps every send |
| RateSpec.FirstObjection | apn-provisioner/apn_provisioner/rate_limiter.py:37-70 | at every point of every sequential run the layers are asked in the order duplicate, breaker, second, day; the first that objects answers, and a send is allowed exactly when none does |
| RateSpec.BreakerOpen | apn-provisioner/apn_provisioner/rate_limiter.py:48-57 | the breaker is open after a run exactly when the last attempt that was not a duplicate was refused by it |
| RateSpec.NeverTwice | apn-provisioner/apn_provisioner/rate_limiter.py:39-46 | whatever the order of the calls of any number of senders, a check answers "in flight" exactly while a send to that subscriber begun within the window has not ended, and "duplicate" exactly when there is none and the last that succeeded ended within the window |
| RateLimiting.RateLimiter.Handle | apn-provisioner/apn_provisioner/rate_limiter.py:37-81 | any sequence of calls leaves the state the specification leaves |
| RateSpec.WindowsBounded | apn-provisioner/apn_provisioner/service.py:135-188 | over every sequential run on a non-decreasing clock every 60 s window holds at most max(breaker_per_min, breaker_resume + 1) sends, every 1 s window at most ceil(global_max_per_sec), every 86400 s window at most max_sub_day per IMSI (each at least 0), and two sends to one IMSI are at least the dedup window apart |
| Utf8.RoundTrip | apn-provisioner/apn_provisioner/cp_builder.py:30-32 | every string comes back from its UTF-8 encoding |
| Utf8.EncodeNul | apn-provisioner/apn_provisioner/cp_builder.py:30-32 | only the NUL character has a zero byte in its encoding |
| Utf8.Strict | apn-provisioner/apn_provisioner/validator.py:67-73 | a string is read only from its own encoding: no overlong form, no surrogate, no stray byte |
| WbxmlSpec.ReadElement | apn-provisioner/apn_provisioner/validator.py:90-111 | on every byte string reading stops, and what it accepts it has moved past |
| WbxmlSpec.ReadAttrs | apn-provisioner/apn_provisioner/validator.py:114-155 | on every byte string reading an attribute list stops, and what it accepts it has moved past |
| WbxmlReader.Reader.U8 | apn-provisioner/apn_provisioner/validator.py:60-65 | the next byte, or a malformed document at the end |
| WbxmlReader.Reader.CStr | apn-provisioner/apn_provisioner/validator.py:67-73 | the text up to the next NUL, or the error for a missing NUL or bad UTF-8 |
| WbxmlReader.Reader.Attrs | apn-provisioner/apn_provisioner/validator.py:114-155 | the attribute list and page the specification reads, or its error |
| WbxmlReader.Reader.Element | apn-provisioner/apn_provisioner/validator.py:90-111 | the element, page and position the specification reads, or its error |
| WbxmlReader.DecodeWbxml | apn-provisioner/apn_provisioner/validator.py:76-87 | the root element, or the error, the specification gives for every byte string |
| WbxmlRoundTrip.ItemRead | apn-provisioner/apn_provisioner/validator.py:114-155 | one printed attribute item is read as that item on the current code page, or refused as malformed where it has no place |
| WbxmlRoundTrip.NodeRead | apn-provisioner/apn_provisioner/validator.py:90-155 | every printed element is read as the element it means with the code page after it, and to its last byte; one without meaning is refused |
| WbxmlRoundTrip.ElementPlain | apn-provisioner/apn_provisioner/validator.py:67-73 | no attribute value that was read holds a NUL |
| WbxmlExact.AttributeRead | apn-provisioner/apn_provisioner/validator.py:25-39 | each attribute token alone is read as its entry in the table, one that takes a value with the empty one; any other is malformed |
| WbxmlExact.ValueRead | apn-provisioner/apn_provisioner/validator.py:40 | the value marker and each value token behind it are read as their entries; a value token nobody waits for is malformed |
| WbxmlExact.TagRead | apn-provisioner/apn_provisioner/validator.py:41 | each tag is read as its name; any other is malformed |
| WbxmlExact.ElementPrinted | apn-provisioner/apn_provisioner/validator.py:90-155 | every element that is accepted is one the printer could have printed, with that meaning, to its last byte |
| WbxmlExact.AcceptedExactly | apn-provisioner/apn_provisioner/validator.py:76-155 | a byte string is accepted exactly when it is version 1.3, any public id and charset, no string table, an element that could have been printed, and anything |
| WbxmlExact.NoPrefix | apn-provisioner/apn_provisioner/validator.py:90-155 | a complete element cut short anywhere is refused |
| WbxmlExact.CutErrors | apn-provisioner/apn_provisioner/validator.py:60-155 | which exception bytes that end too soon, or are no text, raise |
| CpBuilder.BuildWbxml | apn-provisioner/apn_provisioner/cp_builder.py:35-85 | the header and the printed document for that APN; an empty APN is refused |
| CpRoundTrip.DocumentMeaning | apn-provisioner/apn_provisioner/cp_builder.py:35-85 | the built document means exactly the intended element tree |
| CpRoundTrip.BuiltReadsBack | apn-provisioner/apn_provisioner/validator.py:76-155 | the validator reads all of a built document and reads the intended tree with that APN, exactly when the APN holds no NUL |
| CpRoundTrip.HeaderRead | apn-provisioner/apn_provisioner/cp_builder.py:26-27 | a reader of WBXML headers finds version 1.3, public identifier 11, charset 106 and no string table in every built document |
| CpRoundTrip.HiwebReadsBack | apn-provisioner/apn_provisioner/cp_builder.py:18-85 | the same for the shipped texts HIWEBGPRS, HiWEB, HiWEB Internet, w2 and 1.0, and every APN the builder accepts |
| WspSpec.UintvarRoundTrip | apn-provisioner/apn_provisioner/validator.py:167-174 | every number is read back from its uintvar, and nothing after it is touched |
| WspSpec.UintvarShape | apn-provisioner/apn_provisioner/cp_builder.py:93-102 | seven bits to an octet, the most significant first, the top bit set in all but the last, and no octet to spare |
| WspSpec.StopsExactly | apn-provisioner/apn_provisioner/validator.py:177-215 | decode_wsp_push() stops exactly on the PDUs it refuses before the parameters and on those whose parameters do not lead to a MAC with no NUL after it |
| WspSpec.NeverStops | apn-provisioner/apn_provisioner/validator.py:177-215 | a push whose only parameter is the octet 0x92 keeps it going for ever, whatever its transaction and document |
| WspSpec.HeadReadsBack | apn-provisioner/apn_provisioner/validator.py:177-199 | a push put together from any transaction, parameters and document is taken apart into them |
| WspSpec.LengthSkipped | apn-provisioner/apn_provisioner/cp_builder.py:105-109 | the value-length of any value is skipped to that value |
| WspSpec.ValueMeasured | apn-provisioner/apn_provisioner/cp_builder.py:105-109 | a reader that goes by the value-length finds exactly the value, whatever follows |
| WspSpec.FieldMeasured | apn-provisioner/apn_provisioner/cp_builder.py:112-118 | in every content-type field the value-length counts exactly the literal media type, its NUL and the parameters |
| WspSpec.PushLayout | apn-provisioner/apn_provisioner/cp_builder.py:112-124 | every push that is built, octet by octet |
| WspSpec.AnyLengthAccepted | apn-provisioner/apn_provisioner/validator.py:184-192 | the re-parser skips any value-length, right or wrong |
| WspSpec.MediaAccepted | apn-provisioner/apn_provisioner/validator.py:193-199 | every media type that begins with the literal text is accepted, and no other |
| WspSpec.HeadParts | apn-provisioner/apn_provisioner/validator.py:177-199 | nothing of a push that is accepted is lost or moved, and the length of its headers is right unless no document follows |
| WspSpec.HeadErrors | apn-provisioner/apn_provisioner/validator.py:177-199 | which exception each kind of bad push raises |
| WspSpec.SecRead | apn-provisioner/apn_provisioner/validator.py:204-208 | the security methods by their octets |
| WspSpec.ParamErrors | apn-provisioner/apn_provisioner/validator.py:200-214 | which exception each kind of bad parameter raises |
| WspSpec.UnterminatedMac | apn-provisioner/apn_provisioner/validator.py:209-212 | without a NUL only the octets before the last decide whether the loop goes on for ever or ends in an error |
| WspSpec.ParamsReadBack | apn-provisioner/apn_provisioner/cp_builder.py:112-118 | the parameters of a built push are read as NETWPIN and that MAC, or refused exactly when the MAC holds a NUL |
| WspCodec.EncodeUintvar | apn-provisioner/apn_provisioner/cp_builder.py:93-102 | the groups of seven bits with continuation bits, or a refusal of a negative number |
| WspCodec.EncodeValueLength | apn-provisioner/apn_provisioner/cp_builder.py:105-109 | one octet up to 30, else 0x1F and a uintvar |
| WspCodec.BuildPush | apn-provisioner/apn_provisioner/cp_builder.py:112-124 | the push with that content type and document; a MAC that is not 40 characters long or not its own upper case is a ValueError, one that is but is not ASCII an encoding error |
| WspCodec.UintvarAt | apn-provisioner/apn_provisioner/validator.py:167-174 | the number and the position after it, or the error at the end of the bytes |
| WspCodec.DecodeParams | apn-provisioner/apn_provisioner/validator.py:200-214 | the security method and the MAC, or the error, on every parameter string on which the loop stops |
| WspCodec.DecodePush | apn-provisioner/apn_provisioner/validator.py:177-215 | the push, or the error, the specification gives |
| WspCodec.PushReadsBack | apn-provisioner/apn_provisioner/validator.py:177-215 | a built push is read back with its MAC, NETWPIN and document exactly when the MAC holds no NUL, and reading it stops |
| Sms.SegmentReads | apn-provisioner/apn_provisioner/cp_builder.py:127-157 | a reader that goes by the lengths in the header finds in every segment the two ports and the reference, total and number, nothing else, and behind them the stretch of the PDU |
| Sms.SegmentAt | apn-provisioner/apn_provisioner/cp_builder.py:135-157 | a segment has at most 140 octets, announces the total and its number, and carries its stretch of the PDU |
| Sms.SegmentsFull | apn-provisioner/apn_provisioner/cp_builder.py:127-157 | every segment but the last has the full 140 octets, the last is not empty, and there are as few as 128 octets each allow |
| Sms.Segment | apn-provisioner/apn_provisioner/cp_builder.py:146-157 | the segments of the PDU in order; an empty PDU has one |
| Sms.RebuiltExactly | apn-provisioner/apn_provisioner/cp_builder.py:127-157 | a receiver that goes by the sequence and total octets rebuilds exactly the PDU from its segments in any order, exactly when the PDU has at most 255 * 128 octets |
| Sms.MessageArrives | apn-provisioner/apn_provisioner/cp_builder.py:177-186 | from APN and MAC to segments and back: the receiver reads the profile with that APN, NETWPIN and that MAC |
| Calendar.FromLt | lib/core/ogs-time.c:132-160 | the closed form in microseconds, or the error for a bad month or a negative time |
| Calendar.DaysCounted | lib/core/ogs-time.c:142-151 | for every date from 1900 on the closed form is the number of days counted one by one through the Gregorian calendar from 1 January 1970 |
| Calendar.DaysIncrease | lib/core/ogs-time.c:142-151 | a date is before another exactly when it counts fewer days |
| Calendar.SecondsIncrease | lib/core/ogs-time.c:142-152 | a date and time is earlier exactly when its seconds are fewer, but for a leap second, which counts as the second after it |
| Calendar.MicrosIncrease | lib/core/ogs-time.c:157 | within a second the result increases with the microseconds, one for one, from 0 at the epoch |
| Calendar.ErrorBeforeEpoch | lib/core/ogs-time.c:154-156 | the error is reported exactly for times before 1 January 1970, but for a leap second at the end of 1969 |
| Calendar.FitsTime | lib/core/ogs-time.c:157 | the result fits 64 bits exactly up to 04:00:54.775807 on 10 January 294247 |
| Calendar.StepsFit | lib/core/ogs-time.c:142-152 | for any date of a year an int can hold nothing before the last line overflows |
| Bcd.ImsiToSemiOctets | apn-provisioner/apn_provisioner/imsi.py:22-34 | the identity octets of a non-empty string of decimal digits of any script; anything else is refused |
| Bcd.DecodeIdentity | apn-provisioner/apn_provisioner/nas_decoder.py:47-59 | the type and the digits of an identity, the filler of an even one taken off |
| Bcd.IdentityRoundTrip | apn-provisioner/apn_provisioner/nas_decoder.py:47-59 | every non-empty string of decimal digits, of odd or even length, comes back digit for digit, in ASCII, from its identity octets |
| Bcd.EveryType | apn-provisioner/apn_provisioner/nas_decoder.py:47-59 | for every type from 0 to 7 and every non-empty digit string the identity is read as that type and those digits |
| Bcd.OnlyIdentities | apn-provisioner/apn_provisioner/nas_decoder.py:47-59 | what is read from octets is the identity they are exactly when the mark says odd or the last half is the filler |
| Bcd.PackedAt | lib/core/ogs-conv.c:101-112 | digit 2k is the low half of octet k, digit 2k + 1 the high half, the filler if there is none |
| Bcd.BcdToBuffer | lib/core/ogs-conv.c:95-114 | the packed semi-octets are written and nothing beyond them |
| Bcd.BufferToBcd | lib/core/ogs-conv.c:137-157 | the digits and a NUL are written, without the filler |
| Bcd.BufferRoundTrip | lib/core/ogs-conv.c:137-157 | every non-empty digit string comes back from its buffer |

## Left out

- TimerRuns.Replay: callbacks do not delete timers or expire the manager again, and no other thread calls between the expiry and its callbacks.
- HashTable.Table.constructor: the random seed and the default string hash are not modelled, any hash function is.
- HashTable.Table.Sweep: a walk whose body inserts is not modelled; growth in the middle of a walk relinks the chains.
- PoolIds.RandomIds: the quality of the generator is not modelled beyond `PoolIds.NeverZero`.
- PoolSpec.FreeKeeps: freeing a node that is not live is not modelled; the macros do not detect it.
- PkbufPools.PkbufPool.Put: a length of 2^31 or more, which the source compares as a negative number, is not modelled.
- PkbufPools.PkbufPool.Reserve: the source does not check it; in runs a reserve out of the buffer is skipped.
- PkbufPools.PkbufPool.Copy: the bytes in a buffer, which both pkbufs then share, are not modelled, only which buffer it is.
- WbxmlSpec.ReadElement: the recursion limit of the interpreter is not modelled.
- Bcd.ImsiToSemiOctets: which characters outside ASCII are decimal digits is a parameter; `isdigit` accepts some that `int` refuses, and both refusals are a ValueError.
- Calendar.FromLt: the result of a 64-bit overflow, which C leaves undefined, is not modelled; `Calendar.FitsTime` and `Calendar.StepsFit` say exactly when there is one.
- Pool identifiers by counter and hash (`ogs_pool_id_calloc`, `ogs_pool_find_by_id`): would need the counter macro, which is not part of this model.
- Pool and packet-buffer destruction, logging, and the `ogs_list` operations the timers do not use: only easy members.
- The MME, SMF, SGW and other network functions, sockets, poll sets, configuration, SMPP, MongoDB and SQLite: input and output around the core.
- HMAC-SHA1: the MAC is any string of 40 upper-case hexadecimal digits.
- The decision logic and correlation of the provisioning service, and `ogs-fsm`: easy branching over records.
