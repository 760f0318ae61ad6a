# Verified models of the Arax runtime

Arax lets applications push tasks into virtual accelerators that live in shared memory; controller threads pop
and run them on physical accelerators. This Dafny project models the parts of Arax whose correctness depends on
more than one line of code at a time, and proves what they guarantee. `dafny verify dfyconfig.toml` checks
everything.

| files | what they model |
|---|---|
| `BitmapSpec`, `BitmapWords`, `Bitmap`, `BitmapTrace`, `BitOps` | the bitmap allocator: a flat specification on booleans, the word-level code that refines it, whole runs |
| `PageAlloc` | the page allocator on top of the bitmap |
| `Queue`, `QueueThreads` | the ring-buffer work queue, used by one thread, and under interleaved pushes and compare-and-swap pops |
| `Objects`, `ObjectPipe` | reference counts, the cascade of destructors, the bytes charged to the pipe's throttle |
| `Wakeup`, `WakeupLaws` | assignment of virtual accelerators, and the wake-up tokens of the workers; what the operations of a run say about its state |
| `Throttle` | the spin-lock condition and the byte throttle for any number of threads |
| `List` | the intrusive list |
| `WeightedRoundRobin`, `RoundRobin` | two task schedulers |
| `JsonValue`, `JsonParser`, `JsonInput`, `JsonRoundTrip`, `JsonUnicode`, `JsonGrammar`, `JsonLayout` | the JSON printer and parser, the grammar of what is read and the layout of what is printed |
| `MapSum`, `Options`, `Sequences` | shared helpers |

Machine words are natural numbers below a power of two with the bit operators of `BitOps`; the 16-bit queue
indices wrap around explicitly. Code that updates structures in place is a class or a method proved against a
specification function; protocols of several threads are state machines whose steps are the atomic accesses or
critical sections of the code, under sequential consistency.

## What the proofs found

- **Bitmap, partial last chunk.** `find_end_small` (src/utils/bitmap.c:61-74) does not mask the last chunk. All
  allocations stay inside the bitmap in every run exactly when `size_bits` is a multiple of 64 or below 64
  (`BitmapTrace.InRangeIff`, with a run that overruns for every other size).
- **Bitmap, hidden extents.** A small request skips a chunk with enough free bits that are not contiguous, and with
  it extents that begin at its end (src/utils/bitmap.c:100-110). The search finds every free extent in every run exactly
  for lengths 1 and 64 and above (`BitmapTrace.CompleteIff`); `BitmapSpec.AllocSucceedsIffVisible` is the exact
  condition for every length and size. The early exit compares with the cached count, which also counts bits past
  the end; the conditions name it, and for sizes that are multiples of 64 it follows from the free extent.
- **Page layout.** The source gives the bit array its own pages, although the array begins right after the header and
  could use the rest of that page: a segment of 2 MiB gives up a page it does not need (`PageAlloc.LayoutIsNotTight`);
  `PageAlloc.LayoutIff` says exactly which layout it is.
- **Queue limits.** README.md:118 allows a capacity of 65536, but a full queue of that size looks empty, and the
  next push overwrites its first item (`QueueThreads.FullQueueOverwrites`). The code is followed. The compare-and-swap
  on the 16-bit index is safe as long as no popper sleeps through 65536 pops; with exactly that many, at every
  capacity, it returns the first item twice and loses another (`QueueThreads.OvertakenPopRepeats`). The queue is
  first-in first-out in all interleavings if and only if both limits are kept (`QueueThreads.FifoIff`).
- **Wake-up tokens.** A submitter pushes its task before it raises `tasks`, and the worker's pop takes no lock, so it
  may run a task that is not announced yet. That alone is harmless. The one step that can break the count is
  `tasks -= (tasks - 1)` (src/core/arax_accel.c:169) in an un-assign: a step keeps the invariant if and only if it is
  no un-assign of a queue of more than `tasks + 1` tasks (`Wakeup.StepInvIff`), and a run never wraps the count
  if and only if none of its un-assigns does that (`Wakeup.NeverWrapsIff`); runs without an un-assign never do. It
  takes a task of another queue of the device popped ahead of its announcement (`Wakeup.WrapNeedsEarlyPop`), it can
  happen on every device with queues of any capacity above one (`Wakeup.CountWraps`), and then a worker can sleep on
  a non-empty queue (`Wakeup.EarlyPopLosesWakeup`).
- **Full queues.** A submitter spins on a full queue while it holds the lock of the virtual accelerator, and assigning
  the queue needs that lock. It can get on if and only if the queue has room or is assigned
  (`Wakeup.WaiterFreedIff`); a full queue that nobody has assigned yet stays full for good, at every capacity
  (`Wakeup.JamHappens`).
- **Throttle.** Each return of bytes notifies once, and the notification can go to a thread that still has too few
  bytes, while another sleeps on although there are enough. Over arbitrary sizes nobody is ever left asleep like that
  if and only if there is at most one thread (`Throttle.StuckIff`). Over given sizes, whatever the capacity, no thread
  is left asleep with nothing under way if and only if there is one thread, or nothing is returned, or all requests
  have one size and there are two threads or no return is larger than a request (`Throttle.StrandedIff`).
- **Unsubmitted tasks.** The destructor of a task drops an accelerator reference that only submission takes. Giving
  up a held reference keeps the counts right and touches no freed object if and only if it does not destroy a task
  that was never submitted (`Objects.DecIff`). When such a task holds the last objects on its accelerator, the
  destructor frees the accelerator and then drops a reference on it (`Objects.FreedBeforeDrop`).

## Model

| member | source | states |
|---|---|---|
| Bitmap.Allocator.AllocBits | src/utils/bitmap.c:217-252 | the two-pass search from the roving chunk, on words and masks, gives the extent and the state that the flat specification names |
| Bitmap.Allocator.Scan | src/utils/bitmap.c:231-241 | one pass finds the first chunk with room and changes nothing else |
| Bitmap.Allocator.FindStartSmall | src/utils/bitmap.c:76-135 | up to 64 bits: an empty chunk, a gap inside the usable part of the chunk, or an extent across the boundary |
| Bitmap.Allocator.TakeGap | src/utils/bitmap.c:100-117 | the sliding mask finds the lowest gap inside the usable part of one chunk and sets exactly its bits |
| Bitmap.Allocator.TakeAcross | src/utils/bitmap.c:118-133 | the clear end of a chunk joined with the start of the next one |
| Bitmap.Allocator.FindStartBig | src/utils/bitmap.c:137-205 | more than 64 bits, from the clear end of a chunk over the chunks that follow |
| Bitmap.Allocator.FindEndSmall | src/utils/bitmap.c:61-74 | takes the first bits of a chunk if and only if all of them are free |
| Bitmap.Allocator.TakeSpan | src/utils/bitmap.c:171-196 | takes whole chunks and a partial one if and only if all their bits are free; otherwise nothing changes |
| Bitmap.Allocator.FreeBits | src/utils/bitmap.c:254-295 | clears exactly the bits of the extent and lowers the count by its length |
| Bitmap.Allocator.CountAllocated | src/utils/bitmap.c:297-306 | the slow count is the population count and equals the cached count |
| Bitmap.Allocator.constructor | src/utils/bitmap.c:25-41 | a fresh bitmap is all free |
| Bitmap.UsableFacts | src/utils/bitmap.c:78-98 | the marked chunk is zero only if whole and free, and its population count gives the free bits below the end |
| Bitmap.UsableGap | src/utils/bitmap.c:102-108 | the mask test succeeds exactly for a gap that ends inside the bitmap |
| BitmapSpec.AllocAtIsClear | src/utils/bitmap.c:76-205 | an allocation takes only bits that were free; in a bitmap of whole chunks, or of one chunk, only bits below the size |
| BitmapSpec.AllocKeepsValid | src/utils/bitmap.c:217-252 | the cached count stays the population count; success sets exactly the bits of the extent, a failed request changes no bit and no count |
| BitmapSpec.FreeKeepsValid | src/utils/bitmap.c:254-295 | a free clears exactly the bits of the extent and lowers the count by the length |
| BitmapSpec.FreeUndoesAlloc | src/utils/bitmap.c:217-295 | freeing what was just allocated restores every bit and the count |
| BitmapSpec.AllocSucceedsIffVisible | src/utils/bitmap.c:76-252 | exact condition of success at every size: the cached count leaves room, and there is a free extent in one chunk, below the size, or one that leaves a chunk with fewer free bits than asked for |
| BitmapSpec.AllocComplete | src/utils/bitmap.c:76-252 | at every size, for 1 bit and from 64 bits up, a request that the cached count leaves room for fails exactly when no free extent of that length exists, wherever the search starts |
| BitmapSpec.AllocCompleteWhole | src/utils/bitmap.c:137-252 | at sizes that are multiples of 64 the free extent alone decides |
| BitmapTrace.Run | src/utils/bitmap.c:217-295 | in every run of allocations and frees the count is the population count and at most the size |
| BitmapTrace.InRangeIff | src/utils/bitmap.c:61-74 | every allocation of every run stays below the size if and only if the size is a multiple of 64 or below 64 |
| BitmapTrace.CompleteIff | src/utils/bitmap.c:98-133 | every free extent of a length is found in every run at every size, while the cached count leaves room, if and only if the length is 1 or at least 64 |
| BitmapTrace.AllocChoice | src/utils/bitmap.c:217-252 | in every run an allocation takes exactly the visible extent in the nearest chunk, going round from the chunk of the last successful allocation, and there the lowest one |
| BitmapTrace.OwnerRun | src/utils/bitmap.c:217-295 | in every run of owners the live extents are disjoint and are together exactly the taken bits |
| BitmapTrace.GiveExact | src/utils/bitmap.c:254-295 | giving back a live extent frees its bits and no others |
| PageAlloc.LayoutFits | src/alloc/dlmalloc/alloc.c:27-48 | the bit array ends before the first data page; the pages are aligned, end inside the segment, and leave less than a page over |
| PageAlloc.LayoutIff | src/alloc/dlmalloc/alloc.c:31-44 | the layout is the only one whose first data page comes after the least number of pages that hold a bit for themselves and each data page, and whose data pages are all the rest |
| PageAlloc.LayoutIsNotTight | src/alloc/dlmalloc/alloc.c:40-44 | a segment whose bits fit behind the header, and which still gives up a page for them |
| PageAlloc.Pages.constructor | src/alloc/dlmalloc/alloc.c:27-55 | the initial layout and the empty set of regions |
| PageAlloc.Pages.Mmap | src/alloc/dlmalloc/alloc.c:143-152 | a region is page-aligned, inside the segment, and apart from every live region |
| PageAlloc.Pages.Ummap | src/alloc/dlmalloc/alloc.c:154-161 | exactly the pages of the region are free again, and it is no longer live |
| QueueIndex.SlotOfWrapped | src/utils/queue.c:80-81 | masking an index that wrapped around finds the slot of the unbounded count |
| Queue.Queue.Push | src/utils/queue.c:89-124 | appends, and fails exactly when the queue holds `capacity` items |
| Queue.Queue.Pop | src/utils/queue.c:63-87 | removes the oldest item, and returns null exactly when empty |
| Queue.Queue.Peek | src/utils/queue.c:126-142 | shows the oldest item without removing it |
| Queue.Queue.UsedSlots | src/utils/queue.c:51-61 | the number of items held, across wrap-around |
| QueueThreads.StepKeepsInv | src/utils/queue.c:63-124 | each single read or write of a pusher or popper keeps the invariant of indices, slots and threads |
| QueueThreads.PopSwapKeepsInv | src/utils/queue.c:79-83 | a compare-and-swap in time succeeds only if nobody popped since `top` was read |
| QueueThreads.RunIsFifo | src/utils/queue.c:63-124 | in every interleaving the k-th successful pop returns the k-th pushed item, and at most `capacity` items are stored |
| QueueThreads.RefusalIsReal | src/utils/queue.c:99-111 | a push is refused only if the queue was full when it read `top` |
| QueueThreads.EmptinessIsReal | src/utils/queue.c:72-77 | a pop that was not overtaken and finds nothing found the queue empty |
| QueueThreads.Outcomes | src/utils/queue.c:72-111 | a push is refused exactly when the queue was full as it read `top`, an undisturbed pop gives up exactly when it is empty, and a swap succeeds exactly when nobody popped since |
| QueueThreads.PushedArePassed | src/utils/queue.c:89-124 | the items pushed are those the callers passed, in the order of their publication |
| QueueThreads.OvertakenPopRepeats | src/utils/queue.c:72-83 | under any limit above 65536, at every capacity, a run in which one popper sleeps through 65536 pops and repeats the first item |
| QueueThreads.FullQueueOverwrites | src/utils/queue.c:51-111 | at capacity 65536 a run whose first pop returns the item number 65536 |
| QueueThreads.FifoIff | src/utils/queue.c:51-124 | for every power-of-two capacity, all interleavings in which no swap is overtaken by `limit` or more pops are first-in first-out if and only if the capacity is below 65536 and the limit at most 65536 |
| Objects.DecInv | src/core/arax_object.c:152-198 | dropping a held reference keeps every count equal to the outside references plus the edges, touches no freed object, keeps the survivors, and returns exactly the bytes of what it destroys |
| Objects.DecFreesUnreachable | src/core/arax_object.c:175-192 | the cascade frees exactly the objects that no remaining reference reaches |
| Objects.RegisteredIffReachable | src/core/arax_object.c:98-198 | the registered objects are exactly those reachable from a reference held outside |
| Objects.DecIff | src/core/arax_task.c:89-103 | giving up a held reference keeps the counts right and touches no freed object if and only if it destroys no task that was never submitted, whatever that task's accelerator field names |
| Objects.FreedBeforeDrop | src/core/arax_task.c:94-100 | an unsubmitted task whose destructor frees the accelerator and then drops it |
| ObjectPipe.Pipe.RefDec | src/core/arax_object.c:152-198 | the cascade terminates and computes the specified heap |
| ObjectPipe.Pipe.DestroyReferences | src/core/arax_task.c:94-100 | the destructor's loop drops the references of the object in order |
| ObjectPipe.Pipe.Release | src/core/arax_object.c:152-198 | giving up a reference keeps the counts and the byte balance and leaves exactly the reachable objects |
| ObjectPipe.Pipe.Register | src/core/arax_object.c:98-125 | a new object has its one reference and its bytes are charged |
| ObjectPipe.Pipe.Retain | src/core/arax_object.c:136-150 | taking a reference raises one count |
| ObjectPipe.Pipe.MigrateAccel | src/core/arax_data.c:133-159 | the reference of data moves to the new accelerator; only the accelerator left behind can be destroyed |
| ObjectPipe.Pipe.AddArgument | src/core/arax_data.c:245-265 | a task takes a reference on its argument, which then belongs to the task's accelerator |
| ObjectPipe.Pipe.TaskAlloc | src/core/arax_task.c:7-49 | the new task refers to all its inputs and outputs in order, and all of them belong to its accelerator |
| ObjectPipe.Pipe.Submit | src/core/arax_task.c:64-75 | submission takes the reference on the accelerator |
| ObjectPipe.Pipe.SetOwner | src/core/arax_data.c:82-86 | setting data takes a reference on the accelerator only when there was none |
| ObjectPipe.AvailableIffEmpty | src/core/arax_throttle.c:50-104 | all bytes are available exactly when nothing is registered |
| Wakeup.StepPlaced | src/core/arax_accel.c:26-178 | every step keeps each virtual accelerator in one place, each queue within its capacity, and a notification for a worker that sleeps on a count that is not zero |
| Wakeup.StepInvIff | src/core/arax_accel.c:26-178 | a step keeps places, tokens and loads right if and only if it is no un-assign of a queue that holds more than `tasks + 1` tasks |
| Wakeup.UnassignTokens | src/core/arax_accel.c:156-178 | un-assigning a queue of n tasks gives back n - 1 tokens and leaves enough for all other queues |
| Wakeup.ShortageNeedsEarlyPop | src/core/arax_accel.c:166-171 | too few tokens for that mean that a task of another queue was popped ahead of its announcement |
| Wakeup.AttachTokens | src/core/arax_accel.c:122-138 | assigning a queue brings a token for each task in it |
| Wakeup.AnnounceTokens | src/core/arax_vaccel.c:32-39 | raising the count covers the task just pushed |
| Wakeup.OnePlace | src/core/arax_pipe.c:63-107 | in every run a virtual accelerator is once in the list of its device, or unassigned and in the orphan list or one thread's hands |
| Wakeup.SleeperIsNotified | src/core/arax_accel.c:26-44 | in every run a worker that sleeps with no notification left sleeps on a count of zero |
| Wakeup.NoLostWakeup | src/core/arax_accel.c:26-44 | in every run whose un-assigns find enough tokens, a worker that sleeps with no notification left has at most as many queued tasks as there are submitters about to raise the count, and without those only empty queues |
| Wakeup.WrapNeedsEarlyPop | src/core/arax_accel.c:166-171 | the first un-assign of a run that would wrap the count meets a task of another queue of the device that was popped ahead of its announcement |
| Wakeup.NeverWrapsIff | src/core/arax_accel.c:166-171 | the counts of a run never wrap around if and only if each of its un-assigns finds enough tokens; without un-assigns they never do |
| Wakeup.CountWraps | src/core/arax_accel.c:166-171 | on every device, for every capacity above one, a run in which a pop before the announcement makes the count wrap around |
| Wakeup.EarlyPopLosesWakeup | src/core/arax_vaccel.c:34-38 | on every device a run that ends with the worker asleep without a notification, no submission or assignment under way, and a task in its queue |
| Wakeup.WaiterFreedIff | src/core/arax_vaccel.c:32-39 | a submitter that waits for room can get on by the calls under way and a worker that takes tasks if and only if the queue has room or is assigned; otherwise no run frees it |
| Wakeup.JamHappens | src/core/arax_accel.c:115-122 | at every capacity a run that ends with a submitter waiting for good |
| WakeupLaws.TaskBalance | src/core/arax_vaccel.c:32-39 | in every run the tasks pushed to a queue, less those a worker popped, are those it holds |
| WakeupLaws.TokenBalance | src/core/arax_accel.c:26-178 | in every run the tokens of all devices, with the announced tasks in unassigned queues, are the announcements, the pokes and one for each un-assign, less the waits |
| WakeupLaws.SignalBalance | src/core/arax_accel.c:38-44 | in every run the semaphore of a device is the number of steps that changed its tokens, each notifying once, less the wake-ups |
| WakeupLaws.WorkerCycle | controller/src/Core/accelThread.cpp:486-500 | in every run a worker goes from a wait to a snapshot, to a task or the end of its scan, and back |
| WakeupLaws.ScanIsExact | controller/src/Schedulers/HeterogeneousScheduler.cpp:112-217 | a scanning worker has before it exactly the queues of its last snapshot that it has not passed, and its token until it un-assigns one |
| WakeupLaws.OrphansNewestFirst | src/core/arax_pipe.c:63-98 | the orphan taken next is the one added last |
| WakeupLaws.AssignedNewestFirst | src/core/arax_accel.c:122-138 | the list of a device begins with the queue assigned last |
| Throttle.RunInv | src/async/spin/async.c:9-84 | in every interleaving the mutex flag plus the threads inside is one, the semaphore is notifications minus finished waits, and available plus granted plus returning bytes is the capacity |
| Throttle.MutualExclusion | src/async/spin/async.c:64-84 | two threads are never inside together, and the available bytes never exceed the capacity |
| Throttle.BytesBalance | src/core/arax_throttle.c:50-104 | in every run the available bytes are those at the start, with all that callers gave back and without all they took, and each notification counts once |
| Throttle.NobodyStuck | src/core/arax_throttle.c:78-104 | while no semaphore decrement takes a notification from a waiter that has enough bytes, no thread sleeps without a notification left while enough bytes are available |
| Throttle.SecondWaiterStuck | src/core/arax_throttle.c:70-90 | for any two threads, any capacity and any bytes in use at the start there is a run after which one of them does |
| Throttle.StuckIff | src/core/arax_throttle.c:50-104 | no run of any calls leaves a thread like that if and only if there is at most one thread |
| Throttle.StrandedIff | src/core/arax_throttle.c:50-104 | for any set of threads and any sets of request and return sizes, the exact condition under which no run leaves a thread asleep with enough bytes, no notification and nothing under way |
| Throttle.StepMatched | src/core/arax_throttle.c:50-104 | with one request size and no larger returns, the requests that could be granted never exceed the notifications and the calls under way |
| List.List.Add | src/utils/list.c:12-24 | the node becomes the first and the list stays circular and doubly linked |
| List.List.Del | src/utils/list.c:26-34 | the node leaves and is unlinked, the others keep their order |
| List.List.PopHead | src/utils/list.c:36-45 | takes the first node |
| List.List.PopTail | src/utils/list.c:47-56 | takes the last node |
| List.List.ToArray | src/utils/list.c:58-72 | writes the owners in list order and nothing else; without an array it only gives their number |
| List.List.Walks | src/utils/list.h:90-97 | the forward walk is the abstract sequence, the backward walk its reverse, and both return to the head |
| WeightedRoundRobin.Scheduler.SelectTask | controller/src/Schedulers/WeightedRoundRobinScheduler.cpp:308-400 | admission, choice, charging and re-queuing compute the specified state and client and keep the invariant; a task is taken exactly when a weighted client has one, and one task leaves one queue |
| WeightedRoundRobin.Scheduler.AdmitAll | controller/src/Schedulers/WeightedRoundRobinScheduler.cpp:81-133 | the scan that puts clients with tasks into HIGH or LOW |
| WeightedRoundRobin.Scheduler.ServeClient | controller/src/Schedulers/WeightedRoundRobinScheduler.cpp:176-266 | the chosen client is charged, refilled when it came from LOW, and queued by its new credit |
| WeightedRoundRobin.AdmitInv | controller/src/Schedulers/WeightedRoundRobinScheduler.cpp:81-133 | after the scan every client with tasks and a weight is in exactly one control queue |
| WeightedRoundRobin.SelectInv | controller/src/Schedulers/WeightedRoundRobinScheduler.cpp:122-400 | credits stay between zero and the weight, and a queued client is in HIGH exactly when it has credit |
| WeightedRoundRobin.SelectServes | controller/src/Schedulers/WeightedRoundRobinScheduler.cpp:151-267 | a task is taken exactly when some client with a weight has one |
| WeightedRoundRobin.SelectTakesOne | controller/src/Schedulers/WeightedRoundRobinScheduler.cpp:176-347 | a call takes one task of one client, whose credit falls by one after a refill if it had none; all other queues and credits stay |
| WeightedRoundRobin.TaskBalance | controller/src/Schedulers/WeightedRoundRobinScheduler.cpp:308-347 | whatever happens, the tasks of a client at the start and those submitted are those returned and those still queued |
| WeightedRoundRobin.AdmitOrder | controller/src/Schedulers/WeightedRoundRobinScheduler.cpp:81-133 | the scan adds new clients behind those that wait, in the order of their numbers |
| WeightedRoundRobin.SelectIsCoreStep | controller/src/Schedulers/WeightedRoundRobinScheduler.cpp:81-267 | while a set of clients have a task at each call and the others are idle or weightless, a call with the next scan depends only on credits and control queues, even when a queue runs empty in between |
| WeightedRoundRobin.Cycle | controller/src/Schedulers/WeightedRoundRobinScheduler.cpp:202-267 | a LOW turn comes back after exactly as many steps as LOW weighs; in between each client in LOW is served as often as its weight says, and the control queues are restored |
| WeightedRoundRobin.TurnsAreFair | controller/src/Schedulers/WeightedRoundRobinScheduler.cpp:202-267 | two successive LOW turns of a client are exactly one such cycle apart |
| WeightedRoundRobin.ServiceWindow | controller/src/Schedulers/WeightedRoundRobinScheduler.cpp:202-267 | from any credits and control queues a window of the credit in HIGH plus the total weight serves each client exactly its credit plus its weight |
| WeightedRoundRobin.WeightedService | controller/src/Schedulers/WeightedRoundRobinScheduler.cpp:345-396 | with clients that have a task at each call, a LOW service comes back after exactly as many calls as they weigh together; in between each is served exactly its weight, and the idle and weightless ones not at all |
| WeightedRoundRobin.BoundedService | controller/src/Schedulers/WeightedRoundRobinScheduler.cpp:345-396 | from any state such a client is served exactly its credit plus its weight within at most twice the total weight |
| RoundRobin.Scheduler.SelectTask | controller/src/Schedulers/RoundRobinScheduler.cpp:28-57 | pops exactly one task from the queue chosen, which becomes the one served last; null exactly when all assigned queues are empty, and then nothing changes |
| RoundRobin.ChoiceIsNext | controller/src/Schedulers/RoundRobinScheduler.cpp:35-56 | the queue chosen is the first non-empty one after the queue served last, going round |
| RoundRobin.BoundedWaiting | controller/src/Schedulers/RoundRobinScheduler.cpp:35-56 | for n queues and any arrivals a non-empty queue is served within n selections |
| JsonRoundTrip.RoundTrip | controller/include/picojson.h:586-721 | parsing the text of a value gives back the value, in compact and in pretty form |
| JsonRoundTrip.PrintParses | controller/include/picojson.h:645-713 | a printed value is read back inside any text that does not continue a number |
| JsonRoundTrip.StringRoundTrip | controller/include/picojson.h:618-625 | every byte string comes back from its quoted and escaped form (section 7 of RFC 8259) |
| JsonRoundTrip.IntRoundTrip | controller/include/picojson.h:536-541 | every 64-bit integer comes back from its decimal text |
| JsonRoundTrip.ParseWellFormed | controller/include/picojson.h:1067-1137 | the parser only builds 64-bit integers and maps in key order |
| JsonRoundTrip.InsertSorted | controller/include/picojson.h:1131-1137 | the map stays in key order and holds the new member, and nothing that is neither new nor old |
| JsonRoundTrip.InsertKeeps | controller/include/picojson.h:1131-1137 | all members with other keys stay, and the key has the new value only |
| JsonRoundTrip.ReparseIsStable | controller/include/picojson.h:973-1033 | a parsed value can be printed and parsed again without change |
| JsonGrammar.GrammarIff | controller/include/picojson.h:798-1033 | the parser accepts exactly the texts of the grammar, leaves what follows, and reads each as its meaning |
| JsonGrammar.ObjectIsLastWins | controller/include/picojson.h:927-946 | an object that is read has exactly the keys of its text, in key order, each with the value of its last occurrence there |
| JsonGrammar.IntOfIs | controller/include/picojson.h:1005-1016 | a number text is an integer exactly when it is an optional minus and digits whose decimal value fits 64 bits |
| JsonGrammar.PieceComplete | controller/include/picojson.h:865-905 | every plain character, short escape, basic escape and surrogate pair is read as its bytes |
| JsonGrammar.PieceSound | controller/include/picojson.h:865-905 | and nothing else is |
| JsonLayout.EscapeIs | controller/include/picojson.h:586-614 | which characters are printed by a short escape, which by four lower-case hexadecimal digits, and which as they are |
| JsonLayout.NoLeadingZero | controller/include/picojson.h:536-541 | numbers are printed without leading zeros |
| JsonLayout.SerializeLayout | controller/include/picojson.h:636-713 | compact text has no spaces or newlines outside strings; pretty text breaks its lines after opening brackets and commas and before closing brackets and indents each by two spaces for each level |
| JsonLayout.ObjectPrintsInOrder | controller/include/picojson.h:670-700 | an object is printed as its members in their order, each once |
| JsonInput.Input.GetC | controller/include/picojson.h:733-747 | reads one character or the end of the text |
| JsonInput.Input.UngetC | controller/include/picojson.h:749 | gives the last character back |
| JsonInput.Input.SkipWs | controller/include/picojson.h:763-772 | skips exactly the leading spaces |
| JsonInput.Input.Expect | controller/include/picojson.h:774-782 | consumes the expected character, or only the spaces before another |
| JsonInput.Input.Match | controller/include/picojson.h:784-795 | accepts exactly a text that starts with the pattern |
| JsonInput.Input.ParseQuadHex | controller/include/picojson.h:798-819 | the value of four hexadecimal digits, or failure |
| JsonInput.Input.ParseCodepoint | controller/include/picojson.h:821-863 | the bytes of an escape, as specified on the unread text |
| JsonInput.Input.ParseString | controller/include/picojson.h:865-905 | the string up to its closing quote, or failure |
| JsonInput.Input.ParseNumber | controller/include/picojson.h:948-970 | the longest text of number characters |
| JsonInput.Input.ParseArray | controller/include/picojson.h:907-925 | the items in order, or the failure of the first bad one |
| JsonInput.Input.ParseObject | controller/include/picojson.h:927-946 | the members, a later one replacing an earlier one with the same key |
| JsonInput.Input.ParseValue | controller/include/picojson.h:972-1033 | the recursive parser terminates and computes the specified value and unread text |
| JsonInput.ParseText | controller/include/picojson.h:1203-1231 | parsing a whole text from its first character |
| JsonUnicode.BasicEscape | controller/include/picojson.h:821-863 | an escape of the basic plane that is no surrogate appends its UTF-8 encoding (section 3 of RFC 3629) |
| JsonUnicode.PairEscape | controller/include/picojson.h:829-845 | after a high surrogate another escape is accepted exactly when it is a low one, and the pair appends the UTF-8 encoding of its code point |
| JsonUnicode.LoneSurrogate | controller/include/picojson.h:829-842 | lone and reversed surrogates are rejected |
| JsonUnicode.HexValueIs | controller/include/picojson.h:805-815 | the hexadecimal digits in both cases and their values |
| JsonUnicode.PairOf | controller/include/picojson.h:843-844 | every supplementary code point is the value of exactly one pair |
| JsonUnicode.EncodeIsUtf8 | controller/include/picojson.h:846-861 | the shifts and masks compute the table of RFC 3629 |
| JsonUnicode.Utf8Decodes | controller/include/picojson.h:846-861 | that table can be decoded |

## Left out

- QueueThreads.RunIsFifo: assumes a capacity below 65536 and that no popper is overtaken by 65536 pops; `QueueThreads.FifoIff` shows that it must assume both.
- Wakeup.NoLostWakeup: assumes that every un-assign finds enough tokens, which `Wakeup.StepInvIff` shows to be needed.
- Wakeup.StepInvIff: one worker per device, un-assignment by that worker or a destructor, one thread at a time handling an unlisted virtual accelerator, and no destructor of a virtual accelerator that is still in a worker's snapshot; a critical section under the device's lock is one step.
- Throttle.NobodyStuck: assumes that no semaphore decrement takes a notification from a waiter that has enough bytes; `Throttle.StuckIff` and `Throttle.StrandedIff` are the exact conditions on the threads and the sizes. Mutual exclusion and the byte balance hold without it.
- Objects.DecInv: a task is destroyed only after submission; `Objects.DecIff` shows that this is the exact condition.
- ObjectPipe.Pipe.RefDec: calls on objects are atomic, so the race between the count and the repository lock is not modelled; data have no remote buffer.
- ObjectPipe.Pipe.Register: the allocator succeeds, and a request that the throttle makes wait is modelled from the moment it is granted.
- PageAlloc.Pages.Mmap: stays inside the segment for a page count that is a multiple of 64 or below 64, the exact condition of `BitmapTrace.InRangeIff`.
- Bitmap.Allocator.FindStartBig: the loop counter of the source is an `int`, unbounded here.
- WeightedRoundRobin.WeightedService: a fixed set of clients that each have a task at every call, one queue per client, one group, fixed weights, unit reduction, control queues that are never full; each `selectTask` is one step.
- JsonInput.Input.ParseValue: a number that is not a 64-bit integer ends in the outcome `Floating`; `strtod`, locales, error texts and builds without 64-bit integers are not modelled.
- Wakeup.WaiterFreedIff: a worker may run any task it finds; when the task at the head cannot run on its device, un-assigning its queue has to wait for the submitter's lock, and the model does not say which tasks those are.
- Protocol code in `arax_accel.c`, `arax_vaccel.c`, `arax_pipe.c`, `async.c` and the throttle's wait loop is modelled on values, as state machines, because its point is the interleaving; `List` models the list updates in place.
- The order in which `HeterogeneousScheduler` scans queues: `Wakeup` lets the worker scan its snapshot in any order.
- Data migration between devices, remote buffers and their throttles, and `arax_data_set_accel` on data that has an accelerator.
- `ElasticScheduler` migration, `assignVac`, `FlexyRRScheduler`, `LoadBalanceScheduler` and the checkpoint schedulers.
- Device back ends, shared-memory setup, configuration files, the key-value store, monitoring tools and language wrappers.
- Weak memory ordering and real time.
