# Containers, locks and streams of a Linux driver runtime, in Dafny

webcamd runs Linux drivers in a process of its own and brings its own versions of what they
expect of a kernel. This project models the parts of it that other code trusts blindly, and
proves what they promise:

- the id allocators `idr` and `ida` over a tree with 256 slots a layer (`Idr`, `Ida`, with the
  tree and its invariant in `IdrTree`);
- the radix tree with 64 slots a node and the extensible arrays over it (`Radix`, `RadixTree`,
  `Xarray`);
- mutexes and semaphores on one recursive lock, as interleavings of single steps (`Thread`);
- the URB queue of an endpoint, served by two transfers (`Usb`);
- the vTuner data stream, from the device over two sockets to the reader (`Framing`, `Vtuner`),
  and the end of a connection between its two threads (`Teardown`);
- bit scans, heapsort, square root, greatest common divisor and best rational approximation
  (`Scan`, `Bits`, `Sort`, `Sqrt`, `Rational`, with shifts as arithmetic in `Digits`).

What the C code changes in place is a class with the same fields here; loops are loops. A tree
in the heap is mirrored by a ghost map from places to layers, so that its invariant is a flat
quantifier and every step of an operation is an update of that map with a lemma beside it.
Memory may be refused at any allocation, reads and writes may be cut or fail anywhere, and
threads may be interleaved in any way. To verify all modules, give the command
`dafny verify dfyconfig.toml`.

## Findings

Where the code does not keep a promise, the model does what the code does, and a member states
what follows.

- `__idr_remove_all` leaves the root of a tree of four layers behind: its climb is bounded by
  `fls`, which ends at 32 bits, below the root. `Idr.Idr.RemoveAll` frees all layers but this
  one, exactly; ids from 1 << 24 on make such a tree (`Idr.Idr.DeepTree`), and
  `Idr.LeakingRun` is a run that loses its root.
- `bitmap_clear` leaves the first word of a whole bitmap as it was. A layer that has been put
  over a full root, and is given back for want of another one, goes to the free list with its
  first bit set. `Ida.Ida.GetNewAbove` says exactly when that happens. It does no harm to
  callers that keep to the protocol: at most two such layers are in the list at any time, always
  at its end, and an allocation after a successful `ida_pre_get` comes to none of them, so that
  it hands out the least free id in every reachable state, the repetition after `-EAGAIN`
  included (`Ida.Ida.PreGet`, `Ida.Ida.GetAgain`, `Ida.Ida.SimpleGet`).
- `__xa_alloc_cyclic` sets the index to go on from to 0 before it looks at it. The answer is
  the least free index of all, which is the cyclic one exactly under the condition of
  `Xarray.CyclicIff`; an empty array asked to go on from index 1 is an input that fails it
  (`Xarray.FirstAgain`).
- A vTuner client that has lost a read in the middle of a frame takes what comes next for a
  header. `Vtuner.Client.DoPeerRead` stays at the start of a frame exactly when a failed read
  has taken nothing; `Vtuner.OutOfStep` is a run that returns bytes nobody sent as data. What
  calls return is the start of what was sent as long as nothing has been taken for a frame that
  is none, and it always is if reads fail only when no byte is left (`Vtuner.Relay`).
- `bsd_no_resubmit` keeps a completion handler from restarting the transfer it is called from,
  but only if it submits the URB it was called for. If it submits another one, and the USB
  library starts transfers that are in their callback, that transfer takes two URBs and the
  first is never completed: `Usb.Overtake` does it to any endpoint with an empty queue, and
  `Usb.LosingRun` from the start. Nothing is lost without such a start: `Usb.Endpoint.Account`.

## Model

| member | source | states |
|---|---|---|
| IdrTree.FillKeeps | kernel/linux_idr.c:358-367 | Filling a free leaf slot keeps the tree invariant, but for bits on the way to the id that are not set yet. |
| IdrTree.UnhangKeeps | kernel/linux_idr.c:526-540 | Cutting off an idle layer keeps the tree and all leaves; only the count above lags by one. |
| IdrTree.RaiseKeepsTree | kernel/linux_idr.c:322-345 | One more layer over the root gives a tree again, with the same leaves. |
| IdrTree.FreedNext | kernel/linux_idr.c:605-613 | Climbing by `fls` of the changed bits frees exactly the layers whose last id has been passed, children first. |
| Idr.Idr.SubAlloc | kernel/linux_idr.c:220-287 | The search with backtracking and restarts ends at the least id from the start whose bit is clear, or proves that the tree has none; what it takes from the free list is bounded. |
| Idr.Idr.GetEmptySlot | kernel/linux_idr.c:289-352 | The same, growing the tree as needed; no leaf changes; the free list gets a layer with a bit set exactly if growing is given up after a layer was put over a full root. |
| Idr.Idr.MarkFull | kernel/linux_idr.c:172-190 | The bit of the id, and the bits of all layers that become full, are set; the tree invariant holds again. |
| Idr.Idr.Alloc | kernel/linux_idr.c:450-473 | Binds the least free id from `start` on, and below `end` if that is positive, and nothing else; otherwise all bindings stay: -EINVAL exactly for a negative start, -ENOSPC only if every id in that range is taken, -ENOMEM exactly when the system has refused a layer. |
| Idr.Idr.AllocCyclic | kernel/linux_idr.c:488-500 | As `Alloc` from the larger of the start and the cursor on, then from the start, never at or past a positive `end`; the cursor moves past the id, wrapping at 32 bits. |
| Idr.Idr.FindSlowpath | kernel/linux_idr.c:642-665 | The value bound to the id, or null. |
| Idr.Idr.Find | headers/linux/idr.h:115-123 | The lookup with the cached leaf gives the same answer for every id, negative ones too. |
| Idr.Idr.HintAnswers | headers/linux/idr.h:115-123 | In every valid state the cached leaf, for the ids of its prefix, agrees with the tree. |
| Idr.Idr.Replace | kernel/linux_idr.c:793-822 | Rebinds an id that is taken and returns its old value; -EINVAL and -ENOENT leave all bindings as they were. |
| Idr.Idr.Remove | kernel/linux_idr.c:550-580 | Exactly this id becomes free; an id not taken changes no binding; exactly the layers that leave the tree are passed to `free_layer`, each once. |
| Idr.Idr.ForEach | kernel/linux_idr.c:686-721 | The callback sees every bound id exactly once in ascending order, up to the first one it answers with an error. |
| Idr.Idr.GetNext | kernel/linux_idr.c:736-777 | The least bound id from the argument on, or none if there is none. |
| Idr.Idr.IsEmpty | kernel/linux_idr.c:845-853 | True exactly when no id is bound to a value. |
| Idr.Idr.RemoveAll | kernel/linux_idr.c:583-616 | Every layer is freed exactly once, children before parents, and none is read after it has been freed; all layers but the root of a tree of four layers. |
| Idr.Idr.DeepTree | kernel/linux_idr.c:49-59 | An id from 1 << 24 on makes the tree four layers deep. |
| Idr.LeakingRun | kernel/linux_idr.c:583-616 | A run: one large id is allocated, everything is freed, and the root is not. |
| Ida.Ida.PreGet | kernel/linux_idr.c:896-914 | Eight layers and a chunk are at hand afterwards, and so many of them clean that no allocation comes to another one; or the system has refused one. |
| Ida.Ida.GetNewAbove | kernel/linux_idr.c:932-1002 | Takes the least free id from the start on, or -ENOSPC if there is none; never -EAGAIN after a successful `ida_pre_get`; a layer with a bit set gets into the free list exactly if `Tears` held on entry. |
| Ida.Ida.Remove | kernel/linux_idr.c:1010-1052 | Exactly this id becomes free, and whether it was taken is found out; a chunk with no other id leaves the tree; chunk counts and leaf bits stay exact, and every chunk is in the tree, kept as a spare, or given back. |
| Ida.Ida.SimpleGet | kernel/linux_idr.c:1078-1115 | The least free id in [start, end), or -ENOSPC with nothing changed; -ENOMEM exactly when the system has refused memory; no round is repeated. |
| Ida.Ida.GetAgain | kernel/linux_idr.c:926-928 | The repetition that the interface asks for after -EAGAIN hands out the least free id, whatever the first call has left in the free list, or memory was refused. |
| RadixTree.EmptyIff | kernel/linux_radix.c:42-51 | Between calls there is a root exactly when something is stored: every node has an item below it. |
| Radix.Root.Lookup | kernel/linux_radix.c:53-72 | The item stored at the index, or null. |
| Radix.Root.IterFind | kernel/linux_radix.c:74-111 | The smallest index from the cursor on that is in use, or none exactly if there is none, in spite of carries and restarts. |
| Radix.Root.Delete | kernel/linux_radix.c:113-158 | Returns what was stored and removes it; no node without items is kept, and none is lost. |
| Radix.Root.CleanRootNode | kernel/linux_radix.c:42-51 | A root left without items by a failed insertion is removed, so that the invariant holds again and nothing stored changes. |
| Radix.Root.Insert | kernel/linux_radix.c:167-265 | Stores at a free index; -EEXIST exactly if the index is in use, -EINVAL exactly for a null item, -ENOMEM exactly when malloc has had none; all errors leave the contents as they were and lose no node, even if levels were added. |
| Radix.Root.Store | kernel/linux_radix.c:267-373 | Stores, replaces or deletes, and returns what was there; fails only for want of memory, leaving the contents. |
| Xarray.XArray.Alloc | kernel/linux_xarray.c:79-104 | Takes the least free index up to the mask; -ENOMEM only if all are taken or memory was refused. |
| Xarray.XArray.AllocCyclic | kernel/linux_xarray.c:124-154 | The same, whatever the index to go on from was; an index is tried once, or twice if all are taken. |
| Xarray.CyclicIff | kernel/linux_xarray.c:116-133 | The least free index is the cyclic answer exactly if there is none free below the index to go on from, or none from it on. |
| Xarray.FirstAgain | kernel/linux_xarray.c:116-133 | An empty array, asked to go on from index 1, gives index 0, which is not the cyclic answer. |
| Xarray.XArray.Store | kernel/linux_xarray.c:214-234 | Updates or deletes one entry and returns the old one, or reports the error with nothing changed. |
| Xarray.XArray.Next | kernel/linux_xarray.c:306-330 | The least index in use from the given one on, or past it. |
| Xarray.XArray.ForEach | kernel/linux_xarray.h:65-67 | The loop over `xa_next` visits exactly the entries, in ascending order. |
| Xarray.XArray.Destroy | kernel/linux_xarray.c:263-271 | The array is empty and every node has been freed. |
| Thread.StepKeeps | kernel/linux_thread.c:318-377 | Every step of every thread keeps the invariant of the lock, the counts and the owner. |
| Thread.RunKeeps | kernel/linux_thread.c:40-69 | The invariant holds in every state of every interleaving. |
| Thread.MutualExclusion | kernel/linux_thread.c:686-746 | At most one thread holds a mutex; its value is one less the holder's recursion depth; it has no owner exactly if its value is one. |
| Thread.CallDone | kernel/linux_thread.c:709-746 | In every run, a call of `mutex_lock` comes back having the mutex once more, `mutex_unlock` once less, `down` with one permit taken and `up` with one given; only `atomic_lock` and `atomic_unlock` change the depth of the caller. |
| Thread.TryLockDone | kernel/linux_thread.c:686-707 | In every run, `mutex_trylock` gets the mutex exactly if no other thread has it when it looks; it returns the value that says so, and leaves the rest as it was. |
| Thread.TryDownDone | kernel/linux_thread.c:344-358 | In every run, `down_trylock` takes a permit exactly if the value is positive when it looks; it returns the value that says so, and leaves the rest as it was. |
| Thread.Progress | kernel/linux_thread.c:318-377 | A thread in a call that does not sleep can take a step unless another has the lock, whoever has the lock does not sleep, and each step brings a thread nearer to the end of its call or to its next sleep. |
| Thread.NoLostWakeup | kernel/linux_thread.c:318-377 | A thread that sleeps has nothing to get, or its wakeup is under way. |
| Thread.DepthRestored | kernel/linux_thread.c:40-69 | A thread sleeps with the recursive lock given up entirely, and comes back with it as deep as its caller had it. |
| Thread.OuterStays | kernel/linux_thread.c:625-637 | Only `atomic_lock` and `atomic_unlock` change the depth a caller has. |
| Thread.Permits | kernel/linux_thread.c:344-377 | A semaphore lets through no more than it was given; the try calls never sleep. |
| Usb.Endpoint.Submit | kernel/linux_usb.c:625-684 | An accepted URB goes to the end of the queue unless it is there; a rejected one is refused; both transfers are asked to start, unless the URB is submitted from its own handler, and then none. |
| Usb.Endpoint.Unlink | kernel/linux_usb.c:735-776 | A queued URB leaves the queue and its handler is called with -ECONNRESET and no bytes moved; one with a transfer makes that transfer restart. |
| Usb.Endpoint.Complete | kernel/linux_usb.c:1729-1741 | The handler of the URB is called with the status, while its restarts are off, and they are on again afterwards; the transfer has no URB then unless a start has come inside the handler. |
| Usb.Endpoint.Callback | kernel/linux_usb.c:1751-1890 | A transfer that has ended completes its URB: with -EPIPE exactly if too few bytes have been moved and that is not allowed, else 0; with -ECONNRESET if cancelled; with 0 for an isochronous timeout and -EPIPE for other errors. The bytes moved leave out a setup packet. Unless cancelled, the transfer has the next URB afterwards or the queue is empty; the URB it has is not too long for it. |
| Usb.Endpoint.Setup | kernel/linux_usb.c:1902-2118 | Exactly the URBs that are too long are completed with -EFBIG on the way, and the one that the transfer has in the end is not; a URB it has already is overwritten exactly if there is another. |
| Usb.Endpoint.Launch | kernel/linux_usb.c:1948-1981 | A URB that has just been taken is completed with -EFBIG exactly if it is too long for the endpoint; otherwise it stays with the transfer and the other transfer is asked to start. |
| Usb.Endpoint.Serve | kernel/linux_usb.c:625-2118 | Any sequence of submissions, unlinkings and callbacks keeps the records and places of all URBs. |
| Usb.Endpoint.Account | kernel/linux_usb.c:1938-1946 | Accepted submissions are the completed, the queued, those with a transfer and the overwritten ones; there are none of the last kind without a nested start. |
| Usb.InOrder | kernel/linux_usb.c:1938-1946 | A submission is taken only after all earlier ones were taken or unlinked. |
| Usb.Conservation | kernel/linux_usb.c:1729-1741 | The numbers of accepted, completed, queued, held and overwritten URBs add up. |
| Usb.Overtake | kernel/linux_usb.c:1938-1946 | In any endpoint with an empty queue, a start inside a callback and the return to it take two URBs for the transfer, and the first is lost; all records stay right. |
| Usb.LosingRun | kernel/linux_usb.c:664-672 | A run from a new endpoint: one URB is completed, its handler submits two others, and the first of them is lost. |
| Framing.HeaderRoundTrip | vtuner/vtuner_common.c:48-53 | The header of a frame is understood by a client of either byte order. |
| Framing.HeaderIff | vtuner/vtuner_client.c:252-271 | Eight bytes are taken for the header of a payload exactly if a machine of one byte order or the other would write them for one of that length, at most the largest. |
| Framing.RoundTrip | vtuner/vtuner_client.c:242-286 | Taking a stream of frames apart gives back the payloads, for any two byte orders. |
| Framing.Truncated | vtuner/vtuner_client.c:242-286 | A stream cut off anywhere gives payloads from its start, whole and in order. |
| Vtuner.Server.WriterThread | vtuner/vtuner_server.c:482-511 | The socket has got the frames of all that was read exactly if no call of write(2) has failed; the thread ends with the first that fails, and what has been written by then is the start of those frames. |
| Vtuner.PushBytes | vtuner/vtuner_server.c:412-429 | All bytes are written exactly if every call of write(2) takes at least one; writing stops at the first that does not. |
| Vtuner.PullBytes | vtuner/vtuner_client.c:148-165 | However reads are cut, what is got and what remains make up what there was; reading succeeds exactly if all has come. |
| Vtuner.FrameOrLess | vtuner/vtuner_client.c:242-286 | From a stream of frames one read takes the first payload whole, or less than its frame. |
| Vtuner.Client.DoPeerRead | vtuner/vtuner_client.c:242-286 | The outcome for every behaviour of the socket; the socket is at the start of a frame afterwards exactly if the read has succeeded or taken nothing. |
| Vtuner.Client.Read | vtuner/vtuner_client.c:787-839 | The answer of every call: the bytes in the buffer as far as there is room, or those of the frame it has read; that it would block if nothing is there and it may not wait; a fault exactly if there is something to copy and the memory cannot be written; an error if the read fails. What is returned is appended to what was delivered; step is lost by a failed read only, and nothing that is no frame is taken for one by a read that starts in step. |
| Vtuner.Client.InOrder | vtuner/vtuner_client.c:787-839 | What the calls have returned is a prefix of the payloads sent, wherever the stream ends, unless something else has been taken for a frame. |
| Vtuner.Relay | vtuner/vtuner_server.c:482-511 | Server and client together, for read calls of any kind and length: what they return is a prefix of what the device yielded unless something else has been taken for a frame, which never happens if reads fail only when no byte is left. If no write fails either, enough calls that can return something have returned all that the device yielded. |
| Vtuner.OutOfStep | vtuner/vtuner_client.c:252-279 | A run in which a read fails after a header, and the next returns part of a payload as a payload. |
| Teardown.FreedOnce | vtuner/vtuner_server.c:512-523 | In every interleaving the context is freed once at most, after the device has been closed, and neither thread touches it afterwards. |
| Teardown.AllGivenBack | vtuner/vtuner_server.c:592-603 | Some step is possible until both threads have gone, and then everything has been given back exactly once. |
| Scan.FindNextBit | kernel/linux_func.c:1397-1415 | The first set bit from the offset on, or the size. |
| Scan.FindNextZeroBit | kernel/linux_func.c:1417-1435 | The first clear bit from the offset on, or the size. |
| Scan.BitmapFull | kernel/linux_func.c:1573-1589 | True exactly if all bits below the size are set. |
| Scan.ScanIsNextClear | kernel/linux_idr.c:234-241 | The scan over words is the search for a clear slot that the id tree rests on. |
| Bits.FlsTop | kernel/linux_func.c:1329-1358 | The position found is that of the highest set bit, for negative words too. |
| Bits.FlsAbove | kernel/linux_func.c:1329-1358 | `n < fls(x)` exactly if `x >> n` is not zero. |
| Sort.SiftStep | kernel/linux_func.c:1745-1752 | Exchanging a node with its greater child moves the one violation of the heap property down. |
| Sort.SiftDown | kernel/linux_func.c:1743-1765 | With offsets in bytes, the heap property is restored below a node and the elements are the same. |
| Sort.Sort | kernel/linux_func.c:1732-1767 | The result is in order and a permutation, for every total preorder and every length. |
| Sqrt.StageKeeps | kernel/linux_func.c:2979-3240 | One stage of shifts and exclusive ors finds one binary digit of the root. |
| Sqrt.IntSqrt | kernel/linux_func.c:2979-3240 | The floor of the square root of every 64-bit number. |
| Rational.Gcd | kernel/linux_func.c:3331-3345 | The greatest common divisor in the order of divisibility. |
| Rational.ExpansionStep | kernel/linux_func.c:3462-3471 | A step of the continued fraction keeps its equations and determinant, and no term exceeds the input. |
| Rational.BestApproximation | kernel/linux_func.c:3440-3475 | The last convergent within the bounds, in lowest terms, its distance from the fraction being the remainder of the expansion there; the fraction itself if it fits when reduced. |

## Left out

- Readers of the id trees that run beside a writer: all calls on one tree come one after the
  other, as the interface asks of its callers, and a layer counts as gone when it is passed to
  `free_layer`.
- Per-processor preloading of layers, and the draining of the free list in `idr_destroy` and
  `ida_destroy`.
- The prefix of a first leaf taken from the free list of an `ida`: it is set to 0 here and
  left as it was by the code. Nothing reads it, since an `ida` caches no leaf.
- Ida.Ida.GetNewAbove: asks for a free list in which no layer that may have a bit set can be
  reached (`Ample`): there is none, or there are as many others before it as the call may take.
  `ida_pre_get` always brings this about. What becomes of a tree that gets such a layer from a
  call made without it is not modelled. `GetAgain` asks the same of its first call.
- Radix.Root.Insert: takes indices below 2^60, where ten levels of six bits end; -E2BIG is not
  reached by them. The same holds for `Store`.
- Words are 64 bits wide: a chunk of an `ida` has 960 ids.
- Drivers do not submit an URB that a transfer still has, and the library reports every
  transfer once and starts only idle ones. Whether it starts a transfer inside its own callback
  is a parameter. In `Usb` the calls that handlers make in turn are bounded by a number, which
  is arbitrary.
- Set-up of USB endpoints, waiting in `usb_kill_urb`, anchors, and the data of transfers.
- A mutex is unlocked only by its holder. Interruptible and timed variants of the locks,
  completions, and the choice of the next thread to run.
- vTuner control messages, the polling thread and its signals; what a message announces is a
  parameter of `Read`.
- `sort` moves whole elements here, not bytes; its number of bytes fits an `int`.
- `rational_best_approximation` of 0/0, or with a bound of 0.
- `bitmap_xor` and other uses of `bitmap_clear`, which do not compute what their names say.
- Lookup, insertion and erasure of the arrays under their own lock, which are the functions
  modelled between two calls.
