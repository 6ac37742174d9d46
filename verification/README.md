# The aesdchar device and the server's thread list

A Dafny model of two parts of the repository, with proofs of what they keep over whole runs.

**The device** (`aesd-char-driver/`). Writes collect bytes until a newline and then publish them as
one packet in a ring of ten slots; reads, `llseek` and the seek ioctl show the packets held as one
flat stream. The model has these layers:

- `RingSpec`, `Packets`: the ring and the newline-terminated packets as values, and the search for
  an offset. `RingSpec.Find` computes in wrapping 64-bit arithmetic, as the code does.
- `Device`, `History`, `Readers`, `Seeks`: one device and any number of open files as a state
  machine. Each call is one atomic step, since its body runs under the device lock; a run is the
  sequence of calls in the order in which they get the lock. `Published` and `Stream` are the
  packets published and the bytes accepted so far.
- `CircularBuffer`, `Slab`, `Driver`: the C code's own form, with slots overwritten in place, real
  buffers, `krealloc` that grows in place or moves, and a published buffer that `dev_buffer` still
  points to. Every file operation is proved to perform exactly one `Device.Step`.
- `Session`: any sequence of these operations on any number of open files, from loading the module to
  unloading it, ends where `Device.State` says, and each returns what its step returns, so the run
  theorems are theorems about the C form. `Client` says what that means to callers, who see calls and
  answers only: each answer, and each file's position, from the calls and answers before it.

**The thread list** (`server/aesdsocket.c`). `Registry` is the list as a value with its run
theorems; `ThreadList` relinks the nodes in place, while threads set `isComplete` at any moment;
`AcceptLoop` is the server's main loop on that list, up to its shutdown.

What the code gets from outside is a parameter, and every theorem is for all its values: whether an
allocation succeeds and by how much the block is larger than asked for, what fresh memory contains
(`junk`), whether copies from or to the user fault, and words the code reads outside the array it
indexes: `beyond`, past the ring struct, and `past`, past the ten slots. In the layout of the struct
the second is its own field `size`. Of the kernel the model uses:

- `kmalloc` never grants 2^32 bytes or more, and what it grants for 0 bytes is a block like any other;
- `fixed_size_llseek(file, offset, whence, size)` returns a position from 0 to `size`, the old
  position for SEEK_CUR with offset 0, or a negative errno;
- what `read` and `write` leave in `*f_pos` is the file's position after the call, failed or not.
  Kernels that write it back only after a successful call hide the one case where this matters, the
  position after a faulting read.

## Where the code differs from what it is for

In each case the model does what the code does; a lemma says exactly when that is right.

- `size` on eviction (`aesd-circular-buffer.c:73`). The code subtracts `buffer[out_offs].size`, which
  indexes ring structs, not entries: index 0 is the ring itself, so `size` becomes 0 at the 11th,
  21st, ... add; any other index reads a word past the ring. `RingSpec.SizeTracksIff`,
  `RingSpec.SizeTracksOnlyFirstTen`, `RingSpec.SizeSinceCollapse`, `Seeks.SizeInRun`,
  `Seeks.LlseekRightIff`. Once the words outweigh the packets, `size` is 2^63 or more and every
  `llseek` fails: `Seeks.LlseekIff`, `Seeks.SeekAfterWrapStopsDevice`.
- `aesd_file_offset` (`main.c:60-76`) counts slots from slot 0. The documented "zero referenced write
  command" is read here as counted from the oldest packet held; the two agree only sometimes. It also
  accepts command 10. `Seeks.FileOffsetRightIff`, `Seeks.SeekRightIffInRun`, `Seeks.SeekThenRead`,
  `Seeks.WrongAfterElevenWrites`, `Seeks.SeekToCommandTen`.
- A refused `llseek` (`main.c:42-43`) returns with the lock held. `Seeks.LockHeldIff`,
  `Seeks.LockedForever`; with the `size` above, `Seeks.SeekAfterCollapseStopsDevice`.
- A failed `krealloc` (`main.c:253-257`) drops the pending bytes and keeps their count.
  `History.ContentConservedIff`. It also leaves their block behind; evicted packets keep theirs
  (`main.c:272-282` is commented out). `History.Blocks` is the account, and `Session.Lifetime` says
  what is left at the end.
- A read whose copy faults (`main.c:166-180`) adds -EFAULT to the position. `Readers.FaultMovesBack`.

## Model

| member | source | states |
|---|---|---|
| RingSpec.AddEntryPushes | aesd-char-driver/aesd-circular-buffer.c:61-78 | one add appends to the live entries, dropping the oldest of ten, from every reachable ring |
| RingSpec.ClosedForm | aesd-char-driver/aesd-circular-buffer.c:61-86 | after n adds: both indices and `full` as closed forms in n, the live entries are the last ten added, unused slots are empty |
| RingSpec.SizeTracksIff | aesd-char-driver/aesd-circular-buffer.c:67-77 | one add keeps `size` equal to the bytes held iff nothing is evicted, or slot 0 is evicted and held every byte while the new entry has none, or another slot is and the foreign word happens to be its size |
| RingSpec.SizeCollapses | aesd-char-driver/aesd-circular-buffer.c:72-75 | the 11th, 21st, ... add sets `size` to 0 |
| RingSpec.SizeTracksFirstTen | aesd-char-driver/aesd-circular-buffer.c:67-77 | up to ten adds, `size` is the sum of the entry sizes |
| RingSpec.SizeTracksOnlyFirstTen | aesd-char-driver/aesd-circular-buffer.c:67-77 | for non-empty entries, `size` is right whatever lies past the ring iff at most ten were added |
| RingSpec.SizeSinceCollapse | aesd-char-driver/aesd-circular-buffer.c:67-77 | after more than ten adds, `size` is what was added since the 11th, 21st, ... add less the foreign words read since, modulo 2^64 |
| RingSpec.FindExact | aesd-char-driver/aesd-circular-buffer.c:19-52 | below 2^64 bytes in all, the search finds an offset iff it is less than the total, and returns its entry and byte |
| RingSpec.FindCorrectIff | aesd-char-driver/aesd-circular-buffer.c:33-47 | the search in wrapping arithmetic is right at every size_t offset iff the entries hold fewer than 2^64 bytes |
| RingSpec.FindOnRing | aesd-char-driver/aesd-circular-buffer.c:34-48 | scanning all ten slots from `out_offs` is scanning the live entries |
| RingSpec.RotatedIsLive | aesd-char-driver/aesd-circular-buffer.h:33-54 | slots that hold no live entry are empty, so all ten together hold the live bytes |
| RingSpec.HitsOrdered | aesd-char-driver/aesd-circular-buffer.c:19-28 | positions order places lexicographically and determine them |
| CircularBuffer.CircularBuffer.Reset | aesd-char-driver/aesd-circular-buffer.c:83-86 | all fields zero |
| CircularBuffer.CircularBuffer.AddEntry | aesd-char-driver/aesd-circular-buffer.c:61-78 | in place, the slots, indices, `full` and `size` of the specification; a null entry changes nothing |
| CircularBuffer.CircularBuffer.FindEntryOffsetForFpos | aesd-char-driver/aesd-circular-buffer.c:29-52 | the loop returns the slot and byte the specified search finds, and leaves the caller's offset alone on failure |
| Packets.SplitIsCut | aesd-char-driver/main.c:226-241 | the lines of a stream concatenate back to it, each ends in its only newline, the tail has none |
| Packets.CutUnique | aesd-char-driver/main.c:226-241 | there is only one such way to cut a stream |
| Packets.SplitResumes | aesd-char-driver/main.c:244-263 | cutting may stop at any byte and go on from the pending tail |
| Packets.SubmitTakes | aesd-char-driver/main.c:226-295 | resubmitting what a write did not take adds exactly the completed lines and keeps the tail pending |
| Packets.SubmitConcat | aesd-char-driver/main.c:226-295 | submitting a+b is submitting a, then b |
| Packets.ChunkingIndependent | aesd-char-driver/main.c:226-295 | any cutting of a stream into write buffers leaves the same entries, indices and pending bytes |
| History.WriteOutSubmits | aesd-char-driver/main.c:216-300 | on the device, a caller that resubmits gets all its bytes taken while memory is granted |
| History.DeviceChunkingIndependent | aesd-char-driver/main.c:216-300 | on the device, two callers that cut the same bytes in any two ways, each call getting its memory, leave the same packets, indices, pending bytes |
| History.HoldsLastTen | aesd-char-driver/main.c:266-287 | after any run, with any failures, the device holds the last ten packets published, at the closed-form indices |
| History.LengthConserved | aesd-char-driver/main.c:243-295 | after any run, published plus pending bytes number the bytes accepted |
| History.StreamRefinement | aesd-char-driver/main.c:222-298 | without a failed krealloc, over any interleaving: live packets are the last ten lines of the accepted stream, pending is its tail, nothing is lost or reordered, commits are newlines, packets are well shaped |
| History.ContentConservedIff | aesd-char-driver/main.c:243-259 | the accepted stream survives, whatever fresh memory contains, iff no krealloc failed on pending bytes |
| History.BlocksOneMore | aesd-char-driver/main.c:198-295 | over any run the blocks allocated number the packets published, the pending one and those a failed krealloc or an empty write left behind; a call adds one exactly if it starts a pending packet |
| Device.StepIsLocal | aesd-char-driver/main.c:136-147 | a call depends on and moves only the device and its own file |
| Readers.ReadDelivers | aesd-char-driver/main.c:149-180 | a read returns the contents from its position to the end of the packet or `count` bytes, or -EFAULT |
| Readers.ReadsSeeHistory | aesd-char-driver/main.c:146-186 | in every reachable state a read at p returns published history from index evicted + p; nothing before 0 or past the end; 0 otherwise only for count 0 |
| Readers.ReadsSeeStream | aesd-char-driver/main.c:146-186 | without a failed krealloc, what is read is a contiguous piece of the accepted stream |
| Readers.ReadsSkipEvicted | aesd-char-driver/main.c:146-186 | over any number of reads of a file, with any calls on others: each delivers the history from the first byte not delivered before, and from one to the next exactly the bytes evicted in between are skipped |
| Readers.ReadsAreContiguous | aesd-char-driver/main.c:146-186 | while nothing is evicted, all the bytes a file reads, in any number of reads with any calls on others, are one contiguous piece of history from its position on, and the position advances by their number |
| Readers.PositionCountsBytes | aesd-char-driver/main.c:180-298 | over any run, the position of a file that only writes and reads is the number of bytes it transferred |
| Readers.DrainIsContiguous | aesd-char-driver/main.c:149-186 | reads of any sizes deliver the contents in order, each byte once |
| Readers.DrainDeliversAll | aesd-char-driver/main.c:149-186 | enough non-empty reads deliver everything to the end, then 0 |
| Readers.FaultMovesBack | aesd-char-driver/main.c:162-180 | a faulting copy returns -EFAULT and moves the position 14 back, and only that does |
| Seeks.SeekInvertsFind | aesd-char-driver/aesd_ioctl.h:21-34 | the documented seek and the search are inverse |
| Seeks.SeekIncreases | aesd-char-driver/aesd_ioctl.h:21-34 | the documented seek is strictly increasing in (command, offset) |
| Seeks.FileOffsetRightIff | aesd-char-driver/main.c:59-76 | the ioctl as written is right for all bytes held iff slot sizes read the same from slot 0 as from the oldest entry |
| Seeks.SlotZeroSeeksRight | aesd-char-driver/main.c:59-76 | with the oldest entry in slot 0 it is right for every request in range |
| Seeks.WrongAfterEviction | aesd-char-driver/main.c:72-76 | ten adds of one byte and one of two, after which command 1 is sought at byte 2 instead of 1 |
| Seeks.WrongAfterElevenWrites | aesd-char-driver/main.c:52-301 | the same as a run of eleven writes and a seek |
| Seeks.InvisibleLandsRight | aesd-char-driver/main.c:65-76 | with the oldest entry in slot 0, or sizes that read the same from there, every request in range lands right |
| Seeks.SeekToEndOfCommand | aesd-char-driver/main.c:65-76 | an offset equal to the command's size is accepted and lands on the next non-empty entry, or nowhere |
| Seeks.SeekToCommandTen | aesd-char-driver/main.c:60-76 | command 10 reads the field `size`: offsets up to the bytes held are accepted up to ten packets, only 0 after the 11th, 21st, ...; it lands at or past the end, where reads find nothing |
| RingSpec.SlotHolds | aesd-char-driver/aesd-circular-buffer.c:61-78 | after any number of adds slot k holds the last entry whose number ends in k, or nothing |
| Seeks.SlotsInRun | aesd-char-driver/main.c:266-287 | over any run slot k holds the last packet published whose number ends in k |
| Seeks.SeekToSlots | aesd-char-driver/main.c:60-76 | the ioctl accepts exactly offsets up to the length of the packet in that slot, and goes to what the slots before it hold plus the offset |
| Seeks.SeekRightIffInRun | aesd-char-driver/main.c:52-82 | over any run, the ioctl goes to every byte held iff fewer than ten packets were published, or the lengths of the last ten read the same that many places on, modulo ten |
| Seeks.SeekThenRead | aesd-char-driver/main.c:52-186 | in every reachable state, for every byte held: the seek goes to that byte iff the slots before the command hold what the packets before it do and the slot is long enough; the next read then returns that packet from there |
| Seeks.SizeInRun | aesd-char-driver/aesd-circular-buffer.c:67-77 | over any run `size` is the bytes held up to ten packets, and 0 with packets held after the 11th, 21st, ... |
| Seeks.LlseekRightIff | aesd-char-driver/main.c:40-50 | SEEK_SET accepts exactly 0 to the end iff `size` is right; all ways to seek are right if it is |
| Seeks.LlseekIff | aesd-char-driver/main.c:32-50 | for any `size`: below 2^63 an llseek succeeds exactly for targets from 0 to `size` and for staying put, from 2^63 on only for staying put; otherwise -22 with the lock held |
| Seeks.SizeInLongRun | aesd-char-driver/aesd-circular-buffer.c:67-77 | over any run of more than ten packets, `size` is the bytes published since the last collapse less the foreign words, modulo 2^64 |
| Seeks.SeekAfterWrapStopsDevice | aesd-char-driver/main.c:38-50 | when these words outweigh the bytes by at most 2^63, every llseek but staying put is refused and stops the device |
| Seeks.LlseekThenRead | aesd-char-driver/main.c:40-50 | in every unlocked run of at most ten packets, for SEEK_SET, SEEK_CUR, SEEK_END and others: succeeds exactly for a target from 0 to the end, or for staying put at 0 or beyond, and goes there; the next read starts there and returns 0 only at or past the end or for count 0; else -EINVAL with the lock held |
| Seeks.LockHeldIff | aesd-char-driver/main.c:38-49 | between calls the lock is held iff some llseek of the run was refused |
| Seeks.LockedForever | aesd-char-driver/main.c:42-43 | once it is held nothing ever changes again |
| Seeks.SeekAfterCollapseStopsDevice | aesd-char-driver/main.c:38-50 | after the 11th packet, SEEK_SET to any held byte but the first is refused and stops the device |
| Client.PositionKnown | aesd-char-driver/main.c:38-298 | the position of each file follows from its own calls and their answers: transfers add what they return, an llseek goes to what it returns, a seek by line to what the slots before that line hold, while nothing is lost; no call moves another file |
| Client.StoredNoLoss | aesd-char-driver/main.c:243-259 | bytes are lost exactly if a write is answered -ENOMEM, its data being readable, while an unfinished line is waiting |
| Client.AllExplained | aesd-char-driver/main.c:32-301 | until bytes are lost, every answer follows from the calls and answers before it, for any number of lines: who blocks; what a write takes; a read gives the rest of its line or `count` bytes of what was sent; which llseeks succeed, `size` and foreign words included; which seeks by line |
| Client.SizeKnown | aesd-char-driver/aesd-circular-buffer.c:67-77 | the field `size` follows from the lines sent and the foreign words met |
| Client.SeekFirstTen | aesd-char-driver/main.c:52-82 | up to ten lines a seek to a byte of a line returns 0 and goes to that byte of what was sent |
| Client.LockKnown | aesd-char-driver/main.c:38-49 | the device is stuck exactly after an llseek answered with an error |
| Client.MemoryTaken | aesd-char-driver/main.c:198-295 | while nothing is lost and every write brings bytes, one block is allocated for every line sent and one for the rest |
| Client.NumbersOfWrite | aesd-char-driver/main.c:192-241 | -12 without memory or for 2^32 bytes or more, -14 for unreadable data, otherwise bytes up to the first byte 10 or all |
| Client.FirstPacket | aesd-char-driver/main.c:146-301 | one write of the bytes 97, 10, 98 takes two, and another file reads back 97, 10 |
| Driver.AesdDev.constructor | aesd-char-driver/main.c:344-347 | the zeroed device is the initial state |
| Driver.AesdRead | aesd-char-driver/main.c:133-187 | performs the read step on real buffers; the user's buffer holds exactly the bytes reported |
| Driver.Reserve | aesd-char-driver/main.c:243-259 | after either allocation the pending bytes are in a buffer no slot owns, or are lost as the step says |
| Driver.Publish | aesd-char-driver/main.c:266-287 | the pending buffer becomes the newest entry; live buffers stay distinct, the alias left in `dev_buffer` is dead |
| Driver.AesdWrite | aesd-char-driver/main.c:189-301 | performs the write step on every return path, keeps ownership, changes no published byte; memory it takes over is fresh; of its allocations only the pending buffer stays, the copy of the user's data is freed on every path, and a failing write leaves the allocations as they were |
| Driver.AesdLlseek | aesd-char-driver/main.c:32-50 | performs the llseek step, lock included; `Seeks.LlseekIff` says what that step is for every `size` |
| Driver.AesdFileOffset | aesd-char-driver/main.c:52-82 | the summing loop performs the seek step |
| Driver.AesdCleanup | aesd-char-driver/main.c:369-371 | frees each live packet's buffer exactly once and nothing else, as many as there are live packets |
| Session.Perform | aesd-char-driver/main.c:32-301 | one call on one of many open files returns, in its value and its bytes, what the step of the run returns, moves device, lock and positions as that step does, and keeps the account of blocks |
| Session.Serve | aesd-char-driver/main.c:32-301 | any calls on any files end where the run ends, with as many blocks allocated as its account says, and the list of outcomes returned is the run's; without a failed krealloc the heap then holds the last ten lines of the accepted stream |
| Session.Unload | aesd-char-driver/main.c:360-376 | after cleanup: slots, indices, counts, lock and positions as the run left them, every live packet's buffer freed and no other |
| Session.Lifetime | aesd-char-driver/main.c:333-376 | from loading to unloading, in terms of calls and answers alone: every answer is the one `Client.Explained` demands, every file is where its own calls moved it, and what stays allocated is one block for each line evicted and one for the bytes after the last newline, if nothing was lost and every write brought bytes |
| Registry.KeptOfKept | server/aesdsocket.c:397-427 | two removal walks are one walk with merged flags |
| Registry.ThreadsConserved | server/aesdsocket.c:332-427 | over any run every inserted thread is listed or reaped, exactly once, and the list keeps insertion order |
| Registry.EachThreadOnce | server/aesdsocket.c:332-427 | a thread inserted once is at every moment either listed once or reaped once, never both |
| Registry.ShutdownReapsAll | server/aesdsocket.c:332-356 | after a shutdown the list is empty and every inserted thread is joined |
| ThreadList.FoundBounds | server/aesdsocket.c:403-424 | a thread complete before the walk, or let complete before its check, is found complete; one found complete was so before or was let complete by then |
| ThreadList.Server.InsertNode | server/aesdsocket.c:377-395 | appends in place; the list stays acyclic, nothing dangles, the only new node is a fresh one |
| ThreadList.Server.RemoveCompletedThreads | server/aesdsocket.c:397-427 | for any completions before each check and during each join: finds a thread complete exactly if it has completed by its check; removes in place, keeping order, exactly those found; joins and frees them and their nodes, each once; terminates |
| ThreadList.Server.DoShutdown | server/aesdsocket.c:332-356 | joins, unlinks and frees every listed thread and its node, each once and nothing else, leaving the list empty |
| AcceptLoop.Walk | server/aesdsocket.c:132-133 | a removal walk continues the run: no thread that is still running leaves the list |
| AcceptLoop.Launch | server/aesdsocket.c:125-126 | a thread started is listed, as one not listed before |
| AcceptLoop.Admit | server/aesdsocket.c:120-130 | a struct is allocated for each connection: listed, not complete, if its thread was created, freed otherwise |
| AcceptLoop.Turn | server/aesdsocket.c:113-134 | one turn of the main loop continues a run of the registry on the real list: nothing, a walk, or an insert and a walk; the walk finds exactly the threads completed by then, so a thread just started, or running before, that nothing lets complete stays listed; no memory but that of the list stays allocated |
| AcceptLoop.Serve | server/aesdsocket.c:113-137 | after any connections and the shutdown: one thread was started and listed for every connection accepted, no two the same; none is running, exactly those started were joined, each once, and freed; the list is empty, and all memory handed out for threads and nodes, created or not, is freed |

## Left out

- Module registration, `aesd_release`, ioctl command decoding and the copy of its argument, debug printing: no property of their own.
- Freeing evicted packets: the code has it commented out, so their buffers stay allocated.
- `loff_t` overflow: positions are unbounded; only writing 2^63 bytes through one file reaches the difference.
- Device.Write: a real `krealloc` that fits in place does not fail, but the model lets it, so that every theorem covers more runs.
- Driver.Reserve: a moved block is new memory in the model, so reuse of a freed address is not captured.
- RingSpec.SizeTracksIff: the bytes held and added are assumed to number fewer than 2^64, as they do in one address space.
- `client_handler`, except that it sets `isComplete` and then ends: socket I/O and a shared file descriptor.
- A failed `malloc` in `insertNode` or `main`: the code uses the result unchecked; the model's allocations there succeed.
- The list mutex: one walk or insert is one method, and only `isComplete` changes under it, as in the code.
- Signals. The only way out of the accept loop is the handler, which has then called `do_shutdown` itself (`aesdsocket.c:278-283`); the model runs the call at line 137 alone, not the two in turn.
- Daemon setup, the timestamp thread, closing sockets and destroying mutexes.
- `server/aesdsocket-simple.c`, which repeats the list functions, and the other directories, which wrap foreign calls.
