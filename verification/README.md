# Verified model of tailslayer-rs

tailslayer-rs keeps a lookup table of `Copy` values in several channel-spaced replicas and lets one worker
per replica race each read; a read returns the first value that arrives. This project models the crate in
Dafny 4.11 and proves that such a hedged read cannot be told from indexing a plain sequence, together with
what that rests on: the addressing plan, the replicated buffer, the racing protocol, and the channel check.
It also covers the callback reader and the greedy sample pairing of the `hedged_read` example.

`dafny verify dfyconfig.toml` checks everything.

## How it is modelled

- `Layout`, `Words` (src/layout.rs): the plan's arithmetic over the naturals, and the same arithmetic wrapping
  at 2^64, with the exact condition under which the two agree. `usize` is taken to be 64 bits wide.
- `Channels` (src/sys.rs): pagemap entries, translation and the channel bit. Huge pages are an assumption on the
  pagemap: each page keeps its position within a naturally aligned huge page.
- `Buffers` (src/storage.rs): a class over an array of element-sized cells. The mapping primitive and address
  translation are parameters.
- `Protocol`, `Invariant`, `Steps`, `Safety`, `Progress` (src/runtime.rs): a transition system with one atomic
  access, or one access to the shared value slot, per step; any number of readers, N workers, and `drop`. Memory
  is weak: each atomic keeps the history of its stores, each thread a view of the positions it has seen, and a
  load may return any store at or after that view, `request_index` and `winner_state` included. Release stores
  carry views, Acquire loads join them, Relaxed accesses transfer nothing, a failing compare-exchange may read an
  old value, and `fetch_add` carries on the release sequence. Stores go to the end of a history, and
  `StoresFollowLatest` shows that coherence leaves them no other place, and `LoadsMayBeStale` that old values are
  really read. The slot's writes and copies are counted
  in the views too, which is how data races are told. `Safety`, `Calls` and the last result of `Progress` speak of every
  reachable state; `Steps`, and the lemmas those results are built from, of states that satisfy the invariant
  (`Inv`).
- `Calls`: the protocol as its callers see it: the calls of a run, in order, and what each is answered.
- `EndToEnd`: the protocol over a buffer, and channel validation of a buffer.
- `LowLevel` (src/linux_low_level.rs): the callback reader as a class owning a buffer.
- `Pairing` (examples/hedged_read.rs): the greedy loop as a method, and its optimality.
- `Arithmetic`, `Errors`, `Tables`: division facts, error values, and the memory as workers see it.

One finding: `validate_channels` looks at replica bases only. For two replicas this covers the whole table if and
only if `channel_offset_bytes` is a multiple of 2^channel_bit, or the table is so short that the remainder
carries none of its bytes over a block boundary (`BasesCoverTableIff`); nothing checks either. With an
offset of 384 bytes and channel bit 8, tables of 100 and 200 one-byte elements both pass, and only the shorter
is separated (`CheckMissesSharedBytes`).

## Model

| member | source | states |
|---|---|---|
| Layout.ForType | src/layout.rs:36-74 | a plan is built exactly for positive sizes, 0 < replicas <= channels and an offset that is a multiple of the element size; every other spec is an InvalidConfig whose message is true of it |
| Layout.LayoutPlan.ReplicaElementOffset | src/layout.rs:104-112 | succeeds exactly for existing replicas, names the bad one otherwise; the offset locates back to its slot and stays in its chunk's row |
| Layout.OffsetDigits | src/layout.rs:97-111 | an offset's mixed-radix digits are chunk row, replica, place in chunk |
| Layout.LocateInvertsOffset | src/layout.rs:97-111 | division and modulo recover replica and index from an offset, so slots never share one |
| Layout.OffsetInvertsLocate | src/layout.rs:97-111 | the inverse holds from offsets too: exactly the chunks whose number modulo channels names a replica hold slots |
| Layout.SlotsAreDisjoint | src/layout.rs:97-111 | equal offsets mean equal replica and index |
| Layout.OffsetIncreases | src/layout.rs:97-101 | offsets grow strictly with the logical index |
| Layout.ByteStaysInReplicaChunk | src/layout.rs:57-65 | every byte of an element is in one chunk, whose number modulo channels is the replica |
| Layout.AllocationIsExact | src/layout.rs:115-123 | allocation_len is the least length containing every slot of a non-empty table |
| Layout.AllocationCoversBases | src/layout.rs:115-123 | every replica base is inside the allocation, with a whole chunk each at capacity zero |
| Layout.EmptyAllocationIsExact | src/layout.rs:115-118 | at capacity zero allocation_len is the least length with a whole chunk for each replica |
| Words.RoundUp | src/storage.rs:324-330 | the next positive multiple of the page size, less than one page above the value |
| Words.SlotOffsetWraps | src/layout.rs:97-112 | 64-bit offsets are the true ones reduced once, wherever wrapping happens |
| Words.OffsetsExactIffAllocationFits | src/layout.rs:97-123 | 64-bit offsets are right on the whole table if and only if its allocation has at most 2^64 elements |
| Words.WrappedStrideCollides | src/layout.rs:65 | past that, a stride of 2^64 puts two elements on one offset |
| Words.SizesExact | src/storage.rs:299-300 | when the rounded size fits in a word, the computed sizes are the true ones |
| Words.OffsetDoesNotOverflow | src/layout.rs:97-112 | then no intermediate of an in-range offset overflows |
| Words.AccessStaysInMapping | src/storage.rs:251-261 | then every byte of every slot, at its 64-bit offset, is inside the mapping |
| Words.MappingHoldsTableIffFits | src/storage.rs:298-330 | that condition is exact: the size asked for, wrapped at each step, holds every byte of a non-empty table if and only if the rounded true size fits in a word |
| Channels.EntryDecodes | src/sys.rs:107-119 | a pagemap entry with bit 63 set translates to its low 55 bits times 4096 plus the place in the page, whatever its other bits; a zero frame number is an error |
| Channels.MissingPageRefused | src/sys.rs:96-109 | a failed read of the pagemap is Io; an entry without bit 63 is a page not present |
| Channels.TranslationKeepsPageOffset | src/sys.rs:93-117 | reading the pagemap of a hugepage succeeds and keeps an address modulo the huge page, through the masking, the shift of the frame number and wrap-around |
| Channels.ChannelBitOfResidue | src/sys.rs:130-132 | the channel depends only on the address modulo any larger power of two |
| Channels.AtMostTwoSeparatedBases | src/storage.rs:278-286 | a channel is one bit, so an accepted layout has at most two replicas |
| Channels.BasesCoverTable | src/storage.rs:263-289 | on hugepages, wherever the mapping starts, accepted bases and an offset that is a multiple of 2^bit put the copies of every byte of every element in different channels |
| Channels.BasesCoverTableIff | src/storage.rs:263-289 | the exact condition, for tables of any size: accepted bases cover the table if and only if the offset is a multiple of 2^bit or table and remainder fit in a block together; once the table spans a block, if and only if it is a multiple |
| Channels.CheckMissesSharedBytes | src/storage.rs:263-289 | one configuration whose bases pass the check, with one capacity separated byte by byte and a larger one not |
| Channels.CheckAcceptsIff | src/storage.rs:263-289 | on hugepages, two replicas pass the check if and only if the channel offset holds an odd number of whole 2^bit-byte blocks |
| Channels.TableSeparatedIff | src/storage.rs:27-38 | whether a table is separated byte by byte can be read off the configuration, for every size and number of replicas |
| Buffers.ReplicatedBuffer.constructor | src/storage.rs:298-309 | a zero-filled mapping of the rounded size that holds the empty sequence |
| Buffers.ReplicatedBuffer.WithOptions | src/storage.rs:141-162 | maps the multiple of the page size, 2 MiB or 1 GiB, next at or above the allocation; fails on a bad spec, a failed mapping, or with the base check's own error when validation is on, and otherwise gives an empty buffer of that size |
| Buffers.ReplicatedBuffer.ReplicaBasePtr | src/storage.rs:239-249 | succeeds exactly for existing replicas; a base is inside the allocation, is where the replica's element 0 is, and any element offset added to it leads to that element's slot |
| Buffers.ReplicatedBuffer.ReplicaSlotPtr | src/storage.rs:251-261 | exists exactly below capacity and replica count, is inside the allocation, and locates back to its slot; otherwise names the bad index, or else the bad replica |
| Buffers.ReplicatedBuffer.ReplicaValue | src/storage.rs:223-237 | every replica answers with the one logical sequence, or the right OutOfBounds |
| Buffers.ReplicatedBuffer.Get | src/storage.rs:218-220 | indexing the logical sequence |
| Buffers.ReplicatedBuffer.Push | src/storage.rs:190-207 | extends the sequence by one in every replica and changes no cell of another element; a full buffer is untouched |
| Buffers.ReplicatedBuffer.ExtendFromSlice | src/storage.rs:210-215 | appends the longest prefix that fits; Ok exactly when that is everything, otherwise CapacityExceeded with len equal to capacity |
| Buffers.ReplicatedBuffer.ValidateChannels | src/storage.rs:263-289 | accepts exactly when every base translates and the physical addresses' channel bits all differ; otherwise reports the first failed lookup's error or, when all succeed, the clash |
| Channels.SeparatedMeansParitiesDiffer | src/storage.rs:273-285 | separated bases are those that translate to physical addresses with different channel bits |
| Invariant.InitInv | src/runtime.rs:181-188 | the state a new runtime starts in satisfies the invariant |
| Invariant.WinnerIsPending | src/runtime.rs:164-166 | below 2^62, the pending, claimed and ready tags of a request are at exactly one place each in the history of winner_state |
| Steps.ClaimIffPending | src/runtime.rs:167-171 | under the invariant a compare-exchange succeeds exactly when its request is the pending one |
| Steps.TryClaimKeeps | src/runtime.rs:167-171 | a compare-exchange, winning or losing, keeps the invariant |
| Steps.WriteSlotKeeps | src/runtime.rs:172-174 | so does the winner's write of the slot |
| Steps.PublishReadyKeeps | src/runtime.rs:175 | and its publication |
| Steps.WorkerStepKeeps | src/runtime.rs:139-177 | every step of the worker loop keeps the invariant |
| Steps.ReaderKeeps | src/runtime.rs:210-231 | every step of a read that holds or awaits the mutex keeps it |
| Steps.DropKeeps | src/runtime.rs:238-246 | every step of drop keeps it |
| Steps.StepKeeps | src/runtime.rs:139-246 | hence every step of the system does |
| Safety.RunKeepsInv | src/runtime.rs:139-246 | every state of every run satisfies the invariant |
| Safety.ReachableInv | src/runtime.rs:139-246 | so does every reachable state |
| Calls.HedgedReadsAreLookups | src/runtime.rs:202-231 | at every moment of every run over faithful replicas, each reader's k-th call is answered with what indexing the contents with that call's index gives, errors included; at most its last call is open, and an out-of-range one never |
| Calls.RunKeepsInStep | src/runtime.rs:202-231 | over any loads, the indices of a reader's answers, and of its open call, are those its calls carried, in order |
| Calls.EveryScriptIsAnswered | src/runtime.rs:202-235 | any list of calls can be made, and all of it answered |
| Safety.WorkersLoadTheirOwnReplica | src/runtime.rs:107-161 | there is one worker per replica, and each competes with the value from its own replica's slot, whatever the replicas hold |
| Safety.LoadsMayBeStale | src/runtime.rs:144-148 | some reachable state offers a worker both the old and the new request_id |
| Safety.ClosedMeansJoined | src/runtime.rs:238-246 | drop has returned only when every worker has exited |
| Safety.ClaimWinsOnlyCurrentRequest | src/runtime.rs:154-171 | a compare-exchange succeeds if and only if its request is the pending one, and then carries that request's index and value; a stale worker's always fails |
| Safety.SlotWritesDoNotRace | src/runtime.rs:172-175 | the slot's writer is alone, has seen every earlier write and copy, and makes its request's only write |
| Safety.SlotCopiesDoNotRace | src/runtime.rs:224-226 | the slot's reader is alone, has seen the last write, and finds its own request's value |
| Safety.StoresFollowLatest | src/runtime.rs:215-217 | whoever stores to a location has seen its last store |
| Safety.LoadedIndexIsInRange | src/runtime.rs:155-158 | the worker's out-of-range skip is never taken |
| Safety.ReadNeverSeesShutdown | src/runtime.rs:220-222 | no read returns from the shutdown branch |
| Safety.DropIdIsNeverServiced | src/runtime.rs:144-152 | the id that drop adds was never issued, and a worker that loads it exits at its second check |
| Safety.SeenIdsWereIssued | src/runtime.rs:154 | workers take up issued ids only |
| Safety.WinnerStateClimbs | src/runtime.rs:164-175 | winner_state's stores strictly increase, in the order pending k, claimed k, ready k, pending k + 1 |
| Safety.WorkerStepOnlyAdds | src/runtime.rs:144-155 | a step loses nothing, and takes up only an id above every one before |
| Safety.AttemptsClimb | src/runtime.rs:154-171 | in any run, a worker's compare-exchanges are for strictly increasing ids: it attempts each request at most once |
| Safety.RunOnlyAdds | src/runtime.rs:139-246 | over a run, histories only grow and no seen_request goes back |
| Safety.ShiftKeepsLowBits | src/runtime.rs:212-213 | the shift keeps exactly an id's low 62 bits |
| Safety.TagsCollideIff | src/runtime.rs:164-166 | tags collide exactly when ids agree modulo 2^62; phases never do |
| Safety.TagsAreShiftedWords | src/runtime.rs:164-166 | on machine words the or-ed phases are added, and ids below 2^62 survive the shift |
| Progress.WorkerStepLowersRank | src/runtime.rs:139-177 | while a request is out every worker step lowers a rank, except shutdown checks and loads of request_id that bring nothing new, which keep it |
| Progress.FreshStepLowersPotential | src/runtime.rs:139-177 | shutdown checks included, every worker step but a stale load lowers a potential, except polls by workers that have taken the request up, which keep it |
| Progress.BusyStepsAreBounded | src/runtime.rs:139-177 | in any stretch of a run, whatever else happens, the workers take at most potential many steps besides those polls, and two more for each load that misses the latest request_id |
| Progress.FreshLoadIsFruitful | src/runtime.rs:144-148 | a load of the latest request_id is a poll only for a worker that has taken the request up |
| Progress.WhereWorkersAre | src/runtime.rs:139-177 | while a request is out, each worker has yet to take it up, is in flight with its index, holds the claim, or has competed |
| Progress.RankZeroMeansReady | src/runtime.rs:167-176 | rank zero means the answer is published |
| Progress.FruitfulStepsAreBounded | src/runtime.rs:139-177 | in any stretch of a run, whatever else happens, the workers take at most rank many steps that are not polls |
| Progress.WorkersAnswer | src/runtime.rs:139-177 | from every reachable state with a request out, the workers alone can answer it, in a bounded number of steps |
| Progress.HolderCanReturn | src/runtime.rs:210-231 | whoever holds the mutex can go on to return the right answer, others' calls undisturbed |
| Calls.EveryCallCanReturn | src/runtime.rs:202-235 | no dead end: every run with a call in progress, waiting for the mutex or not, can go on without another call until that call has returned what indexing with its index gives |
| Progress.WorkersDrain | src/runtime.rs:139-177 | after drop's flag, each step of a worker that reads it fresh brings its exit nearer, at most four away |
| Progress.ShutdownCanFinish | src/runtime.rs:238-246 | from every reachable state after drop has begun, shutdown can complete, adding no answer |
| EndToEnd.HedgedReadsOfBuffer | src/runtime.rs:107-189 | the calls of a runtime over any buffer are answered, in order, from its logical sequence |
| EndToEnd.ValidatedBufferIsSeparatedIff | src/storage.rs:157-159 | a validated buffer on hugepages is separated byte by byte if and only if it has one replica or its offset covers the table |
| LowLevel.DefaultWorkerCores | src/linux_low_level.rs:265-277 | core 11 + r for replica r |
| LowLevel.LinuxHedgedReader.Build | src/linux_low_level.rs:100-123 | succeeds exactly when the buffer is made and one core per replica is given or defaulted from 11 on; each failure has its own error; the reader is empty and not started |
| LowLevel.LinuxHedgedReader.Insert | src/linux_low_level.rs:169-172 | pushes before the start, and fails without effect after it |
| LowLevel.LinuxHedgedReader.ExtendFromSlice | src/linux_low_level.rs:175-178 | the same for slices |
| LowLevel.LinuxHedgedReader.StartWorkers | src/linux_low_level.rs:187-229 | starts one worker per replica, once, on the contents as they then are |
| LowLevel.LinuxHedgedReader.Join | src/linux_low_level.rs:232-244 | reports exactly how many unjoined workers got no index, or one out of range, or panicked on its value in the frozen contents; leaves none, so a later join reports none |
| LowLevel.WorkerReceivesContents | src/linux_low_level.rs:209-221 | through its own replica's base a worker receives its index's value; it panics exactly for a missing or out-of-range index or a callback that panics on that value |
| LowLevel.LinuxHedgedReader.WorkersReceiveFrozenContents | src/linux_low_level.rs:126-135 | started workers receive from the contents they were started on, whenever they run |
| LowLevel.PanicCount | src/linux_low_level.rs:233-238 | the size of the set of workers that panic |
| Pairing.PairSamplesN | examples/hedged_read.rs:631-674 | appends, in order, the least latency of each tuple of the greedy pairing, at most num_samples of them, and returns the new length; without channels it returns zero and appends nothing; it terminates, timestamps of u64::MAX included |
| Pairing.ScanDecides | examples/hedged_read.rs:642-672 | the scan's accumulators decide closeness, find the first earliest channel and the least latency, for all u64 values |
| Pairing.UncrossedAreValid | examples/hedged_read.rs:665 | componentwise minimum and maximum of two close tuples are close, in chronological channels |
| Pairing.GreedyIsSelection | examples/hedged_read.rs:640-673 | what is paired is close, uses no sample twice, and moves strictly forward in every channel |
| Pairing.GreedyIsOptimal | examples/hedged_read.rs:640-673 | no selection of close tuples with no sample used twice, in whatever order, has more tuples |
| Pairing.PairedIsMaximum | examples/hedged_read.rs:631-674 | so in chronological channels the greedy count is the maximum |
| Pairing.PairsUpTo399Apart | examples/hedged_read.rs:665 | two lone samples are paired exactly when their timestamps are at most 399 apart |
| Pairing.OutOfOrderMissesPair | examples/hedged_read.rs:669-671 | with timestamps out of order the greedy pass can miss a pair |

## Left out

- HedgedReadsAreLookups: assumes every issued id is at most 2^62, since the tags drop higher bits (TagsCollideIff says exactly how); so do the other results of Calls.
- WithOptions: requires the rounded mapping size to fit in 64 bits, exactly when the mapping can hold the table (MappingHoldsTableIffFits); a checked build stops at the overflow, and what wrapping does to offsets and sizes is in module Words.
- Build: requires the same.
- PairSamplesN: requires at least num_samples samples in each channel, as measurement_thread supplies; the indexing panics otherwise.
- The protocol is a transition system over values rather than a class, because its methods run interleaved; update in place and aliasing of the shared state are not captured there.
- Load buffering (executions cyclic in program order and reads-from) is outside the memory model; so is weak memory for the table itself, which is written before the workers are spawned.
- Progress is a rank and the existence of completions; a scheduler's fairness and the eventual visibility of stores are not modelled.
- Mutex poisoning, thread-spawn failure, CPU pinning and the check on the number of pinned CPUs.
- Idle strategies, sleeps and which replica is earliest in time.
- mmap, mlock, munmap and file access to the pagemap: parameters here, or left out.
- Dropping a low-level reader, which joins its workers and discards the outcome.
- The builders, src/linux_hardware.rs, error formatting, and everything in the examples and benchmarks except pair_samples_n.
