# Verified model of the AOCL-Utils core

Dafny model of four parts of AOCL-Utils, with proofs of what they promise:

- **Thread pinning.** Masks and groups of CPUs, the topology reader for Linux, the double
  divide-and-conquer splitter, and the spread and core strategies built on it.
- **Asynchronous logger.** The locked queue, the per-thread buffers, and the protocol between producer
  threads, the consumer thread and `stop`, as a state machine over atomic steps.
- **BitMap.** An array of 64-bit words that stands for a set of positions.
- **CPUID support.** The printer and parser of enumerator names, and the memoised feature-flag update.

| file | contents |
|---|---|
| `Bits.dfy` | words as natural numbers read bit by bit; lowest bit, population count, enumeration |
| `Split.dfy` | the splitter: method, shape, load bounds, exact peak load, spacing |
| `CoreLists.dfy` | masks to CPU numbers and back |
| `Spread.dfy`, `CoreStrategy.dfy`, `AffinityVector.dfy` | the two strategies, their meaning and their methods |
| `Text.dfy`, `Hex.dfy`, `MaskLine.dfy`, `CpuNumbering.dfy` | sibling lines: scanning, numbers, masks, CPU ids |
| `Groups.dfy`, `Dedup.dfy`, `CpuTopology.dfy` | group counts, duplicate removal, the topology reader |
| `CpuSets.dfy` | the topology and the pins in terms of the CPU ids that the lines print |
| `Logger.dfy`, `LogProtocol.dfy` | the logger seen by one thread, and the protocol of all threads |
| `BitMap.dfy` | the bitmap |
| `EnumNames.dfy` | enumerator names |
| `CpuidMemo.dfy` | the memoised CPUID update |

`dafny verify dfyconfig.toml` verifies the whole project.

## How the source is modelled

- Masks and words are natural numbers with explicit widths: 64 bits for affinity masks and bitmap words,
  32 bits for registers and group masks. Complement, negation and the unsigned counter of `BitMap` wrap as
  the source's types do.
- `createVector` runs in place on an array; the strategies, the parser, the bitmap, the name tables and the
  flag update are methods with the loops of the source, each tied by its contract to a specification function
  or to the set, list or map it stands for. The properties are lemmas about those.
- The vectors `pMap` and `maskIndex` of the core strategy are local values that the methods reassign.
- The group map, the CPU topology and the CPUID function are inputs; directory walking, file reading and
  system calls are not modelled. A missing file reads as an empty line.
- Assertions (`AUD_ASSERT`) are taken as in a release build, where they expand to nothing.
- The mutex of the queue and of the bitmap makes each call one atomic step. In the logger, `empty()` and
  `dequeue()` stay separate steps, `stop` flushes the sink before it joins, and a flush enqueues one message
  per step.

## Where the code does less than it says

- The splitter is documented to distribute threads equally. With `p` processors, and `b` the largest power of two
  not above `p`, `t` threads differ in load by at most one if and only if `p == b`, or `t <= p + b`, or
  `t == p + 2 * b` (`Split.BalanceIsExact`); so every `t` is distributed equally if and only if `p` is a power of
  two (`Split.AlwaysBalancedOnPowerOfTwo`). The largest load is `max(1, t div b + [t mod b > p - b])`
  (`Split.PeakLoadExact`), and the smallest is `t div b` when `p == b` and
  `(t div b + [t mod b >= p - b]) div 2` otherwise (`Split.TroughLoadExact`).
- Hence the spread strategy on `m` caches of `c` cores gives `t` threads their own cores exactly when the largest
  load is at most `c` (`Spread.SpreadSharesNoCoreUniform`); six threads on three caches of two cores share a core
  (`Spread.SpreadOnThreeCachesShares`).
- CPU lists carry the operating system's CPU ids exactly when every lower group holds 32 CPUs
  (`CpuNumbering.NumberingIsExact`).
- `BitMap::set(pos)`, `clear(pos)` and `isSet(pos)` shift a 32-bit `int`. On a bitmap of a given size, for all
  contents and platforms, `set(pos)` is exact if and only if `pos mod 64` is at most 30
  (`BitMaps.SettingIsExact`); `clear(pos)` and `isSet(pos)` also when it is 31 and no later position is below the
  size, and in no other case (`BitMaps.ClearingIsExact`, `BitMaps.ReadingIsExact`).
- `BitMap::set(other)` is union for all contents, and `clear(other)` is difference for all contents, if and only if
  the smaller size is below 64 or a multiple of 64 (`BitMaps.CombiningIsExact`, which is stated for either);
  otherwise the trailing partial word is left out.
- The topology reader indexes without testing: ordering lists of which some are empty, a group past the last entry
  of the group map, and a machine that names no CPU go out of bounds. `CpuTopology.ReadTopology` says exactly when.
- A message enqueued after `stop` found the queue empty can stay unwritten (`LogProtocol.LateMessageStays`), and one
  enqueued before can be written only after the flush of the sink (`LogProtocol.FlushCanMissMessage`).
- The memo of the CPUID update is keyed by the sum of the request registers. A query is answered as a direct
  one on every machine if and only if the request memoised for its sum is its own, or it asks for no bit
  (`CpuidMemo.MemoIsExact`). The table of the repository meets this for every query
  (`CpuidMemo.RepositoryTableIsDirect`).

## Model

| member | source | states |
|---|---|---|
| `Bits.LowestBitIsolated` | Library/Private/Au/ThreadPinning/ThreadPinning.hh:79-82 | `x & -x` is the power of two of the lowest one bit, for every word width |
| `CoreLists.CoreNum` | Library/Private/Au/ThreadPinning/ThreadPinning.hh:79-82 | the logarithm of `x & -x` is the smallest position that is one, below 64 |
| `CoreLists.UpdateMap` | Library/Private/Au/ThreadPinning/ThreadPinning.hh:96-99 | clears one position and keeps every other, and the group |
| `CoreLists.TakeLowest` | Library/Private/Au/ThreadPinning/ThreadPinning.hh:147-152 | taking the lowest CPU and clearing it removes the head of the ascending enumeration and makes the mask smaller, so the loop ends |
| `Bits.OnesUnique` | Library/Private/Au/ThreadPinning/ThreadPinning.hh:143-154 | the enumeration is the only strictly increasing list of the one bits |
| `Bits.OneSetMembers` | Library/Private/Au/ThreadPinning/ThreadPinning.hh:143-154 | the enumeration has as many entries as the population count |
| `CoreLists.CalculateOffset` | Library/Private/Au/ThreadPinning/ThreadPinning.hh:58-67 | the loop computes the sum of the counts of the lower groups |
| `CoreLists.CoreMapToCoreList` | Library/Private/Au/ThreadPinning/ThreadPinning.hh:143-154 | terminates with the CPUs of all masks, mask by mask, ascending within a mask, each shifted by its group's offset |
| `CoreLists.DecodeProcessor` | Library/Private/Au/ThreadPinning/ThreadPinning.hh:504-518 | the group walk finds a group and a bit below the group's count whose number is the given one, or all groups were passed |
| `CoreLists.DecodingIsUnique` | Library/Private/Au/ThreadPinning/ThreadPinning.hh:58-67 | group and bit are determined by the CPU number, so the decoding undoes offset plus bit |
| `Split.CreateVector` | Library/Private/Au/ThreadPinning/ThreadPinning.hh:221-264 | terminates, writes exactly the thread range with the assignment of the split, and touches nothing else; empty ranges change nothing |
| `Split.AssignmentShape` | Library/Private/Au/ThreadPinning/ThreadPinning.hh:227-263 | entries lie in the processor range, never decrease and start at its first processor |
| `Split.LargerHalvesFirst` | Library/Private/Au/ThreadPinning/ThreadPinning.hh:247-263 | the first half, rounded up, of the threads gets the first half, rounded up, of the processors |
| `Split.LoadBounds` | Library/Private/Au/ThreadPinning/ThreadPinning.hh:221-264 | with at least as many threads as processors every processor is used, and each load lies between the two power-of-two quotients |
| `Split.BalanceIsExact` | Library/Private/Au/ThreadPinning/ThreadPinning.hh:206-207 | any two loads differ by at most one exactly when the processors are a power of two, or the threads are at most that many more than the processors, or twice that many more, for the largest power of two not above the processors |
| `Split.AlwaysBalancedOnPowerOfTwo` | Library/Private/Au/ThreadPinning/ThreadPinning.hh:206-207 | every number of threads is distributed equally exactly when the number of processors is a power of two |
| `Split.PeakLoadExact` | Library/Private/Au/ThreadPinning/ThreadPinning.hh:221-264 | no load exceeds the closed form, and some processor reaches it |
| `Split.TroughLoadExact` | Library/Private/Au/ThreadPinning/ThreadPinning.hh:221-264 | no load of a processor in the range is below the closed form, and some processor has it |
| `Split.SpacingBounds` | Library/Private/Au/ThreadPinning/ThreadPinning.hh:231-237 | with at most as many threads as processors the entries strictly increase from the first processor, and every gap lies between the two power-of-two quotients |
| `Spread.GetCacheAffinityMap` | Library/Private/Au/ThreadPinning/ThreadPinning.hh:119-130 | maps every cache that is used, and no other, to the ascending list of exactly its threads |
| `Spread.PositionOfRank` | Library/Private/Au/ThreadPinning/ThreadPinning.hh:292-295 | the r-th thread of a cache's list is the thread with r predecessors on that cache |
| `Spread.UpdateProcVect` | Library/Private/Au/ThreadPinning/ThreadPinning.hh:303-314 | each listed thread gets its listed core; no other thread changes |
| `Spread.SpreadSharesNoCore` | Library/Private/Au/ThreadPinning/ThreadPinning.hh:378-397 | on disjoint caches the pins are pairwise different exactly when no cache gets more threads than it has cores |
| `Spread.SpreadSharesNoCoreUniform` | Library/Private/Au/ThreadPinning/ThreadPinning.hh:378-397 | with equally sized caches this is exactly that the peak load is at most the size |
| `Spread.SpreadOnPowerOfTwo` | Library/Private/Au/ThreadPinning/ThreadPinning.hh:378-397 | on a power of two of caches the pins are pairwise different exactly when the threads do not outnumber the cores |
| `Spread.SpreadOnThreeCachesShares` | Library/Private/Au/ThreadPinning/ThreadPinning.hh:378-397 | six threads on three caches of two cores share a core |
| `Spread.PinnedIsSpreadVector` | Library/Private/Au/ThreadPinning/ThreadPinning.hh:383-396 | when every cache has cores, the result does not depend on what the vector held |
| `Spread.PinnedSplitsCores` | Library/Private/Au/ThreadPinning/ThreadPinning.hh:380-396 | entry k of a cache's thread list is pinned to the core at entry k of the split of those threads over the cache's cores |
| `Spread.PinnedKeepsCoreless` | Library/Private/Au/ThreadPinning/ThreadPinning.hh:393-394 | the threads of a cache without cores keep their entries |
| `Affinity.AffinityVector.GetSpreadAffinityVector` | Library/Private/Au/ThreadPinning/ThreadPinning.hh:378-397 | the threads of each cache, in ascending order, are split over its cores as the splitter splits them; a cache without cores leaves the entries of its threads as they were, so caches all without cores, or no caches, change nothing |
| `CoreStrategy.SkipMask` | Library/Private/Au/ThreadPinning/ThreadPinning.hh:190-202 | skips exactly when the core has nothing left in its cycle and then rewinds to the full list; otherwise the remaining CPUs are unchanged and the mask is not empty |
| `CoreStrategy.TakeTurn` | Library/Private/Au/ThreadPinning/ThreadPinning.hh:347-358 | one turn emits the core's next CPU, or nothing when it sits out, and moves the cursor one round on |
| `CoreStrategy.EmptyRoundThenFull` | Library/Private/Au/ThreadPinning/ThreadPinning.hh:421-428 | a round that emits nothing is followed by one that emits |
| `Affinity.AffinityVector.UpdateProcVect` | Library/Private/Au/ThreadPinning/ThreadPinning.hh:339-360 | appends what the cores emit in one round, cut short at the thread count; if not cut, all cursors stand at the next round |
| `Affinity.AffinityVector.GetCoreAffinityVector` | Library/Private/Au/ThreadPinning/ThreadPinning.hh:408-429 | terminates on every well-formed topology, even or not, with exactly the first t CPUs of the round-robin schedule |
| `CoreStrategy.CyclePosition` | Library/Private/Au/ThreadPinning/ThreadPinning.hh:190-202 | the CPU a core emits next is the one its cycle has reached |
| `CoreStrategy.CoreCycles` | Library/Private/Au/ThreadPinning/ThreadPinning.hh:347-359 | after r rounds a core with k CPUs has emitted r - r div (k + 1) entries, the i-th being CPU i mod k, whatever the other cores |
| `CoreStrategy.CorePrefixOfCycle` | Library/Private/Au/ThreadPinning/ThreadPinning.hh:408-429 | on every topology a core's share of t pins is a prefix of its endlessly repeated CPU list |
| `CoreStrategy.UniformSchedule` | Library/Private/Au/ThreadPinning/ThreadPinning.hh:408-429 | with n cores of k CPUs, entry i is CPU (i div n) mod k of core i mod n |
| `CoreStrategy.ConsecutiveCoresDiffer` | Library/Private/Au/ThreadPinning/ThreadPinning.hh:318-323 | any n consecutive pins use n different cores |
| `CoreStrategy.FirstPassCoversAll` | Library/Private/Au/ThreadPinning/ThreadPinning.hh:408-429 | the first n * k pins hit every CPU, and none twice |
| `Hex.StoullOfDigits` | Library/Private/Au/ThreadPinning/Linux/CpuTopology.hh:126-130 | one to sixteen plain hexadecimal digits are read as their value, without exception |
| `Hex.StoullReads` | Library/Private/Au/ThreadPinning/Linux/CpuTopology.hh:126-130 | blanks, a sign, a prefix and digits, followed by anything but a digit, are read as the number of the digits, negated modulo 2^64 after a minus sign; from 2^64 on, out of range |
| `Hex.StoullRejects` | Library/Private/Au/ThreadPinning/Linux/CpuTopology.hh:126-130 | without a digit where one is due there is no number |
| `Hex.DigitTable` | Library/Private/Au/ThreadPinning/Linux/CpuTopology.hh:106-107 | the digits are 0 to 9 and a to f in either case, with their values in this order |
| `Hex.ZeroBackwards` | Library/Private/Au/ThreadPinning/Linux/CpuTopology.hh:125-127 | testing a group for zero while it is spelled backwards is the same as testing it forwards |
| `MaskLine.ParseLine` | Library/Private/Au/ThreadPinning/Linux/CpuTopology.hh:117-137 | for every line: the non-zero groups with their positions, lowest first, or the exception of the first unreadable group together with the list as it leaves it; a line without such groups leaves the list as it was |
| `MaskLine.ParseWellFormed` | Library/Private/Au/ThreadPinning/Linux/CpuTopology.hh:117-137 | a line of groups of one to eight digits never throws, and its masks are its non-zero groups in place of the list known before, which stays when there are none |
| `MaskLine.ParseUnreadable` | Library/Private/Au/ThreadPinning/Linux/CpuTopology.hh:125-134 | the lowest unreadable group throws its exception; the list then holds the non-zero groups below it, and an empty place when only the second reading failed |
| `CpuNumbering.ParsedLineValue` | Library/Private/Au/ThreadPinning/Linux/CpuTopology.hh:103-137 | the masks are non-zero, in strictly increasing groups, and the sum of mask times 2^(32 group) is the value of the line |
| `CpuNumbering.LineValueOfDigits` | Library/Private/Au/ThreadPinning/Linux/CpuTopology.hh:106-107 | when only the highest group is short, that value is the number spelled by the digits |
| `CpuNumbering.CoreListOfMasks` | Library/Private/Au/ThreadPinning/ThreadPinning.hh:143-154 | when the lower groups are full, the CPU list of a parsed line is the ascending list of the one bits of its value |
| `CpuNumbering.NumberingIsExact` | Library/Private/Au/ThreadPinning/ThreadPinning.hh:58-67 | CPU lists carry the ids of their lines, for all lines, exactly when every lower group holds 32 CPUs |
| `CpuNumbering.PrintParseList` | Library/Private/Au/ThreadPinning/Linux/CpuTopology.hh:117-137 | printing a set of CPU ids as a line, parsing it and listing its CPUs gives the ids back in order |
| `Dedup.EliminateDuplicates` | Library/Private/Au/ThreadPinning/Linux/CpuTopology.hh:198-203 | keeps every list that occurs, keeps it once, in strict dictionary order of masks and groups |
| `Dedup.ListLessIsOrder` | Library/Private/Au/ThreadPinning/Linux/CpuTopology.hh:200 | the comparison of vectors of pairs is a strict weak order |
| `Dedup.CompareVectorsIsOrder` | Library/Private/Au/ThreadPinning/Linux/CpuTopology.hh:218-225 | the final comparison is a strict weak order, and only lists with the same first mask and group are equivalent |
| `Dedup.Reorder` | Library/Private/Au/ThreadPinning/Linux/CpuTopology.hh:257 | the second sort is a permutation in ascending order of the first group, then of the first mask, and keeps the lists distinct |
| `Groups.Accumulate` | Library/Private/Au/ThreadPinning/Linux/CpuTopology.hh:271-279 | every group's entry is the union of its masks and the sum of their bit counts; out of bounds exactly when a mask names a group without an entry |
| `Groups.PopEmpty` | Library/Private/Au/ThreadPinning/Linux/CpuTopology.hh:280-282 | drops exactly the empty groups at the end, so that nothing is left exactly when all are empty |
| `Groups.EntryBits` | Library/Private/Au/ThreadPinning/Linux/CpuTopology.hh:275 | a CPU is in a group's mask exactly when a sibling mask of that group has it |
| `Groups.EntryCount` | Library/Private/Au/ThreadPinning/Linux/CpuTopology.hh:276-277 | on disjoint sibling masks a group's count is the population count of its mask |
| `Groups.CountsSum` | Library/Private/Au/ThreadPinning/Linux/CpuTopology.hh:272-279 | the counts of all groups sum to the CPUs named by all masks |
| `Groups.TrimmingKeepsOffsets` | Library/Private/Au/ThreadPinning/Linux/CpuTopology.hh:280-282 | dropping the empty tail changes no offset and loses no count |
| `CpuTopology.ReadTopology` | Library/Private/Au/ThreadPinning/Linux/CpuTopology.hh:239-283 | for all lines: an exception, an access out of bounds, or a topology, and exactly when each, the exception being that of some line; then cores and caches are the distinct lists of the lines, once each and ordered by first group and mask, and the group map is their trimmed tabulation |
| `CpuTopology.TopologyConservesCpus` | Library/Private/Au/ThreadPinning/Linux/CpuTopology.hh:270-282 | on disjoint siblings every group counts its mask, and the counts sum to the CPUs all cores list |
| `CpuTopology.ReadCoresWellFormed` | Library/Private/Au/ThreadPinning/Linux/CpuTopology.hh:249-282 | the topology read from disjoint siblings is one the core strategy accepts |
| `CpuTopology.MapsNumberCpusOnce` | Library/Private/Au/ThreadPinning/ThreadPinning.hh:143-154 | disjoint masks whose bits fit their groups get CPU numbers without overlap |
| `CpuTopology.CoreStrategyCoversMachine` | Library/Private/Au/ThreadPinning/ThreadPinning.hh:408-429 | from the sibling lines to the pins: on separate cores of equally many CPUs, in groups numbered without holes, pinning as many threads as the machine has CPUs uses every listed CPU, and none twice |
| `CpuTopology.CachesNumberedOnce` | Library/Private/Au/ThreadPinning/ThreadPinning.hh:383-387 | disjoint cache masks give the disjoint CPU lists the spread strategy relies on |
| `CpuSets.ReadMasks` | Library/Private/Au/ThreadPinning/Linux/CpuTopology.hh:239-267 | lines of groups of one to eight digits are always readable, and the cores and caches read from them are exactly the non-zero groups that their digits spell, each list once |
| `CpuSets.MapListsSets` | Library/Private/Au/ThreadPinning/ThreadPinning.hh:143-154 | when the lower groups are full, lines that print CPU sets come out as exactly those sets, ascending, each once |
| `CpuSets.CountsLowBits` | Library/Private/Au/ThreadPinning/Linux/CpuTopology.hh:275-277 | a group's count grows by the CPUs among the low 32 bits of a mask, for masks of any width |
| `CpuSets.PartitionFillsGroups` | Library/Private/Au/ThreadPinning/Linux/CpuTopology.hh:271-282 | when the cores partition the CPUs 0 to size - 1, all groups but the last come out with 32 CPUs |
| `CpuSets.CoreStrategyPinsMachine` | Library/Private/Au/ThreadPinning/ThreadPinning.hh:408-429 | from the digits of the sibling lines to the pins: when the lines print a partition of the CPUs 0 to size - 1 into cores of k, the lists are those cores, and size threads are pinned to the CPUs 0 to size - 1, each once |
| `Logger.LockingQueue.Enqueue` | Library/Core/Logger/Queue.cc:40-45 | appends one message |
| `Logger.LockingQueue.Dequeue` | Library/Core/Logger/Queue.cc:47-57 | takes the first message, or returns the text "Empty Queue" and leaves the empty queue alone |
| `Logger.LogWriter.Log` | Library/Core/Logger/LogWriter.cc:127-133 | enqueues a batch in order |
| `Logger.LogManager.Flush` | Library/Core/Logger/LoggerManager.cc:46-51 | without interruption, hands the whole buffer over in order and empties it |
| `LogProtocol.FlushUninterrupted` | Library/Core/Logger/LoggerManager.cc:46-51 | the steps of one flush, taken without interruption, do what the method does |
| `LogProtocol.StepKeepsInv` | Library/Core/Logger/LogWriter.cc:42-133 | every step of any thread keeps conservation, the non-empty dequeue, the order per thread and the order of stop |
| `LogProtocol.WrittenIsPrefix` | Library/Core/Logger/LogWriter.cc:42-58 | in every reachable state, written, in-flight and queued messages together are the enqueue history; the sink has a prefix of it; a dequeue never meets an empty queue |
| `LogProtocol.StopDrains` | Library/Core/Logger/LogWriter.cc:102-120 | when stop returns, everything enqueued before it saw the queue empty has been written once and in order; everything has been written exactly when the queue is empty, as it is if nothing came later |
| `LogProtocol.StopDrainsRun` | Library/Core/Logger/LogWriter.cc:102-120 | along every run: what had been enqueued at the step in which stop looked and found the queue empty is at the head of what the sink has when stop returns |
| `LogProtocol.FlushCanMissMessage` | Library/Core/Logger/LogWriter.cc:114-117 | a run in which a message enqueued before stop was called is still in flight after the sink was flushed |
| `LogProtocol.LateMessageStays` | Library/Core/Logger/LogWriter.cc:102-120 | a run in which a message enqueued after that is still queued, and unwritten, when stop returns |
| `LogProtocol.ThreadMessagesInOrder` | Library/Core/Logger/LoggerManager.cc:39-51 | over every run and for every thread: what it enqueued followed by what it still buffers is the sequence of messages of its log steps; the sink's share is a prefix of it, and all of it when nothing is buffered, queued or in flight |
| `LogProtocol.LogEnabled` | Library/Core/Logger/LoggerManager.cc:39-43 | a thread that is not flushing can always log, and its buffer grows by the message |
| `LogProtocol.StopCanFinish` | Library/Core/Logger/LogWriter.cc:102-120 | from every reachable state after the call of stop, the consumer and stop alone can finish, late messages or not; if stop still waits for an empty queue, everything enqueued is then written |
| `BitMaps.BitMap.constructor` | Library/Core/BitMap.cc:368-375 | a new bitmap of any size has one word more than its whole words and stands for the empty set |
| `BitMaps.BitMap.Count` | Library/Core/BitMap.cc:106-120 | the count is the size of the set |
| `BitMaps.BitMap.DoSetOrClear` | Library/Core/BitMap.cc:122-143 | for every size, fills exactly the positions below size and keeps the padding zero; with the clear flag it changes nothing |
| `BitMaps.BitMap.DoSetOrClearFrom` | Library/Core/BitMap.cc:145-173 | union or difference with the other set restricted to the positions below the smaller size, if that is below 64, and otherwise below its last multiple of 64; also when both are the same bitmap |
| `BitMaps.CombinedSets` | SDK/Include/Au/BitMap.hh:84-96 | reaching all positions below the smaller size is union, or difference, with the other set restricted to them |
| `BitMaps.CombiningIsExact` | Library/Core/BitMap.cc:168-172 | on bitmaps of any two sizes, set(other) is exact for all contents, and clear(other) is, if and only if the smaller size is below 64 or a multiple of 64 |
| `BitMaps.BitMap.SetPos` | Library/Core/BitMap.cc:181-192 | adds the position when its place in the word is at most 30; past the size it changes nothing; otherwise it sets the bits the `int` shift has |
| `BitMaps.BitMap.ClearPos` | Library/Core/BitMap.cc:209-220 | removes the position when its place in the word is at most 30, or is 31 and the position is the last; always keeps the padding zero |
| `BitMaps.SettingIsExact` | Library/Core/BitMap.cc:189-190 | on a bitmap of a size, set(pos) is exact for all contents and platforms if and only if the place of pos in its word is at most 30 |
| `BitMaps.ClearingIsExact` | Library/Core/BitMap.cc:214-218 | clear(pos) is exact for all contents and platforms if and only if the place is at most 30, or is 31 and pos is the last position |
| `BitMaps.ReadingIsExact` | Library/Core/BitMap.cc:250-254 | isSet(pos) is exact for all contents and platforms, for every position it reads, if and only if the place is at most 30, or is 31 and no later position is below the size |
| `BitMaps.IntShiftBits` | Library/Core/BitMap.cc:189-190 | the widened `int` shift is one bit up to place 30, and at place 31 that bit and all above |
| `BitMaps.BitMap.Clear` | Library/Core/BitMap.cc:200-207 | the empty set |
| `BitMaps.BitMap.IsSet` | Library/Core/BitMap.cc:245-258 | membership when the place in the word is at most 30, or is 31 and no later position is below the size, also for positions past the end; otherwise what the `int` shift selects |
| `BitMaps.BitMap.IsZero` | Library/Core/BitMap.cc:266-280 | true exactly for the empty set |
| `BitMaps.BitMap.IsFull` | Library/Core/BitMap.cc:282-286 | true exactly when every position below size is in the set |
| `BitMaps.MembersIn` | Library/Core/BitMap.cc:106-120 | the set has exactly the positions whose bits are one, and its size is the sum of the population counts |
| `EnumNames.FromString` | SDK/Include/Au/Cpuid/X86Cpu.hh:78-123 | the value of the enumerator named by the trimmed input, or -1 converted to 64 bits; the character test never decides |
| `EnumNames.ToString` | SDK/Include/Au/Cpuid/X86Cpu.hh:124-149 | the name of a value from 1 to N, "UNDEF" for every other value |
| `EnumNames.PrintValues` | SDK/Include/Au/Cpuid/X86Cpu.hh:51-77 | appends the values of exactly those names that are listed, in order, each followed by a colon |
| `EnumNames.TrimCuts` | SDK/Include/Au/Cpuid/X86Cpu.hh:89-98 | trimming removes the listed blanks at both ends, all of them, and nothing else |
| `EnumNames.DecimalSpells` | SDK/Include/Au/Cpuid/X86Cpu.hh:71-75 | a printed value is its decimal digits, without an idle zero in front |
| `EnumNames.ParseOfPrint` | SDK/Include/Au/Cpuid/X86Cpu.hh:78-149 | every value prints to a name that parses back to it |
| `EnumNames.PrintOfParse` | SDK/Include/Au/Cpuid/X86Cpu.hh:78-149 | parsing yields 2^64 - 1 exactly on what is not a listed name up to surrounding blanks, and printing the value gives the trimmed input back |
| `EnumNames.ListingAgrees` | SDK/Include/Au/Cpuid/X86Cpu.hh:71-75 | the value printed for a listed name is the one parsing yields |
| `CpuidMemo.KeyOrder` | SDK/Include/Au/Cpuid/CpuidUtils.hh:53-63 | the key order is a strict weak order whose equivalence is having equal sums |
| `CpuidMemo.SumWraps` | SDK/Include/Au/Cpuid/CpuidUtils.hh:53-63 | the key is the sum of all four registers without the carries out of 32 bits |
| `CpuidMemo.HasFlagIsCover` | Library/Cpuid/CpuidUtils.cc:126-130 | a flag is there exactly when, register by register, the response has every bit that is expected |
| `CpuidMemo.MemoHoldsFirst` | Library/Cpuid/X86RawData.cc:229-242 | the memo holds a sum exactly when it occurred, with the response to the first request that had it |
| `CpuidMemo.Lookup` | Library/Cpuid/X86RawData.cc:240-243 | issues a request only when its sum is new, and answers from the memo |
| `CpuidMemo.Flags.Update` | Library/Cpuid/X86RawData.cc:238-244 | both flag maps get the memo's answer of every query in table order; when sums are separate, each flag of the table says whether the response to its last query has, register by register, the expected bits, and no other flag changes |
| `CpuidMemo.MemoIsExact` | Library/Cpuid/X86RawData.cc:238-244 | a query is answered as a direct one on every machine if and only if the request memoised for its sum is its own or it asks for no bit |
| `CpuidMemo.MemoIsDirect` | Library/Cpuid/X86RawData.cc:238-244 | when distinct requests have distinct sums, the flags are those of direct queries |
| `CpuidMemo.IssuedFromTable` | Library/Cpuid/X86RawData.cc:240-242 | no request is issued twice, and only requests of the table are |
| `CpuidMemo.EveryRequestIssued` | Library/Cpuid/X86RawData.cc:240-242 | every request of the table is issued if and only if distinct requests have distinct sums |
| `CpuidMemo.RepositoryTableIsDirect` | Library/Cpuid/X86RawData.cc:38-223 | on tables over the requests of the repository's table, the flags are those of direct queries, bit by bit, and each request is issued once |

## Left out

- CpuTopology.ReadTopology: takes one sibling line and one cache line for each active processor, so directory entries of other processors do not occur; which of several unreadable lines is reported is left open, because directory order decides it; what happens after an access out of bounds is not modelled.
- BitMaps.BitMap.Count: asks that at most 2^31 - 1 positions are set, because the original counts in an `int`.
- BitMaps.BitMap.SetPos: shifts by 32 or more take a value the platform chooses, because the language leaves it undefined; the padding may then be overwritten, so nothing is claimed about it.
- Dedup.EliminateDuplicates: `std::sort` is modelled by an insertion sort, of which only the sorted permutation is used.
- Spread.GetCacheAffinityMap: the ordered map becomes a map walked in ascending order of its keys.
- The in-place sorting, erasing and resizing of vectors in the topology reader are reassignments of sequences; iterator invalidation and capacity are not modelled.
- LogWriter's loop and `stop` appear only as steps of the protocol; restarting after `stop`, destroying the singleton, and `getLogWriter` or `start` racing with `stop` are outside the one epoch modelled.
- Whether the sink has flushed what was written: `stop` flushes it before the consumer is joined.
- Fair scheduling: that the consumer and `stop` finish is shown for schedules of those two, not for every fair schedule.
- Logger sinks, time stamps, priorities and message formats; a message is its text.
- The logical strategy (thread number modulo CPU count) and the dispatch on the strategy index.
- The calls that set thread affinity, directory walking, file reading and the `cpuid` instruction.
- BitMap operators, iterators, `flip` and `isSubset`, which the original does not implement, and the one-line forwarders.
- Vendor, family and model tables, the x86-64 feature levels, and the cache view, whose loop never runs.
- The Windows topology reader, environment, status and error classes, random numbers, buffers and C interfaces.
