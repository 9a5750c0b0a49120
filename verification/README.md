# A verified model of the RV32 simulator

The simulator loads RISC-V segments into a paged memory, decodes straight runs of instructions into
basic blocks, keeps the blocks in a cache, and executes them until an ECALL. This project models that
machine in Dafny and proves that each of its fast forms agrees with a simple one:

* **Block execution** (`BasicBlock`, `BlockRun`, `SelfModification`, `Hart`): running whole cached blocks is the
  plain fetch/decode/execute interpreter of `Interpreter`, under every cache policy and size, for every
  program that does not rewrite live code, thrown errors included. On every program, whatever it rewrites, no
  register index is out of range and no branch stays pending. `Hart.Simulate` carries this from the segments
  to the last instruction through the mutable objects.
* **Basic-block caches** (`BlockCache`, `LruTheory`, `Caches`): the doubly linked list and hash of the LRU
  cache keep their invariant, exceptions included; recency, stack inclusion and competitiveness are
  proved for whole lookup sequences.
* **Memory** (`FlatMemory`, `PagedMemory`, `Loader`): pages, page table and TLB refine a byte map with one
  mapped bit per 4 KiB page; segment loading puts down the expected bytes.
* **Decoder generator** (`Immediates`, `DecoderTable`, `DecoderGen`): the emitted code is a small
  syntax tree with an evaluator. The three back ends compute the same instruction, and gathering
  an immediate undoes scattering it, for every field layout.
* **Machine state** (`Bits`, `State`, `Machine`, `Effects`, `Executor`, `Opcodes`): bit helpers, register files,
  counters, and the callbacks as written. `Machine.Arch` is the state as a value; the classes show it through
  `View`. `Effects` says what every instruction leaves behind in plain arithmetic, bits and bytes, without the
  functions that define it.

Words are the integers below 2^32, and every operation that wraps in C++ says so (`Wrap`, `% COUNTER_LIMIT`).
Exceptions are outcomes: `Threw(error, state)` in the specification, an error result in the methods. The
classes follow the C++ objects; each method is tied to a function of the old abstract state, and the
main theorems are about those functions.

The main theorem needs one condition on the program, `SelfModification.KeepsLiveCode`, which is read off
the interpreter for a given cache: no store hits a live word, one that the block now running executes or
that a cached block holds. Under NoCache only the running block counts
(`SelfModification.NoCacheWatchesRunningBlock`), under an LRU cache code may be rewritten once its blocks are
evicted. `SelfModification.NeverRewritesCode` serves all policies at once: no store hits a word that an earlier
block executed or the running block executes. A program that keeps its stores and its code apart meets both
(`SelfModification.ApartNeverRewrites`, `SelfModification.NeverRewritesIsWellBehaved`), and
`Examples.RewritingIsVisible` is a program of three instructions that does not, on which `run` completes and the
interpreter throws. The theorem also needs that the table does not decode the word zero, because a store
next to an unmapped word maps its page, and the word then reads as zero.

Where the code and the RISC-V Unprivileged ISA manual (20191213) differ, the model follows the code, and
`Opcodes` proves for each departure exactly when the result is still the manual's, with a failing input:

* `imm20` is placed at bits 31..12 by the decoder (src/decoder/decoder.py:113) and LUI and AUIPC shift it
  by 12 again (src/executor/executor.cc:121-127).
* BLT compares unsigned and BLTU means greater (src/executor/executor.cc:172-178); DIV is unsigned and throws
  for a zero divisor (src/executor/executor.cc:56-62); CSRRC stores `rs1 & ~csr` (src/executor/executor.cc:211-216);
  the CSR immediate forms take the register index, not the decoded immediate (src/executor/executor.cc:218-237).
* SLL, SRL and SRA do not mask the shift amount (src/executor/executor.cc:147-162). A shift by 32 or more is
  undefined in C++ and is its own error here.

Four places where the code promises less than it seems to, each with its exact condition and a failing input:

* `createBB` returns or throws exactly when a branch, an unknown word or a fetch fault occurs within the
  2^30 words from the entry; otherwise it never returns (`BasicBlock.BuildStops`,
  `Examples.CreateBBNeverReturns`).
* The zero-fill loop of the loader can count past 2^32 and never stop (`Loader.FillEndsExactly`,
  `Loader.FillOfAlmostEverything`).
* `assert max_from <= 32` admits 32, and the emitted `signExtend<33>` does not compile
  (`DecoderGen.AssertionAdmits32`); `DecoderGen.GenFillInst` says exactly when the emitted code compiles.
* With overlapping patterns the switch and map decoders can differ from the chain of ifs
  (`DecoderGen.OverlapCanDisagree`, `DecoderGen.OverlapDecodersDiffer`), and entries of equal mask and match give
  switches that do not compile; `DecoderGen.GeneratorsAgreeExactly` says exactly when they compile and agree.

## Model

| member | source | states |
|---|---|---|
| SelfModification.RunMatchesInterpreter | src/hart/hart.cc:91-122 | for every table in which zero is not an instruction, every cache size (InfCache, NoCache or LRUCache) and every start state whose run never stores to a word live under that cache: `run` completes in a state if and only if single stepping completes in that state (pc, registers, CSRs, bytes, mapped pages, event log, instruction count) |
| SelfModification.RunThrowsAlike | src/hart/hart.cc:99-122 | under the same condition: when `run` throws in a state, single stepping throws the same error in that state, or reaches that state, where createBB throws decoding ahead, and throws as well later |
| SelfModification.InterpreterThrowsAlike | src/hart/hart.cc:91-122 | under the same condition: when single stepping throws, `run` completes in no state |
| SelfModification.AnyTwoPoliciesAgree | src/hart/hart.cc:66-72 | where the condition holds for two cache sizes, both are in the same state after the same number of turns, or have thrown the same error in the same state, or are stuck in the same createBB; so the event trace and the count do not depend on the policy |
| SelfModification.SimOnlyStores | src/executor/executor.cc:70-74 | a step of the simulator can change what decodes at a word only by an SW to that word; mapping a page next to it does no harm |
| SelfModification.StoreElsewhere | include/memory/memory.hh:177-191 | a word store leaves every other aligned word alone, except that a word on a page it maps now reads as zero |
| SelfModification.KeepsLiveIsClean | src/hart/hart.cc:91-114 | if no store hits a word that the running block executes or a cached block holds, then each such word keeps its instruction, or keeps being none, while the block runs, for every block of the run |
| SelfModification.NeverRewritesIsWellBehaved | src/hart/hart.cc:66-72 | a program that stores to no word executed by an earlier block or the running one meets the condition for every policy and size |
| SelfModification.NoCacheWatchesRunningBlock | src/hart/hart.cc:27-35 | without a cache the live words are exactly those the running block executes, and nothing is remembered |
| SelfModification.ApartNeverRewrites | src/hart/hart.cc:91-114 | a program that executes only words of some set and never stores into that set never rewrites its code |
| Examples.RewritingIsVisible | src/hart/hart.cc:91-122 | the condition is needed: SW, ADD and ECALL in which the SW overwrites the ADD of its own block; `run` completes under every cache, single stepping does not, and the condition fails for every size |
| BlockRun.RunIsInterpreter | src/hart/hart.cc:116-122 | for any decoder and instruction semantics with the legal shape and from any coherent cache: completing in blocks and completing in single steps are equivalent, with the same final state |
| BlockRun.InterpreterToBlocks | src/hart/hart.cc:116-122 | a stepped run of n steps that completes is matched by at most n turns ending in the same state |
| BlockRun.BlocksToInterpreter | src/hart/hart.cc:116-122 | the state after any number of turns is one the interpreter reaches |
| BlockRun.BlocksThrow | src/hart/hart.cc:99-101 | when running blocks throws in a state, the interpreter throws the same error in that state, or reaches it, where createBB throws decoding ahead; and the interpreter throws in either case |
| BlockRun.InterpreterThrows | src/hart/hart.cc:116-122 | when stepping throws, running blocks does not complete |
| BlockRun.PolicyIndependence | src/hart/hart.cc:116-122 | two runs from any two coherent caches agree turn by turn, errors included |
| BlockRun.BlockIsSteps | include/executor/executor.hh:40-56 | executing a block of n instructions at its own address is n interpreter steps while the code keeps its meaning: same outcome and same state, exception or not |
| BlockRun.InstructionStartsAt | include/executor/executor.hh:30-56 | inside any block of decoded instructions instruction i starts with pc = entry + 4i mod 2^32, no branch pending and the run not complete, so only the last one can complete it; whatever is stored |
| BlockRun.TurnIsSteps | src/hart/hart.cc:119-122 | one turn does the block's steps, from whatever coherent cache |
| BlockRun.RunTurn | src/hart/hart.cc:119-122 | and leaves a cache whose every block is still the one createBB would build |
| BlockRun.EndlessNeverCompletes | src/hart/hart.cc:97-108 | where createBB never returns, single stepping never completes |
| BlockRun.RunStaysSafe | include/executor/executor.hh:30-61 | `run` from any cache of decoded blocks, stale ones included, on any program and after any number of turns: no branch pending, x0 zero, no register index out of range, and instrCount advanced by the number of instructions finished mod 2^64; the cache still holds only decoded straight code |
| BlockRun.SimRunStaysSafe | src/hart/hart.cc:116-122 | the same for the simulator with every table, start state and cache the constructor creates, self-modifying programs included |
| BasicBlock.BuildStops | src/hart/hart.cc:91-114 | createBB returns or throws if and only if a word that is not a plain instruction occurs within 2^30 words from the entry (mod 2^32), and it stops at the first such word |
| BasicBlock.BlockUnique | src/hart/hart.cc:97-108 | the straight run up to and including its first branch is unique, so a cached block that still decodes alike is the one createBB builds |
| BasicBlock.DecodingNext | src/hart/hart.cc:97-108 | one round of the loop finishes the block, throws, or comes closer to the first stop |
| Examples.CreateBBNeverReturns | src/hart/hart.cc:97-108 | a table and a memory on which createBB never returns, from any aligned entry |
| Interpreter.SimCpuIsLegal | src/decoder/decoder.py:91-101 | for every table, by what the callbacks write: an instruction outside the branch list falls through to pc + 4 and does not complete, the branch flag is down again after each instruction, x0 reads zero, the counter counts finished instructions, and an instruction that throws changes only the log |
| Interpreter.RunInvariant | include/executor/executor.hh:30-38 | single stepping, every run of any length and however it ends: no branch pending, x0 zero, no register index out of range, and the counter advanced by the number of instructions executed mod 2^64 |
| Machine.NonBranchFallsThrough | src/decoder/decoder.py:91-101 | no callback of a mnemonic outside the decoder's branch list diverts control or completes; the callbacks are dispatched without the list |
| Machine.BranchListIsExact | src/decoder/decoder.py:91-101 | a mnemonic is in the decoder's branch list if and only if its callback raises the branch flag or completes from some state |
| Machine.CallbackEffect | src/executor/executor.cc:44-237 | what no callback touches: pc, x0, the counter; the flag and npc stay unless the decoder's list names the mnemonic, `complete` unless it is ECALL, memory unless it is SW; a callback that throws changes nothing and is never an index out of range |
| Machine.DecodeAtIsSafe | src/hart/hart.cc:98-101 | a fetched and decoded instruction has register indices below 32, a CSR index below 4096, and the branch flag of its callback |
| Effects.StepEffects | src/hart/hart.cc:98-101 | one step from the bytes at pc: it throws exactly when they are misaligned, on an unmapped page, or match no entry but the unknown one; otherwise the instruction that the first matching entry describes is executed |
| Effects.JumpEffects | include/executor/executor.hh:30-38 | JAL goes to (pc + imm) mod 2^32, JALR to (rs1 + imm) mod 2^32 rounded down to even; rd, if not x0, gets (pc + 4) mod 2^32, and nothing else changes but log and counter |
| Effects.BranchEffects | src/executor/executor.cc:164-191 | for each of the six mnemonics, comparison written out: (pc + imm) mod 2^32 when it holds, (pc + 4) mod 2^32 otherwise, and nothing else changes but log and counter |
| Effects.LoadEffects | src/executor/executor.cc:64-68 | LW throws exactly for a misaligned address or an unmapped page; otherwise rd, if not x0, gets the four little-endian bytes at (rs1 + imm) mod 2^32 and nothing else changes |
| Effects.StoreEffects | src/executor/executor.cc:70-74 | SW throws exactly for a misaligned address; otherwise the four bytes at (rs1 + imm) mod 2^32 are those of rs2 and read back as rs2, their page is mapped, every other byte, page, register and CSR stays |
| Effects.RegisterEffects | src/executor/executor.cc:44-162 | the value in rd, by what it means: sums, differences and products modulo 2^32, quotients, AND, OR and XOR bit by bit, comparisons of unsigned and signed values, shifts as multiplication and as division rounding down; exactly which operands and callbacks throw; nothing else changes |
| Effects.MeaningIsUnique | src/executor/executor.cc:44-162 | at most one word has that meaning |
| Effects.CSREffects | src/executor/executor.cc:197-237 | rd gets the CSR as it was; the new CSR bit by bit from the old one and rs1, or the index of rs1; every other CSR stays |
| Effects.EcallEffects | src/executor/executor.cc:90 | ECALL completes the run, moves on by four and changes nothing else |
| Hart.Simulate | tools/simulator/main.cc:83-85 | from the segments, through the objects, to the end: loading fails as the first store that throws; otherwise, with any cache and for every program that does not rewrite code live under it, the hart that completes is in the complete state of the interpreter, and the hart that throws has thrown as the interpreter does, or decoding ahead of a state the interpreter reaches |
| Hart.Hart.Create | src/hart/hart.cc:66-89 | loading and wiring: pc at the entry, all registers and CSRs zero, no flag raised, the count at one, the loaded memory, an empty cache; or the error of the first store that throws |
| Hart.Hart.constructor | src/hart/hart.cc:66-75 | the object parts: fresh state, executor and cache, showing the initial machine |
| Hart.Hart.Run | src/hart/hart.cc:116-122 | the loop over the objects ends with the result, state and cache contents of the block-run function |
| Hart.Hart.OneTurn | src/hart/hart.cc:119-122 | one turn on the objects is one turn of the specification, cache contents included |
| Hart.Hart.FindBlock | src/hart/hart.cc:117-120 | looking a block up changes no architectural state, and the cache as its specification says |
| Caches.BlockSource.CreateBB | src/hart/hart.cc:91-114 | the decoding loop returns the straight run up to the first branch or throws the error found first; memory contents stay |
| Caches.BlockSource.FetchDecode | src/hart/hart.cc:98-101 | load a word through the TLB and decode it: the instruction that the flat memory and the table prescribe, or the fault |
| Caches.NoCache.LookupUpdate | src/hart/hart.cc:27-35 | always what slowGetData answers |
| Caches.InfCache.LookupUpdate | src/hart/hart.cc:13-25 | the stored block on a hit, with memory and TLB untouched; on a miss the new block, remembered unless fetching throws |
| Caches.LRUCache.LookupUpdate | src/hart/hart.cc:49-63 | distinct keys, a hash that mirrors the linked list, length at most size, all kept in every case; the answer and the new list are those of the list specification; a hit leaves memory and TLB untouched; when slowGetData throws the evicted block stays evicted |
| Caches.LRUCache.PopBack | src/hart/hart.cc:53-56 | eviction drops the last block from the list and its key from the hash, and is never asked of an empty list |
| Caches.LRUCache.EmplaceFront | src/hart/hart.cc:57-58 | a new node in front, indexed under its key |
| Caches.LRUCache.Splice | src/hart/hart.cc:59-60 | the node moves to the front, all other nodes keep their order, and every hash entry stays right |
| Caches.BlockList.Unlink | src/hart/hart.cc:53-60 | pointer surgery on the doubly linked list removes exactly that node |
| Caches.BlockList.PushFront | src/hart/hart.cc:57-60 | pointer surgery puts the node in front |
| Caches.BlockList.Splice | src/hart/hart.cc:59-60 | removal and reinsertion of one node, also at either end |
| Caches.NewCache | src/hart/hart.cc:66-72 | a negative size creates the unbounded cache, zero none, a positive size an LRU cache of that size; each empty |
| Caches.BBCache.LookupUpdate | include/hart/hart.hh:20-25 | the virtual call: whichever implementation it is, the answer and the new contents are the specification's |
| BlockCache.LookupAnswers | src/hart/hart.cc:13-63 | a hit answers with a held block, a miss with the fetched one, and nothing else can enter the cache |
| BlockCache.LruRuns | src/hart/hart.cc:49-63 | after any lookups from empty: keys as in the replacement theory, distinct, at most size, every block what slowGetData answers, and slowGetData called exactly on the theory's misses |
| BlockCache.InfRuns | src/hart/hart.cc:17-24 | the same for InfCache: it holds exactly the keys ever fetched, and slowGetData is called on its misses |
| BlockCache.FaithfulLookup | src/hart/hart.cc:49-63 | as long as slowGetData's answers do not change, every lookup returns slowGetData(key) |
| LruTheory.LruHoldsMostRecent | src/hart/hart.cc:49-63 | after any successful lookups the list is the first size keys of the recency list |
| LruTheory.RecencyIsByLastUse | src/hart/hart.cc:49-63 | the recency list holds exactly the used keys, each once, by decreasing last use |
| LruTheory.StackInclusion | src/hart/hart.cc:49-63 | for n <= m the size-n list is a prefix of the size-m list after any lookups, failing ones included, so a larger cache never misses more |
| LruTheory.InfIsBest | src/hart/hart.cc:13-25 | no size misses less than InfCache |
| LruTheory.InfMissesOncePerKey | src/hart/hart.cc:13-25 | on every lookup sequence InfCache misses exactly once for each distinct key that can be fetched, and at each lookup that throws |
| LruTheory.LruIsCompetitive | src/hart/hart.cc:49-63 | against any policy holding at most h <= k blocks and always the requested one: (k - h + 1) times the misses of size k is at most k times that policy's loads, on every sequence of successful lookups, both starting empty |
| LruTheory.LruIsCompetitiveDespiteFailures | src/hart/hart.cc:49-63 | on every sequence, throwing lookups included and counted once on both sides: (k - h) times the other misses of size k is at most (k - 1) times the loads of any policy with h < k blocks on the successful lookups |
| LruTheory.FailuresCostOneLine | src/hart/hart.cc:53-57 | whatever lookups throw, the list of size k starts with that of size k - 1 on the successful lookups alone, and misses at most as often besides the throws |
| LruTheory.LruAtMostKTimes | src/hart/hart.cc:49-63 | with h = k: at most k times as many calls of slowGetData as any such policy, on every sequence of successful lookups |
| LruTheory.LruIsAPolicy | src/hart/hart.cc:49-63 | the LRU cache is itself a policy of its size in that sense, with as many loads as misses |
| LruTheory.StepKeepsShape | src/hart/hart.cc:47-63 | one lookup keeps the keys distinct and at most size of them, whether the fetch succeeds or throws |
| FlatMemory.LoadAfterRun | include/memory/memory.hh:154-220 | after any sequence of byte, half and word accesses: a load is rejected exactly when misaligned, faults exactly when no successful store touched its page, and otherwise its bytes are the last ones stored, little-endian, zero if never written |
| FlatMemory.TlbInvisible | include/memory/memory.hh:154-220 | whatever has been translated before, loads and stores answer and act as on the flat memory |
| FlatMemory.RunAccounting | include/memory/memory.hh:205-214 | over any run: hits + misses = requests, loads + stores = requests + misaligned rejections |
| FlatMemory.CountersExactly | src/memory/memory.cc:28-42 | from the operations alone, over any run: a hit for each aligned access whose TLB slot was last used for its page, a miss for every other aligned one, a load or store for each access, also the rejected and faulting ones |
| FlatMemory.StoreThenLoad | include/memory/memory.hh:205-214 | what a store of any width writes, a load of that width reads back |
| FlatMemory.FlatHistory | include/memory/memory.hh:176-191 | after any run every byte is the last one stored there, and the mapped pages are those a successful store touched |
| PagedMemory.Memory.LoadEntity | include/memory/memory.hh:205-210 | the paged memory with its TLB answers, translates and counts as the model, and changes no contents |
| PagedMemory.Memory.StoreEntity | include/memory/memory.hh:212-214 | the paged memory stores, maps and counts as the model; other pages and bytes stay |
| PagedMemory.Memory.WriteEntity | include/memory/memory.hh:171-173 | a store through the byte pointer patches one word of one live page |
| PagedMemory.PhysMemory.GetEntity | include/memory/memory.hh:154-174 | alignment check, TLB, page table: the live page and offset of the address, or the error, and the TLB invariant kept |
| PagedMemory.PhysMemory.PageTableLookup | include/memory/memory.hh:176-191 | finds the page; only a store creates one, empty and not shared with any other |
| PagedMemory.LookupIsHit | src/memory/memory.cc:28-42 | an access hits if and only if the latest translation with its index was for the same page, and a hit yields the live page of that tag |
| PagedMemory.SlotsAfterMiss | src/memory/memory.cc:44-48 | refilling a slot keeps every valid entry aligned, at its own index and pointing to the live page |
| PagedMemory.TLB.Lookup | src/memory/memory.cc:28-42 | answers the slot's page exactly on a valid tag match, and counts one request and one hit or miss |
| PagedMemory.TLB.Update | src/memory/memory.cc:44-48 | overwrites one slot with the tag and page |
| PagedMemory.TagIsPageBase | src/memory/memory.cc:36 | masking an address yields the base of its page |
| PagedMemory.SlotOf | src/memory/memory.cc:23-26 | the slot number is the page number mod 1024 |
| PagedMemory.IndexPt | include/memory/memory.hh:79-86 | the page-table index is the page number |
| PagedMemory.PatchEffect | include/memory/memory.hh:171-173 | writing bytes inside a stored word changes those bytes only |
| PagedMemory.PeekIsCompose | include/memory/memory.hh:171-173 | reading bytes inside a stored word is the little-endian composition of the page's bytes |
| PagedMemory.StoreKeepsAgreement | include/memory/memory.hh:212-214 | patching one word keeps all pages in agreement with the flat memory |
| Loader.LoadAllBytes | src/hart/hart.cc:77-86 | segments on word boundaries whose addresses and counter do not wrap load without error; every byte is that of the last segment covering it (file bytes, then zeros to the memory size rounded up to a word), all others unchanged |
| Loader.SegmentBytes | src/hart/hart.cc:78-85 | the same for one segment |
| Loader.SegmentWords | src/hart/hart.cc:78-80 | every word of the file loads back from its place |
| Loader.CoversExactly | src/hart/hart.cc:82-85 | the addresses written are those of the words that begin inside the file or the memory size |
| Loader.LoadAllPages | src/hart/hart.cc:77-86 | after loading such segments the mapped pages are those mapped before and exactly those on which some segment covers an address, so which later fetches and loads fault |
| Loader.LoadSegmentFails | src/hart/hart.cc:78-85 | loading throws if and only if a file word or a zero word falls on a misaligned address |
| Loader.FillEndsExactly | src/hart/hart.cc:82-85 | the zero-fill loop, wrap-around included, ends from any memory if and only if its 32-bit counter can reach the memory size or its first store throws; when it ends it leaves the prescribed fill |
| Loader.FillOfAlmostEverything | src/hart/hart.cc:82-85 | a valid segment for which it never ends |
| Loader.CounterStops | src/hart/hart.cc:82-84 | the loop test becomes false in some round if and only if the 32-bit counter cannot jump over the gap below 2^32 |
| Loader.LoadableExactly | src/hart/hart.cc:77-86 | the precondition of the loading methods: it holds if and only if loading stops, by a throwing store or the end of its fill, at every segment it comes to; later segments do not matter |
| Loader.StoreRangeBytes | include/memory/memory.hh:196-203 | a range of words lands byte by byte |
| Loader.StoreRange | include/memory/memory.hh:196-203 | the loop over the words leaves the memory, or the error, that the range function prescribes |
| Loader.ZeroFill | src/hart/hart.cc:82-85 | the counting loop fills the right number of words, or throws on the first misaligned one |
| Loader.LoadSegments | src/hart/hart.cc:77-86 | all segments in order, stopping at the first error; asked only that loading stops |
| DecoderGen.GeneratorsAgree | src/decoder/decoder.py:196-292 | for every table with pairwise disjoint patterns, and every table where first masks lead, the emitted decoders return the same instruction for every word, the one the table prescribes; the switches when no two entries share mask and match, which is when they compile, and the maps when there are no such twins or the patterns are disjoint, so that it does not matter which of two equal keys is kept |
| DecoderGen.GeneratorsAgreeExactly | src/decoder/decoder.py:196-292 | for every table with distinct names: the emitted switches compile and decode every word as the ifs do if and only if no two entries share mask and match and first masks lead; without such twins the emitted maps decode every word as the ifs do if and only if first masks lead |
| DecoderGen.GroupingPreservesMeaning | src/decoder/decoder.py:215-223 | regrouping by mask keeps the answer on every word if and only if the mask of the first matching entry is the first of the matching masks to appear |
| DecoderGen.GenIfs | src/decoder/decoder.py:196-212 | fails if and only if some field is unrecognized; the emitted chain answers the first match |
| DecoderGen.GenSwitches | src/decoder/decoder.py:226-245 | the emitted switches answer the first match of the regrouped table; their labels are distinct if and only if no two entries share mask and match |
| DecoderGen.GenMaps | src/decoder/decoder.py:248-292 | fails if and only if some field is unrecognized; the emitted hash maps answer the first match of the regrouped table, whichever of two equal keys a map keeps, when no two entries share mask and match or the patterns are disjoint |
| DecoderGen.GenByMaskDict | src/decoder/decoder.py:215-223 | each entry is in the group of its mask, in table order, groups in order of first appearance, nothing lost |
| DecoderGen.GenFillInst | src/decoder/decoder.py:141-193 | for any slice dictionary: which error is raised and exactly when; the emitted code compiles if and only if a signed immediate stays below bit 32, and then fills the described instruction |
| DecoderGen.AssertionAdmits32 | src/decoder/decoder.py:186-191 | a signed field list that passes the assertion and whose sign extension does not compile |
| DecoderGen.OverlapCanDisagree | src/decoder/decoder.py:196-292 | three overlapping entries and a word that matches the last two, where regrouping picks another entry |
| DecoderGen.OverlapDecodersDiffer | src/decoder/decoder.py:196-292 | on every such table the ifs decode the word to the second entry, and the emitted switches and maps to something else, although the switches compile |
| DecoderGen.OverlapIsChecked | src/decoder/decoder.py:208 | two patterns overlap if and only if each is satisfiable and they agree where both masks look |
| DecoderTable.DecodedIsSafe | src/decoder/decoder.py:103-110 | whatever the table, decoding yields in-range indices, the callback and name of the first matching entry, and the right branch flag |
| DecoderTable.DecodedFields | src/decoder/decoder.py:103-110 | for every entry and word, positions written down apart from the table: rd, rs1, rs2, rs3, rm and csr are the bits at 7, 15, 20, 27, 12 and 20 if the entry lists the field, and zero if not |
| DecoderTable.DecodedImmediate | src/decoder/decoder.py:112-138 | for every entry with any immediate fields in any order: bit i of the immediate is set exactly when some field brings a set bit there, by a list of sources apart from the table; above the topmost bit reached it copies that one, unless zimm is among the fields |
| DecoderTable.NoImmediate | src/decoder/decoder.py:157-191 | an entry without immediate fields has immediate zero |
| DecoderTable.DecodedShamt | src/decoder/decoder.py:137 | shamtw is sign-extended from its five bits, so the immediate is the shift amount again modulo 32 |
| DecoderTable.FormatRoundTrip | src/decoder/decoder.py:112-138 | formats I, S, B, U and J of the RISC-V Unprivileged ISA manual (20191213), section 2.3: encode then decode returns every value of the format, decode then encode returns the word |
| DecoderTable.FormatIsManual | src/decoder/decoder.py:112-138 | the field table against the manual's formats (section 2.3), written down apart from it: bit i of the decoded immediate is the instruction bit the manual names, bit 31 above the format's reach, and zero below its base |
| DecoderTable.ZimmRoundTrip | src/decoder/decoder.py:124 | both round trips for the unsigned field zimm |
| DecoderTable.FormatLayout | src/decoder/decoder.py:112-138 | the slices of each format have disjoint sources and tile its bits |
| Immediates.DecodeUndoesEncode | src/decoder/decoder.py:157-191 | for every slice list with disjoint sources tiling base..top: the emitted OR/shift code plus sign extension returns every signed value scattered into any word, and max_from is top |
| Immediates.DecodeUndoesEncodeUnsigned | src/decoder/decoder.py:157-191 | the same without sign extension, for unsigned layouts |
| Immediates.EncodeUndoesDecode | src/decoder/decoder.py:157-191 | scattering the decoded immediate of a word back, extended or not, changes nothing in the word |
| Immediates.GatherBit | src/decoder/decoder.py:177-180 | bit i of the gathered immediate is set if and only if some slice carries a set bit there |
| Immediates.ScatterBit | src/decoder/decoder.py:62-77 | a source bit holds what its slice carries, every other bit of the word is untouched |
| Immediates.TakeSliceBit | src/decoder/decoder.py:80-88 | bit i of one `getBits << shift` term |
| Bits.GetBitsNoShiftBit | include/common/common.hh:72-82 | the mask computation keeps exactly the bits up to high |
| Bits.GetBitsBit | include/common/common.hh:92-95 | bit i of the result is bit low + i of the word, nothing above high |
| Bits.GetBitsIsDivMod | include/common/common.hh:92-95 | the mask and shift computation equals a quotient and remainder, on 32 and 64 bits |
| Bits.SetBitBit | include/common/common.hh:105-113 | one bit is set or cleared, every other bit stays |
| Bits.SignExtendKeepsValue | include/common/common.hh:144-158 | for all sizes the two's-complement value is kept and nothing is set above the new size |
| Bits.SignExtendIsEncoding | include/common/common.hh:144-158 | zero, XOR and subtract give the new-size encoding of the old-size value |
| State.TimersCount | include/common/state.hh:52-74 | after any updateTimers calls from any halves: INSTRET advanced by their number and CYCLE by the sum of the throughputs, mod 2^64; no other CSR changed |
| State.CSRegFile.UpdateTimers | include/common/state.hh:52-74 | the in-place update of the two register pairs is that function |
| State.CSRegFile.AddToPair | include/common/state.hh:55-69 | join, add and split carry exactly between the halves |
| State.JoinIsSum | include/common/state.hh:55-58 | shift and OR of two halves is lower + 2^32 * upper |
| State.SplitIsDivMod | include/common/state.hh:60-65 | the two getBits calls are the remainder and the quotient by 2^32 |
| State.RegFile.Set | include/common/state.hh:27-37 | x0 is never written, another register changes alone |
| State.State.Load | src/executor/executor.cc:64-68 | a load through the paged memory gives the flat memory's answer and changes nothing visible |
| State.State.Store | src/executor/executor.cc:70-74 | a store changes the visible bytes and log as the flat memory says, nothing on an error |
| Executor.Executor.ExecuteBlock | include/executor/executor.hh:40-56 | the loop over a block leaves the outcome and state of the specification, log and counter included, stopping at the first exception |
| Executor.Executor.ExecuteInst | include/executor/executor.hh:30-38 | callback, then pc from npc or pc + 4, and the flag cleared, on the mutable state; `Effects.JumpEffects` and `Effects.BranchEffects` say where that leads |
| Executor.Executor.Call | src/executor/executor.cc:44-237 | every callback writes the state its specification says, which `Effects` reads off in plain terms; ECALL completes |
| Executor.Executor.ExecuteLoad | src/executor/executor.cc:64-68 | LW through the paged memory leaves the state of the specification, or its error; `Effects.LoadEffects` says which |
| Executor.Executor.ExecuteStore | src/executor/executor.cc:70-74 | SW through the paged memory leaves the state of the specification, or its error; `Effects.StoreEffects` says which |
| Executor.Executor.ExecuteJump | src/executor/executor.cc:76-88 | JAL and JALR set exactly rd, npc and the branch flag |
| Executor.Executor.ExecuteBranch | src/executor/executor.cc:34-42 | a conditional branch sets npc and the flag exactly when its condition holds, which `Effects.BranchEffects` writes out |
| Executor.Executor.ExecuteCSR | src/executor/executor.cc:197-237 | old CSR value to rd, new value to the CSR; `Effects.CSREffects` says which bits |
| Opcodes.LuiShiftsTwice | src/executor/executor.cc:121-123 | decoder and callback together: a word of the U format decodes to its upper bits in place; LUI leaves that immediate times 4096, mod 2^32, which is the immediate if and only if it is zero |
| Opcodes.AuipcShiftsTwice | src/executor/executor.cc:125-127 | AUIPC leaves pc plus the immediate times 4096, mod 2^32, which is pc plus the immediate if and only if that is zero |
| Opcodes.UpperImmediateDepartures | src/executor/executor.cc:121-127 | the word 4096, on which both fail |
| Opcodes.DivAgreesExactly | src/executor/executor.cc:56-62 | DIV leaves the manual's signed quotient if and only if the divisor is not zero and: both operands are nonnegative, or the dividend is nonnegative and the signed quotient zero, or the dividend is negative and the divisor one or equal to it |
| Opcodes.DivDepartures | src/executor/executor.cc:56-62 | -1 divided by 2, and a zero divisor, on which DIV fails |
| Opcodes.CsrImmediateIsIgnored | src/executor/executor.cc:218-237 | decoder and callback together: when the entry has no rs1 field, CSRRWI writes zero and CSRRSI and CSRRCI change nothing, whatever zimm is |
| Opcodes.CsrImmediateAgreesExactly | src/executor/executor.cc:218-237 | so they leave the manual's value if and only if zimm is zero (CSRRWI), every bit of zimm is set in the CSR (CSRRSI), or none is (CSRRCI) |
| Opcodes.CsrImmediateDepartures | src/executor/executor.cc:218-237 | words and CSR values on which the three fail |
| Opcodes.CsrrcAgreesOnEqual | src/executor/executor.cc:211-216 | CSRRC leaves `csr & ~rs1` if and only if the two operands are equal |
| Opcodes.CsrrcDeparture | src/executor/executor.cc:211-216 | operands on which it fails |
| Opcodes.BltAgreesOnSameSign | src/executor/executor.cc:172-174 | BLT decides like a signed comparison if and only if both operands have the same sign |
| Opcodes.BltDepartures | src/executor/executor.cc:172-174 | a negative and a nonnegative operand, on which it fails |
| Opcodes.BltuAgreesOnEqual | src/executor/executor.cc:176-178 | BLTU decides like an unsigned comparison if and only if the operands are equal |
| Opcodes.BltuDepartures | src/executor/executor.cc:176-178 | operands on which it fails |
| Opcodes.ShiftsAgreeBelow32 | src/executor/executor.cc:147-162 | SLL, SRL and SRA shift by the masked amount if and only if the amount is below 32 |
| Opcodes.ShiftDepartures | src/executor/executor.cc:147-162 | the amount 32, on which all three fail |
| Opcodes.ArithmeticShift | src/executor/executor.cc:157-162 | SRA divides the signed value by a power of two, rounding down |
| Opcodes.SubUndoesAdd | src/executor/executor.cc:44-50 | ADD is congruent to the sum mod 2^32, and SUB of the same operand restores the register, wrap-around included |
| Opcodes.XorTwice | src/executor/executor.cc:193-195 | XOR sets exactly the bits where the operands differ, and twice with the same operand restores the register |
| Opcodes.ShlIsTimes | src/executor/executor.cc:129-133 | a 32-bit left shift is multiplication by a power of two, wrapped |

## Left out

- ELF parsing and validation (src/elfloader/elfloader.cc): segments are given as address, words, file size and memory size.
- Command line, timers, log formatting and the printed hit rate; of the log, the NUM, register, memory and PC events are kept as a ghost sequence.
- tools/cosim.py: it compares the last values seen in two logs, which does not decide whether the logs are equal.
- The callbacks that only throw "Not implemented yet" (src/executor/executor.cc:239-561): one shared `NotImplemented` outcome.
- `TLB::tlbFlush` (src/memory/memory.cc:52): never called.
- YAML loading, text emission, enum and callback-map generation: the emitted code is a syntax tree and the tables are quantified over. The order of the entries is kept; that their names differ is a hypothesis where it is needed.
- Conformance of every opcode to the manual: the callbacks are modelled as written; `Effects` says what they do, and `Opcodes` where that departs.
- The throughput numbers of include/common/counters.hh: any natural number per call. `updateTimers` is commented out in the block loop (include/executor/executor.hh:54), so it is modelled by itself.
- The wrap-around of the `std::size_t` access statistics: they are unbounded here; `instrCount` does wrap at 2^64.
- Element access with `at`: an index out of range is one error, raised before the instruction does anything, and is proved unreachable for decoded instructions.
- Hart.Hart.Run: is stated for runs that end, within some ghost number of turns, because every Dafny method has to terminate; runs that never complete are covered by the theorems over all numbers of turns.
- Caches.BlockSource.CreateBB: is stated for entries where createBB returns or throws; `BasicBlock.BuildStops` says which entries those are.
- Loader.ZeroFill: is stated for segments whose loop ends; `Loader.FillEndsExactly` says which those are.
- Hart.Simulate: is stated for segments whose loading stops, which `Loader.LoadableExactly` describes, and for runs that end, for the same reason as `Hart.Hart.Run`.
- The reference returned by `lookupUpdate` is a value here, so that a block could be evicted while it is executed is not modelled; the original executes a block to its end before the next lookup.
- The cast of the 64-bit ELF sizes to 32 bits (src/hart/hart.cc:82-83): sizes are given as 32-bit words.
