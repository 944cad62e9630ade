# Reconvergence, queues, admission, execution and enumeration of a GPU simulator overlay

A Dafny model of the algorithms inside the GPGPU-Sim overlay of the WASP
design: the analysis that gives every PTX branch its reconvergence point, the
register-file and shared-memory queues between warps, the admission of thread
blocks to a core, the functional execution of a block with barriers, and the
enumeration and arbitration loops around them. Check it with
`dafny verify dfyconfig.toml`.

## Parts

- Reconvergence. `FlowGraph` is the theory of paths, blockers (nodes on every
  path) and the data-flow equations over sets. `PtxProgram` says what a PTX
  instruction list means: where control can go next. `InstructionMemory`,
  `BasicBlocks`, `ControlFlow`, `FirstEntry` and `Dominance` are the value-level
  facts and the set algorithms; `FunctionInfo` holds the two classes whose methods follow the
  program step by step: `Function` (one PTX function) and `Context` (the tables
  all functions share).
- Queues. `AsyncFifo` is the promise: a FIFO filled out of order. `RingQueue` is
  the ring buffer and its refinement of that FIFO. `WarpQueue` is what a warp's
  queue load and queue move do with it, `QueueRuns` carries whole runs out on a
  ring, and `QueueTable` is the table of queues.
  The register-file queue and the shared-memory queue are the same algorithm
  written twice (`wasp-rfq.cc` and `wasp-smem-queue.cc`, the same lines up to
  line 150, the table two lines earlier in the second); both are this one model.
- Admission. `Occupancy` has the closed formulas and the first-fit search,
  `ShaderCore` the class that admits and releases blocks of any mix of kernels.
- Execution. `CtaExecution` runs the warps of one block with barrier flags.
- Enumeration and arbitration. `Enumeration` and `Dispatch`.
- `Witnesses` holds the concrete programs mentioned below.

## What the proofs turned up

- Block creation never examines the first entry of the instruction list. The
  blocks are a proper partition exactly when that entry is neither a label
  followed by a label nor a branch or return followed by code
  (`BasicBlocks.LayoutExactly`). In the second case the blocks are those of the
  list with its first entry replaced by an instruction that just goes on
  (`FirstEntry.SeenLayout`), and nothing behind that entry suffers: every
  reconvergence point is right, except that a branch in the first entry, directly
  followed by code, is answered with "no divergence", which is wrong exactly when
  it can lead out (`FunctionInfo.Function.AllRightExactly`).
  `Witnesses.LeadingBranchIsMissed` is such a function. One that opens with a
  guarded return is answered right everywhere.
- The assertion at the end of `find_idominators` holds exactly when no
  instruction continues at the first one (`FunctionInfo.Function.FindIdominators`
  with `ControlFlow.EntryPredecessors`), so a function whose first block is a
  loop header stops the analysis; `Witnesses.TopLoopFails` is one.
- The assertions of `find_ipostdominators` fail exactly when one block alone (of
  the list as the scans see it) cannot reach the exit and the others do not stand
  in one post-dominance line (`FunctionInfo.Function.FindIpostdominators`,
  `ControlFlow.PostdominatorsFoundAgrees`); `Witnesses.SpinFails` is one such
  function. With two or more such blocks they hold, and a branch in one of them
  is answered with the place where the lowest other one begins
  (`ControlFlow.FallbackAgrees`, `FunctionInfo.Function.AnswerIsUnique`).
- `set_pending_responses` accepts a token whose entry has been consumed but whose
  slot has not been reserved again (`RingQueue.OutlivedToken`), and the queue is
  then no longer a ring of that shape (`RingQueue.StaleUpdateBreaksRing`; the
  method keeps the invariant exactly when the token is live). The queue's own
  caller, issuing a load, always passes a live token (`WarpQueue.IssueLoad`).
- A consumer warp behind twice the number of producers takes from a queue that
  no producer fills; with the default split that happens for every odd number of
  warps from 3 on (`QueueTable.AllServedExactly`, `QueueTable.FifthWarpStarves`).
- The hardware-thread search can return a window that crosses the configured
  thread count, or make the bit test throw, when kernels of different block
  sizes share a core; `ShaderCore.CrossingCore` and `ShaderCore.ThrowingCore` are
  cores on which that happens. When exactly: `Occupancy.WindowBelowLimit`,
  `Occupancy.ThrowsExactly`. With blocks of one size neither happens
  (`ShaderCore.ThreadCountSuffices`).
- Under the sub-core rule the collector arbitration can pass over a ready
  collector for ever. It is fair exactly when each scheduler has one collector
  (`Dispatch.FairIffStepsByOne`), whether or not the collectors of the unit are
  split evenly. With fewer collectors than schedulers in the unit it divides by
  zero (`Dispatch.DispatchUnit.FindReady`); the assertion in `shader.cc` lines
  5126 to 5129 is about the collectors of all units together and does not
  prevent that.

## Reading the model

- A PTX function is a list of labels and instructions; an instruction is named by
  its position, and the position past the end stands for "returned". Pointers to
  instructions are positions, and a null pointer is -1 where the program can test
  for it.
- PCs, sequence numbers, counters and products of dimensions are natural numbers
  without wrap-around; the sentinels -2 and -1 are integers. Payload words are
  64-bit.
- A fixed array, a bit set or a table that the program updates in place is an
  array or a field the methods update. The fields of `basic_block_t` are one
  sequence per field, indexed by block.
- Assertions of the program are either proved where they stand, or, where they
  can fail, are the Boolean result of the method.

## Model

| member | source | states |
|---|---|---|
| `FlowGraph.BlockersFormAChain` | 01_gpgpusim_design/gpgpusim_overlay/src/cuda-sim/ptx_ir.cc:765-798 | of two blocks on every path from h to the exit, one is on every path from the other: why erasing leaves at most one |
| `FlowGraph.BlockersAntisymmetric` | 01_gpgpusim_design/gpgpusim_overlay/src/cuda-sim/ptx_ir.cc:765-798 | two distinct blocks, one of which reaches the exit, do not post-dominate each other |
| `FlowGraph.NearestIsUnique` | 01_gpgpusim_design/gpgpusim_overlay/src/cuda-sim/ptx_ir.cc:799-814 | there is one nearest strict post-dominator at most |
| `FlowGraph.FixpointIsMustPass` | 01_gpgpusim_design/gpgpusim_overlay/src/cuda-sim/ptx_ir.cc:746-762 | a fixpoint of the equations that stayed above the solution holds exactly the nodes on every path to the root |
| `FlowGraph.StepShrinks` | 01_gpgpusim_design/gpgpusim_overlay/src/cuda-sim/ptx_ir.cc:746-762 | a changing step keeps the sets descending and makes the sum of their sizes smaller: the iteration ends on every graph |
| `FlowGraph.ThinnedIsNearest` | 01_gpgpusim_design/gpgpusim_overlay/src/cuda-sim/ptx_ir.cc:774-797 | what the in-place erasure may leave, for a block that reaches the exit, is exactly its nearest strict post-dominator |
| `FlowGraph.StuckTogether` | 01_gpgpusim_design/gpgpusim_overlay/src/cuda-sim/ptx_ir.cc:774-797 | of two blocks that cannot reach the exit, each is left with a single stuck block |
| `FlowGraph.StuckByItself` | 01_gpgpusim_design/gpgpusim_overlay/src/cuda-sim/ptx_ir.cc:774-797 | for a block that alone cannot reach the exit, one element is left exactly when the others stand in one post-dominance line |
| `FlowGraph.LeftExactly` | 01_gpgpusim_design/gpgpusim_overlay/src/cuda-sim/ptx_ir.cc:774-803 | for any block but the exit, exactly when the erasure leaves one element |
| `FlowGraph.StuckLeaves` | 01_gpgpusim_design/gpgpusim_overlay/src/cuda-sim/ptx_ir.cc:774-812 | what the one element left for a block that cannot reach the exit is: the lowest other such block, or, if there is none, the one block all others stand behind |
| `FunctionInfo.Function.DominatorsForward` | 01_gpgpusim_design/gpgpusim_overlay/src/cuda-sim/ptx_ir.cc:688-726 | the dominator sets of blocks reachable from the entry are exactly the blocks on every path from the entry, and the recorded immediate dominator is the last of them before the block |
| `FlowGraph.MirrorMustPass` | 01_gpgpusim_design/gpgpusim_overlay/src/cuda-sim/ptx_ir.cc:688-726 | the backward theory gives the forward one: dominators are the post-dominators of the mirrored graph |
| `InstructionMemory.ImageHolds` | 01_gpgpusim_design/gpgpusim_overlay/src/cuda-sim/cuda-sim.cc:309-330 | in the byte image every instruction stands at its own address |
| `InstructionMemory.ImageOnly` | 01_gpgpusim_design/gpgpusim_overlay/src/cuda-sim/cuda-sim.cc:309-330 | and every occupied byte of the image is the address of one instruction |
| `InstructionMemory.LabelResolves` | 01_gpgpusim_design/gpgpusim_overlay/src/cuda-sim/cuda-sim.cc:311-345 | the address recorded for a label is that of the next real instruction behind its last definition |
| `PtxProgram.AddrIdentifies` | 01_gpgpusim_design/gpgpusim_overlay/src/cuda-sim/cuda-sim.cc:314-328 | addresses strictly increase from instruction to instruction, so byte ranges are disjoint |
| `PtxProgram.AddrBounded` | 01_gpgpusim_design/gpgpusim_overlay/src/cuda-sim/cuda-sim.cc:286-288 | the function never needs more bytes than are allocated for it |
| `FunctionInfo.Function.PtxAssemble` | 01_gpgpusim_design/gpgpusim_overlay/src/cuda-sim/cuda-sim.cc:280-352 | afterwards memory, PCs and labels are those of the program, from the next aligned address on; it succeeds if and only if the label of every bra and callp is in the list; each of them then knows the address of the first instruction behind that label's last definition; the shared tables stay consistent and only grow; for an analysed function it changes nothing |
| `FunctionInfo.Function.LayOut` | 01_gpgpusim_design/gpgpusim_overlay/src/cuda-sim/cuda-sim.cc:287-330 | start 8-aligned, table padded and extended by exactly this function's bytes, PC map extended by exactly its instructions |
| `FunctionInfo.Context.Extends` | 01_gpgpusim_design/gpgpusim_overlay/src/cuda-sim/cuda-sim.cc:280-349 | assembling one more function keeps all tables consistent: aligned, disjoint byte ranges, table size equal to the next PC |
| `FunctionInfo.Context.SlotIsInstruction` | 01_gpgpusim_design/gpgpusim_overlay/src/cuda-sim/cuda-sim.cc:314-328 | an occupied table entry is an instruction of the recorded function, at its own PC |
| `FunctionInfo.Context.FoundAtOwnPc` | 01_gpgpusim_design/gpgpusim_overlay/src/cuda-sim/cuda-sim.cc:314-328 | every assembled instruction of every function is found at its own PC in both tables |
| `FunctionInfo.Function.FindLeaders` | 01_gpgpusim_design/gpgpusim_overlay/src/cuda-sim/ptx_ir.cc:353-391 | the first scan finds exactly the leaders: the first entry, labels behind code, code behind a control transfer |
| `FunctionInfo.Function.CreateBasicBlocks` | 01_gpgpusim_design/gpgpusim_overlay/src/cuda-sim/ptx_ir.cc:353-426 | the second scan cuts the list exactly at the leaders, and each instruction knows its block; unless two labels open the list, blocks start exactly at the first instruction, behind labels, and behind bra, ret, retp, exit and guarded call and callp, but for one of these in the first entry |
| `BasicBlocks.LayoutExactly` | 01_gpgpusim_design/gpgpusim_overlay/src/cuda-sim/ptx_ir.cc:353-426 | the blocks are a proper partition (consecutive, branches and returns only last, entries only first, no needless cut) if and only if the list starts plainly, which is a test of its first two entries |
| `BasicBlocks.LeadingBranchIsSwallowed` | 01_gpgpusim_design/gpgpusim_overlay/src/cuda-sim/ptx_ir.cc:357-360 | for a concrete list opening with a guarded branch they are not: the branch is inside block 0, and no block ends in a branch |
| `FirstEntry.SeenLayout` | 01_gpgpusim_design/gpgpusim_overlay/src/cuda-sim/ptx_ir.cc:353-426 | unless two labels open the list, the blocks are a proper partition of the list with a transfer in its first entry replaced by an instruction that goes on |
| `FirstEntry.SeenReach` | 01_gpgpusim_design/gpgpusim_overlay/src/cuda-sim/ptx_ir.cc:357-360 | behind the first entry the list and the list as seen have the same ways out |
| `FirstEntry.SeenNearest` | 01_gpgpusim_design/gpgpusim_overlay/src/cuda-sim/ptx_ir.cc:357-360 | and the same nearest point on all of them |
| `FirstEntry.SeenNearestBlock` | 01_gpgpusim_design/gpgpusim_overlay/src/cuda-sim/ptx_ir.cc:928-965 | so a block's nearest post-dominator begins with the nearest point that every way out in the list itself passes |
| `Witnesses.LeadingBranchPasses` | 01_gpgpusim_design/gpgpusim_overlay/src/cuda-sim/ptx_ir.cc:357-360 | the concrete list meets all that the analysis asks for, passes its assertions, and has its branch missed |
| `Witnesses.LeadingBranchIsMissed` | 01_gpgpusim_design/gpgpusim_overlay/src/cuda-sim/cuda-sim.cc:3087-3109 | assembled, analysed and asked on new tables, it answers no divergence for a branch that diverges and reconverges |
| `Witnesses.EarlyReturnAnswers` | 01_gpgpusim_design/gpgpusim_overlay/src/cuda-sim/ptx_ir.cc:537-552 | prepared and asked, a branch around a ret reconverges at the return mark -2, not at the label behind it |
| `BasicBlocks.ExactlyOneBlock` | 01_gpgpusim_design/gpgpusim_overlay/src/cuda-sim/ptx_ir.cc:399-426 | an instruction lies in one block only |
| `BasicBlocks.BlockStarts` | 01_gpgpusim_design/gpgpusim_overlay/src/cuda-sim/ptx_ir.cc:353-426 | wherever control can enter from elsewhere, a block starts |
| `FunctionInfo.Function.ConnectBasicBlocks` | 01_gpgpusim_design/gpgpusim_overlay/src/cuda-sim/ptx_ir.cc:522-573 | predecessors mirror successors; a block ending in ret, retp or exit is linked to the exit block, one ending in bra to its target's block, each of them to the following block exactly if guarded, and any other to the following block alone |
| `ControlFlow.CollapseIsPath` | 01_gpgpusim_design/gpgpusim_overlay/src/cuda-sim/ptx_ir.cc:522-573 | an instruction path out of a block's end becomes a block path |
| `ControlFlow.ExpandIsPath` | 01_gpgpusim_design/gpgpusim_overlay/src/cuda-sim/ptx_ir.cc:522-573 | a block path becomes an instruction path between the blocks' first instructions |
| `ControlFlow.PathsCorrespond` | 01_gpgpusim_design/gpgpusim_overlay/src/cuda-sim/ptx_ir.cc:522-573 | between any two blocks there is a block path if and only if there is an instruction path between their entries |
| `ControlFlow.ReachabilityAgrees` | 01_gpgpusim_design/gpgpusim_overlay/src/cuda-sim/ptx_ir.cc:522-573 | a block reaches the exit block if and only if its last instruction can lead out of the function |
| `ControlFlow.NearestBlockIsNearestInstruction` | 01_gpgpusim_design/gpgpusim_overlay/src/cuda-sim/ptx_ir.cc:928-965 | the nearest post-dominating block of a branch's block starts with the nearest post-dominating instruction of the branch |
| `ControlFlow.PostdominatorsFoundAgrees` | 01_gpgpusim_design/gpgpusim_overlay/src/cuda-sim/ptx_ir.cc:799-813 | the condition on blocks under which the assertions hold, read off the instruction list |
| `ControlFlow.EntryPredecessors` | 01_gpgpusim_design/gpgpusim_overlay/src/cuda-sim/ptx_ir.cc:846-866 | block 0 has a predecessor if and only if some instruction continues at the first one |
| `Dominance.Intersect` | 01_gpgpusim_design/gpgpusim_overlay/src/cuda-sim/ptx_ir.cc:664-675 | in-place intersection |
| `Dominance.IsEqual` | 01_gpgpusim_design/gpgpusim_overlay/src/cuda-sim/ptx_ir.cc:677-682 | compares sizes, then members: equality of sets |
| `Dominance.Recompute` | 01_gpgpusim_design/gpgpusim_overlay/src/cuda-sim/ptx_ir.cc:748-757 | T is one application of the data-flow equation |
| `Dominance.EraseBlocked` | 01_gpgpusim_design/gpgpusim_overlay/src/cuda-sim/ptx_ir.cc:779-797 | the erase loops leave a set in which nothing blocks anything else and from which nothing unblocked is missing |
| `FunctionInfo.Function.FindPostdominators` | 01_gpgpusim_design/gpgpusim_overlay/src/cuda-sim/ptx_ir.cc:728-763 | ends on every graph; d is in block h's set if and only if every path from h to the exit contains d |
| `FunctionInfo.Function.FindDominators` | 01_gpgpusim_design/gpgpusim_overlay/src/cuda-sim/ptx_ir.cc:688-726 | ends on every graph; each set is exactly the blocks on every path back to the entry, except that a block without predecessors, other than the entry, has an empty set |
| `FunctionInfo.Function.FindIpostdominators` | 01_gpgpusim_design/gpgpusim_overlay/src/cuda-sim/ptx_ir.cc:765-814 | its assertions hold if and only if not exactly one block is cut off from the exit, or the others stand in one line; then each block that reaches the exit records its nearest strict post-dominator, and each other block the lowest other such block, or the one all others stand behind |
| `FunctionInfo.Function.FindIdominators` | 01_gpgpusim_design/gpgpusim_overlay/src/cuda-sim/ptx_ir.cc:816-866 | its final assertion holds if and only if the entry block has no predecessor; each block control can reach records its nearest strict dominator |
| `FunctionInfo.Function.GetNumReconvergencePairs` | 01_gpgpusim_design/gpgpusim_overlay/src/cuda-sim/ptx_ir.cc:915-926 | counts the blocks that end in a branch, also when the count is already cached |
| `FunctionInfo.Function.GetReconvergencePairs` | 01_gpgpusim_design/gpgpusim_overlay/src/cuda-sim/ptx_ir.cc:928-973 | one pair per branch block in order: PC of the branch, PC of the first instruction of its nearest post-dominator or the return mark |
| `FunctionInfo.Function.PairReconverges` | 01_gpgpusim_design/gpgpusim_overlay/src/cuda-sim/ptx_ir.cc:928-973 | each pair names the nearest instruction every way out passes |
| `FunctionInfo.Function.ReconvergenceIsUnique` | 01_gpgpusim_design/gpgpusim_overlay/src/cuda-sim/ptx_ir.cc:928-973 | of a branch that can lead out there is one right reconvergence PC |
| `FunctionInfo.Function.Lookup` | 01_gpgpusim_design/gpgpusim_overlay/src/cuda-sim/cuda-sim.cc:3098-3108 | the target of the first pair of that source PC, with the return mark translated; no divergence when there is none |
| `FunctionInfo.Context.FindReconvergencePoints` | 01_gpgpusim_design/gpgpusim_overlay/src/cuda-sim/cuda-sim.cc:3047-3078 | the cached table is the one that would be computed |
| `FunctionInfo.Context.GetConvergePoint` | 01_gpgpusim_design/gpgpusim_overlay/src/cuda-sim/cuda-sim.cc:3087-3109 | end to end: for the PC of any instruction the answer is right, for a branch the nearest point all paths out pass, if and only if it is not a missed branch in the first entry; a transfer that opens the list is answered with no divergence, a branch that cannot lead out with the fallback; other functions' caches are untouched |
| `ControlFlow.FallbackAgrees` | 01_gpgpusim_design/gpgpusim_overlay/src/cuda-sim/ptx_ir.cc:774-812 | the fallback of a branch that cannot lead out, read off the instruction list: the first place where another block begins that cannot either, or the instruction all others that can stand behind |
| `FunctionInfo.Function.AnswerIsUnique` | 01_gpgpusim_design/gpgpusim_overlay/src/cuda-sim/cuda-sim.cc:3087-3109 | the instruction list and the addresses leave one answer only, for every instruction |
| `FunctionInfo.Function.PreDecodeAll` | 01_gpgpusim_design/gpgpusim_overlay/src/cuda-sim/ptx_ir.cc:648-655 | walking instruction memory by encoded size visits every instruction, and each gets that answer |
| `FunctionInfo.Function.AllRightExactly` | 01_gpgpusim_design/gpgpusim_overlay/src/cuda-sim/ptx_ir.cc:648-655 | the recorded PCs are all right if and only if no branch opens the list, directly followed by code, that can lead out; those behind the first entry are right in any case |
| `FunctionInfo.Function.DoPdom` | 01_gpgpusim_design/gpgpusim_overlay/src/cuda-sim/ptx_ir.cc:624-662 | unless two labels open the list: it gets through its own assertions if and only if nothing continues at the first instruction and the post-dominators are found in the list as seen; then every instruction has its answer recorded and the function stays ready to be asked; other functions' caches are untouched |
| `Witnesses.SpinFails` | 01_gpgpusim_design/gpgpusim_overlay/src/cuda-sim/ptx_ir.cc:799-813 | a function with a choice and one spinning block fails the post-dominator assertions, and nothing else |
| `Witnesses.TopLoopFails` | 01_gpgpusim_design/gpgpusim_overlay/src/cuda-sim/ptx_ir.cc:846-866 | a function that is one loop always returns, and fails the dominator assertion |
| `FunctionInfo.Function.CanBeAsked` | 01_gpgpusim_design/gpgpusim_overlay/src/cuda-sim/cuda-sim.cc:3087-3096 | a ready function's instructions are all found, so the lookup may be called |
| `FunctionInfo.Function.Prepare` | 01_gpgpusim_design/gpgpusim_overlay/src/cuda-sim/cuda-sim.cc:2690-2698 | the same for a freshly parsed program, assembled and analysed; the shared tables stay consistent and gain exactly this function |
| `FunctionInfo.PrepareAll` | 01_gpgpusim_design/gpgpusim_overlay/src/cuda-sim/ptx_ir.cc:624-662 | any number of functions, from empty tables on: each is analysed exactly if its own program passes, and all that are stay ready |
| `AsyncFifo.Conservation` | 01_gpgpusim_design/gpgpusim_overlay/src/gpgpu-sim/wasp-rfq.cc:55-80 | in every legal run reserved = delivered + held; sequence numbers count reservations |
| `AsyncFifo.DeliveredInOrder` | 01_gpgpusim_design/gpgpusim_overlay/src/gpgpu-sim/wasp-rfq.cc:106-117 | in every legal run the k-th record out is the k-th reserved, complete, with its mask and what was last stored, or 0 |
| `QueueRuns.PlayOp` | 01_gpgpusim_design/gpgpusim_overlay/src/gpgpu-sim/wasp-rfq.cc:55-150 | each legal operation, through the token its reservation was given, is accepted by the ring and does what the abstract operation does |
| `QueueRuns.PlayRun` | 01_gpgpusim_design/gpgpusim_overlay/src/gpgpu-sim/wasp-rfq.cc:36-150 | every legal run can be carried out on a new ring; it ends as the abstract run; what is read before the k-th removal is, word by word, what was last stored for the k-th reservation; removals and what is left add up to the reservations |
| `AsyncFifo.HeadReadyMeansAnswered` | 01_gpgpusim_design/gpgpusim_overlay/src/gpgpu-sim/wasp-rfq.cc:36-39 | in every legal run the head is ready if and only if the oldest entry has no response outstanding |
| `RingQueue.SlotUse` | 01_gpgpusim_design/gpgpusim_overlay/src/gpgpu-sim/wasp-rfq.cc:55-117 | slots in use are exactly those of the newest sequence numbers, as many as the occupancy; READY means no response pending, RESERVED that some are |
| `RingQueue.AcceptedUntilReused` | 01_gpgpusim_design/gpgpusim_overlay/src/gpgpu-sim/wasp-rfq.cc:135-150 | a token passes the slot and sequence test if and only if its slot has not been reserved again |
| `RingQueue.LanesApart` | 01_gpgpusim_design/gpgpusim_overlay/src/gpgpu-sim/wasp-rfq.cc:119-133 | lane and word determine the payload index |
| `RingQueue.StoreBehindIsLost` | 01_gpgpusim_design/gpgpusim_overlay/src/gpgpu-sim/wasp-rfq.cc:119-125 | a word stored into a consumed entry is in no record |
| `RingQueue.StaleUpdateBreaksRing` | 01_gpgpusim_design/gpgpusim_overlay/src/gpgpu-sim/wasp-rfq.cc:82-87 | for a consumed slot not yet reused the update always breaks the ring invariant, though the token test passes |
| `RingQueue.OutlivedToken` | 01_gpgpusim_design/gpgpusim_overlay/src/gpgpu-sim/wasp-rfq.cc:82-87 | one reservation and its removal leave such a token |
| `RingQueue.CountsAre` | 01_gpgpusim_design/gpgpusim_overlay/src/gpgpu-sim/wasp-rfq.cc:41-53 | ready and pending counts are those of the records in the queue, and add up to the occupancy |
| `RingQueue.AsyncQueue.Configure` | 01_gpgpusim_design/gpgpusim_overlay/src/gpgpu-sim/wasp-rfq.cc:15-34 | an empty queue of that size, or no change when repeated with the same sizes |
| `RingQueue.AsyncQueue.IsHeadReady` | 01_gpgpusim_design/gpgpusim_overlay/src/gpgpu-sim/wasp-rfq.cc:36-39 | abstract head readiness |
| `RingQueue.AsyncQueue.ReserveTail` | 01_gpgpusim_design/gpgpusim_overlay/src/gpgpu-sim/wasp-rfq.cc:55-80 | the abstract reservation; the token names the new record |
| `RingQueue.AsyncQueue.SetPendingResponses` | 01_gpgpusim_design/gpgpusim_overlay/src/gpgpu-sim/wasp-rfq.cc:82-87 | the ring stays valid if and only if the token is live, and then it is the abstract step |
| `RingQueue.AsyncQueue.HasPendingResponses` | 01_gpgpusim_design/gpgpusim_overlay/src/gpgpu-sim/wasp-rfq.cc:89-92 | whether the token's record waits |
| `RingQueue.AsyncQueue.MarkResponse` | 01_gpgpusim_design/gpgpusim_overlay/src/gpgpu-sim/wasp-rfq.cc:94-104 | one response fewer for that record; reports the last one |
| `RingQueue.AsyncQueue.ConsumeHead` | 01_gpgpusim_design/gpgpusim_overlay/src/gpgpu-sim/wasp-rfq.cc:106-117 | the abstract removal of the oldest record |
| `RingQueue.AsyncQueue.SetLaneValue` | 01_gpgpusim_design/gpgpusim_overlay/src/gpgpu-sim/wasp-rfq.cc:119-125 | the abstract store; through the token of an entry already taken out it changes no record |
| `RingQueue.AsyncQueue.HeadLaneValue` | 01_gpgpusim_design/gpgpusim_overlay/src/gpgpu-sim/wasp-rfq.cc:127-133 | a word of the oldest record |
| `RingQueue.AsyncQueue.Counts` | 01_gpgpusim_design/gpgpusim_overlay/src/gpgpu-sim/wasp-rfq.cc:41-53 | both counting loops against the records, with their sum |
| `WarpQueue.LdExec` | 01_gpgpusim_design/gpgpusim_overlay/src/cuda-sim/cuda-sim.cc:2147-2171 | one lane's words go to that lane of the token's record |
| `WarpQueue.MovExec` | 01_gpgpusim_design/gpgpusim_overlay/src/cuda-sim/cuda-sim.cc:2173-2195 | one lane reads its words of the oldest record |
| `WarpQueue.IssueLoad` | 01_gpgpusim_design/gpgpusim_overlay/src/gpgpu-sim/shader.cc:623-673 | a whole queue load: reserve, all active lanes, pending count of its accesses |
| `WarpQueue.IssueMove` | 01_gpgpusim_design/gpgpusim_overlay/src/gpgpu-sim/shader.cc:623-673 | a whole queue move: all active lanes, then the entry leaves |
| `WarpQueue.KthMoveGetsKthLoad` | 01_gpgpusim_design/gpgpusim_overlay/src/cuda-sim/cuda-sim.cc:2147-2195 | in every run, with responses in any order, the k-th move receives in each active lane and word what the k-th load stored, and 0 in lanes the load did not have |
| `QueueRuns.PlayWarpRun` | 01_gpgpusim_design/gpgpusim_overlay/src/gpgpu-sim/shader.cc:623-673 | the same on a new ring: every legal run of loads, responses and moves can be carried out, and each active lane of the k-th move gets the k-th load's words, 0 where it had none |
| `QueueTable.KeyOrderIsTotal` | 01_gpgpusim_design/gpgpusim_overlay/src/gpgpu-sim/wasp-rfq.h:24-33 | the key order is a strict total order |
| `QueueTable.KeyOf` | 01_gpgpusim_design/gpgpusim_overlay/src/gpgpu-sim/shader.cc:539-560 | which queue a warp uses: none exactly if producers are not fewer than warps; a producer its own id, a consumer its place among the consumers; always stage 0 to 1 |
| `QueueTable.WarpPairing` | 01_gpgpusim_design/gpgpusim_overlay/src/gpgpu-sim/shader.cc:539-560 | two warps of a block use one queue exactly if one is a producer and the other the consumer that many places behind it |
| `QueueTable.ServedExactly` | 01_gpgpusim_design/gpgpusim_overlay/src/gpgpu-sim/shader.cc:539-560 | a consumer warp has a producer if and only if it is among the first consumers, as many as there are producers |
| `QueueTable.AllServedExactly` | 01_gpgpusim_design/gpgpusim_overlay/src/gpgpu-sim/shader.cc:539-560 | every consumer has one if and only if at least half of the warps produce; with the default split, if and only if the number of warps is even |
| `QueueTable.FifthWarpStarves` | 01_gpgpusim_design/gpgpusim_overlay/src/gpgpu-sim/shader.cc:539-560 | with five warps and the default split warp 4 takes from a queue no producer fills |
| `QueueTable.Table.GetOrCreate` | 01_gpgpusim_design/gpgpusim_overlay/src/gpgpu-sim/wasp-rfq.cc:152-159 | the queue of that key, new and configured if there was none; other queues untouched |
| `QueueTable.Table.EraseCta` | 01_gpgpusim_design/gpgpusim_overlay/src/gpgpu-sim/wasp-rfq.cc:171-179 | exactly the queues of that block go, and the table stays valid |
| `Occupancy.OneMoreIffBelowMax` | 01_gpgpusim_design/gpgpusim_overlay/src/gpgpu-sim/shader.cc:4356-4400 | with m blocks resident, one more is within all four limits if and only if m is below the closed formula |
| `Occupancy.FormulasAgree` | 01_gpgpusim_design/gpgpusim_overlay/src/cuda-sim/cuda-sim.cc:2632-2668 | the functional simulator's formula is the core's for the same kernel without its queues: never lower, and equal without queues |
| `Occupancy.FoundIsFree` | 01_gpgpusim_design/gpgpusim_overlay/src/gpgpu-sim/gpu-sim.cc:1754-1773 | a window found is aligned, free and inside the slots |
| `Occupancy.FreeWindowIsFound` | 01_gpgpusim_design/gpgpusim_overlay/src/gpgpu-sim/gpu-sim.cc:1754-1773 | a free aligned window below the limit is found, or an earlier one |
| `Occupancy.FirstFitIsLeast` | 01_gpgpusim_design/gpgpusim_overlay/src/gpgpu-sim/gpu-sim.cc:1754-1773 | the first free window below the limit is the one returned |
| `Occupancy.FoundExactly` | 01_gpgpusim_design/gpgpusim_overlay/src/gpgpu-sim/gpu-sim.cc:1754-1773 | a window is returned if and only if it is the first free one, starts below the limit and lies inside the slots |
| `Occupancy.WindowBelowLimit` | 01_gpgpusim_design/gpgpusim_overlay/src/gpgpu-sim/gpu-sim.cc:1754-1773 | the window returned lies below the thread limit if and only if some aligned window below it is free |
| `Occupancy.DividingSizeStaysBelow` | 01_gpgpusim_design/gpgpusim_overlay/src/gpgpu-sim/gpu-sim.cc:1754-1773 | a size that divides the limit never crosses it and never throws |
| `Occupancy.ThrowsExactly` | 01_gpgpusim_design/gpgpusim_overlay/src/gpgpu-sim/gpu-sim.cc:1758-1760 | the bit test throws if and only if the first unoccupied window that starts below the limit reaches past the last slot |
| `ShaderCore.CrossingCore` | 01_gpgpusim_design/gpgpusim_overlay/src/gpgpu-sim/gpu-sim.cc:1754-1787 | a core of 96 threads that issues blocks of 32 and 64: the second window crosses the limit |
| `ShaderCore.ThrowingCore` | 01_gpgpusim_design/gpgpusim_overlay/src/gpgpu-sim/gpu-sim.cc:1754-1787 | a core of 2048 threads that issues 768 and 32, releases the 768 and issues 32: asking for 768 then makes the bit test throw, although the thread count passes |
| `ShaderCore.SomeWindowFree` | 01_gpgpusim_design/gpgpusim_overlay/src/gpgpu-sim/gpu-sim.cc:1754-1773 | pigeonhole: with fewer blocks of one size than aligned windows, one window is free |
| `ShaderCore.ThreadCountSuffices` | 01_gpgpusim_design/gpgpusim_overlay/src/gpgpu-sim/gpu-sim.cc:1784-1787 | for blocks of one padded size passing the thread count implies a window, below the limit even if the size does not divide it |
| `ShaderCore.AdmissionIsBelowMax` | 01_gpgpusim_design/gpgpusim_overlay/src/gpgpu-sim/gpu-sim.cc:1775-1817 | for one kernel the whole admission test is the closed formula |
| `ShaderCore.Admit` | 01_gpgpusim_design/gpgpusim_overlay/src/gpgpu-sim/gpu-sim.cc:1803-1817 | admission keeps the books: counters are sums over resident blocks within their caps, the bitmap is the disjoint union of their windows |
| `ShaderCore.Retire` | 01_gpgpusim_design/gpgpusim_overlay/src/gpgpu-sim/gpu-sim.cc:1819-1854 | so does release |
| `ShaderCore.FixedWindowsFit` | 01_gpgpusim_design/gpgpusim_overlay/src/gpgpu-sim/gpu-sim.cc:1910-1912 | without sharing, every window of an id below the formula is below the limit, and any two are apart |
| `ShaderCore.Core.FindAvailableHwtid` | 01_gpgpusim_design/gpgpusim_overlay/src/gpgpu-sim/gpu-sim.cc:1754-1773 | the loops compute first fit, and mark exactly that window when asked to |
| `ShaderCore.Core.OccupyShaderResource1Block` | 01_gpgpusim_design/gpgpusim_overlay/src/gpgpu-sim/gpu-sim.cc:1775-1817 | the answer is the admission test, in its order; a block takes its threads rounded up to whole warps, that many times its registers rounded up to fours plus the queue's, its shared memory plus the queue's, and one of the blocks; it is admitted if and only if all of that fits and a window is found |
| `ShaderCore.Core.CanIssue1Block` | 01_gpgpusim_design/gpgpusim_overlay/src/gpgpu-sim/gpu-sim.cc:1743-1752 | yes if and only if the admission test says yes |
| `ShaderCore.Core.IssueBlock2Core` | 01_gpgpusim_design/gpgpusim_overlay/src/gpgpu-sim/gpu-sim.cc:1873-1920 | none of its assertions fails; lowest free id, first-fit window, counters, bitmap and status as stated; books kept for any mix of kernels |
| `ShaderCore.Core.ReleaseShaderResource1Block` | 01_gpgpusim_design/gpgpusim_overlay/src/gpgpu-sim/gpu-sim.cc:1819-1854 | none of its assertions fails; exactly the block's share, window and entry go back |
| `ShaderCore.Core.RegisterCtaThreadExit` | 01_gpgpusim_design/gpgpusim_overlay/src/gpgpu-sim/shader.cc:3733-3782 | the block leaves with its last thread and not before |
| `ShaderCore.Core.FillWithKernel` | 01_gpgpusim_design/gpgpusim_overlay/src/gpgpu-sim/gpu-sim.cc:1775-1817 | admitting one kernel on an empty core succeeds exactly as often as the closed formula says, then is refused; all windows below the limit |
| `CtaExecution.TurnKeeps` | 01_gpgpusim_design/gpgpusim_overlay/src/cuda-sim/cuda-sim.cc:2923-2935 | a turn keeps the invariant: a live warp has executed as many barriers as there were releases, one more if it waits; lock step so far |
| `CtaExecution.ReleaseKeeps` | 01_gpgpusim_design/gpgpusim_overlay/src/cuda-sim/cuda-sim.cc:2876-2878 | a release keeps it when every live warp waits, and leaves someone to run |
| `CtaExecution.FunctionalCore.ExecuteWarp` | 01_gpgpusim_design/gpgpusim_overlay/src/cuda-sim/cuda-sim.cc:2923-2935 | one turn, and the two accumulated answers |
| `CtaExecution.OnlyOneRun` | 01_gpgpusim_design/gpgpusim_overlay/src/cuda-sim/cuda-sim.cc:2854-2880 | the block alone decides that run: there is only one |
| `CtaExecution.FunctionalCore.RunRound` | 01_gpgpusim_design/gpgpusim_overlay/src/cuda-sim/cuda-sim.cc:2861-2866 | exactly the warps that were live and did not wait take one turn each, in the order of ids, and set their flag exactly at a barrier or memory barrier; the answers are about all warps at the end of the round; if some live warp did not wait, at least one instruction is executed |
| `CtaExecution.FunctionalCore.Execute` | 01_gpgpusim_design/gpgpusim_overlay/src/cuda-sim/cuda-sim.cc:2854-2880 | the loop ends; every warp has executed its whole trace; over the whole run no warp passed a barrier that a live warp had not reached; the run goes round by round until no warp is live, each warp that is live and does not wait taking one turn a round in the order of ids, with a release between two rounds exactly if every live warp waits |
| `Enumeration.PositionIsLinear` | 01_gpgpusim_design/gpgpusim_overlay/src/gpgpu-sim/gpu-sim.cc:843-853 | after k increments the id is the one with x + X*y + X*Y*z = k, for all ids |
| `Enumeration.RunsOutExactly` | 01_gpgpusim_design/gpgpusim_overlay/src/abstract_hardware_model.h:278-281 | the cursor is out if and only if the number of increments has reached x*y*z, and stays out |
| `Enumeration.VisitedOnce` | 01_gpgpusim_design/gpgpusim_overlay/src/abstract_hardware_model.h:274-277 | every id inside the bound is visited at exactly one step, its linear id |
| `Enumeration.EveryThreadOnce` | 01_gpgpusim_design/gpgpusim_overlay/src/cuda-sim/cuda-sim.cc:2280-2410 | in a whole launch every thread of every block is bound exactly once |
| `Enumeration.KernelInfo.SimInitThread` | 01_gpgpusim_design/gpgpusim_overlay/src/cuda-sim/cuda-sim.cc:2248-2411 | hands out waiting threads first, else a new block if it fits, else nothing |
| `Enumeration.KernelInfo.IssueThreads` | 01_gpgpusim_design/gpgpusim_overlay/src/gpgpu-sim/gpu-sim.cc:1935-1944 | hardware thread start + i gets thread i of the next block; every call binds one thread |
| `Enumeration.KernelInfo.RunKernel` | 01_gpgpusim_design/gpgpusim_overlay/src/cuda-sim/cuda-sim.cc:2721-2740 | the loop over blocks hands out each block once, in order, and ends at x*y*z |
| `Dispatch.NoneIffNoneReady` | 01_gpgpusim_design/gpgpusim_overlay/src/gpgpu-sim/shader.h:1061-1075 | NULL if and only if no division by zero happens and no collector is ready, in both modes |
| `Dispatch.ChoiceIsFirst` | 01_gpgpusim_design/gpgpusim_overlay/src/gpgpu-sim/shader.h:1067-1073 | the choice is the first ready collector going round from the start of the scan |
| `Dispatch.PickIsFirst` | 01_gpgpusim_design/gpgpusim_overlay/src/gpgpu-sim/shader.h:1064-1073 | going round from behind the last choice, or under the sub-core rule from the next scheduler's first collector, the choice is the first that is ready |
| `Dispatch.GetsCloser` | 01_gpgpusim_design/gpgpusim_overlay/src/gpgpu-sim/shader.h:1061-1075 | without the sub-core rule another choice brings the scan strictly closer to a ready collector |
| `Dispatch.ServedWithinN` | 01_gpgpusim_design/gpgpusim_overlay/src/gpgpu-sim/shader.h:1061-1075 | so a collector that stays ready is chosen within N calls |
| `Dispatch.StaysOnTheRound` | 01_gpgpusim_design/gpgpusim_overlay/src/gpgpu-sim/shader.h:1064-1073 | under the sub-core rule with all collectors ready the scan stays on a round that leaves one collector out, whether or not the shares are even |
| `Dispatch.NeverServed` | 01_gpgpusim_design/gpgpusim_overlay/src/gpgpu-sim/shader.h:1061-1075 | so that collector is never chosen, in runs of any length |
| `Dispatch.UnevenShares` | 01_gpgpusim_design/gpgpusim_overlay/src/gpgpu-sim/shader.h:1061-1075 | five collectors under two schedulers: collector 0 is the one |
| `Dispatch.FairIffStepsByOne` | 01_gpgpusim_design/gpgpusim_overlay/src/gpgpu-sim/shader.h:1061-1075 | in any unit with collectors, every one that stays ready is served within N calls if and only if there is no division by zero and the scan steps by one: no sub-core rule, or one collector per scheduler |
| `Dispatch.DispatchUnit.FindReady` | 01_gpgpusim_design/gpgpusim_overlay/src/gpgpu-sim/shader.h:1061-1075 | the same for the loop, and it remembers the choice; it divides by zero if and only if there are no schedulers, or the sub-core rule applies and there are fewer collectors than schedulers |

## Left out

- FunctionInfo.Function.DoPdom: a list that opens with two labels is not covered; its block 0 ends at a label (`BasicBlocks.TwoLabelsFirst`), which has no opcode and no place in instruction memory, so where control goes from there is not determined by the list.
- FunctionInfo.Function.Prepare: the same.
- FunctionInfo.PrepareAll: the same, for each of the functions.
- FunctionInfo.Function.PtxAssemble: a function is assembled once before it is analysed; a second call in between would lay it out again at new addresses, which the program's caller does not do.
- FunctionInfo.Function.FindIdominators: which block is recorded for a block that control cannot reach is stated only as the lowest one left; only the break search, which is not modelled, reads it.
- ShaderCore.Core.IssueBlock2Core: the non-sharing mode (`get_n_active_cta` against `max_cta`) is covered by `ShaderCore.FixedWindowsFit` only; blocks have at least one thread, as the program asserts right after binding them.
- CtaExecution.FunctionalCore.Execute: what an instruction computes and which instruction comes next are the given trace; the checkpoint exit of the loop is not modelled.
- Enumeration.KernelInfo.SimInitThread: the memories, warp records and reuse of a finished thread's slot are not modelled.
- WarpQueue.IssueLoad: the register-file side of a load and the memory access generation are the given values and the given number of accesses.
- Break instructions (`connect_break_targets`, `find_break_target`) and the repeat loop of `do_pdom` they cause; without them the loop body runs once.
- Instruction memory behind the last instruction is never read, because control is required to stay inside the function; what an uninitialised pointer there would do is not modelled.
- Sharing of one `basic_block_t` by several pointers.
- Register counts and shared-memory bytes that the queues add per block are constants of the kernel.
- The barrier set, the schedulers, co-issue and the SIMT stack of the timing model.
- Checkpoint and resume, tensor-core and texture paths, PTXPlus conversion, generic address mapping and parameter layout.
- CUDA API wrappers, the PTX loader, option registration, statistics, power, interconnect and DRAM.
- The Python performance model, configurations, reports and plots.
