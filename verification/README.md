# Verified models of a blockchain node's stateful cores

A Dafny 4.11 project that models, and proves properties of, the parts of the repository whose
correctness rests on invariants that span many calls:

- **Nested transactional slots** (`Slot*.dfy`): a stack of read/write levels over one slot vector and
  one access log. Levels commit when dropped and roll back when reset.
- **Plot layout** (`Plot*.dfy`): records are encoded in place, scattered over s-buckets, written to a
  sector, and found again by rank, select and prefix sums when reading, auditing and proving.
- **RISC-V interpreter** (`Words`, `Machine`, `Fetching`, `Stepping`, `Rv64`, `Rv64Numbers`,
  `Rv64Steps`, `Rv64Fetching`, `Rv32`, `Interpreter`): a fetcher that decodes all code up front against one
  that decodes each time, what every RV64I instruction does to registers, memory and program counter in
  numbers, and RV64I word operations against RV32I. Machine words are bit sequences.
- **Transaction pool** (`TxPool*.dfy`): three cross-indexed maps and a running total.
- **Syntax rewriting** (`Rewrite*.dfy`), **sector download** (`Download`), **piece lookup** (`CacheLookup`)
  and **disk space split** (`SpaceSplit`).

State that the source changes in place is a class, or an array that a method modifies. Each such method
is proved equal to a step function on values (`SlotModel`, `TxPoolModel`, `Machine`, ...), and the
theorems about whole runs are stated over those functions. Hashes, proofs of space, instruction
decoding, erasure coding, piece getters, cache backends and schedulers are parameters: the theorems hold
for all of them, or for all that meet a stated condition. `dafny verify dfyconfig.toml` checks everything.

## Where the code differs from its promise

Each of these has a lemma with the exact condition under which the promise holds, and a lemma with a
short run or an input on which it fails.

- `reset` of a nested level zeroes its boundary, so the next drop releases what the ancestors hold
  (`ResetThenDropSparesAncestors`: spared exactly when the boundary was zero). A second writer becomes
  possible (`NestedResetAllowsSecondWriter`, `SecondWriterFromNew`), and the level below can panic
  (`NestedResetPanics`, `PanicFromNew`).
- A slot seeded read-only is opened for writing by its first released access (`ReadOnlySeedsOpenUp`), and
  iteration over the slots avoids its unreachable arm exactly when every such slot has had an access
  released (`FinalWriteSet`, `ReadOnlyOpensFromNew`).
- Undoing a level does not undo writes that its nested levels committed (`ResetRestoresOpening`,
  `NestedCommitSurvivesFromNew`).
- The two fetchers part exactly at a jump to an even address that is outside the decoded table, which only
  the eager one refuses, or that is not aligned for the instruction set, which only the basic one refuses
  (`EagerSimulatesBasic`, `Rv64EagerSimulatesBasic`, `JumpSeparates`). An odd base address moves the
  program counter (`SetPcThenGetPc`, `OddBaseMovesThePc`).
- The wrapping and the checked memory differ on an empty slice at address zero when the memory reaches the
  end of the address space (`BoundsTestsAgree`, `EmptySliceAtZero`).
- Registering a block root again while a retained block still has transactions under it leaves these
  transactions out of reach of pruning (`BestIndexed`, `OrphansAreNeverPruned`, `OrphanFromEmpty`).
- A block that is still tracked refuses transactions once its last one was removed (`AcceptsWhileOpen`,
  `ClosedFromEmpty`).
- Post-processing of rewritten code is not the inverse of pre-processing. For one rule the exact condition
  is `Undoable` (`ReplacingBackRestores`, `TraitRestores`, `TraitIsNotRestored`). For all rules together,
  on text without stable spellings, only an unsafe trait spelled the other way round comes back different
  (`PipelineRestores`, `OrdinaryTextIsRestored`, `SwappedIsNotRestored`); a stable spelling in the input
  is lost (`PostIsNotInverse`). Two rules never fire (`WideRulesAreDead`).
- The lookup promises as many results as unique piece indices; a repeated index that is in no piece cache
  gets one per repetition (`OneResultPerUniqueIndex`, `RepeatedMissAnsweredTwice`).
- The minimum space that is reported for a farm that is too small is often not enough
  (`ReportedMinimum`, `MinimumNotEnough`).

## Model

| member | source | states |
|---|---|---|
| `Slots.Slots.constructor` | crates/execution/ab-executor-slots/src/lib.rs:118-149 | seeds become slots with an empty log, read-only seeds without an access entry; the state is consistent |
| `Slots.Slots.NewNestedRw` | crates/execution/ab-executor-slots/src/lib.rs:348-366 | opens a level at the current end of the log |
| `Slots.Slots.AddNewContract` | crates/execution/ab-executor-slots/src/lib.rs:391-406 | registers a contract once and reports whether it was new |
| `Slots.Slots.GetCode` | crates/execution/ab-executor-slots/src/lib.rs:415-461 | code lookup without tracking; refuses code that is being written |
| `Slots.Slots.UseRo` | crates/execution/ab-executor-slots/src/lib.rs:467-582 | new state and answer of a tracked read, for every slot state and for absent keys |
| `Slots.Slots.UseRoReadOnly` | crates/execution/ab-executor-slots/src/lib.rs:586-633 | answer of an untracked read |
| `Slots.Slots.UseRw` | crates/execution/ab-executor-slots/src/lib.rs:644-766 | new state and answer of a write acquisition; the access is logged before the state is looked at (what the acquirer finds: `WriterFindsContents`) |
| `Slots.Slots.WriteUsed` | crates/execution/ab-executor-slots/src/lib.rs:775-799 | only the current contents of a slot held for writing change; succeeds exactly for such slots |
| `Slots.Slots.Reset` | crates/execution/ab-executor-slots/src/lib.rs:803-838 | rolls back the level's part of the log and zeroes its boundary, or panics when the boundary is past the log |
| `Slots.Slots.Drop` | crates/execution/ab-executor-slots/src/lib.rs:274-322 | commits the level's part of the log; the outermost level also forgets temporary slots |
| `Slots.Slots.RetainLasting` | crates/execution/ab-executor-slots/src/lib.rs:314-320 | removes exactly the slots of the null contract |
| `SlotModel.Position` | crates/execution/ab-executor-slots/src/lib.rs:508-511 | first slot with the key, none exactly when absent |
| `SlotRuns.NewIsConsistent` | crates/execution/ab-executor-slots/src/lib.rs:118-149 | a new collection, with any seeds, is consistent and nested |
| `SlotRuns.SettleAt` | crates/execution/ab-executor-slots/src/lib.rs:292-311 | draining the log reaches no unreachable arm, and what it leaves at each slot |
| `SlotRuns.ConsistentStep` | crates/execution/ab-executor-slots/src/lib.rs:274-322 | every operation keeps slot states matching the log; a panic is exactly a drain from beyond its end |
| `SlotRuns.EveryRunIsConsistent` | crates/execution/ab-executor-slots/src/lib.rs:502-838 | in every run, whatever is reset, no slot has two live accesses and states follow the log; it panics exactly when some drain starts beyond the end |
| `SlotRuns.DisciplinedRunsNeverPanic` | crates/execution/ab-executor-slots/src/lib.rs:274-322 | runs that reset only levels with boundary zero never panic and keep boundaries nested |
| `SlotRuns.ResetThenDropSparesAncestors` | crates/execution/ab-executor-slots/src/lib.rs:803-838 | reset then drop leaves the ancestors' log and slots alone exactly when the boundary was zero |
| `SlotRuns.NestedResetPanics` | crates/execution/ab-executor-slots/src/lib.rs:837-838 | after a nested reset and drop the level below panics when dropped if its boundary is not zero |
| `SlotRuns.NestedResetAllowsSecondWriter` | crates/execution/ab-executor-slots/src/lib.rs:837-838 | after a nested reset and drop a held slot can be acquired for writing again |
| `SlotTheorems.PrefixRun` | crates/execution/ab-executor-slots/src/lib.rs:274-322 | over any run of deeper levels, what enclosing levels logged keeps its entries, mode, mark and fallback value |
| `SlotTheorems.WriterExcludesEveryone` | crates/execution/ab-executor-slots/src/lib.rs:676-688 | single writer: after a write acquisition no lookup of the key succeeds at any level until the acquiring level ends |
| `SlotTheorems.ReaderExcludesWriters` | crates/execution/ab-executor-slots/src/lib.rs:513-526 | many readers: a live reader refuses writers and gives every other reader the same contents |
| `SlotTheorems.UntrackedLookupsAgree` | crates/execution/ab-executor-slots/src/lib.rs:586-633 | the untracked lookup and the code lookup give the tracked lookup's answer |
| `SlotTheorems.DropIsolation` | crates/execution/ab-executor-slots/src/lib.rs:274-322 | a commit changes no visible contents, leaves what enclosing levels hold, and marks exactly the slots it held for writing |
| `SlotTheorems.OnlyCommitsChangeFallback` | crates/execution/ab-executor-slots/src/lib.rs:292-311 | over any run only a committed write changes the value and mark a slot falls back to |
| `SlotTheorems.ResetRestoresOpening` | crates/execution/ab-executor-slots/src/lib.rs:803-838 | the first reset restores marks and contents as of the opening, except where a nested level committed a write |
| `SlotHistory.ExplainedRun` | crates/execution/ab-executor-slots/src/lib.rs:193-322 | every run keeps each slot explained by its seed and by which accesses were released and committed |
| `SlotHistory.IterIsTotal` | crates/execution/ab-executor-slots/src/lib.rs:193-234 | the iterators avoid their unreachable arm exactly when all slots are original or modified |
| `SlotHistory.IterYields` | crates/execution/ab-executor-slots/src/lib.rs:193-234 | what the two iterators yield, both directions |
| `SlotHistory.FinalWriteSet` | crates/execution/ab-executor-slots/src/lib.rs:193-255 | after any completed run: surviving keys are seeds or mention a new contract, `iter_modified` yields exactly the committed keys (with which bytes: `FinalContents`), other seeds are unchanged |
| `SlotHistory.ReadOnlySeedsOpenUp` | crates/execution/ab-executor-slots/src/lib.rs:133-136 | an unheld seed is refused to writers exactly while it is read-only and no access to it was released |
| `SlotContents.FinalContents` | crates/execution/ab-executor-slots/src/lib.rs:214-234 | after any completed run `iter_modified` yields exactly the committed keys, each with what its last committed writer's buffer held at the commit |
| `SlotContents.WriterBuffer` | crates/execution/ab-executor-slots/src/lib.rs:775-799 | while a level holds a slot for writing, its buffer holds what was written last |
| `SlotContents.WriterFindsContents` | crates/execution/ab-executor-slots/src/lib.rs:664-766 | a successful write acquisition shows every key as before, the acquired slot included; a created slot is empty |
| `SlotContents.ReaderFindsContents` | crates/execution/ab-executor-slots/src/lib.rs:502-582 | the same for a tracked read, which returns what its key shows |
| `SlotContents.UnheldRead` | crates/execution/ab-executor-slots/src/lib.rs:502-582 | a read of an unheld slot succeeds with its contents; an absent key succeeds exactly when it may be created |
| `SlotContents.UnheldWrite` | crates/execution/ab-executor-slots/src/lib.rs:664-766 | a write acquisition of an unheld slot succeeds unless it is read-only; an absent key exactly when it may be created |
| `SlotContents.RegisteredKeysOpen` | crates/execution/ab-executor-slots/src/lib.rs:391-406 | registering a contract opens every absent key that mentions it and changes nothing else |
| `SlotContents.RegisteredOnce` | crates/execution/ab-executor-slots/src/lib.rs:391-406 | no run registers a contract twice or forgets one |
| `SlotContents.CommittedContents` | crates/execution/ab-executor-slots/src/lib.rs:274-322 | over any run of the acquiring level, a committed acquisition leaves what was written last, or without a write the bytes visible before it |
| `SlotWitnesses.SecondWriterFromNew` | crates/execution/ab-executor-slots/src/lib.rs:837-838 | a run from a new collection in which a live level acquires a slot for writing twice |
| `SlotWitnesses.PanicFromNew` | crates/execution/ab-executor-slots/src/lib.rs:837-838 | a run from a new collection in which a drop panics |
| `SlotWitnesses.NestedCommitSurvivesFromNew` | crates/execution/ab-executor-slots/src/lib.rs:292-311 | a run from a new collection in which a nested commit survives the reset around it |
| `SlotWitnesses.ReadOnlyOpensFromNew` | crates/execution/ab-executor-slots/src/lib.rs:133-136 | a read-only seed refuses a writer and iteration, and accepts both after one released read |
| `PlotLayout.LocInRange` | crates/farmer/ab-farmer-components/src/sector.rs:347-369 | a used chunk lies within its s-bucket and the chunk region |
| `PlotLayout.LocInjective` | crates/farmer/ab-farmer-components/src/sector.rs:347-369 | two used chunks share a location exactly when they are the same |
| `PlotLayout.LocOnto` | crates/farmer/ab-farmer-components/src/sector.rs:347-369 | the locations fill a contiguous range from zero |
| `PlotLayout.PieceOffsetsSelect` | crates/farmer/ab-farmer-components/src/sector.rs:412-433 | entry k of an s-bucket's piece list is the piece of rank k |
| `PlotLayout.SequentialEqualsParallel` | crates/farmer/ab-farmer-components/src/sector.rs:347-407 | the sequential iterator equals the parallel one plus the s-bucket offsets, exactly when no record has more proofs than chunks |
| `PlotLayout.CountedBothWays` | crates/farmer/ab-farmer-components/src/sector.rs:324-342 | counting chunks by s-bucket and by record agrees |
| `PlotLayout.SBucketSizes` | crates/farmer/ab-farmer-components/src/sector.rs:324-342 | sizes are the counts per s-bucket and fit 16 bits |
| `PlotLayout.SBucketOffsets` | crates/farmer/ab-farmer-components/src/sector.rs:68-88 | offsets are the prefix sums and no 16-bit sizes overflow 32 bits |
| `PlotLayout.OffsetsFromSizes` | crates/farmer/ab-farmer-components/src/sector.rs:68-88 | prefix sums of the stored sizes are the plot-wide s-bucket offsets |
| `PlotEncoding.EncodeRecord` | crates/farmer/ab-farmer-components/src/plotting.rs:591-632 | compaction in place: every byte at the rank of a used s-bucket is that of the unmodified record or parity exclusive-or that of the proof hash; nothing beyond the last rank changes |
| `PlotEncoding.EncodeRecordForGpu` | crates/farmer/ab-proof-of-space-gpu/src/host.rs:304-332 | keeps exactly the first NUM_CHUNKS found bits, clears the others, and leaves the same masked bytes as the CPU encoder |
| `PlotEncoding.EncodersAgree` | crates/farmer/ab-proof-of-space-gpu/src/host.rs:304-332 | the specification determines the record, so both encoders agree |
| `PlotEncoding.HashesTell` | crates/farmer/ab-farmer-components/src/plotting.rs:591-632 | different hashes of a used s-bucket give different encoded chunks |
| `PlotEncoding.TrimmedRow` | crates/farmer/ab-proof-of-space-gpu/src/host.rs:304-332 | kept proofs before an s-bucket are the found ones, at most NUM_CHUNKS |
| `PlotEncoding.ProofIndexIsRank` | crates/shared/ab-proof-of-space/src/lib.rs:80-104 | byte-wise bit counting finds a proof for exactly the set bits, at the rank of the s-bucket |
| `PlotEncoding.XorTwice` | crates/farmer/ab-farmer-components/src/reading.rs:100-204 | decoding a chunk undoes its encoding |
| `PlotSector.MapRoundTrip` | crates/farmer/ab-farmer-components/src/sector.rs:252-311 | an encoded contents map decodes to itself |
| `PlotSector.DecodesExactly` | crates/farmer/ab-farmer-components/src/sector.rs:252-290 | bytes decode to a map exactly when they are its encoding; a wrong length and a wrong checksum are told apart |
| `PlotSector.WriteSector` | crates/farmer/ab-farmer-components/src/plotting.rs:507-589 | the written sector holds the map, every used chunk at its location, and all metadata; wrong output sizes are refused unchanged |
| `PlotReading.EncodeSector` | crates/farmer/ab-farmer-components/src/plotting.rs:460-504 | every record is encoded and the s-bucket sizes are counted |
| `PlotReading.ReadRecordChunks` | crates/farmer/ab-farmer-components/src/reading.rs:100-204 | the loop computes the decoded chunk of every plotted s-bucket, nothing when a read fails |
| `PlotReading.PlottedChunk` | crates/farmer/ab-farmer-components/src/reading.rs:100-204 | reading looks at a used chunk's location, whose bytes decode to the extended record |
| `PlotReading.ChunksRoundTrip` | crates/farmer/ab-farmer-components/src/reading.rs:100-204 | reading a plotted piece gives the source or parity chunk at each set s-bucket and nothing elsewhere |
| `PlotReading.RecoverPlotted` | crates/farmer/ab-farmer-components/src/reading.rs:268-305 | enough chunks and a recovering code give the source record |
| `PlotReading.PieceRoundTrip` | crates/farmer/ab-farmer-components/src/reading.rs:344-413 | the whole round trip: encode, write, read returns the original record and header |
| `PlotReading.ReadPieceIsChecked` | crates/farmer/ab-farmer-components/src/reading.rs:344-413 | whatever the sector holds, a piece that is returned matches the stored header and the stored checksum of header and record |
| `PlotReading.PlottedMetadata` | crates/farmer/ab-farmer-components/src/plotting.rs:748-762 | a plotted sector stores each piece's own header and the checksum of header and record |
| `PlotReading.RecordBytesAt` | crates/farmer/ab-farmer-components/src/reading.rs:344-413 | the checksummed bytes of a record are those of its chunks in order |
| `PlotReading.MapWinningChunks` | crates/farmer/ab-farmer-components/src/auditing.rs:264-296 | exactly the winning chunks, best first; nothing exactly when there are none |
| `PlotReading.AuditInBounds` | crates/farmer/ab-farmer-components/src/auditing.rs:223-261 | an audited s-bucket lies inside the chunk region |
| `PlotReading.AuditedLocation` | crates/farmer/ab-farmer-components/src/auditing.rs:236-252 | chunk k of the audited s-bucket is at the location of the piece of rank k |
| `PlotReading.AuditedChunkIsProvable` | crates/farmer/ab-farmer-components/src/proving.rs:383-399 | any chunk the audit picks belongs to a piece whose chunk and proof are present when proving, so no expectation fails |
| `Machine.BoundsTestsAgree` | crates/execution/ab-riscv-benchmarks/src/host_utils.rs:123-235 | wrapping and checked bounds tests agree on all non-empty accesses exactly when the memory ends within the address space, and on empty slices too exactly when it ends before it |
| `Machine.EmptySliceAtZero` | crates/execution/ab-riscv-benchmarks/src/host_utils.rs:163-175 | an empty slice at address zero separates the tests otherwise |
| `Machine.AccessSame` | crates/execution/ab-riscv-interpreter/src/basic.rs:222-349 | loads and stores through either test give the same result |
| `Stepping.LoadGives` | crates/execution/ab-riscv-interpreter/src/basic.rs:222-349 | a load gives the bytes at its addresses |
| `Stepping.StoreWrites` | crates/execution/ab-riscv-interpreter/src/basic.rs:222-349 | a store succeeds exactly in bounds, writes its bytes and changes no other |
| `Stepping.LoadAfterStore` | crates/execution/ab-riscv-interpreter/src/basic.rs:222-349 | a load after a store gives what was stored, and elsewhere what was there |
| `Stepping.FetchGives` | crates/execution/ab-riscv-interpreter/src/basic.rs:436-480 | what is fetched: four bytes, or two and zeros at the end of the memory unless they announce a longer instruction |
| `Stepping.NoInstruction` | crates/execution/ab-riscv-interpreter/src/basic.rs:436-480 | a failed fetch and an undecodable word end the run with their own errors and change nothing |
| `Stepping.AdvanceStep` | crates/execution/ab-riscv-interpreter/src/basic.rs:141-200 | for any instruction set: the result is in its register, all other registers and register zero read as before, the memory is the instruction's, the program counter is behind it |
| `Stepping.JumpStep` | crates/execution/ab-riscv-interpreter/src/basic.rs:141-200 | a jump writes its link and goes on at the target, stops at the return address, or is refused when not aligned |
| `Stepping.FaultStep` | crates/execution/ab-riscv-interpreter/src/basic.rs:141-200 | a fault ends the run and changes no register |
| `Fetching.BuildTable` | crates/execution/ab-riscv-benchmarks/src/host_utils.rs:460-545 | entry i decodes the zero-padded word at byte 2i, or is the unimplemented instruction, for every half-word |
| `Fetching.SetPcThenGetPc` | crates/execution/ab-riscv-benchmarks/src/host_utils.rs:375-417 | setting then getting the program counter is the identity on accepted addresses exactly when the base is even |
| `Fetching.OddBaseMovesThePc` | crates/execution/ab-riscv-benchmarks/src/host_utils.rs:375-417 | an accepted address that an odd base changes |
| `Fetching.StepSame` | crates/execution/ab-riscv-interpreter/src/basic.rs:416-480 | one step agrees in both machines exactly unless it jumps to an even address that is not aligned, refused only by the basic one, or outside the table, refused only by the eager one |
| `Fetching.EagerSimulatesBasic` | crates/execution/ab-riscv-benchmarks/src/host_utils.rs:370-445 | for any instruction set and alignment, both machines agree on registers, memory, program counter and errors after every step exactly when no step takes such a jump |
| `Fetching.HalfWordAlignedRunsAgree` | crates/execution/ab-riscv-benchmarks/src/host_utils.rs:370-445 | with two-byte alignment they agree as long as the basic machine stays inside the code, and no unchecked fetch leaves the table |
| `Fetching.FetchesStayInside` | crates/execution/ab-riscv-benchmarks/src/host_utils.rs:425-445 | no fetch of any run is out of bounds exactly when every entry that can fall through has its successor in the table |
| `Fetching.EagerSimulatesBasicOver` | crates/execution/ab-riscv-benchmarks/src/host_utils.rs:123-235 | the same simulation with a different memory implementation under each machine |
| `Rv64.ExecuteSame` | crates/execution/ab-riscv-interpreter/src/rv64.rs:60-419 | every RV64I instruction executes alike over both memories |
| `Rv64Fetching.Rv64EagerSimulatesBasic` | crates/execution/ab-riscv-interpreter/src/rv64.rs:60-419 | whole RV64I runs, with four-byte alignment: eager decoding with wrapping tests agrees with decoding each time with checked tests exactly when every jump is to the return address, an odd address, or a multiple of four inside the table |
| `Rv64Fetching.JumpSeparates` | crates/execution/ab-riscv-interpreter/src/basic.rs:426-429 | `jalr` to an unaligned or an outside address separates the machines, in opposite ways |
| `Rv64Numbers.AluIsNumeric` | crates/execution/ab-riscv-interpreter/src/rv64.rs:61-137 | every register operation gives the number that the instruction set prescribes, word forms and shifts included; the bitwise ones bit by bit |
| `Rv64Numbers.ImmediateIsNumeric` | crates/execution/ab-riscv-interpreter/src/rv64.rs:138-178 | the same for immediate operations |
| `Rv64Numbers.ShiftIsNumeric` | crates/execution/ab-riscv-interpreter/src/rv64.rs:162-178 | shifts by constants multiply, divide, and divide rounding down |
| `Rv64Numbers.ShiftWIsNumeric` | crates/execution/ab-riscv-interpreter/src/rv64.rs:183-199 | the same on the low 32 bits, sign-extended |
| `Rv64Numbers.BranchIsNumeric` | crates/execution/ab-riscv-interpreter/src/rv64.rs:283-373 | every branch compares the numbers, signed or unsigned |
| `Rv64Numbers.LoadIsNumeric` | crates/execution/ab-riscv-interpreter/src/rv64.rs:201-236 | loads give the little-endian number of their one, two, four or eight bytes, signed or unsigned |
| `Rv64Numbers.StoreIsNumeric` | crates/execution/ab-riscv-interpreter/src/rv64.rs:246-282 | stores give the little-endian bytes of the register modulo their width |
| `Rv64Numbers.RelativeTarget` | crates/execution/ab-riscv-interpreter/src/rv64.rs:283-395 | targets of branches and `jal`, and `auipc`, as numbers |
| `Rv64Numbers.RegisterTarget` | crates/execution/ab-riscv-interpreter/src/rv64.rs:237-245 | target of `jalr` as a number, lowest bit cleared |
| `Rv64Numbers.DoubleWordRoundTrip` | crates/execution/ab-riscv-interpreter/src/rv64.rs:216-281 | a stored double word is loaded back |
| `Rv64Steps.RegisterStep` | crates/execution/ab-riscv-interpreter/src/rv64.rs:61-137 | after a register operation its register holds the prescribed number and nothing else changed, program counter four on |
| `Rv64Steps.ImmediateStep` | crates/execution/ab-riscv-interpreter/src/rv64.rs:138-178 | the same for immediate operations |
| `Rv64Steps.ShiftStep` | crates/execution/ab-riscv-interpreter/src/rv64.rs:162-178 | the same for shifts by constants |
| `Rv64Steps.ShiftWStep` | crates/execution/ab-riscv-interpreter/src/rv64.rs:183-199 | the same for their word forms |
| `Rv64Steps.UpperStep` | crates/execution/ab-riscv-interpreter/src/rv64.rs:374-385 | the same for `lui` and `auipc` |
| `Rv64Steps.SystemStep` | crates/execution/ab-riscv-interpreter/src/rv64.rs:396-419 | fences and breakpoints only move on; refused calls and the placeholder fail at their own address |
| `Rv64Steps.LoadStep` | crates/execution/ab-riscv-interpreter/src/rv64.rs:201-236 | a load extends the bytes at its address into its register, or faults exactly when they are not all in the memory |
| `Rv64Steps.StoreStep` | crates/execution/ab-riscv-interpreter/src/rv64.rs:246-282 | a store puts the register's bytes at its address and changes no other byte and no register, or faults exactly when they do not fit |
| `Rv64Steps.JalStep` | crates/execution/ab-riscv-interpreter/src/rv64.rs:386-395 | `jal` links the address behind it and jumps relative to itself |
| `Rv64Steps.JalrStep` | crates/execution/ab-riscv-interpreter/src/rv64.rs:237-245 | `jalr` links the address behind it and jumps through the register's old value, lowest bit cleared |
| `Rv64Steps.BranchStep` | crates/execution/ab-riscv-interpreter/src/rv64.rs:283-373 | a branch jumps relative to itself exactly when its comparison of the numbers holds, and changes no register |
| `Words.AddWraps` | crates/execution/ab-riscv-interpreter/src/rv64.rs:61-64 | addition is that of the numbers modulo the width |
| `Words.SubWraps` | crates/execution/ab-riscv-interpreter/src/rv64.rs:65-68 | subtraction is that of the numbers modulo the width |
| `Words.ComparisonsAreNumeric` | crates/execution/ab-riscv-interpreter/src/rv64.rs:61-199 | signed and unsigned comparisons are those of the numbers |
| `Words.ShlIsMultiplication` | crates/execution/ab-riscv-interpreter/src/rv64.rs:69-73 | shifting left multiplies modulo the width |
| `Words.ShrIsDivision` | crates/execution/ab-riscv-interpreter/src/rv64.rs:86-90 | shifting right divides |
| `Words.SraIsFloorDivision` | crates/execution/ab-riscv-interpreter/src/rv64.rs:91-95 | the arithmetic shift divides the signed number, rounding down |
| `Words.FromNatIsModular` | crates/execution/ab-riscv-interpreter/src/rv64.rs:378-385 | the bits of a number give it back modulo the width |
| `Words.SextKeepsTheNumber` | crates/execution/ab-riscv-interpreter/src/rv64.rs:105-137 | sign extension keeps the signed number |
| `Rv32.AluRCommutes` | crates/execution/ab-riscv-interpreter/src/rv32.rs:61-140 | each register operation on sign-extended operands is the sign extension of the 32-bit one |
| `Rv32.AluICommutes` | crates/execution/ab-riscv-interpreter/src/rv32.rs:61-140 | the same for immediate operations |
| `Rv32.AluShiftCommutes` | crates/execution/ab-riscv-interpreter/src/rv32.rs:61-140 | the same for shifts by constants |
| `Rv32.BranchCommutes` | crates/execution/ab-riscv-interpreter/src/rv32.rs:205-296 | every branch gives the same verdict on sign-extended operands |
| `Rv32.TranslationPreservesMeaning` | crates/execution/ab-riscv-interpreter/src/rv32.rs:61-140 | after any translated program every register is the sign extension of its counterpart and every branch agrees |
| `Interpreter.BasicInterpreter.Step` | crates/execution/ab-riscv-interpreter/src/basic.rs:141-200 | one turn of the loop is one step of the basic machine, whose meaning is `AdvanceStep`, `JumpStep`, `FaultStep` and `NoInstruction` |
| `Interpreter.BasicInterpreter.Execute` | crates/execution/ab-riscv-interpreter/src/basic.rs:141-200 | the loop is the run of that many steps, ending where the machine ends |
| `Interpreter.BasicInterpreter.SetPc` | crates/execution/ab-riscv-interpreter/src/basic.rs:416-434 | the program counter moves only to multiples of the alignment of the instruction set |
| `Interpreter.EagerFetcher.constructor` | crates/execution/ab-riscv-benchmarks/src/host_utils.rs:460-545 | builds the table for the code; the program counter is kept exactly when it is whole half-words from the base, for any base |
| `Interpreter.EagerFetcher.SetPc` | crates/execution/ab-riscv-benchmarks/src/host_utils.rs:382-417 | the offset moves only when the jump is accepted |
| `Interpreter.EagerFetcher.FetchInstruction` | crates/execution/ab-riscv-benchmarks/src/host_utils.rs:425-445 | returns the entry at the program counter, which advances by the instruction's size |
| `TxPool.TransactionPool.constructor` | crates/execution/ab-transaction-pool/src/lib.rs:91-105 | an empty pool is sound |
| `TxPool.TransactionPool.Add` | crates/execution/ab-transaction-pool/src/lib.rs:108-142 | the new pool and the four errors in their order of precedence |
| `TxPool.TransactionPool.MarkAuthorized` | crates/execution/ab-transaction-pool/src/lib.rs:147-177 | pushes to the front of the history, dropping the oldest entry of a full one; false for unknown transactions (over whole runs: `HistoryIsItsMarks`) |
| `TxPool.TransactionPool.RemoveSingleTx` | crates/execution/ab-transaction-pool/src/lib.rs:201-213 | removes the transaction from both indexes, and its root with its last transaction, without underflow |
| `TxPool.TransactionPool.Remove` | crates/execution/ab-transaction-pool/src/lib.rs:192-199 | the removals one after another |
| `TxPool.TransactionPool.AddBestBlock` | crates/execution/ab-transaction-pool/src/lib.rs:222-259 | whatever order the blocks are visited in, the pruned, cleaned and registered pool |
| `TxPool.PopReplaced` | crates/execution/ab-transaction-pool/src/lib.rs:242-250 | the loop drops the leading entries at or above the block number |
| `TxPoolProofs.StepSound` | crates/execution/ab-transaction-pool/src/lib.rs:108-259 | every operation keeps the total equal to the sum of stored sizes, both limits, and every listed hash stored under its root |
| `TxPoolProofs.Run` | crates/execution/ab-transaction-pool/src/lib.rs:108-259 | every run of operations from a sound pool is sound |
| `TxPoolProofs.BestIndexed` | crates/execution/ab-transaction-pool/src/lib.rs:222-259 | the indexes agree after a new best block exactly when it does not replace a root that still has transactions |
| `TxPoolProofs.RunIndexed` | crates/execution/ab-transaction-pool/src/lib.rs:108-259 | in every run without such a replacement a hash is stored if and only if it is in the set of its own root |
| `TxPoolProofs.OrphansAreNeverPruned` | crates/execution/ab-transaction-pool/src/lib.rs:222-259 | a transaction that lost its list survives every operation but its own removal |
| `TxPoolProofs.BestPrunes` | crates/execution/ab-transaction-pool/src/lib.rs:222-259 | afterwards every transaction is anchored to a retained block within the pruning depth, and at most one block more is tracked |
| `TxPoolProofs.BestKeeps` | crates/execution/ab-transaction-pool/src/lib.rs:222-259 | a transaction stays exactly when every block with its root is within the pruning depth and below the new block |
| `TxPoolProofs.DropFrontExact` | crates/execution/ab-transaction-pool/src/lib.rs:242-250 | cleaning removes all entries at or above the block exactly when they were all at the front, and keeps a suffix |
| `TxPoolProofs.StepHistories` | crates/execution/ab-transaction-pool/src/lib.rs:147-177 | with authorizations at the best block histories stay newest first and bounded, and a new best block leaves nothing at or above it |
| `TxPoolProofs.RunHistories` | crates/execution/ab-transaction-pool/src/lib.rs:147-259 | the same over whole runs |
| `TxPoolHistories.HistoryIsItsMarks` | crates/execution/ab-transaction-pool/src/lib.rs:147-177 | over any run without a new best block the history of a stored transaction is the list of its own authorizations, newest first, before what it had at the start, cut to the depth |
| `TxPoolHistories.MarkExactly` | crates/execution/ab-transaction-pool/src/lib.rs:147-177 | an authorization goes to the front, only what exceeds the depth falls off the back, and no other transaction and no `tx` changes |
| `TxPoolHistories.BestTakesFront` | crates/execution/ab-transaction-pool/src/lib.rs:242-250 | a new best block takes exactly the leading entries at or above it off each kept history, and leaves all else of the transaction |
| `TxPoolHistories.RunBounded` | crates/execution/ab-transaction-pool/src/lib.rs:147-177 | no run, whatever it authorizes, makes a history longer than the depth |
| `TxPoolHistories.AddAnswers` | crates/execution/ab-transaction-pool/src/lib.rs:108-142 | exactly when each of the four errors is given |
| `TxPoolHistories.AddStores` | crates/execution/ab-transaction-pool/src/lib.rs:108-142 | an accepted transaction is stored without authorizations under its block; a refused one changes nothing |
| `TxPoolWitnesses.AcceptsWhileOpen` | crates/execution/ab-transaction-pool/src/lib.rs:201-213 | in every run without replacements a block accepts transactions exactly from its registration until it is pruned or its last transaction is removed |
| `TxPoolWitnesses.OrphanFromEmpty` | crates/execution/ab-transaction-pool/src/lib.rs:222-259 | three operations from an empty pool that orphan a transaction |
| `TxPoolWitnesses.ClosedFromEmpty` | crates/execution/ab-transaction-pool/src/lib.rs:201-213 | three operations from an empty pool after which the best block is refused |
| `Rewrite.ReplaceInplace` | crates/execution/ab-riscv-macros-common/src/code_utils.rs:54-73 | the loop terminates and leaves the left-to-right replacement of the text, of the same length |
| `Rewrite.LeftmostNonOverlapping` | crates/execution/ab-riscv-macros-common/src/code_utils.rs:61-72 | an occurrence is replaced exactly when no replaced occurrence before it overlaps it |
| `Rewrite.ReplacedAt` | crates/execution/ab-riscv-macros-common/src/code_utils.rs:61-72 | a covered character comes from the replacement text |
| `Rewrite.UnchangedAt` | crates/execution/ab-riscv-macros-common/src/code_utils.rs:61-72 | an uncovered character is unchanged |
| `RewriteInverse.ReplacingBackRestores` | crates/execution/ab-riscv-macros-common/src/code_utils.rs:44-52 | for a target that repeats at most its first character as its last, replacing back restores the input exactly when no occurrence of the target was left behind and none is completed by a replacement |
| `RewriteInverse.BorderlessRestores` | crates/execution/ab-riscv-macros-common/src/code_utils.rs:44-52 | without a border: exactly when the replacement touches every occurrence of the target |
| `RewriteRules.TraitRestores` | crates/execution/ab-riscv-macros-common/src/code_utils.rs:4-5 | the exact condition for the trait rule, whose target has a border |
| `RewriteRules.UnsafeRestores` | crates/execution/ab-riscv-macros-common/src/code_utils.rs:6-7 | the exact condition for the unsafe rule |
| `RewriteRules.BracketsRestore` | crates/execution/ab-riscv-macros-common/src/code_utils.rs:23-24 | that theorem for the bracket rule |
| `RewriteRules.ImplRestores` | crates/execution/ab-riscv-macros-common/src/code_utils.rs:8-9 | that theorem for the impl rule |
| `RewriteInverse.ReplacementEliminates` | crates/execution/ab-riscv-macros-common/src/code_utils.rs:61-72 | a pattern that cannot overlap its replacement does not occur in the result |
| `RewriteRules.WideRulesAreDead` | crates/execution/ab-riscv-macros-common/src/code_utils.rs:33-42 | the wide variants of the impl and bracket rules never change anything |
| `RewriteOverlay.OverlayCommutes` | crates/execution/ab-riscv-macros-common/src/code_utils.rs:30-52 | a replacement commutes with replacements of patterns that can never overlap it |
| `RewritePipeline.ImplsOverlay` | crates/execution/ab-riscv-macros-common/src/code_utils.rs:33-39 | the impl rules and the rules that revert them write one overlay: function qualifiers come back at once |
| `RewritePipeline.PipelineRestores` | crates/execution/ab-riscv-macros-common/src/code_utils.rs:30-52 | with all rules active, on text without stable spellings, post-processing undoes pre-processing exactly when the unsafe rule would be undone after the trait rule |
| `RewritePipeline.OrdinaryTextIsRestored` | crates/execution/ab-riscv-macros-common/src/code_utils.rs:30-52 | such text is always restored if it has no unsafe trait spelled the other way round |
| `RewritePipeline.SwappedIsNotRestored` | crates/execution/ab-riscv-macros-common/src/code_utils.rs:30-52 | that spelling, which has no stable spelling in it, is not restored |
| `RewritePipeline.PostIsNotInverse` | crates/execution/ab-riscv-macros-common/src/code_utils.rs:44-52 | a stable spelling in the input that post-processing loses |
| `RewritePipeline.TraitIsNotRestored` | crates/execution/ab-riscv-macros-common/src/code_utils.rs:4-5 | an input without the target that replacing back does not restore, because a replacement completes the target |
| `RewriteRules.PreProcess` | crates/execution/ab-riscv-macros-common/src/code_utils.rs:30-42 | the eleven rules in order, in place |
| `RewriteRules.PostProcess` | crates/execution/ab-riscv-macros-common/src/code_utils.rs:45-52 | the six reverse rules in order, in place |
| `Download.SectorDownload.constructor` | crates/farmer/ab-farmer-components/src/plotting.rs:259-274 | groups slot positions by piece index, every slot empty |
| `Download.SectorDownload.ProcessPiece` | crates/farmer/ab-farmer-components/src/plotting.rs:748-762 | a delivered piece fills all slots of its index if it is the first for that index, and nothing otherwise |
| `Download.SectorDownload.Try` | crates/farmer/ab-farmer-components/src/plotting.rs:634-722 | everything an attempt delivers is kept, in any order; it succeeds exactly when nothing failed and nothing is left, and otherwise reports the refusal, the first failure, or that pieces are missing |
| `Download.SectorDownload.Retry` | crates/farmer/ab-farmer-components/src/plotting.rs:276-305 | over any failed attempts every slot is written at most once; success means each slot was written once, with the first piece delivered under its own index |
| `Download.DeliveryIsFinal` | crates/farmer/ab-farmer-components/src/plotting.rs:748-762 | later deliveries never change what counts for an index |
| `Download.FirstDeliveredIsFirst` | crates/farmer/ab-farmer-components/src/plotting.rs:748-762 | what counts is a delivery under that index with none before it |
| `Download.FirstFailureIsFirst` | crates/farmer/ab-farmer-components/src/plotting.rs:700-712 | the reported failure is the first one, and there is none exactly when nothing failed |
| `Download.PositionsAreExact` | crates/farmer/ab-farmer-components/src/plotting.rs:263-272 | the positions grouped under an index are exactly its slots, each once |
| `CacheLookup.Group` | crates/farmer/ab-farmer/src/farmer_cache.rs:1254-1295 | groups hold exactly the requested pieces with a backend, each at its own place; the others go to the plot caches in order |
| `CacheLookup.ReadFromCache` | crates/farmer/ab-farmer/src/farmer_cache.rs:1302-1408 | every requested piece gets exactly one result whatever the backend refuses, fails or leaves out; every piece that the stream found is sent under its index, and no other piece is |
| `CacheLookup.AnswersAsStreamed` | crates/farmer/ab-farmer/src/farmer_cache.rs:1302-1408 | a result carries a piece if and only if the stream found that piece for its index |
| `CacheLookup.ReadPass` | crates/farmer/ab-farmer/src/farmer_cache.rs:1425-1442 | the reverse swap-removal loop visits each pending entry once, sends the found ones and keeps the rest |
| `CacheLookup.SwapRemoveKeeps` | crates/farmer/ab-farmer/src/farmer_cache.rs:1438-1440 | removal by swapping leaves earlier entries and permutes later ones |
| `CacheLookup.ReadFromPlots` | crates/farmer/ab-farmer/src/farmer_cache.rs:1420-1459 | every pending entry gets one result: the piece of the first plot cache that has it, or none |
| `CacheLookup.InterleavingKeeps` | crates/farmer/ab-farmer/src/farmer_cache.rs:1298-1459 | no interleaving of the readers loses or repeats a result |
| `CacheLookup.GetPieces` | crates/farmer/ab-farmer/src/farmer_cache.rs:1244-1459 | under every interleaving a piece in a piece cache gets one result, any other one per request; a cached piece is answered with exactly what its cache's stream found, any other with the first plot cache's piece |
| `CacheLookup.OneResultPerUniqueIndex` | crates/farmer/ab-farmer/src/farmer_cache.rs:1244-1246 | there are as many results as unique indices exactly when no index that misses the piece caches repeats |
| `CacheLookup.RepeatedMissAnsweredTwice` | crates/farmer/ab-farmer/src/farmer_cache.rs:1244-1246 | two results for one unique index |
| `SpaceSplit.UnderflowExactly` | crates/farmer/ab-farmer/src/single_disk_farm.rs:647-702 | no subtraction underflows exactly when the percentage is below 100 and the plottable share is at least a disk page |
| `SpaceSplit.OutcomeByCount` | crates/farmer/ab-farmer/src/single_disk_farm.rs:660-725 | which outcome and sector count, by the largest number of sectors that fit |
| `SpaceSplit.EverythingFits` | crates/farmer/ab-farmer/src/single_disk_farm.rs:685-725 | all files together fit the allocated space |
| `SpaceSplit.FilesHold` | crates/farmer/ab-farmer/src/single_disk_farm.rs:685-725 | the plot holds all sectors in whole pages, the metadata file exactly its header and all sectors' metadata, the cache file its elements, none without a percentage |
| `SpaceSplit.NoSectorLeft` | crates/farmer/ab-farmer/src/single_disk_farm.rs:660-667 | one more sector would not fit |
| `SpaceSplit.NoElementLeft` | crates/farmer/ab-farmer/src/single_disk_farm.rs:690-700 | less than one cache element is left over exactly when the 32-bit capacity does not wrap |
| `SpaceSplit.ReportedMinimum` | crates/farmer/ab-farmer/src/single_disk_farm.rs:669-684 | the reported minimum is enough exactly when the cache element decided it and leaves room for a page |
| `SpaceSplit.MinimumNotEnough` | crates/farmer/ab-farmer/src/single_disk_farm.rs:669-684 | sizes for which the reported minimum is reported again |
| `SpaceSplit.EffectiveDiskUsage` | crates/farmer/ab-farmer/src/single_disk_farm.rs:1521-1532 | the successive subtractions stay non-negative and leave at least the reserved space |

## Left out

- Slots: buffer capacities and alignment, the lifetimes that separate read-only from read-write instances,
  and nested read-only instances beyond their lookups.
- Slots.Slots.WriteUsed: merges handing out the buffer with the caller's write to it; the caller may
  write any bytes.
- Plotting: proof-of-space tables, hash functions, Merkle proofs, piece decoding and the thread pools
  are parameters or absent; `read_piece` returns header and record, not the recomputed commitments.
- Proving: the proof objects that `SolutionsIterator` builds; only its index mapping and expectations.
- GPU pipelines and all device calls; only the host loop that encodes records.
- PlotEncoding.EncodeRecord: asks for at most NUM_CHUNKS found proofs, beyond which the source indexes
  out of bounds.
- Interpreter: decoding is a parameter, and so is the alignment in the generic theorems; compressed
  instructions, other extensions and environment calls with a handler are not modelled; an unchecked
  fetch outside the code ends the model's run.
- Interpreter.BasicInterpreter.Execute: takes the number of turns, since the source's loop need not end.
- Rv32.TranslationPreservesMeaning: covers straight-line register code; loads, stores and jumps, whose
  addresses differ in width, are left out.
- Transaction pool: transactions are a hash, a block root and a size; iteration is left out.
- Download: waiting, exponential delays and the reconstruction of missing pieces; any piece may be
  delivered under any index at any time.
- Download.SectorDownload.Retry: takes a finite list of attempts, of any length.
- CacheLookup: metrics, the locks around the caches, and cache synchronisation and eviction. Backends are
  asked to answer a requested offset at most once with the piece stored there.
- SpaceSplit.EverythingFits: uses unbounded integers, since all its sums stay below the allocated space;
  an overflow of the reported minimum for absurd sector sizes is not modelled.
- RewritePipeline.PipelineRestores: speaks of text without stable spellings; what one rule does to text
  with them is `ReplacingBackRestores`.
- Networking, node clients, command lines, metrics, block building and import: mostly input and output.
