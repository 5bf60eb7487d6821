# Renvo Emulator: a verified model of its algorithms

The project models the deterministic algorithms of the Renvo Emulator repository and proves, for all
inputs and all runs, what the repository relies on them for. Run `dafny verify dfyconfig.toml` to check
all of it.

**The edge-case corpus** (`Words`, `Lfsr`, `Crc`, `BitLoops`, `Rotations`, `Unsigned`, `Casegen`, `Mixing`,
`Digest`, `Corpus`, `Cases`, `ClosedForms`, `Signatures`, `Checksums`, `BitLaws`, `Denotation`). A corpus case is a straight-line C program over six
32-bit registers and eight memory words, in twenty operation forms, fed by a CRC kernel and folded into a
digest. `Casegen` is the generator's Rust reference computation as a machine whose programs have any
length; `Corpus` is the C text it prints, as methods that update arrays in place; the two are proved equal
statement by statement and run by run. `Lfsr` is a shift register of any width and polynomial over bit
sequences; the CRC results are its instances. `Denotation` says what statements, runs and whole cases compute
on lists of 32 bits and ordinary numbers, without any of the machine's operations. Bit operations are bit-vector operations; additions,
comparisons and divisions are defined through the number a word stands for, modulo two to the 32.

**The event timeline** (`Events`, `Timeline`). The priority queue cancels lazily; the scheduler above it
never moves back. Both are objects proved against functions on values, and the functions refine a queue
that removes cancelled events at once.

**Traces** (`Numerals`, `Lines`, `Trace`, `TraceRuns`, `Edges`). The streaming VCD writer (section 18 of
IEEE Std 1364-2005) and the script that reads scalar signals back, connected by a round trip over whole
texts, character by character.

**Flash images** (`Bytes`, `Permutations`, `Flash`, `Uf2`, `Uf2Image`, `Uf2Accept`). The UF2 packer and
overlay, the strict parser and flash programmer they must satisfy, and exactly which files the parser accepts.

**Audits and monitors** (`Scanner`, `Audit`, `Interrupts`, `Registers`, `RegisterRows`). The register-access audit of the
radio driver, the interrupt-stream monitor, and the register reference with its checks.

**The browser runner** (`Browser`). The page's request table and the worker as one system of two
first-in first-out channels, in every interleaving.

**Freestanding C** (`Memory`, `Heap`, `Printf`, `Fields`). `memmove` and `memcpy`, the bump allocator, and
`ee_printf` with what it prints against what C prescribes.

Some statements in the sources turn out not to hold as written. The model keeps the code; a lemma gives the
exact condition, and another one an input that fails:

- cancelling an identifier that this queue did not issue drops its own event of that number, now or when it
  comes (`Events.CancelHarmlessIff`, with the input in `Events.LaterDropped`). An identifier can only be had
  from a queue, since its number is private: such a one comes from another queue of the same program;
- a repeated cancellation may report success again (`Timeline.CancelTwiceIff`, `Timeline.CancelsTwice`); that
  is the only difference between lazy cancellation and removing events at once (`Timeline.RunRefines`);
- the packer accepts payloads that reach or pass the top of the address space, which the parser refuses
  (`Uf2Image.ParsePacked`, `Uf2Image.TopRefused`);
- the family of a UF2 image is not that of every block when the physically first flash block names none
  (`Uf2Accept.FamilyIff`, `Uf2Accept.FamilyOrderMatters`);
- an error with an empty text is taken for success (`Browser.RejectsIff`, `Browser.EmptyErrorSucceeds`), a
  request whose posting throws keeps its entry (`Browser.Drained`, `Browser.EntryStays`), and ids repeat
  after two to the 53 (`Browser.SameIdIff`, `Browser.IdsRepeat`);
- signals whose names differ only in replaced characters share one event list (`TraceRuns.PathsMergeIff`,
  `TraceRuns.PathsMerge`);
- an allocation length that wraps yields an empty block instead of a failure (`Heap.HoldsIff`,
  `Heap.EmptyBlock`);
- the sign of a negative number is not counted in its width and comes before the blanks, and the width of
  characters and strings is ignored (`Fields.ConversionIff`, `Fields.ExpandIff`, `Fields.MisplacedSign`,
  `Fields.MissingBlanks`);
- the register list has an address twice when the regions in the trace disagree, or addresses agree in their
  low 32 bits (`Registers.DistinctIff`, `Registers.ListedTwice`).

Other results say how far a guarantee reaches: the twelve statements of a case could be 29 before a printed
shift would reach the word width (`Corpus.PrintableBound`), and the clock stays monotonic because advancing
to an event that was passed is refused (`Timeline.AdvanceToNextRewindsIff`).

## Model

| member | source | states |
|---|---|---|
| `Crc.Kernel32` | corpus/edge_cases/cases/case_0000.c:17-26 | The two nested loops return the CRC-32 of the low bytes of the input words, for any length and seed. |
| `Crc.Kernel16` | corpus/edge_cases/cases/case_0025.c:17-26 | The two nested loops return the CRC-16 of the low bytes of the input words, for any length and seed. |
| `Crc.EightSteps32` | corpus/edge_cases/cases/case_0000.c:22-23 | Eight masked shift-and-XOR turns are eight steps of the right-shifting register. |
| `Crc.EightSteps16` | corpus/edge_cases/cases/case_0025.c:22-23 | Eight turns of the conditional form are eight steps of the left-shifting register. |
| `Crc.Register32Is` | corpus/edge_cases/cases/case_0000.c:19-24 | The CRC-32 register is a generic shift register over bit sequences, fed the message bits low bit first. |
| `Crc.Register16Is` | corpus/edge_cases/cases/case_0025.c:19-24 | The CRC-16 register is the same generic shift register, fed the message bits high bit first. |
| `Checksums.Crc32Feeds` | corpus/edge_cases/cases/case_0000.c:17-26 | The bits of the returned CRC-32 are the complement of what the generic register of 0xedb88320 holds after it starts from the complement of the seed's bits and is fed the eight low bits of each input word, low bit first. |
| `Checksums.Crc16Feeds` | corpus/edge_cases/cases/case_0025.c:17-26 | The bits of the returned CRC-16, from the top, are what the generic register of x^16 + x^12 + x^5 + 1 holds after it starts from the complement of the seed's sixteen low bits and is fed each input word's low byte, high bit first. |
| `Lfsr.FeedLinear` | corpus/edge_cases/cases/case_0000.c:21-23 | The register is linear over XOR: feeding the XOR of two messages from the XOR of two states gives the XOR of the results, for every width and polynomial. |
| `Lfsr.FeedInjective` | corpus/edge_cases/cases/case_0000.c:21-23 | For a fixed message the final register decides the initial one, when the polynomial is odd. |
| `Lfsr.BurstDetected` | corpus/edge_cases/cases/case_0000.c:21-23 | Two messages that differ only within one register width of bits end in different registers, whatever precedes and follows. |
| `Lfsr.FeedSelf` | corpus/edge_cases/cases/case_0025.c:19-25 | A register that is fed its own contents clears itself, for every width and polynomial. |
| `Crc.Register32Linear` | corpus/edge_cases/cases/case_0000.c:20-24 | The CRC-32 register over whole messages is linear over XOR in state and message together. |
| `Crc.Crc32Mirror` | corpus/edge_cases/cases/case_0000.c:19-25 | Bit-reversing the right-shifting CRC-32 register gives the left-shifting register with polynomial 0x04c11db7 over bit-reversed bytes, for every start and message. |
| `Crc.PolynomialsMirror` | corpus/edge_cases/cases/case_0000.c:23 | The two polynomials are each other's bit reversals under the corpus's own reversal loop. |
| `Crc.Crc32SeedInjective` | corpus/edge_cases/cases/case_0000.c:19-25 | For a fixed message two seeds give the same CRC-32 exactly when they are equal. |
| `Crc.Crc16SeedInjective` | corpus/edge_cases/cases/case_0025.c:19-25 | For a fixed message two seeds give the same CRC-16 exactly when their low sixteen bits agree. |
| `Crc.Crc32DetectsBursts` | corpus/edge_cases/cases/case_0000.c:19-25 | Distinct messages that differ within 32 consecutive bits have different CRC-32s. |
| `Crc.Crc16DetectsBursts` | corpus/edge_cases/cases/case_0025.c:19-25 | Distinct messages that differ within 16 consecutive bits have different CRC-16s. |
| `Crc.Crc32DetectsFourBytes` | corpus/edge_cases/cases/case_0000.c:19-25 | Distinct messages that differ within four consecutive bytes have different CRC-32s. |
| `Crc.Crc16DetectsTwoBytes` | corpus/edge_cases/cases/case_0025.c:19-25 | Distinct messages that differ within two consecutive bytes have different CRC-16s. |
| `Crc.Crc16DetectsOddErrors` | corpus/edge_cases/cases/case_0025.c:19-25 | Messages whose numbers of one bits differ in parity have different CRC-16s, even at different lengths. |
| `Crc.Crc32Residue` | corpus/edge_cases/cases/case_0000.c:17-26 | Continuing over the returned value, low byte first, always leaves 0xdebb20e3. |
| `Crc.Crc16Residue` | corpus/edge_cases/cases/case_0025.c:17-26 | Continuing over the returned value, high byte first, always leaves zero. |
| `BitLoops.PopCountLoop` | corpus/edge_cases/cases/case_0000.c:178 | The clear-lowest-bit loop runs once per one bit, at most 32 times, and returns that count. |
| `BitLoops.ReverseLoop` | corpus/edge_cases/cases/case_0000.c:283 | The reversal loop computes the bit reversal. |
| `BitLoops.ReverseMapsBits` | corpus/edge_cases/cases/case_0000.c:283 | Bit i of the reversal is bit 31 - i of the word. |
| `BitLoops.ReverseInvolution` | corpus/edge_cases/cases/case_0000.c:283 | Reversing twice gives the word back. |
| `BitLoops.ReverseKeepsPopCount` | corpus/edge_cases/cases/case_0000.c:283 | Reversal keeps the number of one bits. |
| `BitLoops.CascadeTelescopes` | corpus/edge_cases/cases/case_0003.c:136 | Doubling XOR shifts add up to a single XOR with the word shifted by the total. |
| `BitLoops.GrayRoundTrip` | corpus/edge_cases/cases/case_0003.c:136 | The doubling prefix-XOR inverts Gray encoding at every width up to two to the number of rounds. |
| `BitLoops.GrayCascadeIdentity` | corpus/edge_cases/cases/case_0003.c:136 | The 32-bit cascade after x ^ (x >> 1) returns x. |
| `Corpus.PrintableIff` | crates/remu-casegen/src/generator.rs:387-438 | Which printed statements have only defined shift amounts at a position: all, except mask-merge where its amount is a multiple of 32 and array-scatter from position 31 on; the amounts that do not depend on the position are obligations of the statement methods. |
| `Corpus.PrintableBound` | crates/remu-casegen/src/generator.rs:192-202 | Every form prints defined shifts at all positions of a program exactly up to 29 statements; a corpus case has twelve. |
| `Corpus.MinmaxForm` | crates/remu-casegen/src/generator.rs:510-519 | Three printed conditional expressions compute Rust's min, max and clamp, whose bounds are always in order. |
| `Cases.PackBytes` | crates/remu-casegen/src/generator.rs:410-418 | The bytes of byte-pack, low byte first, are the first bytes of its two operands and then their second bytes. |
| `Corpus.GrayForm` | crates/remu-casegen/src/generator.rs:496-509 | The printed chain of XOR shifts is the reference's cascade. |
| `Corpus.Statement` | crates/remu-casegen/src/generator.rs:342-552 | Each of the twenty printed C statements, its operators and shifts written out as printed, gives the value of the Rust reference computation. |
| `Corpus.ArithmeticStatement` | crates/remu-casegen/src/generator.rs:343-552 | The forms that carry, compare or divide agree with the reference. |
| `Corpus.BitwiseStatement` | crates/remu-casegen/src/generator.rs:361-526 | The other forms, guarded rotations and loops included, agree with the reference. |
| `Corpus.RotateMixForm` | crates/remu-casegen/src/generator.rs:361-369 | The guarded rotations of rotate-mix. |
| `Corpus.DivideForm` | crates/remu-casegen/src/generator.rs:378-386 | Division and remainder by a divisor that is never zero. |
| `Corpus.MaskMergeForm` | crates/remu-casegen/src/generator.rs:387-397 | The constant-amount rotation and the masks of mask-merge, where C defines them. |
| `Corpus.HalfwordForm` | crates/remu-casegen/src/generator.rs:419-426 | The half-word swap. |
| `Corpus.ScatterForm` | crates/remu-casegen/src/generator.rs:427-438 | The rotation of the scattered cell, where C defines it. |
| `Corpus.SwitchForm` | crates/remu-casegen/src/generator.rs:452-464 | The switch and its four arms. |
| `Corpus.PopulationForm` | crates/remu-casegen/src/generator.rs:480-487 | The bit-count loop computes count_ones. |
| `Corpus.EndianForm` | crates/remu-casegen/src/generator.rs:520-527 | The masked shifts of endian-swap are Rust's swap_bytes. |
| `Cases.SwappedBytes` | crates/remu-casegen/src/generator.rs:520-527 | That swap lists the bytes of the word in reverse. |
| `Rotations.SwapInvolution` | crates/remu-casegen/src/generator.rs:520-527 | Swapping the bytes twice gives the word back. |
| `Corpus.Execute` | corpus/edge_cases/cases/case_0000.c:52-52 | A statement on the case's local arrays, in place, is one step of the reference machine; no index, shift or divisor is out of range. |
| `Corpus.SetUp` | corpus/edge_cases/cases/case_0000.c:38-51 | The head of a case fills registers and memory as the generator computes them. |
| `Corpus.ReturnSelected` | corpus/edge_cases/cases/case_0000.c:54-72 | What a stopped case returns, for each of the preprocessor's selections. |
| `Corpus.RemuCase` | corpus/edge_cases/cases/case_0000.c:34-311 | A whole case, from any kernel value and stopped after any number of statements, returns the selected observation of exactly that many steps of the reference run, for programs of any length. |
| `Cases.Crc32Case` | corpus/edge_cases/cases/case_0000.c:17-311 | A case that runs its own CRC-32 kernel and then its statements returns the observation of the reference run that starts from the CRC-32 of its input bytes. |
| `Cases.Crc16Case` | corpus/edge_cases/cases/case_0025.c:17-311 | The same for a case that starts from the CRC-16 kernel, widened. |
| `Corpus.ReverseAgrees` | crates/remu-casegen/src/generator.rs:488-495 | The printed reversal loop is the reference's reverse_bits. |
| `Corpus.HornerForm` | corpus/edge_cases/cases/case_0001.c:220 | The printed polynomial loop computes the reference's recurrence. |
| `Corpus.CountedForm` | corpus/edge_cases/cases/case_0002.c:241 | A counted loop computes the reference's recurrence for its number of turns. |
| `Casegen.DivisorIsNonzero` | corpus/edge_cases/cases/case_0001.c:136 | The divisor of divide-rem is never zero. |
| `Denotation.MaskMergeMeans` | crates/remu-casegen/src/generator.rs:387-397 | Bit i of what mask-merge stores is bit i of the left operand where the left operand, rotated left by the position plus three, has a one, and bit i of the right operand elsewhere. |
| `Denotation.StatementMeans` | crates/remu-casegen/src/generator.rs:342-552 | What each of the twenty forms stores, bit by bit, described on bits and numbers alone: sums and differences with their carry and borrow, products, quotient and remainder by the next odd number, rotations by so many places, slices of bytes and halfwords, median, bit count, reversal, a 64-bit sum, a polynomial. |
| `Denotation.StepMeans` | crates/remu-casegen/src/generator.rs:242-256 | One reference step on the bits of registers and memory: the destination takes that value, and array-scatter alone also changes the memory word that the left operand's number selects modulo eight. |
| `Denotation.RunMeans` | crates/remu-casegen/src/generator.rs:242-256 | The same for whole runs of any program from any state, stopped anywhere; a statement's position is its number modulo two to the 32. |
| `Denotation.CaseMeans` | corpus/edge_cases/cases/case_0000.c:34-311 | What a whole case returns, bit for bit, for every selection: from the kernel's bits, the inputs and the case number, through the described statements, to the selected word or the fold of shifts by five and two. |
| `Denotation.WidenBits` | corpus/edge_cases/cases/case_0025.c:35-35 | The sixteen bits of a CRC-16 become the low half of the first register. |
| `BitLaws.RotateBits` | crates/remu-casegen/src/generator.rs:361-369 | A rotation to the left by a word's five low bits brings to each place the bit that many places below it, around the end. |
| `BitLaws.RotateRightBits` | crates/remu-casegen/src/generator.rs:361-369 | A rotation to the right is one to the left by what is missing to 32. |
| `Rotations.GuardedIs` | corpus/edge_cases/cases/case_0002.c:52 | The printed guarded rotations are Rust's rotate_left and rotate_right for every amount below 32, zero included. |
| `Rotations.ScatterRotates` | corpus/edge_cases/cases/case_0003.c:178 | The printed rotation of array-scatter is a rotation by its position plus one. |
| `ClosedForms.ClosedIsReference` | crates/remu-casegen/src/generator.rs:340-555 | Every statement's value equals its closed form: bit count, reversal, identity for Gray, polynomial for Horner, a 64-bit sum for carry-chain. |
| `ClosedForms.ClosedFormsPreserveRuns` | crates/remu-casegen/src/generator.rs:242-257 | For every program, start state and stopping point, running the closed forms reaches the same state, hence every checkpoint. |
| `ClosedForms.CarryChainIsWide` | corpus/edge_cases/cases/case_0002.c:115 | Carry-chain is one addition of two 64-bit numbers. |
| `ClosedForms.HornerIsPolynomial` | corpus/edge_cases/cases/case_0001.c:220 | The Horner loop evaluates its polynomial modulo two to the 32, for any coefficients. |
| `ClosedForms.CorpusPolynomial` | crates/remu-casegen/src/generator.rs:541-546 | With the corpus's four coefficients that polynomial has the stated degree-four form. |
| `ClosedForms.ClampIsMedian` | crates/remu-casegen/src/generator.rs:510-513 | The clamp of minmax-clamp is the median of its three words. |
| `ClosedForms.MinMaxSum` | crates/remu-casegen/src/generator.rs:510-513 | XORing low and high restores the XOR of the two operands. |
| `ClosedForms.DivideRemSplits` | crates/remu-casegen/src/generator.rs:378-380 | Quotient and remainder of divide-rem recompose the dividend. |
| `ClosedForms.StepFrame` | crates/remu-casegen/src/generator.rs:340-555 | A statement changes its destination register only, and array-scatter the one memory cell it indexes. |
| `Signatures.LeadingOperations` | crates/remu-casegen/src/generator.rs:192-199 | The loop that chooses the first operations yields the case number's base-20 digits. |
| `Signatures.PrefixDecides` | crates/remu-casegen/src/generator.rs:192-199 | Two case numbers below 20 to the n share their first n operations exactly when they are equal. |
| `Signatures.SignaturesDistinct` | crates/remu-casegen/src/generator.rs:27-35 | No two of the thousand cases share the three leading operations. |
| `Digest.DigestLoop` | corpus/edge_cases/cases/case_0000.c:306-307 | The digest loop computes the fold that the reference uses. |
| `Digest.DigestAffine` | crates/remu-casegen/src/generator/kernels.rs:490-494 | XORing a change into the words XORs the change's spread into the digest, for vectors of any length. |
| `Digest.CheckpointCollision` | corpus/edge_cases/cases/case_0000.c:306-310 | A change of registers and memory is invisible at a checkpoint exactly when the two spreads cancel. |
| `Digest.LastWordsShow` | corpus/edge_cases/cases/case_0000.c:306-310 | XORing d into the last register XORs d into the result; into the last memory word, d rotated left by 11. |
| `Digest.InvisibleChanges` | corpus/edge_cases/cases/case_0000.c:306-310 | A change to the last register but one alone is invisible exactly when it is 0, 0x10204081, 0x20408102 or 0x3060c183. |
| `Events.EventQueue.ScheduleAt` | crates/remu-core/src/event.rs:96-111 | Queueing gives the next identifier and inserts in release order, or reports exhaustion of the 64-bit identifiers. |
| `Events.EventQueue.CancelEvent` | crates/remu-core/src/event.rs:123-129 | Cancelling marks the identifier and reports whether it was unmarked. |
| `Events.EventQueue.PopEvent` | crates/remu-core/src/event.rs:131-140 | The popping loop skips cancelled events and forgets their identifiers. |
| `Events.EventQueue.Peek` | crates/remu-core/src/event.rs:142-154 | The peeking loop prunes cancelled events and reports the next time. |
| `Events.PushRefines` | crates/remu-core/src/event.rs:96-111 | Queueing refines the queue that cancels at once. |
| `Events.CancelRefines` | crates/remu-core/src/event.rs:123-129 | Lazy cancellation of an issued identifier refines removing the event at once. |
| `Events.PopRefines` | crates/remu-core/src/event.rs:131-140 | Popping refines taking the first event that is left. |
| `Events.NextTimeRefines` | crates/remu-core/src/event.rs:142-154 | The next time is that of the first event that is left. |
| `Events.CancelHarmlessIff` | crates/remu-core/src/event.rs:123-129 | Cancelling an identifier changes nothing that is to come, whatever is queued later, exactly when it was already issued here or never can be and no pending event carries it; the code's comment calls any unknown identifier harmless. |
| `Events.LaterDropped` | crates/remu-core/src/event.rs:123-129 | The input: cancel an identifier not issued yet, then queue payloads up to it; the one that receives it is dropped. |
| `Events.CancelPromptIff` | crates/remu-core/src/event.rs:123-129 | Lazy cancellation does what removing the event at once would do, whatever is queued later, exactly for the identifiers already issued and the one that never will be. |
| `Events.PruneForgetsIff` | crates/remu-core/src/event.rs:131-154 | One pruning forgets a cancelled identifier exactly when its event is stored and everything stored up to it is cancelled. |
| `Events.EventQueue.constructor` | crates/remu-core/src/event.rs:92-94 | A new queue is empty and counts from zero. |
| `Timeline.RunRefines` | crates/remu-core/src/scheduler.rs:38-131 | Over every run of commands that cancels only known identifiers, the lazy scheduler gives the same outcomes as one that removes events at once and remembers every cancellation, but that a repeated cancellation may claim to be the first. |
| `Timeline.CancelTwiceIff` | crates/remu-core/src/scheduler.rs:93-96 | After any run, a cancellation repeated after any further commands reports success again exactly when one of them pruned the queue while the event was stored and everything stored up to it was cancelled; the code's comment promises false. |
| `Timeline.CancelsTwice` | crates/remu-core/src/event.rs:123-129 | The input: schedule, cancel, ask for the next wakeup, cancel again. |
| `Timeline.DispatchOrder` | crates/remu-core/src/scheduler.rs:21-27 | Over every run, whatever is cancelled, events leave in strictly increasing order of timestamp and insertion, none twice, none before its time. |
| `Timeline.StepForward` | crates/remu-core/src/scheduler.rs:98-131 | No command moves the clock back, and what it dispatches comes after everything dispatched before. |
| `Timeline.NothingLost` | crates/remu-core/src/scheduler.rs:66-95 | Every accepted event is dispatched, or cancelled while pending, or still pending, exactly once. |
| `Timeline.CancelledWorkIsInvisible` | crates/remu-trace/src/lib.rs:318-425 | Scheduling and cancelling an event anywhere in a run changes no later answer, timestamp, payload or order of dispatch, the answers to cancellations included; identifiers shift by one. |
| `Timeline.AdvanceToNextRewindsIff` | crates/remu-core/src/scheduler.rs:110-117 | Advancing to the next event never goes back: it reports a rewind instead, exactly when the clock was advanced past an event that is still to come. |
| `Timeline.Scheduler.constructor` | crates/remu-core/src/scheduler.rs:42-49 | A new scheduler starts at the given time with an empty queue. |
| `Timeline.Scheduler.ScheduleAbsolute` | crates/remu-core/src/scheduler.rs:66-80 | Scheduling in the past is refused and consumes no identifier. |
| `Timeline.Scheduler.ScheduleRelative` | crates/remu-core/src/scheduler.rs:82-91 | Relative scheduling checks for timestamp overflow before anything is queued. |
| `Timeline.Scheduler.CancelQueued` | crates/remu-core/src/scheduler.rs:93-96 | Cancelling reports whether the identifier was unmarked. |
| `Timeline.Scheduler.NextTimeQueued` | crates/remu-core/src/scheduler.rs:61-64 | Asking for the next wakeup prunes the queue. |
| `Timeline.Scheduler.Advance` | crates/remu-core/src/scheduler.rs:98-108 | Advancing refuses to go back. |
| `Timeline.Scheduler.AdvanceNext` | crates/remu-core/src/scheduler.rs:110-117 | Advancing to the next wakeup. |
| `Timeline.Scheduler.TakeDue` | crates/remu-core/src/scheduler.rs:119-131 | One due event is removed and counted. |
| `Timeline.Scheduler.DispatchDue` | crates/remu-core/src/scheduler.rs:133-148 | The callback receives the due events in order up to its first failure; the failing event is consumed and the later ones stay queued. |
| `Trace.IdentifierInjective` | crates/remu-trace/src/lib.rs:223-235 | No two signals share a base-94 identifier. |
| `Trace.EncodeIdentifier` | crates/remu-trace/src/lib.rs:223-235 | The loop of divisions by 94 spells that identifier, least significant character first. |
| `Trace.TreeArranged` | crates/remu-trace/src/lib.rs:163-173 | Whatever is declared, every scope's children are in the order of their names. |
| `Trace.ReadScope` | scripts/summarize-expansion.py:186-195 | For any scope tree in printed form the reader recovers each identifier's dotted path and returns to the scope it started in. |
| `Trace.ParseScalarEvents` | scripts/summarize-expansion.py:179-202 | The reader's loop over the lines of a text. |
| `TraceRuns.TreePaths` | crates/remu-trace/src/lib.rs:163-173 | The scope tree built from a registry lists exactly its signals, each under its own path. |
| `TraceRuns.VcdWriter.WriteScope` | crates/remu-trace/src/lib.rs:110-131 | A scope is written as its head, its variables, its children and its end. |
| `TraceRuns.VcdWriter.Begin` | crates/remu-trace/src/lib.rs:152-193 | The header is written once: definitions, time zero and all initial values. |
| `TraceRuns.VcdWriter.EmitChange` | crates/remu-trace/src/lib.rs:195-216 | A change is refused before the header, for undeclared signals and out of order; otherwise the time is written when it moves, then the value. |
| `TraceRuns.TraceRoundTrip` | scripts/summarize-expansion.py:179-202 | Whatever is declared and whatever changes are offered, the reader finds for each path exactly the scalar values accepted for it, in order and with their times, and ends outside all scopes. |
| `TraceRuns.LastChangeRead` | crates/remu-trace/src/lib.rs:195-216 | After any changes, an accepted one-bit change is read as the last event of its path, at its time, as '1' exactly when its value is one, '0' exactly when zero, 'z' exactly when high impedance and 'x' exactly when unknown. |
| `Trace.VectorLine` | crates/remu-trace/src/lib.rs:133-144 | A vector's line is a 'b', the level of each bit from the highest down to bit 0, a blank and the identifier. |
| `TraceRuns.RecordSelects` | scripts/summarize-expansion.py:198-201 | Recording a history gives each path its own events in order, and no path an empty list. |
| `TraceRuns.PathsMergeIff` | crates/remu-trace/src/lib.rs:237-247 | Two signals share an event list exactly when their path components agree after the replaced characters. |
| `TraceRuns.PathsMerge` | crates/remu-trace/src/lib.rs:237-247 | The input: two names that differ in a replaced character. |
| `Lines.SplitJoin` | scripts/summarize-expansion.py:185 | Lines written one by one are split back into the same lines. |
| `Lines.FieldsOf` | scripts/summarize-expansion.py:188-192 | Words separated by single blanks are the fields of the line. |
| `Edges.ContainsOrderedValues` | scripts/summarize-expansion.py:205-210 | The greedy loop answers true exactly when the expected values form a subsequence of the observed ones. |
| `Edges.GreedyComplete` | scripts/summarize-expansion.py:205-210 | Greedy matching finds every embedding there is. |
| `Flash.MergeImages` | scripts/package-native.py:44-51 | Extending with 0xff and replacing the slice gives the payload where it lies, the base elsewhere and erased flash in any gap. |
| `Flash.OverlaysCommuteIff` | scripts/package-native.py:44-51 | Two overlays commute exactly when they agree wherever both lie; disjoint ones always do. |
| `Flash.AnyOrderOneOverlay` | scripts/package-native.py:18-51 | Laying the chunks of a payload over any base, in any order, is one overlay of the whole payload. |
| `Uf2.PackUf2` | scripts/package-native.py:18-41 | The packer writes one 512-byte block per started 256 bytes, or fails exactly when a header word does not fit 32 bits. |
| `Uf2.FillBlock` | scripts/package-native.py:24-39 | A block filled field by field is the header words, the chunk, zeros and the end marker. |
| `Uf2Image.ParsePacked` | crates/remu-image/src/uf2.rs:61-215 | For every order of the packed blocks the parser returns the payload as one segment, exactly when the payload ends below the top of the address space. |
| `Uf2Image.TopRefused` | crates/remu-image/src/uf2.rs:119-121 | The input: one byte at the very top of the address space is packed and refused. |
| `Uf2Accept.ParseIff` | crates/remu-image/src/uf2.rs:61-215 | The parser accepts a file exactly when each block is well formed, flash blocks agree on count and family and differ in number, all numbers are there, and no two overlap; the image then has just the file's blocks, and the one family they name. |
| `Uf2Accept.ScanIff` | crates/remu-image/src/uf2.rs:73-155 | The loop over the blocks gets through the beginnings of a file that are readable block by block and pair by pair, and no others. |
| `Uf2Accept.JoinIff` | crates/remu-image/src/uf2.rs:171-208 | Sorting by address and joining succeeds exactly when no two blocks overlap. |
| `Uf2Accept.FamilyIff` | crates/remu-image/src/uf2.rs:49-50 | The family of an accepted image is that of every block exactly when the physically first flash block names it. |
| `Uf2Accept.FamilyOrderMatters` | crates/remu-image/src/uf2.rs:123-141 | The input: two blocks, one without a family, are accepted in one physical order and refused in the other. |
| `Uf2Image.ParsedSound` | crates/remu-image/src/uf2.rs:61-215 | Any accepted file is numbered completely, has no overlap, and its segments hold exactly the bytes its blocks put. |
| `Uf2Image.ParsedFlash` | crates/remu-image/src/uf2.rs:175-207 | Any accepted file: a segment is marked as outside the main flash exactly when the lowest flag bit of every block in it is set, every block lies in one, and segments that touch are marked differently. |
| `Uf2Image.Materialize` | crates/remu-image/src/uf2.rs:217-247 | The loop over segments programs erased flash, or fails at the first segment outside. |
| `Uf2Image.ProgramParsed` | crates/remu-image/src/uf2.rs:217-247 | An accepted file can be programmed exactly when every block lies inside the flash, which then holds each block's bytes and is erased elsewhere. |
| `Uf2Image.PackedFlash` | scripts/package-native.py:18-51 | Pack, shuffle, parse and program: the flash equals one overlay of the payload on erased flash. |
| `Scanner.FirstArgument` | scripts/check-c6-custom-driver-contract.py:51-68 | The cursor-and-depth loop returns the tokens up to the cut, or gives up. |
| `Scanner.CutIff` | scripts/check-c6-custom-driver-contract.py:51-68 | The cut is the first comma or closing parenthesis at depth one, and none is reported exactly when there is none. |
| `Scanner.MmioCalls` | scripts/check-c6-custom-driver-contract.py:46-69 | The list has one call for every position at which one starts, in order, nested ones included; there is no list exactly when one of them is unbalanced. |
| `Scanner.CallsListed` | scripts/check-c6-custom-driver-contract.py:46-69 | The same of the calls from any position on. |
| `Scanner.CallsFail` | scripts/check-c6-custom-driver-contract.py:67-68 | Any unbalanced call anywhere fails the whole scan. |
| `Audit.CheckManifest` | scripts/check-c6-custom-driver-contract.py:123-153 | The manifest loops accept exactly distinct, aligned, header-matching, described entries that own no word twice. |
| `Audit.CheckEntry` | scripts/check-c6-custom-driver-contract.py:130-149 | The requirements on one entry, in the order in which they are checked. |
| `Audit.CheckReference` | scripts/check-c6-custom-driver-contract.py:155-169 | The loop over entries and words accepts exactly when radio entries have the reference's evidence for each of their words and the others rest on the platform. |
| `Audit.Occupy` | scripts/check-c6-custom-driver-contract.py:150-153 | The inner loop takes the words of one entry, stride by stride, and fails exactly when one is already owned. |
| `Audit.AuditDriver` | scripts/check-c6-custom-driver-contract.py:111-208 | The audit passes exactly when manifest, reference, raw literals, calls, used directions and symbol counts are as stated. |
| `Audit.CollectFiles` | scripts/check-c6-custom-driver-contract.py:170-193 | The loop over files collects raw-literal violations, symbol occurrences and calls. |
| `Audit.CheckCalls` | scripts/check-c6-custom-driver-contract.py:193-203 | The loop over calls judges each one and adds up used directions and targets. |
| `Audit.CallsOwned` | scripts/check-c6-custom-driver-contract.py:130-201 | If the audit accepts, every call targets a word owned by exactly one entry, which grants the call's direction. |
| `Audit.JudgeIff` | scripts/check-c6-custom-driver-contract.py:193-203 | A call is permitted exactly when its argument is an entry's symbol, alone or with a literal offset, the entry owns the word at that offset, and a read-only entry is read and a write-only one written. |
| `Audit.AccessKept` | scripts/check-c6-custom-driver-contract.py:17-21 | If the audit accepts, no read call targets an entry whose access is write-only and no write call one that is read-only. |
| `Audit.AccessUsed` | scripts/check-c6-custom-driver-contract.py:205-208 | If the audit accepts, every entry that is not write-only is read by some call and every entry that is not read-only is written by some call. |
| `Audit.CallsBacked` | scripts/check-c6-custom-driver-contract.py:155-201 | If the audit accepts against the reference generated from a trace, every call of a radio entry targets the 32-bit address of a modelled register, and of one that the trace accessed when the entry claims causal evidence. |
| `Audit.DirectionsUsed` | scripts/check-c6-custom-driver-contract.py:205-208 | If the audit accepts, every declared direction is used by some call. |
| `Audit.SymbolsAudited` | scripts/check-c6-custom-driver-contract.py:170-206 | If the audit accepts, then by counting every register symbol outside the header starts the first argument of the call just before it, in driver code. |
| `Interrupts.Monitor` | scripts/check-radio-interrupt-trace.py:19-64 | The monitor accepts exactly the non-empty traces of the contract's sources whose records are well formed and whose stream per source is (assert, deassert) repeated at least the minimum number of times. |
| `Interrupts.Scan` | scripts/check-radio-interrupt-trace.py:33-53 | The one-pass loop keeps the last level and the counts of each source, and stops only at a record no conforming trace can contain. |
| `Interrupts.Settle` | scripts/check-radio-interrupt-trace.py:55-62 | The closing loop over the contract's sources. |
| `Interrupts.LastEntryKept` | scripts/check-radio-interrupt-trace.py:25 | The table holds, for each source, the signal and minimum of its last entry in the contract's list. |
| `Interrupts.BalancedIff` | scripts/check-radio-interrupt-trace.py:48-62 | Alternating, ending low and equally often high and low is the same as repeated pairs. |
| `Browser.RunKeeps` | web/src/main.js:1-19 | In every interleaving of requests, worker turns and deliveries: ids in flight are in order and awaited, a promise waits exactly while its id is in flight, and an answered one has the outcome of its own answer. |
| `Browser.DeliverSettles` | web/src/main.js:5-11 | Every delivered reply finds its entry and settles the waiting promise of its own request, and no other. |
| `Browser.RejectsIff` | web/src/main.js:9-10 | An answered request is rejected exactly when its error text is not empty; an empty text fulfils it with no value. |
| `Browser.SettledOutcome` | web/src/worker.js:3-37 | After any interleaving, an answered request is rejected with a text exactly when its emulator call threw that text and it is not empty, or the operation is unknown and the text says so; it is fulfilled with a value exactly when the operation is known and its call returned that value. |
| `Browser.EmptyErrorSucceeds` | web/src/main.js:9-10 | The input: one request whose emulator call throws an empty text is fulfilled. |
| `Browser.Drained` | web/src/main.js:1-19 | With drained channels every promise is settled, and the table holds one entry per request whose posting threw: none exactly when posting always succeeded. |
| `Browser.EntryStays` | web/src/main.js:13-19 | The input: one request whose posting throws leaves its entry with nothing in flight. |
| `Browser.NextIdAfter` | web/src/main.js:3-14 | The counter's value after any run. |
| `Browser.SameIdIff` | web/src/main.js:3-14 | In every run, two requests have the same id exactly when the earlier one already comes where the counter has reached the last exact double. |
| `Browser.IdsRepeat` | web/src/main.js:3-14 | The input: one request more than two to the 53, of which the last two share an id. |
| `Browser.Session.SendRequest` | web/src/main.js:13-19 | A request is entered before it is posted; a posting that throws rejects the promise and leaves the entry. |
| `Browser.Session.OnMessage` | web/src/main.js:5-11 | A reply removes its entry and settles its promise. |
| `Browser.Session.WorkerTurn` | web/src/worker.js:3-37 | A worker turn takes one message and posts one reply. |
| `Memory.Move` | qualification/mquickjs/mini_libc.c:16-27 | For every pair of regions the destination receives the source's original bytes and nothing else changes. |
| `Memory.MoveInline` | corpus/edge_cases/support/runtime.c:29-45 | The same for the version with both loops in one body. |
| `Memory.CopyForward` | qualification/mquickjs/mini_libc.c:6-14 | The forward loop copies byte by byte, first byte first. |
| `Memory.ForwardAt` | corpus/edge_cases/support/runtime.c:8-17 | What the forward copy leaves at each address, overlap included: to the right of the source, the bytes between source and destination over and over. |
| `Memory.ForwardMovesIff` | qualification/mquickjs/mini_libc.c:6-27 | For one memory the forward copy moves correctly exactly when the destination is not to the right of the source or the source repeats with their distance. |
| `Memory.ForwardMovesAllIff` | qualification/mquickjs/mini_libc.c:6-27 | For all memories, exactly when the destination does not lie inside the source to the right of its start. |
| `Heap.FallbackHeap.Malloc` | qualification/mquickjs/mini_libc.c:109-118 | The allocator takes the rounded length from the fill mark, and returns null exactly when that would pass the end of the heap. |
| `Heap.FallbackHeap.Realloc` | qualification/mquickjs/mini_libc.c:125-131 | Reallocation of null allocates; any other returns null and changes nothing. |
| `Heap.BlocksDisjoint` | qualification/mquickjs/mini_libc.c:106-131 | Over every run of calls the blocks returned are aligned, inside the heap and pairwise disjoint, and the fill mark is a multiple of eight. |
| `Heap.HoldsIff` | qualification/mquickjs/mini_libc.c:111 | A block holds the length asked for exactly when rounding up does not wrap; otherwise it is empty. |
| `Heap.EmptyBlock` | qualification/mquickjs/mini_libc.c:109-118 | The input: the largest length of all is granted, as a block of no bytes. |
| `Heap.FailsForGood` | qualification/mquickjs/mini_libc.c:109-131 | Once a length fails, a later request at least as long fails exactly when it does not wrap. |
| `Printf.Port.PutString` | qualification/coremark/ee_printf.c:10-18 | Prints the characters of a string and counts them. |
| `Printf.Port.PutUnsigned` | qualification/coremark/ee_printf.c:20-40 | Prints the padded digits, max(width, digits) characters, and returns how many. |
| `Printf.FillDigits` | qualification/coremark/ee_printf.c:22-29 | The digit loop stays within its sixteen-character buffer, which then spells the number backwards. |
| `Printf.DigitsFit` | qualification/coremark/ee_printf.c:22-29 | A 32-bit value has at most ten decimal or eight hexadecimal digits. |
| `Printf.ScanConversion` | qualification/coremark/ee_printf.c:53-66 | The loop over padding, width and length modifier reads one conversion. |
| `Printf.ConversionReads` | qualification/coremark/ee_printf.c:53-66 | A zero flag or none, the digits of a width, a length modifier or none, and a letter read back as that padding, width and letter, with whatever follows left over, unless the width exceeds the largest int. |
| `Printf.Port.PutConversion` | qualification/coremark/ee_printf.c:67-112 | Each conversion prints what its letter means. |
| `Printf.Port.Format` | qualification/coremark/ee_printf.c:42-116 | For every format this printf can read with the arguments it takes, the loop prints what the format means to it and returns the number of characters printed. |
| `Printf.UnsignedRoundTrip` | qualification/coremark/ee_printf.c:20-40 | Padded to any width, with blanks or zeros, a number reads back in its radix. |
| `Printf.SignedRoundTrip` | qualification/coremark/ee_printf.c:79-91 | %d reads back to every 32-bit value, the minimum included. |
| `Fields.ConversionIff` | qualification/coremark/ee_printf.c:67-112 | A conversion prints the field the C standard asks for exactly when it misplaces no sign and misses no blank: a negative decimal must fill its width, a string too, and a character has width one at most. |
| `Fields.FieldReads` | qualification/coremark/ee_printf.c:79-91 | The field that C asks for reads back to its number and is as long as its width or, if longer, sign and digits. |
| `Fields.QuestionIff` | qualification/coremark/ee_printf.c:108-111 | The letters that always print a question mark are exactly those other than the six known ones. |
| `Fields.ExpandIff` | qualification/coremark/ee_printf.c:42-116 | A whole format that C defines prints C's text exactly when it misplaces no sign and misses no blank; its length differs by the misplaced signs less the missing blanks. |
| `Fields.MisplacedSign` | qualification/coremark/ee_printf.c:79-91 | The input: -3 in a field of five comes out as six characters, the sign before the blanks. |
| `Fields.MissingBlanks` | qualification/coremark/ee_printf.c:76-78 | The input: a string of two characters in a field of five comes out without its blanks. |
| `Fields.UnknownFlag` | qualification/coremark/ee_printf.c:108-111 | The input: a minus flag is taken for the letter of the conversion. |
| `Printf.EscapePrints` | qualification/coremark/ee_printf.c:47-71 | Any text with doubled percent signs prints itself and takes no arguments. |
| `Printf.FormatsJoin` | qualification/coremark/ee_printf.c:47-113 | A format is printed piece by piece: joined formats with joined arguments print joined texts. |
| `Numerals.ParsePrint` | qualification/coremark/ee_printf.c:25-29 | Printing a number by repeated division and reading it back gives the number. |
| `Registers.ModeledFirst` | scripts/generate-c6-rf-register-reference.py:61-80 | After any sequence of additions an address keeps its first name and meaning and the first mask and reset value given. |
| `Registers.KnownTable.AddModeled` | scripts/generate-c6-rf-register-reference.py:61-80 | Adds one register to the table in place. |
| `Registers.RegionForIff` | scripts/generate-c6-rf-register-reference.py:302-306 | With distinct bases an address belongs to a region exactly from that region's base up to the next base. |
| `Registers.GroupTrace` | scripts/generate-c6-rf-register-reference.py:334-339 | The grouping loop holds, for each region and address, exactly its accesses. |
| `Registers.BuildReference` | scripts/generate-c6-rf-register-reference.py:341-418 | The loops over known addresses and sorted keys build the register list and its statistics from the grouped table, or fail at the first lookup that fails. |
| `Registers.GeneratesIff` | scripts/generate-c6-rf-register-reference.py:302-382 | The generator fails exactly when a known address lies below every region, or a kept record names a region without a base, has no program counter, or changed a value that was not seen afterwards. |
| `Registers.TimesExact` | scripts/generate-c6-rf-register-reference.py:380-381 | First and last time are the earliest and latest access, in whatever order the trace lists them. |
| `Registers.AllKeysOrdered` | scripts/generate-c6-rf-register-reference.py:341-344 | The list is in address order, has no key twice, and holds exactly what was observed or is known. |
| `Registers.ValuesExact` | scripts/generate-c6-rf-register-reference.py:348-349 | The value list of a register, before each value is cut to 32 bits, is ascending and holds exactly the values seen. |
| `RegisterRows.RowsDescribe` | scripts/generate-c6-rf-register-reference.py:341-382 | Every row, field by field, from trace and tables alone: counts, times and access kinds of its key's accesses, the values read, written and left by changing writes, program counters, offset from the region's base, what is known at its address, and its evidence. |
| `RegisterRows.StatisticsExact` | scripts/generate-c6-rf-register-reference.py:405-418 | The statistics are the numbers of rows, of observed, implemented, implemented-only and unnamed ones, of regions, and of listed values. |
| `RegisterRows.CheckRows` | scripts/check-c6-rf-register-reference.py:59-80 | The loops of the reference's check accept exactly what meets its structural and statistical requirements. |
| `Registers.RecordsCounted` | scripts/generate-c6-rf-register-reference.py:406 | The record statistic is the number of records outside the UART: each is grouped exactly once. |
| `Registers.CountsSum` | scripts/generate-c6-rf-register-reference.py:375-376 | Read and write counts add up to those records, when the trace holds reads and writes. |
| `Registers.StatisticsAdd` | scripts/generate-c6-rf-register-reference.py:405-418 | Registers are observed plus implemented-only, and unknown ones are registers less implemented ones. |
| `Registers.DistinctIff` | scripts/check-c6-rf-register-reference.py:63 | What is generated lists no address twice exactly when kept records of one address name one region (at a known address, the region that the table of bases gives) and no two listed addresses coincide in their low 32 bits. |
| `Registers.ListedTwice` | scripts/generate-c6-rf-register-reference.py:298-299 | The input: two accesses of one region, two to the 32 apart, are generated and listed under one address. |
| `Registers.ChecksIff` | scripts/check-c6-rf-register-reference.py:60-80 | The generated reference meets every structural and statistical requirement exactly when the known registers are documented, the regions agree, the listed addresses keep their order in 32 bits, and nothing the trace mentions goes without a read or a write. |

## Left out

- The other case files: the same twenty forms with other constants, and other kernels; particular expected
  digests are finite computations.
- The generator's random choice of operations and operands beyond the first three: programs here are arbitrary.
- `BinaryHeap` and `BTreeMap` as data structures: the heap is listed in release order, maps are values.
- Events.EventQueue.PopEvent: the library heap's own sift operations are not modelled, only the order in which it releases events.
- Timeline.Scheduler.DispatchDue: the callback is the set of calls on which it fails, since it cannot reach the scheduler it is called from.
- Trace.ParseScalarEvents: a timestamp is decimal digits; Python also accepts signs, blanks and underscores, which the writer never prints.
- Lines.SplitJoin: blanks and line ends beyond Latin-1, other than the two Unicode separators, are not part of this model.
- TraceRuns.VcdWriter.Begin: a path is given by its components, and identifiers count from zero as the registry's do; output errors are left out.
- The trace digest: SHA-256 is opaque.
- Uf2Accept.ParseIff: which error a refused file gets is modelled but not stated; the theorem says which files are refused.
- Uf2Image.ParsePacked: the parser is modelled on values, one block at a time, not as a loop over mutable tables.
- Flash.MergeImages: negative offsets are not part of this model.
- Scanner.MmioCalls: driver text is a sequence of tokens; the regular expressions that remove comments and recognise names are not modelled.
- Audit.CheckManifest: access and evidence words are values of a type, so an unknown word or a missing field cannot occur; the seven fixed texts at the head of the manifest are data.
- Audit.AuditDriver: the two style checks on returns and pointer casts, which are regular expressions over raw text.
- Registers.BuildReference: where several regions claim one address, Python's order among them.
- Pinned constants, hashes and record counts of the check scripts: data rather than algorithms.
- Browser.RunKeeps: payloads that themselves carry an `id` or `operation` field.
- Fields.ExpandIff: formats with conversions that C defines and the code does not know (other letters, other flags, precisions), and length modifiers on `%c` and `%s`, are not compared; the former print a question mark.
- Printf.Port.Format: formats that end inside a conversion, widths beyond the largest int, totals beyond it, and missing or mismatched arguments.
- Heap.FallbackHeap.Malloc: sizes are 32 bits wide, as on the emulated targets.
- Memory.Move: pointers into different objects; one array holds both regions.
- `memset`, `memcmp`, the string functions and the `__aeabi` aliases: one loop or one call each.
- File, process, socket and serial plumbing, and HTML and Markdown output.
- Device models, CPU cores, radio models and the command-line front end of the emulator.
