# Verified models of the two engines and of the checks around them

The lab watches the eBPF verifier from outside.  Two small engines run beside it, each with a
simple reference, and a pipeline stage compares what the verifier printed with what was observed.

**Liveness and the interpreter.** `harness/bpflive.h` computes, for each instruction, which of
r0..r9 can still be read, by a backward fixed point over the decoded program; a register it calls
dead is never compared.  `harness/bpfref.h` is an independent interpreter with registers, a stack,
a map value and a packet, atomics and a step budget.  Proved: the in-place loop computes exactly the
registers some path reads before writing them, within n + 1 sweeps; a use it lists is one the
interpreter really reads, with two exceptions; the interpreter's class-based machine is the step
function it is specified by, and every step does what its opcode bits say; and registers outside the
masks cannot change how a run ends.  For the harness that seeds registers and compares runs this is an
equivalence: where no jump gets into harmful tail bytes, dead seeds are invisible if and only if no
load-acquire has a seed register for its destination.  For two states met in the middle of a run a
second instruction reads what its use set leaves out, a compare-exchange without fetch (r0); slot by
slot the condition on both is exact, and equal r0 removes the second.  Programs that mislead are given
for each.

**Subsumption.** `harness/bpfsubs.h` decides in the VM whether an old verifier state covers a
current one; `scripts/subsume-check.py` is its reference.  Proved: both arc tests and the tnum test
are exact; a run of id checks succeeds exactly when the ids form a one-to-one relation, so the
order of the registers is irrelevant to agreement; agreement is sound for every valuation of the
compared scalars, links and deltas between registers included, and needs the base cross-check; it
needs besides that no printed id is one of the 23 numbers that can be handed out as fresh, each of
which fools both evaluators; the C evaluator with its 64-entry table, insertion sort and linear search
gives the verdict, arm and counters of the Python one with its list and dictionaries, and arm and
counters are those of the first test that fails; and the one-pass log scanner finds the pairs of the
offline parser except in one case, characterised exactly.

**The diff stage.** `crates/pipeline/src/diff.rs` checks each record for contradictions.  Proved:
the intrinsic checks are silent on every state some value satisfies; the union over printed r0
states never fabricates a finding; a store location is reported exactly when no usable claim
reaches it; the two liveness comparators agree, and where they find nothing the kernel's own masks
already make runs equal; no check disturbs another, so a period's report is the sum of what each
check says of each record; how far each of the three disjointness tests falls short of emptiness is
stated exactly; and each kind's counter bounds its findings, but for three kinds, of which it is
stated exactly when a period reports them beside a zero counter.

**Repair and round trips.** Undoing console interleaving is a left inverse of splicing, and the
liveness claim reads back as it was printed.  So does the table, up to its first row with an SCC
number of 100 or more, which both readers refuse.

## Conventions

A 64-bit word is a number below 2^64 with wrap-around written out; bitwise operators are defined on
numbers bit by bit in `Bits`, and `Bits.BitwiseMeaning` ties them to their truth tables.  A register
mask is a set of register numbers.  An object or buffer the source updates in place is a class or an
array here, and its methods are proved against functions on the values they hold; the laws are then
about those functions.  Where the C and the Python text compute the same expression (the arc test, the
tnum test, the packet range read from a prefix), one function stands for both.  `WILD` is a status the
interpreter does not have: it marks accesses whose end passes 2^64, where the C code forms a pointer
outside every region.

## Modules

| files | content |
|---|---|
| Isa, Bits | instruction record, machine words, bitwise operators |
| Dataflow, Liveness, Uses | the fixed point over a flow graph; use and def sets, successors, the analysis; that these say no more than the interpreter does |
| Interp, Machine, Steps, MemSteps | the instruction semantics; the interpreter's state machine; each step and run said a second time, by opcode bits, arithmetic and addresses |
| AluLaws, Division | what its ALU and jump opcodes do, bit by bit and as orders; its division |
| NonInterference, Seeds | why dead registers are invisible, to any two states and to seeded runs, and what breaks without each condition |
| Domains, IdMap | arcs and tnums; the id tables of both evaluators |
| Subsume, InVm, Reference, Refinement, Arms | the register walk; the C and the Python evaluator; one refines the other; arms, counters and verdicts by lists of tests |
| Meaning, Soundness, Clash | what agreement means, order, valuations; which ids are unsafe |
| Scanner, InVmScan, Capture, Grouping | grouping of log rows; the one-pass scanner; the offline parser and runner; what the pairs and totals are |
| Gate, GateSound, Cells | the two liveness comparators; what a silent gate is worth; their numbers as numbers of cells |
| Records, Intrinsic, IntrinsicSound, Checks, Span, Runtime, Least, Store, Pipeline | the diff stage, check by check |
| Period, Exactly, Denominators, Uncounted | its reports as sums; what they say of each sample; counters and findings |
| Chars, Console, Splicing, Stamp, Claim, Table, Rows | console repair; the liveness claim and table; the lines their readers take |

## Model

| member | source | states |
|---|---|---|
| `Dataflow.PathBoundsLiveWithin` | harness/bpflive.h:292-301 | a def-clear path of at most k edges to a use puts the register in the k-step liveness |
| `Dataflow.LiveWithinHasPath` | harness/bpflive.h:292-301 | and conversely k-step liveness yields such a path |
| `Dataflow.LevelGrows` | harness/bpflive.h:292-301 | the instructions live within k steps grow by one a step until they repeat |
| `Dataflow.ShortPathsSuffice` | harness/bpflive.h:292-301 | a register some path reads is read on a path of at most n - 1 edges: the length argument behind the pass bound |
| `Dataflow.LiveIffShort` | harness/bpflive.h:292-301 | liveness over unbounded paths equals liveness within n - 1 edges |
| `Dataflow.LiveStep` | harness/bpflive.h:263-265 | path liveness satisfies the dataflow equation |
| `Dataflow.SettledIsExact` | harness/bpflive.h:292-301 | masks holding only live registers and all found within n sweeps are exact and solve the equation, so sweep n + 1 changes nothing |
| `Dataflow.LeastSolution` | harness/bpflive.h:263-265 | the exact masks lie inside every other solution: they are the least fixed point |
| `Dataflow.Pass` | harness/bpflive.h:293-300 | one in-place backward sweep settles every path one edge longer, adds only live registers, reports no change only at a fixed point and never after n sweeps |
| `Liveness.Run` | harness/bpflive.h:266-302 | accepts exactly the programs of which every slot but the second half of an LD_IMM64 is modelled with targets in range; then bit r of live_before[i] is set iff a path from i reads r before writing it, after at most n + 1 sweeps; on refusal the first bad slot and the reason |
| `Liveness.StableIsExact` | harness/bpflive.h:292-301 | justified masks that solve the equation are the exact ones |
| `Uses.UsesAreRead` | harness/bpflive.h:152-224 | every register an instruction with a meaning in the interpreter is said to use decides, for some offset and immediate, how some step from two states differing in it alone comes out, but for exactly two: the source of a negation and r0 as the source of a compare-exchange |
| `Uses.UndefinedStays` | harness/bpflive.h:152-224 | a step that goes on leaves alone every register the instruction is not said to define, but for the r0 of a compare-exchange without fetch |
| `Uses.CallsRead` | harness/bpflive.h:106-150 | a call is in the model iff its helper is one of the eleven listed or its kfunc registered; it reads r1 to rn for n arguments and clobbers r0 to r5 |
| `Uses.OthersList` | harness/bpflive.h:152-224 | the use and def sets of what the interpreter does not run: byte swaps, load-acquire, store-release, may_goto, LD forms |
| `Uses.InsideTheModel` | harness/bpflive.h:152-224 | no other opcode is refused |
| `Uses.ContinuesAt` | harness/bpflive.h:227-261 | the successors of every opcode, and exactly when there are none to be had |
| `Uses.BothAreReached` | harness/bpflive.h:227-261 | of a conditional jump the interpreter reaches both the target and the next slot, under some immediate |
| `Uses.TailsAreSkipped` | harness/bpflive.h:284-290 | a slot is skipped iff decoding from the start, two slots at an LD_IMM64, passes over it |
| `Uses.AcceptedIff` | harness/bpflive.h:266-291 | a program is accepted iff it has 1 to 8192 slots and each decoded one has known uses and successors |
| `Interp.ResolveExactly` | harness/bpfref.h:87-96 | an access hits a region exactly when it lies inside it, at the right offset, and gets an address outside all regions exactly when its end reaches 2^64 |
| `Interp.StoreFrame` | harness/bpfref.h:352-368 | a store leaves every byte outside its range alone |
| `Interp.LoadAfterStore` | harness/bpfref.h:352-368 | a load of what was stored returns it, cut to the access width, little-endian |
| `Interp.Alu` | harness/bpfref.h:155-265 | a result fits its width: 32-bit results have a zero upper half |
| `Steps.JumpsGo` | harness/bpfref.h:370-411 | for each of the eleven comparisons, at both classes, from a register or an immediate, the next slot is the target iff the relation holds between dst and the operand (unsigned, signed, a common bit; low halves in the 32-bit class) and pc + 1 otherwise, the state unchanged; ja goes to off or imm, exit returns r0, calls and the rest are refused |
| `Steps.ArithmeticLeaves` | harness/bpfref.h:155-265 | an ALU instruction leaves in dst, and nowhere else, the sum, difference, product, truncated quotient or remainder with its zero and overflow cases, bits combined or shifted, the move or the extended move, within the width; unknown operations and offsets are refused |
| `MemSteps.LoadsFetch` | harness/bpfref.h:280-303 | a load from addresses inside a region leaves its bytes in dst, lowest first, with zeros or the sign above them; outside it ends the run with the status for that address |
| `MemSteps.WideImmediate` | harness/bpfref.h:267-278 | LD_IMM64 joins the two immediates' bit patterns and skips a slot |
| `MemSteps.StoresWrite` | harness/bpfref.h:348-368 | a store overwrites exactly the bytes it points at with its operand's low bytes, an immediate with its sign |
| `MemSteps.AtomicsExchange` | harness/bpfref.h:315-346 | an atomic leaves the sum, the combined bits, the operand, or the operand if r0 equals the cell, and hands the old value to r0 with a compare-exchange and to the source with any other fetch; the order of its refusals |
| `MemSteps.BadFieldsAreRefused` | harness/bpfref.h:152 | register fields above 10 are refused |
| `MemSteps.RunEnds` | harness/bpfref.h:138-422 | a run is n steps and then its end: control outside the program, the budget used up inside it, or the instruction that halts |
| `MemSteps.StartsWith` | harness/bpfref.h:112-138 | what each register and byte of memory holds at the start, and the budget |
| `Machine.Cpu.constructor` | harness/bpfref.h:115-125 | registers, stack and map start at zero and the packet at its fixed pattern |
| `Machine.Cpu.Preload` | harness/bpfref.h:125-136 | exactly ctx, the three seeds, the frame pointer and the declared region pointers are set |
| `Machine.Cpu.Load` | harness/bpfref.h:281-287 | reads w bytes little-endian |
| `Machine.Cpu.Store` | harness/bpfref.h:352-368 | overwrites exactly the w bytes in exactly one region |
| `Machine.Cpu.DoAlu` | harness/bpfref.h:155-265 | the ALU case realises the step function: register file, next pc or refusal |
| `Machine.Cpu.DoLd` | harness/bpfref.h:267-278 | LD_IMM64 loads both halves and skips the tail; other LD forms are refused |
| `Machine.Cpu.DoLdx` | harness/bpfref.h:280-303 | loads, zero- or sign-extended, and their faults |
| `Machine.Cpu.DoAtomic` | harness/bpfref.h:315-346 | address first, then the operation; width and address faults before any refusal of the operation |
| `Machine.Cpu.DoAtomicAt` | harness/bpfref.h:319-346 | the read-modify-write, old value to r0 for compare-exchange and to the source for the fetching forms |
| `Machine.Cpu.DoStore` | harness/bpfref.h:348-368 | plain stores of register or immediate |
| `Machine.Cpu.DoJump` | harness/bpfref.h:370-414 | exit, unconditional and conditional jumps at both widths |
| `Machine.Cpu.DoStep` | harness/bpfref.h:143-416 | the dispatch on the instruction class is one step of the semantics |
| `Machine.RunAt2` | harness/bpfref.h:112-422 | the loop with its budget of 2^22 returns status, value and fault place of the specified run |
| `NonInterference.UseSetIsAdequateIff` | harness/bpflive.h:152-224 | the use set of a modelled instruction covers all it observes in the interpreter if and only if it is not a load-acquire or a compare-exchange without fetch |
| `NonInterference.NextIsSuccessor` | harness/bpflive.h:227-261 | the interpreter goes to a successor the analysis lists, or off the end |
| `NonInterference.FixedPointCovers` | harness/bpflive.h:263-265 | at a fixed point a decoded slot uses only what its mask holds, and what is live after it is live before it or defined by it |
| `NonInterference.StepCarriesAgreement` | harness/bpflive.h:266-302 | where what is known (the mask and the registers equal throughout) covers the slot and suffices for it, tail slots run as code included, states agreeing on it halt alike, or step to the same slot agreeing on what is known there |
| `NonInterference.MaskDecidesIff` | harness/bpflive.h:152-302 | slot by slot and for all states, agreement on the mask and on any further registers kept equal is carried on if and only if the slot is no load-acquire with an unknown destination and no compare-exchange without fetch with r0 unknown |
| `NonInterference.LoadAcquireAlwaysMisleads` | harness/bpfref.h:319-343 | in every accepted program a run started at a load-acquire tells apart two states that agree on its mask and on any registers but its destination, under any budget |
| `NonInterference.RunsAlikeIff` | harness/bpfref.h:112-422 | in programs whose plain exchanges have r0 known and where no run gets into a harmful tail slot, all promised runs are equal if and only if every load-acquire has a destination that is kept equal |
| `NonInterference.EqualR0Settles` | harness/bpfref.h:335-341 | for states that agree on r0 besides the mask, plain exchanges need no condition: runs are equal if and only if no load-acquire has a destination other than r0 |
| `NonInterference.DeadRegistersAreInvisible` | harness/bpfref.h:112-422 | two runs from one pc with equal memory and budget and registers agreeing on the mask, r10 and the registers kept end with the same status, value and fault place, where every slot's needs are known and no run gets into a tail slot whose bytes read the unknown or pass it on |
| `NonInterference.LoadAcquireLeaks` | harness/bpfref.h:319-343 | a load-acquire observes its destination, which is resolved as an address before the refusal |
| `NonInterference.CompareExchangeLeaks` | harness/bpfref.h:335-341 | a compare-exchange without fetch observes r0, which its use set leaves out |
| `Seeds.DeadSeedsAreInvisible` | harness/bpfref.h:441-460 | seeds in registers dead at the entry cannot change a seeded run, plain exchanges or not, where no load-acquire has a seed register for its destination and no run gets into a harmful tail |
| `Seeds.SeedsAlikeIff` | harness/bpfref.h:441-460 | where no run gets into a harmful tail: all seeded runs that differ in dead seeds only are equal, from every start, if and only if no load-acquire has r1, r6, r7 or r9 for its destination |
| `Seeds.AcquireBetraysSeed` | harness/bpfref.h:319-343 | at any load-acquire into a seed register two 32-bit seedings differing in that dead register alone end differently |
| `Seeds.LoadAcquireMisleads` | harness/bpflive.h:152-224 | an accepted program and two seedings the mask cannot tell apart whose runs from its first instruction differ, through a load-acquire |
| `Seeds.IntoTailMisleads` | harness/bpflive.h:284-290 | the same through a jump into the second slot of an LD_IMM64 |
| `Seeds.PlainCompareExchangeMisleads` | harness/bpflive.h:152-224 | an accepted program with a compare-exchange without fetch that tells apart two states differing in r0, which is dead; no two seeded runs of it differ |
| `Seeds.QuietExchangeIsHarmless` | harness/bpflive.h:152-224 | an accepted program whose compare-exchange without fetch has r0 dead, and whose runs the masks decide all the same |
| `Seeds.QuietTailIsHarmless` | harness/bpflive.h:284-290 | an accepted program that jumps into tail bytes reading a seed register, and whose runs, seeded or not, are alike all the same |
| `Seeds.SafeTailIsTrusted` | harness/bpflive.h:284-290 | a jump into tail bytes that read nothing and define what is live after them passes the test a caller can make |
| `AluLaws.LogicalShifts` | harness/bpfref.h:170-181 | shifts move every bit by the amount, a register amount modulo the width, and fill with zeros, at both widths |
| `AluLaws.ArithmeticShift` | harness/bpfref.h:182-189 | the arithmetic shift moves every bit down and repeats the sign bit of its width |
| `AluLaws.SignExtends` | harness/bpfref.h:192-211 | MOVSX copies the low bits and repeats their top bit over the width, at both widths |
| `AluLaws.LogicBits` | harness/bpfref.h:167-169 | OR, AND and XOR act on every bit |
| `AluLaws.SubUndoesAdd` | harness/bpfref.h:164-165 | SUB takes back what ADD added, wrap-around included |
| `AluLaws.NegIsOpposite` | harness/bpfref.h:190-191 | a value and its NEG add up to zero, the minimum included |
| `AluLaws.LowHalvesDecide` | harness/bpfref.h:155-265 | no 32-bit ALU instruction looks at an upper half |
| `AluLaws.LowHalvesDecideJumps` | harness/bpfref.h:385-410 | nor does a JMP32 comparison |
| `AluLaws.JumpsAreOrders` | harness/bpfref.h:395-408 | of equal, less and greater exactly one jump is taken and the other three are their opposites, signed and unsigned, at both widths |
| `AluLaws.SignedIsFlipped` | harness/bpfref.h:395-408 | a signed comparison is the unsigned one with the sign bits flipped |
| `Division.DivisionLaw` | harness/bpfref.h:216-257 | quotient times divisor plus remainder is the dividend modulo the width, for all operands, both widths, signed and unsigned, zero divisor and overflow included |
| `Division.RemainderIsSmall` | harness/bpfref.h:216-257 | the remainder is smaller than the divisor and a signed one has the dividend's sign |
| `Division.InstructionsDivide` | harness/bpfref.h:216-257 | DIV and MOD leave that quotient and remainder, signed exactly for offset 1, and other offsets are refused |
| `Division.SignedLaw` | harness/bpfref.h:220-255 | the signed law on raw operands |
| `Division.UnsignedLaw` | harness/bpfref.h:217-241 | the unsigned law holds without a modulus |
| `Bits.BitwiseMeaning` | harness/bpfref.h:163-190 | the bitwise operators act bit by bit as their names say |
| `Domains.ArcSubsetExact` | harness/bpfsubs.h:78-96 | the arc test is true iff every value of the smaller arc lies in the bigger, wrap-around, empty and full circle included, at any modulus |
| `Domains.TnumInMeans` | harness/bpfsubs.h:98-101 | for any two encodings the tnum test is true iff whatever agrees with b's value outside b's mask is a value of a |
| `Domains.TnumInExact` | harness/bpfsubs.h:98-101 | for a well-formed b that is containment of the value sets; for a malformed b, which has no value, containment holds whatever the test says |
| `Domains.WellFormedIffInhabited` | scripts/subsume-check.py:90-94 | a tnum has a value iff no bit is both known and open |
| `Domains.MalformedTnumIsRefused` | scripts/subsume-check.py:90-94 | and it can say no: an empty b that is refused |
| `IdMap.CIdMap.CheckIds` | harness/bpfsubs.h:55-66 | the C table scan and append, with its refusal when full, is the specified table step |
| `IdMap.CIdMap.CheckScalarIds` | harness/bpfsubs.h:68-75 | zero ids, fresh numbers and the base cross-check in C |
| `IdMap.PyIdMap.CheckIds` | scripts/subsume-check.py:108-119 | the Python list does the same table step, unbounded |
| `IdMap.PyIdMap.CheckScalarIds` | scripts/subsume-check.py:121-135 | and the same scalar step |
| `IdMap.IdsMatchMeans` | harness/bpfsubs.h:55-66 | a call succeeds iff the table with the new pair is one-to-one, and then holds that pair |
| `IdMap.CheckAllMeans` | scripts/subsume-check.py:108-119 | a sequence of calls succeeds iff zeros meet zeros and the nonzero pairs form a one-to-one relation, whatever the order |
| `InVm.SortRows` | harness/bpfsubs.h:138-145 | the insertion sort in place yields the stable sorting by key |
| `InVm.InsertRow` | harness/bpfsubs.h:141-145 | one round inserts row i into the sorted front and leaves the rest |
| `InVm.PrefixBytesEqual` | harness/bpfsubs.h:161 | memcmp over zero-padded buffers equals comparing the strings' first n characters |
| `InVm.FindRow` | harness/bpfsubs.h:123-127 | the first row with the key |
| `InVm.CPointer` | harness/bpfsubs.h:155-186 | the pointer arms with their id checks give the specified arm and table |
| `InVm.CRegister` | harness/bpfsubs.h:147-197 | one register: type, pointer, short-circuit, flag, delta, id, range and tnum arms in order |
| `InVm.SubsEval` | harness/bpfsubs.h:129-200 | verdict, breaking arm and counters are those of the walk over sorted rows; nontrivial counts agreements that ran the range test |
| `Arms.ArmIsFirstFailing` | harness/bpfsubs.h:147-197 | a register breaks at the first of its type's tests that fails, containment standing for the range and tnum tests, and passes when none does |
| `Arms.CountersMove` | harness/bpfsubs.h:155-194 | which counter a register moves: the pointer one when both prefixes are there, the third when an imprecise scalar is let through in an inexact comparison, the scalar one when flags, delta and ids pass |
| `Arms.WalkStops` | harness/bpfsubs.h:147-199 | a walk agrees at the end, is undecided at the first register without counterpart, and breaks at the first that fails |
| `Arms.SidesDecide` | harness/bpfsubs.h:134-136 | a pair with an empty side is undecided, any other is the walk from an empty table numbering from 2^20 |
| `Arms.OneScalarPair` | harness/bpfsubs.h:188-196 | two scalars without ids agree iff the old one is imprecise and the comparison not exact, or all three containments hold; else they break at the first that does not |
| `Arms.RangeReads` | harness/bpfsubs.h:109-118 | a packet pointer's range is the signed little-endian number in bytes 8 to 11 of its prefix |
| `Arms.FlagsAreTopBits` | harness/bpfsubs.h:30 | the flags of an id are its two top bits |
| `Arms.FullTable` | harness/bpfsubs.h:63 | the C table answers as the unbounded one up to 64 pairs; then it answers for those and refuses new ones |
| `Reference.SortedItems` | scripts/subsume-check.py:298 | each dictionary entry once, in frame then register order |
| `Reference.PyPointer` | scripts/subsume-check.py:321-370 | the Python pointer arms give the specified arm and table |
| `Reference.PyRegister` | scripts/subsume-check.py:298-402 | one register of the Python walk |
| `Reference.WalkItems` | scripts/subsume-check.py:298-402 | the loop stops at the first break or missing counterpart with the walk's verdict |
| `Reference.Evaluate` | scripts/subsume-check.py:280-420 | the verdict of the walk over the sorted items, and each terminal counter moved by exactly one |
| `Refinement.WalkSameInBoth` | harness/bpfsubs.h:53-75 | with room for two entries a register the bounded table never fills, so both dialects walk alike |
| `Refinement.SortEnumerates` | harness/bpfsubs.h:138-145 | sorting by numeric key lists the dictionary in the Python order |
| `Refinement.EnumerationIsUnique` | scripts/subsume-check.py:298 | a dictionary has one such listing |
| `Refinement.FindIsLookup` | harness/bpfsubs.h:123-127 | linear search by numeric key is dictionary lookup |
| `Refinement.InVmRefinesReference` | harness/bpfsubs.h:129-200 | on every cnum-era pair of at most 24 rows a side the C and Python evaluators give the same verdict, arm and counters |
| `Meaning.StepMeans` | scripts/subsume-check.py:298-402 | one register passes iff its local tests hold and its id pairs keep the table one-to-one |
| `Meaning.WalkMeans` | scripts/subsume-check.py:298-402 | the walk agrees iff all local tests hold and all id pairs together are one-to-one |
| `Meaning.NumberingKeepsOneToOne` | scripts/subsume-check.py:127-129 | for ids of any size, where no current register carries a number handed out, the numbers may be read as fresh symbols |
| `Meaning.AgreementMeans` | scripts/subsume-check.py:280-420 | for ids of any size, where no current register carries a number handed out: agreement iff every register passes its tests, written out by type and with containment of value sets, and the ids are one-to-one; compared are the scalars that are precise, or all in an exact comparison |
| `Meaning.AgreementIsOrderFree` | harness/bpfsubs.h:138-145 | under the same condition any order of the registers gives the same answer to whether the pair agrees |
| `Soundness.HoldsCarriesOver` | harness/bpfsubs.h:195-196 | a value in the current arcs and tnum is in the old ones |
| `Soundness.ConsistentIsSound` | harness/bpfsubs.h:188-196 | a consistent pair transfers every valuation, with one base per id and value = base or base plus delta |
| `Soundness.AgreementIsSound` | harness/bpfsubs.h:129-200 | if the C evaluator agrees and no current register carries a number handed out, every valuation the current state admits on the compared scalars is admitted by the old state |
| `Clash.ClashExactly` | harness/bpfsubs.h:68-75 | a base id can make an agreeing pair of at most 24 rows a side unsound, every other id being clear, if and only if it is one of 2^20 + 1 to 2^20 + 23 |
| `Clash.WitnessIsUnsound` | harness/bpfsubs.h:68-75 | the pair for the k-th of them: k fresh registers, the last sharing its old id with one that carries that very number |
| `Soundness.BaseCrossCheckIsNeeded` | scripts/subsume-check.py:494-501 | without the cross-check the repository's vector passes although the current state admits a valuation the old one does not; with it the vector is refused |
| `Scanner.ScannersAgreeIff` | harness/bpfsubs.h:203-277 | one-pass scanner and offline parser build the same pairs iff no current row ahead of the first pair has swallowed a prefix still pending for an old one |
| `Grouping.PrefixesAttach` | harness/bpfsubs.h:212-242 | a row carries the last prefix line since the row before it, and no other |
| `Grouping.GroupsAre` | harness/bpfsubs.h:243-259 | the pairs are the rows from the first old one on, cut wherever an old row follows a current one, each under its opening row's instruction and exactness |
| `InVmScan.Scan.OpenPair` | harness/bpfsubs.h:243-259 | an old row where no old run is being read closes the open pair and opens one |
| `InVmScan.Scan.JoinPair` | harness/bpfsubs.h:257-259 | any other row joins its side, at most 24 kept a side |
| `InVmScan.Scan.TakeRow` | harness/bpfsubs.h:243-259 | a row does the one or the other, as the grouping says |
| `InVmScan.Scan.TakeLine` | harness/bpfsubs.h:212-264 | one line: prefix, row, unreadable row or other, and the two line counters |
| `InVmScan.Scan.CloseOpenPair` | harness/bpfsubs.h:267-276 | the last pair is judged at the end of the log |
| `InVmScan.ClosePair` | harness/bpfsubs.h:244-254 | closing a pair adds its verdict and its three comparison counts to the totals and keeps the first disagreement |
| `InVmScan.CompareLog` | harness/bpfsubs.h:203-277 | every counter, the comparison counts included, is the total over the grouped pairs, and rows seen are rows read plus rows unsupported |
| `InVmScan.WalkIgnoresTally` | harness/bpfsubs.h:188-194 | a walk's verdict does not depend on where the counters stand, and it adds the same to all three |
| `InVmScan.TotalsPartition` | harness/bpfsubs.h:41-50 | pairs = agree + disagree + unmodelled, and nontrivial is part of agree |
| `Grouping.TotalsCount` | harness/bpfsubs.h:41-50 | each counter is the number of pairs with that verdict, nontrivial the agreements in which a scalar was compared |
| `Grouping.FirstIsFirst` | harness/bpfsubs.h:247-250 | the first disagreement is the place and arm of the first pair that breaks |
| `Grouping.JudgedOnFirst` | harness/bpfsubs.h:257-259 | a pair is judged on the first 24 rows of each side |
| `Grouping.LinesCount` | harness/bpfsubs.h:223-263 | the line counters are numbers of lines |
| `Capture.PutRow` | scripts/subsume-check.py:230-241 | one row into the list of pairs |
| `Capture.ParseLines` | scripts/subsume-check.py:177-242 | the parser's pairs are the grouping's, each side as a dictionary |
| `Capture.RunPairs` | scripts/subsume-check.py:423-431 | every pair is evaluated with a fresh table and lands in one counter, and the candidates returned are the pairs that broke, in order |
| `Capture.BrokenAreDisagreements` | scripts/subsume-check.py:423-431 | as many candidates as disagreements |
| `Capture.Check` | scripts/subsume-check.py:423-431 | a whole capture parsed and run |
| `Capture.ToolsAgree` | harness/bpfsubs.h:203-277 | on one log with no stale prefix the two tools judge every pair alike and run the same number of each comparison on it |
| `Gate.CompareTable` | harness/bpflive.h:384-405 | rows paired, cells checked, overreaching cells counted, the first of them kept, and both masks of its row |
| `Gate.FirstMasksMean` | harness/bpflive.h:397-400 | the masks kept are those of a row of the first cell's instruction, the register live in ours and dead in the kernel's |
| `Gate.SilentRowCovers` | harness/bpflive.h:388-401 | a table without a finding leaves out of no row a register the claim has live there |
| `Gate.CheckLivenessGate` | crates/pipeline/src/diff.rs:1749-1800 | the findings are the overreaching cells in order and the counter the cells checked |
| `Gate.ReportedExactly` | crates/pipeline/src/diff.rs:1765-1798 | a cell is reported iff a row within the claim says dead where the claim says live |
| `Gate.OverreachIsChecked` | crates/pipeline/src/diff.rs:1775-1780 | no more findings than checked cells |
| `Gate.BothComparators` | harness/bpflive.h:384-405 | both comparators give the same checked count, number of findings and first cell |
| `Cells.CellsCount` | harness/bpflive.h:384-405 | the checked and the overreaching counts are numbers of cells, row by register |
| `Cells.PairedCounts` | harness/bpflive.h:388-390 | the paired rows are those within the claim |
| `Cells.FirstIsFirst` | harness/bpflive.h:397-400 | the cell and the masks kept are those of the first row with an overreaching register, and its lowest |
| `Exactly.OverreachExactly` | crates/pipeline/src/diff.rs:1749-1800 | a record with a claim reports a register iff the claim has it live and some row of that instruction has it dead, and counts the claim's live cells |
| `GateSound.SilentGateIsSound` | crates/pipeline/src/diff.rs:1749-1800 | where the gate finds nothing, two states agreeing on the kernel's own mask for a slot run alike from it: what the kernel compared was enough |
| `Intrinsic.CheckLogical` | crates/pipeline/src/diff.rs:459-617 | the 64-bit checks of one register push and count as specified |
| `Intrinsic.CheckSubregister` | crates/pipeline/src/diff.rs:1324-1425 | the 32-bit checks of one register |
| `Intrinsic.CheckEvolution` | crates/pipeline/src/diff.rs:459-460 | every register of every snapshot in order |
| `Checks.LogicalAdds` | crates/pipeline/src/diff.rs:450-617 | the findings of the 64-bit checks of one register, in order, and what they add to each counter, as conditions on its fields |
| `Checks.SubAdds` | crates/pipeline/src/diff.rs:1324-1425 | the same of the 32-bit checks |
| `IntrinsicSound.NoTestFires` | crates/pipeline/src/diff.rs:450-617 | a value meeting tnum and all four ranges makes every intrinsic test false |
| `IntrinsicSound.SatisfiableIsSilent` | crates/pipeline/src/diff.rs:450-617 | a register state some value satisfies adds no finding but the precision one |
| `IntrinsicSound.SatisfiableEvolutionIsSilent` | crates/pipeline/src/diff.rs:1324-1425 | nor does a whole record of them, in either check |
| `IntrinsicSound.LogicalMentions` | crates/pipeline/src/diff.rs:450-617 | exactly which kinds the 64-bit checks add, and when |
| `IntrinsicSound.SubMentions` | crates/pipeline/src/diff.rs:1324-1425 | exactly which kinds the 32-bit checks add, and when |
| `IntrinsicSound.MalformedExactly` | crates/pipeline/src/diff.rs:474-488 | tnum_malformed is reported iff the tnum has no value |
| `IntrinsicSound.SpanTestCanMiss` | crates/pipeline/src/diff.rs:1461-1463 | the span test is one-sided: an empty intersection it does not report |
| `Span.CeilingHits` | crates/pipeline/src/diff.rs:1461-1463 | the ceiling computed for a bound is a value of the tnum at or above it |
| `Span.CeilingIsLeast` | crates/pipeline/src/diff.rs:1461-1463 | and the least such |
| `Span.SpanTestExactly` | crates/pipeline/src/diff.rs:594-614 | on a well-formed tnum and an ordered range the span test never fires where a value is shared, and misses an empty intersection if and only if the span reaches over the range while the least tnum value from its lower end on lies past its upper end |
| `Span.Tnum32TestExactly` | crates/pipeline/src/diff.rs:1382-1396 | the 32-bit tnum test never fires where some value of the tnum has its low half in the range, and misses such an empty intersection if and only if the low half of the tnum straddles the range |
| `Span.LowValueExtends` | crates/pipeline/src/diff.rs:1382-1396 | every value of a tnum's low half is the low half of one of its values |
| `Span.ViewsTestExactly` | crates/pipeline/src/diff.rs:1398-1423 | the two views are reported iff no value fits both, but for exactly one family: a 64-bit range over one block boundary with the 32-bit range between its two ends |
| `Runtime.CollectClaims` | crates/pipeline/src/diff.rs:1215-1254 | the union over all printed r0 scalar states, a missing 32-bit view being the full range |
| `Least.UnionIsLeast` | crates/pipeline/src/diff.rs:1215-1254 | there is a claim iff some r0 scalar state was printed, and then each of the four bounds is one of those states' own, an absent 32-bit view being the full range |
| `Runtime.CheckRuntimeGroundTruth` | crates/pipeline/src/diff.rs:1197-1284 | the check is the specified judgement of the return samples |
| `Exactly.BoundViolationExactly` | crates/pipeline/src/diff.rs:1197-1284 | a record reports sample i iff it is not declared multi-path, some r0 scalar state was printed, the run returned, and the low half of its value is under every printed lower bound or over every upper one, in 32 bits, or in 64 where all upper bounds fit a word; every return is counted |
| `Runtime.EvolutionCovered` | crates/pipeline/src/diff.rs:1220-1254 | the union covers every printed r0 state |
| `Runtime.UnionNeverFabricates` | crates/pipeline/src/diff.rs:1197-1284 | if each return value is the low half of a value some printed r0 state admits, no runtime_bound_violation is reported, for any snapshots |
| `Exactly.IntentViolationExactly` | crates/pipeline/src/diff.rs:1676-1718 | a record reports sample i iff the program was accepted, the run observed a return value, and the result the sample is held to, its own before the record's, is another; the counter is the number of samples that observed a value some claim speaks of |
| `Exactly.OobWriteExactly` | crates/pipeline/src/diff.rs:1129-1185 | a record reports sample i iff its store ran and did not land whole, the base below the value or the run shorter than its size; the counter is the number of stores that ran |
| `Store.CheckStoreLocation` | crates/pipeline/src/diff.rs:893-986 | claims at the instruction, filtered, against every non-negative landing |
| `Store.AdmitsIsReaching` | crates/pipeline/src/diff.rs:1118-1127 | a claim admits a landing iff some variable part in its interval and tnum reaches it, below 2^63 |
| `Store.ReportedExactly` | crates/pipeline/src/diff.rs:893-986 | sample i is reported iff its store landed at a non-negative offset, some pointer with a window is claimed for the base register at the instruction, and none of those can land there with a variable part below 2^63; where one is claimed every landing is counted |
| `Store.ReportedIffNoClaimReaches` | crates/pipeline/src/diff.rs:893-986 | with nothing filtered and variable parts below 2^63: iff no claim at the instruction reaches it |
| `Store.FilteringCanFabricate` | crates/pipeline/src/diff.rs:921-922 | with a claim filtered a landing it reaches can be reported |
| `Exactly.JitDivergencesExactly` | crates/pipeline/src/diff.rs:618-636 | over a period there are as many divergence findings as records whose JIT and interpreter runs differ, and the counter is the number of records compared |
| `Pipeline.CheckLiveness` | crates/pipeline/src/diff.rs:1749-1800 | the gate's cells and count enter the report only with a claim |
| `Pipeline.CheckPrune` | crates/pipeline/src/diff.rs:1016-1108 | the invariant check, then the directional verdict comparison |
| `Pipeline.CheckRecord` | crates/pipeline/src/diff.rs:359-391 | all checks of one record in their order |
| `Pipeline.Run` | crates/pipeline/src/diff.rs:337-406 | a period's findings and counters from an empty start |
| `Period.CheckAdds` | crates/pipeline/src/diff.rs:359-391 | every check adds to what stands just what it says of the record alone |
| `Period.CheckWithin` | crates/pipeline/src/diff.rs:814-836 | a check emits only kinds and counters of its own |
| `Period.RecordAdds` | crates/pipeline/src/diff.rs:359-391 | so a record adds to each kind what that kind's check finds in it, in order, and to each counter what its users count, the order counter having two |
| `Period.RunIsTheSum` | crates/pipeline/src/diff.rs:337-406 | over a period each kind's findings are those of its own check record by record, and each counter the sum of what its users count: no check disturbs another |
| `Period.RecordReports` | crates/pipeline/src/diff.rs:359-391 | a finding is in a record's report iff its kind's check puts it there |
| `Denominators.DenominatorsBoundFindings` | crates/pipeline/src/diff.rs:814-836 | over any period whose 32-bit fields fit, each kind but tnum_bounds_inconsistent has at most as many findings as its registered counter says, twice that for const_tnum_range_mismatch, and none when it is zero |
| `Denominators.LogicalPays` | crates/pipeline/src/diff.rs:450-617 | the 64-bit checks add no finding their counters do not pay for |
| `Denominators.SubPays` | crates/pipeline/src/diff.rs:1324-1425 | nor do the 32-bit checks, where an inverted range is counted |
| `Denominators.RecordPays` | crates/pipeline/src/diff.rs:359-391 | nor does a whole record |
| `Denominators.LogicalUncountedExactly` | crates/pipeline/src/diff.rs:595-617 | a 64-bit finding goes uncounted iff the spans are disjoint on a state neither gate admits |
| `Denominators.SubUncountedExactly` | crates/pipeline/src/diff.rs:846-848 | a 32-bit finding goes uncounted iff a range is inverted and neither has both ends inside its extremes |
| `Uncounted.UncountedExactly` | crates/pipeline/src/diff.rs:814-836 | over any period at all, a kind is reported beside a zero counter iff it is tnum_bounds_inconsistent or a 32-bit inversion, some printed state calls for it, and no printed state lets its counter move |
| `Uncounted.RunReports` | crates/pipeline/src/diff.rs:337-406 | a kind of the register checks is reported over a period iff some printed state calls for it |
| `Uncounted.RunCountsRegisters` | crates/pipeline/src/diff.rs:814-836 | and its counter moves iff some printed state lets a comparison be made |
| `Denominators.PruneVerdicts` | crates/pipeline/src/diff.rs:1016-1107 | what a pair adds to each of its kinds and counters: soundness iff the flag made more states and accepts what the default rejects; the other way a disagreement, or an artefact iff the reason is one of three; the invariant finding iff an accepted program gave `efault` |
| `Console.ConsoleTimestampAt` | crates/pipeline/src/verifier_log.rs:447-471 | the index of the first timestamp in the line, or none when there is none |
| `Stamp.SixDigits` | crates/pipeline/src/verifier_log.rs:447-471 | of `[`, any spaces, any nonempty digits, `.`, any digits, `]`, anything, the scan finds a timestamp at the start iff there are six digits after the point |
| `Stamp.ScanFinds` | crates/pipeline/src/verifier_log.rs:447-471 | its answer is the first place where a line of that form starts, and none when there is none |
| `Console.JoinContinuation` | crates/pipeline/src/verifier_log.rs:507-525 | the rest of a split line across console lines and further splits, and where it ends |
| `Console.RepairConsoleInterleaving` | crates/pipeline/src/verifier_log.rs:491-537 | the loop computes the specified repair and count, the early exit included |
| `Splicing.NoStraddling` | crates/pipeline/src/verifier_log.rs:444-471 | no timestamp forms across the seam of a line's prefix and a console line |
| `Splicing.SeamIsFirst` | crates/pipeline/src/verifier_log.rs:447-471 | so the first timestamp of a spliced line is at the seam |
| `Splicing.ContinueCollects` | crates/pipeline/src/verifier_log.rs:507-525 | any number of further splits and console lines is collected into the rest of the text |
| `Splicing.RepairUndoesSplicing` | crates/pipeline/src/verifier_log.rs:491-537 | repairing a timestamp-free log spliced any number of times, console lines anywhere, returns its lines and the number that were split |
| `Stamp.RepairRestores` | crates/pipeline/src/verifier_log.rs:491-537 | the same for console lines of the printed form and log lines that hold none |
| `Stamp.CutShort` | crates/pipeline/src/verifier_log.rs:507-525 | a split line whose rest never comes keeps its front, and counts |
| `Claim.PrintClaim` | harness/bpflive.h:308-318 | three hex digits an instruction |
| `Claim.ParseClaim` | crates/pipeline/src/verifier_log.rs:2194-2218 | a claim of exactly n masks, or none when short, ragged or unreadable |
| `Claim.ClaimRoundTrip` | crates/pipeline/src/verifier_log.rs:2194-2218 | the printed claim reads back as the analysis masks, for every n |
| `Claim.ClaimReadsIff` | crates/pipeline/src/verifier_log.rs:2194-2218 | a text is read as a claim of n masks iff it is n times three hex digits, or a plus sign and two, and bit r of a number says r is live, for r below ten |
| `Claim.ClaimIsLowerHex` | harness/bpflive.h:308-318 | the claim is printed in lower-case digits |
| `Claim.LiveBitExactly` | scripts/subsume-check.py:272-277 | on hex text: no answer outside frame 0, r0 to r9 and the count, an error where no digit is left, else the bit |
| `Claim.LiveBitReadsTheClaim` | scripts/subsume-check.py:272-277 | the Python reader finds the same bits in it |
| `Claim.LiveBitRaisesIff` | scripts/subsume-check.py:272-277 | on a claim shorter than its stated count it raises exactly for the instructions no digit is left for |
| `Table.ParseRowC` | harness/bpflive.h:344-368 | index from the digits before the colon, mask from the ten columns |
| `Table.ParseRowRust` | crates/pipeline/src/verifier_log.rs:2253-2274 | index from the last token before the colon, mask from the ten columns |
| `Rows.CTakesExactly` | harness/bpflive.h:344-368 | the C reader takes exactly the lines made of a space and no colon up to a non-digit, digits, `: `, ten dots or digits and a space, with the number and the mask of the columns |
| `Rows.RustTakesExactly` | crates/pipeline/src/verifier_log.rs:2253-2274 | the Rust reader takes exactly the lines that start with a space and have, ahead of their first colon, a `u32` as last token between Unicode white space, and behind it a space and ten dots or digits |
| `Table.LeadStarts` | harness/bpflive.h:338-343 | a printed row starts with a space iff it has no SCC number or one below 100 |
| `Table.RowReadsBackIff` | harness/bpflive.h:344-368 | for every SCC number, index and mask, each reader recovers index and mask from the printed row iff there is no SCC number or one below 100 (and, in Rust, the index fits a `u32`), and otherwise refuses the row |
| `Table.SccHundredIsLost` | crates/pipeline/src/verifier_log.rs:2253-2256 | the row of SCC 100 starts with a digit and both readers refuse it |
| `Table.ReadersAgreeIff` | crates/pipeline/src/verifier_log.rs:2253-2274 | on any line the two readers say the same iff the frame both ask for is missing; or the index is bare or has one plus sign, fits a `u32`, and an eleventh space ends the columns; or the C reader lacks digits or that space and the last token is no `u32` either |
| `Table.TableReads` | crates/pipeline/src/verifier_log.rs:2231-2246 | each reader takes a printed table off a log entry for entry up to its first row with an SCC number of 100 or more, and stops there |
| `Table.TableReadsBackIff` | crates/pipeline/src/verifier_log.rs:2231-2246 | the whole table is read iff every SCC number in it is below 100 |

## Code against comment or expectation

- `harness/bpfref.h` resolves the address of an atomic before it looks at the operation, and a
  compare-exchange reads r0 with or without fetch; `harness/bpflive.h` lists neither.  The use sets
  follow the analysis, the steps the interpreter, and `Seeds` shows the consequence.  Seeded runs feel
  only the first: every entry zeroes r0, and registers no seed reaches stay equal.
- `harness/bpfsubs.h:68-75` and `scripts/subsume-check.py:121-135` number absent current ids from
  2^20 + 1 on, and read ids of 32 bits: a register printed with such a number is taken for the fresh one.
  With old ids 0xA on r2 and r3 and current ids 0 and 0x100001 both agree, and the current side admits
  r2 = 0 with r3 = 5 (`Clash.ClashExactly`, `Clash.WitnessIsUnsound`).
- `harness/bpflive.h:338-343` and `crates/pipeline/src/verifier_log.rs:2175-2181` know of an SCC number
  printed `%3d ` ahead of the index, and both readers ask for a leading space.  From SCC 100 on there is
  none: the row is refused and, the table being one block, every row after it is lost
  (`Table.RowReadsBackIff`, `Table.TableReads`).
- `scripts/subsume-check.py:272-277` trusts the stated count of a claim; on a shorter one it raises.
- `harness/bpflive.h:167` reads the source of every ALU instruction with the register bit, and a negation
  ignores it; `harness/bpflive.h:186` has a compare-exchange read r0, and one whose source is r0 stores the
  old value whatever r0 is (`Uses.UsesAreRead`).
- Address resolution goes wrong when `addr + size` reaches 2^64, the last byte included, not only
  past it.
- `harness/bpfsubs.h:120` says it mirrors `evaluate` exactly; a break counts as nontrivial in the
  Python `nontrivial_legacy` and not in C.  The counter that corresponds is `agree_nontrivial`.
- `crates/pipeline/src/diff.rs` names a counter for `tnum_bounds_inconsistent`, whose check runs
  ungated; it can be reported with the counter at zero, and so can an inverted 32-bit range outside
  its width (`Uncounted.UncountedExactly`).
- `crates/pipeline/src/diff.rs:1398-1402` says that across a block boundary the 64-bit endpoints constrain
  nothing.  Across a single boundary they do: a 32-bit range between the two ends fits no value and is
  not reported (`Span.ViewsTestExactly`).
- `crates/pipeline/src/diff.rs:898-904` calls the union over claims one that can only miss; the
  filters drop claims from it, and then it can report a landing one of them reaches.

## Left out

- `NonInterference.DeadRegistersAreInvisible`: the converse over whole runs is proved for load-acquires (`NonInterference.RunsAlikeIff`).  For the other two conditions it is false: what a plain exchange leaves in memory may never be read again (`Seeds.QuietExchangeIsHarmless`), and tail bytes that read a register need not depend on it (`Seeds.QuietTailIsHarmless`).  Slot by slot, memory included, `NonInterference.MaskDecidesIff` is exact for every decoded slot.
- `Seeds.SeedsAlikeIff`: an equivalence where no run gets into a harmful tail; that condition is sufficient and not necessary (`Seeds.QuietTailIsHarmless`).
- `Meaning.AgreementIsOrderFree`: about agreement only; which arm breaks first does depend on the order.
- `Uses.UsesAreRead`: for instructions whose two registers differ; with one register for both, `r ^= r` and `r -= r` read nothing.  Calls, byte swaps, load-acquire and store-release, which the interpreter refuses, are covered by `Uses.CallsRead` and `Uses.OthersList`.
- `Refinement.InVmRefinesReference`: at most 24 rows a side, unique keys and register numbers below 16, as the kernel prints them.
- `Soundness.AgreementIsSound`: excludes pairs in which a current register carries a number that is handed out; `Clash.ClashExactly` shows that none of these numbers could be let in, though a single pair with one may still be sound.
- `Reference.PyRegister`: does not count `other_type`, `id_checks` and the live-bit statistics, which decide nothing.
- `Reference.WalkItems`: leaves out the same statistics.
- `Reference.Evaluate`: leaves out the reasons table and the pair counters on pointer ids and live claims.
- `Capture.ParseLines`: does not attach a LIVENESS claim to its pairs, and reads rows of the cnum era only.
- `Capture.Check`: inherits that.
- `Pipeline.CheckRecord`: runs the nine checks above, not the helper-prototype, helper-argument and documented-behaviour ones.
- `Pipeline.Run`: likewise, and without the counters of those checks.
- `Table.ReadersAgreeIff`: lines are sequences of Unicode characters without NUL, which ends a C string.
- `Table.RowReadsBackIff`: the C reader's index is unbounded here and an `int` there.
- `Denominators.DenominatorsBoundFindings`: 32-bit fields in range; outside it `Uncounted.UncountedExactly` applies.
- Immediate shift amounts past the width are undefined in C; the model shifts the mathematical value.
- Program counters beyond the C `int` range, which a far JMP32 displacement can form.
- The kfunc table is a map with arities up to five; registration order and its 32 slots are not modelled.
- Text extraction: finding the claim or table header in a log, sscanf and regular expressions for prune rows, the 512-byte line limit and ill-formed prefix lines; rows arrive parsed.
- Prefix bytes are an opaque string shared by both tools, long enough for the packet range; a compare length beyond the buffer is not modelled.
- The 2021, 2023 and minmax eras of `scripts/subsume-check.py`.
- Findings are a kind and a place; their texts, record numbers and sources, and the reporting window of a store finding, are not modelled.
- Overflow of `ptr_off + insn_off` in a 64-bit signed integer; the base is exact here.
- Helper-prototype, helper-argument and documented-behaviour checks, evidence notes and report assembly: joins and text.
- Kernel interaction, orchestration, virtual machines, contracts, scores and the Python analysis package.
