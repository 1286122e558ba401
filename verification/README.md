# Stack: a verified model

Stack is a small language whose compiler emits bytecode with backpatched labels, optimizes and
links it, stores it in a package file and runs it on a virtual machine with two stacks in one
array, reference counts and a first-fit heap. The same repository carries the block ciphers and
the streaming hash its runtime offers. This project models those parts in Dafny, in the form the
C code has (classes over arrays, loops that rewrite buffers in place), and proves what they are for.

| part | files | main results |
|---|---|---|
| code generator | `Assembly`, `CodeGenerator` | one-pass backpatching equals two-pass assembly after any interleaving of jumps and labels |
| L1 optimizer | `Program`, `Threading`, `Chains`, `Compaction`, `Scan`, `L1Optimizer`, `L1Semantics` | passes 1 and 2 keep the meaning of every run; exactly when each pass ends, and when every jump leads right |
| linker and constant pool | `ConstantPool`, `JumpTables`, `Linker`, `LinkedRuns`, `CompiledRuns` | every run of the linked image is, step by step, the run of code and pool before linking; of optimized code, the run of the original with INS_JMP steps put in |
| virtual machine | `StackMachine`, `VirtualMachine`, `InstructionLaws`, `ControlLaws`, `TwoMachines` | reference counts are exact after every instruction; calls come back with the caller's frame untouched at any depth; a variable reads as what was stored last; the machines over bytes and over decoded instructions stay in step |
| heap | `HeapChain`, `Midgard`, `HeapRuns`, `Collector` | over all runs disjoint blocks, conservation and untouched payloads; first fit; a whole collection keeps what it does not free, and every reference to it; exactly what it frees |
| package format | `Package`, `PackageEncoder`, `PackageDecoder`, `PackageRoundTrip` | decoding an encoded package returns its classes, methods and code; exactly when it comes back whole |
| ciphers | `BlockCiphers`, `BitStrings`, `Des*`, `Aes*`, `Cbc`, `CipherRegistry` | every registered cipher inverts for every key and block; chained or not, decryption restores a file; the laws of FIPS 46-3, FIPS 197 and NIST SP 800-38A that say which cipher and which mode it is |
| hash | `Md5` | however a message is split, the transform runs over the blocks of the padded message |

`Bytes`, `Wrappers`, `Isa` and `Layout` hold what the parts share. `dfyconfig.toml` lists the project, so
`dafny verify dfyconfig.toml` checks all of it.

Functions marked `ghost` and the parameters `p`, `u`, `i`, `k`, `cs` of methods that carry that
mark are for proofs only: they say which program, unit, instruction or class the bytes in a buffer
are the image of.

## Where the code does not do what it is for

Each of these keeps the code as it is, says exactly when the code is right, and names an input or a
whole family of inputs on which it is not.

- Pass 1 of the optimizer ends if and only if every chain of INS_JMP leads to an instruction that is no
  INS_JMP (`Chains.PassOneEnds`, for one branch `Chains.InnerLoopEnds`); on `JMP 0` at address 0 it does not
  (`Chains.SelfJump`).
- Pass 2 of the optimizer ends with every surviving jump leading to the new place of its target if and
  only if every such jump is `Compaction.RelocatedRight` (`Scan.LeadsExactly`). The scan compares an
  original target with a new address, so a backward target between the two is left alone although bytes
  in front of it may be gone; `Scan.MisledProgram` is a program whose jump ends up leading elsewhere.
- A backward jump to exactly the new address of the jump meets none of the three guards of the scan. Its
  turn changes neither the buffer nor the address nor the records (`Scan.StalledTurn`), so the loop ends
  if and only if no jump stalls (`Scan.EndsExactly`); on `Scan.StallingProgram` it does not. An opcode the
  switch does not list stops it for ever as well (`Scan.Scan.UnlistedRepeats`).
- A conditional jump, call or function reference to its own successor is deleted with its effect on
  the data. Only a deleted INS_JMP goes unseen (`L1Semantics.OnlyDeletedJmpIsUnseen`,
  `L1Semantics.DeletedJmpIsUnseen`); `L1Semantics.DeletedBranchLosesAPop` is a whole program.
- The reference count shares a byte with the object's magic. Both are intact if and only if at most
  15 slots hold the object (`StackMachine.NibblesAreIntact`); `StackMachine.SixteenHolders` runs from the
  machine's start to one where neither is.
- The collector compares the shared byte with 0x8F, where an object without holders has 0x80. Of the objects
  that slots hold it frees exactly those with fifteen holders, and an object without holders stays
  (`Collector.TakesFifteenHolders`); `Collector.FifteenHolders` runs from the machine's start to such an object, and
  `Collector.HeldIsFreed` is a heap in which it goes. The last block that a collection visits always stays.
- Releasing the address of the sentinel cuts it off, and the buffer no longer holds the chain; on every
  other address `Midgard.Heap.Free` keeps one. Unless blocks are shifted, a program that releases only
  what it was handed out never names that address (`HeapChain.GotIsNotSentinel`).
- The 16-bit counter of `cr_do_crypt` never passes any length above 65504 (`Cbc.CounterNeverPasses`);
  for every length from 1 to 65504 `Cbc.Crypto.Crypt` ends.
- The package decoder loads a method's offset without swapping its bytes. The offset comes back right if
  and only if its two bytes are equal, and 1 comes back as 256 (`PackageRoundTrip.OffsetComesBack`).
- The package decoder gives up on a class at the first method whose name is empty. A class comes back
  whole if and only if it has no such method (`PackageRoundTrip.ClassRoundTrip`);
  `PackageRoundTrip.NamelessMethod` is a class that comes back without any.
- A package comes back whole if and only if every method of it has a name: otherwise the first class
  without that is already installed short when the decoder goes on
  (`PackageRoundTrip.RoundTrip`, `PackageRoundTrip.NamelessPackage`).
- The linker takes the first byte of an entry for the length of the jump table, and longer tables have their
  length behind it. The length survives if and only if the subtraction of the instruction's address does not
  reach into it (`JumpTables.LongLengthSurvives`); `JumpTables.LongTable` is a SWITCH with 32 cases whose
  default leads elsewhere. With a table of 256 bytes or more no default ever leads to its label
  (`JumpTables.LongDefault`); with one of 128 to 255 bytes it does if and only if the high byte of the next
  word makes up for the shift (`JumpTables.MiddleDefault`).
- A constant can be loaded if and only if it is at most 4096 bytes long, but longer ones can be pushed
  (`ConstantPool.LoadsWhatWasPushed`, `ConstantPool.Pool.EveryConstantLoads`).

## Model

| member | source | states |
|---|---|---|
| Bytes.SwappedAccess | StackLib/defs.h:179 | a little-endian 16-bit access combined with `end_swap16` reads and writes an operand most significant byte first |
| Bytes.MoveDown | StackLib/Stack/il1_optimizer.c:375 | an overlapping copy to lower addresses moves every byte as if the source had been saved first |
| Assembly.FirstDefinition | StackLib/Stack/sem_proto.c:633-655 | the address of a label is the code size in front of its first definition; later definitions do not count |
| Assembly.JumpsReachLabels | StackLib/Stack/sem_proto.c:618-655 | in two-pass assembly a jump emitted before or after its label holds the offset of the label's first definition |
| Assembly.OthersAreKept | StackLib/Stack/sem_proto.c:618-655 | bytes that belong to no jump are exactly those emitted |
| Assembly.BackpatchingReassembles | StackLib/Stack/sem_proto.c:647-652 | rewriting just the queued jumps of a label yields the very bytes a second assembly with the label known would yield |
| CodeGenerator.CodeGenerator.Select | StackLib/Stack/sym_table.c:69-89 | finds the first record whose kind shares a flag with the one asked for and whose name is equal, or none |
| CodeGenerator.RecordedEnters | StackLib/Stack/sym_table.c:69-285 | updating or appending one label's record leaves the table right for every other label |
| CodeGenerator.CodeGenerator.GenCode | StackLib/Stack/il_streamer.c:222-238 | writes opcode and operand at any offset and lets the code size grow but never shrink |
| CodeGenerator.CodeGenerator.JumpTo | StackLib/Stack/sem_proto.c:618-629 | keeps the buffer equal to the two-pass assembly of all requests so far, including this jump |
| CodeGenerator.CodeGenerator.BackpatchAll | StackLib/Stack/sem_proto.c:648-652 | patches every waiting jump and no other byte below the current offset, without growing the code |
| CodeGenerator.CodeGenerator.NewLabel | StackLib/Stack/sem_proto.c:631-655 | keeps the buffer equal to the two-pass assembly; a second definition is refused and changes nothing |
| CodeGenerator.CodeGenerator.Emit | StackLib/Stack/il_streamer.c:68-262 | other instructions keep the same invariant |
| CodeGenerator.CodeGenerator.PendingIffUndefined | StackLib/Stack/sem_proto.c:618-655 | after any calls a label has waiting jumps if and only if it has been jumped to and not yet defined |
| CodeGenerator.CodeGenerator.JumpsAreResolved | StackLib/Stack/sem_proto.c:618-655 | after any calls the buffer holds, for every jump to a defined label, that label's offset |
| Threading.ThreadOne | StackLib/Stack/il1_optimizer.c:245-260 | rewriting branch i extends the rewritten prefix by one although later branches still read rewritten operands |
| Threading.AfterIsValid | StackLib/Stack/il1_optimizer.c:167-263 | threaded code is again a program: same instruction starts, targets at instruction starts, no INS_JMP cycle |
| L1Optimizer.Optimizer.FollowChain | StackLib/Stack/il1_optimizer.c:248-251 | through operands partly rewritten already, the inner loop ends at the end of the INS_JMP chain in the original code |
| Chains.RanksExist | StackLib/Stack/il1_optimizer.c:248-251 | code is a program in the sense of the theorems about pass 1 if and only if every chain of INS_JMP leaves INS_JMP |
| Chains.InnerLoopEnds | StackLib/Stack/il1_optimizer.c:245-251 | on code whose earlier branches are rewritten, the inner loop of a branch ends if and only if the chain of the original program from its target leaves INS_JMP |
| Chains.SelfJump | StackLib/Stack/il1_optimizer.c:248-251 | on a jump to itself the inner loop never ends |
| Chains.ThreadingStops | StackLib/Stack/il1_optimizer.c:245-260 | on a program without INS_JMP cycles it ends at every branch, whichever branches were rewritten before |
| Chains.PassOneEnds | StackLib/Stack/il1_optimizer.c:167-263 | the whole pass 1 over the code of a program, cycles or not, ends if and only if every chain of INS_JMP leaves INS_JMP |
| L1Optimizer.Optimizer.ThreadTurn | StackLib/Stack/il1_optimizer.c:167-263 | a turn of pass 1 in place is a number of the steps that `Chains.PassOneEnds` is about, and threads one more instruction |
| L1Optimizer.Optimizer.ThreadJumps | StackLib/Stack/il1_optimizer.c:167-263 | every JMP, JTRUE and JFALSE ends up holding the end of its chain, which is no INS_JMP; all other bytes stay; the buffer is what the steps of `Chains.PassOneEnds` leave |
| Compaction.NewIsMonotone | StackLib/Stack/il1_optimizer.c:265-398 | new offsets keep the order of instructions and surviving instructions keep their sizes |
| Compaction.ReductionAt | StackLib/Stack/il1_optimizer.c:83-115 | the recorded reductions at or before an instruction sum to the bytes deleted up to and including it |
| Compaction.RemovedIs | StackLib/Stack/il1_optimizer.c:270-377 | deleted are the labels and exactly the jumps whose operand is the address behind them |
| Compaction.NewIs | StackLib/Stack/il1_optimizer.c:265-398 | new offsets leave out exactly what is deleted |
| L1Optimizer.Optimizer.Translate | StackLib/Stack/il1_optimizer.c:90-115 | the walk over the records, with its 16-bit arithmetic, subtracts the sum of all reductions at or before the offset |
| L1Optimizer.LaterRecordsIgnored | StackLib/Stack/il1_optimizer.c:96-110 | stopping at the first record behind the offset loses nothing, because records are in increasing order |
| Compaction.RelocatedIsExact | StackLib/Stack/il1_optimizer.c:366-387 | what the scan writes into a jump, if it writes anything, is the new position of its target if and only if the jump is relocatable |
| Compaction.RightIsRelocatable | StackLib/Stack/il1_optimizer.c:373-387 | the jumps that pass 2 gets right, by the guard they meet, are those that do not stall and are relocatable |
| Compaction.AheadIsAbove | StackLib/Stack/il1_optimizer.c:378-382 | every forward jump is queued or deleted, never translated |
| L1Optimizer.Optimizer.PushCodeRec | StackLib/Stack/il1_optimizer.c:83-88 | records a reduction at the end of the list |
| L1Optimizer.Optimizer.Backpatch | StackLib/Stack/il1_optimizer.c:41-53 | writes the new offset into exactly the queued jumps that wait for this original address |
| Compaction.PatchSettles | StackLib/Stack/il1_optimizer.c:41-53 | patching when the scan reaches an original address settles exactly the jumps to it and disturbs no other instruction |
| Compaction.RemoveStep | StackLib/Stack/il1_optimizer.c:270-275 | moving the rest of the code over a deleted instruction keeps every emitted and every pending byte where the scan expects it |
| Scan.SwitchAdvances | StackLib/Stack/il1_optimizer.c:267-389 | unless a jump stalls, the switch deletes, keeps, queues or relocates exactly one instruction and leaves the rest of the code where the next turn looks for it |
| Scan.TurnAdvances | StackLib/Stack/il1_optimizer.c:267-392 | with the backpatching that follows, a turn takes the state in front of an instruction to the state in front of the next one |
| Scan.StalledTurn | StackLib/Stack/il1_optimizer.c:373-392 | the turn of a jump that stalls changes neither the buffer nor the address nor the two record lists |
| Scan.EndsExactly | StackLib/Stack/il1_optimizer.c:266-398 | the loop over the code of a program ends if and only if no jump of it stalls |
| Scan.Scan.UnlistedRepeats | StackLib/Stack/il1_optimizer.c:269-389 | on an opcode that the switch does not list the loop never ends |
| Scan.TurnsReach | StackLib/Stack/il1_optimizer.c:266-398 | after any number of turns, also on code that stalls, the loop stands in front of some instruction with all before it placed and all behind it untouched |
| Scan.JumpLeads | StackLib/Stack/il1_optimizer.c:366-392 | where the loop has ended, a surviving jump leads to the new place of its target if and only if it is one that pass 2 gets right |
| Scan.LeadsExactly | StackLib/Stack/il1_optimizer.c:266-398 | the loop ends with every surviving jump leading right if and only if pass 2 gets every one of them right |
| Scan.StallingProgram | StackLib/Stack/il1_optimizer.c:373-387 | a program of four instructions on which the loop never ends |
| Scan.MisledProgram | StackLib/Stack/il1_optimizer.c:378-387 | a program of four instructions on which it ends with a jump that leads to the wrong address |
| L1Optimizer.Optimizer.Delete | StackLib/Stack/il1_optimizer.c:373-377 | moves the rest of the code down over n bytes and records how much went |
| L1Optimizer.Optimizer.ScanJump | StackLib/Stack/il1_optimizer.c:366-387 | the three guards in place do what the switch of `Scan` says for a jump, stalling ones included |
| L1Optimizer.Optimizer.ScanOne | StackLib/Stack/il1_optimizer.c:267-389 | the whole switch in place does what the switch of `Scan` says, for every opcode, listed or not |
| L1Optimizer.Optimizer.Turn | StackLib/Stack/il1_optimizer.c:267-392 | the switch and the backpatching in place are one turn of `Scan` |
| L1Optimizer.Optimizer.Compact | StackLib/Stack/il1_optimizer.c:265-400 | leaves each surviving instruction at its new offset with its relocated operand, and both record lists empty |
| L1Optimizer.Optimizer.Optimize | StackLib/Stack/il1_optimizer.c:159-400 | the buffer after passes 1 and 2 is the compaction of the threaded code, and no larger than before |
| L1Semantics.ExecIsNatural | StackLib/StackVM/vm_stack.c:745-1180 | executing an instruction commutes with moving code addresses from one layout to another |
| ControlLaws.CallDoes | StackLib/StackVM/vm_stack.c:1085-1103 | CALL goes to its operand and remembers the address three bytes on |
| ControlLaws.RetDoes | StackLib/StackVM/vm_stack.c:1025-1034 | RET goes to the address remembered last and forgets it |
| ControlLaws.BranchDoes | StackLib/StackVM/vm_stack.c:1120-1139 | a conditional jump pops its operand and goes to its target or to the next instruction |
| ControlLaws.CallsComeBack | StackLib/StackVM/vm_stack.c:1025-1103 | whatever the callee does, when a run is back at the depth of a call for the first time it is behind that call with the caller's frames, and all function objects made before are there |
| ControlLaws.CallLaw | StackLib/StackVM/vm_stack.c:1025-1103 | from CALL at a the callee starts at the operand and comes back to a + 3 |
| ControlLaws.ReturnIsBack | StackLib/StackVM/vm_stack.c:1025-1103 | the RET of a callee with no frames but those it was entered with leads to the instruction behind the call with the data of the callee |
| ControlLaws.FunctionIsCalled | StackLib/StackVM/vm_stack.c:971-998 | however much later a function object is called, execution goes to the operand of the F2O that made it |
| ControlLaws.TraceNext | StackLib/StackVM/vm_stack.c:753-1183 | the trace of a run lists what its steps show, in order |
| ControlLaws.ShowsIs | StackLib/StackVM/vm_stack.c:753-1183 | a step shows its bytes, but for a code address, and the data it starts from; INS_JMP shows nothing |
| L1Semantics.ChainRun | StackLib/Stack/il1_optimizer.c:248-251 | running along an INS_JMP chain reaches its end and shows nothing |
| L1Semantics.ThreadedRun | StackLib/Stack/il1_optimizer.c:167-263 | every run of threaded code is a run of the original with INS_JMP steps put in |
| L1Semantics.SkipDeleted | StackLib/Stack/il1_optimizer.c:373-377 | deleted instructions lead to the surviving one that took their place, unseen |
| L1Semantics.CompactedRun | StackLib/Stack/il1_optimizer.c:265-400 | every run of compacted code is a run of the threaded code with INS_JMP steps put in |
| L1Semantics.OptimizedRuns | StackLib/Stack/il1_optimizer.c:159-400 | for all data and from any state, n steps of optimized code reach the state that some k >= n steps of the original reach, up to where the code lies, with the same instructions executed on the same data but for INS_JMP |
| L1Semantics.NothingIsLost | StackLib/Stack/il1_optimizer.c:159-400 | from any state, n steps of optimized code execute at least all that n steps of the original execute |
| L1Semantics.DeletedJmpIsUnseen | StackLib/Stack/il1_optimizer.c:373-377 | an INS_JMP to its own successor does nothing but go on, whatever the data |
| L1Semantics.OnlyDeletedJmpIsUnseen | StackLib/Stack/il1_optimizer.c:373-377 | for any deleted instruction there are data on which it only goes on if and only if it is an INS_JMP |
| L1Semantics.DeletedBranchLosesAPop | StackLib/Stack/il1_optimizer.c:373-377 | a two-instruction program whose optimized form ends with different data |
| ConstantPool.Pool.PushLength | StackLib/Stack/il_streamer.c:52-61 | appends the length in one, two or three bytes |
| ConstantPool.PrefixIsDefinite | StackLib/Stack/il_streamer.c:52-61 | the length bytes are the definite form of section 8.1.3 of X.690 |
| ConstantPool.Pool.PushConstant | StackLib/Stack/il_streamer.c:50-66 | appends one entry, returns where it starts and leaves every earlier entry as it was |
| ConstantPool.LoadsWhatWasPushed | StackLib/StackVM/vm_stack.c:266-293 | an entry anywhere in an image loads as the exact bytes pushed if and only if they fit an object; else the bounds exception is raised |
| ConstantPool.Pool.EveryConstantLoads | StackLib/StackVM/vm_stack.c:266-293 | after any pushes every offset ever returned still loads its own bytes |
| ConstantPool.ReplacedValue | StackLib/Stack/il_streamer.c:268-292 | rewriting one constant in place moves nothing and touches no other constant |
| JumpTables.CaseIsFound | StackLib/Stack/il_streamer.c:277-290 | adding pc at run time undoes the relocation of a case, for label and constant |
| JumpTables.ReplacedCase | StackLib/Stack/il_streamer.c:277-290 | rewriting one case changes its four bytes of the table only |
| Linker.Linker.RelocateTable | StackLib/Stack/il_streamer.c:268-292 | whatever bytes stand there, rewrites the words that the first byte of the entry counts, the first by pc and then two by two, and no other byte |
| JumpTables.ShortTableShifted | StackLib/Stack/il_streamer.c:268-292 | for a table of less than 128 bytes that is the table with default and every case relocated, and no byte around it changed |
| JumpTables.LongLengthSurvives | StackLib/Stack/il_streamer.c:268-275 | the length of an entry of 128 bytes or more is the same after relocation if and only if the first subtraction does not reach into it |
| JumpTables.LongTable | StackLib/Stack/il_streamer.c:268-292 | a SWITCH at address 3 with 32 cases loads 129 of 130 bytes, and its default leads elsewhere |
| JumpTables.LongDefault | StackLib/Stack/il_streamer.c:268-292 | with a table of 256 bytes or more what SWITCH takes for the default is the label plus the size of the code, never the label |
| JumpTables.MiddleDefault | StackLib/Stack/il_streamer.c:268-292 | with a table of 128 to 255 bytes the default leads to its label if and only if the high byte of the next shifted word is the low 16 bits of 255 times the address of the SWITCH plus the low byte of the label |
| Linker.Linker.LinkOne | StackLib/Stack/il_streamer.c:294-474 | links one instruction, and for SWITCH its own table, and advances by the length of that instruction |
| Linker.Linker.LinkCode | StackLib/Stack/il_streamer.c:294-500 | the buffer holds the linked code followed by the relocated pool; the pool is empty afterwards |
| Linker.Unit.PoolIs | StackLib/Stack/il_streamer.c:377-378 | every jump table is relocated exactly once, for its own SWITCH; all other constants stay as pushed |
| Linker.Unit.JumpsResolve | StackLib/StackVM/vm_stack.c:1085-1139 | a linked CALL, JMP, JFALSE or JTRUE at pc leads, with 16-bit wraparound, to the address it held before linking |
| Linker.Unit.ConstantsResolve | StackLib/StackVM/vm_stack.c:1104-1119 | a linked OBJCONST, OBJNEW or EXTCALL loads the value that was pushed |
| Linker.Unit.CaseResolves | StackLib/StackVM/vm_stack.c:818-843 | case k of a linked table loads the constant pushed for it and leads to its label |
| Linker.Unit.SwitchesResolve | StackLib/StackVM/vm_stack.c:809-847 | SWITCH loads its own table and goes to the label of the first matching case, or to the default, as before linking |
| Linker.Switch | StackLib/StackVM/vm_stack.c:818-843 | the loop over the loaded table finds the target that `Linker.Unit.SwitchesResolve` speaks of |
| LinkedRuns.SameInstruction | StackLib/Stack/il_streamer.c:305-478 | every instruction keeps its place, length and opcode in the image, and its bytes unless its operand is a reference |
| LinkedRuns.SwitchAgrees | StackLib/StackVM/vm_stack.c:809-847 | SWITCH loads different tables from image and pool and goes to the same instruction |
| LinkedRuns.StepAgrees | StackLib/StackVM/vm_stack.c:753-1183 | one step of the machine over the image is the step over code and pool before linking, and stays at instruction starts |
| LinkedRuns.ImageRuns | StackLib/StackVM/vm_stack.c:753-1183 | from any state at instruction starts, any number of steps over the image is as many steps over code and pool before linking, whatever the data side of the machine does |
| LinkedRuns.LinkedCodeRuns | StackLib/StackVM/vm_stack.c:731-1183 | in particular from the offset of `main` on, where the machine starts |
| ControlLaws.LinkedCallLaw | StackLib/StackVM/vm_stack.c:1025-1103 | over an image or over code and pool, from CALL at a the callee starts at the resolved operand and comes back to a + 3, with SWITCH and all F2O in between |
| ControlLaws.LinkedFunctionDoes | StackLib/StackVM/vm_stack.c:971-998 | F2O of n arguments makes the next function object name its operand, linked or not |
| ControlLaws.ConstantDoes | StackLib/StackVM/vm_stack.c:1104-1119 | OBJCONST, OBJNEW and EXTCALL work on the constant that their operand names, or end the run if it is too long |
| ControlLaws.SwitchDoes | StackLib/StackVM/vm_stack.c:809-847 | SWITCH pops and goes to the label of the first case that matches what it pops, or to the default |
| CompiledRuns.NewIsStart | StackLib/Stack/il1_optimizer.c:265-400 | in linked optimized code every new offset of an instruction is the start of an instruction |
| CompiledRuns.CompiledCodeRuns | StackLib/Stack/il1_optimizer.c:159-400 | optimizer and linker together: from any state at instructions, n steps over the image reach the state that some k >= n steps over the code and pool before both reach, with the same instructions executed on the same data but for INS_JMP |
| HeapChain.Chain.Ordered | StackLib/StackVM/midgard.c:39-129 | blocks of a valid chain are pairwise disjoint |
| HeapChain.Chain.AllocKeepsValid | StackLib/StackVM/midgard.c:39-129 | an allocation keeps the chain increasing, clear of its neighbours and with one sentinel last |
| HeapChain.Chain.AllocAddsOne | StackLib/StackVM/midgard.c:39-129 | adds exactly one block of the size asked for and keeps all others |
| HeapChain.Chain.AllocIsLowest | StackLib/StackVM/midgard.c:57-129 | the block goes into the lowest gap that holds header and size, or to the sentinel if none does |
| HeapChain.Chain.FreeKeepsValid | StackLib/StackVM/midgard.c:152-217 | a release keeps the chain valid |
| HeapChain.Chain.FreeRemovesOne | StackLib/StackVM/midgard.c:152-217 | removes exactly the named block; an address that is no block changes nothing |
| HeapChain.Chain.FreeUndoesAlloc | StackLib/StackVM/midgard.c:39-217 | releasing what was just allocated restores the blocks |
| HeapChain.Chain.ShiftKeepsValid | StackLib/StackVM/midgard.c:568-583 | closing a gap keeps the chain valid and every block size |
| HeapChain.RunsAreSafe | StackLib/StackVM/midgard.c:22-583 | over every run of allocations, releases and shifts that spares the sentinel all blocks stay pairwise disjoint and below the sentinel, and the allocated space changes by what was allocated less what was freed; without shifts no pointer ever handed out becomes that of the sentinel |
| HeapChain.GotIsNotSentinel | StackLib/StackVM/midgard.c:39-217 | a run without shifts that releases only pointers it was handed out, even twice, spares the sentinel |
| Midgard.CallRepresents | StackLib/StackVM/midgard.c:39-583 | after any call the buffer is the image of the chain that the call leads to |
| Midgard.CallKeepsBlock | StackLib/StackVM/midgard.c:39-583 | any call keeps size and payload of every block it does not release, wherever that lies afterwards |
| HeapRuns.PayloadsSurvive | StackLib/StackVM/midgard.c:39-583 | a block that a run does not release keeps its size and its bytes through all allocations, releases and shifts |
| HeapRuns.OrderSurvives | StackLib/StackVM/midgard.c:39-583 | two blocks that a run does not release stay two blocks in the same order |
| HeapRuns.LostIsReleased | StackLib/StackVM/midgard.c:152-217 | a run loses a block if and only if one of its calls releases the address at which it then lies |
| HeapRuns.TrackIs | StackLib/StackVM/midgard.c:39-583 | a call loses a block if and only if it releases its address; but for shifts every other block stays where it is |
| HeapRuns.HandedOutIs | StackLib/StackVM/midgard.c:39-129 | the addresses handed out are those of the blocks that the allocations of the run add |
| HeapRuns.SparesIs | StackLib/StackVM/midgard.c:152-217 | a run spares the sentinel if and only if no call releases the address where it then lies |
| Midgard.SeveredIsNoChain | StackLib/StackVM/midgard.c:198-209 | once the sentinel is unlinked the buffer does not hold the chain any more |
| Midgard.Heap.constructor | StackLib/StackVM/midgard.c:22-35 | sets up an empty first block and the sentinel |
| Midgard.Heap.Alloc | StackLib/StackVM/midgard.c:39-129 | the walk over the headers in memory performs the first-fit allocation and leaves every payload as it was |
| Midgard.Heap.Free | StackLib/StackVM/midgard.c:152-217 | unlinks the block in memory, touches nothing if there is none, and leaves a chain if and only if the address is not the sentinel's |
| Midgard.Heap.AllocatedSpace | StackLib/StackVM/midgard.c:132-150 | sums the sizes of all blocks and one header |
| Midgard.Heap.NextChunk | StackLib/StackVM/midgard.c:556-561 | the payload of the next block, or NULL if it is empty or the sentinel |
| Midgard.Heap.ShiftNextChunk | StackLib/StackVM/midgard.c:568-583 | moves the next block down over the gap with its header and contents; every payload keeps its bytes |
| Midgard.PackedRepresents | StackLib/StackVM/midgard.c:568-583 | the memory after the overlapping move is again the image of a valid chain |
| Collector.UpdateMutator | StackLib/StackVM/vm_stack.c:600-605 | every slot with the old address gets the new one, no other slot changes |
| Collector.ShiftAndRedirect | StackLib/StackVM/vm_stack.c:522-533 | after one compaction step every slot refers to the block it referred to, wherever that lies now, with the same size and contents |
| Collector.Collect | StackLib/StackVM/vm_stack.c:507-552 | after a whole collection exactly the marked blocks among those visited, but for the last one, are gone; all others keep their sizes and contents, and every slot that referred to one refers to it still; each visited block whose byte is movable lies against where the block in front of it lay when the loop came to it, all others lie where they were |
| Collector.MovableIs | StackLib/StackVM/vm_stack.c:524 | a gap is closed in front of a block whose byte, masked with 0x8F, is 0x80 |
| Collector.TakesFifteenHolders | StackLib/StackVM/vm_stack.c:519-521 | of the objects that slots hold a collection frees exactly those with fifteen holders, and an object whose count is down to 0 stays |
| Collector.FifteenHolders | StackLib/StackVM/vm_stack.c:519-521 | from the machine's start SCTX 1 and fourteen times OBJPUSH 0 give an object that fifteen slots hold and whose byte is the one the collector looks for |
| Collector.HeldIsFreed | StackLib/StackVM/vm_stack.c:516-541 | a heap of two objects in which a collection frees the first, whose byte says fifteen holders |
| StackMachine.StepKeepsExact | StackLib/StackVM/vm_stack.c:762-1164 | after every instruction each object held in a live slot has a count equal to the number of slots holding it |
| StackMachine.NibblesAreIntact | StackLib/StackVM/vm_stack.c:124-132 | count and magic can both be read off the shared byte if and only if at most 15 slots hold the object |
| StackMachine.RunKeepsExact | StackLib/StackVM/vm_stack.c:745-1180 | after every run of instructions, balanced or not, the counts are exact |
| StackMachine.SixteenHolders | StackLib/StackVM/vm_stack.c:762-770 | from the machine's start SCTX 1 and fifteen times OBJPUSH 0 give one object sixteen holders, a count that reads 0 and another magic |
| StackMachine.BalancedIsRun | StackLib/StackVM/vm_stack.c:999-1103 | a balanced run is the run of its instructions in order |
| StackMachine.BalancedFrame | StackLib/StackVM/vm_stack.c:999-1103 | a balanced run with variables below n leaves every base slot outside them, bp and the package alone |
| StackMachine.CallReturns | StackLib/StackVM/vm_stack.c:999-1103 | after CALL or EXTCALL, SCTX n, a balanced body, RCTX n and RET the machine is behind the call with bp, package and all base slots as before, at every depth |
| InstructionLaws.ObjPushDoes | StackLib/StackVM/vm_stack.c:762-780 | OBJPUSH puts the object of the variable on the stack and counts it once more |
| InstructionLaws.ObjPopDoes | StackLib/StackVM/vm_stack.c:785-807 | OBJPOP moves the top into the variable, drops the old object once, and changes no other slot |
| InstructionLaws.ObjStoreDoes | StackLib/StackVM/vm_stack.c:781-807 | OBJSTORE copies the top into the variable and changes no other slot |
| InstructionLaws.ObjConstDoes | StackLib/StackVM/vm_stack.c:1104-1119 | OBJCONST and OBJNEW push a new object with one holder |
| InstructionLaws.OperationDoes | StackLib/StackVM/vm_stack.c:848-906 | an operation takes its operands and pushes a new object with one holder |
| InstructionLaws.JFalseDoes | StackLib/StackVM/vm_stack.c:1120-1139 | JFALSE drops the condition and goes to its target or three bytes on |
| InstructionLaws.SCtxDoes | StackLib/StackVM/vm_stack.c:999-1010 | SCTX opens n variables, each with a new object of its own |
| InstructionLaws.RCtxDoes | StackLib/StackVM/vm_stack.c:1011-1024 | RCTX closes n variables and leaves all others |
| InstructionLaws.CallDoes | StackLib/StackVM/vm_stack.c:1085-1103 | CALL saves the package and the address three bytes on, in this order, and jumps |
| InstructionLaws.ExtCallDoes | StackLib/StackVM/vm_stack.c:1035-1103 | EXTCALL drops the class, saves package and address and goes on in the package of the method |
| InstructionLaws.RetDoes | StackLib/StackVM/vm_stack.c:1025-1034 | RET takes address and package off the base stack and goes on there |
| InstructionLaws.StopsWhenFull | StackLib/StackVM/vm_stack.c:1171-1183 | after an instruction the machine runs on unless the stacks have come within one slot of each other |
| InstructionLaws.VariableSurvives | StackLib/StackVM/vm_stack.c:762-906 | a variable keeps its object through any run that does not store into it |
| InstructionLaws.LastStoreIsRead | StackLib/StackVM/vm_stack.c:762-906 | a variable reads as what was popped into it, whatever runs in between without storing into it |
| InstructionLaws.PopThenPush | StackLib/StackVM/vm_stack.c:762-807 | OBJPOP and OBJPUSH of the same variable leave the stack as it was |
| TwoMachines.StepAgrees | StackLib/StackVM/vm_stack.c:753-1183 | one instruction leads the machine over bytes and the machine over decoded instructions from the same address with the same callers to the same address with the same callers |
| TwoMachines.RunsAgree | StackLib/StackVM/vm_stack.c:753-1183 | so does any run before `main` returns |
| TwoMachines.StartsAgree | StackLib/StackVM/vm_stack.c:731-742 | the two machines start at the offset of `main` with the same callers |
| TwoMachines.MainReturns | StackLib/StackVM/vm_stack.c:731-732 | the RET of `main` ends the run over bytes and leads the other machine to the address pushed for that |
| TwoMachines.LengthsAgree | StackLib/Stack/il_streamer.c:305-478 | the linker and the optimizer step over an instruction by as many bytes as the virtual machine does |
| VirtualMachine.Vm.PopStackArc | StackLib/StackVM/vm_stack.c:124-132 | pops, clears the slot and drops one reference |
| VirtualMachine.Vm.StoreVariable | StackLib/StackVM/vm_stack.c:789-799 | a variable changes its object with both counts, or nothing changes if it holds the object already |
| VirtualMachine.Vm.EnterContext | StackLib/StackVM/vm_stack.c:999-1010 | pushes n fresh objects on the base stack |
| VirtualMachine.Vm.LeaveContext | StackLib/StackVM/vm_stack.c:1011-1024 | drops n variables with their references |
| VirtualMachine.Vm.Operate | StackLib/StackVM/vm_stack.c:857-906 | pops the operands and pushes one new object |
| VirtualMachine.Vm.EnterCall | StackLib/StackVM/vm_stack.c:1085-1103 | saves package and return address and jumps |
| VirtualMachine.Vm.LeaveCall | StackLib/StackVM/vm_stack.c:1025-1034 | takes return address and package off the base stack and resumes there |
| VirtualMachine.Vm.Execute | StackLib/StackVM/vm_stack.c:753-1183 | the in-place machine, both stacks in one array, performs exactly the step of the value machine and stops when the stacks meet |
| Package.CStringOf | StackLib/Stack/stack_wrap_packager.cpp:203-236 | a name followed by a NUL, or by nothing, reads back as that name |
| Package.LengthIsDefinite | StackLib/Stack/pkg_encoder.c:127-141 | length octets are the definite form of section 8.1.3 of X.690 |
| Package.TlvReads | StackLib/Stack/pkg_encoder.c:127-141 | a TLV reads back to its tag, the length of its value and the value |
| Package.MethodReads | StackLib/Stack/pkg_encoder.c:211-223 | a method value reads back to offset, highest byte first, argument count and name |
| Package.EntriesRead | StackLib/Stack/pkg_encoder.c:153-190 | the entries of a method read back to offset and alias, and to offset and event |
| Package.MethodTlvsHead | StackLib/Stack/pkg_encoder.c:192-229 | methods appended at the end can be read from the front |
| PackageEncoder.Encoder.PushTlv | StackLib/Stack/pkg_encoder.c:127-141 | writes tag, short or long length and value, and nothing in front of them |
| PackageEncoder.Encoder.WrapTlv | StackLib/Stack/pkg_encoder.c:127-141 | puts a header in front of a value that lies further on in the same buffer, moving the value down intact |
| PackageEncoder.Encoder.FlushClass | StackLib/Stack/pkg_encoder.c:199-209 | writes a class as one TLV holding its name and all its methods in order |
| PackageEncoder.Encoder.FlushMethods | StackLib/Stack/pkg_encoder.c:211-223 | writes each method as offset with high byte first, argument count and name |
| PackageEncoder.Encoder.FlushClasses | StackLib/Stack/pkg_encoder.c:192-229 | writes all classes in order |
| PackageEncoder.Encoder.FlushEntries | StackLib/Stack/pkg_encoder.c:153-190 | writes a menu entry for every alias and an event entry for every event |
| PackageEncoder.Encoder.FlushRoot | StackLib/Stack/pkg_encoder.c:143-151 | the buffer starts with one sequence holding entries and classes |
| PackageEncoder.Encoder.FlushFile | StackLib/Stack/pkg_encoder.c:246-261 | the package is followed by the code as one TLV |
| PackageDecoder.Decoder.Read | StackLib/Stack/stack_wrap_packager.cpp:26-32 | reads as many bytes as are left, at most those asked for |
| PackageDecoder.Decoder.ReadLength | StackLib/Stack/stack_wrap_packager.cpp:151-158 | decodes one byte, or two bytes behind any byte with the high bit set |
| PackageDecoder.LengthIsRead | StackLib/Stack/stack_wrap_packager.cpp:151-158 | lengths that the encoder writes are read back in both forms |
| PackageDecoder.ItemsAre | StackLib/Stack/pkg_encoder.c:143-229 | the outer sequence is a list of entries that install nothing, then all classes in order |
| PackageDecoder.Decoder.DecodeMethod | StackLib/Stack/stack_wrap_packager.cpp:217-243 | registers the method with the class installed last, or stops behind its length if its name is empty |
| PackageDecoder.Decoder.DecodeClassHeader | StackLib/Stack/stack_wrap_packager.cpp:185-249 | installs one class with its methods up to the first one without a name, and stops behind the class if and only if there is none |
| PackageDecoder.Decoder.DecodeClassSeq | StackLib/Stack/stack_wrap_packager.cpp:144-183 | installs a class or skips an entry, and gets to its end if and only if every method has a name |
| PackageDecoder.Decoder.HeaderTurns | StackLib/Stack/stack_wrap_packager.cpp:130-132 | the first turns of the loop over the outer sequence install the classes they pass, the last of them up to its first method without a name |
| PackageDecoder.Decoder.DecodeHeaderSeq | StackLib/Stack/stack_wrap_packager.cpp:111-142 | installs all classes of the outer sequence |
| PackageDecoder.Decoder.DecodeDataSeq | StackLib/Stack/stack_wrap_packager.cpp:78-109 | returns the code behind the header |
| PackageDecoder.Decoder.DecodeBuffer | StackLib/Stack/stack_wrap_packager.cpp:40-76 | from an encoded file recovers its code and its classes |
| Bytes.EndSwap16Involution | StackLib/defs.h:179 | swapping a returned offset once more gives the original |
| Bytes.EndSwap16Fixed | StackLib/defs.h:179 | `end_swap16` leaves a word alone if and only if its two bytes are equal |
| PackageRoundTrip.OffsetComesBack | StackLib/Stack/stack_wrap_packager.cpp:236-241 | an offset comes back right if and only if its two bytes are equal; 1 comes back as 256 |
| PackageRoundTrip.ClassRoundTrip | StackLib/Stack/stack_wrap_packager.cpp:185-249 | an encoded class comes back with its methods up to the first one without a name, and whole if and only if every method has a name |
| PackageRoundTrip.NamelessMethod | StackLib/Stack/stack_wrap_packager.cpp:232 | a class of two methods that comes back with none |
| PackageRoundTrip.NamelessPackage | StackLib/Stack/stack_wrap_packager.cpp:111-249 | when the decoder is done with the first class that has a nameless method, the classes before it are back and that one is installed with fewer methods |
| PackageRoundTrip.RoundTrip | StackLib/Stack/stack_wrap_packager.cpp:40-249 | encoding then decoding returns the same classes and methods in the same order with the same names and argument counts, offsets byte-swapped, and the same code |
| BitStrings.SameBytes | StackLib/crypto/src/cr_des.c:361-365 | byte strings with equal bits are equal |
| BitStrings.BitWeights | StackLib/crypto/src/cr_des.c:361-365 | bit 0 of a byte is its highest |
| BitStrings.Permute | StackLib/crypto/src/cr_des.c:372-420 | clearing and setting bits one by one yields, at every place, the bit the map names |
| BitStrings.PermutedBits | StackLib/crypto/src/cr_des.c:372-420 | bit i of a permuted string is bit map(i) of the source |
| DesTables.PermutationsSwap | StackLib/crypto/src/cr_des.c:125-312 | a finally permuted block initially permuted again has its halves swapped, and the other way round, for all 64 places |
| DesTables.ExpansionIs | StackLib/crypto/src/cr_des.c:125-312 | the expansion takes four bits with their neighbours on both sides |
| DesTables.InitialIs | StackLib/crypto/src/cr_des.c:125-312 | the initial permutation in closed form |
| DesTables.LeftKeyHalf | StackLib/crypto/src/cr_des.c:125-312 | the left key half in closed form, without parity bits |
| DesTables.RightKeyHalf | StackLib/crypto/src/cr_des.c:125-312 | the right key half in closed form, without parity bits |
| DesTables.RotationIs | StackLib/crypto/src/cr_des.c:168-172 | the halves turn by one in rounds 1, 2, 9 and 16 and by two in all others |
| DesTables.CompressionIsInjective | StackLib/crypto/src/cr_des.c:125-312 | each half of a subkey consists of different bits of one half of the key |
| DesTables.PBoxIsPermutation | StackLib/crypto/src/cr_des.c:125-312 | the permutation behind the S-boxes loses no bit |
| Des.FullTurn | StackLib/crypto/src/cr_des.c:168-172 | 28 bits of left rotation bring both key halves back |
| Des.RightAfterLeft | StackLib/crypto/src/cr_des.c:423-536 | rotating right takes back what was rotated left |
| Des.ShiftsMirror | StackLib/crypto/src/cr_des.c:168-172 | what the right rotations leave of a full turn are the left rotations of the mirrored round |
| Des.DecryptionKeysAreReversed | StackLib/crypto/src/cr_des.c:864-870 | right rotation yields the 16 subkeys of encryption in reverse order |
| Des.RoundInverts | StackLib/crypto/src/cr_des.c:764-785 | a round, a swap and the same round again cancel, whatever the round function |
| Des.RoundsReverse | StackLib/crypto/src/cr_des.c:744-786 | with reversed subkeys the rounds pass through the swapped states backwards |
| Des.PermutationsInvert | StackLib/crypto/src/cr_des.c:787-797 | the final permutation undoes the initial one and swaps the halves in one step |
| Des.DesInverts | StackLib/crypto/src/cr_des.c:693-911 | decryption undoes encryption and encryption undoes decryption, for every key and block |
| Des.TripleDesInverts | StackLib/crypto/src/cr_des.c:914-945 | both triple DES pairs invert, for all keys |
| Des.RoundFunctionBit | StackLib/crypto/src/cr_des.c:750-785 | every bit of the round function is a bit of an S-box at the six sums of expanded data bits and subkey bits |
| Des.SubkeyBit | StackLib/crypto/src/cr_des.c:693-745 | every bit of every subkey is a key bit named in closed form, in reverse order for decryption |
| Des.SixteenRounds | StackLib/crypto/src/cr_des.c:693-911 | encryption and decryption are the initial permutation, sixteen Feistel rounds with these subkeys and the final permutation |
| Des.ComplementationLaw | StackLib/crypto/src/cr_des.c:693-911 | with every bit of key and block changed, every bit of the result changes, both ways |
| Des.TripleComplementationLaw | StackLib/crypto/src/cr_des.c:914-945 | triple DES has the same law in all its keys |
| Des.TripleCollapses | StackLib/crypto/src/cr_des.c:914-945 | where two neighbouring keys are equal triple DES is single DES with the third |
| DesCipher.KeyShift | StackLib/crypto/src/cr_des.c:481-536 | byte-wise shifting with repaired bits is left rotation of both 28-bit halves |
| DesCipher.KeyShiftRight | StackLib/crypto/src/cr_des.c:423-478 | byte-wise shifting with repaired bits is right rotation of both 28-bit halves |
| DesCipher.Substitute | StackLib/crypto/src/cr_des.c:539-615 | the loop over six-bit groups packs the outputs of the eight S-boxes |
| DesCipher.CryptRound | StackLib/crypto/src/cr_des.c:750-785 | one turn of the loop is one Feistel round with the current subkey |
| DesCipher.Encode | StackLib/crypto/src/cr_des.c:693-799 | sixteen turns with left rotation compute the encryption, also when dst is src |
| DesCipher.Decode | StackLib/crypto/src/cr_des.c:805-911 | sixteen turns with right rotation compute the decryption |
| DesCipher.Tdes2Encode | StackLib/crypto/src/cr_des.c:915-920 | encrypt, decrypt, encrypt in place with two keys |
| DesCipher.Tdes2Decode | StackLib/crypto/src/cr_des.c:923-928 | decrypt, encrypt, decrypt in place with two keys |
| DesCipher.Tdes3Encode | StackLib/crypto/src/cr_des.c:932-937 | encrypt, decrypt, encrypt in place with three keys |
| DesCipher.Tdes3Decode | StackLib/crypto/src/cr_des.c:940-945 | decrypt, encrypt, decrypt in place with three keys in reverse order |
| AesField.SubstitutionInverts | StackLib/crypto/src/cr_aes.c:86-123 | the inverse S-box undoes the S-box for all 256 bytes |
| AesField.SubstitutionIsInverse | StackLib/crypto/src/cr_aes.c:86-104 | the S-box is the affine step of section 5.1.1 of FIPS 197 behind the inverse in the field |
| AesField.XTimeIsLinear | StackLib/crypto/src/cr_aes.c:284-287 | doubling in the field distributes over addition |
| AesField.DoublesSmall | StackLib/crypto/src/cr_aes.c:284-287 | below the degree of the field polynomial multiplication by x is a shift |
| AesField.FieldPolynomial | StackLib/crypto/src/cr_aes.c:284-287 | x^8 = x^4 + x^3 + x + 1 for every element, section 4.2 of FIPS 197 |
| AesField.MultiplyIsLinear | StackLib/crypto/src/cr_aes.c:307-314 | multiplication by 9, 11, 13 and 14 distributes over addition |
| AesField.MixWithOneDoubling | StackLib/crypto/src/cr_aes.c:290-303 | the shortcut with one doubling a byte is 2a + 3b + c + d of section 5.1.3 of FIPS 197 |
| AesField.MixInverts | StackLib/crypto/src/cr_aes.c:290-345 | multiplication by 14, 11, 13, 9 undoes that by 2, 3, 1, 1 for every column |
| Aes.ShiftRowsInverts | StackLib/crypto/src/cr_aes.c:256-386 | the row shifts cancel |
| Aes.ShiftRowsMoves | StackLib/crypto/src/cr_aes.c:256-282 | the byte in row r comes from r columns to the right |
| Aes.MixColumnsInverts | StackLib/crypto/src/cr_aes.c:290-345 | InvMixColumns undoes MixColumns on every state |
| Aes.MixColumnIsPolynomial | StackLib/crypto/src/cr_aes.c:290-303 | mixing is additive, turns with its column and takes the unit column to 2, 1, 1, 3 |
| Aes.CipherRounds | StackLib/crypto/src/cr_aes.c:391-414 | byte by byte the cipher is the key sum, nine rounds and one without MixColumns |
| Aes.RconDoubles | StackLib/crypto/src/cr_aes.c:125-158 | the round constants are the powers of x |
| Aes.ScheduleRecurs | StackLib/crypto/src/cr_aes.c:160-222 | the finished schedule starts with the key and satisfies the recurrence of section 5.2 of FIPS 197 byte by byte |
| Aes.BackwardMeetsForward | StackLib/crypto/src/cr_aes.c:391-439 | deciphering passes through the states of enciphering backwards |
| Aes.InvCipherInverts | StackLib/crypto/src/cr_aes.c:391-439 | for any expanded key InvCipher undoes Cipher |
| Aes.DecryptedIsOriginal | StackLib/crypto/src/cr_aes.c:459-485 | decoding undoes encoding for every key and block |
| AesCipher.Engine.AddRoundKey | StackLib/crypto/src/cr_aes.c:227-237 | adds the sixteen bytes of that round key to the state |
| AesCipher.Engine.SubBytes | StackLib/crypto/src/cr_aes.c:241-251 | the row-wise loops substitute every byte of the column-wise state once |
| AesCipher.Engine.InvSubBytes | StackLib/crypto/src/cr_aes.c:349-359 | the row-wise loops substitute every byte once with the inverse table |
| AesCipher.Engine.ShiftRows | StackLib/crypto/src/cr_aes.c:256-282 | the chain of assignments rotates row r by r columns |
| AesCipher.Engine.InvShiftRows | StackLib/crypto/src/cr_aes.c:361-387 | the chain of assignments rotates row r right by r columns |
| AesCipher.Engine.MixColumns | StackLib/crypto/src/cr_aes.c:290-303 | in-place mixing of four columns is MixColumns |
| AesCipher.Engine.InvMixColumns | StackLib/crypto/src/cr_aes.c:328-345 | in-place unmixing is InvMixColumns |
| AesCipher.Engine.KeyExpansion | StackLib/crypto/src/cr_aes.c:160-222 | fills the 176 bytes with the schedule of section 5.2 of FIPS 197 |
| AesCipher.Engine.Cipher | StackLib/crypto/src/cr_aes.c:391-414 | ten rounds in place |
| AesCipher.Engine.InvCipher | StackLib/crypto/src/cr_aes.c:416-439 | ten inverse rounds in place |
| AesCipher.Engine.Encode | StackLib/crypto/src/cr_aes.c:459-472 | leaves the encrypted block in dst and in src |
| AesCipher.Engine.Decode | StackLib/crypto/src/cr_aes.c:474-485 | leaves the decrypted block in dst and in src |
| Cbc.DecryptedIsOriginal | StackLib/crypto/src/cr_crypt.c:40-67 | for any cipher that inverts, chained or not, decrypting all blocks restores the data |
| Cbc.CounterNeverPasses | StackLib/crypto/src/cr_crypt.c:36 | for every length above 65504 the 16-bit counter is below it after any number of turns |
| Cbc.Crypto.CryptOne | StackLib/crypto/src/cr_crypt.c:40-67 | one block in place with its chaining value |
| Cbc.Crypto.CryptPiece | StackLib/crypto/src/cr_crypt.c:38-68 | the blocks of one 32-byte piece, with the chaining value left for the next piece |
| Cbc.Crypto.Crypt | StackLib/crypto/src/cr_crypt.c:26-75 | every block of the file over the rounded length is what sections 6.1 and 6.2 of NIST SP 800-38A say, from the old block and, if chained, the ciphertext block in front of it or zeros; nothing outside is written, and that length is returned |
| Cbc.CryptedBlock | StackLib/crypto/src/cr_crypt.c:40-67 | block k of the result comes from block k of the data alone, and in chained mode from the ciphertext block k - 1 |
| Cbc.EncryptThenDecrypt | StackLib/crypto/src/cr_crypt.c:26-75 | encrypting and decrypting a file of 1 to 65504 bytes restores all of it |
| CipherRegistry.RegisteredInverts | StackLib/crypto/src/cr_crypt.c:10-24 | every registered encoder is inverted by the decoder on its line, for every key |
| CipherRegistry.LinesAre | StackLib/crypto/src/cr_crypt.c:10-24 | with equal keys the triple ciphers are the cipher on line 0, and with equal outer keys line 2 is line 1 |
| CipherRegistry.RoundTrip | StackLib/crypto/src/cr_crypt.c:10-75 | the file round trip holds for every registered cipher in both modes |
| Md5.PaddedIsWhole | StackLib/libcgi/src/md5.c:218-246 | the padded message is a whole number of blocks and the shortest such with room for marker and length |
| Md5.PaddingIs | StackLib/libcgi/src/md5.c:218-246 | behind the message come 0x80, zeros and eight bytes that weigh the bit length modulo 2^64, lowest first |
| Md5.DigestIsChained | StackLib/libcgi/src/md5.c:146-252 | the digest is the last of a row of chaining values, each made from the one before and the next block of the padded message |
| Md5.InitialWords | StackLib/libcgi/src/md5.c:146-155 | the initial chaining value is the bytes 01 to ef and back |
| Md5.BlocksAppend | StackLib/libcgi/src/md5.c:177-205 | hashing may stop anywhere and go on from the chain and the unfinished block |
| Md5.TwoWords | StackLib/libcgi/src/md5.c:245-246 | the two counter words in sequence are the 64-bit length, low byte first |
| Md5.Context.AddBits | StackLib/libcgi/src/md5.c:168-173 | the two-word addition with its carry is addition modulo 2^64 |
| Md5.Context.CounterIsBitLength | StackLib/libcgi/src/md5.c:168-173 | the counter is the bit length of all that was fed, modulo 2^64 |
| Md5.Context.InBuffer | StackLib/libcgi/src/md5.c:175 | the counter alone tells how many bytes are buffered, even after it wrapped around |
| Md5.Context.Update | StackLib/libcgi/src/md5.c:162-205 | the context stands for the old message followed by the new data |
| Md5.Context.FinalBlocks | StackLib/libcgi/src/md5.c:218-248 | the last one or two blocks handed over are the end of the padded message |
| Md5.Context.Final | StackLib/libcgi/src/md5.c:212-252 | the digest is the transform over the padded message of sections 3.1 and 3.2 of RFC 1321 |
| Md5.HashChunks | StackLib/libcgi/src/md5.c:146-252 | for every split of a message into calls the digest is that of the whole message |

## Left out

- CodeGenerator.CodeGenerator.NewLabel: does not model the record's owner or the label records for listings; removal of local symbols when a function ends (`st_sym_clear_locals`) and scope splicing (`sp_flush_scope`, `sp_merge_scope_left`) are not part of this model.
- CodeGenerator.CodeGenerator.Emit: takes the bytes of an instruction as given; the per-opcode formatting of the listing is not part of this model.
- L1Optimizer.Optimizer.ThreadJumps: the reference counts of labels, which pass 1 also updates, are not modelled; no code depends on them before pass 3.
- L1Optimizer.Optimizer.Backpatch: the original returns the offset of the record that its iterator points to, which behind the loop is none, so it reads through a null pointer whenever the list is not empty; no caller uses the value, and it is not modelled.
- L1Optimizer.Optimizer.FollowChain: asks for a program without INS_JMP cycles, because on a cycle the original never leaves the loop (`Chains.InnerLoopEnds`, `Chains.RanksExist`).
- L1Optimizer.Optimizer.Compact: requires code made of the opcodes its switch lists and that no jump stalls, because the original never returns on other code (`Scan.EndsExactly`, `Scan.Scan.UnlistedRepeats`); the offsets of label records, which pass 2 also updates, are not modelled.
- L1Optimizer.Optimizer.Optimize: asks the same of the threaded code and no INS_JMP cycle of the code before, and ends before pass 3, whose label guard and reduction table use different coordinates, and before the relocation of SWITCH tables for the same reason.
- L1Semantics.ExecIsNatural: the data side of the machine is a parameter, so that the theorem holds for any; JTRUE branches and pops like JFALSE, whereas `vm_decode` has no case for it and raises its unknown-instruction exception. SYSCALL is two bytes long, as for the optimizer; the virtual machine skips a third byte if its operand is 254 or 255.
- L1Semantics.OptimizedRuns: asks that only INS_JMP is deleted, every jump is relocatable and no SWITCH occurs; code addresses reach the data only through call frames and function objects, which the machine keeps apart from the data. On code with JTRUE it speaks of a machine that has that instruction; `vm_decode` has none.
- Linker.Linker.LinkOne: updating the method record at a label with its linked offset is not modelled.
- Linker.Linker.LinkCode: units whose jump tables have less than 128 bytes; what becomes of longer ones is shown by `JumpTables.LongLengthSurvives` and `JumpTables.LongTable`. Updating method records and clearing the labels afterwards is not modelled. F2O operands are left as they are, as in the source.
- Linker.Unit.SwitchesResolve: units whose jump tables have less than 128 bytes, for the same reason.
- LinkedRuns.SwitchAgrees: for jump tables of less than 128 bytes only, like the unit it is about.
- LinkedRuns.ImageRuns: asks that every operand names an instruction or a constant of the unit and that execution does not run on behind the code. The data side of the machine is a parameter; a call into another package is a step of it. JTRUE branches and pops, whereas `vm_decode` has no case for it, and SYSCALL is two bytes long, as for the linker; the virtual machine skips a third byte if its operand is 254 or 255.
- CompiledRuns.CompiledCodeRuns: under the conditions of the two theorems it joins; the state it starts from names instructions only, not the end of the code.
- LinkedRuns.StepAgrees: of the same machine, with the same limits.
- Linker.SwitchTarget: which constants compare equal to the switched object is a parameter; object comparison is not part of this model.
- StackMachine.StepKeepsExact: object contents are not modelled, so outcomes that depend on them (a condition, a resolved class) are part of the instruction; syscalls, extension objects (`0xD0`), INS_F2O and INS_SWITCH are not steps of this machine, and JTRUE has no case in the virtual machine.
- StackMachine.CallReturns: a run in which the stacks meet has no result, as the machine then stops with an exception.
- VirtualMachine.Vm.Execute: fetching and decoding are left out, as are the instructions that are no steps of the value machine; the garbage collector that runs between instructions is `Collector.Collect`, on the heap and the slots alone; a run of the machine with collections in between is not modelled, since a collection may free what is held (`Collector.TakesFifteenHolders`).
- HeapChain.RunsAreSafe: runs do not release the address of the sentinel, after which there is no chain; the bytes of the blocks are the subject of `HeapRuns.PayloadsSurvive`.
- Midgard.Heap.Alloc: a memory cell holds a whole size or link, the header size is a parameter of at least two cells, and the caller must know the block fits, because the code has no limit check; the branch with back links and the heap managers of `ENABLE_HEAP_ALLOC` are not modelled.
- Midgard.Heap.AllocatedSpace: the 16-bit result of one configuration is not truncated.
- Midgard.Heap.Free: not called on the address one header behind NULL, where the original writes through a null pointer.
- PackageEncoder.Encoder.FlushRoot: asks for eight bytes of room beside the header, since values are first written up to six bytes further on and two more in front of a method.
- PackageEncoder.Encoder.FlushFile: asks for the same eight bytes of room.
- PackageEncoder.Encoder.FlushClass: asks for two bytes of room behind the class for the same reason.
- PackageEncoder.Encoder.FlushClasses: asks for the same two bytes of room behind the class list.
- PackageDecoder.Decoder.ReadLength: is not called where the length itself is cut off; the original then goes on with a stale byte.
- PackageDecoder.Decoder.DecodeMethod: on method values that the encoder writes.
- PackageDecoder.Decoder.DecodeClassHeader: on class values that the encoder writes, with or without nameless methods.
- PackageDecoder.Decoder.DecodeClassSeq: on classes and entries that the encoder writes.
- PackageDecoder.Decoder.HeaderTurns: on sequences of items that the encoder writes.
- PackageDecoder.Decoder.DecodeHeaderSeq: on sequences of items that the decoder gets to the end of; behind a class it gave up on it reads on in the middle of that class.
- PackageDecoder.Decoder.DecodeDataSeq: on code that the encoder wrote.
- PackageDecoder.Decoder.DecodeBuffer: describes buffers that hold an encoded package without empty method names; on other input the decoder may loop or stop early. No name holds a NUL.
- PackageRoundTrip.RoundTrip: asks for names that are not empty, which `PackageRoundTrip.ClassRoundTrip` shows to be needed.
- PackageRoundTrip.NamelessPackage: ends behind the first class with a nameless method; the decoder then reads on in the middle of that class, and what it takes those bytes for is not described.
- Cbc.Crypto.Crypt: the read and write callbacks are a file in memory with room for whole blocks; their error codes are not modelled. For length 0 the original returns a value it never set, so the length is at least 1.
- DesTables.SBox: the single entries of the S-boxes, of the compression and of the permutation behind the S-boxes are not stated in another form; all other tables are (`DesTables.ExpansionIs` and the rows beside it).
- Aes.Expanded: round constants behind the tenth are never read and left out.
- Md5.Context.Update: MD5Transform is any function of chain and block; byte reversal for big-endian machines is off, as configured.
- Md5.Context.Final: the partial clearing of the context afterwards is not modelled.
- The lexer, parser, second optimizer, listing, smart-card, CGI, session and framework code, which only surround these parts.
