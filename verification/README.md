# NOOPN hazard-run markers for RISC-V machine code

This project models the core of the RISC-V machine-instruction hazard pass,
`RISCVMachineInstrHazards`. The pass walks one basic block at a time and
looks for runs of instructions that read no register an earlier instruction
of the block writes. When such a run ends, the pass inserts one `NOOPN`
marker in front of the run's first instruction. The marker writes and reads
`X28` and carries the run's length as an immediate.

The model follows the code as written:

- An instruction that may load or store, a barrier, a branch or inline
  assembly is never analysed. It closes an open run (inserting its marker)
  and is never counted.
- Debug and CFI instructions are stepped over. They neither count nor close
  a run, but they stay inside it.
- Every other instruction is checked with `RAW_hazard` against every
  instruction from the start of the block up to itself, as the block stands
  at that moment. That includes markers inserted earlier, so once a marker
  is in the block, any later instruction that reads `X28` is dependent.
- An independent instruction opens a run or joins the open one. A dependent
  instruction closes the open run. With no run open, a dependent
  instruction changes nothing.
- The call to `updateLiveAndDefRegs` inside the loop is commented out, so
  the live and def register sets stay empty for the whole walk.
  `RAW_hazard` ignores them anyway.
- A run still open at the end of the block gets no marker.

`hasDataHazard` and `updateLiveAndDefRegs` are defined in the pass but
never called. They are modelled on their own, together with the relation
between them and `RAW_hazard`.

Modules:

- `MachineInstr` defines operands, instructions with the flags the pass
  queries, and the marker instruction.
- `Hazards` defines the three register predicates.
- `HazardPass` defines the rewritten block (input instructions plus markers)
  and one iteration of the loop.
- `RunSegmentation` gives an independent, declarative account of the
  result. Each instruction gets a kind, and the block is cut into runs.
- `MarkerPass` is the loop itself, proved to produce exactly that
  segmentation.
- `Scenarios` works through concrete blocks.

### Consequences of the code as written

- **Memory accesses.** There is no memory-hazard test. Every load and
  store ends the open run instead of being tested. The block
  `[ADD R1,R2,R3; ADD R4,R5,R6; LOAD R7,[R1]]` therefore gets one marker
  counting 2, in front of the first ADD. The load ends the run and is not
  counted (`Scenarios.RunClosedByLoad`).
- **Register sets.** The live and def sets are never filled. Independence
  is decided by scanning the block from its start. That scan includes
  debug, CFI and unanalysed instructions as well as inserted markers.
- **End of block.** A run still open when the block ends gets no marker
  (`Scenarios.OpenRunAtEndIsNotAnnounced`,
  `RunSegmentation.UnbrokenGetsNoMarker`).
- **Markers.** An inserted marker is scanned as an earlier instruction. It
  writes X28, so a later instruction that reads X28 is dependent and opens
  no run (`Scenarios.MarkerMakesX28ReaderDependent`).
- **Other hazards.** Only read-after-write is tested, never
  write-after-read or write-after-write.

## Model

| member | source | states |
|---|---|---|
| MachineInstr.UseRegsOf | llvm/lib/Target/RISCV/RISCVMachineInstrHazards.cpp:141-142 | definition of the register set that the use filter of RAW_hazard selects: the real (not NoRegister) registers of use operands |
| MachineInstr.DefRegsOf | llvm/lib/Target/RISCV/RISCVMachineInstrHazards.cpp:143-144 | definition of the register set that the def filter of RAW_hazard selects: the real (not NoRegister) registers of def operands |
| MachineInstr.NoopnRegisters | llvm/lib/Target/RISCV/RISCVMachineInstrHazards.cpp:82-84 | the marker built with def X28, use X28 and the count reads and writes X28 and no other register; its instruction flags are a modelling choice (see Left out) |
| Hazards.AnyDefines | llvm/lib/Target/RISCV/RISCVMachineInstrHazards.cpp:143-147 | the inner operand loop finds a hit exactly when some operand of the earlier instruction is a def of the register |
| Hazards.AnyUseDefined | llvm/lib/Target/RISCV/RISCVMachineInstrHazards.cpp:141-151 | the nested loops report a hazard exactly when the registers one list reads meet the registers the other writes |
| Hazards.RawHazard | llvm/lib/Target/RISCV/RISCVMachineInstrHazards.cpp:138-152 | RAW_hazard is true exactly when the current instruction reads a real register that the earlier one writes |
| Hazards.RawHazardIgnoresSets | llvm/lib/Target/RISCV/RISCVMachineInstrHazards.cpp:138-152 | the live and def sets passed to RAW_hazard never change its answer |
| Hazards.AnyUseIn | llvm/lib/Target/RISCV/RISCVMachineInstrHazards.cpp:125-135 | the operand loop returns true exactly when some use operand names a real register in the def set |
| Hazards.HasDataHazard | llvm/lib/Target/RISCV/RISCVMachineInstrHazards.cpp:123-136 | hasDataHazard is true exactly when the instruction reads a real register of the def set; the live set plays no part |
| Hazards.ApplyOperandSets | llvm/lib/Target/RISCV/RISCVMachineInstrHazards.cpp:157-166 | one operand adds its def to the def set, can add only its use to the live set, and leaves every register it does not name as it was |
| Hazards.UpdateOperands | llvm/lib/Target/RISCV/RISCVMachineInstrHazards.cpp:156-167 | after the operand loop the def set is the old one plus every real def; the live set only gains registers that are read; registers the operands do not name are untouched; NoRegister never enters |
| Hazards.UpdateLiveAndDefRegs | llvm/lib/Target/RISCV/RISCVMachineInstrHazards.cpp:154-168 | updateLiveAndDefRegs adds the instruction's defs to the def set, only ever adds registers it reads to the live set, leaves unnamed registers alone and never adds NoRegister |
| Hazards.LiveAfterLastDef | llvm/lib/Target/RISCV/RISCVMachineInstrHazards.cpp:160-162 | a def as the last operand removes the register from the live set |
| Hazards.LiveAfterLastRead | llvm/lib/Target/RISCV/RISCVMachineInstrHazards.cpp:163-164 | a use that is not a def, as the last operand, makes the register live |
| Hazards.LiveAfterLastOther | llvm/lib/Target/RISCV/RISCVMachineInstrHazards.cpp:157-159 | a last operand that neither writes the register nor only reads it leaves the register's liveness as it was |
| Hazards.UpdateOperandsInOrder | llvm/lib/Target/RISCV/RISCVMachineInstrHazards.cpp:156-167 | a register is live after the loop exactly when it was live with no later def, or some operand reads it (use, not def) and no later operand defines it |
| Hazards.DefThenUseStaysLive | llvm/lib/Target/RISCV/RISCVMachineInstrHazards.cpp:160-165 | a register that is defined and then read later in one instruction ends up in both the def set and the live set |
| Hazards.DefThenReadIsDataHazard | llvm/lib/Target/RISCV/RISCVMachineInstrHazards.cpp:123-136 | once an instruction that writes a register is folded into the sets, hasDataHazard flags any instruction that reads that register |
| Hazards.RawHazardIsDataHazardAfterUpdate | llvm/lib/Target/RISCV/RISCVMachineInstrHazards.cpp:123-152 | RAW_hazard against one earlier instruction agrees with hasDataHazard against the def set that updateLiveAndDefRegs builds from that instruction alone |
| HazardPass.ContentsAt | llvm/lib/Target/RISCV/RISCVMachineInstrHazards.cpp:94 | the block the scan walks: one instruction per entry, in order, an input instruction as itself and a marker as the NOOPN instruction it stands for |
| HazardPass.Append | llvm/lib/Target/RISCV/RISCVMachineInstrHazards.cpp:75 | the visited instruction stays in place: it follows every input instruction before it, and no marker is added |
| HazardPass.Flush | llvm/lib/Target/RISCV/RISCVMachineInstrHazards.cpp:82-84 | BuildMI at InsertPos adds exactly one marker, right in front of the run's first instruction, carrying the number of non-debug, non-CFI input instructions from there on; everything else is left where it was |
| HazardPass.DependsOnEarlier | llvm/lib/Target/RISCV/RISCVMachineInstrHazards.cpp:94-99 | the scan from the block start up to MI finds a hazard exactly when RAW_hazard holds against some instruction in front of MI |
| HazardPass.DependsOnEarlierCons | llvm/lib/Target/RISCV/RISCVMachineInstrHazards.cpp:94-99 | the scan over a first instruction followed by the rest is RAW_hazard against the first, or the scan over the rest |
| HazardPass.DependsOnRewrittenBlock | llvm/lib/Target/RISCV/RISCVMachineInstrHazards.cpp:94-99 | the scan over the rewritten block finds a hazard exactly when some visited input instruction writes a register MI reads, or a marker is already in the block and MI reads X28 |
| HazardPass.ExtendRun | llvm/lib/Target/RISCV/RISCVMachineInstrHazards.cpp:101-105 | appending an instruction that does not close the run keeps the count equal to the number of counted instructions since InsertPos |
| HazardPass.OpenRun | llvm/lib/Target/RISCV/RISCVMachineInstrHazards.cpp:102-105 | an independent instruction with no run open opens a run of count 1 at its own position |
| HazardPass.Step | llvm/lib/Target/RISCV/RISCVMachineInstrHazards.cpp:75-120 | one iteration keeps the state consistent, keeps the input instructions in order with the visited one last, and adds one marker exactly when the open run ends |
| HazardPass.StepOnRun | llvm/lib/Target/RISCV/RISCVMachineInstrHazards.cpp:79-116 | per branch: an unanalysed instruction resets the count; a debug or CFI instruction changes only the block; an independent one is counted; a dependent one resets the count, and with no run open changes nothing; a closing marker goes at InsertPos with the run's count; the register sets never grow |
| RunSegmentation.EarlierWritesIff | llvm/lib/Target/RISCV/RISCVMachineInstrHazards.cpp:94-99 | the recursive "some earlier instruction writes a register MI reads" test holds exactly when such an instruction is among the earlier ones |
| RunSegmentation.KindMatchesTest | llvm/lib/Target/RISCV/RISCVMachineInstrHazards.cpp:79-99 | for an eligible instruction, the pass's hazard test on the block built so far is exactly the declarative "dependent" kind, and "member" is exactly an eligible instruction that passes the test |
| RunSegmentation.RunEndSkips | llvm/lib/Target/RISCV/RISCVMachineInstrHazards.cpp:79-116 | no instruction in front of the run end closes the run |
| RunSegmentation.RunEndBreaks | llvm/lib/Target/RISCV/RISCVMachineInstrHazards.cpp:79-116 | the run end, unless it is the end of the block, is an unanalysed or dependent instruction |
| RunSegmentation.RunOpens | llvm/lib/Target/RISCV/RISCVMachineInstrHazards.cpp:101-105 | visiting a member with no run open opens the run that starts at that member: the member is appended, the count is 1 and InsertPos points at it |
| RunSegmentation.IdleSkips | llvm/lib/Target/RISCV/RISCVMachineInstrHazards.cpp:79-116 | with no run open, a non-member is appended unchanged, and the segmentation emits it as it is |
| RunSegmentation.RunExtends | llvm/lib/Target/RISCV/RISCVMachineInstrHazards.cpp:101-105 | inside a run, a member or a debug or CFI instruction extends the run; the count is the number of members so far |
| RunSegmentation.RunCloses | llvm/lib/Target/RISCV/RISCVMachineInstrHazards.cpp:106-115 | inside a run, the instruction that breaks it yields the marker with the member count in front of the run, followed by the run and the breaking instruction |
| RunSegmentation.RenderOpenRun | llvm/lib/Target/RISCV/RISCVMachineInstrHazards.cpp:120-121 | a run still open at the end of the block is emitted without a marker |
| RunSegmentation.RenderClosedRun | llvm/lib/Target/RISCV/RISCVMachineInstrHazards.cpp:107-115 | a run that ends inside the block is emitted as its marker, the run, the breaking instruction and the rest, with a marker now in the block |
| RunSegmentation.UnbrokenGetsNoMarker | llvm/lib/Target/RISCV/RISCVMachineInstrHazards.cpp:120-121 | when nothing from a position on breaks a run, the rest of the block is emitted unchanged, without a marker |
| RunSegmentation.NoMarkerWithoutBreak | llvm/lib/Target/RISCV/RISCVMachineInstrHazards.cpp:120-121 | a block in which no instruction is unanalysed or dependent comes out without any marker |
| RunSegmentation.MembersOfRun | llvm/lib/Target/RISCV/RISCVMachineInstrHazards.cpp:101-105 | a run counts at least the instruction that opened it |
| RunSegmentation.RenderAnnounces | llvm/lib/Target/RISCV/RISCVMachineInstrHazards.cpp:101-115 | every marker of the segmentation counts at least one instruction and stands right in front of an eligible input instruction |
| RunSegmentation.RenderRunAnnounces | llvm/lib/Target/RISCV/RISCVMachineInstrHazards.cpp:107-111 | the same for the part of the block from a run's start on |
| MarkerPass.TracksInit | llvm/lib/Target/RISCV/RISCVMachineInstrHazards.cpp:68-73 | the initial state (empty sets, count 0) satisfies the loop invariant |
| MarkerPass.IdleOpens | llvm/lib/Target/RISCV/RISCVMachineInstrHazards.cpp:101-105 | with no run open, a member keeps the loop invariant, with the new run starting at it after the block built so far |
| MarkerPass.IdleStays | llvm/lib/Target/RISCV/RISCVMachineInstrHazards.cpp:79-116 | with no run open, a non-member keeps the loop invariant with nothing else changing |
| MarkerPass.IdleAdvance | llvm/lib/Target/RISCV/RISCVMachineInstrHazards.cpp:79-116 | with no run open, one iteration keeps the loop invariant: the block built so far followed by the rest of the segmentation is the whole segmentation |
| MarkerPass.RunContinues | llvm/lib/Target/RISCV/RISCVMachineInstrHazards.cpp:101-105 | with a run open, an instruction in front of the run end keeps the loop invariant |
| MarkerPass.RunEnds | llvm/lib/Target/RISCV/RISCVMachineInstrHazards.cpp:106-115 | with a run open, the instruction at the run end keeps the loop invariant: the marker, run and breaking instruction built so far are the start of what the segmentation renders from the run's start |
| MarkerPass.RunAdvance | llvm/lib/Target/RISCV/RISCVMachineInstrHazards.cpp:79-116 | with a run open, one iteration keeps the loop invariant, whether the run goes on or ends |
| MarkerPass.TracksDone | llvm/lib/Target/RISCV/RISCVMachineInstrHazards.cpp:120-121 | after the last instruction the block built is the whole segmentation, with no final flush |
| MarkerPass.InsertNoopnInstructions | llvm/lib/Target/RISCV/RISCVMachineInstrHazards.cpp:65-121 | the loop leaves the input instructions in order with only markers added, produces exactly the run segmentation of the block, and every marker counts at least one instruction and precedes an eligible one |
| Scenarios.RunClosedByLoad | llvm/lib/Target/RISCV/RISCVMachineInstrHazards.cpp:79-88 | two independent ALU instructions followed by a load give one marker counting 2 in front of the first |
| Scenarios.DependentCloses | llvm/lib/Target/RISCV/RISCVMachineInstrHazards.cpp:106-115 | an instruction reading the register its predecessor writes closes a run of 1, and is not part of it |
| Scenarios.StoresAreNeverCounted | llvm/lib/Target/RISCV/RISCVMachineInstrHazards.cpp:79-88 | a block of two stores gets no marker |
| Scenarios.OpenRunAtEndIsNotAnnounced | llvm/lib/Target/RISCV/RISCVMachineInstrHazards.cpp:90-91 | a debug instruction inside a run neither counts nor closes it, and the run still open at the end of the block gets no marker |
| Scenarios.MarkerMakesX28ReaderDependent | llvm/lib/Target/RISCV/RISCVMachineInstrHazards.cpp:94-116 | in the block addition, load, addition reading X28, load, the marker inserted for the first run makes the X28 reader dependent, so the block gets one marker; without a marker in front of it that addition would be a run member |

## Left out

- `runOnMachineFunction` (lines 41-63) is not modelled. It loops over the
  blocks of a function, calls the per-block walk and prints every
  instruction to `errs()`. That is I/O and iteration only, and blocks are
  rewritten independently of each other.
- Pass registration and construction (`INITIALIZE_PASS`,
  `createRISCVMachineInstrHazards`, `getPassName`) are not modelled; they
  are framework plumbing.
- Only the operands of a marker are modelled. The opcode encoding
  (`TII->get(RISCV::NOOPN)`) and the empty `DebugLoc` are left out.
- MachineInstr.NoopnRegisters: the marker's load/store, barrier, branch,
  inline-asm, debug and CFI flags come from the target's instruction
  description, which is not part of this model. The model assumes them all
  clear. Nothing depends on them, because the walk visits input
  instructions only and never tests a marker's flags.
- The numeric value of `X28` is generated from the target description. The
  model fixes an arbitrary value and relies only on it differing from
  `NoRegister`.
- HazardPass.Step: does not model the 32-bit `unsigned count`, which would
  wrap after 2^32 instructions in one run; no basic block is that long.
- `MachineOperand` in LLVM makes a register operand either a use or a def.
  The model keeps `isUse` and `isDef` as independent flags, which covers
  that case and more.
- Machine basic block iterators are modelled as positions in a sequence.
  The block being rewritten is a sequence of entries in which markers are
  inserted.
- Hazards.UpdateOperands: states the live set only as bounded above by the
  registers read. The exact order-dependent content is stated separately,
  by Hazards.UpdateOperandsInOrder.
