/**
 The instruction model the hazard pass works on: machine operands, machine
 instructions with the behavioural flags the pass inspects, and the NOOPN
 marker instruction the pass inserts.
 */
module MachineInstr {

  /** A physical register number as the target numbers it. */
  type RegId = nat

  /** The reserved "no register" number, skipped by every register test. */
  const NoRegister: RegId := 0

  /** The carrier register of the NOOPN marker. Its enumerator value is
      generated from the target description and is arbitrary here: the
      model only relies on it differing from NoRegister. */
  const X28: RegId := 28

  /** A machine operand: a register (with its use and def flags), an
      immediate, or any other kind of operand. */
  datatype Operand =
    | Reg(reg: RegId, isUse: bool, isDef: bool)
    | Imm(value: int)
    | Other

  /** A machine instruction: its operand list and the instruction
      properties the pass queries. */
  datatype Instr = Instr(
    operands: seq<Operand>,
    mayLoadOrStore: bool,
    isBarrier: bool,
    isBranch: bool,
    isInlineAsm: bool,
    isDebugInstr: bool,
    isCFIInstruction: bool)

  /** Instructions the pass refuses to analyse: they are never counted and
      they close any open run. */
  predicate ClosesRun(mi: Instr) {
    mi.mayLoadOrStore || mi.isBarrier || mi.isBranch || mi.isInlineAsm
  }

  /** Debug and CFI instructions, which the pass steps over (when they do
      not also close a run). */
  predicate IsTransparent(mi: Instr) {
    mi.isDebugInstr || mi.isCFIInstruction
  }

  /** Instructions that take part in the hazard test and can join a run. */
  predicate Eligible(mi: Instr) {
    !ClosesRun(mi) && !IsTransparent(mi)
  }

  /** `op` reads register `r` (a real register, not NoRegister). */
  predicate UsesReg(op: Operand, r: RegId) {
    op.Reg? && op.isUse && op.reg == r && r != NoRegister
  }

  /** `op` writes register `r` (a real register, not NoRegister). */
  predicate DefinesReg(op: Operand, r: RegId) {
    op.Reg? && op.isDef && op.reg == r && r != NoRegister
  }

  /** The real registers some operand reads. */
  function UseRegsOf(ops: seq<Operand>): (s: set<RegId>)
    ensures forall r :: r in s <==> exists k :: 0 <= k < |ops| && UsesReg(ops[k], r)
  {
    set k | 0 <= k < |ops| && ops[k].Reg? && ops[k].isUse && ops[k].reg != NoRegister :: ops[k].reg
  }

  /** The real registers some operand writes. */
  function DefRegsOf(ops: seq<Operand>): (s: set<RegId>)
    ensures forall r :: r in s <==> exists k :: 0 <= k < |ops| && DefinesReg(ops[k], r)
  {
    set k | 0 <= k < |ops| && ops[k].Reg? && ops[k].isDef && ops[k].reg != NoRegister :: ops[k].reg
  }

  /** The real registers named by some register operand, whatever its flags. */
  function MentionedRegsOf(ops: seq<Operand>): (s: set<RegId>)
    ensures forall r :: r in s <==> exists k :: 0 <= k < |ops| && ops[k].Reg? && ops[k].reg == r && r != NoRegister
  {
    set k | 0 <= k < |ops| && ops[k].Reg? && ops[k].reg != NoRegister :: ops[k].reg
  }

  function UseRegs(mi: Instr): set<RegId> {
    UseRegsOf(mi.operands)
  }

  function DefRegs(mi: Instr): set<RegId> {
    DefRegsOf(mi.operands)
  }

  /** The NOOPN marker announcing a run of `count` instructions: built with
      X28 as its destination (a def), X28 again as a use, and the count as
      an immediate. Its instruction flags come from the target description;
      they are taken to be clear here, and the walk never tests them. */
  function Noopn(count: nat): Instr {
    Instr([Reg(X28, false, true), Reg(X28, true, false), Imm(count)],
          false, false, false, false, false, false)
  }

  /** A marker reads and writes X28 and no other register. */
  lemma NoopnRegisters(count: nat)
    ensures UseRegs(Noopn(count)) == {X28}
    ensures DefRegs(Noopn(count)) == {X28}
    ensures Eligible(Noopn(count))
  {
    var ops := Noopn(count).operands;
    assert UsesReg(ops[1], X28);
    assert DefinesReg(ops[0], X28);
  }
}
