/**
 The three register predicates of the hazard pass: the read-after-write test
 between two instructions that the pass uses, and the two set-based helpers
 (a data-hazard test and a live/def set update) that it defines but never
 calls.
 */
module Hazards {
  import opened MachineInstr

  /** The inner operand loop of RAW_hazard: some operand of the earlier
      instruction writes `r`. */
  function AnyDefines(ops: seq<Operand>, r: RegId): (b: bool)
    ensures b <==> exists k :: 0 <= k < |ops| && DefinesReg(ops[k], r)
  {
    if |ops| == 0 then false
    else
      var op := ops[0];
      if op.Reg? && r == op.reg && op.isDef && op.reg != NoRegister then true
      else
        assert forall k :: 0 <= k < |ops| - 1 ==> ops[1..][k] == ops[k + 1];
        AnyDefines(ops[1..], r)
  }

  /** The outer operand loop of RAW_hazard: some real use operand of the
      current instruction names a register the earlier instruction writes. */
  function AnyUseDefined(uses: seq<Operand>, defs: seq<Operand>): (b: bool)
    ensures b <==> UseRegsOf(uses) * DefRegsOf(defs) != {}
  {
    if |uses| == 0 then false
    else
      var op := uses[0];
      if op.Reg? && op.isUse && op.reg != NoRegister && AnyDefines(defs, op.reg) then
        assert op.reg in UseRegsOf(uses) * DefRegsOf(defs);
        true
      else
        assert UseRegsOf(uses) * DefRegsOf(defs) == UseRegsOf(uses[1..]) * DefRegsOf(defs) by {
          assert forall k :: 0 <= k < |uses| - 1 ==> uses[1..][k] == uses[k + 1];
          forall r | r in UseRegsOf(uses) * DefRegsOf(defs)
            ensures r in UseRegsOf(uses[1..])
          {
            var k :| 0 <= k < |uses| && UsesReg(uses[k], r);
            assert k != 0;
            assert UsesReg(uses[1..][k - 1], r);
          }
        }
        AnyUseDefined(uses[1..], defs)
  }

  /** RAW_hazard: `cur` reads a real register that `prev` writes. The
      live and def sets are accepted and ignored. */
  function RawHazard(cur: Instr, prev: Instr, liveRegs: set<RegId>, defRegs: set<RegId>): (b: bool)
    ensures b <==> UseRegs(cur) * DefRegs(prev) != {}
  {
    AnyUseDefined(cur.operands, prev.operands)
  }

  /** The live and def sets do not influence RAW_hazard. */
  lemma RawHazardIgnoresSets(cur: Instr, prev: Instr, l1: set<RegId>, d1: set<RegId>, l2: set<RegId>, d2: set<RegId>)
    ensures RawHazard(cur, prev, l1, d1) == RawHazard(cur, prev, l2, d2)
  {
  }

  /** The operand loop of hasDataHazard. */
  function AnyUseIn(ops: seq<Operand>, defRegs: set<RegId>): (b: bool)
    ensures b <==> UseRegsOf(ops) * defRegs != {}
  {
    if |ops| == 0 then false
    else
      var op := ops[0];
      if op.Reg? && op.reg != NoRegister && op.isUse && op.reg in defRegs then
        assert UsesReg(ops[0], op.reg);
        assert op.reg in UseRegsOf(ops) * defRegs;
        true
      else
        assert UseRegsOf(ops) * defRegs == UseRegsOf(ops[1..]) * defRegs by {
          assert forall k :: 0 <= k < |ops| - 1 ==> ops[1..][k] == ops[k + 1];
          forall r | r in UseRegsOf(ops) * defRegs
            ensures r in UseRegsOf(ops[1..])
          {
            var k :| 0 <= k < |ops| && UsesReg(ops[k], r);
            assert k != 0;
            assert UsesReg(ops[1..][k - 1], r);
          }
        }
        AnyUseIn(ops[1..], defRegs)
  }

  /** hasDataHazard: `cur` reads a real register already in `defRegs`.
      Neither `liveRegs` nor the def operands of `cur` play any part. */
  function HasDataHazard(cur: Instr, liveRegs: set<RegId>, defRegs: set<RegId>): (b: bool)
    ensures b <==> UseRegs(cur) * defRegs != {}
  {
    AnyUseIn(cur.operands, defRegs)
  }

  /** The pair of register sets updateLiveAndDefRegs works on. */
  datatype RegSets = RegSets(liveRegs: set<RegId>, defRegs: set<RegId>)

  /** One iteration of the operand loop of updateLiveAndDefRegs. */
  function ApplyOperand(op: Operand, s: RegSets): RegSets {
    if op.Reg? && op.reg != NoRegister then
      if op.isDef then RegSets(s.liveRegs - {op.reg}, s.defRegs + {op.reg})
      else if op.isUse then RegSets(s.liveRegs + {op.reg}, s.defRegs)
      else s
    else s
  }

  /** One operand adds exactly the real register it writes to defRegs,
      adds to liveRegs at most the real register it reads, and leaves every
      other register alone. */
  lemma ApplyOperandSets(op: Operand, s: RegSets)
    ensures ApplyOperand(op, s).defRegs == s.defRegs + DefRegsOf([op])
    ensures ApplyOperand(op, s).liveRegs <= s.liveRegs + UseRegsOf([op])
    ensures forall reg :: reg !in MentionedRegsOf([op]) ==>
              (reg in ApplyOperand(op, s).liveRegs <==> reg in s.liveRegs)
  {
    if op.Reg? && op.reg != NoRegister {
      assert [op][0] == op;
      assert op.reg in MentionedRegsOf([op]);
      if op.isDef { assert op.reg in DefRegsOf([op]); }
      if op.isUse { assert op.reg in UseRegsOf([op]); }
    }
  }

  /** `op` reaches the use branch of updateLiveAndDefRegs for register `r`:
      it reads `r` and does not write it. */
  predicate ReadsOnly(op: Operand, r: RegId) {
    UsesReg(op, r) && !op.isDef
  }

  /** The register sets of an operand list split at its last operand. */
  lemma OperandSetsSnoc(ops: seq<Operand>)
    requires |ops| > 0
    ensures DefRegsOf(ops) == DefRegsOf(ops[..|ops| - 1]) + DefRegsOf([ops[|ops| - 1]])
    ensures UseRegsOf(ops) == UseRegsOf(ops[..|ops| - 1]) + UseRegsOf([ops[|ops| - 1]])
    ensures MentionedRegsOf(ops) == MentionedRegsOf(ops[..|ops| - 1]) + MentionedRegsOf([ops[|ops| - 1]])
  {
    var pre, last := ops[..|ops| - 1], ops[|ops| - 1];
    assert forall k :: 0 <= k < |pre| ==> pre[k] == ops[k];
    assert DefRegsOf(ops) == DefRegsOf(pre) + DefRegsOf([last]) by {
      forall reg | reg in DefRegsOf(ops) ensures reg in DefRegsOf(pre) + DefRegsOf([last]) {
        var k :| 0 <= k < |ops| && DefinesReg(ops[k], reg);
        if k == |ops| - 1 { assert DefinesReg([last][0], reg); }
      }
    }
    assert UseRegsOf(ops) == UseRegsOf(pre) + UseRegsOf([last]) by {
      forall reg | reg in UseRegsOf(ops) ensures reg in UseRegsOf(pre) + UseRegsOf([last]) {
        var k :| 0 <= k < |ops| && UsesReg(ops[k], reg);
        if k == |ops| - 1 { assert UsesReg([last][0], reg); }
      }
      forall reg | reg in UseRegsOf([last]) ensures reg in UseRegsOf(ops) {
        assert UsesReg(ops[|ops| - 1], reg);
      }
    }
    assert MentionedRegsOf(ops) == MentionedRegsOf(pre) + MentionedRegsOf([last]) by {
      forall reg | reg in MentionedRegsOf(ops) ensures reg in MentionedRegsOf(pre) + MentionedRegsOf([last]) {
        var k :| 0 <= k < |ops| && ops[k].Reg? && ops[k].reg == reg && reg != NoRegister;
        if k == |ops| - 1 { assert [last][0].Reg? && [last][0].reg == reg; }
      }
      forall reg | reg in MentionedRegsOf([last]) ensures reg in MentionedRegsOf(ops) {
        assert ops[|ops| - 1].Reg? && ops[|ops| - 1].reg == reg;
      }
    }
  }

  /** The operand loop of updateLiveAndDefRegs, operands applied in order. */
  function UpdateOperands(ops: seq<Operand>, s: RegSets): (r: RegSets)
    ensures r.defRegs == s.defRegs + DefRegsOf(ops)
    ensures r.liveRegs <= s.liveRegs + UseRegsOf(ops)
    ensures forall reg :: reg !in MentionedRegsOf(ops) ==> (reg in r.liveRegs <==> reg in s.liveRegs)
    ensures NoRegister in r.liveRegs <==> NoRegister in s.liveRegs
    decreases |ops|
  {
    if |ops| == 0 then s
    else
      var pre := ops[..|ops| - 1];
      var last := ops[|ops| - 1];
      var mid := UpdateOperands(pre, s);
      OperandSetsSnoc(ops);
      ApplyOperandSets(last, mid);
      ApplyOperand(last, mid)
  }

  /** updateLiveAndDefRegs: afterwards defRegs holds exactly the old
      registers plus the real registers `mi` writes; liveRegs only gains
      registers `mi` reads; registers `mi` does not name keep their state;
      NoRegister is never added to either set. */
  function UpdateLiveAndDefRegs(mi: Instr, liveRegs: set<RegId>, defRegs: set<RegId>): (r: RegSets)
    ensures r.defRegs == defRegs + DefRegs(mi)
    ensures r.liveRegs <= liveRegs + UseRegs(mi)
    ensures forall reg :: reg !in MentionedRegsOf(mi.operands) ==>
              (reg in r.liveRegs <==> reg in liveRegs) && (reg in r.defRegs <==> reg in defRegs)
    ensures NoRegister in r.liveRegs <==> NoRegister in liveRegs
    ensures NoRegister in r.defRegs <==> NoRegister in defRegs
  {
    var r := UpdateOperands(mi.operands, RegSets(liveRegs, defRegs));
    assert forall reg :: reg in DefRegs(mi) ==> reg in MentionedRegsOf(mi.operands);
    r
  }

  /** Where register `reg` ends up in liveRegs after the operands are
      applied in order: it is live when its last real mention is a read
      (that is not also a write), and when it was live before and no
      operand writes it; otherwise it is not live. */
  ghost predicate LiveAfter(ops: seq<Operand>, live: set<RegId>, reg: RegId) {
    || (exists k :: 0 <= k < |ops| && ReadsOnly(ops[k], reg) &&
          forall j :: k < j < |ops| ==> !DefinesReg(ops[j], reg))
    || (reg in live && forall j :: 0 <= j < |ops| ==> !DefinesReg(ops[j], reg))
  }

  /** A last operand that writes `reg` leaves it not live. */
  lemma LiveAfterLastDef(ops: seq<Operand>, live: set<RegId>, reg: RegId)
    requires |ops| > 0 && DefinesReg(ops[|ops| - 1], reg)
    ensures !LiveAfter(ops, live, reg)
  {
    var n := |ops| - 1;
    forall k | 0 <= k < |ops| && ReadsOnly(ops[k], reg)
      ensures exists j :: k < j < |ops| && DefinesReg(ops[j], reg)
    {
      assert k != n;
      assert DefinesReg(ops[n], reg);
    }
  }

  /** A last operand that only reads `reg` leaves it live. */
  lemma LiveAfterLastRead(ops: seq<Operand>, live: set<RegId>, reg: RegId)
    requires |ops| > 0 && ReadsOnly(ops[|ops| - 1], reg)
    ensures LiveAfter(ops, live, reg)
  {
    var n := |ops| - 1;
    assert ReadsOnly(ops[n], reg);
  }

  /** A last operand that neither writes nor reads `reg` changes nothing
      about it. */
  lemma LiveAfterLastOther(ops: seq<Operand>, live: set<RegId>, reg: RegId)
    requires |ops| > 0 && !DefinesReg(ops[|ops| - 1], reg) && !ReadsOnly(ops[|ops| - 1], reg)
    ensures LiveAfter(ops, live, reg) <==> LiveAfter(ops[..|ops| - 1], live, reg)
  {
    var pre := ops[..|ops| - 1];
    var n := |ops| - 1;
    assert forall k :: 0 <= k < |pre| ==> pre[k] == ops[k];
    if LiveAfter(pre, live, reg) {
      if exists k :: 0 <= k < |pre| && ReadsOnly(pre[k], reg) &&
           forall j :: k < j < |pre| ==> !DefinesReg(pre[j], reg) {
        var k :| 0 <= k < |pre| && ReadsOnly(pre[k], reg) &&
           forall j :: k < j < |pre| ==> !DefinesReg(pre[j], reg);
        assert ReadsOnly(ops[k], reg);
        assert forall j :: k < j < |ops| ==> !DefinesReg(ops[j], reg);
      } else {
        assert forall j :: 0 <= j < |ops| ==> !DefinesReg(ops[j], reg);
      }
    }
    if LiveAfter(ops, live, reg) {
      if exists k :: 0 <= k < |ops| && ReadsOnly(ops[k], reg) &&
           forall j :: k < j < |ops| ==> !DefinesReg(ops[j], reg) {
        var k :| 0 <= k < |ops| && ReadsOnly(ops[k], reg) &&
           forall j :: k < j < |ops| ==> !DefinesReg(ops[j], reg);
        assert k != n;
        assert ReadsOnly(pre[k], reg);
      }
    }
  }

  /** Operands are processed in order, so the last def or use of a register
      decides whether it stays live. */
  lemma {:induction false} UpdateOperandsInOrder(ops: seq<Operand>, s: RegSets, reg: RegId)
    ensures reg in UpdateOperands(ops, s).liveRegs <==> LiveAfter(ops, s.liveRegs, reg)
    decreases |ops|
  {
    if |ops| != 0 {
      var pre, last := ops[..|ops| - 1], ops[|ops| - 1];
      UpdateOperandsInOrder(pre, s, reg);
      assert UpdateOperands(ops, s) == ApplyOperand(last, UpdateOperands(pre, s));
      if DefinesReg(last, reg) {
        LiveAfterLastDef(ops, s.liveRegs, reg);
      } else if ReadsOnly(last, reg) {
        LiveAfterLastRead(ops, s.liveRegs, reg);
      } else {
        LiveAfterLastOther(ops, s.liveRegs, reg);
      }
    }
  }

  /** A register written and then read by a later operand of the same
      instruction is live afterwards, and defined. */
  lemma DefThenUseStaysLive(mi: Instr, liveRegs: set<RegId>, defRegs: set<RegId>, reg: RegId, i: nat, j: nat)
    requires i < j < |mi.operands|
    requires DefinesReg(mi.operands[i], reg)
    requires ReadsOnly(mi.operands[j], reg)
    requires forall k :: j < k < |mi.operands| ==> !DefinesReg(mi.operands[k], reg)
    ensures reg in UpdateLiveAndDefRegs(mi, liveRegs, defRegs).liveRegs
    ensures reg in UpdateLiveAndDefRegs(mi, liveRegs, defRegs).defRegs
  {
    UpdateOperandsInOrder(mi.operands, RegSets(liveRegs, defRegs), reg);
  }

  /** Folding an instruction that writes `reg` into the sets makes any
      later reader of `reg` a data hazard. */
  lemma DefThenReadIsDataHazard(prev: Instr, cur: Instr, liveRegs: set<RegId>, defRegs: set<RegId>, reg: RegId)
    requires reg in DefRegs(prev) && reg in UseRegs(cur)
    ensures HasDataHazard(cur, UpdateLiveAndDefRegs(prev, liveRegs, defRegs).liveRegs,
                          UpdateLiveAndDefRegs(prev, liveRegs, defRegs).defRegs)
  {
    assert reg in UseRegs(cur) * UpdateLiveAndDefRegs(prev, liveRegs, defRegs).defRegs;
  }

  /** The pairwise test the pass uses agrees with the set-based test run
      against the registers `prev` alone defines. */
  lemma RawHazardIsDataHazardAfterUpdate(cur: Instr, prev: Instr)
    ensures RawHazard(cur, prev, {}, {}) == HasDataHazard(cur, {}, UpdateLiveAndDefRegs(prev, {}, {}).defRegs)
  {
  }
}
