/**
 Concrete blocks and what the pass makes of them. By the contract of
 MarkerPass.InsertNoopnInstructions, the pass's output on a block is its run
 segmentation Render(block, 0, false), so each lemma states the output of
 the pass.
 */
module Scenarios {
  import opened MachineInstr
  import opened HazardPass
  import opened RunSegmentation

  /** An arithmetic instruction writing `d` from `s1` and `s2`. */
  function Alu(d: RegId, s1: RegId, s2: RegId): Instr {
    Instr([Reg(d, false, true), Reg(s1, true, false), Reg(s2, true, false)],
          false, false, false, false, false, false)
  }

  /** A load into `d` from the address in `base`. */
  function Load(d: RegId, base: RegId): Instr {
    Instr([Reg(d, false, true), Reg(base, true, false), Imm(0)], true, false, false, false, false, false)
  }

  /** A store of `src` to the address in `base`. */
  function Store(src: RegId, base: RegId): Instr {
    Instr([Reg(src, true, false), Reg(base, true, false), Imm(0)], true, false, false, false, false, false)
  }

  /** A debug value instruction reading `r`. */
  function DebugValue(r: RegId): Instr {
    Instr([Reg(r, true, false)], false, false, false, false, true, false)
  }

  lemma AluRegs(d: RegId, s1: RegId, s2: RegId)
    requires d != NoRegister && s1 != NoRegister && s2 != NoRegister
    ensures UseRegs(Alu(d, s1, s2)) == {s1, s2}
    ensures DefRegs(Alu(d, s1, s2)) == {d}
  {
    var ops := Alu(d, s1, s2).operands;
    assert UsesReg(ops[1], s1) && UsesReg(ops[2], s2) && DefinesReg(ops[0], d);
  }

  lemma DebugValueRegs(r: RegId)
    ensures DefRegs(DebugValue(r)) == {}
  {
    var ops := DebugValue(r).operands;
    assert forall k :: 0 <= k < |ops| ==> !ops[k].isDef;
  }

  /** Two independent additions followed by a load that reads the first
      one's result: the load does not take part in the hazard test and
      closes the run, whose marker counts the two additions. */
  lemma RunClosedByLoad()
    ensures Render([Alu(1, 2, 3), Alu(4, 5, 6), Load(7, 1)], 0, false)
            == [Marker(2), Original(Alu(1, 2, 3)), Original(Alu(4, 5, 6)), Original(Load(7, 1))]
  {
    var block := [Alu(1, 2, 3), Alu(4, 5, 6), Load(7, 1)];
    AluRegs(1, 2, 3);
    AluRegs(4, 5, 6);
    assert block[..1] == [Alu(1, 2, 3)];
    assert KindAt(block, 0, false) == Member;
    assert KindAt(block, 1, false) == Member;
    assert KindAt(block, 2, false) == Unanalysed;
    assert RunEnd(block, 1, false) == 2;
    assert Members(block, 0, 2, false) == 2;
    assert block[0..2] == [Alu(1, 2, 3), Alu(4, 5, 6)];
    assert Originals(block[0..2]) == [Original(Alu(1, 2, 3)), Original(Alu(4, 5, 6))];
    RunClosed(block, 0, 2, false);
  }

  /** An addition reading the result of the one before it: the first
      addition forms a run of one, announced in front of it, and the second
      belongs to no run. */
  lemma DependentCloses()
    ensures Render([Alu(1, 2, 3), Alu(4, 1, 6)], 0, false)
            == [Marker(1), Original(Alu(1, 2, 3)), Original(Alu(4, 1, 6))]
  {
    var block := [Alu(1, 2, 3), Alu(4, 1, 6)];
    AluRegs(1, 2, 3);
    AluRegs(4, 1, 6);
    assert block[..1] == [Alu(1, 2, 3)];
    assert KindAt(block, 0, false) == Member;
    assert 1 in UseRegs(block[1]) * DefRegs(block[0]);
    assert KindAt(block, 1, false) == Dependent;
    assert RunEnd(block, 1, false) == 1;
    assert Members(block, 0, 1, false) == 1;
    assert block[0..1] == [Alu(1, 2, 3)];
    assert Originals(block[0..1]) == [Original(Alu(1, 2, 3))];
    RunClosed(block, 0, 1, false);
  }

  /** Two stores: neither is ever counted, so no marker appears. */
  lemma StoresAreNeverCounted()
    ensures Render([Store(2, 1), Store(3, 1)], 0, false) == [Original(Store(2, 1)), Original(Store(3, 1))]
  {
    var block := [Store(2, 1), Store(3, 1)];
    assert KindAt(block, 0, false) == Unanalysed;
    assert KindAt(block, 1, false) == Unanalysed;
  }

  /** Two independent additions and a debug instruction at the end of the
      block: the run is still open when the block ends and gets no marker. */
  lemma OpenRunAtEndIsNotAnnounced()
    ensures Render([Alu(1, 2, 3), DebugValue(1), Alu(4, 5, 6)], 0, false)
            == [Original(Alu(1, 2, 3)), Original(DebugValue(1)), Original(Alu(4, 5, 6))]
  {
    var block := [Alu(1, 2, 3), DebugValue(1), Alu(4, 5, 6)];
    AluRegs(1, 2, 3);
    AluRegs(4, 5, 6);
    assert block[..2] == [Alu(1, 2, 3), DebugValue(1)];
    assert KindAt(block, 0, false) == Member;
    assert KindAt(block, 1, false) == Transparent;
    DebugValueRegs(1);
    assert UseRegs(block[2]) * DefRegs(block[1]) == {};
    assert UseRegs(block[2]) * DefRegs(block[0]) == {};
    assert block[..2][..1] == [Alu(1, 2, 3)];
    assert !EarlierWrites(block[..2][..1], block[2]);
    assert !EarlierWrites(block[..2], block[2]);
    assert KindAt(block, 2, false) == Member;
    NoMarkerWithoutBreak(block);
    assert block[1..] == [DebugValue(1), Alu(4, 5, 6)];
    assert block[2..] == [Alu(4, 5, 6)];
  }

  /** An addition closed by a load gets a marker; the next addition reads
      X28 and so depends on that marker, although no input instruction
      writes X28. It opens no run, and the final load closes nothing: the
      block gets one marker. Without a marker in front of it, the same
      addition would be a member and open a second run. */
  lemma MarkerMakesX28ReaderDependent()
    ensures Render([Alu(1, 2, 3), Load(4, 5), Alu(6, X28, 7), Load(8, 9)], 0, false)
            == [Marker(1), Original(Alu(1, 2, 3)), Original(Load(4, 5)), Original(Alu(6, X28, 7)),
                Original(Load(8, 9))]
    ensures KindAt([Alu(1, 2, 3), Load(4, 5), Alu(6, X28, 7), Load(8, 9)], 2, false) == Member
  {
    var block := [Alu(1, 2, 3), Load(4, 5), Alu(6, X28, 7), Load(8, 9)];
    AluRegs(1, 2, 3);
    AluRegs(6, X28, 7);
    assert block[..0] == [];
    assert KindAt(block, 0, false) == Member;
    assert KindAt(block, 1, false) == Unanalysed;
    assert RunEnd(block, 1, false) == 1;
    assert Members(block, 0, 1, false) == 1;
    assert block[0..1] == [Alu(1, 2, 3)];
    assert Originals(block[0..1]) == [Original(Alu(1, 2, 3))];
    RunClosed(block, 0, 1, false);
    assert block[..2] == [Alu(1, 2, 3), Load(4, 5)];
    assert DefRegs(Load(4, 5)) == {4} by {
      assert DefinesReg(Load(4, 5).operands[0], 4);
    }
    assert UseRegs(block[2]) * DefRegs(block[1]) == {};
    assert UseRegs(block[2]) * DefRegs(block[0]) == {};
    assert block[..2][..1] == [Alu(1, 2, 3)];
    assert !EarlierWrites(block[..2][..1], block[2]);
    assert !EarlierWrites(block[..2], block[2]);
    assert KindAt(block, 2, false) == Member;
    assert KindAt(block, 2, true) == Dependent;
    assert KindAt(block, 3, true) == Unanalysed;
    assert Render(block, 4, true) == [];
    assert Render(block, 3, true) == [Original(Load(8, 9))];
    assert Render(block, 2, true) == [Original(Alu(6, X28, 7)), Original(Load(8, 9))];
  }
}
