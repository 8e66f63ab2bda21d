/**
 insertNOOPNInstructions as the loop the pass runs over one basic block,
 and the proof that it produces the run segmentation of the block.
 */
module MarkerPass {
  import opened MachineInstr
  import opened HazardPass
  import opened RunSegmentation

  /** The loop invariant after block[..i]: the state is valid, the register
      sets are still empty, the visited instructions are in the block in
      order, and what is emitted so far followed by what the segmentation
      renders from here on is the segmentation of the whole block. With a
      run open (since block[a], emitted after `base`) the rest is rendered
      from the run's start, where its marker still has to go. */
  ghost predicate Tracks(block: seq<Instr>, i: nat, st: RunState, a: nat, base: seq<Entry>, whole: seq<Entry>) {
    && i <= |block|
    && Valid(st) && st.liveRegs == {} && st.defRegs == {}
    && Erase(st.out) == block[..i]
    && (st.count == 0 ==>
          st.out + Render(block, i, MarkerCount(st.out) > 0) == whole)
    && (st.count > 0 ==>
          && InRun(block, a, i, base, st, MarkerCount(base) > 0)
          && base + Render(block, a, MarkerCount(base) > 0) == whole)
  }

  lemma TracksInit(block: seq<Instr>, whole: seq<Entry>)
    requires whole == Render(block, 0, false)
    ensures Tracks(block, 0, Init(), 0, [], whole)
  {
    assert block[..0] == [];
  }

  /** A member visited with no run open: the run it opens starts right
      after the block emitted so far. */
  lemma IdleOpens(block: seq<Instr>, i: nat, st: RunState, a: nat, base: seq<Entry>, whole: seq<Entry>)
    requires i < |block| && st.count == 0 && Tracks(block, i, st, a, base, whole)
    requires KindAt(block, i, MarkerCount(st.out) > 0).Member?
    ensures Tracks(block, i + 1, Step(st, block[i]), i, st.out, whole)
  {
    var next := RunOpens(block, i, st, MarkerCount(st.out) > 0);
  }

  /** Any other instruction visited with no run open. */
  lemma IdleStays(block: seq<Instr>, i: nat, st: RunState, a: nat, base: seq<Entry>, whole: seq<Entry>)
    requires i < |block| && st.count == 0 && Tracks(block, i, st, a, base, whole)
    requires !KindAt(block, i, MarkerCount(st.out) > 0).Member?
    ensures Tracks(block, i + 1, Step(st, block[i]), a, base, whole)
  {
    var marked := MarkerCount(st.out) > 0;
    var next := IdleSkips(block, i, st, marked);
    Assoc(st.out, [Original(block[i])], Render(block, i + 1, marked));
  }

  /** One iteration with no run open. */
  lemma IdleAdvance(block: seq<Instr>, i: nat, st: RunState, a: nat, base: seq<Entry>, whole: seq<Entry>)
    returns (a': nat, base': seq<Entry>)
    requires i < |block| && st.count == 0 && Tracks(block, i, st, a, base, whole)
    ensures Tracks(block, i + 1, Step(st, block[i]), a', base', whole)
  {
    if KindAt(block, i, MarkerCount(st.out) > 0).Member? {
      IdleOpens(block, i, st, a, base, whole);
      a', base' := i, st.out;
    } else {
      IdleStays(block, i, st, a, base, whole);
      a', base' := a, base;
    }
  }

  /** One iteration inside the run that opened at block[a], at an
      instruction that does not end it. */
  lemma RunContinues(block: seq<Instr>, i: nat, st: RunState, a: nat, base: seq<Entry>, whole: seq<Entry>)
    requires i < |block| && st.count > 0 && Tracks(block, i, st, a, base, whole)
    requires i < RunEnd(block, a + 1, MarkerCount(base) > 0)
    ensures Tracks(block, i + 1, Step(st, block[i]), a, base, whole)
  {
    var next := RunExtends(block, a, i, base, st, MarkerCount(base) > 0);
  }

  /** The iteration that ends the run that opened at block[a]. */
  lemma RunEnds(block: seq<Instr>, i: nat, st: RunState, a: nat, base: seq<Entry>, whole: seq<Entry>)
    requires i < |block| && st.count > 0 && Tracks(block, i, st, a, base, whole)
    requires i == RunEnd(block, a + 1, MarkerCount(base) > 0)
    ensures Tracks(block, i + 1, Step(st, block[i]), a, base, whole)
  {
    var marked := MarkerCount(base) > 0;
    var next := RunCloses(block, a, i, base, st, marked);
    RenderClosedRun(block, a, marked, i);
    Regroup(base, Marker(Members(block, a, i, marked)), Originals(block[a..i]), Original(block[i]),
            Render(block, i + 1, true));
  }

  lemma Regroup(base: seq<Entry>, m: Entry, o: seq<Entry>, x: Entry, r: seq<Entry>)
    ensures base + [m] + o + [x] + r == base + ([m] + o + [x] + r)
  {
  }

  /** One iteration inside the run that opened at block[a]. */
  lemma RunAdvance(block: seq<Instr>, i: nat, st: RunState, a: nat, base: seq<Entry>, whole: seq<Entry>)
    requires i < |block| && st.count > 0 && Tracks(block, i, st, a, base, whole)
    ensures Tracks(block, i + 1, Step(st, block[i]), a, base, whole)
  {
    if i < RunEnd(block, a + 1, MarkerCount(base) > 0) {
      RunContinues(block, i, st, a, base, whole);
    } else {
      RunEnds(block, i, st, a, base, whole);
    }
  }

  /** After the last instruction: a run still open gets no marker. */
  lemma TracksDone(block: seq<Instr>, st: RunState, a: nat, base: seq<Entry>, whole: seq<Entry>)
    requires Tracks(block, |block|, st, a, base, whole)
    ensures st.out == whole
  {
    if st.count > 0 {
      var marked := MarkerCount(base) > 0;
      RenderOpenRun(block, a, marked);
      assert block[a..|block|] == block[a..];
    }
  }

  /** insertNOOPNInstructions on one basic block: the input instructions
      stay in order, and the block becomes its run segmentation, one marker
      carrying the member count in front of every run that ends inside the
      block; every marker counts at least one instruction and stands right
      in front of an instruction the hazard test applies to. */
  method InsertNoopnInstructions(block: seq<Instr>) returns (out: seq<Entry>)
    ensures Erase(out) == block
    ensures out == Render(block, 0, false)
    ensures Announces(out)
  {
    var st := Init();
    var i := 0;
    ghost var a: nat, base: seq<Entry> := 0, [];
    ghost var whole := Render(block, 0, false);
    TracksInit(block, whole);
    while i < |block|
      invariant Tracks(block, i, st, a, base, whole)
      decreases |block| - i
    {
      if st.count == 0 {
        a, base := IdleAdvance(block, i, st, a, base, whole);
      } else {
        RunAdvance(block, i, st, a, base, whole);
      }
      st := Step(st, block[i]);
      i := i + 1;
    }
    TracksDone(block, st, a, base, whole);
    assert block[..|block|] == block;
    RenderAnnounces(block, 0, false);
    out := st.out;
  }
}
