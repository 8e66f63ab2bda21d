/**
 A declarative description of what insertNOOPNInstructions produces, and the
 proof that the walk produces exactly that.

 Each input instruction gets a kind: not analysed (loads, stores, barriers,
 branches, inline assembly), transparent (debug and CFI), a run member
 (independent), or dependent. A run starts at a member that follows no open
 run, takes in members and transparent instructions, and ends at the next
 not-analysed or dependent instruction. A run that ends inside the block is
 announced by one marker, carrying its member count, in front of its first
 instruction; a run still open at the end of the block is not announced.

 The only way an inserted marker affects later decisions: it writes X28, so
 once one is in the block every later instruction that reads X28 is
 dependent.
 */
module RunSegmentation {
  import opened MachineInstr
  import opened HazardPass

  datatype Kind = Unanalysed | Transparent | Member | Dependent

  /** The kinds that end an open run. */
  predicate Breaks(k: Kind) {
    k.Unanalysed? || k.Dependent?
  }

  /** Some instruction of `earlier` writes a register `mi` reads. */
  predicate EarlierWrites(earlier: seq<Instr>, mi: Instr) {
    |earlier| > 0
    && (UseRegs(mi) * DefRegs(earlier[|earlier| - 1]) != {} || EarlierWrites(earlier[..|earlier| - 1], mi))
  }

  lemma {:induction false} EarlierWritesIff(earlier: seq<Instr>, mi: Instr)
    ensures EarlierWrites(earlier, mi) <==> exists prev :: prev in earlier && UseRegs(mi) * DefRegs(prev) != {}
    decreases |earlier|
  {
    if |earlier| > 0 {
      var init, last := earlier[..|earlier| - 1], earlier[|earlier| - 1];
      EarlierWritesIff(init, mi);
      assert earlier == init + [last];
      assert forall prev :: prev in earlier <==> prev in init || prev == last;
    }
  }

  /** How the pass treats block[i], `marked` telling whether some marker is
      already in the block when block[i] is visited. */
  function KindAt(block: seq<Instr>, i: nat, marked: bool): Kind
    requires i < |block|
  {
    var mi := block[i];
    if ClosesRun(mi) then Unanalysed
    else if IsTransparent(mi) then Transparent
    else if EarlierWrites(block[..i], mi) || (marked && X28 in UseRegs(mi)) then Dependent
    else Member
  }

  /** The first position at or after `i` whose instruction ends a run, or
      the end of the block. */
  function RunEnd(block: seq<Instr>, i: nat, marked: bool): (b: nat)
    requires i <= |block|
    ensures i <= b <= |block|
    decreases |block| - i
  {
    if i == |block| || Breaks(KindAt(block, i, marked)) then i
    else RunEnd(block, i + 1, marked)
  }

  /** Nothing in front of the run end breaks the run. */
  lemma {:induction false} RunEndSkips(block: seq<Instr>, i: nat, marked: bool, k: nat)
    requires i <= |block| && i <= k < RunEnd(block, i, marked)
    ensures !Breaks(KindAt(block, k, marked))
    decreases |block| - i
  {
    if k > i {
      RunEndSkips(block, i + 1, marked, k);
    }
  }

  /** The run end, unless it is the end of the block, breaks the run. */
  lemma {:induction false} RunEndBreaks(block: seq<Instr>, i: nat, marked: bool)
    requires i <= |block|
    ensures RunEnd(block, i, marked) < |block| ==> Breaks(KindAt(block, RunEnd(block, i, marked), marked))
    decreases |block| - i
  {
    if i < |block| && !Breaks(KindAt(block, i, marked)) {
      RunEndBreaks(block, i + 1, marked);
    }
  }

  /** The number of members among block[a..b]. */
  function Members(block: seq<Instr>, a: nat, b: nat, marked: bool): nat
    requires a <= b <= |block|
    decreases b - a
  {
    if b == a then 0
    else Members(block, a, b - 1, marked) + (if KindAt(block, b - 1, marked).Member? then 1 else 0)
  }

  /** The rewritten block from position `i` on, with no run open at `i`. */
  function Render(block: seq<Instr>, i: nat, marked: bool): seq<Entry>
    requires i <= |block|
    decreases |block| - i, 1
  {
    if i == |block| then []
    else if KindAt(block, i, marked).Member? then RenderRun(block, i, RunEnd(block, i + 1, marked), marked)
    else [Original(block[i])] + Render(block, i + 1, marked)
  }

  /** The run block[a..b] and everything after it: a run still open at the
      end of the block stays unannounced; one that block[b] ends gets its
      marker in front, and the segmentation resumes after block[b] with a
      marker now in the block. */
  function RenderRun(block: seq<Instr>, a: nat, b: nat, marked: bool): seq<Entry>
    requires a < b <= |block|
    decreases |block| - a, 0
  {
    if b == |block| then Originals(block[a..])
    else [Marker(Members(block, a, b, marked))] + Originals(block[a..b]) + [Original(block[b])]
         + Render(block, b + 1, true)
  }

  /** The pass's independence test on the block rewritten so far is the
      kind test: a member is exactly an eligible instruction the walk finds
      independent. */
  lemma KindMatchesTest(block: seq<Instr>, i: nat, st: RunState, marked: bool)
    requires i < |block|
    requires Erase(st.out) == block[..i]
    requires marked == (MarkerCount(st.out) > 0)
    ensures Eligible(block[i]) ==> (HasHazard(st, block[i]) <==> KindAt(block, i, marked).Dependent?)
    ensures KindAt(block, i, marked).Member? <==> Eligible(block[i]) && !HasHazard(st, block[i])
  {
    DependsOnRewrittenBlock(block[i], st.out, st.liveRegs, st.defRegs);
    EarlierWritesIff(block[..i], block[i]);
  }

  lemma SliceStep(block: seq<Instr>, i: nat)
    requires i < |block|
    ensures block[i..][0] == block[i]
    ensures block[i..][1..] == block[i + 1..]
    ensures block[..i] + [block[i]] == block[..i + 1]
  {
  }

  lemma ExtendSlice(block: seq<Instr>, a: nat, k: nat)
    requires a <= k < |block|
    ensures Originals(block[a..k + 1]) == Originals(block[a..k]) + [Original(block[k])]
  {
    assert block[a..k + 1] == block[a..k] + [block[k]];
    OriginalsAppend(block[a..k], [block[k]]);
    assert [block[k]][1..] == [];
  }

  /** A member visited with no run open opens a run. */
  lemma RunOpens(block: seq<Instr>, i: nat, st: RunState, marked: bool) returns (next: RunState)
    requires i < |block| && Valid(st) && st.count == 0
    requires Erase(st.out) == block[..i] && marked == (MarkerCount(st.out) > 0)
    requires KindAt(block, i, marked).Member?
    ensures next == Step(st, block[i])
    ensures next.liveRegs <= st.liveRegs && next.defRegs <= st.defRegs
    ensures InRun(block, i, i + 1, st.out, next, marked)
  {
    var mi := block[i];
    next := Step(st, mi);
    StepOnRun(st, mi);
    SliceStep(block, i);
    KindMatchesTest(block, i, st, marked);
    assert next == RunState(st.out + [Original(mi)], st.liveRegs, st.defRegs, 1, |st.out|);
    assert block[i..i + 1] == [mi];
    assert Originals(block[i..i + 1]) == [Original(mi)];
    assert Members(block, i, i + 1, marked) == 1;
  }

  /** Any other instruction visited with no run open is only appended. */
  lemma IdleSkips(block: seq<Instr>, i: nat, st: RunState, marked: bool) returns (next: RunState)
    requires i < |block| && Valid(st) && st.count == 0
    requires Erase(st.out) == block[..i] && marked == (MarkerCount(st.out) > 0)
    requires !KindAt(block, i, marked).Member?
    ensures next == Step(st, block[i])
    ensures next == st.(out := st.out + [Original(block[i])])
    ensures Erase(next.out) == block[..i + 1] && MarkerCount(next.out) == MarkerCount(st.out)
    ensures Render(block, i, marked) == [Original(block[i])] + Render(block, i + 1, marked)
  {
    var mi := block[i];
    next := Step(st, mi);
    StepOnRun(st, mi);
    SliceStep(block, i);
    KindMatchesTest(block, i, st, marked);
  }

  /** The state inside the run that opened at block[a], after block[..k]:
      the run's entries follow `base`, where insertPos points. */
  ghost predicate InRun(block: seq<Instr>, a: nat, k: nat, base: seq<Entry>, st: RunState, marked: bool) {
    && a < k <= |block|
    && KindAt(block, a, marked).Member?
    && k <= RunEnd(block, a + 1, marked)
    && Valid(st) && st.count > 0
    && st.out == base + Originals(block[a..k])
    && st.insertPos == |base| && st.count == Members(block, a, k, marked)
    && Erase(base) == block[..a]
    && marked == (MarkerCount(base) > 0)
    && Erase(st.out) == block[..k]
    && MarkerCount(st.out) == MarkerCount(base)
  }

  /** A member or transparent instruction inside the run extends it. */
  lemma RunExtends(block: seq<Instr>, a: nat, k: nat, base: seq<Entry>, st: RunState, marked: bool)
    returns (next: RunState)
    requires InRun(block, a, k, base, st, marked)
    requires k < RunEnd(block, a + 1, marked)
    ensures next == Step(st, block[k])
    ensures next.liveRegs <= st.liveRegs && next.defRegs <= st.defRegs
    ensures InRun(block, a, k + 1, base, next, marked)
  {
    var mi := block[k];
    KindMatchesTest(block, k, st, marked);
    SliceStep(block, k);
    RunEndSkips(block, a + 1, marked, k);
    var kind := KindAt(block, k, marked);
    assert kind.Member? || kind.Transparent?;
    next := Step(st, mi);
    StepOnRun(st, mi);
    assert next.out == st.out + [Original(mi)];
    assert next.insertPos == st.insertPos;
    assert next.count == st.count + (if kind.Member? then 1 else 0);
    assert Members(block, a, k + 1, marked) == Members(block, a, k, marked) + (if kind.Member? then 1 else 0);
    ExtendSlice(block, a, k);
    Assoc(base, Originals(block[a..k]), [Original(mi)]);
  }

  /** The instruction that ends the run: the marker, carrying the run's
      member count, lands in front of the run's first instruction. */
  lemma RunCloses(block: seq<Instr>, a: nat, k: nat, base: seq<Entry>, st: RunState, marked: bool)
    returns (next: RunState)
    requires InRun(block, a, k, base, st, marked)
    requires k == RunEnd(block, a + 1, marked) < |block|
    ensures next == Step(st, block[k])
    ensures next.liveRegs <= st.liveRegs && next.defRegs <= st.defRegs
    ensures next.out
              == base + [Marker(Members(block, a, k, marked))] + Originals(block[a..k]) + [Original(block[k])]
    ensures Valid(next) && next.count == 0
    ensures Erase(next.out) == block[..k + 1]
    ensures MarkerCount(next.out) > 0
  {
    var mi := block[k];
    next := Step(st, mi);
    StepOnRun(st, mi);
    KindMatchesTest(block, k, st, marked);
    SliceStep(block, k);
    RunEndBreaks(block, a + 1, marked);
    assert EndsOpenRun(st, mi);
    SplitAt(base, Originals(block[a..k]));
  }

  /** Render at the member that opens a run which stays open to the end of
      the block. */
  lemma {:induction false} RenderOpenRun(block: seq<Instr>, a: nat, marked: bool)
    requires a < |block| && KindAt(block, a, marked).Member?
    requires RunEnd(block, a + 1, marked) == |block|
    ensures Render(block, a, marked) == Originals(block[a..])
  {
    assert Render(block, a, marked) == RenderRun(block, a, |block|, marked);
  }

  /** Render at the member that opens a run ending at block[b]. */
  lemma {:induction false} RenderClosedRun(block: seq<Instr>, a: nat, marked: bool, b: nat)
    requires a < |block| && KindAt(block, a, marked).Member?
    requires b == RunEnd(block, a + 1, marked) < |block|
    ensures Render(block, a, marked)
              == [Marker(Members(block, a, b, marked))] + Originals(block[a..b]) + [Original(block[b])]
                 + Render(block, b + 1, true)
  {
    assert Render(block, a, marked) == RenderRun(block, a, b, marked);
    RunClosed(block, a, b, marked);
  }

  lemma RunClosed(block: seq<Instr>, a: nat, b: nat, marked: bool)
    requires a < b < |block|
    ensures RenderRun(block, a, b, marked)
              == [Marker(Members(block, a, b, marked))] + Originals(block[a..b]) + [Original(block[b])]
                 + Render(block, b + 1, true)
  {
  }

  /** With nothing from block[i] on breaking a run, the run end is the end
      of the block. */
  lemma {:induction false} RunEndOfUnbroken(block: seq<Instr>, i: nat, marked: bool)
    requires i <= |block|
    requires forall k :: i <= k < |block| ==> !Breaks(KindAt(block, k, marked))
    ensures RunEnd(block, i, marked) == |block|
  {
    RunEndBreaks(block, i, marked);
  }

  lemma OriginalsCons(s: seq<Instr>)
    requires |s| > 0
    ensures Originals(s) == [Original(s[0])] + Originals(s[1..])
  {
  }

  /** No end-of-block flush: when nothing from block[i] on closes a run or
      depends on an earlier instruction, the rest of the block is emitted
      as it is, without a marker. */
  lemma {:induction false} UnbrokenGetsNoMarker(block: seq<Instr>, i: nat, marked: bool)
    requires i <= |block|
    requires forall k :: i <= k < |block| ==> !Breaks(KindAt(block, k, marked))
    ensures Render(block, i, marked) == Originals(block[i..])
    decreases |block| - i
  {
    if i < |block| {
      if KindAt(block, i, marked).Member? {
        RunEndOfUnbroken(block, i + 1, marked);
        assert Render(block, i, marked) == RenderRun(block, i, |block|, marked);
      } else {
        UnbrokenGetsNoMarker(block, i + 1, marked);
        OriginalsCons(block[i..]);
        assert block[i..][1..] == block[i + 1..];
      }
    }
  }

  /** A whole block in which no instruction closes a run or depends on an
      earlier one comes out of the pass unchanged. */
  lemma NoMarkerWithoutBreak(block: seq<Instr>)
    requires forall k :: 0 <= k < |block| ==> !Breaks(KindAt(block, k, false))
    ensures Render(block, 0, false) == Originals(block)
  {
    UnbrokenGetsNoMarker(block, 0, false);
    assert block[0..] == block;
  }

  /** A run counts at least its first instruction. */
  lemma {:induction false} MembersOfRun(block: seq<Instr>, a: nat, b: nat, marked: bool)
    requires a < b <= |block| && KindAt(block, a, marked).Member?
    ensures Members(block, a, b, marked) >= 1
    decreases b - a
  {
    if b - 1 > a {
      MembersOfRun(block, a, b - 1, marked);
    }
  }

  /** Every marker counts at least one instruction and is directly followed
      by an input instruction the hazard test applies to: the first
      instruction of its run. */
  ghost predicate Announces(out: seq<Entry>) {
    forall k :: 0 <= k < |out| && out[k].Marker? ==>
      out[k].count >= 1 && k + 1 < |out| && out[k + 1].Original? && Eligible(out[k + 1].instr)
  }

  /** A sequence of input instructions holds no marker. */
  lemma {:induction false} OriginalsHaveNoMarker(s: seq<Instr>)
    ensures forall k :: 0 <= k < |Originals(s)| ==> Originals(s)[k].Original?
    ensures Announces(Originals(s))
    decreases |s|
  {
    if |s| > 0 {
      OriginalsHaveNoMarker(s[1..]);
      OriginalsCons(s);
    }
  }

  lemma AnnouncesJoin(x: seq<Entry>, y: seq<Entry>)
    requires Announces(x) && Announces(y)
    requires |x| > 0 ==> x[|x| - 1].Original?
    ensures Announces(x + y)
  {
    forall k | 0 <= k < |x + y| && (x + y)[k].Marker?
      ensures (x + y)[k].count >= 1 && k + 1 < |x + y| && (x + y)[k + 1].Original?
              && Eligible((x + y)[k + 1].instr)
    {
      if k < |x| {
        assert x[k].Marker?;
      } else {
        assert y[k - |x|].Marker?;
      }
    }
  }

  /** A marker in front of a run's first instruction. */
  lemma AnnouncesMarker(m: Entry, o: seq<Entry>)
    requires m.Marker? && m.count >= 1 && Announces(o)
    requires |o| > 0 && o[0].Original? && Eligible(o[0].instr)
    ensures Announces([m] + o)
  {
    forall k | 0 <= k < |[m] + o| && ([m] + o)[k].Marker?
      ensures ([m] + o)[k].count >= 1 && k + 1 < |[m] + o| && ([m] + o)[k + 1].Original?
              && Eligible(([m] + o)[k + 1].instr)
    {
      if k > 0 {
        assert o[k - 1].Marker?;
      }
    }
  }

  /** Every marker the pass inserts announces a run of at least one
      instruction and sits right in front of that run's first instruction. */
  lemma {:induction false} RenderAnnounces(block: seq<Instr>, i: nat, marked: bool)
    requires i <= |block|
    ensures Announces(Render(block, i, marked))
    decreases |block| - i, 1
  {
    if i < |block| {
      if KindAt(block, i, marked).Member? {
        RenderRunAnnounces(block, i, RunEnd(block, i + 1, marked), marked);
      } else {
        RenderAnnounces(block, i + 1, marked);
        OriginalsHaveNoMarker([block[i]]);
        assert Originals([block[i]]) == [Original(block[i])];
        AnnouncesJoin([Original(block[i])], Render(block, i + 1, marked));
      }
    }
  }

  lemma {:induction false} RenderRunAnnounces(block: seq<Instr>, a: nat, b: nat, marked: bool)
    requires a < b <= |block| && KindAt(block, a, marked).Member?
    ensures Announces(RenderRun(block, a, b, marked))
    decreases |block| - a, 0
  {
    if b == |block| {
      OriginalsHaveNoMarker(block[a..]);
    } else {
      var m, o, x := Marker(Members(block, a, b, marked)), Originals(block[a..b]), Original(block[b]);
      MembersOfRun(block, a, b, marked);
      OriginalsHaveNoMarker(block[a..b]);
      OriginalsCons(block[a..b]);
      AnnouncesMarker(m, o);
      OriginalsHaveNoMarker([block[b]]);
      assert Originals([block[b]]) == [x];
      assert ([m] + o)[|o|] == o[|o| - 1];
      AnnouncesJoin([m] + o, [x]);
      RenderAnnounces(block, b + 1, true);
      AnnouncesJoin([m] + o + [x], Render(block, b + 1, true));
      RunClosed(block, a, b, marked);
    }
  }
}
