/**
 insertNOOPNInstructions: one left-to-right walk over a basic block that
 counts runs of independent instructions and inserts a NOOPN marker, carrying
 the run length, in front of each run it closes.

 The block being rewritten is a sequence of entries: the input instructions,
 in order, and the markers inserted so far. The walk visits input
 instructions only; every hazard test scans the whole block in front of the
 visited instruction as it stands at that moment, markers included.
 */
module HazardPass {
  import opened MachineInstr
  import opened Hazards

  /** An entry of the rewritten block: an input instruction, or a NOOPN
      marker the pass inserted (with the immediate it carries). */
  datatype Entry = Original(instr: Instr) | Marker(count: nat)

  /** The machine instruction an entry stands for. */
  function AsInstr(e: Entry): Instr {
    match e
    case Original(mi) => mi
    case Marker(c) => Noopn(c)
  }

  /** The block as the target sees it, markers and input instructions alike. */
  function Contents(out: seq<Entry>): (b: seq<Instr>)
    ensures |b| == |out|
  {
    if |out| == 0 then [] else [AsInstr(out[0])] + Contents(out[1..])
  }

  /** Entry by entry, the block the target sees holds the instruction each
      entry stands for. */
  lemma {:induction false} ContentsAt(out: seq<Entry>)
    ensures forall k :: 0 <= k < |out| ==> Contents(out)[k] == AsInstr(out[k])
    decreases |out|
  {
    if |out| > 0 {
      ContentsAt(out[1..]);
      assert forall k :: 1 <= k < |out| ==> out[1..][k - 1] == out[k];
    }
  }

  /** The input instructions of a rewritten block, in order: the block with
      every inserted marker removed. */
  function Erase(out: seq<Entry>): seq<Instr> {
    if |out| == 0 then [] else Kept(out[0]) + Erase(out[1..])
  }

  /** What an entry contributes to Erase. */
  function Kept(e: Entry): seq<Instr> {
    if e.Original? then [e.instr] else []
  }

  /** The number of inserted markers. */
  function MarkerCount(out: seq<Entry>): nat {
    if |out| == 0 then 0
    else (if out[0].Marker? then 1 else 0) + MarkerCount(out[1..])
  }

  /** The entries wrapping a sequence of input instructions. */
  function Originals(s: seq<Instr>): (out: seq<Entry>)
    ensures |out| == |s|
  {
    if |s| == 0 then [] else [Original(s[0])] + Originals(s[1..])
  }

  /** The number of entries a run counts: input instructions that are not
      debug or CFI instructions. */
  function Counted(seg: seq<Entry>): nat {
    if |seg| == 0 then 0
    else Counted(seg[..|seg| - 1]) + (if seg[|seg| - 1].Original? && !IsTransparent(seg[|seg| - 1].instr) then 1 else 0)
  }

  lemma {:induction false} EraseAppend(a: seq<Entry>, b: seq<Entry>)
    ensures Erase(a + b) == Erase(a) + Erase(b)
    decreases |a|
  {
    if |a| == 0 {
      assert a + b == b;
    } else {
      assert (a + b)[0] == a[0];
      assert (a + b)[1..] == a[1..] + b;
      EraseAppend(a[1..], b);
      calc {
        Erase(a + b);
        Kept(a[0]) + Erase(a[1..] + b);
        Kept(a[0]) + (Erase(a[1..]) + Erase(b));
        (Kept(a[0]) + Erase(a[1..])) + Erase(b);
      }
    }
  }

  lemma {:induction false} MarkerCountAppend(a: seq<Entry>, b: seq<Entry>)
    ensures MarkerCount(a + b) == MarkerCount(a) + MarkerCount(b)
    decreases |a|
  {
    if |a| == 0 {
      assert a + b == b;
    } else {
      assert (a + b)[1..] == a[1..] + b;
      MarkerCountAppend(a[1..], b);
    }
  }

  lemma {:induction false} EraseOriginals(s: seq<Instr>)
    ensures Erase(Originals(s)) == s
    ensures MarkerCount(Originals(s)) == 0
    decreases |s|
  {
    if |s| != 0 {
      assert Originals(s)[1..] == Originals(s[1..]);
      EraseOriginals(s[1..]);
    }
  }

  lemma {:induction false} OriginalsAppend(a: seq<Instr>, b: seq<Instr>)
    ensures Originals(a + b) == Originals(a) + Originals(b)
    decreases |a|
  {
    if |a| == 0 {
      assert a + b == b;
    } else {
      assert (a + b)[0] == a[0];
      assert (a + b)[1..] == a[1..] + b;
      OriginalsAppend(a[1..], b);
    }
  }

  lemma CountedAppend(seg: seq<Entry>, e: Entry)
    ensures Counted(seg + [e]) == Counted(seg) + (if e.Original? && !IsTransparent(e.instr) then 1 else 0)
  {
    assert (seg + [e])[..|seg|] == seg;
  }

  /** The block with `e` inserted in front of position `pos`. */
  function InsertAt(out: seq<Entry>, pos: nat, e: Entry): seq<Entry>
    requires pos <= |out|
  {
    out[..pos] + [e] + out[pos..]
  }

  /** Regrouping a concatenation. */
  lemma Assoc(x: seq<Entry>, y: seq<Entry>, z: seq<Entry>)
    ensures x + y + z == x + (y + z)
  {
  }

  /** Splitting a concatenation where its parts meet. */
  lemma SplitAt(x: seq<Entry>, y: seq<Entry>)
    ensures (x + y)[..|x|] == x && (x + y)[|x|..] == y
  {
  }

  lemma EraseSingle(e: Entry)
    ensures Erase([e]) == Kept(e)
    ensures MarkerCount([e]) == (if e.Marker? then 1 else 0)
  {
    assert [e][1..] == [];
  }

  /** Inserting a marker leaves the input instructions as they were. */
  lemma InsertMarkerErase(out: seq<Entry>, pos: nat, c: nat)
    requires pos <= |out|
    ensures Erase(InsertAt(out, pos, Marker(c))) == Erase(out)
  {
    var front, back := out[..pos], out[pos..];
    assert out == front + back;
    assert InsertAt(out, pos, Marker(c)) == (front + [Marker(c)]) + back;
    EraseSingle(Marker(c));
    EraseAppend(front + [Marker(c)], back);
    EraseAppend(front, [Marker(c)]);
    EraseAppend(front, back);
  }

  /** Inserting a marker adds one marker. */
  lemma InsertMarkerCount(out: seq<Entry>, pos: nat, c: nat)
    requires pos <= |out|
    ensures MarkerCount(InsertAt(out, pos, Marker(c))) == MarkerCount(out) + 1
  {
    var front, back := out[..pos], out[pos..];
    assert out == front + back;
    assert InsertAt(out, pos, Marker(c)) == (front + [Marker(c)]) + back;
    EraseSingle(Marker(c));
    MarkerCountAppend(front + [Marker(c)], back);
    MarkerCountAppend(front, [Marker(c)]);
    MarkerCountAppend(front, back);
  }

  /** The pass state while walking one block: the block rewritten so far,
      the (unused) live and def register sets, the length of the open run
      and the position of its first instruction. */
  datatype RunState = RunState(
    out: seq<Entry>,
    liveRegs: set<RegId>,
    defRegs: set<RegId>,
    count: nat,
    insertPos: nat)

  /** The state at the start of a block: nothing emitted, no run open. */
  function Init(): RunState {
    RunState([], {}, {}, 0, 0)
  }

  /** While a run is open, insertPos points into the block and count is
      the number of entries from there on that are input instructions other
      than debug or CFI instructions. */
  predicate Valid(st: RunState) {
    st.count > 0 ==> st.insertPos < |st.out| && st.count == Counted(st.out[st.insertPos..])
  }

  /** The loop over MBB.begin() up to MI: some instruction in front of `mi`
      defines a register `mi` reads. */
  function DependsOnEarlier(mi: Instr, earlier: seq<Instr>, liveRegs: set<RegId>, defRegs: set<RegId>): (b: bool)
    ensures b <==> exists k :: 0 <= k < |earlier| && RawHazard(mi, earlier[k], liveRegs, defRegs)
  {
    if |earlier| == 0 then false
    else if RawHazard(mi, earlier[0], liveRegs, defRegs) then true
    else
      assert forall k :: 0 <= k < |earlier| - 1 ==> earlier[1..][k] == earlier[k + 1];
      DependsOnEarlier(mi, earlier[1..], liveRegs, defRegs)
  }

  /** `mi` fails the independence test against the block rewritten so far. */
  predicate HasHazard(st: RunState, mi: Instr) {
    DependsOnEarlier(mi, Contents(st.out), st.liveRegs, st.defRegs)
  }

  /** Visiting `mi` ends the open run: it is an instruction the pass does
      not analyse, or an eligible instruction that fails the test. */
  predicate EndsOpenRun(st: RunState, mi: Instr) {
    st.count > 0 && (ClosesRun(mi) || (Eligible(mi) && HasHazard(st, mi)))
  }

  /** The visited instruction stays where it is: after everything already
      in the block. */
  function Append(out: seq<Entry>, mi: Instr): (r: seq<Entry>)
    ensures Erase(r) == Erase(out) + [mi]
    ensures MarkerCount(r) == MarkerCount(out)
    ensures |r| == |out| + 1
  {
    EraseAppend(out, [Original(mi)]);
    MarkerCountAppend(out, [Original(mi)]);
    EraseSingle(Original(mi));
    out + [Original(mi)]
  }

  /** BuildMI at InsertPos: the marker for the open run, carrying its
      count, goes in front of the run's first instruction. */
  function Flush(st: RunState): (out: seq<Entry>)
    requires Valid(st) && st.count > 0
    ensures Erase(out) == Erase(st.out)
    ensures MarkerCount(out) == MarkerCount(st.out) + 1
    ensures |out| == |st.out| + 1
    ensures out[..st.insertPos] == st.out[..st.insertPos]
    ensures out[st.insertPos] == Marker(Counted(st.out[st.insertPos..]))
    ensures out[st.insertPos + 1..] == st.out[st.insertPos..]
  {
    InsertMarkerErase(st.out, st.insertPos, st.count);
    InsertMarkerCount(st.out, st.insertPos, st.count);
    InsertAt(st.out, st.insertPos, Marker(st.count))
  }

  /** An instruction that does not close the open run keeps the state valid
      once appended, counted when it is not a debug or CFI instruction. */
  lemma ExtendRun(st: RunState, mi: Instr, count: nat)
    requires Valid(st) && st.count > 0 && !ClosesRun(mi)
    requires count == st.count + (if IsTransparent(mi) then 0 else 1)
    ensures Valid(st.(out := Append(st.out, mi), count := count))
  {
    var out := Append(st.out, mi);
    assert out[st.insertPos..] == st.out[st.insertPos..] + [Original(mi)];
    CountedAppend(st.out[st.insertPos..], Original(mi));
  }

  /** An independent instruction with no run open opens one. */
  lemma OpenRun(st: RunState, mi: Instr)
    requires Eligible(mi)
    ensures Valid(RunState(Append(st.out, mi), st.liveRegs, st.defRegs, 1, |st.out|))
  {
    var out := Append(st.out, mi);
    assert out[|st.out|..] == [Original(mi)];
    assert [Original(mi)][..0] == [];
  }

  /** One iteration of the loop of insertNOOPNInstructions. It only
      inserts: the visited instruction stays after everything in front of
      it, and at most one marker is added, exactly when the open run ends. */
  function Step(st: RunState, mi: Instr): (r: RunState)
    requires Valid(st)
    ensures Valid(r)
    ensures Erase(r.out) == Erase(st.out) + [mi]
    ensures MarkerCount(r.out) == MarkerCount(st.out) + (if EndsOpenRun(st, mi) then 1 else 0)
  {
    if ClosesRun(mi) then
      if st.count != 0 then
        RunState(Append(Flush(st), mi), st.liveRegs, st.defRegs, 0, st.insertPos)
      else
        st.(out := Append(st.out, mi))
    else if IsTransparent(mi) then
      if st.count > 0 then ExtendRun(st, mi, st.count); st.(out := Append(st.out, mi))
      else st.(out := Append(st.out, mi))
    else if !DependsOnEarlier(mi, Contents(st.out), st.liveRegs, st.defRegs) then
      if st.count == 0 then
        OpenRun(st, mi);
        RunState(Append(st.out, mi), st.liveRegs, st.defRegs, 1, |st.out|)
      else
        ExtendRun(st, mi, st.count + 1);
        st.(out := Append(st.out, mi), count := st.count + 1)
    else if st.count > 0 then
      RunState(Append(Flush(st), mi), {}, {}, 0, st.insertPos)
    else
      st.(out := Append(st.out, mi))
  }

  /** What one iteration does to the run: instructions the pass does not
      analyse are never counted; debug and CFI instructions change nothing
      but the block; an independent instruction joins (or opens) the run; a
      dependent one is never counted and, with no run open, changes nothing;
      the marker that closes a run goes right in front of the run's first
      instruction and carries the number of instructions the run counted;
      the register sets never grow. */
  lemma StepOnRun(st: RunState, mi: Instr)
    requires Valid(st)
    ensures ClosesRun(mi) ==> Step(st, mi).count == 0
    ensures !ClosesRun(mi) && IsTransparent(mi) ==> Step(st, mi) == st.(out := st.out + [Original(mi)])
    ensures Eligible(mi) && !HasHazard(st, mi) ==>
              Step(st, mi).count == st.count + 1 && Step(st, mi).out == st.out + [Original(mi)]
    ensures Eligible(mi) && HasHazard(st, mi) ==> Step(st, mi).count == 0
    ensures Eligible(mi) && HasHazard(st, mi) && st.count == 0 ==>
              Step(st, mi) == st.(out := st.out + [Original(mi)])
    ensures EndsOpenRun(st, mi) ==>
              Step(st, mi).out
              == st.out[..st.insertPos] + [Marker(Counted(st.out[st.insertPos..]))] + st.out[st.insertPos..]
                 + [Original(mi)]
    ensures Step(st, mi).liveRegs <= st.liveRegs && Step(st, mi).defRegs <= st.defRegs
  {
  }

  /** The independence test against `x` followed by `rest`. */
  lemma DependsOnEarlierCons(mi: Instr, x: Instr, rest: seq<Instr>, liveRegs: set<RegId>, defRegs: set<RegId>)
    ensures DependsOnEarlier(mi, [x] + rest, liveRegs, defRegs) ==
              (RawHazard(mi, x, liveRegs, defRegs) || DependsOnEarlier(mi, rest, liveRegs, defRegs))
  {
    assert ([x] + rest)[0] == x;
    assert ([x] + rest)[1..] == rest;
  }

  /** The hazard scan over the block rewritten so far reduces to a scan of
      the input instructions already visited, plus the marker effect: once
      a marker has been inserted, any instruction reading X28 depends on it. */
  lemma {:induction false} DependsOnRewrittenBlock(mi: Instr, out: seq<Entry>, liveRegs: set<RegId>, defRegs: set<RegId>)
    ensures DependsOnEarlier(mi, Contents(out), liveRegs, defRegs) <==>
              (exists prev :: prev in Erase(out) && UseRegs(mi) * DefRegs(prev) != {})
              || (MarkerCount(out) > 0 && X28 in UseRegs(mi))
    decreases |out|
  {
    if |out| != 0 {
      var e, rest := out[0], out[1..];
      DependsOnRewrittenBlock(mi, rest, liveRegs, defRegs);
      assert Contents(out) == [AsInstr(e)] + Contents(rest);
      DependsOnEarlierCons(mi, AsInstr(e), Contents(rest), liveRegs, defRegs);
      assert Erase(out) == Kept(e) + Erase(rest);
      assert MarkerCount(out) == (if e.Marker? then 1 else 0) + MarkerCount(rest);
      match e
      case Original(x) =>
        assert Erase(out) == [x] + Erase(rest);
        assert forall prev :: prev in Erase(out) <==> prev == x || prev in Erase(rest);
      case Marker(c) =>
        NoopnRegisters(c);
        assert Erase(out) == Erase(rest);
        assert RawHazard(mi, AsInstr(e), liveRegs, defRegs) <==> X28 in UseRegs(mi) by {
          if X28 in UseRegs(mi) {
            assert X28 in UseRegs(mi) * DefRegs(Noopn(c));
          }
        }
    }
  }
}
