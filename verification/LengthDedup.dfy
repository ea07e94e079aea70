/** Dropping the entries that repeat what an earlier breakpoint already set. */
module LengthDedup {
  import opened Words
  import opened LengthTables
  import opened LengthArrange
  import Sorting

  /** The table after executing every block, whatever its version. */
  function State(bps: seq<Breakpoint>): LenTable {
    if bps == [] then map[] else State(bps[..|bps| - 1]) + TableOf(bps[|bps| - 1].entries)
  }

  predicate Sets(t: LenTable, e: LengthEntry) {
    e.id in t && t[e.id] == e.length
  }

  /** Every entry changes the table it is stored into. */
  ghost predicate LeanBlock(t: LenTable, es: seq<LengthEntry>) {
    forall j :: 0 <= j < |es| ==> !Sets(t + TableOf(es[..j]), es[j])
  }

  ghost predicate Lean(bps: seq<Breakpoint>) {
    bps == [] ||
    (Lean(bps[..|bps| - 1]) && LeanBlock(State(bps[..|bps| - 1]), bps[|bps| - 1].entries))
  }

  lemma {:induction false} LeanAt(bps: seq<Breakpoint>, i: nat)
    requires Lean(bps) && i < |bps|
    ensures LeanBlock(State(bps[..i]), bps[i].entries)
  {
    var n := |bps| - 1;
    if i < n {
      LeanAt(bps[..n], i);
      assert bps[..n][..i] == bps[..i];
    }
  }

  lemma {:induction false} StateIsRun(bps: seq<Breakpoint>, pv: uint32)
    requires forall i :: 0 <= i < |bps| ==> bps[i].ver <= pv
    ensures Run(bps, pv) == State(bps)
  {
    if bps != [] { StateIsRun(bps[..|bps| - 1], pv); }
  }

  lemma RunAppend(bps: seq<Breakpoint>, bp: Breakpoint, pv: uint32)
    ensures Run(bps + [bp], pv) == if bp.ver <= pv then Run(bps, pv) + TableOf(bp.entries) else Run(bps, pv)
    ensures State(bps + [bp]) == State(bps) + TableOf(bp.entries)
  {
    assert (bps + [bp])[..|bps|] == bps;
  }

  lemma LeanAppend(bps: seq<Breakpoint>, bp: Breakpoint)
    requires Lean(bps) && LeanBlock(State(bps), bp.entries)
    ensures Lean(bps + [bp])
  {
    assert (bps + [bp])[..|bps|] == bps;
  }

  /** One block: keep the entries that change the running state. */
  method KeepChanges(state0: LenTable, es: seq<LengthEntry>) returns (kept: seq<LengthEntry>, state: LenTable)
    ensures state == state0 + TableOf(es) == state0 + TableOf(kept)
    ensures LeanBlock(state0, kept)
    ensures DistinctIds(es) ==> DistinctIds(kept)
  {
    kept, state := [], state0;
    assert es[..0] == [] && state0 + map[] == state0;
    for j := 0 to |es|
      invariant state == state0 + TableOf(es[..j]) == state0 + TableOf(kept)
      invariant LeanBlock(state0, kept)
      invariant KeptFrom(kept, es[..j])
    {
      var e := es[j];
      assert es[..j + 1] == es[..j] + [e];
      StoreOne(state0, es[..j], e);
      StoreOne(state0, kept, e);
      KeptGrows(kept, es[..j], e);
      if !(e.id in state && state[e.id] == e.length) {
        KeepOne(state0, kept, e);
        kept := kept + [e];
        state := state[e.id := e.length];
      } else {
        assert state[e.id := e.length] == state;
      }
    }
    assert es[..|es|] == es;
  }

  ghost predicate KeptFrom(kept: seq<LengthEntry>, es: seq<LengthEntry>) {
    && (forall k :: 0 <= k < |kept| ==> kept[k] in es)
    && (DistinctIds(es) ==> DistinctIds(kept))
  }

  lemma KeptGrows(kept: seq<LengthEntry>, es: seq<LengthEntry>, e: LengthEntry)
    requires KeptFrom(kept, es)
    ensures KeptFrom(kept, es + [e]) && KeptFrom(kept + [e], es + [e])
  {
    var more := es + [e];
    if DistinctIds(more) {
      forall i, j | 0 <= i < j < |es| ensures es[i].id != es[j].id {
        assert more[i] == es[i] && more[j] == es[j];
      }
      forall k | 0 <= k < |kept| ensures kept[k].id != e.id {
        var i :| 0 <= i < |es| && es[i] == kept[k];
        assert more[i] == es[i] && more[|es|] == e;
      }
    }
  }

  lemma StoreOne(t: LenTable, es: seq<LengthEntry>, e: LengthEntry)
    ensures t + TableOf(es + [e]) == (t + TableOf(es))[e.id := e.length]
  {
    TableOfAppend(es, e);
  }

  lemma KeepOne(t: LenTable, kept: seq<LengthEntry>, e: LengthEntry)
    requires LeanBlock(t, kept) && !Sets(t + TableOf(kept), e)
    ensures LeanBlock(t, kept + [e])
  {
    forall j | 0 <= j <= |kept| ensures !Sets(t + TableOf((kept + [e])[..j]), (kept + [e])[j]) {
      assert (kept + [e])[..j] == kept[..j];
      assert kept[..|kept|] == kept;
    }
  }

  /** All versions of `bps` are at most `ver`, strictly so if they are pairwise distinct. */
  ghost predicate Climbs(result: seq<Breakpoint>, limit: int, distinct: bool) {
    && SortedByVer(result)
    && (forall i :: 0 <= i < |result| ==> result[i].ver <= limit)
    && (distinct ==> WellFormed(result) && forall i :: 0 <= i < |result| ==> result[i].ver < limit)
  }

  lemma SortedWellFormed(bps: seq<Breakpoint>, sorted: seq<Breakpoint>)
    requires multiset(bps) == multiset(sorted) && WellFormed(bps)
    ensures WellFormed(sorted)
  {
    assert Sorting.Distinct(bps);
    Sorting.PermutationDistinct(bps, sorted);
    forall i | 0 <= i < |sorted| ensures DistinctIds(sorted[i].entries) {
      Sorting.PermutationMember(bps, sorted, sorted[i]);
    }
    forall i, j | 0 <= i < j < |sorted| ensures sorted[i].ver != sorted[j].ver {
      Sorting.PermutationMember(bps, sorted, sorted[i]);
      Sorting.PermutationMember(bps, sorted, sorted[j]);
      assert sorted[i] != sorted[j];
    }
  }

  ghost predicate SameRuns(bps: seq<Breakpoint>, bps': seq<Breakpoint>) {
    forall pv: uint32 :: Run(bps, pv) == Run(bps', pv)
  }

  lemma BlockDropped(result: seq<Breakpoint>, done: seq<Breakpoint>, bp: Breakpoint)
    requires SameRuns(result, done)
    requires forall i :: 0 <= i < |done| ==> done[i].ver <= bp.ver
    requires State(done) == State(done) + TableOf(bp.entries)
    ensures SameRuns(result, done + [bp])
  {
    forall pv: uint32 ensures Run(result, pv) == Run(done + [bp], pv) {
      RunAppend(done, bp, pv);
      if bp.ver <= pv { StateIsRun(done, pv); }
    }
  }

  lemma BlockKept(result: seq<Breakpoint>, done: seq<Breakpoint>, bp: Breakpoint, kept: seq<LengthEntry>)
    requires SameRuns(result, done)
    requires forall i :: 0 <= i < |done| ==> done[i].ver <= bp.ver
    requires State(done) + TableOf(kept) == State(done) + TableOf(bp.entries)
    ensures SameRuns(result + [Breakpoint(bp.ver, kept)], done + [bp])
  {
    forall pv: uint32 ensures Run(result + [Breakpoint(bp.ver, kept)], pv) == Run(done + [bp], pv) {
      RunAppend(result, Breakpoint(bp.ver, kept), pv);
      RunAppend(done, bp, pv);
      if bp.ver <= pv { StateIsRun(done, pv); }
    }
  }

  lemma StatesAgree(result: seq<Breakpoint>, done: seq<Breakpoint>, limit: uint32)
    requires SameRuns(result, done)
    requires forall i :: 0 <= i < |result| ==> result[i].ver <= limit
    requires forall i :: 0 <= i < |done| ==> done[i].ver <= limit
    ensures State(result) == State(done)
  {
    StateIsRun(result, limit);
    StateIsRun(done, limit);
    assert Run(result, limit) == Run(done, limit);
  }

  /** The loop over the sorted list. */
  method DropRepeats(list: seq<Breakpoint>) returns (result: seq<Breakpoint>)
    requires SortedByVer(list)
    ensures SortedByVer(result) && SameRuns(result, list) && Lean(result)
    ensures WellFormed(list) ==> WellFormed(result)
  {
    var state: LenTable := map[];
    ghost var distinct := WellFormed(list);
    result := [];
    for i := 0 to |list|
      invariant Dropped(result, list, i, state, distinct)
    {
      var kept, after := KeepChanges(state, list[i].entries);
      DropStep(result, list, i, state, distinct, kept);
      if |kept| > 0 {
        result := result + [Breakpoint(list[i].ver, kept)];
      }
      state := after;
    }
    assert list[..|list|] == list;
  }

  /** The loop has executed the first `i` blocks, and kept of them what `result` holds. */
  ghost predicate Dropped(result: seq<Breakpoint>, list: seq<Breakpoint>, i: nat, state: LenTable, distinct: bool)
    requires i <= |list|
  {
    && state == State(list[..i]) && SameRuns(result, list[..i]) && Lean(result)
    && Climbs(result, Next(list, i), distinct)
  }

  lemma {:induction false} DropStep(result: seq<Breakpoint>, list: seq<Breakpoint>, i: nat, state: LenTable,
                                    distinct: bool, kept: seq<LengthEntry>)
    requires SortedByVer(list) && i < |list| && Dropped(result, list, i, state, distinct)
    requires distinct ==> WellFormed(list) && DistinctIds(kept)
    requires state + TableOf(kept) == state + TableOf(list[i].entries) && LeanBlock(state, kept)
    ensures Dropped(if |kept| > 0 then result + [Breakpoint(list[i].ver, kept)] else result, list, i + 1,
                    state + TableOf(list[i].entries), distinct)
  {
    assert list[..i + 1] == list[..i] + [list[i]];
    StatesAgree(result, list[..i], list[i].ver);
    ClimbOn(list, i, result, kept, distinct);
    StepRuns(result, list[..i], list[i], kept);
  }

  lemma StepRuns(result: seq<Breakpoint>, done: seq<Breakpoint>, bp: Breakpoint, kept: seq<LengthEntry>)
    requires SameRuns(result, done) && State(result) == State(done)
    requires forall i :: 0 <= i < |done| ==> done[i].ver <= bp.ver
    requires State(done) + TableOf(kept) == State(done) + TableOf(bp.entries)
    requires Lean(result) && LeanBlock(State(done), kept)
    ensures State(done + [bp]) == State(done) + TableOf(bp.entries)
    ensures var next := if kept == [] then result else result + [Breakpoint(bp.ver, kept)];
            SameRuns(next, done + [bp]) && Lean(next)
  {
    RunAppend(done, bp, 0);
    if kept == [] {
      assert State(done) + map[] == State(done);
      BlockDropped(result, done, bp);
    } else {
      BlockKept(result, done, bp, kept);
      LeanAppend(result, Breakpoint(bp.ver, kept));
    }
  }

  /**
   Sort by version (not stably), then keep only the entries that change the running state.
   Executing the result leaves the same table as executing the sorted input, at every version.
   */
  method DeduplicateLengthBreakpoints(bps: seq<Breakpoint>)
    returns (result: seq<Breakpoint>, ghost sorted: seq<Breakpoint>)
    ensures multiset(sorted) == multiset(bps) && SortedByVer(sorted)
    ensures SortedByVer(result) && SameRuns(result, sorted) && Lean(result)
    ensures BlocksAgree(bps) ==> SamePartials(result, bps)
    ensures WellFormed(bps) ==> WellFormed(result) && SamePartials(result, bps)
  {
    var list := Sorting.SortBy(bps, (bp: Breakpoint) => bp.ver);
    sorted := list;
    result := DropRepeats(list);
    if WellFormed(bps) {
      SortedWellFormed(bps, sorted);
      DistinctVersionsAgree(bps);
    }
    if BlocksAgree(bps) { SortedSamePartials(bps, sorted, result); }
  }

  ghost predicate SamePartials(bps: seq<Breakpoint>, bps': seq<Breakpoint>) {
    forall pv: uint32, id: uint16 :: Partial(CellsOf(bps), pv, id) == Partial(CellsOf(bps'), pv, id)
  }

  lemma SortedSamePartials(bps: seq<Breakpoint>, sorted: seq<Breakpoint>, result: seq<Breakpoint>)
    requires BlocksAgree(bps) && Arranges(sorted, bps)
    requires SortedByVer(result) && SameRuns(result, sorted)
    ensures SamePartials(result, bps)
  {
    AgreeingArrangement(bps, sorted);
    forall pv: uint32, id: uint16 ensures Partial(CellsOf(result), pv, id) == Partial(CellsOf(bps), pv, id) {
      RunIsPartial(result, pv, id);
      assert Run(result, pv) == Run(sorted, pv);
      assert RunAt(sorted, pv, id) == Partial(CellsOf(bps), pv, id);
    }
  }

  function Next(list: seq<Breakpoint>, i: nat): int {
    if i < |list| then list[i].ver else 0x1_0000_0000
  }

  lemma ClimbOn(list: seq<Breakpoint>, i: nat, result: seq<Breakpoint>, kept: seq<LengthEntry>, distinct: bool)
    requires i < |list| && SortedByVer(list) && (distinct ==> WellFormed(list) && DistinctIds(kept))
    requires Climbs(result, Next(list, i), distinct)
    ensures Climbs(result, Next(list, i + 1), distinct)
    ensures Climbs(result + [Breakpoint(list[i].ver, kept)], Next(list, i + 1), distinct)
  {
    assert Next(list, i) <= Next(list, i + 1);
    assert distinct ==> Next(list, i) < Next(list, i + 1);
  }

  // ---------- minimality ----------

  lemma FirstOfItsId(es: seq<LengthEntry>, j: nat)
    requires DistinctIds(es) && j < |es|
    ensures es[j].id !in TableOf(es[..j])
  {
    TableMember(es[..j], es[j].id);
    assert forall e :: e in es[..j] ==> e.id != es[j].id;
  }

  lemma NoCellNoChange(m: Cells, v: uint32, id: uint16)
    ensures At(m, v, id) == None ==> Partial(m, v, id) == if v == 0 then None else Partial(m, v - 1, id)
  {
  }

  /** An entry of a lean list changes what its id is set to, exactly at its version. */
  lemma EntryMatters(bps: seq<Breakpoint>, i: nat, j: nat)
    requires SortedByVer(bps) && WellFormed(bps) && Lean(bps)
    requires i < |bps| && j < |bps[i].entries|
    ensures var e, m := bps[i].entries[j], CellsOf(bps);
            && Partial(m, bps[i].ver, e.id) == Some(e.length)
            && (bps[i].ver > 0 ==> Partial(m, bps[i].ver - 1, e.id) != Some(e.length))
  {
    var v, es := bps[i].ver, bps[i].entries;
    var e := es[j];
    assert bps[i] in bps && e in es;
    WellFormedIsConsistent(bps);
    assert Mentions(bps, v, e);
    AtConsistent(bps, v, e);
    if v > 0 {
      JustBefore(bps, i, e.id);
      FirstOfItsId(es, j);
      LeanAt(bps, i);
      assert !Sets(State(bps[..i]) + TableOf(es[..j]), e);
    }
  }

  lemma JustBefore(bps: seq<Breakpoint>, i: nat, id: uint16)
    requires SortedByVer(bps) && WellFormed(bps) && i < |bps| && bps[i].ver > 0
    ensures Partial(CellsOf(bps), bps[i].ver - 1, id) ==
            if id in State(bps[..i]) then Some(State(bps[..i])[id]) else None
  {
    var v := bps[i].ver;
    RunIsPartial(bps, v - 1, id);
    forall k | 0 <= k < i ensures bps[k].ver <= v - 1 { assert bps[k].ver != bps[i].ver; }
    RunPrefix(bps, i, v - 1);
    StateIsRun(bps[..i], v - 1);
  }

  /**
   No list says the same with fewer cells: any `other` that sets every id alike at every
   version has an entry wherever the lean list has one.
   */
  lemma LeanIsMinimal(bps: seq<Breakpoint>, other: seq<Breakpoint>, i: nat, j: nat)
    requires SortedByVer(bps) && WellFormed(bps) && Lean(bps)
    requires SamePartials(other, bps)
    requires i < |bps| && j < |bps[i].entries|
    ensures exists l :: Mentions(other, bps[i].ver, LengthEntry(bps[i].entries[j].id, l))
  {
    var v, e, m := bps[i].ver, bps[i].entries[j], CellsOf(other);
    EntryMatters(bps, i, j);
    AtMentions(other, v, e.id);
    NoCellNoChange(m, v, e.id);
    assert v > 0 ==> Partial(m, v - 1, e.id) == Partial(CellsOf(bps), v - 1, e.id);
    assert Partial(m, v, e.id) == Partial(CellsOf(bps), v, e.id);
  }
}
