/** The generated function: the blocks it executes, in the order it executes them. */
module LengthEmit {
  import opened Words
  import opened LengthTables
  import Sorting

  /** What the emitted function leaves in the length table for every id, at every version. */
  ghost predicate Means(code: seq<Breakpoint>, m: Cells) {
    forall pv: uint32, id: uint16 :: RunAt(code, pv, id) == Partial(m, pv, id)
  }

  /**
   The generator: sort the blocks by version, drop the empty ones, sort the entries of
   each block by id. Neither sort is stable.
   */
  method Emit(bps: seq<Breakpoint>) returns (code: seq<Breakpoint>)
    ensures SortedByVer(code)
    ensures forall ver, e :: Mentions(code, ver, e) <==> Mentions(bps, ver, e)
    ensures Consistent(bps) ==> Means(code, CellsOf(bps))
  {
    var sorted := Sorting.SortBy(bps, (bp: Breakpoint) => bp.ver);
    code := [];
    for i := 0 to |sorted|
      invariant SortedByVer(code)
      invariant forall bp :: bp in code ==> exists j :: 0 <= j < i && sorted[j].ver == bp.ver
      invariant forall ver, e :: Mentions(code, ver, e) <==> Mentions(sorted[..i], ver, e)
    {
      var bp := sorted[i];
      assert sorted[..i + 1] == sorted[..i] + [bp];
      if |bp.entries| != 0 {
        var es := Sorting.SortBy(bp.entries, (e: LengthEntry) => e.id);
        EmitBlock(code, sorted[..i], bp, es);
        code := code + [Breakpoint(bp.ver, es)];
      } else {
        SkipBlock(sorted[..i], bp);
      }
    }
    assert sorted[..|sorted|] == sorted;
    PermutedMentions(bps, sorted);
    if Consistent(bps) {
      forall pv: uint32, id: uint16 ensures RunAt(code, pv, id) == Partial(CellsOf(bps), pv, id) {
        RunIsPartial(code, pv, id);
        forall u | u <= pv ensures At(CellsOf(bps), u, id) == At(CellsOf(code), u, id) {
          SameMentionsSameCells(bps, code, u, id);
        }
        ReadsBelow(CellsOf(bps), CellsOf(code), pv, id);
      }
    }
  }

  lemma PermutedMentions(bps: seq<Breakpoint>, sorted: seq<Breakpoint>)
    requires multiset(bps) == multiset(sorted)
    ensures forall ver, e :: Mentions(bps, ver, e) <==> Mentions(sorted, ver, e)
  {
    forall bp ensures bp in bps <==> bp in sorted { Sorting.PermutationMember(bps, sorted, bp); }
  }

  lemma MentionsAppend(bps: seq<Breakpoint>, bp: Breakpoint, ver: int, e: LengthEntry)
    ensures Mentions(bps + [bp], ver, e) <==> Mentions(bps, ver, e) || (bp.ver == ver && e in bp.entries)
  {
    forall b ensures b in bps + [bp] <==> b in bps || b == bp {}
    if bp.ver == ver && e in bp.entries { assert bp in bps + [bp]; }
  }

  lemma EmitBlock(code: seq<Breakpoint>, done: seq<Breakpoint>, bp: Breakpoint, es: seq<LengthEntry>)
    requires multiset(es) == multiset(bp.entries)
    requires forall ver, e :: Mentions(code, ver, e) <==> Mentions(done, ver, e)
    ensures forall ver, e :: Mentions(code + [Breakpoint(bp.ver, es)], ver, e) <==> Mentions(done + [bp], ver, e)
  {
    forall ver, e
      ensures Mentions(code + [Breakpoint(bp.ver, es)], ver, e) <==> Mentions(done + [bp], ver, e)
    {
      MentionsAppend(code, Breakpoint(bp.ver, es), ver, e);
      MentionsAppend(done, bp, ver, e);
      Sorting.PermutationMember(es, bp.entries, e);
    }
  }

  lemma SkipBlock(done: seq<Breakpoint>, bp: Breakpoint)
    requires bp.entries == []
    ensures forall ver, e :: Mentions(done + [bp], ver, e) <==> Mentions(done, ver, e)
  {
    forall ver, e ensures Mentions(done + [bp], ver, e) <==> Mentions(done, ver, e) {
      MentionsAppend(done, bp, ver, e);
    }
  }
}
