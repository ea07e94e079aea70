/** The two ways of combining breakpoint lists: the overlay wins, or the base wins. */
module LengthMerge {
  import opened Words
  import opened LengthTables

  /** Store `base`, then `extra` over it, and flatten. */
  method MergeBreakpoints(base: seq<Breakpoint>, extra: seq<Breakpoint>) returns (result: seq<Breakpoint>)
    ensures WellFormed(result)
    ensures CellsOf(result) == Overlay(CellsOf(base), extra)
  {
    var bpMap := Store(map[], base);
    bpMap := Store(bpMap, extra);
    result := Flatten(bpMap);
  }

  /** Whichever list wrote the id last has its way; at the same version, `extra` does. */
  lemma LastWriterWins(base: seq<Breakpoint>, extra: seq<Breakpoint>, pv: uint32, id: uint16)
    ensures
      var b, x := LastWrite(CellsOf(base), pv, id), LastWrite(CellsOf(extra), pv, id);
      Partial(Overlay(CellsOf(base), extra), pv, id) ==
      if x.Some? && (b.Some? ==> b.value <= x.value) then Partial(CellsOf(extra), pv, id)
      else Partial(CellsOf(base), pv, id)
  {
    var m := Overlay(CellsOf(base), extra);
    var b, x := LastWrite(CellsOf(base), pv, id), LastWrite(CellsOf(extra), pv, id);
    forall u: int ensures At(m, u, id) == At(CellsOf(extra), u, id).Or(At(CellsOf(base), u, id)) {
      OverlayAt(CellsOf(base), extra, u, id);
    }
    if x.Some? && (b.Some? ==> b.value <= x.value) {
      LastWriteIs(m, pv, id, x.value);
    } else if b.Some? {
      LastWriteIs(m, pv, id, b.value);
    } else {
      NoWrite(m, pv, id);
    }
  }

  // ---------- fill-only ----------

  /**
   What fill-only means, cell by cell: a cell of `extra` is taken exactly when the base,
   replayed up to that version, leaves the id at 0. Every base cell not filled is kept.
   */
  ghost predicate FilledFrom(m: Cells, base: Cells, extra: Cells) {
    forall v: uint32, id: uint16 ::
      At(m, v, id) == if Replay(base, v, id) == 0 then At(extra, v, id).Or(At(base, v, id)) else At(base, v, id)
  }

  ghost predicate StrictlyAscending(keys: seq<uint32>) {
    forall i, j :: 0 <= i < j < |keys| ==> keys[i] < keys[j]
  }

  ghost predicate IsLeast(v: uint32, s: set<uint32>) {
    v in s && forall w :: w in s ==> v <= w
  }

  lemma {:induction false} Least(s: set<uint32>) returns (v: uint32)
    requires s != {}
    ensures IsLeast(v, s)
  {
    v :| v in s;
    var rest := s - {v};
    assert forall w :: w in s ==> w == v || w in rest;
    if rest != {} {
      var u := Least(rest);
      if u < v { v := u; }
    }
  }

  lemma NextKey(keys: seq<uint32>, v: uint32)
    requires StrictlyAscending(keys) && forall w :: w in keys ==> w < v
    ensures StrictlyAscending(keys + [v])
    ensures forall w :: w in keys + [v] <==> w in keys || w == v
  {
    forall i | 0 <= i < |keys| ensures keys[i] < v { assert keys[i] in keys; }
  }

  /** The versions of a table, collected and sorted. */
  method SortedVersions(m: Cells) returns (keys: seq<uint32>)
    ensures StrictlyAscending(keys)
    ensures forall v :: v in keys <==> v in m
  {
    keys := [];
    var all := m.Keys;
    var rest := all;
    while rest != {}
      invariant rest <= all && StrictlyAscending(keys)
      invariant forall v :: v in keys <==> v in all - rest
      invariant forall v, w :: v in keys && w in rest ==> v < w
      decreases rest
    {
      ghost var least := Least(rest);
      assert least in rest && forall w :: w in rest ==> least <= w;
      var v :| v in rest && forall w :: w in rest ==> v <= w;
      NextKey(keys, v);
      keys, rest := keys + [v], rest - {v};
    }
  }

  ghost predicate Shows(t: LenTable, m: Cells, pv: uint32) {
    forall id: uint16 :: Partial(m, pv, id) == if id in t then Some(t[id]) else None
  }

  ghost function FirstBlocks(m: Cells, keys: seq<uint32>): Cells {
    Restrict(m, set v | v in keys)
  }

  lemma FirstBlocksAt(m: Cells, keys: seq<uint32>, v: uint32, u: uint32, id: uint16)
    requires v in m && (forall w :: w in keys ==> w < v)
    ensures At(FirstBlocks(m, keys + [v]), u, id) == At(OnTop(FirstBlocks(m, keys), v, m[v]), u, id)
  {
    assert forall w :: w in keys + [v] <==> w in keys || w == v;
    EmptyPlus(m[v]);
  }

  lemma NextBlock(m: Cells, keys: seq<uint32>, v: uint32, t: LenTable, pv: uint32)
    requires v in m && (forall w :: w in keys ==> w < v)
    requires Shows(t, FirstBlocks(m, keys), pv)
    ensures Shows(if v <= pv then t + m[v] else t, FirstBlocks(m, keys + [v]), pv)
  {
    var before, after := FirstBlocks(m, keys), FirstBlocks(m, keys + [v]);
    forall id: uint16
      ensures Partial(after, pv, id) ==
              if v <= pv && id in m[v] then Some(m[v][id]) else Partial(before, pv, id)
    {
      OnTopReads(before, v, m[v], pv, id);
      forall u: uint32 ensures At(after, u, id) == At(OnTop(before, v, m[v]), u, id) {
        FirstBlocksAt(m, keys, v, u, id);
      }
      ReadsBelow(after, OnTop(before, v, m[v]), pv, id);
    }
  }

  /** Walk the base blocks up to `pv`, in version order, accumulating their entries. */
  method StateAt(m: Cells, keys: seq<uint32>, pv: uint32) returns (t: LenTable)
    requires StrictlyAscending(keys) && forall v :: v in keys <==> v in m
    ensures Shows(t, m, pv)
  {
    t := map[];
    forall id: uint16 ensures Partial(FirstBlocks(m, []), pv, id) == None {
      NoWrite(FirstBlocks(m, []), pv, id);
    }
    assert keys[..0] == [];
    for i := 0 to |keys|
      invariant Shows(t, FirstBlocks(m, keys[..i]), pv)
    {
      assert keys[..i + 1] == keys[..i] + [keys[i]];
      assert keys[i] in keys;
      NextBlock(m, keys[..i], keys[i], t, pv);
      if keys[i] <= pv { t := t + m[keys[i]]; }
    }
    assert keys[..|keys|] == keys;
    RestrictAll(m, set v | v in keys);
  }

  /** The entries collected so far: those of `list` the base leaves at 0. */
  ghost predicate Collected(fill: Cells, base: Cells, list: seq<Breakpoint>) {
    forall v: uint32, id: uint16 ::
      At(fill, v, id) == if Replay(base, v, id) == 0 then At(CellsOf(list), v, id) else None
  }

  lemma CollectNothing(fill: Cells, base: Cells, list: seq<Breakpoint>, ver: uint32)
    requires Collected(fill, base, list)
    ensures Collected(fill, base, list + [Breakpoint(ver, [])])
  {
    forall v: uint32, id: uint16 { AppendEmptyAt(list, ver, v, id); }
  }

  lemma CollectEntry(fill: Cells, base: Cells, list: seq<Breakpoint>, ver: uint32, es: seq<LengthEntry>, e: LengthEntry)
    requires Collected(fill, base, list + [Breakpoint(ver, es)])
    ensures Collected(if Replay(base, ver, e.id) == 0 then Put(fill, ver, e.id, e.length) else fill,
                      base, list + [Breakpoint(ver, es + [e])])
  {
    var fill' := if Replay(base, ver, e.id) == 0 then Put(fill, ver, e.id, e.length) else fill;
    forall v: uint32, id: uint16
      ensures At(fill', v, id) ==
              if Replay(base, v, id) == 0 then At(CellsOf(list + [Breakpoint(ver, es + [e])]), v, id) else None
    {
      PutAt(fill, ver, e.id, e.length, v, id);
      AppendEntryAt(list, ver, es, e, v, id);
    }
  }

  /** One block of `extra`: keep the entries whose id the base leaves at 0 in that version. */
  method FillBlock(fill0: Cells, base: Cells, baseAtVer: LenTable, ghost list: seq<Breakpoint>, bp: Breakpoint)
    returns (fill: Cells)
    requires Collected(fill0, base, list) && Shows(baseAtVer, base, bp.ver)
    ensures Collected(fill, base, list + [bp])
  {
    fill := fill0;
    CollectNothing(fill, base, list, bp.ver);
    assert bp.entries[..0] == [];
    for j := 0 to |bp.entries|
      invariant Collected(fill, base, list + [Breakpoint(bp.ver, bp.entries[..j])])
    {
      var e := bp.entries[j];
      assert bp.entries[..j + 1] == bp.entries[..j] + [e];
      CollectEntry(fill, base, list, bp.ver, bp.entries[..j], e);
      if LookUp(baseAtVer, e.id) == 0 {
        fill := Put(fill, bp.ver, e.id, e.length);
      }
    }
    assert bp.entries[..|bp.entries|] == bp.entries;
  }

  function MergeMaps(m: Cells, fill: Cells): Cells {
    map v | v in m.Keys + fill.Keys :: BlockAt(m, v) + BlockAt(fill, v)
  }

  method MergeBreakpointsFillOnly(base: seq<Breakpoint>, extra: seq<Breakpoint>) returns (result: seq<Breakpoint>)
    ensures WellFormed(result)
    ensures FilledFrom(CellsOf(result), CellsOf(base), CellsOf(extra))
  {
    var bpMap := Store(map[], base);
    var snapshotKeys := SortedVersions(bpMap);
    var fillMap: Cells := map[];
    for i := 0 to |extra|
      invariant Collected(fillMap, bpMap, extra[..i])
    {
      assert extra[..i + 1] == extra[..i] + [extra[i]];
      var baseAtVer := StateAt(bpMap, snapshotKeys, extra[i].ver);
      fillMap := FillBlock(fillMap, bpMap, baseAtVer, extra[..i], extra[i]);
    }
    assert extra[..|extra|] == extra;
    result := Flatten(MergeMaps(bpMap, fillMap));
  }

  /** A nonzero base length is in force after the merge too, whatever `extra` says. */
  lemma FillKeepsBase(m: Cells, base: Cells, extra: Cells, pv: uint32, id: uint16)
    requires FilledFrom(m, base, extra) && Replay(base, pv, id) != 0
    ensures Partial(m, pv, id) == Partial(base, pv, id) && LastWrite(m, pv, id) == LastWrite(base, pv, id)
  {
    var b := LastWrite(base, pv, id).value;
    forall u: uint32 | b <= u <= pv ensures Replay(base, u, id) == Replay(base, pv, id) {
      LastWriteIs(base, u, id, b);
    }
    LastWriteIs(m, pv, id, b);
  }

  /**
   Where the base reads 0, the reading is the latest `extra` entry not older than the base's
   last write of the id, and 0 when there is none. An explicit 0 in the base therefore hides
   the lengths `extra` proposed before it.
   */
  lemma FillReadsExtra(m: Cells, base: Cells, extra: Cells, pv: uint32, id: uint16)
    requires FilledFrom(m, base, extra) && Replay(base, pv, id) == 0
    ensures
      var b, x := LastWrite(base, pv, id), LastWrite(extra, pv, id);
      Partial(m, pv, id) ==
      if x.Some? && (b.Some? ==> b.value <= x.value) then Partial(extra, pv, id)
      else Partial(base, pv, id)
  {
    var b, x := LastWrite(base, pv, id), LastWrite(extra, pv, id);
    forall u: uint32 | u <= pv && (b.Some? ==> b.value <= u) ensures Replay(base, u, id) == 0 {
      match b
      case Some(v) => LastWriteIs(base, u, id, v);
      case None => NoWrite(base, u, id);
    }
    if x.Some? && (b.Some? ==> b.value <= x.value) {
      LastWriteIs(m, pv, id, x.value);
    } else if b.Some? {
      LastWriteIs(m, pv, id, b.value);
    } else {
      NoWrite(m, pv, id);
    }
  }

  /**
   "Base if nonzero, else extra" is what the passes are ordered for. It holds at `pv` exactly
   when no explicit base 0, newer than every `extra` entry, hides a nonzero extra length.
   */
  lemma FallbackExactly(m: Cells, base: Cells, extra: Cells, pv: uint32, id: uint16)
    requires FilledFrom(m, base, extra)
    ensures
      var b, x := LastWrite(base, pv, id), LastWrite(extra, pv, id);
      var hidden := Partial(base, pv, id) == Some(0) && Replay(extra, pv, id) != 0 && x.value < b.value;
      !hidden <==>
      Replay(m, pv, id) == if Replay(base, pv, id) != 0 then Replay(base, pv, id) else Replay(extra, pv, id)
  {
    if Replay(base, pv, id) != 0 {
      FillKeepsBase(m, base, extra, pv, id);
    } else {
      FillReadsExtra(m, base, extra, pv, id);
    }
  }

  /** Packet 7 leaves the base at version 4; the length `extra` has for it from version 3 on stays hidden. */
  lemma HiddenLength()
    ensures var base, extra: Cells := map[0 := map[7 := 5], 4 := map[7 := 0]], map[3 := map[7 := 9]];
            FilledFrom(base, base, extra) && Replay(base, 5, 7) == 0 && Replay(extra, 5, 7) == 9
  {
    var base, extra: Cells := map[0 := map[7 := 5], 4 := map[7 := 0]], map[3 := map[7 := 9]];
    LastWriteIs(base, 3, 7, 0);
    LastWriteIs(base, 5, 7, 4);
    LastWriteIs(extra, 5, 7, 3);
  }
}
