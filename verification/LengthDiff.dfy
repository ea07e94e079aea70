/**
 Length tables read at successive versions, folded into a list of differences.
 The same loop runs over three different headers; only the version that stands for
 "from the beginning" differs (`baseline`), and a snapshot at it is emitted as version 0.
 */
module LengthDiff {
  import opened Words
  import opened LengthTables

  datatype Snapshot = Snapshot(ver: uint32, packets: seq<LengthEntry>)

  /** The table of a snapshot, and of the one before it; before the first there is none (nil). */
  function Table(s: Snapshot): LenTable {
    TableOf(s.packets)
  }

  function Previous(snaps: seq<Snapshot>): Option<LenTable> {
    if snaps == [] then None else Some(Table(snaps[|snaps| - 1]))
  }

  /** The entries `diffLenTable` reports, as a table: changed or new lengths, and 0 for removed ids. */
  function Delta(prev: Option<LenTable>, cur: LenTable): LenTable {
    var was := prev.GetOr(map[]);
    map id | id in cur.Keys + was.Keys && (id in cur ==> prev == None || LookUp(was, id) != cur[id]) ::
      LookUp(cur, id)
  }

  lemma DeltaAt(prev: Option<LenTable>, cur: LenTable, id: uint16)
    ensures id in cur ==>
              (id in Delta(prev, cur) <==> prev == None || LookUp(prev.value, id) != cur[id])
              && (id in Delta(prev, cur) ==> Delta(prev, cur)[id] == cur[id])
    ensures id !in cur ==>
              (id in Delta(prev, cur) <==> prev.Some? && id in prev.value)
              && (id in Delta(prev, cur) ==> Delta(prev, cur)[id] == 0)
  {
  }

  method DiffLenTable(prev: Option<LenTable>, cur: LenTable) returns (changed: seq<LengthEntry>)
    ensures TableOf(changed) == Delta(prev, cur)
    ensures DistinctIds(changed)
  {
    changed := [];
    ghost var delta, done := Delta(prev, cur), {};
    var rest := cur.Keys;
    while rest != {}
      invariant done == cur.Keys - rest && rest <= cur.Keys && DistinctIds(changed)
      invariant TableOf(changed) == Restrict(delta, done)
      decreases rest
    {
      var id :| id in rest;
      Extend(changed, delta, done, id);
      DeltaAt(prev, cur, id);
      if prev == None || LookUp(prev.value, id) != cur[id] {
        changed := changed + [LengthEntry(id, cur[id])];
      }
      rest, done := rest - {id}, done + {id};
    }
    if prev.Some? {
      rest := prev.value.Keys;
      while rest != {}
        invariant rest <= prev.value.Keys && done == cur.Keys + (prev.value.Keys - rest) && DistinctIds(changed)
        invariant TableOf(changed) == Restrict(delta, done)
        decreases rest
      {
        var id :| id in rest;
        if id !in cur {
          Extend(changed, delta, done, id);
          DeltaAt(prev, cur, id);
          changed := changed + [LengthEntry(id, 0)];
        }
        rest, done := rest - {id}, done + {id};
      }
    }
    assert Restrict(delta, done) == delta;
  }

  /** Applying the reported entries, in any order, to the previous table gives the current one. */
  lemma DiffTelescopes(prev: Option<LenTable>, cur: LenTable, changed: seq<LengthEntry>, id: uint16)
    requires TableOf(changed) == Delta(prev, cur)
    ensures LookUp(prev.GetOr(map[]) + TableOf(changed), id) == LookUp(cur, id)
  {
  }

  // ---------- the chain of differences ----------

  function Emitted(ver: uint32, baseline: uint32): uint32 {
    if ver == baseline then 0 else ver
  }

  /** The cells the chain has written after all of `snaps`. */
  function ChainCells(snaps: seq<Snapshot>, baseline: uint32): Cells {
    if snaps == [] then map[]
    else
      var n := |snaps| - 1;
      var m := ChainCells(snaps[..n], baseline);
      var delta := Delta(Previous(snaps[..n]), Table(snaps[n]));
      var ver := Emitted(snaps[n].ver, baseline);
      OnTop(m, ver, delta)
  }

  /** Snapshots are processed in strictly ascending version order, at real dates. */
  ghost predicate Dated(snaps: seq<Snapshot>) {
    && (forall i :: 0 <= i < |snaps| ==> 0 < snaps[i].ver)
    && (forall i, j :: 0 <= i < j < |snaps| ==> snaps[i].ver < snaps[j].ver)
  }

  /** No snapshot precedes the one that is emitted as version 0. */
  ghost predicate BaselineFirst(snaps: seq<Snapshot>, baseline: uint32) {
    forall i :: 0 < i < |snaps| ==> snaps[i].ver != baseline
  }

  /** The version the next snapshot will be emitted at; past the last, beyond every version. */
  function NextVersion(snaps: seq<Snapshot>, baseline: uint32, i: nat): int {
    if i < |snaps| then Emitted(snaps[i].ver, baseline) else 0x1_0000_0000
  }

  method BuildChain(snaps: seq<Snapshot>, baseline: uint32) returns (bps: seq<Breakpoint>)
    ensures CellsOf(bps) == ChainCells(snaps, baseline)
    ensures Dated(snaps) && BaselineFirst(snaps, baseline) ==> SortedByVer(bps) && WellFormed(bps)
  {
    bps := [];
    var prev: Option<LenTable> := None;
    ghost var orderly := Dated(snaps) && BaselineFirst(snaps, baseline);
    for i := 0 to |snaps|
      invariant prev == Previous(snaps[..i])
      invariant CellsOf(bps) == ChainCells(snaps[..i], baseline)
      invariant orderly ==> LadderBelow(bps, NextVersion(snaps, baseline, i))
    {
      var cur := BuildTable(snaps[i].packets);
      var changed := DiffLenTable(prev, cur);
      ChainUnfold(snaps, baseline, i);
      EmitChanges(bps, Emitted(snaps[i].ver, baseline), changed);
      if orderly {
        NextVersionGrows(snaps, baseline, i);
        LadderGrows(bps, Breakpoint(Emitted(snaps[i].ver, baseline), changed), NextVersion(snaps, baseline, i + 1));
      }
      if |changed| > 0 {
        bps := bps + [Breakpoint(Emitted(snaps[i].ver, baseline), changed)];
      }
      prev := Some(cur);
    }
    assert snaps[..|snaps|] == snaps;
  }

  /** Strictly ascending versions, all below `limit`, and one entry per id. */
  ghost predicate LadderBelow(bps: seq<Breakpoint>, limit: int) {
    && (forall j, k :: 0 <= j < k < |bps| ==> bps[j].ver < bps[k].ver)
    && (forall k :: 0 <= k < |bps| ==> bps[k].ver < limit && DistinctIds(bps[k].entries))
  }

  lemma NextVersionGrows(snaps: seq<Snapshot>, baseline: uint32, i: nat)
    requires Dated(snaps) && BaselineFirst(snaps, baseline) && i < |snaps|
    ensures NextVersion(snaps, baseline, i) < NextVersion(snaps, baseline, i + 1)
  {
    if i + 1 < |snaps| {
      assert snaps[i].ver < snaps[i + 1].ver;
    }
  }

  lemma LadderGrows(bps: seq<Breakpoint>, bp: Breakpoint, limit: int)
    requires LadderBelow(bps, bp.ver) && bp.ver < limit && DistinctIds(bp.entries)
    ensures LadderBelow(bps, limit) && LadderBelow(bps + [bp], limit)
  {
  }

  lemma ChainUnfold(snaps: seq<Snapshot>, baseline: uint32, i: nat)
    requires i < |snaps|
    ensures Previous(snaps[..i + 1]) == Some(Table(snaps[i]))
    ensures ChainCells(snaps[..i + 1], baseline) ==
            OnTop(ChainCells(snaps[..i], baseline), Emitted(snaps[i].ver, baseline),
                  Delta(Previous(snaps[..i]), Table(snaps[i])))
  {
    assert snaps[..i + 1][..i] == snaps[..i];
  }

  lemma EmitChanges(bps: seq<Breakpoint>, ver: uint32, changed: seq<LengthEntry>)
    ensures CellsOf(if changed == [] then bps else bps + [Breakpoint(ver, changed)]) ==
            OnTop(CellsOf(bps), ver, TableOf(changed))
  {
    OverlayAppend(map[], bps, Breakpoint(ver, changed));
    if changed != [] { IdsOfTable(changed, changed[0]); }
  }

  method BuildTable(packets: seq<LengthEntry>) returns (t: LenTable)
    ensures t == TableOf(packets)
  {
    t := map[];
    for i := 0 to |packets|
      invariant t == TableOf(packets[..i])
    {
      assert packets[..i + 1][..i] == packets[..i];
      t := t[packets[i].id := packets[i].length];
    }
    assert packets[..|packets|] == packets;
  }

  /** The table of the last snapshot processed at or before `pv`. */
  ghost function InForce(snaps: seq<Snapshot>, baseline: uint32, pv: uint32): LenTable {
    if snaps == [] then map[]
    else
      var n := |snaps| - 1;
      if Emitted(snaps[n].ver, baseline) <= pv then Table(snaps[n]) else InForce(snaps[..n], baseline, pv)
  }

  lemma {:induction false} ChainBelow(snaps: seq<Snapshot>, baseline: uint32, limit: uint32)
    requires forall i :: 0 <= i < |snaps| ==> Emitted(snaps[i].ver, baseline) < limit
    ensures AllBelow(ChainCells(snaps, baseline), limit)
  {
    if snaps != [] {
      ChainBelow(snaps[..|snaps| - 1], baseline, limit);
    }
  }

  lemma DatedPrefix(snaps: seq<Snapshot>, baseline: uint32)
    requires Dated(snaps) && BaselineFirst(snaps, baseline) && snaps != []
    ensures Dated(snaps[..|snaps| - 1]) && BaselineFirst(snaps[..|snaps| - 1], baseline)
    ensures AllBelow(ChainCells(snaps[..|snaps| - 1], baseline), Emitted(snaps[|snaps| - 1].ver, baseline))
  {
    var n := |snaps| - 1;
    forall i | 0 <= i < n ensures Emitted(snaps[..n][i].ver, baseline) < Emitted(snaps[n].ver, baseline) {
      assert snaps[i].ver < snaps[n].ver;
    }
    ChainBelow(snaps[..n], baseline, Emitted(snaps[n].ver, baseline));
  }

  /** One link: the reported entries carry the previous reading to the current one. */
  lemma LinkReads(m: Cells, ver: uint32, prev: Option<LenTable>, cur: LenTable, pv: uint32, id: uint16)
    requires AllBelow(m, ver)
    requires ver <= pv ==> Replay(m, pv, id) == LookUp(prev.GetOr(map[]), id)
    ensures Replay(OnTop(m, ver, Delta(prev, cur)), pv, id) ==
            if ver <= pv then LookUp(cur, id) else Replay(m, pv, id)
  {
    DeltaCases(prev, cur, id);
    OnTopReads(m, ver, Delta(prev, cur), pv, id);
  }

  /** An id is reported, with its new length, exactly when its reading changes or it leaves the table. */
  lemma DeltaCases(prev: Option<LenTable>, cur: LenTable, id: uint16)
    ensures id in Delta(prev, cur) ==> Delta(prev, cur)[id] == LookUp(cur, id)
    ensures id !in Delta(prev, cur) ==> LookUp(prev.GetOr(map[]), id) == LookUp(cur, id)
  {
  }

  /** The chain replays, at every version, to the last snapshot at or before it. */
  lemma {:induction false} ChainTelescopes(snaps: seq<Snapshot>, baseline: uint32, pv: uint32, id: uint16)
    requires Dated(snaps) && BaselineFirst(snaps, baseline)
    ensures Replay(ChainCells(snaps, baseline), pv, id) == LookUp(InForce(snaps, baseline, pv), id)
  {
    if snaps == [] {
      NoWrite(map[], pv, id);
    } else {
      var n := |snaps| - 1;
      DatedPrefix(snaps, baseline);
      ChainTelescopes(snaps[..n], baseline, pv, id);
      if n > 0 {
        assert snaps[n - 1].ver < snaps[n].ver;
        assert snaps[..n][n - 1] == snaps[n - 1];
      }
      LinkReads(ChainCells(snaps[..n], baseline), Emitted(snaps[n].ver, baseline),
                Previous(snaps[..n]), Table(snaps[n]), pv, id);
    }
  }

  // ---------- the same, on the snapshots as given ----------

  /** The length of the last entry for the id, or 0 if there is none. */
  ghost predicate Lists(packets: seq<LengthEntry>, id: uint16, length: int16) {
    || (exists k :: LastEntryAt(packets, k, id, length))
    || (length == 0 && forall k :: 0 <= k < |packets| ==> packets[k].id != id)
  }

  ghost predicate LastEntryAt(packets: seq<LengthEntry>, k: int, id: uint16, length: int16) {
    && 0 <= k < |packets| && packets[k] == LengthEntry(id, length)
    && forall j :: k < j < |packets| ==> packets[j].id != id
  }

  lemma {:induction false} TableLists(packets: seq<LengthEntry>, id: uint16)
    ensures Lists(packets, id, LookUp(TableOf(packets), id))
  {
    if packets != [] {
      var n, length := |packets| - 1, LookUp(TableOf(packets), id);
      if packets[n].id == id {
        assert LastEntryAt(packets, n, id, length);
      } else {
        TableLists(packets[..n], id);
        if k :| LastEntryAt(packets[..n], k, id, length) { assert LastEntryAt(packets, k, id, length); }
      }
    }
  }

  /** Snapshot `i` is the one to go by: the last at or before the version, the baseline being before all. */
  ghost predicate Governs(snaps: seq<Snapshot>, baseline: uint32, pv: uint32, i: int) {
    && 0 <= i < |snaps| && (snaps[i].ver <= pv || (i == 0 && snaps[0].ver == baseline))
    && (i + 1 < |snaps| ==> pv < snaps[i + 1].ver)
  }

  lemma {:induction false} InForceGoverns(snaps: seq<Snapshot>, baseline: uint32, pv: uint32, i: nat)
    requires Dated(snaps) && BaselineFirst(snaps, baseline) && Governs(snaps, baseline, pv, i)
    ensures InForce(snaps, baseline, pv) == Table(snaps[i])
  {
    var n := |snaps| - 1;
    if i < n {
      if i + 1 < n { assert snaps[i + 1].ver < snaps[n].ver; }
      InForceGoverns(snaps[..n], baseline, pv, i);
    }
  }

  /** The chain reads, at every version, as the snapshot to go by lists the id. */
  lemma ChainReads(snaps: seq<Snapshot>, baseline: uint32, pv: uint32, id: uint16, i: nat)
    requires Dated(snaps) && BaselineFirst(snaps, baseline) && Governs(snaps, baseline, pv, i)
    ensures Lists(snaps[i].packets, id, Replay(ChainCells(snaps, baseline), pv, id))
  {
    ChainTelescopes(snaps, baseline, pv, id);
    InForceGoverns(snaps, baseline, pv, i);
    TableLists(snaps[i].packets, id);
  }

  /** Before the first snapshot, if that is not the baseline, it reads 0. */
  lemma {:induction false} ChainStartsEmpty(snaps: seq<Snapshot>, baseline: uint32, pv: uint32, id: uint16)
    requires Dated(snaps) && BaselineFirst(snaps, baseline)
    requires snaps != [] ==> pv < snaps[0].ver != baseline
    ensures Replay(ChainCells(snaps, baseline), pv, id) == 0
  {
    ChainTelescopes(snaps, baseline, pv, id);
    if snaps != [] {
      var n := |snaps| - 1;
      if n > 0 { assert snaps[0].ver < snaps[n].ver; }
      ChainStartsEmpty(snaps[..n], baseline, pv, id);
      ChainTelescopes(snaps[..n], baseline, pv, id);
    }
  }

  // ---------- and only then ----------

  function FlipAt(vers: seq<uint32>, k: nat): seq<Snapshot>
    requires k <= |vers|
  {
    seq(|vers|, i requires 0 <= i < |vers| => Snapshot(vers[i], [LengthEntry(0, if i < k then 1 else 2)]))
  }

  lemma FlipTables(vers: seq<uint32>, k: nat, i: nat)
    requires k <= |vers| && i < |vers|
    ensures Table(FlipAt(vers, k)[i]) == map[0 := if i < k then 1 else 2]
  {
    var e := LengthEntry(0, if i < k then 1 else 2);
    TableOfAppend([], e);
    assert [] + [e] == [e];
  }

  /** Only the first snapshot and the one where the table flips are reported. */
  lemma FlipDelta(vers: seq<uint32>, k: nat, n: nat)
    requires 0 < k <= |vers| && n < |vers|
    ensures Delta(Previous(FlipAt(vers, k)[..n]), Table(FlipAt(vers, k)[n])) ==
            if n == 0 then map[0 := 1] else if n == k then map[0 := 2] else map[]
  {
    FlipTables(vers, k, n);
    if n > 0 {
      FlipTables(vers, k, n - 1);
      assert FlipAt(vers, k)[..n][n - 1] == FlipAt(vers, k)[n - 1];
    }
  }

  lemma FirstLink(ver: uint32, block: LenTable)
    requires 0 in block
    ensures OnTop(map[], ver, block) == map[ver := block]
    ensures map[] + block == block
  {
    assert map[] + block == block;
  }

  lemma {:induction false} FlipCells(vers: seq<uint32>, k: nat, n: nat, baseline: uint32)
    requires 0 < n <= |vers| && 0 < k < |vers| && vers[k] == baseline
    requires 0 < vers[0] && vers[0] != baseline
    ensures ChainCells(FlipAt(vers, k)[..n], baseline) ==
            if n <= k then map[vers[0] := map[0 := 1]] else map[vers[0] := map[0 := 1], 0 := map[0 := 2]]
  {
    FlipLink(vers, k, n, baseline);
    if n == 1 {
      FirstLink(vers[0], map[0 := 1]);
    } else {
      FlipCells(vers, k, n - 1, baseline);
      if n == k + 1 { SecondBlock(vers[0]); }
    }
  }

  lemma FlipLink(vers: seq<uint32>, k: nat, n: nat, baseline: uint32)
    requires 0 < n <= |vers| && 0 < k < |vers|
    ensures ChainCells(FlipAt(vers, k)[..n], baseline) ==
            OnTop(if n == 1 then map[] else ChainCells(FlipAt(vers, k)[..n - 1], baseline),
                  Emitted(vers[n - 1], baseline),
                  if n == 1 then map[0 := 1] else if n == k + 1 then map[0 := 2] else map[])
  {
    FlipDelta(vers, k, n - 1);
    ChainUnfold(FlipAt(vers, k), baseline, n - 1);
  }

  lemma SecondBlock(ver: uint32)
    requires ver != 0
    ensures OnTop(map[ver := map[0 := 1]], 0, map[0 := 2]) == map[ver := map[0 := 1], 0 := map[0 := 2]]
  {
    FirstLink(0, map[0 := 2]);
  }

  lemma FlipReads(vers: seq<uint32>, k: nat, baseline: uint32)
    requires 0 < k < |vers| && vers[k] == baseline
    requires 0 < vers[0] && vers[0] != baseline
    requires forall i :: 0 <= i < |vers| ==> vers[0] <= vers[i]
    ensures Replay(ChainCells(FlipAt(vers, k), baseline), vers[|vers| - 1], 0) == 1
    ensures LookUp(InForce(FlipAt(vers, k), baseline, vers[|vers| - 1]), 0) == 2
  {
    var snaps, pv := FlipAt(vers, k), vers[|vers| - 1];
    FlipCells(vers, k, |vers|, baseline);
    assert snaps[..|vers|] == snaps;
    LastWriteIs(ChainCells(snaps, baseline), pv, 0, vers[0]);
    FlipTables(vers, k, |vers| - 1);
  }

  /**
   Whenever the baseline is among the versions but not first, some tables defeat the chain:
   its version-0 block is emitted ahead of blocks that were diffed before it. So, for
   strictly ascending versions, `BaselineFirst` is exactly what the chain needs.
   */
  lemma BaselineMustBeFirst(vers: seq<uint32>, baseline: uint32)
    requires forall i :: 0 <= i < |vers| ==> 0 < vers[i]
    requires forall i, j :: 0 <= i < j < |vers| ==> vers[i] < vers[j]
    requires exists i :: 0 < i < |vers| && vers[i] == baseline
    ensures exists snaps: seq<Snapshot>, pv: uint32 ::
              && |snaps| == |vers| && (forall i :: 0 <= i < |vers| ==> snaps[i].ver == vers[i])
              && Replay(ChainCells(snaps, baseline), pv, 0) != LookUp(InForce(snaps, baseline, pv), 0)
  {
    var k :| 0 < k < |vers| && vers[k] == baseline;
    FlipReads(vers, k, baseline);
    var snaps := FlipAt(vers, k);
    assert |snaps| == |vers| && forall i :: 0 <= i < |vers| ==> snaps[i].ver == vers[i];
  }
}
