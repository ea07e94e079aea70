/** The four passes of the map server's length table, in order, and what survives them. */
module LengthPipeline {
  import opened Words
  import opened LengthTables
  import LengthEmit
  import LengthDiff
  import LengthMerge
  import LengthDedup
  import VersionRanges
  import JoinPass

  /** Overlaying one table on another, read as last-writer-wins. */
  ghost function Overlaid(base: Cells, extra: Cells, pv: uint32, id: uint16): Option<int16> {
    var b, x := LastWrite(base, pv, id), LastWrite(extra, pv, id);
    if x.Some? && (b.Some? ==> b.value <= x.value) then Partial(extra, pv, id) else Partial(base, pv, id)
  }

  /** What the tables of the passes are to each other, and to the emitted function. */
  ghost predicate Passes(code: seq<Breakpoint>, p1: Cells, p2: Cells, p3: Cells, p4: Cells, m12: Cells, m123: Cells) {
    && LengthMerge.FilledFrom(m12, p1, p2)
    && LengthMerge.FilledFrom(m123, m12, p3)
    && forall pv: uint32, id: uint16 :: RunAt(code, pv, id) == Overlaid(m123, p4, pv, id)
  }

  /**
   Fill Part 2 under Part 1, fill Part 3 under that, overlay Part 4, drop repeats, emit.
   The ghost results are the tables after Part 2 and after Part 3.
   */
  method GenMapLengths(
    part1: seq<LengthDiff.Snapshot>, part2: seq<LengthDiff.Snapshot>, vt: VersionRanges.VersionTable,
    mappings: seq<JoinPass.PacketMapping>, part4: seq<LengthDiff.Snapshot>)
    returns (code: seq<Breakpoint>, ghost m12: Cells, ghost m123: Cells)
    ensures SortedByVer(code)
    ensures Passes(code, LengthDiff.ChainCells(part1, 1), LengthDiff.ChainCells(part2, 20030000),
                   JoinPass.ProposeAll(map[], JoinPass.JoinWrites(vt, mappings)),
                   LengthDiff.ChainCells(part4, 20030000), m12, m123)
  {
    var breakpoints := LengthDiff.BuildChain(part1, 1);
    var packetsHpp := LengthDiff.BuildChain(part2, 20030000);
    breakpoints := LengthMerge.MergeBreakpointsFillOnly(breakpoints, packetsHpp);
    m12 := CellsOf(breakpoints);
    var stocJoin := JoinPass.BuildMapStocJoinPass(vt, mappings);
    breakpoints := LengthMerge.MergeBreakpointsFillOnly(breakpoints, stocJoin);
    m123 := CellsOf(breakpoints);
    var enums := LengthDiff.BuildChain(part4, 20030000);
    ghost var filled := breakpoints;
    breakpoints := LengthMerge.MergeBreakpoints(breakpoints, enums);
    ghost var merged := breakpoints;
    ghost var sorted;
    breakpoints, sorted := LengthDedup.DeduplicateLengthBreakpoints(breakpoints);
    WellFormedIsConsistent(breakpoints);
    code := LengthEmit.Emit(breakpoints);
    forall pv: uint32, id: uint16 ensures RunAt(code, pv, id) == Overlaid(m123, CellsOf(enums), pv, id) {
      assert LengthDedup.SamePartials(breakpoints, merged);
      assert Partial(CellsOf(breakpoints), pv, id) == Partial(CellsOf(merged), pv, id);
      LengthMerge.LastWriterWins(filled, enums, pv, id);
    }
  }

  /**
   Part 1 is the ground truth: for an id Part 4 has not written by `pv`, a nonzero Part 1
   length is the final length, and any nonzero length after Part 2 survives Part 3.
   */
  lemma EarlierPartsWin(code: seq<Breakpoint>, p1: Cells, p2: Cells, p3: Cells, p4: Cells, m12: Cells, m123: Cells,
                        pv: uint32, id: uint16)
    requires Passes(code, p1, p2, p3, p4, m12, m123) && LastWrite(p4, pv, id) == None
    ensures Replay(p1, pv, id) != 0 ==> RunAt(code, pv, id) == Partial(p1, pv, id)
    ensures Replay(m12, pv, id) != 0 ==> RunAt(code, pv, id) == Partial(m12, pv, id)
  {
    if Replay(p1, pv, id) != 0 { LengthMerge.FillKeepsBase(m12, p1, p2, pv, id); }
    if Replay(m12, pv, id) != 0 { LengthMerge.FillKeepsBase(m123, m12, p3, pv, id); }
  }

  /**
   Parts 2 to 4 are documented to fill in, never to override a length Part 1 has. A nonzero
   Part 1 length is the final one exactly when Part 4 has not written the id by then, wrote
   it before Part 1 last did, or wrote the same length.
   */
  lemma PacketDbKeptExactly(code: seq<Breakpoint>, p1: Cells, p2: Cells, p3: Cells, p4: Cells, m12: Cells, m123: Cells,
                            pv: uint32, id: uint16)
    requires Passes(code, p1, p2, p3, p4, m12, m123) && Replay(p1, pv, id) != 0
    ensures var b, x := LastWrite(p1, pv, id), LastWrite(p4, pv, id);
            RunAt(code, pv, id) == Partial(p1, pv, id) <==>
            x == None || x.value < b.value || Partial(p4, pv, id) == Partial(p1, pv, id)
  {
    Part1Overlaid(code, p1, p2, p3, p4, m12, m123, pv, id);
  }

  lemma Part1Overlaid(code: seq<Breakpoint>, p1: Cells, p2: Cells, p3: Cells, p4: Cells, m12: Cells, m123: Cells,
                      pv: uint32, id: uint16)
    requires Passes(code, p1, p2, p3, p4, m12, m123) && Replay(p1, pv, id) != 0
    ensures RunAt(code, pv, id) == Overlaid(p1, p4, pv, id)
  {
    LengthMerge.FillKeepsBase(m12, p1, p2, pv, id);
    LengthMerge.FillKeepsBase(m123, m12, p3, pv, id);
    assert RunAt(code, pv, id) == Overlaid(m123, p4, pv, id);
  }

  /**
   `sendLookType`, packet 0x01D7. The packet database has 11 for it throughout; the enum
   packets have the size of its struct, which grows to 15 at 20181121.
   */
  const SEND_LOOK: uint16 := 0x01D7
  const PACKET_DB: Cells := map[0 := map[SEND_LOOK := 11]]
  const ENUM_PACKETS: Cells := map[0 := map[SEND_LOOK := 11], 20181121 := map[SEND_LOOK := 15]]

  /** There Part 4 overrides: whatever Parts 2 and 3 are, the function sets 15 and not 11. */
  lemma PacketDbOverridden(code: seq<Breakpoint>, p2: Cells, p3: Cells, m12: Cells, m123: Cells, pv: uint32)
    requires Passes(code, PACKET_DB, p2, p3, ENUM_PACKETS, m12, m123) && 20181121 <= pv
    ensures Partial(PACKET_DB, pv, SEND_LOOK) == Some(11)
    ensures RunAt(code, pv, SEND_LOOK) == Some(15)
  {
    PacketDbReads(pv);
    EnumPacketsRead(pv);
    Part1Overlaid(code, PACKET_DB, p2, p3, ENUM_PACKETS, m12, m123, pv, SEND_LOOK);
  }

  lemma PacketDbReads(pv: uint32)
    ensures LastWrite(PACKET_DB, pv, SEND_LOOK) == Some(0) && Partial(PACKET_DB, pv, SEND_LOOK) == Some(11)
  {
    LastWriteIs(PACKET_DB, pv, SEND_LOOK, 0);
  }

  lemma EnumPacketsRead(pv: uint32)
    requires 20181121 <= pv
    ensures LastWrite(ENUM_PACKETS, pv, SEND_LOOK) == Some(20181121) && Partial(ENUM_PACKETS, pv, SEND_LOOK) == Some(15)
  {
    LastWriteIs(ENUM_PACKETS, pv, SEND_LOOK, 20181121);
  }

  /**
   From the packet database to the emitted function: at every version, a nonzero length
   listed by the last database snapshot at or before it is what the function sets, for every
   id that Part 4 has not written by then.
   */
  lemma PacketDbReachesTheTable(code: seq<Breakpoint>, part1: seq<LengthDiff.Snapshot>, p2: Cells, p3: Cells, p4: Cells,
                                m12: Cells, m123: Cells, pv: uint32, id: uint16, i: nat, length: int16)
    requires LengthDiff.Dated(part1) && LengthDiff.BaselineFirst(part1, 1)
    requires Passes(code, LengthDiff.ChainCells(part1, 1), p2, p3, p4, m12, m123)
    requires LastWrite(p4, pv, id) == None
    requires LengthDiff.Governs(part1, 1, pv, i) && length != 0 && LengthDiff.Lists(part1[i].packets, id, length)
    ensures RunAt(code, pv, id) == Some(length)
  {
    LengthDiff.ChainReads(part1, 1, pv, id, i);
    OneLength(part1[i].packets, id, length, Replay(LengthDiff.ChainCells(part1, 1), pv, id));
    EarlierPartsWin(code, LengthDiff.ChainCells(part1, 1), p2, p3, p4, m12, m123, pv, id);
  }

  lemma OneLength(packets: seq<LengthEntry>, id: uint16, a: int16, b: int16)
    requires a != 0 && LengthDiff.Lists(packets, id, a) && LengthDiff.Lists(packets, id, b)
    ensures a == b
  {
    var k :| LengthDiff.LastEntryAt(packets, k, id, a);
    assert packets[k].id == id;
    var j :| LengthDiff.LastEntryAt(packets, j, id, b);
  }

  // ---------- from struct snapshots to lengths ----------

  lemma BuiltRangesAreDisjoint(ranges: seq<VersionRanges.VersionedLayout>, col: seq<VersionRanges.Sighting>)
    requires VersionRanges.Dated(col) && VersionRanges.RunLength(ranges, col)
    requires col != [] ==> col[0].ver >= JoinPass.FIRST_VERSION
    ensures JoinPass.Disjoint(ranges)
  {
    forall k | 0 <= k < |ranges| ensures JoinPass.FIRST_VERSION <= ranges[k].minVer {
      assert VersionRanges.StartsIn(ranges[k], col);
      var i :| 0 <= i < |col| && col[i] == VersionRanges.Sighting(ranges[k].minVer, ranges[k].layout);
    }
    forall k | 0 <= k < |ranges| ensures ranges[k].maxVer == 0 || ranges[k].minVer < ranges[k].maxVer {
      if k + 1 < |ranges| { assert VersionRanges.Linked(ranges, k); }
    }
    forall j, k | 0 <= j < k < |ranges| ensures 0 < ranges[j].maxVer <= ranges[k].minVer {
      VersionRanges.RangesAscend(ranges, j, k);
    }
  }

  /** A receive mapping whose window covers every version. */
  ghost predicate CoversAllVersions(mapping: JoinPass.PacketMapping) {
    0 <= mapping.packetverMin <= JoinPass.FIRST_VERSION && mapping.packetverMax == 0
  }

  /** A size that an int16 length can hold. */
  ghost predicate Measurable(snaps: seq<VersionRanges.Snapshot>, name: string) {
    forall q, layout :: 0 <= q < |snaps| && VersionRanges.Available(snaps[q], name, layout) ==>
      1 <= layout.totalSize < 0x8000
  }

  /** The one mapping of `id`, onto a struct whose ranges are built from the snapshots. */
  ghost predicate Feeds(vt: VersionRanges.VersionTable, mappings: seq<JoinPass.PacketMapping>, n: nat, id: uint16,
                        snaps: seq<VersionRanges.Snapshot>) {
    && JoinPass.Sole(vt, mappings, n, id) && CoversAllVersions(mappings[n])
    && VersionRanges.Dated(VersionRanges.Column(snaps, mappings[n].rathenaStruct))
    && VersionRanges.RunLength(vt[mappings[n].rathenaStruct], VersionRanges.Column(snaps, mappings[n].rathenaStruct))
    && Measurable(snaps, mappings[n].rathenaStruct)
    && (snaps != [] ==> 20030000 <= snaps[0].ver)
  }

  /** `first` is the layout that opened the range with this version. */
  ghost predicate Opener(ranges: seq<VersionRanges.VersionedLayout>, ver: uint32, first: VersionRanges.Layout) {
    exists k :: 0 <= k < |ranges| && ranges[k].layout == Some(first)
                && ranges[k].minVer <= ver && (ranges[k].maxVer == 0 || ver < ranges[k].maxVer)
  }

  lemma FeedsMeasured(vt: VersionRanges.VersionTable, mappings: seq<JoinPass.PacketMapping>, n: nat, id: uint16,
                      snaps: seq<VersionRanges.Snapshot>, k: nat)
    requires Feeds(vt, mappings, n, id, snaps) && k < |vt[mappings[n].rathenaStruct]|
    ensures var r := vt[mappings[n].rathenaStruct][k]; r.layout.Some? && 1 <= r.layout.value.totalSize < 0x8000
  {
    var name := mappings[n].rathenaStruct;
    VersionRanges.RangeOpens(vt[name], snaps, name, k);
    var q :| VersionRanges.OpensAt(snaps, name, vt[name][k], q);
  }

  /**
   From snapshots through ranges to the join pass: at every snapshot where the struct is
   available, one layout opened the range it lies in, and the replayed length is that
   snapshot's own size, or -1 if that first layout has a flexible array, whatever the other
   mappings are.
   */
  lemma SnapshotReachesTheTable(vt: VersionRanges.VersionTable, mappings: seq<JoinPass.PacketMapping>, n: nat,
                                id: uint16,
                                snaps: seq<VersionRanges.Snapshot>, q: nat, own: VersionRanges.Layout)
    requires Feeds(vt, mappings, n, id, snaps) && q < |snaps|
    requires VersionRanges.Available(snaps[q], mappings[n].rathenaStruct, own)
    ensures exists first :: Opener(vt[mappings[n].rathenaStruct], snaps[q].ver, first)
    ensures forall first :: Opener(vt[mappings[n].rathenaStruct], snaps[q].ver, first) ==>
              && first.totalSize == own.totalSize && |first.fields| == |own.fields|
              && Replay(JoinPass.ProposeAll(map[], JoinPass.JoinWrites(vt, mappings)), snaps[q].ver, id) ==
                 if exists f :: f in first.fields && f.isFlexArray then -1 else own.totalSize
  {
    var ranges, pv := vt[mappings[n].rathenaStruct], snaps[q].ver;
    var k := OwnRange(vt, mappings, n, id, snaps, q, own);
    FeedsMeasured(vt, mappings, n, id, snaps, k);
    RangeReadsOwn(vt, mappings, n, id, snaps, q, k);
  }

  lemma OwnRange(vt: VersionRanges.VersionTable, mappings: seq<JoinPass.PacketMapping>, n: nat, id: uint16,
                 snaps: seq<VersionRanges.Snapshot>, q: nat, own: VersionRanges.Layout) returns (k: nat)
    requires Feeds(vt, mappings, n, id, snaps) && q < |snaps|
    requires VersionRanges.Available(snaps[q], mappings[n].rathenaStruct, own)
    ensures var ranges := vt[mappings[n].rathenaStruct];
            && k < |ranges| && VersionRanges.Holds(ranges[k], VersionRanges.Sighting(snaps[q].ver, Some(own)))
            && Opener(ranges, snaps[q].ver, ranges[k].layout.value)
            && forall first :: Opener(ranges, snaps[q].ver, first) ==> ranges[k].layout == Some(first)
  {
    var ranges, pv := vt[mappings[n].rathenaStruct], snaps[q].ver;
    VersionRanges.SnapshotHeld(ranges, snaps, mappings[n].rathenaStruct, q, own);
    k :| 0 <= k < |ranges| && VersionRanges.Holds(ranges[k], VersionRanges.Sighting(pv, Some(own)));
    forall first | Opener(ranges, pv, first) ensures ranges[k].layout == Some(first) {
      var j :| 0 <= j < |ranges| && ranges[j].layout == Some(first)
               && ranges[j].minVer <= pv && (ranges[j].maxVer == 0 || pv < ranges[j].maxVer);
      VersionRanges.AtMostOneRange(ranges, pv, j, k);
    }
  }

  lemma RangeReadsOwn(vt: VersionRanges.VersionTable, mappings: seq<JoinPass.PacketMapping>, n: nat, id: uint16,
                      snaps: seq<VersionRanges.Snapshot>, q: nat, k: nat)
    requires Feeds(vt, mappings, n, id, snaps) && q < |snaps| && k < |vt[mappings[n].rathenaStruct]|
    requires var r := vt[mappings[n].rathenaStruct][k];
             && VersionRanges.Covers(r, snaps[q].ver)
             && r.layout.Some? && 1 <= r.layout.value.totalSize < 0x8000
    ensures Replay(JoinPass.ProposeAll(map[], JoinPass.JoinWrites(vt, mappings)), snaps[q].ver, id) ==
            var first := vt[mappings[n].rathenaStruct][k].layout.value;
            if exists f :: f in first.fields && f.isFlexArray then -1 else first.totalSize
  {
    var ranges, col := vt[mappings[n].rathenaStruct], VersionRanges.Column(snaps, mappings[n].rathenaStruct);
    BuiltRangesAreDisjoint(ranges, col);
    assert col[0].ver <= col[q].ver;
    JoinPass.PassReads(vt, mappings, n, id, snaps[q].ver);
    RangeApplies(ranges, mappings[n], k, snaps[q].ver);
  }

  /**
   And on to the emitted function: for an id the other three parts have not written by then,
   the function sets exactly that length.
   */
  lemma StructReachesTheFunction(
    code: seq<Breakpoint>, p1: Cells, p2: Cells, p4: Cells, m12: Cells, m123: Cells,
    vt: VersionRanges.VersionTable, mappings: seq<JoinPass.PacketMapping>, n: nat, id: uint16,
    snaps: seq<VersionRanges.Snapshot>, q: nat, own: VersionRanges.Layout)
    requires Passes(code, p1, p2, JoinPass.ProposeAll(map[], JoinPass.JoinWrites(vt, mappings)), p4, m12, m123)
    requires Feeds(vt, mappings, n, id, snaps) && q < |snaps|
    requires VersionRanges.Available(snaps[q], mappings[n].rathenaStruct, own)
    requires var pv := snaps[q].ver;
             LastWrite(p1, pv, id) == LastWrite(p2, pv, id) == LastWrite(p4, pv, id) == None
    ensures exists first :: Opener(vt[mappings[n].rathenaStruct], snaps[q].ver, first)
    ensures forall first :: Opener(vt[mappings[n].rathenaStruct], snaps[q].ver, first) ==>
              && RunAt(code, snaps[q].ver, id).Some?
              && RunAt(code, snaps[q].ver, id).value ==
                 if exists f :: f in first.fields && f.isFlexArray then -1 else own.totalSize
  {
    var pv := snaps[q].ver;
    var p3 := JoinPass.ProposeAll(map[], JoinPass.JoinWrites(vt, mappings));
    SnapshotReachesTheTable(vt, mappings, n, id, snaps, q, own);
    LengthMerge.FillReadsExtra(m12, p1, p2, pv, id);
    assert Partial(m12, pv, id) == None;
    LengthMerge.FillReadsExtra(m123, m12, p3, pv, id);
    assert Replay(p3, pv, id) != 0;
    assert RunAt(code, pv, id) == Overlaid(m123, p4, pv, id);
  }

  lemma RangeApplies(ranges: seq<VersionRanges.VersionedLayout>, mapping: JoinPass.PacketMapping, k: nat, pv: uint32)
    requires JoinPass.Disjoint(ranges) && CoversAllVersions(mapping) && k < |ranges|
    requires VersionRanges.Covers(ranges[k], pv)
    requires ranges[k].layout.Some? && 1 <= ranges[k].layout.value.totalSize < 0x8000
    ensures JoinPass.Applies(mapping, ranges[k], pv)
    ensures JoinPass.LengthIn(mapping, ranges[k]).value ==
            if exists f :: f in ranges[k].layout.value.fields && f.isFlexArray then -1
            else ranges[k].layout.value.totalSize
  {
  }
}
