/**
 Lengths derived from struct sizes: every receive mapping of the semantic database is
 joined with the version ranges of its struct.
 */
module JoinPass {
  import opened Words
  import opened LengthTables
  import opened VersionRanges
  import opened Strings

  datatype PacketMapping = PacketMapping(
    packetID: string, direction: string, rathenaStruct: string, packetverMin: int, packetverMax: int)

  const FIRST_VERSION: uint32 := 20030000

  // ---------- what one range of one mapping proposes ----------

  /** A length proposed for a cell; length 0 is a reset placeholder. */
  datatype Write = Write(ver: uint32, id: uint16, length: int16)

  predicate HasFlexArray(layout: Layout) {
    exists k :: 0 <= k < |layout.fields| && layout.fields[k].isFlexArray
  }

  /** The wire length of a layout; a layout without a positive size has none. */
  function WireLength(layout: Layout): Option<int16> {
    if HasFlexArray(layout) then Some(-1)
    else if layout.totalSize <= 0 then None
    else Some(ToInt16(layout.totalSize))
  }

  /** The window tests: the range must reach past the start of the mapping and begin before its end. */
  predicate InWindow(mapping: PacketMapping, vr: VersionedLayout) {
    var implMin := if mapping.packetverMin == 0 then FIRST_VERSION else mapping.packetverMin;
    && !(vr.maxVer != 0 && vr.maxVer <= ToUint32(implMin))
    && !(mapping.packetverMax != 0 && vr.minVer >= ToUint32(mapping.packetverMax))
  }

  function LengthIn(mapping: PacketMapping, vr: VersionedLayout): Option<int16> {
    if vr.layout.Some? && InWindow(mapping, vr) then WireLength(vr.layout.value) else None
  }

  /** The later of the range's start and the mapping's own start. */
  function StartOf(mapping: PacketMapping, vr: VersionedLayout): uint32 {
    if mapping.packetverMin != 0 && ToUint32(mapping.packetverMin) > vr.minVer
    then ToUint32(mapping.packetverMin) else vr.minVer
  }

  function EmittedAt(ver: uint32): uint32 {
    if ver == FIRST_VERSION then 0 else ver
  }

  function RangeWrites(mapping: PacketMapping, id: uint16, vr: VersionedLayout): seq<Write> {
    match LengthIn(mapping, vr)
    case None => []
    case Some(length) =>
      [Write(EmittedAt(StartOf(mapping, vr)), id, length)] +
      (if vr.maxVer != 0 then [Write(vr.maxVer, id, 0)] else [])
  }

  function AllRangeWrites(mapping: PacketMapping, id: uint16, ranges: seq<VersionedLayout>): seq<Write> {
    if ranges == [] then []
    else AllRangeWrites(mapping, id, ranges[..|ranges| - 1]) + RangeWrites(mapping, id, ranges[|ranges| - 1])
  }

  function HexValue(s: string): Option<nat> {
    if s == [] then Some(0)
    else match (HexValue(s[..|s| - 1]), HexDigit(s[|s| - 1]))
      case (Some(hi), Some(lo)) => Some(16 * hi + lo)
      case _ => None
  }

  /** `strconv.ParseUint(s, 16, 16)` after dropping an optional 0x. */
  function ParseHexID(s: string): Option<uint16> {
    var digits := if |s| >= 2 && s[0] == '0' && (s[1] == 'x' || s[1] == 'X') then s[2..] else s;
    match HexValue(digits)
    case Some(n) => if digits != [] && n < 0x1_0000 then Some(n) else None
    case None => None
  }

  function MappingWrites(vt: VersionTable, mapping: PacketMapping): seq<Write> {
    if mapping.direction != "receive" || mapping.rathenaStruct == "" || mapping.rathenaStruct !in vt then []
    else match ParseHexID(mapping.packetID)
      case None => []
      case Some(id) => AllRangeWrites(mapping, id, vt[mapping.rathenaStruct])
  }

  function Concat(wss: seq<seq<Write>>): seq<Write> {
    if wss == [] then [] else Concat(wss[..|wss| - 1]) + wss[|wss| - 1]
  }

  function EachMapping(vt: VersionTable, mappings: seq<PacketMapping>): seq<seq<Write>> {
    seq(|mappings|, i requires 0 <= i < |mappings| => MappingWrites(vt, mappings[i]))
  }

  /** Every proposal of the pass, in the order the loops make them. */
  function JoinWrites(vt: VersionTable, mappings: seq<PacketMapping>): seq<Write> {
    Concat(EachMapping(vt, mappings))
  }

  /** A nonzero length wins over a reset placeholder; nothing else is overwritten. */
  function Propose(m: Cells, w: Write): Cells {
    var cur := At(m, w.ver, w.id);
    if cur == None || (cur == Some(0) && w.length != 0) then Put(m, w.ver, w.id, w.length) else m
  }

  function ProposeAll(m: Cells, ws: seq<Write>): Cells {
    if ws == [] then m else Propose(ProposeAll(m, ws[..|ws| - 1]), ws[|ws| - 1])
  }

  lemma {:induction false} ProposeConcat(m: Cells, ws: seq<Write>, more: seq<Write>)
    ensures ProposeAll(m, ws + more) == ProposeAll(ProposeAll(m, ws), more)
  {
    if more == [] {
      assert ws + more == ws;
    } else {
      var n := |more| - 1;
      ProposeConcat(m, ws, more[..n]);
      assert (ws + more)[..|ws + more| - 1] == ws + more[..n];
    }
  }

  // ---------- the pass itself ----------

  lemma ProposeOne(m: Cells, w: Write)
    ensures ProposeAll(m, [w]) == Propose(m, w)
  {
    assert [w][..0] == [];
    assert ProposeAll(m, []) == m;
  }

  lemma PutSame(m: Cells, ver: uint32, id: uint16, length: int16)
    requires At(m, ver, id) == Some(length)
    ensures Put(m, ver, id, length) == m
  {
    assert m[ver][id := length] == m[ver];
  }

  /** A flexible array member makes the packet variable-length; otherwise the size counts. */
  method MeasureLayout(layout: Layout) returns (length: Option<int16>)
    ensures length == WireLength(layout)
  {
    var n: int16 := 0;
    for k := 0 to |layout.fields|
      invariant n == 0 && forall j :: 0 <= j < k ==> !layout.fields[j].isFlexArray
    {
      if layout.fields[k].isFlexArray {
        n := -1;
        break;
      }
    }
    if n == 0 {
      if layout.totalSize <= 0 { return None; }
      n := ToInt16(layout.totalSize);
    }
    length := Some(n);
  }

  /** Set a length unless a nonzero one is there; a reset only fills an empty cell. */
  method StoreProposal(m: Cells, ver: uint32, id: uint16, length: int16, maxVer: uint32) returns (bpMap: Cells)
    ensures bpMap == ProposeAll(m, [Write(ver, id, length)] + (if maxVer != 0 then [Write(maxVer, id, 0)] else []))
  {
    bpMap := m;
    ProposeOne(m, Write(ver, id, length));
    var cur := At(bpMap, ver, id);
    if cur == None || (cur.value == 0 && length != 0) {
      bpMap := Put(bpMap, ver, id, length);
    }
    if maxVer != 0 {
      ProposeConcat(m, [Write(ver, id, length)], [Write(maxVer, id, 0)]);
      ProposeOne(bpMap, Write(maxVer, id, 0));
      var existing := At(bpMap, maxVer, id);
      if existing == None || existing.value == 0 {
        if existing.Some? { PutSame(bpMap, maxVer, id, 0); }
        bpMap := Put(bpMap, maxVer, id, 0);
      }
    } else {
      assert [Write(ver, id, length)] + [] == [Write(ver, id, length)];
    }
  }

  /** One version range of one mapping. */
  method JoinRange(m0: Cells, mapping: PacketMapping, id: uint16, vr: VersionedLayout) returns (bpMap: Cells)
    ensures bpMap == ProposeAll(m0, RangeWrites(mapping, id, vr))
  {
    bpMap := m0;
    if vr.layout == None { return; }
    var implMin: int := mapping.packetverMin;
    if implMin == 0 { implMin := 20030000; }
    var implMax := mapping.packetverMax;
    if vr.maxVer != 0 && vr.maxVer <= ToUint32(implMin) { return; }
    if implMax != 0 && vr.minVer >= ToUint32(implMax) { return; }
    var length := MeasureLayout(vr.layout.value);
    if length == None { return; }
    var ver := vr.minVer;
    if mapping.packetverMin != 0 && ToUint32(mapping.packetverMin) > ver { ver := ToUint32(mapping.packetverMin); }
    if ver == 20030000 { ver := 0; }
    bpMap := StoreProposal(m0, ver, id, length.value, vr.maxVer);
  }

  /** All ranges of one mapping. */
  method JoinMapping(m0: Cells, vt: VersionTable, mapping: PacketMapping) returns (bpMap: Cells)
    ensures bpMap == ProposeAll(m0, MappingWrites(vt, mapping))
  {
    bpMap := m0;
    if mapping.direction != "receive" { return; }
    if mapping.rathenaStruct == "" || mapping.rathenaStruct !in vt { return; }
    var ranges := vt[mapping.rathenaStruct];
    var parsed := ParseHexID(mapping.packetID);
    if parsed == None { return; }
    bpMap := JoinRanges(m0, mapping, parsed.value, ranges);
  }

  method JoinRanges(m0: Cells, mapping: PacketMapping, id: uint16, ranges: seq<VersionedLayout>) returns (bpMap: Cells)
    ensures bpMap == ProposeAll(m0, AllRangeWrites(mapping, id, ranges))
  {
    bpMap := m0;
    for k := 0 to |ranges|
      invariant bpMap == ProposeAll(m0, AllRangeWrites(mapping, id, ranges[..k]))
    {
      assert ranges[..k + 1][..k] == ranges[..k];
      ProposeConcat(m0, AllRangeWrites(mapping, id, ranges[..k]), RangeWrites(mapping, id, ranges[k]));
      bpMap := JoinRange(bpMap, mapping, id, ranges[k]);
    }
    assert ranges[..|ranges|] == ranges;
  }

  method BuildMapStocJoinPass(vt: VersionTable, mappings: seq<PacketMapping>) returns (bps: seq<Breakpoint>)
    ensures CellsOf(bps) == ProposeAll(map[], JoinWrites(vt, mappings))
    ensures WellFormed(bps)
  {
    var bpMap: Cells := map[];
    ghost var wss := EachMapping(vt, mappings);
    for i := 0 to |mappings|
      invariant bpMap == ProposeAll(map[], Concat(wss[..i]))
    {
      assert wss[..i + 1][..i] == wss[..i];
      ProposeConcat(map[], Concat(wss[..i]), wss[i]);
      bpMap := JoinMapping(bpMap, vt, mappings[i]);
    }
    assert wss[..|mappings|] == wss;
    bps := Flatten(bpMap);
  }

  // ---------- one cell, over the whole pass ----------

  ghost predicate Targets(w: Write, ver: int, id: uint16) {
    w.ver == ver && w.id == id
  }

  /** A cell only moves absent -> 0 -> nonzero, and a nonzero length is final. */
  lemma {:induction false} CellsOnlyGrow(m: Cells, ws: seq<Write>, ver: int, id: uint16)
    ensures At(m, ver, id).Some? ==> At(ProposeAll(m, ws), ver, id).Some?
    ensures At(m, ver, id).Some? && At(m, ver, id) != Some(0) ==> At(ProposeAll(m, ws), ver, id) == At(m, ver, id)
  {
    if ws != [] {
      CellsOnlyGrow(m, ws[..|ws| - 1], ver, id);
      var w := ws[|ws| - 1];
      PutAt(ProposeAll(m, ws[..|ws| - 1]), w.ver, w.id, w.length, ver, id);
    }
  }

  /**
   Where a cell ends up, whatever the order: absent if nothing is proposed for it, 0 if only
   zeros are, and otherwise one of the nonzero lengths proposed for it.
   */
  lemma {:induction false} CellOutcome(ws: seq<Write>, ver: int, id: uint16)
    ensures var cell := At(ProposeAll(map[], ws), ver, id);
            && (cell == None <==> forall w :: w in ws ==> !Targets(w, ver, id))
            && (cell == Some(0) ==> forall w :: w in ws && Targets(w, ver, id) ==> w.length == 0)
            && (cell.Some? ==> Write(ver, id, cell.value) in ws)
  {
    if ws != [] {
      var n := |ws| - 1;
      CellOutcome(ws[..n], ver, id);
      assert ws == ws[..n] + [ws[n]];
      PutAt(ProposeAll(map[], ws[..n]), ws[n].ver, ws[n].id, ws[n].length, ver, id);
      assert forall w :: w in ws <==> w in ws[..n] || w == ws[n];
      assert At(ProposeAll(map[], ws), ver, id) == None <==>
             At(ProposeAll(map[], ws[..n]), ver, id) == None && !Targets(ws[n], ver, id);
    }
  }

  /** Any two nonzero lengths proposed for one cell are equal. */
  ghost predicate Agreed(ws: seq<Write>) {
    forall w, w' :: w in ws && w' in ws && w.ver == w'.ver && w.id == w'.id && w.length != 0 && w'.length != 0
      ==> w == w'
  }

  ghost predicate SameWrites(ws: seq<Write>, ws': seq<Write>) {
    forall w :: w in ws <==> w in ws'
  }

  /**
   Which cells are absent, 0 or nonzero does not depend on the order in which the same
   proposals arrive; and if the nonzero ones agree, neither does any length.
   */
  lemma OrderIndependent(ws: seq<Write>, ws': seq<Write>, ver: int, id: uint16)
    requires SameWrites(ws, ws')
    ensures var a, b := At(ProposeAll(map[], ws), ver, id), At(ProposeAll(map[], ws'), ver, id);
            && (a == None <==> b == None) && (a == Some(0) <==> b == Some(0))
            && (Agreed(ws) ==> a == b)
  {
    CellOutcome(ws, ver, id);
    CellOutcome(ws', ver, id);
  }

  lemma {:induction false} ConcatSource(wss: seq<seq<Write>>, w: Write) returns (k: nat)
    requires w in Concat(wss)
    ensures k < |wss| && w in wss[k]
  {
    var n := |wss| - 1;
    if w in wss[n] { return n; }
    k := ConcatSource(wss[..n], w);
  }

  lemma {:induction false} ConcatIncludes(wss: seq<seq<Write>>, w: Write, k: nat)
    requires k < |wss| && w in wss[k]
    ensures w in Concat(wss)
  {
    var n := |wss| - 1;
    if k < n { ConcatIncludes(wss[..n], w, k); }
  }

  lemma PermutedProposals(vt: VersionTable, mappings: seq<PacketMapping>, mappings': seq<PacketMapping>, w: Write)
    requires multiset(mappings) == multiset(mappings') && w in JoinWrites(vt, mappings)
    ensures w in JoinWrites(vt, mappings')
  {
    var k := ConcatSource(EachMapping(vt, mappings), w);
    assert mappings[k] in multiset(mappings);
    var k' :| 0 <= k' < |mappings'| && mappings'[k'] == mappings[k];
    ConcatIncludes(EachMapping(vt, mappings'), w, k');
  }

  /** The mappings come out of a Go map, in arbitrary order: the cells do not notice. */
  lemma MappingOrderIndependent(vt: VersionTable, mappings: seq<PacketMapping>, mappings': seq<PacketMapping>,
                                ver: int, id: uint16)
    requires multiset(mappings) == multiset(mappings')
    ensures var a, b := At(ProposeAll(map[], JoinWrites(vt, mappings)), ver, id),
                        At(ProposeAll(map[], JoinWrites(vt, mappings')), ver, id);
            && (a == None <==> b == None) && (a == Some(0) <==> b == Some(0))
            && (Agreed(JoinWrites(vt, mappings)) ==> a == b)
  {
    forall w ensures w in JoinWrites(vt, mappings) <==> w in JoinWrites(vt, mappings') {
      if w in JoinWrites(vt, mappings) { PermutedProposals(vt, mappings, mappings', w); }
      if w in JoinWrites(vt, mappings') { PermutedProposals(vt, mappings', mappings, w); }
    }
    OrderIndependent(JoinWrites(vt, mappings), JoinWrites(vt, mappings'), ver, id);
  }

  // ---------- one mapping over disjoint ranges ----------

  /** Nonempty ranges in version order, from the first version on, none reaching into the next. */
  ghost predicate Disjoint(ranges: seq<VersionedLayout>) {
    && (forall k :: 0 <= k < |ranges| ==>
          FIRST_VERSION <= ranges[k].minVer && (ranges[k].maxVer == 0 || ranges[k].minVer < ranges[k].maxVer))
    && (forall j, k :: 0 <= j < k < |ranges| ==> 0 < ranges[j].maxVer <= ranges[k].minVer)
  }

  /** Bounds that survive the conversion to uint32. */
  ghost predicate RealBounds(mapping: PacketMapping) {
    0 <= mapping.packetverMin < 0x1_0000_0000 && 0 <= mapping.packetverMax < 0x1_0000_0000
  }

  /** The range applies at `pv`: it is emitted, has started for this mapping, and has not ended. */
  ghost predicate Applies(mapping: PacketMapping, vr: VersionedLayout, pv: uint32) {
    LengthIn(mapping, vr).Some? && StartOf(mapping, vr) <= pv && (vr.maxVer == 0 || pv < vr.maxVer)
  }

  /** Proposing at the newest version of an id's cells, over nothing or a reset. */
  lemma ProposeNewest(m: Cells, w: Write, pv: uint32)
    requires forall v :: At(m, v, w.id).Some? ==> v < w.ver || (v == w.ver && At(m, v, w.id) == Some(0))
    ensures Partial(Propose(m, w), pv, w.id) == if w.ver <= pv then Some(w.length) else Partial(m, pv, w.id)
  {
    var after := Propose(m, w);
    forall v: int ensures At(after, v, w.id) == if v == w.ver then Some(w.length) else At(m, v, w.id) {
      PutAt(m, w.ver, w.id, w.length, v, w.id);
    }
    if w.ver <= pv {
      LastWriteIs(after, pv, w.id, w.ver);
    } else {
      ReadsBelow(m, after, pv, w.id);
    }
  }

  /** The id's cells lie below `limit`, except possibly a reset at `limit` itself. */
  ghost predicate ClearFrom(m: Cells, id: uint16, limit: int) {
    forall v :: At(m, v, id).Some? ==> v < limit || (v == limit && At(m, v, id) == Some(0))
  }

  lemma RangeReads(m: Cells, mapping: PacketMapping, id: uint16, vr: VersionedLayout, pv: uint32)
    requires RealBounds(mapping) && FIRST_VERSION <= pv
    requires FIRST_VERSION <= vr.minVer && (vr.maxVer == 0 || vr.minVer < vr.maxVer)
    requires ClearFrom(m, id, vr.minVer) && (vr.minVer == FIRST_VERSION ==> ClearFrom(m, id, 0))
    ensures var after := ProposeAll(m, RangeWrites(mapping, id, vr));
            Replay(after, pv, id) ==
            if Applies(mapping, vr, pv) then LengthIn(mapping, vr).value
            else if LengthIn(mapping, vr).Some? && vr.maxVer != 0 && vr.maxVer <= pv then 0
            else Replay(m, pv, id)
    ensures vr.maxVer != 0 ==> ClearFrom(ProposeAll(m, RangeWrites(mapping, id, vr)), id, vr.maxVer)
  {
    match LengthIn(mapping, vr)
    case None =>
    case Some(length) =>
      var start := Write(EmittedAt(StartOf(mapping, vr)), id, length);
      var m1 := Propose(m, start);
      ProposeOne(m, start);
      ProposeNewest(m, start, pv);
      if vr.maxVer != 0 {
        var reset := Write(vr.maxVer, id, 0);
        forall v | At(m1, v, id).Some? ensures v < vr.maxVer { PutAt(m, start.ver, id, length, v, id); }
        ProposeConcat(m, [start], [reset]);
        ProposeOne(m1, reset);
        ProposeNewest(m1, reset, pv);
        forall v ensures At(Propose(m1, reset), v, id) == if v == vr.maxVer then Some(0) else At(m1, v, id) {
          PutAt(m1, vr.maxVer, id, 0, v, id);
        }
      } else {
        assert RangeWrites(mapping, id, vr) == [start];
      }
  }

  /** The length in force at `pv` is that of the range that applies, and 0 where none does. */
  ghost predicate ReadsRanges(m: Cells, mapping: PacketMapping, id: uint16, ranges: seq<VersionedLayout>, pv: uint32) {
    && (forall k :: 0 <= k < |ranges| && Applies(mapping, ranges[k], pv) ==>
          Replay(m, pv, id) == LengthIn(mapping, ranges[k]).value)
    && ((forall k :: 0 <= k < |ranges| ==> !Applies(mapping, ranges[k], pv)) ==> Replay(m, pv, id) == 0)
  }

  /** Everything proposed so far lies before the next range. */
  ghost predicate Frontier(m: Cells, id: uint16, ranges: seq<VersionedLayout>) {
    if ranges == [] then ClearFrom(m, id, 0) && ClearFrom(m, id, FIRST_VERSION)
    else ranges[|ranges| - 1].maxVer != 0 ==> ClearFrom(m, id, ranges[|ranges| - 1].maxVer)
  }

  lemma NextFrontier(m: Cells, id: uint16, front: seq<VersionedLayout>, vr: VersionedLayout)
    requires Disjoint(front + [vr]) && Frontier(m, id, front)
    ensures ClearFrom(m, id, vr.minVer) && (vr.minVer == FIRST_VERSION ==> ClearFrom(m, id, 0))
  {
    var all := front + [vr];
    if front != [] {
      assert all[|front| - 1] == front[|front| - 1] && all[|front|] == vr;
    }
  }

  lemma JoinStep(m: Cells, mapping: PacketMapping, id: uint16, front: seq<VersionedLayout>, vr: VersionedLayout,
                 pv: uint32)
    requires RealBounds(mapping) && Disjoint(front + [vr]) && FIRST_VERSION <= pv
    requires Frontier(m, id, front) && ReadsRanges(m, mapping, id, front, pv)
    ensures var after := ProposeAll(m, RangeWrites(mapping, id, vr));
            Frontier(after, id, front + [vr]) && ReadsRanges(after, mapping, id, front + [vr], pv)
  {
    var all := front + [vr];
    assert all[|front|] == vr && forall k :: 0 <= k < |front| ==> all[k] == front[k];
    NextFrontier(m, id, front, vr);
    RangeReads(m, mapping, id, vr, pv);
    forall k | 0 <= k < |front| && Applies(mapping, front[k], pv) ensures pv < vr.minVer {
      assert all[k].maxVer <= all[|front|].minVer;
    }
  }

  /**
   The joined table, replayed at any version from the first on, gives the length of the range
   that applies there, and 0 where none does: before the mapping's start, in the gaps, and
   where the only covering range was skipped.
   */
  lemma {:induction false} JoinReads(mapping: PacketMapping, id: uint16, ranges: seq<VersionedLayout>, pv: uint32)
    requires RealBounds(mapping) && Disjoint(ranges) && FIRST_VERSION <= pv
    ensures ReadsRanges(ProposeAll(map[], AllRangeWrites(mapping, id, ranges)), mapping, id, ranges, pv)
    ensures Frontier(ProposeAll(map[], AllRangeWrites(mapping, id, ranges)), id, ranges)
  {
    if ranges == [] {
      NoWrite(map[], pv, id);
    } else {
      var front, vr := ranges[..|ranges| - 1], ranges[|ranges| - 1];
      assert ranges == front + [vr];
      JoinReads(mapping, id, front, pv);
      ProposeConcat(map[], AllRangeWrites(mapping, id, front), RangeWrites(mapping, id, vr));
      JoinStep(ProposeAll(map[], AllRangeWrites(mapping, id, front)), mapping, id, front, vr, pv);
    }
  }

  /** The starts of disjoint ranges differ, so their lengths never compete for a cell. */
  lemma {:induction false} DisjointAgree(mapping: PacketMapping, id: uint16, ranges: seq<VersionedLayout>, w: Write)
    requires RealBounds(mapping) && Disjoint(ranges) && w.length != 0
    requires w in AllRangeWrites(mapping, id, ranges)
    ensures exists k :: 0 <= k < |ranges| && StartWrite(mapping, id, ranges[k], w)
  {
    var n := |ranges| - 1;
    if w in RangeWrites(mapping, id, ranges[n]) {
      assert StartWrite(mapping, id, ranges[n], w);
    } else {
      DisjointAgree(mapping, id, ranges[..n], w);
      var k :| 0 <= k < n && StartWrite(mapping, id, ranges[..n][k], w);
      assert StartWrite(mapping, id, ranges[k], w);
    }
  }

  ghost predicate StartWrite(mapping: PacketMapping, id: uint16, vr: VersionedLayout, w: Write) {
    LengthIn(mapping, vr) == Some(w.length) && w.ver == EmittedAt(StartOf(mapping, vr)) && w.id == id
  }

  /**
   A reset at a boundary never erases a length starting there, whichever comes first: any
   rearrangement of the proposals of one mapping's disjoint ranges builds the same cells.
   */
  lemma ResetNeverErases(mapping: PacketMapping, id: uint16, ranges: seq<VersionedLayout>, ws: seq<Write>, ver: int,
                         i: uint16)
    requires RealBounds(mapping) && Disjoint(ranges)
    requires SameWrites(AllRangeWrites(mapping, id, ranges), ws)
    ensures At(ProposeAll(map[], ws), ver, i) == At(ProposeAll(map[], AllRangeWrites(mapping, id, ranges)), ver, i)
  {
    var all := AllRangeWrites(mapping, id, ranges);
    forall w, w' | w in all && w' in all && w.ver == w'.ver && w.id == w'.id && w.length != 0 && w'.length != 0
      ensures w == w'
    {
      DisjointAgree(mapping, id, ranges, w);
      DisjointAgree(mapping, id, ranges, w');
      var k :| 0 <= k < |ranges| && StartWrite(mapping, id, ranges[k], w);
      var k' :| 0 <= k' < |ranges| && StartWrite(mapping, id, ranges[k'], w');
      StartsDiffer(mapping, ranges, k, k');
    }
    OrderIndependent(all, ws, ver, i);
  }

  lemma StartsDiffer(mapping: PacketMapping, ranges: seq<VersionedLayout>, k: nat, k': nat)
    requires RealBounds(mapping) && Disjoint(ranges) && k < |ranges| && k' < |ranges|
    requires LengthIn(mapping, ranges[k]).Some? && LengthIn(mapping, ranges[k']).Some?
    requires EmittedAt(StartOf(mapping, ranges[k])) == EmittedAt(StartOf(mapping, ranges[k']))
    ensures k == k'
  {
  }

  // ---------- among other mappings ----------

  ghost predicate AgreeOn(m: Cells, m': Cells, id: uint16) {
    forall v: int :: At(m, v, id) == At(m', v, id)
  }

  lemma {:induction false} ProposeAgree(m: Cells, m': Cells, ws: seq<Write>, id: uint16)
    requires AgreeOn(m, m', id)
    ensures AgreeOn(ProposeAll(m, ws), ProposeAll(m', ws), id)
  {
    if ws != [] {
      var front, w := ws[..|ws| - 1], ws[|ws| - 1];
      ProposeAgree(m, m', front, id);
      forall v: int ensures At(ProposeAll(m, ws), v, id) == At(ProposeAll(m', ws), v, id) {
        PutAt(ProposeAll(m, front), w.ver, w.id, w.length, v, id);
        PutAt(ProposeAll(m', front), w.ver, w.id, w.length, v, id);
      }
    }
  }

  lemma {:induction false} ProposeForeign(m: Cells, ws: seq<Write>, id: uint16)
    requires forall w :: w in ws ==> w.id != id
    ensures AgreeOn(ProposeAll(m, ws), m, id)
  {
    if ws != [] {
      var front, w := ws[..|ws| - 1], ws[|ws| - 1];
      ProposeForeign(m, front, id);
      forall v: int ensures At(ProposeAll(m, ws), v, id) == At(m, v, id) {
        PutAt(ProposeAll(m, front), w.ver, w.id, w.length, v, id);
      }
    }
  }

  lemma {:induction false} WritesOneId(mapping: PacketMapping, id: uint16, ranges: seq<VersionedLayout>, w: Write)
    requires w in AllRangeWrites(mapping, id, ranges)
    ensures w.id == id
  {
    if w !in RangeWrites(mapping, id, ranges[|ranges| - 1]) {
      WritesOneId(mapping, id, ranges[..|ranges| - 1], w);
    }
  }

  /** The mapping takes part in the pass, for this id. */
  ghost predicate Receives(vt: VersionTable, mapping: PacketMapping, id: uint16) {
    && mapping.direction == "receive" && mapping.rathenaStruct != "" && mapping.rathenaStruct in vt
    && ParseHexID(mapping.packetID) == Some(id)
  }

  /** No other mapping takes part for the id of mapping `k`. */
  ghost predicate Sole(vt: VersionTable, mappings: seq<PacketMapping>, k: nat, id: uint16) {
    && k < |mappings| && Receives(vt, mappings[k], id)
    && forall j :: 0 <= j < |mappings| && j != k ==> !Receives(vt, mappings[j], id)
  }

  lemma OthersAreForeign(vt: VersionTable, mapping: PacketMapping, id: uint16, w: Write)
    requires !Receives(vt, mapping, id) && w in MappingWrites(vt, mapping)
    ensures w.id != id
  {
    WritesOneId(mapping, ParseHexID(mapping.packetID).value, vt[mapping.rathenaStruct], w);
  }

  lemma OneMoreMapping(wss: seq<seq<Write>>, n: nat)
    requires n < |wss|
    ensures ProposeAll(map[], Concat(wss[..n + 1])) == ProposeAll(ProposeAll(map[], Concat(wss[..n])), wss[n])
  {
    assert wss[..n + 1][..n] == wss[..n] && wss[..n + 1][n] == wss[n];
    ProposeConcat(map[], Concat(wss[..n]), wss[n]);
  }

  lemma ForeignMapping(m: Cells, vt: VersionTable, mapping: PacketMapping, id: uint16)
    requires !Receives(vt, mapping, id)
    ensures AgreeOn(ProposeAll(m, MappingWrites(vt, mapping)), m, id)
  {
    var ws := MappingWrites(vt, mapping);
    forall w: Write | w in ws ensures w.id != id { OthersAreForeign(vt, mapping, id, w); }
    ProposeForeign(m, ws, id);
  }

  lemma {:induction false} BeforeOwn(vt: VersionTable, mappings: seq<PacketMapping>, k: nat, id: uint16, i: nat)
    requires Sole(vt, mappings, k, id) && i <= k
    ensures AgreeOn(ProposeAll(map[], Concat(EachMapping(vt, mappings)[..i])), map[], id)
  {
    if i > 0 {
      BeforeOwn(vt, mappings, k, id, i - 1);
      OneMoreMapping(EachMapping(vt, mappings), i - 1);
      ForeignMapping(ProposeAll(map[], Concat(EachMapping(vt, mappings)[..i - 1])), vt, mappings[i - 1], id);
    }
  }

  /** The cells of the id are those its own mapping proposes. */
  lemma {:induction false} OwnCells(vt: VersionTable, mappings: seq<PacketMapping>, k: nat, id: uint16, i: nat)
    requires Sole(vt, mappings, k, id) && k < i <= |mappings|
    ensures AgreeOn(ProposeAll(map[], Concat(EachMapping(vt, mappings)[..i])),
                    ProposeAll(map[], MappingWrites(vt, mappings[k])), id)
  {
    var before := ProposeAll(map[], Concat(EachMapping(vt, mappings)[..i - 1]));
    OneMoreMapping(EachMapping(vt, mappings), i - 1);
    if i == k + 1 {
      BeforeOwn(vt, mappings, k, id, k);
      ProposeAgree(before, map[], MappingWrites(vt, mappings[k]), id);
    } else {
      OwnCells(vt, mappings, k, id, i - 1);
      ForeignMapping(before, vt, mappings[i - 1], id);
    }
  }

  /**
   The same for the whole pass: whatever the other mappings, an id that only one of them has
   reads as the ranges of its struct.
   */
  lemma PassReads(vt: VersionTable, mappings: seq<PacketMapping>, k: nat, id: uint16, pv: uint32)
    requires Sole(vt, mappings, k, id) && FIRST_VERSION <= pv
    requires RealBounds(mappings[k]) && Disjoint(vt[mappings[k].rathenaStruct])
    ensures ReadsRanges(ProposeAll(map[], JoinWrites(vt, mappings)), mappings[k], id, vt[mappings[k].rathenaStruct], pv)
  {
    var ranges := vt[mappings[k].rathenaStruct];
    var all := ProposeAll(map[], JoinWrites(vt, mappings));
    var own := ProposeAll(map[], AllRangeWrites(mappings[k], id, ranges));
    OwnCells(vt, mappings, k, id, |mappings|);
    assert EachMapping(vt, mappings)[..|mappings|] == EachMapping(vt, mappings);
    ReadsBelow(all, own, pv, id);
    JoinReads(mappings[k], id, ranges, pv);
  }

  // ---------- the pass, on the bounds as given ----------

  ghost predicate Flexible(layout: Layout) {
    exists f :: f in layout.fields && f.isFlexArray
  }

  /** The mapping has begun, the range holds the version, and it began inside the window. */
  ghost predicate InForce(mapping: PacketMapping, vr: VersionedLayout, pv: uint32) {
    && vr.layout.Some? && (Flexible(vr.layout.value) || vr.layout.value.totalSize > 0)
    && mapping.packetverMin <= pv && vr.minVer <= pv && (vr.maxVer == 0 || pv < vr.maxVer)
    && (mapping.packetverMax == 0 || vr.minVer < mapping.packetverMax)
  }

  /** The size in 16 bits, or -1 with a flexible array. */
  ghost predicate IsSizeOf(length: int, layout: Layout) {
    if Flexible(layout) then length == -1
    else -0x8000 <= length < 0x8000 && (length - layout.totalSize) % 0x1_0000 == 0
  }

  lemma FlexibleExactly(layout: Layout)
    ensures HasFlexArray(layout) <==> Flexible(layout)
  {
    if HasFlexArray(layout) {
      var k :| 0 <= k < |layout.fields| && layout.fields[k].isFlexArray;
      assert layout.fields[k] in layout.fields;
    }
  }

  lemma WireLengthIsSize(layout: Layout)
    ensures WireLength(layout).Some? <==> Flexible(layout) || layout.totalSize > 0
    ensures WireLength(layout).Some? ==> IsSizeOf(WireLength(layout).value, layout)
  {
    FlexibleExactly(layout);
  }

  lemma AppliesInForce(mapping: PacketMapping, vr: VersionedLayout, pv: uint32)
    requires RealBounds(mapping) && FIRST_VERSION <= pv
    ensures Applies(mapping, vr, pv) <==> InForce(mapping, vr, pv)
    ensures Applies(mapping, vr, pv) ==> IsSizeOf(LengthIn(mapping, vr).value, vr.layout.value)
  {
    if vr.layout.Some? { WireLengthIsSize(vr.layout.value); }
  }

  /**
   An id that one mapping receives reads, at a version from the first on, as the size of the
   range that holds the version if the mapping has begun by then and the range began before
   the mapping's end. Otherwise it reads 0: before the mapping begins in particular.
   */
  lemma WindowReads(vt: VersionTable, mappings: seq<PacketMapping>, n: nat, id: uint16, pv: uint32)
    requires Sole(vt, mappings, n, id) && 20030000 <= pv
    requires RealBounds(mappings[n]) && Disjoint(vt[mappings[n].rathenaStruct])
    ensures var mapping, ranges := mappings[n], vt[mappings[n].rathenaStruct];
            var length := Replay(ProposeAll(map[], JoinWrites(vt, mappings)), pv, id);
            && (forall k :: 0 <= k < |ranges| && InForce(mapping, ranges[k], pv) ==>
                  IsSizeOf(length, ranges[k].layout.value))
            && ((forall k :: 0 <= k < |ranges| ==> !InForce(mapping, ranges[k], pv)) ==> length == 0)
            && (pv < mapping.packetverMin ==> length == 0)
  {
    var mapping, ranges := mappings[n], vt[mappings[n].rathenaStruct];
    PassReads(vt, mappings, n, id, pv);
    forall k | 0 <= k < |ranges|
      ensures Applies(mapping, ranges[k], pv) <==> InForce(mapping, ranges[k], pv)
      ensures InForce(mapping, ranges[k], pv) ==> IsSizeOf(LengthIn(mapping, ranges[k]).value, ranges[k].layout.value)
    {
      AppliesInForce(mapping, ranges[k], pv);
    }
  }

  lemma {:induction false} NothingByFirst(mapping: PacketMapping, id: uint16, ranges: seq<VersionedLayout>, w: Write)
    requires RealBounds(mapping) && Disjoint(ranges) && w in AllRangeWrites(mapping, id, ranges)
    ensures w.ver == 0 || w.ver > FIRST_VERSION
  {
    var n := |ranges| - 1;
    if w !in RangeWrites(mapping, id, ranges[n]) { NothingByFirst(mapping, id, ranges[..n], w); }
  }

  /** Every version up to the first one reads as the first one does. */
  lemma BelowFirstVersion(vt: VersionTable, mappings: seq<PacketMapping>, n: nat, id: uint16, pv: uint32)
    requires Sole(vt, mappings, n, id) && pv <= 20030000
    requires RealBounds(mappings[n]) && Disjoint(vt[mappings[n].rathenaStruct])
    ensures var all := ProposeAll(map[], JoinWrites(vt, mappings));
            Partial(all, pv, id) == Partial(all, 20030000, id)
  {
    var all := ProposeAll(map[], JoinWrites(vt, mappings));
    var ws := AllRangeWrites(mappings[n], id, vt[mappings[n].rathenaStruct]);
    OwnCells(vt, mappings, n, id, |mappings|);
    assert EachMapping(vt, mappings)[..|mappings|] == EachMapping(vt, mappings);
    forall u: int | At(all, u, id).Some? ensures u == 0 || u > FIRST_VERSION {
      CellOutcome(ws, u, id);
      NothingByFirst(mappings[n], id, vt[mappings[n].rathenaStruct], Write(u, id, At(all, u, id).value));
    }
    ReadsAsFirst(all, id, pv);
  }

  lemma ReadsAsFirst(m: Cells, id: uint16, pv: uint32)
    requires pv <= FIRST_VERSION && forall u: int :: At(m, u, id).Some? ==> u == 0 || u > FIRST_VERSION
    ensures Partial(m, pv, id) == Partial(m, FIRST_VERSION, id)
  {
    if At(m, 0, id).Some? {
      LastWriteIs(m, pv, id, 0);
      LastWriteIs(m, FIRST_VERSION, id, 0);
    } else {
      NoWrite(m, pv, id);
      NoWrite(m, FIRST_VERSION, id);
    }
  }

  // ---------- the end of the window ----------

  /**
   From the end of a mapping's window on its id should read 0. It does exactly when no range
   that began inside the window is still running with a size of which 16 bits are not 0: the
   ranges that begin after the window are dropped, but none is cut short at its end.
   */
  lemma WindowEndExactly(vt: VersionTable, mappings: seq<PacketMapping>, k: nat, id: uint16, pv: uint32)
    requires Sole(vt, mappings, k, id) && FIRST_VERSION <= pv
    requires RealBounds(mappings[k]) && Disjoint(vt[mappings[k].rathenaStruct])
    requires mappings[k].packetverMax != 0 && mappings[k].packetverMax <= pv
    ensures var mapping, ranges := mappings[k], vt[mappings[k].rathenaStruct];
            Replay(ProposeAll(map[], JoinWrites(vt, mappings)), pv, id) == 0 <==>
            forall j :: 0 <= j < |ranges| && InForce(mapping, ranges[j], pv) ==>
              !Flexible(ranges[j].layout.value) && ranges[j].layout.value.totalSize % 0x1_0000 == 0
  {
    WindowReads(vt, mappings, k, id, pv);
  }

  /** A receive mapping that ends at 20100101, and a struct of size 10 that never changes. */
  const UNTIL_2010 := PacketMapping("0x0ADD", "receive", "S", 0, 20100101)
  const UNCHANGED := VersionedLayout(FIRST_VERSION, 0, Some(Layout([], 10, true)))

  lemma HexValueAppend(s: string, c: char)
    ensures HexValue(s + [c]) ==
            match (HexValue(s), HexDigit(c)) case (Some(hi), Some(lo)) => Some(16 * hi + lo) case _ => None
  {
    assert (s + [c])[..|s|] == s;
  }

  lemma HexIDParses()
    ensures ParseHexID("0x0ADD") == Some(0x0ADD)
  {
    HexValueAppend("", '0');
    HexValueAppend("0", 'A');
    HexValueAppend("0A", 'D');
    HexValueAppend("0AD", 'D');
    assert "0x0ADD"[2..] == "0ADD" == "0AD" + ['D'] && "0AD" == "0A" + ['D'];
    assert "0A" == "0" + ['A'] && "0" == "" + ['0'];
  }

  /** The pass over these still gives the length at every version past the end of the window. */
  lemma WindowEndIgnored(pv: uint32)
    requires 20100101 <= pv
    ensures Replay(ProposeAll(map[], JoinWrites(map["S" := [UNCHANGED]], [UNTIL_2010])), pv, 0x0ADD) == 10
  {
    var vt: VersionTable := map["S" := [UNCHANGED]];
    HexIDParses();
    assert Sole(vt, [UNTIL_2010], 0, 0x0ADD);
    PassReads(vt, [UNTIL_2010], 0, 0x0ADD, pv);
    assert WireLength(UNCHANGED.layout.value) == Some(10);
    assert Applies(UNTIL_2010, vt["S"][0], pv);
  }

  // ---------- several mappings of one id ----------

  /** No proposal for the id lies strictly after `ver`, up to `pv`. */
  ghost predicate Newest(ws: seq<Write>, ver: uint32, id: uint16, pv: uint32) {
    && ver <= pv && (exists w :: w in ws && Targets(w, ver, id))
    && forall w :: w in ws && w.id == id && w.ver <= pv ==> w.ver <= ver
  }

  /**
   Whatever the mappings, an id reads at a version as the newest proposals for it say: a
   nonzero length proposed there if the nonzero ones agree, and 0 if there are only resets.
   An id without proposals by then is not set.
   */
  lemma NewestProposalReads(ws: seq<Write>, pv: uint32, id: uint16, ver: uint32)
    requires Newest(ws, ver, id, pv)
    ensures var read := Partial(ProposeAll(map[], ws), pv, id);
            && read.Some? && Write(ver, id, read.value) in ws
            && (read == Some(0) <==> forall w :: w in ws && Targets(w, ver, id) ==> w.length == 0)
            && (Agreed(ws) ==> forall w :: w in ws && Targets(w, ver, id) && w.length != 0 ==> read == Some(w.length))
  {
    var m := ProposeAll(map[], ws);
    CellOutcome(ws, ver, id);
    forall u: int | ver < u <= pv ensures At(m, u, id) == None { CellOutcome(ws, u, id); }
    LastWriteIs(m, pv, id, ver);
    var cell := At(m, ver, id);
    if cell == Some(0) { assert Write(ver, id, 0) in ws; }
  }

  lemma NoProposalReads(ws: seq<Write>, pv: uint32, id: uint16)
    requires forall w :: w in ws && w.id == id ==> pv < w.ver
    ensures Partial(ProposeAll(map[], ws), pv, id) == None
  {
    forall u: int | u <= pv ensures At(ProposeAll(map[], ws), u, id) == None { CellOutcome(ws, u, id); }
    NoWrite(ProposeAll(map[], ws), pv, id);
  }

  /** An id that no mapping receives is not set at all. */
  lemma NotReceivedNotSet(vt: VersionTable, mappings: seq<PacketMapping>, id: uint16, pv: uint32)
    requires forall j :: 0 <= j < |mappings| ==> !Receives(vt, mappings[j], id)
    ensures Partial(ProposeAll(map[], JoinWrites(vt, mappings)), pv, id) == None
  {
    forall w | w in JoinWrites(vt, mappings) ensures w.id != id {
      var k := ConcatSource(EachMapping(vt, mappings), w);
      OthersAreForeign(vt, mappings[k], id, w);
    }
    NoProposalReads(JoinWrites(vt, mappings), pv, id);
  }
}
