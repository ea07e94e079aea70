/**
 Packet-length tables, held as sparse per-version deltas, and what they mean.

 A breakpoint list is emitted as a function that starts from an all-zero table and,
 block by block in ascending version order, executes `if pv >= Ver { t[id] = length }`.
 `Run` is that function. `Partial` is an independent reading of the same data: the cell
 written at the greatest version not above `pv`. The two are connected by `RunIsPartial`.
 */
module LengthTables {
  import opened Words

  datatype LengthEntry = LengthEntry(id: uint16, length: int16)
  datatype Breakpoint = Breakpoint(ver: uint32, entries: seq<LengthEntry>)

  type LenTable = map<uint16, int16>
  type Cells = map<uint32, LenTable>

  /** Reading a Go map: an absent key reads as zero. */
  function LookUp(t: LenTable, id: uint16): int16 {
    if id in t then t[id] else 0
  }

  /** The table obtained by storing the entries in order; a later entry overwrites. */
  function TableOf(es: seq<LengthEntry>): LenTable {
    if es == [] then map[]
    else TableOf(es[..|es| - 1])[es[|es| - 1].id := es[|es| - 1].length]
  }

  function BlockAt(m: Cells, ver: uint32): LenTable {
    if ver in m then m[ver] else map[]
  }

  /** Storing every block of `bps` on top of `m`, in order. */
  function Overlay(m: Cells, bps: seq<Breakpoint>): Cells {
    if bps == [] then m
    else
      var before := Overlay(m, bps[..|bps| - 1]);
      var bp := bps[|bps| - 1];
      before[bp.ver := BlockAt(before, bp.ver) + TableOf(bp.entries)]
  }

  function CellsOf(bps: seq<Breakpoint>): Cells {
    Overlay(map[], bps)
  }

  function At(m: Cells, ver: int, id: uint16): Option<int16> {
    if ver in m && id in m[ver] then Some(m[ver][id]) else None
  }

  // ---------- the reading of a table at one version ----------

  /** The greatest version not above `pv` at which the id has a cell. */
  ghost function LastWrite(m: Cells, pv: uint32, id: uint16): (w: Option<uint32>)
    ensures w.Some? ==> w.value <= pv && At(m, w.value, id).Some?
    ensures forall v :: v <= pv && (w.Some? ==> w.value < v) ==> At(m, v, id) == None
  {
    if At(m, pv, id).Some? then Some(pv)
    else if pv == 0 then None
    else LastWrite(m, pv - 1, id)
  }

  /** What the id is set to at `pv`, if it was ever set. */
  ghost function Partial(m: Cells, pv: uint32, id: uint16): Option<int16> {
    match LastWrite(m, pv, id)
    case Some(v) => At(m, v, id)
    case None => None
  }

  /** The length in force at `pv`; an id that was never set reads as 0 (unknown). */
  ghost function Replay(m: Cells, pv: uint32, id: uint16): int16 {
    Partial(m, pv, id).GetOr(0)
  }

  lemma LastWriteIs(m: Cells, pv: uint32, id: uint16, v: uint32)
    requires v <= pv && At(m, v, id).Some?
    requires forall u :: v < u <= pv ==> At(m, u, id) == None
    ensures LastWrite(m, pv, id) == Some(v)
  {
    var w := LastWrite(m, pv, id);
    assert w.Some?;
  }

  lemma NoWrite(m: Cells, pv: uint32, id: uint16)
    requires forall u :: u <= pv ==> At(m, u, id) == None
    ensures LastWrite(m, pv, id) == None
  {
    var w := LastWrite(m, pv, id);
  }

  /** Only the id's own cells at versions up to `pv` matter. */
  lemma ReadsBelow(m: Cells, m': Cells, pv: uint32, id: uint16)
    requires forall u :: u <= pv ==> At(m, u, id) == At(m', u, id)
    ensures LastWrite(m, pv, id) == LastWrite(m', pv, id)
    ensures Partial(m, pv, id) == Partial(m', pv, id)
  {
    var w := LastWrite(m, pv, id);
    match w
    case Some(v) => LastWriteIs(m', pv, id, v);
    case None => NoWrite(m', pv, id);
  }

  ghost predicate AllBelow(m: Cells, limit: int) {
    forall v :: v in m ==> v < limit
  }

  /** Adding a block above every version already present. */
  function OnTop(m: Cells, ver: uint32, block: LenTable): Cells {
    if block == map[] then m else m[ver := BlockAt(m, ver) + block]
  }

  lemma OnTopReads(m: Cells, ver: uint32, block: LenTable, pv: uint32, id: uint16)
    requires AllBelow(m, ver)
    ensures Partial(OnTop(m, ver, block), pv, id) ==
            if ver <= pv && id in block then Some(block[id]) else Partial(m, pv, id)
  {
    var after := OnTop(m, ver, block);
    if ver <= pv && id in block {
      LastWriteIs(after, pv, id, ver);
    } else {
      ReadsBelow(m, after, pv, id);
    }
  }

  // ---------- overlaying, cell by cell ----------

  lemma OverlayAt(m: Cells, bps: seq<Breakpoint>, ver: int, id: uint16)
    ensures At(Overlay(m, bps), ver, id) ==
            match At(CellsOf(bps), ver, id) { case Some(l) => Some(l) case None => At(m, ver, id) }
  {
    if bps != [] {
      OverlayAt(m, bps[..|bps| - 1], ver, id);
    }
  }

  /** Some block of version `ver` lists the entry. */
  ghost predicate Mentions(bps: seq<Breakpoint>, ver: int, e: LengthEntry) {
    exists bp :: bp in bps && bp.ver == ver && e in bp.entries
  }

  lemma {:induction false} TableMember(es: seq<LengthEntry>, id: uint16)
    ensures id in TableOf(es) ==> LengthEntry(id, TableOf(es)[id]) in es
    ensures id !in TableOf(es) ==> forall e :: e in es ==> e.id != id
  {
    if es != [] {
      var n := |es| - 1;
      TableMember(es[..n], id);
      assert es == es[..n] + [es[n]];
    }
  }

  lemma {:induction false} AtMentions(bps: seq<Breakpoint>, ver: int, id: uint16)
    ensures At(CellsOf(bps), ver, id).Some? ==>
              Mentions(bps, ver, LengthEntry(id, At(CellsOf(bps), ver, id).value))
    ensures At(CellsOf(bps), ver, id) == None ==> forall l :: !Mentions(bps, ver, LengthEntry(id, l))
  {
    if bps != [] {
      var n := |bps| - 1;
      AtMentions(bps[..n], ver, id);
      TableMember(bps[n].entries, id);
      assert bps == bps[..n] + [bps[n]];
      assert bps[n] in bps;
      if At(CellsOf(bps), ver, id).Some? && !(bps[n].ver == ver && id in TableOf(bps[n].entries)) {
        var bp :| bp in bps[..n] && bp.ver == ver && LengthEntry(id, At(CellsOf(bps), ver, id).value) in bp.entries;
        assert bp in bps;
      }
    }
  }

  /** No two entries give the same cell different lengths. */
  ghost predicate Consistent(bps: seq<Breakpoint>) {
    forall ver, e, e' :: Mentions(bps, ver, e) && Mentions(bps, ver, e') && e.id == e'.id ==> e == e'
  }

  lemma AtConsistent(bps: seq<Breakpoint>, ver: int, e: LengthEntry)
    requires Consistent(bps) && Mentions(bps, ver, e)
    ensures At(CellsOf(bps), ver, e.id) == Some(e.length)
  {
    AtMentions(bps, ver, e.id);
  }

  /** Lists that mention the same entries, in any arrangement, denote the same cells. */
  lemma SameMentionsSameCells(bps: seq<Breakpoint>, bps': seq<Breakpoint>, ver: int, id: uint16)
    requires Consistent(bps)
    requires forall e :: Mentions(bps, ver, e) <==> Mentions(bps', ver, e)
    ensures At(CellsOf(bps), ver, id) == At(CellsOf(bps'), ver, id)
  {
    AtMentions(bps, ver, id);
    AtMentions(bps', ver, id);
    match At(CellsOf(bps'), ver, id)
    case Some(l) => AtConsistent(bps, ver, LengthEntry(id, l));
    case None =>
  }

  // ---------- executing the emitted function ----------

  function Run(bps: seq<Breakpoint>, pv: uint32): LenTable {
    if bps == [] then map[]
    else
      var t := Run(bps[..|bps| - 1], pv);
      var bp := bps[|bps| - 1];
      if bp.ver <= pv then t + TableOf(bp.entries) else t
  }

  ghost predicate SortedByVer(bps: seq<Breakpoint>) {
    forall i, j :: 0 <= i < j < |bps| ==> bps[i].ver <= bps[j].ver
  }

  function RunAt(bps: seq<Breakpoint>, pv: uint32, id: uint16): Option<int16> {
    var t := Run(bps, pv);
    if id in t then Some(t[id]) else None
  }

  lemma {:induction false} CellsBelowLast(bps: seq<Breakpoint>, ver: int, id: uint16)
    requires SortedByVer(bps) && bps != [] && bps[|bps| - 1].ver < ver
    ensures At(CellsOf(bps), ver, id) == None
  {
    assert forall bp :: bp in bps ==> bp.ver <= bps[|bps| - 1].ver;
    AtMentions(bps, ver, id);
  }

  /**
   For a list in version order, executing the emitted function reads, for every `pv` and
   id, the cell of the greatest version not above `pv`.
   */
  lemma {:induction false} RunIsPartial(bps: seq<Breakpoint>, pv: uint32, id: uint16)
    requires SortedByVer(bps)
    ensures RunAt(bps, pv, id) == Partial(CellsOf(bps), pv, id)
  {
    if bps == [] {
      NoWrite(map[], pv, id);
    } else {
      var n := |bps| - 1;
      var bp := bps[n];
      var before, after := CellsOf(bps[..n]), CellsOf(bps);
      RunIsPartial(bps[..n], pv, id);
      if bp.ver <= pv && id in TableOf(bp.entries) {
        forall u | bp.ver < u <= pv ensures At(after, u, id) == None {
          CellsBelowLast(bps, u, id);
        }
        LastWriteIs(after, pv, id, bp.ver);
      } else {
        ReadsBelow(before, after, pv, id);
      }
    }
  }

  // ---------- building a table and flattening it again ----------

  /** One block per version, one entry per id. */
  ghost predicate WellFormed(bps: seq<Breakpoint>) {
    && (forall i, j :: 0 <= i < j < |bps| ==> bps[i].ver != bps[j].ver)
    && (forall i :: 0 <= i < |bps| ==> DistinctIds(bps[i].entries))
  }

  ghost predicate DistinctIds(es: seq<LengthEntry>) {
    forall i, j :: 0 <= i < j < |es| ==> es[i].id != es[j].id
  }

  lemma WellFormedIsConsistent(bps: seq<Breakpoint>)
    requires WellFormed(bps)
    ensures Consistent(bps)
  {
    forall ver, e, e' | Mentions(bps, ver, e) && Mentions(bps, ver, e') && e.id == e'.id ensures e == e' {
      var bp :| bp in bps && bp.ver == ver && e in bp.entries;
      var bp' :| bp' in bps && bp'.ver == ver && e' in bp'.entries;
      assert bp == bp';
      assert DistinctIds(bp.entries);
    }
  }

  /** The inner loop: store one block's entries under its version. */
  method StoreBlock(m0: Cells, bp: Breakpoint) returns (m: Cells)
    ensures m == m0[bp.ver := BlockAt(m0, bp.ver) + TableOf(bp.entries)]
  {
    var tbl := BlockAt(m0, bp.ver);
    for j := 0 to |bp.entries|
      invariant tbl == BlockAt(m0, bp.ver) + TableOf(bp.entries[..j])
    {
      assert bp.entries[..j + 1][..j] == bp.entries[..j];
      tbl := tbl[bp.entries[j].id := bp.entries[j].length];
    }
    assert bp.entries[..|bp.entries|] == bp.entries;
    m := m0[bp.ver := tbl];
  }

  /** The loop that stores every entry of `bps` into a two-level map. */
  method Store(m0: Cells, bps: seq<Breakpoint>) returns (m: Cells)
    ensures m == Overlay(m0, bps)
  {
    m := m0;
    for i := 0 to |bps|
      invariant m == Overlay(m0, bps[..i])
    {
      assert bps[..i + 1][..i] == bps[..i];
      m := StoreBlock(m, bps[i]);
    }
    assert bps[..|bps|] == bps;
  }

  lemma TableOfAppend(es: seq<LengthEntry>, e: LengthEntry)
    ensures TableOf(es + [e]) == TableOf(es)[e.id := e.length]
  {
    assert (es + [e])[..|es|] == es;
  }

  /** Go's `m[ver][id] = length`, creating the inner map if needed. */
  function Put(m: Cells, ver: uint32, id: uint16, length: int16): Cells {
    m[ver := BlockAt(m, ver)[id := length]]
  }

  lemma PutAt(m: Cells, ver: uint32, id: uint16, length: int16, v: int, i: uint16)
    ensures At(Put(m, ver, id, length), v, i) == if v == ver && i == id then Some(length) else At(m, v, i)
  {
  }

  lemma AppendAt(bps: seq<Breakpoint>, bp: Breakpoint, v: int, i: uint16)
    ensures At(CellsOf(bps + [bp]), v, i) ==
            if v == bp.ver && i in TableOf(bp.entries) then Some(TableOf(bp.entries)[i]) else At(CellsOf(bps), v, i)
  {
    OverlayAppend(map[], bps, bp);
  }

  lemma AppendEntryAt(bps: seq<Breakpoint>, ver: uint32, es: seq<LengthEntry>, e: LengthEntry, v: int, i: uint16)
    ensures At(CellsOf(bps + [Breakpoint(ver, es + [e])]), v, i) ==
            if v == ver && i == e.id then Some(e.length) else At(CellsOf(bps + [Breakpoint(ver, es)]), v, i)
  {
    AppendAt(bps, Breakpoint(ver, es), v, i);
    AppendAt(bps, Breakpoint(ver, es + [e]), v, i);
    TableOfAppend(es, e);
  }

  lemma AppendEmptyAt(bps: seq<Breakpoint>, ver: uint32, v: int, i: uint16)
    ensures At(CellsOf(bps + [Breakpoint(ver, [])]), v, i) == At(CellsOf(bps), v, i)
  {
    AppendAt(bps, Breakpoint(ver, []), v, i);
  }

  lemma OverlayAppend(m: Cells, bps: seq<Breakpoint>, bp: Breakpoint)
    ensures Overlay(m, bps + [bp]) ==
            Overlay(m, bps)[bp.ver := BlockAt(Overlay(m, bps), bp.ver) + TableOf(bp.entries)]
  {
    assert (bps + [bp])[..|bps|] == bps;
  }

  ghost function Restrict<K, V>(m: map<K, V>, keys: set<K>): map<K, V> {
    map k | k in m && k in keys :: m[k]
  }

  lemma RestrictStep<K, V>(m: map<K, V>, done: set<K>, k: K)
    requires k in m && k !in done
    ensures Restrict(m, done + {k}) == Restrict(m, done)[k := m[k]]
  {
  }

  lemma RestrictAll<K, V>(m: map<K, V>, keys: set<K>)
    requires m.Keys <= keys
    ensures Restrict(m, keys) == m
  {
  }

  lemma {:induction false} IdsOfTable(es: seq<LengthEntry>, e: LengthEntry)
    requires e in es
    ensures e.id in TableOf(es)
  {
    TableMember(es, e.id);
  }

  /** Listing one more id of `t` keeps the list an exact account of the ids done so far. */
  lemma Extend(es: seq<LengthEntry>, t: LenTable, done: set<uint16>, id: uint16)
    requires TableOf(es) == Restrict(t, done) && DistinctIds(es) && id !in done
    ensures id in t ==> TableOf(es + [LengthEntry(id, t[id])]) == Restrict(t, done + {id})
    ensures id in t ==> DistinctIds(es + [LengthEntry(id, t[id])])
    ensures id !in t ==> Restrict(t, done + {id}) == Restrict(t, done)
  {
    if id in t {
      TableOfAppend(es, LengthEntry(id, t[id]));
      RestrictStep(t, done, id);
      forall e | e in es ensures e.id != id { IdsOfTable(es, e); }
    }
  }

  /** `for id, length := range tbl`: the entries in whatever order the map yields them. */
  method ListTable(t: LenTable) returns (es: seq<LengthEntry>)
    ensures TableOf(es) == t && DistinctIds(es)
  {
    es := [];
    var rest := t.Keys;
    while rest != {}
      invariant rest <= t.Keys && DistinctIds(es)
      invariant TableOf(es) == Restrict(t, t.Keys - rest)
      decreases rest
    {
      var id :| id in rest;
      Extend(es, t, t.Keys - rest, id);
      assert t.Keys - rest + {id} == t.Keys - (rest - {id});
      es := es + [LengthEntry(id, t[id])];
      rest := rest - {id};
    }
    RestrictAll(t, t.Keys - rest);
  }

  lemma ExtendBlocks(bps: seq<Breakpoint>, m: Cells, done: set<uint32>, ver: uint32, es: seq<LengthEntry>)
    requires CellsOf(bps) == Restrict(m, done) && WellFormed(bps)
    requires ver in m && ver !in done && TableOf(es) == m[ver] && DistinctIds(es)
    requires VersionsIn(bps, done)
    ensures CellsOf(bps + [Breakpoint(ver, es)]) == Restrict(m, done + {ver})
    ensures WellFormed(bps + [Breakpoint(ver, es)]) && VersionsIn(bps + [Breakpoint(ver, es)], done + {ver})
  {
    OverlayAppend(map[], bps, Breakpoint(ver, es));
    RestrictStep(m, done, ver);
    EmptyPlus(TableOf(es));
  }

  lemma EmptyPlus<K, V>(m: map<K, V>)
    ensures map[] + m == m
  {
  }

  ghost predicate VersionsIn(bps: seq<Breakpoint>, vers: set<uint32>) {
    forall i :: 0 <= i < |bps| ==> bps[i].ver in vers
  }

  /** Flattening the two-level map back to a list, again in map order. */
  method Flatten(m: Cells) returns (bps: seq<Breakpoint>)
    ensures CellsOf(bps) == m && WellFormed(bps)
  {
    bps := [];
    var rest := m.Keys;
    while rest != {}
      invariant rest <= m.Keys && WellFormed(bps)
      invariant VersionsIn(bps, m.Keys - rest)
      invariant CellsOf(bps) == Restrict(m, m.Keys - rest)
      decreases rest
    {
      var ver :| ver in rest;
      var es := ListTable(m[ver]);
      ExtendBlocks(bps, m, m.Keys - rest, ver, es);
      assert m.Keys - rest + {ver} == m.Keys - (rest - {ver});
      bps := bps + [Breakpoint(ver, es)];
      rest := rest - {ver};
    }
    RestrictAll(m, m.Keys - rest);
  }
}
