/** Version ranges of a struct's layout, built from one snapshot of the headers per version. */
module VersionRanges {
  import opened Words

  datatype Field = Field(name: string, isFlexArray: bool)
  datatype Layout = Layout(fields: seq<Field>, totalSize: int, available: bool)

  /** A Go map from struct name to a layout pointer, which may be nil. */
  type StructDB = map<string, Option<Layout>>
  datatype Snapshot = Snapshot(ver: uint32, db: StructDB)

  /** The range is [minVer, maxVer); maxVer 0 means unbounded. */
  datatype VersionedLayout = VersionedLayout(minVer: uint32, maxVer: uint32, layout: Option<Layout>)
  type VersionTable = map<string, seq<VersionedLayout>>

  /** The layout of the struct in a snapshot where it is available. */
  function Seen(s: Snapshot, name: string): Option<Layout> {
    if name in s.db && s.db[name].Some? && s.db[name].value.available then s.db[name] else None
  }

  /** One struct as the snapshots show it: where it is missing or unavailable there is no layout. */
  datatype Sighting = Sighting(ver: uint32, layout: Option<Layout>)

  function Column(snaps: seq<Snapshot>, name: string): seq<Sighting> {
    seq(|snaps|, i requires 0 <= i < |snaps| => Sighting(snaps[i].ver, Seen(snaps[i], name)))
  }

  /** The two layouts the builder does not tell apart. */
  predicate SameShape(a: Layout, b: Layout) {
    a.totalSize == b.totalSize && |a.fields| == |b.fields|
  }

  predicate Covers(r: VersionedLayout, pv: uint32) {
    r.minVer <= pv && (r.maxVer == 0 || pv < r.maxVer)
  }

  ghost predicate Dated(col: seq<Sighting>) {
    && (forall i :: 0 <= i < |col| ==> 0 < col[i].ver)
    && (forall i, j :: 0 <= i < j < |col| ==> col[i].ver < col[j].ver)
  }

  /** A range is nonempty and ends where the next one, of another size or number of fields, starts. */
  ghost predicate Linked(ranges: seq<VersionedLayout>, k: int)
    requires 0 <= k < |ranges| - 1
  {
    var r, next := ranges[k], ranges[k + 1];
    && r.minVer < r.maxVer == next.minVer
    && r.layout.Some? && next.layout.Some?
    && (r.layout.value.totalSize != next.layout.value.totalSize
        || |r.layout.value.fields| != |next.layout.value.fields|)
  }

  ghost predicate Chained(ranges: seq<VersionedLayout>) {
    && (forall k :: 0 <= k < |ranges| ==> ranges[k].minVer > 0 && ranges[k].layout.Some?)
    && (forall k {:trigger Linked(ranges, k)} :: 0 <= k < |ranges| - 1 ==> Linked(ranges, k))
  }

  /** Only the last range is unbounded. */
  ghost predicate Abutting(ranges: seq<VersionedLayout>) {
    Chained(ranges) && (ranges != [] ==> ranges[|ranges| - 1].maxVer == 0)
  }

  /** Each range starts at an available snapshot, with that snapshot's layout. */
  ghost predicate StartsIn(r: VersionedLayout, col: seq<Sighting>) {
    Sighting(r.minVer, r.layout) in col
  }

  ghost predicate Anchored(ranges: seq<VersionedLayout>, col: seq<Sighting>) {
    forall k {:trigger StartsIn(ranges[k], col)} :: 0 <= k < |ranges| ==> StartsIn(ranges[k], col)
  }

  /** The range holds the sighting: its version, its size and its number of fields. */
  ghost predicate Holds(r: VersionedLayout, s: Sighting) {
    && r.minVer <= s.ver && (r.maxVer == 0 || s.ver < r.maxVer)
    && r.layout.Some? && s.layout.Some?
    && r.layout.value.totalSize == s.layout.value.totalSize
    && |r.layout.value.fields| == |s.layout.value.fields|
  }

  ghost predicate InOwnRange(ranges: seq<VersionedLayout>, s: Sighting) {
    exists k :: 0 <= k < |ranges| && Holds(ranges[k], s)
  }

  ghost predicate AllInOwnRange(ranges: seq<VersionedLayout>, col: seq<Sighting>, n: int)
    requires n <= |col|
  {
    forall i {:trigger InOwnRange(ranges, col[i])} ::
      0 <= i < n && col[i].layout.Some? ==> InOwnRange(ranges, col[i])
  }

  /** A run-length encoding of the layouts of the snapshots where the struct is available. */
  ghost predicate RunLength(ranges: seq<VersionedLayout>, col: seq<Sighting>) {
    Abutting(ranges) && Anchored(ranges, col) && AllInOwnRange(ranges, col, |col|)
  }

  lemma {:induction false} RangesAscend(ranges: seq<VersionedLayout>, j: nat, k: nat)
    requires Abutting(ranges) && j < k < |ranges|
    ensures ranges[j].maxVer != 0 && ranges[j].maxVer <= ranges[k].minVer
    decreases k
  {
    assert Linked(ranges, k - 1);
    if j + 1 < k {
      RangesAscend(ranges, j, k - 1);
    }
  }

  /** No version lies in two ranges, so "its own range" is unique. */
  lemma AtMostOneRange(ranges: seq<VersionedLayout>, pv: uint32, j: nat, k: nat)
    requires Abutting(ranges) && j < |ranges| && k < |ranges|
    requires Covers(ranges[j], pv) && Covers(ranges[k], pv)
    ensures j == k
  {
    if j < k { RangesAscend(ranges, j, k); } else if k < j { RangesAscend(ranges, k, j); }
  }

  /** The version of the first sighting from `j` on whose layout differs in shape; 0 if none. */
  function NextChange(col: seq<Sighting>, layout: Layout, j: nat): uint32
    requires j <= |col|
    decreases |col| - j
  {
    if j == |col| then 0
    else if col[j].layout.Some? && !SameShape(col[j].layout.value, layout) then col[j].ver
    else NextChange(col, layout, j + 1)
  }

  lemma {:induction false} NextChangeBounds(col: seq<Sighting>, layout: Layout, j: nat)
    requires Dated(col) && j <= |col|
    ensures var v := NextChange(col, layout, j); v == 0 || (j < |col| && col[j].ver <= v)
    decreases |col| - j
  {
    if j < |col| {
      NextChangeBounds(col, layout, j + 1);
    }
  }

  ghost predicate Gap(col: seq<Sighting>, i: int, j: int)
    requires j <= |col|
  {
    forall k :: 0 <= i <= k < j ==> col[k].layout == None
  }

  lemma {:induction false} NextChangeSkips(col: seq<Sighting>, layout: Layout, i: nat, j: nat)
    requires i <= j <= |col| && Gap(col, i, j)
    ensures NextChange(col, layout, i) == NextChange(col, layout, j)
    decreases j - i
  {
    if i < j { NextChangeSkips(col, layout, i + 1, j); }
  }

  lemma {:induction false} NextChangeShape(col: seq<Sighting>, a: Layout, b: Layout, j: nat)
    requires j <= |col| && SameShape(a, b)
    ensures NextChange(col, a, j) == NextChange(col, b, j)
    decreases |col| - j
  {
    if j < |col| { NextChangeShape(col, a, b, j + 1); }
  }

  /**
   The bound of the running range, seen from its last snapshot `p`, once the next available
   snapshot `i` is reached: it is `i` itself if the shape changes there, and otherwise the
   bound seen from `i`. So the write that "extends" the running range never changes it.
   */
  lemma BoundFromNext(col: seq<Sighting>, layout: Layout, p: nat, i: nat)
    requires p < i < |col| && col[i].layout.Some? && Gap(col, p + 1, i)
    ensures NextChange(col, layout, p + 1) ==
            if SameShape(layout, col[i].layout.value)
            then NextChange(col, col[i].layout.value, i + 1) else col[i].ver
  {
    NextChangeSkips(col, layout, p + 1, i);
    if SameShape(layout, col[i].layout.value) {
      NextChangeShape(col, layout, col[i].layout.value, i + 1);
    }
  }

  /** The look-ahead loop. */
  method FindMaxVer(col: seq<Sighting>, layout: Layout, i: nat) returns (maxVer: uint32)
    requires i < |col|
    ensures maxVer == NextChange(col, layout, i + 1)
  {
    maxVer := 0;
    var j := i + 1;
    while j < |col|
      invariant i < j <= |col|
      invariant NextChange(col, layout, i + 1) == NextChange(col, layout, j)
    {
      var next := col[j].layout;
      if next.Some? {
        if next.value.totalSize != layout.totalSize || |next.value.fields| != |layout.fields| {
          return col[j].ver;
        }
      }
      j := j + 1;
    }
  }

  /** The range `last` is still running when col[..i] is done; `p` is the last sighting in it. */
  ghost predicate Running(last: VersionedLayout, col: seq<Sighting>, i: int, p: int)
    requires i <= |col|
  {
    && 0 <= p < i && col[p].layout.Some? && Gap(col, p + 1, i)
    && last.layout.Some? && SameShape(last.layout.value, col[p].layout.value)
    && 0 < last.minVer <= col[p].ver
    && last.maxVer == NextChange(col, last.layout.value, p + 1)
  }

  ghost predicate LastRuns(ranges: seq<VersionedLayout>, col: seq<Sighting>, i: int, p: int)
    requires i <= |col|
  {
    if ranges == [] then Gap(col, 0, i) else Running(ranges[|ranges| - 1], col, i, p)
  }

  lemma StaysInRange(last: VersionedLayout, col: seq<Sighting>, i: int, p: int)
    requires Dated(col) && i < |col| && Running(last, col, i, p)
    requires col[i].layout.Some? && SameShape(last.layout.value, col[i].layout.value)
    ensures last.maxVer == NextChange(col, col[i].layout.value, i + 1)
    ensures Running(last, col, i + 1, i) && Covers(last, col[i].ver)
  {
    BoundFromNext(col, last.layout.value, p, i);
    NextChangeBounds(col, col[i].layout.value, i + 1);
    NextChangeShape(col, last.layout.value, col[i].layout.value, i + 1);
  }

  /** The range a shape change at snapshot `i` opens. */
  function Opened(col: seq<Sighting>, i: nat): VersionedLayout
    requires i < |col| && col[i].layout.Some?
  {
    VersionedLayout(col[i].ver, NextChange(col, col[i].layout.value, i + 1), col[i].layout)
  }

  lemma OpensRange(col: seq<Sighting>, i: nat)
    requires Dated(col) && i < |col| && col[i].layout.Some?
    ensures Running(Opened(col, i), col, i + 1, i) && Covers(Opened(col, i), col[i].ver)
  {
    NextChangeBounds(col, col[i].layout.value, i + 1);
  }

  lemma ClosesRange(last: VersionedLayout, col: seq<Sighting>, i: int, p: int)
    requires Dated(col) && i < |col| && Running(last, col, i, p)
    requires col[i].layout.Some? && !SameShape(last.layout.value, col[i].layout.value)
    ensures last.minVer < last.maxVer == col[i].ver
  {
    BoundFromNext(col, last.layout.value, p, i);
    assert col[p].ver < col[i].ver;
  }

  lemma StillOwned(ranges: seq<VersionedLayout>, more: seq<VersionedLayout>, col: seq<Sighting>, n: int)
    requires n <= |col| && AllInOwnRange(ranges, col, n) && ranges <= more
    ensures AllInOwnRange(more, col, n)
  {
    forall i | 0 <= i < n && col[i].layout.Some? ensures InOwnRange(more, col[i]) {
      assert InOwnRange(ranges, col[i]);
      var k :| 0 <= k < |ranges| && Holds(ranges[k], col[i]);
      assert Holds(more[k], col[i]);
    }
  }

  lemma NowOwned(ranges: seq<VersionedLayout>, col: seq<Sighting>, n: int)
    requires 0 <= n < |col| && AllInOwnRange(ranges, col, n) && ranges != []
    requires var last := ranges[|ranges| - 1];
             col[n].layout.Some? ==>
               Covers(last, col[n].ver) && last.layout.Some? && SameShape(last.layout.value, col[n].layout.value)
    ensures AllInOwnRange(ranges, col, n + 1)
  {
    assert col[n].layout.Some? ==> Holds(ranges[|ranges| - 1], col[n]);
  }

  lemma ExtendChain(ranges: seq<VersionedLayout>, col: seq<Sighting>, i: nat, p: int)
    requires Dated(col) && i < |col| && col[i].layout.Some?
    requires Chained(ranges) && LastRuns(ranges, col, i, p)
    requires ranges != [] ==> !SameShape(ranges[|ranges| - 1].layout.value, col[i].layout.value)
    ensures Chained(ranges + [Opened(col, i)])
  {
    var more := ranges + [Opened(col, i)];
    if ranges != [] {
      ClosesRange(ranges[|ranges| - 1], col, i, p);
    }
    forall k | 0 <= k < |more| - 1 ensures Linked(more, k) {
      if k < |ranges| - 1 { assert Linked(ranges, k); }
    }
  }

  /** The ranges found in col[..i]. */
  ghost predicate Built(ranges: seq<VersionedLayout>, col: seq<Sighting>, i: int, p: int)
    requires i <= |col|
  {
    Chained(ranges) && Anchored(ranges, col) && AllInOwnRange(ranges, col, i) && LastRuns(ranges, col, i, p)
  }

  lemma StepMissing(ranges: seq<VersionedLayout>, col: seq<Sighting>, i: nat, p: int)
    requires i < |col| && Built(ranges, col, i, p) && col[i].layout == None
    ensures Built(ranges, col, i + 1, p)
  {
  }

  lemma StepSame(ranges: seq<VersionedLayout>, col: seq<Sighting>, i: nat, p: int)
    requires Dated(col) && i < |col| && Built(ranges, col, i, p) && ranges != [] && col[i].layout.Some?
    requires SameShape(ranges[|ranges| - 1].layout.value, col[i].layout.value)
    ensures ranges[|ranges| - 1].maxVer == NextChange(col, col[i].layout.value, i + 1)
    ensures Built(ranges, col, i + 1, i)
  {
    StaysInRange(ranges[|ranges| - 1], col, i, p);
    NowOwned(ranges, col, i);
  }

  lemma StepOpen(ranges: seq<VersionedLayout>, col: seq<Sighting>, i: nat, p: int)
    requires Dated(col) && i < |col| && Built(ranges, col, i, p) && col[i].layout.Some?
    requires ranges != [] ==> !SameShape(ranges[|ranges| - 1].layout.value, col[i].layout.value)
    ensures Built(ranges + [Opened(col, i)], col, i + 1, i)
  {
    var more := ranges + [Opened(col, i)];
    OpensRange(col, i);
    ExtendChain(ranges, col, i, p);
    StillOwned(ranges, more, col, i);
    NowOwned(more, col, i);
    assert Sighting(col[i].ver, col[i].layout) == col[i];
  }

  lemma Finished(ranges: seq<VersionedLayout>, col: seq<Sighting>, p: int)
    requires Built(ranges, col, |col|, p)
    ensures RunLength(ranges, col)
    ensures ranges == [] <==> Gap(col, 0, |col|)
  {
    if ranges != [] {
      NextChangeSkips(col, ranges[|ranges| - 1].layout.value, p + 1, |col|);
    }
  }

  /** The ranges of one struct. */
  method BuildRanges(col: seq<Sighting>) returns (ranges: seq<VersionedLayout>)
    requires Dated(col)
    ensures RunLength(ranges, col)
    ensures ranges == [] <==> forall i :: 0 <= i < |col| ==> col[i].layout == None
  {
    ranges := [];
    ghost var p := -1;
    for i := 0 to |col|
      invariant Built(ranges, col, i, p)
    {
      var layout := col[i].layout;
      if layout == None {
        StepMissing(ranges, col, i, p);
        continue;
      }
      var maxVer := FindMaxVer(col, layout.value, i);
      if |ranges| > 0 {
        var prev := ranges[|ranges| - 1];
        if prev.layout.Some? && prev.layout.value.totalSize == layout.value.totalSize
           && |prev.layout.value.fields| == |layout.value.fields|
        {
          StepSame(ranges, col, i, p);
          assert ranges[|ranges| - 1 := prev.(maxVer := maxVer)] == ranges;
          ranges := ranges[|ranges| - 1 := prev.(maxVer := maxVer)];
          p := i;
          continue;
        }
      }
      StepOpen(ranges, col, i, p);
      ranges := ranges + [VersionedLayout(col[i].ver, maxVer, layout)];
      p := i;
    }
    Finished(ranges, col, p);
  }

  // ---------- the ranges, against the snapshots themselves ----------

  ghost predicate Available(s: Snapshot, name: string, layout: Layout) {
    name in s.db && s.db[name] == Some(layout) && layout.available
  }

  ghost predicate OpensAt(snaps: seq<Snapshot>, name: string, r: VersionedLayout, q: int) {
    0 <= q < |snaps| && snaps[q].ver == r.minVer && r.layout.Some? && Available(snaps[q], name, r.layout.value)
  }

  /** Every range opens at a snapshot that has the struct available, with the layout it has there. */
  lemma RangeOpens(ranges: seq<VersionedLayout>, snaps: seq<Snapshot>, name: string, k: nat)
    requires RunLength(ranges, Column(snaps, name)) && k < |ranges|
    ensures exists q :: OpensAt(snaps, name, ranges[k], q)
  {
    var r, col := ranges[k], Column(snaps, name);
    assert StartsIn(r, col);
    var q :| 0 <= q < |col| && col[q] == Sighting(r.minVer, r.layout);
    assert OpensAt(snaps, name, r, q);
  }

  /** And every snapshot that has it lies in a range with its size and number of fields. */
  lemma SnapshotHeld(ranges: seq<VersionedLayout>, snaps: seq<Snapshot>, name: string, q: nat, layout: Layout)
    requires RunLength(ranges, Column(snaps, name)) && q < |snaps| && Available(snaps[q], name, layout)
    ensures exists k :: 0 <= k < |ranges| && Holds(ranges[k], Sighting(snaps[q].ver, Some(layout)))
  {
    assert Column(snaps, name)[q] == Sighting(snaps[q].ver, Some(layout));
    assert InOwnRange(ranges, Column(snaps, name)[q]);
  }

  // ---------- injecting every struct of a header ----------

  predicate HasPrefix(name: string, prefixes: seq<string>) {
    exists k :: 0 <= k < |prefixes| && prefixes[k] <= name
  }

  ghost predicate Wanted(snaps: seq<Snapshot>, prefixes: seq<string>, name: string) {
    && (exists k :: 0 <= k < |prefixes| && |prefixes[k]| <= |name| && name[..|prefixes[k]|] == prefixes[k])
    && exists i :: 0 <= i < |snaps| && name in snaps[i].db
  }

  ghost predicate EverSeen(snaps: seq<Snapshot>, name: string) {
    exists i :: 0 <= i < |snaps| && Seen(snaps[i], name).Some?
  }

  predicate Existing(vt: VersionTable, name: string) {
    name in vt && |vt[name]| > 0
  }

  /** The names with a wanted prefix, over all snapshots. */
  method WantedNames(snaps: seq<Snapshot>, prefixes: seq<string>) returns (names: set<string>)
    ensures forall n :: n in names <==> Wanted(snaps, prefixes, n)
  {
    names := {};
    for i := 0 to |snaps|
      invariant forall n :: n in names <==> Wanted(snaps[..i], prefixes, n)
    {
      names := names + set n | n in snaps[i].db && HasPrefix(n, prefixes);
      assert snaps[..i + 1] == snaps[..i] + [snaps[i]];
      forall n ensures Wanted(snaps[..i + 1], prefixes, n) <==>
                       Wanted(snaps[..i], prefixes, n) || (n in snaps[i].db && HasPrefix(n, prefixes)) {
        if Wanted(snaps[..i], prefixes, n) {
          var k :| 0 <= k < i && n in snaps[..i][k].db;
          assert snaps[..i + 1][k] == snaps[..i][k];
        }
        assert snaps[..i + 1][i] == snaps[i];
      }
    }
    assert snaps[..|snaps|] == snaps;
  }

  /** The structs that get new ranges. */
  ghost predicate Rebuilt(snaps: seq<Snapshot>, vt0: VersionTable, prefixes: seq<string>, keepExisting: bool,
                          n: string) {
    Wanted(snaps, prefixes, n) && EverSeen(snaps, n) && !(keepExisting && Existing(vt0, n))
  }

  /** The same, when only the names in `done` have been visited. */
  ghost predicate Replaced(snaps: seq<Snapshot>, vt0: VersionTable, keepExisting: bool, done: set<string>, n: string) {
    n in done && EverSeen(snaps, n) && !(keepExisting && Existing(vt0, n))
  }

  /** The entry of a replaced struct is its run-length encoding; any other entry is as before. */
  ghost predicate Injected(vt: VersionTable, vt0: VersionTable, snaps: seq<Snapshot>, n: string, replaced: bool) {
    if replaced then n in vt && RunLength(vt[n], Column(snaps, n))
    else (n in vt <==> n in vt0) && (n in vt0 ==> n in vt && vt[n] == vt0[n])
  }

  lemma SeenInColumn(snaps: seq<Snapshot>, n: string)
    ensures EverSeen(snaps, n) <==> !Gap(Column(snaps, n), 0, |snaps|)
  {
    if EverSeen(snaps, n) {
      var i :| 0 <= i < |snaps| && Seen(snaps[i], n).Some?;
      assert Column(snaps, n)[i].layout.Some?;
    }
  }

  /**
   Inject the ranges of every wanted struct. With `keepExisting`, a struct that already has
   ranges keeps them (`packets_struct.hpp` is the finer source); otherwise it is overwritten.
   Every other entry of the table is left alone.
   */
  method InjectStructs(snaps: seq<Snapshot>, vt0: VersionTable, prefixes: seq<string>, keepExisting: bool)
    returns (vt: VersionTable)
    requires Dated(Column(snaps, ""))
    ensures forall n :: Injected(vt, vt0, snaps, n, Rebuilt(snaps, vt0, prefixes, keepExisting, n))
  {
    var wanted := WantedNames(snaps, prefixes);
    vt := vt0;
    var rest := wanted;
    while rest != {}
      invariant rest <= wanted
      invariant forall n :: Injected(vt, vt0, snaps, n, Replaced(snaps, vt0, keepExisting, wanted - rest, n))
      decreases rest
    {
      var name :| name in rest;
      ghost var before := vt;
      assert Injected(vt, vt0, snaps, name, Replaced(snaps, vt0, keepExisting, wanted - rest, name));
      if !(keepExisting && Existing(vt, name)) {
        DatedColumn(snaps, name);
        var ranges := BuildRanges(Column(snaps, name));
        SeenInColumn(snaps, name);
        if |ranges| > 0 { vt := vt[name := ranges]; }
      }
      forall n ensures Injected(vt, vt0, snaps, n, Replaced(snaps, vt0, keepExisting, wanted - (rest - {name}), n)) {
        assert Injected(before, vt0, snaps, n, Replaced(snaps, vt0, keepExisting, wanted - rest, n));
      }
      rest := rest - {name};
    }
    assert wanted - rest == wanted;
    forall n ensures Injected(vt, vt0, snaps, n, Rebuilt(snaps, vt0, prefixes, keepExisting, n)) {
      assert Injected(vt, vt0, snaps, n, Replaced(snaps, vt0, keepExisting, wanted, n));
    }
  }

  lemma DatedColumn(snaps: seq<Snapshot>, name: string)
    requires Dated(Column(snaps, ""))
    ensures Dated(Column(snaps, name))
  {
    assert forall i :: 0 <= i < |snaps| ==> Column(snaps, name)[i].ver == Column(snaps, "")[i].ver;
  }
}
