/** Sorting blocks by version with a sort that is not stable, and when that does no harm. */
module LengthArrange {
  import opened Words
  import opened LengthTables
  import Sorting

  /** This block, executed alone, sets the id to this length. */
  predicate Alone(bp: Breakpoint, ver: int, id: uint16, l: int16) {
    bp.ver == ver && id in TableOf(bp.entries) && TableOf(bp.entries)[id] == l
  }

  /** Some block of version `ver` does. */
  ghost predicate Gives(bps: seq<Breakpoint>, ver: int, id: uint16, l: int16) {
    exists bp :: bp in bps && Alone(bp, ver, id, l)
  }

  /** No two blocks of one version set an id differently. */
  ghost predicate BlocksAgree(bps: seq<Breakpoint>) {
    forall ver, id, l, l' :: Gives(bps, ver, id, l) && Gives(bps, ver, id, l') ==> l == l'
  }

  /** One block per version is enough, even with an id listed twice in a block. */
  lemma DistinctVersionsAgree(bps: seq<Breakpoint>)
    requires forall i, j :: 0 <= i < j < |bps| ==> bps[i].ver != bps[j].ver
    ensures BlocksAgree(bps)
  {
    forall ver, id, l, l' | Gives(bps, ver, id, l) && Gives(bps, ver, id, l') ensures l == l' {
      var bp :| bp in bps && Alone(bp, ver, id, l);
      var bp' :| bp' in bps && Alone(bp', ver, id, l');
      assert bp == bp';
    }
  }

  lemma {:induction false} AtGives(bps: seq<Breakpoint>, ver: int, id: uint16)
    ensures At(CellsOf(bps), ver, id).Some? ==> Gives(bps, ver, id, At(CellsOf(bps), ver, id).value)
    ensures At(CellsOf(bps), ver, id) == None ==> forall l :: !Gives(bps, ver, id, l)
  {
    if bps != [] {
      var n := |bps| - 1;
      AtGives(bps[..n], ver, id);
      forall l ensures Gives(bps, ver, id, l) <==> Gives(bps[..n], ver, id, l) || Alone(bps[n], ver, id, l) {
        GivesStep(bps, ver, id, l);
      }
    }
  }

  lemma GivesStep(bps: seq<Breakpoint>, ver: int, id: uint16, l: int16)
    requires bps != []
    ensures Gives(bps, ver, id, l) <==> Gives(bps[..|bps| - 1], ver, id, l) || Alone(bps[|bps| - 1], ver, id, l)
  {
    var front, last := bps[..|bps| - 1], bps[|bps| - 1];
    assert bps == front + [last];
    if Gives(bps, ver, id, l) {
      var bp :| bp in bps && Alone(bp, ver, id, l);
      assert bp in front || bp == last;
    }
    if Gives(front, ver, id, l) {
      var bp :| bp in front && Alone(bp, ver, id, l);
      assert bp in bps;
    }
    if Alone(last, ver, id, l) { assert last in bps; }
  }

  lemma PermutedGives(bps: seq<Breakpoint>, sorted: seq<Breakpoint>, ver: int, id: uint16, l: int16)
    requires multiset(sorted) == multiset(bps)
    ensures Gives(bps, ver, id, l) <==> Gives(sorted, ver, id, l)
  {
    forall bp ensures bp in bps <==> bp in sorted { Sorting.PermutationMember(bps, sorted, bp); }
  }

  /** Agreeing blocks denote the same cells in any arrangement. */
  lemma PermutedCells(bps: seq<Breakpoint>, sorted: seq<Breakpoint>, ver: int, id: uint16)
    requires BlocksAgree(bps) && multiset(sorted) == multiset(bps)
    ensures At(CellsOf(bps), ver, id) == At(CellsOf(sorted), ver, id)
  {
    AtGives(bps, ver, id);
    AtGives(sorted, ver, id);
    forall l ensures Gives(bps, ver, id, l) <==> Gives(sorted, ver, id, l) { PermutedGives(bps, sorted, ver, id, l); }
  }

  ghost predicate Arranges(sorted: seq<Breakpoint>, bps: seq<Breakpoint>) {
    multiset(sorted) == multiset(bps) && SortedByVer(sorted)
  }

  /** Executing this arrangement leaves what the list, as it stands, denotes. */
  ghost predicate RunsAs(sorted: seq<Breakpoint>, bps: seq<Breakpoint>) {
    forall pv: uint32, id: uint16 :: RunAt(sorted, pv, id) == Partial(CellsOf(bps), pv, id)
  }

  lemma AgreeingArrangement(bps: seq<Breakpoint>, sorted: seq<Breakpoint>)
    requires BlocksAgree(bps) && Arranges(sorted, bps)
    ensures RunsAs(sorted, bps)
  {
    forall pv: uint32, id: uint16 ensures RunAt(sorted, pv, id) == Partial(CellsOf(bps), pv, id) {
      RunIsPartial(sorted, pv, id);
      forall u: int ensures At(CellsOf(bps), u, id) == At(CellsOf(sorted), u, id) { PermutedCells(bps, sorted, u, id); }
      ReadsBelow(CellsOf(bps), CellsOf(sorted), pv, id);
    }
  }

  // ---------- building an arrangement ----------

  lemma {:induction false} RunPrefix(bps: seq<Breakpoint>, n: nat, pv: uint32)
    requires SortedByVer(bps) && n <= |bps|
    requires forall i :: n <= i < |bps| ==> pv < bps[i].ver
    ensures Run(bps, pv) == Run(bps[..n], pv)
    decreases |bps|
  {
    if n < |bps| {
      var front := bps[..|bps| - 1];
      RunPrefix(front, n, pv);
      assert front[..n] == bps[..n];
    } else {
      assert bps[..n] == bps;
    }
  }

  /** The place after every block of a version up to `v`. */
  lemma {:induction false} PlaceAfter(bps: seq<Breakpoint>, v: uint32) returns (m: nat)
    requires SortedByVer(bps)
    ensures m <= |bps| && (forall i :: 0 <= i < m ==> bps[i].ver <= v) && forall i :: m <= i < |bps| ==> v < bps[i].ver
  {
    m := |bps|;
    if bps != [] && v < bps[|bps| - 1].ver {
      m := PlaceAfter(bps[..|bps| - 1], v);
      forall i | m <= i < |bps| ensures v < bps[i].ver { assert i < |bps| - 1 ==> bps[..|bps| - 1][i] == bps[i]; }
    }
  }

  lemma InsertedSorted(bps: seq<Breakpoint>, m: nat, bp: Breakpoint)
    requires SortedByVer(bps) && m <= |bps|
    requires (forall i :: 0 <= i < m ==> bps[i].ver <= bp.ver) && forall i :: m <= i < |bps| ==> bp.ver < bps[i].ver
    ensures SortedByVer(bps[..m] + [bp] + bps[m..])
  {
    var more := bps[..m] + [bp] + bps[m..];
    forall i, j | 0 <= i < j < |more| ensures more[i].ver <= more[j].ver {
      assert more[i] == if i < m then bps[i] else if i == m then bp else bps[i - 1];
      assert more[j] == if j < m then bps[j] else if j == m then bp else bps[j - 1];
    }
  }

  lemma InsertedArranges(bps: seq<Breakpoint>, m: nat, bp: Breakpoint)
    requires SortedByVer(bps) && m <= |bps|
    requires (forall i :: 0 <= i < m ==> bps[i].ver <= bp.ver) && forall i :: m <= i < |bps| ==> bp.ver < bps[i].ver
    ensures Arranges(bps[..m] + [bp] + bps[m..], bps + [bp])
  {
    InsertedSorted(bps, m, bp);
    assert bps == bps[..m] + bps[m..];
  }

  /** Some ascending arrangement. */
  lemma {:induction false} Arrangement(bps: seq<Breakpoint>) returns (sorted: seq<Breakpoint>)
    ensures Arranges(sorted, bps)
  {
    if bps == [] {
      sorted := [];
    } else {
      var n := |bps| - 1;
      var front := Arrangement(bps[..n]);
      var m := PlaceAfter(front, bps[n].ver);
      InsertedArranges(front, m, bps[n]);
      sorted := front[..m] + [bps[n]] + front[m..];
      assert bps == bps[..n] + [bps[n]];
    }
  }

  /** An ascending arrangement in which block `k` comes last among those of its version. */
  lemma LastOfItsVersion(bps: seq<Breakpoint>, k: nat) returns (sorted: seq<Breakpoint>)
    requires k < |bps|
    ensures Arranges(sorted, bps)
    ensures forall id: uint16 :: id in TableOf(bps[k].entries) ==>
              RunAt(sorted, bps[k].ver, id) == Some(TableOf(bps[k].entries)[id])
  {
    var bp, rest := bps[k], bps[..k] + bps[k + 1..];
    assert bps == bps[..k] + [bp] + bps[k + 1..];
    var front := Arrangement(rest);
    var m := PlaceAfter(front, bp.ver);
    InsertedArranges(front, m, bp);
    sorted := front[..m] + [bp] + front[m..];
    assert multiset(sorted) == multiset(rest) + multiset{bp} == multiset(bps);
    RunPrefix(sorted, m + 1, bp.ver);
    assert sorted[..m + 1] == front[..m] + [bp];
    assert (front[..m] + [bp])[..m] == front[..m];
  }

  /** Blocks of one version that disagree: some arrangement leaves another table. */
  lemma DisagreeingArrangement(bps: seq<Breakpoint>)
    requires !BlocksAgree(bps)
    ensures exists sorted :: Arranges(sorted, bps) && !RunsAs(sorted, bps)
  {
    var ver, id, l, l' :| Gives(bps, ver, id, l) && Gives(bps, ver, id, l') && l != l';
    var bp :| bp in bps && Alone(bp, ver, id, l);
    var bp' :| bp' in bps && Alone(bp', ver, id, l');
    var k :| 0 <= k < |bps| && bps[k] == bp;
    var k' :| 0 <= k' < |bps| && bps[k'] == bp';
    var sorted := LastOfItsVersion(bps, k);
    var sorted' := LastOfItsVersion(bps, k');
    assert RunAt(sorted, bp.ver, id) != RunAt(sorted', bp.ver, id);
  }

  /**
   The sort is unstable, so any ascending arrangement can come out of it. All of them leave
   what the list denotes exactly when no two blocks of one version disagree on an id.
   */
  lemma UnstableSortExactly(bps: seq<Breakpoint>)
    ensures BlocksAgree(bps) <==> forall sorted :: Arranges(sorted, bps) ==> RunsAs(sorted, bps)
  {
    if BlocksAgree(bps) {
      forall sorted | Arranges(sorted, bps) ensures RunsAs(sorted, bps) { AgreeingArrangement(bps, sorted); }
    } else {
      DisagreeingArrangement(bps);
    }
  }
}
