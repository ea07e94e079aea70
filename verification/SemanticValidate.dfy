/** The validator, and what a database it accepts guarantees to whoever resolves packets with it. */
module SemanticValidate {
  import opened Words
  import opened Strings
  import opened SemanticModel
  import opened SemanticRefinement
  import opened SemanticDB

  // ---------- ranges ----------

  /** The stand-in for "no upper bound". */
  const INF: int := 0x4000_0000_0000_0000

  /** `rangesOverlap`; 0 is no bound on that side. */
  function RangesOverlap(aMin: int, aMax: int, bMin: int, bMax: int): bool {
    var aHi := if aMax == 0 then INF else aMax;
    var bHi := if bMax == 0 then INF else bMax;
    aMin <= bHi && bMin <= aHi
  }

  predicate Active(min: int, max: int, pv: int) {
    min <= pv && (max == 0 || pv <= max)
  }

  /** A range some version below the stand-in can be in. */
  predicate WellFormedRange(min: int, max: int) {
    min <= 0x4000_0000_0000_0000 && (max == 0 || min <= max)
  }

  /** Some version below the stand-in is in both ranges. */
  ghost predicate Shared(aMin: int, aMax: int, bMin: int, bMax: int) {
    exists pv :: pv <= 0x4000_0000_0000_0000 && Active(aMin, aMax, pv) && Active(bMin, bMax, pv)
  }

  lemma SharedOverlap(aMin: int, aMax: int, bMin: int, bMax: int)
    ensures Shared(aMin, aMax, bMin, bMax) ==> RangesOverlap(aMin, aMax, bMin, bMax)
    ensures WellFormedRange(aMin, aMax) && WellFormedRange(bMin, bMax) && RangesOverlap(aMin, aMax, bMin, bMax) ==>
              Shared(aMin, aMax, bMin, bMax)
  {
    var pv := if aMin <= bMin then bMin else aMin;
    if WellFormedRange(aMin, aMax) && WellFormedRange(bMin, bMax) && RangesOverlap(aMin, aMax, bMin, bMax) {
      assert Active(aMin, aMax, pv) && Active(bMin, bMax, pv);
    }
  }

  /** Against every well-formed range the answer is exact, precisely when the range itself is well-formed. */
  lemma OverlapExactly(aMin: int, aMax: int)
    ensures WellFormedRange(aMin, aMax) <==>
            forall bMin, bMax :: WellFormedRange(bMin, bMax) ==>
              (RangesOverlap(aMin, aMax, bMin, bMax) <==> Shared(aMin, aMax, bMin, bMax))
  {
    forall bMin, bMax ensures WellFormedRange(aMin, aMax) && WellFormedRange(bMin, bMax) ==>
        (RangesOverlap(aMin, aMax, bMin, bMax) <==> Shared(aMin, aMax, bMin, bMax))
    {
      SharedOverlap(aMin, aMax, bMin, bMax);
    }
    if !WellFormedRange(aMin, aMax) {
      var bMin := if aMax != 0 && aMin > aMax && aMax <= INF then aMax else 0;
      var bMax := aMin;
      assert WellFormedRange(bMin, bMax) && RangesOverlap(aMin, aMax, bMin, bMax);
      assert !Shared(aMin, aMax, bMin, bMax);
    }
  }

  // ---------- the checks on one action ----------

  datatype Issue =
    | BadActionName(action: string)
    | EmptyPacket(action: string)
    | BadPacket(action: string, packet: string)
    | NoStruct(action: string, packet: string)
    | Duplicate(action: string, packet: string)
    | Backwards(action: string, packet: string, min: int, max: int)
    | Conflict(action: string, packet: string, other: string)

  /** `^0x[0-9A-Fa-f]{4}$`. */
  predicate IsPacketID(s: string) {
    |s| == 6 && s[..2] == "0x" && forall i :: 2 <= i < 6 ==> HexDigit(s[i]).Some?
  }

  predicate IsLower(c: char) {
    'a' <= c <= 'z'
  }

  /** `^[a-z][a-z0-9_]*$`. */
  predicate IsActionName(s: string) {
    s != "" && IsLower(s[0]) && forall i :: 0 <= i < |s| ==> IsLower(s[i]) || IsDigit(s[i]) || s[i] == '_'
  }

  function When(c: bool, issue: Issue): seq<Issue> {
    if c then [issue] else []
  }

  /** What the loop reports of one implementation, given whether its id was seen before. */
  function IssuesOf(name: string, i: Implementation, seen: bool): seq<Issue> {
    if i.packetID == "" then [EmptyPacket(name)]
    else
      When(!IsPacketID(i.packetID), BadPacket(name, i.packetID)) +
      When(i.structName == "", NoStruct(name, i.packetID)) +
      When(seen, Duplicate(name, i.packetID)) +
      When(i.packetverMin != 0 && i.packetverMax != 0 && i.packetverMin > i.packetverMax,
           Backwards(name, i.packetID, i.packetverMin, i.packetverMax))
  }

  function IssuesAt(name: string, impls: seq<Implementation>, k: nat): seq<Issue>
    requires k < |impls|
  {
    IssuesOf(name, impls[k], HasID(impls[..k], impls[k].packetID))
  }

  function ImplIssues(name: string, impls: seq<Implementation>, n: nat): seq<Issue>
    requires n <= |impls|
  {
    if n == 0 then [] else ImplIssues(name, impls, n - 1) + IssuesAt(name, impls, n - 1)
  }

  function ActionIssues(i: Item): seq<Issue> {
    When(!IsActionName(i.key), BadActionName(i.key)) +
    ImplIssues(i.key, i.value.implementations, |i.value.implementations|)
  }

  /** The body of the per-action loop. */
  method CheckAction(name: string, a: Action) returns (errs: seq<Issue>)
    ensures errs == ActionIssues(Entry(name, a))
  {
    errs := CheckImpls(name, a.implementations);
    if !IsActionName(name) { errs := [BadActionName(name)] + errs; }
  }

  method CheckImpls(name: string, impls: seq<Implementation>) returns (errs: seq<Issue>)
    ensures errs == ImplIssues(name, impls, |impls|)
  {
    errs := [];
    var seen: set<string> := {};
    for k := 0 to |impls|
      invariant errs == ImplIssues(name, impls, k) && SeenBefore(seen, impls, k)
    {
      var found := CheckImpl(name, impls, k, seen);
      errs := errs + found;
      SeenStep(seen, impls, k);
      if impls[k].packetID != "" { seen := seen + {impls[k].packetID}; }
    }
  }

  method CheckImpl(name: string, impls: seq<Implementation>, k: nat, seen: set<string>) returns (errs: seq<Issue>)
    requires k < |impls| && SeenBefore(seen, impls, k)
    ensures errs == IssuesAt(name, impls, k)
  {
    errs := [];
    var i := impls[k];
    if i.packetID == "" { return [EmptyPacket(name)]; }
    if !IsPacketID(i.packetID) { errs := errs + [BadPacket(name, i.packetID)]; }
    if i.structName == "" { errs := errs + [NoStruct(name, i.packetID)]; }
    if i.packetID in seen { errs := errs + [Duplicate(name, i.packetID)]; }
    if i.packetverMin != 0 && i.packetverMax != 0 && i.packetverMin > i.packetverMax {
      errs := errs + [Backwards(name, i.packetID, i.packetverMin, i.packetverMax)];
    }
  }

  /** `seenPackets` holds the nonempty ids of the first `k` implementations. */
  ghost predicate SeenBefore(seen: set<string>, impls: seq<Implementation>, k: nat)
    requires k <= |impls|
  {
    "" !in seen && forall id :: id != "" ==> (id in seen <==> HasID(impls[..k], id))
  }

  lemma SeenStep(seen: set<string>, impls: seq<Implementation>, k: nat)
    requires k < |impls| && SeenBefore(seen, impls, k)
    ensures SeenBefore(if impls[k].packetID == "" then seen else seen + {impls[k].packetID}, impls, k + 1)
  {
    forall id ensures HasID(impls[..k + 1], id) <==> HasID(impls[..k], id) || impls[k].packetID == id {
      HasOneMore(impls, k, id);
    }
  }

  lemma HasOneMore(impls: seq<Implementation>, k: nat, id: string)
    requires k < |impls|
    ensures HasID(impls[..k + 1], id) <==> HasID(impls[..k], id) || impls[k].packetID == id
  {
    assert impls[..k + 1][k] == impls[k];
    if HasID(impls[..k], id) {
      var j :| 0 <= j < k && impls[..k][j].packetID == id;
      assert impls[..k + 1][j].packetID == id;
    }
  }

  // ---------- the check across actions ----------

  datatype Placed = Placed(action: string, impl: Implementation)

  datatype Usage = Usage(action: string, min: int, max: int)

  /** Every implementation of the listing, in order. */
  function AllPlaced(items: seq<Item>): seq<Placed> {
    if items == [] then []
    else AllPlaced(items[..|items| - 1]) + PlacedIn(items[|items| - 1])
  }

  function PlacedIn(i: Item): seq<Placed> {
    seq(|i.value.implementations|, k requires 0 <= k < |i.value.implementations| =>
      Placed(i.key, i.value.implementations[k]))
  }

  predicate Uses(p: Placed, pid: string) {
    p.impl.packetID == pid && pid != "" && p.impl.structName != ""
  }

  function UsageOf(p: Placed): Usage {
    Usage(p.action, p.impl.packetverMin, p.impl.packetverMax)
  }

  /** The usages of one packet id, in order. */
  function UsesOf(all: seq<Placed>, pid: string): seq<Usage> {
    if all == [] then []
    else
      var front, last := UsesOf(all[..|all| - 1], pid), all[|all| - 1];
      if Uses(last, pid) then front + [UsageOf(last)] else front
  }

  predicate Overlap(a: Usage, b: Usage) {
    RangesOverlap(a.min, a.max, b.min, b.max)
  }

  /** What the inner loop reports for usage `i` against those after it, up to `j`. */
  function RowConflicts(pid: string, us: seq<Usage>, i: nat, j: nat): seq<Issue>
    requires i < |us| && j <= |us|
    decreases j
  {
    if j <= i + 1 then []
    else
      RowConflicts(pid, us, i, j - 1) +
      When(Overlap(us[i], us[j - 1]), Conflict(us[i].action, pid, us[j - 1].action))
  }

  function Rows(pid: string, us: seq<Usage>): (rows: seq<seq<Issue>>)
    ensures |rows| == |us| && forall i :: 0 <= i < |us| ==> rows[i] == RowConflicts(pid, us, i, |us|)
  {
    seq(|us|, i requires 0 <= i < |us| => RowConflicts(pid, us, i, |us|))
  }

  function Flat(rows: seq<seq<Issue>>): seq<Issue> {
    if rows == [] then [] else Flat(rows[..|rows| - 1]) + rows[|rows| - 1]
  }

  lemma FlatAppend(rows: seq<seq<Issue>>, n: nat)
    requires n < |rows|
    ensures Flat(rows[..n + 1]) == Flat(rows[..n]) + rows[n]
  {
    assert rows[..n + 1][..n] == rows[..n];
  }

  lemma {:induction false} FlatEmpty(rows: seq<seq<Issue>>)
    ensures |Flat(rows)| == 0 <==> forall i :: 0 <= i < |rows| ==> |rows[i]| == 0
  {
    if rows != [] { FlatEmpty(rows[..|rows| - 1]); }
  }

  lemma {:induction false} FlatMember(rows: seq<seq<Issue>>, x: Issue) returns (i: nat)
    requires x in Flat(rows)
    ensures i < |rows| && x in rows[i]
  {
    var n := |rows| - 1;
    if x in rows[n] { i := n; } else { i := FlatMember(rows[..n], x); }
  }

  /** What the two nested loops report. */
  function PairConflicts(pid: string, us: seq<Usage>): seq<Issue> {
    Flat(Rows(pid, us))
  }

  function CrossRows(all: seq<Placed>, pids: seq<string>): (rows: seq<seq<Issue>>)
    ensures |rows| == |pids| && forall n :: 0 <= n < |pids| ==> rows[n] == PairConflicts(pids[n], UsesOf(all, pids[n]))
  {
    seq(|pids|, n requires 0 <= n < |pids| => PairConflicts(pids[n], UsesOf(all, pids[n])))
  }

  function CrossIssues(all: seq<Placed>, pids: seq<string>): seq<Issue> {
    Flat(CrossRows(all, pids))
  }

  /** `byPacket`: the usages of every id that has one. */
  ghost predicate Grouped(byPacket: map<string, seq<Usage>>, all: seq<Placed>) {
    forall pid :: GroupedFor(byPacket, all, pid)
  }

  ghost predicate GroupedFor(byPacket: map<string, seq<Usage>>, all: seq<Placed>, pid: string) {
    && (pid in byPacket <==> UsesOf(all, pid) != [])
    && (pid in byPacket ==> byPacket[pid] == UsesOf(all, pid))
  }

  method AddUse(byPacket: map<string, seq<Usage>>, name: string, impl: Implementation, ghost all: seq<Placed>)
    returns (more: map<string, seq<Usage>>)
    requires Grouped(byPacket, all)
    ensures Grouped(more, all + [Placed(name, impl)])
  {
    more := byPacket;
    var pid := impl.packetID;
    if pid != "" && impl.structName != "" {
      var us := if pid in byPacket then byPacket[pid] else [];
      more := byPacket[pid := us + [Usage(name, impl.packetverMin, impl.packetverMax)]];
    }
    forall id ensures GroupedFor(more, all + [Placed(name, impl)], id) {
      assert GroupedFor(byPacket, all, id) && GroupedFor(byPacket, all, pid);
      assert (all + [Placed(name, impl)])[..|all|] == all;
    }
  }

  method GroupByPacket(items: seq<Item>) returns (byPacket: map<string, seq<Usage>>)
    ensures Grouped(byPacket, AllPlaced(items))
  {
    byPacket := map[];
    assert forall pid :: GroupedFor(byPacket, [], pid);
    for a := 0 to |items|
      invariant Grouped(byPacket, AllPlaced(items[..a]))
    {
      assert items[..a + 1][..a] == items[..a];
      byPacket := GroupAction(byPacket, items[a], AllPlaced(items[..a]));
    }
    assert items[..|items|] == items;
  }

  method GroupAction(byPacket: map<string, seq<Usage>>, i: Item, ghost all: seq<Placed>)
    returns (more: map<string, seq<Usage>>)
    requires Grouped(byPacket, all)
    ensures Grouped(more, all + PlacedIn(i))
  {
    more := byPacket;
    var impls := i.value.implementations;
    assert all + PlacedIn(i)[..0] == all;
    for k := 0 to |impls|
      invariant Grouped(more, all + PlacedIn(i)[..k])
    {
      assert all + PlacedIn(i)[..k + 1] == all + PlacedIn(i)[..k] + [Placed(i.key, impls[k])];
      more := AddUse(more, i.key, impls[k], all + PlacedIn(i)[..k]);
    }
    assert PlacedIn(i)[..|impls|] == PlacedIn(i);
  }

  method FindConflicts(pid: string, us: seq<Usage>) returns (errs: seq<Issue>)
    ensures errs == PairConflicts(pid, us)
  {
    ghost var rows := Rows(pid, us);
    errs := [];
    for i := 0 to |us|
      invariant errs == Flat(rows[..i])
    {
      FlatAppend(rows, i);
      var row := FindRow(pid, us, i);
      errs := errs + row;
    }
    assert rows[..|us|] == rows;
  }

  /** The inner loop: usage `i` against those after it. */
  method FindRow(pid: string, us: seq<Usage>, i: nat) returns (errs: seq<Issue>)
    requires i < |us|
    ensures errs == RowConflicts(pid, us, i, |us|)
  {
    errs := [];
    for j := i + 1 to |us|
      invariant errs == RowConflicts(pid, us, i, j)
    {
      if RangesOverlap(us[i].min, us[i].max, us[j].min, us[j].max) {
        errs := errs + [Conflict(us[i].action, pid, us[j].action)];
      }
    }
  }

  /** `validateCrossActionConflicts`. */
  method ValidateCrossActionConflicts(items: seq<Item>) returns (errs: seq<Issue>, ghost pids: seq<string>)
    ensures errs == CrossIssues(AllPlaced(items), pids) && InOrder(pids)
    ensures forall pid :: pid in pids <==> UsesOf(AllPlaced(items), pid) != []
  {
    ghost var all := AllPlaced(items);
    var byPacket := GroupByPacket(items);
    var packets := SortedNames(byPacket.Keys);
    pids := packets;
    forall pid ensures pid in packets <==> UsesOf(all, pid) != [] { assert GroupedFor(byPacket, all, pid); }
    ghost var rows := CrossRows(all, packets);
    errs := [];
    for n := 0 to |packets|
      invariant errs == Flat(rows[..n])
    {
      FlatAppend(rows, n);
      assert packets[n] in packets && GroupedFor(byPacket, all, packets[n]);
      var found := FindConflicts(packets[n], byPacket[packets[n]]);
      errs := errs + found;
    }
    assert rows[..|packets|] == rows;
  }

  // ---------- usages and the implementations they come from ----------

  lemma {:induction false} UsesPrefix(all: seq<Placed>, pid: string, q: nat)
    requires q <= |all|
    ensures UsesOf(all[..q], pid) <= UsesOf(all, pid)
  {
    if q < |all| {
      UsesPrefix(all[..|all| - 1], pid, q);
      assert all[..|all| - 1][..q] == all[..q];
    } else {
      assert all[..q] == all;
    }
  }

  /** A usage stands at the place given by how many come before it. */
  lemma Rank(all: seq<Placed>, pid: string, q: nat)
    requires q < |all| && Uses(all[q], pid)
    ensures |UsesOf(all[..q], pid)| < |UsesOf(all[..q + 1], pid)| <= |UsesOf(all, pid)|
    ensures UsesOf(all, pid)[|UsesOf(all[..q], pid)|] == UsageOf(all[q])
  {
    assert all[..q + 1][..q] == all[..q];
    UsesPrefix(all, pid, q + 1);
  }

  lemma RankAscends(all: seq<Placed>, pid: string, q: nat, r: nat)
    requires q < r <= |all| && Uses(all[q], pid)
    ensures |UsesOf(all[..q], pid)| < |UsesOf(all[..r], pid)|
  {
    Rank(all, pid, q);
    UsesPrefix(all[..r], pid, q + 1);
    assert all[..r][..q + 1] == all[..q + 1];
  }

  lemma {:induction false} UsageComesFrom(all: seq<Placed>, pid: string, i: nat) returns (q: nat)
    requires i < |UsesOf(all, pid)|
    ensures q < |all| && Uses(all[q], pid) && |UsesOf(all[..q], pid)| == i
  {
    var n := |all| - 1;
    if i == |UsesOf(all[..n], pid)| {
      q := n;
    } else {
      q := UsageComesFrom(all[..n], pid, i);
      assert all[..n][..q] == all[..q];
    }
  }

  /** No two usable implementations of one packet id have overlapping ranges. */
  ghost predicate NoClash(all: seq<Placed>) {
    forall q, r :: 0 <= q < r < |all| ==> Compatible(all[q], all[r])
  }

  ghost predicate Compatible(p: Placed, o: Placed) {
    Uses(p, p.impl.packetID) && Uses(o, p.impl.packetID) ==> !Overlap(UsageOf(p), UsageOf(o))
  }

  ghost predicate RowClear(us: seq<Usage>, i: nat, j: nat)
    requires i < |us| && j <= |us|
  {
    forall k {:trigger Overlap(us[i], us[k])} :: i < k < j ==> !Overlap(us[i], us[k])
  }

  ghost predicate PairsClear(us: seq<Usage>) {
    forall i :: 0 <= i < |us| ==> RowClear(us, i, |us|)
  }

  lemma {:induction false} RowEmpty(pid: string, us: seq<Usage>, i: nat, j: nat)
    requires i < |us| && j <= |us|
    ensures |RowConflicts(pid, us, i, j)| == 0 <==> RowClear(us, i, j)
    decreases j
  {
    if i + 1 < j { RowEmpty(pid, us, i, j - 1); }
  }

  lemma PairsEmpty(pid: string, us: seq<Usage>)
    ensures |PairConflicts(pid, us)| == 0 <==> PairsClear(us)
  {
    var rows := Rows(pid, us);
    FlatEmpty(rows);
    forall i | 0 <= i < |us| ensures |rows[i]| == 0 <==> RowClear(us, i, |us|) { RowEmpty(pid, us, i, |us|); }
  }

  ghost predicate NoPairs(all: seq<Placed>, pid: string) {
    |PairConflicts(pid, UsesOf(all, pid))| == 0
  }

  lemma CrossEmpty(all: seq<Placed>, pids: seq<string>)
    ensures |CrossIssues(all, pids)| == 0 <==> forall n :: 0 <= n < |pids| ==> NoPairs(all, pids[n])
  {
    var rows := CrossRows(all, pids);
    FlatEmpty(rows);
    forall n | 0 <= n < |pids| ensures |rows[n]| == 0 <==> NoPairs(all, pids[n]) {}
  }

  lemma NoPairsNoClash(all: seq<Placed>, q: nat, r: nat)
    requires q < r < |all| && NoPairs(all, all[q].impl.packetID)
    ensures Compatible(all[q], all[r])
  {
    var pid := all[q].impl.packetID;
    if Uses(all[q], pid) && Uses(all[r], pid) {
      PairsEmpty(pid, UsesOf(all, pid));
      Rank(all, pid, q);
      Rank(all, pid, r);
      RankAscends(all, pid, q, r);
      assert RowClear(UsesOf(all, pid), |UsesOf(all[..q], pid)|, |UsesOf(all, pid)|);
    }
  }

  lemma NoClashNoPairs(all: seq<Placed>, pid: string)
    requires NoClash(all)
    ensures NoPairs(all, pid)
  {
    var us := UsesOf(all, pid);
    forall i, k | 0 <= i < |us| && i < k < |us|
      ensures !Overlap(us[i], us[k])
    {
      var q := UsageComesFrom(all, pid, i);
      var r := UsageComesFrom(all, pid, k);
      if r < q { RankAscends(all, pid, r, q); }
      Rank(all, pid, q);
      Rank(all, pid, r);
      assert Compatible(all[q], all[r]);
    }
    PairsEmpty(pid, us);
  }

  /** The cross-action check is silent exactly when no two implementations of a packet id clash. */
  lemma CrossSilent(all: seq<Placed>, pids: seq<string>)
    requires forall pid :: pid in pids <==> UsesOf(all, pid) != []
    ensures |CrossIssues(all, pids)| == 0 <==> NoClash(all)
  {
    CrossEmpty(all, pids);
    if |CrossIssues(all, pids)| == 0 {
      forall q, r | 0 <= q < r < |all| ensures Compatible(all[q], all[r]) {
        var pid := all[q].impl.packetID;
        if Uses(all[q], pid) {
          Rank(all, pid, q);
          assert pid in pids;
          NoPairsNoClash(all, q, r);
        }
      }
    } else {
      if NoClash(all) {
        forall n | 0 <= n < |pids| ensures NoPairs(all, pids[n]) { NoClashNoPairs(all, pids[n]); }
      }
    }
  }

  // ---------- conflicts are real ----------

  ghost predicate Between(us: seq<Usage>, pid: string, i: nat, j: nat, x: Issue) {
    i < j < |us| && x == Conflict(us[i].action, pid, us[j].action) && Overlap(us[i], us[j])
  }

  lemma {:induction false} RowMeans(pid: string, us: seq<Usage>, i: nat, j: nat, x: Issue) returns (k: nat)
    requires i < |us| && j <= |us| && x in RowConflicts(pid, us, i, j)
    ensures Between(us, pid, i, k, x)
    decreases j
  {
    if x in RowConflicts(pid, us, i, j - 1) {
      k := RowMeans(pid, us, i, j - 1, x);
    } else {
      k := j - 1;
    }
  }

  lemma PairMeans(pid: string, us: seq<Usage>, x: Issue) returns (i: nat, j: nat)
    requires x in PairConflicts(pid, us)
    ensures Between(us, pid, i, j, x)
  {
    i := FlatMember(Rows(pid, us), x);
    j := RowMeans(pid, us, i, |us|, x);
  }

  /**
   Every conflict reported names two implementations of that packet id, in listing order; if
   both ranges are well-formed, some version is in both.
   */
  lemma ConflictHasWitness(all: seq<Placed>, pids: seq<string>, x: Issue) returns (q: nat, r: nat)
    requires x in CrossIssues(all, pids)
    ensures q < r < |all| && x.Conflict? && Uses(all[q], x.packet) && Uses(all[r], x.packet)
    ensures x.action == all[q].action && x.other == all[r].action && Overlap(UsageOf(all[q]), UsageOf(all[r]))
    ensures var a, b := UsageOf(all[q]), UsageOf(all[r]);
            WellFormedRange(a.min, a.max) && WellFormedRange(b.min, b.max) ==> Shared(a.min, a.max, b.min, b.max)
  {
    var n := FlatMember(CrossRows(all, pids), x);
    var pid, us := pids[n], UsesOf(all, pids[n]);
    var i, j := PairMeans(pid, us, x);
    q := UsageComesFrom(all, pid, i);
    r := UsageComesFrom(all, pid, j);
    if r < q { RankAscends(all, pid, r, q); }
    Rank(all, pid, q);
    Rank(all, pid, r);
    SharedOverlap(us[i].min, us[i].max, us[j].min, us[j].max);
  }

  // ---------- what silence means ----------

  ghost predicate CleanImpl(impls: seq<Implementation>, k: nat)
    requires k < |impls|
  {
    var i := impls[k];
    && IsPacketID(i.packetID) && i.structName != ""
    && (i.packetverMin != 0 && i.packetverMax != 0 ==> i.packetverMin <= i.packetverMax)
    && forall j :: 0 <= j < k ==> impls[j].packetID != i.packetID
  }

  ghost predicate CleanAction(i: Item) {
    IsActionName(i.key) && CleanUpTo(i.value.implementations, |i.value.implementations|)
  }

  lemma ImplSilent(name: string, impls: seq<Implementation>, k: nat)
    requires k < |impls|
    ensures |IssuesAt(name, impls, k)| == 0 <==> CleanImpl(impls, k)
  {
    if HasID(impls[..k], impls[k].packetID) {
      var j :| 0 <= j < k && impls[..k][j].packetID == impls[k].packetID;
      assert impls[j].packetID == impls[k].packetID;
    } else {
      forall j | 0 <= j < k ensures impls[j].packetID != impls[k].packetID { assert impls[..k][j] == impls[j]; }
    }
  }

  ghost predicate CleanUpTo(impls: seq<Implementation>, n: nat)
    requires n <= |impls|
  {
    forall k :: 0 <= k < n ==> CleanImpl(impls, k)
  }

  lemma CleanUpToStep(impls: seq<Implementation>, n: nat)
    requires 0 < n <= |impls|
    ensures CleanUpTo(impls, n) <==> CleanUpTo(impls, n - 1) && CleanImpl(impls, n - 1)
  {
    if CleanUpTo(impls, n) { assert CleanImpl(impls, n - 1); }
  }

  lemma ImplsSilentStep(name: string, impls: seq<Implementation>, n: nat)
    requires 0 < n <= |impls|
    ensures |ImplIssues(name, impls, n)| == 0 <==> |ImplIssues(name, impls, n - 1)| == 0 && CleanImpl(impls, n - 1)
  {
    ImplSilent(name, impls, n - 1);
    assert |ImplIssues(name, impls, n)| == |ImplIssues(name, impls, n - 1)| + |IssuesAt(name, impls, n - 1)|;
  }

  lemma {:induction false} ImplsSilent(name: string, impls: seq<Implementation>, n: nat)
    requires n <= |impls|
    ensures |ImplIssues(name, impls, n)| == 0 <==> CleanUpTo(impls, n)
  {
    if n > 0 {
      ImplsSilentStep(name, impls, n);
      ImplsSilent(name, impls, n - 1);
      CleanUpToStep(impls, n);
    }
  }

  lemma ActionSilent(i: Item)
    ensures |ActionIssues(i)| == 0 <==> CleanAction(i)
  {
    ImplsSilent(i.key, i.value.implementations, |i.value.implementations|);
  }

  function AllActionIssues(items: seq<Item>): seq<Issue> {
    if items == [] then [] else AllActionIssues(items[..|items| - 1]) + ActionIssues(items[|items| - 1])
  }

  ghost predicate CleanActions(items: seq<Item>) {
    forall a :: 0 <= a < |items| ==> CleanAction(items[a])
  }

  lemma CleanActionsStep(items: seq<Item>)
    requires items != []
    ensures CleanActions(items) <==> CleanActions(items[..|items| - 1]) && CleanAction(items[|items| - 1])
  {
    var n := |items| - 1;
    if CleanActions(items[..n]) && CleanAction(items[n]) {
      forall a | 0 <= a < |items| ensures CleanAction(items[a]) {
        if a < n { assert items[..n][a] == items[a]; }
      }
    }
  }

  lemma {:induction false} ActionsSilent(items: seq<Item>)
    ensures |AllActionIssues(items)| == 0 <==> CleanActions(items)
  {
    if items != [] {
      var n := |items| - 1;
      CleanActionsStep(items);
      ActionsSilent(items[..n]);
      ActionSilent(items[n]);
      assert AllActionIssues(items) == AllActionIssues(items[..n]) + ActionIssues(items[n]);
    }
  }

  /** At every version, a packet id is active in at most one implementation of the whole database. */
  ghost predicate Unambiguous(items: seq<Item>) {
    forall a, k, b, l, pv: int ::
      0 <= a < |items| && 0 <= k < |items[a].value.implementations| &&
      0 <= b < |items| && 0 <= l < |items[b].value.implementations| && (a != b || k != l) &&
      pv <= 0x4000_0000_0000_0000 ==>
        !BothActive(items[a].value.implementations[k], items[b].value.implementations[l], pv)
  }

  predicate BothActive(i: Implementation, o: Implementation, pv: int) {
    i.packetID == o.packetID && Active(i.packetverMin, i.packetverMax, pv) && Active(o.packetverMin, o.packetverMax, pv)
  }

  lemma {:induction false} PlacedPrefix(items: seq<Item>, a: nat)
    requires a <= |items|
    ensures AllPlaced(items[..a]) <= AllPlaced(items)
  {
    if a < |items| {
      PlacedPrefix(items[..|items| - 1], a);
      assert items[..|items| - 1][..a] == items[..a];
    } else {
      assert items[..a] == items;
    }
  }

  /** Where implementation `k` of action `a` stands in the flat listing. */
  lemma PlaceOf(items: seq<Item>, a: nat, k: nat) returns (q: nat)
    requires a < |items| && k < |items[a].value.implementations|
    ensures q == |AllPlaced(items[..a])| + k < |AllPlaced(items[..a + 1])| <= |AllPlaced(items)|
    ensures AllPlaced(items)[q] == Placed(items[a].key, items[a].value.implementations[k])
  {
    q := |AllPlaced(items[..a])| + k;
    assert items[..a + 1][..a] == items[..a];
    PlacedPrefix(items, a + 1);
  }

  lemma PlacesDiffer(items: seq<Item>, a: nat, k: nat, b: nat, l: nat)
    requires a < b < |items| && k < |items[a].value.implementations| && l < |items[b].value.implementations|
    ensures |AllPlaced(items[..a])| + k < |AllPlaced(items[..b])| + l
  {
    var q := PlaceOf(items, a, k);
    PlacedPrefix(items[..b], a + 1);
    assert items[..b][..a + 1] == items[..a + 1];
  }

  lemma NotBothActive(all: seq<Placed>, q: nat, r: nat, pv: int)
    requires NoClash(all) && q < |all| && r < |all| && q != r && pv <= 0x4000_0000_0000_0000
    requires all[q].impl.packetID != "" && all[q].impl.structName != "" && all[r].impl.structName != ""
    ensures !BothActive(all[q].impl, all[r].impl, pv)
  {
    var a, b := UsageOf(all[q]), UsageOf(all[r]);
    if q < r { assert Compatible(all[q], all[r]); } else { assert Compatible(all[r], all[q]); }
    if BothActive(all[q].impl, all[r].impl, pv) {
      assert Shared(a.min, a.max, b.min, b.max) && Shared(b.min, b.max, a.min, a.max);
      SharedOverlap(a.min, a.max, b.min, b.max);
      SharedOverlap(b.min, b.max, a.min, a.max);
    }
  }

  /** The listing is clean: every action is, and no two implementations clash. */
  ghost predicate Clean(items: seq<Item>) {
    CleanActions(items) && NoClash(AllPlaced(items))
  }

  lemma CleanIsUnambiguous(items: seq<Item>)
    requires Clean(items)
    ensures Unambiguous(items)
  {
    forall a, k, b, l, pv: int |
      0 <= a < |items| && 0 <= k < |items[a].value.implementations| &&
      0 <= b < |items| && 0 <= l < |items[b].value.implementations| && (a != b || k != l) && pv <= 0x4000_0000_0000_0000
      ensures !BothActive(items[a].value.implementations[k], items[b].value.implementations[l], pv)
    {
      PairNotBothActive(items, a, k, b, l, pv);
    }
  }

  lemma PairNotBothActive(items: seq<Item>, a: nat, k: nat, b: nat, l: nat, pv: int)
    requires Clean(items) && (a != b || k != l) && pv <= 0x4000_0000_0000_0000
    requires a < |items| && k < |items[a].value.implementations| && b < |items| && l < |items[b].value.implementations|
    ensures !BothActive(items[a].value.implementations[k], items[b].value.implementations[l], pv)
  {
    CleanFields(items, a, k);
    CleanFields(items, b, l);
    var q := PlaceOf(items, a, k);
    var r := PlaceOf(items, b, l);
    if a < b { PlacesDiffer(items, a, k, b, l); }
    if b < a { PlacesDiffer(items, b, l, a, k); }
    NotBothActive(AllPlaced(items), q, r, pv);
  }

  lemma CleanFields(items: seq<Item>, a: nat, k: nat)
    requires Clean(items) && a < |items| && k < |items[a].value.implementations|
    ensures var i := items[a].value.implementations[k]; i.packetID != "" && i.structName != ""
  {
    assert CleanAction(items[a]);
    assert CleanImpl(items[a].value.implementations, k);
  }

  // ---------- the whole validator ----------

  /** The actions in order of name, as the validator visits them. */
  function Listed(entries: seq<Entry<Tree>>, names: seq<string>): (items: seq<Item>)
    requires forall name :: name in names ==> IndexOf(entries, name).Some?
    ensures |items| == |names|
  {
    seq(|names|, n requires 0 <= n < |names| =>
      assert names[n] in names;
      ItemNamed(entries, names[n]))
  }

  ghost predicate AllNamed(entries: seq<Entry<Tree>>, names: seq<string>) {
    forall name :: name in names ==> IndexOf(entries, name).Some?
  }

  function ItemNamed(entries: seq<Entry<Tree>>, name: string): Item
    requires IndexOf(entries, name).Some?
  {
    Entry(name, ParseAction(name, entries[IndexOf(entries, name).value].value))
  }

  /** A listing by name shows every item of the document, and different items in different places. */
  lemma ListedIs(entries: seq<Entry<Tree>>, names: seq<string>, p: nat) returns (n: nat)
    requires DistinctKeys(entries) && p < |entries|
    requires forall name :: name in names <==> IndexOf(entries, name).Some?
    ensures n < |names| && Listed(entries, names)[n] == View(entries)[p] && names[n] == entries[p].key
  {
    IndexOfKey(entries, p);
    assert entries[p].key in names;
    n :| 0 <= n < |names| && names[n] == entries[p].key;
  }

  lemma ListedUnambiguous(entries: seq<Entry<Tree>>, names: seq<string>)
    requires DistinctKeys(entries) && forall name :: name in names <==> IndexOf(entries, name).Some?
    requires Unambiguous(Listed(entries, names))
    ensures Unambiguous(View(entries))
  {
    var items := View(entries);
    forall a, k, b, l, pv: int |
      0 <= a < |items| && 0 <= k < |items[a].value.implementations| &&
      0 <= b < |items| && 0 <= l < |items[b].value.implementations| && (a != b || k != l) && pv <= 0x4000_0000_0000_0000
      ensures !BothActive(items[a].value.implementations[k], items[b].value.implementations[l], pv)
    {
      var n := ListedIs(entries, names, a);
      var m := ListedIs(entries, names, b);
      assert a != b ==> names[n] != names[m];
    }
  }

  /**
   `Validate`, short of its final sort. It reports nothing exactly when the listing is clean,
   and then no packet id is ever active twice in the document.
   */
  method Validate(db: DB) returns (errs: seq<Issue>, ghost names: seq<string>, ghost pids: seq<string>)
    requires db.Valid()
    ensures AllNamed(db.Entries(), names)
    ensures var items := Listed(db.Entries(), names);
            errs == AllActionIssues(items) + CrossIssues(AllPlaced(items), pids) &&
            forall pid :: pid in pids <==> UsesOf(AllPlaced(items), pid) != []
    ensures forall name :: name in names <==> IndexOf(db.Entries(), name).Some?
    ensures InOrder(names) && (errs == [] <==> Clean(Listed(db.Entries(), names)))
    ensures errs == [] ==> Unambiguous(View(db.Entries()))
  {
    var list := db.ListActions();
    names := list;
    var items;
    errs, items := CheckActions(db, list);
    var conflicts;
    conflicts, pids := ValidateCrossActionConflicts(items);
    errs := errs + conflicts;
    ActionsSilent(items);
    CrossSilent(AllPlaced(items), pids);
    if Clean(items) {
      CleanIsUnambiguous(items);
      ListedUnambiguous(db.Entries(), list);
    }
  }

  /** The loop of per-action checks. */
  method CheckActions(db: DB, names: seq<string>) returns (errs: seq<Issue>, items: seq<Item>)
    requires db.Valid() && AllNamed(db.Entries(), names)
    ensures items == Listed(db.Entries(), names) && errs == AllActionIssues(items)
  {
    ghost var entries := db.Entries();
    items, errs := [], [];
    for n := 0 to |names|
      invariant db.Valid() && db.Entries() == entries
      invariant SoFar(items, entries, names, n)
      invariant errs == AllActionIssues(items)
    {
      assert names[n] in names;
      var found, item := CheckNamed(db, names[n]);
      IssuesStep(items, item, found);
      SoFarStep(items, entries, names, n, item);
      items, errs := items + [item], errs + found;
    }
    assert items == Listed(entries, names);
  }

  lemma SoFarStep(items: seq<Item>, entries: seq<Entry<Tree>>, names: seq<string>, n: nat, item: Item)
    requires AllNamed(entries, names) && n < |names| && SoFar(items, entries, names, n)
    requires names[n] in names && item == ItemNamed(entries, names[n])
    ensures SoFar(items + [item], entries, names, n + 1)
  {
  }

  ghost predicate SoFar(items: seq<Item>, entries: seq<Entry<Tree>>, names: seq<string>, n: nat)
    requires n <= |names| && AllNamed(entries, names)
  {
    items == Listed(entries, names)[..n]
  }

  method CheckNamed(db: DB, name: string) returns (errs: seq<Issue>, item: Item)
    requires db.Valid() && IndexOf(db.Entries(), name).Some?
    ensures item == ItemNamed(db.Entries(), name) && errs == ActionIssues(item)
  {
    var a := db.GetAction(name);
    item := Entry(name, a.value);
    errs := CheckAction(name, a.value);
  }

  lemma IssuesStep(items: seq<Item>, i: Item, found: seq<Issue>)
    requires found == ActionIssues(i)
    ensures AllActionIssues(items + [i]) == AllActionIssues(items) + found
  {
    assert (items + [i])[..|items|] == items;
  }
}
