/** What the validator reports, issue by issue, in terms of the implementations themselves. */
module SemanticReports {
  import opened Words
  import opened Strings
  import opened Spelling
  import opened SemanticModel
  import opened SemanticRefinement
  import opened SemanticValidate

  // ---------- the two patterns, character by character ----------

  /** "0x" and four hex digits of either case. */
  ghost predicate SpelledID(s: string) {
    && |s| == 6 && s[0] == '0' && s[1] == 'x'
    && forall i :: 2 <= i < 6 ==> '0' <= s[i] <= '9' || 'a' <= s[i] <= 'f' || 'A' <= s[i] <= 'F'
  }

  /** A lower-case letter, then lower-case letters, digits and underscores. */
  ghost predicate SpelledName(s: string) {
    && |s| > 0 && 'a' <= s[0] <= 'z'
    && forall i :: 0 <= i < |s| ==> 'a' <= s[i] <= 'z' || '0' <= s[i] <= '9' || s[i] == '_'
  }

  lemma IDExactly(s: string)
    ensures IsPacketID(s) <==> SpelledID(s)
  {
    if |s| == 6 { assert s[..2] == [s[0], s[1]]; }
  }

  lemma NameExactly(s: string)
    ensures IsActionName(s) <==> SpelledName(s)
  {
  }

  // ---------- one action ----------

  /** Implementation `k` gives rise to the issue. An issue about a packet names its id, which is not empty. */
  ghost predicate ImplFault(name: string, impls: seq<Implementation>, k: int, x: Issue) {
    && 0 <= k < |impls|
    && var i := impls[k];
       match x
       case EmptyPacket(a) => a == name && i.packetID == ""
       case BadPacket(a, p) => a == name && i.packetID == p != "" && !SpelledID(p)
       case NoStruct(a, p) => a == name && i.packetID == p != "" && i.structName == ""
       case Duplicate(a, p) => a == name && i.packetID == p != "" && exists j :: 0 <= j < k && impls[j].packetID == p
       case Backwards(a, p, min, max) =>
         && a == name && i.packetID == p != ""
         && i.packetverMin == min != 0 && i.packetverMax == max != 0 && max < min
       case BadActionName(_) => false
       case Conflict(_, _, _) => false
  }

  lemma FaultAt(name: string, impls: seq<Implementation>, k: nat, x: Issue)
    requires k < |impls|
    ensures x in IssuesAt(name, impls, k) <==> ImplFault(name, impls, k, x)
  {
    var i := impls[k];
    IDExactly(i.packetID);
    SeenExactly(impls, k, i.packetID);
  }

  lemma SeenExactly(impls: seq<Implementation>, k: nat, id: string)
    requires k < |impls|
    ensures HasID(impls[..k], id) <==> exists j :: 0 <= j < k && impls[j].packetID == id
  {
    if HasID(impls[..k], id) {
      var j :| 0 <= j < k && impls[..k][j].packetID == id;
      assert impls[j].packetID == id;
    }
    if j :| 0 <= j < k && impls[j].packetID == id { assert impls[..k][j].packetID == id; }
  }

  lemma {:induction false} FaultUpTo(name: string, impls: seq<Implementation>, n: nat, x: Issue)
    requires n <= |impls|
    ensures x in ImplIssues(name, impls, n) <==> exists k :: k < n && ImplFault(name, impls, k, x)
  {
    if n > 0 {
      FaultUpTo(name, impls, n - 1, x);
      FaultAt(name, impls, n - 1, x);
    }
  }

  ghost predicate ActionFault(i: Item, x: Issue) {
    || (x == BadActionName(i.key) && !SpelledName(i.key))
    || exists k :: ImplFault(i.key, i.value.implementations, k, x)
  }

  /** What is reported of one action, and nothing else is. */
  lemma ReportedOfAction(i: Item, x: Issue)
    ensures x in ActionIssues(i) <==> ActionFault(i, x)
  {
    NameExactly(i.key);
    FaultUpTo(i.key, i.value.implementations, |i.value.implementations|, x);
  }

  ghost predicate FaultIn(items: seq<Item>, a: int, x: Issue) {
    0 <= a < |items| && ActionFault(items[a], x)
  }

  lemma {:induction false} FaultReported(items: seq<Item>, a: int, x: Issue)
    requires FaultIn(items, a, x)
    ensures x in AllActionIssues(items)
  {
    var n := |items| - 1;
    if a == n {
      ReportedOfAction(items[n], x);
    } else {
      FaultReported(items[..n], a, x);
    }
  }

  lemma {:induction false} ReportHasFault(items: seq<Item>, x: Issue) returns (a: int)
    requires x in AllActionIssues(items)
    ensures FaultIn(items, a, x)
  {
    var n := |items| - 1;
    if x in ActionIssues(items[n]) {
      ReportedOfAction(items[n], x);
      a := n;
    } else {
      a := ReportHasFault(items[..n], x);
    }
  }

  // ---------- across actions ----------

  /** Neither range ends before the other begins; one without an end lasts to the stand-in. */
  ghost predicate Meet(i: Implementation, o: Implementation) {
    && i.packetverMin <= (if o.packetverMax == 0 then 0x4000_0000_0000_0000 else o.packetverMax)
    && o.packetverMin <= (if i.packetverMax == 0 then 0x4000_0000_0000_0000 else i.packetverMax)
  }

  /** Two implementations of one packet id with a struct each, in listing order, whose ranges meet. */
  ghost predicate Clash(all: seq<Placed>, q: int, r: int, x: Issue) {
    && 0 <= q < r < |all| && x.Conflict? && x.action == all[q].action && x.other == all[r].action
    && all[q].impl.packetID == x.packet == all[r].impl.packetID && x.packet != ""
    && all[q].impl.structName != "" && all[r].impl.structName != "" && Meet(all[q].impl, all[r].impl)
  }

  lemma {:induction false} InFlat(rows: seq<seq<Issue>>, i: nat, x: Issue)
    requires i < |rows| && x in rows[i]
    ensures x in Flat(rows)
  {
    var n := |rows| - 1;
    if i < n { InFlat(rows[..n], i, x); }
  }

  lemma {:induction false} InRow(pid: string, us: seq<Usage>, i: nat, k: nat, j: nat)
    requires i < k < j <= |us| && Overlap(us[i], us[k])
    ensures Conflict(us[i].action, pid, us[k].action) in RowConflicts(pid, us, i, j)
    decreases j
  {
    if k < j - 1 { InRow(pid, us, i, k, j - 1); }
  }

  lemma ClashReported(all: seq<Placed>, pids: seq<string>, q: nat, r: nat, x: Issue)
    requires Clash(all, q, r, x) && x.packet in pids
    ensures x in CrossIssues(all, pids)
  {
    var us := UsesOf(all, x.packet);
    Rank(all, x.packet, q);
    Rank(all, x.packet, r);
    RankAscends(all, x.packet, q, r);
    var i, k := |UsesOf(all[..q], x.packet)|, |UsesOf(all[..r], x.packet)|;
    InRow(x.packet, us, i, k, |us|);
    InFlat(Rows(x.packet, us), i, x);
    var n :| 0 <= n < |pids| && pids[n] == x.packet;
    InFlat(CrossRows(all, pids), n, x);
  }

  /** Every place of the listing is an implementation of an action. */
  lemma {:induction false} PlacedFrom(items: seq<Item>, q: nat) returns (a: nat, k: nat)
    requires q < |AllPlaced(items)|
    ensures a < |items| && k < |items[a].value.implementations| && q == |AllPlaced(items[..a])| + k
    ensures AllPlaced(items)[q] == Placed(items[a].key, items[a].value.implementations[k])
  {
    var n := |items| - 1;
    if q < |AllPlaced(items[..n])| {
      a, k := PlacedFrom(items[..n], q);
      assert items[..n][..a] == items[..a];
    } else {
      a, k := n, q - |AllPlaced(items[..n])|;
    }
  }

  ghost predicate Reported(items: seq<Item>, x: Issue) {
    (exists a :: FaultIn(items, a, x)) || exists q, r :: Clash(AllPlaced(items), q, r, x)
  }

  /** The report of the whole validator: an issue is in it exactly when something gives rise to it. */
  lemma ReportExactly(items: seq<Item>, pids: seq<string>, x: Issue)
    requires forall pid :: pid in pids <==> UsesOf(AllPlaced(items), pid) != []
    ensures x in AllActionIssues(items) + CrossIssues(AllPlaced(items), pids) <==> Reported(items, x)
  {
    var all := AllPlaced(items);
    if x in AllActionIssues(items) { var a := ReportHasFault(items, x); }
    if a :| FaultIn(items, a, x) { FaultReported(items, a, x); }
    if x in CrossIssues(all, pids) {
      var q, r := ConflictHasWitness(all, pids, x);
      assert Clash(all, q, r, x);
    }
    if q, r :| Clash(all, q, r, x) {
      Rank(all, x.packet, q);
      ClashReported(all, pids, q, r, x);
    }
  }
}
