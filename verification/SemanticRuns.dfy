/** What whole runs of calls keep, what a failed call leaves alone, and which calls undo each other. */
module SemanticRuns {
  import opened Words
  import opened Strings
  import opened SemanticModel
  import opened SemanticLaws
  import opened SemanticRefinement
  import opened SemanticSearch

  // ---------- what holds of every implementation node ----------

  ghost predicate ItemsAre(t: Tree, p: Tree -> bool) {
    forall x :: x in ImplsSeq(t).kids ==> p(x)
  }

  ghost predicate AllItems(entries: seq<Entry<Tree>>, p: Tree -> bool) {
    forall i :: 0 <= i < |entries| ==> ItemsAre(entries[i].value, p)
  }

  /** What the nodes a call writes need for a property of all implementation nodes to survive it. */
  ghost predicate Closed(p: Tree -> bool, op: Op)
    requires WellFormedOp(op)
  {
    && (op.AddImpl? ==> p(BuildImpl(op.impl.(packetID := NormPacketID(op.impl.packetID)), op.keys)))
    && (op.UpdateImplementation? ==> forall x :: p(x) ==> p(UpdateImpl(x, op.structName, op.min, op.max)))
  }

  lemma SetKeepsItems(t: Tree, field: string, v: Tree)
    requires Whole(t) && field != "implementations"
    ensures Whole(SetField(t, field, v)) && (Regular(t) ==> Regular(SetField(t, field, v)))
    ensures ImplsSeq(SetField(t, field, v)) == ImplsSeq(t)
  {
    SetFieldWhole(t, field, v);
    if Regular(t) { SetFieldRegular(t, field, v); }
    LookupSetField(t, field, v, "implementations");
  }

  lemma SetImplsItems(t: Tree, items: seq<Tree>)
    requires Whole(t)
    ensures Whole(SetImpls(t, items)) && (Regular(t) ==> Regular(SetImpls(t, items)))
    ensures ImplsSeq(SetImpls(t, items)).kids == items
  {
    var v := ImplsSeq(t).(kids := items);
    SetFieldWhole(t, "implementations", v);
    if Regular(t) { SetFieldRegular(t, "implementations", v); }
    LookupSetField(t, "implementations", v, "implementations");
  }

  lemma WithImplsSeqItems(t: Tree)
    requires Whole(t)
    ensures Whole(WithImplsSeq(t)) && (Regular(t) ==> Regular(WithImplsSeq(t)))
    ensures ImplsSeq(WithImplsSeq(t)).kids == ImplsSeq(t).kids
  {
    SetImplsItems(t, ImplsSeq(t).kids);
    assert ImplsSeq(t).(kids := ImplsSeq(t).kids) == ImplsSeq(t);
  }

  lemma MetadataItems(t: Tree, description: Option<string>, openkoreName: Option<string>)
    requires Whole(t)
    ensures var t' := MetadataTree(t, description, openkoreName);
            Whole(t') && (Regular(t) ==> Regular(t')) && ImplsSeq(t').kids == ImplsSeq(t).kids
  {
    var m := AsMapping(t);
    assert Whole(m) && (Regular(t) ==> Regular(m)) && ImplsSeq(m).kids == ImplsSeq(t).kids;
    var d := if description.Some? then SetField(m, "description", Str(description.value)) else m;
    if description.Some? { SetKeepsItems(m, "description", Str(description.value)); }
    if openkoreName.Some? { SetKeepsItems(d, "openkore_name", Str(openkoreName.value)); }
  }

  lemma RenamedItems(t: Tree, oldName: string, newName: string)
    requires Whole(t)
    ensures var t' := RenamedInner(t, oldName, newName);
            Whole(t') && (Regular(t) ==> Regular(t')) && ImplsSeq(t') == ImplsSeq(t)
  {
    SetKeepsItems(t, "name", Str(newName));
  }

  lemma EditKeepsItems(t: Tree, op: Op, p: Tree -> bool)
    requires op.UpdateMetadata? || op.AddImpl? || op.UpdateImplementation? || op.DeleteImpl?
    requires WellFormedOp(op) && Whole(t) && ItemsAre(t, p) && Closed(p, op)
    ensures Whole(EditTree(t, op).0) && (Regular(t) ==> Regular(EditTree(t, op).0)) && ItemsAre(EditTree(t, op).0, p)
  {
    var items := ImplsSeq(t).kids;
    match op
    case UpdateMetadata(_, description, openkoreName) => MetadataItems(t, description, openkoreName);
    case AddImpl(_, impl, keys) =>
      SetImplsItems(t, items + [BuildImpl(impl.(packetID := NormPacketID(impl.packetID)), keys)]);
    case UpdateImplementation(_, packetID, structName, min, max) =>
      match FindImpl(items, NormPacketID(packetID), 0) {
        case None => WithImplsSeqItems(t);
        case Some(i) => SetImplsItems(t, items[i := UpdateImpl(items[i], structName, min, max)]);
      }
    case DeleteImpl(_, packetID) =>
      match FindImpl(items, NormPacketID(packetID), 0) {
        case None => WithImplsSeqItems(t);
        case Some(i) => SetImplsItems(t, items[..i] + items[i + 1..]);
      }
  }

  lemma BuiltActionItems(name: string, description: string, openkoreName: string)
    ensures Regular(BuildAction(name, description, openkoreName))
    ensures ImplsSeq(BuildAction(name, description, openkoreName)).kids == []
  {
    BuiltActionRegular(name, description, openkoreName);
    assert BuildAction(name, description, openkoreName).kids[8].value == "implementations";
    FindIs(BuildAction(name, description, openkoreName), "implementations", 8);
  }

  ghost predicate WholeActions(entries: seq<Entry<Tree>>) {
    forall i :: 0 <= i < |entries| ==> Whole(entries[i].value)
  }

  /** The property holds of all implementation nodes; actions are whole, or, on request, without repeated keys. */
  ghost predicate AllKeep(entries: seq<Entry<Tree>>, regular: bool, p: Tree -> bool) {
    WholeActions(entries) && (regular ==> RegularActions(entries)) && AllItems(entries, p)
  }

  lemma ReplacedKeeps(entries: seq<Entry<Tree>>, i: nat, key: string, t: Tree, regular: bool, p: Tree -> bool)
    requires AllKeep(entries, regular, p) && i < |entries| && Whole(t) && (regular ==> Regular(t)) && ItemsAre(t, p)
    ensures AllKeep(entries[i := Entry(key, t)], regular, p)
  {
  }

  lemma RemovedKeeps(entries: seq<Entry<Tree>>, i: nat, regular: bool, p: Tree -> bool)
    requires AllKeep(entries, regular, p) && i < |entries|
    ensures AllKeep(entries[..i] + entries[i + 1..], regular, p)
  {
  }

  lemma AppendedKeeps(entries: seq<Entry<Tree>>, key: string, t: Tree, regular: bool, p: Tree -> bool)
    requires AllKeep(entries, regular, p) && Whole(t) && (regular ==> Regular(t)) && ItemsAre(t, p)
    ensures AllKeep(entries + [Entry(key, t)], regular, p)
  {
  }

  /** One call keeps whole actions, actions without repeated keys, and any closed property of implementation nodes. */
  lemma StepKeepsItems(entries: seq<Entry<Tree>>, op: Op, regular: bool, p: Tree -> bool)
    requires WellFormedOp(op) && AllKeep(entries, regular, p) && Closed(p, op)
    ensures AllKeep(Step(entries, op).0, regular, p)
  {
    match op
    case Create(name, description, openkoreName) =>
      BuiltActionItems(name, description, openkoreName);
      AppendedKeeps(entries, name, BuildAction(name, description, openkoreName), regular, p);
    case Delete(name) =>
      match IndexOf(entries, name) {
        case None =>
        case Some(i) => RemovedKeeps(entries, i, regular, p);
      }
    case Rename(oldName, newName) =>
      match IndexOf(entries, oldName) {
        case None =>
        case Some(i) =>
          RenamedItems(entries[i].value, oldName, newName);
          ReplacedKeeps(entries, i, newName, RenamedInner(entries[i].value, oldName, newName), regular, p);
      }
    case _ => EditStepKeepsItems(entries, op, regular, p);
  }

  lemma EditStepKeepsItems(entries: seq<Entry<Tree>>, op: Op, regular: bool, p: Tree -> bool)
    requires op.UpdateMetadata? || op.AddImpl? || op.UpdateImplementation? || op.DeleteImpl?
    requires WellFormedOp(op) && AllKeep(entries, regular, p) && Closed(p, op)
    ensures AllKeep(Step(entries, op).0, regular, p)
  {
    match IndexOf(entries, op.name)
    case None =>
    case Some(i) =>
      EditKeepsItems(entries[i].value, op, p);
      ReplacedKeeps(entries, i, op.name, EditTree(entries[i].value, op).0, regular, p);
  }

  // ---------- runs ----------

  ghost predicate WellFormedOps(ops: seq<Op>) {
    forall i :: 0 <= i < |ops| ==> WellFormedOp(ops[i])
  }

  ghost function Run(entries: seq<Entry<Tree>>, ops: seq<Op>): seq<Entry<Tree>>
    requires WellFormedOps(ops)
  {
    if ops == [] then entries
    else
      assert WellFormedOp(ops[|ops| - 1]);
      Step(Run(entries, ops[..|ops| - 1]), ops[|ops| - 1]).0
  }

  ghost function AbstractRun(items: seq<Item>, ops: seq<Op>): seq<Item> {
    if ops == [] then items else AbstractStep(AbstractRun(items, ops[..|ops| - 1]), ops[|ops| - 1]).0
  }

  lemma TidyIs(entries: seq<Entry<Tree>>)
    ensures Tidy(entries) <==> AllKeep(entries, true, Regular)
  {
    forall i | 0 <= i < |entries|
      ensures TidyAction(entries[i].value) <==> Regular(entries[i].value) && ItemsAre(entries[i].value, Regular)
    {
      TidyItemsAre(entries[i].value);
    }
  }

  lemma TidyItemsAre(t: Tree)
    ensures TidyItems(ImplsSeq(t).kids) <==> ItemsAre(t, Regular)
  {
    var items := ImplsSeq(t).kids;
    if ItemsAre(t, Regular) {
      forall i | 0 <= i < |items| ensures Regular(items[i]) { assert items[i] in items; }
    }
  }

  lemma RegularIsClosed(op: Op)
    requires WellFormedOp(op)
    ensures Closed(Regular, op)
  {
    if op.AddImpl? { BuiltIsRegular(op.impl.(packetID := NormPacketID(op.impl.packetID)), op.keys); }
    if op.UpdateImplementation? {
      forall x | Regular(x) ensures Regular(UpdateImpl(x, op.structName, op.min, op.max)) {
        UpdateWrites(x, op.structName, op.min, op.max);
      }
    }
  }

  lemma StepKeepsTidy(entries: seq<Entry<Tree>>, op: Op)
    requires Tidy(entries) && WellFormedOp(op)
    ensures Tidy(Step(entries, op).0)
  {
    TidyIs(entries);
    RegularIsClosed(op);
    StepKeepsItems(entries, op, true, Regular);
    TidyIs(Step(entries, op).0);
  }

  /** Call `n` of the run meets its condition when it is made. */
  ghost predicate Meets(entries: seq<Entry<Tree>>, ops: seq<Op>, n: nat)
    requires WellFormedOps(ops) && n < |ops|
  {
    Preserves(Run(entries, ops[..n]), ops[n])
  }

  /**
   From any document without repeated keys, a run of successful and failed calls is a run on
   the ordered map, as long as each call meets its condition when it is made.
   */
  lemma {:induction false} RunRefines(entries: seq<Entry<Tree>>, ops: seq<Op>)
    requires Tidy(entries) && WellFormedOps(ops) && forall n :: 0 <= n < |ops| ==> Meets(entries, ops, n)
    ensures Tidy(Run(entries, ops)) && View(Run(entries, ops)) == AbstractRun(View(entries), ops)
  {
    if ops != [] {
      var n := |ops| - 1;
      forall m | 0 <= m < n ensures Meets(entries, ops[..n], m) {
        assert Meets(entries, ops, m) && ops[..n][..m] == ops[..m];
      }
      RunRefines(entries, ops[..n]);
      assert WellFormedOp(ops[n]) && Meets(entries, ops, n);
      StepKeepsTidy(Run(entries, ops[..n]), ops[n]);
      StepRefines(Run(entries, ops[..n]), ops[n]);
    }
  }

  // ---------- documents the editor writes ----------

  /** A two-element range with readable bounds. */
  predicate ProperRange(t: Tree) {
    t.kind == Sequence && |t.kids| == 2 && RangeItem(t.kids[0]).Some? && RangeItem(t.kids[1]).Some?
  }

  /** No repeated keys, an id that is a plain scalar, and a range, if any, of two readable bounds. */
  ghost predicate ProperImpl(t: Tree) {
    && Regular(t) && PlainID(t)
    && (match Lookup(t, "packetver_range") case Some(v) => ProperRange(v) case None => true)
  }

  ghost predicate Proper(entries: seq<Entry<Tree>>) {
    AllKeep(entries, true, ProperImpl)
  }

  lemma ProperUpdate(t: Tree, structName: Option<string>, min: Option<int>, max: Option<int>)
    requires ProperImpl(t)
    ensures ProperImpl(UpdateImpl(t, structName, min, max))
  {
    var named := if structName.Some? then SetField(t, "struct_name", Str(structName.value)) else t;
    if structName.Some? {
      SetFieldRegular(t, "struct_name", Str(structName.value));
      LookupSetField(t, "struct_name", Str(structName.value), "packet_id");
      LookupSetField(t, "struct_name", Str(structName.value), "packetver_range");
    }
    if min.Some? || max.Some? {
      var lo, hi := min.GetOr(CurrentRange(named).0), max.GetOr(CurrentRange(named).1);
      SetFieldRegular(named, "packetver_range", RangeNode(lo, hi));
      LookupSetField(named, "packetver_range", RangeNode(lo, hi), "packet_id");
      LookupSetField(named, "packetver_range", RangeNode(lo, hi), "packetver_range");
      RangeReadsBack(lo, hi);
      RangeReadsBack(hi, lo);
    }
  }

  lemma ProperBuilt(i: Implementation, keys: seq<string>)
    requires forall k :: k in keys ==> k in i.fieldMapping
    ensures ProperImpl(BuildImpl(i, keys))
  {
    BuiltIsRegular(i, keys);
    RangeReadsBack(i.packetverMin, i.packetverMax);
    RangeReadsBack(i.packetverMax, i.packetverMin);
  }

  lemma ProperIsClosed(op: Op)
    requires WellFormedOp(op)
    ensures Closed(ProperImpl, op)
  {
    if op.AddImpl? { ProperBuilt(op.impl.(packetID := NormPacketID(op.impl.packetID)), op.keys); }
    if op.UpdateImplementation? {
      forall x | ProperImpl(x) ensures ProperImpl(UpdateImpl(x, op.structName, op.min, op.max)) {
        ProperUpdate(x, op.structName, op.min, op.max);
      }
    }
  }

  lemma ProperKeepsBounds(t: Tree)
    requires ProperImpl(t)
    ensures LowerKept(t) && UpperKept(t)
  {
    ImplReads(t);
  }

  lemma ProperIsTidy(t: Tree)
    requires Regular(t) && ItemsAre(t, ProperImpl)
    ensures TidyAction(t) && forall k :: 0 <= k < |ImplsSeq(t).kids| ==> ProperImpl(ImplsSeq(t).kids[k])
  {
    var items := ImplsSeq(t).kids;
    forall k | 0 <= k < |items| ensures ProperImpl(items[k]) { assert items[k] in items; }
  }

  /** On such documents every call meets its condition. */
  lemma ProperMeets(entries: seq<Entry<Tree>>, op: Op)
    requires Proper(entries)
    ensures Tidy(entries) && Preserves(entries, op)
  {
    forall i | 0 <= i < |entries| ensures TidyAction(entries[i].value) { ProperIsTidy(entries[i].value); }
    if Target(entries, op).Some? && (op.UpdateImplementation? || op.DeleteImpl?) {
      var t := Target(entries, op).value;
      ProperTarget(t, op);
    }
  }

  lemma ProperTarget(t: Tree, op: Op)
    requires Regular(t) && ItemsAre(t, ProperImpl) && (op.UpdateImplementation? || op.DeleteImpl?)
    ensures KeptFor(t, op)
  {
    var items, want := ImplsSeq(t).kids, NormPacketID(op.packetID);
    ProperIsTidy(t);
    PlainIsAlike(items, want);
    match FindImpl(items, want, 0)
    case None =>
    case Some(i) => ProperKeepsBounds(items[i]);
  }

  /** From a document the editor writes, every run is a run on the ordered map. */
  lemma {:induction false} EditorRunRefines(entries: seq<Entry<Tree>>, ops: seq<Op>)
    requires Proper(entries) && WellFormedOps(ops)
    ensures Proper(Run(entries, ops)) && View(Run(entries, ops)) == AbstractRun(View(entries), ops)
  {
    if ops != [] {
      var n := |ops| - 1;
      EditorRunRefines(entries, ops[..n]);
      assert WellFormedOp(ops[n]);
      ProperMeets(Run(entries, ops[..n]), ops[n]);
      StepRefines(Run(entries, ops[..n]), ops[n]);
      ProperIsClosed(ops[n]);
      StepKeepsItems(Run(entries, ops[..n]), ops[n], true, ProperImpl);
    }
  }

  // ---------- unique names and ids ----------

  /** Nonempty packet ids are unique within the action. */
  ghost predicate UniqueIDs(impls: seq<Implementation>) {
    forall i, j :: 0 <= i < j < |impls| && impls[i].packetID != "" ==> impls[i].packetID != impls[j].packetID
  }

  /** Action keys are distinct, and packet ids are within each action, as the loader reads them. */
  ghost predicate Sound(items: seq<Item>) {
    DistinctKeys(items) && forall i :: 0 <= i < |items| ==> UniqueIDs(items[i].value.implementations)
  }

  /** Every mapping has whole pairs: repeated keys, missing ids and odd ranges are all allowed here. */
  ghost predicate Loose(entries: seq<Entry<Tree>>) {
    AllKeep(entries, false, Whole)
  }

  lemma UpdateKeepsID(t: Tree, structName: Option<string>, min: Option<int>, max: Option<int>)
    requires Whole(t)
    ensures Whole(UpdateImpl(t, structName, min, max))
    ensures ParseImpl(UpdateImpl(t, structName, min, max)).packetID == ParseImpl(t).packetID
  {
    var m := AsMapping(t);
    var named := if structName.Some? then SetField(m, "struct_name", Str(structName.value)) else m;
    if structName.Some? { SetFieldOther(m, "struct_name", Str(structName.value), "packet_id"); }
    if min.Some? || max.Some? {
      SetFieldOther(named, "packetver_range",
                    RangeNode(min.GetOr(CurrentRange(named).0), max.GetOr(CurrentRange(named).1)), "packet_id");
    }
    assert LastOf(UpdateImpl(t, structName, min, max), "packet_id") == LastOf(t, "packet_id");
    ImplLast(t);
    ImplLast(UpdateImpl(t, structName, min, max));
  }

  lemma WholeIsClosed(op: Op)
    requires WellFormedOp(op)
    ensures Closed(Whole, op)
  {
    if op.AddImpl? { BuiltIsRegular(op.impl.(packetID := NormPacketID(op.impl.packetID)), op.keys); }
    if op.UpdateImplementation? {
      forall x | Whole(x) ensures Whole(UpdateImpl(x, op.structName, op.min, op.max)) {
        UpdateKeepsID(x, op.structName, op.min, op.max);
      }
    }
  }

  lemma ImplementationsRead(key: string, t: Tree)
    ensures ParseAction(key, t).implementations ==
            match LastOf(t, "implementations") case Some(v) => ParseImpls(v) case None => []
  {
    ActionLast(key, t);
  }

  /**
   Writing the implementations of an action changes what is read of them to the new ones, or,
   where the key is repeated, not at all.
   */
  lemma SetImplsRead(key: string, t: Tree, items: seq<Tree>)
    requires Whole(t)
    ensures ParseAction(key, SetImpls(t, items)).implementations ==
            if AtMostOnce(t, "implementations") then Parsed(items) else ParseAction(key, t).implementations
    ensures AtMostOnce(t, "implementations") ==> ParseAction(key, t).implementations == Parsed(ImplsSeq(t).kids)
  {
    var v := ImplsSeq(t).(kids := items);
    SetFieldLast(t, "implementations", v);
    ImplementationsRead(key, t);
    ImplementationsRead(key, SetImpls(t, items));
    assert ParseImpls(v) == Parsed(items);
    ExistingIs(t);
  }

  lemma AddKeepsUnique(items: seq<Tree>, impl: Implementation, keys: seq<string>)
    requires Lists(keys, impl.fieldMapping) && UniqueIDs(Parsed(items))
    requires !HasID(Parsed(items), NormPacketID(impl.packetID))
    ensures UniqueIDs(Parsed(items + [BuildImpl(impl.(packetID := NormPacketID(impl.packetID)), keys)]))
  {
    var id, built := NormPacketID(impl.packetID), BuildImpl(impl.(packetID := NormPacketID(impl.packetID)), keys);
    BuiltReads(impl, keys);
    ParsedPieces(items, [built], 0);
    assert Parsed([built])[0].packetID == id;
    assert forall k :: 0 <= k < |items| ==> Parsed(items)[k].packetID != id;
  }

  lemma ReplaceKeepsUnique(impls: seq<Implementation>, i: nat, x: Implementation)
    requires UniqueIDs(impls) && i < |impls| && x.packetID == impls[i].packetID
    ensures UniqueIDs(impls[i := x])
  {
  }

  lemma RemoveKeepsUnique(items: seq<Tree>, i: nat)
    requires UniqueIDs(Parsed(items)) && i < |items|
    ensures UniqueIDs(Parsed(items[..i] + items[i + 1..]))
  {
    var less := items[..i] + items[i + 1..];
    forall k | 0 <= k < |less| ensures Parsed(less)[k] == Parsed(items)[if k < i then k else k + 1] {}
  }

  lemma UpdateKeepsUnique(items: seq<Tree>, i: nat, structName: Option<string>, min: Option<int>, max: Option<int>)
    requires UniqueIDs(Parsed(items)) && i < |items| && Whole(items[i])
    ensures UniqueIDs(Parsed(items[i := UpdateImpl(items[i], structName, min, max)]))
  {
    var x := UpdateImpl(items[i], structName, min, max);
    UpdateKeepsID(items[i], structName, min, max);
    ReplaceKeepsUnique(Parsed(items), i, ParseImpl(x));
    assert Parsed(items[i := x]) == Parsed(items)[i := ParseImpl(x)];
  }

  lemma MetadataKeepsUnique(key: string, t: Tree, description: Option<string>, openkoreName: Option<string>)
    requires Whole(t)
    ensures ParseAction(key, MetadataTree(t, description, openkoreName)).implementations ==
            ParseAction(key, t).implementations
  {
    var m := AsMapping(t);
    var d := if description.Some? then SetField(m, "description", Str(description.value)) else m;
    if description.Some? { SetFieldOther(m, "description", Str(description.value), "implementations"); }
    if openkoreName.Some? { SetFieldOther(d, "openkore_name", Str(openkoreName.value), "implementations"); }
    assert LastOf(m, "implementations") == LastOf(t, "implementations");
    ImplementationsRead(key, t);
    ImplementationsRead(key, MetadataTree(t, description, openkoreName));
  }

  lemma AddedKeepUnique(t: Tree, impl: Implementation, keys: seq<string>)
    requires Lists(keys, impl.fieldMapping) && Whole(t) && UniqueIDs(Parsed(ImplsSeq(t).kids))
    ensures UniqueIDs(Parsed(ImplsSeq(AddToAction(t, impl, keys).0).kids))
  {
    var items := ImplsSeq(t).kids;
    ExistingIs(t);
    if !HasID(Existing(t), NormPacketID(impl.packetID)) {
      AddKeepsUnique(items, impl, keys);
      SetImplsItems(t, items + [BuildImpl(impl.(packetID := NormPacketID(impl.packetID)), keys)]);
    }
  }

  lemma UpdatedKeepUnique(t: Tree, packetID: string, structName: Option<string>, min: Option<int>, max: Option<int>)
    requires Whole(t) && ItemsAre(t, Whole) && UniqueIDs(Parsed(ImplsSeq(t).kids))
    ensures UniqueIDs(Parsed(ImplsSeq(UpdateInAction(t, packetID, structName, min, max).0).kids))
  {
    var items := ImplsSeq(t).kids;
    match FindImpl(items, NormPacketID(packetID), 0)
    case None => WithImplsSeqItems(t);
    case Some(i) =>
      assert items[i] in items;
      UpdateKeepsUnique(items, i, structName, min, max);
      SetImplsItems(t, items[i := UpdateImpl(items[i], structName, min, max)]);
  }

  lemma DeletedKeepUnique(t: Tree, packetID: string)
    requires Whole(t) && UniqueIDs(Parsed(ImplsSeq(t).kids))
    ensures UniqueIDs(Parsed(ImplsSeq(DeleteFromAction(t, packetID).0).kids))
  {
    var items := ImplsSeq(t).kids;
    match FindImpl(items, NormPacketID(packetID), 0)
    case None => WithImplsSeqItems(t);
    case Some(i) =>
      RemoveKeepsUnique(items, i);
      SetImplsItems(t, items[..i] + items[i + 1..]);
  }

  /** The items a call leaves have unique ids, as read, if they had before. */
  lemma ItemsKeepUnique(t: Tree, op: Op)
    requires op.AddImpl? || op.UpdateImplementation? || op.DeleteImpl?
    requires WellFormedOp(op) && Whole(t) && ItemsAre(t, Whole) && UniqueIDs(Parsed(ImplsSeq(t).kids))
    ensures UniqueIDs(Parsed(ImplsSeq(EditTree(t, op).0).kids))
  {
    match op
    case AddImpl(_, impl, keys) => AddedKeepUnique(t, impl, keys);
    case UpdateImplementation(_, packetID, structName, min, max) =>
      UpdatedKeepUnique(t, packetID, structName, min, max);
    case DeleteImpl(_, packetID) => DeletedKeepUnique(t, packetID);
  }

  /** These three calls write the implementations node, or nothing. */
  lemma EditSetsImpls(t: Tree, op: Op) returns (items: seq<Tree>)
    requires op.AddImpl? || op.UpdateImplementation? || op.DeleteImpl?
    requires WellFormedOp(op)
    ensures EditTree(t, op).0 == t || EditTree(t, op).0 == SetImpls(t, items)
  {
    items := ImplsSeq(t).kids;
    assert WithImplsSeq(t) == SetImpls(t, items);
    match op
    case AddImpl(_, impl, keys) => items := items + [BuildImpl(impl.(packetID := NormPacketID(impl.packetID)), keys)];
    case UpdateImplementation(_, packetID, structName, min, max) =>
      match FindImpl(items, NormPacketID(packetID), 0) {
        case None =>
        case Some(i) => items := items[i := UpdateImpl(items[i], structName, min, max)];
      }
    case DeleteImpl(_, packetID) =>
      match FindImpl(items, NormPacketID(packetID), 0) {
        case None =>
        case Some(i) => items := items[..i] + items[i + 1..];
      }
  }

  /** What is read from the edited action has unique ids if what was read before has. */
  lemma EditKeepsUnique(t: Tree, op: Op)
    requires op.UpdateMetadata? || op.AddImpl? || op.UpdateImplementation? || op.DeleteImpl?
    requires WellFormedOp(op) && Whole(t) && ItemsAre(t, Whole) && UniqueIDs(ParseAction(op.name, t).implementations)
    ensures UniqueIDs(ParseAction(op.name, EditTree(t, op).0).implementations)
  {
    if op.UpdateMetadata? {
      MetadataKeepsUnique(op.name, t, op.newDescription, op.newOpenkoreName);
    } else {
      var items := EditSetsImpls(t, op);
      SetImplsRead(op.name, t, items);
      SetImplsItems(t, items);
      if AtMostOnce(t, "implementations") { ItemsKeepUnique(t, op); }
    }
  }

  lemma SoundReplaced(items: seq<Item>, i: nat, e: Item)
    requires Sound(items) && i < |items| && UniqueIDs(e.value.implementations)
    requires e.key == items[i].key || IndexOf(items, e.key) == None
    ensures Sound(items[i := e])
  {
  }

  lemma StepKeepsSound(entries: seq<Entry<Tree>>, op: Op)
    requires Loose(entries) && WellFormedOp(op) && Sound(View(entries))
    ensures Sound(View(Step(entries, op).0))
  {
    match op
    case Create(name, description, openkoreName) =>
      ListKeepsSound(View(entries), op);
      CreateStepRefines(entries, name, description, openkoreName);
    case Delete(name) =>
      ListKeepsSound(View(entries), op);
      DeleteStepRefines(entries, name);
    case Rename(oldName, newName) => RenameStepKeepsSound(entries, oldName, newName);
    case _ => EditStepKeepsSound(entries, op);
  }

  lemma ListKeepsSound(items: seq<Item>, op: Op)
    requires Sound(items) && (op.Create? || op.Delete?)
    ensures Sound(AbstractStep(items, op).0)
  {
  }

  lemma RenameStepKeepsSound(entries: seq<Entry<Tree>>, oldName: string, newName: string)
    requires Loose(entries) && Sound(View(entries))
    ensures Sound(View(Step(entries, Rename(oldName, newName)).0))
  {
    PositionAgrees(entries, newName);
    match IndexOf(entries, oldName)
    case None =>
    case Some(i) =>
      var t, t' := entries[i].value, RenamedInner(entries[i].value, oldName, newName);
      RenameKeepsImplementations(t, oldName, newName);
      assert View(entries)[i] == Entry(oldName, ParseAction(oldName, t));
      ViewReplaced(entries, i, newName, t');
      if IndexOf(entries, newName) == None {
        SoundReplaced(View(entries), i, Entry(newName, ParseAction(newName, t')));
      }
  }

  lemma RenameKeepsImplementations(t: Tree, oldName: string, newName: string)
    requires Whole(t)
    ensures ParseAction(newName, RenamedInner(t, oldName, newName)).implementations ==
            ParseAction(oldName, t).implementations
  {
    SetFieldOther(t, "name", Str(newName), "implementations");
    ImplementationsRead(oldName, t);
    ImplementationsRead(newName, RenamedInner(t, oldName, newName));
  }

  lemma EditStepKeepsSound(entries: seq<Entry<Tree>>, op: Op)
    requires op.UpdateMetadata? || op.AddImpl? || op.UpdateImplementation? || op.DeleteImpl?
    requires Loose(entries) && WellFormedOp(op) && Sound(View(entries))
    ensures Sound(View(Step(entries, op).0))
  {
    match IndexOf(entries, op.name)
    case None =>
    case Some(i) =>
      var t := EditTree(entries[i].value, op).0;
      assert View(entries)[i] == Entry(op.name, ParseAction(op.name, entries[i].value));
      EditKeepsUnique(entries[i].value, op);
      ViewReplaced(entries, i, op.name, t);
      SoundReplaced(View(entries), i, Entry(op.name, ParseAction(op.name, t)));
  }

  /**
   Any run on any document, whatever repeated keys, ids and ranges it meets, keeps action keys
   distinct and packet ids unique within each action.
   */
  lemma {:induction false} RunKeepsSound(entries: seq<Entry<Tree>>, ops: seq<Op>)
    requires Loose(entries) && WellFormedOps(ops) && Sound(View(entries))
    ensures Loose(Run(entries, ops)) && Sound(View(Run(entries, ops)))
  {
    if ops != [] {
      var n := |ops| - 1;
      RunKeepsSound(entries, ops[..n]);
      assert WellFormedOp(ops[n]);
      StepKeepsSound(Run(entries, ops[..n]), ops[n]);
      WholeIsClosed(ops[n]);
      StepKeepsItems(Run(entries, ops[..n]), ops[n], false, Whole);
    }
  }

  // ---------- calls that fail ----------

  lemma SameView(entries: seq<Entry<Tree>>, i: nat, t: Tree)
    requires i < |entries| && ParseAction(entries[i].key, t) == ParseAction(entries[i].key, entries[i].value)
    ensures View(entries[i := Entry(entries[i].key, t)]) == View(entries)
  {
  }

  /**
   A call that fails leaves what the loader reads as it was, although it may insert or
   convert the implementations node: on any document, repeated keys and odd ranges included.
   */
  lemma FailureChangesNothing(entries: seq<Entry<Tree>>, op: Op)
    requires WellFormedOp(op) && Step(entries, op).1.Some?
    requires WholeActions(entries)
    ensures View(Step(entries, op).0) == View(entries)
  {
    match Target(entries, op)
    case None =>
    case Some(t) =>
      var i := IndexOf(entries, op.name).value;
      WithImplsSeqReads(op.name, t);
      SameView(entries, i, t);
      SameView(entries, i, WithImplsSeq(t));
  }

  // ---------- calls that undo each other ----------

  /** A successful add leaves the new node after the old ones. */
  lemma AddLeaves(t: Tree, impl: Implementation, keys: seq<string>)
    requires Whole(t) && Lists(keys, impl.fieldMapping) && AddToAction(t, impl, keys).1 == None
    ensures var norm := impl.(packetID := NormPacketID(impl.packetID));
            var added := AddToAction(t, impl, keys).0;
            && Whole(added) && (Regular(t) ==> Regular(added))
            && ImplsSeq(added).kids == ImplsSeq(t).kids + [BuildImpl(norm, keys)]
  {
    SetImplsItems(t, ImplsSeq(t).kids + [BuildImpl(impl.(packetID := NormPacketID(impl.packetID)), keys)]);
  }

  /** A delete takes out the first node with the id. */
  lemma DeleteLeaves(t: Tree, packetID: string, f: nat)
    requires Whole(t) && FindImpl(ImplsSeq(t).kids, NormPacketID(packetID), 0) == Some(f)
    ensures DeleteFromAction(t, packetID).1 == None
    ensures ImplsSeq(DeleteFromAction(t, packetID).0).kids == ImplsSeq(t).kids[..f] + ImplsSeq(t).kids[f + 1..]
  {
    SetImplsItems(t, ImplsSeq(t).kids[..f] + ImplsSeq(t).kids[f + 1..]);
  }

  /** The new node has the id for the editor and for the loader. */
  lemma BuiltIDs(impl: Implementation, keys: seq<string>)
    requires Lists(keys, impl.fieldMapping)
    ensures var id := NormPacketID(impl.packetID);
            var built := BuildImpl(impl.(packetID := id), keys);
            NodeID(built) == Some(id) && ParseImpl(built).packetID == id
  {
    var norm := impl.(packetID := NormPacketID(impl.packetID));
    BuiltReads(impl, keys);
    BuiltIsRegular(norm, keys);
    NormIdempotent(impl.packetID);
  }

  /** Taking out the first match of a list that ends in one leaves what came before exactly when it is the last. */
  lemma RemovedIsFront<T>(items: seq<T>, x: T, f: nat)
    requires f <= |items| && x !in items
    ensures (items + [x])[..f] + (items + [x])[f + 1..] == items <==> f == |items|
  {
    var less := (items + [x])[..f] + (items + [x])[f + 1..];
    if f < |items| { assert less[|items| - 1] == x && items[|items| - 1] in items; }
  }

  /** No node has the id for the editor. */
  predicate Absent(items: seq<Tree>, id: string) {
    forall k :: 0 <= k < |items| ==> NodeID(items[k]) != Some(id)
  }

  lemma FoundLast(items: seq<Tree>, x: Tree, id: string)
    requires NodeID(x) == Some(id)
    ensures FindImpl(items + [x], id, 0).Some?
    ensures FindImpl(items + [x], id, 0) == Some(|items|) <==> Absent(items, id)
  {
    var more := items + [x];
    assert more[|items|] == x;
    var f := FindImpl(more, id, 0).value;
    if f == |items| {
      forall k | 0 <= k < |items| ensures NodeID(items[k]) != Some(id) { assert more[k] == items[k]; }
    } else {
      assert more[f] == items[f];
    }
  }

  /**
   Deleting an implementation just added, by any spelling of its id, succeeds. It restores
   the list exactly when no older node has the id for the editor: one whose id is null, or
   not a scalar, passes the duplicate check, is found first, and is the one deleted.
   */
  lemma AddThenDelete(t: Tree, impl: Implementation, keys: seq<string>, packetID: string)
    requires Whole(t) && Lists(keys, impl.fieldMapping) && AddToAction(t, impl, keys).1 == None
    requires NormPacketID(packetID) == NormPacketID(impl.packetID)
    ensures var (back, err) := DeleteFromAction(AddToAction(t, impl, keys).0, packetID);
            && err == None
            && (ImplsSeq(back).kids == ImplsSeq(t).kids <==> Absent(ImplsSeq(t).kids, NormPacketID(impl.packetID)))
  {
    var items, id := ImplsSeq(t).kids, NormPacketID(impl.packetID);
    var built := BuildImpl(impl.(packetID := id), keys);
    AddLeaves(t, impl, keys);
    BuiltIDs(impl, keys);
    FoundLast(items, built, id);
    DeleteLeaves(AddToAction(t, impl, keys).0, packetID, FindImpl(items + [built], id, 0).value);
    ExistingIs(t);
    NotThere(items, built, id);
    RemovedIsFront(items, built, FindImpl(items + [built], id, 0).value);
  }

  lemma NotThere(items: seq<Tree>, x: Tree, id: string)
    requires !HasID(Parsed(items), id) && ParseImpl(x).packetID == id
    ensures x !in items
  {
    forall k | 0 <= k < |items| ensures items[k] != x { assert Parsed(items)[k] == ParseImpl(items[k]); }
  }

  /** What the loader reads after adding and deleting, if the deleted node is the one at `f`. */
  lemma AddDeleteReads(key: string, t: Tree, impl: Implementation, keys: seq<string>, packetID: string, f: nat)
    requires Regular(t) && Lists(keys, impl.fieldMapping) && AddToAction(t, impl, keys).1 == None
    requires NormPacketID(packetID) == NormPacketID(impl.packetID) && f <= |ImplsSeq(t).kids|
    requires FindImpl(ImplsSeq(AddToAction(t, impl, keys).0).kids, NormPacketID(packetID), 0) == Some(f)
    ensures var more := Parsed(ImplsSeq(t).kids) + [impl.(packetID := NormPacketID(impl.packetID))];
            ParseAction(key, DeleteFromAction(AddToAction(t, impl, keys).0, packetID).0) ==
            ParseAction(key, t).(implementations := more[..f] + more[f + 1..])
  {
    var added := AddToAction(t, impl, keys).0;
    AddLeaves(t, impl, keys);
    AddRefines(key, t, impl, keys);
    ItemsAreImplementations(key, t);
    ItemsAreImplementations(key, added);
    DeleteTreeReads(key, added, packetID);
  }

  /** The same, as the loader reads the action. */
  lemma AddThenDeleteReads(key: string, t: Tree, impl: Implementation, keys: seq<string>, packetID: string)
    requires Regular(t) && Lists(keys, impl.fieldMapping) && AddToAction(t, impl, keys).1 == None
    requires NormPacketID(packetID) == NormPacketID(impl.packetID)
    ensures ParseAction(key, DeleteFromAction(AddToAction(t, impl, keys).0, packetID).0) == ParseAction(key, t) <==>
            Absent(ImplsSeq(t).kids, NormPacketID(impl.packetID))
  {
    var items, id := ImplsSeq(t).kids, NormPacketID(impl.packetID);
    var built := BuildImpl(impl.(packetID := id), keys);
    AddLeaves(t, impl, keys);
    BuiltIDs(impl, keys);
    FoundLast(items, built, id);
    var f := FindImpl(items + [built], id, 0).value;
    AddDeleteReads(key, t, impl, keys, packetID, f);
    ItemsAreImplementations(key, t);
    NotRead(Parsed(items), impl.(packetID := id));
    RemovedIsFront(Parsed(items), impl.(packetID := id), f);
  }

  lemma NotRead(impls: seq<Implementation>, x: Implementation)
    requires !HasID(impls, x.packetID)
    ensures x !in impls
  {
    forall k | 0 <= k < |impls| ensures impls[k] != x {}
  }

  // ---------- calls that undo each other on the ordered map ----------

  lemma {:induction false} FindLast(impls: seq<Implementation>, id: string, i: nat)
    requires i < |impls| && impls[|impls| - 1].packetID == id
    requires forall k :: i <= k < |impls| - 1 ==> impls[k].packetID != id
    ensures FindID(impls, id, i) == Some(|impls| - 1)
    decreases |impls| - i
  {
    if i < |impls| - 1 { FindLast(impls, id, i + 1); }
  }

  /** There, adding an implementation and deleting it by any spelling of its id always restores the action. */
  lemma TypedAddThenDelete(a: Action, name: string, impl: Implementation, keys: seq<string>, packetID: string)
    requires EditAction(a, AddImpl(name, impl, keys)).1 == None
    requires NormPacketID(packetID) == NormPacketID(impl.packetID)
    ensures EditAction(EditAction(a, AddImpl(name, impl, keys)).0, DeleteImpl(name, packetID)) == (a, None)
  {
    var id := NormPacketID(impl.packetID);
    var more := EditAction(a, AddImpl(name, impl, keys)).0.implementations;
    assert forall k :: 0 <= k < |a.implementations| ==> a.implementations[k].packetID != id;
    FindLast(more, id, 0);
    assert more[..|more| - 1] + more[|more|..] == a.implementations;
  }

  /**
   Renaming there and back restores key, position and implementations, and restores the
   whole item exactly when its name was not already the temporary one.
   */
  lemma RenameThereAndBack(items: seq<Item>, a: string, b: string)
    requires DistinctKeys(items) && a != b && TrimSpace(a) != ""
    requires AbstractStep(items, Rename(a, b)).1 == None
    ensures var i := IndexOf(items, a).value;
            var (back, err) := AbstractStep(AbstractStep(items, Rename(a, b)).0, Rename(b, a));
            && err == None && |back| == |items| && (forall k :: 0 <= k < |items| && k != i ==> back[k] == items[k])
            && back[i].key == a && back[i].value.implementations == items[i].value.implementations
            && (back == items <==> items[i].value.name != b)
  {
    var i := IndexOf(items, a).value;
    var there := AbstractStep(items, Rename(a, b)).0;
    assert there[i].key == b && forall k :: 0 <= k < |there| && k != i ==> there[k] == items[k] && there[k].key != b;
    assert IndexOf(there, b) == Some(i);
    assert IndexOf(there, a) == None;
    var back := AbstractStep(there, Rename(b, a)).0;
    assert back[i].value == Renamed(Renamed(items[i].value, a, b), b, a);
    if items[i].value.name != b { assert back == items; }
  }

  /** An action whose inner name already is the temporary one comes back with another name. */
  lemma RenameNotUndone(a: string, b: string)
    requires a != b && TrimSpace(a) != "" && TrimSpace(b) != ""
    ensures var items := [Entry(a, Action(b, "", "", []))];
            var there := AbstractStep(items, Rename(a, b));
            there.1 == None && AbstractStep(there.0, Rename(b, a)).0 == [Entry(a, Action(a, "", "", []))]
  {
    var items := [Entry(a, Action(b, "", "", []))];
    assert IndexOf(items, a) == Some(0) && IndexOf(items, b) == None;
    RenameThereAndBack(items, a, b);
    var there := AbstractStep(items, Rename(a, b)).0;
    assert there == [Entry(b, Action(b, "", "", []))];
    assert IndexOf(there, b) == Some(0) && IndexOf(there, a) == None;
  }
}
