/** The database as an ordered map of typed actions, and the proof that the tree edits implement it. */
module SemanticRefinement {
  import opened Words
  import opened Strings
  import opened SemanticModel
  import opened SemanticLaws

  // ---------- the abstract operations ----------

  type Item = Entry<Action>

  function View(entries: seq<Entry<Tree>>): seq<Item> {
    seq(|entries|, i requires 0 <= i < |entries| =>
      Entry(entries[i].key, ParseAction(entries[i].key, entries[i].value)))
  }

  function FindID(impls: seq<Implementation>, id: string, i: nat): (r: Option<nat>)
    requires i <= |impls|
    ensures r.Some? ==> i <= r.value < |impls| && impls[r.value].packetID == id
    ensures forall k :: i <= k < (if r.Some? then r.value else |impls|) ==> impls[k].packetID != id
    decreases |impls| - i
  {
    if i == |impls| then None else if impls[i].packetID == id then Some(i) else FindID(impls, id, i + 1)
  }

  function Updated(i: Implementation, structName: Option<string>, min: Option<int>, max: Option<int>): Implementation {
    i.(structName := structName.GetOr(i.structName), packetverMin := min.GetOr(i.packetverMin),
       packetverMax := max.GetOr(i.packetverMax))
  }

  function EditAction(a: Action, op: Op): (Action, Option<DbError>) {
    match op
    case UpdateMetadata(_, description, openkoreName) =>
      (a.(description := description.GetOr(a.description), openkoreName := openkoreName.GetOr(a.openkoreName)), None)
    case AddImpl(_, impl, _) =>
      var norm := impl.(packetID := NormPacketID(impl.packetID));
      if HasID(a.implementations, norm.packetID) then (a, Some(ImplExists))
      else (a.(implementations := a.implementations + [norm]), None)
    case UpdateImplementation(_, packetID, structName, min, max) =>
      (match FindID(a.implementations, NormPacketID(packetID), 0)
       case None => (a, Some(ImplNotFound))
       case Some(i) =>
         (a.(implementations := a.implementations[i := Updated(a.implementations[i], structName, min, max)]), None))
    case DeleteImpl(_, packetID) =>
      (match FindID(a.implementations, NormPacketID(packetID), 0)
       case None => (a, Some(ImplNotFound))
       case Some(i) => (a.(implementations := a.implementations[..i] + a.implementations[i + 1..]), None))
    case _ => (a, None)
  }

  function BlankError(op: Op): Option<DbError> {
    if op.Create? && TrimSpace(op.name) == "" then Some(EmptyActionName)
    else if op.Rename? && TrimSpace(op.newName) == "" then Some(EmptyActionName)
    else if op.AddImpl? && TrimSpace(op.impl.packetID) == "" then Some(EmptyPacketID)
    else if op.AddImpl? && TrimSpace(op.impl.structName) == "" then Some(EmptyStructName)
    else None
  }

  /** One operation on the ordered map. A failed operation changes nothing. */
  function AbstractStep(items: seq<Item>, op: Op): (seq<Item>, Option<DbError>) {
    if BlankError(op).Some? then (items, BlankError(op))
    else match op
      case Create(name, description, openkoreName) =>
        if IndexOf(items, name).Some? then (items, Some(ActionExists))
        else (items + [Entry(name, Action(name, description, openkoreName, []))], None)
      case Delete(name) =>
        (match IndexOf(items, name)
         case None => (items, Some(ActionNotFound))
         case Some(i) => (items[..i] + items[i + 1..], None))
      case Rename(oldName, newName) =>
        if oldName == newName then (items, None)
        else (match IndexOf(items, oldName)
              case None => (items, Some(ActionNotFound))
              case Some(i) =>
                if IndexOf(items, newName).Some? then (items, Some(ActionExists))
                else (items[i := Entry(newName, Renamed(items[i].value, oldName, newName))], None))
      case _ =>
        (match IndexOf(items, op.name)
         case None => (items, Some(ActionNotFound))
         case Some(i) =>
           var (a, err) := EditAction(items[i].value, op);
           (items[i := Entry(op.name, a)], err))
  }

  /** The shown name follows the key only if it mirrored it. */
  function Renamed(a: Action, oldName: string, newName: string): Action {
    if a.name == oldName then a.(name := newName) else a
  }

  // ---------- documents without repeated keys ----------

  ghost predicate TidyItems(items: seq<Tree>) {
    forall i :: 0 <= i < |items| ==> Regular(items[i])
  }

  ghost predicate TidyAction(t: Tree) {
    Regular(t) && TidyItems(ImplsSeq(t).kids)
  }

  /** No action and no implementation repeats a key, as yaml requires of a mapping. */
  ghost predicate Tidy(entries: seq<Entry<Tree>>) {
    forall i :: 0 <= i < |entries| ==> TidyAction(entries[i].value)
  }

  ghost predicate RegularActions(entries: seq<Entry<Tree>>) {
    forall i :: 0 <= i < |entries| ==> Regular(entries[i].value)
  }

  // ---------- one implementation ----------

  /** The range is a two-element sequence whose first bound is readable. */
  predicate HasLowerBound(t: Tree) {
    match Lookup(t, "packetver_range")
    case Some(r) => r.kind == Sequence && |r.kids| == 2 && RangeItem(r.kids[0]).Some?
    case None => false
  }

  /** Writing the range back leaves its lower bound as it reads. */
  predicate LowerKept(t: Tree) {
    ParseImpl(t).packetverMin == 0 || HasLowerBound(t)
  }

  /**
   The same for the upper bound. The loader takes the second readable value, the editor the
   second of exactly two: they differ on longer ranges, and on pairs with an unreadable first.
   */
  predicate UpperKept(t: Tree) {
    match Lookup(t, "packetver_range")
    case None => true
    case Some(r) =>
      if r.kind == Sequence && |r.kids| == 2
      then RangeItem(r.kids[0]).Some? || RangeItem(r.kids[1]).GetOr(0) == 0
      else ParseRange(r).1 == 0
  }

  /** An update that sets one bound needs the other to survive; setting both or none needs nothing. */
  predicate BoundsKept(t: Tree, min: Option<int>, max: Option<int>) {
    (min == None && max == None) || ((min.Some? || LowerKept(t)) && (max.Some? || UpperKept(t)))
  }

  lemma PairReads(r: Tree)
    requires r.kind == Sequence && |r.kids| == 2
    ensures ParseRange(r) ==
            match (RangeItem(r.kids[0]), RangeItem(r.kids[1]))
            case (Some(a), Some(b)) => (a, b)
            case (Some(a), None) => (a, 0)
            case (None, Some(b)) => (b, 0)
            case (None, None) => (0, 0)
  {
    assert r.kids[..1] == [r.kids[0]] && [r.kids[0]][..0] == [];
    assert RangeValues(r.kids[..1]) == if RangeItem(r.kids[0]).Some? then [RangeItem(r.kids[0]).value] else [];
  }

  /** When the editor's reading of the range is the loader's. */
  lemma CurrentIsParsed(t: Tree)
    requires Regular(t)
    ensures CurrentRange(t).0 == ParseImpl(t).packetverMin <==> LowerKept(t)
    ensures CurrentRange(t).1 == ParseImpl(t).packetverMax <==> UpperKept(t)
  {
    ImplReads(t);
    match Lookup(t, "packetver_range")
    case None =>
    case Some(r) => if r.kind == Sequence && |r.kids| == 2 { PairReads(r); }
  }

  lemma NameReads(t: Tree, name: string)
    requires Regular(t)
    ensures var t' := SetField(t, "struct_name", Str(name));
            && Regular(t') && ParseImpl(t') == ParseImpl(t).(structName := name)
            && Lookup(t', "packetver_range") == Lookup(t, "packetver_range")
  {
    var t' := SetField(t, "struct_name", Str(name));
    SetFieldRegular(t, "struct_name", Str(name));
    LookupSetField(t, "struct_name", Str(name), "packet_id");
    LookupSetField(t, "struct_name", Str(name), "struct_name");
    LookupSetField(t, "struct_name", Str(name), "packetver_range");
    LookupSetField(t, "struct_name", Str(name), "field_mapping");
    ImplReads(t);
    ImplReads(t');
  }

  lemma BoundsRead(t: Tree, min: int, max: int)
    requires Regular(t)
    ensures var t' := SetField(t, "packetver_range", RangeNode(min, max));
            Regular(t') && ParseImpl(t') == ParseImpl(t).(packetverMin := min, packetverMax := max)
  {
    var r := RangeNode(min, max);
    var t' := SetField(t, "packetver_range", r);
    SetFieldRegular(t, "packetver_range", r);
    LookupSetField(t, "packetver_range", r, "packet_id");
    LookupSetField(t, "packetver_range", r, "struct_name");
    LookupSetField(t, "packetver_range", r, "packetver_range");
    LookupSetField(t, "packetver_range", r, "field_mapping");
    RangeReadsBack(min, max);
    ImplReads(t);
    ImplReads(t');
  }

  /** What an update makes of an implementation: unset bounds are those the editor recovers. */
  function Written(t: Tree, structName: Option<string>, min: Option<int>, max: Option<int>): Implementation {
    var i := ParseImpl(t).(structName := structName.GetOr(ParseImpl(t).structName));
    if min == None && max == None then i
    else i.(packetverMin := min.GetOr(CurrentRange(t).0), packetverMax := max.GetOr(CurrentRange(t).1))
  }

  lemma UpdateWrites(t: Tree, structName: Option<string>, min: Option<int>, max: Option<int>)
    requires Regular(t)
    ensures Regular(UpdateImpl(t, structName, min, max))
    ensures ParseImpl(UpdateImpl(t, structName, min, max)) == Written(t, structName, min, max)
  {
    NameWritten(t, structName);
    var m := AsMapping(t);
    var named := if structName.Some? then SetField(m, "struct_name", Str(structName.value)) else m;
    if min.Some? || max.Some? { BoundsRead(named, min.GetOr(CurrentRange(t).0), max.GetOr(CurrentRange(t).1)); }
  }

  lemma NameWritten(t: Tree, structName: Option<string>)
    requires Regular(t)
    ensures var m := AsMapping(t);
            var named := if structName.Some? then SetField(m, "struct_name", Str(structName.value)) else m;
            && Regular(named) && CurrentRange(named) == CurrentRange(t)
            && ParseImpl(named) == ParseImpl(t).(structName := structName.GetOr(ParseImpl(t).structName))
  {
    var m := AsMapping(t);
    assert ParseImpl(m) == ParseImpl(t) && Regular(m) && Lookup(m, "packetver_range") == Lookup(t, "packetver_range");
    if structName.Some? { NameReads(m, structName.value); }
  }

  /** The fields given are set, and the others left, exactly when the bounds left unset survive. */
  lemma UpdateReads(t: Tree, structName: Option<string>, min: Option<int>, max: Option<int>)
    requires Regular(t)
    ensures ParseImpl(UpdateImpl(t, structName, min, max)) == Updated(ParseImpl(t), structName, min, max) <==>
            BoundsKept(t, min, max)
  {
    UpdateWrites(t, structName, min, max);
    CurrentIsParsed(t);
  }

  /**
   Changing only the upper bound is meant to leave the lower one untouched. It does exactly
   when the lower bound reads as 0 or the stored range has two elements and a readable first.
   */
  lemma LowerBoundKept(t: Tree, max: int)
    requires Regular(t)
    ensures ParseImpl(UpdateImpl(t, None, None, Some(max))).packetverMin == ParseImpl(t).packetverMin <==> LowerKept(t)
  {
    UpdateWrites(t, None, None, Some(max));
    CurrentIsParsed(t);
  }

  /** And changing only the lower bound leaves the upper one untouched exactly under `UpperKept`. */
  lemma UpperBoundKept(t: Tree, min: int)
    requires Regular(t)
    ensures ParseImpl(UpdateImpl(t, None, Some(min), None)).packetverMax == ParseImpl(t).packetverMax <==> UpperKept(t)
  {
    UpdateWrites(t, None, Some(min), None);
    CurrentIsParsed(t);
  }

  lemma BuiltReads(impl: Implementation, keys: seq<string>)
    requires Lists(keys, impl.fieldMapping)
    ensures var norm := impl.(packetID := NormPacketID(impl.packetID));
            Regular(BuildImpl(norm, keys)) && ParseImpl(BuildImpl(norm, keys)) == norm
  {
    var norm := impl.(packetID := NormPacketID(impl.packetID));
    NormIdempotent(impl.packetID);
    BuiltIsRegular(norm, keys);
    BuildThenParse(norm, keys);
  }

  // ---------- the implementations of an action ----------

  function Parsed(items: seq<Tree>): seq<Implementation> {
    seq(|items|, i requires 0 <= i < |items| => ParseImpl(items[i]))
  }

  lemma ExistingIs(t: Tree)
    ensures Existing(t) == Parsed(ImplsSeq(t).kids)
  {
  }

  /** Replacing the items of the implementations sequence changes what is read for it alone. */
  lemma SetImplsReads(key: string, t: Tree, items: seq<Tree>)
    requires Regular(t)
    ensures Regular(SetImpls(t, items)) && ImplsSeq(SetImpls(t, items)).kids == items
    ensures ParseAction(key, SetImpls(t, items)) == ParseAction(key, t).(implementations := Parsed(items))
  {
    var v := ImplsSeq(t).(kids := items);
    var t' := SetImpls(t, items);
    SetFieldRegular(t, "implementations", v);
    LookupSetField(t, "implementations", v, "name");
    LookupSetField(t, "implementations", v, "description");
    LookupSetField(t, "implementations", v, "openkore_name");
    LookupSetField(t, "implementations", v, "implementations");
    ActionReads(key, t);
    ActionReads(key, t');
    assert ParseImpls(v) == Parsed(items);
  }

  /** Inserting or converting the sequence is invisible to the loader, repeated keys or not. */
  lemma WithImplsSeqReads(key: string, t: Tree)
    requires Whole(t)
    ensures ParseAction(key, WithImplsSeq(t)) == ParseAction(key, t)
  {
    var v := ImplsSeq(t);
    SetFieldOther(t, "implementations", v, "name");
    SetFieldOther(t, "implementations", v, "description");
    SetFieldOther(t, "implementations", v, "openkore_name");
    SetFieldLast(t, "implementations", v);
    ActionLast(key, t);
    ActionLast(key, WithImplsSeq(t));
  }

  // ---------- one action ----------

  /** What an action's implementations are, as items and as read. */
  lemma ItemsAreImplementations(key: string, t: Tree)
    requires Regular(t)
    ensures ParseAction(key, t).implementations == Existing(t) == Parsed(ImplsSeq(t).kids)
  {
    ActionReads(key, t);
    ExistingIs(t);
  }

  lemma AddRefines(key: string, t: Tree, impl: Implementation, keys: seq<string>)
    requires Regular(t) && Lists(keys, impl.fieldMapping)
    ensures var (t', err) := AddToAction(t, impl, keys);
            (ParseAction(key, t'), err) == EditAction(ParseAction(key, t), AddImpl(key, impl, keys))
  {
    var norm := impl.(packetID := NormPacketID(impl.packetID));
    var items := ImplsSeq(t).kids;
    ItemsAreImplementations(key, t);
    BuiltReads(impl, keys);
    ParsedPieces(items, [BuildImpl(norm, keys)], 0);
    assert Parsed([BuildImpl(norm, keys)]) == [norm];
    SetImplsReads(key, t, items + [BuildImpl(norm, keys)]);
  }

  /** The abstract edits of one implementation, in terms of the items. */
  lemma EditsFound(a: Action, items: seq<Tree>, key: string, packetID: string,
                   structName: Option<string>, min: Option<int>, max: Option<int>)
    requires a.implementations == Parsed(items)
    ensures var found := FindID(Parsed(items), NormPacketID(packetID), 0);
            && EditAction(a, UpdateImplementation(key, packetID, structName, min, max)) ==
               (match found
                case None => (a, Some(ImplNotFound))
                case Some(i) =>
                  (a.(implementations := Parsed(items)[i := Updated(Parsed(items)[i], structName, min, max)]), None))
            && EditAction(a, DeleteImpl(key, packetID)) ==
               (match found
                case None => (a, Some(ImplNotFound))
                case Some(i) => (a.(implementations := Parsed(items)[..i] + Parsed(items)[i + 1..]), None))
  {
  }

  /** What an update does to what is read. */
  lemma UpdateTreeReads(key: string, t: Tree, packetID: string, structName: Option<string>, min: Option<int>,
                        max: Option<int>)
    requires Regular(t)
    ensures ParseAction(key, UpdateInAction(t, packetID, structName, min, max).0) ==
            var items := ImplsSeq(t).kids;
            match FindImpl(items, NormPacketID(packetID), 0)
            case None => ParseAction(key, t)
            case Some(i) => ParseAction(key, t).(
              implementations := Parsed(items)[i := ParseImpl(UpdateImpl(items[i], structName, min, max))])
  {
    var items := ImplsSeq(t).kids;
    match FindImpl(items, NormPacketID(packetID), 0)
    case None => WithImplsSeqReads(key, t);
    case Some(i) =>
      var item := UpdateImpl(items[i], structName, min, max);
      assert Parsed(items[i := item]) == Parsed(items)[i := ParseImpl(item)];
      SetImplsReads(key, t, items[i := item]);
  }

  /**
   An update of the item the editor finds reads as one of the implementation the loader finds.
   If that is the same, the bounds left unset must survive; if not, neither may change anything.
   */
  ghost predicate UpdateKept(items: seq<Tree>, e: Option<nat>, l: Option<nat>, structName: Option<string>,
                             min: Option<int>, max: Option<int>)
    requires (e.Some? ==> e.value < |items|) && (l.Some? ==> l.value < |items|)
  {
    if e.Some? && e == l then BoundsKept(items[e.value], min, max)
    else
      && (e.Some? ==> Written(items[e.value], structName, min, max) == ParseImpl(items[e.value]))
      && (l.Some? ==> Updated(ParseImpl(items[l.value]), structName, min, max) == ParseImpl(items[l.value]))
  }

  /** The list with one element replaced, if a place was found. */
  function Replaced<T>(xs: seq<T>, at: Option<nat>, x: T): seq<T>
    requires at.Some? ==> at.value < |xs|
  {
    if at.Some? then xs[at.value := x] else xs
  }

  lemma ReplacedElsewhere<T>(xs: seq<T>, e: Option<nat>, x: T, l: Option<nat>, y: T)
    requires (e.Some? ==> e.value < |xs|) && (l.Some? ==> l.value < |xs|) && e != l
    ensures Replaced(xs, e, x) == Replaced(xs, l, y) <==>
            (e.Some? ==> xs[e.value] == x) && (l.Some? ==> xs[l.value] == y)
  {
    if Replaced(xs, e, x) == Replaced(xs, l, y) {
      if e.Some? { assert Replaced(xs, e, x)[e.value] == x && Replaced(xs, l, y)[e.value] == xs[e.value]; }
      if l.Some? { assert Replaced(xs, l, y)[l.value] == y && Replaced(xs, e, x)[l.value] == xs[l.value]; }
    }
  }

  lemma UpdateRefines(key: string, t: Tree, packetID: string, structName: Option<string>, min: Option<int>,
                      max: Option<int>)
    requires TidyAction(t)
    ensures var op := UpdateImplementation(key, packetID, structName, min, max);
            var items, want := ImplsSeq(t).kids, NormPacketID(packetID);
            ParseAction(key, UpdateInAction(t, packetID, structName, min, max).0) ==
            EditAction(ParseAction(key, t), op).0 <==>
            UpdateKept(items, FindImpl(items, want, 0), FindID(Parsed(items), want, 0), structName, min, max)
  {
    var a, items, want := ParseAction(key, t), ImplsSeq(t).kids, NormPacketID(packetID);
    var e, l := FindImpl(items, want, 0), FindID(Parsed(items), want, 0);
    ItemsAreImplementations(key, t);
    UpdateTreeReads(key, t, packetID, structName, min, max);
    EditsFound(a, items, key, packetID, structName, min, max);
    UpdatedListsAgree(items, e, l, structName, min, max);
  }

  lemma UpdatedListsAgree(items: seq<Tree>, e: Option<nat>, l: Option<nat>, structName: Option<string>,
                          min: Option<int>, max: Option<int>)
    requires TidyItems(items) && (e.Some? ==> e.value < |items|) && (l.Some? ==> l.value < |items|)
    ensures var impls := Parsed(items);
            (if e.Some? then impls[e.value := ParseImpl(UpdateImpl(items[e.value], structName, min, max))]
             else impls) ==
            (if l.Some? then impls[l.value := Updated(impls[l.value], structName, min, max)] else impls) <==>
            UpdateKept(items, e, l, structName, min, max)
  {
    var impls := Parsed(items);
    var x := if e.Some? then ParseImpl(UpdateImpl(items[e.value], structName, min, max)) else NO_IMPLEMENTATION;
    var y := if l.Some? then Updated(impls[l.value], structName, min, max) else NO_IMPLEMENTATION;
    if e.Some? {
      UpdateWrites(items[e.value], structName, min, max);
      UpdateReads(items[e.value], structName, min, max);
    }
    if e.Some? && e == l {
      ReplacedAt(impls, e.value, x, y);
    } else if e != l {
      ReplacedElsewhere(impls, e, x, l, y);
    }
  }

  lemma ReplacedAt<T>(xs: seq<T>, i: nat, x: T, y: T)
    requires i < |xs|
    ensures xs[i := x] == xs[i := y] <==> x == y
  {
    assert xs[i := x][i] == x && xs[i := y][i] == y;
  }

  lemma ParsedPieces(xs: seq<Tree>, ys: seq<Tree>, i: nat)
    requires i <= |xs|
    ensures Parsed(xs[..i]) == Parsed(xs)[..i] && Parsed(xs[i..]) == Parsed(xs)[i..]
    ensures Parsed(xs + ys) == Parsed(xs) + Parsed(ys)
  {
  }

  lemma DeleteTreeReads(key: string, t: Tree, packetID: string)
    requires Regular(t)
    ensures ParseAction(key, DeleteFromAction(t, packetID).0) ==
            var items := ImplsSeq(t).kids;
            match FindImpl(items, NormPacketID(packetID), 0)
            case None => ParseAction(key, t)
            case Some(i) => ParseAction(key, t).(implementations := Parsed(items)[..i] + Parsed(items)[i + 1..])
  {
    var items := ImplsSeq(t).kids;
    match FindImpl(items, NormPacketID(packetID), 0)
    case None => WithImplsSeqReads(key, t);
    case Some(i) =>
      ParsedPieces(items, [], i);
      ParsedPieces(items, [], i + 1);
      ParsedPieces(items[..i], items[i + 1..], 0);
      SetImplsReads(key, t, items[..i] + items[i + 1..]);
  }

  /** All the same, from one place to the other. */
  ghost predicate SameBetween<T(!new)>(xs: seq<T>, i: nat, j: nat)
    requires i < |xs| && j < |xs|
  {
    forall k :: (i <= k <= j || j <= k <= i) ==> xs[k] == xs[i]
  }

  lemma RemovedElsewhere<T>(xs: seq<T>, i: nat, j: nat)
    requires i <= j < |xs|
    ensures xs[..i] + xs[i + 1..] == xs[..j] + xs[j + 1..] <==> forall k :: i <= k <= j ==> xs[k] == xs[i]
  {
    var without, other := xs[..i] + xs[i + 1..], xs[..j] + xs[j + 1..];
    if without == other {
      forall k | i <= k < j ensures xs[k] == xs[k + 1] { assert without[k] == xs[k + 1] && other[k] == xs[k]; }
      AllSame(xs, i, j);
    }
    if forall k :: i <= k <= j ==> xs[k] == xs[i] {
      forall k | 0 <= k < |without| ensures without[k] == other[k] {
        if i <= k < j { assert without[k] == xs[k + 1] == xs[i] && other[k] == xs[k] == xs[i]; }
      }
    }
  }

  lemma {:induction false} AllSame<T>(xs: seq<T>, i: nat, j: nat)
    requires i <= j < |xs| && forall k :: i <= k < j ==> xs[k] == xs[k + 1]
    ensures forall k :: i <= k <= j ==> xs[k] == xs[i]
    decreases j
  {
    if i < j {
      AllSame(xs, i, j - 1);
      assert xs[j - 1] == xs[j - 1 + 1];
    }
  }

  /** A delete by the editor's place reads as one by the loader's: everything between them is the same. */
  ghost predicate DeleteKept(items: seq<Tree>, e: Option<nat>, l: Option<nat>)
    requires (e.Some? ==> e.value < |items|) && (l.Some? ==> l.value < |items|)
  {
    match (e, l)
    case (None, None) => true
    case (Some(i), Some(j)) => SameBetween(Parsed(items), i, j)
    case _ => false
  }

  lemma RemovedListsAgree(impls: seq<Implementation>, i: nat, j: nat)
    requires i < |impls| && j < |impls|
    ensures impls[..i] + impls[i + 1..] == impls[..j] + impls[j + 1..] <==> SameBetween(impls, i, j)
  {
    if i <= j { RemovedElsewhere(impls, i, j); } else { RemovedElsewhere(impls, j, i); }
  }

  lemma DeleteRefines(key: string, t: Tree, packetID: string)
    requires TidyAction(t)
    ensures var items, want := ImplsSeq(t).kids, NormPacketID(packetID);
            ParseAction(key, DeleteFromAction(t, packetID).0) ==
            EditAction(ParseAction(key, t), DeleteImpl(key, packetID)).0 <==>
            DeleteKept(items, FindImpl(items, want, 0), FindID(Parsed(items), want, 0))
  {
    var a, items, want := ParseAction(key, t), ImplsSeq(t).kids, NormPacketID(packetID);
    ItemsAreImplementations(key, t);
    DeleteTreeReads(key, t, packetID);
    EditsFound(a, items, key, packetID, None, None, None);
    match (FindImpl(items, want, 0), FindID(Parsed(items), want, 0))
    case (None, None) =>
    case (Some(i), Some(j)) => RemovedListsAgree(Parsed(items), i, j);
    case (Some(i), None) => assert |Parsed(items)[..i] + Parsed(items)[i + 1..]| == |items| - 1;
    case (None, Some(j)) => assert |Parsed(items)[..j] + Parsed(items)[j + 1..]| == |items| - 1;
  }

  lemma RenameRefines(t: Tree, oldName: string, newName: string)
    requires Regular(t) && newName != ""
    ensures Regular(RenamedInner(t, oldName, newName))
    ensures ParseAction(newName, RenamedInner(t, oldName, newName)) ==
            Renamed(ParseAction(oldName, t), oldName, newName)
  {
    ActionReads(oldName, t);
    ActionReads(newName, t);
    var inner := Lookup(t, "name");
    if inner.Some? && inner.value.value == oldName {
      SetNameReads(newName, t);
    }
  }

  lemma SetNameReads(name: string, t: Tree)
    requires Regular(t) && name != ""
    ensures var t' := SetField(t, "name", Str(name));
            Regular(t') && ParseAction(name, t') == ParseAction(name, t).(name := name)
  {
    var t' := SetField(t, "name", Str(name));
    SetFieldRegular(t, "name", Str(name));
    LookupSetField(t, "name", Str(name), "name");
    LookupSetField(t, "name", Str(name), "description");
    LookupSetField(t, "name", Str(name), "openkore_name");
    LookupSetField(t, "name", Str(name), "implementations");
    ActionReads(name, t);
    ActionReads(name, t');
  }

  lemma SetTextReads(key: string, t: Tree, field: string, text: string)
    requires Regular(t) && (field == "description" || field == "openkore_name")
    ensures var t' := SetField(t, field, Str(text));
            && Regular(t')
            && ParseAction(key, t') == if field == "description" then ParseAction(key, t).(description := text)
                                       else ParseAction(key, t).(openkoreName := text)
  {
    var t' := SetField(t, field, Str(text));
    SetFieldRegular(t, field, Str(text));
    LookupSetField(t, field, Str(text), "name");
    LookupSetField(t, field, Str(text), "description");
    LookupSetField(t, field, Str(text), "openkore_name");
    LookupSetField(t, field, Str(text), "implementations");
    ActionReads(key, t);
    ActionReads(key, t');
  }

  lemma AsMappingReads(key: string, t: Tree)
    requires Regular(t)
    ensures Regular(AsMapping(t)) && ParseAction(key, AsMapping(t)) == ParseAction(key, t)
  {
  }

  lemma MetadataRefines(key: string, t: Tree, description: Option<string>, openkoreName: Option<string>)
    requires Regular(t)
    ensures Regular(MetadataTree(t, description, openkoreName))
    ensures ParseAction(key, MetadataTree(t, description, openkoreName)) ==
            EditAction(ParseAction(key, t), UpdateMetadata(key, description, openkoreName)).0
  {
    AsMappingReads(key, t);
    var m := AsMapping(t);
    var d := if description.Some? then SetField(m, "description", Str(description.value)) else m;
    if description.Some? { SetTextReads(key, m, "description", description.value); }
    if openkoreName.Some? { SetTextReads(key, d, "openkore_name", openkoreName.value); }
  }

  lemma BuiltActionRegular(name: string, description: string, openkoreName: string)
    ensures Regular(BuildAction(name, description, openkoreName))
  {
    var t := BuildAction(name, description, openkoreName);
    assert t.kids[0].value == "name" && t.kids[2].value == "description" && t.kids[4].value == "openkore_name";
    assert t.kids[6].value == "canonical_params" && t.kids[8].value == "implementations";
    forall a, b | 0 <= a < b < |t.kids| && a % 2 == 0 && b % 2 == 0 ensures t.kids[a].value != t.kids[b].value {
      assert a == 0 || a == 2 || a == 4 || a == 6;
      assert b == 2 || b == 4 || b == 6 || b == 8;
    }
  }

  lemma BuildActionReads(name: string, description: string, openkoreName: string)
    requires name != ""
    ensures ParseAction(name, BuildAction(name, description, openkoreName)) ==
            Action(name, description, openkoreName, [])
  {
    var t := BuildAction(name, description, openkoreName);
    BuiltActionRegular(name, description, openkoreName);
    FindIs(t, "name", 0);
    FindIs(t, "description", 2);
    FindIs(t, "openkore_name", 4);
    FindIs(t, "implementations", 8);
    ActionReads(name, t);
  }

  // ---------- one operation, and a run ----------

  lemma {:induction false} PositionAgrees(entries: seq<Entry<Tree>>, key: string)
    ensures IndexOf(entries, key) == IndexOf(View(entries), key)
  {
    if entries != [] {
      var n := |entries| - 1;
      PositionAgrees(entries[..n], key);
      assert View(entries)[..n] == View(entries[..n]);
    }
  }

  /** The edit of one action's tree, for the four operations that make one. */
  function EditTree(t: Tree, op: Op): (Tree, Option<DbError>)
    requires op.UpdateMetadata? || op.AddImpl? || op.UpdateImplementation? || op.DeleteImpl?
    requires op.AddImpl? ==> forall k :: k in op.keys ==> k in op.impl.fieldMapping
  {
    match op
    case UpdateMetadata(_, description, openkoreName) => (MetadataTree(t, description, openkoreName), None)
    case AddImpl(_, impl, keys) => AddToAction(t, impl, keys)
    case UpdateImplementation(_, packetID, structName, min, max) => UpdateInAction(t, packetID, structName, min, max)
    case DeleteImpl(_, packetID) => DeleteFromAction(t, packetID)
  }

  /** What a call on this action needs for the loader to read from it what the ordered map says. */
  ghost predicate KeptFor(t: Tree, op: Op) {
    op.UpdateImplementation? || op.DeleteImpl? ==>
      var items, want := ImplsSeq(t).kids, NormPacketID(op.packetID);
      var e, l := FindImpl(items, want, 0), FindID(Parsed(items), want, 0);
      if op.DeleteImpl? then DeleteKept(items, e, l) else UpdateKept(items, e, l, op.structName, op.min, op.max)
  }

  lemma EditRefines(t: Tree, op: Op)
    requires op.UpdateMetadata? || op.AddImpl? || op.UpdateImplementation? || op.DeleteImpl?
    requires TidyAction(t) && WellFormedOp(op)
    ensures ParseAction(op.name, EditTree(t, op).0) == EditAction(ParseAction(op.name, t), op).0 <==> KeptFor(t, op)
    ensures op.UpdateMetadata? || op.AddImpl? ==> EditTree(t, op).1 == EditAction(ParseAction(op.name, t), op).1
  {
    match op
    case UpdateMetadata(name, description, openkoreName) => MetadataRefines(name, t, description, openkoreName);
    case AddImpl(name, impl, keys) => AddRefines(name, t, impl, keys);
    case UpdateImplementation(name, packetID, structName, min, max) =>
      UpdateRefines(name, t, packetID, structName, min, max);
    case DeleteImpl(name, packetID) => DeleteRefines(name, t, packetID);
  }

  /** The action this call goes to, if it goes to one. */
  function Target(entries: seq<Entry<Tree>>, op: Op): Option<Tree> {
    if op.Create? || op.Delete? || op.Rename? || BlankError(op).Some? then None
    else match IndexOf(entries, op.name)
      case Some(i) => Some(entries[i].value)
      case None => None
  }

  /** The same, for the action the call goes to. */
  ghost predicate Preserves(entries: seq<Entry<Tree>>, op: Op) {
    match Target(entries, op) case Some(t) => KeptFor(t, op) case None => true
  }

  lemma ViewReplaced(entries: seq<Entry<Tree>>, i: nat, key: string, t: Tree)
    requires i < |entries|
    ensures View(entries[i := Entry(key, t)]) == View(entries)[i := Entry(key, ParseAction(key, t))]
  {
  }

  lemma EditStepRefines(entries: seq<Entry<Tree>>, op: Op)
    requires op.UpdateMetadata? || op.AddImpl? || op.UpdateImplementation? || op.DeleteImpl?
    requires Tidy(entries) && WellFormedOp(op) && BlankError(op) == None
    ensures op.UpdateMetadata? || op.AddImpl? ==> Step(entries, op).1 == AbstractStep(View(entries), op).1
    ensures View(Step(entries, op).0) == AbstractStep(View(entries), op).0 <==> Preserves(entries, op)
  {
    PositionAgrees(entries, op.name);
    match IndexOf(entries, op.name)
    case None =>
    case Some(i) =>
      var (t, err) := EditTree(entries[i].value, op);
      EditRefines(entries[i].value, op);
      ViewReplaced(entries, i, op.name, t);
      ReplacedAt(View(entries), i, Entry(op.name, ParseAction(op.name, t)),
                 Entry(op.name, EditAction(View(entries)[i].value, op).0));
  }

  ghost predicate Refines(entries: seq<Entry<Tree>>, op: Op)
    requires op.AddImpl? ==> forall k :: k in op.keys ==> k in op.impl.fieldMapping
  {
    View(Step(entries, op).0) == AbstractStep(View(entries), op).0
  }

  lemma RenameStepRefines(entries: seq<Entry<Tree>>, oldName: string, newName: string)
    requires RegularActions(entries)
    ensures Refines(entries, Rename(oldName, newName))
    ensures Step(entries, Rename(oldName, newName)).1 == AbstractStep(View(entries), Rename(oldName, newName)).1
  {
    PositionAgrees(entries, oldName);
    PositionAgrees(entries, newName);
    match IndexOf(entries, oldName)
    case None =>
    case Some(i) =>
      if TrimSpace(newName) != "" && oldName != newName && IndexOf(entries, newName) == None {
        RenameRefines(entries[i].value, oldName, newName);
        ViewReplaced(entries, i, newName, RenamedInner(entries[i].value, oldName, newName));
      }
  }

  lemma CreateStepRefines(entries: seq<Entry<Tree>>, name: string, description: string, openkoreName: string)
    ensures Refines(entries, Create(name, description, openkoreName))
    ensures var op := Create(name, description, openkoreName); Step(entries, op).1 == AbstractStep(View(entries), op).1
  {
    PositionAgrees(entries, name);
    if TrimSpace(name) != "" && IndexOf(entries, name) == None {
      BuildActionReads(name, description, openkoreName);
      var e := Entry(name, BuildAction(name, description, openkoreName));
      assert View(entries + [e]) == View(entries) + View([e]);
    }
  }

  lemma DeleteStepRefines(entries: seq<Entry<Tree>>, name: string)
    ensures Refines(entries, Delete(name))
    ensures Step(entries, Delete(name)).1 == AbstractStep(View(entries), Delete(name)).1
  {
    PositionAgrees(entries, name);
    match IndexOf(entries, name)
    case None =>
    case Some(i) =>
      assert View(entries[..i] + entries[i + 1..]) == View(entries)[..i] + View(entries)[i + 1..];
  }

  /**
   A call does to the typed view what the abstract one says exactly when the editor and the
   loader agree on the implementation it is about and the bounds it leaves unset survive, or
   the difference cannot be seen.
   */
  lemma StepRefines(entries: seq<Entry<Tree>>, op: Op)
    requires Tidy(entries) && WellFormedOp(op)
    ensures Refines(entries, op) <==> Preserves(entries, op)
    ensures !op.UpdateImplementation? && !op.DeleteImpl? ==>
              Step(entries, op).1 == AbstractStep(View(entries), op).1
  {
    match op
    case Create(name, description, openkoreName) => CreateStepRefines(entries, name, description, openkoreName);
    case Delete(name) => DeleteStepRefines(entries, name);
    case Rename(oldName, newName) => RenameStepRefines(entries, oldName, newName);
    case _ => if BlankError(op) == None { EditStepRefines(entries, op); }
  }
}
