/**
 The semantic database as values: document trees, what the loader reads out of an action,
 and what each edit does to a tree.
 */
module SemanticModel {
  import opened Words
  import opened Strings

  datatype Kind = Document | Sequence | Mapping | Scalar | Alias

  /** A yaml node without its formatting. A mapping's kids alternate keys and values. */
  datatype Tree = Tree(kind: Kind, tag: string, value: string, kids: seq<Tree>)

  const NULL_TAG := "!!null"

  function Str(s: string): Tree {
    Tree(Scalar, "!!str", s, [])
  }

  datatype Implementation = Implementation(
    packetID: string, structName: string, packetverMin: int, packetverMax: int, fieldMapping: map<string, string>)

  datatype Action = Action(
    name: string, description: string, openkoreName: string, implementations: seq<Implementation>)

  const NO_IMPLEMENTATION := Implementation("", "", 0, 0, map[])

  // ---------- reading (db.go) ----------

  function ScalarString(t: Tree): string {
    if t.kind == Scalar && t.tag != NULL_TAG then t.value else ""
  }

  /** "0xABCD" with upper-case digits; blank stays empty. */
  function NormPacketID(s: string): string {
    var lower := ToLower(TrimSpace(s));
    if lower == "" then ""
    else if "0x" <= lower then "0x" + ToUpper(lower[2..])
    else "0x" + ToUpper(lower)
  }

  /** The number of key-value pairs a loop with `i+1 < len` visits. */
  function Pairs(kids: seq<Tree>): nat {
    |kids| / 2
  }

  /** One bound of a range: null is 0; a scalar that does not scan as an integer is unreadable. */
  function RangeItem(t: Tree): Option<int> {
    if t.tag == NULL_TAG then Some(0)
    else if t.kind != Scalar then None
    else ScanInt(TrimSpace(t.value))
  }

  /** The readable bounds, in order. */
  function RangeValues(kids: seq<Tree>): seq<int> {
    if kids == [] then []
    else
      var front := RangeValues(kids[..|kids| - 1]);
      match RangeItem(kids[|kids| - 1])
      case Some(n) => front + [n]
      case None => front
  }

  function ParseRange(t: Tree): (int, int) {
    if t.kind != Sequence then (0, 0)
    else
      var vals := RangeValues(t.kids);
      (if |vals| >= 1 then vals[0] else 0, if |vals| >= 2 then vals[1] else 0)
  }

  function FieldsFrom(kids: seq<Tree>, n: nat): map<string, string>
    requires 2 * n <= |kids|
  {
    if n == 0 then map[]
    else FieldsFrom(kids, n - 1)[ScalarString(kids[2 * n - 2]) := ScalarString(kids[2 * n - 1])]
  }

  function ParseFields(t: Tree): map<string, string> {
    if t.kind != Mapping then map[] else FieldsFrom(t.kids, Pairs(t.kids))
  }

  /** One key of an implementation node. */
  function ImplField(i: Implementation, key: string, v: Tree): Implementation {
    if key == "packet_id" then i.(packetID := NormPacketID(ScalarString(v)))
    else if key == "struct_name" then i.(structName := ScalarString(v))
    else if key == "packetver_range" then i.(packetverMin := ParseRange(v).0, packetverMax := ParseRange(v).1)
    else if key == "field_mapping" then i.(fieldMapping := ParseFields(v))
    else i
  }

  function ImplFrom(kids: seq<Tree>, n: nat): Implementation
    requires 2 * n <= |kids|
  {
    if n == 0 then NO_IMPLEMENTATION
    else ImplField(ImplFrom(kids, n - 1), kids[2 * n - 2].value, kids[2 * n - 1])
  }

  function ParseImpl(t: Tree): Implementation {
    if t.kind != Mapping then NO_IMPLEMENTATION else ImplFrom(t.kids, Pairs(t.kids))
  }

  function ParseImpls(t: Tree): seq<Implementation> {
    if t.kind != Sequence then []
    else seq(|t.kids|, i requires 0 <= i < |t.kids| => ParseImpl(t.kids[i]))
  }

  function ActionField(a: Action, key: string, v: Tree): Action {
    if key == "name" then a.(name := ScalarString(v))
    else if key == "description" then a.(description := ScalarString(v))
    else if key == "openkore_name" then a.(openkoreName := ScalarString(v))
    else if key == "implementations" then a.(implementations := ParseImpls(v))
    else a
  }

  function ActionFrom(name: string, kids: seq<Tree>, n: nat): Action
    requires 2 * n <= |kids|
  {
    if n == 0 then Action(name, "", "", [])
    else ActionField(ActionFrom(name, kids, n - 1), kids[2 * n - 2].value, kids[2 * n - 1])
  }

  function ParseAction(name: string, t: Tree): Action {
    if t.kind != Mapping then Action(name, "", "", [])
    else
      var a := ActionFrom(name, t.kids, Pairs(t.kids));
      if a.name == "" then a.(name := name) else a
  }

  // ---------- editing (mutate.go) ----------

  /** The index of the first key equal to `key` at or after the even index `i`. */
  function FindFrom(kids: seq<Tree>, key: string, i: nat): (r: Option<nat>)
    ensures r.Some? ==> i <= r.value && r.value + 1 < |kids| && kids[r.value].value == key && (r.value - i) % 2 == 0
    ensures forall k :: i <= k && k + 1 < |kids| && (k - i) % 2 == 0 && (r.Some? ==> k < r.value) ==>
            kids[k].value != key
    decreases |kids| - i
  {
    if i + 1 >= |kids| then None
    else if kids[i].value == key then Some(i)
    else FindFrom(kids, key, i + 2)
  }

  function FindKey(t: Tree, key: string): Option<nat> {
    if t.kind != Mapping then None else FindFrom(t.kids, key, 0)
  }

  function Lookup(t: Tree, key: string): Option<Tree> {
    match FindKey(t, key)
    case Some(i) => Some(t.kids[i + 1])
    case None => None
  }

  /** `ensureMappingNode`: anything else becomes an empty mapping. */
  function AsMapping(t: Tree): Tree {
    if t.kind == Mapping then t else Tree(Mapping, "!!map", "", [])
  }

  function SetField(t: Tree, key: string, v: Tree): Tree {
    var m := AsMapping(t);
    match FindKey(m, key)
    case Some(i) => m.(kids := m.kids[i + 1 := v])
    case None => m.(kids := m.kids + [Str(key), v])
  }

  /** `getImplsSeq`: anything else becomes an empty sequence (its scalar value is left alone). */
  function AsSequence(t: Tree): Tree {
    if t.kind == Sequence then t else Tree(Sequence, "!!seq", t.value, [])
  }

  const EMPTY_SEQ := Tree(Sequence, "!!seq", "", [])

  /** The implementations node after `getImplsSeq`. */
  function ImplsSeq(t: Tree): Tree {
    match Lookup(t, "implementations")
    case Some(v) => AsSequence(v)
    case None => EMPTY_SEQ
  }

  /** The action after `getImplsSeq` has inserted or converted that node. */
  function WithImplsSeq(t: Tree): Tree {
    SetField(t, "implementations", ImplsSeq(t))
  }

  function SetImpls(t: Tree, impls: seq<Tree>): Tree {
    SetField(t, "implementations", ImplsSeq(t).(kids := impls))
  }

  function RangeValue(v: int): Tree {
    if v == 0 then Tree(Scalar, NULL_TAG, "null", []) else Tree(Scalar, "!!int", FormatInt(v), [])
  }

  function RangeNode(min: int, max: int): Tree {
    Tree(Sequence, "!!seq", "", [RangeValue(min), RangeValue(max)])
  }

  function FieldKids(fields: map<string, string>, keys: seq<string>): seq<Tree>
    requires forall k :: k in keys ==> k in fields
  {
    if keys == [] then []
    else
      var k := keys[|keys| - 1];
      FieldKids(fields, keys[..|keys| - 1]) + [Str(k), Str(fields[k])]
  }

  /** The node built for an implementation, its field keys in the given order. */
  function BuildImpl(i: Implementation, keys: seq<string>): Tree
    requires forall k :: k in keys ==> k in i.fieldMapping
  {
    Tree(Mapping, "!!map", "",
         [Str("packet_id"), Str(i.packetID),
          Str("packetver_range"), RangeNode(i.packetverMin, i.packetverMax),
          Str("struct_name"), Str(i.structName),
          Str("field_mapping"), Tree(Mapping, "!!map", "", FieldKids(i.fieldMapping, keys))])
  }

  /** The node built for a new action. */
  function BuildAction(name: string, description: string, openkoreName: string): Tree {
    Tree(Mapping, "", "",
         [Str("name"), Str(name), Str("description"), Str(description), Str("openkore_name"), Str(openkoreName),
          Str("canonical_params"), EMPTY_SEQ, Str("implementations"), EMPTY_SEQ])
  }

  /** The id `findImplIndex` compares: that of the first packet_id key, if there is one. */
  function NodeID(item: Tree): Option<string> {
    match Lookup(item, "packet_id")
    case Some(v) => Some(NormPacketID(v.value))
    case None => None
  }

  function FindImpl(items: seq<Tree>, want: string, i: nat): (r: Option<nat>)
    requires i <= |items|
    ensures r.Some? ==> i <= r.value < |items| && NodeID(items[r.value]) == Some(want)
    ensures forall k :: i <= k < (if r.Some? then r.value else |items|) ==> NodeID(items[k]) != Some(want)
    decreases |items| - i
  {
    if i == |items| then None
    else if NodeID(items[i]) == Some(want) then Some(i)
    else FindImpl(items, want, i + 1)
  }

  /** `currentRange`: only a two-element sequence has bounds; an unreadable bound is 0. */
  function CurrentRange(item: Tree): (int, int) {
    match Lookup(item, "packetver_range")
    case None => (0, 0)
    case Some(r) =>
      if r.kind != Sequence || |r.kids| != 2 then (0, 0)
      else (RangeItem(r.kids[0]).GetOr(0), RangeItem(r.kids[1]).GetOr(0))
  }

  function UpdateImpl(item: Tree, structName: Option<string>, min: Option<int>, max: Option<int>): Tree {
    var m := AsMapping(item);
    var named := if structName.Some? then SetField(m, "struct_name", Str(structName.value)) else m;
    if min == None && max == None then named
    else
      var (curMin, curMax) := CurrentRange(named);
      SetField(named, "packetver_range", RangeNode(min.GetOr(curMin), max.GetOr(curMax)))
  }

  // ---------- the ordered map of actions ----------

  /** A key and what it maps to; a list of entries is an ordered map. */
  datatype Entry<V> = Entry(key: string, value: V)

  datatype DbError = ActionExists | ActionNotFound | ImplExists | ImplNotFound
                   | EmptyActionName | EmptyPacketID | EmptyStructName

  function IndexOf<V>(entries: seq<Entry<V>>, key: string): (r: Option<nat>)
    ensures r.Some? ==> r.value < |entries| && entries[r.value].key == key
    ensures forall k :: 0 <= k < (if r.Some? then r.value else |entries|) ==> entries[k].key != key
  {
    if entries == [] then None
    else match IndexOf(entries[..|entries| - 1], key)
      case Some(i) => Some(i)
      case None => if entries[|entries| - 1].key == key then Some(|entries| - 1) else None
  }

  ghost predicate DistinctKeys<V>(entries: seq<Entry<V>>) {
    forall i, j :: 0 <= i < j < |entries| ==> entries[i].key != entries[j].key
  }

  datatype Op =
    | Create(name: string, description: string, openkoreName: string)
    | Delete(name: string)
    | Rename(oldName: string, newName: string)
    | UpdateMetadata(name: string, newDescription: Option<string>, newOpenkoreName: Option<string>)
    | AddImpl(name: string, impl: Implementation, keys: seq<string>)
    | UpdateImplementation(
        name: string, packetID: string, structName: Option<string>, min: Option<int>, max: Option<int>)
    | DeleteImpl(name: string, packetID: string)

  /** The keys under which an added implementation lists its fields: all of them, once each. */
  ghost predicate Lists(keys: seq<string>, fields: map<string, string>) {
    && (forall k :: k in keys <==> k in fields)
    && forall i, j :: 0 <= i < j < |keys| ==> keys[i] != keys[j]
  }

  ghost predicate WellFormedOp(op: Op) {
    op.AddImpl? ==> Lists(op.keys, op.impl.fieldMapping)
  }

  function RenamedInner(t: Tree, oldName: string, newName: string): Tree {
    match Lookup(t, "name")
    case Some(inner) => if inner.value == oldName then SetField(t, "name", Str(newName)) else t
    case None => t
  }

  function MetadataTree(t: Tree, description: Option<string>, openkoreName: Option<string>): Tree {
    var m := AsMapping(t);
    var d := if description.Some? then SetField(m, "description", Str(description.value)) else m;
    if openkoreName.Some? then SetField(d, "openkore_name", Str(openkoreName.value)) else d
  }

  /** One call: the entries it leaves, and its error. An error can still leave an empty sequence behind. */
  function Step(entries: seq<Entry<Tree>>, op: Op): (seq<Entry<Tree>>, Option<DbError>)
    requires op.AddImpl? ==> forall k :: k in op.keys ==> k in op.impl.fieldMapping
  {
    match op
    case Create(name, description, openkoreName) =>
      if TrimSpace(name) == "" then (entries, Some(EmptyActionName))
      else if IndexOf(entries, name).Some? then (entries, Some(ActionExists))
      else (entries + [Entry(name, BuildAction(name, description, openkoreName))], None)
    case Delete(name) =>
      (match IndexOf(entries, name)
       case None => (entries, Some(ActionNotFound))
       case Some(i) => (entries[..i] + entries[i + 1..], None))
    case Rename(oldName, newName) =>
      if TrimSpace(newName) == "" then (entries, Some(EmptyActionName))
      else if oldName == newName then (entries, None)
      else (match IndexOf(entries, oldName)
            case None => (entries, Some(ActionNotFound))
            case Some(i) =>
              if IndexOf(entries, newName).Some? then (entries, Some(ActionExists))
              else (entries[i := Entry(newName, RenamedInner(entries[i].value, oldName, newName))], None))
    case UpdateMetadata(name, description, openkoreName) =>
      (match IndexOf(entries, name)
       case None => (entries, Some(ActionNotFound))
       case Some(i) => (entries[i := Entry(name, MetadataTree(entries[i].value, description, openkoreName))], None))
    case AddImpl(name, impl, keys) =>
      if TrimSpace(impl.packetID) == "" then (entries, Some(EmptyPacketID))
      else if TrimSpace(impl.structName) == "" then (entries, Some(EmptyStructName))
      else (match IndexOf(entries, name)
            case None => (entries, Some(ActionNotFound))
            case Some(i) =>
              var (t, err) := AddToAction(entries[i].value, impl, keys);
              (entries[i := Entry(name, t)], err))
    case UpdateImplementation(name, packetID, structName, min, max) =>
      (match IndexOf(entries, name)
       case None => (entries, Some(ActionNotFound))
       case Some(i) =>
         var (t, err) := UpdateInAction(entries[i].value, packetID, structName, min, max);
         (entries[i := Entry(name, t)], err))
    case DeleteImpl(name, packetID) =>
      (match IndexOf(entries, name)
       case None => (entries, Some(ActionNotFound))
       case Some(i) =>
         var (t, err) := DeleteFromAction(entries[i].value, packetID);
         (entries[i := Entry(name, t)], err))
  }

  function Existing(t: Tree): seq<Implementation> {
    match Lookup(t, "implementations")
    case Some(v) => ParseImpls(v)
    case None => []
  }

  predicate HasID(impls: seq<Implementation>, id: string) {
    exists k :: 0 <= k < |impls| && impls[k].packetID == id
  }

  function AddToAction(t: Tree, impl: Implementation, keys: seq<string>): (Tree, Option<DbError>)
    requires forall k :: k in keys ==> k in impl.fieldMapping
  {
    var norm := impl.(packetID := NormPacketID(impl.packetID));
    if HasID(Existing(t), norm.packetID) then (t, Some(ImplExists))
    else (SetImpls(t, ImplsSeq(t).kids + [BuildImpl(norm, keys)]), None)
  }

  function UpdateInAction(t: Tree, packetID: string, structName: Option<string>, min: Option<int>, max: Option<int>)
    : (Tree, Option<DbError>)
  {
    var items := ImplsSeq(t).kids;
    match FindImpl(items, NormPacketID(packetID), 0)
    case None => (WithImplsSeq(t), Some(ImplNotFound))
    case Some(i) => (SetImpls(t, items[i := UpdateImpl(items[i], structName, min, max)]), None)
  }

  function DeleteFromAction(t: Tree, packetID: string): (Tree, Option<DbError>) {
    var items := ImplsSeq(t).kids;
    match FindImpl(items, NormPacketID(packetID), 0)
    case None => (WithImplsSeq(t), Some(ImplNotFound))
    case Some(i) => (SetImpls(t, items[..i] + items[i + 1..]), None)
  }
}
