/** The node-reading and node-editing helpers of the editor, on heap nodes. */
module SemanticEdits {
  import opened Words
  import opened Strings
  import opened SemanticModel
  import opened SemanticNodes

  // ---------- reading ----------

  method ReadScalar(n: Node) returns (s: string)
    requires n.Valid()
    ensures s == ScalarString(n.tree)
  {
    s := if n.kind == Scalar && n.tag != NULL_TAG then n.value else "";
  }

  /** One bound: decode as an integer, or scan the text; None where neither succeeds. */
  method ReadRangeItem(n: Node) returns (r: Option<int>)
    requires n.Valid()
    ensures r == RangeItem(n.tree)
  {
    if n.tag == NULL_TAG { return Some(0); }
    if n.kind != Scalar { return None; }
    r := ScanInt(TrimSpace(n.value));
  }

  method ParsePacketverRange(n: Node) returns (min: int, max: int)
    requires n.Valid()
    ensures (min, max) == ParseRange(n.tree)
  {
    if n.kind != Sequence { return 0, 0; }
    var vals := [];
    for i := 0 to |n.content|
      invariant vals == RangeValues(n.tree.kids[..i])
    {
      assert n.tree.kids[..i + 1][..i] == n.tree.kids[..i];
      var item := ReadRangeItem(n.content[i]);
      if item.Some? { vals := vals + [item.value]; }
    }
    assert n.tree.kids[..|n.content|] == n.tree.kids;
    min := if |vals| >= 1 then vals[0] else 0;
    max := if |vals| >= 2 then vals[1] else 0;
  }

  /** Pair `p` of a mapping: its key node and value node. */
  method PairAt(n: Node, p: nat) returns (k: Node, v: Node)
    requires n.Valid() && 2 * p + 1 < |n.content|
    ensures k.Valid() && v.Valid() && |n.tree.kids| == |n.content|
    ensures k.value == n.tree.kids[2 * p].value && k.tree == n.tree.kids[2 * p] && v.tree == n.tree.kids[2 * p + 1]
  {
    k, v := n.content[2 * p], n.content[2 * p + 1];
  }

  method ParseFieldMapping(n: Node) returns (fields: map<string, string>)
    requires n.Valid()
    ensures fields == ParseFields(n.tree)
  {
    if n.kind != Mapping { return map[]; }
    fields := map[];
    for p := 0 to |n.content| / 2
      invariant fields == FieldsFrom(n.tree.kids, p)
    {
      var k, v := ReadField(n, p);
      fields := fields[k := v];
    }
  }

  method ReadField(n: Node, p: nat) returns (k: string, v: string)
    requires n.Valid() && 2 * p + 1 < |n.tree.kids|
    ensures k == ScalarString(n.tree.kids[2 * p]) && v == ScalarString(n.tree.kids[2 * p + 1])
  {
    var keyNode, valueNode := PairAt(n, p);
    k := ReadScalar(keyNode);
    v := ReadScalar(valueNode);
  }

  method ParseImplNode(n: Node) returns (impl: Implementation)
    requires n.Valid()
    ensures impl == ParseImpl(n.tree)
  {
    impl := NO_IMPLEMENTATION;
    if n.kind == Mapping {
      impl := ParseImplPairs(n, n.tree.kids);
    }
  }

  method ParseImplPairs(n: Node, ghost kids: seq<Tree>) returns (impl: Implementation)
    requires n.Valid() && kids == n.tree.kids
    ensures impl == ImplFrom(kids, Pairs(kids))
  {
    impl := NO_IMPLEMENTATION;
    for p := 0 to |n.content| / 2
      invariant impl == ImplFrom(kids, p)
    {
      var k, v := PairAt(n, p);
      ghost var was := impl;
      impl := ReadImplField(impl, k.value, v);
      ImplFromStep(kids, p, was, impl);
    }
  }

  lemma ImplFromStep(kids: seq<Tree>, p: nat, was: Implementation, impl: Implementation)
    requires 2 * p + 1 < |kids| && was == ImplFrom(kids, p)
    requires impl == ImplField(was, kids[2 * p].value, kids[2 * p + 1])
    ensures impl == ImplFrom(kids, p + 1)
  {
  }

  method ReadImplField(impl0: Implementation, key: string, v: Node) returns (impl: Implementation)
    requires v.Valid()
    ensures impl == ImplField(impl0, key, v.tree)
  {
    impl := impl0;
    if key == "packet_id" {
      var s := ReadScalar(v);
      impl := impl.(packetID := NormPacketID(s));
    } else if key == "struct_name" {
      var s := ReadScalar(v);
      impl := impl.(structName := s);
    } else if key == "packetver_range" {
      var min, max := ParsePacketverRange(v);
      impl := impl.(packetverMin := min, packetverMax := max);
    } else if key == "field_mapping" {
      var fields := ParseFieldMapping(v);
      impl := impl.(fieldMapping := fields);
    }
  }

  method ParseImplsNode(n: Node) returns (impls: seq<Implementation>)
    requires n.Valid()
    ensures impls == ParseImpls(n.tree)
  {
    impls := [];
    if n.kind != Sequence { return; }
    for i := 0 to |n.content|
      invariant impls == ParseImpls(n.tree)[..i]
    {
      var impl := ParseImplNode(n.content[i]);
      impls := impls + [impl];
    }
  }

  method ParseActionNode(name: string, n: Node) returns (a: Action)
    requires n.Valid()
    ensures a == ParseAction(name, n.tree)
  {
    a := Action(name, "", "", []);
    if n.kind != Mapping { return; }
    for p := 0 to |n.content| / 2
      invariant a == ActionFrom(name, n.tree.kids, p)
    {
      a := ReadActionPair(name, a, n, p);
    }
    if a.name == "" { a := a.(name := name); }
  }

  method ReadActionPair(name: string, a0: Action, n: Node, p: nat) returns (a: Action)
    requires n.Valid() && 2 * p + 1 < |n.tree.kids| && a0 == ActionFrom(name, n.tree.kids, p)
    ensures a == ActionFrom(name, n.tree.kids, p + 1)
  {
    var k, v := PairAt(n, p);
    a := ReadActionField(a0, k.value, v);
  }

  method ReadActionField(a0: Action, key: string, v: Node) returns (a: Action)
    requires v.Valid()
    ensures a == ActionField(a0, key, v.tree)
  {
    a := a0;
    if key == "name" {
      var s := ReadScalar(v);
      a := a.(name := s);
    } else if key == "description" {
      var s := ReadScalar(v);
      a := a.(description := s);
    } else if key == "openkore_name" {
      var s := ReadScalar(v);
      a := a.(openkoreName := s);
    } else if key == "implementations" {
      var impls := ParseImplsNode(v);
      a := a.(implementations := impls);
    }
  }

  // ---------- building ----------

  method NewStr(s: string) returns (n: Node)
    ensures n.Valid() && fresh(n.repr) && n.tree == Str(s)
  {
    n := new Node(Scalar, "!!str", s);
  }

  /** Append a key and an already built value. */
  method AddMappingKey(m: Node, key: string, v: Node)
    requires m.Valid() && v.Valid() && m.repr !! v.repr
    modifies m
    ensures m.Valid() && fresh(m.repr - old(m.repr) - v.repr) && v.repr <= m.repr
    ensures m.tree == old(m.tree).(kids := old(m.tree.kids) + [Str(key), v.tree])
  {
    var k := NewStr(key);
    m.Append(k);
    m.Append(v);
    assert m.tree.kids == old(m.tree.kids) + [Str(key), v.tree];
  }

  method AddMappingKV(m: Node, key: string, value: string)
    requires m.Valid()
    modifies m
    ensures m.Valid() && fresh(m.repr - old(m.repr))
    ensures m.tree == old(m.tree).(kids := old(m.tree.kids) + [Str(key), Str(value)])
  {
    var v := NewStr(value);
    AddMappingKey(m, key, v);
  }

  method RangeValueNode(v: int) returns (n: Node)
    ensures n.Valid() && fresh(n.repr) && n.tree == RangeValue(v)
  {
    if v == 0 {
      n := new Node(Scalar, NULL_TAG, "null");
    } else {
      n := new Node(Scalar, "!!int", FormatInt(v));
    }
  }

  method BuildRangeNode(min: int, max: int) returns (n: Node)
    ensures n.Valid() && fresh(n.repr) && n.tree == RangeNode(min, max)
  {
    n := new Node(Sequence, "!!seq", "");
    var lo := RangeValueNode(min);
    var hi := RangeValueNode(max);
    n.Append(lo);
    n.Append(hi);
    assert n.tree.kids == [RangeValue(min), RangeValue(max)];
  }

  lemma FieldKidsStep(fields: map<string, string>, keys: seq<string>, i: nat)
    requires i < |keys| && forall k :: k in keys ==> k in fields
    ensures (forall k :: k in keys[..i] ==> k in fields) && forall k :: k in keys[..i + 1] ==> k in fields
    ensures FieldKids(fields, keys[..i + 1]) == FieldKids(fields, keys[..i]) + [Str(keys[i]), Str(fields[keys[i]])]
  {
    assert keys[..i + 1][..i] == keys[..i];
  }

  method BuildFieldNode(fields: map<string, string>) returns (n: Node, ghost keys: seq<string>)
    ensures n.Valid() && fresh(n.repr) && Lists(keys, fields) && InOrder(keys)
    ensures n.tree == Tree(Mapping, "!!map", "", FieldKids(fields, keys))
  {
    var sorted := SortedNames(fields.Keys);
    keys := sorted;
    InOrderDistinct(sorted);
    n := new Node(Mapping, "!!map", "");
    for i := 0 to |sorted|
      invariant n.Valid() && fresh(n.repr)
      invariant n.tree == Tree(Mapping, "!!map", "", n.tree.kids) && n.tree.kids == FieldKids(fields, sorted[..i])
    {
      FieldKidsStep(fields, sorted, i);
      AddMappingKV(n, sorted[i], fields[sorted[i]]);
    }
    assert sorted[..|sorted|] == sorted;
  }

  lemma {:induction false} BeforeIrreflexive(s: string)
    ensures !Before(s, s)
  {
    if s != [] { BeforeIrreflexive(s[1..]); }
  }

  lemma InOrderDistinct(names: seq<string>)
    requires InOrder(names)
    ensures forall i, j :: 0 <= i < j < |names| ==> names[i] != names[j]
  {
    forall i, j | 0 <= i < j < |names| ensures names[i] != names[j] { BeforeIrreflexive(names[i]); }
  }

  /** The keys before field_mapping. */
  method BuildImplHead(impl: Implementation) returns (n: Node)
    ensures n.Valid() && fresh(n.repr)
    ensures n.tree == Tree(Mapping, "!!map", "", BuildImpl(impl, []).kids[..6])
  {
    n := new Node(Mapping, "!!map", "");
    AddMappingKV(n, "packet_id", impl.packetID);
    ghost var kids := [Str("packet_id"), Str(impl.packetID)];
    assert n.tree.kids == kids;
    var range := BuildRangeNode(impl.packetverMin, impl.packetverMax);
    AddMappingKey(n, "packetver_range", range);
    kids := kids + [Str("packetver_range"), range.tree];
    AddMappingKV(n, "struct_name", impl.structName);
    kids := kids + [Str("struct_name"), Str(impl.structName)];
    assert n.tree.kids == kids == BuildImpl(impl, []).kids[..6];
  }

  method BuildImplNode(impl: Implementation) returns (n: Node, ghost keys: seq<string>)
    ensures n.Valid() && fresh(n.repr) && Lists(keys, impl.fieldMapping) && InOrder(keys)
    ensures n.tree == BuildImpl(impl, keys)
  {
    n := BuildImplHead(impl);
    var fields;
    fields, keys := BuildFieldNode(impl.fieldMapping);
    AddMappingKey(n, "field_mapping", fields);
    assert n.tree.kids == BuildImpl(impl, []).kids[..6] + [Str("field_mapping"), fields.tree];
    assert BuildImpl(impl, []).kids[..6] + [Str("field_mapping"), fields.tree] == BuildImpl(impl, keys).kids;
  }

  /** The text keys of a new action. */
  method BuildActionHead(name: string, description: string, openkoreName: string) returns (n: Node)
    ensures n.Valid() && fresh(n.repr)
    ensures n.tree == Tree(Mapping, "", "", BuildAction(name, description, openkoreName).kids[..6])
  {
    n := new Node(Mapping, "", "");
    AddMappingKV(n, "name", name);
    ghost var kids := [Str("name"), Str(name)];
    assert n.tree.kids == kids;
    AddMappingKV(n, "description", description);
    kids := kids + [Str("description"), Str(description)];
    AddMappingKV(n, "openkore_name", openkoreName);
    kids := kids + [Str("openkore_name"), Str(openkoreName)];
    assert n.tree.kids == kids == BuildAction(name, description, openkoreName).kids[..6];
  }

  method BuildActionNode(name: string, description: string, openkoreName: string) returns (n: Node)
    ensures n.Valid() && fresh(n.repr) && n.tree == BuildAction(name, description, openkoreName)
  {
    n := BuildActionHead(name, description, openkoreName);
    ghost var kids := n.tree.kids;
    var params := new Node(Sequence, "!!seq", "");
    AddMappingKey(n, "canonical_params", params);
    kids := kids + [Str("canonical_params"), EMPTY_SEQ];
    var impls := new Node(Sequence, "!!seq", "");
    AddMappingKey(n, "implementations", impls);
    kids := kids + [Str("implementations"), EMPTY_SEQ];
    assert n.tree.kids == kids == BuildAction(name, description, openkoreName).kids;
  }

  // ---------- editing ----------

  /** `setMappingFieldNode`. */
  method SetMappingFieldNode(m: Node, key: string, v: Node)
    requires m.Valid() && v.Valid() && m.repr !! v.repr
    modifies m
    ensures m.Valid() && fresh(m.repr - old(m.repr) - v.repr) && v.repr <= m.repr
    ensures m.tree == SetField(old(m.tree), key, v.tree)
    ensures var i := FindKey(AsMapping(old(m.tree)), key).GetOr(|AsMapping(old(m.tree)).kids|);
            i + 1 < |m.content| && m.content[i + 1] == v
  {
    m.EnsureMapping();
    var found := m.Find(key);
    if found.Some? {
      m.Replace(found.value + 1, v);
    } else {
      AddMappingKeyAt(m, key, v);
    }
  }

  method AddMappingKeyAt(m: Node, key: string, v: Node)
    requires m.Valid() && v.Valid() && m.repr !! v.repr
    modifies m
    ensures m.Valid() && fresh(m.repr - old(m.repr) - v.repr) && v.repr <= m.repr
    ensures m.tree == old(m.tree).(kids := old(m.tree.kids) + [Str(key), v.tree])
    ensures |m.content| == |old(m.content)| + 2 && m.content[|m.content| - 1] == v
  {
    var k := NewStr(key);
    m.Append(k);
    m.Append(v);
    assert m.tree.kids == old(m.tree.kids) + [Str(key), v.tree];
  }

  /** `setMappingField`. */
  method SetMappingField(m: Node, key: string, value: string)
    requires m.Valid()
    modifies m
    ensures m.Valid() && fresh(m.repr - old(m.repr))
    ensures m.tree == SetField(old(m.tree), key, Str(value))
  {
    var v := NewStr(value);
    SetMappingFieldNode(m, key, v);
  }

  /** `getImplsSeq`: the implementations node, inserted or converted in place if need be. */
  method GetImplsSeq(node: Node) returns (v: Node, ghost i: nat)
    requires node.Valid()
    modifies node.repr
    ensures node.Valid() && fresh(node.repr - old(node.repr))
    ensures node.tree == WithImplsSeq(old(node.tree))
    ensures i < |node.content| && node.content[i] == v && v.tree == ImplsSeq(old(node.tree))
    ensures i == FindKey(AsMapping(old(node.tree)), "implementations").GetOr(|AsMapping(old(node.tree)).kids|) + 1
  {
    var found := node.Find("implementations");
    if found == None {
      v := new Node(Sequence, "!!seq", "");
      SetMappingFieldNode(node, "implementations", v);
      i := FindKey(AsMapping(old(node.tree)), "implementations").GetOr(|AsMapping(old(node.tree)).kids|) + 1;
    } else {
      i := found.value + 1;
      v := node.content[found.value + 1];
      v.EnsureSequence();
      node.ChildChanged(i);
    }
  }

  /** `appendImplToAction`. */
  method AppendImplToAction(node: Node, impl: Node)
    requires node.Valid() && impl.Valid() && node.repr !! impl.repr
    modifies node.repr
    ensures node.Valid() && fresh(node.repr - old(node.repr) - impl.repr)
    ensures node.tree == SetImpls(old(node.tree), ImplsSeq(old(node.tree)).kids + [impl.tree])
  {
    var seqNode;
    ghost var i;
    seqNode, i := GetImplsSeq(node);
    label L:
    seqNode.Append(impl);
    assert node.repr == old@L(node.repr);
    node.ChildChanged(i);
  }

  /** The id of one item, as the search compares it. */
  method ReadNodeID(item: Node) returns (id: Option<string>)
    requires item.Valid()
    ensures id == NodeID(item.tree)
  {
    var found := item.Find("packet_id");
    if found == None { return None; }
    id := Some(NormPacketID(item.content[found.value + 1].value));
  }

  /** `findImplIndex`, over the items of the sequence. */
  method FindImplIndex(seqNode: Node, want: string) returns (r: Option<nat>)
    requires seqNode.Valid()
    ensures r == FindImpl(seqNode.tree.kids, want, 0)
  {
    var i := 0;
    while i < |seqNode.content|
      invariant i <= |seqNode.content| == |seqNode.tree.kids|
      invariant FindImpl(seqNode.tree.kids, want, 0) == FindImpl(seqNode.tree.kids, want, i)
    {
      var id := ReadNodeID(seqNode.content[i]);
      if id == Some(want) { return Some(i); }
      i := i + 1;
    }
    return None;
  }

  method ReadCurrentRange(item: Node) returns (min: int, max: int)
    requires item.Valid()
    ensures (min, max) == CurrentRange(item.tree)
  {
    var found := item.Find("packetver_range");
    if found == None { return 0, 0; }
    var r := item.content[found.value + 1];
    if r.kind != Sequence || |r.content| != 2 { return 0, 0; }
    var lo := ReadRangeItem(r.content[0]);
    var hi := ReadRangeItem(r.content[1]);
    return lo.GetOr(0), hi.GetOr(0);
  }

  /** The edit of one implementation node, in place. */
  method UpdateImplNode(item: Node, structName: Option<string>, min: Option<int>, max: Option<int>)
    requires item.Valid()
    modifies item
    ensures item.Valid() && fresh(item.repr - old(item.repr))
    ensures item.tree == UpdateImpl(old(item.tree), structName, min, max)
  {
    item.EnsureMapping();
    if structName.Some? {
      SetMappingField(item, "struct_name", structName.value);
    }
    if min.Some? || max.Some? {
      ReplaceImplRange(item, min, max);
    }
  }

  method ReplaceImplRange(item: Node, min: Option<int>, max: Option<int>)
    requires item.Valid()
    modifies item
    ensures item.Valid() && fresh(item.repr - old(item.repr))
    ensures item.tree == SetField(old(item.tree), "packetver_range",
              RangeNode(min.GetOr(CurrentRange(old(item.tree)).0), max.GetOr(CurrentRange(old(item.tree)).1)))
  {
    var newMin, newMax := ReadCurrentRange(item);
    if min.Some? { newMin := min.value; }
    if max.Some? { newMax := max.value; }
    var range := BuildRangeNode(newMin, newMax);
    SetMappingFieldNode(item, "packetver_range", range);
  }

  /** Change item `k` of the implementations sequence in place. */
  method UpdateItemAt(node: Node, ghost i: nat, seqNode: Node, k: nat, structName: Option<string>, min: Option<int>,
                      max: Option<int>)
    requires node.Valid() && i < |node.content| == |node.tree.kids| && node.content[i] == seqNode
    requires k < |seqNode.content| == |seqNode.tree.kids|
    modifies node.repr
    ensures node.Valid() && fresh(node.repr - old(node.repr))
    ensures node.tree == old(node.tree).(kids := old(node.tree.kids)[i := old(seqNode.tree).(
              kids := old(seqNode.tree.kids)[k := UpdateImpl(old(seqNode.tree.kids[k]), structName, min, max)])])
  {
    UpdateImplNode(seqNode.content[k], structName, min, max);
    seqNode.ChildChanged(k);
    node.ChildChanged(i);
  }

  /** Remove item `k` of the implementations sequence in place. */
  method RemoveItemAt(node: Node, ghost i: nat, seqNode: Node, k: nat)
    requires node.Valid() && i < |node.content| == |node.tree.kids| && node.content[i] == seqNode
    requires k < |seqNode.content| == |seqNode.tree.kids|
    modifies node.repr
    ensures node.Valid() && fresh(node.repr - old(node.repr))
    ensures node.tree == old(node.tree).(kids := old(node.tree.kids)[i := old(seqNode.tree).(
              kids := old(seqNode.tree.kids)[..k] + old(seqNode.tree.kids)[k + 1..])])
  {
    seqNode.Remove(k, 1);
    node.ChildChanged(i);
  }

  /** Storing into the slot `getImplsSeq` has just made. */
  lemma SlotIsField(t: Tree, v: Tree, i: nat)
    requires i == FindKey(AsMapping(t), "implementations").GetOr(|AsMapping(t).kids|) + 1
    ensures i < |WithImplsSeq(t).kids| && WithImplsSeq(t).kids[i] == ImplsSeq(t)
    ensures WithImplsSeq(t).(kids := WithImplsSeq(t).kids[i := v]) == SetField(t, "implementations", v)
  {
    var m := AsMapping(t);
    if FindKey(m, "implementations") == None {
      assert (m.kids + [Str("implementations"), ImplsSeq(t)])[i := v] == m.kids + [Str("implementations"), v];
    } else {
      assert m.kids[i := ImplsSeq(t)][i := v] == m.kids[i := v];
    }
  }

  method ReadExisting(node: Node) returns (impls: seq<Implementation>)
    requires node.Valid()
    ensures impls == Existing(node.tree)
  {
    impls := [];
    var found := node.Find("implementations");
    if found.Some? {
      impls := ParseImplsNode(node.content[found.value + 1]);
    }
  }

  method ContainsID(impls: seq<Implementation>, id: string) returns (yes: bool)
    ensures yes == HasID(impls, id)
  {
    for k := 0 to |impls|
      invariant forall j :: 0 <= j < k ==> impls[j].packetID != id
    {
      if impls[k].packetID == id { return true; }
    }
    return false;
  }

  /** The field names of an implementation, sorted. */
  lemma FieldNames(fields: map<string, string>) returns (keys: seq<string>)
    ensures Lists(keys, fields) && InOrder(keys)
  {
    keys := Listing(fields.Keys);
    InOrderDistinct(keys);
  }

  /** The body of `AddImplementation`, once the action is found. */
  method AddToActionNode(node: Node, impl: Implementation) returns (err: Option<DbError>, ghost keys: seq<string>)
    requires node.Valid()
    modifies node.repr
    ensures node.Valid() && fresh(node.repr - old(node.repr)) && Lists(keys, impl.fieldMapping) && InOrder(keys)
    ensures (node.tree, err) == AddToAction(old(node.tree), impl, keys)
  {
    var norm := impl.(packetID := NormPacketID(impl.packetID));
    var existing := ReadExisting(node);
    var duplicate := ContainsID(existing, norm.packetID);
    if duplicate {
      keys := FieldNames(impl.fieldMapping);
      return Some(ImplExists), keys;
    }
    var implNode;
    implNode, keys := BuildImplNode(norm);
    AppendImplToAction(node, implNode);
    err := None;
  }

  /** The body of `UpdateImplementation`, once the action is found. */
  method UpdateInActionNode(node: Node, packetID: string, structName: Option<string>, min: Option<int>,
                            max: Option<int>)
    returns (err: Option<DbError>)
    requires node.Valid()
    modifies node.repr
    ensures node.Valid() && fresh(node.repr - old(node.repr))
    ensures (node.tree, err) == UpdateInAction(old(node.tree), packetID, structName, min, max)
  {
    ghost var t := node.tree;
    var seqNode;
    ghost var i;
    seqNode, i := GetImplsSeq(node);
    var found := FindImplIndex(seqNode, NormPacketID(packetID));
    if found == None { return Some(ImplNotFound); }
    ghost var items := ImplsSeq(t).kids;
    SlotIsField(t, ImplsSeq(t).(kids := items[found.value := UpdateImpl(items[found.value], structName, min, max)]), i);
    UpdateItemAt(node, i, seqNode, found.value, structName, min, max);
    err := None;
  }

  /** The body of `DeleteImplementation`, once the action is found. */
  method DeleteFromActionNode(node: Node, packetID: string) returns (err: Option<DbError>)
    requires node.Valid()
    modifies node.repr
    ensures node.Valid() && fresh(node.repr - old(node.repr))
    ensures (node.tree, err) == DeleteFromAction(old(node.tree), packetID)
  {
    ghost var t := node.tree;
    var seqNode;
    ghost var i;
    seqNode, i := GetImplsSeq(node);
    var found := FindImplIndex(seqNode, NormPacketID(packetID));
    if found == None { return Some(ImplNotFound); }
    ghost var items := ImplsSeq(t).kids;
    SlotIsField(t, ImplsSeq(t).(kids := items[..found.value] + items[found.value + 1..]), i);
    RemoveItemAt(node, i, seqNode, found.value);
    err := None;
  }
}
