/** What a document says, node by node, and what its edits write there. */
module SemanticText {
  import opened Words
  import opened Strings
  import opened Spelling
  import opened Numerals
  import opened SemanticModel
  import opened SemanticLaws
  import opened SemanticRefinement
  import opened PacketIDs
  import opened SemanticDB

  // ---------- reading ----------

  /** The text of a node: that of a scalar other than null, and otherwise nothing. */
  ghost predicate Says(t: Tree, text: string) {
    text == if t.kind == Scalar && t.tag != "!!null" then t.value else ""
  }

  /** Pair `p` of the mapping has this key, and no later pair does. */
  ghost predicate LastPair(t: Tree, key: string, p: int) {
    && t.kind == Mapping && 0 <= p < |t.kids| / 2 && t.kids[2 * p].value == key
    && forall q :: p < q < |t.kids| / 2 ==> t.kids[2 * q].value != key
  }

  ghost predicate NoPair(t: Tree, key: string) {
    t.kind == Mapping ==> forall q :: 0 <= q < |t.kids| / 2 ==> t.kids[2 * q].value != key
  }

  lemma {:induction false} PutOfPair(kids: seq<Tree>, n: nat, key: string, p: nat)
    requires p < n && 2 * n <= |kids| && kids[2 * p].value == key
    requires forall q :: p < q < n ==> kids[2 * q].value != key
    ensures LastPut(kids, n, key) == Some(kids[2 * p + 1])
  {
    if p < n - 1 {
      assert kids[2 * (n - 1)].value != key;
      PutOfPair(kids, n - 1, key, p);
    }
  }

  lemma {:induction false} PutOfNone(kids: seq<Tree>, n: nat, key: string)
    requires 2 * n <= |kids| && forall q :: 0 <= q < n ==> kids[2 * q].value != key
    ensures LastPut(kids, n, key) == None
  {
    if n > 0 {
      assert kids[2 * (n - 1)].value != key;
      PutOfNone(kids, n - 1, key);
    }
  }

  lemma LastOfPair(t: Tree, key: string, p: int)
    ensures LastPair(t, key, p) ==> LastOf(t, key) == Some(t.kids[2 * p + 1])
    ensures NoPair(t, key) ==> LastOf(t, key) == None
  {
    if LastPair(t, key, p) { PutOfPair(t.kids, |t.kids| / 2, key, p); }
    if t.kind == Mapping && NoPair(t, key) { PutOfNone(t.kids, |t.kids| / 2, key); }
  }

  /** A bound: null is 0, and otherwise a decimal integer between white space. */
  ghost predicate Bound(t: Tree, n: int) {
    || (t.tag == "!!null" && n == 0)
    || (t.tag != "!!null" && t.kind == Scalar
        && exists pre, s, post :: t.value == pre + s + post && AllSpace(pre) && AllSpace(post) && Decimal(s, n))
  }

  lemma BoundReads(t: Tree, n: int)
    requires Bound(t, n)
    ensures RangeItem(t) == Some(n)
  {
    if t.tag != "!!null" {
      var pre, s, post :| t.value == pre + s + post && AllSpace(pre) && AllSpace(post) && Decimal(s, n);
      DecimalTight(s, n);
      TrimOf(pre, s, post);
      DecimalScans(s, n);
    }
  }

  ghost predicate Range(t: Tree, min: int, max: int) {
    t.kind == Sequence && |t.kids| == 2 && Bound(t.kids[0], min) && Bound(t.kids[1], max)
  }

  lemma RangeReads(t: Tree, min: int, max: int)
    requires Range(t, min, max)
    ensures ParseRange(t) == (min, max)
  {
    BoundReads(t.kids[0], min);
    BoundReads(t.kids[1], max);
    PairReads(t);
  }

  /** What an implementation node says is what the loader reads: each key in its own field. */
  lemma ImplementationSays(t: Tree, p: int, text: string, min: int, max: int)
    requires 0 <= p && 2 * p + 1 < |t.kids|
    ensures LastPair(t, "packet_id", p) && Says(t.kids[2 * p + 1], text) ==> SameID(ParseImpl(t).packetID, text)
    ensures LastPair(t, "struct_name", p) && Says(t.kids[2 * p + 1], text) ==> ParseImpl(t).structName == text
    ensures LastPair(t, "packetver_range", p) && Range(t.kids[2 * p + 1], min, max) ==>
              ParseImpl(t).packetverMin == min && ParseImpl(t).packetverMax == max
    ensures LastPair(t, "field_mapping", p) ==> ParseImpl(t).fieldMapping == ParseFields(t.kids[2 * p + 1])
  {
    ImplLast(t);
    LastOfPair(t, "packet_id", p);
    LastOfPair(t, "struct_name", p);
    LastOfPair(t, "packetver_range", p);
    LastOfPair(t, "field_mapping", p);
    NormIdempotent(text);
    NormExactly(NormPacketID(text), text);
    if Range(t.kids[2 * p + 1], min, max) { RangeReads(t.kids[2 * p + 1], min, max); }
  }

  /** A key that is not there reads as nothing. */
  lemma ImplementationOmits(t: Tree)
    ensures NoPair(t, "packet_id") ==> ParseImpl(t).packetID == ""
    ensures NoPair(t, "struct_name") ==> ParseImpl(t).structName == ""
    ensures NoPair(t, "packetver_range") ==> ParseImpl(t).packetverMin == ParseImpl(t).packetverMax == 0
    ensures NoPair(t, "field_mapping") ==> ParseImpl(t).fieldMapping == map[]
  {
    ImplLast(t);
    LastOfPair(t, "packet_id", 0);
    LastOfPair(t, "struct_name", 0);
    LastOfPair(t, "packetver_range", 0);
    LastOfPair(t, "field_mapping", 0);
  }

  /** The last pair of a field mapping whose key says this. */
  ghost predicate LastField(t: Tree, p: int, name: string, text: string) {
    && t.kind == Mapping && 0 <= p < |t.kids| / 2 && Says(t.kids[2 * p], name) && Says(t.kids[2 * p + 1], text)
    && forall q :: p < q < |t.kids| / 2 ==> !Says(t.kids[2 * q], name)
  }

  lemma {:induction false} FieldPut(kids: seq<Tree>, n: nat, p: nat, name: string, text: string)
    requires p < n && 2 * n <= |kids| && Says(kids[2 * p], name) && Says(kids[2 * p + 1], text)
    requires forall q :: p < q < n ==> !Says(kids[2 * q], name)
    ensures name in FieldsFrom(kids, n) && FieldsFrom(kids, n)[name] == text
  {
    if p < n - 1 {
      assert !Says(kids[2 * (n - 1)], name);
      FieldPut(kids, n - 1, p, name, text);
    }
  }

  lemma FieldSays(t: Tree, p: int, name: string, text: string)
    requires LastField(t, p, name, text)
    ensures name in ParseFields(t) && ParseFields(t)[name] == text
  {
    FieldPut(t.kids, |t.kids| / 2, p, name, text);
  }

  /** What an action node says is what the loader reads; a name that says nothing falls back to the key. */
  lemma ActionSays(key: string, t: Tree, p: int, text: string)
    requires 0 <= p && 2 * p + 1 < |t.kids|
    ensures LastPair(t, "name", p) && Says(t.kids[2 * p + 1], text) ==>
              ParseAction(key, t).name == if text == "" then key else text
    ensures LastPair(t, "description", p) && Says(t.kids[2 * p + 1], text) ==> ParseAction(key, t).description == text
    ensures LastPair(t, "openkore_name", p) && Says(t.kids[2 * p + 1], text) ==>
              ParseAction(key, t).openkoreName == text
    ensures LastPair(t, "implementations", p) && t.kids[2 * p + 1].kind == Sequence ==>
              var impls := ParseAction(key, t).implementations;
              && |impls| == |t.kids[2 * p + 1].kids|
              && forall k :: 0 <= k < |impls| ==> impls[k] == ParseImpl(t.kids[2 * p + 1].kids[k])
  {
    ActionLast(key, t);
    LastOfPair(t, "name", p);
    LastOfPair(t, "description", p);
    LastOfPair(t, "openkore_name", p);
    LastOfPair(t, "implementations", p);
  }

  // ---------- writing ----------

  ghost predicate Text(t: Tree, text: string) {
    t.kind == Scalar && t.tag == "!!str" && t.value == text && t.kids == []
  }

  /** A bound as it is written: null for 0, and otherwise the number. */
  ghost predicate WrittenBound(t: Tree, n: int) {
    && t.kind == Scalar && t.kids == []
    && if n == 0 then t.tag == "!!null" && t.value == "null" else t.tag == "!!int" && Decimal(t.value, n)
  }

  /** An added implementation: its four keys in this order, and its fields under the keys listed. */
  lemma BuiltText(i: Implementation, keys: seq<string>)
    requires forall k :: k in keys ==> k in i.fieldMapping
    ensures var t := BuildImpl(i, keys);
            && t.kind == Mapping && t.tag == "!!map" && |t.kids| == 8
            && Text(t.kids[0], "packet_id") && Text(t.kids[1], i.packetID)
            && Text(t.kids[2], "packetver_range") && t.kids[3].kind == Sequence && |t.kids[3].kids| == 2
            && WrittenBound(t.kids[3].kids[0], i.packetverMin) && WrittenBound(t.kids[3].kids[1], i.packetverMax)
            && Text(t.kids[4], "struct_name") && Text(t.kids[5], i.structName)
            && Text(t.kids[6], "field_mapping") && t.kids[7].kind == Mapping && |t.kids[7].kids| == 2 * |keys|
            && forall k :: 0 <= k < |keys| ==>
                 Text(t.kids[7].kids[2 * k], keys[k]) && Text(t.kids[7].kids[2 * k + 1], i.fieldMapping[keys[k]])
  {
    FormatDecimal(i.packetverMin);
    FormatDecimal(i.packetverMax);
    FieldKidsText(i.fieldMapping, keys);
  }

  lemma {:induction false} FieldKidsText(fields: map<string, string>, keys: seq<string>)
    requires forall k :: k in keys ==> k in fields
    ensures var kids := FieldKids(fields, keys);
            && |kids| == 2 * |keys|
            && forall k :: 0 <= k < |keys| ==> Text(kids[2 * k], keys[k]) && Text(kids[2 * k + 1], fields[keys[k]])
  {
    if keys != [] { FieldKidsText(fields, keys[..|keys| - 1]); }
  }

  /** A new action: its five keys in this order. */
  lemma NewActionText(name: string, description: string, openkoreName: string)
    ensures var t := BuildAction(name, description, openkoreName);
            && t.kind == Mapping && |t.kids| == 10
            && Text(t.kids[0], "name") && Text(t.kids[1], name)
            && Text(t.kids[2], "description") && Text(t.kids[3], description)
            && Text(t.kids[4], "openkore_name") && Text(t.kids[5], openkoreName)
            && Text(t.kids[6], "canonical_params") && t.kids[7].kind == Sequence && t.kids[7].kids == []
            && Text(t.kids[8], "implementations") && t.kids[9].kind == Sequence && t.kids[9].kids == []
  {
  }

  /** Pair `p` is the first of its key. */
  ghost predicate FirstPair(t: Tree, key: string, p: int) {
    && t.kind == Mapping && 0 <= p < |t.kids| / 2 && t.kids[2 * p].value == key
    && forall q :: 0 <= q < p ==> t.kids[2 * q].value != key
  }

  lemma FindsPair(t: Tree, key: string, p: int)
    ensures FirstPair(t, key, p) ==> FindKey(t, key) == Some(2 * p)
    ensures NoPair(t, key) ==> FindKey(t, key) == None
  {
    var i := FindKey(t, key).GetOr(0);
    assert i % 2 == 0 ==> i == 2 * (i / 2);
    assert FirstPair(t, key, p) ==> 2 * p + 1 < |t.kids|;
  }

  /** Setting a key replaces the value of its first pair, and nothing else. */
  lemma SetReplaces(t: Tree, key: string, v: Tree, p: int)
    requires FirstPair(t, key, p)
    ensures SetField(t, key, v) == t.(kids := t.kids[..2 * p + 1] + [v] + t.kids[2 * p + 2..])
  {
    FindsPair(t, key, p);
    assert t.kids[2 * p + 1 := v] == t.kids[..2 * p + 1] + [v] + t.kids[2 * p + 2..];
  }

  /** Setting a key that is not there appends a pair, and changes nothing else. */
  lemma SetAppends(t: Tree, key: string, v: Tree)
    requires t.kind == Mapping && NoPair(t, key)
    ensures exists k :: Text(k, key) && SetField(t, key, v) == t.(kids := t.kids + [k, v])
  {
    FindsPair(t, key, 0);
    assert Text(Str(key), key);
  }

  /** Anything but a mapping is first made an empty one. */
  lemma SetStartsOver(t: Tree, key: string, v: Tree)
    requires t.kind != Mapping
    ensures exists k :: Text(k, key) && SetField(t, key, v) == Tree(Mapping, "!!map", "", [k, v])
  {
    assert Text(Str(key), key);
  }

  /** The implementations edited are the items of the sequence there; anything else counts as an empty one. */
  lemma ItemsEdited(t: Tree, p: int)
    ensures FirstPair(t, "implementations", p) ==>
              ImplsSeq(t).kids == if t.kids[2 * p + 1].kind == Sequence then t.kids[2 * p + 1].kids else []
    ensures NoPair(t, "implementations") ==> ImplsSeq(t).kids == []
  {
    FindsPair(t, "implementations", p);
  }

  /** An added implementation goes after the others. */
  lemma AddAtEnd(t: Tree, impl: Implementation, keys: seq<string>)
    requires Whole(t) && forall k :: k in keys ==> k in impl.fieldMapping
    ensures var (after, err) := AddToAction(t, impl, keys);
            && (err.Some? ==> after == t && err == Some(ImplExists))
            && (err == None ==>
                  && |ImplsSeq(after).kids| == |ImplsSeq(t).kids| + 1 && ImplsSeq(t).kids <= ImplsSeq(after).kids
                  && var i := ParseImpl(ImplsSeq(after).kids[|ImplsSeq(t).kids|]);
                     Lists(keys, impl.fieldMapping) ==>
                       i == impl.(packetID := i.packetID) && SameID(i.packetID, impl.packetID))
  {
    var norm := impl.(packetID := NormPacketID(impl.packetID));
    var items := ImplsSeq(t).kids + [BuildImpl(norm, keys)];
    LookupSetField(t, "implementations", ImplsSeq(t).(kids := items), "implementations");
    if Lists(keys, impl.fieldMapping) { BuildThenParse(norm, keys); }
    NormIdempotent(impl.packetID);
    NormExactly(NormPacketID(impl.packetID), impl.packetID);
  }

  /** What the loader asks of a document, in this order. */
  lemma LoadsShape(root: Tree, p: int)
    ensures root.kind != Document || root.kids == [] ==> ShapeError(root) == Some(NotADocument)
    ensures root.kind == Document && root.kids != [] ==>
              var top := root.kids[0];
              && (top.kind != Mapping ==> ShapeError(root) == Some(TopNotMapping))
              && (top.kind == Mapping && NoPair(top, "semantic_actions") ==> ShapeError(root) == Some(NoActionsKey))
              && (FirstPair(top, "semantic_actions", p) ==>
                    ShapeError(root) == if top.kids[2 * p + 1].kind == Mapping then None else Some(ActionsNotMapping))
  {
    if root.kids != [] { FindsPair(root.kids[0], "semantic_actions", p); }
  }

  /** After an update each value given is read back, and the id and the fields are as before. */
  lemma UpdateGives(t: Tree, structName: Option<string>, min: Option<int>, max: Option<int>)
    requires Regular(t)
    ensures var i, j := ParseImpl(t), ParseImpl(UpdateImpl(t, structName, min, max));
            && j.packetID == i.packetID && j.fieldMapping == i.fieldMapping
            && (structName.Some? ==> j.structName == structName.value)
            && (structName == None ==> j.structName == i.structName)
            && (min.Some? ==> j.packetverMin == min.value) && (max.Some? ==> j.packetverMax == max.value)
            && (min == None && max == None ==> j.packetverMin == i.packetverMin && j.packetverMax == i.packetverMax)
  {
    UpdateWrites(t, structName, min, max);
  }

  /** The same for the two texts of an action. */
  lemma MetadataGives(key: string, t: Tree, description: Option<string>, openkoreName: Option<string>)
    requires Regular(t)
    ensures var a, b := ParseAction(key, t), ParseAction(key, MetadataTree(t, description, openkoreName));
            && b.name == a.name && b.implementations == a.implementations
            && b.description == (if description.Some? then description.value else a.description)
            && b.openkoreName == (if openkoreName.Some? then openkoreName.value else a.openkoreName)
  {
    MetadataRefines(key, t, description, openkoreName);
  }

  // ---------- the calls, on the list of actions ----------

  ghost predicate FirstAction(entries: seq<Entry<Tree>>, name: string, p: int) {
    && 0 <= p < |entries| && entries[p].key == name
    && forall q :: 0 <= q < p ==> entries[q].key != name
  }

  ghost predicate NoAction(entries: seq<Entry<Tree>>, name: string) {
    forall q :: 0 <= q < |entries| ==> entries[q].key != name
  }

  lemma FindsFirst(entries: seq<Entry<Tree>>, name: string, p: int)
    ensures FirstAction(entries, name, p) ==> IndexOf(entries, name) == Some(p)
    ensures NoAction(entries, name) ==> IndexOf(entries, name) == None
  {
  }

  /** A name that is not blank and not taken goes at the end; otherwise nothing changes. */
  lemma CreateAtEnd(entries: seq<Entry<Tree>>, name: string, description: string, openkoreName: string, p: int)
    ensures var (after, err) := Step(entries, Create(name, description, openkoreName));
            && (AllSpace(name) ==> after == entries && err == Some(EmptyActionName))
            && (!AllSpace(name) && FirstAction(entries, name, p) ==> after == entries && err == Some(ActionExists))
            && (!AllSpace(name) && NoAction(entries, name) ==>
                  && err == None && |after| == |entries| + 1 && entries <= after && after[|entries|].key == name)
  {
    TrimToNothing(name);
    FindsFirst(entries, name, p);
  }

  lemma DeleteTakesOut(entries: seq<Entry<Tree>>, name: string, p: int)
    ensures var (after, err) := Step(entries, Delete(name));
            && (NoAction(entries, name) ==> after == entries && err == Some(ActionNotFound))
            && (FirstAction(entries, name, p) ==> err == None && after == entries[..p] + entries[p + 1..])
  {
    FindsFirst(entries, name, p);
  }

  /** Renaming keeps the place, and every other action; the inner name follows if it was the old key. */
  lemma RenameInPlace(entries: seq<Entry<Tree>>, oldName: string, newName: string, p: int)
    requires FirstAction(entries, oldName, p) && oldName != newName && !AllSpace(newName)
    ensures var (after, err) := Step(entries, Rename(oldName, newName));
            && (!NoAction(entries, newName) ==> after == entries && err == Some(ActionExists))
            && (NoAction(entries, newName) ==>
                  && err == None && |after| == |entries| && after[p].key == newName
                  && (forall q :: 0 <= q < |entries| && q != p ==> after[q] == entries[q])
                  && (Regular(entries[p].value) ==>
                        var was := ParseAction(oldName, entries[p].value);
                        ParseAction(newName, after[p].value) ==
                        was.(name := if was.name == oldName then newName else was.name)))
  {
    TrimToNothing(newName);
    FindsFirst(entries, oldName, p);
    FindsFirst(entries, newName, p);
    if Regular(entries[p].value) { RenameRefines(entries[p].value, oldName, newName); }
  }

  // ---------- the order of the listing ----------

  ghost predicate FirstDifference(s: string, t: string, k: int) {
    && 0 <= k <= |s| && k < |t| && s[..k] == t[..k] && (k == |s| || s[k] < t[k])
  }

  /** Sorted: at the first difference the character is smaller, or the name has ended. */
  lemma {:induction false} BeforeExactly(s: string, t: string)
    ensures Before(s, t) <==> exists k :: FirstDifference(s, t, k)
  {
    if t != [] && s != [] && s[0] == t[0] {
      BeforeExactly(s[1..], t[1..]);
      if k :| FirstDifference(s[1..], t[1..], k) {
        assert s[..k + 1] == [s[0]] + s[1..][..k] && t[..k + 1] == [t[0]] + t[1..][..k];
        assert FirstDifference(s, t, k + 1);
      }
      if k :| FirstDifference(s, t, k) {
        assert k > 0 ==> s[1..][..k - 1] == s[..k][1..] && t[1..][..k - 1] == t[..k][1..];
        assert k > 0 ==> FirstDifference(s[1..], t[1..], k - 1);
      }
    } else {
      assert Before(s, t) ==> FirstDifference(s, t, 0);
      if k :| FirstDifference(s, t, k) { assert k > 0 ==> s[..k][0] == t[..k][0]; }
    }
  }
}
