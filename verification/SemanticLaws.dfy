/**
 Laws of the document trees: mappings read as maps, what an edit changes of that reading, and
 reading back what the editor builds.
 */
module SemanticLaws {
  import opened Words
  import opened Strings
  import opened SemanticModel

  // ---------- mappings as maps ----------

  /** A mapping with whole pairs and no repeated key; anything but a mapping has no pairs at all. */
  ghost predicate Regular(t: Tree) {
    t.kind == Mapping ==>
      && |t.kids| % 2 == 0
      && forall i, j :: 0 <= i < j < |t.kids| && i % 2 == 0 && j % 2 == 0 ==> t.kids[i].value != t.kids[j].value
  }

  lemma FindIs(t: Tree, key: string, i: nat)
    requires Regular(t) && t.kind == Mapping && i < |t.kids| && i % 2 == 0 && t.kids[i].value == key
    ensures FindKey(t, key) == Some(i)
  {
    assert i + 1 < |t.kids|;
  }

  lemma SetFieldRegular(t: Tree, key: string, v: Tree)
    requires Regular(t)
    ensures Regular(SetField(t, key, v)) && SetField(t, key, v).kind == Mapping
  {
    var m := AsMapping(t);
    if FindKey(m, key) == None {
      var kids := SetField(t, key, v).kids;
      assert kids[|m.kids|] == Str(key);
      forall i | 0 <= i < |m.kids| && i % 2 == 0 ensures kids[i].value != key { assert i + 1 < |m.kids|; }
    }
  }

  /** Whole pairs, as every yaml mapping has. */
  ghost predicate Whole(t: Tree) {
    t.kind == Mapping ==> |t.kids| % 2 == 0
  }

  lemma SetFieldWhole(t: Tree, key: string, v: Tree)
    requires Whole(t)
    ensures Whole(SetField(t, key, v)) && SetField(t, key, v).kind == Mapping
  {
  }

  lemma FindFirst(t: Tree, key: string, i: nat)
    requires Whole(t) && t.kind == Mapping && i < |t.kids| && i % 2 == 0 && t.kids[i].value == key
    requires forall j :: 0 <= j < i && j % 2 == 0 ==> t.kids[j].value != key
    ensures FindKey(t, key) == Some(i)
  {
    assert i + 1 < |t.kids|;
  }

  lemma FindMissing(t: Tree, key: string)
    requires t.kind == Mapping && forall i :: 0 <= i < |t.kids| && i % 2 == 0 ==> t.kids[i].value != key
    ensures FindKey(t, key) == None
  {
  }

  lemma NotBefore(t: Tree, key: string)
    requires Whole(t) && t.kind == Mapping
    ensures match FindKey(t, key)
            case Some(i) =>
              && i % 2 == 0 && i + 1 < |t.kids| && t.kids[i].value == key
              && forall j :: 0 <= j < i && j % 2 == 0 ==> t.kids[j].value != key
            case None => forall j :: 0 <= j < |t.kids| && j % 2 == 0 ==> t.kids[j].value != key
  {
    match FindKey(t, key)
    case Some(i) =>
    case None =>
      forall j | 0 <= j < |t.kids| && j % 2 == 0 ensures t.kids[j].value != key { assert j + 1 < |t.kids|; }
  }

  /** Setting a key changes what the editor finds under it, and under no other. */
  lemma LookupSetField(t: Tree, key: string, v: Tree, other: string)
    requires Whole(t)
    ensures Lookup(SetField(t, key, v), other) == if other == key then Some(v) else Lookup(t, other)
  {
    var m, t' := AsMapping(t), SetField(t, key, v);
    NotBefore(m, key);
    NotBefore(m, other);
    match FindKey(m, key)
    case Some(i) =>
      match FindKey(m, other) {
        case Some(j) => FindFirst(t', other, j);
        case None => FindMissing(t', other);
      }
    case None =>
      assert t'.kids[|m.kids|] == Str(key);
      if other == key {
        FindFirst(t', key, |m.kids|);
      } else {
        match FindKey(m, other) {
          case Some(j) => FindFirst(t', other, j);
          case None => FindMissing(t', other);
        }
      }
  }

  // ---------- the loader reads by key ----------

  function Put(was: Option<Tree>, mine: string, key: string, v: Tree): Option<Tree> {
    if key == mine then Some(v) else was
  }

  /** What a loop over the first `n` pairs, a later pair overwriting, leaves for `key`. */
  function LastPut(kids: seq<Tree>, n: nat, key: string): Option<Tree>
    requires 2 * n <= |kids|
  {
    if n == 0 then None else Put(LastPut(kids, n - 1, key), key, kids[2 * n - 2].value, kids[2 * n - 1])
  }

  lemma {:induction false} LastPutMissing(kids: seq<Tree>, n: nat, key: string)
    requires 2 * n <= |kids|
    requires forall i :: 0 <= i < 2 * n && i % 2 == 0 ==> kids[i].value != key
    ensures LastPut(kids, n, key) == None
  {
    if n > 0 { LastPutMissing(kids, n - 1, key); }
  }

  lemma {:induction false} LastPutAt(kids: seq<Tree>, n: nat, key: string, i: nat)
    requires i < 2 * n <= |kids| && i % 2 == 0 && kids[i].value == key
    requires forall j :: i < j < 2 * n && j % 2 == 0 ==> kids[j].value != key
    ensures LastPut(kids, n, key) == Some(kids[i + 1])
  {
    if i < 2 * n - 2 { LastPutAt(kids, n - 1, key, i); }
  }

  /** With no repeated key, the last pair of a key is the first one. */
  lemma LastIsLookup(t: Tree, key: string)
    requires Regular(t) && t.kind == Mapping
    ensures LastPut(t.kids, Pairs(t.kids), key) == Lookup(t, key)
  {
    match FindKey(t, key)
    case Some(i) => LastPutAt(t.kids, Pairs(t.kids), key, i);
    case None =>
      forall i | 0 <= i < 2 * Pairs(t.kids) && i % 2 == 0 ensures t.kids[i].value != key {
        assert i + 1 < |t.kids|;
      }
      LastPutMissing(t.kids, Pairs(t.kids), key);
  }

  // ---------- setting a key, repeated or not ----------

  /** What the loader reads for a key: its last value. */
  function LastOf(t: Tree, key: string): Option<Tree> {
    if t.kind != Mapping then None else LastPut(t.kids, Pairs(t.kids), key)
  }

  ghost predicate AtMostOnce(t: Tree, key: string) {
    t.kind == Mapping ==>
      forall i, j :: 0 <= i < j < |t.kids| && i % 2 == 0 && j % 2 == 0 && t.kids[i].value == key ==>
        t.kids[j].value != key
  }

  lemma {:induction false} LastPutSame(kids: seq<Tree>, kids': seq<Tree>, n: nat, key: string)
    requires 2 * n <= |kids| && 2 * n <= |kids'|
    requires forall i :: 0 <= i < 2 * n && i % 2 == 0 ==> kids'[i].value == kids[i].value
    requires forall i :: 0 <= i < 2 * n && i % 2 == 0 && kids[i].value == key ==> kids'[i + 1] == kids[i + 1]
    ensures LastPut(kids', n, key) == LastPut(kids, n, key)
  {
    if n > 0 { LastPutSame(kids, kids', n - 1, key); }
  }

  lemma LastReplaced(m: Tree, i: nat, v: Tree, other: string)
    requires m.kind == Mapping && Whole(m) && i + 1 < |m.kids| && i % 2 == 0 && m.kids[i].value != other
    ensures LastOf(m.(kids := m.kids[i + 1 := v]), other) == LastOf(m, other)
  {
    LastPutSame(m.kids, m.kids[i + 1 := v], Pairs(m.kids), other);
  }

  lemma LastAppended(m: Tree, key: string, v: Tree, other: string)
    requires m.kind == Mapping && Whole(m)
    ensures LastOf(m.(kids := m.kids + [Str(key), v]), other) == if other == key then Some(v) else LastOf(m, other)
  {
    var n, more := Pairs(m.kids), m.kids + [Str(key), v];
    assert more[2 * n] == Str(key) && more[2 * n + 1] == v;
    LastPutSame(m.kids, more, n, other);
  }

  /** Setting a key never changes what is read for another. */
  lemma SetFieldOther(t: Tree, key: string, v: Tree, other: string)
    requires Whole(t) && other != key
    ensures Whole(SetField(t, key, v)) && LastOf(SetField(t, key, v), other) == LastOf(t, other)
  {
    var m := AsMapping(t);
    match FindKey(m, key)
    case Some(i) => LastReplaced(m, i, v, other);
    case None => LastAppended(m, key, v, other);
  }

  lemma {:induction false} LastAmong(kids: seq<Tree>, n: nat, key: string, i: nat) returns (l: nat)
    requires i < 2 * n <= |kids| && i % 2 == 0 && kids[i].value == key
    ensures i <= l < 2 * n && l % 2 == 0 && kids[l].value == key
    ensures forall j :: l < j < 2 * n && j % 2 == 0 ==> kids[j].value != key
  {
    if kids[2 * n - 2].value == key { l := 2 * n - 2; } else { l := LastAmong(kids, n - 1, key, i); }
  }

  /** The editor writes the first pair of a key, the loader reads the last. */
  lemma SetFieldLast(t: Tree, key: string, v: Tree)
    requires Whole(t)
    ensures LastOf(SetField(t, key, v), key) == if AtMostOnce(t, key) then Some(v) else LastOf(t, key)
    ensures AtMostOnce(t, key) ==> LastOf(t, key) == Lookup(t, key)
  {
    var m, t' := AsMapping(t), SetField(t, key, v);
    var n := Pairs(m.kids);
    NotBefore(m, key);
    match FindKey(m, key)
    case None =>
      LastAppended(m, key, v, key);
      LastPutMissing(m.kids, n, key);
    case Some(i) =>
      var l := LastAmong(m.kids, n, key, i);
      LastPutAt(m.kids, n, key, l);
      LastPutAt(t'.kids, n, key, l);
      NotOnce(m, key, i, l);
  }

  lemma NotOnce(m: Tree, key: string, i: nat, l: nat)
    requires m.kind == Mapping && Whole(m) && FindKey(m, key) == Some(i) && i <= l < |m.kids| && l % 2 == 0
    requires m.kids[l].value == key && forall j :: l < j < |m.kids| && j % 2 == 0 ==> m.kids[j].value != key
    ensures i == l <==> AtMostOnce(m, key)
  {
    if i == l {
      forall j | 0 <= j < i && j % 2 == 0 ensures m.kids[j].value != key { assert j + 1 < |m.kids|; }
    }
  }

  /**
   An edit of a key is meant to be what the loader then reads. It is exactly when the key is
   not repeated, or its last value already was the new one.
   */
  lemma EditSeenExactly(t: Tree, key: string, v: Tree)
    requires Whole(t)
    ensures LastOf(SetField(t, key, v), key) == Some(v) <==> AtMostOnce(t, key) || LastOf(t, key) == Some(v)
  {
    SetFieldLast(t, key, v);
  }

  /** `name` twice: setting the first leaves the second to be read. */
  lemma RepeatedKeyHidesEdit()
    ensures var t := Tree(Mapping, "!!map", "", [Str("name"), Str("a"), Str("name"), Str("b")]);
            LastOf(SetField(t, "name", Str("c")), "name") == Some(Str("b"))
  {
    var t := Tree(Mapping, "!!map", "", [Str("name"), Str("a"), Str("name"), Str("b")]);
    assert t.kids[0].value == t.kids[2].value == "name";
    SetFieldLast(t, "name", Str("c"));
    LastPutAt(t.kids, 2, "name", 2);
  }

  /** Without repeated keys the last value is the first. */
  lemma LastOfIsLookup(t: Tree, key: string)
    requires Regular(t)
    ensures LastOf(t, key) == Lookup(t, key)
  {
    if t.kind == Mapping { LastIsLookup(t, key); }
  }

  /** An implementation, given what its four keys map to. */
  function ImplOf(id: Option<Tree>, name: Option<Tree>, range: Option<Tree>, fields: Option<Tree>): Implementation {
    Implementation(
      if id.Some? then NormPacketID(ScalarString(id.value)) else "",
      if name.Some? then ScalarString(name.value) else "",
      if range.Some? then ParseRange(range.value).0 else 0,
      if range.Some? then ParseRange(range.value).1 else 0,
      if fields.Some? then ParseFields(fields.value) else map[])
  }

  lemma ImplFieldPuts(id: Option<Tree>, name: Option<Tree>, range: Option<Tree>, fields: Option<Tree>, key: string,
                      v: Tree)
    ensures ImplField(ImplOf(id, name, range, fields), key, v) ==
            ImplOf(Put(id, "packet_id", key, v), Put(name, "struct_name", key, v),
                   Put(range, "packetver_range", key, v), Put(fields, "field_mapping", key, v))
  {
  }

  lemma {:induction false} ImplFromPuts(kids: seq<Tree>, n: nat)
    requires 2 * n <= |kids|
    ensures ImplFrom(kids, n) == ImplOf(LastPut(kids, n, "packet_id"), LastPut(kids, n, "struct_name"),
                                        LastPut(kids, n, "packetver_range"), LastPut(kids, n, "field_mapping"))
  {
    if n > 0 {
      ImplFromPuts(kids, n - 1);
      ImplFieldPuts(LastPut(kids, n - 1, "packet_id"), LastPut(kids, n - 1, "struct_name"),
                    LastPut(kids, n - 1, "packetver_range"), LastPut(kids, n - 1, "field_mapping"),
                    kids[2 * n - 2].value, kids[2 * n - 1]);
    }
  }

  /** The loader's fold over the pairs reads the last value of each of the four keys. */
  lemma ImplLast(t: Tree)
    ensures ParseImpl(t) == ImplOf(LastOf(t, "packet_id"), LastOf(t, "struct_name"),
                                   LastOf(t, "packetver_range"), LastOf(t, "field_mapping"))
  {
    if t.kind == Mapping { ImplFromPuts(t.kids, Pairs(t.kids)); }
  }

  /** The loader's fold over the pairs is a lookup of each of the four keys. */
  lemma ImplReads(t: Tree)
    requires Regular(t)
    ensures ParseImpl(t) == ImplOf(Lookup(t, "packet_id"), Lookup(t, "struct_name"),
                                   Lookup(t, "packetver_range"), Lookup(t, "field_mapping"))
  {
    ImplLast(t);
    LastOfIsLookup(t, "packet_id");
    LastOfIsLookup(t, "struct_name");
    LastOfIsLookup(t, "packetver_range");
    LastOfIsLookup(t, "field_mapping");
  }

  /** An action, given its key and what its four keys map to, before the name falls back to the key. */
  function ActionOf(key: string, name: Option<Tree>, description: Option<Tree>, openkore: Option<Tree>,
                    impls: Option<Tree>): Action {
    Action(
      if name.Some? then ScalarString(name.value) else key,
      if description.Some? then ScalarString(description.value) else "",
      if openkore.Some? then ScalarString(openkore.value) else "",
      if impls.Some? then ParseImpls(impls.value) else [])
  }

  lemma ActionFieldPuts(key: string, name: Option<Tree>, description: Option<Tree>, openkore: Option<Tree>,
                        impls: Option<Tree>, k: string, v: Tree)
    ensures ActionField(ActionOf(key, name, description, openkore, impls), k, v) ==
            ActionOf(key, Put(name, "name", k, v), Put(description, "description", k, v),
                     Put(openkore, "openkore_name", k, v), Put(impls, "implementations", k, v))
  {
  }

  lemma {:induction false} ActionFromPuts(key: string, kids: seq<Tree>, n: nat)
    requires 2 * n <= |kids|
    ensures ActionFrom(key, kids, n) ==
            ActionOf(key, LastPut(kids, n, "name"), LastPut(kids, n, "description"),
                     LastPut(kids, n, "openkore_name"), LastPut(kids, n, "implementations"))
  {
    if n > 0 {
      ActionFromPuts(key, kids, n - 1);
      ActionFieldPuts(key, LastPut(kids, n - 1, "name"), LastPut(kids, n - 1, "description"),
                      LastPut(kids, n - 1, "openkore_name"), LastPut(kids, n - 1, "implementations"),
                      kids[2 * n - 2].value, kids[2 * n - 1]);
    }
  }

  function Named(a: Action, key: string): Action {
    if a.name == "" then a.(name := key) else a
  }

  lemma ActionLast(key: string, t: Tree)
    ensures ParseAction(key, t) ==
            Named(ActionOf(key, LastOf(t, "name"), LastOf(t, "description"), LastOf(t, "openkore_name"),
                           LastOf(t, "implementations")), key)
  {
    if t.kind == Mapping { ActionFromPuts(key, t.kids, Pairs(t.kids)); }
  }

  lemma ActionReads(key: string, t: Tree)
    requires Regular(t)
    ensures ParseAction(key, t) ==
            Named(ActionOf(key, Lookup(t, "name"), Lookup(t, "description"), Lookup(t, "openkore_name"),
                           Lookup(t, "implementations")), key)
    ensures ParseAction(key, t).implementations == Existing(t)
  {
    ActionLast(key, t);
    LastOfIsLookup(t, "name");
    LastOfIsLookup(t, "description");
    LastOfIsLookup(t, "openkore_name");
    LastOfIsLookup(t, "implementations");
  }

  // ---------- building and reading back ----------

  lemma RangeReadsBack(min: int, max: int)
    ensures ParseRange(RangeNode(min, max)) == (min, max)
    ensures RangeItem(RangeValue(min)) == Some(min)
  {
    FormatThenScan(min);
    FormatThenScan(max);
    var kids := RangeNode(min, max).kids;
    assert kids[..1] == [RangeValue(min)] && [RangeValue(min)][..0] == [];
    assert RangeValues(kids[..1]) == [min];
  }

  lemma {:induction false} FieldsReadBack(fields: map<string, string>, keys: seq<string>)
    requires forall k :: k in keys ==> k in fields
    ensures |FieldKids(fields, keys)| == 2 * |keys|
    ensures FieldsFrom(FieldKids(fields, keys), |keys|) == map k | k in fields && k in keys :: fields[k]
  {
    if keys != [] {
      var n := |keys| - 1;
      var front, kids := FieldKids(fields, keys[..n]), FieldKids(fields, keys);
      FieldsReadBack(fields, keys[..n]);
      assert keys == keys[..n] + [keys[n]];
      FieldsPrefix(front, kids, n);
    }
  }

  lemma {:induction false} FieldsPrefix(front: seq<Tree>, kids: seq<Tree>, n: nat)
    requires 2 * n <= |front| <= |kids| && forall i :: 0 <= i < 2 * n ==> kids[i] == front[i]
    ensures FieldsFrom(kids, n) == FieldsFrom(front, n)
  {
    if n > 0 { FieldsPrefix(front, kids, n - 1); }
  }

  lemma {:induction false} TrimmedEnds(s: string)
    ensures Unspaced(TrimSpace(s))
  {
    TrimRightEnds(TrimLeft(s));
    TrimLeftEnds(s);
  }

  lemma {:induction false} TrimLeftEnds(s: string)
    ensures TrimLeft(s) != [] ==> !IsSpace(TrimLeft(s)[0])
  {
    if s != [] && IsSpace(s[0]) { TrimLeftEnds(s[1..]); }
  }

  lemma {:induction false} TrimRightEnds(s: string)
    ensures TrimRight(s) != [] ==> !IsSpace(TrimRight(s)[|TrimRight(s)| - 1]) && TrimRight(s)[0] == s[0]
    ensures TrimRight(s) <= s
  {
    if s != [] && IsSpace(s[|s| - 1]) { TrimRightEnds(s[..|s| - 1]); }
  }

  lemma UpperLower(s: string)
    ensures ToUpper(ToLower(ToUpper(s))) == ToUpper(s)
  {
  }

  /** An id already in normal form is left alone. */
  lemma NormOfNormal(digits: string)
    requires digits != "" ==> !IsSpace(Upper(digits[|digits| - 1]))
    ensures NormPacketID("0x" + ToUpper(digits)) == "0x" + ToUpper(digits)
  {
    var id := "0x" + ToUpper(digits);
    TrimUnspaced(id);
    var lower := ToLower(id);
    assert lower[0] == '0' && lower[1] == 'x';
    assert lower[2..] == ToLower(ToUpper(digits));
    UpperLower(digits);
  }

  /** Normalising a packet id twice is normalising it once. */
  lemma NormIdempotent(s: string)
    ensures NormPacketID(NormPacketID(s)) == NormPacketID(s)
  {
    var lower := ToLower(TrimSpace(s));
    TrimmedEnds(s);
    if lower == "" {
      assert NormPacketID("") == "";
    } else {
      NormOfNormal(if "0x" <= lower then lower[2..] else lower);
    }
  }

  lemma BuiltIsRegular(i: Implementation, keys: seq<string>)
    requires forall k :: k in keys ==> k in i.fieldMapping
    ensures Regular(BuildImpl(i, keys))
    ensures Lookup(BuildImpl(i, keys), "packet_id") == Some(Str(i.packetID))
    ensures Lookup(BuildImpl(i, keys), "struct_name") == Some(Str(i.structName))
    ensures Lookup(BuildImpl(i, keys), "packetver_range") == Some(RangeNode(i.packetverMin, i.packetverMax))
    ensures Lookup(BuildImpl(i, keys), "field_mapping") ==
            Some(Tree(Mapping, "!!map", "", FieldKids(i.fieldMapping, keys)))
  {
    var t := BuildImpl(i, keys);
    assert t.kids[0].value == "packet_id" && t.kids[2].value == "packetver_range";
    assert t.kids[4].value == "struct_name" && t.kids[6].value == "field_mapping";
    assert Regular(t) by {
      forall a, b | 0 <= a < b < |t.kids| && a % 2 == 0 && b % 2 == 0 ensures t.kids[a].value != t.kids[b].value {
        assert a == 0 || a == 2 || a == 4;
        assert b == 2 || b == 4 || b == 6;
      }
    }
    FindIs(t, "packet_id", 0);
    FindIs(t, "packetver_range", 2);
    FindIs(t, "struct_name", 4);
    FindIs(t, "field_mapping", 6);
  }

  /** Reading back the node built for an implementation returns it, its id normalised. */
  lemma BuildThenParse(i: Implementation, keys: seq<string>)
    requires Lists(keys, i.fieldMapping)
    ensures ParseImpl(BuildImpl(i, keys)) == i.(packetID := NormPacketID(i.packetID))
  {
    var t, fieldTree := BuildImpl(i, keys), Tree(Mapping, "!!map", "", FieldKids(i.fieldMapping, keys));
    BuiltIsRegular(i, keys);
    ImplReads(t);
    RangeReadsBack(i.packetverMin, i.packetverMax);
    FieldTreeReadsBack(i.fieldMapping, keys);
    assert ParseImpl(t) == ImplOf(Some(Str(i.packetID)), Some(Str(i.structName)),
                                  Some(RangeNode(i.packetverMin, i.packetverMax)), Some(fieldTree));
  }

  lemma FieldTreeReadsBack(fields: map<string, string>, keys: seq<string>)
    requires Lists(keys, fields)
    ensures ParseFields(Tree(Mapping, "!!map", "", FieldKids(fields, keys))) == fields
  {
    FieldsReadBack(fields, keys);
    assert (map k | k in fields && k in keys :: fields[k]) == fields;
  }
}
