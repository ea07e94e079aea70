/** Documents on which a call on an implementation does not do what it is documented to do. */
module SemanticInputs {
  import opened Words
  import opened Strings
  import opened SemanticModel
  import opened SemanticLaws
  import opened SemanticRefinement
  import opened SemanticSearch
  import opened SemanticRuns

  /** An action with these implementations and nothing else. */
  function Holding(items: seq<Tree>): Tree {
    Tree(Mapping, "!!map", "", [Str("implementations"), Tree(Sequence, "!!seq", "", items)])
  }

  lemma HoldingReads(name: string, items: seq<Tree>)
    ensures ImplsSeq(Holding(items)).kids == items && ParseAction(name, Holding(items)).implementations == Parsed(items)
  {
    var t := Holding(items);
    assert t.kids[0].value == "implementations";
    FindIs(t, "implementations", 0);
    ActionReads(name, t);
    ExistingIs(t);
  }

  lemma HoldingTidy(items: seq<Tree>)
    ensures Regular(Holding(items))
  {
    assert Holding(items).kids[0].value == "implementations";
  }

  // ---------- bounds that do not survive ----------

  /** An implementation node with an id and a range. */
  function Ranged(id: string, bounds: seq<Tree>): Tree {
    Tree(Mapping, "!!map", "",
         [Str("packet_id"), Str(id), Str("packetver_range"), Tree(Sequence, "!!seq", "", bounds)])
  }

  function Bounds(ns: seq<int>): seq<Tree> {
    seq(|ns|, i requires 0 <= i < |ns| => RangeValue(ns[i]))
  }

  lemma {:induction false} BoundsReadBack(ns: seq<int>)
    ensures RangeValues(Bounds(ns)) == ns
  {
    if ns != [] {
      var n := |ns| - 1;
      BoundsReadBack(ns[..n]);
      assert Bounds(ns)[..n] == Bounds(ns[..n]);
      RangeReadsBack(ns[n], 0);
    }
  }

  lemma RangedReads(id: string, bounds: seq<Tree>)
    ensures var t := Ranged(id, bounds);
            && Regular(t) && NodeID(t) == Some(NormPacketID(id))
            && Lookup(t, "packetver_range") == Some(Tree(Sequence, "!!seq", "", bounds))
  {
    var t := Ranged(id, bounds);
    assert t.kids[0].value == "packet_id" && t.kids[2].value == "packetver_range";
    FindIs(t, "packet_id", 0);
    FindIs(t, "packetver_range", 2);
  }

  /** Updating the bounds of the only implementation of an action. */
  lemma OnlyUpdated(name: string, id: string, bounds: seq<Tree>, min: Option<int>, max: Option<int>)
    ensures var item := Ranged(id, bounds);
            var (t', err) := UpdateInAction(Holding([item]), id, None, min, max);
            && err == None
            && ParseAction(name, Holding([item])).implementations == [ParseImpl(item)]
            && ParseAction(name, t').implementations == [Written(item, None, min, max)]
  {
    var item := Ranged(id, bounds);
    var t := Holding([item]);
    RangedReads(id, bounds);
    HoldingReads(name, [item]);
    HoldingTidy([item]);
    assert FindImpl([item], NormPacketID(id), 0) == Some(0);
    UpdateTreeReads(name, t, id, None, min, max);
    UpdateWrites(item, None, min, max);
    assert Parsed([item]) == [ParseImpl(item)];
  }

  /** A one-element range loses its lower bound when the upper one is set. */
  lemma LowerBoundLost(name: string, id: string, min: int, max: int)
    requires min != 0
    ensures var t := Holding([Ranged(id, Bounds([min]))]);
            var (t', err) := UpdateInAction(t, id, None, None, Some(max));
            && err == None && |ParseAction(name, t).implementations| == |ParseAction(name, t').implementations| == 1
            && ParseAction(name, t).implementations[0].packetverMin == min
            && ParseAction(name, t').implementations[0].packetverMin == 0
  {
    RangedReads(id, Bounds([min]));
    BoundsReadBack([min]);
    ImplReads(Ranged(id, Bounds([min])));
    OnlyUpdated(name, id, Bounds([min]), None, Some(max));
  }

  /** A three-element range loses its upper bound when the lower one is set. */
  lemma UpperBoundLost(name: string, id: string, a: int, b: int, c: int, min: int)
    requires b != 0
    ensures var t := Holding([Ranged(id, Bounds([a, b, c]))]);
            var (t', err) := UpdateInAction(t, id, None, Some(min), None);
            && err == None && |ParseAction(name, t).implementations| == |ParseAction(name, t').implementations| == 1
            && ParseAction(name, t).implementations[0].packetverMax == b
            && ParseAction(name, t').implementations[0].packetverMax == 0
  {
    RangedReads(id, Bounds([a, b, c]));
    BoundsReadBack([a, b, c]);
    ImplReads(Ranged(id, Bounds([a, b, c])));
    OnlyUpdated(name, id, Bounds([a, b, c]), Some(min), None);
  }

  /** A pair with an unreadable first bound gains an upper bound when the lower one is set. */
  lemma UpperBoundGained(name: string, id: string, b: int, min: int)
    requires b != 0
    ensures var t := Holding([Ranged(id, [Str("x"), RangeValue(b)])]);
            var (t', err) := UpdateInAction(t, id, None, Some(min), None);
            && err == None && |ParseAction(name, t).implementations| == |ParseAction(name, t').implementations| == 1
            && ParseAction(name, t).implementations[0].packetverMax == 0
            && ParseAction(name, t').implementations[0].packetverMax == b
  {
    var bounds := [Str("x"), RangeValue(b)];
    RangedReads(id, bounds);
    RangeReadsBack(b, 0);
    assert TrimSpace("x") == "x" && RangeItem(Str("x")) == None;
    ImplReads(Ranged(id, bounds));
    PairReads(Tree(Sequence, "!!seq", "", bounds));
    OnlyUpdated(name, id, bounds, Some(min), None);
  }

  // ---------- ids the editor and the loader see differently ----------

  /** An implementation node without an id. */
  const NAMELESS := Tree(Mapping, "!!map", "", [Str("struct_name"), Str("S")])

  lemma NamelessReads()
    ensures Regular(NAMELESS) && NodeID(NAMELESS) == None && ParseImpl(NAMELESS).packetID == ""
  {
    assert NAMELESS.kids[0].value != "packet_id";
    FindMissing(NAMELESS, "packet_id");
    ImplReads(NAMELESS);
  }

  /** It reads as the blank id, but cannot be deleted by it. */
  lemma BlankIDNotFound(name: string)
    ensures var t := Holding([NAMELESS]);
            && DeleteFromAction(t, "").1 == Some(ImplNotFound)
            && EditAction(ParseAction(name, t), DeleteImpl(name, "")).1 == None
  {
    HoldingReads(name, [NAMELESS]);
    NamelessReads();
    assert NormPacketID("") == "";
    assert Parsed([NAMELESS])[0] == ParseImpl(NAMELESS);
  }

  /** An implementation node whose id is null. */
  const NULL_ID := Tree(Mapping, "!!map", "", [Str("packet_id"), Tree(Scalar, NULL_TAG, "null", [])])

  lemma NullIDReads()
    ensures Regular(NULL_ID) && NodeID(NULL_ID) == Some(NormPacketID("null")) && ParseImpl(NULL_ID).packetID == ""
  {
    assert NULL_ID.kids[0].value == "packet_id";
    FindIs(NULL_ID, "packet_id", 0);
    ImplReads(NULL_ID);
    assert NormPacketID("") == "";
  }

  lemma NullIsNotBlank()
    ensures NormPacketID("null") != ""
  {
    TrimUnspaced("null");
  }

  /** Beside it the id "null" can be added; deleting that id then removes the older node, and leaves the new one. */
  lemma NullIDDeleted(impl: Implementation, keys: seq<string>)
    requires impl.packetID == "null" && Lists(keys, impl.fieldMapping)
    ensures var built := BuildImpl(impl.(packetID := NormPacketID("null")), keys);
            var (added, err) := AddToAction(Holding([NULL_ID]), impl, keys);
            var (back, err') := DeleteFromAction(added, "null");
            err == None && err' == None && ImplsSeq(back).kids == [built]
  {
    var t, id := Holding([NULL_ID]), NormPacketID("null");
    var built := BuildImpl(impl.(packetID := id), keys);
    HoldingReads("", [NULL_ID]);
    HoldingTidy([NULL_ID]);
    NullIDReads();
    NullIsNotBlank();
    ExistingIs(t);
    assert Parsed([NULL_ID])[0] == ParseImpl(NULL_ID);
    AddLeaves(t, impl, keys);
    assert FindImpl([NULL_ID] + [built], id, 0) == Some(0);
    DeleteLeaves(AddToAction(t, impl, keys).0, "null", 0);
  }
}
