/** Which implementation a call is about: the editor searches the nodes, the loader what it reads. */
module SemanticSearch {
  import opened Words
  import opened Strings
  import opened SemanticModel
  import opened SemanticLaws
  import opened SemanticRefinement

  // ---------- one item ----------

  /** The id is a plain scalar. */
  predicate PlainID(t: Tree) {
    match Lookup(t, "packet_id")
    case Some(v) => v.kind == Scalar && v.tag != NULL_TAG
    case None => false
  }

  /** The editor compares the text of whatever node the key holds. */
  predicate EditorSees(t: Tree, want: string) {
    match Lookup(t, "packet_id")
    case Some(v) => NormPacketID(v.value) == want
    case None => false
  }

  /** The loader reads a missing, null or nested id as blank. */
  predicate LoaderSees(t: Tree, want: string) {
    if PlainID(t) then EditorSees(t, want) else want == ""
  }

  lemma SeesIsRead(t: Tree, want: string)
    requires Regular(t)
    ensures EditorSees(t, want) <==> NodeID(t) == Some(want)
    ensures LoaderSees(t, want) <==> ParseImpl(t).packetID == want
  {
    ImplReads(t);
  }

  predicate SeenAlike(t: Tree, want: string) {
    EditorSees(t, want) <==> LoaderSees(t, want)
  }

  /** The two agree on a plain id, on a missing one unless the wanted id is blank, and otherwise by chance. */
  lemma SeenAlikeExactly(t: Tree, want: string)
    ensures SeenAlike(t, want) <==>
            match Lookup(t, "packet_id")
            case None => want != ""
            case Some(v) => PlainID(t) || (NormPacketID(v.value) == want <==> want == "")
  {
  }

  // ---------- the two searches ----------

  /** The first item with a property, if there is one. */
  ghost predicate IsFirst(items: seq<Tree>, p: Tree -> bool, at: Option<nat>) {
    match at
    case Some(k) => k < |items| && p(items[k]) && forall j :: 0 <= j < k ==> !p(items[j])
    case None => forall j :: 0 <= j < |items| ==> !p(items[j])
  }

  lemma EditorFindsFirst(items: seq<Tree>, want: string)
    requires TidyItems(items)
    ensures IsFirst(items, t => EditorSees(t, want), FindImpl(items, want, 0))
  {
    forall k | 0 <= k < |items| ensures EditorSees(items[k], want) <==> NodeID(items[k]) == Some(want) {
      SeesIsRead(items[k], want);
    }
  }

  lemma LoaderFindsFirst(items: seq<Tree>, want: string)
    requires TidyItems(items)
    ensures IsFirst(items, t => LoaderSees(t, want), FindID(Parsed(items), want, 0))
  {
    forall k | 0 <= k < |items| ensures LoaderSees(items[k], want) <==> Parsed(items)[k].packetID == want {
      SeesIsRead(items[k], want);
    }
  }

  /** The editor and the loader find the same implementation, or neither finds one. */
  predicate FoundAlike(items: seq<Tree>, want: string) {
    FindImpl(items, want, 0) == FindID(Parsed(items), want, 0)
  }

  /** No earlier item has the wanted id for either. */
  ghost predicate Unseen(items: seq<Tree>, want: string, k: nat)
    requires k <= |items|
  {
    forall j :: 0 <= j < k ==> !EditorSees(items[j], want) && !LoaderSees(items[j], want)
  }

  lemma FirstsAgree(items: seq<Tree>, p: Tree -> bool, q: Tree -> bool, e: Option<nat>, l: Option<nat>)
    requires IsFirst(items, p, e) && IsFirst(items, q, l)
    ensures e == l <==>
            forall k :: 0 <= k < |items| && (forall j :: 0 <= j < k ==> !p(items[j]) && !q(items[j])) ==>
              (p(items[k]) <==> q(items[k]))
  {
  }

  /** They do exactly when they agree on the first item that has the wanted id for either. */
  lemma AlikeExactly(items: seq<Tree>, want: string)
    requires TidyItems(items)
    ensures FoundAlike(items, want) <==>
            forall k :: 0 <= k < |items| && Unseen(items, want, k) ==> SeenAlike(items[k], want)
  {
    EditorFindsFirst(items, want);
    LoaderFindsFirst(items, want);
    FirstsAgree(items, t => EditorSees(t, want), t => LoaderSees(t, want),
                FindImpl(items, want, 0), FindID(Parsed(items), want, 0));
  }

  /** Among plain ids the two searches always agree. */
  lemma PlainIsAlike(items: seq<Tree>, want: string)
    requires TidyItems(items) && forall k :: 0 <= k < |items| ==> PlainID(items[k])
    ensures FoundAlike(items, want)
  {
    AlikeExactly(items, want);
  }

  // ---------- the error of a call ----------

  /** The two agree on every item, or some item has the id for both. */
  ghost predicate SameSuccess(items: seq<Tree>, want: string) {
    || (forall k :: 0 <= k < |items| ==> SeenAlike(items[k], want))
    || (exists k :: 0 <= k < |items| && EditorSees(items[k], want) && LoaderSees(items[k], want))
  }

  /** One of the two sees more than the other: the loader a blank id, the editor any other. */
  lemma OneSeesMore(t: Tree, want: string)
    ensures want == "" && EditorSees(t, want) ==> LoaderSees(t, want)
    ensures want != "" && LoaderSees(t, want) ==> EditorSees(t, want)
  {
  }

  lemma BothFindExactly(items: seq<Tree>, want: string)
    requires TidyItems(items)
    ensures FindImpl(items, want, 0).Some? == FindID(Parsed(items), want, 0).Some? <==> SameSuccess(items, want)
  {
    EditorFindsFirst(items, want);
    LoaderFindsFirst(items, want);
    forall k | 0 <= k < |items|
      ensures want == "" && EditorSees(items[k], want) ==> LoaderSees(items[k], want)
      ensures want != "" && LoaderSees(items[k], want) ==> EditorSees(items[k], want)
    {
      OneSeesMore(items[k], want);
    }
  }

  lemma EditErrorExactly(t: Tree, op: Op)
    requires op.UpdateImplementation? || op.DeleteImpl?
    requires TidyAction(t)
    ensures EditTree(t, op).1 == EditAction(ParseAction(op.name, t), op).1 <==>
            SameSuccess(ImplsSeq(t).kids, NormPacketID(op.packetID))
  {
    ItemsAreImplementations(op.name, t);
    BothFindExactly(ImplsSeq(t).kids, NormPacketID(op.packetID));
  }

  /**
   The error of a call is that of the abstract one exactly when the editor and the loader see
   the wanted id in the same items of the action, or both see it in one of them.
   */
  lemma StepErrorExactly(entries: seq<Entry<Tree>>, op: Op)
    requires Tidy(entries) && WellFormedOp(op)
    ensures Step(entries, op).1 == AbstractStep(View(entries), op).1 <==>
            match Target(entries, op)
            case None => true
            case Some(t) =>
              op.UpdateImplementation? || op.DeleteImpl? ==> SameSuccess(ImplsSeq(t).kids, NormPacketID(op.packetID))
  {
    if op.UpdateImplementation? || op.DeleteImpl? {
      PositionAgrees(entries, op.name);
      match IndexOf(entries, op.name) {
        case None =>
        case Some(i) => EditErrorExactly(entries[i].value, op);
      }
    } else {
      StepRefines(entries, op);
    }
  }
}
