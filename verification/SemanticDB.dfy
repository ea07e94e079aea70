/** The editable database: a document tree, and an index of action nodes pointing into it. */
module SemanticDB {
  import opened Words
  import opened Strings
  import opened SemanticModel
  import opened SemanticNodes
  import opened SemanticEdits

  // ---------- the actions mapping as a list of entries ----------

  function EntryAt(kids: seq<Tree>, p: nat): Entry<Tree>
    requires 2 * p + 1 < |kids|
  {
    Entry(kids[2 * p].value, kids[2 * p + 1])
  }

  function EntriesOf(kids: seq<Tree>): (entries: seq<Entry<Tree>>)
    ensures |entries| == |kids| / 2
    ensures forall p :: 0 <= p < |entries| ==> entries[p] == EntryAt(kids, p)
  {
    seq(|kids| / 2, p requires 0 <= p < |kids| / 2 => EntryAt(kids, p))
  }

  lemma EntriesAppend(kids: seq<Tree>, k: Tree, v: Tree)
    requires |kids| % 2 == 0
    ensures EntriesOf(kids + [k, v]) == EntriesOf(kids) + [Entry(k.value, v)]
  {
  }

  lemma EntriesRemove(kids: seq<Tree>, p: nat)
    requires |kids| % 2 == 0 && p < |kids| / 2
    ensures EntriesOf(kids[..2 * p] + kids[2 * p + 2..]) == EntriesOf(kids)[..p] + EntriesOf(kids)[p + 1..]
  {
    var less := kids[..2 * p] + kids[2 * p + 2..];
    assert |less| / 2 == |kids| / 2 - 1;
    forall q | 0 <= q < |less| / 2
      ensures EntriesOf(less)[q] == EntriesOf(kids)[if q < p then q else q + 1]
    {
      if q >= p {
        assert less[2 * q] == kids[2 * q + 2] && less[2 * q + 1] == kids[2 * q + 3];
      }
    }
  }

  lemma EntriesReplace(kids: seq<Tree>, p: nat, k: Tree, v: Tree)
    requires |kids| % 2 == 0 && p < |kids| / 2
    ensures EntriesOf(kids[2 * p := k][2 * p + 1 := v]) == EntriesOf(kids)[p := Entry(k.value, v)]
  {
  }

  lemma IndexOfKey(entries: seq<Entry<Tree>>, p: nat)
    requires DistinctKeys(entries) && p < |entries|
    ensures IndexOf(entries, entries[p].key) == Some(p)
  {
  }

  // ---------- the shape a loadable document has ----------

  datatype LoadError = NotADocument | TopNotMapping | NoActionsKey | ActionsNotMapping

  const ACTIONS_KEY := "semantic_actions"

  function ShapeError(root: Tree): Option<LoadError> {
    if root.kind != Document || root.kids == [] then Some(NotADocument)
    else if root.kids[0].kind != Mapping then Some(TopNotMapping)
    else match Lookup(root.kids[0], ACTIONS_KEY)
      case None => Some(NoActionsKey)
      case Some(actions) => if actions.kind != Mapping then Some(ActionsNotMapping) else None
  }

  /** Whole pairs, scalar keys, and no action named twice. */
  ghost predicate WellKeyed(actions: Tree) {
    && actions.kind == Mapping && |actions.kids| % 2 == 0
    && (forall p :: 0 <= p < |actions.kids| / 2 ==> KeyAt(actions.kids, p).kind == Scalar)
    && DistinctKeys(EntriesOf(actions.kids))
  }

  function KeyAt(kids: seq<Tree>, p: nat): Tree
    requires 2 * p + 1 < |kids|
  {
    kids[2 * p]
  }

  // ---------- the index ----------

  function NodeAt(content: seq<Node>, p: nat): Node
    requires 2 * p + 1 < |content|
  {
    content[2 * p + 1]
  }

  /** The index knows exactly the keys of the tree, and points at the very nodes beside them. */
  ghost predicate Agrees(action: map<string, Node>, content: seq<Node>, entries: seq<Entry<Tree>>)
    requires 2 * |entries| <= |content|
  {
    && (forall name :: Known(action, entries, name))
    && (forall p :: 0 <= p < |entries| ==> Paired(action, content, entries, p))
  }

  ghost predicate Known(action: map<string, Node>, entries: seq<Entry<Tree>>, name: string) {
    name in action ==> IndexOf(entries, name).Some?
  }

  ghost predicate Paired(action: map<string, Node>, content: seq<Node>, entries: seq<Entry<Tree>>, p: nat)
    requires 2 * |entries| <= |content| && p < |entries|
  {
    entries[p].key in action && action[entries[p].key] == NodeAt(content, p)
  }

  ghost predicate Indexed(action: map<string, Node>, content: seq<Node>, actions: Tree) {
    && WellKeyed(actions) && |content| == |actions.kids|
    && Agrees(action, content, EntriesOf(actions.kids))
  }

  lemma IndexedKey(action: map<string, Node>, content: seq<Node>, actions: Tree, name: string)
    requires Indexed(action, content, actions)
    ensures name in action <==> IndexOf(EntriesOf(actions.kids), name).Some?
    ensures name in action ==> action[name] == NodeAt(content, IndexOf(EntriesOf(actions.kids), name).value)
  {
    var entries := EntriesOf(actions.kids);
    assert Known(action, entries, name);
    match IndexOf(entries, name)
    case None =>
    case Some(p) => assert Paired(action, content, entries, p);
  }

  /** A new last entry. */
  lemma IndexedAppend(action: map<string, Node>, content: seq<Node>, actions: Tree, key: Node, name: string,
                      node: Node, t: Tree)
    requires Indexed(action, content, actions) && name !in action
    ensures Indexed(action[name := node], content + [key, node], actions.(kids := actions.kids + [Str(name), t]))
  {
    var more := actions.kids + [Str(name), t];
    var n, entries := |actions.kids| / 2, EntriesOf(actions.kids);
    EntriesAppend(actions.kids, Str(name), t);
    IndexedKey(action, content, actions, name);
    forall p | 0 <= p < n + 1 ensures KeyAt(more, p).kind == Scalar {
      if p < n { assert KeyAt(more, p) == KeyAt(actions.kids, p); }
    }
    AgreesAppend(action, content, entries, key, Entry(name, t), node);
  }

  lemma AgreesAppend(action: map<string, Node>, content: seq<Node>, entries: seq<Entry<Tree>>, key: Node,
                     e: Entry<Tree>, node: Node)
    requires 2 * |entries| == |content| && Agrees(action, content, entries) && e.key !in action
    ensures Agrees(action[e.key := node], content + [key, node], entries + [e])
  {
    var more, content', action' := entries + [e], content + [key, node], action[e.key := node];
    forall p | 0 <= p < |more| ensures Paired(action', content', more, p) {
      if p < |entries| { assert more[p] == entries[p] && Paired(action, content, entries, p); }
    }
    forall name ensures Known(action', more, name) {
      assert more[|entries|].key == e.key && Known(action, entries, name);
      match IndexOf(entries, name)
      case None =>
      case Some(q) => assert more[q].key == name;
    }
  }

  /** An entry taken out. */
  lemma IndexedRemove(action: map<string, Node>, content: seq<Node>, actions: Tree, p: nat)
    requires Indexed(action, content, actions) && p < |actions.kids| / 2
    ensures Indexed(action - {EntryAt(actions.kids, p).key}, content[..2 * p] + content[2 * p + 2..],
                    actions.(kids := actions.kids[..2 * p] + actions.kids[2 * p + 2..]))
  {
    var less := actions.kids[..2 * p] + actions.kids[2 * p + 2..];
    EntriesRemove(actions.kids, p);
    forall q | 0 <= q < |less| / 2 ensures KeyAt(less, q).kind == Scalar {
      assert KeyAt(less, q) == KeyAt(actions.kids, if q < p then q else q + 1);
    }
    AgreesRemove(action, content, EntriesOf(actions.kids), p);
  }

  lemma IndexedDelete(action: map<string, Node>, content: seq<Node>, actions: Tree, p: nat)
    requires Indexed(action, content, actions) && p < |actions.kids| / 2
    ensures var kids := actions.kids[..2 * p] + actions.kids[2 * p + 2..];
            && Indexed(action - {EntryAt(actions.kids, p).key}, content[..2 * p] + content[2 * p + 2..],
                       actions.(kids := kids))
            && EntriesOf(kids) == EntriesOf(actions.kids)[..p] + EntriesOf(actions.kids)[p + 1..]
  {
    IndexedRemove(action, content, actions, p);
    EntriesRemove(actions.kids, p);
  }

  lemma AgreesRemove(action: map<string, Node>, content: seq<Node>, entries: seq<Entry<Tree>>, p: nat)
    requires 2 * |entries| == |content| && Agrees(action, content, entries) && DistinctKeys(entries) && p < |entries|
    ensures Agrees(action - {entries[p].key}, content[..2 * p] + content[2 * p + 2..], entries[..p] + entries[p + 1..])
  {
    var less, content' := entries[..p] + entries[p + 1..], content[..2 * p] + content[2 * p + 2..];
    var action' := action - {entries[p].key};
    forall q | 0 <= q < |less| ensures Paired(action', content', less, q) {
      var r := if q < p then q else q + 1;
      assert less[q] == entries[r] && NodeAt(content', q) == NodeAt(content, r) && Paired(action, content, entries, r);
    }
    forall name ensures Known(action', less, name) {
      assert Known(action, entries, name);
      match IndexOf(entries, name)
      case None =>
      case Some(q) => if q != p { assert less[if q < p then q else q - 1].key == name; }
    }
  }

  /** An entry whose key or tree changed; its node stays, under the new key. */
  lemma IndexedReplace(action: map<string, Node>, content: seq<Node>, actions: Tree, p: nat, k: Tree, t: Tree)
    requires Indexed(action, content, actions) && p < |actions.kids| / 2 && k.kind == Scalar
    requires k.value == EntryAt(actions.kids, p).key || k.value !in action
    ensures Indexed((action - {EntryAt(actions.kids, p).key})[k.value := NodeAt(content, p)], content,
                    actions.(kids := actions.kids[2 * p := k][2 * p + 1 := t]))
  {
    var kids' := actions.kids[2 * p := k][2 * p + 1 := t];
    EntriesReplace(actions.kids, p, k, t);
    assert EntryAt(actions.kids, p) == EntriesOf(actions.kids)[p];
    KeysReplaced(action, content, actions, p, k, t);
    AgreesReplace(action, content, EntriesOf(actions.kids), p, Entry(k.value, t));
  }

  lemma KeysReplaced(action: map<string, Node>, content: seq<Node>, actions: Tree, p: nat, k: Tree, t: Tree)
    requires Indexed(action, content, actions) && p < |actions.kids| / 2 && k.kind == Scalar
    requires k.value == EntryAt(actions.kids, p).key || k.value !in action
    ensures WellKeyed(actions.(kids := actions.kids[2 * p := k][2 * p + 1 := t]))
  {
    var kids' := actions.kids[2 * p := k][2 * p + 1 := t];
    EntriesReplace(actions.kids, p, k, t);
    forall q | 0 <= q < |kids'| / 2 ensures KeyAt(kids', q).kind == Scalar {
      if q != p { assert KeyAt(kids', q) == KeyAt(actions.kids, q); }
    }
    assert EntryAt(actions.kids, p) == EntriesOf(actions.kids)[p];
    DistinctReplaced(action, content, EntriesOf(actions.kids), p, Entry(k.value, t));
  }

  lemma DistinctReplaced(action: map<string, Node>, content: seq<Node>, entries: seq<Entry<Tree>>, p: nat,
                         e: Entry<Tree>)
    requires 2 * |entries| == |content| && Agrees(action, content, entries) && DistinctKeys(entries) && p < |entries|
    requires e.key == entries[p].key || e.key !in action
    ensures DistinctKeys(entries[p := e])
  {
    forall q | 0 <= q < |entries| && q != p ensures entries[q].key != e.key {
      assert Paired(action, content, entries, q);
    }
  }

  lemma AgreesReplace(action: map<string, Node>, content: seq<Node>, entries: seq<Entry<Tree>>, p: nat, e: Entry<Tree>)
    requires 2 * |entries| == |content| && Agrees(action, content, entries) && DistinctKeys(entries) && p < |entries|
    requires e.key == entries[p].key || e.key !in action
    ensures Agrees((action - {entries[p].key})[e.key := NodeAt(content, p)], content, entries[p := e])
  {
    var action', after := (action - {entries[p].key})[e.key := NodeAt(content, p)], entries[p := e];
    forall q | 0 <= q < |after| ensures Paired(action', content, after, q) {
      assert Paired(action, content, entries, q);
    }
    forall name ensures Known(action', after, name) {
      assert Known(action, entries, name) && after[p] == e;
      match IndexOf(entries, name)
      case None =>
      case Some(q) => if q != p { assert after[q].key == name; }
    }
  }

  /** An action edited under the same key. */
  lemma IndexedEdit(action: map<string, Node>, content: seq<Node>, actions: Tree, p: nat, t: Tree)
    requires Indexed(action, content, actions) && p < |actions.kids| / 2
    ensures Indexed(action, content, actions.(kids := actions.kids[2 * p + 1 := t]))
    ensures EntriesOf(actions.kids[2 * p + 1 := t]) ==
            EntriesOf(actions.kids)[p := Entry(EntriesOf(actions.kids)[p].key, t)]
  {
    var entries, k := EntriesOf(actions.kids), KeyAt(actions.kids, p);
    assert entries[p] == EntryAt(actions.kids, p) && k.kind == Scalar;
    EntriesEdit(actions.kids, p, t);
    assert actions.kids[2 * p := k] == actions.kids;
    KeysReplaced(action, content, actions, p, k, t);
    AgreesEdit(action, content, entries, p, t);
  }

  /** A key overwritten, its action staying where it is. */
  lemma IndexedRename(action: map<string, Node>, content: seq<Node>, actions: Tree, p: nat, k: Tree)
    requires Indexed(action, content, actions) && p < |actions.kids| / 2 && k.kind == Scalar && k.value !in action
    ensures Indexed((action - {EntriesOf(actions.kids)[p].key})[k.value := NodeAt(content, p)], content,
                    actions.(kids := actions.kids[2 * p := k]))
    ensures EntriesOf(actions.kids[2 * p := k]) ==
            EntriesOf(actions.kids)[p := Entry(k.value, EntriesOf(actions.kids)[p].value)]
  {
    var t := EntriesOf(actions.kids)[p].value;
    assert EntriesOf(actions.kids)[p] == EntryAt(actions.kids, p);
    IndexedReplace(action, content, actions, p, k, t);
    EntriesReplace(actions.kids, p, k, t);
    assert actions.kids[2 * p := k][2 * p + 1 := t] == actions.kids[2 * p := k];
  }

  lemma IndexedNames(action: map<string, Node>, content: seq<Node>, actions: Tree)
    requires Indexed(action, content, actions)
    ensures |action.Keys| == |EntriesOf(actions.kids)|
    ensures forall name :: name in action <==> IndexOf(EntriesOf(actions.kids), name).Some?
  {
    var entries := EntriesOf(actions.kids);
    forall name ensures name in action <==> IndexOf(entries, name).Some? {
      IndexedKey(action, content, actions, name);
    }
    KeyCount(entries, action.Keys);
  }

  lemma {:induction false} KeyCount(entries: seq<Entry<Tree>>, keys: set<string>)
    requires DistinctKeys(entries) && forall name :: name in keys <==> IndexOf(entries, name).Some?
    ensures |keys| == |entries|
  {
    if entries == [] {
      assert keys == {};
    } else {
      var n := |entries| - 1;
      var last := entries[n].key;
      IndexOfKey(entries, n);
      KeyCount(entries[..n], keys - {last});
    }
  }

  lemma EntriesEdit(kids: seq<Tree>, p: nat, t: Tree)
    requires |kids| % 2 == 0 && p < |kids| / 2
    ensures EntriesOf(kids[2 * p + 1 := t]) == EntriesOf(kids)[p := Entry(EntriesOf(kids)[p].key, t)]
  {
    var k := KeyAt(kids, p);
    EntriesReplace(kids, p, k, t);
    assert kids[2 * p := k] == kids;
    assert EntriesOf(kids)[p] == EntryAt(kids, p);
  }

  lemma AgreesEdit(action: map<string, Node>, content: seq<Node>, entries: seq<Entry<Tree>>, p: nat, t: Tree)
    requires 2 * |entries| == |content| && Agrees(action, content, entries) && p < |entries|
    ensures Agrees(action, content, entries[p := Entry(entries[p].key, t)])
  {
    var after := entries[p := Entry(entries[p].key, t)];
    forall name ensures Known(action, after, name) {
      assert Known(action, entries, name);
      match IndexOf(entries, name)
      case None =>
      case Some(q) => assert after[q].key == name;
    }
    forall q | 0 <= q < |after| ensures Paired(action, content, after, q) {
      assert Paired(action, content, entries, q);
    }
  }

  // ---------- building the index ----------

  /** What is read from the children of a node is what its tree says. */
  lemma KidsRead(n: Node)
    requires n.Valid()
    ensures forall j :: 0 <= j < |n.content| ==>
              n.content[j].value == n.tree.kids[j].value && n.content[j].kind == n.tree.kids[j].kind
  {
    forall j | 0 <= j < |n.content|
      ensures n.content[j].value == n.tree.kids[j].value && n.content[j].kind == n.tree.kids[j].kind
    {
      assert n.content[j].Valid();
    }
  }

  /** The last of the first `n` pairs with this scalar key. */
  function LastScalar(kids: seq<Tree>, n: nat, key: string): (r: Option<nat>)
    requires 2 * n <= |kids|
    ensures r.Some? ==> r.value < n
  {
    if n == 0 then None
    else if KeyAt(kids, n - 1).kind == Scalar && KeyAt(kids, n - 1).value == key then Some(n - 1)
    else LastScalar(kids, n - 1, key)
  }

  /** Where keys are scalar and distinct, the last pair of a key is its only one. */
  lemma {:induction false} LastIsOnly(actions: Tree, n: nat, key: string)
    requires WellKeyed(actions) && 2 * n <= |actions.kids|
    ensures LastScalar(actions.kids, n, key) == IndexOf(EntriesOf(actions.kids)[..n], key)
  {
    if n > 0 {
      LastIsOnly(actions, n - 1, key);
      var entries := EntriesOf(actions.kids);
      assert entries[..n][..n - 1] == entries[..n - 1];
      assert entries[n - 1].key == KeyAt(actions.kids, n - 1).value;
    }
  }

  /** The index the loading loop has built from the first `n` pairs: a later pair wins. */
  ghost predicate Built(action: map<string, Node>, content: seq<Node>, kids: seq<Tree>, n: nat)
    requires 2 * n <= |content| == |kids|
  {
    forall name :: BuiltFor(action, content, kids, n, name)
  }

  ghost predicate BuiltFor(action: map<string, Node>, content: seq<Node>, kids: seq<Tree>, n: nat, name: string)
    requires 2 * n <= |content| == |kids|
  {
    match LastScalar(kids, n, name)
    case None => name !in action
    case Some(p) => name in action && action[name] == NodeAt(content, p)
  }

  lemma BuiltStep(action: map<string, Node>, content: seq<Node>, kids: seq<Tree>, n: nat)
    requires 2 * n + 1 < |content| == |kids| && Built(action, content, kids, n)
    ensures Built(if kids[2 * n].kind == Scalar then action[kids[2 * n].value := content[2 * n + 1]] else action,
                  content, kids, n + 1)
  {
    var action' := if kids[2 * n].kind == Scalar then action[kids[2 * n].value := content[2 * n + 1]] else action;
    var more := n + 1;
    assert KeyAt(kids, n) == kids[2 * n];
    forall name ensures BuiltFor(action', content, kids, more, name) {
      assert BuiltFor(action, content, kids, n, name);
    }
  }

  /** On a file whose action keys are scalar and distinct, the loaded index agrees with the tree. */
  lemma LoadedIndexAgrees(action: map<string, Node>, content: seq<Node>, actions: Tree)
    requires WellKeyed(actions) && |content| == |actions.kids| && Built(action, content, actions.kids, |content| / 2)
    ensures Indexed(action, content, actions)
  {
    var entries, n := EntriesOf(actions.kids), |content| / 2;
    assert entries[..n] == entries;
    forall name ensures Known(action, entries, name) {
      LastIsOnly(actions, n, name);
      assert BuiltFor(action, content, actions.kids, n, name);
    }
    forall p | 0 <= p < n ensures Paired(action, content, entries, p) {
      LastIsOnly(actions, n, entries[p].key);
      IndexOfKey(entries, p);
      assert BuiltFor(action, content, actions.kids, n, entries[p].key);
    }
  }

  /**
   Over scalar keys and distinct nodes, the index the loading loop builds agrees with the
   tree exactly when no key is repeated: a repeated key keeps only its last node.
   */
  lemma LoadedIndexExactly(action: map<string, Node>, content: seq<Node>, actions: Tree)
    requires actions.kind == Mapping && |content| == |actions.kids| && |content| % 2 == 0
    requires forall p :: 0 <= p < |content| / 2 ==> KeyAt(actions.kids, p).kind == Scalar
    requires forall i, j :: 0 <= i < j < |content| ==> content[i] != content[j]
    requires Built(action, content, actions.kids, |content| / 2)
    ensures Agrees(action, content, EntriesOf(actions.kids)) <==> DistinctKeys(EntriesOf(actions.kids))
  {
    var entries := EntriesOf(actions.kids);
    if DistinctKeys(entries) { LoadedIndexAgrees(action, content, actions); }
    if Agrees(action, content, entries) {
      forall i, j | 0 <= i < j < |entries| ensures entries[i].key != entries[j].key {
        assert Paired(action, content, entries, i) && Paired(action, content, entries, j);
        assert NodeAt(content, i) != NodeAt(content, j);
      }
    }
  }

  /** The call on the action found, as one step of the whole. */
  lemma StepFound(entries: seq<Entry<Tree>>, op: Op)
    requires op.UpdateImplementation? || op.DeleteImpl?
    ensures IndexOf(entries, op.name) == None ==> Step(entries, op) == (entries, Some(ActionNotFound))
    ensures IndexOf(entries, op.name).Some? ==>
              var i := IndexOf(entries, op.name).value;
              var (t, err) := if op.DeleteImpl? then DeleteFromAction(entries[i].value, op.packetID)
                              else UpdateInAction(entries[i].value, op.packetID, op.structName, op.min, op.max);
              Step(entries, op) == (entries[i := Entry(op.name, t)], err)
  {
  }

  lemma StepAdds(entries: seq<Entry<Tree>>, name: string, impl: Implementation, keys: seq<string>)
    requires WellFormedOp(AddImpl(name, impl, keys)) && IndexOf(entries, name).Some?
    requires TrimSpace(impl.packetID) != "" && TrimSpace(impl.structName) != ""
    ensures var i := IndexOf(entries, name).value;
            var (t, err) := AddToAction(entries[i].value, impl, keys);
            Step(entries, AddImpl(name, impl, keys)) == (entries[i := Entry(name, t)], err)
  {
  }

  class DB {
    var root: Node
    var action: map<string, Node>
    ghost var top: Node
    ghost var slot: nat
    /** The node under the top-level `semantic_actions` key. */
    ghost var actions: Node
    /** The nodes read on the way from the document to `actions`. */
    ghost var path: set<Node>

    ghost predicate Rooted()
      reads this, path
    {
      && root in path && top in path
      && root.kind == Document && |root.content| > 0 && root.content[0] == top
      && top.kind == Mapping && slot % 2 == 0 && slot + 1 < |top.content|
      && (forall j :: 0 <= j <= slot ==> top.content[j] in path)
      && top.content[slot].value == ACTIONS_KEY && top.content[slot + 1] == actions
      && forall j :: 0 <= j < slot && j % 2 == 0 ==> top.content[j].value != ACTIONS_KEY
    }

    /** The ordered list of actions in the tree. */
    ghost function Entries(): seq<Entry<Tree>>
      reads this, actions
    {
      EntriesOf(actions.tree.kids)
    }

    ghost predicate Valid()
      reads this, path, actions, actions.repr
    {
      && Rooted() && actions.Valid() && path !! actions.repr
      && Indexed(action, actions.content, actions.tree)
    }

    constructor (document: Node, ghost top: Node, ghost slot: nat, ghost actions: Node, ghost path: set<Node>)
      ensures root == document && this.top == top && this.slot == slot && this.actions == actions && this.path == path
      ensures action == map[]
    {
      root, action := document, map[];
      this.top, this.slot, this.actions, this.path := top, slot, actions, path;
    }

    /** `parse`: check the shape of the document, and index its actions. */
    static method Load(document: Node) returns (err: Option<LoadError>, db: DB?)
      requires document.Valid()
      ensures err == ShapeError(document.tree) && (db != null <==> err == None)
      ensures db != null ==> fresh(db) && db.root == document && db.Rooted() && db.actions.Valid()
      ensures db != null ==> db.actions.tree == Lookup(document.tree.kids[0], ACTIONS_KEY).value
      ensures db != null ==> Built(db.action, db.actions.content, db.actions.tree.kids, |db.actions.content| / 2)
      ensures db != null && WellKeyed(db.actions.tree) ==> db.Valid()
    {
      if document.kind != Document || |document.content| == 0 { return Some(NotADocument), null; }
      var topMap := document.content[0];
      if topMap.kind != Mapping { return Some(TopNotMapping), null; }
      var found := topMap.Find(ACTIONS_KEY);
      if found == None { return Some(NoActionsKey), null; }
      var slot := found.value;
      KidsRead(document);
      KidsRead(topMap);
      assert topMap.tree == document.tree.kids[0];
      var m := topMap.content[slot + 1];
      assert m.tree == Lookup(topMap.tree, ACTIONS_KEY).value;
      if m.kind != Mapping { return Some(ActionsNotMapping), null; }
      ghost var path := PathTo(document, topMap, slot);
      db := new DB(document, topMap, slot, m, path);
      db.BuildIndex(m);
      if WellKeyed(m.tree) { LoadedIndexAgrees(db.action, m.content, m.tree); }
      err := None;
    }

    /** The nodes read on the way to the value in `slot`: all outside that value. */
    static lemma PathTo(document: Node, top: Node, slot: nat) returns (path: set<Node>)
      requires document.Valid() && |document.content| > 0 && document.content[0] == top && slot + 1 < |top.content|
      ensures document in path && top in path && path !! top.content[slot + 1].repr
      ensures forall j :: 0 <= j <= slot ==> top.content[j] in path
    {
      assert top.Valid();
      path := {document, top} + set j | 0 <= j <= slot :: top.content[j];
      forall j | 0 <= j <= slot ensures top.content[j] !in top.content[slot + 1].repr {
        assert top.content[j].Valid();
      }
    }

    method BuildIndex(m: Node)
      requires m == actions && m.Valid() && action == map[]
      modifies `action
      ensures Built(action, m.content, m.tree.kids, |m.content| / 2)
    {
      KidsRead(m);
      for p := 0 to |m.content| / 2
        invariant Built(action, m.content, m.tree.kids, p)
      {
        var k, v := m.content[2 * p], m.content[2 * p + 1];
        BuiltStep(action, m.content, m.tree.kids, p);
        if k.kind == Scalar { action := action[k.value := v]; }
      }
    }

    lemma KnownKey(name: string)
      requires Indexed(action, actions.content, actions.tree)
      ensures name in action <==> IndexOf(Entries(), name).Some?
      ensures name in action ==> action[name] == NodeAt(actions.content, IndexOf(Entries(), name).value)
    {
      IndexedKey(action, actions.content, actions.tree, name);
    }

    /** `mustFindActionsMap`, on a document that was loaded. */
    method FindActionsMap() returns (m: Node)
      requires Rooted()
      ensures m == actions
    {
      var topMap := root.content[0];
      var i := 0;
      while topMap.content[i].value != ACTIONS_KEY
        invariant i % 2 == 0 && i <= slot
        decreases slot - i
      {
        i := i + 2;
      }
      m := topMap.content[i + 1];
    }

    method CreateAction(name: string, description: string, openkoreName: string) returns (err: Option<DbError>)
      requires Valid()
      modifies `action, actions
      ensures Valid() && fresh(actions.repr - old(actions.repr))
      ensures (Entries(), err) == Step(old(Entries()), Create(name, description, openkoreName))
    {
      if TrimSpace(name) == "" { return Some(EmptyActionName); }
      IndexedKey(action, actions.content, actions.tree, name);
      if name in action { return Some(ActionExists); }
      var node := BuildActionNode(name, description, openkoreName);
      AppendEntry(name, node);
      err := None;
    }

    /** `appendActionsMappingEntry`, and the new index entry. */
    method AppendEntry(name: string, node: Node)
      requires Valid() && node.Valid() && name !in action && node.repr !! actions.repr && node.repr !! path
      modifies `action, actions
      ensures Valid() && fresh(actions.repr - old(actions.repr) - node.repr)
      ensures Entries() == old(Entries()) + [Entry(name, node.tree)]
    {
      var m := FindActionsMap();
      ghost var content, tree := m.content, m.tree;
      var key := NewStr(name);
      m.Append(key);
      m.Append(node);
      assert m.content == content + [key, node];
      assert m.tree.kids == tree.kids + [Str(name), node.tree];
      IndexedAppend(action, content, tree, key, name, node, node.tree);
      EntriesAppend(tree.kids, Str(name), node.tree);
      action := action[name := node];
    }

    method DeleteAction(name: string) returns (err: Option<DbError>)
      requires Valid()
      modifies `action, actions
      ensures Valid() && actions.repr == old(actions.repr)
      ensures (Entries(), err) == Step(old(Entries()), Delete(name))
    {
      KnownKey(name);
      if name !in action { return Some(ActionNotFound); }
      RemoveNamed(name, IndexOf(Entries(), name).value);
      err := None;
    }

    /** `removeActionsMappingEntry`, and the index entry. */
    method RemoveNamed(name: string, ghost i: nat)
      requires Valid() && IndexOf(Entries(), name) == Some(i)
      modifies `action, actions
      ensures Valid() && actions.repr == old(actions.repr)
      ensures Entries() == old(Entries())[..i] + old(Entries())[i + 1..]
    {
      var m := FindActionsMap();
      var p := FindEntry(m, name);
      RemoveEntry(m, p);
    }

    /** Take entry `p` out of the tree, and its key out of the index. */
    method RemoveEntry(m: Node, p: nat)
      requires Valid() && m == actions && p < |Entries()|
      modifies `action, actions
      ensures Valid() && actions.repr == old(actions.repr)
      ensures Entries() == old(Entries()[..p] + Entries()[p + 1..])
    {
      IndexedDelete(action, m.content, m.tree, p);
      var key := ReadKey(m, p);
      action := action - {key};
      m.Remove(2 * p, 2);
    }

    method ReadKey(m: Node, p: nat) returns (key: string)
      requires m.Valid() && 2 * p + 1 < |m.tree.kids|
      ensures key == EntryAt(m.tree.kids, p).key
    {
      KidsRead(m);
      key := m.content[2 * p].value;
    }

    /** The position of the entry with this key, counted in pairs. */
    method FindEntry(m: Node, name: string) returns (p: nat)
      requires Valid() && m == actions && IndexOf(Entries(), name).Some?
      ensures IndexOf(Entries(), name) == Some(p)
    {
      KidsRead(m);
      p := 0;
      while m.content[2 * p].value != name
        invariant p <= IndexOf(Entries(), name).value
        decreases |Entries()| - p
      {
        assert Entries()[p] == EntryAt(m.tree.kids, p);
        p := p + 1;
      }
      assert Entries()[p] == EntryAt(m.tree.kids, p);
    }

    /** `RenameAction`: the key node is overwritten in place, and the inner name follows if it mirrored it. */
    method RenameAction(oldName: string, newName: string) returns (err: Option<DbError>)
      requires Valid()
      modifies `action, actions.repr
      ensures Valid() && fresh(actions.repr - old(actions.repr))
      ensures (Entries(), err) == Step(old(Entries()), Rename(oldName, newName))
    {
      if TrimSpace(newName) == "" { return Some(EmptyActionName); }
      if oldName == newName { return None; }
      KnownKey(oldName);
      KnownKey(newName);
      if oldName !in action { return Some(ActionNotFound); }
      if newName in action { return Some(ActionExists); }
      RenameNamed(oldName, newName, IndexOf(Entries(), oldName).value);
      err := None;
    }

    method RenameNamed(oldName: string, newName: string, ghost i: nat)
      requires Valid() && IndexOf(Entries(), oldName) == Some(i) && newName !in action
      modifies `action, actions.repr
      ensures Valid() && fresh(actions.repr - old(actions.repr))
      ensures Entries() == old(Entries())[i := Entry(newName, RenamedInner(old(Entries())[i].value, oldName, newName))]
    {
      ghost var entries := Entries();
      var node := RenameKey(oldName, newName, i);
      RenameInnerEntry(node, i, oldName, newName);
      assert entries[i := Entry(newName, entries[i].value)][i := Entries()[i]] == entries[i := Entries()[i]];
    }

    /** `renameActionsMappingKey`. */
    method RenameKey(oldName: string, newName: string, ghost i: nat) returns (node: Node)
      requires Valid() && IndexOf(Entries(), oldName) == Some(i) && newName !in action
      modifies `action, actions.repr
      ensures Valid() && actions.repr == old(actions.repr) && i < |Entries()| && node == NodeAt(actions.content, i)
      ensures Entries() == old(Entries())[i := Entry(newName, old(Entries())[i].value)]
    {
      var m := FindActionsMap();
      var p := FindEntry(m, oldName);
      node := RenameEntry(m, p, oldName, newName);
    }

    method RenameInnerEntry(node: Node, ghost p: nat, oldName: string, newName: string)
      requires Valid() && p < |Entries()| && node == NodeAt(actions.content, p)
      modifies actions.repr
      ensures Valid() && fresh(actions.repr - old(actions.repr))
      ensures Entries() == old(Entries())[p := Entry(old(Entries())[p].key,
                RenamedInner(old(Entries())[p].value, oldName, newName))]
    {
      ghost var content, tree := actions.content, actions.tree;
      RenameInnerAt(actions, node, 2 * p + 1, oldName, newName);
      IndexedEdit(action, content, tree, p, RenamedInner(tree.kids[2 * p + 1], oldName, newName));
    }

    /** The key node overwritten in place, and the index entry moved to the new key. */
    method RenameEntry(m: Node, p: nat, oldName: string, newName: string) returns (node: Node)
      requires Valid() && m == actions && p < |Entries()| && Entries()[p].key == oldName && newName !in action
      modifies `action, actions.repr
      ensures Valid() && actions.repr == old(actions.repr) && p < |Entries()| && node == NodeAt(actions.content, p)
      ensures Entries() == old(Entries())[p := Entry(newName, old(Entries())[p].value)]
    {
      ghost var tree := m.tree;
      node := m.content[2 * p + 1];
      var keyNode := m.content[2 * p];
      ghost var k := keyNode.tree.(value := newName);
      assert keyNode.tree == KeyAt(tree.kids, p);
      IndexedRename(action, m.content, tree, p, k);
      keyNode.SetValue(newName);
      m.ChildChanged(2 * p);
      action := (action - {oldName})[newName := node];
    }

    method UpdateActionMetadata(name: string, description: Option<string>, openkoreName: Option<string>)
      returns (err: Option<DbError>)
      requires Valid()
      modifies actions.repr
      ensures Valid() && fresh(actions.repr - old(actions.repr))
      ensures (Entries(), err) == Step(old(Entries()), UpdateMetadata(name, description, openkoreName))
    {
      KnownKey(name);
      if name !in action { return Some(ActionNotFound); }
      EditEntryMetadata(action[name], name, IndexOf(Entries(), name).value, description, openkoreName);
      err := None;
    }

    method EditEntryMetadata(node: Node, ghost name: string, ghost p: nat, description: Option<string>,
                             openkoreName: Option<string>)
      requires Valid() && p < |Entries()| && node == NodeAt(actions.content, p) && Entries()[p].key == name
      modifies actions.repr
      ensures Valid() && fresh(actions.repr - old(actions.repr)) && actions.content == old(actions.content)
      ensures Entries() == old(Entries())[p := Entry(name,
                MetadataTree(old(Entries())[p].value, description, openkoreName))]
    {
      ghost var content, tree := actions.content, actions.tree;
      EditMetadataAt(actions, node, 2 * p + 1, description, openkoreName);
      IndexedEdit(action, content, tree, p, MetadataTree(tree.kids[2 * p + 1], description, openkoreName));
    }

    method AddImplementation(name: string, impl: Implementation) returns (err: Option<DbError>, ghost keys: seq<string>)
      requires Valid()
      modifies actions.repr
      ensures Valid() && fresh(actions.repr - old(actions.repr))
      ensures WellFormedOp(AddImpl(name, impl, keys)) && InOrder(keys)
      ensures (Entries(), err) == Step(old(Entries()), AddImpl(name, impl, keys))
    {
      keys := FieldNames(impl.fieldMapping);
      if TrimSpace(impl.packetID) == "" { return Some(EmptyPacketID), keys; }
      if TrimSpace(impl.structName) == "" { return Some(EmptyStructName), keys; }
      KnownKey(name);
      if name !in action { return Some(ActionNotFound), keys; }
      ghost var before := Entries();
      err, keys := AddToEntry(action[name], name, IndexOf(before, name).value, impl);
      StepAdds(before, name, impl, keys);
    }

    method AddToEntry(node: Node, ghost name: string, ghost p: nat, impl: Implementation)
      returns (err: Option<DbError>, ghost keys: seq<string>)
      requires Valid() && p < |Entries()| && node == NodeAt(actions.content, p) && Entries()[p].key == name
      modifies actions.repr
      ensures Valid() && fresh(actions.repr - old(actions.repr)) && Lists(keys, impl.fieldMapping) && InOrder(keys)
      ensures var (t, e) := AddToAction(old(Entries())[p].value, impl, keys);
              err == e && Entries() == old(Entries())[p := Entry(name, t)]
    {
      ghost var content, tree := actions.content, actions.tree;
      err, keys := AddAt(actions, node, 2 * p + 1, impl);
      IndexedEdit(action, content, tree, p, AddToAction(tree.kids[2 * p + 1], impl, keys).0);
    }

    method UpdateImplementation(name: string, packetID: string, structName: Option<string>, min: Option<int>,
                                max: Option<int>)
      returns (err: Option<DbError>)
      requires Valid()
      modifies actions.repr
      ensures Valid() && fresh(actions.repr - old(actions.repr))
      ensures (Entries(), err) == Step(old(Entries()), Op.UpdateImplementation(name, packetID, structName, min, max))
    {
      KnownKey(name);
      StepFound(Entries(), Op.UpdateImplementation(name, packetID, structName, min, max));
      if name !in action { return Some(ActionNotFound); }
      err := UpdateInEntry(action[name], name, IndexOf(Entries(), name).value, packetID, structName, min, max);
    }

    method UpdateInEntry(node: Node, ghost name: string, ghost p: nat, packetID: string, structName: Option<string>,
                         min: Option<int>, max: Option<int>) returns (err: Option<DbError>)
      requires Valid() && p < |Entries()| && node == NodeAt(actions.content, p) && Entries()[p].key == name
      modifies actions.repr
      ensures Valid() && fresh(actions.repr - old(actions.repr))
      ensures var (t, e) := UpdateInAction(old(Entries())[p].value, packetID, structName, min, max);
              err == e && Entries() == old(Entries())[p := Entry(name, t)]
    {
      ghost var content, tree := actions.content, actions.tree;
      err := UpdateAt(actions, node, 2 * p + 1, packetID, structName, min, max);
      IndexedEdit(action, content, tree, p, UpdateInAction(tree.kids[2 * p + 1], packetID, structName, min, max).0);
    }

    method DeleteImplementation(name: string, packetID: string) returns (err: Option<DbError>)
      requires Valid()
      modifies actions.repr
      ensures Valid() && fresh(actions.repr - old(actions.repr))
      ensures (Entries(), err) == Step(old(Entries()), DeleteImpl(name, packetID))
    {
      KnownKey(name);
      StepFound(Entries(), DeleteImpl(name, packetID));
      if name !in action { return Some(ActionNotFound); }
      err := DeleteFromEntry(action[name], name, IndexOf(Entries(), name).value, packetID);
    }

    method DeleteFromEntry(node: Node, ghost name: string, ghost p: nat, packetID: string)
      returns (err: Option<DbError>)
      requires Valid() && p < |Entries()| && node == NodeAt(actions.content, p) && Entries()[p].key == name
      modifies actions.repr
      ensures Valid() && fresh(actions.repr - old(actions.repr))
      ensures var (t, e) := DeleteFromAction(old(Entries())[p].value, packetID);
              err == e && Entries() == old(Entries())[p := Entry(name, t)]
    {
      ghost var content, tree := actions.content, actions.tree;
      err := DeleteAt(actions, node, 2 * p + 1, packetID);
      IndexedEdit(action, content, tree, p, DeleteFromAction(tree.kids[2 * p + 1], packetID).0);
    }

    // ---------- readers ----------

    method GetAction(name: string) returns (a: Option<Action>)
      requires Valid()
      ensures a == ActionNamed(Entries(), name)
    {
      KnownKey(name);
      if name !in action { return None; }
      ghost var p := IndexOf(Entries(), name).value;
      assert Entries()[p] == EntryAt(actions.tree.kids, p);
      var parsed := ParseActionNode(name, action[name]);
      a := Some(parsed);
    }

    method GetImplementation(name: string, packetID: string) returns (i: Option<Implementation>)
      requires Valid()
      ensures var a := ActionNamed(Entries(), name);
              i == if a == None then None else FirstWithID(a.value.implementations, NormPacketID(packetID))
    {
      var a := GetAction(name);
      if a == None { return None; }
      var impls, want := a.value.implementations, NormPacketID(packetID);
      for k := 0 to |impls|
        invariant forall j :: 0 <= j < k ==> impls[j].packetID != want
      {
        if impls[k].packetID == want {
          FirstIs(impls, want, k);
          return Some(impls[k]);
        }
      }
      FirstMissing(impls, want);
      return None;
    }

    /** Every action of the document, each name once, in order of name. */
    method ListActions() returns (names: seq<string>)
      requires Valid()
      ensures InOrder(names) && |names| == |Entries()|
      ensures forall name :: name in names <==> IndexOf(Entries(), name).Some?
    {
      names := SortedNames(action.Keys);
      IndexedNames(action, actions.content, actions.tree);
    }
  }

  function ActionNamed(entries: seq<Entry<Tree>>, name: string): Option<Action> {
    match IndexOf(entries, name)
    case None => None
    case Some(i) => Some(ParseAction(name, entries[i].value))
  }

  function FirstWithID(impls: seq<Implementation>, id: string): Option<Implementation> {
    if impls == [] then None
    else match FirstWithID(impls[..|impls| - 1], id)
      case Some(i) => Some(i)
      case None => if impls[|impls| - 1].packetID == id then Some(impls[|impls| - 1]) else None
  }

  lemma {:induction false} FirstIs(impls: seq<Implementation>, id: string, k: nat)
    requires k < |impls| && impls[k].packetID == id && forall j :: 0 <= j < k ==> impls[j].packetID != id
    ensures FirstWithID(impls, id) == Some(impls[k])
  {
    if k < |impls| - 1 { FirstIs(impls[..|impls| - 1], id, k); } else { FirstMissing(impls[..k], id); }
  }

  lemma {:induction false} FirstMissing(impls: seq<Implementation>, id: string)
    requires forall j :: 0 <= j < |impls| ==> impls[j].packetID != id
    ensures FirstWithID(impls, id) == None
  {
    if impls != [] { FirstMissing(impls[..|impls| - 1], id); }
  }

  // ---------- the bodies of two calls, on the node found ----------

  method EditMetadata(node: Node, description: Option<string>, openkoreName: Option<string>)
    requires node.Valid()
    modifies node
    ensures node.Valid() && fresh(node.repr - old(node.repr))
    ensures node.tree == MetadataTree(old(node.tree), description, openkoreName)
  {
    node.EnsureMapping();
    if description.Some? { SetMappingField(node, "description", description.value); }
    if openkoreName.Some? { SetMappingField(node, "openkore_name", openkoreName.value); }
  }

  /** The inner name follows the key only where it mirrored it. */
  method RenameInner(node: Node, oldName: string, newName: string)
    requires node.Valid()
    modifies node
    ensures node.Valid() && fresh(node.repr - old(node.repr))
    ensures node.tree == RenamedInner(old(node.tree), oldName, newName)
  {
    var found := node.Find("name");
    if found.Some? && node.content[found.value + 1].value == oldName {
      SetMappingField(node, "name", newName);
    }
  }

  // ---------- an action edited in place, below the actions mapping ----------

  method EditMetadataAt(ghost parent: Node, node: Node, ghost i: nat, description: Option<string>,
                        openkoreName: Option<string>)
    requires parent.Valid() && i < |parent.content| == |parent.tree.kids| && parent.content[i] == node
    modifies parent.repr
    ensures parent.Valid() && fresh(parent.repr - old(parent.repr)) && parent.content == old(parent.content)
    ensures parent.tree == old(parent.tree).(
              kids := old(parent.tree.kids)[i := MetadataTree(old(parent.tree.kids[i]), description, openkoreName)])
  {
    EditMetadata(node, description, openkoreName);
    parent.ChildChanged(i);
  }

  method RenameInnerAt(ghost parent: Node, node: Node, ghost i: nat, oldName: string, newName: string)
    requires parent.Valid() && i < |parent.content| == |parent.tree.kids| && parent.content[i] == node
    modifies parent.repr
    ensures parent.Valid() && fresh(parent.repr - old(parent.repr)) && parent.content == old(parent.content)
    ensures parent.tree == old(parent.tree).(
              kids := old(parent.tree.kids)[i := RenamedInner(old(parent.tree.kids[i]), oldName, newName)])
  {
    RenameInner(node, oldName, newName);
    parent.ChildChanged(i);
  }

  method AddAt(ghost parent: Node, node: Node, ghost i: nat, impl: Implementation)
    returns (err: Option<DbError>, ghost keys: seq<string>)
    requires parent.Valid() && i < |parent.content| == |parent.tree.kids| && parent.content[i] == node
    modifies parent.repr
    ensures parent.Valid() && fresh(parent.repr - old(parent.repr)) && parent.content == old(parent.content)
    ensures Lists(keys, impl.fieldMapping) && InOrder(keys)
    ensures var (t, e) := AddToAction(old(parent.tree.kids[i]), impl, keys);
            err == e && parent.tree == old(parent.tree).(kids := old(parent.tree.kids)[i := t])
  {
    err, keys := AddToActionNode(node, impl);
    forall j | 0 <= j < |parent.content| && j != i
      ensures var c := parent.content[j]; c.Valid() && c.repr == old(c.repr) && c.repr !! node.repr
    {
      assert old(parent.content[j].Valid()) && old(parent.content[j].repr) !! old(node.repr);
      assert parent.content[j] in old(parent.content[j].repr);
    }
    parent.ChildChanged(i);
  }

  method UpdateAt(ghost parent: Node, node: Node, ghost i: nat, packetID: string, structName: Option<string>,
                  min: Option<int>, max: Option<int>)
    returns (err: Option<DbError>)
    requires parent.Valid() && i < |parent.content| == |parent.tree.kids| && parent.content[i] == node
    modifies parent.repr
    ensures parent.Valid() && fresh(parent.repr - old(parent.repr)) && parent.content == old(parent.content)
    ensures var (t, e) := UpdateInAction(old(parent.tree.kids[i]), packetID, structName, min, max);
            err == e && parent.tree == old(parent.tree).(kids := old(parent.tree.kids)[i := t])
  {
    err := UpdateInActionNode(node, packetID, structName, min, max);
    forall j | 0 <= j < |parent.content| && j != i
      ensures var c := parent.content[j]; c.Valid() && c.repr == old(c.repr) && c.repr !! node.repr
    {
      assert old(parent.content[j].Valid()) && old(parent.content[j].repr) !! old(node.repr);
      assert parent.content[j] in old(parent.content[j].repr);
    }
    parent.ChildChanged(i);
  }

  method DeleteAt(ghost parent: Node, node: Node, ghost i: nat, packetID: string)
    returns (err: Option<DbError>)
    requires parent.Valid() && i < |parent.content| == |parent.tree.kids| && parent.content[i] == node
    modifies parent.repr
    ensures parent.Valid() && fresh(parent.repr - old(parent.repr)) && parent.content == old(parent.content)
    ensures var (t, e) := DeleteFromAction(old(parent.tree.kids[i]), packetID);
            err == e && parent.tree == old(parent.tree).(kids := old(parent.tree.kids)[i := t])
  {
    err := DeleteFromActionNode(node, packetID);
    forall j | 0 <= j < |parent.content| && j != i
      ensures var c := parent.content[j]; c.Valid() && c.repr == old(c.repr) && c.repr !! node.repr
    {
      assert old(parent.content[j].Valid()) && old(parent.content[j].repr) !! old(node.repr);
      assert parent.content[j] in old(parent.content[j].repr);
    }
    parent.ChildChanged(i);
  }
}
