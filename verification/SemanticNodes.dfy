/**
 The document as the editor holds it: nodes on the heap, changed in place. The ghost field
 `tree` is the value the node stands for, `repr` the nodes below it, itself included.
 */
module SemanticNodes {
  import opened Words
  import opened Strings
  import opened SemanticModel

  class Node {
    var kind: Kind
    var tag: string
    var value: string
    var content: seq<Node>
    ghost var tree: Tree
    ghost var repr: set<Node>

    /** The subtree is a tree: children are disjoint, and do not contain their parent. */
    ghost predicate Valid()
      reads this, repr
      decreases repr
    {
      && this in repr
      && tree == Tree(kind, tag, value, tree.kids) && |tree.kids| == |content|
      && (forall i :: 0 <= i < |content| ==>
            && content[i] in repr && content[i].repr <= repr && this !in content[i].repr
            && content[i].Valid() && content[i].tree == tree.kids[i])
      && (forall i, j :: 0 <= i < j < |content| ==> content[i].repr !! content[j].repr)
    }

    /** Valid, except that the ghost fields do not yet know what child `i` has become. */
    ghost predicate ValidBut(i: int)
      reads this, repr, content, set n, k | 0 <= k < |content| && n in content[k].repr :: n
    {
      && 0 <= i < |content| && this in repr
      && tree == Tree(kind, tag, value, tree.kids) && |tree.kids| == |content|
      && content[i].Valid() && this !in content[i].repr
      && (forall j :: 0 <= j < |content| && j != i ==>
            && content[j] in repr && content[j].repr <= repr && this !in content[j].repr
            && content[j].Valid() && content[j].tree == tree.kids[j])
      && (forall j, k :: 0 <= j < k < |content| ==> content[j].repr !! content[k].repr)
    }

    constructor (kind: Kind, tag: string, value: string)
      ensures Valid() && fresh(repr) && repr == {this} && tree == Tree(kind, tag, value, []) && content == []
    {
      this.kind, this.tag, this.value, this.content := kind, tag, value, [];
      this.tree := Tree(kind, tag, value, []);
      this.repr := {this};
    }

    /** `n.Content = append(n.Content, c)`. */
    method Append(c: Node)
      requires Valid() && c.Valid() && repr !! c.repr
      modifies this
      ensures Valid() && repr == old(repr) + c.repr
      ensures content == old(content) + [c] && value == old(value) && kind == old(kind)
      ensures tree == old(tree).(kids := old(tree.kids) + [c.tree])
    {
      content := content + [c];
      tree := tree.(kids := tree.kids + [c.tree]);
      repr := repr + c.repr;
    }

    /** `n.Content[i] = c`. */
    method Replace(i: nat, c: Node)
      requires Valid() && c.Valid() && repr !! c.repr && i < |content|
      modifies this
      ensures Valid() && repr == old(repr) + c.repr
      ensures content == old(content)[i := c] && value == old(value) && kind == old(kind)
      ensures tree == old(tree).(kids := old(tree.kids)[i := c.tree])
    {
      content := content[i := c];
      tree := tree.(kids := tree.kids[i := c.tree]);
      repr := repr + c.repr;
    }

    /** `n.Content = append(n.Content[:i], n.Content[i+n:]...)`. */
    method Remove(i: nat, n: nat)
      requires Valid() && i + n <= |content|
      modifies this
      ensures Valid() && repr == old(repr)
      ensures content == old(content[..i] + content[i + n..]) && value == old(value) && kind == old(kind)
      ensures tree == old(tree).(kids := old(tree.kids[..i] + tree.kids[i + n..]))
    {
      content := content[..i] + content[i + n..];
      tree := tree.(kids := tree.kids[..i] + tree.kids[i + n..]);
    }

    method SetValue(v: string)
      requires Valid()
      modifies this
      ensures Valid() && repr == old(repr) && content == old(content) && kind == old(kind) && value == v
      ensures tree == old(tree).(value := v)
    {
      value := v;
      tree := tree.(value := v);
    }

    /** `ensureMappingNode`. */
    method EnsureMapping()
      requires Valid()
      modifies this
      ensures Valid() && repr == old(repr) && tree == AsMapping(old(tree))
    {
      if kind != Mapping {
        kind, tag, value, content := Mapping, "!!map", "", [];
        tree := Tree(Mapping, "!!map", "", []);
      }
    }

    method EnsureSequence()
      requires Valid()
      modifies this
      ensures Valid() && repr == old(repr) && tree == AsSequence(old(tree))
    {
      if kind != Sequence {
        kind, tag, content := Sequence, "!!seq", [];
        tree := Tree(Sequence, "!!seq", tree.value, []);
      }
    }

    /** Let the ghost fields catch up with child `i`, which was changed in place. */
    ghost method ChildChanged(i: nat)
      requires ValidBut(i)
      modifies `tree, `repr
      ensures Valid() && repr == old(repr) + content[i].repr
      ensures tree == old(tree).(kids := old(tree.kids)[i := content[i].tree])
    {
      tree := tree.(kids := tree.kids[i := content[i].tree]);
      repr := repr + content[i].repr;
    }

    /** `getMappingValue`: the position of the first such key. */
    method Find(key: string) returns (r: Option<nat>)
      requires Valid()
      ensures r == FindKey(tree, key)
    {
      if kind != Mapping { return None; }
      var i := 0;
      while i + 1 < |content|
        invariant i % 2 == 0 && FindFrom(tree.kids, key, 0) == FindFrom(tree.kids, key, i)
        decreases |content| - i
      {
        if content[i].value == key { return Some(i); }
        i := i + 2;
      }
      return None;
    }
  }
}
