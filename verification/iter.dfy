/** src/core/iter.rs: iteration over direct children and over a subtree in preorder. */
module Iteration {
  import opened Wrappers
  import opened Rows
  import opened Forms
  import opened Edits
  import opened Links
  import opened Surgery
  import opened Slabs
  import opened Traversal
  import opened Trees

  /** Walks the next-sibling links of a row. */
  class ChildIter {
    const tree: Tree
    ghost const parent: nat
    var next: Option<nat>

    ghost function Row(): seq<nat>
      requires parent in tree.forms
      reads tree
    {
      KidMap(tree.forms)[parent]
    }

    /** The child that comes next is the one at index `i` of the row. */
    ghost predicate At(i: nat)
      reads this, tree, tree.nodes
    {
      tree.Forested() && parent in tree.forms && i <= |Row()| && next == From(Row(), i)
    }

    constructor (tree: Tree, parent: nat)
      requires tree.Forested() && parent in tree.forms
      ensures this.tree == tree && this.parent == parent && At(0)
    {
      FirstCursor(tree.nodes.slots, tree.forms, parent);
      this.tree, this.parent := tree, parent;
      next := tree.Get(parent).firstChild;
    }

    /** Yields the children in order, each once, and then `None` for good. */
    method Next(ghost i: nat) returns (r: Option<nat>)
      requires At(i)
      modifies this
      ensures r == From(Row(), i)
      ensures At(if i < |Row()| then i + 1 else i)
    {
      hide Represents;
      if next.None? {
        return None;
      }
      r := next;
      NextCursor(tree.nodes.slots, tree.forms, parent, i);
      next := tree.Get(r.value).nextSibling;
    }
  }

  /** Preorder over a subtree with an explicit stack. */
  class DepthFirstIter {
    const tree: Tree
    var stack: seq<nat>

    /** The indices that are still to come. */
    ghost function Rest(): seq<nat>
      requires StackIn(tree.forms, stack)
      reads this, tree
    {
      PreAll(Pending(tree.forms, stack))
    }

    ghost predicate Valid()
      reads this, tree, tree.nodes
    {
      tree.Forested() && StackIn(tree.forms, stack)
    }

    constructor (tree: Tree, start: nat)
      requires tree.Forested() && start in tree.forms
      ensures this.tree == tree && Valid() && Rest() == Pre(tree.forms[start])
    {
      this.tree := tree;
      stack := [start];
      new;
      SingleStack(tree.forms, start);
    }

    /** Yields the first index still to come; ends when there is none. */
    method Next() returns (r: Option<nat>)
      requires Valid()
      modifies this
      ensures Valid()
      ensures r.Some? ==> old(Rest()) == [r.value] + Rest()
      ensures r.None? ==> old(Rest()) == [] && Rest() == []
    {
      hide Represents, FreeExact, Reversed, RowReadable;
      if |stack| == 0 {
        return None;
      }
      ghost var f := tree.forms;
      var current := stack[|stack| - 1];
      RepresentsParts(tree.nodes.slots, f);
      ForestRowReadable(tree.nodes.slots, f, current);
      PreorderStep(f, stack);
      stack := stack[..|stack| - 1];
      stack := PushChildren(tree.nodes, current, stack, KidMap(f)[current]);
      r := Some(current);
    }
  }

  /** The whole run: every index of the subtree exactly once, in preorder. */
  method Collect(tree: Tree, start: nat) returns (visited: seq<nat>)
    requires tree.Forested() && start in tree.forms
    ensures visited == Pre(tree.forms[start]) && NoDup(visited)
  {
    hide Represents, PreAll, Pending, FreeExact;
    var iter := new DepthFirstIter(tree, start);
    visited := [];
    var r := iter.Next();
    while r.Some?
      invariant iter.tree == tree && iter.Valid()
      invariant r.Some? ==> visited + [r.value] + iter.Rest() == Pre(tree.forms[start])
      invariant r.None? ==> visited == Pre(tree.forms[start])
      decreases r.Some?, |iter.Rest()|
    {
      visited := visited + [r.value];
      r := iter.Next();
    }
    RepresentsParts(tree.nodes.slots, tree.forms);
    PreNoDup(tree.forms, start);
  }
}
