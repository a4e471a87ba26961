/** src/core/mutation.rs: in-place pointer surgery on the forest. */
module Mutation {
  import opened Wrappers
  import opened Rows
  import opened Forms
  import opened Edits
  import opened Links
  import opened Surgery
  import opened Arenas
  import opened Slabs
  import opened Traversal
  import opened Trees

  /** Would linking `child` under `parent` close a cycle?  Exact for an attached or childless child;
      a populated detached list is only compared with `parent` itself. */
  method WouldCreateCycle(tree: Tree, parent: nat, child: nat) returns (r: bool)
    requires tree.Forested() && parent in tree.forms && child in tree.forms
    ensures r <==> CycleSeen(tree.forms, parent, child)
    ensures Attached(tree.forms, child) || tree.forms[child].kids == [] ==>
              (r <==> parent in Pre(tree.forms[child]))
    ensures !Attached(tree.forms, child) ==> (r <==> parent == child)
  {
    var f, s := tree.forms, tree.nodes.slots;
    RepresentsParts(s, f);
    ParentListed(s, f, child);
    if tree.Get(child).parent.None? {
      assert Pre(f[child]) == [child] + PreAll(f[child].kids);
      return parent == child;
    }
    var cursor := Some(parent);
    ghost var above := f.Keys;
    while cursor.Some?
      invariant cursor.Some? ==> cursor.value in f
      invariant parent in Pre(f[child]) <==> cursor.Some? && cursor.value in Pre(f[child])
      invariant cursor.Some? ==> forall y :: y in f && cursor.value in Pre(f[y]) ==> y in above
      decreases cursor.Some?, above
    {
      var id := cursor.value;
      if id == child {
        assert Pre(f[child])[0] == child;
        return true;
      }
      OneLinkUp(s, f, child, id);
      cursor := tree.Get(id).parent;
      above := AncestorsShrink(s, f, id, cursor, above);
    }
    return false;
  }

  /** The ancestors still ahead of the upward walk get fewer at each step. */
  lemma AncestorsShrink(s: Slots, f: Forest, id: nat, up: Option<nat>, above: set<nat>) returns (rest: set<nat>)
    requires Represents(s, f) && id in f && Live(s, id) && up == s[id].value.parent
    requires forall y :: y in f && id in Pre(f[y]) ==> y in above
    ensures rest < above
    ensures up.Some? ==> up.value in f
    ensures up.Some? ==> forall y :: y in f && up.value in Pre(f[y]) ==> y in rest
  {
    rest := above - {id};
    assert Pre(f[id])[0] == id;
    if up.Some? {
      var p, i := ChildInside(s, f, id);
      forall y | y in f && p in Pre(f[y])
        ensures y in rest
      {
        KidOfPart(f, y, p, i);
        PartKnown(f, y, p);
      }
    }
  }

  ghost predicate SameLive(s: Slots, t: Slots) {
    |t| == |s| && forall x :: 0 <= x < |s| ==> t[x].Some? == s[x].Some?
  }

  /** Detaches `node` from its parent and siblings without freeing it. */
  method Unlink(tree: Tree, node: nat)
    requires tree.Forested() && node in tree.forms
    modifies tree`forms, tree.nodes
    ensures tree.Forested()
    ensures tree.View() == old(tree.View()).(forms := Detached(old(tree.forms), node))
    ensures Live(tree.nodes.slots, node) && tree.nodes.slots[node].value.parent == None
    ensures tree.forms[node] == old(tree.forms)[node]
    ensures Unlinks(old(tree.nodes.slots), tree.nodes.slots, node)
  {
    ghost var s := tree.nodes.slots;
    RepresentsParts(s, tree.forms);
    NeighboursLive(s, tree.forms, node);
    UnlinkLinks(tree, node);
    UnlinkForest(s, tree.nodes.slots, tree.forms, node);
    tree.forms := Detached(tree.forms, node);
  }

  /** The body of `unlink`: the six link writes. */
  method UnlinkLinks(tree: Tree, node: nat)
    requires tree.nodes.Valid() && Live(tree.nodes.slots, node) && Neighbourly(tree.nodes.slots, node)
    modifies tree.nodes
    ensures tree.nodes.Valid() && tree.nodes.free == old(tree.nodes.free)
    ensures Unlinks(old(tree.nodes.slots), tree.nodes.slots, node)
  {
    var parent := tree.Get(node).parent;
    var previous := tree.Get(node).previousSibling;
    var next := tree.Get(node).nextSibling;
    if previous.Some? {
      tree.nodes.Put(previous.value, tree.Get(previous.value).(nextSibling := next));
    } else if parent.Some? {
      tree.nodes.Put(parent.value, tree.Get(parent.value).(firstChild := next));
    }
    if next.Some? {
      tree.nodes.Put(next.value, tree.Get(next.value).(previousSibling := previous));
    } else if parent.Some? {
      tree.nodes.Put(parent.value, tree.Get(parent.value).(lastChild := previous));
    }
    if parent.Some? {
      tree.nodes.Put(parent.value, tree.Get(parent.value).(childCount := tree.Get(parent.value).childCount - 1));
    }
    tree.nodes.Put(node, tree.Get(node).(parent := None, previousSibling := None, nextSibling := None));
  }

  /** What `unlink` may index without panicking. */
  ghost predicate Neighbourly(s: Slots, node: nat)
    requires Live(s, node)
  {
    var n := s[node].value;
    && (n.previousSibling.Some? ==> Live(s, n.previousSibling.value))
    && (n.nextSibling.Some? ==> Live(s, n.nextSibling.value))
    && (n.parent.Some? ==> Live(s, n.parent.value) && s[n.parent.value].value.childCount > 0)
  }

  lemma NeighboursLive(s: Slots, f: Forest, node: nat)
    requires Represents(s, f) && node in f && Live(s, node)
    ensures Neighbourly(s, node)
  {
    var k := KidMap(f);
    assert UpAgrees(s, k, node);
    if s[node].value.parent.Some? {
      var p, i := ChildInside(s, f, node);
      assert EndsAgree(s, p, k[p]);
      assert i > 0 ==> PlaceAgrees(s, p, k[p], i - 1);
      assert i + 1 < |k[p]| ==> PlaceAgrees(s, p, k[p], i + 1);
    }
  }

  // ---------------------------------------------------------------- attaching

  /** The link writes of `append`. */
  method LinkLast(tree: Tree, parent: nat, child: nat)
    requires tree.nodes.Valid() && Live(tree.nodes.slots, parent) && Live(tree.nodes.slots, child)
    requires var last := tree.nodes.slots[parent].value.lastChild;
             last.Some? ==> Live(tree.nodes.slots, last.value)
    modifies tree.nodes
    ensures tree.nodes.Valid() && tree.nodes.free == old(tree.nodes.free)
    ensures var s := old(tree.nodes.slots);
            LinksIn(s, tree.nodes.slots, parent, s[parent].value.lastChild, None, child)
  {
    var previousLast := tree.Get(parent).lastChild;
    tree.nodes.Put(child,
                   tree.Get(child).(parent := Some(parent), previousSibling := previousLast, nextSibling := None));
    match previousLast {
      case Some(previous) => tree.nodes.Put(previous, tree.Get(previous).(nextSibling := Some(child)));
      case None => tree.nodes.Put(parent, tree.Get(parent).(firstChild := Some(child)));
    }
    tree.nodes.Put(parent, tree.Get(parent).(lastChild := Some(child)));
    tree.nodes.Put(parent, tree.Get(parent).(childCount := tree.Get(parent).childCount + 1));
  }

  /** The link writes of `prepend`. */
  method LinkFirst(tree: Tree, parent: nat, child: nat)
    requires tree.nodes.Valid() && Live(tree.nodes.slots, parent) && Live(tree.nodes.slots, child)
    requires var first := tree.nodes.slots[parent].value.firstChild;
             first.Some? ==> Live(tree.nodes.slots, first.value)
    modifies tree.nodes
    ensures tree.nodes.Valid() && tree.nodes.free == old(tree.nodes.free)
    ensures var s := old(tree.nodes.slots);
            LinksIn(s, tree.nodes.slots, parent, None, s[parent].value.firstChild, child)
  {
    var previousFirst := tree.Get(parent).firstChild;
    tree.nodes.Put(child,
                   tree.Get(child).(parent := Some(parent), previousSibling := None, nextSibling := previousFirst));
    match previousFirst {
      case Some(previous) => tree.nodes.Put(previous, tree.Get(previous).(previousSibling := Some(child)));
      case None => tree.nodes.Put(parent, tree.Get(parent).(lastChild := Some(child)));
    }
    tree.nodes.Put(parent, tree.Get(parent).(firstChild := Some(child)));
    tree.nodes.Put(parent, tree.Get(parent).(childCount := tree.Get(parent).childCount + 1));
  }

  /** The link writes of `insert_after` behind a given sibling, which nothing stops from being `child`. */
  method LinkAfter(tree: Tree, parent: nat, sibling: nat, child: nat)
    requires tree.nodes.Valid()
    requires Live(tree.nodes.slots, parent) && Live(tree.nodes.slots, child) && Live(tree.nodes.slots, sibling)
    requires var next := tree.nodes.slots[sibling].value.nextSibling;
             next.Some? ==> Live(tree.nodes.slots, next.value)
    modifies tree.nodes
    ensures tree.nodes.Valid() && tree.nodes.free == old(tree.nodes.free)
    ensures var s := old(tree.nodes.slots);
            LinksIn(s, tree.nodes.slots, parent, Some(sibling), s[sibling].value.nextSibling, child)
  {
    var next := tree.Get(sibling).nextSibling;
    tree.nodes.Put(child,
                   tree.Get(child).(parent := Some(parent), previousSibling := Some(sibling), nextSibling := next));
    tree.nodes.Put(sibling, tree.Get(sibling).(nextSibling := Some(child)));
    match next {
      case Some(nextNode) => tree.nodes.Put(nextNode, tree.Get(nextNode).(previousSibling := Some(child)));
      case None => tree.nodes.Put(parent, tree.Get(parent).(lastChild := Some(child)));
    }
    tree.nodes.Put(parent, tree.Get(parent).(childCount := tree.Get(parent).childCount + 1));
  }

  /** Every link of a forest leads to a live slot. */
  lemma LinksLive(s: Slots, f: Forest, x: nat)
    requires Represents(s, f) && x in f
    ensures Live(s, x)
    ensures s[x].value.firstChild.Some? ==> Live(s, s[x].value.firstChild.value)
    ensures s[x].value.lastChild.Some? ==> Live(s, s[x].value.lastChild.value)
    ensures s[x].value.nextSibling.Some? ==> Live(s, s[x].value.nextSibling.value)
  {
    var k := KidMap(f);
    RepresentsParts(s, f);
    assert EndsAgree(s, x, k[x]);
    if k[x] != [] {
      assert PlaceAgrees(s, x, k[x], 0) && PlaceAgrees(s, x, k[x], |k[x]| - 1);
    }
    NeighboursLive(s, f, x);
  }

  lemma ForestsKnown(s: Slots, f: Forest)
    ensures Represents(s, f) ==> IsForest(s)
  {
  }

  lemma LinksKeepLive(s: Slots, t: Slots, u: Slots, p: nat, before: Option<nat>, after: Option<nat>, c: nat)
    requires SameLive(s, t) && LinksIn(t, u, p, before, after, c)
    ensures SameLive(s, u)
  {
  }

  /** The common opening of the three moves: unlink the child if it is attached. */
  method Loosen(tree: Tree, child: nat)
    requires tree.Forested() && child in tree.forms
    modifies tree`forms, tree.nodes
    ensures tree.Forested()
    ensures tree.View() == old(tree.View()).(forms := Detached(old(tree.forms), child))
    ensures Live(tree.nodes.slots, child) && tree.nodes.slots[child].value.parent == None
    ensures tree.forms[child] == old(tree.forms)[child]
    ensures SameLive(old(tree.nodes.slots), tree.nodes.slots)
  {
    ParentListed(tree.nodes.slots, tree.forms, child);
    if tree.Get(child).parent.Some? {
      Unlink(tree, child);
    } else {
      DetachedUnattached(tree.forms, child);
    }
  }

  /** Makes `child` the last child of `parent`, moving it there when it hangs elsewhere. `ok` is false
      when the cycle check panics.  What passes the check leaves a forest exactly when `parent` is
      not inside `child`. */
  method Append(tree: Tree, parent: nat, child: nat) returns (ok: bool)
    requires tree.Forested() && parent in tree.forms && child in tree.forms
    modifies tree, tree.nodes
    ensures ok <==> !old(CycleSeen(tree.forms, parent, child))
    ensures !ok ==> unchanged(tree) && unchanged(tree.nodes)
    ensures tree.nodes.Valid() && SameLive(old(tree.nodes.slots), tree.nodes.slots)
    ensures ok ==> tree.View() == old(Relinked(tree.View(), parent, Last, child))
    ensures ok ==> (IsForest(tree.nodes.slots) <==> parent !in Pre(old(tree.forms)[child]))
    ensures tree.Forested() <==> IsForest(tree.nodes.slots)
  {
    hide IsForest, LinksIn, Represents, FreeExact, Attached, Pre, CycleSeen, Inserted;
    ForestsKnown(tree.nodes.slots, tree.forms);
    var cycle := WouldCreateCycle(tree, parent, child);
    if cycle {
      return false;
    }
    Loosen(tree, child);
    ghost var s, f := tree.nodes.slots, tree.forms;
    LinksLive(s, f, parent);
    LinkLast(tree, parent, child);
    LinksKeepLive(old(tree.nodes.slots), s, tree.nodes.slots, parent, s[parent].value.lastChild, None, child);
    LinkOutcome(s, tree.nodes.slots, f, parent, Last, child);
    tree.forms := if parent in Pre(f[child]) then map[] else Inserted(f, parent, Last, child);
    ForestsKnown(tree.nodes.slots, tree.forms);
    tree.BumpVersion();
    return true;
  }

  /** Makes `child` the first child of `parent`; otherwise as `Append`. */
  method Prepend(tree: Tree, parent: nat, child: nat) returns (ok: bool)
    requires tree.Forested() && parent in tree.forms && child in tree.forms
    modifies tree, tree.nodes
    ensures ok <==> !old(CycleSeen(tree.forms, parent, child))
    ensures !ok ==> unchanged(tree) && unchanged(tree.nodes)
    ensures tree.nodes.Valid() && SameLive(old(tree.nodes.slots), tree.nodes.slots)
    ensures ok ==> tree.View() == old(Relinked(tree.View(), parent, First, child))
    ensures ok ==> (IsForest(tree.nodes.slots) <==> parent !in Pre(old(tree.forms)[child]))
    ensures tree.Forested() <==> IsForest(tree.nodes.slots)
  {
    hide IsForest, LinksIn, Represents, FreeExact, Attached, Pre, CycleSeen, Inserted;
    ForestsKnown(tree.nodes.slots, tree.forms);
    var cycle := WouldCreateCycle(tree, parent, child);
    if cycle {
      return false;
    }
    Loosen(tree, child);
    ghost var s, f := tree.nodes.slots, tree.forms;
    LinksLive(s, f, parent);
    LinkFirst(tree, parent, child);
    LinksKeepLive(old(tree.nodes.slots), s, tree.nodes.slots, parent, None, s[parent].value.firstChild, child);
    LinkOutcome(s, tree.nodes.slots, f, parent, First, child);
    tree.forms := if parent in Pre(f[child]) then map[] else Inserted(f, parent, First, child);
    ForestsKnown(tree.nodes.slots, tree.forms);
    tree.BumpVersion();
    return true;
  }

  /** Puts `child` right behind `after` in the row of `parent`, or first.  What passes the cycle check
      leaves a forest exactly when `parent` is not inside `child` and `after` is another child of
      `parent`; the code checks neither. */
  method InsertAfter(tree: Tree, parent: nat, after: Option<nat>, child: nat) returns (ok: bool)
    requires tree.Forested() && parent in tree.forms && child in tree.forms
    requires after.Some? ==> after.value in tree.forms
    modifies tree, tree.nodes
    ensures ok <==> !old(CycleSeen(tree.forms, parent, child))
    ensures !ok ==> unchanged(tree) && unchanged(tree.nodes)
    ensures tree.nodes.Valid() && SameLive(old(tree.nodes.slots), tree.nodes.slots)
    ensures ok ==> tree.View() == old(Relinked(tree.View(), parent, AfterPlace(after), child))
    ensures ok ==> (IsForest(tree.nodes.slots) <==> old(Keeps(tree.forms, parent, AfterPlace(after), child)))
    ensures tree.Forested() <==> IsForest(tree.nodes.slots)
  {
    hide IsForest, Represents, FreeExact, Attached, Pre, KidMap, Detached, Inserted, WellFormed, Distinct, CycleSeen;
    ForestsKnown(tree.nodes.slots, tree.forms);
    var cycle := WouldCreateCycle(tree, parent, child);
    if cycle {
      return false;
    }
    RepresentsParts(tree.nodes.slots, tree.forms);
    LoosenedOnce(tree.forms, parent, child);
    Loosen(tree, child);
    match after {
      case None =>
        var again := Prepend(tree, parent, child);
        assert again;
      case Some(sibling) =>
        InsertBehind(tree, parent, sibling, child);
    }
    return true;
  }

  /** The rest of `insert_after` behind a sibling, the child being loose by now. */
  method InsertBehind(tree: Tree, parent: nat, sibling: nat, child: nat)
    requires tree.Forested() && parent in tree.forms && child in tree.forms && sibling in tree.forms
    requires Live(tree.nodes.slots, child) && tree.nodes.slots[child].value.parent == None
    modifies tree, tree.nodes
    ensures tree.nodes.Valid() && SameLive(old(tree.nodes.slots), tree.nodes.slots)
    ensures var kept := parent !in Pre(old(tree.forms)[child]) && sibling in KidMap(old(tree.forms))[parent];
            && (IsForest(tree.nodes.slots) <==> kept) && (tree.Forested() <==> kept)
            && tree.View() == old(tree.View()).(
                 forms := if kept then Inserted(old(tree.forms), parent, After(sibling), child) else map[],
                 version := old(tree.version) + 1)
  {
    hide IsForest, LinksIn, Represents, FreeExact, Pre;
    ghost var s, f := tree.nodes.slots, tree.forms;
    LinksLive(s, f, parent);
    LinksLive(s, f, sibling);
    LinkAfter(tree, parent, sibling, child);
    if sibling in KidMap(f)[parent] {
      LinkOutcome(s, tree.nodes.slots, f, parent, After(sibling), child);
    } else {
      MisplacedAfter(s, tree.nodes.slots, f, parent, sibling, child);
    }
    ghost var kept := parent !in Pre(f[child]) && sibling in KidMap(f)[parent];
    tree.forms := if kept then Inserted(f, parent, After(sibling), child) else map[];
    ForestsKnown(tree.nodes.slots, tree.forms);
    tree.BumpVersion();
  }

  /** Unlinking before the move changes nothing that the second cycle check looks at, and unlinking
      twice is unlinking once. */
  lemma LoosenedOnce(f: Forest, parent: nat, child: nat)
    requires WellFormed(f) && child in f && !CycleSeen(f, parent, child)
    ensures var g := Detached(f, child);
            && g.Keys == f.Keys && !CycleSeen(g, parent, child)
            && Detached(g, child) == g && g[child] == f[child]
            && (forall p :: p in f ==> KidMap(g)[p] == Without(KidMap(f)[p], child))
  {
    assert Pre(f[child])[0] == child;
    DetachedWellFormed(f, child);
    DetachedKeepsSubtree(f, child);
    DetachedUnattached(Detached(f, child), child);
    DetachedKids(f, child);
  }

  ghost function AfterPlace(after: Option<nat>): Place {
    match after
    case None => First
    case Some(x) => After(x)
  }

  // ---------------------------------------------------------------- removing

  /** Frees `node` and everything below it, each slot once, in preorder. */
  method DropSubtree(tree: Tree, node: nat)
    requires tree.Forested() && node in tree.forms && !Attached(tree.forms, node)
    modifies tree`forms, tree.nodes
    ensures tree.Forested()
    ensures tree.View() == old(tree.View()).(forms := Dropped(old(tree.forms), node),
                                             free := old(tree.nodes.free) + Pre(old(tree.forms)[node]))
    ensures forall x :: 0 <= x < |old(tree.nodes.slots)| ==>
              tree.nodes.slots[x] == if x in Pre(old(tree.forms)[node]) then None else old(tree.nodes.slots)[x]
  {
    hide Represents, FreeExact, PreAll, Pending, KidMap, Reversed;
    ghost var f, s, free := tree.forms, tree.nodes.slots, tree.nodes.free;
    ghost var done: seq<nat> := [];
    var stack := [node];
    RepresentsParts(s, f);
    SingleStack(f, node);
    while |stack| > 0
      invariant tree.nodes.Valid() && StackIn(f, stack)
      invariant done + PreAll(Pending(f, stack)) == Pre(f[node])
      invariant tree.nodes.free == free + done
      invariant DroppedSoFar(s, tree.nodes.slots, done)
      decreases |PreAll(Pending(f, stack))|
    {
      var current := stack[|stack| - 1];
      RowStillReadable(s, tree.nodes.slots, f, node, done, stack);
      PreorderStep(f, stack);
      stack := PushChildren(tree.nodes, current, stack[..|stack| - 1], KidMap(f)[current]);
      var _ := tree.nodes.Remove(current);
      done := done + [current];
    }
    NothingPending(f);
    DropForest(s, tree.nodes.slots, f, node);
    tree.forms := Dropped(f, node);
  }

  ghost predicate DroppedSoFar(s: Slots, t: Slots, done: seq<nat>) {
    |t| == |s| && forall x :: 0 <= x < |s| ==> t[x] == if x in done then None else s[x]
  }

  lemma NothingPending(f: Forest)
    ensures PreAll(Pending(f, [])) == []
  {
  }

  /** The node on top of the stack and its children have not been freed yet. */
  lemma RowStillReadable(s: Slots, t: Slots, f: Forest, node: nat, done: seq<nat>, stack: seq<nat>)
    requires Represents(s, f) && node in f && StackIn(f, stack) && |stack| > 0
    requires done + PreAll(Pending(f, stack)) == Pre(f[node])
    requires DroppedSoFar(s, t, done)
    ensures var x := stack[|stack| - 1];
            RowReadable(t, x, KidMap(f)[x]) && t[x] == s[x]
  {
    var x := stack[|stack| - 1];
    var row, rest := KidMap(f)[x], PreAll(Pending(f, stack));
    ForestRowReadable(s, f, x);
    PreNoDup(f, node);
    TopRowPending(f, stack);
    NoDupApart(done, rest);
  }

  lemma TopRowPending(f: Forest, stack: seq<nat>)
    requires Consistent(f) && StackIn(f, stack) && |stack| > 0
    ensures var x := stack[|stack| - 1];
            x in PreAll(Pending(f, stack)) && forall c :: c in KidMap(f)[x] ==> c in PreAll(Pending(f, stack))
  {
    var x := stack[|stack| - 1];
    PendingPop(f, stack);
    var row := KidMap(f)[x];
    assert Pre(f[x])[0] == x;
    forall i | 0 <= i < |row|
      ensures row[i] in Pre(f[x])
    {
      KidOfPart(f, x, x, i);
    }
  }

  /** Removes `node` and its entire subtree. The version is left for the caller to bump. */
  method Remove(tree: Tree, node: nat)
    requires tree.Forested() && node in tree.forms
    modifies tree`forms, tree.nodes
    ensures tree.Forested()
    ensures tree.View() == Arenas.Remove(old(tree.View()), node)
  {
    DetachedWellFormed(tree.forms, node);
    Unlink(tree, node);
    DropSubtree(tree, node);
  }
}
