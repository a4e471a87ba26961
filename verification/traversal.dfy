/** What the explicit-stack walks share: a stack of slab indices stands for the forms still to visit,
    the top one first, and pushing a node's children from last to first puts its row on top. */
module Traversal {
  import opened Forms
  import opened Edits
  import opened Slabs
  import opened Links

  ghost function Reversed<A>(s: seq<A>): (r: seq<A>)
    ensures |r| == |s|
  {
    seq(|s|, i requires 0 <= i < |s| => s[|s| - 1 - i])
  }

  lemma ReversedStep<A>(s: seq<A>, j: nat)
    requires 0 < j <= |s|
    ensures Reversed(s[j - 1..]) == Reversed(s[j..]) + [s[j - 1]]
  {
  }

  ghost predicate StackIn(f: Forest, stack: seq<nat>) {
    forall i :: 0 <= i < |stack| ==> stack[i] in f
  }

  ghost function Pending(f: Forest, stack: seq<nat>): (ts: seq<Form>)
    requires StackIn(f, stack)
    ensures |ts| == |stack|
  {
    seq(|stack|, i requires 0 <= i < |stack| => f[stack[|stack| - 1 - i]])
  }

  lemma PendingPop(f: Forest, stack: seq<nat>)
    requires StackIn(f, stack) && |stack| > 0
    ensures StackIn(f, stack[..|stack| - 1])
    ensures Pending(f, stack) == [f[stack[|stack| - 1]]] + Pending(f, stack[..|stack| - 1])
  {
  }

  lemma PendingPush(f: Forest, stack: seq<nat>, x: nat)
    requires Consistent(f) && StackIn(f, stack) && x in f
    ensures var grown := stack + Reversed(KidMap(f)[x]);
            StackIn(f, grown) && Pending(f, grown) == f[x].kids + Pending(f, stack)
  {
    var row := KidMap(f)[x];
    var grown := stack + Reversed(row);
    forall i | 0 <= i < |row|
      ensures row[i] in f && f[row[i]] == f[x].kids[i]
    {
      assert KidKnown(f, x, i);
    }
    assert forall i :: 0 <= i < |row| ==> grown[|grown| - 1 - i] == row[i];
  }

  /** Taking the top of the stack and pushing its row leaves exactly the rest of the preorder. */
  lemma PreorderStep(f: Forest, stack: seq<nat>)
    requires Consistent(f) && StackIn(f, stack) && |stack| > 0
    ensures var x := stack[|stack| - 1];
            var grown := stack[..|stack| - 1] + Reversed(KidMap(f)[x]);
            StackIn(f, grown) && PreAll(Pending(f, stack)) == [x] + PreAll(Pending(f, grown))
  {
    var x, base := stack[|stack| - 1], stack[..|stack| - 1];
    PendingPop(f, stack);
    PendingPush(f, base, x);
    PreAllConcat(f[x].kids, Pending(f, base));
    hide Pending, KidMap;
    assert PreAll(Pending(f, stack)) == Pre(f[x]) + PreAll(Pending(f, base));
  }

  lemma SingleStack(f: Forest, x: nat)
    requires x in f
    ensures StackIn(f, [x]) && PreAll(Pending(f, [x])) == Pre(f[x])
  {
    assert Pending(f, [x]) == [f[x]];
    assert PreAll([f[x]]) == Pre(f[x]) + PreAll([]);
  }

  lemma NoneReversed<A>(s: seq<A>)
    ensures Reversed(s[|s|..]) == [] && s[0..] == s
  {
  }

  /** `row` can be read off the slab backwards from the last child of `x`. */
  ghost predicate RowReadable(s: Slots, x: nat, row: seq<nat>) {
    && Live(s, x)
    && s[x].value.lastChild == LastOf(row)
    && (forall i {:trigger row[i]} :: 0 <= i < |row| ==>
          Live(s, row[i]) && s[row[i]].value.previousSibling == Before(row, i))
  }

  lemma ForestRowReadable(s: Slots, f: Forest, x: nat)
    requires Represents(s, f) && x in f
    ensures RowReadable(s, x, KidMap(f)[x])
  {
    var row := KidMap(f)[x];
    assert EndsAgree(s, x, row);
    forall i | 0 <= i < |row|
      ensures Live(s, row[i]) && s[row[i]].value.previousSibling == Before(row, i)
    {
      assert PlaceAgrees(s, x, row, i);
    }
  }

  /** The inner loop of the preorder walks. */
  method PushChildren(nodes: Slab<Node>, x: nat, stack: seq<nat>, ghost row: seq<nat>) returns (grown: seq<nat>)
    requires RowReadable(nodes.slots, x, row)
    ensures grown == stack + Reversed(row)
  {
    hide Reversed;
    grown := stack;
    ghost var j: nat := |row|;
    var cursor := nodes.At(x).lastChild;
    NoneReversed(row);
    while cursor.Some?
      invariant 0 <= j <= |row| && cursor == Before(row, j)
      invariant grown == stack + Reversed(row[j..])
      decreases j
    {
      assert row[j - 1] == cursor.value;
      var previous := nodes.At(cursor.value).previousSibling;
      ReversedStep(row, j);
      grown := grown + [cursor.value];
      cursor := previous;
      j := j - 1;
    }
  }

  lemma FirstCursor(s: Slots, f: Forest, x: nat)
    requires Represents(s, f) && x in f
    ensures Live(s, x) && s[x].value.firstChild == From(KidMap(f)[x], 0)
  {
    assert EndsAgree(s, x, KidMap(f)[x]);
  }

  lemma NextCursor(s: Slots, f: Forest, x: nat, i: nat)
    requires Represents(s, f) && x in f && i < |KidMap(f)[x]|
    ensures var c := KidMap(f)[x][i];
            && c in f && f[c] == f[x].kids[i]
            && Live(s, c) && s[c].value.nextSibling == From(KidMap(f)[x], i + 1)
  {
    assert PlaceAgrees(s, x, KidMap(f)[x], i);
    assert KidKnown(f, x, i);
  }
}
