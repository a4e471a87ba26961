/** src/py/shared.rs: structural equality of two subtrees with an explicit stack of pairs. */
module Equality {
  import opened Forms
  import opened Edits
  import opened Links
  import opened Surgery
  import opened Trees
  import opened Traversal
  import opened Cloning
  import Slabs
  import Atoms

  ghost predicate PairsEqual(f: Forest, g: Forest, stack: seq<(nat, nat)>)
    requires PairsIn(f, g, stack)
  {
    forall i {:trigger stack[i]} :: 0 <= i < |stack| ==> Abs(f[stack[i].0]) == Abs(g[stack[i].1])
  }

  /** Nodes that the left halves of the pending pairs still hold. */
  ghost function Weight(f: Forest, stack: seq<(nat, nat)>): nat
    requires forall i :: 0 <= i < |stack| ==> stack[i].0 in f
  {
    if stack == [] then 0 else Size(f[stack[|stack| - 1].0]) + Weight(f, stack[..|stack| - 1])
  }

  ghost function Zip(left: seq<nat>, right: seq<nat>): (r: seq<(nat, nat)>)
    requires |left| == |right|
    ensures |r| == |left|
  {
    seq(|left|, i requires 0 <= i < |left| => (left[i], right[i]))
  }

  lemma WeightLast(f: Forest, stack: seq<(nat, nat)>)
    requires stack != [] && stack[|stack| - 1].0 in f
    requires forall i :: 0 <= i < |stack| ==> stack[i].0 in f
    ensures Weight(f, stack) == Size(f[stack[|stack| - 1].0]) + Weight(f, stack[..|stack| - 1])
  {
  }

  lemma PreAllLast(ts: seq<Form>)
    requires ts != []
    ensures |PreAll(ts)| == |PreAll(ts[..|ts| - 1])| + Size(ts[|ts| - 1])
  {
    hide Pre, PreAll;
    var n := |ts| - 1;
    assert ts == ts[..n] + [ts[n]];
    PreAllSnoc(ts[..n], ts[n]);
  }

  lemma {:induction false} ZipWeight(f: Forest, base: seq<(nat, nat)>, ts: seq<Form>, left: seq<nat>, right: seq<nat>)
    requires forall i :: 0 <= i < |base| ==> base[i].0 in f
    requires |left| == |right| == |ts|
    requires forall i {:trigger left[i]} :: 0 <= i < |left| ==> left[i] in f && f[left[i]] == ts[i]
    ensures forall i :: 0 <= i < |base + Zip(left, right)| ==> (base + Zip(left, right))[i].0 in f
    ensures Weight(f, base + Zip(left, right)) == Weight(f, base) + |PreAll(ts)|
  {
    hide Pre, PreAll, Weight;
    var n := |ts|;
    if n == 0 {
      assert base + Zip(left, right) == base;
      NoSize();
    } else {
      ZipWeight(f, base, ts[..n - 1], left[..n - 1], right[..n - 1]);
      var whole := base + Zip(left, right);
      assert whole[..|whole| - 1] == base + Zip(left[..n - 1], right[..n - 1]);
      assert whole[|whole| - 1] == (left[n - 1], right[n - 1]);
      WeightLast(f, whole);
      PreAllLast(ts);
    }
  }

  /** Pushing the paired children of two lists of equal length asks the same question. */
  lemma PairStep(f: Forest, g: Forest, stack: seq<(nat, nat)>)
    requires Consistent(f) && Consistent(g) && PairsIn(f, g, stack) && |stack| > 0
    ensures var base := stack[..|stack| - 1];
            var (x, y) := stack[|stack| - 1];
            && (PairsEqual(f, g, stack) <==> Abs(f[x]) == Abs(g[y]) && PairsEqual(f, g, base))
            && Weight(f, base) < Weight(f, stack)
            && (f[x].kind.List? && g[y].kind.List? && |f[x].kids| == |g[y].kids| ==>
                  var grown := base + Zip(KidMap(f)[x], KidMap(g)[y]);
                  && PairsIn(f, g, grown)
                  && (PairsEqual(f, g, grown) <==> PairsEqual(f, g, stack))
                  && Weight(f, grown) < Weight(f, stack))
  {
    var base := stack[..|stack| - 1];
    var (x, y) := stack[|stack| - 1];
    assert stack == base + [(x, y)];
    if f[x].kind.List? && g[y].kind.List? && |f[x].kids| == |g[y].kids| {
      KidsPaired(f, g, base, x, y);
    }
  }

  lemma KidsPaired(f: Forest, g: Forest, base: seq<(nat, nat)>, x: nat, y: nat)
    requires Consistent(f) && Consistent(g) && PairsIn(f, g, base) && x in f && y in g
    requires f[x].kind.List? && g[y].kind.List? && |f[x].kids| == |g[y].kids|
    ensures var grown := base + Zip(KidMap(f)[x], KidMap(g)[y]);
            && PairsIn(f, g, grown)
            && (PairsEqual(f, g, grown) <==> Abs(f[x]) == Abs(g[y]) && PairsEqual(f, g, base))
            && Weight(f, grown) < Size(f[x]) + Weight(f, base)
  {
    hide Abs, AbsAll, Weight, PairsEqual, Pre, PreAll;
    var ks, ls := f[x].kids, g[y].kids;
    var left, right := KidMap(f)[x], KidMap(g)[y];
    var zipped := Zip(left, right);
    var grown := base + zipped;
    forall i {:trigger zipped[i]} {:trigger left[i]} | 0 <= i < |zipped|
      ensures left[i] in f && f[left[i]] == ks[i] && right[i] in g && g[right[i]] == ls[i]
      ensures zipped[i] == (left[i], right[i])
    {
      assert KidKnown(f, x, i) && KidKnown(g, y, i);
    }
    ZipWeight(f, base, ks, left, right);
    RowsEqual(ks, ls);
    ListsEqual(f[x], g[y]);
    SizeOfRow(f[x]);
    ZippedPairs(f, g, base, zipped, ks, ls);
  }

  lemma ZippedPairs(f: Forest, g: Forest, base: seq<(nat, nat)>, zipped: seq<(nat, nat)>, ks: seq<Form>, ls: seq<Form>)
    requires PairsIn(f, g, base) && PairsIn(f, g, zipped) && |zipped| == |ks| == |ls|
    requires forall i {:trigger zipped[i]} :: 0 <= i < |zipped| ==> f[zipped[i].0] == ks[i] && g[zipped[i].1] == ls[i]
    ensures PairsIn(f, g, base + zipped)
    ensures PairsEqual(f, g, base + zipped) <==>
            PairsEqual(f, g, base) && forall i :: 0 <= i < |ks| ==> Abs(ks[i]) == Abs(ls[i])
  {
    hide Abs;
    var grown := base + zipped;
    assert forall i {:trigger zipped[i]} {:trigger Abs(ks[i])} :: 0 <= i < |zipped| ==> grown[|base| + i] == zipped[i];
    assert forall i {:trigger base[i]} :: 0 <= i < |base| ==> grown[i] == base[i];
  }

  lemma ListsEqual(t: Form, u: Form)
    requires t.kind.List? && u.kind.List?
    ensures Abs(t) == Abs(u) <==> AbsAll(t.kids) == AbsAll(u.kids)
  {
  }

  lemma RowsEqual(ks: seq<Form>, ls: seq<Form>)
    requires |ks| == |ls|
    ensures AbsAll(ks) == AbsAll(ls) <==> forall i :: 0 <= i < |ks| ==> Abs(ks[i]) == Abs(ls[i])
  {
    var a, b := AbsAll(ks), AbsAll(ls);
    assert a == b <==> forall i :: 0 <= i < |a| ==> a[i] == b[i];
  }

  /** The row walk: pushes the children of both lists pairwise. */
  method PushPairs(left: Tree, l: nat, right: Tree, r: nat, stack: seq<(nat, nat)>) returns (grown: seq<(nat, nat)>)
    requires left.Forested() && right.Forested() && l in left.forms && r in right.forms
    requires |left.forms[l].kids| == |right.forms[r].kids|
    ensures grown == stack + Zip(KidMap(left.forms)[l], KidMap(right.forms)[r])
  {
    hide Represents;
    ghost var rowL, rowR := KidMap(left.forms)[l], KidMap(right.forms)[r];
    FirstCursor(left.nodes.slots, left.forms, l);
    FirstCursor(right.nodes.slots, right.forms, r);
    grown := stack;
    var lc, rc := left.Get(l).firstChild, right.Get(r).firstChild;
    ghost var i := 0;
    while lc.Some? && rc.Some?
      invariant 0 <= i <= |rowL| && lc == From(rowL, i) && rc == From(rowR, i)
      invariant grown == stack + Zip(rowL[..i], rowR[..i])
      decreases |rowL| - i
    {
      NextCursor(left.nodes.slots, left.forms, l, i);
      NextCursor(right.nodes.slots, right.forms, r, i);
      assert Zip(rowL[..i + 1], rowR[..i + 1]) == Zip(rowL[..i], rowR[..i]) + [(rowL[i], rowR[i])];
      grown := grown + [(lc.value, rc.value)];
      lc, rc := left.Get(lc.value).nextSibling, right.Get(rc.value).nextSibling;
      i := i + 1;
    }
    assert rowL[..i] == rowL && rowR[..i] == rowR;
  }

  /** True exactly when the two subtrees are the same S-expression. */
  method SubtreesEqual(left: Tree, leftNode: nat, right: Tree, rightNode: nat) returns (equal: bool)
    requires left.Forested() && right.Forested() && leftNode in left.forms && rightNode in right.forms
    ensures equal <==> Abs(left.forms[leftNode]) == Abs(right.forms[rightNode])
  {
    hide Represents, PairsEqual, Weight, Zip, KidMap, Slabs.FreeExact;
    ghost var f, g := left.forms, right.forms;
    RepresentsParts(left.nodes.slots, f);
    RepresentsParts(right.nodes.slots, g);
    var stack := [(leftNode, rightNode)];
    OnePair(f, g, leftNode, rightNode);
    while |stack| > 0
      invariant PairsIn(f, g, stack)
      invariant PairsEqual(f, g, stack) <==> Abs(f[leftNode]) == Abs(g[rightNode])
      decreases Weight(f, stack)
    {
      var (l, r) := stack[|stack| - 1];
      PairStep(f, g, stack);
      NodeRead(left.nodes.slots, f, l);
      NodeRead(right.nodes.slots, g, r);
      stack := stack[..|stack| - 1];
      match (left.Get(l).kind, right.Get(r).kind) {
        case (Atom(la), Atom(ra)) =>
          if Atoms.AsStr(la) != Atoms.AsStr(ra) {
            return false;
          }
        case (List, List) =>
          if left.Get(l).childCount != right.Get(r).childCount {
            return false;
          }
          stack := PushPairs(left, l, right, r, stack);
        case _ =>
          return false;
      }
    }
    NoPair(f, g);
    return true;
  }

  lemma OnePair(f: Forest, g: Forest, x: nat, y: nat)
    requires x in f && y in g
    ensures PairsIn(f, g, [(x, y)]) && (PairsEqual(f, g, [(x, y)]) <==> Abs(f[x]) == Abs(g[y]))
  {
    var stack := [(x, y)];
    assert stack[0] == (x, y);
  }

  lemma NoPair(f: Forest, g: Forest)
    ensures PairsEqual(f, g, [])
  {
  }

  lemma NodeRead(s: Slots, f: Forest, x: nat)
    requires Represents(s, f) && x in f
    ensures Live(s, x) && s[x].value.kind == f[x].kind && s[x].value.childCount == |f[x].kids|
  {
    assert EndsAgree(s, x, KidMap(f)[x]);
  }
}
