/** The trees that the node slab stands for, as plain values.

    A `Form` is one node together with everything below it, each node labelled with its slab index.
    A `Forest` gives the form rooted at every live slot.  Forms are finite, so a slab that has a
    forest has no cycle. */
module Forms {
  import opened Rows
  import opened Utf8
  import Atoms

  datatype NodeType = Atom(atom: Atoms.Atom) | List

  datatype Form = Form(id: nat, kind: NodeType, kids: seq<Form>)

  type Forest = map<nat, Form>

  /** An S-expression with the slab indices forgotten. */
  datatype SExpr = AtomExpr(text: seq<Byte>) | ListExpr(items: seq<SExpr>)

  /** The S-expression of a form.  Printing, equality and the top of a clone all ignore whatever
      hangs below an atom, and so does this. */
  ghost function Abs(t: Form): SExpr
    decreases t, 1
  {
    match t.kind
    case Atom(a) => AtomExpr(Atoms.AsStr(a))
    case List => ListExpr(AbsAll(t.kids))
  }

  ghost function AbsAll(ts: seq<Form>): (es: seq<SExpr>)
    ensures |es| == |ts|
    ensures forall i :: 0 <= i < |ts| ==> es[i] == Abs(ts[i])
    decreases ts, 0
  {
    if ts == [] then [] else [Abs(ts[0])] + AbsAll(ts[1..])
  }

  /** Slab indices of a form in preorder. */
  ghost function Pre(t: Form): (ids: seq<nat>)
    ensures |ids| > 0 && ids[0] == t.id
    decreases t, 1
  {
    [t.id] + PreAll(t.kids)
  }

  ghost function PreAll(ts: seq<Form>): seq<nat>
    decreases ts, 0
  {
    if ts == [] then [] else Pre(ts[0]) + PreAll(ts[1..])
  }

  ghost function Size(t: Form): nat {
    |Pre(t)|
  }

  /** Slab indices of a row of siblings. */
  ghost function Ids(ts: seq<Form>): (ids: seq<nat>)
    ensures |ids| == |ts|
    ensures forall i :: 0 <= i < |ts| ==> ids[i] == ts[i].id
  {
    seq(|ts|, i requires 0 <= i < |ts| => ts[i].id)
  }

  lemma {:induction false} PreAllConcat(ts: seq<Form>, us: seq<Form>)
    ensures PreAll(ts + us) == PreAll(ts) + PreAll(us)
  {
    if ts == [] {
      assert ts + us == us;
    } else {
      assert (ts + us)[1..] == ts[1..] + us;
      PreAllConcat(ts[1..], us);
    }
  }

  lemma PreAllSnoc(ts: seq<Form>, t: Form)
    ensures PreAll(ts + [t]) == PreAll(ts) + Pre(t)
  {
    hide Pre;
    PreAllConcat(ts, [t]);
    assert PreAll([t]) == Pre(t) + PreAll([]);
  }

  lemma {:induction false} PreAllMember(ts: seq<Form>, x: nat)
    ensures x in PreAll(ts) <==> exists i :: 0 <= i < |ts| && x in Pre(ts[i])
  {
    if ts != [] {
      PreAllMember(ts[1..], x);
      assert forall i :: 0 < i < |ts| ==> ts[i] == ts[1..][i - 1];
      if x in PreAll(ts) && x !in Pre(ts[0]) {
        var j :| 0 <= j < |ts[1..]| && x in Pre(ts[1..][j]);
        assert x in Pre(ts[j + 1]);
      }
    }
  }

  /** A child's subtree is part of its parent's, and smaller. */
  lemma KidInside(t: Form, i: nat)
    requires i < |t.kids|
    ensures Size(t.kids[i]) < Size(t)
    ensures forall x :: x in Pre(t.kids[i]) ==> x in Pre(t)
  {
    assert t.kids == t.kids[..i] + t.kids[i..];
    PreAllConcat(t.kids[..i], t.kids[i..]);
  }

  /** Preorder: the node first, then its children's subtrees one after the other in row order. */
  lemma PreInOrder(t: Form, k: nat)
    requires k < |t.kids|
    ensures var i, n := 1 + |PreAll(t.kids[..k])|, Size(t.kids[k]);
            && Pre(t)[0] == t.id && i + n <= Size(t) && Pre(t)[i..i + n] == Pre(t.kids[k])
            && i + n == 1 + |PreAll(t.kids[..k + 1])|
  {
    hide PreAll;
    var before, kid, behind := t.kids[..k], t.kids[k], t.kids[k + 1..];
    assert t.kids == (before + [kid]) + behind && t.kids[..k + 1] == before + [kid];
    PreAllConcat(before + [kid], behind);
    PreAllSnoc(before, kid);
    assert Pre(t) == [t.id] + (PreAll(before) + Pre(kid)) + PreAll(behind);
  }

  // ---------------------------------------------------------------- well-formed forests

  ghost predicate KidKnown(f: Forest, p: nat, i: nat)
    requires p in f && i < |f[p].kids|
  {
    var k := f[p].kids[i];
    k.id in f && f[k.id] == k
  }

  /** Every entry is rooted at its own index and is made of the entries of its children. */
  ghost predicate Consistent(f: Forest) {
    && (forall x :: x in f ==> f[x].id == x)
    && (forall p, i {:trigger KidKnown(f, p, i)} :: p in f && 0 <= i < |f[p].kids| ==> KidKnown(f, p, i))
  }

  ghost predicate SamePlace(f: Forest, p: nat, i: nat, q: nat, j: nat)
    requires p in f && i < |f[p].kids| && q in f && j < |f[q].kids|
  {
    f[p].kids[i].id == f[q].kids[j].id ==> p == q && i == j
  }

  /** No node occurs at two places. */
  ghost predicate UniquePlaces(f: Forest) {
    forall p, i, q, j {:trigger SamePlace(f, p, i, q, j)} ::
      p in f && q in f && 0 <= i < |f[p].kids| && 0 <= j < |f[q].kids| ==> SamePlace(f, p, i, q, j)
  }

  ghost predicate WellFormed(f: Forest) {
    Consistent(f) && UniquePlaces(f)
  }

  /** `c` hangs below some node. */
  ghost predicate Attached(f: Forest, c: nat) {
    exists p, i :: p in f && 0 <= i < |f[p].kids| && f[p].kids[i].id == c
  }

  /** Every index inside an entry has its own entry, which is no larger. */
  lemma {:induction false} PartKnown(f: Forest, a: nat, y: nat)
    requires Consistent(f) && a in f && y in Pre(f[a])
    ensures y in f && Size(f[y]) <= Size(f[a])
    ensures Size(f[y]) == Size(f[a]) ==> y == a
    ensures forall z :: z in Pre(f[y]) ==> z in Pre(f[a])
    decreases Size(f[a])
  {
    if y != a {
      PreAllMember(f[a].kids, y);
      var i :| 0 <= i < |f[a].kids| && y in Pre(f[a].kids[i]);
      assert KidKnown(f, a, i);
      KidInside(f[a], i);
      PartKnown(f, f[a].kids[i].id, y);
    }
  }

  lemma {:induction false} PartHasParent(f: Forest, a: nat, y: nat) returns (p: nat, i: nat)
    requires Consistent(f) && a in f && y in Pre(f[a]) && y != a
    ensures p in f && p in Pre(f[a]) && i < |f[p].kids| && f[p].kids[i].id == y
    decreases Size(f[a])
  {
    PreAllMember(f[a].kids, y);
    var j :| 0 <= j < |f[a].kids| && y in Pre(f[a].kids[j]);
    assert KidKnown(f, a, j);
    KidInside(f[a], j);
    if f[a].kids[j].id == y {
      p, i := a, j;
    } else {
      p, i := PartHasParent(f, f[a].kids[j].id, y);
    }
  }

  /** A node that holds `p` also holds the children of `p`. */
  lemma KidOfPart(f: Forest, a: nat, p: nat, i: nat)
    requires Consistent(f) && a in f && p in Pre(f[a])
    requires p in f && i < |f[p].kids|
    ensures f[p].kids[i].id in Pre(f[a])
  {
    PartKnown(f, a, p);
    KidInside(f[p], i);
  }

  /** In a tree of unique places, an attached node lies in a subtree exactly when its parent does,
      unless it is the top. */
  lemma ParentOfPart(f: Forest, a: nat, p: nat, i: nat)
    requires WellFormed(f) && a in f && p in f && i < |f[p].kids|
    requires f[p].kids[i].id in Pre(f[a]) && f[p].kids[i].id != a
    ensures p in Pre(f[a])
  {
    var q, j := PartHasParent(f, a, f[p].kids[i].id);
    assert SamePlace(f, p, i, q, j);
  }

  /** Two subtrees that share a node are nested. */
  lemma {:induction false} SharedMeansNested(f: Forest, a: nat, b: nat, y: nat)
    requires WellFormed(f) && a in f && b in f
    requires y in Pre(f[a]) && y in Pre(f[b])
    ensures a in Pre(f[b]) || b in Pre(f[a])
    decreases Size(f[a]) - Size(if y in f then f[y] else f[a])
  {
    PartKnown(f, a, y);
    if y != a && y != b {
      var p, i := PartHasParent(f, a, y);
      ParentOfPart(f, b, p, i);
      assert KidKnown(f, p, i);
      KidInside(f[p], i);
      PartKnown(f, a, p);
      SharedMeansNested(f, a, b, p);
    }
  }

  /** Different children of one node have disjoint subtrees. */
  lemma KidsDisjoint(f: Forest, p: nat, i: nat, j: nat, y: nat)
    requires WellFormed(f) && p in f && i < |f[p].kids| && j < |f[p].kids| && i != j
    requires y in Pre(f[p].kids[i])
    ensures y !in Pre(f[p].kids[j])
  {
    if y in Pre(f[p].kids[j]) {
      var a, b := f[p].kids[i].id, f[p].kids[j].id;
      assert KidKnown(f, p, i) && KidKnown(f, p, j) && SamePlace(f, p, i, p, j);
      SharedMeansNested(f, a, b, y);
      if a in Pre(f[b]) {
        ParentOfPart(f, b, p, i);
        PartKnown(f, b, p);
        KidInside(f[p], j);
      } else {
        ParentOfPart(f, a, p, j);
        PartKnown(f, a, p);
        KidInside(f[p], i);
      }
      assert false;
    }
  }

  lemma NotBelowItself(f: Forest, a: nat)
    requires Consistent(f) && a in f
    ensures a !in PreAll(f[a].kids)
  {
    PreAllMember(f[a].kids, a);
    if a in PreAll(f[a].kids) {
      var i :| 0 <= i < |f[a].kids| && a in Pre(f[a].kids[i]);
      assert KidKnown(f, a, i);
      KidInside(f[a], i);
      PartKnown(f, f[a].kids[i].id, a);
      assert false;
    }
  }

  /** A subtree visits no index twice. */
  lemma {:induction false} PreNoDup(f: Forest, a: nat)
    requires WellFormed(f) && a in f
    ensures NoDup(Pre(f[a]))
    decreases Size(f[a]), |f[a].kids| + 1
  {
    PreAllNoDup(f, a, 0);
    assert f[a].kids[0..] == f[a].kids;
    NotBelowItself(f, a);
    NoDupConcat([a], PreAll(f[a].kids));
  }

  lemma {:induction false} PreAllNoDup(f: Forest, a: nat, n: nat)
    requires WellFormed(f) && a in f && n <= |f[a].kids|
    ensures NoDup(PreAll(f[a].kids[n..]))
    decreases Size(f[a]), |f[a].kids| - n
  {
    var ts := f[a].kids;
    if n < |ts| {
      assert KidKnown(f, a, n);
      KidInside(f[a], n);
      PreNoDup(f, ts[n].id);
      PreAllNoDup(f, a, n + 1);
      assert ts[n..][1..] == ts[n + 1..];
      forall y | y in Pre(ts[n])
        ensures y !in PreAll(ts[n + 1..])
      {
        PreAllMember(ts[n + 1..], y);
        if y in PreAll(ts[n + 1..]) {
          var j :| 0 <= j < |ts[n + 1..]| && y in Pre(ts[n + 1..][j]);
          KidsDisjoint(f, a, n, n + 1 + j, y);
          assert false;
        }
      }
      NoDupConcat(Pre(ts[n]), PreAll(ts[n + 1..]));
    }
  }
}
