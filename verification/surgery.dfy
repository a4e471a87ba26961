/** Pointer surgery seen from the forest: each way of rewriting links against the edit it performs,
    and the rewrites after which the links encode no forest at all. */
module Surgery {
  import opened Wrappers
  import opened Rows
  import opened Forms
  import opened Edits
  import opened Links

  lemma ParentListed(s: Slots, f: Forest, c: nat)
    requires Represents(s, f) && c in f
    ensures Live(s, c)
    ensures Attached(f, c) <==> s[c].value.parent.Some?
    ensures s[c].value.parent.Some? ==>
              var p := s[c].value.parent.value;
              p in f && c in KidMap(f)[p] && (forall q :: q in f && c in KidMap(f)[q] ==> q == p)
  {
    var k := KidMap(f);
    assert UpAgrees(s, k, c);
    AttachedMeansListed(f, c);
    if s[c].value.parent.None? {
      forall q | q in k
        ensures c !in k[q]
      {
        LooseIsUnlisted(s, k, q, c);
      }
    }
    DistinctMeansUnique(f);
  }

  /** A child is found through its parent link, and lies strictly inside the parent's form. */
  lemma ChildInside(s: Slots, f: Forest, c: nat) returns (p: nat, i: nat)
    requires Represents(s, f) && c in f && s[c].value.parent.Some?
    ensures s[c].value.parent == Some(p) && p in f && i < |f[p].kids| && f[p].kids[i] == f[c]
    ensures KidMap(f)[p][i] == c
    ensures Size(f[c]) < Size(f[p]) && c in Pre(f[p])
    ensures PlaceAgrees(s, p, KidMap(f)[p], i)
  {
    ParentListed(s, f, c);
    p := s[c].value.parent.value;
    i :| 0 <= i < |KidMap(f)[p]| && KidMap(f)[p][i] == c;
    assert KidKnown(f, p, i);
    KidInside(f[p], i);
  }

  /** The walk up: the parent of a node lies in a subtree exactly when the node does, below the top. */
  lemma OneLinkUp(s: Slots, f: Forest, top: nat, x: nat)
    requires Represents(s, f) && top in f && x in f && x != top
    ensures x in Pre(f[top]) ==> s[x].value.parent.Some? && s[x].value.parent.value in Pre(f[top])
    ensures s[x].value.parent.Some? && s[x].value.parent.value in Pre(f[top]) ==> x in Pre(f[top])
  {
    if x in Pre(f[top]) {
      var q, j := PartHasParent(f, top, x);
      assert Attached(f, x);
      ParentListed(s, f, x);
      assert KidMap(f)[q][j] == x;
    }
    if s[x].value.parent.Some? {
      var p, i := ChildInside(s, f, x);
      if p in Pre(f[top]) {
        KidOfPart(f, top, p, i);
      }
    }
  }

  // ---------------------------------------------------------------- edits

  lemma RepresentsParts(s: Slots, f: Forest)
    requires Represents(s, f)
    ensures WellFormed(f) && Linked(s, KidMap(f)) && Distinct(KidMap(f)) && KindsAgree(s, f)
    ensures KidMap(f).Keys == f.Keys
    ensures forall x: nat :: x in f <==> Live(s, x)
  {
    DistinctMeansUnique(f);
    assert forall x :: x in f <==> x in KidMap(f);
  }

  lemma PartsRepresent(s: Slots, f: Forest)
    requires WellFormed(f) && Linked(s, KidMap(f)) && KindsAgree(s, f)
    ensures Represents(s, f)
  {
  }

  lemma UnlinkForest(s: Slots, t: Slots, f: Forest, c: nat)
    requires Represents(s, f) && c in f && Live(s, c) && Unlinks(s, t, c)
    ensures Represents(t, Detached(f, c))
    ensures Live(t, c) && t[c].value.parent == None
    ensures Detached(f, c)[c] == f[c]
  {
    UnlinkKinds(s, t, f, c);
    RepresentsParts(s, f);
    hide Linked, Represents, Unlinks, Unlinked, WellFormed, KidMap, KindsAgree;
    if s[c].value.parent.None? {
      UnlinkLooseForest(s, t, f, c);
    } else {
      UnlinkHungForest(s, t, f, c);
    }
    DetachedWellFormed(f, c);
    DetachedKeepsSubtree(f, c);
    PartsRepresent(t, Detached(f, c));
  }

  lemma UnlinkKinds(s: Slots, t: Slots, f: Forest, c: nat)
    requires KindsAgree(s, f) && Live(s, c) && Unlinks(s, t, c)
    ensures KindsAgree(t, Detached(f, c))
    ensures Live(t, c) && t[c].value.parent == None
  {
    assert t[c] == Some(Unlinked(s, c, c));
    assert forall x :: x in f ==> Live(s, x) && t[x] == Some(Unlinked(s, c, x));
  }

  lemma UnlinkLooseForest(s: Slots, t: Slots, f: Forest, c: nat)
    requires Represents(s, f) && c in f && Live(s, c) && Unlinks(s, t, c) && s[c].value.parent.None?
    ensures Linked(t, KidMap(Detached(f, c)))
  {
    UnlinkLoose(s, t, KidMap(f), c);
    ParentListed(s, f, c);
    DetachedUnattached(f, c);
  }

  lemma UnlinkHungForest(s: Slots, t: Slots, f: Forest, c: nat)
    requires Represents(s, f) && c in f && Live(s, c) && Unlinks(s, t, c) && s[c].value.parent.Some?
    ensures Linked(t, KidMap(Detached(f, c)))
  {
    var p, i := ChildInside(s, f, c);
    RepresentsParts(s, f);
    HungRows(f, c, p, i);
    var k := KidMap(f);
    hide Represents, Linked, KidMap, Unlinks, PlaceAgrees;
    UnlinkLinked(s, t, k, p, i);
  }

  lemma HungRows(f: Forest, c: nat, p: nat, i: nat)
    requires Distinct(KidMap(f)) && p in f && i < |KidMap(f)[p]| && KidMap(f)[p][i] == c
    ensures KidMap(Detached(f, c)) == KidMap(f)[p := KidMap(f)[p][..i] + KidMap(f)[p][i + 1..]]
  {
    var k := KidMap(f);
    DetachedKids(f, c);
    WithoutAt(k[p], i);
    forall q | q in k && q != p
      ensures Without(k[q], c) == k[q]
    {
      assert c in k[p];
    }
  }

  lemma LinkForest(s: Slots, t: Slots, f: Forest, p: nat, place: Place, c: nat)
    requires Represents(s, f) && c in f && p in f && Live(s, c) && s[c].value.parent == None
    requires p !in Pre(f[c])
    requires var row := KidMap(f)[p];
             var i := PlaceIndex(row, place);
             LinksIn(s, t, p, Before(row, i), From(row, i), c)
    ensures Represents(t, Inserted(f, p, place, c))
  {
    var k := KidMap(f);
    var i := PlaceIndex(k[p], place);
    RepresentsParts(s, f);
    ParentListed(s, f, c);
    LinkKinds(s, t, f, p, place, c);
    InsertedKids(f, p, place, c);
    hide LinksIn, KidMap, WellFormed, Distinct, PlaceIndex, KindsAgree, Represents, Linked;
    LinkInLinked(s, t, k, p, i, c);
    InsertedWellFormed(f, p, place, c);
    PartsRepresent(t, Inserted(f, p, place, c));
  }

  lemma LinkKinds(s: Slots, t: Slots, f: Forest, p: nat, place: Place, c: nat)
    requires KindsAgree(s, f) && c in f && p in f
    requires var row := KidMap(f)[p];
             var i := PlaceIndex(row, place);
             LinksIn(s, t, p, Before(row, i), From(row, i), c)
    ensures KindsAgree(t, Inserted(f, p, place, c))
  {
    var row := KidMap(f)[p];
    var i := PlaceIndex(row, place);
    LinkKeepsKinds(s, t, p, Before(row, i), From(row, i), c);
    hide LinksIn, Insert, PlaceIndex, KidMap;
    assert forall x :: x in f ==> Inserted(f, p, place, c)[x].kind == f[x].kind;
  }

  lemma LinkKeepsKinds(s: Slots, t: Slots, p: nat, before: Option<nat>, after: Option<nat>, c: nat)
    requires LinksIn(s, t, p, before, after, c)
    ensures forall x: nat :: Live(s, x) ==> Live(t, x) && t[x].value.kind == s[x].value.kind
  {
    assert forall x: nat :: Live(s, x) ==> t[x] == Some(LinkedIn(s, p, before, after, c, x));
  }

  lemma GrowForest(s: Slots, t: Slots, f: Forest, x: nat, kind: NodeType)
    requires Represents(s, f) && x <= |s| && (x < |s| ==> s[x].None?)
    requires t == if x < |s| then s[x := Some(NewNode(kind))] else s + [Some(NewNode(kind))]
    ensures x !in f && Represents(t, Grown(f, x, kind))
  {
    RepresentsParts(s, f);
    assert !Live(s, x);
    assert KidMap(Grown(f, x, kind)) == KidMap(f)[x := []];
    assert KindsAgree(t, Grown(f, x, kind));
    hide Linked, KidMap, WellFormed, KindsAgree, Represents;
    GrownWellFormed(f, x, kind);
    GrowLinks(s, t, KidMap(f), x, kind);
    PartsRepresent(t, Grown(f, x, kind));
  }

  lemma GrowLinks(s: Slots, t: Slots, k: Kids, x: nat, kind: NodeType)
    requires Linked(s, k) && x <= |s| && (x < |s| ==> s[x].None?)
    requires t == if x < |s| then s[x := Some(NewNode(kind))] else s + [Some(NewNode(kind))]
    ensures Linked(t, k[x := []])
  {
    LinkedClosed(s, k);
    hide Linked;
    assert forall q: nat :: Live(t, q) <==> q == x || Live(s, q);
    assert forall q: nat :: Live(s, q) ==> t[q] == s[q];
    CarriesLinked(s, t, k, k[x := []]);
  }

  lemma DropForest(s: Slots, t: Slots, f: Forest, c: nat)
    requires Represents(s, f) && c in f && !Attached(f, c)
    requires |t| == |s| && forall x :: 0 <= x < |s| ==> t[x] == if x in Pre(f[c]) then None else s[x]
    ensures Represents(t, Dropped(f, c))
  {
    RepresentsParts(s, f);
    DropCarries(s, t, f, c);
    assert KindsAgree(t, Dropped(f, c));
    hide Linked, KidMap, WellFormed, KindsAgree, Represents, Carries;
    DroppedWellFormed(f, c);
    CarriesLinked(s, t, KidMap(f), KidMap(Dropped(f, c)));
    PartsRepresent(t, Dropped(f, c));
  }

  lemma DropCarries(s: Slots, t: Slots, f: Forest, c: nat)
    requires Represents(s, f) && c in f && !Attached(f, c)
    requires |t| == |s| && forall x :: 0 <= x < |s| ==> t[x] == if x in Pre(f[c]) then None else s[x]
    ensures Carries(s, t, KidMap(f), KidMap(Dropped(f, c)))
  {
    var g := Dropped(f, c);
    var k, l := KidMap(f), KidMap(g);
    RepresentsParts(s, f);
    DroppedWellFormed(f, c);
    DropRows(f, c);
    forall q {:trigger s[q].value.parent} | q in g && s[q].value.parent.Some?
      ensures s[q].value.parent.value in g
    {
      DropParent(s, f, c, q);
    }
    DropLive(s, t, f, c);
    hide *;
    DropMeets(s, t, k, l);
  }

  lemma DropLive(s: Slots, t: Slots, f: Forest, c: nat)
    requires c in f && forall x: nat :: x in f <==> Live(s, x)
    requires |t| == |s| && forall x :: 0 <= x < |s| ==> t[x] == if x in Pre(f[c]) then None else s[x]
    ensures forall x: nat :: x in KidMap(Dropped(f, c)) <==> Live(t, x)
    ensures forall x: nat :: Live(t, x) ==> Live(s, x) && t[x] == s[x]
  {
  }

  lemma DropMeets(s: Slots, t: Slots, k: Kids, l: Kids)
    requires forall x: nat :: x in l <==> Live(t, x)
    requires forall x: nat :: Live(t, x) ==> Live(s, x) && t[x] == s[x]
    requires forall q :: q in l ==> q in k && l[q] == k[q]
    requires forall q, j {:trigger l[q][j]} :: q in l && 0 <= j < |l[q]| ==> l[q][j] in l
    requires forall q {:trigger s[q].value.parent} :: q in l && Live(s, q) && s[q].value.parent.Some? ==>
               s[q].value.parent.value in l
    ensures Carries(s, t, k, l)
  {
  }

  lemma DropRows(f: Forest, c: nat)
    requires c in f && Consistent(Dropped(f, c))
    ensures var k, l := KidMap(f), KidMap(Dropped(f, c));
            && (forall q :: q in l ==> q in k && l[q] == k[q])
            && (forall q, j {:trigger l[q][j]} :: q in l && 0 <= j < |l[q]| ==> l[q][j] in l)
  {
    var g := Dropped(f, c);
    forall q, j {:trigger g[q].kids[j]} | q in g && 0 <= j < |g[q].kids|
      ensures g[q].kids[j].id in g
    {
      assert KidKnown(g, q, j);
    }
  }

  lemma DropParent(s: Slots, f: Forest, c: nat, q: nat)
    requires Represents(s, f) && c in f && q in f && q !in Pre(f[c])
    requires Live(s, q) && s[q].value.parent.Some?
    ensures s[q].value.parent.value in Dropped(f, c)
  {
    ParentListed(s, f, q);
    OneLinkUp(s, f, c, q);
  }

  lemma RekindForest(s: Slots, t: Slots, f: Forest, x: nat, kind: NodeType)
    requires Represents(s, f) && x in f && Live(s, x)
    requires t == s[x := Some(s[x].value.(kind := kind))]
    ensures Represents(t, Rekinded(f, x, kind))
  {
    RepresentsParts(s, f);
    assert KindsAgree(t, Rekinded(f, x, kind));
    RekindedKids(f, x, kind);
    hide Linked, KidMap, WellFormed, KindsAgree, Represents, Carries;
    RekindedWellFormed(f, x, kind);
    RekindLinks(s, t, KidMap(f), x, kind);
    PartsRepresent(t, Rekinded(f, x, kind));
  }

  lemma RekindLinks(s: Slots, t: Slots, k: Kids, x: nat, kind: NodeType)
    requires Linked(s, k) && Live(s, x)
    requires t == s[x := Some(s[x].value.(kind := kind))]
    ensures Linked(t, k)
  {
    LinkedClosed(s, k);
    hide Linked;
    CarriesLinked(s, t, k, k);
  }

  // ---------------------------------------------------------------- the links decide the forest

  /** Two sets of rows behind the same links agree on each row. */
  lemma {:induction false} RowsDetermined(s: Slots, k: Kids, l: Kids, p: nat, n: nat)
    requires Linked(s, k) && Linked(s, l) && p in k && p in l
    requires n <= |k[p]|
    ensures |k[p]| == |l[p]|
    ensures k[p][..n] == l[p][..n]
  {
    assert EndsAgree(s, p, k[p]) && EndsAgree(s, p, l[p]);
    if n > 1 {
      RowsDetermined(s, k, l, p, n - 1);
      assert k[p][n - 2] == k[p][..n - 1][n - 2] == l[p][n - 2];
      assert PlaceAgrees(s, p, k[p], n - 2) && PlaceAgrees(s, p, l[p], n - 2);
    }
  }

  /** The slab alone decides which forest it encodes. */
  lemma {:induction false} FormDetermined(s: Slots, f: Forest, g: Forest, p: nat)
    requires Represents(s, f) && Represents(s, g) && p in f
    ensures p in g && f[p] == g[p]
    decreases Size(f[p])
  {
    RepresentsParts(s, f);
    RepresentsParts(s, g);
    assert Live(s, p);
    hide Linked, Distinct, Represents, UniquePlaces;
    RowsDetermined(s, KidMap(f), KidMap(g), p, |f[p].kids|);
    assert KidMap(f)[p] == KidMap(g)[p];
    forall i | 0 <= i < |f[p].kids|
      ensures f[p].kids[i] == g[p].kids[i]
    {
      assert KidMap(f)[p][i] == KidMap(g)[p][i];
      assert KidKnown(f, p, i) && KidKnown(g, p, i);
      KidInside(f[p], i);
      FormDetermined(s, f, g, f[p].kids[i].id);
    }
  }

  lemma ForestDetermined(s: Slots, f: Forest, g: Forest)
    requires Represents(s, f) && Represents(s, g)
    ensures f == g
  {
    assert forall x: nat :: x in f <==> Live(s, x);
    assert forall x: nat :: x in g <==> Live(s, x);
    forall p | p in f
      ensures f[p] == g[p]
    {
      FormDetermined(s, f, g, p);
    }
  }

  // ---------------------------------------------------------------- rewrites that destroy the forest

  /** Same slots live, and `c` alone has a new parent. */
  ghost predicate Reparents(s: Slots, t: Slots, c: nat, p: nat) {
    && |t| == |s| && Live(s, c)
    && (forall x :: 0 <= x < |s| ==> t[x].Some? == s[x].Some?)
    && (forall x: nat :: Live(s, x) ==> t[x].value.parent == if x == c then Some(p) else s[x].value.parent)
  }

  lemma {:induction false} SubtreeStaysBelow(s: Slots, t: Slots, f: Forest, g: Forest, c: nat, p: nat, y: nat)
    requires Represents(s, f) && Represents(t, g) && Reparents(s, t, c, p)
    requires c in f && y in Pre(f[c])
    ensures c in g && y in Pre(g[c])
    decreases Size(f[c]) - Size(if y in f then f[y] else f[c])
  {
    RepresentsParts(s, f);
    RepresentsParts(t, g);
    hide Represents, Linked, WellFormed, KidMap;
    assert Live(t, c);
    PartKnown(f, c, y);
    if y != c {
      OneLinkUp(s, f, c, y);
      var q, i := ChildInside(s, f, y);
      PartKnown(f, c, q);
      SubtreeStaysBelow(s, t, f, g, c, p, q);
      assert Live(s, y);
      OneLinkUp(t, g, c, y);
    }
  }

  /** Linking a loose list under one of its own descendants leaves links that encode no forest. */
  lemma UnderItself(s: Slots, t: Slots, f: Forest, c: nat, p: nat)
    requires Represents(s, f) && Reparents(s, t, c, p) && c in f && p in Pre(f[c])
    ensures !IsForest(t)
  {
    if g :| Represents(t, g) {
      SubtreeStaysBelow(s, t, f, g, c, p, p);
      var q, i := ChildInside(t, g, c);
      PartKnown(g, c, p);
      assert false;
    }
  }

  /** Links in which a node is its own next sibling encode no forest. */
  lemma OwnNextSibling(t: Slots, c: nat)
    requires Live(t, c) && t[c].value.parent.Some? && t[c].value.nextSibling == Some(c)
    ensures !IsForest(t)
  {
    if g :| Represents(t, g) {
      var p, i := ChildInside(t, g, c);
      var row := KidMap(g)[p];
      DistinctMeansUnique(g);
      assert false;
    }
  }

  /** Neighbours under different parents encode no forest. */
  lemma ForeignSibling(t: Slots, c: nat, a: nat)
    requires Live(t, c) && Live(t, a) && t[c].value.parent.Some?
    requires t[c].value.previousSibling == Some(a) && t[a].value.parent != t[c].value.parent
    ensures !IsForest(t)
  {
    if g :| Represents(t, g) {
      var p, i := ChildInside(t, g, c);
      if i > 0 && PlaceAgrees(t, p, KidMap(g)[p], i - 1) {
        assert false;
      }
      assert false;
    }
  }

  /** Where the two neighbours of a place are found on the slab. */
  lemma NeighboursOfPlace(s: Slots, f: Forest, p: nat, place: Place)
    requires Represents(s, f) && p in f && Live(s, p)
    requires place.After? ==> place.sibling in KidMap(f)[p]
    ensures var row := KidMap(f)[p];
            var i := PlaceIndex(row, place);
            match place
            case First => Before(row, i) == None && From(row, i) == s[p].value.firstChild
            case Last => Before(row, i) == s[p].value.lastChild && From(row, i) == None
            case After(x) => Before(row, i) == Some(x) && Live(s, x) && From(row, i) == s[x].value.nextSibling
  {
    var row := KidMap(f)[p];
    assert EndsAgree(s, p, row);
    if place.After? {
      assert PlaceAgrees(s, p, row, IndexOf(row, place.sibling));
    }
  }

  /** Linking a loose node in gives a forest exactly when the new parent is not inside its subtree. */
  lemma LinkOutcome(s: Slots, t: Slots, f: Forest, p: nat, place: Place, c: nat)
    requires Represents(s, f) && c in f && p in f && Live(s, c) && Live(s, p) && s[c].value.parent == None
    requires place.After? ==> place.sibling in KidMap(f)[p]
    requires match place
             case First => LinksIn(s, t, p, None, s[p].value.firstChild, c)
             case Last => LinksIn(s, t, p, s[p].value.lastChild, None, c)
             case After(x) => Live(s, x) && LinksIn(s, t, p, Some(x), s[x].value.nextSibling, c)
    ensures IsForest(t) <==> p !in Pre(f[c])
    ensures p !in Pre(f[c]) ==> Represents(t, Inserted(f, p, place, c))
  {
    NeighboursOfPlace(s, f, p, place);
    if p in Pre(f[c]) {
      var row := KidMap(f)[p];
      LinkReparents(s, t, p, Before(row, PlaceIndex(row, place)), From(row, PlaceIndex(row, place)), c);
      UnderItself(s, t, f, c, p);
    } else {
      LinkForest(s, t, f, p, place, c);
    }
  }

  lemma LinkReparents(s: Slots, t: Slots, p: nat, before: Option<nat>, after: Option<nat>, c: nat)
    requires Live(s, c) && LinksIn(s, t, p, before, after, c)
    ensures Reparents(s, t, c, p)
  {
    assert forall x: nat :: Live(s, x) ==> t[x] == Some(LinkedIn(s, p, before, after, c, x));
  }

  lemma LooseIsNoSibling(s: Slots, f: Forest, x: nat, c: nat)
    requires Represents(s, f) && x in f && Live(s, x) && Live(s, c) && s[c].value.parent == None
    ensures s[x].value.nextSibling != Some(c)
  {
    assert UpAgrees(s, KidMap(f), x);
    if s[x].value.parent.Some? {
      var q, i := ChildInside(s, f, x);
      assert i + 1 < |KidMap(f)[q]| ==> PlaceAgrees(s, q, KidMap(f)[q], i + 1);
    }
  }

  /** Inserting after a node that is not a child of `p`, or after the moved node itself, leaves links
      that encode no forest. */
  lemma MisplacedAfter(s: Slots, t: Slots, f: Forest, p: nat, x: nat, c: nat)
    requires Represents(s, f) && c in f && p in f && x in f && Live(s, c) && Live(s, x) && s[c].value.parent == None
    requires x !in KidMap(f)[p] && LinksIn(s, t, p, Some(x), s[x].value.nextSibling, c)
    ensures !IsForest(t)
  {
    ParentListed(s, f, x);
    assert t[c] == Some(LinkedIn(s, p, Some(x), s[x].value.nextSibling, c, c));
    assert t[x] == Some(LinkedIn(s, p, Some(x), s[x].value.nextSibling, c, x));
    if x == c {
      OwnNextSibling(t, c);
    } else {
      LooseIsNoSibling(s, f, x, c);
      ForeignSibling(t, c, x);
    }
  }
}
