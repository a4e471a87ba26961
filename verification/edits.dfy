/** What the tree operations do to forms, said without pointers: cutting a node out of every child
    row, splicing one in, changing a node's kind, growing a leaf, dropping a subtree. */
module Edits {
  import opened Forms
  import opened Rows

  /** Rows of children by slab index, the part of a forest that the pointers encode. */
  type Kids = map<nat, seq<nat>>

  ghost function KidMap(f: Forest): Kids {
    map p | p in f :: Ids(f[p].kids)
  }

  ghost predicate Distinct(k: Kids) {
    && (forall p :: p in k ==> NoDup(k[p]))
    && (forall p, q, x :: p in k && q in k && x in k[p] && x in k[q] ==> p == q)
  }

  lemma RowIds(f: Forest, p: nat)
    requires p in f
    ensures p in KidMap(f) && |KidMap(f)[p]| == |f[p].kids|
    ensures forall i {:trigger KidMap(f)[p][i]} :: 0 <= i < |f[p].kids| ==> KidMap(f)[p][i] == f[p].kids[i].id
  {
  }

  lemma DistinctMeansUnique(f: Forest)
    ensures Distinct(KidMap(f)) <==> UniquePlaces(f)
  {
    var k := KidMap(f);
    if Distinct(k) {
      forall p, i, q, j | p in f && q in f && 0 <= i < |f[p].kids| && 0 <= j < |f[q].kids|
        ensures SamePlace(f, p, i, q, j)
      {
        assert k[p][i] == f[p].kids[i].id && k[q][j] == f[q].kids[j].id;
        assert k[p][i] in k[p] && k[q][j] in k[q];
      }
    }
    if UniquePlaces(f) {
      forall p | p in k
        ensures NoDup(k[p])
      {
        forall i, j | 0 <= i < j < |k[p]|
          ensures k[p][i] != k[p][j]
        {
          assert SamePlace(f, p, i, p, j);
        }
      }
      forall p, q, x | p in k && q in k && x in k[p] && x in k[q]
        ensures p == q
      {
        var i :| 0 <= i < |k[p]| && k[p][i] == x;
        var j :| 0 <= j < |k[q]| && k[q][j] == x;
        assert SamePlace(f, p, i, q, j);
      }
    }
  }

  lemma AttachedMeansListed(f: Forest, c: nat)
    ensures Attached(f, c) <==> exists p :: p in f && c in KidMap(f)[p]
  {
    if Attached(f, c) {
      var p, i :| p in f && 0 <= i < |f[p].kids| && f[p].kids[i].id == c;
      assert KidMap(f)[p][i] == c;
    }
    if p :| p in f && c in KidMap(f)[p] {
      var i :| 0 <= i < |KidMap(f)[p]| && KidMap(f)[p][i] == c;
      assert f[p].kids[i].id == c;
    }
  }

  // ---------------------------------------------------------------- rows

  /** Where a node goes in its new row. */
  datatype Place = First | Last | After(sibling: nat)

  ghost function PlaceIndex(ids: seq<nat>, place: Place): (i: nat)
    ensures i <= |ids|
  {
    match place
    case First => 0
    case Last => |ids|
    case After(x) => if x in ids then IndexOf(ids, x) + 1 else |ids|
  }

  lemma IdsSplice(ts: seq<Form>, i: nat, c: Form)
    requires i <= |ts|
    ensures Ids(Splice(ts, i, c)) == Splice(Ids(ts), i, c.id)
  {
  }

  // ---------------------------------------------------------------- forms

  /** `t` with `c` taken out of every row of children. */
  ghost function Cut(t: Form, c: nat): Form
    decreases t, 1
  {
    Form(t.id, t.kind, CutAll(t.kids, c))
  }

  ghost function CutAll(ts: seq<Form>, c: nat): (r: seq<Form>)
    ensures Ids(r) == Without(Ids(ts), c)
    decreases ts, 0
  {
    if ts == [] then []
    else
      assert Ids(ts)[1..] == Ids(ts[1..]);
      if ts[0].id == c then CutAll(ts[1..], c)
      else [Cut(ts[0], c)] + CutAll(ts[1..], c)
  }

  /** `t` with the form `c` spliced into the row of `p`. */
  ghost function Insert(t: Form, p: nat, place: Place, c: Form): (r: Form)
    ensures r.id == t.id && r.kind == t.kind
    decreases t, 1
  {
    var ks := InsertAll(t.kids, p, place, c);
    Form(t.id, t.kind, if t.id == p then Splice(ks, PlaceIndex(Ids(ks), place), c) else ks)
  }

  ghost function InsertAll(ts: seq<Form>, p: nat, place: Place, c: Form): (r: seq<Form>)
    ensures |r| == |ts| && forall i :: 0 <= i < |ts| ==> r[i] == Insert(ts[i], p, place, c)
    ensures Ids(r) == Ids(ts)
    decreases ts, 0
  {
    if ts == [] then [] else [Insert(ts[0], p, place, c)] + InsertAll(ts[1..], p, place, c)
  }

  /** `t` with the kind of `x` replaced. */
  ghost function SetKind(t: Form, x: nat, kind: NodeType): (r: Form)
    ensures r.id == t.id
    decreases t, 1
  {
    Form(t.id, if t.id == x then kind else t.kind, SetKindAll(t.kids, x, kind))
  }

  ghost function SetKindAll(ts: seq<Form>, x: nat, kind: NodeType): (r: seq<Form>)
    ensures |r| == |ts| && forall i :: 0 <= i < |ts| ==> r[i] == SetKind(ts[i], x, kind)
    ensures Ids(r) == Ids(ts)
    decreases ts, 0
  {
    if ts == [] then [] else [SetKind(ts[0], x, kind)] + SetKindAll(ts[1..], x, kind)
  }

  lemma {:induction false} CutAllMember(ts: seq<Form>, c: nat, i: nat) returns (j: nat)
    requires i < |CutAll(ts, c)|
    ensures j < |ts| && ts[j].id != c && CutAll(ts, c)[i] == Cut(ts[j], c)
  {
    hide Without, Ids, Cut;
    if ts[0].id == c {
      assert CutAll(ts, c) == CutAll(ts[1..], c);
      j := CutAllMember(ts[1..], c, i);
      j := j + 1;
    } else if i == 0 {
      j := 0;
    } else {
      j := CutAllMember(ts[1..], c, i - 1);
      j := j + 1;
    }
  }

  /** A child after insertion is the new one, or an old one at its own index `m`. */
  lemma InsertKid(t: Form, p: nat, place: Place, c: Form, j: nat) returns (m: nat)
    requires j < |Insert(t, p, place, c).kids|
    ensures m <= |t.kids|
    ensures Insert(t, p, place, c).kids[j] == if m < |t.kids| then Insert(t.kids[m], p, place, c) else c
  {
    hide PlaceIndex, Ids;
    var ks := InsertAll(t.kids, p, place, c);
    var i := PlaceIndex(Ids(ks), place);
    m := if t.id != p || j < i then j else if j == i then |ks| else j - 1;
  }

  /** Nothing changes where the node does not hang. */
  lemma {:induction false} CutElsewhere(t: Form, c: nat)
    requires c !in PreAll(t.kids)
    ensures Cut(t, c) == t
    decreases t, 1
  {
    CutAllElsewhere(t.kids, c);
  }

  lemma {:induction false} CutAllElsewhere(ts: seq<Form>, c: nat)
    requires c !in PreAll(ts)
    ensures CutAll(ts, c) == ts
    decreases ts, 0
  {
    hide Without, Ids, Cut;
    if ts != [] {
      assert ts[0].id == Pre(ts[0])[0];
      CutElsewhere(ts[0], c);
      CutAllElsewhere(ts[1..], c);
    }
  }

  lemma {:induction false} InsertElsewhere(t: Form, p: nat, place: Place, c: Form)
    requires p !in Pre(t)
    ensures Insert(t, p, place, c) == t
    decreases t, 1
  {
    InsertAllElsewhere(t.kids, p, place, c);
  }

  lemma {:induction false} InsertAllElsewhere(ts: seq<Form>, p: nat, place: Place, c: Form)
    requires p !in PreAll(ts)
    ensures InsertAll(ts, p, place, c) == ts
    decreases ts, 0
  {
    if ts != [] {
      InsertElsewhere(ts[0], p, place, c);
      InsertAllElsewhere(ts[1..], p, place, c);
    }
  }

  lemma {:induction false} SetKindElsewhere(t: Form, x: nat, kind: NodeType)
    requires x !in Pre(t)
    ensures SetKind(t, x, kind) == t
    decreases t, 1
  {
    SetKindAllElsewhere(t.kids, x, kind);
  }

  lemma {:induction false} SetKindAllElsewhere(ts: seq<Form>, x: nat, kind: NodeType)
    requires x !in PreAll(ts)
    ensures SetKindAll(ts, x, kind) == ts
    decreases ts, 0
  {
    if ts != [] {
      SetKindElsewhere(ts[0], x, kind);
      SetKindAllElsewhere(ts[1..], x, kind);
    }
  }

  // ---------------------------------------------------------------- forests

  ghost function Detached(f: Forest, c: nat): Forest {
    map x | x in f :: Cut(f[x], c)
  }

  ghost function Inserted(f: Forest, p: nat, place: Place, c: nat): Forest
    requires c in f
  {
    map x | x in f :: Insert(f[x], p, place, f[c])
  }

  ghost function Moved(f: Forest, p: nat, place: Place, c: nat): Forest
    requires c in f
  {
    Inserted(Detached(f, c), p, place, c)
  }

  ghost function Grown(f: Forest, x: nat, kind: NodeType): Forest {
    f[x := Form(x, kind, [])]
  }

  ghost function Dropped(f: Forest, c: nat): Forest
    requires c in f
  {
    map x | x in f && x !in Pre(f[c]) :: f[x]
  }

  ghost function Removed(f: Forest, c: nat): Forest
    requires c in f
  {
    Dropped(Detached(f, c), c)
  }

  ghost function Rekinded(f: Forest, x: nat, kind: NodeType): Forest {
    map y | y in f :: SetKind(f[y], x, kind)
  }

  // What each of them does to the rows of children.

  lemma DetachedKids(f: Forest, c: nat)
    ensures KidMap(Detached(f, c)) == map p | p in f :: Without(KidMap(f)[p], c)
  {
  }

  lemma InsertedKids(f: Forest, p: nat, place: Place, c: nat)
    requires Consistent(f) && c in f && p in f
    ensures var k := KidMap(f);
            KidMap(Inserted(f, p, place, c)) == k[p := Splice(k[p], PlaceIndex(k[p], place), c)]
  {
    var k, g := KidMap(f), Inserted(f, p, place, c);
    hide Insert, Splice, PlaceIndex, Ids;
    forall q | q in f
      ensures KidMap(g)[q] == k[p := Splice(k[p], PlaceIndex(k[p], place), c)][q]
    {
      InsertedRow(f[q], p, place, f[c]);
    }
  }

  lemma InsertedRow(t: Form, p: nat, place: Place, c: Form)
    ensures var ids := Ids(t.kids);
            Ids(Insert(t, p, place, c).kids) == if t.id == p then Splice(ids, PlaceIndex(ids, place), c.id) else ids
  {
    var ks := InsertAll(t.kids, p, place, c);
    IdsSplice(ks, PlaceIndex(Ids(ks), place), c);
  }

  lemma RekindedKids(f: Forest, x: nat, kind: NodeType)
    ensures KidMap(Rekinded(f, x, kind)) == KidMap(f)
  {
  }

  // Each of them keeps a forest well formed.

  lemma DetachedWellFormed(f: Forest, c: nat)
    requires WellFormed(f)
    ensures WellFormed(Detached(f, c)) && !Attached(Detached(f, c), c)
  {
    var g := Detached(f, c);
    forall p, i | p in g && 0 <= i < |g[p].kids|
      ensures KidKnown(g, p, i)
    {
      var j := CutAllMember(f[p].kids, c, i);
      assert KidKnown(f, p, j);
    }
    DetachedKids(f, c);
    DistinctMeansUnique(f);
    forall p | p in f
      ensures NoDup(KidMap(g)[p])
    {
      WithoutNoDup(KidMap(f)[p], c);
    }
    DistinctMeansUnique(g);
    AttachedMeansListed(g, c);
  }

  /** The subtree of the node that is cut loose stays as it was. */
  lemma DetachedKeepsSubtree(f: Forest, c: nat)
    requires WellFormed(f) && c in f
    ensures Detached(f, c)[c] == f[c]
  {
    NotBelowItself(f, c);
    CutElsewhere(f[c], c);
  }

  lemma DetachedUnattached(f: Forest, c: nat)
    requires WellFormed(f) && !Attached(f, c)
    ensures Detached(f, c) == f
  {
    forall x | x in f
      ensures Cut(f[x], c) == f[x]
    {
      if c in Pre(f[x]) && c != x {
        var p, i := PartHasParent(f, x, c);
        assert false;
      }
      NotBelowItself(f, x);
      assert Pre(f[x]) == [x] + PreAll(f[x].kids);
      CutElsewhere(f[x], c);
    }
  }

  lemma InsertedWellFormed(f: Forest, p: nat, place: Place, c: nat)
    requires WellFormed(f) && c in f && p in f && !Attached(f, c) && p !in Pre(f[c])
    ensures WellFormed(Inserted(f, p, place, c))
    ensures Inserted(f, p, place, c)[c] == f[c]
  {
    var g := Inserted(f, p, place, c);
    InsertElsewhere(f[c], p, place, f[c]);
    InsertedConsistent(f, p, place, c);
    var k := KidMap(f);
    InsertedKids(f, p, place, c);
    DistinctMeansUnique(f);
    AttachedMeansListed(f, c);
    var i := PlaceIndex(k[p], place);
    SpliceNoDup(k[p], i, c);
    SpliceMember(k[p], i, c);
    assert Distinct(KidMap(g));
    DistinctMeansUnique(g);
  }

  lemma InsertedConsistent(f: Forest, p: nat, place: Place, c: nat)
    requires WellFormed(f) && c in f && p in f && p !in Pre(f[c])
    ensures Consistent(Inserted(f, p, place, c))
  {
    var g := Inserted(f, p, place, c);
    InsertElsewhere(f[c], p, place, f[c]);
    forall q, j | q in g && 0 <= j < |g[q].kids|
      ensures KidKnown(g, q, j)
    {
      InsertedKidKnown(f, p, place, c, q, j);
    }
  }

  lemma InsertedKidKnown(f: Forest, p: nat, place: Place, c: nat, q: nat, j: nat)
    requires Consistent(f) && c in f && q in f
    requires Insert(f[c], p, place, f[c]) == f[c]
    requires j < |Inserted(f, p, place, c)[q].kids|
    ensures KidKnown(Inserted(f, p, place, c), q, j)
  {
    var m := InsertKid(f[q], p, place, f[c], j);
    if m < |f[q].kids| {
      assert KidKnown(f, q, m);
    }
  }

  lemma GrownWellFormed(f: Forest, x: nat, kind: NodeType)
    requires WellFormed(f) && x !in f
    ensures WellFormed(Grown(f, x, kind)) && !Attached(Grown(f, x, kind), x)
  {
    var g := Grown(f, x, kind);
    forall p, i | p in g && 0 <= i < |g[p].kids|
      ensures KidKnown(g, p, i) && g[p].kids[i].id != x
    {
      assert KidKnown(f, p, i);
    }
    forall p, i, q, j | p in g && q in g && 0 <= i < |g[p].kids| && 0 <= j < |g[q].kids|
      ensures SamePlace(g, p, i, q, j)
    {
      assert SamePlace(f, p, i, q, j);
    }
  }

  lemma DroppedWellFormed(f: Forest, c: nat)
    requires WellFormed(f) && c in f && !Attached(f, c)
    ensures WellFormed(Dropped(f, c))
  {
    var g := Dropped(f, c);
    forall p, i | p in g && 0 <= i < |g[p].kids|
      ensures KidKnown(g, p, i)
    {
      assert KidKnown(f, p, i);
      if f[p].kids[i].id in Pre(f[c]) {
        ParentOfPart(f, c, p, i);
        assert false;
      }
    }
    forall p, i, q, j | p in g && q in g && 0 <= i < |g[p].kids| && 0 <= j < |g[q].kids|
      ensures SamePlace(g, p, i, q, j)
    {
      assert SamePlace(f, p, i, q, j);
    }
  }

  lemma RekindedWellFormed(f: Forest, x: nat, kind: NodeType)
    requires WellFormed(f)
    ensures WellFormed(Rekinded(f, x, kind))
  {
    var g := Rekinded(f, x, kind);
    forall p, i | p in g && 0 <= i < |g[p].kids|
      ensures KidKnown(g, p, i)
    {
      assert KidKnown(f, p, i);
    }
    DistinctMeansUnique(f);
    RekindedKids(f, x, kind);
    DistinctMeansUnique(g);
  }

  /** A move: the row of `p` gains `c` at its place, every other row only loses it, and the moved
      subtree is untouched. */
  lemma MovedWellFormed(f: Forest, p: nat, place: Place, c: nat)
    requires WellFormed(f) && c in f && p in f && p !in Pre(f[c])
    ensures WellFormed(Moved(f, p, place, c))
    ensures Moved(f, p, place, c)[c] == f[c]
    ensures var k := KidMap(f);
            var row := Without(k[p], c);
            forall q :: q in f ==>
              KidMap(Moved(f, p, place, c))[q] ==
              if q == p then Splice(row, PlaceIndex(row, place), c) else Without(k[q], c)
  {
    DetachedWellFormed(f, c);
    DetachedKeepsSubtree(f, c);
    DetachedKids(f, c);
    InsertedWellFormed(Detached(f, c), p, place, c);
    InsertedKids(Detached(f, c), p, place, c);
  }

  /** What a move leaves alone: every slot, every kind, the moved subtree, and all rows but the two. */
  ghost predicate Rearranged(f: Forest, g: Forest, p: nat, c: nat) {
    && g.Keys == f.Keys && c in f && g[c] == f[c]
    && (forall q :: q in f ==> g[q].kind == f[q].kind)
    && (forall q :: q in f && q != p ==> KidMap(g)[q] == Without(KidMap(f)[q], c))
  }

  /** A move row by row. */
  lemma MovedRows(f: Forest, p: nat, place: Place, c: nat)
    requires WellFormed(f) && c in f && p in f && p !in Pre(f[c])
    requires place.After? ==> place.sibling != c && place.sibling in KidMap(f)[p]
    ensures var g, row := Moved(f, p, place, c), Without(KidMap(f)[p], c);
            && WellFormed(g) && Rearranged(f, g, p, c)
            && match place
               case First => KidMap(g)[p] == [c] + row
               case Last => KidMap(g)[p] == row + [c]
               case After(x) => BehindIn(KidMap(g)[p], row, x, c)
  {
    hide WellFormed, Moved, KidMap, Pre;
    MovedWellFormed(f, p, place, c);
    MovedFrame(f, p, place, c);
    Placed(Without(KidMap(f)[p], c), place, c);
  }

  lemma MovedFrame(f: Forest, p: nat, place: Place, c: nat)
    requires c in f
    ensures Moved(f, p, place, c).Keys == f.Keys == KidMap(f).Keys
    ensures forall q :: q in f ==> Moved(f, p, place, c)[q].kind == f[q].kind
  {
    hide Insert, Cut;
    assert forall q :: q in f ==> Detached(f, c)[q].kind == f[q].kind by { CutKinds(f, c); }
  }

  lemma CutKinds(f: Forest, c: nat)
    ensures forall q :: q in f ==> Detached(f, c)[q].kind == f[q].kind
  {
  }

  lemma Placed(row: seq<nat>, place: Place, c: nat)
    requires place.After? ==> place.sibling in row
    ensures var grown := Splice(row, PlaceIndex(row, place), c);
            match place
            case First => grown == [c] + row
            case Last => grown == row + [c]
            case After(x) => BehindIn(grown, row, x, c)
  {
    if place.After? {
      var i := IndexOf(row, place.sibling);
      assert 0 <= i < |row| && row[i] == place.sibling;
    }
  }

  /** `grown` is `row` with `c` put right behind `x`. */
  ghost predicate BehindIn(grown: seq<nat>, row: seq<nat>, x: nat, c: nat) {
    exists i :: 0 <= i < |row| && row[i] == x && grown == row[..i + 1] + [c] + row[i + 1..]
  }

  /** A removal row by row. */
  lemma RemovedRows(f: Forest, c: nat)
    requires WellFormed(f) && c in f
    ensures var g := Removed(f, c);
            && g.Keys == f.Keys - (set x | x in Pre(f[c]))
            && (forall q :: q in g ==> g[q].kind == f[q].kind && KidMap(g)[q] == Without(KidMap(f)[q], c))
  {
    RemovedWellFormed(f, c);
    DetachedKids(f, c);
    forall q | q in Removed(f, c)
      ensures KidMap(Removed(f, c))[q] == Without(KidMap(f)[q], c)
    {
      assert Removed(f, c)[q] == Detached(f, c)[q];
    }
  }

  lemma RemovedWellFormed(f: Forest, c: nat)
    requires WellFormed(f) && c in f
    ensures WellFormed(Removed(f, c))
    ensures Removed(f, c).Keys == f.Keys - (set x | x in Pre(f[c]))
    ensures forall x :: x in Removed(f, c) ==> Removed(f, c)[x] == Cut(f[x], c)
  {
    DetachedWellFormed(f, c);
    DetachedKeepsSubtree(f, c);
    DroppedWellFormed(Detached(f, c), c);
  }

  /** A move changes the attachment of no node but the moved one. */
  lemma MovedAttached(f: Forest, p: nat, place: Place, c: nat, y: nat)
    requires WellFormed(f) && c in f && p in f && p !in Pre(f[c]) && y != c
    ensures Attached(Moved(f, p, place, c), y) <==> Attached(f, y)
  {
    var k, l := KidMap(f), KidMap(Moved(f, p, place, c));
    MovedWellFormed(f, p, place, c);
    AttachedMeansListed(f, y);
    AttachedMeansListed(Moved(f, p, place, c), y);
    var row := Without(k[p], c);
    SpliceMember(row, PlaceIndex(row, place), c);
    hide KidMap, Without, PlaceIndex, Splice, Moved, WellFormed;
    forall q | q in f
      ensures y in l[q] <==> y in k[q]
    {
      assert l[q] == if q == p then Splice(row, PlaceIndex(row, place), c) else Without(k[q], c);
    }
  }

  lemma RemovedAttached(f: Forest, c: nat, y: nat)
    requires WellFormed(f) && c in f
    ensures Attached(Removed(f, c), y) ==> Attached(f, y)
  {
    AttachedMeansListed(f, y);
    AttachedMeansListed(Removed(f, c), y);
    DetachedKids(f, c);
    RemovedWellFormed(f, c);
    assert forall q :: q in Removed(f, c) ==> KidMap(Removed(f, c))[q] == Without(KidMap(f)[q], c);
  }

  lemma GrownAttached(f: Forest, x: nat, kind: NodeType, y: nat)
    requires Consistent(f) && x !in f
    ensures Attached(Grown(f, x, kind), y) <==> Attached(f, y)
  {
    var g := Grown(f, x, kind);
    if Attached(f, y) {
      var p, i :| p in f && 0 <= i < |f[p].kids| && f[p].kids[i].id == y;
      assert g[p].kids[i].id == y;
    }
    if Attached(g, y) {
      var p, i :| p in g && 0 <= i < |g[p].kids| && g[p].kids[i].id == y;
      assert f[p].kids[i].id == y;
    }
  }
}
