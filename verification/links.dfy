/** src/core/node.rs: the node record, and what it means for the links of a slab to encode a forest. */
module Links {
  import opened Wrappers
  import opened Rows
  import opened Forms
  import opened Edits

  datatype Node = Node(
    kind: NodeType,
    parent: Option<nat>,
    firstChild: Option<nat>,
    lastChild: Option<nat>,
    previousSibling: Option<nat>,
    nextSibling: Option<nat>,
    childCount: nat)

  type Slots = seq<Option<Node>>

  function NewNode(kind: NodeType): Node {
    Node(kind, None, None, None, None, None, 0)
  }

  ghost predicate Live(s: Slots, x: nat) {
    x < |s| && s[x].Some?
  }

  ghost function FirstOf(row: seq<nat>): Option<nat> {
    if row == [] then None else Some(row[0])
  }

  ghost function LastOf(row: seq<nat>): Option<nat> {
    if row == [] then None else Some(row[|row| - 1])
  }

  ghost function Before(row: seq<nat>, i: nat): Option<nat>
    requires i <= |row|
  {
    if i == 0 then None else Some(row[i - 1])
  }

  ghost function From(row: seq<nat>, i: nat): Option<nat>
    requires i <= |row|
  {
    if i == |row| then None else Some(row[i])
  }

  ghost predicate EndsAgree(s: Slots, p: nat, row: seq<nat>)
    requires Live(s, p)
  {
    s[p].value.firstChild == FirstOf(row) && s[p].value.lastChild == LastOf(row) && s[p].value.childCount == |row|
  }

  ghost predicate PlaceAgrees(s: Slots, p: nat, row: seq<nat>, i: nat)
    requires i < |row|
  {
    && Live(s, row[i])
    && s[row[i]].value.parent == Some(p)
    && s[row[i]].value.previousSibling == Before(row, i)
    && s[row[i]].value.nextSibling == From(row, i + 1)
  }

  ghost predicate UpAgrees(s: Slots, k: Kids, c: nat)
    requires Live(s, c)
  {
    match s[c].value.parent
    case None => s[c].value.previousSibling == None && s[c].value.nextSibling == None
    case Some(p) => p in k && c in k[p]
  }

  /** The links of `s` spell out exactly the rows `k`: forwards, backwards and upwards. */
  ghost predicate Linked(s: Slots, k: Kids) {
    && (forall x: nat :: x in k <==> Live(s, x))
    && (forall p {:trigger EndsAgree(s, p, k[p])} :: p in k ==> EndsAgree(s, p, k[p]))
    && (forall p, i {:trigger PlaceAgrees(s, p, k[p], i)} :: p in k && 0 <= i < |k[p]| ==> PlaceAgrees(s, p, k[p], i))
    && (forall c {:trigger UpAgrees(s, k, c)} :: c in k ==> UpAgrees(s, k, c))
  }

  ghost predicate KindsAgree(s: Slots, f: Forest) {
    forall x :: x in f ==> Live(s, x) && s[x].value.kind == f[x].kind
  }

  /** The forest invariant. */
  ghost predicate Represents(s: Slots, f: Forest) {
    WellFormed(f) && Linked(s, KidMap(f)) && KindsAgree(s, f)
  }

  ghost predicate IsForest(s: Slots) {
    exists f :: Represents(s, f)
  }

  // ---------------------------------------------------------------- unlinking

  /** The node `x` once `c` has been unlinked. */
  ghost function Unlinked(s: Slots, c: nat, x: nat): Node
    requires Live(s, c) && Live(s, x)
  {
    var n, m := s[c].value, s[x].value;
    Node(m.kind,
         if x == c then None else m.parent,
         if n.parent == Some(x) && n.previousSibling == None then n.nextSibling else m.firstChild,
         if n.parent == Some(x) && n.nextSibling == None then n.previousSibling else m.lastChild,
         if x == c then None else if n.nextSibling == Some(x) then n.previousSibling else m.previousSibling,
         if x == c then None else if n.previousSibling == Some(x) then n.nextSibling else m.nextSibling,
         if n.parent == Some(x) && m.childCount > 0 then m.childCount - 1 else m.childCount)
  }

  ghost predicate Unlinks(s: Slots, t: Slots, c: nat)
    requires Live(s, c)
  {
    && |t| == |s|
    && (forall x :: 0 <= x < |s| ==> t[x].Some? == s[x].Some?)
    && (forall x: nat :: Live(s, x) ==> t[x] == Some(Unlinked(s, c, x)))
  }

  lemma UnlinkLoose(s: Slots, t: Slots, k: Kids, c: nat)
    requires Linked(s, k) && c in k && Unlinks(s, t, c) && s[c].value.parent == None
    ensures t == s
  {
    assert UpAgrees(s, k, c);
    forall x | 0 <= x < |s|
      ensures t[x] == s[x]
    {
      if Live(s, x) {
        assert t[x] == Some(Unlinked(s, c, x));
      }
    }
  }

  lemma UnlinkedEnds(s: Slots, t: Slots, k: Kids, p: nat, i: nat, q: nat)
    requires Linked(s, k) && p in k && i < |k[p]| && NoDup(k[p]) && q in k
    requires Live(s, k[p][i]) && Unlinks(s, t, k[p][i])
    ensures EndsAgree(t, q, if q == p then k[p][..i] + k[p][i + 1..] else k[q])
  {
    assert PlaceAgrees(s, p, k[p], i);
    assert EndsAgree(s, q, k[q]);
    assert t[q] == Some(Unlinked(s, k[p][i], q));
  }

  lemma UnlinkedPlaceElsewhere(s: Slots, t: Slots, k: Kids, p: nat, i: nat, q: nat, j: nat)
    requires Linked(s, k) && p in k && i < |k[p]| && NoDup(k[p]) && q in k && j < |k[q]| && q != p
    requires Live(s, k[p][i]) && Unlinks(s, t, k[p][i])
    ensures PlaceAgrees(t, q, k[q], j)
  {
    var row, x := k[p], k[q][j];
    assert PlaceAgrees(s, q, k[q], j) && PlaceAgrees(s, p, row, i);
    assert i > 0 ==> PlaceAgrees(s, p, row, i - 1);
    assert i + 1 < |row| ==> PlaceAgrees(s, p, row, i + 1);
    assert t[x] == Some(Unlinked(s, row[i], x));
  }

  lemma UnlinkedPlaceHere(s: Slots, t: Slots, k: Kids, p: nat, i: nat, j: nat)
    requires Linked(s, k) && p in k && i < |k[p]| && NoDup(k[p]) && j < |k[p]| && j != i
    requires Live(s, k[p][i]) && Unlinks(s, t, k[p][i])
    ensures PlaceAgrees(t, p, k[p][..i] + k[p][i + 1..], if j < i then j else j - 1)
  {
    var row := k[p];
    assert PlaceAgrees(s, p, row, j) && PlaceAgrees(s, p, row, i);
    assert t[row[j]] == Some(Unlinked(s, row[i], row[j]));
    assert i > 0 && j != i - 1 ==> row[j] != row[i - 1];
    assert i + 1 < |row| && j != i + 1 ==> row[j] != row[i + 1];
  }

  lemma UnlinkedUp(s: Slots, t: Slots, k: Kids, p: nat, i: nat, x: nat)
    requires Linked(s, k) && p in k && i < |k[p]| && x in k
    requires Live(s, k[p][i]) && Unlinks(s, t, k[p][i])
    ensures UpAgrees(t, k[p := k[p][..i] + k[p][i + 1..]], x)
  {
    var row, c := k[p], k[p][i];
    assert UpAgrees(s, k, x) && t[x] == Some(Unlinked(s, c, x)) && PlaceAgrees(s, p, row, i);
    if i > 0 {
      assert PlaceAgrees(s, p, row, i - 1);
    }
    if i + 1 < |row| {
      assert PlaceAgrees(s, p, row, i + 1);
    }
    if x in row && x != c {
      var j :| 0 <= j < |row| && row[j] == x;
      var short := row[..i] + row[i + 1..];
      assert x == short[if j < i then j else j - 1];
    }
  }

  /** Unlinking an attached node takes exactly it out of exactly its parent's row. */
  lemma UnlinkLinked(s: Slots, t: Slots, k: Kids, p: nat, i: nat)
    requires Linked(s, k) && Distinct(k) && p in k && i < |k[p]|
    requires Live(s, k[p][i]) && Unlinks(s, t, k[p][i])
    ensures Linked(t, k[p := k[p][..i] + k[p][i + 1..]])
  {
    hide Unlinked, NoDup;
    var l := k[p := k[p][..i] + k[p][i + 1..]];
    forall q | q in l
      ensures EndsAgree(t, q, l[q])
    {
      UnlinkedEnds(s, t, k, p, i, q);
    }
    forall q, j | q in l && 0 <= j < |l[q]|
      ensures PlaceAgrees(t, q, l[q], j)
    {
      if q != p {
        UnlinkedPlaceElsewhere(s, t, k, p, i, q, j);
      } else {
        UnlinkedPlaceHere(s, t, k, p, i, if j < i then j else j + 1);
      }
    }
    forall x | x in l
      ensures UpAgrees(t, l, x)
    {
      UnlinkedUp(s, t, k, p, i, x);
    }
  }

  // ---------------------------------------------------------------- linking in

  /** The node `x` once the loose node `c` has been linked under `p` between two neighbours. */
  ghost function LinkedIn(s: Slots, p: nat, before: Option<nat>, after: Option<nat>, c: nat, x: nat): Node
    requires Live(s, x)
  {
    var m := s[x].value;
    Node(m.kind,
         if x == c then Some(p) else m.parent,
         if x == p && before == None then Some(c) else m.firstChild,
         if x == p && after == None then Some(c) else m.lastChild,
         if after == Some(x) then Some(c) else if x == c then before else m.previousSibling,
         if before == Some(x) then Some(c) else if x == c then after else m.nextSibling,
         if x == p then m.childCount + 1 else m.childCount)
  }

  ghost predicate LinksIn(s: Slots, t: Slots, p: nat, before: Option<nat>, after: Option<nat>, c: nat) {
    && |t| == |s|
    && (forall x :: 0 <= x < |s| ==> t[x].Some? == s[x].Some?)
    && (forall x: nat :: Live(s, x) ==> t[x] == Some(LinkedIn(s, p, before, after, c, x)))
  }

  /** What makes `c` ready to be linked at index `i` of the row of `p`. */
  ghost predicate Ready(s: Slots, k: Kids, p: nat, i: nat, c: nat) {
    && Linked(s, k) && Distinct(k) && p in k && i <= |k[p]| && c in k && c != p
    && s[c].value.parent == None
  }

  lemma LooseIsUnlisted(s: Slots, k: Kids, q: nat, c: nat)
    requires Linked(s, k) && c in k && s[c].value.parent == None && q in k
    ensures c !in k[q]
  {
    forall j | 0 <= j < |k[q]|
      ensures k[q][j] != c
    {
      assert PlaceAgrees(s, q, k[q], j);
    }
  }

  lemma LinkedInLive(s: Slots, t: Slots, k: Kids, p: nat, i: nat, c: nat)
    requires Ready(s, k, p, i, c) && LinksIn(s, t, p, Before(k[p], i), From(k[p], i), c)
    ensures forall x: nat :: x in k <==> Live(t, x)
  {
  }

  lemma LinkedInEnds(s: Slots, t: Slots, k: Kids, p: nat, i: nat, c: nat, q: nat)
    requires Ready(s, k, p, i, c) && LinksIn(s, t, p, Before(k[p], i), From(k[p], i), c) && q in k
    ensures EndsAgree(t, q, if q == p then Splice(k[p], i, c) else k[q])
  {
    assert EndsAgree(s, q, k[q]);
    assert t[q] == Some(LinkedIn(s, p, Before(k[p], i), From(k[p], i), c, q));
  }

  lemma LinkedInPlaceElsewhere(s: Slots, t: Slots, k: Kids, p: nat, i: nat, c: nat, q: nat, j: nat)
    requires Ready(s, k, p, i, c) && LinksIn(s, t, p, Before(k[p], i), From(k[p], i), c)
    requires q in k && q != p && j < |k[q]|
    ensures PlaceAgrees(t, q, k[q], j)
  {
    var row, x := k[p], k[q][j];
    assert PlaceAgrees(s, q, k[q], j);
    assert i > 0 ==> PlaceAgrees(s, p, row, i - 1);
    assert i < |row| ==> PlaceAgrees(s, p, row, i);
    assert t[x] == Some(LinkedIn(s, p, Before(row, i), From(row, i), c, x));
  }

  lemma LinkedInPlaceHere(s: Slots, t: Slots, k: Kids, p: nat, i: nat, c: nat, j: nat)
    requires Ready(s, k, p, i, c) && LinksIn(s, t, p, Before(k[p], i), From(k[p], i), c)
    requires j < |k[p]|
    ensures PlaceAgrees(t, p, Splice(k[p], i, c), if j < i then j else j + 1)
  {
    var row := k[p];
    assert PlaceAgrees(s, p, row, j);
    assert t[row[j]] == Some(LinkedIn(s, p, Before(row, i), From(row, i), c, row[j]));
    assert i > 0 && j != i - 1 ==> row[j] != row[i - 1];
    assert i < |row| && j != i ==> row[j] != row[i];
  }

  lemma LinkedInPlaceNew(s: Slots, t: Slots, k: Kids, p: nat, i: nat, c: nat)
    requires Ready(s, k, p, i, c) && LinksIn(s, t, p, Before(k[p], i), From(k[p], i), c)
    ensures PlaceAgrees(t, p, Splice(k[p], i, c), i)
  {
    var row := k[p];
    LooseIsUnlisted(s, k, p, c);
    assert i > 0 ==> row[i - 1] in row;
    assert i < |row| ==> row[i] in row;
    assert t[c] == Some(LinkedIn(s, p, Before(row, i), From(row, i), c, c));
  }

  lemma LinkedInUp(s: Slots, t: Slots, k: Kids, p: nat, i: nat, c: nat, x: nat)
    requires Ready(s, k, p, i, c) && LinksIn(s, t, p, Before(k[p], i), From(k[p], i), c) && x in k
    ensures UpAgrees(t, k[p := Splice(k[p], i, c)], x)
  {
    var row := k[p];
    assert UpAgrees(s, k, x) && t[x] == Some(LinkedIn(s, p, Before(row, i), From(row, i), c, x));
    SpliceMember(row, i, c);
    if i > 0 {
      assert PlaceAgrees(s, p, row, i - 1);
    }
    if i < |row| {
      assert PlaceAgrees(s, p, row, i);
    }
  }

  /** Linking a loose node in at index `i` splices it into that row and touches no other row. */
  lemma LinkInLinked(s: Slots, t: Slots, k: Kids, p: nat, i: nat, c: nat)
    requires Ready(s, k, p, i, c) && LinksIn(s, t, p, Before(k[p], i), From(k[p], i), c)
    ensures Linked(t, k[p := Splice(k[p], i, c)])
  {
    var row := k[p];
    var l := k[p := Splice(row, i, c)];
    hide Ready, LinksIn;
    LinkedInLive(s, t, k, p, i, c);
    forall q | q in l
      ensures EndsAgree(t, q, l[q])
    {
      LinkedInEnds(s, t, k, p, i, c, q);
    }
    forall q, j | q in l && 0 <= j < |l[q]|
      ensures PlaceAgrees(t, q, l[q], j)
    {
      if q != p {
        LinkedInPlaceElsewhere(s, t, k, p, i, c, q, j);
      } else if j == i {
        LinkedInPlaceNew(s, t, k, p, i, c);
      } else {
        LinkedInPlaceHere(s, t, k, p, i, c, if j < i then j else j - 1);
      }
    }
    forall x | x in l
      ensures UpAgrees(t, l, x)
    {
      LinkedInUp(s, t, k, p, i, c, x);
    }
  }

  // ---------------------------------------------------------------- other changes

  ghost predicate SameLinks(s: Slots, t: Slots, x: nat)
    requires Live(s, x) && Live(t, x)
  {
    t[x].value.(kind := s[x].value.kind) == s[x].value
  }

  ghost predicate FreshNode(t: Slots, x: nat)
    requires Live(t, x)
  {
    t[x].value == NewNode(t[x].value.kind)
  }

  /** The rows `l` are those of `k`, some dropped, some new and empty; and `t` has kept the links of
      the ones that stay. */
  ghost predicate Carries(s: Slots, t: Slots, k: Kids, l: Kids) {
    && (forall x: nat :: x in l <==> Live(t, x))
    && (forall q :: q in l ==>
          if q in k && Live(s, q) then l[q] == k[q] && SameLinks(s, t, q) else l[q] == [] && FreshNode(t, q))
    && (forall q, j {:trigger l[q][j]} :: q in l && 0 <= j < |l[q]| ==> l[q][j] in l)
    && (forall q {:trigger t[q].value.parent} :: q in l && t[q].value.parent.Some? ==> t[q].value.parent.value in l)
  }

  lemma LinkedClosed(s: Slots, k: Kids)
    requires Linked(s, k)
    ensures forall x: nat :: x in k <==> Live(s, x)
    ensures forall q, j {:trigger k[q][j]} :: q in k && 0 <= j < |k[q]| ==> k[q][j] in k
    ensures forall q {:trigger s[q].value.parent} :: q in k && s[q].value.parent.Some? ==> s[q].value.parent.value in k
  {
    forall q, j | q in k && 0 <= j < |k[q]|
      ensures k[q][j] in k
    {
      assert PlaceAgrees(s, q, k[q], j);
    }
    forall q | q in k && s[q].value.parent.Some?
      ensures s[q].value.parent.value in k
    {
      assert UpAgrees(s, k, q);
    }
  }

  lemma CarriesLinked(s: Slots, t: Slots, k: Kids, l: Kids)
    requires Linked(s, k) && Carries(s, t, k, l)
    ensures Linked(t, l)
  {
    forall q, j | q in l && 0 <= j < |l[q]|
      ensures PlaceAgrees(t, q, l[q], j)
    {
      assert PlaceAgrees(s, q, k[q], j);
      assert l[q][j] in l;
      assert l[q][j] in k;
    }
    forall q | q in l
      ensures EndsAgree(t, q, l[q]) && UpAgrees(t, l, q)
    {
      if q in k {
        assert EndsAgree(s, q, k[q]) && UpAgrees(s, k, q);
      }
    }
  }
}
