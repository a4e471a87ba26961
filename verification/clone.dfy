/** src/core/clone.rs: deep copy with an explicit stack, and extraction. */
module Cloning {
  import opened Wrappers
  import opened Rows
  import opened Forms
  import opened Edits
  import opened Slabs
  import opened Links
  import opened Surgery
  import opened Traversal
  import opened Arenas
  import opened Trees
  import opened Mutation

  /** The same form with its nodes numbered `n`, `n + 1`, ... in preorder. */
  ghost function Relabel(t: Form, n: nat): (r: Form)
    decreases t, 1
  {
    Form(n, t.kind, RelabelAll(t.kids, n + 1))
  }

  ghost function RelabelAll(ts: seq<Form>, n: nat): (r: seq<Form>)
    ensures |r| == |ts|
    decreases ts, 0
  {
    if ts == [] then [] else [Relabel(ts[0], n)] + RelabelAll(ts[1..], n + Size(ts[0]))
  }

  /** What a clone of a proper subtree holds: children of a copied top atom are left behind. */
  ghost function CopyOf(t: Form): Form {
    if t.kind.Atom? then Form(0, t.kind, []) else Relabel(t, 0)
  }

  lemma {:induction false} RelabelAbs(t: Form, n: nat)
    ensures Abs(Relabel(t, n)) == Abs(t)
    decreases t, 1
  {
    RelabelAllAbs(t.kids, n + 1);
  }

  lemma {:induction false} RelabelAllAbs(ts: seq<Form>, n: nat)
    ensures AbsAll(RelabelAll(ts, n)) == AbsAll(ts)
    decreases ts, 0
  {
    if ts != [] {
      RelabelAbs(ts[0], n);
      RelabelAllAbs(ts[1..], n + Size(ts[0]));
    }
  }

  ghost function Count(n: nat, length: nat): (r: seq<nat>)
    ensures |r| == length
  {
    seq(length, i requires 0 <= i => n + i)
  }

  /** The new numbers are consecutive in preorder. */
  lemma {:induction false} RelabelPre(t: Form, n: nat)
    ensures Pre(Relabel(t, n)) == Count(n, Size(t))
    decreases t, 1
  {
    RelabelAllPre(t.kids, n + 1);
  }

  lemma {:induction false} RelabelAllPre(ts: seq<Form>, n: nat)
    ensures PreAll(RelabelAll(ts, n)) == Count(n, |PreAll(ts)|)
    decreases ts, 0
  {
    if ts != [] {
      RelabelPre(ts[0], n);
      RelabelAllPre(ts[1..], n + Size(ts[0]));
    }
  }

  lemma CopyMeans(t: Form)
    ensures Abs(CopyOf(t)) == Abs(t)
    ensures Pre(CopyOf(t)) == Count(0, if t.kind.Atom? then 1 else Size(t))
  {
    if t.kind.List? {
      RelabelAbs(t, 0);
      RelabelPre(t, 0);
    }
  }

  // ---------------------------------------------------------------- what the stack still owes

  /** The destination once every pending copy, first entry first, has been added as the last child of
      its parent, numbered from `n`. */
  ghost function Complete(t: Form, pending: seq<(Form, nat)>, n: nat): Form
    decreases |pending|
  {
    if pending == [] then t
    else
      var (s, d) := pending[0];
      Complete(Insert(t, d, Last, Relabel(s, n)), pending[1..], n + Size(s))
  }

  ghost function Owed(pending: seq<(Form, nat)>): nat {
    if pending == [] then 0 else Size(pending[0].0) + Owed(pending[1..])
  }

  /** A row of copies to make under one parent. */
  ghost function Under<A>(ts: seq<A>, n: nat): (r: seq<(A, nat)>)
    ensures |r| == |ts|
  {
    seq(|ts|, i requires 0 <= i < |ts| => (ts[i], n))
  }

  /** Adding a child to a node that was itself just added is adding the node with the child. */
  lemma {:induction false} InsertIntoNew(t: Form, d: nat, n: nat, kind: NodeType, kids: seq<Form>, c: Form)
    requires n !in Pre(t) && n !in PreAll(kids)
    ensures Insert(Insert(t, d, Last, Form(n, kind, kids)), n, Last, c)
         == Insert(t, d, Last, Form(n, kind, kids + [c]))
    decreases t
  {
    hide Insert;
    var leaf, leaf' := Form(n, kind, kids), Form(n, kind, kids + [c]);
    var ks, rs := InsertAll(t.kids, d, Last, leaf), InsertAll(t.kids, d, Last, leaf');
    forall i | 0 <= i < |t.kids|
      ensures Insert(ks[i], n, Last, c) == rs[i]
    {
      KidInside(t, i);
      InsertIntoNew(t.kids[i], d, n, kind, kids, c);
    }
    InsertAllElsewhere(kids, n, Last, c);
    InsertLast(leaf, n, c);
    InsertLast(t, d, leaf);
    InsertLast(t, d, leaf');
    var r := Insert(t, d, Last, leaf);
    InsertLast(r, n, c);
    assert t.id == Pre(t)[0] != n;
    if t.id == d {
      assert InsertAll(r.kids, n, Last, c) == rs + [leaf'];
    } else {
      assert InsertAll(r.kids, n, Last, c) == rs;
    }
  }

  lemma InsertLast(t: Form, p: nat, c: Form)
    ensures var ks := InsertAll(t.kids, p, Last, c);
            Insert(t, p, Last, c) == Form(t.id, t.kind, if t.id == p then ks + [c] else ks)
  {
    var ks := InsertAll(t.kids, p, Last, c);
    assert Splice(ks, |ks|, c) == ks + [c];
  }

  lemma NoSize()
    ensures PreAll([]) == []
  {
  }

  lemma FirstSize(ts: seq<Form>)
    requires ts != []
    ensures |PreAll(ts)| == Size(ts[0]) + |PreAll(ts[1..])|
  {
  }

  lemma StillFresh(n: nat, kids: seq<Form>, t: Form, m: nat)
    requires n !in PreAll(kids) && n < m
    ensures n !in PreAll(kids + [Relabel(t, m)])
  {
    RelabelPre(t, m);
    PreAllSnoc(kids, Relabel(t, m));
  }

  lemma {:induction false} CompleteKids(
      t: Form, d: nat, n: nat, kind: NodeType, kids: seq<Form>, ts: seq<Form>, rest: seq<(Form, nat)>, m: nat)
    requires n !in Pre(t) && n !in PreAll(kids) && n < m
    ensures Complete(Insert(t, d, Last, Form(n, kind, kids)), Under(ts, n) + rest, m)
         == Complete(Insert(t, d, Last, Form(n, kind, kids + RelabelAll(ts, m))), rest, m + |PreAll(ts)|)
    decreases |ts|
  {
    hide Insert, Relabel, Pre, PreAll;
    if ts == [] {
      NoSize();
      assert Under(ts, n) + rest == rest;
      assert kids + [] == kids;
    } else {
      var c := Relabel(ts[0], m);
      InsertIntoNew(t, d, n, kind, kids, c);
      assert (Under(ts, n) + rest)[1..] == Under(ts[1..], n) + rest;
      StillFresh(n, kids, ts[0], m);
      FirstSize(ts);
      CompleteKids(t, d, n, kind, kids + [c], ts[1..], rest, m + Size(ts[0]));
      assert kids + [c] + RelabelAll(ts[1..], m + Size(ts[0])) == kids + RelabelAll(ts, m);
    }
  }

  /** One turn of the loop: add a childless copy, and owe the copies of its children. */
  lemma CompleteStep(t: Form, s: Form, d: nat, rest: seq<(Form, nat)>, n: nat)
    requires n !in Pre(t)
    ensures Complete(t, [(s, d)] + rest, n)
         == Complete(Insert(t, d, Last, Form(n, s.kind, [])), Under(s.kids, n) + rest, n + 1)
    ensures Owed([(s, d)] + rest) == 1 + Owed(Under(s.kids, n) + rest)
  {
    hide Insert;
    CompleteKids(t, d, n, s.kind, [], s.kids, rest, n + 1);
    assert [] + RelabelAll(s.kids, n + 1) == RelabelAll(s.kids, n + 1);
    assert ([(s, d)] + rest)[1..] == rest;
    OwedUnder(s.kids, n, rest);
  }

  lemma {:induction false} OwedUnder(ts: seq<Form>, n: nat, rest: seq<(Form, nat)>)
    ensures Owed(Under(ts, n) + rest) == |PreAll(ts)| + Owed(rest)
  {
    if ts == [] {
      assert Under(ts, n) + rest == rest;
    } else {
      assert (Under(ts, n) + rest)[1..] == Under(ts[1..], n) + rest;
      OwedUnder(ts[1..], n, rest);
    }
  }

  // ---------------------------------------------------------------- the copy loop

  /** A tree under construction: nothing freed, so slots are handed out in order. */
  ghost predicate Growing(d: Tree)
    reads d, d.nodes
  {
    d.Valid() && d.nodes.free == []
  }

  lemma NextIsFresh(d: Tree)
    requires Growing(d)
    ensures d.root < |d.nodes.slots|
    ensures |d.nodes.slots| !in d.forms && |d.nodes.slots| !in Pre(d.forms[d.root])
  {
    RepresentsParts(d.nodes.slots, d.forms);
    if |d.nodes.slots| in Pre(d.forms[d.root]) {
      PartKnown(d.forms, d.root, |d.nodes.slots|);
    }
  }

  /** What the edits make of the root form when a new leaf is hung below it. */
  lemma LeafAppended(f: Forest, root: nat, x: nat, kind: NodeType, parent: nat)
    requires WellFormed(f) && root in f && parent in f && x !in f && !Attached(f, root)
    ensures var g := Grown(f, x, kind);
            var h := Moved(g, parent, Last, x);
            && WellFormed(g) && !CycleSeen(g, parent, x) && parent !in Pre(g[x])
            && h.Keys == f.Keys + {x} && !Attached(h, root)
            && h[root] == Insert(f[root], parent, Last, Form(x, kind, []))
  {
    var g := Grown(f, x, kind);
    GrownWellFormed(f, x, kind);
    DetachedUnattached(g, x);
    assert Pre(g[x]) == [x];
    MovedAttached(g, parent, Last, x, root);
    GrownAttached(f, x, kind, root);
  }

  /** Allocates a childless copy and appends it; the cycle assertion never fires. */
  method AddCopy(destination: Tree, kind: NodeType, parent: nat) returns (node: nat)
    requires Growing(destination) && parent in destination.forms
    modifies destination, destination.nodes
    ensures Growing(destination)
    ensures node == |old(destination.nodes.slots)| && |destination.nodes.slots| == node + 1
    ensures destination.forms.Keys == old(destination.forms).Keys + {node}
    ensures destination.forms[destination.root]
         == Insert(old(destination.forms)[destination.root], parent, Last, Form(node, kind, []))
    ensures destination.version == old(destination.version) + 1 && destination.reprCache == old(destination.reprCache)
  {
    hide Represents, FreeExact, Insert, IsForest;
    RepresentsParts(destination.nodes.slots, destination.forms);
    NextIsFresh(destination);
    LeafAppended(destination.forms, destination.root, |destination.nodes.slots|, kind, parent);
    node := destination.Alloc(kind);
    var ok := Append(destination, parent, node);
    assert ok;
  }

  ghost predicate PairsIn(f: Forest, g: Forest, stack: seq<(nat, nat)>) {
    forall i :: 0 <= i < |stack| ==> stack[i].0 in f && stack[i].1 in g
  }

  /** The stack as the copies it still owes, top first. */
  ghost function PendingCopies(f: Forest, stack: seq<(nat, nat)>): (r: seq<(Form, nat)>)
    requires forall i :: 0 <= i < |stack| ==> stack[i].0 in f
    ensures |r| == |stack|
  {
    seq(|stack|, i requires 0 <= i < |stack| => (f[stack[|stack| - 1 - i].0], stack[|stack| - 1 - i].1))
  }

  lemma CopiesPop(f: Forest, stack: seq<(nat, nat)>)
    requires |stack| > 0 && forall i :: 0 <= i < |stack| ==> stack[i].0 in f
    ensures var (x, d) := stack[|stack| - 1];
            PendingCopies(f, stack) == [(f[x], d)] + PendingCopies(f, stack[..|stack| - 1])
  {
  }

  lemma CopiesPush(f: Forest, g: Forest, stack: seq<(nat, nat)>, x: nat, n: nat)
    requires Consistent(f) && x in f && n in g && PairsIn(f, g, stack)
    ensures var grown := stack + Reversed(Under(KidMap(f)[x], n));
            PairsIn(f, g, grown) && PendingCopies(f, grown) == Under(f[x].kids, n) + PendingCopies(f, stack)
  {
    var row := KidMap(f)[x];
    var grown := stack + Reversed(Under(row, n));
    forall i | 0 <= i < |row|
      ensures row[i] in f && f[row[i]] == f[x].kids[i]
    {
      assert KidKnown(f, x, i);
    }
    assert forall i :: 0 <= i < |row| ==> grown[|grown| - 1 - i] == (row[i], n);
  }

  /** The inner loop of `clone_into`. */
  method PushCopies(source: Tree, x: nat, node: nat, stack: seq<(nat, nat)>, ghost row: seq<nat>)
    returns (grown: seq<(nat, nat)>)
    requires RowReadable(source.nodes.slots, x, row)
    ensures grown == stack + Reversed(Under(row, node))
  {
    hide Reversed;
    grown := stack;
    ghost var all := Under(row, node);
    ghost var j: nat := |row|;
    var cursor := source.Get(x).lastChild;
    NoneReversed(all);
    while cursor.Some?
      invariant 0 <= j <= |row| && cursor == Before(row, j)
      invariant grown == stack + Reversed(all[j..])
      decreases j
    {
      assert row[j - 1] == cursor.value;
      var previous := source.Get(cursor.value).previousSibling;
      ReversedStep(all, j);
      grown := grown + [(cursor.value, node)];
      cursor := previous;
      j := j - 1;
    }
  }

  /** One turn of the copy loop.  What is built together with what is owed stays the same tree. */
  method CopyTop(source: Tree, destination: Tree, stack: seq<(nat, nat)>) returns (rest: seq<(nat, nat)>)
    requires source.Forested() && Growing(destination) && |stack| > 0
    requires PairsIn(source.forms, destination.forms, stack)
    requires source != destination && source.nodes != destination.nodes
    modifies destination, destination.nodes
    ensures Growing(destination) && PairsIn(source.forms, destination.forms, rest)
    ensures |destination.nodes.slots| == |old(destination.nodes.slots)| + 1
    ensures Complete(destination.forms[destination.root], PendingCopies(source.forms, rest), |destination.nodes.slots|)
         == Complete(old(destination.forms)[destination.root], PendingCopies(source.forms, stack),
                     |old(destination.nodes.slots)|)
    ensures Owed(PendingCopies(source.forms, stack)) == 1 + Owed(PendingCopies(source.forms, rest))
    ensures old(destination.forms).Keys <= destination.forms.Keys
    ensures destination.version == old(destination.version) + 1 && destination.reprCache == old(destination.reprCache)
  {
    hide Represents, FreeExact, Insert, Relabel, Pre, KidMap, Reversed, Under, PendingCopies, Complete, Owed;
    hide WellFormed, Linked, KindsAgree, Distinct;
    ghost var f := source.forms;
    RepresentsParts(source.nodes.slots, f);
    var (src, dstParent) := stack[|stack| - 1];
    NextIsFresh(destination);
    CopyTurn(f, destination.forms, stack, destination.forms[destination.root], |destination.nodes.slots|);
    KindRead(source.nodes.slots, f, src);
    var newNode := AddCopy(destination, source.Get(src).kind, dstParent);
    ForestRowReadable(source.nodes.slots, f, src);
    rest := PushCopies(source, src, newNode, stack[..|stack| - 1], KidMap(f)[src]);
  }

  /** The same on values: the stack after the turn, over the form with the new leaf. */
  lemma CopyTurn(f: Forest, g: Forest, stack: seq<(nat, nat)>, t: Form, n: nat)
    requires WellFormed(f) && PairsIn(f, g, stack) && |stack| > 0 && n !in Pre(t)
    ensures var (x, d) := stack[|stack| - 1];
            && KidMap(f).Keys == f.Keys
            && var rest := stack[..|stack| - 1] + Reversed(Under(KidMap(f)[x], n));
               && (forall i :: 0 <= i < |rest| ==> rest[i].0 in f && (rest[i].1 in g || rest[i].1 == n))
               && Complete(t, PendingCopies(f, stack), n)
               == Complete(Insert(t, d, Last, Form(n, f[x].kind, [])), PendingCopies(f, rest), n + 1)
               && Owed(PendingCopies(f, stack)) == 1 + Owed(PendingCopies(f, rest))
  {
    hide Insert, Relabel, Pre, Reversed, Under, PendingCopies, Complete, Owed;
    var (x, d) := stack[|stack| - 1];
    var base := stack[..|stack| - 1];
    assert KidMap(f).Keys == f.Keys;
    CopiesPop(f, stack);
    CompleteStep(t, f[x], d, PendingCopies(f, base), n);
    var h := g[n := Form(n, List, [])];
    CopiesPush(f, h, base, x, n);
  }

  /** Copies the subtree of `sourceNode` under `destinationParent`, as its last child. */
  method CloneInto(source: Tree, sourceNode: nat, destination: Tree, destinationParent: nat)
    requires source.Forested() && sourceNode in source.forms
    requires Growing(destination) && destinationParent in destination.forms
    requires source != destination && source.nodes != destination.nodes
    modifies destination, destination.nodes
    ensures Growing(destination)
    ensures destination.forms[destination.root]
         == Insert(old(destination.forms)[destination.root], destinationParent, Last,
                   Relabel(source.forms[sourceNode], |old(destination.nodes.slots)|))
    ensures |destination.nodes.slots| == |old(destination.nodes.slots)| + Size(source.forms[sourceNode])
    ensures old(destination.forms).Keys <= destination.forms.Keys
    ensures destination.version - old(destination.version) == Size(source.forms[sourceNode])
    ensures destination.reprCache == old(destination.reprCache)
  {
    hide Represents, FreeExact, Insert, Relabel, Pre, PendingCopies, Complete, Owed;
    ghost var f, d := source.forms, destination;
    ghost var n, v := |d.nodes.slots|, d.version;
    ghost var goal := Insert(d.forms[d.root], destinationParent, Last, Relabel(f[sourceNode], n));
    var stack := [(sourceNode, destinationParent)];
    OneCopy(f, sourceNode, destinationParent, d.forms[d.root], n);
    while |stack| > 0
      invariant Growing(d) && PairsIn(f, d.forms, stack)
      invariant Complete(d.forms[d.root], PendingCopies(f, stack), |d.nodes.slots|) == goal
      invariant |d.nodes.slots| + Owed(PendingCopies(f, stack)) == n + Size(f[sourceNode])
      invariant d.version - v == |d.nodes.slots| - n
      invariant old(d.forms).Keys <= d.forms.Keys
      invariant d.reprCache == old(d.reprCache)
      decreases Owed(PendingCopies(f, stack))
    {
      stack := CopyTop(source, destination, stack);
    }
    NoCopies(f, d.forms[d.root], |d.nodes.slots|);
  }

  lemma OneCopy(f: Forest, x: nat, d: nat, t: Form, n: nat)
    requires x in f
    ensures Complete(t, PendingCopies(f, [(x, d)]), n) == Insert(t, d, Last, Relabel(f[x], n))
    ensures Owed(PendingCopies(f, [(x, d)])) == Size(f[x])
  {
    assert PendingCopies(f, [(x, d)]) == [(f[x], d)];
  }

  lemma NoCopies(f: Forest, t: Form, n: nat)
    ensures Complete(t, PendingCopies(f, []), n) == t && Owed(PendingCopies(f, [])) == 0
  {
  }

  lemma KindRead(s: Slots, f: Forest, x: nat)
    requires Represents(s, f) && x in f
    ensures Live(s, x) && s[x].value.kind == f[x].kind
  {
  }

  lemma {:induction false} RelabelSnoc(ts: seq<Form>, t: Form, n: nat)
    ensures RelabelAll(ts + [t], n) == RelabelAll(ts, n) + [Relabel(t, n + |PreAll(ts)|)]
  {
    if ts == [] {
      assert ts + [t] == [t];
      assert RelabelAll([t], n) == [Relabel(t, n)] + RelabelAll([], n + Size(t));
    } else {
      assert (ts + [t])[1..] == ts[1..] + [t];
      RelabelSnoc(ts[1..], t, n + Size(ts[0]));
    }
  }

  /** Copying one more child of the top list extends the copied row. */
  lemma RowGrows(ts: seq<Form>, i: nat)
    requires i < |ts|
    ensures var m := 1 + |PreAll(ts[..i])|;
            && Insert(Form(0, List, RelabelAll(ts[..i], 1)), 0, Last, Relabel(ts[i], m))
            == Form(0, List, RelabelAll(ts[..i + 1], 1))
            && m + Size(ts[i]) == 1 + |PreAll(ts[..i + 1])|
  {
    hide Relabel;
    var copied, m := RelabelAll(ts[..i], 1), 1 + |PreAll(ts[..i])|;
    var c := Relabel(ts[i], m);
    RelabelAllPre(ts[..i], 1);
    assert Insert(Form(0, List, copied), 0, Last, c) == Form(0, List, copied + [c]) by {
      InsertAllElsewhere(copied, 0, Last, c);
    }
    RelabelSnoc(ts[..i], ts[i], 1);
    assert ts[..i + 1] == ts[..i] + [ts[i]];
    PreAllSnoc(ts[..i], ts[i]);
  }

  /** The clone of an atom: a slab with that one node. */
  method AtomTree(kind: NodeType) returns (copy: Tree)
    requires kind.Atom?
    ensures copy.Valid() && fresh(copy) && fresh(copy.nodes)
    ensures copy.View() == Arena(map[0 := Form(0, kind, [])], 1, [], 0, 0, false, None)
  {
    var nodes := new Slab<Node>();
    var root := nodes.Insert(NewNode(kind));
    EmptyForest();
    GrowForest([], nodes.slots, map[], 0, kind);
    ghost var forms := Grown(map[], 0, kind);
    GrownWellFormed(map[], 0, kind);
    copy := new Tree.FromRaw(nodes, root, forms);
    assert forms == map[0 := Form(0, kind, [])];
  }

  /** The clone of a list that is not the root. */
  method ListTree(source: Tree, node: nat) returns (copy: Tree)
    requires source.Forested() && node in source.forms && source.forms[node].kind.List?
    ensures copy.Valid() && fresh(copy) && fresh(copy.nodes)
    ensures copy.root == 0 && copy.forms[0] == Relabel(source.forms[node], 0)
    ensures copy.View() == Arena(copy.forms, Size(source.forms[node]), [], 0, Size(source.forms[node]) - 1, false, None)
  {
    hide Represents, FreeExact, Insert, Pre;
    ghost var f, ts := source.forms, source.forms[node].kids;
    ghost var row := KidMap(f)[node];
    RepresentsParts(source.nodes.slots, f);
    LinksLive(source.nodes.slots, f, node);
    copy := new Tree.New(false);
    ghost var i := 0;
    var cursor := source.Get(node).firstChild;
    FirstCursor(source.nodes.slots, f, node);
    assert ts[..0] == [];
    while cursor.Some?
      invariant 0 <= i <= |row| && cursor == From(row, i)
      invariant Growing(copy) && copy.root == 0
      invariant fresh(copy) && fresh(copy.nodes)
      invariant copy.forms[0] == Form(0, List, RelabelAll(ts[..i], 1))
      invariant |copy.nodes.slots| == 1 + |PreAll(ts[..i])| == 1 + copy.version
      invariant copy.reprCache == None && !copy.bare
      decreases |row| - i
    {
      NextCursor(source.nodes.slots, f, node, i);
      var next := source.Get(cursor.value).nextSibling;
      CloneInto(source, cursor.value, copy, 0);
      RowGrows(ts, i);
      cursor := next;
      i := i + 1;
    }
    assert ts[..i] == ts;
    SizeOfRow(f[node]);
  }

  lemma SizeOfRow(t: Form)
    ensures Size(t) == 1 + |PreAll(t.kids)|
  {
  }

  /** Deep copy.  A clone of the root copies the whole slab, detached nodes and cache included; a
      clone of any other node holds that node's copy and nothing else, numbered in preorder. */
  method CloneSubtree(source: Tree, node: nat) returns (copy: Tree)
    requires source.Valid() && node in source.forms
    ensures copy.Valid() && fresh(copy) && fresh(copy.nodes)
    ensures node == source.root ==> copy.View() == source.View()
    ensures node != source.root ==>
              var t := CopyOf(source.forms[node]);
              && copy.root == 0 && copy.forms[0] == t
              && copy.View() == Arena(copy.forms, Size(t), [], 0, Size(t) - 1, false, None)
    ensures copy.root in copy.forms && Abs(copy.forms[copy.root]) == Abs(source.forms[node])
  {
    hide Represents, FreeExact, Insert, Relabel, Pre;
    if node == source.root {
      copy := new Tree.Clone(source);
      return;
    }
    CopyMeans(source.forms[node]);
    KindRead(source.nodes.slots, source.forms, node);
    match source.Get(node).kind {
      case Atom(atom) =>
        copy := AtomTree(Atom(atom));
      case List =>
        copy := ListTree(source, node);
    }
  }

  /** Extraction copies the subtree and then removes it; of the root it is only a clone.  The version
      is left for the caller to bump. */
  method ExtractSubtree(tree: Tree, node: nat) returns (copy: Tree)
    requires tree.Valid() && node in tree.forms
    modifies tree`forms, tree.nodes
    ensures tree.Valid() && copy.Valid() && fresh(copy) && fresh(copy.nodes)
    ensures copy.root in copy.forms && Abs(copy.forms[copy.root]) == Abs(old(tree.forms)[node])
    ensures node == tree.root ==> tree.View() == old(tree.View()) == copy.View()
    ensures node != tree.root ==>
              var t := CopyOf(old(tree.forms)[node]);
              && copy.forms[copy.root] == t
              && copy.View() == Arena(copy.forms, Size(t), [], 0, Size(t) - 1, false, None)
              && tree.View() == Arenas.Remove(old(tree.View()), node)
  {
    hide Represents, FreeExact, Pre;
    copy := CloneSubtree(tree, node);
    if node != tree.root {
      RemoveKeepsRoot(tree.nodes.slots, tree.forms, tree.root, node);
      Mutation.Remove(tree, node);
    }
  }

  lemma RemoveKeepsRoot(s: Slots, f: Forest, root: nat, node: nat)
    requires Represents(s, f) && root in f && node in f && node != root && !Attached(f, root)
    ensures root in Removed(f, node) && !Attached(Removed(f, node), root)
  {
    RepresentsParts(s, f);
    RemovedWellFormed(f, node);
    RemovedAttached(f, node, root);
    if root in Pre(f[node]) {
      var p, i := PartHasParent(f, node, root);
      assert false;
    }
  }

  /** Nothing is lost or duplicated: the removed subtree accounts for exactly the nodes that left, and
      the copy holds as many, unless the node was an atom that had children. */
  lemma ExtractConserves(f: Forest, node: nat)
    requires WellFormed(f) && node in f
    ensures |f| == |Removed(f, node)| + Size(f[node])
    ensures Size(CopyOf(f[node])) == Size(f[node]) <==> !(f[node].kind.Atom? && f[node].kids != [])
  {
    RemovedWellFormed(f, node);
    PreNoDup(f, node);
    NoDupCount(Pre(f[node]));
    forall x | x in Pre(f[node])
      ensures x in f
    {
      PartKnown(f, node, x);
    }
    assert f.Keys == Removed(f, node).Keys + Elements(Pre(f[node]));
    assert Removed(f, node).Keys !! Elements(Pre(f[node]));
    CopyMeans(f[node]);
    SizeOfRow(f[node]);
    if f[node].kids != [] {
      assert Pre(f[node].kids[0]) != [];
    }
  }

  /** What is left of the source is the old tree with that one node cut out. */
  lemma ExtractLeaves(f: Forest, root: nat, node: nat)
    requires WellFormed(f) && root in f && node in f && root !in Pre(f[node])
    ensures root in Removed(f, node) && Removed(f, node)[root] == Cut(f[root], node)
    ensures node !in Pre(Removed(f, node)[root])
  {
    RemovedWellFormed(f, node);
    assert Pre(f[node])[0] == node;
    if node in Pre(Removed(f, node)[root]) {
      PartKnown(Removed(f, node), root, node);
      assert false;
    }
  }
}
