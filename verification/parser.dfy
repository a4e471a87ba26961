/** src/parse/parser.rs: one pass over the tokens that links slab nodes directly. */
module Parsing {
  import opened Wrappers
  import opened Utf8
  import opened Rows
  import opened Forms
  import opened Edits
  import opened Slabs
  import opened Links
  import opened Surgery
  import opened Arenas
  import opened Trees
  import opened Tokenizing
  import opened Grammar
  import Atoms

  /** The lists still open: a path from `t` along last children. */
  ghost predicate Spine(t: Form, open: seq<nat>)
    decreases |open|
  {
    && open != [] && t.id == open[0] && t.kind.List?
    && (|open| > 1 ==> t.kids != [] && Spine(t.kids[|t.kids| - 1], open[1..]))
  }

  ghost function Closers(n: nat): (r: seq<Token>)
    ensures |r| == n
  {
    seq(n, _ => RightParen)
  }

  lemma {:induction false} SpineInside(t: Form, open: seq<nat>)
    requires Spine(t, open)
    ensures open[|open| - 1] in Pre(t)
    decreases |open|
  {
    if |open| > 1 {
      SpineInside(t.kids[|t.kids| - 1], open[1..]);
      KidInside(t, |t.kids| - 1);
    }
  }

  lemma {:induction false} SpinePrefix(t: Form, open: seq<nat>)
    requires Spine(t, open) && |open| > 1
    ensures Spine(t, open[..|open| - 1])
    decreases |open|
  {
    if |open| > 2 {
      SpinePrefix(t.kids[|t.kids| - 1], open[1..]);
      assert open[1..][..|open| - 2] == open[..|open| - 1][1..];
    }
  }

  lemma {:induction false} AbsAllConcat(ts: seq<Form>, us: seq<Form>)
    ensures AbsAll(ts + us) == AbsAll(ts) + AbsAll(us)
  {
  }

  lemma FlattenKids(ts: seq<Form>, t: Form)
    ensures FlattenAll(AbsAll(ts + [t])) == FlattenAll(AbsAll(ts)) + Flatten(Abs(t))
  {
    AbsAllConcat(ts, [t]);
    assert AbsAll([t]) == [Abs(t)];
    FlattenConcat(AbsAll(ts), [Abs(t)]);
    FlattenOne(Abs(t));
  }

  /** Tokens of `t` up to its open end: all but the closing brackets of its open lists. */
  ghost function Unclosed(t: Form, open: seq<nat>): seq<Token>
    requires Spine(t, open)
    decreases |open|
  {
    if |open| == 1 then [LeftParen] + FlattenAll(AbsAll(t.kids))
    else
      var n := |t.kids| - 1;
      [LeftParen] + FlattenAll(AbsAll(t.kids[..n])) + Unclosed(t.kids[n], open[1..])
  }

  lemma {:induction false} UnclosedThenClosers(t: Form, open: seq<nat>)
    requires Spine(t, open)
    ensures Flatten(Abs(t)) == Unclosed(t, open) + Closers(|open|)
    decreases |open|
  {
    hide Abs, AbsAll, Flatten, FlattenAll, Closers;
    FlattenList(t);
    ClosersStep(|open| - 1);
    if |open| > 1 {
      var n := |t.kids| - 1;
      var a, b := FlattenAll(AbsAll(t.kids[..n])), Unclosed(t.kids[n], open[1..]);
      assert t.kids == t.kids[..n] + [t.kids[n]];
      FlattenKids(t.kids[..n], t.kids[n]);
      UnclosedThenClosers(t.kids[n], open[1..]);
      Bracketed(a, b, Closers(|open| - 1));
    }
  }

  lemma FlattenList(t: Form)
    requires t.kind.List?
    ensures Flatten(Abs(t)) == [LeftParen] + FlattenAll(AbsAll(t.kids)) + [RightParen]
  {
  }

  lemma ClosersStep(n: nat)
    ensures Closers(0) == [] && Closers(n + 1) == Closers(n) + [RightParen]
  {
  }

  lemma Bracketed(a: seq<Token>, b: seq<Token>, c: seq<Token>)
    ensures [LeftParen] + (a + (b + c)) + [RightParen] == [LeftParen] + a + b + (c + [RightParen])
  {
  }

  /** Below its first node the spine stays in the last child, and the node at its end is nowhere else. */
  lemma SpineTail(t: Form, open: seq<nat>)
    requires Spine(t, open) && |open| > 1 && NoDup(Pre(t))
    ensures var d, n := open[|open| - 1], |t.kids| - 1;
            && open[1..][|open| - 2] == d && d != t.id
            && d !in PreAll(t.kids[..n]) && NoDup(Pre(t.kids[n])) && d in Pre(t.kids[n])
  {
    var n := |t.kids| - 1;
    SpineInside(t.kids[n], open[1..]);
    assert t.kids == t.kids[..n] + [t.kids[n]];
    PreAllSnoc(t.kids[..n], t.kids[n]);
    var front := [t.id] + PreAll(t.kids[..n]);
    assert Pre(t) == front + Pre(t.kids[n]);
    NoDupApart(front, Pre(t.kids[n]));
    NoDupSuffix(front, Pre(t.kids[n]));
  }

  lemma NoDupSuffix(s: seq<nat>, t: seq<nat>)
    requires NoDup(s + t)
    ensures NoDup(t)
  {
    forall i, j | 0 <= i < j < |t|
      ensures t[i] != t[j]
    {
      assert (s + t)[|s| + i] == t[i] && (s + t)[|s| + j] == t[j];
    }
  }

  /** Insertion at the end of the spine rebuilds last children only. */
  lemma InsertOnSpine(t: Form, open: seq<nat>, c: Form)
    requires Spine(t, open) && NoDup(Pre(t))
    ensures var d, n := open[|open| - 1], |t.kids| - 1;
            var r := Insert(t, d, Last, c);
            && r.id == t.id && r.kind == t.kind
            && r.kids == if |open| == 1 then t.kids + [c] else t.kids[..n] + [Insert(t.kids[n], d, Last, c)]
  {
    hide NoDup;
    var d := open[|open| - 1];
    if |open| == 1 {
      assert Pre(t) == [t.id] + PreAll(t.kids);
      NoDupApart([t.id], PreAll(t.kids));
      InsertAllElsewhere(t.kids, d, Last, c);
    } else {
      SpineTail(t, open);
      LastRebuilt(t.kids, d, c);
    }
  }

  lemma LastRebuilt(ts: seq<Form>, d: nat, c: Form)
    requires ts != [] && d !in PreAll(ts[..|ts| - 1])
    ensures InsertAll(ts, d, Last, c) == ts[..|ts| - 1] + [Insert(ts[|ts| - 1], d, Last, c)]
  {
    hide Insert, Ids, PlaceIndex;
    var front := ts[..|ts| - 1];
    InsertAllElsewhere(front, d, Last, c);
    forall i | 0 <= i < |front|
      ensures InsertAll(ts, d, Last, c)[i] == front[i]
    {
      assert InsertAll(front, d, Last, c)[i] == Insert(front[i], d, Last, c);
    }
  }

  /** Hanging a leaf at the end of the spine puts its tokens at the open end. */
  lemma {:induction false} SpineInsert(t: Form, open: seq<nat>, c: Form)
    requires Spine(t, open) && NoDup(Pre(t))
    ensures var r := Insert(t, open[|open| - 1], Last, c);
            Spine(r, open) && Unclosed(r, open) == Unclosed(t, open) + Flatten(Abs(c))
    decreases |open|
  {
    hide Insert, Flatten, FlattenAll, Abs, Pre, NoDup;
    var r := Insert(t, open[|open| - 1], Last, c);
    InsertOnSpine(t, open, c);
    if |open| == 1 {
      FlattenKids(t.kids, c);
    } else {
      var n := |t.kids| - 1;
      SpineTail(t, open);
      SpineInsert(t.kids[n], open[1..], c);
      assert r.kids[..n] == t.kids[..n];
    }
  }

  /** A list hung there is the new end of the spine. */
  lemma {:induction false} SpineExtend(t: Form, open: seq<nat>, c: Form)
    requires Spine(t, open) && NoDup(Pre(t)) && c.kind.List? && c.kids == []
    ensures var r := Insert(t, open[|open| - 1], Last, c);
            Spine(r, open + [c.id]) && Unclosed(r, open + [c.id]) == Unclosed(t, open) + [LeftParen]
    decreases |open|
  {
    hide Insert, Flatten, Abs, Pre, NoDup, FlattenAll, AbsAll;
    var r := Insert(t, open[|open| - 1], Last, c);
    InsertOnSpine(t, open, c);
    if |open| == 1 {
      SpineExtendEnd(t, open, r, c);
    } else {
      var n := |t.kids| - 1;
      SpineTail(t, open);
      SpineExtend(t.kids[n], open[1..], c);
      assert r.kids[..n] == t.kids[..n];
      assert (open + [c.id])[1..] == open[1..] + [c.id];
      assert r.kids[n] == Insert(t.kids[n], open[|open| - 1], Last, c);
    }
  }

  lemma SpineExtendEnd(t: Form, open: seq<nat>, r: Form, c: Form)
    requires Spine(t, open) && |open| == 1 && c.kind.List? && c.kids == []
    requires r.id == t.id && r.kind == t.kind && r.kids == t.kids + [c]
    ensures Spine(r, open + [c.id]) && Unclosed(r, open + [c.id]) == Unclosed(t, open) + [LeftParen]
  {
    assert (open + [c.id])[1..] == [c.id];
    assert r.kids[..|t.kids|] == t.kids;
    assert FlattenAll(AbsAll([])) == [];
  }

  /** Closing the innermost list adds its bracket and leaves the spine one shorter. */
  lemma {:induction false} SpinePop(t: Form, open: seq<nat>)
    requires Spine(t, open) && |open| > 1
    ensures Spine(t, open[..|open| - 1])
    ensures Unclosed(t, open[..|open| - 1]) == Unclosed(t, open) + [RightParen]
    decreases |open|
  {
    hide Abs, Flatten, FlattenAll, AbsAll;
    var n := |t.kids| - 1;
    SpinePrefix(t, open);
    if |open| == 2 {
      assert t.kids == t.kids[..n] + [t.kids[n]];
      FlattenKids(t.kids[..n], t.kids[n]);
      UnclosedThenClosers(t.kids[n], open[1..]);
      assert Closers(1) == [RightParen];
    } else {
      SpinePop(t.kids[n], open[1..]);
      assert open[1..][..|open| - 2] == open[..|open| - 1][1..];
    }
  }

  // ---------------------------------------------------------------- the loop invariant

  ghost function At(f: Forest, ids: seq<nat>): (ts: seq<Form>)
    requires forall i :: 0 <= i < |ids| ==> ids[i] in f
    ensures |ts| == |ids|
  {
    seq(|ids|, i requires 0 <= i < |ids| => f[ids[i]])
  }

  ghost predicate TopsLoose(f: Forest, top: seq<nat>) {
    NoDup(top) && forall i {:trigger top[i]} :: 0 <= i < |top| ==> top[i] in f && !Attached(f, top[i])
  }

  /** The forms at top level, the last one cut off at its open end, spell the tokens consumed. */
  ghost predicate Spells(f: Forest, top: seq<nat>, open: seq<nat>, done: seq<Token>) {
    && TopsLoose(f, top)
    && (if open == [] then FlattenAll(AbsAll(At(f, top))) == done
        else
          && top != []
          && var n := |top| - 1;
             Spine(f[top[n]], open) && FlattenAll(AbsAll(At(f, top[..n]))) + Unclosed(f[top[n]], open) == done)
  }

  ghost function TokenOf(kind: NodeType): Token {
    match kind
    case Atom(a) => AtomToken(Atoms.AsStr(a))
    case List => LeftParen
  }

  lemma Closed(f: Forest, top: seq<nat>, open: seq<nat>, done: seq<Token>)
    requires Spells(f, top, open, done) && open != []
    ensures Spells(f, top, open[..|open| - 1], done + [RightParen])
  {
    hide Abs, Flatten, FlattenAll, AbsAll;
    var n := |top| - 1;
    var t := f[top[n]];
    if |open| == 1 {
      assert At(f, top) == At(f, top[..n]) + [t];
      FlattenKids(At(f, top[..n]), t);
      UnclosedThenClosers(t, open);
      assert Closers(1) == [RightParen];
    } else {
      SpinePop(t, open);
    }
  }

  /** A new node at top level. */
  lemma PlacedOnTop(f: Forest, top: seq<nat>, done: seq<Token>, x: nat, kind: NodeType)
    requires WellFormed(f) && Spells(f, top, [], done) && x !in f
    ensures Spells(Grown(f, x, kind), top + [x], if kind.List? then [x] else [], done + [TokenOf(kind)])
  {
    hide Flatten, FlattenAll, AbsAll, Abs, WellFormed, Attached, NoDup;
    var g := Grown(f, x, kind);
    var leaf := Form(x, kind, []);
    GrownWellFormed(f, x, kind);
    GrownTops(f, top, x, kind);
    assert (top + [x])[..|top|] == top;
    assert At(g, top) == At(f, top);
    assert At(g, top + [x]) == At(f, top) + [leaf];
    FlattenKids(At(f, top), leaf);
    LeafTokens(x, kind);
  }

  lemma LeafTokens(x: nat, kind: NodeType)
    ensures var leaf := Form(x, kind, []);
            if kind.List? then Spine(leaf, [x]) && Unclosed(leaf, [x]) == [LeftParen]
            else Flatten(Abs(leaf)) == [TokenOf(kind)]
  {
    assert FlattenAll(AbsAll([])) == [];
  }

  lemma GrownTops(f: Forest, top: seq<nat>, x: nat, kind: NodeType)
    requires WellFormed(f) && TopsLoose(f, top) && x !in f && !Attached(Grown(f, x, kind), x)
    ensures TopsLoose(Grown(f, x, kind), top + [x])
  {
    forall i {:trigger top[i]} | 0 <= i < |top|
      ensures !Attached(Grown(f, x, kind), top[i])
    {
      GrownAttached(f, x, kind, top[i]);
    }
    NoDupConcat(top, [x]);
  }

  /** Where the innermost open list is: inside the last form and no other. */
  lemma OpenEnd(f: Forest, top: seq<nat>, open: seq<nat>, done: seq<Token>, i: nat)
    requires WellFormed(f) && Spells(f, top, open, done) && open != [] && i < |top|
    ensures var d := open[|open| - 1];
            d in f && (d in Pre(f[top[i]]) <==> i == |top| - 1)
  {
    var n, d := |top| - 1, open[|open| - 1];
    SpineInside(f[top[n]], open);
    assert top[n] in f && top[i] in f && !Attached(f, top[n]) && !Attached(f, top[i]);
    PartKnown(f, top[n], d);
    if i != n && d in Pre(f[top[i]]) {
      SharedMeansNested(f, top[n], top[i], d);
      if top[n] in Pre(f[top[i]]) {
        var p, j := PartHasParent(f, top[i], top[n]);
      } else {
        var p, j := PartHasParent(f, top[n], top[i]);
      }
      assert false;
    }
  }

  /** A new node under the innermost open list. */
  lemma PlacedInList(f: Forest, top: seq<nat>, open: seq<nat>, done: seq<Token>, x: nat, kind: NodeType)
    requires WellFormed(f) && Spells(f, top, open, done) && open != [] && x !in f
    ensures open[|open| - 1] in f && !Attached(Grown(f, x, kind), x)
    ensures Spells(Inserted(Grown(f, x, kind), open[|open| - 1], Last, x), top,
                   if kind.List? then open + [x] else open, done + [TokenOf(kind)])
  {
    hide Flatten, FlattenAll, AbsAll, Insert, WellFormed, Attached, NoDup;
    var d, n := open[|open| - 1], |top| - 1;
    var g, leaf := Grown(f, x, kind), Form(x, kind, []);
    OpenEnd(f, top, open, done, n);
    GrownWellFormed(f, x, kind);
    PlacedTops(f, top, open, done, x, kind);
    var h := Inserted(g, d, Last, x);
    assert At(h, top[..n]) == At(f, top[..n]);
    PreNoDup(f, top[n]);
    SpineInsert(f[top[n]], open, leaf);
    if kind.List? {
      SpineExtend(f[top[n]], open, leaf);
    }
  }

  lemma PlacedTops(f: Forest, top: seq<nat>, open: seq<nat>, done: seq<Token>, x: nat, kind: NodeType)
    requires WellFormed(f) && Spells(f, top, open, done) && open != [] && x !in f
    ensures var g, d, n := Grown(f, x, kind), open[|open| - 1], |top| - 1;
            var h := Inserted(g, d, Last, x);
            && TopsLoose(h, top)
            && (forall i {:trigger top[i]} :: 0 <= i < n ==> h[top[i]] == f[top[i]])
            && h[top[n]] == Insert(f[top[n]], d, Last, Form(x, kind, []))
  {
    hide Flatten, FlattenAll, AbsAll, Insert, WellFormed, Attached, NoDup, Spine, Unclosed;
    var d, n := open[|open| - 1], |top| - 1;
    OpenEnd(f, top, open, done, n);
    assert top[n] in f;
    forall i {:trigger top[i]} | 0 <= i < |top|
      ensures top[i] in f && !Attached(Inserted(Grown(f, x, kind), d, Last, x), top[i])
      ensures i < n ==> Inserted(Grown(f, x, kind), d, Last, x)[top[i]] == f[top[i]]
    {
      OpenEnd(f, top, open, done, i);
      PlacedTop(f, top[i], d, x, kind);
    }
  }

  lemma PlacedTop(f: Forest, y: nat, d: nat, x: nat, kind: NodeType)
    requires WellFormed(f) && y in f && d in f && x !in f && !Attached(f, y)
    ensures var h := Inserted(Grown(f, x, kind), d, Last, x);
            !Attached(h, y) && (d !in Pre(f[y]) ==> h[y] == f[y])
  {
    var g := Grown(f, x, kind);
    GrownWellFormed(f, x, kind);
    DetachedUnattached(g, x);
    GrownAttached(f, x, kind, y);
    assert Pre(g[x]) == [x] + PreAll([]);
    MovedAttached(g, d, Last, x, y);
    if d !in Pre(f[y]) {
      InsertElsewhere(f[y], d, Last, Form(x, kind, []));
    }
  }

  // ---------------------------------------------------------------- the parser

  lemma StraySnoc(ts: seq<Token>, t: Token)
    ensures Depth(ts + [t]) == Depth(ts) + Rise(t)
    ensures Stray(ts + [t]) <==> Stray(ts) || Depth(ts + [t]) < 0
    ensures NodeCount(ts + [t]) == NodeCount(ts) + (if t == RightParen then 0 else 1)
  {
    var us := ts + [t];
    assert us[..|ts|] == ts && us[..|us|] == us;
    assert forall n :: 0 <= n <= |ts| ==> us[..n] == ts[..n];
  }

  lemma StrayExtends(ts: seq<Token>, us: seq<Token>)
    requires Stray(ts)
    ensures Stray(ts + us)
  {
    var n :| 0 <= n <= |ts| && Depth(ts[..n]) < 0;
    assert (ts + us)[..n] == ts[..n];
  }

  /** Links `child` as the last child of `parent`. */
  method LinkChild(nodes: Slab<Node>, parent: nat, child: nat)
    requires nodes.Valid() && Live(nodes.slots, parent) && Live(nodes.slots, child)
    requires nodes.slots[child].value.previousSibling == None && nodes.slots[child].value.nextSibling == None
    requires var last := nodes.slots[parent].value.lastChild;
             last.Some? ==> Live(nodes.slots, last.value) && last.value != child
    requires parent != child
    modifies nodes
    ensures nodes.Valid() && nodes.free == old(nodes.free)
    ensures var s := old(nodes.slots);
            LinksIn(s, nodes.slots, parent, s[parent].value.lastChild, None, child)
  {
    nodes.Put(child, nodes.At(child).(parent := Some(parent)));
    match nodes.At(parent).lastChild {
      case Some(previousLast) =>
        nodes.Put(previousLast, nodes.At(previousLast).(nextSibling := Some(child)));
        nodes.Put(child, nodes.At(child).(previousSibling := Some(previousLast)));
      case None =>
        nodes.Put(parent, nodes.At(parent).(firstChild := Some(child)));
    }
    nodes.Put(parent, nodes.At(parent).(lastChild := Some(child)));
    nodes.Put(parent, nodes.At(parent).(childCount := nodes.At(parent).childCount + 1));
  }

  /** What a slab under construction holds. */
  ghost predicate Built(nodes: Slab<Node>, f: Forest)
    reads nodes
  {
    nodes.Valid() && nodes.free == [] && Represents(nodes.slots, f)
  }

  /** The common part of the two branches that make a node. */
  method AddNode(
      nodes: Slab<Node>, top: seq<nat>, open: seq<nat>, kind: NodeType, ghost f: Forest, ghost done: seq<Token>)
    returns (node: nat, top': seq<nat>, ghost g: Forest)
    requires Built(nodes, f) && Spells(f, top, open, done)
    modifies nodes
    ensures Built(nodes, g) && |nodes.slots| == |old(nodes.slots)| + 1
    ensures Spells(g, top', if kind.List? then open + [node] else open, done + [TokenOf(kind)])
  {
    hide Represents, FreeExact, Spells, IsForest, LinksIn, WellFormed;
    RepresentsParts(nodes.slots, f);
    ghost var before := nodes.slots;
    node := nodes.Insert(NewNode(kind));
    GrowForest(before, nodes.slots, f, node, kind);
    g := Grown(f, node, kind);
    if |open| > 0 {
      var parent := open[|open| - 1];
      PlacedInList(f, top, open, done, node, kind);
      ReadyToLink(nodes.slots, f, node, kind, parent);
      ghost var s := nodes.slots;
      LinkChild(nodes, parent, node);
      LinkOutcome(s, nodes.slots, g, parent, Last, node);
      top' := top;
      g := Inserted(g, parent, Last, node);
    } else {
      PlacedOnTop(f, top, done, node, kind);
      assert open == [] && open + [node] == [node];
      top' := top + [node];
    }
  }

  lemma ReadyToLink(s: Slots, f: Forest, x: nat, kind: NodeType, parent: nat)
    requires Represents(s, Grown(f, x, kind)) && x !in f && parent in f
    requires !Attached(Grown(f, x, kind), x)
    ensures Live(s, x) && Live(s, parent) && parent != x && parent !in Pre(Grown(f, x, kind)[x])
    ensures s[x].value.parent == None && s[x].value.previousSibling == None && s[x].value.nextSibling == None
    ensures var last := s[parent].value.lastChild;
            last.Some? ==> Live(s, last.value) && last.value != x
  {
    var g := Grown(f, x, kind);
    var k := KidMap(g);
    RepresentsParts(s, g);
    ParentListed(s, g, x);
    assert Pre(g[x]) == [x] + PreAll([]);
    assert UpAgrees(s, k, x);
    assert EndsAgree(s, parent, k[parent]);
    if k[parent] != [] {
      var last := k[parent][|k[parent]| - 1];
      assert PlaceAgrees(s, parent, k[parent], |k[parent]| - 1);
      LooseIsUnlisted(s, k, parent, x);
      assert last in k[parent];
    }
  }

  /** Parses one S-expression.  The verdict is decided by the tokens alone, and an accepted input
      comes back as the tree that spells them, with one node for each list and atom. */
  method Parse(input: Str) returns (r: Result<Tree, ParseError>)
    ensures forall e :: r == Err(e) <==> Rejects(Tokens(input), e)
    ensures r.Ok? <==> exists e :: Accepts(Tokens(input), e)
    ensures r.Ok? ==> r.value.Valid() && fresh(r.value) && fresh(r.value.nodes)
    ensures r.Ok? && Tokens(input) == [] ==>
              r.value.View() == Arena(map[0 := Form(0, List, [])], 1, [], 0, 0, true, None)
    ensures r.Ok? && Tokens(input) != [] ==>
              var t := r.value;
              && Flatten(Abs(t.forms[t.root])) == Tokens(input)
              && t.View() == Arena(t.forms, NodeCount(Tokens(input)), [], t.root, 0, false, None)
  {
    hide Represents, FreeExact, Spells, Flatten, FlattenAll, Depth, NodeCount, Rejects, Accepts, Tokens;
    hide AllSpace, Spelling, Ends, GoodToken, Stop;
    var nodes := new Slab<Node>();
    var openLists: seq<nat>, topLevel: seq<nat> := [], [];
    ghost var f: Forest, done: seq<Token> := map[], [];
    EmptyForest();
    NothingSpelt();
    var tokenizer := new Tokenizer(input);
    var token, gap := tokenizer.Next();
    while token.Some?
      invariant fresh(nodes) && fresh(tokenizer) && Built(nodes, f) && Spells(f, topLevel, openLists, done)
      invariant token.Some? ==> Tokens(input) == done + [token.value] + Tokens(tokenizer.remaining)
      invariant token.Some? && token.value.AtomToken? ==> ValidUtf8(token.value.text)
      invariant token.None? ==> Tokens(input) == done
      invariant Depth(done) == |openLists| && !Stray(done) && NodeCount(done) == |nodes.slots|
      decreases token.Some?, |tokenizer.remaining|
    {
      ghost var rest := Tokens(tokenizer.remaining);
      StraySnoc(done, token.value);
      match token.value {
        case LeftParen =>
          var node;
          node, topLevel, f := AddNode(nodes, topLevel, openLists, NodeType.List, f, done);
          openLists := openLists + [node];
        case RightParen =>
          if |openLists| == 0 {
            StrayExtends(done + [RightParen], rest);
            StrayVerdict(Tokens(input));
            return Err(StrayClosingParenthesis);
          }
          Closed(f, topLevel, openLists, done);
          openLists := openLists[..|openLists| - 1];
        case AtomToken(text) =>
          var node;
          node, topLevel, f := AddNode(nodes, topLevel, openLists, NodeType.Atom(Atoms.New(text)), f, done);
      }
      done := done + [token.value];
      token, gap := tokenizer.Next();
    }
    if |openLists| > 0 {
      UnclosedVerdict(done);
      return Err(UnclosedParenthesis);
    }
    ghost var es := Finished(f, topLevel, done);
    if |topLevel| == 0 {
      var bare := new Tree.New(true);
      return Ok(bare);
    }
    if |topLevel| == 1 {
      var tree := new Tree.FromRaw(nodes, topLevel[0], f);
      return Ok(tree);
    }
    return Err(MultipleTopLevelForms);
  }

  /** Raw bytes are refused exactly when they are not UTF-8, and parsed otherwise. */
  method ParseBytes(input: seq<Byte>) returns (r: Result<Tree, ParseError>)
    ensures r == Err(InvalidUtf8) <==> !ValidUtf8(input)
    ensures ValidUtf8(input) ==> forall e :: r == Err(e) <==> Rejects(Tokens(input), e)
    ensures r.Ok? <==> ValidUtf8(input) && exists e :: Accepts(Tokens(input), e)
    ensures r.Ok? ==> r.value.Valid() && fresh(r.value) && fresh(r.value.nodes)
    ensures r.Ok? && Tokens(input) == [] ==>
              r.value.View() == Arena(map[0 := Form(0, List, [])], 1, [], 0, 0, true, None)
    ensures r.Ok? && Tokens(input) != [] ==>
              var t := r.value;
              && Flatten(Abs(t.forms[t.root])) == Tokens(input)
              && t.View() == Arena(t.forms, NodeCount(Tokens(input)), [], t.root, 0, false, None)
  {
    if !ValidUtf8(input) {
      return Err(InvalidUtf8);
    }
    r := Parse(input);
    assert !Rejects(Tokens(input), InvalidUtf8);
  }

  lemma NothingSpelt()
    ensures Spells(map[], [], [], []) && Depth([]) == 0 && !Stray([]) && NodeCount([]) == 0
  {
    assert FlattenAll(AbsAll([])) == [];
    var none: seq<Token> := [];
    assert forall n :: 0 <= n <= |none| ==> none[..n] == none;
  }

  lemma StrayVerdict(ts: seq<Token>)
    requires Stray(ts)
    ensures forall e :: Rejects(ts, e) <==> e == StrayClosingParenthesis
    ensures forall e :: !Accepts(ts, e)
  {
    VerdictsSplit(ts);
  }

  lemma UnclosedVerdict(ts: seq<Token>)
    requires !Stray(ts) && Depth(ts) > 0
    ensures forall e :: Rejects(ts, e) <==> e == UnclosedParenthesis
    ensures forall e :: !Accepts(ts, e)
  {
    VerdictsSplit(ts);
  }

  /** A stray or unclosed bracket is never accepted and never taken for several forms. */
  lemma VerdictsSplit(ts: seq<Token>)
    requires Stray(ts) || Depth(ts) > 0
    ensures !Rejects(ts, MultipleTopLevelForms)
    ensures forall e :: !Accepts(ts, e)
  {
    hide FlattenAll, Flatten, Depth;
    forall es | ts == FlattenAll(es)
      ensures false
    {
      VerdictsExclude(ts, es);
    }
    forall e | Accepts(ts, e)
      ensures false
    {
      NothingFlat();
      match e
      case None => VerdictsExclude(ts, []);
      case Some(x) => FlattenOne(x); VerdictsExclude(ts, [x]);
    }
  }

  lemma Finished(f: Forest, top: seq<nat>, done: seq<Token>) returns (es: seq<SExpr>)
    requires Spells(f, top, [], done)
    ensures |es| == |top| && done == FlattenAll(es)
    ensures forall i {:trigger top[i]} :: 0 <= i < |top| ==>
              top[i] in f && !Attached(f, top[i]) && es[i] == Abs(f[top[i]])
    ensures forall e :: Rejects(done, e) <==> e == MultipleTopLevelForms && |top| > 1
    ensures (exists e :: Accepts(done, e)) <==> |top| <= 1
    ensures |top| == 0 <==> done == []
    ensures |top| == 1 ==> done == Flatten(es[0])
  {
    hide Depth;
    es := AbsAll(At(f, top));
    VerdictsExclude(done, es);
    NothingFlat();
    if |top| == 0 {
      assert Accepts(done, None);
    } else if |top| == 1 {
      FlattenOne(es[0]);
      assert es == [es[0]];
      assert Accepts(done, Some(es[0]));
    }
    if done == [] {
      SequenceUnique(es, []);
    }
  }
}
