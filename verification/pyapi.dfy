/** src/py/sexp.rs and src/py/iter.rs: handles and guarded iterators over a shared tree. Each method
    is tied to the call of the same name in the abstract machine. */
module PyApi {
  import opened Wrappers
  import opened Utf8
  import opened Forms
  import opened Edits
  import opened Links
  import opened Surgery
  import opened Arenas
  import opened Rows
  import opened Trees
  import opened Iteration
  import opened Traversal
  import opened Cloning
  import opened Serializer
  import opened Handles
  import Atoms
  import Equality
  import Mutation
  import Slabs

  class SExp {
    const tree: Tree
    const node: nat
    var version: nat

    constructor FromTree(tree: Tree)
      ensures this.tree == tree && node == tree.root && version == tree.version
    {
      this.tree, node, version := tree, tree.root, tree.version;
    }

    constructor FromShared(tree: Tree, node: nat, version: nat)
      ensures this.tree == tree && this.node == node && this.version == version
    {
      this.tree, this.node, this.version := tree, node, version;
    }

    predicate Stale()
      reads this, tree, tree.nodes
      ensures Stale() <==> IsStale(tree.View(), node, version)
      ensures Stale() <==> node != tree.root && version != tree.version
    {
      node != tree.root && version != tree.version
    }

    /** What every reachable state of the machine gives: a valid tree, and a handle that is stale or
        names a live node. */
    ghost predicate Usable()
      reads this, tree, tree.nodes
    {
      tree.Valid() && (Stale() || node in tree.forms)
    }

    /** The end of a successful mutating call: renew the snapshot if the node is still there. */
    method Renew()
      modifies this
      ensures version == if Live(tree.nodes.slots, node) then tree.version else old(version)
      ensures tree.Forested() ==> version == Renewed(tree.View(), node, old(version)).version
    {
      if tree.ContainsNode(node) {
        version := tree.version;
      }
    }

    method Repr() returns (r: Result<seq<Byte>, Outcome>)
      requires Usable() && Coherent(tree.View())
      modifies this, tree
      ensures Usable() && Coherent(tree.View())
      ensures ReprCall(old(tree.View()), node, old(version))
           == Effect(tree.View(), version, if r.Ok? then Done else r.error)
      ensures r.Ok? <==> !old(Stale())
      ensures (r.Ok? <==> !old(Stale())) && (r.Err? ==> r.error == StaleError)
      ensures r.Ok? ==>
                var bare := tree.bare && node == tree.root && old(tree.forms)[node].kids == [];
                && r.value == (if bare then [] else Printed(Abs(old(tree.forms)[node])))
                && r.value == (if bare then [] else Text(Abs(old(tree.forms)[node])))
                && tree.View() == old(tree.View()).(cache := tree.reprCache)
                && (!bare ==>
                      && tree.reprCache.Some? && tree.reprCache.value.node == node
                      && tree.reprCache.value.version == tree.version && tree.reprCache.value.text == r.value)
    {
      hide Represents, Slabs.FreeExact, Text, Abs, Printed;
      TreeInOrder(tree);
      if node in tree.forms {
        ReprMeans(tree.View(), node, version);
        TextIsPrinted(Abs(tree.forms[node]));
      }
      if Stale() {
        return Err(StaleError);
      }
      FirstCursor(tree.nodes.slots, tree.forms, node);
      if tree.bare && node == tree.root && tree.Get(node).firstChild.None? {
        return Ok([]);
      }
      var cached := tree.CachedRepr(node);
      if cached.Some? {
        return Ok(cached.value);
      }
      var text := SerializeNode(tree, node);
      tree.SetReprCache(node, text);
      Renew();
      return Ok(text);
    }

    method Len() returns (r: Result<nat, Outcome>)
      requires Usable()
      ensures r == if Stale() then Err(StaleError) else Ok(|tree.forms[node].kids|)
    {
      if Stale() {
        return Err(StaleError);
      }
      Equality.NodeRead(tree.nodes.slots, tree.forms, node);
      return Ok(tree.Get(node).childCount);
    }

    method Equals(other: SExp) returns (r: Result<bool, Outcome>)
      requires Usable() && other.Usable()
      ensures r == if Stale() || other.Stale() then Err(StaleError)
                   else Ok(Abs(tree.forms[node]) == Abs(other.tree.forms[other.node]))
    {
      if Stale() || other.Stale() {
        return Err(StaleError);
      }
      var equal := Equality.SubtreesEqual(tree, node, other.tree, other.node);
      return Ok(equal);
    }

    /** `self[index]`, counting from the end when negative.  The walk always finds the child. */
    method GetIndex(index: int) returns (r: Result<SExp, Outcome>)
      requires Usable()
      ensures Stale() ==> r == Err(StaleError)
      ensures !Stale() ==>
                var kids := tree.forms[node].kids;
                var position := if index < 0 then |kids| + index else index;
                if 0 <= position < |kids| then
                  r.Ok? && fresh(r.value) && r.value.tree == tree && r.value.node == kids[position].id &&
                  r.value.version == tree.version && !r.value.Stale() && r.value.Usable()
                else r == Err(IndexError)
    {
      if Stale() {
        return Err(StaleError);
      }
      Equality.NodeRead(tree.nodes.slots, tree.forms, node);
      var length: int := tree.Get(node).childCount;
      var position := if index < 0 then length + index else index;
      if position < 0 || position >= length {
        return Err(IndexError);
      }
      var id := NthChild(position);
      var child := new SExp.FromShared(tree, id, tree.version);
      return Ok(child);
    }

    method NthChild(n: nat) returns (id: nat)
      requires tree.Forested() && node in tree.forms && n < |tree.forms[node].kids|
      ensures id == tree.forms[node].kids[n].id && id in tree.forms
    {
      hide Represents, KidMap, Slabs.FreeExact;
      RowIds(tree.forms, node);
      ghost var row := KidMap(tree.forms)[node];
      var children := new ChildIter(tree, node);
      var found := children.Next(0);
      var i := 0;
      while i < n
        invariant 0 <= i <= n < |row|
        invariant children.tree == tree && children.parent == node && children.At(i + 1) && found == Some(row[i])
      {
        found := children.Next(i + 1);
        i := i + 1;
      }
      NextCursor(tree.nodes.slots, tree.forms, node, n);
      return found.value;
    }

    /** Does a child answer to `key`: a list headed by that atom, or that atom itself? */
    ghost predicate Answers(t: Form, key: Str) {
      if t.kids != [] then t.kids[0].kind.Atom? && Atoms.AsStr(t.kids[0].kind.atom) == key
      else t.kind.Atom? && Atoms.AsStr(t.kind.atom) == key
    }

    /** It is the S-expression at the head of the child that decides, or the child itself when it is childless. */
    lemma AnswersMean(t: Form, key: Str)
      ensures Answers(t, key) <==> Abs(if t.kids == [] then t else t.kids[0]) == AtomExpr(key)
    {
    }

    /** `self[key]`: the first child that answers to it. */
    method GetKey(key: Str) returns (r: Result<SExp, Outcome>)
      requires Usable()
      ensures Stale() ==> r == Err(StaleError)
      ensures !Stale() ==>
                var kids := tree.forms[node].kids;
                if r.Ok? then
                  exists i ::
                    && 0 <= i < |kids| && r.value.node == kids[i].id
                    && Abs(if kids[i].kids == [] then kids[i] else kids[i].kids[0]) == AtomExpr(key)
                    && forall j :: 0 <= j < i ==>
                         Abs(if kids[j].kids == [] then kids[j] else kids[j].kids[0]) != AtomExpr(key)
                else
                  && r.error == KeyError
                  && forall j :: 0 <= j < |kids| ==>
                       Abs(if kids[j].kids == [] then kids[j] else kids[j].kids[0]) != AtomExpr(key)
      ensures r.Ok? ==> fresh(r.value) && r.value.tree == tree && r.value.version == tree.version && r.value.Usable()
    {
      hide Answers, Abs;
      if Stale() {
        return Err(StaleError);
      }
      var found := FindChild(key);
      ghost var kids := tree.forms[node].kids;
      forall j | 0 <= j < |kids|
        ensures Answers(kids[j], key) <==> Abs(if kids[j].kids == [] then kids[j] else kids[j].kids[0]) == AtomExpr(key)
      {
        AnswersMean(kids[j], key);
      }
      if found.None? {
        return Err(KeyError);
      }
      var child := new SExp.FromShared(tree, found.value, tree.version);
      return Ok(child);
    }

    ghost predicate FirstAnswer(kids: seq<Form>, key: Str, i: int) {
      0 <= i < |kids| && Answers(kids[i], key) && forall j :: 0 <= j < i ==> !Answers(kids[j], key)
    }

    method FindChild(key: Str) returns (r: Option<nat>)
      requires tree.Forested() && node in tree.forms
      ensures var kids := tree.forms[node].kids;
              if r.Some? then
                r.value in tree.forms && exists i :: FirstAnswer(kids, key, i) && r.value == kids[i].id
              else forall j :: 0 <= j < |kids| ==> !Answers(kids[j], key)
    {
      hide Represents, KidMap, Slabs.FreeExact, Answers;
      ghost var f := tree.forms;
      RowIds(f, node);
      ghost var row := KidMap(f)[node];
      var children := new ChildIter(tree, node);
      var child := children.Next(0);
      ghost var i := 0;
      while child.Some?
        invariant 0 <= i <= |row|
        invariant children.tree == tree && children.parent == node && child == From(row, i)
        invariant children.At(if i < |row| then i + 1 else i)
        invariant forall j :: 0 <= j < i ==> !Answers(f[node].kids[j], key)
        decreases |row| - i
      {
        NextCursor(tree.nodes.slots, f, node, i);
        var answers := Matches(child.value, key);
        if answers {
          assert FirstAnswer(f[node].kids, key, i);
          return child;
        }
        i := i + 1;
        child := children.Next(i);
      }
      return None;
    }

    method Matches(id: nat, key: Str) returns (b: bool)
      requires tree.Forested() && id in tree.forms
      ensures b <==> Answers(tree.forms[id], key)
    {
      ghost var f, s := tree.forms, tree.nodes.slots;
      FirstCursor(s, f, id);
      Equality.NodeRead(s, f, id);
      match tree.Get(id).firstChild
      case Some(first) =>
        NextCursor(s, f, id, 0);
        Equality.NodeRead(s, f, first);
        match tree.Get(first).kind {
          case Atom(a) => return Atoms.AsStr(a) == key;
          case List => return false;
        }
      case None =>
        match tree.Get(id).kind {
          case Atom(a) => return Atoms.AsStr(a) == key;
          case List => return false;
        }
    }

    /** The parent, absent exactly for a node that hangs nowhere. */
    method GetParent() returns (r: Result<Option<SExp>, Outcome>)
      requires Usable()
      ensures Stale() ==> r == Err(StaleError)
      ensures !Stale() ==> r.Ok? && (r.value.Some? <==> Attached(tree.forms, node))
      ensures r.Ok? && r.value.Some? ==>
                var p := r.value.value;
                fresh(p) && p.tree == tree && p.version == tree.version && p.Usable() &&
                p.node in tree.forms && node in KidMap(tree.forms)[p.node]
    {
      if Stale() {
        return Err(StaleError);
      }
      ParentListed(tree.nodes.slots, tree.forms, node);
      var up := tree.Get(node).parent;
      if up.None? {
        return Ok(None);
      }
      var p := new SExp.FromShared(tree, up.value, tree.version);
      return Ok(Some(p));
    }

    method SetValue(value: Str) returns (o: Outcome)
      requires Usable()
      modifies this, tree, tree.nodes
      ensures Usable()
      ensures SetValueCall(old(tree.View()), node, old(version), value) == Effect(tree.View(), version, o)
      ensures o == StaleError <==> old(Stale())
      ensures o == Done <==> !old(Stale()) && old(tree.forms)[node].kind.Atom?
      ensures o == TypeError <==> !old(Stale()) && old(tree.forms)[node].kind.List?
      ensures o != Done ==> tree.View() == old(tree.View()) && version == old(version)
      ensures o == Done ==>
                var f, g := old(tree.forms), tree.forms;
                && version == tree.version && tree.View() == old(tree.View()).(forms := g, cache := None)
                && g.Keys == f.Keys && KidMap(g) == KidMap(f)
                && g[node].kind.Atom? && Atoms.AsStr(g[node].kind.atom) == value
                && forall q :: q in f && q != node ==> g[q].kind == f[q].kind
    {
      hide KidMap, Rekinded;
      TreeInOrder(tree);
      SetValueMeans(tree.View(), node, version, value);
      if Stale() {
        return StaleError;
      }
      ghost var s, f := tree.nodes.slots, tree.forms;
      KindRead(s, f, node);
      if tree.Get(node).kind.List? {
        return TypeError;
      }
      var kind := NodeType.Atom(Atoms.New(value));
      tree.nodes.Put(node, tree.Get(node).(kind := kind));
      RekindForest(s, tree.nodes.slots, f, node, kind);
      RekindedAttached(f, node, kind, tree.root);
      tree.forms := Rekinded(f, node, kind);
      tree.ClearReprCache();
      Renew();
      return Done;
    }

    method NewNode(kind: NodeType) returns (r: Result<SExp, Outcome>)
      requires Usable()
      modifies this, tree, tree.nodes
      ensures Usable()
      ensures r.Ok? <==> !old(Stale())
      ensures r.Err? ==> r.error == StaleError && tree.View() == old(tree.View()) && version == old(version)
      ensures r.Ok? ==>
                && r.value.node !in old(tree.forms) && version == tree.version == old(tree.version)
                && tree.forms == old(tree.forms)[r.value.node := Form(r.value.node, kind, [])]
                && tree.reprCache == old(tree.reprCache)
      ensures NewNodeCall(old(tree.View()), node, old(version), kind)
           == Effect(tree.View(), version, if r.Ok? then Done else r.error)
      ensures r.Ok? ==> fresh(r.value) && r.value.tree == tree && r.value.version == tree.version &&
                        r.value.node == NextId(old(tree.View())) && r.value.Usable()
    {
      TreeInOrder(tree);
      NewNodeMeans(tree.View(), node, version, kind);
      if Stale() {
        return Err(StaleError);
      }
      var id := tree.Alloc(kind);
      Renew();
      var made := new SExp.FromShared(tree, id, tree.version);
      return Ok(made);
    }

    method Append(child: SExp) returns (o: Outcome)
      requires Usable()
      modifies this, tree, tree.nodes
      ensures Usable() <==>
                child.tree != tree || old(Stale()) || old(MoveFine(Strict, tree.View(), node, Last, child.node))
      ensures child.tree != tree ==> o == ValueError && tree.View() == old(tree.View()) && version == old(version)
      ensures child.tree == tree ==>
                MoveCall(old(tree.View()), node, old(version), Last, child.node) == Effect(tree.View(), version, o)
      ensures (o == ValueError <==> child.tree != tree) && (o == StaleError <==> child.tree == tree && old(Stale()))
      ensures var f, c := old(tree.forms), child.node;
              var loops := c in f && if Attached(f, c) then node in Pre(f[c]) else node == c;
              && (o == Done <==> child.tree == tree && !old(Stale()) && c in f && !loops)
              && (o == Panic <==> child.tree == tree && !old(Stale()) && (c !in f || loops))
              && (o != Done ==> Usable() && tree.View() == old(tree.View()) && version == old(version))
              && (o == Done ==>
                    && version == tree.version == old(tree.version) + 1
                    && tree.View() == old(tree.View()).(forms := tree.forms, version := tree.version)
                    && (tree.Forested() <==> node !in Pre(f[c]))
                    && (Usable() <==> node !in Pre(f[c]) && c != tree.root)
                    && (node !in Pre(f[c]) ==>
                          && Rearranged(f, tree.forms, node, c)
                          && KidMap(tree.forms)[node] == Without(KidMap(f)[node], c) + [c]))
    {
      hide Represents, Slabs.FreeExact, Moved, Attached, CycleSeen, Pre, Without, KidMap, Rearranged, BehindIn;
      TreeInOrder(tree);
      MoveMeans(tree.View(), node, version, Last, child.node);
      if child.tree != tree {
        return ValueError;
      }
      if Stale() {
        return StaleError;
      }
      if !tree.ContainsNode(child.node) {
        return Panic;
      }
      assert tree.ContainsNode(node);
      RootAfterMove(tree.nodes.slots, tree.View(), node, Last, child.node);
      var ok := Mutation.Append(tree, node, child.node);
      if !ok {
        return Panic;
      }
      Renew();
      return Done;
    }

    method Prepend(child: SExp) returns (o: Outcome)
      requires Usable()
      modifies this, tree, tree.nodes
      ensures Usable() <==>
                child.tree != tree || old(Stale()) || old(MoveFine(Strict, tree.View(), node, First, child.node))
      ensures child.tree != tree ==> o == ValueError && tree.View() == old(tree.View()) && version == old(version)
      ensures child.tree == tree ==>
                MoveCall(old(tree.View()), node, old(version), First, child.node) == Effect(tree.View(), version, o)
      ensures (o == ValueError <==> child.tree != tree) && (o == StaleError <==> child.tree == tree && old(Stale()))
      ensures var f, c := old(tree.forms), child.node;
              var loops := c in f && if Attached(f, c) then node in Pre(f[c]) else node == c;
              && (o == Done <==> child.tree == tree && !old(Stale()) && c in f && !loops)
              && (o == Panic <==> child.tree == tree && !old(Stale()) && (c !in f || loops))
              && (o != Done ==> Usable() && tree.View() == old(tree.View()) && version == old(version))
              && (o == Done ==>
                    && version == tree.version == old(tree.version) + 1
                    && tree.View() == old(tree.View()).(forms := tree.forms, version := tree.version)
                    && (tree.Forested() <==> node !in Pre(f[c]))
                    && (Usable() <==> node !in Pre(f[c]) && c != tree.root)
                    && (node !in Pre(f[c]) ==>
                          && Rearranged(f, tree.forms, node, c)
                          && KidMap(tree.forms)[node] == [c] + Without(KidMap(f)[node], c)))
    {
      hide Represents, Slabs.FreeExact, Moved, Attached, CycleSeen, Pre, Without, KidMap, Rearranged, BehindIn;
      TreeInOrder(tree);
      MoveMeans(tree.View(), node, version, First, child.node);
      if child.tree != tree {
        return ValueError;
      }
      if Stale() {
        return StaleError;
      }
      if !tree.ContainsNode(child.node) {
        return Panic;
      }
      assert tree.ContainsNode(node);
      RootAfterMove(tree.nodes.slots, tree.View(), node, First, child.node);
      var ok := Mutation.Prepend(tree, node, child.node);
      if !ok {
        return Panic;
      }
      Renew();
      return Done;
    }

    /** `after` is checked for staleness, `child` is not. */
    method InsertAfter(after: Option<SExp>, child: SExp) returns (o: Outcome)
      requires Usable() && (after.Some? ==> after.value.Usable())
      modifies this, tree, tree.nodes
      ensures var foreign := child.tree != tree || (after.Some? && after.value.tree != tree);
              var unusable := foreign || old(Stale()) || (after.Some? && old(after.value.Stale()));
              && (Usable() <==> unusable || old(MoveFine(Strict, tree.View(), node, Behind(after), child.node)))
              && (unusable ==> tree.View() == old(tree.View()) && version == old(version))
              && (unusable ==> o == if foreign then ValueError else StaleError)
              && (!unusable ==>
                    MoveCall(old(tree.View()), node, old(version), Behind(after), child.node)
                    == Effect(tree.View(), version, o))
      ensures var f, c := old(tree.forms), child.node;
              var foreign := child.tree != tree || (after.Some? && after.value.tree != tree);
              var stale := old(Stale()) || (after.Some? && old(after.value.Stale()));
              var loops := c in f && if Attached(f, c) then node in Pre(f[c]) else node == c;
              && (o == ValueError <==> foreign) && (o == StaleError <==> !foreign && stale)
              && (o == Done <==> !foreign && !stale && c in f && !loops)
              && (o == Panic <==> !foreign && !stale && (c !in f || loops))
              && (o != Done ==> Usable() && tree.View() == old(tree.View()) && version == old(version))
              && (o == Done ==>
                    var kept := node !in Pre(f[c]) &&
                                (after.Some? ==> after.value.node != c && after.value.node in KidMap(f)[node]);
                    && version == tree.version == old(tree.version) + 1
                    && tree.View() == old(tree.View()).(forms := tree.forms, version := tree.version)
                    && (tree.Forested() <==> kept) && (Usable() <==> kept && c != tree.root)
                    && (kept ==>
                          var row := Without(KidMap(f)[node], c);
                          && Rearranged(f, tree.forms, node, c)
                          && match after
                             case None => KidMap(tree.forms)[node] == [c] + row
                             case Some(x) => BehindIn(KidMap(tree.forms)[node], row, x.node, c)))
    {
      hide Represents, Slabs.FreeExact, Moved, Attached, CycleSeen, Pre, Without, KidMap, Rearranged, BehindIn;
      TreeInOrder(tree);
      MoveMeans(tree.View(), node, version, Behind(after), child.node);
      if child.tree != tree || (after.Some? && after.value.tree != tree) {
        return ValueError;
      }
      if Stale() || (after.Some? && after.value.Stale()) {
        return StaleError;
      }
      if !tree.ContainsNode(child.node) {
        return Panic;
      }
      assert tree.ContainsNode(node);
      RootAfterMove(tree.nodes.slots, tree.View(), node, Behind(after), child.node);
      var afterId := if after.Some? then Some(after.value.node) else None;
      var ok := Mutation.InsertAfter(tree, node, afterId, child.node);
      if !ok {
        return Panic;
      }
      Renew();
      return Done;
    }

    method Remove() returns (o: Outcome)
      requires Usable()
      modifies this, tree, tree.nodes
      ensures Usable()
      ensures RemoveCall(old(tree.View()), node, old(version)) == Effect(tree.View(), version, o)
      ensures (o == Done <==> !old(Stale()) && node != tree.root) && (o == StaleError <==> old(Stale()))
      ensures (o == ValueError <==> node == tree.root) && version == old(version)
      ensures o != Done ==> tree.View() == old(tree.View())
      ensures o == Done ==>
                var f, gone := old(tree.forms), Pre(old(tree.forms)[node]);
                && tree.View() == old(tree.View()).(forms := tree.forms, free := old(tree.nodes.free) + gone,
                                                    version := old(tree.version) + 1)
                && tree.forms.Keys == f.Keys - (set x | x in gone)
                && forall q :: q in tree.forms ==>
                     tree.forms[q].kind == f[q].kind && KidMap(tree.forms)[q] == Without(KidMap(f)[q], node)
    {
      hide Represents, Slabs.FreeExact, Removed, Attached, Pre, Without, KidMap;
      TreeInOrder(tree);
      RemoveMeans(tree.View(), node, version);
      if Stale() {
        return StaleError;
      }
      if node == tree.root {
        return ValueError;
      }
      RemoveKeepsRoot(tree.nodes.slots, tree.forms, tree.root, node);
      Mutation.Remove(tree, node);
      tree.BumpVersion();
      Renew();
      return Done;
    }

    /** Clone and remove in one step; the new handle is the root of a tree of its own. */
    method Extract() returns (r: Result<SExp, Outcome>)
      requires Usable()
      modifies this, tree, tree.nodes
      ensures Usable()
      ensures RemoveCall(old(tree.View()), node, old(version))
           == Effect(tree.View(), version, if r.Ok? then Done else r.error)
      ensures (r.Ok? <==> !old(Stale()) && node != tree.root) && (r == Err(StaleError) <==> old(Stale()))
      ensures (r == Err(ValueError) <==> node == tree.root) && version == old(version)
      ensures r.Err? ==> tree.View() == old(tree.View())
      ensures r.Ok? ==>
                var f, gone := old(tree.forms), Pre(old(tree.forms)[node]);
                && tree.View() == old(tree.View()).(forms := tree.forms, free := old(tree.nodes.free) + gone,
                                                    version := old(tree.version) + 1)
                && tree.forms.Keys == f.Keys - (set x | x in gone)
                && forall q :: q in tree.forms ==>
                     tree.forms[q].kind == f[q].kind && KidMap(tree.forms)[q] == Without(KidMap(f)[q], node)
      ensures r.Ok? ==>
                var t := r.value.tree;
                && fresh(r.value) && fresh(t) && fresh(t.nodes) && r.value.Usable() && r.value.node == t.root == 0
                && t.forms[0] == CopyOf(old(tree.forms)[node])
                && Abs(t.forms[0]) == Abs(old(tree.forms)[node])
                && t.View() == Arena(t.forms, Size(t.forms[0]), [], 0, Size(t.forms[0]) - 1, false, None)
                && Inv(Strict, Opened(t.View()))
    {
      hide Represents, Slabs.FreeExact, Removed, Attached, CopyOf, Abs, Pre, Without, KidMap;
      TreeInOrder(tree);
      RemoveMeans(tree.View(), node, version);
      if Stale() {
        return Err(StaleError);
      }
      if node == tree.root {
        return Err(ValueError);
      }
      var extracted := ExtractSubtree(tree, node);
      SessionStarts(extracted, extracted.View());
      tree.BumpVersion();
      Renew();
      var made := new SExp.FromTree(extracted);
      return Ok(made);
    }

    /** A tree of its own, on which a new session can start; of the root, an exact copy. */
    method CloneNode() returns (r: Result<SExp, Outcome>)
      requires Usable()
      ensures r.Ok? <==> !Stale()
      ensures r.Err? ==> r.error == StaleError
      ensures r.Ok? ==>
                var t := r.value.tree;
                && fresh(r.value) && fresh(t) && fresh(t.nodes) && r.value.Usable() && r.value.node == t.root
                && Abs(t.forms[t.root]) == Abs(tree.forms[node])
                && (if node == tree.root then t.View() == tree.View()
                    else t.forms[t.root] == CopyOf(tree.forms[node]) && t.reprCache == None)
                && (Coherent(tree.View()) ==> Coherent(t.View()) && Inv(Strict, Opened(t.View())))
    {
      hide Represents, Slabs.FreeExact, Attached, CopyOf, Abs;
      if Stale() {
        return Err(StaleError);
      }
      var copy := CloneSubtree(tree, node);
      if Coherent(tree.View()) {
        SessionStarts(copy, tree.View());
      }
      var made := new SExp.FromTree(copy);
      return Ok(made);
    }

    /** An iterator over the children from the first (`iter`) or the second (`tail`) on. */
    method Iterate(tail: bool) returns (r: Result<SExpIter, Outcome>)
      requires Usable()
      ensures Stale() ==> r == Err(StaleError)
      ensures !Stale() ==>
                var row := KidMap(tree.forms)[node];
                var i := if tail && row != [] then 1 else 0;
                r.Ok? && fresh(r.value) && r.value.tree == tree &&
                CursorAt(tree.View(), r.value.next, r.value.version, node, row, i) &&
                r.value.version == tree.version
    {
      if Stale() {
        return Err(StaleError);
      }
      ghost var row := KidMap(tree.forms)[node];
      FirstCursor(tree.nodes.slots, tree.forms, node);
      var next := tree.Get(node).firstChild;
      if tail && next.Some? {
        NextCursor(tree.nodes.slots, tree.forms, node, 0);
        next := tree.Get(next.value).nextSibling;
      }
      var iter := new SExpIter(tree, next, tree.version);
      return Ok(iter);
    }
  }

  ghost function Behind(after: Option<SExp>): Place {
    match after
    case None => First
    case Some(h) => After(h.node)
  }

  class SExpIter {
    const tree: Tree
    var next: Option<nat>
    const version: nat

    constructor (tree: Tree, next: Option<nat>, version: nat)
      ensures this.tree == tree && this.next == next && this.version == version
    {
      this.tree, this.next, this.version := tree, next, version;
    }

    /** Exhaustion is noticed first, a moved version second; otherwise the child that is due comes out
        and the iterator stands behind it. */
    method Next(ghost parent: nat, ghost row: seq<nat>, ghost i: nat) returns (r: Result<Option<SExp>, Outcome>)
      requires tree.Valid() && CursorAt(tree.View(), next, version, parent, row, i)
      modifies this
      ensures match NextCall(tree.View(), old(next), version)
              case Exhausted => i == |row| && r == Ok(None) && next == old(next)
              case StaleIterator => i < |row| && version != tree.version && r == Err(StaleError) && next == old(next)
              case Yields(x) => i < |row| && version == tree.version && r.Ok? && x == row[i]
      ensures r.Ok? && i < |row| ==> next == From(row, i + 1)
      ensures r.Ok? && i < |row| ==>
                && r.Ok? && r.value.Some? && fresh(r.value.value)
                && r.value.value.tree == tree && r.value.value.node == row[i] && r.value.value.version == version
                && r.value.value.Usable()
                && CursorAt(tree.View(), next, version, parent, row, i + 1)
    {
      if next.None? {
        return Ok(None);
      }
      var current := next.value;
      if tree.version != version {
        return Err(StaleError);
      }
      NextCursor(tree.nodes.slots, tree.forms, parent, i);
      next := tree.Get(current).nextSibling;
      var h := new SExp.FromShared(tree, current, version);
      return Ok(Some(h));
    }
  }

  /** The concrete tree meets what the machine asks of its arena. */
  lemma TreeInOrder(tree: Tree)
    requires tree.Valid()
    ensures ArenaValid(tree.View())
  {
    RepresentsParts(tree.nodes.slots, tree.forms);
  }

  /** A tree without a cache, as it is parsed, created or copied from below a root, and an exact copy
      of a coherent tree start the machine off in its invariant. */
  lemma SessionStarts(tree: Tree, source: Arena)
    requires tree.Valid() && (tree.reprCache.None? || (tree.View() == source && Coherent(source)))
    ensures Coherent(tree.View()) && Inv(Strict, Opened(tree.View()))
  {
    TreeInOrder(tree);
    OpenedInv(tree.View());
  }

  lemma RekindedAttached(f: Forest, x: nat, kind: NodeType, y: nat)
    ensures Attached(Rekinded(f, x, kind), y) <==> Attached(f, y)
  {
    AttachedMeansListed(f, y);
    AttachedMeansListed(Rekinded(f, x, kind), y);
    RekindedKids(f, x, kind);
    assert KidMap(f).Keys == f.Keys;
  }

  /** What is left of a move that passed the check is a tree in order exactly when the move was allowed. */
  lemma RootAfterMove(s: Slots, a: Arena, node: nat, place: Place, child: nat)
    requires Represents(s, a.forms) && a.root in a.forms && !Attached(a.forms, a.root)
    requires node in a.forms && child in a.forms
    ensures var b := Relinked(a, node, place, child);
            !CycleSeen(a.forms, node, child) ==>
              (a.root in b.forms && !Attached(b.forms, a.root) <==> MoveFine(Strict, a, node, place, child))
    ensures Keeps(a.forms, node, place, child) ==> node in Relinked(a, node, place, child).forms
  {
    RepresentsParts(s, a.forms);
    if Keeps(a.forms, node, place, child) {
      MovedKeys(a.forms, node, place, child);
      if child == a.root {
        MovedHangs(a.forms, node, place, child);
      } else {
        MovedAttached(a.forms, node, place, child, a.root);
      }
    }
  }
}
