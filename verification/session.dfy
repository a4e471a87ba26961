/** A Python session as objects: one shared tree, every handle and iterator made on it so far, and the
    machine's state that they show.  Each call on an object is the machine's step. */
module Sessions {
  import opened Wrappers
  import opened Utf8
  import opened Forms
  import opened Edits
  import opened Links
  import opened Arenas
  import opened Cloning
  import opened Trees
  import opened Handles
  import opened Runs
  import opened PyApi

  ghost predicate Steps(s: State, op: Op, t: State) {
    InRange(s, op) && t == Step(s, op)
  }

  class Session {
    const tree: Tree
    var handles: seq<SExp>
    var cursors: seq<SExpIter>
    ghost var state: State

    /** The objects show the state: the tree its arena, each handle and iterator its own entry. */
    ghost predicate Shows(s: State)
      reads this, tree, tree.nodes, handles, cursors
    {
      && s.arena == tree.View()
      && |handles| == |s.handles| && |cursors| == |s.cursors|
      && (forall i :: 0 <= i < |handles| ==>
            && handles[i].tree == tree
            && handles[i].node == s.handles[i].node && handles[i].version == s.handles[i].version)
      && (forall i :: 0 <= i < |cursors| ==>
            && cursors[i].tree == tree
            && cursors[i].next == s.cursors[i].next && cursors[i].version == s.cursors[i].version)
    }

    ghost predicate Apart()
      reads this
    {
      && (forall i, j :: 0 <= i < j < |handles| ==> handles[i] != handles[j])
      && (forall i, j :: 0 <= i < j < |cursors| ==> cursors[i] != cursors[j])
    }

    ghost predicate Valid()
      reads this, tree, tree.nodes, handles, cursors
    {
      tree.Valid() && Shows(state) && Apart() && Inv(Strict, state)
    }

    /** A tree without a cache, or with a right one, and its root handle. */
    constructor (tree: Tree)
      requires tree.Valid() && Coherent(tree.View())
      ensures this.tree == tree && Valid() && state == Opened(tree.View())
      ensures fresh(handles) && cursors == []
    {
      var root := new SExp.FromTree(tree);
      this.tree, handles, cursors := tree, [root], [];
      new;
      SessionStarts(tree, tree.View());
      state := Opened(tree.View());
    }

    /** Every handle is fit for a call. */
    lemma HandleUsable(h: nat)
      requires Valid() && h < |handles|
      ensures handles[h].Usable() && (handles[h].Stale() <==> StaleAt(state, h))
    {
      hide Inv, Tree.Valid;
      if !StaleAt(state, h) {
        LiveSelf(Strict, state, h);
      }
    }

    method Append(h: nat, c: nat)
      requires Valid() && Careful(Strict, state, Op.Append(h, c))
      modifies `state, tree, tree.nodes, handles[h]
      ensures Valid() && Steps(old(state), Op.Append(h, c), state)
    {
      hide Inv, MoveFine, Tree.Forested, MoveCall, CycleSeen, Keeps, Attached, Pre, KidMap, Rearranged;
      ghost var next := Step(state, Op.Append(h, c));
      HandleUsable(h);
      StepKeepsInv(Strict, state, Op.Append(h, c));
      var _ := handles[h].Append(handles[c]);
      state := next;
    }

    method Prepend(h: nat, c: nat)
      requires Valid() && Careful(Strict, state, Op.Prepend(h, c))
      modifies `state, tree, tree.nodes, handles[h]
      ensures Valid() && Steps(old(state), Op.Prepend(h, c), state)
    {
      hide Inv, MoveFine, Tree.Forested, MoveCall, CycleSeen, Keeps, Attached, Pre, KidMap, Rearranged;
      ghost var next := Step(state, Op.Prepend(h, c));
      HandleUsable(h);
      StepKeepsInv(Strict, state, Op.Prepend(h, c));
      var _ := handles[h].Prepend(handles[c]);
      state := next;
    }

    method InsertAfter(h: nat, after: Option<nat>, c: nat)
      requires Valid() && Careful(Strict, state, Op.InsertAfter(h, after, c))
      modifies `state, tree, tree.nodes, handles[h]
      ensures Valid() && Steps(old(state), Op.InsertAfter(h, after, c), state)
    {
      hide Inv, MoveFine, Tree.Forested, Relinked, CycleSeen, LinksUnderNothing, AfterGone, Attached;
      hide Pre, KidMap, Rearranged, BehindIn;
      ghost var next := Step(state, Op.InsertAfter(h, after, c));
      HandleUsable(h);
      if after.Some? {
        HandleUsable(after.value);
      }
      StepKeepsInv(Strict, state, Op.InsertAfter(h, after, c));
      var sibling := if after.Some? then Some(handles[after.value]) else None;
      var _ := handles[h].InsertAfter(sibling, handles[c]);
      state := next;
    }

    method Remove(h: nat)
      requires Valid() && h < |handles|
      modifies `state, tree, tree.nodes, handles[h]
      ensures Valid() && Steps(old(state), Op.Remove(h), state)
    {
      hide Inv, Tree.Forested, RemoveCall, Pre, KidMap;
      ghost var next := Step(state, Op.Remove(h));
      HandleUsable(h);
      StepKeepsInv(Strict, state, Op.Remove(h));
      var _ := handles[h].Remove();
      state := next;
    }

    method Extract(h: nat)
      requires Valid() && h < |handles|
      modifies `state, tree, tree.nodes, handles[h]
      ensures Valid() && Steps(old(state), Op.Extract(h), state)
    {
      hide Inv, Tree.Forested, RemoveCall, Pre, KidMap, CopyOf, Abs, Opened, Size;
      ghost var next := Step(state, Op.Extract(h));
      HandleUsable(h);
      StepKeepsInv(Strict, state, Op.Extract(h));
      var _ := handles[h].Extract();
      state := next;
    }

    method SetValue(h: nat, value: Str)
      requires Valid() && h < |handles|
      modifies `state, tree, tree.nodes, handles[h]
      ensures Valid() && Steps(old(state), Op.SetValue(h, value), state)
    {
      hide Inv, Tree.Forested, SetValueCall, Pre, KidMap;
      ghost var next := Step(state, Op.SetValue(h, value));
      HandleUsable(h);
      StepKeepsInv(Strict, state, Op.SetValue(h, value));
      var _ := handles[h].SetValue(value);
      state := next;
    }

    method Repr(h: nat)
      requires Valid() && h < |handles|
      modifies `state, tree, tree.nodes, handles[h]
      ensures Valid() && Steps(old(state), Op.Repr(h), state)
    {
      hide Inv, Tree.Forested, ReprCall, Pre, KidMap;
      ghost var next := Step(state, Op.Repr(h));
      HandleUsable(h);
      StepKeepsInv(Strict, state, Op.Repr(h));
      InvParts(Strict, state);
      var _ := handles[h].Repr();
      state := next;
    }

    method NewNode(h: nat, kind: NodeType)
      requires Valid() && h < |handles|
      modifies `state, `handles, tree, tree.nodes, handles[h]
      ensures Valid() && Steps(old(state), Op.NewNode(h, kind), state)
      ensures old(handles) <= handles && forall i :: |old(handles)| <= i < |handles| ==> fresh(handles[i])
    {
      hide Inv, Tree.Forested, Allocated, NextId;
      ghost var next := Step(state, Op.NewNode(h, kind));
      HandleUsable(h);
      StepKeepsInv(Strict, state, Op.NewNode(h, kind));
      var r := handles[h].NewNode(kind);
      if r.Ok? {
        handles := handles + [r.value];
      }
      state := next;
    }

    method Child(h: nat, index: nat)
      requires Valid() && h < |handles|
      modifies `state, `handles
      ensures Valid() && Steps(old(state), Op.Child(h, index), state)
      ensures old(handles) <= handles && forall i :: |old(handles)| <= i < |handles| ==> fresh(handles[i])
    {
      hide Inv, Tree.Forested;
      ghost var next := Step(state, Op.Child(h, index));
      HandleUsable(h);
      StepKeepsInv(Strict, state, Op.Child(h, index));
      var r := handles[h].GetIndex(index);
      if r.Ok? {
        handles := handles + [r.value];
      }
      state := next;
    }

    method Parent(h: nat)
      requires Valid() && h < |handles|
      modifies `state, `handles
      ensures Valid() && Steps(old(state), Op.Parent(h), state)
      ensures old(handles) <= handles && forall i :: |old(handles)| <= i < |handles| ==> fresh(handles[i])
    {
      hide Inv, Tree.Forested, ParentStep, Attached;
      ghost var next := Step(state, Op.Parent(h));
      HandleUsable(h);
      StepKeepsInv(Strict, state, Op.Parent(h));
      InvParts(Strict, state);
      var r := handles[h].GetParent();
      if r.Ok? && r.value.Some? {
        ParentFound(state, h, r.value.value.node);
        handles := handles + [r.value.value];
      } else {
        ParentAbsent(state, h);
      }
      state := next;
    }

    method Iterate(h: nat, tail: bool)
      requires Valid() && h < |handles|
      modifies `state, `cursors
      ensures Valid() && Steps(old(state), Op.Iterate(h, tail), state)
      ensures old(cursors) <= cursors && forall i :: |old(cursors)| <= i < |cursors| ==> fresh(cursors[i])
    {
      hide Inv, Tree.Forested;
      ghost var next := Step(state, Op.Iterate(h, tail));
      HandleUsable(h);
      StepKeepsInv(Strict, state, Op.Iterate(h, tail));
      var r := handles[h].Iterate(tail);
      if r.Ok? {
        cursors := cursors + [r.value];
      }
      state := next;
    }

    method Next(c: nat)
      requires Valid() && c < |cursors|
      modifies `state, `handles, cursors[c]
      ensures Valid() && Steps(old(state), Op.Next(c), state)
      ensures old(handles) <= handles && forall i :: |old(handles)| <= i < |handles| ==> fresh(handles[i])
    {
      hide Inv, Tree.Forested, Tree.Valid, Step, NextStep, BirthOf;
      ghost var next := Step(state, Op.Next(c));
      StepKeepsInv(Strict, state, Op.Next(c));
      CursorStands(state, c);
      var found := Advance(c);
      if found.Some? {
        handles := handles + [found.value];
      }
      state := next;
    }

    /** The iterator's part of the call, and the handle that comes out of it. */
    method Advance(c: nat) returns (found: Option<SExp>)
      requires Valid() && c < |cursors|
      modifies cursors[c]
      ensures var t := NextStep(state, c);
              && Shows(state.(cursors := t.cursors))
              && match found
                 case None => t.handles == state.handles
                 case Some(x) =>
                   && fresh(x) && x.tree == tree
                   && t.handles == state.handles + [Handle(x.node, x.version, BirthOf(state, x.node))]
    {
      hide Inv, Tree.Forested, Tree.Valid, Step, NextStep, CursorAt, BirthOf;
      ghost var it := state.cursors[c];
      CursorStands(state, c);
      var r := cursors[c].Next(it.parent, it.row, it.position);
      found := if r.Ok? then r.value else None;
    }

    /** Any call of the machine, on the object it is about. */
    method Perform(op: Op)
      requires Valid() && Careful(Strict, state, op)
      modifies this, tree, tree.nodes, handles, cursors
      ensures Valid() && Steps(old(state), op, state)
      ensures old(handles) <= handles && forall i :: |old(handles)| <= i < |handles| ==> fresh(handles[i])
      ensures old(cursors) <= cursors && forall i :: |old(cursors)| <= i < |cursors| ==> fresh(cursors[i])
    {
      hide Inv, Steps, MoveFine, StaleAt, Tree.Valid;
      match op {
        case Append(h, c) => Append(h, c);
        case Prepend(h, c) => Prepend(h, c);
        case InsertAfter(h, after, c) => InsertAfter(h, after, c);
        case Remove(h) => Remove(h);
        case Extract(h) => Extract(h);
        case SetValue(h, value) => SetValue(h, value);
        case NewNode(h, kind) => NewNode(h, kind);
        case Repr(h) => Repr(h);
        case Child(h, index) => Child(h, index);
        case Parent(h) => Parent(h);
        case Iterate(h, tail) => Iterate(h, tail);
        case Next(c) => Next(c);
      }
    }

    /** A whole session: the objects end up as the machine's run does, and no handle from before that
        passes its check names another node than it was made for. */
    method Play(ops: seq<Op>)
      requires Valid() && Runnable(Strict, state, ops)
      modifies this, tree, tree.nodes, handles, cursors
      ensures Valid() && state == Run(old(state), ops)
      ensures old(handles) <= handles && forall i :: |old(handles)| <= i < |handles| ==> fresh(handles[i])
      ensures old(cursors) <= cursors && forall i :: |old(cursors)| <= i < |cursors| ==> fresh(cursors[i])
      ensures forall h :: 0 <= h < |old(handles)| && !handles[h].Stale() ==>
                Holds(state, handles[h].node, old(state).handles[h].birth)
      decreases |ops|
    {
      hide Inv, Step, Careful, Tree.Forested, FreedAlong;
      ghost var s := state;
      if ops != [] {
        Perform(ops[0]);
        Play(ops[1..]);
      }
      forall h | 0 <= h < |old(handles)| && !handles[h].Stale()
        ensures Holds(state, handles[h].node, s.handles[h].birth)
      {
        HandlesNeverAlias(Strict, s, ops, h);
      }
    }
  }

  /** The parent that the call finds is the one of the machine: there is only one. */
  lemma ParentFound(s: State, h: nat, p: nat)
    requires BooksValid(s.arena) && h < |s.handles| && !StaleAt(s, h)
    requires p in s.arena.forms && s.handles[h].node in KidMap(s.arena.forms)[p]
    ensures ParentStep(s, h) == WithHandle(s, p)
  {
    var f, x := s.arena.forms, s.handles[h].node;
    AttachedMeansListed(f, x);
    var i :| 0 <= i < |KidMap(f)[p]| && KidMap(f)[p][i] == x;
    forall q, j | q in f && 0 <= j < |f[q].kids| && f[q].kids[j].id == x
      ensures q == p
    {
      assert SamePlace(f, p, i, q, j);
    }
  }

  lemma ParentAbsent(s: State, h: nat)
    requires h < |s.handles| && (StaleAt(s, h) || !Attached(s.arena.forms, s.handles[h].node))
    ensures ParentStep(s, h) == s
  {
  }

  /** An iterator stands before the place its entry says, and its next call leads one place on. */
  lemma CursorStands(s: State, c: nat)
    requires Inv(Strict, s) && c < |s.cursors|
    ensures var it, t := s.cursors[c], NextStep(s, c);
            && Step(s, Op.Next(c)) == t
            && CursorAt(s.arena, it.next, it.version, it.parent, it.row, it.position)
            && t.arena == s.arena && t.births == s.births && t.clock == s.clock
            && match NextCall(s.arena, it.next, it.version)
               case Yields(x) =>
                 && it.position < |it.row| && x == it.row[it.position]
                 && t.handles == s.handles + [Handle(x, s.arena.version, BirthOf(s, x))]
                 && |t.cursors| == |s.cursors|
                 && t.cursors[c].next == From(it.row, it.position + 1) && t.cursors[c].version == it.version
                 && (forall i :: 0 <= i < |s.cursors| && i != c ==> t.cursors[i] == s.cursors[i])
               case _ => t == s
  {
    assert CursorSound(s.arena, s.cursors[c]);
    hide BooksValid, SiblingAfter, KidMap;
    if NextCall(s.arena, s.cursors[c].next, s.cursors[c].version).Yields? {
      AdvancedSound(s.arena, s.cursors[c]);
    }
  }
}
