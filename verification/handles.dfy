/** The state machine behind the Python API: one tree, any number of handles and iterators on it, and
    every interleaving of the calls.  Each allocation carries a ghost birth stamp, so that a reused
    slot can be told from the node that was there before. */
module Handles {
  import opened Wrappers
  import opened Utf8
  import opened Rows
  import opened Forms
  import opened Edits
  import opened Links
  import opened Arenas
  import opened Serializer
  import Atoms
  import Slabs

  // ---------------------------------------------------------------- what one call does to the tree

  datatype Outcome = Done | StaleError | ValueError | TypeError | IndexError | KeyError | Panic

  /** The tree after a call, the caller's refreshed version snapshot, and how the call ended. */
  datatype Effect = Effect(arena: Arena, version: nat, outcome: Outcome)

  /** The root handle is never stale; any other is once the version has moved on. */
  ghost predicate IsStale(a: Arena, node: nat, version: nat) {
    node != a.root && version != a.version
  }

  /** A mutating call that succeeded renews the caller's snapshot if its node is still there. */
  ghost function Renewed(a: Arena, node: nat, version: nat): Effect {
    Effect(a, if node in a.forms then a.version else version, Done)
  }

  /** A panic leaves the tree as it was, except in `insert_after`, which may have unlinked the child
      before it finds `after` gone, or linked the child in before it finds the parent gone. */
  ghost function MoveCall(a: Arena, node: nat, version: nat, place: Place, child: nat): Effect {
    if IsStale(a, node, version) then Effect(a, version, StaleError)
    else if child !in a.forms then Effect(a, version, Panic)
    else if node !in a.forms then
      Effect(if LinksUnderNothing(a.forms, place, child) then a.(forms := map[]) else a, version, Panic)
    else if CycleSeen(a.forms, node, child) then Effect(a, version, Panic)
    else if AfterGone(a.forms, place) then Effect(a.(forms := Detached(a.forms, child)), version, Panic)
    else Effect(Relinked(a, node, place, child), a.version + 1, Done)
  }

  ghost predicate AfterGone(f: Forest, place: Place) {
    place.After? && place.sibling !in f
  }

  /** An unattached child has its links written before the missing parent is touched. */
  ghost predicate LinksUnderNothing(f: Forest, place: Place, child: nat) {
    place.After? && place.sibling in f && !Attached(f, child)
  }

  ghost function RemoveCall(a: Arena, node: nat, version: nat): Effect {
    if IsStale(a, node, version) then Effect(a, version, StaleError)
    else if node == a.root then Effect(a, version, ValueError)
    else if node !in a.forms then Effect(a, version, Panic)
    else Renewed(Arenas.Remove(a, node).(version := a.version + 1), node, version)
  }

  ghost function SetValueCall(a: Arena, node: nat, version: nat, value: Str): Effect {
    if IsStale(a, node, version) then Effect(a, version, StaleError)
    else if node !in a.forms then Effect(a, version, Panic)
    else if a.forms[node].kind.List? then Effect(a, version, TypeError)
    else Renewed(a.(forms := Rekinded(a.forms, node, Atom(Atoms.New(value))), cache := None), node, version)
  }

  ghost function NewNodeCall(a: Arena, node: nat, version: nat, kind: NodeType): Effect {
    if IsStale(a, node, version) then Effect(a, version, StaleError)
    else Renewed(Allocated(a, kind), node, version)
  }

  /** The text of a node, which is what `repr` must return but for the bare root. */
  ghost function NodeText(f: Forest, node: nat): Str
    requires node in f
  {
    TextValid(f[node]);
    Text(Abs(f[node]))
  }

  ghost predicate BareRoot(a: Arena, node: nat)
    requires node in a.forms
  {
    a.bare && node == a.root && a.forms[node].kids == []
  }

  ghost predicate CacheHit(a: Arena, node: nat) {
    a.cache.Some? && a.cache.value.version == a.version && a.cache.value.node == node
  }

  ghost function ReprCall(a: Arena, node: nat, version: nat): Effect {
    if IsStale(a, node, version) then Effect(a, version, StaleError)
    else if node !in a.forms then Effect(a, version, Panic)
    else if BareRoot(a, node) || CacheHit(a, node) then Effect(a, version, Done)
    else Renewed(a.(cache := Some(ReprEntry(node, a.version, NodeText(a.forms, node)))), node, version)
  }

  /** The string that call returns: nothing, the cached text, or a fresh serialization. */
  ghost function ReprText(a: Arena, node: nat): seq<Byte>
    requires node in a.forms
  {
    if BareRoot(a, node) then []
    else if CacheHit(a, node) then a.cache.value.text
    else NodeText(a.forms, node)
  }

  // ---------------------------------------------------------------- trees in order

  /** A forest, and a free list that names each other slot once. */
  ghost predicate BooksValid(a: Arena) {
    && WellFormed(a.forms)
    && NoDup(a.free)
    && (forall x :: x in a.forms ==> x < a.size)
    && (forall x: nat :: x in a.free <==> x < a.size && x !in a.forms)
  }

  ghost predicate RootInPlace(a: Arena) {
    a.root in a.forms && !Attached(a.forms, a.root)
  }

  ghost predicate ArenaValid(a: Arena) {
    BooksValid(a) && RootInPlace(a)
  }

  /** A cache entry of the current version names a live node and holds its text. */
  ghost predicate Coherent(a: Arena) {
    a.cache.Some? ==>
      var e := a.cache.value;
      && e.version <= a.version
      && (e.version == a.version ==> e.node in a.forms && e.text == NodeText(a.forms, e.node))
  }

  /** How careful a caller is with moves, none of which the code checks.  `Lax`: the links encode a forest
      afterwards.  `Tidy`: and no panic comes halfway.  `Strict`: and the root is not moved, which is
      all that the documentation asks. */
  datatype Care = Lax | Tidy | Strict

  ghost predicate MoveFine(care: Care, a: Arena, node: nat, place: Place, child: nat) {
    child in a.forms ==>
      if node !in a.forms then !LinksUnderNothing(a.forms, place, child)
      else
        || CycleSeen(a.forms, node, child)
        || (Keeps(a.forms, node, place, child) && (care.Strict? ==> child != a.root))
        || (care.Lax? && AfterGone(a.forms, place))
  }

  /** Putting a node under one outside its subtree keeps a tree in order exactly when the node is not the
      root, which would gain a parent; the books are kept either way. */
  lemma AttachValid(a: Arena, node: nat, place: Place, child: nat)
    requires BooksValid(a) && node in a.forms && child in a.forms && node !in Pre(a.forms[child])
    ensures BooksValid(Attach(a, node, place, child))
    ensures RootInPlace(a) ==> (RootInPlace(Attach(a, node, place, child)) <==> child != a.root)
    ensures Attach(a, node, place, child).forms.Keys == a.forms.Keys
  {
    var b := Attach(a, node, place, child);
    MovedWellFormed(a.forms, node, place, child);
    MovedKeys(a.forms, node, place, child);
    SameBooks(a, b);
    if child == a.root {
      MovedHangs(a.forms, node, place, child);
    } else {
      MovedAttached(a.forms, node, place, child, a.root);
    }
    hide Moved, Attached, BooksValid;
  }

  lemma MovedHangs(f: Forest, p: nat, place: Place, c: nat)
    requires WellFormed(f) && c in f && p in f && p !in Pre(f[c])
    ensures Attached(Moved(f, p, place, c), c)
  {
    MovedWellFormed(f, p, place, c);
    var row := Without(KidMap(f)[p], c);
    SpliceMember(row, PlaceIndex(row, place), c);
    assert c in KidMap(Moved(f, p, place, c))[p];
    AttachedMeansListed(Moved(f, p, place, c), c);
  }

  lemma MovedKeys(f: Forest, p: nat, place: Place, c: nat)
    requires c in f
    ensures Moved(f, p, place, c).Keys == f.Keys
  {
  }

  /** An edit that keeps the slots keeps the slab's books. */
  lemma SameBooks(a: Arena, b: Arena)
    requires BooksValid(a) && WellFormed(b.forms) && b.forms.Keys == a.forms.Keys
    requires b.free == a.free && b.size == a.size
    ensures BooksValid(b)
  {
    hide WellFormed, NoDup;
    assert forall x :: x in b.forms <==> x in a.forms;
  }

  /** A child cut loose leaves every slot filled and the root in place. */
  lemma DetachValid(a: Arena, child: nat)
    requires BooksValid(a)
    ensures BooksValid(a.(forms := Detached(a.forms, child))) && Detached(a.forms, child).Keys == a.forms.Keys
  {
    DetachedWellFormed(a.forms, child);
    SameBooks(a, a.(forms := Detached(a.forms, child)));
  }

  lemma RootAbove(f: Forest, root: nat, node: nat)
    requires WellFormed(f) && root in f && node in f && !Attached(f, root) && node != root
    ensures root !in Pre(f[node])
  {
    if root in Pre(f[node]) {
      var p, i := PartHasParent(f, node, root);
      assert false;
    }
  }

  lemma RemoveValid(a: Arena, node: nat)
    requires BooksValid(a) && node in a.forms
    ensures BooksValid(Arenas.Remove(a, node))
    ensures Arenas.Remove(a, node).forms.Keys == a.forms.Keys - Slabs.Elements(Pre(a.forms[node]))
    ensures RootInPlace(a) && node != a.root ==> RootInPlace(Arenas.Remove(a, node))
  {
    var f := a.forms;
    RemovedWellFormed(f, node);
    RemovedAttached(f, node, a.root);
    PreNoDup(f, node);
    forall x | x in Pre(f[node])
      ensures x in f
    {
      PartKnown(f, node, x);
    }
    if RootInPlace(a) && node != a.root {
      RootAbove(f, a.root, node);
    }
    hide WellFormed, Pre, Removed, Attached;
    NoDupConcat(a.free, Pre(f[node]));
  }

  lemma AllocateValid(a: Arena, kind: NodeType)
    requires BooksValid(a)
    ensures BooksValid(Allocated(a, kind)) && NextId(a) !in a.forms
    ensures RootInPlace(a) ==> RootInPlace(Allocated(a, kind))
    ensures forall x :: x in a.forms ==> x in Allocated(a, kind).forms && Allocated(a, kind).forms[x] == a.forms[x]
  {
    var id := NextId(a);
    assert |a.free| > 0 ==> id in a.free;
    GrownWellFormed(a.forms, id, kind);
    GrownAttached(a.forms, id, kind, a.root);
    PoppedFree(a);
    hide WellFormed, Attached, NoDup;
  }

  lemma PoppedFree(a: Arena)
    requires NoDup(a.free) && forall x: nat :: x in a.free <==> x < a.size && x !in a.forms
    ensures NoDup(Slabs.PopFree(a.free))
    ensures forall x :: x in Slabs.PopFree(a.free) <==> x in a.free && x != NextId(a)
  {
    if |a.free| > 0 {
      assert a.free == a.free[..|a.free| - 1] + [NextId(a)];
      NoDupApart(a.free[..|a.free| - 1], [NextId(a)]);
    }
  }

  lemma SetKindValid(a: Arena, node: nat, kind: NodeType)
    requires BooksValid(a)
    ensures var b := a.(forms := Rekinded(a.forms, node, kind), cache := None);
            BooksValid(b) && (RootInPlace(a) ==> RootInPlace(b))
    ensures KidMap(Rekinded(a.forms, node, kind)) == KidMap(a.forms)
  {
    RekindedWellFormed(a.forms, node, kind);
    RekindedKids(a.forms, node, kind);
    AttachedMeansListed(a.forms, a.root);
    AttachedMeansListed(Rekinded(a.forms, node, kind), a.root);
    assert KidMap(a.forms).Keys == a.forms.Keys;
  }

  // ---------------------------------------------------------------- what each call means

  // Each call once more, by what it changes: when it succeeds, how it fails otherwise, and what is then
  // different from before.

  lemma MoveMeans(a: Arena, node: nat, version: nat, place: Place, child: nat)
    requires BooksValid(a)
    ensures var e, f := MoveCall(a, node, version, place, child), a.forms;
            var stale := node != a.root && version != a.version;
            var gone := place.After? && place.sibling !in f;
            var loops := child in f && if Attached(f, child) then node in Pre(f[child]) else node == child;
            && (e.outcome == StaleError <==> stale)
            && (e.outcome == Done <==> !stale && node in f && child in f && !gone && !loops)
            && (e.outcome != StaleError && e.outcome != Done ==> e.outcome == Panic)
            && (e.outcome != Done ==> e.version == version && e.arena.version == a.version)
            && (e.outcome != Done && (stale || !place.After?) ==> e.arena == a)
            && e.arena == a.(forms := e.arena.forms, version := e.arena.version)
            && (e.outcome == Done ==> e.version == e.arena.version == a.version + 1)
            && (e.outcome == Done && node !in Pre(f[child]) &&
                (place.After? ==> place.sibling != child && place.sibling in KidMap(f)[node]) ==>
                  var row := Without(KidMap(f)[node], child);
                  && WellFormed(e.arena.forms) && Rearranged(f, e.arena.forms, node, child)
                  && match place
                     case First => KidMap(e.arena.forms)[node] == [child] + row
                     case Last => KidMap(e.arena.forms)[node] == row + [child]
                     case After(x) => BehindIn(KidMap(e.arena.forms)[node], row, x, child))
  {
    hide KidMap, Attached, Pre, Moved, WellFormed, Without, Detached, Rearranged, BehindIn;
    var f := a.forms;
    if node in f && child in f && Keeps(f, node, place, child) {
      assert WellFormed(f);
      MovedRows(f, node, place, child);
    }
  }

  lemma RemoveMeans(a: Arena, node: nat, version: nat)
    requires BooksValid(a)
    ensures var e, f := RemoveCall(a, node, version), a.forms;
            var stale := node != a.root && version != a.version;
            && (e.outcome == StaleError <==> stale) && (e.outcome == ValueError <==> node == a.root)
            && (e.outcome == Done <==> !stale && node != a.root && node in f)
            && (!stale && node != a.root && node !in f ==> e.outcome == Panic)
            && e.version == version
            && (e.outcome != Done ==> e.arena == a)
            && (e.outcome == Done ==>
                  && e.arena == a.(forms := e.arena.forms, free := a.free + Pre(f[node]), version := a.version + 1)
                  && e.arena.forms.Keys == f.Keys - (set x | x in Pre(f[node]))
                  && forall q :: q in e.arena.forms ==>
                       e.arena.forms[q].kind == f[q].kind &&
                       KidMap(e.arena.forms)[q] == Without(KidMap(f)[q], node))
  {
    hide KidMap, Removed, WellFormed, Without;
    if node in a.forms {
      assert WellFormed(a.forms);
      RemovedRows(a.forms, node);
      assert Pre(a.forms[node])[0] == a.forms[node].id == node by { OwnId(a.forms, node); }
    }
  }

  lemma OwnId(f: Forest, x: nat)
    requires WellFormed(f) && x in f
    ensures f[x].id == x
  {
  }

  lemma SetValueMeans(a: Arena, node: nat, version: nat, value: Str)
    requires BooksValid(a)
    ensures var e, f := SetValueCall(a, node, version, value), a.forms;
            var g := e.arena.forms;
            var stale := node != a.root && version != a.version;
            && (e.outcome == StaleError <==> stale)
            && (e.outcome == Done <==> !stale && node in f && f[node].kind.Atom?)
            && (e.outcome == TypeError <==> !stale && node in f && f[node].kind.List?)
            && (!stale && node !in f ==> e.outcome == Panic)
            && (e.outcome != Done ==> e.arena == a && e.version == version)
            && (e.outcome == Done ==>
                  && e.version == a.version && e.arena == a.(forms := g, cache := None)
                  && g.Keys == f.Keys && KidMap(g) == KidMap(f)
                  && g[node].kind.Atom? && Atoms.AsStr(g[node].kind.atom) == value
                  && forall q :: q in f && q != node ==> g[q].kind == f[q].kind)
  {
    var kind := NodeType.Atom(Atoms.New(value));
    RekindedKids(a.forms, node, kind);
    if node in a.forms {
      OwnKinds(a.forms, node, kind);
    }
    hide KidMap, Rekinded;
  }

  lemma OwnKinds(f: Forest, x: nat, kind: NodeType)
    requires WellFormed(f) && x in f
    ensures Rekinded(f, x, kind).Keys == f.Keys && Rekinded(f, x, kind)[x].kind == kind
    ensures forall q :: q in f && q != x ==> Rekinded(f, x, kind)[q].kind == f[q].kind
  {
  }

  lemma NewNodeMeans(a: Arena, node: nat, version: nat, kind: NodeType)
    requires BooksValid(a)
    ensures var e, f, id := NewNodeCall(a, node, version, kind), a.forms, NextId(a);
            var stale := node != a.root && version != a.version;
            && (e.outcome == StaleError <==> stale) && (e.outcome == Done <==> !stale)
            && (stale ==> e.arena == a && e.version == version)
            && (!stale ==>
                  && id !in f && e.arena == a.(forms := f[id := Form(id, kind, [])], size := e.arena.size,
                                               free := e.arena.free)
                  && (a.free == [] ==> id == a.size && e.arena.size == a.size + 1 && e.arena.free == [])
                  && (a.free != [] ==> a.free == e.arena.free + [id] && e.arena.size == a.size)
                  && e.version == if node in f || node == id then a.version else version)
  {
    assert |a.free| > 0 ==> NextId(a) in a.free;
  }

  lemma ReprMeans(a: Arena, node: nat, version: nat)
    requires BooksValid(a) && Coherent(a)
    ensures var e, f := ReprCall(a, node, version), a.forms;
            var stale := node != a.root && version != a.version;
            && (e.outcome == StaleError <==> stale) && (e.outcome == Done <==> !stale && node in f)
            && (!stale && node !in f ==> e.outcome == Panic)
            && e.arena == a.(cache := e.arena.cache)
            && (e.outcome != Done || (a.bare && node == a.root && f[node].kids == []) ==>
                  e.arena == a && e.version == version)
            && (e.outcome == Done && !(a.bare && node == a.root && f[node].kids == []) ==>
                  && e.arena.cache.Some? && e.arena.cache.value.node == node
                  && e.arena.cache.value.version == a.version
                  && e.arena.cache.value.text == Text(Abs(f[node])))
  {
    hide BooksValid;
  }

  // ---------------------------------------------------------------- the machine

  datatype Handle = Handle(node: nat, version: nat, birth: nat)

  /** An iterator, with the row it was created over, where in it it started and now stands, and what it
      has given out since. */
  datatype Cursor = Cursor(
    next: Option<nat>, version: nat, parent: nat, row: seq<nat>, start: nat, position: nat, yielded: seq<nat>)

  datatype State = State(arena: Arena, births: map<nat, nat>, clock: nat, handles: seq<Handle>, cursors: seq<Cursor>)

  datatype Op =
    | Append(self: nat, child: nat)
    | Prepend(self: nat, child: nat)
    | InsertAfter(self: nat, after: Option<nat>, child: nat)
    | Remove(self: nat)
    | Extract(self: nat)
    | SetValue(self: nat, value: Str)
    | NewNode(self: nat, kind: NodeType)
    | Repr(self: nat)
    | Child(self: nat, index: nat)
    | Parent(self: nat)
    | Iterate(self: nat, tail: bool)
    | Next(cursor: nat)

  /** Does slot `x` hold the allocation stamped `birth`? */
  ghost predicate Holds(s: State, x: nat, birth: nat) {
    x in s.births && s.births[x] == birth
  }

  /** A handle of the current version names its own allocation, unless it is one of the root's, which the
      check lets pass at any version. */
  ghost predicate HandleSound(s: State, h: Handle) {
    && h.version <= s.arena.version && h.birth < s.clock
    && (h.node != s.arena.root && h.version == s.arena.version ==> Holds(s, h.node, h.birth))
  }

  ghost predicate CursorLive(a: Arena, c: Cursor) {
    c.version <= a.version && (c.version == a.version && c.next.Some? ==> c.next.value in a.forms)
  }

  /** What every call keeps that leaves a forest. */
  ghost predicate Tracked(s: State) {
    && BooksValid(s.arena)
    && s.births.Keys == s.arena.forms.Keys
    && (forall x :: x in s.births ==> s.births[x] < s.clock)
    && (forall x, y :: x in s.births && y in s.births && s.births[x] == s.births[y] ==> x == y)
    && (forall i {:trigger s.handles[i]} :: 0 <= i < |s.handles| ==> HandleSound(s, s.handles[i]))
    && (forall i {:trigger s.cursors[i]} :: 0 <= i < |s.cursors| ==> CursorLive(s.arena, s.cursors[i]))
  }

  /** An iterator stands before place `i` of a row, which is still the current one at its own version. */
  ghost predicate CursorAt(a: Arena, next: Option<nat>, version: nat, parent: nat, row: seq<nat>, i: nat) {
    && version <= a.version
    && i <= |row| && next == From(row, i)
    && (version == a.version ==> parent in a.forms && row == KidMap(a.forms)[parent])
  }

  ghost predicate CursorSound(a: Arena, c: Cursor) {
    && CursorAt(a, c.next, c.version, c.parent, c.row, c.position)
    && c.start <= c.position && c.yielded == c.row[c.start..c.position]
  }

  /** What is also kept where no row changes under an unchanged version. */
  ghost predicate Current(s: State) {
    && Coherent(s.arena)
    && (forall i {:trigger s.cursors[i]} :: 0 <= i < |s.cursors| ==> CursorSound(s.arena, s.cursors[i]))
  }

  /** What is also kept where the root stays where it is: its handles name it. */
  ghost predicate Rooted(s: State) {
    && RootInPlace(s.arena)
    && (forall i {:trigger s.handles[i]} :: 0 <= i < |s.handles| && s.handles[i].node == s.arena.root ==>
          Holds(s, s.arena.root, s.handles[i].birth))
  }

  ghost predicate Inv(care: Care, s: State) {
    Tracked(s) && (!care.Lax? ==> Current(s)) && (care.Strict? ==> Rooted(s))
  }

  /** A tree that was just parsed, created or cloned, with its root handle. */
  ghost function Fresh(a: Arena, births: map<nat, nat>, clock: nat): State
    requires a.root in births
  {
    State(a, births, clock, [Handle(a.root, a.version, births[a.root])], [])
  }

  /** The start of a session: every live slot keeps its own number as its stamp. */
  ghost function Opened(a: Arena): State
    requires a.root in a.forms
  {
    Fresh(a, map x | x in a.forms :: x, a.size)
  }

  ghost function WithEffect(s: State, self: nat, e: Effect): State
    requires self < |s.handles|
  {
    s.(arena := e.arena,
       births := map x | x in s.births && x in e.arena.forms :: s.births[x],
       handles := s.handles[self := s.handles[self].(version := e.version)])
  }

  ghost function WithHandle(s: State, node: nat): State
  {
    s.(handles := s.handles + [Handle(node, s.arena.version, BirthOf(s, node))])
  }

  ghost function BirthOf(s: State, node: nat): nat {
    if node in s.births then s.births[node] else 0
  }

  ghost function PlaceOf(s: State, after: Option<nat>): Place
    requires after.Some? ==> after.value < |s.handles|
  {
    match after
    case None => First
    case Some(h) => After(s.handles[h].node)
  }

  ghost predicate InRange(s: State, op: Op) {
    match op
    case Append(h, c) => h < |s.handles| && c < |s.handles|
    case Prepend(h, c) => h < |s.handles| && c < |s.handles|
    case InsertAfter(h, after, c) =>
      h < |s.handles| && c < |s.handles| && (after.Some? ==> after.value < |s.handles|)
    case Next(c) => c < |s.cursors|
    case _ => op.self < |s.handles|
  }

  ghost predicate StaleAt(s: State, h: nat)
    requires h < |s.handles|
  {
    IsStale(s.arena, s.handles[h].node, s.handles[h].version)
  }

  /** Calls in range that are refused as stale, or whose moves are fine at this level of care. */
  ghost predicate Careful(care: Care, s: State, op: Op) {
    && InRange(s, op)
    && match op
       case Append(h, c) => StaleAt(s, h) || MoveFine(care, s.arena, s.handles[h].node, Last, s.handles[c].node)
       case Prepend(h, c) => StaleAt(s, h) || MoveFine(care, s.arena, s.handles[h].node, First, s.handles[c].node)
       case InsertAfter(h, after, c) =>
         || StaleAt(s, h) || (after.Some? && StaleAt(s, after.value))
         || MoveFine(care, s.arena, s.handles[h].node, PlaceOf(s, after), s.handles[c].node)
       case _ => true
  }

  ghost function Step(s: State, op: Op): State
    requires InRange(s, op)
  {
    var a := s.arena;
    match op
    case Append(h, c) =>
      WithEffect(s, h, MoveCall(a, s.handles[h].node, s.handles[h].version, Last, s.handles[c].node))
    case Prepend(h, c) =>
      WithEffect(s, h, MoveCall(a, s.handles[h].node, s.handles[h].version, First, s.handles[c].node))
    case InsertAfter(h, after, c) =>
      if after.Some? && StaleAt(s, after.value) then s
      else WithEffect(s, h, MoveCall(a, s.handles[h].node, s.handles[h].version, PlaceOf(s, after), s.handles[c].node))
    case Remove(h) =>
      WithEffect(s, h, RemoveCall(a, s.handles[h].node, s.handles[h].version))
    case Extract(h) =>
      WithEffect(s, h, RemoveCall(a, s.handles[h].node, s.handles[h].version))
    case SetValue(h, value) =>
      WithEffect(s, h, SetValueCall(a, s.handles[h].node, s.handles[h].version, value))
    case NewNode(h, kind) => NewNodeStep(s, h, kind)
    case Repr(h) =>
      WithEffect(s, h, ReprCall(a, s.handles[h].node, s.handles[h].version))
    case Child(h, i) => ChildStep(s, h, i)
    case Parent(h) => ParentStep(s, h)
    case Iterate(h, tail) => IterateStep(s, h, tail)
    case Next(c) => NextStep(s, c)
  }

  ghost function NewNodeStep(s: State, self: nat, kind: NodeType): State
    requires self < |s.handles|
  {
    var h, id := s.handles[self], NextId(s.arena);
    var e := NewNodeCall(s.arena, h.node, h.version, kind);
    if e.outcome != Done then s
    else
      WithHandle(s.(arena := e.arena,
                    births := s.births[id := s.clock],
                    clock := s.clock + 1,
                    handles := s.handles[self := h.(version := e.version)]), id)
  }

  ghost function ChildStep(s: State, self: nat, i: nat): State
    requires self < |s.handles|
  {
    var a, x := s.arena, s.handles[self].node;
    if IsStale(a, x, s.handles[self].version) || x !in a.forms || i >= |a.forms[x].kids| then s
    else WithHandle(s, a.forms[x].kids[i].id)
  }

  ghost function ParentStep(s: State, self: nat): State
    requires self < |s.handles|
  {
    var a, x := s.arena, s.handles[self].node;
    if IsStale(a, x, s.handles[self].version) || !Attached(a.forms, x) then s
    else
      var p, i :| p in a.forms && 0 <= i < |a.forms[p].kids| && a.forms[p].kids[i].id == x;
      WithHandle(s, p)
  }

  ghost function IterateStep(s: State, self: nat, tail: bool): State
    requires self < |s.handles|
  {
    var a, x := s.arena, s.handles[self].node;
    if IsStale(a, x, s.handles[self].version) || x !in a.forms then s
    else
      var row := KidMap(a.forms)[x];
      var i := if tail && row != [] then 1 else 0;
      s.(cursors := s.cursors + [Cursor(From(row, i), a.version, x, row, i, i, [])])
  }

  datatype NextOutcome = Exhausted | StaleIterator | Yields(node: nat)

  /** Exhaustion is noticed before a moved version. */
  ghost function NextCall(a: Arena, next: Option<nat>, version: nat): NextOutcome {
    if next.None? then Exhausted
    else if version != a.version then StaleIterator
    else Yields(next.value)
  }

  ghost function NextStep(s: State, c: nat): State
    requires c < |s.cursors|
  {
    var it := s.cursors[c];
    match NextCall(s.arena, it.next, it.version)
    case Yields(x) => WithHandle(s.(cursors := s.cursors[c := Advanced(s.arena, it, x)]), x)
    case _ => s
  }

  /** The iterator gives out `x` and moves on to its next sibling. */
  ghost function Advanced(a: Arena, it: Cursor, x: nat): Cursor {
    it.(next := SiblingAfter(a.forms, x), position := it.position + 1, yielded := it.yielded + [x])
  }

  /** The node behind `x` in the row that holds it. */
  ghost function SiblingAfter(f: Forest, x: nat): Option<nat> {
    if Attached(f, x) then
      var p, i :| p in f && 0 <= i < |f[p].kids| && f[p].kids[i].id == x;
      if i + 1 < |f[p].kids| then Some(f[p].kids[i + 1].id) else None
    else None
  }

  // ---------------------------------------------------------------- one step

  /** The caller's snapshot is kept, or renewed for a node that was valid before and lives on. */
  ghost predicate RenewedFairly(a: Arena, node: nat, version: nat, e: Effect) {
    e.version == version ||
    (e.version == e.arena.version && node in e.arena.forms && !IsStale(a, node, version))
  }

  /** What every call without a new node does to the slots: they are only freed, and only when the version
      goes up. */
  ghost predicate Lawful(a: Arena, node: nat, version: nat, e: Effect) {
    && BooksValid(e.arena)
    && e.arena.root == a.root && e.arena.forms.Keys <= a.forms.Keys && a.version <= e.arena.version
    && (e.arena.version == a.version ==> e.arena.forms.Keys == a.forms.Keys)
    && RenewedFairly(a, node, version, e)
  }

  /** Nothing moves or goes unless the version goes up, and the cache stays right. */
  ghost predicate Undisturbed(a: Arena, b: Arena) {
    && a.version <= b.version && Coherent(b)
    && (b.version == a.version ==> b.forms.Keys == a.forms.Keys && KidMap(b.forms) == KidMap(a.forms))
  }

  /** A move keeps the books exactly when it leaves a forest. */
  lemma MoveLawful(a: Arena, node: nat, version: nat, place: Place, child: nat)
    requires BooksValid(a)
    ensures var fine := IsStale(a, node, version) || MoveFine(Lax, a, node, place, child);
            var e := MoveCall(a, node, version, place, child);
            (BooksValid(e.arena) <==> fine) && (fine ==> Lawful(a, node, version, e))
  {
    hide BooksValid, CycleSeen, KidMap, Moved, Detached, Attached;
    if !IsStale(a, node, version) && child in a.forms {
      NoForestNoBooks(a, child, a.(forms := map[]));
      NoForestNoBooks(a, child, a.(forms := map[], version := a.version + 1));
      DetachValid(a, child);
      if node in a.forms && Keeps(a.forms, node, place, child) {
        AttachValid(a, node, place, child);
      }
    }
  }

  /** Slots that are filled without a form are on no list. */
  lemma NoForestNoBooks(a: Arena, x: nat, b: Arena)
    requires BooksValid(a) && x in a.forms && b.forms == map[] && b.free == a.free && b.size == a.size
    ensures !BooksValid(b)
  {
    assert x !in b.free;
  }

  lemma MoveUndisturbed(a: Arena, node: nat, version: nat, place: Place, child: nat)
    requires BooksValid(a) && Coherent(a)
    requires IsStale(a, node, version) || MoveFine(Tidy, a, node, place, child)
    ensures Undisturbed(a, MoveCall(a, node, version, place, child).arena)
  {
    hide BooksValid, CycleSeen, KidMap, NodeText, Moved, Attached;
    if node in a.forms && child in a.forms && Keeps(a.forms, node, place, child) {
      SiblingThere(a, node, place, child);
    }
  }

  lemma SiblingThere(a: Arena, node: nat, place: Place, child: nat)
    requires BooksValid(a) && node in a.forms && child in a.forms && Keeps(a.forms, node, place, child)
    ensures !AfterGone(a.forms, place)
  {
    if place.After? {
      var i :| 0 <= i < |KidMap(a.forms)[node]| && KidMap(a.forms)[node][i] == place.sibling;
      assert KidKnown(a.forms, node, i);
    }
  }

  /** Where parent and sibling are there, a move keeps the tree in order exactly when it is allowed. */
  lemma MoveRooted(a: Arena, node: nat, version: nat, place: Place, child: nat)
    requires ArenaValid(a)
    requires !IsStale(a, node, version) ==> node in a.forms && !AfterGone(a.forms, place)
    ensures ArenaValid(MoveCall(a, node, version, place, child).arena) <==>
              IsStale(a, node, version) || MoveFine(Strict, a, node, place, child)
  {
    hide BooksValid, RootInPlace, CycleSeen, KidMap, Moved, Attached;
    MoveLawful(a, node, version, place, child);
    if !IsStale(a, node, version) && child in a.forms && Keeps(a.forms, node, place, child) {
      AttachValid(a, node, place, child);
    }
  }

  lemma RemoveLawful(a: Arena, node: nat, version: nat)
    requires BooksValid(a)
    ensures var e := RemoveCall(a, node, version);
            && Lawful(a, node, version, e) && (Coherent(a) ==> Undisturbed(a, e.arena))
            && (RootInPlace(a) ==> RootInPlace(e.arena))
  {
    hide BooksValid, RootInPlace, KidMap, NodeText, Pre, Arenas.Remove;
    if !IsStale(a, node, version) && node != a.root && node in a.forms {
      RemoveValid(a, node);
      BumpValid(Arenas.Remove(a, node), a.version + 1);
      RemoveKeepsBooks(a, node);
    }
  }

  lemma RemoveKeepsBooks(a: Arena, node: nat)
    requires node in a.forms
    ensures var b := Arenas.Remove(a, node);
            b.root == a.root && b.version == a.version && b.cache == a.cache
  {
  }

  lemma BumpValid(a: Arena, version: nat)
    ensures BooksValid(a) ==> BooksValid(a.(version := version))
    ensures RootInPlace(a) ==> RootInPlace(a.(version := version))
  {
  }

  lemma SetValueLawful(a: Arena, node: nat, version: nat, value: Str)
    requires BooksValid(a)
    ensures var e := SetValueCall(a, node, version, value);
            && Lawful(a, node, version, e) && (Coherent(a) ==> Undisturbed(a, e.arena))
            && (RootInPlace(a) ==> RootInPlace(e.arena))
  {
    SetKindValid(a, node, Atom(Atoms.New(value)));
    hide BooksValid, RootInPlace, KidMap, NodeText;
  }

  lemma ReprLawful(a: Arena, node: nat, version: nat)
    requires BooksValid(a)
    ensures var e := ReprCall(a, node, version);
            && Lawful(a, node, version, e) && (Coherent(a) ==> Undisturbed(a, e.arena))
            && (RootInPlace(a) ==> RootInPlace(e.arena))
    ensures Coherent(a) && node in a.forms ==>
              ReprText(a, node) == if BareRoot(a, node) then [] else Text(Abs(a.forms[node]))
  {
    if node in a.forms {
      CacheValid(a, Some(ReprEntry(node, a.version, NodeText(a.forms, node))));
    }
    hide BooksValid, RootInPlace, KidMap;
  }

  lemma CacheValid(a: Arena, cache: Option<ReprEntry>)
    ensures BooksValid(a) ==> BooksValid(a.(cache := cache))
    ensures RootInPlace(a) ==> RootInPlace(a.(cache := cache))
  {
  }

  lemma NewNodeLawful(a: Arena, kind: NodeType)
    requires BooksValid(a)
    ensures var b := Allocated(a, kind);
            && BooksValid(b) && (Coherent(a) ==> Coherent(b)) && (RootInPlace(a) ==> RootInPlace(b))
            && NextId(a) !in a.forms && Extends(a, b, NextId(a))
  {
    AllocateValid(a, kind);
    hide BooksValid, RootInPlace, WellFormed;
  }

  /** One slot more, at the same version. */
  ghost predicate Extends(a: Arena, b: Arena, id: nat) {
    && b.forms.Keys == a.forms.Keys + {id} && b.version == a.version && b.root == a.root
    && forall x :: x in a.forms ==> KidMap(b.forms)[x] == KidMap(a.forms)[x]
  }

  lemma EffectTracked(s: State, self: nat, e: Effect)
    requires Tracked(s) && self < |s.handles|
    requires Lawful(s.arena, s.handles[self].node, s.handles[self].version, e)
    ensures Tracked(WithEffect(s, self, e))
  {
    hide BooksValid;
    var t := WithEffect(s, self, e);
    assert t.births.Keys == t.arena.forms.Keys;
    forall i {:trigger t.handles[i]} | 0 <= i < |t.handles|
      ensures HandleSound(t, t.handles[i])
    {
      assert HandleSound(s, s.handles[i]);
    }
    forall i {:trigger t.cursors[i]} | 0 <= i < |t.cursors|
      ensures CursorLive(t.arena, t.cursors[i])
    {
      assert CursorLive(s.arena, s.cursors[i]);
    }
  }

  lemma EffectCurrent(s: State, self: nat, e: Effect)
    requires Current(s) && self < |s.handles| && Undisturbed(s.arena, e.arena)
    ensures Current(WithEffect(s, self, e))
  {
    hide Coherent, KidMap;
    forall i {:trigger s.cursors[i]} | 0 <= i < |s.cursors|
      ensures CursorSound(e.arena, s.cursors[i])
    {
      assert CursorSound(s.arena, s.cursors[i]);
    }
  }

  lemma EffectRooted(s: State, self: nat, e: Effect)
    requires Rooted(s) && self < |s.handles| && e.arena.root == s.arena.root && RootInPlace(e.arena)
    ensures Rooted(WithEffect(s, self, e))
  {
    hide Attached;
    var t := WithEffect(s, self, e);
    forall i {:trigger t.handles[i]} | 0 <= i < |t.handles| && t.handles[i].node == t.arena.root
      ensures Holds(t, t.arena.root, t.handles[i].birth)
    {
      assert Holds(s, s.arena.root, s.handles[i].birth);
    }
  }

  lemma EffectKeepsInv(care: Care, s: State, self: nat, e: Effect)
    requires Inv(care, s) && self < |s.handles|
    requires Lawful(s.arena, s.handles[self].node, s.handles[self].version, e)
    requires !care.Lax? ==> Undisturbed(s.arena, e.arena)
    requires care.Strict? ==> RootInPlace(e.arena)
    ensures Inv(care, WithEffect(s, self, e))
  {
    hide Tracked, Current, Rooted, Undisturbed, WithEffect, RootInPlace, RenewedFairly, BooksValid;
    EffectTracked(s, self, e);
    if !care.Lax? {
      EffectCurrent(s, self, e);
    }
    if care.Strict? {
      EffectRooted(s, self, e);
    }
  }

  /** A handle made now for a live node is sound. */
  lemma HandleKeepsInv(care: Care, s: State, node: nat)
    requires Inv(care, s) && node in s.arena.forms
    ensures Inv(care, WithHandle(s, node))
  {
    hide BooksValid, RootInPlace, Coherent, CursorSound, CursorLive;
    var t := WithHandle(s, node);
    forall i {:trigger t.handles[i]} | 0 <= i < |t.handles|
      ensures HandleSound(t, t.handles[i])
      ensures care.Strict? && t.handles[i].node == t.arena.root ==> Holds(t, t.arena.root, t.handles[i].birth)
    {
      if i < |s.handles| {
        assert HandleSound(s, s.handles[i]);
      }
    }
  }

  /** A slot filled for the first time, or again, gets a stamp of its own. */
  lemma BirthTracked(s: State, b: Arena, id: nat)
    requires Tracked(s) && BooksValid(b) && id !in s.arena.forms && Extends(s.arena, b, id)
    ensures Tracked(s.(arena := b, births := s.births[id := s.clock], clock := s.clock + 1))
  {
    hide BooksValid, KidMap;
    var t := s.(arena := b, births := s.births[id := s.clock], clock := s.clock + 1);
    forall i {:trigger t.handles[i]} | 0 <= i < |t.handles|
      ensures HandleSound(t, t.handles[i])
    {
      assert HandleSound(s, s.handles[i]);
    }
    forall i {:trigger t.cursors[i]} | 0 <= i < |t.cursors|
      ensures CursorLive(t.arena, t.cursors[i])
    {
      assert CursorLive(s.arena, s.cursors[i]);
    }
  }

  lemma BirthKeepsInv(care: Care, s: State, b: Arena, id: nat)
    requires Inv(care, s) && BooksValid(b) && id !in s.arena.forms && Extends(s.arena, b, id)
    requires !care.Lax? ==> Coherent(b)
    requires care.Strict? ==> RootInPlace(b)
    ensures Inv(care, s.(arena := b, births := s.births[id := s.clock], clock := s.clock + 1))
  {
    hide BooksValid, Coherent, KidMap, Attached, Tracked;
    BirthTracked(s, b, id);
    var t := s.(arena := b, births := s.births[id := s.clock], clock := s.clock + 1);
    forall i {:trigger t.cursors[i]} | !care.Lax? && 0 <= i < |t.cursors|
      ensures CursorSound(t.arena, t.cursors[i])
    {
      assert CursorSound(s.arena, s.cursors[i]);
    }
  }

  lemma RenewalKeepsInv(care: Care, s: State, self: nat, version: nat)
    requires Inv(care, s) && self < |s.handles|
    requires version == s.handles[self].version || version == s.arena.version
    requires !IsStale(s.arena, s.handles[self].node, s.handles[self].version)
    ensures Inv(care, s.(handles := s.handles[self := s.handles[self].(version := version)]))
  {
    hide BooksValid, RootInPlace, Coherent, CursorSound, CursorLive;
    var t := s.(handles := s.handles[self := s.handles[self].(version := version)]);
    forall i {:trigger t.handles[i]} | 0 <= i < |t.handles|
      ensures HandleSound(t, t.handles[i])
      ensures care.Strict? && t.handles[i].node == t.arena.root ==> Holds(t, t.arena.root, t.handles[i].birth)
    {
      assert HandleSound(s, s.handles[i]);
    }
  }

  lemma NewNodeKeepsInv(care: Care, s: State, self: nat, kind: NodeType)
    requires Inv(care, s) && self < |s.handles|
    ensures Inv(care, NewNodeStep(s, self, kind))
  {
    hide BooksValid, RootInPlace, Coherent, KidMap, Allocated, NextId, HandleSound, CursorSound, Inv, IsStale;
    var h, a, id := s.handles[self], s.arena, NextId(s.arena);
    InvParts(care, s);
    if !IsStale(a, h.node, h.version) {
      var b := Allocated(a, kind);
      var version := if h.node in b.forms then b.version else h.version;
      NewNodeLawful(a, kind);
      RenewalKeepsInv(care, s, self, version);
      var u := s.(handles := s.handles[self := h.(version := version)]);
      BirthKeepsInv(care, u, b, id);
      var v := u.(arena := b, births := u.births[id := u.clock], clock := u.clock + 1);
      HandleKeepsInv(care, v, id);
    }
  }

  lemma CursorKeepsInv(care: Care, s: State, cursors: seq<Cursor>)
    requires Inv(care, s)
    requires forall i {:trigger cursors[i]} :: 0 <= i < |cursors| ==> CursorLive(s.arena, cursors[i])
    requires !care.Lax? ==>
               forall i {:trigger cursors[i]} :: 0 <= i < |cursors| ==> CursorSound(s.arena, cursors[i])
    ensures Inv(care, s.(cursors := cursors))
  {
    hide BooksValid, RootInPlace, Coherent, KidMap, CursorSound, CursorLive;
    var t := s.(cursors := cursors);
    forall i {:trigger t.handles[i]} | 0 <= i < |t.handles|
      ensures HandleSound(t, t.handles[i])
    {
      assert HandleSound(s, s.handles[i]);
    }
  }

  /** A handle that passes the check names a live node, or the root. */
  lemma LiveSelf(care: Care, s: State, h: nat)
    requires Inv(care, s) && h < |s.handles| && !StaleAt(s, h)
    ensures s.handles[h].node in s.arena.forms || (s.handles[h].node == s.arena.root && !care.Strict?)
  {
    assert HandleSound(s, s.handles[h]);
  }

  lemma InvParts(care: Care, s: State)
    requires Inv(care, s)
    ensures BooksValid(s.arena) && s.births.Keys == s.arena.forms.Keys
    ensures !care.Lax? ==> Coherent(s.arena)
    ensures care.Strict? ==> RootInPlace(s.arena)
  {
  }

  /** A move keeps what is kept at a level of care when it is fine there, and at the two ends only then. */
  lemma MoveKeepsInv(care: Care, s: State, self: nat, place: Place, child: nat)
    requires Inv(care, s) && self < |s.handles|
    requires care.Strict? && !StaleAt(s, self) ==> !AfterGone(s.arena.forms, place)
    ensures var h := s.handles[self];
            var t := WithEffect(s, self, MoveCall(s.arena, h.node, h.version, place, child));
            var fine := StaleAt(s, self) || MoveFine(care, s.arena, h.node, place, child);
            (fine ==> Inv(care, t)) && (Inv(care, t) && !care.Tidy? ==> fine)
  {
    hide Inv, MoveFine, Lawful, IsStale, MoveCall, BooksValid, RootInPlace, Coherent, Undisturbed, AfterGone;
    var h := s.handles[self];
    var e := MoveCall(s.arena, h.node, h.version, place, child);
    InvParts(care, s);
    if !StaleAt(s, self) {
      LiveSelf(care, s, self);
    }
    MoveLawful(s.arena, h.node, h.version, place, child);
    LessCare(care, s.arena, h.node, place, child);
    if care.Strict? {
      MoveRooted(s.arena, h.node, h.version, place, child);
    }
    if StaleAt(s, self) || MoveFine(care, s.arena, h.node, place, child) {
      if !care.Lax? {
        MoveUndisturbed(s.arena, h.node, h.version, place, child);
      }
      EffectKeepsInv(care, s, self, e);
    } else if Inv(care, WithEffect(s, self, e)) {
      InvParts(care, WithEffect(s, self, e));
    }
  }

  /** What is fine at one level is fine at every level below. */
  lemma LessCare(care: Care, a: Arena, node: nat, place: Place, child: nat)
    ensures MoveFine(care, a, node, place, child) ==> MoveFine(Lax, a, node, place, child)
    ensures MoveFine(care, a, node, place, child) && !care.Lax? ==> MoveFine(Tidy, a, node, place, child)
  {
    hide Keeps, CycleSeen;
  }

  /** A call keeps the invariant at a level of care when it is careful; and, but for panics that happen to
      disturb nobody, only then. */
  lemma StepKeepsInv(care: Care, s: State, op: Op)
    requires Inv(care, s) && InRange(s, op)
    ensures Careful(care, s, op) ==> Inv(care, Step(s, op))
    ensures Inv(care, Step(s, op)) && !care.Tidy? ==> Careful(care, s, op)
  {
    hide Inv, MoveFine, Lawful, WithEffect, IsStale, NewNodeStep, ChildStep, ParentStep, IterateStep, NextStep;
    hide Undisturbed, BooksValid, RootInPlace, Coherent;
    InvParts(care, s);
    var a := s.arena;
    match op
    case Append(h, c) =>
      MoveKeepsInv(care, s, h, Last, s.handles[c].node);
    case Prepend(h, c) =>
      MoveKeepsInv(care, s, h, First, s.handles[c].node);
    case InsertAfter(h, after, c) =>
      if !(after.Some? && StaleAt(s, after.value)) {
        if after.Some? {
          LiveSelf(care, s, after.value);
        }
        MoveKeepsInv(care, s, h, PlaceOf(s, after), s.handles[c].node);
      }
    case Remove(h) =>
      RemoveLawful(a, s.handles[h].node, s.handles[h].version);
      EffectKeepsInv(care, s, h, RemoveCall(a, s.handles[h].node, s.handles[h].version));
    case Extract(h) =>
      RemoveLawful(a, s.handles[h].node, s.handles[h].version);
      EffectKeepsInv(care, s, h, RemoveCall(a, s.handles[h].node, s.handles[h].version));
    case SetValue(h, value) =>
      SetValueLawful(a, s.handles[h].node, s.handles[h].version, value);
      EffectKeepsInv(care, s, h, SetValueCall(a, s.handles[h].node, s.handles[h].version, value));
    case NewNode(h, kind) =>
      NewNodeKeepsInv(care, s, h, kind);
    case Repr(h) =>
      ReprLawful(a, s.handles[h].node, s.handles[h].version);
      EffectKeepsInv(care, s, h, ReprCall(a, s.handles[h].node, s.handles[h].version));
    case _ =>
      LookupKeepsInv(care, s, op);
  }

  ghost predicate IsLookup(op: Op) {
    op.Child? || op.Parent? || op.Iterate? || op.Next?
  }

  lemma LookupKeepsInv(care: Care, s: State, op: Op)
    requires Inv(care, s) && InRange(s, op) && IsLookup(op)
    ensures Inv(care, Step(s, op)) && Step(s, op).arena == s.arena
  {
    hide Inv, ChildStep, ParentStep, IterateStep, NextStep;
    match op
    case Child(h, i) => ChildKeepsInv(care, s, h, i);
    case Parent(h) => ParentKeepsInv(care, s, h);
    case Iterate(h, tail) => IterateKeepsInv(care, s, h, tail);
    case Next(c) => NextKeepsInv(care, s, c);
  }

  lemma RowLives(a: Arena, p: nat, i: nat)
    requires BooksValid(a) && p in a.forms && i < |a.forms[p].kids|
    ensures a.forms[p].kids[i].id in a.forms && KidMap(a.forms)[p][i] == a.forms[p].kids[i].id
  {
    assert KidKnown(a.forms, p, i);
  }

  lemma ChildKeepsInv(care: Care, s: State, self: nat, i: nat)
    requires Inv(care, s) && self < |s.handles|
    ensures Inv(care, ChildStep(s, self, i)) && ChildStep(s, self, i).arena == s.arena
  {
    hide BooksValid, Coherent;
    var x := s.handles[self].node;
    if x in s.arena.forms && i < |s.arena.forms[x].kids| {
      RowLives(s.arena, x, i);
      HandleKeepsInv(care, s, s.arena.forms[x].kids[i].id);
    }
  }

  lemma ParentKeepsInv(care: Care, s: State, self: nat)
    requires Inv(care, s) && self < |s.handles|
    ensures Inv(care, ParentStep(s, self)) && ParentStep(s, self).arena == s.arena
  {
    var t := ParentStep(s, self);
    hide Inv;
    if t != s {
      HandleKeepsInv(care, s, t.handles[|s.handles|].node);
    }
  }

  lemma IterateKeepsInv(care: Care, s: State, self: nat, tail: bool)
    requires Inv(care, s) && self < |s.handles|
    ensures Inv(care, IterateStep(s, self, tail)) && IterateStep(s, self, tail).arena == s.arena
  {
    hide BooksValid, RootInPlace, Coherent, HandleSound;
    var a, x := s.arena, s.handles[self].node;
    if x in a.forms && a.forms[x].kids != [] {
      RowLives(a, x, 0);
      if |a.forms[x].kids| > 1 {
        RowLives(a, x, 1);
      }
    }
    var cursors := IterateStep(s, self, tail).cursors;
    forall i {:trigger cursors[i]} | 0 <= i < |cursors|
      ensures CursorLive(a, cursors[i])
    {
      assert i < |s.cursors| ==> CursorLive(a, s.cursors[i]);
    }
    CursorKeepsInv(care, s, cursors);
  }

  /** What is behind a node is what is behind it in its row. */
  lemma SiblingInRow(a: Arena, p: nat, i: nat)
    requires BooksValid(a) && p in a.forms && i < |a.forms[p].kids|
    ensures SiblingAfter(a.forms, a.forms[p].kids[i].id) == From(KidMap(a.forms)[p], i + 1)
  {
    var f := a.forms;
    var x := f[p].kids[i].id;
    assert Attached(f, x);
    RowIds(f, p);
    forall q, j | q in f && 0 <= j < |f[q].kids| && f[q].kids[j].id == x
      ensures q == p && j == i
    {
      assert SamePlace(f, p, i, q, j);
    }
  }

  lemma SiblingLives(a: Arena, x: nat)
    requires BooksValid(a) && SiblingAfter(a.forms, x).Some?
    ensures SiblingAfter(a.forms, x).value in a.forms
  {
    var f := a.forms;
    var p, i :| p in f && 0 <= i < |f[p].kids| && f[p].kids[i].id == x;
    SiblingInRow(a, p, i);
    RowLives(a, p, i + 1);
  }

  /** The due node comes out, and the iterator stands behind it in its row. */
  lemma AdvancedSound(a: Arena, it: Cursor)
    requires BooksValid(a) && CursorSound(a, it) && NextCall(a, it.next, it.version).Yields?
    ensures it.position < |it.row| && it.next == Some(it.row[it.position]) && it.next.value in a.forms
    ensures CursorSound(a, Advanced(a, it, it.next.value))
  {
    hide BooksValid, KidMap, SiblingAfter;
    RowIds(a.forms, it.parent);
    RowLives(a, it.parent, it.position);
    SiblingInRow(a, it.parent, it.position);
  }

  lemma NextKeepsInv(care: Care, s: State, c: nat)
    requires Inv(care, s) && c < |s.cursors|
    ensures Inv(care, NextStep(s, c)) && NextStep(s, c).arena == s.arena
  {
    hide BooksValid, RootInPlace, Coherent, HandleSound, CursorSound, SiblingAfter;
    var it := s.cursors[c];
    assert CursorLive(s.arena, it);
    if NextCall(s.arena, it.next, it.version).Yields? {
      var moved := Advanced(s.arena, it, it.next.value);
      if moved.next.Some? {
        SiblingLives(s.arena, it.next.value);
      }
      if !care.Lax? {
        AdvancedSound(s.arena, it);
      }
      var cursors := s.cursors[c := moved];
      CursorKeepsInv(care, s, cursors);
      HandleKeepsInv(care, s.(cursors := cursors), it.next.value);
    }
  }

  lemma FreshInv(a: Arena, births: map<nat, nat>, clock: nat)
    requires ArenaValid(a) && Coherent(a) && births.Keys == a.forms.Keys
    requires forall x :: x in births ==> births[x] < clock
    requires forall x, y :: x in births && y in births && births[x] == births[y] ==> x == y
    ensures a.root in births && Inv(Strict, Fresh(a, births, clock))
  {
  }

  lemma OpenedInv(a: Arena)
    requires ArenaValid(a) && Coherent(a)
    ensures a.root in a.forms && Inv(Strict, Opened(a))
  {
    hide Coherent;
    FreshInv(a, map x | x in a.forms :: x, a.size);
  }
}
