/** Whole runs of the machine: what its handles name, what `repr` returns and what its iterators give out,
    whatever calls came in between.

    Each theorem holds at every level of care from the one its `requires` names upwards.  At the lowest a
    run may move the root and may panic halfway, as long as the links still encode a forest. */
module Runs {
  import opened Wrappers
  import opened Rows
  import opened Forms
  import opened Edits
  import opened Arenas
  import opened Serializer
  import opened Handles
  import Atoms

  /** A sequence of calls on handles and iterators that are there when their turn comes. */
  ghost predicate Playable(s: State, ops: seq<Op>)
    decreases |ops|
  {
    ops == [] || (InRange(s, ops[0]) && Playable(Step(s, ops[0]), ops[1..]))
  }

  ghost function Run(s: State, ops: seq<Op>): State
    requires Playable(s, ops)
    decreases |ops|
  {
    if ops == [] then s else Run(Step(s, ops[0]), ops[1..])
  }

  /** A sequence of calls each of which is careful when its turn comes. */
  ghost predicate Runnable(care: Care, s: State, ops: seq<Op>): (r: bool)
    ensures r ==> Playable(s, ops)
    decreases |ops|
  {
    ops == [] || (Careful(care, s, ops[0]) && Runnable(care, Step(s, ops[0]), ops[1..]))
  }

  /** Does the invariant hold before, between and after all the calls? */
  ghost predicate InvThroughout(care: Care, s: State, ops: seq<Op>)
    decreases |ops|
  {
    Inv(care, s) && (ops == [] || (InRange(s, ops[0]) && InvThroughout(care, Step(s, ops[0]), ops[1..])))
  }

  /** The runs without a move that leaves no forest, and the runs without an unchecked move of any kind,
      are exactly those that never lose the invariant of their level. */
  lemma {:induction false} RunnableMeans(care: Care, s: State, ops: seq<Op>)
    requires Inv(care, s)
    ensures Runnable(care, s, ops) ==> InvThroughout(care, s, ops)
    ensures InvThroughout(care, s, ops) && !care.Tidy? ==> Runnable(care, s, ops)
    decreases |ops|
  {
    hide Inv, MoveFine, Step;
    if ops != [] && InRange(s, ops[0]) {
      StepKeepsInv(care, s, ops[0]);
      if Inv(care, Step(s, ops[0])) {
        RunnableMeans(care, Step(s, ops[0]), ops[1..]);
      } else {
        assert !InvThroughout(care, Step(s, ops[0]), ops[1..]);
      }
    }
  }

  lemma {:induction false} RunKeepsInv(care: Care, s: State, ops: seq<Op>)
    requires Inv(care, s) && Runnable(care, s, ops)
    ensures Inv(care, Run(s, ops))
    decreases |ops|
  {
    hide Inv, MoveFine, Step;
    if ops != [] {
      StepKeepsInv(care, s, ops[0]);
      RunKeepsInv(care, Step(s, ops[0]), ops[1..]);
    }
  }

  // ---------------------------------------------------------------- what no call forgets

  /** What is fixed about a handle when it is made: the slot it names and the allocation in it. */
  ghost predicate KeepsHandles(s: State, t: State) {
    |s.handles| <= |t.handles| &&
    forall i {:trigger t.handles[i]} {:trigger s.handles[i]} :: 0 <= i < |s.handles| ==>
      t.handles[i].node == s.handles[i].node && t.handles[i].birth == s.handles[i].birth
  }

  /** Stamps that are gone stay gone. */
  ghost predicate KeepsStamps(s: State, t: State) {
    s.clock <= t.clock &&
    forall x :: x in t.births ==> (x in s.births && t.births[x] == s.births[x]) || t.births[x] >= s.clock
  }

  ghost predicate Remembers(s: State, t: State) {
    && KeepsHandles(s, t) && KeepsStamps(s, t)
    && |s.cursors| <= |t.cursors| && t.arena.root == s.arena.root && s.arena.version <= t.arena.version
  }

  lemma StepRemembers(s: State, op: Op)
    requires InRange(s, op)
    ensures Remembers(s, Step(s, op))
  {
    hide CycleSeen, KidMap, Keeps, Moved, Removed, Detached, Attached, NodeText, SiblingAfter, LinksUnderNothing;
  }

  lemma {:induction false} RunRemembers(s: State, ops: seq<Op>)
    requires Playable(s, ops)
    ensures Remembers(s, Run(s, ops))
    decreases |ops|
  {
    hide Step;
    if ops != [] {
      StepRemembers(s, ops[0]);
      RunRemembers(Step(s, ops[0]), ops[1..]);
    }
  }

  // ---------------------------------------------------------------- which allocation a slot holds

  /** A removal or extraction at or above `x`, by a handle that is not stale and not the root's. */
  ghost predicate Frees(s: State, op: Op, x: nat)
    requires InRange(s, op)
  {
    (op.Remove? || op.Extract?) &&
    var h := s.handles[op.self];
    && h.version == s.arena.version && h.node != s.arena.root
    && h.node in s.arena.forms && x in Pre(s.arena.forms[h.node])
  }

  ghost predicate FreedAlong(s: State, ops: seq<Op>, x: nat)
    requires Playable(s, ops)
    decreases |ops|
  {
    ops != [] && (Frees(s, ops[0], x) || FreedAlong(Step(s, ops[0]), ops[1..], x))
  }

  lemma EffectFrees(s: State, self: nat, e: Effect, x: nat)
    requires self < |s.handles| && x in s.births
    ensures Holds(WithEffect(s, self, e), x, s.births[x]) <==> x in e.arena.forms
  {
  }

  lemma RemoveFrees(a: Arena, node: nat, version: nat, x: nat)
    requires BooksValid(a) && x in a.forms
    ensures var e := RemoveCall(a, node, version);
            x in e.arena.forms <==>
              !(version == a.version && node != a.root && node in a.forms && x in Pre(a.forms[node]))
  {
    hide BooksValid, RemoveCall, Pre, KidMap;
    RemoveMeans(a, node, version);
  }

  lemma MoveFreesNothing(a: Arena, node: nat, version: nat, place: Place, child: nat)
    requires IsStale(a, node, version) || MoveFine(Lax, a, node, place, child)
    ensures MoveCall(a, node, version, place, child).arena.forms.Keys == a.forms.Keys
  {
    hide CycleSeen, KidMap, Attached;
  }

  /** A slot keeps its allocation over a call exactly when the call does not free it. */
  lemma StepFrees(s: State, op: Op, x: nat)
    requires Inv(Lax, s) && Careful(Lax, s, op) && x in s.births
    ensures Holds(Step(s, op), x, s.births[x]) <==> !Frees(s, op, x)
  {
    hide Inv, MoveFine, MoveCall, RemoveCall, SetValueCall, ReprCall, WithEffect, IsStale, NewNodeStep, Pre;
    hide ChildStep, ParentStep, IterateStep, NextStep;
    InvParts(Lax, s);
    var a := s.arena;
    match op
    case Append(h, c) =>
      MoveFreesNothing(a, s.handles[h].node, s.handles[h].version, Last, s.handles[c].node);
      EffectFrees(s, h, MoveCall(a, s.handles[h].node, s.handles[h].version, Last, s.handles[c].node), x);
    case Prepend(h, c) =>
      MoveFreesNothing(a, s.handles[h].node, s.handles[h].version, First, s.handles[c].node);
      EffectFrees(s, h, MoveCall(a, s.handles[h].node, s.handles[h].version, First, s.handles[c].node), x);
    case InsertAfter(h, after, c) =>
      if !(after.Some? && StaleAt(s, after.value)) {
        var place := PlaceOf(s, after);
        MoveFreesNothing(a, s.handles[h].node, s.handles[h].version, place, s.handles[c].node);
        EffectFrees(s, h, MoveCall(a, s.handles[h].node, s.handles[h].version, place, s.handles[c].node), x);
      }
    case Remove(h) =>
      RemoveFrees(a, s.handles[h].node, s.handles[h].version, x);
      EffectFrees(s, h, RemoveCall(a, s.handles[h].node, s.handles[h].version), x);
    case Extract(h) =>
      RemoveFrees(a, s.handles[h].node, s.handles[h].version, x);
      EffectFrees(s, h, RemoveCall(a, s.handles[h].node, s.handles[h].version), x);
    case _ =>
      OthersFreeNothing(s, op, x);
  }

  lemma OthersFreeNothing(s: State, op: Op, x: nat)
    requires Inv(Lax, s) && InRange(s, op) && x in s.births && !IsMove(op) && !op.Remove? && !op.Extract?
    ensures Holds(Step(s, op), x, s.births[x])
  {
    hide Coherent, KidMap, Grown, Attached, NodeText, SiblingAfter;
    if op.NewNode? {
      AllocateValid(s.arena, op.kind);
    }
    hide BooksValid;
  }

  /** A slot that has lost an allocation never gets it back. */
  lemma StampGone(s: State, ops: seq<Op>, x: nat, birth: nat)
    requires Playable(s, ops) && birth < s.clock && !Holds(s, x, birth)
    ensures !Holds(Run(s, ops), x, birth)
  {
    RunRemembers(s, ops);
  }

  /** Over a run, slot `x` holds an old allocation at the end exactly when it did at the start and no call
      has freed it. */
  lemma {:induction false} KeptUnlessFreed(s: State, ops: seq<Op>, x: nat, birth: nat)
    requires Inv(Lax, s) && Runnable(Lax, s, ops) && birth < s.clock
    ensures Holds(Run(s, ops), x, birth) <==> Holds(s, x, birth) && !FreedAlong(s, ops, x)
    decreases |ops|
  {
    hide Inv, Step, Frees, MoveFine;
    if !Holds(s, x, birth) {
      StampGone(s, ops, x, birth);
    } else if ops != [] {
      StepKeepsInv(Lax, s, ops[0]);
      StepRemembers(s, ops[0]);
      StepFrees(s, ops[0], x);
      KeptUnlessFreed(Step(s, ops[0]), ops[1..], x, birth);
    }
  }

  // ---------------------------------------------------------------- handles

  lemma {:induction false} LaxRun(care: Care, s: State, ops: seq<Op>)
    requires Inv(care, s) && Runnable(care, s, ops)
    ensures Inv(Lax, s) && Runnable(Lax, s, ops)
    decreases |ops|
  {
    hide Step, MoveFine, Tracked, Current, Rooted;
    if ops != [] {
      CarefulLax(care, s, ops[0]);
      StepKeepsInv(care, s, ops[0]);
      LaxRun(care, Step(s, ops[0]), ops[1..]);
    }
  }

  lemma CarefulLax(care: Care, s: State, op: Op)
    requires Careful(care, s, op)
    ensures Careful(Lax, s, op)
  {
    hide MoveFine;
    if IsMove(op) {
      LessCare(care, s.arena, s.handles[op.self].node, PlaceFor(s, op), s.handles[op.child].node);
    }
  }

  /** After any run that leaves a forest, a handle that passes the staleness check names the very allocation
      it was made for, whatever was freed and reused in between, unless it is one of the root's.  A
      root's handle always passes, and names its own allocation exactly as long as no call has removed
      the root with a node above it; which no call does while the root is never moved. */
  lemma HandlesNeverAlias(care: Care, s: State, ops: seq<Op>, h: nat)
    requires Inv(care, s) && Runnable(care, s, ops) && h < |s.handles|
    ensures var t, c := Run(s, ops), s.handles[h];
            && h < |t.handles| && t.handles[h].node == c.node && t.handles[h].birth == c.birth
            && (Holds(t, c.node, c.birth) <==> Holds(s, c.node, c.birth) && !FreedAlong(s, ops, c.node))
            && (Holds(t, c.node, c.birth) ==> c.node in t.arena.forms)
            && (c.node != s.arena.root ==> (!StaleAt(t, h) ==> Holds(t, c.node, c.birth)))
            && (c.node == s.arena.root ==> !StaleAt(t, h))
            && (care.Strict? && c.node == s.arena.root ==> Holds(t, c.node, c.birth))
  {
    hide BooksValid, RootInPlace, Current, Step, FreedAlong, Careful;
    LaxRun(care, s, ops);
    RunKeepsInv(care, s, ops);
    RunRemembers(s, ops);
    assert HandleSound(s, s.handles[h]);
    assert HandleSound(Run(s, ops), Run(s, ops).handles[h]);
    KeptUnlessFreed(s, ops, s.handles[h].node, s.handles[h].birth);
  }

  ghost predicate IsMove(op: Op) {
    op.Append? || op.Prepend? || op.InsertAfter?
  }

  ghost function PlaceFor(s: State, op: Op): Place
    requires InRange(s, op) && IsMove(op)
  {
    if op.Append? then Last else if op.Prepend? then First else PlaceOf(s, op.after)
  }

  /** Does the slot that a move call would move hold the allocation its `child` handle was made for? */
  ghost predicate MovesOwn(s: State, op: Op)
    requires InRange(s, op) && IsMove(op)
  {
    Holds(s, s.handles[op.child].node, s.handles[op.child].birth)
  }

  /** The unchecked `child` argument: a move that succeeds, even one that leaves no forest, moves whatever its
      slot holds.  That is the child's own allocation exactly when it was there before the run and nothing
      has freed it since; and always when the handle would have passed the staleness check, but for a
      root's handle once the root may be moved. */
  lemma MovedAllocation(care: Care, s: State, ops: seq<Op>, op: Op)
    requires Inv(care, s) && Runnable(care, s, ops) && InRange(Run(s, ops), op)
    requires IsMove(op) && op.child < |s.handles|
    ensures var t, c := Run(s, ops), s.handles[op.child];
            && (Step(t, op).arena.version != t.arena.version ==>
                  && t.handles[op.self].node in t.arena.forms && c.node in t.arena.forms
                  && Step(t, op).arena == Relinked(t.arena, t.handles[op.self].node, PlaceFor(t, op), c.node))
            && (MovesOwn(t, op) <==> Holds(s, c.node, c.birth) && !FreedAlong(s, ops, c.node))
            && (!StaleAt(t, op.child) && (c.node != s.arena.root || care.Strict?) ==> MovesOwn(t, op))
  {
    hide Inv, FreedAlong, Relinked, MoveFine;
    HandlesNeverAlias(care, s, ops, op.child);
    if Step(Run(s, ops), op).arena.version != Run(s, ops).arena.version {
      MoveRelinks(Run(s, ops), op);
    }
    hide Step, Run;
  }

  lemma MoveRelinks(s: State, op: Op)
    requires InRange(s, op) && IsMove(op) && Step(s, op).arena.version != s.arena.version
    ensures var p, x := s.handles[op.self].node, s.handles[op.child].node;
            p in s.arena.forms && x in s.arena.forms && Step(s, op).arena == Relinked(s.arena, p, PlaceFor(s, op), x)
  {
    hide CycleSeen, Relinked, Attached;
  }

  /** Once its allocation has been freed, a handle never names it again: it is stale for ever, unless it is
      one of the root's, and those are not freed while the root is never moved. */
  lemma FreedMeansStale(care: Care, s: State, ops: seq<Op>, h: nat)
    requires Inv(care, s) && Runnable(care, s, ops) && h < |s.handles|
    requires !Holds(s, s.handles[h].node, s.handles[h].birth)
    ensures var t, c := Run(s, ops), s.handles[h];
            && h < |t.handles| && !Holds(t, c.node, c.birth)
            && (StaleAt(t, h) <==> c.node != s.arena.root) && (care.Strict? ==> StaleAt(t, h))
  {
    hide Inv, Step, FreedAlong, Careful;
    HandlesNeverAlias(care, s, ops, h);
  }

  /** After any tidy run, `repr` of a handle that passes the check is the empty string for an empty bare root
      and the serialization of its node otherwise, cached or not; and the node is there, unless it is a
      root that may be moved. */
  lemma ReprAlwaysFresh(care: Care, s: State, ops: seq<Op>, h: nat)
    requires Inv(care, s) && Runnable(care, s, ops) && h < |Run(s, ops).handles| && !care.Lax?
    ensures var t := Run(s, ops);
            var x := t.handles[h].node;
            !StaleAt(t, h) ==>
              && (x != t.arena.root || care.Strict? ==> x in t.arena.forms)
              && (x in t.arena.forms ==>
                    var bare := t.arena.bare && x == t.arena.root && t.arena.forms[x].kids == [];
                    ReprText(t.arena, x) == if bare then [] else Text(Abs(t.arena.forms[x])))
  {
    hide Inv, Runnable, IsStale, ReprText, BooksValid, Coherent;
    RunKeepsInv(care, s, ops);
    var t := Run(s, ops);
    InvParts(care, t);
    if !StaleAt(t, h) {
      LiveSelf(care, t, h);
    }
    ReprLawful(t.arena, t.handles[h].node, t.handles[h].version);
  }

  // ---------------------------------------------------------------- iterators

  /** How often iterator `c` is asked for its next node while the version is still its own. */
  ghost function AskedInTime(s: State, ops: seq<Op>, c: nat): nat
    requires Playable(s, ops) && c < |s.cursors|
    decreases |ops|
  {
    if ops == [] then 0
    else
      StepRemembers(s, ops[0]);
      (if ops[0] == Op.Next(c) && s.cursors[c].version == s.arena.version then 1 else 0) +
      AskedInTime(Step(s, ops[0]), ops[1..], c)
  }

  ghost function Asked(ops: seq<Op>, c: nat): nat {
    if ops == [] then 0 else (if ops[0] == Op.Next(c) then 1 else 0) + Asked(ops[1..], c)
  }

  ghost function Least(m: nat, n: nat): nat {
    if m < n then m else n
  }

  /** Only its own `next`, asked in time, moves an iterator that has something left. */
  lemma StepCursor(s: State, op: Op, c: nat)
    requires Current(s) && InRange(s, op) && c < |s.cursors|
    ensures c < |Step(s, op).cursors|
    ensures var it, u := s.cursors[c], Step(s, op).cursors[c];
            && u.parent == it.parent && u.row == it.row && u.start == it.start && u.version == it.version
            && it.position <= |it.row|
            && u.position == if op == Op.Next(c) && it.version == s.arena.version then Least(|it.row|, it.position + 1)
                             else it.position
  {
    hide Coherent, KidMap, MoveCall, RemoveCall, SetValueCall, ReprCall, Allocated, IsStale, Attached, SiblingAfter;
    assert CursorSound(s.arena, s.cursors[c]);
  }

  /** Over any tidy run an iterator keeps its row and advances once for each call made before the version
      moved, to the end of the row at most. */
  lemma {:induction false} RunCursor(s: State, ops: seq<Op>, c: nat)
    requires Inv(Tidy, s) && Runnable(Tidy, s, ops) && c < |s.cursors|
    ensures c < |Run(s, ops).cursors|
    ensures var was, it := s.cursors[c], Run(s, ops).cursors[c];
            && it.parent == was.parent && it.row == was.row && it.start == was.start && it.version == was.version
            && it.position == Least(|was.row|, was.position + AskedInTime(s, ops, c))
    decreases |ops|
  {
    hide Tracked, Coherent, CursorSound, Step, MoveFine;
    CursorInRow(s, c);
    if ops != [] {
      StepCursor(s, ops[0], c);
      StepKeepsInv(Tidy, s, ops[0]);
      RunCursor(Step(s, ops[0]), ops[1..], c);
    }
  }

  lemma CursorInRow(s: State, c: nat)
    requires Current(s) && c < |s.cursors|
    ensures s.cursors[c].start <= s.cursors[c].position <= |s.cursors[c].row|
  {
    assert CursorSound(s.arena, s.cursors[c]);
  }

  /** After any tidy run, what an iterator has given out is its row from where it started to where it
      stands; and the next call says that it is exhausted, or else that the version has moved, or else
      gives the node that is due, whose row is then still the current one. */
  lemma CursorsNeverStray(s: State, ops: seq<Op>, c: nat)
    requires Inv(Tidy, s) && Runnable(Tidy, s, ops) && c < |s.cursors|
    ensures c < |Run(s, ops).cursors|
    ensures var t, was, it := Run(s, ops), s.cursors[c], Run(s, ops).cursors[c];
            && it.row == was.row && was.start <= it.position
            && it.position == Least(|was.row|, was.position + AskedInTime(s, ops, c))
            && it.yielded == was.row[was.start..it.position]
            && NextCall(t.arena, it.next, it.version) == (if it.position == |was.row| then Exhausted
                                                          else if t.arena.version != was.version then StaleIterator
                                                          else Yields(was.row[it.position]))
            && (t.arena.version == was.version ==>
                  was.parent in t.arena.forms && was.row == KidMap(t.arena.forms)[was.parent])
  {
    hide Tracked, Coherent, Step, KidMap, MoveFine;
    RunKeepsInv(Tidy, s, ops);
    RunCursor(s, ops, c);
    assert CursorSound(Run(s, ops).arena, Run(s, ops).cursors[c]);
  }

  /** As long as the version has not moved, every call counts. */
  lemma {:induction false} UnmovedAsked(s: State, ops: seq<Op>, c: nat)
    requires Playable(s, ops) && c < |s.cursors|
    requires s.cursors[c].version <= s.arena.version
    ensures Run(s, ops).arena.version == s.cursors[c].version ==> AskedInTime(s, ops, c) == Asked(ops, c)
    decreases |ops|
  {
    hide Step;
    RunRemembers(s, ops);
    if ops != [] {
      StepRemembers(s, ops[0]);
      RunRemembers(Step(s, ops[0]), ops[1..]);
      StepCursorVersion(s, ops[0], c);
      UnmovedAsked(Step(s, ops[0]), ops[1..], c);
    }
  }

  lemma StepCursorVersion(s: State, op: Op, c: nat)
    requires InRange(s, op) && c < |s.cursors|
    ensures c < |Step(s, op).cursors| && Step(s, op).cursors[c].version == s.cursors[c].version
  {
    hide MoveCall, RemoveCall, SetValueCall, ReprCall, Allocated, IsStale, Attached, SiblingAfter, KidMap;
  }

  /** An iterator that is asked often enough with the version unmoved gives out its whole row. */
  lemma FullIteration(s: State, ops: seq<Op>, c: nat)
    requires Inv(Tidy, s) && Runnable(Tidy, s, ops) && c < |s.cursors|
    requires Run(s, ops).arena.version == s.cursors[c].version
    ensures c < |Run(s, ops).cursors|
    ensures var t, was, it := Run(s, ops), s.cursors[c], Run(s, ops).cursors[c];
            && it.yielded == was.row[was.start..Least(|was.row|, was.position + Asked(ops, c))]
            && (NextCall(t.arena, it.next, it.version) == Exhausted <==> it.yielded == was.row[was.start..])
            && (NextCall(t.arena, it.next, it.version) == Exhausted <==>
                  was.position + Asked(ops, c) >= |was.row|)
  {
    hide Tracked, Coherent, Step, KidMap, Runnable, Run, NextCall, MoveFine;
    CursorsNeverStray(s, ops, c);
    assert CursorSound(s.arena, s.cursors[c]);
    UnmovedAsked(s, ops, c);
    CursorInRow(s, c);
    var was, it := s.cursors[c], Run(s, ops).cursors[c];
    assert |it.yielded| == it.position - was.start && |was.row[was.start..]| == |was.row| - was.start;
  }

  // ---------------------------------------------------------------- what a step changes

  lemma SameBirths(s: State, self: nat, e: Effect)
    requires self < |s.handles| && s.births.Keys == s.arena.forms.Keys == e.arena.forms.Keys
    ensures WithEffect(s, self, e).births == s.births
    ensures e.version == s.handles[self].version ==> WithEffect(s, self, e).handles == s.handles
  {
  }

  lemma SameHandles(s: State, self: nat, e: Effect)
    requires self < |s.handles| && e.version == s.handles[self].version
    ensures WithEffect(s, self, e).handles == s.handles
  {
  }

  /** A move step is a move call, unless the handle of `after` is stale. */
  lemma MoveStepIs(s: State, op: Op)
    requires InRange(s, op) && IsMove(op)
    ensures var h := s.handles[op.self];
            Step(s, op) ==
            if op.InsertAfter? && op.after.Some? && StaleAt(s, op.after.value) then s
            else WithEffect(s, op.self,
                            MoveCall(s.arena, h.node, h.version, PlaceFor(s, op), s.handles[op.child].node))
  {
    hide MoveCall, WithEffect;
  }

  /** A move as a step: when it happens, and what is then different.  Where it does not happen nothing is,
      but for what a panic halfway through `insert_after` leaves. */
  lemma MoveStepMeans(s: State, op: Op)
    requires Inv(Lax, s) && InRange(s, op) && IsMove(op)
    ensures var t, a, h := Step(s, op), s.arena, s.handles[op.self];
            var f, p, c := a.forms, s.handles[op.self].node, s.handles[op.child].node;
            var behind := op.InsertAfter? && op.after.Some?;
            var x := if behind then s.handles[op.after.value].node else c;
            var stale := (p != a.root && h.version != a.version) ||
                         (behind && x != a.root && s.handles[op.after.value].version != a.version);
            var loops := c in f && if Attached(f, c) then p in Pre(f[c]) else p == c;
            var happens := !stale && p in f && c in f && x in f && !loops;
            && t.cursors == s.cursors && t.clock == s.clock && t.arena.root == a.root
            && t.arena.version == (if happens then a.version + 1 else a.version)
            && (stale || (!happens && !behind) ==> t == s)
            && t.handles == (if happens then s.handles[op.self := h.(version := a.version + 1)] else s.handles)
            && (happens && p !in Pre(f[c]) && (behind ==> x != c && x in KidMap(f)[p]) ==>
                  var g, row := t.arena.forms, Without(KidMap(f)[p], c);
                  && t.arena == a.(forms := g, version := a.version + 1) && t.births == s.births
                  && Rearranged(f, g, p, c)
                  && (op.Append? ==> KidMap(g)[p] == row + [c])
                  && (op.Prepend? || (op.InsertAfter? && !behind) ==> KidMap(g)[p] == [c] + row)
                  && (behind ==> BehindIn(KidMap(g)[p], row, x, c)))
  {
    hide BooksValid, MoveCall, Attached, Pre, KidMap, Without, BehindIn, WellFormed, Step, Tracked;
    var h, c := s.handles[op.self], s.handles[op.child].node;
    var e := MoveCall(s.arena, h.node, h.version, PlaceFor(s, op), c);
    InvParts(Lax, s);
    MoveStepIs(s, op);
    MoveMeans(s.arena, h.node, h.version, PlaceFor(s, op), c);
    if e.version == h.version {
      SameHandles(s, op.self, e);
    }
    if e.arena.forms.Keys == s.arena.forms.Keys {
      SameBirths(s, op.self, e);
    }
  }

  /** A removal or extraction as a step. */
  lemma RemoveStepMeans(s: State, op: Op)
    requires Inv(Lax, s) && InRange(s, op) && (op.Remove? || op.Extract?)
    ensures var t, a, x, f := Step(s, op), s.arena, s.handles[op.self].node, s.arena.forms;
            var happens := x != a.root && s.handles[op.self].version == a.version;
            && (happens ==> x in f) && (!happens ==> t == s)
            && (happens ==>
                  var g := t.arena.forms;
                  && t == s.(arena := t.arena, births := t.births)
                  && t.arena == a.(forms := g, free := a.free + Pre(f[x]), version := a.version + 1)
                  && g.Keys == f.Keys - (set y | y in Pre(f[x]))
                  && (forall q :: q in g ==> g[q].kind == f[q].kind && KidMap(g)[q] == Without(KidMap(f)[q], x))
                  && t.births == map q | q in s.births && q !in Pre(f[x]) :: s.births[q])
  {
    hide BooksValid, RemoveCall, Pre, KidMap, Without;
    var h := s.handles[op.self];
    InvParts(Lax, s);
    assert HandleSound(s, h);
    RemoveMeans(s.arena, h.node, h.version);
    var e := RemoveCall(s.arena, h.node, h.version);
    if e.arena == s.arena {
      SameBirths(s, op.self, e);
    }
  }

  /** Setting a value as a step. */
  lemma SetValueStepMeans(s: State, op: Op)
    requires Inv(Lax, s) && InRange(s, op) && op.SetValue?
    ensures var t, a, x, f := Step(s, op), s.arena, s.handles[op.self].node, s.arena.forms;
            var happens := (x == a.root || s.handles[op.self].version == a.version) && x in f && f[x].kind.Atom?;
            && (!happens ==> t == s)
            && (happens ==>
                  var g := t.arena.forms;
                  && t == s.(arena := a.(forms := g, cache := None),
                             handles := s.handles[op.self := s.handles[op.self].(version := a.version)])
                  && g.Keys == f.Keys && KidMap(g) == KidMap(f)
                  && g[x].kind.Atom? && Atoms.AsStr(g[x].kind.atom) == op.value
                  && forall q :: q in f && q != x ==> g[q].kind == f[q].kind)
  {
    hide BooksValid, SetValueCall, KidMap;
    var h := s.handles[op.self];
    InvParts(Lax, s);
    SetValueMeans(s.arena, h.node, h.version, op.value);
    SameBirths(s, op.self, SetValueCall(s.arena, h.node, h.version, op.value));
  }

  /** A new node as a step: a leaf of the kind asked for, in a slot that was empty, with a handle and a stamp
      of its own. */
  lemma NewNodeStepMeans(s: State, op: Op)
    requires Inv(Lax, s) && InRange(s, op) && op.NewNode?
    ensures var t, a, h := Step(s, op), s.arena, s.handles[op.self];
            var happens := h.node == a.root || h.version == a.version;
            && (!happens ==> t == s)
            && (happens ==>
                  && |t.handles| == |s.handles| + 1
                  && var id := t.handles[|s.handles|].node;
                     && id !in a.forms && t.handles[|s.handles|] == Handle(id, a.version, s.clock)
                     && t.arena.forms == a.forms[id := Form(id, op.kind, [])] && t.arena.version == a.version
                     && t.births == s.births[id := s.clock] && t.clock == s.clock + 1 && t.cursors == s.cursors)
  {
    hide BooksValid, NextId;
    var h := s.handles[op.self];
    InvParts(Lax, s);
    NewNodeMeans(s.arena, h.node, h.version, op.kind);
  }

  /** Looking up a child, the parent, or a row to iterate over changes nothing but for one handle or iterator
      more, and that exactly when there is something to find. */
  lemma LookupStepMeans(s: State, op: Op)
    requires Inv(Lax, s) && InRange(s, op) && (op.Child? || op.Parent? || op.Iterate?)
    ensures var t, f, h := Step(s, op), s.arena.forms, s.handles[op.self];
            var x, n := h.node, |s.handles|;
            var usable := (x == s.arena.root || h.version == s.arena.version) && x in f;
            && t == s.(handles := t.handles, cursors := t.cursors)
            && (op.Child? ==>
                  && t.cursors == s.cursors
                  && if usable && op.index < |f[x].kids| then
                    var id := f[x].kids[op.index].id;
                    id in s.births && t.handles == s.handles + [Handle(id, s.arena.version, s.births[id])]
                  else t.handles == s.handles)
            && (op.Parent? ==>
                  && t.cursors == s.cursors
                  && if usable && Attached(f, x) then
                    && |t.handles| == n + 1 && t.handles[..n] == s.handles
                    && var p := t.handles[n].node;
                       && p in f && p in s.births && x in KidMap(f)[p]
                       && t.handles[n] == Handle(p, s.arena.version, s.births[p])
                  else t.handles == s.handles)
            && (op.Iterate? ==>
                  && t.handles == s.handles
                  && if usable then
                    var row := KidMap(f)[x];
                    var i := if op.tail && row != [] then 1 else 0;
                    var next := if i < |row| then Some(row[i]) else None;
                    t.cursors == s.cursors + [Cursor(next, s.arena.version, x, row, i, i, [])]
                  else t.cursors == s.cursors)
  {
    InvParts(Lax, s);
    hide Tracked;
    var f, x := s.arena.forms, s.handles[op.self].node;
    if op.Child? && x in f && op.index < |f[x].kids| {
      RowLives(s.arena, x, op.index);
    }
    if op.Parent? && Attached(f, x) {
      AttachedLives(s.arena, x);
    }
  }

  lemma AttachedLives(a: Arena, x: nat)
    requires BooksValid(a) && Attached(a.forms, x)
    ensures x in a.forms
    ensures forall p, i :: p in a.forms && 0 <= i < |a.forms[p].kids| && a.forms[p].kids[i].id == x ==>
              x in KidMap(a.forms)[p]
  {
    var q, j :| q in a.forms && 0 <= j < |a.forms[q].kids| && a.forms[q].kids[j].id == x;
    RowLives(a, q, j);
    forall p, i | p in a.forms && 0 <= i < |a.forms[p].kids| && a.forms[p].kids[i].id == x
      ensures x in KidMap(a.forms)[p]
    {
      assert KidMap(a.forms)[p][i] == x;
    }
  }

  // ---------------------------------------------------------------- which handles a call leaves valid

  /** A move that succeeds makes every handle stale except the root's and the caller's own. */
  lemma MovesOutdateOthers(s: State, op: Op, h: nat)
    requires Inv(Lax, s) && InRange(s, op) && IsMove(op) && h < |s.handles|
    ensures Step(s, op).arena.version != s.arena.version ==>
              (StaleAt(Step(s, op), h) <==> s.handles[h].node != s.arena.root && h != op.self)
  {
    hide BooksValid, KidMap, CycleSeen, Keeps, Moved, Detached, Attached;
    assert HandleSound(s, s.handles[h]);
  }

  /** A removal makes every handle stale except the root's, the caller's own included. */
  lemma RemovalOutdatesAll(s: State, op: Op, h: nat)
    requires Inv(Lax, s) && InRange(s, op) && (op.Remove? || op.Extract?) && h < |s.handles|
    ensures Step(s, op).arena.version != s.arena.version ==>
              (StaleAt(Step(s, op), h) <==> s.handles[h].node != s.arena.root)
  {
    hide BooksValid, KidMap, Arenas.Remove;
    InvParts(Lax, s);
    var self := s.handles[op.self].node;
    if self in s.arena.forms {
      SelfFreed(s.arena, self);
    }
    assert HandleSound(s, s.handles[h]);
  }

  lemma SelfFreed(a: Arena, node: nat)
    requires BooksValid(a) && node in a.forms
    ensures var b := Arenas.Remove(a, node);
            node !in b.forms && b.root == a.root
  {
    assert Pre(a.forms[node])[0] == node;
    RemoveValid(a, node);
  }

  /** Every other call leaves every valid handle valid. */
  lemma QuietCalls(s: State, op: Op, h: nat)
    requires Inv(Lax, s) && InRange(s, op) && h < |s.handles| && !StaleAt(s, h)
    requires !IsMove(op) && !op.Remove? && !op.Extract?
    ensures h < |Step(s, op).handles| && !StaleAt(Step(s, op), h)
  {
    hide BooksValid, KidMap, Attached, Grown, Rekinded, NodeText, SiblingAfter;
  }
}
