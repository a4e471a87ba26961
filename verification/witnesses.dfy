/** Concrete runs of the machine: the unchecked calls, and what they do to a new tree. */
module Witnesses {
  import opened Wrappers
  import opened Forms
  import opened Edits
  import opened Arenas
  import opened Handles
  import opened Runs
  import Slabs

  /** A new tree with its root handle, before any call. */
  ghost function Start(): State {
    Opened(Arena(map[0 := Leaf(0)], 1, [], 0, 0, false, None))
  }

  ghost function Leaf(x: nat): Form {
    Form(x, List, [])
  }

  ghost function Over(x: nat, y: nat): Form {
    Form(x, List, [Leaf(y)])
  }

  ghost function StateOf(
    forms: Forest, size: nat, free: seq<nat>, version: nat, births: map<nat, nat>, clock: nat, handles: seq<Handle>)
    : State
  {
    State(Arena(forms, size, free, 0, version, false, None), births, clock, handles, [])
  }

  ghost predicate OnlyLeaves(f: Forest) {
    forall x :: x in f ==> f[x] == Leaf(x)
  }

  ghost function Leaves(ys: seq<nat>): (ts: seq<Form>)
    ensures |ts| == |ys| && forall i :: 0 <= i < |ys| ==> ts[i] == Leaf(ys[i])
  {
    if ys == [] then [] else [Leaf(ys[0])] + Leaves(ys[1..])
  }

  /** All lists are empty but `p`, which holds the lists `ys`. */
  ghost predicate Shallow(f: Forest, p: nat, ys: seq<nat>) {
    p in f && f[p] == Form(p, List, Leaves(ys)) && forall x :: x in f && x != p ==> f[x] == Leaf(x)
  }

  lemma {:induction false} LeavesPre(ys: seq<nat>)
    ensures PreAll(Leaves(ys)) == ys
  {
    if ys != [] {
      LeavesPre(ys[1..]);
      assert Leaves(ys)[1..] == Leaves(ys[1..]);
      assert Pre(Leaf(ys[0])) == [ys[0]];
    }
  }

  /** One empty list hung under another as its last child. */
  lemma LeafLast(f: Forest, p: nat, ys: seq<nat>, c: nat)
    requires Shallow(f, p, ys) && c in f && p != c && p !in ys && c !in ys
    ensures !CycleSeen(f, p, c) && Keeps(f, p, Last, c)
    ensures Moved(f, p, Last, c) == f[p := Form(p, List, Leaves(ys + [c]))]
  {
    assert !Attached(f, c);
    assert Pre(f[c]) == [c];
    LastLeaf(p, ys, c);
    hide Cut, Insert, Leaves;
    forall x | x in f
      ensures Detached(f, c)[x] == f[x]
    {
      OtherLeaf(x, p, c);
    }
    assert Detached(f, c) == f;
    forall x | x in f
      ensures Moved(f, p, Last, c)[x] == f[p := Form(p, List, Leaves(ys + [c]))][x]
    {
      OtherLeaf(x, p, c);
    }
  }

  lemma OtherLeaf(x: nat, p: nat, c: nat)
    ensures Cut(Leaf(x), c) == Leaf(x)
    ensures x != p ==> Insert(Leaf(x), p, Last, Leaf(c)) == Leaf(x)
  {
  }

  lemma LastLeaf(p: nat, ys: seq<nat>, c: nat)
    requires p !in ys && c !in ys
    ensures var t := Form(p, List, Leaves(ys));
            Cut(t, c) == t && Insert(t, p, Last, Leaf(c)) == Form(p, List, Leaves(ys + [c]))
  {
    var t := Form(p, List, Leaves(ys));
    LeavesPre(ys);
    CutElsewhere(t, c);
    InsertAllElsewhere(t.kids, p, Last, Leaf(c));
    assert Leaves(ys + [c]) == Leaves(ys) + [Leaf(c)];
  }

  /** A pair of a list and the empty list below it. */
  lemma OverLeaf(f: Forest, p: nat, c: nat)
    requires p in f && c in f && p != c && f[p] == Over(p, c) && f[c] == Leaf(c)
    ensures Attached(f, c) && Pre(f[c]) == [c] && Pre(f[p]) == [p, c]
    ensures KidMap(f)[p] == [c]
  {
    assert f[p].kids[0].id == c;
    assert PreAll([Leaf(c)]) == Pre(Leaf(c)) + PreAll([]);
  }

  // ---------------------------------------------------------------- single calls

  lemma RunNone(care: Care, s: State)
    ensures Runnable(care, s, []) && Run(s, []) == s
  {
  }

  lemma RunCons(care: Care, s: State, op: Op, ops: seq<Op>)
    requires Careful(care, s, op) && Runnable(care, Step(s, op), ops)
    ensures Runnable(care, s, [op] + ops) && Run(s, [op] + ops) == Run(Step(s, op), ops)
  {
    hide Step, Careful;
    assert ([op] + ops)[1..] == ops;
  }

  /** A list made through the root handle takes slot `id`, whether or not the root is still there. */
  lemma MakeList(s: State, id: nat)
    requires |s.handles| > 0 && s.handles[0].node == s.arena.root && id == NextId(s.arena)
    ensures forall care :: Careful(care, s, Op.NewNode(0, List))
    ensures var a := s.arena;
            var snapshot := if a.root in a.forms || a.root == id then a.version else s.handles[0].version;
            Step(s, Op.NewNode(0, List)) ==
            s.(arena := a.(forms := a.forms[id := Leaf(id)], free := Slabs.PopFree(a.free),
                           size := if id < a.size then a.size else a.size + 1),
               births := s.births[id := s.clock], clock := s.clock + 1,
               handles := s.handles[0 := s.handles[0].(version := snapshot)] + [Handle(id, a.version, s.clock)])
  {
  }

  /** An empty list hung under another through a valid handle. */
  lemma HangLast(s: State, h: nat, c: nat, ys: seq<nat>)
    requires h < |s.handles| && c < |s.handles| && !StaleAt(s, h) && s.births.Keys == s.arena.forms.Keys
    requires var p, x := s.handles[h].node, s.handles[c].node;
             Shallow(s.arena.forms, p, ys) && x in s.arena.forms && p != x && p !in ys && x !in ys
    ensures var a, p, x := s.arena, s.handles[h].node, s.handles[c].node;
            && Careful(Tidy, s, Op.Append(h, c)) && (Careful(Strict, s, Op.Append(h, c)) <==> x != a.root)
            && Step(s, Op.Append(h, c)) ==
               s.(arena := a.(forms := a.forms[p := Form(p, List, Leaves(ys + [x]))], version := a.version + 1),
                  handles := s.handles[h := s.handles[h].(version := a.version + 1)])
  {
    hide Keeps, CycleSeen, Moved, Leaves;
    LeafLast(s.arena.forms, s.handles[h].node, ys, s.handles[c].node);
    assert (map x | x in s.births :: s.births[x]) == s.births;
  }

  lemma HangList(s: State, h: nat, c: nat)
    requires h < |s.handles| && c < |s.handles| && !StaleAt(s, h) && s.births.Keys == s.arena.forms.Keys
    requires OnlyLeaves(s.arena.forms) && s.handles[h].node in s.arena.forms && s.handles[c].node in s.arena.forms
    requires s.handles[h].node != s.handles[c].node
    ensures var a, p, x := s.arena, s.handles[h].node, s.handles[c].node;
            && Careful(Tidy, s, Op.Append(h, c)) && (Careful(Strict, s, Op.Append(h, c)) <==> x != a.root)
            && Step(s, Op.Append(h, c)) ==
               s.(arena := a.(forms := a.forms[p := Over(p, x)], version := a.version + 1),
                  handles := s.handles[h := s.handles[h].(version := a.version + 1)])
  {
    hide CycleSeen, Keeps, Moved;
    var x := s.handles[c].node;
    assert Leaves([]) == [] && [] + [x] == [x] && Leaves([x]) == [Leaf(x)];
    HangLast(s, h, c, []);
  }

  /** The only child looked up. */
  lemma LookUp(s: State, h: nat, c: nat)
    requires h < |s.handles| && !StaleAt(s, h) && s.handles[h].node in s.arena.forms && c in s.births
    requires s.arena.forms[s.handles[h].node] == Over(s.handles[h].node, c)
    ensures Careful(Strict, s, Op.Child(h, 0))
    ensures Step(s, Op.Child(h, 0)) ==
            s.(handles := s.handles + [Handle(c, s.arena.version, s.births[c])])
  {
  }

  ghost function HungOps(): seq<Op> {
    [Op.NewNode(0, List), Op.Append(0, 1), Op.Child(0, 0)]
  }

  ghost function Hung(): State {
    StateOf(map[0 := Over(0, 1), 1 := Leaf(1)], 2, [], 1, map[0 := 0, 1 := 1], 2,
       [Handle(0, 1, 0), Handle(1, 0, 1), Handle(1, 1, 1)])
  }

  /** The first three calls of two of the runs: a list is made, hung below the root and looked up. */
  lemma HungReached(ops: seq<Op>)
    requires Runnable(Strict, Hung(), ops)
    ensures Runnable(Strict, Start(), HungOps() + ops) && Run(Start(), HungOps() + ops) == Run(Hung(), ops)
  {
    hide Step, Careful, Run, Runnable, OnlyLeaves;
    var f: Forest := map[0 := Leaf(0), 1 := Leaf(1)];
    var s1 := StateOf(f, 2, [], 0, map[0 := 0, 1 := 1], 2, [Handle(0, 0, 0), Handle(1, 0, 1)]);
    var s2 := StateOf(f[0 := Over(0, 1)], 2, [], 1, map[0 := 0, 1 := 1], 2, [Handle(0, 1, 0), Handle(1, 0, 1)]);
    assert Step(Start(), Op.NewNode(0, List)) == s1 && Careful(Strict, Start(), Op.NewNode(0, List)) by {
      MakeList(Start(), 1);
    }
    assert OnlyLeaves(f) by { Leaves2(); }
    assert Step(s1, Op.Append(0, 1)) == s2 && Careful(Strict, s1, Op.Append(0, 1)) by { HangList(s1, 0, 1); }
    assert Step(s2, Op.Child(0, 0)) == Hung() && Careful(Strict, s2, Op.Child(0, 0)) by { LookUp(s2, 0, 1); }
    RunCons(Strict, s2, Op.Child(0, 0), ops);
    RunCons(Strict, s1, Op.Append(0, 1), [Op.Child(0, 0)] + ops);
    RunCons(Strict, Start(), Op.NewNode(0, List), [Op.Append(0, 1)] + ([Op.Child(0, 0)] + ops));
    assert HungOps() + ops == [Op.NewNode(0, List)] + ([Op.Append(0, 1)] + ([Op.Child(0, 0)] + ops));
  }

  lemma Leaves2()
    ensures OnlyLeaves(map[0 := Leaf(0), 1 := Leaf(1)])
  {
  }

  lemma Leaves3()
    ensures OnlyLeaves(map[0 := Leaf(0), 1 := Leaf(1), 2 := Leaf(2)])
  {
  }

  lemma StartInv()
    ensures Inv(Strict, Start())
  {
    OpenedInv(Start().arena);
  }

  // ---------------------------------------------------------------- a stale child

  ghost function ReuseOps(): seq<Op> {
    HungOps() + [Op.Remove(2), Op.NewNode(0, List)]
  }

  ghost function Reused(): State {
    StateOf(map[0 := Leaf(0), 1 := Leaf(1)], 2, [], 2, map[0 := 0, 1 := 2], 3,
       [Handle(0, 2, 0), Handle(1, 0, 1), Handle(1, 1, 1), Handle(1, 2, 2)])
  }

  lemma PairRemoved(f: Forest)
    requires f == map[0 := Over(0, 1), 1 := Leaf(1)]
    ensures 1 in f && Removed(f, 1) == map[0 := Leaf(0)] && Pre(f[1]) == [1]
  {
    OverLeaf(f, 0, 1);
    assert Cut(f[0], 1) == Leaf(0) && Cut(f[1], 1) == Leaf(1);
  }

  /** Removing the only child of the root. */
  lemma DropHung()
    ensures Careful(Strict, Hung(), Op.Remove(2))
    ensures Step(Hung(), Op.Remove(2)) == StateOf(map[0 := Leaf(0)], 2, [1], 2, map[0 := 0], 2, Hung().handles)
  {
    hide Removed, Pre;
    PairRemoved(Hung().arena.forms);
  }

  /** A list is made, hung, looked up and removed, and its slot is filled anew. */
  lemma ReuseReached()
    ensures Inv(Strict, Start()) && Runnable(Strict, Start(), ReuseOps()) && Run(Start(), ReuseOps()) == Reused()
  {
    hide Step, Careful, Run, Runnable, OnlyLeaves, Inv;
    StartInv();
    var s4 := StateOf(map[0 := Leaf(0)], 2, [1], 2, map[0 := 0], 2, Hung().handles);
    DropHung();
    assert Step(s4, Op.NewNode(0, List)) == Reused() && Careful(Strict, s4, Op.NewNode(0, List)) by {
      MakeList(s4, 1);
    }
    RunNone(Strict, Reused());
    RunCons(Strict, s4, Op.NewNode(0, List), []);
    RunCons(Strict, Hung(), Op.Remove(2), [Op.NewNode(0, List)] + []);
    var rest := [Op.Remove(2)] + ([Op.NewNode(0, List)] + []);
    HungReached(rest);
    assert HungOps() + rest == ReuseOps();
  }

  /** Then the first handle, long stale, is still taken as a `child`: the call is in order, succeeds, and
      moves the new list in place of the one that the handle was made for. */
  lemma StaleChildMoves()
    ensures var t, op := Reused(), Op.Append(0, 1);
            && Careful(Strict, t, op) && StaleAt(t, 1)
            && t.births[t.handles[1].node] != t.handles[1].birth && !MovesOwn(t, op)
            && Step(t, op).arena == Relinked(t.arena, 0, Last, 1) && Step(t, op).arena.forms[0] == Over(0, 1)
  {
    hide Careful, OnlyLeaves, Relinked;
    Leaves2();
    HangList(Reused(), 0, 1);
    MoveRelinks(Reused(), Op.Append(0, 1));
  }

  // ---------------------------------------------------------------- moves that nothing stops

  /** Putting a node behind itself leaves no forest. */
  lemma BehindItself()
    ensures Runnable(Strict, Start(), HungOps()) && Run(Start(), HungOps()) == Hung()
    ensures var s, op := Hung(), Op.InsertAfter(0, Some(2), 2);
            && InRange(s, op) && !StaleAt(s, 0) && !StaleAt(s, 2) && !CycleSeen(s.arena.forms, 0, 1)
            && Step(s, op).arena == s.arena.(forms := map[], version := 2) && !Careful(Lax, s, op)
  {
    RunNone(Strict, Hung());
    HungReached([]);
    assert HungOps() + [] == HungOps();
    OverLeaf(Hung().arena.forms, 0, 1);
    hide Pre, Run, Runnable, Start, Moved;
  }

  ghost function PopulatedOps(): seq<Op> {
    [Op.NewNode(0, List), Op.NewNode(0, List), Op.Append(1, 2), Op.Child(1, 0)]
  }

  ghost function Populated(): State {
    StateOf(map[0 := Leaf(0), 1 := Over(1, 2), 2 := Leaf(2)], 3, [], 1, map[0 := 0, 1 := 1, 2 := 2], 3,
       [Handle(0, 0, 0), Handle(1, 1, 1), Handle(2, 0, 2), Handle(2, 1, 2)])
  }

  /** Two lists are made, and the second is hung below the first, which hangs nowhere, and looked up. */
  lemma PopulatedReached()
    ensures Inv(Strict, Start()) && Runnable(Strict, Start(), PopulatedOps())
    ensures Run(Start(), PopulatedOps()) == Populated()
  {
    hide Step, Careful, Run, Runnable, OnlyLeaves, Inv;
    StartInv();
    var f: Forest := map[0 := Leaf(0), 1 := Leaf(1), 2 := Leaf(2)];
    var hs := [Handle(0, 0, 0), Handle(1, 0, 1), Handle(2, 0, 2)];
    var births: map<nat, nat> := map[0 := 0, 1 := 1, 2 := 2];
    var s1 := StateOf(map[0 := Leaf(0), 1 := Leaf(1)], 2, [], 0, map[0 := 0, 1 := 1], 2, hs[..2]);
    var s2 := StateOf(f, 3, [], 0, births, 3, hs);
    var s3 := StateOf(f[1 := Over(1, 2)], 3, [], 1, births, 3, hs[1 := Handle(1, 1, 1)]);
    var make, hang, find := Op.NewNode(0, List), Op.Append(1, 2), Op.Child(1, 0);
    assert Step(Start(), make) == s1 && Careful(Strict, Start(), make) by { MakeList(Start(), 1); }
    assert Step(s1, make) == s2 && Careful(Strict, s1, make) by { MakeList(s1, 2); }
    assert OnlyLeaves(f) by { Leaves3(); }
    assert Step(s2, hang) == s3 && Careful(Strict, s2, hang) by { HangList(s2, 1, 2); }
    assert Step(s3, find) == Populated() && Careful(Strict, s3, find) by { LookUp(s3, 1, 2); }
    RunNone(Strict, Populated());
    RunCons(Strict, s3, find, []);
    RunCons(Strict, s2, hang, [find] + []);
    RunCons(Strict, s1, make, [hang] + ([find] + []));
    RunCons(Strict, Start(), make, [make] + ([hang] + ([find] + [])));
    assert PopulatedOps() == [make] + ([make] + ([hang] + ([find] + [])));
  }

  /** The check then lets the first list be put under the second: no forest is left. */
  lemma PopulatedDetachedList()
    ensures var s, op := Populated(), Op.Append(3, 1);
            && InRange(s, op) && !StaleAt(s, 3) && !StaleAt(s, 1)
            && !CycleSeen(s.arena.forms, 2, 1) && 2 in Pre(s.arena.forms[1])
            && Step(s, op).arena == s.arena.(forms := map[], version := 2) && !Careful(Lax, s, op)
  {
    OverLeaf(Populated().arena.forms, 1, 2);
    hide Pre, Moved, KidMap;
  }

  // ---------------------------------------------------------------- the root moved

  ghost function Made(): State {
    StateOf(map[0 := Leaf(0), 1 := Leaf(1)], 2, [], 0, map[0 := 0, 1 := 1], 2, [Handle(0, 0, 0), Handle(1, 0, 1)])
  }

  ghost function RootHung(): State {
    StateOf(map[0 := Leaf(0), 1 := Over(1, 0)], 2, [], 1, map[0 := 0, 1 := 1], 2, [Handle(0, 0, 0), Handle(1, 1, 1)])
  }

  ghost function RootReused(): State {
    StateOf(map[0 := Leaf(0)], 2, [1], 2, map[0 := 2], 3, [Handle(0, 2, 0), Handle(1, 1, 1), Handle(0, 2, 2)])
  }

  ghost function RootOps(): seq<Op> {
    [Op.NewNode(0, List), Op.Append(1, 0), Op.Remove(1), Op.NewNode(0, List)]
  }

  /** The root is hung below a new list, which nothing stops, and removed with it; and the next node takes its
      slot.  All four calls are tidy, the second is not strict. */
  lemma RootReached()
    ensures Inv(Tidy, Start()) && Runnable(Tidy, Start(), RootOps()) && Run(Start(), RootOps()) == RootReused()
    ensures Step(Start(), Op.NewNode(0, List)) == Made() && Step(Made(), Op.Append(1, 0)) == RootHung()
    ensures !Careful(Strict, Made(), Op.Append(1, 0))
  {
    hide Step, Careful, Run, Runnable, OnlyLeaves, Tracked, Current, Rooted;
    StartInv();
    var make, hang, drop := Op.NewNode(0, List), Op.Append(1, 0), Op.Remove(1);
    var gone := Step(RootHung(), drop);
    assert Step(Start(), make) == Made() && Careful(Tidy, Start(), make) by { MakeList(Start(), 1); }
    Leaves2();
    assert Step(Made(), hang) == RootHung() && Careful(Tidy, Made(), hang) && !Careful(Strict, Made(), hang) by {
      HangList(Made(), 1, 0);
    }
    DropRootHung();
    assert Step(gone, make) == RootReused() && Careful(Tidy, gone, make) by { MakeList(gone, 0); }
    RunNone(Tidy, RootReused());
    RunCons(Tidy, gone, make, []);
    RunCons(Tidy, RootHung(), drop, [make] + []);
    RunCons(Tidy, Made(), hang, [drop] + ([make] + []));
    RunCons(Tidy, Start(), make, [hang] + ([drop] + ([make] + [])));
    assert RootOps() == [make] + ([hang] + ([drop] + ([make] + [])));
  }

  /** The handle that the root had from the start passes the check, as it always does, and names an
      allocation that it was not made for. */
  lemma RootAliased()
    ensures var s, t := Start(), RootReused();
            && s.handles[0].node == s.arena.root && Holds(s, 0, s.handles[0].birth)
            && !StaleAt(t, 0) && t.arena.forms == s.arena.forms && !Holds(t, 0, s.handles[0].birth)
  {
  }

  lemma DropRootHung()
    ensures Careful(Tidy, RootHung(), Op.Remove(1))
    ensures Step(RootHung(), Op.Remove(1))
         == StateOf(map[], 2, [1, 0], 2, map[], 2, [Handle(0, 0, 0), Handle(1, 1, 1)])
  {
    hide Removed, Pre;
    RootPairRemoved(RootHung().arena.forms);
  }

  lemma RootPairRemoved(f: Forest)
    requires f == map[0 := Leaf(0), 1 := Over(1, 0)]
    ensures 1 in f && Removed(f, 1) == map[] && Pre(f[1]) == [1, 0]
  {
    OverLeaf(f, 1, 0);
  }

  // ---------------------------------------------------------------- a panic halfway

  /** Three lists are made; the root and the two others are hung below the first, and all four removed. */
  ghost function ClearOps(): seq<Op> {
    var make := Op.NewNode(0, List);
    [make, make, make, Op.Append(1, 0), Op.Append(1, 2), Op.Append(1, 3), Op.Remove(1)]
  }

  /** Two more take the slots freed last, one is hung below the other, and an iterator made over it. */
  ghost function IterateOps(): seq<Op> {
    [Op.NewNode(0, List), Op.NewNode(0, List), Op.Append(4, 5), Op.Iterate(4, false)]
  }

  ghost function Cleared(): State {
    StateOf(map[], 4, [1, 0, 2, 3], 4, map[], 4,
            [Handle(0, 0, 0), Handle(1, 3, 1), Handle(2, 0, 2), Handle(3, 0, 3)])
  }

  ghost function Iterated(): State {
    StateOf(map[3 := Over(3, 2), 2 := Leaf(2)], 4, [1, 0], 5, map[3 := 4, 2 := 5], 6,
            Cleared().handles + [Handle(3, 5, 4), Handle(2, 4, 5)]).(
      cursors := [Cursor(Some(2), 5, 3, [2], 0, 0, [])])
  }

  /** The first three calls. */
  lemma MadeThree(ops: seq<Op>)
    requires Runnable(Tidy, Gathered([]), ops)
    ensures var make := Op.NewNode(0, List);
            var all := [make] + ([make] + ([make] + ops));
            Runnable(Tidy, Start(), all) && Run(Start(), all) == Run(Gathered([]), ops)
  {
    hide Step, Careful, Run, Runnable;
    var make := Op.NewNode(0, List);
    var hs := Gathered([]).handles;
    var s1 := StateOf(map[0 := Leaf(0), 1 := Leaf(1)], 2, [], 0, map[0 := 0, 1 := 1], 2, hs[..2]);
    var s2 := StateOf(map[0 := Leaf(0), 1 := Leaf(1), 2 := Leaf(2)], 3, [], 0, map[0 := 0, 1 := 1, 2 := 2], 3, hs[..3]);
    assert Step(Start(), make) == s1 && Careful(Tidy, Start(), make) by { MakeList(Start(), 1); }
    assert Step(s1, make) == s2 && Careful(Tidy, s1, make) by { MakeList(s1, 2); }
    assert Step(s2, make) == Gathered([]) && Careful(Tidy, s2, make) by { MakeList(s2, 3); }
    RunCons(Tidy, s2, make, ops);
    RunCons(Tidy, s1, make, [make] + ops);
    RunCons(Tidy, Start(), make, [make] + ([make] + ops));
  }

  /** The next four. */
  lemma GatheredCleared(ops: seq<Op>)
    requires Runnable(Tidy, Cleared(), ops)
    ensures var all := [Op.Append(1, 0)] + ([Op.Append(1, 2)] + ([Op.Append(1, 3)] + ([Op.Remove(1)] + ops)));
            Runnable(Tidy, Gathered([]), all) && Run(Gathered([]), all) == Run(Cleared(), ops)
  {
    hide Step, Careful, Run, Runnable, Gathered;
    var hang0, hang2, hang3, drop := Op.Append(1, 0), Op.Append(1, 2), Op.Append(1, 3), Op.Remove(1);
    GatherMore([], 0);
    GatherMore([0], 2);
    GatherMore([0, 2], 3);
    assert [] + [0] == [0] && [0] + [2] == [0, 2] && [0, 2] + [3] == [0, 2, 3];
    ClearGathered();
    RunCons(Tidy, Gathered([0, 2, 3]), drop, ops);
    RunCons(Tidy, Gathered([0, 2]), hang3, [drop] + ops);
    RunCons(Tidy, Gathered([0]), hang2, [hang3] + ([drop] + ops));
    RunCons(Tidy, Gathered([]), hang0, [hang2] + ([hang3] + ([drop] + ops)));
  }

  lemma ClearReached(ops: seq<Op>)
    requires Runnable(Tidy, Cleared(), ops)
    ensures Runnable(Tidy, Start(), ClearOps() + ops) && Run(Start(), ClearOps() + ops) == Run(Cleared(), ops)
  {
    hide Step, Careful, Run, Runnable, Gathered, Cleared, Start;
    var rest := [Op.Append(1, 0)] + ([Op.Append(1, 2)] + ([Op.Append(1, 3)] + ([Op.Remove(1)] + ops)));
    var make := Op.NewNode(0, List);
    GatheredCleared(ops);
    MadeThree(rest);
    assert ClearOps() + ops == [make] + ([make] + ([make] + rest));
  }

  /** The lists `ys` hung below the first, one version for each. */
  ghost function Gathered(ys: seq<nat>): State {
    StateOf(map[0 := Leaf(0), 1 := Form(1, List, Leaves(ys)), 2 := Leaf(2), 3 := Leaf(3)], 4, [], |ys|,
            map[0 := 0, 1 := 1, 2 := 2, 3 := 3], 4,
            [Handle(0, 0, 0), Handle(1, |ys|, 1), Handle(2, 0, 2), Handle(3, 0, 3)])
  }

  lemma GatherMore(ys: seq<nat>, y: nat)
    requires y in [0, 2, 3] && 1 !in ys && y !in ys
    ensures Step(Gathered(ys), Op.Append(1, y)) == Gathered(ys + [y])
    ensures Careful(Tidy, Gathered(ys), Op.Append(1, y))
  {
    hide Step, Careful, Leaves;
    assert Shallow(Gathered(ys).arena.forms, 1, ys);
    HangLast(Gathered(ys), 1, y, ys);
  }

  lemma ClearGathered()
    ensures var s := Gathered([0, 2, 3]);
            Careful(Tidy, s, Op.Remove(1)) && Step(s, Op.Remove(1)) == Cleared()
  {
    hide Removed, Pre, Leaves;
    GatheredRemoved(Gathered([0, 2, 3]).arena.forms, [0, 2, 3]);
  }

  lemma GatheredRemoved(f: Forest, ys: seq<nat>)
    requires f.Keys == {0, 1, 2, 3} && f[1] == Form(1, List, Leaves(ys)) && ys == [0, 2, 3]
    ensures Removed(f, 1) == map[] && Pre(f[1]) == [1, 0, 2, 3]
  {
    LeavesPre(ys);
    CutElsewhere(f[1], 1);
    hide Leaves, Cut;
    assert Pre(f[1]) == [1] + ys;
  }

  /** All but the last of the calls leave the tree in a state that every careful caller may reach. */
  lemma IterateReached()
    ensures Inv(Tidy, Start()) && Runnable(Tidy, Start(), ClearOps() + IterateOps())
    ensures Run(Start(), ClearOps() + IterateOps()) == Iterated()
  {
    hide Step, Careful, Run, Runnable, OnlyLeaves, Tracked, Current, Rooted;
    StartInv();
    var make, hang, iterate := Op.NewNode(0, List), Op.Append(4, 5), Op.Iterate(4, false);
    var hs := Cleared().handles + [Handle(3, 4, 4), Handle(2, 4, 5)];
    var f: Forest := map[3 := Leaf(3), 2 := Leaf(2)];
    var s8 := StateOf(map[3 := Leaf(3)], 4, [1, 0, 2], 4, map[3 := 4], 5, hs[..5]);
    var s9 := StateOf(f, 4, [1, 0], 4, map[3 := 4, 2 := 5], 6, hs);
    var s10 := StateOf(f[3 := Over(3, 2)], 4, [1, 0], 5, map[3 := 4, 2 := 5], 6, hs[4 := Handle(3, 5, 4)]);
    assert Step(Cleared(), make) == s8 && Careful(Tidy, Cleared(), make) by { MakeList(Cleared(), 3); }
    assert Step(s8, make) == s9 && Careful(Tidy, s8, make) by { MakeList(s8, 2); }
    assert OnlyLeaves(f) by { TwoLeaves(); }
    assert Step(s9, hang) == s10 && Careful(Tidy, s9, hang) by { HangList(s9, 4, 5); }
    assert Step(s10, iterate) == Iterated() && Careful(Tidy, s10, iterate) by { IterateOver(s10); }
    RunNone(Tidy, Iterated());
    RunCons(Tidy, s10, iterate, []);
    RunCons(Tidy, s9, hang, [iterate] + []);
    RunCons(Tidy, s8, make, [hang] + ([iterate] + []));
    RunCons(Tidy, Cleared(), make, [make] + ([hang] + ([iterate] + [])));
    ClearReached([make] + ([make] + ([hang] + ([iterate] + []))));
    assert IterateOps() == [make] + ([make] + ([hang] + ([iterate] + [])));
  }

  lemma TwoLeaves()
    ensures OnlyLeaves(map[3 := Leaf(3), 2 := Leaf(2)])
  {
  }

  lemma IterateOver(s: State)
    requires s == Iterated().(cursors := [])
    ensures Step(s, Op.Iterate(4, false)) == Iterated() && Careful(Tidy, s, Op.Iterate(4, false))
  {
    OverLeaf(s.arena.forms, 3, 2);
  }

  /** Putting the child behind the root, whose handle passes the check though the root is gone, unlinks the
      child and then panics before the version moves: the iterator gives out a node that its parent no
      longer has. */
  lemma HalfDone()
    ensures var s, op := Iterated(), Op.InsertAfter(4, Some(0), 5);
            && Careful(Lax, s, op) && !Careful(Tidy, s, op)
            && var t := Step(s, op);
               && t == s.(arena := s.arena.(forms := map[3 := Leaf(3), 2 := Leaf(2)]))
               && NextCall(t.arena, t.cursors[0].next, t.cursors[0].version) == Yields(2)
               && !Attached(t.arena.forms, 2) && !Current(t)
  {
    hide Detached, Pre, Current, Attached;
    var s := Iterated();
    PairDetached(s.arena.forms);
    var t := Step(s, Op.InsertAfter(4, Some(0), 5));
    assert t.births == s.births;
    RowGone(t);
  }

  lemma PairDetached(f: Forest)
    requires f == map[3 := Over(3, 2), 2 := Leaf(2)]
    ensures Detached(f, 2) == map[3 := Leaf(3), 2 := Leaf(2)]
    ensures Attached(f, 2) && Pre(f[2]) == [2]
  {
    OverLeaf(f, 3, 2);
    assert Cut(f[3], 2) == Leaf(3) && Cut(f[2], 2) == Leaf(2);
  }

  lemma RowGone(t: State)
    requires t.arena.forms == map[3 := Leaf(3), 2 := Leaf(2)] && t.cursors == Iterated().cursors && t.arena.version == 5
    ensures !Attached(t.arena.forms, 2) && !Current(t)
  {
    assert KidMap(t.arena.forms)[3] == [];
    assert !CursorSound(t.arena, t.cursors[0]);
  }
}
