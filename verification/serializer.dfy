/** src/serialize/serializer.rs: the explicit-stack printer against the recursive one. */
module Serializer {
  import opened Utf8
  import opened Forms
  import opened Edits
  import opened Links
  import opened Surgery
  import opened Traversal
  import opened Trees
  import opened Cloning
  import opened Equality
  import Atoms
  import Slabs

  /** The canonical text of an S-expression. */
  ghost function Text(e: SExpr): seq<Byte>
    decreases e, 1
  {
    match e
    case AtomExpr(text) => text
    case ListExpr(items) => [OPEN] + TextRow(items, true) + [CLOSE]
  }

  /** Siblings with a single space between neighbours. */
  ghost function TextRow(es: seq<SExpr>, first: bool): seq<Byte>
    decreases es, 0
  {
    if es == [] then [] else Spacing(!first) + Text(es[0]) + TextRow(es[1..], false)
  }

  ghost function Spacing(needed: bool): seq<Byte> {
    if needed then [SPACE] else []
  }

  lemma {:induction false} TextValid(t: Form)
    ensures ValidUtf8(Text(Abs(t)))
    decreases t, 1
  {
    if t.kind.List? {
      TextRowValid(t.kids, true);
      AsciiIsValid(OPEN);
      AsciiIsValid(CLOSE);
      var row := TextRow(AbsAll(t.kids), true);
      ValidConcat([OPEN], row);
      ValidConcat([OPEN] + row, [CLOSE]);
    }
  }

  lemma {:induction false} TextRowValid(ts: seq<Form>, first: bool)
    ensures ValidUtf8(TextRow(AbsAll(ts), first))
    decreases ts, 0
  {
    if ts != [] {
      TextValid(ts[0]);
      TextRowValid(ts[1..], false);
      AsciiIsValid(SPACE);
      ValidConcat(Spacing(!first), Text(Abs(ts[0])));
      ValidConcat(Spacing(!first) + Text(Abs(ts[0])), TextRow(AbsAll(ts[1..]), false));
    }
  }

  // The text in bytes.

  /** Texts with one space, byte 0x20, between neighbours. */
  ghost function Joined(parts: seq<seq<Byte>>): seq<Byte> {
    if parts == [] then []
    else if |parts| == 1 then parts[0]
    else parts[0] + [0x20] + Joined(parts[1..])
  }

  /** The text of a list is its items' texts joined by single spaces, between brackets 0x28 and 0x29. */
  lemma TextOfList(items: seq<SExpr>, parts: seq<seq<Byte>>)
    requires |parts| == |items| && forall i :: 0 <= i < |items| ==> parts[i] == Text(items[i])
    ensures Text(ListExpr(items)) == [0x28] + Joined(parts) + [0x29]
  {
    TextOfRow(items, parts);
  }

  lemma {:induction false} TextOfRow(items: seq<SExpr>, parts: seq<seq<Byte>>)
    requires |parts| == |items| && forall i :: 0 <= i < |items| ==> parts[i] == Text(items[i])
    ensures TextRow(items, true) == Joined(parts)
    ensures TextRow(items, false) == if parts == [] then [] else [0x20] + Joined(parts)
  {
    hide Text;
    if items != [] {
      TextOfRow(items[1..], parts[1..]);
      if |items| == 1 {
        assert items[1..] == [];
      }
    }
  }

  /** The same text once more, in bytes. */
  ghost function Printed(e: SExpr): seq<Byte>
    decreases e, 1
  {
    match e
    case AtomExpr(text) => text
    case ListExpr(items) => [0x28] + Joined(PrintedAll(items)) + [0x29]
  }

  ghost function PrintedAll(es: seq<SExpr>): (parts: seq<seq<Byte>>)
    ensures |parts| == |es| && forall i :: 0 <= i < |es| ==> parts[i] == Printed(es[i])
    decreases es, 0
  {
    if es == [] then [] else [Printed(es[0])] + PrintedAll(es[1..])
  }

  lemma {:induction false} TextIsPrinted(e: SExpr)
    ensures Text(e) == Printed(e)
    decreases e
  {
    if e.ListExpr? {
      forall i | 0 <= i < |e.items|
        ensures Text(e.items[i]) == Printed(e.items[i])
      {
        TextIsPrinted(e.items[i]);
      }
      TextOfList(e.items, PrintedAll(e.items));
    }
  }

  lemma FormText(t: Form)
    ensures t.kind.Atom? ==> Text(Abs(t)) == Atoms.AsStr(t.kind.atom)
    ensures t.kind.List? ==> Text(Abs(t)) == [0x28] + Joined(PrintedAll(AbsAll(t.kids))) + [0x29]
  {
    TextIsPrinted(Abs(t));
  }

  /** Does `b` occur in an atom? */
  ghost predicate InAtom(e: SExpr, b: Byte)
    decreases e, 1
  {
    match e
    case AtomExpr(text) => b in text
    case ListExpr(items) => InSomeAtom(items, b)
  }

  ghost predicate InSomeAtom(es: seq<SExpr>, b: Byte)
    decreases es, 0
  {
    es != [] && (InAtom(es[0], b) || InSomeAtom(es[1..], b))
  }

  /** Nothing but the bytes of the atoms, spaces and brackets is ever printed. */
  lemma {:induction false} TextBytes(e: SExpr, b: Byte)
    requires b !in {0x20, 0x28, 0x29}
    ensures b in Text(e) <==> InAtom(e, b)
    decreases e, 1
  {
    match e
    case AtomExpr(_) =>
    case ListExpr(items) => TextRowBytes(items, true, b);
  }

  lemma {:induction false} TextRowBytes(es: seq<SExpr>, first: bool, b: Byte)
    requires b !in {0x20, 0x28, 0x29}
    ensures b in TextRow(es, first) <==> InSomeAtom(es, b)
    decreases es, 0
  {
    hide Text, InAtom;
    if es != [] {
      TextBytes(es[0], b);
      TextRowBytes(es[1..], false, b);
    }
  }

  // The exact length of the text.

  ghost function AtomBytes(e: SExpr): nat
    decreases e, 1
  {
    match e
    case AtomExpr(text) => |text|
    case ListExpr(items) => AtomBytesAll(items)
  }

  ghost function AtomBytesAll(es: seq<SExpr>): nat
    decreases es, 0
  {
    if es == [] then 0 else AtomBytes(es[0]) + AtomBytesAll(es[1..])
  }

  /** Two brackets a list, and one space fewer than it has children. */
  ghost function Punctuation(e: SExpr): nat
    decreases e, 1
  {
    match e
    case AtomExpr(_) => 0
    case ListExpr(items) => 2 + (if |items| > 0 then |items| - 1 else 0) + PunctuationAll(items)
  }

  ghost function PunctuationAll(es: seq<SExpr>): nat
    decreases es, 0
  {
    if es == [] then 0 else Punctuation(es[0]) + PunctuationAll(es[1..])
  }

  lemma {:induction false} TextLength(e: SExpr)
    ensures |Text(e)| == AtomBytes(e) + Punctuation(e)
    decreases e, 1
  {
    match e
    case AtomExpr(_) =>
    case ListExpr(items) => TextRowLength(items, true);
  }

  lemma {:induction false} TextRowLength(es: seq<SExpr>, first: bool)
    ensures |TextRow(es, first)| ==
            AtomBytesAll(es) + PunctuationAll(es) + (if first && |es| > 0 then |es| - 1 else |es|)
    decreases es, 0
  {
    if es != [] {
      TextLength(es[0]);
      TextRowLength(es[1..], false);
    }
  }

  // ---------------------------------------------------------------- the printer's stack

  datatype Frame = NodeFrame(id: nat, needsSpace: bool) | CloseFrame

  ghost predicate FramesIn(f: Forest, stack: seq<Frame>) {
    forall i :: 0 <= i < |stack| && stack[i].NodeFrame? ==> stack[i].id in f
  }

  ghost function FrameText(f: Forest, frame: Frame): seq<Byte>
    requires frame.NodeFrame? ==> frame.id in f
  {
    match frame
    case CloseFrame => [CLOSE]
    case NodeFrame(id, needsSpace) => Spacing(needsSpace) + Text(Abs(f[id]))
  }

  /** What the stack will still print, top frame first. */
  ghost function StackText(f: Forest, stack: seq<Frame>): seq<Byte>
    requires FramesIn(f, stack)
  {
    if stack == [] then []
    else FrameText(f, stack[|stack| - 1]) + StackText(f, stack[..|stack| - 1])
  }

  /** Steps the stack will still take: two a node, one a bracket. */
  ghost function StackSteps(f: Forest, stack: seq<Frame>): nat
    requires FramesIn(f, stack)
  {
    if stack == [] then 0
    else (match stack[|stack| - 1] case CloseFrame => 1 case NodeFrame(id, _) => 2 * Size(f[id]))
         + StackSteps(f, stack[..|stack| - 1])
  }

  ghost function Frames(row: seq<nat>): (r: seq<Frame>)
    ensures |r| == |row|
  {
    seq(|row|, i requires 0 <= i < |row| => NodeFrame(row[i], i > 0))
  }

  lemma FramePop(f: Forest, stack: seq<Frame>)
    requires FramesIn(f, stack) && |stack| > 0
    ensures var top, rest := stack[|stack| - 1], stack[..|stack| - 1];
            && FramesIn(f, rest)
            && match top
               case CloseFrame =>
                 && StackText(f, stack) == [CLOSE] + StackText(f, rest)
                 && StackSteps(f, stack) == 1 + StackSteps(f, rest)
               case NodeFrame(id, spaced) =>
                 && id in f
                 && StackText(f, stack) == Spacing(spaced) + Text(Abs(f[id])) + StackText(f, rest)
                 && StackSteps(f, stack) == 2 * Size(f[id]) + StackSteps(f, rest)
  {
  }

  /** Pushing the tail of a row of children stacks up the text of that tail. */
  lemma {:induction false} FramesPush(f: Forest, stack: seq<Frame>, x: nat, j: nat)
    requires Consistent(f) && FramesIn(f, stack) && x in f && j <= |f[x].kids|
    ensures var grown := stack + Reversed(Frames(KidMap(f)[x])[j..]);
            && FramesIn(f, grown)
            && StackText(f, grown) == TextRow(AbsAll(f[x].kids[j..]), j == 0) + StackText(f, stack)
            && StackSteps(f, grown) == 2 * |PreAll(f[x].kids[j..])| + StackSteps(f, stack)
    decreases |f[x].kids| - j
  {
    hide Text, TextRow, PreAll, StackText, StackSteps, FramesIn;
    var frames, ts := Frames(KidMap(f)[x]), f[x].kids;
    var grown := stack + Reversed(frames[j..]);
    if j == |ts| {
      assert grown == stack;
      assert ts[j..] == [];
      EmptyRow(j == 0);
    } else {
      FramesPush(f, stack, x, j + 1);
      assert KidKnown(f, x, j);
      assert grown[|grown| - 1] == NodeFrame(ts[j].id, j > 0);
      assert grown[..|grown| - 1] == stack + Reversed(frames[j + 1..]);
      FramesSnoc(f, grown);
      FramePop(f, grown);
      RowTail(ts, j);
    }
  }

  lemma FramesSnoc(f: Forest, stack: seq<Frame>)
    requires |stack| > 0 && FramesIn(f, stack[..|stack| - 1])
    requires stack[|stack| - 1].NodeFrame? ==> stack[|stack| - 1].id in f
    ensures FramesIn(f, stack)
  {
    assert forall i :: 0 <= i < |stack| - 1 ==> stack[i] == stack[..|stack| - 1][i];
  }

  lemma EmptyRow(first: bool)
    ensures TextRow(AbsAll([]), first) == [] && PreAll([]) == []
  {
  }

  lemma RowTail(ts: seq<Form>, j: nat)
    requires j < |ts|
    ensures TextRow(AbsAll(ts[j..]), j == 0) == Spacing(j > 0) + Text(Abs(ts[j])) + TextRow(AbsAll(ts[j + 1..]), false)
    ensures |PreAll(ts[j..])| == Size(ts[j]) + |PreAll(ts[j + 1..])|
  {
    assert ts[j..][1..] == ts[j + 1..];
    assert AbsAll(ts[j..])[1..] == AbsAll(ts[j + 1..]);
  }

  /** One turn on a list: its opening bracket is out, its children and closing bracket are owed. */
  lemma ListOpened(f: Forest, stack: seq<Frame>, x: nat)
    requires Consistent(f) && FramesIn(f, stack) && x in f && f[x].kind.List?
    ensures var grown := stack + [CloseFrame] + Reversed(Frames(KidMap(f)[x]));
            && FramesIn(f, grown)
            && [OPEN] + StackText(f, grown) == Text(Abs(f[x])) + StackText(f, stack)
            && StackSteps(f, grown) < 2 * Size(f[x]) + StackSteps(f, stack)
  {
    hide TextRow, PreAll, StackText, StackSteps, Frames, Reversed;
    var closed := stack + [CloseFrame];
    assert closed[..|closed| - 1] == stack;
    FramePop(f, closed);
    FramesPush(f, closed, x, 0);
    assert Frames(KidMap(f)[x])[0..] == Frames(KidMap(f)[x]);
    assert f[x].kids[0..] == f[x].kids;
    SizeOfRow(f[x]);
  }

  /** The inner loop of the printer: children from last to first, spaced unless first. */
  method PushFrames(tree: Tree, x: nat, stack: seq<Frame>, ghost row: seq<nat>) returns (grown: seq<Frame>)
    requires RowReadable(tree.nodes.slots, x, row)
    ensures grown == stack + Reversed(Frames(row))
  {
    hide Reversed;
    grown := stack;
    ghost var frames := Frames(row);
    ghost var j: nat := |row|;
    var cursor := tree.Get(x).lastChild;
    NoneReversed(frames);
    while cursor.Some?
      invariant 0 <= j <= |row| && cursor == Before(row, j)
      invariant grown == stack + Reversed(frames[j..])
      decreases j
    {
      assert row[j - 1] == cursor.value;
      var previous := tree.Get(cursor.value).previousSibling;
      ReversedStep(frames, j);
      grown := grown + [NodeFrame(cursor.value, previous.Some?)];
      cursor := previous;
      j := j - 1;
    }
  }

  method PushSpace(output: seq<Byte>, needed: bool) returns (written: seq<Byte>)
    ensures written == output + Spacing(needed)
  {
    written := output;
    if needed {
      written := written + [SPACE];
    }
  }

  lemma Regroup(w: seq<Byte>, a: seq<Byte>, b: seq<Byte>, c: seq<Byte>)
    ensures w + (a + b + c) == w + a + b + c
    ensures w + (a + b + c) == (w + a) + (b + c)
  {
  }

  /** Appends the text of the subtree to what has been written. */
  method WriteNode(tree: Tree, node: nat, output: seq<Byte>, needsSpace: bool) returns (written: seq<Byte>)
    requires tree.Forested() && node in tree.forms
    ensures written == output + Spacing(needsSpace) + Text(Abs(tree.forms[node]))
    ensures written == output + (if needsSpace then [0x20] else []) + Printed(Abs(tree.forms[node]))
  {
    hide Represents, Slabs.FreeExact, KidMap, Text, Spacing, Abs, Printed;
    hide StackText, StackSteps, FrameText, Reversed, Frames, FramesIn;
    ghost var f := tree.forms;
    RepresentsParts(tree.nodes.slots, f);
    var stack := [NodeFrame(node, needsSpace)];
    OneFrame(f, node, needsSpace);
    written := output;
    while |stack| > 0
      invariant FramesIn(f, stack)
      invariant written + StackText(f, stack) == output + (Spacing(needsSpace) + Text(Abs(f[node])))
      decreases StackSteps(f, stack)
    {
      var frame := stack[|stack| - 1];
      FramePop(f, stack);
      ghost var before, rest := written, StackText(f, stack[..|stack| - 1]);
      stack := stack[..|stack| - 1];
      match frame {
        case CloseFrame =>
          written := written + [CLOSE];
        case NodeFrame(id, spaced) =>
          NodeRead(tree.nodes.slots, f, id);
          match tree.Get(id).kind {
            case Atom(atom) =>
              AtomFormText(f, id);
              written := PushSpace(written, spaced);
              written := written + Atoms.AsStr(atom);
              Regroup(before, Spacing(spaced), Text(Abs(f[id])), rest);
            case List =>
              written := PushSpace(written, spaced);
              written := written + [OPEN];
              ListOpened(f, stack, id);
              ForestRowReadable(tree.nodes.slots, f, id);
              stack := PushFrames(tree, id, stack + [CloseFrame], KidMap(f)[id]);
              Regroup(before, Spacing(spaced), Text(Abs(f[id])), rest);
              Regroup(before, Spacing(spaced), [OPEN], StackText(f, stack));
          }
      }
    }
    NoFrame(f);
    TextIsPrinted(Abs(f[node]));
    SpacingByte(needsSpace);
    assert written == written + StackText(f, stack);
    assert output + (Spacing(needsSpace) + Text(Abs(f[node]))) == output + Spacing(needsSpace) + Text(Abs(f[node]));
  }

  lemma SpacingByte(needed: bool)
    ensures Spacing(needed) == if needed then [0x20] else []
  {
  }

  lemma AtomFormText(f: Forest, x: nat)
    requires x in f && f[x].kind.Atom?
    ensures Text(Abs(f[x])) == Atoms.AsStr(f[x].kind.atom) && Size(f[x]) > 0
  {
  }

  lemma OneFrame(f: Forest, x: nat, spaced: bool)
    requires x in f
    ensures FramesIn(f, [NodeFrame(x, spaced)])
    ensures StackText(f, [NodeFrame(x, spaced)]) == Spacing(spaced) + Text(Abs(f[x]))
  {
    assert StackText(f, []) == [];
  }

  lemma NoFrame(f: Forest)
    ensures FramesIn(f, []) && StackText(f, []) == []
  {
  }

  /** The canonical text: an atom as it is; a list between its brackets, nothing but spaces and the bytes of
      its atoms in between. */
  method SerializeNode(tree: Tree, node: nat) returns (text: Str)
    requires tree.Forested() && node in tree.forms
    ensures text == Text(Abs(tree.forms[node]))
    ensures var t := tree.forms[node];
            && (t.kind.Atom? ==> text == Atoms.AsStr(t.kind.atom))
            && (t.kind.List? ==>
                  |text| >= 2 && text[0] == 0x28 && text[|text| - 1] == 0x29 &&
                  text == [0x28] + Joined(PrintedAll(AbsAll(t.kids))) + [0x29])
            && (forall b: Byte :: b in text && b !in {0x20, 0x28, 0x29} ==> InAtom(Abs(t), b))
    ensures |text| == AtomBytes(Abs(tree.forms[node])) + Punctuation(Abs(tree.forms[node]))
  {
    hide Text, Abs, Joined, AtomBytes, Punctuation;
    ghost var t := tree.forms[node];
    TextValid(t);
    TextLength(Abs(t));
    FormText(t);
    forall b: Byte | b in Text(Abs(t)) && b !in {0x20, 0x28, 0x29}
      ensures InAtom(Abs(t), b)
    {
      TextBytes(Abs(t), b);
    }
    var output := WriteNode(tree, node, [], false);
    assert output == Text(Abs(tree.forms[node]));
    return output;
  }
}
