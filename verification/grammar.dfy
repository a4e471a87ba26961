/** The language that parser and printer share: which token sequences spell which S-expressions, and
    how the rest are classified. */
module Grammar {
  import opened Wrappers
  import opened Utf8
  import opened Forms
  import opened Tokenizing
  import opened Serializer

  ghost function Flatten(e: SExpr): (ts: seq<Token>)
    ensures |ts| > 0
    ensures e.AtomExpr? ==> ts == [AtomToken(e.text)]
    ensures e.ListExpr? ==> ts[0] == LeftParen
    decreases e, 1
  {
    match e
    case AtomExpr(text) => [AtomToken(text)]
    case ListExpr(items) => [LeftParen] + FlattenAll(items) + [RightParen]
  }

  ghost function FlattenAll(es: seq<SExpr>): seq<Token>
    decreases es, 0
  {
    if es == [] then [] else Flatten(es[0]) + FlattenAll(es[1..])
  }

  lemma {:induction false} FlattenConcat(es: seq<SExpr>, fs: seq<SExpr>)
    ensures FlattenAll(es + fs) == FlattenAll(es) + FlattenAll(fs)
  {
    if es == [] {
      assert es + fs == fs;
    } else {
      assert (es + fs)[1..] == es[1..] + fs;
      FlattenConcat(es[1..], fs);
    }
  }

  lemma FlattenOne(e: SExpr)
    ensures FlattenAll([e]) == Flatten(e)
  {
    assert FlattenAll([e]) == Flatten(e) + FlattenAll([]);
  }

  // ---------------------------------------------------------------- unique reading

  /** No S-expression's tokens continue another's. */
  lemma {:induction false} FlattenUnique(e: SExpr, r: seq<Token>, f: SExpr, s: seq<Token>)
    requires Flatten(e) + r == Flatten(f) + s
    ensures e == f && r == s
    decreases e, 1
  {
    assert (Flatten(e) + r)[0] == Flatten(e)[0] && (Flatten(f) + s)[0] == Flatten(f)[0];
    if e.AtomExpr? {
      assert (Flatten(e) + r)[1..] == r && (Flatten(f) + s)[1..] == s;
    } else {
      var es, fs := FlattenAll(e.items), FlattenAll(f.items);
      assert (Flatten(e) + r)[1..] == es + ([RightParen] + r);
      assert (Flatten(f) + s)[1..] == fs + ([RightParen] + s);
      FlattenAllUnique(e.items, r, f.items, s);
    }
  }

  lemma {:induction false} FlattenAllUnique(es: seq<SExpr>, r: seq<Token>, fs: seq<SExpr>, s: seq<Token>)
    requires FlattenAll(es) + ([RightParen] + r) == FlattenAll(fs) + ([RightParen] + s)
    ensures es == fs && r == s
    decreases es, 0
  {
    var x, y := FlattenAll(es) + ([RightParen] + r), FlattenAll(fs) + ([RightParen] + s);
    RowStart(es, r);
    RowStart(fs, s);
    if es == [] {
      assert x[1..] == r && y[1..] == s;
    } else {
      assert x == Flatten(es[0]) + (FlattenAll(es[1..]) + ([RightParen] + r));
      assert y == Flatten(fs[0]) + (FlattenAll(fs[1..]) + ([RightParen] + s));
      FlattenUnique(es[0], FlattenAll(es[1..]) + ([RightParen] + r), fs[0], FlattenAll(fs[1..]) + ([RightParen] + s));
      FlattenAllUnique(es[1..], r, fs[1..], s);
      assert es == [es[0]] + es[1..] && fs == [fs[0]] + fs[1..];
    }
  }

  /** A row is empty exactly when its closing bracket comes first. */
  lemma RowStart(es: seq<SExpr>, r: seq<Token>)
    ensures var x := FlattenAll(es) + ([RightParen] + r);
            x[0] == RightParen <==> es == []
  {
    if es != [] {
      assert (FlattenAll(es) + ([RightParen] + r))[0] == Flatten(es[0])[0];
    }
  }

  lemma SequenceUnique(es: seq<SExpr>, fs: seq<SExpr>)
    requires FlattenAll(es) == FlattenAll(fs)
    ensures es == fs
  {
    FlattenAllUnique(es, [], fs, []);
  }

  /** Either nothing at all, or one form. */
  ghost predicate Accepts(ts: seq<Token>, e: Option<SExpr>) {
    match e
    case None => ts == []
    case Some(x) => ts == Flatten(x)
  }

  // ---------------------------------------------------------------- round trip

  /** Every atom is non-empty and free of stop bytes. */
  ghost predicate GoodAtoms(e: SExpr)
    decreases e, 1
  {
    match e
    case AtomExpr(text) => AtomText(text)
    case ListExpr(items) => AllGoodAtoms(items)
  }

  ghost predicate AllGoodAtoms(es: seq<SExpr>)
    decreases es, 0
  {
    es == [] || (GoodAtoms(es[0]) && AllGoodAtoms(es[1..]))
  }

  /** Reading printed text back gives its tokens, whatever follows that an atom cannot run into. */
  lemma {:induction false} TextRead(e: SExpr, rest: seq<Byte>)
    requires GoodAtoms(e) && Ends(rest)
    ensures Tokens(Text(e) + rest) == Flatten(e) + Tokens(rest)
    decreases e, 1
  {
    hide Tokens, FlattenAll, TextRow;
    match e
    case AtomExpr(text) =>
      ReadToken(AtomToken(text), rest);
    case ListExpr(items) =>
      var row := TextRow(items, true);
      TextRowRead(items, true, [CLOSE] + rest);
      ReadToken(RightParen, rest);
      ReadToken(LeftParen, row + ([CLOSE] + rest));
      assert Text(e) + rest == [OPEN] + (row + ([CLOSE] + rest));
      assert FlattenAll(items) + ([RightParen] + Tokens(rest)) == FlattenAll(items) + [RightParen] + Tokens(rest);
  }

  lemma RowText(es: seq<SExpr>, first: bool, rest: seq<Byte>)
    requires es != []
    ensures TextRow(es, first) + rest == Spacing(!first) + (Text(es[0]) + (TextRow(es[1..], false) + rest))
  {
  }

  lemma RowTokens(es: seq<SExpr>, rest: seq<Token>)
    requires es != []
    ensures FlattenAll(es) + rest == Flatten(es[0]) + (FlattenAll(es[1..]) + rest)
  {
  }

  lemma {:induction false} TextRowRead(es: seq<SExpr>, first: bool, rest: seq<Byte>)
    requires AllGoodAtoms(es) && Ends(rest)
    ensures Tokens(TextRow(es, first) + rest) == FlattenAll(es) + Tokens(rest)
    ensures !first || es == [] ==> Ends(TextRow(es, first) + rest)
    decreases es, 0
  {
    hide Tokens, Text, Flatten, GoodAtoms, AtomText;
    if es == [] {
      assert TextRow(es, first) + rest == rest;
    } else {
      var tail := TextRow(es[1..], false) + rest;
      TextRowRead(es[1..], false, rest);
      TextRead(es[0], tail);
      SkipSpace(Spacing(!first), Text(es[0]) + tail);
      RowText(es, first, rest);
      RowTokens(es, Tokens(rest));
    }
  }

  lemma {:induction false} GoodFromTokens(e: SExpr)
    ensures (forall i :: 0 <= i < |Flatten(e)| ==> GoodToken(Flatten(e)[i])) ==> GoodAtoms(e)
    decreases e, 1
  {
    match e
    case AtomExpr(_) =>
      assert Flatten(e)[0] == AtomToken(e.text);
    case ListExpr(items) =>
      var ts := Flatten(e);
      assert forall i :: 0 <= i < |FlattenAll(items)| ==> FlattenAll(items)[i] == ts[i + 1];
      AllGoodFromTokens(items);
  }

  lemma {:induction false} AllGoodFromTokens(es: seq<SExpr>)
    ensures (forall i :: 0 <= i < |FlattenAll(es)| ==> GoodToken(FlattenAll(es)[i])) ==> AllGoodAtoms(es)
    decreases es, 0
  {
    if es != [] {
      var ts, a, b := FlattenAll(es), Flatten(es[0]), FlattenAll(es[1..]);
      assert forall i :: 0 <= i < |a| ==> a[i] == ts[i];
      assert forall i :: 0 <= i < |b| ==> b[i] == ts[|a| + i];
      GoodFromTokens(es[0]);
      AllGoodFromTokens(es[1..]);
    }
  }

  /** Printing and reading back returns the same expression exactly when its atoms are good. */
  lemma RoundTrip(e: SExpr)
    ensures Accepts(Tokens(Text(e)), Some(e)) <==> GoodAtoms(e)
  {
    if GoodAtoms(e) {
      TextRead(e, []);
      assert Text(e) + [] == Text(e);
      assert Tokens([]) == [];
    }
    TokensGood(Text(e));
    GoodFromTokens(e);
  }

  /** The canonical text of whatever was read is read as the same thing again. */
  lemma PrintAfterRead(source: seq<Byte>, e: SExpr)
    requires Accepts(Tokens(source), Some(e))
    ensures Accepts(Tokens(Text(e)), Some(e))
    ensures forall f :: Accepts(Tokens(Text(e)), Some(f)) ==> f == e
  {
    TokensGood(source);
    GoodFromTokens(e);
    RoundTrip(e);
    forall f | Flatten(e) == Flatten(f)
      ensures e == f
    {
      FlattenUnique(e, [], f, []);
    }
  }

  /** For good atoms, equal text is equality. */
  lemma TextDecides(e: SExpr, f: SExpr)
    requires GoodAtoms(e) && GoodAtoms(f)
    ensures Text(e) == Text(f) <==> e == f
  {
    RoundTrip(e);
    RoundTrip(f);
    if Text(e) == Text(f) {
      FlattenUnique(e, [], f, []);
    }
  }

  // ---------------------------------------------------------------- verdicts

  datatype ParseError = UnclosedParenthesis | StrayClosingParenthesis | MultipleTopLevelForms | InvalidUtf8

  ghost function Rise(t: Token): int {
    match t
    case LeftParen => 1
    case RightParen => -1
    case AtomToken(_) => 0
  }

  ghost function Depth(ts: seq<Token>): int {
    if ts == [] then 0 else Depth(ts[..|ts| - 1]) + Rise(ts[|ts| - 1])
  }

  /** Some prefix closes more lists than it opens. */
  ghost predicate Stray(ts: seq<Token>) {
    exists n :: 0 <= n <= |ts| && Depth(ts[..n]) < 0
  }

  ghost predicate Rejects(ts: seq<Token>, error: ParseError) {
    match error
    case StrayClosingParenthesis => Stray(ts)
    case UnclosedParenthesis => !Stray(ts) && Depth(ts) > 0
    case MultipleTopLevelForms => exists es :: |es| > 1 && ts == FlattenAll(es)
    case InvalidUtf8 => false
  }

  lemma {:induction false} DepthConcat(ts: seq<Token>, us: seq<Token>)
    ensures Depth(ts + us) == Depth(ts) + Depth(us)
    decreases |us|
  {
    if us == [] {
      assert ts + us == ts;
    } else {
      var n := |us| - 1;
      assert (ts + us)[..|ts| + n] == ts + us[..n];
      DepthConcat(ts, us[..n]);
    }
  }

  lemma {:induction false} FlattenBalanced(e: SExpr)
    ensures Depth(Flatten(e)) == 0
    ensures forall n :: 0 <= n <= |Flatten(e)| ==> Depth(Flatten(e)[..n]) >= 0
    decreases e, 1
  {
    match e
    case AtomExpr(_) =>
      var t := Flatten(e);
      assert t[..0] == [] && t[..1] == t;
      assert Depth(t) == Depth([]) + 0;
    case ListExpr(items) =>
      var inner, ts := FlattenAll(items), Flatten(e);
      FlattenAllBalanced(items);
      assert Depth([LeftParen]) == Depth([]) + 1 && Depth([RightParen]) == Depth([]) - 1;
      DepthConcat([LeftParen], inner);
      DepthConcat([LeftParen] + inner, [RightParen]);
      forall n | 0 <= n <= |ts|
        ensures Depth(ts[..n]) >= 0
      {
        if n == 0 {
          assert ts[..n] == [];
        } else if n == |ts| {
          assert ts[..n] == ts;
        } else {
          assert ts[..n] == [LeftParen] + inner[..n - 1];
          DepthConcat([LeftParen], inner[..n - 1]);
        }
      }
  }

  lemma {:induction false} FlattenAllBalanced(es: seq<SExpr>)
    ensures Depth(FlattenAll(es)) == 0
    ensures forall n :: 0 <= n <= |FlattenAll(es)| ==> Depth(FlattenAll(es)[..n]) >= 0
    decreases es, 0
  {
    if es != [] {
      var a, b, ts := Flatten(es[0]), FlattenAll(es[1..]), FlattenAll(es);
      FlattenBalanced(es[0]);
      FlattenAllBalanced(es[1..]);
      DepthConcat(a, b);
      forall n | 0 <= n <= |ts|
        ensures Depth(ts[..n]) >= 0
      {
        if n <= |a| {
          assert ts[..n] == a[..n];
        } else {
          assert ts[..n] == a + b[..n - |a|];
          DepthConcat(a, b[..n - |a|]);
        }
      }
    }
  }

  /** No token sequence has two verdicts. */
  lemma VerdictsExclude(ts: seq<Token>, es: seq<SExpr>)
    requires ts == FlattenAll(es)
    ensures !Rejects(ts, StrayClosingParenthesis) && !Rejects(ts, UnclosedParenthesis)
    ensures Rejects(ts, MultipleTopLevelForms) <==> |es| > 1
    ensures forall e :: Accepts(ts, e) ==> es == (match e case None => [] case Some(x) => [x])
  {
    FlattenAllBalanced(es);
    hide Flatten, FlattenAll, Depth;
    forall fs | ts == FlattenAll(fs)
      ensures fs == es
    {
      SequenceUnique(es, fs);
    }
    forall e | Accepts(ts, e)
      ensures es == (match e case None => [] case Some(x) => [x])
    {
      match e
      case None => NothingFlat(); SequenceUnique(es, []);
      case Some(x) => FlattenOne(x); SequenceUnique(es, [x]);
    }
  }

  lemma NothingFlat()
    ensures FlattenAll([]) == []
  {
  }

  // ---------------------------------------------------------------- verdicts by counting brackets

  lemma {:induction false} DepthCounts(ts: seq<Token>)
    ensures Depth(ts) + multiset(ts)[RightParen] == multiset(ts)[LeftParen]
    decreases |ts|
  {
    if ts != [] {
      var n := |ts| - 1;
      DepthCounts(ts[..n]);
      assert ts == ts[..n] + [ts[n]];
    }
  }

  /** A form comes back to depth zero at its end and nowhere before. */
  lemma NoInnerCut(e: SExpr, n: nat)
    requires 0 < n < |Flatten(e)|
    ensures Depth(Flatten(e)[..n]) > 0
  {
    var inner, ts := FlattenAll(e.items), Flatten(e);
    FlattenAllBalanced(e.items);
    assert ts[..n] == [LeftParen] + inner[..n - 1];
    DepthConcat([LeftParen], inner[..n - 1]);
    OneDeep();
  }

  lemma OneDeep()
    ensures forall t: Token :: Depth([t]) == Rise(t)
  {
    assert forall t: Token :: Depth([t]) == Depth([]) + Rise(t);
  }

  /** What follows a balanced beginning strays no more than the whole. */
  lemma RestBalanced(ts: seq<Token>, n: nat)
    requires n <= |ts| && Depth(ts[..n]) == 0
    ensures Depth(ts[n..]) == Depth(ts) && (!Stray(ts) ==> !Stray(ts[n..]))
  {
    hide Depth;
    assert ts == ts[..n] + ts[n..];
    DepthConcat(ts[..n], ts[n..]);
    forall k | 0 <= k <= |ts[n..]|
      ensures Depth(ts[n..][..k]) == Depth(ts[..n + k])
    {
      assert ts[..n + k] == ts[..n] + ts[n..][..k];
      DepthConcat(ts[..n], ts[n..][..k]);
    }
  }

  lemma FirstZero(ts: seq<Token>) returns (n: nat)
    requires ts != [] && !Stray(ts) && Depth(ts) == 0
    ensures 0 < n <= |ts| && Depth(ts[..n]) == 0 && forall k :: 0 < k < n ==> Depth(ts[..k]) > 0
  {
    hide Depth;
    assert ts[..|ts|] == ts;
    n := 1;
    while Depth(ts[..n]) != 0
      invariant 1 <= n <= |ts|
      invariant forall k :: 0 < k < n ==> Depth(ts[..k]) > 0
      decreases |ts| - n
    {
      assert Depth(ts[..n]) >= 0;
      n := n + 1;
    }
  }

  /** The place where the list that opens a balanced sequence is closed. */
  lemma ClosingPlace(ts: seq<Token>) returns (n: nat)
    requires ts != [] && ts[0] == LeftParen && !Stray(ts) && Depth(ts) == 0
    ensures 2 <= n <= |ts| && ts[n - 1] == RightParen && Depth(ts[..n]) == 0
    ensures !Stray(ts[1..n - 1]) && Depth(ts[1..n - 1]) == 0
  {
    hide Depth;
    n := FirstZero(ts);
    OneDeep();
    assert ts[..1] == [LeftParen];
    var before, last := ts[..n - 1], ts[n - 1];
    assert ts[..n] == before + [last];
    DepthConcat(before, [last]);
    forall k {:trigger ts[1..n - 1][..k]} | 0 <= k <= n - 2
      ensures Depth(ts[1..n - 1][..k]) == Depth(ts[..k + 1]) - 1
    {
      assert ts[..k + 1] == [LeftParen] + ts[1..n - 1][..k];
      DepthConcat([LeftParen], ts[1..n - 1][..k]);
    }
    assert ts[1..n - 1][..n - 2] == ts[1..n - 1];
  }

  /** Every balanced token sequence is a row of forms. */
  lemma {:induction false} BalancedReads(ts: seq<Token>) returns (es: seq<SExpr>)
    requires !Stray(ts) && Depth(ts) == 0
    ensures FlattenAll(es) == ts
    decreases |ts|
  {
    hide Depth, Stray;
    if ts == [] {
      es := [];
    } else {
      var n, e;
      n, e := FirstForm(ts);
      RestBalanced(ts, n);
      var rest := BalancedReads(ts[n..]);
      es := [e] + rest;
      assert ts == ts[..n] + ts[n..];
    }
  }

  lemma StartsOpen(ts: seq<Token>)
    requires !Stray(ts) && ts != []
    ensures ts[0] != RightParen
  {
    OneDeep();
    assert ts[..1] == [ts[0]];
  }

  lemma {:induction false} FirstForm(ts: seq<Token>) returns (n: nat, e: SExpr)
    requires !Stray(ts) && Depth(ts) == 0 && ts != []
    ensures 0 < n <= |ts| && Flatten(e) == ts[..n] && Depth(ts[..n]) == 0
    decreases |ts|, 0
  {
    OneDeep();
    StartsOpen(ts);
    assert ts[..1] == [ts[0]];
    match ts[0] {
      case AtomToken(text) =>
        n, e := 1, AtomExpr(text);
      case LeftParen =>
        n := ClosingPlace(ts);
        var inner := ts[1..n - 1];
        var items := BalancedReads(inner);
        e := ListExpr(items);
        assert ts[..n] == [LeftParen] + inner + [RightParen];
      case RightParen =>
        assert false;
    }
  }

  /** The verdicts by counting brackets alone: stray when some beginning closes more than it opens; else
      unclosed when the whole opens more than it closes; else several forms exactly when some proper
      beginning is already balanced. */
  lemma RejectsByCount(ts: seq<Token>)
    ensures var stray := exists n :: 0 <= n <= |ts| &&
                           multiset(ts[..n])[RightParen] > multiset(ts[..n])[LeftParen];
            && (Rejects(ts, StrayClosingParenthesis) <==> stray)
            && (Rejects(ts, UnclosedParenthesis) <==>
                  !stray && multiset(ts)[LeftParen] > multiset(ts)[RightParen])
            && (Rejects(ts, MultipleTopLevelForms) <==>
                  && !stray && multiset(ts)[LeftParen] == multiset(ts)[RightParen]
                  && exists n :: 0 < n < |ts| && multiset(ts[..n])[LeftParen] == multiset(ts[..n])[RightParen])
  {
    hide Depth, FlattenAll, Flatten;
    forall n | 0 <= n <= |ts|
      ensures Depth(ts[..n]) + multiset(ts[..n])[RightParen] == multiset(ts[..n])[LeftParen]
    {
      DepthCounts(ts[..n]);
    }
    DepthCounts(ts);
    assert ts[..|ts|] == ts;
    if !Stray(ts) && Depth(ts) == 0 {
      var es := BalancedReads(ts);
      VerdictsExclude(ts, es);
      CutsAreForms(ts, es);
    } else {
      forall es | ts == FlattenAll(es)
        ensures false
      {
        FlattenAllBalanced(es);
      }
    }
  }

  /** A row of forms is balanced at an inner place exactly when it has more than one form. */
  lemma CutsAreForms(ts: seq<Token>, es: seq<SExpr>)
    requires ts == FlattenAll(es)
    ensures (exists n :: 0 < n < |ts| && Depth(ts[..n]) == 0) <==> |es| > 1
  {
    hide Depth, Flatten;
    if |es| == 0 {
    } else if |es| == 1 {
      FlattenOne(es[0]);
      assert es == [es[0]];
      forall n | 0 < n < |ts|
        ensures Depth(ts[..n]) > 0
      {
        NoInnerCut(es[0], n);
      }
    } else {
      var n := |Flatten(es[0])|;
      FlattenBalanced(es[0]);
      assert ts[..n] == Flatten(es[0]);
      assert FlattenAll(es[1..]) == Flatten(es[1]) + FlattenAll(es[1..][1..]);
      assert 0 < n < |ts| && Depth(ts[..n]) == 0;
    }
  }

  /** The items of a list come in order: one more at the end puts its tokens before the closing bracket. */
  lemma FlattenLast(items: seq<SExpr>, e: SExpr)
    ensures Flatten(ListExpr([])) == [LeftParen, RightParen]
    ensures var ts := Flatten(ListExpr(items));
            Flatten(ListExpr(items + [e])) == ts[..|ts| - 1] + Flatten(e) + [RightParen]
  {
    hide FlattenAll;
    FlattenConcat(items, [e]);
    FlattenOne(e);
    NothingFlat();
    var ts := Flatten(ListExpr(items));
    assert ts[..|ts| - 1] == [LeftParen] + FlattenAll(items);
  }

  /** Nodes that a token sequence makes: one for each list opened and each atom. */
  ghost function NodeCount(ts: seq<Token>): nat {
    if ts == [] then 0
    else NodeCount(ts[..|ts| - 1]) + (if ts[|ts| - 1] == RightParen then 0 else 1)
  }
}
