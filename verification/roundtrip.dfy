/** tests/python/round_trip: the parser and the printer against each other, from tree to tree and from
    text to text. */
module RoundTrips {
  import opened Wrappers
  import opened Utf8
  import opened Forms
  import opened Trees
  import opened Tokenizing
  import opened Grammar
  import opened Serializer
  import opened Parsing
  import opened PyApi
  import Links
  import Slabs

  /** Printing a node and parsing the text gives a tree of the same S-expression exactly when all its
      atoms are good. */
  method PrintAndParse(tree: Tree, node: nat) returns (r: Result<Tree, ParseError>)
    requires tree.Forested() && node in tree.forms
    ensures r.Ok? ==> r.value.Valid() && fresh(r.value) && fresh(r.value.nodes)
    ensures GoodAtoms(Abs(tree.forms[node])) <==>
              r.Ok? && Abs(r.value.forms[r.value.root]) == Abs(tree.forms[node])
    ensures GoodAtoms(Abs(tree.forms[node])) ==>
              !r.value.bare && r.value.Len() == NodeCount(Flatten(Abs(tree.forms[node])))
  {
    hide Tokens, Text, Flatten, GoodAtoms, Abs, NodeCount;
    ghost var e := Abs(tree.forms[node]);
    var text := SerializeNode(tree, node);
    r := Parse(text);
    RoundTrip(e);
    if GoodAtoms(e) {
      assert Accepts(Tokens(text), Some(e));
      OneReading(e, Abs(r.value.forms[r.value.root]));
    } else if r.Ok? && Tokens(text) == [] {
      EmptyListGood();
    }
  }

  /** `repr` of what was parsed has the tokens of the input and nothing but its layout changed.  The inputs
      it gives back as they are: the empty one, and the canonical texts of S-expressions whose atoms are
      non-empty and stop-free. */
  method ParseAndRepr(input: Str) returns (r: Result<seq<Byte>, ParseError>)
    ensures forall e :: r == Err(e) <==> Rejects(Tokens(input), e)
    ensures r.Ok? ==> Tokens(r.value) == Tokens(input)
    ensures r.Ok? && Tokens(input) == [] ==> r.value == []
    ensures r.Ok? && Tokens(input) != [] ==> exists e :: Flatten(e) == Tokens(input) && r.value == Text(e)
    ensures r == Ok(input) <==> input == [] || exists e :: GoodAtoms(e) && input == Text(e)
  {
    hide Tokens, Text, Flatten, GoodAtoms, Abs, NodeCount, Links.Represents, Slabs.FreeExact, Rejects, Accepts;
    var parsed := Parse(input);
    if parsed.Err? {
      Unread(input);
      return Err(parsed.error);
    }
    ghost var top := parsed.value.forms[parsed.value.root];
    var text := ReprOf(parsed.value);
    if Tokens(input) == [] {
      NothingRead(input);
    } else {
      Reread(input, Abs(top));
    }
    return Ok(text);
  }

  /** `repr` of a tree just parsed. */
  method ReprOf(tree: Tree) returns (text: seq<Byte>)
    requires tree.Valid() && tree.reprCache.None?
    modifies tree
    ensures text == if old(tree.bare && tree.forms[tree.root].kids == []) then []
                    else Text(Abs(old(tree.forms)[tree.root]))
  {
    hide Text, Abs, Links.Represents, Slabs.FreeExact;
    SessionStarts(tree, tree.View());
    var handle := new SExp.FromTree(tree);
    var r := handle.Repr();
    return r.value;
  }

  lemma OneReading(e: SExpr, g: SExpr)
    requires Flatten(e) == Flatten(g)
    ensures e == g
  {
    assert Flatten(e) + [] == Flatten(g) + [];
    FlattenUnique(e, [], g, []);
  }

  lemma EmptyListGood()
    ensures forall t: Form :: t.kind.List? && t.kids == [] ==> GoodAtoms(Abs(t))
  {
  }

  /** An input without tokens is canonical only when empty. */
  lemma NothingRead(input: seq<Byte>)
    requires Tokens(input) == []
    ensures Tokens([]) == [] && !exists e :: GoodAtoms(e) && input == Text(e)
  {
    hide Text, Flatten, GoodAtoms;
    NoneCanonical(input);
  }

  lemma Unread(input: seq<Byte>)
    requires !exists e :: Accepts(Tokens(input), e)
    ensures input != [] && !exists e :: GoodAtoms(e) && input == Text(e)
  {
    hide Text, Flatten, GoodAtoms;
    assert Tokens([]) == [] && Accepts([], None);
    NoneCanonical(input);
  }

  /** Printing what was read keeps the tokens, and gives the input back exactly when it is canonical. */
  lemma Reread(input: seq<Byte>, e: SExpr)
    requires Tokens(input) != [] && Flatten(e) == Tokens(input)
    ensures Tokens(Text(e)) == Tokens(input) && input != []
    ensures (exists g :: GoodAtoms(g) && input == Text(g)) <==> input == Text(e)
  {
    hide Text, Flatten, GoodAtoms;
    assert Tokens([]) == [];
    PrintAfterRead(input, e);
    if input == Text(e) {
      RoundTrip(e);
    }
    forall g | GoodAtoms(g) && input == Text(g)
      ensures g == e
    {
      RoundTrip(g);
      OneReading(e, g);
    }
  }

  /** What is not read as one expression is no canonical text. */
  lemma NoneCanonical(input: seq<Byte>)
    requires forall e :: !Accepts(Tokens(input), Some(e))
    ensures !exists e :: GoodAtoms(e) && input == Text(e)
  {
    hide Tokens, Text, Flatten, GoodAtoms;
    forall e | GoodAtoms(e) && input == Text(e)
      ensures false
    {
      RoundTrip(e);
    }
  }
}
