/** src/parse/tokenizer.rs: the byte-table tokenizer against a recursive one, and both against a
    description of which texts spell which tokens. */
module Tokenizing {
  import opened Wrappers
  import opened Utf8

  datatype Token = LeftParen | RightParen | AtomToken(text: seq<Byte>)

  /** The class of a byte: 1 for brackets, 2 for whitespace, 0 for the rest. */
  function Stop(b: Byte): nat {
    if b == OPEN || b == CLOSE then 1
    else if b == SPACE || b == 0x09 || b == 0x0A || b == 0x0D then 2
    else 0
  }

  ghost predicate AllSpace(s: seq<Byte>) {
    forall i :: 0 <= i < |s| ==> Stop(s[i]) == 2
  }

  /** Text that can be read back as one atom. */
  ghost predicate AtomText(s: seq<Byte>) {
    s != [] && forall i :: 0 <= i < |s| ==> Stop(s[i]) == 0
  }

  ghost predicate GoodToken(t: Token) {
    t.AtomToken? ==> AtomText(t.text)
  }

  ghost function Spelling(t: Token): seq<Byte> {
    match t
    case LeftParen => [OPEN]
    case RightParen => [CLOSE]
    case AtomToken(text) => text
  }

  ghost function AtomLength(s: seq<Byte>): (n: nat)
    ensures n <= |s|
    ensures forall i :: 0 <= i < n ==> Stop(s[i]) == 0
    ensures n < |s| ==> Stop(s[n]) != 0
  {
    if s == [] || Stop(s[0]) != 0 then 0 else 1 + AtomLength(s[1..])
  }

  /** The token sequence of a text. */
  ghost function Tokens(s: seq<Byte>): seq<Token>
    decreases |s|
  {
    if s == [] then []
    else if Stop(s[0]) == 2 then Tokens(s[1..])
    else if s[0] == OPEN then [LeftParen] + Tokens(s[1..])
    else if s[0] == CLOSE then [RightParen] + Tokens(s[1..])
    else var n := AtomLength(s); [AtomToken(s[..n])] + Tokens(s[n..])
  }

  /** Nothing runs into an atom that ends here. */
  ghost predicate Ends(s: seq<Byte>) {
    s == [] || Stop(s[0]) != 0
  }

  lemma {:induction false} SkipSpace(gap: seq<Byte>, s: seq<Byte>)
    requires AllSpace(gap)
    ensures Tokens(gap + s) == Tokens(s)
  {
    if gap == [] {
      assert gap + s == s;
    } else {
      assert (gap + s)[1..] == gap[1..] + s;
      SkipSpace(gap[1..], s);
    }
  }

  lemma {:induction false} AtomLengthOf(text: seq<Byte>, s: seq<Byte>)
    requires Ends(s) && forall i :: 0 <= i < |text| ==> Stop(text[i]) == 0
    ensures AtomLength(text + s) == |text|
  {
    if text == [] {
      assert text + s == s;
    } else {
      assert (text + s)[1..] == text[1..] + s;
      AtomLengthOf(text[1..], s);
    }
  }

  lemma ReadToken(t: Token, s: seq<Byte>)
    requires GoodToken(t) && (t.AtomToken? ==> Ends(s))
    ensures Tokens(Spelling(t) + s) == [t] + Tokens(s)
  {
    var w := Spelling(t) + s;
    if t.AtomToken? {
      AtomLengthOf(t.text, s);
      assert w[..|t.text|] == t.text && w[|t.text|..] == s;
    } else {
      assert w[1..] == s;
    }
  }

  /** The tokens of a text by the bytes it starts with: whitespace is skipped, a bracket is a token, and
      anything else starts an atom that goes on to the next whitespace or bracket. */
  lemma TokensByByte(s: seq<Byte>) returns (n: nat)
    requires s != []
    ensures s[0] in {0x20, 0x09, 0x0A, 0x0D} ==> n == 1 && Tokens(s) == Tokens(s[1..])
    ensures s[0] == 0x28 ==> n == 1 && Tokens(s) == [LeftParen] + Tokens(s[1..])
    ensures s[0] == 0x29 ==> n == 1 && Tokens(s) == [RightParen] + Tokens(s[1..])
    ensures s[0] !in {0x28, 0x29, 0x20, 0x09, 0x0A, 0x0D} ==>
              && 0 < n <= |s| && Tokens(s) == [AtomToken(s[..n])] + Tokens(s[n..])
              && (forall i :: 0 <= i < n ==> s[i] !in {0x28, 0x29, 0x20, 0x09, 0x0A, 0x0D})
              && (n < |s| ==> s[n] in {0x28, 0x29, 0x20, 0x09, 0x0A, 0x0D})
  {
    n := if Stop(s[0]) == 0 then AtomLength(s) else 1;
  }

  /** Every token read is well formed: atoms are non-empty and free of stop bytes. */
  lemma {:induction false} TokensGood(s: seq<Byte>)
    ensures forall i :: 0 <= i < |Tokens(s)| ==> GoodToken(Tokens(s)[i])
    decreases |s|
  {
    if s != [] {
      if Stop(s[0]) == 0 {
        TokensGood(s[AtomLength(s)..]);
      } else {
        TokensGood(s[1..]);
      }
    }
  }

  // ---------------------------------------------------------------- layouts

  /** A token with the whitespace in front of it. */
  datatype Piece = Piece(gap: seq<Byte>, token: Token)

  ghost function Layout(pieces: seq<Piece>, tail: seq<Byte>): seq<Byte> {
    if pieces == [] then tail
    else pieces[0].gap + Spelling(pieces[0].token) + Layout(pieces[1..], tail)
  }

  ghost function TokensOf(pieces: seq<Piece>): (ts: seq<Token>)
    ensures |ts| == |pieces|
  {
    seq(|pieces|, i requires 0 <= i < |pieces| => pieces[i].token)
  }

  /** Whitespace everywhere it is allowed and wherever two atoms would otherwise touch. */
  ghost predicate WellSpaced(pieces: seq<Piece>, tail: seq<Byte>) {
    && AllSpace(tail)
    && (forall i :: 0 <= i < |pieces| ==> AllSpace(pieces[i].gap) && GoodToken(pieces[i].token))
    && (forall i :: 0 < i < |pieces| && pieces[i - 1].token.AtomToken? && pieces[i].token.AtomToken? ==>
          pieces[i].gap != [])
  }

  /** Whatever the layout, its tokens are what the tokenizer reads. */
  lemma {:induction false} LayoutRead(pieces: seq<Piece>, tail: seq<Byte>)
    requires WellSpaced(pieces, tail)
    ensures Tokens(Layout(pieces, tail)) == TokensOf(pieces)
    decreases |pieces|
  {
    hide Tokens, WellSpaced, Spelling, AllSpace, GoodToken, Ends;
    if pieces == [] {
      NothingElse(tail);
      SkipSpace(tail, []);
      NoTokens();
      assert tail + [] == tail;
    } else {
      var p, rest := pieces[0], Layout(pieces[1..], tail);
      LayoutTail(pieces, tail);
      LayoutRead(pieces[1..], tail);
      ReadToken(p.token, rest);
      SkipSpace(p.gap, Spelling(p.token) + rest);
      assert Layout(pieces, tail) == p.gap + (Spelling(p.token) + rest);
      assert TokensOf(pieces) == [p.token] + TokensOf(pieces[1..]);
    }
  }

  lemma NothingElse(tail: seq<Byte>)
    requires WellSpaced([], tail)
    ensures AllSpace(tail)
  {
  }

  lemma LayoutTail(pieces: seq<Piece>, tail: seq<Byte>)
    requires WellSpaced(pieces, tail) && pieces != []
    ensures WellSpaced(pieces[1..], tail) && AllSpace(pieces[0].gap) && GoodToken(pieces[0].token)
    ensures pieces[0].token.AtomToken? ==> Ends(Layout(pieces[1..], tail))
  {
    var rest := pieces[1..];
    forall i | 0 < i < |rest| && rest[i - 1].token.AtomToken? && rest[i].token.AtomToken?
      ensures rest[i].gap != []
    {
      assert pieces[i + 1 - 1] == rest[i - 1] && pieces[i + 1] == rest[i];
    }
    if pieces[0].token.AtomToken? && rest != [] {
      assert rest[0] == pieces[1];
    }
  }

  /** And every text whatever is such a layout of its tokens. */
  lemma {:induction false} EveryTextIsLayout(s: seq<Byte>) returns (pieces: seq<Piece>, tail: seq<Byte>)
    ensures WellSpaced(pieces, tail) && Layout(pieces, tail) == s && TokensOf(pieces) == Tokens(s)
    ensures Ends(s) || (pieces != [] && pieces[0].gap == [])
    decreases |s|
  {
    if s == [] {
      pieces, tail := [], [];
    } else if Stop(s[0]) == 2 {
      pieces, tail := EveryTextIsLayout(s[1..]);
      if pieces == [] {
        tail := [s[0]] + tail;
      } else {
        pieces := WidenGap(s[0], pieces, tail);
      }
      assert s == [s[0]] + s[1..];
    } else {
      var n := if Stop(s[0]) == 1 then 1 else AtomLength(s);
      var t := if s[0] == OPEN then LeftParen else if s[0] == CLOSE then RightParen else AtomToken(s[..n]);
      assert s == Spelling(t) + s[n..];
      pieces, tail := EveryTextIsLayout(s[n..]);
      ReadToken(t, s[n..]);
      hide Layout, Tokens, WellSpaced, TokensOf, AtomLength;
      pieces := AddPiece(t, pieces, tail);
    }
  }

  lemma WidenGap(b: Byte, pieces: seq<Piece>, tail: seq<Byte>) returns (wider: seq<Piece>)
    requires Stop(b) == 2 && pieces != [] && WellSpaced(pieces, tail)
    ensures wider != [] && WellSpaced(wider, tail) && TokensOf(wider) == TokensOf(pieces)
    ensures Layout(wider, tail) == [b] + Layout(pieces, tail)
  {
    wider := [Piece([b] + pieces[0].gap, pieces[0].token)] + pieces[1..];
    assert forall i :: 0 < i < |pieces| ==> wider[i] == pieces[i];
    assert forall i :: 0 <= i < |pieces| ==> wider[i].token == pieces[i].token;
    assert wider[1..] == pieces[1..];
  }

  lemma AddPiece(t: Token, pieces: seq<Piece>, tail: seq<Byte>) returns (more: seq<Piece>)
    requires GoodToken(t) && WellSpaced(pieces, tail) && (t.AtomToken? ==> Ends(Layout(pieces, tail)))
    ensures more != [] && more[0].gap == [] && WellSpaced(more, tail)
    ensures TokensOf(more) == [t] + TokensOf(pieces)
    ensures Layout(more, tail) == Spelling(t) + Layout(pieces, tail)
  {
    more := [Piece([], t)] + pieces;
    assert more[1..] == pieces;
    forall i | 0 < i < |more| && more[i - 1].token.AtomToken? && more[i].token.AtomToken?
      ensures more[i].gap != []
    {
      assert more[i] == pieces[i - 1];
      if i > 1 {
        assert more[i - 1] == pieces[i - 2];
      }
    }
  }

  // ---------------------------------------------------------------- the tokenizer

  /** `token` is the first one of `before`, read after the whitespace `gap` and with `after` left over. */
  ghost predicate Reads(before: seq<Byte>, gap: seq<Byte>, token: Token, after: seq<Byte>) {
    && AllSpace(gap) && before == gap + Spelling(token) + after
    && GoodToken(token) && |after| < |before|
    && Tokens(before) == [token] + Tokens(after)
    && (token.AtomToken? ==> ValidUtf8(token.text) && Ends(after))
  }

  class Tokenizer {
    var remaining: Str

    constructor (input: Str)
      ensures remaining == input
    {
      remaining := input;
    }

    /** Yields the next token.  Each cut of `remaining` falls on a character boundary, so what is kept
        and what is handed out are again valid UTF-8. */
    method Next() returns (r: Option<Token>, ghost gap: seq<Byte>)
      modifies this
      ensures r.None? ==> AllSpace(old(remaining)) && Tokens(old(remaining)) == [] && remaining == []
      ensures r.Some? ==> Reads(old(remaining), gap, r.value, remaining)
      ensures forall i :: 0 <= i < |gap| ==> gap[i] in {0x20, 0x09, 0x0A, 0x0D}
      ensures r.None? ==> gap == old(remaining)
      ensures r.Some? ==>
                var rest := old(remaining)[|gap|..];
                && old(remaining) == gap + rest && rest != []
                && (r.value == LeftParen <==> rest[0] == 0x28) && (r.value == RightParen <==> rest[0] == 0x29)
                && (!r.value.AtomToken? ==> rest == [rest[0]] + remaining)
                && (r.value.AtomToken? ==>
                      && rest == r.value.text + remaining && r.value.text != []
                      && (forall i :: 0 <= i < |r.value.text| ==>
                            r.value.text[i] !in {0x28, 0x29, 0x20, 0x09, 0x0A, 0x0D})
                      && (remaining != [] ==> remaining[0] in {0x28, 0x29, 0x20, 0x09, 0x0A, 0x0D}))
    {
      hide ValidUtf8, Tokens, AllSpace, Reads;
      var bytes := remaining;
      var start := SkipTo(bytes, 0, 2);
      gap := bytes[..start];
      SpaceRead(bytes, start);
      if start == |bytes| {
        remaining := bytes[start..];
        NoTokens();
        assert gap == bytes;
        SpaceBytes(gap);
        return None, gap;
      }
      var rest: Str := bytes[start..];
      if rest[0] == OPEN || rest[0] == CLOSE {
        BracketRead(bytes, start);
        ReadBytes(bytes, gap, if rest[0] == OPEN then LeftParen else RightParen, rest[1..]);
        remaining := rest[1..];
        return Some(if rest[0] == OPEN then LeftParen else RightParen), gap;
      }
      var end := SkipTo(rest, 0, 0);
      AtomRead(bytes, start, end);
      ReadBytes(bytes, gap, AtomToken(rest[..end]), rest[end..]);
      remaining := rest[end..];
      return Some(AtomToken(rest[..end])), gap;
    }
  }

  lemma SpaceBytes(gap: seq<Byte>)
    requires AllSpace(gap)
    ensures forall i :: 0 <= i < |gap| ==> gap[i] in {0x20, 0x09, 0x0A, 0x0D}
  {
  }

  /** What has been read, byte by byte. */
  lemma ReadBytes(before: seq<Byte>, gap: seq<Byte>, token: Token, after: seq<Byte>)
    requires Reads(before, gap, token, after)
    ensures forall i :: 0 <= i < |gap| ==> gap[i] in {0x20, 0x09, 0x0A, 0x0D}
    ensures |gap| < |before|
    ensures var rest := before[|gap|..];
            && before == gap + rest && rest != []
            && (token == LeftParen <==> rest[0] == 0x28) && (token == RightParen <==> rest[0] == 0x29)
            && (!token.AtomToken? ==> rest == [rest[0]] + after)
            && (token.AtomToken? ==>
                  && rest == token.text + after && token.text != []
                  && (forall i :: 0 <= i < |token.text| ==> token.text[i] !in {0x28, 0x29, 0x20, 0x09, 0x0A, 0x0D})
                  && (after != [] ==> after[0] in {0x28, 0x29, 0x20, 0x09, 0x0A, 0x0D}))
  {
    hide Tokens, ValidUtf8;
    assert before[|gap|..] == Spelling(token) + after;
  }

  lemma SpaceRead(s: Str, i: nat)
    requires i <= |s| && forall j :: 0 <= j < i ==> Stop(s[j]) == 2
    ensures ValidUtf8(s[i..]) && AllSpace(s[..i]) && s == s[..i] + s[i..] && Tokens(s) == Tokens(s[i..])
  {
    hide ValidUtf8, Tokens;
    SkipSpace(s[..i], s[i..]);
    assert s == s[..i] + s[i..];
    if i == 0 {
      assert s[0..] == s;
    } else {
      SplitAtAscii(s, i - 1);
    }
  }

  lemma BracketRead(bytes: Str, start: nat)
    requires start < |bytes| && forall j :: 0 <= j < start ==> Stop(bytes[j]) == 2
    requires bytes[start] == OPEN || bytes[start] == CLOSE
    ensures var s := bytes[start..];
            var t := if s[0] == OPEN then LeftParen else RightParen;
            ValidUtf8(s[1..]) && Reads(bytes, bytes[..start], t, s[1..])
  {
    hide ValidUtf8, Tokens, AllSpace;
    SpaceRead(bytes, start);
    var s: Str := bytes[start..];
    var t := if s[0] == OPEN then LeftParen else RightParen;
    SplitAtAscii(s, 0);
    ReadToken(t, s[1..]);
    assert s == Spelling(t) + s[1..];
  }

  lemma AtomRead(bytes: Str, start: nat, i: nat)
    requires start < |bytes| && (forall j :: 0 <= j < start ==> Stop(bytes[j]) == 2) && Stop(bytes[start]) == 0
    requires var s := bytes[start..];
             i <= |s| && (forall j :: 0 <= j < i ==> Stop(s[j]) == 0) && (i < |s| ==> Stop(s[i]) != 0)
    ensures var s := bytes[start..];
            ValidUtf8(s[..i]) && ValidUtf8(s[i..]) && Reads(bytes, bytes[..start], AtomToken(s[..i]), s[i..])
  {
    hide ValidUtf8, Tokens, AllSpace;
    SpaceRead(bytes, start);
    var s: Str := bytes[start..];
    assert s == s[..i] + s[i..];
    ReadToken(AtomToken(s[..i]), s[i..]);
    if i == |s| {
      NothingIsValid();
      assert s[..i] == s && s[i..] == [];
    } else {
      SplitAtAscii(s, i);
    }
  }

  lemma NoTokens()
    ensures Tokens([]) == []
  {
  }

  /** The position scan: first index from `from` on whose byte is not of the given class. */
  method SkipTo(bytes: seq<Byte>, from: nat, kind: nat) returns (i: nat)
    requires from <= |bytes|
    ensures from <= i <= |bytes|
    ensures forall j :: from <= j < i ==> Stop(bytes[j]) == kind
    ensures i < |bytes| ==> Stop(bytes[i]) != kind
  {
    i := from;
    while i < |bytes| && Stop(bytes[i]) == kind
      invariant from <= i <= |bytes|
      invariant forall j :: from <= j < i ==> Stop(bytes[j]) == kind
    {
      i := i + 1;
    }
  }
}
