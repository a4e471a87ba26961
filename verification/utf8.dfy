/** Byte strings and UTF-8 well-formedness as section 4 of RFC 3629 defines it.
    `Str` plays the part of Rust's `&str`: a byte string that is known to be valid UTF-8. */
module Utf8 {
  type Byte = b: int | 0 <= b < 0x100

  const OPEN: Byte := 0x28
  const CLOSE: Byte := 0x29
  const SPACE: Byte := 0x20

  predicate Tail(b: Byte) {
    0x80 <= b <= 0xBF
  }

  /** Length of the well-formed character that `s` starts with; 0 when there is none. */
  function CharLength(s: seq<Byte>): (n: nat)
    ensures n <= |s|
  {
    if |s| >= 1 && s[0] <= 0x7F then 1
    else if |s| >= 2 && 0xC2 <= s[0] <= 0xDF && Tail(s[1]) then 2
    else if |s| >= 3 && SecondOfThree(s[0], s[1]) && Tail(s[2]) then 3
    else if |s| >= 4 && SecondOfFour(s[0], s[1]) && Tail(s[2]) && Tail(s[3]) then 4
    else 0
  }

  predicate SecondOfThree(a: Byte, b: Byte) {
    || (a == 0xE0 && 0xA0 <= b <= 0xBF)
    || (0xE1 <= a <= 0xEC && Tail(b))
    || (a == 0xED && 0x80 <= b <= 0x9F)
    || (0xEE <= a <= 0xEF && Tail(b))
  }

  predicate SecondOfFour(a: Byte, b: Byte) {
    || (a == 0xF0 && 0x90 <= b <= 0xBF)
    || (0xF1 <= a <= 0xF3 && Tail(b))
    || (a == 0xF4 && 0x80 <= b <= 0x8F)
  }

  predicate ValidUtf8(s: seq<Byte>)
    decreases |s|
  {
    s == [] || (var n := CharLength(s); n > 0 && ValidUtf8(s[n..]))
  }

  type Str = s: seq<Byte> | ValidUtf8(s)

  /** Only the bytes of the first character decide its length. */
  lemma CharLengthIsLocal(s: seq<Byte>, t: seq<Byte>)
    requires CharLength(s) > 0
    requires |t| >= CharLength(s) && s[..CharLength(s)] == t[..CharLength(s)]
    ensures CharLength(t) == CharLength(s)
  {
    var n := CharLength(s);
    assert forall i :: 0 <= i < n ==> s[i] == s[..n][i] == t[..n][i] == t[i];
  }

  lemma {:induction false} ValidConcat(s: seq<Byte>, t: seq<Byte>)
    requires ValidUtf8(s) && ValidUtf8(t)
    ensures ValidUtf8(s + t)
    decreases |s|
  {
    hide CharLength;
    if s == [] {
      assert s + t == t;
    } else {
      var n := CharLength(s);
      assert (s + t)[..n] == s[..n];
      CharLengthIsLocal(s, s + t);
      ValidConcat(s[n..], t);
      assert (s + t)[n..] == s[n..] + t;
    }
  }

  lemma NothingIsValid()
    ensures ValidUtf8([])
  {
  }

  lemma AsciiIsValid(b: Byte)
    requires b < 0x80
    ensures ValidUtf8([b])
  {
    assert [b][1..] == [];
  }

  lemma AsciiAlone(s: seq<Byte>)
    requires s != [] && s[0] < 0x80
    ensures CharLength(s) == 1
  {
  }

  lemma LongOnlyAboveAscii(s: seq<Byte>, i: nat)
    requires 0 < i < |s| && s[i] < 0x80
    ensures CharLength(s) <= i
  {
  }

  /** An ASCII byte is never inside a longer character, so a valid string may be cut on either side of it. */
  lemma {:induction false} SplitAtAscii(s: seq<Byte>, i: nat)
    requires ValidUtf8(s) && i < |s| && s[i] < 0x80
    ensures ValidUtf8(s[..i]) && ValidUtf8(s[i..]) && ValidUtf8(s[i + 1..])
    decreases |s|
  {
    hide CharLength;
    var n := CharLength(s);
    if i == 0 {
      AsciiAlone(s);
      assert s[0..] == s;
    } else {
      LongOnlyAboveAscii(s, i);
      SplitAtAscii(s[n..], i - n);
      assert s[n..][..i - n] == s[..i][n..];
      assert s[n..][i - n..] == s[i..];
      assert s[n..][i - n + 1..] == s[i + 1..];
      assert s[..n] == s[..i][..n];
      CharLengthIsLocal(s, s[..i]);
    }
  }

  // ---------------------------------------------------------------- the characters behind the bytes

  /** Any code point but a surrogate. */
  ghost predicate Scalar(c: nat) {
    c < 0xD800 || 0xE000 <= c < 0x110000
  }

  /** The bytes of one character, six bits to each byte after the first. */
  ghost function Encode(c: nat): seq<Byte>
    requires Scalar(c)
  {
    if c < 0x80 then [c]
    else if c < 0x800 then [0xC0 + c / 0x40, 0x80 + c % 0x40]
    else if c < 0x1_0000 then [0xE0 + c / 0x40 / 0x40, 0x80 + c / 0x40 % 0x40, 0x80 + c % 0x40]
    else
      [0xF0 + c / 0x40 / 0x40 / 0x40, 0x80 + c / 0x40 / 0x40 % 0x40, 0x80 + c / 0x40 % 0x40, 0x80 + c % 0x40]
  }

  ghost predicate Scalars(cs: seq<nat>) {
    forall i :: 0 <= i < |cs| ==> Scalar(cs[i])
  }

  ghost function EncodeAll(cs: seq<nat>): seq<Byte>
    requires Scalars(cs)
  {
    if cs == [] then [] else Encode(cs[0]) + EncodeAll(cs[1..])
  }

  lemma CharEncoded(c: nat, t: seq<Byte>)
    requires Scalar(c)
    ensures CharLength(Encode(c) + t) == |Encode(c)| > 0
  {
    var s := Encode(c) + t;
    assert forall i :: 0 <= i < |Encode(c)| ==> s[i] == Encode(c)[i];
  }

  lemma SixBits(high: nat, low: nat)
    requires low < 0x40
    ensures (high * 0x40 + low) / 0x40 == high && (high * 0x40 + low) % 0x40 == low
  {
  }

  lemma CharDecoded(s: seq<Byte>) returns (c: nat)
    requires CharLength(s) > 0
    ensures Scalar(c) && Encode(c) == s[..CharLength(s)]
  {
    var n := CharLength(s);
    if n == 1 {
      c := s[0];
    } else {
      var high: nat := s[0] as int - (if n == 2 then 0xC0 else if n == 3 then 0xE0 else 0xF0);
      c := Lower(high, s[1]);
      if n > 2 {
        c := Lower(c, s[2]);
      }
      if n > 3 {
        c := Lower(c, s[3]);
      }
    }
  }

  /** Six more bits from a byte after the first. */
  lemma Lower(high: nat, b: Byte) returns (c: nat)
    requires Tail(b)
    ensures c == high * 0x40 + (b as int - 0x80) && c / 0x40 == high && 0x80 + c % 0x40 == b
  {
    c := high * 0x40 + (b as int - 0x80);
    SixBits(high, b as int - 0x80);
  }

  lemma {:induction false} EncodedValid(cs: seq<nat>)
    requires Scalars(cs)
    ensures ValidUtf8(EncodeAll(cs))
  {
    hide Encode, CharLength;
    if cs != [] {
      var rest := EncodeAll(cs[1..]);
      EncodedValid(cs[1..]);
      CharEncoded(cs[0], rest);
      assert (Encode(cs[0]) + rest)[|Encode(cs[0])|..] == rest;
    }
  }

  lemma {:induction false} ValidEncoded(s: seq<Byte>) returns (cs: seq<nat>)
    requires ValidUtf8(s)
    ensures Scalars(cs) && EncodeAll(cs) == s
    decreases |s|
  {
    hide Encode, CharLength;
    if s == [] {
      cs := [];
    } else {
      var n := CharLength(s);
      var c := CharDecoded(s);
      var rest := ValidEncoded(s[n..]);
      cs := [c] + rest;
      assert cs[1..] == rest && s == s[..n] + s[n..];
    }
  }

  /** The byte tables accept exactly the encodings of sequences of code points without surrogates. */
  lemma ValidMeansEncoded(s: seq<Byte>)
    ensures ValidUtf8(s) <==> exists cs :: Scalars(cs) && EncodeAll(cs) == s
  {
    if ValidUtf8(s) {
      var cs := ValidEncoded(s);
    }
    forall cs | Scalars(cs) && EncodeAll(cs) == s
      ensures ValidUtf8(s)
    {
      EncodedValid(cs);
    }
  }
}
