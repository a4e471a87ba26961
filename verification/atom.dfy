/** src/memory/atom.rs: atom text kept inline up to 15 bytes, owned beyond that. */
module Atoms {
  import opened Utf8

  const INLINE_CAP: nat := 15

  datatype AtomInner =
    | Inline(len: Byte, buffer: seq<Byte>)
    | Owned(text: seq<Byte>)
  {
    /** What the unchecked UTF-8 read relies on. */
    ghost predicate Sealed() {
      match this
      case Inline(len, buffer) => |buffer| == INLINE_CAP && len <= INLINE_CAP && ValidUtf8(buffer[..len])
      case Owned(text) => ValidUtf8(text)
    }
  }

  ghost const EMPTY: AtomInner := Inline(0, Zeros(INLINE_CAP))

  type Atom = a: AtomInner | a.Sealed() ghost witness EMPTY

  function Zeros(n: nat): (z: seq<Byte>)
    ensures |z| == n
  {
    seq(n, _ => 0)
  }

  function New(value: Str): (a: Atom)
    ensures AsStr(a) == value
    ensures a.Inline? <==> |value| <= 15
  {
    if |value| <= INLINE_CAP then
      var buffer := value + Zeros(INLINE_CAP - |value|);
      assert buffer[..|value|] == value;
      Inline(|value|, buffer)
    else
      Owned(value)
  }

  function AsStr(a: Atom): (s: Str) {
    match a
    case Inline(len, buffer) => buffer[..len]
    case Owned(text) => text
  }
}
