/** Rows of slab indices: rows without repetition, taking one index out, splicing one in. */
module Rows {
  ghost predicate NoDup(s: seq<nat>) {
    forall i, j :: 0 <= i < j < |s| ==> s[i] != s[j]
  }

  lemma NoDupConcat(s: seq<nat>, t: seq<nat>)
    requires NoDup(s) && NoDup(t) && forall x :: x in s ==> x !in t
    ensures NoDup(s + t)
  {
    forall i, j | 0 <= i < j < |s + t|
      ensures (s + t)[i] != (s + t)[j]
    {
      if i < |s| && j >= |s| {
        assert s[i] in s && t[j - |s|] in t;
      }
    }
  }

  ghost function Without(ids: seq<nat>, c: nat): (r: seq<nat>)
    ensures forall x :: x in r <==> x in ids && x != c
    ensures c !in ids ==> r == ids
  {
    if ids == [] then []
    else if ids[0] == c then Without(ids[1..], c)
    else [ids[0]] + Without(ids[1..], c)
  }

  lemma {:induction false} WithoutNoDup(ids: seq<nat>, c: nat)
    requires NoDup(ids)
    ensures NoDup(Without(ids, c))
  {
    if ids != [] {
      WithoutNoDup(ids[1..], c);
      if ids[0] != c {
        assert ids[0] !in ids[1..];
        NoDupConcat([ids[0]], Without(ids[1..], c));
      }
    }
  }

  /** Taking the only occurrence out of a row closes the gap. */
  lemma {:induction false} WithoutAt(ids: seq<nat>, i: nat)
    requires NoDup(ids) && i < |ids|
    ensures Without(ids, ids[i]) == ids[..i] + ids[i + 1..]
  {
    hide NoDup;
    HeadApart(ids, i);
    if i > 0 {
      WithoutAt(ids[1..], i - 1);
      assert ids[..i] == [ids[0]] + ids[1..][..i - 1];
      assert ids[1..][i..] == ids[i + 1..];
    }
  }

  lemma HeadApart(ids: seq<nat>, i: nat)
    requires NoDup(ids) && i < |ids|
    ensures NoDup(ids[1..]) && ids[0] !in ids[1..] && (i > 0 ==> ids[0] != ids[i])
  {
  }

  ghost function IndexOf(ids: seq<nat>, x: nat): (i: nat)
    ensures i <= |ids|
    ensures i < |ids| <==> x in ids
    ensures i < |ids| ==> ids[i] == x
  {
    if ids == [] then 0 else if ids[0] == x then 0 else 1 + IndexOf(ids[1..], x)
  }

  ghost function Splice<A>(s: seq<A>, i: nat, x: A): (r: seq<A>)
    requires i <= |s|
    ensures |r| == |s| + 1
  {
    s[..i] + [x] + s[i..]
  }

  lemma SpliceMember(s: seq<nat>, i: nat, x: nat)
    requires i <= |s|
    ensures forall y :: y in Splice(s, i, x) <==> y == x || y in s
  {
    assert s == s[..i] + s[i..];
    assert forall y :: y in s[..i] + [x] + s[i..] <==> y in s[..i] || y == x || y in s[i..];
    assert forall y :: y in s[..i] + s[i..] <==> y in s[..i] || y in s[i..];
  }

  lemma SpliceNoDup(s: seq<nat>, i: nat, x: nat)
    requires i <= |s| && NoDup(s) && x !in s
    ensures NoDup(Splice(s, i, x))
  {
    NoDupConcat(s[..i], [x]);
    NoDupConcat(s[..i] + [x], s[i..]);
  }

  lemma NoDupApart(s: seq<nat>, t: seq<nat>)
    requires NoDup(s + t)
    ensures forall x :: x in s ==> x !in t
  {
    forall i, j | 0 <= i < |s| && 0 <= j < |t|
      ensures s[i] != t[j]
    {
      assert (s + t)[i] == s[i] && (s + t)[|s| + j] == t[j];
    }
  }
}
