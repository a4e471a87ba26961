/** A whole tree as a value: its forest together with the slab bookkeeping, the version counter and
    the repr cache, and the effect that each core operation has on it. */
module Arenas {
  import opened Wrappers
  import opened Utf8
  import opened Forms
  import opened Edits
  import Slabs

  /** The cached serialization: whose it is, at which version it was taken, and its text. */
  datatype ReprEntry = ReprEntry(node: nat, version: nat, text: Str)

  datatype Arena = Arena(
    forms: Forest,
    size: nat,
    free: seq<nat>,
    root: nat,
    version: nat,
    bare: bool,
    cache: Option<ReprEntry>)

  ghost function NextId(a: Arena): nat {
    Slabs.NextKey(a.size, a.free)
  }

  ghost function Allocated(a: Arena, kind: NodeType): Arena {
    var id := NextId(a);
    a.(forms := Grown(a.forms, id, kind),
       size := if id < a.size then a.size else a.size + 1,
       free := Slabs.PopFree(a.free))
  }

  /** What the cycle check sees: an unattached child is only compared with the parent itself. */
  ghost predicate CycleSeen(f: Forest, parent: nat, child: nat)
    requires child in f
  {
    if Attached(f, child) then parent in Pre(f[child]) else parent == child
  }

  ghost function Attach(a: Arena, parent: nat, place: Place, child: nat): Arena
    requires child in a.forms
  {
    a.(forms := Moved(a.forms, parent, place, child), version := a.version + 1)
  }

  /** Once past the cycle check, does a move leave links that encode a forest? */
  ghost predicate Keeps(f: Forest, parent: nat, place: Place, child: nat)
    requires parent in f && child in f
  {
    && parent !in Pre(f[child])
    && (place.After? ==> place.sibling != child && place.sibling in KidMap(f)[parent])
  }

  /** The tree after a move that passed the cycle check.  Links that encode no forest leave none. */
  ghost function Relinked(a: Arena, parent: nat, place: Place, child: nat): Arena
    requires parent in a.forms && child in a.forms
  {
    if Keeps(a.forms, parent, place, child) then Attach(a, parent, place, child)
    else a.(forms := map[], version := a.version + 1)
  }

  /** The slots of a removed subtree go to the free list in preorder. */
  ghost function Remove(a: Arena, node: nat): Arena
    requires node in a.forms
  {
    a.(forms := Removed(a.forms, node), free := a.free + Pre(a.forms[node]))
  }
}
