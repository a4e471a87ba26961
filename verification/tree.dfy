/** src/core/tree.rs: the tree that owns the node slab. */
module Trees {
  import opened Wrappers
  import opened Utf8
  import opened Forms
  import opened Edits
  import opened Slabs
  import opened Links
  import opened Surgery
  import opened Arenas

  class Tree {
    const nodes: Slab<Node>
    const root: nat
    var version: nat
    const bare: bool
    var reprCache: Option<ReprEntry>
    /** The forest that the links encode; `ForestDetermined` says there is only one. */
    ghost var forms: Forest

    ghost predicate Forested()
      reads this, nodes
    {
      nodes.Valid() && Represents(nodes.slots, forms)
    }

    ghost predicate Valid()
      reads this, nodes
    {
      Forested() && root in forms && !Attached(forms, root)
    }

    ghost function View(): Arena
      reads this, nodes
    {
      Arena(forms, |nodes.slots|, nodes.free, root, version, bare, reprCache)
    }

    /** A tree that holds only an empty list: the implicit one of an empty input when `bare`. */
    constructor New(bare: bool)
      ensures Valid() && fresh(nodes)
      ensures View() == Arena(map[0 := Form(0, List, [])], 1, [], 0, 0, bare, None)
    {
      var slab := new Slab<Node>();
      var id := slab.Insert(NewNode(List));
      nodes, root, version, this.bare, reprCache := slab, id, 0, bare, None;
      forms := map[id := Form(id, List, [])];
      new;
      EmptyForest();
      GrowForest([], nodes.slots, map[], 0, List);
      assert forms == Grown(map[], 0, List);
    }

    /** Wraps a slab that is already linked up. */
    constructor FromRaw(nodes: Slab<Node>, root: nat, ghost forms: Forest)
      requires nodes.Valid() && Represents(nodes.slots, forms) && root in forms && !Attached(forms, root)
      ensures Valid() && this.nodes == nodes
      ensures View() == Arena(forms, |nodes.slots|, nodes.free, root, 0, false, None)
    {
      this.nodes, this.root, version, bare, reprCache := nodes, root, 0, false, None;
      this.forms := forms;
    }

    /** The derived clone: a copy of everything, detached nodes and cache included. */
    constructor Clone(other: Tree)
      requires other.Valid()
      ensures Valid() && fresh(nodes)
      ensures View() == other.View()
    {
      nodes := new Slab<Node>.Copy(other.nodes);
      root, version, bare, reprCache := other.root, other.version, other.bare, other.reprCache;
      forms := other.forms;
    }

    method BumpVersion()
      modifies this
      ensures View() == old(View()).(version := old(version) + 1)
    {
      version := version + 1;
    }

    method CachedRepr(node: nat) returns (r: Option<Str>)
      ensures r == if reprCache.Some? && reprCache.value.version == version && reprCache.value.node == node
                   then Some(reprCache.value.text) else None
    {
      match reprCache
      case Some(entry) =>
        if entry.version == version && entry.node == node {
          return Some(entry.text);
        }
        return None;
      case None =>
        return None;
    }

    method SetReprCache(node: nat, text: Str)
      modifies this
      ensures View() == old(View()).(cache := Some(ReprEntry(node, old(version), text)))
    {
      reprCache := Some(ReprEntry(node, version, text));
    }

    method ClearReprCache()
      modifies this
      ensures View() == old(View()).(cache := None)
    {
      reprCache := None;
    }

    function ContainsNode(id: nat): (b: bool)
      reads this, nodes
      ensures Forested() ==> (b <==> id in forms)
      ensures b <==> Live(nodes.slots, id)
    {
      assert Forested() ==> (id in KidMap(forms) <==> Live(nodes.slots, id));
      nodes.Get(id).Some?
    }

    /** Indexing panics on a stale id, so a live one is required. */
    function Get(id: nat): (n: Node)
      requires Live(nodes.slots, id)
      reads nodes
      ensures nodes.slots[id] == Some(n)
    {
      nodes.At(id)
    }

    method Alloc(kind: NodeType) returns (id: nat)
      requires Valid()
      modifies this, nodes
      ensures Valid()
      ensures id == NextId(old(View())) && id !in old(forms)
      ensures View() == Allocated(old(View()), kind)
    {
      ghost var before := nodes.slots;
      id := nodes.Insert(NewNode(kind));
      GrowForest(before, nodes.slots, forms, id, kind);
      GrownAttached(forms, id, kind, root);
      forms := Grown(forms, id, kind);
    }

    function Len(): (n: nat)
      requires Forested()
      reads this, nodes
      ensures n == |forms|
    {
      assert LiveSet(nodes.slots) == forms.Keys by {
        RepresentsParts(nodes.slots, forms);
      }
      nodes.Len()
    }
  }

  lemma EmptyForest()
    ensures Represents([], map[])
  {
  }
}
