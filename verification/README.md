# Verification of the mutable S-expression tree

This project models the Rust core of `sexp` and proves it: a node slab with slot reuse, the linked
forest kept in it, the parser and printer around it, the explicit-stack walks over it, and the
version-guarded handles that Python sees.

`dafny verify dfyconfig.toml` checks everything (Dafny 4.11).

## How it is built

* **Values.** A `Form` is a node with everything below it, each node labelled with its slab index. A
  `Forest` gives the form rooted at every live slot (`forms.dfy`). Forms are finite, so a slab that has
  a forest has no cycle. `edits.dfy` says what each operation does to forms without mentioning a
  pointer: cut a node out, splice one in, drop a subtree, change a kind. `Abs` forgets the indices and
  gives the S-expression. It ignores whatever hangs below an atom, as printing and equality do.
* **Pointers.** `links.dfy` defines when first/last/previous/next/parent links and child counts spell
  out given rows of children; `surgery.dfy` proves that each rewrite performs exactly its edit, that
  the links alone decide the forest, and which rewrites leave links that encode no forest at all.
  `Slab`, `Tree`, `ChildIter`, `DepthFirstIter`, `Tokenizer`, `SExp` and `SExpIter` are classes that
  update their fields in place.
* **Text.** `Tokens` is the recursive tokenizer. Two lemmas characterise it: every spaced-out layout of
  well-formed tokens is read as those tokens, and every byte string is such a layout. `Flatten` gives
  the tokens of an S-expression, `Text` its canonical text.
* **Handles.** `handles.dfy` is a state machine over one tree and any number of handles and iterators.
  Each allocation carries a ghost birth stamp. `runs.dfy` proves what every run keeps. The methods of
  `SExp` (`pyapi.dfy`) change the concrete tree exactly as the machine's calls change its arena, and
  `Session` (`session.dfy`) composes them: a whole session on objects is a run of the machine.
  `witnesses.dfy` holds concrete runs from a new tree, one for each call that the code fails to check.

## What the code relies on but does not check

* A child that is moved must not be the root (`AttachValid`: otherwise the root gains a parent), and
  the new parent must not lie inside it. The cycle check sees only the second, and only for attached
  children (src/core/mutation.rs:6-10). `Append`, `Prepend` and `InsertAfter` therefore state the
  exact condition: once past the check, the links encode a forest if and only if the parent is not
  inside the child. `PopulatedDetachedList` is a run on which they do not.
* `after` must be another child of the parent (docs/api.md:179). `InsertAfter` states that the links
  encode a forest if and only if that holds as well; `BehindItself` is a run on which it does not.
* `insert_after` writes before it has looked everywhere, so its panics may come halfway: with `after`
  gone the child is already unlinked, with the parent gone the child is already linked to it.

* Round trips need every atom non-empty and free of brackets and whitespace; `RoundTrip` says that
  this is exactly when they succeed. `set_value` and `new_atom` accept other text.

The theorems about runs come at three levels of care with moves, none of which the code asks for, and each is stated at the lowest level that it needs:

* `Lax`: the links encode a forest afterwards. Handle soundness needs no more. A handle that passes the
  check names its own allocation, unless it is the root's; and the root's names its own if and only if
  nothing has removed the root with a node above it (`HandlesNeverAlias`). `RootReached` and
  `RootAliased` are a run on which it does not: the root is moved, and its new parent removed.
* `Tidy`: and no panic comes halfway. Iterators and the `repr` cache need this; `IterateReached` and
  `HalfDone` are a run on which an iterator gives out a node that has left its row at an unmoved version.
* `Strict`: and the root is not moved, which is what the documentation asks for. The root then stays in
  place and every handle that passes the check is sound, the root's own included.

At the top and the bottom this is exact: a call keeps the invariant of the level if and only if it is
careful (`StepKeepsInv`), and so for a run at every point of it (`RunnableMeans`).

## Where code and documentation differ

The model follows the code.

* docs/api.md:181-182 and docs/guide.md:96-99 say that handles stay valid after `append`, `prepend`
  and `insert_after`. The code bumps the version (src/core/mutation.rs:49): `MovesOutdateOthers`.
* docs/api.md:73-76 and 192-194 describe compaction of the node array. The code frees slots for reuse.
* docs/api.md:230 says that an empty root prints as nothing. That holds only for the tree parsed from
  an input without tokens; any other empty root prints as `()`: `ReprAlwaysFresh`.
* The comment at src/py/sexp.rs:32-33 promises an error for any call on a stale node. A stale `child`
  argument of `append`, `prepend` and `insert_after` is not checked: whatever node its slot holds now
  is moved, and an empty slot panics. `StaleChildMoves` is a run in which a node is moved that the
  handle was not made for. `MovedAllocation` says when that happens: the node moved is the handle's own
  exactly when no removal or extraction has freed it since, and always when the handle is not stale,
  but for the root's once the root may be moved.

## Model

| member | source | states |
|---|---|---|
| `Slabs.Slab.Insert` | src/memory/slab.rs:64-73 | fills the slot freed last, which leaves the free list, or a new one when none is free; never a live one; the free list stays exact and free of repetition |
| `Slabs.Slab.Remove` | src/memory/slab.rs:76-81 | empties a live slot and queues it once; a stale key changes nothing |
| `Slabs.Slab.Put` | src/memory/slab.rs:130-138 | overwrites one live slot and touches neither the others nor the free list |
| `Slabs.Slab.Len` | src/memory/slab.rs:94-96 | slots less free entries is the number of live slots |
| `Atoms.New` | src/memory/atom.rs:27-38 | inline up to 15 bytes, owned beyond; either way the same text reads back |
| `Utf8.SplitAtAscii` | src/parse/tokenizer.rs:56-74 | valid UTF-8 may be cut on either side of any ASCII byte |
| `Utf8.ValidMeansEncoded` | src/parse/parser.rs:83-86 | the byte tables accept exactly the encodings of sequences of code points that are no surrogates |
| `Forms.PreNoDup` | src/core/mutation.rs:159-170 | a subtree of a well-formed forest lists no node twice |
| `Forms.PreInOrder` | src/core/iter.rs:48-57 | preorder is the node first and then its children's subtrees, one after the other in row order |
| `Edits.MovedWellFormed` | src/core/mutation.rs:22-118 | a move splices the child into one row at its place, removes it from its old row (the same one included), changes no other row and leaves the moved subtree as it was |
| `Edits.MovedRows` | src/core/mutation.rs:22-118 | row by row: the child comes last, first or right behind the sibling in the new row, every other row only loses it, and kinds and the moved subtree stay |
| `Edits.RemovedWellFormed` | src/core/mutation.rs:127-130 | a removal takes out exactly the subtree's nodes and only cuts the node out of what is left |
| `Links.UnlinkLinked` | src/core/mutation.rs:133-156 | the link writes take the node out of its parent's row and keep every other row linked both ways |
| `Links.LinkInLinked` | src/core/mutation.rs:37-48 | linking a loose node between two neighbours splices it into that row and keeps every other row |
| `Surgery.ForestDetermined` | src/core/node.rs:14-23 | the links of a slab encode at most one forest |
| `Surgery.LinkOutcome` | src/core/mutation.rs:37-48 | linking a loose node in gives a forest if and only if the new parent is outside its subtree |
| `Surgery.UnderItself` | src/core/mutation.rs:8-10 | a list linked below its own descendant leaves links that encode no forest |
| `Surgery.MisplacedAfter` | src/core/mutation.rs:99-112 | inserting after the moved node itself, or after a node of another row, leaves links that encode no forest |
| `Trees.Tree.New` | src/core/tree.rs:20-43 | a tree with one empty list as its unattached root |
| `Trees.Tree.FromRaw` | src/core/tree.rs:178-186 | wraps a linked slab unchanged at version 0 |
| `Trees.Tree.Clone` | src/core/tree.rs:5-16 | an equal tree on a slab of its own, cache, version and detached nodes included |
| `Trees.Tree.Alloc` | src/core/tree.rs:112-119 | adds one unattached childless node at the next slot and leaves every form as it was |
| `Trees.Tree.CachedRepr` | src/core/tree.rs:76-81 | a hit needs the same node and the current version |
| `Trees.Tree.ContainsNode` | src/core/tree.rs:102-104 | true exactly for the indices that have a form |
| `Trees.Tree.Len` | src/core/tree.rs:140-142 | the number of forms |
| `Mutation.WouldCreateCycle` | src/core/mutation.rs:5-19 | terminates; for an attached or childless child it is true exactly when the parent is the child or below it, and for any unattached one exactly when they are the same node |
| `Mutation.Unlink` | src/core/mutation.rs:133-156 | the forest becomes the one with the node cut out of its row |
| `Mutation.Append` | src/core/mutation.rs:29-50 | panics exactly on the cycle check with nothing changed; otherwise leaves a forest if and only if the parent is outside the child, and then it is the old one with the child moved to the end |
| `Mutation.Prepend` | src/core/mutation.rs:59-80 | the same for the front of the row |
| `Mutation.InsertAfter` | src/core/mutation.rs:91-118 | the same behind a sibling, with the forest kept if and only if that sibling is also another child of the parent |
| `Mutation.DropSubtree` | src/core/mutation.rs:159-170 | frees exactly the subtree's slots, each once and in preorder, reads only live ones and leaves the rest untouched |
| `Mutation.Remove` | src/core/mutation.rs:127-130 | the forest loses the node and everything below it, and the free list gains them |
| `Iteration.ChildIter.Next` | src/core/iter.rs:22-26 | yields the row of children in order and then nothing for good |
| `Iteration.DepthFirstIter.Next` | src/core/iter.rs:48-57 | what was yielded followed by the preorders still on the stack never changes |
| `Iteration.Collect` | src/core/iter.rs:30-57 | a full run yields the recursive preorder, each node once |
| `Cloning.CompleteStep` | src/core/clone.rs:53-66 | one turn of the copy loop keeps what is built together with what is owed |
| `Cloning.CopyTop` | src/core/clone.rs:54-66 | the same for the slab: allocate, append, push; the cycle assertion holds |
| `Cloning.CloneInto` | src/core/clone.rs:47-67 | hangs a copy of the source form, renumbered in preorder, as the last child of the destination parent |
| `Cloning.CloneSubtree` | src/core/clone.rs:10-32 | a copy of the root is the whole tree; any other copy holds the node's form and nothing else; both are the same S-expression as the source |
| `Cloning.RelabelPre` | src/core/clone.rs:47-67 | the numbers of a copy are consecutive in preorder |
| `Cloning.CopyMeans` | src/core/clone.rs:14-31 | the copy is the same S-expression with nodes 0 to n-1 in preorder |
| `Cloning.ExtractSubtree` | src/core/clone.rs:37-43 | the result is the old subtree and the source the old tree without it; for the root nothing changes |
| `Cloning.ExtractConserves` | src/core/clone.rs:37-43 | the nodes before are those left plus those of the subtree; the copy holds as many unless the node was an atom with children |
| `Cloning.ExtractLeaves` | src/core/clone.rs:37-43 | the root form is left with exactly that node cut out |
| `Equality.PairStep` | src/py/shared.rs:71-90 | replacing a pair of lists of equal length by the pairs of their children asks the same question |
| `Equality.SubtreesEqual` | src/py/shared.rs:64-94 | true exactly when the two nodes are the same S-expression, in one tree or two |
| `Serializer.WriteNode` | src/serialize/serializer.rs:36-75 | appends a byte 0x20 if asked, and the recursive printer's text; output plus the text of the stack never changes |
| `Serializer.SerializeNode` | src/serialize/serializer.rs:10-19 | an atom as it is, a list as 0x28, its items joined by single 0x20, and 0x29; valid UTF-8, and its exact length |
| `Serializer.TextLength` | src/serialize/serializer.rs:36-75 | length is atom bytes, two brackets a list, and one space fewer than children |
| `Serializer.TextIsPrinted` | src/serialize/serializer.rs:36-75 | the text of a list is byte 0x28, its items' texts joined by single bytes 0x20, and byte 0x29 |
| `Serializer.TextBytes` | src/serialize/serializer.rs:36-75 | no other byte is printed but those of the atoms |
| `Serializer.TextValid` | src/serialize/serializer.rs:36-75 | the canonical text is valid UTF-8 |
| `Tokenizing.SkipTo` | src/parse/tokenizer.rs:46-49 | the first byte that is not of the given class |
| `Tokenizing.Tokenizer.Next` | src/parse/tokenizer.rs:41-78 | the input is a gap of spaces, tabs, line feeds and carriage returns, the token and a shorter remainder; a bracket is byte 0x28 or 0x29, an atom is non-empty, free of the six stop bytes and ends before one or at the end; atom and remainder are valid UTF-8 |
| `Tokenizing.TokensByByte` | src/parse/tokenizer.rs:27-78 | the tokens of a text, by the byte values it starts with |
| `Tokenizing.LayoutRead` | src/parse/tokenizer.rs:41-78 | any well-spaced layout of well-formed tokens is read as those tokens |
| `Tokenizing.EveryTextIsLayout` | src/parse/tokenizer.rs:41-78 | every byte string is a well-spaced layout of the tokens read from it |
| `Tokenizing.TokensGood` | src/parse/tokenizer.rs:63-75 | every atom read is non-empty and free of stop bytes |
| `Grammar.FlattenUnique` | src/parse/parser.rs:36-74 | no two S-expressions share their tokens, and none continues another's |
| `Grammar.FlattenBalanced` | src/parse/parser.rs:36-74 | the tokens of an S-expression never close more lists than they open and end at depth zero |
| `Grammar.BalancedReads` | src/parse/parser.rs:36-74 | every balanced token sequence is a row of forms |
| `Grammar.RejectsByCount` | src/parse/parser.rs:36-74 | the verdicts by counting brackets: stray if a beginning closes more than it opens, else unclosed if the whole opens more, else multiple if and only if a proper beginning is balanced |
| `Grammar.FlattenLast` | src/parse/parser.rs:41-46 | the items of a list come in order: one more at the end puts its tokens before the closing bracket |
| `Grammar.RoundTrip` | tests/python/round_trip/test_round_trip.py:1-39 | printed text is accepted as the same S-expression if and only if its atoms are non-empty and stop-free |
| `Grammar.PrintAfterRead` | README.md:32-33 | the canonical text of whatever was accepted is accepted as that and nothing else |
| `Grammar.TextDecides` | src/py/shared.rs:64-94 | for such atoms equal text is equality |
| `Grammar.VerdictsExclude` | src/parse/parser.rs:36-74 | a row of forms is neither stray nor unclosed, and is rejected exactly when it has more than one form |
| `Parsing.LinkChild` | src/parse/parser.rs:89-104 | the writes of a plain append of a loose child |
| `Parsing.SpineInsert` | src/parse/parser.rs:41-46 | a node hung below the innermost open list puts its tokens at the open end |
| `Parsing.Closed` | src/parse/parser.rs:49-53 | closing the innermost list adds its bracket to what the forms spell |
| `Parsing.AddNode` | src/parse/parser.rs:38-66 | allocating and linking a node keeps the forms spelling the tokens consumed |
| `Parsing.Parse` | src/parse/parser.rs:22-75 | each error is returned exactly on its class of token sequences, stray before unclosed before multiple; otherwise the tree is the one form spelled, with one node for each list and atom, or the bare tree for no tokens |
| `Parsing.ParseBytes` | src/parse/parser.rs:83-86 | rejected as invalid exactly when not UTF-8, otherwise the verdict and the tree of `Parse`, the bare one and the node count included |
| `RoundTrips.PrintAndParse` | tests/python/round_trip/test_round_trip.py:1-39 | printing a node and parsing the text gives a tree of the same S-expression if and only if its atoms are non-empty and stop-free |
| `RoundTrips.ParseAndRepr` | tests/python/round_trip/test_round_trip.py:24-39 | `repr` of a parsed input has the tokens of the input; it is the input itself if and only if that is empty or the canonical text of an S-expression whose atoms are non-empty and stop-free |
| `Handles.AttachValid` | src/core/mutation.rs:29-118 | a move that closes no cycle keeps the slab's books, and keeps a root in place if and only if the moved node is not the root |
| `Handles.MoveMeans` | src/core/mutation.rs:22-118 | a move call succeeds exactly when handle, nodes and cycle check allow it, else is stale or panics; when a forest is left every row is as said, and nothing else changes but the version |
| `Handles.RemoveMeans` | src/py/sexp.rs:392-401 | a removal succeeds exactly for a valid handle of another node than the root; the subtree's slots go to the free list in preorder, every row left only loses the node, the version is one higher |
| `Handles.SetValueMeans` | src/py/sexp.rs:312-326 | setting a value succeeds exactly on atoms, which then hold it; rows, other kinds and version stay, the cache goes |
| `Handles.NewNodeMeans` | src/py/sexp.rs:340-355 | a new node is a leaf of the kind asked for in the slot freed last or a new one, and nothing else changes |
| `Handles.ReprMeans` | src/py/sexp.rs:126-152 | `repr` changes the cache alone, which then holds the text of that node at the current version |
| `Handles.MoveLawful` | src/core/mutation.rs:29-118 | a move call, panics and half-done panics included, keeps the slab's books if and only if it leaves a forest |
| `Handles.StepKeepsInv` | src/py/sexp.rs:119-421 | a careful call keeps handles, birth stamps, iterators, cache and root consistent, as far as its level of care goes; at the lowest and the highest level only a careful one does |
| `Runs.RunnableMeans` | src/py/sexp.rs:119-421 | a run is careful if and only if the invariant of its level holds before, between and after all its calls, at the lowest and the highest level |
| `Runs.RunKeepsInv` | src/py/sexp.rs:68-104 | every careful run keeps the invariant of its level |
| `Runs.MoveStepMeans` | src/py/sexp.rs:358-389 | a move step happens exactly when handles, nodes and cycle check allow it, and then makes just that change; otherwise nothing changes, but for a panic halfway |
| `Runs.RemoveStepMeans` | src/py/sexp.rs:392-421 | a removal or extraction step happens exactly for a valid handle of another node than the root, and takes just the subtree and its stamps |
| `Runs.SetValueStepMeans` | src/py/sexp.rs:312-326 | the same for setting a value, exactly on atoms |
| `Runs.NewNodeStepMeans` | src/py/sexp.rs:340-355 | the same for a new node, which gets a handle and a stamp of its own |
| `Runs.LookupStepMeans` | src/py/sexp.rs:216-337 | looking up a child, the parent or a row adds one handle or iterator exactly when there is something to find |
| `Runs.KeptUnlessFreed` | src/py/sexp.rs:392-421 | over any run that leaves a forest a slot holds an old allocation at the end if and only if it did at the start and no successful removal or extraction took a node at or above it |
| `Runs.HandlesNeverAlias` | src/py/sexp.rs:68-104 | over any run that leaves a forest, a handle that passes the check names the allocation it was made for unless it is a root's; a root's always passes, and names its own if and only if no call removed it; always so if the root is never moved |
| `Runs.MovedAllocation` | src/py/sexp.rs:358-389 | the node that a successful move moves is the one its unchecked `child` handle was made for if and only if nothing freed that since, and always when the handle is not stale and is not a root's that may be moved |
| `Runs.FreedMeansStale` | src/py/sexp.rs:94-102 | a handle whose allocation is gone never names it again, and is stale for ever if and only if it is not a root's |
| `Runs.ReprAlwaysFresh` | src/py/sexp.rs:126-152 | after any run without a half-done panic `repr` is nothing for an empty bare root and a fresh serialization otherwise, cached or not |
| `Runs.CursorsNeverStray` | src/py/iter.rs:40-55 | after any such run an iterator has given out its row from start to position, one node for each call before the version moved, and the next call is exhausted, stale or the node due, in that order |
| `Runs.FullIteration` | src/py/iter.rs:40-55 | with the version unmoved it gives out the whole row, and is exhausted exactly after as many calls as nodes were left |
| `Runs.MovesOutdateOthers` | src/core/mutation.rs:49 | a successful move, of the root or without leaving a forest included, makes exactly the other non-root handles stale |
| `Runs.RemovalOutdatesAll` | src/py/sexp.rs:392-421 | a successful removal makes exactly the non-root handles stale, the caller's included |
| `Runs.QuietCalls` | src/py/sexp.rs:312-355 | every other call leaves valid handles valid |
| `Witnesses.ReuseReached` | src/py/sexp.rs:340-401 | a run that frees a slot below an old handle and fills it anew |
| `Witnesses.StaleChildMoves` | src/py/sexp.rs:358-364 | the next call is in order and moves another allocation than its child handle was made for |
| `Witnesses.PopulatedReached` | docs/guide.md:166-173 | a run that makes a detached list with a child |
| `Witnesses.PopulatedDetachedList` | src/core/mutation.rs:5-19 | the check then lets that list be put below its own child, and no forest is left |
| `Witnesses.BehindItself` | src/core/mutation.rs:91-118 | a run after which a node is put behind itself, and no forest is left |
| `Witnesses.RootReached` | src/core/mutation.rs:29-50 | a run that hangs the root below a new list, removes both and fills the root's slot anew |
| `Witnesses.RootAliased` | src/py/sexp.rs:68-76 | the root's first handle then passes the check and names another allocation |
| `Witnesses.IterateReached` | src/py/sexp.rs:262-294 | a run that removes the root with its new parent, fills two other slots anew and iterates over one of them |
| `Witnesses.HalfDone` | src/core/mutation.rs:91-118 | putting a child behind the missing root then unlinks it and panics before the version moves, and the iterator gives it out all the same |
| `PyApi.SExp.Renew` | src/py/sexp.rs:94-102 | the snapshot is renewed exactly when the node is still there |
| `PyApi.SExp.Repr` | src/py/sexp.rs:126-152 | nothing for an empty bare root, else the text in bytes; changes the cache alone, which then holds just that text |
| `PyApi.SExp.Len` | src/py/sexp.rs:154-156 | the number of children, or the stale error |
| `PyApi.SExp.Equals` | src/py/sexp.rs:158-185 | equality of the two S-expressions, in one tree or two |
| `PyApi.SExp.GetIndex` | src/py/sexp.rs:216-231 | the child at the index, negative ones from the end; the walk always finds it |
| `PyApi.SExp.GetKey` | src/py/sexp.rs:233-255 | the first child whose head, or which itself when childless, is that atom; the key error exactly when there is none |
| `PyApi.SExp.GetParent` | src/py/sexp.rs:329-337 | the node whose row holds this one, absent exactly for a node that hangs nowhere |
| `PyApi.SExp.SetValue` | src/py/sexp.rs:312-326 | succeeds exactly on a valid handle of an atom, which then holds the value; every row, the other kinds and the version stay and the cache goes; else the type or stale error and nothing changes |
| `PyApi.SExp.NewNode` | src/py/sexp.rs:340-355 | exactly on a valid handle: an unattached leaf of the kind asked for in a slot that was empty, with a valid handle, and no other change |
| `PyApi.SExp.Append` | src/py/sexp.rs:358-364 | done exactly when tree, handle, nodes and cycle check allow it, else value error, stale or panic and nothing changes; when done a forest is left if and only if the parent is outside the child, and then the child is last in its new row, gone from the old one, and nothing else changes but the version |
| `PyApi.SExp.Prepend` | src/py/sexp.rs:367-373 | the same for the front |
| `PyApi.SExp.InsertAfter` | src/py/sexp.rs:376-389 | the same behind a sibling whose handle is checked too |
| `PyApi.SExp.Remove` | src/py/sexp.rs:392-401 | done exactly on a valid handle of another node than the root, else the value or stale error and nothing changes; when done just the subtree is gone, every row left only loses the node, and the version is one higher |
| `PyApi.SExp.Extract` | src/py/sexp.rs:411-421 | the same, and the old subtree comes back as a tree on a slab of its own, without a cache, that starts a session in the invariant |
| `PyApi.SExp.CloneNode` | src/py/sexp.rs:405-408 | an independent tree on a slab of its own with the same S-expression, the source untouched; for a coherent source its cache is coherent and it starts a session in the invariant |
| `PyApi.SExp.Iterate` | src/py/sexp.rs:262-294 | an iterator that stands before the first or second child |
| `PyApi.SExpIter.Next` | src/py/iter.rs:40-55 | nothing once exhausted, the stale error after a version bump, otherwise the child that is due |
| `PyApi.SessionStarts` | src/py/sexp.rs:48-56 | a tree without a cache, as parsed, created or copied from below a root, and an exact copy of a coherent tree start the machine in its invariant |
| `Sessions.Session.Perform` | src/py/sexp.rs:58-421 | any call on the objects of a session is the machine's step, for the tree, every handle and every iterator |
| `Sessions.Session.Play` | src/py/sexp.rs:58-421 | any strict sequence of calls ends where the machine's run does, and no handle object that passes its check then names another node than it was made for |

## Left out

- Slot indices are unbounded: wrap-around at 2^32 slots is not modelled.
- The version counter is unbounded: overflow at 2^64 is not modelled.
- PyO3 plumbing, exception classes, slices, the list of children, `__contains__`, `is_atom`, `value`, `head` (which is index 0 with another error): foreign calls, or reads that add only easy members.
- `GilTree`, `Arc` and atomics: access is serialised, so each call is one step on one tree.
- Capacity hints and buffer reuse: performance only.
- The body of `std::str::from_utf8`: taken as section 4 of RFC 3629.
- Equality, hashing and display of atoms on their own, and error message text.
- Runs.HandlesNeverAlias: says nothing about runs that leave links without a forest, after which the model describes only the version and the slab's books.
- Mutation.InsertAfter: asks for a live parent and a live `after`, as its documentation does; the panics on missing ones, which may come halfway, are modelled in the machine (`MoveCall`) only.
- Methods of `SExp` on a tree whose root hangs or is gone: the machine covers such trees, the objects start from a root in place.
- PyApi.SExp.Append: does not detect a stale `child`, because the code does not.
