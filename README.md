# A verified model of libtrie's nibble trie

libtrie is a C++ header-only container: a 16-ary trie of items keyed by byte
strings. Each key byte gives two 4-bit digits ("quad-bits", nibbles), high
first, so a key of `n` bytes is a path of `2n` nibbles. Every node records the
nibble length `qlen` of its path and a pointer to a key that begins with that
path. A chain of single-child nodes is therefore condensed into one edge, and
`trace` compares whole bytes along it. The repository has two revisions of the
container:

- `libtrie++/trie.hxx`, the earlier one.
- `libtriexx/trie.hxx`, the later one. Its nodes also pack their own branch
  index and the first and last child's branch indices into a 32-bit word
  (`br_attrs`). Iteration uses that word to skip empty branches, and the
  revision adds `erase`.

The unit tests compare the container's `serialise_paths` output with a
reference oracle, `unit_test/paths.py`. The oracle computes the list of
root-to-leaf paths straight from a list of `(key, value)` pairs.

This project models the oracle and both containers in Dafny:

- `keys.dfy` (module `Keys`): keys, nibbles, the byte and nibble orders, and
  hexadecimal and decimal rendering.
- `paths.dfy` (module `Paths`): the oracle.
  - `_build_paths` becomes a recursive function, plus a method with its loop.
  - The oracle is proved to give exactly one spelled path per leaf. It raises
    `IndexError` exactly on duplicate keys, and its result does not depend on
    input order.
- `brattrs.dfy` (module `BrAttrs`): the packed branch attributes, and the
  agreement of each bit-level setter with the decoded triple.
- `trie_core.dfy` (module `TrieCore`):
  - the node value shared by both revisions and its well-formedness;
  - `trace`, as a method with its loops, proved equal to a specification
    function `Locate`.
- `trie_search.dfy`: what `trace` finds, `search_position`, and the meaning of
  a position.
- `trie_insert.dfy`: the node constructions of `insert_node` and `insert_item`.
- `trie_ranges.dfy`: the branch-attribute invariant of the later revision.
- `trie_order.dfy`: the iteration order. Pre-order on item nodes is key order,
  and "the next item node" is defined here.
- `trie_erase.dfy`: the node surgery of `erase`.
- `trie_compact.dfy` (module `TrieCompact`): compactness. Every node below
  the root holds an item or forks into at least two children. `insert_node`
  only creates interim nodes at a fork or for an item, and `erase` removes
  the item-less nodes it leaves behind. The later revision's class keeps
  this as part of its invariant.
- `trie_serialise.dfy`: `serialise_paths`, and how its lines relate to the
  oracle's paths.
- `trie_pp.dfy` (`TriePP`) and `trie_xx.dfy` (`TrieXX`): the two containers,
  each a class with fields `root` (the tree) and `items` (the item list).
- `trie_examples.dfy`: two small tries used by the findings.

A node is a value, `Node(item, key, qlen, branches, attrs)`. A C++ node
pointer becomes the path of branch indices that reaches the node from the
root. A parent pointer is that path minus its last index. An iterator is
`Some(path)` of an item node, or `None` for the end iterator.

## Model

| member | source | states |
|---|---|---|
| Keys.QbitStr | src/CXX/unit_test/paths.py:13-20 | a key of n bytes gives 2n nibbles; byte i gives nibbles 2i (high half) and 2i+1 (low half) |
| Keys.QbitStrInjective | src/CXX/unit_test/paths.py:13-20 | distinct keys give distinct nibble strings |
| Keys.QbitStrPrefix | src/CXX/unit_test/paths.py:13-20 | the nibbles of a key's first n bytes are the first 2n nibbles of the key |
| Keys.QbitStrPreservesOrder | src/CXX/unit_test/paths.py:84-88 | sorting keys bytewise and sorting their nibble strings give the same order |
| Keys.KeyLessStrictTotal | src/CXX/unit_test/paths.py:84 | the byte-lexicographic key order is irreflexive, transitive and total on distinct keys |
| Keys.Hex | src/CXX/libtriexx/trie.hxx:824-833 | one lower-case hex digit per nibble, none of them a bracket |
| Keys.NatToStringInjective | src/CXX/unit_test/paths.py:39 | the decimal text of a value determines the value |
| Paths.Marker | src/CXX/unit_test/paths.py:39 | a value marker is `[` digits `]`, with no bracket inside |
| Paths.Prefixed | src/CXX/unit_test/paths.py:47-50 | each path of a run is the run's prefix followed by that path |
| Paths.StrToQbitStr | src/CXX/unit_test/paths.py:13-20 | the loop that appends two nibbles per character yields QbitStr of the key |
| Paths.BuildPathsFrom | src/CXX/unit_test/paths.py:34-65 | the loop over the sorted entries (runs of equal nibbles, then the last run) computes the recursive definition `Build` |
| Paths.BuildCorrect | src/CXX/unit_test/paths.py:34-65 | on sorted, duplicate-free entries sharing the first `index` nibbles, the result is a path list with one path per leaf entry, in order; deleting the markers from a path leaves the leaf key's hex digits, and the path ends with the leaf's value marker |
| Paths.BuildDuplicate | src/CXX/unit_test/paths.py:43-44 | two equal adjacent keys make `_build_paths` index a nibble past a key's end (IndexError) |
| Paths.ChainCollapses | src/CXX/unit_test/paths.py:43-59 | a run in which every key has the same nibble prints that digit once, after the node text, ahead of the rest of the run |
| Paths.BranchShown | src/CXX/unit_test/paths.py:44-45 | where keys fork, every path shows the internal-node marker `[]` |
| Paths.ValueShown | src/CXX/unit_test/paths.py:38-40 | a key that ends at the node puts its value marker ahead of every path of the subtree |
| Paths.RootMarker | src/CXX/unit_test/paths.py:69-72 | every path starts with the root's marker: `[]`, or the empty key's value marker |
| Paths.KeyValsToPathsEmpty | src/CXX/unit_test/paths.py:70 | no keys give the single path `[]` |
| Paths.SortByKey | src/CXX/unit_test/paths.py:84 | sorting permutes the pairs |
| Paths.SortSorted | src/CXX/unit_test/paths.py:84 | the sorted pairs are in key order |
| Paths.SortUnique | src/CXX/unit_test/paths.py:84 | a strictly key-ascending list equal as a multiset to a sorted one is that sorted list, so the oracle's result is determined |
| Paths.KeyValsToPathsRaises | src/CXX/unit_test/paths.py:82-91 | `key_vals2paths` raises IndexError exactly when two pairs share a key |
| Paths.KeyValsToPathsOrderFree | src/CXX/unit_test/paths.py:82-91 | the result depends only on the multiset of pairs, not on their order |
| Paths.KeyValsToPathsCorrect | src/CXX/unit_test/paths.py:82-91 | for distinct non-empty keys: one path per leaf of the sorted input; leaves are in strictly ascending key order; each leaf is one of the input pairs |
| Paths.NumberedDistinct | src/CXX/unit_test/paths.py:103-105 | numbering the keys by position gives distinct pairs exactly when the keys are distinct, and each pair's value indexes its key |
| Paths.KeysToPathsCorrect | src/CXX/unit_test/paths.py:103-105 | `keys2paths` raises exactly on a repeated key; otherwise each path spells a leaf key and ends with that key's line number |
| Paths.ExampleOneKey | src/CXX/unit_test/paths.py:103-105 | the single key "a" gives `[]61[0]` |
| Paths.ExampleTwoKeys | src/CXX/unit_test/paths.py:103-105 | the keys "a", "b" give `[]6[]1[0]` and `[]6[]2[1]` |
| Paths.ExampleEmptyKey | src/CXX/unit_test/paths.py:38-40 | the keys "" and "a" give the single path `[0]61[1]`: the empty key's marker takes the root's place |
| BrAttrs.Init | src/CXX/libtriexx/trie.hxx:213-222 | the packed word reads back own, first and last, and has no bits above 11 |
| BrAttrs.NewBr | src/CXX/libtriexx/trie.hxx:238-252 | a new node's attributes (first 1, last 0 by default) pack to `br_attrs_init` of the same indices |
| BrAttrs.SetBr1st | src/CXX/libtriexx/trie.hxx:258-261 | the setter changes the first index and keeps the other fields and high bits |
| BrAttrs.SetBrLast | src/CXX/libtriexx/trie.hxx:267-270 | the setter changes the last index and keeps the other fields and high bits |
| BrAttrs.BrSet | src/CXX/libtriexx/trie.hxx:278-281 | the setter changes first and last and keeps own and the high bits |
| BrAttrs.SetBrOwn | src/CXX/libtriexx/trie.hxx:287-290 | the setter changes own and keeps the other fields and high bits |
| BrAttrs.Pack | src/CXX/libtriexx/trie.hxx:255-290 | the getters read back every field of a packed triple |
| BrAttrs.PackUnpack | src/CXX/libtriexx/trie.hxx:255-290 | a word without high bits is the packing of what its getters read |
| BrAttrs.SetBr1stPacked | src/CXX/libtriexx/trie.hxx:258-261 | the bit-level setter on a packed triple packs the triple with the new first index |
| BrAttrs.SetBrLastPacked | src/CXX/libtriexx/trie.hxx:267-270 | the same for the last index |
| BrAttrs.BrSetPacked | src/CXX/libtriexx/trie.hxx:278-281 | the same for both indices |
| BrAttrs.SetBrOwnPacked | src/CXX/libtriexx/trie.hxx:287-290 | the same for the own index |
| BrAttrs.Widen | src/CXX/libtriexx/trie.hxx:479-485 | after adding child `ix`, the range holds `ix`; a leaf's range becomes `ix..ix`, any other grows to take `ix` in; own is kept |
| BrAttrs.WidenPacked | src/CXX/libtriexx/trie.hxx:479-485 | the bit-level branch of `insert_node` computes the packing of `Widen` |
| TrieCore.GetQpos | src/CXX/libtriexx/trie.hxx:436-439 | `get_qpos` (also libtrie++/trie.hxx:313-316) is the key's nibble at that position: the high half of the byte at an even position, the low half at an odd one |
| TrieCore.XorNibbles | src/CXX/libtriexx/trie.hxx:405-412 | the xor of two bytes is zero exactly when they are equal, and its high half is zero exactly when their high nibbles agree |
| TrieCore.Trace | src/CXX/libtriexx/trie.hxx:364-426 | `trace` (same in libtrie++/trie.hxx:248-303) returns what the specification `Locate` says: a complete match and whether its node holds an item, or the node and nibble position of the miss |
| TrieCore.TraceByte | src/CXX/libtriexx/trie.hxx:373-416 | one pass of the byte loop either finishes with the `Locate` result or stays on the key's path one byte further |
| TrieCore.Branching | src/CXX/libtriexx/trie.hxx:378-403 | the branching loop either misses with the `Locate` result, or reaches a node whose path covers the byte, noting a branch half a byte ahead |
| TrieCore.BranchOnce | src/CXX/libtriexx/trie.hxx:379-402 | one branch step: an empty branch is the miss `Locate` reports; otherwise the new node is deeper on the key's path |
| TrieCore.TraceMissHigh | src/CXX/libtriexx/trie.hxx:385-389 | an empty low-nibble branch with a differing high nibble is a miss at the parent, at the byte's high position |
| TrieCore.TraceMissBranch | src/CXX/libtriexx/trie.hxx:391-392 | otherwise an empty branch is a miss at the node, at its own path length |
| TrieCore.TraceMismatch | src/CXX/libtriexx/trie.hxx:405-412 | a differing byte inside an edge is a miss at the parent, at the first differing nibble |
| TrieCore.TraceMismatchForward | src/CXX/libtriexx/trie.hxx:406-412 | after a branch half a byte ahead, the miss is reported at the grandparent |
| TrieCore.TraceEnd | src/CXX/libtriexx/trie.hxx:419-421 | a key ending exactly at a node is a complete match there, a hit when the node carries an item |
| TrieCore.TraceEndInEdge | src/CXX/libtriexx/trie.hxx:423-425 | a key ending inside an edge is a miss at the parent at twice the key length |
| TrieSearch.SearchPosition | src/CXX/libtriexx/trie.hxx:523-531 | a match keeps its node, length and hit flag; a miss reports its node and nibble position, never a hit |
| TrieSearch.LocateSound | src/CXX/libtriexx/trie.hxx:364-426 | a match names the node whose path is the whole key; a miss names a node on the key's path and the exact length the key shares with the tree there |
| TrieSearch.LocateReaches | src/CXX/libtriexx/trie.hxx:419-421 | a node whose path is the whole key is the one `trace` matches |
| TrieSearch.HasIff | src/CXX/libtriexx/trie.hxx:978-985 | the trie holds an item with key k exactly when tracing k is a complete match at an item-bearing node, and that item has key k |
| TrieSearch.LowerBoundValid | src/CXX/libtriexx/trie.hxx:1021-1023 | `lower_bound` reports a valid position, and a hit exactly when the key is present |
| TrieInsert.LeafNode | src/CXX/libtrie++/trie.hxx:357-360 | the new leaf is well formed, item-less, and its path is the whole key |
| TrieInsert.AddLeaf | src/CXX/libtrie++/trie.hxx:353-360 | a leaf hung on the empty branch of the key's next nibble keeps the node well formed, in place, and its items unchanged |
| TrieInsert.InterimSound | src/CXX/libtrie++/trie.hxx:338-344 | the interim node cut into an edge at q is well formed, holds the moved subtree's items, has the edge's first q nibbles as path, and carries the old child on its branch |
| TrieInsert.SplitAtEnd | src/CXX/libtrie++/trie.hxx:338-347 | when the key ends inside the edge, the interim node is the vacant place for it, and the node's items are unchanged |
| TrieInsert.SplitWithLeaf | src/CXX/libtrie++/trie.hxx:338-360 | when the key leaves the edge, the new leaf hangs on the interim node on a branch other than the old child's, and the items are unchanged |
| TrieInsert.SetItem | src/CXX/libtrie++/trie.hxx:372-376 | putting the item on a vacant node whose path is its key adds exactly that item and keeps the tree well formed |
| TrieInsert.Graft | src/CXX/libtrie++/trie.hxx:328-361 | `insert_node` grafted into the tree keeps it well formed, keeps its items, and returns a vacant slot for the key below the miss node |
| TrieRanges.RangeShape | src/CXX/libtriexx/trie.hxx:293-296 | with a tight range, `is_leaf` holds exactly when no branch is set, and `has_only_son` exactly when one is |
| TrieRanges.LeafOK | src/CXX/libtriexx/trie.hxx:492 | the new leaf's attributes (its own index, empty range) satisfy the invariant |
| TrieRanges.AddLeafOK | src/CXX/libtriexx/trie.hxx:479-493 | widening the range for the new leaf keeps the range tight |
| TrieRanges.InterimOK | src/CXX/libtriexx/trie.hxx:463-468 | the interim node's one-child range and the moved child's new own index satisfy the invariant |
| TrieRanges.SplitAtEndOK | src/CXX/libtriexx/trie.hxx:461-473 | the interim node that will carry the item keeps the invariant of the whole node |
| TrieRanges.SplitWithLeafOK | src/CXX/libtriexx/trie.hxx:461-493 | the interim node with the new leaf keeps the invariant of the whole node |
| TrieRanges.NodeAtOK | src/CXX/libtriexx/trie.hxx:572-574 | every reached node keeps the invariant, and its own index is the last branch index of its path |
| TrieOrder.PreorderIsKeyOrder | src/CXX/libtrie++/trie.hxx:416-441 | for item nodes, pre-order of their branch paths is the byte order of their keys, both ways |
| TrieOrder.NextIsNextKey | src/CXX/libtrie++/trie.hxx:416-441 | the next item node in pre-order holds the least key above the current one, or there is none when no key is larger |
| TrieOrder.PathOrder | src/CXX/libtrie++/trie.hxx:419-430 | nodes earlier in pre-order have lexicographically smaller paths |
| TrieOrder.WalkInto | src/CXX/libtrie++/trie.hxx:420-426 | stepping into a set branch either finds the next item node or continues below it with strictly less left to visit |
| TrieOrder.WalkOver | src/CXX/libtrie++/trie.hxx:429 | skipping an empty branch passes no node and makes progress |
| TrieOrder.WalkUp | src/CXX/libtrie++/trie.hxx:433-440 | after the last branch, the walk resumes at the parent on the branch after the node's own, recovered from the node's key at the parent's path length |
| TrieOrder.FirstFromRoot | src/CXX/libtrie++/trie.hxx:454-459 | the root if it bears an item, else the next item node after it, is the first item node |
| TriePP.Trie.constructor | src/CXX/libtrie++/trie.hxx:697 | a new trie has an empty item list and an empty tree |
| TriePP.Trie.InsertNode | src/CXX/libtrie++/trie.hxx:328-361 | `insert_node` keeps the tree valid and its items, and returns a vacant slot for the key below the miss node |
| TriePP.Trie.InsertItem | src/CXX/libtrie++/trie.hxx:372-376 | the item is appended to the list and put on the node; the tree's items grow by exactly it |
| TriePP.Trie.Insert | src/CXX/libtrie++/trie.hxx:733-741 | afterwards the key is present; if it already was, nothing changes; otherwise the item is appended and added; the returned node carries an item with the key |
| TriePP.Trie.Find | src/CXX/libtrie++/trie.hxx:751-758 | a node is returned exactly when the key is present, and it carries a listed item with that key |
| TriePP.Trie.LowerBound | src/CXX/libtrie++/trie.hxx:792-794 | the result is `search_position` of the trace, a valid position, a hit exactly when the key is present |
| TriePP.Trie.InsertAt | src/CXX/libtrie++/trie.hxx:803-812 | corrected positional insert: a hit is refused; otherwise the item is added on the node at or below the position |
| TriePP.Trie.InsertAtAsWritten | src/CXX/libtrie++/trie.hxx:803-812 | as written: `insert_node` runs at every position, so the item goes on a node for its key below the position whenever the position's node path is shorter than the key; when that path is as long as the key, `insert_node` would read past the key, and the member stops there with the tree and list unchanged (see "Left out") |
| TriePP.OverrunExample | src/CXX/libtrie++/trie.hxx:334 | in the trie of "ab" and "aq", the lower bound of "a" is a valid, non-hit position whose node path is as long as the key |
| TriePP.Trie.Begin | src/CXX/libtrie++/trie.hxx:711 | `begin` is the first item node in pre-order, or the end |
| TriePP.Trie.PosToNode | src/CXX/libtrie++/trie.hxx:778-782 | a node is returned exactly for a hit, and it carries an item with the key |
| TriePP.Next | src/CXX/libtrie++/trie.hxx:416-442 | `next()` reaches the next item node in pre-order, or the end |
| TriePP.Descend | src/CXX/libtrie++/trie.hxx:419-430 | the descending loop finds the next item node, or passes every branch of the node it stops at |
| TriePP.Ascend | src/CXX/libtrie++/trie.hxx:433-440 | the ascending loop reaches the end, or resumes at an ancestor on a branch below 16 with progress made |
| TrieXX.Trie.constructor | src/CXX/libtriexx/trie.hxx:922 | a new trie has an empty item list and an empty tree |
| TrieXX.Trie.InsertNode | src/CXX/libtriexx/trie.hxx:451-496 | `insert_node` with attribute updates keeps the tree sound (attributes exact) and its items, and returns a vacant slot for the key; the tree is compact except at that slot |
| TrieXX.Grow | src/CXX/libtriexx/trie.hxx:457-495 | the three cases of `insert_node` build a replacement node that grafts a vacant slot for the key; the replacement is compact except at the slot when the node's subtree was, and dense when the node was |
| TrieXX.GraftOK | src/CXX/libtriexx/trie.hxx:451-496 | such a graft keeps the tree well formed, its attributes exact and its items, and the slot lies below the miss node |
| TrieXX.NewLeaf | src/CXX/libtriexx/trie.hxx:479-495 | a leaf on an empty branch, with the range widened, is such a graft |
| TrieXX.InterimCarries | src/CXX/libtriexx/trie.hxx:461-473 | an interim node for a key ending inside the edge is such a graft |
| TrieXX.InterimForks | src/CXX/libtriexx/trie.hxx:461-495 | an interim node with the new leaf beside the old child is such a graft |
| TrieXX.Trie.InsertItem | src/CXX/libtriexx/trie.hxx:507-511 | the item is appended to the list and put on the node; the tree's items grow by exactly it; the tree, compact except at that node, is compact again |
| TrieXX.Trie.Insert | src/CXX/libtriexx/trie.hxx:958-966 | afterwards the key is present; if it already was, nothing changes; otherwise the item is appended and added |
| TrieXX.Trie.Find | src/CXX/libtriexx/trie.hxx:978-985 | a node is returned exactly when the key is present, and it carries a listed item with that key |
| TrieXX.Trie.LowerBound | src/CXX/libtriexx/trie.hxx:1021-1023 | the result is `search_position` of the trace, a valid position, a hit exactly when the key is present |
| TrieXX.Trie.InsertAt | src/CXX/libtriexx/trie.hxx:1034-1046 | corrected positional insert: `logic_error` exactly on a hit; otherwise the item is added on the node at or below the position |
| TrieXX.Trie.InsertAtAsWritten | src/CXX/libtriexx/trie.hxx:1034-1046 | as written: exactly when the position is not a hit and its length equals its node's path length but is shorter than the key, `insert_item` runs on that node: the item is appended to the list and put, with its key, on the position's node, and the tree is no longer well formed; otherwise a hit throws and any other position places the item as `InsertAt` does |
| TrieXX.MisplaceExample | src/CXX/libtriexx/trie.hxx:1042 | in the trie of "a", the lower bound of "q" is the root at length 0, and a root carrying "q" is not well formed |
| TrieXX.Trie.Begin | src/CXX/libtriexx/trie.hxx:593-599 | `begin` is the first item node in pre-order, or the end |
| TrieXX.Trie.PosToNode | src/CXX/libtriexx/trie.hxx:1007-1011 | a node is returned exactly for a hit, and it carries an item with the key |
| TrieXX.Next | src/CXX/libtriexx/trie.hxx:549-579 | `next()`, walking only the first-to-last child range and ascending by the own index, reaches the next item node in pre-order, or the end |
| TrieXX.Descend | src/CXX/libtriexx/trie.hxx:555-568 | the descending loop finds the next item node, or passes every branch of the node it stops at |
| TrieXX.Ascend | src/CXX/libtriexx/trie.hxx:571-577 | the ascending loop reaches the end, or resumes at an ancestor on a branch within its range, with progress made |
| TrieXX.AscendStep | src/CXX/libtriexx/trie.hxx:572-574 | the own index plus one at the parent is where pre-order resumes |
| TrieXX.SkipToFirst | src/CXX/libtriexx/trie.hxx:551 | starting at the first child's index passes no node |
| TrieXX.SkipPastLast | src/CXX/libtriexx/trie.hxx:555 | stopping after the last child's index passes no node |
| TrieXX.Trie.ClearItem | src/CXX/libtriexx/trie.hxx:1067-1069 | the item leaves the list and the tree; the new tree is the old one with only that node's item cleared, and it is compact except perhaps at that node |
| TrieXX.Trie.DropLeaf | src/CXX/libtriexx/trie.hxx:1072-1098 | the new tree is the old one with the parent replaced by `Unlinked(parent, own index)`: the leaf's branch cleared and the range narrowed; the tree stays sound with the same items; the one place it may not be compact moves up to the parent, which, below the root and without an item, keeps a child |
| TrieXX.Trie.Splice | src/CXX/libtriexx/trie.hxx:1101-1109 | the new tree is the old one with the parent's branch at the node's own index holding `Lift` of the node (its only son, under that own index); the tree stays sound with the same items and is compact again |
| TrieXX.Trie.RefreshKeys | src/CXX/libtriexx/trie.hxx:1112-1118 | item-less ancestors take the key of a descendant; the tree stays valid (sound and compact) with the same items |
| TrieXX.Trie.Tidy | src/CXX/libtriexx/trie.hxx:1071-1118 | the three clean-up steps after an item leaves a node turn a sound tree, compact except at that node, into a valid, compact one with the same items |
| TrieXX.DropStep | src/CXX/libtriexx/trie.hxx:1072-1098 | unlinking an item-less leaf keeps the tree sound with the same items and moves the non-compact place to the parent, which keeps a child when it is below the root without an item |
| TrieXX.RekeyStep | src/CXX/libtriexx/trie.hxx:1113-1116 | giving an item-less node a key that spells its path keeps the tree sound and compact, and the key spells the parent's path too |
| TrieXX.FirstChildSpells | src/CXX/libtriexx/trie.hxx:1113 | a node with children has a first child, and that child's key spells the node's path |
| TrieXX.Trie.Erase | src/CXX/libtriexx/trie.hxx:1056-1119 | the end iterator throws; otherwise exactly the item leaves the tree and the list, the tree stays valid (including compact), and the returned iterator holds the least key above the erased one |
| TrieXX.EraseNext | src/CXX/libtriexx/trie.hxx:1065 | the iterator found before the surgery still names the next key after it |
| TrieErase.Without | src/CXX/libtriexx/trie.hxx:1068 | the list loses exactly one copy of the item and keeps its order |
| TrieErase.FirstSet | src/CXX/libtriexx/trie.hxx:1084-1085 | the upward scan stops at the first set branch, past only empty ones |
| TrieErase.LastSet | src/CXX/libtriexx/trie.hxx:1091-1092 | the downward scan stops at the last set branch, past only empty ones |
| TrieErase.Narrow | src/CXX/libtriexx/trie.hxx:1075-1095 | unlinking a child and narrowing the range computes `Unlinked` |
| TrieErase.NarrowOnly | src/CXX/libtriexx/trie.hxx:1078 | removing the only son leaves the empty range `1, 0` |
| TrieErase.NarrowFirst | src/CXX/libtriexx/trie.hxx:1083-1087 | removing the first son moves first to the next set branch |
| TrieErase.NarrowLast | src/CXX/libtriexx/trie.hxx:1090-1094 | removing the last son moves last to the previous set branch |
| TrieErase.NarrowInner | src/CXX/libtriexx/trie.hxx:1080-1095 | removing an inner son leaves the range as it was |
| TrieErase.ClearItemSound | src/CXX/libtriexx/trie.hxx:1068-1069 | clearing the item keeps the node well formed with exact attributes, minus that item |
| TrieErase.DropChildSound | src/CXX/libtriexx/trie.hxx:1072-1098 | unlinking an item-less child keeps the parent well formed, its range tight, its items the same |
| TrieErase.LiftSound | src/CXX/libtriexx/trie.hxx:1104-1107 | the lifted son fits the parent's branch, keeps its items and takes the parent-side own index |
| TrieErase.SpliceSound | src/CXX/libtriexx/trie.hxx:1101-1109 | replacing the one-son node by its son keeps the parent well formed, exact, with the same items |
| TrieErase.SetKeySound | src/CXX/libtriexx/trie.hxx:1115 | an item-less node may take any key spelling its path; shape and items are unchanged |
| TrieErase.SpellsParent | src/CXX/libtriexx/trie.hxx:1113-1116 | a descendant's key spells the parent's path too, so the refresh can go on upwards |
| TrieCompact.NewLeafCompact | src/CXX/libtriexx/trie.hxx:479-493 | a new leaf on an empty branch leaves a compact node compact except at that branch, and a dense node dense |
| TrieCompact.InterimCompact | src/CXX/libtriexx/trie.hxx:461-467 | an interim node over a compact, dense child is compact |
| TrieCompact.InterimCarriesCompact | src/CXX/libtriexx/trie.hxx:461-473 | an interim node that will carry the item leaves the node compact except at it |
| TrieCompact.InterimForksCompact | src/CXX/libtriexx/trie.hxx:461-493 | an interim node that forks into the old child and the new leaf leaves the node compact except at the leaf |
| TrieCompact.GraftCompact | src/CXX/libtriexx/trie.hxx:451-496 | replacing a node of a compact tree by such a graft leaves it compact except at the slot |
| TrieCompact.Refill | src/CXX/libtriexx/trie.hxx:507-511 | changing a node's item or key but not its branches keeps the tree compact except at that node, and compact when the new node is dense |
| TrieCompact.DropCompact | src/CXX/libtriexx/trie.hxx:1072-1098 | unlinking a child moves the non-compact place from the child to the parent, and an item-less dense parent keeps a child |
| TrieCompact.SpliceCompact | src/CXX/libtriexx/trie.hxx:1101-1109 | lifting the only son of the non-compact node into its place makes the tree compact |
| TrieCompact.SettledCompact | src/CXX/libtriexx/trie.hxx:1101 | a non-compact node that holds an item, is the root, or has two children leaves the tree compact |
| TrieCompact.RekeyCompact | src/CXX/libtriexx/trie.hxx:1115 | changing only a node's key keeps a compact tree compact |
| TrieSerialise.EdgeText | src/CXX/libtriexx/trie.hxx:823-833 | the digits printed for a node are the hex of its path nibbles from the parent's length to its own |
| TrieSerialise.ByteDigits | src/CXX/libtriexx/trie.hxx:827-830 | the two-digit loop prints the hex of the whole bytes in range |
| TrieSerialise.NodeMark | src/CXX/libtriexx/trie.hxx:836-841 | a node prints `[v]` for an item of value v, else `[]` |
| TrieSerialise.SerialisePaths | src/CXX/libtriexx/trie.hxx:814-861 | `serialise_paths` (same in libtrie++/trie.hxx:583-630) prints `Lines`: for a childless node its own line, else its children's lines in branch order |
| TrieSerialise.SerialiseBranches | src/CXX/libtriexx/trie.hxx:846-860 | the branch loop prints the children's lines in order and reports a leaf exactly when no branch is set |
| TrieSerialise.SerialiseBranch | src/CXX/libtriexx/trie.hxx:851-856 | one branch adds that child's lines and reports whether it is set |
| TrieSerialise.LinesPrefix | src/CXX/libtriexx/trie.hxx:821 | the prefix a subtree is entered with starts every line it prints |
| TrieSerialise.LinesSpell | src/CXX/libtriexx/trie.hxx:814-861 | one line per childless node, in pre-order; each spells that node's path in hex between markers and ends with its marker |
| TrieSerialise.SerialiseMatchesOracle | src/CXX/libtriexx/trie.hxx:904-908 | serialising from the root prints one line per leaf, and each item leaf's line has the shape the oracle gives that item's path |

## Left out

- Pointers, ownership and allocation: nodes are values and a node pointer is
  a path of branch indices. `unique_ptr` moves, parent pointers and `new` are
  replaced by rebuilding the path from the root (`Replace`). Aliasing between
  nodes is not modelled.
- Key storage: a node holds its key by value. In C++ a node points into an
  item's key bytes. `insert_node` creates the leaf with a null key and
  `insert_item` fills it in; the model gives the leaf the key at once.
  Erase's key refresh stops at the first item-bearing ancestor. In C++, nodes
  above it may keep pointing at the erased item's key bytes. A value model
  cannot express such a dangling pointer, so the model does not claim or
  exhibit it.
- The miss callback of `trace`: `trace` returns `Matched` or `Missed`, and
  the caller applies `insert_node` or `search_position` to it.
- Slobby key tracing (`TRIE_KEY_TRACING_SLOBBY`, libtriexx/trie.hxx:395-399):
  the model is the exact-tracing configuration. A compile-time option that
  trades exactness for speed is outside the container's stated semantics.
- Items are `KeyVal(key, value)` with a natural-number value. The key getter
  functions `KeyFn` and `KeyLenFn` become the `key` field. In
  `serialise_paths`, `operator<<` on an item with the stream's formatting
  state becomes the value's decimal text.
- Output streams: `serialise_paths` returns its lines as a list. The indented
  `serialise` dump has no stated format and is not modelled. The oracle's
  stdin/stdout driver (paths.py:112-116) is I/O and is not modelled.
- Iterator objects: an iterator is `Option` of a node path. `const_iterator`,
  dereference, post-increment and iterator comparison are not modelled; they
  carry no logic beyond `next()`.
- Exceptions: `logic_error` becomes a result constructor (`LogicError`,
  `EraseError`). Python's `IndexError` becomes the outcome `IndexError`.
- Integer widths: `size_t` lengths and shifts are unbounded. Keys are far
  shorter than the width, so no wrap-around occurs. `br_attrs` is
  `uint32_t`; the tree stores its decoded triple `Br`, and `BrAttrs` proves
  that each bit-level setter matches the decoded update.
- Loop bodies that carry many lemma calls are separate methods of their own:
  `TraceByte`, `Branching`, `BranchOnce`, `Descend`, `Ascend`,
  `SerialiseBranches`, `SerialiseBranch`, `ByteDigits`. Each is proved
  against its own contract, and the loops keep the source's order of steps.
- TrieXX.Trie.Erase: the C++ code increments the iterator before the surgery.
  The next item node is never freed, and a splice moves only the pointer that
  owns a node, so the iterator stays valid. In the model a splice changes
  that node's path. The model therefore computes the next item node first
  and finds it again by key afterwards.
- TrieXX.Trie.RefreshKeys: its contract states validity and unchanged items,
  not which key each ancestor takes.
- TrieXX.Trie.Tidy: its contract states validity (including compactness) and
  unchanged items, not the exact tree it leaves. The exact change of each step
  is stated by `DropLeaf` and `Splice`, which it calls. The keys set in the
  last step are left out as stated for `RefreshKeys`.
- TriePP.Trie: its invariant does not include compactness. The earlier
  revision has no `erase`, so nothing there relies on it.
- TriePP.Trie.InsertItem and TrieXX.Trie.InsertItem: they require a vacant
  node whose path is the item's key. Every caller in the source passes such a
  node, except the two positional inserts listed under "Findings". Their
  as-written members do not call `InsertItem` in the defect case: the later
  revision's member writes the misplaced item itself, the earlier one's stops.
- TriePP.Trie.InsertAtAsWritten: at a position whose node path is as long as
  the key, the source's `insert_node` reads a nibble past the key's end and
  then writes a node from whatever it read. That read has no meaning on
  values, so the member stops at the defect and returns `None`, tree and list
  unchanged, instead of performing the malformed write.
- TrieSerialise.SerialiseMatchesOracle: it relates each item leaf's line to
  the oracle's path for that item (same digits, same final marker). It does
  not prove that the whole list of lines equals `build_paths` of the trie's
  items.

## Findings

| source | as written | input that shows it | evidently intended | confidence | as-written member | corrected member |
|---|---|---|---|---|---|---|
| src/CXX/libtrie++/trie.hxx:803-812 | `insert(item, pos)` always calls `insert_node`, which first reads the key's nibble at the position node's path length (line 334). When that node's path is as long as the key, the read is past the key's end. | A trie holding "ab" and "aq". `lower_bound("a")` is the item-less interim node for "a" at length 2. Inserting "a" there reads byte 1 of a 1-byte key. | When the position's node path is the whole key, put the item on that node, as the later revision does (libtriexx/trie.hxx:1042-1045). | not executed | TriePP.Trie.InsertAtAsWritten, TriePP.OverrunExample | TriePP.Trie.InsertAt |
| src/CXX/libtriexx/trie.hxx:1034-1046 | `insert(item, pos)` skips `insert_node` whenever the position's length equals its node's path length. A miss on an empty branch reports exactly that (line 392), even though the key goes on below the node. | A trie holding "a". `lower_bound("q")` is the root at length 0, a miss on the empty branch 7. `insert` puts "q" on the root, whose path is empty. | Skip `insert_node` only when the position's length is also the whole key's. | not executed | TrieXX.Trie.InsertAtAsWritten, TrieXX.MisplaceExample | TrieXX.Trie.InsertAt |
