/**
 * The later revision of the container (libtriexx): the same trie, whose
 * nodes also carry branch attributes (own, first and last child's branch
 * indices) so that iteration and erasure skip empty branches.  The tree is
 * the value `root`; a node pointer is the path of branch indices that
 * reaches it from the root.  `items` is the item list, in insertion order.
 */
module TrieXX {
  import opened Keys
  import opened Paths
  import opened TrieCore
  import opened TrieSearch
  import opened TrieInsert
  import opened TrieOrder
  import opened TrieExamples
  import opened BrAttrs
  import opened TrieRanges
  import opened TrieErase
  import opened TrieCompact

  /** What the positional insert does: place the item, throw `logic_error`, or (as written) misplace it. */
  datatype Placement = Placed(at: seq<Nibble>) | LogicError | Misplaced(at: seq<Nibble>)

  /** What `erase` does: throw `logic_error` at the end iterator, or erase and step to the next item node. */
  datatype Erasure = EraseError | Erased(next: Option<seq<Nibble>>)

  class Trie {
    var root: Node<Br>
    var items: seq<KeyVal>

    /**
     * The tree is well formed, rooted at path length 0, its branch
     * attributes are exact, and it holds exactly the listed items.
     */
    ghost predicate Sound()
      reads this
    {
      WF(root) && root.qlen == 0 && AttrsOK(root) && multiset(items) == Bag(root)
    }

    /**
     * Sound, and compact: no node below the root is both item-less and
     * without a fork.  Insertion keeps this once the item is placed, and
     * `erase` restores it by pruning.
     */
    ghost predicate Valid()
      reads this
    {
      Sound() && Compact(root)
    }

    /** An empty trie: a root with no item, no branch and own index 0. */
    constructor ()
      ensures Valid() && items == [] && Bag(root) == multiset{}
    {
      root := LeafNode([], NewBr(0));
      items := [];
      LeafEmpty([], NewBr(0));
      LeafOK([], 0);
      BareCompact(LeafNode([], NewBr(0)));
    }

    /**
     * Make a vacant node for `key` below the node at `at`, where tracing
     * missed at nibble position `q`, keeping the branch attributes exact:
     * a new leaf on an empty branch (the node's child range widened to
     * take it in), or an interim node splitting the edge (the moved child
     * taking its new own index), itself the vacant node when the key ends
     * there, else carrying the new leaf.  The items stay as they were, and
     * the vacant node is the only one that is neither forking nor
     * carrying an item.
     */
    method InsertNode(key: Key, at: seq<Nibble>, q: nat) returns (pos: Position)
      requires Valid() && NodeAt(root, at).Some? && MissAt(NodeAt(root, at).value, QbitStr(key), q)
      modifies this
      ensures Sound() && items == old(items) && Bag(root) == old(Bag(root))
      ensures Slot(root, key, pos) && at < pos.at && CompactBut(root, pos.at)
    {
      var nod := NodeAt(root, at).value;
      NodeAtWF(root, at);
      NodeAtOK(root, at);
      var nod', rest := Grow(nod, key, q);
      GraftOK(root, at, nod', rest, key);
      GraftCompact(root, at, nod', rest);
      root := Replace(root, at, nod');
      pos := Position(at + rest, 2 * |key|, false);
    }

    /**
     * Put `item` at the vacant node for its key (reached by `at`) and
     * append it to the item list.
     */
    method InsertItem(item: KeyVal, at: seq<Nibble>)
      requires Sound() && CompactBut(root, at) && NodeAt(root, at).Some? && Vacant(NodeAt(root, at).value, item.key)
      modifies this
      ensures Valid() && items == old(items) + [item] && Bag(root) == old(Bag(root)) + multiset{item}
      ensures NodeAt(root, at).Some? && NodeAt(root, at).value.item == Some(item)
    {
      items := items + [item];
      var nod := NodeAt(root, at).value;
      var nod' := nod.(key := item.key, item := Some(item));
      SetItem(nod, item);
      NodeAtOK(root, at);
      SameShapeOK(nod, nod');
      ReplaceAdds(root, at, nod', multiset{item});
      ReplaceOK(root, at, nod');
      Refill(root, at, nod');
      root := Replace(root, at, nod');
    }

    /**
     * Insert `item` unless an item with its key is already present; either
     * way, return the node that holds the key's item.
     */
    method Insert(item: KeyVal) returns (at: seq<Nibble>)
      requires Valid()
      modifies this
      ensures Valid() && Has(root, item.key)
      ensures old(Has(root, item.key)) ==> root == old(root) && items == old(items)
      ensures !old(Has(root, item.key)) ==> items == old(items) + [item] && Bag(root) == old(Bag(root)) + multiset{item}
      ensures NodeAt(root, at).Some? && NodeAt(root, at).value.item.Some? && NodeAt(root, at).value.item.value.key == item.key
    {
      ghost var k := QbitStr(item.key);
      var t := Trace(root, item.key);
      LocateSound(root, [], k);
      assert t.at[0..] == t.at;
      HasIff(root, item.key);
      var pos: Position;
      if t.Matched? {
        pos := Position(t.at, 2 * |item.key|, t.hasItem);
      } else {
        pos := InsertNode(item.key, t.at, t.q);
      }
      // Another item may already use the key
      if !pos.hit {
        InsertItem(item, pos.at);
      }
      at := pos.at;
      ItemHas(root, at);
    }

    /**
     * The node holding the item with `key`, if there is one.  The code is
     * the earlier revision's (`TriePP.Trie.Find`); each revision's class
     * carries its own copy, over its own kind of node.
     */
    method Find(key: Key) returns (r: Option<seq<Nibble>>)
      requires Valid()
      ensures r.Some? <==> Has(root, key)
      ensures r.Some? ==> (NodeAt(root, r.value).Some? && NodeAt(root, r.value).value.item.Some? &&
        NodeAt(root, r.value).value.item.value.key == key && NodeAt(root, r.value).value.item.value in items)
    {
      var t := Trace(root, key);
      var pos := SearchPosition(t, |key|);
      HasIff(root, key);
      // Key mismatch
      if !pos.hit {
        return None;
      }
      return Some(pos.at);
    }

    /** The position where `key` is found or would be inserted. */
    method LowerBound(key: Key) returns (pos: Position)
      requires Valid()
      ensures pos == SearchPosition(Locate(root, [], QbitStr(key)), |key|)
      ensures ValidPosition(root, key, pos) && (pos.hit <==> Has(root, key))
    {
      var t := Trace(root, key);
      pos := SearchPosition(t, |key|);
      LowerBoundValid(root, key);
    }

    /**
     * Insert `item` at the position `lower_bound` reported for its key: a
     * hit throws `logic_error` (tree untouched); a complete-path position
     * names the vacant node itself, any other needs `insert_node` first.
     */
    method InsertAt(item: KeyVal, pos: Position) returns (r: Placement)
      requires Valid() && ValidPosition(root, item.key, pos)
      modifies this
      ensures Valid() && (r.LogicError? <==> pos.hit) && !r.Misplaced?
      ensures r.LogicError? ==> root == old(root) && items == old(items)
      ensures r.Placed? ==> (items == old(items) + [item] && Bag(root) == old(Bag(root)) + multiset{item} &&
        NodeAt(root, r.at).Some? && NodeAt(root, r.at).value.item == Some(item) && pos.at <= r.at)
    {
      if pos.hit {
        return LogicError;
      }
      var nod := NodeAt(root, pos.at).value;
      var at := pos.at;
      if !(pos.qlen == nod.qlen && pos.qlen == 2 * |item.key|) {
        var item_pos := InsertNode(item.key, pos.at, pos.qlen);
        at := item_pos.at;
      }
      InsertItem(item, at);
      return Placed(at);
    }

    /**
     * `insert(item, pos)` as written: `insert_node` runs only when the
     * position's length differs from its node's path length.  A miss on an
     * empty branch has the two equal, yet its node's path is shorter than
     * the key; there the source appends the item to the list and puts it,
     * with its key, on that node (over any item the node had), and the
     * tree is no longer well formed.
     */
    method InsertAtAsWritten(item: KeyVal, pos: Position) returns (r: Placement)
      requires Valid() && ValidPosition(root, item.key, pos)
      modifies this
      ensures (r.LogicError? <==> pos.hit)
      ensures r.Misplaced? <==> (!pos.hit && pos.qlen == old(NodeAt(root, pos.at).value.qlen) < 2 * |item.key|)
      ensures r.Misplaced? ==> (r.at == pos.at && items == old(items) + [item] &&
        root == Replace(old(root), pos.at, old(NodeAt(root, pos.at).value).(key := item.key, item := Some(item))))
      ensures r.Misplaced? ==> (NodeAt(root, r.at).Some? && NodeAt(root, r.at).value.item == Some(item) &&
        NodeAt(root, r.at).value.qlen < 2 * |item.key| && !WF(root))
      ensures r.LogicError? ==> root == old(root) && items == old(items)
      ensures r.Placed? ==> (Valid() && items == old(items) + [item] &&
        NodeAt(root, r.at).Some? && NodeAt(root, r.at).value.item == Some(item))
    {
      if pos.hit {
        return LogicError;
      }
      var nod := NodeAt(root, pos.at).value;
      var at := pos.at;
      if pos.qlen != nod.qlen {
        var item_pos := InsertNode(item.key, pos.at, pos.qlen);
        at := item_pos.at;
      } else if nod.qlen < 2 * |item.key| {
        var nod' := nod.(key := item.key, item := Some(item));
        NodeAtReplace(root, at, nod', at);
        items := items + [item];
        root := Replace(root, at, nod');
        NodeAtWFIf(root, at);
        return Misplaced(at);
      }
      InsertItem(item, at);
      return Placed(at);
    }

    /**
     * The iterator at the start of the walk (`begin`): the root if it bears
     * an item, else the next item node after it, found by this revision's
     * range-skipping `Next`.  The code is otherwise the earlier revision's
     * (`TriePP.Trie.Begin`), copied per revision like `Find`.
     */
    method Begin() returns (r: Option<seq<Nibble>>)
      requires Valid()
      ensures FirstItem(root, r)
    {
      if root.item.None? {
        r := Next(root, []);
      } else {
        r := Some([]);
      }
      FirstFromRoot(root, r);
    }

    /**
     * The node a position `lower_bound` reported for `key` names, when it
     * is a hit (`pos2iterator`): the node holding the key's item.  A
     * per-revision copy of `TriePP.Trie.PosToNode`, like `Find`.
     */
    method PosToNode(ghost key: Key, pos: Position) returns (r: Option<seq<Nibble>>)
      requires Valid() && ValidPosition(root, key, pos)
      ensures r.Some? <==> pos.hit
      ensures r.Some? ==> (NodeAt(root, r.value).Some? && NodeAt(root, r.value).value.item.Some? &&
        NodeAt(root, r.value).value.item.value.key == key)
    {
      if !pos.hit {
        return None;
      }
      return Some(pos.at);
    }

    /**
     * Take the item off the node at `at`, and out of the item list; the
     * node may now be an item-less leaf or only son holder, so the tree
     * is compact except perhaps at `at`.
     */
    method ClearItem(at: seq<Nibble>)
      requires Valid() && Holds(root, at)
      modifies this
      ensures var x := old(NodeAt(root, at).value.item.value);
        Sound() && Bag(root) == old(Bag(root)) - multiset{x} && items == Without(old(items), x)
      ensures root == Replace(old(root), at, old(NodeAt(root, at).value).(item := None))
      ensures CompactBut(root, at) && NodeAt(root, at) == Some(old(NodeAt(root, at).value).(item := None))
    {
      var nod := NodeAt(root, at).value;
      var x := nod.item.value;
      ClearItemAt(root, at);
      Refill(root, at, nod.(item := None));
      items := Without(items, x);
      root := Replace(root, at, nod.(item := None));
    }

    /**
     * Remove the item-less leaf at `at` from its parent, tightening the
     * parent's child range; return the parent.  A parent below the root
     * that still has no item keeps at least one child.
     */
    method DropLeaf(at: seq<Nibble>) returns (pa: seq<Nibble>)
      requires Sound() && CompactBut(root, at) && at != [] && NodeAt(root, at).Some?
      requires NodeAt(root, at).value.item.None? && BrAttrs.IsLeaf(NodeAt(root, at).value.attrs)
      modifies this
      ensures Sound() && items == old(items) && Bag(root) == old(Bag(root))
      ensures pa == at[..|at| - 1] && old(NodeAt(root, pa)).Some?
      ensures var p := old(NodeAt(root, pa)).value;
        |p.branches| == Fanout && root == Replace(old(root), pa, Unlinked(p, at[|at| - 1])) &&
        NodeAt(root, pa) == Some(Unlinked(p, at[|at| - 1]))
      ensures CompactBut(root, pa)
      ensures pa != [] && NodeAt(root, pa).value.item.None? ==> !BrAttrs.IsLeaf(NodeAt(root, pa).value.attrs)
    {
      var nod := NodeAt(root, at).value;
      var br_ix := nod.attrs.own;
      pa := at[..|at| - 1];
      OwnIsLast(root, at);
      assert at == pa + [br_ix];
      DropStep(root, pa, br_ix);
      var parent := NodeAt(root, pa).value;
      var parent' := Narrow(parent, br_ix);
      root := Replace(root, pa, parent');
    }

    /**
     * Put the only son of the item-less node at `at` in its place, under
     * the same own index; return the parent.  This restores compactness.
     */
    method Splice(at: seq<Nibble>) returns (pa: seq<Nibble>)
      requires Sound() && CompactBut(root, at) && at != [] && NodeAt(root, at).Some?
      requires NodeAt(root, at).value.item.None? && HasOnlySon(NodeAt(root, at).value.attrs)
      modifies this
      ensures Valid() && items == old(items) && Bag(root) == old(Bag(root))
      ensures pa == at[..|at| - 1] && NodeAt(root, pa).Some? && old(NodeAt(root, pa)).Some?
      ensures var p := old(NodeAt(root, pa)).value;
        at[|at| - 1] < |p.branches| && Ranged(old(NodeAt(root, at)).value) &&
        root == Replace(old(root), pa,
          p.(branches := p.branches[at[|at| - 1] := Some(Lift(old(NodeAt(root, at)).value))]))
    {
      var nod := NodeAt(root, at).value;
      var br_ix := nod.attrs.own;
      pa := at[..|at| - 1];
      ghost var p := NodeAtParent(root, at);
      var parent := NodeAt(root, pa).value;
      OwnIsLast(root, at);
      SpliceAt(root, at);
      assert at == pa + [br_ix];
      SpliceCompact(root, pa, br_ix, parent, nod);
      root := Replace(root, pa, parent.(branches := parent.branches[br_ix := Some(Lift(nod))]));
    }

    /**
     * Give the item-less node at `at`, and each item-less node above it
     * below the root, the key of the node's first child.
     */
    method RefreshKeys(at: seq<Nibble>)
      requires Valid() && at != [] && NodeAt(root, at).Some?
      requires NodeAt(root, at).value.item.None? && !BrAttrs.IsLeaf(NodeAt(root, at).value.attrs)
      modifies this
      ensures Valid() && items == old(items) && Bag(root) == old(Bag(root))
    {
      var nod := NodeAt(root, at).value;
      FirstChildSpells(root, at);
      var key := nod.branches[nod.attrs.first].value.key;
      var a := at;
      while a != [] && nod.item.None?
        invariant Valid() && items == old(items) && Bag(root) == old(Bag(root))
        invariant NodeAt(root, a) == Some(nod) && Spells(key, nod)
        decreases |a|
      {
        RekeyStep(root, a, key);
        root := Replace(root, a, nod.(key := key));
        a := a[..|a| - 1];
        nod := NodeAt(root, a).value;
      }
    }

    /**
     * The clean-up after an item leaves the node at `at`: an item-less
     * leaf is dropped from its parent, an item-less node (that one or the
     * parent) left with one child gives way to it, and an item-less
     * interim node takes a key from below.  The items stay as they were,
     * and the tree, compact but perhaps at `at`, is compact again.
     */
    method Tidy(at: seq<Nibble>)
      requires Sound() && CompactBut(root, at) && NodeAt(root, at).Some? && NodeAt(root, at).value.item.None?
      modifies this
      ensures Valid() && items == old(items) && Bag(root) == old(Bag(root))
    {
      var nod := NodeAt(root, at).value;
      var c := at;
      // Empty leaf node shall be removed
      if BrAttrs.IsLeaf(nod.attrs) && c != [] {
        c := DropLeaf(c);
        nod := NodeAt(root, c).value;
      }
      // Interim node with only son shall be removed
      if HasOnlySon(nod.attrs) && nod.item.None? && c != [] {
        c := Splice(c);
        nod := NodeAt(root, c).value;
      } else {
        SettledCompact(root, c);
      }
      // Interim node without value uses key of its descendant
      if !BrAttrs.IsLeaf(nod.attrs) && nod.item.None? && c != [] {
        RefreshKeys(c);
      }
    }

    /**
     * Erase the item the iterator `it` points to (`erase`), returning the
     * iterator stepped to the next item node.  The end iterator throws
     * `logic_error`.  The item leaves the tree and the list; an item-less
     * leaf is dropped from its parent, an item-less node left with one
     * child gives way to it, and an item-less interim node takes a key
     * from below.
     */
    method Erase(it: Option<seq<Nibble>>) returns (r: Erasure)
      requires Valid() && (it.Some? ==> Holds(root, it.value))
      modifies this
      ensures r.EraseError? <==> it.None?
      ensures r.EraseError? ==> root == old(root) && items == old(items)
      ensures r.Erased? ==> (var x := old(NodeAt(root, it.value).value.item.value);
        Valid() && Bag(root) == old(Bag(root)) - multiset{x} && items == Without(old(items), x) &&
        KeyAfter(root, x.key, r.next))
    {
      if it.None? {
        return EraseError;
      }
      var at := it.value;
      var nx := Next(root, at);
      ghost var root0 := root;
      NextIsNextKey(root, at, nx);
      var x := NodeAt(root, at).value.item.value;
      var nk: Option<Key> := None;
      if nx.Some? {
        nk := Some(NodeAt(root, nx.value).value.item.value.key);
      }
      ClearItem(at);
      Tidy(at);
      var next: Option<seq<Nibble>> := None;
      if nk.Some? {
        NextSurvives(root0, root, x, nx.value);
        next := Find(nk.value);
      }
      EraseNext(root0, root, x, nx, next);
      return Erased(next);
    }
  }

  /**
   * In the trie holding only "a" (with exact attributes), the lower bound
   * of the absent key "q" is the root, missed on its empty branch 7: a
   * position whose length equals the root's path length 0, below the
   * key's 2.  `InsertAtAsWritten` would put the item there, and a root
   * carrying it is not well formed.
   */
  lemma MisplaceExample()
    ensures var root := OneKey(Br(0, 6, 6), Br(6, 1, 0));
      var pos := SearchPosition(Locate(root, [], QbitStr(KeyQ)), |KeyQ|);
      WF(root) && root.qlen == 0 && AttrsOK(root) && !Has(root, KeyQ) &&
      ValidPosition(root, KeyQ, pos) && !pos.hit && pos.qlen == NodeAt(root, pos.at).value.qlen < 2 * |KeyQ| &&
      !WF(root.(key := KeyQ, item := Some(KeyVal(KeyQ, 1))))
  {
    var root := OneKey(Br(0, 6, 6), Br(6, 1, 0));
    OneKeyShape(Br(0, 6, 6), Br(6, 1, 0));
    LowerBoundValid(root, KeyQ);
    assert Ranged(root.branches[6].value);
    assert AttrsOK(root.branches[6].value);
    assert forall b: Nibble :: root.branches[b].Some? ==> b == 6;
    assert Ranged(root);
  }

  /** The item after the erased one is still in the tree. */
  lemma NextSurvives(root: Node<Br>, root': Node<Br>, x: KeyVal, nx: seq<Nibble>)
    requires KeyAfter(root, x.key, Some(nx)) && Bag(root') == Bag(root) - multiset{x}
    ensures Has(root', NodeAt(root, nx).value.item.value.key)
  {
    var y := NodeAt(root, nx).value.item.value;
    NodeAtBag(root, nx);
    KeyLessStrictTotal(x.key, y.key, y.key);
    assert y in Bag(root');
  }

  /**
   * The node holding the key of the item after the erased one (in the old
   * tree) is the iterator after it in the new tree too.
   */
  lemma EraseNext(root: Node<Br>, root': Node<Br>, x: KeyVal, nx: Option<seq<Nibble>>, r: Option<seq<Nibble>>)
    requires KeyAfter(root, x.key, nx) && Bag(root') == Bag(root) - multiset{x}
    requires nx.None? ==> r.None?
    requires nx.Some? ==> (r.Some? && Holds(root', r.value) &&
      NodeAt(root', r.value).value.item.value.key == NodeAt(root, nx.value).value.item.value.key)
    ensures KeyAfter(root', x.key, r)
  {
    forall y | y in Bag(root')
      ensures y in Bag(root)
    {
    }
  }

  /**
   * Iterator step (`next`): from the node at `at0`, walk the tree in pre-order to
   * the next node bearing an item, or to the end (None), visiting only
   * the branches between each node's first and last child, and going
   * back up past a child's own index.
   */
  method Next(root: Node<Br>, at0: seq<Nibble>) returns (r: Option<seq<Nibble>>)
    requires WF(root) && AttrsOK(root) && NodeAt(root, at0).Some?
    ensures NextAfter(root, at0, r)
  {
    var nod := NodeAt(root, at0).value;
    var at: seq<Nibble> := at0;
    var br_ix: int := nod.attrs.first;
    GapStart(root, at0);
    SkipToFirst(root, at0, at, br_ix);
    while true
      invariant NodeAt(root, at) == Some(nod) && 0 <= br_ix <= 16
      invariant Gap(root, at0, Pt(at, br_ix)) && NibblesLess(at0, Pt(at, br_ix))
      decreases |Ahead(root, Pt(at, br_ix))|
    {
      r, at, nod := Descend(root, at0, at, nod, br_ix);
      if r.Some? {
        return;  // got next
      }
      var done;
      at, nod, br_ix, done := Ascend(root, at0, at, nod);
      if done {
        return None;  // end
      }
    }
  }

  /**
   * The descent of `next`: from branch `br_ix` of the node at `at`, take
   * the first set branch up to the node's last child, down to the first
   * node bearing an item (`Some`); or, with no such node below, stop past
   * the branches of the node where the walk ended.
   */
  method Descend(root: Node<Br>, at0: seq<Nibble>, at: seq<Nibble>, nod: Node<Br>, br_ix: int)
    returns (r: Option<seq<Nibble>>, at': seq<Nibble>, nod': Node<Br>)
    requires WF(root) && AttrsOK(root) && NodeAt(root, at) == Some(nod) && 0 <= br_ix <= 16
    requires Gap(root, at0, Pt(at, br_ix)) && NibblesLess(at0, Pt(at, br_ix))
    ensures r.Some? ==> NextAfter(root, at0, r)
    ensures r.None? ==> (NodeAt(root, at') == Some(nod') &&
      Gap(root, at0, Pt(at', 16)) && NibblesLess(at0, Pt(at', 16)) &&
      |Ahead(root, Pt(at', 16))| <= |Ahead(root, Pt(at, br_ix))|)
  {
    at', nod' := at, nod;
    var b := br_ix;
    while b <= nod'.attrs.last
      invariant NodeAt(root, at') == Some(nod') && 0 <= b <= 16
      invariant Gap(root, at0, Pt(at', b)) && NibblesLess(at0, Pt(at', b))
      invariant |Ahead(root, Pt(at', b))| <= |Ahead(root, Pt(at, br_ix))|
      decreases |Ahead(root, Pt(at', b))|
    {
      NodeAtWF(root, at');
      var child := nod'.branches[b];
      if child.Some? {
        WalkInto(root, at0, at', b);
        nod' := child.value;
        at' := at' + [b];
        if nod'.item.Some? {
          return Some(at'), at', nod';  // got next
        }
        // Interim node must have a child
        b := nod'.attrs.first;
        SkipToFirst(root, at0, at', b);
        continue;
      }
      WalkOver(root, at0, at', b);
      b := b + 1;  // next branch
    }
    SkipPastLast(root, at0, at', b);
    r := None;
  }

  /**
   * The ascent of `next`: from the node at `at`, all of whose subtree the
   * walk has passed, go up until a parent has a child after the one just
   * left (`done` when the root is passed: the walk is over).
   */
  method Ascend(root: Node<Br>, at0: seq<Nibble>, at: seq<Nibble>, nod: Node<Br>) returns (at': seq<Nibble>, nod': Node<Br>, br_ix: int, done: bool)
    requires WF(root) && AttrsOK(root) && NodeAt(root, at) == Some(nod)
    requires Gap(root, at0, Pt(at, 16)) && NibblesLess(at0, Pt(at, 16))
    ensures done ==> NextAfter(root, at0, None)
    ensures !done ==> (NodeAt(root, at') == Some(nod') && 0 <= br_ix <= nod'.attrs.last &&
      Gap(root, at0, Pt(at', br_ix)) && NibblesLess(at0, Pt(at', br_ix)) &&
      |Ahead(root, Pt(at', br_ix))| < |Ahead(root, Pt(at, 16))|)
  {
    at', nod' := at, nod;
    while true
      invariant NodeAt(root, at') == Some(nod')
      invariant Gap(root, at0, Pt(at', 16)) && NibblesLess(at0, Pt(at', 16))
      invariant |Ahead(root, Pt(at', 16))| <= |Ahead(root, Pt(at, 16))|
      decreases |at'|
    {
      br_ix := nod'.attrs.own + 1;
      if at' == [] {
        GapEnd(root, at0);
        return at', nod', br_ix, true;
      }
      var pa := at'[..|at'| - 1];
      AscendStep(root, at0, at', pa, br_ix);
      at' := pa;
      nod' := NodeAt(root, at').value;
      if br_ix <= nod'.attrs.last {
        return at', nod', br_ix, false;
      }
      SkipPastLast(root, at0, at', br_ix);
    }
  }

  /** Going up from a node whose subtree the walk has passed resumes the parent's walk after the node's own index. */
  lemma AscendStep(root: Node<Br>, at0: seq<Nibble>, at: seq<Nibble>, pa: seq<Nibble>, next: int)
    requires WF(root) && AttrsOK(root) && NodeAt(root, at).Some? && at != []
    requires Gap(root, at0, Pt(at, 16)) && NibblesLess(at0, Pt(at, 16))
    requires pa == at[..|at| - 1] && next == NodeAt(root, at).value.attrs.own + 1
    ensures NodeAt(root, pa).Some?
    ensures Gap(root, at0, Pt(pa, next)) && NibblesLess(at0, Pt(pa, next))
    ensures |Ahead(root, Pt(pa, next))| < |Ahead(root, Pt(at, 16))|
  {
    OwnIsLast(root, at);
    var last: int := at[|at| - 1] as int + 1;
    WalkUp(root, at0, at);
    assert Gap(root, at0, Pt(pa, last)) && NibblesLess(at0, Pt(pa, last));
    assert next == last;
  }

  /**
   * Dropping the item-less leaf at `at` from its parent keeps the tree
   * sound and moves the one place it may not be compact up to the parent,
   * which, below the root and without an item, keeps a child.
   */
  lemma DropStep(root: Node<Br>, pa: seq<Nibble>, b: Nibble)
    requires WF(root) && AttrsOK(root) && CompactBut(root, pa + [b]) && NodeAt(root, pa + [b]).Some?
    requires NodeAt(root, pa + [b]).value.item.None? && BrAttrs.IsLeaf(NodeAt(root, pa + [b]).value.attrs)
    ensures NodeAt(root, pa).Some? && |NodeAt(root, pa).value.branches| == Fanout
    ensures var p := NodeAt(root, pa).value;
      var p' := Unlinked(p, b);
      var root' := Replace(root, pa, p');
      Ranged(p) && p.branches[b].Some? &&
      WF(root') && SamePlace(root, root') && AttrsOK(root') && Bag(root') == Bag(root) &&
      NodeAt(root', pa) == Some(p') && CompactBut(root', pa) &&
      (pa != [] && p.item.None? ==> !BrAttrs.IsLeaf(p'.attrs))
  {
    var at := pa + [b];
    assert at[..|at| - 1] == pa && at[|at| - 1] == b;
    var p := NodeAtParent(root, at);
    OwnIsLast(root, at);
    DropLeafAt(root, at);
    NodeAtOK(root, pa);
    DropCompact(root, pa, b, p);
  }

  /** A node with children has a first child, whose key spells the node's path. */
  lemma FirstChildSpells(root: Node<Br>, at: seq<Nibble>)
    requires WF(root) && AttrsOK(root) && NodeAt(root, at).Some? && !BrAttrs.IsLeaf(NodeAt(root, at).value.attrs)
    ensures var n := NodeAt(root, at).value;
      0 <= n.attrs.first < |n.branches| && n.branches[n.attrs.first].Some? &&
      Spells(n.branches[n.attrs.first].value.key, n)
  {
    var nod := NodeAt(root, at).value;
    NodeAtOK(root, at);
    NodeAtWF(root, at);
    RangeShape(nod);
    assert ChildOK(nod, nod.attrs.first, nod.branches[nod.attrs.first].value);
  }

  /**
   * One step of `RefreshKeys`: giving the item-less node at `at` a key it
   * spells keeps the tree sound and compact, and the parent spells it too.
   */
  lemma RekeyStep(root: Node<Br>, at: seq<Nibble>, key: Key)
    requires WF(root) && AttrsOK(root) && Compact(root) && at != [] && NodeAt(root, at).Some?
    requires NodeAt(root, at).value.item.None? && Spells(key, NodeAt(root, at).value)
    ensures var root' := Replace(root, at, NodeAt(root, at).value.(key := key));
      WF(root') && SamePlace(root, root') && AttrsOK(root') && Bag(root') == Bag(root) && Compact(root') &&
      NodeAt(root', at[..|at| - 1]).Some? && NodeAt(root, at[..|at| - 1]).Some? &&
      var p := NodeAt(root', at[..|at| - 1]).value;
      p.item == NodeAt(root, at[..|at| - 1]).value.item && Spells(key, p)
  {
    SetKeyAt(root, at, key);
    SpellsParent(root, at, key);
    RekeyCompact(root, at, key);
  }

  /** A reached node's own index is the last index of its path. */
  lemma OwnIsLast(root: Node<Br>, at: seq<Nibble>)
    requires AttrsOK(root) && NodeAt(root, at).Some? && at != []
    ensures NodeAt(root, at).value.attrs.own == at[|at| - 1]
  {
    NodeAtOK(root, at);
  }

  /** Starting a node's walk at its first child skips only empty branches. */
  lemma SkipToFirst(root: Node<Br>, at0: seq<Nibble>, at: seq<Nibble>, f: int)
    requires WF(root) && AttrsOK(root) && NodeAt(root, at).Some? && f == NodeAt(root, at).value.attrs.first
    requires Gap(root, at0, Pt(at, 0)) && NibblesLess(at0, Pt(at, 0))
    ensures Gap(root, at0, Pt(at, f)) && NibblesLess(at0, Pt(at, f)) && |Ahead(root, Pt(at, f))| <= |Ahead(root, Pt(at, 0))|
  {
    NodeAtWF(root, at);
    NodeAtOK(root, at);
    WalkSkip(root, at0, at, 0, f);
  }

  /** Past a node's last child, the rest of its branches are empty. */
  lemma SkipPastLast(root: Node<Br>, at0: seq<Nibble>, at: seq<Nibble>, b: int)
    requires WF(root) && AttrsOK(root) && NodeAt(root, at).Some? && NodeAt(root, at).value.attrs.last < b <= 16
    requires Gap(root, at0, Pt(at, b)) && NibblesLess(at0, Pt(at, b))
    ensures Gap(root, at0, Pt(at, 16)) && NibblesLess(at0, Pt(at, 16)) && |Ahead(root, Pt(at, 16))| <= |Ahead(root, Pt(at, b))|
  {
    NodeAtWF(root, at);
    NodeAtOK(root, at);
    WalkSkip(root, at0, at, b, 16);
  }

  /**
   * `s` may replace `nod`: well formed, at the same place, with the same
   * items and own index, exact attributes, and a vacant node for `key` at
   * `rest`.
   */
  ghost predicate Grafts(nod: Node<Br>, s: Node<Br>, rest: seq<Nibble>, key: Key)
  {
    WF(s) && SamePlace(nod, s) && Bag(s) == Bag(nod) && AttrsOK(s) && s.attrs.own == nod.attrs.own &&
    rest != [] && NodeAt(s, rest).Some? && Vacant(NodeAt(s, rest).value, key)
  }

  /**
   * The part of `insert_node` below the node `nod` where `key` leaves the
   * tree at `q`: the new version of `nod` and the path from it to the
   * vacant node for the key.  Every other node it makes forks or carries
   * an item, and it keeps the forks it had.
   */
  method Grow(nod: Node<Br>, key: Key, q: nat) returns (nod': Node<Br>, rest: seq<Nibble>)
    requires WF(nod) && AttrsOK(nod) && MissAt(nod, QbitStr(key), q)
    ensures Grafts(nod, nod', rest, key)
    ensures Compact(nod) ==> CompactBut(nod', rest)
    ensures Dense(nod) ==> Dense(nod')
  {
    var br_ix := GetQpos(key, nod.qlen);
    var br_node := nod.branches[br_ix];
    if br_node.Some? {
      // Create interim branch
      var c := br_node.value;
      var in_br_ix := GetQpos(c.key, q);
      var in_node := InterimNode(c, q, c.attrs.(own := in_br_ix), Br(br_ix, in_br_ix, in_br_ix));
      if q == 2 * |key| {
        // Interim node shall carry item
        nod' := nod.(branches := nod.branches[br_ix := Some(in_node)]);
        rest := [br_ix];
        InterimCarries(nod, key, q);
        InterimCarriesCompact(nod, br_ix, q, c.attrs.(own := in_br_ix), Br(br_ix, in_br_ix, in_br_ix));
      } else {
        var leaf_ix := GetQpos(key, q);
        // Set 1st & last branch indices correctly
        var in_node' := in_node.(branches := in_node.branches[leaf_ix := Some(LeafNode(key, NewBr(leaf_ix)))],
                                 attrs := Widen(in_node.attrs, leaf_ix));
        nod' := nod.(branches := nod.branches[br_ix := Some(in_node')]);
        rest := [br_ix, leaf_ix];
        InterimForks(nod, key, q);
        InterimForksCompact(nod, br_ix, q, c.attrs.(own := in_br_ix), Br(br_ix, in_br_ix, in_br_ix),
                            key, leaf_ix, NewBr(leaf_ix), Widen(in_node.attrs, leaf_ix));
      }
    } else {
      // Set 1st & last branch indices correctly, then create new leaf
      nod' := nod.(branches := nod.branches[br_ix := Some(LeafNode(key, NewBr(br_ix)))], attrs := Widen(nod.attrs, br_ix));
      rest := [br_ix];
      NewLeaf(nod, key);
      NewLeafCompact(nod, key, br_ix, NewBr(br_ix), Widen(nod.attrs, br_ix));
    }
  }

  /** Grafting keeps the tree well formed, its items and its attributes exact, and gives a slot for `key`. */
  lemma GraftOK(root: Node<Br>, at: seq<Nibble>, s: Node<Br>, rest: seq<Nibble>, key: Key)
    requires WF(root) && AttrsOK(root) && NodeAt(root, at).Some? && Grafts(NodeAt(root, at).value, s, rest, key)
    ensures WF(Replace(root, at, s)) && Replace(root, at, s).qlen == root.qlen && AttrsOK(Replace(root, at, s))
    ensures Bag(Replace(root, at, s)) == Bag(root) && at < at + rest
    ensures Slot(Replace(root, at, s), key, Position(at + rest, 2 * |key|, false))
  {
    Graft(root, at, s, rest, key);
    ReplaceOK(root, at, s);
  }

  /** `insert_node` on an empty branch: a new leaf, the range widened. */
  lemma NewLeaf(nod: Node<Br>, key: Key)
    requires WF(nod) && AttrsOK(nod) && MissAt(nod, QbitStr(key), nod.qlen) && nod.branches[QbitStr(key)[nod.qlen]].None?
    ensures var b := QbitStr(key)[nod.qlen];
      Grafts(nod, nod.(branches := nod.branches[b := Some(LeafNode(key, NewBr(b)))], attrs := Widen(nod.attrs, b)), [b], key)
  {
    var b := QbitStr(key)[nod.qlen];
    AddLeaf(nod, key, NewBr(b), Widen(nod.attrs, b));
    AddLeafOK(nod, key, b);
  }

  /** `insert_node` when the key ends inside an edge: the interim node is the vacant node. */
  lemma InterimCarries(nod: Node<Br>, key: Key, q: nat)
    requires WF(nod) && AttrsOK(nod) && MissAt(nod, QbitStr(key), q) && nod.branches[QbitStr(key)[nod.qlen]].Some?
    requires q == 2 * |key|
    ensures var d := QbitStr(key)[nod.qlen];
      var c := nod.branches[d].value;
      var d' := QbitStr(c.key)[q];
      Grafts(nod, nod.(branches := nod.branches[d := Some(InterimNode(c, q, c.attrs.(own := d'), Br(d, d', d')))]), [d], key)
  {
    var d := QbitStr(key)[nod.qlen];
    var c := nod.branches[d].value;
    var d' := QbitStr(c.key)[q];
    SplitAtEnd(nod, key, q, c.attrs.(own := d'), Br(d, d', d'));
    SplitAtEndOK(nod, key, q);
  }

  /** `insert_node` when the key leaves an edge before it ends: the interim node forks to the new leaf. */
  lemma InterimForks(nod: Node<Br>, key: Key, q: nat)
    requires WF(nod) && AttrsOK(nod) && MissAt(nod, QbitStr(key), q) && nod.branches[QbitStr(key)[nod.qlen]].Some?
    requires q < 2 * |key|
    ensures var k := QbitStr(key);
      var d := k[nod.qlen];
      var c := nod.branches[d].value;
      var d' := QbitStr(c.key)[q];
      var i := InterimNode(c, q, c.attrs.(own := d'), Br(d, d', d'));
      var i' := i.(branches := i.branches[k[q] := Some(LeafNode(key, NewBr(k[q])))], attrs := Widen(i.attrs, k[q]));
      Grafts(nod, nod.(branches := nod.branches[d := Some(i')]), [d, k[q]], key)
  {
    var k := QbitStr(key);
    var d := k[nod.qlen];
    var c := nod.branches[d].value;
    var d' := QbitStr(c.key)[q];
    var i := InterimNode(c, q, c.attrs.(own := d'), Br(d, d', d'));
    assert WF(c);
    SplitWithLeaf(nod, key, q, c.attrs.(own := d'), Br(d, d', d'), Widen(i.attrs, k[q]), NewBr(k[q]));
    SplitWithLeafOK(nod, key, q);
  }
}
