/**
 * The earlier revision of the container (libtrie++): a trie of items whose
 * nodes carry no branch attributes.  The tree is the value `root`; a node
 * pointer is the path of branch indices that reaches it from the root.
 * `items` is the item list, in insertion order.
 */
module TriePP {
  import opened Keys
  import opened Paths
  import opened TrieCore
  import opened TrieSearch
  import opened TrieInsert
  import opened TrieExamples
  import opened TrieOrder

  class Trie {
    var root: Node<()>
    var items: seq<KeyVal>

    /** The tree is well formed, rooted at path length 0, and holds exactly the listed items. */
    ghost predicate Valid()
      reads this
    {
      WF(root) && root.qlen == 0 && multiset(items) == Bag(root)
    }

    /** An empty trie: a root with no item and no branch. */
    constructor ()
      ensures Valid() && items == [] && Bag(root) == multiset{}
    {
      root := LeafNode([], ());
      items := [];
      LeafEmpty([], ());
    }

    /**
     * Make a vacant node for `key` below the node at `at`, where tracing
     * missed at nibble position `q`: a new leaf on an empty branch, or an
     * interim node splitting the edge (itself the vacant node when the key
     * ends there, else carrying the new leaf).  The items stay as they were.
     */
    method InsertNode(key: Key, at: seq<Nibble>, q: nat) returns (pos: Position)
      requires Valid() && NodeAt(root, at).Some? && MissAt(NodeAt(root, at).value, QbitStr(key), q)
      modifies this
      ensures Valid() && items == old(items) && Bag(root) == old(Bag(root))
      ensures Slot(root, key, pos) && at < pos.at
    {
      var nod := NodeAt(root, at).value;
      var br_ix := GetQpos(key, nod.qlen);
      var br_node := nod.branches[br_ix];
      var nod': Node<()>;
      var rest: seq<Nibble>;
      if br_node.Some? {
        // Create interim branch
        var in_node := InterimNode(br_node.value, q, br_node.value.attrs, ());
        if q == 2 * |key| {
          // Interim node shall carry item
          SplitAtEnd(nod, key, q, br_node.value.attrs, ());
          nod' := nod.(branches := nod.branches[br_ix := Some(in_node)]);
          rest := [br_ix];
        } else {
          var leaf_ix := GetQpos(key, q);
          SplitWithLeaf(nod, key, q, br_node.value.attrs, (), (), ());
          var in_node' := in_node.(branches := in_node.branches[leaf_ix := Some(LeafNode(key, ()))], attrs := ());
          nod' := nod.(branches := nod.branches[br_ix := Some(in_node')]);
          rest := [br_ix, leaf_ix];
        }
      } else {
        // Create leaf
        AddLeaf(nod, key, (), ());
        nod' := nod.(branches := nod.branches[br_ix := Some(LeafNode(key, ()))], attrs := ());
        rest := [br_ix];
      }
      Graft(root, at, nod', rest, key);
      root := Replace(root, at, nod');
      pos := Position(at + rest, 2 * |key|, false);
    }

    /**
     * Put `item` at the vacant node for its key (reached by `at`) and
     * append it to the item list.
     */
    method InsertItem(item: KeyVal, at: seq<Nibble>)
      requires Valid() && NodeAt(root, at).Some? && Vacant(NodeAt(root, at).value, item.key)
      modifies this
      ensures Valid() && items == old(items) + [item] && Bag(root) == old(Bag(root)) + multiset{item}
      ensures NodeAt(root, at).Some? && NodeAt(root, at).value.item == Some(item)
    {
      items := items + [item];
      var nod := NodeAt(root, at).value;
      var nod' := nod.(key := item.key, item := Some(item));
      SetItem(nod, item);
      ReplaceAdds(root, at, nod', multiset{item});
      root := Replace(root, at, nod');
    }

    /**
     * Insert `item` unless an item with its key is already present; either
     * way, return the node that holds the key's item.
     */
    method Insert(item: KeyVal) returns (at: seq<Nibble>)
      requires Valid()
      modifies this
      ensures Valid() && Has(root, item.key)
      ensures old(Has(root, item.key)) ==> root == old(root) && items == old(items)
      ensures !old(Has(root, item.key)) ==> items == old(items) + [item] && Bag(root) == old(Bag(root)) + multiset{item}
      ensures NodeAt(root, at).Some? && NodeAt(root, at).value.item.Some? && NodeAt(root, at).value.item.value.key == item.key
    {
      ghost var k := QbitStr(item.key);
      var t := Trace(root, item.key);
      LocateSound(root, [], k);
      assert t.at[0..] == t.at;
      HasIff(root, item.key);
      var pos: Position;
      if t.Matched? {
        pos := Position(t.at, 2 * |item.key|, t.hasItem);
      } else {
        pos := InsertNode(item.key, t.at, t.q);
      }
      // Another item may already use the key
      if !pos.hit {
        InsertItem(item, pos.at);
      }
      at := pos.at;
      ItemHas(root, at);
    }

    /** The node holding the item with `key`, if there is one. */
    method Find(key: Key) returns (r: Option<seq<Nibble>>)
      requires Valid()
      ensures r.Some? <==> Has(root, key)
      ensures r.Some? ==> (NodeAt(root, r.value).Some? && NodeAt(root, r.value).value.item.Some? &&
        NodeAt(root, r.value).value.item.value.key == key && NodeAt(root, r.value).value.item.value in items)
    {
      var t := Trace(root, key);
      var pos := SearchPosition(t, |key|);
      HasIff(root, key);
      // Key mismatch
      if !pos.hit {
        return None;
      }
      return Some(pos.at);
    }

    /** The position where `key` is found or would be inserted. */
    method LowerBound(key: Key) returns (pos: Position)
      requires Valid()
      ensures pos == SearchPosition(Locate(root, [], QbitStr(key)), |key|)
      ensures ValidPosition(root, key, pos) && (pos.hit <==> Has(root, key))
    {
      var t := Trace(root, key);
      pos := SearchPosition(t, |key|);
      LowerBoundValid(root, key);
    }

    /**
     * Insert `item` at the position `lower_bound` reported for its key: a
     * complete-path position names the vacant node itself, any other needs
     * `InsertNode` first.  A hit is refused (None), tree untouched, as the
     * later revision does.
     */
    method InsertAt(item: KeyVal, pos: Position) returns (r: Option<seq<Nibble>>)
      requires Valid() && ValidPosition(root, item.key, pos)
      modifies this
      ensures Valid() && (r.None? <==> pos.hit)
      ensures r.None? ==> root == old(root) && items == old(items)
      ensures r.Some? ==> (items == old(items) + [item] && Bag(root) == old(Bag(root)) + multiset{item} &&
        NodeAt(root, r.value).Some? && NodeAt(root, r.value).value.item == Some(item) && pos.at <= r.value)
    {
      if pos.hit {
        return None;
      }
      var nod := NodeAt(root, pos.at).value;
      var at := pos.at;
      if !(pos.qlen == nod.qlen && pos.qlen == 2 * |item.key|) {
        var item_pos := InsertNode(item.key, pos.at, pos.qlen);
        at := item_pos.at;
      }
      InsertItem(item, at);
      return Some(at);
    }

    /**
     * `insert(item, pos)` as written: it always runs `insert_node`, whose
     * first step reads the key's nibble at the position node's path length.
     * At a complete-path position that nibble lies past the key's end; the
     * model stops there, tree untouched, and returns None.  Elsewhere it
     * inserts as `InsertAt` does.
     */
    method InsertAtAsWritten(item: KeyVal, pos: Position) returns (r: Option<seq<Nibble>>)
      requires Valid() && ValidPosition(root, item.key, pos)
      modifies this
      ensures r.None? <==> old(NodeAt(root, pos.at).value.qlen) >= 2 * |item.key|
      ensures r.None? ==> root == old(root) && items == old(items)
      ensures r.Some? ==> (Valid() && items == old(items) + [item] &&
        NodeAt(root, r.value).Some? && NodeAt(root, r.value).value.item == Some(item))
    {
      var nod := NodeAt(root, pos.at).value;
      if nod.qlen >= 2 * |item.key| {
        return None;
      }
      var item_pos := InsertNode(item.key, pos.at, pos.qlen);
      InsertItem(item, item_pos.at);
      return Some(item_pos.at);
    }

    /**
     * The iterator at the start of the walk (`begin`): the root if it bears
     * an item, else the next item node after it.
     */
    method Begin() returns (r: Option<seq<Nibble>>)
      requires Valid()
      ensures FirstItem(root, r)
    {
      if root.item.None? {
        r := Next(root, []);
      } else {
        r := Some([]);
      }
      FirstFromRoot(root, r);
    }

    /**
     * The node a position `lower_bound` reported for `key` names, when it
     * is a hit (`pos2iterator`): the node holding the key's item.
     */
    method PosToNode(ghost key: Key, pos: Position) returns (r: Option<seq<Nibble>>)
      requires Valid() && ValidPosition(root, key, pos)
      ensures r.Some? <==> pos.hit
      ensures r.Some? ==> (NodeAt(root, r.value).Some? && NodeAt(root, r.value).value.item.Some? &&
        NodeAt(root, r.value).value.item.value.key == key)
    {
      if !pos.hit {
        return None;
      }
      return Some(pos.at);
    }
  }

  /**
   * Iterator step: from the node at `at0`, walk the tree in pre-order
   * (branches in ascending order) to the next node bearing an item, or to
   * the end (None).  A parent pointer is the path without its last index.
   */
  method Next(root: Node<()>, at0: seq<Nibble>) returns (r: Option<seq<Nibble>>)
    requires WF(root) && NodeAt(root, at0).Some?
    ensures NextAfter(root, at0, r)
  {
    var nod := NodeAt(root, at0).value;
    var at: seq<Nibble> := at0;
    var br_ix: int := 0;
    GapStart(root, at0);
    while true
      invariant NodeAt(root, at) == Some(nod) && 0 <= br_ix < 16
      invariant Gap(root, at0, Pt(at, br_ix)) && NibblesLess(at0, Pt(at, br_ix))
      decreases |Ahead(root, Pt(at, br_ix))|
    {
      r, at, nod := Descend(root, at0, at, nod, br_ix);
      if r.Some? {
        return;
      }
      var done;
      at, nod, br_ix, done := Ascend(root, at0, at, nod);
      if done {
        return None;  // end
      }
    }
  }

  /**
   * The descent of `next`: from branch `br_ix` of the node at `at`, take
   * the first set branch, down to the first node bearing an item (`Some`);
   * or, with no such node below, stop past the branches of the node where
   * the walk ended.
   */
  method Descend(root: Node<()>, at0: seq<Nibble>, at: seq<Nibble>, nod: Node<()>, br_ix: int)
    returns (r: Option<seq<Nibble>>, at': seq<Nibble>, nod': Node<()>)
    requires WF(root) && NodeAt(root, at) == Some(nod) && 0 <= br_ix < 16
    requires Gap(root, at0, Pt(at, br_ix)) && NibblesLess(at0, Pt(at, br_ix))
    ensures r.Some? ==> NextAfter(root, at0, r)
    ensures r.None? ==> (NodeAt(root, at') == Some(nod') &&
      Gap(root, at0, Pt(at', 16)) && NibblesLess(at0, Pt(at', 16)) &&
      |Ahead(root, Pt(at', 16))| <= |Ahead(root, Pt(at, br_ix))|)
  {
    at', nod' := at, nod;
    var b := br_ix;
    while b < 16
      invariant NodeAt(root, at') == Some(nod') && 0 <= b <= 16
      invariant Gap(root, at0, Pt(at', b)) && NibblesLess(at0, Pt(at', b))
      invariant |Ahead(root, Pt(at', b))| <= |Ahead(root, Pt(at, br_ix))|
      decreases |Ahead(root, Pt(at', b))|
    {
      NodeAtWF(root, at');
      var child := nod'.branches[b];
      if child.Some? {
        WalkInto(root, at0, at', b);
        nod' := child.value;
        at' := at' + [b];
        if nod'.item.Some? {
          return Some(at'), at', nod';
        }
        b := 0;
        continue;
      }
      WalkOver(root, at0, at', b);
      b := b + 1;  // next branch, while there are more
    }
    r := None;
  }

  /**
   * The ascent of `next`: from the node at `at`, all of whose subtree the
   * walk has passed, go up until a parent has a branch after the one just
   * left (`done` when the root is passed: the walk is over).
   */
  method Ascend(root: Node<()>, at0: seq<Nibble>, at: seq<Nibble>, nod: Node<()>) returns (at': seq<Nibble>, nod': Node<()>, br_ix: int, done: bool)
    requires WF(root) && NodeAt(root, at) == Some(nod)
    requires Gap(root, at0, Pt(at, 16)) && NibblesLess(at0, Pt(at, 16))
    ensures done ==> NextAfter(root, at0, None)
    ensures !done ==> (NodeAt(root, at') == Some(nod') && 0 <= br_ix < 16 &&
      Gap(root, at0, Pt(at', br_ix)) && NibblesLess(at0, Pt(at', br_ix)) &&
      |Ahead(root, Pt(at', br_ix))| < |Ahead(root, Pt(at, 16))|)
  {
    at', nod', br_ix := at, nod, 16;
    while true
      invariant NodeAt(root, at') == Some(nod') && br_ix == 16
      invariant Gap(root, at0, Pt(at', br_ix)) && NibblesLess(at0, Pt(at', br_ix))
      invariant |Ahead(root, Pt(at', br_ix))| <= |Ahead(root, Pt(at, 16))|
      decreases |at'|
    {
      var key := nod'.key;
      if at' == [] {
        GapEnd(root, at0);
        return at', nod', br_ix, true;
      }
      WalkUp(root, at0, at');
      at' := at'[..|at'| - 1];
      nod' := NodeAt(root, at').value;
      br_ix := GetQpos(key, nod'.qlen);
      br_ix := br_ix + 1;
      if br_ix < 16 {
        return at', nod', br_ix, false;
      }
    }
  }

  /**
   * In the trie of "ab" and "aq", the lower bound of the absent key "a" is
   * the interim node for "a": a complete-path position, at which
   * `InsertAtAsWritten` reads past the key.
   */
  lemma OverrunExample()
    ensures var root := TwoKeys(());
      var pos := SearchPosition(Locate(root, [], QbitStr(KeyA)), |KeyA|);
      WF(root) && root.qlen == 0 && !Has(root, KeyA) &&
      ValidPosition(root, KeyA, pos) && !pos.hit && NodeAt(root, pos.at).value.qlen >= 2 * |KeyA|
  {
    TwoKeysShape(());
    LowerBoundValid(TwoKeys(()), KeyA);
  }
}
