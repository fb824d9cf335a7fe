/**
 * The node constructions of `insert_node` and `insert_item`, shared by both
 * revisions: a new leaf hung on an empty branch, an interim node put into
 * an edge where a new key leaves it, and an item placed at a node whose
 * path is its key.  Each keeps the tree well formed, and none but the last
 * changes the items.  The revisions differ only in the attributes they give
 * the nodes involved, so these take the attributes as parameters.
 */
module TrieInsert {
  import opened Keys
  import opened Paths
  import opened TrieCore
  import opened TrieSearch

  /** The items under one branch. */
  function BranchBag<A>(o: Option<Node<A>>): multiset<KeyVal>
  {
    if o.Some? then Bag(o.value) else multiset{}
  }

  /** Branches that hold the same items from `j` on hold the same items below them. */
  lemma {:induction false} BagFromSame<A>(n: Node<A>, n': Node<A>, j: nat)
    requires |n.branches| == |n'.branches|
    requires forall b :: j <= b < |n.branches| ==> BranchBag(n.branches[b]) == BranchBag(n'.branches[b])
    ensures BagFrom(n', j) == BagFrom(n, j)
    decreases |n.branches| - j
  {
    if j < |n.branches| {
      BagFromSame(n, n', j + 1);
      assert BranchBag(n.branches[j]) == BranchBag(n'.branches[j]);
    }
  }

  /** Nodes with the same item and branches holding the same items hold the same items. */
  lemma BagSame<A>(n: Node<A>, n': Node<A>)
    requires n.item == n'.item && |n.branches| == |n'.branches|
    requires forall b :: 0 <= b < |n.branches| ==> BranchBag(n.branches[b]) == BranchBag(n'.branches[b])
    ensures Bag(n') == Bag(n)
  {
    BagFromSame(n, n', 0);
  }

  /** A parent at the same place places its children the same way. */
  lemma ParentPlace<A>(n: Node<A>, n': Node<A>, b: Nibble, c: Node<A>)
    requires SamePlace(n, n') && ChildOK(n, b, c)
    ensures ChildOK(n', b, c)
  {
  }

  /**
   * The leaf `insert_node` creates for a key: no item yet, the key's full
   * nibble length, no branches.
   */
  function LeafNode<A>(key: Key, a: A): (l: Node<A>)
    ensures WF(l) && l.item.None? && l.qlen == 2 * |key| && Path(l) == QbitStr(key)
  {
    Node(None, key, 2 * |key|, NoBranches(), a)
  }

  /** A node with no item and no branch holds no item. */
  lemma LeafEmpty<A>(key: Key, a: A)
    ensures Bag(LeafNode(key, a)) == multiset{}
  {
    var l := LeafNode(key, a);
    BagFromSame(Node(None, [], 0, NoBranches(), a), l, 0);
    EmptyBagFrom(l, 0);
  }

  /** No branch set from `j` on: nothing below. */
  lemma {:induction false} EmptyBagFrom<A>(n: Node<A>, j: nat)
    requires forall b :: j <= b < |n.branches| ==> n.branches[b].None?
    ensures BagFrom(n, j) == multiset{}
    decreases |n.branches| - j
  {
    if j < |n.branches| {
      EmptyBagFrom(n, j + 1);
    }
  }

  /**
   * Hanging the leaf for `key` on the empty branch `b` of a node on the
   * key's path (and giving the node attributes `na`) keeps the node well
   * formed, at its place and with its items, and reaches the leaf at `[b]`.
   */
  lemma AddLeaf<A>(m: Node<A>, key: Key, la: A, na: A)
    requires WF(m) && m.qlen < 2 * |key| && QbitStr(key)[..m.qlen] == Path(m)
    requires m.branches[QbitStr(key)[m.qlen]].None?
    ensures var b := QbitStr(key)[m.qlen];
      var m' := m.(branches := m.branches[b := Some(LeafNode(key, la))], attrs := na);
      WF(m') && SamePlace(m, m') && Bag(m') == Bag(m) && NodeAt(m', [b]) == Some(LeafNode(key, la))
  {
    var b := QbitStr(key)[m.qlen];
    var l := LeafNode(key, la);
    var m' := m.(branches := m.branches[b := Some(l)], attrs := na);
    assert ChildOK(m, b, l);
    assert forall b': Nibble :: m'.branches[b'].Some? ==> ChildOK(m', b', m'.branches[b'].value) && WF(m'.branches[b'].value);
    LeafEmpty(key, la);
    BagSame(m, m');
    assert [b][1..] == [];
  }

  /**
   * The interim node `insert_node` puts into the edge to `c` at nibble
   * position `q`: no item, `c`'s key, path length `q`, and `c` (with
   * attributes `ca`) as its only child, on the branch for `c`'s digit at `q`.
   */
  function InterimNode<A>(c: Node<A>, q: nat, ca: A, ia: A): Node<A>
    requires q < c.qlen <= 2 * |c.key|
  {
    Node(None, c.key, q, NoBranches()[QbitStr(c.key)[q] := Some(c.(attrs := ca))], ia)
  }

  /** The interim node is well formed and holds exactly `c`'s items. */
  lemma InterimSound<A>(c: Node<A>, q: nat, ca: A, ia: A)
    requires WF(c) && q < c.qlen
    ensures var i := InterimNode(c, q, ca, ia);
      WF(i) && Bag(i) == Bag(c) && Path(i) == QbitStr(c.key)[..q]
    ensures NodeAt(InterimNode(c, q, ca, ia), [QbitStr(c.key)[q]]) == Some(c.(attrs := ca))
  {
    InterimWF(c, q, ca, ia);
    var i := InterimNode(c, q, ca, ia);
    var d := QbitStr(c.key)[q];
    SingleBagFrom(i, d, 0);
    AttrsBag(c, ca);
    assert [d][1..] == [];
  }

  /** The interim node is well formed. */
  lemma InterimWF<A>(c: Node<A>, q: nat, ca: A, ia: A)
    requires WF(c) && q < c.qlen
    ensures var i := InterimNode(c, q, ca, ia);
      WF(i) && (forall b :: 0 <= b < Fanout && b != QbitStr(c.key)[q] ==> i.branches[b].None?)
  {
    var i := InterimNode(c, q, ca, ia);
    var d := QbitStr(c.key)[q];
    var c' := c.(attrs := ca);
    assert WF(c');
    assert ChildOK(i, d, c');
  }

  /** The attributes of a node do not change what it holds. */
  lemma AttrsBag<A>(c: Node<A>, ca: A)
    ensures Bag(c.(attrs := ca)) == Bag(c)
  {
    BagSame(c, c.(attrs := ca));
  }

  /** A node whose only branch is `d` holds what that branch holds. */
  lemma {:induction false} SingleBagFrom<A>(n: Node<A>, d: nat, j: nat)
    requires j <= d < |n.branches| && n.branches[d].Some?
    requires forall b :: 0 <= b < |n.branches| && b != d ==> n.branches[b].None?
    ensures BagFrom(n, j) == Bag(n.branches[d].value)
    decreases d - j
  {
    if j < d {
      SingleBagFrom(n, d, j + 1);
    } else {
      EmptyBagFrom(n, d + 1);
    }
  }

  /**
   * Putting a node `i` on the occupied branch `d` of `m` in place of the
   * child `c` there keeps `m` well formed, at its place and with its items,
   * when `i` is well formed, holds `c`'s items, and has a path between
   * `m`'s and `c`'s continuing with `d`.
   */
  lemma ReplaceChild<A>(m: Node<A>, d: Nibble, i: Node<A>, na: A)
    requires WF(m) && m.branches[d].Some? && WF(i)
    requires var c := m.branches[d].value;
      m.qlen < i.qlen <= 2 * |i.key| && i.qlen <= c.qlen <= 2 * |c.key| && QbitStr(i.key)[..i.qlen] == QbitStr(c.key)[..i.qlen] &&
      Bag(i) == Bag(c)
    ensures var m' := m.(branches := m.branches[d := Some(i)], attrs := na);
      WF(m') && SamePlace(m, m') && Bag(m') == Bag(m) && NodeAt(m', [d]) == Some(i)
  {
    var c := m.branches[d].value;
    var m' := m.(branches := m.branches[d := Some(i)], attrs := na);
    assert ChildOK(m, d, c);
    ChildPrefix(m, d, c, i);
    assert forall b: Nibble :: m'.branches[b].Some? ==> ChildOK(m', b, m'.branches[b].value) && WF(m'.branches[b].value);
    BagSame(m, m');
    assert [d][1..] == [];
  }

  /** A node whose path is a prefix of the child's, and longer than the parent's, is placed like it. */
  lemma ChildPrefix<A>(m: Node<A>, d: Nibble, c: Node<A>, i: Node<A>)
    requires ChildOK(m, d, c)
    requires m.qlen < i.qlen <= 2 * |i.key| && i.qlen <= c.qlen && QbitStr(i.key)[..i.qlen] == QbitStr(c.key)[..i.qlen]
    ensures ChildOK(m, d, i)
  {
    PrefixOfPrefix(QbitStr(i.key), QbitStr(c.key), m.qlen, i.qlen);
  }

  /**
   * Placing `item` at a node without one whose path spells its key (and
   * taking the item's key as the node's key, as `insert_item` does) keeps
   * the node well formed and at its place, and adds exactly the item.
   */
  lemma SetItem<A>(n: Node<A>, item: KeyVal)
    requires WF(n) && n.item.None? && n.qlen == 2 * |item.key| && Path(n) == QbitStr(item.key)
    ensures var n' := n.(item := Some(item), key := item.key);
      WF(n') && SamePlace(n, n') && Bag(n') == Bag(n) + multiset{item}
  {
    var n' := n.(item := Some(item), key := item.key);
    assert SamePlace(n, n');
    forall b: Nibble | n'.branches[b].Some?
      ensures ChildOK(n', b, n'.branches[b].value) && WF(n'.branches[b].value)
    {
      ParentPlace(n, n', b, n.branches[b].value);
    }
    BagFromSame(n, n', 0);
  }

  /** The items after a replacement, when the new node adds `extra` to the old one's. */
  lemma ReplaceAdds<A>(root: Node<A>, at: seq<Nibble>, s: Node<A>, extra: multiset<KeyVal>)
    requires WF(root) && NodeAt(root, at).Some? && WF(s) && SamePlace(NodeAt(root, at).value, s)
    requires Bag(s) == Bag(NodeAt(root, at).value) + extra
    ensures WF(Replace(root, at, s)) && SamePlace(root, Replace(root, at, s))
    ensures Bag(Replace(root, at, s)) == Bag(root) + extra
    ensures NodeAt(Replace(root, at, s), at) == Some(s)
  {
    ReplaceSound(root, at, s);
    NodeAtReplace(root, at, s, at);
    assert at[|at|..] == [];
    var old_ := Bag(NodeAt(root, at).value);
    var r := Bag(Replace(root, at, s));
    assert r + old_ == Bag(root) + (old_ + extra);
    forall x ensures r[x] == (Bag(root) + extra)[x] {
      assert (r + old_)[x] == (Bag(root) + (old_ + extra))[x];
    }
  }

  /** After a replacement, paths through the replaced node lead into the new one. */
  lemma ReplaceReach<A>(root: Node<A>, at: seq<Nibble>, s: Node<A>, rest: seq<Nibble>)
    requires NodeAt(root, at).Some?
    ensures NodeAt(Replace(root, at, s), at + rest) == NodeAt(s, rest)
  {
    NodeAtReplace(root, at, s, at + rest);
    assert (at + rest)[|at|..] == rest;
  }

  /** A node ready to take the item for `key`: its path is the key and it carries no item yet. */
  ghost predicate Vacant<A>(n: Node<A>, key: Key)
  {
    WF(n) && n.item.None? && n.qlen == 2 * |key| && Path(n) == QbitStr(key)
  }

  /** The position `insert_node` returns: a vacant node for `key`, as a complete-path position. */
  ghost predicate Slot<A>(root: Node<A>, key: Key, pos: Position)
  {
    NodeAt(root, pos.at).Some? && Vacant(NodeAt(root, pos.at).value, key) &&
    pos.qlen == 2 * |key| && !pos.hit
  }

  /**
   * `insert_node` when the key ends inside the edge below `nod` (at `q`,
   * twice its length): the interim node put into the edge is the vacant
   * node for the key.  `ca` are the attributes the moved child gets, `ia`
   * the interim node's.
   */
  lemma SplitAtEnd<A>(nod: Node<A>, key: Key, q: nat, ca: A, ia: A)
    requires MissAt(nod, QbitStr(key), q) && nod.branches[QbitStr(key)[nod.qlen]].Some? && q == 2 * |key|
    ensures var d := QbitStr(key)[nod.qlen];
      var i := InterimNode(nod.branches[d].value, q, ca, ia);
      var nod' := nod.(branches := nod.branches[d := Some(i)]);
      WF(nod') && SamePlace(nod, nod') && Bag(nod') == Bag(nod) && NodeAt(nod', [d]) == Some(i) && Vacant(i, key)
  {
    var k := QbitStr(key);
    var d := k[nod.qlen];
    var c := nod.branches[d].value;
    assert ChildOK(nod, d, c) && WF(c);
    InterimSound(c, q, ca, ia);
    var i := InterimNode(c, q, ca, ia);
    ReplaceChild(nod, d, i, nod.attrs);
  }

  /**
   * `insert_node` when the key leaves the edge below `nod` at `q` before
   * it ends: an interim node goes into the edge (attributes `ia` when made,
   * `ia'` once the leaf is hung on it) and the key's new leaf (attributes
   * `la`) hangs from it on the key's digit at `q`.
   */
  lemma SplitWithLeaf<A>(nod: Node<A>, key: Key, q: nat, ca: A, ia: A, ia': A, la: A)
    requires MissAt(nod, QbitStr(key), q) && nod.branches[QbitStr(key)[nod.qlen]].Some? && q < 2 * |key|
    ensures var k := QbitStr(key);
      var d := k[nod.qlen];
      var i := InterimNode(nod.branches[d].value, q, ca, ia);
      var i' := i.(branches := i.branches[k[q] := Some(LeafNode(key, la))], attrs := ia');
      var nod' := nod.(branches := nod.branches[d := Some(i')]);
      WF(i') && i'.branches[QbitStr(i.key)[q]] == i.branches[QbitStr(i.key)[q]] && k[q] != QbitStr(i.key)[q] &&
      WF(nod') && SamePlace(nod, nod') && Bag(nod') == Bag(nod) && NodeAt(nod', [d]) == Some(i') &&
      NodeAt(nod', [d, k[q]]) == Some(LeafNode(key, la))
  {
    var k := QbitStr(key);
    var d := k[nod.qlen];
    var c := nod.branches[d].value;
    assert ChildOK(nod, d, c) && WF(c);
    InterimSound(c, q, ca, ia);
    InterimWF(c, q, ca, ia);
    var i := InterimNode(c, q, ca, ia);
    AddLeaf(i, key, la, ia');
    var i' := i.(branches := i.branches[k[q] := Some(LeafNode(key, la))], attrs := ia');
    ReplaceChild(nod, d, i', nod.attrs);
    var nod' := nod.(branches := nod.branches[d := Some(i')]);
    assert [d, k[q]][1..] == [k[q]];
  }

  /**
   * Putting `s` in place of the node at `at`, when `s` is at the same
   * place, holds the same items and has a vacant node for `key` at `rest`:
   * the tree stays well formed with its items and has that vacant node at
   * `at + rest`.
   */
  lemma Graft<A>(root: Node<A>, at: seq<Nibble>, s: Node<A>, rest: seq<Nibble>, key: Key)
    requires WF(root) && NodeAt(root, at).Some? && WF(s) && SamePlace(NodeAt(root, at).value, s)
    requires Bag(s) == Bag(NodeAt(root, at).value) && rest != []
    requires NodeAt(s, rest).Some? && Vacant(NodeAt(s, rest).value, key)
    ensures WF(Replace(root, at, s)) && Replace(root, at, s).qlen == root.qlen
    ensures Bag(Replace(root, at, s)) == Bag(root) && at < at + rest
    ensures Slot(Replace(root, at, s), key, Position(at + rest, 2 * |key|, false))
  {
    ReplaceAdds(root, at, s, multiset{});
    ReplaceReach(root, at, s, rest);
  }
}
