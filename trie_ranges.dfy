/**
 * The invariant the branch attributes of the later revision (libtriexx)
 * keep: every node's child range is tight (each set branch lies between
 * the first and last child's indices, and both of those are set), and
 * every child records the branch it hangs on.  The lemmas show that the
 * node constructions of `insert_node` keep it.
 */
module TrieRanges {
  import opened Keys
  import opened TrieCore
  import opened TrieInsert
  import opened TrieSearch
  import opened BrAttrs

  /** The child range of one node is tight. */
  predicate Ranged(n: Node<Br>)
  {
    |n.branches| == Fanout &&
    (forall b: Nibble :: n.branches[b].Some? ==> n.attrs.first <= b <= n.attrs.last) &&
    (n.attrs.first <= n.attrs.last ==> n.branches[n.attrs.first].Some? && n.branches[n.attrs.last].Some?)
  }

  /** Every range in the (sub-)tree is tight, and every child knows its own branch index. */
  predicate AttrsOK(n: Node<Br>)
    decreases n
  {
    Ranged(n) &&
    forall b: Nibble :: n.branches[b].Some? ==> n.branches[b].value.attrs.own == b && AttrsOK(n.branches[b].value)
  }

  /**
   * What the attributes tell of a node with a tight range: `is_leaf` holds
   * exactly when no branch is set, `has_only_son` exactly when the first
   * child is the only one, and first below last exactly when it forks.
   */
  lemma RangeShape(n: Node<Br>)
    requires Ranged(n)
    ensures IsLeaf(n.attrs) <==> forall b: Nibble :: n.branches[b].None?
    ensures HasOnlySon(n.attrs) <==>
      (n.branches[n.attrs.first].Some? && forall b: Nibble :: b != n.attrs.first ==> n.branches[b].None?)
    ensures Forks(n) <==> n.attrs.first < n.attrs.last
  {
    var f, l := n.attrs.first, n.attrs.last;
    if Forks(n) {
      var b1: nat, b2: nat :| b1 < b2 < |n.branches| && n.branches[b1].Some? && n.branches[b2].Some?;
      assert f <= b1 && b2 <= l;
    }
    if f < l {
      assert n.branches[f].Some? && n.branches[l].Some?;
    }
    if n.branches[f].Some? && forall b: Nibble :: b != f ==> n.branches[b].None? {
      assert n.branches[l].Some?;
    }
  }

  /** A node with no branch set has a tight range exactly when it is marked as a leaf. */
  lemma LeafRanged(n: Node<Br>)
    requires |n.branches| == Fanout && forall b: Nibble :: n.branches[b].None?
    ensures Ranged(n) <==> IsLeaf(n.attrs)
  {
  }

  /** The leaf `insert_node` makes on branch `own` satisfies the invariant. */
  lemma LeafOK(key: Key, own: Nibble)
    ensures AttrsOK(LeafNode(key, NewBr(own)))
  {
    LeafRanged(LeafNode(key, NewBr(own)));
  }

  /** The invariant looks at branches and attributes only. */
  lemma SameShapeOK(n: Node<Br>, n': Node<Br>)
    requires AttrsOK(n) && n'.branches == n.branches && n'.attrs == n.attrs
    ensures AttrsOK(n')
  {
  }

  /** Giving a node a new own index keeps the invariant of its subtree. */
  lemma OwnOK(c: Node<Br>, d: Nibble)
    requires AttrsOK(c)
    ensures AttrsOK(c.(attrs := c.attrs.(own := d)))
  {
  }

  /**
   * Hanging a new leaf on the empty branch `b` and widening the range to
   * take it in keeps the invariant and the own index.
   */
  lemma AddLeafOK(m: Node<Br>, key: Key, b: Nibble)
    requires AttrsOK(m) && m.branches[b].None?
    ensures var m' := m.(branches := m.branches[b := Some(LeafNode(key, NewBr(b)))], attrs := Widen(m.attrs, b));
      AttrsOK(m') && m'.attrs.own == m.attrs.own
  {
    var m' := m.(branches := m.branches[b := Some(LeafNode(key, NewBr(b)))], attrs := Widen(m.attrs, b));
    RangeShape(m);
    LeafOK(key, b);
    assert Ranged(m');
  }

  /**
   * The interim node `insert_node` puts into the edge to `c` at `q`: its
   * range is the moved child's new own index alone, and it hangs on `own`.
   */
  lemma InterimOK(c: Node<Br>, q: nat, own: Nibble)
    requires AttrsOK(c) && q < c.qlen <= 2 * |c.key|
    ensures var d := QbitStr(c.key)[q];
      var i := InterimNode(c, q, c.attrs.(own := d), Br(own, d, d));
      AttrsOK(i) && i.attrs.own == own
  {
    var d := QbitStr(c.key)[q];
    OwnOK(c, d);
    var i := InterimNode(c, q, c.attrs.(own := d), Br(own, d, d));
    assert Ranged(i);
  }

  /** Putting a node that knows its own index on a set branch keeps the invariant. */
  lemma SetChildOK(m: Node<Br>, d: Nibble, i: Node<Br>)
    requires AttrsOK(m) && m.branches[d].Some? && AttrsOK(i) && i.attrs.own == d
    ensures AttrsOK(m.(branches := m.branches[d := Some(i)]))
  {
    var m' := m.(branches := m.branches[d := Some(i)]);
    assert Ranged(m');
  }

  /** Reached nodes satisfy the invariant and record the last index of their path. */
  lemma {:induction false} NodeAtOK(root: Node<Br>, at: seq<Nibble>)
    requires AttrsOK(root) && NodeAt(root, at).Some?
    ensures AttrsOK(NodeAt(root, at).value)
    ensures at != [] ==> NodeAt(root, at).value.attrs.own == at[|at| - 1]
    decreases |at|
  {
    if at != [] {
      NodeAtOK(root.branches[at[0]].value, at[1..]);
      if |at| > 1 {
        assert at[1..][|at| - 2] == at[|at| - 1];
      }
    }
  }

  /**
   * Replacing a reached node by one that satisfies the invariant and keeps
   * the replaced node's own index keeps the invariant of the whole tree.
   */
  lemma {:induction false} ReplaceOK(root: Node<Br>, at: seq<Nibble>, s: Node<Br>)
    requires AttrsOK(root) && NodeAt(root, at).Some? && AttrsOK(s)
    requires at != [] ==> s.attrs.own == NodeAt(root, at).value.attrs.own
    ensures AttrsOK(Replace(root, at, s))
    ensures at != [] ==> Replace(root, at, s).attrs == root.attrs
    decreases |at|
  {
    if at != [] {
      var c := root.branches[at[0]].value;
      ReplaceOK(c, at[1..], s);
      SetChildOK(root, at[0], Replace(c, at[1..], s));
    }
  }

  /**
   * `insert_node`'s interim node for a key that ends inside the edge on
   * branch `d` of `nod`: the moved child takes its new own index, the
   * interim node hangs on `d` with that index as its only child.
   */
  lemma SplitAtEndOK(nod: Node<Br>, key: Key, q: nat)
    requires AttrsOK(nod) && MissAt(nod, QbitStr(key), q) && nod.branches[QbitStr(key)[nod.qlen]].Some?
    ensures var d := QbitStr(key)[nod.qlen];
      var c := nod.branches[d].value;
      var d' := QbitStr(c.key)[q];
      var i := InterimNode(c, q, c.attrs.(own := d'), Br(d, d', d'));
      AttrsOK(i) && AttrsOK(nod.(branches := nod.branches[d := Some(i)]))
  {
    var d := QbitStr(key)[nod.qlen];
    var c := nod.branches[d].value;
    var d' := QbitStr(c.key)[q];
    InterimOK(c, q, d);
    SetChildOK(nod, d, InterimNode(c, q, c.attrs.(own := d'), Br(d, d', d')));
  }

  /**
   * `insert_node`'s interim node with the new leaf for a key that leaves
   * the edge on branch `d` of `nod` at `q`: the interim node's range is
   * widened to take in the leaf on the key's digit at `q`.
   */
  lemma SplitWithLeafOK(nod: Node<Br>, key: Key, q: nat)
    requires AttrsOK(nod) && MissAt(nod, QbitStr(key), q) && nod.branches[QbitStr(key)[nod.qlen]].Some?
    requires q < 2 * |key| && WF(nod.branches[QbitStr(key)[nod.qlen]].value)
    ensures var k := QbitStr(key);
      var d := k[nod.qlen];
      var c := nod.branches[d].value;
      var d' := QbitStr(c.key)[q];
      var i := InterimNode(c, q, c.attrs.(own := d'), Br(d, d', d'));
      var i' := i.(branches := i.branches[k[q] := Some(LeafNode(key, NewBr(k[q])))], attrs := Widen(i.attrs, k[q]));
      AttrsOK(nod.(branches := nod.branches[d := Some(i')]))
  {
    var k := QbitStr(key);
    var d := k[nod.qlen];
    var c := nod.branches[d].value;
    var d' := QbitStr(c.key)[q];
    var ca := c.attrs.(own := d');
    InterimOK(c, q, d);
    InterimWF(c, q, ca, Br(d, d', d'));
    var i := InterimNode(c, q, ca, Br(d, d', d'));
    assert k[q] != d';
    AddLeafOK(i, key, k[q]);
    SetChildOK(nod, d, i.(branches := i.branches[k[q] := Some(LeafNode(key, NewBr(k[q])))], attrs := Widen(i.attrs, k[q])));
  }
}
