/**
 * Compactness of the later revision's tree (libtriexx): every node below
 * the root carries an item or has at least two children.  `insert_node`
 * only makes such nodes, once `insert_item` has filled the vacant node it
 * returns: an interim node splits an edge where a key ends (and takes its
 * item) or where two keys part ways.  `erase` restores it after taking an
 * item off: an emptied leaf is unlinked from its parent, and an item-less
 * node left with one child gives way to that child.  In between, the tree
 * is compact except at one node, the hole.
 */
module TrieCompact {
  import opened Keys
  import opened TrieCore
  import opened TrieInsert
  import opened BrAttrs
  import opened TrieRanges
  import opened TrieErase

  /** A node worth keeping below the root: it carries an item or it forks. */
  predicate Dense<A>(n: Node<A>)
  {
    n.item.Some? || Forks(n)
  }

  /** Every node below the root is dense, except perhaps the one at `hole`. */
  ghost predicate CompactBut<A>(n: Node<A>, hole: seq<Nibble>)
  {
    forall at :: at != [] && at != hole && NodeAt(n, at).Some? ==> Dense(NodeAt(n, at).value)
  }

  /** Every node below the root is dense. */
  ghost predicate Compact<A>(n: Node<A>)
  {
    CompactBut(n, [])
  }

  /** Every node below the root and outside the subtree at `p` is dense. */
  ghost predicate DenseOutside<A>(n: Node<A>, p: seq<Nibble>)
  {
    forall at :: at != [] && !(p <= at) && NodeAt(n, at).Some? ==> Dense(NodeAt(n, at).value)
  }

  // ---------------------------------------------------------------------
  // Holes and subtrees

  /** A path through a reached node: the rest of the path read from that node. */
  lemma {:induction false} NodeAtConcat<A>(n: Node<A>, p: seq<Nibble>, r: seq<Nibble>)
    requires NodeAt(n, p).Some?
    ensures NodeAt(n, p + r) == NodeAt(NodeAt(n, p).value, r)
    decreases |p|
  {
    if p == [] {
      assert p + r == r;
    } else {
      assert (p + r)[0] == p[0] && (p + r)[1..] == p[1..] + r;
      NodeAtConcat(n.branches[p[0]].value, p[1..], r);
    }
  }

  /** Nodes with the same branches have the same nodes below them. */
  lemma SameBelow<A>(a: Node<A>, b: Node<A>, r: seq<Nibble>)
    requires a.branches == b.branches && r != []
    ensures NodeAt(a, r) == NodeAt(b, r)
  {
  }

  /** A node whose set branches stay set, whatever it gains, keeps forking. */
  lemma ForksKept<A>(m: Node<A>, m': Node<A>)
    requires |m'.branches| == |m.branches| && Forks(m)
    requires forall b :: 0 <= b < |m.branches| && m.branches[b].Some? ==> m'.branches[b].Some?
    ensures Forks(m')
  {
    var b1: nat, b2: nat :| b1 < b2 < |m.branches| && m.branches[b1].Some? && m.branches[b2].Some?;
    assert m'.branches[b1].Some? && m'.branches[b2].Some?;
  }

  /** Two set branches make a fork. */
  lemma TwoSons<A>(m: Node<A>, x: nat, y: nat)
    requires x != y && x < |m.branches| && y < |m.branches| && m.branches[x].Some? && m.branches[y].Some?
    ensures Forks(m)
  {
    if x < y {
      assert x < y < |m.branches| && m.branches[x].Some? && m.branches[y].Some?;
    } else {
      assert y < x < |m.branches| && m.branches[y].Some? && m.branches[x].Some?;
    }
  }

  /** A tree compact except at a hole in the subtree at `p` is dense outside that subtree. */
  lemma Outside<A>(n: Node<A>, p: seq<Nibble>, hole: seq<Nibble>)
    requires CompactBut(n, hole) && (hole == [] || p <= hole)
    ensures DenseOutside(n, p)
  {
  }

  /** Filling the hole with a dense node (or having it at the root) makes the tree compact. */
  lemma FillHole<A>(n: Node<A>, p: seq<Nibble>)
    requires CompactBut(n, p) && NodeAt(n, p).Some? && (p == [] || Dense(NodeAt(n, p).value))
    ensures Compact(n)
  {
  }

  /** The subtree at `p` of a tree compact except at `p + h` is compact except at `h`. */
  lemma SubCompact<A>(n: Node<A>, p: seq<Nibble>, h: seq<Nibble>)
    requires NodeAt(n, p).Some? && CompactBut(n, p + h)
    ensures CompactBut(NodeAt(n, p).value, h)
  {
    forall r | r != [] && r != h && NodeAt(NodeAt(n, p).value, r).Some?
      ensures Dense(NodeAt(NodeAt(n, p).value, r).value)
    {
      NodeAtConcat(n, p, r);
      assert (p + r)[|p|..] == r && (p + h)[|p|..] == h;
      assert |p + r| > 0;
    }
  }

  /** A subtree that does not contain the hole is compact. */
  lemma SubCompactAway<A>(n: Node<A>, p: seq<Nibble>, hole: seq<Nibble>)
    requires NodeAt(n, p).Some? && CompactBut(n, hole) && !(p <= hole)
    ensures Compact(NodeAt(n, p).value)
  {
    forall r | r != [] && NodeAt(NodeAt(n, p).value, r).Some?
      ensures Dense(NodeAt(NodeAt(n, p).value, r).value)
    {
      NodeAtConcat(n, p, r);
      assert p <= p + r;
      assert |p + r| > 0;
    }
  }

  /**
   * Replacing the node at `p` by `s`, compact except at `hole`, leaves the
   * tree compact except at `p + hole`, provided the tree was dense outside
   * the subtree at `p` and `s` is dense unless it is the new hole or the
   * root.
   */
  lemma CompactReplace<A>(n: Node<A>, p: seq<Nibble>, s: Node<A>, hole: seq<Nibble>)
    requires NodeAt(n, p).Some? && DenseOutside(n, p) && CompactBut(s, hole)
    requires p != [] && hole != [] ==> Dense(s)
    ensures CompactBut(Replace(n, p, s), p + hole)
  {
    forall at | at != [] && at != p + hole && NodeAt(Replace(n, p, s), at).Some?
      ensures Dense(NodeAt(Replace(n, p, s), at).value)
    {
      NodeAtReplace(n, p, s, at);
      if p <= at {
        var r := at[|p|..];
        assert at == p + r;
      } else if at < p {
        NodeAtTail(n, at, p);
        ReplaceAbove(NodeAt(n, at).value, p[|at|..], s);
      }
    }
  }

  /**
   * Replacing a node by one with the same branches (another item, key or
   * attributes) keeps the tree compact except at that node, and makes it
   * compact when the new node is dense or the root.
   */
  lemma Refill<A>(n: Node<A>, p: seq<Nibble>, s: Node<A>)
    requires NodeAt(n, p).Some? && CompactBut(n, p) && s.branches == NodeAt(n, p).value.branches
    ensures CompactBut(Replace(n, p, s), p) && NodeAt(Replace(n, p, s), p) == Some(s)
    ensures (p == [] || Dense(s)) ==> Compact(Replace(n, p, s))
  {
    var m := NodeAt(n, p).value;
    assert p + [] == p;
    SubCompact(n, p, []);
    forall r | r != [] && NodeAt(s, r).Some?
      ensures Dense(NodeAt(s, r).value)
    {
      SameBelow(s, m, r);
    }
    Outside(n, p, p);
    CompactReplace(n, p, s, []);
    NodeAtReplace(n, p, s, p);
    if p == [] || Dense(s) {
      FillHole(Replace(n, p, s), p);
    }
  }

  /**
   * Hanging `g` on branch `d` of `m`, the rest of `m` kept, leaves it
   * compact except at `[d] + h`, when `m` was dense outside branch `d` and
   * `g` is compact except at `h` and, unless `h` is empty, dense.
   */
  lemma GraftBranch<A>(m: Node<A>, m': Node<A>, d: Nibble, g: Node<A>, h: seq<Nibble>)
    requires |m.branches| == Fanout && m'.branches == m.branches[d := Some(g)]
    requires DenseOutside(m, [d]) && CompactBut(g, h) && (h != [] ==> Dense(g))
    ensures CompactBut(m', [d] + h)
  {
    forall at | at != [] && at != [d] + h && NodeAt(m', at).Some?
      ensures Dense(NodeAt(m', at).value)
    {
      if at[0] == d {
        assert at == [d] + at[1..];
      } else {
        assert !([d] <= at);
        assert NodeAt(m', at) == NodeAt(m, at);
      }
    }
  }

  /**
   * Replacing a node of a compact tree by a graft that is compact except
   * at `rest` (when the node's subtree was compact) and dense (when the
   * node was) leaves the tree compact except at the end of `rest`.
   */
  lemma GraftCompact<A>(n: Node<A>, p: seq<Nibble>, s: Node<A>, rest: seq<Nibble>)
    requires Compact(n) && NodeAt(n, p).Some? && rest != []
    requires Compact(NodeAt(n, p).value) ==> CompactBut(s, rest)
    requires Dense(NodeAt(n, p).value) ==> Dense(s)
    ensures CompactBut(Replace(n, p, s), p + rest)
  {
    assert p + [] == p;
    SubCompact(n, p, []);
    Outside(n, p, []);
    CompactReplace(n, p, s, rest);
  }

  /** Changing only the key of a node keeps a compact tree compact. */
  lemma RekeyCompact<A>(n: Node<A>, p: seq<Nibble>, key: Key)
    requires Compact(n) && NodeAt(n, p).Some?
    ensures Compact(Replace(n, p, NodeAt(n, p).value.(key := key)))
  {
    var m := NodeAt(n, p).value;
    assert p != [] ==> Dense(m);
    Refill(n, p, m.(key := key));
  }

  /** A node without branches is compact. */
  lemma BareCompact<A>(m: Node<A>)
    requires |m.branches| == Fanout && forall b: Nibble :: m.branches[b].None?
    ensures Compact(m)
  {
    forall at | at != []
      ensures NodeAt(m, at).None?
    {
      assert m.branches[at[0]].None?;
    }
  }

  // ---------------------------------------------------------------------
  // insert_node

  /**
   * A new leaf on an empty branch: the rest of the node is as it was, so
   * only the leaf (vacant until `insert_item`) is a hole, and the node
   * stays dense if it was.
   */
  lemma NewLeafCompact(nod: Node<Br>, key: Key, b: Nibble, a: Br, w: Br)
    requires |nod.branches| == Fanout && nod.branches[b].None?
    ensures var nod' := nod.(branches := nod.branches[b := Some(LeafNode(key, a))], attrs := w);
      (Compact(nod) ==> CompactBut(nod', [b])) && (Dense(nod) ==> Dense(nod'))
  {
    var l := LeafNode(key, a);
    var nod' := nod.(branches := nod.branches[b := Some(l)], attrs := w);
    BareCompact(l);
    if Compact(nod) {
      Outside(nod, [b], []);
      GraftBranch(nod, nod', b, l, []);
      assert [b] + [] == [b];
    }
    if Dense(nod) && nod.item.None? {
      ForksKept(nod, nod');
    }
  }

  /**
   * An interim node above a dense, compact child is compact: its only
   * node below is that child (with its own index renewed) and the
   * child's subtree.
   */
  lemma InterimCompact(c: Node<Br>, q: nat, ca: Br, ia: Br)
    requires q < c.qlen <= 2 * |c.key| && Compact(c) && Dense(c)
    ensures Compact(InterimNode(c, q, ca, ia))
  {
    var i := InterimNode(c, q, ca, ia);
    var d' := QbitStr(c.key)[q];
    var c' := c.(attrs := ca);
    var e := Node(None, c.key, q, NoBranches(), ia);
    BareCompact(e);
    Outside(e, [d'], []);
    forall r | r != [] && NodeAt(c', r).Some?
      ensures Dense(NodeAt(c', r).value)
    {
      SameBelow(c', c, r);
    }
    GraftBranch(e, i, d', c', []);
    assert [d'] + [] == [d'];
    assert NodeAt(i, [d']) == Some(c');
    FillHole(i, [d']);
  }

  /**
   * `insert_node` splitting the edge on branch `d` by an interim node that
   * is itself the vacant node (the key ends in the edge): the interim
   * node is the only hole.
   */
  lemma InterimCarriesCompact(nod: Node<Br>, d: Nibble, q: nat, ca: Br, ia: Br)
    requires |nod.branches| == Fanout && nod.branches[d].Some?
    requires q < nod.branches[d].value.qlen <= 2 * |nod.branches[d].value.key|
    ensures var nod' := nod.(branches := nod.branches[d := Some(InterimNode(nod.branches[d].value, q, ca, ia))]);
      (Compact(nod) ==> CompactBut(nod', [d])) && (Dense(nod) ==> Dense(nod'))
  {
    var c := nod.branches[d].value;
    var i := InterimNode(c, q, ca, ia);
    var nod' := nod.(branches := nod.branches[d := Some(i)]);
    if Compact(nod) {
      assert NodeAt(nod, [d]) == Some(c);
      SubCompact(nod, [d], []);
      assert [d] + [] == [d];
      InterimCompact(c, q, ca, ia);
      Outside(nod, [d], []);
      GraftBranch(nod, nod', d, i, []);
    }
    if Dense(nod) && nod.item.None? {
      ForksKept(nod, nod');
    }
  }

  /**
   * `insert_node` splitting the edge on branch `d` by an interim node that
   * forks: the old child on one branch, the new leaf on branch `e`.  The
   * interim node is dense; only the leaf is a hole.
   */
  lemma InterimForksCompact(nod: Node<Br>, d: Nibble, q: nat, ca: Br, ia: Br, key: Key, e: Nibble, la: Br, w: Br)
    requires |nod.branches| == Fanout && nod.branches[d].Some?
    requires q < nod.branches[d].value.qlen <= 2 * |nod.branches[d].value.key|
    requires e != QbitStr(nod.branches[d].value.key)[q]
    ensures var i := InterimNode(nod.branches[d].value, q, ca, ia);
      var i' := i.(branches := i.branches[e := Some(LeafNode(key, la))], attrs := w);
      var nod' := nod.(branches := nod.branches[d := Some(i')]);
      (Compact(nod) ==> CompactBut(nod', [d, e])) && (Dense(nod) ==> Dense(nod'))
  {
    var c := nod.branches[d].value;
    var d' := QbitStr(c.key)[q];
    var i := InterimNode(c, q, ca, ia);
    var i' := i.(branches := i.branches[e := Some(LeafNode(key, la))], attrs := w);
    var nod' := nod.(branches := nod.branches[d := Some(i')]);
    if Compact(nod) {
      assert NodeAt(nod, [d]) == Some(c);
      SubCompact(nod, [d], []);
      assert [d] + [] == [d];
      InterimCompact(c, q, ca, ia);
      NewLeafCompact(i, key, e, la, w);
      TwoSons(i', d', e);
      Outside(nod, [d], []);
      GraftBranch(nod, nod', d, i', [e]);
      assert [d] + [e] == [d, e];
    }
    if Dense(nod) && nod.item.None? {
      ForksKept(nod, nod');
    }
  }

  // ---------------------------------------------------------------------
  // erase

  /**
   * Unlinking the emptied leaf on branch `b` of the node `p` at `pa`: the
   * leaf's hole is gone and the parent becomes the hole.  A parent below
   * the root that has no item keeps a child, because it forked before.
   */
  lemma DropCompact(root: Node<Br>, pa: seq<Nibble>, b: Nibble, p: Node<Br>)
    requires NodeAt(root, pa) == Some(p) && |p.branches| == Fanout && p.branches[b].Some?
    requires CompactBut(root, pa + [b])
    ensures CompactBut(Replace(root, pa, Unlinked(p, b)), pa)
    ensures pa != [] && p.item.None? ==> !IsLeaf(Unlinked(p, b).attrs)
  {
    var p' := Unlinked(p, b);
    Outside(root, pa, pa + [b]);
    forall r | r != [] && NodeAt(p', r).Some?
      ensures Dense(NodeAt(p', r).value)
    {
      assert r[0] != b;
      assert NodeAt(p', r) == NodeAt(p, r);
      NodeAtConcat(root, pa, r);
      assert (pa + r)[|pa|] == r[0] && (pa + [b])[|pa|] == b;
      assert |pa + r| > 0;
    }
    CompactReplace(root, pa, p', []);
    assert pa + [] == pa;
    if pa != [] {
      assert |pa| < |pa + [b]|;
      assert Dense(p);
      if p.item.None? {
        DropParent(p, b);
      }
    }
  }

  /** A forking parent that loses the son on branch `b` still has a child. */
  lemma DropParent(p: Node<Br>, b: Nibble)
    requires |p.branches| == Fanout && Forks(p)
    ensures !IsLeaf(Unlinked(p, b).attrs)
  {
    var p' := Unlinked(p, b);
    var b1: nat, b2: nat :| b1 < b2 < |p.branches| && p.branches[b1].Some? && p.branches[b2].Some?;
    var o := if b1 == b then b2 else b1;
    assert p'.branches[o].Some?;
    RangeShape(p');
  }

  /**
   * The only son `Lift(n)` of the item-less node `n` on branch `b` of the
   * node at `pa` is dense and compact.
   */
  lemma LiftCompact(root: Node<Br>, pa: seq<Nibble>, b: Nibble, n: Node<Br>)
    requires NodeAt(root, pa + [b]) == Some(n) && Ranged(n) && HasOnlySon(n.attrs)
    requires CompactBut(root, pa + [b])
    ensures Compact(Lift(n)) && Dense(Lift(n))
  {
    var at := pa + [b];
    RangeShape(n);
    var f := n.attrs.first;
    var son := n.branches[f].value;
    var l := Lift(n);
    NodeAtConcat(root, at, [f]);
    assert |at + [f]| > 0 && at + [f] != at;
    assert Dense(son);
    SubCompactAway(root, at + [f], at);
    forall r | r != [] && NodeAt(l, r).Some?
      ensures Dense(NodeAt(l, r).value)
    {
      SameBelow(l, son, r);
    }
    if son.item.None? {
      ForksKept(son, l);
    }
  }

  /**
   * Lifting the only son of the item-less hole `n` on branch `b` of the
   * node `p` at `pa` into its place makes the tree compact: the son is
   * dense, and the parent keeps its item and its set branches.
   */
  lemma SpliceCompact(root: Node<Br>, pa: seq<Nibble>, b: Nibble, p: Node<Br>, n: Node<Br>)
    requires NodeAt(root, pa) == Some(p) && |p.branches| == Fanout && p.branches[b] == Some(n)
    requires Ranged(n) && HasOnlySon(n.attrs) && CompactBut(root, pa + [b])
    ensures Compact(Replace(root, pa, p.(branches := p.branches[b := Some(Lift(n))])))
  {
    var l := Lift(n);
    var s := p.(branches := p.branches[b := Some(l)]);
    NodeAtConcat(root, pa, [b]);
    LiftCompact(root, pa, b, n);
    SpliceParent(root, pa, b, p, l);
    Outside(root, pa, pa + [b]);
    CompactReplace(root, pa, s, []);
    assert pa + [] == pa;
    NodeAtReplace(root, pa, s, pa);
    if pa != [] {
      assert |pa| < |pa + [b]|;
      assert Dense(p);
      if p.item.None? {
        ForksKept(p, s);
      }
    }
    FillHole(Replace(root, pa, s), pa);
  }

  /** The parent with a dense, compact son put on branch `b` in place of the hole is compact. */
  lemma SpliceParent(root: Node<Br>, pa: seq<Nibble>, b: Nibble, p: Node<Br>, l: Node<Br>)
    requires NodeAt(root, pa) == Some(p) && |p.branches| == Fanout
    requires CompactBut(root, pa + [b]) && Compact(l) && Dense(l)
    ensures Compact(p.(branches := p.branches[b := Some(l)]))
  {
    var s := p.(branches := p.branches[b := Some(l)]);
    SubCompact(root, pa, [b]);
    Outside(p, [b], [b]);
    GraftBranch(p, s, b, l, []);
    assert [b] + [] == [b];
    assert NodeAt(s, [b]) == Some(l);
    FillHole(s, [b]);
  }

  /**
   * Where `erase` stops tidying: the hole is the root, carries an item,
   * or (neither a leaf nor an only son's parent) forks.
   */
  lemma SettledCompact(root: Node<Br>, c: seq<Nibble>)
    requires AttrsOK(root) && NodeAt(root, c).Some? && CompactBut(root, c)
    requires c != [] && NodeAt(root, c).value.item.None? ==>
      !IsLeaf(NodeAt(root, c).value.attrs) && !HasOnlySon(NodeAt(root, c).value.attrs)
    ensures Compact(root)
  {
    var n := NodeAt(root, c).value;
    NodeAtOK(root, c);
    RangeShape(n);
    FillHole(root, c);
  }
}
