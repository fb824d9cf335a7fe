/**
 * The node surgery of `erase` in the later revision (libtriexx): taking
 * the item off a node, dropping an empty leaf from its parent (and
 * narrowing the parent's child range), lifting the only son of an
 * interim node into its place, and giving an item-less node the key of a
 * descendant.  Each keeps the tree well formed and its branch attributes
 * exact; only the first changes the items.
 */
module TrieErase {
  import opened Keys
  import Paths
  import opened TrieCore
  import opened TrieSearch
  import opened TrieInsert
  import opened BrAttrs
  import opened TrieRanges

  /**
   * The item list with the first occurrence of `x` taken out (`m_items.erase`
   * on the iterator to it).
   */
  function Without(s: seq<Paths.KeyVal>, x: Paths.KeyVal): (r: seq<Paths.KeyVal>)
    ensures multiset(r) == multiset(s) - multiset{x}
    ensures x !in s ==> r == s
  {
    if s == [] then []
    else if s[0] == x then
      assert s == [s[0]] + s[1..];
      s[1..]
    else
      assert s == [s[0]] + s[1..];
      [s[0]] + Without(s[1..], x)
  }

  /** The other items keep their order: the list is cut around the first occurrence of `x`. */
  lemma WithoutAt(s: seq<Paths.KeyVal>, x: Paths.KeyVal, i: nat)
    requires i < |s| && s[i] == x && x !in s[..i]
    ensures Without(s, x) == s[..i] + s[i + 1..]
  {
    assert s == s[..i] + s[i..];
    WithoutSkip(s[..i], s[i..], x);
    assert s[i..] == [x] + s[i + 1..];
  }

  /** Items before the first occurrence of `x` are kept, in order. */
  lemma {:induction false} WithoutSkip(p: seq<Paths.KeyVal>, q: seq<Paths.KeyVal>, x: Paths.KeyVal)
    requires x !in p
    ensures Without(p + q, x) == p + Without(q, x)
  {
    if p == [] {
      assert p + q == q;
    } else {
      var w := Without(q, x);
      assert (p + q)[0] == p[0] != x && (p + q)[1..] == p[1..] + q;
      assert Without(p + q, x) == [p[0]] + Without(p[1..] + q, x);
      WithoutSkip(p[1..], q, x);
      ConsAppend(p, w);
    }
  }

  lemma ConsAppend<T>(p: seq<T>, w: seq<T>)
    requires p != []
    ensures [p[0]] + (p[1..] + w) == p + w
  {
    assert p == [p[0]] + p[1..];
  }

  /** The least index from `b` on whose branch is set; `Fanout` when there is none. */
  function FirstSet(bs: seq<Option<Node<Br>>>, b: nat): (i: nat)
    requires |bs| == Fanout && b <= Fanout
    ensures b <= i <= Fanout && (i < Fanout ==> bs[i].Some?)
    ensures forall j :: b <= j < i ==> bs[j].None?
    decreases Fanout - b
  {
    if b == Fanout then Fanout
    else if bs[b].Some? then b
    else FirstSet(bs, b + 1)
  }

  /** The greatest index up to `b` whose branch is set; -1 when there is none. */
  function LastSet(bs: seq<Option<Node<Br>>>, b: int): (i: int)
    requires |bs| == Fanout && -1 <= b < Fanout
    ensures -1 <= i <= b && (i >= 0 ==> bs[i].Some?)
    ensures forall j :: i < j <= b ==> bs[j].None?
    decreases b + 1
  {
    if b == -1 then -1
    else if bs[b].Some? then b
    else LastSet(bs, b - 1)
  }

  /** An index with a set branch and none set before it is the first. */
  lemma {:induction false} FirstSetIs(bs: seq<Option<Node<Br>>>, b: nat, i: nat)
    requires |bs| == Fanout && b <= i < Fanout && bs[i].Some?
    requires forall j :: b <= j < i ==> bs[j].None?
    ensures FirstSet(bs, b) == i
    decreases i - b
  {
    if b < i {
      FirstSetIs(bs, b + 1, i);
    }
  }

  /** An index with a set branch and none set after it (up to `b`) is the last. */
  lemma {:induction false} LastSetIs(bs: seq<Option<Node<Br>>>, b: int, i: nat)
    requires |bs| == Fanout && i <= b < Fanout && bs[i].Some?
    requires forall j :: i < j <= b ==> bs[j].None?
    ensures LastSet(bs, b) == i
    decreases b - i
  {
    if i < b {
      LastSetIs(bs, b - 1, i);
    }
  }

  /**
   * The node with its child range made exact: first and last set branch,
   * or the childless marking `(1, 0)` that `br_set(1, 0)` writes when no
   * branch is set.  The own index is kept.
   */
  function Tightened(n: Node<Br>): (n': Node<Br>)
    requires |n.branches| == Fanout
    ensures Ranged(n') && n'.attrs.own == n.attrs.own
    ensures n' == n.(attrs := n'.attrs)
  {
    var f := FirstSet(n.branches, 0);
    if f == Fanout then n.(attrs := n.attrs.(first := 1, last := 0))
    else
      var l := LastSet(n.branches, Fanout - 1);
      n.(attrs := n.attrs.(first := f, last := l))
  }

  /** A node with a tight range of one or more children is already tightened. */
  lemma TightenedExact(n: Node<Br>)
    requires Ranged(n) && !IsLeaf(n.attrs)
    ensures Tightened(n) == n
  {
    FirstSetIs(n.branches, 0, n.attrs.first);
    LastSetIs(n.branches, Fanout - 1, n.attrs.last);
  }

  /** The parent after its child on branch `b` is dropped (`branches[b].reset(NULL)` and the range update). */
  function Unlinked(p: Node<Br>, b: Nibble): Node<Br>
    requires |p.branches| == Fanout
  {
    Tightened(p.(branches := p.branches[b := None]))
  }

  /**
   * The range update `erase` makes on the parent whose child on branch `b`
   * it drops: the only son gone, the parent is marked childless; the first
   * (last) son gone, the next set branch above (below) it becomes the
   * first (last); a son in between leaves the range as it is.
   */
  method Narrow(p: Node<Br>, b: Nibble) returns (p': Node<Br>)
    requires Ranged(p) && p.branches[b].Some?
    ensures p' == Unlinked(p, b)
  {
    var p1 := p.(branches := p.branches[b := None]);
    if HasOnlySon(p.attrs) {
      // Just removed parent's only son
      p' := p1.(attrs := p.attrs.(first := 1, last := 0));
      NarrowOnly(p, b);
    } else if p.attrs.first == b {
      // Removed the 1st son
      var ix := b + 1;
      while p1.branches[ix].None?
        invariant b < ix <= p.attrs.last
        invariant forall j :: b < j < ix ==> p.branches[j].None?
        decreases p.attrs.last - ix
      {
        ix := ix + 1;
      }
      p' := p1.(attrs := p.attrs.(first := ix));
      NarrowFirst(p, b, ix);
    } else if p.attrs.last == b {
      // Removed the last son
      var ix := b - 1;
      while p1.branches[ix].None?
        invariant p.attrs.first <= ix < b
        invariant forall j :: ix < j < b ==> p.branches[j].None?
        decreases ix
      {
        ix := ix - 1;
      }
      p' := p1.(attrs := p.attrs.(last := ix));
      NarrowLast(p, b, ix);
    } else {
      p' := p1;
      NarrowInner(p, b);
    }
  }

  /** Dropping the only son leaves the parent childless. */
  lemma NarrowOnly(p: Node<Br>, b: Nibble)
    requires Ranged(p) && p.branches[b].Some? && HasOnlySon(p.attrs)
    ensures Unlinked(p, b) == p.(branches := p.branches[b := None], attrs := p.attrs.(first := 1, last := 0))
  {
    var p1 := p.(branches := p.branches[b := None]);
    assert forall j: Nibble :: p1.branches[j].None?;
  }

  /** Dropping the first of several sons: the next set branch above it is the new first. */
  lemma NarrowFirst(p: Node<Br>, b: Nibble, ix: int)
    requires Ranged(p) && p.branches[b].Some? && !HasOnlySon(p.attrs) && p.attrs.first == b
    requires b < ix <= p.attrs.last && p.branches[ix].Some?
    requires forall j :: b < j < ix ==> p.branches[j].None?
    ensures Unlinked(p, b) == p.(branches := p.branches[b := None], attrs := p.attrs.(first := ix))
  {
    var p1 := p.(branches := p.branches[b := None]);
    FirstSetIs(p1.branches, 0, ix);
    LastSetIs(p1.branches, Fanout - 1, p.attrs.last);
  }

  /** Dropping the last of several sons: the next set branch below it is the new last. */
  lemma NarrowLast(p: Node<Br>, b: Nibble, ix: int)
    requires Ranged(p) && p.branches[b].Some? && !HasOnlySon(p.attrs) && p.attrs.first != b && p.attrs.last == b
    requires p.attrs.first <= ix < b && p.branches[ix].Some?
    requires forall j :: ix < j < b ==> p.branches[j].None?
    ensures Unlinked(p, b) == p.(branches := p.branches[b := None], attrs := p.attrs.(last := ix))
  {
    var p1 := p.(branches := p.branches[b := None]);
    FirstSetIs(p1.branches, 0, p.attrs.first);
    LastSetIs(p1.branches, Fanout - 1, ix);
  }

  /** Dropping a son strictly inside the range leaves the range as it is. */
  lemma NarrowInner(p: Node<Br>, b: Nibble)
    requires Ranged(p) && p.branches[b].Some? && p.attrs.first != b && p.attrs.last != b
    ensures Unlinked(p, b) == p.(branches := p.branches[b := None])
  {
    var p1 := p.(branches := p.branches[b := None]);
    FirstSetIs(p1.branches, 0, p.attrs.first);
    LastSetIs(p1.branches, Fanout - 1, p.attrs.last);
  }

  /** An item-less node marked as a leaf, with an exact range, holds no item. */
  lemma EmptyLeafBag(n: Node<Br>)
    requires Ranged(n) && IsLeaf(n.attrs) && n.item.None?
    ensures Bag(n) == multiset{}
  {
    RangeShape(n);
    EmptyBagFrom(n, 0);
  }

  /**
   * Taking the item off a node keeps it well formed, at its place and with
   * exact attributes, and takes exactly that item out of its items.
   */
  lemma ClearItemSound(n: Node<Br>)
    requires WF(n) && AttrsOK(n) && n.item.Some?
    ensures var n' := n.(item := None);
      WF(n') && SamePlace(n, n') && AttrsOK(n') && Bag(n') == Bag(n) - multiset{n.item.value}
  {
    var n' := n.(item := None);
    assert SamePlace(n, n');
    forall b: Nibble | n'.branches[b].Some?
      ensures ChildOK(n', b, n'.branches[b].value) && WF(n'.branches[b].value)
    {
      ParentPlace(n, n', b, n.branches[b].value);
    }
    BagFromSame(n, n', 0);
    SameShapeOK(n, n');
  }

  /**
   * Dropping a child that holds no item from a node, and tightening its
   * range, keeps the node well formed, at its place, with its items and
   * with exact attributes.
   */
  lemma DropChildSound(p: Node<Br>, b: Nibble)
    requires WF(p) && AttrsOK(p) && p.branches[b].Some? && Bag(p.branches[b].value) == multiset{}
    ensures var p' := Unlinked(p, b);
      WF(p') && SamePlace(p, p') && AttrsOK(p') && Bag(p') == Bag(p) && p'.attrs.own == p.attrs.own
  {
    var p0 := p.(branches := p.branches[b := None]);
    var p' := Unlinked(p, b);
    assert p' == p0.(attrs := p'.attrs);
    DropChildWF(p, b);
    assert forall d :: 0 <= d < |p.branches| ==> BranchBag(p.branches[d]) == BranchBag(p'.branches[d]);
    BagSame(p, p');
    DropChildOK(p, b);
  }

  /** Dropping a child and tightening the range keeps the attributes exact. */
  lemma DropChildOK(p: Node<Br>, b: Nibble)
    requires AttrsOK(p)
    ensures AttrsOK(Unlinked(p, b)) && Unlinked(p, b).attrs.own == p.attrs.own
  {
    var p' := Unlinked(p, b);
    assert forall d: Nibble :: p'.branches[d].Some? ==> p'.branches[d] == p.branches[d];
  }

  /** Dropping a child, whatever the attributes become, keeps the node well formed. */
  lemma DropChildWF(p: Node<Br>, b: Nibble)
    requires WF(p)
    ensures forall a: Br {:trigger p.(branches := p.branches[b := None], attrs := a)} ::
      WF(p.(branches := p.branches[b := None], attrs := a))
  {
  }

  /**
   * The only son of an interim node, taking over its own index: what
   * `erase` puts on the interim node's branch in its parent.
   */
  function Lift(c: Node<Br>): Node<Br>
    requires Ranged(c) && HasOnlySon(c.attrs)
  {
    var son := c.branches[c.attrs.first].value;
    son.(attrs := son.attrs.(own := c.attrs.own))
  }

  /**
   * Lifting the only son of an item-less child on branch `b` into its
   * place keeps the parent well formed, at its place, with its items and
   * with exact attributes.
   */
  lemma SpliceSound(p: Node<Br>, b: Nibble)
    requires WF(p) && AttrsOK(p) && p.branches[b].Some?
    requires p.branches[b].value.item.None? && Ranged(p.branches[b].value) && HasOnlySon(p.branches[b].value.attrs)
    ensures var p' := p.(branches := p.branches[b := Some(Lift(p.branches[b].value))]);
      WF(p') && SamePlace(p, p') && AttrsOK(p') && Bag(p') == Bag(p) && p'.attrs == p.attrs
  {
    var c := p.branches[b].value;
    var s := Lift(c);
    LiftSound(p, b);
    var p' := p.(branches := p.branches[b := Some(s)]);
    assert forall d: Nibble :: p'.branches[d].Some? ==> ChildOK(p', d, p'.branches[d].value) && WF(p'.branches[d].value);
    assert forall d :: 0 <= d < |p.branches| ==> BranchBag(p.branches[d]) == BranchBag(p'.branches[d]);
    BagSame(p, p');
    SetChildOK(p, b, s);
  }

  /**
   * The lifted son of the item-less child on branch `b` may hang on that
   * branch, is well formed, holds the child's items and keeps exact
   * attributes under the child's own index.
   */
  lemma LiftSound(p: Node<Br>, b: Nibble)
    requires WF(p) && AttrsOK(p) && p.branches[b].Some?
    requires p.branches[b].value.item.None? && Ranged(p.branches[b].value) && HasOnlySon(p.branches[b].value.attrs)
    ensures var c := p.branches[b].value; var s := Lift(c);
      ChildOK(p, b, s) && WF(s) && Bag(s) == Bag(c) && AttrsOK(s) && s.attrs.own == b
  {
    var c := p.branches[b].value;
    assert AttrsOK(c) && WF(c) && ChildOK(p, b, c);
    var f := c.attrs.first;
    RangeShape(c);
    var son := c.branches[f].value;
    var s := Lift(c);
    assert ChildOK(c, f, son) && WF(son) && AttrsOK(son);
    PrefixOfPrefix(QbitStr(c.key), QbitStr(son.key), p.qlen, c.qlen);
    SingleBagFrom(c, f, 0);
    AttrsBag(son, s.attrs);
    OwnOK(son, c.attrs.own);
  }

  /**
   * Giving an item-less node a key that spells its path (as `erase` does
   * with a descendant's key) keeps it well formed, at its place, with its
   * items and with exact attributes.
   */
  lemma SetKeySound(n: Node<Br>, key: Key)
    requires WF(n) && AttrsOK(n) && n.item.None? && n.qlen <= 2 * |key| && QbitStr(key)[..n.qlen] == Path(n)
    ensures var n' := n.(key := key);
      WF(n') && SamePlace(n, n') && AttrsOK(n') && Bag(n') == Bag(n)
  {
    var n' := n.(key := key);
    assert SamePlace(n, n');
    forall b: Nibble | n'.branches[b].Some?
      ensures ChildOK(n', b, n'.branches[b].value) && WF(n'.branches[b].value)
    {
      ParentPlace(n, n', b, n.branches[b].value);
    }
    BagFromSame(n, n', 0);
    SameShapeOK(n, n');
  }

  // ---------------------------------------------------------------------
  // The same steps on the whole tree

  /** Taking the item off the node at `at` takes exactly that item out of the tree. */
  lemma ClearItemAt(root: Node<Br>, at: seq<Nibble>)
    requires WF(root) && AttrsOK(root) && NodeAt(root, at).Some? && NodeAt(root, at).value.item.Some?
    ensures var n := NodeAt(root, at).value;
      var root' := Replace(root, at, n.(item := None));
      WF(root') && SamePlace(root, root') && AttrsOK(root') &&
      Bag(root') == Bag(root) - multiset{n.item.value} && NodeAt(root', at) == Some(n.(item := None))
  {
    var n := NodeAt(root, at).value;
    NodeAtWF(root, at);
    NodeAtOK(root, at);
    ClearItemSound(n);
    ReplaceRemoves(root, at, n.(item := None), multiset{n.item.value});
    ReplaceOK(root, at, n.(item := None));
  }

  /** The items after a replacement, when the new node holds the old one's items but `less`. */
  lemma ReplaceRemoves<A>(root: Node<A>, at: seq<Nibble>, s: Node<A>, less: multiset<Paths.KeyVal>)
    requires WF(root) && NodeAt(root, at).Some? && WF(s) && SamePlace(NodeAt(root, at).value, s)
    requires Bag(s) + less == Bag(NodeAt(root, at).value)
    ensures WF(Replace(root, at, s)) && SamePlace(root, Replace(root, at, s))
    ensures Bag(Replace(root, at, s)) == Bag(root) - less
    ensures NodeAt(Replace(root, at, s), at) == Some(s)
  {
    ReplaceSound(root, at, s);
    ReplaceReach(root, at, s, []);
    assert at + [] == at;
    var r := Bag(Replace(root, at, s));
    assert r + Bag(s) + less == Bag(root) + Bag(s);
    forall x ensures r[x] == (Bag(root) - less)[x] {
      assert (r + Bag(s) + less)[x] == (Bag(root) + Bag(s))[x];
    }
  }

  /**
   * Dropping the empty leaf at `at` from its parent (on the leaf's own
   * index) and tightening the parent's range keeps the tree's items.
   */
  lemma DropLeafAt(root: Node<Br>, at: seq<Nibble>)
    requires WF(root) && AttrsOK(root) && at != [] && NodeAt(root, at).Some?
    requires NodeAt(root, at).value.item.None? && IsLeaf(NodeAt(root, at).value.attrs)
    ensures NodeAt(root, at[..|at| - 1]).Some?
    ensures var n := NodeAt(root, at).value;
      var p := NodeAt(root, at[..|at| - 1]).value;
      |p.branches| == Fanout &&
      var root' := Replace(root, at[..|at| - 1], Unlinked(p, n.attrs.own));
      WF(root') && SamePlace(root, root') && AttrsOK(root') && Bag(root') == Bag(root) &&
      NodeAt(root', at[..|at| - 1]) == Some(Unlinked(p, n.attrs.own))
  {
    var n := NodeAt(root, at).value;
    var pa := at[..|at| - 1];
    var p := NodeAtParent(root, at);
    NodeAtWF(root, pa);
    NodeAtOK(root, at);
    NodeAtOK(root, pa);
    EmptyLeafBag(n);
    DropChildSound(p, n.attrs.own);
    ReplaceRemoves(root, pa, Unlinked(p, n.attrs.own), multiset{});
    ReplaceOK(root, pa, Unlinked(p, n.attrs.own));
  }

  /**
   * Putting the only son of the item-less node at `at` in its place (on
   * its parent's branch, with its own index) keeps the tree's items.
   */
  lemma SpliceAt(root: Node<Br>, at: seq<Nibble>)
    requires WF(root) && AttrsOK(root) && at != [] && NodeAt(root, at).Some?
    requires NodeAt(root, at).value.item.None? && HasOnlySon(NodeAt(root, at).value.attrs)
    ensures NodeAt(root, at[..|at| - 1]).Some?
    ensures var n := NodeAt(root, at).value;
      var p := NodeAt(root, at[..|at| - 1]).value;
      Ranged(n) && |p.branches| == Fanout &&
      var root' := Replace(root, at[..|at| - 1], p.(branches := p.branches[n.attrs.own := Some(Lift(n))]));
      WF(root') && SamePlace(root, root') && AttrsOK(root') && Bag(root') == Bag(root) &&
      NodeAt(root', at[..|at| - 1]).Some?
  {
    var n := NodeAt(root, at).value;
    var pa := at[..|at| - 1];
    var p := NodeAtParent(root, at);
    NodeAtWF(root, pa);
    NodeAtOK(root, at);
    NodeAtOK(root, pa);
    SpliceSound(p, n.attrs.own);
    var p' := p.(branches := p.branches[n.attrs.own := Some(Lift(n))]);
    ReplaceRemoves(root, pa, p', multiset{});
    ReplaceOK(root, pa, p');
  }

  /** `key` spells the path of node `n`. */
  predicate Spells(key: Key, n: Node<Br>)
  {
    n.qlen <= 2 * |key| && n.qlen <= 2 * |n.key| && QbitStr(key)[..n.qlen] == QbitStr(n.key)[..n.qlen]
  }

  /** Giving the item-less node at `at` a key that spells its path keeps the tree's items. */
  lemma SetKeyAt(root: Node<Br>, at: seq<Nibble>, key: Key)
    requires WF(root) && AttrsOK(root) && NodeAt(root, at).Some? && NodeAt(root, at).value.item.None?
    requires Spells(key, NodeAt(root, at).value)
    ensures var root' := Replace(root, at, NodeAt(root, at).value.(key := key));
      WF(root') && SamePlace(root, root') && AttrsOK(root') && Bag(root') == Bag(root)
  {
    var n := NodeAt(root, at).value;
    var n' := n.(key := key);
    NodeAtWF(root, at);
    NodeAtOK(root, at);
    SetKeySound(n, key);
    ReplaceRemoves(root, at, n', multiset{});
    ReplaceOK(root, at, n');
  }

  /**
   * A key that spells the path of a node below the root spells its
   * parent's too, also once the node has taken that key.
   */
  lemma SpellsParent(root: Node<Br>, at: seq<Nibble>, key: Key)
    requires WF(root) && at != [] && NodeAt(root, at).Some? && Spells(key, NodeAt(root, at).value)
    ensures NodeAt(root, at[..|at| - 1]).Some?
    ensures var root' := Replace(root, at, NodeAt(root, at).value.(key := key));
      NodeAt(root', at[..|at| - 1]).Some? &&
      var p := NodeAt(root', at[..|at| - 1]).value;
      p.item == NodeAt(root, at[..|at| - 1]).value.item && Spells(key, p)
  {
    var n := NodeAt(root, at).value;
    var n' := n.(key := key);
    var pa := at[..|at| - 1];
    var p := NodeAtParent(root, at);
    NodeAtWF(root, pa);
    NodeAtReplace(root, at, n', pa);
    assert pa < at;
    assert at[|pa|..] == [at[|at| - 1]];
    ReplaceAbove(p, [at[|at| - 1]], n');
    assert ChildOK(p, at[|at| - 1], n);
    PrefixOfPrefix(QbitStr(key), QbitStr(n.key), p.qlen, n.qlen);
  }
}
