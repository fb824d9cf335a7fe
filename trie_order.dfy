/**
 * The order in which the iterators visit the trie.  A node is named by the
 * path of branch indices that reaches it; `next()` walks the nodes in
 * pre-order, children by ascending index, which is the lexicographic order
 * `NibblesLess` on those paths.  This module states what "the next item
 * node after `at`" means, proves the facts the iterator loops need, and
 * proves that pre-order on item nodes is the order of their keys.
 *
 * A point `at + [b]` (with `b` up to 16, "past the last branch") marks how
 * far a walk has got: every node path below it in `NibblesLess` has been
 * passed.
 */
module TrieOrder {
  import opened Keys
  import opened Paths
  import opened TrieCore
  import opened TrieSearch

  /** The node at `p` exists and carries an item. */
  ghost predicate Holds<A>(root: Node<A>, p: seq<Nibble>)
  {
    NodeAt(root, p).Some? && NodeAt(root, p).value.item.Some?
  }

  /** No item node lies strictly after `at0` and before the point `v`. */
  ghost predicate Gap<A>(root: Node<A>, at0: seq<Nibble>, v: seq<int>)
  {
    forall p: seq<Nibble> :: Holds(root, p) && NibblesLess(at0, p) ==> !NibblesLess(p, v)
  }

  /**
   * `r` is the item node that follows `at0` in pre-order: the least item
   * node after it, or None when there is none.
   */
  ghost predicate NextAfter<A>(root: Node<A>, at0: seq<Nibble>, r: Option<seq<Nibble>>)
  {
    (r.Some? ==> (Holds(root, r.value) && NibblesLess(at0, r.value) &&
      forall p: seq<Nibble> :: Holds(root, p) && NibblesLess(at0, p) ==> !NibblesLess(p, r.value))) &&
    (r.None? ==> forall p: seq<Nibble> :: Holds(root, p) ==> !NibblesLess(at0, p))
  }

  /**
   * `r` is the item node with the least key above `k0` among the items of
   * the tree, or None when no item has a key above `k0`.
   */
  ghost predicate KeyAfter<A>(root: Node<A>, k0: Key, r: Option<seq<Nibble>>)
  {
    (r.Some? ==> (Holds(root, r.value) && KeyLess(k0, NodeAt(root, r.value).value.item.value.key) &&
      forall x | x in Bag(root) && KeyLess(k0, x.key) :: !KeyLess(x.key, NodeAt(root, r.value).value.item.value.key))) &&
    (r.None? ==> forall x | x in Bag(root) :: !KeyLess(k0, x.key))
  }

  /** `r` is the first item node in pre-order, or None when the trie has no item. */
  ghost predicate FirstItem<A>(root: Node<A>, r: Option<seq<Nibble>>)
  {
    (r.Some? ==> Holds(root, r.value) && forall p: seq<Nibble> :: Holds(root, p) ==> !NibblesLess(p, r.value)) &&
    (r.None? ==> forall p :: !Holds(root, p))
  }

  /** The point `s + [b]`, as a digit string (`b` may be 16). */
  function Pt(s: seq<int>, b: int): (v: seq<int>)
    ensures |v| == |s| + 1 && v[..|s|] == s && v[|s|] == b
  {
    s + [b]
  }

  // ---------------------------------------------------------------------
  // Facts about the order of digit strings

  /** Where two strings in order part: one is a strict prefix of the other, or they differ at `m`. */
  lemma {:induction false} LessWitness(a: seq<int>, b: seq<int>) returns (m: nat)
    requires NibblesLess(a, b)
    ensures m <= |a| && m <= |b| && a[..m] == b[..m]
    ensures (m == |a| && m < |b|) || (m < |a| && m < |b| && a[m] < b[m])
  {
    if a == [] {
      m := 0;
    } else if a[0] < b[0] {
      m := 0;
    } else {
      var m' := LessWitness(a[1..], b[1..]);
      m := m' + 1;
      assert a[..m] == [a[0]] + a[1..][..m'];
      assert b[..m] == [b[0]] + b[1..][..m'];
    }
  }

  /** Strings that agree below `m` and differ at `m` are ordered by that digit. */
  lemma {:induction false} DiffIsLess(a: seq<int>, b: seq<int>, m: nat)
    requires m < |a| && m < |b| && a[..m] == b[..m] && a[m] < b[m]
    ensures NibblesLess(a, b)
  {
    if m > 0 {
      assert a[0] == a[..m][0] && b[0] == b[..m][0];
      assert a[1..][..m - 1] == a[..m][1..] && b[1..][..m - 1] == b[..m][1..];
      DiffIsLess(a[1..], b[1..], m - 1);
    }
  }

  /** The point just below `s` comes after `s`. */
  lemma ExtLess(s: seq<int>, x: int)
    ensures NibblesLess(s, Pt(s, x))
  {
    PrefixIsLess(s, Pt(s, x));
  }

  /** Siblings are ordered by their last digit. */
  lemma SibLess(s: seq<int>, x: int, y: int)
    requires x < y
    ensures NibblesLess(Pt(s, x), Pt(s, y))
  {
    DiffIsLess(Pt(s, x), Pt(s, y), |s|);
  }

  /** NibblesLess is asymmetric. */
  lemma Asymmetric(a: seq<int>, b: seq<int>)
    requires NibblesLess(a, b)
    ensures !NibblesLess(b, a)
  {
    if NibblesLess(b, a) {
      NibblesLessTransitive(a, b, a);
      NibblesLessIrreflexive(a);
    }
  }

  /** Before `s + [0]` lie only `s`'s prefixes and what precedes `s`. */
  lemma BelowFirst(p: seq<Nibble>, s: seq<int>)
    requires NibblesLess(p, Pt(s, 0))
    ensures !NibblesLess(s, p)
  {
    var m := LessWitness(p, Pt(s, 0));
    if m < |p| && m == |s| {
      assert false;
    } else if m < |s| && m < |p| {
      assert p[..m] == s[..m] by {
        assert Pt(s, 0)[..m] == Pt(s, 0)[..|s|][..m];
      }
      DiffIsLess(p, s, m);
      Asymmetric(p, s);
    } else if m == |p| {
      assert p == s[..|p|] by {
        assert Pt(s, 0)[..m] == Pt(s, 0)[..|s|][..m];
      }
      if |p| < |s| {
        PrefixIsLess(p, s);
        Asymmetric(p, s);
      } else {
        assert p == s;
        NibblesLessIrreflexive(s);
      }
    }
  }

  /** Before `s + [b, 0]` lie only `s + [b]` and what precedes it. */
  lemma VisitDown(p: seq<Nibble>, s: seq<int>)
    requires NibblesLess(p, Pt(s, 0))
    ensures NibblesLess(p, s) || p == s
  {
    var v := Pt(s, 0);
    var m := LessWitness(p, v);
    if m == |p| {
      if m < |s| {
        assert p == s[..m] by {
          assert v[..m] == v[..|s|][..m];
        }
        PrefixIsLess(p, s);
      }
    } else if m < |s| {
      assert p[..m] == s[..m] by {
        assert v[..m] == v[..|s|][..m];
      }
      DiffIsLess(p, s, m);
    }
  }

  /** Before `s + [b + 1]` lie `s + [b]`, what precedes it, and what it prefixes. */
  lemma VisitNext(p: seq<int>, s: seq<int>, b: int)
    requires NibblesLess(p, Pt(s, b + 1))
    ensures NibblesLess(p, Pt(s, b)) || (|s| < |p| && p[..|s| + 1] == Pt(s, b))
  {
    var u := Pt(s, b);
    var v := Pt(s, b + 1);
    var m := LessWitness(p, v);
    if m == |p| || m < |s| || p[m] < b {
      assert u[..m] == v[..m] by {
        assert u[..m] == u[..|s|][..m] && v[..m] == v[..|s|][..m];
      }
      if m == |p| {
        PrefixIsLess(p, u);
      } else {
        DiffIsLess(p, u, m);
      }
    } else {
      assert p[..m + 1] == p[..m] + [p[m]];
    }
  }

  /** Before the point after `pa + [last]` lies nothing that is not before `pa + [last, 16]`. */
  lemma VisitUp(p: seq<Nibble>, pa: seq<int>, last: int)
    requires NibblesLess(p, Pt(pa, last + 1))
    ensures NibblesLess(p, Pt(Pt(pa, last), 16))
  {
    var s := Pt(pa, last);
    VisitNext(p, pa, last);
    ExtLess(s, 16);
    if NibblesLess(p, s) {
      NibblesLessTransitive(p, s, Pt(s, 16));
    } else if |p| == |s| {
      assert p == s;
    } else {
      assert p[..|s|] == s;
      DiffIsLess(p, Pt(s, 16), |s|);
    }
  }

  /** Every node path lies before `[16]`. */
  lemma VisitAll(p: seq<Nibble>)
    ensures NibblesLess(p, [16])
  {
  }

  // ---------------------------------------------------------------------
  // What a walk keeps: no item node skipped

  /** At the start, nothing lies between `at0` and `at0 + [0]`. */
  lemma GapStart<A>(root: Node<A>, at0: seq<Nibble>)
    ensures Gap(root, at0, Pt(at0, 0)) && NibblesLess(at0, Pt(at0, 0))
  {
    ExtLess(at0, 0);
    forall p: seq<Nibble> | Holds(root, p) && NibblesLess(at0, p)
      ensures !NibblesLess(p, Pt(at0, 0))
    {
      if NibblesLess(p, Pt(at0, 0)) {
        BelowFirst(p, at0);
      }
    }
  }

  /** Entering the node at `c`, which has no item, passes nothing else. */
  lemma GapDown<A>(root: Node<A>, at0: seq<Nibble>, c: seq<Nibble>)
    requires Gap(root, at0, c) && !Holds(root, c) && NibblesLess(at0, c)
    ensures Gap(root, at0, Pt(c, 0)) && NibblesLess(at0, Pt(c, 0))
  {
    ExtLess(c, 0);
    NibblesLessTransitive(at0, c, Pt(c, 0));
    forall p: seq<Nibble> | Holds(root, p) && NibblesLess(at0, p)
      ensures !NibblesLess(p, Pt(c, 0))
    {
      if NibblesLess(p, Pt(c, 0)) {
        VisitDown(p, c);
      }
    }
  }

  /** Stepping over the empty branch `b` of the node at `s` passes nothing. */
  lemma GapOver<A>(root: Node<A>, at0: seq<Nibble>, s: seq<Nibble>, b: Nibble)
    requires Gap(root, at0, Pt(s, b)) && NodeAt(root, s + [b]).None? && NibblesLess(at0, Pt(s, b))
    ensures Gap(root, at0, Pt(s, b + 1)) && NibblesLess(at0, Pt(s, b + 1))
  {
    SibLess(s, b, b + 1);
    NibblesLessTransitive(at0, Pt(s, b), Pt(s, b + 1));
    forall p: seq<Nibble> | Holds(root, p) && NibblesLess(at0, p)
      ensures !NibblesLess(p, Pt(s, b + 1))
    {
      if NibblesLess(p, Pt(s, b + 1)) {
        VisitNext(p, s, b);
        if !NibblesLess(p, Pt(s, b)) {
          assert s + [b] <= p;
          NodeAtTail(root, s + [b], p);
        }
      }
    }
  }

  /** Leaving the node `pa + [last]` after its last branch passes nothing. */
  lemma GapUp<A>(root: Node<A>, at0: seq<Nibble>, pa: seq<Nibble>, last: Nibble)
    requires Gap(root, at0, Pt(Pt(pa, last), 16)) && NibblesLess(at0, Pt(Pt(pa, last), 16))
    ensures Gap(root, at0, Pt(pa, last + 1)) && NibblesLess(at0, Pt(pa, last + 1))
  {
    DiffIsLess(Pt(Pt(pa, last), 16), Pt(pa, last + 1), |pa|);
    NibblesLessTransitive(at0, Pt(Pt(pa, last), 16), Pt(pa, last + 1));
    forall p: seq<Nibble> | Holds(root, p) && NibblesLess(at0, p)
      ensures !NibblesLess(p, Pt(pa, last + 1))
    {
      if NibblesLess(p, Pt(pa, last + 1)) {
        VisitUp(p, pa, last);
      }
    }
  }

  /** Having left the root after its last branch, no item node follows `at0`. */
  lemma GapEnd<A>(root: Node<A>, at0: seq<Nibble>)
    requires Gap(root, at0, Pt([], 16))
    ensures NextAfter(root, at0, None)
  {
    forall p: seq<Nibble> | Holds(root, p)
      ensures !NibblesLess(at0, p)
    {
      VisitAll(p);
    }
  }

  // ---------------------------------------------------------------------
  // Why a walk ends: it moves forward over finitely many points

  /** The paths of all nodes of a tree. */
  ghost function AllPaths<A>(n: Node<A>): set<seq<Nibble>>
    decreases n
  {
    {[]} + (set b: Nibble, p | b < |n.branches| && n.branches[b].Some? && p in AllPaths(n.branches[b].value) :: [b] + p)
  }

  /** Every node reached by a path is among them. */
  lemma {:induction false} InAllPaths<A>(n: Node<A>, at: seq<Nibble>)
    requires NodeAt(n, at).Some?
    ensures at in AllPaths(n)
    decreases |at|
  {
    if at != [] {
      InAllPaths(n.branches[at[0]].value, at[1..]);
      assert [at[0]] + at[1..] == at;
    }
  }

  /** The points a walk can be at: a node path followed by a branch index or 16. */
  ghost function Points<A>(root: Node<A>): set<seq<int>>
  {
    set p, b | p in AllPaths(root) && 0 <= b <= 16 :: Pt(p, b)
  }

  /** The points after `v`. */
  ghost function Ahead<A>(root: Node<A>, v: seq<int>): set<seq<int>>
  {
    set w | w in Points(root) && NibblesLess(v, w)
  }

  /** The point `at + [b]` of a reached node. */
  lemma IsPoint<A>(root: Node<A>, at: seq<Nibble>, b: int)
    requires NodeAt(root, at).Some? && 0 <= b <= 16
    ensures Pt(at, b) in Points(root)
  {
    InAllPaths(root, at);
  }

  /** Moving forward to a point leaves fewer points ahead. */
  lemma Advance<A>(root: Node<A>, v: seq<int>, v': seq<int>)
    requires v' in Points(root) && NibblesLess(v, v')
    ensures |Ahead(root, v')| < |Ahead(root, v)|
  {
    var a := Ahead(root, v);
    var a' := Ahead(root, v');
    forall w | w in a' ensures w in a {
      NibblesLessTransitive(v, v', w);
    }
    NibblesLessIrreflexive(v');
    assert v' in a - a';
    var d := a - a';
    assert a == a' + d;
    assert a' * d == {};
  }

  // ---------------------------------------------------------------------
  // The steps of a walk

  /**
   * Entering the child on branch `br` of the node at `at`: if it carries an
   * item it is the next item node; otherwise the walk goes on at its first
   * branch, having moved forward.
   */
  lemma WalkInto<A>(root: Node<A>, at0: seq<Nibble>, at: seq<Nibble>, br: Nibble)
    requires WF(root) && NodeAt(root, at).Some? && br < |NodeAt(root, at).value.branches|
    requires NodeAt(root, at).value.branches[br].Some?
    requires Gap(root, at0, Pt(at, br)) && NibblesLess(at0, Pt(at, br))
    ensures NodeAt(root, at + [br]) == NodeAt(root, at).value.branches[br]
    ensures Holds(root, at + [br]) ==> NextAfter(root, at0, Some(at + [br]))
    ensures !Holds(root, at + [br]) ==>
      Gap(root, at0, Pt(at + [br], 0)) && NibblesLess(at0, Pt(at + [br], 0)) &&
      |Ahead(root, Pt(at + [br], 0))| < |Ahead(root, Pt(at, br))|
  {
    NodeAtWF(root, at);
    NodeAtExtend(root, at, br);
    var c := at + [br];
    if !Holds(root, c) {
      GapDown(root, at0, c);
      ExtLess(c, 0);
      IsPoint(root, c, 0);
      Advance(root, Pt(at, br), Pt(c, 0));
    }
  }

  /** Stepping over the empty branch `br` of the node at `at` moves forward and skips no item. */
  lemma WalkOver<A>(root: Node<A>, at0: seq<Nibble>, at: seq<Nibble>, br: Nibble)
    requires WF(root) && NodeAt(root, at).Some? && br < |NodeAt(root, at).value.branches|
    requires NodeAt(root, at).value.branches[br].None?
    requires Gap(root, at0, Pt(at, br)) && NibblesLess(at0, Pt(at, br))
    ensures Gap(root, at0, Pt(at, br + 1)) && NibblesLess(at0, Pt(at, br + 1))
    ensures |Ahead(root, Pt(at, br + 1))| < |Ahead(root, Pt(at, br))|
  {
    NodeAtWF(root, at);
    NodeAtExtend(root, at, br);
    GapOver(root, at0, at, br);
    SibLess(at, br, br + 1);
    IsPoint(root, at, br + 1);
    Advance(root, Pt(at, br), Pt(at, br + 1));
  }

  /**
   * Leaving the node at `at` (not the root) after its last branch: its
   * parent is reached by `at` without its last index, which is the digit of
   * the node's key at the parent's path length; the walk goes on at the
   * parent's next branch, having moved forward.
   */
  lemma WalkUp<A>(root: Node<A>, at0: seq<Nibble>, at: seq<Nibble>)
    requires WF(root) && NodeAt(root, at).Some? && at != []
    requires Gap(root, at0, Pt(at, 16)) && NibblesLess(at0, Pt(at, 16))
    ensures NodeAt(root, at[..|at| - 1]).Some?
    ensures var p := NodeAt(root, at[..|at| - 1]).value;
      var key := NodeAt(root, at).value.key;
      p.qlen < 2 * |key| && QbitStr(key)[p.qlen] == at[|at| - 1]
    ensures var pa := at[..|at| - 1]; var next: int := at[|at| - 1] as int + 1;
      Gap(root, at0, Pt(pa, next)) && NibblesLess(at0, Pt(pa, next)) &&
      |Ahead(root, Pt(pa, next))| < |Ahead(root, Pt(at, 16))|
  {
    WalkUpParent(root, at);
    var pa := at[..|at| - 1];
    var last := at[|at| - 1];
    assert at == pa + [last];
    WalkUpGap(root, at0, pa, last);
  }

  /** `WalkUp` on the nodes: the parent and the key digit that leads back to the child. */
  lemma WalkUpParent<A>(root: Node<A>, at: seq<Nibble>)
    requires WF(root) && NodeAt(root, at).Some? && at != []
    ensures NodeAt(root, at[..|at| - 1]).Some?
    ensures var p := NodeAt(root, at[..|at| - 1]).value;
      var key := NodeAt(root, at).value.key;
      p.qlen < 2 * |key| && QbitStr(key)[p.qlen] == at[|at| - 1]
  {
    var p := NodeAtParent(root, at);
    NodeAtWF(root, at[..|at| - 1]);
    assert ChildOK(p, at[|at| - 1], NodeAt(root, at).value);
  }

  /** `WalkUp` on the points: leaving the child on branch `last` of the node at `pa`. */
  lemma WalkUpGap<A>(root: Node<A>, at0: seq<Nibble>, pa: seq<Nibble>, last: Nibble)
    requires NodeAt(root, pa).Some?
    requires Gap(root, at0, Pt(pa + [last], 16)) && NibblesLess(at0, Pt(pa + [last], 16))
    ensures Gap(root, at0, Pt(pa, last + 1)) && NibblesLess(at0, Pt(pa, last + 1))
    ensures |Ahead(root, Pt(pa, last + 1))| < |Ahead(root, Pt(pa + [last], 16))|
  {
    assert Pt(pa + [last], 16) == Pt(Pt(pa, last), 16);
    GapUp(root, at0, pa, last);
    DiffIsLess(Pt(Pt(pa, last), 16), Pt(pa, last + 1), |pa|);
    IsPoint(root, pa, last + 1);
    Advance(root, Pt(pa + [last], 16), Pt(pa, last + 1));
  }

  /** Stepping over a run of empty branches `b` up to (not including) `b'`. */
  lemma {:induction false} WalkSkip<A>(root: Node<A>, at0: seq<Nibble>, at: seq<Nibble>, b: int, b': int)
    requires WF(root) && NodeAt(root, at).Some? && 0 <= b <= b' <= 16 && |NodeAt(root, at).value.branches| == 16
    requires forall x: Nibble :: b <= x < b' ==> NodeAt(root, at).value.branches[x].None?
    requires Gap(root, at0, Pt(at, b)) && NibblesLess(at0, Pt(at, b))
    ensures Gap(root, at0, Pt(at, b')) && NibblesLess(at0, Pt(at, b'))
    ensures |Ahead(root, Pt(at, b'))| <= |Ahead(root, Pt(at, b))|
    decreases b' - b
  {
    if b < b' {
      NodeAtWF(root, at);
      WalkOver(root, at0, at, b);
      WalkSkip(root, at0, at, b + 1, b');
    }
  }

  /** The first item node is the root when it has an item, else the item node after it. */
  lemma FirstFromRoot<A>(root: Node<A>, r: Option<seq<Nibble>>)
    requires Holds(root, []) ==> r == Some([])
    requires !Holds(root, []) ==> NextAfter(root, [], r)
    ensures FirstItem(root, r)
  {
    forall p: seq<Nibble> | Holds(root, p)
      ensures p != [] ==> NibblesLess([], p)
    {
    }
  }

  // ---------------------------------------------------------------------
  // Pre-order is key order

  /** Pre-order on the nodes of a well-formed tree is the order of their paths. */
  lemma {:induction false} PathOrder<A>(n: Node<A>, p1: seq<Nibble>, p2: seq<Nibble>)
    requires WF(n) && NodeAt(n, p1).Some? && NodeAt(n, p2).Some? && NibblesLess(p1, p2)
    ensures NodeAt(n, p1).value.qlen <= 2 * |NodeAt(n, p1).value.key|
    ensures NodeAt(n, p2).value.qlen <= 2 * |NodeAt(n, p2).value.key|
    ensures NibblesLess(Path(NodeAt(n, p1).value), Path(NodeAt(n, p2).value))
    decreases |p1|
  {
    NodeAtWF(n, p1);
    NodeAtWF(n, p2);
    if p1 == [] {
      PathBelow(n, p2);
    } else if p1[0] == p2[0] {
      PathOrder(n.branches[p1[0]].value, p1[1..], p2[1..]);
    } else {
      PathApart(n, p1, p2);
    }
  }

  /** A node below another has a longer path that the upper one's prefixes. */
  lemma PathBelow<A>(n: Node<A>, p: seq<Nibble>)
    requires WF(n) && NodeAt(n, p).Some? && p != []
    ensures NodeAt(n, p).value.qlen <= 2 * |NodeAt(n, p).value.key|
    ensures NibblesLess(Path(n), Path(NodeAt(n, p).value))
  {
    NodeAtPath(n, p);
    var m := NodeAt(n, p).value;
    assert Path(n) == Path(m)[..|Path(n)|];
    PrefixIsLess(Path(n), Path(m));
  }

  /** Nodes below different branches of `n` are ordered by those branches. */
  lemma PathApart<A>(n: Node<A>, p1: seq<Nibble>, p2: seq<Nibble>)
    requires WF(n) && NodeAt(n, p1).Some? && NodeAt(n, p2).Some? && p1 != [] && p2 != [] && p1[0] < p2[0]
    ensures NodeAt(n, p1).value.qlen <= 2 * |NodeAt(n, p1).value.key|
    ensures NodeAt(n, p2).value.qlen <= 2 * |NodeAt(n, p2).value.key|
    ensures NibblesLess(Path(NodeAt(n, p1).value), Path(NodeAt(n, p2).value))
  {
    NodeAtPath(n, p1);
    NodeAtPath(n, p2);
    var m1 := NodeAt(n, p1).value;
    var m2 := NodeAt(n, p2).value;
    ApartDigits(Path(n), QbitStr(m1.key), QbitStr(m2.key), m1.qlen, m2.qlen);
  }

  /** Strings with a common prefix `c` and different digits just after it are ordered by those digits. */
  lemma ApartDigits(c: seq<Nibble>, a: seq<Nibble>, b: seq<Nibble>, i: nat, j: nat)
    requires |c| < i <= |a| && |c| < j <= |b| && a[..|c|] == c && b[..|c|] == c && a[|c|] < b[|c|]
    ensures NibblesLess(a[..i], b[..j])
  {
    assert a[..i][..|c|] == c && b[..j][..|c|] == c;
    DiffIsLess(a[..i], b[..j], |c|);
  }

  /** The path of a node carrying an item spells the item's key. */
  lemma ItemPath<A>(root: Node<A>, p: seq<Nibble>)
    requires WF(root) && Holds(root, p)
    ensures NodeAt(root, p).value.qlen <= 2 * |NodeAt(root, p).value.key|
    ensures Path(NodeAt(root, p).value) == QbitStr(NodeAt(root, p).value.item.value.key)
  {
    NodeAtWF(root, p);
  }

  /** Items are visited in key order: pre-order on item nodes is the order of their keys, both ways. */
  lemma PreorderIsKeyOrder<A>(root: Node<A>, p1: seq<Nibble>, p2: seq<Nibble>)
    requires WF(root) && Holds(root, p1) && Holds(root, p2)
    ensures NibblesLess(p1, p2) <==>
      KeyLess(NodeAt(root, p1).value.item.value.key, NodeAt(root, p2).value.item.value.key)
  {
    var k1 := NodeAt(root, p1).value.item.value.key;
    var k2 := NodeAt(root, p2).value.item.value.key;
    ItemPath(root, p1);
    ItemPath(root, p2);
    QbitStrPreservesOrder(k1, k2);
    QbitStrPreservesOrder(k2, k1);
    if NibblesLess(p1, p2) {
      PathOrder(root, p1, p2);
    } else if p1 == p2 {
      KeyLessStrictTotal(k1, k2, k1);
    } else {
      NibblesLessTotal(p1, p2);
      PathOrder(root, p2, p1);
      KeyLessStrictTotal(k1, k2, k1);
    }
  }

  /**
   * The item node after `at0` (itself an item node) carries the least key
   * above `at0`'s among all the items of the tree; with none after it, no
   * item has a greater key.
   */
  lemma NextIsNextKey<A>(root: Node<A>, at0: seq<Nibble>, r: Option<seq<Nibble>>)
    requires WF(root) && Holds(root, at0) && NextAfter(root, at0, r)
    ensures KeyAfter(root, NodeAt(root, at0).value.item.value.key, r)
  {
    var k0 := NodeAt(root, at0).value.item.value.key;
    if r.Some? {
      PreorderIsKeyOrder(root, at0, r.value);
    }
    forall x | x in Bag(root)
      ensures r.Some? && KeyLess(k0, x.key) ==> !KeyLess(x.key, NodeAt(root, r.value).value.item.value.key)
      ensures r.None? ==> !KeyLess(k0, x.key)
    {
      var p := ItemAt(root, x);
      PreorderIsKeyOrder(root, at0, p);
      if r.Some? {
        PreorderIsKeyOrder(root, p, r.value);
      }
    }
  }
}
