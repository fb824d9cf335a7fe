/**
 * The node structure both revisions of the trie container share
 * (libtrie++/trie.hxx and libtriexx/trie.hxx): a 16-ary tree indexed by key
 * nibbles, where every node records the quad-bit (nibble) length `qlen` of
 * its path and a key that begins with that path, so a chain of single-child
 * nodes is condensed into one edge.
 *
 * Nodes are values here.  A C++ node pointer becomes the path of branch
 * indices from the root to the node (`at`), and a node's parent pointer is
 * that path minus its last index.  The attributes `A` are what a revision
 * stores besides the C++ fields both revisions have: nothing for libtrie++,
 * the packed branch attributes for libtriexx.
 */
module TrieCore {
  import opened Keys
  import opened Paths

  /** Branches per node: one per nibble value (`1 << 4`). */
  const Fanout: nat := 16

  /**
   * A trie node: the item it carries (the `item` iterator, `None` for
   * `m_items.end()`), the key its path is read from, the nibble length of
   * its path, the 16 branches and the revision's attributes.
   */
  datatype Node<A> = Node(item: Option<KeyVal>, key: Key, qlen: nat, branches: seq<Option<Node<A>>>, attrs: A)

  /** A node with no branch set. */
  function NoBranches<A>(): (bs: seq<Option<Node<A>>>)
    ensures |bs| == Fanout
    ensures forall b :: 0 <= b < Fanout ==> bs[b] == None
  {
    seq(Fanout, _ => None)
  }

  /**
   * `get_qpos(key, qpos)`: the high nibble of byte `qpos / 2` for even
   * `qpos`, its low nibble for odd `qpos`; that is, digit `qpos` of the
   * key's nibble string.
   */
  function GetQpos(key: Key, qpos: nat): (n: Nibble)
    requires qpos < 2 * |key|
    ensures n == QbitStr(key)[qpos]
    ensures qpos % 2 == 0 ==> n == High(key[qpos / 2])
    ensures qpos % 2 == 1 ==> n == Low(key[qpos / 2])
  {
    var byte := key[qpos / 2];
    if qpos % 2 == 1 then Low(byte) else High(byte)
  }

  /** The nibble path from the root to a node: the first `qlen` digits of its key. */
  function Path<A>(n: Node<A>): seq<Nibble>
    requires n.qlen <= 2 * |n.key|
  {
    QbitStr(n.key)[..n.qlen]
  }

  /**
   * `c` may hang at branch `b` of `n`: its path is longer, extends the path
   * of `n`, and continues with the digit `b`.
   */
  predicate ChildOK<A>(n: Node<A>, b: Nibble, c: Node<A>)
  {
    n.qlen <= 2 * |n.key| && n.qlen < c.qlen <= 2 * |c.key| &&
    QbitStr(c.key)[..n.qlen] == QbitStr(n.key)[..n.qlen] && QbitStr(c.key)[n.qlen] == b
  }

  /**
   * The structural invariant of a (sub-)tree: 16 branches per node, a key
   * long enough for the path, an item only where the path spells the whole
   * item key, and every child placed by `ChildOK`.
   */
  predicate WF<A>(n: Node<A>)
    decreases n
  {
    |n.branches| == Fanout && n.qlen <= 2 * |n.key| &&
    (n.item.Some? ==> n.item.value.key == n.key && n.qlen == 2 * |n.key|) &&
    forall b: Nibble :: n.branches[b].Some? ==> ChildOK(n, b, n.branches[b].value) && WF(n.branches[b].value)
  }

  /** The node a branch-index path leads to, if any. */
  function NodeAt<A>(n: Node<A>, at: seq<Nibble>): Option<Node<A>>
    decreases |at|
  {
    if at == [] then Some(n)
    else if at[0] < |n.branches| && n.branches[at[0]].Some? then NodeAt(n.branches[at[0]].value, at[1..])
    else None
  }

  /** The tree with the node at `at` replaced by `s` (unchanged if `at` leads nowhere). */
  function Replace<A>(n: Node<A>, at: seq<Nibble>, s: Node<A>): Node<A>
    decreases |at|
  {
    if at == [] then s
    else if at[0] < |n.branches| && n.branches[at[0]].Some? then
      n.(branches := n.branches[at[0] := Some(Replace(n.branches[at[0]].value, at[1..], s))])
    else n
  }

  /** The items of a (sub-)tree, as a multiset. */
  function Bag<A>(n: Node<A>): multiset<KeyVal>
    decreases n, 1
  {
    (if n.item.Some? then multiset{n.item.value} else multiset{}) + BagFrom(n, 0)
  }

  /** The items under branches `b` and above. */
  function BagFrom<A>(n: Node<A>, b: nat): multiset<KeyVal>
    decreases n, 0, |n.branches| - b
  {
    if b >= |n.branches| then multiset{}
    else (if n.branches[b].Some? then Bag(n.branches[b].value) else multiset{}) + BagFrom(n, b + 1)
  }

  /** At least two branches of the node are set. */
  predicate Forks<A>(n: Node<A>)
  {
    exists b1: nat, b2: nat :: b1 < b2 < |n.branches| && n.branches[b1].Some? && n.branches[b2].Some?
  }

  /** Two nodes sit at the same place: same path length, same path. */
  predicate SamePlace<A>(a: Node<A>, b: Node<A>)
  {
    a.qlen == b.qlen && a.qlen <= 2 * |a.key| && b.qlen <= 2 * |b.key| &&
    QbitStr(a.key)[..a.qlen] == QbitStr(b.key)[..b.qlen]
  }

  /** Whether the trie holds an item with key `k`. */
  ghost predicate Has<A>(root: Node<A>, k: Key)
  {
    exists x :: x in Bag(root) && x.key == k
  }

  // ---------------------------------------------------------------------
  // Paths through the tree

  /** A node reached from a well-formed tree is well formed. */
  lemma {:induction false} NodeAtWF<A>(n: Node<A>, at: seq<Nibble>)
    requires WF(n) && NodeAt(n, at).Some?
    ensures WF(NodeAt(n, at).value)
    decreases |at|
  {
    if at != [] {
      NodeAtWF(n.branches[at[0]].value, at[1..]);
    }
  }

  /** A tree with a badly formed node is itself badly formed. */
  lemma NodeAtWFIf<A>(n: Node<A>, at: seq<Nibble>)
    requires NodeAt(n, at).Some?
    ensures WF(n) ==> WF(NodeAt(n, at).value)
  {
    if WF(n) {
      NodeAtWF(n, at);
    }
  }

  /** Following one more branch from a reached node. */
  lemma {:induction false} NodeAtExtend<A>(n: Node<A>, at: seq<Nibble>, b: Nibble)
    requires NodeAt(n, at).Some? && b < |NodeAt(n, at).value.branches|
    ensures NodeAt(n, at + [b]) == NodeAt(n, at).value.branches[b]
    decreases |at|
  {
    if at == [] {
      assert ([] + [b])[1..] == [];
    } else {
      assert (at + [b])[1..] == at[1..] + [b];
      NodeAtExtend(n.branches[at[0]].value, at[1..], b);
    }
  }

  /** The parent of a reached node is reached by the path minus its last index. */
  lemma {:induction false} NodeAtParent<A>(n: Node<A>, at: seq<Nibble>) returns (p: Node<A>)
    requires at != [] && NodeAt(n, at).Some?
    ensures NodeAt(n, at[..|at| - 1]) == Some(p)
    ensures at[|at| - 1] < |p.branches| && p.branches[at[|at| - 1]] == NodeAt(n, at)
    decreases |at|
  {
    if |at| == 1 {
      p := n;
    } else {
      p := NodeAtParent(n.branches[at[0]].value, at[1..]);
      assert at[..|at| - 1][1..] == at[1..][..|at| - 2];
    }
  }

  /** The items below a reached node are items of the tree. */
  lemma {:induction false} NodeAtBag<A>(n: Node<A>, at: seq<Nibble>)
    requires NodeAt(n, at).Some?
    ensures Bag(NodeAt(n, at).value) <= Bag(n)
    decreases |at|
  {
    if at != [] {
      NodeAtBag(n.branches[at[0]].value, at[1..]);
      BagFromHas(n, at[0], 0);
    }
  }

  /** A child's items are among the items under branches `j` and above, `j <= b`. */
  lemma {:induction false} BagFromHas<A>(n: Node<A>, b: nat, j: nat)
    requires j <= b < |n.branches| && n.branches[b].Some?
    ensures Bag(n.branches[b].value) <= BagFrom(n, j)
    decreases b - j
  {
    if j < b {
      BagFromHas(n, b, j + 1);
    }
  }

  /** An item under branches `j` and above sits under one particular branch. */
  lemma {:induction false} BagFromMember<A>(n: Node<A>, j: nat, x: KeyVal) returns (b: nat)
    requires x in BagFrom(n, j)
    ensures j <= b < |n.branches| && n.branches[b].Some? && x in Bag(n.branches[b].value)
    decreases |n.branches| - j
  {
    if n.branches[j].Some? && x in Bag(n.branches[j].value) {
      b := j;
    } else {
      b := BagFromMember(n, j + 1, x);
    }
  }

  // ---------------------------------------------------------------------
  // Replacing a node

  /** Replacing a child by one at the same place keeps the child placed. */
  lemma ChildPlace<A>(n: Node<A>, b: Nibble, c: Node<A>, c': Node<A>)
    requires ChildOK(n, b, c) && SamePlace(c, c')
    ensures ChildOK(n, b, c')
  {
    var pc, pc' := QbitStr(c.key)[..c.qlen], QbitStr(c'.key)[..c'.qlen];
    assert QbitStr(c'.key)[..n.qlen] == pc'[..n.qlen];
    assert QbitStr(c.key)[..n.qlen] == pc[..n.qlen];
    assert QbitStr(c'.key)[n.qlen] == pc'[n.qlen];
    assert QbitStr(c.key)[n.qlen] == pc[n.qlen];
  }

  /** The items under branches `j..` after one branch is replaced. */
  lemma {:induction false} BagFromUpdate<A>(n: Node<A>, k: nat, c': Node<A>, j: nat)
    requires k < |n.branches| && n.branches[k].Some?
    ensures j <= k ==>
      BagFrom(n.(branches := n.branches[k := Some(c')]), j) + Bag(n.branches[k].value) == BagFrom(n, j) + Bag(c')
    ensures k < j ==> BagFrom(n.(branches := n.branches[k := Some(c')]), j) == BagFrom(n, j)
    decreases |n.branches| - j
  {
    if j < |n.branches| {
      BagFromUpdate(n, k, c', j + 1);
      if j == k {
        BagFromUpdateAt(n, k, c');
      } else {
        BagFromUpdateOther(n, k, c', j);
      }
    }
  }

  /** `BagFromUpdate` at the replaced branch itself. */
  lemma BagFromUpdateAt<A>(n: Node<A>, k: nat, c': Node<A>)
    requires k < |n.branches| && n.branches[k].Some?
    requires BagFrom(n.(branches := n.branches[k := Some(c')]), k + 1) == BagFrom(n, k + 1)
    ensures BagFrom(n.(branches := n.branches[k := Some(c')]), k) + Bag(n.branches[k].value) == BagFrom(n, k) + Bag(c')
  {
    var n' := n.(branches := n.branches[k := Some(c')]);
    assert BagFrom(n', k) == Bag(c') + BagFrom(n', k + 1);
    assert BagFrom(n, k) == Bag(n.branches[k].value) + BagFrom(n, k + 1);
  }

  /** `BagFromUpdate` at a branch other than the replaced one, from the next branch's case. */
  lemma BagFromUpdateOther<A>(n: Node<A>, k: nat, c': Node<A>, j: nat)
    requires k < |n.branches| && n.branches[k].Some? && j < |n.branches| && j != k
    requires j + 1 <= k ==>
      BagFrom(n.(branches := n.branches[k := Some(c')]), j + 1) + Bag(n.branches[k].value) == BagFrom(n, j + 1) + Bag(c')
    requires k < j + 1 ==> BagFrom(n.(branches := n.branches[k := Some(c')]), j + 1) == BagFrom(n, j + 1)
    ensures j <= k ==>
      BagFrom(n.(branches := n.branches[k := Some(c')]), j) + Bag(n.branches[k].value) == BagFrom(n, j) + Bag(c')
    ensures k < j ==> BagFrom(n.(branches := n.branches[k := Some(c')]), j) == BagFrom(n, j)
  {
    var n' := n.(branches := n.branches[k := Some(c')]);
    var x := if n.branches[j].Some? then Bag(n.branches[j].value) else multiset{};
    assert n'.branches[j] == n.branches[j];
    assert BagFrom(n', j) == x + BagFrom(n', j + 1);
    assert BagFrom(n, j) == x + BagFrom(n, j + 1);
    if j < k {
      MultisetShift(x, BagFrom(n', j + 1), Bag(n.branches[k].value), BagFrom(n, j + 1), Bag(c'));
    }
  }

  /** Adding the same multiset to both sides of an equation. */
  lemma MultisetShift<T>(x: multiset<T>, a: multiset<T>, b: multiset<T>, c: multiset<T>, d: multiset<T>)
    requires a + b == c + d
    ensures x + a + b == x + c + d
  {
    assert x + a + b == x + (a + b);
    assert x + c + d == x + (c + d);
  }

  /** Chaining two trades of multisets. */
  lemma MultisetTrade<T>(n': multiset<T>, n: multiset<T>, c: multiset<T>, c': multiset<T>, o: multiset<T>, s: multiset<T>)
    requires n' + c == n + c' && c' + o == c + s
    ensures n' + o == n + s
  {
    calc {
      n' + o + c;
      (n' + c) + o;
      (n + c') + o;
      n + (c' + o);
      n + (c + s);
      n + s + c;
    }
    forall x ensures (n' + o)[x] == (n + s)[x] {
      assert (n' + o + c)[x] == (n + s + c)[x];
    }
  }

  /** Replacing one child trades its items for the new child's. */
  lemma ChildBagTrade<A>(n: Node<A>, b: nat, c': Node<A>)
    requires b < |n.branches| && n.branches[b].Some?
    ensures Bag(n.(branches := n.branches[b := Some(c')])) + Bag(n.branches[b].value) == Bag(n) + Bag(c')
  {
    var n' := n.(branches := n.branches[b := Some(c')]);
    BagFromUpdate(n, b, c', 0);
    var own := if n.item.Some? then multiset{n.item.value} else multiset{};
    assert Bag(n') == own + BagFrom(n', 0);
    assert Bag(n) == own + BagFrom(n, 0);
    MultisetShift(own, BagFrom(n', 0), Bag(n.branches[b].value), BagFrom(n, 0), Bag(c'));
  }

  /** Replacing a node trades the old node's items for the new node's. */
  lemma {:induction false} ReplaceBag<A>(n: Node<A>, at: seq<Nibble>, s: Node<A>)
    requires NodeAt(n, at).Some?
    ensures Bag(Replace(n, at, s)) + Bag(NodeAt(n, at).value) == Bag(n) + Bag(s)
    decreases |at|
  {
    if at != [] {
      var c := n.branches[at[0]].value;
      var c' := Replace(c, at[1..], s);
      ReplaceBag(c, at[1..], s);
      ChildBagTrade(n, at[0], c');
      var old_ := NodeAt(c, at[1..]).value;
      var n' := Replace(n, at, s);
      assert n' == n.(branches := n.branches[at[0] := Some(c')]);
      assert Bag(n') + Bag(c) == Bag(n) + Bag(c');
      MultisetTrade(Bag(n'), Bag(n), Bag(c), Bag(c'), Bag(old_), Bag(s));
    }
  }

  /**
   * Replacing a node of a well-formed tree by a well-formed node at the same
   * place keeps the tree well formed and at the same place.
   */
  lemma {:induction false} ReplaceWF<A>(n: Node<A>, at: seq<Nibble>, s: Node<A>)
    requires WF(n) && NodeAt(n, at).Some? && WF(s) && SamePlace(NodeAt(n, at).value, s)
    ensures WF(Replace(n, at, s)) && SamePlace(n, Replace(n, at, s))
    decreases |at|
  {
    if at != [] {
      var b := at[0];
      var c := n.branches[b].value;
      var c' := Replace(c, at[1..], s);
      ReplaceWF(c, at[1..], s);
      ChildPlace(n, b, c, c');
      var n' := n.(branches := n.branches[b := Some(c')]);
      assert Replace(n, at, s) == n';
      assert forall b': Nibble :: n'.branches[b'].Some? ==> ChildOK(n', b', n'.branches[b'].value) && WF(n'.branches[b'].value);
    }
  }

  /** Both effects of a replacement at once. */
  lemma ReplaceSound<A>(n: Node<A>, at: seq<Nibble>, s: Node<A>)
    requires WF(n) && NodeAt(n, at).Some? && WF(s) && SamePlace(NodeAt(n, at).value, s)
    ensures WF(Replace(n, at, s)) && SamePlace(n, Replace(n, at, s))
    ensures Bag(Replace(n, at, s)) + Bag(NodeAt(n, at).value) == Bag(n) + Bag(s)
  {
    ReplaceWF(n, at, s);
    ReplaceBag(n, at, s);
  }

  /**
   * What the replaced tree looks like along any path: below `p` it is `s`,
   * above `p` it is the old node with the replacement made further down,
   * elsewhere it is unchanged.
   */
  lemma {:induction false} NodeAtReplace<A>(n: Node<A>, p: seq<Nibble>, s: Node<A>, at: seq<Nibble>)
    requires NodeAt(n, p).Some?
    ensures p <= at ==> NodeAt(Replace(n, p, s), at) == NodeAt(s, at[|p|..])
    ensures at < p ==> NodeAt(n, at).Some? && NodeAt(Replace(n, p, s), at) == Some(Replace(NodeAt(n, at).value, p[|at|..], s))
    ensures !(p <= at) && !(at < p) ==> NodeAt(Replace(n, p, s), at) == NodeAt(n, at)
    decreases |p|
  {
    if p != [] && at != [] {
      var b := p[0];
      var c := n.branches[b].value;
      if at[0] == b {
        NodeAtReplace(c, p[1..], s, at[1..]);
        assert p <= at <==> p[1..] <= at[1..];
        assert at < p <==> at[1..] < p[1..];
        if at < p {
          assert p[|at|..] == p[1..][|at[1..]|..];
        }
        if p <= at {
          assert at[|p|..] == at[1..][|p[1..]|..];
        }
      }
    }
  }

  /** Replacing the node at `p` changes no item, key, length or branch occupancy above it. */
  lemma ReplaceAbove<A>(m: Node<A>, rest: seq<Nibble>, s: Node<A>)
    requires rest != [] && NodeAt(m, rest).Some?
    ensures var m' := Replace(m, rest, s);
      m'.item == m.item && m'.key == m.key && m'.qlen == m.qlen && m'.attrs == m.attrs &&
      |m'.branches| == |m.branches| &&
      (forall b :: 0 <= b < |m.branches| ==> (m'.branches[b].Some? <==> m.branches[b].Some?)) &&
      (Forks(m') <==> Forks(m))
  {
    var m' := Replace(m, rest, s);
    if Forks(m) {
      var b1: nat, b2: nat :| b1 < b2 < |m.branches| && m.branches[b1].Some? && m.branches[b2].Some?;
      assert m'.branches[b1].Some? && m'.branches[b2].Some?;
    }
    if Forks(m') {
      var b1: nat, b2: nat :| b1 < b2 < |m'.branches| && m'.branches[b1].Some? && m'.branches[b2].Some?;
      assert m.branches[b1].Some? && m.branches[b2].Some?;
    }
  }

  /** A path that extends a reached node's path reaches from that node. */
  lemma {:induction false} NodeAtTail<A>(n: Node<A>, at: seq<Nibble>, p: seq<Nibble>)
    requires at <= p && NodeAt(n, p).Some?
    ensures NodeAt(n, at).Some? && NodeAt(NodeAt(n, at).value, p[|at|..]) == NodeAt(n, p)
    decreases |at|
  {
    if at != [] {
      NodeAtTail(n.branches[at[0]].value, at[1..], p[1..]);
      assert p[|at|..] == p[1..][|at[1..]|..];
    }
  }

  // ---------------------------------------------------------------------
  // Tracing a key

  /** Length of the longest common prefix of two nibble strings. */
  function Lcp(a: seq<Nibble>, b: seq<Nibble>): (m: nat)
    ensures m <= |a| && m <= |b| && a[..m] == b[..m]
    ensures m < |a| && m < |b| ==> a[m] != b[m]
  {
    if a == [] || b == [] || a[0] != b[0] then 0 else 1 + Lcp(a[1..], b[1..])
  }

  /** The common prefix is determined by where the strings first differ. */
  lemma LcpIs(a: seq<Nibble>, b: seq<Nibble>, m: nat)
    requires m <= |a| && m <= |b| && a[..m] == b[..m]
    requires m == |a| || m == |b| || a[m] != b[m]
    ensures Lcp(a, b) == m
  {
  }

  /**
   * What tracing reports: a complete match at a node (whose item may or may
   * not be set), or a miss at the node above the mismatch together with the
   * nibble position `q` of the mismatch.
   */
  datatype Traced = Matched(at: seq<Nibble>, hasItem: bool) | Missed(at: seq<Nibble>, q: nat)

  /** Node `n` lies on the path of the nibble string `k`, strictly above its end. */
  ghost predicate OnPath<A>(n: Node<A>, k: seq<Nibble>)
  {
    WF(n) && n.qlen < |k| && Path(n) == k[..n.qlen]
  }

  /**
   * Where tracing the nibble string `k` from node `n` (reached by `at`)
   * ends: at a node whose path is the whole of `k`, at a node whose branch
   * for the next digit is empty, or above an edge that leaves `k`.
   */
  ghost function Locate<A>(n: Node<A>, at: seq<Nibble>, k: seq<Nibble>): Traced
    requires WF(n) && n.qlen <= |k| && Path(n) == k[..n.qlen]
    decreases n, 1
  {
    if n.qlen == |k| then Matched(at, n.item.Some?)
    else match n.branches[k[n.qlen]]
      case None => Missed(at, n.qlen)
      case Some(c) => Descend(n, at, c, k)
  }

  /** Following the edge from `n` to its child `c` on the path of `k`. */
  ghost function Descend<A>(n: Node<A>, at: seq<Nibble>, c: Node<A>, k: seq<Nibble>): Traced
    requires OnPath(n, k) && n.branches[k[n.qlen]] == Some(c)
    decreases n, 0
  {
    var m := Lcp(Path(c), k);
    if m < c.qlen then Missed(at, m) else Locate(c, at + [k[n.qlen]], k)
  }

  /** An edge that stays on the path of `k` leads to its lower node. */
  lemma DescendInto<A>(n: Node<A>, at: seq<Nibble>, c: Node<A>, k: seq<Nibble>)
    requires OnPath(n, k) && n.branches[k[n.qlen]] == Some(c)
    requires c.qlen <= |k| && c.qlen <= 2 * |c.key| && Path(c) == k[..c.qlen]
    ensures Descend(n, at, c, k) == Locate(c, at + [k[n.qlen]], k)
  {
    LcpIs(Path(c), k, c.qlen);
  }

  /** An edge that leaves the path of `k` (or outlasts it) at `m` reports a miss there. */
  lemma DescendMiss<A>(n: Node<A>, at: seq<Nibble>, c: Node<A>, k: seq<Nibble>, m: nat)
    requires OnPath(n, k) && n.branches[k[n.qlen]] == Some(c)
    requires m < c.qlen && m <= |k| && QbitStr(c.key)[..m] == k[..m]
    requires m == |k| || QbitStr(c.key)[m] != k[m]
    ensures Descend(n, at, c, k) == Missed(at, m)
  {
    var p := Path(c);
    assert p[..m] == QbitStr(c.key)[..m];
    assert m < |k| ==> p[m] == QbitStr(c.key)[m];
    LcpIs(p, k, m);
  }

  /** XOR of two bytes shows where they differ. */
  lemma XorNibbles(x: bv8, y: bv8)
    ensures (x ^ y == 0) <==> x == y
    ensures ((x ^ y) >> 4 != 0) <==> High(x) != High(y)
    ensures ((x ^ y) & 0xf0 == 0) <==> High(x) == High(y)
  {
  }

  /** The ancestors `anc` of `nod` are the nodes along `at`, `nod` last. */
  ghost predicate Chain<A>(root: Node<A>, anc: seq<Node<A>>, at: seq<Nibble>, nod: Node<A>)
  {
    WF(root) && root.qlen == 0 &&
    |anc| == |at| + 1 && anc[|at|] == nod && anc[0] == root && WF(nod) && (at == [] ==> nod == root)
  }

  /**
   * Tracing state at nibble `2 * i` with every nibble of `nod`'s path below
   * `2 * i` checked: what remains is the edge from the parent into `nod`.
   */
  ghost predicate Settled<A>(root: Node<A>, anc: seq<Node<A>>, at: seq<Nibble>, nod: Node<A>, k: seq<Nibble>, i: nat)
    requires Chain(root, anc, at, nod)
  {
    2 * i <= nod.qlen && 2 * i <= |k| && QbitStr(nod.key)[..2 * i] == k[..2 * i] &&
    (at != [] ==>
      var p := anc[|at| - 1];
      OnPath(p, k) && at[|at| - 1] == k[p.qlen] && p.branches[k[p.qlen]] == Some(nod) &&
      Locate(root, [], k) == Descend(p, at[..|at| - 1], nod, k))
  }

  /**
   * Tracing state after a branch taken on the low nibble of byte `i`
   * (`forward_branch`): the parent's path ends half-way through the byte and
   * its high nibble there is not checked yet, so what remains is the edge
   * from the grandparent into the parent.
   */
  ghost predicate ForwardState<A>(root: Node<A>, anc: seq<Node<A>>, at: seq<Nibble>, nod: Node<A>, k: seq<Nibble>, i: nat)
    requires Chain(root, anc, at, nod)
  {
    |at| >= 2 && 2 * i + 1 < |k| &&
    var p := anc[|at| - 1];
    var g := anc[|at| - 2];
    WF(p) && p.qlen == 2 * i + 1 && QbitStr(p.key)[..2 * i] == k[..2 * i] &&
    at[|at| - 1] == k[2 * i + 1] && p.branches[k[2 * i + 1]] == Some(nod) &&
    OnPath(g, k) && at[|at| - 2] == k[g.qlen] && g.branches[k[g.qlen]] == Some(p) &&
    Locate(root, [], k) == Descend(g, at[..|at| - 2], p, k)
  }

  /** In a settled state whose node's path is checked to its end, tracing resumes at that node. */
  lemma ResumeAt<A>(root: Node<A>, anc: seq<Node<A>>, at: seq<Nibble>, nod: Node<A>, k: seq<Nibble>, i: nat)
    requires Chain(root, anc, at, nod) && Settled(root, anc, at, nod, k, i)
    requires nod.qlen <= |k| && Path(nod) == k[..nod.qlen]
    ensures Locate(root, [], k) == Locate(nod, at, k)
  {
    if at != [] {
      var p := anc[|at| - 1];
      DescendInto(p, at[..|at| - 1], nod, k);
      assert at[..|at| - 1] + [k[p.qlen]] == at;
    }
  }

  /** A prefix of a sequence extended by the next element. */
  lemma Snoc<T>(s: seq<T>, n: nat)
    requires 0 < n <= |s|
    ensures s[..n - 1] + [s[n - 1]] == s[..n]
  {
  }

  /** The two nibbles byte `i` of a key contributes to its nibble string. */
  lemma NibblesOfByte(key: Key, i: nat)
    requires i < |key|
    ensures QbitStr(key)[2 * i] == High(key[i]) && QbitStr(key)[2 * i + 1] == Low(key[i])
  {
  }

  /** Two nibble strings that agree below `m` and at `m` agree below `m + 1`. */
  lemma PrefixExtend(a: seq<Nibble>, b: seq<Nibble>, m: nat)
    requires m < |a| && m < |b| && a[..m] == b[..m] && a[m] == b[m]
    ensures a[..m + 1] == b[..m + 1]
  {
    assert a[..m + 1] == a[..m] + [a[m]];
    assert b[..m + 1] == b[..m] + [b[m]];
  }

  /** Where two keys that agree below byte `i` but differ in it first differ as nibble strings. */
  lemma ByteMismatch(a: Key, b: Key, i: nat)
    requires i < |a| && i < |b| && QbitStr(a)[..2 * i] == QbitStr(b)[..2 * i] && a[i] != b[i]
    ensures var m := 2 * i + (if High(a[i]) == High(b[i]) then 1 else 0);
      QbitStr(a)[..m] == QbitStr(b)[..m] && QbitStr(a)[m] != QbitStr(b)[m]
  {
    if High(a[i]) == High(b[i]) {
      if Low(a[i]) == Low(b[i]) {
        HighLowDetermineByte(a[i], b[i]);
      }
      PrefixExtend(QbitStr(a), QbitStr(b), 2 * i);
    }
  }

  /** A child's key spells its parent's path followed by the branch digit. */
  lemma ChildSpells<A>(n: Node<A>, b: Nibble, c: Node<A>, j: nat)
    requires ChildOK(n, b, c) && j <= n.qlen
    ensures QbitStr(c.key)[..j] == QbitStr(n.key)[..j]
    ensures j < n.qlen ==> QbitStr(c.key)[j] == QbitStr(n.key)[j]
    ensures QbitStr(c.key)[n.qlen] == b
  {
    assert QbitStr(c.key)[..j] == QbitStr(c.key)[..n.qlen][..j];
    assert QbitStr(n.key)[..j] == QbitStr(n.key)[..n.qlen][..j];
    if j < n.qlen {
      assert QbitStr(c.key)[j] == QbitStr(c.key)[..n.qlen][j];
      assert QbitStr(n.key)[j] == QbitStr(n.key)[..n.qlen][j];
    }
  }

  /** One step of `Locate` from a node on the path of `k` into the branch it takes. */
  lemma LocateStep<A>(n: Node<A>, at: seq<Nibble>, c: Node<A>, k: seq<Nibble>)
    requires OnPath(n, k) && n.branches[k[n.qlen]] == Some(c)
    ensures Locate(n, at, k) == Descend(n, at, c, k)
  {
  }

  /** A null branch on the low nibble under a node whose high nibble there is wrong. */
  lemma TraceMissHigh<A>(root: Node<A>, anc: seq<Node<A>>, at: seq<Nibble>, nod: Node<A>, k: seq<Nibble>, key: Key, i: nat)
    requires k == QbitStr(key) && i < |key| && Chain(root, anc, at, nod) && Settled(root, anc, at, nod, k, i)
    requires nod.qlen == 2 * i + 1 && (nod.key[i] ^ key[i]) >> 4 != 0
    ensures at != [] && Locate(root, [], k) == Missed(at[..|at| - 1], 2 * i)
  {
    XorNibbles(nod.key[i], key[i]);
    DescendMiss(anc[|at| - 1], at[..|at| - 1], nod, k, 2 * i);
  }

  /** A null branch under a node whose path is on the key. */
  lemma TraceMissBranch<A>(root: Node<A>, anc: seq<Node<A>>, at: seq<Nibble>, nod: Node<A>, k: seq<Nibble>, key: Key,
                           i: nat, qlen: nat, b: Nibble)
    requires k == QbitStr(key) && i < |key| && Chain(root, anc, at, nod) && Settled(root, anc, at, nod, k, i)
    requires qlen < 2 && nod.qlen == 2 * i + qlen && (qlen == 1 ==> (nod.key[i] ^ key[i]) >> 4 == 0)
    requires b == (if qlen == 1 then Low(key[i]) else High(key[i])) && nod.branches[b].None?
    ensures Locate(root, [], k) == Missed(at, 2 * i + qlen)
  {
    MissPrefix(nod, key, i, qlen, b);
    ResumeAt(root, anc, at, nod, k, i);
    LocateEmptyBranch(nod, at, k);
  }

  /** Amid byte `i`, a node whose checked nibbles match has its whole path on the key. */
  lemma MissPrefix<A>(nod: Node<A>, key: Key, i: nat, qlen: nat, b: Nibble)
    requires i < |key| && qlen < 2 && nod.qlen == 2 * i + qlen && nod.qlen <= 2 * |nod.key|
    requires QbitStr(nod.key)[..2 * i] == QbitStr(key)[..2 * i]
    requires qlen == 1 ==> (nod.key[i] ^ key[i]) >> 4 == 0
    requires b == (if qlen == 1 then Low(key[i]) else High(key[i]))
    ensures nod.qlen < |QbitStr(key)| && Path(nod) == QbitStr(key)[..nod.qlen] && QbitStr(key)[nod.qlen] == b
  {
    NibblesOfByte(key, i);
    if qlen == 1 {
      XorNibbles(nod.key[i], key[i]);
      NibblesOfByte(nod.key, i);
      PrefixExtend(QbitStr(nod.key), QbitStr(key), 2 * i);
    }
  }

  /** Tracing stops at a node on the path whose branch for the next digit is empty. */
  lemma LocateEmptyBranch<A>(nod: Node<A>, at: seq<Nibble>, k: seq<Nibble>)
    requires OnPath(nod, k) && nod.branches[k[nod.qlen]].None?
    ensures Locate(nod, at, k) == Missed(at, nod.qlen)
  {
  }

  /** Taking the branch on the high nibble of byte `i`: the node is confirmed. */
  lemma TraceBranchHigh<A>(root: Node<A>, anc: seq<Node<A>>, at: seq<Nibble>, nod: Node<A>, c: Node<A>, k: seq<Nibble>,
                           key: Key, i: nat, b: Nibble)
    requires k == QbitStr(key) && i < |key| && Chain(root, anc, at, nod) && Settled(root, anc, at, nod, k, i)
    requires nod.qlen == 2 * i && b == High(key[i]) && nod.branches[b] == Some(c)
    ensures Chain(root, anc + [c], at + [b], c) && c.qlen >= 2 * i + 1
    ensures Settled(root, anc + [c], at + [b], c, k, i)
  {
    NibblesOfByte(key, i);
    assert OnPath(nod, k);
    ResumeAt(root, anc, at, nod, k, i);
    SettleChild(root, anc, at, nod, c, k, i);
  }

  /** Entering the child on the path of `k` below a confirmed node. */
  lemma SettleChild<A>(root: Node<A>, anc: seq<Node<A>>, at: seq<Nibble>, nod: Node<A>, c: Node<A>, k: seq<Nibble>, i: nat)
    requires Chain(root, anc, at, nod) && OnPath(nod, k) && nod.qlen == 2 * i && nod.branches[k[nod.qlen]] == Some(c)
    requires Locate(root, [], k) == Locate(nod, at, k)
    ensures Chain(root, anc + [c], at + [k[nod.qlen]], c) && c.qlen >= 2 * i + 1
    ensures Settled(root, anc + [c], at + [k[nod.qlen]], c, k, i)
  {
    var d := k[nod.qlen];
    assert ChildOK(nod, d, c);
    ChildSpells(nod, d, c, 2 * i);
    LocateStep(nod, at, c, k);
    assert (at + [d])[..|at|] == at;
  }

  /** Taking the branch on the low nibble of byte `i`: the node's high nibble there is still unchecked. */
  lemma TraceBranchLow<A>(root: Node<A>, anc: seq<Node<A>>, at: seq<Nibble>, nod: Node<A>, c: Node<A>, k: seq<Nibble>,
                          key: Key, i: nat, b: Nibble)
    requires k == QbitStr(key) && i < |key| && Chain(root, anc, at, nod) && Settled(root, anc, at, nod, k, i)
    requires nod.qlen == 2 * i + 1 && b == Low(key[i]) && nod.branches[b] == Some(c)
    ensures Chain(root, anc + [c], at + [b], c) && c.qlen >= 2 * i + 2
    ensures ForwardState(root, anc + [c], at + [b], c, k, i)
  {
    NibblesOfByte(key, i);
    ChainExtend(root, anc, at, nod, c, b);
    ForwardEnter(root, anc, at, nod, c, k, i);
  }

  /** The chain of ancestors grows by the child taken at branch `b`. */
  lemma ChainExtend<A>(root: Node<A>, anc: seq<Node<A>>, at: seq<Nibble>, nod: Node<A>, c: Node<A>, b: Nibble)
    requires Chain(root, anc, at, nod) && nod.branches[b] == Some(c)
    ensures Chain(root, anc + [c], at + [b], c) && ChildOK(nod, b, c)
  {
  }

  /** Entering the child at the low nibble of byte `i` leaves a forward state. */
  lemma ForwardEnter<A>(root: Node<A>, anc: seq<Node<A>>, at: seq<Nibble>, nod: Node<A>, c: Node<A>, k: seq<Nibble>, i: nat)
    requires Chain(root, anc, at, nod) && Settled(root, anc, at, nod, k, i)
    requires nod.qlen == 2 * i + 1 && 2 * i + 1 < |k| && nod.branches[k[2 * i + 1]] == Some(c)
    requires Chain(root, anc + [c], at + [k[2 * i + 1]], c)
    ensures ForwardState(root, anc + [c], at + [k[2 * i + 1]], c, k, i)
  {
    assert (at + [k[2 * i + 1]])[..|at| - 1] == at[..|at| - 1];
  }

  /** A byte mismatch right after a branch taken on the low nibble. */
  lemma TraceMismatchForward<A>(root: Node<A>, anc: seq<Node<A>>, at: seq<Nibble>, nod: Node<A>, k: seq<Nibble>,
                                key: Key, i: nat)
    requires k == QbitStr(key) && i < |key| && Chain(root, anc, at, nod) && ForwardState(root, anc, at, nod, k, i)
    requires nod.key[i] ^ key[i] != 0
    ensures |at| >= 2 && Locate(root, [], k) == Missed(at[..|at| - 2], 2 * i + (if (nod.key[i] ^ key[i]) & 0xf0 == 0 then 1 else 0))
  {
    XorNibbles(nod.key[i], key[i]);
    var p := anc[|at| - 1];
    assert ChildOK(p, k[2 * i + 1], nod);
    ChildSpells(p, k[2 * i + 1], nod, 2 * i);
    if High(nod.key[i]) == High(key[i]) {
      HighLowDetermineByte(nod.key[i], key[i]);
    }
    DescendMiss(anc[|at| - 2], at[..|at| - 2], p, k, 2 * i);
  }

  /** A byte mismatch inside an edge. */
  lemma TraceMismatch<A>(root: Node<A>, anc: seq<Node<A>>, at: seq<Nibble>, nod: Node<A>, k: seq<Nibble>, key: Key, i: nat)
    requires k == QbitStr(key) && i < |key| && Chain(root, anc, at, nod) && Settled(root, anc, at, nod, k, i)
    requires nod.qlen >= 2 * i + 2 && nod.key[i] ^ key[i] != 0
    ensures at != [] && Locate(root, [], k) == Missed(at[..|at| - 1], 2 * i + (if (nod.key[i] ^ key[i]) & 0xf0 == 0 then 1 else 0))
  {
    XorNibbles(nod.key[i], key[i]);
    var m := 2 * i + (if High(nod.key[i]) == High(key[i]) then 1 else 0);
    ByteMismatch(nod.key, key, i);
    DescendMiss(anc[|at| - 1], at[..|at| - 1], nod, k, m);
  }

  /** A matching byte after a branch taken on the low nibble: the parent is confirmed. */
  lemma TraceByteMatchForward<A>(root: Node<A>, anc: seq<Node<A>>, at: seq<Nibble>, nod: Node<A>, k: seq<Nibble>,
                                 key: Key, i: nat)
    requires k == QbitStr(key) && i < |key| && Chain(root, anc, at, nod) && ForwardState(root, anc, at, nod, k, i)
    requires nod.qlen >= 2 * i + 2 && nod.key[i] ^ key[i] == 0
    ensures Settled(root, anc, at, nod, k, i + 1)
  {
    XorNibbles(nod.key[i], key[i]);
    ChildPlaced(anc[|at| - 1], at[|at| - 1], nod);
    ParentByte(anc[|at| - 1], at[|at| - 1], nod, key, i);
    ForwardConfirm(root, anc, at, nod, k, i);
    SettleForward(root, anc, at, nod, k, i);
  }

  /**
   * Below a parent entered on the low nibble of byte `i`, a matching byte
   * of the child confirms the parent's path and the child's first `i + 1`
   * bytes.
   */
  lemma ParentByte<A>(p: Node<A>, b: Nibble, nod: Node<A>, key: Key, i: nat)
    requires ChildOK(p, b, nod) && p.qlen == 2 * i + 1 && i < |key| && QbitStr(p.key)[..2 * i] == QbitStr(key)[..2 * i]
    requires nod.qlen >= 2 * i + 2 && nod.key[i] == key[i]
    ensures Path(p) == QbitStr(key)[..2 * i + 1]
    ensures QbitStr(nod.key)[..2 * i + 2] == QbitStr(key)[..2 * i + 2]
  {
    ChildSpells(p, b, nod, 2 * i);
    ByteExtends(nod.key, key, i);
    NibblesOfByte(nod.key, i);
    NibblesOfByte(key, i);
    PrefixExtend(QbitStr(p.key), QbitStr(key), 2 * i);
  }

  /** A child of a well-formed node is placed by `ChildOK`. */
  lemma ChildPlaced<A>(p: Node<A>, b: Nibble, c: Node<A>)
    requires WF(p) && p.branches[b] == Some(c)
    ensures ChildOK(p, b, c)
  {
  }

  /** Two keys that agree below byte `i` and in it agree on its two nibbles too. */
  lemma ByteExtends(a: Key, b: Key, i: nat)
    requires i < |a| && i < |b| && QbitStr(a)[..2 * i] == QbitStr(b)[..2 * i] && a[i] == b[i]
    ensures QbitStr(a)[..2 * i + 2] == QbitStr(b)[..2 * i + 2]
  {
    NibblesOfByte(a, i);
    NibblesOfByte(b, i);
    PrefixExtend(QbitStr(a), QbitStr(b), 2 * i);
    PrefixExtend(QbitStr(a), QbitStr(b), 2 * i + 1);
  }

  /** Once the parent's path is confirmed, tracing goes on from it into `nod`. */
  lemma ForwardConfirm<A>(root: Node<A>, anc: seq<Node<A>>, at: seq<Nibble>, nod: Node<A>, k: seq<Nibble>, i: nat)
    requires Chain(root, anc, at, nod) && ForwardState(root, anc, at, nod, k, i)
    requires OnPath(anc[|at| - 1], k)
    ensures Locate(root, [], k) == Descend(anc[|at| - 1], at[..|at| - 1], nod, k)
  {
    var p := anc[|at| - 1];
    var g := anc[|at| - 2];
    DescendInto(g, at[..|at| - 2], p, k);
    Snoc(at, |at| - 1);
    LocateStep(p, at[..|at| - 1], nod, k);
  }

  /** `Settled` at the next byte, for the node below a parent that is now confirmed. */
  lemma SettleForward<A>(root: Node<A>, anc: seq<Node<A>>, at: seq<Nibble>, nod: Node<A>, k: seq<Nibble>, i: nat)
    requires Chain(root, anc, at, nod) && ForwardState(root, anc, at, nod, k, i)
    requires OnPath(anc[|at| - 1], k) && Locate(root, [], k) == Descend(anc[|at| - 1], at[..|at| - 1], nod, k)
    requires 2 * i + 2 <= nod.qlen && 2 * i + 2 <= |k| && QbitStr(nod.key)[..2 * i + 2] == k[..2 * i + 2]
    ensures Settled(root, anc, at, nod, k, i + 1)
  {
  }

  /** A matching byte inside an edge. */
  lemma TraceByteMatchInEdge<A>(root: Node<A>, anc: seq<Node<A>>, at: seq<Nibble>, nod: Node<A>, k: seq<Nibble>,
                                key: Key, i: nat)
    requires k == QbitStr(key) && i < |key| && Chain(root, anc, at, nod) && Settled(root, anc, at, nod, k, i)
    requires nod.qlen >= 2 * i + 2 && nod.key[i] ^ key[i] == 0
    ensures Settled(root, anc, at, nod, k, i + 1)
  {
    XorNibbles(nod.key[i], key[i]);
    ByteExtends(nod.key, key, i);
    SettledNext(root, anc, at, nod, k, i);
  }

  /** `Settled` at the next byte, once the node's path agrees with the key through it. */
  lemma SettledNext<A>(root: Node<A>, anc: seq<Node<A>>, at: seq<Nibble>, nod: Node<A>, k: seq<Nibble>, i: nat)
    requires Chain(root, anc, at, nod) && Settled(root, anc, at, nod, k, i)
    requires 2 * i + 2 <= nod.qlen && 2 * i + 2 <= |k| && QbitStr(nod.key)[..2 * i + 2] == k[..2 * i + 2]
    ensures Settled(root, anc, at, nod, k, i + 1)
  {
  }

  /**
   * Comparing byte `i` of the key with the node reached: a mismatch is a
   * miss at the parent (the grandparent after a forward branch), a match
   * settles the byte.
   */
  lemma CompareByte<A>(root: Node<A>, anc: seq<Node<A>>, at: seq<Nibble>, nod: Node<A>, k: seq<Nibble>,
                       key: Key, i: nat, forward: bool)
    requires k == QbitStr(key) && i < |key| && Chain(root, anc, at, nod) && nod.qlen >= 2 * i + 2
    requires forward ==> ForwardState(root, anc, at, nod, k, i)
    requires !forward ==> Settled(root, anc, at, nod, k, i)
    ensures var up := if forward then 2 else 1;
      |at| >= up &&
      (nod.key[i] ^ key[i] != 0 ==>
        Locate(root, [], k) == Missed(at[..|at| - up], 2 * i + (if (nod.key[i] ^ key[i]) & 0xf0 == 0 then 1 else 0))) &&
      (nod.key[i] ^ key[i] == 0 ==> Settled(root, anc, at, nod, k, i + 1))
  {
    if forward {
      if nod.key[i] ^ key[i] != 0 {
        TraceMismatchForward(root, anc, at, nod, k, key, i);
      } else {
        TraceByteMatchForward(root, anc, at, nod, k, key, i);
      }
    } else {
      if nod.key[i] ^ key[i] != 0 {
        TraceMismatch(root, anc, at, nod, k, key, i);
      } else {
        TraceByteMatchInEdge(root, anc, at, nod, k, key, i);
        assert at != [];
      }
    }
  }

  /** The key ends exactly at the node reached. */
  lemma TraceEnd<A>(root: Node<A>, anc: seq<Node<A>>, at: seq<Nibble>, nod: Node<A>, k: seq<Nibble>, key: Key)
    requires k == QbitStr(key) && Chain(root, anc, at, nod) && Settled(root, anc, at, nod, k, |key|)
    requires nod.qlen == 2 * |key|
    ensures Locate(root, [], k) == Matched(at, nod.item.Some?)
  {
    assert Path(nod) == k[..nod.qlen];
    ResumeAt(root, anc, at, nod, k, |key|);
  }

  /** The key ends inside the edge into the node reached. */
  lemma TraceEndInEdge<A>(root: Node<A>, anc: seq<Node<A>>, at: seq<Nibble>, nod: Node<A>, k: seq<Nibble>, key: Key)
    requires k == QbitStr(key) && Chain(root, anc, at, nod) && Settled(root, anc, at, nod, k, |key|)
    requires nod.qlen > 2 * |key|
    ensures at != [] && Locate(root, [], k) == Missed(at[..|at| - 1], 2 * |key|)
  {
    DescendMiss(anc[|at| - 1], at[..|at| - 1], nod, k, 2 * |key|);
  }

  /** One pass of the branching loop: a null branch is a miss, a set branch is entered. */
  lemma BranchStep<A>(root: Node<A>, anc: seq<Node<A>>, at: seq<Nibble>, nod: Node<A>, k: seq<Nibble>, key: Key,
                      i: nat, qlen: nat, b: Nibble)
    requires k == QbitStr(key) && i < |key| && Chain(root, anc, at, nod) && Settled(root, anc, at, nod, k, i)
    requires qlen < 2 && nod.qlen == 2 * i + qlen && b == (if qlen == 1 then Low(key[i]) else High(key[i]))
    ensures nod.branches[b].None? && qlen == 1 && (nod.key[i] ^ key[i]) >> 4 != 0 ==>
      at != [] && Locate(root, [], k) == Missed(at[..|at| - 1], 2 * i)
    ensures nod.branches[b].None? && !(qlen == 1 && (nod.key[i] ^ key[i]) >> 4 != 0) ==>
      Locate(root, [], k) == Missed(at, 2 * i + qlen)
    ensures nod.branches[b].Some? ==> Chain(root, anc + [nod.branches[b].value], at + [b], nod.branches[b].value)
    ensures nod.branches[b].Some? && qlen == 0 ==>
      nod.branches[b].value.qlen >= 2 * i + 1 &&
      Settled(root, anc + [nod.branches[b].value], at + [b], nod.branches[b].value, k, i)
    ensures nod.branches[b].Some? && qlen == 1 ==>
      nod.branches[b].value.qlen >= 2 * i + 2 &&
      ForwardState(root, anc + [nod.branches[b].value], at + [b], nod.branches[b].value, k, i)
  {
    if nod.branches[b].None? {
      if qlen == 1 && (nod.key[i] ^ key[i]) >> 4 != 0 {
        TraceMissHigh(root, anc, at, nod, k, key, i);
      } else {
        TraceMissBranch(root, anc, at, nod, k, key, i, qlen, b);
      }
    } else if qlen == 0 {
      TraceBranchHigh(root, anc, at, nod, nod.branches[b].value, k, key, i, b);
    } else {
      TraceBranchLow(root, anc, at, nod, nod.branches[b].value, k, key, i, b);
    }
  }

  /**
   * The branching step of `trace` for byte `i`: while the current node's
   * path ends at this byte's high (`qlen` 0) or low (`qlen` 1) nibble, take
   * the branch for that nibble.  A null branch ends the trace with a miss
   * (`Some`); otherwise the step stops inside an edge, with
   * `forward_branch` telling whether the last branch was taken on the low
   * nibble.
   */
  method Branching<A>(root: Node<A>, key: Key, i: nat, nod0: Node<A>, at0: seq<Nibble>, qlen0: int,
                      ghost anc0: seq<Node<A>>)
    returns (miss: Option<Traced>, nod: Node<A>, at: seq<Nibble>, qlen: int, forward_branch: bool,
             ghost anc: seq<Node<A>>)
    requires i < |key| && Chain(root, anc0, at0, nod0) && qlen0 == nod0.qlen - 2 * i && qlen0 >= 0
    requires Settled(root, anc0, at0, nod0, QbitStr(key), i)
    ensures miss.Some? ==> miss.value == Locate(root, [], QbitStr(key))
    ensures miss.None? ==> Chain(root, anc, at, nod) && qlen == nod.qlen - 2 * i && qlen >= 2
    ensures miss.None? && forward_branch ==> ForwardState(root, anc, at, nod, QbitStr(key), i)
    ensures miss.None? && !forward_branch ==> Settled(root, anc, at, nod, QbitStr(key), i)
  {
    ghost var k := QbitStr(key);
    nod, at, qlen, forward_branch, anc := nod0, at0, qlen0, false, anc0;
    while qlen < 2
      invariant Chain(root, anc, at, nod)
      invariant qlen == nod.qlen - 2 * i && qlen >= 0
      invariant forward_branch ==> qlen >= 2 && ForwardState(root, anc, at, nod, k, i)
      invariant !forward_branch ==> Settled(root, anc, at, nod, k, i)
      decreases 2 - qlen
    {
      miss, nod, at, qlen, forward_branch, anc := BranchOnce(root, key, i, nod, at, qlen, anc);
      if miss.Some? {
        return;
      }
    }
    miss := None;
  }

  /**
   * One branch taken by `Branching`, on the high (`qlen` 0) or the low
   * (`qlen` 1) nibble of byte `i`: a null branch is a miss, reported at the
   * grandparent when the high nibble differs amid the byte.
   */
  method BranchOnce<A>(root: Node<A>, key: Key, i: nat, nod0: Node<A>, at0: seq<Nibble>, qlen0: int,
                       ghost anc0: seq<Node<A>>)
    returns (miss: Option<Traced>, nod: Node<A>, at: seq<Nibble>, qlen: int, forward_branch: bool,
             ghost anc: seq<Node<A>>)
    requires i < |key| && Chain(root, anc0, at0, nod0) && qlen0 == nod0.qlen - 2 * i && 0 <= qlen0 < 2
    requires Settled(root, anc0, at0, nod0, QbitStr(key), i)
    ensures miss.Some? ==> miss.value == Locate(root, [], QbitStr(key))
    ensures miss.None? ==> Chain(root, anc, at, nod) && qlen == nod.qlen - 2 * i && qlen > qlen0
    ensures miss.None? && forward_branch ==> qlen >= 2 && ForwardState(root, anc, at, nod, QbitStr(key), i)
    ensures miss.None? && !forward_branch ==> Settled(root, anc, at, nod, QbitStr(key), i)
  {
    var byte := key[i];
    nod, at, qlen, forward_branch, anc := nod0, at0, qlen0, false, anc0;
    var b: Nibble := if qlen == 1 then Low(byte) else High(byte);
    BranchStep(root, anc, at, nod, QbitStr(key), key, i, qlen, b);
    if nod.branches[b].None? {
      // Amid a byte, the high nibble is checked first.
      if qlen == 1 && (nod.key[i] ^ byte) >> 4 != 0 {
        return Some(Missed(at[..|at| - 1], 2 * i)), nod, at, qlen, forward_branch, anc;
      }
      return Some(Missed(at, 2 * i + qlen)), nod, at, qlen, forward_branch, anc;
    }
    var c := nod.branches[b].value;
    forward_branch := qlen > 0;
    anc := anc + [c];
    at := at + [b];
    nod := c;
    qlen := nod.qlen - 2 * i;
    miss := None;
  }

  /**
   * One pass of the byte loop of `trace` for byte `i`: branching, then the
   * comparison of the whole byte.  A miss ends the trace (`Some`);
   * otherwise the byte is settled and `qlen` drops by two.
   */
  method TraceByte<A>(root: Node<A>, key: Key, i: nat, nod0: Node<A>, at0: seq<Nibble>, qlen0: int,
                      ghost anc0: seq<Node<A>>)
    returns (done: Option<Traced>, nod: Node<A>, at: seq<Nibble>, qlen: int, ghost anc: seq<Node<A>>)
    requires i < |key| && Chain(root, anc0, at0, nod0) && qlen0 == nod0.qlen - 2 * i && qlen0 >= 0
    requires Settled(root, anc0, at0, nod0, QbitStr(key), i)
    ensures done.Some? ==> done.value == Locate(root, [], QbitStr(key))
    ensures done.None? ==> Chain(root, anc, at, nod) && qlen == nod.qlen - 2 * (i + 1) && qlen >= 0
    ensures done.None? ==> Settled(root, anc, at, nod, QbitStr(key), i + 1)
  {
    var miss, forward_branch;
    miss, nod, at, qlen, forward_branch, anc := Branching(root, key, i, nod0, at0, qlen0, anc0);
    if miss.Some? {
      return miss, nod, at, qlen, anc;
    }

    var mismatch := nod.key[i] ^ key[i];
    CompareByte(root, anc, at, nod, QbitStr(key), key, i, forward_branch);
    if mismatch != 0 {
      // The parent, or the grandparent after a forward branch
      var up := if forward_branch then 2 else 1;
      return Some(Missed(at[..|at| - up], 2 * i + (if mismatch & 0xf0 == 0 then 1 else 0))), nod, at, qlen, anc;
    }
    qlen := qlen - 2;
    done := None;
  }

  /**
   * `trace`: follows the key byte by byte.  At a node whose path ends at the
   * current byte or half-way through it, it branches (`Branching`);
   * otherwise it compares the whole byte with the key of the node it is in
   * (`TraceByte`).  A node entered on a low nibble (`forward_branch`) has
   * not had its own high nibble checked, so a mismatch in that byte is
   * reported two levels up.  The miss action the C++ passes in is applied
   * by the caller.
   */
  method Trace<A>(root: Node<A>, key: Key) returns (t: Traced)
    requires WF(root) && root.qlen == 0
    ensures t == Locate(root, [], QbitStr(key))
  {
    ghost var k := QbitStr(key);
    ghost var anc: seq<Node<A>> := [root];
    var nod := root;
    var at: seq<Nibble> := [];
    var qlen: int := 0;
    var i := 0;
    while i < |key|
      invariant 0 <= i <= |key| && Chain(root, anc, at, nod)
      invariant qlen == nod.qlen - 2 * i && qlen >= 0
      invariant Settled(root, anc, at, nod, k, i)
    {
      var done;
      done, nod, at, qlen, anc := TraceByte(root, key, i, nod, at, qlen, anc);
      if done.Some? {
        return done.value;
      }
      i := i + 1;
    }

    if qlen == 0 {
      TraceEnd(root, anc, at, nod, k, key);
      return Matched(at, nod.item.Some?);
    }
    // Amid a branch
    TraceEndInEdge(root, anc, at, nod, k, key);
    return Missed(at[..|at| - 1], 2 * |key|);
  }
}
