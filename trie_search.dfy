/**
 * What `trace` finds, shared by both revisions of the trie: a complete
 * match reaches the one node whose path is the whole key, and a miss names
 * the node where the key leaves the tree and the nibble position where it
 * does.  From this follow the item semantics `find` and `insert` rely on:
 * the trie holds an item with key `k` exactly when tracing `k` ends in a
 * complete match at a node that carries an item.
 */
module TrieSearch {
  import opened Keys
  import opened Paths
  import opened TrieCore

  /**
   * The C++ `position_t`: the node (as its branch path), the matching key
   * quad-bit length, and the complete-match flag.
   */
  datatype Position = Position(at: seq<Nibble>, qlen: nat, hit: bool)

  /**
   * `search_position` applied to what `trace` reports: a match is reported
   * at the node with the full nibble length `len << 1`, a miss at the node
   * and position the miss names, never as a hit.
   */
  function SearchPosition(t: Traced, len: nat): (p: Position)
    ensures t.Matched? ==> p.at == t.at && p.qlen == 2 * len && p.hit == t.hasItem
    ensures t.Missed? ==> p.at == t.at && p.qlen == t.q && !p.hit
  {
    match t
    case Matched(at, h) => Position(at, 2 * len, h)
    case Missed(at, q) => Position(at, q, false)
  }

  /**
   * How the key `k` leaves the tree below node `m` (which lies on its
   * path) at nibble position `q`: either the branch for the next digit is
   * empty and `q` is the end of `m`'s path, or the child on that branch
   * has a longer path that agrees with `k` below `q` and disagrees at `q`
   * (or `k` ends at `q`).
   */
  ghost predicate MissAt<A>(m: Node<A>, k: seq<Nibble>, q: nat)
  {
    OnPath(m, k) && q <= |k| &&
    (m.branches[k[m.qlen]].None? ==> q == m.qlen) &&
    (m.branches[k[m.qlen]].Some? ==>
      var c := m.branches[k[m.qlen]].value;
      m.qlen < q < c.qlen && c.qlen <= 2 * |c.key| && QbitStr(c.key)[..q] == k[..q] &&
      (q == |k| || QbitStr(c.key)[q] != k[q]))
  }

  /** Two nibble strings that agree below `j` agree below any `i <= j`. */
  lemma PrefixOfPrefix(a: seq<Nibble>, b: seq<Nibble>, i: nat, j: nat)
    requires i <= j <= |a| && j <= |b| && a[..j] == b[..j]
    ensures a[..i] == b[..i]
    ensures i < j ==> a[i] == b[i]
  {
    assert a[..i] == a[..j][..i];
    assert b[..i] == b[..j][..i];
    if i < j {
      assert a[i] == a[..j][i];
      assert b[i] == b[..j][i];
    }
  }

  /** Strings that agree below `j` have a common prefix at least `j` long. */
  lemma LcpAtLeast(a: seq<Nibble>, b: seq<Nibble>, j: nat)
    requires j <= |a| && j <= |b| && a[..j] == b[..j]
    ensures Lcp(a, b) >= j
  {
    var m := Lcp(a, b);
    if m < j {
      PrefixOfPrefix(a, b, m, j);
    }
  }

  /**
   * Every node reached from `n` lies below it: its path extends `n`'s path,
   * and a node reached through branch `at[0]` continues with that digit.
   */
  lemma {:induction false} NodeAtPath<A>(n: Node<A>, at: seq<Nibble>)
    requires WF(n) && NodeAt(n, at).Some?
    ensures var m := NodeAt(n, at).value;
      n.qlen <= m.qlen <= 2 * |m.key| && QbitStr(m.key)[..n.qlen] == Path(n) &&
      (at != [] ==> n.qlen < m.qlen && QbitStr(m.key)[n.qlen] == at[0])
    decreases |at|
  {
    if at != [] {
      var c := n.branches[at[0]].value;
      var m := NodeAt(n, at).value;
      assert ChildOK(n, at[0], c);
      NodeAtPath(c, at[1..]);
      PrefixOfPrefix(QbitStr(m.key), QbitStr(c.key), n.qlen, c.qlen);
    }
  }

  /** The item a node carries is one of the items of any tree reaching it. */
  lemma {:induction false} ItemAt<A>(n: Node<A>, x: KeyVal) returns (at: seq<Nibble>)
    requires WF(n) && x in Bag(n)
    ensures NodeAt(n, at).Some? && NodeAt(n, at).value.item == Some(x)
    decreases n
  {
    if n.item == Some(x) {
      at := [];
    } else {
      var b: Nibble := BagFromMember(n, 0, x);
      var sub := ItemAt(n.branches[b].value, x);
      at := [b] + sub;
      assert at[1..] == sub;
    }
  }

  /**
   * Completeness of tracing: from a node on the path of `k`, tracing `k`
   * reaches every node whose path is the whole of `k`, and reports whether
   * it carries an item.
   */
  lemma {:induction false} LocateReaches<A>(n: Node<A>, pre: seq<Nibble>, k: seq<Nibble>, at: seq<Nibble>)
    requires WF(n) && n.qlen <= |k| && Path(n) == k[..n.qlen]
    requires NodeAt(n, at).Some? && NodeAt(n, at).value.qlen == |k| <= 2 * |NodeAt(n, at).value.key|
    requires Path(NodeAt(n, at).value) == k
    ensures Locate(n, pre, k) == Matched(pre + at, NodeAt(n, at).value.item.Some?)
    decreases |at|
  {
    var m := NodeAt(n, at).value;
    if at == [] {
      assert pre + at == pre;
    } else {
      ReachStep(n, at, k);
      var c := n.branches[at[0]].value;
      DescendInto(n, pre, c, k);
      LocateReaches(c, pre + [at[0]], k, at[1..]);
      assert pre + [at[0]] + at[1..] == pre + at;
    }
  }

  /** One step of `LocateReaches`: the first branch of `at` is the one tracing takes. */
  lemma ReachStep<A>(n: Node<A>, at: seq<Nibble>, k: seq<Nibble>)
    requires WF(n) && n.qlen <= |k| && Path(n) == k[..n.qlen] && at != []
    requires NodeAt(n, at).Some? && NodeAt(n, at).value.qlen == |k| <= 2 * |NodeAt(n, at).value.key|
    requires Path(NodeAt(n, at).value) == k
    ensures OnPath(n, k) && k[n.qlen] == at[0] && n.branches[k[n.qlen]].Some?
    ensures var c := n.branches[k[n.qlen]].value;
      WF(c) && NodeAt(c, at[1..]) == NodeAt(n, at) && c.qlen <= |k| && c.qlen <= 2 * |c.key| && Path(c) == k[..c.qlen]
  {
    var m := NodeAt(n, at).value;
    NodeAtPath(n, at);
    ReachDigit(m, n.qlen, k);
    ReachChild(n.branches[at[0]].value, at[1..], m, k);
  }

  /** A digit of a node's path is a digit of the key it spells. */
  lemma ReachDigit<A>(m: Node<A>, j: nat, k: seq<Nibble>)
    requires j < m.qlen <= 2 * |m.key| && Path(m) == k
    ensures QbitStr(m.key)[j] == k[j]
  {
    assert QbitStr(m.key)[j] == Path(m)[j];
  }

  /** The child on the way to `m` has a path that is a prefix of `m`'s. */
  lemma ReachChild<A>(c: Node<A>, rest: seq<Nibble>, m: Node<A>, k: seq<Nibble>)
    requires WF(c) && NodeAt(c, rest) == Some(m) && m.qlen <= 2 * |m.key| && Path(m) == k
    ensures c.qlen <= |k| && c.qlen <= 2 * |c.key| && Path(c) == k[..c.qlen]
  {
    NodeAtPath(c, rest);
    assert QbitStr(m.key)[..c.qlen] == Path(m)[..c.qlen];
  }

  /**
   * Soundness of tracing: a complete match names a node reached from `n`
   * whose path is the whole of `k`; a miss names a node on the path of `k`
   * and the position where `k` leaves the tree below it.
   */
  lemma {:induction false} LocateSound<A>(n: Node<A>, pre: seq<Nibble>, k: seq<Nibble>)
    requires WF(n) && n.qlen <= |k| && Path(n) == k[..n.qlen]
    ensures SoundAt(n, pre, k)
    decreases n
  {
    var t := Locate(n, pre, k);
    if n.qlen == |k| || n.branches[k[n.qlen]].None? {
      assert t.at[|pre|..] == [];
    } else {
      var c := n.branches[k[n.qlen]].value;
      EdgeFacts(n, k);
      if Lcp(Path(c), k) < c.qlen {
        EdgeMiss(n, k);
        SoundMiss(n, pre, k);
      } else {
        EdgeDeeper(n, k);
        LocateSound(c, pre + [k[n.qlen]], k);
        SoundDeeper(n, pre, k);
      }
    }
  }

  /** `LocateSound` where the edge leaves the key. */
  lemma SoundMiss<A>(n: Node<A>, pre: seq<Nibble>, k: seq<Nibble>)
    requires OnPath(n, k) && n.branches[k[n.qlen]].Some?
    requires Lcp(Path(n.branches[k[n.qlen]].value), k) < n.branches[k[n.qlen]].value.qlen
    requires MissAt(n, k, Lcp(Path(n.branches[k[n.qlen]].value), k))
    ensures SoundAt(n, pre, k)
  {
    var t := Locate(n, pre, k);
    LocateStep(n, pre, n.branches[k[n.qlen]].value, k);
    assert t.at == pre;
    assert t.at[|pre|..] == [];
  }

  /** `LocateSound` where the edge stays on the key, from the result below it. */
  lemma SoundDeeper<A>(n: Node<A>, pre: seq<Nibble>, k: seq<Nibble>)
    requires OnPath(n, k) && n.branches[k[n.qlen]].Some?
    requires var c := n.branches[k[n.qlen]].value;
      WF(c) && c.qlen <= |k| && c.qlen <= 2 * |c.key| && Path(c) == k[..c.qlen] && SoundAt(c, pre + [k[n.qlen]], k)
    ensures SoundAt(n, pre, k)
  {
    var c := n.branches[k[n.qlen]].value;
    var d := k[n.qlen];
    var t := Locate(n, pre, k);
    DescendInto(n, pre, c, k);
    LocateStep(n, pre, c, k);
    assert t == Locate(c, pre + [d], k);
    var rest := t.at[|pre| + 1..];
    assert t.at[|pre|..] == [d] + rest;
    assert ([d] + rest)[1..] == rest;
    assert NodeAt(n, t.at[|pre|..]) == NodeAt(c, rest);
  }

  /** What `LocateSound` states about tracing `k` from `n`, reached by `pre`. */
  ghost predicate SoundAt<A>(n: Node<A>, pre: seq<Nibble>, k: seq<Nibble>)
    requires WF(n) && n.qlen <= |k| && Path(n) == k[..n.qlen]
  {
    var t := Locate(n, pre, k);
    |pre| <= |t.at| && t.at[..|pre|] == pre && NodeAt(n, t.at[|pre|..]).Some? &&
    WF(NodeAt(n, t.at[|pre|..]).value) &&
    (t.Matched? ==> var m := NodeAt(n, t.at[|pre|..]).value;
      m.qlen == |k| && Path(m) == k && t.hasItem == m.item.Some?) &&
    (t.Missed? ==> MissAt(NodeAt(n, t.at[|pre|..]).value, k, t.q))
  }

  /** The edge tracing follows out of a node on the path of `k` shares more than `n`'s path with it. */
  lemma EdgeFacts<A>(n: Node<A>, k: seq<Nibble>)
    requires OnPath(n, k) && n.branches[k[n.qlen]].Some?
    ensures var c := n.branches[k[n.qlen]].value;
      WF(c) && n.qlen < Lcp(Path(c), k) <= c.qlen && c.qlen <= 2 * |c.key|
  {
    var c := n.branches[k[n.qlen]].value;
    assert ChildOK(n, k[n.qlen], c);
    assert Path(c)[..n.qlen] == QbitStr(c.key)[..n.qlen];
    assert Path(c)[..n.qlen + 1] == Path(c)[..n.qlen] + [Path(c)[n.qlen]];
    assert k[..n.qlen + 1] == k[..n.qlen] + [k[n.qlen]];
    LcpAtLeast(Path(c), k, n.qlen + 1);
  }

  /** An edge that leaves the key before its end is a miss there. */
  lemma EdgeMiss<A>(n: Node<A>, k: seq<Nibble>)
    requires OnPath(n, k) && n.branches[k[n.qlen]].Some?
    requires var c := n.branches[k[n.qlen]].value;
      n.qlen < Lcp(Path(c), k) < c.qlen && c.qlen <= 2 * |c.key|
    ensures MissAt(n, k, Lcp(Path(n.branches[k[n.qlen]].value), k))
  {
    var c := n.branches[k[n.qlen]].value;
    var m := Lcp(Path(c), k);
    assert QbitStr(c.key)[..m] == Path(c)[..m];
    if m < |k| {
      assert QbitStr(c.key)[m] == Path(c)[m];
    }
  }

  /** An edge that stays on the key leads to a node on the key's path. */
  lemma EdgeDeeper<A>(n: Node<A>, k: seq<Nibble>)
    requires OnPath(n, k) && n.branches[k[n.qlen]].Some?
    requires var c := n.branches[k[n.qlen]].value;
      Lcp(Path(c), k) == c.qlen && c.qlen <= 2 * |c.key|
    ensures var c := n.branches[k[n.qlen]].value; c.qlen <= |k| && Path(c) == k[..c.qlen]
  {
  }

  /**
   * The trie holds an item with key `key` exactly when tracing `key` from
   * the root ends in a complete match at a node carrying an item; that item
   * then has the key.
   */
  lemma HasIff<A>(root: Node<A>, key: Key)
    requires WF(root) && root.qlen == 0
    ensures var t := Locate(root, [], QbitStr(key));
      Has(root, key) <==> t.Matched? && t.hasItem
    ensures var t := Locate(root, [], QbitStr(key));
      t.Matched? && t.hasItem ==>
        NodeAt(root, t.at).Some? && NodeAt(root, t.at).value.item.Some? &&
        NodeAt(root, t.at).value.item.value.key == key && NodeAt(root, t.at).value.item.value in Bag(root)
  {
    var k := QbitStr(key);
    var t := Locate(root, [], k);
    LocateSound(root, [], k);
    assert t.at[0..] == t.at;
    if t.Matched? && t.hasItem {
      var m := NodeAt(root, t.at).value;
      QbitStrInjective(m.key, key);
      NodeAtBag(root, t.at);
    }
    if Has(root, key) {
      var x :| x in Bag(root) && x.key == key;
      var at := ItemAt(root, x);
      NodeAtWF(root, at);
      LocateReaches(root, [], k, at);
    }
  }

  /** Only one node of a tree has a given path: tracing it reaches that node. */
  lemma PathUnique<A>(root: Node<A>, at1: seq<Nibble>, at2: seq<Nibble>)
    requires WF(root) && root.qlen == 0
    requires NodeAt(root, at1).Some? && NodeAt(root, at2).Some?
    requires SamePlace(NodeAt(root, at1).value, NodeAt(root, at2).value)
    ensures at1 == at2
  {
    var m := NodeAt(root, at1).value;
    NodeAtPath(root, at1);
    NodeAtPath(root, at2);
    var m2 := NodeAt(root, at2).value;
    assert Path(m2) == Path(m);
    LocateReaches(root, [], Path(m), at1);
    LocateReaches(root, [], Path(m), at2);
    assert [] + at1 == at1 && [] + at2 == at2;
  }

  /**
   * A position as `lower_bound` reports it for `key`: either the node whose
   * path is the whole key (a hit when it carries an item), or a node on the
   * key's path with the position where the key leaves the tree below it.
   */
  ghost predicate ValidPosition<A>(root: Node<A>, key: Key, pos: Position)
  {
    NodeAt(root, pos.at).Some? && WF(NodeAt(root, pos.at).value) &&
    var n := NodeAt(root, pos.at).value;
    (n.qlen == 2 * |key| && Path(n) == QbitStr(key) && pos.qlen == 2 * |key| && pos.hit == n.item.Some?) ||
    (!pos.hit && MissAt(n, QbitStr(key), pos.qlen))
  }

  /** What `lower_bound` reports is a valid position, a hit exactly when the key is present. */
  lemma LowerBoundValid<A>(root: Node<A>, key: Key)
    requires WF(root) && root.qlen == 0
    ensures var pos := SearchPosition(Locate(root, [], QbitStr(key)), |key|);
      ValidPosition(root, key, pos) && (pos.hit <==> Has(root, key))
  {
    var t := Locate(root, [], QbitStr(key));
    LocateSound(root, [], QbitStr(key));
    assert t.at[0..] == t.at;
    HasIff(root, key);
  }

  /** A node of the tree carrying an item means the tree has the item's key. */
  lemma ItemHas<A>(root: Node<A>, at: seq<Nibble>)
    requires NodeAt(root, at).Some? && NodeAt(root, at).value.item.Some?
    ensures Has(root, NodeAt(root, at).value.item.value.key)
  {
    var x := NodeAt(root, at).value.item.value;
    NodeAtBag(root, at);
    assert x in Bag(NodeAt(root, at).value);
  }
}
