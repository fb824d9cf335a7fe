/**
 * `serialise_paths` (both revisions print the same): one line per leaf
 * of the tree, in pre-order.  Each node adds to the line the hexadecimal
 * digits of its condensed path part, from the nibble its parent ended at
 * up to its own path length, and then its marker, `[v]` for a node
 * carrying the item of value `v` or `[]` for one without; every child
 * continues from that same text.  The output stream is modelled as the
 * returned list of lines.
 */
module TrieSerialise {
  import opened Keys
  import opened Paths
  import opened TrieCore

  /** The node's marker: `[v]` when it carries the item of value `v`, else `[]`. */
  function NodeMark(item: Option<KeyVal>): (m: string)
    ensures NodeShape(m) && |m| >= 2
    ensures item.Some? ==> m == Marker(item.value.value)
    ensures item.None? ==> m == "[]"
  {
    if item.Some? then Marker(item.value.value) else "[]"
  }

  /** No branch of the node is set. */
  predicate Childless<A>(n: Node<A>)
    requires |n.branches| == Fanout
  {
    forall b: Nibble :: n.branches[b].None?
  }

  /**
   * The lines printed for the subtree `n`, entered at nibble `qlen` with
   * the text `prefix` so far.
   */
  function Lines<A>(n: Node<A>, qlen: nat, prefix: string): seq<string>
    requires WF(n) && qlen <= n.qlen
    decreases n, 1
  {
    var bp := prefix + Hex(QbitStr(n.key)[qlen..n.qlen]) + NodeMark(n.item);
    if Childless(n) then [bp] else BranchLines(n, 0, bp)
  }

  /** The lines of the children on branches `b` and above, each continuing `bp`. */
  function BranchLines<A>(n: Node<A>, b: nat, bp: string): seq<string>
    requires WF(n) && b <= Fanout
    decreases n, 0, Fanout - b
  {
    if b == Fanout then []
    else (if n.branches[b].Some? then Lines(n.branches[b].value, n.qlen, bp) else []) + BranchLines(n, b + 1, bp)
  }

  /** The childless nodes of the subtree, in pre-order (branches ascending). */
  function TreeLeaves<A>(n: Node<A>): seq<Node<A>>
    requires WF(n)
    decreases n, 1
  {
    if Childless(n) then [n] else BranchLeaves(n, 0)
  }

  /** The childless nodes below branches `b` and above. */
  function BranchLeaves<A>(n: Node<A>, b: nat): seq<Node<A>>
    requires WF(n) && b <= Fanout
    decreases n, 0, Fanout - b
  {
    if b == Fanout then []
    else (if n.branches[b].Some? then TreeLeaves(n.branches[b].value) else []) + BranchLeaves(n, b + 1)
  }

  // ---------------------------------------------------------------------
  // The printing

  /**
   * The condensed part of the node's path from nibble `qlen` on: a low
   * nibble to finish an odd start, whole bytes as two digits, a high
   * nibble for an odd end.
   */
  method EdgeText<A>(n: Node<A>, qlen: nat) returns (s: string)
    requires n.qlen <= 2 * |n.key| && (qlen < n.qlen || qlen == 0)
    ensures s == Hex(QbitStr(n.key)[qlen..n.qlen])
  {
    var b := qlen / 2;
    var e := n.qlen / 2;
    s := "";
    if qlen % 2 == 1 {
      LowFirst(n.key, qlen, b);
      s := [HexDigit(Low(n.key[b]))];
      b := b + 1;
    } else {
      EmptyText(n.key, qlen, b);
    }
    s := ByteDigits(n.key, qlen, b, e, s);
    if n.qlen % 2 == 1 {
      HighLast(n.key, qlen, e);
      s := s + [HexDigit(High(n.key[e]))];
      assert n.qlen == 2 * e + 1;
    } else {
      assert n.qlen == 2 * e;
    }
  }

  /** An edge text starting on the low nibble of byte `b` starts with that digit. */
  lemma LowFirst(key: Key, qlen: nat, b: nat)
    requires qlen == 2 * b + 1 && b < |key|
    ensures [HexDigit(Low(key[b]))] == Hex(QbitStr(key)[qlen..2 * (b + 1)])
  {
    assert Hex(QbitStr(key)[qlen..qlen]) == [];
    ByteNibbles(key, b);
    HexOneAt(QbitStr(key), qlen, qlen, Low(key[b]));
  }

  /** An edge text starting on a byte boundary starts empty. */
  lemma EmptyText(key: Key, qlen: nat, b: nat)
    requires qlen == 2 * b && b <= |key|
    ensures "" == Hex(QbitStr(key)[qlen..2 * b])
  {
    assert QbitStr(key)[qlen..2 * b] == [];
  }

  /** An edge text ending on the high nibble of byte `e` ends with that digit. */
  lemma HighLast(key: Key, qlen: nat, e: nat)
    requires qlen <= 2 * e && e < |key|
    ensures Hex(QbitStr(key)[qlen..2 * e]) + [HexDigit(High(key[e]))] == Hex(QbitStr(key)[qlen..2 * e + 1])
  {
    ByteNibbles(key, e);
    HexOneAt(QbitStr(key), qlen, 2 * e, High(key[e]));
  }

  /** The loop over whole bytes `b` to `e` of `EdgeText`, each printed as two digits. */
  method ByteDigits(key: Key, qlen: nat, b: nat, e: nat, s0: string) returns (s: string)
    requires qlen <= 2 * b && b <= e <= |key| && s0 == Hex(QbitStr(key)[qlen..2 * b])
    ensures s == Hex(QbitStr(key)[qlen..2 * e])
  {
    s := s0;
    for i := b to e
      invariant s == Hex(QbitStr(key)[qlen..2 * i])
    {
      ByteNibbles(key, i);
      HexTwo(QbitStr(key), qlen, 2 * i, High(key[i]), Low(key[i]));
      s := s + [HexDigit(High(key[i])), HexDigit(Low(key[i]))];
      assert 2 * i + 2 == 2 * (i + 1);
    }
  }

  /**
   * `serialise_paths(out, iostate, nod, qlen, prefix)`: the lines of the
   * subtree, each child's lines in ascending branch order, or the node's
   * own text when it has no child.
   */
  method SerialisePaths<A>(n: Node<A>, qlen: nat, prefix: string) returns (out: seq<string>)
    requires WF(n) && (qlen < n.qlen || qlen == 0)
    ensures out == Lines(n, qlen, prefix)
    decreases n, 2
  {
    var digits := EdgeText(n, qlen);
    var bp := prefix + digits + NodeMark(n.item);
    var leaf;
    out, leaf := SerialiseBranches(n, bp);
    NoChildAll(n.branches, Fanout);
    LinesSplit(n, qlen, prefix, bp);
    if leaf {
      out := out + [bp];
    }
  }

  /**
   * The branch loop of `serialise_paths`: the lines of each child in
   * ascending branch order, and whether no child was met.
   */
  method SerialiseBranches<A>(n: Node<A>, bp: string) returns (out: seq<string>, leaf: bool)
    requires WF(n)
    ensures out == BranchLines(n, 0, bp) && (leaf <==> NoChildBelow(n.branches, Fanout))
    decreases n, 1
  {
    ghost var all := BranchLines(n, 0, bp);
    out := [];
    leaf := true;
    for i := 0 to Fanout
      invariant all == out + BranchLines(n, i, bp)
      invariant leaf <==> NoChildBelow(n.branches, i)
    {
      var child;
      out, child := SerialiseBranch(n, i, bp, out);
      if child {
        leaf := false;
      }
    }
    assert BranchLines(n, Fanout, bp) == [];
  }

  /**
   * One pass of the branch loop: the lines of the child on branch `i`, if
   * there is one, appended to `out0`.
   */
  method SerialiseBranch<A>(n: Node<A>, i: Nibble, bp: string, out0: seq<string>) returns (out: seq<string>, child: bool)
    requires WF(n)
    ensures out0 + BranchLines(n, i, bp) == out + BranchLines(n, i + 1, bp)
    ensures child <==> n.branches[i].Some?
    decreases n, 0
  {
    var sub := [];
    var br := n.branches[i];
    child := br.Some?;
    if child {
      ChildWF(n, i);
      sub := SerialisePaths(br.value, n.qlen, bp);
    }
    ChildStep(n, i, bp, sub);
    AppendAssoc(out0, sub, BranchLines(n, i + 1, bp));
    out := out0 + sub;
  }

  /** No branch below index `i` is set. */
  predicate NoChildBelow<A>(bs: seq<Option<Node<A>>>, i: nat)
    requires i <= |bs|
  {
    i == 0 || (bs[i - 1].None? && NoChildBelow(bs, i - 1))
  }

  /** `NoChildBelow` says that every branch below `i` is empty. */
  lemma {:induction false} NoChildAll<A>(bs: seq<Option<Node<A>>>, i: nat)
    requires i <= |bs|
    ensures NoChildBelow(bs, i) <==> forall j :: 0 <= j < i ==> bs[j].None?
  {
    if i > 0 {
      NoChildAll(bs, i - 1);
    }
  }

  /** A child is well formed and reaches further than its parent. */
  lemma ChildWF<A>(n: Node<A>, i: Nibble)
    requires WF(n) && n.branches[i].Some?
    ensures WF(n.branches[i].value) && n.qlen < n.branches[i].value.qlen
  {
  }

  lemma AppendAssoc<T>(a: seq<T>, b: seq<T>, c: seq<T>)
    ensures a + (b + c) == (a + b) + c
  {
  }

  /** One more branch of `BranchLines`: a child's lines, or none. */
  lemma ChildStep<A>(n: Node<A>, i: nat, bp: string, sub: seq<string>)
    requires WF(n) && i < Fanout
    requires if n.branches[i].Some? then sub == Lines(n.branches[i].value, n.qlen, bp) else sub == []
    ensures BranchLines(n, i, bp) == sub + BranchLines(n, i + 1, bp)
  {
  }

  /** A node's lines: its own text when it has no child, else its children's lines. */
  lemma LinesSplit<A>(n: Node<A>, qlen: nat, prefix: string, bp: string)
    requires WF(n) && qlen <= n.qlen && bp == prefix + Hex(QbitStr(n.key)[qlen..n.qlen]) + NodeMark(n.item)
    ensures Childless(n) ==> Lines(n, qlen, prefix) == [bp] && BranchLines(n, 0, bp) == []
    ensures !Childless(n) ==> Lines(n, qlen, prefix) == BranchLines(n, 0, bp)
  {
    if Childless(n) {
      BranchNone(n, 0, bp);
    }
  }

  /** No lines come from branches that are all empty. */
  lemma {:induction false} BranchNone<A>(n: Node<A>, b: nat, bp: string)
    requires WF(n) && b <= Fanout && forall j: Nibble :: b <= j ==> n.branches[j].None?
    ensures BranchLines(n, b, bp) == []
    decreases Fanout - b
  {
    if b < Fanout {
      BranchNone(n, b + 1, bp);
    }
  }

  /** The nibbles of byte `i` of a key. */
  lemma ByteNibbles(key: Key, i: nat)
    requires i < |key|
    ensures QbitStr(key)[2 * i] == High(key[i]) && QbitStr(key)[2 * i + 1] == Low(key[i])
  {
  }

  /** Two digits more of a hexadecimal rendering. */
  lemma HexTwo(k: seq<Nibble>, lo: nat, j: nat, x: Nibble, y: Nibble)
    requires lo <= j && j + 2 <= |k| && k[j] == x && k[j + 1] == y
    ensures Hex(k[lo..j]) + [HexDigit(x), HexDigit(y)] == Hex(k[lo..j + 2])
  {
    assert k[lo..j + 2] == k[lo..j] + [x, y];
    HexAppend(k[lo..j], [x, y]);
  }

  /** One digit more of a hexadecimal rendering, the digit given. */
  lemma HexOneAt(k: seq<Nibble>, lo: nat, j: nat, x: Nibble)
    requires lo <= j < |k| && k[j] == x
    ensures Hex(k[lo..j]) + [HexDigit(x)] == Hex(k[lo..j + 1])
  {
    assert k[lo..j + 1] == k[lo..j] + [x];
    HexAppend(k[lo..j], [x]);
  }

  /** One digit more of a hexadecimal rendering. */
  lemma HexOne(k: seq<Nibble>, lo: nat, hi: nat)
    requires lo <= hi < |k|
    ensures Hex(k[lo..hi + 1]) == Hex(k[lo..hi]) + [HexDigit(k[hi])]
  {
    assert k[lo..hi + 1] == k[lo..hi] + [k[hi]];
    HexAppend(k[lo..hi], [k[hi]]);
  }

  // ---------------------------------------------------------------------
  // What the lines say

  /**
   * The prefix a subtree is entered with starts each of its lines: the
   * lines for `p + q` are those for `q`, each behind `p`.
   */
  lemma {:induction false} LinesPrefix<A>(n: Node<A>, qlen: nat, p: string, q: string)
    requires WF(n) && qlen <= n.qlen
    ensures Lines(n, qlen, p + q) == Prefixed(p, Lines(n, qlen, q))
    decreases n, 1
  {
    var t := Hex(QbitStr(n.key)[qlen..n.qlen]) + NodeMark(n.item);
    assert p + q + Hex(QbitStr(n.key)[qlen..n.qlen]) + NodeMark(n.item) == p + (q + t);
    assert q + Hex(QbitStr(n.key)[qlen..n.qlen]) + NodeMark(n.item) == q + t;
    if !Childless(n) {
      BranchLinesPrefix(n, 0, p, q + t);
    }
  }

  /** `LinesPrefix` for the children on branches `b` and above. */
  lemma {:induction false} BranchLinesPrefix<A>(n: Node<A>, b: nat, p: string, bq: string)
    requires WF(n) && b <= Fanout
    ensures BranchLines(n, b, p + bq) == Prefixed(p, BranchLines(n, b, bq))
    decreases n, 0, Fanout - b
  {
    if b < Fanout {
      BranchLinesPrefix(n, b + 1, p, bq);
      var head := if n.branches[b].Some? then Lines(n.branches[b].value, n.qlen, bq) else [];
      if n.branches[b].Some? {
        assert ChildOK(n, b, n.branches[b].value) && WF(n.branches[b].value);
        LinesPrefix(n.branches[b].value, n.qlen, p, bq);
      }
      PrefixedAppend(p, head, BranchLines(n, b + 1, bq));
    }
  }

  lemma PrefixedAppend(p: string, a: seq<string>, b: seq<string>)
    ensures Prefixed(p, a + b) == Prefixed(p, a) + Prefixed(p, b)
  {
  }

  /**
   * Line `line` was printed for the childless node `v` of a subtree
   * entered at nibble `qlen`: its digits are the nibbles of `v`'s path
   * from `qlen` on, and it ends with `v`'s marker.
   */
  ghost predicate Spelled<A>(line: string, v: Node<A>, qlen: nat)
  {
    qlen <= v.qlen <= 2 * |v.key| && StripMarkers(line) == Hex(QbitStr(v.key)[qlen..v.qlen]) &&
    EndsWith(line, NodeMark(v.item))
  }

  /** `v` lies below `n`: its path extends `n`'s. */
  ghost predicate Below<A>(n: Node<A>, v: Node<A>)
  {
    n.qlen <= v.qlen <= 2 * |v.key| && n.qlen <= 2 * |n.key| &&
    QbitStr(v.key)[..n.qlen] == QbitStr(n.key)[..n.qlen]
  }

  /** An item a node carries has the node's key, which it spells in full. */
  ghost predicate Keyed<A>(v: Node<A>)
  {
    v.item.Some? ==> v.item.value.key == v.key && v.qlen == 2 * |v.key|
  }

  /** Line `line` belongs to `v`, a childless node below `n`. */
  ghost predicate LineOf<A>(line: string, v: Node<A>, n: Node<A>, qlen: nat)
  {
    Spelled(line, v, qlen) && Below(n, v) && Keyed(v)
  }

  /** Line `k` belongs to leaf `k`, for every `k`. */
  ghost predicate LinesOf<A>(ls: seq<string>, vs: seq<Node<A>>, n: Node<A>, qlen: nat)
  {
    |ls| == |vs| && forall k | 0 <= k < |ls| :: LineOf(ls[k], vs[k], n, qlen)
  }

  /**
   * `serialise_paths` prints one line per childless node, in pre-order;
   * each line spells that node's path below `qlen` and ends with its
   * marker.
   */
  lemma {:induction false} LinesSpell<A>(n: Node<A>, qlen: nat)
    requires WF(n) && qlen <= n.qlen
    ensures LinesOf(Lines(n, qlen, ""), TreeLeaves(n), n, qlen)
    decreases n, 1
  {
    if Childless(n) {
      LeafSpell(n, qlen);
    } else {
      BranchSpell(n, 0);
      ForkSpell(n, qlen);
    }
  }

  /** A childless node's one line spells its own path and ends with its marker. */
  lemma LeafSpell<A>(n: Node<A>, qlen: nat)
    requires WF(n) && qlen <= n.qlen && Childless(n)
    ensures LinesOf(Lines(n, qlen, ""), TreeLeaves(n), n, qlen)
  {
    var h := Hex(QbitStr(n.key)[qlen..n.qlen]);
    var m := NodeMark(n.item);
    assert "" + h + m == h + m;
    assert Lines(n, qlen, "") == [h + m];
    OwnLine(h, m);
    assert LineOf(h + m, n, n, qlen);
  }

  /** Digits followed by a marker: deleting the marker leaves the digits. */
  lemma OwnLine(h: string, m: string)
    requires NodeShape(m) && forall j :: 0 <= j < |h| ==> h[j] != '['
    ensures StripMarkers(h + m) == h && EndsWith(h + m, m)
  {
    StripHex(h, m);
    StripNode(m, "");
    assert m + "" == m && h + "" == h;
    assert (h + m)[|h|..] == m;
  }

  /** The lines of a node with children: its text in front of each child line. */
  lemma ForkSpell<A>(n: Node<A>, qlen: nat)
    requires WF(n) && qlen <= n.qlen && !Childless(n)
    requires LinesOf(BranchLines(n, 0, ""), BranchLeaves(n, 0), n, n.qlen)
    ensures LinesOf(Lines(n, qlen, ""), TreeLeaves(n), n, qlen)
  {
    var h := Hex(QbitStr(n.key)[qlen..n.qlen]);
    var m := NodeMark(n.item);
    assert "" + h + m == h + m;
    var sub := BranchLines(n, 0, "");
    LinesPrefixAt(n, 0, h + m);
    var ls := Lines(n, qlen, "");
    var vs := TreeLeaves(n);
    assert ls == Prefixed(h + m, sub) && vs == BranchLeaves(n, 0);
    forall k | 0 <= k < |ls|
      ensures LineOf(ls[k], vs[k], n, qlen)
    {
      SpellStep(n, qlen, sub[k], vs[k]);
    }
  }

  /** `BranchLines` behind a prefix, from the empty one. */
  lemma LinesPrefixAt<A>(n: Node<A>, b: nat, bp: string)
    requires WF(n) && b <= Fanout
    ensures BranchLines(n, b, bp) == Prefixed(bp, BranchLines(n, b, ""))
  {
    BranchLinesPrefix(n, b, bp, "");
    assert bp + "" == bp;
  }

  /** The lines of the children on branches `b` and above belong to their leaves. */
  lemma {:induction false} BranchSpell<A>(n: Node<A>, b: nat)
    requires WF(n) && b <= Fanout
    ensures LinesOf(BranchLines(n, b, ""), BranchLeaves(n, b), n, n.qlen)
    decreases n, 0, Fanout - b
  {
    if b < Fanout {
      BranchSpell(n, b + 1);
      if n.branches[b].Some? {
        var c := n.branches[b].value;
        assert ChildOK(n, b, c) && WF(c);
        LinesSpell(c, n.qlen);
        ChildLines(n, c);
        LinesOfAppend(Lines(c, n.qlen, ""), TreeLeaves(c), BranchLines(n, b + 1, ""), BranchLeaves(n, b + 1), n, n.qlen);
      } else {
        assert BranchLines(n, b, "") == BranchLines(n, b + 1, "");
        assert BranchLeaves(n, b) == BranchLeaves(n, b + 1);
      }
    }
  }

  /** A child's lines, which belong to it, belong to its parent too. */
  lemma ChildLines<A>(n: Node<A>, c: Node<A>)
    requires n.qlen <= 2 * |n.key| && n.qlen < c.qlen <= 2 * |c.key| && QbitStr(c.key)[..n.qlen] == QbitStr(n.key)[..n.qlen]
    requires WF(c) && LinesOf(Lines(c, n.qlen, ""), TreeLeaves(c), c, n.qlen)
    ensures LinesOf(Lines(c, n.qlen, ""), TreeLeaves(c), n, n.qlen)
  {
    var vs := TreeLeaves(c);
    forall k | 0 <= k < |vs|
      ensures Below(n, vs[k])
    {
      var kv := QbitStr(vs[k].key);
      assert Below(c, vs[k]);
      assert kv[..n.qlen] == kv[..c.qlen][..n.qlen];
    }
  }

  lemma LinesOfAppend<A>(l1: seq<string>, v1: seq<Node<A>>, l2: seq<string>, v2: seq<Node<A>>, n: Node<A>, qlen: nat)
    requires LinesOf(l1, v1, n, qlen) && LinesOf(l2, v2, n, qlen)
    ensures LinesOf(l1 + l2, v1 + v2, n, qlen)
  {
    forall k | 0 <= k < |l1 + l2|
      ensures Spelled((l1 + l2)[k], (v1 + v2)[k], qlen) && Below(n, (v1 + v2)[k])
    {
      if k < |l1| {
        assert (l1 + l2)[k] == l1[k] && (v1 + v2)[k] == v1[k];
      } else {
        assert (l1 + l2)[k] == l2[k - |l1|] && (v1 + v2)[k] == v2[k - |l1|];
      }
    }
  }

  /** A node's digits and marker in front of a child's line extend what it spells. */
  lemma SpellStep<A>(n: Node<A>, qlen: nat, t: string, v: Node<A>)
    requires qlen <= n.qlen && LineOf(t, v, n, n.qlen)
    ensures LineOf(Hex(QbitStr(n.key)[qlen..n.qlen]) + NodeMark(n.item) + t, v, n, qlen)
  {
    var k, kv := QbitStr(n.key), QbitStr(v.key);
    MarkedStrip(Hex(k[qlen..n.qlen]), NodeMark(n.item), t, NodeMark(v.item));
    HexJoin(k, kv, qlen, n.qlen, v.qlen);
  }

  /** Digits and a marker in front of a line: marker deletion keeps the digits, the line's end stays. */
  lemma MarkedStrip(h: string, m: string, t: string, e: string)
    requires NodeShape(m) && (forall j :: 0 <= j < |h| ==> h[j] != '[') && EndsWith(t, e)
    ensures StripMarkers(h + m + t) == h + StripMarkers(t) && EndsWith(h + m + t, e)
  {
    assert h + m + t == h + (m + t);
    StripHex(h, m + t);
    StripNode(m, t);
    EndsWithExtend(h + m, t, e);
  }

  /** The digits of a node's edge followed by those of a path below it. */
  lemma HexJoin(k: seq<Nibble>, kv: seq<Nibble>, qlen: nat, lo: nat, hi: nat)
    requires qlen <= lo <= hi <= |kv| && lo <= |k| && kv[..lo] == k[..lo]
    ensures Hex(k[qlen..lo]) + Hex(kv[lo..hi]) == Hex(kv[qlen..hi])
  {
    assert k[qlen..lo] == kv[..lo][qlen..] == kv[qlen..lo];
    assert kv[qlen..hi] == kv[qlen..lo] + kv[lo..hi];
    HexAppend(kv[qlen..lo], kv[lo..hi]);
  }

  /** Hexadecimal digits pass through marker deletion. */
  lemma {:induction false} StripHex(h: string, rest: string)
    requires forall j :: 0 <= j < |h| ==> h[j] != '['
    ensures StripMarkers(h + rest) == h + StripMarkers(rest)
  {
    if h != [] {
      assert h + rest == [h[0]] + (h[1..] + rest);
      StripDigit(h[0], h[1..] + rest);
      StripHex(h[1..], rest);
      assert h == [h[0]] + h[1..];
    } else {
      assert h + rest == rest;
    }
  }

  /**
   * Serialising the whole trie: every line of a childless node carrying
   * an item is the path the reference oracle gives that item (its key's
   * digits once the markers are deleted, ending with the item's value).
   */
  lemma SerialiseMatchesOracle<A>(root: Node<A>)
    requires WF(root) && root.qlen == 0
    ensures var ls := Lines(root, 0, "");
      var vs := TreeLeaves(root);
      |ls| == |vs| &&
      forall k | 0 <= k < |ls| && vs[k].item.Some? ::
        PathOf(ls[k], Entry(QbitStr(vs[k].item.value.key), vs[k].item.value.value), 0)
  {
    LinesSpell(root, 0);
    var ls := Lines(root, 0, "");
    var vs := TreeLeaves(root);
    forall k | 0 <= k < |ls| && vs[k].item.Some?
      ensures PathOf(ls[k], Entry(QbitStr(vs[k].item.value.key), vs[k].item.value.value), 0)
    {
      assert LineOf(ls[k], vs[k], root, 0);
      var kv := QbitStr(vs[k].key);
      assert kv[0..vs[k].qlen] == kv[0..];
    }
  }
}
