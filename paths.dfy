/**
 * The reference oracle of the unit tests (unit_test/paths.py): from a list
 * of (key, value) pairs it computes the list of root-to-leaf trie paths the
 * C++ serialiser is expected to print.
 *
 * A path spells the nibbles of a leaf's key in hexadecimal, one digit per
 * trie edge, interleaved with node markers: `[v]` marks a node carrying the
 * value `v`, `[]` a branching node without a value (and the root).
 *
 * Python raises `IndexError` when the input is not sorted and free of
 * duplicates (it indexes a nibble past the end of a key); the model returns
 * that as an outcome instead of excluding such input.
 */
module Paths {
  import opened Keys

  /** One `(qkey, value)` tuple: a key as a nibble string and its value. */
  datatype Entry = Entry(qkey: seq<Nibble>, value: nat)

  /** What a call returns: a list of paths, or the `IndexError` it raises. */
  datatype Outcome = Paths(paths: seq<string>) | IndexError

  /** The marker of a node carrying `v`: `"[" + str(v) + "]"`. */
  function Marker(v: nat): (m: string)
    ensures |m| >= 3 && m[0] == '[' && m[|m| - 1] == ']'
    ensures forall j :: 0 < j < |m| - 1 ==> m[j] != '[' && m[j] != ']'
  {
    "[" + NatToString(v) + "]"
  }

  /** `map(lambda path: pre + path, ps)` */
  function Prefixed(pre: string, ps: seq<string>): (r: seq<string>)
    ensures |r| == |ps|
    ensures forall k :: 0 <= k < |ps| ==> r[k] == pre + ps[k]
  {
    seq(|ps|, k requires 0 <= k < |ps| => pre + ps[k])
  }

  // ---------------------------------------------------------------------
  // The recursion of `_build_paths`

  /**
   * A measure that every recursive call of `_build_paths` decreases: each
   * tuple of the range weighs one plus the number of its nibbles at or
   * beyond `index`.
   */
  function Weight(es: seq<Entry>, index: nat, begin: nat, end: nat): nat
    requires begin <= end <= |es|
    decreases end - begin
  {
    if begin == end then 0
    else 1 + (if |es[begin].qkey| > index then |es[begin].qkey| - index else 0)
         + Weight(es, index, begin + 1, end)
  }

  lemma {:induction false} WeightSplit(es: seq<Entry>, index: nat, begin: nat, mid: nat, end: nat)
    requires begin <= mid <= end <= |es|
    ensures Weight(es, index, begin, end) == Weight(es, index, begin, mid) + Weight(es, index, mid, end)
    ensures mid < end ==> Weight(es, index, mid, end) > 0
    decreases mid - begin
  {
    if begin < mid {
      WeightSplit(es, index, begin + 1, mid, end);
    }
  }

  lemma {:induction false} WeightDeeper(es: seq<Entry>, index: nat, begin: nat, end: nat)
    requires begin <= end <= |es|
    ensures Weight(es, index + 1, begin, end) <= Weight(es, index, begin, end)
    ensures begin < end && index < |es[begin].qkey| ==>
              Weight(es, index + 1, begin, end) < Weight(es, index, begin, end)
    decreases end - begin
  {
    if begin < end {
      WeightDeeper(es, index, begin + 1, end);
    }
  }

  /**
   * `_build_paths(es, index, begin, end, node)` (paths.py:34-65): if the key
   * at `begin` is exhausted, it names a value node and is consumed; the rest
   * of the range is split into runs of equal nibbles at `index` by `Scan`.
   */
  function Build(es: seq<Entry>, index: nat, begin: nat, end: nat, node: string): Outcome
    requires begin < end <= |es|
    decreases Weight(es, index, begin, end), 1, 0
  {
    if !(index < |es[begin].qkey|) then
      Scan(es, index, begin, begin + 1, begin + 2, end, Marker(es[begin].value), [])
    else
      Scan(es, index, begin, begin, begin + 1, end, node, [])
  }

  /**
   * The loop `for i in xrange(begin + 1, end)` of `_build_paths` and what
   * follows it, from the state where the current run starts at `start`,
   * `i` is the next index to look at, the node marker is `node` and the
   * paths produced so far are `acc`.  `begin0` is the `begin` the call
   * started with.
   *
   * Evaluation order follows Python's: the comparison reads the nibble of
   * `i` first, then the one of `start`; for the last run the recursive
   * call happens before the nibble of `start` is read for the prefix.
   */
  function Scan(es: seq<Entry>, index: nat, begin0: nat, start: nat, i: nat, end: nat,
                node: string, acc: seq<string>): Outcome
    requires begin0 <= start <= end <= |es| && start < i && (i <= end || start == end)
    requires begin0 < start || (start < end && index < |es[begin0].qkey|)
    decreases Weight(es, index, begin0, end), 0, end + 1 - i
  {
    if i < end then
      if !(index < |es[i].qkey|) || !(index < |es[start].qkey|) then IndexError
      else if es[i].qkey[index] != es[start].qkey[index] then
        var node' := if |node| == 0 then "[]" else node;
        WeightSplit(es, index, begin0, start, end);
        WeightSplit(es, index, start, i, end);
        WeightDeeper(es, index, start, i);
        match Build(es, index + 1, start, i, "")
        case IndexError => IndexError
        case Paths(sub) =>
          Scan(es, index, begin0, i, i + 1, end, node',
               acc + Prefixed(node' + [HexDigit(es[start].qkey[index])], sub))
      else
        Scan(es, index, begin0, start, i + 1, end, node, acc)
    else if start < end then
      WeightSplit(es, index, begin0, start, end);
      WeightDeeper(es, index, start, end);
      match Build(es, index + 1, start, end, "")
      case IndexError => IndexError
      case Paths(sub) =>
        if !(index < |es[start].qkey|) then IndexError
        else Paths(acc + Prefixed(node + [HexDigit(es[start].qkey[index])], sub))
    else
      Paths(acc + [node])
  }

  /**
   * `_build_paths` as the Python code runs it: the divide-and-conquer loop
   * over the range, recursing into every run of equal nibbles.
   */
  method BuildPathsFrom(es: seq<Entry>, index: nat, begin: nat, end: nat, node: string)
    returns (r: Outcome)
    requires begin < end <= |es|
    ensures r == Build(es, index, begin, end, node)
    decreases Weight(es, index, begin, end), 1
  {
    ghost var target := Build(es, index, begin, end, node);
    var paths: seq<string> := [];
    var b, n := begin, node;
    // An exhausted key names a value node.
    if !(index < |es[b].qkey|) {
      n := Marker(es[b].value);
      b := b + 1;
    }
    var i := b + 1;
    assert target == Scan(es, index, begin, b, i, end, n, paths);
    while i < end
      invariant begin <= b <= end && b < i && (i <= end || b == end)
      invariant begin < b || (b < end && index < |es[begin].qkey|)
      invariant target == Scan(es, index, begin, b, i, end, n, paths)
      decreases end - i
    {
      if !(index < |es[i].qkey|) || !(index < |es[b].qkey|) {
        return IndexError;
      }
      if es[i].qkey[index] != es[b].qkey[index] {
        WeightSplit(es, index, begin, b, end);
        WeightSplit(es, index, b, i, end);
        WeightDeeper(es, index, b, i);
        var sub := BuildPathsFrom(es, index + 1, b, i, "");
        if sub.IndexError? {
          return IndexError;
        }
        ScanStep(es, index, begin, b, i, end, n, paths);
        if |n| == 0 {
          n := "[]";
        }
        paths := paths + Prefixed(n + [HexDigit(es[b].qkey[index])], sub.paths);
        b := i;
      } else {
        ScanSame(es, index, begin, b, i, end, n, paths);
      }
      i := i + 1;
    }
    r := LastRun(es, index, begin, b, i, end, n, paths);
  }

  /** What `_build_paths` does after its loop: the last run, or the lone value node. */
  method LastRun(es: seq<Entry>, index: nat, begin: nat, b: nat, i: nat, end: nat, n: string, paths: seq<string>)
    returns (r: Outcome)
    requires begin <= b <= end <= |es| && b < i && end <= i && (i <= end || b == end)
    requires begin < b || (b < end && index < |es[begin].qkey|)
    ensures r == Scan(es, index, begin, b, i, end, n, paths)
    decreases Weight(es, index, begin, end), 0
  {
    if b < end {
      WeightSplit(es, index, begin, b, end);
      WeightDeeper(es, index, b, end);
      var sub := BuildPathsFrom(es, index + 1, b, end, "");
      if sub.IndexError? || !(index < |es[b].qkey|) {
        return IndexError;
      }
      r := Paths(paths + Prefixed(n + [HexDigit(es[b].qkey[index])], sub.paths));
    } else {
      r := Paths(paths + [n]);
    }
  }

  /** `build_paths` (paths.py:69-72): the root is shown as `[]`. */
  function BuildPaths(es: seq<Entry>): (r: Outcome)
  {
    if |es| == 0 then Paths(["[]"]) else Build(es, 0, 0, |es|, "[]")
  }

  // ---------------------------------------------------------------------
  // Keys to nibble strings, sorting, entry points

  /**
   * `str2qbit_str` (paths.py:13-20): the nibbles of every character, the
   * high one first.
   */
  method StrToQbitStr(s: Key) returns (qstr: seq<Nibble>)
    ensures qstr == QbitStr(s)
  {
    qstr := [];
    for i := 0 to |s|
      invariant qstr == QbitStr(s[..i])
    {
      assert s[..i + 1] == s[..i] + [s[i]];
      QbitStrAppend(s[..i], [s[i]]);
      qstr := qstr + [High(s[i]), Low(s[i])];
    }
    assert s[..|s|] == s;
  }

  // ---------------------------------------------------------------------
  // Well-formed input and what the paths mean

  /** The entries of `[begin, end)` all extend the first `index` nibbles of the first one. */
  ghost predicate SharePrefix(es: seq<Entry>, index: nat, begin: nat, end: nat)
    requires begin <= end <= |es|
  {
    forall j | begin <= j < end ::
      index <= |es[j].qkey| && index <= |es[begin].qkey| && es[j].qkey[..index] == es[begin].qkey[..index]
  }

  /** Strictly ascending keys: sorted and free of duplicates. */
  ghost predicate Ascending(es: seq<Entry>, begin: nat, end: nat)
    requires begin <= end <= |es|
  {
    forall j, k {:trigger NibblesLess(es[j].qkey, es[k].qkey)} | begin <= j < k < end :: NibblesLess(es[j].qkey, es[k].qkey)
  }

  predicate StrictPrefix(a: seq<Nibble>, b: seq<Nibble>)
  {
    |a| < |b| && a == b[..|a|]
  }

  /** Entry `j` is a leaf of `[begin, end)`: no other key of the range extends it. */
  ghost predicate IsLeaf(es: seq<Entry>, begin: nat, end: nat, j: nat)
    requires begin <= j < end <= |es|
  {
    forall k {:trigger StrictPrefix(es[j].qkey, es[k].qkey)} | begin <= k < end :: !StrictPrefix(es[j].qkey, es[k].qkey)
  }

  /** The leaves of `[begin, end)` at or after `from`, in input order. */
  ghost function LeavesFrom(es: seq<Entry>, begin: nat, end: nat, from: nat): seq<Entry>
    requires begin <= from <= end <= |es|
    decreases end - from
  {
    if from == end then []
    else (if IsLeaf(es, begin, end, from) then [es[from]] else []) + LeavesFrom(es, begin, end, from + 1)
  }

  ghost function Leaves(es: seq<Entry>, begin: nat, end: nat): seq<Entry>
    requires begin <= end <= |es|
  {
    LeavesFrom(es, begin, end, begin)
  }

  /** The rest of `s` after its first `]`. */
  function AfterClose(s: string): (r: string)
    ensures |r| <= |s|
  {
    if s == [] then []
    else if s[0] == ']' then s[1..]
    else AfterClose(s[1..])
  }

  /** A path with every node marker `[...]` deleted: the hexadecimal digits of its edges. */
  function StripMarkers(s: string): string
    decreases |s|
  {
    if s == [] then []
    else if s[0] == '[' then StripMarkers(AfterClose(s[1..]))
    else [s[0]] + StripMarkers(s[1..])
  }

  /** A node indication: nothing, `[]` or `[v]`. */
  predicate NodeShape(node: string)
  {
    node == "" ||
    (|node| >= 2 && node[0] == '[' && node[|node| - 1] == ']' &&
     forall j :: 0 < j < |node| - 1 ==> node[j] != ']')
  }

  predicate EndsWith(p: string, m: string)
  {
    |m| <= |p| && p[|p| - |m|..] == m
  }

  /**
   * `p` is the path of leaf `e` below nibble `index`: deleting the markers
   * leaves the hexadecimal digits of the rest of its key, and the path ends
   * with the marker of its value.
   */
  ghost predicate PathOf(p: string, e: Entry, index: nat)
  {
    index <= |e.qkey| && StripMarkers(p) == Hex(e.qkey[index..]) && EndsWith(p, Marker(e.value))
  }

  /** Path `k` is the path of leaf `k`, for every `k`. */
  ghost predicate Matches(ps: seq<string>, ls: seq<Entry>, index: nat)
  {
    |ps| == |ls| && forall k {:trigger ps[k], ls[k]} | 0 <= k < |ps| :: PathOf(ps[k], ls[k], index)
  }

  // ---------------------------------------------------------------------
  // Lemmas about markers

  lemma {:induction false} AfterCloseSkips(inner: string, rest: string)
    requires forall j :: 0 <= j < |inner| ==> inner[j] != ']'
    ensures AfterClose(inner + "]" + rest) == rest
  {
    if inner == [] {
      assert inner + "]" + rest == "]" + rest;
    } else {
      assert (inner + "]" + rest)[1..] == inner[1..] + "]" + rest;
      AfterCloseSkips(inner[1..], rest);
    }
  }

  lemma StripNode(node: string, rest: string)
    requires NodeShape(node)
    ensures StripMarkers(node + rest) == StripMarkers(rest)
  {
    if node != "" {
      var inner := node[1..|node| - 1];
      assert (node + rest)[1..] == inner + "]" + rest;
      forall j | 0 <= j < |inner| ensures inner[j] != ']' {
        assert inner[j] == node[j + 1];
      }
      AfterCloseSkips(inner, rest);
    } else {
      assert node + rest == rest;
    }
  }

  lemma StripDigit(c: char, rest: string)
    requires c != '['
    ensures StripMarkers([c] + rest) == [c] + StripMarkers(rest)
  {
    assert ([c] + rest)[1..] == rest;
  }

  lemma MatchesAppend(p1: seq<string>, l1: seq<Entry>, p2: seq<string>, l2: seq<Entry>, index: nat)
    requires Matches(p1, l1, index) && Matches(p2, l2, index)
    ensures Matches(p1 + p2, l1 + l2, index)
  {
    forall k | 0 <= k < |p1 + p2| ensures PathOf((p1 + p2)[k], (l1 + l2)[k], index) {
      if k < |p1| {
        assert (p1 + p2)[k] == p1[k] && (l1 + l2)[k] == l1[k];
      } else {
        assert (p1 + p2)[k] == p2[k - |p1|] && (l1 + l2)[k] == l2[k - |p1|];
      }
    }
  }

  /** Prefixing the paths of a child with the node marker and the edge digit. */
  lemma MatchesPrefixed(node: string, d: Nibble, sub: seq<string>, ls: seq<Entry>, index: nat)
    requires NodeShape(node)
    requires Matches(sub, ls, index + 1)
    requires forall e | e in ls :: index < |e.qkey| && e.qkey[index] == d
    ensures Matches(Prefixed(node + [HexDigit(d)], sub), ls, index)
  {
    var ps := Prefixed(node + [HexDigit(d)], sub);
    forall k | 0 <= k < |ps| ensures PathOf(ps[k], ls[k], index) {
      assert ls[k] in ls;
      PrefixedPathOf(node, d, sub[k], ls[k], index);
    }
  }

  /** One path of `MatchesPrefixed`. */
  lemma PrefixedPathOf(node: string, d: Nibble, q: string, e: Entry, index: nat)
    requires NodeShape(node) && PathOf(q, e, index + 1) && index < |e.qkey| && e.qkey[index] == d
    ensures PathOf(node + [HexDigit(d)] + q, e, index)
  {
    var c, rest := HexDigit(d), e.qkey[index + 1..];
    PrefixedStrip(node, c, q);
    assert e.qkey[index..] == [d] + rest;
    HexCons(d, rest);
    EndsWithExtend(node + [c], q, Marker(e.value));
  }

  lemma PrefixedStrip(node: string, c: char, q: string)
    requires NodeShape(node) && c != '['
    ensures StripMarkers(node + [c] + q) == [c] + StripMarkers(q)
  {
    assert node + [c] + q == node + ([c] + q);
    StripNode(node, [c] + q);
    StripDigit(c, q);
  }

  lemma HexCons(d: Nibble, rest: seq<Nibble>)
    ensures Hex([d] + rest) == [HexDigit(d)] + Hex(rest)
  {
    assert ([d] + rest)[1..] == rest;
  }

  lemma EndsWithExtend(pre: string, q: string, m: string)
    requires EndsWith(q, m)
    ensures EndsWith(pre + q, m)
  {
    var p := pre + q;
    assert p[|p| - |m|..] == q[|q| - |m|..];
  }

  // ---------------------------------------------------------------------
  // Lemmas about leaves

  /** Whatever holds of every entry of `[from, end)` holds of its leaves. */
  lemma {:induction false} LeavesKeep(es: seq<Entry>, begin: nat, end: nat, from: nat, P: Entry -> bool)
    requires begin <= from <= end <= |es|
    requires forall j | from <= j < end :: P(es[j])
    ensures forall e | e in LeavesFrom(es, begin, end, from) :: P(e)
    decreases end - from
  {
    if from < end {
      LeavesKeep(es, begin, end, from + 1, P);
    }
  }

  /** A key later in an ascending range never extends an earlier one's... the other way round. */
  lemma NoExtensionBackwards(es: seq<Entry>, begin: nat, end: nat, j: nat, k: nat)
    requires begin <= k < j < end <= |es| && Ascending(es, begin, end)
    ensures !StrictPrefix(es[j].qkey, es[k].qkey)
  {
    if StrictPrefix(es[j].qkey, es[k].qkey) {
      PrefixIsLess(es[j].qkey, es[k].qkey);
      NibblesLessTransitive(es[k].qkey, es[j].qkey, es[k].qkey);
      NibblesLessIrreflexive(es[k].qkey);
    }
  }

  /** Leaves at or after `mid` do not depend on entries before `mid`. */
  lemma {:induction false} LeavesFromTail(es: seq<Entry>, begin: nat, mid: nat, end: nat, from: nat)
    requires begin <= mid <= from <= end <= |es| && Ascending(es, begin, end)
    ensures LeavesFrom(es, begin, end, from) == LeavesFrom(es, mid, end, from)
    decreases end - from
  {
    if from < end {
      LeavesFromTail(es, begin, mid, end, from + 1);
      LeavesFromTailStep(es, begin, mid, end, from);
    }
  }

  lemma LeavesFromTailStep(es: seq<Entry>, begin: nat, mid: nat, end: nat, from: nat)
    requires begin <= mid <= from < end <= |es| && Ascending(es, begin, end)
    requires LeavesFrom(es, begin, end, from + 1) == LeavesFrom(es, mid, end, from + 1)
    ensures LeavesFrom(es, begin, end, from) == LeavesFrom(es, mid, end, from)
  {
    IsLeafTail(es, begin, mid, end, from);
  }

  /** Whether `from` is a leaf does not depend on the entries before it. */
  lemma IsLeafTail(es: seq<Entry>, begin: nat, mid: nat, end: nat, from: nat)
    requires begin <= mid <= from < end <= |es| && Ascending(es, begin, end)
    ensures IsLeaf(es, begin, end, from) == IsLeaf(es, mid, end, from)
  {
    forall k | begin <= k < mid ensures !StrictPrefix(es[from].qkey, es[k].qkey) {
      NoExtensionBackwards(es, begin, end, from, k);
    }
  }

  /** No key of `[begin, mid)` is extended by a key of `[mid, end)`. */
  ghost predicate Closed(es: seq<Entry>, begin: nat, mid: nat, end: nat)
    requires begin <= mid <= end <= |es|
  {
    forall j, k {:trigger StrictPrefix(es[j].qkey, es[k].qkey)} | begin <= j < mid <= k < end :: !StrictPrefix(es[j].qkey, es[k].qkey)
  }

  lemma LeafBeforeCut(es: seq<Entry>, begin: nat, mid: nat, end: nat, j: nat)
    requires begin <= j < mid <= end <= |es| && Closed(es, begin, mid, end)
    ensures IsLeaf(es, begin, end, j) == IsLeaf(es, begin, mid, j)
  {
    if IsLeaf(es, begin, mid, j) {
      forall k | begin <= k < end ensures !StrictPrefix(es[j].qkey, es[k].qkey) {
        if k < mid {
          assert !StrictPrefix(es[j].qkey, es[k].qkey);
        }
      }
    }
  }

  lemma {:induction false} LeavesFromSplit(es: seq<Entry>, begin: nat, mid: nat, end: nat, from: nat)
    requires begin <= from <= mid <= end <= |es|
    requires Ascending(es, begin, end) && Closed(es, begin, mid, end)
    ensures LeavesFrom(es, begin, end, from) == LeavesFrom(es, begin, mid, from) + LeavesFrom(es, mid, end, mid)
    decreases mid - from
  {
    if from < mid {
      LeavesFromSplit(es, begin, mid, end, from + 1);
      LeavesFromSplitStep(es, begin, mid, end, from);
    } else {
      LeavesFromTail(es, begin, mid, end, from);
    }
  }

  lemma LeavesFromSplitStep(es: seq<Entry>, begin: nat, mid: nat, end: nat, from: nat)
    requires begin <= from < mid <= end <= |es| && Closed(es, begin, mid, end)
    requires LeavesFrom(es, begin, end, from + 1) == LeavesFrom(es, begin, mid, from + 1) + LeavesFrom(es, mid, end, mid)
    ensures LeavesFrom(es, begin, end, from) == LeavesFrom(es, begin, mid, from) + LeavesFrom(es, mid, end, mid)
  {
    LeafBeforeCut(es, begin, mid, end, from);
    var h := if IsLeaf(es, begin, end, from) then [es[from]] else [];
    var rest := LeavesFrom(es, mid, end, mid);
    assert LeavesFrom(es, begin, end, from) == h + LeavesFrom(es, begin, end, from + 1);
    assert LeavesFrom(es, begin, mid, from) == h + LeavesFrom(es, begin, mid, from + 1);
    assert h + (LeavesFrom(es, begin, mid, from + 1) + rest) == (h + LeavesFrom(es, begin, mid, from + 1)) + rest;
  }

  // ---------------------------------------------------------------------
  // Shape of a well-formed range

  /** An exhausted first key is a strict prefix of every other key of the range. */
  lemma ExhaustedFirst(es: seq<Entry>, index: nat, begin: nat, end: nat)
    requires begin < end <= |es| && SharePrefix(es, index, begin, end) && Ascending(es, begin, end)
    requires |es[begin].qkey| <= index
    ensures forall j | begin < j < end :: index < |es[j].qkey| && StrictPrefix(es[begin].qkey, es[j].qkey)
  {
    forall j | begin < j < end ensures index < |es[j].qkey| && StrictPrefix(es[begin].qkey, es[j].qkey) {
      assert es[begin].qkey[..index] == es[begin].qkey;
      if |es[j].qkey| == index {
        assert es[j].qkey == es[j].qkey[..index];
        NibblesLessIrreflexive(es[j].qkey);
      }
    }
  }

  /** If the first key goes on past `index`, so do all keys of the range. */
  lemma LongFirst(es: seq<Entry>, index: nat, begin: nat, end: nat)
    requires begin < end <= |es| && SharePrefix(es, index, begin, end) && Ascending(es, begin, end)
    requires index < |es[begin].qkey|
    ensures forall j | begin <= j < end :: index < |es[j].qkey|
  {
    forall j | begin < j < end ensures index < |es[j].qkey| {
      if |es[j].qkey| == index {
        assert es[j].qkey == es[j].qkey[..index];
        PrefixIsLess(es[j].qkey, es[begin].qkey);
        NibblesLessTransitive(es[begin].qkey, es[j].qkey, es[begin].qkey);
        NibblesLessIrreflexive(es[begin].qkey);
      }
    }
  }

  /** A run of equal nibbles at `index` is a well-formed range one nibble deeper. */
  lemma RunShape(es: seq<Entry>, index: nat, begin0: nat, start: nat, i: nat, end: nat)
    requires begin0 <= start < i <= end <= |es|
    requires SharePrefix(es, index, begin0, end) && Ascending(es, begin0, end)
    requires forall j | start <= j < end :: index < |es[j].qkey|
    requires forall j | start <= j < i :: es[j].qkey[index] == es[start].qkey[index]
    ensures SharePrefix(es, index + 1, start, i) && Ascending(es, start, i)
  {
    forall j | start <= j < i ensures es[j].qkey[..index + 1] == es[start].qkey[..index + 1] {
      assert es[j].qkey[..index + 1] == es[j].qkey[..index] + [es[j].qkey[index]];
      assert es[start].qkey[..index + 1] == es[start].qkey[..index] + [es[start].qkey[index]];
    }
  }

  /** Where the nibble at `index` changes, no key before the change extends into the rest. */
  lemma RunClosed(es: seq<Entry>, index: nat, begin0: nat, start: nat, i: nat, end: nat)
    requires begin0 <= start < i < end <= |es|
    requires SharePrefix(es, index, begin0, end) && Ascending(es, begin0, end)
    requires forall j | start <= j < end :: index < |es[j].qkey|
    requires forall j | start <= j < i :: es[j].qkey[index] == es[start].qkey[index]
    requires es[i].qkey[index] != es[start].qkey[index]
    ensures Closed(es, start, i, end)
  {
    LessDigitAtCommonPrefix(es[i - 1].qkey, es[i].qkey, index);
    forall j, k | start <= j < i <= k < end ensures !StrictPrefix(es[j].qkey, es[k].qkey) {
      if k > i {
        LessDigitAtCommonPrefix(es[i].qkey, es[k].qkey, index);
      }
    }
  }

  lemma LeavesSingle(es: seq<Entry>, b: nat)
    requires b < |es|
    ensures Leaves(es, b, b + 1) == [es[b]]
  {
    assert IsLeaf(es, b, b + 1, b);
    assert LeavesFrom(es, b, b + 1, b + 1) == [];
  }

  /** An exhausted first key names an inner node, never a leaf, when more keys follow. */
  lemma LeavesConsumed(es: seq<Entry>, index: nat, begin: nat, end: nat)
    requires begin + 1 < end <= |es| && SharePrefix(es, index, begin, end) && Ascending(es, begin, end)
    requires |es[begin].qkey| <= index
    ensures Leaves(es, begin, end) == Leaves(es, begin + 1, end)
  {
    ExhaustedFirst(es, index, begin, end);
    assert !IsLeaf(es, begin, end, begin) by {
      assert StrictPrefix(es[begin].qkey, es[begin + 1].qkey);
    }
    LeavesFromTail(es, begin, begin + 1, end, begin + 1);
  }

  // ---------------------------------------------------------------------
  // The paths of a sorted, duplicate-free list

  /**
   * `r` returns the paths `acc` produced so far followed by one path per
   * leaf of `ls`, in order.
   */
  ghost predicate Extends(r: Outcome, acc: seq<string>, ls: seq<Entry>, index: nat)
  {
    r.Paths? && |acc| <= |r.paths| && r.paths[..|acc|] == acc && Matches(r.paths[|acc|..], ls, index)
  }

  lemma CombineRun(acc: seq<string>, p: seq<string>, r: Outcome, l1: seq<Entry>, l2: seq<Entry>, index: nat)
    requires Extends(r, acc + p, l2, index) && Matches(p, l1, index)
    ensures Extends(r, acc, l1 + l2, index)
  {
    var ps := r.paths;
    assert ps[..|acc|] == (acc + p)[..|acc|] == acc;
    assert ps[|acc|..] == p + ps[|acc + p|..];
    MatchesAppend(p, l1, ps[|acc + p|..], l2, index);
  }

  /**
   * On a strictly ascending range sharing its first `index` nibbles,
   * `_build_paths` raises nothing and returns one path per leaf, in order:
   * path `k` spells the rest of leaf `k`'s key and ends with its value.
   */
  lemma {:induction false} BuildCorrect(es: seq<Entry>, index: nat, begin: nat, end: nat, node: string)
    requires begin < end <= |es|
    requires SharePrefix(es, index, begin, end) && Ascending(es, begin, end) && NodeShape(node)
    ensures Build(es, index, begin, end, node).Paths?
    ensures Matches(Build(es, index, begin, end, node).paths, Leaves(es, begin, end), index)
    decreases Weight(es, index, begin, end), 1, 0, 0
  {
    if !(index < |es[begin].qkey|) {
      var m := Marker(es[begin].value);
      ExhaustedFirst(es, index, begin, end);
      if begin + 1 == end {
        LeavesSingle(es, begin);
        assert es[begin].qkey[index..] == [];
        StripNode(m, "");
        assert m + "" == m;
        assert PathOf(m, es[begin], index);
      } else {
        ScanCorrect(es, index, begin, begin + 1, begin + 2, end, m, []);
        LeavesConsumed(es, index, begin, end);
      }
    } else {
      LongFirst(es, index, begin, end);
      ScanCorrect(es, index, begin, begin, begin + 1, end, node, []);
    }
  }

  lemma {:induction false} ScanCorrect(es: seq<Entry>, index: nat, begin0: nat, start: nat, i: nat, end: nat,
                                       node: string, acc: seq<string>)
    requires begin0 <= start < i <= end <= |es|
    requires begin0 < start || index < |es[begin0].qkey|
    requires SharePrefix(es, index, begin0, end) && Ascending(es, begin0, end) && NodeShape(node)
    requires forall j | start <= j < end :: index < |es[j].qkey|
    requires forall j | start <= j < i :: es[j].qkey[index] == es[start].qkey[index]
    ensures Extends(Scan(es, index, begin0, start, i, end, node, acc), acc, Leaves(es, start, end), index)
    decreases Weight(es, index, begin0, end), 0, end + 1 - i, 2
  {
    if i < end && es[i].qkey[index] != es[start].qkey[index] {
      ScanBoundary(es, index, begin0, start, i, end, node, acc);
    } else if i < end {
      ScanCorrect(es, index, begin0, start, i + 1, end, node, acc);
    } else {
      ScanLast(es, index, begin0, start, end, node, acc);
    }
  }

  /** One step of the scan where a run ends at `i`. */
  lemma ScanStep(es: seq<Entry>, index: nat, begin0: nat, start: nat, i: nat, end: nat,
                 node: string, acc: seq<string>)
    requires begin0 <= start < i < end <= |es|
    requires begin0 < start || index < |es[begin0].qkey|
    requires index < |es[i].qkey| && index < |es[start].qkey|
    requires es[i].qkey[index] != es[start].qkey[index]
    requires Build(es, index + 1, start, i, "").Paths?
    ensures var node' := if |node| == 0 then "[]" else node;
      Scan(es, index, begin0, start, i, end, node, acc) ==
      Scan(es, index, begin0, i, i + 1, end, node',
           acc + Prefixed(node' + [HexDigit(es[start].qkey[index])], Build(es, index + 1, start, i, "").paths))
  {
  }

  /** The scan moves past a nibble equal to the run's. */
  lemma ScanSame(es: seq<Entry>, index: nat, begin0: nat, start: nat, i: nat, end: nat,
                 node: string, acc: seq<string>)
    requires begin0 <= start < i < end <= |es|
    requires begin0 < start || index < |es[begin0].qkey|
    requires index < |es[i].qkey| && index < |es[start].qkey|
    requires es[i].qkey[index] == es[start].qkey[index]
    ensures Scan(es, index, begin0, start, i, end, node, acc) == Scan(es, index, begin0, start, i + 1, end, node, acc)
  {
  }

  /** A run ends at `i`: its paths are appended, and the scan goes on from `i`. */
  lemma {:induction false} ScanBoundary(es: seq<Entry>, index: nat, begin0: nat, start: nat, i: nat, end: nat,
                                        node: string, acc: seq<string>)
    requires begin0 <= start < i < end <= |es|
    requires begin0 < start || index < |es[begin0].qkey|
    requires SharePrefix(es, index, begin0, end) && Ascending(es, begin0, end) && NodeShape(node)
    requires forall j | start <= j < end :: index < |es[j].qkey|
    requires forall j | start <= j < i :: es[j].qkey[index] == es[start].qkey[index]
    requires es[i].qkey[index] != es[start].qkey[index]
    ensures Extends(Scan(es, index, begin0, start, i, end, node, acc), acc, Leaves(es, start, end), index)
    decreases Weight(es, index, begin0, end), 0, end + 1 - i, 1
  {
    var d := es[start].qkey[index];
    var node' := if |node| == 0 then "[]" else node;
    RunPaths(es, index, begin0, start, i, end, node');
    var p := Prefixed(node' + [HexDigit(d)], Build(es, index + 1, start, i, "").paths);
    RestAfterRun(es, index, begin0, i, end, node', acc, p, Leaves(es, start, i));
    ScanStep(es, index, begin0, start, i, end, node, acc);
    RunClosed(es, index, begin0, start, i, end);
    LeavesFromSplit(es, start, i, end, start);
  }

  /** The scan after a run whose paths `p` match the leaves `l1`. */
  lemma {:induction false} RestAfterRun(es: seq<Entry>, index: nat, begin0: nat, i: nat, end: nat,
                                        node: string, acc: seq<string>, p: seq<string>, l1: seq<Entry>)
    requires begin0 < i < end <= |es|
    requires SharePrefix(es, index, begin0, end) && Ascending(es, begin0, end) && NodeShape(node)
    requires forall j | i <= j < end :: index < |es[j].qkey|
    requires Matches(p, l1, index)
    ensures Extends(Scan(es, index, begin0, i, i + 1, end, node, acc + p), acc, l1 + Leaves(es, i, end), index)
    decreases Weight(es, index, begin0, end), 0, end + 1 - i, 0
  {
    ScanCorrect(es, index, begin0, i, i + 1, end, node, acc + p);
    CombineRun(acc, p, Scan(es, index, begin0, i, i + 1, end, node, acc + p), l1, Leaves(es, i, end), index);
  }

  /** The paths of one run `[start, i)` of equal nibbles at `index`, prefixed with its digit. */
  lemma {:induction false} RunPaths(es: seq<Entry>, index: nat, begin0: nat, start: nat, i: nat, end: nat, node: string)
    requires begin0 <= start < i <= end <= |es|
    requires SharePrefix(es, index, begin0, end) && Ascending(es, begin0, end) && NodeShape(node)
    requires forall j | start <= j < end :: index < |es[j].qkey|
    requires forall j | start <= j < i :: es[j].qkey[index] == es[start].qkey[index]
    ensures Build(es, index + 1, start, i, "").Paths?
    ensures Matches(Prefixed(node + [HexDigit(es[start].qkey[index])], Build(es, index + 1, start, i, "").paths),
                    Leaves(es, start, i), index)
    decreases Weight(es, index, begin0, end), 0, 0, 0
  {
    var d := es[start].qkey[index];
    WeightSplit(es, index, begin0, start, end);
    WeightSplit(es, index, start, i, end);
    WeightDeeper(es, index, start, i);
    RunShape(es, index, begin0, start, i, end);
    BuildCorrect(es, index + 1, start, i, "");
    LeavesKeep(es, start, i, start, (e: Entry) => index < |e.qkey| && e.qkey[index] == d);
    MatchesPrefixed(node, d, Build(es, index + 1, start, i, "").paths, Leaves(es, start, i), index);
  }

  /** The last run, from `start` to `end`. */
  lemma {:induction false} ScanLast(es: seq<Entry>, index: nat, begin0: nat, start: nat, end: nat,
                                    node: string, acc: seq<string>)
    requires begin0 <= start < end <= |es|
    requires begin0 < start || index < |es[begin0].qkey|
    requires SharePrefix(es, index, begin0, end) && Ascending(es, begin0, end) && NodeShape(node)
    requires forall j | start <= j < end :: index < |es[j].qkey|
    requires forall j | start <= j < end :: es[j].qkey[index] == es[start].qkey[index]
    ensures Extends(Scan(es, index, begin0, start, end, end, node, acc), acc, Leaves(es, start, end), index)
    decreases Weight(es, index, begin0, end), 0, 1, 0
  {
    var d := es[start].qkey[index];
    RunPaths(es, index, begin0, start, end, end, node);
    var p := Prefixed(node + [HexDigit(d)], Build(es, index + 1, start, end, "").paths);
    assert (acc + p)[..|acc|] == acc && (acc + p)[|acc|..] == p;
  }

  // ---------------------------------------------------------------------
  // Node markers

  /** How a node indication is shown once the node branches: `[]` unless it already carries `[v]`. */
  function Shown(node: string): string
  {
    if |node| == 0 then "[]" else node
  }

  /**
   * If `r` returns, it returns the paths `acc` produced so far followed by
   * at least one more, each of which starts with `pre`.
   */
  ghost predicate Shaped(r: Outcome, acc: seq<string>, pre: string)
  {
    r.Paths? ==> |acc| < |r.paths| && r.paths[..|acc|] == acc && StartWith(r.paths, |acc|, pre)
  }

  /**
   * Whatever it is given, `_build_paths` returns at least one path when it
   * returns; a node marker in force prefixes every path it produces, and
   * an exhausted first key puts its value marker in front of all of them.
   */
  lemma {:induction false} BuildShape(es: seq<Entry>, index: nat, begin: nat, end: nat, node: string)
    requires begin < end <= |es|
    ensures var r := Build(es, index, begin, end, node);
      r.Paths? ==>
        |r.paths| > 0 &&
        (!(index < |es[begin].qkey|) ==> StartWith(r.paths, 0, Marker(es[begin].value))) &&
        (index < |es[begin].qkey| ==> StartWith(r.paths, 0, node))
    decreases Weight(es, index, begin, end), 1, 0, 0
  {
    if !(index < |es[begin].qkey|) {
      ScanShape(es, index, begin, begin + 1, begin + 2, end, Marker(es[begin].value), []);
    } else {
      ScanShape(es, index, begin, begin, begin + 1, end, node, []);
    }
  }

  lemma {:induction false} ScanShape(es: seq<Entry>, index: nat, begin0: nat, start: nat, i: nat, end: nat,
                                     node: string, acc: seq<string>)
    requires begin0 <= start <= end <= |es| && start < i && (i <= end || start == end)
    requires begin0 < start || (start < end && index < |es[begin0].qkey|)
    ensures Shaped(Scan(es, index, begin0, start, i, end, node, acc), acc, node)
    decreases Weight(es, index, begin0, end), 0, end + 1 - i, 2
  {
    if i < end && index < |es[i].qkey| && index < |es[start].qkey| {
      if es[i].qkey[index] != es[start].qkey[index] {
        ScanShapeBoundary(es, index, begin0, start, i, end, node, acc);
        ShapedWeaker(Scan(es, index, begin0, start, i, end, node, acc), acc, Shown(node), node);
      } else {
        ScanShape(es, index, begin0, start, i + 1, end, node, acc);
      }
    } else if i >= end && start < end {
      ScanShapeLast(es, index, begin0, start, end, node, acc);
    } else if i >= end {
      var r := Scan(es, index, begin0, start, i, end, node, acc);
      assert r == Paths(acc + [node]);
      assert (acc + [node])[..|acc|] == acc;
      assert (acc + [node])[|acc|] == node;
    }
  }

  /** Paths that start with `pre` start with every prefix of `pre`. */
  lemma ShapedWeaker(r: Outcome, acc: seq<string>, pre: string, pre': string)
    requires Shaped(r, acc, pre) && pre' <= pre
    ensures Shaped(r, acc, pre')
  {
    if r.Paths? {
      forall k | |acc| <= k < |r.paths| ensures pre' <= r.paths[k] {
        assert pre <= r.paths[k];
        assert r.paths[k][..|pre'|] == pre[..|pre'|];
      }
    }
  }

  lemma {:induction false} ScanShapeBoundary(es: seq<Entry>, index: nat, begin0: nat, start: nat, i: nat, end: nat,
                                             node: string, acc: seq<string>)
    requires begin0 <= start < i < end <= |es|
    requires begin0 < start || index < |es[begin0].qkey|
    requires index < |es[i].qkey| && index < |es[start].qkey| && es[i].qkey[index] != es[start].qkey[index]
    ensures Shaped(Scan(es, index, begin0, start, i, end, node, acc), acc, Shown(node))
    decreases Weight(es, index, begin0, end), 0, end + 1 - i, 1
  {
    var b := Build(es, index + 1, start, i, "");
    if b.Paths? {
      var h := HexDigit(es[start].qkey[index]);
      var p := Prefixed(Shown(node) + [h], b.paths);
      ScanStep(es, index, begin0, start, i, end, node, acc);
      PrefixedStartWith(Shown(node), h, b.paths);
      ShapeAfterRun(es, index, begin0, i, end, Shown(node), acc, p);
    }
  }

  /** The scan after a run whose paths `p` all start with `node`. */
  lemma {:induction false} ShapeAfterRun(es: seq<Entry>, index: nat, begin0: nat, i: nat, end: nat,
                                         node: string, acc: seq<string>, p: seq<string>)
    requires begin0 < i < end <= |es| && StartWith(p, 0, node)
    ensures Shaped(Scan(es, index, begin0, i, i + 1, end, node, acc + p), acc, node)
    decreases Weight(es, index, begin0, end), 0, end + 1 - i, 0
  {
    ScanShape(es, index, begin0, i, i + 1, end, node, acc + p);
    ShapeCombine(acc, p, Scan(es, index, begin0, i, i + 1, end, node, acc + p), node);
  }

  /** Paths put behind `pre + [h]` start with `pre`. */
  lemma PrefixedStartWith(pre: string, h: char, sub: seq<string>)
    ensures StartWith(Prefixed(pre + [h], sub), 0, pre)
  {
    var p := Prefixed(pre + [h], sub);
    forall k | 0 <= k < |p| ensures pre <= p[k] {
      assert p[k] == pre + ([h] + sub[k]);
    }
  }

  lemma ShapeCombine(acc: seq<string>, p: seq<string>, r: Outcome, pre: string)
    requires Shaped(r, acc + p, pre) && StartWith(p, 0, pre)
    ensures Shaped(r, acc, pre)
  {
    if r.Paths? {
      var ps := r.paths;
      assert ps[..|acc|] == (acc + p)[..|acc|];
      forall k | |acc| <= k < |acc + p| ensures pre <= ps[k] {
        assert ps[k] == p[k - |acc|];
      }
    }
  }

  lemma ScanLastStep(es: seq<Entry>, index: nat, begin0: nat, start: nat, end: nat, node: string, acc: seq<string>)
    requires begin0 <= start < end <= |es|
    requires begin0 < start || index < |es[begin0].qkey|
    requires Build(es, index + 1, start, end, "").Paths? && index < |es[start].qkey|
    ensures Scan(es, index, begin0, start, end, end, node, acc) ==
      Paths(acc + Prefixed(node + [HexDigit(es[start].qkey[index])], Build(es, index + 1, start, end, "").paths))
  {
  }

  lemma {:induction false} ScanShapeLast(es: seq<Entry>, index: nat, begin0: nat, start: nat, end: nat,
                                         node: string, acc: seq<string>)
    requires begin0 <= start < end <= |es|
    requires begin0 < start || index < |es[begin0].qkey|
    ensures Shaped(Scan(es, index, begin0, start, end, end, node, acc), acc, node)
    decreases Weight(es, index, begin0, end), 0, 1, 0
  {
    WeightSplit(es, index, begin0, start, end);
    WeightDeeper(es, index, start, end);
    BuildShape(es, index + 1, start, end, "");
    var b := Build(es, index + 1, start, end, "");
    if b.Paths? && index < |es[start].qkey| {
      var h := HexDigit(es[start].qkey[index]);
      var p := Prefixed(node + [h], b.paths);
      ScanLastStep(es, index, begin0, start, end, node, acc);
      PrefixedStartWith(node, h, b.paths);
      var r := Paths(acc + p);
      assert (acc + p)[..|acc|] == acc;
      forall k | |acc| <= k < |acc + p| ensures node <= (acc + p)[k] {
        assert (acc + p)[k] == p[k - |acc|];
      }
      assert Shaped(r, acc, node);
    }
  }

  /** `build_paths`: every path starts at the root, shown as `[]`, or as `[v]` when the empty key carries `v`. */
  lemma RootMarker(es: seq<Entry>)
    ensures var r := BuildPaths(es);
      r.Paths? ==> forall k | 0 <= k < |r.paths| ::
        if es != [] && es[0].qkey == [] then Marker(es[0].value) <= r.paths[k] else "[]" <= r.paths[k]
  {
    if es != [] {
      BuildShape(es, 0, 0, |es|, "[]");
    }
  }

  /** Between two keys with the same nibble at `index`, every key has that nibble too. */
  lemma MiddleDigits(es: seq<Entry>, index: nat, begin: nat, end: nat)
    requires begin < end <= |es| && SharePrefix(es, index, begin, end) && Ascending(es, begin, end)
    requires forall j | begin <= j < end :: index < |es[j].qkey|
    requires es[end - 1].qkey[index] == es[begin].qkey[index]
    ensures forall j | begin <= j < end :: es[j].qkey[index] == es[begin].qkey[index]
  {
    forall j | begin < j < end - 1 ensures es[j].qkey[index] == es[begin].qkey[index] {
      LessDigitAtCommonPrefix(es[begin].qkey, es[j].qkey, index);
      LessDigitAtCommonPrefix(es[j].qkey, es[end - 1].qkey, index);
    }
  }

  lemma {:induction false} ScanWithinRun(es: seq<Entry>, index: nat, begin0: nat, start: nat, i: nat, end: nat,
                                         node: string, acc: seq<string>)
    requires begin0 <= start < i <= end <= |es|
    requires begin0 < start || index < |es[begin0].qkey|
    requires index < |es[start].qkey|
    requires forall j | start <= j < end :: index < |es[j].qkey| && es[j].qkey[index] == es[start].qkey[index]
    ensures Scan(es, index, begin0, start, i, end, node, acc) == Scan(es, index, begin0, start, end, end, node, acc)
    decreases end - i
  {
    if i < end {
      ScanWithinRun(es, index, begin0, start, i + 1, end, node, acc);
    }
  }

  /**
   * Path compression: a node with no value and a single child is not
   * shown; the edge digit is simply put in front of the child's paths.
   */
  lemma ChainCollapses(es: seq<Entry>, index: nat, begin: nat, end: nat, node: string)
    requires begin < end <= |es| && SharePrefix(es, index, begin, end) && Ascending(es, begin, end)
    requires index < |es[begin].qkey| && index < |es[end - 1].qkey|
    requires es[end - 1].qkey[index] == es[begin].qkey[index]
    ensures Build(es, index + 1, begin, end, "").Paths?
    ensures Build(es, index, begin, end, node) ==
      Paths(Prefixed(node + [HexDigit(es[begin].qkey[index])], Build(es, index + 1, begin, end, "").paths))
  {
    LongFirst(es, index, begin, end);
    MiddleDigits(es, index, begin, end);
    RunShape(es, index, begin, begin, end, end);
    BuildCorrect(es, index + 1, begin, end, "");
    ScanWithinRun(es, index, begin, begin, begin + 1, end, node, []);
    ScanLastStep(es, index, begin, begin, end, node, []);
  }

  /** Every path from the `from`-th on starts with `pre`. */
  ghost predicate StartWith(ps: seq<string>, from: nat, pre: string)
  {
    forall k | from <= k < |ps| :: pre <= ps[k]
  }

  lemma {:induction false} ScanBranches(es: seq<Entry>, index: nat, begin0: nat, start: nat, i: nat, end: nat,
                                        acc: seq<string>, w: nat)
    requires begin0 <= start < i <= w < end <= |es|
    requires begin0 < start || index < |es[begin0].qkey|
    requires forall j | start <= j < end :: index < |es[j].qkey|
    requires es[w].qkey[index] != es[start].qkey[index]
    ensures var r := Scan(es, index, begin0, start, i, end, "", acc);
      r.Paths? ==> StartWith(r.paths, |acc|, "[]")
    decreases end - i
  {
    if es[i].qkey[index] != es[start].qkey[index] {
      ScanShapeBoundary(es, index, begin0, start, i, end, "", acc);
    } else {
      assert i < w;
      ScanBranches(es, index, begin0, start, i + 1, end, acc, w);
    }
  }

  /**
   * A node where keys part ways is shown: if the range's keys do not all
   * share the nibble at `index`, every path starts with the node's `[]`.
   */
  lemma BranchShown(es: seq<Entry>, index: nat, begin: nat, end: nat, node: string)
    requires begin < end <= |es| && SharePrefix(es, index, begin, end) && Ascending(es, begin, end)
    requires node == "" || node == "[]"
    requires index < |es[begin].qkey| && index < |es[end - 1].qkey|
    requires es[end - 1].qkey[index] != es[begin].qkey[index]
    ensures var r := Build(es, index, begin, end, node);
      r.Paths? && forall k | 0 <= k < |r.paths| :: "[]" <= r.paths[k]
  {
    BuildCorrect(es, index, begin, end, node);
    LongFirst(es, index, begin, end);
    if node == "" {
      var r := Build(es, index, begin, end, node);
      assert r == Scan(es, index, begin, begin, begin + 1, end, "", []);
      ScanBranches(es, index, begin, begin, begin + 1, end, [], end - 1);
      assert StartWith(r.paths, 0, "[]");
    } else {
      BuildShape(es, index, begin, end, node);
    }
  }

  /**
   * A key that carries a value and has longer keys below it shows up as
   * `[v]` in front of all their paths.
   */
  lemma ValueShown(es: seq<Entry>, index: nat, begin: nat, end: nat, node: string)
    requires begin < end <= |es|
    requires |es[begin].qkey| <= index
    ensures var r := Build(es, index, begin, end, node);
      r.Paths? ==> forall k | 0 <= k < |r.paths| :: Marker(es[begin].value) <= r.paths[k]
  {
    BuildShape(es, index, begin, end, node);
  }

  // ---------------------------------------------------------------------
  // Duplicate keys

  /** Sorted, duplicates allowed. */
  ghost predicate NonDescending(es: seq<Entry>, begin: nat, end: nat)
    requires begin <= end <= |es|
  {
    forall j, k | begin <= j < k < end :: !NibblesLess(es[k].qkey, es[j].qkey)
  }

  lemma RunPrefix(es: seq<Entry>, index: nat, begin0: nat, start: nat, i: nat, end: nat)
    requires begin0 <= start < i <= end <= |es| && SharePrefix(es, index, begin0, end)
    requires index < |es[start].qkey|
    requires forall m | start <= m < i :: index < |es[m].qkey| && es[m].qkey[index] == es[start].qkey[index]
    ensures SharePrefix(es, index + 1, start, i)
  {
    forall m | start <= m < i ensures es[m].qkey[..index + 1] == es[start].qkey[..index + 1] {
      assert es[m].qkey[..index + 1] == es[m].qkey[..index] + [es[m].qkey[index]];
      assert es[start].qkey[..index + 1] == es[start].qkey[..index] + [es[start].qkey[index]];
    }
  }

  /**
   * Two equal keys next to each other in a sorted range make
   * `_build_paths` raise `IndexError`: once both keys are used up, the
   * second one is indexed past its end.
   */
  lemma {:induction false} BuildDuplicate(es: seq<Entry>, index: nat, begin: nat, end: nat, node: string, j: nat)
    requires begin <= j && j + 1 < end <= |es|
    requires SharePrefix(es, index, begin, end) && NonDescending(es, begin, end)
    requires es[j].qkey == es[j + 1].qkey
    ensures Build(es, index, begin, end, node) == IndexError
    decreases Weight(es, index, begin, end), 1, 0, 0
  {
    var m := Marker(es[begin].value);
    if !(index < |es[begin].qkey|) {
      if j == begin {
        if begin + 2 < end {
          assert Scan(es, index, begin, begin + 1, begin + 2, end, m, []) == IndexError;
        } else {
          WeightSplit(es, index, begin, begin + 1, end);
          WeightDeeper(es, index, begin + 1, end);
          assert Scan(es, index, begin, begin + 1, begin + 2, end, m, []) == IndexError;
        }
      } else {
        ScanDuplicate(es, index, begin, begin + 1, begin + 2, end, m, [], j);
      }
    } else {
      ScanDuplicate(es, index, begin, begin, begin + 1, end, node, [], j);
    }
  }

  lemma {:induction false} ScanDuplicate(es: seq<Entry>, index: nat, begin0: nat, start: nat, i: nat, end: nat,
                                         node: string, acc: seq<string>, j: nat)
    requires begin0 <= start <= j && j + 1 < end <= |es| && start < i <= end
    requires begin0 < start || index < |es[begin0].qkey|
    requires SharePrefix(es, index, begin0, end) && NonDescending(es, begin0, end)
    requires es[j].qkey == es[j + 1].qkey
    requires forall m | start < m < i ::
      index < |es[m].qkey| && index < |es[start].qkey| && es[m].qkey[index] == es[start].qkey[index]
    ensures Scan(es, index, begin0, start, i, end, node, acc) == IndexError
    decreases Weight(es, index, begin0, end), 0, end + 1 - i, 2
  {
    if i < end && index < |es[i].qkey| && index < |es[start].qkey| {
      if es[i].qkey[index] != es[start].qkey[index] {
        ScanDuplicateBoundary(es, index, begin0, start, i, end, node, acc, j);
      } else {
        ScanDuplicate(es, index, begin0, start, i + 1, end, node, acc, j);
      }
    } else if i == end {
      assert index < |es[start].qkey| by {
        assert start < start + 1 < i;
      }
      WeightSplit(es, index, begin0, start, end);
      WeightDeeper(es, index, start, end);
      RunPrefix(es, index, begin0, start, end, end);
      BuildDuplicate(es, index + 1, start, end, "", j);
    }
  }

  lemma {:induction false} ScanDuplicateBoundary(es: seq<Entry>, index: nat, begin0: nat, start: nat, i: nat,
                                                 end: nat, node: string, acc: seq<string>, j: nat)
    requires begin0 <= start <= j && j + 1 < end <= |es| && start < i < end
    requires begin0 < start || index < |es[begin0].qkey|
    requires SharePrefix(es, index, begin0, end) && NonDescending(es, begin0, end)
    requires es[j].qkey == es[j + 1].qkey
    requires forall m | start < m < i ::
      index < |es[m].qkey| && index < |es[start].qkey| && es[m].qkey[index] == es[start].qkey[index]
    requires index < |es[i].qkey| && index < |es[start].qkey| && es[i].qkey[index] != es[start].qkey[index]
    ensures Scan(es, index, begin0, start, i, end, node, acc) == IndexError
    decreases Weight(es, index, begin0, end), 0, end + 1 - i, 1
  {
    if j + 1 < i {
      DuplicateInRun(es, index, begin0, start, i, end, j);
    } else {
      DuplicateAfterRun(es, index, begin0, start, i, end, node, acc, j);
    }
  }

  /** Both equal keys lie after the run `[start, i)`: the scan raises once it goes on from `i`. */
  lemma {:induction false} DuplicateAfterRun(es: seq<Entry>, index: nat, begin0: nat, start: nat, i: nat,
                                             end: nat, node: string, acc: seq<string>, j: nat)
    requires begin0 <= start < i <= j && j + 1 < end <= |es|
    requires begin0 < start || index < |es[begin0].qkey|
    requires SharePrefix(es, index, begin0, end) && NonDescending(es, begin0, end)
    requires es[j].qkey == es[j + 1].qkey
    requires forall m | start < m < i ::
      index < |es[m].qkey| && index < |es[start].qkey| && es[m].qkey[index] == es[start].qkey[index]
    requires index < |es[i].qkey| && index < |es[start].qkey| && es[i].qkey[index] != es[start].qkey[index]
    ensures Scan(es, index, begin0, start, i, end, node, acc) == IndexError
    decreases Weight(es, index, begin0, end), 0, end + 1 - i, 0
  {
    var b := Build(es, index + 1, start, i, "");
    if b.Paths? {
      var node' := if |node| == 0 then "[]" else node;
      var p := Prefixed(node' + [HexDigit(es[start].qkey[index])], b.paths);
      ScanStep(es, index, begin0, start, i, end, node, acc);
      ScanDuplicate(es, index, begin0, i, i + 1, end, node', acc + p, j);
    }
  }

  /** The run `[start, i)` holds both equal keys: the recursive call on it raises. */
  lemma {:induction false} DuplicateInRun(es: seq<Entry>, index: nat, begin0: nat, start: nat, i: nat, end: nat, j: nat)
    requires begin0 <= start <= j && j + 1 < i < end <= |es|
    requires SharePrefix(es, index, begin0, end) && NonDescending(es, begin0, end)
    requires es[j].qkey == es[j + 1].qkey
    requires forall m | start < m < i ::
      index < |es[m].qkey| && index < |es[start].qkey| && es[m].qkey[index] == es[start].qkey[index]
    ensures Build(es, index + 1, start, i, "") == IndexError
    decreases Weight(es, index, begin0, end), 0, end + 1 - i, 0
  {
    WeightSplit(es, index, begin0, start, end);
    WeightSplit(es, index, start, i, end);
    WeightDeeper(es, index, start, i);
    RunPrefix(es, index, begin0, start, i, end);
    BuildDuplicate(es, index + 1, start, i, "", j);
  }

  // ---------------------------------------------------------------------
  // Sorting by key

  /** A `(key, value)` tuple as `key_vals2paths` takes it. */
  datatype KeyVal = KeyVal(key: Key, value: nat)

  /** Sorted by key; equal keys allowed. */
  ghost predicate SortedByKey(s: seq<KeyVal>)
  {
    forall j, k | 0 <= j < k < |s| :: !KeyLess(s[k].key, s[j].key)
  }

  /** Strictly ascending keys. */
  ghost predicate AscendingByKey(s: seq<KeyVal>)
  {
    forall j, k | 0 <= j < k < |s| :: KeyLess(s[j].key, s[k].key)
  }

  /** No key occurs twice. */
  ghost predicate DistinctKeys(s: seq<KeyVal>)
  {
    forall j, k | 0 <= j < k < |s| :: s[j].key != s[k].key
  }

  /** The keys of `s`, with their multiplicities. */
  function KeyBag(s: seq<KeyVal>): multiset<Key>
  {
    if s == [] then multiset{} else multiset{s[0].key} + KeyBag(s[1..])
  }

  /**
   * Inserts `kv` before the first tuple whose key is not smaller, so that
   * among equal keys the earlier input comes first.
   */
  function InsertByKey(kv: KeyVal, s: seq<KeyVal>): (r: seq<KeyVal>)
    ensures multiset(r) == multiset(s) + multiset{kv}
    ensures KeyBag(r) == KeyBag(s) + multiset{kv.key}
  {
    if s == [] || !KeyLess(s[0].key, kv.key) then
      assert ([kv] + s)[1..] == s;
      [kv] + s
    else
      var t := InsertByKey(kv, s[1..]);
      assert ([s[0]] + t)[1..] == t;
      assert s == [s[0]] + s[1..];
      [s[0]] + t
  }

  /** `sorted(key_vals, cmp, lambda k_v: k_v[0])`: a stable sort by key. */
  function SortByKey(kvs: seq<KeyVal>): (r: seq<KeyVal>)
    ensures multiset(r) == multiset(kvs)
    ensures KeyBag(r) == KeyBag(kvs)
  {
    if kvs == [] then []
    else
      assert kvs == [kvs[0]] + kvs[1..];
      InsertByKey(kvs[0], SortByKey(kvs[1..]))
  }

  lemma {:induction false} SortSorted(kvs: seq<KeyVal>)
    ensures SortedByKey(SortByKey(kvs))
  {
    if kvs != [] {
      SortSorted(kvs[1..]);
      InsertSorted(kvs[0], SortByKey(kvs[1..]));
    }
  }

  lemma {:induction false} InsertSorted(kv: KeyVal, s: seq<KeyVal>)
    requires SortedByKey(s)
    ensures SortedByKey(InsertByKey(kv, s))
  {
    if s == [] || !KeyLess(s[0].key, kv.key) {
      InsertHere(kv, s);
    } else {
      SortedTail(s);
      InsertSorted(kv, s[1..]);
      InsertLater(kv, s);
    }
  }

  /** `kv` goes in front of a sorted list whose head is not smaller. */
  lemma InsertHere(kv: KeyVal, s: seq<KeyVal>)
    requires SortedByKey(s) && (s == [] || !KeyLess(s[0].key, kv.key))
    ensures SortedByKey([kv] + s)
  {
    forall k | 0 <= k < |s| ensures !KeyLess(s[k].key, kv.key) {
      if k > 0 {
        KeyLessStrictTotal(s[0].key, s[k].key, kv.key);
      }
    }
    SortedCons(kv, s);
  }

  /** `kv` goes after a smaller head, into the sorted rest. */
  lemma InsertLater(kv: KeyVal, s: seq<KeyVal>)
    requires s != [] && KeyLess(s[0].key, kv.key) && SortedByKey(s)
    requires SortedByKey(InsertByKey(kv, s[1..]))
    ensures SortedByKey([s[0]] + InsertByKey(kv, s[1..]))
  {
    var t := InsertByKey(kv, s[1..]);
    forall k | 0 <= k < |t| ensures !KeyLess(t[k].key, s[0].key) {
      assert t[k] in multiset(t);
      KeyLessStrictTotal(s[0].key, kv.key, s[0].key);
      if t[k] != kv {
        assert t[k] in s[1..];
      }
    }
    SortedCons(s[0], t);
  }

  lemma SortedTail(s: seq<KeyVal>)
    requires s != [] && SortedByKey(s)
    ensures SortedByKey(s[1..])
  {
    forall j, k | 0 <= j < k < |s[1..]| ensures !KeyLess(s[1..][k].key, s[1..][j].key) {
      assert s[1..][k] == s[k + 1] && s[1..][j] == s[j + 1];
    }
  }

  /** Prepending a tuple no larger than the rest keeps a list sorted. */
  lemma SortedCons(x: KeyVal, t: seq<KeyVal>)
    requires SortedByKey(t) && forall k | 0 <= k < |t| :: !KeyLess(t[k].key, x.key)
    ensures SortedByKey([x] + t)
  {
    var r := [x] + t;
    forall j, k | 0 <= j < k < |r| ensures !KeyLess(r[k].key, r[j].key) {
      assert r[k] == t[k - 1];
      if j > 0 {
        assert r[j] == t[j - 1];
      }
    }
  }


  /** On distinct keys a sort by key has only one possible result. */
  lemma {:induction false} SortUnique(s: seq<KeyVal>, t: seq<KeyVal>)
    requires AscendingByKey(s) && SortedByKey(t) && multiset(s) == multiset(t)
    ensures s == t
  {
    if s != [] {
      HeadsAgree(s, t);
      MultisetTail(s, t);
      assert AscendingByKey(s[1..]) by {
        forall j, k | 0 <= j < k < |s[1..]| ensures KeyLess(s[1..][j].key, s[1..][k].key) {
          assert s[1..][j] == s[j + 1] && s[1..][k] == s[k + 1];
        }
      }
      assert SortedByKey(t[1..]) by {
        forall j, k | 0 <= j < k < |t[1..]| ensures !KeyLess(t[1..][k].key, t[1..][j].key) {
          assert t[1..][j] == t[j + 1] && t[1..][k] == t[k + 1];
        }
      }
      SortUnique(s[1..], t[1..]);
      assert s == [s[0]] + s[1..] && t == [t[0]] + t[1..];
    }
  }

  /** The least key of `s` is the least of `t` too. */
  lemma HeadsAgree(s: seq<KeyVal>, t: seq<KeyVal>)
    requires AscendingByKey(s) && SortedByKey(t) && multiset(s) == multiset(t) && s != []
    ensures t != [] && s[0] == t[0]
  {
    assert s[0] in multiset(t);
    assert t != [];
    assert t[0] in multiset(s);
    var m :| 0 <= m < |t| && t[m] == s[0];
    var n :| 0 <= n < |s| && s[n] == t[0];
    KeyLessStrictTotal(s[0].key, s[n].key, s[0].key);
    KeyLessStrictTotal(t[0].key, t[m].key, t[0].key);
    if n != 0 {
      KeyLessStrictTotal(s[0].key, s[n].key, t[m].key);
    }
  }

  lemma MultisetTail<T>(s: seq<T>, t: seq<T>)
    requires s != [] && t != [] && s[0] == t[0] && multiset(s) == multiset(t)
    ensures multiset(s[1..]) == multiset(t[1..])
  {
    assert s == [s[0]] + s[1..] && t == [t[0]] + t[1..];
    assert multiset(s[1..]) == multiset(s) - multiset{s[0]};
    assert multiset(t[1..]) == multiset(t) - multiset{t[0]};
  }

  lemma MultisetRemove<T>(t: seq<T>, m: nat)
    requires m < |t|
    ensures multiset(t[..m] + t[m + 1..]) == multiset(t) - multiset{t[m]}
  {
    assert t == t[..m] + [t[m]] + t[m + 1..];
    assert multiset(t) == multiset(t[..m]) + multiset{t[m]} + multiset(t[m + 1..]);
  }

  lemma DistinctSortedAscending(s: seq<KeyVal>)
    requires SortedByKey(s) && DistinctKeys(s)
    ensures AscendingByKey(s)
  {
    forall j, k | 0 <= j < k < |s| ensures KeyLess(s[j].key, s[k].key) {
      KeyLessStrictTotal(s[j].key, s[k].key, s[j].key);
    }
  }

  /** In a sorted list a repeated key repeats right away. */
  lemma AdjacentDuplicate(s: seq<KeyVal>) returns (j: nat)
    requires SortedByKey(s) && !DistinctKeys(s)
    ensures j + 1 < |s| && s[j].key == s[j + 1].key
  {
    var a, b :| 0 <= a < b < |s| && s[a].key == s[b].key;
    j := a;
    KeyLessStrictTotal(s[a].key, s[a + 1].key, s[a].key);
  }

  lemma {:induction false} KeyBagHas(s: seq<KeyVal>, x: Key)
    ensures x in KeyBag(s) <==> exists k | 0 <= k < |s| :: s[k].key == x
  {
    if s != [] {
      KeyBagHas(s[1..], x);
      if x in KeyBag(s[1..]) {
        var k :| 0 <= k < |s[1..]| && s[1..][k].key == x;
        assert s[k + 1].key == x;
      }
      if exists k | 0 <= k < |s| :: s[k].key == x {
        var k :| 0 <= k < |s| && s[k].key == x;
        if k > 0 {
          assert s[1..][k - 1].key == x;
        }
      }
    }
  }

  /** Every element of the bag occurs at most once. */
  ghost predicate Once(b: multiset<Key>)
  {
    forall x :: b[x] <= 1
  }

  /** Distinct keys are keys that each occur once. */
  lemma {:induction false} DistinctKeysBag(s: seq<KeyVal>)
    ensures DistinctKeys(s) <==> Once(KeyBag(s))
  {
    if s != [] {
      DistinctKeysBag(s[1..]);
      KeyBagHas(s[1..], s[0].key);
      if DistinctKeys(s) {
        DistinctConsBag(s);
      }
      if Once(KeyBag(s)) {
        BagConsDistinct(s);
      }
    }
  }

  lemma DistinctConsBag(s: seq<KeyVal>)
    requires s != [] && DistinctKeys(s)
    requires DistinctKeys(s[1..]) ==> Once(KeyBag(s[1..]))
    requires s[0].key in KeyBag(s[1..]) <==> exists k | 0 <= k < |s[1..]| :: s[1..][k].key == s[0].key
    ensures Once(KeyBag(s))
  {
    var t := s[1..];
    assert DistinctKeys(t) by {
      forall j, k | 0 <= j < k < |t| ensures t[j].key != t[k].key {
        assert t[j] == s[j + 1] && t[k] == s[k + 1];
      }
    }
    forall k | 0 <= k < |t| ensures t[k].key != s[0].key {
      assert t[k] == s[k + 1];
    }
    assert KeyBag(t)[s[0].key] == 0;
    forall x ensures KeyBag(s)[x] <= 1 {
      assert KeyBag(s)[x] == KeyBag(t)[x] + (if x == s[0].key then 1 else 0);
    }
  }

  lemma BagConsDistinct(s: seq<KeyVal>)
    requires s != [] && Once(KeyBag(s))
    requires Once(KeyBag(s[1..])) ==> DistinctKeys(s[1..])
    requires s[0].key in KeyBag(s[1..]) <==> exists k | 0 <= k < |s[1..]| :: s[1..][k].key == s[0].key
    ensures DistinctKeys(s)
  {
    var t := s[1..];
    forall x ensures KeyBag(t)[x] <= 1 {
      assert KeyBag(s)[x] == KeyBag(t)[x] + (if x == s[0].key then 1 else 0);
    }
    assert KeyBag(s)[s[0].key] <= 1;
    assert KeyBag(t)[s[0].key] == 0;
    forall j, k | 0 <= j < k < |s| ensures s[j].key != s[k].key {
      if j == 0 {
        assert s[k] == t[k - 1];
      } else {
        assert s[j] == t[j - 1] && s[k] == t[k - 1];
      }
    }
  }

  // ---------------------------------------------------------------------
  // Entry points

  /** `map(lambda k_v: (str2qbit_str(k_v[0]), k_v[1]), sorted_key_vals)` */
  function Encode(s: seq<KeyVal>): seq<Entry>
  {
    seq(|s|, j requires 0 <= j < |s| => Entry(QbitStr(s[j].key), s[j].value))
  }

  /** `key_vals2paths` (paths.py:82-91): sort by key, split keys into nibbles, build. */
  function KeyValsToPaths(kvs: seq<KeyVal>): Outcome
  {
    BuildPaths(Encode(SortByKey(kvs)))
  }

  /** `enumerate(keys)` turned into `(key, line number)` tuples. */
  function Numbered(keys: seq<Key>): seq<KeyVal>
  {
    seq(|keys|, n requires 0 <= n < |keys| => KeyVal(keys[n], n))
  }

  /** `keys2paths` (paths.py:103-105): the value of each key is its line number. */
  function KeysToPaths(keys: seq<Key>): Outcome
  {
    KeyValsToPaths(Numbered(keys))
  }

  lemma EncodeAscending(s: seq<KeyVal>)
    requires AscendingByKey(s)
    ensures Ascending(Encode(s), 0, |s|) && SharePrefix(Encode(s), 0, 0, |s|)
  {
    var es := Encode(s);
    forall j, k | 0 <= j < k < |s| ensures NibblesLess(es[j].qkey, es[k].qkey) {
      QbitStrPreservesOrder(s[j].key, s[k].key);
    }
  }

  lemma EncodeSorted(s: seq<KeyVal>)
    requires SortedByKey(s)
    ensures NonDescending(Encode(s), 0, |s|) && SharePrefix(Encode(s), 0, 0, |s|)
  {
    var es := Encode(s);
    forall j, k | 0 <= j < k < |s| ensures !NibblesLess(es[k].qkey, es[j].qkey) {
      QbitStrPreservesOrder(s[k].key, s[j].key);
    }
  }

  /** With no tuples there is only the root: `["[]"]`. */
  lemma KeyValsToPathsEmpty()
    ensures KeyValsToPaths([]) == Paths(["[]"])
  {
    assert SortByKey([]) == [];
  }

  /** `key_vals2paths` raises `IndexError` exactly when some key occurs twice. */
  lemma KeyValsToPathsRaises(kvs: seq<KeyVal>)
    ensures KeyValsToPaths(kvs).IndexError? <==> !DistinctKeys(kvs)
  {
    var s := SortByKey(kvs);
    var es := Encode(s);
    SortSorted(kvs);
    SameBagSameDistinct(kvs, s);
    if DistinctKeys(kvs) {
      if kvs != [] {
        DistinctSortedAscending(s);
        EncodeAscending(s);
        BuildCorrect(es, 0, 0, |es|, "[]");
      }
    } else {
      var j := AdjacentDuplicate(s);
      EncodeSorted(s);
      BuildDuplicate(es, 0, 0, |es|, "[]", j);
    }
  }

  /** The order of the input tuples does not matter. */
  lemma KeyValsToPathsOrderFree(kvs1: seq<KeyVal>, kvs2: seq<KeyVal>)
    requires multiset(kvs1) == multiset(kvs2)
    ensures KeyValsToPaths(kvs1) == KeyValsToPaths(kvs2)
  {
    var s1, s2 := SortByKey(kvs1), SortByKey(kvs2);
    KeyBagOfMultiset(kvs1, kvs2);
    SameBagSameDistinct(kvs1, s1);
    SameBagSameDistinct(kvs1, kvs2);
    if DistinctKeys(s1) {
      SortSorted(kvs1);
      SortSorted(kvs2);
      DistinctSortedAscending(s1);
      SortUnique(s1, s2);
    } else {
      KeyValsToPathsRaises(kvs1);
      KeyValsToPathsRaises(kvs2);
    }
  }

  lemma {:induction false} SameBagSameDistinct(s: seq<KeyVal>, t: seq<KeyVal>)
    requires KeyBag(s) == KeyBag(t)
    ensures DistinctKeys(s) <==> DistinctKeys(t)
  {
    DistinctKeysBag(s);
    DistinctKeysBag(t);
  }

  lemma {:induction false} KeyBagOfMultiset(s: seq<KeyVal>, t: seq<KeyVal>)
    requires multiset(s) == multiset(t)
    ensures KeyBag(s) == KeyBag(t)
  {
    if s != [] {
      assert s[0] in multiset(t);
      var m :| 0 <= m < |t| && t[m] == s[0];
      MultisetRemove(t, m);
      assert s == [s[0]] + s[1..];
      assert multiset(s[1..]) == multiset(s) - multiset{s[0]};
      KeyBagOfMultiset(s[1..], t[..m] + t[m + 1..]);
      KeyBagRemove(t, m);
    }
  }

  lemma {:induction false} KeyBagRemove(t: seq<KeyVal>, m: nat)
    requires m < |t|
    ensures KeyBag(t) == KeyBag(t[..m] + t[m + 1..]) + multiset{t[m].key}
  {
    var a, c := t[..m], t[m + 1..];
    var bc := [t[m]] + c;
    assert t == a + bc;
    assert bc[1..] == c;
    KeyBagAppend(a, bc);
    KeyBagAppend(a, c);
    assert KeyBag(bc) == multiset{t[m].key} + KeyBag(c);
  }

  lemma {:induction false} KeyBagAppend(a: seq<KeyVal>, b: seq<KeyVal>)
    ensures KeyBag(a + b) == KeyBag(a) + KeyBag(b)
  {
    if a != [] {
      assert (a + b)[1..] == a[1..] + b;
      KeyBagAppend(a[1..], b);
    } else {
      assert a + b == b;
    }
  }

  /** Strictly ascending keys, for a list of entries. */
  ghost predicate InOrder(ls: seq<Entry>)
  {
    forall a, b {:trigger NibblesLess(ls[a].qkey, ls[b].qkey)} | 0 <= a < b < |ls| :: NibblesLess(ls[a].qkey, ls[b].qkey)
  }

  lemma InOrderCons(e: Entry, rest: seq<Entry>)
    requires InOrder(rest) && forall r | r in rest :: NibblesLess(e.qkey, r.qkey)
    ensures InOrder([e] + rest)
  {
    var ls := [e] + rest;
    forall a, b | 0 <= a < b < |ls| ensures NibblesLess(ls[a].qkey, ls[b].qkey) {
      assert ls[b] == rest[b - 1];
      if a == 0 {
        assert rest[b - 1] in rest;
      } else {
        assert ls[a] == rest[a - 1];
      }
    }
  }

  /** Leaves come out in ascending key order. */
  lemma {:induction false} LeavesInOrder(es: seq<Entry>, begin: nat, end: nat, from: nat)
    requires begin <= from <= end <= |es| && Ascending(es, begin, end)
    ensures InOrder(LeavesFrom(es, begin, end, from))
    decreases end - from
  {
    if from < end {
      LeavesInOrder(es, begin, end, from + 1);
      HeadBelowLeaves(es, begin, end, from);
      var rest := LeavesFrom(es, begin, end, from + 1);
      if IsLeaf(es, begin, end, from) {
        assert LeavesFrom(es, begin, end, from) == [es[from]] + rest;
        InOrderCons(es[from], rest);
      } else {
        assert LeavesFrom(es, begin, end, from) == [] + rest == rest;
      }
    }
  }

  /** Every leaf after `from` has a greater key than entry `from`. */
  lemma HeadBelowLeaves(es: seq<Entry>, begin: nat, end: nat, from: nat)
    requires begin <= from < end <= |es| && Ascending(es, begin, end)
    ensures forall r | r in LeavesFrom(es, begin, end, from + 1) :: NibblesLess(es[from].qkey, r.qkey)
  {
    var x := es[from].qkey;
    var P := (e: Entry) => NibblesLess(x, e.qkey);
    forall j | from + 1 <= j < end ensures P(es[j]) {
      assert NibblesLess(es[from].qkey, es[j].qkey);
    }
    LeavesKeep(es, begin, end, from + 1, P);
  }

  /**
   * `key_vals2paths` on tuples with distinct keys: one path per leaf of
   * the trie (a key no other key extends), in ascending key order; path
   * `k` spells the nibbles of leaf `k`'s key in hexadecimal once its
   * markers are deleted, and ends with `[v]` for its value `v`.  Every
   * leaf is one of the input tuples.
   */
  lemma KeyValsToPathsCorrect(kvs: seq<KeyVal>)
    requires DistinctKeys(kvs) && kvs != []
    ensures var es := Encode(SortByKey(kvs));
      var ls := Leaves(es, 0, |es|);
      var r := KeyValsToPaths(kvs);
      r.Paths? && Matches(r.paths, ls, 0) && InOrder(ls) &&
      (forall e | e in ls :: e in Encode(kvs))
  {
    var s := SortByKey(kvs);
    var es := Encode(s);
    SortedEncoding(kvs);
    BuildCorrect(es, 0, 0, |es|, "[]");
    LeavesInOrder(es, 0, |es|, 0);
    EncodeSame(kvs, s);
    LeavesKeep(es, 0, |es|, 0, (e: Entry) => e in Encode(kvs));
  }

  /** Sorted tuples with distinct keys become strictly ascending nibble strings. */
  lemma {:induction false} SortedEncoding(kvs: seq<KeyVal>)
    requires DistinctKeys(kvs)
    ensures var es := Encode(SortByKey(kvs));
      |es| == |kvs| && Ascending(es, 0, |es|) && SharePrefix(es, 0, 0, |es|)
  {
    var s := SortByKey(kvs);
    assert |s| == |multiset(s)| == |multiset(kvs)| == |kvs|;
    SortSorted(kvs);
    SameBagSameDistinct(kvs, s);
    DistinctSortedAscending(s);
    EncodeAscending(s);
  }

  /** Sorting changes only the order of the encoded tuples. */
  lemma EncodeSame(kvs: seq<KeyVal>, s: seq<KeyVal>)
    requires multiset(s) == multiset(kvs)
    ensures forall j | 0 <= j < |s| :: Encode(s)[j] in Encode(kvs)
  {
    forall j | 0 <= j < |s| ensures Encode(s)[j] in Encode(kvs) {
      assert s[j] in multiset(kvs);
      var i :| 0 <= i < |kvs| && kvs[i] == s[j];
      assert Encode(kvs)[i] == Encode(s)[j];
    }
  }

  /** Line numbers as values: the tuples have distinct keys exactly when the lines differ. */
  lemma NumberedDistinct(keys: seq<Key>)
    ensures DistinctKeys(Numbered(keys)) <==> forall j, k | 0 <= j < k < |keys| :: keys[j] != keys[k]
    ensures forall e | e in Encode(Numbered(keys)) :: e.value < |keys| && e.qkey == QbitStr(keys[e.value])
  {
    var kvs := Numbered(keys);
    assert forall j | 0 <= j < |keys| :: kvs[j].key == keys[j];
    forall e | e in Encode(kvs) ensures e.value < |keys| && e.qkey == QbitStr(keys[e.value]) {
      var i :| 0 <= i < |kvs| && Encode(kvs)[i] == e;
    }
  }

  /**
   * `keys2paths`: it raises `IndexError` exactly when a line repeats;
   * otherwise every path ends with the line number of its leaf's key.
   */
  lemma KeysToPathsCorrect(keys: seq<Key>)
    ensures KeysToPaths(keys).IndexError? <==> exists j, k | 0 <= j < k < |keys| :: keys[j] == keys[k]
    ensures (forall j, k | 0 <= j < k < |keys| :: keys[j] != keys[k]) && keys != [] ==>
      var es := Encode(SortByKey(Numbered(keys)));
      var ls := Leaves(es, 0, |es|);
      Matches(KeysToPaths(keys).paths, ls, 0) &&
      forall e | e in ls :: e.value < |keys| && e.qkey == QbitStr(keys[e.value])
  {
    var kvs := Numbered(keys);
    KeyValsToPathsRaises(kvs);
    NumberedDistinct(keys);
    if DistinctKeys(kvs) && keys != [] {
      KeyValsToPathsCorrect(kvs);
    }
  }

  // ---------------------------------------------------------------------
  // Examples

  /** One key `a` (0x61): the root, the edges 6 and 1, the value 0. */
  lemma ExampleOneKey()
    ensures KeysToPaths([[0x61]]) == Paths(["[]61[0]"])
  {
    ExampleOneKeyEntries();
    ExampleOneKeyBuild(Encode(SortByKey(Numbered([[0x61]]))));
  }

  lemma ExampleOneKeyEntries()
    ensures Encode(SortByKey(Numbered([[0x61]]))) == [Entry([6, 1], 0)]
  {
    var kvs := Numbered([[0x61]]);
    assert kvs == [KeyVal([0x61], 0)];
    assert SortByKey(kvs) == InsertByKey(kvs[0], SortByKey([])) == kvs;
    assert High(0x61) == 6 && Low(0x61) == 1;
    assert QbitStr([0x61]) == [6, 1];
  }

  lemma ExampleOneKeyBuild(es: seq<Entry>)
    requires es == [Entry([6, 1], 0)]
    ensures Build(es, 0, 0, 1, "[]") == Paths(["[]61[0]"])
  {
    ExampleOneKeyChain(es);
    var m := MarkerZero();
    var c1, c0 := HexDigit(1), HexDigit(6);
    assert c1 == '1' && c0 == '6';
    OneEdge("", c1, m);
    var p1 := "" + [c1] + m;
    assert p1 == "1[0]";
    OneEdge("[]", c0, p1);
    assert "[]" + [c0] + p1 == "[]61[0]";
  }

  /** The key `a` alone: a chain of two edges, 6 and 1, from the root to the value. */
  lemma ExampleOneKeyChain(es: seq<Entry>)
    requires es == [Entry([6, 1], 0)]
    ensures Build(es, 1, 0, 1, "") == Paths(Prefixed("" + [HexDigit(1)], [Marker(0)]))
    ensures Build(es, 0, 0, 1, "[]") == Paths(Prefixed("[]" + [HexDigit(6)], Build(es, 1, 0, 1, "").paths))
  {
    LeafBuild(es, 2, 0, "");
    ChainCollapses(es, 1, 0, 1, "");
    ChainCollapses(es, 0, 0, 1, "[]");
  }

  lemma MarkerZero() returns (m: string)
    ensures m == Marker(0) && m == "[0]"
  {
    m := Marker(0);
    assert NatToString(0) == "0";
  }

  lemma MarkerOne() returns (m: string)
    ensures m == Marker(1) && m == "[1]"
  {
    m := Marker(1);
    assert NatToString(1) == "1";
  }

  /** A lone exhausted key is shown as its value marker. */
  lemma LeafBuild(es: seq<Entry>, index: nat, j: nat, node: string)
    requires j < |es| && |es[j].qkey| <= index
    ensures Build(es, index, j, j + 1, node) == Paths([Marker(es[j].value)])
  {
  }

  lemma OneEdge(node: string, c: char, p: string)
    ensures Prefixed(node + [c], [p]) == [node + [c] + p]
  {
  }

  /** Keys `a` and `b` part ways below nibble 6: that node is shown as `[]`. */
  lemma ExampleTwoKeys()
    ensures KeysToPaths([[0x61], [0x62]]) == Paths(["[]6[]1[0]", "[]6[]2[1]"])
  {
    ExampleTwoKeysEntries();
    ExampleTwoKeysBuild(Encode(SortByKey(Numbered([[0x61], [0x62]]))));
  }

  lemma ExampleTwoKeysEntries()
    ensures Encode(SortByKey(Numbered([[0x61], [0x62]]))) == [Entry([6, 1], 0), Entry([6, 2], 1)]
  {
    var kvs := Numbered([[0x61], [0x62]]);
    assert kvs == [KeyVal([0x61], 0), KeyVal([0x62], 1)];
    ExampleTwoKeysSorted(kvs);
    ExampleTwoKeysEncoded(kvs);
  }

  lemma ExampleTwoKeysSorted(kvs: seq<KeyVal>)
    requires kvs == [KeyVal([0x61], 0), KeyVal([0x62], 1)]
    ensures SortByKey(kvs) == kvs
  {
    assert kvs[1..] == [kvs[1]];
    assert SortByKey([kvs[1]]) == [kvs[1]] by {
      assert [kvs[1]][1..] == [];
    }
    assert !KeyLess(kvs[1].key, kvs[0].key);
    assert InsertByKey(kvs[0], [kvs[1]]) == [kvs[0]] + [kvs[1]];
  }

  lemma ExampleTwoKeysEncoded(kvs: seq<KeyVal>)
    requires kvs == [KeyVal([0x61], 0), KeyVal([0x62], 1)]
    ensures Encode(kvs) == [Entry([6, 1], 0), Entry([6, 2], 1)]
  {
    assert High(0x61) == 6 && Low(0x61) == 1;
    assert High(0x62) == 6 && Low(0x62) == 2;
    assert QbitStr(kvs[0].key) == [6, 1];
    assert QbitStr(kvs[1].key) == [6, 2];
  }

  lemma ExampleTwoKeysBuild(es: seq<Entry>)
    requires es == [Entry([6, 1], 0), Entry([6, 2], 1)]
    ensures Build(es, 0, 0, 2, "[]") == Paths(["[]6[]1[0]", "[]6[]2[1]"])
  {
    ExampleTwoKeysBranch(es);
    ExampleTwoKeysAscending(es);
    ChainCollapses(es, 0, 0, 2, "[]");
    var c := HexDigit(es[0].qkey[0]);
    assert c == '6';
    var pre := "[]" + [c];
    assert pre == "[]6";
    PrefixedPair(pre, "[]1[0]", "[]2[1]");
    assert pre + "[]1[0]" == "[]6[]1[0]";
    assert pre + "[]2[1]" == "[]6[]2[1]";
  }

  lemma PrefixedPair(pre: string, a: string, b: string)
    ensures Prefixed(pre, [a, b]) == [pre + a, pre + b]
  {
  }

  lemma ExampleTwoKeysAscending(es: seq<Entry>)
    requires es == [Entry([6, 1], 0), Entry([6, 2], 1)]
    ensures Ascending(es, 0, 2)
  {
    assert NibblesLess(es[0].qkey, es[1].qkey) by {
      assert es[0].qkey[1..] == [1] && es[1].qkey[1..] == [2];
    }
  }

  lemma ExampleTwoKeysBranch(es: seq<Entry>)
    requires es == [Entry([6, 1], 0), Entry([6, 2], 1)]
    ensures Build(es, 1, 0, 2, "") == Paths(["[]1[0]", "[]2[1]"])
  {
    ExampleTwoKeysRuns(es);
    var m0 := MarkerZero();
    var m1 := MarkerOne();
    var c1, c2 := HexDigit(1), HexDigit(2);
    assert c1 == '1' && c2 == '2';
    OneEdge("[]", c1, m0);
    OneEdge("[]", c2, m1);
    var p1, p2 := "[]" + [c1] + m0, "[]" + [c2] + m1;
    assert p1 == "[]1[0]" && p2 == "[]2[1]";
    assert [p1] + [p2] == ["[]1[0]", "[]2[1]"];
  }

  /** Below nibble 6 the keys `a` and `b` form two runs, of the digits 1 and 2. */
  lemma ExampleTwoKeysRuns(es: seq<Entry>)
    requires es == [Entry([6, 1], 0), Entry([6, 2], 1)]
    ensures Build(es, 1, 0, 2, "") ==
      Paths(Prefixed("[]" + [HexDigit(1)], [Marker(0)]) + Prefixed("[]" + [HexDigit(2)], [Marker(1)]))
  {
    LeafBuild(es, 2, 0, "");
    LeafBuild(es, 2, 1, "");
    ScanStep(es, 1, 0, 0, 1, 2, "", []);
    var p1 := Prefixed("[]" + [HexDigit(1)], [Marker(0)]);
    assert [] + p1 == p1;
    ScanLastStep(es, 1, 0, 1, 2, "[]", p1);
  }

  /**
   * The empty key next to `a`: the empty key's marker `[0]` replaces the
   * root's `[]`, and the path of `a` hangs below it.
   */
  lemma ExampleEmptyKey()
    ensures KeysToPaths([[], [0x61]]) == Paths(["[0]61[1]"])
  {
    ExampleEmptyKeyEntries();
    ExampleEmptyKeyBuild(Encode(SortByKey(Numbered([[], [0x61]]))));
  }

  lemma ExampleEmptyKeyEntries()
    ensures Encode(SortByKey(Numbered([[], [0x61]]))) == [Entry([], 0), Entry([6, 1], 1)]
  {
    var kvs := Numbered([[], [0x61]]);
    assert kvs == [KeyVal([], 0), KeyVal([0x61], 1)];
    assert kvs[1..] == [kvs[1]];
    assert SortByKey([kvs[1]]) == [kvs[1]] by {
      assert [kvs[1]][1..] == [];
    }
    assert !KeyLess(kvs[1].key, kvs[0].key);
    assert InsertByKey(kvs[0], [kvs[1]]) == [kvs[0]] + [kvs[1]];
    assert SortByKey(kvs) == kvs;
    assert High(0x61) == 6 && Low(0x61) == 1;
    assert QbitStr(kvs[1].key) == [6, 1];
  }

  lemma ExampleEmptyKeyBuild(es: seq<Entry>)
    requires es == [Entry([], 0), Entry([6, 1], 1)]
    ensures Build(es, 0, 0, 2, "[]") == Paths(["[0]61[1]"])
  {
    var m0 := MarkerZero();
    var p1 := ExampleEmptyKeyTail(es);
    ExampleEmptyKeyRoot(es, m0);
    var c0 := HexDigit(6);
    assert c0 == '6';
    OneEdge(m0, c0, p1);
    assert m0 + [c0] + p1 == "[0]61[1]";
  }

  /** Below the root, the key `a` is a single run: the edge 1 and the value 1. */
  lemma ExampleEmptyKeyTail(es: seq<Entry>) returns (p1: string)
    requires es == [Entry([], 0), Entry([6, 1], 1)]
    ensures p1 == "1[1]" && Build(es, 1, 1, 2, "") == Paths([p1])
  {
    LeafBuild(es, 2, 1, "");
    ChainCollapses(es, 1, 1, 2, "");
    var m1 := MarkerOne();
    var c1 := HexDigit(1);
    assert c1 == '1';
    OneEdge("", c1, m1);
    p1 := "" + [c1] + m1;
  }

  /** The empty key is used up at the root: its marker leads the one run that follows. */
  lemma ExampleEmptyKeyRoot(es: seq<Entry>, m0: string)
    requires es == [Entry([], 0), Entry([6, 1], 1)] && m0 == Marker(0)
    requires Build(es, 1, 1, 2, "").Paths?
    ensures Build(es, 0, 0, 2, "[]") == Paths(Prefixed(m0 + [HexDigit(6)], Build(es, 1, 1, 2, "").paths))
  {
    assert Build(es, 0, 0, 2, "[]") == Scan(es, 0, 0, 1, 2, 2, m0, []);
    ScanLastStep(es, 0, 0, 1, 2, m0, []);
    assert [] + Prefixed(m0 + [HexDigit(6)], Build(es, 1, 1, 2, "").paths) ==
      Prefixed(m0 + [HexDigit(6)], Build(es, 1, 1, 2, "").paths);
  }
}
