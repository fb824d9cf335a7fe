/**
 * Small concrete tries, used to exhibit how the positional inserts of the
 * two revisions go wrong.  Items carry values 0 and 1; the attribute of
 * every node is the parameter `a`.
 */
module TrieExamples {
  import opened Keys
  import opened Paths
  import opened TrieCore
  import opened TrieSearch

  /** The keys "a", "ab", "aq" and "q". */
  const KeyA: Key := [0x61]
  const KeyAB: Key := [0x61, 0x62]
  const KeyAQ: Key := [0x61, 0x71]
  const KeyQ: Key := [0x71]

  /** Nibble strings of the example keys. */
  lemma ExampleNibbles()
    ensures QbitStr(KeyA) == [6, 1] && QbitStr(KeyQ) == [7, 1]
    ensures QbitStr(KeyAB) == [6, 1, 6, 2] && QbitStr(KeyAQ) == [6, 1, 7, 1]
  {
    assert High(0x61) == 6 && Low(0x61) == 1 && High(0x62) == 6 && Low(0x62) == 2;
    assert High(0x71) == 7 && Low(0x71) == 1;
  }

  /** A leaf holding the item `key -> v`. */
  function ItemLeaf<A>(key: Key, v: nat, a: A): Node<A>
  {
    Node(Some(KeyVal(key, v)), key, 2 * |key|, NoBranches(), a)
  }

  /**
   * The trie holding "ab" and "aq": below the root, an interim node for
   * "a" (path 6 1) with the two leaves on its branches 6 and 7.
   */
  function TwoKeys<A>(a: A): Node<A>
  {
    var i := Node(None, KeyAB, 2, NoBranches()[6 := Some(ItemLeaf(KeyAB, 0, a))][7 := Some(ItemLeaf(KeyAQ, 1, a))], a);
    Node(None, [], 0, NoBranches()[6 := Some(i)], a)
  }

  /** The trie holding only "a": a leaf on the root's branch 6 (root attribute `ra`, leaf attribute `la`). */
  function OneKey<A>(ra: A, la: A): Node<A>
  {
    Node(None, [], 0, NoBranches()[6 := Some(ItemLeaf(KeyA, 0, la))], ra)
  }

  /** A leaf holding an item is well formed. */
  lemma ItemLeafWF<A>(key: Key, v: nat, a: A)
    ensures WF(ItemLeaf(key, v, a))
  {
  }

  /** `TwoKeys` is well formed. */
  lemma TwoKeysWF<A>(a: A)
    ensures WF(TwoKeys(a)) && TwoKeys(a).qlen == 0
  {
    ExampleNibbles();
    var l1 := ItemLeaf(KeyAB, 0, a);
    var l2 := ItemLeaf(KeyAQ, 1, a);
    ItemLeafWF(KeyAB, 0, a);
    ItemLeafWF(KeyAQ, 1, a);
    var i := TwoKeys(a).branches[6].value;
    assert ChildOK(i, 6, l1) && ChildOK(i, 7, l2);
    assert forall b: Nibble :: i.branches[b].Some? ==> b == 6 || b == 7;
    assert WF(i);
    assert ChildOK(TwoKeys(a), 6, i);
    assert forall b: Nibble :: TwoKeys(a).branches[b].Some? ==> b == 6;
  }

  /** In `TwoKeys`, "a" ends at the interim node, which has no item. */
  lemma TwoKeysShape<A>(a: A)
    ensures WF(TwoKeys(a)) && TwoKeys(a).qlen == 0
    ensures NodeAt(TwoKeys(a), [6]).Some? && NodeAt(TwoKeys(a), [6]).value.qlen == 2 * |KeyA|
    ensures Locate(TwoKeys(a), [], QbitStr(KeyA)) == Matched([6], false)
  {
    TwoKeysWF(a);
    ExampleNibbles();
    var t := TwoKeys(a);
    var i := t.branches[6].value;
    var k := QbitStr(KeyA);
    assert [6][1..] == [];
    assert Path(i) == [6, 1] == k[..2];
    assert OnPath(t, k) && t.branches[k[0]] == Some(i);
    DescendInto(t, [], i, k);
    assert [] + [6] == [6];
  }

  /** `OneKey` is well formed, and tracing "q" misses at its root, on the empty branch 7. */
  lemma OneKeyShape<A>(ra: A, la: A)
    ensures WF(OneKey(ra, la)) && OneKey(ra, la).qlen == 0
    ensures OneKey(ra, la).branches[7].None?
    ensures Locate(OneKey(ra, la), [], QbitStr(KeyQ)) == Missed([], 0)
  {
    ExampleNibbles();
    var l := ItemLeaf(KeyA, 0, la);
    ItemLeafWF(KeyA, 0, la);
    assert ChildOK(OneKey(ra, la), 6, l);
    assert forall b: Nibble :: OneKey(ra, la).branches[b].Some? ==> b == 6;
  }
}
