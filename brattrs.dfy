/**
 * The branch attributes of a node of the later revision (libtriexx): one
 * 32-bit word packing three branch indices, the node's own index in its
 * parent (bits 8-11), the index of its last child (bits 4-7) and of its
 * first child (bits 0-3).  A node without children has a first index
 * above its last one.
 */
module BrAttrs {
  import opened Keys

  type Attrs = bv32

  /** First child's branch index (`br_1st`). */
  function Br1st(a: Attrs): Nibble
  {
    (a & 0xf) as int
  }

  /** Last child's branch index (`br_last`). */
  function BrLast(a: Attrs): Nibble
  {
    ((a >> 4) & 0xf) as int
  }

  /** The node's own branch index (`br_own`). */
  function BrOwn(a: Attrs): Nibble
  {
    ((a >> 8) & 0xf) as int
  }

  /** The four bits of a branch index. */
  function Bits(ix: Nibble): (b: Attrs)
    ensures b < 16 && b as int == ix
  {
    ix as bv32
  }

  /** Packing three 4-bit fields and reading them back. */
  lemma PackBits(o: bv32, f: bv32, l: bv32)
    requires o < 16 && f < 16 && l < 16
    ensures var a := (o << 8) | (l << 4) | f;
      a & 0xf == f && (a >> 4) & 0xf == l && (a >> 8) & 0xf == o && a >> 12 == 0
  {
  }

  /** Overwriting bits 0-3. */
  lemma Set1stBits(a: bv32, f: bv32)
    requires f < 16
    ensures var r := (a & !0xf) | f;
      r & 0xf == f && (r >> 4) & 0xf == (a >> 4) & 0xf && (r >> 8) & 0xf == (a >> 8) & 0xf && r >> 12 == a >> 12
  {
  }

  /** Overwriting bits 4-7. */
  lemma SetLastBits(a: bv32, l: bv32)
    requires l < 16
    ensures var r := (a & !0xf0) | (l << 4);
      r & 0xf == a & 0xf && (r >> 4) & 0xf == l && (r >> 8) & 0xf == (a >> 8) & 0xf && r >> 12 == a >> 12
  {
  }

  /** Overwriting bits 0-7. */
  lemma SetBothBits(a: bv32, f: bv32, l: bv32)
    requires f < 16 && l < 16
    ensures var r := (a & !0xff) | (l << 4) | f;
      r & 0xf == f && (r >> 4) & 0xf == l && (r >> 8) & 0xf == (a >> 8) & 0xf && r >> 12 == a >> 12
  {
  }

  /** Overwriting bits 8-11. */
  lemma SetOwnBits(a: bv32, o: bv32)
    requires o < 16
    ensures var r := (a & !0xf00) | (o << 8);
      r & 0xf == a & 0xf && (r >> 4) & 0xf == (a >> 4) & 0xf && (r >> 8) & 0xf == o && r >> 12 == a >> 12
  {
  }

  /** The attributes a node is made with (`br_attrs_init`): each index reads back as given. */
  function Init(own: Nibble, first: Nibble, last: Nibble): (a: Attrs)
    ensures Br1st(a) == first && BrLast(a) == last && BrOwn(a) == own && a >> 12 == 0
  {
    PackBits(Bits(own), Bits(first), Bits(last));
    (Bits(own) << 8) | (Bits(last) << 4) | Bits(first)
  }

  /** Setting the first child's index changes only that field. */
  function SetBr1st(a: Attrs, ix: Nibble): (r: Attrs)
    ensures Br1st(r) == ix && BrLast(r) == BrLast(a) && BrOwn(r) == BrOwn(a) && r >> 12 == a >> 12
  {
    Set1stBits(a, Bits(ix));
    (a & !0xf) | Bits(ix)
  }

  /** Setting the last child's index changes only that field. */
  function SetBrLast(a: Attrs, ix: Nibble): (r: Attrs)
    ensures BrLast(r) == ix && Br1st(r) == Br1st(a) && BrOwn(r) == BrOwn(a) && r >> 12 == a >> 12
  {
    SetLastBits(a, Bits(ix));
    (a & !0xf0) | (Bits(ix) << 4)
  }

  /** Setting both child indices at once (`br_set`) keeps the own index. */
  function BrSet(a: Attrs, first: Nibble, last: Nibble): (r: Attrs)
    ensures Br1st(r) == first && BrLast(r) == last && BrOwn(r) == BrOwn(a) && r >> 12 == a >> 12
  {
    SetBothBits(a, Bits(first), Bits(last));
    (a & !0xff) | (Bits(last) << 4) | Bits(first)
  }

  /** Setting the own index keeps the child indices. */
  function SetBrOwn(a: Attrs, ix: Nibble): (r: Attrs)
    ensures BrOwn(r) == ix && Br1st(r) == Br1st(a) && BrLast(r) == BrLast(a) && r >> 12 == a >> 12
  {
    SetOwnBits(a, Bits(ix));
    (a & !0xf00) | (Bits(ix) << 8)
  }

  /**
   * The three indices of an attribute word, decoded.  The tree model keeps
   * these in its nodes; `Pack` and `Unpack` show the word and the fields
   * carry the same information, and the `...Packed` lemmas that each word
   * operation is the matching field update.
   */
  datatype Br = Br(own: Nibble, first: Nibble, last: Nibble)

  /** The word for the fields (the upper 20 bits clear, as `br_attrs_init` leaves them). */
  function Pack(f: Br): (a: Attrs)
    ensures Unpack(a) == f && a >> 12 == 0
  {
    Init(f.own, f.first, f.last)
  }

  /** The fields of a word. */
  function Unpack(a: Attrs): Br
  {
    Br(BrOwn(a), Br1st(a), BrLast(a))
  }

  /** A word with clear upper bits is determined by its fields. */
  lemma UnpackInjective(a: Attrs, b: Attrs)
    requires a >> 12 == b >> 12 && Unpack(a) == Unpack(b)
    ensures a == b
  {
    FieldBits(a, b);
  }

  /** Bit-level form of `UnpackInjective`. */
  lemma FieldBits(a: bv32, b: bv32)
    requires a >> 12 == b >> 12 && a & 0xf == b & 0xf && (a >> 4) & 0xf == (b >> 4) & 0xf && (a >> 8) & 0xf == (b >> 8) & 0xf
    ensures a == b
  {
  }

  /** Packing the fields of a word with clear upper bits gives the word back. */
  lemma PackUnpack(a: Attrs)
    requires a >> 12 == 0
    ensures Pack(Unpack(a)) == a
  {
    UnpackInjective(Pack(Unpack(a)), a);
  }

  /** `br_1st(ix)` on a word is the update of the first child's index. */
  lemma SetBr1stPacked(f: Br, ix: Nibble)
    ensures SetBr1st(Pack(f), ix) == Pack(f.(first := ix))
  {
    UnpackInjective(SetBr1st(Pack(f), ix), Pack(f.(first := ix)));
  }

  /** `br_last(ix)` on a word is the update of the last child's index. */
  lemma SetBrLastPacked(f: Br, ix: Nibble)
    ensures SetBrLast(Pack(f), ix) == Pack(f.(last := ix))
  {
    UnpackInjective(SetBrLast(Pack(f), ix), Pack(f.(last := ix)));
  }

  /** `br_set(first, last)` on a word is the update of both child indices. */
  lemma BrSetPacked(f: Br, first: Nibble, last: Nibble)
    ensures BrSet(Pack(f), first, last) == Pack(f.(first := first, last := last))
  {
    UnpackInjective(BrSet(Pack(f), first, last), Pack(f.(first := first, last := last)));
  }

  /** `br_own(ix)` on a word is the update of the own index. */
  lemma SetBrOwnPacked(f: Br, ix: Nibble)
    ensures SetBrOwn(Pack(f), ix) == Pack(f.(own := ix))
  {
    UnpackInjective(SetBrOwn(Pack(f), ix), Pack(f.(own := ix)));
  }

  /** A new node's fields (the node constructor's defaults 1 and 0 make a leaf). */
  function NewBr(own: Nibble, first: Nibble := 1, last: Nibble := 0): (f: Br)
    ensures Pack(f) == Init(own, first, last)
  {
    Br(own, first, last)
  }

  /** The node has no child (`is_leaf`). */
  predicate IsLeaf(f: Br)
  {
    f.first > f.last
  }

  /** The node has exactly one child (`has_only_son`). */
  predicate HasOnlySon(f: Br)
  {
    f.first == f.last
  }

  /**
   * Widening the child range to take in branch `ix`, as `insert_node` does
   * before hanging a new leaf: a childless node's range becomes `ix` alone,
   * any other range is stretched just enough.
   */
  function Widen(f: Br, ix: Nibble): (r: Br)
    ensures r.own == f.own && r.first <= ix <= r.last
    ensures IsLeaf(f) ==> r.first == ix == r.last
    ensures !IsLeaf(f) ==> r.first == Min(f.first, ix) && r.last == Max(f.last, ix)
  {
    if IsLeaf(f) then f.(first := ix, last := ix)
    else
      var f1 := if f.first > ix then f.(first := ix) else f;
      if f1.last < ix then f1.(last := ix) else f1
  }

  /**
   * The word operations `insert_node` performs to widen the range (a
   * `br_set` for a leaf, else a `br_1st` and a `br_last` where needed)
   * produce the word of `Widen`.
   */
  lemma WidenPacked(f: Br, ix: Nibble)
    ensures var a := Pack(f);
      var w := if Br1st(a) > BrLast(a) then BrSet(a, ix, ix)
        else (var a1 := if Br1st(a) > ix then SetBr1st(a, ix) else a;
              if BrLast(a1) < ix then SetBrLast(a1, ix) else a1);
      w == Pack(Widen(f, ix))
  {
    if IsLeaf(f) {
      BrSetPacked(f, ix, ix);
    } else {
      var f1 := if f.first > ix then f.(first := ix) else f;
      if f.first > ix {
        SetBr1stPacked(f, ix);
      }
      if f1.last < ix {
        SetBrLastPacked(f1, ix);
      }
    }
  }

  function Min(x: int, y: int): int { if x < y then x else y }

  function Max(x: int, y: int): int { if x < y then y else x }
}
