/**
 * Keys, their 4-bit digits ("quad-bits", nibbles) and the textual renderings
 * that both the reference oracle (paths.py) and the trie serialiser
 * (trie.hxx, both revisions) use.
 *
 * A key is an arbitrary byte string.  Each byte contributes two nibbles,
 * the high one first, so a key of n bytes is a path of 2n nibbles.
 */
module Keys {

  /** A key: a byte string, possibly empty. */
  type Key = seq<bv8>

  /** A 4-bit digit. */
  type Nibble = x: int | 0 <= x < 16

  datatype Option<T> = None | Some(value: T)

  /** High nibble of a byte (`byte >> 4`). */
  function High(b: bv8): (n: Nibble)
    ensures n == b as int / 16
  {
    (b >> 4) as int
  }

  /** Low nibble of a byte (`byte & 0x0f`). */
  function Low(b: bv8): (n: Nibble)
    ensures n == b as int % 16
  {
    (b & 0x0f) as int
  }

  /**
   * The nibble string of a key: for every byte, its high nibble and then
   * its low nibble.
   */
  function QbitStr(k: Key): (q: seq<Nibble>)
    ensures |q| == 2 * |k|
    ensures forall i :: 0 <= i < |k| ==> q[2 * i] == High(k[i]) && q[2 * i + 1] == Low(k[i])
  {
    if k == [] then [] else [High(k[0]), Low(k[0])] + QbitStr(k[1..])
  }

  /** The nibble string of a concatenation is the concatenation of nibble strings. */
  lemma {:induction false} QbitStrAppend(a: Key, b: Key)
    ensures QbitStr(a + b) == QbitStr(a) + QbitStr(b)
  {
    if a != [] {
      assert (a + b)[1..] == a[1..] + b;
      QbitStrAppend(a[1..], b);
    } else {
      assert a + b == b;
    }
  }

  /** The byte a pair of nibbles came from. */
  lemma HighLowDetermineByte(a: bv8, b: bv8)
    requires High(a) == High(b) && Low(a) == Low(b)
    ensures a == b
  {
    assert a as int == 16 * High(a) + Low(a);
    assert b as int == 16 * High(b) + Low(b);
  }

  /** Distinct keys have distinct nibble strings. */
  lemma {:induction false} QbitStrInjective(a: Key, b: Key)
    requires QbitStr(a) == QbitStr(b)
    ensures a == b
  {
    assert |a| == |b|;
    forall i | 0 <= i < |a| ensures a[i] == b[i] {
      assert QbitStr(a)[2 * i] == QbitStr(b)[2 * i];
      assert QbitStr(a)[2 * i + 1] == QbitStr(b)[2 * i + 1];
      HighLowDetermineByte(a[i], b[i]);
    }
  }

  /** Nibble strings of a prefix are prefixes of the nibble string. */
  lemma {:induction false} QbitStrPrefix(k: Key, n: nat)
    requires n <= |k|
    ensures QbitStr(k[..n]) == QbitStr(k)[..2 * n]
  {
    var a, b := QbitStr(k[..n]), QbitStr(k)[..2 * n];
    assert |a| == |b|;
    forall j | 0 <= j < |a| ensures a[j] == b[j] {
      var i := j / 2;
      assert j == 2 * i || j == 2 * i + 1;
      assert k[..n][i] == k[i];
    }
  }

  // ---------------------------------------------------------------------
  // Orders

  /**
   * Lexicographic byte-string order (a strict prefix sorts first), the order
   * in which Python 2 compares `str` values.
   */
  predicate KeyLess(a: Key, b: Key)
  {
    if a == [] then b != []
    else if b == [] then false
    else a[0] < b[0] || (a[0] == b[0] && KeyLess(a[1..], b[1..]))
  }

  /**
   * Lexicographic order on digit strings (a strict prefix sorts first).  Its
   * arguments are nibble strings, or branch-index paths whose last digit may
   * be the sentinel 16 ("past the last branch").
   */
  predicate NibblesLess(a: seq<int>, b: seq<int>)
  {
    if a == [] then b != []
    else if b == [] then false
    else a[0] < b[0] || (a[0] == b[0] && NibblesLess(a[1..], b[1..]))
  }

  /** Comparing two bytes is comparing their high nibbles, then their low ones. */
  lemma ByteOrder(x: bv8, y: bv8)
    ensures x < y <==> High(x) < High(y) || (High(x) == High(y) && Low(x) < Low(y))
    ensures x == y <==> High(x) == High(y) && Low(x) == Low(y)
  {
    assert x as int == 16 * High(x) + Low(x);
    assert y as int == 16 * High(y) + Low(y);
    assert x < y <==> x as int < y as int;
  }

  /** Comparing strings that start with two digits each. */
  lemma NibblesLessPair(x0: int, x1: int, y0: int, y1: int, xs: seq<int>, ys: seq<int>)
    ensures NibblesLess([x0, x1] + xs, [y0, y1] + ys) <==>
      x0 < y0 || (x0 == y0 && (x1 < y1 || (x1 == y1 && NibblesLess(xs, ys))))
  {
    assert ([x0, x1] + xs)[1..] == [x1] + xs && ([x1] + xs)[1..] == xs;
    assert ([y0, y1] + ys)[1..] == [y1] + ys && ([y1] + ys)[1..] == ys;
  }

  /**
   * Splitting bytes into (high, low) nibbles preserves the order of keys in
   * both directions: comparing nibble strings digit by digit is comparing
   * the keys byte by byte.
   */
  lemma {:induction false} QbitStrPreservesOrder(a: Key, b: Key)
    ensures KeyLess(a, b) <==> NibblesLess(QbitStr(a), QbitStr(b))
  {
    if a != [] && b != [] {
      QbitStrPreservesOrder(a[1..], b[1..]);
      ByteOrder(a[0], b[0]);
      NibblesLessPair(High(a[0]), Low(a[0]), High(b[0]), Low(b[0]), QbitStr(a[1..]), QbitStr(b[1..]));
    } else if a == [] {
      assert QbitStr(a) == [];
    } else {
      assert QbitStr(b) == [];
    }
  }

  /** NibblesLess is a strict order: irreflexive ... */
  lemma {:induction false} NibblesLessIrreflexive(a: seq<int>)
    ensures !NibblesLess(a, a)
  {
    if a != [] {
      NibblesLessIrreflexive(a[1..]);
    }
  }

  /** ... and transitive ... */
  lemma {:induction false} NibblesLessTransitive(a: seq<int>, b: seq<int>, c: seq<int>)
    requires NibblesLess(a, b) && NibblesLess(b, c)
    ensures NibblesLess(a, c)
  {
    if a != [] && b != [] && c != [] && a[0] == b[0] == c[0] {
      NibblesLessTransitive(a[1..], b[1..], c[1..]);
    }
  }

  /** ... and total on distinct strings. */
  lemma {:induction false} NibblesLessTotal(a: seq<int>, b: seq<int>)
    requires a != b
    ensures NibblesLess(a, b) || NibblesLess(b, a)
  {
    if a != [] && b != [] && a[0] == b[0] {
      assert a == [a[0]] + a[1..] && b == [b[0]] + b[1..];
      NibblesLessTotal(a[1..], b[1..]);
    }
  }

  /** KeyLess is a strict total order on byte strings, as NibblesLess is on nibble strings. */
  lemma KeyLessStrictTotal(a: Key, b: Key, c: Key)
    ensures !KeyLess(a, a)
    ensures KeyLess(a, b) && KeyLess(b, c) ==> KeyLess(a, c)
    ensures a != b ==> KeyLess(a, b) || KeyLess(b, a)
  {
    QbitStrPreservesOrder(a, a);
    QbitStrPreservesOrder(a, b);
    QbitStrPreservesOrder(b, a);
    QbitStrPreservesOrder(b, c);
    QbitStrPreservesOrder(a, c);
    NibblesLessIrreflexive(QbitStr(a));
    if KeyLess(a, b) && KeyLess(b, c) {
      NibblesLessTransitive(QbitStr(a), QbitStr(b), QbitStr(c));
    }
    if a != b {
      if QbitStr(a) == QbitStr(b) {
        QbitStrInjective(a, b);
      }
      NibblesLessTotal(QbitStr(a), QbitStr(b));
    }
  }

  /** A strict prefix sorts before the string it prefixes. */
  lemma {:induction false} PrefixIsLess(a: seq<int>, b: seq<int>)
    requires |a| < |b| && a == b[..|a|]
    ensures NibblesLess(a, b)
  {
    if a != [] {
      assert a[1..] == b[1..][..|a| - 1];
      PrefixIsLess(a[1..], b[1..]);
    }
  }

  /**
   * Where two nibble strings first differ decides their order: if they
   * agree below `j` and differ at `j`, the smaller digit wins.
   */
  lemma {:induction false} FirstDifferenceDecides(a: seq<int>, b: seq<int>, j: nat)
    requires j < |a| && j < |b| && a[..j] == b[..j] && a[j] < b[j]
    ensures NibblesLess(a, b)
  {
    if j > 0 {
      assert a[0] == a[..j][0] == b[..j][0] == b[0];
      assert a[1..][..j - 1] == a[..j][1..] == b[..j][1..] == b[1..][..j - 1];
      FirstDifferenceDecides(a[1..], b[1..], j - 1);
    }
  }

  /**
   * The converse: if `a < b` and both extend a common prefix of length `n`
   * with `n` below both lengths, the digit at `n` of `a` is at most that of `b`.
   */
  lemma {:induction false} LessDigitAtCommonPrefix(a: seq<int>, b: seq<int>, n: nat)
    requires n < |a| && n < |b| && a[..n] == b[..n] && NibblesLess(a, b)
    ensures a[n] <= b[n]
  {
    if n > 0 {
      assert a[0] == a[..n][0] == b[..n][0] == b[0];
      assert a[1..][..n - 1] == a[..n][1..] == b[..n][1..] == b[1..][..n - 1];
      LessDigitAtCommonPrefix(a[1..], b[1..], n - 1);
    }
  }

  // ---------------------------------------------------------------------
  // Text

  /** One lower-case hexadecimal digit (`"%x"` of a nibble, `std::hex`). */
  function HexDigit(n: Nibble): (c: char)
    ensures c in "0123456789abcdef"
    ensures c != '[' && c != ']'
  {
    "0123456789abcdef"[n]
  }

  /** One hexadecimal digit per nibble. */
  function Hex(s: seq<Nibble>): (h: string)
    ensures |h| == |s|
    ensures forall i :: 0 <= i < |s| ==> h[i] == HexDigit(s[i])
  {
    if s == [] then "" else [HexDigit(s[0])] + Hex(s[1..])
  }

  lemma {:induction false} HexAppend(a: seq<Nibble>, b: seq<Nibble>)
    ensures Hex(a + b) == Hex(a) + Hex(b)
  {
    if a == [] {
      assert a + b == b;
    } else {
      assert (a + b)[0] == a[0] && (a + b)[1..] == a[1..] + b;
      HexAppend(a[1..], b);
    }
  }

  /** A decimal digit character. */
  function DecimalDigit(d: nat): (c: char)
    requires d < 10
    ensures c in "0123456789"
  {
    "0123456789"[d]
  }

  /** Decimal rendering of a natural number (`str(n)`, `operator <<` on int). */
  function NatToString(n: nat): (s: string)
    ensures |s| >= 1
    ensures forall i :: 0 <= i < |s| ==> s[i] in "0123456789"
    decreases n
  {
    if n < 10 then [DecimalDigit(n)] else NatToString(n / 10) + [DecimalDigit(n % 10)]
  }

  /** Distinct numbers render differently. */
  lemma {:induction false} NatToStringInjective(m: nat, n: nat)
    requires NatToString(m) == NatToString(n)
    ensures m == n
    decreases m
  {
    if m >= 10 && n >= 10 {
      var sm, sn := NatToString(m), NatToString(n);
      assert sm[..|sm| - 1] == NatToString(m / 10);
      assert sn[..|sn| - 1] == NatToString(n / 10);
      NatToStringInjective(m / 10, n / 10);
      assert DecimalDigit(m % 10) == sm[|sm| - 1] == sn[|sn| - 1] == DecimalDigit(n % 10);
    }
  }
}
