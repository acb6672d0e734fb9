/** What several of the models need: machine integers, products and remainders, sequences as sets. */
module Basics {

  type Byte = x: int | 0 <= x < 256

  const UINT_MODULUS: int := 0x1_0000_0000

  /** Conversion to a 32-bit unsigned integer; a value already in range is kept. */
  function U32(x: int): (r: nat)
    ensures r < UINT_MODULUS
    ensures 0 <= x < UINT_MODULUS ==> r == x
  {
    x % 0x1_0000_0000
  }

  function Min(a: int, b: int): int { if a < b then a else b }

  // ---- Products and remainders ----

  lemma MulMono(a: int, b: int, d: nat)
    requires a <= b
    ensures a * d <= b * d
  {}

  /** Quotient and remainder are the only pair with the division property. */
  lemma ModUnique(x: nat, q: nat, r: nat, d: nat)
    requires x == q * d + r && r < d
    ensures x / d == q && x % d == r
  {
    var q', r' := x / d, x % d;
    assert q' * d + r' == q * d + r;
    if q' < q { MulMono(q' + 1, q, d); assert false; }
    if q' > q { MulMono(q + 1, q', d); assert false; }
  }

  // ---- Sequences as sets ----

  ghost function Elements<T>(s: seq<T>): set<T> { set x | x in s }

  ghost predicate NoDuplicates<T>(s: seq<T>) {
    forall i, j | 0 <= i < j < |s| :: s[i] != s[j]
  }

  lemma ElementsSnoc<T>(s: seq<T>, x: T)
    ensures Elements(s + [x]) == Elements(s) + {x}
    ensures x in s <==> x in Elements(s)
    ensures x in Elements(s) ==> Elements(s) == Elements(s) + {x}
  {}

  lemma {:induction false} DistinctSize<T>(s: seq<T>)
    requires NoDuplicates(s)
    ensures |Elements(s)| == |s|
    decreases |s|
  {
    if s != [] {
      var front, last := s[..|s| - 1], s[|s| - 1];
      DistinctSize(front);
      assert s == front + [last];
      ElementsSnoc(front, last);
      assert last !in front;
    }
  }

  lemma SubsetSize<T>(a: set<T>, b: set<T>)
    requires a <= b
    ensures |a| <= |b|
    ensures |a| == |b| ==> a == b
  {
    assert b == a + (b - a);
  }
}
