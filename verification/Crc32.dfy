/** CRC-32 of a byte stream: the table-driven, eight times unrolled update against the
    bit-serial definition of section 8 of RFC 1952, and the algebra that makes it detect bursts. */
module Crc32 {

  const POLY: bv32 := 0xedb88320

  // ---- The bit-serial definition ----

  /** One shift of the reflected register. */
  function Step(c: bv32): bv32 {
    if c & 1 == 1 then POLY ^ (c >> 1) else c >> 1
  }

  function StepN(c: bv32, n: nat): bv32
    decreases n
  {
    if n == 0 then c else StepN(Step(c), n - 1)
  }

  /** One message bit enters at the low end. */
  function Enter(c: bv32, bit: bool): bv32 { if bit then c ^ 1 else c }

  function Feed(c: bv32, bit: bool): bv32 { Step(Enter(c, bit)) }

  /** Feeds message bits, first bit first, into the register. */
  function RunBits(c: bv32, bits: seq<bool>): bv32
    decreases |bits|
  {
    if bits == [] then c else RunBits(Feed(c, bits[0]), bits[1..])
  }

  /** The low `n` bits of `w`, least significant first. */
  function LowBits(w: bv32, n: nat): (bits: seq<bool>)
    ensures |bits| == n
  {
    if n == 0 then [] else [w & 1 == 1] + LowBits(w >> 1, n - 1)
  }

  /** The bits of a byte in the order in which they enter the register. */
  function Bits(b: bv8): (bits: seq<bool>)
    ensures |bits| == 8
  {
    LowBits(b as bv32, 8)
  }

  function MessageBits(m: seq<bv8>): (bits: seq<bool>)
    ensures |bits| == 8 * |m|
  {
    if m == [] then [] else Bits(m[0]) + MessageBits(m[1..])
  }

  /** The CRC-32 of `m` continued from the CRC `crc` of what came before it. */
  function Crc(crc: bv32, m: seq<bv8>): bv32 {
    Complement(RunBits(Complement(crc), MessageBits(m)))
  }

  function Complement(c: bv32): bv32 { c ^ 0xffffffff }

  // ---- Algebra of the register over GF(2) ----

  /** `c` is the sum of `a` and `b` over GF(2). */
  predicate Sum(c: bv32, a: bv32, b: bv32) { c == a ^ b }

  lemma ShiftXor(a: bv32, b: bv32)
    ensures (a ^ b) >> 1 == (a >> 1) ^ (b >> 1)
    ensures (a ^ b) & 1 == (a & 1) ^ (b & 1)
    ensures a & 1 == 0 || a & 1 == 1
    ensures b & 1 == 0 || b & 1 == 1
  {}

  /** The shift is linear. */
  lemma StepSum(c: bv32, a: bv32, b: bv32)
    requires Sum(c, a, b)
    ensures Sum(Step(c), Step(a), Step(b))
  {
    ShiftXor(a, b);
    var x, y := a >> 1, b >> 1;
    assert (POLY ^ x) ^ (POLY ^ y) == x ^ y;
    assert (POLY ^ x) ^ y == POLY ^ (x ^ y);
    assert x ^ (POLY ^ y) == POLY ^ (x ^ y);
  }

  lemma {:induction false} StepNSum(c: bv32, a: bv32, b: bv32, n: nat)
    requires Sum(c, a, b)
    ensures Sum(StepN(c, n), StepN(a, n), StepN(b, n))
    decreases n
  {
    if n > 0 {
      StepSum(c, a, b);
      StepNSum(Step(c), Step(a), Step(b), n - 1);
    }
  }

  /** The top bit of the polynomial is set, so the shift loses nothing. */
  lemma StepInjective(a: bv32, b: bv32)
    requires Step(a) == Step(b)
    ensures a == b
  {}

  lemma {:induction false} StepNInjective(a: bv32, b: bv32, n: nat)
    requires StepN(a, n) == StepN(b, n)
    ensures a == b
    decreases n
  {
    if n > 0 {
      StepNInjective(Step(a), Step(b), n - 1);
      StepInjective(a, b);
    }
  }

  lemma EnterInjective(a: bv32, b: bv32, bit: bool)
    requires Enter(a, bit) == Enter(b, bit)
    ensures a == b
  {}

  lemma FeedInjective(a: bv32, b: bv32, bit: bool)
    requires Feed(a, bit) == Feed(b, bit)
    ensures a == b
  {
    StepInjective(Enter(a, bit), Enter(b, bit));
    EnterInjective(a, b, bit);
  }

  lemma {:induction false} RunBitsInjective(a: bv32, b: bv32, bits: seq<bool>)
    requires RunBits(a, bits) == RunBits(b, bits)
    ensures a == b
    decreases |bits|
  {
    if bits != [] {
      RunBitsInjective(Feed(a, bits[0]), Feed(b, bits[0]), bits[1..]);
      FeedInjective(a, b, bits[0]);
    }
  }

  lemma SumCancels(s: bv32, a: bv32, b: bv32, k: bv32)
    requires Sum(s, a, k) && Sum(s, b, k)
    ensures a == b
  {
    XorTwice(a, k);
    XorTwice(b, k);
  }

  lemma Commutes(s: bv32, a: bv32, b: bv32)
    requires s == a ^ b
    ensures Sum(s, a, b) && Sum(s, b, a)
  {}

  lemma XorTwice(a: bv32, k: bv32)
    ensures (a ^ k) ^ k == a && (a ^ k) ^ a == k
  {}

  lemma {:induction false} RunBitsAppend(c: bv32, a: seq<bool>, b: seq<bool>)
    ensures RunBits(c, a + b) == RunBits(RunBits(c, a), b)
    decreases |a|
  {
    if a == [] {
      assert a + b == b;
    } else {
      assert (a + b)[1..] == a[1..] + b;
      RunBitsAppend(Feed(c, a[0]), a[1..], b);
    }
  }

  // ---- Up to 32 bits at once ----

  /** The word whose bit `i` is the `i`-th of `bits`. */
  function Word(bits: seq<bool>): bv32
    decreases |bits|
  {
    if bits == [] then 0 else Push(bits[0], Word(bits[1..]))
  }

  function Push(bit: bool, w: bv32): bv32 { if bit then (w << 1) | 1 else w << 1 }

  predicate AtMost(w: bv32, m: bv32) { w <= m }

  /** `p` is `w` with `bit` below it. */
  predicate Splits(p: bv32, bit: bool, w: bv32) { p >> 1 == w && p & 1 == if bit then 1 else 0 }

  /** `m` is one less than a power of two. */
  predicate Filled(m: bv32) { m & (m + 1) == 0 }

  lemma ShiftBack(w: bv32)
    requires w & 0x80000000 == 0
    ensures (w << 1) >> 1 == w && (w << 1) & 1 == 0
    ensures ((w << 1) | 1) >> 1 == w && ((w << 1) | 1) & 1 == 1
  {}

  lemma ShiftBound(w: bv32, m: bv32)
    requires w <= m >> 1
    ensures w & 0x80000000 == 0
    ensures m & 1 == 1 ==> w << 1 <= m && (w << 1) | 1 <= m
  {}

  lemma FilledIsOdd(m: bv32)
    requires m & (m + 1) == 0 && m != 0
    ensures m & 1 == 1
  {}

  lemma PushFacts(bit: bool, w: bv32, m: bv32)
    requires AtMost(w, m >> 1)
    ensures Filled(m) && m != 0 ==> AtMost(Push(bit, w), m)
    ensures Splits(Push(bit, w), bit, w)
  {
    ShiftBound(w, m);
    ShiftBack(w);
    if Filled(m) && m != 0 {
      FilledIsOdd(m);
    }
    assert Splits(w << 1, false, w) && Splits((w << 1) | 1, true, w);
    assert Filled(m) && m != 0 ==> AtMost(w << 1, m) && AtMost((w << 1) | 1, m);
  }

  lemma SplitsUnique(p: bv32, bit: bool, w: bv32, bit': bool, w': bv32)
    requires Splits(p, bit, w) && Splits(p, bit', w')
    ensures bit == bit' && w == w'
  {}

  lemma PushInjective(bit: bool, w: bv32, bit': bool, w': bv32)
    requires AtMost(w, 0x7fffffff) && AtMost(w', 0x7fffffff)
    requires Push(bit, w) == Push(bit', w')
    ensures bit == bit' && w == w'
  {
    PushFacts(bit, w, 0xffffffff);
    PushFacts(bit', w', 0xffffffff);
    SplitsUnique(Push(bit, w), bit, w, bit', w');
  }

  /** The largest word whose top `k + 1` bits are clear. */
  function Low(k: nat): bv32 {
    if k == 0 then 0x7fffffff else Low(k - 1) >> 1
  }

  lemma FilledShift(m: bv32)
    requires Filled(m) && AtMost(m, 0x7fffffff)
    ensures Filled(m >> 1) && AtMost(m >> 1, 0x7fffffff)
  {}

  lemma {:induction false} LowFilled(k: nat)
    ensures Filled(Low(k)) && AtMost(Low(k), 0x7fffffff)
  {
    if k > 0 {
      LowFilled(k - 1);
      FilledShift(Low(k - 1));
    }
  }

  lemma Low30()
    ensures Low(30) == 1
  {
    assert Low(10) == 0x1fffff;
    assert Low(20) == 0x7ff;
  }

  lemma {:induction false} LowNonzero(k: nat)
    requires k <= 30
    ensures Low(k) != 0
    decreases 30 - k
  {
    if k == 30 {
      Low30();
    } else {
      LowNonzero(k + 1);
    }
  }

  lemma {:induction false} WordBound(bits: seq<bool>)
    requires |bits| <= 31
    ensures AtMost(Word(bits), Low(31 - |bits|)) && AtMost(Word(bits), 0x7fffffff)
    decreases |bits|
  {
    var k := 31 - |bits|;
    LowFilled(k);
    if bits != [] {
      WordBound(bits[1..]);
      LowNonzero(k);
      PushFacts(bits[0], Word(bits[1..]), Low(k));
    }
    AtMostTransitive(Word(bits), Low(k));
  }

  lemma AtMostTransitive(a: bv32, b: bv32)
    requires AtMost(a, b) && AtMost(b, 0x7fffffff)
    ensures AtMost(a, 0x7fffffff)
  {}

  /** A register that holds the message bits to come is shifted to one that holds the rest of them. */
  lemma Peel(c: bv32, bit: bool, rest: bv32, s: bv32)
    requires AtMost(rest, 0x7fffffff)
    requires Sum(s, c, Push(bit, rest))
    ensures Sum(Step(s), Feed(c, bit), rest)
  {
    PushSum(c, bit, rest, s);
    StepSum(s, Enter(c, bit), rest << 1);
    ShiftedOut(rest);
  }

  lemma PushSum(c: bv32, bit: bool, rest: bv32, s: bv32)
    requires Sum(s, c, Push(bit, rest))
    ensures Sum(s, Enter(c, bit), rest << 1)
  {}

  lemma ShiftedOut(rest: bv32)
    requires AtMost(rest, 0x7fffffff)
    ensures Step(rest << 1) == rest
  {}

  /** Up to 32 bits may be added to the register at once before shifting it. */
  lemma {:induction false} RunBitsIsWord(c: bv32, bits: seq<bool>, s: bv32)
    requires |bits| <= 32 && Sum(s, c, Word(bits))
    ensures RunBits(c, bits) == StepN(s, |bits|)
    decreases |bits|
  {
    if bits != [] {
      WordBound(bits[1..]);
      Peel(c, bits[0], Word(bits[1..]), s);
      RunBitsIsWord(Feed(c, bits[0]), bits[1..], Step(s));
    }
  }

  lemma {:induction false} WordInjective(u: seq<bool>, v: seq<bool>)
    requires |u| == |v| <= 32 && Word(u) == Word(v)
    ensures u == v
    decreases |u|
  {
    if u != [] {
      WordBound(u[1..]);
      WordBound(v[1..]);
      PushInjective(u[0], Word(u[1..]), v[0], Word(v[1..]));
      WordInjective(u[1..], v[1..]);
      assert u == [u[0]] + u[1..] && v == [v[0]] + v[1..];
    }
  }

  /** Within 32 bits the register tells all bit strings apart. */
  lemma BurstChangesRegister(c: bv32, u: seq<bool>, v: seq<bool>)
    requires |u| == |v| <= 32 && RunBits(c, u) == RunBits(c, v)
    ensures u == v
  {
    var s, t := Word(u) ^ c, Word(v) ^ c;
    Commutes(s, Word(u), c);
    Commutes(t, Word(v), c);
    RunBitsIsWord(c, u, s);
    RunBitsIsWord(c, v, t);
    StepNInjective(s, t, |u|);
    SumCancels(s, Word(u), Word(v), c);
    WordInjective(u, v);
  }

  // ---- Bytes ----

  ghost predicate Fits(w: bv32, n: nat) {
    if n == 0 then w == 0 else Fits(w >> 1, n - 1)
  }

  lemma ShiftDown(w: bv32)
    ensures w & 1 == 1 ==> ((w >> 1) << 1) | 1 == w
    ensures w & 1 != 1 ==> (w >> 1) << 1 == w
  {}

  lemma PushLowBit(w: bv32)
    ensures Push(w & 1 == 1, w >> 1) == w
  {
    ShiftDown(w);
  }

  lemma {:induction false} WordOfLowBits(w: bv32, n: nat)
    requires Fits(w, n)
    ensures Word(LowBits(w, n)) == w
    decreases n
  {
    if n > 0 {
      WordOfLowBits(w >> 1, n - 1);
      PushLowBit(w);
      assert LowBits(w, n)[1..] == LowBits(w >> 1, n - 1);
    }
  }

  lemma ByteFits(w: bv32)
    requires w <= 0xff
    ensures Fits(w, 8)
  {
    assert w >> 1 >> 1 >> 1 >> 1 >> 1 >> 1 >> 1 >> 1 == 0;
    assert Fits(w >> 1 >> 1 >> 1 >> 1 >> 1 >> 1 >> 1 >> 1, 0);
    assert Fits(w >> 1 >> 1 >> 1 >> 1 >> 1 >> 1, 2);
    assert Fits(w >> 1 >> 1 >> 1 >> 1, 4);
    assert Fits(w >> 1 >> 1, 6);
  }

  lemma ByteRange(b: bv8)
    ensures b as bv32 <= 0xff
  {}

  /** One byte through the register. */
  function ByteStep(c: bv32, b: bv8): bv32 { StepN(c ^ b as bv32, 8) }

  lemma ByteStepIsBitSerial(c: bv32, b: bv8)
    ensures ByteStep(c, b) == RunBits(c, Bits(b))
  {
    ByteRange(b);
    ByteFits(b as bv32);
    WordOfLowBits(b as bv32, 8);
    assert Sum(c ^ b as bv32, c, Word(Bits(b)));
    RunBitsIsWord(c, Bits(b), c ^ b as bv32);
  }

  lemma {:induction false} MessageBitsAppend(a: seq<bv8>, b: seq<bv8>)
    ensures MessageBits(a + b) == MessageBits(a) + MessageBits(b)
    decreases |a|
  {
    if a == [] {
      assert a + b == b;
    } else {
      assert (a + b)[1..] == a[1..] + b;
      MessageBitsAppend(a[1..], b);
    }
  }

  lemma BitsInjective(a: bv8, b: bv8)
    requires Bits(a) == Bits(b)
    ensures a == b
  {
    ByteRange(a);
    ByteRange(b);
    ByteFits(a as bv32);
    ByteFits(b as bv32);
    WordOfLowBits(a as bv32, 8);
    WordOfLowBits(b as bv32, 8);
    WidenInjective(a, b);
  }

  lemma WidenInjective(a: bv8, b: bv8)
    requires a as bv32 == b as bv32
    ensures a == b
  {}

  lemma {:induction false} MessageBitsInjective(a: seq<bv8>, b: seq<bv8>)
    requires |a| == |b| && MessageBits(a) == MessageBits(b)
    ensures a == b
    decreases |a|
  {
    if a != [] {
      assert Bits(a[0]) == MessageBits(a)[..8] && Bits(b[0]) == MessageBits(b)[..8];
      assert MessageBits(a[1..]) == MessageBits(a)[8..] && MessageBits(b[1..]) == MessageBits(b)[8..];
      BitsInjective(a[0], b[0]);
      MessageBitsInjective(a[1..], b[1..]);
      assert a == [a[0]] + a[1..] && b == [b[0]] + b[1..];
    }
  }

  // ---- What the CRC guarantees ----

  lemma ComplementTwice(c: bv32)
    ensures Complement(Complement(c)) == c
  {}

  /** Continuing a CRC over a second chunk gives the CRC of both. */
  lemma ChunkIndependence(crc: bv32, a: seq<bv8>, b: seq<bv8>)
    ensures Crc(Crc(crc, a), b) == Crc(crc, a + b)
  {
    MessageBitsAppend(a, b);
    RunBitsAppend(Complement(crc), MessageBits(a), MessageBits(b));
    ComplementTwice(RunBits(Complement(crc), MessageBits(a)));
  }

  lemma ComplementInjective(a: bv32, b: bv32)
    requires Complement(a) == Complement(b)
    ensures a == b
  {}

  lemma RunInThree(c: bv32, x: seq<bool>, i: nat, j: nat)
    requires i <= j <= |x|
    ensures RunBits(c, x) == RunBits(RunBits(RunBits(c, x[..i]), x[i..j]), x[j..])
  {
    assert x == x[..i] + x[i..] && x[i..] == x[i..j] + x[j..];
    RunBitsAppend(c, x[..i], x[i..]);
    RunBitsAppend(RunBits(c, x[..i]), x[i..j], x[j..]);
  }

  lemma BurstInBits(c: bv32, x: seq<bool>, y: seq<bool>, i: nat)
    requires |x| == |y| && i <= |x|
    requires forall k | 0 <= k < |x| && !(i <= k < i + 32) :: x[k] == y[k]
    requires RunBits(c, x) == RunBits(c, y)
    ensures x == y
  {
    var j := if i + 32 <= |x| then i + 32 else |x|;
    RunInThree(c, x, i, j);
    RunInThree(c, y, i, j);
    SameEnds(x, y, i, j);
    var d := RunBits(c, x[..i]);
    RunBitsInjective(RunBits(d, x[i..j]), RunBits(d, y[i..j]), x[j..]);
    BurstChangesRegister(d, x[i..j], y[i..j]);
    InThree(x, i, j);
    InThree(y, i, j);
  }

  lemma SameEnds(x: seq<bool>, y: seq<bool>, i: nat, j: nat)
    requires |x| == |y| && i <= j <= |x|
    requires forall k | 0 <= k < |x| && !(i <= k < j) :: x[k] == y[k]
    ensures x[..i] == y[..i] && x[j..] == y[j..]
  {}

  lemma InThree(x: seq<bool>, i: nat, j: nat)
    requires i <= j <= |x|
    ensures x == x[..i] + x[i..j] + x[j..]
  {}

  /** Two different messages of one length whose bits differ only inside some 32 consecutive
      positions never have the same CRC, whatever CRC they continue. */
  lemma BurstDetected(crc: bv32, x: seq<bv8>, y: seq<bv8>, i: nat)
    requires |x| == |y| && x != y && i <= 8 * |x|
    requires forall k | 0 <= k < 8 * |x| && !(i <= k < i + 32) :: MessageBits(x)[k] == MessageBits(y)[k]
    ensures Crc(crc, x) != Crc(crc, y)
  {
    if Crc(crc, x) == Crc(crc, y) {
      var c := Complement(crc);
      ComplementInjective(RunBits(c, MessageBits(x)), RunBits(c, MessageBits(y)));
      BurstInBits(c, MessageBits(x), MessageBits(y), i);
      MessageBitsInjective(x, y);
    }
  }

  lemma {:induction false} MessageBit(m: seq<bv8>, k: nat)
    requires k < 8 * |m|
    ensures MessageBits(m)[k] == Bits(m[k / 8])[k % 8]
    decreases |m|
  {
    if k >= 8 {
      var j := k - 8;
      assert j / 8 == k / 8 - 1 && j % 8 == k % 8;
      MessageBit(m[1..], j);
      assert MessageBits(m)[k] == MessageBits(m[1..])[j];
      assert m[1..][j / 8] == m[k / 8];
    }
  }

  /** In particular every change confined to four consecutive bytes is detected. */
  lemma FourByteBurstDetected(crc: bv32, x: seq<bv8>, y: seq<bv8>, p: nat)
    requires |x| == |y| && x != y && p <= |x|
    requires forall k | 0 <= k < |x| && !(p <= k < p + 4) :: x[k] == y[k]
    ensures Crc(crc, x) != Crc(crc, y)
  {
    forall k | 0 <= k < 8 * |x| && !(8 * p <= k < 8 * p + 32)
      ensures MessageBits(x)[k] == MessageBits(y)[k]
    {
      MessageBit(x, k);
      MessageBit(y, k);
      assert x[k / 8] == y[k / 8];
    }
    BurstDetected(crc, x, y, 8 * p);
  }

  /** The generator polynomial behind a set bit brings the register back to where zeros would have left it. */
  lemma PolynomialLeavesNoTrace(c: bv32, tail: seq<bool>)
    ensures RunBits(c, [true] + LowBits(POLY, 32) + tail) == RunBits(c, [false] + LowBits(0, 32) + tail)
  {
    var s, t := Feed(c, true), Feed(c, false);
    assert Sum(c ^ 1, c, 1);
    StepSum(c ^ 1, c, 1);
    AllFit(POLY);
    AllFit(0);
    WordOfLowBits(POLY, 32);
    WordOfLowBits(0, 32);
    assert Sum(t, s, POLY) && Sum(t, t, 0);
    RunBitsIsWord(s, LowBits(POLY, 32), t);
    RunBitsIsWord(t, LowBits(0, 32), t);
    assert ([true] + LowBits(POLY, 32))[1..] == LowBits(POLY, 32);
    assert ([false] + LowBits(0, 32))[1..] == LowBits(0, 32);
    RunBitsAppend(c, [true] + LowBits(POLY, 32), tail);
    RunBitsAppend(c, [false] + LowBits(0, 32), tail);
  }

  const PATTERN: seq<bv8> := [0x80, 0x20, 0x83, 0xb8, 0xed]
  const ZEROS: seq<bv8> := [0, 0, 0, 0, 0]

  /** `w'` and `v'` are `w` and `v` without their low bits, which agree. */
  lemma NextBit(w: bv32, w': bv32, v: bv32, v': bv32, m: nat, n: nat, u: bv32)
    requires w' == w >> 1 && v' == v >> 1 && w & 1 == v & 1
    requires LowBits(w', m + n) == LowBits(v', m) + LowBits(u, n)
    ensures LowBits(w, m + 1 + n) == LowBits(v, m + 1) + LowBits(u, n)
  {}

  lemma TwoBits(w: bv32, w1: bv32, w2: bv32, v: bv32, v1: bv32, v2: bv32, m: nat, n: nat, u: bv32)
    requires w1 == w >> 1 && w2 == w1 >> 1 && v1 == v >> 1 && v2 == v1 >> 1
    requires w & 1 == v & 1 && w1 & 1 == v1 & 1
    requires LowBits(w2, m + n) == LowBits(v2, m) + LowBits(u, n)
    ensures LowBits(w, m + 2 + n) == LowBits(v, m + 2) + LowBits(u, n)
  {
    NextBit(w1, w2, v1, v2, m, n, u);
    NextBit(w, w1, v, v1, m + 1, n, u);
  }

  lemma FourBits(w: bv32, w1: bv32, w2: bv32, w3: bv32, w4: bv32,
                 v: bv32, v1: bv32, v2: bv32, v3: bv32, v4: bv32, m: nat, n: nat, u: bv32)
    requires w1 == w >> 1 && w2 == w1 >> 1 && w3 == w2 >> 1 && w4 == w3 >> 1
    requires v1 == v >> 1 && v2 == v1 >> 1 && v3 == v2 >> 1 && v4 == v3 >> 1
    requires w & 1 == v & 1 && w1 & 1 == v1 & 1 && w2 & 1 == v2 & 1 && w3 & 1 == v3 & 1
    requires LowBits(w4, m + n) == LowBits(v4, m) + LowBits(u, n)
    ensures LowBits(w, m + 4 + n) == LowBits(v, m + 4) + LowBits(u, n)
  {
    TwoBits(w2, w3, w4, v2, v3, v4, m, n, u);
    TwoBits(w, w1, w2, v, v1, v2, m + 2, n, u);
  }

  /** The bytes of the generator polynomial, the low one first. */
  lemma PolynomialBits()
    ensures LowBits(POLY, 32) == Bits(0x20) + (Bits(0x83) + (Bits(0xb8) + Bits(0xed)))
  {
    FourBits(0xedb8832, 0x76dc419, 0x3b6e20c, 0x1db7106, 0xedb883,
             0x2, 0x1, 0x0, 0x0, 0x0, 0, 24, 0xedb883);
    FourBits(0xedb88320, 0x76dc4190, 0x3b6e20c8, 0x1db71064, 0xedb8832,
             0x20, 0x10, 0x8, 0x4, 0x2, 4, 24, 0xedb883);
    FourBits(0xedb88, 0x76dc4, 0x3b6e2, 0x1db71, 0xedb8,
             0x8, 0x4, 0x2, 0x1, 0x0, 0, 16, 0xedb8);
    FourBits(0xedb883, 0x76dc41, 0x3b6e20, 0x1db710, 0xedb88,
             0x83, 0x41, 0x20, 0x10, 0x8, 4, 16, 0xedb8);
    FourBits(0xedb, 0x76d, 0x3b6, 0x1db, 0xed,
             0xb, 0x5, 0x2, 0x1, 0x0, 0, 8, 0xed);
    FourBits(0xedb8, 0x76dc, 0x3b6e, 0x1db7, 0xedb,
             0xb8, 0x5c, 0x2e, 0x17, 0xb, 4, 8, 0xed);
  }

  lemma {:induction false} ZeroBits(m: nat, n: nat)
    ensures LowBits(0, m + n) == LowBits(0, m) + LowBits(0, n)
    decreases m
  {
    if m > 0 {
      ZeroBits(m - 1, n);
    }
  }

  /** The pattern is seven zeros, a set bit and the generator polynomial. */
  lemma PatternBits()
    ensures MessageBits(PATTERN) == LowBits(0, 7) + ([true] + LowBits(POLY, 32))
    ensures MessageBits(ZEROS) == LowBits(0, 7) + ([false] + LowBits(0, 32))
  {
    FiveBytes(0x80, 0x20, 0x83, 0xb8, 0xed);
    FiveBytes(0, 0, 0, 0, 0);
    PolynomialBits();
    ZeroBits(8, 24);
    ZeroBits(8, 16);
    ZeroBits(8, 8);
    FirstByte();
    Regroup(LowBits(0, 7), true, Bits(0x20), Bits(0x83), Bits(0xb8), Bits(0xed));
    Regroup(LowBits(0, 7), false, Bits(0), Bits(0), Bits(0), Bits(0));
  }

  lemma FirstByte()
    ensures Bits(0x80) == LowBits(0, 7) + [true] && Bits(0) == LowBits(0, 7) + [false]
  {
    NextBit(0x02, 0x01, 0, 0, 0, 1, 1);
    NextBit(0x04, 0x02, 0, 0, 1, 1, 1);
    NextBit(0x08, 0x04, 0, 0, 2, 1, 1);
    FourBits(0x80, 0x40, 0x20, 0x10, 0x08, 0, 0, 0, 0, 0, 3, 1, 1);
    ZeroBits(7, 1);
    assert LowBits(1, 1) == [true] && LowBits(0, 1) == [false];
  }

  lemma Regroup(o: seq<bool>, x: bool, a: seq<bool>, b: seq<bool>, c: seq<bool>, d: seq<bool>)
    ensures (o + [x]) + a + b + c + d == o + ([x] + (a + (b + (c + d))))
  {}

  lemma FiveBytes(a: bv8, b: bv8, c: bv8, d: bv8, e: bv8)
    ensures MessageBits([a, b, c, d, e]) == Bits(a) + Bits(b) + Bits(c) + Bits(d) + Bits(e)
  {
    assert [a, b, c, d, e] == [a] + [b] + [c] + [d] + [e];
    MessageBitsAppend([a], [b]);
    MessageBitsAppend([a] + [b], [c]);
    MessageBitsAppend([a] + [b] + [c], [d]);
    MessageBitsAppend([a] + [b] + [c] + [d], [e]);
  }

  /** The bound is tight: inside any message, a change of 33 consecutive bits goes unnoticed. */
  lemma BurstOf33Undetected(crc: bv32, u: seq<bv8>, v: seq<bv8>)
    ensures var x, y, i := u + PATTERN + v, u + ZEROS + v, 8 * |u| + 7;
            && |x| == |y| && x != y && Crc(crc, x) == Crc(crc, y)
            && forall k | 0 <= k < 8 * |x| && !(i <= k < i + 33) :: MessageBits(x)[k] == MessageBits(y)[k]
  {
    var x, y := u + PATTERN + v, u + ZEROS + v;
    var one, two := [true] + LowBits(POLY, 32), [false] + LowBits(0, 32);
    PatternBits();
    Framed(u, PATTERN, v, LowBits(0, 7), one);
    Framed(u, ZEROS, v, LowBits(0, 7), two);
    SameRegister(Complement(crc), MessageBits(u) + LowBits(0, 7), MessageBits(v));
    SameOutside(MessageBits(u) + LowBits(0, 7), one, two, MessageBits(v));
    assert x[|u|] == 0x80 && y[|u|] == 0;
  }

  lemma Framed(u: seq<bv8>, m: seq<bv8>, v: seq<bv8>, lead: seq<bool>, burst: seq<bool>)
    requires MessageBits(m) == lead + burst
    ensures MessageBits(u + m + v) == MessageBits(u) + lead + (burst + MessageBits(v))
  {
    MessageBitsAppend(u, m);
    MessageBitsAppend(u + m, v);
    Associate(MessageBits(u), lead, burst, MessageBits(v));
  }

  lemma Associate(a: seq<bool>, b: seq<bool>, c: seq<bool>, d: seq<bool>)
    ensures a + (b + c) + d == a + b + (c + d)
  {}

  lemma SameRegister(c: bv32, before: seq<bool>, after: seq<bool>)
    ensures RunBits(c, before + ([true] + LowBits(POLY, 32) + after))
         == RunBits(c, before + ([false] + LowBits(0, 32) + after))
  {
    RunBitsAppend(c, before, [true] + LowBits(POLY, 32) + after);
    RunBitsAppend(c, before, [false] + LowBits(0, 32) + after);
    PolynomialLeavesNoTrace(RunBits(c, before), after);
  }

  lemma SameOutside(before: seq<bool>, a: seq<bool>, b: seq<bool>, after: seq<bool>)
    requires |a| == |b|
    ensures var x, y := before + (a + after), before + (b + after);
            |x| == |y| && forall k | 0 <= k < |x| && !(|before| <= k < |before| + |a|) :: x[k] == y[k]
  {}

  lemma ShiftAtMost(w: bv32, m: bv32)
    requires AtMost(w, m)
    ensures AtMost(w >> 1, m >> 1)
  {}

  lemma AtMostZero(w: bv32, m: bv32)
    requires AtMost(w, m) && m == 0
    ensures w == 0
  {}

  lemma {:induction false} AtMostFits(w: bv32, k: nat, low: bv32)
    requires k <= 31 && low == Low(k) && AtMost(w, low)
    ensures Fits(w, 31 - k)
    decreases 31 - k
  {
    if k == 31 {
      NoBitsFit(w, low);
    } else {
      ShiftAtMost(w, low);
      LowStep(k);
      AtMostFits(w >> 1, k + 1, low >> 1);
      FitsStep(w, 31 - k);
    }
  }

  lemma NoBitsFit(w: bv32, low: bv32)
    requires low == Low(31) && AtMost(w, low)
    ensures Fits(w, 0)
  {
    Low30();
    LowStep(30);
    AtMostZero(w, low);
  }

  lemma LowStep(k: nat)
    ensures Low(k + 1) == Low(k) >> 1
  {}

  lemma FitsStep(w: bv32, n: nat)
    requires n > 0 && Fits(w >> 1, n - 1)
    ensures Fits(w, n)
  {}

  lemma AllFit(w: bv32)
    ensures Fits(w, 32)
  {
    assert AtMost(w >> 1, 0x7fffffff);
    AtMostFits(w >> 1, 0, 0x7fffffff);
  }

  // ---- The table ----

  const ROW_0: seq<bv32> := [
    0x00000000, 0x77073096, 0xee0e612c, 0x990951ba, 0x076dc419, 0x706af48f, 0xe963a535, 0x9e6495a3,
    0x0edb8832, 0x79dcb8a4, 0xe0d5e91e, 0x97d2d988, 0x09b64c2b, 0x7eb17cbd, 0xe7b82d07, 0x90bf1d91
  ]
  const ROW_1: seq<bv32> := [
    0x1db71064, 0x6ab020f2, 0xf3b97148, 0x84be41de, 0x1adad47d, 0x6ddde4eb, 0xf4d4b551, 0x83d385c7,
    0x136c9856, 0x646ba8c0, 0xfd62f97a, 0x8a65c9ec, 0x14015c4f, 0x63066cd9, 0xfa0f3d63, 0x8d080df5
  ]
  const ROW_2: seq<bv32> := [
    0x3b6e20c8, 0x4c69105e, 0xd56041e4, 0xa2677172, 0x3c03e4d1, 0x4b04d447, 0xd20d85fd, 0xa50ab56b,
    0x35b5a8fa, 0x42b2986c, 0xdbbbc9d6, 0xacbcf940, 0x32d86ce3, 0x45df5c75, 0xdcd60dcf, 0xabd13d59
  ]
  const ROW_3: seq<bv32> := [
    0x26d930ac, 0x51de003a, 0xc8d75180, 0xbfd06116, 0x21b4f4b5, 0x56b3c423, 0xcfba9599, 0xb8bda50f,
    0x2802b89e, 0x5f058808, 0xc60cd9b2, 0xb10be924, 0x2f6f7c87, 0x58684c11, 0xc1611dab, 0xb6662d3d
  ]
  const ROW_4: seq<bv32> := [
    0x76dc4190, 0x01db7106, 0x98d220bc, 0xefd5102a, 0x71b18589, 0x06b6b51f, 0x9fbfe4a5, 0xe8b8d433,
    0x7807c9a2, 0x0f00f934, 0x9609a88e, 0xe10e9818, 0x7f6a0dbb, 0x086d3d2d, 0x91646c97, 0xe6635c01
  ]
  const ROW_5: seq<bv32> := [
    0x6b6b51f4, 0x1c6c6162, 0x856530d8, 0xf262004e, 0x6c0695ed, 0x1b01a57b, 0x8208f4c1, 0xf50fc457,
    0x65b0d9c6, 0x12b7e950, 0x8bbeb8ea, 0xfcb9887c, 0x62dd1ddf, 0x15da2d49, 0x8cd37cf3, 0xfbd44c65
  ]
  const ROW_6: seq<bv32> := [
    0x4db26158, 0x3ab551ce, 0xa3bc0074, 0xd4bb30e2, 0x4adfa541, 0x3dd895d7, 0xa4d1c46d, 0xd3d6f4fb,
    0x4369e96a, 0x346ed9fc, 0xad678846, 0xda60b8d0, 0x44042d73, 0x33031de5, 0xaa0a4c5f, 0xdd0d7cc9
  ]
  const ROW_7: seq<bv32> := [
    0x5005713c, 0x270241aa, 0xbe0b1010, 0xc90c2086, 0x5768b525, 0x206f85b3, 0xb966d409, 0xce61e49f,
    0x5edef90e, 0x29d9c998, 0xb0d09822, 0xc7d7a8b4, 0x59b33d17, 0x2eb40d81, 0xb7bd5c3b, 0xc0ba6cad
  ]
  const ROW_8: seq<bv32> := [
    0xedb88320, 0x9abfb3b6, 0x03b6e20c, 0x74b1d29a, 0xead54739, 0x9dd277af, 0x04db2615, 0x73dc1683,
    0xe3630b12, 0x94643b84, 0x0d6d6a3e, 0x7a6a5aa8, 0xe40ecf0b, 0x9309ff9d, 0x0a00ae27, 0x7d079eb1
  ]
  const ROW_9: seq<bv32> := [
    0xf00f9344, 0x8708a3d2, 0x1e01f268, 0x6906c2fe, 0xf762575d, 0x806567cb, 0x196c3671, 0x6e6b06e7,
    0xfed41b76, 0x89d32be0, 0x10da7a5a, 0x67dd4acc, 0xf9b9df6f, 0x8ebeeff9, 0x17b7be43, 0x60b08ed5
  ]
  const ROW_A: seq<bv32> := [
    0xd6d6a3e8, 0xa1d1937e, 0x38d8c2c4, 0x4fdff252, 0xd1bb67f1, 0xa6bc5767, 0x3fb506dd, 0x48b2364b,
    0xd80d2bda, 0xaf0a1b4c, 0x36034af6, 0x41047a60, 0xdf60efc3, 0xa867df55, 0x316e8eef, 0x4669be79
  ]
  const ROW_B: seq<bv32> := [
    0xcb61b38c, 0xbc66831a, 0x256fd2a0, 0x5268e236, 0xcc0c7795, 0xbb0b4703, 0x220216b9, 0x5505262f,
    0xc5ba3bbe, 0xb2bd0b28, 0x2bb45a92, 0x5cb36a04, 0xc2d7ffa7, 0xb5d0cf31, 0x2cd99e8b, 0x5bdeae1d
  ]
  const ROW_C: seq<bv32> := [
    0x9b64c2b0, 0xec63f226, 0x756aa39c, 0x026d930a, 0x9c0906a9, 0xeb0e363f, 0x72076785, 0x05005713,
    0x95bf4a82, 0xe2b87a14, 0x7bb12bae, 0x0cb61b38, 0x92d28e9b, 0xe5d5be0d, 0x7cdcefb7, 0x0bdbdf21
  ]
  const ROW_D: seq<bv32> := [
    0x86d3d2d4, 0xf1d4e242, 0x68ddb3f8, 0x1fda836e, 0x81be16cd, 0xf6b9265b, 0x6fb077e1, 0x18b74777,
    0x88085ae6, 0xff0f6a70, 0x66063bca, 0x11010b5c, 0x8f659eff, 0xf862ae69, 0x616bffd3, 0x166ccf45
  ]
  const ROW_E: seq<bv32> := [
    0xa00ae278, 0xd70dd2ee, 0x4e048354, 0x3903b3c2, 0xa7672661, 0xd06016f7, 0x4969474d, 0x3e6e77db,
    0xaed16a4a, 0xd9d65adc, 0x40df0b66, 0x37d83bf0, 0xa9bcae53, 0xdebb9ec5, 0x47b2cf7f, 0x30b5ffe9
  ]
  const ROW_F: seq<bv32> := [
    0xbdbdf21c, 0xcabac28a, 0x53b39330, 0x24b4a3a6, 0xbad03605, 0xcdd70693, 0x54de5729, 0x23d967bf,
    0xb3667a2e, 0xc4614ab8, 0x5d681b02, 0x2a6f2b94, 0xb40bbe37, 0xc30c8ea1, 0x5a05df1b, 0x2d02ef8d
  ]

  /** The 256 entries of crc_table, sixteen to a row. */
  const CRC_TABLE: seq<seq<bv32>> := [
    ROW_0, ROW_1, ROW_2, ROW_3, ROW_4, ROW_5, ROW_6, ROW_7,
    ROW_8, ROW_9, ROW_A, ROW_B, ROW_C, ROW_D, ROW_E, ROW_F
  ]

  lemma TableShape()
    ensures |CRC_TABLE| == 16
    ensures CRC_TABLE[0] == ROW_0 && |ROW_0| == 16
    ensures CRC_TABLE[1] == ROW_1 && |ROW_1| == 16
    ensures CRC_TABLE[2] == ROW_2 && |ROW_2| == 16
    ensures CRC_TABLE[3] == ROW_3 && |ROW_3| == 16
    ensures CRC_TABLE[4] == ROW_4 && |ROW_4| == 16
    ensures CRC_TABLE[5] == ROW_5 && |ROW_5| == 16
    ensures CRC_TABLE[6] == ROW_6 && |ROW_6| == 16
    ensures CRC_TABLE[7] == ROW_7 && |ROW_7| == 16
    ensures CRC_TABLE[8] == ROW_8 && |ROW_8| == 16
    ensures CRC_TABLE[9] == ROW_9 && |ROW_9| == 16
    ensures CRC_TABLE[10] == ROW_A && |ROW_A| == 16
    ensures CRC_TABLE[11] == ROW_B && |ROW_B| == 16
    ensures CRC_TABLE[12] == ROW_C && |ROW_C| == 16
    ensures CRC_TABLE[13] == ROW_D && |ROW_D| == 16
    ensures CRC_TABLE[14] == ROW_E && |ROW_E| == 16
    ensures CRC_TABLE[15] == ROW_F && |ROW_F| == 16
  {}

  lemma NibbleRange(lo: bv32)
    requires lo < 16
    ensures 0 <= lo as int < 16
  {}

  /** Entry `i` of crc_table. */
  function Entry(i: bv32): bv32
    requires i <= 0xff
  {
    NibbleRange(i >> 4);
    NibbleRange(i & 0xf);
    TableShape();
    RowLength((i >> 4) as int);
    CRC_TABLE[(i >> 4) as int][(i & 0xf) as int]
  }

  lemma RowLength(i: int)
    requires 0 <= i < 16
    ensures |CRC_TABLE| == 16 && |CRC_TABLE[i]| == 16
  {
    TableShape();
  }

  /** The images of sixteen consecutive indices. */
  function RowOf(f: bv32 -> bv32, base: bv32): seq<bv32> {
    [f(base ^ 0), f(base ^ 1), f(base ^ 2), f(base ^ 3), f(base ^ 4), f(base ^ 5), f(base ^ 6), f(base ^ 7),
     f(base ^ 8), f(base ^ 9), f(base ^ 10), f(base ^ 11), f(base ^ 12), f(base ^ 13), f(base ^ 14), f(base ^ 15)]
  }

  lemma LowColumn(f: bv32 -> bv32, base: bv32, lo: bv32)
    requires 0 <= lo <= 7
    ensures 0 <= lo as int < 16 && RowOf(f, base)[lo as int] == f(base ^ lo)
  {
    if lo == 0 {}
    else if lo == 1 {}
    else if lo == 2 {}
    else if lo == 3 {}
    else if lo == 4 {}
    else if lo == 5 {}
    else if lo == 6 {}
    else if lo == 7 {}
  }

  lemma HighColumn(f: bv32 -> bv32, base: bv32, lo: bv32)
    requires 8 <= lo <= 15
    ensures 0 <= lo as int < 16 && RowOf(f, base)[lo as int] == f(base ^ lo)
  {
    if lo == 8 {}
    else if lo == 9 {}
    else if lo == 10 {}
    else if lo == 11 {}
    else if lo == 12 {}
    else if lo == 13 {}
    else if lo == 14 {}
    else if lo == 15 {}
  }

  lemma Column(row: seq<bv32>, base: bv32, lo: bv32)
    requires IsRow(row, base) && lo <= 0xf
    ensures |row| == 16 && 0 <= lo as int < 16 && row[lo as int] == StepN(base ^ lo, 8)
  {
    if lo <= 7 {
      LowColumn(EightSteps, base, lo);
    } else {
      HighColumn(EightSteps, base, lo);
    }
  }

  function EightSteps(c: bv32): bv32 { StepN(c, 8) }

  ghost predicate IsRow(row: seq<bv32>, base: bv32) { row == RowOf(EightSteps, base) }

  ghost predicate RowHolds(hi: bv32) {
    0 <= hi as int < |CRC_TABLE| && IsRow(CRC_TABLE[hi as int], hi << 4)
  }

  lemma Row0(hi: bv32) requires hi == 0x0 ensures RowHolds(hi) { TableShape(); }

  lemma Row1(hi: bv32) requires hi == 0x1 ensures RowHolds(hi) { TableShape(); }

  lemma Row2(hi: bv32) requires hi == 0x2 ensures RowHolds(hi) { TableShape(); }

  lemma Row3(hi: bv32) requires hi == 0x3 ensures RowHolds(hi) { TableShape(); }

  lemma Row4(hi: bv32) requires hi == 0x4 ensures RowHolds(hi) { TableShape(); }

  lemma Row5(hi: bv32) requires hi == 0x5 ensures RowHolds(hi) { TableShape(); }

  lemma Row6(hi: bv32) requires hi == 0x6 ensures RowHolds(hi) { TableShape(); }

  lemma Row7(hi: bv32) requires hi == 0x7 ensures RowHolds(hi) { TableShape(); }

  lemma Row8(hi: bv32) requires hi == 0x8 ensures RowHolds(hi) { TableShape(); }

  lemma Row9(hi: bv32) requires hi == 0x9 ensures RowHolds(hi) { TableShape(); }

  lemma RowA(hi: bv32) requires hi == 0xa ensures RowHolds(hi) { TableShape(); }

  lemma RowB(hi: bv32) requires hi == 0xb ensures RowHolds(hi) { TableShape(); }

  lemma RowC(hi: bv32) requires hi == 0xc ensures RowHolds(hi) { TableShape(); }

  lemma RowD(hi: bv32) requires hi == 0xd ensures RowHolds(hi) { TableShape(); }

  lemma RowE(hi: bv32) requires hi == 0xe ensures RowHolds(hi) { TableShape(); }

  lemma RowF(hi: bv32) requires hi == 0xf ensures RowHolds(hi) { TableShape(); }

  lemma EveryRow(hi: bv32)
    requires hi <= 0xf
    ensures RowHolds(hi)
  {
    if hi == 0x0 { Row0(hi); }
    else if hi == 0x1 { Row1(hi); }
    else if hi == 0x2 { Row2(hi); }
    else if hi == 0x3 { Row3(hi); }
    else if hi == 0x4 { Row4(hi); }
    else if hi == 0x5 { Row5(hi); }
    else if hi == 0x6 { Row6(hi); }
    else if hi == 0x7 { Row7(hi); }
    else if hi == 0x8 { Row8(hi); }
    else if hi == 0x9 { Row9(hi); }
    else if hi == 0xa { RowA(hi); }
    else if hi == 0xb { RowB(hi); }
    else if hi == 0xc { RowC(hi); }
    else if hi == 0xd { RowD(hi); }
    else if hi == 0xe { RowE(hi); }
    else if hi == 0xf { RowF(hi); }
  }

  lemma JoinNibbles(i: bv32)
    requires i <= 0xff
    ensures i >> 4 <= 0xf && i & 0xf <= 0xf && ((i >> 4) << 4) ^ (i & 0xf) == i
  {}

  /** Every table entry is eight bit-serial shifts of its index. */
  lemma EntryIsBitSerial(i: bv32)
    requires i <= 0xff
    ensures Entry(i) == StepN(i, 8)
  {
    JoinNibbles(i);
    EveryRow(i >> 4);
    Column(CRC_TABLE[(i >> 4) as int], (i >> 4) << 4, i & 0xf);
  }

  // ---- update_crc ----

  /** The macro DO1 on the byte `b`. */
  function Do1(crc: bv32, b: bv8): bv32 {
    ByteIndex(crc, b);
    Entry((crc ^ b as bv32) & 0xff) ^ (crc >> 8)
  }

  lemma ByteIndex(crc: bv32, b: bv8)
    ensures (crc ^ b as bv32) & 0xff <= 0xff
  {}

  /** `t` can be shifted left `n` times without losing a bit. */
  ghost predicate Room(t: bv32, n: nat)
    decreases n
  {
    n == 0 || (AtMost(t, 0x7fffffff) && Room(t << 1, n - 1))
  }

  ghost function Raise(t: bv32, n: nat): bv32
    decreases n
  {
    if n == 0 then t else Raise(t << 1, n - 1)
  }

  lemma {:induction false} StepNLast(c: bv32, n: nat)
    ensures StepN(c, n + 1) == Step(StepN(c, n))
    decreases n
  {
    if n > 0 {
      StepNLast(Step(c), n - 1);
    }
  }

  /** Bits raised by `n` places come back down unchanged. */
  lemma {:induction false} StepNOfRaised(t: bv32, n: nat)
    requires Room(t, n)
    ensures StepN(Raise(t, n), n) == t
    decreases n
  {
    if n > 0 {
      StepNOfRaised(t << 1, n - 1);
      StepNLast(Raise(t, n), n - 1);
      ShiftedOut(t);
    }
  }

  lemma HighByteRoom(c: bv32)
    ensures c >> 8 <= 0xffffff
    ensures c >> 8 << 1 <= 0x1ffffff && c >> 8 << 1 << 1 <= 0x3ffffff
    ensures c >> 8 << 1 << 1 << 1 <= 0x7ffffff && c >> 8 << 1 << 1 << 1 << 1 <= 0xfffffff
    ensures c >> 8 << 1 << 1 << 1 << 1 << 1 <= 0x1fffffff && c >> 8 << 1 << 1 << 1 << 1 << 1 << 1 <= 0x3fffffff
    ensures c >> 8 << 1 << 1 << 1 << 1 << 1 << 1 << 1 <= 0x7fffffff
  {}

  lemma BelowHalf(t: bv32, m: bv32)
    requires t <= m && m <= 0x7fffffff
    ensures AtMost(t, 0x7fffffff)
  {}

  lemma HighPartIsRaised(c: bv32)
    ensures Room(c >> 8, 8)
    ensures Raise(c >> 8, 8) == c >> 8 << 1 << 1 << 1 << 1 << 1 << 1 << 1 << 1
  {
    HighByteRoom(c);
    var t := c >> 8;
    var t1 := t << 1;
    var t2 := t1 << 1;
    var t3 := t2 << 1;
    var t4 := t3 << 1;
    var t5 := t4 << 1;
    var t6 := t5 << 1;
    var t7 := t6 << 1;
    BelowHalf(t, 0xffffff);
    BelowHalf(t1, 0x1ffffff);
    BelowHalf(t2, 0x3ffffff);
    BelowHalf(t3, 0x7ffffff);
    BelowHalf(t4, 0xfffffff);
    BelowHalf(t5, 0x1fffffff);
    BelowHalf(t6, 0x3fffffff);
    BelowHalf(t7, 0x7fffffff);
    var t8 := t7 << 1;
    assert Room(t8, 0) && Raise(t8, 0) == t8;
    RoomStep(t7, 0);
    RoomStep(t6, 1);
    RoomStep(t5, 2);
    RoomStep(t4, 3);
    RoomStep(t3, 4);
    RoomStep(t2, 5);
    RoomStep(t1, 6);
    RoomStep(t, 7);
  }

  lemma RoomStep(t: bv32, n: nat)
    requires AtMost(t, 0x7fffffff) && Room(t << 1, n)
    ensures Room(t, n + 1) && Raise(t, n + 1) == Raise(t << 1, n)
  {}

  lemma LowHighSum(c: bv32, b: bv32)
    requires b <= 0xff
    ensures Sum(c ^ b, (c ^ b) & 0xff, c >> 8 << 1 << 1 << 1 << 1 << 1 << 1 << 1 << 1)
  {}

  /** The table look-up advances the register by one byte. */
  lemma Do1IsByteStep(crc: bv32, b: bv8)
    ensures Do1(crc, b) == ByteStep(crc, b)
  {
    ByteRange(b);
    ByteIndex(crc, b);
    var x, l, h := crc ^ b as bv32, (crc ^ b as bv32) & 0xff, Raise(crc >> 8, 8);
    HighPartIsRaised(crc);
    LowHighSum(crc, b as bv32);
    StepNSum(x, l, h, 8);
    StepNOfRaised(crc >> 8, 8);
    EntryIsBitSerial(l);
    LookUp(crc, b);
    SumIsUnique(StepN(x, 8), Do1(crc, b), Entry(l), crc >> 8);
  }

  lemma LookUp(crc: bv32, b: bv8)
    ensures (crc ^ b as bv32) & 0xff <= 0xff
    ensures Sum(Do1(crc, b), Entry((crc ^ b as bv32) & 0xff), crc >> 8)
  {
    ByteIndex(crc, b);
  }

  lemma SumIsUnique(s: bv32, s': bv32, a: bv32, b: bv32)
    requires Sum(s, a, b) && Sum(s', a, b)
    ensures s == s'
  {}

  /** The register after the bytes of `m`. */
  function Run(c: bv32, m: seq<bv8>): bv32 { RunBits(c, MessageBits(m)) }

  lemma RunOne(c: bv32, b: bv8)
    ensures Run(c, [b]) == Do1(c, b)
  {
    Do1IsByteStep(c, b);
    ByteStepIsBitSerial(c, b);
    assert MessageBits([b]) == Bits(b) + MessageBits([]) == Bits(b);
  }

  lemma RunAppend(c: bv32, a: seq<bv8>, b: seq<bv8>)
    ensures Run(c, a + b) == Run(Run(c, a), b)
  {
    MessageBitsAppend(a, b);
    RunBitsAppend(c, MessageBits(a), MessageBits(b));
  }

  // ---- The preset and the final inversion ----

  function LowByte(w: bv32): (b: bv8)
    ensures b as bv32 == w & 0xff
  {
    var low: bv32 := w & 0xff;
    ByteFitsIn8(low);
    low as bv8
  }

  lemma ByteFitsIn8(low: bv32)
    requires low <= 0xff
    ensures low as int < 0x100
  {}

  /** The four bytes of a word, the low one first. */
  function Bytes(w: bv32): (m: seq<bv8>)
    ensures |m| == 4
  {
    [LowByte(w), LowByte(w >> 8), LowByte(w >> 16), LowByte(w >> 24)]
  }

  /** A look-up at the index `i`, whose entry is `e`. */
  lemma LookUpAt(c: bv32, w: bv32, i: bv32, e: bv32, r: bv32)
    requires i <= 0xff && (c ^ (w & 0xff)) & 0xff == i && StepN(i, 8) == e && Sum(r, e, c >> 8)
    ensures Run(c, [LowByte(w)]) == r
  {
    var b := LowByte(w);
    RunOne(c, b);
    EntryIsBitSerial(i);
    LookUp(c, b);
    SumIsUnique(r, Do1(c, b), e, c >> 8);
  }

  lemma Residues()
    ensures StepN(0xff, 8) == 0x2d02ef8d && StepN(0x72, 8) == 0xbe0b1010
    ensures StepN(0x00, 8) == 0x00000000 && StepN(0xed, 8) == 0xdebb9ec5
  {}

  /** When a register meets the bytes of its own inversion, the table indices are the same for all registers. */
  lemma OwnInversion(r: bv32, w: bv32, r1: bv32, r2: bv32, r3: bv32)
    requires w == r ^ 0xffffffff
    requires r1 == 0x2d02ef8d ^ (r >> 8) && r2 == 0xbe0b1010 ^ (r1 >> 8) && r3 == 0x00000000 ^ (r2 >> 8)
    ensures (r ^ (w & 0xff)) & 0xff == 0xff && (r1 ^ ((w >> 8) & 0xff)) & 0xff == 0x72
    ensures (r2 ^ ((w >> 16) & 0xff)) & 0xff == 0x00 && (r3 ^ ((w >> 24) & 0xff)) & 0xff == 0xed
    ensures Sum(r1, 0x2d02ef8d, r >> 8) && Sum(r2, 0xbe0b1010, r1 >> 8) && Sum(r3, 0x00000000, r2 >> 8)
    ensures Sum(0xdebb20e3, 0xdebb9ec5, r3 >> 8)
  {}

  lemma RunFour(c: bv32, a: bv8, b: bv8, d: bv8, e: bv8)
    ensures Run(c, [a, b, d, e]) == Run(Run(Run(Run(c, [a]), [b]), [d]), [e])
  {
    assert [a, b, d, e] == [a] + [b] + [d] + [e];
    RunAppend(c, [a], [b]);
    RunAppend(c, [a] + [b], [d]);
    RunAppend(c, [a] + [b] + [d], [e]);
  }

  /** Fed with the bytes of its own inversion, every register becomes the same. */
  lemma InversionAbsorbed(r: bv32, w: bv32)
    requires w == r ^ 0xffffffff
    ensures Run(r, Bytes(w)) == 0xdebb20e3
  {
    var r1 := 0x2d02ef8d ^ (r >> 8);
    var r2 := 0xbe0b1010 ^ (r1 >> 8);
    var r3 := 0x00000000 ^ (r2 >> 8);
    OwnInversion(r, w, r1, r2, r3);
    AbsorbedIn(r, r1, r2, r3, w);
  }

  lemma AbsorbedIn(r: bv32, r1: bv32, r2: bv32, r3: bv32, w: bv32)
    requires (r ^ (w & 0xff)) & 0xff == 0xff && (r1 ^ ((w >> 8) & 0xff)) & 0xff == 0x72
    requires (r2 ^ ((w >> 16) & 0xff)) & 0xff == 0x00 && (r3 ^ ((w >> 24) & 0xff)) & 0xff == 0xed
    requires Sum(r1, 0x2d02ef8d, r >> 8) && Sum(r2, 0xbe0b1010, r1 >> 8) && Sum(r3, 0x00000000, r2 >> 8)
    requires Sum(0xdebb20e3, 0xdebb9ec5, r3 >> 8)
    ensures Run(r, Bytes(w)) == 0xdebb20e3
  {
    Residues();
    LookUpAt(r, w, 0xff, 0x2d02ef8d, r1);
    LookUpAt(r1, w >> 8, 0x72, 0xbe0b1010, r2);
    LookUpAt(r2, w >> 16, 0x00, 0x00000000, r3);
    LookUpAt(r3, w >> 24, 0xed, 0xdebb9ec5, 0xdebb20e3);
    RunFour(r, LowByte(w), LowByte(w >> 8), LowByte(w >> 16), LowByte(w >> 24));
  }

  /** The CRC of any message followed by its own CRC, low byte first, is the same constant. */
  lemma Residue(crc: bv32, m: seq<bv8>)
    ensures Crc(crc, m + Bytes(Crc(crc, m))) == 0x2144df1c
  {
    var r, w := Run(Complement(crc), m), Crc(crc, m);
    RunAppend(Complement(crc), m, Bytes(w));
    InversionAbsorbed(r, w);
  }

  /** Only the empty register ignores a byte of zeros. */
  lemma ZeroByteMoves(c: bv32, c1: bv32, c2: bv32, c3: bv32, c4: bv32, c5: bv32, c6: bv32, c7: bv32)
    requires c1 == Step(c) && c2 == Step(c1) && c3 == Step(c2) && c4 == Step(c3)
    requires c5 == Step(c4) && c6 == Step(c5) && c7 == Step(c6) && c == Step(c7)
    ensures c == 0
  {}

  lemma EightMoves(c: bv32)
    requires StepN(c, 8) == c
    ensures c == 0
  {
    var c1 := Step(c);
    var c2 := Step(c1);
    var c3 := Step(c2);
    var c4 := Step(c3);
    var c5 := Step(c4);
    var c6 := Step(c5);
    var c7 := Step(c6);
    assert StepN(c4, 4) == Step(c7);
    ZeroByteMoves(c, c1, c2, c3, c4, c5, c6, c7);
  }

  lemma AddsNothing(c: bv32, b: bv8)
    requires b == 0
    ensures c ^ b as bv32 == c
  {}

  lemma ZeroByteShifts(c: bv32)
    ensures Run(c, [0]) == StepN(c, 8)
  {
    RunOne(c, 0);
    Do1IsByteStep(c, 0);
    AddsNothing(c, 0);
  }

  lemma EmptyRegister(crc: bv32)
    ensures Complement(crc) == 0 <==> crc == 0xffffffff
  {}

  /** A zero byte in front changes the CRC, except that of a continuation from all ones. */
  lemma LeadingZeroSeen(crc: bv32, m: seq<bv8>)
    ensures Crc(crc, [0] + m) == Crc(crc, m) <==> crc == 0xffffffff
  {
    var c := Complement(crc);
    RunAppend(c, [0], m);
    ZeroByteShifts(c);
    EmptyRegister(crc);
    if Crc(crc, [0] + m) == Crc(crc, m) {
      ComplementInjective(Run(c, [0] + m), Run(c, m));
      RunBitsInjective(StepN(c, 8), c, MessageBits(m));
      EightMoves(c);
    }
    Residues();
  }

  /** The CRC of a single zero byte. */
  lemma ZeroByte()
    ensures Crc(0, [0]) == 0xd202ef8d
  {
    Residues();
    LookUpAt(0xffffffff, 0, 0xff, 0x2d02ef8d, 0x2dfd1072);
  }

  method Do2(crc: bv32, buf: array<bv8>, p: nat) returns (c: bv32)
    requires p + 2 <= buf.Length
    ensures c == Run(crc, buf[p..p + 2])
  {
    c := Do1(crc, buf[p]);
    c := Do1(c, buf[p + 1]);
    RunOne(crc, buf[p]);
    RunOne(Run(crc, [buf[p]]), buf[p + 1]);
    RunAppend(crc, [buf[p]], [buf[p + 1]]);
    assert buf[p..p + 2] == [buf[p]] + [buf[p + 1]];
  }

  method Do4(crc: bv32, buf: array<bv8>, p: nat) returns (c: bv32)
    requires p + 4 <= buf.Length
    ensures c == Run(crc, buf[p..p + 4])
  {
    c := Do2(crc, buf, p);
    c := Do2(c, buf, p + 2);
    RunAppend(crc, buf[p..p + 2], buf[p + 2..p + 4]);
    assert buf[p..p + 4] == buf[p..p + 2] + buf[p + 2..p + 4];
  }

  method Do8(crc: bv32, buf: array<bv8>, p: nat) returns (c: bv32)
    requires p + 8 <= buf.Length
    ensures c == Run(crc, buf[p..p + 8])
  {
    c := Do4(crc, buf, p);
    c := Do4(c, buf, p + 4);
    RunAppend(crc, buf[p..p + 4], buf[p + 4..p + 8]);
    assert buf[p..p + 8] == buf[p..p + 4] + buf[p + 4..p + 8];
  }

  /** `p` is how far the source's pointer `buf` has advanced. */
  method UpdateCrc(crc: bv32, buf: array?<bv8>, length: nat) returns (r: bv32)
    requires buf != null ==> length <= buf.Length
    ensures buf == null ==> r == 0
    ensures buf != null ==> r == Crc(crc, buf[..length])
  {
    if buf == null {
      return 0;
    }
    var c, len, p := crc ^ 0xffffffff, length, 0;
    assert buf[..0] == [];
    while len >= 8
      invariant p + len == length
      invariant c == Run(Complement(crc), buf[..p])
    {
      c := Do8(c, buf, p);
      RunAppend(Complement(crc), buf[..p], buf[p..p + 8]);
      assert buf[..p + 8] == buf[..p] + buf[p..p + 8];
      p := p + 8;
      len := len - 8;
    }
    while len > 0
      invariant p + len == length
      invariant c == Run(Complement(crc), buf[..p])
    {
      RunOne(c, buf[p]);
      RunAppend(Complement(crc), buf[..p], [buf[p]]);
      assert buf[..p + 1] == buf[..p] + [buf[p]];
      c := Do1(c, buf[p]);
      p := p + 1;
      len := len - 1;
    }
    return c ^ 0xffffffff;
  }

  // ---- GenerateCrc ----

  const BUFSIZE: nat := 512

  /** Whatever sizes the reads return, as long as only the end of the file yields zero bytes,
      the value written is the CRC of the whole file. */
  method GenerateCrc(file: seq<bv8>) returns (crc: bv32)
    ensures crc == Crc(0, file)
  {
    crc := 0;
    var offset := 0;
    ComplementTwice(0);
    assert Crc(0, file[..0]) == 0;
    while true
      invariant 0 <= offset <= |file|
      invariant crc == Crc(0, file[..offset])
      decreases |file| - offset
    {
      var buf := new bv8[BUFSIZE](_ => 0);
      var least := if offset < |file| then 1 else 0;
      var bytesRead :| least <= bytesRead <= BUFSIZE && offset + bytesRead <= |file|;
      forall i | 0 <= i < bytesRead {
        buf[i] := file[offset + i];
      }
      if bytesRead == 0 {
        break;
      }
      assert buf[..bytesRead] == file[offset..offset + bytesRead];
      ChunkIndependence(0, file[..offset], buf[..bytesRead]);
      assert file[..offset + bytesRead] == file[..offset] + buf[..bytesRead];
      crc := UpdateCrc(crc, buf, bytesRead);
      offset := offset + bytesRead;
    }
    assert file[..offset] == file;
  }
}
