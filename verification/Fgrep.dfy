/** Counting a needle in a mapped file, serially and by overlapping windows handed to threads.

    C's unsigned arithmetic is written out: `size_t` values are reduced modulo 2^64 and
    `unsigned int` values modulo 2^32. A pointer into the mapping is an offset into `text`. */
module Fgrep {
  import opened Basics

  const SIZE_MODULUS: int := 0x1_0000_0000_0000_0000

  /** Conversion to `size_t`; a value already in range is kept. */
  function SizeT(x: int): (r: nat)
    ensures r < SIZE_MODULUS
    ensures 0 <= x < SIZE_MODULUS ==> r == x
    ensures -SIZE_MODULUS <= x < 0 ==> r == x + SIZE_MODULUS
  {
    x % 0x1_0000_0000_0000_0000
  }

  // ---- Occurrences and packings ----

  predicate OccursAt(what: string, text: string, p: nat) {
    p + |what| <= |text| && text[p..p + |what|] == what
  }

  /** `s` holds start positions of pairwise disjoint occurrences of `what` in `text`. */
  ghost predicate Packing(what: string, text: string, s: set<nat>) {
    && (forall p | p in s :: OccursAt(what, text, p))
    && (forall p, q | p in s && q in s && p < q :: p + |what| <= q)
  }

  /** `k` is the largest number of pairwise disjoint occurrences of `what` in `text`. */
  ghost predicate IsMaxPacking(what: string, text: string, k: nat) {
    && (exists s :: Packing(what, text, s) && |s| == k)
    && (forall s :: Packing(what, text, s) ==> |s| <= k)
  }

  /** No proper non-empty prefix of `what` is also its suffix. */
  predicate BorderFree(what: string) {
    forall k | 0 < k < |what| :: what[..k] != what[|what| - k..]
  }

  // ---- The left-to-right scan ----

  /** Hits of the scan that starts at `i`, looks at start positions below `hi`, and jumps over each hit. */
  function Scan(what: string, text: string, i: nat, hi: nat): nat
    requires |what| > 0
    decreases hi - i
  {
    if i >= hi then 0
    else if OccursAt(what, text, i) then 1 + Scan(what, text, i + |what|, hi)
    else Scan(what, text, i + 1, hi)
  }

  /** The serial program's answer. */
  function Serial(what: string, text: string): nat
    requires 0 < |what| <= |text| + 1
  {
    Scan(what, text, 0, |text| + 1 - |what|)
  }

  /** Moving the start of a scan right by at most one needle length loses at most one hit, and gains none. */
  lemma {:induction false} Exchange(what: string, text: string, i: nat, j: nat, hi: nat)
    requires |what| > 0
    requires i <= j <= i + |what|
    ensures Scan(what, text, j, hi) <= Scan(what, text, i, hi) <= Scan(what, text, j, hi) + 1
    decreases (if i < hi then hi - i else 0) + (if j < hi then hi - j else 0)
  {
    if i < hi && i < j {
      if OccursAt(what, text, i) {
        if j < hi {
          Exchange(what, text, j, i + |what|, hi);
        }
      } else {
        Exchange(what, text, i + 1, j, hi);
      }
    }
  }

  /** A scan of [a, hi) against two independent scans that meet at `b`. */
  lemma {:induction false} SplitScan(what: string, text: string, a: nat, b: nat, hi: nat)
    requires |what| > 0
    requires a <= b + |what| && b <= hi
    ensures var both := Scan(what, text, a, b) + Scan(what, text, b, hi);
            Scan(what, text, a, hi) <= both <= Scan(what, text, a, hi) + 1
    decreases if a < b then b - a else 0
  {
    if a >= b {
      Exchange(what, text, b, a, hi);
    } else if OccursAt(what, text, a) {
      SplitScan(what, text, a + |what|, b, hi);
    } else {
      SplitScan(what, text, a + 1, b, hi);
    }
  }

  lemma {:induction false} SkipMisses(what: string, text: string, b: nat, a: nat, hi: nat)
    requires |what| > 0
    requires b <= a
    requires forall p | b <= p < a :: !OccursAt(what, text, p)
    ensures Scan(what, text, b, hi) == Scan(what, text, a, hi)
    decreases a - b
  {
    if b < a && b < hi {
      SkipMisses(what, text, b + 1, a, hi);
    }
  }

  /** Two overlapping occurrences exhibit a border. */
  lemma OverlapIsBorder(what: string, text: string, p: nat, q: nat)
    requires OccursAt(what, text, p) && OccursAt(what, text, q)
    requires p < q < p + |what|
    ensures !BorderFree(what)
  {
    var k := p + |what| - q;
    assert what[..k] == text[q..q + |what|][..k] == text[q..p + |what|];
    assert what[|what| - k..] == text[p..p + |what|][|what| - k..] == text[q..p + |what|];
  }

  lemma {:induction false} SplitScanBorderFree(what: string, text: string, a: nat, b: nat, hi: nat)
    requires |what| > 0 && BorderFree(what)
    requires b <= hi
    requires a > b ==> a < b + |what| && a >= |what| && OccursAt(what, text, a - |what|)
    ensures Scan(what, text, a, b) + Scan(what, text, b, hi) == Scan(what, text, a, hi)
    decreases if a < b then b - a else 0
  {
    if a >= b {
      forall p | b <= p < a ensures !OccursAt(what, text, p) {
        if OccursAt(what, text, p) {
          OverlapIsBorder(what, text, a - |what|, p);
        }
      }
      SkipMisses(what, text, b, a, hi);
    } else if OccursAt(what, text, a) {
      SplitScanBorderFree(what, text, a + |what|, b, hi);
    } else {
      SplitScanBorderFree(what, text, a + 1, b, hi);
    }
  }

  // ---- The scan is an optimal packing ----

  lemma AtMostOneBefore(what: string, text: string, s: set<nat>, i: nat, rest: set<nat>)
    requires Packing(what, text, s) && forall p | p in s :: p >= i
    requires rest == set p | p in s && p >= i + |what|
    ensures |s| <= |rest| + 1
  {
    if s != rest {
      var p :| p in s && p !in rest;
      forall q | q in s && q !in rest ensures q == p {}
      assert s == rest + {p};
    }
  }

  lemma {:induction false} PackingBound(what: string, text: string, s: set<nat>, i: nat)
    requires 0 < |what| <= |text| + 1
    requires Packing(what, text, s) && forall p | p in s :: p >= i
    ensures |s| <= Scan(what, text, i, |text| + 1 - |what|)
    decreases if i < |text| then |text| - i else 0
  {
    var hi := |text| + 1 - |what|;
    if i >= hi {
      assert forall p | p in s :: OccursAt(what, text, p);
      assert s == {};
    } else if OccursAt(what, text, i) {
      var rest := set p | p in s && p >= i + |what|;
      AtMostOneBefore(what, text, s, i, rest);
      PackingBound(what, text, rest, i + |what|);
    } else {
      PackingBound(what, text, s, i + 1);
    }
  }

  ghost function ScanHits(what: string, text: string, i: nat, hi: nat): set<nat>
    requires |what| > 0
    decreases hi - i
  {
    if i >= hi then {}
    else if OccursAt(what, text, i) then {i} + ScanHits(what, text, i + |what|, hi)
    else ScanHits(what, text, i + 1, hi)
  }

  lemma {:induction false} ScanHitsArePacking(what: string, text: string, i: nat, hi: nat)
    requires |what| > 0
    ensures Packing(what, text, ScanHits(what, text, i, hi))
    ensures forall p | p in ScanHits(what, text, i, hi) :: p >= i
    ensures |ScanHits(what, text, i, hi)| == Scan(what, text, i, hi)
    decreases hi - i
  {
    if i < hi {
      if OccursAt(what, text, i) {
        ScanHitsArePacking(what, text, i + |what|, hi);
        assert i !in ScanHits(what, text, i + |what|, hi);
      } else {
        ScanHitsArePacking(what, text, i + 1, hi);
      }
    }
  }

  /** Jumping over every hit is optimal: no choice of disjoint occurrences beats the serial scan. */
  lemma SerialIsMaxPacking(what: string, text: string)
    requires 0 < |what| <= |text| + 1
    ensures IsMaxPacking(what, text, Serial(what, text))
  {
    ScanHitsArePacking(what, text, 0, |text| + 1 - |what|);
    forall s | Packing(what, text, s) ensures |s| <= Serial(what, text) {
      PackingBound(what, text, s, 0);
    }
  }

  lemma SliceOfSlice(text: string, mem: nat, size: nat, i: nat, j: nat)
    requires mem + size <= |text| && i <= j <= size
    ensures text[mem..mem + size][i..j] == text[mem + i..mem + j]
  {
    var l, r := text[mem..mem + size][i..j], text[mem + i..mem + j];
    forall k | 0 <= k < j - i ensures l[k] == r[k] {}
  }

  lemma WindowHit(what: string, text: string, mem: nat, size: nat, i: nat)
    requires mem + size <= |text| && i + |what| <= size
    ensures OccursAt(what, text[mem..mem + size], i) <==> OccursAt(what, text, mem + i)
  {
    SliceOfSlice(text, mem, size, i, i + |what|);
  }

  lemma ScanStep(what: string, text: string, i: nat, hi: nat)
    requires |what| > 0 && i < hi
    ensures Scan(what, text, i, hi) == if OccursAt(what, text, i) then 1 + Scan(what, text, i + |what|, hi)
                                       else Scan(what, text, i + 1, hi)
  {}

  lemma {:induction false} ScanShift(what: string, w: string, text: string, mem: nat, i: nat, hi: nat)
    requires |what| > 0
    requires forall p: nat | p < hi :: OccursAt(what, w, p) <==> OccursAt(what, text, mem + p)
    ensures Scan(what, w, i, hi) == Scan(what, text, mem + i, mem + hi)
    decreases hi - i
  {
    if i < hi {
      if OccursAt(what, w, i) {
        ScanShift(what, w, text, mem, i + |what|, hi);
      } else {
        ScanShift(what, w, text, mem, i + 1, hi);
      }
    }
  }

  /** A scan of a window is a scan of the text between the corresponding start positions. */
  lemma ScanWindow(what: string, text: string, mem: nat, size: nat, i: nat, hi: nat)
    requires |what| > 0
    requires mem + size <= |text| && hi + |what| <= size + 1
    ensures Scan(what, text[mem..mem + size], i, hi) == Scan(what, text, mem + i, mem + hi)
  {
    var w := text[mem..mem + size];
    forall p: nat | p < hi ensures OccursAt(what, w, p) <==> OccursAt(what, text, mem + p) {
      WindowHit(what, text, mem, size, p);
    }
    ScanShift(what, w, text, mem, i, hi);
  }

  // ---- count ----

  /** The guard of count's loop, `where_size - what_size + 1`, wraps below zero. Every position it
      admits can be compared inside the window exactly when the window misses at most one byte of a needle. */
  lemma GuardInBounds(whatSize: nat, whereSize: nat)
    requires whatSize < SIZE_MODULUS && whereSize < SIZE_MODULUS - 1
    ensures (forall i: nat | GuardAdmits(i, whatSize, whereSize) :: i + whatSize <= whereSize)
            <==> whatSize <= whereSize + 1
  {
    if whatSize > whereSize + 1 {
      assert GuardAdmits(0, whatSize, whereSize);
    }
  }

  predicate GuardAdmits(i: nat, whatSize: nat, whereSize: nat) {
    i < SizeT(whereSize - whatSize + 1)
  }

  /** The loop. */
  method CountHits(what: string, text: string, mem: nat, whereSize: nat) returns (total: nat)
    requires |what| > 0
    requires mem + whereSize <= |text|
    requires |what| <= whereSize + 1
    requires whereSize < UINT_MODULUS
    ensures total == Serial(what, text[mem..mem + whereSize])
  {
    ghost var w := text[mem..mem + whereSize];
    ghost var bound := whereSize + 1 - |what|;
    var i := 0;
    total := 0;
    while i < SizeT(whereSize - |what| + 1)
      invariant SizeT(whereSize - |what| + 1) == bound
      invariant total <= i <= whereSize
      invariant total + Scan(what, w, i, bound) == Serial(what, w)
      decreases whereSize - i
    {
      WindowHit(what, text, mem, whereSize, i);
      ScanStep(what, w, i, bound);
      if text[mem + i..mem + i + |what|] == what {
        total := U32(total + 1);
        i := U32(i + |what|);
      } else {
        i := U32(i + 1);
      }
    }
  }

  method Count(what: string, text: string, mem: nat, whereSize: nat) returns (total: nat)
    requires |what| > 0
    requires mem + whereSize <= |text|
    requires |what| <= whereSize + 1
    requires whereSize < UINT_MODULUS
    ensures total == Serial(what, text[mem..mem + whereSize])
    ensures IsMaxPacking(what, text[mem..mem + whereSize], total)
  {
    total := CountHits(what, text, mem, whereSize);
    SerialIsMaxPacking(what, text[mem..mem + whereSize]);
  }

  // ---- split_file_mapping ----

  datatype Params = Params(chunkMem: nat, chunkSize: nat)

  function ChunkSize(n: nat, size: nat): nat
    requires n > 0
  {
    SizeT(size + n - 1) / n
  }

  /** What split_file_mapping leaves in entry `i`, whatever the sizes. */
  function Assigned(n: nat, size: nat, stringSize: nat, i: nat): Params
    requires i < n
  {
    var chunk := ChunkSize(n, size);
    var last := Min(chunk, SizeT(size - (n - 1) * chunk));
    if i == n - 1 then Params(i * chunk, last)
    else if i == n - 2 && SizeT(stringSize - 1) > last then Params(i * chunk, SizeT(chunk + last))
    else Params(i * chunk, SizeT(chunk + stringSize - 1))
  }

  function Windows(n: nat, size: nat, stringSize: nat): seq<Params> {
    seq(n, i requires 0 <= i < n => Assigned(n, size, stringSize, i))
  }

  method SplitFileMapping(thParams: array<Params>, size: nat, stringSize: nat)
    requires thParams.Length >= 2
    modifies thParams
    ensures thParams[..] == Windows(thParams.Length, size, stringSize)
  {
    var n := thParams.Length;
    var chunkSize := ChunkSize(n, size);
    var i := 0;
    while i < n - 1
      invariant 0 <= i <= n - 1
      invariant forall k | 0 <= k < i :: thParams[k] == Params(k * chunkSize, SizeT(chunkSize + stringSize - 1))
    {
      thParams[i] := Params(i * chunkSize, SizeT(chunkSize + stringSize - 1));
      i := i + 1;
    }
    thParams[i] := Params(i * chunkSize, Min(chunkSize, SizeT(size - i * chunkSize)));
    if SizeT(stringSize - 1) > thParams[i].chunkSize {
      thParams[i - 1] := thParams[i - 1].(chunkSize := SizeT(chunkSize + thParams[i].chunkSize));
    }
    assert forall k | 0 <= k < n :: thParams[k] == Assigned(n, size, stringSize, k);
  }

  /** The last chunk exists and holds at least `stringSize - 1` bytes. */
  predicate SplitSafe(n: nat, size: nat, stringSize: nat)
    requires n > 0
  {
    (n - 1) * ChunkSize(n, size) + stringSize - 1 <= size
  }

  /** The chunk lies in the file and is long enough for the loop guard of count. */
  predicate ChunkFits(p: Params, size: nat, stringSize: nat) {
    p.chunkMem + p.chunkSize <= size && stringSize <= p.chunkSize + 1
  }

  predicate AllFit(ws: seq<Params>, size: nat, stringSize: nat) {
    forall k | 0 <= k < |ws| :: ChunkFits(ws[k], size, stringSize)
  }

  /** The match start positions of the windows are the consecutive ranges between the cuts:
      no start position is looked at twice, and none before the last cut is missed. */
  predicate Partitions(ws: seq<Params>, cuts: seq<nat>, stringSize: nat) {
    && |cuts| == |ws| + 1
    && cuts[0] == 0
    && (forall k | 0 <= k < |ws| :: ws[k].chunkMem == cuts[k] && cuts[k] <= cuts[k + 1]
                                    && cuts[k] + ws[k].chunkSize + 1 == cuts[k + 1] + stringSize)
  }

  function Cut(n: nat, size: nat, stringSize: nat, i: nat): nat
    requires n > 0 && stringSize <= size + 1
  {
    if i < n then i * ChunkSize(n, size) else size + 1 - stringSize
  }

  function Cuts(n: nat, size: nat, stringSize: nat): (cuts: seq<nat>)
    requires n > 0 && stringSize <= size + 1
    ensures |cuts| == n + 1 && cuts[n] == size + 1 - stringSize
  {
    seq(n + 1, i requires 0 <= i <= n => Cut(n, size, stringSize, i))
  }

  lemma MulStep(i: int, c: int)
    ensures (i + 1) * c == i * c + c
  {}

  lemma ChunkBounds(n: nat, size: nat)
    requires n > 0 && size + n - 1 < SIZE_MODULUS
    ensures size <= n * ChunkSize(n, size) < size + n
    ensures size > 0 ==> ChunkSize(n, size) > 0
  {
    var q := (size + n - 1) / n;
    assert n * q + (size + n - 1) % n == size + n - 1;
  }

  lemma SafeWindow(n: nat, size: nat, stringSize: nat, i: nat)
    requires i < n && 0 < size && 0 < stringSize && size + n - 1 + stringSize < SIZE_MODULUS
    requires SplitSafe(n, size, stringSize)
    ensures Assigned(n, size, stringSize, i)
         == if i < n - 1 then Params(i * ChunkSize(n, size), ChunkSize(n, size) + stringSize - 1)
            else Params(i * ChunkSize(n, size), size - i * ChunkSize(n, size))
    ensures ChunkFits(Assigned(n, size, stringSize, i), size, stringSize)
  {
    var chunk := ChunkSize(n, size);
    ChunkBounds(n, size);
    MulStep(n - 1, chunk);
    if i < n - 1 {
      MulMono(i + 1, n - 1, chunk);
      MulStep(i, chunk);
    }
  }

  /** When the last chunk exists, the windows start at the beginning of the file, the last one ends with the
      file, and each other one reaches a needle less one byte into its successor, but not past the file: one
      that would is corrected to end where the last one ends. */
  lemma WindowEnds(n: nat, size: nat, stringSize: nat, i: nat)
    requires n >= 2 && i < n && 0 < size && 0 < stringSize && size + n - 1 + stringSize < SIZE_MODULUS
    requires (n - 1) * ChunkSize(n, size) <= size
    ensures var ws := Windows(n, size, stringSize);
            var last := ws[n - 1];
            && ws[0].chunkMem == 0 && last.chunkMem + last.chunkSize == size
            && (i < n - 1 ==>
                  ws[i].chunkMem + ws[i].chunkSize
                  == if i == n - 2 && stringSize - 1 > last.chunkSize then size
                     else ws[i + 1].chunkMem + stringSize - 1)
  {
    var chunk := ChunkSize(n, size);
    ChunkBounds(n, size);
    MulStep(n - 1, chunk);
    MulStep(n - 2, chunk);
    MulStep(i, chunk);
    MulMono(1, n - 1, chunk);
  }

  /** Where window `k` starts, and where the next one's start positions begin. */
  lemma WindowToCut(n: nat, size: nat, stringSize: nat, k: nat)
    requires k < n && 0 < size && 0 < stringSize && size + n - 1 + stringSize < SIZE_MODULUS
    requires SplitSafe(n, size, stringSize)
    ensures stringSize <= size + 1
    ensures var w, cut, next := Assigned(n, size, stringSize, k), Cut(n, size, stringSize, k),
                                Cut(n, size, stringSize, k + 1);
            w.chunkMem == cut <= next && cut + w.chunkSize + 1 == next + stringSize
  {
    SafeWindow(n, size, stringSize, k);
    MulStep(k, ChunkSize(n, size));
  }

  /** With enough bytes in the last chunk, the split hands every start position to exactly one thread. */
  lemma WindowsPartition(n: nat, size: nat, stringSize: nat)
    requires n >= 2 && 0 < size && 0 < stringSize && size + n - 1 + stringSize < SIZE_MODULUS
    requires SplitSafe(n, size, stringSize)
    ensures stringSize <= size + 1
    ensures Partitions(Windows(n, size, stringSize), Cuts(n, size, stringSize), stringSize)
    ensures AllFit(Windows(n, size, stringSize), size, stringSize)
  {
    WindowToCut(n, size, stringSize, 0);
    var ws, cuts := Windows(n, size, stringSize), Cuts(n, size, stringSize);
    forall k | 0 <= k < n
      ensures ws[k].chunkMem == cuts[k] && cuts[k] <= cuts[k + 1]
              && cuts[k] + ws[k].chunkSize + 1 == cuts[k + 1] + stringSize
              && ChunkFits(ws[k], size, stringSize)
    {
      SafeWindow(n, size, stringSize, k);
      WindowToCut(n, size, stringSize, k);
    }
  }

  /** The split is usable by count exactly when the last chunk holds enough bytes. */
  lemma WindowsFitIffSplitSafe(n: nat, size: nat, stringSize: nat)
    requires n >= 2 && 0 < size && 0 < stringSize && size + n - 1 + stringSize < SIZE_MODULUS
    ensures AllFit(Windows(n, size, stringSize), size, stringSize) <==> SplitSafe(n, size, stringSize)
  {
    if SplitSafe(n, size, stringSize) {
      WindowsPartition(n, size, stringSize);
    } else {
      ChunkBounds(n, size);
      assert !ChunkFits(Windows(n, size, stringSize)[n - 1], size, stringSize);
    }
  }

  // ---- Summing the windows ----

  /** What the thread that was handed `p` reports. */
  function ThreadCount(what: string, text: string, p: Params): nat
    requires |what| > 0 && ChunkFits(p, |text|, |what|)
  {
    Serial(what, text[p.chunkMem..p.chunkMem + p.chunkSize])
  }

  lemma ThreadCountIsScan(what: string, text: string, p: Params, lo: nat, hi: nat)
    requires |what| > 0 && ChunkFits(p, |text|, |what|)
    requires p.chunkMem == lo && lo + p.chunkSize + 1 == hi + |what|
    ensures ThreadCount(what, text, p) == Scan(what, text, lo, hi)
  {
    ScanWindow(what, text, lo, p.chunkSize, 0, p.chunkSize + 1 - |what|);
  }

  function SumCounts(what: string, text: string, ws: seq<Params>): nat
    requires |what| > 0 && AllFit(ws, |text|, |what|)
  {
    if ws == [] then 0
    else SumCounts(what, text, ws[..|ws| - 1]) + ThreadCount(what, text, ws[|ws| - 1])
  }

  /** Windows that partition a range overcount a scan of it by at most one per inner cut,
      never undercount it, and count it exactly when the needle has no border. */
  lemma {:induction false} SumBounds(what: string, text: string, ws: seq<Params>, cuts: seq<nat>)
    requires |what| > 0 && |ws| > 0 && AllFit(ws, |text|, |what|) && Partitions(ws, cuts, |what|)
    ensures Scan(what, text, 0, cuts[|ws|]) <= SumCounts(what, text, ws)
         <= Scan(what, text, 0, cuts[|ws|]) + |ws| - 1
    ensures BorderFree(what) ==> SumCounts(what, text, ws) == Scan(what, text, 0, cuts[|ws|])
  {
    var m := |ws| - 1;
    var a, b := cuts[m], cuts[m + 1];
    ThreadCountIsScan(what, text, ws[m], a, b);
    if m == 0 {
      assert SumCounts(what, text, ws[..0]) == 0;
    } else {
      SumBounds(what, text, ws[..m], cuts[..m + 1]);
      SplitScan(what, text, 0, a, b);
      if BorderFree(what) {
        SplitScanBorderFree(what, text, 0, a, b);
      }
    }
  }

  /** Main's inputs for which every thread stays inside the file and no 32-bit counter wraps. */
  predicate Countable(n: nat, what: string, text: string) {
    && n >= 2 && 0 < |what| && 0 < |text| && |text| < UINT_MODULUS && n < UINT_MODULUS
    && AllFit(Windows(n, |text|, |what|), |text|, |what|)
  }

  /** The total main prints. */
  function Parallel(n: nat, what: string, text: string): nat
    requires Countable(n, what, text)
  {
    SumCounts(what, text, Windows(n, |text|, |what|))
  }

  lemma ParallelBounds(n: nat, what: string, text: string)
    requires Countable(n, what, text)
    ensures |what| <= |text| + 1
    ensures Serial(what, text) <= Parallel(n, what, text) <= Serial(what, text) + n - 1
    ensures BorderFree(what) ==> Parallel(n, what, text) == Serial(what, text)
  {
    assert ChunkFits(Windows(n, |text|, |what|)[0], |text|, |what|);
    WindowsFitIffSplitSafe(n, |text|, |what|);
    WindowsPartition(n, |text|, |what|);
    SumBounds(what, text, Windows(n, |text|, |what|), Cuts(n, |text|, |what|));
  }

  // ---- When the parallel answer is the serial one ----

  lemma QuotientOfPaddedProduct(n: nat, m: nat)
    requires n > 0
    ensures (n * m + n - 1) / n == m
  {
    ModUnique(n * m + n - 1, m, n - 1, n);
  }

  /** `lead + 2m` characters, with `m` the needle length, that hold no occurrence before `lead + k`
      and two overlapping ones, at `lead + k` and `lead + m`. */
  ghost predicate HasOverlap(what: string, text: string, lead: nat, k: nat) {
    && 0 < k < |what|
    && |text| == lead + 2 * |what|
    && (forall p | 0 <= p < lead + k :: !OccursAt(what, text, p))
    && OccursAt(what, text, lead + k)
    && OccursAt(what, text, lead + |what|)
  }

  /** A needle with a border of length `k` overlaps itself after any lead of a foreign character. */
  lemma OverlapExists(what: string, lead: nat, k: nat) returns (text: string)
    requires 0 < k < |what| && what[..k] == what[|what| - k..]
    ensures HasOverlap(what, text, lead, k)
  {
    var filler := if what[0] == 'a' then 'b' else 'a';
    var pad := seq(lead + k, _ => filler);
    text := pad + what + what[k..];
    forall p | 0 <= p < lead + k ensures !OccursAt(what, text, p) {
      assert text[p] == filler;
      if p + |what| <= |text| {
        assert text[p..p + |what|][0] == text[p];
      }
    }
    TwoOccurrences(what, pad, k);
  }

  lemma TwoOccurrences(what: string, pad: string, k: nat)
    requires k < |what| && what[..k] == what[|what| - k..]
    ensures var text := pad + what + what[k..];
            OccursAt(what, text, |pad|) && OccursAt(what, text, |pad| + |what| - k)
  {
    var m, text := |what|, pad + what + what[k..];
    var at := |pad| + m - k;
    assert text[|pad|..|pad| + m] == what;
    forall j | 0 <= j < m ensures text[at..at + m][j] == what[j] {
      if j < k {
        assert text[at + j] == what[m - k..][j] == what[..k][j];
      } else {
        assert text[at + j] == what[k..][j - k];
      }
    }
    assert text[at..at + m] == what;
  }

  lemma HitInRange(what: string, text: string, a: nat, p: nat, hi: nat)
    requires |what| > 0 && a <= p < hi
    requires OccursAt(what, text, p) && forall q | a <= q < p :: !OccursAt(what, text, q)
    ensures Scan(what, text, a, hi) == 1 + Scan(what, text, p + |what|, hi)
  {
    SkipMisses(what, text, a, p, hi);
  }

  /** A file of `n` needle lengths is cut after `n - 2` and `n - 1` of them. */
  lemma MultipleSplit(n: nat, m: nat, lead: nat, size: nat)
    requires n >= 2 && m > 0 && lead == (n - 2) * m && size == lead + 2 * m
    requires size < UINT_MODULUS && n < UINT_MODULUS
    ensures SplitSafe(n, size, m)
    ensures Windows(n, size, m)[n - 2] == Params(lead, 2 * m - 1)
    ensures Windows(n, size, m)[n - 1] == Params(lead + m, m)
  {
    MulStep(n - 2, m);
    MulStep(n - 1, m);
    QuotientOfPaddedProduct(n, m);
    assert ChunkSize(n, size) == m;
    SafeWindow(n, size, m, n - 2);
    SafeWindow(n, size, m, n - 1);
  }

  lemma LastTwo(what: string, text: string, ws: seq<Params>)
    requires |what| > 0 && |ws| >= 2 && AllFit(ws, |text|, |what|)
    ensures SumCounts(what, text, ws)
         >= ThreadCount(what, text, ws[|ws| - 2]) + ThreadCount(what, text, ws[|ws| - 1])
  {
    assert ws[..|ws| - 1][|ws| - 2] == ws[|ws| - 2];
  }

  lemma OverlapSerial(what: string, text: string, lead: nat, k: nat)
    requires HasOverlap(what, text, lead, k)
    ensures Serial(what, text) == 1
  {
    HitInRange(what, text, 0, lead + k, lead + |what| + 1);
  }

  lemma OverlapThread(what: string, text: string, lead: nat, k: nat, p: Params, first: bool)
    requires HasOverlap(what, text, lead, k)
    requires p == if first then Params(lead, 2 * |what| - 1) else Params(lead + |what|, |what|)
    ensures ThreadCount(what, text, p) == 1
  {
    var lo := p.chunkMem;
    var hi := lo + p.chunkSize + 1 - |what|;
    ThreadCountIsScan(what, text, p, lo, hi);
    HitInRange(what, text, lo, if first then lead + k else lo, hi);
  }

  lemma OverlapOvercounts(n: nat, what: string, text: string, lead: nat, k: nat)
    requires n >= 2 && HasOverlap(what, text, lead, k)
    requires lead == (n - 2) * |what| && lead + 2 * |what| < UINT_MODULUS && n < UINT_MODULUS
    ensures Countable(n, what, text) && Parallel(n, what, text) > Serial(what, text)
  {
    var ws := Windows(n, |text|, |what|);
    MultipleSplit(n, |what|, lead, |text|);
    WindowsPartition(n, |text|, |what|);
    OverlapSerial(what, text, lead, k);
    OverlapThread(what, text, lead, k, ws[n - 2], true);
    OverlapThread(what, text, lead, k, ws[n - 1], false);
    LastTwo(what, text, ws);
  }

  ghost predicate AlwaysSerial(n: nat, what: string) {
    forall text | Countable(n, what, text) ::
      |what| <= |text| + 1 && Parallel(n, what, text) == Serial(what, text)
  }

  /** The parallel program computes the serial count on every text exactly when the needle has no border. */
  lemma ParallelIsSerialIffBorderFree(n: nat, what: string)
    requires n >= 2 && 0 < |what| && n * |what| < UINT_MODULUS
    ensures AlwaysSerial(n, what) <==> BorderFree(what)
  {
    if BorderFree(what) {
      forall text | Countable(n, what, text)
        ensures |what| <= |text| + 1 && Parallel(n, what, text) == Serial(what, text)
      {
        ParallelBounds(n, what, text);
      }
    } else {
      var k :| 0 < k < |what| && what[..k] == what[|what| - k..];
      var lead := (n - 2) * |what|;
      MulStep(n - 2, |what|);
      MulStep(n - 1, |what|);
      MulMono(1, |what|, n);
      var text := OverlapExists(what, lead, k);
      OverlapOvercounts(n, what, text, lead, k);
    }
  }

  // ---- main ----

  /** The body of one thread. */
  method ThreadCode(what: string, text: string, p: Params) returns (result: nat)
    requires |what| > 0 && ChunkFits(p, |text|, |what|) && |text| < UINT_MODULUS
    ensures result == ThreadCount(what, text, p)
  {
    result := Count(what, text, p.chunkMem, p.chunkSize);
  }

  /** Splits the file, runs the threads on the windows and adds their results. */
  method ParallelCount(what: string, text: string, n: nat) returns (total: nat)
    requires Countable(n, what, text)
    ensures total == Parallel(n, what, text)
    ensures |what| <= |text| + 1
    ensures Serial(what, text) <= total <= Serial(what, text) + n - 1
    ensures BorderFree(what) ==> total == Serial(what, text)
  {
    var thParams := new Params[n](_ => Params(0, 0));
    SplitFileMapping(thParams, |text|, |what|);
    ghost var ws := thParams[..];
    var results := new nat[n](_ => 0);
    for i := 0 to n
      invariant thParams[..] == ws
      invariant forall k | 0 <= k < i :: results[k] == ThreadCount(what, text, ws[k])
    {
      results[i] := ThreadCode(what, text, thParams[i]);
    }
    total := 0;
    for i := 0 to n
      invariant total == SumCounts(what, text, ws[..i])
    {
      assert ws[..i + 1][..i] == ws[..i];
      total := total + results[i];
    }
    assert ws[..n] == ws;
    ParallelBounds(n, what, text);
  }
}
