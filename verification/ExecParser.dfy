/** The program-header part of so_parse_exec: PT_LOAD headers become page-aligned segments.
    All header fields are 32-bit unsigned, and the arithmetic on them wraps. */
module ExecParser {
  import opened Basics

  // ---- Alignment ----

  /** C's `&` on unsigned integers, bit by bit. */
  function And(x: nat, y: nat): nat
    decreases x
  {
    if x == 0 then 0
    else 2 * And(x / 2, y / 2) + (if x % 2 == 1 && y % 2 == 1 then 1 else 0)
  }

  /** C's `~` on 32 bits. */
  function Not(x: nat): nat
    requires x < UINT_MODULUS
  {
    0xffff_ffff - x
  }

  function AlignDown(v: nat, a: nat): nat
    requires 0 < a < UINT_MODULUS
  {
    And(v, Not(a - 1))
  }

  function Pow2(k: nat): nat {
    if k == 0 then 1 else 2 * Pow2(k - 1)
  }

  lemma Pow2Of32()
    ensures Pow2(32) == UINT_MODULUS
  {
    assert Pow2(8) == 256;
    assert Pow2(16) == 65536;
    assert Pow2(24) == 16777216;
  }

  lemma {:induction false} Pow2Mono(j: nat, k: nat)
    requires j <= k
    ensures 0 < Pow2(j) <= Pow2(k)
    decreases k
  {
    if j > 0 {
      Pow2Mono(j - 1, k - 1);
    } else if k > 0 {
      Pow2Mono(0, k - 1);
    }
  }

  lemma HalfMod(v: nat, h: nat)
    requires h > 0
    ensures v % (2 * h) == 2 * ((v / 2) % h) + v % 2
  {
    var q, r := (v / 2) / h, (v / 2) % h;
    assert v / 2 == q * h + r;
    assert v == q * (2 * h) + (2 * r + v % 2) by {
      assert v == 2 * (v / 2) + v % 2;
      assert 2 * (q * h) == q * (2 * h);
    }
    ModUnique(v, q, 2 * r + v % 2, 2 * h);
  }

  lemma {:induction false} AndAllOnes(v: nat, w: nat)
    requires v < Pow2(w)
    ensures 0 < Pow2(w) && And(v, Pow2(w) - 1) == v
    decreases w
  {
    Pow2Mono(0, w);
    if w > 0 {
      AndAllOnes(v / 2, w - 1);
      assert (Pow2(w) - 1) / 2 == Pow2(w - 1) - 1 && (Pow2(w) - 1) % 2 == 1;
    }
  }

  /** Masking with the bits from `k` up clears the remainder modulo the `k`-th power of two. */
  lemma {:induction false} AndHighMask(v: nat, k: nat, w: nat, m: nat)
    requires k <= w && v < Pow2(w) && m + Pow2(k) == Pow2(w)
    ensures 0 < Pow2(k) && And(v, m) == v - v % Pow2(k)
    decreases w
  {
    Pow2Mono(0, k);
    if k == 0 {
      AndAllOnes(v, w);
    } else {
      assert m == 2 * (m / 2) && m / 2 + Pow2(k - 1) == Pow2(w - 1);
      AndHighMask(v / 2, k - 1, w - 1, m / 2);
      HalfMod(v, Pow2(k - 1));
    }
  }

  /** For every page size that is a power of two ALIGN_DOWN rounds down to a multiple of it. */
  lemma AlignDownRounds(v: nat, k: nat)
    requires k < 32 && v < UINT_MODULUS
    ensures 0 < Pow2(k) < UINT_MODULUS
    ensures AlignDown(v, Pow2(k)) == v - v % Pow2(k)
  {
    Pow2Of32();
    Pow2Mono(0, k);
    Pow2Mono(k, 31);
    AndHighMask(v, k, 32, UINT_MODULUS - Pow2(k));
  }

  // ---- Program headers and segments ----

  type Word = x: int | 0 <= x < UINT_MODULUS

  const PT_LOAD: Word := 1
  const PF_X: Word := 1
  const PF_W: Word := 2
  const PF_R: Word := 4

  /** The fields of an Elf32_Phdr that the parser reads. */
  datatype Phdr = Phdr(pType: Word, pOffset: Word, pVaddr: Word, pFilesz: Word, pMemsz: Word, pFlags: Word)

  datatype Perm = Perm(r: bool, w: bool, x: bool)

  datatype Seg = Seg(vaddr: nat, fileSize: nat, memSize: nat, offset: nat, perm: Perm)

  function PermOf(flags: Word): Perm {
    Perm(And(flags, PF_R) != 0, And(flags, PF_W) != 0, And(flags, PF_X) != 0)
  }

  lemma AndZero(x: nat)
    ensures And(x, 0) == 0
    decreases x
  {}

  /** The permissions are the three low bits of the flags: executable, writable, readable. */
  lemma PermOfBits(flags: Word)
    ensures PermOf(flags).x <==> flags % 2 == 1
    ensures PermOf(flags).w <==> flags / 2 % 2 == 1
    ensures PermOf(flags).r <==> flags / 4 % 2 == 1
  {
    AndZero(flags / 2);
    AndZero(flags / 2 / 2);
    AndZero(flags / 2 / 2 / 2);
    assert And(flags, 1) == flags % 2;
    assert And(flags / 2, 1) == flags / 2 % 2 && And(flags, 2) == 2 * (flags / 2 % 2);
    assert And(flags / 2 / 2, 1) == flags / 4 % 2 && And(flags / 2, 2) == 2 * (flags / 4 % 2);
    assert And(flags, 4) == 4 * (flags / 4 % 2);
  }

  /** The page-aligned segment that stands for a header: everything moves down by the offset of
      `pVaddr` in its page. */
  function SegmentOf(ph: Phdr, pagesz: nat): Seg
    requires pagesz > 0
  {
    var diff := ph.pVaddr % pagesz;
    Seg(ph.pVaddr - diff, U32(ph.pFilesz + diff), U32(ph.pMemsz + diff), U32(ph.pOffset - diff), PermOf(ph.pFlags))
  }

  /** The segments of the PT_LOAD headers, in order. */
  function LoadSegments(phdrs: seq<Phdr>, pagesz: nat): (segs: seq<Seg>)
    requires pagesz > 0
    ensures |segs| <= |phdrs|
  {
    if phdrs == [] then []
    else
      var last := phdrs[|phdrs| - 1];
      LoadSegments(phdrs[..|phdrs| - 1], pagesz) + (if last.pType == PT_LOAD then [SegmentOf(last, pagesz)] else [])
  }

  /** Every segment comes from a PT_LOAD header. */
  lemma {:induction false} SegmentHasHeader(phdrs: seq<Phdr>, pagesz: nat, j: nat)
    requires pagesz > 0 && j < |LoadSegments(phdrs, pagesz)|
    ensures exists i :: 0 <= i < |phdrs| && phdrs[i].pType == 1
                        && LoadSegments(phdrs, pagesz)[j] == SegmentOf(phdrs[i], pagesz)
    decreases |phdrs|
  {
    var front := phdrs[..|phdrs| - 1];
    if j < |LoadSegments(front, pagesz)| {
      SegmentHasHeader(front, pagesz, j);
      var i :| 0 <= i < |front| && front[i].pType == PT_LOAD
               && LoadSegments(front, pagesz)[j] == SegmentOf(front[i], pagesz);
      assert phdrs[i] == front[i];
    } else {
      assert phdrs[|phdrs| - 1].pType == PT_LOAD;
    }
  }

  /** Every PT_LOAD header gets its segment. */
  lemma {:induction false} HeaderHasSegment(phdrs: seq<Phdr>, pagesz: nat, i: nat)
    requires pagesz > 0 && i < |phdrs| && phdrs[i].pType == 1
    ensures SegmentOf(phdrs[i], pagesz) in LoadSegments(phdrs, pagesz)
    decreases |phdrs|
  {
    if i < |phdrs| - 1 {
      HeaderHasSegment(phdrs[..|phdrs| - 1], pagesz, i);
    }
  }

  /** `base` is the lowest segment address, or the initial value when no segment lies below it. */
  ghost predicate IsBase(base: nat, segs: seq<Seg>) {
    && (forall j | 0 <= j < |segs| :: base <= segs[j].vaddr)
    && (base == 0xffff_ffff || exists j | 0 <= j < |segs| :: base == segs[j].vaddr)
  }

  lemma IsBaseStep(base: nat, segs: seq<Seg>, seg: Seg)
    requires IsBase(base, segs)
    ensures IsBase(if seg.vaddr < base then seg.vaddr else base, segs + [seg])
  {
    var all := segs + [seg];
    assert all[|segs|] == seg;
    assert forall j | 0 <= j < |segs| :: all[j] == segs[j];
  }

  lemma LoadSegmentsStep(phdrs: seq<Phdr>, pagesz: nat, i: nat)
    requires pagesz > 0 && i < |phdrs|
    ensures LoadSegments(phdrs[..i + 1], pagesz)
         == LoadSegments(phdrs[..i], pagesz) + (if phdrs[i].pType == PT_LOAD then [SegmentOf(phdrs[i], pagesz)] else [])
  {
    assert phdrs[..i + 1][..i] == phdrs[..i];
  }

  /** The first loop of so_parse_exec over the program headers. */
  method CountLoads(phdrs: seq<Phdr>, pagesz: nat) returns (numLoadPhdr: nat)
    requires pagesz > 0
    ensures numLoadPhdr == |LoadSegments(phdrs, pagesz)|
  {
    numLoadPhdr := 0;
    for i := 0 to |phdrs|
      invariant numLoadPhdr == |LoadSegments(phdrs[..i], pagesz)|
    {
      LoadSegmentsStep(phdrs, pagesz, i);
      if phdrs[i].pType == PT_LOAD {
        numLoadPhdr := numLoadPhdr + 1;
      }
    }
    assert phdrs[..|phdrs|] == phdrs;
  }

  method ConvertHeader(ph: Phdr, ghost k: nat, pagesz: nat) returns (seg: Seg)
    requires k < 32 && pagesz == Pow2(k) > 0
    ensures seg == SegmentOf(ph, pagesz)
    ensures seg.perm == Perm(ph.pFlags / 4 % 2 == 1, ph.pFlags / 2 % 2 == 1, ph.pFlags % 2 == 1)
  {
    PermOfBits(ph.pFlags);
    AlignDownRounds(ph.pVaddr, k);
    var vaddr := AlignDown(ph.pVaddr, pagesz);
    var diff := ph.pVaddr - vaddr;
    seg := Seg(vaddr, U32(ph.pFilesz + diff), U32(ph.pMemsz + diff), U32(ph.pOffset - diff), PermOf(ph.pFlags));
  }

  /** The conversion loop of so_parse_exec, after the loop that counts the segments. */
  method ParseLoads(phdrs: seq<Phdr>, ghost k: nat, pagesz: nat) returns (baseAddr: nat, segments: array<Seg>)
    requires k < 32 && pagesz == Pow2(k) > 0
    ensures segments[..] == LoadSegments(phdrs, pagesz)
    ensures forall j | 0 <= j < segments.Length :: baseAddr <= segments[j].vaddr
    ensures baseAddr == 0xffff_ffff || exists j :: 0 <= j < segments.Length && baseAddr == segments[j].vaddr
  {
    var numLoadPhdr := CountLoads(phdrs, pagesz);
    baseAddr := 0xffff_ffff;
    segments := new Seg[numLoadPhdr](_ => Seg(0, 0, 0, 0, Perm(false, false, false)));
    var j := 0;
    ghost var done := [];
    for i := 0 to |phdrs|
      invariant j == |done| <= segments.Length && segments[..j] == done
      invariant done == LoadSegments(phdrs[..i], pagesz) && IsBase(baseAddr, done)
    {
      LoadSegmentsStep(phdrs, pagesz, i);
      LoadSegmentsMono(phdrs, pagesz, i + 1);
      if phdrs[i].pType == PT_LOAD {
        var seg := ConvertHeader(phdrs[i], k, pagesz);
        IsBaseStep(baseAddr, done, seg);
        segments[j] := seg;
        if seg.vaddr < baseAddr {
          baseAddr := seg.vaddr;
        }
        j := j + 1;
        done := done + [seg];
      }
    }
    assert phdrs[..|phdrs|] == phdrs;
    assert IsBase(baseAddr, segments[..]);
  }

  lemma {:induction false} LoadSegmentsMono(phdrs: seq<Phdr>, pagesz: nat, i: nat)
    requires pagesz > 0 && i <= |phdrs|
    ensures |LoadSegments(phdrs[..i], pagesz)| <= |LoadSegments(phdrs, pagesz)|
    decreases |phdrs|
  {
    if i < |phdrs| {
      LoadSegmentsMono(phdrs[..|phdrs| - 1], pagesz, i);
      assert phdrs[..|phdrs| - 1][..i] == phdrs[..i];
    } else {
      assert phdrs[..i] == phdrs;
    }
  }
}
