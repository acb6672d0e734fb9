/** Parser and loader together: a running process sees the memory image that its program headers describe
    (PT_LOAD, "Program Header" in chapter 5 of the System V gABI). */
module ElfImage {
  import opened Basics
  import opened ExecParser
  import opened Loader

  // ---- What the headers describe ----

  predicate HeaderHolds(ph: Phdr, a: nat) {
    ph.pType == PT_LOAD && ph.pVaddr <= a < ph.pVaddr + ph.pMemsz
  }

  /** The byte at `pVaddr + k`. */
  function HeaderByte(ph: Phdr, file: seq<Byte>, k: nat): Byte {
    if k < ph.pFilesz && ph.pOffset + k < |file| then file[ph.pOffset + k] else 0
  }

  /** The first condition is weaker than the congruence of `pOffset` and `pVaddr` modulo the page size;
      the sizes are those that no 32-bit conversion changes. */
  predicate HeaderOk(ph: Phdr, file: seq<Byte>, pagesz: nat)
    requires pagesz > 0
  {
    && ph.pVaddr % pagesz <= ph.pOffset
    && ph.pFilesz <= ph.pMemsz && ph.pOffset + ph.pFilesz <= |file| < INT_LIMIT
    && ph.pVaddr + ph.pMemsz < UINT_MODULUS && ph.pMemsz + ph.pVaddr % pagesz < INT_LIMIT
  }

  ghost predicate HeadersOk(phdrs: seq<Phdr>, file: seq<Byte>, pagesz: nat) {
    && 0 < pagesz < INT_LIMIT
    && (forall i | 0 <= i < |phdrs| && phdrs[i].pType == PT_LOAD :: HeaderOk(phdrs[i], file, pagesz))
    && PageDisjoint(LoadSegments(phdrs, pagesz), pagesz)
  }

  ghost predicate InImage(phdrs: seq<Phdr>, a: nat) {
    exists i | 0 <= i < |phdrs| :: HeaderHolds(phdrs[i], a)
  }

  ghost predicate Allowed(phdrs: seq<Phdr>, access: Access) {
    exists i | 0 <= i < |phdrs| :: HeaderHolds(phdrs[i], access.addr) && FlagsAllow(PermOf(phdrs[i].pFlags), access)
  }

  ghost function ElfByte(phdrs: seq<Phdr>, file: seq<Byte>, a: nat): Byte {
    if InImage(phdrs, a) then
      var i :| 0 <= i < |phdrs| && HeaderHolds(phdrs[i], a);
      HeaderByte(phdrs[i], file, a - phdrs[i].pVaddr)
    else 0
  }

  ghost function Elf(phdrs: seq<Phdr>, file: seq<Byte>): nat -> Byte {
    a => ElfByte(phdrs, file, a)
  }

  // ---- The segments realise the headers ----

  /** Moving address, offset and both sizes down by the same amount changes no byte of the image, and
      what lies below the header's first byte stays inside its first page. */
  lemma SegmentRealisesHeader(ph: Phdr, file: seq<Byte>, pagesz: nat, a: nat)
    requires pagesz > 0 && HeaderOk(ph, file, pagesz)
    ensures var s := SegmentOf(ph, pagesz);
            && SegmentOk(s, pagesz) && s.vaddr == PageBase(ph.pVaddr, pagesz)
            && (HeaderHolds(ph, a) ==>
                  && InSegment(s, a)
                  && ImageByte(file, s, a - s.vaddr) == HeaderByte(ph, file, a - ph.pVaddr))
            && (InSegment(s, a) && a < ph.pVaddr ==> PageBase(a, pagesz) == s.vaddr)
  {
    var s, diff := SegmentOf(ph, pagesz), ph.pVaddr % pagesz;
    var q := ph.pVaddr / pagesz;
    assert s.vaddr == q * pagesz;
    ModUnique(s.vaddr, q, 0, pagesz);
    if s.vaddr <= a < ph.pVaddr {
      ModUnique(a, q, a - s.vaddr, pagesz);
    }
  }

  lemma SegmentsRealiseHeaders(phdrs: seq<Phdr>, file: seq<Byte>, pagesz: nat)
    requires HeadersOk(phdrs, file, pagesz)
    ensures SegmentsOk(LoadSegments(phdrs, pagesz), pagesz)
  {
    var segs := LoadSegments(phdrs, pagesz);
    forall j | 0 <= j < |segs| ensures SegmentOk(segs[j], pagesz) {
      SegmentHasHeader(phdrs, pagesz, j);
      var i :| 0 <= i < |phdrs| && phdrs[i].pType == PT_LOAD && segs[j] == SegmentOf(phdrs[i], pagesz);
      SegmentRealisesHeader(phdrs[i], file, pagesz, 0);
    }
  }

  /** What is loaded at an address that a header covers is that header's byte. */
  lemma LoadedFromHeader(phdrs: seq<Phdr>, file: seq<Byte>, pagesz: nat, i: nat, a: nat)
    requires HeadersOk(phdrs, file, pagesz) && i < |phdrs| && HeaderHolds(phdrs[i], a)
    ensures LoadedByte(LoadSegments(phdrs, pagesz), file, a) == HeaderByte(phdrs[i], file, a - phdrs[i].pVaddr)
  {
    var segs := LoadSegments(phdrs, pagesz);
    SegmentRealisesHeader(phdrs[i], file, pagesz, a);
    HeaderHasSegment(phdrs, pagesz, i);
    var j :| 0 <= j < |segs| && segs[j] == SegmentOf(phdrs[i], pagesz);
    OneSegment(segs, file, pagesz, j, a);
  }

  /** At every address that a header covers, the loaded segments hold the header's byte. */
  lemma LoadedIsElf(phdrs: seq<Phdr>, file: seq<Byte>, pagesz: nat, a: nat)
    requires HeadersOk(phdrs, file, pagesz) && InImage(phdrs, a)
    ensures LoadedByte(LoadSegments(phdrs, pagesz), file, a) == ElfByte(phdrs, file, a)
  {
    forall i | 0 <= i < |phdrs| && HeaderHolds(phdrs[i], a)
      ensures LoadedByte(LoadSegments(phdrs, pagesz), file, a) == HeaderByte(phdrs[i], file, a - phdrs[i].pVaddr)
    {
      LoadedFromHeader(phdrs, file, pagesz, i, a);
    }
  }

  /** Byte `k` of a PT_LOAD header (type 1) is byte `k` of its part of the file, and zero behind that part. */
  lemma ElfBytes(phdrs: seq<Phdr>, file: seq<Byte>, pagesz: nat, i: nat, k: nat)
    requires HeadersOk(phdrs, file, pagesz) && i < |phdrs| && phdrs[i].pType == 1 && k < phdrs[i].pMemsz
    ensures k >= phdrs[i].pFilesz ==> ElfByte(phdrs, file, phdrs[i].pVaddr + k) == 0
    ensures k < phdrs[i].pFilesz ==>
              phdrs[i].pOffset + k < |file| && ElfByte(phdrs, file, phdrs[i].pVaddr + k) == file[phdrs[i].pOffset + k]
  {
    var ph, a := phdrs[i], phdrs[i].pVaddr + k;
    assert HeaderOk(ph, file, pagesz) && HeaderHolds(ph, a);
    LoadedFromHeader(phdrs, file, pagesz, i, a);
    LoadedIsElf(phdrs, file, pagesz, a);
    assert ElfByte(phdrs, file, a) == HeaderByte(ph, file, k);
  }

  lemma AllowedIsLegal(phdrs: seq<Phdr>, file: seq<Byte>, pagesz: nat, access: Access)
    requires HeadersOk(phdrs, file, pagesz) && Allowed(phdrs, access)
    ensures InImage(phdrs, access.addr) && Legal(LoadSegments(phdrs, pagesz), access)
  {
    var i :| 0 <= i < |phdrs| && HeaderHolds(phdrs[i], access.addr) && FlagsAllow(PermOf(phdrs[i].pFlags), access);
    SegmentRealisesHeader(phdrs[i], file, pagesz, access.addr);
    HeaderHasSegment(phdrs, pagesz, i);
  }

  /** Memories that agree where a run goes give it the same values. */
  lemma {:induction false} SameValues(mem: nat -> Byte, mem': nat -> Byte, writes: map<nat, Byte>, run: seq<Access>)
    requires forall i | 0 <= i < |run| :: mem(run[i].addr) == mem'(run[i].addr)
    ensures EagerValues(mem, writes, run) == EagerValues(mem', writes, run)
    decreases |run|
  {
    if run != [] {
      SameValues(mem, mem', EagerWrites(writes, run[0]), run[1..]);
    }
  }

  /** so_execute without the jump to the entry point: parse the headers, then run on demand. Whatever the
      program does within its headers' flags, it reads the image the headers describe, and the number
      of faults is at most the number of pages. */
  method LoadAndRun(phdrs: seq<Phdr>, file: seq<Byte>, ghost k: nat, pagesz: nat, run: seq<Access>)
    returns (values: seq<Byte>, faults: nat)
    requires pagesz == Pow2(k) && HeadersOk(phdrs, file, pagesz)
    requires forall i | 0 <= i < |run| :: Allowed(phdrs, run[i])
    ensures values == EagerValues(Elf(phdrs, file), map[], run)
    ensures faults <= PageCount(LoadSegments(phdrs, pagesz), pagesz)
  {
    if k >= 32 {
      Pow2Of32();
      Pow2Mono(32, k);
      assert false;
    }
    var baseAddr, segments := ParseLoads(phdrs, k, pagesz);
    ghost var segs := LoadSegments(phdrs, pagesz);
    SegmentsRealiseHeaders(phdrs, file, pagesz);
    forall i | 0 <= i < |run|
      ensures Legal(segs, run[i]) && Loaded(segs, file)(run[i].addr) == Elf(phdrs, file)(run[i].addr)
    {
      AllowedIsLegal(phdrs, file, pagesz, run[i]);
      LoadedIsElf(phdrs, file, pagesz, run[i].addr);
    }
    SameValues(Loaded(segs, file), Elf(phdrs, file), map[], run);
    var process := new Process(segments[..], file, pagesz);
    values := process.Run(run);
    faults := |process.faults|;
  }
}
