/** The page-fault handler of the ELF loader: pages are mapped and filled one at a time, on first touch. */
module Loader {
  import opened Basics
  import opened ExecParser

  const INT_LIMIT: int := 0x8000_0000

  /** Conversion to a 32-bit signed `int`; a value already in range is kept. */
  function ToInt(x: nat): (r: int)
    ensures x < INT_LIMIT ==> r == x
    ensures -INT_LIMIT <= r < INT_LIMIT && (r - x) % UINT_MODULUS == 0
  {
    var u := U32(x);
    if u < 0x8000_0000 then u else u - 0x1_0000_0000
  }

  // ---- Segments and what they hold when fully loaded ----

  predicate InSegment(s: Seg, a: nat) { s.vaddr <= a < s.vaddr + s.memSize }

  function PageBase(a: nat, pageSize: nat): nat
    requires pageSize > 0
  {
    a - a % pageSize
  }

  /** Byte `k` of a segment: file bytes up to the file size, as far as the file goes, then zeros. */
  function ImageByte(file: seq<Byte>, s: Seg, k: nat): Byte {
    if k < s.fileSize && s.offset + k < |file| then file[s.offset + k] else 0
  }

  /** The sizes for which none of the handler's 32-bit conversions loses bits. */
  predicate SegmentOk(s: Seg, pageSize: nat)
    requires pageSize > 0
  {
    && s.vaddr % pageSize == 0
    && s.vaddr + s.memSize < UINT_MODULUS
    && s.memSize < INT_LIMIT && s.fileSize <= s.memSize && s.offset + s.fileSize < INT_LIMIT
  }

  /** No page holds bytes of two segments. */
  ghost predicate PageDisjoint(segs: seq<Seg>, pageSize: nat)
    requires pageSize > 0
  {
    forall i, j, a, b | 0 <= i < |segs| && 0 <= j < |segs| && InSegment(segs[i], a) && InSegment(segs[j], b)
                        && PageBase(a, pageSize) == PageBase(b, pageSize) :: i == j
  }

  ghost predicate SegmentsOk(segs: seq<Seg>, pageSize: nat) {
    && 0 < pageSize < INT_LIMIT
    && (forall i | 0 <= i < |segs| :: SegmentOk(segs[i], pageSize))
    && PageDisjoint(segs, pageSize)
  }

  /** Segments in the order of their addresses, each from a page boundary on, share no page. */
  lemma OrderedSegmentsShareNoPage(segs: seq<Seg>, pageSize: nat)
    requires pageSize > 0 && forall i | 0 <= i < |segs| :: segs[i].vaddr % pageSize == 0
    requires forall i, j | 0 <= i < j < |segs| :: segs[i].vaddr + segs[i].memSize <= segs[j].vaddr
    ensures PageDisjoint(segs, pageSize)
  {
    forall i, j, a, b | 0 <= i < |segs| && 0 <= j < |segs| && InSegment(segs[i], a) && InSegment(segs[j], b)
                        && PageBase(a, pageSize) == PageBase(b, pageSize)
      ensures i == j
    {
      PageInSegment(segs[i], pageSize, a);
      PageInSegment(segs[j], pageSize, b);
    }
  }

  /** Where the page of `a` starts within its segment. */
  function PageOffset(s: Seg, a: nat, pageSize: nat): nat
    requires pageSize > 0 && s.vaddr <= a
  {
    (a - s.vaddr) / pageSize * pageSize
  }

  lemma PageInSegment(s: Seg, pageSize: nat, a: nat)
    requires pageSize > 0 && s.vaddr % pageSize == 0 && InSegment(s, a)
    ensures PageBase(a, pageSize) == s.vaddr + PageOffset(s, a, pageSize)
    ensures PageBase(a, pageSize) <= a < PageBase(a, pageSize) + pageSize
    ensures (a - s.vaddr) / pageSize <= PageOffset(s, a, pageSize) <= a - s.vaddr
  {
    var q, d := s.vaddr / pageSize, a - s.vaddr;
    var n, r := d / pageSize, d % pageSize;
    assert s.vaddr == q * pageSize && d == n * pageSize + r;
    assert a == (q + n) * pageSize + r;
    ModUnique(a, q + n, r, pageSize);
    MulMono(1, pageSize, n);
  }

  // ---- Memory ----

  /** Page protections as mprotect sets them. */
  datatype Prot = Prot(r: bool, w: bool, x: bool)

  datatype Page = Page(data: seq<Byte>, prot: Prot)

  datatype Access = Load(addr: nat) | Store(addr: nat, value: Byte) | Fetch(addr: nat)

  predicate Permits(prot: Prot, access: Access) {
    match access
    case Load(_) => prot.r
    case Store(_, _) => prot.w
    case Fetch(_) => prot.x
  }

  predicate FlagsAllow(perm: Perm, access: Access) {
    match access
    case Load(_) => perm.r
    case Store(_, _) => perm.w
    case Fetch(_) => perm.x
  }

  /** The protection left by the chain of mprotect calls: the last flag that applies wins. An executable
      segment is writable too. */
  function FinalProt(perm: Perm): (prot: Prot)
    ensures prot.x <==> perm.x
    ensures prot.w <==> perm.w || perm.x
    ensures prot.r <==> perm.r || perm.w || perm.x
    ensures forall access :: FlagsAllow(perm, access) ==> Permits(prot, access)
  {
    if perm.x then Prot(true, true, true)
    else if perm.w then Prot(true, true, false)
    else if perm.r then Prot(true, false, false)
    else Prot(false, false, false)
  }

  /** What the flags of a segment allow, and what the handler's protection lets through beyond that. */
  lemma Permissions(perm: Perm, a: nat, b: Byte)
    ensures FlagsAllow(perm, Load(a)) <==> perm.r
    ensures FlagsAllow(perm, Store(a, b)) <==> perm.w
    ensures FlagsAllow(perm, Fetch(a)) <==> perm.x
    ensures Permits(FinalProt(perm), Load(a)) <==> perm.r || perm.w || perm.x
    ensures Permits(FinalProt(perm), Store(a, b)) <==> perm.w || perm.x
    ensures Permits(FinalProt(perm), Fetch(a)) <==> perm.x
  {}

  /** One page of the image of a segment. */
  function PageImage(file: seq<Byte>, s: Seg, at: nat, pageSize: nat): seq<Byte> {
    seq<Byte>(pageSize, i requires 0 <= i < pageSize => ImageByte(file, s, at + i))
  }

  // ---- The reference: everything loaded before the first instruction ----

  ghost predicate Mapped(segs: seq<Seg>, a: nat) {
    exists j | 0 <= j < |segs| :: InSegment(segs[j], a)
  }

  ghost predicate Legal(segs: seq<Seg>, access: Access) {
    exists j | 0 <= j < |segs| :: InSegment(segs[j], access.addr) && FlagsAllow(segs[j].perm, access)
  }

  /** The byte an eager loader puts at `a`. */
  ghost function LoadedByte(segs: seq<Seg>, file: seq<Byte>, a: nat): Byte {
    if Mapped(segs, a) then
      var j :| 0 <= j < |segs| && InSegment(segs[j], a);
      ImageByte(file, segs[j], a - segs[j].vaddr)
    else 0
  }

  ghost function Loaded(segs: seq<Seg>, file: seq<Byte>): nat -> Byte {
    a => LoadedByte(segs, file, a)
  }

  // ---- A machine whose memory starts as `mem` and never faults ----

  /** The byte at `a` after the stores `writes`. */
  ghost function EagerByte(mem: nat -> Byte, writes: map<nat, Byte>, a: nat): Byte {
    if a in writes then writes[a] else mem(a)
  }

  function EagerWrites(writes: map<nat, Byte>, access: Access): map<nat, Byte> {
    if access.Store? then writes[access.addr := access.value] else writes
  }

  ghost function EagerValue(mem: nat -> Byte, writes: map<nat, Byte>, access: Access): Byte {
    if access.Store? then access.value else EagerByte(mem, writes, access.addr)
  }

  ghost function EagerValues(mem: nat -> Byte, writes: map<nat, Byte>, run: seq<Access>): seq<Byte>
    decreases |run|
  {
    if run == [] then []
    else [EagerValue(mem, writes, run[0])]
           + EagerValues(mem, EagerWrites(writes, run[0]), run[1..])
  }

  predicate StoresTo(access: Access, a: nat) { access.Store? && access.addr == a }

  lemma {:induction false} ValueWithoutStore(mem: nat -> Byte, writes: map<nat, Byte>, run: seq<Access>, i: nat)
    requires i < |run| && !run[i].Store?
    requires forall l | 0 <= l < i :: !StoresTo(run[l], run[i].addr)
    ensures |EagerValues(mem, writes, run)| == |run|
    ensures EagerValues(mem, writes, run)[i] == EagerByte(mem, writes, run[i].addr)
    decreases |run|
  {
    ManyValues(mem, writes, run);
    if i > 0 {
      var rest := run[1..];
      assert !StoresTo(run[0], run[i].addr);
      ValueWithoutStore(mem, EagerWrites(writes, run[0]), rest, i - 1);
    }
  }

  lemma {:induction false} ManyValues(mem: nat -> Byte, writes: map<nat, Byte>, run: seq<Access>)
    ensures |EagerValues(mem, writes, run)| == |run|
    decreases |run|
  {
    if run != [] {
      ManyValues(mem, EagerWrites(writes, run[0]), run[1..]);
    }
  }

  /** A load returns what the last store to its address before it has stored. */
  lemma {:induction false} LoadSeesLastStore(mem: nat -> Byte, writes: map<nat, Byte>, run: seq<Access>, k: nat,
                                             i: nat)
    requires k < i < |run| && !run[i].Store? && StoresTo(run[k], run[i].addr)
    requires forall l | k < l < i :: !StoresTo(run[l], run[i].addr)
    ensures |EagerValues(mem, writes, run)| == |run| && EagerValues(mem, writes, run)[i] == run[k].value
    decreases |run|
  {
    var rest, after := run[1..], EagerWrites(writes, run[0]);
    ManyValues(mem, writes, run);
    if k == 0 {
      ValueWithoutStore(mem, after, rest, i - 1);
    } else {
      LoadSeesLastStore(mem, after, rest, k - 1, i - 1);
    }
  }

  /** A load without such a store returns the byte that memory started with. */
  lemma LoadSeesMemory(mem: nat -> Byte, run: seq<Access>, i: nat)
    requires i < |run| && !run[i].Store?
    requires forall l | 0 <= l < i :: !StoresTo(run[l], run[i].addr)
    ensures |EagerValues(mem, map[], run)| == |run| && EagerValues(mem, map[], run)[i] == mem(run[i].addr)
  {
    ValueWithoutStore(mem, map[], run, i);
  }

  /** The pages that a run touches. */
  ghost function Touched(run: seq<Access>, pageSize: nat): set<nat>
    requires pageSize > 0
  {
    set i | 0 <= i < |run| :: PageBase(run[i].addr, pageSize)
  }

  lemma PrefixStep(run: seq<Access>, i: nat)
    requires i < |run|
    ensures run[i..] != [] && run[i..][0] == run[i] && run[i..][1..] == run[i + 1..]
    ensures run[..i + 1] == run[..i] + [run[i]]
  {}

  lemma Regroup(a: seq<Byte>, b: Byte, c: seq<Byte>)
    ensures a + ([b] + c) == a + [b] + c
  {}

  lemma TouchedStep(run: seq<Access>, access: Access, pageSize: nat)
    requires pageSize > 0
    ensures Touched(run + [access], pageSize) == Touched(run, pageSize) + {PageBase(access.addr, pageSize)}
  {
    var longer := run + [access];
    assert longer[|run|] == access;
    forall i | 0 <= i < |run| ensures PageBase(run[i].addr, pageSize) in Touched(longer, pageSize) {
      assert longer[i] == run[i];
    }
  }

  // ---- Counting pages ----

  function PagesIn(s: Seg, pageSize: nat): nat
    requires pageSize > 0
  {
    (s.memSize + pageSize - 1) / pageSize
  }

  function PageCount(segs: seq<Seg>, pageSize: nat): nat
    requires pageSize > 0
  {
    if segs == [] then 0 else PagesIn(segs[0], pageSize) + PageCount(segs[1..], pageSize)
  }

  function TotalSize(segs: seq<Seg>): nat {
    if segs == [] then 0 else segs[0].memSize + TotalSize(segs[1..])
  }

  /** Rounding up to pages costs less than a page a segment. */
  lemma {:induction false} PageCountIsTight(segs: seq<Seg>, pageSize: nat)
    requires pageSize > 0
    ensures TotalSize(segs) <= PageCount(segs, pageSize) * pageSize <= TotalSize(segs) + |segs| * (pageSize - 1)
    decreases |segs|
  {
    if segs != [] {
      PageCountIsTight(segs[1..], pageSize);
      RoundedUp(segs[0].memSize, PagesIn(segs[0], pageSize), PageCount(segs[1..], pageSize), pageSize);
      assert |segs| * (pageSize - 1) == (|segs| - 1) * (pageSize - 1) + (pageSize - 1);
    }
  }

  lemma RoundedUp(size: nat, n: nat, rest: nat, pageSize: nat)
    requires pageSize > 0 && n == (size + pageSize - 1) / pageSize
    ensures size <= n * pageSize <= size + pageSize - 1
    ensures (n + rest) * pageSize == n * pageSize + rest * pageSize
  {}

  ghost function Bases(s: Seg, pageSize: nat, n: nat): set<nat> {
    if n == 0 then {} else Bases(s, pageSize, n - 1) + {s.vaddr + (n - 1) * pageSize}
  }

  lemma {:induction false} BasesSize(s: Seg, pageSize: nat, n: nat)
    ensures |Bases(s, pageSize, n)| <= n
  {
    if n > 0 {
      BasesSize(s, pageSize, n - 1);
    }
  }

  lemma {:induction false} InBases(s: Seg, pageSize: nat, n: nat, q: nat)
    requires q < n
    ensures s.vaddr + q * pageSize in Bases(s, pageSize, n)
  {
    if q < n - 1 {
      InBases(s, pageSize, n - 1, q);
    }
  }

  ghost function AllBases(segs: seq<Seg>, pageSize: nat): set<nat>
    requires pageSize > 0
  {
    if segs == [] then {} else Bases(segs[0], pageSize, PagesIn(segs[0], pageSize)) + AllBases(segs[1..], pageSize)
  }

  lemma {:induction false} AllBasesSize(segs: seq<Seg>, pageSize: nat)
    requires pageSize > 0
    ensures |AllBases(segs, pageSize)| <= PageCount(segs, pageSize)
    decreases |segs|
  {
    if segs != [] {
      BasesSize(segs[0], pageSize, PagesIn(segs[0], pageSize));
      AllBasesSize(segs[1..], pageSize);
    }
  }

  lemma BaseInBases(s: Seg, pageSize: nat, a: nat)
    requires pageSize > 0 && s.vaddr % pageSize == 0 && InSegment(s, a)
    ensures PageBase(a, pageSize) in Bases(s, pageSize, PagesIn(s, pageSize))
  {
    var q, n := (a - s.vaddr) / pageSize, PagesIn(s, pageSize);
    PageInSegment(s, pageSize, a);
    QuotientBelow(a - s.vaddr, s.memSize, pageSize);
    InBases(s, pageSize, n, q);
  }

  lemma {:induction false} BaseIsListed(segs: seq<Seg>, pageSize: nat, j: nat, a: nat)
    requires pageSize > 0 && j < |segs| && segs[j].vaddr % pageSize == 0 && InSegment(segs[j], a)
    ensures PageBase(a, pageSize) in AllBases(segs, pageSize)
    decreases |segs|
  {
    if j == 0 {
      BaseInBases(segs[0], pageSize, a);
    } else {
      BaseIsListed(segs[1..], pageSize, j - 1, a);
    }
  }

  lemma QuotientBelow(d: nat, size: nat, pageSize: nat)
    requires pageSize > 0 && d < size
    ensures d / pageSize < (size + pageSize - 1) / pageSize
  {
    var q, n := d / pageSize, (size + pageSize - 1) / pageSize;
    assert q * pageSize <= d && size + pageSize - 1 < n * pageSize + pageSize;
    if n <= q {
      MulMono(n, q, pageSize);
      assert false;
    }
  }

  lemma TouchedBound(segs: seq<Seg>, run: seq<Access>, pageSize: nat)
    requires SegmentsOk(segs, pageSize)
    requires forall i | 0 <= i < |run| :: Legal(segs, run[i])
    ensures |Touched(run, pageSize)| <= PageCount(segs, pageSize)
  {
    forall i | 0 <= i < |run| ensures PageBase(run[i].addr, pageSize) in AllBases(segs, pageSize) {
      assert Legal(segs, run[i]);
      var j :| 0 <= j < |segs| && InSegment(segs[j], run[i].addr) && FlagsAllow(segs[j].perm, run[i]);
      BaseIsListed(segs, pageSize, j, run[i].addr);
    }
    AllBasesSize(segs, pageSize);
    SubsetSize(Touched(run, pageSize), AllBases(segs, pageSize));
  }

  lemma SamePage(s: Seg, pageSize: nat, a: nat, b: nat)
    requires pageSize > 0 && s.vaddr % pageSize == 0 && InSegment(s, a) && InSegment(s, b)
    requires PageBase(a, pageSize) == PageBase(b, pageSize)
    ensures b - s.vaddr == PageOffset(s, a, pageSize) + b % pageSize
  {
    PageInSegment(s, pageSize, a);
    PageInSegment(s, pageSize, b);
  }

  /** With page-disjoint segments the byte at `a` comes from the one segment that holds `a`. */
  lemma OneSegment(segs: seq<Seg>, file: seq<Byte>, pageSize: nat, j: nat, a: nat)
    requires pageSize > 0 && PageDisjoint(segs, pageSize) && j < |segs| && InSegment(segs[j], a)
    ensures LoadedByte(segs, file, a) == ImageByte(file, segs[j], a - segs[j].vaddr)
  {
    assert Mapped(segs, a);
    forall i | 0 <= i < |segs| && InSegment(segs[i], a) ensures i == j {
      assert PageBase(a, pageSize) <= a;
    }
  }

  /** Each byte of a page is the loaded byte of its address. */
  lemma PageHolds(segs: seq<Seg>, file: seq<Byte>, pageSize: nat, j: nat, addr: nat, a: nat)
    requires SegmentsOk(segs, pageSize) && j < |segs| && InSegment(segs[j], addr) && InSegment(segs[j], a)
    requires PageBase(a, pageSize) == PageBase(addr, pageSize)
    ensures PageImage(file, segs[j], PageOffset(segs[j], addr, pageSize), pageSize)[a % pageSize]
         == LoadedByte(segs, file, a)
  {
    SamePage(segs[j], pageSize, addr, a);
    OneSegment(segs, file, pageSize, j, a);
  }

  class Process {
    const segments: seq<Seg>
    const file: seq<Byte>
    const pageSize: nat
    var fileOffset: nat
    var pages: map<nat, Page>
    var faults: seq<nat>  // page bases in the order of the faults

    ghost predicate Valid()
      reads this
    {
      SegmentsOk(segments, pageSize)
    }

    constructor (segments: seq<Seg>, file: seq<Byte>, pageSize: nat)
      requires SegmentsOk(segments, pageSize)
      ensures this.segments == segments && this.file == file && this.pageSize == pageSize
      ensures pages == map[] && faults == []
    {
      this.segments, this.file, this.pageSize := segments, file, pageSize;
      fileOffset, pages, faults := 0, map[], [];
    }

    /** A read of `count` bytes at the current file offset into the start of a zeroed page. */
    method ReadInto(count: int, base: nat)
      requires 0 <= count <= pageSize && base in pages && |pages[base].data| == pageSize
      modifies this`fileOffset, this`pages
      ensures base in pages && pages == old(pages)[base := pages[base]]
      ensures pages[base].prot == old(pages)[base].prot && |pages[base].data| == pageSize
      ensures forall i | 0 <= i < pageSize ::
                pages[base].data[i] == if i < count && old(fileOffset) + i < |file| then file[old(fileOffset) + i]
                                       else old(pages)[base].data[i]
      ensures fileOffset
           == old(fileOffset) + Min(count, if old(fileOffset) < |file| then |file| - old(fileOffset) else 0)
    {
      var n := Min(count, if fileOffset < |file| then |file| - fileOffset else 0);
      var data := if n == 0 then [] else file[fileOffset..fileOffset + n];
      pages := pages[base := pages[base].(data := data + pages[base].data[n..])];
      fileOffset := fileOffset + n;
    }

    /** lseek and read of mappingPage: the page gets its part of the segment's image. */
    method FillPage(base: nat, at: nat, s: Seg)
      requires 0 < pageSize < INT_LIMIT && SegmentOk(s, pageSize)
      requires base in pages && pages[base].data == seq(pageSize, _ => 0)
      modifies this`pages, this`fileOffset
      ensures pages == old(pages)[base := Page(PageImage(file, s, at, pageSize), old(pages)[base].prot)]
    {
      var fileSize := s.fileSize;
      if at < fileSize {
        fileOffset := U32(s.offset + at);
        var mapRem := ToInt(fileSize - at);
        ReadInto(Min(mapRem, pageSize), base);
      }
      ghost var image := PageImage(file, s, at, pageSize);
      forall i | 0 <= i < pageSize ensures pages[base].data[i] == image[i] {
        assert image[i] == ImageByte(file, s, at + i);
      }
      assert pages[base].data == image;
    }

    method Mprotect(base: nat, prot: Prot)
      requires base in pages
      modifies this`pages
      ensures pages == old(pages)[base := old(pages)[base].(prot := prot)]
    {
      pages := pages[base := pages[base].(prot := prot)];
    }

    /** The chain of mprotect calls of mappingPage. */
    method Protect(base: nat, perm: Perm)
      requires base in pages
      modifies this`pages
      ensures pages == old(pages)[base := Page(old(pages)[base].data, FinalProt(perm))]
    {
      Mprotect(base, Prot(false, false, false));
      if perm.r {
        Mprotect(base, Prot(true, false, false));
      }
      if perm.w {
        Mprotect(base, Prot(true, true, false));
      }
      if perm.x {
        Mprotect(base, Prot(true, true, true));
      }
    }

    /** mappingPage: maps the page of `addr` and fills it with its part of the segment's image. */
    method MappingPage(addr: nat, s: Seg)
      requires 0 < pageSize < INT_LIMIT && SegmentOk(s, pageSize) && InSegment(s, addr)
      modifies this`pages, this`fileOffset
      ensures var at := PageOffset(s, addr, pageSize);
              pages == old(pages)[PageBase(addr, pageSize) := Page(PageImage(file, s, at, pageSize), FinalProt(s.perm))]
      ensures var prot := pages[PageBase(addr, pageSize)].prot;
              && (prot.x <==> s.perm.x) && (prot.w <==> s.perm.w || s.perm.x)
              && (prot.r <==> s.perm.r || s.perm.w || s.perm.x)
    {
      PageInSegment(s, pageSize, addr);
      var pageCnt := ToInt((addr - s.vaddr) / pageSize);
      var pageAddressForMapping := pageCnt * pageSize;
      var mappedAddress := s.vaddr + pageAddressForMapping;
      pages := pages[mappedAddress := Page(seq(pageSize, _ => 0), Prot(false, true, false))];
      FillPage(mappedAddress, pageAddressForMapping, s);
      Protect(mappedAddress, s.perm);
    }

    /** segv_handler: the first segment that holds the address gets its page; otherwise the signal's
        default action, the end of the process, is restored. */
    method SegvHandler(addr: nat) returns (handled: bool)
      requires Valid()
      modifies this`pages, this`fileOffset
      ensures handled <==> exists j | 0 <= j < |segments| :: InSegment(segments[j], addr)
      ensures !handled ==> unchanged(this)
      ensures forall j | 0 <= j < |segments| && InSegment(segments[j], addr) ::
                pages == old(pages)[PageBase(addr, pageSize) :=
                  Page(PageImage(file, segments[j], PageOffset(segments[j], addr, pageSize), pageSize),
                       FinalProt(segments[j].perm))]
    {
      for i := 0 to |segments|
        invariant unchanged(this)
        invariant forall j | 0 <= j < i :: !InSegment(segments[j], addr)
      {
        var segment := segments[i];
        var maximumLimit := U32(segment.vaddr + segment.memSize);
        if segment.vaddr <= addr < maximumLimit {
          MappingPage(addr, segment);
          return true;
        }
      }
      return false;
    }

    ghost predicate Shows(page: Page, perm: Perm, a: nat, b: Byte)
      requires pageSize > 0
    {
      |page.data| == pageSize && page.prot == FinalProt(perm) && page.data[a % pageSize] == b
    }

    /** The mapped pages show what fully loaded memory shows, under protections that admit whatever the
        segment's flags admit; nothing was ever stored on an unmapped page; each mapped page faulted once. */
    ghost predicate Simulates(writes: map<nat, Byte>)
      reads this
    {
      && Valid()
      && (forall j, a: nat | 0 <= j < |segments| && InSegment(segments[j], a) && PageBase(a, pageSize) in pages ::
            Shows(pages[PageBase(a, pageSize)], segments[j].perm, a, EagerByte(Loaded(segments, file), writes, a)))
      && (forall a | a in writes :: PageBase(a, pageSize) in pages)
      && NoDuplicates(faults) && (forall p :: p in faults <==> p in pages)
    }

    /** The faults of a run that has touched its pages, and what those pages permit in the end: what the
        flags call for, and stores to executable segments. */
    lemma Finished(run: seq<Access>, writes: map<nat, Byte>)
      requires Simulates(writes) && Elements(faults) == Touched(run, pageSize)
      requires forall i | 0 <= i < |run| :: Legal(segments, run[i])
      ensures NoDuplicates(faults) && |faults| <= PageCount(segments, pageSize)
      ensures pages.Keys == Touched(run, pageSize)
      ensures forall j, a: nat | 0 <= j < |segments| && InSegment(segments[j], a) && PageBase(a, pageSize) in pages ::
                var prot, perm := pages[PageBase(a, pageSize)].prot, segments[j].perm;
                && (prot.x <==> perm.x) && (prot.w <==> perm.w || perm.x) && (prot.r <==> perm.r || perm.w || perm.x)
    {
      TouchedBound(segments, run, pageSize);
      DistinctSize(faults);
      forall j, a: nat | 0 <= j < |segments| && InSegment(segments[j], a) && PageBase(a, pageSize) in pages
        ensures pages[PageBase(a, pageSize)].prot == FinalProt(segments[j].perm)
      {
        assert Shows(pages[PageBase(a, pageSize)], segments[j].perm, a, EagerByte(Loaded(segments, file), writes, a));
      }
    }

    /** A fault on an unmapped page of a segment. */
    method Fault(addr: nat, ghost writes: map<nat, Byte>)
      requires Simulates(writes) && Mapped(segments, addr) && PageBase(addr, pageSize) !in pages
      modifies this
      ensures Simulates(writes) && PageBase(addr, pageSize) in pages
      ensures faults == old(faults) + [PageBase(addr, pageSize)]
    {
      ghost var base := PageBase(addr, pageSize);
      ghost var before := pages;
      faults := faults + [PageBase(addr, pageSize)];
      var handled := SegvHandler(addr);
      ghost var j :| 0 <= j < |segments| && InSegment(segments[j], addr);
      forall i, a: nat | 0 <= i < |segments| && InSegment(segments[i], a) && PageBase(a, pageSize) in pages
        ensures Shows(pages[PageBase(a, pageSize)], segments[i].perm, a, EagerByte(Loaded(segments, file), writes, a))
      {
        if PageBase(a, pageSize) == base {
          assert i == j;
          PageHolds(segments, file, pageSize, j, addr, a);
        } else {
          assert PageBase(a, pageSize) in before;
        }
      }
    }

    method StoreByte(addr: nat, value: Byte, ghost writes: map<nat, Byte>)
      requires Simulates(writes) && Mapped(segments, addr) && PageBase(addr, pageSize) in pages
      modifies this`pages
      ensures Simulates(writes[addr := value])
    {
      var base, at := PageBase(addr, pageSize), addr % pageSize;
      ghost var j :| 0 <= j < |segments| && InSegment(segments[j], addr);
      assert Shows(pages[base], segments[j].perm, addr, EagerByte(Loaded(segments, file), writes, addr));
      ghost var before := pages;
      pages := pages[base := pages[base].(data := pages[base].data[at := value])];
      forall i, a: nat | 0 <= i < |segments| && InSegment(segments[i], a) && PageBase(a, pageSize) in pages
        ensures Shows(pages[PageBase(a, pageSize)], segments[i].perm, a,
                      EagerByte(Loaded(segments, file), writes[addr := value], a))
      {
        assert Shows(before[PageBase(a, pageSize)], segments[i].perm, a, EagerByte(Loaded(segments, file), writes, a));
      }
    }

    /** An instruction whose page is mapped. */
    method Execute(access: Access, ghost writes: map<nat, Byte>) returns (value: Byte)
      requires Simulates(writes) && Mapped(segments, access.addr) && PageBase(access.addr, pageSize) in pages
      modifies this`pages
      ensures Simulates(EagerWrites(writes, access))
      ensures value == EagerValue(Loaded(segments, file), writes, access)
    {
      if access.Store? {
        value := access.value;
        StoreByte(access.addr, value, writes);
      } else {
        var base, at := PageBase(access.addr, pageSize), access.addr % pageSize;
        ghost var j :| 0 <= j < |segments| && InSegment(segments[j], access.addr);
        assert Shows(pages[base], segments[j].perm, access.addr,
                     EagerByte(Loaded(segments, file), writes, access.addr));
        value := pages[base].data[at];
      }
    }

    /** One instruction, restarted after the handler if it faults. */
    method Perform(access: Access, ghost writes: map<nat, Byte>) returns (value: Byte)
      requires Simulates(writes) && Legal(segments, access)
      modifies this
      ensures Simulates(EagerWrites(writes, access))
      ensures value == EagerValue(Loaded(segments, file), writes, access)
      ensures faults == old(faults) + (if PageBase(access.addr, pageSize) in old(faults) then []
                                       else [PageBase(access.addr, pageSize)])
      ensures Elements(faults) == old(Elements(faults)) + {PageBase(access.addr, pageSize)}
    {
      var base := PageBase(access.addr, pageSize);
      ElementsSnoc(faults, base);
      ghost var j :| 0 <= j < |segments| && InSegment(segments[j], access.addr) && FlagsAllow(segments[j].perm, access);
      assert base in pages ==>
          Shows(pages[base], segments[j].perm, access.addr, EagerByte(Loaded(segments, file), writes, access.addr));
      if base !in pages || !Permits(pages[base].prot, access) {
        Fault(access.addr, writes);
      }
      value := Execute(access, writes);
    }

    /** A fault on a mapped page whose protection forbids the access: the handler maps the page again, with
        the same protection, so that the restarted instruction faults again, and what was stored on the
        page is lost. */
    method Refault(access: Access, ghost writes: map<nat, Byte>) returns (handled: bool)
      requires Simulates(writes) && PageBase(access.addr, pageSize) in pages
      requires !Permits(pages[PageBase(access.addr, pageSize)].prot, access)
      modifies this`pages, this`fileOffset
      ensures handled <==> Mapped(segments, access.addr)
      ensures pages.Keys == old(pages).Keys && !Permits(pages[PageBase(access.addr, pageSize)].prot, access)
      ensures forall j, a: nat | 0 <= j < |segments| && InSegment(segments[j], access.addr) && InSegment(segments[j], a)
                                 && PageBase(a, pageSize) == PageBase(access.addr, pageSize) ::
                && |pages[PageBase(a, pageSize)].data| == pageSize
                && pages[PageBase(a, pageSize)].data[a % pageSize] == LoadedByte(segments, file, a)
    {
      if j :| 0 <= j < |segments| && InSegment(segments[j], access.addr) {
        assert Shows(pages[PageBase(access.addr, pageSize)], segments[j].perm, access.addr,
                     EagerByte(Loaded(segments, file), writes, access.addr));
      }
      handled := SegvHandler(access.addr);
      forall j, a: nat | 0 <= j < |segments| && InSegment(segments[j], access.addr) && InSegment(segments[j], a)
                         && PageBase(a, pageSize) == PageBase(access.addr, pageSize)
        ensures |pages[PageBase(a, pageSize)].data| == pageSize
        ensures pages[PageBase(a, pageSize)].data[a % pageSize] == LoadedByte(segments, file, a)
      {
        PageHolds(segments, file, pageSize, j, access.addr, a);
      }
    }

    /** Demand paging is invisible: every run of accesses that the flags allow returns what fully loaded
        memory returns, and the pages that fault are the pages touched, each faulting once. */
    method Run(run: seq<Access>) returns (values: seq<Byte>)
      requires Valid() && pages == map[] && faults == []
      requires forall i | 0 <= i < |run| :: Legal(segments, run[i])
      modifies this
      ensures values == EagerValues(Loaded(segments, file), map[], run)
      ensures NoDuplicates(faults) && Elements(faults) == Touched(run, pageSize)
      ensures |faults| <= PageCount(segments, pageSize)
      ensures pages.Keys == Touched(run, pageSize)
      ensures forall j, a: nat | 0 <= j < |segments| && InSegment(segments[j], a) && PageBase(a, pageSize) in pages ::
                var prot, perm := pages[PageBase(a, pageSize)].prot, segments[j].perm;
                && (prot.x <==> perm.x) && (prot.w <==> perm.w || perm.x) && (prot.r <==> perm.r || perm.w || perm.x)
    {
      ghost var writes := map[];
      values := [];
      var i := 0;
      while i < |run|
        invariant 0 <= i <= |run|
        invariant Simulates(writes)
        invariant values + EagerValues(Loaded(segments, file), writes, run[i..])
               == EagerValues(Loaded(segments, file), map[], run)
        invariant Elements(faults) == Touched(run[..i], pageSize)
      {
        PrefixStep(run, i);
        TouchedStep(run[..i], run[i], pageSize);
        var value := Perform(run[i], writes);
        Regroup(values, value, EagerValues(Loaded(segments, file), EagerWrites(writes, run[i]), run[i + 1..]));
        values := values + [value];
        writes := EagerWrites(writes, run[i]);
        i := i + 1;
      }
      assert run[..i] == run;
      Finished(run, writes);
    }
  }
}
