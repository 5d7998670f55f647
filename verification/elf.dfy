/**
 * The parts of the ELF format the loader in userprog/process.c relies on
 * (Tool Interface Standard ELF specification v1.2, Book I: the ELF header,
 * pages 1-4 to 1-8, and the program header, pages 2-2 to 2-4), the checks
 * it applies to them, and the arithmetic that turns a loadable program
 * header into a page-aligned run of file-backed and zero-filled pages.
 * Every field is a 32-bit or 16-bit unsigned C integer, and the sums the
 * C code computes in uint32_t wrap around, which Add32 and Sub32 model.
 */
module Elf {
  import opened Bytes
  import opened Vaddr

  const EHDR_SIZE: nat := 52
  const PHDR_SIZE: nat := 32

  /** struct Elf32_Ehdr. */
  datatype Ehdr = Ehdr(
    ident: seq<byte>, eType: u16, machine: u16, version: u32, entry: u32,
    phoff: u32, shoff: u32, flags: u32, ehsize: u16, phentsize: u16,
    phnum: u16, shentsize: u16, shnum: u16, shstrndx: u16)

  /** struct Elf32_Phdr. */
  datatype Phdr = Phdr(
    pType: u32, offset: u32, vaddr: u32, paddr: u32,
    filesz: u32, memsz: u32, flags: u32, align: u32)

  /** An executable header as file_read lays it in memory: the fields in order, little-endian. */
  function DecodeEhdr(b: seq<byte>): (h: Ehdr)
    requires |b| == EHDR_SIZE
    ensures |h.ident| == 16 && h.ident == b[..16]
  {
    Ehdr(b[..16], U16At(b, 16), U16At(b, 18), U32At(b, 20), U32At(b, 24), U32At(b, 28),
         U32At(b, 32), U32At(b, 36), U16At(b, 40), U16At(b, 42), U16At(b, 44),
         U16At(b, 46), U16At(b, 48), U16At(b, 50))
  }

  /** The bytes of an executable header, as a linker writes them. */
  function EncodeEhdr(h: Ehdr): (b: seq<byte>)
    requires |h.ident| == 16
    ensures |b| == EHDR_SIZE
  {
    h.ident + Half(h.eType) + Half(h.machine) + Word(h.version) + Word(h.entry)
    + Word(h.phoff) + Word(h.shoff) + Word(h.flags) + Half(h.ehsize) + Half(h.phentsize)
    + Half(h.phnum) + Half(h.shentsize) + Half(h.shnum) + Half(h.shstrndx)
  }

  /** A program header as file_read lays it in memory. */
  function DecodePhdr(b: seq<byte>): (p: Phdr)
    requires |b| == PHDR_SIZE
    ensures p.pType == U32At(b, 0)
  {
    Phdr(U32At(b, 0), U32At(b, 4), U32At(b, 8), U32At(b, 12),
         U32At(b, 16), U32At(b, 20), U32At(b, 24), U32At(b, 28))
  }

  /** The bytes of a program header. */
  function EncodePhdr(p: Phdr): (b: seq<byte>)
    ensures |b| == PHDR_SIZE
  {
    Word(p.pType) + Word(p.offset) + Word(p.vaddr) + Word(p.paddr)
    + Word(p.filesz) + Word(p.memsz) + Word(p.flags) + Word(p.align)
  }

  /** The word stored at slot k of a run of words reads back. */
  lemma WordInRun(b: seq<byte>, k: nat, w: u32)
    requires 4 * k + 4 <= |b| && b[4 * k .. 4 * k + 4] == Word(w)
    ensures U32At(b, 4 * k) == w
  {
    U32AtSlice(b, 4 * k);
    WordRoundTrip(w);
  }

  /** Decoding a program header's bytes gives the header back. */
  lemma PhdrRoundTrip(p: Phdr)
    ensures DecodePhdr(EncodePhdr(p)) == p
  {
    var b := EncodePhdr(p);
    var front := Word(p.pType) + Word(p.offset) + Word(p.vaddr) + Word(p.paddr);
    assert b == front + (Word(p.filesz) + Word(p.memsz) + Word(p.flags) + Word(p.align));
    WordInRun(b, 0, p.pType);
    WordInRun(b, 1, p.offset);
    WordInRun(b, 2, p.vaddr);
    WordInRun(b, 3, p.paddr);
    WordInRun(b, 4, p.filesz);
    WordInRun(b, 5, p.memsz);
    WordInRun(b, 6, p.flags);
    WordInRun(b, 7, p.align);
  }

  lemma HalfAt(b: seq<byte>, i: nat, h: u16)
    requires i + 2 <= |b| && b[i .. i + 2] == Half(h)
    ensures U16At(b, i) == h
  {
    U16AtSlice(b, i);
  }

  lemma WordAtOffset(b: seq<byte>, i: nat, w: u32)
    requires i + 4 <= |b| && b[i .. i + 4] == Word(w)
    ensures U32At(b, i) == w
  {
    U32AtSlice(b, i);
    WordRoundTrip(w);
  }

  /** Decoding an executable header's bytes gives the header back. */
  lemma EhdrRoundTrip(h: Ehdr)
    requires |h.ident| == 16
    ensures DecodeEhdr(EncodeEhdr(h)) == h
  {
    var b := EncodeEhdr(h);
    HalfAt(b, 16, h.eType);
    HalfAt(b, 18, h.machine);
    WordAtOffset(b, 20, h.version);
    WordAtOffset(b, 24, h.entry);
    WordAtOffset(b, 28, h.phoff);
    WordAtOffset(b, 32, h.shoff);
    WordAtOffset(b, 36, h.flags);
    HalfAt(b, 40, h.ehsize);
    HalfAt(b, 42, h.phentsize);
    HalfAt(b, 44, h.phnum);
    HalfAt(b, 46, h.shentsize);
    HalfAt(b, 48, h.shnum);
    HalfAt(b, 50, h.shstrndx);
  }

  /** "\177ELF" followed by ELFCLASS32, ELFDATA2LSB and EV_CURRENT. */
  const ELF_MAGIC: seq<byte> := [0x7F, 0x45, 0x4C, 0x46, 1, 1, 1]

  /**
   * The executable-header check of load: a 32-bit little-endian version-1
   * ELF executable (ET_EXEC) for the i386 (EM_386) whose program headers
   * have the expected size and number at most 1024.
   */
  predicate HeaderAccepted(h: Ehdr): (ok: bool)
    ensures ok ==> h.phnum * h.phentsize <= 1024 * PHDR_SIZE
  {
    && |h.ident| >= 7 && h.ident[..7] == ELF_MAGIC
    && h.eType == 2
    && h.machine == 3
    && h.version == 1
    && h.phentsize == PHDR_SIZE
    && h.phnum <= 1024
  }

  const PT_NULL: u32 := 0
  const PT_LOAD: u32 := 1
  const PT_DYNAMIC: u32 := 2
  const PT_INTERP: u32 := 3
  const PT_NOTE: u32 := 4
  const PT_SHLIB: u32 := 5
  const PT_PHDR: u32 := 6
  const PT_STACK: u32 := 0x6474_e551

  const PF_X: u32 := 1
  const PF_W: u32 := 2
  const PF_R: u32 := 4

  /** What load does with a program header of a given type. */
  datatype SegmentAction = Ignore | Reject | LoadIt

  /**
   * The switch on p_type in load: PT_LOAD segments are loaded, segments
   * asking for dynamic linking fail the load, and every other type,
   * known or not, is skipped.
   */
  function Classify(pType: u32): (a: SegmentAction)
    ensures a == LoadIt <==> pType == PT_LOAD
    ensures a == Reject <==> pType in {PT_DYNAMIC, PT_INTERP, PT_SHLIB}
    ensures pType in {PT_NULL, PT_NOTE, PT_PHDR, PT_STACK} ==> a == Ignore
  {
    if pType == PT_LOAD then LoadIt
    else if pType == PT_DYNAMIC || pType == PT_INTERP || pType == PT_SHLIB then Reject
    else Ignore
  }

  /** Addition in uint32_t: the sum, less 2^32 when it overflows. */
  function Add32(a: u32, b: u32): (r: u32)
    ensures a + b < WORD_LIMIT ==> r == a + b
    ensures a + b >= WORD_LIMIT ==> r == a + b - WORD_LIMIT
    ensures r >= a <==> a + b < WORD_LIMIT
  {
    (a + b) % WORD_LIMIT
  }

  /** Subtraction in uint32_t: the difference, plus 2^32 when it would be negative. */
  function Sub32(a: u32, b: u32): (r: u32)
    ensures a >= b ==> r == a - b
    ensures a < b ==> r == a - b + WORD_LIMIT
  {
    (a - b) % WORD_LIMIT
  }

  /** ROUND_UP (x, PGSIZE) evaluated in uint32_t. */
  function RoundUp32(x: u32): (r: u32)
    ensures x + PGSIZE - 1 < WORD_LIMIT ==> r == RoundUp(x)
  {
    Add32(x, PGSIZE - 1) / PGSIZE * PGSIZE
  }

  /**
   * validate_segment: the checks exactly as the C code makes them, the end
   * address computed in uint32_t. p_offset & PGMASK is p_offset % PGSIZE.
   */
  predicate ValidateSegment(p: Phdr, fileLength: u32): (ok: bool)
    ensures ok <==> SegmentFits(p, fileLength)
  {
    && p.offset % PGSIZE == p.vaddr % PGSIZE
    && p.offset <= fileLength
    && p.memsz >= p.filesz
    && p.memsz != 0
    && IsUserVaddr(p.vaddr)
    && IsUserVaddr(Add32(p.vaddr, p.memsz))
    && Add32(p.vaddr, p.memsz) >= p.vaddr
    && p.vaddr >= PGSIZE
  }

  /**
   * What validate_segment is meant to accept, stated on unbounded
   * integers: file offset and address agree within a page, the offset
   * is at most the file's length (its bytes may still run past the end,
   * which shows only as a short read when a page is loaded), the segment is non-empty and no larger in the
   * file than in memory, and it lies in user space above page 0.
   */
  predicate SegmentFits(p: Phdr, fileLength: nat) {
    && p.offset % PGSIZE == p.vaddr % PGSIZE
    && p.offset <= fileLength
    && 0 < p.memsz && p.filesz <= p.memsz
    && PGSIZE <= p.vaddr && p.vaddr + p.memsz < PHYS_BASE
  }

  /** How a loadable segment is cut up (load, the PT_LOAD case). */
  datatype Layout = Layout(
    writable: bool, filePage: u32, memPage: u32, pageOffset: u32,
    readBytes: u32, zeroBytes: u32)

  /**
   * The read/zero split of a PT_LOAD segment, in uint32_t as the C code
   * computes it: the file page and memory page are the offset and
   * address rounded down to a page; the bytes read run from the start of
   * the memory page to the end of the file data, and the zero bytes fill
   * up to the next page boundary after the end of the segment in memory.
   */
  function SplitSegment(p: Phdr): (l: Layout)
    ensures l.writable <==> (p.flags / PF_W) % 2 == 1
    ensures l.filePage % PGSIZE == 0 && l.filePage <= p.offset < l.filePage + PGSIZE
    ensures l.memPage % PGSIZE == 0 && l.memPage + l.pageOffset == p.vaddr
    ensures p.filesz == 0 ==> l.readBytes == 0
  {
    var pageOffset := p.vaddr % PGSIZE;
    var memEnd := RoundUp32(Add32(pageOffset, p.memsz));
    var readBytes: u32 := if p.filesz > 0 then Add32(pageOffset, p.filesz) else 0;
    var zeroBytes: u32 := if p.filesz > 0 then Sub32(memEnd, readBytes) else memEnd;
    Layout((p.flags / PF_W) % 2 == 1, p.offset - p.offset % PGSIZE, p.vaddr - pageOffset,
           pageOffset, readBytes, zeroBytes)
  }

  /**
   * For a segment validate_segment accepts, nothing in the split wraps
   * around: the pages cover the segment exactly to the next page boundary
   * (so lazy_load_segment's precondition holds), they lie in user space
   * above page 0, the file data lands at p_vaddr, and a segment with no
   * file data reads nothing.
   */
  lemma SplitOfValidSegment(p: Phdr, fileLength: u32)
    requires ValidateSegment(p, fileLength)
    ensures var l := SplitSegment(p);
      && l.readBytes + l.zeroBytes == RoundUp(l.pageOffset + p.memsz)
      && (l.readBytes + l.zeroBytes) % PGSIZE == 0
      && l.memPage % PGSIZE == 0 && l.filePage % PGSIZE == 0
      && PGSIZE <= l.memPage && l.memPage + l.readBytes + l.zeroBytes <= PHYS_BASE
      && (p.filesz > 0 ==> l.readBytes == l.pageOffset + p.filesz)
      && (p.filesz > 0 ==> l.filePage + l.readBytes == p.offset + p.filesz)
      && (p.filesz == 0 ==> l.readBytes == 0)
  {
    var l := SplitSegment(p);
    var end := l.pageOffset + p.memsz;
    assert end < PHYS_BASE;
    var r := RoundUp(end);
    assert RoundUp32(Add32(l.pageOffset, p.memsz)) == r;
    assert l.memPage + end == p.vaddr + p.memsz;
    assert (l.memPage + r) % PGSIZE == 0 by {
      assert l.memPage == PGSIZE * (l.memPage / PGSIZE);
      assert r == PGSIZE * (r / PGSIZE);
      assert l.memPage + r == PGSIZE * (l.memPage / PGSIZE + r / PGSIZE);
    }
    assert p.offset % PGSIZE == l.pageOffset;
  }
}
