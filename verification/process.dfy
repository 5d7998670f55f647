/**
 * Executable loading in userprog/process.c: cutting a segment into
 * page-sized supplemental page-table entries (lazy_load_segment) or
 * loading it into frames at once (load_segment), the program-header loop
 * of load, and the lazily created initial stack page (lazy_setup_stack).
 */
module Process {
  import opened Bytes
  import opened Vaddr
  import opened Wrappers
  import opened Memory
  import opened Page
  import opened Elf

  const INT32_MAX: int := 0x7FFF_FFFF

  function Min(a: nat, b: nat): nat {
    if a < b then a else b
  }

  lemma PagesOf(k: nat)
    ensures k * PGSIZE / PGSIZE == k
  {
  }

  /** The bytes of a segment's file data read by its pages before page k. */
  function ReadBefore(readBytes: nat, k: nat): (n: nat)
    ensures n <= readBytes && n <= k * PGSIZE
  {
    Min(readBytes, k * PGSIZE)
  }

  /** The file bytes page k reads: what is left of the file data, at most a page. */
  function PageRead(readBytes: nat, k: nat): (n: nat)
    ensures n <= PGSIZE && ReadBefore(readBytes, k) + n == ReadBefore(readBytes, k + 1)
  {
    Min(readBytes - ReadBefore(readBytes, k), PGSIZE)
  }

  /**
   * The entries lazy_load_segment registers, in order: one FILE entry per
   * page, each reading min(remaining, PGSIZE) bytes from the current file
   * offset and zeroing the rest of its page. The ASSERTed precondition
   * (read + zero a multiple of PGSIZE) keeps the zero count from ever
   * going below zero.
   */
  function SegmentPages(tid: int, file: FileId, ofs: nat, upage: nat,
                        readBytes: nat, zeroBytes: nat, writable: bool): (ps: seq<Pte>)
    requires (readBytes + zeroBytes) % PGSIZE == 0
    ensures |ps| == (readBytes + zeroBytes) / PGSIZE
    decreases readBytes + zeroBytes
  {
    if readBytes == 0 && zeroBytes == 0 then []
    else
      var pr := Min(readBytes, PGSIZE);
      var pz := PGSIZE - pr;
      [Pte(tid, upage, upage, writable, FilePage(file, ofs, pr, pz))]
        + SegmentPages(tid, file, ofs + pr, upage + PGSIZE, readBytes - pr, zeroBytes - pz, writable)
  }

  /** The entry for page k of a segment, stated outright. */
  function PageEntry(tid: int, file: FileId, ofs: nat, upage: nat, readBytes: nat,
                     writable: bool, k: nat): Pte
  {
    var u := upage + k * PGSIZE;
    Pte(tid, u, u, writable,
        FilePage(file, ofs + ReadBefore(readBytes, k), PageRead(readBytes, k), PGSIZE - PageRead(readBytes, k)))
  }

  /** Page k's entry, built from the loop variables of turn k. */
  lemma PageEntryIs(tid: int, file: FileId, ofs: nat, upage: nat, readBytes: nat, writable: bool, k: nat,
                    o: int, u: int, pr: int, pz: int)
    requires o == ofs + ReadBefore(readBytes, k) && u == upage + k * PGSIZE
    requires pr == PageRead(readBytes, k) && pz == PGSIZE - pr
    ensures u >= 0 && o >= 0 && pr >= 0 && pz >= 0
    ensures PageEntry(tid, file, ofs, upage, readBytes, writable, k) == Pte(tid, u, u, writable, FilePage(file, o, pr, pz))
  {
  }

  /**
   * The variables load_segment and lazy_load_segment step through their
   * loops: the bytes still to read, the bytes still to zero, the file
   * offset and the user page.
   */
  datatype Cursor = Cursor(read: int, zero: int, ofs: int, upage: int)

  /**
   * One turn of either loop on its variables: the page reads what is left
   * of the file data, at most a page, zeroes the rest of the page, and the
   * loop moves on by a page.
   */
  function Advance(c: Cursor): Cursor {
    var pr := if c.read < PGSIZE then c.read else PGSIZE;
    Cursor(c.read - pr, c.zero - (PGSIZE - pr), c.ofs + pr, c.upage + PGSIZE)
  }

  /** The loop variables after k turns, from read_bytes, zero_bytes, ofs and upage. */
  function CursorAt(readBytes: nat, zeroBytes: nat, ofs: nat, upage: nat, k: nat): Cursor
    decreases k
  {
    if k == 0 then Cursor(readBytes, zeroBytes, ofs, upage)
    else Advance(CursorAt(readBytes, zeroBytes, ofs, upage, k - 1))
  }

  /**
   * After k turns, for k at most the segment's page count, the loops have
   * read the file data of k pages and zeroed the rest of those pages.
   */
  lemma {:induction false} CursorAtIs(readBytes: nat, zeroBytes: nat, ofs: nat, upage: nat, k: nat)
    requires (readBytes + zeroBytes) % PGSIZE == 0 && k <= (readBytes + zeroBytes) / PGSIZE
    ensures CursorAt(readBytes, zeroBytes, ofs, upage, k)
         == Cursor(readBytes - ReadBefore(readBytes, k), zeroBytes + ReadBefore(readBytes, k) - k * PGSIZE,
                   ofs + ReadBefore(readBytes, k), upage + k * PGSIZE)
    ensures 0 <= zeroBytes + ReadBefore(readBytes, k) - k * PGSIZE
    decreases k
  {
    var n := (readBytes + zeroBytes) / PGSIZE;
    assert n * PGSIZE == readBytes + zeroBytes;
    assert (n - k) * PGSIZE == readBytes + zeroBytes - k * PGSIZE;
    if k > 0 {
      CursorAtIs(readBytes, zeroBytes, ofs, upage, k - 1);
      assert k * PGSIZE == (k - 1) * PGSIZE + PGSIZE;
    }
  }

  /**
   * The loop runs on exactly as long as some of the segment's pages are
   * not done, and its byte counts never go negative.
   */
  lemma CursorLeft(readBytes: nat, zeroBytes: nat, ofs: nat, upage: nat, k: nat, r: int, z: int, o: int, u: int)
    requires (readBytes + zeroBytes) % PGSIZE == 0 && k <= (readBytes + zeroBytes) / PGSIZE
    requires Cursor(r, z, o, u) == CursorAt(readBytes, zeroBytes, ofs, upage, k)
    ensures 0 <= r && 0 <= z
    ensures r > 0 || z > 0 <==> k < (readBytes + zeroBytes) / PGSIZE
  {
    CursorAtIs(readBytes, zeroBytes, ofs, upage, k);
    var n := (readBytes + zeroBytes) / PGSIZE;
    assert n * PGSIZE == readBytes + zeroBytes;
    assert (n - k) * PGSIZE == readBytes + zeroBytes - k * PGSIZE;
  }

  /**
   * In turn k the loop variables give page k's entry: the page k pages
   * above upage, reading PageRead(readBytes, k) bytes from just past the
   * file data of the pages before it; the counts stay non-negative.
   */
  lemma CursorStep(readBytes: nat, zeroBytes: nat, ofs: nat, upage: nat, k: nat,
                    r: int, z: int, o: int, u: int, pr: int, pz: int)
    requires (readBytes + zeroBytes) % PGSIZE == 0 && k < (readBytes + zeroBytes) / PGSIZE
    requires Cursor(r, z, o, u) == CursorAt(readBytes, zeroBytes, ofs, upage, k)
    requires pr == (if r < PGSIZE then r else PGSIZE) && pz == PGSIZE - pr
    ensures pr == PageRead(readBytes, k) && 0 <= pr <= r && pz <= z
    ensures o == ofs + ReadBefore(readBytes, k) && u == upage + k * PGSIZE
    ensures CursorAt(readBytes, zeroBytes, ofs, upage, k + 1) == Cursor(r - pr, z - pz, o + pr, u + PGSIZE)
  {
    CursorAtIs(readBytes, zeroBytes, ofs, upage, k + 1);
    CursorAtIs(readBytes, zeroBytes, ofs, upage, k);
  }

  /**
   * Entry k is for the page k pages above upage, reads from the file
   * offset just past the bytes of the pages before it, reads what is left
   * up to a page and zeroes the rest of the page.
   */
  lemma {:induction false} SegmentPageAt(tid: int, file: FileId, ofs: nat, upage: nat,
                                         readBytes: nat, zeroBytes: nat, writable: bool, k: nat)
    requires (readBytes + zeroBytes) % PGSIZE == 0
    requires k < (readBytes + zeroBytes) / PGSIZE
    ensures SegmentPages(tid, file, ofs, upage, readBytes, zeroBytes, writable)[k]
         == PageEntry(tid, file, ofs, upage, readBytes, writable, k)
    decreases k
  {
    if k > 0 {
      var pr := Min(readBytes, PGSIZE);
      SegmentPageAt(tid, file, ofs + pr, upage + PGSIZE, readBytes - pr, zeroBytes - (PGSIZE - pr), writable, k - 1);
      assert ReadBefore(readBytes, k) == pr + ReadBefore(readBytes - pr, k - 1);
      assert PageRead(readBytes, k) == PageRead(readBytes - pr, k - 1);
    }
  }

  /** The bytes a list of entries reads from files. */
  function ReadTotal(ps: seq<Pte>): nat {
    if ps == [] then 0
    else (if ps[0].kind.FilePage? then ps[0].kind.readBytes else 0) + ReadTotal(ps[1..])
  }

  /** Together the pages of a segment read exactly its read_bytes. */
  lemma {:induction false} SegmentReadsAll(tid: int, file: FileId, ofs: nat, upage: nat,
                                           readBytes: nat, zeroBytes: nat, writable: bool)
    requires (readBytes + zeroBytes) % PGSIZE == 0
    ensures ReadTotal(SegmentPages(tid, file, ofs, upage, readBytes, zeroBytes, writable)) == readBytes
    decreases readBytes + zeroBytes
  {
    if readBytes != 0 || zeroBytes != 0 {
      var pr := Min(readBytes, PGSIZE);
      SegmentReadsAll(tid, file, ofs + pr, upage + PGSIZE, readBytes - pr, zeroBytes - (PGSIZE - pr), writable);
    }
  }

  /**
   * Page k of a segment is registered: its key is in the table after the
   * segment is inserted, and when the page had no entry before, the entry
   * there is the segment's.
   */
  lemma SegmentRegistered(m: map<nat, Pte>, tid: int, file: FileId, ofs: nat, upage: nat,
                          readBytes: nat, zeroBytes: nat, writable: bool, k: nat)
    requires (readBytes + zeroBytes) % PGSIZE == 0
    requires k < (readBytes + zeroBytes) / PGSIZE
    ensures var r := InsertAll(m, SegmentPages(tid, file, ofs, upage, readBytes, zeroBytes, writable));
      && upage + k * PGSIZE in r
      && (upage + k * PGSIZE !in m ==> r[upage + k * PGSIZE] == PageEntry(tid, file, ofs, upage, readBytes, writable, k))
  {
    var ps := SegmentPages(tid, file, ofs, upage, readBytes, zeroBytes, writable);
    var key := upage + k * PGSIZE;
    SegmentPageAt(tid, file, ofs, upage, readBytes, zeroBytes, writable, k);
    assert PageHash(ps[k]) == key;
    KeyInKeysOf(ps, k);
    InsertAllKeys(m, ps);
    assert key in InsertAll(m, ps).Keys;
    assert key in InsertAll(m, ps);
    assert upage + k * PGSIZE in InsertAll(m, SegmentPages(tid, file, ofs, upage, readBytes, zeroBytes, writable));
    if upage + k * PGSIZE !in m {
      SegmentKeys(tid, file, ofs, upage, readBytes, zeroBytes, writable, ps);
      InsertAllFresh(m, ps, k);
    }
  }

  /** The pages of a segment are keyed by their addresses, which are pairwise distinct. */
  lemma SegmentKeys(tid: int, file: FileId, ofs: nat, upage: nat,
                    readBytes: nat, zeroBytes: nat, writable: bool, ps: seq<Pte>)
    requires (readBytes + zeroBytes) % PGSIZE == 0
    requires ps == SegmentPages(tid, file, ofs, upage, readBytes, zeroBytes, writable)
    ensures forall j | 0 <= j < |ps| :: PageHash(ps[j]) == upage + j * PGSIZE
    ensures forall i, j | 0 <= i < j < |ps| :: PageHash(ps[i]) != PageHash(ps[j])
  {
    forall j | 0 <= j < |ps| ensures PageHash(ps[j]) == upage + j * PGSIZE {
      SegmentPageAt(tid, file, ofs, upage, readBytes, zeroBytes, writable, j);
    }
  }

  /** A non-empty segment's entries are its first page's entry followed by the entries of the rest. */
  lemma SegmentPagesCons(tid: int, file: FileId, ofs: nat, upage: nat,
                         readBytes: nat, zeroBytes: nat, writable: bool)
    requires (readBytes + zeroBytes) % PGSIZE == 0 && readBytes + zeroBytes > 0
    ensures readBytes + zeroBytes >= PGSIZE
    ensures var pr := Min(readBytes, PGSIZE);
      SegmentPages(tid, file, ofs, upage, readBytes, zeroBytes, writable)
      == [Pte(tid, upage, upage, writable, FilePage(file, ofs, pr, PGSIZE - pr))]
         + SegmentPages(tid, file, ofs + pr, upage + PGSIZE, readBytes - pr, zeroBytes - (PGSIZE - pr), writable)
  {
  }

  /**
   * One turn of lazy_load_segment's loop: once the entries of the first k
   * pages are in, inserting page k's entry gives the first k + 1.
   */
  lemma LazyStep(m0: map<nat, Pte>, m: map<nat, Pte>, tid: int, file: FileId, ofs: nat, upage: nat,
                 readBytes: nat, zeroBytes: nat, writable: bool, k: nat)
    requires (readBytes + zeroBytes) % PGSIZE == 0
    requires k < (readBytes + zeroBytes) / PGSIZE
    requires m == InsertAll(m0, SegmentPages(tid, file, ofs, upage, readBytes, zeroBytes, writable)[..k])
    ensures InsertEntry(m, PageEntry(tid, file, ofs, upage, readBytes, writable, k))
         == InsertAll(m0, SegmentPages(tid, file, ofs, upage, readBytes, zeroBytes, writable)[..k + 1])
  {
    var ps := SegmentPages(tid, file, ofs, upage, readBytes, zeroBytes, writable);
    SegmentPageAt(tid, file, ofs, upage, readBytes, zeroBytes, writable, k);
    assert ps[..k + 1] == ps[..k] + [ps[k]];
    InsertAllAppend(m0, ps[..k], [ps[k]]);
    assert [ps[k]][1..] == [];
  }

  /**
   * lazy_load_segment: registers one FILE entry per page of the segment
   * with hash_insert (which keeps any entry already there), and reports
   * success.
   */
  method LazyLoadSegment(spt: PageTable, tid: int, file: FileId, ofs: nat, upage: nat,
                         readBytes: nat, zeroBytes: nat, writable: bool) returns (ok: bool)
    requires spt.Valid()
    requires (readBytes + zeroBytes) % PGSIZE == 0 && upage % PGSIZE == 0 && ofs % PGSIZE == 0
    modifies spt
    ensures spt.Valid() && ok
    ensures spt.entries == InsertAll(old(spt.entries), SegmentPages(tid, file, ofs, upage, readBytes, zeroBytes, writable))
  {
    ghost var ps := SegmentPages(tid, file, ofs, upage, readBytes, zeroBytes, writable);
    var r: nat, z: nat, o: nat, u: nat := readBytes, zeroBytes, ofs, upage;
    ghost var k: nat := 0;
    while r > 0 || z > 0
      invariant spt.Valid()
      invariant k <= |ps| && Cursor(r, z, o, u) == CursorAt(readBytes, zeroBytes, ofs, upage, k)
      invariant spt.entries == InsertAll(old(spt.entries), ps[..k])
      decreases |ps| - k
    {
      CursorLeft(readBytes, zeroBytes, ofs, upage, k, r, z, o, u);
      var pr := if r < PGSIZE then r else PGSIZE;
      var pz := PGSIZE - pr;
      CursorStep(readBytes, zeroBytes, ofs, upage, k, r, z, o, u, pr, pz);
      PageEntryIs(tid, file, ofs, upage, readBytes, writable, k, o, u, pr, pz);
      var e := Pte(tid, u, u, writable, FilePage(file, o, pr, pz));
      LazyStep(old(spt.entries), spt.entries, tid, file, ofs, upage, readBytes, zeroBytes, writable, k);
      var _ := spt.Insert(e);
      r, z, o, u := r - pr, z - pz, o + pr, u + PGSIZE;
      k := k + 1;
    }
    CursorLeft(readBytes, zeroBytes, ofs, upage, k, r, z, o, u);
    assert ps[..k] == ps;
    ok := true;
  }

  /** What page k of a segment holds once loaded: its file bytes, then zeros to the end of the page. */
  function SegmentImage(file: seq<byte>, ofs: nat, readBytes: nat, k: nat): (r: seq<byte>)
    ensures |FileRead(file, ofs + ReadBefore(readBytes, k), PageRead(readBytes, k))| == PageRead(readBytes, k)
         ==> |r| == PGSIZE
  {
    FileRead(file, ofs + ReadBefore(readBytes, k), PageRead(readBytes, k)) + Zeros(PGSIZE - PageRead(readBytes, k))
  }

  /**
   * When the file holds page k's data, the page's image is that data,
   * taken from just past the data of the pages before it, then zeros to
   * the end of the page.
   */
  lemma SegmentImageContents(file: seq<byte>, ofs: nat, readBytes: nat, k: nat)
    requires ofs + ReadBefore(readBytes, k) + PageRead(readBytes, k) <= |file|
    ensures var at, n, r := ofs + ReadBefore(readBytes, k), PageRead(readBytes, k), SegmentImage(file, ofs, readBytes, k);
      && |r| == PGSIZE
      && r[..n] == file[at .. at + n]
      && forall j | n <= j < PGSIZE :: r[j] == 0
  {
  }

  /** The entry load_segment loads page k from, and what the page holds once it is loaded. */
  lemma LoadedPage(files: map<FileId, seq<byte>>, file: FileId, ofs: nat, upage: nat, readBytes: nat,
                   writable: bool, k: nat, e: Pte, frame: seq<byte>)
    requires file in files && |frame| == PGSIZE
    requires e.kind.FilePage? && e.kind.file == file && e.upage == upage + k * PGSIZE
    requires e.kind.pageOffset == ofs + ReadBefore(readBytes, k) && e.kind.readBytes == PageRead(readBytes, k)
    requires e.kind.zeroBytes == PGSIZE - PageRead(readBytes, k)
    requires WellFormed(e, files) && Loadable(e, files)
    ensures PageImage(e, files, frame) == SegmentImage(files[file], ofs, readBytes, k)
  {
  }

  /**
   * Loading a page lazily from its entry gives the frame load_segment
   * fills at once: the two loaders agree on every page of a segment.
   */
  lemma LazyMatchesEager(files: map<FileId, seq<byte>>, tid: int, file: FileId, ofs: nat, upage: nat,
                         readBytes: nat, writable: bool, k: nat, frame: seq<byte>)
    requires file in files && |frame| == PGSIZE
    requires var e := PageEntry(tid, file, ofs, upage, readBytes, writable, k);
      Loadable(e, files)
    ensures PageImage(PageEntry(tid, file, ofs, upage, readBytes, writable, k), files, frame)
         == SegmentImage(files[file], ofs, readBytes, k)
  {
  }

  /**
   * The first |frames| pages of the segment at upage are mapped, with the
   * given writability, to the given frames, and each frame holds its
   * page's image.
   */
  ghost predicate SegmentMapped(pagedir: map<nat, Mapping>, mem: map<nat, seq<byte>>, frames: seq<nat>,
                                file: seq<byte>, ofs: nat, readBytes: nat, upage: nat, writable: bool)
  {
    forall j | 0 <= j < |frames| ::
      && upage + j * PGSIZE in pagedir
      && pagedir[upage + j * PGSIZE] == Mapping(frames[j], writable)
      && frames[j] in mem
      && mem[frames[j]] == SegmentImage(file, ofs, readBytes, j)
  }

  /**
   * Mapping the next page to a frame taken from the pool keeps the pages
   * mapped so far as they were: their frames were not in the pool, so the
   * new frame is none of them.
   */
  lemma SegmentMappedExtend(pagedir: map<nat, Mapping>, mem: map<nat, seq<byte>>, pool: seq<nat>, frames: seq<nat>,
                            file: seq<byte>, ofs: nat, readBytes: nat, upage: nat, writable: bool, f: nat)
    requires SegmentMapped(pagedir, mem, frames, file, ofs, readBytes, upage, writable)
    requires forall u | u in pagedir :: pagedir[u].frame !in pool
    requires f in pool
    ensures SegmentMapped(pagedir[upage + |frames| * PGSIZE := Mapping(f, writable)],
                          mem[f := SegmentImage(file, ofs, readBytes, |frames|)],
                          frames + [f], file, ofs, readBytes, upage, writable)
  {
    var k := |frames|;
    var frames' := frames + [f];
    forall j | 0 <= j < k
      ensures pagedir[upage + j * PGSIZE].frame != f
      ensures frames'[j] == frames[j]
    {
      assert pagedir[upage + j * PGSIZE].frame !in pool;
    }
  }

  /** Every page of an n-page segment is mapped, with the segment's writability, to a frame holding its image. */
  lemma SegmentMappedAll(pagedir: map<nat, Mapping>, mem: map<nat, seq<byte>>, frames: seq<nat>,
                         file: seq<byte>, ofs: nat, readBytes: nat, upage: nat, writable: bool, n: nat)
    requires |frames| == n
    requires SegmentMapped(pagedir, mem, frames, file, ofs, readBytes, upage, writable)
    ensures forall k | 0 <= k < n ::
      && upage + k * PGSIZE in pagedir
      && pagedir[upage + k * PGSIZE].writable == writable
      && mem[pagedir[upage + k * PGSIZE].frame] == SegmentImage(file, ofs, readBytes, k)
  {
    forall k | 0 <= k < n
      ensures upage + k * PGSIZE in pagedir && pagedir[upage + k * PGSIZE] == Mapping(frames[k], writable)
      ensures mem[frames[k]] == SegmentImage(file, ofs, readBytes, k)
    {
    }
  }

  lemma UndisturbedTrans(dir0: map<nat, Mapping>, mem0: map<nat, seq<byte>>, pool0: seq<nat>,
                         dir1: map<nat, Mapping>, mem1: map<nat, seq<byte>>, pool1: seq<nat>,
                         dir: map<nat, Mapping>, mem: map<nat, seq<byte>>, pool: seq<nat>)
    requires Undisturbed(dir0, mem0, pool0, dir1, mem1, pool1)
    requires Undisturbed(dir1, mem1, pool1, dir, mem, pool)
    ensures Undisturbed(dir0, mem0, pool0, dir, mem, pool)
  {
    forall g | g in mem0 && g !in pool0
      ensures mem[g] == mem0[g]
    {
      assert g in mem1 && g !in pool1;
    }
  }

  /**
   * Either outcome of load_segment_from_file leaves the address space
   * undisturbed: on success it maps a fresh page to the pool's first
   * frame and fills that frame; on failure it changes no mapping and no
   * frame in use.
   */
  lemma FileLoadUndisturbed(dir0: map<nat, Mapping>, mem0: map<nat, seq<byte>>, pool0: seq<nat>,
                            dir: map<nat, Mapping>, mem: map<nat, seq<byte>>, pool: seq<nat>,
                            ok: bool, u: nat, m: Mapping)
    requires pool0 != [] ==> pool0[0] in mem0
    requires ok ==> && pool0 != [] && u !in dir0 && pool == pool0[1..] && dir == dir0[u := m]
                    && pool0[0] in mem && mem == mem0[pool0[0] := mem[pool0[0]]]
    requires !ok ==> && pool == pool0 && dir == dir0 && mem.Keys == mem0.Keys
                     && forall g | g in mem0 && g !in pool0 :: mem[g] == mem0[g]
    ensures Undisturbed(dir0, mem0, pool0, dir, mem, pool)
  {
    if ok {
      forall g | g in pool
        ensures g in pool0
      {
        var i :| 0 <= i < |pool| && pool[i] == g;
        assert pool0[i + 1] == g;
      }
    }
  }

  /**
   * Page k of a segment loaded by load_segment_from_file from its entry
   * e: on success the page is mapped to the pool's first frame, which
   * now holds the page's image, so the first k + 1 pages are mapped;
   * either way the address space is undisturbed.
   */
  lemma SegmentPageLoaded(dir0: map<nat, Mapping>, mem0: map<nat, seq<byte>>, pool0: seq<nat>,
                          dir: map<nat, Mapping>, mem: map<nat, seq<byte>>, pool: seq<nat>, ok: bool,
                          files: map<FileId, seq<byte>>, file: FileId, ofs: nat, upage: nat, readBytes: nat,
                          writable: bool, e: Pte, frames: seq<nat>,
                          dirS: map<nat, Mapping>, poolS: seq<nat>, n: nat)
    requires forall i | 0 <= i < |pool0| :: pool0[i] in mem0
    requires forall f | f in mem0 :: |mem0[f]| == PGSIZE
    requires forall u | u in dir0 :: dir0[u].frame !in pool0
    requires file in files && SegmentMapped(dir0, mem0, frames, files[file], ofs, readBytes, upage, writable)
    requires var k := |frames|;
      && e == Pte(0, upage + k * PGSIZE, upage + k * PGSIZE, writable,
                  FilePage(file, ofs + ReadBefore(readBytes, k), PageRead(readBytes, k), PGSIZE - PageRead(readBytes, k)))
    requires ok ==> && pool0 != [] && e.upage !in dir0 && Loadable(e, files) && pool == pool0[1..]
                    && dir == dir0[e.upage := Mapping(pool0[0], writable)]
                    && mem == mem0[pool0[0] := PageImage(e, files, mem0[pool0[0]])]
    requires !ok ==> && pool == pool0 && dir == dir0 && mem.Keys == mem0.Keys
                     && forall g | g in mem0 && g !in pool0 :: mem[g] == mem0[g]
    requires ok <==> Loadable(e, files) && pool0 != [] && e.upage !in dir0
    requires |frames| < n && LoadProgress(dirS, poolS, dir0, pool0, files[file], ofs, upage, readBytes, n, |frames|)
    ensures ok ==> SegmentMapped(dir, mem, frames + [pool0[0]], files[file], ofs, readBytes, upage, writable)
    ensures ok ==> LoadProgress(dirS, poolS, dir, pool, files[file], ofs, upage, readBytes, n, |frames| + 1)
    ensures !ok ==> !SegmentLoadable(dirS, poolS, files[file], ofs, upage, readBytes, n)
    ensures Undisturbed(dir0, mem0, pool0, dir, mem, pool)
  {
    var k := |frames|;
    if ok {
      var f := pool0[0];
      LoadedPage(files, file, ofs, upage, readBytes, writable, k, e, mem0[f]);
      FileLoadUndisturbed(dir0, mem0, pool0, dir, mem, pool, ok, e.upage, Mapping(f, writable));
      SegmentMappedExtend(dir0, mem0, pool0, frames, files[file], ofs, readBytes, upage, writable, f);
      SegmentLoadStep(dirS, poolS, dir0, pool0, dir, pool, files[file], ofs, upage, readBytes, n, k);
    } else {
      FileLoadUndisturbed(dir0, mem0, pool0, dir, mem, pool, ok, e.upage, Mapping(0, writable));
      SegmentLoadStops(dirS, poolS, dir0, pool0, files[file], ofs, upage, readBytes, n, k);
    }
  }

  /**
   * One turn of load_segment's loop: page k of the segment is read into a
   * fresh frame and mapped, or the load stops with false. Mappings and
   * frames in use before are left alone either way.
   */
  method LoadSegmentPage(space: AddressSpace, files: map<FileId, seq<byte>>, file: FileId, o: nat, u: nat, pr: nat,
                         writable: bool, ghost ofs: nat, ghost upage: nat, ghost readBytes: nat,
                         ghost frames: seq<nat>, ghost dir0: map<nat, Mapping>, ghost pool0: seq<nat>, ghost n: nat)
    returns (ok: bool, ghost f: nat)
    requires space.Valid() && file in files
    requires o == ofs + ReadBefore(readBytes, |frames|) && u == upage + |frames| * PGSIZE
    requires pr == PageRead(readBytes, |frames|)
    requires SegmentMapped(space.pagedir, space.mem, frames, files[file], ofs, readBytes, upage, writable)
    requires |frames| < n
    requires LoadProgress(dir0, pool0, space.pagedir, space.pool, files[file], ofs, upage, readBytes, n, |frames|)
    modifies space
    ensures space.Valid()
    ensures ok ==> SegmentMapped(space.pagedir, space.mem, frames + [f], files[file], ofs, readBytes, upage, writable)
    ensures ok ==> LoadProgress(dir0, pool0, space.pagedir, space.pool, files[file], ofs, upage, readBytes, n, |frames| + 1)
    ensures !ok ==> !SegmentLoadable(dir0, pool0, files[file], ofs, upage, readBytes, n)
    ensures Undisturbed(old(space.pagedir), old(space.mem), old(space.pool), space.pagedir, space.mem, space.pool)
  {
    var e := Pte(0, u, u, writable, FilePage(file, o, pr, PGSIZE - pr));
    ghost var pool1, dir1, mem1 := space.pool, space.pagedir, space.mem;
    ok := LoadSegmentFromFile(space, e, files);
    f := if pool1 == [] then 0 else pool1[0];
    SegmentPageLoaded(dir1, mem1, pool1, space.pagedir, space.mem, space.pool, ok,
                      files, file, ofs, upage, readBytes, writable, e, frames, dir0, pool0, n);
  }

  /** Page j of the segment at upage is mapped in dir. */
  ghost predicate Mapped(dir: map<nat, Mapping>, upage: nat, j: nat) {
    upage + j * PGSIZE in dir
  }

  /**
   * When load_segment loads all n pages of a segment: the pool holds a
   * frame for every page, the file holds all read_bytes bytes of the
   * segment's data, and none of its pages is mapped yet.
   */
  ghost predicate SegmentLoadable(dir: map<nat, Mapping>, pool: seq<nat>, file: seq<byte>, ofs: nat, upage: nat,
                                  readBytes: nat, n: nat)
  {
    && n <= |pool|
    && (readBytes == 0 || ofs + readBytes <= |file|)
    && forall j | 0 <= j < n :: !Mapped(dir, upage, j)
  }

  /**
   * load_segment after k pages loaded: k frames have left the pool, none
   * of those k pages was mapped before, the pages still to come are
   * mapped exactly as before, and the file held the data read so far.
   */
  ghost predicate LoadProgress(dir0: map<nat, Mapping>, pool0: seq<nat>, dir: map<nat, Mapping>, pool: seq<nat>,
                               file: seq<byte>, ofs: nat, upage: nat, readBytes: nat, n: nat, k: nat)
  {
    && k <= |pool0| && pool == pool0[k..]
    && (forall j | 0 <= j < k :: !Mapped(dir0, upage, j))
    && (forall j | k <= j < n :: Mapped(dir, upage, j) == Mapped(dir0, upage, j))
    && (ReadBefore(readBytes, k) == 0 || ofs + ReadBefore(readBytes, k) <= |file|)
  }

  /**
   * Turn k of load_segment failed: the pool was empty, the read came up
   * short or the page was mapped, each of which rules out SegmentLoadable.
   */
  lemma SegmentLoadStops(dir0: map<nat, Mapping>, pool0: seq<nat>, dir: map<nat, Mapping>, pool: seq<nat>,
                         file: seq<byte>, ofs: nat, upage: nat, readBytes: nat, n: nat, k: nat)
    requires k < n && LoadProgress(dir0, pool0, dir, pool, file, ofs, upage, readBytes, n, k)
    requires !(pool != [] && |FileRead(file, ofs + ReadBefore(readBytes, k), PageRead(readBytes, k))| == PageRead(readBytes, k)
               && upage + k * PGSIZE !in dir)
    ensures !SegmentLoadable(dir0, pool0, file, ofs, upage, readBytes, n)
  {
    if pool == [] {
      assert |pool0| == k;
    } else if upage + k * PGSIZE in dir {
      assert Mapped(dir, upage, k);
      assert Mapped(dir0, upage, k);
    } else {
      assert ReadBefore(readBytes, k) + PageRead(readBytes, k) == ReadBefore(readBytes, k + 1);
    }
  }

  /** Turn k of load_segment succeeded: the progress extends to k + 1 pages. */
  lemma SegmentLoadStep(dir0: map<nat, Mapping>, pool0: seq<nat>, dir1: map<nat, Mapping>, pool1: seq<nat>,
                        dir: map<nat, Mapping>, pool: seq<nat>,
                        file: seq<byte>, ofs: nat, upage: nat, readBytes: nat, n: nat, k: nat)
    requires k < n && LoadProgress(dir0, pool0, dir1, pool1, file, ofs, upage, readBytes, n, k)
    requires pool1 != [] && |FileRead(file, ofs + ReadBefore(readBytes, k), PageRead(readBytes, k))| == PageRead(readBytes, k)
    requires upage + k * PGSIZE !in dir1
    requires pool == pool1[1..] && dir.Keys == dir1.Keys + {upage + k * PGSIZE}
    ensures LoadProgress(dir0, pool0, dir, pool, file, ofs, upage, readBytes, n, k + 1)
  {
    assert !Mapped(dir1, upage, k);
    assert !Mapped(dir0, upage, k);
    forall j | k + 1 <= j < n
      ensures Mapped(dir, upage, j) == Mapped(dir0, upage, j)
    {
      assert upage + j * PGSIZE != upage + k * PGSIZE;
      assert Mapped(dir1, upage, j) == Mapped(dir0, upage, j);
    }
    assert ReadBefore(readBytes, k) + PageRead(readBytes, k) == ReadBefore(readBytes, k + 1);
  }

  /** All n pages loaded, and the data read is the segment's: the segment was loadable. */
  lemma SegmentLoadDone(dir0: map<nat, Mapping>, pool0: seq<nat>, dir: map<nat, Mapping>, pool: seq<nat>,
                        file: seq<byte>, ofs: nat, upage: nat, readBytes: nat, n: nat)
    requires LoadProgress(dir0, pool0, dir, pool, file, ofs, upage, readBytes, n, n)
    requires ReadBefore(readBytes, n) == readBytes
    ensures SegmentLoadable(dir0, pool0, file, ofs, upage, readBytes, n)
  {
  }

  /**
   * One turn of load_segment's loop, on its variables: page k is loaded
   * and the variables move on a page, or the turn fails, which happens
   * only when the segment was not loadable to begin with.
   */
  method LoadSegmentTurn(space: AddressSpace, files: map<FileId, seq<byte>>, file: FileId, ghost ofs: nat,
                         ghost upage: nat, ghost readBytes: nat, ghost zeroBytes: nat, writable: bool,
                         r: nat, z: nat, o: nat, u: nat, ghost k: nat, ghost frames: seq<nat>,
                         ghost dir0: map<nat, Mapping>, ghost mem0: map<nat, seq<byte>>, ghost pool0: seq<nat>,
                         ghost n: nat)
    returns (ok: bool, r': nat, z': nat, o': nat, u': nat, ghost frames': seq<nat>)
    requires space.Valid() && file in files
    requires (readBytes + zeroBytes) % PGSIZE == 0 && n == (readBytes + zeroBytes) / PGSIZE
    requires r > 0 || z > 0
    requires k <= n && Cursor(r, z, o, u) == CursorAt(readBytes, zeroBytes, ofs, upage, k)
    requires |frames| == k
    requires SegmentMapped(space.pagedir, space.mem, frames, files[file], ofs, readBytes, upage, writable)
    requires Undisturbed(dir0, mem0, pool0, space.pagedir, space.mem, space.pool)
    requires LoadProgress(dir0, pool0, space.pagedir, space.pool, files[file], ofs, upage, readBytes, n, k)
    modifies space
    ensures space.Valid()
    ensures Undisturbed(dir0, mem0, pool0, space.pagedir, space.mem, space.pool)
    ensures ok ==> k + 1 <= n && Cursor(r', z', o', u') == CursorAt(readBytes, zeroBytes, ofs, upage, k + 1)
    ensures ok ==> |frames'| == k + 1
    ensures ok ==> SegmentMapped(space.pagedir, space.mem, frames', files[file], ofs, readBytes, upage, writable)
    ensures ok ==> LoadProgress(dir0, pool0, space.pagedir, space.pool, files[file], ofs, upage, readBytes, n, k + 1)
    ensures !ok ==> !SegmentLoadable(dir0, pool0, files[file], ofs, upage, readBytes, n)
  {
    CursorLeft(readBytes, zeroBytes, ofs, upage, k, r, z, o, u);
    var pr := if r < PGSIZE then r else PGSIZE;
    var pz := PGSIZE - pr;
    CursorStep(readBytes, zeroBytes, ofs, upage, k, r, z, o, u, pr, pz);
    ghost var dir1, mem1, pool1 := space.pagedir, space.mem, space.pool;
    ghost var f;
    ok, f := LoadSegmentPage(space, files, file, o, u, pr, writable, ofs, upage, readBytes, frames, dir0, pool0, n);
    UndisturbedTrans(dir0, mem0, pool0, dir1, mem1, pool1, space.pagedir, space.mem, space.pool);
    frames' := frames + [f];
    r', z', o', u' := r - pr, z - pz, o + pr, u + PGSIZE;
  }

  /**
   * load_segment: reads the segment into fresh frames page by page and
   * maps each; it stops with false when the pool runs out, a read comes
   * up short or a page is already mapped. Each page is brought in the way
   * load_segment_from_file brings in a FILE entry (the two bodies are the
   * same code). It succeeds exactly when SegmentLoadable holds of the
   * address space it starts from, and then every page of the segment is
   * mapped, with the segment's writability, to a frame holding its image;
   * whatever the
   * outcome, mappings that were there before stay and frames in use
   * before are never written.
   */
  method LoadSegment(space: AddressSpace, files: map<FileId, seq<byte>>, file: FileId, ofs: nat, upage: nat,
                     readBytes: nat, zeroBytes: nat, writable: bool) returns (ok: bool)
    requires space.Valid() && file in files
    requires (readBytes + zeroBytes) % PGSIZE == 0 && upage % PGSIZE == 0 && ofs % PGSIZE == 0
    modifies space
    ensures space.Valid()
    ensures ok ==> forall k | 0 <= k < (readBytes + zeroBytes) / PGSIZE ::
      && upage + k * PGSIZE in space.pagedir
      && space.pagedir[upage + k * PGSIZE].writable == writable
      && space.mem[space.pagedir[upage + k * PGSIZE].frame] == SegmentImage(files[file], ofs, readBytes, k)
    ensures ok <==> SegmentLoadable(old(space.pagedir), old(space.pool), files[file], ofs, upage, readBytes,
                                    (readBytes + zeroBytes) / PGSIZE)
    ensures Undisturbed(old(space.pagedir), old(space.mem), old(space.pool), space.pagedir, space.mem, space.pool)
  {
    var r: nat, z: nat, o: nat, u: nat := readBytes, zeroBytes, ofs, upage;
    ghost var k: nat := 0;
    ghost var n := (readBytes + zeroBytes) / PGSIZE;
    ghost var frames: seq<nat> := [];
    ghost var dir0, mem0, pool0 := space.pagedir, space.mem, space.pool;
    while r > 0 || z > 0
      invariant space.Valid()
      invariant k <= n && Cursor(r, z, o, u) == CursorAt(readBytes, zeroBytes, ofs, upage, k)
      invariant |frames| == k
      invariant SegmentMapped(space.pagedir, space.mem, frames, files[file], ofs, readBytes, upage, writable)
      invariant Undisturbed(old(space.pagedir), old(space.mem), old(space.pool), space.pagedir, space.mem, space.pool)
      invariant LoadProgress(dir0, pool0, space.pagedir, space.pool, files[file], ofs, upage, readBytes, n, k)
      decreases n - k
    {
      ok, r, z, o, u, frames := LoadSegmentTurn(space, files, file, ofs, upage, readBytes, zeroBytes, writable,
                                                r, z, o, u, k, frames, dir0, mem0, pool0, n);
      if !ok {
        return;
      }
      k := k + 1;
    }
    CursorLeft(readBytes, zeroBytes, ofs, upage, k, r, z, o, u);
    CursorAtIs(readBytes, zeroBytes, ofs, upage, k);
    SegmentLoadDone(dir0, pool0, space.pagedir, space.pool, files[file], ofs, upage, readBytes, n);
    SegmentMappedAll(space.pagedir, space.mem, frames, files[file], ofs, readBytes, upage, writable, n);
    ok := true;
  }

  /** The stack page: the page just below PHYS_BASE. */
  const STACK_PAGE: nat := PHYS_BASE - PGSIZE

  /**
   * lazy_setup_stack with the stack entry registered: grow_stack builds a
   * STACK entry for the page below PHYS_BASE, the entry goes into the
   * table, and the stack pointer starts at PHYS_BASE.
   */
  method LazySetupStack(spt: PageTable, tid: int) returns (ok: bool, esp: nat)
    requires spt.Valid()
    modifies spt
    ensures spt.Valid() && ok && esp == PHYS_BASE
    ensures spt.entries == InsertEntry(old(spt.entries), GrowStack(tid, STACK_PAGE))
    ensures STACK_PAGE !in old(spt.entries) ==>
      spt.Lookup(PgRoundDown(esp - 1)) == Some(Pte(tid, STACK_PAGE, STACK_PAGE, true, StackPage))
  {
    var upage := PgRoundDown(STACK_PAGE);
    var pte := GrowStack(tid, upage);
    var _ := spt.Insert(pte);
    ok := true;
    esp := PHYS_BASE;
  }

  /**
   * lazy_setup_stack as written: the entry grow_stack builds is never
   * inserted (the insertion is commented out), yet the call reports
   * success and sets the stack pointer; the page the first push lands in
   * then has no entry.
   */
  method LazySetupStackAsWritten(spt: PageTable, tid: int) returns (ok: bool, esp: nat)
    requires spt.Valid()
    ensures ok && esp == PHYS_BASE
    ensures STACK_PAGE !in spt.entries ==> spt.Lookup(PgRoundDown(esp - 1)).None?
  {
    var upage := PgRoundDown(STACK_PAGE);
    var pte := GrowStack(tid, upage);
    ok := true;
    esp := PHYS_BASE;
  }

  /** The first byte pushed below PHYS_BASE lies in the stack page. */
  lemma FirstPushInStackPage()
    ensures PgRoundDown(PHYS_BASE - 1) == STACK_PAGE
  {
  }

  /** off_t, a 32-bit signed int, holding an Elf32_Off: values of 2^31 and above turn negative. */
  function ToOffT(x: u32): (r: int)
    ensures r < 0 <==> x >= 0x8000_0000
    ensures r >= 0 ==> r == x
  {
    if x < 0x8000_0000 then x else x - WORD_LIMIT
  }

  /** The file offset load reads program header i from. */
  function PhdrPos(h: Ehdr, i: nat): int {
    ToOffT(h.phoff) + PHDR_SIZE * i
  }

  /** Program header i can be read: its offset is in the file and all of its bytes are there. */
  predicate PhdrReadable(file: seq<byte>, h: Ehdr, i: nat) {
    0 <= PhdrPos(h, i) && PhdrPos(h, i) + PHDR_SIZE <= |file|
  }

  function PhdrAt(file: seq<byte>, h: Ehdr, i: nat): Phdr
    requires PhdrReadable(file, h, i)
  {
    DecodePhdr(file[PhdrPos(h, i) .. PhdrPos(h, i) + PHDR_SIZE])
  }

  /** Program header i lets the load go on: it is readable, and it is ignorable or a valid loadable segment. */
  predicate PhdrAccepted(file: seq<byte>, h: Ehdr, i: nat)
    requires |file| < WORD_LIMIT
  {
    && PhdrReadable(file, h, i)
    && match Classify(PhdrAt(file, h, i).pType)
       case Ignore => true
       case Reject => false
       case LoadIt => ValidateSegment(PhdrAt(file, h, i), |file|)
  }

  /** Program headers 0 .. n-1 all let the load go on. */
  predicate AllAccepted(file: seq<byte>, h: Ehdr, n: nat)
    requires |file| < WORD_LIMIT
  {
    forall i | 0 <= i < n :: PhdrAccepted(file, h, i)
  }

  lemma AllAcceptedStep(file: seq<byte>, h: Ehdr, n: nat)
    requires |file| < WORD_LIMIT
    ensures AllAccepted(file, h, n + 1) <==> AllAccepted(file, h, n) && PhdrAccepted(file, h, n)
  {
  }

  lemma NotAllAccepted(file: seq<byte>, h: Ehdr, i: nat, n: nat)
    requires |file| < WORD_LIMIT && i < n && !PhdrAccepted(file, h, i)
    ensures !AllAccepted(file, h, n)
  {
  }

  /**
   * load accepts the file: its executable header can be read and passes
   * the header check, and every program header lets the load go on.
   */
  predicate ExecutableAccepted(file: seq<byte>)
    requires |file| < WORD_LIMIT
  {
    && |file| >= EHDR_SIZE
    && HeaderAccepted(DecodeEhdr(file[..EHDR_SIZE]))
    && AllAccepted(file, DecodeEhdr(file[..EHDR_SIZE]), DecodeEhdr(file[..EHDR_SIZE]).phnum)
  }

  /**
   * Every loadable segment of an accepted executable satisfies the
   * reference conditions: aligned with its file offset, starting at most at the end of the file,
   * non-empty, not larger on file than in memory, and lying within user
   * space above page 0.
   */
  lemma AcceptedSegmentFits(file: seq<byte>, i: nat)
    requires |file| < WORD_LIMIT && ExecutableAccepted(file)
    requires i < DecodeEhdr(file[..EHDR_SIZE]).phnum
    ensures var h := DecodeEhdr(file[..EHDR_SIZE]);
      PhdrReadable(file, h, i) &&
      (Classify(PhdrAt(file, h, i).pType) == LoadIt ==> SegmentFits(PhdrAt(file, h, i), |file|))
  {
    var h := DecodeEhdr(file[..EHDR_SIZE]);
    assert PhdrAccepted(file, h, i);
  }

  /** The entries lazy_load_segment registers for program header i: none unless it is PT_LOAD. */
  function HeaderPages(file: seq<byte>, fileId: FileId, tid: int, h: Ehdr, i: nat): seq<Pte>
    requires |file| < WORD_LIMIT && PhdrAccepted(file, h, i)
  {
    var p := PhdrAt(file, h, i);
    if Classify(p.pType) == LoadIt then
      SplitOfValidSegment(p, |file|);
      var l := SplitSegment(p);
      SegmentPages(tid, fileId, l.filePage, l.memPage, l.readBytes, l.zeroBytes, l.writable)
    else []
  }

  /** The entries registered for program headers 0 .. n-1, in order. */
  function LoadedPages(file: seq<byte>, fileId: FileId, tid: int, h: Ehdr, n: nat): seq<Pte>
    requires |file| < WORD_LIMIT && AllAccepted(file, h, n)
  {
    if n == 0 then []
    else
      AllAcceptedStep(file, h, n - 1);
      LoadedPages(file, fileId, tid, h, n - 1) + HeaderPages(file, fileId, tid, h, n - 1)
  }

  /** Every entry of m0 is still in m, unchanged. */
  ghost predicate Keeps(m0: map<nat, Pte>, m: map<nat, Pte>) {
    forall k | k in m0 :: k in m && m[k] == m0[k]
  }

  /**
   * One turn of load's program-header loop: read header i, then ignore it,
   * reject it, or validate it and register its segment's pages.
   */
  method LoadHeader(spt: PageTable, file: seq<byte>, fileId: FileId, tid: int, h: Ehdr, i: nat, pos: int)
    returns (ok: bool)
    requires spt.Valid() && |file| <= INT32_MAX && pos == PhdrPos(h, i)
    modifies spt
    ensures spt.Valid()
    ensures ok <==> PhdrAccepted(file, h, i)
    ensures ok ==> spt.entries == InsertAll(old(spt.entries), HeaderPages(file, fileId, tid, h, i))
    ensures Keeps(old(spt.entries), spt.entries)
  {
    if pos < 0 || pos > |file| {
      return false;
    }
    if pos + PHDR_SIZE > |file| {
      return false;
    }
    var p := DecodePhdr(file[pos .. pos + PHDR_SIZE]);
    assert p == PhdrAt(file, h, i);
    match Classify(p.pType)
    case Ignore =>
      ok := true;
    case Reject =>
      ok := false;
    case LoadIt =>
      if !ValidateSegment(p, |file|) {
        return false;
      }
      SplitOfValidSegment(p, |file|);
      var l := SplitSegment(p);
      ghost var ps := SegmentPages(tid, fileId, l.filePage, l.memPage, l.readBytes, l.zeroBytes, l.writable);
      var _ := LazyLoadSegment(spt, tid, fileId, l.filePage, l.memPage, l.readBytes, l.zeroBytes, l.writable);
      InsertAllKeys(old(spt.entries), ps);
      ok := true;
  }

  /**
   * load, from the header check on (the page directory, opening the file
   * and denying writes to it are not modelled), calling the corrected
   * LazySetupStack: the file is accepted exactly when ExecutableAccepted
   * says so; on success every PT_LOAD segment's pages and the stack page
   * are registered, the entry point is
   * e_entry and the stack pointer PHYS_BASE. Entries already in the table
   * are never replaced.
   */
  method Load(spt: PageTable, file: seq<byte>, fileId: FileId, tid: int) returns (ok: bool, eip: nat, esp: nat)
    requires spt.Valid() && |file| <= INT32_MAX
    modifies spt
    ensures spt.Valid()
    ensures ok <==> ExecutableAccepted(file)
    ensures ok ==> eip == DecodeEhdr(file[..EHDR_SIZE]).entry && esp == PHYS_BASE && STACK_PAGE in spt.entries
    ensures ok ==> var h := DecodeEhdr(file[..EHDR_SIZE]);
      spt.entries == InsertEntry(InsertAll(old(spt.entries), LoadedPages(file, fileId, tid, h, h.phnum)),
                                 GrowStack(tid, STACK_PAGE))
    ensures Keeps(old(spt.entries), spt.entries)
  {
    if |file| < EHDR_SIZE {
      return false, 0, 0;
    }
    var h := DecodeEhdr(file[..EHDR_SIZE]);
    if !HeaderAccepted(h) {
      return false, 0, 0;
    }
    var pos := ToOffT(h.phoff);
    var i := 0;
    while i < h.phnum
      invariant 0 <= i <= h.phnum && pos == PhdrPos(h, i)
      invariant AllAccepted(file, h, i)
      invariant spt.Valid() && Keeps(old(spt.entries), spt.entries)
      invariant spt.entries == InsertAll(old(spt.entries), LoadedPages(file, fileId, tid, h, i))
    {
      ghost var before := spt.entries;
      var accepted := LoadHeader(spt, file, fileId, tid, h, i, pos);
      AllAcceptedStep(file, h, i);
      if !accepted {
        NotAllAccepted(file, h, i, h.phnum);
        return false, 0, 0;
      }
      InsertAllAppend(old(spt.entries), LoadedPages(file, fileId, tid, h, i), HeaderPages(file, fileId, tid, h, i));
      pos := pos + PHDR_SIZE;
      i := i + 1;
    }
    var _, sp := LazySetupStack(spt, tid);
    return true, h.entry, sp;
  }
}
