/**
 * The supplemental page table (vm/page.c): one entry per user page that a
 * process may touch, keyed by the page's address (its table number), saying
 * where the page's contents come from; and the loaders that bring a page in
 * on demand.
 */
module Page {
  import opened Bytes
  import opened Vaddr
  import opened Wrappers
  import opened Memory

  /** An open file, named by an identifier; the contents of every file are passed in as a map. */
  type FileId = nat

  /**
   * enum s_pte_type together with the fields each kind of entry uses:
   * a stack page is zero-filled, a file page is read from a file,
   * swap and mmap pages are recorded but never loaded.
   */
  datatype PteKind =
    | StackPage
    | FilePage(file: FileId, pageOffset: nat, readBytes: nat, zeroBytes: nat)
    | SwapPage(slot: nat)
    | MmapPage(mmap: nat)

  /** struct s_pte: owner, key, user page, writability and kind. */
  datatype Pte = Pte(tid: int, tableNumber: nat, upage: nat, writable: bool, kind: PteKind)

  /** s_page_hash: an entry hashes to its table number. */
  function PageHash(e: Pte): (k: nat)
    ensures k == e.tableNumber
  {
    e.tableNumber
  }

  /** s_page_less: entries are ordered by table number. */
  predicate PageLess(a: Pte, b: Pte): (r: bool)
    ensures r <==> PageHash(a) < PageHash(b)
  {
    a.tableNumber < b.tableNumber
  }

  /**
   * The order is a strict order, and two entries are the same element for
   * the hash table (neither is less) exactly when they hash alike: the
   * table is keyed by table number and nothing else.
   */
  lemma PageOrderIsKeyOrder(a: Pte, b: Pte, c: Pte)
    ensures !PageLess(a, a)
    ensures PageLess(a, b) && PageLess(b, c) ==> PageLess(a, c)
    ensures (!PageLess(a, b) && !PageLess(b, a)) <==> PageHash(a) == PageHash(b)
  {
  }

  /** Every entry is stored under its own key. */
  predicate Keyed(m: map<nat, Pte>) {
    forall k | k in m :: PageHash(m[k]) == k
  }

  /** The keys of a list of entries. */
  function KeysOf(es: seq<Pte>): set<nat> {
    set i | 0 <= i < |es| :: PageHash(es[i])
  }

  lemma KeyInKeysOf(es: seq<Pte>, i: nat)
    requires i < |es|
    ensures PageHash(es[i]) in KeysOf(es)
  {
  }

  /**
   * hash_insert: adds e under its key unless an entry with that key is
   * already present, in which case the table keeps the old entry.
   */
  function InsertEntry(m: map<nat, Pte>, e: Pte): (r: map<nat, Pte>)
    ensures Keyed(m) ==> Keyed(r)
    ensures r.Keys == m.Keys + {PageHash(e)}
    ensures forall k | k in m :: r[k] == m[k]
    ensures PageHash(e) !in m ==> r[PageHash(e)] == e
  {
    if PageHash(e) in m then m else m[PageHash(e) := e]
  }

  /** hash_insert of each entry of es in turn. */
  function InsertAll(m: map<nat, Pte>, es: seq<Pte>): (r: map<nat, Pte>)
    ensures Keyed(m) ==> Keyed(r)
    decreases |es|
  {
    if es == [] then m else InsertAll(InsertEntry(m, es[0]), es[1..])
  }

  /**
   * After inserting a list the table holds exactly the old keys and the
   * list's keys, and every old entry is still there unchanged.
   */
  lemma {:induction false} InsertAllKeys(m: map<nat, Pte>, es: seq<Pte>)
    ensures InsertAll(m, es).Keys == m.Keys + KeysOf(es)
    ensures forall k | k in m :: InsertAll(m, es)[k] == m[k]
    decreases |es|
  {
    if es != [] {
      InsertAllKeys(InsertEntry(m, es[0]), es[1..]);
      assert KeysOf(es) == {PageHash(es[0])} + KeysOf(es[1..]) by {
        forall k | k in KeysOf(es) ensures k in {PageHash(es[0])} + KeysOf(es[1..]) {
          var i :| 0 <= i < |es| && PageHash(es[i]) == k;
          if i > 0 {
            assert PageHash(es[1..][i - 1]) == k;
          }
        }
        forall k | k in KeysOf(es[1..]) ensures k in KeysOf(es) {
          var i :| 0 <= i < |es[1..]| && PageHash(es[1..][i]) == k;
          assert PageHash(es[i + 1]) == k;
        }
      }
    }
  }

  /** Inserting a list is inserting its first entry, then the rest. */
  lemma InsertAllCons(m: map<nat, Pte>, e: Pte, rest: seq<Pte>)
    ensures InsertAll(m, [e] + rest) == InsertAll(InsertEntry(m, e), rest)
  {
    assert ([e] + rest)[1..] == rest;
  }

  /** Inserting a list in two parts is inserting the whole list. */
  lemma {:induction false} InsertAllAppend(m: map<nat, Pte>, a: seq<Pte>, b: seq<Pte>)
    ensures InsertAll(m, a + b) == InsertAll(InsertAll(m, a), b)
    decreases |a|
  {
    if a != [] {
      assert (a + b)[1..] == a[1..] + b;
      InsertAllAppend(InsertEntry(m, a[0]), a[1..], b);
    } else {
      assert a + b == b;
    }
  }

  /**
   * When the keys of es are pairwise distinct and the key of es[i] is not
   * in m yet, es[i] ends up in the table under its own key.
   */
  lemma {:induction false} InsertAllFresh(m: map<nat, Pte>, es: seq<Pte>, i: nat)
    requires i < |es|
    requires forall j, k | 0 <= j < k < |es| :: PageHash(es[j]) != PageHash(es[k])
    requires PageHash(es[i]) !in m
    ensures PageHash(es[i]) in InsertAll(m, es) && InsertAll(m, es)[PageHash(es[i])] == es[i]
    decreases |es|
  {
    var m' := InsertEntry(m, es[0]);
    InsertAllKeys(m', es[1..]);
    if i > 0 {
      assert es[1..][i - 1] == es[i];
      forall j, k | 0 <= j < k < |es[1..]| ensures PageHash(es[1..][j]) != PageHash(es[1..][k]) {
        assert es[1..][j] == es[j + 1] && es[1..][k] == es[k + 1];
      }
      InsertAllFresh(m', es[1..], i - 1);
    }
  }

  /** The supplemental page table of a thread (t->s_page_table). */
  class PageTable {
    var entries: map<nat, Pte>

    ghost predicate Valid()
      reads this
    {
      Keyed(entries)
    }

    /** s_page_init: an empty table hashed and ordered by table number. */
    constructor ()
      ensures Valid() && entries == map[]
    {
      entries := map[];
    }

    /**
     * s_page_lookup: the entry whose table number is `page`, or None when
     * the table holds none.
     */
    function Lookup(page: nat): (r: Option<Pte>)
      reads this
      requires Valid()
      ensures r.Some? <==> exists e | e in entries.Values :: PageHash(e) == page
      ensures r.Some? ==> r.value in entries.Values && PageHash(r.value) == page
    {
      if page in entries then Some(entries[page]) else None
    }

    /** hash_insert into this table: reports whether e went in. */
    method Insert(e: Pte) returns (inserted: bool)
      requires Valid()
      modifies this
      ensures Valid()
      ensures inserted == (PageHash(e) !in old(entries))
      ensures entries == InsertEntry(old(entries), e)
      ensures Lookup(PageHash(e)).Some?
    {
      inserted := PageHash(e) !in entries;
      entries := InsertEntry(entries, e);
    }
  }

  /**
   * file_seek(off) followed by file_read(n): the file's bytes from off on,
   * n of them, or fewer when the file ends first.
   */
  function FileRead(file: seq<byte>, off: nat, n: nat): (r: seq<byte>)
    ensures |r| <= n
    ensures |r| == n <==> n == 0 || off + n <= |file|
    ensures r != [] ==> off + |r| <= |file| && r == file[off .. off + |r|]
  {
    if off >= |file| then [] else if off + n <= |file| then file[off .. off + n] else file[off..]
  }

  /**
   * A frame after `data` is copied to its start and the next zeroBytes
   * bytes are cleared; the rest of the frame is left as it was.
   */
  function FillFrame(frame: seq<byte>, data: seq<byte>, zeroBytes: nat): (r: seq<byte>)
    requires |data| + zeroBytes <= |frame|
    ensures |r| == |frame|
    ensures r[..|data|] == data
    ensures forall j | |data| <= j < |data| + zeroBytes :: r[j] == 0
    ensures r[|data| + zeroBytes ..] == frame[|data| + zeroBytes ..]
  {
    data + Zeros(zeroBytes) + frame[|data| + zeroBytes ..]
  }

  /** An entry the loaders can be handed: a file entry names a known file and fits in a page. */
  predicate WellFormed(e: Pte, files: map<FileId, seq<byte>>) {
    e.kind.FilePage? ==> e.kind.file in files && e.kind.readBytes + e.kind.zeroBytes <= PGSIZE
  }

  /** The entry's contents can be produced: a stack page, or a file page whose bytes are all in the file. */
  predicate Loadable(e: Pte, files: map<FileId, seq<byte>>)
    requires WellFormed(e, files)
  {
    || e.kind.StackPage?
    || (e.kind.FilePage? && |FileRead(files[e.kind.file], e.kind.pageOffset, e.kind.readBytes)| == e.kind.readBytes)
  }

  /** What a frame that held `frame` holds once the entry is loaded into it. */
  function PageImage(e: Pte, files: map<FileId, seq<byte>>, frame: seq<byte>): (r: seq<byte>)
    requires WellFormed(e, files) && Loadable(e, files) && |frame| == PGSIZE
    ensures |r| == PGSIZE
    ensures e.kind.StackPage? ==> forall j | 0 <= j < PGSIZE :: r[j] == 0
    ensures e.kind.FilePage? ==>
      var k := e.kind;
      && (k.readBytes > 0 ==> r[..k.readBytes] == files[k.file][k.pageOffset .. k.pageOffset + k.readBytes])
      && (forall j | k.readBytes <= j < k.readBytes + k.zeroBytes :: r[j] == 0)
      && r[k.readBytes + k.zeroBytes ..] == frame[k.readBytes + k.zeroBytes ..]
  {
    match e.kind
    case FilePage(file, off, read, zero) =>
      var data := FileRead(files[file], off, read);
      assert read > 0 ==> data == files[file][off .. off + read];
      FillFrame(frame, data, zero)
    case _ => Zeros(PGSIZE)
  }

  /**
   * load_segment_from_file: takes a frame from the user pool, reads the
   * page's bytes into it, zeroes the rest of the page's data and maps the
   * page; on a short read or an already mapped page the frame goes back to
   * the pool. Frames in use by anyone are never touched.
   */
  method LoadSegmentFromFile(space: AddressSpace, e: Pte, files: map<FileId, seq<byte>>) returns (ok: bool)
    requires space.Valid() && e.kind.FilePage? && WellFormed(e, files)
    modifies space
    ensures space.Valid()
    ensures ok <==> Loadable(e, files) && old(space.pool) != [] && e.upage !in old(space.pagedir)
    ensures ok ==>
      && space.pool == old(space.pool)[1..]
      && space.pagedir == old(space.pagedir)[e.upage := Mapping(old(space.pool)[0], e.writable)]
      && space.mem == old(space.mem)[old(space.pool)[0] := PageImage(e, files, old(space.mem)[old(space.pool)[0]])]
    ensures !ok ==>
      && space.pool == old(space.pool) && space.pagedir == old(space.pagedir) && space.mem.Keys == old(space.mem).Keys
      && forall f | f in old(space.mem) && f !in old(space.pool) :: space.mem[f] == old(space.mem)[f]
  {
    var frame := space.GetPage(false);
    if frame.None? {
      return false;
    }
    var f := frame.value;
    var k := e.kind;
    var data := FileRead(files[k.file], k.pageOffset, k.readBytes);
    if |data| != k.readBytes {
      space.mem := space.mem[f := data + space.mem[f][|data|..]];
      space.FreePage(f);
      return false;
    }
    space.mem := space.mem[f := FillFrame(space.mem[f], data, k.zeroBytes)];
    ok := space.InstallPage(e.upage, f, e.writable);
    if !ok {
      space.FreePage(f);
    }
  }

  /**
   * load_segment_stack: takes a zeroed frame from the user pool and maps
   * the page to it; when the page is already mapped the frame goes back.
   */
  method LoadSegmentStack(space: AddressSpace, e: Pte) returns (ok: bool)
    requires space.Valid()
    modifies space
    ensures space.Valid()
    ensures ok <==> old(space.pool) != [] && e.upage !in old(space.pagedir)
    ensures ok ==>
      && space.pool == old(space.pool)[1..]
      && space.pagedir == old(space.pagedir)[e.upage := Mapping(old(space.pool)[0], e.writable)]
      && space.mem == old(space.mem)[old(space.pool)[0] := Zeros(PGSIZE)]
    ensures !ok ==>
      && space.pool == old(space.pool) && space.pagedir == old(space.pagedir) && space.mem.Keys == old(space.mem).Keys
      && forall f | f in old(space.mem) && f !in old(space.pool) :: space.mem[f] == old(space.mem)[f]
  {
    var frame := space.GetPage(true);
    if frame.None? {
      return false;
    }
    var f := frame.value;
    space.mem := space.mem[f := Zeros(PGSIZE)];
    ok := space.InstallPage(e.upage, f, e.writable);
    if !ok {
      space.FreePage(f);
    }
  }

  /**
   * s_page_load: loads a stack or file entry; swap and mmap entries are not
   * loadable and leave everything as it was.
   */
  method SPageLoad(space: AddressSpace, e: Pte, files: map<FileId, seq<byte>>) returns (ok: bool)
    requires space.Valid() && WellFormed(e, files)
    modifies space
    ensures space.Valid()
    ensures ok <==> Loadable(e, files) && old(space.pool) != [] && e.upage !in old(space.pagedir)
    ensures ok ==>
      && space.pool == old(space.pool)[1..]
      && space.pagedir == old(space.pagedir)[e.upage := Mapping(old(space.pool)[0], e.writable)]
      && space.mem == old(space.mem)[old(space.pool)[0] := PageImage(e, files, old(space.mem)[old(space.pool)[0]])]
    ensures !ok ==>
      && space.pool == old(space.pool) && space.pagedir == old(space.pagedir) && space.mem.Keys == old(space.mem).Keys
      && forall f | f in old(space.mem) && f !in old(space.pool) :: space.mem[f] == old(space.mem)[f]
    ensures e.kind.SwapPage? || e.kind.MmapPage? ==> !ok && unchanged(space)
  {
    match e.kind
    case StackPage =>
      ok := LoadSegmentStack(space, e);
    case FilePage(_, _, _, _) =>
      ok := LoadSegmentFromFile(space, e, files);
    case MmapPage(_) =>
      ok := false;
    case SwapPage(_) =>
      ok := false;
  }

  /**
   * grow_stack: a new entry for a writable, zero-filled stack page at
   * `page`, owned by thread tid and keyed by the page's address.
   */
  function GrowStack(tid: int, page: nat): (e: Pte)
    ensures PageHash(e) == page && e.upage == page
    ensures e.kind.StackPage? && e.writable && e.tid == tid
  {
    Pte(tid, page, page, true, StackPage)
  }
}
