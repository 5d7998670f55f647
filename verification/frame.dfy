/**
 * vm/frame.c. Despite its name it holds no frame table yet: its hash and
 * order functions, its init and its s_page_free all work on supplemental
 * page-table entries, and its s_page_lookup is the same lookup as
 * vm/page.c's (PageTable.Lookup).
 */
module Frame {
  import opened Page

  /** frame_hash: the same key as s_page_hash, the entry's table number. */
  function FrameHash(e: Pte): (h: nat)
    ensures h == PageHash(e)
  {
    e.tableNumber
  }

  /** frame_less: the same order as s_page_less. */
  function FrameLess(a: Pte, b: Pte): (r: bool)
    ensures r <==> PageLess(a, b)
  {
    a.tableNumber < b.tableNumber
  }

  /**
   * frame_init: (re)initialises a table as an empty one hashed by
   * s_page_hash and ordered by s_page_less.
   */
  method FrameInit(t: PageTable)
    modifies t
    ensures t.Valid() && t.entries == map[]
  {
    t.entries := map[];
  }

  /** s_page_destroy: releases one entry (hash_destroy has already unlinked it). */
  method SPageDestroy(t: PageTable, key: nat)
    requires t.Valid() && key in t.entries
    modifies t
    ensures t.Valid()
    ensures t.entries == old(t.entries) - {key}
    ensures t.Lookup(key).None?
  {
    t.entries := t.entries - {key};
  }

  /**
   * s_page_free (frame.c): hash_destroy with s_page_destroy releases every
   * entry, one at a time, until the table is empty.
   */
  method SPageFree(t: PageTable)
    requires t.Valid()
    modifies t
    ensures t.Valid() && t.entries == map[]
    ensures forall page: nat :: t.Lookup(page).None?
  {
    while t.entries != map[]
      invariant t.Valid()
      invariant t.entries.Keys <= old(t.entries).Keys
      decreases |t.entries|
    {
      var key :| key in t.entries;
      SPageDestroy(t, key);
    }
  }
}
