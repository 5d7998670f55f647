/**
 * The swap slot table (vm/swap.c): a list of page-sized slots on the swap
 * block device, each free or occupied. Slot i is stored in the spp
 * consecutive sectors i*spp .. i*spp+spp-1, where spp is the number of
 * sectors per page. swap_out writes a page into the lowest free slot;
 * swap_in reads an occupied slot back into a page and frees it.
 *
 * The device is an array of sectors, each a byte string of the sector size;
 * block_write and block_read are modelled as whole-sector transfers.
 */
module Swap {
  import opened Bytes

  type Sector = seq<byte>

  /** struct ste: one slot of the table. */
  datatype Ste = Ste(id: nat, isFree: bool)

  /** The position of the first free slot in list order, or -1 when none is free. */
  function FirstFree(slots: seq<Ste>): (r: int)
    ensures -1 <= r < |slots|
    ensures r == -1 <==> forall j | 0 <= j < |slots| :: !slots[j].isFree
    ensures r >= 0 ==> slots[r].isFree && forall j | 0 <= j < r :: !slots[j].isFree
    decreases |slots|
  {
    if slots == [] then -1
    else if slots[0].isFree then 0
    else
      var r := FirstFree(slots[1..]);
      if r == -1 then -1 else r + 1
  }

  /** The position of the first slot whose id is `id`, or -1 when there is none. */
  function FindId(slots: seq<Ste>, id: nat): (r: int)
    ensures -1 <= r < |slots|
    ensures r == -1 <==> forall j | 0 <= j < |slots| :: slots[j].id != id
    ensures r >= 0 ==> slots[r].id == id && forall j | 0 <= j < r :: slots[j].id != id
    decreases |slots|
  {
    if slots == [] then -1
    else if slots[0].id == id then 0
    else
      var r := FindId(slots[1..], id);
      if r == -1 then -1 else r + 1
  }

  // ---------------------------------------------------------------------
  // Sector layout of the slots

  lemma MulSucc(a: nat, b: nat)
    ensures (a + 1) * b == a * b + b
  {
  }

  /** Slot i ends at or before slot j begins when i < j: slots never overlap. */
  lemma {:induction false} SlotsDisjoint(i: nat, j: nat, spp: nat)
    requires i < j
    ensures i * spp + spp <= j * spp
    decreases j - i
  {
    MulSucc(i, spp);
    if i + 1 < j {
      SlotsDisjoint(i + 1, j, spp);
    }
  }

  /** A slot inside a table of n slots lies inside a device of n*spp sectors. */
  lemma SlotInDisk(i: nat, n: nat, spp: nat, sectors: nat)
    requires i < n && n * spp <= sectors
    ensures i * spp + spp <= sectors
  {
    SlotsDisjoint(i, n, spp);
  }

  /** Chunk k of a page: the bytes that the k-th sector transfer of the page carries. */
  function Chunk(page: seq<byte>, k: nat, ss: nat): seq<byte>
    requires k * ss + ss <= |page|
  {
    page[k * ss .. k * ss + ss]
  }

  /** The first m chunks of a page, in order. */
  function Chunks(page: seq<byte>, ss: nat, m: nat): (cs: seq<seq<byte>>)
    requires m * ss <= |page|
    ensures |cs| == m
    decreases m
  {
    if m == 0 then []
    else
      MulSucc(m - 1, ss);
      Chunks(page, ss, m - 1) + [Chunk(page, m - 1, ss)]
  }

  lemma {:induction false} ChunksAt(page: seq<byte>, ss: nat, m: nat, k: nat)
    requires m * ss <= |page| && k < m
    ensures k * ss + ss <= |page|
    ensures Chunks(page, ss, m)[k] == Chunk(page, k, ss)
    decreases m
  {
    MulSucc(m - 1, ss);
    if k < m - 1 {
      ChunksAt(page, ss, m - 1, k);
    }
  }

  /** The first m chunks of a page, put back together, are the first m*ss bytes of the page. */
  lemma {:induction false} ConcatChunks(page: seq<byte>, ss: nat, m: nat)
    requires m * ss <= |page|
    ensures Concat(Chunks(page, ss, m)) == page[..m * ss]
    decreases m
  {
    if m > 0 {
      MulSucc(m - 1, ss);
      ConcatChunks(page, ss, m - 1);
      ConcatAppend(Chunks(page, ss, m - 1), Chunk(page, m - 1, ss));
      assert page[..m * ss] == page[..(m - 1) * ss] + page[(m - 1) * ss .. m * ss];
    }
  }

  /** The bytes held by slot `id`: its spp sectors, concatenated in sector order. */
  function ReadSlot(disk: seq<Sector>, id: nat, spp: nat): seq<byte>
    requires id * spp + spp <= |disk|
  {
    Concat(disk[id * spp .. id * spp + spp])
  }

  /** The value sector s receives when a page is written into slot id: chunk s - id*spp of the page. */
  function ChunkFor(page: seq<byte>, id: nat, spp: nat, ss: nat, s: nat): seq<byte>
    requires id * spp <= s < id * spp + spp && |page| == spp * ss
  {
    SlotsDisjoint(s - id * spp, spp, ss);
    Chunk(page, s - id * spp, ss)
  }

  /** The device after sectors id*spp .. id*spp+n-1 received chunks 0 .. n-1 of `page`. */
  function WriteSlot(disk: seq<Sector>, id: nat, spp: nat, ss: nat, page: seq<byte>, n: nat): (d: seq<Sector>)
    requires n <= spp && id * spp + spp <= |disk| && |page| == spp * ss
    ensures |d| == |disk|
    ensures forall s | 0 <= s < |disk| && !(id * spp <= s < id * spp + n) :: d[s] == disk[s]
  {
    seq(|disk|, s requires 0 <= s < |disk| =>
      if id * spp <= s < id * spp + n then ChunkFor(page, id, spp, ss, s) else disk[s])
  }

  /** Round trip on the device: reading a slot back gives exactly the page written into it. */
  lemma {:induction false} ReadAfterWrite(disk: seq<Sector>, id: nat, spp: nat, ss: nat, page: seq<byte>)
    requires id * spp + spp <= |disk| && |page| == spp * ss
    ensures ReadSlot(WriteSlot(disk, id, spp, ss, page, spp), id, spp) == page
  {
    var d := WriteSlot(disk, id, spp, ss, page, spp);
    var slice := d[id * spp .. id * spp + spp];
    var parts := Chunks(page, ss, spp);
    forall k | 0 <= k < spp
      ensures slice[k] == parts[k]
    {
      ChunksAt(page, ss, spp, k);
      assert slice[k] == d[id * spp + k];
    }
    assert slice == parts;
    ConcatChunks(page, ss, spp);
  }

  /** Writing one slot leaves every other slot's bytes as they were. */
  lemma {:induction false} WriteLeavesOtherSlots(disk: seq<Sector>, id: nat, j: nat, spp: nat, ss: nat, page: seq<byte>)
    requires id * spp + spp <= |disk| && j * spp + spp <= |disk| && |page| == spp * ss
    requires j != id
    ensures ReadSlot(WriteSlot(disk, id, spp, ss, page, spp), j, spp) == ReadSlot(disk, j, spp)
  {
    var d := WriteSlot(disk, id, spp, ss, page, spp);
    if j < id {
      SlotsDisjoint(j, id, spp);
    } else {
      SlotsDisjoint(id, j, spp);
    }
    assert d[j * spp .. j * spp + spp] == disk[j * spp .. j * spp + spp];
  }

  // ---------------------------------------------------------------------
  // The code as written, for the two defects it has (see README, Findings)

  /**
   * The slot swap_out as written writes into and returns: its scan stops at
   * the first free entry, and when there is none the cursor is left on the
   * last entry, so that one is used. (An empty list leaves the cursor
   * uninitialised; that case is excluded.)
   */
  function SwapOutSlotAsWritten(slots: seq<Ste>): (i: nat)
    requires |slots| > 0
    ensures i < |slots|
    ensures slots[i].isFree ==> forall j | 0 <= j < i :: !slots[j].isFree
    ensures !slots[i].isFree ==> i == |slots| - 1 && forall j | 0 <= j < |slots| :: !slots[j].isFree
  {
    var f := FirstFree(slots);
    if f >= 0 then f else |slots| - 1
  }

  /** As written, swap_out never reports a full table: when every slot is occupied it writes over the last one. */
  lemma SwapOutAsWrittenOverwritesWhenFull(slots: seq<Ste>)
    requires |slots| > 0
    requires forall j | 0 <= j < |slots| :: !slots[j].isFree
    ensures SwapOutSlotAsWritten(slots) == |slots| - 1
    ensures !slots[SwapOutSlotAsWritten(slots)].isFree
  {
  }

  /**
   * The entry swap_in as written acts on: the first whose id is `index`, or,
   * when none matches, the last entry, where the search loop leaves its cursor.
   */
  function SwapInSlotAsWritten(slots: seq<Ste>, index: nat): (i: nat)
    requires |slots| > 0
    ensures i < |slots|
    ensures slots[i].id == index ==> forall j | 0 <= j < i :: slots[j].id != index
    ensures slots[i].id != index ==> i == |slots| - 1 && forall j | 0 <= j < |slots| :: slots[j].id != index
  {
    var f := FindId(slots, index);
    if f >= 0 then f else |slots| - 1
  }

  /**
   * As written, swap_in with an index past the end of the table is accepted
   * whenever the last slot is occupied: it reads sectors index*spp onward,
   * beyond every slot, and frees the last slot instead of failing.
   */
  lemma SwapInAsWrittenOutOfRange(slots: seq<Ste>, index: nat, spp: nat)
    requires |slots| > 0 && spp > 0
    requires forall j | 0 <= j < |slots| :: slots[j].id == j
    requires index >= |slots| && !slots[|slots| - 1].isFree
    ensures SwapInSlotAsWritten(slots, index) == |slots| - 1 != index
    ensures !slots[SwapInSlotAsWritten(slots, index)].isFree
    ensures index * spp >= |slots| * spp
  {
    assert FindId(slots, index) == -1;
    if index > |slots| {
      SlotsDisjoint(|slots|, index, spp);
    }
  }

  // ---------------------------------------------------------------------
  // The table

  class SwapTable {
    const pageSize: nat
    const sectorSize: nat
    /** Sectors per page: PGSIZE / BLOCK_SECTOR_SIZE. */
    const spp: nat
    /** The swap block device, one entry per sector. */
    const disk: array<Sector>
    /** swap_table: the slot list, in list order. */
    var slots: seq<Ste>

    ghost predicate Valid()
      reads this, disk
    {
      && sectorSize > 0 && spp > 0 && pageSize == spp * sectorSize
      && |slots| * spp <= disk.Length
      && (forall i | 0 <= i < |slots| :: slots[i].id == i)
      && (forall s | 0 <= s < disk.Length :: |disk[s]| == sectorSize)
    }

    /** swap_init: one free slot per whole page that fits on the device, ids 0, 1, ... in order. */
    constructor (disk: array<Sector>, pageSize: nat, sectorSize: nat)
      requires sectorSize > 0 && pageSize > 0 && pageSize % sectorSize == 0
      requires forall s | 0 <= s < disk.Length :: |disk[s]| == sectorSize
      ensures Valid()
      ensures this.disk == disk && this.pageSize == pageSize && this.sectorSize == sectorSize
      ensures spp == pageSize / sectorSize
      ensures |slots| == disk.Length / spp
      ensures forall i | 0 <= i < |slots| :: slots[i] == Ste(i, true)
    {
      this.disk := disk;
      this.pageSize := pageSize;
      this.sectorSize := sectorSize;
      var perPage := pageSize / sectorSize;
      this.spp := perPage;
      var entryNumber := disk.Length / perPage;
      var list: seq<Ste> := [];
      var entryId := 0;
      while entryId < entryNumber
        invariant 0 <= entryId <= entryNumber
        invariant |list| == entryId
        invariant forall i | 0 <= i < entryId :: list[i] == Ste(i, true)
      {
        list := list + [Ste(entryId, true)];
        entryId := entryId + 1;
      }
      slots := list;
    }

    /** block_write: one sector of the device receives sectorSize bytes of buf at offset. */
    method BlockWrite(sector: nat, buf: array<byte>, offset: nat)
      requires sector < disk.Length && offset + sectorSize <= buf.Length
      modifies disk
      ensures disk[..] == old(disk[..])[sector := buf[offset .. offset + sectorSize]]
    {
      disk[sector] := buf[offset .. offset + sectorSize];
    }

    /** block_read: sectorSize bytes of buf at offset receive one sector of the device. */
    method BlockRead(sector: nat, buf: array<byte>, offset: nat)
      requires sector < disk.Length && |disk[sector]| == sectorSize && offset + sectorSize <= buf.Length
      modifies buf
      ensures buf[..] == old(buf[..offset]) + disk[sector] + old(buf[offset + sectorSize ..])
    {
      forall k | 0 <= k < sectorSize {
        buf[offset + k] := disk[sector][k];
      }
    }

    /** swap_out's sector loop: sector k of slot id receives chunk k of the page, for k = 0 .. spp-1. */
    method WritePage(id: nat, page: array<byte>)
      requires Valid() && page.Length == pageSize && id * spp + spp <= disk.Length
      modifies disk
      ensures Valid()
      ensures disk[..] == WriteSlot(old(disk[..]), id, spp, sectorSize, page[..], spp)
    {
      var count := 0;
      while count < spp
        invariant 0 <= count <= spp
        invariant forall s | 0 <= s < disk.Length :: |disk[s]| == sectorSize
        invariant disk[..] == WriteSlot(old(disk[..]), id, spp, sectorSize, page[..], count)
      {
        SlotsDisjoint(count, spp, sectorSize);
        var sector := id * spp + count;
        BlockWrite(sector, page, count * sectorSize);
        assert disk[..] == WriteSlot(old(disk[..]), id, spp, sectorSize, page[..], count + 1);
        count := count + 1;
      }
    }

    /** swap_in's sector loop: the page receives sectors 0 .. spp-1 of slot index, in order. */
    method ReadPage(index: nat, page: array<byte>)
      requires Valid() && page.Length == pageSize && index * spp + spp <= disk.Length
      modifies page
      ensures page[..] == ReadSlot(disk[..], index, spp)
    {
      var count := 0;
      while count < spp
        invariant 0 <= count <= spp
        invariant count * sectorSize <= page.Length
        invariant page[..count * sectorSize] == Concat(disk[index * spp .. index * spp + count])
      {
        SlotsDisjoint(count, spp, sectorSize);
        var sector := index * spp + count;
        var offset := count * sectorSize;
        ghost var before := page[..offset];
        BlockRead(sector, page, offset);
        assert page[..offset + sectorSize] == before + disk[sector];
        assert disk[index * spp .. sector + 1] == disk[index * spp .. sector] + [disk[sector]];
        ConcatAppend(disk[index * spp .. sector], disk[sector]);
        MulSucc(count, sectorSize);
        count := count + 1;
      }
      assert page[..] == page[..spp * sectorSize];
    }

    /**
     * swap_out: writes the page into the lowest free slot, marks it occupied
     * and returns its id; returns -1 without writing when no slot is free.
     * A page that is not a user address ends the process (exited) first.
     */
    method SwapOut(page: array<byte>, userPage: bool) returns (exited: bool, id: int)
      requires Valid() && page.Length == pageSize
      modifies this`slots, disk
      ensures Valid()
      ensures exited == !userPage
      ensures exited ==> slots == old(slots) && disk[..] == old(disk[..])
      ensures !exited && FirstFree(old(slots)) == -1 ==>
        id == -1 && slots == old(slots) && disk[..] == old(disk[..])
      ensures !exited && FirstFree(old(slots)) >= 0 ==>
        && id == FirstFree(old(slots))
        && slots == old(slots)[id := Ste(id, false)]
        && id * spp + spp <= disk.Length
        && disk[..] == WriteSlot(old(disk[..]), id, spp, sectorSize, page[..], spp)
    {
      if !userPage {
        return true, -1;
      }
      var i := 0;
      while i < |slots| && !slots[i].isFree
        invariant 0 <= i <= |slots|
        invariant forall j | 0 <= j < i :: !slots[j].isFree
      {
        i := i + 1;
      }
      if i == |slots| {
        return false, -1;
      }
      var entryId := slots[i].id;
      SlotInDisk(entryId, |slots|, spp, disk.Length);
      WritePage(entryId, page);
      slots := slots[i := Ste(entryId, false)];
      return false, entryId;
    }

    /**
     * swap_in: reads occupied slot `index` back into the page and frees the
     * slot. A page that is not a user address, an index with no slot, or a
     * free slot ends the process (exited) with nothing read or changed.
     */
    method SwapIn(index: nat, page: array<byte>, userPage: bool) returns (exited: bool)
      requires Valid() && page.Length == pageSize
      modifies this`slots, page
      ensures Valid()
      ensures exited == !(userPage && index < |old(slots)| && !old(slots)[index].isFree)
      ensures exited ==> slots == old(slots) && page[..] == old(page[..])
      ensures !exited ==>
        && slots == old(slots)[index := Ste(index, true)]
        && index * spp + spp <= disk.Length
        && page[..] == ReadSlot(disk[..], index, spp)
    {
      if !userPage {
        return true;
      }
      var i := 0;
      while i < |slots| && slots[i].id != index
        invariant 0 <= i <= |slots|
        invariant forall j | 0 <= j < i :: slots[j].id != index
      {
        i := i + 1;
      }
      if i == |slots| || slots[i].isFree {
        return true;
      }
      SlotInDisk(index, |slots|, spp, disk.Length);
      ReadPage(index, page);
      slots := slots[i := Ste(index, true)];
      return false;
    }

    /** swap_destroy: marks slot `index` free and changes nothing else. */
    method SwapDestroy(index: nat)
      requires Valid()
      modifies this`slots
      ensures Valid()
      ensures slots == if index < |old(slots)| then old(slots)[index := Ste(index, true)] else old(slots)
    {
      var i := 0;
      while i < |slots|
        invariant 0 <= i <= |slots| == |old(slots)|
        invariant forall j | 0 <= j < |slots| :: slots[j].id == j
        invariant forall j | 0 <= j < i :: slots[j] == if j == index then Ste(j, true) else old(slots)[j]
        invariant forall j | i <= j < |slots| :: slots[j] == old(slots)[j]
      {
        if slots[i].id == index {
          slots := slots[i := Ste(slots[i].id, true)];
        }
        i := i + 1;
      }
    }

    /** swap_free: removes every entry of the table. */
    method SwapFree()
      requires Valid()
      modifies this`slots
      ensures Valid()
      ensures slots == []
    {
      while slots != []
        invariant |slots| <= |old(slots)| && slots == old(slots)[|old(slots)| - |slots| ..]
        decreases |slots|
      {
        slots := slots[1..];
      }
    }
  }

  /**
   * A page swapped out and then swapped in again, with nothing in between,
   * comes back byte for byte, and the table is as it was before.
   */
  method SwapRoundTrip(t: SwapTable, p: array<byte>, q: array<byte>) returns (id: int)
    requires t.Valid() && p.Length == t.pageSize && q.Length == t.pageSize
    modifies t`slots, t.disk, q
    ensures t.Valid()
    ensures id == FirstFree(old(t.slots))
    ensures id >= 0 ==> q[..] == old(p[..]) && t.slots == old(t.slots)
  {
    var exited;
    exited, id := t.SwapOut(p, true);
    if id >= 0 {
      ghost var written := p[..];
      ReadAfterWrite(old(t.disk[..]), id, t.spp, t.sectorSize, written);
      exited := t.SwapIn(id, q, true);
      assert t.slots == old(t.slots)[id := Ste(id, true)];
    }
  }
}
