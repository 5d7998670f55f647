/**
 * The collaborators the loaders write through, modelled as state: palloc's
 * user pool (the frames not in use), the contents of every physical frame,
 * and the current process's page directory (pagedir_get_page /
 * pagedir_set_page). install_page (userprog/process.c) is the one
 * operation of the core that lives here.
 */
module Memory {
  import opened Bytes
  import opened Vaddr
  import opened Wrappers

  /** A page-directory entry: the frame a user page is mapped to, and whether the user may write it. */
  datatype Mapping = Mapping(frame: nat, writable: bool)

  class AddressSpace {
    /** The page directory: user page address to mapping. */
    var pagedir: map<nat, Mapping>
    /** palloc's user pool: free frames, in the order they are handed out. */
    var pool: seq<nat>
    /** The contents of every physical frame. */
    var mem: map<nat, seq<byte>>

    ghost predicate Valid()
      reads this
    {
      && (forall i | 0 <= i < |pool| :: pool[i] in mem)
      && (forall i, j | 0 <= i < j < |pool| :: pool[i] != pool[j])
      && (forall u | u in pagedir :: pagedir[u].frame in mem && pagedir[u].frame !in pool)
      && (forall f | f in mem :: |mem[f]| == PGSIZE)
    }

    /** The frames that are neither free nor about to be handed out: their contents belong to someone. */
    ghost predicate InUse(f: nat)
      reads this
    {
      f in mem && f !in pool
    }

    /**
     * palloc_get_page (PAL_USER, with PAL_ZERO when `zero`): the next free
     * frame, zero-filled on request, or None when the pool is empty.
     */
    method GetPage(zero: bool) returns (frame: Option<nat>)
      requires Valid()
      modifies this
      ensures Valid()
      ensures pagedir == old(pagedir)
      ensures old(pool) == [] ==> frame == None && pool == [] && mem == old(mem)
      ensures old(pool) != [] ==>
        && frame == Some(old(pool)[0])
        && pool == old(pool)[1..]
        && mem == if zero then old(mem)[old(pool)[0] := Zeros(PGSIZE)] else old(mem)
    {
      if pool == [] {
        return None;
      }
      var f := pool[0];
      pool := pool[1..];
      if zero {
        mem := mem[f := Zeros(PGSIZE)];
      }
      return Some(f);
    }

    /** palloc_free_page: gives an unmapped frame back to the pool. */
    method FreePage(frame: nat)
      requires Valid() && frame in mem && frame !in pool
      requires forall u | u in pagedir :: pagedir[u].frame != frame
      modifies this
      ensures Valid()
      ensures pool == [frame] + old(pool) && mem == old(mem) && pagedir == old(pagedir)
    {
      pool := [frame] + pool;
    }

    /**
     * install_page: maps upage to kpage with the given writability, but only
     * when upage is not already mapped; otherwise the directory is left as it is.
     */
    method InstallPage(upage: nat, kpage: nat, writable: bool) returns (ok: bool)
      requires Valid() && kpage in mem && kpage !in pool
      modifies this
      ensures Valid()
      ensures ok == (upage !in old(pagedir))
      ensures pagedir == if ok then old(pagedir)[upage := Mapping(kpage, writable)] else old(pagedir)
      ensures pool == old(pool) && mem == old(mem)
    {
      ok := upage !in pagedir;
      if ok {
        pagedir := pagedir[upage := Mapping(kpage, writable)];
      }
    }
  }

  /**
   * What the loaders may do to the address space while they run: every
   * mapping already there stays, no frame in use changes its contents, no
   * frame comes or goes, and frames only ever leave the pool.
   */
  ghost predicate Undisturbed(dir0: map<nat, Mapping>, mem0: map<nat, seq<byte>>, pool0: seq<nat>,
                              dir: map<nat, Mapping>, mem: map<nat, seq<byte>>, pool: seq<nat>)
  {
    && (forall u | u in dir0 :: u in dir && dir[u] == dir0[u])
    && mem.Keys == mem0.Keys
    && (forall g | g in mem0 && g !in pool0 :: mem[g] == mem0[g])
    && (forall g | g in pool :: g in pool0)
  }
}
