/**
 * The argument checks of the kernel side of mmap() and munmap()
 * (POSIX.1-2017, System Interfaces). The address-space operations they
 * delegate to, vm_map_alloc_entry and vm_map_destroy_range, are passed in
 * as functions about which nothing is assumed. Addresses and sizes are
 * 64-bit unsigned words.
 */
module Mmap {

  type uint64 = x: int | 0 <= x < 0x1_0000_0000_0000_0000
  type vaddr = uint64

  /** Conversion to a 64-bit unsigned word. */
  function U64(x: int): uint64 { x % 0x1_0000_0000_0000_0000 }

  const PAGESIZE: nat := 4096
  const EINVAL: int := 22
  const MAP_SHARED: bv32 := 0x0001
  const MAP_PRIVATE: bv32 := 0x0002
  /** (vaddr_t)MAP_FAILED, that is (void *)-1. */
  const MAP_FAILED: vaddr := 0xFFFF_FFFF_FFFF_FFFF

  /** A non-zero error number. */
  type Errno = e: int | e != 0 witness EINVAL

  datatype Option<T> = None | Some(value: T)

  /** What vm_map_alloc_entry yields: the start of the new entry, or its error. */
  datatype AllocResult = Allocated(start: vaddr) | AllocFailed(error: Errno)

  /** vm_map_alloc_entry on the caller's address space: (hint, length, prot, flags). */
  type AllocEntry = (vaddr, uint64, bv32, bv32) -> AllocResult

  /** vm_map_destroy_range on the caller's address space: (start, end) to an error number. */
  type DestroyRange = (vaddr, vaddr) -> int

  predicate PageAligned(x: uint64)
  {
    x % PAGESIZE == 0
  }

  /**
   * roundup(length, PAGESIZE) computed in size_t: the least multiple of
   * PAGESIZE not below `length`, except that a length within a page of the
   * top of the range wraps around to 0.
   */
  function RoundUp(length: uint64): (r: uint64)
    ensures length <= 0x1_0000_0000_0000_0000 - PAGESIZE ==>
              PageAligned(r) && length <= r < length + PAGESIZE
    ensures length <= 0x1_0000_0000_0000_0000 - PAGESIZE ==>
              forall m: uint64 :: PageAligned(m) && length <= m ==> r <= m
    ensures length > 0x1_0000_0000_0000_0000 - PAGESIZE ==> r == 0
  {
    U64(length + (PAGESIZE - 1)) / PAGESIZE * PAGESIZE
  }

  /** Exactly one of MAP_SHARED and MAP_PRIVATE is requested. */
  predicate OneSharingMode(flags: bv32)
  {
    (flags & MAP_SHARED != 0) != (flags & MAP_PRIVATE != 0)
  }

  /** The two comparisons of do_mmap reject exactly the requests for both or neither mode. */
  lemma SharingCheck(flags: bv32)
    ensures var sharing := flags & (MAP_SHARED | MAP_PRIVATE);
            (sharing == MAP_SHARED | MAP_PRIVATE || sharing == 0) <==> !OneSharingMode(flags)
  {
  }

  /** What do_mmap returns, and what it leaves in *addr_p. */
  datatype MmapResult = MmapResult(error: int, addr: vaddr)

  /**
   * do_mmap as a value: rejects a request for both or neither sharing
   * mode, otherwise allocates an entry of the rounded length.
   */
  function Mmap(addr: vaddr, length: uint64, prot: bv32, flags: bv32, alloc: AllocEntry): (r: MmapResult)
    ensures r.error != 0 ==> r.addr == MAP_FAILED
    ensures !OneSharingMode(flags) ==> r == MmapResult(EINVAL, MAP_FAILED)
    ensures r.error == 0 <==>
              OneSharingMode(flags) && alloc(addr, RoundUp(length), prot, flags).Allocated?
    ensures r.error == 0 ==> r.addr == alloc(addr, RoundUp(length), prot, flags).start
    ensures OneSharingMode(flags) && alloc(addr, RoundUp(length), prot, flags).AllocFailed? ==>
              r.error == alloc(addr, RoundUp(length), prot, flags).error
  {
    var sharing := flags & (MAP_SHARED | MAP_PRIVATE);
    SharingCheck(flags);
    if sharing == MAP_SHARED | MAP_PRIVATE then MmapResult(EINVAL, MAP_FAILED)
    else if sharing == 0 then MmapResult(EINVAL, MAP_FAILED)
    else
      match alloc(addr, RoundUp(length), prot, flags)
      case AllocFailed(e) => MmapResult(e, MAP_FAILED)
      case Allocated(start) => MmapResult(0, start)
  }

  /** The caller's variable that do_mmap reads and writes through addr_p. */
  class AddrSlot {
    var value: vaddr
    /** Every value stored through `addr_p`, in order. */
    ghost var stores: seq<vaddr>

    constructor (v: vaddr)
      ensures value == v && stores == []
    {
      value := v;
      stores := [];
    }

    /** `*addr_p = v`. */
    method Store(v: vaddr)
      modifies this
      ensures value == v && stores == old(stores) + [v]
    {
      value := v;
      stores := stores + [v];
    }
  }

  /**
   * do_mmap: take the hint from *addr_p, store MAP_FAILED there before any
   * check, and store the entry's start only once the entry exists.
   */
  method DoMmap(addrP: AddrSlot, length: uint64, uProt: bv32, uFlags: bv32, alloc: AllocEntry)
    returns (error: int)
    modifies addrP
    ensures MmapResult(error, addrP.value) == Mmap(old(addrP.value), length, uProt, uFlags, alloc)
    ensures addrP.stores == old(addrP.stores) + if error == 0 then [MAP_FAILED, addrP.value] else [MAP_FAILED]
  {
    var prot := uProt;
    var flags := uFlags;
    var addr := addrP.value;
    addrP.Store(MAP_FAILED);
    var len := RoundUp(length);

    var sharing := flags & (MAP_SHARED | MAP_PRIVATE);
    if sharing == MAP_SHARED | MAP_PRIVATE {
      return EINVAL;
    }
    if sharing == 0 {
      return EINVAL;
    }

    var ent := alloc(addr, len, prot, flags);
    if ent.AllocFailed? {
      return ent.error;
    }
    var start := ent.start;
    addrP.Store(start);
    return 0;
  }

  /**
   * The checks of do_munmap: the range [start, end) it hands to
   * vm_map_destroy_range, or None when it returns EINVAL instead.
   */
  function UnmapRange(start: vaddr, length: uint64): (r: Option<(vaddr, vaddr)>)
    ensures r.Some? <==> length != 0 && PageAligned(start) && PageAligned(length)
    ensures r.Some? ==> r.value.0 == start
    ensures r.Some? && start + length < 0x1_0000_0000_0000_0000 ==>
              r.value.0 < r.value.1 && r.value.1 - r.value.0 == length && PageAligned(r.value.1)
  {
    if length == 0 then None
    else if !PageAligned(start) || !PageAligned(length) then None
    else Some((start, U64(start + length)))
  }

  /** do_munmap: EINVAL for a rejected range, otherwise whatever destroying it returns. */
  function Munmap(start: vaddr, length: uint64, destroy: DestroyRange): (r: int)
    ensures length == 0 ==> r == EINVAL
    ensures !PageAligned(start) || !PageAligned(length) ==> r == EINVAL
    ensures UnmapRange(start, length).Some? ==>
              r == destroy(start, UnmapRange(start, length).value.1)
  {
    match UnmapRange(start, length)
    case None => EINVAL
    case Some((s, e)) => destroy(s, e)
  }
}
