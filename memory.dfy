/** The part of the address space the allocator relies on to recover what kind
    of memory a pointer belongs to. Addresses are naturals; 0 is the null
    pointer. Every 2 MiB boundary below an object handed out holds a record
    whose first word is an `AllocType` tag: a slag page stamped by the page
    allocator, or the `AllocInfo` of a large allocation. */
module Memory {
  import opened Arith

  /** `AllocType`: the tag at the start of every 2 MiB page holding allocator
      memory. */
  datatype AllocType = SmallSlag | BigSlag | Large

  /** The record at a 2 MiB boundary, read as `large_alloc::AllocInfo`: the tag,
      then the base and the length of a large allocation's region. In a page
      of slags the two words after the tag belong to the slag and carry no
      meaning here. */
  datatype AllocInfo = AllocInfo(ty: AllocType, base: nat, regionSize: nat)

  /** `round_to_page`: the pointer with its low 21 bits cleared, the 2 MiB
      boundary at or below it. */
  function RoundToPage(a: nat): (r: nat)
    ensures r % PAGE_SIZE == 0
    ensures r <= a < r + PAGE_SIZE
  {
    Split2M(a / PAGE_SIZE, 0);
    a - a % PAGE_SIZE
  }

  /** The boundary `get_type` reads for `item`: the one at or below the byte
      just before it, so that an object ending a 2 MiB page and an object
      starting one past a header both find the header below them. */
  function HeaderOf(item: nat): (h: nat)
    requires item >= 1
    ensures h % PAGE_SIZE == 0
    ensures h < item <= h + PAGE_SIZE
  {
    RoundToPage(item - 1)
  }

  /** `Slag::find(item, page_size)`: the start of the page of `pageSize` bytes,
      aligned to its size, that holds `item` (the pointer rounded down to a
      multiple of the page size). */
  function SlagBase(item: nat, pageSize: nat): (r: nat)
    requires pageSize > 0
    ensures r == (item / pageSize) * pageSize
    ensures r <= item < r + pageSize
  {
    item - item % pageSize
  }

  /** The page size of the page allocator that carves slags of kind `ty`:
      small slags come from 256 KiB pages, big slags from 2 MiB pages. */
  function SlagPageSize(ty: AllocType): nat {
    if ty == BigSlag then PAGE_SIZE else SMALL_PAGE_SIZE
  }

  /** The kind of slag `new_internal` gives a class built for `size` bytes:
      small slags below the 64 KiB cutoff, big slags from it on. */
  function SlagKind(size: nat): (ty: AllocType)
    ensures ty != Large
    ensures ty == SmallSlag <==> size < SMALL_CUTOFF
  {
    if size < SMALL_CUTOFF then SmallSlag else BigSlag
  }

  /** The state of memory: the records at 2 MiB boundaries, the object size
      recorded in each slag's metadata (by slag start), the regions mapped for
      large allocations (by base, with their mapped length), and, as a
      specification device, the objects handed out and not yet freed, with the
      kind of memory each came from. */
  class AddressSpace {
    var headers: map<nat, AllocInfo>
    var slags: map<nat, nat>
    var regions: map<nat, nat>
    ghost var live: map<nat, AllocType>

    /** What the allocator arranges for every object it hands out: the record
        below it carries the object's kind; objects that are not in small
        slags are aligned to the 64 KiB cutoff; a slag object lies in a slag
        whose metadata is recorded; a large object is 2 MiB past the base of
        its own mapped region, which its record describes. */
    ghost predicate LiveObject(p: nat)
      reads this
      requires p in live
    {
      && p >= 1
      && HeaderOf(p) in headers
      && headers[HeaderOf(p)].ty == live[p]
      && (live[p] != SmallSlag ==> p % SMALL_CUTOFF == 0)
      && (live[p] != Large ==> SlagBase(p, SlagPageSize(live[p])) in slags)
      && (live[p] == Large ==>
            var info := headers[HeaderOf(p)];
            && info.base + PAGE_SIZE == p
            && info.regionSize >= PAGE_SIZE
            && info.base in regions
            && info.regionSize <= regions[info.base])
    }

    ghost predicate WellFormed()
      reads this
    {
      forall p :: p in live ==> LiveObject(p)
    }

    /** `get_type`: the tag in the record at the 2 MiB boundary below
        `item - 1`. */
    function GetType(item: nat): (t: AllocType)
      reads this
      requires item >= 1 && HeaderOf(item) in headers
      ensures WellFormed() && item in live ==> t == live[item]
    {
      headers[HeaderOf(item)].ty
    }

    /** `get_type` of an object handed out is the kind of memory it came
        from. */
    lemma GetTypeOfLive(p: nat)
      requires WellFormed() && p in live
      ensures p >= 1 && HeaderOf(p) in headers
      ensures GetType(p) == live[p]
    {
      assert LiveObject(p);
    }

    /** The `len` bytes from `base` hold no record, no object handed out and
        no part of another large region: what a fresh mapping from the
        operating system guarantees. */
    ghost predicate Unused(base: nat, len: nat)
      reads this
    {
      && (forall a :: a in headers ==> !(base <= a < base + len))
      && (forall p :: p in live ==> !(base <= p < base + len))
      && base !in regions
      && (forall b :: b in regions ==> b + regions[b] <= base || base + len <= b)
    }
  }
}
