/** `mod large_alloc`: allocations beyond the largest size class. Each one maps
    a region of the requested size plus one 2 MiB page of padding, in units of
    64 KiB, and returns the address 2 MiB past the region's base; the
    `AllocInfo` record describing the region sits at the 2 MiB boundary below
    the returned address, inside the padding. The mapping itself comes from the
    operating system and is a parameter here. */
module LargeAlloc {
  import opened Arith
  import opened Memory

  /** `n_pages`: the number of 64 KiB pages that hold `regionSize` bytes, the
      quotient plus one more page when there is a remainder: the ceiling of
      the quotient. */
  function PageCount(regionSize: nat): (n: nat)
    ensures regionSize <= n * SMALL_CUTOFF < regionSize + SMALL_CUTOFF
  {
    regionSize / SMALL_CUTOFF + Min(1, regionSize % SMALL_CUTOFF)
  }

  /** The number of bytes `MmapSource::carve(n_pages)` maps for a region:
      whole 64 KiB pages, at least the region and less than a page more. */
  function MappedLength(regionSize: nat): (len: nat)
    ensures len % SMALL_CUTOFF == 0 && len % SYSTEM_PAGE_SIZE == 0
    ensures regionSize <= len < regionSize + SMALL_CUTOFF
  {
    var n := PageCount(regionSize);
    Split64K(n, 0);
    Split4K(16 * n, 0);
    n * SMALL_CUTOFF
  }

  /** The record of a large allocation says nothing was mapped: the early
      return of `free`. */
  predicate NoCommitment(info: AllocInfo) {
    info.regionSize == 0 && info.base == 0
  }

  /** Where `alloc` puts things for a mapping at `base` (aligned to 64 KiB, as
      `MmapSource::new(ELFMALLOC_SMALL_CUTOFF)` guarantees): the result is
      aligned to the cutoff and to the operating system's page (the debug
      assertions), the record at `get_commitment_mut(res)` lies in the
      padding, at least a cutoff below the result, and the `size` bytes from
      the result lie inside the mapping. */
  lemma AllocLayout(size: nat, base: nat)
    requires base % SMALL_CUTOFF == 0
    ensures var res := base + PAGE_SIZE;
            && res % SMALL_CUTOFF == 0
            && base % SYSTEM_PAGE_SIZE == 0 && res % SYSTEM_PAGE_SIZE == 0
            && base <= HeaderOf(res) && HeaderOf(res) + SMALL_CUTOFF <= res
            && res + size <= base + MappedLength(size + PAGE_SIZE)
  {
    CutoffMultiple(base);
    CutoffMultiple(base + PAGE_SIZE);
    HeaderInPadding(base);
  }

  /** A multiple of the cutoff is a multiple of the operating system's page,
      and stays a multiple of the cutoff 2 MiB further on. */
  lemma CutoffMultiple(x: nat)
    requires x % SMALL_CUTOFF == 0
    ensures x % SYSTEM_PAGE_SIZE == 0 && (x + PAGE_SIZE) % SMALL_CUTOFF == 0
  {
    var k := x / 0x1_0000;
    Split4K(16 * k, 0);
    Split64K(k + 32, 0);
  }

  /** The record of a mapping at `base` lies in its padding page, at least a
      cutoff below the address handed out. */
  lemma HeaderInPadding(base: nat)
    requires base % SMALL_CUTOFF == 0
    ensures base <= HeaderOf(base + PAGE_SIZE)
    ensures HeaderOf(base + PAGE_SIZE) + SMALL_CUTOFF <= base + PAGE_SIZE
  {
    // `get_commitment_mut` rounds down the byte before the result, whose
    // remainder modulo 2 MiB is one short of a multiple of 64 KiB
    var y := base + PAGE_SIZE - 1;
    var k, a := base / 0x1_0000, y / 0x20_0000;
    var t := k + 32 - 32 * a;
    assert y % 0x20_0000 == 0x1_0000 * t - 1;
    assert t >= 1;
  }

  /** `get_size`: the region size recorded below `item`, less the padding
      page. For an object 2 MiB past its region's base, the size runs from
      the object to the end of the region. */
  function GetSize(m: AddressSpace, item: nat): (r: nat)
    reads m
    requires item >= 1 && HeaderOf(item) in m.headers
    requires m.headers[HeaderOf(item)].regionSize >= PAGE_SIZE
    ensures r + PAGE_SIZE == m.headers[HeaderOf(item)].regionSize
    ensures var info := m.headers[HeaderOf(item)];
            info.base + PAGE_SIZE == item ==> item + r == info.base + info.regionSize
  {
    m.headers[HeaderOf(item)].regionSize - PAGE_SIZE
  }

  /** `alloc`: maps `n_pages` pages of 64 KiB at `base` (the result of
      `carve`, which must be fresh memory), writes the record of a large
      allocation at `get_commitment_mut(res)` and returns `res`, 2 MiB past
      the base. `get_size` then recovers the requested size. */
  method Alloc(m: AddressSpace, size: nat, base: nat) returns (res: nat)
    requires m.WellFormed()
    requires base > 0 && base % SMALL_CUTOFF == 0
    requires m.Unused(base, MappedLength(size + PAGE_SIZE))
    requires base + PAGE_SIZE !in m.live
    modifies m
    ensures res == base + PAGE_SIZE
    ensures HeaderOf(res) !in old(m.headers)
    ensures m.headers == old(m.headers)[HeaderOf(res) := AllocInfo(Large, base, size + PAGE_SIZE)]
    ensures m.regions == old(m.regions)[base := MappedLength(size + PAGE_SIZE)]
    ensures m.slags == old(m.slags)
    ensures m.live == old(m.live)[res := Large]
    ensures m.WellFormed()
    ensures GetSize(m, res) == size
  {
    var regionSize := size + PAGE_SIZE;
    var nPages := PageCount(regionSize);
    var mem := base;
    res := mem + PAGE_SIZE;
    var addr := HeaderOf(res);
    AllocLayout(size, base);
    m.headers := m.headers[addr := AllocInfo(Large, mem, regionSize)];
    m.regions := m.regions[mem := nPages * SMALL_CUTOFF];
    m.live := m.live[res := Large];
    assert m.LiveObject(res);
  }

  /** `free`, corrected: reads the record below `item`; a record that says
      nothing was mapped is left alone, otherwise the whole mapping `alloc`
      made is returned to the operating system, the record with it. */
  method Free(m: AddressSpace, item: nat)
    requires m.WellFormed()
    requires item >= 1 && HeaderOf(item) in m.headers
    requires (item in m.live && m.live[item] == Large) || NoCommitment(m.headers[HeaderOf(item)])
    modifies m
    ensures m.slags == old(m.slags)
    ensures NoCommitment(old(m.headers[HeaderOf(item)])) ==>
              m.headers == old(m.headers) && m.regions == old(m.regions) && m.live == old(m.live)
    ensures !NoCommitment(old(m.headers[HeaderOf(item)])) ==>
              && m.regions == old(m.regions) - {old(m.headers[HeaderOf(item)]).base}
              && m.headers == old(m.headers) - {HeaderOf(item)}
              && m.live == old(m.live) - {item}
    ensures m.WellFormed()
  {
    var info := m.headers[HeaderOf(item)];
    if info.regionSize == 0 && info.base == 0 {
      return;
    }
    m.regions := m.regions - {info.base};
    m.headers := m.headers - {HeaderOf(item)};
    m.live := m.live - {item};
  }

  /** A large allocation freed again leaves memory as it found it. */
  method AllocThenFree(m: AddressSpace, size: nat, base: nat)
    requires m.WellFormed()
    requires base > 0 && base % SMALL_CUTOFF == 0
    requires m.Unused(base, MappedLength(size + PAGE_SIZE))
    requires base + PAGE_SIZE !in m.live
    modifies m
    ensures m.headers == old(m.headers) && m.regions == old(m.regions)
    ensures m.slags == old(m.slags) && m.live == old(m.live)
  {
    var res := Alloc(m, size, base);
    Free(m, res);
  }

  /** `unmap` with a length that is not a multiple of the operating system's
      page releases the pages the length reaches into: the length rounded up
      to a 4 KiB multiple. */
  function SystemRoundUp(len: nat): (r: nat)
    ensures r % SYSTEM_PAGE_SIZE == 0
    ensures len <= r < len + SYSTEM_PAGE_SIZE
  {
    var y := len + (SYSTEM_PAGE_SIZE - 1);
    Split4K(y / 0x1000, 0);
    y - y % SYSTEM_PAGE_SIZE
  }

  /** `SystemRoundUp(len)` is below every page multiple that holds `len`. */
  lemma SystemRoundUpLeast(len: nat, m: nat)
    requires len <= m && m % SYSTEM_PAGE_SIZE == 0
    ensures SystemRoundUp(len) <= m
  {
    var a, j := (len + 0xfff) / 0x1000, m / 0x1000;
    assert SystemRoundUp(len) == 0x1000 * a && m == 0x1000 * j;
    assert 0x1000 * a <= len + 0xfff < 0x1000 * (j + 1);
  }

  /** The number of bytes `free` as written leaves mapped: it unmaps
      `region_size` bytes from the base, while `alloc` mapped `n_pages` whole
      64 KiB pages. */
  function LeftMappedAsWritten(regionSize: nat): (r: nat)
    ensures r < SMALL_CUTOFF
  {
    var len := MappedLength(regionSize);
    SystemRoundUpLeast(regionSize, len);
    len - SystemRoundUp(regionSize)
  }

  /** `free` as written leaves part of the mapping behind exactly when the
      region ends in the first fifteen 4 KiB pages of its last 64 KiB page. */
  lemma AsWrittenFreeLeaks(regionSize: nat)
    ensures LeftMappedAsWritten(regionSize) > 0 <==> 0 < regionSize % SMALL_CUTOFF <= 0xF000
  {
    var q, s := regionSize / 0x1_0000, regionSize % 0x1_0000;
    var t, u := (s + 0xfff) / 0x1000, (s + 0xfff) % 0x1000;
    Split64K(q, s);
    assert regionSize + 0xfff == (16 * q + t) * 0x1000 + u;
    Split4K(16 * q + t, u);
    assert SystemRoundUp(regionSize) == q * 0x1_0000 + t * 0x1000;
    assert PageCount(regionSize) == q + Min(1, s);
  }

  /** The smallest request that takes the large path by default, 1 MiB + 1
      bytes, leaves fifteen 4 KiB pages of its mapping behind once freed as
      written. */
  lemma AsWrittenFreeLeaksTail()
    ensures PageCount(0x10_0001 + PAGE_SIZE) == 49
    ensures LeftMappedAsWritten(0x10_0001 + PAGE_SIZE) == 61440
  {
    Split64K(48, 1);
    Split4K(769, 0);
  }
}
