/** `ElfMalloc`: the general-purpose allocator built from a tiered size-class
    map. Requests up to the largest class go to the class that holds them,
    larger ones to `large_alloc`; `free` and `realloc` recover an object's
    kind and size from the memory around it. */
module General {
  import opened Arith
  import opened SizeClasses
  import opened Memory
  import LargeAlloc

  datatype Option<T> = None | Some(value: T)

  /** A (size, alignment) pair, as `get_layout` returns it. */
  datatype Layout = Layout(size: nat, align: nat)

  /** Where a request or a freed object is sent: a size class, or the
      large-allocation path. */
  datatype Route = ToClass(c: Class) | ToLarge

  /** The layout reported for an object of a slag whose objects are
      `objectSize` bytes: aligned to that size when it is a power of two,
      otherwise to the word size. */
  function SlagObjectLayout(objectSize: nat): Layout {
    Layout(objectSize, if IsPowerOfTwo(objectSize) then objectSize else WORD_SIZE)
  }

  /** `elfmalloc_get_layout(m_block, item)`: for a slag object, the object size
      in the metadata of the slag found with `m_block`'s page size; for a
      large object, its recorded size and the operating system's page. */
  function ElfmallocGetLayout(m: AddressSpace, blockPageSize: nat, item: nat): (r: Layout)
    reads m
    requires item >= 1 && HeaderOf(item) in m.headers && blockPageSize > 0
    requires m.GetType(item) != Large ==> SlagBase(item, blockPageSize) in m.slags
    requires m.GetType(item) == Large ==> m.headers[HeaderOf(item)].regionSize >= PAGE_SIZE
    ensures IsPowerOfTwo(r.align)
    ensures m.GetType(item) != Large ==>
              r.size == m.slags[SlagBase(item, blockPageSize)] && (r.align == r.size || r.align == WORD_SIZE)
    ensures m.GetType(item) == Large ==>
              r.size + PAGE_SIZE == m.headers[HeaderOf(item)].regionSize && r.align == SYSTEM_PAGE_SIZE
  {
    WordAndPageArePowersOfTwo();
    match m.GetType(item)
    case SmallSlag | BigSlag => SlagObjectLayout(m.slags[SlagBase(item, blockPageSize)])
    case Large => Layout(LargeAlloc.GetSize(m, item), SYSTEM_PAGE_SIZE)
  }

  /** `get_layout`: `elfmalloc_get_layout` with the backing memory of the small
      pages for small slags and large objects, and of the large pages for big
      slags. */
  function GetLayout(m: AddressSpace, item: nat): (r: Layout)
    reads m
    requires m.WellFormed() && item in m.live
    ensures r == ElfmallocGetLayout(m, SlagPageSize(m.live[item]), item)
    ensures IsPowerOfTwo(r.align)
  {
    assert m.LiveObject(item);
    ElfmallocGetLayout(m, SlagPageSize(m.GetType(item)), item)
  }

  /** The layout of an object handed out is what the allocator recorded for
      it: the object size of its slag, or the size of its large allocation
      aligned to the operating system's page. */
  lemma LayoutOfLive(m: AddressSpace, item: nat)
    requires m.WellFormed() && item in m.live
    ensures m.live[item] != Large ==>
              GetLayout(m, item) == SlagObjectLayout(m.slags[SlagBase(item, SlagPageSize(m.live[item]))])
    ensures m.live[item] == Large ==>
              GetLayout(m, item) == Layout(m.headers[HeaderOf(item)].regionSize - PAGE_SIZE, SYSTEM_PAGE_SIZE)
  {
    assert m.LiveObject(item);
  }

  /** What freeing an object of kind `kind` at `item` does to the records and
      mappings `h0`, `r0`, giving `h`, `r`: a large object's record is removed
      and its region unmapped; freeing a slag object leaves both alone. */
  ghost predicate Released(h0: map<nat, AllocInfo>, r0: map<nat, nat>,
                           h: map<nat, AllocInfo>, r: map<nat, nat>, kind: AllocType, item: nat)
  {
    if kind != Large then
      h == h0 && r == r0
    else
      && item >= 1 && HeaderOf(item) in h0
      && h == h0 - {HeaderOf(item)}
      && r == r0 - {h0[HeaderOf(item)].base}
  }

  /** What `realloc` does: allocate only (null pointer), free only (zero
      size), keep the object (it already has the size and alignment asked
      for), or move to a new object of `size` bytes, copying `copyLen`. */
  datatype ReallocStep = AllocOnly(size: nat) | FreeOnly | Keep | Move(size: nat, copyLen: nat)

  /** The step `realloc` takes given whether the pointer is null, the new size
      and alignment, and the current layout of the object (consulted only
      when the pointer is not null and the size is not zero). Whatever is
      allocated holds the new size, and is a power of two when the alignment
      asked for exceeds the word size; the object is kept exactly when its
      layout already suffices; a move copies as much of the old object as
      the new one holds. */
  function ReallocPlan(isNull: bool, newSize: nat, newAlignment: nat, current: Layout): (s: ReallocStep)
    ensures isNull <==> s.AllocOnly?
    ensures !isNull && newSize == 0 <==> s == FreeOnly
    ensures s == Keep <==>
              !isNull && newSize != 0 && current.align >= newAlignment && current.size >= newSize
    ensures (s.AllocOnly? || s.Move?) ==> newSize <= s.size
    ensures (s.AllocOnly? || s.Move?) && newAlignment <= WORD_SIZE ==> s.size == newSize
    ensures (s.AllocOnly? || s.Move?) && newAlignment > WORD_SIZE ==>
              s.size == NextPowerOfTwo(newSize)
    ensures s.Move? ==> s.copyLen <= current.size && s.copyLen <= s.size
    ensures s.Move? ==> s.copyLen == current.size || s.copyLen >= newSize
    ensures s.Move? ==> s.copyLen == current.size || s.copyLen == s.size
  {
    if isNull then
      AllocOnly(if newAlignment <= WORD_SIZE then newSize else NextPowerOfTwo(newSize))
    else if newSize == 0 then
      FreeOnly
    else if current.align >= newAlignment && current.size >= newSize then
      Keep
    else
      var size := if newAlignment > WORD_SIZE then NextPowerOfTwo(newSize) else newSize;
      Move(size, Min(current.size, size))
  }

  /** The allocator. Its size-class table is fixed once built; the memory it
      hands objects out of is shared with every other handle. `classOf`
      records, as a specification device, the class that handed out each slag
      object not yet freed. */
  class ElfMalloc {
    const allocs: TieredSizeClasses
    const maxSize: nat
    const startFrom: nat
    const nClasses: nat
    const mem: AddressSpace
    ghost var classOf: map<nat, Class>

    /** The slag object `p` belongs to the class its slag's object size maps
        to, and came from the kind of slag `new_internal` gives that size. */
    ghost predicate Owned(p: nat)
      reads this, mem, allocs.small.classes, allocs.medium.classes
      requires allocs.Valid() && mem.WellFormed()
      requires p in mem.live && mem.live[p] != Large && p in classOf
    {
      assert mem.LiveObject(p);
      var size := mem.slags[SlagBase(p, SlagPageSize(mem.live[p]))];
      && (size <= WORD_SIZE || size <= allocs.MaxKey())
      && mem.live[p] == SlagKind(size)
      && allocs.GetRaw(size) == classOf[p]
    }

    ghost predicate Valid()
      reads this, mem, allocs.small.classes, allocs.medium.classes
    {
      && allocs.Valid()
      && allocs.small.maxSize < SMALL_CUTOFF
      && maxSize == allocs.MaxKey()
      && mem.WellFormed()
      && (forall p :: p in mem.live ==> (mem.live[p] != Large <==> p in classOf))
      && (forall p :: p in classOf ==> p in mem.live && mem.live[p] != Large && Owned(p))
    }

    /** `ElfMalloc::new`: the tiered table from 8 bytes with 25 classes; its
        largest key, 1 MiB, becomes `max_size`. Nothing has been handed out
        yet. */
    constructor (m: AddressSpace)
      requires m.WellFormed() && m.live == map[]
      ensures Valid() && mem == m && classOf == map[]
      ensures startFrom == 8 && nClasses == 25 && maxSize == 0x10_0000
      ensures allocs.small.startingSize == MULTIPLE && allocs.small.maxSize == 192
      ensures allocs.medium.startingSize == 256
    {
      var am := new TieredSizeClasses.InitConserve(8, 25);
      DefaultTable();
      allocs := am;
      maxSize := am.MaxKey();
      startFrom := 8;
      nClasses := 25;
      mem := m;
      classOf := map[];
    }

    /** The path `alloc` takes for `bytes`: the class `get_mut(bytes)` finds
        exactly when `bytes <= max_size`, a class that holds the request. */
    function AllocRoute(bytes: nat): (r: Route)
      reads allocs.small.classes, allocs.medium.classes
      requires allocs.Valid() && maxSize == allocs.MaxKey()
      ensures r.ToLarge? <==> maxSize < bytes
      ensures r.ToClass? ==> allocs.HasClass(r.c) && bytes <= allocs.ClassSize(r.c)
    {
      if bytes <= maxSize then ToClass(allocs.GetRaw(bytes)) else ToLarge
    }

    /** `get_page_size`: a pointer off the 64 KiB cutoff is in a small slag;
        otherwise the tag below it decides: small slag, big slag, or a large
        object, which has no page size. */
    function GetPageSize(item: nat): (r: Option<nat>)
      reads mem
      requires item >= 1
      requires item % SMALL_CUTOFF == 0 ==> HeaderOf(item) in mem.headers
      ensures r.Some? ==> r.value == SMALL_PAGE_SIZE || r.value == PAGE_SIZE
      ensures r.None? ==> item % SMALL_CUTOFF == 0 && mem.GetType(item) == Large
    {
      if item % SMALL_CUTOFF != 0 then
        Some(SMALL_PAGE_SIZE)
      else
        match mem.GetType(item)
        case SmallSlag => Some(SMALL_PAGE_SIZE)
        case BigSlag => Some(PAGE_SIZE)
        case Large => None
    }

    /** The shortcut `get_page_size` takes for unaligned pointers is sound:
        for every object handed out it gives the page size of the slag the
        object lies in, and none exactly for large objects. */
    lemma GetPageSizeCorrect(item: nat)
      requires Valid() && item in mem.live
      ensures item >= 1
      ensures mem.live[item] == Large <==> GetPageSize(item).None?
      ensures mem.live[item] != Large ==> GetPageSize(item) == Some(SlagPageSize(mem.live[item]))
    {
      assert mem.LiveObject(item);
    }

    /** The class that frees a slag object is the one `get_mut` finds for the
        object size recorded in its slag; a large object goes to
        `large_alloc::free`. */
    function FreeRoute(item: nat): (r: Route)
      reads this, mem, allocs.small.classes, allocs.medium.classes
      requires Valid() && item in mem.live
      ensures r.ToLarge? <==> mem.live[item] == Large
      ensures r.ToClass? ==> r.c == classOf[item]
    {
      GetPageSizeCorrect(item);
      match GetPageSize(item)
      case Some(pageSize) =>
        assert Owned(item);
        ToClass(allocs.GetRaw(mem.slags[SlagBase(item, pageSize)]))
      case None => ToLarge
    }

    /** A request served by a size class goes back to that same class when
        freed: the class of its class size is its own class. */
    lemma AllocThenFreeSameClass(bytes: nat)
      requires allocs.Valid() && maxSize == allocs.MaxKey() && bytes <= maxSize
      ensures var c := AllocRoute(bytes).c;
              && (allocs.ClassSize(c) <= WORD_SIZE || allocs.ClassSize(c) <= allocs.MaxKey())
              && allocs.GetRaw(allocs.ClassSize(c)) == c
    {
      allocs.GetRawIdempotent(bytes);
    }

    /** A power-of-two request served by a size class gets an object whose
        layout is aligned to at least the request. */
    lemma PowerOfTwoRequestAligned(bytes: nat)
      requires allocs.Valid() && maxSize == allocs.MaxKey() && bytes <= maxSize
      requires IsPowerOfTwo(bytes)
      ensures bytes <= SlagObjectLayout(allocs.ClassSize(AllocRoute(bytes).c)).align
    {
      var c := AllocRoute(bytes).c;
      match c
      case Word =>
        assert IsPowerOfTwo(8) by {
          assert IsPowerOfTwo(4) by { assert IsPowerOfTwo(2); }
        }
      case Small(_) =>
        var e := PowerOfTwoIsPow2(bytes);
        assert Pow2(3) == 8 && Pow2(4) == 16;
        Pow2Monotone(3, e);
        Pow2Monotone(4, e);
        PowerOfTwoMultiple(bytes);
        RoundUpIdempotent(bytes);
      case Medium(_) =>
        NextPowerOfTwoIdempotent(bytes);
    }

    /** The object the class allocator for `size` hands out: a free slot of a
        slag of the kind `new_internal` gives that size, recording that size,
        and aligned to that size when it is a power of two. */
    ghost predicate SlotReady(obj: nat, size: nat)
      reads mem
    {
      && obj >= 1 && obj !in mem.live
      && HeaderOf(obj) in mem.headers
      && mem.headers[HeaderOf(obj)].ty == SlagKind(size)
      && SlagBase(obj, SlagPageSize(SlagKind(size))) in mem.slags
      && mem.slags[SlagBase(obj, SlagPageSize(SlagKind(size)))] == size
      && (IsPowerOfTwo(size) ==> obj % size == 0)
    }

    /** What `alloc(bytes)` needs from the code it calls: a ready slot `obj`
        of the class for `bytes`, or a fresh 64 KiB-aligned mapping at `base`
        for a large allocation. */
    ghost predicate AllocReady(bytes: nat, obj: nat, base: nat)
      reads this, mem, allocs.small.classes, allocs.medium.classes
      requires allocs.Valid() && maxSize == allocs.MaxKey()
    {
      if bytes <= maxSize then
        SlotReady(obj, allocs.ClassSize(allocs.GetRaw(bytes)))
      else
        && base > 0 && base % SMALL_CUTOFF == 0
        && mem.Unused(base, LargeAlloc.MappedLength(bytes + PAGE_SIZE))
    }

    /** `ObjectAlloc::alloc` of class `c`: the class hands out the ready slot
        `obj`, which from now on belongs to it. */
    method ClassAlloc(c: Class, obj: nat)
      requires Valid() && allocs.HasClass(c)
      requires allocs.ClassSize(c) <= WORD_SIZE || allocs.ClassSize(c) <= allocs.MaxKey()
      requires allocs.GetRaw(allocs.ClassSize(c)) == c
      requires SlotReady(obj, allocs.ClassSize(c))
      modifies this`classOf, mem`live
      ensures Valid()
      ensures classOf == old(classOf)[obj := c]
      ensures mem.live == old(mem.live)[obj := SlagKind(allocs.ClassSize(c))]
      ensures GetLayout(mem, obj) == SlagObjectLayout(allocs.ClassSize(c))
      ensures forall p :: p in old(mem.live) ==> p in mem.live && GetLayout(mem, p) == old(GetLayout(mem, p))
    {
      mem.live := mem.live[obj := SlagKind(allocs.ClassSize(c))];
      classOf := classOf[obj := c];
      OwnersKeptOnClassAlloc(obj);
      LayoutOfLive(mem, obj);
      LayoutsKeptOnAdd();
    }

    /** Handing out the ready slot `obj` to the class recorded for it keeps
        every object well formed and every slag object with its owner; the
        new object is owned by that class. */
    twostate lemma OwnersKeptOnClassAlloc(obj: nat)
      requires old(Valid()) && unchanged(allocs.small.classes, allocs.medium.classes)
      requires allocs.Valid() && obj in classOf && allocs.HasClass(classOf[obj])
      requires allocs.ClassSize(classOf[obj]) <= WORD_SIZE || allocs.ClassSize(classOf[obj]) <= allocs.MaxKey()
      requires allocs.GetRaw(allocs.ClassSize(classOf[obj])) == classOf[obj]
      requires var size := allocs.ClassSize(classOf[obj]); old(SlotReady(obj, size))
      requires unchanged(mem`headers, mem`slags, mem`regions)
      requires mem.live == old(mem.live)[obj := SlagKind(allocs.ClassSize(classOf[obj]))]
      requires classOf == old(classOf)[obj := classOf[obj]]
      ensures Valid()
    {
      var size := allocs.ClassSize(classOf[obj]);
      assert old(SlotReady(obj, size));
      if SlagKind(size) == BigSlag {
        // a class at or above the cutoff is a power of two, so its objects lie on the cutoff
        allocs.CutoffClassesArePowersOfTwo(classOf[obj]);
        AlignedToMultipleOfCutoff(obj, size);
      }
      assert mem.WellFormed() by {
        forall p | p in mem.live
          ensures mem.LiveObject(p)
        {
          if p != obj {
            assert old(mem.LiveObject(p));
          }
        }
      }
      assert Owned(obj);
      forall p | p in classOf
        ensures p in mem.live && mem.live[p] != Large && Owned(p)
      {
        if p != obj {
          assert old(Owned(p));
        }
      }
    }

    /** `ObjectAlloc::free`: the class that handed out the slag object `item`
        takes it back. */
    method ClassFree(item: nat)
      requires Valid() && item in classOf
      modifies this`classOf, mem`live
      ensures Valid()
      ensures classOf == old(classOf) - {item}
      ensures mem.live == old(mem.live) - {item}
      ensures forall p :: p in mem.live ==> GetLayout(mem, p) == old(GetLayout(mem, p))
    {
      mem.live := mem.live - {item};
      classOf := classOf - {item};
      assert mem.WellFormed() by {
        forall p | p in mem.live
          ensures mem.LiveObject(p)
        {
          assert old(mem.LiveObject(p));
        }
      }
      forall p | p in classOf
        ensures p in mem.live && mem.live[p] != Large && Owned(p)
      {
        assert old(Owned(p));
      }
      LayoutsKept();
    }

    /** Mapping or unmapping a large object elsewhere leaves every slag object
        with its owner. */
    twostate lemma OwnersKept()
      requires old(Valid()) && mem.WellFormed()
      requires unchanged(this, allocs.small.classes, allocs.medium.classes)
      requires mem.slags == old(mem.slags)
      requires forall p :: p in mem.live ==> p in old(mem.live) || mem.live[p] == Large
      requires forall p :: p in old(mem.live) ==>
                 if old(mem.live[p]) == Large then p !in mem.live || mem.live[p] == Large
                 else p in mem.live && mem.live[p] == old(mem.live[p])
      ensures Valid()
    {
      forall p | p in classOf
        ensures p in mem.live && mem.live[p] != Large && Owned(p)
      {
        assert old(Owned(p));
      }
    }

    /** Removing objects and records leaves the layout of every object still
        handed out as it was. */
    twostate lemma LayoutsKept()
      requires old(mem.WellFormed()) && mem.WellFormed()
      requires mem.slags == old(mem.slags)
      requires forall p :: p in mem.live ==> p in old(mem.live) && mem.live[p] == old(mem.live[p])
      requires forall h :: h in mem.headers ==> h in old(mem.headers) && mem.headers[h] == old(mem.headers[h])
      ensures forall p :: p in mem.live ==> GetLayout(mem, p) == old(GetLayout(mem, p))
    {
      forall p | p in mem.live
        ensures GetLayout(mem, p) == old(GetLayout(mem, p))
      {
        assert old(mem.LiveObject(p));
        assert mem.LiveObject(p);
      }
    }

    /** Adding objects and records leaves the layout of every object already
        handed out as it was. */
    twostate lemma LayoutsKeptOnAdd()
      requires old(mem.WellFormed()) && mem.WellFormed()
      requires mem.slags == old(mem.slags)
      requires forall p :: p in old(mem.live) ==> p in mem.live && mem.live[p] == old(mem.live[p])
      requires forall h :: h in old(mem.headers) ==> h in mem.headers && mem.headers[h] == old(mem.headers[h])
      ensures forall p :: p in old(mem.live) ==> p in mem.live && GetLayout(mem, p) == old(GetLayout(mem, p))
    {
      forall p | p in old(mem.live)
        ensures GetLayout(mem, p) == old(GetLayout(mem, p))
      {
        assert old(mem.LiveObject(p));
        assert mem.LiveObject(p);
      }
    }

    /** The large path of `alloc`: `large_alloc::alloc` maps a fresh region
        at `base` and the new object's layout is the request aligned to the
        operating system's page. */
    method LargeAllocate(bytes: nat, base: nat) returns (item: nat)
      requires Valid() && maxSize < bytes
      requires base > 0 && base % SMALL_CUTOFF == 0
      requires mem.Unused(base, LargeAlloc.MappedLength(bytes + PAGE_SIZE))
      modifies mem
      ensures Valid()
      ensures item == base + PAGE_SIZE && item !in old(mem.live)
      ensures mem.live == old(mem.live)[item := Large]
      ensures mem.headers == old(mem.headers)[HeaderOf(item) := AllocInfo(Large, base, bytes + PAGE_SIZE)]
      ensures mem.regions == old(mem.regions)[base := LargeAlloc.MappedLength(bytes + PAGE_SIZE)]
      ensures mem.slags == old(mem.slags)
      ensures GetLayout(mem, item) == Layout(bytes, SYSTEM_PAGE_SIZE)
      ensures forall p :: p in old(mem.live) ==> p in mem.live && GetLayout(mem, p) == old(GetLayout(mem, p))
    {
      // the request is not empty, so `base + 2 MiB` lies inside the fresh mapping
      assert base + PAGE_SIZE < base + LargeAlloc.MappedLength(bytes + PAGE_SIZE);
      item := LargeAlloc.Alloc(mem, bytes, base);
      OwnersKept();
      LayoutOfLive(mem, item);
      LayoutsKeptOnAdd();
    }

    /** What `alloc` promises of the layout it hands out for `size` bytes:
        room for the request, word alignment, alignment to a power-of-two
        request that a class serves, and a page-aligned exact layout for a
        large request. */
    predicate Serves(l: Layout, size: nat)
    {
      && size <= l.size
      && WORD_SIZE <= l.align
      && (size <= maxSize && IsPowerOfTwo(size) ==> size <= l.align)
      && (maxSize < size ==> l == Layout(size, SYSTEM_PAGE_SIZE))
    }

    /** The records after `alloc(bytes)` with a fresh mapping at `base`: a
        large request writes the record of its region at `base`, the record
        address of `base + 2 MiB`; a class request writes none. */
    function AllocHeaders(h: map<nat, AllocInfo>, bytes: nat, base: nat): map<nat, AllocInfo> {
      if maxSize < bytes then h[HeaderOf(base + PAGE_SIZE) := AllocInfo(Large, base, bytes + PAGE_SIZE)] else h
    }

    /** The mappings after `alloc(bytes)` with a fresh mapping at `base`: a
        large request maps whole 64 KiB pages at `base`; a class request maps
        nothing. */
    function AllocRegions(r: map<nat, nat>, bytes: nat, base: nat): map<nat, nat> {
      if maxSize < bytes then r[base := LargeAlloc.MappedLength(bytes + PAGE_SIZE)] else r
    }

    /** `alloc`: a request up to `max_size` takes a slot from its class,
        anything larger goes to `large_alloc::alloc`. Either way the layout of
        the new object holds the request. */
    method Alloc(bytes: nat, obj: nat, base: nat) returns (item: nat)
      requires Valid() && AllocReady(bytes, obj, base)
      modifies this, mem
      ensures Valid()
      ensures item in mem.live && item !in old(mem.live)
      ensures mem.live == old(mem.live)[item := mem.live[item]]
      ensures bytes <= maxSize ==>
                && item == obj
                && classOf == old(classOf)[obj := allocs.GetRaw(bytes)]
                && mem.live == old(mem.live)[obj := SlagKind(allocs.ClassSize(allocs.GetRaw(bytes)))]
      ensures maxSize < bytes ==>
                && item == base + PAGE_SIZE
                && classOf == old(classOf)
                && mem.live == old(mem.live)[item := Large]
      ensures mem.headers == AllocHeaders(old(mem.headers), bytes, base)
      ensures mem.regions == AllocRegions(old(mem.regions), bytes, base)
      ensures mem.slags == old(mem.slags)
      ensures bytes <= maxSize ==>
                GetLayout(mem, item) == SlagObjectLayout(allocs.ClassSize(allocs.GetRaw(bytes)))
      ensures Serves(GetLayout(mem, item), bytes)
      ensures forall p :: p in old(mem.live) ==> p in mem.live && GetLayout(mem, p) == old(GetLayout(mem, p))
    {
      if bytes <= maxSize {
        var c := allocs.GetRaw(bytes);
        allocs.GetRawIdempotent(bytes);
        if IsPowerOfTwo(bytes) {
          PowerOfTwoRequestAligned(bytes);
        }
        ClassAlloc(c, obj);
        item := obj;
      } else {
        item := LargeAllocate(bytes, base);
        assert mem.headers == AllocHeaders(old(mem.headers), bytes, base);
        assert mem.regions == AllocRegions(old(mem.regions), bytes, base);
      }
    }

    /** The large path of `free`: `large_alloc::free` unmaps the object's
        region and drops its record; every other object keeps its owner and
        its layout. */
    method LargeFree(item: nat)
      requires Valid() && item in mem.live && mem.live[item] == Large
      modifies mem
      ensures Valid()
      ensures item >= 1
      ensures mem.live == old(mem.live) - {item}
      ensures mem.headers == old(mem.headers) - {HeaderOf(item)}
      ensures mem.regions == old(mem.regions) - {old(mem.headers[HeaderOf(item)]).base}
      ensures mem.slags == old(mem.slags)
      ensures forall p :: p in mem.live ==> GetLayout(mem, p) == old(GetLayout(mem, p))
    {
      assert mem.LiveObject(item);
      LargeAlloc.Free(mem, item);
      OwnersKept();
      LayoutsKept();
    }

    /** The release step of `free`: an object whose page size is known goes
        back to the class its slag's object size maps to, any other object to
        `large_alloc::free`, which removes its record and unmaps its region.
        It is no longer handed out and every other object keeps its layout. */
    method Release(item: nat)
      requires Valid() && item in mem.live
      modifies this, mem
      ensures Valid()
      ensures mem.live == old(mem.live) - {item}
      ensures Released(old(mem.headers), old(mem.regions), mem.headers, mem.regions, old(mem.live[item]), item)
      ensures classOf == old(classOf) - {item}
      ensures mem.slags == old(mem.slags)
      ensures forall p :: p in old(mem.live) && p != item ==>
                p in mem.live && GetLayout(mem, p) == old(GetLayout(mem, p))
    {
      GetPageSizeCorrect(item);
      match GetPageSize(item)
      case Some(_) => ClassFree(item);
      case None => LargeFree(item);
    }

    /** `free`: an object whose page size is known is returned to the class
        its slag's object size maps to, which is the class that handed it
        out; a large object goes to `large_alloc::free`. */
    method Free(item: nat) returns (route: Route)
      requires Valid() && item in mem.live
      modifies this, mem
      ensures Valid()
      ensures route == old(FreeRoute(item))
      ensures old(mem.live[item]) != Large ==> route == ToClass(old(classOf[item]))
      ensures mem.live == old(mem.live) - {item}
      ensures Released(old(mem.headers), old(mem.regions), mem.headers, mem.regions, old(mem.live[item]), item)
      ensures classOf == old(classOf) - {item}
      ensures mem.slags == old(mem.slags)
      ensures forall p :: p in mem.live ==> GetLayout(mem, p) == old(GetLayout(mem, p))
    {
      route := FreeRoute(item);
      Release(item);
    }

    /** The layout `realloc` consults for `item`. */
    function CurrentLayout(item: nat, newSize: nat): Layout
      reads mem
      requires mem.WellFormed() && (item == 0 || item in mem.live)
    {
      if item == 0 || newSize == 0 then Layout(0, 0) else GetLayout(mem, item)
    }

    /** The moving path of `realloc`: allocates `size` bytes and frees the
        old object (the caller copies the smaller of the two object sizes in
        between); the layouts of the other objects are left alone. */
    method MoveObject(item: nat, size: nat, obj: nat, base: nat) returns (r: nat)
      requires Valid() && item in mem.live && AllocReady(size, obj, base)
      modifies this, mem
      ensures Valid()
      ensures r in mem.live && r !in old(mem.live) && item !in mem.live
      ensures size <= maxSize ==> r == obj
      ensures maxSize < size ==> r == base + PAGE_SIZE
      ensures mem.live == old(mem.live)[r := mem.live[r]] - {item}
      ensures size <= maxSize ==> classOf == old(classOf)[r := allocs.GetRaw(size)] - {item}
      ensures maxSize < size ==> classOf == old(classOf) - {item}
      ensures Released(AllocHeaders(old(mem.headers), size, base), AllocRegions(old(mem.regions), size, base),
                       mem.headers, mem.regions, old(mem.live[item]), item)
      ensures mem.slags == old(mem.slags)
      ensures Serves(GetLayout(mem, r), size)
      ensures forall p :: p in old(mem.live) && p != item ==>
                p in mem.live && GetLayout(mem, p) == old(GetLayout(mem, p))
    {
      r := Alloc(size, obj, base);
      assert size <= maxSize ==> r == obj;
      assert maxSize < size ==> r == base + PAGE_SIZE;
      Release(item);
    }

    /** `realloc`: takes the step `ReallocPlan` gives for the object's current
        layout. A new object holds the (possibly rounded) size, so the debug
        assertion after the move holds; when the alignment asked for exceeds
        the word size, a new class object is aligned to that rounded size.
        The copy stays within both objects. */
    method Realloc(item: nat, newSize: nat, newAlignment: nat, obj: nat, base: nat)
      returns (r: nat, step: ReallocStep)
      requires Valid() && (item == 0 || item in mem.live)
      requires var s := ReallocPlan(item == 0, newSize, newAlignment, CurrentLayout(item, newSize));
               s.AllocOnly? || s.Move? ==> AllocReady(s.size, obj, base)
      modifies this, mem
      ensures Valid()
      ensures step == ReallocPlan(item == 0, newSize, newAlignment, old(CurrentLayout(item, newSize)))
      ensures step == FreeOnly ==>
                && r == 0 && mem.live == old(mem.live) - {item} && classOf == old(classOf) - {item}
                && Released(old(mem.headers), old(mem.regions), mem.headers, mem.regions, old(mem.live[item]), item)
                && mem.slags == old(mem.slags)
      ensures step == Keep ==>
                && r == item && mem.live == old(mem.live) && classOf == old(classOf)
                && mem.headers == old(mem.headers) && mem.regions == old(mem.regions)
                && mem.slags == old(mem.slags)
      ensures step.AllocOnly? || step.Move? ==>
                && r in mem.live && r !in old(mem.live)
                && (step.size <= maxSize ==> r == obj)
                && (maxSize < step.size ==> r == base + PAGE_SIZE)
                && Serves(GetLayout(mem, r), step.size)
                && (newAlignment > WORD_SIZE && step.size <= maxSize ==> step.size <= GetLayout(mem, r).align)
      ensures step.AllocOnly? ==>
                && mem.live == old(mem.live)[r := mem.live[r]]
                && (step.size <= maxSize ==> classOf == old(classOf)[r := allocs.GetRaw(step.size)])
                && (maxSize < step.size ==> classOf == old(classOf))
                && mem.headers == AllocHeaders(old(mem.headers), step.size, base)
                && mem.regions == AllocRegions(old(mem.regions), step.size, base)
                && mem.slags == old(mem.slags)
      ensures step.Move? ==>
                && item !in mem.live
                && mem.live == old(mem.live)[r := mem.live[r]] - {item}
                && (step.size <= maxSize ==> classOf == old(classOf)[r := allocs.GetRaw(step.size)] - {item})
                && (maxSize < step.size ==> classOf == old(classOf) - {item})
                && step.copyLen <= GetLayout(mem, r).size
                && step.copyLen <= old(GetLayout(mem, item)).size
                && Released(AllocHeaders(old(mem.headers), step.size, base), AllocRegions(old(mem.regions), step.size, base),
                            mem.headers, mem.regions, old(mem.live[item]), item)
                && mem.slags == old(mem.slags)
      ensures forall p :: p in old(mem.live) && p != item ==>
                p in mem.live && GetLayout(mem, p) == old(GetLayout(mem, p))
    {
      if item == 0 {
        var allocSize := if newAlignment <= WORD_SIZE then newSize else NextPowerOfTwo(newSize);
        r := Alloc(allocSize, obj, base);
        step := AllocOnly(allocSize);
        return;
      }
      if newSize == 0 {
        var _ := Free(item);
        r := 0;
        step := FreeOnly;
        return;
      }
      var current := GetLayout(mem, item);
      if current.align >= newAlignment && current.size >= newSize {
        r := item;
        step := Keep;
        return;
      }
      var size := newSize;
      if newAlignment > WORD_SIZE {
        size := NextPowerOfTwo(size);
      }
      var copyLen := Min(current.size, size);
      r := MoveObject(item, size, obj, base);
      step := Move(size, copyLen);
    }

    /** The layouts the tests expect of the default allocator: 8 bytes get the
        8-byte word class, 24 bytes the 32-byte class, 512 bytes the 512-byte
        class, each aligned to its size, and 4 MiB the large path. */
    lemma DefaultLayoutLookup()
      requires allocs.Valid() && maxSize == allocs.MaxKey() && maxSize == 0x10_0000
      requires allocs.small.maxSize == 192
      ensures AllocRoute(8) == ToClass(Word)
      ensures SlagObjectLayout(allocs.ClassSize(Word)) == Layout(8, 8)
      ensures AllocRoute(24).ToClass? && AllocRoute(24).c.Small?
      ensures SlagObjectLayout(allocs.ClassSize(AllocRoute(24).c)) == Layout(32, 32)
      ensures AllocRoute(512).ToClass? && AllocRoute(512).c.Medium?
      ensures SlagObjectLayout(allocs.ClassSize(AllocRoute(512).c)) == Layout(512, 512)
      ensures AllocRoute(4 * 0x10_0000) == ToLarge
    {
      assert IsPowerOfTwo(8) by {
        assert IsPowerOfTwo(4) by { assert IsPowerOfTwo(2); }
      }
      assert IsPowerOfTwo(32) by { assert IsPowerOfTwo(16) by { assert IsPowerOfTwo(8); } }
      assert RoundUp(24) == 32;
      Pow2IsPowerOfTwo(9);
      assert Pow2(9) == 512 by { assert Pow2(4) == 16; assert Pow2(8) == 256; }
      NextPowerOfTwoIdempotent(512);
    }
  }
}
