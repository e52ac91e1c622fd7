/** The size-class maps of `general.rs`: `Multiples` (classes 16 bytes apart),
    `PowersOfTwo` (power-of-two classes) and `TieredSizeClasses` (a word-sized
    class, then multiples of 16, then powers of two). A class is an object
    allocator built for one size; the model keeps only that size, so each map
    is an array holding the size each class was built for. */
module SizeClasses {
  import opened Arith

  /** An array of size classes whose sizes are multiples of 16. */
  class Multiples {
    const startingSize: nat
    const maxSize: nat
    /** The size each class was built for, in index order. */
    const classes: array<nat>

    ghost predicate Valid()
      reads classes
    {
      && classes.Length >= 1
      && startingSize % MULTIPLE == 0
      && (forall i :: 0 <= i < classes.Length ==> classes[i] == startingSize + MULTIPLE * i)
      && maxSize == classes[classes.Length - 1]
    }

    /** No class is built for more than `max_size`. */
    lemma ClassesUpToMax(i: nat)
      requires Valid() && i < classes.Length
      ensures classes[i] <= maxSize
    {
      var l := classes.Length;
      assert classes[i] == startingSize + MULTIPLE * i;
      assert classes[l - 1] == startingSize + MULTIPLE * (l - 1);
    }

    /** `init_conserve`: class `i` is built for `round_up(start) + 16 * i`. */
    constructor InitConserve(start: nat, nClasses: nat)
      requires nClasses >= 1
      ensures Valid() && fresh(classes)
      ensures classes.Length == nClasses && startingSize == RoundUp(start)
      ensures maxSize == MultiplesMaxKey(start, nClasses)
    {
      var first := RoundUp(start);
      var max := nClasses * MULTIPLE + first - MULTIPLE;
      var a := new nat[nClasses];
      var curSize := first;
      for p := 0 to nClasses
        invariant curSize == first + MULTIPLE * p
        invariant forall i :: 0 <= i < p ==> a[i] == first + MULTIPLE * i
      {
        a[p] := curSize;
        curSize := curSize + MULTIPLE;
      }
      // the debug assertion after the loop: the last class is `max_size`
      assert max == curSize - MULTIPLE;
      startingSize, maxSize, classes := first, max, a;
    }

    /** `get_raw`: the index of the class serving `n`. The subtraction must not
        underflow and the class must exist (the debug assertion). The class
        chosen is the smallest that holds `n`: it is `round_up(n)` itself. */
    function GetRaw(n: nat): (i: nat)
      reads classes
      requires Valid()
      requires startingSize <= RoundUp(n) <= maxSize
      ensures i < classes.Length
      ensures classes[i] == RoundUp(n) && n <= classes[i]
      ensures i == 0 || classes[i - 1] < n
    {
      (RoundUp(n) - startingSize) / MULTIPLE
    }

    /** The largest class is a multiple of 16 and no smaller than the first. */
    lemma MaxSizeAligned()
      requires Valid()
      ensures maxSize % MULTIPLE == 0 && startingSize <= maxSize
    {
      var l := classes.Length;
      assert classes[l - 1] == startingSize + MULTIPLE * (l - 1);
    }

    /** A larger request never selects an earlier class. */
    lemma GetRawMonotone(m: nat, n: nat)
      requires Valid()
      requires startingSize <= RoundUp(m) && RoundUp(n) <= maxSize && m <= n
      ensures GetRaw(m) <= GetRaw(n)
    {
      RoundUpMonotone(m, n);
    }

    /** Looking up a class by its own size finds that class, which is what
        `clone` relies on when it rebuilds the array from `self.get(size)`. */
    lemma GetRawOfClassSize(i: nat)
      requires Valid() && i < classes.Length
      ensures startingSize <= RoundUp(classes[i]) <= maxSize
      ensures GetRaw(classes[i]) == i
    {
      RoundUpIdempotent(classes[i]);
    }

    /** `clone`: rebuilds the map from its starting size and class count. */
    method Clone() returns (c: Multiples)
      requires Valid()
      ensures fresh(c) && fresh(c.classes) && c.Valid()
      ensures c.startingSize == startingSize && c.maxSize == maxSize
      ensures c.classes[..] == classes[..]
    {
      RoundUpIdempotent(startingSize);
      c := new Multiples.InitConserve(startingSize, classes.Length);
      assert forall i :: 0 <= i < classes.Length ==> c.classes[i] == classes[i];
    }
  }

  /** `max_size` of `Multiples::init_conserve(start, nClasses)`. */
  function MultiplesMaxKey(start: nat, nClasses: nat): nat
    requires nClasses >= 1
  {
    RoundUp(start) + MULTIPLE * (nClasses - 1)
  }

  /** An array of size classes whose sizes are the powers of two. */
  class PowersOfTwo {
    const startingSize: nat
    const maxSize: nat
    /** The size each class was built for, in index order. */
    const classes: array<nat>

    /** The base-2 logarithm of `startingSize`, as `trailing_zeros` gives it. */
    function StartLog(): nat
      requires startingSize > 0
    {
      TrailingZeros(startingSize)
    }

    ghost predicate Valid()
      reads classes
    {
      && startingSize > 0
      && startingSize == Pow2(StartLog())
      && (forall i :: 0 <= i < classes.Length ==> classes[i] == Pow2(StartLog() + i))
      && maxSize == Pow2(StartLog() + classes.Length) / 2
    }

    /** `new` then `init_conserve`: the first class is `start.next_power_of_two()`,
        each further class doubles it, and `max_size` is half the size
        after the last. */
    constructor InitConserve(start: nat, nClasses: nat)
      ensures Valid() && fresh(classes)
      ensures classes.Length == nClasses && startingSize == NextPowerOfTwo(start)
      ensures maxSize == PowersOfTwoMaxKey(start, nClasses)
    {
      var first := NextPowerOfTwo(start);
      var e := CeilLog2(start);
      TrailingZerosPow2(e);
      var a := new nat[nClasses];
      var curSize := first;
      for p := 0 to nClasses
        invariant curSize == Pow2(e + p)
        invariant forall i :: 0 <= i < p ==> a[i] == Pow2(e + i)
      {
        a[p] := curSize;
        curSize := curSize * 2;
      }
      startingSize, classes := first, a;
      maxSize := curSize / 2;
    }

    /** With at least one class, `max_size` is the size of the last one, and
        no class is larger. */
    lemma MaxSizeIsLastClass()
      requires Valid() && classes.Length >= 1
      ensures maxSize == classes[classes.Length - 1]
      ensures forall i :: 0 <= i < classes.Length ==> classes[i] <= maxSize
    {
      var l := classes.Length;
      assert Pow2(StartLog() + l) == 2 * Pow2(StartLog() + l - 1);
      forall i | 0 <= i < l
        ensures classes[i] <= maxSize
      {
        Pow2Monotone(StartLog() + i, StartLog() + l - 1);
      }
    }

    /** The facts behind `get_raw`'s index `log2(k.next_power_of_two()) -
        log2(starting_size)`. */
    lemma GetRawIndex(k: nat)
      requires Valid() && classes.Length >= 1
      requires k <= maxSize && startingSize <= NextPowerOfTwo(k)
      ensures StartLog() <= TrailingZeros(NextPowerOfTwo(k))
      ensures var i := TrailingZeros(NextPowerOfTwo(k)) - StartLog();
              && i < classes.Length
              && classes[i] == NextPowerOfTwo(k)
              && (i == 0 || classes[i - 1] < k)
    {
      var s := StartLog();
      var c := CeilLog2(k);
      TrailingZerosPow2(c);
      Pow2Monotone(s, c);
      var l := classes.Length;
      MaxSizeIsLastClass();
      Pow2IsPowerOfTwo(s + l - 1);
      NextPowerOfTwoLeast(k, maxSize);
      Pow2Monotone(c, s + l - 1);
    }

    /** `get_raw`: the class index is `log2(k.next_power_of_two()) -
        log2(starting_size)`, computed with trailing zeros. `k` must not exceed
        `max_size` (the first debug assertion) and the subtraction must not
        underflow; the index is then in bounds (the second debug assertion),
        and the class chosen is the smallest that holds `k`. */
    function GetRaw(k: nat): (i: nat)
      reads classes
      requires Valid() && classes.Length >= 1
      requires k <= maxSize
      requires startingSize <= NextPowerOfTwo(k)
      ensures i < classes.Length
      ensures classes[i] == NextPowerOfTwo(k) && k <= classes[i]
      ensures i == 0 || classes[i - 1] < k
    {
      GetRawIndex(k);
      TrailingZeros(NextPowerOfTwo(k)) - TrailingZeros(startingSize)
    }

    /** A larger request never selects an earlier class. */
    lemma GetRawMonotone(m: nat, n: nat)
      requires Valid() && classes.Length >= 1
      requires n <= maxSize && startingSize <= NextPowerOfTwo(m) && m <= n
      ensures startingSize <= NextPowerOfTwo(n)
      ensures GetRaw(m) <= GetRaw(n)
    {
      NextPowerOfTwoMonotone(m, n);
      var a, b := GetRaw(m), GetRaw(n);
      if a > b {
        Pow2Monotone(StartLog() + b, StartLog() + a);
      }
    }

    /** Looking up a class by its own size finds that class. */
    lemma GetRawOfClassSize(i: nat)
      requires Valid() && i < classes.Length
      ensures classes[i] <= maxSize && startingSize <= NextPowerOfTwo(classes[i])
      ensures GetRaw(classes[i]) == i
    {
      MaxSizeIsLastClass();
      var s := StartLog();
      Pow2IsPowerOfTwo(s + i);
      NextPowerOfTwoIdempotent(classes[i]);
      Pow2Monotone(s, s + i);
      // the class found has the same size, and sizes determine classes
      var j := GetRaw(classes[i]);
      Pow2Monotone(s + i, s + j);
    }

    /** `clone`: rebuilds the map from its starting size and class count. */
    method Clone() returns (c: PowersOfTwo)
      requires Valid()
      ensures fresh(c) && fresh(c.classes) && c.Valid()
      ensures c.startingSize == startingSize && c.maxSize == maxSize
      ensures c.classes[..] == classes[..]
    {
      TrailingZerosPow2(StartLog());
      Pow2IsPowerOfTwo(StartLog());
      NextPowerOfTwoIdempotent(startingSize);
      c := new PowersOfTwo.InitConserve(startingSize, classes.Length);
      assert forall i :: 0 <= i < classes.Length ==> c.classes[i] == classes[i];
    }
  }

  /** `max_size` of `PowersOfTwo::init_conserve(start, nClasses)`: half the
      power of two `nClasses` doublings above the first class. */
  function PowersOfTwoMaxKey(start: nat, nClasses: nat): nat {
    Pow2(CeilLog2(start) + nClasses) / 2
  }

  /** A class of the tiered map: the word-sized class, or an index into the
      small or the medium array. */
  datatype Class = Word | Small(index: nat) | Medium(index: nat)

  /** `TieredSizeClasses` in the default configuration, where the word-sized
      class is present. */
  class TieredSizeClasses {
    /** The size `word_objs` was built for. */
    const wordClass: nat
    const small: Multiples
    const medium: PowersOfTwo

    ghost predicate Valid()
      reads small.classes, medium.classes
    {
      && small.Valid() && medium.Valid()
      && wordClass == WORD_SIZE
      && small.startingSize <= MULTIPLE
      && medium.startingSize == NextPowerOfTwo(small.maxSize + 1)
      && medium.classes.Length >= 1
    }

    /** `init_conserve`: `min(CUTOFF/16 - start/16, nClasses/2)` small classes
        from `start`, the remaining classes as powers of two from just above
        the largest small class, and the word class built for 8 bytes. */
    constructor InitConserve(start: nat, nClasses: nat)
      requires start <= MULTIPLE && nClasses >= 2
      ensures Valid()
      ensures fresh(small) && fresh(small.classes) && fresh(medium) && fresh(medium.classes)
      ensures small.classes.Length == SmallClassCount(start, nClasses)
      ensures small.classes.Length + medium.classes.Length == nClasses
      ensures small.startingSize == RoundUp(start)
      ensures small.maxSize == MultiplesMaxKey(start, SmallClassCount(start, nClasses))
      ensures MaxKey() == TieredMaxKey(start, nClasses)
    {
      var nSmall := Min(SMALL_CUTOFF / MULTIPLE - start / MULTIPLE, nClasses / 2);
      assert nSmall == SmallClassCount(start, nClasses) && 1 <= nSmall <= nClasses / 2;
      var nMedium := nClasses - nSmall;
      var smallClasses := new Multiples.InitConserve(start, nSmall);
      var mediumClasses := new PowersOfTwo.InitConserve(smallClasses.maxSize + 1, nMedium);
      small, medium := smallClasses, mediumClasses;
      wordClass := WORD_SIZE;
    }

    /** `max_key`: the largest key served, that of the medium tier. */
    function MaxKey(): nat
    {
      medium.maxSize
    }

    /** `max_key` is the size of the last medium class, and no small or
        medium class is built for more. */
    lemma MaxKeyIsLargestClass()
      requires Valid()
      ensures ClassSize(Medium(medium.classes.Length - 1)) == MaxKey()
      ensures forall c :: HasClass(c) && !c.Word? ==> ClassSize(c) <= MaxKey()
    {
      medium.MaxSizeIsLastClass();
      assert small.classes[small.classes.Length - 1] == small.maxSize;
      assert small.maxSize < MaxKey() by {
        assert medium.classes[0] == medium.startingSize;
      }
    }

    /** A class built for at least the 64 KiB cutoff is a medium class, so
        its size is a power of two and a multiple of the cutoff. */
    lemma CutoffClassesArePowersOfTwo(c: Class)
      requires Valid() && small.maxSize < SMALL_CUTOFF
      requires HasClass(c) && SMALL_CUTOFF <= ClassSize(c)
      ensures c.Medium? && IsPowerOfTwo(ClassSize(c)) && ClassSize(c) % SMALL_CUTOFF == 0
    {
      match c
      case Word =>
      case Small(i) =>
        small.ClassesUpToMax(i);
      case Medium(i) =>
        var e := medium.StartLog() + i;
        Pow2IsPowerOfTwo(e);
        Pow2Cutoff(e);
    }

    predicate HasClass(c: Class)
      reads small.classes, medium.classes
    {
      match c
      case Word => true
      case Small(i) => i < small.classes.Length
      case Medium(i) => i < medium.classes.Length
    }

    /** The size class `c` was built for. */
    function ClassSize(c: Class): nat
      reads small.classes, medium.classes
      requires HasClass(c)
    {
      match c
      case Word => wordClass
      case Small(i) => small.classes[i]
      case Medium(i) => medium.classes[i]
    }

    /** The position of `c` in the order `foreach` visits the classes: the
        word class, then the small ones, then the medium ones. */
    function Rank(c: Class): nat
    {
      match c
      case Word => 0
      case Small(i) => 1 + i
      case Medium(i) => 1 + small.classes.Length + i
    }

    /** `get_raw`: requests of at most 8 bytes go to the word class, requests
        up to the small maximum to the small tier, the rest to the medium
        tier, which must hold them. The class found exists and holds the
        request: its size is 8, `round_up(n)` or `n.next_power_of_two()`
        respectively. */
    function GetRaw(n: nat): (c: Class)
      reads small.classes, medium.classes
      requires Valid() && (n <= WORD_SIZE || n <= MaxKey())
      ensures HasClass(c) && n <= ClassSize(c)
      ensures c.Word? <==> n <= WORD_SIZE
      ensures c.Small? <==> WORD_SIZE < n <= small.maxSize
      ensures c.Word? ==> ClassSize(c) == WORD_SIZE
      ensures c.Small? ==> ClassSize(c) == RoundUp(n)
      ensures c.Medium? ==> ClassSize(c) == NextPowerOfTwo(n)
    {
      if n <= WORD_SIZE then
        Word
      else if n <= small.maxSize then
        small.MaxSizeAligned();
        RoundUpLeast(n, small.maxSize);
        Small(small.GetRaw(n))
      else
        assert n <= medium.maxSize;
        NextPowerOfTwoMonotone(small.maxSize + 1, n);
        Medium(medium.GetRaw(n))
    }

    /** A larger request never selects an earlier or a smaller class. */
    lemma GetRawMonotone(m: nat, n: nat)
      requires Valid() && m <= n <= MaxKey()
      ensures Rank(GetRaw(m)) <= Rank(GetRaw(n))
      ensures ClassSize(GetRaw(m)) <= ClassSize(GetRaw(n))
    {
      var a, b := GetRaw(m), GetRaw(n);
      if a.Small? && b.Small? {
        small.GetRawMonotone(m, n);
        RoundUpMonotone(m, n);
      } else if a.Medium? && b.Medium? {
        NextPowerOfTwoMonotone(small.maxSize + 1, m);
        medium.GetRawMonotone(m, n);
        NextPowerOfTwoMonotone(m, n);
      } else if a.Small? && b.Medium? {
        small.MaxSizeAligned();
        assert ClassSize(a) <= small.maxSize;
      }
    }

    /** Looking up the size of the class a request selects finds that class
        again: `free`, which looks a class up by the object size recorded in
        its slag, returns an object to the class that allocated it. */
    lemma GetRawIdempotent(n: nat)
      requires Valid() && (n <= WORD_SIZE || n <= MaxKey())
      ensures ClassSize(GetRaw(n)) <= WORD_SIZE || ClassSize(GetRaw(n)) <= MaxKey()
      ensures GetRaw(ClassSize(GetRaw(n))) == GetRaw(n)
    {
      var c := GetRaw(n);
      match c
      case Word =>
      case Small(i) =>
        small.GetRawOfClassSize(i);
        assert small.classes[small.classes.Length - 1] == small.maxSize;
        assert ClassSize(c) <= small.maxSize < MaxKey() by {
          medium.MaxSizeIsLastClass();
          assert medium.classes[0] == medium.startingSize;
        }
      case Medium(i) =>
        medium.GetRawOfClassSize(i);
    }
  }

  /** The number of small classes `TieredSizeClasses::init_conserve` builds. */
  function SmallClassCount(start: nat, nClasses: nat): nat
    requires start < SMALL_CUTOFF
  {
    Min(SMALL_CUTOFF / MULTIPLE - start / MULTIPLE, nClasses / 2)
  }

  /** `max_key` of `TieredSizeClasses::init_conserve(start, nClasses)`. */
  function TieredMaxKey(start: nat, nClasses: nat): nat
    requires start <= MULTIPLE && nClasses >= 2
  {
    var nSmall := SmallClassCount(start, nClasses);
    PowersOfTwoMaxKey(MultiplesMaxKey(start, nSmall) + 1, nClasses - nSmall)
  }

  /** The table the allocator builds, with `start_from = 8` and `n_classes = 25`:
      the word class of 8 bytes, twelve small classes from 16 to 192 bytes,
      thirteen medium classes from 256 bytes, and a largest key of 1 MiB. */
  lemma DefaultTable()
    ensures SmallClassCount(8, 25) == 12
    ensures MultiplesMaxKey(8, 12) == 192
    ensures NextPowerOfTwo(MultiplesMaxKey(8, 12) + 1) == 256
    ensures TieredMaxKey(8, 25) == 0x10_0000
  {
    RoundUpIdempotent(16);
    assert RoundUp(8) == 16;
    CeilLog2Of193();
    assert Pow2(8) == 256;
    assert Pow2(21) == 0x20_0000;
  }

  /** 193 bytes, one past the largest small class of the default table, need
      eight doublings. */
  lemma CeilLog2Of193()
    ensures CeilLog2(193) == 8
  {
    assert CeilLog2(2) == 1;
    assert CeilLog2(4) == 2;
    assert CeilLog2(7) == 3;
    assert CeilLog2(13) == 4;
    assert CeilLog2(25) == 5;
    assert CeilLog2(49) == 6;
    assert CeilLog2(97) == 7;
  }
}
