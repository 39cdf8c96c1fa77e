/**
 * The process-wide bump allocator: one fixed-size buffer, a cursor that only
 * moves forward, and a deallocation that does nothing. Only the cursor, the
 * buffer's address and its length are modelled, not the bytes themselves.
 */
module Alloc {
  import opened Ints

  const GB: int := 1024 * 1024 * 1024
  /** The buffer length: 1.8 GiB, with the tenth rounded down to a whole byte. */
  const TO_ALLOC: int := GB + GB * 8 / 10
  /** The largest alignment served, and the granule every size is rounded to. */
  const ALIGNMENT: int := 16
  const ISIZE_MAX: int := 0x7FFF_FFFF_FFFF_FFFF
  /**
   * The alignment the buffer's address is guaranteed as declared: that of the
   * allocator struct, whose most aligned field is a usize cell.
   */
  const STRUCT_ALIGN: int := 8

  /**
   * The buffer holds 1_932_735_283 bytes. That is not a multiple of 16, so
   * a cursor kept on 16-byte granules never reaches the last 3 bytes.
   */
  lemma CapacityUnusableTail(offset: usize)
    requires offset % ALIGNMENT == 0 && offset <= TO_ALLOC
    ensures TO_ALLOC == 1_932_735_283
    ensures offset <= TO_ALLOC - 3
  {
  }

  // ---------------------------------------------------------------------------
  // The size computation `(size + 15) & 0usize.wrapping_sub(16)` over integers

  /** Bitwise AND of two naturals, built from the lowest bit up. */
  function BitAnd(a: nat, b: nat): nat
    decreases a
  {
    if a == 0 || b == 0 then 0 else 2 * BitAnd(a / 2, b / 2) + (a % 2) * (b % 2)
  }

  function Pow2(k: nat): nat
  {
    if k == 0 then 1 else 2 * Pow2(k - 1)
  }

  lemma {:induction false} Pow2Add(a: nat, b: nat)
    ensures Pow2(a + b) == Pow2(a) * Pow2(b)
  {
    if b > 0 {
      Pow2Add(a, b - 1);
      assert Pow2(a + b) == 2 * (Pow2(a) * Pow2(b - 1));
    }
  }

  lemma Pow2Sixty()
    ensures Pow2(60) == 0x1000_0000_0000_0000
  {
    assert Pow2(2) == 4;
    assert Pow2(4) == 16;
    Pow2Add(4, 4);
    assert Pow2(8) == 0x100;
    Pow2Add(8, 8);
    assert Pow2(16) == 0x1_0000;
    Pow2Add(16, 16);
    assert Pow2(32) == 0x1_0000_0000;
    Pow2Add(32, 16);
    assert Pow2(48) == 0x1_0000_0000_0000;
    Pow2Add(48, 8);
    assert Pow2(56) == 0x100_0000_0000_0000;
    Pow2Add(56, 4);
  }

  lemma BitAndEvenMask(a: nat, b: nat)
    requires b % 2 == 0
    ensures BitAnd(a, b) == 2 * BitAnd(a / 2, b / 2)
  {
    if a != 0 && b == 0 {
      assert BitAnd(a / 2, 0) == 0;
    }
  }

  /** A mask of k low one-bits leaves every number below 2^k unchanged. */
  lemma {:induction false} BitAndLowOnes(x: nat, k: nat)
    requires x < Pow2(k)
    ensures BitAnd(x, Pow2(k) - 1) == x
  {
    if x > 0 {
      var m := Pow2(k) - 1;
      assert m == 2 * (Pow2(k - 1) - 1) + 1;
      assert m / 2 == Pow2(k - 1) - 1 && m % 2 == 1;
      BitAndLowOnes(x / 2, k - 1);
    }
  }

  /** `0usize.wrapping_sub(n)`: the two's-complement negation of n in 64 bits. */
  function WrappingNeg(n: usize): (r: usize)
    ensures n > 0 ==> r == U64_LIMIT - n
  {
    (0 - n) % U64_LIMIT
  }

  /** Masking with the negation of 16 clears the four low bits: it rounds down to a multiple of 16. */
  lemma ClearLowFour(x: usize)
    ensures BitAnd(x, WrappingNeg(ALIGNMENT)) == x - x % ALIGNMENT
  {
    var m := WrappingNeg(ALIGNMENT);
    var x1, x2, x3, x4 := x / 2, x / 4, x / 8, x / 16;
    assert x1 / 2 == x2 && x2 / 2 == x3 && x3 / 2 == x4;
    BitAndEvenMask(x, m);
    BitAndEvenMask(x1, m / 2);
    BitAndEvenMask(x2, m / 4);
    BitAndEvenMask(x3, m / 8);
    Pow2Sixty();
    BitAndLowOnes(x4, 60);
  }

  /**
   * The size actually reserved for a request: the smallest multiple of 16
   * that is at least the requested size.
   */
  function RoundedSize(size: usize): (r: usize)
    requires size <= ISIZE_MAX
    ensures r % ALIGNMENT == 0
    ensures size <= r < size + ALIGNMENT
  {
    var x := size + (ALIGNMENT - 1);
    ClearLowFour(x);
    RoundUpBounds(size);
    BitAnd(x, WrappingNeg(ALIGNMENT))
  }

  lemma RoundUpBounds(size: nat)
    ensures (size + 15 - (size + 15) % 16) % 16 == 0
    ensures size <= size + 15 - (size + 15) % 16 < size + 16
  {
  }

  // ---------------------------------------------------------------------------
  // Requests and outcomes

  predicate IsPowerOfTwo(n: nat)
  {
    n == 1 || (n >= 2 && n % 2 == 0 && IsPowerOfTwo(n / 2))
  }

  /** A memory request; a well-formed one has a power-of-two alignment and a size that cannot overflow isize once rounded up to it. */
  datatype Layout = Layout(size: usize, align: usize)

  predicate ValidLayout(layout: Layout)
  {
    IsPowerOfTwo(layout.align) && layout.size <= ISIZE_MAX - (layout.align - 1)
  }

  /** The two failed assertions abort the process; they are outcomes here. */
  datatype AbortReason = AlignmentTooLarge | CapacityExceeded

  /** An allocation hands out `size` bytes at address `ptr`. */
  datatype AllocOutcome = Allocated(ptr: nat, size: usize) | Aborted(reason: AbortReason)

  /**
   * One allocation from a buffer at address `base` whose cursor stands at
   * `offset`: check the alignment, round the size, check the capacity, and
   * hand out the bytes at the cursor.
   */
  function AllocStep(base: nat, offset: usize, layout: Layout): (r: AllocOutcome)
    requires ValidLayout(layout)
    requires offset <= TO_ALLOC
    ensures r == Aborted(AlignmentTooLarge) <==> layout.align > ALIGNMENT
    ensures r == Aborted(CapacityExceeded) <==>
              layout.align <= ALIGNMENT && offset + RoundedSize(layout.size) > TO_ALLOC
    ensures r.Allocated? ==>
              r.ptr == base + offset && layout.size <= r.size < layout.size + ALIGNMENT &&
              r.size % ALIGNMENT == 0 && offset + r.size <= TO_ALLOC
  {
    if layout.align > ALIGNMENT then
      Aborted(AlignmentTooLarge)
    else
      var size := RoundedSize(layout.size);
      if size + offset <= TO_ALLOC then Allocated(base + offset, size) else Aborted(CapacityExceeded)
  }

  /** The powers of two up to 16 are 1, 2, 4, 8 and 16. */
  lemma {:induction false} SmallPowersOfTwo(n: nat)
    requires IsPowerOfTwo(n) && n <= ALIGNMENT
    ensures n == 1 || n == 2 || n == 4 || n == 8 || n == 16
  {
    if n != 1 {
      SmallPowersOfTwo(n / 2);
    }
  }

  lemma SixteenDivisors(p: nat)
    requires p % ALIGNMENT == 0
    ensures p % 2 == 0 && p % 4 == 0 && p % 8 == 0
  {
    var k := p / ALIGNMENT;
    assert p == 2 * (8 * k) == 4 * (4 * k) == 8 * (2 * k);
  }

  /** A multiple of 16 is a multiple of every power of two up to 16. */
  lemma MultipleOfAlignment(p: nat, n: nat)
    requires IsPowerOfTwo(n) && n <= ALIGNMENT
    requires p % ALIGNMENT == 0
    ensures p % n == 0
  {
    SmallPowersOfTwo(n);
    SixteenDivisors(p);
  }

  /**
   * With the buffer itself placed on a 16-byte boundary, every pointer handed
   * out satisfies the alignment its request asked for.
   */
  lemma AllocatedPointerAligned(base: nat, offset: usize, layout: Layout)
    requires ValidLayout(layout) && offset <= TO_ALLOC
    requires base % ALIGNMENT == 0 && offset % ALIGNMENT == 0
    requires AllocStep(base, offset, layout).Allocated?
    ensures AllocStep(base, offset, layout).ptr % layout.align == 0
  {
    var r := AllocStep(base, offset, layout);
    assert layout.align <= ALIGNMENT;
    assert r.ptr == base + offset;
    MultipleOfAlignment(base + offset, layout.align);
  }

  /**
   * As declared, the buffer is only guaranteed the allocator struct's own
   * 8-byte alignment: a buffer at address 8 is legal, and the first request
   * for 16 bytes aligned to 16 then receives address 8.
   */
  lemma StructAlignedBufferMisalignsRequest()
    ensures 8 % STRUCT_ALIGN == 0 && ValidLayout(Layout(16, 16))
    ensures AllocStep(8, 0, Layout(16, 16)) == Allocated(8, 16)
    ensures 8 % Layout(16, 16).align != 0
  {
    assert IsPowerOfTwo(16);
  }

  /** A request larger than the bytes left behind the cursor always aborts. */
  lemma RequestBeyondRemainingAborts(base: nat, offset: usize, layout: Layout)
    requires ValidLayout(layout) && offset <= TO_ALLOC
    requires layout.align <= ALIGNMENT
    requires layout.size > TO_ALLOC - offset
    ensures AllocStep(base, offset, layout) == Aborted(CapacityExceeded)
  {
  }

  /** A request that fits in the whole 16-byte granules left behind the cursor succeeds. */
  lemma RequestWithinRemainingSucceeds(base: nat, offset: usize, layout: Layout)
    requires ValidLayout(layout) && offset <= TO_ALLOC
    requires offset % ALIGNMENT == 0
    requires layout.align <= ALIGNMENT
    requires layout.size <= (TO_ALLOC - offset) - (TO_ALLOC - offset) % ALIGNMENT
    ensures AllocStep(base, offset, layout).Allocated?
  {
    var q := (TO_ALLOC - offset) / ALIGNMENT;
    var r := RoundedSize(layout.size);
    assert (TO_ALLOC - offset) - (TO_ALLOC - offset) % ALIGNMENT == ALIGNMENT * q;
    assert r == ALIGNMENT * (r / ALIGNMENT);
    assert r / ALIGNMENT <= q;
  }

  // ---------------------------------------------------------------------------
  // The allocator's history: the regions it has handed out

  /** A region of the buffer, as an offset from its start and a length. */
  datatype Region = Region(start: nat, size: nat)

  /** The regions lie back to back, in order, from offset 0 up to `end`. */
  ghost predicate Tiles(rs: seq<Region>, end: nat)
    decreases |rs|
  {
    if rs == [] then end == 0
    else
      var last := rs[|rs| - 1];
      last.start + last.size == end && Tiles(rs[..|rs| - 1], last.start)
  }

  lemma {:induction false} TiledRegionsBelowEnd(rs: seq<Region>, end: nat, k: nat)
    requires Tiles(rs, end) && k < |rs|
    ensures rs[k].start + rs[k].size <= end
    decreases |rs|
  {
    if k < |rs| - 1 {
      var rs' := rs[..|rs| - 1];
      TiledRegionsBelowEnd(rs', rs[|rs| - 1].start, k);
    }
  }

  /** Regions handed out one after another never overlap. */
  lemma {:induction false} TiledRegionsDisjoint(rs: seq<Region>, end: nat, i: nat, j: nat)
    requires Tiles(rs, end) && i < j < |rs|
    ensures rs[i].start + rs[i].size <= rs[j].start
    decreases |rs|
  {
    var rs' := rs[..|rs| - 1];
    if j == |rs| - 1 {
      TiledRegionsBelowEnd(rs', rs[j].start, i);
    } else {
      TiledRegionsDisjoint(rs', rs[|rs| - 1].start, i, j);
    }
  }

  /** Handing out the region that starts at the cursor moves the cursor past it. */
  lemma TilesExtend(rs: seq<Region>, end: nat, size: nat)
    requires Tiles(rs, end)
    ensures Tiles(rs + [Region(end, size)], end + size)
  {
    assert (rs + [Region(end, size)])[..|rs|] == rs;
  }

  /** Every region starts on, and spans a whole number of, 16-byte granules. */
  ghost predicate Granular(rs: seq<Region>)
  {
    forall i :: 0 <= i < |rs| ==> rs[i].start % ALIGNMENT == 0 && rs[i].size % ALIGNMENT == 0
  }

  /** Issuing a granular region at a granule boundary keeps the cursor on a boundary. */
  lemma GranularExtend(rs: seq<Region>, end: nat, size: nat)
    requires Granular(rs) && end % ALIGNMENT == 0 && size % ALIGNMENT == 0
    ensures Granular(rs + [Region(end, size)])
    ensures (end + size) % ALIGNMENT == 0
  {
    assert end + size == (end / ALIGNMENT + size / ALIGNMENT) * ALIGNMENT;
  }

  class MyAlloc {
    /** The address of the buffer. */
    const base: nat
    var offset: usize
    /** Every region handed out so far, in order. */
    ghost var issued: seq<Region>

    /**
     * The cursor stays a multiple of 16 within the buffer, and the regions
     * handed out, each a whole number of 16-byte granules, fill the buffer
     * from its start up to the cursor.
     */
    ghost predicate Valid()
      reads this
    {
      offset % ALIGNMENT == 0 && offset <= TO_ALLOC &&
      base % ALIGNMENT == 0 &&
      Tiles(issued, offset) &&
      Granular(issued)
    }

    /** The buffer is placed on a 16-byte boundary (see the alignment lemmas above). */
    constructor (base: nat)
      requires base % ALIGNMENT == 0
      ensures Valid()
      ensures this.base == base && offset == 0 && issued == []
    {
      this.base := base;
      offset := 0;
      issued := [];
    }

    method Alloc(layout: Layout) returns (r: AllocOutcome)
      requires Valid() && ValidLayout(layout)
      modifies this
      ensures Valid()
      ensures r == AllocStep(base, old(offset), layout)
      ensures r.Allocated? ==> r.ptr % layout.align == 0
      ensures r.Allocated? ==>
                offset == old(offset) + r.size && issued == old(issued) + [Region(old(offset), r.size)]
      ensures r.Aborted? ==> offset == old(offset) && issued == old(issued)
    {
      if layout.align > ALIGNMENT {
        return Aborted(AlignmentTooLarge);
      }
      var size: usize := RoundedSize(layout.size);
      var off := offset;
      if size + off > TO_ALLOC {
        return Aborted(CapacityExceeded);
      }
      r := Allocated(base + off, size);
      assert r == AllocStep(base, off, layout);
      AllocatedPointerAligned(base, off, layout);
      TilesExtend(issued, off, size);
      GranularExtend(issued, off, size);
      offset := off + size;
      issued := issued + [Region(off, size)];
    }

    /** Memory is never given back. */
    method Dealloc(ptr: nat, layout: Layout)
      ensures offset == old(offset) && issued == old(issued)
    {
    }
  }
}
