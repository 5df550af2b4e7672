/** Physical frames: the allocation bitmap, the reference counts and the next-fit scan. */
module PageAllocator {
  import opened Machine
  import Arithmetic
  import opened Bits
  import opened PageFormat
  import opened Status

  const WORD_COUNT: nat := 4096

  /** The page lies wholly inside the range. */
  predicate InRange(page: nat, base: nat, length: nat) {
    base <= page * PAGE_SIZE && (page + 1) * PAGE_SIZE <= base + length
  }

  /** A memory map entry of the firmware. */
  datatype MemoryRange = MemoryRange(kind: nat, base: nat, length: nat)

  /** MmpIsRangeUsable: loader, boot-services and conventional memory. */
  predicate IsUsable(range: MemoryRange) {
    range.kind == 7 || range.kind == 3 || range.kind == 4 || range.kind == 1 || range.kind == 2
  }

  datatype Extent = Extent(base: nat, length: nat)

  /** What MmInitialize reads of the boot information. */
  datatype BootInfo = BootInfo(memoryMap: nat, entrySize: nat, ranges: seq<MemoryRange>,
                               kernel: Extent, loaderBase: nat, initImage: Option<Extent>, self: Extent)

  /** The ranges MmpReserveBootCriticalRanges reserves, in order. */
  function Reserved(b: BootInfo): (r: seq<Extent>) {
    [Extent(0, 0x10_0000), b.kernel, Extent(b.loaderBase, 0x20_0000)]
    + (if b.initImage.Some? && b.initImage.value.base != 0 && b.initImage.value.length != 0 then [b.initImage.value]
        else [])
    + [b.self, Extent(b.memoryMap, |b.ranges| * b.entrySize)]
  }

  /** No range of the boot information wraps around 2^64. */
  ghost predicate NonWrapping(b: BootInfo) {
    && (forall i | 0 <= i < |b.ranges| :: FitsU64(b.ranges[i].base, b.ranges[i].length))
    && (forall i | 0 <= i < |Reserved(b)| :: FitsU64(Reserved(b)[i].base, Reserved(b)[i].length))
  }

  /** The page lies wholly in one of the first n usable ranges. */
  ghost predicate Offered(b: BootInfo, n: nat, page: nat) {
    exists i :: 0 <= i < n && i < |b.ranges| && IsUsable(b.ranges[i]) &&
        InRange(page, b.ranges[i].base, b.ranges[i].length)
  }

  /** The page lies wholly in one of the first n reserved ranges. */
  ghost predicate Kept(b: BootInfo, n: nat, page: nat) {
    exists i :: 0 <= i < n && i < |Reserved(b)| && InRange(page, Reserved(b)[i].base, Reserved(b)[i].length)
  }

  /** The page lies wholly in the first megabyte, the kernel, the loader's two megabytes, an init image that is there,
      the boot information or the memory map. */
  ghost predicate Critical(b: BootInfo, page: nat) {
    || InRange(page, 0, 0x10_0000)
    || InRange(page, b.kernel.base, b.kernel.length)
    || InRange(page, b.loaderBase, 0x20_0000)
    || (b.initImage.Some? && b.initImage.value.base > 0 && b.initImage.value.length > 0 &&
        InRange(page, b.initImage.value.base, b.initImage.value.length))
    || InRange(page, b.self.base, b.self.length)
    || InRange(page, b.memoryMap, |b.ranges| * b.entrySize)
  }

  /** The page lies wholly in a range of loader, boot-services or conventional memory. */
  ghost predicate Usable(b: BootInfo, page: nat) {
    && b.memoryMap > 0 && b.entrySize > 0
    && exists i :: 0 <= i < |b.ranges| && b.ranges[i].kind in {1, 2, 3, 4, 7} &&
        InRange(page, b.ranges[i].base, b.ranges[i].length)
  }

  lemma CriticalKept(b: BootInfo, page: nat)
    ensures Kept(b, |Reserved(b)|, page) <==> Critical(b, page)
  {
    var r := Reserved(b);
    assert r[0] == Extent(0, 0x10_0000) && r[1] == b.kernel && r[2] == Extent(b.loaderBase, 0x20_0000);
    assert r[|r| - 2] == b.self && r[|r| - 1] == Extent(b.memoryMap, |b.ranges| * b.entrySize);
    assert |r| == 6 ==> r[3] == b.initImage.value;
  }

  predicate FitsU64(base: nat, length: nat) {
    base + length + PAGE_SIZE <= U64
  }

  class FrameAllocator {
    /** One bit per page, in 64-bit words. */
    const bitmap: array<nat>
    const refs: array<nat>
    const tracked: nat
    var next: nat
    /** The bitmap as one truth value per page. */
    ghost var taken: seq<bool>

    ghost predicate BitsAgree()
      reads this`taken, bitmap
    {
      && bitmap.Length == WORD_COUNT && |taken| == MAX_TRACKED
      && (forall w | 0 <= w < WORD_COUNT :: bitmap[w] < Pow2(64))
      && (forall p | 0 <= p < MAX_TRACKED :: BitAgrees(p))
    }

    ghost predicate BitAgrees(p: nat)
      reads this`taken, bitmap
      requires bitmap.Length == WORD_COUNT && p < MAX_TRACKED == |taken|
    {
      taken[p] <==> TestBit(bitmap[p / 64], p % 64)
    }

    ghost predicate Valid()
      reads this, bitmap, refs
    {
      && bitmap != refs && refs.Length == MAX_TRACKED && |taken| == MAX_TRACKED && BitsAgree()
      && tracked <= MAX_TRACKED
      && (if tracked == 0 then next == 0 else next < tracked)
      && (forall p | 0 <= p < MAX_TRACKED && refs[p] != 0 :: p < tracked && taken[p])
    }

    /** MmInitialize, before the ranges are marked: nothing is free, nothing is counted. */
    constructor (topPages: nat)
      ensures Valid() && fresh(this) && fresh(bitmap) && fresh(refs)
      ensures tracked == (if topPages > MAX_TRACKED then MAX_TRACKED else topPages) && next == 0
      ensures forall p | 0 <= p < MAX_TRACKED :: taken[p] && refs[p] == 0
    {
      bitmap := new nat[WORD_COUNT](_ => Pow2(64) - 1);
      taken := seq(MAX_TRACKED, _ => true);
      refs := new nat[MAX_TRACKED](_ => 0);
      tracked := if topPages > MAX_TRACKED then MAX_TRACKED else topPages;
      next := 0;
      new;
      forall p | 0 <= p < MAX_TRACKED ensures BitAgrees(p) {
        AllOnes(64, p % 64);
      }
    }

    /** MmpIsPageAllocated */
    predicate IsAllocated(page: nat)
      requires Valid() && page < MAX_TRACKED
      reads this, bitmap, refs
      ensures IsAllocated(page) <==> taken[page]
    {
      assert BitAgrees(page);
      TestBit(bitmap[page / 64], page % 64)
    }

    /** MmpSetPageAllocated */
    method SetAllocated(page: nat)
      requires Valid() && page < MAX_TRACKED
      modifies this`taken, bitmap
      ensures Valid() && taken == old(taken)[page := true]
    {
      hide TestBit, Pow2, SetBit, ClearBit;
      ghost var was := bitmap[..];
      BitBounds(bitmap[page / 64], page % 64, 64);
      bitmap[page / 64] := SetBit(bitmap[page / 64], page % 64);
      taken := taken[page := true];
      forall p | 0 <= p < MAX_TRACKED ensures BitAgrees(p) {
        assert old(BitAgrees(p));
        BitChanged(was[page / 64], page % 64, p % 64);
      }
    }

    /** MmpSetPageFree */
    method SetFree(page: nat)
      requires Valid() && page < MAX_TRACKED && refs[page] == 0
      modifies this`taken, bitmap
      ensures Valid() && taken == old(taken)[page := false]
    {
      hide TestBit, Pow2, SetBit, ClearBit;
      ghost var was := bitmap[..];
      BitBounds(bitmap[page / 64], page % 64, 64);
      bitmap[page / 64] := ClearBit(bitmap[page / 64], page % 64);
      taken := taken[page := false];
      forall p | 0 <= p < MAX_TRACKED ensures BitAgrees(p) {
        assert old(BitAgrees(p));
        BitChanged(was[page / 64], page % 64, p % 64);
      }
    }

    /** How far the scan goes from the cursor to reach page p. */
    function Distance(p: nat): (r: nat)
      requires p < tracked && next < tracked
      reads this
    {
      if p >= next then p - next else p + tracked - next
    }

    /** The free page nearest to the cursor in cyclic order, or none because none is free. */
    ghost predicate NextFit(page: Option<nat>)
      requires Valid()
      reads this, bitmap, refs
    {
      match page
      case None => forall q | 0 <= q < tracked :: taken[q]
      case Some(p) => p < tracked && !taken[p] && forall q | 0 <= q < tracked && !taken[q] :: Distance(p) <= Distance(q)
    }

    /** MmpAllocPageInternal */
    method Alloc(initialRefCount: nat) returns (status: KStatus, page: nat)
      requires Valid() && initialRefCount > 0
      modifies this, bitmap, refs
      ensures Valid()
      ensures tracked == 0 ==> status == InvalidParameter
      ensures tracked != 0 && status != Success ==> status == InitFailed
      ensures old(NextFit(if status == Success then Some(page) else None))
      ensures status == Success ==> page < MAX_TRACKED && next == (page + 1) % tracked
      ensures taken == if status == Success then old(taken)[page := true] else old(taken)
      ensures refs[..] == if status == Success then old(refs[..])[page := initialRefCount] else old(refs[..])
      ensures status != Success ==> next == old(next)
    {
      hide BitsAgree, TestBit, Pow2;
      if tracked == 0 {
        return InvalidParameter, 0;
      }
      var scan := 0;
      while scan < tracked
        invariant 0 <= scan <= tracked
        invariant unchanged(this) && unchanged(bitmap) && unchanged(refs)
        invariant forall q | 0 <= q < tracked && Distance(q) < scan :: taken[q]
      {
        page := Around(next + scan, tracked);
        if !IsAllocated(page) {
          SetAllocated(page);
          refs[page] := initialRefCount;
          next := Around(page + 1, tracked);
          return Success, page;
        }
        scan := scan + 1;
      }
      forall q | 0 <= q < tracked ensures old(taken[q]) {
        assert Distance(q) < scan && taken[q];
      }
      return InitFailed, 0;
    }

    /** A scan position past the end starts again at the front. */
    static function Around(n: nat, limit: nat): (r: nat)
      requires 0 < limit && n < 2 * limit
      ensures r == n % limit && r == (if n < limit then n else n - limit)
    {
      Wrap(n, limit);
      n % limit
    }

    static lemma Wrap(n: nat, limit: nat)
      requires 0 < limit && n < 2 * limit
      ensures n % limit == if n < limit then n else n - limit
    {
      Arithmetic.DivMod(n, limit, if n < limit then 0 else 1, if n < limit then n else n - limit);
    }

    /** MmpRetainPage */
    method Retain(page: nat)
      requires Valid()
      modifies refs
      ensures Valid()
      ensures refs[..] == if page < MAX_TRACKED && old(refs[page]) != 0
                          then old(refs[..])[page := old(refs[page]) + 1] else old(refs[..])
    {
      if page < MAX_TRACKED && refs[page] != 0 {
        refs[page] := refs[page] + 1;
      }
    }

    /** MmpReleasePage: the last release frees the page. */
    method Release(page: nat)
      requires Valid()
      modifies this`taken, bitmap, refs
      ensures Valid()
      ensures refs[..] == if page < MAX_TRACKED && old(refs[page]) != 0
                          then old(refs[..])[page := old(refs[page]) - 1] else old(refs[..])
      ensures taken == if page < MAX_TRACKED && old(refs[page]) == 1
                            then old(taken)[page := false] else old(taken)
    {
      hide BitsAgree, TestBit, Pow2;
      if page >= MAX_TRACKED || refs[page] == 0 {
        return;
      }
      refs[page] := refs[page] - 1;
      if refs[page] == 0 {
        SetFree(page);
      }
    }

    /** MmFreePage: whatever the count was. */
    method Free(pa: nat) returns (status: KStatus)
      requires Valid()
      modifies this`taken, bitmap, refs
      ensures Valid()
      ensures var page := pa / PAGE_SIZE;
              status == if pa % PAGE_SIZE == 0 && page < tracked && old(taken[page]) then Success else InvalidParameter
      ensures refs[..] == if status == Success then old(refs[..])[pa / PAGE_SIZE := 0] else old(refs[..])
      ensures taken == if status == Success then old(taken)[pa / PAGE_SIZE := false] else old(taken)
    {
      hide BitsAgree, TestBit, Pow2;
      if pa % PAGE_SIZE != 0 {
        return InvalidParameter;
      }
      var page := pa / PAGE_SIZE;
      if page >= tracked {
        return InvalidParameter;
      }
      if !IsAllocated(page) {
        return InvalidParameter;
      }
      refs[page] := 0;
      SetFree(page);
      return Success;
    }

    /** MmpMarkRange: only pages wholly inside the range are marked. */
    method MarkRange(base: nat, length: nat, allocate: bool)
      requires Valid() && FitsU64(base, length)
      requires forall p | 0 <= p < MAX_TRACKED :: refs[p] == 0
      modifies this`taken, bitmap
      ensures Valid()
      ensures forall p | 0 <= p < MAX_TRACKED ::
                taken[p] == if p < tracked && InRange(p, base, length) then allocate else old(taken[p])
    {
      hide BitsAgree;
      if length == 0 || tracked == 0 {
        return;
      }
      var start := AlignUpPage(base);
      var end := (base + length) % U64 / PAGE_SIZE * PAGE_SIZE;
      if end <= start {
        return;
      }
      var page := start / PAGE_SIZE;
      while page < end / PAGE_SIZE
        invariant start / PAGE_SIZE <= page <= end / PAGE_SIZE && Valid()
        invariant forall p | 0 <= p < MAX_TRACKED ::
                    taken[p] == if p < tracked && start / PAGE_SIZE <= p < page then allocate else old(taken[p])
      {
        if page >= tracked {
          break;
        }
        if allocate {
          SetAllocated(page);
        } else {
          SetFree(page);
        }
        page := page + 1;
      }
    }

    /** MmpMarkUsableFromBootInfo */
    method MarkUsable(b: BootInfo)
      requires Valid() && NonWrapping(b)
      requires forall p | 0 <= p < MAX_TRACKED :: taken[p] && refs[p] == 0
      modifies this`taken, bitmap
      ensures Valid()
      ensures forall p | 0 <= p < MAX_TRACKED ::
                taken[p] <==> !(p < tracked && Usable(b, p))
    {
      hide BitsAgree;
      if b.memoryMap == 0 || b.entrySize == 0 {
        return;
      }
      var index := 0;
      while index < |b.ranges|
        invariant 0 <= index <= |b.ranges|
        invariant Valid()
        invariant forall p | 0 <= p < MAX_TRACKED :: taken[p] <==> !(p < tracked && Offered(b, index, p))
      {
        if IsUsable(b.ranges[index]) {
          MarkRange(b.ranges[index].base, b.ranges[index].length, false);
        }
        index := index + 1;
      }
    }

    /** MmpReserveBootCriticalRanges */
    method ReserveCritical(b: BootInfo)
      requires Valid() && NonWrapping(b)
      requires forall p | 0 <= p < MAX_TRACKED :: refs[p] == 0
      modifies this`taken, bitmap
      ensures Valid()
      ensures forall p | 0 <= p < MAX_TRACKED ::
                taken[p] <==> old(taken[p]) || (p < tracked && Critical(b, p))
    {
      hide BitsAgree;
      var reserved := Reserved(b);
      var index := 0;
      while index < |reserved|
        invariant 0 <= index <= |reserved|
        invariant Valid()
        invariant forall p | 0 <= p < MAX_TRACKED :: taken[p] <==> old(taken[p]) || (p < tracked && Kept(b, index, p))
      {
        MarkRange(reserved[index].base, reserved[index].length, true);
        index := index + 1;
      }
      forall p | 0 <= p < MAX_TRACKED ensures Kept(b, |Reserved(b)|, p) <==> Critical(b, p) { CriticalKept(b, p); }
    }

    /** The marking of MmInitialize: a page is free exactly when it is tracked, wholly in a
        usable range and wholly in no reserved one. */
    method MarkBoot(b: BootInfo)
      requires Valid() && NonWrapping(b)
      requires forall p | 0 <= p < MAX_TRACKED :: taken[p] && refs[p] == 0
      modifies this`taken, bitmap
      ensures Valid()
      ensures forall p | 0 <= p < MAX_TRACKED ::
                !taken[p] <==> p < tracked && Usable(b, p) && !Critical(b, p)
      ensures taken[0]
    {
      hide BitsAgree;
      forall p | 0 <= p < MAX_TRACKED ensures Kept(b, |Reserved(b)|, p) <==> Critical(b, p) { CriticalKept(b, p); }
      MarkUsable(b);
      ReserveCritical(b);
      if 0 < tracked {
        assert InRange(0, Reserved(b)[0].base, Reserved(b)[0].length);
        assert Kept(b, |Reserved(b)|, 0);
      }
    }
  }
}
