/** The regions of an address space and the bump allocation of their addresses. */
module Regions {
  import opened Machine
  import opened PageFormat
  import opened Status

  const MAX_VA_REGIONS: nat := 128

  datatype Protection = Protection(read: bool, write: bool, execute: bool, user: bool)

  const PROT_NONE := Protection(false, false, false, false)

  datatype RegionFlags = RegionFlags(lazy: bool, wired: bool, cow: bool, guard: bool)

  /** What backs a region: fresh pages, or the section with the given object header. */
  datatype Backing = Anonymous | SectionOf(header: nat)

  datatype Region = Region(base: nat, size: nat, backing: Backing, protection: Protection, flags: RegionFlags,
                           committed: nat)

  /** MmpProtectionToPte */
  function ProtectionToPte(p: Protection, f: RegionFlags): (r: Word) {
    ZERO.(writable := p.write && !f.cow, user := p.user, noExecute := !p.execute, softCow := f.cow)
  }

  /** MmpAlignSizeToPage: a size that rounds past 2^64 becomes 0. */
  function AlignSizeToPage(size: nat): (r: nat) {
    if size == 0 then PAGE_SIZE else AlignUpPage(size)
  }

  /** The bytes are the least whole pages that hold the size, one page for none at all; a size less than a page
      below 2^64 gets nothing. */
  predicate Covers(size: nat, bytes: nat) {
    && bytes % PAGE_SIZE == 0
    && (size == 0 ==> bytes == PAGE_SIZE)
    && (0 < size && size + PAGE_SIZE <= U64 ==> size <= bytes < size + PAGE_SIZE)
    && (U64 - PAGE_SIZE < size < U64 ==> bytes == 0)
  }

  lemma SizeCovered(size: nat)
    ensures Covers(size, AlignSizeToPage(size))
  {
    if 0 < size && size + PAGE_SIZE <= U64 { AlignUpBounds(size); }
  }

  lemma AlignUpBounds(value: nat)
    requires value + PAGE_SIZE <= U64
    ensures value <= AlignUpPage(value) < value + PAGE_SIZE && AlignUpPage(value) % PAGE_SIZE == 0
  {
  }

  predicate Contains(r: Region, va: nat) {
    r.base <= va < (r.base + r.size) % U64
  }

  /** Regions are page-aligned, pairwise disjoint and below the bump pointer. */
  ghost predicate Laid(regions: seq<Region>, next: nat) {
    && next < U64
    && (forall i | 0 <= i < |regions| ::
          regions[i].base % PAGE_SIZE == 0 && regions[i].size % PAGE_SIZE == 0 && regions[i].size > 0
          && regions[i].base + regions[i].size <= next)
    && (forall i, j | 0 <= i < j < |regions| :: regions[i].base + regions[i].size <= regions[j].base)
  }

  /** An address lies in at most one region. */
  lemma UniqueRegion(regions: seq<Region>, next: nat, va: nat, i: nat, j: nat)
    requires Laid(regions, next) && i < |regions| && j < |regions|
    requires Contains(regions[i], va) && Contains(regions[j], va)
    ensures i == j
  {
  }

  class AddressSpace {
    const root: nat
    var nextUserBase: nat
    var regions: seq<Region>

    /** The region part of MmCreateAddressSpace. */
    constructor (root: nat)
      ensures this.root == root && regions == [] && nextUserBase == USER_BASE && Laid(regions, nextUserBase)
    {
      this.root := root;
      nextUserBase := USER_BASE;
      regions := [];
    }

    /** Where the next region goes: at the first page not below the bump pointer. */
    function NextBase(): (r: nat)
      reads this
      ensures r % PAGE_SIZE == 0 && (nextUserBase + PAGE_SIZE <= U64 ==> nextUserBase <= r < nextUserBase + PAGE_SIZE)
    {
      AlignUpPage(nextUserBase)
    }

    /** The region fits below 2^64. */
    predicate Fits(size: nat)
      reads this
    {
      size > 0 && nextUserBase + PAGE_SIZE + size < U64
    }

    /** Appends a region at the bump pointer. */
    method Append(region: Region)
      requires region.base == NextBase() && |regions| < MAX_VA_REGIONS
      modifies this
      ensures regions == old(regions) + [region] && nextUserBase == (region.base + region.size) % U64
      ensures old(Laid(regions, nextUserBase) && Fits(region.size)) && region.size % PAGE_SIZE == 0
              ==> Laid(regions, nextUserBase)
    {
      if Fits(region.size) {
        AlignUpBounds(nextUserBase);
      }
      regions := regions + [region];
      nextUserBase := (region.base + region.size) % U64;
    }

    /** Counts one more committed page of a region. */
    method Commit(i: nat)
      requires i < |regions|
      modifies this`regions
      ensures regions == old(regions)[i := old(regions)[i].(committed := old(regions)[i].committed + 1)]
    {
      regions := regions[i := regions[i].(committed := regions[i].committed + 1)];
    }

    /** MmpFindRegion: the first region that holds the address, or none. */
    method FindRegion(va: nat) returns (found: Option<nat>)
      ensures found.Some? ==> found.value < |regions| && Contains(regions[found.value], va)
      ensures found.Some? ==> forall j | 0 <= j < found.value :: !Contains(regions[j], va)
      ensures found.None? ==> forall j | 0 <= j < |regions| :: !Contains(regions[j], va)
      ensures Laid(regions, nextUserBase) ==>
                forall j | 0 <= j < |regions| && Contains(regions[j], va) :: found == Some(j)
    {
      var index := 0;
      while index < |regions|
        invariant 0 <= index <= |regions|
        invariant forall j | 0 <= j < index :: !Contains(regions[j], va)
      {
        if Contains(regions[index], va) {
          return Some(index);
        }
        index := index + 1;
      }
      return None;
    }
  }
}
