/** The 64-bit page-table word of the memory manager.

    A word is kept as its fields: the six bits the kernel names, the page frame number of
    bits 12-51 (the bits of MM_PTE_ADDR_MASK), and the number `rest` formed by the other
    bits.  Masks and ors of the source act on the fields one by one. */
module PageFormat {
  import opened Machine
  import Arithmetic
  import opened Bits

  const PFN_LIMIT: nat := 0x100_0000_0000

  const MAX_TRACKED: nat := 262144
  const USER_BASE: nat := 0x4000_0000
  const USER_TOP: nat := 0x8000_0000_0000

  datatype Word = Word(present: bool, writable: bool, user: bool, large: bool, softCow: bool, noExecute: bool,
                       pfn: nat, rest: nat)

  const ZERO := Word(false, false, false, false, false, false, 0, 0)

  function Or(a: Word, b: Word): (r: Word) {
    Word(a.present || b.present, a.writable || b.writable, a.user || b.user, a.large || b.large,
         a.softCow || b.softCow, a.noExecute || b.noExecute, NatOr(a.pfn, b.pfn), NatOr(a.rest, b.rest))
  }

  /** A physical address under MM_PTE_ADDR_MASK. */
  function AddressWord(pa: nat): (r: Word) { ZERO.(pfn := pa / PAGE_SIZE % PFN_LIMIT) }

  const PRESENT := ZERO.(present := true)

  // Bit 52, where a carry out of the frame number lands.
  const BIT_52: nat := 128

  /** Word i of the table that replaces the 2 MiB entry e. */
  function SplitWord(e: Word, i: nat): (r: Word) {
    Word(true, e.writable, e.user, false, false, e.noExecute,
         (e.pfn + i) % PFN_LIMIT, if e.pfn + i < PFN_LIMIT then 0 else BIT_52)
  }

  /** MmpAlignUp to a page, in 64-bit arithmetic. */
  function AlignUpPage(value: nat): (r: nat) {
    (value + (PAGE_SIZE - 1)) % U64 / PAGE_SIZE * PAGE_SIZE
  }

  // Virtual addresses: the four table indexes of a walk.

  function Indexes(va: nat): (ix: seq<nat>)
    ensures IsIndexes(ix)
  {
    var page := va / PAGE_SIZE;
    [page / 512 / 512 / 512 % 512, page / 512 / 512 % 512, page / 512 % 512, page % 512]
  }

  predicate IsIndexes(ix: seq<nat>) {
    |ix| == 4 && forall k | 0 <= k < 4 :: ix[k] < 512
  }

  /** The low 36 bits of a page number from its indexes. */
  function PageNumber(ix: seq<nat>): (r: nat)
    requires IsIndexes(ix)
  {
    ((ix[0] * 512 + ix[1]) * 512 + ix[2]) * 512 + ix[3]
  }

  lemma PageNumberOf(va: nat)
    ensures PageNumber(Indexes(va)) == va / PAGE_SIZE % 0x10_0000_0000
  {
    var page := va / PAGE_SIZE;
    var (q1, q2, q3, q4) := (page / 512, page / 512 / 512, page / 512 / 512 / 512, page / 512 / 512 / 512 / 512);
    assert q3 == 512 * q4 + q3 % 512 && q2 == 512 * q3 + q2 % 512;
    Arithmetic.DivMod(page, 0x10_0000_0000, q4, PageNumber(Indexes(va)));
  }

  /** Two addresses select the same slots exactly when their page numbers agree modulo 2^36. */
  lemma SamePage(va: nat, vb: nat)
    ensures Indexes(va) == Indexes(vb)
       <==> va / PAGE_SIZE % 0x10_0000_0000 == vb / PAGE_SIZE % 0x10_0000_0000
  {
    PageNumberOf(va);
    PageNumberOf(vb);
    if PageNumber(Indexes(va)) == PageNumber(Indexes(vb)) {
      PageNumberUnique(Indexes(va), Indexes(vb));
    }
  }

  /** Addresses of 64 bits select the slots they would without wrapping around. */
  lemma WrappedPage(va: nat)
    ensures Indexes(va % U64) == Indexes(va)
  {
    hide Indexes;
    SamePage(va % U64, va);
    Arithmetic.DivMod(va, U64, va / U64, va % U64);
    var (q, low) := (va / U64, va % U64 / PAGE_SIZE);
    Arithmetic.DivMod(va, PAGE_SIZE, q * (U64 / PAGE_SIZE) + low, va % PAGE_SIZE);
    Arithmetic.DivMod(va / PAGE_SIZE, 0x10_0000_0000, q * 0x1_0000 + low / 0x10_0000_0000, low % 0x10_0000_0000);
  }

  /** Pages fewer than 2^36 apart have other slots. */
  lemma DistinctPages(base: nat, k: nat, i: nat)
    requires base % PAGE_SIZE == 0 && k < i < k + 0x10_0000_0000
    ensures Indexes(base + k * PAGE_SIZE) != Indexes(base + i * PAGE_SIZE)
  {
    hide Indexes;
    SamePage(base + k * PAGE_SIZE, base + i * PAGE_SIZE);
    var b := base / PAGE_SIZE;
    assert (base + k * PAGE_SIZE) / PAGE_SIZE == b + k && (base + i * PAGE_SIZE) / PAGE_SIZE == b + i;
    var (p, q) := ((b + k) / 0x10_0000_0000, (b + i) / 0x10_0000_0000);
    assert p == q || p + 1 <= q;
  }

  /** Among any 2^36 pages in a row one has the slots of a given page. */
  lemma PageBetween(base: nat, va: nat) returns (k: nat)
    requires base % PAGE_SIZE == 0
    ensures k < 0x10_0000_0000 && Indexes(base + k * PAGE_SIZE) == Indexes(va)
  {
    hide Indexes;
    var (b, page) := (base / PAGE_SIZE, va / PAGE_SIZE);
    k := (page + (0x10_0000_0000 - b % 0x10_0000_0000)) % 0x10_0000_0000;
    SamePage(base + k * PAGE_SIZE, va);
    assert (base + k * PAGE_SIZE) / PAGE_SIZE == b + k;
    assert b == b / 0x10_0000_0000 * 0x10_0000_0000 + b % 0x10_0000_0000;
  }

  lemma PageNumberUnique(a: seq<nat>, b: seq<nat>)
    requires IsIndexes(a) && IsIndexes(b) && PageNumber(a) == PageNumber(b)
    ensures a == b
  {
    Arithmetic.QuotientUnique(512, (a[0] * 512 + a[1]) * 512 + a[2], (b[0] * 512 + b[1]) * 512 + b[2], a[3], b[3]);
    Arithmetic.QuotientUnique(512, a[0] * 512 + a[1], b[0] * 512 + b[1], a[2], b[2]);
    Arithmetic.QuotientUnique(512, a[0], b[0], a[1], b[1]);
  }

  predicate IsCanonical(va: nat) {
    va / 0x1_0000_0000_0000 == 0 || va / 0x1_0000_0000_0000 == 0xFFFF
  }

  /** What the processor asks of a 64-bit address: bits 47 to 63 all alike. */
  predicate SignExtended(va: nat) {
    va / 0x8000_0000_0000 == 0 || va / 0x8000_0000_0000 == 0x1_FFFF
  }

  /** The address the processor accepts for the same low 48 bits. */
  function SignExtend(va: nat): (r: nat) {
    var low := va % 0x1_0000_0000_0000;
    if low < 0x8000_0000_0000 then low else 0xFFFF_0000_0000_0000 + low
  }

  /** The kernel's test lets every address through that the processor does; of those it lets through the
      processor accepts exactly the ones whose bit 47 agrees with the bits above.  The others walk
      through the same slots as the sign-extended address. */
  lemma CanonicalExactly(va: nat)
    requires va < U64
    ensures SignExtended(va) ==> IsCanonical(va)
    ensures IsCanonical(va) ==>
              (SignExtended(va) <==> (va / 0x8000_0000_0000 % 2 == 1 <==> va / 0x1_0000_0000_0000 == 0xFFFF))
    ensures SignExtended(SignExtend(va)) && Indexes(SignExtend(va)) == Indexes(va)
    ensures SignExtend(va) == va <==> SignExtended(va)
  {
    hide Indexes;
    var (low, top) := (va % 0x1_0000_0000_0000, va / 0x1_0000_0000_0000);
    assert va / 0x8000_0000_0000 == 2 * top + low / 0x8000_0000_0000;
    LowBits(low, top);
    LowBits(low, if low < 0x8000_0000_0000 then 0 else 0xFFFF);
    SamePage(va, SignExtend(va));
  }

  lemma LowBits(low: nat, top: nat)
    requires low < 0x1_0000_0000_0000
    ensures (top * 0x1_0000_0000_0000 + low) / PAGE_SIZE % 0x10_0000_0000 == low / PAGE_SIZE
  {
    assert (top * 0x1_0000_0000_0000 + low) / PAGE_SIZE == 0x10_0000_0000 * top + low / PAGE_SIZE;
    Arithmetic.DivMod((top * 0x1_0000_0000_0000 + low) / PAGE_SIZE, 0x10_0000_0000, top, low / PAGE_SIZE);
  }

  /** One the kernel accepts and the processor does not. */
  lemma AcceptedNotSignExtended()
    ensures IsCanonical(0x8000_0000_0000) && !SignExtended(0x8000_0000_0000)
    ensures Indexes(0x8000_0000_0000) == Indexes(0xFFFF_8000_0000_0000)
  {
  }

  predicate IsUserAddress(va: nat) { USER_BASE <= va < USER_TOP }

  /** The word MmAsMapPage writes. */
  function MapWord(pa: nat, flags: Word): (r: Word) {
    Or(Or(AddressWord(pa), flags), PRESENT)
  }

  /** The word MmAsProtectPage writes over e. */
  function ProtectWord(e: Word, flags: Word): (r: Word) {
    Or(Or(ZERO.(pfn := e.pfn), flags), PRESENT)
  }

  /** The frame bits of the flags are ored into the address: the frame asked for, or the
      frame that was there, is kept exactly when the flags add no address bit to it. */
  lemma FlagsKeepFrame(pa: nat, e: Word, flags: Word)
    requires pa / PAGE_SIZE < PFN_LIMIT
    ensures MapWord(pa, flags).pfn == pa / PAGE_SIZE <==> BitsWithin(flags.pfn, pa / PAGE_SIZE)
    ensures ProtectWord(e, flags).pfn == e.pfn <==> BitsWithin(flags.pfn, e.pfn)
  {
    var page := pa / PAGE_SIZE;
    assert page % PFN_LIMIT == page;
    OrWithin(page, flags.pfn);
    OrWithin(e.pfn, flags.pfn);
  }

  lemma MapWordOf(p: nat, flags: Word)
    requires p < PFN_LIMIT && flags.pfn == 0
    ensures p * PAGE_SIZE % PAGE_SIZE == 0 && MapWord(p * PAGE_SIZE, flags) == flags.(present := true, pfn := p)
  {
  }

  /** The flags of a copy-on-write write fault are the old entry's own bits. */
  lemma MadeWritable(e: Word)
    requires e.present
    ensures ProtectWord(e, e.(softCow := false, writable := true)) == e.(softCow := false, writable := true)
    ensures BitsWithin(e.pfn, e.pfn)
  {
    SelfWithin(e.pfn);
    OrWithin(e.pfn, e.pfn);
  }
}
