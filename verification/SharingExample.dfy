/** A run in which two mappings of one section disagree: two address spaces share the lower tables, the section
    is mapped at the user base in one and a page above it in the other, and the first faults in the page at
    which the two overlap. */
module SharingExample {
  import opened Machine
  import opened Bits
  import opened PageFormat
  import opened PageTables
  import opened Ownership
  import opened PageAllocator
  import opened PageMapping
  import opened Regions
  import opened Sections
  import opened AccessRights
  import opened MemoryManager
  import opened SectionSharing
  import opened Status

  /** Frames 1 and 7 are roots over the tables 2, 3 and 4; frames 5 and 6 are the pages of the section. */
  function Frames(): (m: Memory)
    ensures |m| == 8
  {
    [EmptyTable(), EmptyTable()[0 := LinkTo(2, true)], EmptyTable()[1 := LinkTo(3, true)],
     EmptyTable()[0 := LinkTo(4, true)], EmptyTable(), EmptyTable(), EmptyTable(), EmptyTable()[0 := LinkTo(2, true)]]
  }

  const TABLES: Tables := map[1 := [], 2 := [0], 3 := [0, 1], 4 := [0, 1, 0], 7 := []]

  function State(n: nat): (s: MapState) { MapState(Frames(), TABLES, {}, Held(n), Taken(), 8) }

  /** n references to either page, and none to other frames. */
  function Held(n: nat): (r: seq<nat>)
    ensures |r| == MAX_TRACKED && forall p | 0 <= p < MAX_TRACKED :: r[p] == if p == 5 || p == 6 then n else 0
  {
    seq(MAX_TRACKED, p => if p == 5 || p == 6 then n else 0)
  }

  function Taken(): (r: seq<bool>)
    ensures |r| == MAX_TRACKED && forall p | 0 <= p < MAX_TRACKED :: r[p]
  {
    seq(MAX_TRACKED, _ => true)
  }

  function PagesOf(): (r: seq<nat>)
    ensures |r| == MAX_SECTION_PAGES && r[0] == 5 && r[1] == 6
  {
    seq(MAX_SECTION_PAGES, i => if i == 0 then 5 else if i == 1 then 6 else 0)
  }

  /** One section, of two pages. */
  function OneSection(): (pool: seq<SectionSlot>)
    ensures |pool| == MAX_SECTIONS && pool[0] == SectionSlot(true, Some(9), 2, PagesOf())
    ensures forall k | 0 < k < MAX_SECTIONS :: pool[k] == SectionSlot(false, None, 0, PagesOf())
  {
    seq(MAX_SECTIONS, k => if k == 0 then SectionSlot(true, Some(9), 2, PagesOf())
                           else SectionSlot(false, None, 0, PagesOf()))
  }

  /** The page both regions hold. */
  const VA: nat := USER_BASE + PAGE_SIZE
  const SLOTS: seq<nat> := [0, 1, 0, 1]

  lemma FrameWords(f: nat, i: nat)
    requires f < 8 && i < 512
    ensures Frames()[f][i] ==
            if (f == 1 || f == 7) && i == 0 then LinkTo(2, true) else if f == 2 && i == 1 then LinkTo(3, true)
            else if f == 3 && i == 0 then LinkTo(4, true) else ZERO
  {
  }

  lemma OneLink(f: nat, i: nat)
    requires f in TABLES && |TABLES[f]| < 3 && i < 512
    ensures var w := Frames()[f][i];
      LargeAllowed(TABLES[f], w) && (IsLink(w) ==> w.pfn in TABLES && TABLES[w.pfn] == TABLES[f] + [i])
  {
    hide Frames;
    FrameWords(f, i);
  }

  lemma Links()
    ensures Tree(Frames(), TABLES)
  {
    hide LargeAllowed;
    forall f, i | f in TABLES && |TABLES[f]| < 3 && 0 <= i < 512 && IsLink(Frames()[f][i])
      ensures Frames()[f][i].pfn in TABLES && TABLES[Frames()[f][i].pfn] == TABLES[f] + [i]
    {
      OneLink(f, i);
    }
  }

  lemma WellFormed(n: nat)
    ensures Wf(State(n))
  {
    hide Tree, LargeAllowed;
    Links();
    forall f, i | f in TABLES && |TABLES[f]| < 3 && 0 <= i < 512 ensures LargeAllowed(TABLES[f], Frames()[f][i])
    {
      OneLink(f, i);
    }
  }

  lemma NothingMapped(n: nat, p: nat)
    requires Tree(Frames(), TABLES)
    ensures Slots(State(n), p) == {}
  {
    forall i: nat | i < 512 ensures !Frames()[4][i].present
    {
      FrameWords(4, i);
    }
  }

  lemma Account(n: nat, others: seq<nat>)
    requires others == Held(n)
    ensures Wf(State(n)) && Counted(State(n), others)
  {
    hide Wf, Tree, State;
    WellFormed(n);
    Shape(n);
    var s := State(n);
    forall p | 0 <= p < MAX_TRACKED
      ensures s.refs[p] == |Slots(s, p)| + (if p in s.made then 1 else 0) + others[p]
    {
      NothingMapped(n, p);
    }
  }

  lemma Shape(n: nat)
    requires Wf(State(n))
    ensures State(n).refs == Held(n) && State(n).made == {} && Tree(Frames(), TABLES)
    ensures Tree(State(n).m, State(n).t)
  {
  }

  lemma BooksInOrder()
    ensures BooksOk(State(1), OneSection(), Held(1), {}) && IsRoot(State(1).t, 1) && IsRoot(State(1).t, 7)
    ensures LiveAs(OneSection(), 0, 9) && forall k: nat | LiveAs(OneSection(), k, 9) :: k == 0
  {
    Account(1, Held(1));
    Pool();
  }

  lemma Pool()
    requires Wf(State(1)) && Tree(State(1).m, State(1).t)
    ensures PoolOk(OneSection(), {}, State(1), Held(1)) && MappedLive(OneSection(), {})
  {
    hide Slots, Tree, Wf;
    assert PoolShape(OneSection());
    assert forall k: nat, i: nat, p: nat | Lists(OneSection(), k, i, p) ::
        k == 0 && ((i == 0 && p == 5) || (i == 1 && p == 6));
    forall k: nat, i: nat, p: nat | Lists(OneSection(), k, i, p) ensures Slots(State(1), p) == {}
    {
      NothingMapped(1, p);
    }
  }

  /** The walks of the page under the two roots meet at table 2 and end at a slot that is empty. */
  lemma Walks()
    ensures Indexes(VA) == SLOTS && PageOf(VA) == VA && IsCanonical(VA)
    ensures ShareTable(State(1).m, 7, 1, SLOTS, 1) && TableAt(State(1).m, 1, SLOTS, 3) == Some(4)
    ensures Translate(State(1).m, 1, 0, SLOTS) == None && Translate(State(1).m, 7, 0, SLOTS) == None
  {
    FrameWords(1, 0);
    FrameWords(7, 0);
    FrameWords(2, 1);
    FrameWords(3, 0);
    FrameWords(4, 1);
    assert TableAt(Frames(), 1, SLOTS, 0) == Some(1) && TableAt(Frames(), 7, SLOTS, 0) == Some(7);
    assert TableAt(Frames(), 1, SLOTS, 1) == Some(2) && TableAt(Frames(), 7, SLOTS, 1) == Some(2);
    assert TableAt(Frames(), 1, SLOTS, 2) == Some(3) && TableAt(Frames(), 7, SLOTS, 2) == Some(3);
    assert TableAt(Frames(), 1, SLOTS, 3) == Some(4) && TableAt(Frames(), 7, SLOTS, 3) == Some(4);
    TranslateFromTable(Frames(), 1, SLOTS, 3);
    TranslateFromTable(Frames(), 7, SLOTS, 3);
  }

  /** The memory of eight frames, with the section in it. */
  method Start() returns (mm: Manager)
    ensures fresh(mm) && fresh(mm.mmu) && fresh(mm.mmu.pages) && fresh(mm.mmu.pages.bitmap) && fresh(mm.mmu.pages.refs)
    ensures mm.Accounted(Held(1)) && mm.mmu.st == State(1) && mm.pool == OneSection() && mm.mappings == multiset{}
  {
    hide Wf, Counted, BooksOk, FrameAllocator.BitsAgree, Frames;
    var pages := new FrameAllocator(8);
    assert pages.refs[..] == Held(0) && pages.taken == Taken();
    Account(0, Held(0));
    assert NobodyElse() == Held(0);
    var mmu := new PageMap(pages, Frames(), TABLES);
    mm := new Manager(mmu);
    pages.refs[5], pages.refs[6] := 1, 1;
    assert pages.refs[..] == Held(1);
    mmu.st := mmu.st.(refs := pages.refs[..]);
    mm.pool := OneSection();
    assert mm.Mapped() == {};
    BooksInOrder();
  }

  const READ := ErrorCode(false, false, true, false)
  const RIGHTS := Protection(true, false, false, true)
  const LAZY := RegionFlags(true, false, false, false)

  /** The run: the second address space has no fault for absence, its page is there, and it is the wrong one. */
  method Run() returns (mm: Manager, space1: AddressSpace, space2: AddressSpace, first: KStatus,
      second: Option<KStatus>)
    ensures first == Success && second == None
    ensures !Agree(mm.mmu.st.m, space1.root, USER_BASE, VA, space2.root, VA, VA)
  {
    hide Wf, BooksOk, Frames, State, TableAt, Translate, Manager.Accounted, Agree, FaultOutcome;
    mm := Start();
    space1 := new AddressSpace(1);
    space2 := new AddressSpace(7);
    MapThem(mm, space1, space2);
    Walks();
    ghost var left;
    first, second, left := FaultInBoth(mm, space1, 0, VA, READ, space2, 1, VA, READ, 9, Held(1));
  }

  /** The section is mapped in both, behind an anonymous page in the second. */
  method MapThem(mm: Manager, space1: AddressSpace, space2: AddressSpace)
    requires mm.Accounted(Held(1)) && mm.mmu.st == State(1) && mm.pool == OneSection() && mm.mappings == multiset{}
    requires space1.root == 1 && space2.root == 7 && space1 != space2
    requires space1.regions == [] && space2.regions == [] && space1.nextUserBase == USER_BASE == space2.nextUserBase
    modifies space1, space2, mm`mappings, mm.mmu, mm.mmu.pages, mm.mmu.pages.bitmap, mm.mmu.pages.refs
    ensures mm.Accounted(Held(1)) && mm.Space(space1) && mm.Space(space2) && mm.mmu.st == State(1)
    ensures MapsThere(space1, 0, 9, VA, READ) && space1.regions[0].base == USER_BASE
    ensures MapsThere(space2, 1, 9, VA, READ) && space2.regions[1].base == VA
  {
    hide Wf, BooksOk, State, RegionBacked, MapsThere, Laid;
    BooksInOrder();
    EmptyLaid(space1.nextUserBase);
    var base := MapAt(mm, space1);
    InRegion(space1, 0);
    ghost var (regions, mapped) := (space1.regions, mm.Mapped());
    base := MapAnonymousPage(mm, space2);
    base := MapAt(mm, space2);
    MoreBacked(regions, mm.pool, mapped, mm.Mapped());
    InRegion(space2, 1);
  }

  /** The section is mapped at the next address. */
  method MapAt(mm: Manager, space: AddressSpace) returns (base: nat)
    requires mm.Accounted(Held(1)) && mm.mmu.st == State(1) && mm.pool == OneSection() && mm.Space(space)
    requires |space.regions| <= 1 && space.nextUserBase <= VA && space.nextUserBase % PAGE_SIZE == 0
    modifies space, mm`mappings
    ensures mm.Accounted(Held(1)) && mm.Space(space) && mm.mappings == old(mm.mappings) + multiset{9}
    ensures base == old(space.nextUserBase)
    ensures space.regions == old(space.regions) + [SectionRegion(base, 2 * PAGE_SIZE, 9, RIGHTS)]
  {
    hide Wf, BooksOk, State, RegionBacked, Laid;
    BooksInOrder();
    var status;
    status, base := mm.MapSection(space, 9, RIGHTS, Held(1));
  }

  method MapAnonymousPage(mm: Manager, space: AddressSpace) returns (base: nat)
    requires mm.Accounted(Held(1)) && mm.mmu.st == State(1) && IsRoot(mm.mmu.st.t, space.root)
    requires space.regions == [] && space.nextUserBase == USER_BASE
    modifies space, mm.mmu, mm.mmu.pages, mm.mmu.pages.bitmap, mm.mmu.pages.refs
    ensures mm.Accounted(Held(1)) && mm.mmu.st == State(1) && mm.Space(space)
    ensures |space.regions| == 1 && space.nextUserBase == VA && base == USER_BASE
  {
    hide Wf, BooksOk, State, OutsideAsBefore, WiredUpTo;
    var status;
    ghost var left;
    status, base, left := mm.MapAnonymous(space, PAGE_SIZE, RIGHTS, LAZY, Held(1));
  }

  lemma EmptyLaid(next: nat)
    requires next < U64
    ensures Laid([], next)
  {
  }

  lemma InRegion(space: AddressSpace, i: nat)
    requires i < |space.regions| &&
        space.regions[i] == SectionRegion(USER_BASE + i * PAGE_SIZE, 2 * PAGE_SIZE, 9, RIGHTS)
    requires i <= 1
    ensures MapsThere(space, i, 9, VA, READ)
  {
  }

  lemma MoreBacked(regions: seq<Region>, pool: seq<SectionSlot>, mapped: set<nat>, more: set<nat>)
    requires (forall i | 0 <= i < |regions| :: RegionBacked(regions[i], pool, mapped)) && mapped <= more
    ensures forall i | 0 <= i < |regions| :: RegionBacked(regions[i], pool, more)
  {
  }
}
