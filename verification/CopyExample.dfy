/** A run in which the copying branch of copy-on-write loses a reference: from a memory of seven frames, a page
    of a mapped section is reprotected as copy-on-write and then written to. */
module CopyExample {
  import opened Machine
  import opened Bits
  import opened PageFormat
  import opened PageTables
  import opened Ownership
  import opened PageAllocator
  import opened PageMapping
  import opened Sections
  import opened AccessRights
  import opened CopyOnWrite
  import opened MemoryManager
  import opened Status

  /** Frames 1 to 4 are the tables of the page at 0x40000000, which word w maps; frame 5 is the page, and frame
      6 is free. */
  function Frames(w: Word): (m: Memory)
    ensures |m| == 7
  {
    [EmptyTable(), EmptyTable()[0 := LinkTo(2, true)], EmptyTable()[1 := LinkTo(3, true)],
     EmptyTable()[0 := LinkTo(4, true)], EmptyTable()[0 := w], EmptyTable(), EmptyTable()]
  }

  const TABLES: Tables := map[1 := [], 2 := [0], 3 := [0, 1], 4 := [0, 1, 0]]

  /** The page as the section's region maps it, and marked copy-on-write. */
  const MAPPED := PRESENT.(user := true, pfn := 5)
  const MARKED := MAPPED.(softCow := true)

  /** Frame 5 has n references. */
  function State(w: Word, n: nat): (s: MapState) { MapState(Frames(w), TABLES, {}, Refs(n), Taken(), 7) }

  /** The section and the slot each hold a reference to frame 5. */
  function StateWith(w: Word): (s: MapState) { State(w, 2) }

  function Refs(n: nat): (r: seq<nat>)
    ensures |r| == MAX_TRACKED && forall p | 0 <= p < MAX_TRACKED :: r[p] == if p == 5 then n else 0
  {
    seq(MAX_TRACKED, p => if p == 5 then n else 0)
  }

  function Taken(): (r: seq<bool>)
    ensures |r| == MAX_TRACKED && forall p | 0 <= p < MAX_TRACKED :: r[p] == (p != 6)
  {
    seq(MAX_TRACKED, p => p != 6)
  }

  /** What the section holds. */
  function Others(): (r: seq<nat>) { seq(MAX_TRACKED, p => if p == 5 then 1 else 0) }

  function PagesOf(): (r: seq<nat>)
    ensures |r| == MAX_SECTION_PAGES && r[0] == 5
  {
    seq(MAX_SECTION_PAGES, i => if i == 0 then 5 else 0)
  }

  /** One section, of one page. */
  function OneSection(): (pool: seq<SectionSlot>)
    ensures |pool| == MAX_SECTIONS && pool[0] == SectionSlot(true, Some(7), 1, PagesOf())
    ensures forall k | 0 < k < MAX_SECTIONS :: pool[k] == SectionSlot(false, None, 0, PagesOf())
  {
    seq(MAX_SECTIONS, k => if k == 0 then SectionSlot(true, Some(7), 1, PagesOf())
                           else SectionSlot(false, None, 0, PagesOf()))
  }

  const PAGE: seq<nat> := [0, 1, 0, 0]

  lemma FrameWords(w: Word, f: nat, i: nat)
    requires f < 7 && i < 512
    ensures Frames(w)[f][i] ==
            if f == 1 && i == 0 then LinkTo(2, true) else if f == 2 && i == 1 then LinkTo(3, true)
            else if f == 3 && i == 0 then LinkTo(4, true) else if f == 4 && i == 0 then w else ZERO
  {
  }

  lemma WellFormed(w: Word, n: nat)
    ensures Wf(State(w, n))
  {
    var m := Frames(w);
    forall f, i | f in TABLES && |TABLES[f]| < 3 && 0 <= i < 512
      ensures IsLink(m[f][i]) ==> m[f][i].pfn in TABLES && TABLES[m[f][i].pfn] == TABLES[f] + [i]
      ensures LargeAllowed(TABLES[f], m[f][i])
    {
      FrameWords(w, f, i);
    }
    assert Tree(m, TABLES);
  }

  lemma OneSlot(w: Word, n: nat, p: nat)
    requires Tree(Frames(w), TABLES) && w.present && w.pfn == 5
    ensures Slots(State(w, n), p) == if p == 5 then {(4, 0)} else {}
  {
    var m := Frames(w);
    forall i: nat | i < 512 ensures m[4][i].present <==> i == 0
    {
      FrameWords(w, 4, i);
    }
    FrameWords(w, 4, 0);
    assert UserPath(TABLES[4]);
    if p == 5 { assert (4, 0) in Slots(State(w, n), 5); }
    forall f, i | (f, i) in Slots(State(w, n), p) ensures f == 4 && i == 0 && p == 5
    {
    }
  }

  lemma SlotIsThere(w: Word)
    ensures Indexes(USER_BASE) == PAGE && TableAt(Frames(w), 1, PAGE, 3) == Some(4) && SlotIs(Frames(w), 1, PAGE, w)
  {
    FrameWords(w, 1, 0);
    FrameWords(w, 2, 1);
    FrameWords(w, 3, 0);
    FrameWords(w, 4, 0);
    assert TableAt(Frames(w), 1, PAGE, 0) == Some(1);
    assert TableAt(Frames(w), 1, PAGE, 1) == Some(2);
    assert TableAt(Frames(w), 1, PAGE, 2) == Some(3);
    assert TableAt(Frames(w), 1, PAGE, 3) == Some(4);
  }

  /** One reference is the slot's, any other is held elsewhere. */
  lemma Account(w: Word, others: seq<nat>, n: nat)
    requires w.present && w.pfn == 5 && n > 0 && |others| == MAX_TRACKED
    requires forall p | 0 <= p < MAX_TRACKED :: others[p] == if p == 5 then n - 1 else 0
    ensures Wf(State(w, n)) && Counted(State(w, n), others)
  {
    hide Wf, Tree, State;
    WellFormed(w, n);
    Shape(w, n);
    var s := State(w, n);
    forall p | 0 <= p < MAX_TRACKED
      ensures s.refs[p] == |Slots(s, p)| + (if p in s.made then 1 else 0) + others[p]
    {
      OneSlot(w, n, p);
    }
  }

  lemma Shape(w: Word, n: nat)
    requires Wf(State(w, n))
    ensures State(w, n).refs == Refs(n) && State(w, n).made == {} && Tree(Frames(w), TABLES)
  {
  }

  lemma Pool(w: Word)
    requires Tree(StateWith(w).m, StateWith(w).t)
    ensures PoolOk(OneSection(), {7}, StateWith(w), Others()) && MappedLive(OneSection(), {7})
  {
    hide Slots, Tree;
    assert LiveAs(OneSection(), 0, 7);
    assert PoolShape(OneSection());
    assert forall k: nat, i: nat, p: nat | Lists(OneSection(), k, i, p) :: k == 0 && i == 0 && p == 5;
  }

  /** The books are in order, whichever way the page is mapped. */
  lemma BooksInOrder(w: Word)
    requires w.present && w.pfn == 5
    ensures BooksOk(StateWith(w), OneSection(), Others(), {7}) && IsRoot(TABLES, 1)
  {
    Account(w, Others(), 2);
    Pool(w);
  }

  /** A protect marks the page. */
  lemma Marked()
    ensures Reprotected(StateWith(MAPPED), StateWith(MARKED), 1, PAGE, MARKED.(pfn := 0))
  {
    hide Wf, TableAt;
    WellFormed(MAPPED, 2);
    SlotIsThere(MAPPED);
    FrameWords(MAPPED, 4, 0);
    var e := Frames(MAPPED)[4][0];
    assert ProtectWord(e, MARKED.(pfn := 0)) == MARKED;
    assert Frames(MAPPED)[4][0 := MARKED] == Frames(MARKED)[4];
    assert Frames(MAPPED)[4 := Frames(MARKED)[4]] == Frames(MARKED);
  }

  lemma MarkedLeaf()
    ensures LeafEntry(Frames(MAPPED), 1, Indexes(USER_BASE)).Some? && Indexes(USER_BASE) == PAGE
    ensures IsCanonical(USER_BASE) && USER_BASE % PAGE_SIZE == 0
  {
    hide TableAt;
    SlotIsThere(MAPPED);
    FrameWords(MAPPED, 4, 0);
  }

  lemma ReprotectedOnce(s: MapState)
    requires Reprotected(StateWith(MAPPED), s, 1, PAGE, MARKED.(pfn := 0))
    ensures s == StateWith(MARKED)
  {
    hide Wf, TableAt, Frames;
    Marked();
  }

  /** The next write takes the copying branch, there is a frame for the copy, and a reference is lost. */
  lemma WriteLosesReference()
    ensures LosesReference(StateWith(MARKED), 1, USER_BASE, ErrorCode(true, true, true, false))
    ensures EntryAt(StateWith(MARKED), 1, USER_BASE) == Some(MARKED) && IsRoot(StateWith(MARKED).t, 1)
    ensures Translate(StateWith(MARKED).m, 1, 0, Indexes(USER_BASE)).Some?
    ensures USER_BASE % PAGE_SIZE == 0 && UserPage(USER_BASE)
  {
    hide TableAt;
    SlotIsThere(MARKED);
    FrameWords(MARKED, 4, 0);
    assert !StateWith(MARKED).taken[6];
    TranslateFromTable(Frames(MARKED), 1, PAGE, 3);
    UserAddressPath(USER_BASE);
  }

  /** The memory of seven frames, with the page mapped; the section holds its frame. */
  method Start() returns (mm: Manager)
    ensures fresh(mm) && fresh(mm.mmu) && fresh(mm.mmu.pages) && fresh(mm.mmu.pages.bitmap) && fresh(mm.mmu.pages.refs)
    ensures mm.Accounted(Others()) && mm.mmu.st == StateWith(MAPPED) && mm.pool == OneSection() && mm.Mapped() == {7}
  {
    hide Wf, Counted, BooksOk, FrameAllocator.BitsAgree, Frames;
    var pages := new FrameAllocator(7);
    pages.SetFree(6);
    pages.refs[5] := 1;
    assert pages.refs[..] == Refs(1) && pages.taken == Taken();
    Account(MAPPED, NobodyElse(), 1);
    var mmu := new PageMap(pages, Frames(MAPPED), TABLES);
    mm := new Manager(mmu);
    mmu.Retain(5);
    assert mmu.st.refs == Refs(2);
    mm.pool := OneSection();
    mm.mappings := multiset{7};
    assert mm.Mapped() == {7};
    BooksInOrder(MAPPED);
  }

  /** The run.  The books are in order up to the write; the write succeeds and they are not any more. */
  method Run() returns (mm: Manager, marked: KStatus, written: KStatus, ghost before: bool)
    ensures marked == Success && before && written == Success && !mm.Accounted(Others())
    ensures OneShort(mm.mmu.st, Others(), 5)
  {
    hide Wf, Counted, BooksOk, Frames, TableAt, OneShort, Manager.Accounted;
    mm := Start();
    marked := Mark(mm);
    before := mm.Accounted(Others());
    written := Write(mm);
  }

  method Mark(mm: Manager) returns (status: KStatus)
    requires mm.Accounted(Others()) && mm.mmu.st == StateWith(MAPPED) && mm.pool == OneSection() && mm.Mapped() == {7}
    modifies mm.mmu
    ensures status == Success && mm.Accounted(Others()) && mm.mmu.st == StateWith(MARKED)
  {
    hide Wf, Counted, BooksOk, Frames, TableAt;
    WellFormed(MAPPED, 2);
    MarkedLeaf();
    Marked();
    status := mm.mmu.ProtectPage(1, USER_BASE, MARKED.(pfn := 0));
    ReprotectedOnce(mm.mmu.st);
    BooksInOrder(MARKED);
  }

  method Write(mm: Manager) returns (status: KStatus)
    requires mm.Accounted(Others()) && mm.mmu.st == StateWith(MARKED)
    modifies mm.mmu, mm.mmu.pages, mm.mmu.pages.bitmap, mm.mmu.pages.refs
    ensures status == Success && !mm.Accounted(Others()) && OneShort(mm.mmu.st, Others(), 5)
  {
    hide Wf, Counted, BooksOk, State, TableAt, OneShort, Manager.Accounted, PresentOutcome, LosesReference, EntryAt,
         Translate, CopiesShared, UserPage, TablesKept, WritableLinks, AtMostShort;
    WriteLosesReference();
    ghost var left;
    status, left := mm.FaultPresent(1, USER_BASE, ErrorCode(true, true, true, false), Others());
    LosingSucceeds(StateWith(MARKED), mm.mmu.st, status, 1, USER_BASE, ErrorCode(true, true, true, false));
  }
}
