/** One section mapped by two regions, in one address space or in two: what their pages have in common. */
module SectionSharing {
  import opened Machine
  import opened PageFormat
  import opened PageTables
  import opened Ownership
  import opened PageAllocator
  import opened Regions
  import opened Sections
  import opened AccessRights
  import opened MemoryManager
  import opened Status

  /** The page of va translates to the frame that the section lists at its offset from base. */
  ghost predicate Shows(s: MapState, pool: seq<SectionSlot>, header: nat, root: nat, base: nat, va: nat) {
    exists k: nat, i: nat, p: nat :: ShowsAt(s, pool, header, root, base, va, k, i, p)
  }

  ghost predicate ShowsAt(s: MapState, pool: seq<SectionSlot>, header: nat, root: nat, base: nat, va: nat, k: nat,
      i: nat, p: nat) {
    && LiveAs(pool, k, header) && va >= base && i == (va - base) / PAGE_SIZE && Lists(pool, k, i, p)
    && Translate(s.m, root, 0, Indexes(va)).Some? && Translate(s.m, root, 0, Indexes(va)).value.frame == p
  }

  lemma ResolvedShows(s: MapState, pool: seq<SectionSlot>, header: nat, root: nat, r: Region, va: nat)
    requires Resolved(s, root, r, va, pool) && r.backing == SectionOf(header)
    ensures Shows(s, pool, header, root, r.base, va)
  {
    var k: nat, i: nat, p: nat :| SectionPage(s, root, r, va, pool, header, k, i, p);
    TranslateFromTable(s.m, root, Indexes(va), 3);
    assert ShowsAt(s, pool, header, root, r.base, va, k, i, p);
  }

  /** A page once shown stays shown while other pages are mapped. */
  lemma ShowsKept(s1: MapState, s2: MapState, pool: seq<SectionSlot>, header: nat, root: nat, base: nat, va: nat)
    requires Shows(s1, pool, header, root, base, va) && PagesKept(s1, s2) && IsRoot(s1.t, root)
    ensures Shows(s2, pool, header, root, base, va)
  {
    var k: nat, i: nat, p: nat :| ShowsAt(s1, pool, header, root, base, va, k, i, p);
    assert Indexes(va)[..0] == s1.t[root];
    assert Translate(s2.m, root, |s1.t[root]|, Indexes(va)) == Translate(s1.m, root, |s1.t[root]|, Indexes(va));
    assert ShowsAt(s2, pool, header, root, base, va, k, i, p);
  }

  /** The two pages are both there, and are one frame exactly when they are at one offset. */
  ghost predicate Agree(m: Memory, root1: nat, base1: nat, va1: nat, root2: nat, base2: nat, va2: nat)
    requires va1 >= base1 && va2 >= base2
  {
    var (a, b) := (Translate(m, root1, 0, Indexes(va1)), Translate(m, root2, 0, Indexes(va2)));
    a.Some? && b.Some? && (a.value.frame == b.value.frame <==> (va1 - base1) / PAGE_SIZE == (va2 - base2) / PAGE_SIZE)
  }

  /** One page for both: it is at the right offset of the second exactly when the two offsets are equal. */
  ghost predicate OnePage(m: Memory, root1: nat, base1: nat, va1: nat, root2: nat, base2: nat, va2: nat) {
    && Indexes(va1) == Indexes(va2) && va1 >= base1 && va2 >= base2
    && Translate(m, root2, 0, Indexes(va2)) == Translate(m, root1, 0, Indexes(va1))
    && (Agree(m, root1, base1, va1, root2, base2, va2)
        <==> (va1 - base1) / PAGE_SIZE == (va2 - base2) / PAGE_SIZE)
  }

  /** The pages have the same slots, and their walks share a table below the roots. */
  ghost predicate SharesPage(m: Memory, root1: nat, va1: nat, root2: nat, va2: nat) {
    Indexes(va1) == Indexes(va2) && exists k | 1 <= k <= 3 :: ShareTable(m, root2, root1, Indexes(va1), k)
  }

  lemma ShownAgree(s: MapState, pool: seq<SectionSlot>, others: seq<nat>, mapped: set<nat>, header: nat,
                   root1: nat, base1: nat, va1: nat, root2: nat, base2: nat, va2: nat)
    requires BooksOk(s, pool, others, mapped)
    requires Shows(s, pool, header, root1, base1, va1) && Shows(s, pool, header, root2, base2, va2)
    ensures va1 >= base1 && va2 >= base2 && Agree(s.m, root1, base1, va1, root2, base2, va2)
  {
    hide Translate, Wf, Slots;
    var k: nat, i: nat, p: nat :| ShowsAt(s, pool, header, root1, base1, va1, k, i, p);
    var l: nat, j: nat, q: nat :| ShowsAt(s, pool, header, root2, base2, va2, l, j, q);
    ListedFramesDistinct(s, pool, others, mapped, k, i, p, l, j, q);
    LiveOnce(s, pool, others, mapped, header, k);
  }

  /** The region of the space that holds the address maps the section and permits the access. */
  ghost predicate MapsThere(space: AddressSpace, i: nat, header: nat, fa: nat, e: ErrorCode)
    reads space
  {
    && i < |space.regions| && space.regions[i].backing == SectionOf(header) && Contains(space.regions[i], fa)
    && Permits(space.regions[i], e) && !e.present && IsUserAddress(fa)
  }

  lemma StillThere(a: seq<Region>, b: seq<Region>, i: nat)
    requires SameLayout(a, b) && i < |a|
    ensures i < |b| && b[i] == a[i].(committed := b[i].committed)
    ensures forall e :: Permits(b[i], e) == Permits(a[i], e)
  {
  }

  /** One page faulted in. */
  method FaultIn(mm: Manager, space: AddressSpace, i: nat, fa: nat, e: ErrorCode, header: nat, ghost others: seq<nat>)
    returns (status: KStatus, ghost left: seq<nat>)
    requires mm.Accounted(others) && mm.Space(space) && MapsThere(space, i, header, fa, e)
    requires Translate(mm.mmu.st.m, space.root, 0, Indexes(PageOf(fa))) == None
    modifies space`regions, mm.mmu, mm.mmu.pages, mm.mmu.pages.bitmap, mm.mmu.pages.refs
    ensures mm.Accounted(left) && TablesKept(old(mm.mmu.st), mm.mmu.st) && SameLayout(old(space.regions), space.regions)
    ensures Succeeds(old(mm.mmu.st), space.root, old(space.regions)[i], PageOf(fa)) ==> status == Success
    ensures status == Success ==> Shows(mm.mmu.st, mm.pool, header, space.root, old(space.regions)[i].base, PageOf(fa))
    ensures status == Success ==>
              PagesKept(old(mm.mmu.st), mm.mmu.st) &&
                  OthersAsBefore(old(mm.mmu.st), mm.mmu.st, space.root, Indexes(PageOf(fa)))
  {
    hide BooksOk, Resolved, PagesKept, OthersAsBefore, Translate, Stranded, UserPage;
    UserPageOf(fa);
    ghost var r := space.regions[i];
    status, left := mm.HandlePageFault(space, fa, e, others);
    if status == Success { ResolvedShows(mm.mmu.st, mm.pool, header, space.root, r, PageOf(fa)); }
  }

  /** The second of two accesses, which faults for absence if its page is absent.  (One that is there may still deny
      the access: Manager.Touch.) */
  method FaultSecond(mm: Manager, ghost root1: nat, ghost base1: nat, ghost va1: nat,
                     space2: AddressSpace, i2: nat, fa2: nat, e2: ErrorCode, header: nat, ghost others: seq<nat>)
    returns (second: Option<KStatus>, ghost left: seq<nat>)
    requires mm.Accounted(others) && mm.Space(space2) && MapsThere(space2, i2, header, fa2, e2)
    requires IsRoot(mm.mmu.st.t, root1) && Shows(mm.mmu.st, mm.pool, header, root1, base1, va1)
    modifies space2`regions, mm.mmu, mm.mmu.pages, mm.mmu.pages.bitmap, mm.mmu.pages.refs
    ensures mm.Accounted(left)
    ensures second == None <==> Translate(old(mm.mmu.st.m), space2.root, 0, Indexes(PageOf(fa2))) != None
    ensures second == None ==> mm.mmu.st == old(mm.mmu.st)
    ensures second == Some(Success) ==>
              var (base2, va2) := (old(space2.regions)[i2].base, PageOf(fa2));
              va1 >= base1 && va2 >= base2 && Agree(mm.mmu.st.m, root1, base1, va1, space2.root, base2, va2)
  {
    hide BooksOk, PagesKept, OthersAsBefore, Wf, Shows, Laid, Agree, Succeeds, Permits;
    ghost var (s, base2) := (mm.mmu.st, space2.regions[i2].base);
    left := others;
    if Translate(mm.mmu.frames, space2.root, 0, Indexes(PageOf(fa2))) != None {
      return None, others;
    }
    var status;
    status, left := FaultIn(mm, space2, i2, fa2, e2, header, others);
    second := Some(status);
    if status == Success {
      ShowsKept(s, mm.mmu.st, mm.pool, header, root1, base1, va1);
      ShownAgree(mm.mmu.st, mm.pool, left, mm.Mapped(), header, root1, base1, va1, space2.root, base2, PageOf(fa2));
    }
  }

  /** Two pages of regions that map one section are faulted in, one after the other: the second fault for
      absence happens if the page is still absent when it is accessed.  Then both translate, to one frame exactly when
      they are at the same page offset of the section.  If it does not happen, the address spaces share the
      table of the page, which is the first space's; that is right exactly when the offsets are equal. */
  method FaultInBoth(mm: Manager, space1: AddressSpace, i1: nat, fa1: nat, e1: ErrorCode,
                     space2: AddressSpace, i2: nat, fa2: nat, e2: ErrorCode, header: nat, ghost others: seq<nat>)
    returns (first: KStatus, second: Option<KStatus>, ghost left: seq<nat>)
    requires mm.Accounted(others) && mm.Space(space1) && mm.Space(space2)
    requires MapsThere(space1, i1, header, fa1, e1) && MapsThere(space2, i2, header, fa2, e2)
    requires Translate(mm.mmu.st.m, space1.root, 0, Indexes(PageOf(fa1))) == None
    requires Translate(mm.mmu.st.m, space2.root, 0, Indexes(PageOf(fa2))) == None
    modifies space1`regions, space2`regions, mm.mmu, mm.mmu.pages, mm.mmu.pages.bitmap, mm.mmu.pages.refs
    ensures mm.Accounted(left)
    ensures Succeeds(old(mm.mmu.st), space1.root, old(space1.regions)[i1], PageOf(fa1)) ==> first == Success
    ensures first == Success && second == Some(Success) ==>
              var (va1, va2) := (PageOf(fa1), PageOf(fa2));
              var (base1, base2) := (old(space1.regions)[i1].base, old(space2.regions)[i2].base);
              va1 >= base1 && va2 >= base2 && Agree(mm.mmu.st.m, space1.root, base1, va1, space2.root, base2, va2)
    ensures first == Success && second == None ==>
              OnePage(mm.mmu.st.m, space1.root, old(space1.regions)[i1].base, PageOf(fa1),
                      space2.root, old(space2.regions)[i2].base, PageOf(fa2))
    ensures first == Success && SharesPage(old(mm.mmu.st.m), space1.root, PageOf(fa1), space2.root, PageOf(fa2)) ==>
              second == None
  {
    hide BooksOk, PagesKept, OthersAsBefore, Wf, Shows, Laid, Agree, OnePage, Succeeds, Permits;
    ghost var (s1, regions1, regions2) := (mm.mmu.st, space1.regions, space2.regions);
    second := None;
    first, left := FaultIn(mm, space1, i1, fa1, e1, header, others);
    if first != Success {
      return;
    }
    ghost var s := mm.mmu.st;
    LaidKept(regions1, space1.regions, space1.nextUserBase);
    StillThere(regions1, space1.regions, i1);
    if space1 == space2 { StillThere(regions2, space2.regions, i2); }
    LaidBase(regions2, space2.nextUserBase, i2);
    Followed(s1, s, mm.pool, header, space1.root, regions1[i1], fa1, space2.root, regions2[i2], fa2);
    second, left := FaultSecond(mm, space1.root, regions1[i1].base, PageOf(fa1), space2, i2, fa2, e2, header, left);
  }

  lemma LaidBase(regions: seq<Region>, next: nat, i: nat)
    requires Laid(regions, next) && i < |regions|
    ensures regions[i].base % PAGE_SIZE == 0
  {
  }

  /** After the first fault the second page is absent, or the first one's: the latter if they share a table. */
  lemma Followed(s1: MapState, s2: MapState, pool: seq<SectionSlot>, header: nat, root1: nat, r1: Region, fa1: nat,
                 root2: nat, r2: Region, fa2: nat)
    requires OthersAsBefore(s1, s2, root1, Indexes(PageOf(fa1))) && IsRoot(s1.t, root1) && IsRoot(s1.t, root2)
    requires Translate(s1.m, root2, 0, Indexes(PageOf(fa2))) == None
    requires Shows(s2, pool, header, root1, r1.base, PageOf(fa1))
    requires Contains(r2, fa2) && r2.base % PAGE_SIZE == 0
    ensures Translate(s2.m, root2, 0, Indexes(PageOf(fa2))) != None ==>
              OnePage(s2.m, root1, r1.base, PageOf(fa1), root2, r2.base, PageOf(fa2))
    ensures SharesPage(s1.m, root1, PageOf(fa1), root2, PageOf(fa2)) ==>
              Translate(s2.m, root2, 0, Indexes(PageOf(fa2))) != None
  {
    hide OthersAsBefore, PageOf, Indexes;
    var (ix, jx) := (Indexes(PageOf(fa1)), Indexes(PageOf(fa2)));
    if ix != jx { OtherPage(s1, s2, root1, ix, root2, jx); }
    SamePageFollows(s1, s2, root1, ix, root2);
    SharerFollows(s1, s2, root1, ix, root2);
    RegionStart(r2, fa2);
  }

  /** Only the page that was mapped can have ceased to be absent. */
  lemma OtherPage(s1: MapState, s2: MapState, root1: nat, ix: seq<nat>, root: nat, jx: seq<nat>)
    requires OthersAsBefore(s1, s2, root1, ix) && IsRoot(s1.t, root) && IsIndexes(jx) && jx != ix
    ensures Translate(s2.m, root, 0, jx) == Translate(s1.m, root, 0, jx)
  {
    assert jx[..0] == s1.t[root];
    assert Translate(s2.m, root, |s1.t[root]|, jx) == Translate(s1.m, root, |s1.t[root]|, jx);
  }

  /** ... and in another address space only by following. */
  lemma SamePageFollows(s1: MapState, s2: MapState, root1: nat, ix: seq<nat>, root: nat)
    requires OthersAsBefore(s1, s2, root1, ix) && IsRoot(s1.t, root)
    ensures Translate(s2.m, root, 0, ix) == Translate(s1.m, root, 0, ix) ||
            Translate(s2.m, root, 0, ix) == Translate(s2.m, root1, 0, ix)
  {
    assert ix[..0] == s1.t[root];
    assert Translate(s2.m, root, |s1.t[root]|, ix) == Translate(s1.m, root, |s1.t[root]|, ix) ||
           Translate(s2.m, root, |s1.t[root]|, ix) == Translate(s2.m, root1, 0, ix);
  }

  lemma SharerFollows(s1: MapState, s2: MapState, root1: nat, ix: seq<nat>, root: nat)
    requires OthersAsBefore(s1, s2, root1, ix) && IsRoot(s1.t, root)
    ensures (exists k | 1 <= k <= 3 :: ShareTable(s1.m, root, root1, ix, k)) ==>
              Translate(s2.m, root, 0, ix) == Translate(s2.m, root1, 0, ix)
  {
    if k :| 1 <= k <= 3 && ShareTable(s1.m, root, root1, ix, k) {
      assert Translate(s2.m, root, 0, ix) == Translate(s2.m, root1, 0, ix);
    }
  }

  lemma RegionStart(r: Region, fa: nat)
    requires Contains(r, fa) && r.base % PAGE_SIZE == 0
    ensures PageOf(fa) >= r.base
  {
  }
}
