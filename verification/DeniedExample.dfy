/** A run in which an access that its region permits is denied: the page is there before the region is, mapped
    read-only, as another address space may have left it in a shared table. */
module DeniedExample {
  import opened Machine
  import opened Bits
  import opened PageFormat
  import opened PageTables
  import opened Ownership
  import opened PageMapping
  import opened Regions
  import opened Sections
  import opened AccessRights
  import opened CopyOnWrite
  import opened MemoryManager
  import opened Status
  import C = CopyExample

  const RIGHTS := Protection(true, true, false, true)
  const LAZY := RegionFlags(true, false, false, false)
  const WRITE := Access(true, true, false)

  /** The region lets a user write through, the fault handler does not, and the memory is as before. */
  method Run() returns (mm: Manager, space: AddressSpace, status: KStatus)
    ensures SameLayout([AnonymousRegion(USER_BASE, PAGE_SIZE, RIGHTS, LAZY)], space.regions)
    ensures Contains(space.regions[0], USER_BASE) && Permits(space.regions[0], AccessCode(false, WRITE))
    ensures status == AccessDenied && !Allowed(mm.mmu.st.m, space.root, 0, Indexes(USER_BASE), WRITE)
    ensures mm.Accounted(C.Others()) && mm.mmu.st == C.StateWith(C.MAPPED)
  {
    hide Wf, BooksOk, C.Frames, C.State, TableAt, Translate, Allowed, WiredUpTo, OutsideAsBefore,
         PresentOutcome, Repairs, LosesReference, EntryAt;
    mm := C.Start();
    space := new AddressSpace(1);
    ReadOnly();
    C.BooksInOrder(C.MAPPED);
    var base;
    ghost var left, faults;
    status, base, left := mm.MapAnonymous(space, PAGE_SIZE, RIGHTS, LAZY, C.Others());
    status, faults, left := mm.Touch(space, 0, USER_BASE, WRITE, left);
    Refused(mm.mmu.st, status);
  }

  /** The page is there, without the right to write and without a copy-on-write mark. */
  lemma ReadOnly()
    ensures var s := C.StateWith(C.MAPPED);
      && DeniedThere(s, 1, USER_BASE, WRITE) && EntryAt(s, 1, USER_BASE) == Some(C.MAPPED)
      && !Repairs(s, 1, USER_BASE, WRITE) && !LosesReference(s, 1, USER_BASE, AccessCode(true, WRITE))
      && WritableLinks(s) && IsRoot(s.t, 1) && PageOf(USER_BASE) == USER_BASE
  {
    hide TableAt, Allowed, UpperAllows;
    var s := C.StateWith(C.MAPPED);
    C.SlotIsThere(C.MAPPED);
    C.FrameWords(C.MAPPED, 4, 0);
    TranslateFromTable(s.m, 1, C.PAGE, 3);
    LeafDecides(s.m, 1, C.PAGE, C.MAPPED, WRITE);
    forall f, i | f in s.t && |s.t[f]| < 3 && 0 <= i < 512 && IsLink(s.m[f][i]) ensures s.m[f][i].writable {
      C.FrameWords(C.MAPPED, f, i);
    }
  }

  lemma Refused(s: MapState, status: KStatus)
    requires PresentOutcome(C.StateWith(C.MAPPED), s, status, 1, USER_BASE, AccessCode(true, WRITE))
    ensures status == AccessDenied && s == C.StateWith(C.MAPPED)
  {
    hide TableAt;
    ReadOnly();
  }
}
