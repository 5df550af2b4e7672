/** MmInitialize from what the firmware leaves: marking, the kernel's own root, the direct map, the books. */
module BootSequence {
  import opened PageFormat
  import opened PageTables
  import opened Ownership
  import opened PageAllocator
  import opened PageMapping
  import opened Physmap
  import opened Regions
  import opened Sections
  import opened MemoryManager
  import opened Status

  function Tracked(topPages: nat): (n: nat) { if topPages > MAX_TRACKED then MAX_TRACKED else topPages }

  /** The page is free after the marking. */
  ghost predicate FreeAtBoot(b: BootInfo, topPages: nat, p: nat) {
    p < Tracked(topPages) && Usable(b, p) && !Critical(b, p)
  }

  /** The pages free after the marking. */
  ghost function BootFrames(b: BootInfo, topPages: nat): (r: set<nat>) {
    set p | 0 <= p < MAX_TRACKED && FreeAtBoot(b, topPages, p)
  }

  /** When no frame is free, those that were are tables. */
  lemma AllTables(b: BootInfo, topPages: nat, s: MapState, t: MapState)
    requires |s.taken| == MAX_TRACKED && s.made == {} && OnlyTables(s, t) && NoneFree(t) &&
        t.tracked == Tracked(topPages)
    requires forall p | 0 <= p < MAX_TRACKED :: !s.taken[p] <==> FreeAtBoot(b, topPages, p)
    ensures |BootFrames(b, topPages)| <= |t.made|
  {
    assert BootFrames(b, topPages) <= t.made;
    assert t.made == BootFrames(b, topPages) + (t.made - BootFrames(b, topPages));
  }

  lemma TakenAtBoot(b: BootInfo, topPages: nat, s: MapState, t: MapState)
    requires |s.taken| == MAX_TRACKED && s.made == {} && OnlyTables(s, t)
    requires forall p | 0 <= p < MAX_TRACKED :: !s.taken[p] <==> FreeAtBoot(b, topPages, p)
    ensures |t.taken| == MAX_TRACKED
    ensures forall p | 0 <= p < MAX_TRACKED :: t.taken[p] <==> !FreeAtBoot(b, topPages, p) || p in t.made
  {
  }

  /** What is asked of the firmware's tables: each has its place in the walk and lies in no free page; large
      entries are 1 GiB or aligned 2 MiB ones; and what they map into the user window is untracked. */
  ghost predicate FirmwareTables(b: BootInfo, topPages: nat, m: Memory, t: Tables) {
    && Tree(m, t)
    && (forall f | f in t :: !FreeAtBoot(b, topPages, f))
    && (forall f, i | f in t && |t[f]| < 3 && 0 <= i < 512 :: LargeAllowed(t[f], m[f][i]))
    && (forall f, i | f in t && |t[f]| == 3 && UserPath(t[f]) && 0 <= i < 512 && m[f][i].present ::
        m[f][i].pfn >= MAX_TRACKED)
  }

  /** Nothing is counted, and nothing is there to be counted. */
  lemma FirstAccount(b: BootInfo, topPages: nat, m: Memory, t: Tables, refs: seq<nat>, taken: seq<bool>, tracked: nat)
    requires FirmwareTables(b, topPages, m, t) && |refs| == |taken| == MAX_TRACKED
    requires forall p | 0 <= p < MAX_TRACKED :: refs[p] == 0 && (!taken[p] <==> FreeAtBoot(b, topPages, p))
    requires taken[0]
    ensures var s := MapState(m, t, {}, refs, taken, tracked); Wf(s) && Counted(s, NobodyElse())
  {
    var s := MapState(m, t, {}, refs, taken, tracked);
    forall p | 0 <= p < MAX_TRACKED
      ensures s.refs[p] == |Slots(s, p)| + (if p in s.made then 1 else 0) + NobodyElse()[p]
    {
      assert Slots(s, p) == {};
    }
  }

  /** The firmware's pages, but for those below the root slot of the direct map. */
  ghost predicate FirmwareKept(m1: Memory, root1: nat, m2: Memory, root2: nat) {
    forall ix | IsIndexes(ix) && ix[0] != ROOT_SLOT :: Translate(m2, root2, 0, ix) == Translate(m1, root1, 0, ix)
  }

  lemma KeptThrough(m1: Memory, root1: nat, m2: Memory, m3: Memory, t: Tables, root: nat)
    requires SamePages(m1, root1, m2, root)
    requires Tree(m2, t) && IsRoot(t, root) && DiffersAt(m2, m3, t, root, ROOT_SLOT)
    ensures FirmwareKept(m1, root1, m3, root)
  {
    forall ix | IsIndexes(ix) && ix[0] != ROOT_SLOT ensures Translate(m3, root, 0, ix) == Translate(m1, root1, 0, ix) {
      OtherPagesKept(m2, m3, t, root, ix);
    }
  }

  /** The first half of MmInitialize: the pages, marked, under the firmware's tables. */
  method MarkedMemory(b: BootInfo, topPages: nat, frames: Memory, ghost tables: Tables) returns (mmu: PageMap)
    requires NonWrapping(b) && FirmwareTables(b, topPages, frames, tables) && Tracked(topPages) <= |frames|
    ensures fresh(mmu) && fresh(mmu.pages) && fresh(mmu.pages.bitmap) && fresh(mmu.pages.refs)
    ensures mmu.Valid() && Counted(mmu.st, NobodyElse()) && mmu.pages.tracked == Tracked(topPages)
    ensures mmu.st.m == frames && mmu.st.t == tables && mmu.st.made == {} && mmu.st.tracked == Tracked(topPages)
    ensures forall p | 0 <= p < MAX_TRACKED :: !mmu.st.taken[p] <==> FreeAtBoot(b, topPages, p)
  {
    hide Wf, Counted, Tree, FrameAllocator.BitsAgree, FirmwareTables, Usable, Critical;
    var pages := new FrameAllocator(topPages);
    pages.MarkBoot(b);
    FirstAccount(b, topPages, frames, tables, pages.refs[..], pages.taken, pages.tracked);
    mmu := new PageMap(pages, frames, tables);
  }

  /** The memory manager as MmInitialize leaves it: every count accounted for with nothing held elsewhere, the
      direct map in place, and every other page where the firmware had it. */
  method Boot(b: BootInfo, topPages: nat, frames: Memory, ghost tables: Tables, firmwareRoot: nat)
    returns (status: KStatus, mm: Manager?, kernelRoot: nat)
    requires NonWrapping(b) && FirmwareTables(b, topPages, frames, tables) && IsRoot(tables, firmwareRoot)
    requires Tracked(topPages) <= |frames|
    ensures status == Success || status == InitFailed
    ensures status == Success <==> mm != null
    ensures firmwareRoot == 0 ==> status == InitFailed
    ensures mm != null ==>
              && fresh(mm) && mm.Accounted(NobodyElse()) && Clean(mm.pool, NobodyElse()) && mm.mappings == multiset{}
              && IsRoot(mm.mmu.st.t, kernelRoot)
              && DirectMap(mm.mmu.st.m, kernelRoot, MappedBytes(Tracked(topPages)))
              && FirmwareKept(frames, firmwareRoot, mm.mmu.st.m, kernelRoot)
              && (LinksWritable(frames, tables) ==> WritableLinks(mm.mmu.st))
              && forall p | 0 <= p < MAX_TRACKED ::
                   mm.mmu.st.taken[p] <==> !FreeAtBoot(b, topPages, p) || p in mm.mmu.st.made
    ensures status != Success ==> firmwareRoot == 0 || |BootFrames(b, topPages)| < 3
  {
    hide LinksWritable, BootFrames, Wf, Counted, Grown, DirectMap, DiffersAt, BooksOk, Tree, Clean, FirmwareTables,
        FrameAllocator.Valid, Usable, Critical, OnlyTables,
         FirmwareKept, NonWrapping, FreeAtBoot, SamePages, Translate;
    mm, kernelRoot := null, 0;
    if firmwareRoot == 0 {
      return InitFailed, null, 0;
    }
    var mmu := MarkedMemory(b, topPages, frames, tables);
    ghost var s := mmu.st;
    TreeOf(s);
    status, kernelRoot := mmu.CloneKernelRoot(firmwareRoot);
    ghost var t := mmu.st;
    GrownTaken(s, t);
    if status != Success {
      AllTables(b, topPages, s, t);
      return;
    }
    GrownCounted(s, t, NobodyElse());
    GrownPages(s, t);
    status := BuildPhysmap(mmu, kernelRoot, NobodyElse());
    OnlyTablesTransitive(s, t, mmu.st);
    if status != Success {
      AllTables(b, topPages, s, mmu.st);
      return;
    }
    TakenAtBoot(b, topPages, s, mmu.st);
    TreeOf(t);
    KeptThrough(frames, firmwareRoot, t.m, mmu.st.m, t.t, kernelRoot);
    mm := new Manager(mmu);
  }

  lemma TreeOf(s: MapState)
    requires Wf(s)
    ensures Tree(s.m, s.t) && |s.taken| == MAX_TRACKED
  {
  }
}
