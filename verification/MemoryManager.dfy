/** Regions, sections and page faults over the page tables (kernel/mm/init.c). */
module MemoryManager {
  import opened Machine
  import opened PageFormat
  import opened PageTables
  import opened Ownership
  import opened PageAllocator
  import opened PageMapping
  import opened Regions
  import opened Sections
  import opened AccessRights
  import opened CopyOnWrite
  import opened Status

  class Manager {
    const mmu: PageMap
    var pool: seq<SectionSlot>
    /** For every section, by its header, how many regions map it. */
    ghost var mappings: multiset<nat>

    /** After boot: no sections, and every count belongs to a table or a slot. */
    constructor (mmu: PageMap)
      requires mmu.Valid() && Counted(mmu.st, NobodyElse())
      ensures Accounted(NobodyElse()) && this.mmu == mmu && mappings == multiset{} && Clean(pool, NobodyElse())
    {
      this.mmu := mmu;
      pool := seq(MAX_SECTIONS, _ => FREE_SLOT);
      mappings := multiset{};
    }

    /** The headers of the sections some region maps. */
    ghost function Mapped(): (headers: set<nat>)
      reads this`mappings
    {
      set h | h in mappings
    }

    /** The frame account is in order, with `others` the references to each frame held
        outside tables and user-window slots. */
    ghost predicate Accounted(others: seq<nat>)
      reads this, mmu, mmu.pages, mmu.pages.bitmap, mmu.pages.refs
    {
      mmu.Represents() && BooksOk(mmu.st, pool, others, Mapped())
    }

    /** The space is laid out, its root is a root and its sections are known. */
    ghost predicate Space(space: AddressSpace)
      reads this, mmu, space
    {
      && Laid(space.regions, space.nextUserBase) && IsRoot(mmu.st.t, space.root)
      && forall i | 0 <= i < |space.regions| :: BackedBy(space.regions[i])
    }

    /** The section of a section region is mapped and as large as the region. */
    ghost predicate BackedBy(r: Region)
      reads this
    {
      RegionBacked(r, pool, Mapped())
    }

    /** MmAsUnmapPage, and what is left of the account. */
    method Unmap(root: nat, va: nat, ghost others: seq<nat>) returns (status: KStatus)
      requires Accounted(others) && IsRoot(mmu.st.t, root)
      modifies mmu, mmu.pages`taken, mmu.pages.bitmap, mmu.pages.refs
      ensures mmu.Represents() && (status != Success ==> mmu.st == old(mmu.st))
      ensures status == InvalidParameter <==> va % PAGE_SIZE != 0 || !IsCanonical(va)
      ensures status == Success <==>
                va % PAGE_SIZE == 0 && IsCanonical(va) && LeafEntry(old(mmu.st.m), root, Indexes(va)).Some?
      ensures status == Success ==>
                SlotIs(mmu.st.m, root, Indexes(va), ZERO) && OthersAsBefore(old(mmu.st), mmu.st, root, Indexes(va))
      ensures WritableLinks(old(mmu.st)) ==> WritableLinks(mmu.st)
      ensures Accounted(others) <==>
              status != Success || UserPage(va) ||
                  NamesNothing(old(mmu.st), LeafEntry(old(mmu.st.m), root, Indexes(va)).value)
    {
      hide BooksOk, Wf, Counted, Translate, AliasesFollow, WritableLinks;
      BooksShape(mmu.st, pool, others, Mapped());
      ghost var s := mmu.st;
      status := mmu.UnmapPage(root, va);
      if status == Success {
        RewriteEffect(s, mmu.st, root, Indexes(va), ZERO);
        BooksUnmapped(s, mmu.st, root, va, pool, others, Mapped());
      }
    }

    /** MmAsProtectPage, likewise. */
    method Protect(root: nat, va: nat, flags: Word, ghost others: seq<nat>) returns (status: KStatus)
      requires Accounted(others) && IsRoot(mmu.st.t, root)
      modifies mmu
      ensures mmu.Represents() && (status != Success ==> mmu.st == old(mmu.st))
      ensures status == InvalidParameter <==> va % PAGE_SIZE != 0 || !IsCanonical(va)
      ensures status == Success <==>
                va % PAGE_SIZE == 0 && IsCanonical(va) && LeafEntry(old(mmu.st.m), root, Indexes(va)).Some?
      ensures status == Success ==>
                var e := LeafEntry(old(mmu.st.m), root, Indexes(va)).value;
                SlotIs(mmu.st.m, root, Indexes(va), ProtectWord(e, flags)) &&
                OthersAsBefore(old(mmu.st), mmu.st, root, Indexes(va)) &&
                SameUpper(old(mmu.st).m, mmu.st.m, root, Indexes(va))
      ensures WritableLinks(old(mmu.st)) ==> WritableLinks(mmu.st)
      ensures Accounted(others) <==>
              status != Success || FrameKept(LeafEntry(old(mmu.st.m), root, Indexes(va)).value, flags, va)
    {
      hide BooksOk, Wf, Counted, Translate, AliasesFollow, FrameKept, ProtectWord, WritableLinks;
      BooksShape(mmu.st, pool, others, Mapped());
      ghost var s := mmu.st;
      status := mmu.ProtectPage(root, va, flags);
      if status == Success {
        ProtectEffect(s, mmu.st, root, Indexes(va), flags);
        ProtectKeepsUpper(s, mmu.st, root, Indexes(va), flags);
        BooksProtected(s, mmu.st, root, va, flags, pool, others, Mapped());
      }
    }

    /** MmCreateAddressSpace: a root that maps every page as the kernel's root does, and no regions. */
    method CreateSpace(kernelRoot: nat, ghost others: seq<nat>) returns (status: KStatus, space: AddressSpace?)
      requires Accounted(others) && IsRoot(mmu.st.t, kernelRoot)
      modifies mmu, mmu.pages, mmu.pages.bitmap, mmu.pages.refs
      ensures Accounted(others) && SameView(old(mmu.st).m, old(mmu.st).t, mmu.st.m, mmu.st.t)
      ensures status == Success <==> space != null
      ensures status != Success ==> status == InitFailed && mmu.Exhausted()
      ensures WritableLinks(old(mmu.st)) ==> WritableLinks(mmu.st)
      ensures space != null ==>
                fresh(space) && Space(space) && space.regions == [] && space.nextUserBase == USER_BASE &&
                SamePages(old(mmu.st).m, kernelRoot, mmu.st.m, space.root)
    {
      hide BooksOk, Wf, SameView, SamePages, Counted, WritableLinks;
      BooksShape(mmu.st, pool, others, Mapped());
      ghost var s := mmu.st;
      space := null;
      var root;
      status, root := mmu.CloneKernelRoot(kernelRoot);
      BooksGrown(s, mmu.st, pool, others, Mapped());
      GrownPages(s, mmu.st);
      if status == Success {
        space := new AddressSpace(root);
      }
    }

    /** A cleared frame that nobody else knows. */
    method TakeCleared(ghost others: seq<nat>) returns (status: KStatus, n: nat)
      requires Accounted(others)
      modifies mmu, mmu.pages, mmu.pages.bitmap, mmu.pages.refs
      ensures status != Success ==>
                status == InitFailed && mmu.Exhausted() && mmu.st == old(mmu.st) && Accounted(others)
      ensures status == Success <==> !NoneFree(old(mmu.st))
      ensures status == Success ==>
                && 0 < n < MAX_TRACKED && n < mmu.st.tracked && n < |old(mmu.st).m| == |mmu.st.m| && n !in mmu.st.t &&
                    IsEmptyTable(mmu.st.m[n])
                && mmu.st == TakeFrame(old(mmu.st), n, mmu.st.m[n])
                && !old(mmu.st).taken[n] && old(mmu.st).refs[n] == 0
                && others[n] == 0 && Accounted(others[n := 1]) && !Listed(pool, n) && Slots(mmu.st, n) == {}
                && SameView(old(mmu.st).m, mmu.st.t, mmu.st.m, mmu.st.t)
                && WalksKept(old(mmu.st).m, mmu.st.t, mmu.st.m)
                && (WritableLinks(old(mmu.st)) ==> WritableLinks(mmu.st))
    {
      ghost var s := mmu.st;
      status, n := mmu.AllocCleared();
      if status != Success {
        return;
      }
      BooksTaken(s, n, mmu.st.m[n], pool, others, Mapped());
      assert Slots(mmu.st, n) <= Slots(s, n);
      WalksUntouched(s.m, mmu.st.m, s.t);
    }

    /** Maps a frame the caller holds a spare reference to, handing the reference over. */
    method MapOwned(root: nat, va: nat, p: nat, flags: Word, ghost others: seq<nat>) returns (status: KStatus)
      requires Accounted(others) && IsRoot(mmu.st.t, root) && va % PAGE_SIZE == 0
      requires p < MAX_TRACKED && flags.pfn == 0 && Spare(pool, others, p) > 0 && OnlyInMapped(pool, Mapped(), p)
      modifies mmu, mmu.pages, mmu.pages.bitmap, mmu.pages.refs
      ensures status in {Success, InitFailed, NotImplemented, InvalidParameter}
      ensures status == InvalidParameter <==> !IsCanonical(va)
      ensures IsCanonical(va) && TableAt(old(mmu.st).m, root, Indexes(va), 3).Some? ==> status == Success
      ensures status == InitFailed ==> mmu.Exhausted()
      ensures status == NotImplemented ==> Translate(mmu.st.m, root, 0, Indexes(va)).Some?
      ensures status != Success ==> Accounted(others) && Grown(old(mmu.st), mmu.st)
      ensures status == Success ==>
                var w := flags.(present := true, pfn := p);
                && Remapped(old(mmu.st), mmu.st, root, va, w) && mmu.Represents()
                && AtMostShort(mmu.st, AfterMap(others, va, w), 1)
                && (Countable(old(mmu.st), root, va) ==> Accounted(AfterMap(others, va, w)))
      ensures WritableLinks(old(mmu.st)) ==> WritableLinks(mmu.st)
    {
      hide BooksOk, Wf, Remapped, Grown, Countable, AfterMap, AtMostShort, Translate;
      ghost var s := mmu.st;
      BooksShape(s, pool, others, Mapped());
      MapWordOf(p, flags);
      status := mmu.MapPage(root, va, p * PAGE_SIZE, flags);
      if status == Success {
        MappedBooks(s, mmu.st, root, va, flags.(present := true, pfn := p), pool, others, Mapped());
      } else {
        BooksGrown(s, mmu.st, pool, others, Mapped());
      }
    }
  
    /** A fault on a page of an anonymous region: a cleared page of its own.  When it cannot be mapped
        its frame stays allocated, and nobody has it. */
    method FaultAnonymous(root: nat, r: Region, va: nat, ghost others: seq<nat>)
      returns (status: KStatus, ghost left: seq<nat>)
      requires Accounted(others) && IsRoot(mmu.st.t, root) && va % PAGE_SIZE == 0
      modifies mmu, mmu.pages, mmu.pages.bitmap, mmu.pages.refs
      ensures mmu.Represents() && AtMostShort(mmu.st, left, 1) && (status == Success ==> Settled(va, others, left))
      ensures status != Success || Countable(old(mmu.st), root, va) ==> Accounted(left)
      ensures status != Success ==> Stranded(old(mmu.st), mmu.st, others, left)
      ensures status == Success && Countable(old(mmu.st), root, va) ==> OwnSlotsKept(old(mmu.st), mmu.st, Indexes(va))
      ensures status == Success && Translate(old(mmu.st).m, root, 0, Indexes(va)) == None ==>
                PagesKept(old(mmu.st), mmu.st)
      ensures status in {Success, InitFailed, NotImplemented, InvalidParameter}
      ensures status == InvalidParameter ==> !IsCanonical(va)
      ensures IsCanonical(va) && !NoneFree(old(mmu.st)) && TableAt(old(mmu.st).m, root, Indexes(va), 3).Some? ==>
                status == Success
      ensures status == InitFailed ==> mmu.Exhausted()
      ensures status == NotImplemented ==> Translate(old(mmu.st).m, root, 0, Indexes(va)).Some?
      ensures status != Success ==> SameView(old(mmu.st).m, old(mmu.st).t, mmu.st.m, mmu.st.t)
      ensures status == Success ==> exists p: nat :: FaultedIn(mmu.st, root, r, va, p)
      ensures status == Success ==> WalksKept(old(mmu.st.m), old(mmu.st.t), mmu.st.m)
      ensures status == Success && Countable(old(mmu.st), root, va) ==> exists p: nat :: OwnPage(mmu.st, root, r, va, p)
      ensures status == Success ==> OthersAsBefore(old(mmu.st), mmu.st, root, Indexes(va))
      ensures status == Success ==> IdleKept(old(mmu.st), mmu.st)
      ensures WritableLinks(old(mmu.st)) ==> WritableLinks(mmu.st)
    {
      hide BooksOk, SameView, Wf, Remapped, Grown, Indexes, Translate, AtMostShort, Countable, FaultedIn, WalksKept;
      BooksShape(mmu.st, pool, others, Mapped());
      InOrder(mmu.st, others);
      SameViewReflexive(mmu.st.m, mmu.st.t);
      ghost var s := mmu.st;
      mmu.CountsTaken();
      left := others;
      var n;
      status, n := TakeCleared(others);
      if status != Success {
        return;
      }
      ghost var t := mmu.st;
      left := others[n := 1];
      BooksShape(t, pool, left, Mapped());
      StillCountable(s, t, root, va);
      status := MapOwned(root, va, n, ProtectionToPte(r.protection, r.flags), left);
      if status == Success {
        AnonymousFaulted(s, t, mmu.st, root, r, va, n, left);
        AnonymousKept(s, t, mmu.st, root, r, va, n, left);
        MapKeepsWalks(t, mmu.st, root, va, RegionWord(r, n));
        WalksKeptTransitive(s.m, s.t, t.m, t.t, mmu.st.m);
        IdleAfterMap(t, mmu.st, root, va, RegionWord(r, n));
        Settles(others, left, va, n, RegionWord(r, n));
        left := AfterMap(left, va, RegionWord(r, n));
      } else {
        assert OneMore(others, left, n);
        BooksShape(mmu.st, pool, left, Mapped());
        InOrder(mmu.st, left);
        GrownView(t, mmu.st);
        SameViewTransitive(s.m, s.t, t.m, t.t, mmu.st.m, mmu.st.t);
      }
    }

    /** A fault on a page of a section region: the section's own frame.  When it cannot be mapped the
        frame keeps a reference nobody has. */
    method FaultSection(root: nat, r: Region, va: nat, p: nat, ghost others: seq<nat>)
      returns (status: KStatus, ghost left: seq<nat>)
      requires Accounted(others) && IsRoot(mmu.st.t, root) && va % PAGE_SIZE == 0
      requires Listed(pool, p) && OnlyInMapped(pool, Mapped(), p)
      modifies mmu, mmu.pages, mmu.pages.bitmap, mmu.pages.refs
      ensures mmu.Represents() && AtMostShort(mmu.st, left, 1) && (status == Success ==> Settled(va, others, left))
      ensures status != Success || Countable(old(mmu.st), root, va) ==> Accounted(left)
      ensures status != Success ==> OneMore(others, left, p)
      ensures status == Success && Translate(old(mmu.st).m, root, 0, Indexes(va)) == None ==>
                PagesKept(old(mmu.st), mmu.st)
      ensures status in {Success, InitFailed, NotImplemented, InvalidParameter}
      ensures status == InvalidParameter ==> !IsCanonical(va)
      ensures IsCanonical(va) && TableAt(old(mmu.st).m, root, Indexes(va), 3).Some? ==> status == Success
      ensures status == InitFailed ==> mmu.Exhausted()
      ensures status == NotImplemented ==> Translate(old(mmu.st).m, root, 0, Indexes(va)).Some?
      ensures status != Success ==> SameView(old(mmu.st).m, old(mmu.st).t, mmu.st.m, mmu.st.t)
      ensures status == Success ==>
                FaultedIn(mmu.st, root, r, va, p) && OthersAsBefore(old(mmu.st), mmu.st, root, Indexes(va))
      ensures WritableLinks(old(mmu.st)) ==> WritableLinks(mmu.st)
    {
      hide BooksOk, SameView, Wf, Remapped, Grown, AtMostShort, Countable;
      BooksShape(mmu.st, pool, others, Mapped());
      SameViewReflexive(mmu.st.m, mmu.st.t);
      ghost var s := mmu.st;
      ListedCounted(s, pool, others, Mapped(), p);
      mmu.Retain(p);
      BooksRetained(s, p, pool, others, Mapped());
      ghost var t := mmu.st;
      left := others[p := others[p] + 1];
      StillCountable(s, t, root, va);
      status := MapOwned(root, va, p, ProtectionToPte(r.protection, r.flags), left);
      if status == Success {
        SectionFaulted(s, t, mmu.st, root, r, va, p);
        SectionKept(s, t, mmu.st, root, r, va, p);
        Settles(others, left, va, p, RegionWord(r, p));
        left := AfterMap(left, va, RegionWord(r, p));
      } else {
        BooksShape(mmu.st, pool, left, Mapped());
        InOrder(mmu.st, left);
        GrownView(t, mmu.st);
        SameViewTransitive(s.m, s.t, t.m, t.t, mmu.st.m, mmu.st.t);
      }
    }

    /** A write to a copy-on-write page nobody else counts: it becomes writable in place. */
    method FaultOwnCopy(root: nat, va: nat, entry: Word, ghost others: seq<nat>) returns (status: KStatus)
      requires Accounted(others) && IsRoot(mmu.st.t, root) && va % PAGE_SIZE == 0 && IsCanonical(va)
      requires SlotIs(mmu.st.m, root, Indexes(va), entry) && entry.present
      modifies mmu
      ensures Accounted(others) && status == Success
      ensures   && SlotIs(mmu.st.m, root, Indexes(va), entry.(softCow := false, writable := true))
                && PathOpen(mmu.st.m, root, Indexes(va), 3) == PathOpen(old(mmu.st).m, root, Indexes(va), 3)
                && SameUpper(old(mmu.st).m, mmu.st.m, root, Indexes(va))
                && OthersAsBefore(old(mmu.st), mmu.st, root, Indexes(va))
                && SameAccount(old(mmu.st), mmu.st) && DataKept(old(mmu.st), mmu.st)
    {
      ghost var s := mmu.st;
      status := mmu.ProtectPage(root, va, entry.(softCow := false, writable := true));
      if status == Success {
        MadeWritable(entry);
        ProtectEffect(s, mmu.st, root, Indexes(va), entry.(softCow := false, writable := true));
        ProtectKeepsUpper(s, mmu.st, root, Indexes(va), entry.(softCow := false, writable := true));
        BooksReprotected(s, mmu.st, pool, others, Mapped());
      }
    }

    /** A write to a copy-on-write page others count: a copy is mapped.  The old frame is
        released here and once more by the map, so a tracked one ends up one reference short; outside the
        user window, where its slot is not counted, up to two. */
    method FaultSharedCopy(root: nat, va: nat, entry: Word, ghost others: seq<nat>)
      returns (status: KStatus, ghost left: seq<nat>)
      requires Accounted(others) && IsRoot(mmu.st.t, root) && va % PAGE_SIZE == 0 && IsCanonical(va)
      requires SlotIs(mmu.st.m, root, Indexes(va), entry) && entry.present
      requires entry.pfn < MAX_TRACKED ==> mmu.st.refs[entry.pfn] != 1
      modifies mmu, mmu.pages, mmu.pages.bitmap, mmu.pages.refs
      ensures mmu.Represents()
      ensures status == if NoneFree(old(mmu.st)) then InitFailed else Success
      ensures status != Success ==> mmu.st == old(mmu.st) && left == others
      ensures status == Success ==> Copied(old(mmu.st), mmu.st, root, va, entry)
      ensures AtMostShort(mmu.st, left, 2)
      ensures if UserPage(va) || status != Success then left == others else exists n: nat :: OneMore(others, left, n)
      ensures status == Success && UserPage(va) && entry.pfn < MAX_TRACKED ==> OneShort(mmu.st, left, entry.pfn)
      ensures status == Success && Countable(old(mmu.st), root, va) ==>
                (Accounted(left) <==> !(UserPage(va) && entry.pfn < MAX_TRACKED))
      ensures TablesKept(old(mmu.st), mmu.st) && (WritableLinks(old(mmu.st)) ==> WritableLinks(mmu.st))
    {
      hide BooksOk, Remapped, Short, Copied, Wf, AtMostShort, Countable, WritableLinks, Counted, Translate, CopyReady,
           CopyTaken;
      BooksShape(mmu.st, pool, others, Mapped());
      InOrder(mmu.st, others);
      ghost var s := mmu.st;
      left := others;
      var n;
      ghost var content;
      status, n, content := TakeCopy(root, va, entry, others);
      if status != Success {
        return;
      }
      var flags := entry.(softCow := false, writable := true, pfn := 0);
      MapWordOf(n, flags);
      status := mmu.MapPage(root, va, n * PAGE_SIZE, flags);
      left := if UserPage(va) then others else others[n := 1];
      assert !UserPage(va) ==> OneMore(others, left, n);
      SharedPages(s, mmu.st, root, va, entry, n, content, others);
      SharedAccount(s, mmu.st, root, va, entry, n, content, pool, others, Mapped());
    }

    /** The first half of the copying branch: a frame with a copy of the old one, which is released. */
    method TakeCopy(ghost root: nat, ghost va: nat, entry: Word, ghost others: seq<nat>)
      returns (status: KStatus, n: nat, ghost content: Frame)
      requires Accounted(others) && IsRoot(mmu.st.t, root)
      requires SlotIs(mmu.st.m, root, Indexes(va), entry) && entry.present
      requires entry.pfn < MAX_TRACKED ==> mmu.st.refs[entry.pfn] != 1
      modifies mmu, mmu.pages, mmu.pages.bitmap, mmu.pages.refs
      ensures mmu.Represents()
      ensures status == if NoneFree(old(mmu.st)) then InitFailed else Success
      ensures status != Success ==> mmu.st == old(mmu.st) && mmu.Exhausted()
      ensures status == Success ==>
                && n < MAX_TRACKED && n < |others| && others[n] == 0
                && CopyReady(old(mmu.st), entry, n, content, root, va, others)
                && mmu.st == CopyTaken(old(mmu.st), n, content, entry.pfn) && mmu.Valid()
                && IsRoot(mmu.st.t, root) && TableAt(mmu.st.m, root, Indexes(va), 3).Some?
    {
      hide BooksOk, Short, Wf, Counted, Translate;
      BooksShape(mmu.st, pool, others, Mapped());
      BooksSizes(mmu.st, pool, others, Mapped());
      ghost var s := mmu.st;
      if UserPage(va) { NamedCounted(s, root, va, entry, others); }
      status, n := mmu.AllocCopy(entry.pfn);
      content := seq(512, _ => ZERO);
      if status != Success {
        return;
      }
      content := mmu.st.m[n];
      assert CopyReady(s, entry, n, content, root, va, others);
      TakenShort(s, n, content, entry.pfn, others);
      mmu.Release(entry.pfn);
      assert mmu.st == CopyTaken(s, n, content, entry.pfn);
      CopyWalk(s, mmu.st, n, root, va, entry);
    }

    /** MmpFindSectionByHeader */
    method FindSection(header: nat) returns (found: Option<nat>)
      requires PoolShape(pool)
      ensures found.Some? ==> LiveAs(pool, found.value, header)
      ensures found.None? ==> forall k: nat :: !LiveAs(pool, k, header)
    {
      var index := 0;
      while index < MAX_SECTIONS
        invariant 0 <= index <= MAX_SECTIONS
        invariant forall k: nat | k < index :: !LiveAs(pool, k, header)
      {
        if pool[index].inUse && pool[index].header == Some(header) {
          return Some(index);
        }
        index := index + 1;
      }
      return None;
    }

    /** A fault on an absent page of a region. */
    method FaultAbsent(root: nat, r: Region, va: nat, ghost others: seq<nat>)
      returns (status: KStatus, ghost left: seq<nat>)
      requires Accounted(others) && IsRoot(mmu.st.t, root) && va % PAGE_SIZE == 0
      requires BackedBy(r) && r.base % PAGE_SIZE == 0 && r.base <= va < r.base + r.size
      modifies mmu, mmu.pages, mmu.pages.bitmap, mmu.pages.refs
      ensures mmu.Represents() && AtMostShort(mmu.st, left, 1) && (status == Success ==> Settled(va, others, left))
      ensures status != Success || Countable(old(mmu.st), root, va) ==> Accounted(left)
      ensures status in {Success, InitFailed, NotImplemented, InvalidParameter}
      ensures status == InvalidParameter ==> !IsCanonical(va)
      ensures Succeeds(old(mmu.st), root, r, va) ==> status == Success
      ensures status == InitFailed ==> mmu.Exhausted()
      ensures status == NotImplemented ==> Translate(old(mmu.st).m, root, 0, Indexes(va)).Some?
      ensures status != Success ==> SameView(old(mmu.st).m, old(mmu.st).t, mmu.st.m, mmu.st.t)
      ensures status != Success ==> Stranded(old(mmu.st), mmu.st, others, left)
      ensures status == Success && Translate(old(mmu.st).m, root, 0, Indexes(va)) == None ==>
                PagesKept(old(mmu.st), mmu.st)
      ensures status == Success ==>
                Placed(mmu.st, root, r, va, pool) && OthersAsBefore(old(mmu.st), mmu.st, root, Indexes(va))
      ensures status == Success && Countable(old(mmu.st), root, va) ==> Resolved(mmu.st, root, r, va, pool)
      ensures WritableLinks(old(mmu.st)) ==> WritableLinks(mmu.st)
      ensures status == Success && IsUserAddress(va) && WritableLinks(old(mmu.st)) ==> GrantsAs(mmu.st, root, va, r)
    {
      hide Wf, SameView, PagesKept, OwnSlotsKept, Translate, AtMostShort, Countable, AliasesFollow, WritableLinks,
           GrantsAs;
      ghost var s := mmu.st;
      left := others;
      match r.backing {
      case Anonymous =>
        status, left := FaultAnonymous(root, r, va, others);
      case SectionOf(header) =>
        var slot := FindSection(header);
        // A mapped section is live, so the search succeeds.
        assert slot.Some?;
        var index := (va - r.base) / PAGE_SIZE % 0x1_0000_0000;
        PageIndexInSection(va - r.base, pool[slot.value].pageCount);
        var p := pool[slot.value].pages[index];
        assert Lists(pool, slot.value, index, p);
        assert OnlyInMapped(pool, Mapped(), p);
        status, left := FaultSection(root, r, va, p, others);
        if status == Success {
          assert SectionPage(mmu.st, root, r, va, pool, header, slot.value, index, p);
        }
      }
      if status == Success && IsUserAddress(va) && WritableLinks(s) {
        TreeOfShort(mmu.st, left, 1);
        PlacedGrants(mmu.st, root, r, va, pool);
      }
    }

    /** A protection fault: only a copy-on-write page is ever repaired. */
    method FaultPresent(root: nat, va: nat, e: ErrorCode, ghost others: seq<nat>)
      returns (status: KStatus, ghost left: seq<nat>)
      requires Accounted(others) && IsRoot(mmu.st.t, root) && va % PAGE_SIZE == 0
      requires e.present && (e.write ==> MarkedPresent(mmu.st, root, va))
      modifies mmu, mmu.pages, mmu.pages.bitmap, mmu.pages.refs
      ensures TablesKept(old(mmu.st), mmu.st) && mmu.Represents() && AtMostShort(mmu.st, left, 2)
      ensures Accountable(old(mmu.st), root, va, e) ==> (Accounted(left) <==> !LosesReference(old(mmu.st), root, va, e))
      ensures LosesReference(old(mmu.st), root, va, e) ==>
                OneShort(mmu.st, left, EntryAt(old(mmu.st), root, va).value.pfn)
      ensures LeftBy(old(mmu.st), mmu.st, status, va, e, others, left)
      ensures WritableLinks(old(mmu.st)) ==> WritableLinks(mmu.st)
      ensures PresentOutcome(old(mmu.st), mmu.st, status, root, va, e)
      ensures status == InitFailed ==> mmu.Exhausted()
    {
      hide BooksOk, Wf, AtMostShort, Short, WritableLinks, Copied, OthersAsBefore, Countable, Counted;
      BooksShape(mmu.st, pool, others, Mapped());
      InOrder(mmu.st, others);
      left := others;
      var st, entry := mmu.QueryPte(root, va);
      if st == Success && entry.softCow && e.write {
        if entry.pfn < MAX_TRACKED && mmu.pages.refs[entry.pfn] == 1 {
          status := FaultOwnCopy(root, va, entry, others);
          BooksShape(mmu.st, pool, others, Mapped());
          InOrder(mmu.st, others);
        } else {
          status, left := FaultSharedCopy(root, va, entry, others);
        }
        return;
      }
      status := AccessDenied;
    }

    /** A fault of a kind region r permits. */
    method FaultPermitted(root: nat, r: Region, va: nat, e: ErrorCode, ghost others: seq<nat>)
      returns (status: KStatus, ghost left: seq<nat>)
      requires Accounted(others) && IsRoot(mmu.st.t, root) && va % PAGE_SIZE == 0
      requires e.present && e.write ==> MarkedPresent(mmu.st, root, va)
      requires BackedBy(r) && r.base % PAGE_SIZE == 0 && r.base <= va < r.base + r.size
      modifies mmu, mmu.pages, mmu.pages.bitmap, mmu.pages.refs
      ensures Handled(old(mmu.st), mmu.st, status, root, r, va, e, pool)
      ensures TablesKept(old(mmu.st), mmu.st) && mmu.Represents() && AtMostShort(mmu.st, left, 2)
      ensures WritableLinks(old(mmu.st)) ==> WritableLinks(mmu.st)
      ensures Accountable(old(mmu.st), root, va, e) ==> (Accounted(left) <==> !LosesReference(old(mmu.st), root, va, e))
      ensures LosesReference(old(mmu.st), root, va, e) ==>
                OneShort(mmu.st, left, EntryAt(old(mmu.st), root, va).value.pfn)
      ensures LeftBy(old(mmu.st), mmu.st, status, va, e, others, left)
      ensures status == InitFailed ==> mmu.Exhausted()
    {
      hide BooksOk, Wf, Short, Grown;
      if e.present {
        status, left := FaultPresent(root, va, e, others);
      } else {
        status, left := FaultAbsent(root, r, va, others);
      }
    }

    /** MmHandlePageFault, whatever the error code claims.  What the frame
        account can follow it keeps exactly, but for a tracked frame that is copied in the user window; in
        no case are more than two references to one frame lost. */
    method HandlePageFault(space: AddressSpace, fa: nat, e: ErrorCode, ghost others: seq<nat>)
      returns (status: KStatus, ghost left: seq<nat>)
      requires Accounted(others) && Space(space)
      requires e.present && e.write ==> MarkedPresent(mmu.st, space.root, PageOf(fa))
      modifies space`regions, mmu, mmu.pages, mmu.pages.bitmap, mmu.pages.refs
      ensures FaultOutcome(old(mmu.st), mmu.st, status, space.root, old(space.regions), fa, e, pool)
      ensures Denied(old(space.regions), fa, e) ==> status == AccessDenied && mmu.st == old(mmu.st)
      ensures status != Success || e.present ==> space.regions == old(space.regions)
      ensures status == Success && !e.present ==> exists i :: OneCommitted(old(space.regions), space.regions, i, fa)
      ensures TablesKept(old(mmu.st), mmu.st) && SameLayout(old(space.regions), space.regions)
      ensures mmu.Represents() && AtMostShort(mmu.st, left, 2) && (WritableLinks(old(mmu.st)) ==> WritableLinks(mmu.st))
      ensures !Allows(old(space.regions), fa, e) ==> Accounted(left)
      ensures Allows(old(space.regions), fa, e) && Accountable(old(mmu.st), space.root, PageOf(fa), e) ==>
                (Accounted(left) <==> !LosesReference(old(mmu.st), space.root, PageOf(fa), e))
      ensures Allows(old(space.regions), fa, e) && LosesReference(old(mmu.st), space.root, PageOf(fa), e) ==>
                OneShort(mmu.st, left, EntryAt(old(mmu.st), space.root, PageOf(fa)).value.pfn)
      ensures LeftBy(old(mmu.st), mmu.st, status, PageOf(fa), e, others, left)
      ensures status == InitFailed ==> mmu.Exhausted()
    {
      hide BooksOk, Wf, SameView, Resolved, PresentOutcome, AbsentOutcome, Grown, AtMostShort, Short, Accountable,
           LosesReference;
      BooksShape(mmu.st, pool, others, Mapped());
      InOrder(mmu.st, others);
      left := others;
      var found := space.FindRegion(fa);
      if found.None? || space.regions[found.value].flags.guard {
        return AccessDenied, others;
      }
      var r := space.regions[found.value];
      if (e.write && !r.protection.write) || (e.user && !r.protection.user) || (e.instr && !r.protection.execute) {
        return AccessDenied, others;
      }
      PageInRegion(r, fa);
      status, left := FaultPermitted(space.root, r, PageOf(fa), e, others);
      if status == Success && !e.present {
        space.Commit(found.value);
        assert OneCommitted(old(space.regions), space.regions, found.value, fa);
      }
    }

    /** A write to a fresh copy-on-write page: the fault makes it writable in place. */
    method TouchCow(space: AddressSpace, i: nat, ghost r: Region, fa: nat, a: Access, ghost p: nat,
        ghost others: seq<nat>)
      returns (status: KStatus, ghost left: seq<nat>)
      requires Accounted(others) && Space(space) && IsUserAddress(fa) && WritableLinks(mmu.st)
      requires i < |space.regions| && space.regions[i] == r.(committed := space.regions[i].committed)
      requires Contains(r, fa) && Permits(r, AccessCode(false, a))
      requires a.write && r.flags.cow && OwnPage(mmu.st, space.root, r, PageOf(fa), p)
      modifies space`regions, mmu, mmu.pages, mmu.pages.bitmap, mmu.pages.refs
      ensures Accounted(left) && SameCounts(others, left) && status == Success
      ensures SameLayout(old(space.regions), space.regions) && WritableLinks(mmu.st)
      ensures Allowed(mmu.st.m, space.root, 0, Indexes(PageOf(fa)), a)
      ensures ReadsZero(mmu.st, space.root, PageOf(fa))
    {
      hide BooksOk, SameView, Wf, Translate, IsEmptyTable, UserPage, Stranded, Denied;
      UserPageOf(fa);
      BooksShape(mmu.st, pool, others, Mapped());
      ghost var s := mmu.st;
      var va := PageOf(fa);
      BackedAllows(s, space.root, r, va, p, a);
      assert CountedOnce(s, p);
      LeafPresent(s, space.root, va);
      status, left := HandlePageFault(space, fa, FaultCode(mmu.frames, space.root, Indexes(va), a), others);
      BooksShape(mmu.st, pool, left, Mapped());
      CowAllows(mmu.st, space.root, r, va, p, a);
      assert ReadsZeroAt(mmu.st, space.root, va, RegionWord(r, p).(softCow := false, writable := true));
    }

    /** The first fault of an access to an absent page: the page is backed as its region says. */
    method TouchFirst(space: AddressSpace, i: nat, fa: nat, a: Access, ghost others: seq<nat>)
      returns (status: KStatus, ghost p: nat, ghost left: seq<nat>)
      requires Accounted(others) && Space(space) && IsUserAddress(fa) && WritableLinks(mmu.st)
      requires i < |space.regions| && Contains(space.regions[i], fa) && Permits(space.regions[i], AccessCode(false, a))
      requires Translate(mmu.st.m, space.root, 0, Indexes(PageOf(fa))) == None
      modifies space`regions, mmu, mmu.pages, mmu.pages.bitmap, mmu.pages.refs
      ensures Accounted(left) && Space(space) && WritableLinks(mmu.st) && SameLayout(old(space.regions), space.regions)
      ensures status == Success ==> SameCounts(others, left)
      ensures status != Success ==> status == InitFailed && mmu.Exhausted()
      ensures status != Success ==> Translate(mmu.st.m, space.root, 0, Indexes(PageOf(fa))) == None
      ensures status == Success ==>
                && FaultedIn(mmu.st, space.root, old(space.regions)[i], PageOf(fa), p)
                && (old(space.regions)[i].backing.Anonymous? ==>
                    OwnPage(mmu.st, space.root, old(space.regions)[i], PageOf(fa), p))
    {
      hide BooksOk, Wf, Resolved, Indexes, UserPage, Stranded, Denied;
      UserPageOf(fa);
      ghost var r := space.regions[i];
      ghost var (s, regions) := (mmu.st, space.regions);
      var va := PageOf(fa);
      p := 0;
      status, left := HandlePageFault(space, fa, FaultCode(mmu.frames, space.root, Indexes(va), a), others);
      LaidKept(regions, space.regions, space.nextUserBase);
      if status != Success {
        ViewAt(s, mmu.st, space.root, Indexes(va));
      } else {
        p := ResolvedFrame(mmu.st, space.root, r, va, pool);
      }
    }

    /** An access to an absent page of a region that permits it, as the processor makes it:
        fault, handle, retry.  One fault is enough, or two for a write to a copy-on-write
        page; only a lack of frames stops it.  A fresh anonymous page reads as zero. */
    method TouchAbsent(space: AddressSpace, i: nat, fa: nat, a: Access, ghost others: seq<nat>)
      returns (status: KStatus, ghost faults: nat, ghost left: seq<nat>)
      requires Accounted(others) && Space(space) && IsUserAddress(fa) && WritableLinks(mmu.st)
      requires i < |space.regions| && Contains(space.regions[i], fa) && Permits(space.regions[i], AccessCode(false, a))
      requires Translate(mmu.st.m, space.root, 0, Indexes(PageOf(fa))) == None
      modifies space`regions, mmu, mmu.pages, mmu.pages.bitmap, mmu.pages.refs
      ensures Accounted(left) && SameLayout(old(space.regions), space.regions) && WritableLinks(mmu.st)
      ensures Allowed(mmu.st.m, space.root, 0, Indexes(PageOf(fa)), a) <==> status == Success
      ensures status != Success ==> status == InitFailed && mmu.Exhausted() && faults == 1
      ensures status == Success ==> faults == if a.write && old(space.regions)[i].flags.cow then 2 else 1
      ensures status == Success && old(space.regions)[i].backing.Anonymous? ==>
                ReadsZero(mmu.st, space.root, PageOf(fa))
    {
      hide BooksOk, SameView, Wf, ReadsZero, OwnPage, FaultedIn;
      ghost var r := space.regions[i];
      var va := PageOf(fa);
      assert BackedBy(r);
      ghost var p;
      status, p, left := TouchFirst(space, i, fa, a, others);
      faults := 1;
      if status != Success {
        AllowedTranslates(mmu.st.m, space.root, 0, Indexes(va), a);
        return;
      }
      BooksShape(mmu.st, pool, left, Mapped());
      BackedAllows(mmu.st, space.root, r, va, p, a);
      if !Allowed(mmu.frames, space.root, 0, Indexes(va), a) {
        status, left := TouchCow(space, i, r, fa, a, p, left);
        faults := 2;
      }
    }

    /** An access that the page that is there does not allow.  One fault: the access is then allowed exactly if
        it is a write to a copy-on-write page that lacks nothing but the right to write, and, unless the frame
        is counted once, a frame is free. */
    method TouchPresent(space: AddressSpace, i: nat, fa: nat, a: Access, ghost others: seq<nat>)
      returns (status: KStatus, ghost left: seq<nat>)
      requires Accounted(others) && Space(space) && IsUserAddress(fa) && WritableLinks(mmu.st)
      requires i < |space.regions| && Contains(space.regions[i], fa) && Permits(space.regions[i], AccessCode(true, a))
      requires Translate(mmu.st.m, space.root, 0, Indexes(PageOf(fa))).Some?
      requires !Allowed(mmu.st.m, space.root, 0, Indexes(PageOf(fa)), a)
      modifies space`regions, mmu, mmu.pages, mmu.pages.bitmap, mmu.pages.refs
      ensures Allowed(mmu.st.m, space.root, 0, Indexes(PageOf(fa)), a) <==>
              Repairs(old(mmu.st), space.root, PageOf(fa), a)
      ensures SameLayout(old(space.regions), space.regions) && WritableLinks(mmu.st)
      ensures PresentOutcome(old(mmu.st), mmu.st, status, space.root, PageOf(fa), AccessCode(true, a))
      ensures Accounted(left) <==> !LosesReference(old(mmu.st), space.root, PageOf(fa), AccessCode(true, a))
    {
      hide BooksOk, Wf, Translate, Allowed, PresentOutcome, LosesReference, UserPage, Repairs, FaultOutcome, Allows,
           Accountable, AtMostShort, WritableLinks, MarkedPresent, Indexes;
      UserPageOf(fa);
      BooksShape(mmu.st, pool, others, Mapped());
      ghost var (s, regions) := (mmu.st, space.regions);
      var va := PageOf(fa);
      LeafPresent(s, space.root, va);
      status, left := HandlePageFault(space, fa, FaultCode(mmu.frames, space.root, Indexes(va), a), others);
      PresentHandled(s, mmu.st, status, space.root, regions, i, fa, a, pool);
      TreeOfShort(mmu.st, left, 2);
      RepairsExactly(s, mmu.st, status, space.root, va, a);
    }

    /** An access that its region permits, as the processor makes it: none, one or two faults. */
    method Touch(space: AddressSpace, i: nat, fa: nat, a: Access, ghost others: seq<nat>)
      returns (status: KStatus, ghost faults: nat, ghost left: seq<nat>)
      requires Accounted(others) && Space(space) && IsUserAddress(fa) && WritableLinks(mmu.st)
      requires i < |space.regions| && Contains(space.regions[i], fa) && Permits(space.regions[i], AccessCode(false, a))
      modifies space`regions, mmu, mmu.pages, mmu.pages.bitmap, mmu.pages.refs
      ensures SameLayout(old(space.regions), space.regions) && WritableLinks(mmu.st)
      ensures old(Allowed(mmu.st.m, space.root, 0, Indexes(PageOf(fa)), a)) ==>
                status == Success && faults == 0 && mmu.st == old(mmu.st) && left == others
      ensures old(Translate(mmu.st.m, space.root, 0, Indexes(PageOf(fa)))) == None ==>
                && Accounted(left) && (status != Success ==> status == InitFailed && mmu.Exhausted())
                && (Allowed(mmu.st.m, space.root, 0, Indexes(PageOf(fa)), a) <==> status == Success)
                && (status == Success ==> faults == if a.write && old(space.regions)[i].flags.cow then 2 else 1)
                && (status == Success && old(space.regions)[i].backing.Anonymous? ==>
                    ReadsZero(mmu.st, space.root, PageOf(fa)))
      ensures old(DeniedThere(mmu.st, space.root, PageOf(fa), a)) ==>
                && faults == 1
                && PresentOutcome(old(mmu.st), mmu.st, status, space.root, PageOf(fa), AccessCode(true, a))
                && (Allowed(mmu.st.m, space.root, 0, Indexes(PageOf(fa)), a) <==>
                    Repairs(old(mmu.st), space.root, PageOf(fa), a))
                && (Accounted(left) <==>
                    !LosesReference(old(mmu.st), space.root, PageOf(fa), AccessCode(true, a)))
    {
      hide BooksOk, Wf, Translate, Allowed, PresentOutcome, LosesReference, UserPage, Repairs, WritableLinks;
      var ix := Indexes(PageOf(fa));
      AllowedTranslates(mmu.frames, space.root, 0, ix, a);
      BooksShape(mmu.st, pool, others, Mapped());
      if Allowed(mmu.frames, space.root, 0, ix, a) {
        return Success, 0, others;
      }
      if Translate(mmu.frames, space.root, 0, ix) == None {
        status, faults, left := TouchAbsent(space, i, fa, a, others);
      } else {
        faults := 1;
        status, left := TouchPresent(space, i, fa, a, others);
      }
    }

    /** One page of a wired region: mapped, in the user window to a cleared frame of its own, or failure. */
    method WirePage(root: nat, r: Region, va: nat, ghost others: seq<nat>)
      returns (status: KStatus, ghost left: seq<nat>)
      requires Accounted(others) && IsRoot(mmu.st.t, root) && va % PAGE_SIZE == 0 && Countable(mmu.st, root, va)
      modifies mmu, mmu.pages, mmu.pages.bitmap, mmu.pages.refs
      ensures Accounted(left)
      ensures if status == Success then Settled(va, others, left) else Stranded(old(mmu.st), mmu.st, others, left)
      ensures OthersAsBefore(old(mmu.st), mmu.st, root, Indexes(va)) &&
                (status == Success ==> IdleKept(old(mmu.st), mmu.st))
      ensures status == Success ==> Wired(mmu.st, root, r, va) && OwnSlotsKept(old(mmu.st), mmu.st, Indexes(va))
      ensures WritableLinks(old(mmu.st)) ==> WritableLinks(mmu.st)
      ensures status == Success ==> WalksKept(old(mmu.st.m), old(mmu.st.t), mmu.st.m)
      ensures status == Success || status == InitFailed
      ensures status != Success ==> mmu.Exhausted() || CannotWire(old(mmu.st), root, va)
    {
      hide BooksOk, SameView, Wf, OwnPage, Wired, OwnSlotsKept, OthersAsBefore, Countable, AtMostShort, IdleKept,
           WritableLinks, WalksKept;
      ghost var s := mmu.st;
      status, left := FaultAnonymous(root, r, va, others);
      if status == Success {
        BooksShape(mmu.st, pool, left, Mapped());
        TableStays(s, mmu.st, root, Indexes(va));
        OwnPageWired(mmu.st, root, r, va);
      } else {
        ViewOthers(s, mmu.st, root, Indexes(va));
        status := InitFailed;
      }
    }

    /** Maps page i of a wired region of which the first i pages are mapped. */
    method WireNext(ghost s: MapState, root: nat, r: Region, i: nat, ghost others: seq<nat>)
      returns (status: KStatus, ghost left: seq<nat>)
      requires Accounted(others) && IsRoot(mmu.st.t, root) && WiredUpTo(s, mmu.st, root, r, i)
      requires r.base % PAGE_SIZE == 0 && WireableFrom(mmu.st, root, r, i) && i * PAGE_SIZE < r.size && i < ALL_PAGES
      modifies mmu, mmu.pages, mmu.pages.bitmap, mmu.pages.refs
      ensures Accounted(left) && GainsOnly(others, left)
      ensures InWindow(r.base, r.size) ==>
                if status == Success then SameCounts(others, left) else AtMostOneMore(others, left)
      ensures IsRoot(mmu.st.t, root) && OutsideAsBefore(s, mmu.st, r.base, i + 1)
      ensures status == Success ==> WiredUpTo(s, mmu.st, root, r, i + 1) && WireableFrom(mmu.st, root, r, i + 1)
      ensures WritableLinks(old(mmu.st)) ==> WritableLinks(mmu.st)
      ensures status == Success || status == InitFailed
      ensures status != Success ==> mmu.Exhausted() || CannotWire(old(mmu.st), root, (r.base + i * PAGE_SIZE) % U64)
    {
      hide BooksOk, Wf, SameView, OwnSlot, Countable, CannotWire, Wired, OwnSlotsKept, OthersAsBefore, WiredUpTo,
          Indexes, UserPage,
           GainsOnly, OutsideAsBefore, IdleKept, AtMostOneMore, SameCounts, WritableLinks, WalksKept;
      ghost var t := mmu.st;
      var va := (r.base + i * PAGE_SIZE) % U64;
      WrappedPage(r.base + i * PAGE_SIZE);
      SameSlots(t, root, r.base + i * PAGE_SIZE, va);
      status, left := WirePage(root, r, va, others);
      LeftGains(t, mmu.st, va, others, left);
      if InWindow(r.base, r.size) {
        PageInWindow(r.base, r.size, i);
        UserAddressPath(va);
        StrandedOne(t, mmu.st, others, left);
      }
      if status == Success { WrappedWired(mmu.st, root, r, r.base + i * PAGE_SIZE); }
      WiredOneMore(s, t, mmu.st, root, r, i);
    }

    /** The mapping loop of a wired region. */
    method WireRegion(root: nat, r: Region, ghost others: seq<nat>) returns (status: KStatus, ghost left: seq<nat>)
      requires Accounted(others) && IsRoot(mmu.st.t, root)
      requires r.base % PAGE_SIZE == 0 && r.size % PAGE_SIZE == 0 && WireableFrom(mmu.st, root, r, 0)
      modifies mmu, mmu.pages, mmu.pages.bitmap, mmu.pages.refs
      ensures Accounted(left) && GainsOnly(others, left)
      ensures InWindow(r.base, r.size) ==>
                if status == Success then SameCounts(others, left) else AtMostOneMore(others, left)
      ensures OutsideAsBefore(old(mmu.st), mmu.st, r.base, r.size / PAGE_SIZE)
      ensures status == Success ==> WiredUpTo(old(mmu.st), mmu.st, root, r, r.size / PAGE_SIZE)
      ensures status == Success && WritableLinks(old(mmu.st)) ==> AllGrant(mmu.st, root, r)
      ensures WritableLinks(old(mmu.st)) ==> WritableLinks(mmu.st)
      ensures status == Success || status == InitFailed
      ensures status != Success ==>
                mmu.Exhausted() || exists k: nat :: k * PAGE_SIZE < r.size && CannotWireAt(old(mmu.st), root, r, k)
    {
      hide CannotWire, BooksOk, Wf, SameView, OutsideAsBefore, SameCounts, Wired, Countable, WireableFrom, GainsOnly,
           WritableLinks;
      ghost var s := mmu.st;
      left := others;
      SameCountsReflexive(others);
      GainsReflexive(others);
      OutsideReflexive(s, r.base, 0);
      var i := 0;
      while i < r.size / PAGE_SIZE
        invariant i <= r.size / PAGE_SIZE
        invariant Accounted(left) && GainsOnly(others, left) && IsRoot(mmu.st.t, root)
        invariant InWindow(r.base, r.size) ==> SameCounts(others, left)
        invariant WiredUpTo(s, mmu.st, root, r, i) && WireableFrom(mmu.st, root, r, i)
        invariant WritableLinks(s) ==> WritableLinks(mmu.st)
      {
        ghost var (before, t) := (left, mmu.st);
        BooksShape(mmu.st, pool, left, Mapped());
        WiredBounded(mmu.st, root, r, i, left);
        status, left := WireNext(s, root, r, i, left);
        GainsTransitive(others, before, left);
        if status != Success {
          if CannotWire(t, root, (r.base + i * PAGE_SIZE) % U64) { UnwiredAsBefore(s, t, root, r, i); }
          OutsideWeakened(s, mmu.st, r.base, i + 1, r.size / PAGE_SIZE);
          if InWindow(r.base, r.size) { OneMoreAfter(others, before, left); }
          return;
        }
        if InWindow(r.base, r.size) { SameCountsTransitive(others, before, left); }
        i := i + 1;
      }
      status := Success;
      BooksShape(mmu.st, pool, left, Mapped());
      if WritableLinks(s) { WiredGrants(mmu.st, root, r); }
    }

    /** MmMapAnonymous.  The pages of a wired region are mapped at once; if one of them
        cannot be, the region is not recorded. */
    method MapAnonymous(space: AddressSpace, size: nat, prot: Protection, flags: RegionFlags, ghost others: seq<nat>)
      returns (status: KStatus, base: nat, ghost left: seq<nat>)
      requires Accounted(others) && Space(space)
      requires flags.wired ==>
                 WireableFrom(mmu.st, space.root, AnonymousRegion(space.NextBase(), size, prot, flags), 0)
      modifies space, mmu, mmu.pages, mmu.pages.bitmap, mmu.pages.refs
      ensures Accounted(left) && GainsOnly(others, left)
      ensures InWindow(old(space.NextBase()), AlignSizeToPage(size)) ==>
                if status == Success then SameCounts(others, left) else AtMostOneMore(others, left)
      ensures status == InitFailed || status == Success
      ensures |old(space.regions)| >= MAX_VA_REGIONS ==> status == InitFailed
      ensures |old(space.regions)| >= MAX_VA_REGIONS || !flags.wired ==> mmu.st == old(mmu.st) && left == others
      ensures |old(space.regions)| < MAX_VA_REGIONS && !flags.wired ==> status == Success
      ensures |old(space.regions)| < MAX_VA_REGIONS && status != Success ==>
                mmu.Exhausted() ||
                    (var r := AnonymousRegion(old(space.NextBase()), size, prot, flags);
                     exists k: nat :: k * PAGE_SIZE < r.size && CannotWireAt(old(mmu.st), space.root, r, k))
      ensures WritableLinks(old(mmu.st)) ==> WritableLinks(mmu.st)
      ensures status != Success ==> space.regions == old(space.regions) && space.nextUserBase == old(space.nextUserBase)
      ensures var r := AnonymousRegion(old(space.NextBase()), size, prot, flags);
              && OutsideAsBefore(old(mmu.st), mmu.st, r.base, r.committed)
              && (status == Success ==>
                    && base == r.base && space.regions == old(space.regions) + [r]
                    && space.nextUserBase == (r.base + r.size) % U64
                    && (old(space.Fits(r.size)) ==> Laid(space.regions, space.nextUserBase))
                    && WiredUpTo(old(mmu.st), mmu.st, space.root, r, r.committed))
      ensures status == Success ==>
                && |space.regions| == |old(space.regions)| + 1 &&
                    space.regions[..|old(space.regions)|] == old(space.regions)
                && var r := space.regions[|old(space.regions)|];
                && Recorded(r, base, size, prot, flags)
                && (size < U64 && old(space.Fits(r.size)) ==> forall va | base <= va < base + size :: Contains(r, va))
                && (flags.wired && old(WritableLinks(mmu.st)) ==> AllGrant(mmu.st, space.root, r))
    {
      hide Countable, WireableFrom, GainsOnly, WritableLinks, AllGrant;
      left := others;
      SameCountsReflexive(others);
      GainsReflexive(others);
      var r := AnonymousRegion(space.NextBase(), size, prot, flags);
      base := r.base;
      OutsideReflexive(mmu.st, r.base, r.committed);
      OutsideReflexive(mmu.st, r.base, 0);
      if |space.regions| >= MAX_VA_REGIONS {
        return InitFailed, base, others;
      }
      if flags.wired {
        SizeCovered(size);
        status, left := WireRegion(space.root, r, others);
        if status != Success {
          return;
        }
      }
      SizeCovered(size);
      RecordedAs(r, old(space.NextBase()), size, prot, flags);
      space.Append(r);
      status := Success;
    }

    /** The region of the section in slot k is appended. */
    method MapFound(space: AddressSpace, header: nat, k: nat, prot: Protection, ghost others: seq<nat>)
      returns (base: nat)
      requires Accounted(others) && Space(space) && LiveAs(pool, k, header) && Complete(pool[k])
      requires |space.regions| < MAX_VA_REGIONS
      modifies space, this`mappings
      ensures Accounted(others) && mappings == old(mappings) + multiset{header}
      ensures base == old(space.NextBase())
      ensures MapsSection(old(space.regions), space.regions, space.nextUserBase, base, pool, k, header, prot)
      ensures |space.regions| == |old(space.regions)| + 1
      ensures MapsAsAsked(space.regions[|old(space.regions)|], base, header, prot)
      ensures old(space.Fits(pool[k].pageCount * PAGE_SIZE)) ==> Space(space)
    {
      hide BooksOk, Wf, Laid, Complete;
      var r := SectionRegion(space.NextBase(), pool[k].pageCount * PAGE_SIZE, header, prot);
      BooksMoreMapped(mmu.st, pool, others, Mapped(), header, k);
      LiveOnce(mmu.st, pool, others, Mapped(), header, k);
      AllBacked(space.regions, pool, Mapped(), r, header);
      space.Append(r);
      ghost var was := Mapped();
      mappings := mappings + multiset{header};
      assert Mapped() == was + {header};
      base := r.base;
    }

    /** MmMapSectionHandle, past the handle lookup that yields the header. */
    method MapSection(space: AddressSpace, header: nat, prot: Protection, ghost others: seq<nat>)
      returns (status: KStatus, base: nat)
      requires Accounted(others) && Space(space)
      requires forall k: nat | LiveAs(pool, k, header) :: Complete(pool[k])
      modifies space, this`mappings
      ensures Accounted(others)
      ensures |old(space.regions)| >= MAX_VA_REGIONS <==> status == InitFailed
      ensures status in {Success, InitFailed, NotFound}
      ensures status == NotFound ==> forall k: nat :: !LiveAs(pool, k, header)
      ensures status != Success ==>
                space.regions == old(space.regions) && space.nextUserBase == old(space.nextUserBase) &&
                mappings == old(mappings)
      ensures status == Success ==>
                && base == old(space.NextBase()) && mappings == old(mappings) + multiset{header}
                && (exists k: nat :: MapsSection(old(space.regions), space.regions, space.nextUserBase, base, pool, k,
                    header, prot))
                && |space.regions| == |old(space.regions)| + 1
                && MapsAsAsked(space.regions[|old(space.regions)|], base, header, prot)
                && ((forall k: nat | LiveAs(pool, k, header) :: old(space.Fits(pool[k].pageCount * PAGE_SIZE))) ==>
                    Space(space))
    {
      hide BooksOk, Wf, RegionBacked, Laid, MapsSection;
      BooksShape(mmu.st, pool, others, Mapped());
      base := 0;
      if |space.regions| >= MAX_VA_REGIONS {
        return InitFailed, 0;
      }
      var slot := FindSection(header);
      if slot.None? {
        return NotFound, 0;
      }
      LiveOnce(mmu.st, pool, others, Mapped(), header, slot.value);
      base := MapFound(space, header, slot.value, prot, others);
      status := Success;
    }

    /** MmpDeleteSectionObject: the delete routine, run when no reference is left and so no
        region maps the section. */
    method DeleteSection(header: nat, ghost others: seq<nat>) returns (ghost left: seq<nat>)
      requires Accounted(others) && header !in Mapped()
      modifies this`pool, mmu`st, mmu.pages`taken, mmu.pages.bitmap, mmu.pages.refs
      ensures Accounted(left) && (old(Clean(pool, others)) ==> Clean(pool, left))
      ensures mmu.st.m == old(mmu.st.m) && mmu.st.t == old(mmu.st.t)
      ensures forall k: nat :: !LiveAs(pool, k, header)
      ensures forall k: nat | k < MAX_SECTIONS && !old(LiveAs(pool, k, header)) :: pool[k] == old(pool)[k]
      ensures forall k: nat | k < MAX_SECTIONS && pool[k].inUse :: pool[k] == old(pool)[k]
      ensures forall k: nat, i: nat, p: nat | old(Lists(pool, k, i, p)) && old(LiveAs(pool, k, header)) ::
                p < MAX_TRACKED && !mmu.st.taken[p]
    {
      hide BooksOk, Clean, Listed;
      BooksShape(mmu.st, pool, others, Mapped());
      left := others;
      var slot := FindSection(header);
      if slot.None? {
        return;
      }
      var k := slot.value;
      LiveOnce(mmu.st, pool, others, Mapped(), header, k);
      ghost var pool0 := pool;
      var index := 0;
      while index < pool[k].pageCount
        invariant |pool| == MAX_SECTIONS && |pool[k].pages| == MAX_SECTION_PAGES && index <= pool[k].pageCount
        invariant Accounted(left) && (Clean(pool0, others) ==> Clean(pool, left))
        invariant mmu.st.m == old(mmu.st.m) && mmu.st.t == old(mmu.st.t)
        invariant pool == pool0[k := pool0[k].(pages := pool[k].pages)]
        invariant forall i | 0 <= i < index :: pool[k].pages[i] == 0
        invariant forall i | index <= i < pool[k].pageCount :: pool[k].pages[i] == pool0[k].pages[i]
        invariant forall i: nat, p: nat | i < index && Lists(pool0, k, i, p) :: p < MAX_TRACKED && !mmu.st.taken[p]
      {
        BooksShape(mmu.st, pool, left, Mapped());
        var p := pool[k].pages[index];
        if p != 0 {
          BooksStruckOff(mmu.st, pool, left, Mapped(), k, index);
          mmu.Free(p);
          left := left[p := 0];
          pool := pool[k := pool[k].(pages := pool[k].pages[index := 0])];
        }
        index := index + 1;
      }
      BooksShape(mmu.st, pool, left, Mapped());
      BooksSlotChanged(mmu.st, pool, left, Mapped(), k, pool[k].(inUse := false, header := None, pageCount := 0));
      pool := pool[k := pool[k].(inUse := false, header := None, pageCount := 0)];
      forall j: nat ensures !LiveAs(pool, j, header) {
        assert LiveAs(pool, j, header) ==> j != k && LiveAs(pool0, j, header);
      }
    }

    /** The search for a free section slot. */
    method FreeSlot() returns (found: Option<nat>)
      requires PoolShape(pool)
      ensures found.Some? ==> found.value < MAX_SECTIONS && !pool[found.value].inUse
      ensures found.None? ==> forall k | 0 <= k < MAX_SECTIONS :: pool[k].inUse
    {
      var index := 0;
      while index < MAX_SECTIONS
        invariant 0 <= index <= MAX_SECTIONS
        invariant forall k | 0 <= k < index :: pool[k].inUse
      {
        if !pool[index].inUse {
          return Some(index);
        }
        index := index + 1;
      }
      return None;
    }

    /** The pool part of MmCreateSectionHandle.  `header` is what ObCreateObject returned:
        a header no live section has, or none. */
    method CreateSection(size: nat, header: Option<nat>, ghost others: seq<nat>)
      returns (status: KStatus, ghost left: seq<nat>)
      requires Accounted(others)
      requires header.Some? ==> header.value !in Mapped() && forall k: nat :: !LiveAs(pool, k, header.value)
      modifies this`pool, mmu, mmu.pages, mmu.pages.bitmap, mmu.pages.refs
      ensures Accounted(left) && (old(Clean(pool, others)) ==> Clean(pool, left))
      ensures status in {Success, InvalidParameter, InitFailed}
      ensures status == InvalidParameter <==> !(1 <= SectionPages(size) <= MAX_SECTION_PAGES)
      ensures size + PAGE_SIZE <= U64 ==> forall n: nat | LeastPages(size, n) ::
                && (status == InvalidParameter <==> !(1 <= n % 0x1_0000_0000 <= MAX_SECTION_PAGES))
                && (status == Success ==> SectionPages(size) == n % 0x1_0000_0000)
      ensures status == InitFailed <==>
              && 1 <= SectionPages(size) <= MAX_SECTION_PAGES
              && (header.None? || (forall k | 0 <= k < MAX_SECTIONS :: old(pool[k]).inUse) ||
                  |FreeFrames(old(mmu.st))| < SectionPages(size))
      ensures status == Success ==>
                header.Some? && exists k: nat :: CreatedAs(mmu.st, pool, k, header.value, SectionPages(size))
      ensures status != Success && header.Some? ==> forall k: nat :: !LiveAs(pool, k, header.value)
      ensures forall k: nat | k < MAX_SECTIONS && old(pool[k]).inUse :: pool[k] == old(pool)[k]
      ensures forall k: nat | k < MAX_SECTIONS && pool[k].inUse && !old(pool[k]).inUse ::
                status == Success && pool[k].header == header && Complete(pool[k])
      ensures SameView(old(mmu.st).m, old(mmu.st).t, mmu.st.m, mmu.st.t)
      ensures WritableLinks(old(mmu.st)) ==> WritableLinks(mmu.st)
    {
      hide BooksOk, SameView, Clean, Cleared, LinksWritable, SectionPages, LeastPages, FreeFrames;
      if size + PAGE_SIZE <= U64 {
        forall n: nat | LeastPages(size, n) ensures SectionPages(size) == n % 0x1_0000_0000 { PagesCut(size, n); }
      }
      BooksShape(mmu.st, pool, others, Mapped());
      SameViewReflexive(mmu.st.m, mmu.st.t);
      left := others;
      var pageCount := SectionPages(size);
      if pageCount == 0 || pageCount > MAX_SECTION_PAGES {
        return InvalidParameter, others;
      }
      var slot := FreeSlot();
      if slot.None? {
        return InitFailed, others;
      }
      var k := slot.value;
      if header.None? {
        // The slot is taken, cleared and given back.
        BooksSlotChanged(mmu.st, pool, others, Mapped(), k,
            SectionSlot(false, None, 0, seq(MAX_SECTION_PAGES, _ => 0)));
        pool := pool[k := SectionSlot(false, None, 0, seq(MAX_SECTION_PAGES, _ => 0))];
        return InitFailed, others;
      }
      BooksSlotChanged(mmu.st, pool, others, Mapped(), k,
          SectionSlot(true, header, pageCount, seq(MAX_SECTION_PAGES, _ => 0)));
      pool := pool[k := SectionSlot(true, header, pageCount, seq(MAX_SECTION_PAGES, _ => 0))];
      status, left := FillSection(k, header.value, others);
      if status == Success {
        assert CreatedAs(mmu.st, pool, k, header.value, pageCount);
      } else {
        BooksShape(mmu.st, pool, left, Mapped());
        left := DeleteSection(header.value, left);
        BooksShape(mmu.st, pool, left, Mapped());
        assert !LiveAs(pool, k, header.value);
      }
      forall j: nat | j < MAX_SECTIONS && old(pool[j]).inUse ensures pool[j] == old(pool)[j] {
        assert !LiveAs(old(pool), j, header.value);
      }
    }

    /** The page loop of MmCreateSectionHandle. */
    method FillSection(k: nat, header: nat, ghost others: seq<nat>) returns (status: KStatus, ghost left: seq<nat>)
      requires Accounted(others) && LiveAs(pool, k, header) && header !in Mapped()
      requires forall i | 0 <= i < pool[k].pageCount :: pool[k].pages[i] == 0
      modifies this`pool, mmu, mmu.pages, mmu.pages.bitmap, mmu.pages.refs
      ensures Accounted(left) && (old(Clean(pool, others)) ==> Clean(pool, left))
      ensures status == if |FreeFrames(old(mmu.st))| < old(pool[k]).pageCount then InitFailed else Success
      ensures forall j: nat :: LiveAs(pool, j, header) <==> old(LiveAs(pool, j, header))
      ensures pool == old(pool)[k := old(pool)[k].(pages := pool[k].pages)]
      ensures status == Success && old(pool[k].pageCount) > 0 ==>
                CreatedAs(mmu.st, pool, k, header, old(pool[k].pageCount))
      ensures SameView(old(mmu.st).m, old(mmu.st).t, mmu.st.m, mmu.st.t)
      ensures WritableLinks(old(mmu.st)) ==> WritableLinks(mmu.st)
    {
      hide BooksOk, SameView, Clean, Lists, Listed, Slots, WritableLinks, FreeFrames;
      BooksShape(mmu.st, pool, others, Mapped());
      SameViewReflexive(mmu.st.m, mmu.st.t);
      left := others;
      ghost var pool0 := pool;
      ghost var s := mmu.st;
      var index := 0;
      while index < pool[k].pageCount
        invariant |pool| == MAX_SECTIONS && |pool[k].pages| == MAX_SECTION_PAGES && index <= pool[k].pageCount
        invariant pool == pool0[k := pool0[k].(pages := pool[k].pages)]
        invariant Accounted(left) && (Clean(pool0, others) ==> Clean(pool, left))
        invariant SameView(s.m, s.t, mmu.st.m, mmu.st.t) && (WritableLinks(s) ==> WritableLinks(mmu.st))
        invariant Cleared(mmu.st, pool[k], index) && |FreeFrames(mmu.st)| + index == |FreeFrames(s)|
        invariant forall i | index <= i < pool[k].pageCount :: pool[k].pages[i] == 0
      {
        ghost var t := mmu.st;
        BooksShape(t, pool, left, Mapped());
        var n;
        status, n := TakeCleared(left);
        if status != Success {
          NoFreeFrames(t);
          return;
        }
        FrameLess(t, n, mmu.st.m[n]);
        SameViewTransitive(s.m, s.t, t.m, t.t, mmu.st.m, mmu.st.t);
        assert left[n := 1][n := 0] == left;
        left := left[n := 1];
        BooksListedMore(mmu.st, pool, left, Mapped(), k, index, n);
        pool := pool[k := pool[k].(pages := pool[k].pages[index := n])];
        index := index + 1;
      }
      status := Success;
    }
  }

  lemma GrownView(s: MapState, t: MapState)
    requires Wf(s) && Wf(t) && Grown(s, t)
    ensures SameView(s.m, s.t, t.m, t.t)
  {
  }

  lemma InOrder(s: MapState, others: seq<nat>)
    requires Wf(s) && Counted(s, others)
    ensures forall k: nat :: AtMostShort(s, others, k)
  {
    CountedShort(s, others, 0);
    assert Short(s, others, 0, 0);
  }

  /** A map of an owned frame: the books stay in order if the account can follow, and are one short at most. */
  lemma MappedBooks(s: MapState, s2: MapState, root: nat, va: nat, w: Word, pool: seq<SectionSlot>, others: seq<nat>,
                    mapped: set<nat>)
    requires BooksOk(s, pool, others, mapped) && Remapped(s, s2, root, va, w)
    requires w.present && w.pfn < |others| && Spare(pool, others, w.pfn) > 0 && OnlyInMapped(pool, mapped, w.pfn)
    ensures others[w.pfn] > 0 && AtMostShort(s2, AfterMap(others, va, w), 1)
    ensures Countable(s, root, va) ==> BooksOk(s2, pool, AfterMap(others, va, w), mapped)
    ensures WritableLinks(s) ==> WritableLinks(s2)
  {
    hide BooksOk, Wf, Remapped, Grown, Short, Translate, AfterMap, OnlyInMapped;
    BooksShape(s, pool, others, mapped);
    if WritableLinks(s) { MapKeepsLinks(s, s2, root, va, w); }
    if Countable(s, root, va) {
      BooksMapped(s, s2, root, va, w, pool, others, mapped);
      BooksShape(s2, pool, AfterMap(others, va, w), mapped);
      CountedShort(s2, AfterMap(others, va, w), 0);
      assert Short(s2, AfterMap(others, va, w), 0, 0);
    } else {
      var p := Translate(s.m, root, 0, Indexes(va)).value.frame;
      CountedShort(s, others, p);
      var loss := MapShort(s, s2, root, va, w, others, p, 0);
      assert Short(s2, AfterMap(others, va, w), p, loss);
    }
  }

  /** The page count of a section of the given size, as a 32-bit number. */
  function SectionPages(size: nat): (r: nat) { AlignSizeToPage(size) / PAGE_SIZE % 0x1_0000_0000 }

  /** n pages are the least that hold the size, and one holds nothing. */
  predicate LeastPages(size: nat, n: nat) {
    if size == 0 then n == 1 else size <= n * PAGE_SIZE < size + PAGE_SIZE
  }

  /** The page count is cut to 32 bits. */
  lemma PagesCut(size: nat, n: nat)
    requires LeastPages(size, n) && size + PAGE_SIZE <= U64
    ensures SectionPages(size) == n % 0x1_0000_0000
  {
    SizeCovered(size);
    assert AlignSizeToPage(size) == n * PAGE_SIZE;
  }

  /** So a section holds the size asked for exactly if no more than 256 pages were asked for. */
  lemma SectionHolds(size: nat, n: nat)
    requires LeastPages(size, n) && size + PAGE_SIZE <= U64 && 1 <= n % 0x1_0000_0000 <= MAX_SECTION_PAGES
    ensures size <= SectionPages(size) * PAGE_SIZE <==> n <= MAX_SECTION_PAGES
  {
    PagesCut(size, n);
  }

  /** A request of 16 TiB and a byte that is granted one page. */
  lemma SectionCut()
    ensures LeastPages(0x1000_0000_0001, 0x1_0000_0001) && SectionPages(0x1000_0000_0001) == 1
  {
    PagesCut(0x1000_0000_0001, 0x1_0000_0001);
  }

  /** The first n pages of the slot are cleared frames. */
  ghost predicate Cleared(s: MapState, slot: SectionSlot, n: nat) {
    forall i | 0 <= i < n && i < |slot.pages| ::
        0 < slot.pages[i] < |s.m| && slot.pages[i] < MAX_TRACKED && IsEmptyTable(s.m[slot.pages[i]])
  }

  /** Slot k is a complete section of cleared frames. */
  ghost predicate CreatedAs(s: MapState, pool: seq<SectionSlot>, k: nat, header: nat, pageCount: nat) {
    LiveAs(pool, k, header) && pool[k].pageCount == pageCount && Complete(pool[k]) && Cleared(s, pool[k], pageCount)
  }

  /** The region MmMapSectionHandle records. */
  function SectionRegion(base: nat, size: nat, header: nat, prot: Protection): (r: Region) {
    Region(base, size, SectionOf(header),
           (if prot == PROT_NONE then prot.(read := true) else prot).(user := true),
           RegionFlags(true, false, false, false), 0)
  }

  /** What a mapped section's region records of the request, field by field; asking for nothing asks to read. */
  predicate MapsAsAsked(r: Region, base: nat, header: nat, prot: Protection) {
    && r.base == base && r.backing == SectionOf(header) && r.committed == 0
    && r.protection.user && r.protection.write == prot.write && r.protection.execute == prot.execute
    && r.protection.read == (prot.read || !(prot.write || prot.execute || prot.user))
    && r.flags.lazy && !r.flags.wired && !r.flags.cow && !r.flags.guard
  }

  ghost predicate RegionBacked(r: Region, pool: seq<SectionSlot>, mapped: set<nat>) {
    match r.backing
    case Anonymous => true
    case SectionOf(h) =>
      h in mapped && !r.flags.cow && forall k: nat | LiveAs(pool, k, h) :: r.size == pool[k].pageCount * PAGE_SIZE
  }

  /** A region more, of a section that is now mapped. */
  lemma AllBacked(regions: seq<Region>, pool: seq<SectionSlot>, mapped: set<nat>, r: Region, header: nat)
    requires forall i | 0 <= i < |regions| :: RegionBacked(regions[i], pool, mapped)
    requires r.backing == SectionOf(header) && RegionBacked(r, pool, mapped + {header})
    ensures forall i | 0 <= i < |regions + [r]| :: RegionBacked((regions + [r])[i], pool, mapped + {header})
  {
    forall i | 0 <= i < |regions + [r]| ensures RegionBacked((regions + [r])[i], pool, mapped + {header}) {
      if i < |regions| { assert RegionBacked(regions[i], pool, mapped); }
    }
  }

  /** The region appended at base maps the whole section in slot k. */
  predicate MapsSection(before: seq<Region>, regions: seq<Region>, next: nat, base: nat, pool: seq<SectionSlot>, k: nat,
      header: nat, prot: Protection) {
    && LiveAs(pool, k, header)
    && var r := SectionRegion(base, pool[k].pageCount * PAGE_SIZE, header, prot);
       regions == before + [r] && next == (r.base + r.size) % U64
  }

  /** The first i pages of the region are mapped with its rights and nothing else has moved. */
  ghost predicate WiredUpTo(s: MapState, s2: MapState, root: nat, r: Region, i: nat) {
    && OutsideAsBefore(s, s2, r.base, i)
    && forall k: nat | k < i :: Wired(s2, root, r, r.base + k * PAGE_SIZE)
  }

  /** The region MmMapAnonymous records. */
  function AnonymousRegion(base: nat, size: nat, prot: Protection, flags: RegionFlags): (r: Region) {
    Region(base, AlignSizeToPage(size), Anonymous, prot.(user := true),
           if flags.lazy || flags.wired then flags else flags.(lazy := true),
           if flags.wired then AlignSizeToPage(size) / PAGE_SIZE else 0)
  }

  /** What is recorded of a request, field by field. */
  predicate Recorded(r: Region, base: nat, size: nat, prot: Protection, flags: RegionFlags) {
    && r.base == base && base % PAGE_SIZE == 0 && Covers(size, r.size) && r.backing == Anonymous
    && r.protection.read == prot.read && r.protection.write == prot.write && r.protection.execute == prot.execute
    && r.protection.user
    && r.flags.wired == flags.wired && r.flags.cow == flags.cow && r.flags.guard == flags.guard
    && r.flags.lazy == (flags.lazy || !flags.wired)
    && r.committed * PAGE_SIZE == if flags.wired then r.size else 0
  }

  lemma RecordedAs(r: Region, base: nat, size: nat, prot: Protection, flags: RegionFlags)
    requires r == AnonymousRegion(base, size, prot, flags) && base % PAGE_SIZE == 0
    ensures Recorded(r, base, size, prot, flags)
  {
    SizeCovered(size);
  }

  predicate InWindow(base: nat, size: nat) { USER_BASE <= base && base + size <= USER_TOP }

  /** The page of va is mapped with the region's rights to a cleared frame of its own. */
  ghost predicate Wired(s: MapState, root: nat, r: Region, va: nat) {
    exists p: nat, f: nat :: WiredAt(s, root, r, va, p, f)
  }

  ghost predicate WiredAt(s: MapState, root: nat, r: Region, va: nat, p: nat, f: nat) {
    && Translate(s.m, root, 0, Indexes(va)) == Some(LeafOf(RegionWord(r, p), p))
    && (UserPage(va) ==> OwnSlot(s, f, Indexes(va)[3], p) && s.t[f] == Indexes(va)[..3])
    && (IsUserAddress(va) ==> PathOpen(s.m, root, Indexes(va), 3))
  }

  /** As many pages as four levels of tables have slots. */
  const ALL_PAGES: nat := 0x10_0000_0000

  /** The pages of the region from the i-th on can be mapped so that the account follows: mapping one outside the
      user window releases nothing counted.  Pages share slots when they are ALL_PAGES apart. */
  ghost predicate WireableFrom(s: MapState, root: nat, r: Region, i: nat) {
    forall k: nat | i <= k < ALL_PAGES && k * PAGE_SIZE < r.size :: Countable(s, root, r.base + k * PAGE_SIZE)
  }

  /** A region of the user window can be wired. */
  lemma WindowWireable(s: MapState, root: nat, r: Region)
    requires r.base % PAGE_SIZE == 0 && InWindow(r.base, r.size)
    ensures WireableFrom(s, root, r, 0)
  {
    forall k: nat | k * PAGE_SIZE < r.size ensures Countable(s, root, r.base + k * PAGE_SIZE) {
      PageInWindow(r.base, r.size, k);
      UserAddressPath(r.base + k * PAGE_SIZE);
    }
  }

  ghost predicate IdleKept(s: MapState, t: MapState) { forall p | Idle(s, p) :: Idle(t, p) }

  /** No frame is held less often than before. */
  ghost predicate GainsOnly(a: seq<nat>, b: seq<nat>) {
    |a| == |b| && forall p {:trigger a[p], b[p]} | 0 <= p < |a| :: a[p] <= b[p]
  }

  lemma GainsReflexive(a: seq<nat>)
    ensures GainsOnly(a, a)
  {
  }

  lemma GainsTransitive(a: seq<nat>, b: seq<nat>, c: seq<nat>)
    requires GainsOnly(a, b) && GainsOnly(b, c)
    ensures GainsOnly(a, c)
  {
    forall p {:trigger a[p], c[p]} | 0 <= p < |a| ensures a[p] <= c[p] { assert a[p] <= b[p]; }
  }

  lemma LeftGains(s1: MapState, s2: MapState, va: nat, others: seq<nat>, left: seq<nat>)
    requires Settled(va, others, left) || Stranded(s1, s2, others, left)
    ensures GainsOnly(others, left)
  {
  }

  lemma ViewOthers(s: MapState, t: MapState, root: nat, ix: seq<nat>)
    requires SameView(s.m, s.t, t.m, t.t) && IsRoot(s.t, root) && IsIndexes(ix)
    ensures OthersAsBefore(s, t, root, ix)
  {
    assert ix[..0] == [];
    forall g, k | IsRoot(s.t, g) && 1 <= k <= 3 && ShareTable(s.m, g, root, ix, k)
      ensures Translate(t.m, g, 0, ix) == Translate(t.m, root, 0, ix)
    {
      TranslateFromTable(s.m, g, ix, k);
      TranslateFromTable(s.m, root, ix, k);
      assert Translate(t.m, g, |s.t[g]|, ix) == Translate(s.m, g, |s.t[g]|, ix);
      assert Translate(t.m, root, |s.t[root]|, ix) == Translate(s.m, root, |s.t[root]|, ix);
    }
  }

  lemma TableStays(s: MapState, t: MapState, root: nat, ix: seq<nat>)
    requires OthersAsBefore(s, t, root, ix) && IsRoot(s.t, root)
    ensures IsRoot(t.t, root)
  {
  }

  lemma OwnPageWired(s: MapState, root: nat, r: Region, va: nat)
    requires Wf(s) && IsRoot(s.t, root) && exists q: nat :: OwnPage(s, root, r, va, q)
    ensures Wired(s, root, r, va)
  {
    var p: nat :| OwnPage(s, root, r, va, p);
    TranslateFromTable(s.m, root, Indexes(va), 3);
    TableAtTyped(s.m, s.t, root, Indexes(va), 3);
    assert WiredAt(s, root, r, va, p, TableAt(s.m, root, Indexes(va), 3).value);
  }

  /** The same counts, but for one reference more to some frame at most. */
  ghost predicate AtMostOneMore(others: seq<nat>, left: seq<nat>) {
    SameCounts(others, left) || exists p: nat :: p < |others| && SameCounts(others[p := others[p] + 1], left)
  }

  lemma StrandedOne(s1: MapState, s2: MapState, others: seq<nat>, left: seq<nat>)
    requires SameCounts(others, left) || Stranded(s1, s2, others, left)
    ensures AtMostOneMore(others, left)
  {
    if left != others && !SameCounts(others, left) {
      var p: nat :| OneMore(others, left, p);
      SameCountsReflexive(left);
    }
    SameCountsReflexive(others);
  }

  lemma OneMoreAfter(others: seq<nat>, before: seq<nat>, left: seq<nat>)
    requires SameCounts(others, before) && AtMostOneMore(before, left)
    ensures AtMostOneMore(others, left)
  {
    if SameCounts(before, left) {
      SameCountsTransitive(others, before, left);
    } else {
      var p: nat :| p < |before| && SameCounts(before[p := before[p] + 1], left);
      assert others[p] == before[p];
      assert SameCounts(others[p := others[p] + 1], before[p := before[p] + 1]);
      SameCountsTransitive(others[p := others[p] + 1], before[p := before[p] + 1], left);
    }
  }

  /** Only the first n pages from base may translate otherwise than before. */
  ghost predicate OutsideAsBefore(s1: MapState, s2: MapState, base: nat, n: nat) {
    && TablesKept(s1, s2)
    && forall g, jx | g in s1.t && IsIndexes(jx) && |s1.t[g]| <= 3 && jx[..|s1.t[g]|] == s1.t[g] &&
        !PageAmong(jx, base, n) ::
         Translate(s2.m, g, |s1.t[g]|, jx) == Translate(s1.m, g, |s1.t[g]|, jx)
  }

  ghost predicate PageAmong(jx: seq<nat>, base: nat, n: nat) {
    exists k: nat :: k < n && jx == Indexes(base + k * PAGE_SIZE)
  }

  lemma OutsideReflexive(s: MapState, base: nat, n: nat)
    ensures OutsideAsBefore(s, s, base, n)
  {
  }

  lemma OutsideExtended(s: MapState, t: MapState, s2: MapState, root: nat, base: nat, i: nat)
    requires OutsideAsBefore(s, t, base, i) && OthersAsBefore(t, s2, root, Indexes(base + i * PAGE_SIZE))
    ensures OutsideAsBefore(s, s2, base, i + 1)
  {
    hide Translate;
    forall g, jx | g in s.t && IsIndexes(jx) && |s.t[g]| <= 3 && jx[..|s.t[g]|] == s.t[g] && !PageAmong(jx, base, i + 1)
      ensures Translate(s2.m, g, |s.t[g]|, jx) == Translate(s.m, g, |s.t[g]|, jx)
    {
      assert jx != Indexes(base + i * PAGE_SIZE);
      assert forall k: nat | k < i :: k < i + 1 && jx != Indexes(base + k * PAGE_SIZE);
      assert Translate(t.m, g, |t.t[g]|, jx) == Translate(s.m, g, |s.t[g]|, jx);
    }
  }

  lemma OutsideWeakened(s: MapState, s2: MapState, base: nat, n: nat, more: nat)
    requires OutsideAsBefore(s, s2, base, n) && n <= more
    ensures OutsideAsBefore(s, s2, base, more)
  {
    forall jx | PageAmong(jx, base, n) ensures PageAmong(jx, base, more) {
      var k: nat :| k < n && jx == Indexes(base + k * PAGE_SIZE);
      assert k < more;
    }
  }

  lemma PageInWindow(base: nat, size: nat, i: nat)
    requires base % PAGE_SIZE == 0 && InWindow(base, size) && i * PAGE_SIZE < size
    ensures IsUserAddress(base + i * PAGE_SIZE) && (base + i * PAGE_SIZE) % PAGE_SIZE == 0
  {
  }

  /** Mapping one more page leaves the earlier pages of the region mapped. */
  lemma WiredKept(t: MapState, s2: MapState, root: nat, r: Region, i: nat)
    requires OthersAsBefore(t, s2, root, Indexes(r.base + i * PAGE_SIZE)) && IsRoot(t.t, root)
    requires r.base % PAGE_SIZE == 0 && i < ALL_PAGES
    requires OwnSlotsKept(t, s2, Indexes(r.base + i * PAGE_SIZE)) && WalksKept(t.m, t.t, s2.m)
    requires forall k: nat | k < i :: Wired(t, root, r, r.base + k * PAGE_SIZE)
    ensures forall k: nat | k < i :: Wired(s2, root, r, r.base + k * PAGE_SIZE)
  {
    hide Indexes, Translate, AliasesFollow, WalksKept;
    forall k: nat | k < i ensures Wired(s2, root, r, r.base + k * PAGE_SIZE) {
      var jx := Indexes(r.base + k * PAGE_SIZE);
      DistinctPages(r.base, k, i);
      assert jx[..0] == t.t[root];
      assert Translate(s2.m, root, |t.t[root]|, jx) == Translate(t.m, root, |t.t[root]|, jx);
      var p: nat, f: nat :| WiredAt(t, root, r, r.base + k * PAGE_SIZE, p, f);
      assert UserPage(r.base + k * PAGE_SIZE) ==> t.t[f] + [jx[3]] == jx;
      if IsUserAddress(r.base + k * PAGE_SIZE) { OpenStays(t, s2, root, jx); }
      assert WiredAt(s2, root, r, r.base + k * PAGE_SIZE, p, f);
    }
  }

  /** Why a page cannot be wired although there are frames: the address is not canonical, or something is there. */
  predicate CannotWire(s: MapState, root: nat, va: nat) {
    !IsCanonical(va) || Translate(s.m, root, 0, Indexes(va)).Some?
  }

  predicate CannotWireAt(s: MapState, root: nat, r: Region, k: nat) {
    CannotWire(s, root, (r.base + k * PAGE_SIZE) % U64)
  }

  /** A page whose turn has not come is as before. */
  lemma UnwiredAsBefore(s: MapState, t: MapState, root: nat, r: Region, i: nat)
    requires OutsideAsBefore(s, t, r.base, i) && IsRoot(s.t, root) && i < ALL_PAGES && r.base % PAGE_SIZE == 0
    requires CannotWire(t, root, (r.base + i * PAGE_SIZE) % U64)
    ensures CannotWireAt(s, root, r, i)
  {
    hide Translate, Indexes;
    var ix := Indexes(r.base + i * PAGE_SIZE);
    WrappedPage(r.base + i * PAGE_SIZE);
    forall k: nat | k < i ensures ix != Indexes(r.base + k * PAGE_SIZE) {
      DistinctPages(r.base, k, i);
    }
    assert ix[..0] == s.t[root] && !PageAmong(ix, r.base, i);
    assert Translate(t.m, root, |s.t[root]|, ix) == Translate(s.m, root, |s.t[root]|, ix);
  }

  lemma OpenStays(s: MapState, s2: MapState, root: nat, ix: seq<nat>)
    requires WalksKept(s.m, s.t, s2.m) && IsRoot(s.t, root) && IsIndexes(ix) && PathOpen(s.m, root, ix, 3)
    ensures PathOpen(s2.m, root, ix, 3)
  {
    assert TableAt(s.m, root, ix, 3).Some?;
  }

  /** Only the slots of an address matter. */
  lemma SameSlots(s: MapState, root: nat, va: nat, vb: nat)
    requires Indexes(va) == Indexes(vb)
    ensures UserPage(va) == UserPage(vb) && Countable(s, root, va) == Countable(s, root, vb)
  {
    hide Indexes, Translate;
  }

  /** A page is wired where its address wraps around to. */
  lemma WrappedWired(s: MapState, root: nat, r: Region, va: nat)
    requires Wired(s, root, r, va % U64)
    ensures Wired(s, root, r, va)
  {
    hide Indexes, Translate, OwnSlot, PathOpen;
    WrappedPage(va);
    var p: nat, f: nat :| WiredAt(s, root, r, va % U64, p, f);
    assert WiredAt(s, root, r, va, p, f);
  }

  lemma WiredOneMore(s: MapState, t: MapState, s2: MapState, root: nat, r: Region, i: nat)
    requires WiredUpTo(s, t, root, r, i) && IsRoot(t.t, root) && i < ALL_PAGES
    requires OthersAsBefore(t, s2, root, Indexes(r.base + i * PAGE_SIZE))
    requires r.base % PAGE_SIZE == 0 && WireableFrom(t, root, r, i)
    ensures IsRoot(s2.t, root) && OutsideAsBefore(s, s2, r.base, i + 1)
    ensures var va := r.base + i * PAGE_SIZE;
            Wired(s2, root, r, va) && OwnSlotsKept(t, s2, Indexes(va)) && WalksKept(t.m, t.t, s2.m) ==>
              WiredUpTo(s, s2, root, r, i + 1)
    ensures IdleKept(t, s2) ==> WireableFrom(s2, root, r, i + 1)
  {
    hide Wired, OwnSlotsKept, Countable, IdleKept, AliasesFollow, Indexes, Translate, WalksKept;
    var va := r.base + i * PAGE_SIZE;
    OutsideExtended(s, t, s2, root, r.base, i);
    if OwnSlotsKept(t, s2, Indexes(va)) && WalksKept(t.m, t.t, s2.m) { WiredKept(t, s2, root, r, i); }
    if IdleKept(t, s2) {
      forall k: nat | i + 1 <= k < ALL_PAGES && k * PAGE_SIZE < r.size
          ensures Countable(s2, root, r.base + k * PAGE_SIZE) {
        DistinctPages(r.base, i, k);
        OtherCountable(t, s2, root, Indexes(va), r.base + k * PAGE_SIZE);
      }
    }
  }

  lemma OtherCountable(t: MapState, s2: MapState, root: nat, ix: seq<nat>, va: nat)
    requires OthersAsBefore(t, s2, root, ix) && IsRoot(t.t, root) && Indexes(va) != ix && IdleKept(t, s2)
    requires Countable(t, root, va)
    ensures Countable(s2, root, va)
  {
    assert Indexes(va)[..0] == t.t[root];
    assert Translate(s2.m, root, |t.t[root]|, Indexes(va)) == Translate(t.m, root, |t.t[root]|, Indexes(va));
  }

  // A wired region runs out of frames before its pages run out of slots: ALL_PAGES pages would fill the user
  // window, each with a frame of its own.

  /** Page n of the user window has frame p for its own. */
  ghost predicate OwnedAt(s: MapState, n: nat, p: nat) {
    var ix := Indexes(USER_BASE + n * PAGE_SIZE);
    exists f: nat :: OwnSlot(s, f, ix[3], p) && s.t[f] == ix[..3]
  }

  ghost predicate Owned(s: MapState, n: nat) { exists p: nat :: OwnedAt(s, n, p) }

  lemma WiredBounded(s: MapState, root: nat, r: Region, i: nat, others: seq<nat>)
    requires Wf(s) && Counted(s, others) && r.base % PAGE_SIZE == 0
    requires forall k: nat | k < i :: Wired(s, root, r, r.base + k * PAGE_SIZE)
    ensures i < ALL_PAGES
  {
    if i >= ALL_PAGES {
      forall n: nat | n <= MAX_TRACKED ensures Owned(s, n) {
        WindowOwned(s, root, r, i, n);
      }
      var frames := OwnFrames(s, others, MAX_TRACKED + 1);
      Pigeons(frames, MAX_TRACKED);
    }
  }

  /** Each page of the user window shares its slots with one of the region. */
  lemma WindowOwned(s: MapState, root: nat, r: Region, i: nat, n: nat)
    requires r.base % PAGE_SIZE == 0 && i >= ALL_PAGES && n <= MAX_TRACKED
    requires forall k: nat | k < i :: Wired(s, root, r, r.base + k * PAGE_SIZE)
    ensures Owned(s, n)
  {
    var va := USER_BASE + n * PAGE_SIZE;
    var k := PageBetween(r.base, va);
    UserAddressPath(va);
    var p: nat, f: nat :| WiredAt(s, root, r, r.base + k * PAGE_SIZE, p, f);
    assert OwnedAt(s, n, p);
  }

  lemma {:induction false} OwnFrames(s: MapState, others: seq<nat>, n: nat) returns (frames: set<nat>)
    requires Wf(s) && Counted(s, others) && n <= MAX_TRACKED + 1
    requires forall m: nat | m < n :: Owned(s, m)
    ensures |frames| == n && forall p | p in frames :: p < MAX_TRACKED && exists m: nat :: m < n && OwnedAt(s, m, p)
  {
    if n == 0 {
      frames := {};
    } else {
      var last := n - 1;
      var less := OwnFrames(s, others, last);
      assert Owned(s, last);
      var p: nat :| OwnedAt(s, last, p);
      assert p < MAX_TRACKED;
      if p in less {
        var m: nat :| m < last && OwnedAt(s, m, p);
        OwnedOnce(s, others, m, last, p);
      }
      frames := less + {p};
    }
  }

  /** No frame is two pages' own. */
  lemma OwnedOnce(s: MapState, others: seq<nat>, m: nat, n: nat, p: nat)
    requires Wf(s) && Counted(s, others) && OwnedAt(s, m, p) && OwnedAt(s, n, p)
    ensures n <= m || n >= m + ALL_PAGES
  {
    hide Indexes, Wf, Tree;
    var (ix, jx) := (Indexes(USER_BASE + m * PAGE_SIZE), Indexes(USER_BASE + n * PAGE_SIZE));
    var f: nat :| OwnSlot(s, f, ix[3], p) && s.t[f] == ix[..3];
    var g: nat :| OwnSlot(s, g, jx[3], p) && s.t[g] == jx[..3];
    if m < n < m + ALL_PAGES {
      DistinctPages(USER_BASE, m, n);
      assert ix == ix[..3] + [ix[3]] && jx == jx[..3] + [jx[3]];
      TwoSlots(s, others, f, ix[3], g, jx[3], p);
    }
  }

  lemma {:induction false} Pigeons(frames: set<nat>, n: nat)
    requires forall p | p in frames :: p < n
    ensures |frames| <= n
  {
    if n > 0 { Pigeons(frames - {n - 1}, n - 1); }
  }

  lemma SameCountsTransitive(a: seq<nat>, b: seq<nat>, c: seq<nat>)
    requires SameCounts(a, b) && SameCounts(b, c)
    ensures SameCounts(a, c)
  {
    forall p {:trigger a[p], c[p]} | 0 <= p < |a| ensures a[p] == c[p] { assert a[p] == b[p]; }
  }

  /** The error code of an access. */
  function AccessCode(present: bool, a: Access): (r: ErrorCode) {
    ErrorCode(present, a.write, a.user, a.execute)
  }

  /** The same regions, but for their commit counts. */
  ghost predicate SameLayout(a: seq<Region>, b: seq<Region>) {
    |a| == |b| && forall i | 0 <= i < |a| :: b[i] == a[i].(committed := b[i].committed)
  }

  lemma LaidKept(a: seq<Region>, b: seq<Region>, next: nat)
    requires Laid(a, next) && SameLayout(a, b)
    ensures Laid(b, next)
  {
  }

  lemma PageInRegion(r: Region, fa: nat)
    requires Contains(r, fa) && r.base % PAGE_SIZE == 0 && r.base + r.size < U64
    ensures PageOf(fa) % PAGE_SIZE == 0 && r.base <= PageOf(fa) < r.base + r.size
  {
  }

  lemma UserPageOf(fa: nat)
    requires IsUserAddress(fa)
    ensures IsUserAddress(PageOf(fa)) && UserPage(PageOf(fa)) && IsCanonical(PageOf(fa))
  {
    UserAddressPath(PageOf(fa));
  }

  lemma ViewAt(s1: MapState, s2: MapState, root: nat, ix: seq<nat>)
    requires SameView(s1.m, s1.t, s2.m, s2.t) && IsRoot(s1.t, root) && IsIndexes(ix)
    ensures Translate(s2.m, root, 0, ix) == Translate(s1.m, root, 0, ix)
  {
    assert ix[..0] == s1.t[root];
    assert Translate(s2.m, root, |s1.t[root]|, ix) == Translate(s1.m, root, |s1.t[root]|, ix);
  }

  /** A last-level entry marked copy-on-write is present. */
  predicate MarkedPresent(s: MapState, root: nat, va: nat) {
    EntryAt(s, root, va).Some? && EntryAt(s, root, va).value.softCow ==> EntryAt(s, root, va).value.present
  }

  /** It is if the page translates, as it does whenever the processor reports a present page. */
  lemma LeafPresent(s: MapState, root: nat, va: nat)
    requires Translate(s.m, root, 0, Indexes(va)).Some?
    ensures MarkedPresent(s, root, va)
  {
    if TableAt(s.m, root, Indexes(va), 3).Some? { TranslateFromTable(s.m, root, Indexes(va), 3); }
  }

  lemma SameCountsReflexive(a: seq<nat>)
    ensures SameCounts(a, a)
  {
  }

  /** The region lets the access of the error code through. */
  predicate Permits(r: Region, e: ErrorCode) {
    && !r.flags.guard
    && (e.write ==> r.protection.write)
    && (e.user ==> r.protection.user)
    && (e.instr ==> r.protection.execute)
  }

  /** The last-level entry of the page, when the walk has one. */
  function EntryAt(s: MapState, root: nat, va: nat): (r: Option<Word>) {
    match TableAt(s.m, root, Indexes(va), 3)
    case None => None
    case Some(f) => if f < |s.m| then Some(s.m[f][Indexes(va)[3]]) else None
  }

  /** The fault takes the copying branch of copy-on-write. */
  predicate CopiesShared(s: MapState, root: nat, va: nat, e: ErrorCode) {
    e.present && e.write && IsCanonical(va)
    && match EntryAt(s, root, va)
       case None => false
       case Some(w) => w.softCow && !CountedOnce(s, w.pfn)
  }

  /** ... there is a frame for the copy, and the frame that is copied is tracked and in the user window: it is
      left with a reference too few. */
  predicate LosesReference(s: MapState, root: nat, va: nat, e: ErrorCode) {
    CopiesShared(s, root, va, e) && !NoneFree(s) && UserPage(va) && EntryAt(s, root, va).value.pfn < MAX_TRACKED
  }

  /** A region that holds the address permits the access. */
  ghost predicate Allows(regions: seq<Region>, fa: nat, e: ErrorCode) {
    exists i :: 0 <= i < |regions| && Contains(regions[i], fa) && Permits(regions[i], e)
  }

  /** The account can follow the fault: it releases nothing outside the user window that is counted. */
  predicate Accountable(s: MapState, root: nat, va: nat, e: ErrorCode) {
    Countable(s, root, va) || (e.present && !CopiesShared(s, root, va, e))
  }

  /** The references held elsewhere after a fault. */
  ghost predicate LeftBy(s1: MapState, s2: MapState, status: KStatus, va: nat, e: ErrorCode, others: seq<nat>,
                         left: seq<nat>)
  {
    if status != Success then Stranded(s1, s2, others, left)
    else if e.present then left == others || (!UserPage(va) && exists p: nat :: OneMore(others, left, p))
    else Settled(va, others, left)
  }

  predicate CountedOnce(s: MapState, p: nat) { p < MAX_TRACKED && p < |s.refs| && s.refs[p] == 1 }

  /** What a fault does: nothing unless the first region that holds the address permits the access. */
  ghost predicate FaultOutcome(s1: MapState, s2: MapState, status: KStatus, root: nat, regions: seq<Region>, fa: nat,
                               e: ErrorCode, pool: seq<SectionSlot>)
  {
    && ((forall i | 0 <= i < |regions| && Contains(regions[i], fa) :: !Permits(regions[i], e)) ==>
        status == AccessDenied && s2 == s1)
    && forall i | 0 <= i < |regions| && Contains(regions[i], fa) && Permits(regions[i], e) ::
         Handled(s1, s2, status, root, regions[i], PageOf(fa), e, pool)
  }

  /** The address is in no region, in a guard region, or in one whose protection lacks what the access needs. */
  ghost predicate Denied(regions: seq<Region>, fa: nat, e: ErrorCode) {
    forall i | 0 <= i < |regions| && Contains(regions[i], fa) ::
      var r := regions[i];
      || r.flags.guard || (e.write && !r.protection.write) || (e.user && !r.protection.user)
      || (e.instr && !r.protection.execute)
  }

  /** The region that holds the address has one page more to its name. */
  ghost predicate OneCommitted(a: seq<Region>, b: seq<Region>, i: nat, fa: nat) {
    i < |a| && Contains(a[i], fa) && b == a[i := a[i].(committed := a[i].committed + 1)]
  }

  lemma DeniedExactly(regions: seq<Region>, fa: nat, e: ErrorCode)
    ensures Denied(regions, fa, e) <==> !Allows(regions, fa, e)
  {
    if i :| 0 <= i < |regions| && Contains(regions[i], fa) && Permits(regions[i], e) {
      assert !Denied(regions, fa, e);
    }
  }

  ghost predicate Handled(s1: MapState, s2: MapState, status: KStatus, root: nat, r: Region, va: nat,
                          e: ErrorCode, pool: seq<SectionSlot>)
  {
    if e.present then PresentOutcome(s1, s2, status, root, va, e)
    else AbsentOutcome(s1, s2, status, root, r, va, pool)
  }

  /** An absent page is backed as its region says. */
  ghost predicate AbsentOutcome(s1: MapState, s2: MapState, status: KStatus, root: nat, r: Region, va: nat,
      pool: seq<SectionSlot>) {
    && (status == Success ==> Placed(s2, root, r, va, pool) && OthersAsBefore(s1, s2, root, Indexes(va)))
    && (status == Success && Countable(s1, root, va) ==> Resolved(s2, root, r, va, pool))
    && (status == Success && Translate(s1.m, root, 0, Indexes(va)) == None ==> PagesKept(s1, s2))
    && (status == NotImplemented ==> Translate(s1.m, root, 0, Indexes(va)).Some?)
    && status in {Success, InitFailed, NotImplemented, InvalidParameter}
    && (status == InvalidParameter ==> !IsCanonical(va))
    && (Succeeds(s1, root, r, va) ==> status == Success)
    && (status != Success ==> SameView(s1.m, s1.t, s2.m, s2.t))
    && (status == Success && IsUserAddress(va) && WritableLinks(s1) ==> GrantsAs(s2, root, va, r))
  }

  /** What is enough for a fault on an absent page to succeed: the tables are there, and a frame if one is needed. */
  predicate Succeeds(s: MapState, root: nat, r: Region, va: nat) {
    IsCanonical(va) && TableAt(s.m, root, Indexes(va), 3).Some? && (r.backing.Anonymous? ==> !NoneFree(s))
  }

  /** A write to a copy-on-write page makes it writable, in place when nobody else counts its
      frame and as a copy otherwise; any other protection fault is denied. */
  ghost predicate PresentOutcome(s1: MapState, s2: MapState, status: KStatus, root: nat, va: nat, e: ErrorCode) {
    var entry := EntryAt(s1, root, va);
    if IsCanonical(va) && entry.Some? && entry.value.softCow && e.write then
      if CountedOnce(s1, entry.value.pfn) then
        && status == Success
        && SlotIs(s2.m, root, Indexes(va), entry.value.(softCow := false, writable := true))
        && PathOpen(s2.m, root, Indexes(va), 3) == PathOpen(s1.m, root, Indexes(va), 3)
        && SameUpper(s1.m, s2.m, root, Indexes(va))
        && OthersAsBefore(s1, s2, root, Indexes(va)) && DataKept(s1, s2)
      else
        if NoneFree(s1) then status == InitFailed && s2 == s1
        else status == Success && Copied(s1, s2, root, va, entry.value)
    else
      status == AccessDenied && s2 == s1
  }

  lemma PresentHandled(s1: MapState, s2: MapState, status: KStatus, root: nat, regions: seq<Region>, i: nat, fa: nat,
                       a: Access, pool: seq<SectionSlot>)
    requires FaultOutcome(s1, s2, status, root, regions, fa, AccessCode(true, a), pool)
    requires i < |regions| && Contains(regions[i], fa) && Permits(regions[i], AccessCode(false, a))
    ensures PresentOutcome(s1, s2, status, root, PageOf(fa), AccessCode(true, a))
    ensures Allows(regions, fa, AccessCode(true, a))
    ensures UserPage(PageOf(fa)) ==> Accountable(s1, root, PageOf(fa), AccessCode(true, a))
  {
    hide PresentOutcome;
    assert Permits(regions[i], AccessCode(true, a));
  }

  lemma TreeOfShort(s: MapState, others: seq<nat>, k: nat)
    requires AtMostShort(s, others, k)
    ensures Tree(s.m, s.t)
  {
  }

  /** The page is there and does not allow the access. */
  predicate DeniedThere(s: MapState, root: nat, va: nat, a: Access) {
    Translate(s.m, root, 0, Indexes(va)).Some? && !Allowed(s.m, root, 0, Indexes(va), a)
  }

  /** A fault gets the access through to the page that is there: a write under copy-on-write that would be
      allowed as a read; where the page is copied, the walk to it is opened, so only its own entry matters. */
  predicate Repairs(s: MapState, root: nat, va: nat, a: Access) {
    match EntryAt(s, root, va)
    case None => false
    case Some(e) =>
      a.write && e.softCow &&
      if CountedOnce(s, e.pfn) then Allowed(s.m, root, 0, Indexes(va), a.(write := false))
      else EntryAllows(e, a.(write := false)) && !NoneFree(s)
  }

  lemma RepairsExactly(s1: MapState, s2: MapState, status: KStatus, root: nat, va: nat, a: Access)
    requires PresentOutcome(s1, s2, status, root, va, AccessCode(true, a)) && IsUserAddress(va) && IsCanonical(va)
    requires Tree(s1.m, s1.t) && Tree(s2.m, s2.t) && WritableLinks(s1) && WritableLinks(s2)
    requires IsRoot(s1.t, root) && IsRoot(s2.t, root) && DeniedThere(s1, root, va, a)
    ensures Allowed(s2.m, root, 0, Indexes(va), a) <==> Repairs(s1, root, va, a)
  {
    hide OthersAsBefore, Translate, Tree, WritableLinks, Allowed, UpperAllows, PathOpen, DataKept, IsRoot, Indexes;
    var ix := Indexes(va);
    LeafPresent(s1, root, va);
    match EntryAt(s1, root, va)
    case None =>
    case Some(e) =>
      if a.write && e.softCow {
        if CountedOnce(s1, e.pfn) {
          OpenGrants(s1, root, ix, a, 3);
          LeafDecides(s1.m, root, ix, e, a.(write := false));
          LeafDecides(s2.m, root, ix, e.(softCow := false, writable := true), a);
        } else if !NoneFree(s1) {
          var n: nat :| CopiedPage(s1, s2, root, va, e, n);
          OpenPathAllows(s2, root, ix, CopyWord(e, n), a);
        }
      }
  }

  /** What one fault has not let through no further fault will, unless it failed for lack of a frame. */
  lemma DeniedForGood(s1: MapState, s2: MapState, s3: MapState, first: KStatus, second: KStatus, root: nat, va: nat,
                      a: Access)
    requires PresentOutcome(s1, s2, first, root, va, AccessCode(true, a)) && first != InitFailed
    requires PresentOutcome(s2, s3, second, root, va, AccessCode(true, a))
    ensures second == AccessDenied && s3 == s2
  {
    hide OthersAsBefore, PathOpen, DataKept, SameUpper;
    if first == Success && !CountedOnce(s1, EntryAt(s1, root, va).value.pfn) {
      var n: nat :| CopiedPage(s1, s2, root, va, EntryAt(s1, root, va).value, n);
    }
  }

  lemma LosingSucceeds(s1: MapState, s2: MapState, status: KStatus, root: nat, va: nat, e: ErrorCode)
    requires PresentOutcome(s1, s2, status, root, va, e) && LosesReference(s1, root, va, e)
    ensures status == Success
  {
  }

  /** The page of va is frame n, a copy of the frame it was before if that was not free, and writable. */
  ghost predicate CopiedPage(s1: MapState, s2: MapState, root: nat, va: nat, entry: Word, n: nat) {
    && SlotIs(s2.m, root, Indexes(va), entry.(softCow := false, writable := true, present := true, pfn := n))
    && n < |s1.m| == |s2.m|
    && (entry.pfn < |s1.m| && (entry.pfn < |s1.taken| ==> s1.taken[entry.pfn]) ==> s2.m[n] == s1.m[entry.pfn])
  }

  lemma PageIndexInSection(offset: nat, pageCount: nat)
    requires offset < pageCount * PAGE_SIZE && pageCount <= MAX_SECTION_PAGES
    ensures offset / PAGE_SIZE % 0x1_0000_0000 == offset / PAGE_SIZE < pageCount
  {
  }

  /** The page of va is page i of the section in slot k. */
  ghost predicate SectionPage(s: MapState, root: nat, r: Region, va: nat, pool: seq<SectionSlot>, header: nat,
                              k: nat, i: nat, p: nat)
  {
    LiveAs(pool, k, header) && va >= r.base && i == (va - r.base) / PAGE_SIZE && Lists(pool, k, i, p) &&
        FaultedIn(s, root, r, va, p)
  }

  /** The page of va is mapped as its region says, a page of a section region to the section's frame. */
  ghost predicate Placed(s: MapState, root: nat, r: Region, va: nat, pool: seq<SectionSlot>) {
    match r.backing
    case Anonymous => exists p: nat :: FaultedIn(s, root, r, va, p)
    case SectionOf(header) => exists k: nat, i: nat, p: nat :: SectionPage(s, root, r, va, pool, header, k, i, p)
  }

  /** ... and a page of an anonymous region to a cleared frame of its own. */
  ghost predicate Resolved(s: MapState, root: nat, r: Region, va: nat, pool: seq<SectionSlot>) {
    match r.backing
    case Anonymous => exists p: nat :: OwnPage(s, root, r, va, p)
    case SectionOf(header) => exists k: nat, i: nat, p: nat :: SectionPage(s, root, r, va, pool, header, k, i, p)
  }

  /** What the copying branch does to the pages; the walk to the copy is open to user code. */
  ghost predicate Copied(s1: MapState, s2: MapState, root: nat, va: nat, entry: Word) {
    && (exists n: nat :: CopiedPage(s1, s2, root, va, entry, n)) && OthersAsBefore(s1, s2, root, Indexes(va))
    && (IsUserAddress(va) ==> PathOpen(s2.m, root, Indexes(va), 3))
  }

  /** The walk to the page is there before the copy is mapped. */
  lemma CopyWalk(s: MapState, t: MapState, n: nat, root: nat, va: nat, entry: Word)
    requires Wf(s) && IsRoot(s.t, root) && SlotIs(s.m, root, Indexes(va), entry)
    requires t.t == s.t && n !in s.t && n < |s.m| == |t.m| && t.m == s.m[n := t.m[n]]
    ensures TableAt(t.m, root, Indexes(va), 3).Some?
  {
    WalkUntouched(s.m, t.m, s.t, root, Indexes(va), 3);
  }

  /** The copy as the map finds it: frame n taken and filled, the old frame released once. */
  ghost predicate CopyReady(s: MapState, entry: Word, n: nat, content: Frame, root: nat, va: nat, others: seq<nat>) {
    && Wf(s) && Counted(s, others) && IsRoot(s.t, root) && SlotIs(s.m, root, Indexes(va), entry) && entry.present
    && (entry.pfn < MAX_TRACKED ==> s.refs[entry.pfn] != 1 && (UserPage(va) ==> s.refs[entry.pfn] > 0))
    && n < |s.m| && n < MAX_TRACKED && |s.refs| == |s.taken| == MAX_TRACKED && !s.taken[n] && s.refs[n] == 0
    && (entry.pfn < |s.m| ==> content == s.m[entry.pfn])
  }

  lemma SharedPages(s: MapState, s3: MapState, root: nat, va: nat, entry: Word, n: nat, content: Frame,
      others: seq<nat>)
    requires CopyReady(s, entry, n, content, root, va, others)
    requires Remapped(CopyTaken(s, n, content, entry.pfn), s3, root, va, CopyWord(entry, n))
    ensures Copied(s, s3, root, va, entry) && TablesKept(s, s3) && (WritableLinks(s) ==> WritableLinks(s3))
  {
    hide Remapped, OthersAsBefore, Wf, Translate, WritableLinks, Counted;
    TakenShort(s, n, content, entry.pfn, others);
    var (t, w) := (CopyTaken(s, n, content, entry.pfn), CopyWord(entry, n));
    CopyView(s, t, n, content, entry.pfn);
    MapEffect(t, s3, root, va, w);
    MappedThroughView(s, t, s3, root, Indexes(va), w);
    if WritableLinks(t) { MapKeepsLinks(t, s3, root, va, w); }
    assert CopiedPage(s, s3, root, va, entry, n);
  }

  lemma SharedAccount(s: MapState, s3: MapState, root: nat, va: nat, entry: Word, n: nat, content: Frame,
                      pool: seq<SectionSlot>, others: seq<nat>, mapped: set<nat>)
    requires BooksOk(s, pool, others, mapped) && CopyReady(s, entry, n, content, root, va, others)
    requires n < |others| && Remapped(CopyTaken(s, n, content, entry.pfn), s3, root, va, CopyWord(entry, n))
    ensures var left := if UserPage(va) then others else others[n := 1];
      && AtMostShort(s3, left, 2) && (UserPage(va) && entry.pfn < MAX_TRACKED ==> OneShort(s3, left, entry.pfn))
      && (Countable(s, root, va) ==>
          (BooksOk(s3, pool, left, mapped) <==> !(UserPage(va) && entry.pfn < MAX_TRACKED)))
  {
    hide BooksOk, Remapped, Short, Wf, Translate, Countable, Counted, CopyTaken;
    TranslateOfSlot(s.m, root, Indexes(va), entry);
    var k := CopyShort(s, n, content, entry.pfn, s3, root, va, CopyWord(entry, n), others);
    CopyBooks(s, s3, root, va, CopyWord(entry, n), n, content, entry.pfn, pool, others, mapped, k);
  }

  lemma BooksSizes(s: MapState, pool: seq<SectionSlot>, others: seq<nat>, mapped: set<nat>)
    requires BooksOk(s, pool, others, mapped)
    ensures |s.refs| == |s.taken| == |others| == MAX_TRACKED
  {
  }

  /** The word that maps the copy. */
  function CopyWord(entry: Word, n: nat): (w: Word) {
    entry.(softCow := false, writable := true, present := true, pfn := n)
  }

  lemma TranslateOfSlot(m: Memory, root: nat, ix: seq<nat>, w: Word)
    requires IsIndexes(ix) && SlotIs(m, root, ix, w) && w.present
    ensures Translate(m, root, 0, ix) == Some(LeafOf(w, w.pfn))
  {
    TranslateFromTable(m, root, ix, 3);
  }

  lemma CopyView(s: MapState, t: MapState, n: nat, content: Frame, p: nat)
    requires Wf(s) && n < |s.m| && n < MAX_TRACKED && !s.taken[n] && t == CopyTaken(s, n, content, p)
    ensures SameView(s.m, s.t, t.m, t.t) && (WritableLinks(s) ==> WritableLinks(t)) && n !in s.t
    ensures WalksKept(s.m, s.t, t.m)
  {
    TakeFrameKeeps(s, n, content);
    WalksUntouched(s.m, t.m, s.t);
  }

  lemma CopyBooks(s: MapState, s3: MapState, root: nat, va: nat, w: Word, n: nat, content: Frame, p: nat,
                  pool: seq<SectionSlot>, others: seq<nat>, mapped: set<nat>, k: nat)
    requires BooksOk(s, pool, others, mapped) && IsRoot(s.t, root)
    requires Translate(s.m, root, 0, Indexes(va)).Some? && Translate(s.m, root, 0, Indexes(va)).value.frame == p
    requires n < |s.m| && n < MAX_TRACKED && n < |others| && !s.taken[n] && s.refs[n] == 0 && |s.refs| == |s.taken|
    requires p < MAX_TRACKED ==> s.refs[p] != 1
    requires Remapped(CopyTaken(s, n, content, p), s3, root, va, w) && w.present && w.pfn == n
    requires UserPage(va) && p < MAX_TRACKED ==> k == 1 && Short(s3, others, p, k)
    ensures var left := if UserPage(va) then others else others[n := 1];
      Countable(s, root, va) ==> (BooksOk(s3, pool, left, mapped) <==> !(UserPage(va) && p < MAX_TRACKED))
  {
    hide Remapped, Short, PoolOk, Wf, Counted, Slots, Translate;
    BooksShape(s, pool, others, mapped);
    if UserPage(va) && p < MAX_TRACKED {
      if BooksOk(s3, pool, others, mapped) {
        ShortIsWrong(s3, others, p, k);
      }
    } else if Countable(s, root, va) {
      TakenShort(s, n, content, p, others);
      BooksTaken(s, n, content, pool, others, mapped);
      CopyCountable(s, n, content, root, va);
      BooksMapped(TakeFrame(s, n, content), s3, root, va, w, pool, others[n := 1], mapped);
      assert HandedOver(others[n := 1], w) == others;
    }
  }

  lemma CopyCountable(s: MapState, n: nat, content: Frame, root: nat, va: nat)
    requires Wf(s) && IsRoot(s.t, root) && n < |s.m| && n < MAX_TRACKED && !s.taken[n] && Countable(s, root, va)
    ensures Countable(TakeFrame(s, n, content), root, va)
  {
    hide Translate;
    TakeFrameKeeps(s, n, content);
    StillCountable(s, TakeFrame(s, n, content), root, va);
  }

  /** The page of va is mapped to a frame of zeros. */
  ghost predicate ReadsZero(s: MapState, root: nat, va: nat) {
    exists w: Word :: ReadsZeroAt(s, root, va, w)
  }

  ghost predicate ReadsZeroAt(s: MapState, root: nat, va: nat, w: Word) {
    SlotIs(s.m, root, Indexes(va), w) && w.present && w.pfn < |s.m| && IsEmptyTable(s.m[w.pfn])
  }

  /** The frame a resolved page is mapped to. */
  lemma ResolvedFrame(s: MapState, root: nat, r: Region, va: nat, pool: seq<SectionSlot>) returns (p: nat)
    requires Resolved(s, root, r, va, pool)
    ensures FaultedIn(s, root, r, va, p) && (r.backing.Anonymous? ==> OwnPage(s, root, r, va, p))
  {
    match r.backing
    case Anonymous => p :| OwnPage(s, root, r, va, p);
    case SectionOf(header) =>
      var k: nat, i: nat, q: nat :| SectionPage(s, root, r, va, pool, header, k, i, q);
      p := q;
  }

  /** The page grants exactly what the region's protection does, but for writes under copy-on-write. */
  ghost predicate GrantsAs(s: MapState, root: nat, va: nat, r: Region) {
    forall a: Access ::
      Allowed(s.m, root, 0, Indexes(va), a) <==>
      && (a.write ==> r.protection.write && !r.flags.cow)
      && (a.user ==> r.protection.user)
      && (a.execute ==> r.protection.execute)
  }

  /** So does every page of the region in the user window. */
  ghost predicate AllGrant(s: MapState, root: nat, r: Region) {
    forall va: nat | r.base <= va < r.base + r.size && va % PAGE_SIZE == 0 && IsUserAddress(va) ::
      GrantsAs(s, root, va, r)
  }

  lemma PlacedGrants(s: MapState, root: nat, r: Region, va: nat, pool: seq<SectionSlot>)
    requires Placed(s, root, r, va, pool) && Tree(s.m, s.t) && WritableLinks(s) && IsRoot(s.t, root)
    requires IsUserAddress(va)
    ensures GrantsAs(s, root, va, r)
  {
    hide Tree, WritableLinks, Allowed, Indexes, TableAt;
    var p: nat :| FaultedIn(s, root, r, va, p);
    var w := RegionWord(r, p);
    assert FaultedIn(s, root, r, va, p);
    forall a: Access ensures Allowed(s.m, root, 0, Indexes(va), a) <==> EntryAllows(w, a) {
      OpenPathAllows(s, root, Indexes(va), w, a);
    }
  }

  lemma WiredGrants(s: MapState, root: nat, r: Region)
    requires Tree(s.m, s.t) && WritableLinks(s) && IsRoot(s.t, root) && r.base % PAGE_SIZE == 0
    requires forall k: nat | k < r.size / PAGE_SIZE :: Wired(s, root, r, r.base + k * PAGE_SIZE)
    requires r.size % PAGE_SIZE == 0
    ensures AllGrant(s, root, r)
  {
    hide Tree, WritableLinks, Allowed, Indexes, OwnSlot, Translate;
    forall va: nat | r.base <= va < r.base + r.size && va % PAGE_SIZE == 0 && IsUserAddress(va)
      ensures GrantsAs(s, root, va, r)
    {
      var k := (va - r.base) / PAGE_SIZE;
      assert va == r.base + k * PAGE_SIZE && k < r.size / PAGE_SIZE;
      var p: nat, f: nat :| WiredAt(s, root, r, va, p, f);
      var w := RegionWord(r, p);
      forall a: Access ensures Allowed(s.m, root, 0, Indexes(va), a) <==> EntryAllows(w, a) {
        OpenLeafAllows(s, root, Indexes(va), w, a);
      }
    }
  }

  /** A page mapped as its region says. */
  lemma BackedAllows(s: MapState, root: nat, r: Region, va: nat, p: nat, a: Access)
    requires Wf(s) && WritableLinks(s) && IsRoot(s.t, root) && IsUserAddress(va) && FaultedIn(s, root, r, va, p)
    ensures Allowed(s.m, root, 0, Indexes(va), a) <==>
            && (a.write ==> r.protection.write && !r.flags.cow)
            && (a.user ==> r.protection.user)
            && (a.execute ==> r.protection.execute)
    ensures Translate(s.m, root, 0, Indexes(va)).Some?
    ensures EntryAt(s, root, va) == Some(RegionWord(r, p))
    ensures OwnPage(s, root, r, va, p) ==> ReadsZero(s, root, va)
  {
    assert OwnPage(s, root, r, va, p) ==> ReadsZeroAt(s, root, va, RegionWord(r, p));
    OpenPathAllows(s, root, Indexes(va), RegionWord(r, p), a);
    TranslateFromTable(s.m, root, Indexes(va), 3);
  }

  /** Once made writable in place, the page allows writes, and else what it did. */
  lemma CowAllows(s: MapState, root: nat, r: Region, va: nat, p: nat, a: Access)
    requires Wf(s) && WritableLinks(s) && IsRoot(s.t, root) && IsUserAddress(va)
    requires SlotIs(s.m, root, Indexes(va), RegionWord(r, p).(softCow := false, writable := true)) &&
        PathOpen(s.m, root, Indexes(va), 3)
    ensures Allowed(s.m, root, 0, Indexes(va), a) <==>
            (a.user ==> r.protection.user) && (a.execute ==> r.protection.execute)
  {
    OpenPathAllows(s, root, Indexes(va), RegionWord(r, p).(softCow := false, writable := true), a);
  }

  lemma ListedCounted(s: MapState, pool: seq<SectionSlot>, others: seq<nat>, mapped: set<nat>, p: nat)
    requires BooksOk(s, pool, others, mapped) && Listed(pool, p)
    ensures p < MAX_TRACKED && others[p] >= 1 && s.refs[p] > 0
  {
    var k: nat, i: nat :| Lists(pool, k, i, p);
    assert s.refs[p] >= |Slots(s, p)| + others[p];
  }

  lemma SectionFaulted(s: MapState, t: MapState, s2: MapState, root: nat, r: Region, va: nat, p: nat)
    requires Remapped(t, s2, root, va, RegionWord(r, p)) && t.m == s.m && t.t == s.t
    ensures FaultedIn(s2, root, r, va, p) && OthersAsBefore(s, s2, root, Indexes(va))
  {
    MapEffect(t, s2, root, va, RegionWord(r, p));
    SameViewReflexive(s.m, s.t);
    MappedThroughView(s, t, s2, root, Indexes(va), RegionWord(r, p));
  }

  /** The references held elsewhere after a page was faulted in: as before in the user window; elsewhere the
      slot is not counted, so its reference is one of them. */
  ghost predicate Settled(va: nat, others: seq<nat>, left: seq<nat>) {
    if UserPage(va) then SameCounts(others, left) else exists p: nat :: OneMore(others, left, p)
  }

  lemma Settles(others: seq<nat>, taken: seq<nat>, va: nat, p: nat, w: Word)
    requires OneMore(others, taken, p) && w.present && w.pfn == p
    ensures Settled(va, others, AfterMap(taken, va, w))
  {
    if UserPage(va) { HandedOverBack(others, taken, p, w); }
  }

  lemma StillCountable(s: MapState, t: MapState, root: nat, va: nat)
    requires SameView(s.m, s.t, t.m, t.t) && IsRoot(s.t, root)
    requires forall p | Idle(s, p) :: Idle(t, p)
    ensures Countable(s, root, va) ==> Countable(t, root, va)
  {
    assert Indexes(va)[..0] == s.t[root];
    assert Translate(t.m, root, |s.t[root]|, Indexes(va)) == Translate(s.m, root, |s.t[root]|, Indexes(va));
  }

  lemma HandedOverBack(others: seq<nat>, taken: seq<nat>, p: nat, w: Word)
    requires p < |others| && taken == others[p := others[p] + 1] && w.present && w.pfn == p
    ensures SameCounts(others, HandedOver(taken, w))
  {
  }

  /** The same number of references to every frame. */
  ghost predicate SameCounts(a: seq<nat>, b: seq<nat>) {
    |a| == |b| && forall p {:trigger a[p], b[p]} | 0 <= p < |a| :: a[p] == b[p]
  }

  /** The word that maps a page of the region to frame p. */
  function RegionWord(r: Region, p: nat): (result: Word) {
    ProtectionToPte(r.protection, r.flags).(present := true, pfn := p)
  }

  /** The page of va is mapped to p as its region says, through upper entries open to user code. */
  ghost predicate FaultedIn(s: MapState, root: nat, r: Region, va: nat, p: nat) {
    SlotIs(s.m, root, Indexes(va), RegionWord(r, p)) && (IsUserAddress(va) ==> PathOpen(s.m, root, Indexes(va), 3))
  }

  /** ... and p is a cleared frame of the page's own. */
  ghost predicate OwnPage(s: MapState, root: nat, r: Region, va: nat, p: nat) {
    && FaultedIn(s, root, r, va, p)
    && p < |s.m| && p < |s.refs| && p < MAX_TRACKED && p !in s.t && s.refs[p] == 1 && IsEmptyTable(s.m[p])
  }

  /** Every page but that of ix translates as before, in every address space, and that of ix in other address
      spaces as before or as under the root. */
  ghost predicate OthersAsBefore(s1: MapState, s2: MapState, root: nat, ix: seq<nat>) {
    && TablesKept(s1, s2)
    && IsIndexes(ix) && AliasesFollow(s1.m, s1.t, s2.m, root, ix)
    && forall g, jx | g in s1.t && IsIndexes(jx) && jx != ix && |s1.t[g]| <= 3 && jx[..|s1.t[g]|] == s1.t[g] ::
         Translate(s2.m, g, |s1.t[g]|, jx) == Translate(s1.m, g, |s1.t[g]|, jx)
  }

  ghost predicate TablesKept(s1: MapState, s2: MapState) {
    forall g | g in s1.t :: g in s2.t && s2.t[g] == s1.t[g]
  }

  /** References as before, or one more to some frame that nobody is going to give up. */
  ghost predicate OneMore(others: seq<nat>, left: seq<nat>, p: nat) {
    p < |others| && left == others[p := others[p] + 1]
  }

  ghost predicate Stranded(s1: MapState, s2: MapState, others: seq<nat>, left: seq<nat>) {
    (left == others && s2 == s1) || exists p: nat :: OneMore(others, left, p)
  }

  /** What is counted is marked allocated. */
  ghost predicate CountedTaken(s: MapState) {
    |s.refs| == |s.taken| && forall p | 0 <= p < |s.refs| && s.refs[p] != 0 :: s.taken[p]
  }

  /** Frames that are some page's own stay so, but for the page of ix. */
  ghost predicate OwnSlotsKept(s1: MapState, s2: MapState, ix: seq<nat>) {
    forall f, i, p: nat | OwnSlot(s1, f, i, p) && s1.t[f] + [i] != ix :: OwnSlot(s2, f, i, p) && s2.t[f] == s1.t[f]
  }

  lemma TakenPages(s: MapState, t: MapState, n: nat)
    requires Wf(s) && n < |s.m| && n < MAX_TRACKED && !s.taken[n] && s.refs[n] == 0 && n < |t.m| &&
        t == TakeFrame(s, n, t.m[n])
    requires CountedTaken(s)
    ensures PagesKept(s, t) && n !in s.t
    ensures forall f, i: nat, p: nat | OwnSlot(s, f, i, p) ::
              OwnSlot(t, f, i, p) && t.t[f] == s.t[f] && p < |t.taken| && t.taken[p]
  {
    TakeFrameKeeps(s, n, t.m[n]);
    ViewPages(s, t);
  }

  lemma ViewPages(s: MapState, t: MapState)
    requires SameView(s.m, s.t, t.m, t.t)
    ensures PagesKept(s, t)
  {
  }

  lemma AnonymousKept(s: MapState, t: MapState, s2: MapState, root: nat, r: Region, va: nat, n: nat, others: seq<nat>)
    requires Wf(s) && n < |s.m| && n < MAX_TRACKED && !s.taken[n] && s.refs[n] == 0 && n < |t.m| &&
        t == TakeFrame(s, n, t.m[n])
    requires CountedTaken(s) && Counted(t, others) && IsRoot(s.t, root)
    requires Remapped(t, s2, root, va, RegionWord(r, n))
    ensures Countable(t, root, va) ==> OwnSlotsKept(s, s2, Indexes(va))
    ensures Translate(s.m, root, 0, Indexes(va)) == None ==> PagesKept(s, s2)
  {
    hide Wf, Remapped, Translate, Slots, PagesKept;
    TakenPages(s, t, n);
    if Countable(t, root, va) {
      forall f, i, p: nat | OwnSlot(s, f, i, p) && s.t[f] + [i] != Indexes(va)
        ensures OwnSlot(s2, f, i, p) && s2.t[f] == s.t[f]
      {
        OwnSlotAfterMap(t, s2, root, va, RegionWord(r, n), others, f, i, p);
      }
    }
    if Translate(s.m, root, 0, Indexes(va)) == None {
      SameWalk(s, t, n, root, Indexes(va));
      MapKeepsPages(t, s2, root, va, RegionWord(r, n));
      PagesKeptTransitive(s, t, s2);
    }
  }

  lemma SectionKept(s: MapState, t: MapState, s2: MapState, root: nat, r: Region, va: nat, p: nat)
    requires Remapped(t, s2, root, va, RegionWord(r, p)) && t.m == s.m && t.t == s.t
    ensures Translate(s.m, root, 0, Indexes(va)) == None ==> PagesKept(s, s2)
  {
    if Translate(s.m, root, 0, Indexes(va)) == None {
      MapKeepsPages(t, s2, root, va, RegionWord(r, p));
    }
  }

  lemma AnonymousFaulted(s: MapState, t: MapState, s2: MapState, root: nat, r: Region, va: nat, n: nat,
      others: seq<nat>)
    requires Remapped(t, s2, root, va, RegionWord(r, n))
    requires n < MAX_TRACKED && n < |t.m| && n < |t.taken| && n < |others|
    requires Counted(t, others) && others[n] == 1 && t.taken[n] && n !in t.t && Slots(t, n) == {}
    requires IsEmptyTable(t.m[n]) && SameView(s.m, s.t, t.m, t.t) && WalksKept(s.m, s.t, t.m) && IsRoot(s.t, root)
    ensures FaultedIn(s2, root, r, va, n) && OthersAsBefore(s, s2, root, Indexes(va))
    ensures Countable(t, root, va) ==> OwnPage(s2, root, r, va, n)
  {
    if Countable(t, root, va) {
      OwnFrameMapped(t, s2, root, va, RegionWord(r, n), others);
      MapAccount(t, s2, root, va, RegionWord(r, n), others);
    }
    MapEffect(t, s2, root, va, RegionWord(r, n));
    MappedThroughView(s, t, s2, root, Indexes(va), RegionWord(r, n));
  }

  lemma MappedThroughView(s: MapState, t: MapState, s2: MapState, root: nat, ix: seq<nat>, w: Word)
    requires IsIndexes(ix) && SameView(s.m, s.t, t.m, t.t) && MappedAs(t.m, t.t, s2.m, root, ix, w) && TablesKept(t, s2)
    requires WalksKept(s.m, s.t, t.m) && IsRoot(s.t, root) && AliasesFollow(t.m, t.t, s2.m, root, ix)
    ensures OthersAsBefore(s, s2, root, ix)
  {
    forall g, jx | g in s.t && IsIndexes(jx) && jx != ix && |s.t[g]| <= 3 && jx[..|s.t[g]|] == s.t[g]
      ensures Translate(s2.m, g, |s.t[g]|, jx) == Translate(s.m, g, |s.t[g]|, jx)
    {
      assert t.t[g] == s.t[g];
      assert Translate(t.m, g, |s.t[g]|, jx) == Translate(s.m, g, |s.t[g]|, jx);
    }
    forall g | g in s.t && |s.t[g]| <= 3 && ix[..|s.t[g]|] == s.t[g]
      ensures Translate(s2.m, g, |s.t[g]|, ix) == Translate(s.m, g, |s.t[g]|, ix) ||
              Translate(s2.m, g, |s.t[g]|, ix) == Translate(s2.m, root, 0, ix)
    {
      assert t.t[g] == s.t[g];
      assert Translate(t.m, g, |s.t[g]|, ix) == Translate(s.m, g, |s.t[g]|, ix);
    }
    forall g, k | IsRoot(s.t, g) && 1 <= k <= 3 && ShareTable(s.m, g, root, ix, k)
      ensures Translate(s2.m, g, 0, ix) == Translate(s2.m, root, 0, ix)
    {
      assert IsRoot(t.t, g) && ShareTable(t.m, g, root, ix, k);
    }
  }

  /** A frame a user-window page is mapped to is counted. */
  lemma NamedCounted(s: MapState, root: nat, va: nat, entry: Word, others: seq<nat>)
    requires Wf(s) && Counted(s, others) && IsRoot(s.t, root) && UserPage(va)
    requires SlotIs(s.m, root, Indexes(va), entry) && entry.present
    ensures entry.pfn < MAX_TRACKED ==> s.refs[entry.pfn] > 0
  {
    var ix := Indexes(va);
    TableAtTyped(s.m, s.t, root, ix, 3);
    assert (TableAt(s.m, root, ix, 3).value, ix[3]) in Slots(s, entry.pfn);
  }
}
