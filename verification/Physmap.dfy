/** The kernel's direct map of physical memory. */
module Physmap {
  import opened Machine
  import Arithmetic
  import opened PageFormat
  import opened PageTables
  import opened Ownership
  import opened AccessRights
  import opened PageAllocator
  import opened PageMapping
  import opened Status

  const PHYSMAP_BASE: nat := 0xFFFF_9000_0000_0000
  const GIGA: nat := 0x4000_0000
  const MEGA2: nat := 0x20_0000
  const ROOT_SLOT: nat := 288

  /** Tracked memory rounded up to 2 MiB. */
  function MappedBytes(tracked: nat): (n: nat)
    ensures n % MEGA2 == 0 && tracked * PAGE_SIZE <= n < tracked * PAGE_SIZE + MEGA2
    ensures tracked <= MAX_TRACKED ==> n <= GIGA
  {
    (tracked * PAGE_SIZE + MEGA2 - 1) / MEGA2 * MEGA2
  }

  /** The table slots of an address of the direct map. */
  lemma PhysmapIndexes(pa: nat)
    requires pa < GIGA
    ensures Indexes(PHYSMAP_BASE + pa) == [ROOT_SLOT, 0, pa / MEGA2, pa / PAGE_SIZE % 512]
  {
    var (low, page) := (pa / PAGE_SIZE, (PHYSMAP_BASE + pa) / PAGE_SIZE);
    assert page == PHYSMAP_BASE / PAGE_SIZE + low;
    assert low / 512 == pa / MEGA2;
    assert page / 512 == PHYSMAP_BASE / MEGA2 + low / 512;
    assert page / 512 / 512 == PHYSMAP_BASE / GIGA;
  }

  /** The 2 MiB entry for the j-th 2 MiB of memory. */
  function DirectWord(j: nat): (r: Word) {
    PRESENT.(writable := true, large := true, noExecute := true, pfn := j * 512)
  }

  const LINK := PRESENT.(writable := true)

  /** The direct map walks to the address itself, and what may be done there is read and write, by the kernel. */
  ghost predicate DirectMap(m: Memory, root: nat, bytes: nat) {
    forall pa: nat | pa < bytes :: var ix := Indexes(PHYSMAP_BASE + pa);
      && Translate(m, root, 0, ix) == Some(Leaf(pa / PAGE_SIZE, true, false, true))
      && forall a: Access :: Allowed(m, root, 0, ix, a) <==> !a.user && !a.execute
  }

  /** The tables of the direct map, its first n entries filled. */
  ghost predicate DirectUpTo(m: Memory, root: nat, pdpt: nat, pd: nat, n: nat) {
    && root < |m| && pdpt < |m| && pd < |m| && n <= 512
    && m[root][ROOT_SLOT] == LINK.(pfn := pdpt) && m[pdpt][0] == LINK.(pfn := pd)
    && forall j | 0 <= j < n :: m[pd][j] == DirectWord(j)
  }

  lemma DirectWalk(m: Memory, root: nat, pdpt: nat, pd: nat, n: nat)
    requires DirectUpTo(m, root, pdpt, pd, n)
    ensures DirectMap(m, root, n * MEGA2)
  {
    forall pa: nat | pa < n * MEGA2
      ensures var ix := Indexes(PHYSMAP_BASE + pa);
        && Translate(m, root, 0, ix) == Some(Leaf(pa / PAGE_SIZE, true, false, true))
        && forall a: Access :: Allowed(m, root, 0, ix, a) <==> !a.user && !a.execute
    {
      PhysmapIndexes(pa);
      var ix := Indexes(PHYSMAP_BASE + pa);
      assert m[pd][ix[2]] == DirectWord(pa / MEGA2);
      assert pa / MEGA2 * 512 + pa / PAGE_SIZE % 512 == pa / PAGE_SIZE;
      assert Translate(m, pd, 2, ix) == Some(Leaf(pa / PAGE_SIZE, true, false, true));
      assert Translate(m, pdpt, 1, ix) == Translate(m, pd, 2, ix);
      forall a: Access ensures Allowed(m, root, 0, ix, a) <==> !a.user && !a.execute {
        assert Allowed(m, pd, 2, ix, a) <==> !a.user && !a.execute;
        assert Allowed(m, pdpt, 1, ix, a) <==> !a.user && !a.execute;
      }
    }
  }

  /** A slot of the root is given a new empty table, whatever it held. */
  lemma RootSlotWf(s: MapState, root: nat, n: nat, content: Frame)
    requires Wf(s) && IsRoot(s.t, root) && n < |s.m| && n < MAX_TRACKED && n !in s.t && !s.taken[n] && s.refs[n] == 0
    requires IsEmptyTable(content)
    ensures var s2 := AttachTable(s, root, ROOT_SLOT, n, content, LINK.(pfn := n));
            Wf(s2) && (WritableLinks(s) ==> WritableLinks(s2))
  {
    var s2 := AttachTable(s, root, ROOT_SLOT, n, content, LINK.(pfn := n));
    forall f, i | f in s2.t && |s2.t[f]| < 3 && 0 <= i < 512
      ensures LargeAllowed(s2.t[f], s2.m[f][i])
      ensures IsLink(s2.m[f][i]) ==> s2.m[f][i].pfn in s2.t && s2.t[s2.m[f][i].pfn] == s2.t[f] + [i]
    {
      if f != n && !(f == root && i == ROOT_SLOT) {
        assert s2.m[f][i] == s.m[f][i];
      }
    }
  }

  lemma RootSlotCounted(s: MapState, root: nat, n: nat, content: Frame, others: seq<nat>)
    requires Wf(s) && IsRoot(s.t, root) && n < |s.m| && n < MAX_TRACKED && n !in s.t && !s.taken[n] && s.refs[n] == 0
    requires IsEmptyTable(content) && Counted(s, others)
    requires Wf(AttachTable(s, root, ROOT_SLOT, n, content, LINK.(pfn := n)))
    ensures Counted(AttachTable(s, root, ROOT_SLOT, n, content, LINK.(pfn := n)), others)
  {
    var s2 := AttachTable(s, root, ROOT_SLOT, n, content, LINK.(pfn := n));
    forall p | 0 <= p < MAX_TRACKED ensures s2.refs[p] == |Slots(s2, p)| + (if p in s2.made then 1 else 0) + others[p] {
      assert Slots(s2, p) == Slots(s, p);
    }
  }

  lemma DirectEntryCounted(s: MapState, pd: nat, j: nat, others: seq<nat>)
    requires Wf(s) && pd in s.t && s.t[pd] == [ROOT_SLOT, 0] && j < 512 && Counted(s, others)
    requires Wf(s.(m := s.m[pd := s.m[pd][j := DirectWord(j)]]))
    ensures Counted(s.(m := s.m[pd := s.m[pd][j := DirectWord(j)]]), others)
  {
    var s2 := s.(m := s.m[pd := s.m[pd][j := DirectWord(j)]]);
    forall p | 0 <= p < MAX_TRACKED ensures s2.refs[p] == |Slots(s2, p)| + (if p in s2.made then 1 else 0) + others[p] {
      assert Slots(s2, p) == Slots(s, p);
    }
  }

  /** A 2 MiB entry in a table of the kernel's half. */
  lemma DirectEntryWf(s: MapState, pd: nat, j: nat)
    requires Wf(s) && pd in s.t && s.t[pd] == [ROOT_SLOT, 0] && j < 512
    ensures var s2 := s.(m := s.m[pd := s.m[pd][j := DirectWord(j)]]);
            Wf(s2) && (WritableLinks(s) ==> WritableLinks(s2))
  {
    var s2 := s.(m := s.m[pd := s.m[pd][j := DirectWord(j)]]);
    forall f, i | f in s2.t && |s2.t[f]| < 3 && 0 <= i < 512
      ensures LargeAllowed(s2.t[f], s2.m[f][i])
      ensures IsLink(s2.m[f][i]) ==> s2.m[f][i].pfn in s2.t && s2.t[s2.m[f][i].pfn] == s2.t[f] + [i]
    {
      if !(f == pd && i == j) {
        assert s2.m[f][i] == s.m[f][i];
      }
    }
  }

  lemma TableShape(s: MapState, f: nat)
    requires Wf(s) && f in s.t
    ensures f < |s.m| && |s.refs| == |s.taken| == MAX_TRACKED && forall g | g in s.made :: g in s.t
  {
  }

  lemma AllInRange(s: MapState)
    requires Wf(s)
    ensures forall g | g in s.t :: g < |s.m|
  {
  }

  /** What hanging table n below slot i of f leaves as it was. */
  lemma AttachedShape(s: MapState, f: nat, i: nat, n: nat, content: Frame, w: Word)
    requires f in s.t && f < |s.m| && n < |s.m| && n < |s.refs| && n < |s.taken| && i < 512 && n !in s.t
    requires forall g | g in s.t :: g < |s.m|
    ensures var s2 := AttachTable(s, f, i, n, content, w);
      && |s2.m| == |s.m| && s2.m[f][i] == w && s2.m[n] == content
      && n in s2.t && s2.t[n] == s.t[f] + [i] && DiffersAt(s.m, s2.m, s.t, f, i)
      && (forall g | g in s.t :: g in s2.t && s2.t[g] == s.t[g])
      && (forall g | g in s.t && g != f :: s2.m[g] == s.m[g])
  {
  }

  lemma TableTaken(s: MapState, f: nat, i: nat, n: nat, content: Frame, w: Word)
    requires f in s.t && f < |s.m| && n < |s.m| && n < |s.refs| && n < |s.taken| && i < 512 && n !in s.t && !s.taken[n]
    requires forall g | g in s.t :: g < |s.m|
    requires forall g | g in s.made :: g in s.t
    ensures var s2 := AttachTable(s, f, i, n, content, w); OnlyTables(s, s2) && |s2.made| <= |s.made| + 1
  {
  }

  lemma OnlyTablesReflexive(s: MapState)
    ensures OnlyTables(s, s)
  {
  }

  /** Memory is no part of it. */
  lemma OnlyTablesSame(s: MapState, t: MapState, t2: MapState)
    requires OnlyTables(s, t) && t2 == t.(m := t2.m)
    ensures OnlyTables(s, t2)
  {
  }

  lemma DiffersStill(m1: Memory, m2: Memory, m3: Memory, t: Tables, root: nat)
    requires (forall g | g in t :: g < |m1|) && DiffersAt(m1, m2, t, root, ROOT_SLOT)
    requires |m3| == |m2| && forall g | g in t :: m3[g] == m2[g]
    ensures DiffersAt(m1, m3, t, root, ROOT_SLOT)
  {
  }

  lemma DiffersNot(m: Memory, t: Tables, root: nat)
    requires forall g | g in t :: g < |m|
    ensures DiffersAt(m, m, t, root, ROOT_SLOT)
  {
  }

  /** The inner loop: one gigabyte's directory. */
  method FillDirectory(mmu: PageMap, pd: nat, offset: nat, mapped: nat, ghost others: seq<nat>)
    requires mmu.Valid() && Counted(mmu.st, others) && pd in mmu.st.t && mmu.st.t[pd] == [ROOT_SLOT, 0]
    requires offset == 0 && mapped % MEGA2 == 0 && mapped <= GIGA
    modifies mmu
    ensures mmu.Valid() && Counted(mmu.st, others) && mmu.st == old(mmu.st).(m := mmu.st.m) &&
              |mmu.st.m| == |old(mmu.st).m|
    ensures forall g | 0 <= g < |mmu.st.m| && g != pd :: mmu.st.m[g] == old(mmu.st).m[g]
    ensures forall j | 0 <= j < mapped / MEGA2 :: mmu.st.m[pd][j] == DirectWord(j)
    ensures WritableLinks(old(mmu.st)) ==> WritableLinks(mmu.st)
  {
    hide Wf, Indexes, Counted, WritableLinks;
    TableShape(mmu.st, pd);
    var inner := 0;
    while inner < GIGA && offset + inner < mapped
      invariant inner % MEGA2 == 0 && inner <= mapped
      invariant mmu.Valid() && Counted(mmu.st, others) && mmu.st == old(mmu.st).(m := mmu.st.m) &&
          |mmu.st.m| == |old(mmu.st).m|
      invariant forall g | 0 <= g < |mmu.st.m| && g != pd :: mmu.st.m[g] == old(mmu.st).m[g]
      invariant forall j | 0 <= j < inner / MEGA2 :: mmu.st.m[pd][j] == DirectWord(j)
      invariant WritableLinks(old(mmu.st)) ==> WritableLinks(mmu.st)
    {
      var l2 := Indexes(PHYSMAP_BASE + offset + inner)[2];
      PhysmapIndexes(inner);
      DirectEntryWf(mmu.st, pd, l2);
      DirectEntryCounted(mmu.st, pd, l2, others);
      var word := PRESENT.(writable := true, large := true, noExecute := true, pfn := (offset + inner) / PAGE_SIZE);
      assert word == DirectWord(l2);
      mmu.frames := mmu.frames[pd := mmu.frames[pd][l2 := word]];
      mmu.st := mmu.st.(m := mmu.frames);
      inner := inner + MEGA2;
    }
  }

  /** One round of the outer loop: the directory is made and filled. */
  method MapGigabyte(mmu: PageMap, pdpt: nat, offset: nat, mapped: nat, ghost others: seq<nat>)
    returns (status: KStatus, pd: nat)
    requires mmu.Valid() && Counted(mmu.st, others) && pdpt in mmu.st.t && mmu.st.t[pdpt] == [ROOT_SLOT] &&
        !mmu.st.m[pdpt][0].present
    requires offset == 0 && mapped % MEGA2 == 0 && mapped <= GIGA
    modifies mmu, mmu.pages, mmu.pages.bitmap, mmu.pages.refs
    ensures mmu.Valid() && Counted(mmu.st, others) && |mmu.st.m| == |old(mmu.st).m|
    ensures forall g | g in old(mmu.st).t :: g in mmu.st.t && mmu.st.t[g] == old(mmu.st).t[g]
    ensures forall g | g in old(mmu.st).t && g != pdpt :: mmu.st.m[g] == old(mmu.st).m[g]
    ensures status != Success ==> status == InitFailed && mmu.Exhausted()
    ensures status == Success ==> pd < |mmu.st.m| && pdpt < |mmu.st.m| && mmu.st.m[pdpt][0] == LINK.(pfn := pd)
    ensures status == Success ==> forall j | 0 <= j < mapped / MEGA2 :: mmu.st.m[pd][j] == DirectWord(j)
    ensures WritableLinks(old(mmu.st)) ==> WritableLinks(mmu.st)
    ensures OnlyTables(old(mmu.st), mmu.st) && (status != Success ==> mmu.st == old(mmu.st))
  {
    hide Wf, Counted, Grown, SameView, OnlyTables, Indexes, DirectWord, AttachTable, WritableLinks, Tree;
    ghost var s := mmu.st;
    TableShape(s, pdpt);
    AllInRange(s);
    PhysmapIndexes(0);
    var l3 := Indexes(PHYSMAP_BASE + offset)[1];
    status, pd := mmu.AllocTable();
    OnlyTablesReflexive(s);
    if status != Success {
      return;
    }
    var table: Frame := seq(512, _ => ZERO);
    EmptyTableGrown(s, pdpt, l3, pd, table, LINK.(pfn := pd));
    GrownCounted(s, AttachTable(s, pdpt, l3, pd, table, LINK.(pfn := pd)), others);
    AttachedShape(s, pdpt, l3, pd, table, LINK.(pfn := pd));
    mmu.Attach(s, pdpt, l3, pd, table, LINK.(pfn := pd));
    FillDirectory(mmu, pd, offset, mapped, others);
    OnlyTablesSame(s, AttachTable(s, pdpt, l3, pd, table, LINK.(pfn := pd)), mmu.st);
  }

  /** MmpBuildKernelPhysmap.  Tracked memory is at most one gigabyte, so the outer loop runs at most once. */
  method BuildPhysmap(mmu: PageMap, root: nat, ghost others: seq<nat>) returns (status: KStatus)
    requires mmu.Valid() && Counted(mmu.st, others) && IsRoot(mmu.st.t, root)
    modifies mmu, mmu.pages, mmu.pages.bitmap, mmu.pages.refs
    ensures mmu.Valid() && Counted(mmu.st, others) && IsRoot(mmu.st.t, root)
    ensures DiffersAt(old(mmu.st).m, mmu.st.m, old(mmu.st).t, root, ROOT_SLOT)
    ensures status != Success ==> status == InitFailed && mmu.Exhausted()
    ensures status == Success ==> DirectMap(mmu.st.m, root, MappedBytes(mmu.pages.tracked))
    ensures status == Success ==> var w := mmu.st.m[root][ROOT_SLOT]; w.present && w.writable && !w.user && !w.noExecute
    ensures WritableLinks(old(mmu.st)) ==> WritableLinks(mmu.st)
    ensures OnlyTables(old(mmu.st), mmu.st)
    ensures status != Success ==> |mmu.st.made| <= |old(mmu.st).made| + 1
  {
    hide OnlyTables, Wf, Counted, DirectMap, DirectWord, AttachTable, DiffersAt, Tree, WritableLinks, NoneFree;
    ghost var s := mmu.st;
    TableShape(s, root);
    AllInRange(s);
    DiffersNot(s.m, s.t, root);
    var mapped := MappedBytes(mmu.pages.tracked);
    var pdpt;
    status, pdpt := mmu.AllocTable();
    OnlyTablesReflexive(s);
    if status != Success {
      return;
    }
    var table: Frame := seq(512, _ => ZERO);
    RootSlotWf(s, root, pdpt, table);
    RootSlotCounted(s, root, pdpt, table, others);
    AttachedShape(s, root, ROOT_SLOT, pdpt, table, LINK.(pfn := pdpt));
    mmu.Attach(s, root, ROOT_SLOT, pdpt, table, LINK.(pfn := pdpt));
    TableTaken(s, root, ROOT_SLOT, pdpt, table, LINK.(pfn := pdpt));
    ghost var pd := 0;
    var offset := 0;
    while offset < mapped
      invariant offset == 0 || offset == GIGA
      invariant mmu.Valid() && Counted(mmu.st, others) && IsRoot(mmu.st.t, root) && pdpt in mmu.st.t &&
          mmu.st.t[pdpt] == [ROOT_SLOT]
      invariant pdpt !in s.t && forall g | g in s.t :: g in mmu.st.t
      invariant DiffersAt(s.m, mmu.st.m, s.t, root, ROOT_SLOT) && (WritableLinks(s) ==> WritableLinks(mmu.st))
      invariant |mmu.st.m| == |s.m| && mmu.st.m[root][ROOT_SLOT] == LINK.(pfn := pdpt)
      invariant offset == 0 ==> !mmu.st.m[pdpt][0].present
      invariant OnlyTables(s, mmu.st) && (offset == 0 ==> |mmu.st.made| <= |s.made| + 1)
      invariant offset > 0 ==> DirectUpTo(mmu.st.m, root, pdpt, pd, mapped / MEGA2)
    {
      ghost var t := mmu.st;
      status, pd := MapGigabyte(mmu, pdpt, offset, mapped, others);
      DiffersStill(s.m, t.m, mmu.st.m, s.t, root);
      OnlyTablesTransitive(s, t, mmu.st);
      if status != Success {
        return;
      }
      offset := offset + GIGA;
    }
    if mapped > 0 { DirectWalk(mmu.st.m, root, pdpt, pd, mapped / MEGA2); }
    status := Success;
  }

  /** Pages outside the root slot of the direct map are where they were. */
  lemma OtherPagesKept(m1: Memory, m2: Memory, t: Tables, root: nat, ix: seq<nat>)
    requires Tree(m1, t) && IsRoot(t, root) && DiffersAt(m1, m2, t, root, ROOT_SLOT) && IsIndexes(ix) &&
        ix[0] != ROOT_SLOT
    ensures Translate(m2, root, 0, ix) == Translate(m1, root, 0, ix)
  {
    assert ix[..1][0] != ROOT_SLOT;
    LocalChange(m1, m2, t, root, ROOT_SLOT, root, ix);
  }
}
