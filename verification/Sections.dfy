/** The section pool and its share of the frame account. */
module Sections {
  import opened PageFormat
  import opened PageTables
  import opened Ownership
  import opened Status

  const MAX_SECTIONS: nat := 64
  const MAX_SECTION_PAGES: nat := 256

  /** MM_SECTION_OBJECT with its in-use byte.  Pages are frame numbers, 0 for none. */
  datatype SectionSlot = SectionSlot(inUse: bool, header: Option<nat>, pageCount: nat, pages: seq<nat>)

  const FREE_SLOT := SectionSlot(false, None, 0, seq(MAX_SECTION_PAGES, _ => 0))

  ghost predicate PoolShape(pool: seq<SectionSlot>) {
    && |pool| == MAX_SECTIONS
    && forall k | 0 <= k < MAX_SECTIONS ::
        |pool[k].pages| == MAX_SECTION_PAGES && pool[k].pageCount <= MAX_SECTION_PAGES
  }

  /** Slot k lists frame p as page i of a live section. */
  predicate Lists(pool: seq<SectionSlot>, k: nat, i: nat, p: nat) {
    && k < |pool| && pool[k].inUse && i < pool[k].pageCount && i < |pool[k].pages|
    && pool[k].pages[i] == p && p != 0
  }

  ghost predicate Listed(pool: seq<SectionSlot>, p: nat) {
    exists k: nat, i: nat :: Lists(pool, k, i, p)
  }

  /** Some region maps the section of the slot. */
  predicate IsMapped(slot: SectionSlot, mapped: set<nat>) {
    slot.header.Some? && slot.header.value in mapped
  }

  /** Live sections have distinct headers; no frame is listed twice; every listed frame has
      a reference that belongs to its section, and while no region maps the section that
      reference is the only one and no slot names the frame. */
  ghost predicate PoolOk(pool: seq<SectionSlot>, mapped: set<nat>, s: MapState, others: seq<nat>)
    requires Tree(s.m, s.t)
  {
    && PoolShape(pool) && |others| == MAX_TRACKED
    && (forall k, l | 0 <= k < MAX_SECTIONS && 0 <= l < MAX_SECTIONS && pool[k].inUse && pool[l].inUse
                      && pool[k].header.Some? && pool[k].header == pool[l].header :: k == l)
    && (forall k: nat, i: nat, p: nat | Lists(pool, k, i, p) ::
          p < MAX_TRACKED && others[p] >= 1
          && (!IsMapped(pool[k], mapped) ==> others[p] == 1 && p !in s.made && Slots(s, p) == {}))
    && NothingListedTwice(pool)
  }

  ghost predicate NothingListedTwice(pool: seq<SectionSlot>) {
    forall k: nat, i: nat, l: nat, j: nat, p: nat | Lists(pool, k, i, p) && Lists(pool, l, j, p) :: k == l && i == j
  }

  function NobodyElse(): (r: seq<nat>) { seq(MAX_TRACKED, _ => 0) }

  /** No frame is held but by tables, slots and sections: nothing has leaked. */
  ghost predicate Clean(pool: seq<SectionSlot>, others: seq<nat>) {
    |others| == MAX_TRACKED && forall p | 0 <= p < MAX_TRACKED :: others[p] == if Listed(pool, p) then 1 else 0
  }

  /** A change in which only frame n may gain slots or other references, or be made a table
      when it was free, keeps the pool, if n belongs to no unmapped section. */
  lemma PoolKept(pool: seq<SectionSlot>, mapped: set<nat>, s1: MapState, others1: seq<nat>, s2: MapState,
      others2: seq<nat>, n: nat)
    requires Wf(s1) && Wf(s2) && Counted(s1, others1) && PoolOk(pool, mapped, s1, others1) && |others2| == MAX_TRACKED
    requires forall p | 0 <= p < MAX_TRACKED && p != n :: others2[p] == others1[p]
    requires n < MAX_TRACKED ==> others2[n] >= (if Listed(pool, n) then 1 else 0)
    requires OnlyInMapped(pool, mapped, n)
    requires SlotsGainedBy(s1, s2, n)
    requires NewTablesUncounted(s1, s2)
    ensures PoolOk(pool, mapped, s2, others2)
  {
    forall k: nat, i: nat, p: nat | Lists(pool, k, i, p)
      ensures p < MAX_TRACKED && others2[p] >= 1
      ensures !IsMapped(pool[k], mapped) ==> others2[p] == 1 && p !in s2.made && Slots(s2, p) == {}
    {
      assert Listed(pool, p);
      assert s1.refs[p] >= |Slots(s1, p)| + others1[p];
      if !IsMapped(pool[k], mapped) {
        assert p != n;
        assert Slots(s2, p) <= Slots(s1, p);
      }
    }
  }

  /** Mapped sections are live and have all their pages. */
  ghost predicate MappedLive(pool: seq<SectionSlot>, mapped: set<nat>) {
    && (forall h | h in mapped :: exists k: nat :: LiveAs(pool, k, h))
    && (forall k: nat, i: nat | k < |pool| && pool[k].inUse && IsMapped(pool[k], mapped)
                               && i < pool[k].pageCount && i < |pool[k].pages| :: pool[k].pages[i] != 0)
  }

  predicate LiveAs(pool: seq<SectionSlot>, k: nat, h: nat) {
    k < |pool| && pool[k].inUse && pool[k].header == Some(h)
  }

  /** The whole account is in order. */
  ghost predicate BooksOk(s: MapState, pool: seq<SectionSlot>, others: seq<nat>, mapped: set<nat>) {
    Wf(s) && Counted(s, others) && PoolOk(pool, mapped, s, others) && MappedLive(pool, mapped)
  }

  /** A header is that of one live section at most. */
  lemma LiveOnce(s: MapState, pool: seq<SectionSlot>, others: seq<nat>, mapped: set<nat>, h: nat, k: nat)
    requires BooksOk(s, pool, others, mapped) && LiveAs(pool, k, h)
    ensures forall l: nat | LiveAs(pool, l, h) :: l == k
  {
  }

  lemma BooksShape(s: MapState, pool: seq<SectionSlot>, others: seq<nat>, mapped: set<nat>)
    requires BooksOk(s, pool, others, mapped)
    ensures PoolShape(pool) && |others| == MAX_TRACKED && Wf(s) && Counted(s, others)
  {
  }

  /** The references of frame p that belong to no section. */
  ghost function Spare(pool: seq<SectionSlot>, others: seq<nat>, p: nat): (r: int)
    requires p < |others|
  {
    if Listed(pool, p) then others[p] as int - 1 else others[p] as int
  }

  /** Creating tables disturbs nothing. */
  lemma BooksGrown(s1: MapState, s2: MapState, pool: seq<SectionSlot>, others: seq<nat>, mapped: set<nat>)
    requires BooksOk(s1, pool, others, mapped) && Wf(s2) && Grown(s1, s2)
    ensures BooksOk(s2, pool, others, mapped)
  {
    GrownCounted(s1, s2, others);
    GrownGainsNothing(s1, s2);
    PoolKept(pool, mapped, s1, others, s2, others, MAX_TRACKED);
  }

  /** A frame the allocator hands out was named by no user-window slot, listed by no
      section, held by nobody and no table; now the caller holds it. */
  lemma BooksTaken(s: MapState, n: nat, content: Frame, pool: seq<SectionSlot>, others: seq<nat>, mapped: set<nat>)
    requires BooksOk(s, pool, others, mapped) && n < |s.m| && n < MAX_TRACKED && !s.taken[n] && s.refs[n] == 0
    ensures n !in s.t && Slots(s, n) == {} && !Listed(pool, n) && others[n] == 0
    ensures BooksOk(TakeFrame(s, n, content), pool, others[n := 1], mapped)
    ensures Spare(pool, others[n := 1], n) == 1
    ensures SlotsGainedBy(s, TakeFrame(s, n, content), MAX_TRACKED)
    ensures SameView(s.m, s.t, TakeFrame(s, n, content).m, s.t)
    ensures WritableLinks(s) ==> WritableLinks(TakeFrame(s, n, content))
  {
    TakeFrameCounted(s, n, content, others);
    TakeFrameKeeps(s, n, content);
    NotListed(pool, others, mapped, s, n);
    PoolKept(pool, mapped, s, others, TakeFrame(s, n, content), others[n := 1], n);
  }

  lemma NotListed(pool: seq<SectionSlot>, others: seq<nat>, mapped: set<nat>, s: MapState, n: nat)
    requires Tree(s.m, s.t) && PoolOk(pool, mapped, s, others) && n < MAX_TRACKED && others[n] == 0
    ensures !Listed(pool, n) && forall k: nat, i: nat :: !Lists(pool, k, i, n)
  {
  }

  /** Every section that lists the frame is mapped by some region. */
  ghost predicate OnlyInMapped(pool: seq<SectionSlot>, mapped: set<nat>, p: nat) {
    forall k: nat, i: nat | Lists(pool, k, i, p) :: IsMapped(pool[k], mapped)
  }

  /** Mapping a frame with a spare reference: a slot of the user window takes it over. */
  lemma BooksMapped(s1: MapState, s2: MapState, root: nat, va: nat, w: Word,
                    pool: seq<SectionSlot>, others: seq<nat>, mapped: set<nat>)
    requires BooksOk(s1, pool, others, mapped) && Remapped(s1, s2, root, va, w) && Countable(s1, root, va)
    requires w.present && w.pfn < |others| && Spare(pool, others, w.pfn) > 0 && OnlyInMapped(pool, mapped, w.pfn)
    ensures BooksOk(s2, pool, AfterMap(others, va, w), mapped)
    ensures SlotsGainedBy(s1, s2, w.pfn)
    ensures WritableLinks(s1) ==> WritableLinks(s2)
  {
    MapAccount(s1, s2, root, va, w, others);
    PoolHandedOver(s1, s2, va, w, pool, others, mapped);
  }

  lemma PoolHandedOver(s1: MapState, s2: MapState, va: nat, w: Word, pool: seq<SectionSlot>, others: seq<nat>,
      mapped: set<nat>)
    requires BooksOk(s1, pool, others, mapped) && Wf(s2) && SlotsGainedBy(s1, s2, w.pfn) && NewTablesUncounted(s1, s2)
    requires w.present && w.pfn < |others| && Spare(pool, others, w.pfn) > 0 && OnlyInMapped(pool, mapped, w.pfn)
    ensures PoolOk(pool, mapped, s2, AfterMap(others, va, w))
  {
    PoolKept(pool, mapped, s1, others, s2, AfterMap(others, va, w), w.pfn);
  }

  /** One more reference to a frame of a mapped section. */
  lemma BooksRetained(s: MapState, p: nat, pool: seq<SectionSlot>, others: seq<nat>, mapped: set<nat>)
    requires BooksOk(s, pool, others, mapped) && p < MAX_TRACKED && s.refs[p] > 0
    requires OnlyInMapped(pool, mapped, p)
    ensures var s2 := s.(refs := s.refs[p := s.refs[p] + 1]);
            && BooksOk(s2, pool, others[p := others[p] + 1], mapped)
            && SlotsGainedBy(s, s2, MAX_TRACKED)
            && SameView(s.m, s.t, s2.m, s2.t)
            && (WritableLinks(s) ==> WritableLinks(s2))
  {
    var s2 := s.(refs := s.refs[p := s.refs[p] + 1]);
    assert forall q: nat :: Slots(s2, q) == Slots(s, q);
    assert Wf(s2);
    assert Counted(s2, others[p := others[p] + 1]);
    PoolKept(pool, mapped, s, others, s2, others[p := others[p] + 1], p);
  }

  /** Reprotecting a leaf within its frame. */
  lemma BooksReprotected(s1: MapState, s2: MapState, pool: seq<SectionSlot>, others: seq<nat>, mapped: set<nat>)
    requires BooksOk(s1, pool, others, mapped) && Wf(s2) && SameAccount(s1, s2)
    ensures BooksOk(s2, pool, others, mapped)
  {
    SameAccountCounted(s1, s2, others);
    PoolKept(pool, mapped, s1, others, s2, others, MAX_TRACKED);
  }

  /** Unmapping a page keeps the books exactly if the page is in the user window, or its frame is not counted. */
  lemma BooksUnmapped(s1: MapState, s2: MapState, root: nat, va: nat,
                      pool: seq<SectionSlot>, others: seq<nat>, mapped: set<nat>)
    requires BooksOk(s1, pool, others, mapped) && Rewritten(s1, s2, root, Indexes(va), ZERO)
    requires LeafEntry(s1.m, root, Indexes(va)).Some?
    ensures BooksOk(s2, pool, others, mapped) <==>
            UserPage(va) || NamesNothing(s1, LeafEntry(s1.m, root, Indexes(va)).value)
  {
    if UserPage(va) {
      RewriteAccount(s1, s2, root, va, ZERO, others);
      PoolKept(pool, mapped, s1, others, s2, others, 0);
    } else {
      CountedUnmapped(s1, s2, root, va, others);
      if Wf(s2) && Counted(s2, others) { PoolSame(pool, mapped, s1, s2, others); }
    }
  }

  lemma CountedUnmapped(s1: MapState, s2: MapState, root: nat, va: nat, others: seq<nat>)
    requires Rewritten(s1, s2, root, Indexes(va), ZERO) && Counted(s1, others) && !UserPage(va)
    requires LeafEntry(s1.m, root, Indexes(va)).Some?
    ensures Tree(s2.m, s2.t) && SlotsGainedBy(s1, s2, MAX_TRACKED) && s2.made == s1.made
    ensures Wf(s2) && Counted(s2, others) <==> NamesNothing(s1, LeafEntry(s1.m, root, Indexes(va)).value)
  {
    hide Slots, Indexes, Counted;
    var f := TableAt(s1.m, root, Indexes(va), 3).value;
    TableAtTyped(s1.m, s1.t, root, Indexes(va), 3);
    LeafWritten(s1.m, s1.t, root, Indexes(va), f, ZERO);
    OutsideWrite(s1, f, Indexes(va)[3], ZERO, others);
  }

  lemma PoolSame(pool: seq<SectionSlot>, mapped: set<nat>, s1: MapState, s2: MapState, others: seq<nat>)
    requires Wf(s1) && Wf(s2) && Counted(s1, others) && PoolOk(pool, mapped, s1, others)
    requires SlotsGainedBy(s1, s2, MAX_TRACKED) && s2.made == s1.made
    ensures PoolOk(pool, mapped, s2, others)
  {
    hide Wf, Counted, Slots;
    assert |others| == MAX_TRACKED;
    PoolKept(pool, mapped, s1, others, s2, others, MAX_TRACKED);
  }

  /** Reprotecting one keeps them exactly if its frame stays, or is not counted. */
  lemma BooksProtected(s1: MapState, s2: MapState, root: nat, va: nat, flags: Word,
                       pool: seq<SectionSlot>, others: seq<nat>, mapped: set<nat>)
    requires BooksOk(s1, pool, others, mapped) && Reprotected(s1, s2, root, Indexes(va), flags)
    ensures LeafEntry(s1.m, root, Indexes(va)).Some?
    ensures BooksOk(s2, pool, others, mapped) <==> FrameKept(LeafEntry(s1.m, root, Indexes(va)).value, flags, va)
  {
    hide PoolOk, Slots, Indexes, FrameKept, Counted, SlotsGainedBy;
    ProtectCounted(s1, s2, root, va, flags, others);
    if Counted(s2, others) { PoolSame(pool, mapped, s1, s2, others); }
  }

  /** Live sections share no frame, and a section shares none between its pages. */
  lemma ListedFramesDistinct(s: MapState, pool: seq<SectionSlot>, others: seq<nat>, mapped: set<nat>,
                             k: nat, i: nat, p: nat, l: nat, j: nat, q: nat)
    requires BooksOk(s, pool, others, mapped) && Lists(pool, k, i, p) && Lists(pool, l, j, q)
    ensures p == q <==> k == l && i == j
  {
  }

  /** The section in the slot has all its pages. */
  predicate Complete(slot: SectionSlot) {
    slot.pageCount > 0 && forall i | 0 <= i < slot.pageCount && i < |slot.pages| :: slot.pages[i] != 0
  }

  /** A region may map a complete live section. */
  lemma BooksMoreMapped(s: MapState, pool: seq<SectionSlot>, others: seq<nat>, mapped: set<nat>, header: nat, k: nat)
    requires BooksOk(s, pool, others, mapped) && LiveAs(pool, k, header) && Complete(pool[k])
    ensures BooksOk(s, pool, others, mapped + {header})
  {
    forall h | h in mapped + {header} ensures exists j: nat :: LiveAs(pool, j, h) {
      if h == header { assert LiveAs(pool, k, h); }
    }
  }

  predicate ListsNothing(slot: SectionSlot) {
    !slot.inUse || forall i | 0 <= i < slot.pageCount && i < |slot.pages| :: slot.pages[i] == 0
  }

  /** A slot taken into use, or given up, while it lists nothing. */
  lemma BooksSlotChanged(s: MapState, pool: seq<SectionSlot>, others: seq<nat>, mapped: set<nat>, k: nat,
      slot: SectionSlot)
    requires BooksOk(s, pool, others, mapped) && k < MAX_SECTIONS
    requires |slot.pages| == MAX_SECTION_PAGES && slot.pageCount <= MAX_SECTION_PAGES
    requires ListsNothing(pool[k]) && ListsNothing(slot)
    requires !(pool[k].inUse && IsMapped(pool[k], mapped))
    requires slot.inUse && slot.header.Some? ==> slot.header.value !in mapped && forall j: nat | j != k ::
        !LiveAs(pool, j, slot.header.value)
    ensures BooksOk(s, pool[k := slot], others, mapped)
    ensures Clean(pool, others) ==> Clean(pool[k := slot], others)
  {
    var pool2 := pool[k := slot];
    forall j: nat, i: nat, p: nat ensures Lists(pool2, j, i, p) == Lists(pool, j, i, p) {
      if j != k && j < MAX_SECTIONS { assert pool2[j] == pool[j]; }
    }
    forall p: nat ensures Listed(pool2, p) <==> Listed(pool, p) {
      if Listed(pool, p) { var j: nat, i: nat :| Lists(pool, j, i, p); assert Lists(pool2, j, i, p); }
      if Listed(pool2, p) { var j: nat, i: nat :| Lists(pool2, j, i, p); assert Lists(pool, j, i, p); }
    }
    forall h | h in mapped ensures exists j: nat :: LiveAs(pool2, j, h) {
      var j: nat :| LiveAs(pool, j, h);
      assert j != k;
      assert LiveAs(pool2, j, h);
    }
    forall j, l | 0 <= j < MAX_SECTIONS && 0 <= l < MAX_SECTIONS && pool2[j].inUse && pool2[l].inUse
                  && pool2[j].header.Some? && pool2[j].header == pool2[l].header
      ensures j == l
    {
      assert slot.inUse && slot.header.Some? && j != k ==> !LiveAs(pool, j, slot.header.value);
      assert slot.inUse && slot.header.Some? && l != k ==> !LiveAs(pool, l, slot.header.value);
    }
    assert NothingListedTwice(pool2);
  }

  /** A frame with one spare reference becomes page i of an unmapped section. */
  lemma BooksListedMore(s: MapState, pool: seq<SectionSlot>, others: seq<nat>, mapped: set<nat>, k: nat, i: nat, n: nat)
    requires BooksOk(s, pool, others, mapped) && k < MAX_SECTIONS && pool[k].inUse && i < pool[k].pageCount
    requires pool[k].pages[i] == 0 && !IsMapped(pool[k], mapped)
    requires 0 < n < MAX_TRACKED && others[n] == 1 && n !in s.made && Slots(s, n) == {} && !Listed(pool, n)
    ensures BooksOk(s, pool[k := pool[k].(pages := pool[k].pages[i := n])], others, mapped)
    ensures Clean(pool, others[n := 0]) ==> Clean(pool[k := pool[k].(pages := pool[k].pages[i := n])], others)
  {
    var pool2 := pool[k := pool[k].(pages := pool[k].pages[i := n])];
    forall j: nat, l: nat, p: nat
      ensures Lists(pool2, j, l, p) <==> Lists(pool, j, l, p) || (j == k && l == i && p == n)
    {
      if j != k && j < MAX_SECTIONS { assert pool2[j] == pool[j]; }
    }
    forall p: nat ensures Listed(pool2, p) <==> Listed(pool, p) || p == n {
      if Listed(pool, p) { var j: nat, l: nat :| Lists(pool, j, l, p); assert Lists(pool2, j, l, p); }
      if p == n { assert Lists(pool2, k, i, n); }
      if Listed(pool2, p) { var j: nat, l: nat :| Lists(pool2, j, l, p); assert Lists(pool, j, l, p) || p == n; }
    }
    forall h | h in mapped ensures exists j: nat :: LiveAs(pool2, j, h) {
      var j: nat :| LiveAs(pool, j, h);
      assert LiveAs(pool2, j, h);
    }
  }

  /** A page of an unmapped section is freed, whatever its count, and struck off. */
  lemma BooksStruckOff(s: MapState, pool: seq<SectionSlot>, others: seq<nat>, mapped: set<nat>, k: nat, i: nat)
    requires BooksOk(s, pool, others, mapped) && k < MAX_SECTIONS && pool[k].inUse && i < pool[k].pageCount
    requires pool[k].pages[i] != 0 && !IsMapped(pool[k], mapped)
    ensures pool[k].pages[i] < MAX_TRACKED && s.refs[pool[k].pages[i]] == 1 && pool[k].pages[i] !in s.t
    ensures var p := pool[k].pages[i];
            var s2 := s.(refs := s.refs[p := 0], taken := s.taken[p := false]);
            var pool2 := pool[k := pool[k].(pages := pool[k].pages[i := 0])];
            && BooksOk(s2, pool2, others[p := 0], mapped)
            && (Clean(pool, others) ==> Clean(pool2, others[p := 0]))
            && (forall j: nat, l: nat, q: nat :: Lists(pool2, j, l, q) <==> Lists(pool, j, l, q) && !(j == k && l == i))
  {
    var p := pool[k].pages[i];
    assert Lists(pool, k, i, p);
    var s2 := s.(refs := s.refs[p := 0], taken := s.taken[p := false]);
    var pool2 := pool[k := pool[k].(pages := pool[k].pages[i := 0])];
    assert s.refs[p] == |Slots(s, p)| + others[p];
    forall j: nat, l: nat, q: nat
      ensures Lists(pool2, j, l, q) <==> Lists(pool, j, l, q) && !(j == k && l == i)
    {
      if j != k && j < MAX_SECTIONS { assert pool2[j] == pool[j]; }
    }
    forall q: nat ensures Listed(pool2, q) <==> Listed(pool, q) && q != p {
      if Listed(pool, q) && q != p { var j: nat, l: nat :| Lists(pool, j, l, q); assert Lists(pool2, j, l, q); }
      if Listed(pool2, q) { var j: nat, l: nat :| Lists(pool2, j, l, q); assert Lists(pool, j, l, q); }
    }
    forall h | h in mapped ensures exists j: nat :: LiveAs(pool2, j, h) {
      var j: nat :| LiveAs(pool, j, h);
      assert LiveAs(pool2, j, h);
    }
    assert Wf(s2);
    forall q | 0 <= q < MAX_TRACKED
      ensures s2.refs[q] == |Slots(s2, q)| + (if q in s2.made then 1 else 0) + others[p := 0][q]
    {
      assert Slots(s2, q) == Slots(s, q);
    }
    assert forall q: nat :: Slots(s2, q) == Slots(s, q);
  }
}
