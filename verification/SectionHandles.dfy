/** Sections as objects: handles and mapped regions hold references, and the last reference
    deletes the section. */
module SectionHandles {
  import opened Machine
  import opened Bits
  import opened PageFormat
  import opened PageTables
  import opened Ownership
  import opened Regions
  import opened Sections
  import opened AccessRights
  import opened CopyOnWrite
  import opened MemoryManager
  import opened Objects
  import opened Status

  const MAP_READ: nat := 1
  const MAP_WRITE: nat := 2
  const ACCESS_ALL: nat := 3

  /** How many of the regions map the section with the given header. */
  function RegionCount(regions: seq<Region>, h: nat): (n: nat) {
    if regions == [] then 0
    else RegionCount(regions[..|regions| - 1], h) + if regions[|regions| - 1].backing == SectionOf(h) then 1 else 0
  }

  /** ... in all address spaces. */
  function MappingCount(views: seq<seq<Region>>, h: nat): (n: nat) {
    if views == [] then 0 else MappingCount(views[..|views| - 1], h) + RegionCount(views[|views| - 1], h)
  }

  lemma RegionAppended(regions: seq<Region>, r: Region, h: nat)
    ensures RegionCount(regions + [r], h) == RegionCount(regions, h) + if r.backing == SectionOf(h) then 1 else 0
  {
    assert (regions + [r])[..|regions|] == regions;
  }

  lemma {:induction false} SameLayoutCount(a: seq<Region>, b: seq<Region>, h: nat)
    requires SameLayout(a, b)
    ensures RegionCount(b, h) == RegionCount(a, h)
  {
    if a != [] {
      SameLayoutCount(a[..|a| - 1], b[..|b| - 1], h);
    }
  }

  lemma {:induction false} MappingsUpdate(views: seq<seq<Region>>, i: nat, regions: seq<Region>, h: nat)
    requires i < |views|
    ensures MappingCount(views[i := regions], h) + RegionCount(views[i], h) == MappingCount(views, h)
              + RegionCount(regions, h)
  {
    var last := |views| - 1;
    if i == last {
      assert views[i := regions][..last] == views[..last];
    } else {
      assert views[i := regions][..last] == views[..last][i := regions];
      MappingsUpdate(views[..last], i, regions, h);
    }
  }

  /** The slot's section belongs to a live object of the section type and has all its pages. */
  ghost predicate Backed(slot: SectionSlot, objects: seq<Object>, kind: nat) {
    && Complete(slot) && slot.header.Some? && slot.header.value < |objects| &&
        IsA(objects[slot.header.value], kind)
  }

  ghost predicate HasSlot(pool: seq<SectionSlot>, h: nat) { exists k: nat :: LiveAs(pool, k, h) }

  /** Every live section is backed by an object; what a section object holds references for, besides handles,
      is the regions that map it and the calls in progress that have looked it up or made it; and unless a
      call is at work on it, it has its pages. */
  ghost predicate Tied(pool: seq<SectionSlot>, mappings: multiset<nat>, objects: seq<Object>, held: seq<nat>,
      calls: multiset<nat>, kind: nat) {
    && |objects| == |held| == MAX_OBJECTS && |pool| == MAX_SECTIONS
    && (forall k | 0 <= k < MAX_SECTIONS && pool[k].inUse :: Backed(pool[k], objects, kind))
    && (forall h | 0 <= h < MAX_OBJECTS && IsA(objects[h], kind) :: held[h] == mappings[h] + calls[h])
    && (forall h | 0 <= h < MAX_OBJECTS && IsA(objects[h], kind) && h !in calls :: HasSlot(pool, h))
    && (forall h | h in mappings :: h < MAX_OBJECTS && IsA(objects[h], kind))
  }

  /** A handle more. */
  lemma TiedRetained(pool: seq<SectionSlot>, mappings: multiset<nat>, objects: seq<Object>, held: seq<nat>,
      calls: multiset<nat>, kind: nat, i: nat)
    requires Tied(pool, mappings, objects, held, calls, kind) && i < MAX_OBJECTS
    ensures Tied(pool, mappings, Retained(objects, i), held, calls, kind)
  {
  }

  /** A lookup more. */
  lemma TiedLookedUp(pool: seq<SectionSlot>, mappings: multiset<nat>, objects: seq<Object>, held: seq<nat>,
      calls: multiset<nat>, kind: nat, i: nat)
    requires Tied(pool, mappings, objects, held, calls, kind) && i < MAX_OBJECTS
    ensures Tied(pool, mappings, Retained(objects, i), held[i := held[i] + 1], calls + multiset{i}, kind)
  {
  }

  /** A mapped region takes over the reference of the lookup. */
  lemma TiedMapped(pool: seq<SectionSlot>, mappings: multiset<nat>, objects: seq<Object>, held: seq<nat>,
      calls: multiset<nat>, kind: nat, i: nat)
    requires Tied(pool, mappings, objects, held, calls + multiset{i}, kind) && i < MAX_OBJECTS &&
        IsA(objects[i], kind)
    requires HasSlot(pool, i)
    ensures Tied(pool, mappings + multiset{i}, objects, held, calls, kind)
  {
    forall h | 0 <= h < MAX_OBJECTS && IsA(objects[h], kind) && h !in calls ensures HasSlot(pool, h) {
      if h != i { assert h !in calls + multiset{i}; }
    }
  }

  lemma CallTaken(pool: seq<SectionSlot>, mappings: multiset<nat>, objects: seq<Object>, held: seq<nat>, kind: nat,
      i: nat)
    requires Tied(pool, mappings, objects, held, multiset{i}, kind) && i < MAX_OBJECTS && IsA(objects[i], kind) &&
        HasSlot(pool, i)
    ensures Tied(pool, mappings + multiset{i}, objects, held, multiset{}, kind)
  {
    assert multiset{} + multiset{i} == multiset{i};
    TiedMapped(pool, mappings, objects, held, multiset{}, kind, i);
  }

  lemma TiedShape(pool: seq<SectionSlot>, mappings: multiset<nat>, objects: seq<Object>, held: seq<nat>,
      calls: multiset<nat>, kind: nat)
    requires Tied(pool, mappings, objects, held, calls, kind)
    ensures |objects| == |held| == MAX_OBJECTS && |pool| == MAX_SECTIONS
    ensures forall h | h in mappings ::
              h < MAX_OBJECTS && IsA(objects[h], kind) && held[h] == mappings[h] + calls[h]
    ensures forall h | h < MAX_OBJECTS && h in mappings :: held[h] > 0
  {
  }

  lemma LiveComplete(pool: seq<SectionSlot>, mappings: multiset<nat>, objects: seq<Object>, held: seq<nat>,
      calls: multiset<nat>, kind: nat, h: nat)
    requires Tied(pool, mappings, objects, held, calls, kind)
    ensures forall k: nat | LiveAs(pool, k, h) :: Complete(pool[k])
    ensures h < MAX_OBJECTS && IsA(objects[h], kind) && h !in calls ==> HasSlot(pool, h)
  {
  }

  lemma TiedCreated(pool: seq<SectionSlot>, mappings: multiset<nat>, objects: seq<Object>, held: seq<nat>, kind: nat,
      i: nat, o: Object)
    requires Tied(pool, mappings, objects, held, multiset{}, kind) && i < MAX_OBJECTS && !objects[i].inUse
    ensures Tied(pool, mappings, objects[i := o], held[i := 1], multiset{i}, kind)
    ensures i !in mappings && forall k: nat :: !LiveAs(pool, k, i)
  {
    forall h | 0 <= h < MAX_OBJECTS && IsA(objects[i := o][h], kind) && h !in multiset{i}
      ensures HasSlot(pool, h)
    {
      assert h != i;
    }
  }

  /** A count that goes down without reaching zero. */
  lemma TiedDropped(pool: seq<SectionSlot>, mappings: multiset<nat>, objects: seq<Object>, held: seq<nat>,
      calls: multiset<nat>, kind: nat, i: nat,
                    after: seq<nat>, callsLeft: multiset<nat>)
    requires Tied(pool, mappings, objects, held, calls, kind) && i < MAX_OBJECTS && objects[i].refs > 1
    requires GivenUp(held, calls, after, callsLeft, i)
    requires IsA(objects[i], kind) && i !in callsLeft ==> HasSlot(pool, i)
    ensures Tied(pool, mappings, Dropped(objects, i), after, callsLeft, kind)
  {
    var left := Dropped(objects, i);
    forall h | 0 <= h < MAX_OBJECTS && IsA(left[h], kind) && h !in callsLeft ensures HasSlot(pool, h) {
      assert IsA(objects[h], kind);
      if h != i { assert h !in calls; }
    }
  }

  /** The last count: the section of the object, if it has one, is given up. */
  lemma TiedDeleted(pool: seq<SectionSlot>, mappings: multiset<nat>, objects: seq<Object>, held: seq<nat>,
      calls: multiset<nat>, kind: nat, i: nat,
                    after: seq<nat>, callsLeft: multiset<nat>, pool2: seq<SectionSlot>)
    requires Tied(pool, mappings, objects, held, calls, kind) && i < MAX_OBJECTS && objects[i].refs == 1 &&
        i !in mappings
    requires GivenUp(held, calls, after, callsLeft, i)
    requires |pool2| == MAX_SECTIONS && (forall k: nat :: !LiveAs(pool2, k, i))
    requires forall k | 0 <= k < MAX_SECTIONS && pool2[k].inUse :: pool2[k] == pool[k]
    requires forall k: nat | k < MAX_SECTIONS && !LiveAs(pool, k, i) :: pool2[k] == pool[k]
    ensures Tied(pool2, mappings, Dropped(objects, i), after, callsLeft, kind)
  {
    var left := Dropped(objects, i);
    forall k | 0 <= k < MAX_SECTIONS && pool2[k].inUse ensures Backed(pool2[k], left, kind) {
      assert !LiveAs(pool2, k, i) && Backed(pool[k], objects, kind);
    }
    forall h | 0 <= h < MAX_OBJECTS && IsA(left[h], kind) && h !in callsLeft ensures HasSlot(pool2, h) {
      assert h != i && h !in calls && IsA(objects[h], kind);
      var k: nat :| LiveAs(pool, k, h);
      assert !LiveAs(pool, k, i);
      assert LiveAs(pool2, k, h);
    }
  }

  /** The pool after a failed creation, of which object `made`, if any, is the only one without pages. */
  lemma TiedFewer(pool: seq<SectionSlot>, mappings: multiset<nat>, objects: seq<Object>, held: seq<nat>,
      calls: multiset<nat>, kind: nat,
                  pool2: seq<SectionSlot>)
    requires Tied(pool, mappings, objects, held, calls, kind) && |pool2| == MAX_SECTIONS
    requires forall k | 0 <= k < MAX_SECTIONS && pool2[k].inUse :: pool2[k] == pool[k]
    requires forall k | 0 <= k < MAX_SECTIONS && pool[k].inUse :: pool2[k] == pool[k]
    ensures Tied(pool2, mappings, objects, held, calls, kind)
  {
    forall k | 0 <= k < MAX_SECTIONS && pool2[k].inUse ensures Backed(pool2[k], objects, kind) {
      assert Backed(pool[k], objects, kind);
    }
    SlotsKept(pool, pool2);
  }

  lemma SlotsKept(pool: seq<SectionSlot>, pool2: seq<SectionSlot>)
    requires |pool| == |pool2| && forall k | 0 <= k < |pool| && pool[k].inUse :: pool2[k] == pool[k]
    ensures forall h | HasSlot(pool, h) :: HasSlot(pool2, h)
  {
    forall h | HasSlot(pool, h) ensures HasSlot(pool2, h) {
      var k: nat :| LiveAs(pool, k, h);
      assert LiveAs(pool2, k, h);
    }
  }

  /** A new section of object i beside the others. */
  lemma TiedMore(pool: seq<SectionSlot>, mappings: multiset<nat>, objects: seq<Object>, held: seq<nat>,
      calls: multiset<nat>, kind: nat, i: nat,
                 pool2: seq<SectionSlot>)
    requires Tied(pool, mappings, objects, held, calls, kind) && i < MAX_OBJECTS && IsA(objects[i], kind)
    requires |pool2| == MAX_SECTIONS
    requires forall k | 0 <= k < MAX_SECTIONS && pool[k].inUse :: pool2[k] == pool[k]
    requires forall k | 0 <= k < MAX_SECTIONS && pool2[k].inUse && !pool[k].inUse ::
        pool2[k].header == Some(i) && Complete(pool2[k])
    ensures Tied(pool2, mappings, objects, held, calls, kind)
  {
    forall k | 0 <= k < MAX_SECTIONS && pool2[k].inUse ensures Backed(pool2[k], objects, kind) {
      if pool[k].inUse { assert Backed(pool[k], objects, kind); }
    }
    SlotsKept(pool, pool2);
  }

  /** The value is that of a handle to the object, with the access. */
  ghost predicate HandleTo(handles: seq<Entry>, value: nat, target: nat, access: nat) {
    exists g: nat :: Resolves(handles, value, g) && handles[g].target == target && handles[g].granted == access
  }

  /** What a lookup of the value finds is the object, and it grants the access. */
  ghost predicate Grants(handles: seq<Entry>, value: nat, target: nat, access: nat) {
    exists g: nat :: FirstOf(handles, value, g) && handles[g].target == target && BitsWithin(access, handles[g].granted)
  }

  /** Every slot for a section is. */
  predicate PoolFull(pool: seq<SectionSlot>) { forall k | 0 <= k < |pool| :: pool[k].inUse }

  /** The handle allows the mapping: it grants reading, and writing if the mapping is to be written. */
  predicate MayMap(e: Entry, prot: Protection) {
    BitsWithin(MAP_READ, e.granted) && (prot.write ==> BitsWithin(MAP_WRITE, e.granted))
  }

  /** The page may be written only by the leave of the mapping and of the access granted. */
  ghost predicate AllowsOnly(m: Memory, root: nat, va: nat, prot: Protection, granted: nat) {
    forall a: Access :: Allowed(m, root, 0, Indexes(va), a) <==>
      (a.write ==> prot.write && BitsWithin(MAP_WRITE, granted)) && (a.execute ==> prot.execute)
  }

  lemma ReadThrough(s1: MapState, s2: MapState, root: nat, regions: seq<Region>, i: nat, fa: nat,
      pool: seq<SectionSlot>,
                    base: nat, header: nat, prot: Protection, e: Entry)
    requires FaultOutcome(s1, s2, Success, root, regions, fa, ErrorCode(false, false, true, false), pool)
    requires i < |regions| && Contains(regions[i], fa) && MapsAsAsked(regions[i], base, header, prot)
    requires WritableLinks(s1) && IsUserAddress(fa) && MayMap(e, prot)
    ensures AllowsOnly(s2.m, root, PageOf(fa), prot, e.granted)
  {
    hide WritableLinks, Allowed, Indexes, BitsWithin, Placed, Resolved, OthersAsBefore, PagesKept;
    UserPageOf(fa);
    assert Permits(regions[i], ErrorCode(false, false, true, false));
    assert GrantsAs(s2, root, PageOf(fa), regions[i]);
  }

  lemma ReadAnswered(s1: MapState, s2: MapState, fault: KStatus, root: nat, regions: seq<Region>, i: nat, fa: nat,
                     pool: seq<SectionSlot>, base: nat, header: nat, prot: Protection)
    requires FaultOutcome(s1, s2, fault, root, regions, fa, ErrorCode(false, false, true, false), pool)
    requires i < |regions| && Contains(regions[i], fa) && MapsAsAsked(regions[i], base, header, prot)
    ensures IsCanonical(PageOf(fa)) && TableAt(s1.m, root, Indexes(PageOf(fa)), 3).Some? ==> fault == Success
  {
    hide Placed, Resolved, OthersAsBefore, PagesKept, Indexes, TableAt;
    assert Permits(regions[i], ErrorCode(false, false, true, false));
    assert Handled(s1, s2, fault, root, regions[i], PageOf(fa), ErrorCode(false, false, true, false), pool);
  }

  /** What mapping through a handle answers. */
  function MapStatus(objects: seq<Object>, e: Entry, prot: Protection, kind: nat): (status: KStatus) {
    if !MayMap(e, prot) then AccessDenied
    else if e.target < |objects| && objects[e.target].kind != Some(kind) then NotFound
    else Success
  }

  lemma MapAccessMeans(objects: seq<Object>, e: Entry, prot: Protection, kind: nat)
    ensures BitsWithin(MapAccess(prot), e.granted) <==> MayMap(e, prot)
    ensures LookupStatus(objects, e, MapAccess(prot), Some(kind)) == MapStatus(objects, e, prot, kind)
  {
  }

  /** The access MmMapSectionHandle asks of the handle. */
  function MapAccess(prot: Protection): (access: nat) { if prot.write then MAP_READ + MAP_WRITE else MAP_READ }

  /** The regions of each address space. */
  ghost function ViewsOf(spaces: seq<AddressSpace>): (views: seq<seq<Region>>)
    reads set sp | sp in spaces
    ensures |views| == |spaces| && forall i | 0 <= i < |spaces| :: views[i] == spaces[i].regions
  {
    if spaces == [] then [] else ViewsOf(spaces[..|spaces| - 1]) + [spaces[|spaces| - 1].regions]
  }

  lemma ViewsAppended(spaces: seq<AddressSpace>, space: AddressSpace)
    ensures ViewsOf(spaces + [space]) == ViewsOf(spaces) + [space.regions]
  {
    assert (spaces + [space])[..|spaces|] == spaces;
  }

  lemma NothingMore(views: seq<seq<Region>>, h: nat)
    ensures MappingCount(views + [[]], h) == MappingCount(views, h)
  {
    assert (views + [[]])[..|views|] == views;
  }

  class SectionObjects {
    const ob: ObjectManager
    const mm: Manager
    /** The number of the section type. */
    const kind: nat
    /** The address spaces there are. */
    ghost var spaces: seq<AddressSpace>

    constructor (ob: ObjectManager, mm: Manager, kind: nat, ghost others: seq<nat>)
      requires ob.Valid() && mm.Accounted(others) && mm.mappings == multiset{}
      requires forall k | 0 <= k < |mm.pool| :: !mm.pool[k].inUse
      requires forall i | 0 <= i < MAX_OBJECTS :: ob.objects[i].kind != Some(kind)
      ensures Valid(others) && this.ob == ob && this.mm == mm && this.kind == kind && spaces == []
    {
      BooksShape(mm.mmu.st, mm.pool, others, mm.Mapped());
      HeldLength(ob.objects[..], ob.handles[..], ob.held);
      this.ob, this.mm, this.kind := ob, mm, kind;
      spaces := [];
    }

    ghost function Views(): (views: seq<seq<Region>>)
      reads this`spaces, set sp | sp in spaces
      ensures |views| == |spaces| && forall i | 0 <= i < |spaces| :: views[i] == spaces[i].regions
    {
      ViewsOf(spaces)
    }

    /** The mappings are the regions of the address spaces, each of which is there once. */
    ghost predicate MappingsReal()
      reads this`spaces, mm`mappings, set sp | sp in spaces
    {
      && (forall i, j | 0 <= i < j < |spaces| :: spaces[i] != spaces[j])
      && forall h: nat :: mm.mappings[h] == MappingCount(Views(), h)
    }

    /** Between two calls, but for the calls in progress that hold a reference to a section. */
    ghost predicate Within(others: seq<nat>, calls: multiset<nat>)
      reads this, ob, ob.objects, ob.handles, mm, mm.mmu, mm.mmu.pages, mm.mmu.pages.bitmap, mm.mmu.pages.refs,
          set sp | sp in spaces
    {
      ob.Valid() && mm.Accounted(others) && Tied(mm.pool, mm.mappings, ob.objects[..], ob.held, calls, kind) &&
          MappingsReal()
    }

    ghost predicate Valid(others: seq<nat>)
      reads this, ob, ob.objects, ob.handles, mm, mm.mmu, mm.mmu.pages, mm.mmu.pages.bitmap, mm.mmu.pages.refs,
          set sp | sp in spaces
    {
      Within(others, multiset{})
    }

    /** Between calls the count of a section is its handles and the regions that map it, and nothing else. */
    lemma SectionReferences(others: seq<nat>, h: nat)
      requires Valid(others) && h < MAX_OBJECTS && IsA(ob.objects[h], kind)
      ensures ob.objects[h].refs == Count(ob.handles[..], h) + MappingCount(Views(), h)
    {
    }

    /** The delete routine, when the count of object i has just gone down. */
    method SectionGone(i: nat, ghost objects: seq<Object>, ghost held: seq<nat>, ghost calls: multiset<nat>,
        ghost callsLeft: multiset<nat>,
                       ghost others: seq<nat>) returns (ghost left: seq<nat>)
      requires ob.Valid() && mm.Accounted(others) && MappingsReal() && i < MAX_OBJECTS
      requires Tied(mm.pool, mm.mappings, objects, held, calls, kind) && objects[i].inUse && objects[i].refs > 0
      requires ob.objects[..] == Dropped(objects, i)
      requires GivenUp(held, calls, ob.held, callsLeft, i)
      requires IsA(objects[i], kind) && i !in callsLeft && objects[i].refs > 1 ==> HasSlot(mm.pool, i)
      modifies mm`pool, mm.mmu`st, mm.mmu.pages`taken, mm.mmu.pages.bitmap, mm.mmu.pages.refs
      ensures Within(left, callsLeft) && (old(Clean(mm.pool, others)) ==> Clean(mm.pool, left))
      ensures !ob.objects[i].inUse ==> i !in mm.mappings && forall k: nat :: !LiveAs(mm.pool, k, i)
      ensures ob.objects[i].inUse ==> mm.pool == old(mm.pool) && left == others
      ensures forall k: nat, h | h != i && old(LiveAs(mm.pool, k, h)) ::
                LiveAs(mm.pool, k, h) && mm.pool[k] == old(mm.pool)[k]
      ensures mm.mmu.st.m == old(mm.mmu.st).m && mm.mmu.st.t == old(mm.mmu.st).t
    {
      hide BooksOk, Tied, Clean, Balanced, Deleted, Fresh, HasSlot, SectionObjects.MappingsReal;
      left := others;
      ghost var pool := mm.pool;
      if !ob.objects[i].inUse {
        NotHeld(ob.objects[..], ob.handles[..], ob.held, i);
        NotMapped(pool, mm.mappings, objects, held, calls, kind, i, ob.held, callsLeft);
        BooksShape(mm.mmu.st, pool, others, mm.Mapped());
        left := mm.DeleteSection(i, others);
        BooksShape(mm.mmu.st, mm.pool, left, mm.Mapped());
        forall k: nat, h | h != i && LiveAs(pool, k, h) ensures LiveAs(mm.pool, k, h) && mm.pool[k] == pool[k] {
          assert !LiveAs(pool, k, i);
        }
        TiedDeleted(pool, mm.mappings, objects, held, calls, kind, i, ob.held, callsLeft, mm.pool);
      } else {
        TiedDropped(pool, mm.mappings, objects, held, calls, kind, i, ob.held, callsLeft);
      }
    }

    /** The creator's reference is given up; without a handle the section goes with it. */
    method GiveUp(i: nat, ghost others: seq<nat>) returns (ghost left: seq<nat>)
      requires Within(others, multiset{i}) && i < MAX_OBJECTS && IsA(ob.objects[i], kind)
      requires ob.objects[i].refs > 1 ==> HasSlot(mm.pool, i)
      modifies ob`held, ob`deleted, ob.objects, mm`pool, mm.mmu`st, mm.mmu.pages`taken, mm.mmu.pages.bitmap,
          mm.mmu.pages.refs
      ensures Valid(left) && (old(Clean(mm.pool, others)) ==> Clean(mm.pool, left))
      ensures i < |old(ob.held)| && old(ob.held)[i] > 0 && ob.held == old(ob.held)[i := old(ob.held)[i] - 1]
      ensures mm.mmu.st.m == old(mm.mmu.st).m && mm.mmu.st.t == old(mm.mmu.st).t
      ensures old(ob.objects[i]).refs > 1 ==> ob.objects[i].inUse && mm.pool == old(mm.pool)
      ensures old(ob.objects[i]).refs > 0 && ob.objects[..] == Dropped(old(ob.objects[..]), i)
    {
      hide BooksOk, Tied, Clean, Balanced, Deleted, Fresh, Count, HasSlot, SectionObjects.MappingsReal;
      ghost var (objects, held) := (ob.objects[..], ob.held);
      HeldByCall(mm.pool, mm.mappings, objects, held, kind, i);
      HeldInUse(objects, ob.handles[..], held, i);
      var status := ob.Dereference(i);
      left := SectionGone(i, objects, held, multiset{i}, multiset{}, others);
    }

    /** The section is given a handle and its creator's reference given up. */
    method Publish(i: nat, access: nat, ghost others: seq<nat>)
      returns (status: KStatus, value: nat, ghost left: seq<nat>)
      requires Within(others, multiset{i}) && i < MAX_OBJECTS && IsA(ob.objects[i], kind) && HasSlot(mm.pool, i)
      modifies ob`held, ob`deleted, ob`nextHandle, ob`wrapped, ob.objects, ob.handles
      modifies mm`pool, mm.mmu`st, mm.mmu.pages`taken, mm.mmu.pages.bitmap, mm.mmu.pages.refs
      ensures Valid(left) && (old(Clean(mm.pool, others)) ==> Clean(mm.pool, left))
      ensures i < |old(ob.held)| && old(ob.held)[i] > 0 && ob.held == old(ob.held)[i := old(ob.held)[i] - 1]
      ensures mm.mmu.st.m == old(mm.mmu.st).m && mm.mmu.st.t == old(mm.mmu.st).t
      ensures status == if !BitsWithin(access, old(ob.objects[i]).access) then AccessDenied
                        else if AllUsed(old(ob.handles[..])) then InitFailed else Success
      ensures status == Success ==> value == old(ob.nextHandle) && ob.objects[i].inUse && mm.pool == old(mm.pool)
      ensures status == Success ==> HandleTo(ob.handles[..], value, i, access)
      ensures OnlyOfKind(old(ob.objects[..]), ob.objects[..], Some(kind))
    {
      hide BooksOk, Tied, Clean, Balanced, Deleted, Fresh, Dropped, Count, HasSlot, OnlyOfKind,
          SectionObjects.MappingsReal;
      ghost var (objects, held) := (ob.objects[..], ob.held);
      HeldByCall(mm.pool, mm.mappings, objects, held, kind, i);
      HeldInUse(objects, ob.handles[..], held, i);
      OneKind(objects, kind, i);
      ghost var h;
      status, value, h := ob.InsertHandle(i, access);
      if status == Success {
        TiedRetained(mm.pool, mm.mappings, objects, held, multiset{i}, kind, i);
        assert Resolves(ob.handles[..], value, h);
      }
      left := GiveUp(i, others);
    }

    /** The rest of MmCreateSectionHandle, once there is an object: the section of its pages, and its handle. */
    method CreateFor(made: nat, size: nat, access: nat, ghost others: seq<nat>)
      returns (status: KStatus, value: nat, ghost k: nat, ghost left: seq<nat>)
      requires Within(others, multiset{made}) && made < MAX_OBJECTS && IsA(ob.objects[made], kind) &&
          ob.objects[made].refs == 1
      requires made !in mm.mappings && forall l: nat :: !LiveAs(mm.pool, l, made)
      modifies ob`held, ob`deleted, ob`nextHandle, ob`wrapped, ob.objects, ob.handles
      modifies mm`pool, mm.mmu, mm.mmu.pages, mm.mmu.pages.bitmap, mm.mmu.pages.refs
      ensures Valid(left) && (old(Clean(mm.pool, others)) ==> Clean(mm.pool, left))
      ensures made < |old(ob.held)| && old(ob.held)[made] > 0 && ob.held == old(ob.held)[made := old(ob.held)[made] - 1]
      ensures SameView(old(mm.mmu.st).m, old(mm.mmu.st).t, mm.mmu.st.m, mm.mmu.st.t)
      ensures status == Success ==>
                value == old(ob.nextHandle) && ob.objects[made].inUse && HandleTo(ob.handles[..], value, made, access)
      ensures status == Success ==> CreatedAs(mm.mmu.st, mm.pool, k, made, SectionPages(size))
      ensures status == if !(1 <= SectionPages(size) <= MAX_SECTION_PAGES) then InvalidParameter
                        else if PoolFull(old(mm.pool)) || |FreeFrames(old(mm.mmu.st))| < SectionPages(size)
                            then InitFailed
                        else if !BitsWithin(access, old(ob.objects[made]).access) then AccessDenied
                        else if AllUsed(old(ob.handles[..])) then InitFailed else Success
      ensures OnlyOfKind(old(ob.objects[..]), ob.objects[..], Some(kind))
    {
      hide BooksOk, Tied, Clean, Balanced, Deleted, Fresh, Dropped, Count, SameView, LiveAs, Complete, Cleared, HasSlot,
          HandleTo, OnlyOfKind, FreeFrames, SectionPages, SectionObjects.MappingsReal;
      ghost var (pool, objects) := (mm.pool, ob.objects[..]);
      value, k := 0, 0;
      BooksShape(mm.mmu.st, mm.pool, others, mm.Mapped());
      TiedShape(pool, mm.mappings, ob.objects[..], ob.held, multiset{made}, kind);
      status, left := mm.CreateSection(size, Some(made), others);
      BooksShape(mm.mmu.st, mm.pool, left, mm.Mapped());
      TiedMore(pool, mm.mappings, ob.objects[..], ob.held, multiset{made}, kind, made, mm.pool);
      assert ob.objects[..] == objects;
      if status != Success {
        left := GiveUp(made, left);
        OneKind(objects, kind, made);
      } else {
        ghost var s := mm.mmu.st;
        k :| CreatedAs(s, mm.pool, k, made, SectionPages(size));
        SlotThere(mm.pool, k, made);
        status, value, left := Publish(made, access, left);
        if status == Success { CreatedKept(s, mm.mmu.st, mm.pool, k, made, SectionPages(size)); }
      }
    }

    /** MmCreateSectionHandle once a slot is found: the object, the pages, the handle. */
    method CreateInSlot(size: nat, access: nat, ghost others: seq<nat>)
      returns (status: KStatus, value: nat, ghost header: nat, ghost k: nat, ghost left: seq<nat>)
      requires Valid(others) && 1 <= SectionPages(size) <= MAX_SECTION_PAGES && !PoolFull(mm.pool)
      modifies ob`nextId, ob`held, ob`deleted, ob`nextHandle, ob`wrapped, ob.objects, ob.handles
      modifies mm`pool, mm.mmu, mm.mmu.pages, mm.mmu.pages.bitmap, mm.mmu.pages.refs
      ensures Valid(left) && (old(Clean(mm.pool, others)) ==> Clean(mm.pool, left))
      ensures ob.held == old(ob.held) && mm.mappings == old(mm.mappings)
      ensures SameView(old(mm.mmu.st).m, old(mm.mmu.st).t, mm.mmu.st.m, mm.mmu.st.t)
      ensures status == Success ==> value == old(ob.nextHandle) && header < MAX_OBJECTS && ob.objects[header].inUse
      ensures status == Success ==> HandleTo(ob.handles[..], value, header, access) && !old(ob.objects[header]).inUse
      ensures status == Success ==> CreatedAs(mm.mmu.st, mm.pool, k, header, SectionPages(size))
      ensures status == if AllInUse(old(ob.objects[..])) || |FreeFrames(old(mm.mmu.st))| < SectionPages(size)
                then InitFailed
                        else if !BitsWithin(access, MAP_READ + MAP_WRITE) then AccessDenied
                        else if AllUsed(old(ob.handles[..])) then InitFailed else Success
      ensures AllInUse(old(ob.objects[..])) ==> SameObjects(old(ob.objects[..]), old(ob.nextId), old(ob.deleted))
      ensures OnlyOfKind(old(ob.objects[..]), ob.objects[..], Some(kind))
    {
      hide BooksOk, Tied, Clean, Balanced, Deleted, Fresh, Dropped, Count, SameView, LiveAs, Complete, Cleared, HasSlot,
          FreeFrames, SectionPages, LeastPages, OnlyOfKind, BitsWithin, PoolFull, SectionObjects.MappingsReal;
      value, k := 0, 0;
      ghost var (pool, objects, held) := (mm.pool, ob.objects[..], ob.held);
      OnlyReflexive(objects, kind);
      SameViewReflexive(mm.mmu.st.m, mm.mmu.st.t);
      BooksShape(mm.mmu.st, mm.pool, others, mm.Mapped());
      var made;
      status, made := ob.CreateObject(kind, ACCESS_ALL);
      header := made;
      if status != Success {
        status, left := mm.CreateSection(size, None, others);
        BooksShape(mm.mmu.st, mm.pool, left, mm.Mapped());
        TiedFewer(pool, mm.mappings, objects, held, multiset{}, kind, mm.pool);
        return InitFailed, 0, 0, 0, left;
      }
      ghost var created := ob.objects[..];
      NotHeld(objects, ob.handles[..], held, made);
      TiedShape(pool, mm.mappings, objects, held, multiset{}, kind);
      assert held[made := 1][made := 0] == held;
      TiedCreated(pool, mm.mappings, objects, held, kind, made, ob.objects[made]);
      status, value, k, left := CreateFor(made, size, access, others);
      OnlyCreated(objects, created, ob.objects[..], made, kind);
    }

    /** The objects are the same, none is new and none deleted. */
    ghost predicate SameObjects(objects: seq<Object>, nextId: nat, deleted: seq<nat>)
      reads ob, ob.objects
    {
      ob.objects[..] == objects && ob.nextId == nextId && ob.deleted == deleted
    }

    /** MmCreateSectionHandle: on every path the references held outside the handle table are as before.
        On success the value is that of a handle to the new section. */
    method CreateSectionHandle(size: nat, access: nat, ghost others: seq<nat>)
      returns (status: KStatus, value: nat, ghost header: nat, ghost k: nat, ghost left: seq<nat>)
      requires Valid(others)
      modifies ob`nextId, ob`held, ob`deleted, ob`nextHandle, ob`wrapped, ob.objects, ob.handles
      modifies mm`pool, mm.mmu, mm.mmu.pages, mm.mmu.pages.bitmap, mm.mmu.pages.refs
      ensures Valid(left) && (old(Clean(mm.pool, others)) ==> Clean(mm.pool, left))
      ensures ob.held == old(ob.held) && mm.mappings == old(mm.mappings)
      ensures SameView(old(mm.mmu.st).m, old(mm.mmu.st).t, mm.mmu.st.m, mm.mmu.st.t)
      ensures status == Success ==> value == old(ob.nextHandle) && header < MAX_OBJECTS && ob.objects[header].inUse
      ensures status == Success ==> HandleTo(ob.handles[..], value, header, access) && !old(ob.objects[header]).inUse
      ensures status == Success ==> CreatedAs(mm.mmu.st, mm.pool, k, header, SectionPages(size))
      ensures size + PAGE_SIZE <= U64 ==> forall n: nat | LeastPages(size, n) :: SectionPages(size) == n % 0x1_0000_0000
      ensures status == if !(1 <= SectionPages(size) <= MAX_SECTION_PAGES) then InvalidParameter
                        else if PoolFull(old(mm.pool)) || AllInUse(old(ob.objects[..])) ||
                                |FreeFrames(old(mm.mmu.st))| < SectionPages(size) then InitFailed
                        else if !BitsWithin(access, MAP_READ + MAP_WRITE) then AccessDenied
                        else if AllUsed(old(ob.handles[..])) then InitFailed else Success
      ensures status == InvalidParameter || PoolFull(old(mm.pool)) || AllInUse(old(ob.objects[..])) ==>
                SameObjects(old(ob.objects[..]), old(ob.nextId), old(ob.deleted))
      ensures OnlyOfKind(old(ob.objects[..]), ob.objects[..], Some(kind))
    {
      hide BooksOk, Tied, Clean, Balanced, Deleted, Fresh, SameView, LiveAs, FreeFrames, SectionPages, LeastPages,
           OnlyOfKind, BitsWithin, AllInUse, SectionObjects.MappingsReal;
      SameViewReflexive(mm.mmu.st.m, mm.mmu.st.t);
      OnlyReflexive(ob.objects[..], kind);
      if size + PAGE_SIZE <= U64 {
        forall n: nat | LeastPages(size, n) ensures SectionPages(size) == n % 0x1_0000_0000 { PagesCut(size, n); }
      }
      var pageCount := SectionPages(size);
      if pageCount == 0 || pageCount > MAX_SECTION_PAGES {
        return InvalidParameter, 0, 0, 0, others;
      }
      BooksShape(mm.mmu.st, mm.pool, others, mm.Mapped());
      var slot := mm.FreeSlot();
      if slot.None? {
        return InitFailed, 0, 0, 0, others;
      }
      status, value, header, k, left := CreateInSlot(size, access, others);
    }

    /** A new address space, without regions. */
    method AddSpace(space: AddressSpace, ghost others: seq<nat>)
      requires Valid(others) && space !in spaces && space.regions == []
      modifies this`spaces
      ensures Valid(others) && spaces == old(spaces) + [space]
    {
      hide BooksOk, Tied, Balanced, Deleted, Fresh, Wf, MappingCount, RegionCount, ViewsOf, ObjectManager.Valid,
           Manager.Accounted;
      ghost var (before, views) := (spaces, Views());
      spaces := spaces + [space];
      ViewsAppended(before, space);
      forall h: nat ensures MappingCount(Views(), h) == MappingCount(views, h) {
        NothingMore(views, h);
      }
    }

    /** The region is appended and takes over the reference of the lookup. */
    method MapLookedUp(ghost n: nat, space: AddressSpace, header: nat, prot: Protection, ghost others: seq<nat>)
      returns (status: KStatus, base: nat)
      requires Within(others, multiset{header}) && mm.Space(space) && n < |spaces| && spaces[n] == space
      requires |space.regions| < MAX_VA_REGIONS && header < MAX_OBJECTS && IsA(ob.objects[header], kind) &&
          HasSlot(mm.pool, header)
      modifies space, mm`mappings
      ensures status == Success && Valid(others) && mm.mappings == old(mm.mappings) + multiset{header}
      ensures exists k: nat :: MapsSection(old(space.regions), space.regions, space.nextUserBase, base, mm.pool, k,
                header, prot)
      ensures |space.regions| == |old(space.regions)| + 1
      ensures MapsAsAsked(space.regions[|old(space.regions)|], base, header, prot)
      ensures (forall k: nat | LiveAs(mm.pool, k, header) :: old(space.Fits(mm.pool[k].pageCount * PAGE_SIZE))) ==>
                mm.Space(space)
      ensures base == old(space.NextBase())
    {
      hide BooksOk, Tied, Balanced, Deleted, Fresh, Complete, MappingCount, RegionCount, HasSlot, Laid,
          ObjectManager.Valid;
      ghost var (mappings, views, regions) := (mm.mappings, Views(), space.regions);
      LiveComplete(mm.pool, mappings, ob.objects[..], ob.held, multiset{header}, kind, header);
      TiedShape(mm.pool, mappings, ob.objects[..], ob.held, multiset{header}, kind);
      SomeSlot(mm.pool, header);
      status, base := mm.MapSection(space, header, prot, others);
      CallTaken(mm.pool, mappings, ob.objects[..], ob.held, kind, header);
      assert Views() == views[n := space.regions];
      ghost var r := space.regions[|regions|];
      forall g: nat ensures mm.mappings[g] == MappingCount(Views(), g) {
        MappingsUpdate(views, n, space.regions, g);
        RegionAppended(regions, r, g);
      }
    }

    /** MmMapSectionHandle: the region keeps the reference the lookup took. */
    method MapSectionHandle(ghost n: nat, space: AddressSpace, value: nat, prot: Protection, ghost others: seq<nat>)
      returns (status: KStatus, base: nat, header: nat)
      requires Valid(others) && mm.Space(space) && n < |spaces| && spaces[n] == space
      modifies space, ob`held, ob`deleted, ob.objects, mm`mappings
      ensures Valid(others)
      ensures |old(space.regions)| >= MAX_VA_REGIONS ==> status == InitFailed
      ensures |old(space.regions)| < MAX_VA_REGIONS && value == 0 ==> status == InvalidParameter
      ensures |old(space.regions)| < MAX_VA_REGIONS && value != 0 ==>
                (forall g :: !Resolves(ob.handles[..], value, g)) ==> status == NotFound
      ensures |old(space.regions)| < MAX_VA_REGIONS && value != 0 ==>
                forall g: nat | FirstOf(ob.handles[..], value, g) ::
                  status == LookupStatus(old(ob.objects[..]), ob.handles[g], MapAccess(prot), Some(kind))
      ensures |old(space.regions)| < MAX_VA_REGIONS && value != 0 ==>
                forall g: nat | FirstOf(ob.handles[..], value, g) ::
                  status == MapStatus(old(ob.objects[..]), ob.handles[g], prot, kind)
      ensures status != Success ==> space.regions == old(space.regions) && mm.mappings == old(mm.mappings)
      ensures status != Success ==>
                ob.objects[..] == old(ob.objects[..]) && ob.held == old(ob.held) && ob.deleted == old(ob.deleted)
      ensures status == Success ==> header < MAX_OBJECTS && mm.mappings == old(mm.mappings) + multiset{header}
      ensures status == Success ==> Grants(ob.handles[..], value, header, MapAccess(prot))
      ensures status == Success ==>
                exists g: nat :: FirstOf(ob.handles[..], value, g) && ob.handles[g].target == header &&
                  MayMap(ob.handles[g], prot)
      ensures status == Success ==>
                && |space.regions| == |old(space.regions)| + 1
                && MapsAsAsked(space.regions[|old(space.regions)|], base, header, prot)
      ensures status == Success ==>
                IsA(old(ob.objects[header]), kind) && ob.objects[..] == Retained(old(ob.objects[..]), header)
      ensures status == Success ==> ob.held == old(ob.held)[header := old(ob.held)[header] + 1]
      ensures status == Success ==> base == old(space.NextBase())
      ensures status == Success ==>
                exists k: nat :: MapsSection(old(space.regions), space.regions, space.nextUserBase, base, mm.pool, k,
                header, prot)
      ensures status == Success &&
                (forall k: nat | LiveAs(mm.pool, k, header) :: old(space.Fits(mm.pool[k].pageCount * PAGE_SIZE))) ==>
                mm.Space(space)
    {
      hide BooksOk, Tied, Clean, Balanced, Deleted, Fresh, Count, HasSlot, MapsSection, LookupStatus, MapStatus, MayMap,
           BitsWithin, MapsAsAsked, SectionObjects.MappingsReal;
      if |space.regions| >= MAX_VA_REGIONS {
        return InitFailed, 0, 0;
      }
      ghost var (objects, held) := (ob.objects[..], ob.held);
      ghost var h;
      base := 0;
      forall g: nat | g < MAX_HANDLES
        ensures LookupStatus(objects, ob.handles[g], MapAccess(prot), Some(kind)) ==
                MapStatus(objects, ob.handles[g], prot, kind)
        ensures BitsWithin(MapAccess(prot), ob.handles[g].granted) <==> MayMap(ob.handles[g], prot)
      {
        MapAccessMeans(objects, ob.handles[g], prot, kind);
      }
      status, header, h := ob.ReferenceByHandle(value, MapAccess(prot), Some(kind));
      if status != Success {
        return;
      }
      NotHeld(objects, ob.handles[..], held, header);
      TiedLookedUp(mm.pool, mm.mappings, objects, held, multiset{}, kind, header);
      assert multiset{} + multiset{header} == multiset{header};
      LiveComplete(mm.pool, mm.mappings, objects, held, multiset{}, kind, header);
      status, base := MapLookedUp(n, space, header, prot, others);
    }

    /** A page fault adds no mapping and takes none away. */
    method HandleFault(ghost n: nat, space: AddressSpace, fa: nat, e: ErrorCode, ghost others: seq<nat>)
      returns (status: KStatus, ghost left: seq<nat>)
      requires Valid(others) && mm.Space(space) && n < |spaces| && spaces[n] == space
      requires e.present && e.write ==> MarkedPresent(mm.mmu.st, space.root, PageOf(fa))
      modifies space`regions, mm.mmu, mm.mmu.pages, mm.mmu.pages.bitmap, mm.mmu.pages.refs
      ensures FaultOutcome(old(mm.mmu.st), mm.mmu.st, status, space.root, old(space.regions), fa, e, mm.pool)
      ensures !Allows(old(space.regions), fa, e) ==> Valid(left)
      ensures Allows(old(space.regions), fa, e) && Accountable(old(mm.mmu.st), space.root, PageOf(fa), e) ==>
                (Valid(left) <==> !LosesReference(old(mm.mmu.st), space.root, PageOf(fa), e))
      ensures AtMostShort(mm.mmu.st, left, 2) && SameLayout(old(space.regions), space.regions)
    {
      hide BooksOk, Tied, Balanced, Deleted, Fresh, MappingCount, RegionCount, FaultOutcome, LosesReference,
           Accountable, ObjectManager.Valid, AtMostShort;
      ghost var (views, regions) := (Views(), space.regions);
      status, left := mm.HandlePageFault(space, fa, e, others);
      assert Views() == views[n := space.regions];
      forall h: nat ensures MappingCount(Views(), h) == MappingCount(views, h) {
        MappingsUpdate(views, n, space.regions, h);
        SameLayoutCount(regions, space.regions, h);
      }
    }

    /** A section mapped through a handle, and a page of it read for the first time: afterwards the page allows a
        write only if writing was asked for and the handle grants it, and execution only if that was asked for. */
    method MapAndRead(ghost n: nat, space: AddressSpace, value: nat, prot: Protection, fa: nat, ghost others: seq<nat>)
      returns (mapped: KStatus, fault: KStatus, ghost left: seq<nat>)
      requires Valid(others) && mm.Space(space) && n < |spaces| && spaces[n] == space && WritableLinks(mm.mmu.st)
      requires forall k: nat | k < |mm.pool| :: space.Fits(mm.pool[k].pageCount * PAGE_SIZE) || !mm.pool[k].inUse
      modifies space, ob`held, ob`deleted, ob.objects, mm`mappings
      modifies mm.mmu, mm.mmu.pages, mm.mmu.pages.bitmap, mm.mmu.pages.refs
      ensures mapped == Success ==> space.regions != []
      ensures mapped == Success && fault == Success && IsUserAddress(fa) ==>
                exists g: nat :: FirstOf(ob.handles[..], value, g) &&
                  AllowsOnly(mm.mmu.st.m, space.root, PageOf(fa), prot, ob.handles[g].granted)
      ensures mapped == Success && Contains(space.regions[|space.regions| - 1], fa) ==>
                (IsCanonical(PageOf(fa)) && TableAt(old(mm.mmu.st.m), space.root, Indexes(PageOf(fa)), 3).Some? ==>
                fault == Success)
    {
      hide BooksOk, Tied, Balanced, Deleted, Fresh, FaultOutcome, LosesReference, Accountable, AtMostShort, MayMap,
           SectionObjects.MappingsReal, Laid, MapsSection, MapStatus, LookupStatus, WritableLinks, MarkedPresent,
           Allowed, Indexes, Grants, MapsAsAsked, AllowsOnly;
      fault, left := InitFailed, others;
      ghost var regions := space.regions;
      var base, header;
      mapped, base, header := MapSectionHandle(n, space, value, prot, others);
      if mapped != Success || !Contains(space.regions[|space.regions| - 1], fa) {
        return;
      }
      ghost var (s, r) := (mm.mmu.st, space.regions[|regions|]);
      ghost var g: nat :| FirstOf(ob.handles[..], value, g) && MayMap(ob.handles[g], prot);
      ghost var now := space.regions;
      fault, left := HandleFault(n, space, fa, ErrorCode(false, false, true, false), others);
      ReadAnswered(s, mm.mmu.st, fault, space.root, now, |regions|, fa, mm.pool, base, header, prot);
      if fault == Success && IsUserAddress(fa) {
        ReadThrough(s, mm.mmu.st, space.root, now, |regions|, fa, mm.pool, base, header, prot, ob.handles[g]);
      }
    }

    /** Nor does an anonymous region. */
    method MapAnonymous(ghost n: nat, space: AddressSpace, size: nat, prot: Protection, flags: RegionFlags,
        ghost others: seq<nat>)
      returns (status: KStatus, base: nat, ghost left: seq<nat>)
      requires Valid(others) && mm.Space(space) && n < |spaces| && spaces[n] == space
      requires flags.wired ==>
                 WireableFrom(mm.mmu.st, space.root, AnonymousRegion(space.NextBase(), size, prot, flags), 0)
      modifies space, mm.mmu, mm.mmu.pages, mm.mmu.pages.bitmap, mm.mmu.pages.refs
      ensures Valid(left)
      ensures status != Success ==> space.regions == old(space.regions)
      ensures status == Success ==>
                space.regions == old(space.regions) + [AnonymousRegion(old(space.NextBase()), size, prot, flags)]
    {
      hide BooksOk, Tied, Balanced, Deleted, Fresh, MappingCount, RegionCount, ObjectManager.Valid, WiredUpTo,
          OutsideAsBefore, Laid;
      ghost var (views, regions) := (Views(), space.regions);
      status, base, left := mm.MapAnonymous(space, size, prot, flags, others);
      assert Views() == views[n := space.regions];
      forall h: nat ensures MappingCount(Views(), h) == MappingCount(views, h) {
        MappingsUpdate(views, n, space.regions, h);
        if status == Success { RegionAppended(regions, space.regions[|regions|], h); }
      }
    }

    /** The handle a creation returned leads to the section it created, and to no other, until the handle
        counter wraps. */
    lemma HandleLeads(others: seq<nat>, value: nat, created: nat, granted: nat, found: nat, access: nat)
      requires Valid(others) && !ob.wrapped
      requires HandleTo(ob.handles[..], value, created, granted) && Grants(ob.handles[..], value, found, access)
      ensures found == created && BitsWithin(access, granted)
    {
      ob.ClosedStaysClosed(value);
    }

    /** A mapped section is neither deleted nor about to be. */
    lemma MappedSafe(left: seq<nat>)
      requires Valid(left)
      ensures forall h | h in mm.mappings :: h < MAX_OBJECTS && ob.held[h] > 0 && ob.objects[h].inUse
      ensures forall h | h in mm.mappings :: ob.objects[h].id !in ob.deleted && HasSlot(mm.pool, h)
    {
      forall h | h in mm.mappings ensures HasSlot(mm.pool, h) {
        assert h !in multiset{} && IsA(ob.objects[h], kind);
      }
    }
  }

  lemma SlotThere(pool: seq<SectionSlot>, k: nat, h: nat)
    requires LiveAs(pool, k, h)
    ensures HasSlot(pool, h)
  {
  }

  lemma SomeSlot(pool: seq<SectionSlot>, h: nat)
    requires HasSlot(pool, h)
    ensures exists k: nat :: LiveAs(pool, k, h)
  {
  }

  lemma OnlyReflexive(objects: seq<Object>, kind: nat)
    ensures OnlyOfKind(objects, objects, Some(kind))
  {
  }

  /** An object nobody holds is mapped by no region. */
  lemma NotMapped(pool: seq<SectionSlot>, mappings: multiset<nat>, objects: seq<Object>, held: seq<nat>,
      calls: multiset<nat>, kind: nat, i: nat,
                  after: seq<nat>, callsLeft: multiset<nat>)
    requires Tied(pool, mappings, objects, held, calls, kind) && GivenUp(held, calls, after, callsLeft, i) &&
        after[i] == 0
    ensures i !in mappings
  {
  }

  /** The call's reference to the section it has made. */
  lemma HeldByCall(pool: seq<SectionSlot>, mappings: multiset<nat>, objects: seq<Object>, held: seq<nat>, kind: nat,
      i: nat)
    requires Tied(pool, mappings, objects, held, multiset{i}, kind) && i < MAX_OBJECTS && IsA(objects[i], kind)
    ensures i < |held| && held[i] > 0
    ensures held[i] - 1 + multiset{i}[i] == held[i]
  {
  }

  lemma HeldLength(objects: seq<Object>, handles: seq<Entry>, held: seq<nat>)
    requires Balanced(objects, handles, held)
    ensures |held| == |objects|
  {
  }

  /** Clearing depends on the memory only. */
  lemma CreatedKept(s: MapState, s2: MapState, pool: seq<SectionSlot>, k: nat, h: nat, n: nat)
    requires s2.m == s.m && CreatedAs(s, pool, k, h, n)
    ensures CreatedAs(s2, pool, k, h, n)
  {
  }

  lemma NotHeld(objects: seq<Object>, handles: seq<Entry>, held: seq<nat>, i: nat)
    requires Balanced(objects, handles, held) && i < |objects|
    ensures i < |held| && (objects[i].inUse <==> objects[i].refs > 0) && (objects[i].refs == 0 ==> held[i] == 0)
  {
  }
}
