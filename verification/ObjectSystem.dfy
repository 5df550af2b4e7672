/** Sections and files over one object manager: whoever closes a handle, the type of the object decides
    which delete routine runs, and what holds of the sections and of the files is kept by every call. */
module ObjectSystem {
  import opened Machine
  import opened Bits
  import opened Bytes
  import opened PageFormat
  import opened PageTables
  import opened Ownership
  import opened Regions
  import opened Sections
  import opened AccessRights
  import opened CopyOnWrite
  import opened MemoryManager
  import opened Objects
  import opened SectionHandles
  import opened Status
  import F = Files

  /** Objects of other kinds are no concern of the files, */
  lemma FilesElsewhere(files: seq<F.FileSlot>, a: seq<Object>, b: seq<Object>, held: seq<nat>, after: seq<nat>,
                       kind: nat, other: Option<nat>)
    requires F.Paired(files, a, kind) && F.Quiet(a, held, multiset{}, kind)
    requires OnlyOfKind(a, b, other) && other != Some(kind) && |after| == |b|
    requires forall h | 0 <= h < |b| && h < |held| && !OfKind(b[h], other) :: after[h] == held[h]
    ensures F.Paired(files, b, kind) && F.Quiet(b, after, multiset{}, kind)
  {
    forall h | 0 <= h < MAX_OBJECTS && IsA(b[h], kind) ensures exists k: nat :: F.FileOf(files, k, h) {
      assert IsA(a[h], kind);
    }
  }

  /** ... nor of the sections. */
  lemma SectionsElsewhere(pool: seq<SectionSlot>, mappings: multiset<nat>, a: seq<Object>, b: seq<Object>,
                          held: seq<nat>, kind: nat, other: Option<nat>)
    requires Tied(pool, mappings, a, held, multiset{}, kind) && OnlyOfKind(a, b, other) && other != Some(kind)
    ensures Tied(pool, mappings, b, held, multiset{}, kind)
  {
    forall k | 0 <= k < MAX_SECTIONS && pool[k].inUse ensures Backed(pool[k], b, kind) {
      assert Backed(pool[k], a, kind);
    }
  }

  /** An object that loses a count is the only one that changes. */
  lemma OwnKind(a: seq<Object>, i: nat)
    requires i < |a| && a[i].refs > 0
    ensures OnlyOfKind(a, Dropped(a, i), a[i].kind)
  {
  }

  /** What is no file has no slot. */
  lemma NoFileOf(files: seq<F.FileSlot>, objects: seq<Object>, kind: nat, i: nat)
    requires F.Paired(files, objects, kind) && i < MAX_OBJECTS && objects[i].kind != Some(kind)
    ensures F.FilesAfter(files, objects, i) == files
  {
  }

  /** What is no section has none. */
  lemma NoSectionOf(pool: seq<SectionSlot>, mappings: multiset<nat>, objects: seq<Object>, held: seq<nat>, kind: nat,
                    i: nat)
    requires Tied(pool, mappings, objects, held, multiset{}, kind) && i < MAX_OBJECTS && objects[i].kind != Some(kind)
    ensures i !in mappings && forall k: nat :: !LiveAs(pool, k, i)
  {
    forall k: nat ensures !LiveAs(pool, k, i) {
      if k < |pool| && pool[k].inUse { assert Backed(pool[k], objects, kind); }
    }
  }

  class Executive {
    const ob: ObjectManager
    const mm: Manager
    const sections: SectionObjects
    const files: F.FileManager

    ghost predicate Valid(others: seq<nat>)
      reads sections, sections.ob, sections.ob.objects, sections.ob.handles, sections.mm, sections.mm.mmu,
          sections.mm.mmu.pages, sections.mm.mmu.pages.bitmap, sections.mm.mmu.pages.refs,
          set sp | sp in sections.spaces
      reads files, files.ob, files.ob.objects, files.ob.handles
    {
      && sections.ob == ob && files.ob == ob && sections.mm == mm && sections.kind != files.kind
      && sections.Valid(others) && files.Valid()
    }

    constructor (ob: ObjectManager, mm: Manager, sectionKind: nat, fileKind: nat, boot: map<string, seq<byte>>,
                 ghost others: seq<nat>)
      requires ob.Valid() && mm.Accounted(others) && mm.mappings == multiset{} && sectionKind != fileKind
      requires forall k | 0 <= k < |mm.pool| :: !mm.pool[k].inUse
      requires forall i | 0 <= i < MAX_OBJECTS ::
          ob.objects[i].kind != Some(sectionKind) && ob.objects[i].kind != Some(fileKind)
      ensures Valid(others) && this.ob == ob && this.mm == mm && fresh(sections) && fresh(files)
      ensures sections.kind == sectionKind && files.kind == fileKind && files.boot == boot
    {
      this.ob, this.mm := ob, mm;
      sections := new SectionObjects(ob, mm, sectionKind, others);
      files := new F.FileManager(ob, fileKind, boot);
    }

    /** ObCloseHandle, by whichever name it is called: LpcCloseHandle, IoCloseFileHandle. */
    method Close(value: nat, ghost others: seq<nat>)
      returns (status: KStatus, ghost h: nat, i: nat, ghost left: seq<nat>)
      requires Valid(others)
      modifies files`files, ob`deleted, ob`closed, ob.objects, ob.handles
      modifies mm`pool, mm.mmu`st, mm.mmu.pages`taken, mm.mmu.pages.bitmap, mm.mmu.pages.refs
      ensures Valid(left) && (old(Clean(mm.pool, others)) ==> Clean(mm.pool, left))
      ensures status == CloseStatus(old(ob.handles[..]), value)
      ensures status != Success ==> ob.objects[..] == old(ob.objects[..]) && ob.handles[..] == old(ob.handles[..])
      ensures status != Success ==>
                ob.deleted == old(ob.deleted) && files.files == old(files.files) && mm.pool == old(mm.pool) &&
                left == others
      ensures status == Success ==> FirstOf(old(ob.handles[..]), value, h) && old(ob.handles[h]).target == i
      ensures status == Success ==>
                ob.handles[..] == old(ob.handles[..])[h := NO_ENTRY] && ob.closed == old(ob.closed) + {value}
      ensures status == Success ==>
                i < MAX_OBJECTS && old(ob.objects[i]).refs > 0 && ob.objects[..] == Dropped(old(ob.objects[..]), i) &&
                ob.deleted == DroppedLog(old(ob.objects[..]), old(ob.deleted), i)
      ensures status == Success ==> files.files == F.FilesAfter(old(files.files), old(ob.objects[..]), i)
      ensures status == Success && ob.objects[i].inUse ==> mm.pool == old(mm.pool) && left == others
      ensures status == Success && !IsA(old(ob.objects[i]), sections.kind) ==> mm.pool == old(mm.pool) && left == others
      ensures status == Success && !ob.objects[i].inUse ==> forall k: nat :: !LiveAs(mm.pool, k, i)
      ensures forall k: nat, g | old(LiveAs(mm.pool, k, g)) && (g in mm.mappings || (status == Success && g != i)) ::
                LiveAs(mm.pool, k, g) && mm.pool[k] == old(mm.pool)[k]
      ensures forall g | g in mm.mappings :: ob.held[g] > 0 && ob.objects[g].inUse && ob.objects[g].id !in ob.deleted
      ensures mm.mmu.st.m == old(mm.mmu.st).m && mm.mmu.st.t == old(mm.mmu.st).t
    {
      hide BooksOk, Tied, F.Paired, F.Quiet, Clean, Balanced, Deleted, Fresh, Dropped, DroppedLog, Count, HasSlot,
           OnlyOfKind, F.FilesAfter, SectionObjects.MappingsReal;
      left := others;
      ghost var (objects, held, pool, slots) := (ob.objects[..], ob.held, mm.pool, files.files);
      var kind;
      status, h, i, kind := ob.CloseHandle(value);
      if status == Success {
        TiedShape(pool, mm.mappings, objects, held, multiset{}, sections.kind);
        OwnKind(objects, i);
        if kind == Some(sections.kind) {
          LiveComplete(pool, mm.mappings, objects, held, multiset{}, sections.kind, i);
          NoFileOf(slots, objects, files.kind, i);
          FilesElsewhere(slots, objects, ob.objects[..], held, held, files.kind, kind);
          left := sections.SectionGone(i, objects, held, multiset{}, multiset{}, others);
        } else {
          NoSectionOf(pool, mm.mappings, objects, held, sections.kind, i);
          SectionsElsewhere(pool, mm.mappings, objects, ob.objects[..], held, sections.kind, kind);
          if kind == Some(files.kind) {
            files.FileGone(i, objects, held, multiset{}, multiset{});
          } else {
            NoFileOf(slots, objects, files.kind, i);
            FilesElsewhere(slots, objects, ob.objects[..], held, held, files.kind, kind);
          }
        }
      }
      sections.MappedSafe(left);
    }

    /** What another call does to the files, or to the sections, leaves the rest alone. */
    method OpenPath(path: string, desired: nat, ghost others: seq<nat>)
      returns (status: KStatus, value: nat, ghost h: nat, ghost k: nat)
      requires Valid(others)
      modifies files`files, ob`nextId, ob`held, ob`deleted, ob`nextHandle, ob`wrapped, ob.objects, ob.handles
      ensures Valid(others) && ob.held == old(ob.held)
      ensures status == if desired % (F.FILE_ALL + 1) == 0 then InvalidParameter
                        else if F.AllTaken(old(files.files)) || AllInUse(old(ob.objects[..])) then InitFailed
                        else if path !in files.boot then NotFound
                        else if !BitsWithin(desired, F.FILE_ALL) then AccessDenied
                        else if AllUsed(old(ob.handles[..])) then InitFailed else Success
      ensures ob.wrapped <==> old(ob.wrapped) || (status == Success && old(ob.nextHandle) + 4 >= U32)
      ensures status == Success ==>
                path in files.boot && value == old(ob.nextHandle) && k < F.MAX_FILES && !old(files.files)[k].inUse
      ensures status == Success ==>
                F.Opened(old(ob.objects[..]), ob.objects[..], old(ob.handles[..]), ob.handles[..], old(ob.nextId),
                files.kind, h, value, desired)
      ensures status == Success ==>
                files.files ==
                  old(files.files)[k := F.FileSlot(true, Some(ob.handles[h].target), files.boot[path], desired)]
    {
      hide BooksOk, Tied, F.Paired, F.Quiet, Balanced, Deleted, Fresh, OnlyOfKind, F.Opened,
           SectionObjects.MappingsReal;
      ghost var (objects, held) := (ob.objects[..], ob.held);
      status, value, h, k := files.OpenPath(path, desired);
      SectionsElsewhere(mm.pool, mm.mappings, objects, ob.objects[..], held, sections.kind, Some(files.kind));
    }

    method ReadImage(value: nat, scratch: array<byte>, ghost others: seq<nat>)
      returns (status: KStatus, total: nat, ghost h: nat, ghost k: nat)
      requires Valid(others) && scratch.Length == F.SPAWN_MAX
      modifies ob`held, ob`deleted, ob.objects, scratch
      ensures Valid(others) && ob.objects[..] == old(ob.objects[..]) && ob.held == old(ob.held) &&
                ob.deleted == old(ob.deleted)
      ensures value != 0 && F.ReadStatus(ob.objects[..], ob.handles[..], files.kind, value) == Success ==>
                && FirstOf(ob.handles[..], value, h) && F.FileOf(files.files, k, ob.handles[h].target)
                && status == F.ImageStatus(|files.files[k].data|)
      ensures status == Success ==> FirstOf(ob.handles[..], value, h) && F.FileOf(files.files, k, ob.handles[h].target)
      ensures status == Success ==> total <= scratch.Length && scratch[..total] == files.files[k].data
    {
      hide BooksOk, Tied, F.Paired, F.Quiet, Balanced, Deleted, Fresh, F.ReadStatus, SectionObjects.MappingsReal;
      status, total, h, k := files.ReadImage(value, scratch);
    }

    method ReadFile(value: nat, offset: nat, buffer: array<byte>, at: nat, length: nat, ghost others: seq<nat>)
      returns (status: KStatus, n: nat, ghost h: nat, ghost k: nat)
      requires Valid(others) && at + length <= buffer.Length
      modifies ob`held, ob`deleted, ob.objects, buffer
      ensures Valid(others) && ob.objects[..] == old(ob.objects[..]) && ob.held == old(ob.held) &&
                ob.deleted == old(ob.deleted)
      ensures length > 0 && value != 0 ==> status == F.ReadStatus(ob.objects[..], ob.handles[..], files.kind, value)
      ensures status == Success ==> FirstOf(ob.handles[..], value, h) && F.FileOf(files.files, k, ob.handles[h].target)
      ensures status == Success ==>
                F.Wrote(old(buffer[..]), buffer[..], at, F.ReadAt(files.files[k].data, offset, length))
    {
      hide BooksOk, Tied, F.Paired, F.Quiet, Balanced, Deleted, Fresh, F.ReadStatus, F.Wrote,
           SectionObjects.MappingsReal;
      status, n, h, k := files.ReadFile(value, offset, buffer, at, length);
    }

    method CreateSectionHandle(size: nat, access: nat, ghost others: seq<nat>)
      returns (status: KStatus, value: nat, ghost header: nat, ghost k: nat, ghost left: seq<nat>)
      requires Valid(others)
      modifies ob`nextId, ob`held, ob`deleted, ob`nextHandle, ob`wrapped, ob.objects, ob.handles
      modifies mm`pool, mm.mmu, mm.mmu.pages, mm.mmu.pages.bitmap, mm.mmu.pages.refs
      ensures Valid(left) && (old(Clean(mm.pool, others)) ==> Clean(mm.pool, left)) && ob.held == old(ob.held)
      ensures status == Success ==> HandleTo(ob.handles[..], value, header, access)
      ensures status == Success ==> CreatedAs(mm.mmu.st, mm.pool, k, header, SectionPages(size))
    {
      hide BooksOk, Tied, F.Paired, F.Quiet, Clean, Balanced, Deleted, Fresh, OnlyOfKind, HandleTo, CreatedAs,
           SameView, SectionObjects.MappingsReal;
      ghost var (objects, held) := (ob.objects[..], ob.held);
      QuietLength(objects, held, files.kind);
      status, value, header, k, left := sections.CreateSectionHandle(size, access, others);
      FilesElsewhere(files.files, objects, ob.objects[..], held, held, files.kind, Some(sections.kind));
    }

    method MapSectionHandle(ghost n: nat, space: AddressSpace, value: nat, prot: Protection, ghost others: seq<nat>)
      returns (status: KStatus, base: nat, header: nat)
      requires Valid(others) && mm.Space(space) && n < |sections.spaces| && sections.spaces[n] == space
      modifies space, ob`held, ob`deleted, ob.objects, mm`mappings
      ensures Valid(others)
      ensures status != Success ==> space.regions == old(space.regions) && mm.mappings == old(mm.mappings)
      ensures status == Success ==>
                Grants(ob.handles[..], value, header, MapAccess(prot)) &&
                exists k: nat :: MapsSection(old(space.regions), space.regions, space.nextUserBase, base, mm.pool, k,
                header, prot)
    {
      hide BooksOk, Tied, F.Paired, F.Quiet, Balanced, Deleted, Fresh, Grants, MapsSection, LookupStatus,
           SectionObjects.MappingsReal;
      ghost var (objects, held) := (ob.objects[..], ob.held);
      QuietLength(objects, held, files.kind);
      status, base, header := sections.MapSectionHandle(n, space, value, prot, others);
      if status == Success {
        FilesElsewhere(files.files, objects, ob.objects[..], held, ob.held, files.kind, Some(sections.kind));
      }
    }

    method HandleFault(ghost n: nat, space: AddressSpace, fa: nat, e: ErrorCode, ghost others: seq<nat>)
      returns (status: KStatus, ghost left: seq<nat>)
      requires Valid(others) && mm.Space(space) && n < |sections.spaces| && sections.spaces[n] == space
      requires e.present && e.write ==> MarkedPresent(mm.mmu.st, space.root, PageOf(fa))
      modifies space`regions, mm.mmu, mm.mmu.pages, mm.mmu.pages.bitmap, mm.mmu.pages.refs
      ensures FaultOutcome(old(mm.mmu.st), mm.mmu.st, status, space.root, old(space.regions), fa, e, mm.pool)
      ensures !Allows(old(space.regions), fa, e) ==> Valid(left)
      ensures Allows(old(space.regions), fa, e) && Accountable(old(mm.mmu.st), space.root, PageOf(fa), e) ==>
                (Valid(left) <==> !LosesReference(old(mm.mmu.st), space.root, PageOf(fa), e))
    {
      hide BooksOk, Tied, F.Paired, F.Quiet, Balanced, Deleted, Fresh, FaultOutcome, LosesReference, Accountable,
           AtMostShort, SectionObjects.MappingsReal;
      status, left := sections.HandleFault(n, space, fa, e, others);
    }

    method MapAnonymous(ghost n: nat, space: AddressSpace, size: nat, prot: Protection, flags: RegionFlags,
                        ghost others: seq<nat>)
      returns (status: KStatus, base: nat, ghost left: seq<nat>)
      requires Valid(others) && mm.Space(space) && n < |sections.spaces| && sections.spaces[n] == space
      requires flags.wired ==>
                 WireableFrom(mm.mmu.st, space.root, AnonymousRegion(space.NextBase(), size, prot, flags), 0)
      modifies space, mm.mmu, mm.mmu.pages, mm.mmu.pages.bitmap, mm.mmu.pages.refs
      ensures Valid(left)
      ensures status != Success ==> space.regions == old(space.regions)
      ensures status == Success ==>
                space.regions == old(space.regions) + [AnonymousRegion(old(space.NextBase()), size, prot, flags)]
    {
      hide BooksOk, Tied, F.Paired, F.Quiet, Balanced, Deleted, Fresh, SectionObjects.MappingsReal;
      status, base, left := sections.MapAnonymous(n, space, size, prot, flags, others);
    }

    method AddSpace(space: AddressSpace, ghost others: seq<nat>)
      requires Valid(others) && space !in sections.spaces && space.regions == []
      modifies sections`spaces
      ensures Valid(others) && sections.spaces == old(sections.spaces) + [space]
    {
      hide BooksOk, Tied, F.Paired, F.Quiet, Balanced, Deleted, Fresh, SectionObjects.MappingsReal;
      sections.AddSpace(space, others);
    }

    /** A file opened, read whole and closed.  Unless the handle counter wraps, the read returns the bytes the
        file was registered with, or refuses their number, and the close takes back all the open did: the
        object, the handle and the slot. */
    method OpenReadClose(path: string, desired: nat, scratch: array<byte>, ghost others: seq<nat>)
      returns (status: KStatus, readStatus: KStatus, closeStatus: KStatus, total: nat, ghost left: seq<nat>)
      requires Valid(others) && scratch.Length == F.SPAWN_MAX
      modifies files`files, ob`nextId, ob`held, ob`deleted, ob`closed, ob`nextHandle, ob`wrapped, ob.objects
      modifies ob.handles, mm`pool, mm.mmu`st, mm.mmu.pages`taken, mm.mmu.pages.bitmap, mm.mmu.pages.refs, scratch
      ensures Valid(left)
      ensures ob.wrapped <==> old(ob.wrapped) || (status == Success && old(ob.nextHandle) + 4 >= U32)
      ensures status == Success && !ob.wrapped ==> left == others && closeStatus == Success && path in files.boot
      ensures status == Success && !ob.wrapped && BitsWithin(F.FILE_READ, desired) ==>
                readStatus == F.ImageStatus(|files.boot[path]|)
      ensures status == Success && !ob.wrapped && readStatus == Success ==>
                total <= scratch.Length && scratch[..total] == files.boot[path]
      ensures status == Success && !ob.wrapped ==>
                SameInUse(old(ob.objects[..]), ob.objects[..]) && SameEntries(old(ob.handles[..]), ob.handles[..]) &&
                F.SameFiles(old(files.files), files.files) && ob.held == old(ob.held) && mm.pool == old(mm.pool)
    {
      hide BooksOk, Tied, F.Paired, F.Quiet, Balanced, Deleted, Fresh, Clean, F.Opened, F.SameFiles,
           SameInUse, SameEntries, F.FilesAfter, FirstOf, Resolves, F.FileOf, Dropped, DroppedLog, F.ReadStatus,
           CloseStatus, F.ImageStatus, LookupStatus, SectionObjects.Valid, Manager.Accounted;
      readStatus, closeStatus, total, left := InitFailed, InitFailed, 0, others;
      ghost var (objects, handles, slots, id) := (ob.objects[..], ob.handles[..], files.files, ob.nextId);
      F.PairedShape(slots, objects, files.kind);
      var value;
      ghost var h, k, g, l;
      status, value, h, k := OpenPath(path, desired, others);
      if status != Success {
        return;
      }
      ghost var (made, after) := (ob.objects[..], ob.handles[..]);
      if !ob.wrapped {
        NewHandle(objects, made, handles, after, ob.nextHandle, ob.closed, id, files.kind, h, value, desired);
        SlotOf(slots, objects, files.kind, files.files, k, after[h].target);
        F.ReadStatusOf(made, after, files.kind, value);
      }
      readStatus, total, g, l := ReadImage(value, scratch, others);
      assert ob.objects[..] == made && ob.handles[..] == after;
      var i;
      closeStatus, g, i, left := Close(value, others);
      if !ob.wrapped {
        TakenBack(objects, made, handles, after, slots, files.boot[path], id, files.kind, h, k, value, desired);
      }
    }
  }

  lemma QuietLength(objects: seq<Object>, held: seq<nat>, kind: nat)
    requires F.Quiet(objects, held, multiset{}, kind)
    ensures |held| == |objects|
  {
  }

  /** The objects in use are the same. */
  predicate SameInUse(a: seq<Object>, b: seq<Object>) {
    |a| == |b| && forall i | 0 <= i < |a| && (a[i].inUse || b[i].inUse) :: a[i] == b[i]
  }

  /** The same handles are there. */
  predicate SameEntries(a: seq<Entry>, b: seq<Entry>) {
    |a| == |b| && forall h | 0 <= h < |a| && (a[h].inUse || b[h].inUse) :: a[h] == b[h]
  }

  /** A new handle is found by its value, and the lookup for reading succeeds if reading was asked for. */
  lemma NewHandle(objects: seq<Object>, made: seq<Object>, handles: seq<Entry>, after: seq<Entry>, next: nat,
                  closed: set<nat>, id: nat, kind: nat, h: nat, value: nat, desired: nat)
    requires F.Opened(objects, made, handles, after, id, kind, h, value, desired) && Fresh(after, next, closed)
    ensures h < |after| && after[h].target < |made| == |objects| && IsA(made[after[h].target], kind) &&
              !objects[after[h].target].inUse
    ensures value != 0 && FirstOf(after, value, h) && forall g: nat | FirstOf(after, value, g) :: g == h
    ensures BitsWithin(F.FILE_READ, desired) ==> LookupStatus(made, after[h], F.FILE_READ, Some(kind)) == Success
    ensures CloseStatus(after, value) == Success
  {
    assert Resolves(after, value, h);
  }

  /** The slot of a new file is the one the open took. */
  lemma SlotOf(slots: seq<F.FileSlot>, objects: seq<Object>, kind: nat, files: seq<F.FileSlot>, k: nat, i: nat)
    requires F.Paired(slots, objects, kind) && |files| == |slots| && forall l | 0 <= l < |slots| && l != k ::
        files[l] == slots[l]
    requires i < |objects| && !objects[i].inUse
    ensures forall l: nat | F.FileOf(files, l, i) :: l == k
  {
    forall l: nat | F.FileOf(files, l, i) ensures l == k {
      assert l != k ==> F.FileOf(slots, l, i);
    }
  }

  /** The close takes back what the open did. */
  lemma TakenBack(objects: seq<Object>, made: seq<Object>, handles: seq<Entry>, after: seq<Entry>,
                  slots: seq<F.FileSlot>, data: seq<byte>, id: nat, kind: nat, h: nat, k: nat, value: nat, desired: nat)
    requires F.Opened(objects, made, handles, after, id, kind, h, value, desired) && F.Paired(slots, objects, kind)
    requires k < |slots| && !slots[k].inUse
    ensures h < |after| && after[h].target < |made| && made[after[h].target].refs == 1
    ensures var i := after[h].target;
      && SameInUse(objects, Dropped(made, i)) && SameEntries(handles, after[h := NO_ENTRY])
      && F.SameFiles(slots, F.FilesAfter(slots[k := F.FileSlot(true, Some(i), data, desired)], made, i))
  {
    var i := after[h].target;
    SlotOf(slots, objects, kind, slots[k := F.FileSlot(true, Some(i), data, desired)], k, i);
  }

  /** What closing a value answers. */
  ghost function CloseStatus(handles: seq<Entry>, value: nat): (status: KStatus) {
    if value == 0 then InvalidParameter
    else if exists g :: Resolves(handles, value, g) then Success
    else NotFound
  }
}
