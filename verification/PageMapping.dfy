/** Walking, mapping, unmapping and protecting pages (kernel/mm/init.c). */
module PageMapping {
  import opened Machine
  import opened PageFormat
  import opened PageTables
  import opened Ownership
  import opened PageAllocator
  import opened Status

  /** What a change of the entry that a walk goes down by leaves of the walks. */
  lemma WalkDown(s: MapState, s2: MapState, root: nat, f: nat, level: nat, ix: seq<nat>)
    requires Wf(s) && Wf(s2) && Grown(s, s2) && IsRoot(s.t, root) && IsIndexes(ix) && level < 3
    requires f in s.t && s.t[f] == ix[..level] && DiffersAt(s.m, s2.m, s.t, f, ix[level]) && f < |s.m| == |s2.m|
    requires LinkKept(s.m[f][ix[level]], s2.m[f][ix[level]])
    ensures IsRoot(s2.t, root) && WalksKept(s.m, s.t, s2.m)
    ensures TableAt(s2.m, root, ix, level) == TableAt(s.m, root, ix, level)
    ensures PathOpen(s2.m, root, ix, level) == PathOpen(s.m, root, ix, level)
  {
    hide WalksKept, WritableLinks;
    AboveUnchanged(s.m, s2.m, s.t, f, ix[level], root, ix, level);
    AllWalksKept(s.m, s2.m, s.t, f, ix[level]);
  }

  /** An entry made for a new table is writable and executable below, and open to user code only for a user page. */
  predicate NewLink(w: Word, user: bool) {
    w.present && !w.large && w.writable && !w.noExecute && !w.softCow && w.user == user
  }

  class PageMap {
    const pages: FrameAllocator
    var frames: Memory
    /** Memory, tables and the frame account as one value. */
    ghost var st: MapState

    /** The tables the firmware left, all marked allocated and none counted. */
    constructor (pages: FrameAllocator, frames: Memory, ghost tables: Tables)
      requires pages.Valid() && pages.tracked <= |frames|
      requires Wf(MapState(frames, tables, {}, pages.refs[..], pages.taken, pages.tracked))
      ensures Valid() && this.pages == pages
      ensures st == MapState(frames, tables, {}, pages.refs[..], pages.taken, pages.tracked)
    {
      this.pages := pages;
      this.frames := frames;
      st := MapState(frames, tables, {}, pages.refs[..], pages.taken, pages.tracked);
    }

    /** st is the value of the fields. */
    ghost predicate Represents()
      reads this, pages, pages.bitmap, pages.refs
    {
      && pages.Valid() && pages.tracked <= |st.m|
      && st.m == frames && st.refs == pages.refs[..] && st.taken == pages.taken && st.tracked == pages.tracked
    }

    ghost predicate Valid()
      reads this, pages, pages.bitmap, pages.refs
    {
      Represents() && Wf(st)
    }

    lemma CountsTaken()
      requires Represents() && |st.refs| == |st.taken|
      ensures forall p | 0 <= p < |st.refs| && st.refs[p] != 0 :: st.taken[p]
    {
    }

    /** No tracked frame is free. */
    ghost predicate Exhausted()
      reads this
    {
      NoneFree(st)
    }

    /** Table f of the given level lies on the walk of ix. */
    ghost predicate OnPath(f: nat, level: nat, ix: seq<nat>)
      reads this
    {
      IsIndexes(ix) && level <= 3 && f in st.t && st.t[f] == ix[..level] && f < |st.m|
    }

    /** The entry for ix in table f points to child, with the rights a user walk needs. */
    ghost predicate Linked(f: nat, level: nat, ix: seq<nat>, va: nat, child: nat)
      reads this
    {
      && OnPath(f, level, ix) && level < 3
      && var e := st.m[f][ix[level]];
         IsLink(e) && e.pfn == child && (IsUserAddress(va) ==> e.user && !e.noExecute)
    }

    /** A frame for a table: free before, no table, counted once. */
    method AllocTable() returns (status: KStatus, n: nat)
      requires Valid()
      modifies this`st, pages, pages.bitmap, pages.refs
      ensures Represents()
      ensures status == if old(Exhausted()) then InitFailed else Success
      ensures status == InitFailed ==> st == old(st) && Exhausted()
      ensures status == Success ==>
                var s := old(st);
                && n < |s.m| && n < s.tracked && n < MAX_TRACKED && n !in s.t && !s.taken[n] && s.refs[n] == 0
                && st == s.(refs := s.refs[n := 1], taken := s.taken[n := true])
    {
      status, n := pages.Alloc(1);
      if status != Success {
        status := InitFailed;
      } else {
        st := st.(refs := st.refs[n := 1], taken := st.taken[n := true]);
      }
    }

    /** Frame n is filled and hung below slot i of table f. */
    method Attach(ghost s: MapState, f: nat, i: nat, n: nat, table: Frame, link: Word)
      requires Represents()
      requires i < 512 && f < |s.m| && n < |s.m| && f in s.t && f != n && |s.refs| == |s.taken| && n < |s.refs|
      requires st == s.(refs := s.refs[n := 1], taken := s.taken[n := true])
      modifies this
      ensures Represents() && st == AttachTable(s, f, i, n, table, link)
    {
      frames := frames[n := table];
      frames := frames[f := frames[f][i := link]];
      st := AttachTable(s, f, i, n, table, link);
    }

    /** The 2 MiB entry of table f is replaced by a table of 4 KiB entries. */
    method Split(f: nat, ix: seq<nat>, va: nat) returns (status: KStatus, child: nat)
      requires Valid() && OnPath(f, 2, ix) && IsLarge(st, f, ix[2])
      modifies this, pages, pages.bitmap, pages.refs
      ensures Valid() && Grown(old(st), st) && OnPath(f, 2, ix)
      ensures DiffersAt(old(st.m), st.m, old(st.t), f, ix[2])
      ensures status == Success || status == InitFailed
      ensures status == InitFailed ==> st == old(st) && Exhausted()
      ensures status == Success ==> st.m[f][ix[2]] == LinkTo(child, va < USER_TOP)
      ensures status == Success ==> NewLink(st.m[f][ix[2]], va < USER_TOP)
    {
      ghost var s := st;
      var entry := frames[f][ix[2]];
      status, child := AllocTable();
      if status != Success {
        GrownReflexive(s);
        return;
      }
      var table: Frame := seq(512, k requires 0 <= k < 512 => SplitWord(entry, k));
      var link := LinkTo(child, va < USER_TOP);
      SplitGrown(s, f, ix[2], child, table, link);
      Attach(s, f, ix[2], child, table, link);
    }

    /** An absent entry of table f gets an empty table. */
    method Install(f: nat, level: nat, ix: seq<nat>, va: nat) returns (status: KStatus, child: nat)
      requires Valid() && level < 3 && OnPath(f, level, ix) && !st.m[f][ix[level]].present
      modifies this, pages, pages.bitmap, pages.refs
      ensures Valid() && Grown(old(st), st)
      ensures DiffersAt(old(st.m), st.m, old(st.t), f, ix[level])
      ensures status == Success || status == InitFailed
      ensures status == InitFailed ==> st == old(st) && Exhausted()
      ensures status == Success ==>
                Linked(f, level, ix, va, child) && NewLink(st.m[f][ix[level]], IsUserAddress(va))
    {
      ghost var s := st;
      status, child := AllocTable();
      if status != Success {
        GrownReflexive(s);
        return;
      }
      var table: Frame := seq(512, _ => ZERO);
      var link := LinkTo(child, IsUserAddress(va));
      EmptyTableGrown(s, f, ix[level], child, table, link);
      Attach(s, f, ix[level], child, table, link);
    }

    /** A user walk opens the entry it descends through. */
    method Sanitize(f: nat, level: nat, ix: seq<nat>)
      requires Valid() && level < 3 && OnPath(f, level, ix) && IsLink(st.m[f][ix[level]])
      modifies this
      ensures Valid() && Grown(old(st), st) && OnPath(f, level, ix)
      ensures DiffersAt(old(st.m), st.m, old(st.t), f, ix[level])
      ensures st.m[f][ix[level]] == old(st.m[f][ix[level]]).(user := true, noExecute := false)
    {
      hide Wf, Grown, DiffersAt;
      ghost var s := st;
      var entry := frames[f][ix[level]];
      var sanitized := entry.(user := true, noExecute := false);
      SanitizeGrown(s, f, ix[level]);
      if sanitized != entry {
        frames := frames[f := frames[f][ix[level] := sanitized]];
      } else {
        assert frames[f][ix[level] := entry] == frames[f];
      }
      st := st.(m := st.m[f := st.m[f][ix[level] := sanitized]]);
    }

    /** One level of MmpWalkToPte with CreateMissing set. */
    method Descend(f: nat, level: nat, ix: seq<nat>, va: nat) returns (status: KStatus, child: nat)
      requires Valid() && level < 3 && OnPath(f, level, ix)
      modifies this, pages, pages.bitmap, pages.refs
      ensures Valid() && Grown(old(st), st)
      ensures DiffersAt(old(st.m), st.m, old(st.t), f, ix[level])
      ensures status in {Success, InitFailed, NotImplemented}
      ensures status == NotImplemented <==> level < 2 && old(IsLarge(st, f, ix[level]))
      ensures old(IsLink(st.m[f][ix[level]])) ==> status == Success && child == old(st.m[f][ix[level]]).pfn
      ensures f < |st.m| && LinkKept(old(st.m[f][ix[level]]), st.m[f][ix[level]])
      ensures status == Success && !old(st.m[f][ix[level]].present) ==> NewLink(st.m[f][ix[level]], IsUserAddress(va))
      ensures !IsUserAddress(va) && old(IsLink(st.m[f][ix[level]])) ==> st == old(st)
      ensures status == InitFailed ==> Exhausted()
      ensures status == NotImplemented ==> st == old(st)
      ensures status == Success ==> Linked(f, level, ix, va, child)
    {
      ghost var s := st;
      var entry := frames[f][ix[level]];
      child := entry.pfn;
      status := Success;
      if entry.present && entry.large {
        if level != 2 {
          GrownReflexive(s);
          return NotImplemented, 0;
        }
        status, child := Split(f, ix, va);
        if status != Success {
          return;
        }
      }
      if frames[f][ix[level]].present && IsUserAddress(va) {
        ghost var t := st;
        Sanitize(f, level, ix);
        if entry.present && entry.large {
          GrownTransitive(s, t, st);
        }
      }
      if !frames[f][ix[level]].present {
        status, child := Install(f, level, ix, va);
      } else if !IsUserAddress(va) && !(entry.present && entry.large) {
        GrownReflexive(s);
      }
    }

    /** The walk from root has come down to table at the given level. */
    ghost predicate Reached(root: nat, ix: seq<nat>, va: nat, level: nat, table: nat)
      reads this
    {
      && IsRoot(st.t, root) && OnPath(table, level, ix)
      && TableAt(st.m, root, ix, level) == Some(table)
      && (IsUserAddress(va) ==> PathOpen(st.m, root, ix, level))
    }

    method WalkLevel(root: nat, table: nat, level: nat, ix: seq<nat>, va: nat) returns (status: KStatus, child: nat)
      requires Valid() && level < 3 && Reached(root, ix, va, level, table)
      modifies this, pages, pages.bitmap, pages.refs
      ensures Valid() && Grown(old(st), st)
      ensures IsRoot(st.t, root)
      ensures status in {Success, InitFailed, NotImplemented}
      ensures status == InitFailed ==> Exhausted()
      ensures status == NotImplemented ==> Translate(st.m, root, 0, ix).Some?
      ensures status == Success ==> Reached(root, ix, va, level + 1, child)
      ensures WalksKept(old(st.m), old(st.t), st.m) && (old(TableAt(st.m, root, ix, 3)).Some? ==> status == Success)
    {
      hide Grown, WalksKept, DiffersAt;
      ghost var s := st;
      NoTableBelow(s.m, root, ix, level + 1, 3);
      status, child := Descend(table, level, ix, va);
      WalkDown(s, st, root, table, level, ix);
      if status == NotImplemented {
        TranslateFromTable(st.m, root, ix, level);
      }
      if status == Success {
        TableAtTyped(st.m, st.t, root, ix, level + 1);
      }
    }

    /** MmpWalkToPte with CreateMissing set: the last-level table of the walk. */
    method WalkCreating(root: nat, va: nat) returns (status: KStatus, table: nat)
      requires Valid() && IsRoot(st.t, root)
      modifies this, pages, pages.bitmap, pages.refs
      ensures Valid() && Grown(old(st), st)
      ensures IsRoot(st.t, root)
      ensures status == InvalidParameter <==> !IsCanonical(va)
      ensures status in {Success, InvalidParameter, InitFailed, NotImplemented}
      ensures status == InitFailed ==> Exhausted()
      ensures status == NotImplemented ==> Translate(st.m, root, 0, Indexes(va)).Some?
      ensures status == Success ==> Reached(root, Indexes(va), va, 3, table)
      ensures WalksKept(old(st.m), old(st.t), st.m)
      ensures IsCanonical(va) && old(TableAt(st.m, root, Indexes(va), 3)).Some? ==> status == Success
    {
      ghost var s := st;
      GrownReflexive(s);
      if !IsCanonical(va) {
        return InvalidParameter, 0;
      }
      var ix := Indexes(va);
      assert ix[..0] == [];
      table := root;
      var level := 0;
      while level < 3
        invariant 0 <= level <= 3
        invariant Valid()
        invariant Grown(s, st)
        invariant Reached(root, ix, va, level, table)
        invariant WalksKept(s.m, s.t, st.m)
      {
        ghost var t := st;
        status, table := WalkLevel(root, table, level, ix, va);
        GrownTransitive(s, t, st);
        SameTables(s, t);
        WalksKeptTransitive(s.m, s.t, t.m, t.t, st.m);
        if status != Success {
          return;
        }
        level := level + 1;
      }
      status := Success;
    }

    /** MmpWalkToPte without CreateMissing. */
    method WalkExisting(root: nat, va: nat) returns (status: KStatus, table: nat)
      requires Valid() && IsRoot(st.t, root)
      ensures status == InvalidParameter <==> !IsCanonical(va)
      ensures status in {Success, InvalidParameter, NotFound, NotImplemented}
      ensures status == Success ==> AtLeaf(root, Indexes(va), table)
      ensures status in {NotFound, NotImplemented} ==> TableAt(st.m, root, Indexes(va), 3) == None
      ensures status == NotImplemented ==> Translate(st.m, root, 0, Indexes(va)).Some?
    {
      if !IsCanonical(va) {
        return InvalidParameter, 0;
      }
      var ix := Indexes(va);
      assert ix[..0] == [];
      table := root;
      var level := 0;
      while level < 3
        invariant 0 <= level <= 3
        invariant OnPath(table, level, ix)
        invariant TableAt(st.m, root, ix, level) == Some(table)
      {
        var entry := frames[table][ix[level]];
        TranslateFromTable(st.m, root, ix, level);
        NoTableBelow(st.m, root, ix, level + 1, 3);
        if entry.present && entry.large {
          return if level != 2 then NotImplemented else NotFound, 0;
        }
        if !entry.present {
          return NotFound, 0;
        }
        table := entry.pfn;
        level := level + 1;
        TableAtTyped(st.m, st.t, root, ix, level);
      }
      status := Success;
    }

    /** The walk of ix from root ends at table. */
    ghost predicate AtLeaf(root: nat, ix: seq<nat>, table: nat)
      reads this
    {
      IsRoot(st.t, root) && OnPath(table, 3, ix) && TableAt(st.m, root, ix, 3) == Some(table)
    }

    /** Overwrites slot i of a table, releasing what it named. */
    method Overwrite(table: nat, i: nat, w: Word)
      requires Represents() && table < |st.m| && i < 512
      modifies this, pages`taken, pages.bitmap, pages.refs
      ensures Represents() && st == Overwritten(old(st), table, i, w)
    {
      var entry := frames[table][i];
      if entry.present {
        pages.Release(entry.pfn);
      }
      frames := frames[table := frames[table][i := w]];
      st := Overwritten(st, table, i, w);
    }

    /** MmAsMapPage */
    method MapPage(root: nat, va: nat, pa: nat, flags: Word) returns (status: KStatus)
      requires Valid() && IsRoot(st.t, root)
      modifies this, pages, pages.bitmap, pages.refs
      ensures Represents()
      ensures status == InvalidParameter <==> va % PAGE_SIZE != 0 || pa % PAGE_SIZE != 0 || !IsCanonical(va)
      ensures status == InitFailed ==> Exhausted()
      ensures status == NotImplemented ==> Translate(st.m, root, 0, Indexes(va)).Some?
      ensures status in {Success, InvalidParameter, InitFailed, NotImplemented}
      ensures status != Success ==> Wf(st) && Grown(old(st), st)
      ensures status == Success ==> Remapped(old(st), st, root, va, MapWord(pa, flags))
      ensures status != InvalidParameter && old(TableAt(st.m, root, Indexes(va), 3)).Some? ==> status == Success
    {
      ghost var s := st;
      GrownReflexive(s);
      if va % PAGE_SIZE != 0 || pa % PAGE_SIZE != 0 {
        return InvalidParameter;
      }
      var table;
      status, table := WalkCreating(root, va);
      if status != Success {
        return;
      }
      ghost var t := st;
      Overwrite(table, Indexes(va)[3], MapWord(pa, flags));
      assert RemappedVia(s, st, root, va, MapWord(pa, flags), t, table);
    }

    /** MmAsUnmapPage */
    method UnmapPage(root: nat, va: nat) returns (status: KStatus)
      requires Valid() && IsRoot(st.t, root)
      modifies this, pages`taken, pages.bitmap, pages.refs
      ensures Represents()
      ensures status == InvalidParameter <==> va % PAGE_SIZE != 0 || !IsCanonical(va)
      ensures status == Success <==>
                va % PAGE_SIZE == 0 && IsCanonical(va) && LeafEntry(old(st.m), root, Indexes(va)).Some?
      ensures status == Success ==> Rewritten(old(st), st, root, Indexes(va), ZERO)
      ensures status != Success ==> st == old(st)
    {
      if va % PAGE_SIZE != 0 {
        return InvalidParameter;
      }
      var table;
      status, table := WalkExisting(root, va);
      if status != Success {
        return;
      }
      if !frames[table][Indexes(va)[3]].present {
        return NotFound;
      }
      Overwrite(table, Indexes(va)[3], ZERO);
    }

    /** MmAsProtectPage */
    method ProtectPage(root: nat, va: nat, flags: Word) returns (status: KStatus)
      requires Valid() && IsRoot(st.t, root)
      modifies this
      ensures Represents()
      ensures status == InvalidParameter <==> va % PAGE_SIZE != 0 || !IsCanonical(va)
      ensures status == Success <==>
                va % PAGE_SIZE == 0 && IsCanonical(va) && LeafEntry(old(st.m), root, Indexes(va)).Some?
      ensures status == Success ==> Reprotected(old(st), st, root, Indexes(va), flags)
      ensures status != Success ==> st == old(st)
    {
      if va % PAGE_SIZE != 0 {
        return InvalidParameter;
      }
      var table;
      status, table := WalkExisting(root, va);
      if status != Success {
        return;
      }
      var i := Indexes(va)[3];
      var entry := frames[table][i];
      if !entry.present {
        return NotFound;
      }
      frames := frames[table := frames[table][i := ProtectWord(entry, flags)]];
      st := st.(m := frames);
    }

    /** MmAsQueryPte */
    method QueryPte(root: nat, va: nat) returns (status: KStatus, entry: Word)
      requires Valid() && IsRoot(st.t, root)
      ensures status == Success ==> SlotIs(st.m, root, Indexes(va), entry)
      ensures status == Success <==> va % PAGE_SIZE == 0 && IsCanonical(va) && TableAt(st.m, root, Indexes(va), 3).Some?
    {
      entry := ZERO;
      if va % PAGE_SIZE != 0 {
        return InvalidParameter, entry;
      }
      var table;
      status, table := WalkExisting(root, va);
      if status != Success {
        return;
      }
      entry := frames[table][Indexes(va)[3]];
    }

    /** MmAllocPage followed by the clearing loop. */
    method AllocCleared() returns (status: KStatus, n: nat)
      requires Valid()
      modifies this, pages, pages.bitmap, pages.refs
      ensures Represents()
      ensures status == if old(Exhausted()) then InitFailed else Success
      ensures status != Success ==> st == old(st) && Exhausted()
      ensures status == Success ==>
                var s := old(st);
                && n < |s.m| && n < s.tracked && n < MAX_TRACKED && n !in s.t && !s.taken[n] && s.refs[n] == 0
                && |st.m| == |s.m| && IsEmptyTable(st.m[n]) && st == TakeFrame(s, n, st.m[n])
    {
      ghost var s := st;
      status, n := AllocTable();
      if status != Success {
        return;
      }
      var content: Frame := seq(512, _ => ZERO);
      frames := frames[n := content];
      st := TakeFrame(s, n, content);
    }

    /** MmAllocPage followed by the copying loop of a copy-on-write fault. */
    method AllocCopy(p: nat) returns (status: KStatus, n: nat)
      requires Valid()
      modifies this, pages, pages.bitmap, pages.refs
      ensures Represents()
      ensures status == if old(Exhausted()) then InitFailed else Success
      ensures status != Success ==> st == old(st) && Exhausted()
      ensures status == Success ==>
                var s := old(st);
                && n < |s.m| && n < MAX_TRACKED && n !in s.t && !s.taken[n] && s.refs[n] == 0
                && |st.m| == |s.m| && (p < |s.m| ==> st.m[n] == s.m[p]) && st == TakeFrame(s, n, st.m[n])
    {
      ghost var s := st;
      status, n := AllocTable();
      if status != Success {
        return;
      }
      // Beyond physical memory a read yields anything.
      var content: Frame := *;
      if p < |frames| {
        content := frames[p];
      }
      frames := frames[n := content];
      st := TakeFrame(s, n, content);
    }

    /** MmpReleasePage */
    method Release(p: nat)
      requires Represents()
      modifies this`st, pages`taken, pages.bitmap, pages.refs
      ensures Represents()
      ensures st == old(st).(refs := Released(old(st).refs, p), taken := ReleasedTaken(old(st).refs, old(st).taken, p))
    {
      st := st.(refs := Released(st.refs, p), taken := ReleasedTaken(st.refs, st.taken, p));
      pages.Release(p);
    }

    /** MmFreePage, on a frame somebody counts. */
    method Free(p: nat)
      requires Represents() && p < MAX_TRACKED && st.refs[p] > 0
      modifies this`st, pages`taken, pages.bitmap, pages.refs
      ensures Represents() && st == old(st).(refs := old(st).refs[p := 0], taken := old(st).taken[p := false])
    {
      assert p * PAGE_SIZE / PAGE_SIZE == p && p * PAGE_SIZE % PAGE_SIZE == 0;
      var status := pages.Free(p * PAGE_SIZE);
      st := st.(refs := st.refs[p := 0], taken := st.taken[p := false]);
    }

    /** MmpRetainPage */
    method Retain(p: nat)
      requires Valid()
      modifies this`st, pages.refs
      ensures Represents()
      ensures st == if p < MAX_TRACKED && old(st.refs[p]) > 0
                then old(st).(refs := old(st).refs[p := old(st.refs[p]) + 1]) else old(st)
    {
      if p < MAX_TRACKED && pages.refs[p] > 0 {
        st := st.(refs := st.refs[p := st.refs[p] + 1]);
      }
      pages.Retain(p);
    }

    /** The table part of MmCreateAddressSpace: a root with the kernel root's 512 entries. */
    method CloneKernelRoot(kernelRoot: nat) returns (status: KStatus, n: nat)
      requires Valid() && IsRoot(st.t, kernelRoot)
      modifies this, pages, pages.bitmap, pages.refs
      ensures Valid() && Grown(old(st), st)
      ensures status == Success || status == InitFailed
      ensures status == InitFailed ==> Exhausted()
      ensures status == Success ==> IsRoot(st.t, n) && n !in old(st.t) && st.made == old(st.made) + {n}
      ensures status != Success ==> st == old(st)
      ensures status == Success ==> SamePages(old(st.m), kernelRoot, st.m, n)
    {
      ghost var s := st;
      status, n := AllocTable();
      if status != Success {
        GrownReflexive(s);
        return;
      }
      CloneRootGrown(s, kernelRoot, n);
      frames := frames[n := frames[kernelRoot]];
      st := CloneRoot(s, kernelRoot, n);
    }
  }
}
