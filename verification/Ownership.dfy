/** Who holds a frame: the state of the page tables together with the frame counts. */
module Ownership {
  import opened Machine
  import opened Bits
  import opened PageFormat
  import opened PageTables
  import opened Status

  /** Physical memory, the tables in it, those of them the kernel allocated, the reference count and bitmap
      bit of every frame there can be, and how many of them the allocator tracks. */
  datatype MapState = MapState(m: Memory, t: Tables, made: set<nat>, refs: seq<nat>, taken: seq<bool>, tracked: nat)

  /** The tracked frames that are free. */
  ghost function FreeFrames(s: MapState): (r: set<nat>) { set p | 0 <= p < s.tracked && p < |s.taken| && !s.taken[p] }

  /** No tracked frame is free. */
  predicate NoneFree(s: MapState) {
    forall p | 0 <= p < s.tracked && p < |s.taken| :: s.taken[p]
  }

  /** The place lies in the user window, from 0x40000000 to the top of the lower half. */
  predicate UserPath(path: seq<nat>) {
    |path| >= 2 && path[0] < 256 && (path[0] != 0 || path[1] != 0)
  }

  /** The page of va is reached through slots of the user window; so is every page that shares its slots. */
  predicate UserPage(va: nat) { UserPath(Indexes(va)[..3]) }

  ghost predicate IsLarge(s: MapState, f: nat, i: nat)
    requires f < |s.m| && i < 512
  {
    s.m[f][i].present && s.m[f][i].large
  }

  ghost predicate Wf(s: MapState) {
    && Tree(s.m, s.t)
    && |s.refs| == MAX_TRACKED && |s.taken| == MAX_TRACKED
    && s.made <= s.t.Keys
    && s.taken[0] && s.refs[0] == 0
    && (forall f | f in s.t && f < MAX_TRACKED :: s.taken[f] && (f !in s.made ==> s.refs[f] == 0))
    && (forall f, i | f in s.t && |s.t[f]| < 3 && 0 <= i < 512 :: LargeAllowed(s.t[f], s.m[f][i]))
  }

  /** Large entries are 1 GiB or aligned 2 MiB ones, and no 2 MiB entry of the user window
      names a tracked frame. */
  predicate LargeAllowed(path: seq<nat>, w: Word) {
    w.present && w.large ==>
      && path != []
      && (|path| == 2 ==> Aligned2M(w) && (UserPath(path) ==> w.pfn >= MAX_TRACKED))
  }

  /** The user-window leaf slots that name frame p. */
  ghost function Slots(s: MapState, p: nat): (r: set<(nat, nat)>)
    requires Tree(s.m, s.t)
  {
    set f, i | f in s.t && 0 <= i < 512 && |s.t[f]| == 3 && UserPath(s.t[f])
               && s.m[f][i].present && s.m[f][i].pfn == p :: (f, i)
  }

  /** Every count is accounted for: user-window leaf slots, kernel-made tables, and
      `others`, the references held elsewhere. */
  ghost predicate Counted(s: MapState, others: seq<nat>)
    requires Wf(s)
  {
    && |others| == MAX_TRACKED
    && forall p {:trigger Slots(s, p)} | 0 <= p < MAX_TRACKED ::
         s.refs[p] == |Slots(s, p)| + (if p in s.made then 1 else 0) + others[p]
  }

  /** No upper entry withholds write access. */
  ghost predicate WritableLinks(s: MapState) { LinksWritable(s.m, s.t) }

  ghost predicate LinksWritable(m: Memory, t: Tables) {
    forall f, i | f in t && f < |m| && |t[f]| < 3 && 0 <= i < 512 && IsLink(m[f][i]) :: m[f][i].writable
  }

  /** Last-level entries are no links. */
  lemma LeafKeepsLinks(s1: MapState, s2: MapState, f: nat, i: nat)
    requires Tree(s1.m, s1.t) && s2.t == s1.t && f in s1.t && |s1.t[f]| == 3 && DiffersAt(s1.m, s2.m, s1.t, f, i)
    ensures WritableLinks(s1) ==> WritableLinks(s2)
  {
    forall g, k | g in s1.t && |s1.t[g]| < 3 && 0 <= k < 512 ensures s2.m[g][k] == s1.m[g][k] {
    }
  }

  /** What creating missing tables does. */
  ghost predicate Grown(s1: MapState, s2: MapState)
    requires Wf(s1) && Wf(s2)
  {
    && SameView(s1.m, s1.t, s2.m, s2.t)
    && (forall g | g in s1.t && |s1.t[g]| == 3 :: s2.m[g] == s1.m[g])
    && (forall g | 0 <= g < |s1.m| && g !in s2.t :: s2.m[g] == s1.m[g])
    && (forall g | g in s2.t && g !in s1.t ::
        g < MAX_TRACKED && g in s2.made && !s1.taken[g] && s1.refs[g] == 0 && s2.refs[g] == 1)
    && (forall g | g in s1.t :: g in s2.made <==> g in s1.made)
    && (forall p | 0 <= p < MAX_TRACKED && (p in s1.t || p !in s2.t) ::
        s2.refs[p] == s1.refs[p] && s2.taken[p] == s1.taken[p])
    && (WritableLinks(s1) ==> WritableLinks(s2))
    && (forall g, i | g in s2.t && g !in s1.t && |s2.t[g]| == 3 && UserPath(s2.t[g]) && 0 <= i < 512 &&
        s2.m[g][i].present ::
          s2.m[g][i].pfn >= MAX_TRACKED)
  }

  /** Frame n, taken from the allocator with count 1, becomes the table below slot i of f. */
  function AttachTable(s: MapState, f: nat, i: nat, n: nat, content: Frame, w: Word): (r: MapState)
    requires f in s.t && f < |s.m| && n < |s.m| && n < |s.refs| && n < |s.taken| && i < 512
  {
    s.(m := s.m[n := content][f := s.m[f][i := w]],
       t := s.t[n := s.t[f] + [i]],
       made := s.made + {n},
       refs := s.refs[n := 1],
       taken := s.taken[n := true])
  }

  lemma SanitizeGrown(s: MapState, f: nat, i: nat)
    requires Wf(s) && f in s.t && |s.t[f]| < 3 && i < 512 && IsLink(s.m[f][i])
    ensures var s2 := s.(m := s.m[f := s.m[f][i := s.m[f][i].(user := true, noExecute := false)]]);
            Wf(s2) && Grown(s, s2) && DiffersAt(s.m, s2.m, s.t, f, i)
  {
    SanitizedView(s.m, s.t, f, i);
  }

  /** What a frame may hold when it is attached: nothing, or last-level entries that name
      no tracked frame from the user window. */
  ghost predicate Attachable(s: MapState, f: nat, i: nat, n: nat, content: Frame, w: Word)
    requires f in s.t
  {
    && |s.t[f]| < 3 && i < 512 && f < |s.m| && n < |s.m| && n < MAX_TRACKED && n !in s.t
    && |s.refs| == |s.taken| == MAX_TRACKED && !s.taken[n] && s.refs[n] == 0
    && IsLink(w) && w.writable && w.pfn == n
    && (|s.t[f]| < 2 ==> IsEmptyTable(content))
    && (UserPath(s.t[f] + [i]) ==> forall k | 0 <= k < 512 && content[k].present :: content[k].pfn >= MAX_TRACKED)
  }

  lemma AttachWf(s: MapState, f: nat, i: nat, n: nat, content: Frame, w: Word)
    requires Wf(s) && f in s.t && Attachable(s, f, i, n, content, w)
    requires var s2 := AttachTable(s, f, i, n, content, w); Tree(s2.m, s2.t)
    ensures Wf(AttachTable(s, f, i, n, content, w))
  {
    var s2 := AttachTable(s, f, i, n, content, w);
    forall g, k | g in s2.t && |s2.t[g]| < 3 && 0 <= k < 512
      ensures LargeAllowed(s2.t[g], s2.m[g][k])
    {
      if g != n && !(g == f && k == i) {
        assert s2.m[g][k] == s.m[g][k];
      }
    }
  }

  lemma AttachLinks(s: MapState, f: nat, i: nat, n: nat, content: Frame, w: Word)
    requires Wf(s) && f in s.t && Attachable(s, f, i, n, content, w) && WritableLinks(s)
    requires var s2 := AttachTable(s, f, i, n, content, w); Tree(s2.m, s2.t)
    ensures WritableLinks(AttachTable(s, f, i, n, content, w))
  {
    var s2 := AttachTable(s, f, i, n, content, w);
    forall g, k | g in s2.t && |s2.t[g]| < 3 && 0 <= k < 512 && IsLink(s2.m[g][k]) ensures s2.m[g][k].writable {
      if g != n && !(g == f && k == i) {
        assert s2.m[g][k] == s.m[g][k];
      }
    }
  }

  lemma AttachGrown(s: MapState, f: nat, i: nat, n: nat, content: Frame, w: Word)
    requires Wf(s) && f in s.t && Attachable(s, f, i, n, content, w)
    requires var s2 := AttachTable(s, f, i, n, content, w); Tree(s2.m, s2.t) && SameView(s.m, s.t, s2.m, s2.t)
    ensures var s2 := AttachTable(s, f, i, n, content, w); Wf(s2) && Grown(s, s2)
  {
    AttachWf(s, f, i, n, content, w);
    if WritableLinks(s) {
      AttachLinks(s, f, i, n, content, w);
    }
  }

  lemma EmptyTableGrown(s: MapState, f: nat, i: nat, n: nat, content: Frame, w: Word)
    requires Wf(s) && f in s.t && Attachable(s, f, i, n, content, w) && !s.m[f][i].present && IsEmptyTable(content)
    ensures var s2 := AttachTable(s, f, i, n, content, w); Wf(s2) && Grown(s, s2)
  {
    var s2 := AttachTable(s, f, i, n, content, w);
    EmptyTableView(s.m, s.t, s2.m, s2.t, f, i, n, w);
    AttachGrown(s, f, i, n, content, w);
  }

  lemma SplitGrown(s: MapState, f: nat, i: nat, n: nat, content: Frame, w: Word)
    requires Wf(s) && f in s.t && |s.t[f]| == 2 && i < 512 && IsLarge(s, f, i) && IsSplitOf(content, s.m[f][i])
    requires n < |s.m| && n < MAX_TRACKED && !s.taken[n] && s.refs[n] == 0
    requires IsLink(w) && w.writable && w.pfn == n
    ensures var s2 := AttachTable(s, f, i, n, content, w); Wf(s2) && Grown(s, s2)
  {
    var s2 := AttachTable(s, f, i, n, content, w);
    SplitView(s.m, s.t, s2.m, s2.t, f, i, n, w);
    AttachGrown(s, f, i, n, content, w);
  }

  lemma GrownReflexive(s: MapState)
    requires Wf(s)
    ensures Grown(s, s)
  {
  }

  lemma SameTables(s1: MapState, s2: MapState)
    requires Wf(s1) && Wf(s2) && Grown(s1, s2)
    ensures forall g | g in s1.t :: g in s2.t && s2.t[g] == s1.t[g]
  {
  }

  lemma GrownTransitive(s1: MapState, s2: MapState, s3: MapState)
    requires Wf(s1) && Wf(s2) && Wf(s3) && Grown(s1, s2) && Grown(s2, s3)
    ensures Grown(s1, s3)
  {
    SameViewTransitive(s1.m, s1.t, s2.m, s2.t, s3.m, s3.t);
  }

  lemma GrownSlots(s1: MapState, s2: MapState, p: nat)
    requires Wf(s1) && Wf(s2) && Grown(s1, s2) && p < MAX_TRACKED
    ensures Slots(s2, p) == Slots(s1, p)
  {
  }

  /** Table creation keeps the account. */
  lemma GrownCounted(s1: MapState, s2: MapState, others: seq<nat>)
    requires Wf(s1) && Wf(s2) && Grown(s1, s2) && Counted(s1, others)
    ensures Counted(s2, others)
  {
    forall p | 0 <= p < MAX_TRACKED
      ensures s2.refs[p] == |Slots(s2, p)| + (if p in s2.made then 1 else 0) + others[p]
    {
      GrownSlots(s1, s2, p);
    }
  }

  function Released(refs: seq<nat>, p: nat): (r: seq<nat>) {
    if p < |refs| && refs[p] != 0 then refs[p := refs[p] - 1] else refs
  }

  function ReleasedTaken(refs: seq<nat>, taken: seq<bool>, p: nat): (r: seq<bool>)
    requires |refs| == |taken|
  {
    if p < |refs| && refs[p] == 1 then taken[p := false] else taken
  }

  /** The state after slot i of last-level table f is overwritten and what it named released. */
  function Overwritten(s: MapState, f: nat, i: nat, w: Word): (r: MapState)
    requires f < |s.m| && i < 512 && |s.refs| == |s.taken|
  {
    var old_ := s.m[f][i];
    s.(m := s.m[f := s.m[f][i := w]],
       refs := if old_.present then Released(s.refs, old_.pfn) else s.refs,
       taken := if old_.present then ReleasedTaken(s.refs, s.taken, old_.pfn) else s.taken)
  }

  predicate Names(w: Word, p: nat) { w.present && w.pfn == p }

  lemma SlotsAfterWrite(s: MapState, f: nat, i: nat, w: Word, p: nat)
    requires Wf(s) && f in s.t && |s.t[f]| == 3 && UserPath(s.t[f]) && i < 512
    requires Tree(Overwritten(s, f, i, w).m, s.t)
    ensures |Slots(Overwritten(s, f, i, w), p)|
         == |Slots(s, p)| - (if Names(s.m[f][i], p) then 1 else 0) + (if Names(w, p) then 1 else 0)
  {
    var s2 := Overwritten(s, f, i, w);
    var rest := Slots(s, p) - {(f, i)};
    SlotsElsewhere(s, s2, f, i, p);
    assert (f, i) in Slots(s, p) <==> Names(s.m[f][i], p);
    assert (f, i) in Slots(s2, p) <==> Names(w, p) by { assert s2.m[f][i] == w; }
    assert Slots(s, p) == if Names(s.m[f][i], p) then rest + {(f, i)} else rest;
    assert Slots(s2, p) == if Names(w, p) then rest + {(f, i)} else rest;
  }

  lemma SlotsElsewhere(s: MapState, s2: MapState, f: nat, i: nat, p: nat)
    requires Tree(s.m, s.t) && Tree(s2.m, s2.t) && s2.t == s.t && DiffersAt(s.m, s2.m, s.t, f, i)
    ensures Slots(s2, p) - {(f, i)} == Slots(s, p) - {(f, i)}
  {
    forall g, k | g in s.t && 0 <= k < 512 && (g, k) != (f, i)
      ensures (g, k) in Slots(s2, p) <==> (g, k) in Slots(s, p)
    {
      assert s2.m[g][k] == s.m[g][k];
    }
  }

  /** The reference handed over with the frame a new leaf names. */
  function HandedOver(others: seq<nat>, w: Word): (r: seq<nat>)
    requires w.present && w.pfn < |others| ==> others[w.pfn] > 0
  {
    if w.present && w.pfn < |others| then others[w.pfn := others[w.pfn] - 1] else others
  }

  lemma OverwriteWf(s: MapState, f: nat, i: nat, w: Word, others: seq<nat>)
    requires Wf(s) && Counted(s, others) && f in s.t && |s.t[f]| == 3 && UserPath(s.t[f]) && i < 512
    ensures var s2 := Overwritten(s, f, i, w); Wf(s2) && (WritableLinks(s) ==> WritableLinks(s2))
  {
    var old_ := s.m[f][i];
    if old_.present && old_.pfn < MAX_TRACKED {
      assert (f, i) in Slots(s, old_.pfn);
    }
  }

  lemma OverwriteGained(s: MapState, f: nat, i: nat, w: Word)
    requires Wf(s) && f in s.t && |s.t[f]| == 3 && UserPath(s.t[f]) && i < 512 && Tree(Overwritten(s, f, i, w).m, s.t)
    ensures SlotsGainedBy(s, Overwritten(s, f, i, w), w.pfn)
  {
    var s2 := Overwritten(s, f, i, w);
    forall p | 0 <= p < MAX_TRACKED && p != w.pfn ensures Slots(s2, p) <= Slots(s, p) {
      SlotsElsewhere(s, s2, f, i, p);
      assert (f, i) !in Slots(s2, p) by { assert s2.m[f][i] == w; }
    }
    SlotsAfterWrite(s, f, i, w, w.pfn);
  }

  /** Overwriting a user-window leaf slot, with a frame whose reference is handed over,
      keeps the account, and no table loses its frame. */
  lemma OverwriteCounted(s: MapState, f: nat, i: nat, w: Word, others: seq<nat>)
    requires Wf(s) && Counted(s, others) && f in s.t && |s.t[f]| == 3 && UserPath(s.t[f]) && i < 512
    requires w.present && w.pfn < MAX_TRACKED ==> others[w.pfn] > 0
    ensures var s2 := Overwritten(s, f, i, w);
            Wf(s2) && Counted(s2, HandedOver(others, w)) && SlotsGainedBy(s, s2, w.pfn)
            && (WritableLinks(s) ==> WritableLinks(s2))
  {
    OverwriteWf(s, f, i, w, others);
    OverwriteGained(s, f, i, w);
    var s2 := Overwritten(s, f, i, w);
    SlotsAfterWrite(s, f, i, w, s.m[f][i].pfn);
    forall p | 0 <= p < MAX_TRACKED
      ensures s2.refs[p] == |Slots(s2, p)| + (if p in s2.made then 1 else 0) + HandedOver(others, w)[p]
    {
      SlotsAfterWrite(s, f, i, w, p);
    }
  }

  lemma MappedAfterGrowth(s1: MapState, s2: MapState, m3: Memory, root: nat, ix: seq<nat>, w: Word)
    requires Wf(s1) && Wf(s2) && Grown(s1, s2) && IsIndexes(ix) && MappedAs(s2.m, s2.t, m3, root, ix, w)
    ensures MappedAs(s1.m, s1.t, m3, root, ix, w)
  {
    forall g, jx | g in s1.t && IsIndexes(jx) && jx != ix && |s1.t[g]| <= 3 && jx[..|s1.t[g]|] == s1.t[g]
      ensures Translate(m3, g, |s1.t[g]|, jx) == Translate(s1.m, g, |s1.t[g]|, jx)
    {
      assert s2.t[g] == s1.t[g];
      assert Translate(s2.m, g, |s1.t[g]|, jx) == Translate(s1.m, g, |s1.t[g]|, jx);
    }
  }

  /** The same slots name the same frames, and nothing else of the account has changed. */
  ghost predicate SameAccount(s1: MapState, s2: MapState)
    requires Wf(s1) && Wf(s2)
  {
    && s2.t == s1.t && s2.made == s1.made && s2.refs == s1.refs && s2.taken == s1.taken
    && (forall p: nat :: Slots(s2, p) == Slots(s1, p))
    && (WritableLinks(s1) ==> WritableLinks(s2))
  }

  lemma ReprotectAccount(s1: MapState, s2: MapState, f: nat, i: nat)
    requires Wf(s1) && Tree(s2.m, s1.t) && s2 == s1.(m := s2.m)
    requires f in s1.t && |s1.t[f]| == 3 && i < 512 && DiffersAt(s1.m, s2.m, s1.t, f, i)
    requires s1.m[f][i].present && s2.m[f][i].present
    ensures Wf(s2)
    ensures SameAccount(s1, s2) <==> s2.m[f][i].pfn == s1.m[f][i].pfn || !UserPath(s1.t[f])
  {
    if s2.m[f][i].pfn == s1.m[f][i].pfn || !UserPath(s1.t[f]) {
      forall p: nat ensures Slots(s2, p) == Slots(s1, p) {
        SlotsElsewhere(s1, s2, f, i, p);
        assert (f, i) in Slots(s2, p) <==> (f, i) in Slots(s1, p);
        assert Slots(s2, p) == Slots(s1, p);
      }
    } else {
      assert (f, i) in Slots(s1, s1.m[f][i].pfn) && (f, i) !in Slots(s2, s1.m[f][i].pfn);
    }
  }

  /** Only frame p0 may have gained a user-window slot, and no more than one. */
  ghost predicate SlotsGainedBy(s1: MapState, s2: MapState, p0: nat)
    requires Tree(s1.m, s1.t) && Tree(s2.m, s2.t)
  {
    && (forall p | 0 <= p < MAX_TRACKED && p != p0 :: Slots(s2, p) <= Slots(s1, p))
    && (p0 < MAX_TRACKED ==> |Slots(s2, p0)| <= |Slots(s1, p0)| + 1)
  }

  /** Allocated frames that are no table keep their contents and become no table. */
  ghost predicate DataKept(s1: MapState, s2: MapState) {
    && |s2.m| == |s1.m|
    && forall g | 0 <= g < |s1.m| && g !in s1.t && (g < |s1.taken| ==> s1.taken[g]) :: g !in s2.t && s2.m[g] == s1.m[g]
  }

  /** Only frames nobody counted have become tables. */
  ghost predicate NewTablesUncounted(s1: MapState, s2: MapState) {
    forall p | p in s2.made && p !in s1.made :: p < |s1.refs| && s1.refs[p] == 0
  }

  lemma GrownGainsNothing(s1: MapState, s2: MapState)
    requires Wf(s1) && Wf(s2) && Grown(s1, s2)
    ensures SlotsGainedBy(s1, s2, MAX_TRACKED) && DataKept(s1, s2) && NewTablesUncounted(s1, s2)
  {
    forall p | 0 <= p < MAX_TRACKED ensures Slots(s2, p) == Slots(s1, p) {
      GrownSlots(s1, s2, p);
    }
  }

  lemma GrownSlotsGained(s1: MapState, s2: MapState, s3: MapState, p0: nat)
    requires Wf(s1) && Wf(s2) && Grown(s1, s2) && Tree(s3.m, s3.t) && SlotsGainedBy(s2, s3, p0)
    ensures SlotsGainedBy(s1, s3, p0)
  {
    forall p | 0 <= p < MAX_TRACKED ensures Slots(s2, p) == Slots(s1, p) {
      GrownSlots(s1, s2, p);
    }
  }

  /** Reprotecting a leaf: no other page changes, and the account is kept when the frame is. */
  lemma ProtectLeaf(s: MapState, root: nat, ix: seq<nat>, f: nat, flags: Word)
    requires Wf(s) && IsRoot(s.t, root) && IsIndexes(ix) && TableAt(s.m, root, ix, 3) == Some(f)
    requires f in s.t && f < |s.m| && s.m[f][ix[3]].present
    ensures var e := s.m[f][ix[3]];
            var s2 := s.(m := s.m[f := s.m[f][ix[3] := ProtectWord(e, flags)]]);
            && Tree(s2.m, s2.t)
            && MappedAs(s.m, s.t, s2.m, root, ix, ProtectWord(e, flags)) && AliasesFollow(s.m, s.t, s2.m, root, ix)
            && PathOpen(s2.m, root, ix, 3) == PathOpen(s.m, root, ix, 3)
            && Wf(s2) && (SameAccount(s, s2) <==> BitsWithin(flags.pfn, e.pfn) || !UserPath(ix[..3]))
  {
    var e := s.m[f][ix[3]];
    var s2 := s.(m := s.m[f := s.m[f][ix[3] := ProtectWord(e, flags)]]);
    LeafWritten(s.m, s.t, root, ix, f, ProtectWord(e, flags));
    FlagsKeepFrame(0, e, flags);
    ReprotectAccount(s, s2, f, ix[3]);
  }

  lemma SameAccountCounted(s1: MapState, s2: MapState, others: seq<nat>)
    requires Wf(s1) && Wf(s2) && SameAccount(s1, s2) && Counted(s1, others)
    ensures Counted(s2, others)
  {
  }

  // The effect of the page operations, as relations on states.

  /** The present last-level entry of the walk of ix. */
  function LeafEntry(m: Memory, root: nat, ix: seq<nat>): (r: Option<Word>)
    requires IsIndexes(ix)
  {
    match TableAt(m, root, ix, 3)
    case None => None
    case Some(f) => if f < |m| && m[f][ix[3]].present then Some(m[f][ix[3]]) else None
  }

  /** Missing tables are created and the leaf of va is overwritten with w. */
  ghost predicate Remapped(s1: MapState, s3: MapState, root: nat, va: nat, w: Word) {
    exists s2: MapState, table: nat :: RemappedVia(s1, s3, root, va, w, s2, table)
  }

  ghost predicate RemappedVia(s1: MapState, s3: MapState, root: nat, va: nat, w: Word, s2: MapState, table: nat) {
    && Wf(s1) && Wf(s2) && Grown(s1, s2) && WalksKept(s1.m, s1.t, s2.m) && IsRoot(s1.t, root) && IsRoot(s2.t, root)
    && TableAt(s2.m, root, Indexes(va), 3) == Some(table) && table < |s2.m|
    && (IsUserAddress(va) ==> PathOpen(s2.m, root, Indexes(va), 3))
    && s3 == Overwritten(s2, table, Indexes(va)[3], w)
  }

  /** The leaf of ix is overwritten with w and what it named released. */
  ghost predicate Rewritten(s1: MapState, s2: MapState, root: nat, ix: seq<nat>, w: Word)
    requires IsIndexes(ix)
  {
    && Wf(s1) && IsRoot(s1.t, root)
    && match TableAt(s1.m, root, ix, 3)
       case None => false
       case Some(f) => f < |s1.m| && s2 == Overwritten(s1, f, ix[3], w)
  }

  /** The leaf of ix keeps its frame bits under the new flags; nothing is released. */
  ghost predicate Reprotected(s1: MapState, s2: MapState, root: nat, ix: seq<nat>, flags: Word)
    requires IsIndexes(ix)
  {
    && Wf(s1) && IsRoot(s1.t, root)
    && match TableAt(s1.m, root, ix, 3)
       case None => false
       case Some(f) =>
         f < |s1.m| && s1.m[f][ix[3]].present
         && s2 == s1.(m := s1.m[f := s1.m[f][ix[3] := ProtectWord(s1.m[f][ix[3]], flags)]])
  }

  /** Overwriting a leaf changes exactly its page. */
  lemma RewriteEffect(s1: MapState, s2: MapState, root: nat, ix: seq<nat>, w: Word)
    requires IsIndexes(ix) && Rewritten(s1, s2, root, ix, w)
    ensures Tree(s2.m, s2.t) && MappedAs(s1.m, s1.t, s2.m, root, ix, w)
    ensures PathOpen(s2.m, root, ix, 3) == PathOpen(s1.m, root, ix, 3) && DataKept(s1, s2)
    ensures AliasesFollow(s1.m, s1.t, s2.m, root, ix) && (WritableLinks(s1) ==> WritableLinks(s2))
  {
    hide WritableLinks;
    LeafWritten(s1.m, s1.t, root, ix, TableAt(s1.m, root, ix, 3).value, w);
    LeafKeepsLinks(s1, s2, TableAt(s1.m, root, ix, 3).value, ix[3]);
  }

  /** ... and keeps the account, when the page is in the user window and the frame it now
      names is handed over. */
  lemma RewriteAccount(s1: MapState, s2: MapState, root: nat, va: nat, w: Word, others: seq<nat>)
    requires Rewritten(s1, s2, root, Indexes(va), w) && Counted(s1, others) && UserPage(va)
    requires w.present && w.pfn < MAX_TRACKED ==> others[w.pfn] > 0
    ensures Wf(s2) && Counted(s2, HandedOver(others, w)) && SlotsGainedBy(s1, s2, w.pfn)
    ensures WritableLinks(s1) ==> WritableLinks(s2)
  {
    var ix := Indexes(va);
    TableAtTyped(s1.m, s1.t, root, ix, 3);
    OverwriteCounted(s1, TableAt(s1.m, root, ix, 3).value, ix[3], w, others);
  }

  lemma AliasesAfterGrowth(s1: MapState, s2: MapState, m3: Memory, root: nat, ix: seq<nat>)
    requires Wf(s1) && Wf(s2) && Grown(s1, s2) && WalksKept(s1.m, s1.t, s2.m) && IsIndexes(ix) && IsRoot(s1.t, root)
    requires AliasesFollow(s2.m, s2.t, m3, root, ix)
    ensures AliasesFollow(s1.m, s1.t, m3, root, ix)
  {
    hide WritableLinks;
    forall g | g in s1.t && |s1.t[g]| <= 3 && ix[..|s1.t[g]|] == s1.t[g]
      ensures Translate(m3, g, |s1.t[g]|, ix) == Translate(s1.m, g, |s1.t[g]|, ix) ||
              Translate(m3, g, |s1.t[g]|, ix) == Translate(m3, root, 0, ix)
    {
      assert s2.t[g] == s1.t[g];
      assert Translate(s2.m, g, |s1.t[g]|, ix) == Translate(s1.m, g, |s1.t[g]|, ix);
    }
    forall g, k | IsRoot(s1.t, g) && 1 <= k <= 3 && ShareTable(s1.m, g, root, ix, k)
      ensures Translate(m3, g, 0, ix) == Translate(m3, root, 0, ix)
    {
      assert IsRoot(s2.t, g) && ShareTable(s2.m, g, root, ix, k);
    }
  }

  /** A successful map: the named page is mapped as asked, every other page of every address space keeps
      its translation, and the same page of another one may only follow it; allocated data is untouched. */
  lemma MapEffect(s1: MapState, s3: MapState, root: nat, va: nat, w: Word)
    requires Remapped(s1, s3, root, va, w)
    ensures Tree(s3.m, s3.t) && IsRoot(s3.t, root) && MappedAs(s1.m, s1.t, s3.m, root, Indexes(va), w)
    ensures forall g | g in s1.t :: g in s3.t && s3.t[g] == s1.t[g]
    ensures IsUserAddress(va) ==> PathOpen(s3.m, root, Indexes(va), 3)
    ensures DataKept(s1, s3) && AliasesFollow(s1.m, s1.t, s3.m, root, Indexes(va))
  {
    var s2: MapState, table: nat :| RemappedVia(s1, s3, root, va, w, s2, table);
    RewriteEffect(s2, s3, root, Indexes(va), w);
    MappedAfterGrowth(s1, s2, s3.m, root, Indexes(va), w);
    AliasesAfterGrowth(s1, s2, s3.m, root, Indexes(va));
    GrownGainsNothing(s1, s2);
    DataKeptTransitive(s1, s2, s3);
  }

  /** The walks, and what is open to user code, stay. */
  lemma MapKeepsWalks(s1: MapState, s3: MapState, root: nat, va: nat, w: Word)
    requires Remapped(s1, s3, root, va, w)
    ensures WalksKept(s1.m, s1.t, s3.m)
  {
    hide WritableLinks, Indexes, Slots, Translate;
    var s2, f := MapParts(s1, s3, root, va, w);
    forall g, ix, level | IsRoot(s2.t, g) && IsIndexes(ix) && 0 <= level <= 3 && TableAt(s2.m, g, ix, level).Some?
      ensures TableAt(s3.m, g, ix, level) == TableAt(s2.m, g, ix, level)
      ensures PathOpen(s3.m, g, ix, level) == PathOpen(s2.m, g, ix, level)
    {
      AboveUnchanged(s2.m, s3.m, s2.t, f, Indexes(va)[3], g, ix, level);
    }
    WalksKeptTransitive(s1.m, s1.t, s2.m, s2.t, s3.m);
  }

  /** Every page that translates goes on doing so, to the same frame with the same rights. */
  ghost predicate PagesKept(s1: MapState, s2: MapState) {
    && (forall g | g in s1.t :: g in s2.t && s2.t[g] == s1.t[g])
    && forall g, jx | g in s1.t && IsIndexes(jx) && |s1.t[g]| <= 3 && jx[..|s1.t[g]|] == s1.t[g] &&
        Translate(s1.m, g, |s1.t[g]|, jx).Some? ::
         Translate(s2.m, g, |s1.t[g]|, jx) == Translate(s1.m, g, |s1.t[g]|, jx)
  }

  /** A map taken apart: the growth of tables, and the slot that is overwritten. */
  lemma MapParts(s1: MapState, s3: MapState, root: nat, va: nat, w: Word) returns (s2: MapState, table: nat)
    requires Remapped(s1, s3, root, va, w)
    ensures RemappedVia(s1, s3, root, va, w, s2, table)
    ensures Wf(s1) && Wf(s2) && Grown(s1, s2) && IsRoot(s1.t, root) && s3.t == s2.t && s3.made == s2.made &&
              |s3.m| == |s2.m| == |s1.m|
    ensures table in s2.t && s2.t[table] == Indexes(va)[..3] && table < |s2.m| &&
              Indexes(va) == Indexes(va)[..3] + [Indexes(va)[3]]
    ensures DiffersAt(s2.m, s3.m, s2.t, table, Indexes(va)[3])
    ensures Translate(s2.m, root, 0, Indexes(va)) == Translate(s1.m, root, 0, Indexes(va))
    ensures Translate(s2.m, root, 0, Indexes(va)).Some? <==> s2.m[table][Indexes(va)[3]].present
    ensures var e := s2.m[table][Indexes(va)[3]]; e.present ==>
              Translate(s2.m, root, 0, Indexes(va)) == Some(LeafOf(e, e.pfn))
    ensures WalksKept(s1.m, s1.t, s2.m) && forall g | g in s1.t :: g in s2.t && s2.t[g] == s1.t[g]
  {
    hide WritableLinks;
    s2, table :| RemappedVia(s1, s3, root, va, w, s2, table);
    var ix := Indexes(va);
    TableAtTyped(s2.m, s2.t, root, ix, 3);
    TranslateFromTable(s2.m, root, ix, 3);
    assert ix[..0] == s1.t[root];
    assert Translate(s2.m, root, |s1.t[root]|, ix) == Translate(s1.m, root, |s1.t[root]|, ix);
  }

  lemma GrownPages(s1: MapState, s2: MapState)
    requires Wf(s1) && Wf(s2) && Grown(s1, s2)
    ensures PagesKept(s1, s2) && Tree(s2.m, s2.t) && (WritableLinks(s1) ==> WritableLinks(s2))
  {
  }

  lemma PagesKeptTransitive(s1: MapState, s2: MapState, s3: MapState)
    requires PagesKept(s1, s2) && PagesKept(s2, s3)
    ensures PagesKept(s1, s3)
  {
    forall g, jx | g in s1.t && IsIndexes(jx) && |s1.t[g]| <= 3 && jx[..|s1.t[g]|] == s1.t[g] &&
        Translate(s1.m, g, |s1.t[g]|, jx).Some?
      ensures Translate(s3.m, g, |s1.t[g]|, jx) == Translate(s1.m, g, |s1.t[g]|, jx)
    {
      assert s2.t[g] == s1.t[g] && Translate(s2.m, g, |s2.t[g]|, jx) == Translate(s1.m, g, |s1.t[g]|, jx);
    }
  }

  /** Mapping an absent page takes no page away, in any address space, whatever tables it shares. */
  lemma MapKeepsPages(s1: MapState, s3: MapState, root: nat, va: nat, w: Word)
    requires Remapped(s1, s3, root, va, w) && Translate(s1.m, root, 0, Indexes(va)) == None
    ensures PagesKept(s1, s3)
  {
    hide Wf, Grown, Translate, Remapped, RemappedVia, DiffersAt, Tree;
    var s2, table := MapParts(s1, s3, root, va, w);
    GrownPages(s1, s2);
    forall g, jx | g in s2.t && IsIndexes(jx) && |s2.t[g]| <= 3 && jx[..|s2.t[g]|] == s2.t[g] &&
        Translate(s2.m, g, |s2.t[g]|, jx).Some?
      ensures Translate(s3.m, g, |s2.t[g]|, jx) == Translate(s2.m, g, |s2.t[g]|, jx)
    {
      AbsentUnseen(s2.m, s3.m, s2.t, table, Indexes(va)[3], g, jx);
    }
    PagesKeptTransitive(s1, s2, s3);
  }

  /** Mapping leaves the upper entries as writable as they were. */
  lemma MapKeepsLinks(s1: MapState, s3: MapState, root: nat, va: nat, w: Word)
    requires Remapped(s1, s3, root, va, w) && WritableLinks(s1)
    ensures WritableLinks(s3)
  {
    hide Wf, Grown, Translate, Remapped, RemappedVia;
    var s2, table := MapParts(s1, s3, root, va, w);
    GrownPages(s1, s2);
    forall f, i | f in s3.t && f < |s3.m| && |s3.t[f]| < 3 && 0 <= i < 512 && IsLink(s3.m[f][i])
      ensures s3.m[f][i].writable
    {
      assert s3.m[f][i] == s2.m[f][i];
    }
  }

  /** A slot of the user window whose frame is its own: cleared, counted once and no table. */
  ghost predicate OwnSlot(s: MapState, f: nat, i: nat, p: nat) {
    && f in s.t && |s.t[f]| == 3 && UserPath(s.t[f]) && f < |s.m| && i < 512 && Names(s.m[f][i], p)
    && p < MAX_TRACKED && p < |s.m| && p < |s.refs| && s.refs[p] == 1 && p !in s.t && IsEmptyTable(s.m[p])
  }

  lemma OwnSlotGrown(s1: MapState, s2: MapState, f: nat, i: nat, p: nat)
    requires Wf(s1) && Wf(s2) && Grown(s1, s2) && OwnSlot(s1, f, i, p) && s1.taken[p]
    ensures OwnSlot(s2, f, i, p) && s2.t[f] == s1.t[f] && s2.taken[p]
  {
    hide WritableLinks;
    assert s2.m[f] == s1.m[f];
    assert p !in s2.t;
  }

  lemma OwnSlotAfterMap(s1: MapState, s3: MapState, root: nat, va: nat, w: Word, others: seq<nat>, f: nat, i: nat,
      p: nat)
    requires Remapped(s1, s3, root, va, w) && Counted(s1, others) && Countable(s1, root, va)
    requires OwnSlot(s1, f, i, p) && s1.t[f] + [i] != Indexes(va) && p < |s1.taken| && s1.taken[p]
    ensures OwnSlot(s3, f, i, p) && s3.t[f] == s1.t[f] && p < |s3.taken| && s3.taken[p]
  {
    hide Wf, Grown, Translate, Remapped, OwnSlot;
    var s2, table := MapParts(s1, s3, root, va, w);
    OwnSlotGrown(s1, s2, f, i, p);
    GrownCounted(s1, s2, others);
    if !UserPage(va) { NothingReleased(s1, s2, root, va, s2.m[table][Indexes(va)[3]]); }
    OwnSlotAfterWrite(s2, table, Indexes(va)[3], w, others, f, i, p);
  }

  lemma OwnSlotAfterWrite(s: MapState, g: nat, k: nat, w: Word, others: seq<nat>, f: nat, i: nat, p: nat)
    requires Wf(s) && Counted(s, others) && OwnSlot(s, f, i, p) && s.taken[p]
    requires g in s.t && |s.t[g]| == 3 && k < 512 && s.t[f] + [i] != s.t[g] + [k]
    requires UserPath(s.t[g]) || NamesNothing(s, s.m[g][k])
    ensures var s2 := Overwritten(s, g, k, w); OwnSlot(s2, f, i, p) && p < |s2.taken| && s2.taken[p]
  {
    if Names(s.m[g][k], p) && UserPath(s.t[g]) {
      TwoSlots(s, others, f, i, g, k, p);
      assert false;
    }
  }

  /** A frame counted once has one slot at most. */
  lemma TwoSlots(s: MapState, others: seq<nat>, f: nat, i: nat, g: nat, k: nat, p: nat)
    requires Wf(s) && Counted(s, others) && OwnSlot(s, f, i, p)
    requires g in s.t && |s.t[g]| == 3 && UserPath(s.t[g]) && k < 512 && Names(s.m[g][k], p)
    ensures f == g && i == k
  {
    var rest := Slots(s, p) - {(f, i)};
    assert s.refs[p] >= |Slots(s, p)|;
    assert (f, i) in Slots(s, p) && (g, k) in Slots(s, p);
    assert Slots(s, p) == rest + {(f, i)};
    assert (g, k) !in rest;
  }

  lemma DataKeptTransitive(s1: MapState, s2: MapState, s3: MapState)
    requires Wf(s1) && Wf(s2) && Grown(s1, s2) && DataKept(s1, s2) && DataKept(s2, s3) && s3.made == s2.made
    ensures DataKept(s1, s3)
  {
  }

  /** Overwriting the page releases nothing that is counted: it is absent, or names a frame that is not
      tracked, or one that is allocated and that nobody counts. */
  predicate ReleasesNothing(s: MapState, root: nat, va: nat) {
    match Translate(s.m, root, 0, Indexes(va))
    case None => true
    case Some(leaf) => leaf.frame >= MAX_TRACKED || Idle(s, leaf.frame)
  }

  predicate Idle(s: MapState, p: nat) { p < |s.refs| && p < |s.taken| && s.refs[p] == 0 && s.taken[p] }

  /** The page is in the user window, or mapping it releases nothing that is counted. */
  predicate Countable(s: MapState, root: nat, va: nat) {
    UserPage(va) || ReleasesNothing(s, root, va)
  }

  /** The references held elsewhere after a map: a slot of the user window takes one over, any other
      slot holds it itself. */
  function AfterMap(others: seq<nat>, va: nat, w: Word): (r: seq<nat>)
    requires w.present && w.pfn < |others| ==> others[w.pfn] > 0
  {
    if UserPage(va) then HandedOver(others, w) else others
  }

  /** Mapping a page outside the user window changes no slot that is counted; if it releases nothing, the
      account stays. */
  lemma MapOutside(s1: MapState, s3: MapState, root: nat, va: nat, w: Word, others: seq<nat>)
    requires Remapped(s1, s3, root, va, w) && Counted(s1, others) && !UserPage(va) && ReleasesNothing(s1, root, va)
    ensures Wf(s3) && Counted(s3, others) && NewTablesUncounted(s1, s3)
    ensures forall p | 0 <= p < MAX_TRACKED :: Slots(s3, p) == Slots(s1, p)
  {
    hide Translate, Remapped, RemappedVia, WritableLinks;
    var s2, table := MapParts(s1, s3, root, va, w);
    GrownCounted(s1, s2, others);
    GrownGainsNothing(s1, s2);
    RewriteShape(s1, s2, s3, root, va, w, table);
    NothingReleased(s1, s2, root, va, s2.m[table][Indexes(va)[3]]);
    OutsideWrite(s2, table, Indexes(va)[3], w, others);
    forall p | 0 <= p < MAX_TRACKED ensures Slots(s3, p) == Slots(s1, p) {
      GrownSlots(s1, s2, p);
    }
  }

  /** Frames that are allocated and not counted are neither freed nor made tables. */
  lemma IdleGrown(s1: MapState, s2: MapState)
    requires Wf(s1) && Wf(s2) && Grown(s1, s2)
    ensures forall p | Idle(s1, p) :: Idle(s2, p)
  {
  }

  /** ... not by a map either. */
  lemma IdleAfterMap(s1: MapState, s3: MapState, root: nat, va: nat, w: Word)
    requires Remapped(s1, s3, root, va, w)
    ensures forall p | Idle(s1, p) :: Idle(s3, p)
  {
    hide Translate, Remapped, RemappedVia, WritableLinks;
    var s2, table := MapParts(s1, s3, root, va, w);
    RewriteShape(s1, s2, s3, root, va, w, table);
    IdleGrown(s1, s2);
  }

  lemma NothingReleased(s1: MapState, s2: MapState, root: nat, va: nat, e: Word)
    requires Wf(s1) && Wf(s2) && Grown(s1, s2) && ReleasesNothing(s1, root, va)
    requires Translate(s2.m, root, 0, Indexes(va)) == Translate(s1.m, root, 0, Indexes(va))
    requires e.present ==> Translate(s2.m, root, 0, Indexes(va)) == Some(LeafOf(e, e.pfn))
    ensures NamesNothing(s2, e)
  {
    hide Translate;
    IdleGrown(s1, s2);
  }

  /** The overwritten word names no counted frame. */
  predicate NamesNothing(s: MapState, w: Word) {
    !w.present || w.pfn >= |s.refs| || s.refs[w.pfn] == 0
  }

  /** Overwriting a last-level slot outside the user window keeps the account exactly when what it held names no
      counted frame; otherwise that frame is left with a reference too few. */
  lemma OutsideWrite(s: MapState, f: nat, i: nat, w: Word, others: seq<nat>)
    requires Wf(s) && Counted(s, others) && f in s.t && |s.t[f]| == 3 && !UserPath(s.t[f]) && i < 512
    requires Tree(Overwritten(s, f, i, w).m, s.t)
    ensures var s2 := Overwritten(s, f, i, w);
      && (NamesNothing(s, s.m[f][i]) <==> Wf(s2) && Counted(s2, others))
      && forall p | 0 <= p < MAX_TRACKED :: Slots(s2, p) == Slots(s, p)
  {
    var s2 := Overwritten(s, f, i, w);
    forall p | 0 <= p < MAX_TRACKED ensures Slots(s2, p) == Slots(s, p) {
      SlotsElsewhere(s, s2, f, i, p);
      assert (f, i) !in Slots(s, p) && (f, i) !in Slots(s2, p);
    }
    if !NamesNothing(s, s.m[f][i]) {
      var p := s.m[f][i].pfn;
      assert s.refs[p] == |Slots(s, p)| + (if p in s.made then 1 else 0) + others[p];
      assert s2.refs[p] + 1 == |Slots(s2, p)| + (if p in s2.made then 1 else 0) + others[p];
    }
  }

  lemma RewriteShape(s1: MapState, s2: MapState, s3: MapState, root: nat, va: nat, w: Word, table: nat)
    requires RemappedVia(s1, s3, root, va, w, s2, table)
    ensures s3 == Overwritten(s2, table, Indexes(va)[3], w) && Tree(s3.m, s2.t)
  {
    LeafWritten(s2.m, s2.t, root, Indexes(va), table, w);
  }

  /** A successful map of a frame whose reference is handed over keeps the account of every frame. */
  lemma MapAccount(s1: MapState, s3: MapState, root: nat, va: nat, w: Word, others: seq<nat>)
    requires Remapped(s1, s3, root, va, w) && Counted(s1, others) && Countable(s1, root, va)
    requires w.present && w.pfn < MAX_TRACKED ==> others[w.pfn] > 0
    ensures Wf(s3) && Counted(s3, AfterMap(others, va, w)) && SlotsGainedBy(s1, s3, w.pfn)
    ensures NewTablesUncounted(s1, s3)
    ensures WritableLinks(s1) ==> WritableLinks(s3)
  {
    if WritableLinks(s1) { MapKeepsLinks(s1, s3, root, va, w); }
    if UserPage(va) { MapInside(s1, s3, root, va, w, others); } else { MapOutside(s1, s3, root, va, w, others); }
  }

  lemma MapInside(s1: MapState, s3: MapState, root: nat, va: nat, w: Word, others: seq<nat>)
    requires Remapped(s1, s3, root, va, w) && Counted(s1, others) && UserPage(va)
    requires w.present && w.pfn < MAX_TRACKED ==> others[w.pfn] > 0
    ensures Wf(s3) && Counted(s3, HandedOver(others, w)) && SlotsGainedBy(s1, s3, w.pfn)
    ensures NewTablesUncounted(s1, s3)
  {
    var s2: MapState, table: nat :| RemappedVia(s1, s3, root, va, w, s2, table);
    GrownCounted(s1, s2, others);
    RewriteAccount(s2, s3, root, va, w, others);
    GrownSlotsGained(s1, s2, s3, w.pfn);
  }

  /** A protect changes the named page's bits only; the frame stays exactly when the flags
      carry no foreign address bit, and in the user window the account stays exactly then. */
  lemma ProtectEffect(s1: MapState, s2: MapState, root: nat, ix: seq<nat>, flags: Word)
    requires IsIndexes(ix) && Reprotected(s1, s2, root, ix, flags)
    ensures LeafEntry(s1.m, root, ix).Some?
    ensures var e := LeafEntry(s1.m, root, ix).value;
            && Tree(s2.m, s2.t)
            && MappedAs(s1.m, s1.t, s2.m, root, ix, ProtectWord(e, flags))
            && PathOpen(s2.m, root, ix, 3) == PathOpen(s1.m, root, ix, 3)
            && DataKept(s1, s2) && AliasesFollow(s1.m, s1.t, s2.m, root, ix)
            && (WritableLinks(s1) ==> WritableLinks(s2))
            && (ProtectWord(e, flags).pfn == e.pfn <==> BitsWithin(flags.pfn, e.pfn))
            && Wf(s2) && (SameAccount(s1, s2) <==> BitsWithin(flags.pfn, e.pfn) || !UserPath(ix[..3]))
  {
    var f := TableAt(s1.m, root, ix, 3).value;
    TableAtTyped(s1.m, s1.t, root, ix, 3);
    ProtectLeaf(s1, root, ix, f, flags);
    LeafKeepsLinks(s1, s2, f, ix[3]);
    FlagsKeepFrame(0, s1.m[f][ix[3]], flags);
  }

  /** The frame stays, or is not counted: the page is outside the user window, or its frame not tracked, as any
      that the flags turn it into. */
  predicate FrameKept(e: Word, flags: Word, va: nat) {
    BitsWithin(flags.pfn, e.pfn) || !UserPage(va) || e.pfn >= MAX_TRACKED
  }

  /** The counts stay right exactly then. */
  lemma ProtectCounted(s1: MapState, s2: MapState, root: nat, va: nat, flags: Word, others: seq<nat>)
    requires Reprotected(s1, s2, root, Indexes(va), flags) && Counted(s1, others)
    ensures LeafEntry(s1.m, root, Indexes(va)).Some? && Wf(s2)
    ensures Counted(s2, others) <==> FrameKept(LeafEntry(s1.m, root, Indexes(va)).value, flags, va)
    ensures Counted(s2, others) ==> SlotsGainedBy(s1, s2, MAX_TRACKED)
  {
    hide BitsWithin, Indexes, Counted, Slots, Tree, MappedAs, AliasesFollow, PathOpen, DataKept;
    var ix := Indexes(va);
    ProtectEffect(s1, s2, root, ix, flags);
    var f := TableAt(s1.m, root, ix, 3).value;
    TableAtTyped(s1.m, s1.t, root, ix, 3);
    OrAtLeast(s1.m[f][ix[3]].pfn, flags.pfn);
    if SameAccount(s1, s2) {
      SameAccountCounted(s1, s2, others);
    } else {
      FrameChanged(s1, s2, f, ix[3], others);
    }
  }

  /** A user-window slot that names a higher frame now. */
  lemma FrameChanged(s1: MapState, s2: MapState, f: nat, i: nat, others: seq<nat>)
    requires Wf(s1) && Wf(s2) && s2 == s1.(m := s2.m) && DiffersAt(s1.m, s2.m, s1.t, f, i) && Counted(s1, others)
    requires f in s1.t && |s1.t[f]| == 3 && UserPath(s1.t[f]) && i < 512
    requires s1.m[f][i].present && s2.m[f][i].present && s2.m[f][i].pfn > s1.m[f][i].pfn
    ensures Counted(s2, others) <==> s1.m[f][i].pfn >= MAX_TRACKED
    ensures Counted(s2, others) ==> SlotsGainedBy(s1, s2, MAX_TRACKED)
  {
    hide Slots, DiffersAt;
    var p := s1.m[f][i].pfn;
    if p < MAX_TRACKED {
      OtherSlots(s1, s2, f, i, p);
      assert s1.refs[p] == |Slots(s1, p)| + (if p in s1.made then 1 else 0) + others[p];
    } else {
      forall q | 0 <= q < MAX_TRACKED ensures Slots(s2, q) == Slots(s1, q) {
        OtherSlots(s1, s2, f, i, q);
      }
    }
  }

  /** A last-level slot that names another frame now. */
  lemma OtherSlots(s1: MapState, s2: MapState, f: nat, i: nat, p: nat)
    requires Tree(s1.m, s1.t) && Tree(s2.m, s2.t) && s2.t == s1.t && DiffersAt(s1.m, s2.m, s1.t, f, i)
    requires f in s1.t && |s1.t[f]| == 3 && UserPath(s1.t[f]) && i < 512
    requires s1.m[f][i].present && s2.m[f][i].present && s2.m[f][i].pfn != p
    ensures Slots(s2, p) == Slots(s1, p) - {(f, i)}
    ensures s1.m[f][i].pfn == p ==> |Slots(s2, p)| == |Slots(s1, p)| - 1
    ensures s1.m[f][i].pfn != p ==> Slots(s2, p) == Slots(s1, p)
  {
    SlotsElsewhere(s1, s2, f, i, p);
    assert (f, i) !in Slots(s2, p) && ((f, i) in Slots(s1, p) <==> s1.m[f][i].pfn == p);
  }

  /** The user window is the user paths of the walk. */
  lemma UserAddressPath(va: nat)
    requires IsUserAddress(va)
    ensures UserPath(Indexes(va)[..3]) && UserPage(va)
  {
    var page := va / PAGE_SIZE;
    assert 0x4_0000 <= page < 0x8_0000_0000;
    assert 1 <= page / 512 / 512 < 0x2_0000;
    assert page / 512 / 512 / 512 < 256;
  }

  /** A frame from the allocator, filled, with its one reference held by the caller. */
  function TakeFrame(s: MapState, n: nat, content: Frame): (r: MapState)
    requires n < |s.m| && n < |s.refs| && n < |s.taken|
  {
    s.(m := s.m[n := content], refs := s.refs[n := 1], taken := s.taken[n := true])
  }

  /** A new frame changes no page, no slot and no table. */
  lemma TakeFrameKeeps(s: MapState, n: nat, content: Frame)
    requires Wf(s) && n < |s.m| && n < MAX_TRACKED && !s.taken[n]
    ensures var s2 := TakeFrame(s, n, content);
            && Wf(s2) && SameView(s.m, s.t, s2.m, s2.t)
            && (forall p: nat :: Slots(s2, p) == Slots(s, p))
            && (WritableLinks(s) ==> WritableLinks(s2))
  {
    var s2 := TakeFrame(s, n, content);
    forall g, ix | g in s.t && IsIndexes(ix) && ix[..|s.t[g]|] == s.t[g]
      ensures Translate(s2.m, g, |s.t[g]|, ix) == Translate(s.m, g, |s.t[g]|, ix)
    {
      TablesUntouched(s.m, s2.m, s.t, g, ix);
    }
  }

  /** A frame the allocator hands out is mapped by no user-window slot, listed by nobody
      and no table; the account grows by the caller's reference. */
  lemma TakeFrameCounted(s: MapState, n: nat, content: Frame, others: seq<nat>)
    requires Wf(s) && n < |s.m| && n < MAX_TRACKED && !s.taken[n] && s.refs[n] == 0 && Counted(s, others)
    ensures n !in s.t && Slots(s, n) == {} && others[n] == 0
    ensures Wf(TakeFrame(s, n, content)) && Counted(TakeFrame(s, n, content), others[n := 1])
  {
    TakeFrameKeeps(s, n, content);
  }

  /** No frame has been taken but for tables, and none given back. */
  ghost predicate OnlyTables(s1: MapState, s2: MapState) {
    && |s1.taken| == |s2.taken| && s1.made <= s2.made
    && forall p | 0 <= p < |s1.taken| :: s2.taken[p] <==> s1.taken[p] || (p in s2.made && p !in s1.made)
  }

  lemma GrownTaken(s1: MapState, s2: MapState)
    requires Wf(s1) && Wf(s2) && Grown(s1, s2)
    ensures OnlyTables(s1, s2)
  {
  }

  lemma OnlyTablesTransitive(s1: MapState, s2: MapState, s3: MapState)
    requires OnlyTables(s1, s2) && OnlyTables(s2, s3)
    ensures OnlyTables(s1, s3)
  {
  }

  /** A frame taken is one free frame less. */
  lemma FrameLess(s: MapState, n: nat, content: Frame)
    requires n < |s.m| && n < |s.refs| && n < |s.taken| && n < s.tracked && !s.taken[n]
    ensures |FreeFrames(TakeFrame(s, n, content))| == |FreeFrames(s)| - 1
  {
    assert FreeFrames(TakeFrame(s, n, content)) == FreeFrames(s) - {n};
  }

  lemma NoFreeFrames(s: MapState)
    requires NoneFree(s)
    ensures FreeFrames(s) == {}
  {
  }

  /** A new root table. */
  function CloneRoot(s: MapState, root: nat, n: nat): (r: MapState)
    requires root < |s.m| && n < |s.m| && n < |s.refs| && n < |s.taken|
  {
    s.(m := s.m[n := s.m[root]], t := s.t[n := []], made := s.made + {n},
       refs := s.refs[n := 1], taken := s.taken[n := true])
  }

  lemma CloneRootGrown(s: MapState, root: nat, n: nat)
    requires Wf(s) && IsRoot(s.t, root) && n < |s.m| && n < MAX_TRACKED && !s.taken[n] && s.refs[n] == 0
    ensures var s2 := CloneRoot(s, root, n);
            && Wf(s2) && Grown(s, s2)
            && SamePages(s.m, root, s2.m, n)
  {
    var s2 := CloneRoot(s, root, n);
    CloneRootTree(s, root, n);
    forall g, ix | g in s.t && IsIndexes(ix) && ix[..|s.t[g]|] == s.t[g]
      ensures Translate(s2.m, g, |s.t[g]|, ix) == Translate(s.m, g, |s.t[g]|, ix)
    {
      TablesUntouched(s.m, s2.m, s.t, g, ix);
    }
    forall ix | IsIndexes(ix) ensures Translate(s2.m, n, 0, ix) == Translate(s.m, root, 0, ix) {
      ClonedRootTranslates(s.m, s2.m, s.t, root, n, ix);
    }
  }

  lemma CloneRootTree(s: MapState, root: nat, n: nat)
    requires Wf(s) && IsRoot(s.t, root) && n < |s.m| && n < MAX_TRACKED && !s.taken[n] && s.refs[n] == 0
    ensures Wf(CloneRoot(s, root, n))
    ensures WritableLinks(s) ==> WritableLinks(CloneRoot(s, root, n))
  {
    var s2 := CloneRoot(s, root, n);
    forall f, i | f in s2.t && |s2.t[f]| < 3 && 0 <= i < 512
      ensures LargeAllowed(s2.t[f], s2.m[f][i])
      ensures IsLink(s2.m[f][i]) ==> s2.m[f][i].pfn in s2.t && s2.t[s2.m[f][i].pfn] == s2.t[f] + [i]
      ensures IsLink(s2.m[f][i]) && WritableLinks(s) ==> s2.m[f][i].writable
    {
      var g := if f == n then root else f;
      assert s2.m[f][i] == s.m[g][i] && s2.t[f] == s.t[g];
    }
  }

  /** A frame taken from the allocator and mapped is the page's own: cleared, counted once
      and no table. */
  lemma OwnFrameMapped(s1: MapState, s2: MapState, root: nat, va: nat, w: Word, others: seq<nat>)
    requires Remapped(s1, s2, root, va, w) && w.present && w.pfn < MAX_TRACKED && w.pfn < |s1.m|
    requires Countable(s1, root, va)
    requires Counted(s1, others) && others[w.pfn] == 1 && s1.taken[w.pfn] && w.pfn !in s1.t && Slots(s1, w.pfn) == {}
    ensures |s2.m| == |s1.m| && w.pfn !in s2.t && s2.m[w.pfn] == s1.m[w.pfn] && s2.refs[w.pfn] == 1
  {
    MapEffect(s1, s2, root, va, w);
    MapAccount(s1, s2, root, va, w, others);
    if UserPage(va) {
      OwnFrameCount(s2, root, va, w, HandedOver(others, w));
    } else {
      MapOutside(s1, s2, root, va, w, others);
      assert Slots(s2, w.pfn) == {} && w.pfn !in s2.made;
    }
  }

  lemma OwnFrameCount(s: MapState, root: nat, va: nat, w: Word, others: seq<nat>)
    requires Wf(s) && Counted(s, others) && IsRoot(s.t, root) && SlotIs(s.m, root, Indexes(va), w)
    requires w.present && w.pfn < MAX_TRACKED && UserPage(va)
    requires others[w.pfn] == 0 && w.pfn !in s.made && |Slots(s, w.pfn)| <= 1
    ensures s.refs[w.pfn] == 1
  {
    TableAtTyped(s.m, s.t, root, Indexes(va), 3);
    var f := TableAt(s.m, root, Indexes(va), 3).value;
    assert (f, Indexes(va)[3]) in Slots(s, w.pfn);
  }
}
