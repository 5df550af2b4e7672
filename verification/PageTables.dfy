/** Four-level page tables in physical memory, as a walk over frames of 512 words
    (Intel SDM Vol. 3A, section 4.5). */
module PageTables {
  import opened PageFormat
  import opened Status

  type Frame = f: seq<Word> | |f| == 512 witness seq(512, _ => ZERO)
  type Memory = seq<Frame>

  predicate IsEmptyTable(table: Frame) {
    forall k | 0 <= k < 512 :: table[k] == ZERO
  }

  /** Where each table frame sits: the indexes of the walk that reaches it. */
  type Tables = map<nat, seq<nat>>

  function EmptyTable(): (table: Frame)
    ensures IsEmptyTable(table)
  {
    seq(512, _ => ZERO)
  }

  /** The entry the kernel writes to lead to the table in frame p. */
  function LinkTo(p: nat, user: bool): (w: Word) { PRESENT.(writable := true, user := user, pfn := p) }

  /** An entry of an upper table that points to a table of the next level. */
  predicate IsLink(w: Word) { w.present && !w.large }

  /** Every frame in t is a table at one place of the walk, and the entries above the
      last level point to the tables their place says. */
  ghost predicate Tree(m: Memory, t: Tables) {
    && (forall f | f in t :: f < |m| && |t[f]| <= 3)
    && (forall f, i | f in t && |t[f]| < 3 && 0 <= i < 512 && IsLink(m[f][i]) ::
          m[f][i].pfn in t && t[m[f][i].pfn] == t[f] + [i])
  }

  /** What a page translates to: the frame and the bits of the entry that maps it. */
  datatype Leaf = Leaf(frame: nat, writable: bool, user: bool, noExecute: bool)

  function LeafOf(w: Word, frame: nat): (r: Leaf) {
    Leaf(frame, w.writable, w.user, w.noExecute)
  }

  /** The walk from table f of the given level. */
  function Translate(m: Memory, f: nat, level: nat, ix: seq<nat>): (r: Option<Leaf>)
    requires level <= 3 && IsIndexes(ix)
    decreases 3 - level
  {
    if f >= |m| then None
    else
      var w := m[f][ix[level]];
      if !w.present then None
      else if level == 3 then Some(LeafOf(w, w.pfn))
      else if !w.large then Translate(m, w.pfn, level + 1, ix)
      else if level == 2 then Some(LeafOf(w, w.pfn / 512 * 512 + ix[3]))
      else if level == 1 then Some(LeafOf(w, w.pfn / 0x4_0000 * 0x4_0000 + ix[2] * 512 + ix[3]))
      else None
  }

  /** m2 differs from m1 on the tables of t in slot i of table f at most. */
  ghost predicate DiffersAt(m1: Memory, m2: Memory, t: Tables, f: nat, i: nat)
    requires forall g | g in t :: g < |m1|
  {
    && |m2| == |m1|
    && forall g, k | g in t && 0 <= k < 512 && !(g == f && k == i) :: m2[g][k] == m1[g][k]
  }

  /** A change of slot i of table f reaches only the walks that pass through the slot, and
      those no more than the walk from the slot itself changes. */
  lemma {:induction false} LocalChange(m1: Memory, m2: Memory, t: Tables, f: nat, i: nat, g: nat, ix: seq<nat>)
    requires Tree(m1, t) && f in t && g in t && i < 512 && IsIndexes(ix) && DiffersAt(m1, m2, t, f, i)
    requires ix[..|t[g]|] == t[g]
    requires ix[..|t[f]| + 1] == t[f] + [i] ==> Translate(m2, f, |t[f]|, ix) == Translate(m1, f, |t[f]|, ix)
    ensures Translate(m2, g, |t[g]|, ix) == Translate(m1, g, |t[g]|, ix)
    decreases 3 - |t[g]|
  {
    var level := |t[g]|;
    assert ix[..level + 1] == t[g] + [ix[level]];
    if !(g == f && ix[level] == i) {
      var e := m1[g][ix[level]];
      assert m2[g][ix[level]] == e;
      if level < 3 && IsLink(e) {
        LocalChange(m1, m2, t, f, i, e.pfn, ix);
      }
    }
  }

  /** A walk that leads to a page does not pass through an absent slot. */
  lemma {:induction false} AbsentUnseen(m1: Memory, m2: Memory, t: Tables, f: nat, i: nat, g: nat, ix: seq<nat>)
    requires Tree(m1, t) && f in t && g in t && i < 512 && IsIndexes(ix) && DiffersAt(m1, m2, t, f, i)
    requires ix[..|t[g]|] == t[g] && !m1[f][i].present && Translate(m1, g, |t[g]|, ix).Some?
    ensures Translate(m2, g, |t[g]|, ix) == Translate(m1, g, |t[g]|, ix)
    decreases 3 - |t[g]|
  {
    var level := |t[g]|;
    var e := m1[g][ix[level]];
    assert m2[g][ix[level]] == e;
    if level < 3 && IsLink(e) {
      assert ix[..level + 1] == t[g] + [ix[level]];
      AbsentUnseen(m1, m2, t, f, i, e.pfn, ix);
    }
  }

  /** The same pages, wherever a walk starts: t1 is kept and every walk through it
      translates as before. */
  ghost predicate SameView(m1: Memory, t1: Tables, m2: Memory, t2: Tables) {
    && |m2| == |m1|
    && (forall g | g in t1 :: g in t2 && t2[g] == t1[g])
    && (forall g, ix | g in t1 && IsIndexes(ix) && |t1[g]| <= 3 && ix[..|t1[g]|] == t1[g] ::
          Translate(m2, g, |t1[g]|, ix) == Translate(m1, g, |t1[g]|, ix))
  }

  /** Two roots, in two memories, translate every page alike. */
  ghost predicate SamePages(m1: Memory, root1: nat, m2: Memory, root2: nat) {
    forall ix | IsIndexes(ix) :: Translate(m2, root2, 0, ix) == Translate(m1, root1, 0, ix)
  }

  lemma SameViewReflexive(m: Memory, t: Tables)
    ensures SameView(m, t, m, t)
  {
  }

  lemma SameViewTransitive(m1: Memory, t1: Tables, m2: Memory, t2: Tables, m3: Memory, t3: Tables)
    requires SameView(m1, t1, m2, t2) && SameView(m2, t2, m3, t3)
    ensures SameView(m1, t1, m3, t3)
  {
    forall g, ix | g in t1 && IsIndexes(ix) && |t1[g]| <= 3 && ix[..|t1[g]|] == t1[g]
      ensures Translate(m3, g, |t1[g]|, ix) == Translate(m1, g, |t1[g]|, ix)
    {
      assert Translate(m2, g, |t1[g]|, ix) == Translate(m1, g, |t1[g]|, ix);
      assert t2[g] == t1[g];
    }
  }

  /** Setting USER and clearing NX of an upper entry moves no page. */
  lemma SanitizedView(m1: Memory, t: Tables, f: nat, i: nat)
    requires Tree(m1, t) && f in t && |t[f]| < 3 && i < 512 && IsLink(m1[f][i])
    ensures var m2 := m1[f := m1[f][i := m1[f][i].(user := true, noExecute := false)]];
            Tree(m2, t) && SameView(m1, t, m2, t)
  {
    var m2 := m1[f := m1[f][i := m1[f][i].(user := true, noExecute := false)]];
    forall g, ix | g in t && IsIndexes(ix) && ix[..|t[g]|] == t[g]
      ensures Translate(m2, g, |t[g]|, ix) == Translate(m1, g, |t[g]|, ix)
    {
      if ix[..|t[f]| + 1] == t[f] + [i] {
        assert ix[|t[f]|] == (t[f] + [i])[|t[f]|];
        BelowUnchanged(m1, t, f, i, m2, m1[f][i].pfn, ix);
      }
      LocalChange(m1, m2, t, f, i, g, ix);
    }
  }

  /** Walks from below table f do not see a change in table f. */
  lemma BelowUnchanged(m1: Memory, t: Tables, f: nat, i: nat, m2: Memory, g: nat, ix: seq<nat>)
    requires Tree(m1, t) && f in t && g in t && i < 512 && IsIndexes(ix) && DiffersAt(m1, m2, t, f, i)
    requires |t[f]| < |t[g]|
    ensures Translate(m2, g, |t[g]|, ix) == Translate(m1, g, |t[g]|, ix)
    decreases 3 - |t[g]|
  {
    var e := m1[g][ix[|t[g]|]];
    assert m2[g][ix[|t[g]|]] == e;
    if |t[g]| < 3 && IsLink(e) {
      assert t[e.pfn] == t[g] + [ix[|t[g]|]];
      BelowUnchanged(m1, t, f, i, m2, e.pfn, ix);
    }
  }

  /** Frame n, no table before, is filled and hung below slot i of table f. */
  ghost predicate Attached(m1: Memory, t1: Tables, m2: Memory, t2: Tables, f: nat, i: nat, n: nat, w: Word)
    requires Tree(m1, t1)
  {
    && f in t1 && |t1[f]| < 3 && i < 512 && n < |m1| && n !in t1
    && IsLink(w) && w.pfn == n
    && |m2| == |m1| && m2[f] == m1[f][i := w] && t2 == t1[n := t1[f] + [i]]
    && forall g | g in t1 && g != f :: m2[g] == m1[g]
  }

  /** An empty table below an absent entry maps nothing. */
  lemma EmptyTableView(m1: Memory, t1: Tables, m2: Memory, t2: Tables, f: nat, i: nat, n: nat, w: Word)
    requires Tree(m1, t1) && Attached(m1, t1, m2, t2, f, i, n, w)
    requires !m1[f][i].present && IsEmptyTable(m2[n])
    ensures Tree(m2, t2) && SameView(m1, t1, m2, t2)
  {
    forall g, ix | g in t1 && IsIndexes(ix) && ix[..|t1[g]|] == t1[g]
      ensures Translate(m2, g, |t1[g]|, ix) == Translate(m1, g, |t1[g]|, ix)
    {
      if ix[..|t1[f]| + 1] == t1[f] + [i] {
        assert ix[|t1[f]|] == (t1[f] + [i])[|t1[f]|];
        assert !m2[n][ix[|t1[f]| + 1]].present;
      }
      LocalChange(m1, m2, t1, f, i, g, ix);
    }
  }

  /** The table of 4 KiB entries that replaces a 2 MiB entry. */
  ghost predicate IsSplitOf(table: Frame, e: Word) {
    forall k | 0 <= k < 512 :: table[k] == SplitWord(e, k)
  }

  /** A 2 MiB aligned entry of a frame number that fits translates as its split does. */
  lemma SplitView(m1: Memory, t1: Tables, m2: Memory, t2: Tables, f: nat, i: nat, n: nat, w: Word)
    requires Tree(m1, t1) && Attached(m1, t1, m2, t2, f, i, n, w)
    requires |t1[f]| == 2 && m1[f][i].present && m1[f][i].large && IsSplitOf(m2[n], m1[f][i])
    requires Aligned2M(m1[f][i])
    ensures Tree(m2, t2) && SameView(m1, t1, m2, t2)
  {
    forall g, ix | g in t1 && IsIndexes(ix) && ix[..|t1[g]|] == t1[g]
      ensures Translate(m2, g, |t1[g]|, ix) == Translate(m1, g, |t1[g]|, ix)
    {
      if ix[..3] == t1[f] + [i] {
        assert ix[2] == (t1[f] + [i])[2];
        SplitSlot(m1[f][i], ix[3]);
      }
      LocalChange(m1, m2, t1, f, i, g, ix);
    }
  }

  predicate Aligned2M(e: Word) { e.pfn % 512 == 0 && e.pfn < PFN_LIMIT }

  /** A split keeps the translation of a page, and so of every page, exactly when the entry is 2 MiB
      aligned: bits 12-20, among them the PAT bit, must be clear. */
  lemma SplitSlot(e: Word, k: nat)
    requires e.pfn < PFN_LIMIT && k < 512
    ensures SplitWord(e, k).pfn == e.pfn / 512 * 512 + k <==> e.pfn % 512 == 0
  {
  }

  // The walk the kernel makes: down to the last-level table through links only.

  function TableAt(m: Memory, root: nat, ix: seq<nat>, level: nat): (r: Option<nat>)
    requires IsIndexes(ix) && level <= 3
  {
    if level == 0 then Some(root)
    else
      match TableAt(m, root, ix, level - 1)
      case None => None
      case Some(f) =>
        if f < |m| && IsLink(m[f][ix[level - 1]]) then Some(m[f][ix[level - 1]].pfn) else None
  }

  lemma {:induction false} NoTableBelow(m: Memory, root: nat, ix: seq<nat>, level: nat, below: nat)
    requires IsIndexes(ix) && level <= below <= 3
    ensures TableAt(m, root, ix, level) == None ==> TableAt(m, root, ix, below) == None
  {
    if level < below {
      NoTableBelow(m, root, ix, level, below - 1);
    }
  }

  /** Every link of the walk down to the given level lets user code read and execute. */
  predicate PathOpen(m: Memory, root: nat, ix: seq<nat>, level: nat)
    requires IsIndexes(ix) && level <= 3
  {
    level == 0 ||
    (PathOpen(m, root, ix, level - 1) &&
     match TableAt(m, root, ix, level - 1)
     case None => false
     case Some(f) => f < |m| && var e := m[f][ix[level - 1]]; IsLink(e) && e.user && !e.noExecute)
  }

  ghost predicate IsRoot(t: Tables, root: nat) { root in t && t[root] == [] }

  lemma {:induction false} TableAtTyped(m: Memory, t: Tables, root: nat, ix: seq<nat>, level: nat)
    requires Tree(m, t) && IsRoot(t, root) && IsIndexes(ix) && level <= 3
    ensures var f := TableAt(m, root, ix, level); f.Some? ==> f.value in t && t[f.value] == ix[..level]
  {
    if level > 0 {
      TableAtTyped(m, t, root, ix, level - 1);
      assert ix[..level] == ix[..level - 1] + [ix[level - 1]];
    }
  }

  /** The part of the walk above a changed slot is as before. */
  lemma {:induction false} AboveUnchanged(m1: Memory, m2: Memory, t: Tables, f: nat, i: nat,
                                          root: nat, ix: seq<nat>, level: nat)
    requires Tree(m1, t) && f in t && i < 512 && DiffersAt(m1, m2, t, f, i)
    requires IsRoot(t, root) && IsIndexes(ix) && level <= |t[f]|
    ensures TableAt(m2, root, ix, level) == TableAt(m1, root, ix, level)
    ensures PathOpen(m2, root, ix, level) == PathOpen(m1, root, ix, level)
  {
    if level > 0 {
      AboveUnchanged(m1, m2, t, f, i, root, ix, level - 1);
      TableAtTyped(m1, t, root, ix, level - 1);
    }
  }

  /** A link that leads to the same table and is still open to user code if it was. */
  predicate LinkKept(e: Word, w: Word) {
    IsLink(e) ==> IsLink(w) && w.pfn == e.pfn && (e.user && !e.noExecute ==> w.user && !w.noExecute)
  }

  /** A changed slot that still links to the same table leaves every walk that exists where it was. */
  lemma {:induction false} WalkKept(m1: Memory, m2: Memory, t: Tables, f: nat, i: nat, root: nat, ix: seq<nat>,
      level: nat)
    requires Tree(m1, t) && f in t && i < 512 && DiffersAt(m1, m2, t, f, i)
    requires LinkKept(m1[f][i], m2[f][i])
    requires IsRoot(t, root) && IsIndexes(ix) && level <= 3
    ensures TableAt(m1, root, ix, level).Some? ==> TableAt(m2, root, ix, level) == TableAt(m1, root, ix, level)
    ensures PathOpen(m1, root, ix, level) ==> PathOpen(m2, root, ix, level)
  {
    if level > 0 {
      WalkKept(m1, m2, t, f, i, root, ix, level - 1);
      TableAtTyped(m1, t, root, ix, level - 1);
    }
  }

  /** ... and so does a change of memory that is no table. */
  lemma {:induction false} WalkUntouched(m1: Memory, m2: Memory, t: Tables, root: nat, ix: seq<nat>, level: nat)
    requires Tree(m1, t) && IsRoot(t, root) && IsIndexes(ix) && level <= 3 && |m2| == |m1|
    requires forall h | h in t :: m2[h] == m1[h]
    ensures TableAt(m2, root, ix, level) == TableAt(m1, root, ix, level)
    ensures PathOpen(m2, root, ix, level) == PathOpen(m1, root, ix, level)
  {
    if level > 0 {
      WalkUntouched(m1, m2, t, root, ix, level - 1);
      TableAtTyped(m1, t, root, ix, level - 1);
    }
  }

  lemma WalksUntouched(m1: Memory, m2: Memory, t: Tables)
    requires Tree(m1, t) && |m2| == |m1| && forall h | h in t :: m2[h] == m1[h]
    ensures WalksKept(m1, t, m2)
  {
    forall root, ix, level | IsRoot(t, root) && IsIndexes(ix) && 0 <= level <= 3 && TableAt(m1, root, ix, level).Some?
      ensures TableAt(m2, root, ix, level) == TableAt(m1, root, ix, level)
      ensures PathOpen(m1, root, ix, level) ==> PathOpen(m2, root, ix, level)
    {
      WalkUntouched(m1, m2, t, root, ix, level);
    }
  }

  lemma {:induction false} TranslateFromTable(m: Memory, root: nat, ix: seq<nat>, level: nat)
    requires IsIndexes(ix) && level <= 3
    ensures var f := TableAt(m, root, ix, level);
            f.Some? ==> Translate(m, root, 0, ix) == Translate(m, f.value, level, ix)
  {
    if level > 0 {
      TranslateFromTable(m, root, ix, level - 1);
    }
  }

  /** The page of ix is mapped by w, every other page translates as before. */
  ghost predicate MappedAs(m1: Memory, t: Tables, m2: Memory, root: nat, ix: seq<nat>, w: Word)
    requires IsIndexes(ix)
  {
    && Translate(m2, root, 0, ix) == (if w.present then Some(LeafOf(w, w.pfn)) else None)
    && SlotIs(m2, root, ix, w)
    && forall g, jx | g in t && IsIndexes(jx) && jx != ix && |t[g]| <= 3 && jx[..|t[g]|] == t[g] ::
         Translate(m2, g, |t[g]|, jx) == Translate(m1, g, |t[g]|, jx)
  }

  /** What the same indexes find under another root, or from a table on the way: what they found before, or
      what they find under the root now; and the latter if the two walks shared a table below their roots. */
  ghost predicate AliasesFollow(m1: Memory, t: Tables, m2: Memory, root: nat, ix: seq<nat>)
    requires IsIndexes(ix)
  {
    && (forall g | g in t && |t[g]| <= 3 && ix[..|t[g]|] == t[g] ::
          Translate(m2, g, |t[g]|, ix) == Translate(m1, g, |t[g]|, ix) ||
          Translate(m2, g, |t[g]|, ix) == Translate(m2, root, 0, ix))
    && (forall g, k | IsRoot(t, g) && 1 <= k <= 3 && ShareTable(m1, g, root, ix, k) ::
          Translate(m2, g, 0, ix) == Translate(m2, root, 0, ix))
  }

  /** The two walks come to the same table at the level. */
  predicate ShareTable(m: Memory, root1: nat, root2: nat, ix: seq<nat>, level: nat)
    requires IsIndexes(ix) && level <= 3
  {
    TableAt(m, root1, ix, level).Some? && TableAt(m, root1, ix, level) == TableAt(m, root2, ix, level)
  }

  /** Walks that exist lead where they led, and those open to user code stay so. */
  ghost predicate WalksKept(m1: Memory, t: Tables, m2: Memory) {
    forall root, ix, level | IsRoot(t, root) && IsIndexes(ix) && 0 <= level <= 3 &&
        TableAt(m1, root, ix, level).Some? ::
      && TableAt(m2, root, ix, level) == TableAt(m1, root, ix, level)
      && (PathOpen(m1, root, ix, level) ==> PathOpen(m2, root, ix, level))
  }

  lemma WalksKeptTransitive(m1: Memory, t1: Tables, m2: Memory, t2: Tables, m3: Memory)
    requires WalksKept(m1, t1, m2) && WalksKept(m2, t2, m3) && forall g | g in t1 :: g in t2 && t2[g] == t1[g]
    ensures WalksKept(m1, t1, m3)
  {
  }

  lemma AllWalksKept(m1: Memory, m2: Memory, t: Tables, f: nat, i: nat)
    requires Tree(m1, t) && f in t && i < 512 && DiffersAt(m1, m2, t, f, i)
    requires LinkKept(m1[f][i], m2[f][i])
    ensures WalksKept(m1, t, m2)
  {
    forall root, ix, level | IsRoot(t, root) && IsIndexes(ix) && 0 <= level <= 3 && TableAt(m1, root, ix, level).Some?
      ensures TableAt(m2, root, ix, level) == TableAt(m1, root, ix, level)
      ensures PathOpen(m1, root, ix, level) ==> PathOpen(m2, root, ix, level)
    {
      WalkKept(m1, m2, t, f, i, root, ix, level);
    }
  }

  /** A walk of ix either misses a last-level slot of ix or ends there. */
  lemma {:induction false} SlotReached(m1: Memory, m2: Memory, t: Tables, f: nat, g: nat, ix: seq<nat>)
    requires Tree(m1, t) && f in t && g in t && IsIndexes(ix) && t[f] == ix[..3] && DiffersAt(m1, m2, t, f, ix[3])
    requires ix[..|t[g]|] == t[g]
    ensures Translate(m2, g, |t[g]|, ix) == Translate(m1, g, |t[g]|, ix) ||
            Translate(m2, g, |t[g]|, ix) == Translate(m2, f, 3, ix)
    decreases 3 - |t[g]|
  {
    var level := |t[g]|;
    if g != f || level < 3 {
      var e := m1[g][ix[level]];
      assert m2[g][ix[level]] == e;
      if level < 3 && IsLink(e) {
        assert ix[..level + 1] == t[g] + [ix[level]];
        SlotReached(m1, m2, t, f, e.pfn, ix);
      }
    }
  }

  /** The walk of ix ends at a last-level slot that holds w. */
  predicate SlotIs(m: Memory, root: nat, ix: seq<nat>, w: Word)
    requires IsIndexes(ix)
  {
    var f := TableAt(m, root, ix, 3);
    f.Some? && f.value < |m| && m[f.value][ix[3]] == w
  }

  /** Writing a last-level slot changes the page of that slot as asked and no other page. */
  lemma LeafWritten(m: Memory, t: Tables, root: nat, ix: seq<nat>, f: nat, w: Word)
    requires Tree(m, t) && IsRoot(t, root) && IsIndexes(ix) && TableAt(m, root, ix, 3) == Some(f)
    ensures f in t && t[f] == ix[..3] && f < |m|
    ensures var m2 := m[f := m[f][ix[3] := w]];
      && Tree(m2, t)
      && TableAt(m2, root, ix, 3) == Some(f)
      && PathOpen(m2, root, ix, 3) == PathOpen(m, root, ix, 3)
      && MappedAs(m, t, m2, root, ix, w) && AliasesFollow(m, t, m2, root, ix)
  {
    TableAtTyped(m, t, root, ix, 3);
    var m2 := m[f := m[f][ix[3] := w]];
    AboveUnchanged(m, m2, t, f, ix[3], root, ix, 3);
    TranslateFromTable(m2, root, ix, 3);
    forall g, jx | g in t && IsIndexes(jx) && jx != ix && jx[..|t[g]|] == t[g]
      ensures Translate(m2, g, |t[g]|, jx) == Translate(m, g, |t[g]|, jx)
    {
      assert jx == jx[..4] && ix == ix[..3] + [ix[3]];
      LocalChange(m, m2, t, f, ix[3], g, jx);
    }
    LeafAliases(m, m2, t, root, ix, f);
  }

  lemma LeafAliases(m: Memory, m2: Memory, t: Tables, root: nat, ix: seq<nat>, f: nat)
    requires Tree(m, t) && IsRoot(t, root) && IsIndexes(ix) && TableAt(m, root, ix, 3) == Some(f)
    requires f in t && t[f] == ix[..3] && DiffersAt(m, m2, t, f, ix[3])
    ensures AliasesFollow(m, t, m2, root, ix)
  {
    AboveUnchanged(m, m2, t, f, ix[3], root, ix, 3);
    TranslateFromTable(m2, root, ix, 3);
    forall g | g in t && |t[g]| <= 3 && ix[..|t[g]|] == t[g]
      ensures Translate(m2, g, |t[g]|, ix) == Translate(m, g, |t[g]|, ix) ||
              Translate(m2, g, |t[g]|, ix) == Translate(m2, root, 0, ix)
    {
      SlotReached(m, m2, t, f, g, ix);
    }
    forall g, k | IsRoot(t, g) && 1 <= k <= 3 && ShareTable(m, g, root, ix, k)
      ensures Translate(m2, g, 0, ix) == Translate(m2, root, 0, ix)
    {
      AboveUnchanged(m, m2, t, f, ix[3], root, ix, k);
      AboveUnchanged(m, m2, t, f, ix[3], g, ix, k);
      TranslateFromTable(m2, root, ix, k);
      TranslateFromTable(m2, g, ix, k);
    }
  }

  /** Memory that is no table can change freely. */
  lemma {:induction false} TablesUntouched(m1: Memory, m2: Memory, t: Tables, g: nat, ix: seq<nat>)
    requires Tree(m1, t) && g in t && IsIndexes(ix) && |m2| == |m1|
    requires forall h | h in t :: m2[h] == m1[h]
    ensures Translate(m2, g, |t[g]|, ix) == Translate(m1, g, |t[g]|, ix)
    decreases 3 - |t[g]|
  {
    var e := m1[g][ix[|t[g]|]];
    if |t[g]| < 3 && IsLink(e) {
      assert t[e.pfn] == t[g] + [ix[|t[g]|]];
      TablesUntouched(m1, m2, t, e.pfn, ix);
    }
  }

  /** A copy of a root table translates every page as the root does, through the same lower tables. */
  lemma {:induction false} ClonedRootTranslates(m1: Memory, m2: Memory, t: Tables, root: nat, n: nat, ix: seq<nat>)
    requires Tree(m1, t) && IsRoot(t, root) && n !in t && n < |m1| && IsIndexes(ix) && |m2| == |m1|
    requires m2[n] == m1[root] && forall h | h in t :: m2[h] == m1[h]
    ensures Translate(m2, n, 0, ix) == Translate(m1, root, 0, ix)
  {
    var e := m1[root][ix[0]];
    assert m2[n][ix[0]] == e;
    if IsLink(e) {
      assert t[e.pfn] == t[root] + [ix[0]];
      TablesUntouched(m1, m2, t, e.pfn, ix);
      assert Translate(m2, n, 0, ix) == Translate(m2, e.pfn, 1, ix);
    }
  }
}
