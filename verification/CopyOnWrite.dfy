/** The frame account over the copying branch of copy-on-write, which releases the old frame twice
    (kernel/mm/init.c:1134 and, through the map, 736). */
module CopyOnWrite {
  import opened PageFormat
  import opened PageTables
  import opened Ownership
  import opened Status

  /** Every count is accounted for, but for k references that frame p has lost. */
  ghost predicate Short(s: MapState, others: seq<nat>, p: nat, k: int) {
    && Tree(s.m, s.t) && |others| == |s.refs| == MAX_TRACKED
    && forall q {:trigger Slots(s, q)} | 0 <= q < MAX_TRACKED ::
         s.refs[q] + (if q == p then k else 0) == |Slots(s, q)| + (if q in s.made then 1 else 0) + others[q]
  }

  ghost predicate OneShort(s: MapState, others: seq<nat>, p: nat) { Short(s, others, p, 1) }

  /** No more than k references to some frame are lost. */
  ghost predicate AtMostShort(s: MapState, others: seq<nat>, k: nat) {
    exists p: nat, j: nat :: j <= k && Short(s, others, p, j)
  }

  /** The state in which the copy is mapped: frame n taken, the old frame released once. */
  function CopyTaken(s: MapState, n: nat, content: Frame, p: nat): (t: MapState)
    requires n < |s.m| && n < |s.refs| && n < |s.taken| && |s.refs| == |s.taken|
  {
    var u := TakeFrame(s, n, content);
    u.(refs := Released(u.refs, p), taken := ReleasedTaken(u.refs, u.taken, p))
  }

  /** A release of frame p loses the reference if there is one. */
  function Loss(s: MapState, p: nat): (k: nat) { if p < |s.refs| && s.refs[p] > 0 then 1 else 0 }

  lemma TakenShort(s: MapState, n: nat, content: Frame, p: nat, others: seq<nat>)
    requires Wf(s) && Counted(s, others) && n < |s.m| && n < MAX_TRACKED && !s.taken[n] && s.refs[n] == 0
    requires p < MAX_TRACKED ==> s.refs[p] != 1
    ensures |s.refs| == |s.taken| == MAX_TRACKED && others[n] == 0
    ensures var t := CopyTaken(s, n, content, p);
      && Wf(t) && n !in t.t && Short(t, others[n := 1], p, Loss(TakeFrame(s, n, content), p))
      && (p < MAX_TRACKED && s.refs[p] > 0 ==> p != n && t.refs[p] > 0)
      && (p >= MAX_TRACKED || Idle(s, p) ==> t == TakeFrame(s, n, content))
  {
    TakeFrameKeeps(s, n, content);
    TakeFrameCounted(s, n, content, others);
    var (u, t) := (TakeFrame(s, n, content), CopyTaken(s, n, content, p));
    forall q | 0 <= q < MAX_TRACKED
      ensures t.refs[q] + (if q == p then Loss(u, p) else 0) ==
              |Slots(t, q)| + (if q in t.made then 1 else 0) + others[n := 1][q]
    {
      assert Slots(t, q) == Slots(u, q);
    }
  }

  lemma GrownShort(s1: MapState, s2: MapState, others: seq<nat>, p: nat, k: int)
    requires Wf(s1) && Wf(s2) && Grown(s1, s2) && Short(s1, others, p, k)
    ensures Short(s2, others, p, k) && (p < MAX_TRACKED && s1.refs[p] > 0 ==> s2.refs[p] > 0)
  {
    forall q | 0 <= q < MAX_TRACKED
      ensures s2.refs[q] + (if q == p then k else 0) == |Slots(s2, q)| + (if q in s2.made then 1 else 0) + others[q]
    {
      GrownSlots(s1, s2, q);
      assert |Slots(s2, q)| == |Slots(s1, q)|;
    }
  }

  /** By how much an account is short after a page is overwritten: a page that was there loses a reference, and
      in the user window a holder with it. */
  function NowShort(k: int, user: bool, present: bool, loss: nat): (r: int) {
    if !present then k else if user then k + loss - 1 else k + loss
  }

  /** Overwriting a slot that names p or nothing: in the user window the slot of p goes and the new frame takes
      over a reference; elsewhere slots are not counted.  p is released. */
  lemma OverwriteShort(s: MapState, f: nat, i: nat, w: Word, others: seq<nat>, p: nat, k: int)
    requires Wf(s) && f in s.t && |s.t[f]| == 3 && i < 512 && Tree(Overwritten(s, f, i, w).m, s.t)
    requires Short(s, others, p, k) && (s.m[f][i].present ==> s.m[f][i].pfn == p)
    requires w.present && w.pfn < MAX_TRACKED && others[w.pfn] > 0
    ensures Short(Overwritten(s, f, i, w), if UserPath(s.t[f]) then HandedOver(others, w) else others, p,
                  NowShort(k, UserPath(s.t[f]), s.m[f][i].present, Loss(s, p)))
  {
    var s2 := Overwritten(s, f, i, w);
    forall q | 0 <= q < MAX_TRACKED
      ensures |Slots(s2, q)| == |Slots(s, q)| + (if UserPath(s.t[f]) && w.pfn == q then 1 else 0)
                - (if UserPath(s.t[f]) && s.m[f][i].present && q == p then 1 else 0)
    {
      if UserPath(s.t[f]) {
        SlotsAfterWrite(s, f, i, w, q);
      } else {
        SlotsElsewhere(s, s2, f, i, q);
        assert (f, i) !in Slots(s, q) && (f, i) !in Slots(s2, q);
        assert Slots(s2, q) == Slots(s, q);
      }
    }
  }

  /** A map over a page that names p or nothing, on an account that is k short at p. */
  lemma MapShort(s1: MapState, s3: MapState, root: nat, va: nat, w: Word, others: seq<nat>, p: nat, k: int)
    returns (loss: nat)
    requires Remapped(s1, s3, root, va, w) && Short(s1, others, p, k)
    requires w.present && w.pfn < MAX_TRACKED && w.pfn < |others| && others[w.pfn] > 0
    requires var l := Translate(s1.m, root, 0, Indexes(va)); l.Some? ==> l.value.frame == p
    ensures loss <= 1 && (p < MAX_TRACKED && p < |s1.refs| && s1.refs[p] > 0 ==> loss == 1)
    ensures Short(s3, AfterMap(others, va, w), p,
                  NowShort(k, UserPage(va), Translate(s1.m, root, 0, Indexes(va)).Some?, loss))
  {
    hide Wf, Grown, Translate, Remapped, RemappedVia, Short, NowShort, Tree, Indexes;
    var s2, table := MapParts(s1, s3, root, va, w);
    GrownShort(s1, s2, others, p, k);
    RewriteShape(s1, s2, s3, root, va, w, table);
    OverwriteShort(s2, table, Indexes(va)[3], w, others, p, k);
    ShortShape(s1, others, p, k);
    ShortShape(s2, others, p, k);
    loss := Loss(s2, p);
  }

  lemma ShortShape(s: MapState, others: seq<nat>, p: nat, k: int)
    requires Short(s, others, p, k)
    ensures |s.refs| == |others| == MAX_TRACKED
  {
  }

  lemma ShortUntracked(s: MapState, others: seq<nat>, p: nat, j: int, k: int)
    requires Short(s, others, p, j) && p >= MAX_TRACKED
    ensures Short(s, others, p, k)
  {
  }

  lemma CountedShort(s: MapState, others: seq<nat>, p: nat)
    requires Wf(s) && Counted(s, others)
    ensures Short(s, others, p, 0)
  {
  }

  /** After the copy every count is exact but that of the old frame: one short in the user window, at most two
      short elsewhere, where the slot's own reference is not given up either. */
  lemma CopyShort(s: MapState, n: nat, content: Frame, p: nat, s3: MapState, root: nat, va: nat, w: Word,
      others: seq<nat>) returns (k: nat)
    requires Wf(s) && Counted(s, others) && n < |s.m| && n < MAX_TRACKED && !s.taken[n] && s.refs[n] == 0
    requires p < MAX_TRACKED ==> s.refs[p] != 1 && (UserPage(va) ==> s.refs[p] > 0)
    requires |s.refs| == |s.taken|
    requires Remapped(CopyTaken(s, n, content, p), s3, root, va, w) && w.present && w.pfn == n
    requires Translate(s.m, root, 0, Indexes(va)).Some? && Translate(s.m, root, 0, Indexes(va)).value.frame == p
    requires IsRoot(s.t, root)
    ensures k <= 2 && others[n] == 0 && Short(s3, if UserPage(va) then others else others[n := 1], p, k)
    ensures UserPage(va) && p < MAX_TRACKED ==> k == 1
  {
    hide Wf, Grown, Translate, Remapped, RemappedVia, Short;
    TakenShort(s, n, content, p, others);
    var (u, t) := (TakeFrame(s, n, content), CopyTaken(s, n, content, p));
    SameWalk(s, t, n, root, Indexes(va));
    var loss := MapShort(t, s3, root, va, w, others[n := 1], p, Loss(u, p));
    assert others[n := 1][n := 0] == others;
    if p >= MAX_TRACKED {
      k := 0;
      ShortUntracked(s3, if UserPage(va) then others else others[n := 1], p,
                     if UserPage(va) then Loss(u, p) + loss - 1 else Loss(u, p) + loss, 0);
    } else {
      k := if UserPage(va) then 1 else Loss(u, p) + loss;
    }
  }

  lemma SameWalk(s: MapState, t: MapState, n: nat, root: nat, ix: seq<nat>)
    requires Wf(s) && IsRoot(s.t, root) && IsIndexes(ix) && t.t == s.t && n !in s.t && n < |s.m| == |t.m| &&
        t.m == s.m[n := t.m[n]]
    ensures Translate(t.m, root, 0, ix) == Translate(s.m, root, 0, ix)
  {
    TablesUntouched(s.m, t.m, s.t, root, ix);
  }

  /** An account that is short of a tracked frame is no account. */
  lemma ShortIsWrong(s: MapState, others: seq<nat>, p: nat, k: nat)
    requires Short(s, others, p, k) && Wf(s)
    ensures Counted(s, others) <==> p >= MAX_TRACKED || k == 0
  {
    if p < MAX_TRACKED {
      assert s.refs[p] + k == |Slots(s, p)| + (if p in s.made then 1 else 0) + others[p];
    }
  }
}
