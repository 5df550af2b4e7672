/** Which accesses a walk allows, and the error code of those it does not
    (Intel SDM Vol. 3A, sections 4.6 and 4.7). */
module AccessRights {
  import opened PageFormat
  import opened PageTables
  import opened Ownership
  import opened Status

  datatype Access = Access(write: bool, user: bool, execute: bool)

  predicate EntryAllows(w: Word, a: Access) {
    (a.write ==> w.writable) && (a.user ==> w.user) && (a.execute ==> !w.noExecute)
  }

  /** Every entry on the walk is present and grants the access. */
  predicate Allowed(m: Memory, f: nat, level: nat, ix: seq<nat>, a: Access)
    requires level <= 3 && IsIndexes(ix)
    decreases 3 - level
  {
    f < |m| &&
    var w := m[f][ix[level]];
    && w.present && EntryAllows(w, a)
    && (level == 3 || (if w.large then level != 0 else Allowed(m, w.pfn, level + 1, ix, a)))
  }

  /** The error code pushed for an access that is not allowed. */
  datatype ErrorCode = ErrorCode(present: bool, write: bool, user: bool, instr: bool)

  function FaultCode(m: Memory, root: nat, ix: seq<nat>, a: Access): (r: ErrorCode)
    requires IsIndexes(ix)
  {
    ErrorCode(Translate(m, root, 0, ix).Some?, a.write, a.user, a.execute)
  }

  /** The entries of the walk above the level are links that grant the access. */
  predicate UpperAllows(m: Memory, root: nat, ix: seq<nat>, level: nat, a: Access)
    requires IsIndexes(ix) && level <= 3
  {
    level == 0 ||
    (UpperAllows(m, root, ix, level - 1, a) &&
     match TableAt(m, root, ix, level - 1)
     case None => false
     case Some(f) => f < |m| && var e := m[f][ix[level - 1]]; IsLink(e) && EntryAllows(e, a))
  }

  /** An access is allowed exactly if the upper entries grant it and the last-level entry does. */
  lemma LeafDecides(m: Memory, root: nat, ix: seq<nat>, w: Word, a: Access)
    requires IsIndexes(ix) && SlotIs(m, root, ix, w)
    ensures Allowed(m, root, 0, ix, a) <==> UpperAllows(m, root, ix, 3, a) && w.present && EntryAllows(w, a)
  {
    AllowedFrom(m, root, ix, 3, a);
  }

  lemma {:induction false} AllowedFrom(m: Memory, root: nat, ix: seq<nat>, level: nat, a: Access)
    requires IsIndexes(ix) && level <= 3 && TableAt(m, root, ix, level).Some?
    ensures Allowed(m, root, 0, ix, a) <==>
            UpperAllows(m, root, ix, level, a) && Allowed(m, TableAt(m, root, ix, level).value, level, ix, a)
  {
    if level > 0 { AllowedFrom(m, root, ix, level - 1, a); }
  }

  /** A walk is open to user code if its upper entries grant user accesses, and links are writable anyway. */
  lemma {:induction false} OpenGrants(s: MapState, root: nat, ix: seq<nat>, a: Access, level: nat)
    requires Tree(s.m, s.t) && WritableLinks(s) && IsRoot(s.t, root) && IsIndexes(ix) && level <= 3
    ensures PathOpen(s.m, root, ix, level) ==> UpperAllows(s.m, root, ix, level, a)
    ensures UpperAllows(s.m, root, ix, level, a) <==> UpperAllows(s.m, root, ix, level, a.(write := false))
  {
    if level > 0 {
      OpenGrants(s, root, ix, a, level - 1);
      TableAtTyped(s.m, s.t, root, ix, level - 1);
    }
  }

  /** A change of a last-level table leaves the entries above it. */
  lemma {:induction false} UpperKept(m: Memory, m2: Memory, t: Tables, f: nat, i: nat, root: nat, ix: seq<nat>,
                                     level: nat, a: Access)
    requires Tree(m, t) && f in t && |t[f]| == 3 && i < 512 && DiffersAt(m, m2, t, f, i)
    requires IsRoot(t, root) && IsIndexes(ix) && level <= 3
    ensures UpperAllows(m2, root, ix, level, a) == UpperAllows(m, root, ix, level, a)
  {
    if level > 0 {
      UpperKept(m, m2, t, f, i, root, ix, level - 1, a);
      AboveUnchanged(m, m2, t, f, i, root, ix, level - 1);
      TableAtTyped(m, t, root, ix, level - 1);
    }
  }

  /** With open and writable upper entries the last-level entry alone decides. */
  lemma OpenPathAllows(s: MapState, root: nat, ix: seq<nat>, w: Word, a: Access)
    requires Tree(s.m, s.t) && WritableLinks(s) && IsRoot(s.t, root) && IsIndexes(ix)
    requires PathOpen(s.m, root, ix, 3) && SlotIs(s.m, root, ix, w) && w.present
    ensures Allowed(s.m, root, 0, ix, a) <==> EntryAllows(w, a)
  {
    OpenGrants(s, root, ix, a, 3);
    LeafDecides(s.m, root, ix, w, a);
  }

  /** ... which is seen in what the page translates to. */
  lemma OpenLeafAllows(s: MapState, root: nat, ix: seq<nat>, w: Word, a: Access)
    requires Tree(s.m, s.t) && WritableLinks(s) && IsRoot(s.t, root) && IsIndexes(ix)
    requires PathOpen(s.m, root, ix, 3) && Translate(s.m, root, 0, ix) == Some(LeafOf(w, w.pfn))
    ensures Allowed(s.m, root, 0, ix, a) <==> EntryAllows(w, a)
  {
    TranslateFromTable(s.m, root, ix, 3);
    var e := s.m[TableAt(s.m, root, ix, 3).value][ix[3]];
    OpenPathAllows(s, root, ix, e, a);
  }

  /** The upper entries of the walk grant the same accesses. */
  ghost predicate SameUpper(m1: Memory, m2: Memory, root: nat, ix: seq<nat>)
    requires IsIndexes(ix)
  {
    forall a: Access :: UpperAllows(m2, root, ix, 3, a) == UpperAllows(m1, root, ix, 3, a)
  }

  lemma ProtectKeepsUpper(s1: MapState, s2: MapState, root: nat, ix: seq<nat>, flags: Word)
    requires IsIndexes(ix) && Reprotected(s1, s2, root, ix, flags)
    ensures SameUpper(s1.m, s2.m, root, ix)
  {
    var f := TableAt(s1.m, root, ix, 3).value;
    TableAtTyped(s1.m, s1.t, root, ix, 3);
    forall a: Access ensures UpperAllows(s2.m, root, ix, 3, a) == UpperAllows(s1.m, root, ix, 3, a) {
      UpperKept(s1.m, s2.m, s1.t, f, ix[3], root, ix, 3, a);
    }
  }

  /** What is allowed translates. */
  lemma {:induction false} AllowedTranslates(m: Memory, f: nat, level: nat, ix: seq<nat>, a: Access)
    requires level <= 3 && IsIndexes(ix)
    ensures Allowed(m, f, level, ix, a) ==> Translate(m, f, level, ix).Some?
    decreases 3 - level
  {
    if level < 3 && f < |m| { AllowedTranslates(m, m[f][ix[level]].pfn, level + 1, ix, a); }
  }
}
