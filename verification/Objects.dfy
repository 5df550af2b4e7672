/** Objects, handles and reference counts. */
module Objects {
  import opened Machine
  import opened Status
  import opened Bits

  const MAX_OBJECTS: nat := 256
  const MAX_HANDLES: nat := 512
  const FIRST_HANDLE: nat := 4

  /** An object header; the type is a number, None when the slot has been released. */
  datatype Object = Object(inUse: bool, id: nat, kind: Option<nat>, refs: nat, access: nat)

  datatype Entry = Entry(inUse: bool, value: nat, target: nat, granted: nat)

  const NO_OBJECT := Object(false, 0, None, 0, 0)
  const NO_ENTRY := Entry(false, 0, 0, 0)

  predicate Names(e: Entry, i: nat) { e.inUse && e.target == i }

  /** How many handles name object i. */
  function Count(handles: seq<Entry>, i: nat): (n: nat)
    ensures n > 0 <==> exists h :: 0 <= h < |handles| && Names(handles[h], i)
  {
    if handles == [] then 0
    else
      var (init, last) := (handles[..|handles| - 1], handles[|handles| - 1]);
      var n := Count(init, i);
      assert forall h | 0 <= h < |init| :: init[h] == handles[h];
      if Names(last, i) then n + 1 else n
  }

  lemma {:induction false} CountUpdate(handles: seq<Entry>, h: nat, e: Entry, i: nat)
    requires h < |handles|
    ensures Count(handles[h := e], i) + (if Names(handles[h], i) then 1 else 0) ==
            Count(handles, i) + (if Names(e, i) then 1 else 0)
  {
    var last := |handles| - 1;
    if h == last {
      assert handles[h := e][..last] == handles[..last];
    } else {
      assert handles[h := e][..last] == handles[..last][h := e];
      CountUpdate(handles[..last], h, e, i);
    }
  }

  /** Every count is the handles naming the object plus the references held elsewhere, and a slot is in
      use exactly while its count is not zero. */
  ghost predicate Balanced(objects: seq<Object>, handles: seq<Entry>, held: seq<nat>) {
    && |objects| == |held|
    && (forall i | 0 <= i < |objects| :: objects[i].refs == Count(handles, i) + held[i])
    && (forall i | 0 <= i < |objects| :: objects[i].inUse <==> objects[i].refs > 0)
    && (forall h | 0 <= h < |handles| && handles[h].inUse :: handles[h].target < |objects|)
  }

  /** Values in use differ, lie below the next one, and have not been closed before. */
  ghost predicate Fresh(handles: seq<Entry>, next: nat, closed: set<nat>) {
    && next % 4 == 0 && next >= FIRST_HANDLE
    && (forall h | 0 <= h < |handles| && handles[h].inUse :: 0 < handles[h].value < next && handles[h].value !in closed)
    && (forall g, h | 0 <= g < h < |handles| && handles[g].inUse && handles[h].inUse ::
        handles[g].value != handles[h].value)
    && (forall v | v in closed :: v < next)
  }

  /** Every object ever made either exists or has been deleted, not both, and none was deleted twice. */
  ghost predicate Deleted(objects: seq<Object>, nextId: nat, log: seq<nat>) {
    && nextId >= 1
    && (forall i | 0 <= i < |objects| && objects[i].inUse :: 1 <= objects[i].id < nextId && objects[i].id !in log)
    && (forall i, j | 0 <= i < j < |objects| && objects[i].inUse && objects[j].inUse :: objects[i].id != objects[j].id)
    && (forall k | 0 <= k < |log| :: 1 <= log[k] < nextId)
    && (forall k, l | 0 <= k < l < |log| :: log[k] != log[l])
    && (forall id | 1 <= id < nextId :: id in log || Exists(objects, id))
  }

  ghost predicate Exists(objects: seq<Object>, id: nat) {
    exists i :: 0 <= i < |objects| && objects[i].inUse && objects[i].id == id
  }

  /** The handle a value resolves to. */
  ghost predicate Resolves(handles: seq<Entry>, value: nat, h: nat) {
    h < |handles| && handles[h].inUse && handles[h].value == value
  }

  /** ... the first of them, which is what a search finds. */
  ghost predicate FirstOf(handles: seq<Entry>, value: nat, h: nat) {
    Resolves(handles, value, h) && forall g: nat | g < h :: !Resolves(handles, value, g)
  }

  /** What a lookup through the entry answers: too little access, another type, or success. */
  function LookupStatus(objects: seq<Object>, e: Entry, desired: nat, kind: Option<nat>): (status: KStatus) {
    if !BitsWithin(desired, e.granted) then AccessDenied
    else if kind.Some? && e.target < |objects| && objects[e.target].kind != kind then NotFound
    else Success
  }

  class ObjectManager {
    const objects: array<Object>
    const handles: array<Entry>
    var nextHandle: nat
    var nextId: nat

    /** References held outside the handle table: by creators, by lookups, by mapped regions. */
    ghost var held: seq<nat>
    /** The objects whose delete routine has run, in order. */
    ghost var deleted: seq<nat>
    /** Handle values that have been closed. */
    ghost var closed: set<nat>
    /** The 32-bit handle counter has wrapped. */
    ghost var wrapped: bool

    ghost predicate Valid()
      reads this, objects, handles
    {
      && objects.Length == MAX_OBJECTS && handles.Length == MAX_HANDLES
      && Balanced(objects[..], handles[..], held)
      && Deleted(objects[..], nextId, deleted)
      && (wrapped || Fresh(handles[..], nextHandle, closed))
      && nextHandle < U32
    }

    constructor ()
      ensures Valid() && held == seq(MAX_OBJECTS, _ => 0) && deleted == [] && closed == {} && !wrapped
    {
      objects := new Object[MAX_OBJECTS](_ => NO_OBJECT);
      handles := new Entry[MAX_HANDLES](_ => NO_ENTRY);
      nextHandle, nextId := FIRST_HANDLE, 1;
      held, deleted, closed, wrapped := seq(MAX_OBJECTS, _ => 0), [], {}, false;
    }

    /** ObCreateObject: the first free slot, counted once for the creator. */
    method CreateObject(kind: nat, access: nat) returns (status: KStatus, made: nat)
      requires Valid()
      modifies this`nextId, this`held, objects
      ensures Valid()
      ensures status == Success || status == InitFailed
      ensures status == InitFailed ==> held == old(held) && objects[..] == old(objects[..]) && nextId == old(nextId)
      ensures status == InitFailed ==> forall i | 0 <= i < MAX_OBJECTS :: objects[i].inUse
      ensures status == Success ==> made < MAX_OBJECTS && !old(objects[made]).inUse && nextId == old(nextId) + 1
      ensures status == Success ==> forall k | 0 <= k < made :: old(objects[k]).inUse
      ensures status == Success ==> held == old(held)[made := 1]
      ensures status == Success ==>
                objects[..] == old(objects[..])[made := Object(true, old(nextId), Some(kind), 1, access)]
    {
      hide Balanced, Deleted, Fresh;
      var i := 0;
      while i < MAX_OBJECTS
        invariant 0 <= i <= MAX_OBJECTS
        invariant forall k | 0 <= k < i :: objects[k].inUse
      {
        if !objects[i].inUse {
          ghost var was := objects[..];
          assert forall k | 0 <= k < i :: was[k].inUse;
          objects[i] := Object(true, nextId, Some(kind), 1, access);
          assert objects[..] == was[i := Object(true, nextId, Some(kind), 1, access)];
          CreatedBalanced(was, handles[..], held, i, objects[i]);
          CreatedDeleted(was, nextId, deleted, i, objects[i]);
          nextId := nextId + 1;
          held := held[i := 1];
          return Success, i;
        }
        i := i + 1;
      }
      return InitFailed, 0;
    }

    /** ObpFindHandleEntry */
    method FindEntry(value: nat) returns (r: Option<nat>)
      requires handles.Length == MAX_HANDLES
      ensures r.Some? ==> FirstOf(handles[..], value, r.value)
      ensures r.None? ==> forall h :: !Resolves(handles[..], value, h)
    {
      var h := 0;
      while h < MAX_HANDLES
        invariant 0 <= h <= MAX_HANDLES
        invariant forall k: nat | k < h :: !Resolves(handles[..], value, k)
      {
        if handles[h].inUse && handles[h].value == value {
          return Some(h);
        }
        h := h + 1;
      }
      return None;
    }

    /** ObInsertHandle, for an object the caller holds: the first free entry gets the next value. */
    method InsertHandle(target: nat, granted: nat) returns (status: KStatus, value: nat, ghost h: nat)
      requires Valid() && target < MAX_OBJECTS && held[target] > 0
      modifies this`nextHandle, this`wrapped, objects, handles
      ensures Valid()
      ensures status == AccessDenied <==> !BitsWithin(granted, old(objects[target]).access)
      ensures status == InitFailed ==> forall h | 0 <= h < MAX_HANDLES :: handles[h].inUse
      ensures status == Success || status == InitFailed || status == AccessDenied
      ensures status != Success ==> objects[..] == old(objects[..]) && handles[..] == old(handles[..])
      ensures status == Success ==> value == old(nextHandle) && h < MAX_HANDLES && !old(handles[h]).inUse
      ensures nextHandle == if status == Success then (old(nextHandle) + 4) % U32 else old(nextHandle)
      ensures wrapped <==> old(wrapped) || (status == Success && old(nextHandle) + 4 >= U32)
      ensures status == Success ==> forall g | 0 <= g < h :: old(handles[g]).inUse
      ensures status == Success ==> handles[..] == old(handles[..])[h := Entry(true, value, target, granted)]
      ensures status == Success ==> objects[..] == Retained(old(objects[..]), target)
    {
      hide Fresh, Deleted, Balanced, Count;
      HeldInUse(objects[..], handles[..], held, target);
      if !BitsWithin(granted, objects[target].access) {
        return AccessDenied, 0, 0;
      }
      var i := 0;
      while i < MAX_HANDLES
        invariant 0 <= i <= MAX_HANDLES
        invariant forall k | 0 <= k < i :: handles[k].inUse
      {
        if !handles[i].inUse {
          ghost var (was, table) := (objects[..], handles[..]);
          var entry := Entry(true, nextHandle, target, granted);
          InsertedBalanced(was, table, held, i, entry);
          RetainedDeleted(was, nextId, deleted, target);
          if !wrapped { InsertedFresh(table, nextHandle, closed, i, entry); }
          handles[i] := entry;
          value := nextHandle;
          wrapped := wrapped || nextHandle + 4 >= U32;
          nextHandle := (nextHandle + 4) % U32;
          objects[target] := objects[target].(refs := objects[target].refs + 1);
          assert objects[..] == Retained(was, target) && handles[..] == table[i := entry];
          return Success, value, i;
        }
        i := i + 1;
      }
      return InitFailed, 0, 0;
    }

    /** ObReferenceObjectByHandle: one more reference, now held by the caller. */
    method ReferenceByHandle(value: nat, desired: nat, kind: Option<nat>)
      returns (status: KStatus, target: nat, ghost h: nat)
      requires Valid()
      modifies this`held, objects
      ensures Valid()
      ensures value == 0 ==> status == InvalidParameter
      ensures value != 0 && (forall h :: !Resolves(handles[..], value, h)) ==> status == NotFound
      ensures value != 0 ==> forall g: nat | FirstOf(handles[..], value, g) ::
                status == LookupStatus(old(objects[..]), handles[g], desired, kind)
      ensures status != Success ==> objects[..] == old(objects[..]) && held == old(held)
      ensures status == Success ==> target < MAX_OBJECTS && old(objects[target]).inUse
      ensures status == Success ==> FirstOf(handles[..], value, h) && handles[h].target == target
      ensures status == Success ==> BitsWithin(desired, handles[h].granted)
      ensures status == Success && kind.Some? ==> objects[target].kind == kind
      ensures status == Success ==> held == old(held)[target := old(held)[target] + 1]
      ensures status == Success ==> objects[..] == Retained(old(objects[..]), target)
    {
      hide Fresh, Deleted, Balanced, Count;
      if value == 0 {
        return InvalidParameter, 0, 0;
      }
      var found := FindEntry(value);
      if found.None? {
        return NotFound, 0, 0;
      }
      var entry := handles[found.value];
      if !BitsWithin(desired, entry.granted) {
        return AccessDenied, 0, 0;
      }
      HandleTarget(objects[..], handles[..], held, found.value);
      if kind.Some? && objects[entry.target].kind != kind {
        return NotFound, 0, 0;
      }
      status, target, h := Success, entry.target, found.value;
      ghost var was := objects[..];
      HeldInUse(was, handles[..], held, target);
      RetainedHeld(was, handles[..], held, target);
      RetainedDeleted(was, nextId, deleted, target);
      objects[target] := objects[target].(refs := objects[target].refs + 1);
      assert objects[..] == Retained(was, target);
      held := held[target := held[target] + 1];
    }

    /** The count goes down; at zero the delete routine runs and the slot is freed. */
    method Drop(target: nat)
      requires objects.Length == MAX_OBJECTS && target < MAX_OBJECTS && objects[target].refs > 0
      modifies this`deleted, objects
      ensures objects[..] == Dropped(old(objects[..]), target)
      ensures if old(objects[target]).refs == 1 then !objects[target].inUse && objects[target].kind == None
                else objects[target] == old(objects[target]).(refs := old(objects[target]).refs - 1)
      ensures deleted == DroppedLog(old(objects[..]), old(deleted), target)
    {
      ghost var was := objects[..];
      var o := objects[target];
      objects[target] := o.(refs := o.refs - 1);
      if o.refs - 1 != 0 {
        assert objects[..] == Dropped(was, target);
        return;
      }
      deleted := deleted + [o.id];
      objects[target] := objects[target].(inUse := false, kind := None, access := 0);
      assert objects[..] == Dropped(was, target);
    }

    /** ObDereferenceObject, by a caller that gives up a reference of its own. */
    method Dereference(target: nat) returns (status: KStatus)
      requires Valid() && target < MAX_OBJECTS && (objects[target].refs > 0 ==> held[target] > 0)
      modifies this`held, this`deleted, objects
      ensures Valid()
      ensures status == if old(objects[target]).refs == 0 then InvalidParameter else Success
      ensures status != Success ==> objects[..] == old(objects[..]) && held == old(held) && deleted == old(deleted)
      ensures status == Success ==> objects[..] == Dropped(old(objects[..]), target)
      ensures status == Success ==>
                if old(objects[target]).refs == 1 then !objects[target].inUse && objects[target].kind == None
                else objects[target] == old(objects[target]).(refs := old(objects[target]).refs - 1)
      ensures status == Success ==> held == old(held)[target := old(held)[target] - 1]
      ensures status == Success ==> deleted == DroppedLog(old(objects[..]), old(deleted), target)
    {
      hide Fresh, Deleted, Balanced, Count, Dropped, DroppedLog;
      if objects[target].refs == 0 {
        return InvalidParameter;
      }
      ghost var (was, table) := (objects[..], handles[..]);
      HeldInUse(was, table, held, target);
      DroppedHeld(was, table, held, target);
      DroppedDeleted(was, nextId, deleted, target);
      Drop(target);
      held := held[target := held[target] - 1];
      assert objects[..] == Dropped(was, target) && handles[..] == table;
      status := Success;
    }

    /** ObCloseHandle.  The type of the object closed says whose delete routine runs if that was the last
        count. */
    method CloseHandle(value: nat) returns (status: KStatus, ghost h: nat, target: nat, kind: Option<nat>)
      requires Valid()
      modifies this`deleted, this`closed, objects, handles
      ensures Valid()
      ensures value == 0 ==> status == InvalidParameter
      ensures value != 0 && (forall h :: !Resolves(old(handles[..]), value, h)) ==> status == NotFound
      ensures value != 0 && (exists g :: Resolves(old(handles[..]), value, g)) ==> status == Success
      ensures status == Success || handles[..] == old(handles[..])
      ensures status == Success || (objects[..] == old(objects[..]) && deleted == old(deleted))
      ensures status == Success ==> FirstOf(old(handles[..]), value, h) && old(handles[h]).target == target
      ensures status == Success ==> target < MAX_OBJECTS && old(objects[target]).inUse && old(objects[target]).refs > 0
      ensures status == Success ==> kind == old(objects[target]).kind
      ensures status == Success ==> handles[..] == old(handles[..])[h := NO_ENTRY] && closed == old(closed) + {value}
      ensures status == Success ==> objects[..] == Dropped(old(objects[..]), target)
      ensures status == Success ==>
                if old(objects[target]).refs == 1 then !objects[target].inUse && objects[target].kind == None
                else objects[target] == old(objects[target]).(refs := old(objects[target]).refs - 1)
      ensures status == Success ==> deleted == DroppedLog(old(objects[..]), old(deleted), target)
    {
      hide Fresh, Deleted, Balanced, Count;
      if value == 0 {
        return InvalidParameter, 0, 0, None;
      }
      var found := FindEntry(value);
      if found.None? {
        return NotFound, 0, 0, None;
      }
      var i := found.value;
      h, target := i, handles[i].target;
      ghost var (was, table) := (objects[..], handles[..]);
      HandleTarget(was, table, held, i);
      DroppedHandle(was, table, held, i);
      DroppedDeleted(was, nextId, deleted, target);
      kind := objects[target].kind;
      if !wrapped { ClosedFresh(table, nextHandle, closed, i); }
      Drop(target);
      handles[i] := NO_ENTRY;
      assert handles[..] == table[i := NO_ENTRY];
      closed := closed + {value};
      status := Success;
    }

    /** A reference held anywhere, by a handle or outside the table, keeps its object from being deleted. */
    lemma HeldSurvives(i: nat)
      requires Valid() && i < MAX_OBJECTS
      ensures objects[i].inUse <==> held[i] > 0 || exists h :: 0 <= h < MAX_HANDLES && Names(handles[h], i)
      ensures objects[i].inUse ==> objects[i].id !in deleted
    {
      assert Count(handles[..], i) > 0 <==> exists h :: 0 <= h < |handles[..]| && Names(handles[..][h], i);
    }

    /** Before the counter wraps, a closed value resolves to nothing, and no value to two handles. */
    lemma ClosedStaysClosed(value: nat)
      requires Valid() && !wrapped
      ensures value in closed ==> forall h :: !Resolves(handles[..], value, h)
      ensures forall g, h :: Resolves(handles[..], value, g) && Resolves(handles[..], value, h) ==> g == h
    {
    }
  }

  /** The table after the count of object i goes up by one. */
  function Retained(objects: seq<Object>, i: nat): (r: seq<Object>)
    requires i < |objects|
    ensures |r| == |objects|
  {
    objects[i := objects[i].(refs := objects[i].refs + 1)]
  }

  /** The table after the count of object i goes down by one. */
  function Dropped(objects: seq<Object>, i: nat): (r: seq<Object>)
    requires i < |objects| && objects[i].refs > 0
    ensures |r| == |objects|
  {
    var o := objects[i];
    objects[i := if o.refs == 1 then Object(false, o.id, None, 0, 0) else o.(refs := o.refs - 1)]
  }

  function DroppedLog(objects: seq<Object>, log: seq<nat>, i: nat): (r: seq<nat>)
    requires i < |objects|
  {
    if objects[i].refs == 1 then log + [objects[i].id] else log
  }

  predicate AllInUse(objects: seq<Object>) { forall i | 0 <= i < |objects| :: objects[i].inUse }

  /** Every entry of the handle table is in use. */
  predicate AllUsed(handles: seq<Entry>) { forall h | 0 <= h < |handles| :: handles[h].inUse }

  /** The object's slot is free, or it is of the kind. */
  predicate OfKind(o: Object, kind: Option<nat>) { !o.inUse || o.kind == kind }

  predicate IsA(o: Object, kind: nat) { o.inUse && o.kind == Some(kind) }

  /** The reference to i that is given up is a handle's, or that of a call. */
  ghost predicate GivenUp(held: seq<nat>, calls: multiset<nat>, after: seq<nat>, callsLeft: multiset<nat>, i: nat) {
    && i < |held| == |after| && after[i] + calls[i] == held[i] + callsLeft[i]
    && (forall h | 0 <= h < |held| && h != i :: after[h] == held[h])
    && (forall h: nat | h != i :: callsLeft[h] == calls[h])
  }

  /** Only objects of the kind have come, gone or changed. */
  ghost predicate OnlyOfKind(a: seq<Object>, b: seq<Object>, kind: Option<nat>) {
    |a| == |b| && forall i | 0 <= i < |a| :: a[i] == b[i] || (OfKind(a[i], kind) && OfKind(b[i], kind))
  }

  /** An object of the kind loses a count, or one it has just been given. */
  lemma OneKind(a: seq<Object>, kind: nat, i: nat)
    requires i < |a| && IsA(a[i], kind) && a[i].refs > 0
    ensures OnlyOfKind(a, Dropped(a, i), Some(kind)) && OnlyOfKind(a, Dropped(Retained(a, i), i), Some(kind))
  {
  }

  /** An object of the kind is new, and after that only such objects change. */
  lemma OnlyCreated(a: seq<Object>, b: seq<Object>, c: seq<Object>, i: nat, kind: nat)
    requires i < |a| == |b| && !a[i].inUse && b == a[i := b[i]] && IsA(b[i], kind) && OnlyOfKind(b, c, Some(kind))
    ensures OnlyOfKind(a, c, Some(kind))
  {
    forall k | 0 <= k < |a| ensures a[k] == c[k] || (OfKind(a[k], Some(kind)) && OfKind(c[k], Some(kind))) {
      assert b[k] == c[k] || (OfKind(b[k], Some(kind)) && OfKind(c[k], Some(kind)));
    }
  }

  /** A reference taken and given up again leaves no trace. */
  lemma LookupUndone(objects: seq<Object>, log: seq<nat>, held: seq<nat>, i: nat)
    requires i < |objects| == |held| && objects[i].inUse && objects[i].refs > 0
    ensures Dropped(Retained(objects, i), i) == objects && DroppedLog(Retained(objects, i), log, i) == log
    ensures held[i := held[i] + 1][i := held[i := held[i] + 1][i] - 1] == held
  {
  }

  lemma HandleTarget(objects: seq<Object>, handles: seq<Entry>, held: seq<nat>, h: nat)
    requires Balanced(objects, handles, held) && h < |handles| && handles[h].inUse
    ensures handles[h].target < |objects| && objects[handles[h].target].inUse && objects[handles[h].target].refs > 0
  {
    assert Names(handles[h], handles[h].target);
  }

  lemma InsertedBalanced(objects: seq<Object>, handles: seq<Entry>, held: seq<nat>, h: nat, e: Entry)
    requires Balanced(objects, handles, held) && h < |handles| && !handles[h].inUse
    requires e.inUse && e.target < |objects| && held[e.target] > 0
    ensures Balanced(Retained(objects, e.target), handles[h := e], held)
  {
    forall i | 0 <= i < |objects|
      ensures Count(handles[h := e], i) == Count(handles, i) + if i == e.target then 1 else 0
    {
      CountUpdate(handles, h, e, i);
    }
  }

  lemma RetainedHeld(objects: seq<Object>, handles: seq<Entry>, held: seq<nat>, i: nat)
    requires Balanced(objects, handles, held) && i < |objects| && objects[i].inUse
    ensures Balanced(Retained(objects, i), handles, held[i := held[i] + 1])
  {
  }

  lemma HeldInUse(objects: seq<Object>, handles: seq<Entry>, held: seq<nat>, i: nat)
    requires Balanced(objects, handles, held) && i < |objects|
    ensures i < |held| == |objects| && objects[i].refs >= held[i] && (objects[i].inUse <==> objects[i].refs > 0)
  {
  }

  lemma DroppedHeld(objects: seq<Object>, handles: seq<Entry>, held: seq<nat>, i: nat)
    requires Balanced(objects, handles, held) && i < |objects| && held[i] > 0 && objects[i].refs > 0
    ensures Balanced(Dropped(objects, i), handles, held[i := held[i] - 1])
  {
  }

  lemma DroppedHandle(objects: seq<Object>, handles: seq<Entry>, held: seq<nat>, h: nat)
    requires Balanced(objects, handles, held) && h < |handles| && handles[h].inUse && handles[h].target < |objects|
    requires objects[handles[h].target].refs > 0
    ensures Balanced(Dropped(objects, handles[h].target), handles[h := NO_ENTRY], held)
  {
    var t := handles[h].target;
    forall i | 0 <= i < |objects|
      ensures Count(handles[h := NO_ENTRY], i) + (if i == t then 1 else 0) == Count(handles, i)
    {
      CountUpdate(handles, h, NO_ENTRY, i);
    }
  }

  lemma RetainedDeleted(objects: seq<Object>, nextId: nat, log: seq<nat>, i: nat)
    requires Deleted(objects, nextId, log) && i < |objects| && objects[i].inUse
    ensures Deleted(Retained(objects, i), nextId, log)
  {
    RefsLogged(objects, nextId, log, i, objects[i].(refs := objects[i].refs + 1));
  }

  lemma RefsLogged(objects: seq<Object>, nextId: nat, log: seq<nat>, i: nat, o: Object)
    requires Deleted(objects, nextId, log) && i < |objects| && objects[i].inUse && o.inUse && o.id == objects[i].id
    ensures Deleted(objects[i := o], nextId, log)
  {
    var after := objects[i := o];
    forall id | 1 <= id < nextId ensures id in log || Exists(after, id) {
      if id !in log {
        var k :| 0 <= k < |objects| && objects[k].inUse && objects[k].id == id;
        assert after[k].inUse && after[k].id == id;
      }
    }
  }

  lemma DroppedDeleted(objects: seq<Object>, nextId: nat, log: seq<nat>, i: nat)
    requires Deleted(objects, nextId, log) && i < |objects| && objects[i].inUse && objects[i].refs > 0
    ensures Deleted(Dropped(objects, i), nextId, DroppedLog(objects, log, i))
  {
    if objects[i].refs > 1 {
      RefsLogged(objects, nextId, log, i, objects[i].(refs := objects[i].refs - 1));
    } else {
      var (after, longer) := (Dropped(objects, i), log + [objects[i].id]);
      forall id | 1 <= id < nextId ensures id in longer || Exists(after, id) {
        if id in log {
          assert id in longer;
        } else {
          var k :| 0 <= k < |objects| && objects[k].inUse && objects[k].id == id;
          if k == i { assert longer[|log|] == id; } else { assert after[k].inUse && after[k].id == id; }
        }
      }
    }
  }

  lemma InsertedFresh(handles: seq<Entry>, next: nat, closed: set<nat>, h: nat, e: Entry)
    requires Fresh(handles, next, closed) && h < |handles| && !handles[h].inUse && e.inUse && e.value == next
    ensures Fresh(handles[h := e], next + 4, closed)
  {
  }

  lemma ClosedFresh(handles: seq<Entry>, next: nat, closed: set<nat>, h: nat)
    requires Fresh(handles, next, closed) && h < |handles| && handles[h].inUse
    ensures Fresh(handles[h := NO_ENTRY], next, closed + {handles[h].value})
  {
  }

  lemma CreatedBalanced(objects: seq<Object>, handles: seq<Entry>, held: seq<nat>, i: nat, o: Object)
    requires Balanced(objects, handles, held) && i < |objects| && !objects[i].inUse && o.inUse && o.refs == 1
    ensures |held| == |objects|
    ensures Balanced(objects[i := o], handles, held[i := 1])
  {
  }

  lemma CreatedDeleted(objects: seq<Object>, nextId: nat, log: seq<nat>, i: nat, o: Object)
    requires Deleted(objects, nextId, log) && i < |objects| && !objects[i].inUse && o.inUse && o.id == nextId
    ensures Deleted(objects[i := o], nextId + 1, log)
  {
    var after := objects[i := o];
    assert after[i].inUse && after[i].id == nextId;
    forall id | 1 <= id < nextId + 1 ensures id in log || Exists(after, id) {
      if id < nextId && id !in log {
        assert Exists(objects, id);
        var k :| 0 <= k < |objects| && objects[k].inUse && objects[k].id == id;
        assert after[k].inUse && after[k].id == id;
      }
    }
  }
}
