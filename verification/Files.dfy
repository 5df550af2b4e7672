/** File objects over the object manager: opening, reading, and reading an image whole. */
module Files {
  import opened Bits
  import opened Bytes
  import opened Machine
  import opened Objects
  import opened Status

  const MAX_FILES: nat := 128
  const FILE_READ: nat := 1
  const FILE_ALL: nat := 7
  const SPAWN_MAX: nat := 0x100_0000

  /** IO_FILE_OBJECT with its in-use byte. */
  datatype FileSlot = FileSlot(inUse: bool, header: Option<nat>, data: seq<byte>, access: nat)

  const NO_FILE := FileSlot(false, None, [], 0)

  /** A slot taken for a file that got no object. */
  const LOST := FileSlot(true, None, [], 0)

  predicate FileOf(files: seq<FileSlot>, k: nat, h: nat) {
    k < |files| && files[k].inUse && files[k].header == Some(h)
  }

  /** File objects and their slots belong to one another one to one. */
  ghost predicate Paired(files: seq<FileSlot>, objects: seq<Object>, kind: nat) {
    && |files| == MAX_FILES && |objects| == MAX_OBJECTS
    && (forall k: nat, h: nat | FileOf(files, k, h) ::
        h < MAX_OBJECTS && IsA(objects[h], kind))
    && (forall k: nat, l: nat, h: nat | FileOf(files, k, h) && FileOf(files, l, h) :: k == l)
    && (forall h | 0 <= h < MAX_OBJECTS && IsA(objects[h], kind) ::
        exists k: nat :: FileOf(files, k, h))
  }

  /** Besides handles, only calls in progress hold references to file objects. */
  ghost predicate Quiet(objects: seq<Object>, held: seq<nat>, calls: multiset<nat>, kind: nat) {
    |held| == |objects| && forall h | 0 <= h < |objects| && IsA(objects[h], kind) :: held[h] == calls[h]
  }

  lemma QuietDropped(objects: seq<Object>, held: seq<nat>, calls: multiset<nat>, kind: nat, i: nat, after: seq<nat>,
                     callsLeft: multiset<nat>)
    requires Quiet(objects, held, calls, kind) && i < |objects| && objects[i].refs > 0
    requires objects[i].inUse && GivenUp(held, calls, after, callsLeft, i)
    ensures Quiet(Dropped(objects, i), after, callsLeft, kind)
  {
  }

  lemma QuietOpened(objects: seq<Object>, held: seq<nat>, kind: nat, i: nat, o: Object)
    requires Quiet(objects, held, multiset{}, kind) && i < |objects|
    ensures Quiet(objects[i := o], held[i := 1], multiset{i}, kind)
  {
  }

  lemma QuietRetained(objects: seq<Object>, held: seq<nat>, calls: multiset<nat>, kind: nat, i: nat)
    requires Quiet(objects, held, calls, kind) && i < |objects|
    ensures Quiet(Retained(objects, i), held, calls, kind)
  {
  }

  lemma PairedRetained(files: seq<FileSlot>, objects: seq<Object>, kind: nat, i: nat)
    requires Paired(files, objects, kind) && i < MAX_OBJECTS
    ensures Paired(files, Retained(objects, i), kind)
  {
    var after := Retained(objects, i);
    forall h | 0 <= h < MAX_OBJECTS && IsA(after[h], kind)
      ensures exists k: nat :: FileOf(files, k, h)
    {
      assert IsA(objects[h], kind);
    }
  }

  lemma PairedOpened(files: seq<FileSlot>, objects: seq<Object>, kind: nat, k: nat, slot: FileSlot, i: nat, o: Object)
    requires Paired(files, objects, kind) && k < MAX_FILES && !files[k].inUse && i < MAX_OBJECTS && !objects[i].inUse
    requires slot.inUse && slot.header == Some(i) && o.inUse && o.kind == Some(kind)
    ensures Paired(files[k := slot], objects[i := o], kind)
  {
    var (after, made) := (files[k := slot], objects[i := o]);
    forall h | 0 <= h < MAX_OBJECTS && IsA(made[h], kind)
      ensures exists l: nat :: FileOf(after, l, h)
    {
      if h == i { assert FileOf(after, k, i); }
      else { var l: nat :| FileOf(files, l, h); assert FileOf(after, l, h); }
    }
    forall l: nat, h: nat | FileOf(after, l, h) ensures h < MAX_OBJECTS && IsA(made[h], kind) {
      assert l != k ==> FileOf(files, l, h);
    }
    forall l: nat, m: nat, h: nat | FileOf(after, l, h) && FileOf(after, m, h) ensures l == m {
      assert l != k ==> FileOf(files, l, h) && h != i;
      assert m != k ==> FileOf(files, m, h) && h != i;
    }
  }

  /** A slot no object has yet. */
  lemma PairedLeaked(files: seq<FileSlot>, objects: seq<Object>, kind: nat, k: nat)
    requires Paired(files, objects, kind) && k < MAX_FILES && !files[k].inUse
    ensures Paired(files[k := LOST], objects, kind)
  {
    var after := files[k := LOST];
    forall l: nat, h: nat ensures FileOf(after, l, h) == FileOf(files, l, h) {
    }
    forall h | 0 <= h < MAX_OBJECTS && IsA(objects[h], kind)
      ensures exists l: nat :: FileOf(after, l, h)
    {
      var l: nat :| FileOf(files, l, h);
      assert FileOf(after, l, h);
    }
  }

  lemma PairedDropped(files: seq<FileSlot>, objects: seq<Object>, kind: nat, i: nat)
    requires Paired(files, objects, kind) && i < MAX_OBJECTS && objects[i].refs > 1
    ensures Paired(files, Dropped(objects, i), kind)
  {
    var after := Dropped(objects, i);
    forall h | 0 <= h < MAX_OBJECTS && IsA(after[h], kind)
      ensures exists k: nat :: FileOf(files, k, h)
    {
      assert IsA(objects[h], kind);
    }
  }

  /** The last count goes, and with it the slot of the file. */
  lemma PairedDeleted(files: seq<FileSlot>, objects: seq<Object>, kind: nat, i: nat, k: nat)
    requires Paired(files, objects, kind) && i < MAX_OBJECTS && objects[i].refs == 1 && FileOf(files, k, i)
    ensures Paired(files[k := NO_FILE], Dropped(objects, i), kind)
  {
    var (after, left) := (Dropped(objects, i), files[k := NO_FILE]);
    forall l: nat, h: nat ensures FileOf(left, l, h) <==> FileOf(files, l, h) && h != i {
      assert FileOf(files, l, i) ==> l == k;
    }
    forall h | 0 <= h < MAX_OBJECTS && IsA(after[h], kind)
      ensures exists l: nat :: FileOf(left, l, h)
    {
      var l: nat :| FileOf(files, l, h);
      assert FileOf(left, l, h);
    }
  }

  /** The object was no file. */
  lemma PairedOther(files: seq<FileSlot>, objects: seq<Object>, kind: nat, i: nat)
    requires Paired(files, objects, kind) && i < MAX_OBJECTS && objects[i].refs == 1 && objects[i].inUse &&
        objects[i].kind != Some(kind)
    ensures Paired(files, Dropped(objects, i), kind) && forall k: nat :: !FileOf(files, k, i)
  {
    var after := Dropped(objects, i);
    forall h | 0 <= h < MAX_OBJECTS && IsA(after[h], kind)
      ensures exists k: nat :: FileOf(files, k, h)
    {
      assert IsA(objects[h], kind);
    }
  }

  // The slots as a pool: which are free, which an open takes for good, which a delete returns.

  /** The first free slot from k on. */
  function FirstFree(files: seq<FileSlot>, k: nat): (r: Option<nat>)
    decreases |files| - k
  {
    if k >= |files| then None else if !files[k].inUse then Some(k) else FirstFree(files, k + 1)
  }

  lemma {:induction false} FirstFreeFound(files: seq<FileSlot>, k: nat)
    requires k <= |files|
    ensures var r := FirstFree(files, k);
      && (r.Some? ==> k <= r.value < |files| && !files[r.value].inUse && forall l | k <= l < r.value :: files[l].inUse)
      && (r.None? ==> forall l | k <= l < |files| :: files[l].inUse)
    decreases |files| - k
  {
    if k < |files| && files[k].inUse { FirstFreeFound(files, k + 1); }
  }

  predicate AllTaken(files: seq<FileSlot>) { forall k | 0 <= k < |files| :: files[k].inUse }

  /** The slots after an open that got no object. */
  function Leaked(files: seq<FileSlot>): (r: seq<FileSlot>)
    ensures |r| == |files|
  {
    match FirstFree(files, 0)
    case None => files
    case Some(k) => if k < |files| then files[k := LOST] else files
  }

  /** The slots after a reference to object i is gone: with the last one the file's slot is free. */
  function FilesAfter(files: seq<FileSlot>, objects: seq<Object>, i: nat): (r: seq<FileSlot>)
    requires i < |objects|
    ensures |r| == |files|
  {
    if objects[i].refs != 1 then files
    else seq(|files|, k requires 0 <= k < |files| => if FileOf(files, k, i) then NO_FILE else files[k])
  }

  /** A new file whose only reference is given up leaves its slot free again. */
  lemma SlotReturned(pool: seq<FileSlot>, files: seq<FileSlot>, objects: seq<Object>, i: nat, k: nat)
    requires i < |objects| && k < |pool| && !pool[k].inUse && |files| == |pool| && files == pool[k := files[k]]
    requires forall l: nat | l != k :: !FileOf(files, l, i)
    requires FileOf(files, k, i)
    ensures objects[i].refs == 1 ==> SameFiles(pool, FilesAfter(files, objects, i))
    ensures objects[i].refs != 1 ==> FilesAfter(files, objects, i) == files
    ensures forall l | 0 <= l < |pool| && l != k :: FilesAfter(files, objects, i)[l] == pool[l]
  {
  }

  function FreeSlots(files: seq<FileSlot>): (n: nat)
    ensures n == 0 <==> AllTaken(files)
  {
    if files == [] then 0 else
    var n := FreeSlots(files[1..]);
    assert forall k | 1 <= k < |files| :: files[k] == files[1..][k - 1];
    if files[0].inUse then n else n + 1
  }

  lemma {:induction false} SlotTaken(files: seq<FileSlot>, k: nat, slot: FileSlot)
    requires k < |files| && !files[k].inUse && slot.inUse
    ensures FreeSlots(files[k := slot]) == FreeSlots(files) - 1
  {
    if k > 0 {
      assert files[k := slot][1..] == files[1..][k - 1 := slot];
      SlotTaken(files[1..], k - 1, slot);
    } else {
      assert files[k := slot][1..] == files[1..];
    }
  }

  /** n opens in a row that get no object. */
  function LeakedTimes(files: seq<FileSlot>, n: nat): (r: seq<FileSlot>)
    ensures |r| == |files|
  {
    if n == 0 then files else Leaked(LeakedTimes(files, n - 1))
  }

  /** Each of them costs a slot; once they have cost all that were free, no open succeeds until a file
      is closed.  What is lost stays lost. */
  lemma {:induction false} LeaksExhaust(files: seq<FileSlot>, n: nat)
    ensures var after := LeakedTimes(files, n);
      && FreeSlots(after) == (if n < FreeSlots(files) then FreeSlots(files) - n else 0)
      && (AllTaken(after) <==> n >= FreeSlots(files))
      && OnlyLost(files, after)
  {
    if n > 0 {
      LeaksExhaust(files, n - 1);
      LeakCosts(LeakedTimes(files, n - 1));
    }
  }

  /** Slots in use are as they were, the others free or lost. */
  predicate OnlyLost(files: seq<FileSlot>, after: seq<FileSlot>) {
    |after| == |files| &&
    forall k | 0 <= k < |files| :: after[k] == files[k] || (!files[k].inUse && after[k] == LOST)
  }

  lemma LeakCosts(files: seq<FileSlot>)
    ensures FreeSlots(Leaked(files)) == if AllTaken(files) then 0 else FreeSlots(files) - 1
    ensures OnlyLost(files, Leaked(files))
  {
    hide FreeSlots;
    FirstFreeFound(files, 0);
    match FirstFree(files, 0)
    case None =>
    case Some(k) => SlotTaken(files, k, LOST);
  }

  /** No delete routine frees a lost slot. */
  lemma LostForever(files: seq<FileSlot>, objects: seq<Object>, i: nat, k: nat)
    requires i < |objects| && k < |files| && files[k] == LOST
    ensures FilesAfter(files, objects, i)[k] == LOST
  {
  }

  /** A state in which an open loses a slot: all objects exist, none is a file, every slot is free. */
  lemma LeakHappens(kind: nat)
    ensures var objects := seq(MAX_OBJECTS,
              i requires 0 <= i < MAX_OBJECTS => Object(true, i + 1, Some(kind + 1), 1, 0));
            var files := seq(MAX_FILES, _ => NO_FILE);
      && Balanced(objects, seq(MAX_HANDLES, _ => NO_ENTRY), seq(MAX_OBJECTS, _ => 1)) &&
          Deleted(objects, MAX_OBJECTS + 1, [])
      && Paired(files, objects, kind) && AllInUse(objects) && !AllTaken(files)
      && !SameFiles(files, Leaked(files)) && AllTaken(LeakedTimes(files, MAX_FILES))
  {
    var objects := seq(MAX_OBJECTS, i requires 0 <= i < MAX_OBJECTS => Object(true, i + 1, Some(kind + 1), 1, 0));
    var files := seq(MAX_FILES, _ => NO_FILE);
    forall id | 1 <= id < MAX_OBJECTS + 1 ensures Exists(objects, id) { assert objects[id - 1].id == id; }
    var table := seq(MAX_HANDLES, _ => NO_ENTRY);
    assert forall i: nat, h | 0 <= h < |table| :: !Names(table[h], i);
    AllFree(files);
    LeaksExhaust(files, MAX_FILES);
    assert FirstFree(files, 0) == Some(0);
    assert files[0] != Leaked(files)[0];
  }

  lemma {:induction false} AllFree(files: seq<FileSlot>)
    requires forall k | 0 <= k < |files| :: !files[k].inUse
    ensures FreeSlots(files) == |files|
  {
    if files != [] { AllFree(files[1..]); }
  }

  class FileManager {
    const ob: ObjectManager
    /** The number of the file type. */
    const kind: nat
    /** The registered boot files. */
    const boot: map<string, seq<byte>>
    var files: seq<FileSlot>

    /** Between two calls, but for the calls in progress that hold a reference to a file. */
    ghost predicate Within(calls: multiset<nat>)
      reads this, ob, ob.objects, ob.handles
    {
      ob.Valid() && Paired(files, ob.objects[..], kind) && Quiet(ob.objects[..], ob.held, calls, kind)
    }

    ghost predicate Valid()
      reads this, ob, ob.objects, ob.handles
    {
      Within(multiset{})
    }

    /** Between calls the count of a file is its handles, and nothing else. */
    lemma FileReferences(h: nat)
      requires Valid() && h < MAX_OBJECTS && IsA(ob.objects[h], kind)
      ensures ob.objects[h].refs == Count(ob.handles[..], h)
    {
    }

    constructor (ob: ObjectManager, kind: nat, boot: map<string, seq<byte>>)
      requires ob.Valid() && forall i | 0 <= i < MAX_OBJECTS :: ob.objects[i].kind != Some(kind)
      ensures Valid() && this.ob == ob && this.kind == kind && this.boot == boot
    {
      HeldInUse(ob.objects[..], ob.handles[..], ob.held, 0);
      this.ob, this.kind, this.boot := ob, kind, boot;
      files := seq(MAX_FILES, _ => NO_FILE);
    }

    /** IopAllocateFileSlot, the search. */
    method FreeSlot() returns (r: Option<nat>)
      requires |files| == MAX_FILES
      ensures r == FirstFree(files, 0)
      ensures r.Some? ==> r.value < MAX_FILES && !files[r.value].inUse
      ensures r.None? ==> forall k | 0 <= k < MAX_FILES :: files[k].inUse
    {
      var k := 0;
      while k < MAX_FILES
        invariant 0 <= k <= MAX_FILES
        invariant FirstFree(files, 0) == FirstFree(files, k)
        invariant forall l | 0 <= l < k :: files[l].inUse
      {
        if !files[k].inUse {
          return Some(k);
        }
        k := k + 1;
      }
      return None;
    }

    /** IopFindFileByHeader */
    method FindFile(h: nat) returns (r: Option<nat>)
      requires |files| == MAX_FILES
      ensures r.Some? ==> FileOf(files, r.value, h)
      ensures r.None? ==> forall k: nat :: !FileOf(files, k, h)
    {
      var k := 0;
      while k < MAX_FILES
        invariant 0 <= k <= MAX_FILES
        invariant forall l: nat | l < k :: !FileOf(files, l, h)
      {
        if files[k].inUse && files[k].header == Some(h) {
          return Some(k);
        }
        k := k + 1;
      }
      return None;
    }

    /** What object i being gone, or not, does to the files: the delete routine of a file frees its slot. */
    method FileGone(i: nat, ghost objects: seq<Object>, ghost held: seq<nat>, ghost calls: multiset<nat>,
                    ghost callsLeft: multiset<nat>)
      requires ob.Valid() && i < MAX_OBJECTS && Paired(files, objects, kind) && Quiet(objects, held, calls, kind)
      requires objects[i].inUse && objects[i].refs > 0 && ob.objects[..] == Dropped(objects, i)
      requires GivenUp(held, calls, ob.held, callsLeft, i)
      modifies this`files
      ensures Within(callsLeft) && files == FilesAfter(old(files), objects, i)
    {
      hide Paired, Balanced, Deleted, Fresh, Count, Quiet;
      ghost var pool := files;
      PairedShape(files, objects, kind);
      QuietDropped(objects, held, calls, kind, i, ob.held, callsLeft);
      if ob.objects[i].inUse {
        PairedDropped(files, objects, kind, i);
      } else {
        var slot := FindFile(i);
        if slot.Some? {
          PairedDeleted(files, objects, kind, i, slot.value);
          OnlySlot(files, objects, kind, i, slot.value);
          files := files[slot.value := NO_FILE];
          assert files == FilesAfter(pool, objects, i);
        } else {
          NoSlot(files, objects, kind, i);
          PairedOther(files, objects, kind, i);
          assert files == FilesAfter(pool, objects, i);
        }
      }
    }

    /** The reference of a call to object i is given up. */
    method GiveUp(i: nat)
      requires Within(multiset{i}) && i < MAX_OBJECTS && i < |ob.held| && ob.held[i] > 0
      requires IsA(ob.objects[i], kind)
      modifies this`files, ob`held, ob`deleted, ob.objects
      ensures Valid() && ob.held == old(ob.held)[i := old(ob.held)[i] - 1]
      ensures old(ob.objects[i]).refs > 0 && ob.objects[..] == Dropped(old(ob.objects[..]), i)
      ensures ob.deleted == DroppedLog(old(ob.objects[..]), old(ob.deleted), i)
      ensures files == FilesAfter(old(files), old(ob.objects[..]), i)
    {
      hide Paired, Balanced, Deleted, Fresh, Count, FilesAfter, Quiet;
      ghost var (objects, held) := (ob.objects[..], ob.held);
      HeldInUse(objects, ob.handles[..], held, i);
      var status := ob.Dereference(i);
      FileGone(i, objects, held, multiset{i}, multiset{});
    }

    /** IoOpenPath.  Whatever happens, no reference is left outside the handle table.  A failed open
        leaves the files as they were, unless a slot is free and no object is: that slot stays taken. */
    method OpenPath(path: string, desired: nat) returns (status: KStatus, value: nat, ghost h: nat, ghost k: nat)
      requires Valid()
      modifies this`files, ob`nextId, ob`held, ob`deleted, ob`nextHandle, ob`wrapped, ob.objects, ob.handles
      ensures Valid() && ob.held == old(ob.held) && OnlyOfKind(old(ob.objects[..]), ob.objects[..], Some(kind))
      ensures status == Success ==> path in boot && value == old(ob.nextHandle)
      ensures status == Success ==> Resolves(ob.handles[..], value, h) && FileOf(files, k, ob.handles[h].target)
      ensures status == Success ==>
                files == old(files)[k := FileSlot(true, Some(ob.handles[h].target), boot[path], desired)] &&
                !old(files)[k].inUse
      ensures status == Success ==>
                Opened(old(ob.objects[..]), ob.objects[..], old(ob.handles[..]), ob.handles[..], old(ob.nextId), kind,
                    h,
                value, desired)
      ensures status == if desired % (FILE_ALL + 1) == 0 then InvalidParameter
                        else if AllTaken(old(files)) || AllInUse(old(ob.objects[..])) then InitFailed
                        else if path !in boot then NotFound
                        else if !BitsWithin(desired, FILE_ALL) then AccessDenied
                        else if AllUsed(old(ob.handles[..])) then InitFailed else Success
      ensures ob.wrapped <==> old(ob.wrapped) || (status == Success && old(ob.nextHandle) + 4 >= U32)
      ensures desired % (FILE_ALL + 1) != 0 && AllInUse(old(ob.objects[..])) ==>
                status == InitFailed && files == Leaked(old(files)) && ob.objects[..] == old(ob.objects[..])
      ensures |files| == MAX_FILES && forall j | 0 <= j < MAX_FILES && old(files)[j].inUse :: files[j] == old(files)[j]
      ensures status != Success ==>
                (SameFiles(old(files), files) <==>
                 !(desired % (FILE_ALL + 1) != 0 && !AllTaken(old(files)) && AllInUse(old(ob.objects[..]))))
    {
      hide Paired, Balanced, Deleted, Fresh, Count, BitsWithin, FirstFree, FilesAfter, Quiet, OfKind;
      value, h, k := 0, 0, 0;
      PairedShape(files, ob.objects[..], kind);
      FirstFreeFound(files, 0);
      if desired % (FILE_ALL + 1) == 0 {
        return InvalidParameter, 0, 0, 0;
      }
      ghost var (held, pool, objects) := (ob.held, files, ob.objects[..]);
      var slot := FreeSlot();
      if slot.None? {
        return InitFailed, 0, 0, 0;
      }
      k := slot.value;
      files := files[slot.value := LOST];
      var i;
      status, i := ob.CreateObject(kind, FILE_ALL);
      if status != Success {
        PairedLeaked(pool, objects, kind, k);
        return;
      }
      HeldInUse(objects, ob.handles[..], held, i);
      assert held[i := 1][i := 0] == held;
      var data := if path in boot then boot[path] else [];
      files := files[slot.value := FileSlot(true, Some(i), data, desired)];
      assert files == pool[k := files[k]] && ob.objects[..] == objects[i := ob.objects[i]];
      PairedOpened(pool, objects, kind, k, files[k], i, ob.objects[i]);
      QuietOpened(objects, held, kind, i, ob.objects[i]);
      ghost var made := ob.objects[..];
      if path !in boot {
        status := NotFound;
      } else {
        status, value, h := ob.InsertHandle(i, desired);
        if status == Success {
          PairedRetained(files, made, kind, i);
          QuietRetained(made, ob.held, multiset{i}, kind, i);
        }
      }
      OnlySlot(files, ob.objects[..], kind, i, k);
      SlotReturned(pool, files, ob.objects[..], i, k);
      ghost var kept := ob.objects[..];
      GiveUp(i);
      OnlyMade(objects, kept, ob.objects[..], kind, i);
    }

    /** IoReadFileHandle into length bytes of the buffer from `at` on.  The lookup is undone on every path. */
    method ReadFile(value: nat, offset: nat, buffer: array<byte>, at: nat, length: nat)
      returns (status: KStatus, n: nat, ghost h: nat, ghost k: nat)
      requires Valid() && at + length <= buffer.Length
      modifies ob`held, ob`deleted, ob.objects, buffer
      ensures Valid() && ob.objects[..] == old(ob.objects[..]) && ob.held == old(ob.held) &&
                ob.deleted == old(ob.deleted)
      ensures status != Success ==> buffer[..] == old(buffer[..])
      ensures length == 0 || value == 0 ==> status == InvalidParameter
      ensures length > 0 && value != 0 ==> status == ReadStatus(ob.objects[..], ob.handles[..], kind, value)
      ensures status == Success ==> FirstOf(ob.handles[..], value, h) && FileOf(files, k, ob.handles[h].target)
      ensures status == Success ==> BitsWithin(FILE_READ, ob.handles[h].granted)
      ensures status == Success ==> n == |ReadAt(files[k].data, offset, length)|
      ensures status == Success ==>
                n <= length && (n == length || offset + n >= |files[k].data|) &&
                    (n > 0 ==> offset + n <= |files[k].data|)
      ensures status == Success ==> Wrote(old(buffer[..]), buffer[..], at, ReadAt(files[k].data, offset, length))
    {
      hide Paired, Balanced, Deleted, Fresh, Count, BitsWithin, Dropped, DroppedLog, Quiet, ReadStatus,
           LookupStatus;
      n, h, k := 0, 0, 0;
      if length == 0 {
        return InvalidParameter, 0, 0, 0;
      }
      ghost var (objects, held) := (ob.objects[..], ob.held);
      var i;
      status, i, h := ob.ReferenceByHandle(value, FILE_READ, Some(kind));
      if value != 0 { ReadStatusOf(objects, ob.handles[..], kind, value); }
      if status != Success {
        return;
      }
      HeldInUse(objects, ob.handles[..], held, i);
      LookupUndone(objects, ob.deleted, held, i);
      PairedShape(files, objects, kind);
      FileFound(files, objects, kind, i);
      var slot := FindFile(i);
      k := slot.value;
      var data := files[slot.value].data;
      if offset < |data| {
        n := if length < |data| - offset then length else |data| - offset;
        CopyOut(data, offset, buffer, at, n);
      }
      var released := ob.Dereference(i);
      status := Success;
    }

    /** The read loop of IoSpawnProcessFromFileHandle: the whole file ends up at the front of the
        scratch buffer; a file that fills it, or has no bytes, is refused. */
    method ReadImage(value: nat, scratch: array<byte>) returns (status: KStatus, total: nat, ghost h: nat, ghost k: nat)
      requires Valid() && scratch.Length == SPAWN_MAX
      modifies ob`held, ob`deleted, ob.objects, scratch
      ensures Valid() && ob.objects[..] == old(ob.objects[..]) && ob.held == old(ob.held) &&
                ob.deleted == old(ob.deleted)
      ensures status == Success ==> FirstOf(ob.handles[..], value, h) && FileOf(files, k, ob.handles[h].target)
      ensures status == Success ==> 0 < total < SPAWN_MAX && scratch[..total] == files[k].data
      ensures value == 0 ==> status == InvalidParameter
      ensures value != 0 && ReadStatus(ob.objects[..], ob.handles[..], kind, value) != Success ==>
                status == ReadStatus(ob.objects[..], ob.handles[..], kind, value)
      ensures value != 0 && ReadStatus(ob.objects[..], ob.handles[..], kind, value) == Success ==>
                && FirstOf(ob.handles[..], value, h) && FileOf(files, k, ob.handles[h].target)
                && status == ImageStatus(|files[k].data|)
    {
      hide Paired, Balanced, Deleted, Fresh, Count, Quiet, ReadStatus;
      var offset := 0;
      total, h, k := 0, 0, 0;
      while true
        invariant Valid() && ob.objects[..] == old(ob.objects[..]) && ob.held == old(ob.held) &&
            ob.deleted == old(ob.deleted)
        invariant offset == total <= SPAWN_MAX
        invariant total > 0 ==> FirstOf(ob.handles[..], value, h) && FileOf(files, k, ob.handles[h].target)
        invariant total > 0 ==> value != 0 && ReadStatus(ob.objects[..], ob.handles[..], kind, value) == Success
        invariant total > 0 ==> total <= |files[k].data| && scratch[..total] == files[k].data[..total]
        decreases SPAWN_MAX - total
      {
        if total >= SPAWN_MAX {
          return InvalidParameter, total, h, k;
        }
        ghost var (was, g, l) := (scratch[..], h, k);
        var readNow;
        status, readNow, h, k := ReadFile(value, offset, scratch, total, SPAWN_MAX - total);
        if status != Success {
          return;
        }
        if total > 0 { SameFile(files, ob.objects[..], ob.handles[..], kind, value, g, h, l, k); }
        Chunk(files[k].data, was, scratch[..], total, SPAWN_MAX - total);
        if readNow == 0 {
          break;
        }
        offset := offset + readNow;
        total := total + readNow;
      }
      if total == 0 {
        return NotFound, 0, h, k;
      }
    }

    /** The copying loop. */
    method CopyOut(data: seq<byte>, offset: nat, buffer: array<byte>, at: nat, n: nat)
      requires offset + n <= |data| && at + n <= buffer.Length
      modifies buffer
      ensures Wrote(old(buffer[..]), buffer[..], at, data[offset..offset + n])
    {
      ghost var was := buffer[..];
      var j := 0;
      while j < n
        invariant 0 <= j <= n
        invariant forall m | 0 <= m < buffer.Length ::
            buffer[m] == if at <= m < at + j then data[offset + (m - at)] else was[m]
      {
        buffer[at + j] := data[offset + j];
        j := j + 1;
      }
    }
  }

  /** Before: no object and no handle; after: a new file object whose one reference is a new handle. */
  ghost predicate Opened(objects: seq<Object>, made: seq<Object>, handles: seq<Entry>, after: seq<Entry>, id: nat,
                         kind: nat, h: nat, value: nat, granted: nat) {
    && h < |handles| && !handles[h].inUse && h < |after| && after[h].target < |objects|
    && var i := after[h].target;
    && !objects[i].inUse && made == objects[i := Object(true, id, Some(kind), 1, FILE_ALL)]
    && after == handles[h := Entry(true, value, i, granted)]
  }

  /** What a read of at least one byte answers: that of the lookup of the first handle with the value. */
  ghost function ReadStatus(objects: seq<Object>, handles: seq<Entry>, kind: nat, value: nat): (status: KStatus) {
    if g: nat :| FirstOf(handles, value, g) then LookupStatus(objects, handles[g], FILE_READ, Some(kind)) else NotFound
  }

  lemma ReadStatusOf(objects: seq<Object>, handles: seq<Entry>, kind: nat, value: nat)
    ensures forall g: nat | FirstOf(handles, value, g) ::
              ReadStatus(objects, handles, kind, value) == LookupStatus(objects, handles[g], FILE_READ, Some(kind))
    ensures ReadStatus(objects, handles, kind, value) == NotFound || exists g: nat :: FirstOf(handles, value, g)
    ensures (exists g: nat :: FirstOf(handles, value, g)) || forall h: nat :: !Resolves(handles, value, h)
  {
    if h: nat :| Resolves(handles, value, h) { FirstExists(handles, value, h); }
  }

  /** Something resolves if anything is first, and the other way round. */
  lemma {:induction false} FirstExists(handles: seq<Entry>, value: nat, h: nat)
    requires Resolves(handles, value, h)
    ensures exists g: nat :: FirstOf(handles, value, g)
  {
    if g: nat :| g < h && Resolves(handles, value, g) {
      FirstExists(handles, value, g);
    } else {
      assert FirstOf(handles, value, h);
    }
  }

  /** What reading an image of n bytes whole answers. */
  function ImageStatus(n: nat): (status: KStatus) {
    if n == 0 then NotFound else if n >= SPAWN_MAX then InvalidParameter else Success
  }

  /** An object was made, kept or dropped again. */
  lemma OnlyMade(a: seq<Object>, b: seq<Object>, c: seq<Object>, kind: nat, i: nat)
    requires i < |a| == |b| && b == a[i := b[i]] && !a[i].inUse && IsA(b[i], kind) && b[i].refs > 0 &&
        c == Dropped(b, i)
    ensures OnlyOfKind(a, c, Some(kind))
  {
  }

  /** One more chunk of the file stands behind the ones before it; an empty one means the file is done. */
  lemma Chunk(data: seq<byte>, before: seq<byte>, after: seq<byte>, total: nat, length: nat)
    requires total <= |before| && total <= |data| && before[..total] == data[..total]
    requires Wrote(before, after, total, ReadAt(data, total, length))
    ensures var n := |ReadAt(data, total, length)|;
            total + n <= |data| && total + n <= |after| && after[..total + n] == data[..total + n] &&
            (n == 0 && length > 0 ==> total == |data|)
  {
    var part := ReadAt(data, total, length);
    assert after[..total + |part|] == after[..total] + after[total..total + |part|];
    assert data[..total + |part|] == data[..total] + part;
  }

  /** The same value leads to the same file. */
  lemma SameFile(files: seq<FileSlot>, objects: seq<Object>, handles: seq<Entry>, kind: nat, value: nat,
                 g: nat, h: nat, k: nat, l: nat)
    requires Paired(files, objects, kind) && FirstOf(handles, value, g) && FirstOf(handles, value, h)
    requires FileOf(files, k, handles[g].target) && FileOf(files, l, handles[h].target)
    ensures g == h && k == l
  {
  }

  lemma FileFound(files: seq<FileSlot>, objects: seq<Object>, kind: nat, i: nat)
    requires Paired(files, objects, kind) && i < MAX_OBJECTS && IsA(objects[i], kind)
    ensures exists k: nat :: FileOf(files, k, i)
  {
  }

  lemma OnlySlot(files: seq<FileSlot>, objects: seq<Object>, kind: nat, i: nat, k: nat)
    requires Paired(files, objects, kind) && FileOf(files, k, i)
    ensures forall l: nat | l != k :: !FileOf(files, l, i)
  {
  }

  /** The bytes from `at` on are those of part, the others as before. */
  predicate Wrote(before: seq<byte>, after: seq<byte>, at: nat, part: seq<byte>) {
    |after| == |before| && At(after, at, part) && after[..at] == before[..at]
  }

  /** The same slots are in use and hold the same. */
  predicate SameFiles(a: seq<FileSlot>, b: seq<FileSlot>) {
    |a| == |b| && forall k | 0 <= k < |a| && (a[k].inUse || b[k].inUse) :: a[k] == b[k]
  }

  /** What a read at the offset returns: as much as was asked for, or all there is. */
  function ReadAt(data: seq<byte>, offset: nat, length: nat): (r: seq<byte>)
    ensures |r| <= length && |r| + offset <= if offset < |data| then |data| else offset
    ensures |r| == length || |r| + offset >= |data|
    ensures forall i | 0 <= i < |r| :: r[i] == data[offset + i]
  {
    if offset >= |data| then []
    else data[offset..offset + (if length < |data| - offset then length else |data| - offset)]
  }

  lemma PairedShape(files: seq<FileSlot>, objects: seq<Object>, kind: nat)
    requires Paired(files, objects, kind)
    ensures |files| == MAX_FILES && |objects| == MAX_OBJECTS
  {
  }

  lemma NoSlot(files: seq<FileSlot>, objects: seq<Object>, kind: nat, i: nat)
    requires Paired(files, objects, kind) && i < MAX_OBJECTS && objects[i].inUse && forall k: nat ::
        !FileOf(files, k, i)
    ensures objects[i].kind != Some(kind)
  {
  }
}
