/** The base-relocation directory: what it lists and how a loader applies it
    (Microsoft PE Format, "The .reloc Section (Image Only)"). */
module Relocation {
  import opened Machine
  import opened Bytes
  import opened Rebasing

  /** The statuses of the two loaders: EFI_SUCCESS / KSTATUS_SUCCESS, EFI_UNSUPPORTED /
      KSTATUS_ACCESS_DENIED for an image that cannot move, EFI_LOAD_ERROR /
      KSTATUS_INVALID_PARAMETER, and EFI_UNSUPPORTED / KSTATUS_NOT_IMPLEMENTED for a type. */
  datatype Outcome = Done | NotRelocatable | Malformed | UnknownType

  datatype Loader = Boot | User

  const ABSOLUTE: nat := 0
  const DIR64: nat := 10

  /** What one entry of a block asks for. */
  datatype Action = Skip | PatchAt(site: nat) | Refuse(outcome: Outcome)

  /** The high four bits of an entry are its type, the low twelve an offset from the block's
      address; the sum is a 32-bit number, so it may wrap. */
  function EntryAction(entry: nat, va: nat, size: nat): (action: Action)
    ensures action.PatchAt? ==> action.site + 8 <= size
    ensures action.Refuse? ==> action.outcome == Malformed || action.outcome == UnknownType
  {
    if entry / 0x1000 == ABSOLUTE then Skip
    else if entry / 0x1000 != DIR64 then Refuse(UnknownType)
    else
      var site := (va + entry % 0x1000) % U32;
      if site + 8 > size then Refuse(Malformed) else PatchAt(site)
  }

  /** The sites a run of entries of a block lists, up to the first entry that is refused. */
  function DecodeEntries(img: seq<byte>, at: nat, count: nat, va: nat, size: nat): (r: (Outcome, seq<nat>))
    requires at + 2 * count <= |img|
    ensures Within(r.1, size)
    decreases count
  {
    if count == 0 then (Done, [])
    else
      match EntryAction(Read(img, at, 2), va, size)
      case Skip => DecodeEntries(img, at + 2, count - 1, va, size)
      case Refuse(outcome) => (outcome, [])
      case PatchAt(site) =>
        var (o, sites) := DecodeEntries(img, at + 2, count - 1, va, size);
        (o, [site] + sites)
  }

  /** The sites the blocks from cursor to end list, up to the first refusal. */
  function DecodeBlocks(img: seq<byte>, cursor: nat, end: nat, size: nat, loader: Loader): (r: (Outcome, seq<nat>))
    requires end <= |img|
    ensures Within(r.1, size)
    decreases end - cursor
  {
    if cursor + 8 > end then (Done, [])
    else
      var (va, length) := (Read(img, cursor, 4), Read(img, cursor + 4, 4));
      if length < 8 then (Malformed, [])
      else if loader.User? && va + 0x1000 > size then (Malformed, [])
      else if cursor + length > end then (Malformed, [])
      else
        var (o, sites) := DecodeEntries(img, cursor + 8, (length - 8) / 2, va, size);
        if o != Done then (o, sites)
        else
          var (p, more) := DecodeBlocks(img, cursor + length, end, size, loader);
          (p, sites + more)
  }

  // What is decoded, in terms of the entries themselves.

  /** The entry is of type 10, which asks for a 64-bit word to be rebased. */
  predicate IsWord(entry: nat) { entry / 0x1000 == 10 }

  /** The entry is padding, or patches a word of the image: the number of the entry's type is 0 or 10. */
  predicate Harmless(entry: nat, va: nat, size: nat) {
    entry / 0x1000 == 0 || (IsWord(entry) && (va + entry % 0x1000) % 0x1_0000_0000 + 8 <= size)
  }

  /** The words the entries of type 10 ask for, in order. */
  function AskedFor(entries: seq<nat>, va: nat): (sites: seq<nat>) {
    if entries == [] then []
    else
      (if IsWord(entries[0]) then [(va + entries[0] % 0x1000) % 0x1_0000_0000] else []) +
      AskedFor(entries[1..], va)
  }

  /** The entries of a block, 16 bits each. */
  function EntriesAt(img: seq<byte>, at: nat, count: nat): (entries: seq<nat>)
    requires at + 2 * count <= |img|
    ensures |entries| == count && forall i | 0 <= i < count :: entries[i] == Read(img, at + 2 * i, 2)
  {
    seq(count, i requires 0 <= i < count => Read(img, at + 2 * i, 2))
  }

  predicate AllHarmless(entries: seq<nat>, va: nat, size: nat) {
    forall i | 0 <= i < |entries| :: Harmless(entries[i], va, size)
  }

  /** Entry i is the first that is neither padding nor patches a word of the image, and its type says why. */
  ghost predicate StopsAt(entries: seq<nat>, va: nat, size: nat, i: nat, outcome: Outcome) {
    && i < |entries| && AllHarmless(entries[..i], va, size) && !Harmless(entries[i], va, size)
    && outcome == if IsWord(entries[i]) then Malformed else UnknownType
  }

  /** All entries are gone through exactly if none is bad, and then the words listed are those asked for; otherwise
      the type of the first bad one decides. */
  ghost predicate ReadAs(entries: seq<nat>, va: nat, size: nat, r: (Outcome, seq<nat>)) {
    && (r.0 == Done <==> AllHarmless(entries, va, size))
    && (r.0 == Done ==> r.1 == AskedFor(entries, va))
    && (r.0 != Done ==> exists i: nat :: StopsAt(entries, va, size, i, r.0))
  }

  lemma {:induction false} EntriesRead(img: seq<byte>, at: nat, count: nat, va: nat, size: nat)
    requires at + 2 * count <= |img|
    ensures ReadAs(EntriesAt(img, at, count), va, size, DecodeEntries(img, at, count, va, size))
    decreases count
  {
    if count > 0 {
      hide Read, EntriesAt, ReadAs, EntryAction;
      EntriesRead(img, at + 2, count - 1, va, size);
      EntriesNext(img, at, count);
      OneEntryMore(Read(img, at, 2), EntriesAt(img, at + 2, count - 1), va, size,
                   DecodeEntries(img, at + 2, count - 1, va, size));
    }
  }

  lemma EntriesNext(img: seq<byte>, at: nat, count: nat)
    requires 0 < count && at + 2 * count <= |img|
    ensures EntriesAt(img, at, count) == [Read(img, at, 2)] + EntriesAt(img, at + 2, count - 1)
  {
    hide Read;
    var (entries, rest) := (EntriesAt(img, at, count), EntriesAt(img, at + 2, count - 1));
    forall i | 0 <= i < count - 1 ensures rest[i] == entries[i + 1] {
      assert at + 2 + 2 * i == at + 2 * (i + 1);
    }
  }

  lemma ActionMeans(entry: nat, va: nat, size: nat)
    ensures match EntryAction(entry, va, size)
            case Skip => !IsWord(entry) && Harmless(entry, va, size)
            case PatchAt(site) => IsWord(entry) && Harmless(entry, va, size) && AskedFor([entry], va) == [site]
            case Refuse(o) => !Harmless(entry, va, size) && o == if IsWord(entry) then Malformed else UnknownType
    ensures !IsWord(entry) ==> AskedFor([entry], va) == []
  {
  }

  /** An entry before the others. */
  lemma OneEntryMore(entry: nat, rest: seq<nat>, va: nat, size: nat, r: (Outcome, seq<nat>))
    requires ReadAs(rest, va, size, r)
    ensures ReadAs([entry] + rest, va, size,
                   match EntryAction(entry, va, size)
                   case Skip => r
                   case Refuse(outcome) => (outcome, [])
                   case PatchAt(site) => (r.0, [site] + r.1))
  {
    hide EntryAction, Harmless, AskedFor, IsWord, ReadAs;
    ActionMeans(entry, va, size);
    if Harmless(entry, va, size) {
      GoodFirst(entry, rest, va, size, r);
      assert [] + r.1 == r.1;
    } else {
      BadFirst(entry, rest, va, size);
    }
  }

  lemma BadFirst(entry: nat, rest: seq<nat>, va: nat, size: nat)
    requires !Harmless(entry, va, size)
    ensures ReadAs([entry] + rest, va, size, (if IsWord(entry) then Malformed else UnknownType, []))
  {
    hide Harmless, AskedFor, IsWord;
    var entries := [entry] + rest;
    assert entries[0] == entry;
    assert StopsAt(entries, va, size, 0, if IsWord(entry) then Malformed else UnknownType);
  }

  lemma GoodFirst(entry: nat, rest: seq<nat>, va: nat, size: nat, r: (Outcome, seq<nat>))
    requires Harmless(entry, va, size) && ReadAs(rest, va, size, r)
    ensures ReadAs([entry] + rest, va, size, (r.0, AskedFor([entry], va) + r.1))
  {
    hide Harmless, AllHarmless, StopsAt, AskedFor, IsWord;
    AskedBefore(entry, rest, va);
    HarmlessBefore(entry, rest, va, size);
    if r.0 != Done {
      var i: nat :| StopsAt(rest, va, size, i, r.0);
      StopsLater(entry, rest, va, size, i, r.0);
    }
  }

  lemma AskedBefore(entry: nat, rest: seq<nat>, va: nat)
    ensures AskedFor([entry] + rest, va) == AskedFor([entry], va) + AskedFor(rest, va)
  {
    assert ([entry] + rest)[1..] == rest && [entry][1..] == [];
  }

  lemma HarmlessBefore(entry: nat, rest: seq<nat>, va: nat, size: nat)
    requires Harmless(entry, va, size)
    ensures AllHarmless([entry] + rest, va, size) <==> AllHarmless(rest, va, size)
  {
    hide Harmless;
    var entries := [entry] + rest;
    assert forall i | 0 <= i < |rest| :: entries[i + 1] == rest[i];
    if AllHarmless(rest, va, size) {
      forall i | 0 <= i < |entries| ensures Harmless(entries[i], va, size) {
        if i > 0 { assert entries[i] == rest[i - 1]; }
      }
    }
  }

  lemma StopsLater(entry: nat, rest: seq<nat>, va: nat, size: nat, i: nat, outcome: Outcome)
    requires Harmless(entry, va, size) && StopsAt(rest, va, size, i, outcome)
    ensures StopsAt([entry] + rest, va, size, i + 1, outcome)
  {
    hide Harmless, AllHarmless, IsWord;
    HarmlessBefore(entry, rest[..i], va, size);
    assert ([entry] + rest)[..i + 1] == [entry] + rest[..i];
  }

  /** A block starts at b: each block starts where the one before ends. */
  ghost predicate BlockStarts(img: seq<byte>, cursor: nat, end: nat, b: nat)
    requires end <= |img|
    decreases end - cursor
  {
    cursor + 8 <= end &&
    (b == cursor ||
     (var length := Read(img, cursor + 4, 4); length >= 8 && cursor + length <= end &&
                                              BlockStarts(img, cursor + length, end, b)))
  }

  /** A directory gone through to its end: what the entries of every block ask for is listed. */
  lemma {:induction false} BlocksRead(img: seq<byte>, cursor: nat, end: nat, size: nat, loader: Loader, b: nat)
    requires end <= |img| && BlockStarts(img, cursor, end, b) && DecodeBlocks(img, cursor, end, size, loader).0 == Done
    ensures b + 8 <= end && var (va, length) := (Read(img, b, 4), Read(img, b + 4, 4));
      && 8 <= length <= end - b && (loader.User? ==> va + 0x1000 <= size)
      && var entries := EntriesAt(img, b + 8, (length - 8) / 2);
      && AllHarmless(entries, va, size)
      && (forall site | site in AskedFor(entries, va) :: site in DecodeBlocks(img, cursor, end, size, loader).1)
    decreases end - cursor
  {
    hide Read, EntriesAt, AskedFor, DecodeEntries, AllHarmless, StopsAt;
    var (va, length) := (Read(img, cursor, 4), Read(img, cursor + 4, 4));
    if b == cursor {
      EntriesRead(img, cursor + 8, (length - 8) / 2, va, size);
    } else {
      BlocksRead(img, cursor + length, end, size, loader, b);
    }
  }

  /** No site reaches into the bytes from lo to hi. */
  predicate Clear(sites: seq<nat>, lo: nat, hi: nat) {
    forall i | 0 <= i < |sites| :: sites[i] + 8 <= lo || hi <= sites[i]
  }

  /** img is the original with the words at `done` rebased, none of them in the directory. */
  ghost predicate Progress(img: seq<byte>, orig: seq<byte>, done: seq<nat>, delta: nat, lo: nat, hi: nat) {
    Within(done, |orig|) && Clear(done, lo, hi) && img == Rebase(orig, done, delta)
  }

  /** Of the whole list, `done` has been seen to and `rest` remains. */
  ghost predicate Leaves(all: (Outcome, seq<nat>), done: seq<nat>, rest: (Outcome, seq<nat>), lo: nat, hi: nat) {
    all == (rest.0, done + rest.1) && Clear(rest.1, lo, hi)
  }

  ghost predicate Underway(img: seq<byte>, orig: seq<byte>, done: seq<nat>, delta: nat, lo: nat, hi: nat,
                           all: (Outcome, seq<nat>), rest: (Outcome, seq<nat>)) {
    Progress(img, orig, done, delta, lo, hi) && Leaves(all, done, rest, lo, hi)
  }

  /** ... and the entries from `at` list what remains. */
  ghost predicate Midway(img: seq<byte>, orig: seq<byte>, done: seq<nat>, delta: nat, lo: nat, hi: nat,
                         all: (Outcome, seq<nat>), block: nat, at: nat, count: nat)
    requires block + 4 <= |orig| && at + 2 * count <= |orig|
  {
    Underway(img, orig, done, delta, lo, hi, all, DecodeEntries(orig, at, count, Read(orig, block, 4), |orig|))
  }

  lemma DirectoryUntouched(img: seq<byte>, orig: seq<byte>, done: seq<nat>, delta: nat, lo: nat, hi: nat, at: nat,
      n: nat)
    requires Progress(img, orig, done, delta, lo, hi) && lo <= at && at + n <= hi <= |orig|
    ensures |img| == |orig| && Read(img, at, n) == Read(orig, at, n)
  {
    forall i | 0 <= i < |done| ensures at + n <= done[i] || done[i] + 8 <= at {
    }
    RebaseElsewhere(orig, done, delta, at, n);
  }

  lemma OneMore(img: seq<byte>, orig: seq<byte>, done: seq<nat>, delta: nat, lo: nat, hi: nat,
                all: (Outcome, seq<nat>), site: nat, rest: (Outcome, seq<nat>))
    requires Underway(img, orig, done, delta, lo, hi, all, (rest.0, [site] + rest.1)) && site + 8 <= |orig|
    ensures |img| == |orig|
    ensures Underway(Patch(img, site, delta), orig, done + [site], delta, lo, hi, all, rest)
  {
    var left := [site] + rest.1;
    assert left[0] == site;
    forall i | 0 <= i < |rest.1| ensures rest.1[i] + 8 <= lo || hi <= rest.1[i] {
      assert left[i + 1] == rest.1[i];
    }
    assert (done + [site])[..|done|] == done;
    assert done + left == done + [site] + rest.1;
  }

  /** What one entry does to the image. */
  function Acted(img: seq<byte>, action: Action, delta: nat): (r: seq<byte>)
    requires action.PatchAt? ==> action.site + 8 <= |img|
    ensures |r| == |img|
  {
    match action
    case PatchAt(site) => Patch(img, site, delta)
    case _ => img
  }

  lemma EntryStep(img: seq<byte>, orig: seq<byte>, done: seq<nat>, delta: nat, lo: nat, hi: nat,
                  all: (Outcome, seq<nat>), block: nat, at: nat, count: nat, action: Action)
    returns (now: seq<nat>)
    requires 0 < count && lo <= block <= at - 8 && at + 2 * count <= hi <= |orig| == |img|
    requires Midway(img, orig, done, delta, lo, hi, all, block, at, count)
    requires action == EntryAction(Read(img, at, 2), Read(img, block, 4), |img|)
    ensures !action.Refuse? ==>
              Midway(Acted(img, action, delta), orig, now, delta, lo, hi, all, block, at + 2, count - 1)
    ensures action.Refuse? ==> Progress(img, orig, now, delta, lo, hi) && all == (action.outcome, now)
  {
    DirectoryUntouched(img, orig, done, delta, lo, hi, at, 2);
    DirectoryUntouched(img, orig, done, delta, lo, hi, block, 4);
    now := done;
    assert done + [] == done;
    if action.PatchAt? {
      OneMore(img, orig, done, delta, lo, hi, all, action.site,
              DecodeEntries(orig, at + 2, count - 1, Read(orig, block, 4), |orig|));
      now := done + [action.site];
    }
  }

  /** The 64-bit addition at one site, byte by byte in place. */
  method PatchInPlace(img: array<byte>, site: nat, delta: nat)
    requires site + 8 <= img.Length
    modifies img
    ensures img[..] == Patch(old(img[..]), site, delta)
  {
    ghost var was := img[..];
    var word := Write(Add64(Read(img[..], site, 8), delta), 8);
    var i := 0;
    while i < 8
      invariant 0 <= i <= 8
      invariant forall k | 0 <= k < img.Length :: img[k] == if site <= k < site + i then word[k - site] else was[k]
    {
      img[site + i] := word[i];
      i := i + 1;
    }
  }

  method ApplyEntry(img: array<byte>, block: nat, at: nat, delta: nat) returns (action: Action)
    requires block + 4 <= img.Length && at + 2 <= img.Length
    modifies img
    ensures action == EntryAction(Read(old(img[..]), at, 2), Read(old(img[..]), block, 4), img.Length)
    ensures img[..] == Acted(old(img[..]), action, delta)
  {
    action := EntryAction(Read(img[..], at, 2), Read(img[..], block, 4), img.Length);
    if action.PatchAt? {
      PatchInPlace(img, action.site, delta);
    }
  }

  /** The entries of one block.  Its address is read again for every entry. */
  method ApplyEntries(img: array<byte>, block: nat, count: nat, delta: nat, ghost orig: seq<byte>,
                      ghost done: seq<nat>, ghost lo: nat, ghost hi: nat, ghost all: (Outcome, seq<nat>),
                          ghost clear: bool)
    returns (outcome: Outcome, ghost now: seq<nat>)
    requires |orig| == img.Length && lo <= block && block + 8 + 2 * count <= hi <= img.Length
    requires clear ==> Midway(img[..], orig, done, delta, lo, hi, all, block, block + 8, count)
    modifies img
    ensures outcome != NotRelocatable
    ensures clear ==> all == (outcome, now) && Progress(img[..], orig, now, delta, lo, hi)
  {
    hide Read, Rebase, EntryAction;
    now := done;
    var index := 0;
    var at := block + 8;
    ghost var left := count;
    while index < count
      invariant 0 <= index <= count && left == count - index && at + 2 * left == block + 8 + 2 * count
      invariant clear ==> Midway(img[..], orig, now, delta, lo, hi, all, block, at, left)
    {
      ghost var before := img[..];
      var action := ApplyEntry(img, block, at, delta);
      if clear {
        now := EntryStep(before, orig, now, delta, lo, hi, all, block, at, left, action);
      }
      if action.Refuse? {
        return action.outcome, now;
      }
      index, at, left := index + 1, at + 2, left - 1;
    }
    assert now + [] == now;
    outcome := Done;
  }

  /** The list of one block, and what the blocks after it leave of the whole list. */
  ghost predicate Splits(all: (Outcome, seq<nat>), block: (Outcome, seq<nat>), orig: seq<byte>, lo: nat, hi: nat,
                         cursor: nat, loader: Loader)
    requires cursor + 8 <= hi <= |orig|
  {
    if block.0 != Done then all == block
    else Leaves(all, block.1, DecodeBlocks(orig, cursor + Read(orig, cursor + 4, 4), hi, |orig|, loader), lo, hi)
  }

  lemma BlockStart(img: seq<byte>, orig: seq<byte>, done: seq<nat>, delta: nat, lo: nat, hi: nat,
                   all: (Outcome, seq<nat>), cursor: nat, loader: Loader, length: nat)
    returns (block: (Outcome, seq<nat>))
    requires lo <= cursor && cursor + 8 <= hi <= |orig| == |img|
    requires Underway(img, orig, done, delta, lo, hi, all, DecodeBlocks(orig, cursor, hi, |orig|, loader))
    requires length == Read(img, cursor + 4, 4) && 8 <= length && cursor + length <= hi
    requires loader.User? ==> Read(img, cursor, 4) + 0x1000 <= |orig|
    ensures Midway(img, orig, done, delta, lo, hi, block, cursor, cursor + 8, (length - 8) / 2)
    ensures Splits(all, block, orig, lo, hi, cursor, loader)
  {
    hide Read, Rebase, DecodeEntries;
    DirectoryUntouched(img, orig, done, delta, lo, hi, cursor, 4);
    DirectoryUntouched(img, orig, done, delta, lo, hi, cursor + 4, 4);
    var va := Read(orig, cursor, 4);
    var (o, sites) := DecodeEntries(orig, cursor + 8, (length - 8) / 2, va, |orig|);
    var more := DecodeBlocks(orig, cursor + length, hi, |orig|, loader).1;
    block := (o, done + sites);
    if o == Done {
      LeaveParts(all, done, sites, (all.0, more), lo, hi);
    }
  }

  lemma LeaveParts(all: (Outcome, seq<nat>), done: seq<nat>, sites: seq<nat>, rest: (Outcome, seq<nat>), lo: nat,
      hi: nat)
    requires Leaves(all, done, (rest.0, sites + rest.1), lo, hi)
    ensures Clear(sites, lo, hi) && Leaves(all, done + sites, rest, lo, hi)
  {
    ClearParts(sites, rest.1, lo, hi);
    assert done + (sites + rest.1) == done + sites + rest.1;
  }

  lemma ClearParts(a: seq<nat>, b: seq<nat>, lo: nat, hi: nat)
    ensures Clear(a + b, lo, hi) <==> Clear(a, lo, hi) && Clear(b, lo, hi)
  {
    if Clear(a + b, lo, hi) {
      forall i | 0 <= i < |a| ensures a[i] + 8 <= lo || hi <= a[i] {
        assert (a + b)[i] == a[i];
      }
      forall i | 0 <= i < |b| ensures b[i] + 8 <= lo || hi <= b[i] {
        assert (a + b)[|a| + i] == b[i];
      }
    }
  }

  lemma Refused(img: seq<byte>, orig: seq<byte>, done: seq<nat>, delta: nat, lo: nat, hi: nat,
                all: (Outcome, seq<nat>), cursor: nat, loader: Loader)
    requires lo <= cursor && cursor + 8 <= hi <= |orig| == |img|
    requires Underway(img, orig, done, delta, lo, hi, all, DecodeBlocks(orig, cursor, hi, |orig|, loader))
    requires Read(img, cursor + 4, 4) < 8 || cursor + Read(img, cursor + 4, 4) > hi
             || (loader.User? && Read(img, cursor, 4) + 0x1000 > |orig|)
    ensures all == (Malformed, done)
  {
    DirectoryUntouched(img, orig, done, delta, lo, hi, cursor, 4);
    DirectoryUntouched(img, orig, done, delta, lo, hi, cursor + 4, 4);
    assert done + [] == done;
  }

  /** ... and the blocks from `cursor` list what remains. */
  ghost predicate AtBlock(img: seq<byte>, orig: seq<byte>, done: seq<nat>, delta: nat, lo: nat, hi: nat,
                          all: (Outcome, seq<nat>), cursor: nat, loader: Loader)
    requires hi <= |orig|
  {
    Underway(img, orig, done, delta, lo, hi, all, DecodeBlocks(orig, cursor, hi, |orig|, loader))
  }

  lemma BlockEnd(img: seq<byte>, orig: seq<byte>, now: seq<nat>, delta: nat, lo: nat, hi: nat,
                 all: (Outcome, seq<nat>), block: (Outcome, seq<nat>), cursor: nat, loader: Loader)
    requires lo <= cursor && cursor + 8 <= hi <= |orig| == |img|
    requires Progress(img, orig, now, delta, lo, hi) && block.1 == now &&
        Splits(all, block, orig, lo, hi, cursor, loader)
    ensures block.0 != Done ==> all == block
    ensures block.0 == Done ==> AtBlock(img, orig, now, delta, lo, hi, all, cursor + Read(img, cursor + 4, 4), loader)
  {
    DirectoryUntouched(img, orig, now, delta, lo, hi, cursor + 4, 4);
  }

  method ApplyBlock(img: array<byte>, cursor: nat, end: nat, delta: nat, loader: Loader, ghost orig: seq<byte>,
                    ghost done: seq<nat>, ghost dir: nat, ghost all: (Outcome, seq<nat>), ghost clear: bool)
    returns (outcome: Outcome, next: nat, ghost now: seq<nat>)
    requires |orig| == img.Length && dir <= cursor && cursor + 8 <= end <= img.Length
    requires clear ==> AtBlock(img[..], orig, done, delta, dir, end, all, cursor, loader)
    modifies img
    ensures outcome != NotRelocatable
    ensures outcome == Done ==> Read(old(img[..]), cursor + 4, 4) >= 8 && next == cursor + Read(img[..], cursor + 4, 4)
    ensures clear && outcome != Done ==> all == (outcome, now) && Progress(img[..], orig, now, delta, dir, end)
    ensures clear && outcome == Done ==> AtBlock(img[..], orig, now, delta, dir, end, all, next, loader)
  {
    hide Read, Rebase, DecodeEntries;
    var va := Read(img[..], cursor, 4);
    var length := Read(img[..], cursor + 4, 4);
    next := cursor;
    now := done;
    if length < 8 || (loader.User? && va + 0x1000 > img.Length) || cursor + length > end {
      if clear { Refused(img[..], orig, done, delta, dir, end, all, cursor, loader); }
      outcome := Malformed;
    } else {
      ghost var block := all;
      if clear {
        block := BlockStart(img[..], orig, done, delta, dir, end, all, cursor, loader, length);
      }
      outcome, now := ApplyEntries(img, cursor, (length - 8) / 2, delta, orig, done, dir, end, block, clear);
      if clear {
        BlockEnd(img[..], orig, now, delta, dir, end, all, block, cursor, loader);
      }
      next := cursor + Read(img[..], cursor + 4, 4);
    }
  }

  /** The loop over the blocks.  The length of a block is read again after its entries have been
      applied, and patches may have changed it; the loop ends even so, because a length below
      eight stops it at its next round. */
  method ApplyBlocks(img: array<byte>, dir: nat, end: nat, delta: nat, loader: Loader) returns (outcome: Outcome)
    requires dir <= end <= img.Length
    modifies img
    ensures outcome != NotRelocatable
    ensures var (o, sites) := DecodeBlocks(old(img[..]), dir, end, img.Length, loader);
            Clear(sites, dir, end) ==> outcome == o && img[..] == Rebase(old(img[..]), sites, delta)
  {
    hide Read, DecodeEntries;
    ghost var orig := img[..];
    ghost var all := DecodeBlocks(orig, dir, end, img.Length, loader);
    ghost var clear := Clear(all.1, dir, end);
    ghost var now: seq<nat> := [];
    assert [] + all.1 == all.1;
    var cursor := dir;
    while cursor + 8 <= end
      invariant dir <= cursor
      invariant clear ==> AtBlock(img[..], orig, now, delta, dir, end, all, cursor, loader)
      decreases end - cursor, if cursor + 8 <= end && Read(img[..], cursor + 4, 4) >= 8 then 1 else 0
    {
      var next;
      outcome, next, now := ApplyBlock(img, cursor, end, delta, loader, orig, now, dir, all, clear);
      if outcome != Done {
        return outcome;
      }
      cursor := next;
    }
    assert now + [] == now;
    outcome := Done;
  }

  /** What relocating a loaded image comes to: the outcome, and the words to rebase. */
  function Plan(img: seq<byte>, base: nat, preferred: nat, dir: nat, dirSize: nat, dynamicBase: bool, loader: Loader)
    : (r: (Outcome, seq<nat>))
    ensures Within(r.1, |img|)
  {
    if base == preferred then (Done, [])
    else if loader.User? && !dynamicBase then (NotRelocatable, [])
    else if dir == 0 || dirSize < 8 then (NotRelocatable, [])
    else if dir + dirSize > |img| then (Malformed, [])
    else DecodeBlocks(img, dir, dir + dirSize, |img|, loader)
  }

  /** What moves the preferred base to the base. */
  function Displacement(base: nat, preferred: nat): (r: nat)
    requires base < U64 && preferred < U64
    ensures r < U64 && (preferred + r) % U64 == base
  {
    (base + U64 - preferred) % U64
  }

  /** The image cannot move: the process loader wants it marked as movable, and both want a directory. */
  predicate Fixed(dir: nat, dirSize: nat, dynamicBase: bool, loader: Loader) {
    (loader.User? && !dynamicBase) || dir == 0 || dirSize < 8
  }

  /** At its preferred base an image stays as it is; anywhere else it is refused if it is fixed, and malformed if its
      directory is not inside it. */
  ghost predicate Refusals(was: seq<byte>, base: nat, preferred: nat, dir: nat, dirSize: nat, dynamicBase: bool,
                           loader: Loader, img: seq<byte>, outcome: Outcome) {
    var fixed := Fixed(dir, dirSize, dynamicBase, loader);
    && (outcome == NotRelocatable <==> base != preferred && fixed)
    && (base != preferred && !fixed && dir + dirSize > |was| ==> outcome == Malformed)
    && (base == preferred ==> outcome == Done)
    && (base == preferred || fixed || dir + dirSize > |was| ==> img == was)
  }

  method Relocate(img: array<byte>, base: nat, preferred: nat, dir: nat, dirSize: nat, dynamicBase: bool,
      loader: Loader)
    returns (outcome: Outcome)
    requires base < U64 && preferred < U64
    modifies img
    ensures Refusals(old(img[..]), base, preferred, dir, dirSize, dynamicBase, loader, img[..], outcome)
    ensures var (o, sites) := Plan(old(img[..]), base, preferred, dir, dirSize, dynamicBase, loader);
            Clear(sites, dir, dir + dirSize) ==>
              outcome == o && img[..] == Rebase(old(img[..]), sites, Displacement(base, preferred))
  {
    var delta := Displacement(base, preferred);
    if delta == 0 {
      return Done;
    }
    if loader.User? && !dynamicBase {
      return NotRelocatable;
    }
    if dir == 0 || dirSize < 8 {
      return NotRelocatable;
    }
    if dir + dirSize > img.Length {
      return Malformed;
    }
    outcome := ApplyBlocks(img, dir, dir + dirSize, delta, loader);
  }
}
