/** Packing an image and loading it again. */
module KpeRoundTrip {
  import opened Machine
  import opened Bytes
  import opened Rebasing
  import opened Relocation
  import opened RelocationCodec
  import opened KpeFormat
  import opened KpePack
  import opened KpeLoader

  /** What memory is to hold: headers, payload and relocations, each followed by zeros up to the next. */
  function Expected(j: Job): (r: seq<byte>) {
    PadTo(PadTo(PadTo(HeaderBytes(j), j.sectionRva) + j.payload, RelocVa(j)) + j.relocs, SizeOfImage(j))
  }

  /** Overlaying onto cleared memory. */
  lemma OverlayZeros(head: seq<byte>, n: nat, at: nat, part: seq<byte>)
    requires |head| <= at && at + |part| <= |head| + n
    ensures Overlay(head + Zeros(n), at, part) == PadTo(head, at) + part + Zeros(|head| + n - at - |part|)
  {
  }

  lemma PadTwice(s: seq<byte>, m: nat, n: nat)
    requires |s| <= m <= n
    ensures PadTo(PadTo(s, m), n) == PadTo(s, n)
  {
  }

  /** Padded to one boundary, put after a head, and padded to the next. */
  lemma PadInside(head: seq<byte>, s: seq<byte>, m: nat, n: nat)
    requires |s| <= m && |head| + m <= n
    ensures PadTo(head + PadTo(s, m), n) == PadTo(head + s, n)
  {
  }

  /** The raw bytes the two sections name are the padded payload and the padded relocations. */
  lemma RawBytes(j: Job)
    requires Sane(j)
    ensures |Packed(j)| == SizeOfHeaders(j) + RawSize(j) + if HasRelocs(j) then RelocRaw(j) else 0
    ensures Packed(j)[..SizeOfHeaders(j)] == PadTo(HeaderBytes(j), SizeOfHeaders(j))
    ensures Packed(j)[SizeOfHeaders(j)..SizeOfHeaders(j) + RawSize(j)] == PadTo(j.payload, RawSize(j))
    ensures HasRelocs(j) ==> Packed(j)[RelocPointer(j)..RelocPointer(j) + RelocRaw(j)] == PadTo(j.relocs, RelocRaw(j))
  {
    hide HeaderBytes, PadTo, AlignUp, AlignUp64, SizeOfImage, RelocVa, RelocRaw, RawSize, SizeOfHeaders, RelocPointer,
         HeadersEnd, Packed;
    LayoutFacts(j);
    SaneSized(j);
    PackedParts(j);
    PadParts(HeaderBytes(j), SizeOfHeaders(j));
    PadParts(j.payload, RawSize(j));
    PadParts(j.relocs, RelocRaw(j));
  }

  lemma PackedHolds(j: Job)
    requires Sized(j)
    ensures Holds(Packed(j), PackedImage(j))
  {
    hide HeaderBytes, PadTo, AlignUp, AlignUp64, SizeOfImage, RelocVa, RelocRaw, RawSize, SizeOfHeaders, RelocPointer,
         HeadersEnd, Packed, Holds, PackedImage;
    SizedFacts(j);
    PackedParts(j);
    PadParts(HeaderBytes(j), SizeOfHeaders(j));
    var rest := PadTo(j.payload, RawSize(j)) + (if HasRelocs(j) then PadTo(j.relocs, RelocRaw(j)) else []);
    StartsWith(HeaderBytes(j), Zeros(SizeOfHeaders(j) - |HeaderBytes(j)|), rest);
    HeadersAreThere(Packed(j), j);
  }

  lemma StartsWith(a: seq<byte>, b: seq<byte>, c: seq<byte>)
    ensures At((a + b) + c, 0, a)
  {
  }

  /** Each loader accepts exactly the images packed for it (the process loader up to its size limit). */
  lemma PackedAccepted(j: Job, loader: Loader)
    requires Sane(j)
    ensures Acceptable(PackedImage(j), |Packed(j)|, loader) <==>
            SubsystemOf(j.kind) == KpeFormat.Subsystem(loader) && (loader.User? ==> |Packed(j)| <= IMAGE_MAX)
  {
    hide HeaderBytes, PadTo, AlignUp, AlignUp64, SizeOfImage, RelocVa, RelocRaw, RawSize, SizeOfHeaders, RelocPointer,
         HeadersEnd, Packed;
    LayoutFacts(j);
    RawBytes(j);
    RelocsInside(j);
    var (n, image) := (|Packed(j)|, PackedImage(j));
    assert SectionOk(TextSection(j), image.header, n, loader);
    assert HasRelocs(j) ==> SectionOk(RelocSection(j), image.header, n, loader);
  }

  lemma RelocsInside(j: Job)
    requires Sane(j)
    ensures RelocVa(j) <= SizeOfImage(j) && (HasRelocs(j) ==> RelocVa(j) < SizeOfImage(j))
  {
    LayoutFacts(j);
  }

  /** The sections have room, in either loader. */
  lemma SectionsFit(j: Job, loader: Loader)
    requires Sane(j)
    ensures HeaderCopy(PackedHeader(j), |Packed(j)|, loader) == SizeOfHeaders(j) <= SizeOfImage(j)
    ensures AllFit(PackedImage(j).sections, SizeOfImage(j), |Packed(j)|, loader)
  {
    hide HeaderBytes, PadTo, AlignUp, AlignUp64, SizeOfImage, RelocVa, RelocRaw, RawSize, SizeOfHeaders, RelocPointer,
         HeadersEnd, Packed;
    LayoutFacts(j);
    RawBytes(j);
    RelocsInside(j);
  }

  /** Placing a section whose raw bytes are known over memory that is clear there. */
  lemma PlacedOnZeros(img: seq<byte>, file: seq<byte>, s: Section, loader: Loader, head: seq<byte>, n: nat,
      part: seq<byte>)
    requires img == head + Zeros(n) && |head| <= s.va && s.va + s.raw <= |head| + n
    requires s.raw == |part| > 0 && s.size <= s.raw && s.pointer + s.raw <= |file|
    requires file[s.pointer..s.pointer + s.raw] == part
    ensures Fits(s, |img|, |file|, loader)
    ensures Place(img, file, s, loader) == PadTo(head, s.va) + part + Zeros(|head| + n - s.va - |part|)
  {
    hide Overlay, PadTo;
    OverlayZeros(head, n, s.va, part);
  }

  lemma PlaceOne(img: seq<byte>, file: seq<byte>, s: Section, loader: Loader)
    requires AllFit([s], |img|, |file|, loader)
    ensures Fits(s, |img|, |file|, loader) && PlaceAll(img, file, [s], loader) == Place(img, file, s, loader)
  {
    assert [s][0] == s && [s][..0] == [];
  }

  lemma PlaceTwo(img: seq<byte>, file: seq<byte>, s: Section, t: Section, loader: Loader)
    requires AllFit([s] + [t], |img|, |file|, loader)
    ensures AllFit([s], |img|, |file|, loader) && Fits(t, |img|, |file|, loader)
    ensures PlaceAll(img, file, [s] + [t], loader) == Place(PlaceAll(img, file, [s], loader), file, t, loader)
  {
    var both := [s] + [t];
    assert both[0] == s && both[1] == t && both[..1] == [s];
  }

  /** Padding each piece first for the file and then to the next boundary comes to padding it once. */
  lemma Assembled(a: seq<byte>, payload: seq<byte>, raw: nat, relocs: seq<byte>, relocRaw: nat, va: nat, n: nat)
    requires |payload| <= raw && |a| + raw <= va && |relocs| <= relocRaw && va + relocRaw <= n
    ensures a + PadTo(payload, raw) + Zeros(va - |a| - raw) == PadTo(a + payload, va)
    ensures PadTo(a + PadTo(payload, raw), va) + PadTo(relocs, relocRaw) + Zeros(n - va - relocRaw) ==
            PadTo(PadTo(a + payload, va) + relocs, n)
  {
    PadInside(a, payload, raw, va);
    PadInside(PadTo(a + payload, va), relocs, relocRaw, n);
  }

  lemma TextLaid(j: Job, loader: Loader)
    requires Sane(j)
    ensures HeadersFit(PackedHeader(j), |Packed(j)|, loader)
    ensures AllFit([TextSection(j)], SizeOfImage(j), |Packed(j)|, loader)
    ensures |HeaderBytes(j)| <= j.sectionRva <= j.sectionRva + RawSize(j) <= SizeOfImage(j)
    ensures PlaceAll(Started(Packed(j), PackedHeader(j), loader), Packed(j), [TextSection(j)], loader) ==
            PadTo(HeaderBytes(j), j.sectionRva) + PadTo(j.payload, RawSize(j)) +
            Zeros(SizeOfImage(j) - j.sectionRva - RawSize(j))
  {
    hide HeaderBytes, PadTo, AlignUp, AlignUp64, SizeOfImage, RelocVa, RelocRaw, RawSize, SizeOfHeaders, RelocPointer,
         HeadersEnd, Packed, Overlay, Place, Fits, PlaceAll;
    LayoutFacts(j);
    RawBytes(j);
    RelocsInside(j);
    SectionsFit(j, loader);
    SaneSized(j);
    PackedParts(j);
    PadParts(HeaderBytes(j), SizeOfHeaders(j));
    PadParts(HeaderBytes(j), j.sectionRva);
    PadParts(j.payload, RawSize(j));
    var (n, h) := (SizeOfImage(j), PadTo(HeaderBytes(j), SizeOfHeaders(j)));
    OverlayZeros([], n, 0, h);
    assert [] + Zeros(n) == Zeros(n) && PadTo([], 0) == [] by { PadParts([], 0); }
    var start := Started(Packed(j), PackedHeader(j), loader);
    assert start == h + Zeros(n - |h|);
    PlacedOnZeros(start, Packed(j), TextSection(j), loader, h, n - |h|, PadTo(j.payload, RawSize(j)));
    PadTwice(HeaderBytes(j), SizeOfHeaders(j), j.sectionRva);
    assert [TextSection(j)][0] == TextSection(j);
    PlaceOne(start, Packed(j), TextSection(j), loader);
  }

  /** Laid out by either loader, the packed image is what memory is to hold. */
  lemma LaidExpected(j: Job, loader: Loader)
    requires Sane(j)
    ensures HeadersFit(PackedHeader(j), |Packed(j)|, loader)
    ensures AllFit(PackedImage(j).sections, SizeOfImage(j), |Packed(j)|, loader)
    ensures Laid(Packed(j), PackedImage(j), loader) == Expected(j)
  {
    hide HeaderBytes, PadTo, AlignUp, AlignUp64, SizeOfImage, RelocVa, RelocRaw, RawSize, SizeOfHeaders, RelocPointer,
         HeadersEnd, Packed, Overlay, Place, PlaceAll, Started;
    LayoutFacts(j);
    SectionsFit(j, loader);
    TextLaid(j, loader);
    PadParts(HeaderBytes(j), j.sectionRva);
    PadParts(j.payload, RawSize(j));
    var (n, file) := (SizeOfImage(j), Packed(j));
    var a := PadTo(HeaderBytes(j), j.sectionRva);
    var start := Started(file, PackedHeader(j), loader);
    if HasRelocs(j) {
      var text := a + PadTo(j.payload, RawSize(j));
      RawBytes(j);
      PadParts(j.relocs, RelocRaw(j));
      PlaceTwo(start, file, TextSection(j), RelocSection(j), loader);
      PlacedOnZeros(text + Zeros(n - |text|), file, RelocSection(j), loader, text, n - |text|,
          PadTo(j.relocs, RelocRaw(j)));
      Assembled(a, j.payload, RawSize(j), j.relocs, RelocRaw(j), RelocVa(j), n);
    } else {
      assert n == RelocVa(j) by { NoRelocs(j); }
      PadParts([], 0);
      Assembled(a, j.payload, RawSize(j), [], 0, n, n);
      NothingMore(PadTo(a + j.payload, n), n);
      assert PackedImage(j).sections == [TextSection(j)];
    }
  }

  lemma NoRelocs(j: Job)
    requires !HasRelocs(j)
    ensures SizeOfImage(j) == RelocVa(j)
  {
  }

  lemma NothingMore(s: seq<byte>, n: nat)
    requires |s| == n
    ensures PadTo(s + [], n) == s
  {
  }

  /** The packer's candidates: 64-bit words of the payload, in ascending order, none overlapping. */
  predicate Candidates(c: seq<nat>, j: Job) {
    && Ascending(c) && Apart(c)
    && forall i | 0 <= i < |c| :: j.sectionRva <= c[i] && c[i] + 8 <= j.sectionRva + |j.payload|
  }

  lemma RelocsInPlace(j: Job)
    requires Sane(j)
    ensures |Expected(j)| == SizeOfImage(j) && At(Expected(j), RelocVa(j), j.relocs)
    ensures At(Expected(j), j.sectionRva, PadTo(j.payload, RelocVa(j) - j.sectionRva))
  {
    hide HeaderBytes, PadTo, AlignUp, AlignUp64, SizeOfImage, RelocVa, RelocRaw, RawSize, SizeOfHeaders, RelocPointer,
         HeadersEnd;
    LayoutFacts(j);
    SaneSized(j);
    PackedParts(j);
    if !HasRelocs(j) { NoRelocs(j); }
    PadParts(HeaderBytes(j), j.sectionRva);
    var a := PadTo(HeaderBytes(j), j.sectionRva);
    PadParts(a + j.payload, RelocVa(j));
    PadAfter(a, j.payload, RelocVa(j) - j.sectionRva);
    var text := PadTo(a + j.payload, RelocVa(j));
    PadParts(text + j.relocs, SizeOfImage(j));
    AtMiddle(text, j.relocs, Zeros(SizeOfImage(j) - |text + j.relocs|));
    var padded := PadTo(j.payload, RelocVa(j) - j.sectionRva);
    assert text == a + padded;
    AtParts(Expected(j), 0, a, padded);
  }

  lemma AtMiddle(a: seq<byte>, b: seq<byte>, c: seq<byte>)
    ensures At((a + b) + c, |a|, b) && At((a + b) + c, 0, a)
  {
  }

  lemma RebaseByNothing(img: seq<byte>, sites: seq<nat>)
    requires Within(sites, |img|) && Apart(sites)
    ensures Rebase(img, sites, 0) == img
  {
    hide Read, Rebase;
    forall i | 0 <= i < |sites| ensures Read(img, sites[i], 8) == Add64(Read(img, sites[i], 8), 0) {
      Powers();
      AddZero(Read(img, sites[i], 8));
    }
    RebaseUnique(img, sites, 0, img);
  }

  lemma PlanExpected(j: Job, c: seq<nat>, base: nat, loader: Loader)
    requires Sane(j) && Candidates(c, j) && j.relocs == Encode(Grouped(c)) && base < U64
    requires loader.Boot? || PagesInside(c, SizeOfImage(j))
    ensures |Expected(j)| == SizeOfImage(j) && Within(c, SizeOfImage(j))
    ensures var h := PackedHeader(j);
            Clear(c, h.relocVa, h.relocVa + h.relocSize) &&
            Plan(Expected(j), base, h.imageBase, h.relocVa, h.relocSize, Dynamic(h), loader) ==
              if base == j.imageBase then (Done, []) else if c == [] then (NotRelocatable, []) else (Done, c)
  {
    hide Packed, Expected, Encode, DecodeBlocks, AlignUp, AlignUp64, SizeOfHeaders;
    LayoutFacts(j);
    RelocsInPlace(j);
    EncodeLength(Grouped(c));
    if c != [] && base != j.imageBase {
      DecodeEncoded(Expected(j), RelocVa(j), c, SizeOfImage(j), loader);
    }
  }

  /** Pack, lay out, relocate: memory holds what was packed, with exactly the candidate words moved by
      the distance to the preferred base; without candidates the image loads at that base only. */
  lemma PackedImageLoads(j: Job, c: seq<nat>, base: nat, loader: Loader, img: seq<byte>, outcome: Outcome)
    requires Sane(j) && Candidates(c, j) && j.relocs == Encode(Grouped(c)) && base < U64
    requires loader.Boot? || PagesInside(c, SizeOfImage(j))
    requires HeadersFit(PackedHeader(j), |Packed(j)|, loader)
    requires AllFit(PackedImage(j).sections, SizeOfImage(j), |Packed(j)|, loader)
    requires Relocated(Laid(Packed(j), PackedImage(j), loader), PackedHeader(j), base, loader, img, outcome)
    ensures Within(c, |Expected(j)|)
    ensures if c == [] && base != j.imageBase then outcome == NotRelocatable && img == Expected(j)
            else outcome == Done && img == Rebase(Expected(j), c, Displacement(base, j.imageBase))
  {
    hide Packed, Laid, Expected, Plan, Refusals, Rebase, AlignUp, AlignUp64, SizeOfHeaders, SizeOfImage, RelocVa,
        Encode;
    LayoutFacts(j);
    LaidExpected(j, loader);
    PlanExpected(j, c, base, loader);
    NoSites(Expected(j));
    if base == j.imageBase {
      assert Displacement(base, j.imageBase) == 0;
      RebaseByNothing(Expected(j), c);
    }
  }

  /** A candidate that points into the image where it was linked to go points to the same byte where it went. */
  lemma PointersFollow(j: Job, c: seq<nat>, base: nat, loader: Loader, img: seq<byte>, outcome: Outcome, i: nat,
                       k: nat)
    requires Sane(j) && Candidates(c, j) && j.relocs == Encode(Grouped(c)) && base < U64
    requires loader.Boot? || PagesInside(c, SizeOfImage(j))
    requires HeadersFit(PackedHeader(j), |Packed(j)|, loader)
    requires AllFit(PackedImage(j).sections, SizeOfImage(j), |Packed(j)|, loader)
    requires Relocated(Laid(Packed(j), PackedImage(j), loader), PackedHeader(j), base, loader, img, outcome)
    requires i < |c| && c[i] >= j.sectionRva && c[i] - j.sectionRva + 8 <= |j.payload|
    requires Read(j.payload, c[i] - j.sectionRva, 8) == (j.imageBase + k) % U64
    ensures outcome == Done && c[i] + 8 <= |img| && Read(img, c[i], 8) == (base + k) % U64
  {
    hide Packed, Laid, Expected, Plan, Refusals, Rebase, Relocated, Displacement, Read, AlignUp, AlignUp64,
         SizeOfHeaders, SizeOfImage, RelocVa, Encode, Grouped;
    PackedImageLoads(j, c, base, loader, img, outcome);
    PayloadWord(j, c[i]);
    RebaseWord(Expected(j), c, Displacement(base, j.imageBase), i);
    MovedNumber(j.imageBase, base, k);
  }

  lemma MovedNumber(preferred: nat, base: nat, k: nat)
    requires preferred < U64 && base < U64
    ensures Add64((preferred + k) % U64, Displacement(base, preferred)) == (base + k) % U64
  {
    var delta := Displacement(base, preferred);
    ModOfSum(preferred + k, delta);
    ModOfSum(preferred + delta, k);
  }

  /** A word of the payload, in memory as it is to be. */
  lemma PayloadWord(j: Job, at: nat)
    requires Sane(j) && j.sectionRva <= at && at - j.sectionRva + 8 <= |j.payload|
    ensures at + 8 <= |Expected(j)| && Read(Expected(j), at, 8) == Read(j.payload, at - j.sectionRva, 8)
  {
    hide Expected, Read, AlignUp, AlignUp64, RelocVa, SizeOfImage, SizeOfHeaders;
    LayoutFacts(j);
    RelocsInPlace(j);
    var padded := PadTo(j.payload, RelocVa(j) - j.sectionRva);
    PadParts(j.payload, RelocVa(j) - j.sectionRva);
    var from := at - j.sectionRva;
    AtSlice(Expected(j), j.sectionRva, padded, from, 8);
    assert padded[from..from + 8] == j.payload[from..from + 8];
    ReadSame(Expected(j), at, j.payload, from, 8);
  }

  lemma AtSlice(img: seq<byte>, pos: nat, part: seq<byte>, i: nat, n: nat)
    requires At(img, pos, part) && i + n <= |part|
    ensures img[pos + i..pos + i + n] == part[i..i + n]
  {
    var (a, b) := (img[pos + i..pos + i + n], part[i..i + n]);
    forall k | 0 <= k < n ensures a[k] == b[k] { assert img[pos..pos + |part|][i + k] == part[i + k]; }
  }

  lemma NoSites(img: seq<byte>)
    ensures forall delta :: Rebase(img, [], delta) == img
  {
  }

  lemma EncodeLength(groups: seq<Group>)
    requires Paged(groups)
    ensures groups == [] ==> Encode(groups) == []
    ensures groups != [] ==> |Encode(groups)| >= 8
  {
  }

  /** With sections aligned to pages the process loader finds every page it names in the image. */
  lemma AlignedPagesInside(j: Job, c: seq<nat>)
    requires Sane(j) && Candidates(c, j) && j.sectionAlign % PAGE_SIZE == 0
    ensures PagesInside(c, SizeOfImage(j))
  {
    hide AlignUp64, HeaderBytes, SizeOfHeaders;
    LayoutFacts(j);
    var n := SizeOfImage(j);
    Aligned(j.sectionRva + |j.payload|, j.sectionAlign);
    Aligned(RelocVa(j) + |j.relocs|, j.sectionAlign);
    assert n % j.sectionAlign == 0;
    Multiple(PAGE_SIZE, j.sectionAlign, n);
    forall i | 0 <= i < |c| ensures PageOf(c[i]) + PAGE_SIZE <= n {
      PageBelow(c[i], n);
    }
  }

  /** A job whose file alignment is above its section alignment, and above a page. */
  const COARSE := Job([0], [], 0x20_0000, 0x2000, 0x2000, 0x10, 0x2000, Kernel, 0)

  lemma CoarseSizes()
    ensures SizeOfHeaders(COARSE) == RawSize(COARSE) == 0x2000 && SizeOfImage(COARSE) == 0x2010
    ensures AlignUp(0x2010, PAGE_SIZE) == 0x3000
    ensures Sized(COARSE) && EntryInside(COARSE) && AlignUp64(1, 0x10) == 0x10
  {
    assert HeadersEnd(COARSE) == 0x1B0 && RelocPointer(COARSE) == 0x4000;
  }

  /** The packer makes it, the boot loader accepts it, and its section is copied past the image and past the
      whole pages reserved for it. */
  lemma AcceptedAndTooLong()
    ensures Holds(Packed(COARSE), PackedImage(COARSE)) && Acceptable(PackedImage(COARSE), |Packed(COARSE)|, Boot)
    ensures var (image, size) := (PackedImage(COARSE), PackedImage(COARSE).header.sizeOfImage);
      !Inside(BootWrites(image, |Packed(COARSE)|), size) &&
      !Inside(BootWrites(image, |Packed(COARSE)|), AlignUp(size, PAGE_SIZE))
  {
    hide HeaderBytes, PadTo, AlignUp, AlignUp64, SizeOfImage, RelocVa, RawSize, SizeOfHeaders, RelocPointer, HeadersEnd,
        Packed, Holds;
    CoarseSizes();
    SizedFacts(COARSE);
    PackedHolds(COARSE);
    PackedParts(COARSE);
    PadParts(HeaderBytes(COARSE), 0x2000);
    PadParts(COARSE.payload, 0x2000);
    var image := PackedImage(COARSE);
    assert image.sections == [TextSection(COARSE)];
    assert SectionOk(image.sections[0], image.header, |Packed(COARSE)|, Boot);
    WritesInside(image, |Packed(COARSE)|, 0x2010);
    WritesInside(image, |Packed(COARSE)|, 0x3000);
    assert !RawInside(image.sections[0], 0x3000);
  }

  lemma PageBelow(rva: nat, n: nat)
    requires rva < n && n % PAGE_SIZE == 0
    ensures PageOf(rva) + PAGE_SIZE <= n
  {
  }
}
