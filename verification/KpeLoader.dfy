/** Laying an image out in memory: the boot loader's LoadKpeImage and the copying part of
    PsSpawnUserKpeFromBuffer. */
module KpeLoader {
  import opened Machine
  import opened Bits
  import opened Bytes
  import opened Rebasing
  import opened Relocation
  import opened KpeFormat
  import opened KpePack

  function Overlay(img: seq<byte>, at: nat, part: seq<byte>): (r: seq<byte>)
    requires at + |part| <= |img|
    ensures |r| == |img|
  {
    img[..at] + part + img[at + |part|..]
  }

  method CopyMem(img: array<byte>, at: nat, src: seq<byte>, from: nat, n: nat)
    requires at + n <= img.Length && from + n <= |src|
    modifies img
    ensures img[..] == Overlay(old(img[..]), at, src[from..from + n])
  {
    ghost var was := img[..];
    var i := 0;
    while i < n
      invariant 0 <= i <= n
      invariant forall k | 0 <= k < img.Length :: img[k] == if at <= k < at + i then src[from + (k - at)] else was[k]
    {
      img[at + i] := src[from + i];
      i := i + 1;
    }
  }

  method ClearMem(img: array<byte>, at: nat, n: nat)
    requires at + n <= img.Length
    modifies img
    ensures img[..] == Overlay(old(img[..]), at, Zeros(n))
  {
    ghost var was := img[..];
    var i := 0;
    while i < n
      invariant 0 <= i <= n
      invariant forall k | 0 <= k < img.Length :: img[k] == if at <= k < at + i then 0 else was[k]
    {
      img[at + i] := 0;
      i := i + 1;
    }
  }

  function Smaller(a: nat, b: nat): (r: nat) { if a > b then b else a }

  function HeaderCopy(h: Header, fileSize: nat, loader: Loader): (r: nat) {
    match loader
    case Boot => Smaller(h.sizeOfHeaders, fileSize)
    case User => Smaller(Smaller(h.sizeOfHeaders, h.sizeOfImage), fileSize)
  }

  /** The section's bytes are in the file and have room in the image. */
  predicate Fits(s: Section, size: nat, fileSize: nat, loader: Loader) {
    && (s.raw > 0 ==> s.pointer + s.raw <= fileSize && s.va + s.raw <= size)
    && (loader.Boot? ==> s.va + s.raw <= size && s.va + s.size <= size)
  }

  function Raw(file: seq<byte>, s: Section): (r: seq<byte>)
    requires s.raw > 0 ==> s.pointer + s.raw <= |file|
  {
    if s.raw == 0 then [] else file[s.pointer..s.pointer + s.raw]
  }

  /** One section placed: its bytes, and in the boot loader zeros behind them up to its size. */
  function Place(img: seq<byte>, file: seq<byte>, s: Section, loader: Loader): (r: seq<byte>)
    requires Fits(s, |img|, |file|, loader)
    ensures |r| == |img|
  {
    if s.raw == 0 && loader.User? then img
    else
      var copied := Overlay(img, s.va, Raw(file, s));
      if loader.Boot? && s.size > s.raw then Overlay(copied, s.va + s.raw, Zeros(s.size - s.raw)) else copied
  }

  predicate AllFit(sections: seq<Section>, size: nat, fileSize: nat, loader: Loader) {
    forall i | 0 <= i < |sections| :: Fits(sections[i], size, fileSize, loader)
  }

  /** The sections placed in table order, later ones over earlier ones. */
  function PlaceAll(img: seq<byte>, file: seq<byte>, sections: seq<Section>, loader: Loader): (r: seq<byte>)
    requires AllFit(sections, |img|, |file|, loader)
    ensures |r| == |img|
  {
    if sections == [] then img
    else
      var last := |sections| - 1;
      Place(PlaceAll(img, file, sections[..last], loader), file, sections[last], loader)
  }

  predicate HeadersFit(h: Header, fileSize: nat, loader: Loader) { HeaderCopy(h, fileSize, loader) <= h.sizeOfImage }

  /** The image with its headers only. */
  function Started(file: seq<byte>, h: Header, loader: Loader): (r: seq<byte>)
    requires HeadersFit(h, |file|, loader)
    ensures |r| == h.sizeOfImage
  {
    Overlay(Zeros(h.sizeOfImage), 0, file[..HeaderCopy(h, |file|, loader)])
  }

  /** The image before relocation. */
  function Laid(file: seq<byte>, image: Image, loader: Loader): (r: seq<byte>)
    requires HeadersFit(image.header, |file|, loader)
    requires AllFit(image.sections, image.header.sizeOfImage, |file|, loader)
    ensures |r| == image.header.sizeOfImage
  {
    PlaceAll(Started(file, image.header, loader), file, image.sections, loader)
  }

  lemma PlaceNext(img: seq<byte>, file: seq<byte>, sections: seq<Section>, i: nat, loader: Loader)
    requires i < |sections| && AllFit(sections[..i + 1], |img|, |file|, loader)
    ensures AllFit(sections[..i], |img|, |file|, loader) && Fits(sections[i], |img|, |file|, loader)
    ensures PlaceAll(img, file, sections[..i + 1], loader) ==
            Place(PlaceAll(img, file, sections[..i], loader), file, sections[i], loader)
  {
    var upTo := sections[..i + 1];
    assert upTo[..i] == sections[..i] && upTo[i] == sections[i];
    forall k | 0 <= k < i ensures Fits(sections[..i][k], |img|, |file|, loader) {
      assert sections[..i][k] == upTo[k];
    }
  }

  // What the boot loader writes, as offsets from the image base, whatever the image is.

  datatype Span = Span(start: nat, end: nat)

  function SectionWrites(s: Section): (r: seq<Span>) {
    (if s.raw > 0 then [Span(s.va, s.va + s.raw)] else [])
    + (if s.size > s.raw then [Span(s.va + s.raw, s.va + s.size)] else [])
  }

  function SectionsWrites(sections: seq<Section>): (r: seq<Span>) {
    if sections == [] then []
    else SectionsWrites(sections[..|sections| - 1]) + SectionWrites(sections[|sections| - 1])
  }

  /** The clearing of the image, the copy of the headers, then the sections in table order. */
  function BootWrites(image: Image, fileSize: nat): (r: seq<Span>) {
    [Span(0, image.header.sizeOfImage)]
    + (if image.header.sizeOfHeaders > 0 then [Span(0, HeaderCopy(image.header, fileSize, Boot))] else [])
    + SectionsWrites(image.sections)
  }

  predicate Inside(writes: seq<Span>, size: nat) { forall i | 0 <= i < |writes| :: writes[i].end <= size }

  lemma InsideBoth(a: seq<Span>, b: seq<Span>, size: nat)
    ensures Inside(a + b, size) <==> Inside(a, size) && Inside(b, size)
  {
    if Inside(a + b, size) {
      forall i | 0 <= i < |a| ensures a[i].end <= size { assert (a + b)[i] == a[i]; }
      forall i | 0 <= i < |b| ensures b[i].end <= size { assert (a + b)[|a| + i] == b[i]; }
    }
  }

  /** The section's copy stays inside; its clearing always does. */
  predicate RawInside(s: Section, size: nat) { s.va + s.raw <= size }

  lemma {:induction false} SectionsInside(sections: seq<Section>, h: Header, fileSize: nat, room: nat)
    requires forall i | 0 <= i < |sections| :: SectionOk(sections[i], h, fileSize, Boot)
    requires h.sizeOfImage <= room
    ensures Inside(SectionsWrites(sections), room) <==> forall i | 0 <= i < |sections| :: RawInside(sections[i], room)
  {
    if sections != [] {
      var (rest, s) := (sections[..|sections| - 1], sections[|sections| - 1]);
      SectionsInside(rest, h, fileSize, room);
      InsideBoth(SectionsWrites(rest), SectionWrites(s), room);
      InsideBoth(if s.raw > 0 then [Span(s.va, s.va + s.raw)] else [],
                 if s.size > s.raw then [Span(s.va + s.raw, s.va + s.size)] else [], room);
      MaskNotBelow(s.size, h.sectionAlign);
      OneSpan(Span(s.va, s.va + s.raw), room);
      OneSpan(Span(s.va + s.raw, s.va + s.size), room);
      assert forall i | 0 <= i < |rest| :: sections[i] == rest[i];
      assert sections == rest + [s];
    }
  }

  lemma OneSpan(w: Span, size: nat)
    ensures Inside([w], size) <==> w.end <= size
  {
    assert [w][0] == w;
  }

  lemma {:induction false} MaskLoses(x: nat, m: nat)
    ensures AndNot(x, m) + m >= x
  {
    if x != 0 { MaskLoses(x / 2, m / 2); }
  }

  lemma MaskNotBelow(v: nat, alignment: nat)
    ensures AlignUp64(v, alignment) >= v
  {
    if alignment > 0 { MaskLoses(v + alignment - 1, alignment - 1); }
  }

  /** For an image the boot loader accepts, everything it writes stays below a bound exactly when the headers
      and the raw bytes of every section do; so it stays in the image exactly when the image fits. */
  lemma WritesInside(image: Image, fileSize: nat, room: nat)
    requires Acceptable(image, fileSize, Boot) && image.header.sizeOfImage <= room
    ensures Inside(BootWrites(image, fileSize), room)
       <==> HeaderCopy(image.header, fileSize, Boot) <= room && AllFit(image.sections, room, fileSize, Boot)
    ensures AllFit(image.sections, room, fileSize, Boot)
       <==> forall i | 0 <= i < |image.sections| :: RawInside(image.sections[i], room)
  {
    hide AlignUp64;
    var h := image.header;
    SectionsInside(image.sections, h, fileSize, room);
    var first := [Span(0, h.sizeOfImage)];
    var second := if h.sizeOfHeaders > 0 then [Span(0, HeaderCopy(h, fileSize, Boot))] else [];
    InsideBoth(first + second, SectionsWrites(image.sections), room);
    InsideBoth(first, second, room);
    OneSpan(first[0], room);
    OneSpan(Span(0, HeaderCopy(h, fileSize, Boot)), room);
    forall i | 0 <= i < |image.sections|
      ensures Fits(image.sections[i], room, fileSize, Boot) <==> RawInside(image.sections[i], room)
    {
      var s := image.sections[i];
      assert SectionOk(s, h, fileSize, Boot);
      MaskNotBelow(s.size, h.sectionAlign);
    }
  }

  /** Memory from the image base on, after the image has been cleared and its headers and sections copied. */
  function LaidOver(mem: seq<byte>, file: seq<byte>, image: Image): (r: seq<byte>)
    requires image.header.sizeOfImage <= |mem| && HeaderCopy(image.header, |file|, Boot) <= |mem|
    requires AllFit(image.sections, |mem|, |file|, Boot)
    ensures |r| == |mem|
  {
    var cleared := Overlay(mem, 0, Zeros(image.header.sizeOfImage));
    PlaceAll(Overlay(cleared, 0, file[..HeaderCopy(image.header, |file|, Boot)]), file, image.sections, Boot)
  }

  lemma PlaceBefore(img: seq<byte>, rest: seq<byte>, file: seq<byte>, s: Section)
    requires Fits(s, |img|, |file|, Boot)
    ensures Fits(s, |img + rest|, |file|, Boot) && Place(img + rest, file, s, Boot) == Place(img, file, s, Boot) + rest
  {
    hide Overlay;
    OverlayBefore(img, rest, s.va, Raw(file, s));
    if s.size > s.raw {
      OverlayBefore(Overlay(img, s.va, Raw(file, s)), rest, s.va + s.raw, Zeros(s.size - s.raw));
    }
  }

  lemma OverlayBefore(img: seq<byte>, rest: seq<byte>, at: nat, part: seq<byte>)
    requires at + |part| <= |img|
    ensures Overlay(img + rest, at, part) == Overlay(img, at, part) + rest
  {
  }

  lemma {:induction false} PlaceAllBefore(img: seq<byte>, rest: seq<byte>, file: seq<byte>, sections: seq<Section>)
    requires AllFit(sections, |img|, |file|, Boot)
    ensures AllFit(sections, |img + rest|, |file|, Boot)
    ensures PlaceAll(img + rest, file, sections, Boot) == PlaceAll(img, file, sections, Boot) + rest
  {
    hide Place;
    forall i | 0 <= i < |sections| ensures Fits(sections[i], |img + rest|, |file|, Boot) {
      assert Fits(sections[i], |img|, |file|, Boot);
    }
    if sections != [] {
      var last := |sections| - 1;
      PlaceAllBefore(img, rest, file, sections[..last]);
      PlaceBefore(PlaceAll(img, file, sections[..last], Boot), rest, file, sections[last]);
    }
  }

  /** An image that fits is laid out as such, and what is behind it stays. */
  lemma LaidInside(mem: seq<byte>, file: seq<byte>, image: Image)
    requires image.header.sizeOfImage <= |mem| && HeadersFit(image.header, |file|, Boot)
    requires AllFit(image.sections, image.header.sizeOfImage, |file|, Boot)
    ensures AllFit(image.sections, |mem|, |file|, Boot)
    ensures LaidOver(mem, file, image) == Laid(file, image, Boot) + mem[image.header.sizeOfImage..]
  {
    hide PlaceAll, AllFit;
    var (size, rest) := (image.header.sizeOfImage, mem[image.header.sizeOfImage..]);
    assert Overlay(mem, 0, Zeros(size)) == Zeros(size) + rest;
    OverlayBefore(Zeros(size), rest, 0, file[..HeaderCopy(image.header, |file|, Boot)]);
    PlaceAllBefore(Started(file, image.header, Boot), rest, file, image.sections);
    assert |Started(file, image.header, Boot) + rest| == |mem|;
  }

  // What is laid out, byte by byte.

  /** The section decides what stands at offset k: its raw bytes lie there, or in the boot loader the zeros behind. */
  predicate Reaches(s: Section, k: nat, loader: Loader) {
    s.va <= k && (k < s.va + s.raw || (loader.Boot? && k < s.va + s.size))
  }

  /** Section i is the last that reaches the offset. */
  ghost predicate Decides(sections: seq<Section>, i: nat, k: nat, loader: Loader) {
    && i < |sections| && Reaches(sections[i], k, loader)
    && forall j | i < j < |sections| :: !Reaches(sections[j], k, loader)
  }

  lemma DecidesBefore(sections: seq<Section>, k: nat, loader: Loader)
    requires sections != []
    ensures var last := |sections| - 1;
      forall i: nat :: Decides(sections, i, k, loader) <==>
        if Reaches(sections[last], k, loader) then i == last else Decides(sections[..last], i, k, loader)
  {
    hide Reaches;
    var last := |sections| - 1;
    forall i: nat | Decides(sections[..last], i, k, loader) && !Reaches(sections[last], k, loader)
      ensures Decides(sections, i, k, loader)
    {
      forall j | i < j < |sections| ensures !Reaches(sections[j], k, loader) {
        if j < last { assert sections[..last][j] == sections[j]; }
      }
    }
  }

  /** The last section that reaches the offset decides; where none does, the byte is as before. */
  lemma {:induction false} PlacedByte(img: seq<byte>, file: seq<byte>, sections: seq<Section>, loader: Loader, k: nat)
    requires AllFit(sections, |img|, |file|, loader) && k < |img|
    ensures var b := PlaceAll(img, file, sections, loader)[k];
      && ((forall i | 0 <= i < |sections| :: !Reaches(sections[i], k, loader)) ==> b == img[k])
      && forall i: nat | Decides(sections, i, k, loader) ::
           var s := sections[i];
           b == if k < s.va + s.raw then file[s.pointer + (k - s.va)] else 0
  {
    hide PlaceAll, Place, AllFit, Fits, Reaches, Decides;
    DecidesInside(sections, k, loader);
    if sections == [] {
      NonePlaced(img, file, [], loader);
    } else {
      var last := |sections| - 1;
      var (rest, s) := (sections[..last], sections[last]);
      PlacedLast(img, file, sections, loader);
      PlacedByte(img, file, rest, loader, k);
      DecidesBefore(sections, k, loader);
      DecidesInside(rest, k, loader);
      OneByte(PlaceAll(img, file, rest, loader), file, s, loader, k);
      assert forall i | 0 <= i < last :: rest[i] == sections[i];
    }
  }

  lemma DecidesInside(sections: seq<Section>, k: nat, loader: Loader)
    ensures forall i: nat | Decides(sections, i, k, loader) :: i < |sections|
  {
  }

  lemma PlacedLast(img: seq<byte>, file: seq<byte>, sections: seq<Section>, loader: Loader)
    requires sections != [] && AllFit(sections, |img|, |file|, loader)
    ensures AllFit(sections[..|sections| - 1], |img|, |file|, loader)
    ensures Fits(sections[|sections| - 1], |img|, |file|, loader)
    ensures PlaceAll(img, file, sections, loader) ==
            Place(PlaceAll(img, file, sections[..|sections| - 1], loader), file, sections[|sections| - 1], loader)
  {
  }

  lemma OneByte(img: seq<byte>, file: seq<byte>, s: Section, loader: Loader, k: nat)
    requires Fits(s, |img|, |file|, loader) && k < |img|
    ensures Place(img, file, s, loader)[k] ==
            if !Reaches(s, k, loader) then img[k]
            else if k < s.va + s.raw then file[s.pointer + (k - s.va)] else 0
  {
  }

  /** Where no section reaches there are the headers, as far as the file has them, then zeros, and behind the image
      what was there. */
  lemma HeaderByte(mem: seq<byte>, file: seq<byte>, image: Image, k: nat)
    requires image.header.sizeOfImage <= |mem| && HeaderCopy(image.header, |file|, Boot) <= |mem| && k < |mem|
    requires AllFit(image.sections, |mem|, |file|, Boot)
    requires forall i | 0 <= i < |image.sections| :: !Reaches(image.sections[i], k, Boot)
    ensures LaidOver(mem, file, image)[k] ==
            if k < image.header.sizeOfHeaders && k < |file| then file[k]
            else if k < image.header.sizeOfImage then 0 else mem[k]
  {
    hide PlaceAll, AllFit, Reaches;
    var cleared := Overlay(mem, 0, Zeros(image.header.sizeOfImage));
    PlacedByte(Overlay(cleared, 0, file[..HeaderCopy(image.header, |file|, Boot)]), file, image.sections, Boot, k);
  }

  /** In the process loader the headers end with the image. */
  lemma UserHeaderByte(file: seq<byte>, image: Image, k: nat)
    requires HeadersFit(image.header, |file|, User) && k < image.header.sizeOfImage
    requires AllFit(image.sections, image.header.sizeOfImage, |file|, User)
    requires forall i | 0 <= i < |image.sections| :: !Reaches(image.sections[i], k, User)
    ensures Laid(file, image, User)[k] == if k < image.header.sizeOfHeaders && k < |file| then file[k] else 0
  {
    hide PlaceAll, AllFit, Reaches;
    PlacedByte(Started(file, image.header, User), file, image.sections, User, k);
  }

  /** One section in the boot loader. */
  method PlaceBoot(img: array<byte>, file: seq<byte>, s: Section) returns (ghost writes: seq<Span>)
    requires Fits(s, img.Length, |file|, Boot)
    modifies img
    ensures img[..] == Place(old(img[..]), file, s, Boot)
    ensures writes == SectionWrites(s)
  {
    hide Overlay;
    writes := [];
    if s.raw > 0 {
      writes := writes + [Span(s.va, s.va + s.raw)];
      CopyMem(img, s.va, file, s.pointer, s.raw);
    } else {
      OverlayNothing(img[..], s.va);
    }
    if s.size > s.raw {
      writes := writes + [Span(s.va + s.raw, s.va + s.size)];
      ClearMem(img, s.va + s.raw, s.size - s.raw);
    }
  }

  lemma OverlayNothing(img: seq<byte>, at: nat)
    requires at <= |img|
    ensures Overlay(img, at, []) == img
  {
  }

  /** The layout part of LoadKpeImage, in the memory from the image base on. */
  method LayOut(mem: array<byte>, file: seq<byte>, image: Image) returns (ghost writes: seq<Span>)
    requires Acceptable(image, |file|, Boot) && image.header.sizeOfImage <= mem.Length
    requires HeaderCopy(image.header, |file|, Boot) <= mem.Length && AllFit(image.sections, mem.Length, |file|, Boot)
    modifies mem
    ensures mem[..] == LaidOver(old(mem[..]), file, image)
    ensures writes == BootWrites(image, |file|)
  {
    hide PlaceAll, Overlay, Acceptable;
    var h := image.header;
    writes := [Span(0, h.sizeOfImage)];
    ClearMem(mem, 0, h.sizeOfImage);
    ghost var start := Overlay(mem[..], 0, file[..HeaderCopy(h, |file|, Boot)]);
    if h.sizeOfHeaders > 0 {
      writes := writes + [Span(0, HeaderCopy(h, |file|, Boot))];
      CopyMem(mem, 0, file, 0, HeaderCopy(h, |file|, Boot));
    } else {
      OverlayNothing(mem[..], 0);
    }
    assert mem[..] == start;
    ghost var more := PlaceSections(mem, file, image.sections);
    writes := writes + more;
  }

  /** The sections in the boot loader. */
  method PlaceSections(mem: array<byte>, file: seq<byte>, sections: seq<Section>) returns (ghost writes: seq<Span>)
    requires AllFit(sections, mem.Length, |file|, Boot)
    modifies mem
    ensures mem[..] == PlaceAll(old(mem[..]), file, sections, Boot)
    ensures writes == SectionsWrites(sections)
  {
    hide PlaceAll, Overlay, Place;
    ghost var start := mem[..];
    writes := [];
    var i := 0;
    NonePlaced(start, file, sections, Boot);
    while i < |sections|
      invariant 0 <= i <= |sections|
      invariant AllFit(sections[..i], |start|, |file|, Boot)
      invariant mem[..] == PlaceAll(start, file, sections[..i], Boot)
      invariant writes == SectionsWrites(sections[..i])
    {
      PlaceNext(start, file, sections, i, Boot);
      assert sections[..i + 1][..i] == sections[..i];
      ghost var more := PlaceBoot(mem, file, sections[i]);
      writes := writes + more;
      i := i + 1;
    }
    assert sections[..i] == sections;
  }

  /** LoadKpeImage past validation and allocation: `mem` is the memory from the image base on, as far as the
      loader writes.  The image is laid out and its own bytes are relocated. */
  method LoadBoot(mem: array<byte>, file: seq<byte>, image: Image, base: nat)
    returns (outcome: Outcome, ghost writes: seq<Span>)
    requires Acceptable(image, |file|, Boot) && base < U64 && image.header.imageBase < U64
    requires Inside(BootWrites(image, |file|), mem.Length)
    modifies mem
    ensures writes == BootWrites(image, |file|)
    ensures Loaded(old(mem[..]), file, image, base, mem[..], outcome)
    ensures HeadersFit(image.header, |file|, Boot) && AllFit(image.sections, image.header.sizeOfImage, |file|, Boot) ==>
              LoadedInside(old(mem[..]), file, image, base, mem[..], outcome)
  {
    hide PlaceAll, Overlay, Acceptable, BootWrites, Inside, LaidOver, AllFit, Refusals, Plan, Rebase, Clear;
    var h := image.header;
    RoomFor(image, |file|, mem.Length);
    ghost var was := mem[..];
    writes := LayOut(mem, file, image);
    ghost var laid := mem[..];
    var img := new byte[h.sizeOfImage](i requires 0 <= i < h.sizeOfImage <= mem.Length reads mem => mem[i]);
    assert img[..] == laid[..h.sizeOfImage];
    outcome := Relocate(img, base, h.imageBase, h.relocVa, h.relocSize, Dynamic(h), Boot);
    CopyMem(mem, 0, img[..], 0, h.sizeOfImage);
    WindowBack(laid, img[..], mem[..]);
    if HeadersFit(h, |file|, Boot) && AllFit(image.sections, h.sizeOfImage, |file|, Boot) {
      LaidInside(was, file, image);
      assert laid[..h.sizeOfImage] == Laid(file, image, Boot) && laid[h.sizeOfImage..] == was[h.sizeOfImage..];
    }
  }

  lemma RoomFor(image: Image, fileSize: nat, room: nat)
    requires Acceptable(image, fileSize, Boot) && Inside(BootWrites(image, fileSize), room)
    ensures image.header.sizeOfImage <= room && HeaderCopy(image.header, fileSize, Boot) <= room
    ensures AllFit(image.sections, room, fileSize, Boot)
  {
    assert BootWrites(image, fileSize)[0] == Span(0, image.header.sizeOfImage);
    WritesInside(image, fileSize, room);
  }

  lemma WindowBack(laid: seq<byte>, img: seq<byte>, mem: seq<byte>)
    requires |img| <= |laid| && mem == Overlay(laid, 0, img[0..|img|])
    ensures |mem| == |laid| && mem[..|img|] == img && mem[|img|..] == laid[|img|..]
  {
  }

  /** The image's own bytes as laid out and relocated, the bytes behind it as laid out. */
  ghost predicate Loaded(was: seq<byte>, file: seq<byte>, image: Image, base: nat, mem: seq<byte>, outcome: Outcome)
    requires image.header.imageBase < U64 && base < U64
  {
    var size := image.header.sizeOfImage;
    && size <= |was| == |mem| && HeaderCopy(image.header, |file|, Boot) <= |was|
    && AllFit(image.sections, |was|, |file|, Boot)
    && var laid := LaidOver(was, file, image);
       mem[size..] == laid[size..] && Relocated(laid[..size], image.header, base, Boot, mem[..size], outcome)
  }

  /** ... for an image that fits: nothing behind it has changed. */
  ghost predicate LoadedInside(was: seq<byte>, file: seq<byte>, image: Image, base: nat, mem: seq<byte>,
      outcome: Outcome)
    requires image.header.imageBase < U64 && base < U64 && HeadersFit(image.header, |file|, Boot)
    requires AllFit(image.sections, image.header.sizeOfImage, |file|, Boot)
  {
    var size := image.header.sizeOfImage;
    && size <= |was| == |mem| && mem[size..] == was[size..]
    && Relocated(Laid(file, image, Boot), image.header, base, Boot, mem[..size], outcome)
  }

  lemma NonePlaced(img: seq<byte>, file: seq<byte>, sections: seq<Section>, loader: Loader)
    ensures AllFit(sections[..0], |img|, |file|, loader) && PlaceAll(img, file, sections[..0], loader) == img
  {
  }

  /** The image may be moved. */
  predicate Dynamic(h: Header) { h.dll / DYNAMIC_BASE % 2 == 1 }

  /** A laid-out image after relocation to base: as Relocate promises. */
  ghost predicate Relocated(laid: seq<byte>, h: Header, base: nat, loader: Loader, img: seq<byte>, outcome: Outcome)
    requires h.imageBase < U64 && base < U64
  {
    var (o, sites) := Plan(laid, base, h.imageBase, h.relocVa, h.relocSize, Dynamic(h), loader);
    && Refusals(laid, base, h.imageBase, h.relocVa, h.relocSize, Dynamic(h), loader, img, outcome)
    && (Clear(sites, h.relocVa, h.relocVa + h.relocSize) ==>
          outcome == o && img == Rebase(laid, sites, Displacement(base, h.imageBase)))
  }

  /** The sections in the process loader, up to the first that has no room. */
  method PlaceUser(img: array<byte>, file: seq<byte>, sections: seq<Section>) returns (ok: bool)
    requires forall i | 0 <= i < |sections| :: SectionInFile(sections[i], |file|)
    modifies img
    ensures ok == AllFit(sections, img.Length, |file|, User)
    ensures ok ==> img[..] == PlaceAll(old(img[..]), file, sections, User)
  {
    hide PlaceAll, Overlay;
    ghost var start := img[..];
    var i := 0;
    NonePlaced(start, file, sections, User);
    while i < |sections|
      invariant 0 <= i <= |sections|
      invariant AllFit(sections[..i], |start|, |file|, User)
      invariant img[..] == PlaceAll(start, file, sections[..i], User)
    {
      var s := sections[i];
      if s.raw != 0 && s.va + s.raw > img.Length {
        return false;
      }
      OneMoreFits(sections, i, |start|, |file|);
      PlaceNext(start, file, sections, i, User);
      if s.raw != 0 {
        CopyMem(img, s.va, file, s.pointer, s.raw);
      }
      i := i + 1;
    }
    assert sections[..i] == sections;
    ok := true;
  }

  lemma OneMoreFits(sections: seq<Section>, i: nat, size: nat, fileSize: nat)
    requires i < |sections| && AllFit(sections[..i], size, fileSize, User) && Fits(sections[i], size, fileSize, User)
    ensures AllFit(sections[..i + 1], size, fileSize, User)
  {
    var upTo := sections[..i + 1];
    forall k | 0 <= k < |upTo| ensures Fits(upTo[k], size, fileSize, User) {
      if k < i { assert sections[..i][k] == upTo[k]; }
    }
  }

  predicate SectionInFile(s: Section, fileSize: nat) { s.raw > 0 ==> s.pointer + s.raw <= fileSize }

  /** The copying part of the process loader, over a zeroed region at base. */
  method LoadUser(file: seq<byte>, image: Image, base: nat) returns (img: array<byte>, outcome: Outcome)
    requires Acceptable(image, |file|, User) && base < U64 && image.header.imageBase < U64
    ensures fresh(img)
    ensures AllFit(image.sections, image.header.sizeOfImage, |file|, User) ==>
              Relocated(Laid(file, image, User), image.header, base, User, img[..], outcome)
    ensures !AllFit(image.sections, image.header.sizeOfImage, |file|, User) ==> outcome == Malformed
  {
    hide PlaceAll, Overlay;
    var h := image.header;
    img := new byte[h.sizeOfImage](_ => 0);
    assert img[..] == Zeros(h.sizeOfImage);
    CopyMem(img, 0, file, 0, HeaderCopy(h, |file|, User));
    var ok := PlaceUser(img, file, image.sections);
    if !ok {
      return img, Malformed;
    }
    outcome := Relocate(img, base, h.imageBase, h.relocVa, h.relocSize, Dynamic(h), User);
  }
}
