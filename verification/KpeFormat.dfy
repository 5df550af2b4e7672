/** The KPE image format, and what the boot loader and the process loader accept of it. */
module KpeFormat {
  import opened Status
  import opened Bits
  import opened Bytes
  import opened Relocation

  const DOS_MAGIC: nat := 0x5A4D
  const SIGNATURE: nat := 0x3045_504B
  const MACHINE: nat := 0xA641
  const OPTIONAL_MAGIC: nat := 0xA641
  const DYNAMIC_BASE: nat := 0x40
  const NX_COMPAT: nat := 0x100
  const DIRECTORIES: nat := 16
  const DOS_SIZE: nat := 64
  const NT_SIZE: nat := 264
  const OPTIONAL_SIZE: nat := 240
  const SECTION_SIZE: nat := 40
  const IMAGE_MAX: nat := 0x100_0000

  function Subsystem(loader: Loader): (r: nat) { if loader.Boot? then 1 else 2 }

  datatype Header = Header(signature: nat, machine: nat, sections: nat, optionalSize: nat, magic: nat, entry: nat,
                           imageBase: nat, sectionAlign: nat, fileAlign: nat, sizeOfImage: nat, sizeOfHeaders: nat,
                           subsystem: nat, dll: nat, directories: nat, relocVa: nat, relocSize: nat)

  datatype Section = Section(size: nat, va: nat, raw: nat, pointer: nat)

  datatype Image = Image(header: Header, sections: seq<Section>)

  function ParseHeader(file: seq<byte>, pe: nat): (h: Header)
    requires pe + NT_SIZE <= |file|
  {
    Header(Read(file, pe, 4), Read(file, pe + 4, 2), Read(file, pe + 6, 2), Read(file, pe + 20, 2),
           Read(file, pe + 24, 2), Read(file, pe + 40, 4), Read(file, pe + 48, 8), Read(file, pe + 56, 4),
           Read(file, pe + 60, 4), Read(file, pe + 80, 4), Read(file, pe + 84, 4), Read(file, pe + 92, 2),
           Read(file, pe + 94, 2), Read(file, pe + 132, 4), Read(file, pe + 176, 4), Read(file, pe + 180, 4))
  }

  function ParseSection(file: seq<byte>, at: nat): (r: Section)
    requires at + SECTION_SIZE <= |file|
  {
    Section(Read(file, at + 8, 4), Read(file, at + 12, 4), Read(file, at + 16, 4), Read(file, at + 20, 4))
  }

  function ParseSections(file: seq<byte>, at: nat, n: nat): (s: seq<Section>)
    requires at + SECTION_SIZE * n <= |file|
    ensures |s| == n
  {
    if n == 0 then [] else ParseSections(file, at, n - 1) + [ParseSection(file, at + SECTION_SIZE * (n - 1))]
  }

  /** Rounding up by masking, as the boot loader does it. */
  function AlignUp64(v: nat, alignment: nat): (r: nat) {
    if alignment == 0 then v else AndNot(v + alignment - 1, alignment - 1)
  }

  predicate FileRangeValid(fileSize: nat, offset: nat, size: nat) {
    offset <= fileSize && size <= fileSize - offset
  }

  predicate HeaderOk(h: Header, loader: Loader) {
    && h.signature == SIGNATURE && h.machine == MACHINE && h.magic == OPTIONAL_MAGIC
    && h.sections != 0 && h.subsystem == Subsystem(loader)
    && h.entry < h.sizeOfImage && h.directories <= DIRECTORIES
    && (loader.Boot? ==> h.optionalSize >= OPTIONAL_SIZE && h.sectionAlign != 0 && h.fileAlign != 0)
  }

  predicate SectionOk(s: Section, h: Header, fileSize: nat, loader: Loader) {
    && (s.raw == 0 || FileRangeValid(fileSize, s.pointer, s.raw))
    && (loader.Boot? ==> s.va < h.sizeOfImage && s.va + AlignUp64(s.size, h.sectionAlign) <= h.sizeOfImage)
  }

  /** The NT headers at pe, and the section table behind them, are in the file and say this. */
  predicate HeadersAt(file: seq<byte>, pe: nat, image: Image) {
    && pe + NT_SIZE <= |file| && image.header == ParseHeader(file, pe)
    && TableOf(pe, image.header) + SECTION_SIZE * image.header.sections <= |file|
    && image.sections == ParseSections(file, TableOf(pe, image.header), image.header.sections)
  }

  function TableOf(pe: nat, h: Header): (r: nat) { pe + 24 + h.optionalSize }

  predicate Holds(file: seq<byte>, image: Image) {
    DOS_SIZE <= |file| && Read(file, 0, 2) == DOS_MAGIC && HeadersAt(file, Read(file, 60, 4), image)
  }

  /** What a loader insists on before it touches memory. */
  predicate Acceptable(image: Image, fileSize: nat, loader: Loader) {
    && HeaderOk(image.header, loader)
    && (loader.User? ==> fileSize <= IMAGE_MAX)
    && forall i | 0 <= i < |image.sections| :: SectionOk(image.sections[i], image.header, fileSize, loader)
  }

  /** What a loader may rely on: an accepted image starts inside itself, has sections, was made for the loader, and
      the bytes its sections name are in the file; for the boot loader every section starts in the image. */
  lemma Accepted(file: seq<byte>, image: Image, loader: Loader)
    requires Holds(file, image) && Acceptable(image, |file|, loader)
    ensures var h := image.header;
      && h.entry < h.sizeOfImage && |image.sections| == h.sections > 0
      && h.subsystem == (if loader.Boot? then 1 else 2)
      && forall i | 0 <= i < |image.sections| ::
           var s := image.sections[i];
           && (s.raw > 0 ==> s.pointer + s.raw <= |file|)
           && (loader.Boot? ==> s.va < h.sizeOfImage)
  {
  }

  method Validate(file: seq<byte>, loader: Loader) returns (r: Option<Image>)
    ensures r.Some? ==> Holds(file, r.value) && Acceptable(r.value, |file|, loader)
    ensures r.None? ==> forall image | Holds(file, image) :: !Acceptable(image, |file|, loader)
  {
    hide Read, AndNot;
    if |file| < DOS_SIZE || (loader.User? && |file| > IMAGE_MAX) || Read(file, 0, 2) != DOS_MAGIC {
      return None;
    }
    var pe := Read(file, 60, 4);
    if pe + NT_SIZE > |file| {
      return None;
    }
    var h := ParseHeader(file, pe);
    if h.signature != SIGNATURE || h.machine != MACHINE || h.magic != OPTIONAL_MAGIC {
      return None;
    }
    if h.sections == 0 || h.subsystem != Subsystem(loader) {
      return None;
    }
    if loader.Boot? && (h.optionalSize < OPTIONAL_SIZE || h.sectionAlign == 0 || h.fileAlign == 0) {
      return None;
    }
    if h.entry >= h.sizeOfImage || h.directories > DIRECTORIES {
      return None;
    }
    var table := TableOf(pe, h);
    if table + SECTION_SIZE * h.sections > |file| {
      return None;
    }
    var sections := ParseSections(file, table, h.sections);
    var i := 0;
    while i < h.sections
      invariant 0 <= i <= h.sections
      invariant forall k | 0 <= k < i :: SectionOk(sections[k], h, |file|, loader)
    {
      var s := sections[i];
      if loader.Boot? && (s.va >= h.sizeOfImage || s.va + AlignUp64(s.size, h.sectionAlign) > h.sizeOfImage) {
        return None;
      }
      if s.raw != 0 && (s.pointer > |file| || s.raw > |file| - s.pointer) {
        return None;
      }
      i := i + 1;
    }
    r := Some(Image(h, sections));
  }
}
