/** The packer: the layout it computes and the stream it writes. */
module KpePack {
  import opened Machine
  import opened Status
  import opened Bits
  import opened Bytes
  import opened Rebasing
  import opened Relocation
  import opened Arithmetic
  import opened KpeFormat

  const PE_OFFSET: nat := 0x80

  /** Numbers to be written one after the other, each with its width in bytes. */
  datatype Fields = End | Put(value: nat, width: nat, rest: Fields)

  function Emit(f: Fields): (r: seq<byte>) {
    match f
    case End => []
    case Put(v, n, rest) => Write(v, n) + Emit(rest)
  }

  function Size(f: Fields): (n: nat)
    ensures n == |Emit(f)|
  {
    match f
    case End => 0
    case Put(_, n, rest) => n + Size(rest)
  }

  /** The next number, and where the rest starts. */
  lemma Peek(file: seq<byte>, pos: nat, f: Fields) returns (rest: Fields, next: nat)
    requires f.Put? && At(file, pos, Emit(f))
    ensures rest == f.rest && next == pos + f.width <= |file|
    ensures f.value < Pow256(f.width) ==> Read(file, pos, f.width) == f.value
    ensures At(file, next, Emit(rest)) && Size(f) == f.width + Size(rest)
  {
    rest, next := f.rest, pos + f.width;
    AtParts(file, pos, Write(f.value, f.width), Emit(f.rest));
    if f.value < Pow256(f.width) { AtNumber(file, pos, f.value, f.width); }
  }

  function Zeros(n: nat): (s: seq<byte>)
    ensures |s| == n
  {
    seq(n, _ => 0)
  }

  datatype Kind = Kernel | Userland | SystemAddon

  function SubsystemOf(kind: Kind): (r: nat) { match kind case Kernel => 1 case Userland => 2 case SystemAddon => 3 }

  /** What the packer is asked to make of a payload. */
  datatype Job = Job(payload: seq<byte>, relocs: seq<byte>, imageBase: nat, entry: nat, sectionRva: nat,
                     sectionAlign: nat, fileAlign: nat, kind: Kind, stamp: nat)

  /** The least multiple of a that is at least v. */
  function AlignUp(v: nat, a: nat): (r: nat)
    ensures a > 0 ==> v <= r < v + a
  {
    if a == 0 then v else (v + a - 1) / a * a
  }

  predicate HasRelocs(j: Job) { |j.relocs| > 0 }
  function SectionCount(j: Job): (r: nat) { if HasRelocs(j) then 2 else 1 }
  function HeadersEnd(j: Job): (r: nat) { PE_OFFSET + 4 + 20 + OPTIONAL_SIZE + SECTION_SIZE * SectionCount(j) }
  function SizeOfHeaders(j: Job): (r: nat) { AlignUp(HeadersEnd(j), j.fileAlign) }
  function RawSize(j: Job): (r: nat) { AlignUp(|j.payload|, j.fileAlign) }
  function RelocVa(j: Job): (r: nat) { AlignUp(j.sectionRva + |j.payload|, j.sectionAlign) }
  function RelocRaw(j: Job): (r: nat) { AlignUp(|j.relocs|, j.fileAlign) }
  function RelocPointer(j: Job): (r: nat) { AlignUp(SizeOfHeaders(j) + RawSize(j), j.fileAlign) }
  function SizeOfImage(j: Job): (r: nat) {
    if HasRelocs(j) then AlignUp(RelocVa(j) + |j.relocs|, j.sectionAlign) else RelocVa(j)
  }

  function DosFields(): (r: Fields) { Put(DOS_MAGIC, 2,
      Put(0, 58, Put(PE_OFFSET, 4, Put(0, PE_OFFSET - DOS_SIZE, End)))) }

  /** Signature, file header and the optional header up to the directories. */
  function NtFields(j: Job): (r: Fields) {
    Put(SIGNATURE, 4, Put(MACHINE, 2, Put(SectionCount(j), 2, Put(j.stamp, 4, Put(0, 4, Put(0, 4,
    Put(OPTIONAL_SIZE, 2, Put(0x22, 2, OptionalFields(j)))))))))
  }

  function OptionalFields(j: Job): (r: Fields) {
    Put(OPTIONAL_MAGIC, 2, Put(1, 1, Put(0, 1, Put(RawSize(j), 4, Put(if HasRelocs(j) then RelocRaw(j) else 0, 4,
    Put(0, 4, Put(j.entry, 4, Put(j.sectionRva, 4, Put(j.imageBase, 8, AlignFields(j))))))))))
  }

  function AlignFields(j: Job): (r: Fields) {
    Put(j.sectionAlign, 4, Put(j.fileAlign, 4, Put(1, 2, Put(0, 2, Put(1, 2, Put(0, 2, Put(1, 2, Put(0, 2, Put(0, 4,
    SizeFields(j))))))))))
  }

  function SizeFields(j: Job): (r: Fields) {
    Put(SizeOfImage(j), 4,
        Put(SizeOfHeaders(j), 4, Put(0, 4, Put(SubsystemOf(j.kind), 2, Put(DYNAMIC_BASE + NX_COMPAT, 2,
    Put(0x20_0000, 8, Put(0x2_0000, 8, Put(0x20_0000, 8, Put(0x2_0000, 8, Put(0, 4, Put(DIRECTORIES, 4,
    DirectoryFields(j))))))))))))
  }

  /** Sixteen directories, the sixth for the relocations. */
  function DirectoryFields(j: Job): (r: Fields) {
    Put(0, 40, Put(if HasRelocs(j) then RelocVa(j) else 0, 4, Put(|j.relocs|, 4, Put(0, 80, End))))
  }

  /** A section header; the name is ".text" or ".reloc" as a little-endian number. */
  function SectionFields(name: nat, s: Section, flags: nat): (r: Fields) {
    Put(name, 8, Put(s.size, 4, Put(s.va, 4, Put(s.raw, 4, Put(s.pointer, 4, Put(0, 4, Put(0, 4, Put(0, 2, Put(0, 2,
    Put(flags, 4, End))))))))))
  }

  const TEXT: nat := 0x74_7865_742E
  const RELOC: nat := 0x636F_6C65_722E

  function TextSection(j: Job): (r: Section) { Section(|j.payload|, j.sectionRva, RawSize(j), SizeOfHeaders(j)) }
  function RelocSection(j: Job): (r: Section) { Section(|j.relocs|, RelocVa(j), RelocRaw(j), RelocPointer(j)) }

  function TableBytes(j: Job): (r: seq<byte>) {
    Emit(SectionFields(TEXT, TextSection(j), 0x6000_0020)) +
    (if HasRelocs(j) then Emit(SectionFields(RELOC, RelocSection(j), 0x4000_0040)) else [])
  }

  /** The file: headers, payload and relocations, each padded to the file alignment. */
  function HeaderBytes(j: Job): (r: seq<byte>) { Emit(DosFields()) + (Emit(NtFields(j)) + TableBytes(j)) }

  function PadTo(s: seq<byte>, n: nat): (r: seq<byte>)
    ensures |r| == if |s| <= n then n else |s|
  {
    if |s| <= n then s + Zeros(n - |s|) else s
  }

  function Packed(j: Job): (r: seq<byte>) {
    var text := PadTo(PadTo(HeaderBytes(j), SizeOfHeaders(j)) + j.payload, SizeOfHeaders(j) + RawSize(j));
    if HasRelocs(j) then PadTo(PadTo(text, RelocPointer(j)) + j.relocs, RelocPointer(j) + RelocRaw(j)) else text
  }

  method WritePadding(stream: seq<byte>, end: nat) returns (padded: seq<byte>)
    ensures padded == PadTo(stream, end)
  {
    padded := stream;
    while |padded| < end
      invariant |stream| <= |padded| && (|padded| <= end || padded == stream)
      invariant padded == stream + Zeros(|padded| - |stream|)
    {
      padded := padded + [0];
    }
  }

  /** The packer proper: None where it throws. */
  method Pack(j: Job) returns (r: Option<seq<byte>>)
    ensures r == if EntryInside(j) then Some(Packed(j)) else None
  {
    hide HeaderBytes, Emit, SizeOfImage, RelocVa;
    if j.entry < j.sectionRva || j.entry >= j.sectionRva + |j.payload| {
      return None;
    }
    var stream := HeaderBytes(j);
    stream := WritePadding(stream, SizeOfHeaders(j));
    stream := stream + j.payload;
    stream := WritePadding(stream, SizeOfHeaders(j) + RawSize(j));
    if HasRelocs(j) {
      stream := WritePadding(stream, RelocPointer(j));
      stream := stream + j.relocs;
      stream := WritePadding(stream, RelocPointer(j) + RelocRaw(j));
    }
    r := Some(stream);
  }

  predicate PowerOfTwo(a: nat) {
    a == 1 || (a > 0 && a % 2 == 0 && PowerOfTwo(a / 2))
  }

  /** Clearing the low bits of a mask 2^k - 1 rounds down to a multiple of 2^k. */
  lemma {:induction false} MaskRoundsDown(x: nat, a: nat)
    requires PowerOfTwo(a)
    ensures AndNot(x, a - 1) == x / a * a
    decreases a, x
  {
    if a == 1 {
      if x > 0 { MaskRoundsDown(x / 2, 1); }
    } else {
      var b := a / 2;
      MaskRoundsDown(x / 2, b);
      Halves(x, b);
      assert (a - 1) / 2 == b - 1 && (a - 1) % 2 == 1;
    }
  }

  lemma Halves(x: nat, b: nat)
    requires b > 0
    ensures x / (2 * b) * (2 * b) == 2 * (x / 2 / b * b)
  {
    var q := x / 2 / b;
    var r := x / 2 % b;
    assert x / 2 == b * q + r;
    assert (2 * b) * q == 2 * (b * q);
    DivMod(x, 2 * b, q, 2 * r + x % 2);
    assert q * (2 * b) == 2 * (q * b);
  }

  lemma MaskAligns(v: nat, a: nat)
    requires PowerOfTwo(a)
    ensures AlignUp64(v, a) == AlignUp(v, a)
  {
    MaskRoundsDown(v + a - 1, a);
  }

  lemma {:induction false} Divides(a: nat, b: nat)
    requires PowerOfTwo(a) && PowerOfTwo(b) && a <= b
    ensures b % a == 0
  {
    if a > 1 {
      Divides(a / 2, b / 2);
      var k := b / 2 / (a / 2);
      assert b / 2 == a / 2 * k;
      assert a / 2 * k * 2 == a * k;
      DivMod(b, a, k, 0);
    }
  }

  lemma Multiple(a: nat, b: nat, m: nat)
    requires a > 0 && b > 0 && b % a == 0 && m % b == 0
    ensures m % a == 0
  {
    var (k, n) := (b / a, m / b);
    assert m == (a * k) * n;
    assert (a * k) * n == a * (k * n);
    DivMod(m, a, k * n, 0);
  }

  lemma Aligned(v: nat, a: nat)
    requires a > 0
    ensures AlignUp(v, a) % a == 0
  {
    var q := (v + a - 1) / a;
    assert a * q == q * a;
    DivMod(AlignUp(v, a), a, q, 0);
  }

  lemma Least(v: nat, a: nat, m: nat)
    requires a > 0 && m % a == 0 && v <= m
    ensures AlignUp(v, a) <= m
  {
    var (q, k) := ((v + a - 1) / a, m / a);
    assert m == a * k;
    if q > k {
      MulMonotone(a, k + 1, q);
      assert a * q <= v + a - 1;
    }
    MulMonotone(a, q, if q > k then q else k);
  }

  lemma DifferenceAligned(m: nat, n: nat, a: nat)
    requires a > 0 && n <= m && m % a == 0 && n % a == 0
    ensures (m - n) % a == 0
  {
    var (p, q) := (m / a, n / a);
    assert m == a * p && n == a * q;
    if p < q {
      MulMonotone(a, p + 1, q);
      assert false;
    }
    assert m - n == a * (p - q);
    DivMod(m - n, a, p - q, 0);
  }

  /** The packer refuses an entry outside the payload. */
  predicate EntryInside(j: Job) { j.sectionRva <= j.entry < j.sectionRva + |j.payload| }

  /** The jobs whose sections do not run into one another: alignments powers of two, the file's
      not above the section's, the section past the headers; and every number fits its field. */
  predicate Sane(j: Job) {
    && PowerOfTwo(j.fileAlign) && PowerOfTwo(j.sectionAlign) && j.fileAlign <= j.sectionAlign
    && j.sectionRva % j.sectionAlign == 0 && SizeOfHeaders(j) <= j.sectionRva
    && EntryInside(j) && SizeOfImage(j) < U32 && j.imageBase < U64 && j.stamp < U32
  }

  /** The packer's own alignments and section place make every job with an entry in its payload sane, up to
      the 32 bits of a size. */
  lemma DefaultsSane(j: Job)
    requires j.fileAlign == 0x200 && j.sectionAlign == 0x1000 && j.sectionRva == 0x1000
    requires |j.payload| + |j.relocs| <= U32 - 0x4000 && EntryInside(j) && j.imageBase < U64 && j.stamp < U32
    ensures Sane(j)
  {
    assert PowerOfTwo(8) && PowerOfTwo(0x80) && PowerOfTwo(0x200) && PowerOfTwo(0x1000);
    assert HeadersEnd(j) <= 0x200;
  }

  /** n bytes before the boundary at or above, the file's padding stays below the section's. */
  lemma RawBelow(start: nat, n: nat, j: Job)
    requires Sane(j) && start % j.sectionAlign == 0
    ensures start + AlignUp(n, j.fileAlign) <= AlignUp(start + n, j.sectionAlign)
    ensures start + AlignUp(n, j.sectionAlign) <= AlignUp(start + n, j.sectionAlign)
    ensures AlignUp(start + n, j.sectionAlign) % j.sectionAlign == 0
  {
    var top := AlignUp(start + n, j.sectionAlign);
    Aligned(start + n, j.sectionAlign);
    DifferenceAligned(top, start, j.sectionAlign);
    Least(n, j.sectionAlign, top - start);
    Divides(j.fileAlign, j.sectionAlign);
    Multiple(j.fileAlign, j.sectionAlign, top - start);
    Least(n, j.fileAlign, top - start);
  }

  /** The pieces follow one another. */
  lemma LayoutFacts(j: Job)
    requires Sane(j)
    ensures HeadersEnd(j) <= SizeOfHeaders(j) <= j.sectionRva && |j.payload| <= RawSize(j)
    ensures j.sectionRva + RawSize(j) <= RelocVa(j) && |j.relocs| <= RelocRaw(j)
    ensures j.sectionRva + AlignUp64(|j.payload|, j.sectionAlign) <= RelocVa(j) <= SizeOfImage(j)
    ensures HasRelocs(j) ==> RelocVa(j) + AlignUp64(|j.relocs|, j.sectionAlign) <= SizeOfImage(j)
    ensures HasRelocs(j) ==> RelocVa(j) + RelocRaw(j) <= SizeOfImage(j)
    ensures RelocPointer(j) == SizeOfHeaders(j) + RawSize(j)
    ensures j.fileAlign <= j.sectionAlign < U32
  {
    OneAtLeast(j.sectionRva + |j.payload|, j.sectionAlign);
    MaskAligns(|j.payload|, j.sectionAlign);
    MaskAligns(|j.relocs|, j.sectionAlign);
    RawBelow(j.sectionRva, |j.payload|, j);
    RawBelow(RelocVa(j), |j.relocs|, j);
    Aligned(HeadersEnd(j), j.fileAlign);
    Aligned(|j.payload|, j.fileAlign);
    SumAligned(SizeOfHeaders(j), RawSize(j), j.fileAlign);
    Least(SizeOfHeaders(j) + RawSize(j), j.fileAlign, SizeOfHeaders(j) + RawSize(j));
  }

  /** r is the multiple of a at or next above v. */
  predicate NextMultiple(r: nat, v: nat, a: nat) { a > 0 && r % a == 0 && v <= r < v + a }

  /** Headers, payload, relocations and image are each rounded up to the alignment of their place, no further. */
  lemma SizesExact(j: Job)
    requires j.fileAlign > 0 && j.sectionAlign > 0
    ensures NextMultiple(SizeOfHeaders(j), 0x188 + 40 * (if |j.relocs| > 0 then 2 else 1), j.fileAlign)
    ensures NextMultiple(RawSize(j), |j.payload|, j.fileAlign) && NextMultiple(RelocRaw(j), |j.relocs|, j.fileAlign)
    ensures NextMultiple(RelocVa(j), j.sectionRva + |j.payload|, j.sectionAlign)
    ensures NextMultiple(SizeOfImage(j), if |j.relocs| > 0 then RelocVa(j) + |j.relocs| else j.sectionRva + |j.payload|,
                j.sectionAlign)
  {
    hide AlignUp;
    forall v: nat ensures AlignUp(v, j.fileAlign) % j.fileAlign == 0 { Aligned(v, j.fileAlign); }
    forall v: nat ensures AlignUp(v, j.sectionAlign) % j.sectionAlign == 0 { Aligned(v, j.sectionAlign); }
  }

  /** Every number fits the field the packer writes it to. */
  predicate Sized(j: Job) {
    && 0 < j.fileAlign < U32 && 0 < j.sectionAlign < U32 && j.imageBase < U64 && j.stamp < U32 && j.entry < U32
    && j.sectionRva < U32 && |j.payload| < U32 && |j.relocs| < U32
    && SizeOfImage(j) < U32 && SizeOfHeaders(j) < U32 && RawSize(j) < U32
    && RelocVa(j) < U32 && RelocRaw(j) < U32 && RelocPointer(j) < U32
  }

  lemma SizedFacts(j: Job)
    requires Sized(j)
    ensures HeadersEnd(j) <= SizeOfHeaders(j) && |j.payload| <= RawSize(j) && |j.relocs| <= RelocRaw(j)
    ensures RelocPointer(j) == SizeOfHeaders(j) + RawSize(j)
  {
    Aligned(HeadersEnd(j), j.fileAlign);
    Aligned(|j.payload|, j.fileAlign);
    SumAligned(SizeOfHeaders(j), RawSize(j), j.fileAlign);
    Least(SizeOfHeaders(j) + RawSize(j), j.fileAlign, SizeOfHeaders(j) + RawSize(j));
  }

  lemma SaneSized(j: Job)
    requires Sane(j)
    ensures Sized(j)
  {
    hide AlignUp, AlignUp64, SizeOfImage, RelocVa, RawSize, SizeOfHeaders, RelocPointer;
    LayoutFacts(j);
    if !HasRelocs(j) { Least(0, j.fileAlign, 0); }
  }

  lemma OneAtLeast(v: nat, a: nat)
    requires v > 0 && a > 0
    ensures AlignUp(v, a) >= a
  {
    var q := (v + a - 1) / a;
    MulMonotone(a, 1, q);
    assert a * q == q * a;
  }

  lemma SumAligned(m: nat, n: nat, a: nat)
    requires a > 0 && m % a == 0 && n % a == 0
    ensures (m + n) % a == 0
  {
    assert m + n == a * (m / a + n / a);
    DivMod(m + n, a, m / a + n / a, 0);
  }

  lemma DirectoriesAt(file: seq<byte>, pos: nat, j: Job)
    requires At(file, pos, Emit(DirectoryFields(j)))
    requires Sized(j)
    ensures pos + 128 <= |file| && Size(DirectoryFields(j)) == 128
    ensures Read(file, pos + 40, 4) == (if HasRelocs(j) then RelocVa(j) else 0) && Read(file, pos + 44, 4) == |j.relocs|
  {
    hide Read, Write, Emit, Size;
    Powers();
    var f, p := Peek(file, pos, DirectoryFields(j));
    f, p := Peek(file, p, f);
    f, p := Peek(file, p, f);
    f, p := Peek(file, p, f);
    assert Size(f) == 0 by { SizeEnd(); }
  }

  lemma SizesAt(file: seq<byte>, pos: nat, j: Job)
    requires At(file, pos, Emit(SizeFields(j)))
    requires Sized(j)
    ensures pos + 184 <= |file| && Size(SizeFields(j)) == 184
    ensures Read(file, pos, 4) == SizeOfImage(j) && Read(file, pos + 4, 4) == SizeOfHeaders(j)
    ensures Read(file, pos + 12, 2) == SubsystemOf(j.kind) && Read(file, pos + 14, 2) == DYNAMIC_BASE + NX_COMPAT
    ensures Read(file, pos + 52, 4) == DIRECTORIES
    ensures Read(file, pos + 96, 4) == (if HasRelocs(j) then RelocVa(j) else 0) &&
              Read(file, pos + 100, 4) == |j.relocs|
  {
    hide Read, Write, Emit, Size;
    Powers();
    var f, p := Peek(file, pos, SizeFields(j));
    f, p := Peek(file, p, f);
    f, p := Peek(file, p, f);
    f, p := Peek(file, p, f);
    f, p := Peek(file, p, f);
    f, p := Peek(file, p, f);
    f, p := Peek(file, p, f);
    f, p := Peek(file, p, f);
    f, p := Peek(file, p, f);
    f, p := Peek(file, p, f);
    f, p := Peek(file, p, f);
    DirectoriesAt(file, p, j);
  }

  lemma AlignsAt(file: seq<byte>, pos: nat, j: Job)
    requires At(file, pos, Emit(AlignFields(j)))
    requires Sized(j)
    ensures pos + 208 <= |file| && Size(AlignFields(j)) == 208
    ensures Read(file, pos, 4) == j.sectionAlign && Read(file, pos + 4, 4) == j.fileAlign
    ensures Read(file, pos + 24, 4) == SizeOfImage(j) && Read(file, pos + 28, 4) == SizeOfHeaders(j)
    ensures Read(file, pos + 36, 2) == SubsystemOf(j.kind) && Read(file, pos + 38, 2) == DYNAMIC_BASE + NX_COMPAT
    ensures Read(file, pos + 76, 4) == DIRECTORIES
    ensures Read(file, pos + 120, 4) == (if HasRelocs(j) then RelocVa(j) else 0) &&
              Read(file, pos + 124, 4) == |j.relocs|
  {
    hide Read, Write, Emit, Size;
    Powers();
    var f, p := Peek(file, pos, AlignFields(j));
    f, p := Peek(file, p, f);
    f, p := Peek(file, p, f);
    f, p := Peek(file, p, f);
    f, p := Peek(file, p, f);
    f, p := Peek(file, p, f);
    f, p := Peek(file, p, f);
    f, p := Peek(file, p, f);
    f, p := Peek(file, p, f);
    SizesAt(file, p, j);
  }

  lemma OptionalAt(file: seq<byte>, pos: nat, j: Job)
    requires At(file, pos, Emit(OptionalFields(j)))
    requires Sized(j)
    ensures pos + 240 <= |file| && Size(OptionalFields(j)) == 240
    ensures Read(file, pos, 2) == OPTIONAL_MAGIC && Read(file, pos + 16, 4) == j.entry &&
              Read(file, pos + 24, 8) == j.imageBase
    ensures Read(file, pos + 32, 4) == j.sectionAlign && Read(file, pos + 36, 4) == j.fileAlign
    ensures Read(file, pos + 56, 4) == SizeOfImage(j) && Read(file, pos + 60, 4) == SizeOfHeaders(j)
    ensures Read(file, pos + 68, 2) == SubsystemOf(j.kind) && Read(file, pos + 70, 2) == DYNAMIC_BASE + NX_COMPAT
    ensures Read(file, pos + 108, 4) == DIRECTORIES
    ensures Read(file, pos + 152, 4) == (if HasRelocs(j) then RelocVa(j) else 0) &&
              Read(file, pos + 156, 4) == |j.relocs|
  {
    hide Read, Write, Emit, Size;
    Powers();
    var f, p := Peek(file, pos, OptionalFields(j));
    f, p := Peek(file, p, f);
    f, p := Peek(file, p, f);
    f, p := Peek(file, p, f);
    f, p := Peek(file, p, f);
    f, p := Peek(file, p, f);
    f, p := Peek(file, p, f);
    f, p := Peek(file, p, f);
    f, p := Peek(file, p, f);
    AlignsAt(file, p, j);
  }

  /** The header a reader of the file finds. */
  function PackedHeader(j: Job): (r: Header) {
    Header(SIGNATURE, MACHINE, SectionCount(j), OPTIONAL_SIZE, OPTIONAL_MAGIC, j.entry, j.imageBase, j.sectionAlign,
           j.fileAlign, SizeOfImage(j), SizeOfHeaders(j), SubsystemOf(j.kind), DYNAMIC_BASE + NX_COMPAT, DIRECTORIES,
           if HasRelocs(j) then RelocVa(j) else 0, |j.relocs|)
  }

  lemma NtAt(file: seq<byte>, pos: nat, j: Job)
    requires At(file, pos, Emit(NtFields(j)))
    requires Sized(j)
    ensures pos + NT_SIZE <= |file| && Size(NtFields(j)) == NT_SIZE
    ensures ParseHeader(file, pos) == PackedHeader(j)
  {
    hide Read, Write, Emit, Size;
    Powers();
    var f, p := Peek(file, pos, NtFields(j));
    f, p := Peek(file, p, f);
    f, p := Peek(file, p, f);
    f, p := Peek(file, p, f);
    f, p := Peek(file, p, f);
    f, p := Peek(file, p, f);
    f, p := Peek(file, p, f);
    f, p := Peek(file, p, f);
    OptionalAt(file, p, j);
  }

  lemma SectionAt(file: seq<byte>, pos: nat, name: nat, s: Section, flags: nat)
    requires At(file, pos, Emit(SectionFields(name, s, flags)))
    requires name < U64 && s.size < U32 && s.va < U32 && s.raw < U32 && s.pointer < U32 && flags < U32
    ensures pos + SECTION_SIZE <= |file| && Size(SectionFields(name, s, flags)) == SECTION_SIZE
    ensures ParseSection(file, pos) == s
  {
    hide Read, Write, Emit, Size;
    Powers();
    var f, p := Peek(file, pos, SectionFields(name, s, flags));
    f, p := Peek(file, p, f);
    f, p := Peek(file, p, f);
    f, p := Peek(file, p, f);
    f, p := Peek(file, p, f);
    f, p := Peek(file, p, f);
    f, p := Peek(file, p, f);
    f, p := Peek(file, p, f);
    f, p := Peek(file, p, f);
    f, p := Peek(file, p, f);
    assert Size(f) == 0 by { SizeEnd(); }
  }

  lemma DosAt(file: seq<byte>, pos: nat)
    requires At(file, pos, Emit(DosFields()))
    ensures pos + PE_OFFSET <= |file| && Size(DosFields()) == PE_OFFSET
    ensures Read(file, pos, 2) == DOS_MAGIC && Read(file, pos + 60, 4) == PE_OFFSET
  {
    hide Read, Write, Emit, Size;
    Powers();
    var f, p := Peek(file, pos, DosFields());
    f, p := Peek(file, p, f);
    f, p := Peek(file, p, f);
    f, p := Peek(file, p, f);
    assert Size(f) == 0 by { SizeEnd(); }
  }

  lemma SizeEnd()
    ensures Size(End) == 0
  {
  }

  function PackedImage(j: Job): (r: Image) {
    Image(PackedHeader(j), [TextSection(j)] + (if HasRelocs(j) then [RelocSection(j)] else []))
  }

  lemma HeadersAreThere(file: seq<byte>, j: Job)
    requires Sized(j) && At(file, 0, HeaderBytes(j))
    ensures |HeaderBytes(j)| == HeadersEnd(j)
    ensures Holds(file, PackedImage(j))
  {
    hide Read, Emit, Size, ParseHeader, ParseSection;
    AtParts(file, 0, Emit(DosFields()), Emit(NtFields(j)) + TableBytes(j));
    DosAt(file, 0);
    AtParts(file, PE_OFFSET, Emit(NtFields(j)), TableBytes(j));
    NtAt(file, PE_OFFSET, j);
    TableIsThere(file, PE_OFFSET + NT_SIZE, j);
  }

  lemma TableIsThere(file: seq<byte>, at: nat, j: Job)
    requires Sized(j) && At(file, at, TableBytes(j))
    ensures |TableBytes(j)| == SECTION_SIZE * SectionCount(j)
    ensures ParseSections(file, at, SectionCount(j)) == PackedImage(j).sections
  {
    hide Read, Emit, Size, ParseSection;
    var (text, reloc) := (SectionFields(TEXT, TextSection(j), 0x6000_0020),
        SectionFields(RELOC, RelocSection(j), 0x4000_0040));
    AtParts(file, at, Emit(text), if HasRelocs(j) then Emit(reloc) else []);
    SectionAt(file, at, TEXT, TextSection(j), 0x6000_0020);
    if HasRelocs(j) {
      SectionAt(file, at + SECTION_SIZE, RELOC, RelocSection(j), 0x4000_0040);
      assert ParseSections(file, at, 1) == [TextSection(j)];
    }
  }

  lemma PackedParts(j: Job)
    requires Sized(j)
    ensures |HeaderBytes(j)| == HeadersEnd(j)
    ensures Packed(j) == PadTo(HeaderBytes(j), SizeOfHeaders(j)) + (PadTo(j.payload, RawSize(j)) +
                           (if HasRelocs(j) then PadTo(j.relocs, RelocRaw(j)) else []))
  {
    hide HeaderBytes, PadTo, AlignUp, AlignUp64, SizeOfImage, RelocVa, RelocRaw, RawSize, SizeOfHeaders, RelocPointer,
        HeadersEnd;
    SizedFacts(j);
    HeadersAreThere(HeaderBytes(j), j);
    PadParts(HeaderBytes(j), SizeOfHeaders(j));
    PadParts(j.payload, RawSize(j));
    PadParts(j.relocs, RelocRaw(j));
    var (head, text) := (PadTo(HeaderBytes(j), SizeOfHeaders(j)), PadTo(j.payload, RawSize(j)));
    PadAfter(head, j.payload, RawSize(j));
    PadParts(head + text, RelocPointer(j));
    PadAfter(head + text, j.relocs, RelocRaw(j));
  }

  lemma PadParts(s: seq<byte>, n: nat)
    requires |s| <= n
    ensures |PadTo(s, n)| == n && PadTo(s, n) == s + Zeros(n - |s|)
    ensures n == |s| ==> PadTo(s, n) == s
  {
  }

  lemma PadAfter(head: seq<byte>, s: seq<byte>, n: nat)
    requires |s| <= n
    ensures PadTo(head + s, |head| + n) == head + PadTo(s, n)
  {
  }
}
