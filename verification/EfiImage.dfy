/**
 The PE32+ writer for the boot stub (boot/efi_builder.py).
 Offsets and field widths follow the optional header of the Microsoft PE format.
 */
module EfiImage {
  import opened Wrappers

  type byte = n: nat | n < 256

  type Bytes = seq<byte>

  /* ---------- little-endian fields ---------- */

  datatype Field = Field(width: nat, value: nat)

  function Pow256(n: nat): (p: nat)
    ensures p >= 1
  {
    if n == 0 then 1 else 256 * Pow256(n - 1)
  }

  predicate Fits(f: Field) {
    f.value < Pow256(f.width)
  }

  function LittleEndian(value: nat, width: nat): (bytes: Bytes)
    ensures |bytes| == width
  {
    if width == 0 then [] else [value % 256] + LittleEndian(value / 256, width - 1)
  }

  function Number(bytes: Bytes): nat {
    if bytes == [] then 0 else bytes[0] + 256 * Number(bytes[1..])
  }

  lemma {:induction false} NumberOfLittleEndian(value: nat, width: nat)
    requires value < Pow256(width)
    ensures Number(LittleEndian(value, width)) == value
    decreases width
  {
    if width > 0 {
      NumberOfLittleEndian(value / 256, width - 1);
      assert LittleEndian(value, width)[1..] == LittleEndian(value / 256, width - 1);
    }
  }

  function Read(img: Bytes, offset: nat, width: nat): nat
    requires offset + width <= |img|
  {
    Number(img[offset..offset + width])
  }

  lemma {:induction false} ReadInside(before: Bytes, part: Bytes, after: Bytes, offset: nat, width: nat)
    requires offset + width <= |part|
    ensures Read(before + part + after, |before| + offset, width) == Read(part, offset, width)
  {
    assert (before + part + after)[|before| + offset..|before| + offset + width] == part[offset..offset + width];
  }

  function Packed(fields: seq<Field>): Bytes {
    if fields == [] then []
    else
      var last := fields[|fields| - 1];
      Packed(fields[..|fields| - 1]) + LittleEndian(last.value, last.width)
  }

  function Offset(fields: seq<Field>, k: nat): nat
    requires k <= |fields|
  {
    if k == 0 then 0 else Offset(fields, k - 1) + fields[k - 1].width
  }

  lemma {:induction false} OffsetInFront(fields: seq<Field>, n: nat, k: nat)
    requires k <= n <= |fields|
    ensures Offset(fields[..n], k) == Offset(fields, k)
    decreases k
  {
    if k > 0 {
      OffsetInFront(fields, n, k - 1);
    }
  }

  lemma {:induction false} PackedLength(fields: seq<Field>)
    ensures |Packed(fields)| == Offset(fields, |fields|)
    decreases fields
  {
    if fields != [] {
      PackedLength(fields[..|fields| - 1]);
      OffsetInFront(fields, |fields| - 1, |fields| - 1);
    }
  }

  lemma {:induction false} OffsetsGrow(fields: seq<Field>, k: nat, n: nat)
    requires k <= n <= |fields|
    ensures Offset(fields, k) <= Offset(fields, n)
    decreases n
  {
    if k < n {
      OffsetsGrow(fields, k, n - 1);
    }
  }

  /** Reading a packed field at its offset gives its value. */
  lemma {:induction false} FieldReads(fields: seq<Field>, k: nat)
    requires k < |fields| && Fits(fields[k])
    ensures Offset(fields, k) + fields[k].width <= |Packed(fields)|
    ensures Read(Packed(fields), Offset(fields, k), fields[k].width) == fields[k].value
    decreases fields
  {
    var n := |fields| - 1;
    var front, last := fields[..n], LittleEndian(fields[n].value, fields[n].width);
    PackedLength(front);
    PackedLength(fields);
    OffsetInFront(fields, n, n);
    OffsetInFront(fields, n, k);
    if k < n {
      FieldReads(front, k);
      ReadInside([], Packed(front), last, Offset(fields, k), fields[k].width);
      assert [] + Packed(front) + last == Packed(fields);
    } else {
      NumberOfLittleEndian(fields[n].value, fields[n].width);
      assert Packed(fields)[Offset(fields, n)..Offset(fields, n) + fields[n].width] == last;
    }
  }

  /* ---------- the headers ---------- */

  const FILE_ALIGNMENT := 0x200
  const SECTION_ALIGNMENT := 0x1000
  const IMAGE_BASE := 0x0040_0000
  const ENTRY_RVA := 0x1000
  const MACHINE_AMD64 := 0x8664
  const SUBSYSTEM_EFI_APP := 0x000A
  const IMAGE_FILE_FLAGS := 0x0202
  const PE32_PLUS := 0x020B
  const SECTION_FLAGS := 0x6000_0020
  const DOS_MAGIC := 0x5A4D
  const PE_SIGNATURE := 0x4550
  const TEXT_NAME := 0x74_7865_742E
  const OPTIONAL_SIZE := 240

  function DosFields(): seq<Field> {
    [ Field(2, DOS_MAGIC), Field(2, 0x90), Field(2, 3), Field(2, 0), Field(2, 4), Field(2, 0), Field(2, 0xFFFF),
      Field(2, 0), Field(2, 0xB8), Field(2, 0), Field(2, 0), Field(2, 0), Field(2, 0x40), Field(2, 0), Field(8, 0),
      Field(2, 0), Field(2, 0), Field(20, 0), Field(4, 64), Field(4, PE_SIGNATURE) ]
  }

  function CoffFields(): seq<Field> {
    [ Field(2, MACHINE_AMD64), Field(2, 1), Field(4, 0), Field(4, 0), Field(4, 0), Field(2, OPTIONAL_SIZE),
      Field(2, IMAGE_FILE_FLAGS) ]
  }

  function StandardFields(codeSize: nat): seq<Field> {
    [ Field(2, PE32_PLUS), Field(1, 0), Field(1, 0), Field(4, codeSize), Field(4, 0), Field(4, 0),
      Field(4, ENTRY_RVA), Field(4, ENTRY_RVA) ]
  }

  function WindowsFields(imageSize: nat, headersSize: nat): seq<Field> {
    [ Field(8, IMAGE_BASE), Field(4, SECTION_ALIGNMENT), Field(4, FILE_ALIGNMENT), Field(2, 0), Field(2, 0),
      Field(2, 0), Field(2, 0), Field(2, 0), Field(2, 0), Field(4, 0), Field(4, imageSize), Field(4, headersSize),
      Field(4, 0), Field(2, SUBSYSTEM_EFI_APP), Field(2, 0), Field(8, 0), Field(8, 0), Field(8, 0), Field(8, 0),
      Field(4, 0), Field(4, 16) ]
  }

  function SectionFields(textSize: nat, rawSize: nat, pointer: nat): seq<Field> {
    [ Field(8, TEXT_NAME), Field(4, textSize), Field(4, ENTRY_RVA), Field(4, rawSize), Field(4, pointer), Field(4, 0),
      Field(4, 0), Field(2, 0), Field(2, 0), Field(4, SECTION_FLAGS) ]
  }

  lemma {:induction false} DosOffsets()
    ensures var f := DosFields(); Offset(f, 18) == 60 && Offset(f, 19) == 64 && Offset(f, 20) == 68
  {
    var f := DosFields();
    assert Offset(f, 2) == 4 && Offset(f, 4) == 8 && Offset(f, 6) == 12 && Offset(f, 8) == 16;
    assert Offset(f, 10) == 20 && Offset(f, 12) == 24 && Offset(f, 14) == 28 && Offset(f, 16) == 38;
  }

  lemma {:induction false} CoffOffsets()
    ensures var f := CoffFields(); Offset(f, 1) == 2 && Offset(f, 5) == 16 && Offset(f, 6) == 18 && Offset(f, 7) == 20
  {
    var f := CoffFields();
    assert Offset(f, 1) == 2 && Offset(f, 3) == 8;
  }

  lemma {:induction false} StandardOffsets(codeSize: nat)
    ensures var f := StandardFields(codeSize);
      Offset(f, 3) == 4 && Offset(f, 6) == 16 && Offset(f, 7) == 20 && Offset(f, 8) == 24
  {
    var f := StandardFields(codeSize);
    assert Offset(f, 1) == 2 && Offset(f, 3) == 4 && Offset(f, 5) == 12;
  }

  lemma {:induction false} WindowsOffsets(imageSize: nat, headersSize: nat)
    ensures var f := WindowsFields(imageSize, headersSize);
      && Offset(f, 1) == 8 && Offset(f, 2) == 12 && Offset(f, 10) == 32 && Offset(f, 11) == 36 && Offset(f, 13) == 44
      && Offset(f, 20) == 84 && Offset(f, 21) == 88
  {
    var f := WindowsFields(imageSize, headersSize);
    assert Offset(f, 2) == 12 && Offset(f, 4) == 18 && Offset(f, 6) == 22 && Offset(f, 8) == 26;
    assert Offset(f, 10) == 32 && Offset(f, 12) == 40 && Offset(f, 14) == 46 && Offset(f, 16) == 56;
    assert Offset(f, 18) == 72;
  }

  lemma {:induction false} SectionOffsets(textSize: nat, rawSize: nat, pointer: nat)
    ensures var f := SectionFields(textSize, rawSize, pointer);
      && Offset(f, 1) == 8 && Offset(f, 2) == 12 && Offset(f, 3) == 16 && Offset(f, 4) == 20
      && Offset(f, 9) == 36 && Offset(f, 10) == 40
  {
    var f := SectionFields(textSize, rawSize, pointer);
    assert Offset(f, 2) == 12 && Offset(f, 4) == 20 && Offset(f, 6) == 28 && Offset(f, 8) == 34;
  }

  /* ---------- reading the headers ---------- */

  datatype Coff = Coff(machine: nat, sections: nat, optionalSize: nat, flags: nat)

  datatype Standard = Standard(magic: nat, codeSize: nat, entry: nat, codeBase: nat)

  datatype Windows = Windows(imageBase: nat, sectionAlignment: nat, fileAlignment: nat, imageSize: nat,
                             headersSize: nat, subsystem: nat, directories: nat)

  datatype Section = Section(name: nat, virtualSize: nat, virtualAddress: nat, rawSize: nat, rawPointer: nat,
                             flags: nat)

  function CoffAt(img: Bytes, at: nat): Coff
    requires at + 20 <= |img|
  {
    Coff(Read(img, at, 2), Read(img, at + 2, 2), Read(img, at + 16, 2), Read(img, at + 18, 2))
  }

  function StandardAt(img: Bytes, at: nat): Standard
    requires at + 24 <= |img|
  {
    Standard(Read(img, at, 2), Read(img, at + 4, 4), Read(img, at + 16, 4), Read(img, at + 20, 4))
  }

  function WindowsAt(img: Bytes, at: nat): Windows
    requires at + 88 <= |img|
  {
    Windows(Read(img, at, 8), Read(img, at + 8, 4), Read(img, at + 12, 4), Read(img, at + 32, 4),
            Read(img, at + 36, 4), Read(img, at + 44, 2), Read(img, at + 84, 4))
  }

  function SectionAt(img: Bytes, at: nat): Section
    requires at + 40 <= |img|
  {
    Section(Read(img, at, 8), Read(img, at + 8, 4), Read(img, at + 12, 4), Read(img, at + 16, 4),
            Read(img, at + 20, 4), Read(img, at + 36, 4))
  }

  predicate Has(img: Bytes, at: nat, part: Bytes) {
    at + |part| <= |img| && img[at..at + |part|] == part
  }

  lemma {:induction false} ReadPart(img: Bytes, at: nat, part: Bytes, offset: nat, width: nat)
    requires Has(img, at, part) && offset + width <= |part|
    ensures Read(img, at + offset, width) == Read(part, offset, width)
  {
    assert img == img[..at] + part + img[at + |part|..];
    ReadInside(img[..at], part, img[at + |part|..], offset, width);
  }

  lemma {:induction false} FieldOf(img: Bytes, at: nat, fields: seq<Field>, k: nat, offset: nat)
    requires Has(img, at, Packed(fields)) && k < |fields| && Fits(fields[k]) && Offset(fields, k) == offset
    ensures at + offset + fields[k].width <= |img| && Read(img, at + offset, fields[k].width) == fields[k].value
  {
    FieldReads(fields, k);
    ReadPart(img, at, Packed(fields), offset, fields[k].width);
  }

  lemma {:induction false} CoffIsRead(img: Bytes, at: nat)
    requires Has(img, at, Packed(CoffFields()))
    ensures at + 20 <= |img| && CoffAt(img, at) == Coff(MACHINE_AMD64, 1, OPTIONAL_SIZE, IMAGE_FILE_FLAGS)
  {
    var f := CoffFields();
    PackedLength(f);
    CoffOffsets();
    FieldOf(img, at, f, 0, 0);
    FieldOf(img, at, f, 1, 2);
    FieldOf(img, at, f, 5, 16);
    FieldOf(img, at, f, 6, 18);
  }

  lemma {:induction false} StandardIsRead(img: Bytes, at: nat, codeSize: nat)
    requires Has(img, at, Packed(StandardFields(codeSize))) && codeSize < 0x1_0000_0000
    ensures at + 24 <= |img| && StandardAt(img, at) == Standard(PE32_PLUS, codeSize, ENTRY_RVA, ENTRY_RVA)
  {
    var f := StandardFields(codeSize);
    PackedLength(f);
    StandardOffsets(codeSize);
    FieldOf(img, at, f, 0, 0);
    FieldOf(img, at, f, 3, 4);
    FieldOf(img, at, f, 6, 16);
    FieldOf(img, at, f, 7, 20);
  }

  lemma {:induction false} WindowsIsRead(img: Bytes, at: nat, imageSize: nat, headersSize: nat)
    requires Has(img, at, Packed(WindowsFields(imageSize, headersSize)))
    requires imageSize < 0x1_0000_0000 && headersSize < 0x1_0000_0000
    ensures at + 88 <= |img| && WindowsAt(img, at) ==
      Windows(IMAGE_BASE, SECTION_ALIGNMENT, FILE_ALIGNMENT, imageSize, headersSize, SUBSYSTEM_EFI_APP, 16)
  {
    var f := WindowsFields(imageSize, headersSize);
    PackedLength(f);
    WindowsOffsets(imageSize, headersSize);
    WindowsSizesAreRead(img, at, imageSize, headersSize);
    FieldOf(img, at, f, 0, 0);
    FieldOf(img, at, f, 1, 8);
    FieldOf(img, at, f, 2, 12);
    FieldOf(img, at, f, 20, 84);
  }

  lemma {:induction false} WindowsSizesAreRead(img: Bytes, at: nat, imageSize: nat, headersSize: nat)
    requires Has(img, at, Packed(WindowsFields(imageSize, headersSize)))
    requires imageSize < 0x1_0000_0000 && headersSize < 0x1_0000_0000
    ensures at + 46 <= |img| && Read(img, at + 32, 4) == imageSize && Read(img, at + 36, 4) == headersSize
    ensures Read(img, at + 44, 2) == SUBSYSTEM_EFI_APP
  {
    var f := WindowsFields(imageSize, headersSize);
    WindowsOffsets(imageSize, headersSize);
    FieldOf(img, at, f, 10, 32);
    FieldOf(img, at, f, 11, 36);
    FieldOf(img, at, f, 13, 44);
  }

  lemma {:induction false} SectionIsRead(img: Bytes, at: nat, textSize: nat, rawSize: nat, pointer: nat)
    requires Has(img, at, Packed(SectionFields(textSize, rawSize, pointer)))
    requires textSize < 0x1_0000_0000 && rawSize < 0x1_0000_0000 && pointer < 0x1_0000_0000
    ensures at + 40 <= |img|
    ensures SectionAt(img, at) == Section(TEXT_NAME, textSize, ENTRY_RVA, rawSize, pointer, SECTION_FLAGS)
  {
    var f := SectionFields(textSize, rawSize, pointer);
    PackedLength(f);
    SectionOffsets(textSize, rawSize, pointer);
    FieldOf(img, at, f, 0, 0);
    FieldOf(img, at, f, 1, 8);
    FieldOf(img, at, f, 2, 12);
    FieldOf(img, at, f, 3, 16);
    FieldOf(img, at, f, 4, 20);
    FieldOf(img, at, f, 9, 36);
  }

  lemma {:induction false} DosIsRead(img: Bytes)
    requires Has(img, 0, Packed(DosFields()))
    ensures |img| >= 68
    ensures Read(img, 0, 2) == DOS_MAGIC && Read(img, 60, 4) == 64 && Read(img, 64, 4) == PE_SIGNATURE
  {
    DosSize();
    DosOffsets();
    DosFieldIsRead(img, 0, 0);
    DosFieldIsRead(img, 18, 60);
    DosFieldIsRead(img, 19, 64);
  }

  lemma {:induction false} DosSize()
    ensures |Packed(DosFields())| == 68
  {
    PackedLength(DosFields());
    DosOffsets();
  }

  lemma {:induction false} DosFieldIsRead(img: Bytes, k: nat, offset: nat)
    requires Has(img, 0, Packed(DosFields()))
    requires k in {0, 18, 19} && offset == Offset(DosFields(), k)
    ensures offset + DosFields()[k].width <= |img| && Read(img, offset, DosFields()[k].width) == DosFields()[k].value
  {
    FieldOf(img, 0, DosFields(), k, offset);
  }

  /* ---------- the image ---------- */

  /** For the powers of two it is called with, clearing the low bits after adding them rounds up. */
  function Align(value: nat, alignment: nat): nat
    requires alignment > 0
  {
    (value + alignment - 1) / alignment * alignment
  }

  /** The sizes are the least multiples that hold what they are to hold. */
  lemma {:induction false} SizesAreLeast(text: Bytes)
    ensures |text| <= RawSize(text) < |text| + FILE_ALIGNMENT && RawSize(text) % FILE_ALIGNMENT == 0
    ensures var end := ENTRY_RVA + RawSize(text);
      end <= ImageSize(text) < end + SECTION_ALIGNMENT && ImageSize(text) % SECTION_ALIGNMENT == 0
    ensures Align(64 + 4 + 20 + OPTIONAL_SIZE + 40, FILE_ALIGNMENT) == HEADERS_SIZE
  {
  }

  function RawSize(text: Bytes): nat {
    Align(|text|, FILE_ALIGNMENT)
  }

  function ImageSize(text: Bytes): nat {
    Align(ENTRY_RVA + RawSize(text), SECTION_ALIGNMENT)
  }

  const HEADERS_SIZE := 512

  function Zeros(n: nat): (zeros: Bytes)
    ensures |zeros| == n
  {
    seq(n, _ => 0)
  }

  predicate Fits32(text: Bytes) {
    ImageSize(text) < 0x1_0000_0000
  }

  predicate HasFront(img: Bytes, text: Bytes) {
    && Has(img, 0, Packed(DosFields()))
    && Has(img, 68, Packed(CoffFields()))
    && Has(img, 88, Packed(StandardFields(RawSize(text))))
    && Has(img, 112, Packed(WindowsFields(ImageSize(text), HEADERS_SIZE)))
  }

  predicate HasHeaders(img: Bytes, text: Bytes) {
    && HasFront(img, text)
    && Has(img, 200, Zeros(128))
    && Has(img, 328, Packed(SectionFields(|text|, RawSize(text), HEADERS_SIZE)))
    && Has(img, 368, Zeros(HEADERS_SIZE - 368))
  }

  /** The parts of a written image and where they stand; they leave no gap. */
  predicate IsImage(img: Bytes, text: Bytes) {
    && |img| == HEADERS_SIZE + RawSize(text) && |text| <= RawSize(text)
    && HasHeaders(img, text)
    && Has(img, HEADERS_SIZE, text)
    && Has(img, HEADERS_SIZE + |text|, Zeros(RawSize(text) - |text|))
  }

  /** Appends a part, which stands where the image ended. */
  method Append(img: Bytes, part: Bytes) returns (longer: Bytes)
    ensures longer == img + part && Has(longer, |img|, part)
  {
    longer := img + part;
  }

  lemma {:induction false} PartLengths(codeSize: nat, imageSize: nat, textSize: nat)
    ensures |Packed(DosFields())| == 68 && |Packed(CoffFields())| == 20
    ensures |Packed(StandardFields(codeSize))| == 24 && |Packed(WindowsFields(imageSize, HEADERS_SIZE))| == 88
    ensures |Packed(SectionFields(textSize, codeSize, HEADERS_SIZE))| == 40
  {
    DosOffsets();
    CoffOffsets();
    StandardOffsets(codeSize);
    WindowsOffsets(imageSize, HEADERS_SIZE);
    SectionOffsets(textSize, codeSize, HEADERS_SIZE);
    PackedLength(DosFields());
    PackedLength(CoffFields());
    PackedLength(StandardFields(codeSize));
    PackedLength(WindowsFields(imageSize, HEADERS_SIZE));
    PackedLength(SectionFields(textSize, codeSize, HEADERS_SIZE));
  }

  lemma {:induction false} FourParts(a: Bytes, b: Bytes, c: Bytes, d: Bytes)
    ensures var img := a + b + c + d;
      Has(img, 0, a) && Has(img, |a|, b) && Has(img, |a| + |b|, c) && Has(img, |a| + |b| + |c|, d)
  {
  }

  method BuildFront(text: Bytes) returns (out: Bytes)
    ensures |out| == 200 && HasFront(out, text)
  {
    PartLengths(RawSize(text), ImageSize(text), |text|);
    var dos, coff := Packed(DosFields()), Packed(CoffFields());
    var standard := Packed(StandardFields(RawSize(text)));
    var windows := Packed(WindowsFields(ImageSize(text), HEADERS_SIZE));
    out := dos;
    out := Append(out, coff);
    out := Append(out, standard);
    out := Append(out, windows);
    FourParts(dos, coff, standard, windows);
  }

  method BuildHeaders(text: Bytes) returns (out: Bytes)
    ensures |out| == HEADERS_SIZE && HasHeaders(out, text)
  {
    PartLengths(RawSize(text), ImageSize(text), |text|);
    var section := Packed(SectionFields(|text|, RawSize(text), HEADERS_SIZE));
    var front := BuildFront(text);
    out := Append(front, Zeros(128));
    out := Append(out, section);
    out := Append(out, Zeros(HEADERS_SIZE - 368));
  }

  lemma {:induction false} StillThere(img: Bytes, more: Bytes, at: nat, part: Bytes)
    requires Has(img, at, part)
    ensures Has(img + more, at, part)
  {
    assert (img + more)[at..at + |part|] == img[at..at + |part|];
  }

  lemma {:induction false} HeadersStay(headers: Bytes, more: Bytes, text: Bytes)
    requires HasHeaders(headers, text)
    ensures HasHeaders(headers + more, text)
  {
    StillThere(headers, more, 0, Packed(DosFields()));
    StillThere(headers, more, 68, Packed(CoffFields()));
    StillThere(headers, more, 88, Packed(StandardFields(RawSize(text))));
    StillThere(headers, more, 112, Packed(WindowsFields(ImageSize(text), HEADERS_SIZE)));
    StillThere(headers, more, 200, Zeros(128));
    StillThere(headers, more, 328, Packed(SectionFields(|text|, RawSize(text), HEADERS_SIZE)));
    StillThere(headers, more, 368, Zeros(HEADERS_SIZE - 368));
  }

  lemma {:induction false} TextFollows(headers: Bytes, text: Bytes)
    requires |headers| == HEADERS_SIZE && HasHeaders(headers, text) && |text| <= RawSize(text)
    ensures IsImage(headers + text + Zeros(RawSize(text) - |text|), text)
  {
    var tail := Zeros(RawSize(text) - |text|);
    assert Has(headers + text, HEADERS_SIZE, text);
    StillThere(headers + text, tail, HEADERS_SIZE, text);
    assert Has(headers + text + tail, HEADERS_SIZE + |text|, tail);
    HeadersStay(headers, text, text);
    HeadersStay(headers + text, tail, text);
  }

  /** Packing fails for sizes beyond 32 bits, and only for those. */
  method Build(text: Bytes) returns (img: Option<Bytes>)
    ensures img.Some? <==> Fits32(text)
    ensures img.Some? ==> IsImage(img.value, text)
  {
    if !Fits32(text) {
      return None;
    }
    SizesAreLeast(text);
    var out := BuildHeaders(text);
    TextFollows(out, text);
    out := out + text;
    out := out + Zeros(RawSize(text) - |text|);
    img := Some(out);
  }

  /* ---------- loading the image ---------- */

  /** The header checks made on a written file; reading beyond its end fails them. */
  predicate Verified(img: Bytes) {
    && |img| >= 64 && Read(img, 0, 2) == DOS_MAGIC
    && var pe := Read(img, 60, 4);
       && pe + 24 + 70 <= |img|
       && Read(img, pe, 4) == PE_SIGNATURE && Read(img, pe + 4, 2) == MACHINE_AMD64
       && Read(img, pe + 24, 2) == PE32_PLUS && Read(img, pe + 24 + 68, 2) == SUBSYSTEM_EFI_APP
  }

  datatype Loaded = Loaded(coff: Coff, standard: Standard, windows: Windows, text: Section)

  /** How a loader finds the headers: through e_lfanew and the size of the optional header. */
  function Load(img: Bytes): Option<Loaded> {
    if !Verified(img) then None
    else
      var pe := Read(img, 60, 4);
      var coff := CoffAt(img, pe + 4);
      var table := pe + 24 + coff.optionalSize;
      if pe + 24 + 112 > |img| || table + 40 > |img| then None
      else Some(Loaded(coff, StandardAt(img, pe + 24), WindowsAt(img, pe + 48), SectionAt(img, table)))
  }

  lemma {:induction false} ImageIsVerified(img: Bytes, text: Bytes)
    requires IsImage(img, text) && Fits32(text)
    ensures Verified(img)
  {
    DosIsRead(img);
    CoffIsRead(img, 68);
    SizesAreLeast(text);
    StandardIsRead(img, 88, RawSize(text));
    WindowsIsRead(img, 112, ImageSize(text), HEADERS_SIZE);
  }

  /**
   What is written loads: every header field a loader uses comes back, the text stands unchanged where
   the section points, behind the headers, and the image ends with the section.
   */
  lemma {:induction false} ImageLoads(img: Bytes, text: Bytes)
    requires IsImage(img, text) && Fits32(text)
    ensures var loaded := Load(img);
      && loaded.Some?
      && var l := loaded.value;
         && l.coff == Coff(0x8664, 1, 240, 0x0202)
         && l.standard == Standard(0x020B, RawSize(text), 0x1000, 0x1000)
         && l.windows == Windows(0x0040_0000, 0x1000, 0x200, ImageSize(text), 512, 0x000A, 16)
         && l.text == Section(TEXT_NAME, |text|, 0x1000, RawSize(text), 512, 0x6000_0020)
         && l.text.rawPointer + l.text.rawSize == |img| && l.windows.headersSize <= l.text.rawPointer
         && l.text.virtualAddress + l.text.virtualSize <= l.windows.imageSize
         && l.text.virtualSize <= l.text.rawSize
         && img[l.text.rawPointer..l.text.rawPointer + l.text.virtualSize] == text
  {
    ImageIsVerified(img, text);
    DosIsRead(img);
    CoffIsRead(img, 68);
    SizesAreLeast(text);
    StandardIsRead(img, 88, RawSize(text));
    WindowsIsRead(img, 112, ImageSize(text), HEADERS_SIZE);
    SectionIsRead(img, 328, |text|, RawSize(text), HEADERS_SIZE);
  }

  /* ---------- the boot stub ---------- */

  const LEA: Bytes := [0x48, 0x8D, 0x15]

  /** A 32-bit signed number in two's complement. */
  function Signed(offset: int): Bytes
    requires -0x8000_0000 <= offset < 0x8000_0000
  {
    LittleEndian(if offset < 0 then offset + 0x1_0000_0000 else offset, 4)
  }

  const PROLOGUE: Bytes := [
    0x55, 0x48, 0x89, 0xE5, 0x41, 0x57, 0x41, 0x56, 0x41, 0x55, 0x41, 0x54, 0x53,
    0x49, 0x89, 0xCC, 0x49, 0x89, 0xD5, 0x4C, 0x8B, 0x72, 0x40, 0x4C, 0x8B, 0x7E, 0x08
  ]

  const EPILOGUE: Bytes := [
    0x4C, 0x89, 0xF1, 0x41, 0xFF, 0xD7, 0x48, 0x31, 0xC0,
    0x5B, 0x41, 0x5C, 0x41, 0x5D, 0x41, 0x5E, 0x41, 0x5F, 0x5D, 0xC3
  ]

  function StubCode(offset: int): (code: Bytes)
    requires -0x8000_0000 <= offset < 0x8000_0000
    ensures |code| == 54
  {
    PROLOGUE + LEA + Signed(offset) + EPILOGUE
  }

  ghost predicate IsFirstMatch(data: Bytes, pattern: Bytes, k: nat) {
    Has(data, k, pattern) && forall j: nat | j < k :: !Has(data, j, pattern)
  }

  method FindFirst(data: Bytes, pattern: Bytes) returns (k: int)
    ensures k >= 0 ==> IsFirstMatch(data, pattern, k)
    ensures k < 0 ==> k == -1 && forall j: nat :: !Has(data, j, pattern)
  {
    k := 0;
    while k + |pattern| <= |data|
      invariant k >= 0 && forall j: nat | j < k :: !Has(data, j, pattern)
    {
      if data[k..k + |pattern|] == pattern {
        return;
      }
      k := k + 1;
    }
    return -1;
  }

  lemma {:induction false} NoLeaBefore(offset: int, k: nat)
    requires -0x8000_0000 <= offset < 0x8000_0000 && k < |PROLOGUE|
    ensures !Has(StubCode(offset), k, LEA)
  {
    var code := StubCode(offset);
    assert code[k] == PROLOGUE[k] && (k + 1 < |PROLOGUE| ==> code[k + 1] == PROLOGUE[k + 1]);
    assert code[k..k + 3][0] == code[k] && code[k..k + 3][1] == code[k + 1];
    assert PROLOGUE[k] == 0x48 ==> k == 1;
  }

  lemma {:induction false} LeaIsAt(offset: int, k: nat)
    requires -0x8000_0000 <= offset < 0x8000_0000
    requires IsFirstMatch(StubCode(offset), LEA, k)
    ensures k == |PROLOGUE|
  {
    assert Has(StubCode(offset), |PROLOGUE|, LEA);
    if k < |PROLOGUE| {
      NoLeaBefore(offset, k);
    }
  }

  /** Executed at an address, the LEA puts the address behind it plus its displacement into a register. */
  function LeaTarget(text: Bytes, base: nat, at: nat): int
    requires at + 7 <= |text|
  {
    var displacement := Read(text, at + 3, 4);
    base + at + 7 + (if displacement < 0x8000_0000 then displacement else displacement - 0x1_0000_0000)
  }

  lemma {:induction false} DisplacementIsRead(offset: nat, message: Bytes)
    requires offset < 0x8000_0000
    ensures Read(StubCode(offset) + message, |PROLOGUE| + 3, 4) == offset
    ensures Has(StubCode(offset) + message, 54, message)
  {
    NumberOfLittleEndian(offset, 4);
    var text := StubCode(offset) + message;
    assert text == PROLOGUE + LEA + Signed(offset) + (EPILOGUE + message);
    assert text[|PROLOGUE| + 3..|PROLOGUE| + 7] == Signed(offset);
    assert text[54..54 + |message|] == message;
  }

  /** Measures the code with a dummy offset, then rebuilds it with the one that reaches the message. */
  method ComputeStub(message: Bytes) returns (text: Bytes, ghost at: nat)
    ensures |text| == 54 + |message| && Has(text, at, LEA) && at + 7 <= 54
    ensures forall base: nat :: LeaTarget(text, base, at) == base + 54
    ensures Has(text, 54, message)
  {
    var dummy := StubCode(0);
    var lea := FindFirst(dummy, LEA);
    assert Has(dummy, |PROLOGUE|, LEA);
    LeaIsAt(0, lea);
    var offset := |dummy| - (lea + 7);
    text := StubCode(offset) + message;
    at := lea;
    DisplacementIsRead(offset, message);
    assert Has(StubCode(offset), |PROLOGUE|, LEA);
  }

  /** Loaded at the section's address, the stub's code has a LEA whose target is where the message stands. */
  ghost predicate Addresses(text: Bytes, message: Bytes) {
    exists at: nat :: at + 7 <= 54 <= |text| && Has(text, at, LEA) && LeaTarget(text, ENTRY_RVA, at) >= ENTRY_RVA
      && Has(text, LeaTarget(text, ENTRY_RVA, at) - ENTRY_RVA, message)
  }

  /**
   A message gets a file exactly if the section that holds it and the 54 bytes of code leaves the image size within
   32 bits; the file passes the header check, and its code addresses the message.
   */
  method BuildBootFile(message: Bytes) returns (img: Option<Bytes>)
    ensures img.Some? <==>
      Align(ENTRY_RVA + Align(54 + |message|, FILE_ALIGNMENT), SECTION_ALIGNMENT) < 0x1_0000_0000
    ensures img.Some? ==> Verified(img.value) && exists text ::
      IsImage(img.value, text) && |text| == 54 + |message| && Addresses(text, message)
  {
    var text, at := ComputeStub(message);
    img := Build(text);
    if img.Some? {
      ImageIsVerified(img.value, text);
      assert LeaTarget(text, ENTRY_RVA, at) == ENTRY_RVA + 54;
      assert Addresses(text, message);
    }
  }
}
