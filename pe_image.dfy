/** Resolution of the searchable range of a loaded module: the first section
    whose name starts with ".text", read from the PE/COFF headers of the image
    mapped at the module's base. Every header field is little-endian. A read
    that falls outside the image yields `None`. */
module PeImage {
  import opened Wrappers

  /** "MZ", the MS-DOS header magic at offset 0. */
  const DosSignature: nat := 0x5A4D
  /** Offset of `e_lfanew` (a signed 32-bit file offset of the NT headers) in the MS-DOS header. */
  const LfanewOffset: nat := 0x3C
  /** "PE\0\0", the signature at the start of the NT headers. */
  const NtSignature: nat := 0x4550
  /** Offsets inside the NT headers: the COFF file header follows the 4-byte signature. */
  const NumberOfSectionsOffset: nat := 6
  const SizeOfOptionalHeaderOffset: nat := 20
  const OptionalHeaderOffset: nat := 24
  /** `SizeOfImage` sits 56 bytes into the optional header, for PE32 and PE32+ alike. */
  const SizeOfImageOffset: nat := 80
  /** A section header is 40 bytes: Name[8], VirtualSize, VirtualAddress, SizeOfRawData, ... */
  const SectionHeaderSize: nat := 40
  const VirtualSizeOffset: nat := 8
  const VirtualAddressOffset: nat := 12
  const SizeOfRawDataOffset: nat := 16
  /** The five name bytes compared: '.', 't', 'e', 'x', 't' (no terminator). */
  const TextName: seq<bv8> := [0x2E, 0x74, 0x65, 0x78, 0x74]

  /** A searchable range: an absolute start address and a length in bytes. */
  datatype Range = Range(base: nat, size: nat)

  // ----------------------------------------------------------------------
  // Little-endian field reads

  /** The little-endian 16-bit value at `off`: first byte least significant. */
  function LE16(image: seq<bv8>, off: nat): (v: nat)
    requires off + 2 <= |image|
    ensures v < 0x1_0000
    ensures v % 0x100 == image[off] as nat && v / 0x100 == image[off + 1] as nat
  {
    image[off] as nat + 0x100 * image[off + 1] as nat
  }

  /** The little-endian 32-bit value at `off`: the low half first. */
  function LE32(image: seq<bv8>, off: nat): (v: nat)
    requires off + 4 <= |image|
    ensures v < 0x1_0000_0000
    ensures v % 0x1_0000 == LE16(image, off) && v / 0x1_0000 == LE16(image, off + 2)
  {
    LE16(image, off) + 0x1_0000 * LE16(image, off + 2)
  }

  /** An unsigned 16-bit field, if it lies inside the image. */
  function U16(image: seq<bv8>, off: int): (v: Option<nat>)
    ensures v.Some? <==> 0 <= off && off + 2 <= |image|
  {
    if 0 <= off && off + 2 <= |image| then Some(LE16(image, off)) else None
  }

  /** An unsigned 32-bit field, if it lies inside the image. */
  function U32(image: seq<bv8>, off: int): (v: Option<nat>)
    ensures v.Some? <==> 0 <= off && off + 4 <= |image|
  {
    if 0 <= off && off + 4 <= |image| then Some(LE32(image, off)) else None
  }

  // ----------------------------------------------------------------------
  // Headers

  /** The offset of the NT headers, when both signatures check out: "MZ" at
      offset 0, an `e_lfanew` that is non-negative as a signed 32-bit value,
      and "PE\0\0" at that offset. */
  function NtOffset(image: seq<bv8>): (nt: Option<nat>)
    ensures nt.Some? <==>
      && U16(image, 0) == Some(DosSignature)
      && U32(image, LfanewOffset).Some? && U32(image, LfanewOffset).value < 0x8000_0000
      && U32(image, U32(image, LfanewOffset).value) == Some(NtSignature)
    ensures nt.Some? ==> U32(image, LfanewOffset) == Some(nt.value)
  {
    var magic :- U16(image, 0);
    if magic != DosSignature then None
    else
      var lfanew :- U32(image, LfanewOffset);
      if lfanew >= 0x8000_0000 then None
      else
        var signature :- U32(image, lfanew);
        if signature != NtSignature then None else Some(lfanew)
  }

  /** Offset of section header `k` in a table starting at `first`. */
  function HeaderAt(first: nat, k: nat): nat {
    first + SectionHeaderSize * k
  }

  /** The name bytes the comparison reads lie in the image. */
  predicate NameInBounds(image: seq<bv8>, first: nat, k: nat) {
    HeaderAt(first, k) + |TextName| <= |image|
  }

  /** The name field starts with the five bytes ".text" (so ".textbss" qualifies too). */
  predicate IsTextName(name: seq<bv8>) {
    |name| >= |TextName| && name[..|TextName|] == TextName
  }

  /** Section header `k` is named ".text": only its first five name bytes
      are compared, so nothing past them is read. */
  predicate IsTextSection(image: seq<bv8>, first: nat, k: nat)
    requires NameInBounds(image, first, k)
  {
    IsTextName(image[HeaderAt(first, k)..])
  }

  /** Where a ".text" section lies, relative to the image base, and how long it is. */
  datatype SectionInfo = SectionInfo(virtualAddress: nat, size: nat)

  /** The fields read from a ".text" header: `VirtualAddress`, and
      `VirtualSize`, or `SizeOfRawData` when that is 0. `None` when a field
      read falls outside the image: `SizeOfRawData` is read only when
      `VirtualSize` is 0. */
  function SectionFields(image: seq<bv8>, first: nat, k: nat): (f: Option<SectionInfo>)
    ensures var h := HeaderAt(first, k);
      f.Some? <==>
        (h + SizeOfRawDataOffset <= |image|
         && (LE32(image, h + VirtualSizeOffset) != 0 || h + SizeOfRawDataOffset + 4 <= |image|))
    ensures var h := HeaderAt(first, k);
      f.Some? ==>
        && f.value.virtualAddress == LE32(image, h + VirtualAddressOffset)
        && (LE32(image, h + VirtualSizeOffset) != 0 ==> f.value.size == LE32(image, h + VirtualSizeOffset))
        && (LE32(image, h + VirtualSizeOffset) == 0 ==> f.value.size == LE32(image, h + SizeOfRawDataOffset))
  {
    var h := HeaderAt(first, k);
    if h + SizeOfRawDataOffset > |image| then None
    else
      var virtualAddress := LE32(image, h + VirtualAddressOffset);
      var virtualSize := LE32(image, h + VirtualSizeOffset);
      if virtualSize != 0 then Some(SectionInfo(virtualAddress, virtualSize))
      else if h + SizeOfRawDataOffset + 4 > |image| then None
      else Some(SectionInfo(virtualAddress, LE32(image, h + SizeOfRawDataOffset)))
  }

  // ----------------------------------------------------------------------
  // The section walk

  /** Outcome of walking the section table: the first ".text" section, none
      among the `count` headers, or a header whose bytes the walk needs lie
      outside the image. */
  datatype SectionSearch =
    | Found(index: nat, virtualAddress: nat, size: nat)
    | NotFound
    | Truncated(index: nat)

  /** The names of sections `from` .. `to - 1` all lie in the image and none is ".text". */
  predicate NoTextBetween(image: seq<bv8>, first: nat, from: nat, to: nat) {
    forall k :: from <= k < to ==> NameInBounds(image, first, k) && !IsTextSection(image, first, k)
  }

  /** The walk over headers `i` .. `count - 1`. */
  function FindTextSection(image: seq<bv8>, first: nat, i: nat, count: nat): (r: SectionSearch)
    decreases count - i
    ensures r.Found? ==>
      && i <= r.index < count && NameInBounds(image, first, r.index)
      && IsTextSection(image, first, r.index)
      && SectionFields(image, first, r.index) == Some(SectionInfo(r.virtualAddress, r.size))
      && NoTextBetween(image, first, i, r.index)
    ensures r.NotFound? ==> NoTextBetween(image, first, i, count)
    ensures r.Truncated? ==>
      && i <= r.index < count
      && (!NameInBounds(image, first, r.index)
          || (IsTextSection(image, first, r.index) && SectionFields(image, first, r.index).None?))
      && NoTextBetween(image, first, i, r.index)
  {
    if i >= count then NotFound
    else if !NameInBounds(image, first, i) then Truncated(i)
    else if IsTextSection(image, first, i) then
      match SectionFields(image, first, i)
      case None => Truncated(i)
      case Some(info) => Found(i, info.virtualAddress, info.size)
    else FindTextSection(image, first, i + 1, count)
  }

  /** `get_text_range`: `None` where the source returns false. The range of
      the first ".text" section, or the whole image (`SizeOfImage` bytes from
      the base) when no section is named so. */
  function TextRange(image: seq<bv8>, base: nat): (r: Option<Range>)
    ensures r.Some? ==> base != 0 && NtOffset(image).Some?
  {
    if base == 0 || NtOffset(image).None? then None
    else SectionRange(image, base, NtOffset(image).value)
  }

  /** The range once the NT headers are found at `nt`: the section table
      starts right after the optional header. */
  function SectionRange(image: seq<bv8>, base: nat, nt: nat): (r: Option<Range>)
    ensures r.Some? ==>
      && U16(image, nt + NumberOfSectionsOffset).Some?
      && U16(image, nt + SizeOfOptionalHeaderOffset).Some?
      && base <= r.value.base
  {
    var count := U16(image, nt + NumberOfSectionsOffset);
    var optionalSize := U16(image, nt + SizeOfOptionalHeaderOffset);
    if count.None? || optionalSize.None? then None
    else RangeOf(image, base, nt, FindTextSection(image, FirstSectionOffset(nt, optionalSize.value), 0, count.value))
  }

  /** The range a finished section walk gives. */
  function RangeOf(image: seq<bv8>, base: nat, nt: nat, search: SectionSearch): (r: Option<Range>)
    ensures search.Found? ==> r == Some(Range(base + search.virtualAddress, search.size))
    ensures search.NotFound? ==> r.Some? == U32(image, nt + SizeOfImageOffset).Some?
    ensures search.NotFound? && r.Some? ==> r.value == Range(base, U32(image, nt + SizeOfImageOffset).value)
    ensures search.Truncated? ==> r.None?
  {
    match search
    case Found(_, va, size) => Some(Range(base + va, size))
    case NotFound =>
      var imageSize :- U32(image, nt + SizeOfImageOffset);
      Some(Range(base, imageSize))
    case Truncated(_) => None
  }

  /** Offset of the first section header: right after the optional header. */
  function FirstSectionOffset(nt: nat, optionalSize: nat): nat {
    nt + OptionalHeaderOffset + optionalSize
  }

  /** The walk stops at the first ".text" header when the names before it
      lie in the image and its own fields do too. */
  lemma FindsFirstText(image: seq<bv8>, first: nat, count: nat, k: nat)
    requires k < count && NameInBounds(image, first, k) && IsTextSection(image, first, k)
    requires SectionFields(image, first, k).Some?
    requires NoTextBetween(image, first, 0, k)
    ensures var info := SectionFields(image, first, k).value;
      FindTextSection(image, first, 0, count) == Found(k, info.virtualAddress, info.size)
  {
  }

  /** The walk reports no ".text" section when every header lies in the image and none is named so. */
  lemma FindsNoText(image: seq<bv8>, first: nat, count: nat)
    requires NoTextBetween(image, first, 0, count)
    ensures FindTextSection(image, first, 0, count) == NotFound
  {
  }

  /** With valid headers, the range is decided by the section walk alone. */
  lemma TextRangeWalk(image: seq<bv8>, base: nat, nt: nat, count: nat, optionalSize: nat)
    requires base != 0 && NtOffset(image) == Some(nt)
    requires U16(image, nt + NumberOfSectionsOffset) == Some(count)
    requires U16(image, nt + SizeOfOptionalHeaderOffset) == Some(optionalSize)
    ensures TextRange(image, base)
      == RangeOf(image, base, nt, FindTextSection(image, FirstSectionOffset(nt, optionalSize), 0, count))
  {
    assert TextRange(image, base) == SectionRange(image, base, nt);
  }

  /** With valid signatures, the range is that of the first section whose name
      starts with ".text", sized by `VirtualSize` or else `SizeOfRawData`
      (see `SectionFields`). */
  lemma {:induction false} TextRangeTakesFirstText(image: seq<bv8>, base: nat, nt: nat, count: nat, optionalSize: nat, k: nat)
    requires base != 0 && NtOffset(image) == Some(nt)
    requires U16(image, nt + NumberOfSectionsOffset) == Some(count)
    requires U16(image, nt + SizeOfOptionalHeaderOffset) == Some(optionalSize)
    requires k < count
    requires NoTextBetween(image, FirstSectionOffset(nt, optionalSize), 0, k)
    requires NameInBounds(image, FirstSectionOffset(nt, optionalSize), k)
    requires IsTextSection(image, FirstSectionOffset(nt, optionalSize), k)
    requires SectionFields(image, FirstSectionOffset(nt, optionalSize), k).Some?
    ensures var info := SectionFields(image, FirstSectionOffset(nt, optionalSize), k).value;
      TextRange(image, base) == Some(Range(base + info.virtualAddress, info.size))
  {
    TextRangeWalk(image, base, nt, count, optionalSize);
    FindsFirstText(image, FirstSectionOffset(nt, optionalSize), count, k);
  }

  /** With valid signatures and a section table that lies in the image and
      names no ".text" section, the range is the whole image. */
  lemma {:induction false} TextRangeFallsBackToImage(image: seq<bv8>, base: nat, nt: nat, count: nat, optionalSize: nat, imageSize: nat)
    requires base != 0 && NtOffset(image) == Some(nt)
    requires U16(image, nt + NumberOfSectionsOffset) == Some(count)
    requires U16(image, nt + SizeOfOptionalHeaderOffset) == Some(optionalSize)
    requires NoTextBetween(image, FirstSectionOffset(nt, optionalSize), 0, count)
    requires U32(image, nt + SizeOfImageOffset) == Some(imageSize)
    ensures TextRange(image, base) == Some(Range(base, imageSize))
  {
    TextRangeWalk(image, base, nt, count, optionalSize);
    FindsNoText(image, FirstSectionOffset(nt, optionalSize), count);
  }

  /** The name comparison is a 5-byte prefix test: ".textbss" counts as ".text",
      ".data" does not. */
  lemma TextNameIsPrefix()
    ensures IsTextName([0x2E, 0x74, 0x65, 0x78, 0x74, 0x62, 0x73, 0x73])
    ensures IsTextName([0x2E, 0x74, 0x65, 0x78, 0x74, 0x00, 0x00, 0x00])
    ensures !IsTextName([0x2E, 0x64, 0x61, 0x74, 0x61, 0x00, 0x00, 0x00])
  {
    var bss: seq<bv8> := [0x2E, 0x74, 0x65, 0x78, 0x74, 0x62, 0x73, 0x73];
    assert bss[..5] == TextName;
    var text: seq<bv8> := [0x2E, 0x74, 0x65, 0x78, 0x74, 0x00, 0x00, 0x00];
    assert text[..5] == TextName;
    var data: seq<bv8> := [0x2E, 0x64, 0x61, 0x74, 0x61, 0x00, 0x00, 0x00];
    assert data[..5][1] != TextName[1];
  }

  // ----------------------------------------------------------------------
  // The imperative resolver

  /** The section loop of `get_text_range`: headers `0 .. count - 1` in
      order, stopping at the first ".text" name. */
  method WalkSectionTable(image: seq<bv8>, first: nat, count: nat) returns (search: SectionSearch)
    ensures search == FindTextSection(image, first, 0, count)
  {
    var i := 0;
    while i < count
      invariant i <= count
      invariant FindTextSection(image, first, i, count) == FindTextSection(image, first, 0, count)
    {
      if !NameInBounds(image, first, i) {
        return Truncated(i);
      }
      if IsTextSection(image, first, i) {
        var info := SectionFields(image, first, i);
        if info.None? {
          return Truncated(i);
        }
        return Found(i, info.value.virtualAddress, info.value.size);
      }
      i := i + 1;
    }
    return NotFound;
  }

  /** The signature checks of `get_text_range`: "MZ", a non-negative
      `e_lfanew`, then "PE\0\0" at that offset. */
  method ReadNtOffset(image: seq<bv8>) returns (nt: Option<nat>)
    ensures nt == NtOffset(image)
  {
    var magic := U16(image, 0);
    if magic != Some(DosSignature) {
      return None;
    }
    var lfanew := U32(image, LfanewOffset);
    if lfanew.None? || lfanew.value >= 0x8000_0000 {
      return None;
    }
    var signature := U32(image, lfanew.value);
    if signature != Some(NtSignature) {
      return None;
    }
    return Some(lfanew.value);
  }

  /** `get_text_range`: checks the two signatures, walks the section table
      and writes the range through `out` when it returns true. */
  method GetTextRange(image: seq<bv8>, base: nat) returns (ok: bool, out: Range)
    ensures ok == TextRange(image, base).Some?
    ensures ok ==> out == TextRange(image, base).value
  {
    ok, out := false, Range(0, 0);
    if base == 0 {
      return;
    }
    var ntOffset := ReadNtOffset(image);
    if ntOffset.None? {
      return;
    }
    var nt := ntOffset.value;
    var count := U16(image, nt + NumberOfSectionsOffset);
    var optionalSize := U16(image, nt + SizeOfOptionalHeaderOffset);
    if count.None? || optionalSize.None? {
      assert TextRange(image, base) == SectionRange(image, base, nt);
      return;
    }
    TextRangeWalk(image, base, nt, count.value, optionalSize.value);
    var search := WalkSectionTable(image, FirstSectionOffset(nt, optionalSize.value), count.value);
    assert TextRange(image, base) == RangeOf(image, base, nt, search);
    if search.Found? {
      ok, out := true, Range(base + search.virtualAddress, search.size);
    } else if search.NotFound? {
      var imageSize := U32(image, nt + SizeOfImageOffset);
      if imageSize.Some? {
        ok, out := true, Range(base, imageSize.value);
      }
    }
  }
}
