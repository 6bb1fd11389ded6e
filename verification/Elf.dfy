/** Parsing of 64-bit little-endian AArch64 executables: the identification bytes, the program header
    table, and the bounds of every loadable segment (chapter 5 of the System V gABI). */
module Elf {
  import opened Bytes

  const HEADER_SIZE := 64
  const PHDR_SIZE := 56
  const PT_LOAD := 1
  const ET_EXEC := 2
  const EM_AARCH64 := 183

  datatype Error =
    | TooShort | BadMagic | Not64Bit | NotLittleEndian | NotAarch64 | NotExecutable | UnexpectedProgramHeaderSize
    | ProgramHeadersOutOfBounds | SegmentOutOfBounds | SegmentSmallerThanFileContent | NoLoadableSegments

  datatype Result<T, E> = Ok(value: T) | Err(error: E)

  datatype LoadSegment = LoadSegment(flags: nat, offset: nat, vaddr: nat, filesz: nat, memsz: nat) {
    predicate Executable() { flags % 2 == 1 }
    predicate Writable() { flags / 2 % 2 == 1 }
    predicate Readable() { flags / 4 % 2 == 1 }
  }

  /** A parsed image, borrowing its bytes. */
  datatype Elf64 = Elf64(bytes: seq<Byte>, entry: nat, phoff: nat, phnum: nat)

  // ----- field readers

  function ReadU16(bytes: seq<Byte>, offset: nat): (r: Option<nat>) {
    if U64_LIMIT <= offset + 2 || |bytes| < offset + 2 then None else Some(U16(bytes[offset..offset + 2]))
  }

  function ReadU32(bytes: seq<Byte>, offset: nat): (r: Option<nat>) {
    if U64_LIMIT <= offset + 4 || |bytes| < offset + 4 then None else Some(U32(bytes[offset..offset + 4]))
  }

  function ReadU64(bytes: seq<Byte>, offset: nat): (r: Option<nat>) {
    if U64_LIMIT <= offset + 8 || |bytes| < offset + 8 then None else Some(U64(bytes[offset..offset + 8]))
  }

  // ----- the program header table

  /** The segment header `i` describes, if it is a loadable one and lies inside the bytes. */
  function SegmentAt(e: Elf64, i: nat): (r: Option<LoadSegment>) {
    var base := e.phoff + i * PHDR_SIZE;
    var kind := ReadU32(e.bytes, base);
    if kind.None? || kind.value != PT_LOAD then None
    else
      var flags, offset, vaddr := ReadU32(e.bytes, base + 4), ReadU64(e.bytes, base + 8), ReadU64(e.bytes, base + 16);
      var filesz, memsz := ReadU64(e.bytes, base + 32), ReadU64(e.bytes, base + 40);
      if flags.None? || offset.None? || vaddr.None? || filesz.None? || memsz.None? then None
      else Some(LoadSegment(flags.value, offset.value, vaddr.value, filesz.value, memsz.value))
  }

  /** The segments the first `n` headers describe, in header order. */
  function SegmentsUpTo(e: Elf64, n: nat): (segs: seq<LoadSegment>) {
    if n == 0 then []
    else
      var s := SegmentAt(e, n - 1);
      SegmentsUpTo(e, n - 1) + if s.Some? then [s.value] else []
  }

  function Segments(e: Elf64): (segs: seq<LoadSegment>) {
    SegmentsUpTo(e, e.phnum)
  }

  predicate IsLoadHeader(e: Elf64, i: nat) {
    ReadU32(e.bytes, e.phoff + i * PHDR_SIZE) == Some(PT_LOAD)
  }

  /** The headers among the first `n` that say they are loadable. */
  function LoadHeaders(e: Elf64, n: nat): (indices: seq<nat>) {
    if n == 0 then [] else LoadHeaders(e, n - 1) + if IsLoadHeader(e, n - 1) then [n - 1] else []
  }

  function SegmentBytes(e: Elf64, s: LoadSegment): (content: seq<Byte>) {
    if s.offset + s.filesz <= |e.bytes| then e.bytes[s.offset..s.offset + s.filesz] else []
  }

  // ----- what parsing accepts

  function SegmentError(e: Elf64, s: LoadSegment): (r: Option<Error>) {
    if s.memsz < s.filesz then Some(SegmentSmallerThanFileContent)
    else if U64_LIMIT <= s.offset + s.filesz || |e.bytes| < s.offset + s.filesz then Some(SegmentOutOfBounds)
    else if U64_LIMIT <= s.vaddr + s.memsz then Some(SegmentOutOfBounds)
    else None
  }

  /** Segment `k` is the first one with an error, and this is it. */
  ghost predicate FirstBad(e: Elf64, k: int, error: Error) {
    && 0 <= k < |Segments(e)| && SegmentError(e, Segments(e)[k]) == Some(error)
    && forall j :: 0 <= j < k ==> SegmentError(e, Segments(e)[j]).None?
  }

  predicate TableFits(e: Elf64) {
    e.phoff + e.phnum * PHDR_SIZE < U64_LIMIT && e.phoff + e.phnum * PHDR_SIZE <= |e.bytes|
  }

  /** What every image that parses satisfies, and what makes an image parse. */
  ghost predicate Parsed(e: Elf64) {
    && HEADER_SIZE <= |e.bytes|
    && e.bytes[..4] == [0x7f, 0x45, 0x4c, 0x46] && e.bytes[4] == 2 && e.bytes[5] == 1
    && U16(e.bytes[16..18]) == ET_EXEC && U16(e.bytes[18..20]) == EM_AARCH64 && U16(e.bytes[54..56]) == PHDR_SIZE
    && e.entry == U64(e.bytes[24..32]) && e.phoff == U64(e.bytes[32..40]) && e.phnum == U16(e.bytes[56..58])
    && TableFits(e)
    && (forall s :: s in Segments(e) ==> SegmentError(e, s).None?)
    && Segments(e) != []
  }

  function HeaderOf(bytes: seq<Byte>): (e: Elf64)
    requires HEADER_SIZE <= |bytes|
  {
    Elf64(bytes, U64(bytes[24..32]), U64(bytes[32..40]), U16(bytes[56..58]))
  }

  /** The first check the fixed part of an image fails. */
  function HeaderError(bytes: seq<Byte>): (r: Option<Error>) {
    if |bytes| < HEADER_SIZE then Some(TooShort)
    else if bytes[..4] != [0x7f, 0x45, 0x4c, 0x46] then Some(BadMagic)
    else if bytes[4] != 2 then Some(Not64Bit)
    else if bytes[5] != 1 then Some(NotLittleEndian)
    else if U16(bytes[16..18]) != ET_EXEC then Some(NotExecutable)
    else if U16(bytes[18..20]) != EM_AARCH64 then Some(NotAarch64)
    else if U16(bytes[54..56]) != PHDR_SIZE then Some(UnexpectedProgramHeaderSize)
    else if !TableFits(HeaderOf(bytes)) then Some(ProgramHeadersOutOfBounds)
    else None
  }

  /** Inside a table that fits, every header can be read, so a header gives a segment exactly when it
      says it is loadable. */
  lemma HeaderReadable(e: Elf64, i: nat)
    requires TableFits(e) && i < e.phnum
    ensures SegmentAt(e, i).Some? <==> IsLoadHeader(e, i)
  {
  }

  /** The 56 bytes of a loadable program header; physical address and alignment are not read. */
  function ProgramHeader(s: LoadSegment, paddr: nat, align: nat): (bytes: seq<Byte>)
    requires s.flags < U32_LIMIT && s.offset < U64_LIMIT && s.vaddr < U64_LIMIT && s.filesz < U64_LIMIT && s.memsz < U64_LIMIT
    requires paddr < U64_LIMIT && align < U64_LIMIT
    ensures |bytes| == PHDR_SIZE
  {
    Le32(PT_LOAD) + Le32(s.flags) + Le64(s.offset) + Le64(s.vaddr) + Le64(paddr) + Le64(s.filesz) + Le64(s.memsz) + Le64(align)
  }

  /** A header in the table gives the segment it was written for. */
  lemma HeaderGivesSegment(e: Elf64, i: nat, s: LoadSegment, paddr: nat, align: nat)
    requires s.flags < U32_LIMIT && s.offset < U64_LIMIT && s.vaddr < U64_LIMIT && s.filesz < U64_LIMIT && s.memsz < U64_LIMIT
    requires paddr < U64_LIMIT && align < U64_LIMIT && TableFits(e) && i < e.phnum
    requires var base := e.phoff + i * PHDR_SIZE; base + PHDR_SIZE <= |e.bytes| && e.bytes[base..base + PHDR_SIZE] == ProgramHeader(s, paddr, align)
    ensures SegmentAt(e, i) == Some(s)
  {
    hide U32, U64, Le32, Le64;
    var base := e.phoff + i * PHDR_SIZE;
    HeaderFields(s, paddr, align);
    SliceOfSlice(e.bytes, base, PHDR_SIZE, 0, 4);
    SliceOfSlice(e.bytes, base, PHDR_SIZE, 4, 8);
    SliceOfSlice(e.bytes, base, PHDR_SIZE, 8, 16);
    SliceOfSlice(e.bytes, base, PHDR_SIZE, 16, 24);
    SliceOfSlice(e.bytes, base, PHDR_SIZE, 32, 40);
    SliceOfSlice(e.bytes, base, PHDR_SIZE, 40, 48);
  }

  lemma HeaderFields(s: LoadSegment, paddr: nat, align: nat)
    requires s.flags < U32_LIMIT && s.offset < U64_LIMIT && s.vaddr < U64_LIMIT && s.filesz < U64_LIMIT && s.memsz < U64_LIMIT
    requires paddr < U64_LIMIT && align < U64_LIMIT
    ensures var h := ProgramHeader(s, paddr, align);
      && h[0..4] == Le32(PT_LOAD) && h[4..8] == Le32(s.flags) && h[8..16] == Le64(s.offset) && h[16..24] == Le64(s.vaddr)
      && h[32..40] == Le64(s.filesz) && h[40..48] == Le64(s.memsz)
  {
    hide Le32, Le64;
  }

  /** No loadable header is skipped: the segments are those of the loadable headers, one each, in order. */
  lemma {:induction false} NoSegmentSkipped(e: Elf64, n: nat)
    requires TableFits(e) && n <= e.phnum
    ensures |SegmentsUpTo(e, n)| == |LoadHeaders(e, n)|
    ensures forall k :: 0 <= k < |LoadHeaders(e, n)| ==>
      LoadHeaders(e, n)[k] < n && SegmentAt(e, LoadHeaders(e, n)[k]) == Some(SegmentsUpTo(e, n)[k])
    ensures forall j, k :: 0 <= j < k < |LoadHeaders(e, n)| ==> LoadHeaders(e, n)[j] < LoadHeaders(e, n)[k]
    ensures forall i :: 0 <= i < n && IsLoadHeader(e, i) ==> i in LoadHeaders(e, n)
  {
    hide SegmentAt, IsLoadHeader;
    if 0 < n {
      NoSegmentSkipped(e, n - 1);
      HeaderReadable(e, n - 1);
    }
  }

  /** Parses an image: it succeeds exactly on the images that satisfy `Parsed`, and otherwise names the
      first check that fails, header checks before segment checks and segments in header order. */
  method Parse(bytes: seq<Byte>) returns (r: Result<Elf64, Error>)
    ensures r.Ok? ==> r.value.bytes == bytes && Parsed(r.value)
    ensures r.Err? ==> forall e: Elf64 :: Parsed(e) ==> e.bytes != bytes
    ensures r.Err? ==>
      || HeaderError(bytes) == Some(r.error)
      || (HeaderError(bytes).None? && r.error == NoLoadableSegments && Segments(HeaderOf(bytes)) == [])
      || (HeaderError(bytes).None? && exists k :: FirstBad(HeaderOf(bytes), k, r.error))
  {
    hide SegmentsUpTo, SegmentAt, U16, U64;
    if |bytes| < HEADER_SIZE {
      return Err(TooShort);
    }
    if bytes[..4] != [0x7f, 0x45, 0x4c, 0x46] {
      return Err(BadMagic);
    }
    if bytes[4] != 2 {
      return Err(Not64Bit);
    }
    if bytes[5] != 1 {
      return Err(NotLittleEndian);
    }
    if ReadU16(bytes, 16).value != ET_EXEC {
      return Err(NotExecutable);
    }
    if ReadU16(bytes, 18).value != EM_AARCH64 {
      return Err(NotAarch64);
    }
    if ReadU16(bytes, 54).value != PHDR_SIZE {
      return Err(UnexpectedProgramHeaderSize);
    }
    var e := Elf64(bytes, ReadU64(bytes, 24).value, ReadU64(bytes, 32).value, ReadU16(bytes, 56).value);
    assert e == HeaderOf(bytes);
    var tableEnd := e.phoff + e.phnum * PHDR_SIZE;
    if U64_LIMIT <= tableEnd || |bytes| < tableEnd {
      return Err(ProgramHeadersOutOfBounds);
    }
    var segs := Segments(e);
    var loadable := 0;
    while loadable < |segs|
      invariant 0 <= loadable <= |segs|
      invariant forall j :: 0 <= j < loadable ==> SegmentError(e, segs[j]).None?
    {
      var s := segs[loadable];
      if s.memsz < s.filesz {
        assert FirstBad(e, loadable, SegmentSmallerThanFileContent);
        return Err(SegmentSmallerThanFileContent);
      }
      var fileEnd := s.offset + s.filesz;
      if U64_LIMIT <= fileEnd || |bytes| < fileEnd {
        assert FirstBad(e, loadable, SegmentOutOfBounds);
        return Err(SegmentOutOfBounds);
      }
      if U64_LIMIT <= s.vaddr + s.memsz {
        assert FirstBad(e, loadable, SegmentOutOfBounds);
        return Err(SegmentOutOfBounds);
      }
      loadable := loadable + 1;
    }
    if loadable == 0 {
      return Err(NoLoadableSegments);
    }
    return Ok(e);
  }

  // ----- the format in numbers

  /** Fields are read little-endian, where all their bytes are there and the offset does not overflow 64 bits. */
  lemma FieldsRead(bytes: seq<Byte>, o: nat)
    ensures ReadU16(bytes, o) ==
      if o + 2 < 0x1_0000_0000_0000_0000 && o + 2 <= |bytes| then Some((bytes[o] as int) + 0x100 * (bytes[o + 1] as int)) else None
    ensures ReadU32(bytes, o).Some? <==> o + 4 < 0x1_0000_0000_0000_0000 && o + 4 <= |bytes|
    ensures ReadU32(bytes, o).Some? ==>
      ReadU32(bytes, o).value == (bytes[o] as int) + 0x100 * (bytes[o + 1] as int) + 0x1_0000 * (bytes[o + 2] as int) + 0x100_0000 * (bytes[o + 3] as int)
    ensures ReadU64(bytes, o).Some? <==> o + 8 < 0x1_0000_0000_0000_0000 && o + 8 <= |bytes|
    ensures ReadU64(bytes, o).Some? ==>
      ReadU64(bytes, o).value == (bytes[o] as int) + 0x100 * (bytes[o + 1] as int) + 0x1_0000 * (bytes[o + 2] as int)
        + 0x100_0000 * (bytes[o + 3] as int) + 0x1_0000_0000 * ((bytes[o + 4] as int) + 0x100 * (bytes[o + 5] as int)
        + 0x1_0000 * (bytes[o + 6] as int) + 0x100_0000 * (bytes[o + 7] as int))
  {
    hide U64, U32;
    if o + 4 <= |bytes| { U32Bytes(bytes[o..o + 4]); }
    if o + 8 <= |bytes| { U64Bytes(bytes[o..o + 8]); }
  }

  /** A header gives a segment exactly when its first word is 1 and the fields read of it lie inside the bytes. */
  lemma LoadableIff(e: Elf64, i: nat)
    ensures var base := e.phoff + 56 * i;
      SegmentAt(e, i).Some? <==>
        && base + 48 <= |e.bytes| && base + 48 < 0x1_0000_0000_0000_0000
        && e.bytes[base] == 1 && e.bytes[base + 1] == 0 && e.bytes[base + 2] == 0 && e.bytes[base + 3] == 0
  {
    hide U64;
    var base := e.phoff + 56 * i;
    if base + 4 <= |e.bytes| { U32Bytes(e.bytes[base..base + 4]); }
  }

  /** What an image must begin with, byte by byte. */
  lemma ParsedIff(e: Elf64)
    ensures Parsed(e) <==>
      && 64 <= |e.bytes|
      && e.bytes[0] == 0x7F && e.bytes[1] == 0x45 && e.bytes[2] == 0x4C && e.bytes[3] == 0x46 && e.bytes[4] == 2 && e.bytes[5] == 1
      && e.bytes[16] == 2 && e.bytes[17] == 0 && e.bytes[18] == 183 && e.bytes[19] == 0 && e.bytes[54] == 56 && e.bytes[55] == 0
      && e.entry == U64(e.bytes[24..32]) && e.phoff == U64(e.bytes[32..40]) && e.phnum == (e.bytes[56] as int) + 0x100 * (e.bytes[57] as int)
      && e.phoff + 56 * e.phnum < 0x1_0000_0000_0000_0000 && e.phoff + 56 * e.phnum <= |e.bytes|
      && Segments(e) != []
      && forall s :: s in Segments(e) ==>
           && s.filesz <= s.memsz && s.vaddr + s.memsz < 0x1_0000_0000_0000_0000
           && s.offset + s.filesz < 0x1_0000_0000_0000_0000 && s.offset + s.filesz <= |e.bytes|
  {
    hide U64, Segments;
    if 64 <= |e.bytes| {
      assert e.bytes[..4] == [e.bytes[0], e.bytes[1], e.bytes[2], e.bytes[3]];
      assert e.bytes[16..18] == [e.bytes[16], e.bytes[17]] && e.bytes[18..20] == [e.bytes[18], e.bytes[19]];
      assert e.bytes[54..56] == [e.bytes[54], e.bytes[55]] && e.bytes[56..58] == [e.bytes[56], e.bytes[57]];
    }
  }
}
