/** Loading a parsed image into an address space: which pages each segment maps, with what
    permissions, and what every byte of them holds. */
module Loader {
  import opened Bytes
  import opened Elf

  const PAGE := 4096
  const PRIVATE_REGION_BASE := 0x8000_0000
  const PRIVATE_REGION_END := 0xC000_0000
  const AP_EL0_RW := 0x40
  const AP_EL0_RO := 0xC0
  const PXN := 0x20_0000_0000_0000
  const UXN := 0x40_0000_0000_0000

  const STACK_TOP := PRIVATE_REGION_END
  const STACK_SIZE := 4 * PAGE
  const STACK_BASE := STACK_TOP - STACK_SIZE
  const STACK_GUARD_SIZE := 16 * PAGE
  const SEGMENT_WINDOW_BASE := PRIVATE_REGION_BASE
  const SEGMENT_WINDOW_END := STACK_BASE - STACK_GUARD_SIZE

  datatype LoaderError =
    | SegmentNotReadable
    | SegmentWritableAndExecutable
    | SegmentOutsideWindow(vaddr: nat, end: nat)
    | OverlappingSegments(page: nat)
    | EntryPointNotExecutable(entry: nat)
    | MapFailed(va: nat)

  datatype LoadedImage = LoadedImage(entry: nat, stackTop: nat, stackBase: nat, segmentPages: nat, stackPages: nat)

  function AlignDown(va: nat): (r: nat)
    ensures r <= va < r + PAGE && r % PAGE == 0
  {
    va - va % PAGE
  }

  // ----- permissions

  predicate El0Writable(permissions: nat) {
    permissions / 0x40 % 4 == 1
  }

  predicate El0Executable(permissions: nat) {
    permissions / UXN % 2 == 0
  }

  predicate El1Executable(permissions: nat) {
    permissions / PXN % 2 == 0
  }

  /** The descriptor bits of a segment's pages: EL0 can write and execute them exactly as the segment
      asks, never both, and EL1 never executes them. */
  function PagePermissions(flags: nat): (r: Result<nat, LoaderError>)
    ensures r.Ok? <==> flags / 4 % 2 == 1 && !(flags / 2 % 2 == 1 && flags % 2 == 1)
    ensures r.Ok? ==>
      && (El0Writable(r.value) <==> flags / 2 % 2 == 1) && (El0Executable(r.value) <==> flags % 2 == 1)
      && !El1Executable(r.value) && !(El0Writable(r.value) && El0Executable(r.value))
  {
    var readable, writable, executable := flags / 4 % 2 == 1, flags / 2 % 2 == 1, flags % 2 == 1;
    if !readable then Err(SegmentNotReadable)
    else if writable && executable then Err(SegmentWritableAndExecutable)
    else if writable then Ok(AP_EL0_RW + UXN + PXN)
    else if executable then Ok(AP_EL0_RO + PXN)
    else Ok(AP_EL0_RO + UXN + PXN)
  }

  // ----- the address space

  /** A mapped page: its bytes, its permissions, and how often it has been mapped. */
  datatype Page = Page(bytes: seq<Byte>, permissions: nat, times: nat)

  datatype Memory = Memory(pages: map<nat, Page>) {
    function Times(va: nat): (n: nat) {
      if va in pages then pages[va].times else 0
    }
  }

  datatype Frame = Frame(page: array<Byte>, permissions: nat, times: nat)

  /** Maps private pages. A page it hands out may hold anything, and it may refuse some pages. */
  class AddressSpace {
    var frames: map<nat, Frame>
    const refused: nat -> bool
    const leftover: (nat, nat) -> Byte

    ghost predicate Valid()
      reads this
    {
      && (forall va :: va in frames ==> frames[va].page.Length == PAGE)
      && (forall va, vb :: va in frames && vb in frames && va != vb ==> frames[va].page != frames[vb].page)
    }

    /** What every mapped page holds and may be used for. */
    ghost function Contents(): (m: Memory)
      reads this, set va | va in frames :: frames[va].page
    {
      Memory(map va | va in frames :: va := Page(frames[va].page[..], frames[va].permissions, frames[va].times))
    }

    lemma ContentsAt()
      ensures Contents().pages.Keys == frames.Keys
      ensures forall va :: va in frames ==> Contents().pages[va] == Page(frames[va].page[..], frames[va].permissions, frames[va].times)
    {
    }

    method MapPage(va: nat, bits: nat) returns (r: Result<array<Byte>, LoaderError>)
      requires Valid()
      modifies this`frames
      ensures Valid()
      ensures r.Err? <==> refused(va)
      ensures r.Err? ==> r.error == MapFailed(va) && frames == old(frames)
      ensures r.Ok? ==>
        && fresh(r.value) && r.value.Length == PAGE
        && frames == old(frames)[va := Frame(r.value, bits, 1 + if va in old(frames) then old(frames)[va].times else 0)]
    {
      if refused(va) {
        return Err(MapFailed(va));
      }
      var page := new Byte[PAGE](i requires 0 <= i < PAGE => leftover(va, i));
      frames := frames[va := Frame(page, bits, 1 + if va in frames then frames[va].times else 0)];
      return Ok(page);
    }
  }

  // ----- what a segment puts where

  /** The byte of `content`, placed at `vaddr`, that falls on address `a`; zero outside it. */
  function ByteAt(content: seq<Byte>, vaddr: nat, a: nat): (b: Byte) {
    if vaddr <= a < vaddr + |content| then content[a - vaddr] else 0
  }

  predicate PageOf(s: LoadSegment, va: nat) {
    0 < s.memsz && va % PAGE == 0 && AlignDown(s.vaddr) <= va <= AlignDown(s.vaddr + s.memsz - 1)
  }

  /** What a page at `va` holds of `content` placed at `vaddr`: zero where there is none of it. */
  function PageBytes(content: seq<Byte>, vaddr: nat, va: nat): (bytes: seq<Byte>)
    ensures |bytes| == PAGE && forall i :: 0 <= i < PAGE ==> bytes[i] == ByteAt(content, vaddr, va + i)
  {
    seq<Byte>(PAGE, i requires 0 <= i < PAGE => ByteAt(content, vaddr, va + i))
  }

  /** Zeroes a page and copies into it the bytes of `content` that fall on it. */
  method FillPage(page: array<Byte>, content: seq<Byte>, vaddr: nat, va: nat)
    requires page.Length == PAGE
    modifies page
    ensures page[..] == PageBytes(content, vaddr, va)
  {
    forall i | 0 <= i < PAGE {
      page[i] := 0;
    }
    var copyStart := Max(va, vaddr);
    var copyEnd := Min(va + PAGE, vaddr + |content|);
    if copyStart < copyEnd {
      var into, from, len := copyStart - va, copyStart - vaddr, copyEnd - copyStart;
      forall i | 0 <= i < len {
        page[into + i] := content[from + i];
      }
      assert forall i :: into <= i < into + len ==> page[i] == content[from + (i - into)];
    }
    assert forall i :: 0 <= i < PAGE ==> page[i] == ByteAt(content, vaddr, va + i);
  }

  /** Memory with one more page mapped. */
  function Mapped(m: Memory, va: nat, bytes: seq<Byte>, bits: nat): (r: Memory) {
    Memory(m.pages[va := Page(bytes, bits, m.Times(va) + 1)])
  }

  /** Maps one page, whatever it held, and fills it; every other page keeps its bytes and permissions. */
  method MapFilled(space: AddressSpace, va: nat, content: seq<Byte>, vaddr: nat, bits: nat) returns (error: Option<LoaderError>)
    requires space.Valid()
    modifies space`frames
    ensures space.Valid()
    ensures error == if space.refused(va) then Some(MapFailed(va)) else None
    ensures error.Some? ==> space.Contents() == old(space.Contents())
    ensures error.None? ==>
      space.Contents() == Mapped(old(space.Contents()), va, PageBytes(content, vaddr, va), bits)
  {
    hide PageBytes, Mapped, AddressSpace.Contents;
    ghost var before, m := space.frames, space.Contents();
    space.ContentsAt();
    var page := space.MapPage(va, bits);
    if page.Err? {
      return Some(page.error);
    }
    FillPage(page.value, content, vaddr, va);
    space.ContentsAt();
    OnePageMore(m, space.Contents(), va, PageBytes(content, vaddr, va), bits);
    return None;
  }

  lemma OnePageMore(m: Memory, m': Memory, va: nat, bytes: seq<Byte>, bits: nat)
    requires m'.pages.Keys == m.pages.Keys + {va} && m'.pages[va] == Page(bytes, bits, m.Times(va) + 1)
    requires forall q :: q in m.pages && q != va ==> m'.pages[q] == m.pages[q]
    ensures m' == Mapped(m, va, bytes, bits)
  {
    assert m'.pages == Mapped(m, va, bytes, bits).pages;
  }

  // ----- what loading accepts

  ghost predicate SegmentOk(s: LoadSegment) {
    0 < s.memsz ==>
      && s.Readable() && !(s.Writable() && s.Executable())
      && SEGMENT_WINDOW_BASE <= s.vaddr && s.vaddr + s.memsz <= SEGMENT_WINDOW_END
  }

  ghost predicate SharePage(s: LoadSegment, t: LoadSegment) {
    exists va: nat :: PageOf(s, va) && PageOf(t, va)
  }

  ghost predicate EntryIn(s: LoadSegment, entry: nat) {
    0 < s.memsz && s.Executable() && s.vaddr <= entry < s.vaddr + s.memsz
  }

  /** The images that can be loaded: every non-empty segment is readable, not both writable and
      executable, and inside the window; no two share a page; and the entry lies in an executable one. */
  ghost predicate Acceptable(segs: seq<LoadSegment>, entry: nat) {
    && (forall i :: 0 <= i < |segs| ==> SegmentOk(segs[i]))
    && (forall i, j :: 0 <= i < j < |segs| ==> !SharePage(segs[i], segs[j]))
    && (exists i :: 0 <= i < |segs| && EntryIn(segs[i], entry))
  }

  predicate StackPage(va: nat) {
    va % PAGE == 0 && STACK_BASE <= va < STACK_TOP
  }

  /** A page some of the first `n` segments occupy. */
  ghost predicate Occupied(segs: seq<LoadSegment>, n: nat, va: nat)
    requires n <= |segs|
  {
    exists i :: 0 <= i < n && PageOf(segs[i], va)
  }

  /** An error that is returned is true of the image or of the address space. */
  ghost predicate ErrorTrue(segs: seq<LoadSegment>, entry: nat, space: AddressSpace, error: LoaderError) {
    match error
    case SegmentNotReadable => exists s :: s in segs && 0 < s.memsz && !s.Readable()
    case SegmentWritableAndExecutable => exists s :: s in segs && 0 < s.memsz && s.Writable() && s.Executable()
    case SegmentOutsideWindow(vaddr, end) =>
      && (vaddr < SEGMENT_WINDOW_BASE || SEGMENT_WINDOW_END < end)
      && exists s :: s in segs && 0 < s.memsz && s.vaddr == vaddr && end == Min(s.vaddr + s.memsz, U64_LIMIT - 1)
    case OverlappingSegments(page) => exists i, j :: 0 <= i < j < |segs| && PageOf(segs[i], page) && PageOf(segs[j], page)
    case EntryPointNotExecutable(at) => at == entry && forall s :: s in segs ==> !EntryIn(s, entry)
    case MapFailed(va) => space.refused(va) && (StackPage(va) || exists s :: s in segs && PageOf(s, va))
  }

  // ----- loading one segment

  /** Memory `m` is `before` with the pages of `s` below `upTo` mapped and filled. */
  ghost predicate Filled(before: Memory, m: Memory, s: LoadSegment, content: seq<Byte>, bits: nat, upTo: nat) {
    && (forall va: nat :: PageOf(s, va) && va < upTo ==>
          va in m.pages && m.pages[va] == Page(PageBytes(content, s.vaddr, va), bits, before.Times(va) + 1))
    && (forall va: nat :: !(PageOf(s, va) && va < upTo) ==> SamePage(before, m, va))
  }

  ghost predicate SamePage(before: Memory, m: Memory, va: nat) {
    (va in m.pages <==> va in before.pages) && (va in m.pages ==> m.pages[va] == before.pages[va])
  }

  lemma PageSteps(s: LoadSegment, va: nat)
    requires 0 < s.memsz && va % PAGE == 0 && AlignDown(s.vaddr) <= va
    ensures PageOf(s, va) <==> va <= AlignDown(s.vaddr + s.memsz - 1)
    ensures (va + PAGE) % PAGE == 0
    ensures forall q: nat :: PageOf(s, q) && q < va + PAGE ==> q <= va
  {
  }

  lemma PagesEnd(s: LoadSegment, va: nat)
    requires 0 < s.memsz && AlignDown(s.vaddr + s.memsz - 1) < va
    ensures forall q: nat :: PageOf(s, q) ==> q < va && q < s.vaddr + s.memsz
  {
  }

  lemma FilledNext(before: Memory, m: Memory, s: LoadSegment, content: seq<Byte>, bits: nat, va: nat)
    requires Filled(before, m, s, content, bits, va)
    requires PageOf(s, va) && forall q: nat :: PageOf(s, q) && q < va + PAGE ==> q <= va
    ensures Filled(before, Mapped(m, va, PageBytes(content, s.vaddr, va), bits), s, content, bits, va + PAGE)
  {
    hide PageOf, PageBytes;
  }

  lemma FilledNone(m: Memory, s: LoadSegment, content: seq<Byte>, bits: nat)
    ensures Filled(m, m, s, content, bits, AlignDown(s.vaddr))
  {
    hide PageBytes;
  }

  lemma FilledAll(before: Memory, m: Memory, s: LoadSegment, content: seq<Byte>, bits: nat, va: nat)
    requires Filled(before, m, s, content, bits, va) && 0 < s.memsz && AlignDown(s.vaddr + s.memsz - 1) < va
    ensures Filled(before, m, s, content, bits, s.vaddr + s.memsz)
  {
    hide PageBytes;
    PagesEnd(s, va);
  }

  /** Maps and fills the pages of a segment. It stops at a page already `mapped` or refused. */
  method LoadPages(space: AddressSpace, s: LoadSegment, content: seq<Byte>, bits: nat, mapped: set<nat>)
    returns (error: Option<LoaderError>, mapped': set<nat>)
    requires space.Valid() && 0 < s.memsz
    modifies space`frames
    ensures space.Valid()
    ensures error.None? ==>
      && Filled(old(space.Contents()), space.Contents(), s, content, bits, s.vaddr + s.memsz)
      && (forall va: nat :: va in mapped' <==> va in mapped || PageOf(s, va))
      && (forall va: nat :: PageOf(s, va) ==> va !in mapped && !space.refused(va))
    ensures error.Some? ==>
      || (error.value.OverlappingSegments? && PageOf(s, error.value.page) && error.value.page in mapped)
      || (error.value.MapFailed? && PageOf(s, error.value.va) && space.refused(error.value.va))
  {
    hide PageOf, AlignDown, Filled, PageBytes, AddressSpace.Valid, AddressSpace.Contents;
    FirstPage(s);
    FilledNone(space.Contents(), s, content, bits);
    var last := AlignDown(s.vaddr + s.memsz - 1);
    var va := AlignDown(s.vaddr);
    mapped' := mapped;
    while va <= last
      invariant va % PAGE == 0 && AlignDown(s.vaddr) <= va <= last + PAGE && space.Valid()
      invariant Filled(old(space.Contents()), space.Contents(), s, content, bits, va)
      invariant forall q: nat :: PageOf(s, q) && q < va ==> q !in mapped && !space.refused(q)
      invariant forall q: nat :: q in mapped' <==> q in mapped || (PageOf(s, q) && q < va)
    {
      PageSteps(s, va);
      if va in mapped' {
        return Some(OverlappingSegments(va)), mapped';
      }
      mapped' := mapped' + {va};
      FilledNext(old(space.Contents()), space.Contents(), s, content, bits, va);
      error := MapFilled(space, va, content, s.vaddr, bits);
      if error.Some? {
        return error, mapped';
      }
      va := va + PAGE;
    }
    PagesEnd(s, va);
    FilledAll(old(space.Contents()), space.Contents(), s, content, bits, va);
    return None, mapped';
  }

  lemma FirstPage(s: LoadSegment)
    requires 0 < s.memsz
    ensures AlignDown(s.vaddr) <= AlignDown(s.vaddr + s.memsz - 1)
    ensures forall q: nat :: PageOf(s, q) ==> AlignDown(s.vaddr) <= q
  {
    var a, b := AlignDown(s.vaddr), AlignDown(s.vaddr + s.memsz - 1);
    assert (b - a) % PAGE == 0 && -PAGE < b - a;
  }

  // ----- loading an image

  /** The page at `va` as segment `s` leaves it. */
  function SegmentPage(e: Elf64, s: LoadSegment, va: nat, times: nat): (p: Page) {
    var bits := PagePermissions(s.flags);
    Page(PageBytes(SegmentBytes(e, s), s.vaddr, va), if bits.Ok? then bits.value else 0, times)
  }

  /** Memory `m` is `before` with the pages of the first `n` segments mapped and filled. */
  ghost predicate LoadedUpTo(e: Elf64, segs: seq<LoadSegment>, n: nat, before: Memory, m: Memory)
    requires n <= |segs|
  {
    && (forall i, va: nat :: 0 <= i < n && PageOf(segs[i], va) ==> va in m.pages && m.pages[va] == SegmentPage(e, segs[i], va, before.Times(va) + 1))
    && (forall va: nat :: !Occupied(segs, n, va) ==> SamePage(before, m, va))
  }

  /** Nothing is wrong with the first `n` segments. */
  ghost predicate GoodUpTo(segs: seq<LoadSegment>, n: nat, space: AddressSpace)
    requires n <= |segs|
  {
    && (forall i :: 0 <= i < n ==> SegmentOk(segs[i]))
    && (forall i, j :: 0 <= i < j < n ==> !SharePage(segs[i], segs[j]))
    && (forall va: nat :: Occupied(segs, n, va) ==> !space.refused(va))
  }

  lemma LoadedNext(e: Elf64, segs: seq<LoadSegment>, n: nat, before: Memory, m: Memory, m': Memory)
    requires n < |segs| && LoadedUpTo(e, segs, n, before, m) && PagePermissions(segs[n].flags).Ok?
    requires Filled(m, m', segs[n], SegmentBytes(e, segs[n]), PagePermissions(segs[n].flags).value, segs[n].vaddr + segs[n].memsz)
    requires 0 < segs[n].memsz && forall va: nat :: PageOf(segs[n], va) ==> !Occupied(segs, n, va)
    ensures LoadedUpTo(e, segs, n + 1, before, m')
  {
    hide PageOf, PageBytes, SegmentBytes, PagePermissions;
    PagesInSegment(segs[n]);
    forall i, va: nat | 0 <= i < n + 1 && PageOf(segs[i], va)
      ensures va in m'.pages && m'.pages[va] == SegmentPage(e, segs[i], va, before.Times(va) + 1)
    {
      if i < n { assert SamePage(m, m', va); }
    }
    forall va: nat | !Occupied(segs, n + 1, va) ensures SamePage(before, m', va) {
      assert !Occupied(segs, n, va) && !PageOf(segs[n], va);
      assert SamePage(m, m', va);
    }
  }

  lemma PagesInSegment(s: LoadSegment)
    requires 0 < s.memsz
    ensures forall va: nat :: PageOf(s, va) ==> va < s.vaddr + s.memsz
  {
  }

  lemma GoodNext(segs: seq<LoadSegment>, n: nat, space: AddressSpace)
    requires n < |segs| && GoodUpTo(segs, n, space) && SegmentOk(segs[n])
    requires forall va: nat :: PageOf(segs[n], va) ==> !Occupied(segs, n, va) && !space.refused(va)
    ensures GoodUpTo(segs, n + 1, space)
  {
    hide PageOf, SegmentOk;
    forall i | 0 <= i < n ensures !SharePage(segs[i], segs[n]) {
      assert forall va: nat :: PageOf(segs[i], va) ==> Occupied(segs, n, va);
    }
  }

  lemma EmptyNext(e: Elf64, segs: seq<LoadSegment>, n: nat, before: Memory, m: Memory, space: AddressSpace)
    requires n < |segs| && segs[n].memsz == 0 && LoadedUpTo(e, segs, n, before, m) && GoodUpTo(segs, n, space)
    ensures LoadedUpTo(e, segs, n + 1, before, m) && GoodUpTo(segs, n + 1, space)
    ensures forall va: nat :: Occupied(segs, n + 1, va) <==> Occupied(segs, n, va)
  {
    hide SegmentPage;
    assert forall va: nat :: !PageOf(segs[n], va);
  }

  /** Checks a segment and loads its pages. */
  method LoadSegmentAt(space: AddressSpace, e: Elf64, segs: seq<LoadSegment>, k: nat, mapped: set<nat>, ghost before: Memory)
    returns (error: Option<LoaderError>, mapped': set<nat>)
    requires space.Valid() && k < |segs| && 0 < segs[k].memsz
    requires LoadedUpTo(e, segs, k, before, space.Contents()) && GoodUpTo(segs, k, space)
    requires forall va: nat :: va in mapped <==> Occupied(segs, k, va)
    modifies space`frames
    ensures space.Valid()
    ensures error.None? ==>
      && LoadedUpTo(e, segs, k + 1, before, space.Contents()) && GoodUpTo(segs, k + 1, space)
      && forall va: nat :: va in mapped' <==> Occupied(segs, k + 1, va)
    ensures error.Some? ==> ErrorTrue(segs, e.entry, space, error.value) && !GoodUpTo(segs, k + 1, space)
  {
    hide PageOf, Filled, PageBytes, AddressSpace.Valid, AddressSpace.Contents, SegmentBytes, LoadedUpTo, SharePage, LoadSegment.Readable, LoadSegment.Writable, LoadSegment.Executable;
    var s := segs[k];
    mapped' := mapped;
    var bits := PagePermissions(s.flags);
    PermissionsOk(s);
    if bits.Err? {
      return Some(bits.error), mapped;
    }
    var end := s.vaddr + s.memsz;
    if U64_LIMIT <= end {
      return Some(SegmentOutsideWindow(s.vaddr, U64_LIMIT - 1)), mapped;
    }
    if s.vaddr < SEGMENT_WINDOW_BASE || SEGMENT_WINDOW_END < end {
      return Some(SegmentOutsideWindow(s.vaddr, end)), mapped;
    }
    ghost var m := space.Contents();
    error, mapped' := LoadPages(space, s, SegmentBytes(e, s), bits.value, mapped);
    if error.Some? {
      PagesStop(segs, k, e.entry, space, error.value);
      return;
    }
    LoadedNext(e, segs, k, before, m, space.Contents());
    GoodNext(segs, k, space);
  }

  lemma PermissionsOk(s: LoadSegment)
    ensures PagePermissions(s.flags).Ok? <==> s.Readable() && !(s.Writable() && s.Executable())
    ensures PagePermissions(s.flags) == Err(SegmentNotReadable) ==> !s.Readable()
    ensures PagePermissions(s.flags) == Err(SegmentWritableAndExecutable) ==> s.Writable() && s.Executable()
    ensures PagePermissions(s.flags).Err? ==> PagePermissions(s.flags).error in {SegmentNotReadable, SegmentWritableAndExecutable}
  {
  }

  /** A page that cannot be mapped means the image cannot be loaded. */
  lemma PagesStop(segs: seq<LoadSegment>, k: nat, entry: nat, space: AddressSpace, error: LoaderError)
    requires k < |segs|
    requires
      || (error.OverlappingSegments? && PageOf(segs[k], error.page) && Occupied(segs, k, error.page))
      || (error.MapFailed? && PageOf(segs[k], error.va) && space.refused(error.va))
    ensures ErrorTrue(segs, entry, space, error) && !GoodUpTo(segs, k + 1, space)
  {
    hide PageOf, SegmentOk;
    if error.OverlappingSegments? {
      var i :| 0 <= i < k && PageOf(segs[i], error.page);
      assert SharePage(segs[i], segs[k]);
    } else {
      assert Occupied(segs, k + 1, error.va);
    }
  }

  const STACK_BITS := AP_EL0_RW + UXN + PXN

  function StackBytes(va: nat, times: nat): (p: Page) {
    Page(PageBytes([], 0, va), STACK_BITS, times)
  }

  /** Memory `m` is `before` with the image and its stack loaded. */
  ghost predicate Loaded(e: Elf64, segs: seq<LoadSegment>, before: Memory, m: Memory) {
    && (forall i, va: nat :: 0 <= i < |segs| && PageOf(segs[i], va) ==> va in m.pages && m.pages[va] == SegmentPage(e, segs[i], va, before.Times(va) + 1))
    && (forall va: nat :: StackPage(va) ==> va in m.pages && m.pages[va] == StackBytes(va, before.Times(va) + 1))
    && (forall va: nat :: !Occupied(segs, |segs|, va) && !StackPage(va) ==> SamePage(before, m, va))
  }

  ghost predicate Mappable(segs: seq<LoadSegment>, space: AddressSpace) {
    && (forall va: nat :: Occupied(segs, |segs|, va) ==> !space.refused(va))
    && (forall va: nat :: StackPage(va) ==> !space.refused(va))
  }

  /** The first `n` stack pages are mapped and zero. */
  ghost predicate StackUpTo(before: Memory, m: Memory, n: nat) {
    && (forall va: nat :: StackPage(va) && va < STACK_BASE + n * PAGE ==> va in m.pages && m.pages[va] == StackBytes(va, before.Times(va) + 1))
    && (forall va: nat :: !(StackPage(va) && va < STACK_BASE + n * PAGE) ==> SamePage(before, m, va))
  }

  lemma StackNext(before: Memory, m: Memory, n: nat)
    requires n < 4 && StackUpTo(before, m, n)
    ensures var va := STACK_BASE + n * PAGE;
      StackPage(va) && StackUpTo(before, Mapped(m, va, PageBytes([], 0, va), STACK_BITS), n + 1)
  {
    hide PageBytes;
    var va := STACK_BASE + n * PAGE;
    var m' := Mapped(m, va, PageBytes([], 0, va), STACK_BITS);
    assert va % PAGE == 0 && STACK_BASE + (n + 1) * PAGE == va + PAGE;
    forall q: nat | StackPage(q) && q < va + PAGE ensures q in m'.pages && m'.pages[q] == StackBytes(q, before.Times(q) + 1) {
      AlignedBelow(va, q);
      if q == va { assert SamePage(before, m, va); }
    }
    forall q: nat | !(StackPage(q) && q < va + PAGE) ensures SamePage(before, m', q) {
      assert SamePage(before, m, q);
    }
  }

  lemma AlignedBelow(va: nat, q: nat)
    requires va % PAGE == 0 && q % PAGE == 0 && q < va + PAGE
    ensures q <= va
  {
  }

  /** Maps the stack. */
  method LoadStack(space: AddressSpace) returns (error: Option<LoaderError>)
    requires space.Valid()
    modifies space`frames
    ensures space.Valid()
    ensures error.None? ==> StackUpTo(old(space.Contents()), space.Contents(), 4)
    ensures error.None? ==> forall va: nat :: StackPage(va) ==> !space.refused(va)
    ensures error.Some? ==> error.value.MapFailed? && StackPage(error.value.va) && space.refused(error.value.va)
  {
    hide PageBytes, AddressSpace.Valid, AddressSpace.Contents, StackUpTo;
    StackNone(space.Contents());
    for i := 0 to STACK_SIZE / PAGE
      invariant space.Valid() && StackUpTo(old(space.Contents()), space.Contents(), i)
      invariant forall va: nat :: StackPage(va) && va < STACK_BASE + i * PAGE ==> !space.refused(va)
    {
      StackNext(old(space.Contents()), space.Contents(), i);
      error := MapFilled(space, STACK_BASE + i * PAGE, [], 0, STACK_BITS);
      if error.Some? {
        return;
      }
    }
    return None;
  }

  lemma StackNone(m: Memory)
    ensures StackUpTo(m, m, 0)
  {
  }

  lemma StackApart(segs: seq<LoadSegment>, space: AddressSpace, va: nat)
    requires GoodUpTo(segs, |segs|, space) && Occupied(segs, |segs|, va)
    ensures SEGMENT_WINDOW_BASE <= va < SEGMENT_WINDOW_END && !StackPage(va)
  {
    var i :| 0 <= i < |segs| && PageOf(segs[i], va);
    assert SegmentOk(segs[i]);
  }

  lemma StackLoaded(e: Elf64, segs: seq<LoadSegment>, before: Memory, m: Memory, m': Memory, space: AddressSpace)
    requires LoadedUpTo(e, segs, |segs|, before, m) && GoodUpTo(segs, |segs|, space) && StackUpTo(m, m', 4)
    ensures Loaded(e, segs, before, m')
  {
    hide PageOf, PageBytes, SegmentPage, GoodUpTo;
    forall va: nat | StackPage(va) ensures !Occupied(segs, |segs|, va) {
      if Occupied(segs, |segs|, va) { StackApart(segs, space, va); }
    }
    forall i, va: nat | 0 <= i < |segs| && PageOf(segs[i], va) ensures va in m'.pages && m'.pages[va] == SegmentPage(e, segs[i], va, before.Times(va) + 1) {
      assert Occupied(segs, |segs|, va);
      StackApart(segs, space, va);
      assert SamePage(m, m', va);
    }
    forall va: nat | !Occupied(segs, |segs|, va) && !StackPage(va) ensures SamePage(before, m', va) {
      assert SamePage(before, m, va) && SamePage(m, m', va);
    }
  }

  /** Loads an image and its stack. It succeeds exactly on acceptable images whose pages can all be
      mapped; then memory is what it was with the image and the stack in it, whatever the mapped pages
      held before; and an error that is returned is true. */
  method Load(e: Elf64, space: AddressSpace) returns (r: Result<LoadedImage, LoaderError>)
    requires space.Valid()
    modifies space`frames
    ensures space.Valid()
    ensures r.Ok? <==> Acceptable(Segments(e), e.entry) && Mappable(Segments(e), space)
    ensures r.Ok? ==> Loaded(e, Segments(e), old(space.Contents()), space.Contents())
    ensures r.Ok? ==> r.value.entry == e.entry && r.value.stackTop == 0xC000_0000 && r.value.stackBase == 0xBFFF_C000 && r.value.stackPages == 4
    ensures r.Ok? ==> exists pages: set<nat> ::
      |pages| == r.value.segmentPages && forall va: nat :: va in pages <==> Occupied(Segments(e), |Segments(e)|, va)
    ensures r.Err? ==> ErrorTrue(Segments(e), e.entry, space, r.error)
  {
    hide PageOf, PageBytes, AddressSpace.Valid, AddressSpace.Contents, Segments, SegmentOk, SharePage, LoadedUpTo, GoodUpTo,
      EntryIn, StackUpTo, Loaded, Occupied;
    var segs := Segments(e);
    var mapped: set<nat>, entryIsExecutable := {}, false;
    LoadedNone(e, segs, space.Contents(), space);
    for k := 0 to |segs|
      invariant space.Valid() && LoadedUpTo(e, segs, k, old(space.Contents()), space.Contents()) && GoodUpTo(segs, k, space)
      invariant forall va: nat :: va in mapped <==> Occupied(segs, k, va)
      invariant entryIsExecutable <==> exists i :: 0 <= i < k && EntryIn(segs[i], e.entry)
    {
      var s := segs[k];
      EntryInIs(s, e.entry);
      if s.memsz == 0 {
        EmptyNext(e, segs, k, old(space.Contents()), space.Contents(), space);
        continue;
      }
      var error;
      error, mapped := LoadSegmentAt(space, e, segs, k, mapped, old(space.Contents()));
      if error.Some? {
        GoodIff(segs, k + 1, e.entry, space);
        return Err(error.value);
      }
      if s.Executable() && s.vaddr <= e.entry < s.vaddr + s.memsz {
        entryIsExecutable := true;
      }
    }
    GoodIff(segs, |segs|, e.entry, space);
    if !entryIsExecutable {
      return Err(EntryPointNotExecutable(e.entry));
    }
    ghost var m := space.Contents();
    var stack := LoadStack(space);
    if stack.Some? {
      return Err(stack.value);
    }
    StackLoaded(e, segs, old(space.Contents()), m, space.Contents(), space);
    return Ok(LoadedImage(e.entry, STACK_TOP, STACK_BASE, |mapped|, STACK_SIZE / PAGE));
  }

  lemma EntryInIs(s: LoadSegment, entry: nat)
    ensures EntryIn(s, entry) <==> 0 < s.memsz && s.Executable() && s.vaddr <= entry < s.vaddr + s.memsz
  {
  }

  lemma LoadedNone(e: Elf64, segs: seq<LoadSegment>, m: Memory, space: AddressSpace)
    ensures LoadedUpTo(e, segs, 0, m, m) && GoodUpTo(segs, 0, space) && forall va: nat :: !Occupied(segs, 0, va)
  {
  }

  lemma GoodIff(segs: seq<LoadSegment>, n: nat, entry: nat, space: AddressSpace)
    requires n <= |segs|
    ensures !GoodUpTo(segs, n, space) ==> !(Acceptable(segs, entry) && Mappable(segs, space))
    ensures GoodUpTo(segs, |segs|, space) ==>
      && (Acceptable(segs, entry) <==> exists i :: 0 <= i < |segs| && EntryIn(segs[i], entry))
      && (Mappable(segs, space) <==> forall va: nat :: StackPage(va) ==> !space.refused(va))
  {
    hide PageOf, SegmentOk, SharePage, EntryIn;
    assert forall va: nat :: Occupied(segs, n, va) ==> Occupied(segs, |segs|, va);
  }
}
