/** What a loaded image looks like byte by byte, and what no image can make loading do. */
module LoaderTheorems {
  import opened Bytes
  import opened Elf
  import opened Loader

  /** The byte of memory at address `a`. */
  ghost function ByteOf(m: Memory, a: nat): (b: Option<Byte>) {
    var va: nat := AlignDown(a);
    if va in m.pages && a - va < |m.pages[va].bytes| then Some(m.pages[va].bytes[a - va]) else None
  }

  ghost predicate InFile(s: LoadSegment, a: nat) {
    s.vaddr <= a < s.vaddr + s.filesz
  }

  lemma PageOfAddress(s: LoadSegment, a: nat)
    requires 0 < s.memsz && s.vaddr <= a < s.vaddr + s.memsz
    ensures PageOf(s, AlignDown(a))
  {
    AlignMonotone(s.vaddr, a);
    AlignMonotone(a, s.vaddr + s.memsz - 1);
  }

  lemma AlignMonotone(a: nat, b: nat)
    requires a <= b
    ensures AlignDown(a) <= AlignDown(b)
  {
    var x, y := AlignDown(a), AlignDown(b);
    assert (y - x) % PAGE == 0 && -PAGE < y - x;
  }

  lemma ParsedContent(e: Elf64, s: LoadSegment)
    requires Parsed(e) && s in Segments(e)
    ensures s.filesz <= s.memsz && s.offset + s.filesz <= |e.bytes|
    ensures SegmentBytes(e, s) == e.bytes[s.offset..s.offset + s.filesz]
  {
    assert SegmentError(e, s).None?;
  }

  lemma ByteLoaded(e: Elf64, before: Memory, m: Memory, s: LoadSegment, a: nat)
    requires Loaded(e, Segments(e), before, m) && s in Segments(e) && SegmentError(e, s).None? && s.vaddr <= a < s.vaddr + s.memsz
    ensures ByteOf(m, a) == Some(if a < s.vaddr + s.filesz then e.bytes[s.offset + (a - s.vaddr)] else 0)
  {
    hide AlignDown, Segments, Loaded, SegmentPage, SegmentError, PageOf;
    FileBytes(e, s);
    PageOfAddress(s, a);
    var va: nat := AlignDown(a);
    PageLoaded(e, before, m, s, va);
    assert va + (a - va) == a;
    PageByte(e, s, va, before.Times(va) + 1, a - va);
  }

  lemma FileBytes(e: Elf64, s: LoadSegment)
    requires SegmentError(e, s).None?
    ensures s.filesz <= s.memsz && s.offset + s.filesz <= |e.bytes| && SegmentBytes(e, s) == e.bytes[s.offset..s.offset + s.filesz]
  {
  }

  lemma PageLoaded(e: Elf64, before: Memory, m: Memory, s: LoadSegment, va: nat)
    requires Loaded(e, Segments(e), before, m) && s in Segments(e) && PageOf(s, va)
    ensures va in m.pages && m.pages[va] == SegmentPage(e, s, va, before.Times(va) + 1)
  {
    hide Segments, SegmentPage, PageOf;
    var i :| 0 <= i < |Segments(e)| && Segments(e)[i] == s;
    assert PageOf(Segments(e)[i], va);
  }

  lemma PageByte(e: Elf64, s: LoadSegment, va: nat, times: nat, i: nat)
    requires i < PAGE
    ensures |SegmentPage(e, s, va, times).bytes| == PAGE && SegmentPage(e, s, va, times).bytes[i] == ByteAt(SegmentBytes(e, s), s.vaddr, va + i)
  {
    hide SegmentBytes, ByteAt, PagePermissions, PageBytes;
  }

  /** Every address of a segment holds its file byte, or zero past the file's part of it. */
  lemma SegmentLoaded(e: Elf64, before: Memory, m: Memory, s: LoadSegment, a: nat)
    requires Parsed(e) && Loaded(e, Segments(e), before, m) && s in Segments(e) && s.vaddr <= a < s.vaddr + s.memsz
    ensures s.filesz <= s.memsz && s.offset + s.filesz <= |e.bytes|
    ensures ByteOf(m, a) == Some(if a < s.vaddr + s.filesz then e.bytes[s.offset + (a - s.vaddr)] else 0)
  {
    hide Segments, Loaded;
    assert SegmentError(e, s).None?;
    ByteLoaded(e, before, m, s, a);
  }

  /** Every other byte of the pages that loading maps is zero, whatever the pages held before. */
  lemma SlackIsZero(e: Elf64, before: Memory, m: Memory, a: nat)
    requires Parsed(e) && Loaded(e, Segments(e), before, m)
    requires Occupied(Segments(e), |Segments(e)|, AlignDown(a)) || StackPage(AlignDown(a))
    requires forall s :: s in Segments(e) ==> !InFile(s, a)
    ensures ByteOf(m, a) == Some(0)
  {
    hide AlignDown, Segments, Parsed, PagePermissions;
    var va: nat := AlignDown(a);
    if StackPage(va) {
      assert m.pages[va] == StackBytes(va, before.Times(va) + 1);
    } else {
      var i :| 0 <= i < |Segments(e)| && PageOf(Segments(e)[i], va);
      var s := Segments(e)[i];
      ParsedContent(e, s);
      assert m.pages[va] == SegmentPage(e, s, va, before.Times(va) + 1);
      assert !InFile(s, a);
      assert va + (a - va) == a;
    }
  }

  /** Every page loading maps is mapped once; none can be written and executed at EL0, none executed
      at EL1; and each lies in the segment window or in the stack, never in the guard gap between. */
  lemma PagesSafe(e: Elf64, before: Memory, m: Memory, va: nat)
    requires Acceptable(Segments(e), e.entry) && Loaded(e, Segments(e), before, m)
    requires Occupied(Segments(e), |Segments(e)|, va) || StackPage(va)
    ensures va in m.pages && m.pages[va].times == before.Times(va) + 1
    ensures !(El0Writable(m.pages[va].permissions) && El0Executable(m.pages[va].permissions))
    ensures !El1Executable(m.pages[va].permissions)
    ensures 0x8000_0000 <= va < 0xBFFE_C000 || 0xBFFF_C000 <= va < 0xC000_0000
  {
    hide Segments, PageBytes, SegmentBytes, AlignDown;
    if Occupied(Segments(e), |Segments(e)|, va) {
      var i :| 0 <= i < |Segments(e)| && PageOf(Segments(e)[i], va);
      var s := Segments(e)[i];
      assert SegmentOk(s);
      PermissionsOk(s);
      PagesInSegment(s);
      AlignWindow(s, va);
    }
  }

  lemma AlignWindow(s: LoadSegment, va: nat)
    requires PageOf(s, va) && SegmentOk(s)
    ensures SEGMENT_WINDOW_BASE <= va
  {
    AlignMonotone(SEGMENT_WINDOW_BASE, s.vaddr);
  }

  /** Nothing else changes: in particular an unmapped guard gap stays unmapped. */
  lemma GuardStaysUnmapped(e: Elf64, before: Memory, m: Memory, va: nat)
    requires Acceptable(Segments(e), e.entry) && Loaded(e, Segments(e), before, m)
    requires 0xBFFE_C000 <= va < 0xBFFF_C000 && va !in before.pages
    ensures va !in m.pages
  {
    hide Segments, SegmentPage, StackBytes, PageOf;
    if Occupied(Segments(e), |Segments(e)|, va) {
      PagesSafe(e, before, m, va);
    }
    assert !StackPage(va);
    assert SamePage(before, m, va);
  }

  // ----- the order of the program headers

  ghost predicate SameContent(e: Elf64, f: Elf64, segs: seq<LoadSegment>) {
    forall s :: s in segs ==> SegmentBytes(e, s) == SegmentBytes(f, s)
  }

  lemma Reordered(ss: seq<LoadSegment>, ts: seq<LoadSegment>)
    requires multiset(ss) == multiset(ts)
    ensures forall s :: s in ss <==> s in ts
  {
    assert forall s :: s in ss <==> s in multiset(ss);
    assert forall s :: s in ts <==> s in multiset(ts);
  }

  lemma OccupiedSame(ss: seq<LoadSegment>, ts: seq<LoadSegment>, va: nat)
    requires forall s :: s in ss ==> s in ts
    requires Occupied(ss, |ss|, va)
    ensures Occupied(ts, |ts|, va)
  {
    hide PageOf;
    var i :| 0 <= i < |ss| && PageOf(ss[i], va);
    assert ss[i] in ts;
    var j :| 0 <= j < |ts| && ts[j] == ss[i];
  }

  /** Two positions of one list that share a page are two positions of the other. */
  lemma {:induction false} PairReordered(ss: seq<LoadSegment>, ts: seq<LoadSegment>, i: nat, j: nat) returns (k: nat, l: nat)
    requires multiset(ss) == multiset(ts) && i < j < |ss|
    ensures k < l < |ts| && {ts[k], ts[l]} == {ss[i], ss[j]}
  {
    var a, b := ss[i], ss[j];
    Reordered(ss, ts);
    k :| 0 <= k < |ts| && ts[k] == a;
    if a != b {
      assert b in ss;
      l :| 0 <= l < |ts| && ts[l] == b;
    } else {
      TwoInMultiset(ss, i, j);
      l := SecondOf(ts, a, k);
    }
    if l < k { k, l := l, k; }
  }

  lemma TwoInMultiset(ss: seq<LoadSegment>, i: nat, j: nat)
    requires i < j < |ss| && ss[i] == ss[j]
    ensures multiset(ss)[ss[i]] >= 2
  {
    assert ss == ss[..j] + [ss[j]] + ss[j + 1..];
    assert ss[i] in ss[..j];
    assert multiset(ss) == multiset(ss[..j]) + multiset{ss[j]} + multiset(ss[j + 1..]);
  }

  lemma SecondOf(ts: seq<LoadSegment>, a: LoadSegment, k: nat) returns (l: nat)
    requires k < |ts| && ts[k] == a && multiset(ts)[a] >= 2
    ensures l < |ts| && l != k && ts[l] == a
  {
    assert ts == ts[..k] + [a] + ts[k + 1..];
    assert multiset(ts) == multiset(ts[..k]) + multiset{a} + multiset(ts[k + 1..]);
    if a in ts[..k] {
      l :| 0 <= l < k && ts[..k][l] == a;
    } else {
      assert a in ts[k + 1..];
      var d :| 0 <= d < |ts[k + 1..]| && ts[k + 1..][d] == a;
      l := k + 1 + d;
    }
  }

  /** Whether an image is accepted does not depend on the order of its program headers. */
  lemma OrderOfHeaders(ss: seq<LoadSegment>, ts: seq<LoadSegment>, entry: nat)
    requires multiset(ss) == multiset(ts) && Acceptable(ss, entry)
    ensures Acceptable(ts, entry)
  {
    hide SegmentOk, EntryIn, PageOf;
    Reordered(ss, ts);
    forall i | 0 <= i < |ts| ensures SegmentOk(ts[i]) {
      assert ts[i] in ss;
      var k :| 0 <= k < |ss| && ss[k] == ts[i];
    }
    forall i, j | 0 <= i < j < |ts| ensures !SharePage(ts[i], ts[j]) {
      var k, l := PairReordered(ts, ss, i, j);
      assert !SharePage(ss[k], ss[l]);
    }
    var i :| 0 <= i < |ss| && EntryIn(ss[i], entry);
    assert ss[i] in ts;
    var k :| 0 <= k < |ts| && ts[k] == ss[i];
  }

  /** Two images with the same segments and segment contents, in whatever order, leave the same memory. */
  lemma SameSegmentsSameMemory(e: Elf64, f: Elf64, before: Memory, m: Memory, n: Memory)
    requires multiset(Segments(e)) == multiset(Segments(f)) && SameContent(e, f, Segments(e))
    requires Loaded(e, Segments(e), before, m) && Loaded(f, Segments(f), before, n)
    ensures m == n
  {
    hide PageOf, Segments, PageBytes, PagePermissions, SegmentBytes, Occupied, StackBytes;
    var ss, ts := Segments(e), Segments(f);
    Reordered(ss, ts);
    forall va: nat ensures (va in m.pages <==> va in n.pages) && (va in m.pages ==> m.pages[va] == n.pages[va]) {
      PageSame(e, f, ss, ts, before, m, n, va);
    }
    assert m.pages == n.pages;
  }

  lemma PageSame(e: Elf64, f: Elf64, ss: seq<LoadSegment>, ts: seq<LoadSegment>, before: Memory, m: Memory, n: Memory, va: nat)
    requires (forall s :: s in ss <==> s in ts) && SameContent(e, f, ss)
    requires Loaded(e, ss, before, m) && Loaded(f, ts, before, n)
    ensures (va in m.pages <==> va in n.pages) && (va in m.pages ==> m.pages[va] == n.pages[va])
  {
    hide PageOf, PageBytes, PagePermissions, SegmentBytes;
    if Occupied(ss, |ss|, va) {
      var i :| 0 <= i < |ss| && PageOf(ss[i], va);
      assert ss[i] in ts;
      var j :| 0 <= j < |ts| && ts[j] == ss[i];
      assert PageOf(ts[j], va);
      assert SegmentBytes(e, ss[i]) == SegmentBytes(f, ss[i]);
    } else {
      if Occupied(ts, |ts|, va) { OccupiedSame(ts, ss, va); }
      if !StackPage(va) { assert SamePage(before, m, va) && SamePage(before, n, va); }
    }
  }

  // ----- images whose program header tables are permutations

  type Row = r: seq<Byte> | |r| == PHDR_SIZE ghost witness seq(PHDR_SIZE, i => 0)

  /** The program header table, header by header. */
  function Rows(e: Elf64): (rows: seq<Row>)
    requires TableFits(e)
    ensures |rows| == e.phnum
  {
    seq(e.phnum, i requires 0 <= i < e.phnum => e.bytes[e.phoff + i * PHDR_SIZE..e.phoff + i * PHDR_SIZE + PHDR_SIZE])
  }

  /** The segment a header describes, from its own bytes. */
  function RowSegment(row: Row): (s: Option<LoadSegment>) {
    if U32(row[0..4]) != PT_LOAD then None
    else Some(LoadSegment(U32(row[4..8]), U64(row[8..16]), U64(row[16..24]), U64(row[32..40]), U64(row[40..48])))
  }

  function RowSegments(rows: seq<Row>): (segs: seq<LoadSegment>) {
    if rows == [] then []
    else
      var s := RowSegment(rows[|rows| - 1]);
      RowSegments(rows[..|rows| - 1]) + if s.Some? then [s.value] else []
  }

  lemma RowGivesSegment(e: Elf64, i: nat)
    requires TableFits(e) && i < e.phnum
    ensures SegmentAt(e, i) == RowSegment(Rows(e)[i])
  {
    hide U32, U64;
    var base := e.phoff + i * PHDR_SIZE;
    assert base + PHDR_SIZE <= e.phoff + e.phnum * PHDR_SIZE;
    SliceOfSlice(e.bytes, base, PHDR_SIZE, 0, 4);
    SliceOfSlice(e.bytes, base, PHDR_SIZE, 4, 8);
    SliceOfSlice(e.bytes, base, PHDR_SIZE, 8, 16);
    SliceOfSlice(e.bytes, base, PHDR_SIZE, 16, 24);
    SliceOfSlice(e.bytes, base, PHDR_SIZE, 32, 40);
    SliceOfSlice(e.bytes, base, PHDR_SIZE, 40, 48);
  }

  lemma {:induction false} RowsGiveSegments(e: Elf64, n: nat)
    requires TableFits(e) && n <= e.phnum
    ensures SegmentsUpTo(e, n) == RowSegments(Rows(e)[..n])
  {
    hide SegmentAt, RowSegment, Rows;
    if 0 < n {
      RowsGiveSegments(e, n - 1);
      RowGivesSegment(e, n - 1);
      assert Rows(e)[..n][..n - 1] == Rows(e)[..n - 1];
    } else {
      assert Rows(e)[..0] == [];
    }
  }

  lemma {:induction false} RowSegmentsAppend(a: seq<Row>, b: seq<Row>)
    ensures RowSegments(a + b) == RowSegments(a) + RowSegments(b)
  {
    hide RowSegment;
    if b == [] {
      assert a + b == a;
    } else {
      RowSegmentsAppend(a, b[..|b| - 1]);
      assert (a + b)[..|a + b| - 1] == a + b[..|b| - 1];
    }
  }

  /** Permuted headers describe the same segments. */
  lemma {:induction false} RowsPermuted(a: seq<Row>, b: seq<Row>)
    requires multiset(a) == multiset(b)
    ensures multiset(RowSegments(a)) == multiset(RowSegments(b))
    decreases |a|
  {
    hide RowSegment, RowSegments;
    if a == [] {
      assert |multiset(b)| == 0;
      assert b == [];
    } else {
      var n := |a| - 1;
      var x := a[n];
      LastOut(a);
      assert x in multiset(b);
      var k := RowOut(b, x);
      Cancel(multiset(a[..n]), multiset(b[..k] + b[k + 1..]), x);
      RowsPermuted(a[..n], b[..k] + b[k + 1..]);
      RowSegmentsAppend(a[..n], [x]);
      RowSegmentsAppend(b[..k], [x] + b[k + 1..]);
      RowSegmentsAppend([x], b[k + 1..]);
      RowSegmentsAppend(b[..k], b[k + 1..]);
      MultisetsMeet(RowSegments(a[..n]), RowSegments([x]), RowSegments(b[..k]), RowSegments(b[k + 1..]));
    }
  }

  lemma Cancel(p: multiset<Row>, q: multiset<Row>, x: Row)
    requires p + multiset{x} == q + multiset{x}
    ensures p == q
  {
    assert p == (p + multiset{x}) - multiset{x} && q == (q + multiset{x}) - multiset{x};
  }

  lemma LastOut(a: seq<Row>)
    requires a != []
    ensures a == a[..|a| - 1] + [a[|a| - 1]] && multiset(a) == multiset(a[..|a| - 1]) + multiset{a[|a| - 1]}
  {
  }

  lemma RowOut(b: seq<Row>, x: Row) returns (k: nat)
    requires x in b
    ensures k < |b| && b == b[..k] + ([x] + b[k + 1..]) && multiset(b) == multiset(b[..k] + b[k + 1..]) + multiset{x}
  {
    k :| 0 <= k < |b| && b[k] == x;
    assert b == b[..k] + ([x] + b[k + 1..]);
    assert multiset([x] + b[k + 1..]) == multiset{x} + multiset(b[k + 1..]);
    assert multiset(b) == multiset(b[..k]) + multiset([x] + b[k + 1..]);
  }

  lemma MultisetsMeet(a: seq<LoadSegment>, x: seq<LoadSegment>, b: seq<LoadSegment>, c: seq<LoadSegment>)
    requires multiset(a) == multiset(b + c)
    ensures multiset(a + x) == multiset(b + (x + c))
  {
    assert multiset(b + c) == multiset(b) + multiset(c);
    assert multiset(a + x) == multiset(a) + multiset(x);
    assert multiset(b + (x + c)) == multiset(b) + multiset(x + c);
    assert multiset(x + c) == multiset(x) + multiset(c);
  }

  /** `f` is `e` with its program headers in another order, and not a byte changed elsewhere. */
  ghost predicate HeadersPermuted(e: Elf64, f: Elf64) {
    && TableFits(e) && |f.bytes| == |e.bytes| && f.entry == e.entry && f.phoff == e.phoff && f.phnum == e.phnum
    && f.bytes[..e.phoff] == e.bytes[..e.phoff]
    && f.bytes[e.phoff + e.phnum * PHDR_SIZE..] == e.bytes[e.phoff + e.phnum * PHDR_SIZE..]
    && multiset(Rows(e)) == multiset(Rows(f))
  }

  /** No segment takes its file bytes from the program header table. */
  ghost predicate TableApart(e: Elf64) {
    forall s :: s in Segments(e) ==> s.filesz == 0 || s.offset + s.filesz <= e.phoff || e.phoff + e.phnum * PHDR_SIZE <= s.offset
  }

  lemma ContentApart(e: Elf64, f: Elf64, s: LoadSegment)
    requires HeadersPermuted(e, f)
    requires s.filesz == 0 || s.offset + s.filesz <= e.phoff || e.phoff + e.phnum * PHDR_SIZE <= s.offset
    ensures SegmentBytes(e, s) == SegmentBytes(f, s)
  {
    hide Rows;
    var end := e.phoff + e.phnum * PHDR_SIZE;
    if s.offset + s.filesz <= |e.bytes| && 0 < s.filesz {
      if s.offset + s.filesz <= e.phoff {
        assert e.bytes[s.offset..s.offset + s.filesz] == e.bytes[..e.phoff][s.offset..s.offset + s.filesz];
        assert f.bytes[s.offset..s.offset + s.filesz] == f.bytes[..e.phoff][s.offset..s.offset + s.filesz];
      } else {
        assert e.bytes[s.offset..s.offset + s.filesz] == e.bytes[end..][s.offset - end..s.offset - end + s.filesz];
        assert f.bytes[s.offset..s.offset + s.filesz] == f.bytes[end..][s.offset - end..s.offset - end + s.filesz];
      }
    }
  }

  lemma PermutedSegments(e: Elf64, f: Elf64)
    requires HeadersPermuted(e, f)
    ensures multiset(Segments(e)) == multiset(Segments(f))
  {
    hide Rows, RowSegments, SegmentsUpTo;
    RowsGiveSegments(e, e.phnum);
    RowsGiveSegments(f, f.phnum);
    assert Rows(e)[..e.phnum] == Rows(e) && Rows(f)[..f.phnum] == Rows(f);
    RowsPermuted(Rows(e), Rows(f));
  }

  /** Images that leave the same memory have the same file bytes in a segment they share. */
  lemma SameMemorySameContent(e: Elf64, f: Elf64, before: Memory, m: Memory, s: LoadSegment)
    requires Loaded(e, Segments(e), before, m) && Loaded(f, Segments(f), before, m) && s in Segments(e) && s in Segments(f)
    requires SegmentError(e, s).None? && SegmentError(f, s).None?
    ensures SegmentBytes(e, s) == SegmentBytes(f, s)
  {
    hide Loaded, Segments, ByteOf;
    FileBytes(e, s);
    FileBytes(f, s);
    var a, b := SegmentBytes(e, s), SegmentBytes(f, s);
    forall i | 0 <= i < s.filesz ensures a[i] == b[i] {
      ByteLoaded(e, before, m, s, s.vaddr + i);
      ByteLoaded(f, before, m, s, s.vaddr + i);
    }
  }

  lemma SegmentFits(e: Elf64, f: Elf64, s: LoadSegment)
    requires Parsed(e) && HeadersPermuted(e, f) && s in Segments(e)
    ensures SegmentError(e, s).None? && SegmentError(f, s).None?
  {
    hide Segments, Rows;
  }

  /** Reordering the program headers of an image does not change whether it is accepted, and leaves the same memory
      exactly when the file bytes of every segment are the same; which they are if no segment takes any from the
      program header table. */
  lemma OrderOfLoading(e: Elf64, f: Elf64, before: Memory, m: Memory, n: Memory)
    requires HeadersPermuted(e, f)
    ensures Acceptable(Segments(e), e.entry) <==> Acceptable(Segments(f), f.entry)
    ensures Parsed(e) && Loaded(e, Segments(e), before, m) && Loaded(f, Segments(f), before, n) ==>
      (m == n <==> SameContent(e, f, Segments(e)))
    ensures TableApart(e) ==> SameContent(e, f, Segments(e))
  {
    hide Acceptable, Loaded, HeadersPermuted, Segments, SegmentBytes, Parsed;
    PermutedSegments(e, f);
    SameEntry(e, f);
    if Acceptable(Segments(e), e.entry) { OrderOfHeaders(Segments(e), Segments(f), e.entry); }
    if Acceptable(Segments(f), e.entry) { OrderOfHeaders(Segments(f), Segments(e), e.entry); }
    if TableApart(e) {
      forall s | s in Segments(e) ensures SegmentBytes(e, s) == SegmentBytes(f, s) {
        ContentApart(e, f, s);
      }
    }
    if Parsed(e) && Loaded(e, Segments(e), before, m) && Loaded(f, Segments(f), before, n) {
      MemoryIff(e, f, before, m, n);
    }
  }

  lemma MemoryIff(e: Elf64, f: Elf64, before: Memory, m: Memory, n: Memory)
    requires HeadersPermuted(e, f) && multiset(Segments(e)) == multiset(Segments(f))
    requires Parsed(e) && Loaded(e, Segments(e), before, m) && Loaded(f, Segments(f), before, n)
    ensures m == n <==> SameContent(e, f, Segments(e))
  {
    hide Loaded, HeadersPermuted, Segments, SegmentBytes, Parsed;
    if SameContent(e, f, Segments(e)) {
      SameSegmentsSameMemory(e, f, before, m, n);
    }
    if m == n {
      Reordered(Segments(e), Segments(f));
      forall s | s in Segments(e) ensures SegmentBytes(e, s) == SegmentBytes(f, s) {
        SegmentFits(e, f, s);
        SameMemorySameContent(e, f, before, m, s);
      }
    }
  }

  lemma SameEntry(e: Elf64, f: Elf64)
    requires HeadersPermuted(e, f)
    ensures f.entry == e.entry
  {
  }

  // ----- the limits in numbers

  lemma SegmentOkIff(s: LoadSegment)
    ensures SegmentOk(s) <==>
      s.memsz == 0
      || (&& s.flags / 4 % 2 == 1 && !(s.flags / 2 % 2 == 1 && s.flags % 2 == 1)
          && 0x8000_0000 <= s.vaddr && s.vaddr + s.memsz <= 0xBFFE_C000)
  {
  }

  /** The pages of a segment are those with an address of it. */
  lemma PageIff(s: LoadSegment, va: nat)
    ensures PageOf(s, va) <==> 0 < s.memsz && va % 4096 == 0 && va < s.vaddr + s.memsz && s.vaddr < va + 4096
  {
    if 0 < s.memsz && va % 4096 == 0 {
      AlignIff(s.vaddr, va);
      AlignIff(s.vaddr + s.memsz - 1, va);
    }
  }

  lemma AlignIff(a: nat, va: nat)
    requires va % 4096 == 0
    ensures AlignDown(a) <= va <==> a < va + 4096
    ensures va <= AlignDown(a) <==> va <= a
  {
    var d := AlignDown(a) - va;
    assert d % 4096 == 0;
  }

  lemma StackIff(va: nat)
    ensures StackPage(va) <==> va in {0xBFFF_C000, 0xBFFF_D000, 0xBFFF_E000, 0xBFFF_F000}
  {
  }

  /** A stack page is zero, and EL0 can write it and nobody execute it. */
  lemma StackPageIs(va: nat, times: nat)
    ensures StackBytes(va, times).permissions == 0x60_0000_0000_0040 && |StackBytes(va, times).bytes| == 4096
    ensures forall i :: 0 <= i < 4096 ==> StackBytes(va, times).bytes[i] == 0
  {
  }

  lemma EntryIff(s: LoadSegment, entry: nat)
    ensures EntryIn(s, entry) <==> s.flags % 2 == 1 && s.vaddr <= entry < s.vaddr + s.memsz
  {
  }

  /** The descriptor bits: 0x40 lets EL0 write and 0xC0 only read, bit 54 keeps EL0 and bit 53 keeps EL1 from executing. */
  lemma PermissionNumbers(flags: nat)
    ensures PagePermissions(flags) ==
      if flags / 4 % 2 == 0 then Err(SegmentNotReadable)
      else if flags % 4 == 3 then Err(SegmentWritableAndExecutable)
      else if flags % 4 == 2 then Ok(0x60_0000_0000_0040)
      else if flags % 4 == 1 then Ok(0x20_0000_0000_00C0)
      else Ok(0x60_0000_0000_00C0)
  {
    LowFlags(flags);
  }

  lemma LowFlags(flags: nat)
    ensures flags % 2 == flags % 4 % 2 && flags / 2 % 2 == flags % 4 / 2
  {
    var q, m := flags / 4, flags % 4;
    assert flags / 2 == 2 * q + m / 2;
  }

  lemma ProtectionIff(permissions: nat)
    ensures El0Writable(permissions) <==> permissions / 0x40 % 4 == 1
    ensures El0Executable(permissions) <==> permissions / 0x40_0000_0000_0000 % 2 == 0
    ensures El1Executable(permissions) <==> permissions / 0x20_0000_0000_0000 % 2 == 0
  {
  }
}
