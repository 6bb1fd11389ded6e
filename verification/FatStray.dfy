/** Deletes and grows of a file that names no cluster. The driver starts its walk at entry 0 of the FAT all the same.
    The usual entry 0 is an end mark and stops it there; any other value sends it to wherever the entry of that
    cluster would lie, inside the FAT or beyond it. */
module FatStray {
  import opened Bytes
  import opened FatLayout
  import opened FatChains
  import opened Volume
  import opened FatAllocator
  import opened FatChainGrowth
  import opened FatDirectory
  import opened FileSystem
  import opened FatFiles
  import opened FatWalks
  import opened FatEntries

  /** Word `w` of sector `n` is entry 0 of some copy. */
  ghost predicate IsEntryZero(info: BootSectorInfo, n: nat, w: nat) {
    w == 0 && Hit(info, n, 0, info.numFats)
  }

  /** From the FATs on, no word has changed but entry 0 of the copies. */
  ghost predicate OnlyEntryZero(info: BootSectorInfo, d: seq<Sector>, d': seq<Sector>) {
    && |d'| == |d|
    && forall n: nat, w: nat :: info.fatStart <= n < |d| && w < ENTRIES_PER_SECTOR && !IsEntryZero(info, n, w) ==>
         EntryAt(d'[n], w) == EntryAt(d[n], w)
  }

  /** The disk has a word that the driver takes for an entry of `x`, that is not entry 0 of a copy and whose low 28
      bits are not zero. */
  ghost predicate Struck(info: BootSectorInfo, d: seq<Sector>, x: nat) {
    exists k :: 0 <= k < info.numFats && StruckIn(info, d, x, FatSector(info, k, x))
  }

  ghost predicate StruckIn(info: BootSectorInfo, d: seq<Sector>, x: nat, n: nat) {
    && n < |d| && !IsEntryZero(info, n, x % ENTRIES_PER_SECTOR)
    && EntryAt(d[n], x % ENTRIES_PER_SECTOR) % MASK28 != 0
  }

  // ----- words

  lemma PatchedWord(s: Sector, c: nat, w: nat)
    requires w < ENTRIES_PER_SECTOR
    ensures EntryAt(PatchedSector(s, c, 0), w) == if w == c % ENTRIES_PER_SECTOR then Patched(EntryAt(s, w), 0) else EntryAt(s, w)
  {
    hide Patched, EntryAt, SetEntry;
  }

  /** Zeroing clears the low 28 bits of a word, which leaves a clear one as it is. */
  lemma Clears(raw: nat)
    requires raw < U32_LIMIT
    ensures Patched(raw, 0) % MASK28 == 0 && (raw % MASK28 == 0 ==> Patched(raw, 0) == raw)
  {
  }

  /** What zeroing the entry of `c` does to one word. */
  lemma ZeroedWord(info: BootSectorInfo, d: seq<Sector>, d': seq<Sector>, c: nat, n: nat, w: nat)
    requires Zeroed(info, d, d', c) && info.fatStart <= n < |d| && w < ENTRIES_PER_SECTOR
    ensures |d'| == |d|
    ensures EntryAt(d'[n], w) == EntryAt(d[n], w) || EntryAt(d'[n], w) % MASK28 == 0
    ensures EntryAt(d[n], w) % MASK28 == 0 ==> EntryAt(d'[n], w) == EntryAt(d[n], w)
    ensures !(w == c % ENTRIES_PER_SECTOR && Hit(info, n, c, info.numFats)) ==> EntryAt(d'[n], w) == EntryAt(d[n], w)
    ensures 4 * c < U32_LIMIT && w == c % ENTRIES_PER_SECTOR && Hit(info, n, c, info.numFats) ==> EntryAt(d'[n], w) % MASK28 == 0
  {
    hide Patched, Hit, PatchedSector, EntryAt;
    PatchedWord(d[n], c, w);
    Clears(EntryAt(d[n], w));
  }

  // ----- a freeing from entry 0

  /** A word that is clear at some point of a freeing is clear at its end. */
  lemma {:induction false} ClearLater(info: BootSectorInfo, tr: Trace, i: nat, n: nat, w: nat)
    requires 1 <= info.numFats && Traced(info, tr) && i <= |tr.path| && info.fatStart <= n < |tr.disks[i]| && w < ENTRIES_PER_SECTOR
    requires EntryAt(tr.disks[i][n], w) % MASK28 == 0
    ensures n < |tr.disks[|tr.path|]| && EntryAt(tr.disks[|tr.path|][n], w) % MASK28 == 0
    decreases |tr.path| - i
  {
    hide EntryAt, Zeroed, LeadsTo;
    if i < |tr.path| {
      ZeroedAt(info, tr, i);
      ZeroedWord(info, tr.disks[i], tr.disks[i + 1], tr.path[i], n, w);
      ClearLater(info, tr, i + 1, n, w);
    }
  }

  lemma ZeroedAt(info: BootSectorInfo, tr: Trace, i: nat)
    requires 1 <= info.numFats && Traced(info, tr) && i < |tr.path|
    ensures Zeroed(info, tr.disks[i], tr.disks[i + 1], tr.path[i])
    ensures i + 1 < |tr.path| ==> LeadsTo(info, tr.disks[i], tr.path[i], tr.path[i + 1])
  {
    hide Zeroed, LeadsTo;
    var n := |tr.path| - 1;
    if i < n {
      assert TraceStep(info, tr.disks[..n + 1][i], tr.disks[..n + 1][i + 1], tr.path[i], tr.path[i + 1]);
    }
  }

  /** Nothing but entry 0 of the copies has changed since `d`, and those are clear. */
  ghost predicate Quiet(info: BootSectorInfo, d: seq<Sector>, e: seq<Sector>) {
    && OnlyEntryZero(info, d, e)
    && forall n: nat :: info.fatStart <= n < |e| && Hit(info, n, 0, info.numFats) ==> EntryAt(e[n], 0) % MASK28 == 0
  }

  /** The first write of a freeing from entry 0. */
  lemma QuietStart(info: BootSectorInfo, d: seq<Sector>, e: seq<Sector>)
    requires Zeroed(info, d, e, 0) && |e| == |d|
    ensures Quiet(info, d, e)
  {
    hide EntryAt, Zeroed, Hit;
    forall n: nat, w: nat | info.fatStart <= n < |d| && w < ENTRIES_PER_SECTOR && !IsEntryZero(info, n, w)
      ensures EntryAt(e[n], w) == EntryAt(d[n], w)
    {
      ZeroedWord(info, d, e, 0, n, w);
    }
    forall n: nat | info.fatStart <= n < |e| && Hit(info, n, 0, info.numFats) ensures EntryAt(e[n], 0) % MASK28 == 0 {
      ZeroedWord(info, d, e, 0, n, 0);
    }
  }

  /** From then on it stays quiet as long as it only meets words that are clear. */
  lemma QuietOn(info: BootSectorInfo, d: seq<Sector>, e: seq<Sector>, e': seq<Sector>, c: nat, x: nat)
    requires Quiet(info, d, e) && Zeroed(info, e, e', c) && |e'| == |e| && (c == 0 || c == x) && !Struck(info, d, x)
    ensures Quiet(info, d, e')
  {
    hide EntryAt, Zeroed, Hit;
    forall n: nat, w: nat | info.fatStart <= n < |d| && w < ENTRIES_PER_SECTOR && !IsEntryZero(info, n, w)
      ensures EntryAt(e'[n], w) == EntryAt(d[n], w)
    {
      ZeroedWord(info, e, e', c, n, w);
      if w == c % ENTRIES_PER_SECTOR && Hit(info, n, c, info.numFats) { ClearIn(info, d, c, x, n); }
    }
    forall n: nat | info.fatStart <= n < |e'| && Hit(info, n, 0, info.numFats) ensures EntryAt(e'[n], 0) % MASK28 == 0 {
      ZeroedWord(info, e, e', c, n, 0);
    }
  }

  lemma ClearIn(info: BootSectorInfo, d: seq<Sector>, c: nat, x: nat, n: nat)
    requires Hit(info, n, c, info.numFats) && n < |d| && (c == 0 || c == x) && !Struck(info, d, x)
    ensures IsEntryZero(info, n, c % ENTRIES_PER_SECTOR) || EntryAt(d[n], c % ENTRIES_PER_SECTOR) % MASK28 == 0
  {
    hide EntryAt, FatSector;
    if c != 0 {
      var k :| 0 <= k < info.numFats && n == FatSector(info, k, c);
      assert !StruckIn(info, d, x, FatSector(info, k, x));
    }
  }

  /** ... and what it meets next is entry 0 again. */
  lemma QuietNext(info: BootSectorInfo, d: seq<Sector>, e: seq<Sector>, c: nat, x: nat, next: nat)
    requires 1 <= info.numFats && Quiet(info, d, e) && (c == 0 || c == x) && !Struck(info, d, x) && NextOf(info, e, c) == Some(next)
    ensures next == 0
  {
    hide EntryAt, Hit;
    var n := FatSector(info, 0, c);
    FirstCopyHit(info, c);
    ClearIn(info, d, c, x, n);
  }

  lemma FirstCopyHit(info: BootSectorInfo, c: nat)
    requires 1 <= info.numFats
    ensures Hit(info, FatSector(info, 0, c), c, info.numFats) && info.fatStart <= FatSector(info, 0, c)
  {
  }

  lemma {:induction false} QuietAt(info: BootSectorInfo, tr: Trace, x: nat, i: nat)
    requires 1 <= info.numFats && Traced(info, tr) && tr.path[0] == 0 && NextOf(info, tr.disks[0], 0) == Some(x) && 0 < i <= |tr.path|
    requires !Struck(info, tr.disks[0], x) && forall j :: 0 <= j <= |tr.path| ==> |tr.disks[j]| == |tr.disks[0]|
    ensures Quiet(info, tr.disks[0], tr.disks[i]) && (i < |tr.path| ==> tr.path[i] == 0 || tr.path[i] == x)
  {
    hide Zeroed, Quiet, Struck, NextOf, Traced;
    TraceShape(info, tr);
    ZeroedAt(info, tr, i - 1);
    if i == 1 {
      QuietStart(info, tr.disks[0], tr.disks[1]);
    } else {
      QuietAt(info, tr, x, i - 1);
      QuietOn(info, tr.disks[0], tr.disks[i - 1], tr.disks[i], tr.path[i - 1], x);
      if i < |tr.path| { QuietNext(info, tr.disks[0], tr.disks[i - 1], tr.path[i - 1], x, tr.path[i]); }
    }
  }

  lemma TraceShape(info: BootSectorInfo, tr: Trace)
    requires 1 <= info.numFats && Traced(info, tr)
    ensures 0 < |tr.path| && |tr.disks| == |tr.path| + 1
  {
  }

  lemma {:induction false} SameSize(info: BootSectorInfo, tr: Trace, i: nat)
    requires 1 <= info.numFats && Traced(info, tr) && i <= |tr.path|
    ensures |tr.disks[i]| == |tr.disks[0]|
  {
    hide Traced, LeadsTo, PatchedSector, Hit;
    TraceShape(info, tr);
    if 0 < i {
      SameSize(info, tr, i - 1);
      ZeroedAt(info, tr, i - 1);
    }
  }

  /** Where the walk goes on to a word that is not clear, that word is cleared for good. */
  lemma StruckCleared(info: BootSectorInfo, tr: Trace, x: nat, k: nat)
    requires 0 < |tr.disks| && info.Fits(|tr.disks[0]|) && 1 <= info.numFats && Traced(info, tr) && tr.path[0] == 0
    requires NextOf(info, tr.disks[0], 0) == Some(x) && !IsEndOfChain(x) && k < info.numFats
    requires StruckIn(info, tr.disks[0], x, FatSector(info, k, x))
    ensures var n, e := FatSector(info, k, x), tr.disks[|tr.path|];
      && n < |e| && EntryAt(e[n], x % ENTRIES_PER_SECTOR) % MASK28 == 0 && !OnlyEntryZero(info, tr.disks[0], e)
  {
    hide EntryAt, Zeroed, Traced, Hit, BootSectorInfo.Fits, IsEndOfChain, FatSector;
    TraceShape(info, tr);
    var d, n, w := tr.disks[0], FatSector(info, k, x), x % ENTRIES_PER_SECTOR;
    CopyHit(info, x, k);
    SecondStep(info, tr, x);
    SameSize(info, tr, 1);
    SameSize(info, tr, 2);
    ZeroedAt(info, tr, 1);
    ZeroedWord(info, tr.disks[1], tr.disks[2], x, n, w);
    ClearLater(info, tr, 2, n, w);
  }

  lemma CopyHit(info: BootSectorInfo, c: nat, k: nat)
    requires k < info.numFats
    ensures Hit(info, FatSector(info, k, c), c, info.numFats) && info.fatStart <= FatSector(info, k, c)
  {
  }

  lemma SomeEntries(info: BootSectorInfo, sectors: nat)
    requires info.Fits(sectors)
    ensures 0 < info.Entries()
  {
  }

  /** A freeing goes on from entry 0 to what entry 0 says. */
  lemma SecondStep(info: BootSectorInfo, tr: Trace, x: nat)
    requires 0 < |tr.disks| && info.Fits(|tr.disks[0]|) && 1 <= info.numFats && Traced(info, tr) && tr.path[0] == 0
    requires NextOf(info, tr.disks[0], 0) == Some(x) && !IsEndOfChain(x)
    ensures 1 < |tr.path| && tr.path[1] == x
  {
    hide NextOf, Zeroed, BootSectorInfo.Fits, FatSector;
    LayoutFacts(info, |tr.disks[0]|);
    SomeEntries(info, |tr.disks[0]|);
    FatSectorOnDisk(info, |tr.disks[0]|, info.numFats - 1, 0);
    assert LeadsTo(info, tr.disks[0], 0, x);
    if 1 < |tr.path| { ZeroedAt(info, tr, 0); }
  }

  /** Freeing a file that names no cluster changes nothing from the FATs on but entry 0 of the copies, exactly when
      entry 0 is an end mark or none of the words the driver takes for the entries of the cluster it
      names is on the disk, other than entry 0, and not clear. */
  lemma StrayFreeIff(info: BootSectorInfo, tr: Trace, d: seq<Sector>, d': seq<Sector>, ok: bool, x: nat)
    requires info.Fits(|d|) && 1 <= info.numFats && TraceDone(info, tr, d, d', 0, ok) && NextOf(info, d, 0) == Some(x)
    ensures OnlyEntryZero(info, d, d') <==> IsEndOfChain(x) || !Struck(info, d, x)
  {
    hide EntryAt, Zeroed, Traced, StruckIn, OnlyEntryZero, BootSectorInfo.Fits, IsEndOfChain, NextOf, FatSector;
    TraceShape(info, tr);
    if IsEndOfChain(x) {
      OneStep(info, tr, x);
      SameSize(info, tr, 1);
      ZeroedAt(info, tr, 0);
      QuietStart(info, d, d');
    } else if Struck(info, d, x) {
      var k :| 0 <= k < info.numFats && StruckIn(info, d, x, FatSector(info, k, x));
      StruckCleared(info, tr, x, k);
    } else {
      forall j | 0 <= j <= |tr.path| ensures |tr.disks[j]| == |d| { SameSize(info, tr, j); }
      QuietAt(info, tr, x, |tr.path|);
    }
  }

  lemma OneStep(info: BootSectorInfo, tr: Trace, x: nat)
    requires 1 <= info.numFats && Traced(info, tr) && tr.path[0] == 0 && NextOf(info, tr.disks[0], 0) == Some(x) && IsEndOfChain(x)
    ensures |tr.path| == 1
  {
    hide NextOf, Zeroed;
    if 1 < |tr.path| { ZeroedAt(info, tr, 0); }
  }

  // ----- what a quiet freeing keeps

  lemma SectorByWords(a: Sector, b: Sector)
    requires forall w: nat :: w < ENTRIES_PER_SECTOR ==> EntryAt(b, w) == EntryAt(a, w)
    ensures b == a
  {
    hide U32;
    forall i | 0 <= i < 512 ensures b[i] == a[i] {
      var w := i / 4;
      assert EntryAt(b, w) == EntryAt(a, w);
      U32Injective(b[4 * w..4 * w + 4], a[4 * w..4 * w + 4]);
      assert b[i] == b[4 * w..4 * w + 4][i - 4 * w] && a[i] == a[4 * w..4 * w + 4][i - 4 * w];
    }
  }

  /** A sector behind the FATs is as it was. */
  lemma DataSame(info: BootSectorInfo, d: seq<Sector>, e: seq<Sector>, n: nat)
    requires info.Fits(|d|) && OnlyEntryZero(info, d, e) && info.dataStart <= n < |d|
    ensures e[n] == d[n]
  {
    hide EntryAt, BootSectorInfo.Fits, FatSector;
    SomeEntries(info, |d|);
    LayoutFacts(info, |d|);
    FatSectorInDisk(info, |d|, 0, 0);
    forall w: nat | w < ENTRIES_PER_SECTOR ensures EntryAt(e[n], w) == EntryAt(d[n], w) {
      forall k | 0 <= k < info.numFats ensures n != FatSector(info, k, 0) { FatSectorInDisk(info, |d|, k, 0); }
    }
    SectorByWords(d[n], e[n]);
  }

  /** An entry other than entry 0 is as it was. */
  lemma LinkSame(info: BootSectorInfo, d: seq<Sector>, e: seq<Sector>, c: nat)
    requires info.Fits(|d|) && OnlyEntryZero(info, d, e) && 0 < c < info.Entries()
    ensures NextOf(info, e, c) == NextOf(info, d, c)
  {
    hide EntryAt, BootSectorInfo.Fits;
    var n, w := FatSector(info, 0, c), c % ENTRIES_PER_SECTOR;
    LayoutFacts(info, |d|);
    FatSectorInDisk(info, |d|, 0, c);
    forall k | 0 <= k < info.numFats && w == 0 ensures n != FatSector(info, k, 0) {
      if 0 < k { BlocksNext(0, k, info.fatSize); }
    }
  }

  /** A freeing from entry 0 that changes no other word keeps every chain and every file. */
  lemma QuietKeeps(info: BootSectorInfo, s: State, d: seq<Sector>, e: seq<Sector>, k: nat, x: nat, j: nat)
    requires info.Fits(|d|) && info.Fits(|e|) && s.v == ViewOf(info, d) && Sound(info, s) && OnlyEntryZero(info, d, e)
    requires k < |Root(info, s)| && x < info.sectorsPerCluster && j < SLOTS_PER_SECTOR && SlotIndex(info, k, x, j) < |AllSlots(info, s)|
    ensures Kept(info, s, ViewOf(info, e), s.own, SlotIndex(info, k, x, j))
  {
    hide Sound, ViewOf, AllSlots, SlotIndex, Kept, Elsewhere, Apart, OnlyEntryZero, BootSectorInfo.Fits, Root;
    QuietElsewhere(info, s, d, e);
    QuietApart(info, s, SlotIndex(info, k, x, j));
    KeptBefore(info, s, ViewOf(info, e), s.own, k, x, j, [0]);
  }

  lemma QuietApart(info: BootSectorInfo, s: State, q: nat)
    requires Sound(info, s)
    ensures Apart(info, s, s.own, q, [0])
  {
    hide Mirrored, Sized, AllSlots, Fat, IsChain, Head;
    NotOwned(info, s.v, s.own, 0);
  }

  lemma QuietElsewhere(info: BootSectorInfo, s: State, d: seq<Sector>, e: seq<Sector>)
    requires info.Fits(|d|) && info.Fits(|e|) && s.v == ViewOf(info, d) && OnlyEntryZero(info, d, e)
    ensures Elsewhere(info, s, ViewOf(info, e), [0])
  {
    hide ViewOf, BootSectorInfo.Fits, Fat, NextOf, EntryAt, IsEntryZero;
    var w := ViewOf(info, e);
    ViewWellFormed(info, d);
    ViewWellFormed(info, e);
    WellFormedFat(info, s.v);
    WellFormedFat(info, w);
    forall c | 0 <= c < |Fat(w)| && c !in [0] ensures Fat(w)[c] == Fat(s.v)[c] {
      assert c != 0;
      LinkSame(info, d, e, c);
      NextCovered(info, d, c);
      NextCovered(info, e, c);
    }
    forall c | 0 <= c < |w.clusters| ensures w.clusters[c] == s.v.clusters[c] { ClusterSame(info, d, e, c); }
  }

  lemma ClusterSame(info: BootSectorInfo, d: seq<Sector>, e: seq<Sector>, c: nat)
    requires info.Fits(|d|) && info.Fits(|e|) && OnlyEntryZero(info, d, e) && c < info.Entries()
    ensures ViewOf(info, e).clusters[c] == ViewOf(info, d).clusters[c]
  {
    hide BootSectorInfo.Fits, FatCopy, ClusterStart, BootSectorInfo.ClusterToSector, OnlyEntryZero;
    SameLength(info, d, e);
    ClusterLength(info, d, e, c);
    forall i | 0 <= i < |ViewOf(info, d).clusters[c]| ensures ViewOf(info, e).clusters[c][i] == ViewOf(info, d).clusters[c][i] {
      SectorOfCluster(info, d, c, i);
      SectorOfCluster(info, e, c, i);
      DataAbove(info, c);
      DataSame(info, d, e, ClusterStart(info, c) + i);
    }
  }

  lemma SameLength(info: BootSectorInfo, d: seq<Sector>, e: seq<Sector>)
    requires OnlyEntryZero(info, d, e)
    ensures |e| == |d|
  {
  }

  lemma DataAbove(info: BootSectorInfo, c: nat)
    requires 2 <= c
    ensures info.dataStart <= ClusterStart(info, c)
  {
  }

  // ----- a grow from entry 0

  /** Where the walk of a grow ends when entry 0 leads to a cluster `x` whose word the disk lacks, and when that word
      is an end mark. */
  lemma StrayWalk(info: BootSectorInfo, d: seq<Sector>, x: nat)
    requires NextOf(info, d, 0) == Some(x) && !IsEndOfChain(x)
    ensures NextOf(info, d, x).None? ==> WalkEnd(info, d, 0, WALK_CAP).None?
    ensures NextOf(info, d, x).Some? && IsEndOfChain(NextOf(info, d, x).value) ==> WalkEnd(info, d, 0, WALK_CAP) == Some(x)
  {
    hide NextOf, IsEndOfChain;
    assert WalkEnd(info, d, 0, WALK_CAP) == WalkEnd(info, d, x, WALK_CAP - 1);
  }

  /** The link of a grow changes nothing from the FATs on exactly when every word on the disk that the driver takes for
      an entry of `last` holds the link already. */
  lemma StrayLinkIff(info: BootSectorInfo, d: seq<Sector>, d': seq<Sector>, last: nat, n: nat)
    requires WordsWritten(info, d, d', last, n, info.numFats) && n < MASK28
    ensures SameAbove(info, d, d') <==>
      forall k :: 0 <= k < info.numFats && FatSector(info, k, last) < |d| ==>
        EntryAt(d[FatSector(info, k, last)], last % ENTRIES_PER_SECTOR) % MASK28 == n
  {
    hide EntryAt, FatSector, PatchedSector;
    if SameAbove(info, d, d') {
      forall k | 0 <= k < info.numFats && FatSector(info, k, last) < |d|
        ensures EntryAt(d[FatSector(info, k, last)], last % ENTRIES_PER_SECTOR) % MASK28 == n
      {
        CopyHit(info, last, k);
        PatchIsSame(d[FatSector(info, k, last)], last, n);
      }
    } else if forall k :: 0 <= k < info.numFats && FatSector(info, k, last) < |d| ==>
        EntryAt(d[FatSector(info, k, last)], last % ENTRIES_PER_SECTOR) % MASK28 == n {
      forall m: nat | info.fatStart <= m < |d| ensures d'[m] == d[m] { PatchIsSame(d[m], last, n); }
    }
  }

  lemma PatchIsSame(s: Sector, c: nat, n: nat)
    requires n < MASK28
    ensures PatchedSector(s, c, n) == s <==> EntryAt(s, c % ENTRIES_PER_SECTOR) % MASK28 == n
  {
    hide EntryAt, SetEntry, Patched;
    SameWord(s, c % ENTRIES_PER_SECTOR);
    PatchKeeps(EntryAt(s, c % ENTRIES_PER_SECTOR), n);
  }

  lemma PatchKeeps(raw: nat, n: nat)
    requires n < MASK28
    ensures Patched(raw, n) == raw <==> raw % MASK28 == n
  {
  }

  /** The words the driver takes for the entries of a cluster lie behind the copies they should be in exactly when the
      FAT does not cover it. */
  lemma BehindIff(info: BootSectorInfo, k: nat, c: nat)
    ensures info.fatStart + Blocks(k + 1, info.fatSize) <= FatSector(info, k, c) <==> info.Entries() <= c
  {
  }

  // ----- media type 0xF0

  const MEDIA_F0 := 0x0FFF_FFF0

  /** Entry 0 of a volume of media type 0xF0 is no end mark to the driver. Its words lie 0x1FFFFF sectors behind the
      start of each copy, outside the FAT: a disk that ends before has none of them, and deleting a file
      that names no cluster changes no other word; one that is longer and holds data there loses it. */
  lemma MediaF0(info: BootSectorInfo, tr: Trace, d: seq<Sector>, d': seq<Sector>, ok: bool)
    requires info.Fits(|d|) && 1 <= info.numFats && TraceDone(info, tr, d, d', 0, ok) && Fat(ViewOf(info, d))[0] == MEDIA_F0
    ensures info.Entries() <= MEDIA_F0 && !IsEndOfChain(MEDIA_F0)
    ensures var n := info.fatStart + 0x1F_FFFF;
      && (|d| <= n ==> OnlyEntryZero(info, d, d'))
      && (n < |d| && EntryAt(d[n], 112) % MASK28 != 0 ==>
            |d'| == |d| && !OnlyEntryZero(info, d, d') && EntryAt(d'[n], 112) % MASK28 == 0)
  {
    hide EntryAt, Zeroed, Traced, OnlyEntryZero, ViewOf, BootSectorInfo.Fits, NextOf, Fat;
    var n := info.fatStart + 0x1F_FFFF;
    WholeSectors(info, |d|);
    MediaPlace(info);
    SomeEntries(info, |d|);
    NextCovered(info, d, 0);
    StrayFreeIff(info, tr, d, d', ok, MEDIA_F0);
    TraceShape(info, tr);
    SameSize(info, tr, |tr.path|);
    if |d| <= n {
      forall k | 0 <= k < info.numFats ensures !StruckIn(info, d, MEDIA_F0, FatSector(info, k, MEDIA_F0)) { }
    } else if EntryAt(d[n], 112) % MASK28 != 0 {
      StruckCleared(info, tr, MEDIA_F0, 0);
    }
  }

  lemma MediaPlace(info: BootSectorInfo)
    ensures MEDIA_F0 % ENTRIES_PER_SECTOR == 112 && FatSector(info, 0, MEDIA_F0) == info.fatStart + 0x1F_FFFF
  {
  }

  /** The FAT ends with a sector. */
  lemma WholeSectors(info: BootSectorInfo, sectors: nat)
    requires info.Fits(sectors)
    ensures info.Entries() <= MEDIA_F0
  {
    assert info.Entries() % ENTRIES_PER_SECTOR == 0;
  }
}
