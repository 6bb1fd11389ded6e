/** The cluster allocator: FAT entry writes, the free-cluster scan and multi-cluster
    reservation with rollback, over a device that may fail. */
module FatAllocator {
  import opened Bytes
  import opened FatLayout
  import opened FatChains
  import opened Volume
  import opened BlockDevice
  import FsInfo

  /** The volume the device holds now. */
  ghost function Vol(dev: BlkDevice, info: BootSectorInfo): (v: View)
    requires info.Fits(|dev.disk|)
    reads dev`disk
    ensures WellFormed(info, v) && |Fat(v)| == info.Entries() <= MAX_ENTRIES
  {
    ViewWellFormed(info, dev.disk);
    ViewOf(info, dev.disk)
  }

  /** `x` has each of its four bytes from `a` or from `b`, and all from one of them if `whole`. */
  ghost predicate Mixed(a: nat, b: nat, x: nat, whole: bool) {
    && a < U32_LIMIT && b < U32_LIMIT && x < U32_LIMIT
    && (forall i :: 0 <= i < 4 ==> Le32(x)[i] == Le32(a)[i] || Le32(x)[i] == Le32(b)[i])
    && (whole ==> x == a || x == b)
  }

  lemma MixedBytes(a: seq<Byte>, b: seq<Byte>, x: seq<Byte>, whole: bool)
    requires |a| == |b| == |x| == 4 && forall i :: 0 <= i < 4 ==> x[i] == a[i] || x[i] == b[i]
    requires whole ==> x == a || x == b
    ensures Mixed(U32(a), U32(b), U32(x), whole)
  {
    hide U32, Le32;
    U32Injective(Le32(U32(a)), a);
    U32Injective(Le32(U32(b)), b);
    U32Injective(Le32(U32(x)), x);
  }

  /** A write torn inside a FAT entry leaves a mixture of the old bytes and the new. */
  lemma TornEntry(s: Sector, i: nat, raw: nat, applied: set<nat>, whole: bool)
    requires i < ENTRIES_PER_SECTOR && raw < U32_LIMIT && (whole ==> Aligned(applied))
    ensures var r := Torn(s, SetEntry(s, i, raw), applied);
      && Mixed(EntryAt(s, i), raw, EntryAt(r, i), whole)
      && r == SetEntry(s, i, EntryAt(r, i))
  {
    hide U32, Mixed, Le32;
    var t, r := SetEntry(s, i, raw), Torn(s, SetEntry(s, i, raw), applied);
    assert t == Splice(s, 4 * i, Le32(raw));
    var a, b, x := s[4 * i..4 * i + 4], t[4 * i..4 * i + 4], r[4 * i..4 * i + 4];
    assert forall m :: 0 <= m < 4 ==> a[m] == s[4 * i + m] && b[m] == t[4 * i + m] && x[m] == r[4 * i + m];
    if whole { TornWord(s, t, i, applied); }
    assert b == Le32(raw);
    MixedBytes(a, b, x, whole);
    U32Injective(Le32(U32(x)), x);
    assert r == Splice(s, 4 * i, x);
  }

  lemma TornWord(s: Sector, t: Sector, i: nat, applied: set<nat>)
    requires i < ENTRIES_PER_SECTOR && Aligned(applied)
    ensures var r := Torn(s, t, applied)[4 * i..4 * i + 4]; r == s[4 * i..4 * i + 4] || r == t[4 * i..4 * i + 4]
  {
    var b: nat := 4 * i;
    assert b / 4 == (b + 1) / 4 == (b + 2) / 4 == (b + 3) / 4;
    assert b + 1 in applied <==> b in applied;
    assert b + 2 in applied <==> b in applied;
    assert b + 3 in applied <==> b in applied;
    var x := Torn(s, t, applied)[4 * i..4 * i + 4];
    if 4 * i in applied { assert x == t[4 * i..4 * i + 4]; } else { assert x == s[4 * i..4 * i + 4]; }
  }

  /** Whatever happened to a write of entry `c`: data untouched, and the FAT readers consult differs at
      most in that entry, which holds a mixture of the old bytes and the new; the old entry or the new one
      if the device writes `whole` words. */
  ghost predicate EntryLeft(info: BootSectorInfo, v: View, d: seq<Sector>, c: nat, value: nat, whole: bool)
    requires WellFormed(info, v) && c < info.Entries()
  {
    && info.Fits(|d|)
    && ViewOf(info, d).clusters == v.clusters
    && exists x: nat :: Mixed(v.fats[0][c], Patched(v.fats[0][c], value), x, whole) && Fat(ViewOf(info, d)) == Fat(v)[c := x % MASK28]
  }

  /** So was every disk state the device passed through since the `from`-th write. */
  ghost predicate EntryLeftSince(info: BootSectorInfo, v: View, history: seq<seq<Sector>>, from: nat, c: nat, value: nat, whole: bool)
    requires WellFormed(info, v) && c < info.Entries()
  {
    forall t :: from <= t < |history| ==> EntryLeft(info, v, history[t], c, value, whole)
  }

  lemma LeftAs(info: BootSectorInfo, v: View, d: seq<Sector>, c: nat, value: nat, x: nat, whole: bool)
    requires WellFormed(info, v) && c < info.Entries() && info.Fits(|d|)
    requires ViewOf(info, d).clusters == v.clusters && ViewOf(info, d).fats != [] && ViewOf(info, d).fats[0] == v.fats[0][c := x]
    requires Mixed(v.fats[0][c], Patched(v.fats[0][c], value), x, whole)
    ensures EntryLeft(info, v, d, c, value, whole) && Fat(ViewOf(info, d)) == Fat(v)[c := x % MASK28]
  {
    hide ViewOf, Mixed, BootSectorInfo.Fits, Patched;
    assert Fat(ViewOf(info, d)) == Fat(v)[c := x % MASK28];
  }

  lemma MixedAll(a: nat, b: nat, whole: bool)
    requires a < U32_LIMIT && b < U32_LIMIT
    ensures Mixed(a, b, a, whole) && Mixed(a, b, b, whole)
  {
  }

  lemma RawEntry(info: BootSectorInfo, d: seq<Sector>, k: nat, c: nat)
    requires info.Fits(|d|) && k < info.numFats && c < info.Entries()
    ensures ViewOf(info, d).fats[k][c] < U32_LIMIT
  {
    FatSectorInDisk(info, |d|, k, c);
  }

  /** The first `k` copies written, the next one left as `x`. */
  lemma MirrorLeft(info: BootSectorInfo, v: View, d: seq<Sector>, k: nat, c: nat, value: nat, x: nat, whole: bool)
    requires WellFormed(info, v) && c < info.Entries() && info.Fits(|d|) && k < |v.fats| && v.fats[0][c] < U32_LIMIT
    requires Mixed(v.fats[k][c], Patched(v.fats[k][c], value), x, whole)
    requires ViewOf(info, d) == MirrorStep(v, k, c, value).WithEntry(k, c, x)
    ensures EntryLeft(info, v, d, c, value, whole)
    ensures Fat(ViewOf(info, d)) == Fat(v)[c := (if k == 0 then x else Patched(v.fats[0][c], value)) % MASK28]
  {
    hide ViewOf, Mixed, BootSectorInfo.Fits, Patched;
    MixedAll(v.fats[0][c], Patched(v.fats[0][c], value), whole);
    LeftAs(info, v, d, c, value, if k == 0 then x else Patched(v.fats[0][c], value), whole);
  }

  /** Every copy written. */
  lemma MirrorDone(info: BootSectorInfo, v: View, d: seq<Sector>, c: nat, value: nat, whole: bool)
    requires WellFormed(info, v) && c < info.Entries() && info.Fits(|d|) && v.fats[0][c] < U32_LIMIT
    requires ViewOf(info, d).fats == MirrorStep(v, |v.fats|, c, value).fats && ViewOf(info, d).clusters == v.clusters
    ensures EntryLeft(info, v, d, c, value, whole) && Fat(ViewOf(info, d)) == Fat(v)[c := value % MASK28]
  {
    hide ViewOf, Mixed, BootSectorInfo.Fits;
    MixedAll(v.fats[0][c], Patched(v.fats[0][c], value), whole);
    LeftAs(info, v, d, c, value, Patched(v.fats[0][c], value), whole);
  }

  /** The sector holding the entry of `c`, with the entry's low 28 bits replaced. */
  function PatchedSector(s: Sector, c: nat, value: nat): (r: Sector) {
    SetEntry(s, c % ENTRIES_PER_SECTOR, Patched(EntryAt(s, c % ENTRIES_PER_SECTOR), value))
  }

  /** Byte offsets of an entry: `c * 4` split into a sector and a place in it. */
  lemma EntryPlace(c: nat)
    ensures c * 4 % 512 == 4 * (c % ENTRIES_PER_SECTOR) && c * 4 / 512 == c / ENTRIES_PER_SECTOR
    ensures 4 * (c % ENTRIES_PER_SECTOR) + 4 <= 512
  {
  }

  /** One raw entry of one copy replaced, on the disk and in the view. */
  lemma RawWrite(info: BootSectorInfo, d: seq<Sector>, k: nat, c: nat, x: nat)
    requires info.Fits(|d|) && k < info.numFats && c < info.Entries() && x < U32_LIMIT
    ensures FatSector(info, k, c) < |d|
    ensures var n, v := FatSector(info, k, c), ViewOf(info, d);
      && EntryAt(d[n], c % ENTRIES_PER_SECTOR) == v.fats[k][c]
      && ViewOf(info, d[n := SetEntry(d[n], c % ENTRIES_PER_SECTOR, x)]) == v.WithEntry(k, c, x)
  {
    hide ClusterSectors, ClusterStart, EntryAt, SetEntry;
    FatSectorInDisk(info, |d|, k, c);
    WriteFatSector(info, d, k, c, x);
  }

  lemma FatSectorNumber(info: BootSectorInfo, k: nat, c: nat)
    requires info.bytesPerSector == 512
    ensures FatSector(info, k, c) == info.fatStart + info.fatSize * k + c * 4 / info.bytesPerSector
  {
    BlocksProduct(k, info.fatSize);
    EntryPlace(c);
  }

  /** What a patch of one entry leaves there: nothing new if the read fails, the patched entry if both requests
      work, and otherwise what the bytes that were applied make of it. */
  function EntryAfter(read: Service, write: Service, s: Sector, c: nat, value: nat): (x: nat) {
    var w := c % ENTRIES_PER_SECTOR;
    if read.Fails? then EntryAt(s, w)
    else if write.Works? then Patched(EntryAt(s, w), value)
    else EntryAt(Torn(s, PatchedSector(s, c, value), write.applied), w)
  }

  lemma SameWord(s: Sector, w: nat)
    requires w < ENTRIES_PER_SECTOR
    ensures SetEntry(s, w, EntryAt(s, w)) == s
  {
    FsInfo.SpliceSame(s, 4 * w);
  }

  /** What one patch does to the disk: the word of `c` in sector `n` becomes `x`, a mixture of its old and its
      patched bytes, and is patched if it succeeds. */
  ghost predicate PatchLeft(d: seq<Sector>, d': seq<Sector>, n: nat, c: nat, value: nat, ok: bool, x: nat, whole: bool) {
    if n < |d| then
      var w := c % ENTRIES_PER_SECTOR;
      var raw := EntryAt(d[n], w);
      Mixed(raw, Patched(raw, value), x, whole) && d' == d[n := SetEntry(d[n], w, x)] && (ok ==> x == Patched(raw, value))
    else !ok && d' == d
  }

  /** Reads the sector `n` that holds the entry of `cluster` in some copy, patches the entry's
      low 28 bits and writes the sector back; `x` is what the entry is left as. */
  method PatchFatCopy(dev: BlkDevice, n: nat, cluster: nat, value: nat)
    returns (ok: bool, existing: nat, ghost x: nat)
    modifies dev
    ensures |dev.disk| == |old(dev.disk)|
    ensures dev.history == old(dev.history) || dev.history == old(dev.history) + [dev.disk]
    ensures dev.history == old(dev.history) ==> dev.disk == old(dev.disk)
    ensures |dev.disk| <= n ==> dev.history == old(dev.history)
    ensures dev.clock == old(dev.clock) + if dev.script(old(dev.clock)).Works? && n < |dev.disk| then 2 else 1
    ensures dev.Reliable() && n < |dev.disk| ==> ok
    ensures ok ==> n < |dev.disk| && existing == EntryAt(old(dev.disk)[n], cluster % ENTRIES_PER_SECTOR)
    ensures PatchLeft(old(dev.disk), dev.disk, n, cluster, value, ok, x, dev.WholeWords())
    ensures n < |dev.disk| ==>
      && x == EntryAfter(dev.script(old(dev.clock)), dev.script(old(dev.clock) + 1), old(dev.disk)[n], cluster, value)
      && (ok <==> dev.script(old(dev.clock)).Works? && dev.script(old(dev.clock) + 1).Works?)
  {
    hide Mixed, Torn, BlkDevice.Reliable, BlkDevice.WholeWords, EntryAt, SetEntry, Patched;
    EntryPlace(cluster);
    var offset := cluster * 4 % SECTOR_SIZE;
    ghost var w := cluster % ENTRIES_PER_SECTOR;
    if n < |dev.disk| {
      var raw := EntryAt(dev.disk[n], w);
      MixedAll(raw, Patched(raw, value), dev.WholeWords());
      SameWord(dev.disk[n], w);
    }
    var sector := dev.ReadSector(n);
    if sector.None? {
      return false, 0, if n < |dev.disk| then EntryAt(dev.disk[n], w) else 0;
    }
    existing := EntryAt(sector.value, offset / 4);
    var patched := SetEntry(sector.value, offset / 4, Patched(existing, value));
    ghost var applied;
    ok, applied := dev.WriteSector(n, patched);
    if ok {
      x := Patched(existing, value);
    } else {
      TornEntry(sector.value, w, Patched(existing, value), applied, dev.WholeWords());
      x := EntryAt(Torn(sector.value, patched, applied), w);
    }
  }

  // ----- an entry write on the disk

  /** Sector `n` is where some copy has, or would have, the entry of `c`. */
  ghost predicate Hit(info: BootSectorInfo, n: nat, c: nat, copies: nat) {
    exists k :: 0 <= k < copies && n == FatSector(info, k, c)
  }

  /** From the FATs on, the disk differs from `d` in the words of `c` of the first `copies` copies, which are patched. */
  ghost predicate WordsWritten(info: BootSectorInfo, d: seq<Sector>, d': seq<Sector>, c: nat, value: nat, copies: nat) {
    && |d'| == |d|
    && forall n: nat :: info.fatStart <= n < |d| ==> d'[n] == if Hit(info, n, c, copies) then PatchedSector(d[n], c, value) else d[n]
  }

  /** ... or some of them are. */
  ghost predicate WordsPart(info: BootSectorInfo, d: seq<Sector>, d': seq<Sector>, c: nat, value: nat) {
    && |d'| == |d|
    && forall n: nat :: info.fatStart <= n < |d| ==> d'[n] == d[n] || (Hit(info, n, c, info.numFats) && d'[n] == PatchedSector(d[n], c, value))
  }

  ghost predicate WordsPartSince(info: BootSectorInfo, d: seq<Sector>, history: seq<seq<Sector>>, from: nat, c: nat, value: nat) {
    forall t :: from <= t < |history| ==> WordsPart(info, d, history[t], c, value)
  }

  lemma WordsNext(info: BootSectorInfo, d: seq<Sector>, e: seq<Sector>, c: nat, value: nat, k: nat)
    requires WordsWritten(info, d, e, c, value, k) && k < info.numFats && 1 <= info.fatSize && FatSector(info, k, c) < |d|
    ensures var n := FatSector(info, k, c);
      && e[n] == d[n] && WordsWritten(info, d, e[n := PatchedSector(d[n], c, value)], c, value, k + 1)
      && WordsPart(info, d, e[n := PatchedSector(d[n], c, value)], c, value)
  {
    hide PatchedSector;
    var n := FatSector(info, k, c);
    forall j | 0 <= j < k ensures FatSector(info, j, c) != n {
      BlocksNext(j, k, info.fatSize);
    }
    assert !Hit(info, n, c, k) && Hit(info, n, c, k + 1) && Hit(info, n, c, info.numFats);
    forall m: nat | info.fatStart <= m < |d| && m != n ensures Hit(info, m, c, k + 1) <==> Hit(info, m, c, k) {
    }
    forall m: nat | info.fatStart <= m < |d| && Hit(info, m, c, k + 1) ensures Hit(info, m, c, info.numFats) {
    }
  }

  /** Copies whose sector the disk does not have make no difference. */
  lemma WordsBeyond(info: BootSectorInfo, d: seq<Sector>, e: seq<Sector>, c: nat, value: nat, k: nat)
    requires WordsWritten(info, d, e, c, value, k) && k <= info.numFats && (k < info.numFats ==> |d| <= FatSector(info, k, c))
    ensures WordsWritten(info, d, e, c, value, info.numFats) && WordsPart(info, d, e, c, value)
  {
    hide PatchedSector;
    forall n: nat | info.fatStart <= n < |d| ensures Hit(info, n, c, info.numFats) <==> Hit(info, n, c, k) {
      if Hit(info, n, c, info.numFats) {
        var j :| 0 <= j < info.numFats && n == FatSector(info, j, c);
        if k < j { BlocksNext(k, j, info.fatSize); }
      }
    }
  }

  /** Only a sector below the FATs changed. */
  ghost predicate SameAbove(info: BootSectorInfo, d: seq<Sector>, d': seq<Sector>) {
    |d'| == |d| && forall n: nat :: info.fatStart <= n < |d| ==> d'[n] == d[n]
  }

  lemma WordsThen(info: BootSectorInfo, d: seq<Sector>, e: seq<Sector>, e': seq<Sector>, c: nat, value: nat)
    requires SameAbove(info, e, e')
    ensures WordsWritten(info, d, e, c, value, info.numFats) ==> WordsWritten(info, d, e', c, value, info.numFats)
    ensures WordsPart(info, d, e, c, value) ==> WordsPart(info, d, e', c, value)
  {
    hide PatchedSector;
  }

  /** The entry of `c` as the requests for copy 0 leave it. */
  ghost function CopyZeroAfter(dev: BlkDevice, info: BootSectorInfo, d: seq<Sector>, c: nat, value: nat, t: nat): (x: nat)
    requires info.Fits(|d|) && c < info.Entries()
  {
    FatSectorInDisk(info, |d|, 0, c);
    EntryAfter(dev.script(t), dev.script(t + 1), d[FatSector(info, 0, c)], c, value)
  }

  /** One copy patched, as the view has it. */
  lemma CopyPatched(info: BootSectorInfo, d: seq<Sector>, d': seq<Sector>, k: nat, c: nat, value: nat, ok: bool, x: nat, whole: bool)
    requires info.Fits(|d|) && k < info.numFats && c < info.Entries() && PatchLeft(d, d', FatSector(info, k, c), c, value, ok, x, whole)
    ensures FatSector(info, k, c) < |d| && info.Fits(|d'|) && ViewOf(info, d') == ViewOf(info, d).WithEntry(k, c, x)
    ensures var raw := ViewOf(info, d).fats[k][c];
      && raw == EntryAt(d[FatSector(info, k, c)], c % ENTRIES_PER_SECTOR)
      && Mixed(raw, Patched(raw, value), x, whole) && (ok ==> x == Patched(raw, value))
  {
    hide ViewOf, Patched, EntryAt, SetEntry, FatSector, BootSectorInfo.Fits;
    FatSectorOnDisk(info, |d|, k, c);
    MixedSmall(EntryAt(d[FatSector(info, k, c)], c % ENTRIES_PER_SECTOR), value, x, whole);
    RawWrite(info, d, k, c, x);
  }

  lemma FatSectorOnDisk(info: BootSectorInfo, sectors: nat, k: nat, c: nat)
    requires info.Fits(sectors) && k < info.numFats && c < info.Entries()
    ensures FatSector(info, k, c) < sectors
  {
    FatSectorInDisk(info, sectors, k, c);
  }

  lemma MixedSmall(a: nat, value: nat, x: nat, whole: bool)
    ensures Mixed(a, Patched(a, value), x, whole) ==> x < U32_LIMIT
  {
  }

  /** A copy that was patched in full is the patched sector. */
  lemma PatchDone(d: seq<Sector>, e: seq<Sector>, e': seq<Sector>, n: nat, c: nat, value: nat, x: nat, whole: bool)
    requires PatchLeft(e, e', n, c, value, true, x, whole) && n < |d| == |e| && e[n] == d[n]
    ensures e' == e[n := PatchedSector(d[n], c, value)]
  {
    hide Mixed;
  }

  lemma PatchMissed(d: seq<Sector>, d': seq<Sector>, n: nat, c: nat, value: nat, ok: bool, x: nat, whole: bool)
    requires PatchLeft(d, d', n, c, value, ok, x, whole) && |d| <= n
    ensures !ok && d' == d
  {
  }

  /** Writes the low 28 bits of `value` into the entry of `cluster` in one copy after the other, up to the first
      that fails. A cluster the FAT does not cover has its words where the copies would have them if they were
      longer. */
  method WriteCopies(dev: BlkDevice, info: BootSectorInfo, cluster: nat, value: nat) returns (ok: bool, previous: nat)
    requires info.Fits(|dev.disk|) && 4 * cluster < U32_LIMIT
    modifies dev
    ensures |dev.disk| == |old(dev.disk)| && old(dev.history) <= dev.history
    ensures dev.history == old(dev.history) ==> dev.disk == old(dev.disk)
    ensures |old(dev.history)| < |dev.history| ==> dev.history[|dev.history| - 1] == dev.disk
    ensures cluster < info.Entries() ==>
      var v := old(Vol(dev, info));
      && EntryLeft(info, v, dev.disk, cluster, value, dev.WholeWords())
      && EntryLeftSince(info, v, dev.history, |old(dev.history)|, cluster, value, dev.WholeWords())
      && (ok ==> previous == Fat(v)[cluster] && Vol(dev, info) == MirrorStep(v, info.numFats, cluster, value))
      && Fat(Vol(dev, info)) == Fat(v)[cluster := CopyZeroAfter(dev, info, old(dev.disk), cluster, value, old(dev.clock)) % MASK28]
      && (dev.script(old(dev.clock)).Fails? ==> !ok && dev.clock == old(dev.clock) + 1)
      && (dev.script(old(dev.clock)).Works? && dev.script(old(dev.clock) + 1).Fails? ==> !ok && dev.clock == old(dev.clock) + 2)
    ensures dev.Reliable() ==>
      && WordsWritten(info, old(dev.disk), dev.disk, cluster, value, info.numFats)
      && WordsPartSince(info, old(dev.disk), dev.history, |old(dev.history)|, cluster, value)
      && (ok <==> FatSector(info, info.numFats - 1, cluster) < |dev.disk|)
  {
    hide Mixed, ViewOf, Patched, EntryLeft, BlkDevice.Reliable, BlkDevice.WholeWords, BootSectorInfo.Fits, Fat, WellFormed, PatchLeft,
      PatchedSector, FatSector, EntryAt, EntryAfter, WordsUpTo, WordsWritten, WordsPart, CopyZeroAfter, WordsPartSince, EntryLeftSince,
      CopiesUpTo, MirrorStep, BootSectorInfo.Entries;
    ghost var v, d, whole, inside, reliable := Vol(dev, info), dev.disk, dev.WholeWords(), cluster < info.Entries(), dev.Reliable();
    ghost var from, at := |dev.history|, dev.clock;
    ghost var zero := if inside then CopyZeroAfter(dev, info, d, cluster, value, at) else 0;
    LayoutFacts(info, |d|);
    WordsStart(info, d, dev.history, cluster, value);
    if inside { CopiesStart(dev, info, d, dev.history, cluster, value, whole, zero, at); }
    previous := 0;
    var k := 0;
    while k < info.numFats
      invariant 0 <= k <= info.numFats && |dev.disk| == |d| && old(dev.history) <= dev.history
      invariant dev.history == old(dev.history) ==> dev.disk == d
      invariant from < |dev.history| ==> dev.history[|dev.history| - 1] == dev.disk
      invariant inside ==> CopiesUpTo(dev, info, v, dev.disk, dev.history, from, k, cluster, value, whole, zero, at)
      invariant inside && 0 < k ==> previous == Fat(v)[cluster]
      invariant k == 0 ==> dev.clock == at && dev.disk == d
      invariant reliable ==> WordsUpTo(info, d, dev.disk, dev.history, from, k, cluster, value)
    {
      ghost var e, hist := dev.disk, dev.history;
      FatSectorNumber(info, k, cluster);
      var n := info.fatStart + info.fatSize * k + cluster * 4 / info.bytesPerSector;
      if |d| <= n { if reliable { WordsStop(info, d, e, hist, from, k, cluster, value); } }
      if inside { FatSectorOnDisk(info, |d|, k, cluster); }
      if n >= U32_LIMIT {
        return false, previous;
      }
      var existing;
      ghost var x;
      ok, existing, x := PatchFatCopy(dev, n, cluster, value);
      if n < |d| {
        if reliable { WordsStep(info, d, e, dev.disk, hist, dev.history, from, k, cluster, value, x, whole); }
      } else {
        PatchMissed(e, dev.disk, n, cluster, value, ok, x, whole);
      }
      if inside { CopyStep(dev, info, v, d, e, dev.disk, hist, dev.history, from, k, cluster, value, ok, x, at, zero); }
      if !ok {
        return false, previous;
      }
      if k == 0 {
        previous := existing % MASK28;
      }
      k := k + 1;
    }
    if reliable { WordsStop(info, d, dev.disk, dev.history, from, k, cluster, value); }
    if inside { CopiesEnd(dev, info, v, dev.disk, dev.history, from, cluster, value, whole, zero, at); }
    ok := true;
  }

  /** The words of the first `k` copies patched, and at most theirs after every write. */
  ghost predicate WordsUpTo(info: BootSectorInfo, d: seq<Sector>, e: seq<Sector>, history: seq<seq<Sector>>, from: nat, k: nat, c: nat, value: nat) {
    && WordsWritten(info, d, e, c, value, k) && WordsPartSince(info, d, history, from, c, value)
    && (0 < k ==> FatSector(info, k - 1, c) < |d|)
  }

  lemma WordsStart(info: BootSectorInfo, d: seq<Sector>, history: seq<seq<Sector>>, c: nat, value: nat)
    ensures WordsUpTo(info, d, d, history, |history|, 0, c, value)
  {
    hide PatchedSector, FatSector;
    WordsNone(info, d, c, value);
  }

  lemma WordsStep(info: BootSectorInfo, d: seq<Sector>, e: seq<Sector>, e': seq<Sector>, history: seq<seq<Sector>>,
                  history': seq<seq<Sector>>, from: nat, k: nat, c: nat, value: nat, x: nat, whole: bool)
    requires WordsUpTo(info, d, e, history, from, k, c, value) && k < info.numFats && 1 <= info.fatSize && FatSector(info, k, c) < |d|
    requires PatchLeft(e, e', FatSector(info, k, c), c, value, true, x, whole) && (history' == history || history' == history + [e'])
    ensures WordsUpTo(info, d, e', history', from, k + 1, c, value)
  {
    hide PatchLeft, WordsWritten, WordsPart, PatchedSector;
    WordsLength(info, d, e, c, value, k);
    WordsNext(info, d, e, c, value, k);
    PatchDone(d, e, e', FatSector(info, k, c), c, value, x, whole);
  }

  lemma WordsLength(info: BootSectorInfo, d: seq<Sector>, e: seq<Sector>, c: nat, value: nat, k: nat)
    requires WordsWritten(info, d, e, c, value, k)
    ensures |e| == |d|
  {
  }

  lemma WordsStop(info: BootSectorInfo, d: seq<Sector>, e: seq<Sector>, history: seq<seq<Sector>>, from: nat, k: nat, c: nat, value: nat)
    requires WordsUpTo(info, d, e, history, from, k, c, value) && k <= info.numFats && 1 <= info.numFats
    requires k < info.numFats ==> |d| <= FatSector(info, k, c)
    ensures WordsWritten(info, d, e, c, value, info.numFats) && WordsPartSince(info, d, history, from, c, value)
    ensures k == info.numFats <==> FatSector(info, info.numFats - 1, c) < |d|
  {
    hide WordsWritten, WordsPart, WordsPartSince, FatSector;
    WordsBeyond(info, d, e, c, value, k);
    if k < info.numFats { SectorsAscend(info, k, c); }
  }

  /** The first `k` copies of an entry the FAT covers patched; `zero` is what copy 0 was left as. */
  ghost predicate CopiesUpTo(dev: BlkDevice, info: BootSectorInfo, v: View, d: seq<Sector>, history: seq<seq<Sector>>, from: nat, k: nat,
                             c: nat, value: nat, whole: bool, zero: nat, t: nat)
    requires c < info.Entries()
  {
    && WellFormed(info, v) && info.Fits(|d|) && ViewOf(info, d) == MirrorStep(v, k, c, value)
    && EntryLeftSince(info, v, history, from, c, value, whole)
    && (0 < k ==>
      && EntryLeft(info, v, d, c, value, whole) && Fat(ViewOf(info, d)) == Fat(v)[c := zero % MASK28]
      && dev.script(t).Works? && dev.script(t + 1).Works?)
  }

  lemma CopiesStart(dev: BlkDevice, info: BootSectorInfo, d: seq<Sector>, history: seq<seq<Sector>>, c: nat, value: nat, whole: bool, zero: nat,
                    t: nat)
    requires info.Fits(|d|) && c < info.Entries()
    ensures CopiesUpTo(dev, info, ViewOf(info, d), d, history, |history|, 0, c, value, whole, zero, t)
  {
    hide ViewOf;
    ViewWellFormed(info, d);
    MirrorNext(ViewOf(info, d), 0, c, value);
  }

  lemma CopiesEnd(dev: BlkDevice, info: BootSectorInfo, v: View, d: seq<Sector>, history: seq<seq<Sector>>, from: nat, c: nat, value: nat,
                  whole: bool, zero: nat, t: nat)
    requires 1 <= info.numFats && c < info.Entries() && CopiesUpTo(dev, info, v, d, history, from, info.numFats, c, value, whole, zero, t)
    ensures WellFormed(info, v) && info.Fits(|d|) && EntryLeftSince(info, v, history, from, c, value, whole)
    ensures ViewOf(info, d) == MirrorStep(v, info.numFats, c, value) && EntryLeft(info, v, d, c, value, whole)
    ensures Fat(ViewOf(info, d)) == Fat(v)[c := zero % MASK28] && dev.script(t).Works? && dev.script(t + 1).Works?
  {
    hide ViewOf, MirrorStep, EntryLeft, Fat, EntryLeftSince;
  }

  lemma LayoutFacts(info: BootSectorInfo, sectors: nat)
    requires info.Fits(sectors)
    ensures info.bytesPerSector == 512 && 1 <= info.fatSize && 1 <= info.numFats && sectors <= U32_LIMIT && info.fatStart <= sectors
  {
  }

  lemma WordsNone(info: BootSectorInfo, d: seq<Sector>, c: nat, value: nat)
    ensures WordsWritten(info, d, d, c, value, 0)
  {
    assert forall n: nat :: !Hit(info, n, c, 0);
  }

  lemma SectorsAscend(info: BootSectorInfo, k: nat, c: nat)
    requires k < info.numFats
    ensures FatSector(info, k, c) <= FatSector(info, info.numFats - 1, c)
  {
    if k < info.numFats - 1 { BlocksNext(k, info.numFats - 1, info.fatSize); }
  }

  /** One more copy of an entry the FAT covers. */
  lemma CopyStep(dev: BlkDevice, info: BootSectorInfo, v: View, d: seq<Sector>, e: seq<Sector>, e': seq<Sector>, history: seq<seq<Sector>>,
                 history': seq<seq<Sector>>, from: nat, k: nat, c: nat, value: nat, ok: bool, x: nat, t: nat, zero: nat)
    requires info.Fits(|d|) && |e| == |d| && v == ViewOf(info, d) && c < info.Entries() && k < info.numFats
    requires CopiesUpTo(dev, info, v, e, history, from, k, c, value, dev.WholeWords(), zero, t)
    requires PatchLeft(e, e', FatSector(info, k, c), c, value, ok, x, dev.WholeWords()) && (history' == history || history' == history + [e'])
    requires k == 0 ==>
      && e == d && FatSector(info, 0, c) < |d| && x == EntryAfter(dev.script(t), dev.script(t + 1), d[FatSector(info, 0, c)], c, value)
      && (ok ==> dev.script(t).Works? && dev.script(t + 1).Works?)
    requires zero == CopyZeroAfter(dev, info, d, c, value, t)
    ensures WellFormed(info, v) && info.Fits(|e'|) && EntryLeft(info, v, e', c, value, dev.WholeWords())
    ensures EntryLeftSince(info, v, history', from, c, value, dev.WholeWords())
    ensures ok ==> CopiesUpTo(dev, info, v, e', history', from, k + 1, c, value, dev.WholeWords(), zero, t)
    ensures 0 < k ==> dev.script(t).Works? && dev.script(t + 1).Works?
    ensures Fat(ViewOf(info, e')) == Fat(v)[c := zero % MASK28]
    ensures FatSector(info, 0, c) < |d| && Fat(v)[c] == EntryAt(d[FatSector(info, 0, c)], c % ENTRIES_PER_SECTOR) % MASK28
  {
    hide ViewOf, Mixed, BootSectorInfo.Fits, Patched, PatchLeft, FatSector, EntryAt, BlkDevice.WholeWords, EntryLeft, MirrorStep, EntryLeftSince;
    RawEntry(info, d, 0, c);
    CopyPatched(info, e, e', k, c, value, ok, x, dev.WholeWords());
    MirrorKept(info, v, k, c, value);
    MirrorNext(v, k, c, value);
    MirrorLeft(info, v, e', k, c, value, x, dev.WholeWords());
    FatSectorOnDisk(info, |d|, 0, c);
    RawWrite(info, d, 0, c, v.fats[0][c]);
    LeftSinceMore(info, v, history, history', e', from, c, value, dev.WholeWords());
  }

  lemma LeftSinceMore(info: BootSectorInfo, v: View, history: seq<seq<Sector>>, history': seq<seq<Sector>>, d: seq<Sector>, from: nat,
                      c: nat, value: nat, whole: bool)
    requires WellFormed(info, v) && c < info.Entries() && EntryLeftSince(info, v, history, from, c, value, whole)
    requires EntryLeft(info, v, d, c, value, whole) && (history' == history || history' == history + [d])
    ensures EntryLeftSince(info, v, history', from, c, value, whole)
  {
    hide EntryLeft, WellFormed;
  }

  lemma MirrorKept(info: BootSectorInfo, v: View, k: nat, c: nat, value: nat)
    requires WellFormed(info, v) && c < info.Entries() && k < info.numFats
    ensures |MirrorStep(v, k, c, value).fats| == |v.fats| && MirrorStep(v, k, c, value).fats[k] == v.fats[k]
  {
  }

  /** Writes the low 28 bits of `value` into the entry of `cluster` in every FAT copy and
      moves the FSInfo hint on a transition between free and used. When the device fails
      part-way, the FAT that readers consult differs in that entry at most, at every write in
      between, and is the old or the new one if the device writes whole words. Nothing checks that
      the FAT covers the cluster: if it does not, words elsewhere are written. */
  method WriteFatEntry(dev: BlkDevice, info: BootSectorInfo, cluster: nat, value: nat) returns (ok: bool)
    requires info.Fits(|dev.disk|)
    modifies dev
    ensures |dev.disk| == |old(dev.disk)| && old(dev.history) <= dev.history
    ensures dev.history == old(dev.history) ==> dev.disk == old(dev.disk)
    ensures |old(dev.history)| < |dev.history| ==> dev.history[|dev.history| - 1] == dev.disk
    ensures cluster < info.Entries() ==>
      var v := old(Vol(dev, info));
      && (dev.Reliable() ==> ok && Vol(dev, info) == WriteEntry(info, v, cluster, value))
      && EntryLeft(info, v, dev.disk, cluster, value, dev.WholeWords())
      && EntryLeftSince(info, v, dev.history, |old(dev.history)|, cluster, value, dev.WholeWords())
      && (ok ==> Fat(Vol(dev, info)) == Fat(v)[cluster := value % MASK28])
      && Fat(Vol(dev, info)) == Fat(v)[cluster := CopyZeroAfter(dev, info, old(dev.disk), cluster, value, old(dev.clock)) % MASK28]
      && (dev.script(old(dev.clock)).Fails? ==> !ok && dev.clock == old(dev.clock) + 1)
      && (dev.script(old(dev.clock)).Works? && dev.script(old(dev.clock) + 1).Fails? ==> !ok && dev.clock == old(dev.clock) + 2)
    ensures dev.Reliable() && 4 * cluster < U32_LIMIT ==>
      && WordsWritten(info, old(dev.disk), dev.disk, cluster, value, info.numFats)
      && WordsPartSince(info, old(dev.disk), dev.history, |old(dev.history)|, cluster, value)
      && (ok <==> FatSector(info, info.numFats - 1, cluster) < |dev.disk|)
    ensures U32_LIMIT <= 4 * cluster ==> !ok && dev.disk == old(dev.disk)
  {
    hide Mixed, ViewOf, Patched, EntryLeft, BlkDevice.Reliable, BlkDevice.WholeWords, BootSectorInfo.Fits, Fat, WellFormed, WordsWritten,
      WordsPart, FatSector, CopyZeroAfter, SameAbove, SameButReserved, MirrorStep, WriteEntry, FsInfo.Parse, FsInfo.Adjust;
    ghost var v, d, inside, reliable := Vol(dev, info), dev.disk, cluster < info.Entries(), dev.Reliable();
    LayoutFacts(info, |d|);
    if inside { CoveredSmall(info, |d|, cluster); FatSectorOnDisk(info, |d|, info.numFats - 1, cluster); }
    if cluster * 4 >= U32_LIMIT {
      return false;
    }
    var previous;
    ok, previous := WriteCopies(dev, info, cluster, value);
    if !ok {
      return false;
    }
    ghost var e, h := dev.disk, |dev.history|;
    var masked := value % MASK28;
    AboveSame(info, e);
    if previous == 0 && masked != 0 {
      AdjustFsInfoFreeCount(dev, info, -1);
    } else if previous != 0 && masked == 0 {
      AdjustFsInfoFreeCount(dev, info, 1);
    }
    if inside {
      EntryDone(info, v, d, e, dev.disk, cluster, value, dev.WholeWords());
      if reliable {
        ReservedSize(info, e);
        EntryFinished(info, v, e, dev.disk, cluster, value, previous);
      }
      forall t | |old(dev.history)| <= t < |dev.history| ensures EntryLeft(info, v, dev.history[t], cluster, value, dev.WholeWords()) {
        if h <= t { EntryDone(info, v, d, e, dev.history[t], cluster, value, dev.WholeWords()); }
      }
    }
    if reliable {
      WordsThen(info, d, e, dev.disk, cluster, value);
      WordsAll(info, d, e, cluster, value);
      forall t | |old(dev.history)| <= t < |dev.history| ensures WordsPart(info, d, dev.history[t], cluster, value) {
        if h <= t { WordsThen(info, d, e, dev.history[t], cluster, value); }
      }
    }
    return true;
  }

  lemma CoveredSmall(info: BootSectorInfo, sectors: nat, c: nat)
    requires info.Fits(sectors) && c < info.Entries()
    ensures 4 * c < U32_LIMIT
  {
  }

  lemma AboveSame(info: BootSectorInfo, d: seq<Sector>)
    requires info.Fits(|d|)
    ensures SameAbove(info, d, d) && SameButReserved(info, ViewOf(info, d), d)
  {
  }

  lemma WordsAll(info: BootSectorInfo, d: seq<Sector>, e: seq<Sector>, c: nat, value: nat)
    requires WordsWritten(info, d, e, c, value, info.numFats)
    ensures WordsPart(info, d, e, c, value)
  {
    hide PatchedSector;
  }

  lemma ReservedSize(info: BootSectorInfo, d: seq<Sector>)
    requires info.Fits(|d|)
    ensures info.fsInfoSector < |ViewOf(info, d).reserved|
  {
  }

  /** All copies written, and the FSInfo sector changed or not. */
  lemma EntryDone(info: BootSectorInfo, v: View, d: seq<Sector>, e: seq<Sector>, d': seq<Sector>, c: nat, value: nat, whole: bool)
    requires info.Fits(|d|) && v == ViewOf(info, d) && WellFormed(info, v) && c < info.Entries() && info.Fits(|e|)
    requires ViewOf(info, e) == MirrorStep(v, info.numFats, c, value) && SameButReserved(info, ViewOf(info, e), d')
    ensures info.Fits(|d'|) && EntryLeft(info, v, d', c, value, whole) && Fat(ViewOf(info, d')) == Fat(v)[c := value % MASK28]
    ensures Fat(ViewOf(info, d')) == Fat(ViewOf(info, e))
  {
    hide ViewOf, BootSectorInfo.Fits, EntryLeft;
    RawEntry(info, d, 0, c);
    MirrorDone(info, v, d', c, value, whole);
  }

  lemma EntryFinished(info: BootSectorInfo, v: View, e: seq<Sector>, d': seq<Sector>, c: nat, value: nat, previous: nat)
    requires WellFormed(info, v) && c < info.Entries() && info.Fits(|e|) && info.Fits(|d'|) && |Fat(v)| == info.Entries() && previous == Fat(v)[c]
    requires ViewOf(info, e) == MirrorStep(v, info.numFats, c, value)
    requires info.fsInfoSector < |ViewOf(info, e).reserved|
    requires var w, fs, masked := ViewOf(info, e), info.fsInfoSector, value % MASK28;
      ViewOf(info, d') == if previous == 0 && masked != 0 then w.WithReserved(fs, FsInfo.Adjust(w.reserved[fs], -1))
         else if previous != 0 && masked == 0 then w.WithReserved(fs, FsInfo.Adjust(w.reserved[fs], 1)) else w
    ensures ViewOf(info, d') == WriteEntry(info, v, c, value)
  {
    hide ViewOf, BootSectorInfo.Fits, FsInfo.Adjust, Fat;
    assert v.reserved[info.fsInfoSector := v.reserved[info.fsInfoSector]] == v.reserved;
  }

  /** Only the FSInfo sector can change; every state passed through differs from the
      initial one in that sector alone. */
  method AdjustFsInfoFreeCount(dev: BlkDevice, info: BootSectorInfo, delta: int)
    requires info.Fits(|dev.disk|) && (delta == -1 || delta == 1)
    modifies dev
    ensures |dev.disk| == |old(dev.disk)| && old(dev.history) <= dev.history
    ensures dev.Reliable() ==>
      var v, fs := old(Vol(dev, info)), info.fsInfoSector;
      Vol(dev, info) == v.WithReserved(fs, FsInfo.Adjust(v.reserved[fs], delta))
    ensures SameButReserved(info, old(Vol(dev, info)), dev.disk) && SameAbove(info, old(dev.disk), dev.disk)
    ensures forall t :: |old(dev.history)| <= t < |dev.history| ==>
      SameButReserved(info, old(Vol(dev, info)), dev.history[t]) && SameAbove(info, old(dev.disk), dev.history[t])
    ensures dev.history == old(dev.history) ==> dev.disk == old(dev.disk)
    ensures |old(dev.history)| < |dev.history| ==> dev.history[|dev.history| - 1] == dev.disk
  {
    hide FsInfo.Adjust, FsInfo.Hint, FsInfo.Parse, Torn, FatCopy, ClusterSectors;
    ghost var v := Vol(dev, info);
    FatsInDisk(info, |dev.disk|);
    var sector := dev.ReadSector(info.fsInfoSector);
    if sector.None? {
      return;
    }
    FsInfo.AdjustCount(sector.value, delta);
    if FsInfo.Hint(sector.value).None? {
      assert v.reserved[info.fsInfoSector := v.reserved[info.fsInfoSector]] == v.reserved;
      return;
    }
    var patched := FsInfo.Adjust(sector.value, delta);
    var ok, applied := dev.WriteSector(info.fsInfoSector, patched);
    WriteReserved(info, old(dev.disk), info.fsInfoSector, patched);
    WriteReserved(info, old(dev.disk), info.fsInfoSector, Torn(sector.value, patched, applied));
  }

  ghost predicate SameButReserved(info: BootSectorInfo, v: View, d: seq<Sector>) {
    info.Fits(|d|) && ViewOf(info, d).fats == v.fats && ViewOf(info, d).clusters == v.clusters
  }

  // ----- finding a free cluster

  ghost predicate IsFirstFree(fat: seq<nat>, c: nat) {
    && 2 <= c < |fat| && fat[c] == 0
    && forall x :: 2 <= x < c ==> fat[x] != 0
  }

  /** The first free cluster whose entry lies in this FAT sector, the `index`-th of its copy. */
  method FirstFreeClusterInFatSector(s: Sector, index: nat) returns (r: Option<nat>)
    requires (index + 1) * ENTRIES_PER_SECTOR <= U32_LIMIT
    ensures r.Some? ==>
      && 2 <= r.value && r.value / ENTRIES_PER_SECTOR == index
      && EntryAt(s, r.value % ENTRIES_PER_SECTOR) % MASK28 == 0
    ensures forall c :: 2 <= c && c / ENTRIES_PER_SECTOR == index && (r.None? || c < r.value) ==>
      EntryAt(s, c % ENTRIES_PER_SECTOR) % MASK28 != 0
  {
    var i := 0;
    while i < ENTRIES_PER_SECTOR
      invariant 0 <= i <= ENTRIES_PER_SECTOR
      invariant forall c :: 2 <= c && c / ENTRIES_PER_SECTOR == index && c % ENTRIES_PER_SECTOR < i ==>
        EntryAt(s, c % ENTRIES_PER_SECTOR) % MASK28 != 0
    {
      var cluster := index * ENTRIES_PER_SECTOR + i;
      if 2 <= cluster && EntryAt(s, i) % MASK28 == 0 {
        return Some(cluster);
      }
      i := i + 1;
    }
    return None;
  }

  lemma FatEntryOnDisk(info: BootSectorInfo, d: seq<Sector>, c: nat)
    requires info.Fits(|d|) && c < info.Entries()
    ensures info.fatStart + c / ENTRIES_PER_SECTOR < |d|
    ensures Fat(ViewOf(info, d))[c]
         == EntryAt(d[info.fatStart + c / ENTRIES_PER_SECTOR], c % ENTRIES_PER_SECTOR) % MASK28
  {
    hide BootSectorInfo.Fits, ClusterSectors, ClusterStart, EntryAt;
    ViewWellFormed(info, d);
    FatSectorInDisk(info, |d|, 0, c);
    assert FatSector(info, 0, c) == info.fatStart + c / ENTRIES_PER_SECTOR;
    assert ViewOf(info, d).fats[0][c] == FatCopy(info, d, 0)[c];
  }

  /** Scans FAT copy 0 from cluster 2 upward for the first entry that reads as free. */
  method AllocateFreeCluster(dev: BlkDevice, info: BootSectorInfo) returns (r: Option<nat>)
    requires info.Fits(|dev.disk|)
    modifies dev`clock
    ensures r.Some? ==> IsFirstFree(Fat(Vol(dev, info)), r.value)
    ensures dev.Reliable() && r.None? ==> FreeSet(Fat(Vol(dev, info))) == {}
  {
    hide ViewOf, Fat, BlkDevice.Reliable;
    ghost var fat := Fat(Vol(dev, info));
    var index := 0;
    while index < info.fatSize
      invariant 0 <= index <= info.fatSize
      invariant forall c :: 2 <= c < index * ENTRIES_PER_SECTOR ==> fat[c] != 0
    {
      FatEntryOnDisk(info, dev.disk, index * ENTRIES_PER_SECTOR);
      var sector := dev.ReadSector(info.fatStart + index);
      if sector.None? {
        return None;
      }
      forall c | 0 <= c < info.Entries() && c / ENTRIES_PER_SECTOR == index
        ensures fat[c] == EntryAt(sector.value, c % ENTRIES_PER_SECTOR) % MASK28
      {
        FatEntryOnDisk(info, dev.disk, c);
      }
      r := FirstFreeClusterInFatSector(sector.value, index);
      if r.Some? {
        return r;
      }
      index := index + 1;
    }
    return None;
  }

  // ----- several entries rewritten

  /** `raw'` is `raw` with the entry of each `cs[j]` patched to `vals[j]`, and nothing else changed. */
  ghost predicate Patching(raw: seq<nat>, raw': seq<nat>, cs: seq<nat>, vals: seq<nat>) {
    && |raw'| == |raw| && |vals| == |cs|
    && (forall j :: 0 <= j < |cs| ==> cs[j] < |raw| && raw'[cs[j]] == Patched(raw[cs[j]], vals[j]))
    && (forall c :: 0 <= c < |raw| && c !in cs ==> raw'[c] == raw[c])
  }

  lemma PatchingMore(raw: seq<nat>, raw': seq<nat>, cs: seq<nat>, vals: seq<nat>, c: nat, x: nat)
    requires Patching(raw, raw', cs, vals) && c < |raw| && c !in cs
    ensures Patching(raw, PatchedCopy(raw', c, x), cs + [c], vals + [x])
  {
  }

  lemma PatchingAgain(raw: seq<nat>, raw': seq<nat>, cs: seq<nat>, vals: seq<nat>, j: nat, x: nat)
    requires Patching(raw, raw', cs, vals) && Distinct(cs) && j < |cs|
    ensures Patching(raw, PatchedCopy(raw', cs[j], x), cs, vals[j := x])
  {
  }

  /** Every FAT copy has `cs` rewritten to `vals`, the hint moved by `taken` and `given`,
      and no data sector changed. */
  ghost predicate Rewritten(info: BootSectorInfo, v: View, w: View, cs: seq<nat>, vals: seq<nat>, taken: nat, given: nat)
    requires WellFormed(info, v)
  {
    && WellFormed(info, w)
    && w.clusters == v.clusters && w.tail == v.tail
    && (forall k :: 0 <= k < |v.fats| ==> Patching(v.fats[k], w.fats[k], cs, vals))
    && given < FsInfo.MAX_MOVES
    && w.reserved == v.WithReserved(info.fsInfoSector, FsInfo.Moved(v.reserved[info.fsInfoSector], taken, given)).reserved
  }

  lemma RewrittenFat(info: BootSectorInfo, v: View, w: View, cs: seq<nat>, vals: seq<nat>, taken: nat, given: nat)
    requires WellFormed(info, v) && Rewritten(info, v, w, cs, vals, taken, given)
    ensures |Fat(w)| == |Fat(v)| && |vals| == |cs|
    ensures forall j :: 0 <= j < |cs| ==> cs[j] < |Fat(v)| && Fat(w)[cs[j]] == vals[j] % MASK28
    ensures forall c :: 0 <= c < |Fat(v)| && c !in cs ==> Fat(w)[c] == Fat(v)[c]
  {
    assert Patching(v.fats[0], w.fats[0], cs, vals);
  }

  lemma RewrittenNone(info: BootSectorInfo, v: View)
    requires WellFormed(info, v)
    ensures Rewritten(info, v, v, [], [], 0, 0)
  {
    FsInfo.MovedNone(v.reserved[info.fsInfoSector]);
  }

  /** Reserving one more free cluster. */
  lemma RewrittenTake(info: BootSectorInfo, v: View, w: View, cs: seq<nat>, vals: seq<nat>, c: nat)
    requires WellFormed(info, v) && Rewritten(info, v, w, cs, vals, |cs|, 0)
    requires c < info.Entries() && c !in cs && Fat(v)[c] == 0
    ensures Rewritten(info, v, WriteEntry(info, w, c, EOC), cs + [c], vals + [EOC], |cs| + 1, 0)
  {
    hide WriteEntry, Fat, FsInfo.Moved, FsInfo.Adjust, Patched;
    RewrittenFat(info, v, w, cs, vals, |cs|, 0);
    WriteEntryParts(info, w, c, EOC);
    var w' := WriteEntry(info, w, c, EOC);
    forall k | 0 <= k < |v.fats| ensures Patching(v.fats[k], w'.fats[k], cs + [c], vals + [EOC]) {
      PatchingMore(v.fats[k], w.fats[k], cs, vals, c, EOC);
    }
    FsInfo.MovedDown(v.reserved[info.fsInfoSector], |cs|);
  }

  /** Relinking a reserved cluster: used before and after, so the hint stays. */
  lemma RewrittenLink(info: BootSectorInfo, v: View, w: View, cs: seq<nat>, vals: seq<nat>, taken: nat, j: nat, x: nat)
    requires WellFormed(info, v) && Rewritten(info, v, w, cs, vals, taken, 0) && Distinct(cs)
    requires j < |cs| == |vals| && vals[j] % MASK28 != 0 && x % MASK28 != 0
    ensures cs[j] < info.Entries() && Rewritten(info, v, WriteEntry(info, w, cs[j], x), cs, vals[j := x], taken, 0)
  {
    hide WriteEntry, Fat, FsInfo.Moved, FsInfo.Adjust, Patched;
    RewrittenFat(info, v, w, cs, vals, taken, 0);
    WellFormedFat(info, v);
    WriteEntryParts(info, w, cs[j], x);
    var w' := WriteEntry(info, w, cs[j], x);
    forall k | 0 <= k < |v.fats| ensures Patching(v.fats[k], w'.fats[k], cs, vals[j := x]) {
      PatchingAgain(v.fats[k], w.fats[k], cs, vals, j, x);
    }
  }

  /** Giving one reserved cluster back. */
  lemma RewrittenGive(info: BootSectorInfo, v: View, w: View, cs: seq<nat>, vals: seq<nat>, j: nat)
    requires WellFormed(info, v) && Distinct(cs) && j < |cs| == |vals| < FsInfo.MAX_MOVES
    requires Rewritten(info, v, w, cs, vals, |cs|, j) && vals[j] % MASK28 != 0
    ensures cs[j] < info.Entries() && Rewritten(info, v, WriteEntry(info, w, cs[j], 0), cs, vals[j := 0], |cs|, j + 1)
  {
    hide WriteEntry, Fat, FsInfo.Moved, FsInfo.Adjust, Patched;
    RewrittenFat(info, v, w, cs, vals, |cs|, j);
    WellFormedFat(info, v);
    WriteEntryParts(info, w, cs[j], 0);
    var w' := WriteEntry(info, w, cs[j], 0);
    forall k | 0 <= k < |v.fats| ensures Patching(v.fats[k], w'.fats[k], cs, vals[j := 0]) {
      PatchingAgain(v.fats[k], w.fats[k], cs, vals, j, 0);
    }
    FsInfo.MovedUp(v.reserved[info.fsInfoSector], |cs|, j);
  }

  // ----- multi-cluster allocation

  /** Whatever state a reservation was interrupted in: no data sector has changed, and every
      entry that was in use reads as before. */
  ghost predicate UsedKept(info: BootSectorInfo, v: View, d: seq<Sector>)
    requires WellFormed(info, v)
  {
    && info.Fits(|d|)
    && var w := ViewOf(info, d);
    && w.clusters == v.clusters
    && forall c :: 0 <= c < |Fat(v)| && Fat(v)[c] != 0 ==> Fat(w)[c] == Fat(v)[c]
  }

  /** So it is now, and so it was after every write since the `from`-th. */
  ghost predicate KeptSince(dev: BlkDevice, info: BootSectorInfo, v: View, from: nat)
    requires WellFormed(info, v)
    reads dev`disk, dev`history
  {
    && UsedKept(info, v, dev.disk)
    && forall t :: from <= t < |dev.history| ==> UsedKept(info, v, dev.history[t])
  }

  lemma UsedKeptStep(info: BootSectorInfo, v: View, d: seq<Sector>, d': seq<Sector>, c: nat, value: nat, whole: bool)
    requires WellFormed(info, v) && UsedKept(info, v, d) && c < info.Entries() && Fat(v)[c] == 0
    requires WellFormed(info, ViewOf(info, d)) && EntryLeft(info, ViewOf(info, d), d', c, value, whole)
    ensures UsedKept(info, v, d')
  {
  }

  lemma KeptFromHere(dev: BlkDevice, info: BootSectorInfo)
    requires info.Fits(|dev.disk|)
    ensures KeptSince(dev, info, Vol(dev, info), |dev.history|)
  {
  }

  /** Rewrites the entry of a cluster that was free in `v`, keeping everything that was in use. */
  method WriteFreeEntry(dev: BlkDevice, info: BootSectorInfo, cluster: nat, value: nat, ghost v: View, ghost from: nat)
    returns (ok: bool)
    requires info.Fits(|dev.disk|) && cluster < info.Entries()
    requires WellFormed(info, v) && |Fat(v)| == info.Entries() && Fat(v)[cluster] == 0
    requires KeptSince(dev, info, v, from) && from <= |dev.history|
    modifies dev
    ensures |dev.disk| == |old(dev.disk)| && old(dev.history) <= dev.history
    ensures dev.Reliable() ==> ok && Vol(dev, info) == WriteEntry(info, old(Vol(dev, info)), cluster, value)
    ensures ok ==> Fat(Vol(dev, info)) == Fat(old(Vol(dev, info)))[cluster := value % MASK28]
    ensures KeptSince(dev, info, v, from)
    ensures dev.Reliable() ==> HintStays(info, old(Vol(dev, info)), Vol(dev, info))
  {
    hide WriteEntry, WellFormed, BootSectorInfo.Fits, UsedKept, EntryLeft, HintStays;
    ok := WriteFatEntry(dev, info, cluster, value);
    if dev.Reliable() { OneWriteHint(info, old(Vol(dev, info)), cluster, value); }
    ghost var before := old(dev.disk);
    UsedKeptStep(info, v, before, dev.disk, cluster, value, dev.WholeWords());
    forall t | from <= t < |dev.history| ensures UsedKept(info, v, dev.history[t]) {
      if |old(dev.history)| <= t {
        UsedKeptStep(info, v, before, dev.history[t], cluster, value, dev.WholeWords());
      } else {
        assert dev.history[t] == old(dev.history)[t];
      }
    }
  }

  function Copies(n: nat, x: nat): (s: seq<nat>)
    ensures |s| == n && forall i :: 0 <= i < n ==> s[i] == x
  {
    seq(n, i => x)
  }

  function LinkValues(cs: seq<nat>): (s: seq<nat>)
    ensures |s| == |cs| && forall i :: 0 <= i < |cs| ==> s[i] == LinkOf(cs, i)
  {
    seq(|cs|, i requires 0 <= i < |cs| => LinkOf(cs, i))
  }

  /** Frees every cluster in `cs` as far as the device lets it: the rollback of a reservation. */
  method FreeClusters(dev: BlkDevice, info: BootSectorInfo, cs: seq<nat>, ghost v: View, ghost from: nat)
    requires info.Fits(|dev.disk|) && WellFormed(info, v) && KeptSince(dev, info, v, from) && from <= |dev.history|
    requires SmallestFree(Fat(v), cs)
    requires dev.Reliable() ==> Rewritten(info, v, Vol(dev, info), cs, Copies(|cs|, EOC), |cs|, 0)
    requires dev.Reliable() ==> HintStays(info, v, Vol(dev, info))
    modifies dev
    ensures |dev.disk| == |old(dev.disk)| && old(dev.history) <= dev.history
    ensures KeptSince(dev, info, v, from)
    ensures dev.Reliable() ==>
      |cs| < FsInfo.MAX_MOVES && Rewritten(info, v, Vol(dev, info), cs, Copies(|cs|, 0), |cs|, |cs|)
    ensures dev.Reliable() ==> HintStays(info, v, Vol(dev, info))
  {
    hide HintStays, Rewritten, KeptSince, Vol, WriteEntry, WellFormed, BootSectorInfo.Fits, SmallestFree, BlkDevice.Reliable;
    AscendingBounded(Fat(v), cs);
    WellFormedFat(info, v);
    var i := 0;
    ghost var vals := Copies(|cs|, EOC);
    while i < |cs|
      invariant 0 <= i <= |cs| == |vals|
      invariant |dev.disk| == |old(dev.disk)| && old(dev.history) <= dev.history
      invariant KeptSince(dev, info, v, from)
      invariant forall j :: 0 <= j < |cs| ==> vals[j] == if j < i then 0 else EOC
      invariant dev.Reliable() ==> Rewritten(info, v, Vol(dev, info), cs, vals, |cs|, i) && HintStays(info, v, Vol(dev, info))
    {
      if dev.Reliable() {
        RewrittenGive(info, v, Vol(dev, info), cs, vals, i);
      }
      ghost var u := Vol(dev, info);
      var _ := WriteFreeEntry(dev, info, cs[i], 0, v, from);
      if dev.Reliable() { HintStaysThrough(info, v, u, Vol(dev, info)); }
      vals := vals[i := 0];
      i := i + 1;
    }
    assert vals == Copies(|cs|, 0);
  }

  lemma AscendingBounded(fat: seq<nat>, cs: seq<nat>)
    requires SmallestFree(fat, cs)
    ensures |cs| <= |fat| && Distinct(cs)
    ensures forall i :: 0 <= i < |cs| ==> 2 <= cs[i] < |fat| && fat[cs[i]] == 0
  {
    AscendingAtLeast(cs, |cs|);
  }

  lemma {:induction false} AscendingAtLeast(cs: seq<nat>, n: nat)
    requires n <= |cs| && forall i, j :: 0 <= i < j < |cs| ==> cs[i] < cs[j]
    ensures 0 < n ==> n - 1 <= cs[n - 1]
  {
    if 1 < n {
      AscendingAtLeast(cs, n - 1);
    }
  }

  /** The first free cluster after reserving the smallest ones is the next smallest. */
  lemma SmallestFreeNext(fat: seq<nat>, fat': seq<nat>, cs: seq<nat>, c: nat)
    requires SmallestFree(fat, cs) && |fat'| == |fat|
    requires forall x :: 0 <= x < |fat| ==> fat'[x] == if x in cs then EOC else fat[x]
    requires IsFirstFree(fat', c)
    ensures SmallestFree(fat, cs + [c]) && c !in cs
  {
  }

  /** Every cluster of `cs` is reserved as its own end of chain. */
  ghost predicate Reserved(fat: seq<nat>, fat': seq<nat>, cs: seq<nat>) {
    |fat'| == |fat| && forall x :: 0 <= x < |fat| ==> fat'[x] == if x in cs then EOC else fat[x]
  }

  ghost predicate TakesAll(fat: seq<nat>, cs: seq<nat>) {
    forall c :: 2 <= c < |fat| && fat[c] == 0 ==> c in cs
  }

  lemma NoneLeft(fat: seq<nat>, fat': seq<nat>, cs: seq<nat>)
    requires Reserved(fat, fat', cs) && FreeSet(fat') == {}
    ensures TakesAll(fat, cs)
  {
    forall c | 2 <= c < |fat| && fat[c] == 0 ensures c in cs {
      assert c !in FreeSet(fat');
    }
  }

  /** What exhaustion leaves: the low 28 bits of every entry that was free are zero in every
      copy, and the hint went down and up by the number of free clusters. */
  ghost predicate RolledBack(info: BootSectorInfo, v: View, w: View)
    requires WellFormed(info, v)
  {
    && WellFormed(info, w) && w.clusters == v.clusters && w.tail == v.tail
    && (forall k, c :: 0 <= k < |v.fats| && 0 <= c < info.Entries() ==>
          w.fats[k][c] == if 2 <= c && Fat(v)[c] == 0 then Patched(v.fats[k][c], 0) else v.fats[k][c])
    && var n := |FreeSet(Fat(v))|;
    && n < FsInfo.MAX_MOVES
    && w.reserved == v.WithReserved(info.fsInfoSector, FsInfo.Moved(v.reserved[info.fsInfoSector], n, n)).reserved
  }

  lemma Exhausted(info: BootSectorInfo, v: View, w: View, cs: seq<nat>)
    requires WellFormed(info, v) && SmallestFree(Fat(v), cs) && TakesAll(Fat(v), cs)
    requires |cs| < FsInfo.MAX_MOVES && Rewritten(info, v, w, cs, Copies(|cs|, 0), |cs|, |cs|)
    ensures RolledBack(info, v, w) && |FreeSet(Fat(v))| == |cs|
  {
    SmallestFreeSize(Fat(v), cs);
    forall k, c | 0 <= k < |v.fats| && 0 <= c < info.Entries()
      ensures w.fats[k][c] == if 2 <= c && Fat(v)[c] == 0 then Patched(v.fats[k][c], 0) else v.fats[k][c]
    {
      assert Patching(v.fats[k], w.fats[k], cs, Copies(|cs|, 0));
      if c in cs {
        var j :| 0 <= j < |cs| && cs[j] == c;
      }
    }
  }

  /** The second pass: every reserved cluster is pointed at its successor. */
  method LinkClusters(dev: BlkDevice, info: BootSectorInfo, cs: seq<nat>, ghost v: View, ghost from: nat) returns (ok: bool)
    requires info.Fits(|dev.disk|) && WellFormed(info, v) && KeptSince(dev, info, v, from) && from <= |dev.history|
    requires SmallestFree(Fat(v), cs) && Reserved(Fat(v), Fat(Vol(dev, info)), cs)
    requires dev.Reliable() ==> Rewritten(info, v, Vol(dev, info), cs, Copies(|cs|, EOC), |cs|, 0)
    requires dev.Reliable() ==> HintStays(info, v, Vol(dev, info))
    modifies dev
    ensures |dev.disk| == |old(dev.disk)| && old(dev.history) <= dev.history
    ensures KeptSince(dev, info, v, from)
    ensures ok ==> Linked(Fat(v), Fat(Vol(dev, info)), cs)
    ensures dev.Reliable() ==> ok && Rewritten(info, v, Vol(dev, info), cs, LinkValues(cs), |cs|, 0)
    ensures dev.Reliable() ==> HintStays(info, v, Vol(dev, info))
  {
    hide HintStays, Rewritten, KeptSince, Vol, WriteEntry, WellFormed, BootSectorInfo.Fits, SmallestFree, BlkDevice.Reliable,
      LinkedTo, Linked, Reserved, PartLinks, Copies, LinkValues, LinkOf;
    AscendingBounded(Fat(v), cs);
    WellFormedFat(info, v);
    PartLinksEnds(cs);
    LinkedToStart(Fat(v), Fat(Vol(dev, info)), cs);
    var i := 0;
    while i < |cs|
      invariant 0 <= i <= |cs|
      invariant |dev.disk| == |old(dev.disk)| && old(dev.history) <= dev.history
      invariant KeptSince(dev, info, v, from)
      invariant LinkedTo(Fat(v), Fat(Vol(dev, info)), cs, PartLinks(cs, i))
      invariant dev.Reliable() ==> Rewritten(info, v, Vol(dev, info), cs, PartLinks(cs, i), |cs|, 0) && HintStays(info, v, Vol(dev, info))
    {
      PartLinksStep(Fat(v), cs, i);
      ghost var u := Vol(dev, info);
      if dev.Reliable() { RewrittenLink(info, v, u, cs, PartLinks(cs, i), |cs|, i, LinkOf(cs, i)); }
      LinkedToStep(Fat(v), Fat(u), cs, PartLinks(cs, i), i, LinkOf(cs, i));
      ok := WriteFreeEntry(dev, info, cs[i], LinkOf(cs, i), v, from);
      if dev.Reliable() { HintStaysThrough(info, v, u, Vol(dev, info)); }
      if !ok {
        FreeClusters(dev, info, cs, v, from);
        return false;
      }
      i := i + 1;
    }
    LinkedToEnd(Fat(v), Fat(Vol(dev, info)), cs, PartLinks(cs, i));
    return true;
  }

  /** The entries of `cs` when the first `i` are linked and the others still end their own chains. */
  function PartLinks(cs: seq<nat>, i: nat): (vals: seq<nat>)
    ensures |vals| == |cs|
  {
    seq(|cs|, j requires 0 <= j < |cs| => if j < i then LinkOf(cs, j) else EOC)
  }

  lemma PartLinksEnds(cs: seq<nat>)
    ensures PartLinks(cs, 0) == Copies(|cs|, EOC) && PartLinks(cs, |cs|) == LinkValues(cs)
  {
  }

  lemma PartLinksStep(fat: seq<nat>, cs: seq<nat>, i: nat)
    requires i < |cs| && |fat| <= MAX_ENTRIES && forall j :: 0 <= j < |cs| ==> 2 <= cs[j] < |fat|
    ensures PartLinks(cs, i + 1) == PartLinks(cs, i)[i := LinkOf(cs, i)]
    ensures PartLinks(cs, i)[i] % MASK28 != 0 && LinkOf(cs, i) % MASK28 == LinkOf(cs, i) != 0
  {
  }

  /** Like `Linked`, with the values the entries of `cs` have at this point. */
  ghost predicate LinkedTo(fat: seq<nat>, fat': seq<nat>, cs: seq<nat>, vals: seq<nat>) {
    && |fat'| == |fat| && |vals| == |cs|
    && (forall j :: 0 <= j < |cs| ==> cs[j] < |fat| && fat'[cs[j]] == vals[j])
    && (forall c :: 0 <= c < |fat| && c !in cs ==> fat'[c] == fat[c])
  }

  lemma LinkedToStart(fat: seq<nat>, fat': seq<nat>, cs: seq<nat>)
    requires Reserved(fat, fat', cs) && forall j :: 0 <= j < |cs| ==> cs[j] < |fat|
    ensures LinkedTo(fat, fat', cs, Copies(|cs|, EOC))
  {
  }

  lemma LinkedToEnd(fat: seq<nat>, fat': seq<nat>, cs: seq<nat>, vals: seq<nat>)
    requires LinkedTo(fat, fat', cs, vals) && vals == LinkValues(cs)
    ensures Linked(fat, fat', cs)
  {
    forall i | 0 <= i < |cs| ensures PointsOn(fat', cs, i) {
      assert vals[i] == LinkOf(cs, i);
    }
  }

  lemma LinkedToStep(fat: seq<nat>, fat': seq<nat>, cs: seq<nat>, vals: seq<nat>, i: nat, x: nat)
    requires LinkedTo(fat, fat', cs, vals) && Distinct(cs) && i < |cs|
    ensures LinkedTo(fat, fat'[cs[i] := x], cs, vals[i := x])
  {
  }

  lemma ReservedNone(fat: seq<nat>)
    ensures SmallestFree(fat, []) && Reserved(fat, fat, [])
  {
  }

  lemma ReservedNext(fat: seq<nat>, fat': seq<nat>, cs: seq<nat>, c: nat)
    requires SmallestFree(fat, cs) && Reserved(fat, fat', cs) && IsFirstFree(fat', c)
    ensures c < |fat'| && fat[c] == 0 && c !in cs
    ensures SmallestFree(fat, cs + [c]) && Reserved(fat, fat'[c := EOC], cs + [c])
  {
    SmallestFreeNext(fat, fat', cs, c);
  }

  /** The first pass: finds and marks one free cluster after another, and frees them all
      again when there are not enough. */
  method ReserveClusters(dev: BlkDevice, info: BootSectorInfo, count: nat, out: array<nat>, ghost v: View, ghost from: nat)
    returns (ok: bool)
    requires info.Fits(|dev.disk|) && WellFormed(info, v) && v == Vol(dev, info)
    requires KeptSince(dev, info, v, from) && from <= |dev.history| && count <= out.Length
    modifies dev, out
    ensures |dev.disk| == |old(dev.disk)| && old(dev.history) <= dev.history
    ensures KeptSince(dev, info, v, from)
    ensures ok ==> SmallestFree(Fat(v), out[..count]) && Reserved(Fat(v), Fat(Vol(dev, info)), out[..count])
    ensures dev.Reliable() && ok ==> Rewritten(info, v, Vol(dev, info), out[..count], Copies(count, EOC), count, 0)
    ensures dev.Reliable() && !ok ==> RolledBack(info, v, Vol(dev, info)) && |FreeSet(Fat(v))| < count
    ensures dev.Reliable() ==> HintStays(info, v, Vol(dev, info))
  {
    hide HintStays, Rewritten, KeptSince, Vol, WriteEntry, WellFormed, RolledBack, BootSectorInfo.Fits, SmallestFree, Reserved,
      BlkDevice.Reliable, IsFirstFree, FreeSet, TakesAll;
    RewrittenNone(info, v);
    ReservedNone(Fat(v));
    WellFormedFat(info, v);
    HintStaysSame(info, v, v);
    var reserved := 0;
    assert out[..0] == [] == Copies(0, EOC);
    while reserved < count
      invariant 0 <= reserved <= count
      invariant |dev.disk| == |old(dev.disk)| && old(dev.history) <= dev.history
      invariant KeptSince(dev, info, v, from)
      invariant SmallestFree(Fat(v), out[..reserved])
      invariant Reserved(Fat(v), Fat(Vol(dev, info)), out[..reserved])
      invariant dev.Reliable() ==> Rewritten(info, v, Vol(dev, info), out[..reserved], Copies(reserved, EOC), reserved, 0)
      invariant dev.Reliable() ==> HintStays(info, v, Vol(dev, info))
    {
      ghost var cs := out[..reserved];
      var cluster := AllocateFreeCluster(dev, info);
      if cluster.None? {
        assert dev.Reliable() ==> TakesAll(Fat(v), cs) by {
          if dev.Reliable() { NoneLeft(Fat(v), Fat(Vol(dev, info)), cs); }
        }
        FreeClusters(dev, info, out[..reserved], v, from);
        if dev.Reliable() { Exhausted(info, v, Vol(dev, info), cs); }
        return false;
      }
      ReservedNext(Fat(v), Fat(Vol(dev, info)), cs, cluster.value);
      if dev.Reliable() {
        RewrittenTake(info, v, Vol(dev, info), cs, Copies(reserved, EOC), cluster.value);
      }
      ghost var u := Vol(dev, info);
      ok := WriteFreeEntry(dev, info, cluster.value, EOC, v, from);
      if dev.Reliable() { HintStaysThrough(info, v, u, Vol(dev, info)); }
      if !ok {
        FreeClusters(dev, info, out[..reserved], v, from);
        return false;
      }
      out[reserved] := cluster.value;
      reserved := reserved + 1;
      assert out[..reserved] == cs + [cluster.value];
      assert Copies(reserved, EOC) == Copies(reserved - 1, EOC) + [EOC];
    }
    return true;
  }

  /** Allocates `count` linked clusters in one call. `out[..count]` receives them in chain
      order. With a device that serves every request the call succeeds exactly when that many
      clusters are free, takes the smallest, and otherwise undoes all it did; with any other
      device no entry in use and no data sector is ever disturbed, at any write. */
  method AllocateClusterChain(dev: BlkDevice, info: BootSectorInfo, count: nat, out: array<nat>) returns (ok: bool)
    requires info.Fits(|dev.disk|)
    modifies dev, out
    ensures |dev.disk| == |old(dev.disk)| && old(dev.history) <= dev.history
    ensures ok ==>
      && 1 <= count <= out.Length
      && SmallestFree(Fat(old(Vol(dev, info))), out[..count])
      && Linked(Fat(old(Vol(dev, info))), Fat(Vol(dev, info)), out[..count])
    ensures KeptSince(dev, info, old(Vol(dev, info)), |old(dev.history)|)
    ensures dev.Reliable() && 1 <= count <= out.Length ==>
      (ok <==> count <= |FreeSet(Fat(old(Vol(dev, info))))|)
    ensures dev.Reliable() && ok ==>
      Rewritten(info, old(Vol(dev, info)), Vol(dev, info), out[..count], LinkValues(out[..count]), count, 0)
    ensures dev.Reliable() && !ok && 1 <= count <= out.Length ==>
      RolledBack(info, old(Vol(dev, info)), Vol(dev, info))
    ensures dev.Reliable() ==> HintStays(info, old(Vol(dev, info)), Vol(dev, info))
    ensures !(1 <= count <= out.Length) ==> !ok && dev.disk == old(dev.disk)
  {
    hide HintStays, Rewritten, KeptSince, Vol, WriteEntry, WellFormed, RolledBack, BootSectorInfo.Fits, SmallestFree, Reserved,
      BlkDevice.Reliable, Linked, FreeSet;
    ghost var v, from := Vol(dev, info), |dev.history|;
    KeptFromHere(dev, info);
    HintStaysSame(info, v, v);
    if count == 0 || out.Length < count {
      return false;
    }
    ok := ReserveClusters(dev, info, count, out, v, from);
    if !ok {
      return false;
    }
    SmallestFreeSize(Fat(v), out[..count]);
    ok := LinkClusters(dev, info, out[..count], v, from);
  }

  /** An entry that reads as free in the copy readers consult is free in every copy. */
  ghost predicate FreeAgrees(info: BootSectorInfo, v: View)
    requires WellFormed(info, v)
  {
    forall k, c :: 0 <= k < |v.fats| && 2 <= c < info.Entries() && Fat(v)[c] == 0 ==> v.fats[k][c] % MASK28 == 0
  }

  /** Running out of clusters part-way leaves the volume exactly as it was, reserved top bits and FSInfo
      bytes included, if and only if the FAT copies agree on what is free and the hint did not understate
      the free clusters; an exact hint never does. */
  lemma RollbackIsExact(info: BootSectorInfo, v: View, w: View)
    requires WellFormed(info, v) && RolledBack(info, v, w)
    ensures w.fats == v.fats <==> FreeAgrees(info, v)
    ensures var h := FsInfo.Hint(v.reserved[info.fsInfoSector]);
      w == v <==> FreeAgrees(info, v) && (h.None? || |FreeSet(Fat(v))| <= h.value)
    ensures HintExact(info, v) && FreeAgrees(info, v) ==> w == v
  {
    hide FsInfo.Moved, FsInfo.Hint, ZeroCount, FreeSet, Fat;
    var fs, n := info.fsInfoSector, |FreeSet(Fat(v))|;
    RollbackFats(info, v, w);
    FsInfo.RollbackRestores(v.reserved[fs], n);
    assert w.reserved[fs] == FsInfo.Moved(v.reserved[fs], n, n);
    assert v.reserved[fs := v.reserved[fs]] == v.reserved;
    FreeAtMostZero(Fat(v));
  }

  lemma RolledBackShape(info: BootSectorInfo, v: View, w: View)
    requires WellFormed(info, v) && RolledBack(info, v, w)
    ensures WellFormed(info, w) && w.clusters == v.clusters && w.tail == v.tail
  {
  }

  lemma RolledBackEntry(info: BootSectorInfo, v: View, w: View, k: nat, c: nat)
    requires WellFormed(info, v) && RolledBack(info, v, w) && k < |v.fats| && c < info.Entries()
    ensures w.fats[k][c] == if 2 <= c && Fat(v)[c] == 0 then Patched(v.fats[k][c], 0) else v.fats[k][c]
  {
  }

  lemma RollbackFats(info: BootSectorInfo, v: View, w: View)
    requires WellFormed(info, v) && RolledBack(info, v, w)
    ensures w.fats == v.fats <==> FreeAgrees(info, v)
  {
    hide Patched, Fat, FsInfo.Moved, RolledBack;
    WellFormedFat(info, v);
    RolledBackShape(info, v, w);
    if FreeAgrees(info, v) {
      forall k | 0 <= k < |v.fats| ensures w.fats[k] == v.fats[k] {
        forall c | 0 <= c < info.Entries() ensures w.fats[k][c] == v.fats[k][c] {
          RolledBackEntry(info, v, w, k, c);
          PatchedZero(v.fats[k][c]);
          if 2 <= c && Fat(v)[c] == 0 { assert v.fats[k][c] % MASK28 == 0; }
        }
      }
    } else {
      var k, c :| 0 <= k < |v.fats| && 2 <= c < info.Entries() && Fat(v)[c] == 0 && v.fats[k][c] % MASK28 != 0;
      RolledBackEntry(info, v, w, k, c);
      PatchedZero(v.fats[k][c]);
    }
  }

  lemma PatchedZero(raw: nat)
    ensures Patched(raw, 0) == raw <==> raw % MASK28 == 0
  {
  }

  lemma MirroredFreeAgrees(info: BootSectorInfo, v: View)
    requires WellFormed(info, v) && Mirrored(v)
    ensures FreeAgrees(info, v)
  {
  }

  lemma {:induction false} FreeAtMostZero(fat: seq<nat>)
    ensures |FreeSet(fat)| <= ZeroCount(fat)
  {
    if fat != [] {
      var n := |fat| - 1;
      FreeAtMostZero(fat[..n]);
      assert FreeSet(fat) <= FreeSet(fat[..n]) + (if fat[n] == 0 then {n} else {});
      SubsetSize(FreeSet(fat), FreeSet(fat[..n]) + (if fat[n] == 0 then {n} else {}));
    }
  }
}
