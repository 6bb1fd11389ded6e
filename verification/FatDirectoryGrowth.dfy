/** Growing a directory by one zeroed cluster, and why no failure or interruption can leave the directory
    chain pointing at a cluster that is not entirely zero. */
module FatDirectoryGrowth {
  import opened Bytes
  import opened FatLayout
  import opened FatChains
  import opened Volume
  import opened BlockDevice
  import opened FatAllocator
  import opened FatChainGrowth
  import FsInfo

  function Zeros(n: nat): (ss: seq<Sector>)
    ensures |ss| == n
  {
    seq(n, i => ZeroSector())
  }

  // ----- zeroing one cluster

  /** The first `s` sectors of cluster `n` exist and are zero. */
  ghost predicate ZeroedTo(info: BootSectorInfo, d: seq<Sector>, n: nat, s: nat) {
    && info.Fits(|d|) && 2 <= n < info.Entries() && s <= |ViewOf(info, d).clusters[n]|
    && forall i :: 0 <= i < s ==> ViewOf(info, d).clusters[n][i] == ZeroSector()
  }

  lemma ZeroedStart(info: BootSectorInfo, d: seq<Sector>, n: nat)
    requires info.Fits(|d|) && 2 <= n < info.Entries()
    ensures ZeroedTo(info, d, n, 0)
  {
  }

  lemma ZeroedStep(info: BootSectorInfo, d: seq<Sector>, n: nat, i: nat)
    requires ZeroedTo(info, d, n, i) && i < info.sectorsPerCluster && ClusterStart(info, n) + i < |d|
    ensures ZeroedTo(info, d[ClusterStart(info, n) + i := ZeroSector()], n, i + 1)
  {
    hide FatCopy, ClusterSectors, ClusterStart;
    WriteCluster(info, d, n, i, ZeroSector());
  }

  lemma ZeroedAll(info: BootSectorInfo, d: seq<Sector>, n: nat)
    requires info.Fits(|d|) && n < info.Entries() && ZeroedTo(info, d, n, |ViewOf(info, d).clusters[n]|)
    ensures ViewOf(info, d).clusters[n] == Zeros(|ViewOf(info, d).clusters[n]|)
  {
  }

  /** Zeroes a cluster sector by sector: with a device that serves every request the sectors the disk has
      of it, successfully if that is all of them. */
  method ZeroCluster(dev: BlkDevice, info: BootSectorInfo, n: nat) returns (ok: bool)
    requires info.Fits(|dev.disk|) && 2 <= n < info.Entries()
    modifies dev
    ensures |dev.disk| == |old(dev.disk)| && old(dev.history) <= dev.history
    ensures ok ==> Vol(dev, info).clusters[n] == Zeros(info.sectorsPerCluster) && ClusterStart(info, n) < U32_LIMIT
    ensures dev.Reliable() ==>
      && (ok <==> |old(Vol(dev, info)).clusters[n]| == info.sectorsPerCluster)
      && Vol(dev, info).clusters[n] == Zeros(|old(Vol(dev, info)).clusters[n]|)
    ensures OnlyClustersSince(dev, info, old(Vol(dev, info)), [n], |old(dev.history)|)
  {
    hide BlkDevice.Reliable, Torn, ViewOf, ClusterStart, OnlyClusters, ZeroedTo, Zeros, BootSectorInfo.Fits, BootSectorInfo.ClusterToSector;
    ghost var v, d := Vol(dev, info), dev.disk;
    OnlyClustersStart(info, d, [n]);
    ZeroedStart(info, d, n);
    ClusterResolves(info, n);
    DiskBelow32(info, |d|);
    SectorsPerClusterPositive(info, |d|);
    ClusterLength(info, d, d, n);
    var sector0 := info.ClusterToSector(n);
    if sector0.None? {
      ZeroedAll(info, d, n);
      return false;
    }
    var s := 0;
    while s < info.sectorsPerCluster
      invariant 0 <= s <= info.sectorsPerCluster
      invariant |dev.disk| == |old(dev.disk)| && old(dev.history) <= dev.history
      invariant OnlyClustersSince(dev, info, v, [n], |old(dev.history)|)
      invariant ZeroedTo(info, dev.disk, n, s) && s <= |v.clusters[n]|
    {
      ghost var before := dev.disk;
      ghost var applied;
      ClusterLength(info, d, before, n);
      ok, applied := dev.WriteSector(sector0.value + s, ZeroSector());
      if sector0.value + s < |before| {
        OnlyClustersStep(info, v, before, [n], n, s, if ok then ZeroSector() else Torn(before[sector0.value + s], ZeroSector(), applied));
        ZeroedStep(info, before, n, s);
      }
      if !ok {
        if |before| <= sector0.value + s { ZeroedAll(info, before, n); }
        return false;
      }
      s := s + 1;
    }
    ClusterLength(info, d, dev.disk, n);
    ZeroedAll(info, dev.disk, n);
    return true;
  }

  // ----- growth

  /** Cluster `n` zeroed as far as the disk has it. */
  ghost function WithZeroed(v: View, n: nat): (w: View)
    requires n < |v.clusters|
  {
    v.(clusters := v.clusters[n := Zeros(|v.clusters[n]|)])
  }

  /** The volume after growth, entry by entry and sector by sector: `n` is zeroed, ends the
      chain and follows `last`; one cluster left the free count; nothing else changed. */
  ghost predicate DirGrown(info: BootSectorInfo, v: View, w: View, last: nat, n: nat)
    requires WellFormed(info, v) && 2 <= n < info.Entries()
  {
    && |v.clusters[n]| == info.sectorsPerCluster
    && WellFormed(info, WithZeroed(v, n)) && Rewritten(info, WithZeroed(v, n), w, [n, last], [EOC, n], 1, 0)
  }

  /** The volume after a growth that took a cluster the disk does not have: `n` is reserved as the end of its
      own chain, and nothing leads to it. */
  ghost predicate DirStuck(info: BootSectorInfo, v: View, w: View, n: nat)
    requires WellFormed(info, v) && 2 <= n < info.Entries()
  {
    && |v.clusters[n]| < info.sectorsPerCluster
    && WellFormed(info, WithZeroed(v, n)) && Rewritten(info, WithZeroed(v, n), w, [n], [EOC], 1, 0)
  }

  lemma OneCluster(fat: seq<nat>, fat': seq<nat>, cs: seq<nat>)
    requires SmallestFree(fat, cs) && Linked(fat, fat', cs) && |cs| == 1
    ensures IsFirstFree(fat, cs[0]) && IsChain(fat', cs[0], [cs[0]])
  {
    assert cs[0] in cs && cs == [cs[0]];
    LinkedIsChain(fat, fat', cs);
  }

  lemma EmptyMeansUsed(fat: seq<nat>, c: nat)
    requires FreeSet(fat) == {} && 2 <= c < |fat|
    ensures fat[c] != 0
  {
    assert c !in FreeSet(fat);
  }

  lemma NothingRolledBack(info: BootSectorInfo, v: View, w: View)
    requires WellFormed(info, v) && RolledBack(info, v, w) && FreeSet(Fat(v)) == {}
    ensures w == v
  {
    WellFormedFat(info, v);
    forall k | 0 <= k < |v.fats| ensures w.fats[k] == v.fats[k] {
      forall c | 0 <= c < info.Entries() ensures w.fats[k][c] == v.fats[k][c] {
        RolledBackEntry(info, v, w, k, c);
        if 2 <= c { EmptyMeansUsed(Fat(v), c); }
      }
    }
    assert w.fats == v.fats;
    FsInfo.MovedNone(v.reserved[info.fsInfoSector]);
    assert w.reserved == v.reserved;
  }

  /** Reserve and zero. */
  lemma ZeroedReserved(info: BootSectorInfo, v: View, v1: View, v2: View, n: nat)
    requires WellFormed(info, v) && 2 <= n < info.Entries() && Rewritten(info, v, v1, [n], [EOC], 1, 0)
    requires WellFormed(info, v2) && v2.fats == v1.fats && v2.reserved == v1.reserved && v2.tail == v1.tail
    requires |v2.clusters| == |v1.clusters| && v2.clusters[n] == Zeros(|v1.clusters[n]|)
    requires forall c :: 0 <= c < |v1.clusters| && c != n ==> v2.clusters[c] == v1.clusters[c]
    ensures WellFormed(info, WithZeroed(v, n)) && Rewritten(info, WithZeroed(v, n), v2, [n], [EOC], 1, 0)
  {
    hide FsInfo.Moved, Patching, Zeros;
    assert v2.clusters == v.clusters[n := Zeros(|v.clusters[n]|)];
  }

  /** ... and link. */
  lemma GrownByThree(info: BootSectorInfo, v: View, v2: View, last: nat, n: nat)
    requires WellFormed(info, v) && 2 <= n < info.Entries() && last < info.Entries() && last != n && n % MASK28 != 0
    requires Fat(v)[last] != 0 && |v.clusters[n]| == info.sectorsPerCluster
    requires WellFormed(info, WithZeroed(v, n)) && Rewritten(info, WithZeroed(v, n), v2, [n], [EOC], 1, 0)
    ensures DirGrown(info, v, WriteEntry(info, v2, last, n), last, n)
  {
    hide WriteEntry, FsInfo.Moved, FsInfo.Adjust, Zeros, Patched;
    var v', w := WithZeroed(v, n), WriteEntry(info, v2, last, n);
    RewrittenFat(info, v', v2, [n], [EOC], 1, 0);
    WriteEntryParts(info, v2, last, n);
    assert Fat(v2)[last] == Fat(v')[last] == Fat(v)[last];
    forall k | 0 <= k < |v.fats| ensures Patching(v'.fats[k], w.fats[k], [n, last], [EOC, n]) {
      assert Patching(v'.fats[k], v2.fats[k], [n], [EOC]);
      PatchingMore(v'.fats[k], v2.fats[k], [n], [EOC], last, n);
      assert [n] + [last] == [n, last] && [EOC] + [n] == [EOC, n];
    }
  }

  lemma EmptyIfNone(fat: seq<nat>)
    requires !(1 <= |FreeSet(fat)|)
    ensures FreeSet(fat) == {}
  {
  }

  lemma FirstFreeInRange(fat: seq<nat>, n: nat)
    requires IsFirstFree(fat, n)
    ensures 2 <= n < |fat|
  {
  }

  lemma FreeNotInChain(fat: seq<nat>, head: nat, cs: seq<nat>, n: nat)
    requires IsFirstFree(fat, n) && IsChain(fat, head, cs)
    ensures n !in cs && 0 < |cs| && Last(cs) < |fat| && fat[Last(cs)] != 0 && FreeSet(fat) != {}
  {
    if n in cs { ChainNotFree(fat, head, cs, n); }
    ChainNotFree(fat, head, cs, Last(cs));
    assert n in FreeSet(fat);
  }

  lemma ZeroedFat(info: BootSectorInfo, v: View, d: seq<Sector>, n: nat)
    requires WellFormed(info, v) && 2 <= n < info.Entries() && OnlyClusters(info, v, d, [n])
    ensures var w := ViewOf(info, d);
      && w.fats == v.fats && w.reserved == v.reserved && w.tail == v.tail && Fat(w) == Fat(v) && |w.clusters| == |v.clusters|
      && forall c :: 0 <= c < |v.clusters| && c != n ==> w.clusters[c] == v.clusters[c]
  {
    hide ViewOf, BootSectorInfo.Fits;
  }

  /** The new directory cluster as it must be before anything leads to it. */
  ghost function AllZero(info: BootSectorInfo, v: View, n: nat): (u: View) {
    if n < |v.clusters| then v.(clusters := v.clusters[n := Zeros(info.sectorsPerCluster)]) else v
  }

  /** Zeroes the reserved cluster `n`, then points the end of the directory chain at it. */
  method ZeroAndLink(dev: BlkDevice, info: BootSectorInfo, n: nat, lastCluster: nat,
                     ghost v: View, ghost head: nat, ghost cs: seq<nat>, ghost from: nat)
    returns (r: Option<(nat, nat)>)
    requires info.Fits(|dev.disk|) && WellFormed(info, v) && 2 <= n < info.Entries()
    requires IsChain(Fat(v), head, cs) && lastCluster == Last(cs) < info.Entries()
    requires SmallestFree(Fat(v), [n]) && Linked(Fat(v), Fat(Vol(dev, info)), [n])
    requires from <= |dev.history| && ChainKeptSince(dev, info, v, head, cs, from) && Vol(dev, info).clusters == v.clusters
    requires |Fat(v)| == info.Entries() && Fat(Vol(dev, info))[Last(cs)] == Fat(v)[Last(cs)] != 0 && Last(cs) != n
    requires dev.Reliable() ==> Rewritten(info, v, Vol(dev, info), [n], [EOC], 1, 0)
    modifies dev
    ensures |dev.disk| == |old(dev.disk)| && old(dev.history) <= dev.history
    ensures ChainSafeSince(dev, info, v, head, cs, [n], AllZero(info, v, n), from)
    ensures r.Some? ==> ChainExtended(info, v, dev.disk, head, cs, [n], AllZero(info, v, n)) && r.value == (ClusterStart(info, n), 0)
    ensures dev.Reliable() ==> HintStays(info, old(Vol(dev, info)), Vol(dev, info))
    ensures dev.Reliable() && r.Some? ==> DirGrown(info, v, Vol(dev, info), lastCluster, n)
    ensures dev.Reliable() && r.None? ==> DirStuck(info, v, Vol(dev, info), n)
  {
    hide HintStays, ChainKept, ChainSafe, ChainExtended, IsChain, Rewritten, DirGrown, DirStuck, OnlyClusters, EntryLeft, WriteEntry, Zeros,
      BlkDevice.Reliable, ViewOf, ClusterStart, BootSectorInfo.Fits, WellFormed, Fat, Linked, SmallestFree, LinkReady, AllZero, WithZeroed,
      BootSectorInfo.ClusterToSector, WordsWritten, WordsPart, WordsPartSince, CopyZeroAfter, FatSector, BootSectorInfo.Entries, Distinct, Ascending;
    ghost var v1, d1, h1 := Vol(dev, info), dev.disk, |dev.history|;
    FreshApart(Fat(v), head, cs, [n]);
    ClusterResolves(info, n);
    var sector0 := info.ClusterToSector(n);
    var ok := ZeroCluster(dev, info, n);
    ghost var v2, d2, h2 := Vol(dev, info), dev.disk, |dev.history|;
    DataKeepsChainSince(dev, info, v, d1, h1, head, cs, [n], from);
    ZeroedFat(info, v1, d2, n);
    HintStaysSame(info, v1, v2);
    if dev.Reliable() { ZeroedReserved(info, v, v1, v2, n); }
    if !ok {
      KeptIsSafe(dev, info, v, head, cs, [n], AllZero(info, v, n), from);
      if dev.Reliable() { StuckSo(info, v, v2, n); }
      return None;
    }
    NewChainReady(info, v, d1, d2, head, cs, [n]);
    if dev.Reliable() { GrownByThree(info, v, v2, lastCluster, n); }
    ok := WriteFatEntry(dev, info, lastCluster, n);
    if dev.Reliable() {
      OneWriteHint(info, v2, lastCluster, n);
      HintStaysThrough(info, v1, v2, Vol(dev, info));
    }
    LinkLeavesSince(dev, info, v, d2, h2, head, cs, [n], from);
    ZeroedHolds(info, v, v2, n);
    SafeWithSameData(dev, info, v, head, cs, [n], v2, AllZero(info, v, n), from);
    if ok {
      ExtendedWithSameData(info, v, dev.disk, head, cs, [n], v2, AllZero(info, v, n));
      return Some((sector0.value, 0));
    }
    return None;
  }

  lemma StuckSo(info: BootSectorInfo, v: View, w: View, n: nat)
    requires WellFormed(info, v) && 2 <= n < info.Entries() && |v.clusters[n]| != info.sectorsPerCluster
    requires WellFormed(info, WithZeroed(v, n)) && Rewritten(info, WithZeroed(v, n), w, [n], [EOC], 1, 0)
    ensures DirStuck(info, v, w, n)
  {
    hide Rewritten;
  }

  lemma ZeroedHolds(info: BootSectorInfo, v: View, w: View, n: nat)
    requires n < |v.clusters| == |w.clusters| && w.clusters[n] == Zeros(info.sectorsPerCluster)
    ensures SameClusters(w, AllZero(info, v, n), [n])
  {
  }

  /** Allocates, zeroes and links one cluster after `lastCluster`, the end of the directory
      chain `cs`, and returns its first slot. With a device that serves every request it succeeds exactly
      when a cluster is free and the disk has all of the first free one; otherwise that one stays reserved
      and nothing leads to it. */
  method GrowDirectory(dev: BlkDevice, info: BootSectorInfo, lastCluster: nat, ghost head: nat, ghost cs: seq<nat>)
    returns (r: Option<(nat, nat)>, ghost n: nat)
    requires info.Fits(|dev.disk|) && IsChain(Fat(Vol(dev, info)), head, cs) && lastCluster == Last(cs)
    modifies dev
    ensures |dev.disk| == |old(dev.disk)| && old(dev.history) <= dev.history
    ensures ChainSafeSince(dev, info, old(Vol(dev, info)), head, cs, [n], AllZero(info, old(Vol(dev, info)), n), |old(dev.history)|)
    ensures r.Some? ==>
      && ChainExtended(info, old(Vol(dev, info)), dev.disk, head, cs, [n], AllZero(info, old(Vol(dev, info)), n))
      && 2 <= n && r.value == (ClusterStart(info, n), 0)
    ensures dev.Reliable() ==> DirGrowth(info, old(Vol(dev, info)), Vol(dev, info), lastCluster, r.Some?, n)
    ensures dev.Reliable() ==> HintStays(info, old(Vol(dev, info)), Vol(dev, info))
  {
    hide HintStays, Rewritten, ChainSafe, ChainKept, ChainExtended, WithZeroed, IsChain, BlkDevice.Reliable, ViewOf,
      BootSectorInfo.Fits, WellFormed, KeptSince, RolledBack, SmallestFree, Linked, IsFirstFree, FreeSet, ClusterStart, AllZero, LinkValues;
    ghost var v, from := Vol(dev, info), |dev.history|;
    n := 0;
    var newClusters := new nat[1];
    var ok := AllocateClusterChain(dev, info, 1, newClusters);
    ReservingKeepsChainSince(dev, info, v, head, cs, from);
    KeptData(dev, info, v, from);
    if !ok {
      KeptIsSafe(dev, info, v, head, cs, [0], AllZero(info, v, 0), from);
      if dev.Reliable() {
        EmptyIfNone(Fat(v));
        NothingRolledBack(info, v, Vol(dev, info));
      }
      return None, 0;
    }
    n := newClusters[0];
    assert newClusters[..1] == [n];
    OneCluster(Fat(v), Fat(Vol(dev, info)), [n]);
    FreeNotInChain(Fat(v), head, cs, n);
    FirstFreeInRange(Fat(v), n);
    OneLink(n);
    ghost var u := Vol(dev, info);
    r := ZeroAndLink(dev, info, newClusters[0], lastCluster, v, head, cs, from);
    if dev.Reliable() { HintStaysThrough(info, v, u, Vol(dev, info)); }
  }

  lemma OneLink(n: nat)
    ensures LinkValues([n]) == [EOC]
  {
  }

  /** What becomes of the volume when a growth `succeeded` or did not, `n` being the first free cluster. */
  ghost predicate DirGrowth(info: BootSectorInfo, v: View, w: View, last: nat, succeeded: bool, n: nat)
    requires WellFormed(info, v)
  {
    if FreeSet(Fat(v)) == {} then !succeeded && w == v
    else
      && IsFirstFree(Fat(v), n) && 2 <= n < info.Entries()
      && (succeeded <==> |v.clusters[n]| == info.sectorsPerCluster)
      && if succeeded then DirGrown(info, v, w, last, n) else DirStuck(info, v, w, n)
  }
}
