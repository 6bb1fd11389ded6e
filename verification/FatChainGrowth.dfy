/** Growing a chain in the order reserve, initialise, link, and what every write of it can leave behind:
    the old chain, the old chain followed by the new clusters, or, on a device that may tear a 32-bit word,
    a torn link. */
module FatChainGrowth {
  import opened Bytes
  import opened FatLayout
  import opened FatChains
  import opened Volume
  import opened BlockDevice
  import opened FatAllocator

  /** The word the driver takes for the FAT entry of `c`, which is one of the FAT only if the FAT covers `c`; none
      if the disk has no such sector. */
  function NextOf(info: BootSectorInfo, d: seq<Sector>, c: nat): (r: Option<nat>) {
    if 4 * c < U32_LIMIT && FatSector(info, 0, c) < |d| then
      Some(EntryAt(d[FatSector(info, 0, c)], c % ENTRIES_PER_SECTOR) % MASK28)
    else None
  }

  lemma NextCovered(info: BootSectorInfo, d: seq<Sector>, c: nat)
    requires info.Fits(|d|) && c < info.Entries()
    ensures NextOf(info, d, c) == Some(Fat(ViewOf(info, d))[c])
  {
    hide ViewOf, EntryAt, FatSector;
    CoveredSmall(info, |d|, c);
    ViewWellFormed(info, d);
    RawEntry(info, d, 0, c);
    RawWrite(info, d, 0, c, ViewOf(info, d).fats[0][c]);
  }

  /** The FAT entry of `cluster`: where its chain goes on. */
  method NextClusterInChain(dev: BlkDevice, info: BootSectorInfo, cluster: nat) returns (r: Option<nat>)
    requires info.Fits(|dev.disk|)
    modifies dev`clock
    ensures r == if dev.script(old(dev.clock)).Works? then NextOf(info, dev.disk, cluster) else None
    ensures dev.Reliable() ==> r == NextOf(info, dev.disk, cluster)
    ensures cluster < info.Entries() ==>
      (dev.Reliable() ==> r.Some?) && (r.Some? ==> r.value == Fat(Vol(dev, info))[cluster])
  {
    hide ViewOf, Fat, BlkDevice.Reliable, FatSector, EntryAt;
    LayoutFacts(info, |dev.disk|);
    EntryPlace(cluster);
    FatSectorNumber(info, 0, cluster);
    if cluster < info.Entries() { NextCovered(info, dev.disk, cluster); }
    if dev.Reliable() { assert dev.script(dev.clock).Works? by { Serves(dev, dev.clock); } }
    if cluster * 4 >= U32_LIMIT {
      return None;
    }
    var fatSector := info.fatStart + cluster * 4 / info.bytesPerSector;
    if fatSector >= U32_LIMIT {
      return None;
    }
    var sector := dev.ReadSector(fatSector);
    if sector.None? {
      return None;
    }
    var relative := cluster * 4 % info.bytesPerSector / 4;
    return Some(EntryAt(sector.value, relative) % MASK28);
  }

  lemma Serves(dev: BlkDevice, t: nat)
    requires dev.Reliable()
    ensures dev.script(t).Works?
  {
  }

  // ----- changes to the data of some clusters

  /** Only data sectors of the clusters in `ns` differ from `v`. */
  ghost predicate OnlyClusters(info: BootSectorInfo, v: View, d: seq<Sector>, ns: seq<nat>) {
    && info.Fits(|d|)
    && var w := ViewOf(info, d);
    && w.fats == v.fats && w.reserved == v.reserved && w.tail == v.tail
    && |w.clusters| == |v.clusters|
    && forall c :: 0 <= c < |v.clusters| && c !in ns ==> w.clusters[c] == v.clusters[c]
  }

  ghost predicate OnlyClustersSince(dev: BlkDevice, info: BootSectorInfo, v: View, ns: seq<nat>, from: nat)
    reads dev`disk, dev`history
  {
    && OnlyClusters(info, v, dev.disk, ns)
    && forall t :: from <= t < |dev.history| ==> OnlyClusters(info, v, dev.history[t], ns)
  }

  lemma OnlyClustersStart(info: BootSectorInfo, d: seq<Sector>, ns: seq<nat>)
    requires info.Fits(|d|)
    ensures OnlyClusters(info, ViewOf(info, d), d, ns)
  {
  }

  lemma OnlyClustersStep(info: BootSectorInfo, v: View, d: seq<Sector>, ns: seq<nat>, c: nat, i: nat, s: Sector)
    requires OnlyClusters(info, v, d, ns) && c in ns && 2 <= c < info.Entries() && i < info.sectorsPerCluster
    requires ClusterStart(info, c) + i < |d|
    ensures OnlyClusters(info, v, d[ClusterStart(info, c) + i := s], ns)
  {
    hide FatCopy, ClusterSectors, ClusterStart;
    WriteCluster(info, d, c, i, s);
  }

  /** How many sectors of a cluster the disk has depends on its size alone. */
  lemma ClusterLength(info: BootSectorInfo, d: seq<Sector>, d': seq<Sector>, c: nat)
    requires info.Fits(|d|) && |d'| == |d| && c < info.Entries()
    ensures |ViewOf(info, d').clusters[c]| == |ViewOf(info, d).clusters[c]| <= if c < 2 then 0 else info.sectorsPerCluster
    ensures 2 <= c ==> |ViewOf(info, d).clusters[c]| == Max(0, Min(info.sectorsPerCluster, |d| - ClusterStart(info, c)))
  {
    hide FatCopy, ClusterStart;
    assert ViewOf(info, d).clusters[c] == ClusterSectors(info, d, c) && ViewOf(info, d').clusters[c] == ClusterSectors(info, d', c);
  }

  // ----- the first sectors of new clusters

  /** The first sector of cluster `c` replaced, if the disk has one. */
  ghost function WithFirst(v: View, c: nat, s: Sector): (w: View)
    ensures |w.clusters| == |v.clusters|
    ensures forall x :: 0 <= x < |v.clusters| ==> |w.clusters[x]| == |v.clusters[x]| && (x != c ==> w.clusters[x] == v.clusters[x])
    ensures c < |v.clusters| && 0 < |v.clusters[c]| ==> w.clusters[c] == v.clusters[c][0 := s]
    ensures w == v.(clusters := w.clusters)
  {
    if c < |v.clusters| && 0 < |v.clusters[c]| then v.WithSector(c, 0, s) else v
  }

  /** Writes `s` to the first sector of `cluster`; `t` is what is left there when the write fails. */
  method WriteFirstSector(dev: BlkDevice, info: BootSectorInfo, cluster: nat, s: Sector, ghost v: View, ghost ns: seq<nat>, ghost from: nat)
    returns (ok: bool, ghost t: Sector)
    requires info.Fits(|dev.disk|) && 2 <= cluster < info.Entries() && cluster in ns && from <= |dev.history|
    requires OnlyClustersSince(dev, info, v, ns, from)
    modifies dev
    ensures |dev.disk| == |old(dev.disk)| && old(dev.history) <= dev.history
    ensures OnlyClustersSince(dev, info, v, ns, from)
    ensures Vol(dev, info) == WithFirst(old(Vol(dev, info)), cluster, t)
    ensures ClusterStart(info, cluster) < U32_LIMIT ==> dev.clock == old(dev.clock) + 1
    ensures ok ==> t == s && 0 < |old(Vol(dev, info)).clusters[cluster]|
    ensures dev.Reliable() ==> t == s && (ok <==> 0 < |old(Vol(dev, info)).clusters[cluster]|)
  {
    hide ViewOf, BootSectorInfo.Fits, ClusterStart, BlkDevice.Reliable, Torn, OnlyClusters, BootSectorInfo.ClusterToSector;
    ghost var before := dev.disk;
    SectorsPerClusterPositive(info, |dev.disk|);
    ClusterResolves(info, cluster);
    ClusterLength(info, before, before, cluster);
    DiskBelow32(info, |before|);
    var sector := info.ClusterToSector(cluster);
    if sector.None? {
      return false, s;
    }
    ghost var applied;
    ok, applied := dev.WriteSector(sector.value, s);
    if sector.value < |before| {
      t := if ok then s else Torn(before[sector.value], s, applied);
      WriteCluster(info, before, cluster, 0, t);
      OnlyClustersStep(info, v, before, ns, cluster, 0, t);
    } else {
      t := s;
    }
  }

  lemma DiskBelow32(info: BootSectorInfo, sectors: nat)
    requires info.Fits(sectors)
    ensures sectors <= U32_LIMIT
  {
  }

  lemma SectorsPerClusterPositive(info: BootSectorInfo, sectors: nat)
    requires info.Fits(sectors)
    ensures 1 <= info.sectorsPerCluster
  {
  }

  /** The sector `grow` writes for the `i`-th new cluster: its 512 bytes of the data, zero-filled. */
  function Chunk(data: seq<Byte>, i: nat): (s: Sector) {
    seq(512, b requires 0 <= b < 512 => if 512 * i + b < |data| then data[512 * i + b] else 0)
  }

  /** The first `m` chunks of `data` written into the first sectors of `ns[..m]`. */
  ghost function WithChunks(v: View, ns: seq<nat>, data: seq<Byte>, m: nat): (w: View)
    requires m <= |ns|
    ensures |w.clusters| == |v.clusters| && w == v.(clusters := w.clusters)
    ensures forall x :: 0 <= x < |v.clusters| ==> |w.clusters[x]| == |v.clusters[x]| && (x !in ns[..m] ==> w.clusters[x] == v.clusters[x])
  {
    if m == 0 then v else
    var u := WithChunks(v, ns, data, m - 1);
    assert ns[..m] == ns[..m - 1] + [ns[m - 1]];
    WithFirst(u, ns[m - 1], Chunk(data, m - 1))
  }

  /** Each new cluster holds its chunk first and then what it held before. */
  lemma {:induction false} WithChunksAt(v: View, ns: seq<nat>, data: seq<Byte>, m: nat, i: nat)
    requires i < m <= |ns| && Distinct(ns) && ns[i] < |v.clusters| && 0 < |v.clusters[ns[i]]|
    ensures WithChunks(v, ns, data, m).clusters[ns[i]] == v.clusters[ns[i]][0 := Chunk(data, i)]
  {
    hide Chunk, WithFirst;
    if i < m - 1 {
      WithChunksAt(v, ns, data, m - 1, i);
    } else {
      assert ns[i] !in ns[..m - 1];
    }
  }

  /** Clusters with no first sector stop the writing early, and that changes nothing. */
  lemma {:induction false} NoMoreChunks(v: View, ns: seq<nat>, data: seq<Byte>, m: nat, n: nat)
    requires m <= n <= |ns| && forall i :: m <= i < n ==> ns[i] < |v.clusters| && |v.clusters[ns[i]]| == 0
    ensures WithChunks(v, ns, data, n) == WithChunks(v, ns, data, m)
    decreases n
  {
    hide Chunk, WithFirst, WithChunks;
    if m < n {
      NoMoreChunks(v, ns, data, m, n - 1);
      ChunksStep(v, ns, data, n - 1);
      NoFirst(WithChunks(v, ns, data, n - 1), ns[n - 1], Chunk(data, n - 1));
    }
  }

  lemma NoFirst(v: View, c: nat, s: Sector)
    requires c < |v.clusters| && |v.clusters[c]| == 0
    ensures WithFirst(v, c, s) == v
  {
  }

  /** What a failed run of data writes leaves: `m` clusters initialised, the next one's first sector torn into
      `t`, the others as they were. */
  ghost function PartWritten(v: View, ns: seq<nat>, data: seq<Byte>, m: nat, t: Sector): (w: View)
    requires m <= |ns|
    ensures |w.clusters| == |v.clusters| && w == v.(clusters := w.clusters)
    ensures forall x :: 0 <= x < |v.clusters| ==> |w.clusters[x]| == |v.clusters[x]| && (x !in ns ==> w.clusters[x] == v.clusters[x])
  {
    if m == |ns| then WithChunks(v, ns, data, m) else WithFirst(WithChunks(v, ns, data, m), ns[m], t)
  }

  ghost predicate Ascending(ns: seq<nat>) {
    forall i, j :: 0 <= i < j < |ns| ==> ns[i] < ns[j]
  }

  ghost predicate HaveFirst(v: View, ns: seq<nat>) {
    forall i :: 0 <= i < |ns| ==> ns[i] < |v.clusters| && 0 < |v.clusters[ns[i]]|
  }

  /** When a cluster has no first sector, no higher one has. */
  lemma NoneAbove(info: BootSectorInfo, d: seq<Sector>, ns: seq<nat>, m: nat)
    requires info.Fits(|d|) && Ascending(ns) && m < |ns| && forall i :: 0 <= i < |ns| ==> 2 <= ns[i] < info.Entries()
    requires |ViewOf(info, d).clusters[ns[m]]| == 0
    ensures forall i :: m <= i < |ns| ==> |ViewOf(info, d).clusters[ns[i]]| == 0
  {
    hide ViewOf;
    SectorsPerClusterPositive(info, |d|);
    forall i | m <= i < |ns| ensures |ViewOf(info, d).clusters[ns[i]]| == 0 {
      if m < i { WholeBelow(info, d, ns[m], ns[i]); }
    }
  }

  /** Writes each new cluster's part of the data into its first sector, up to the first write that fails. */
  method WriteChunks(dev: BlkDevice, info: BootSectorInfo, ns: seq<nat>, data: seq<Byte>)
    returns (ok: bool, ghost m: nat, ghost t: Sector)
    requires info.Fits(|dev.disk|) && Ascending(ns) && forall i :: 0 <= i < |ns| ==> 2 <= ns[i] < info.Entries()
    modifies dev
    ensures |dev.disk| == |old(dev.disk)| && old(dev.history) <= dev.history
    ensures OnlyClustersSince(dev, info, old(Vol(dev, info)), ns, |old(dev.history)|)
    ensures m <= |ns| && (ok <==> m == |ns|)
    ensures Vol(dev, info) == PartWritten(old(Vol(dev, info)), ns, data, m, t)
    ensures ok ==> HaveFirst(old(Vol(dev, info)), ns)
    ensures dev.Reliable() ==>
      Vol(dev, info) == WithChunks(old(Vol(dev, info)), ns, data, |ns|) && (ok <==> HaveFirst(old(Vol(dev, info)), ns))
  {
    hide ViewOf, BootSectorInfo.Fits, BlkDevice.Reliable, OnlyClusters, Chunk, WithFirst, WithChunks, WellFormed, Fat, Ascending;
    ghost var v, d := Vol(dev, info), dev.disk;
    OnlyClustersStart(info, d, ns);
    m, t := 0, ZeroSector();
    NoChunks(v, ns, data);
    var i := 0;
    while i < |ns|
      invariant 0 <= i <= |ns| && m == i && |dev.disk| == |old(dev.disk)| && old(dev.history) <= dev.history
      invariant OnlyClustersSince(dev, info, v, ns, |old(dev.history)|)
      invariant Vol(dev, info) == WithChunks(v, ns, data, i)
      invariant forall j :: 0 <= j < i ==> 0 < |v.clusters[ns[j]]|
    {
      ok, t := WriteFirstSector(dev, info, ns[i], Chunk(data, i), v, ns, |old(dev.history)|);
      ChunksStep(v, ns, data, i);
      if !ok {
        if dev.Reliable() { ChunksStopped(info, d, ns, data, i); }
        return false, i, t;
      }
      i, m := i + 1, m + 1;
    }
    return true, |ns|, t;
  }

  lemma ChunksStopped(info: BootSectorInfo, d: seq<Sector>, ns: seq<nat>, data: seq<Byte>, i: nat)
    requires info.Fits(|d|) && Ascending(ns) && i < |ns| && forall j :: 0 <= j < |ns| ==> 2 <= ns[j] < info.Entries()
    requires |ViewOf(info, d).clusters[ns[i]]| == 0
    ensures var v := ViewOf(info, d); WithChunks(v, ns, data, |ns|) == WithChunks(v, ns, data, i) == WithChunks(v, ns, data, i + 1)
  {
    hide ViewOf, WithChunks;
    NoneAbove(info, d, ns, i);
    NoMoreChunks(ViewOf(info, d), ns, data, i, |ns|);
    NoMoreChunks(ViewOf(info, d), ns, data, i, i + 1);
  }

  lemma NoChunks(v: View, ns: seq<nat>, data: seq<Byte>)
    ensures WithChunks(v, ns, data, 0) == v
  {
  }

  lemma ChunksStep(v: View, ns: seq<nat>, data: seq<Byte>, i: nat)
    requires i < |ns|
    ensures WithChunks(v, ns, data, i + 1) == WithFirst(WithChunks(v, ns, data, i), ns[i], Chunk(data, i))
  {
  }

  // ----- a chain at every write

  ghost predicate SameClusters(v: View, w: View, cs: seq<nat>) {
    && |w.clusters| == |v.clusters|
    && forall c :: c in cs && c < |v.clusters| ==> w.clusters[c] == v.clusters[c]
  }

  /** The chain and its contents are what they were. */
  ghost predicate ChainKept(info: BootSectorInfo, v: View, d: seq<Sector>, head: nat, cs: seq<nat>) {
    && info.Fits(|d|)
    && IsChain(Fat(ViewOf(info, d)), head, cs)
    && SameClusters(v, ViewOf(info, d), cs)
  }

  /** The chain goes on with the clusters of `ns`, which hold what they do in `u`. */
  ghost predicate ChainExtended(info: BootSectorInfo, v: View, d: seq<Sector>, head: nat, cs: seq<nat>, ns: seq<nat>, u: View) {
    && info.Fits(|d|) && Disjoint(cs, ns)
    && IsChain(Fat(ViewOf(info, d)), head, cs + ns)
    && SameClusters(v, ViewOf(info, d), cs) && SameClusters(u, ViewOf(info, d), ns)
  }

  /** Every link but the last is what it was; the last holds some bytes of the old entry and some of `n`,
      and is neither an end mark nor `n`. */
  ghost predicate TornLink(info: BootSectorInfo, v: View, d: seq<Sector>, cs: seq<nat>, n: nat) {
    && info.Fits(|d|) && 0 < |cs| && SameClusters(v, ViewOf(info, d), cs)
    && var fat := Fat(ViewOf(info, d));
    && LinksKept(fat, cs)
    && Last(cs) < |fat| == |Fat(v)| && !IsEndOfChain(fat[Last(cs)]) && fat[Last(cs)] != n
    && TornFrom(Fat(v)[Last(cs)], n, fat[Last(cs)])
  }

  /** Every link of the chain but the last. */
  ghost predicate LinksKept(fat: seq<nat>, cs: seq<nat>) {
    forall i :: 0 <= i < |cs| - 1 ==> Follows(fat, cs, i)
  }

  ghost predicate TornFrom(entry: nat, n: nat, left: nat) {
    exists a: nat, x: nat :: a % MASK28 == entry && x % MASK28 == left && Mixed(a, Patched(a, n), x, false)
  }

  ghost predicate ChainSafe(info: BootSectorInfo, v: View, d: seq<Sector>, head: nat, cs: seq<nat>, ns: seq<nat>, u: View, whole: bool) {
    || ChainKept(info, v, d, head, cs)
    || (0 < |ns| && (ChainExtended(info, v, d, head, cs, ns, u) || (!whole && TornLink(info, v, d, cs, ns[0]))))
  }

  ghost predicate ChainSafeSince(dev: BlkDevice, info: BootSectorInfo, v: View, head: nat, cs: seq<nat>, ns: seq<nat>, u: View, from: nat)
    reads dev`disk, dev`history
  {
    && ChainSafe(info, v, dev.disk, head, cs, ns, u, dev.WholeWords())
    && forall t :: from <= t < |dev.history| ==> ChainSafe(info, v, dev.history[t], head, cs, ns, u, dev.WholeWords())
  }

  /** Kept so far, with every link still the old one. */
  ghost predicate ChainKeptSince(dev: BlkDevice, info: BootSectorInfo, v: View, head: nat, cs: seq<nat>, from: nat)
    reads dev`disk, dev`history
  {
    && ChainKept(info, v, dev.disk, head, cs)
    && forall t :: from <= t < |dev.history| ==> ChainKept(info, v, dev.history[t], head, cs)
  }

  lemma KeptIsSafe(dev: BlkDevice, info: BootSectorInfo, v: View, head: nat, cs: seq<nat>, ns: seq<nat>, u: View, from: nat)
    requires ChainKeptSince(dev, info, v, head, cs, from)
    ensures ChainSafeSince(dev, info, v, head, cs, ns, u, from)
  {
    hide ChainKept, ChainExtended, TornLink;
  }

  /** Reserving clusters leaves every used entry alone, hence every chain. */
  lemma ReservingKeepsChain(info: BootSectorInfo, v: View, d: seq<Sector>, head: nat, cs: seq<nat>)
    requires WellFormed(info, v) && IsChain(Fat(v), head, cs) && UsedKept(info, v, d)
    ensures ChainKept(info, v, d, head, cs)
    ensures Last(cs) < |Fat(v)| == |Fat(ViewOf(info, d))| && Fat(ViewOf(info, d))[Last(cs)] == Fat(v)[Last(cs)]
  {
    hide ViewOf, BootSectorInfo.Fits;
    ViewWellFormed(info, d);
    forall c | c in cs && c < |Fat(v)| ensures Fat(ViewOf(info, d))[c] == Fat(v)[c] {
      ChainNotFree(Fat(v), head, cs, c);
    }
    ChainFrame(Fat(v), Fat(ViewOf(info, d)), head, cs);
    ChainNotFree(Fat(v), head, cs, Last(cs));
  }

  lemma ReservingKeepsChainSince(dev: BlkDevice, info: BootSectorInfo, v: View, head: nat, cs: seq<nat>, from: nat)
    requires WellFormed(info, v) && IsChain(Fat(v), head, cs) && info.Fits(|dev.disk|) && KeptSince(dev, info, v, from)
    ensures ChainKeptSince(dev, info, v, head, cs, from)
    ensures Last(cs) < |Fat(v)| == |Fat(Vol(dev, info))| && Fat(Vol(dev, info))[Last(cs)] == Fat(v)[Last(cs)]
  {
    hide UsedKept, ChainKept, ViewOf;
    ReservingKeepsChain(info, v, dev.disk, head, cs);
    forall t | from <= t < |dev.history| ensures ChainKept(info, v, dev.history[t], head, cs) {
      ReservingKeepsChain(info, v, dev.history[t], head, cs);
    }
  }

  /** Writing clusters outside the chain leaves the chain alone. */
  lemma DataKeepsChain(info: BootSectorInfo, v: View, d: seq<Sector>, d': seq<Sector>, head: nat, cs: seq<nat>, ns: seq<nat>)
    requires ChainKept(info, v, d, head, cs) && Disjoint(cs, ns) && OnlyClusters(info, ViewOf(info, d), d', ns)
    ensures ChainKept(info, v, d', head, cs) && Fat(ViewOf(info, d')) == Fat(ViewOf(info, d))
  {
    hide ViewOf, BootSectorInfo.Fits, IsChain;
    assert Fat(ViewOf(info, d')) == Fat(ViewOf(info, d));
  }

  lemma DataKeepsChainSince(dev: BlkDevice, info: BootSectorInfo, v: View, d: seq<Sector>, h: nat, head: nat, cs: seq<nat>,
                            ns: seq<nat>, from: nat)
    requires ChainKept(info, v, d, head, cs) && Disjoint(cs, ns) && from <= h <= |dev.history|
    requires forall t :: from <= t < h ==> ChainKept(info, v, dev.history[t], head, cs)
    requires OnlyClustersSince(dev, info, ViewOf(info, d), ns, h)
    ensures ChainKeptSince(dev, info, v, head, cs, from) && Fat(ViewOf(info, dev.disk)) == Fat(ViewOf(info, d))
  {
    hide OnlyClusters, ChainKept, ViewOf, Disjoint;
    DataKeepsChain(info, v, d, dev.disk, head, cs, ns);
    forall t | from <= t < |dev.history| ensures ChainKept(info, v, dev.history[t], head, cs) {
      if h <= t {
        DataKeepsChain(info, v, d, dev.history[t], head, cs, ns);
      }
    }
  }

  /** What is known when the link is written. */
  ghost predicate LinkReady(info: BootSectorInfo, v: View, d: seq<Sector>, head: nat, cs: seq<nat>, ns: seq<nat>): (ok: bool)
    ensures ok ==> info.Fits(|d|) && WellFormed(info, ViewOf(info, d)) && 0 < |cs| && 0 < |ns| && Last(cs) < info.Entries()
  {
    && ChainKept(info, v, d, head, cs) && Disjoint(cs, ns) && 0 < |ns| && ns[0] < MASK28
    && WellFormed(info, ViewOf(info, d)) && WellFormed(info, v)
    && IsChain(Fat(ViewOf(info, d)), ns[0], ns)
    && Last(cs) < info.Entries() && |Fat(v)| == info.Entries() == |Fat(ViewOf(info, d))| <= MAX_ENTRIES
    && Fat(ViewOf(info, d))[Last(cs)] == Fat(v)[Last(cs)]
  }

  /** A link write, wherever it stops, leaves the old chain, the extended one or a torn link. */
  lemma LinkLeaves(info: BootSectorInfo, v: View, d: seq<Sector>, d': seq<Sector>, head: nat, cs: seq<nat>, ns: seq<nat>, whole: bool)
    requires LinkReady(info, v, d, head, cs, ns)
    requires EntryLeft(info, ViewOf(info, d), d', Last(cs), ns[0], whole)
    ensures ChainSafe(info, v, d', head, cs, ns, ViewOf(info, d), whole)
    ensures Fat(ViewOf(info, d')) == Fat(ViewOf(info, d))[Last(cs) := ns[0]] ==>
      ChainExtended(info, v, d', head, cs, ns, ViewOf(info, d))
  {
    hide ViewOf, BootSectorInfo.Fits, Mixed, Patched, TornFrom;
    var w, w', last := ViewOf(info, d), ViewOf(info, d'), Last(cs);
    ChainAppend(Fat(w), head, cs, ns);
    var x: nat :| Mixed(w.fats[0][last], Patched(w.fats[0][last], ns[0]), x, whole) && Fat(w') == Fat(w)[last := x % MASK28];
    if x % MASK28 == ns[0] {
      assert ChainExtended(info, v, d', head, cs, ns, w);
    } else {
      ChainRelinked(Fat(w), head, cs, x % MASK28);
      if IsEndOfChain(x % MASK28) {
        assert ChainKept(info, v, d', head, cs);
      } else {
        WholeIsOldOrNew(Fat(w), w.fats[0][last], ns[0], x, whole, cs, head);
        TornSo(w.fats[0][last], ns[0], x, whole);
        assert TornLink(info, v, d', cs, ns[0]);
      }
    }
  }

  lemma TornSo(a: nat, n: nat, x: nat, whole: bool)
    requires Mixed(a, Patched(a, n), x, whole)
    ensures TornFrom(a % MASK28, n, x % MASK28)
  {
    hide Patched;
    assert Mixed(a, Patched(a, n), x, false);
  }

  /** On a device that writes whole words, an entry that ended the chain becomes the new link or stays an end mark. */
  lemma WholeIsOldOrNew(fat: seq<nat>, a: nat, n: nat, x: nat, whole: bool, cs: seq<nat>, head: nat)
    requires IsChain(fat, head, cs) && Last(cs) < |fat| && a % MASK28 == fat[Last(cs)] && n < MASK28
    requires Mixed(a, Patched(a, n), x, whole) && x % MASK28 != n && !IsEndOfChain(x % MASK28)
    ensures !whole
  {
    assert Follows(fat, cs, |cs| - 1);
  }

  /** Rewriting the last entry of a chain keeps the other links, and keeps the chain if the new one ends it. */
  lemma ChainRelinked(fat: seq<nat>, head: nat, cs: seq<nat>, x: nat)
    requires Small(fat) && IsChain(fat, head, cs)
    ensures Last(cs) < |fat|
    ensures LinksKept(fat[Last(cs) := x], cs)
    ensures IsEndOfChain(x) ==> IsChain(fat[Last(cs) := x], head, cs)
  {
    assert Follows(fat, cs, |cs| - 1);
    ChainDistinct(fat, head, cs);
    var fat' := fat[Last(cs) := x];
    forall i | 0 <= i < |cs| - 1 ensures Follows(fat', cs, i) {
      assert Follows(fat, cs, i);
    }
  }

  /** A torn link is reached: where the end mark 0x0FFFFFFF is overwritten by 3 and only the low byte gets there,
      the entry becomes 0x0FFFFF03. */
  lemma TornLinkReached(dev: BlkDevice, info: BootSectorInfo, d: seq<Sector>, d': seq<Sector>, head: nat, cs: seq<nat>, t: nat)
    requires info.Fits(|d|) && info.Fits(|d'|) && 0 < |cs| && IsChain(Fat(ViewOf(info, d)), head, cs) && Last(cs) < info.Entries()
    requires ViewOf(info, d).fats[0][Last(cs)] == 0x0FFF_FFFF
    requires dev.script(t).Works? && dev.script(t + 1) == Fails({4 * (Last(cs) % ENTRIES_PER_SECTOR)})
    requires ViewOf(info, d').clusters == ViewOf(info, d).clusters
    requires Fat(ViewOf(info, d')) == Fat(ViewOf(info, d))[Last(cs) := CopyZeroAfter(dev, info, d, Last(cs), 3, t) % MASK28]
    ensures Fat(ViewOf(info, d'))[Last(cs)] == 0x0FFF_FF03 && TornLink(info, ViewOf(info, d), d', cs, 3)
  {
    hide ViewOf, BootSectorInfo.Fits, IsChain, EntryAt, FatSector, Torn, PatchedSector, TornFrom, Patched, LinksKept, WellFormed;
    var c := Last(cs);
    LayoutFacts(info, |d|);
    FatSectorOnDisk(info, |d|, 0, c);
    RawWrite(info, d, 0, c, 0);
    LowByteTorn(d[FatSector(info, 0, c)], c);
    ViewWellFormed(info, d);
    WellFormedFat(info, ViewOf(info, d));
    ChainRelinked(Fat(ViewOf(info, d)), head, cs, 0x0FFF_FF03);
    LowByteMixed();
  }

  lemma LowByteMixed()
    ensures TornFrom(0x0FFF_FFFF, 3, 0x0FFF_FF03)
  {
    assert Mixed(0x0FFF_FFFF, Patched(0x0FFF_FFFF, 3), 0x0FFF_FF03, false);
  }

  lemma LowByteTorn(s: Sector, c: nat)
    requires EntryAt(s, c % ENTRIES_PER_SECTOR) == 0x0FFF_FFFF
    ensures var w := c % ENTRIES_PER_SECTOR; EntryAt(Torn(s, PatchedSector(s, c, 3), {4 * w}), w) == 0x0FFF_FF03
  {
    var w := c % ENTRIES_PER_SECTOR;
    var p := PatchedSector(s, c, 3);
    assert p[4 * w] == 3;
    U32Injective(s[4 * w..4 * w + 4], [0xFF, 0xFF, 0xFF, 0x0F]);
    assert Torn(s, p, {4 * w})[4 * w..4 * w + 4] == [3, 0xFF, 0xFF, 0x0F];
  }

  lemma LinkLeavesSince(dev: BlkDevice, info: BootSectorInfo, v: View, d: seq<Sector>, h: nat, head: nat, cs: seq<nat>, ns: seq<nat>, from: nat)
    requires LinkReady(info, v, d, head, cs, ns) && from <= h <= |dev.history| && info.Fits(|dev.disk|)
    requires forall t :: from <= t < h ==> ChainKept(info, v, dev.history[t], head, cs)
    requires EntryLeft(info, ViewOf(info, d), dev.disk, Last(cs), ns[0], dev.WholeWords())
    requires EntryLeftSince(info, ViewOf(info, d), dev.history, h, Last(cs), ns[0], dev.WholeWords())
    ensures ChainSafeSince(dev, info, v, head, cs, ns, ViewOf(info, d), from)
    ensures Fat(ViewOf(info, dev.disk)) == Fat(ViewOf(info, d))[Last(cs) := ns[0]] ==>
      ChainExtended(info, v, dev.disk, head, cs, ns, ViewOf(info, d))
  {
    hide LinkReady, EntryLeft, ChainKept, ViewOf, ChainExtended, TornLink, BootSectorInfo.Fits;
    LinkLeaves(info, v, d, dev.disk, head, cs, ns, dev.WholeWords());
    forall t | from <= t < |dev.history| ensures ChainSafe(info, v, dev.history[t], head, cs, ns, ViewOf(info, d), dev.WholeWords()) {
      if h <= t {
        LinkLeaves(info, v, d, dev.history[t], head, cs, ns, dev.WholeWords());
      }
    }
  }

  // ----- growing a file's chain

  lemma NewChainReady(info: BootSectorInfo, v: View, d: seq<Sector>, d2: seq<Sector>, head: nat, cs: seq<nat>, ns: seq<nat>)
    requires WellFormed(info, v) && IsChain(Fat(v), head, cs) && ChainKept(info, v, d2, head, cs)
    requires info.Fits(|d|) && SmallestFree(Fat(v), ns) && 0 < |ns| && Linked(Fat(v), Fat(ViewOf(info, d)), ns)
    requires Fat(ViewOf(info, d2)) == Fat(ViewOf(info, d))
    requires Last(cs) < |Fat(v)| == |Fat(ViewOf(info, d))| && Fat(ViewOf(info, d))[Last(cs)] == Fat(v)[Last(cs)]
    ensures LinkReady(info, v, d2, head, cs, ns)
  {
    hide ViewOf, BootSectorInfo.Fits, Fat, Linked, IsChain, WellFormed, SmallestFree;
    ViewWellFormed(info, d2);
    WellFormedFat(info, v);
    WellFormedFat(info, ViewOf(info, d2));
    FreshApart(Fat(v), head, cs, ns);
    LinkedIsChain(Fat(v), Fat(ViewOf(info, d)), ns);
  }

  /** Free clusters are in no chain. */
  lemma FreshApart(fat: seq<nat>, head: nat, cs: seq<nat>, ns: seq<nat>)
    requires IsChain(fat, head, cs) && SmallestFree(fat, ns)
    ensures Disjoint(cs, ns) && 0 < |cs| && Distinct(ns) && Ascending(ns)
    ensures forall i :: 0 <= i < |ns| ==> 2 <= ns[i] < |fat|
  {
    hide IsChain;
    forall c | c in cs ensures c !in ns {
      ChainNotFree(fat, head, cs, c);
    }
    AscendingBounded(fat, ns);
    HeadFirst(fat, head, cs);
  }

  lemma HeadFirst(fat: seq<nat>, head: nat, cs: seq<nat>)
    requires IsChain(fat, head, cs)
    ensures 0 < |cs| && cs[0] == head
  {
  }

  lemma AllocatedRange(info: BootSectorInfo, v: View, ns: seq<nat>)
    requires WellFormed(info, v) && SmallestFree(Fat(v), ns)
    ensures Distinct(ns) && Ascending(ns) && forall i :: 0 <= i < |ns| ==> 2 <= ns[i] < info.Entries()
  {
    WellFormedFat(info, v);
    AscendingBounded(Fat(v), ns);
  }

  lemma SameData(v: View, v1: View, ns: seq<nat>, data: seq<Byte>, m: nat, t: Sector)
    requires v1.clusters == v.clusters && m <= |ns|
    ensures PartWritten(v1, ns, data, m, t).clusters == PartWritten(v, ns, data, m, t).clusters
  {
    SameChunks(v, v1, ns, data, m);
  }

  lemma {:induction false} SameChunks(v: View, v1: View, ns: seq<nat>, data: seq<Byte>, m: nat)
    requires v1.clusters == v.clusters && m <= |ns|
    ensures WithChunks(v1, ns, data, m).clusters == WithChunks(v, ns, data, m).clusters
  {
    if 0 < m { SameChunks(v, v1, ns, data, m - 1); }
  }

  lemma KeptData(dev: BlkDevice, info: BootSectorInfo, v: View, from: nat)
    requires info.Fits(|dev.disk|) && WellFormed(info, v) && KeptSince(dev, info, v, from)
    ensures Vol(dev, info).clusters == v.clusters
  {
  }

  /** Since `from`, the chain is as `ChainSafe` says, the new clusters being `ns` with `m` of them initialised. */
  ghost predicate AppendSafe(dev: BlkDevice, info: BootSectorInfo, v: View, head: nat, cs: seq<nat>, ns: seq<nat>, data: seq<Byte>,
                             m: nat, t: Sector, from: nat)
    reads dev`disk, dev`history
  {
    m <= |ns| && ChainSafeSince(dev, info, v, head, cs, ns, PartWritten(v, ns, data, m, t), from)
  }

  lemma SafeWithSameData(dev: BlkDevice, info: BootSectorInfo, v: View, head: nat, cs: seq<nat>, ns: seq<nat>, u: View, u': View, from: nat)
    requires ChainSafeSince(dev, info, v, head, cs, ns, u, from) && SameClusters(u, u', ns)
    ensures ChainSafeSince(dev, info, v, head, cs, ns, u', from)
  {
    hide ChainKept, TornLink, IsChain, ViewOf, BootSectorInfo.Fits;
    forall d | ChainSafe(info, v, d, head, cs, ns, u, dev.WholeWords())
      ensures ChainSafe(info, v, d, head, cs, ns, u', dev.WholeWords())
    {
      if ChainExtended(info, v, d, head, cs, ns, u) { ExtendedWithSameData(info, v, d, head, cs, ns, u, u'); }
    }
  }

  lemma ExtendedWithSameData(info: BootSectorInfo, v: View, d: seq<Sector>, head: nat, cs: seq<nat>, ns: seq<nat>, u: View, u': View)
    requires ChainExtended(info, v, d, head, cs, ns, u) && SameClusters(u, u', ns)
    ensures ChainExtended(info, v, d, head, cs, ns, u')
  {
    hide IsChain, ViewOf, BootSectorInfo.Fits;
  }

  /** The volume after `ns` was allocated (`v1`), given its data and linked behind `last`. */
  ghost predicate Appended(info: BootSectorInfo, v: View, v1: View, w: View, last: nat, ns: seq<nat>, data: seq<Byte>)
    requires WellFormed(info, v)
  {
    && 0 < |ns| && last < info.Entries() && Rewritten(info, v, v1, ns, LinkValues(ns), |ns|, 0)
    && WellFormed(info, v1) && WellFormed(info, WithChunks(v1, ns, data, |ns|))
    && w == WriteEntry(info, WithChunks(v1, ns, data, |ns|), last, ns[0])
  }

  ghost predicate ChainEndsIn(fat: seq<nat>, head: nat, cs: seq<nat>, last: nat): (ok: bool)
    ensures ok ==> 0 < |cs| && last == Last(cs)
  {
    IsChain(fat, head, cs) && last == Last(cs)
  }

  /** Allocates and links `count` new clusters and writes their data, which leaves the chain `cs` alone. */
  method PrepareClusters(dev: BlkDevice, info: BootSectorInfo, count: nat, data: seq<Byte>, out: array<nat>, ghost head: nat, ghost cs: seq<nat>)
    returns (taken: bool, ok: bool, ghost v1: View, ghost m: nat, ghost t: Sector)
    requires info.Fits(|dev.disk|) && count <= out.Length
    modifies dev, out
    ensures |dev.disk| == |old(dev.disk)| && old(dev.history) <= dev.history
    ensures taken ==> 1 <= count && SmallestFree(Fat(old(Vol(dev, info))), out[..count]) && m <= count
    ensures ok ==> taken && m == count
    ensures taken ==> v1.clusters == old(Vol(dev, info)).clusters && Vol(dev, info) == PartWritten(v1, out[..count], data, m, t)
    ensures IsChain(Fat(old(Vol(dev, info))), head, cs) ==>
      && ChainKeptSince(dev, info, old(Vol(dev, info)), head, cs, |old(dev.history)|)
      && (taken ==> LinkReady(info, old(Vol(dev, info)), dev.disk, head, cs, out[..count]))
    ensures dev.Reliable() ==>
      && (taken <==> 1 <= count <= |FreeSet(Fat(old(Vol(dev, info))))|) && HintStays(info, old(Vol(dev, info)), Vol(dev, info))
      && (!taken ==> if count == 0 then Vol(dev, info) == old(Vol(dev, info)) else RolledBack(info, old(Vol(dev, info)), Vol(dev, info)))
      && (taken ==>
            && (ok <==> HaveFirst(old(Vol(dev, info)), out[..count])) && WellFormed(info, v1)
            && Rewritten(info, old(Vol(dev, info)), v1, out[..count], LinkValues(out[..count]), count, 0)
            && Vol(dev, info) == WithChunks(v1, out[..count], data, count))
  {
    hide ViewOf, BootSectorInfo.Fits, Fat, BlkDevice.Reliable, SmallestFree, Linked, FreeSet, RolledBack, Rewritten, LinkValues,
      HintStays, KeptSince, IsChain, WellFormed, LinkReady, WithChunks, PartWritten, Ascending, ChainKept, OnlyClusters, Disjoint;
    ghost var v, from := Vol(dev, info), |dev.history|;
    v1, m, t := v, 0, ZeroSector();
    HintStaysSame(info, v, v);
    taken := AllocateClusterChain(dev, info, count, out);
    v1 := Vol(dev, info);
    KeptData(dev, info, v, from);
    if IsChain(Fat(v), head, cs) { ReservingKeepsChainSince(dev, info, v, head, cs, from); }
    if !taken {
      return false, false, v1, 0, t;
    }
    ghost var ns, d1, h1 := out[..count], dev.disk, |dev.history|;
    AllocatedRange(info, v, ns);
    ok, m, t := WriteChunks(dev, info, out[..count], data);
    if IsChain(Fat(v), head, cs) {
      FreshApart(Fat(v), head, cs, ns);
      DataKeepsChainSince(dev, info, v, d1, h1, head, cs, ns, from);
      NewChainReady(info, v, d1, dev.disk, head, cs, ns);
    }
    if dev.Reliable() {
      HintStaysSame(info, v1, Vol(dev, info));
      HintStaysThrough(info, v, v1, Vol(dev, info));
    }
  }

  /** Appends `count` new clusters behind `last`: allocates and links them, writes their data and then points
      `last` at the first, whether or not every data write succeeded. `taken` says whether there were
      that many, `ok` whether all their data and the link were written; `m` clusters got theirs. With any device, every
      write leaves the chain that ends in `last` as it was, extended by the new clusters as far as they
      were initialised, or with a torn link. Where the FAT does not cover `last`, the link goes to the words
      outside it that the driver takes for the entries of `last`; `linking` is the disk before. */
  method AppendClusters(dev: BlkDevice, info: BootSectorInfo, last: nat, count: nat, data: seq<Byte>, out: array<nat>,
                        ghost head: nat, ghost cs: seq<nat>)
    returns (taken: bool, ok: bool, ghost v1: View, ghost m: nat, ghost t: Sector, ghost linking: seq<Sector>)
    requires info.Fits(|dev.disk|) && count <= out.Length
    modifies dev, out
    ensures |dev.disk| == |old(dev.disk)| && old(dev.history) <= dev.history
    ensures taken ==> 1 <= count && SmallestFree(Fat(old(Vol(dev, info))), out[..count]) && m <= count
    ensures ok ==> taken && m == count
    ensures ChainEndsIn(Fat(old(Vol(dev, info))), head, cs, last) ==>
      if taken then AppendSafe(dev, info, old(Vol(dev, info)), head, cs, out[..count], data, m, t, |old(dev.history)|)
      else ChainKeptSince(dev, info, old(Vol(dev, info)), head, cs, |old(dev.history)|)
    ensures dev.Reliable() ==> (taken <==> 1 <= count <= |FreeSet(Fat(old(Vol(dev, info))))|)
    ensures dev.Reliable() && !taken ==>
      if count == 0 then Vol(dev, info) == old(Vol(dev, info)) else RolledBack(info, old(Vol(dev, info)), Vol(dev, info))
    ensures dev.Reliable() && taken ==>
      && (last < info.Entries() ==>
            && (ok <==> HaveFirst(old(Vol(dev, info)), out[..count]))
            && Appended(info, old(Vol(dev, info)), v1, Vol(dev, info), last, out[..count], data))
      && (4 * last < U32_LIMIT ==> WordsWritten(info, linking, dev.disk, last, out[0], info.numFats))
      && info.Fits(|linking|) && Rewritten(info, old(Vol(dev, info)), v1, out[..count], LinkValues(out[..count]), count, 0)
      && ViewOf(info, linking) == WithChunks(v1, out[..count], data, count)
    ensures dev.Reliable() && last < info.Entries() ==> HintStays(info, old(Vol(dev, info)), Vol(dev, info))
  {
    hide ViewOf, BootSectorInfo.Fits, Fat, BlkDevice.Reliable, SmallestFree, FreeSet, RolledBack, Rewritten, LinkValues, WriteEntry,
      HintStays, IsChain, WellFormed, LinkReady, WithChunks, PartWritten, ChainKept, ChainSafe, EntryLeft, WordsWritten, WordsPart;
    ghost var v, from := Vol(dev, info), |dev.history|;
    taken, ok, v1, m, t := PrepareClusters(dev, info, count, data, out, head, cs);
    linking := dev.disk;
    if !taken {
      return false, false, v1, m, t, linking;
    }
    ghost var ns, v2, h2 := out[..count], Vol(dev, info), |dev.history|;
    var linked := WriteFatEntry(dev, info, last, out[0]);
    ok := ok && linked;
    if dev.Reliable() && last < info.Entries() {
      OneWriteHint(info, v2, last, out[0]);
      HintStaysThrough(info, v, v2, Vol(dev, info));
    }
    if ChainEndsIn(Fat(v), head, cs, last) {
      LinkLeavesSince(dev, info, v, linking, h2, head, cs, ns, from);
      SameData(v, v1, ns, data, m, t);
      SafeWithSameData(dev, info, v, head, cs, ns, v2, PartWritten(v, ns, data, m, t), from);
    }
  }
}
