/** The driver's directory scans and file reads, as loops over sectors and clusters, and their
    agreement with lookup and with the bytes of a chain. */
module FatFiles {
  import opened Bytes
  import opened FatLayout
  import opened FatChains
  import opened Volume
  import opened BlockDevice
  import opened FatDirectory
  import opened DirectoryMap
  import opened FatAllocator
  import opened FatChainGrowth
  import opened FatDirectoryGrowth
  import opened FileSystem
  import opened FileContents

  /** A sector of a cluster that the disk has, by number and by content. */
  lemma SectorOfCluster(info: BootSectorInfo, d: seq<Sector>, c: nat, s: nat)
    requires info.Fits(|d|) && 2 <= c < info.Entries() && s < |ViewOf(info, d).clusters[c]|
    ensures ClusterStart(info, c) + s < |d|
    ensures ViewOf(info, d).clusters[c][s] == d[ClusterStart(info, c) + s]
    ensures info.ClusterToSector(c) == Some(ClusterStart(info, c))
  {
    hide ClusterStart, FatCopy, BootSectorInfo.ClusterToSector;
    assert ViewOf(info, d).clusters[c] == ClusterSectors(info, d, c);
    ClusterResolves(info, c);
  }

  /** Slot `j` of sector `s` of the `k`-th cluster, as a position in the directory. */
  lemma SlotPosition(info: BootSectorInfo, v: View, cs: seq<nat>, k: nat, s: nat, j: nat)
    requires Sized(v.clusters, info.sectorsPerCluster, cs)
    requires k < |cs| && s < info.sectorsPerCluster && j < SLOTS_PER_SECTOR
    ensures SlotIndex(info, k, s, j) < |DirSlots(v, cs)|
    ensures DirSlots(v, cs)[SlotIndex(info, k, s, j)] == SlotOf(v.clusters[cs[k]][s], j)
  {
    ChainSectorsAt(v.clusters, info.sectorsPerCluster, cs, k, s);
    SlotsAt(ChainSectors(v.clusters, cs), Blocks(k, info.sectorsPerCluster) + s, j);
  }

  lemma DirLength(info: BootSectorInfo, v: View, cs: seq<nat>)
    requires Sized(v.clusters, info.sectorsPerCluster, cs)
    ensures |DirSlots(v, cs)| == SlotIndex(info, |cs|, 0, 0)
  {
    ChainSectorsLength(v.clusters, info.sectorsPerCluster, cs);
  }

  // ----- one sector

  datatype Scan = Found(entry: ShortDirEntry, index: nat) | End(index: nat) | Next

  /** What a scan of one directory sector for `name` comes to. */
  ghost predicate ScanResult(sector: Sector, name: Name, r: Scan) {
    match r
    case Found(e, j) => j < SLOTS_PER_SECTOR && Matches(SlotOf(sector, j), name)
                        && ParseShortDirEntry(SlotOf(sector, j)) == Some(e) && SectorPassed(sector, name, j)
    case End(j) => j < SLOTS_PER_SECTOR && SlotOf(sector, j)[0] == 0 && SectorPassed(sector, name, j)
    case Next => SectorPassed(sector, name, SLOTS_PER_SECTOR)
  }

  ghost predicate SectorPassed(sector: Sector, name: Name, n: nat)
    requires n <= SLOTS_PER_SECTOR
  {
    forall j :: 0 <= j < n ==> Passed(SlotOf(sector, j), name)
  }

  method ScanSector(sector: Sector, name: Name) returns (r: Scan)
    ensures ScanResult(sector, name, r)
  {
    var j := 0;
    while j < SLOTS_PER_SECTOR
      invariant 0 <= j <= SLOTS_PER_SECTOR && SectorPassed(sector, name, j)
    {
      var slot := SlotOf(sector, j);
      if slot[0] == 0 {
        return End(j);
      }
      var entry := ParseShortDirEntry(slot);
      if entry.Some? && entry.value.name == name {
        return Found(entry.value, j);
      }
      j := j + 1;
    }
    return Next;
  }

  /** The first slot of a sector that `create` may write into. */
  method FindReusableSlot(sector: Sector) returns (r: Option<nat>)
    ensures r.Some? ==> r.value < SLOTS_PER_SECTOR && Reusable(SlotOf(sector, r.value))
    ensures forall j :: 0 <= j < (if r.Some? then r.value else SLOTS_PER_SECTOR) ==> !Reusable(SlotOf(sector, j))
  {
    var j := 0;
    while j < SLOTS_PER_SECTOR
      invariant 0 <= j <= SLOTS_PER_SECTOR && forall i :: 0 <= i < j ==> !Reusable(SlotOf(sector, i))
    {
      if SlotOf(sector, j)[0] == 0 || SlotOf(sector, j)[0] == DELETED {
        return Some(j);
      }
      j := j + 1;
    }
    return None;
  }

  // ----- finding an entry

  lemma SectorScanned(info: BootSectorInfo, v: View, cs: seq<nat>, k: nat, s: nat, name: Name, n: nat)
    requires Sized(v.clusters, info.sectorsPerCluster, cs) && k < |cs| && s < info.sectorsPerCluster && n <= SLOTS_PER_SECTOR
    requires SlotIndex(info, k, s, 0) <= |DirSlots(v, cs)| && AllPassed(DirSlots(v, cs), name, 0, SlotIndex(info, k, s, 0))
    requires SectorPassed(v.clusters[cs[k]][s], name, n)
    ensures SlotIndex(info, k, s, n) <= |DirSlots(v, cs)| && AllPassed(DirSlots(v, cs), name, 0, SlotIndex(info, k, s, n))
  {
    SlotPosition(info, v, cs, k, s, SLOTS_PER_SECTOR - 1);
    forall q | 0 <= q < SlotIndex(info, k, s, n) ensures Passed(DirSlots(v, cs)[q], name) {
      var j := q - SlotIndex(info, k, s, 0);
      if 0 <= j {
        SlotPosition(info, v, cs, k, s, j);
      }
    }
  }

  /** A scan that stops at a slot decides the lookup. */
  lemma ScanDecides(info: BootSectorInfo, v: View, cs: seq<nat>, k: nat, s: nat, name: Name, r: Scan)
    requires Sized(v.clusters, info.sectorsPerCluster, cs) && k < |cs| && s < info.sectorsPerCluster
    requires SlotIndex(info, k, s, 0) <= |DirSlots(v, cs)| && AllPassed(DirSlots(v, cs), name, 0, SlotIndex(info, k, s, 0))
    requires ScanResult(v.clusters[cs[k]][s], name, r)
    ensures r.End? ==> Find(DirSlots(v, cs), name, 0).None?
    ensures r.Found? ==>
      && Find(DirSlots(v, cs), name, 0) == Some(SlotIndex(info, k, s, r.index))
      && SlotIndex(info, k, s, r.index) < |DirSlots(v, cs)|
      && ParseShortDirEntry(DirSlots(v, cs)[SlotIndex(info, k, s, r.index)]) == Some(r.entry)
    ensures r.Next? ==>
      SlotIndex(info, k, s + 1, 0) <= |DirSlots(v, cs)| && AllPassed(DirSlots(v, cs), name, 0, SlotIndex(info, k, s + 1, 0))
  {
    hide DirSlots;
    var n := if r.Next? then SLOTS_PER_SECTOR else r.index;
    SectorScanned(info, v, cs, k, s, name, n);
    if !r.Next? {
      SlotPosition(info, v, cs, k, s, n);
      FindSkips(DirSlots(v, cs), name, 0, SlotIndex(info, k, s, n));
    } else {
      assert SlotIndex(info, k, s + 1, 0) == SlotIndex(info, k, s, SLOTS_PER_SECTOR);
    }
  }

  /** Scans one cluster of the directory, sector by sector. */
  method ScanCluster(dev: BlkDevice, info: BootSectorInfo, cluster: nat, name: Name, ghost cs: seq<nat>, ghost k: nat)
    returns (r: Scan, sectorNum: nat, ghost s: nat)
    requires info.Fits(|dev.disk|) && dev.Reliable() && Sized(Vol(dev, info).clusters, info.sectorsPerCluster, cs)
    requires k < |cs| && cluster == cs[k] && 2 <= cluster < info.Entries() && 1 <= info.sectorsPerCluster
    requires SlotIndex(info, k, 0, 0) <= |DirSlots(Vol(dev, info), cs)|
    requires AllPassed(DirSlots(Vol(dev, info), cs), name, 0, SlotIndex(info, k, 0, 0))
    modifies dev`clock
    ensures r.End? ==> Find(DirSlots(Vol(dev, info), cs), name, 0).None?
    ensures r.Found? ==>
      && s < info.sectorsPerCluster && r.index < SLOTS_PER_SECTOR && sectorNum == ClusterStart(info, cluster) + s
      && Find(DirSlots(Vol(dev, info), cs), name, 0) == Some(SlotIndex(info, k, s, r.index))
      && SlotIndex(info, k, s, r.index) < |DirSlots(Vol(dev, info), cs)|
      && ParseShortDirEntry(DirSlots(Vol(dev, info), cs)[SlotIndex(info, k, s, r.index)]) == Some(r.entry)
    ensures r.Next? ==>
      && SlotIndex(info, k + 1, 0, 0) <= |DirSlots(Vol(dev, info), cs)|
      && AllPassed(DirSlots(Vol(dev, info), cs), name, 0, SlotIndex(info, k + 1, 0, 0))
  {
    hide BootSectorInfo.Fits, ViewOf, Find, DirSlots, AllPassed, ParseShortDirEntry, Matches, Sized, BootSectorInfo.ClusterToSector,
      WellFormed, Fat, SectorPassed;
    ghost var v := Vol(dev, info);
    SizedHere(v, info.sectorsPerCluster, cs, k);
    SectorOfCluster(info, dev.disk, cluster, 0);
    var sector0 := info.ClusterToSector(cluster).value;
    sectorNum, s := sector0, 0;
    var i := 0;
    while i < info.sectorsPerCluster
      invariant 0 <= i <= info.sectorsPerCluster
      invariant SlotIndex(info, k, i, 0) <= |DirSlots(v, cs)| && AllPassed(DirSlots(v, cs), name, 0, SlotIndex(info, k, i, 0))
    {
      SectorOfCluster(info, dev.disk, cluster, i);
      var sector := dev.ReadSector(sector0 + i);
      r := ScanSector(sector.value, name);
      ScanDecides(info, v, cs, k, i, name, r);
      if !r.Next? {
        return r, sector0 + i, i;
      }
      i := i + 1;
    }
    return Next, sector0, 0;
  }

  lemma SizedHere(v: View, spc: nat, cs: seq<nat>, k: nat)
    requires Sized(v.clusters, spc, cs) && k < |cs|
    ensures cs[k] < |v.clusters| && |v.clusters[cs[k]]| == spc
  {
  }

  // ----- walking the directory chain

  lemma WalkedChain(dev: BlkDevice, info: BootSectorInfo, head: nat, cs: seq<nat>)
    requires info.Fits(|dev.disk|) && IsChain(Fat(Vol(dev, info)), head, cs)
    ensures 0 < |cs| && cs[0] == head
    ensures forall i :: 0 <= i < |cs| ==> 2 <= cs[i] < info.Entries()
  {
    forall i | 0 <= i < |cs| ensures 2 <= cs[i] < info.Entries() {
      assert Follows(Fat(Vol(dev, info)), cs, i);
    }
  }

  /** Scans the directory chain `cs` for a short name and returns its entry and where it lies: the
      lookup's answer on the first 1024 clusters, which is all of any directory that short. */
  method FindEntryWithLocation(dev: BlkDevice, info: BootSectorInfo, dirCluster: nat, name: Name, ghost cs: seq<nat>)
    returns (r: Option<(ShortDirEntry, nat, nat)>, ghost k: nat, ghost s: nat, ghost j: nat)
    requires info.Fits(|dev.disk|) && dev.Reliable() && IsChain(Fat(Vol(dev, info)), dirCluster, cs)
    requires Sized(Vol(dev, info).clusters, info.sectorsPerCluster, Walked(cs))
    modifies dev`clock
    ensures r.None? <==> Find(DirSlots(Vol(dev, info), Walked(cs)), name, 0).None?
    ensures r.Some? ==>
      && k < |Walked(cs)| && s < info.sectorsPerCluster && j < SLOTS_PER_SECTOR
      && Find(DirSlots(Vol(dev, info), Walked(cs)), name, 0) == Some(SlotIndex(info, k, s, j))
      && SlotIndex(info, k, s, j) < |DirSlots(Vol(dev, info), Walked(cs))|
      && ParseShortDirEntry(DirSlots(Vol(dev, info), Walked(cs))[SlotIndex(info, k, s, j)]) == Some(r.value.0)
      && 2 <= cs[k] && r.value.1 == ClusterStart(info, cs[k]) + s && r.value.2 == 32 * j
  {
    hide BootSectorInfo.Fits, ViewOf, Find, DirSlots, AllPassed, ParseShortDirEntry, Sized, WellFormed, Fat, IsChain;
    ghost var v, ds := Vol(dev, info), Walked(cs);
    WalkedChain(dev, info, dirCluster, cs);
    SectorsPerClusterPositive(info, |dev.disk|);
    DirLength(info, v, ds);
    PassedNone(DirSlots(v, ds), name);
    k, s, j := 0, 0, 0;
    var cluster, visited := dirCluster, 0;
    while visited < WALK_CAP
      invariant 0 <= visited <= |ds|
      invariant visited < |cs| && cluster == cs[visited]
      invariant SlotIndex(info, visited, 0, 0) <= |DirSlots(v, ds)|
      invariant AllPassed(DirSlots(v, ds), name, 0, SlotIndex(info, visited, 0, 0))
    {
      var scan, sectorNum;
      scan, sectorNum, s := ScanCluster(dev, info, cluster, name, ds, visited);
      if scan.Found? {
        return Some((scan.entry, sectorNum, scan.index * 32)), visited, s, scan.index;
      }
      if scan.End? {
        return None, 0, 0, 0;
      }
      ChainStep(Fat(v), dirCluster, cs, visited);
      var next := NextClusterInChain(dev, info, cluster);
      visited := visited + 1;
      if IsEndOfChain(next.value) {
        PassedAll(DirSlots(v, ds), name);
        return None, 0, 0, 0;
      }
      cluster := next.value;
    }
    PassedAll(DirSlots(v, ds), name);
    return None, 0, 0, 0;
  }

  lemma PassedNone(slots: seq<Slot>, name: Name)
    ensures AllPassed(slots, name, 0, 0)
  {
  }

  lemma PassedAll(slots: seq<Slot>, name: Name)
    requires AllPassed(slots, name, 0, |slots|)
    ensures Find(slots, name, 0).None?
  {
    FindSkips(slots, name, 0, |slots|);
  }

  /** The entry alone. */
  method FindEntryInDirectory(dev: BlkDevice, info: BootSectorInfo, dirCluster: nat, name: Name, ghost cs: seq<nat>)
    returns (r: Option<ShortDirEntry>)
    requires info.Fits(|dev.disk|) && dev.Reliable() && IsChain(Fat(Vol(dev, info)), dirCluster, cs)
    requires Sized(Vol(dev, info).clusters, info.sectorsPerCluster, Walked(cs))
    modifies dev`clock
    ensures r == Lookup(DirSlots(Vol(dev, info), Walked(cs)), name)
  {
    var found, k, s, j := FindEntryWithLocation(dev, info, dirCluster, name, cs);
    return if found.Some? then Some(found.value.0) else None;
  }

  // ----- a slot to create in

  lemma SectorNotReusable(info: BootSectorInfo, v: View, cs: seq<nat>, k: nat, s: nat, n: nat)
    requires Sized(v.clusters, info.sectorsPerCluster, cs) && k < |cs| && s < info.sectorsPerCluster && n <= SLOTS_PER_SECTOR
    requires SlotIndex(info, k, s, 0) <= |DirSlots(v, cs)| && NoneReusable(DirSlots(v, cs), SlotIndex(info, k, s, 0))
    requires forall j :: 0 <= j < n ==> !Reusable(SlotOf(v.clusters[cs[k]][s], j))
    ensures SlotIndex(info, k, s, n) <= |DirSlots(v, cs)| && NoneReusable(DirSlots(v, cs), SlotIndex(info, k, s, n))
    ensures n < SLOTS_PER_SECTOR && Reusable(SlotOf(v.clusters[cs[k]][s], n)) ==>
      FirstReusable(DirSlots(v, cs), SlotIndex(info, k, s, n))
  {
    hide DirSlots, Reusable;
    SlotPosition(info, v, cs, k, s, SLOTS_PER_SECTOR - 1);
    forall q | 0 <= q < SlotIndex(info, k, s, n) ensures !Reusable(DirSlots(v, cs)[q]) {
      var j := q - SlotIndex(info, k, s, 0);
      if 0 <= j {
        SlotPosition(info, v, cs, k, s, j);
      }
    }
    if n < SLOTS_PER_SECTOR {
      SlotPosition(info, v, cs, k, s, n);
    }
  }

  method FindSlotInCluster(dev: BlkDevice, info: BootSectorInfo, cluster: nat, ghost cs: seq<nat>, ghost k: nat)
    returns (r: Option<(nat, nat)>, ghost s: nat, ghost j: nat)
    requires info.Fits(|dev.disk|) && dev.Reliable() && Sized(Vol(dev, info).clusters, info.sectorsPerCluster, cs)
    requires k < |cs| && cluster == cs[k] && 2 <= cluster < info.Entries() && 1 <= info.sectorsPerCluster
    requires SlotIndex(info, k, 0, 0) <= |DirSlots(Vol(dev, info), cs)|
    requires NoneReusable(DirSlots(Vol(dev, info), cs), SlotIndex(info, k, 0, 0))
    modifies dev`clock
    ensures r.Some? ==>
      && s < info.sectorsPerCluster && j < SLOTS_PER_SECTOR && r.value == (ClusterStart(info, cluster) + s, 32 * j)
      && FirstReusable(DirSlots(Vol(dev, info), cs), SlotIndex(info, k, s, j))
    ensures r.None? ==>
      && SlotIndex(info, k + 1, 0, 0) <= |DirSlots(Vol(dev, info), cs)|
      && NoneReusable(DirSlots(Vol(dev, info), cs), SlotIndex(info, k + 1, 0, 0))
  {
    hide BootSectorInfo.Fits, ViewOf, DirSlots, NoneReusable, Sized, BootSectorInfo.ClusterToSector, WellFormed, Fat,
      FirstReusable, Reusable;
    ghost var v := Vol(dev, info);
    SizedHere(v, info.sectorsPerCluster, cs, k);
    SectorOfCluster(info, dev.disk, cluster, 0);
    var sector0 := info.ClusterToSector(cluster).value;
    var i := 0;
    while i < info.sectorsPerCluster
      invariant 0 <= i <= info.sectorsPerCluster
      invariant SlotIndex(info, k, i, 0) <= |DirSlots(v, cs)| && NoneReusable(DirSlots(v, cs), SlotIndex(info, k, i, 0))
    {
      SectorOfCluster(info, dev.disk, cluster, i);
      var sector := dev.ReadSector(sector0 + i);
      var index := FindReusableSlot(sector.value);
      SectorNotReusable(info, v, cs, k, i, if index.Some? then index.value else SLOTS_PER_SECTOR);
      if index.Some? {
        return Some((sector0 + i, index.value * 32)), i, index.value;
      }
      assert SlotIndex(info, k, i + 1, 0) == SlotIndex(info, k, i, SLOTS_PER_SECTOR);
      i := i + 1;
    }
    return None, 0, 0;
  }

  datatype SlotSource = FoundSlot | GrownBy(cluster: nat) | StuckAt(cluster: nat) | NoRoom | TooLong

  /** What asking for a slot came to, on a directory whose chain is `cs`: a slot found, a cluster added, a first
      free cluster that the disk does not have, no free cluster, or a directory too long to be walked to its end. */
  ghost predicate SlotFound(info: BootSectorInfo, v: View, w: View, cs: seq<nat>, r: Option<(nat, nat)>,
                            source: SlotSource, k: nat, s: nat, j: nat)
    requires WellFormed(info, v)
  {
    match source
    case FoundSlot =>
      && r.Some? && w == v && k < |Walked(cs)| && s < info.sectorsPerCluster && j < SLOTS_PER_SECTOR
      && FirstReusable(DirSlots(v, Walked(cs)), SlotIndex(info, k, s, j))
      && 2 <= cs[k] && r.value == (ClusterStart(info, cs[k]) + s, 32 * j)
    case GrownBy(n) =>
      && r.Some? && |cs| <= WALK_CAP && Full(DirSlots(v, cs))
      && 0 < |cs| && IsFirstFree(Fat(v), n) && 2 <= n < info.Entries() && DirGrown(info, v, w, Last(cs), n)
      && k == |cs| && s == 0 && j == 0 && r.value == (ClusterStart(info, n), 0)
    case StuckAt(n) =>
      r.None? && |cs| <= WALK_CAP && Full(DirSlots(v, cs)) && IsFirstFree(Fat(v), n) && 2 <= n < info.Entries() && DirStuck(info, v, w, n)
    case NoRoom =>
      r.None? && w == v && |cs| <= WALK_CAP && Full(DirSlots(v, cs)) && FreeSet(Fat(v)) == {}
    case TooLong =>
      r.None? && w == v && WALK_CAP < |cs| && Full(DirSlots(v, Walked(cs)))
  }

  /** Finds the first slot a new entry can be written into, growing the directory by one zeroed
      cluster when every slot of every cluster is live. */
  method FindOrGrowCreateSlot(dev: BlkDevice, info: BootSectorInfo, dirCluster: nat, ghost cs: seq<nat>)
    returns (r: Option<(nat, nat)>, ghost source: SlotSource, ghost k: nat, ghost s: nat, ghost j: nat)
    requires info.Fits(|dev.disk|) && dev.Reliable() && IsChain(Fat(Vol(dev, info)), dirCluster, cs)
    requires Sized(Vol(dev, info).clusters, info.sectorsPerCluster, Walked(cs))
    modifies dev
    ensures |dev.disk| == |old(dev.disk)|
    ensures SlotFound(info, old(Vol(dev, info)), Vol(dev, info), cs, r, source, k, s, j)
    ensures HintStays(info, old(Vol(dev, info)), Vol(dev, info))
  {
    hide HintStays, BootSectorInfo.Fits, ViewOf, DirSlots, NoneReusable, Sized, WellFormed, Fat, FirstReusable, Reusable, IsChain,
      BlkDevice.Reliable, DirGrown, DirStuck, IsFirstFree, FreeSet, ClusterStart, ChainExtended, ChainSafe, AllZero;
    ghost var v, ds := Vol(dev, info), Walked(cs);
    WalkedChain(dev, info, dirCluster, cs);
    SectorsPerClusterPositive(info, |dev.disk|);
    DirLength(info, v, ds);
    NotReusableYet(DirSlots(v, ds));
    HintStaysSame(info, v, v);
    var cluster, visited := dirCluster, 0;
    while visited < WALK_CAP
      invariant dev.disk == old(dev.disk)
      invariant 0 <= visited <= |ds|
      invariant visited < |cs| && cluster == cs[visited]
      invariant SlotIndex(info, visited, 0, 0) <= |DirSlots(v, ds)|
      invariant NoneReusable(DirSlots(v, ds), SlotIndex(info, visited, 0, 0))
    {
      r, s, j := FindSlotInCluster(dev, info, cluster, ds, visited);
      if r.Some? {
        return r, FoundSlot, visited, s, j;
      }
      ChainStep(Fat(v), dirCluster, cs, visited);
      var next := NextClusterInChain(dev, info, cluster);
      visited := visited + 1;
      if IsEndOfChain(next.value) {
        assert ds == cs;
        ghost var n;
        r, n := GrowDirectory(dev, info, cluster, dirCluster, cs);
        if r.Some? {
          return r, GrownBy(n), |cs|, 0, 0;
        } else {
          source := if FreeSet(Fat(v)) == {} then NoRoom else StuckAt(n);
          return None, source, 0, 0, 0;
        }
      }
      cluster := next.value;
    }
    return None, TooLong, 0, 0, 0;
  }

  lemma NotReusableYet(slots: seq<Slot>)
    ensures NoneReusable(slots, 0)
  {
  }

  // ----- reading a file

  /** `after` is `before` with `got` written over it from `start` on. */
  ghost predicate Overwritten(before: seq<Byte>, after: seq<Byte>, start: nat, got: seq<Byte>) {
    && |after| == |before| && start + |got| <= |before|
    && forall i :: 0 <= i < |before| ==> after[i] == if start <= i < start + |got| then got[i - start] else before[i]
  }

  lemma OverwrittenNone(a: seq<Byte>, start: nat)
    requires start <= |a|
    ensures Overwritten(a, a, start, [])
  {
  }

  lemma OverwrittenMore(a: seq<Byte>, b: seq<Byte>, c: seq<Byte>, start: nat, got: seq<Byte>, more: seq<Byte>)
    requires Overwritten(a, b, start, got) && Overwritten(b, c, start + |got|, more)
    ensures Overwritten(a, c, start, got + more)
  {
  }

  lemma OverwrittenFront(a: seq<Byte>, b: seq<Byte>, got: seq<Byte>)
    requires Overwritten(a, b, 0, got)
    ensures |got| <= |a| == |b| && b[..|got|] == got && b[|got|..] == a[|got|..]
  {
  }

  lemma NoBytes(bytes: seq<Byte>)
    ensures Prefix(bytes, 0) == []
  {
  }

  method CopyBytes(buf: array<Byte>, at: nat, sector: Sector, take: nat)
    requires at + take <= buf.Length && take <= 512
    modifies buf
    ensures Overwritten(old(buf[..]), buf[..], at, sector[..take])
  {
    forall b | 0 <= b < take {
      buf[at + b] := sector[b];
    }
  }

  /** Copies one cluster's sectors to `buf[start..]`, at most up to `readLen` and up to the first sector that cannot
      be read; `got` is what was copied. */
  method ReadCluster(dev: BlkDevice, info: BootSectorInfo, cluster: nat, sector0: nat, start: nat, readLen: nat, buf: array<Byte>)
    returns (written: nat, ok: bool, ghost got: seq<Byte>)
    requires info.Fits(|dev.disk|) && start < readLen <= buf.Length
    modifies dev`clock, buf
    ensures written == start + |got| <= readLen && Overwritten(old(buf[..]), buf[..], start, got)
    ensures ok ==> written == Min(readLen, start + 512 * info.sectorsPerCluster)
    ensures 2 <= cluster < info.Entries() && sector0 == ClusterStart(info, cluster) ==>
      var bytes := FlatBytes(Vol(dev, info).clusters[cluster]);
      && |got| <= |bytes| && got == Prefix(bytes, |got|)
      && (dev.Reliable() ==> |got| == Min(readLen - start, |bytes|))
      && (dev.Reliable() && |Vol(dev, info).clusters[cluster]| == info.sectorsPerCluster ==> ok)
  {
    hide BootSectorInfo.Fits, ViewOf, FlatBytes, WellFormed, Fat, BlkDevice.Reliable, ClusterStart, Overwritten, Prefix;
    ghost var inRange := 2 <= cluster < info.Entries() && sector0 == ClusterStart(info, cluster);
    ghost var ss := if inRange then Vol(dev, info).clusters[cluster] else [];
    if inRange { ClusterLength(info, dev.disk, dev.disk, cluster); }
    OverwrittenNone(buf[..], start);
    NoBytes(FlatBytes(ss));
    written, ok, got := start, false, [];
    var s := 0;
    while s < info.sectorsPerCluster && written < readLen
      invariant 0 <= s <= info.sectorsPerCluster && written == start + |got| == Min(readLen, start + 512 * s)
      invariant Overwritten(old(buf[..]), buf[..], start, got)
      invariant inRange ==> s <= |ss| && ss == Vol(dev, info).clusters[cluster]
      invariant inRange ==> got == Prefix(FlatBytes(ss), |got|) && |got| <= |FlatBytes(ss)|
    {
      var sector := dev.ReadSector(sector0 + s);
      if sector.None? {
        return;
      }
      if inRange { SectorOfCluster(info, dev.disk, cluster, s); }
      var take := Min(readLen - written, SECTOR_SIZE);
      if inRange { SectorBytes(ss, s, take); }
      ghost var before := buf[..];
      CopyBytes(buf, written, sector.value, take);
      OverwrittenMore(old(buf[..]), before, buf[..], start, got, sector.value[..take]);
      written, got := written + take, got + sector.value[..take];
      s := s + 1;
    }
    ok := true;
  }

  /** Up to one more sector of a cluster's bytes. */
  lemma SectorBytes(ss: seq<Sector>, s: nat, take: nat)
    requires s < |ss| && 0 < take <= 512
    ensures 512 * s + take <= |FlatBytes(ss)|
    ensures Prefix(FlatBytes(ss), 512 * s + take) == Prefix(FlatBytes(ss), 512 * s) + ss[s][..take]
  {
    hide FlatBytes;
    FlatAt(ss, s, take - 1);
    forall b | 0 <= b < take ensures 512 * s + b < |FlatBytes(ss)| && FlatBytes(ss)[512 * s + b] == ss[s][b] {
      FlatAt(ss, s, b);
    }
  }

  ghost function ChainBytes(v: View, cs: seq<nat>): (bytes: seq<Byte>) {
    FlatBytes(ChainSectors(v.clusters, cs))
  }

  /** The first `n` clusters of `ds` are whole, and `got` is what they hold, as far as it was asked for. */
  ghost predicate Reading(info: BootSectorInfo, v: View, ds: seq<nat>, n: nat, readLen: nat, got: seq<Byte>) {
    && n <= |ds| && Sized(v.clusters, info.sectorsPerCluster, ds[..n])
    && |got| == Min(readLen, |ChainBytes(v, ds[..n])|) && got == ChainBytes(v, ds[..n])[..|got|]
  }

  /** `got` is what there is to read of `ds`, as far as it was asked for. */
  ghost predicate ReadDone(info: BootSectorInfo, v: View, ds: seq<nat>, readLen: nat, got: seq<Byte>) {
    |got| == Min(readLen, |FileBytes(info, v, ds)|) && got == FileBytes(info, v, ds)[..|got|]
  }

  lemma ReadNothing(info: BootSectorInfo, v: View, ds: seq<nat>, readLen: nat)
    ensures Reading(info, v, ds, 0, readLen, [])
    ensures readLen == 0 ==> ReadDone(info, v, ds, readLen, [])
  {
    assert ds[..0] == [];
  }

  /** Reading one more cluster, whole or not. */
  lemma ReadStep(info: BootSectorInfo, v: View, ds: seq<nat>, n: nat, readLen: nat, got: seq<Byte>, more: seq<Byte>)
    requires Reading(info, v, ds, n, readLen, got) && |got| < readLen && n < |ds| && ds[n] < |v.clusters|
    requires |more| == Min(readLen - |got|, |FlatBytes(v.clusters[ds[n]])|) && more == FlatBytes(v.clusters[ds[n]])[..|more|]
    ensures |v.clusters[ds[n]]| == info.sectorsPerCluster ==> Reading(info, v, ds, n + 1, readLen, got + more)
    ensures |got + more| == readLen || |v.clusters[ds[n]]| != info.sectorsPerCluster || n + 1 == |ds| ==>
      ReadDone(info, v, ds, readLen, got + more)
  {
    hide FlatBytes, Reached;
    ChainNext(v, ds, n);
    SizedNext(v.clusters, info.sectorsPerCluster, ds, n);
    ReadStarts(info, v, ds, n);
    if |got + more| == readLen || |v.clusters[ds[n]]| != info.sectorsPerCluster || n + 1 == |ds| {
      PrefixThrough(ChainBytes(v, ds[..n + 1]), FileBytes(info, v, ds), readLen, got + more);
    }
  }

  lemma SizedNext(clusters: seq<seq<Sector>>, spc: nat, ds: seq<nat>, n: nat)
    requires n < |ds| && Sized(clusters, spc, ds[..n]) && ds[n] < |clusters|
    ensures |clusters[ds[n]]| == spc ==> Sized(clusters, spc, ds[..n + 1])
  {
    assert forall i :: 0 <= i < n ==> ds[..n + 1][i] == ds[..n][i];
  }

  lemma ChainNext(v: View, ds: seq<nat>, n: nat)
    requires n < |ds| && ds[n] < |v.clusters|
    ensures ChainBytes(v, ds[..n + 1]) == ChainBytes(v, ds[..n]) + FlatBytes(v.clusters[ds[n]])
  {
    hide FlatBytes;
    assert ds[..n + 1][..n] == ds[..n];
    FlatAppend(ChainSectors(v.clusters, ds[..n]), v.clusters[ds[n]]);
  }

  lemma PrefixThrough(a: seq<Byte>, b: seq<Byte>, readLen: nat, got: seq<Byte>)
    requires a <= b && |got| == Min(readLen, |a|) && got == a[..|got|] && (|got| == readLen || a == b)
    ensures |got| == Min(readLen, |b|) && got == b[..|got|]
  {
  }

  /** Behind whole clusters, the bytes of a chain start with those of one cluster more, and end there if that one
      is not whole or is the last. */
  lemma ReadStarts(info: BootSectorInfo, v: View, ds: seq<nat>, n: nat)
    requires n < |ds| && Sized(v.clusters, info.sectorsPerCluster, ds[..n]) && ds[n] < |v.clusters|
    ensures ChainBytes(v, ds[..n + 1]) <= FileBytes(info, v, ds)
    ensures |v.clusters[ds[n]]| != info.sectorsPerCluster || n + 1 == |ds| ==> ChainBytes(v, ds[..n + 1]) == FileBytes(info, v, ds)
  {
    hide FlatBytes;
    var spc, rest := info.sectorsPerCluster, ds[n..];
    ReachedBehind(v.clusters, spc, ds, n);
    var reached := Reached(v.clusters, spc, rest);
    assert rest[0] == ds[n] && (n + 1 == |ds| ==> rest[1..] == []);
    MovedOver(ds, n, reached);
    ChainSectorsAppend(v.clusters, ds[..n + 1], reached[1..]);
    FlatAppend(ChainSectors(v.clusters, ds[..n + 1]), ChainSectors(v.clusters, reached[1..]));
  }

  lemma MovedOver(ds: seq<nat>, n: nat, reached: seq<nat>)
    requires n < |ds| && 0 < |reached| && reached[0] == ds[n]
    ensures ds[..n] + reached == ds[..n + 1] + reached[1..]
  {
  }

  /** How far reading has got: everything asked for, or the first `n` clusters, all whole, with `cluster` next. */
  ghost predicate ReadTo(info: BootSectorInfo, v: View, ds: seq<nat>, n: nat, readLen: nat, got: seq<Byte>, cluster: nat) {
    n <= |ds| &&
    if |got| == readLen || n == |ds| then ReadDone(info, v, ds, readLen, got)
    else |got| < readLen && Reading(info, v, ds, n, readLen, got) && cluster == ds[n]
  }

  lemma ReadToStart(info: BootSectorInfo, v: View, ds: seq<nat>, readLen: nat)
    requires 0 < |ds|
    ensures ReadTo(info, v, ds, 0, readLen, [], ds[0])
  {
    ReadNothing(info, v, ds, readLen);
  }

  /** One more cluster read: done, unless it was whole, more is asked for and the chain goes on. */
  lemma ReadToStep(info: BootSectorInfo, v: View, ds: seq<nat>, n: nat, readLen: nat, got: seq<Byte>, more: seq<Byte>)
    requires n < |ds| && ds[n] < |v.clusters| && |got| < readLen && ReadTo(info, v, ds, n, readLen, got, ds[n])
    requires |more| == Min(readLen - |got|, |FlatBytes(v.clusters[ds[n]])|) && more == Prefix(FlatBytes(v.clusters[ds[n]]), |more|)
    ensures |v.clusters[ds[n]]| != info.sectorsPerCluster || |got + more| == readLen ==> ReadDone(info, v, ds, readLen, got + more)
    ensures |v.clusters[ds[n]]| == info.sectorsPerCluster ==>
      ReadTo(info, v, ds, n + 1, readLen, got + more, if n + 1 < |ds| then ds[n + 1] else 0)
  {
    hide Reading, ReadDone, FlatBytes;
    ReadStep(info, v, ds, n, readLen, got, more);
  }

  lemma ReadToMissing(info: BootSectorInfo, v: View, ds: seq<nat>, n: nat, readLen: nat, got: seq<Byte>)
    requires n < |ds| && ds[n] < |v.clusters| && |got| < readLen && ReadTo(info, v, ds, n, readLen, got, ds[n])
    requires |v.clusters[ds[n]]| == 0 < info.sectorsPerCluster
    ensures ReadDone(info, v, ds, readLen, got)
  {
    hide ReadTo, ReadDone;
    ReadToStep(info, v, ds, n, readLen, got, []);
    assert got + [] == got;
  }

  /** One step along the part of a chain that is walked. */
  lemma WalkedStep(fat: seq<nat>, head: nat, cs: seq<nat>, i: nat)
    requires Small(fat) && IsChain(fat, head, cs) && i < |Walked(cs)|
    ensures var ds := Walked(cs);
      && ds[i] < |fat| && (IsEndOfChain(fat[ds[i]]) ==> i + 1 == |ds|)
      && (!IsEndOfChain(fat[ds[i]]) ==> if i + 1 < |ds| then fat[ds[i]] == ds[i + 1] else i + 1 == WALK_CAP)
  {
    hide IsChain;
    ChainStep(fat, head, cs, i);
  }

  lemma WalkedRange(dev: BlkDevice, info: BootSectorInfo, head: nat, cs: seq<nat>)
    requires info.Fits(|dev.disk|) && IsChain(Fat(Vol(dev, info)), head, cs)
    ensures var ds := Walked(cs); 0 < |ds| <= WALK_CAP && ds[0] == head && forall i :: 0 <= i < |ds| ==> 2 <= ds[i] < info.Entries()
  {
    hide IsChain;
    WalkedChain(dev, info, head, cs);
  }

  lemma ReadToEnd(info: BootSectorInfo, v: View, ds: seq<nat>, n: nat, readLen: nat, got: seq<Byte>, cluster: nat)
    requires ReadTo(info, v, ds, n, readLen, got, cluster) && (|got| == readLen || n == |ds|)
    ensures ReadDone(info, v, ds, readLen, got)
  {
  }

  lemma ReadToAny(info: BootSectorInfo, v: View, ds: seq<nat>, n: nat, readLen: nat, got: seq<Byte>, cluster: nat)
    requires ReadTo(info, v, ds, n, readLen, got, 0) && n == |ds|
    ensures ReadTo(info, v, ds, n, readLen, got, cluster)
  {
  }

  lemma ReadToNext(info: BootSectorInfo, v: View, ds: seq<nat>, n: nat, readLen: nat, got: seq<Byte>, cluster: nat)
    requires ReadTo(info, v, ds, n, readLen, got, cluster) && |got| < readLen && n < |ds|
    ensures cluster == ds[n]
  {
  }

  /** Copies one cluster, if it has a sector number, behind the `start` bytes already there. */
  method ReadNext(dev: BlkDevice, info: BootSectorInfo, cluster: nat, start: nat, readLen: nat, buf: array<Byte>,
                  ghost ds: seq<nat>, ghost n: nat, ghost got: seq<Byte>)
    returns (written: nat, ok: bool, ghost more: seq<Byte>)
    requires info.Fits(|dev.disk|) && start == |got| < readLen <= buf.Length
    modifies dev`clock, buf
    ensures written == start + |more| <= readLen && Overwritten(old(buf[..]), buf[..], start, more)
    ensures ok ==> written == readLen || start + 512 <= written
    ensures cluster < 2 ==> !ok && written == start
    ensures dev.Reliable() && n < |ds| && 2 <= ds[n] < info.Entries() && ReadTo(info, Vol(dev, info), ds, n, readLen, got, cluster) ==>
      && cluster == ds[n] && (!ok || written == readLen ==> ReadDone(info, Vol(dev, info), ds, readLen, got + more))
      && (ok && written < readLen ==> ReadTo(info, Vol(dev, info), ds, n + 1, readLen, got + more, if n + 1 < |ds| then ds[n + 1] else 0))
  {
    hide BootSectorInfo.Fits, ViewOf, FlatBytes, BlkDevice.Reliable, ClusterStart, ReadTo, ReadDone, Overwritten, Prefix,
      BootSectorInfo.ClusterToSector;
    ghost var v := Vol(dev, info);
    ghost var chained := dev.Reliable() && n < |ds| && 2 <= ds[n] < info.Entries() && ReadTo(info, v, ds, n, readLen, got, cluster);
    SectorsPerClusterPositive(info, |dev.disk|);
    DiskBelow32(info, |dev.disk|);
    ClusterResolves(info, cluster);
    if chained {
      ReadToNext(info, v, ds, n, readLen, got, cluster);
      ClusterLength(info, dev.disk, dev.disk, cluster);
    }
    OverwrittenNone(buf[..], start);
    var sector0 := info.ClusterToSector(cluster);
    if sector0.None? {
      if chained { ReadToMissing(info, v, ds, n, readLen, got); }
      assert got + [] == got;
      return start, false, [];
    }
    written, ok, more := ReadCluster(dev, info, cluster, sector0.value, start, readLen, buf);
    if chained { ReadToStep(info, v, ds, n, readLen, got, more); }
  }

  /** `n` clusters were visited for `written` bytes, of which at least 512 came from each but perhaps the last. */
  ghost predicate VisitsFit(n: nat, written: nat, readLen: nat) {
    if written < readLen then 512 * n <= written else 512 * n < readLen + 512
  }

  lemma VisitsBound(n: nat, readLen: nat)
    requires 512 * n < readLen + 512
    ensures n <= (readLen + 511) / 512
  {
  }

  /** Copies a file's data into `buf` along its chain. What lands there is the start of the bytes of the chain's
      first 1024 clusters, as far as the disk has them and as long as the smaller of the file size and the buffer
      asks for; and whatever the FAT holds, cycles included, no more clusters are visited than sectors are
      needed. */
  method ReadFileContents(dev: BlkDevice, info: BootSectorInfo, entry: ShortDirEntry, buf: array<Byte>, ghost cs: seq<nat>)
    returns (written: nat, ghost visits: nat)
    requires info.Fits(|dev.disk|)
    modifies dev`clock, buf
    ensures written <= Min(entry.fileSize, buf.Length)
    ensures buf[written..] == old(buf[written..])
    ensures visits <= (Min(entry.fileSize, buf.Length) + 511) / 512
    ensures entry.firstCluster < 2 ==> written == 0
    ensures dev.Reliable() && IsChain(Fat(Vol(dev, info)), entry.firstCluster, cs) ==>
      ReadDone(info, Vol(dev, info), Walked(cs), Min(entry.fileSize, buf.Length), buf[..written])
  {
    hide BootSectorInfo.Fits, ViewOf, FlatBytes, WellFormed, Fat, BlkDevice.Reliable, IsChain, ReadTo, ReadDone, Overwritten, Walked, NextOf;
    ghost var v, ds := Vol(dev, info), Walked(cs);
    ghost var chained := dev.Reliable() && IsChain(Fat(v), entry.firstCluster, cs);
    var readLen := Min(entry.fileSize, buf.Length);
    if chained {
      WalkedRange(dev, info, entry.firstCluster, cs);
      ReadToStart(info, v, ds, readLen);
    }
    var cluster := entry.firstCluster;
    written, visits := 0, 0;
    ghost var got: seq<Byte> := [];
    OverwrittenNone(buf[..], 0);
    var visited := 0;
    while visited < WALK_CAP && written < readLen
      invariant 0 <= visits == visited <= WALK_CAP && |got| == written <= readLen && VisitsFit(visited, written, readLen)
      invariant entry.firstCluster < 2 ==> written == 0 && cluster == entry.firstCluster
      invariant Overwritten(old(buf[..]), buf[..], 0, got)
      invariant chained ==> visited <= |ds| && ReadTo(info, v, ds, visited, readLen, got, cluster)
      invariant chained ==> visited < |ds| || visited == WALK_CAP
    {
      ghost var before := buf[..];
      var ok;
      ghost var more;
      written, ok, more := ReadNext(dev, info, cluster, written, readLen, buf, ds, visited, got);
      OverwrittenMore(old(buf[..]), before, buf[..], 0, got, more);
      got, visited, visits := got + more, visited + 1, visits + 1;
      if !ok || written >= readLen {
        break;
      }
      if chained { WalkedStep(Fat(v), entry.firstCluster, cs, visited - 1); }
      var next := NextClusterInChain(dev, info, cluster);
      if next.None? {
        break;
      }
      if IsEndOfChain(next.value) {
        if chained { ReadToEnd(info, v, ds, visited, readLen, got, 0); }
        break;
      }
      if chained && visited == |ds| { ReadToAny(info, v, ds, visited, readLen, got, next.value); }
      cluster := next.value;
    }
    VisitsBound(visits, readLen);
    OverwrittenFront(old(buf[..]), buf[..], got);
    if chained && !ReadDone(info, v, ds, readLen, got) { ReadToEnd(info, v, ds, visited, readLen, got, cluster); }
  }
}
