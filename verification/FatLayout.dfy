/** The FAT32 on-disk layout: the boot sector, where each structure lives, and the
    view of a disk as reserved sectors, FAT copies and data clusters. */
module FatLayout {
  import opened Bytes

  /** The fields of a FAT32 boot sector this driver keeps. */
  datatype BootSectorInfo = BootSectorInfo(
    bytesPerSector: nat,
    sectorsPerCluster: nat,
    reservedSectorCount: nat,
    numFats: nat,
    fatSize: nat,
    rootCluster: nat,
    fatStart: nat,
    dataStart: nat,
    fsInfoSector: nat)
  {
    /** Number of 32-bit entries in one FAT copy, with 512-byte sectors. */
    function Entries(): (n: nat) {
      fatSize * ENTRIES_PER_SECTOR
    }

    /** The first sector of `cluster`, or nothing when the cluster is reserved or
        the 32-bit sector number overflows. */
    function ClusterToSector(cluster: nat): (r: Option<nat>)
      ensures r.Some? ==> 2 <= cluster && r.value < U32_LIMIT
    {
      if cluster < 2 || (cluster - 2) * sectorsPerCluster >= U32_LIMIT then None
      else if dataStart + (cluster - 2) * sectorsPerCluster >= U32_LIMIT then None
      else Some(dataStart + (cluster - 2) * sectorsPerCluster)
    }

    /** What the boot sector parser establishes of every volume it accepts. */
    ghost predicate Parsed() {
      && bytesPerSector in {512, 1024, 2048, 4096}
      && 1 <= sectorsPerCluster < 256
      && 1 <= numFats < 256
      && 1 <= fatSize < U32_LIMIT
      && fatStart == reservedSectorCount < U16_LIMIT
      && fsInfoSector < U16_LIMIT
      && rootCluster < U32_LIMIT
      && dataStart == fatStart + Blocks(numFats, fatSize) < U32_LIMIT
    }

    /** A parsed volume this driver's fixed 512-byte buffers and 28-bit cluster
        values can serve, on a disk of `sectors` sectors that holds at least the reserved
        area and the FATs. A FAT may have entries for clusters the disk does not have. */
    ghost predicate Fits(sectors: nat) {
      && Parsed()
      && bytesPerSector == 512
      && Entries() <= MAX_ENTRIES
      && fsInfoSector < fatStart
      && dataStart <= sectors <= U32_LIMIT
    }
  }

  const ENTRIES_PER_SECTOR := 128
  const MAX_ENTRIES := 0x0FFF_FFF7
  const MASK28 := 0x1000_0000

  /** The length of `n` consecutive blocks of `size` sectors. */
  function Blocks(n: nat, size: nat): nat {
    if n == 0 then 0 else Blocks(n - 1, size) + size
  }

  lemma {:induction false} BlocksProduct(n: nat, size: nat)
    ensures Blocks(n, size) == n * size
  {
    if n != 0 {
      BlocksProduct(n - 1, size);
      assert n * size == (n - 1) * size + size;
    }
  }

  function ParseBootSector(sector: Sector): (r: Option<BootSectorInfo>)
    ensures r.Some? ==> r.value.Parsed()
    ensures r.Some? ==> sector[510] == 0x55 && sector[511] == 0xAA
  {
    if sector[510] != 0x55 || sector[511] != 0xAA then None else
    var bytesPerSector := U16(sector[11..13]);
    if bytesPerSector !in {512, 1024, 2048, 4096} then None else
    var numFats: nat := sector[16];
    if sector[13] == 0 || numFats == 0 then None else
    var fatSize := U32(sector[36..40]);
    if fatSize == 0 then None else
    var fatStart := U16(sector[14..16]);
    var region := numFats * fatSize;
    BlocksProduct(numFats, fatSize);
    if region >= U32_LIMIT || fatStart + region >= U32_LIMIT then None else
    Some(BootSectorInfo(bytesPerSector, sector[13], fatStart, numFats, fatSize,
                        U32(sector[44..48]), fatStart, fatStart + region, U16(sector[48..50])))
  }

  /** A boot sector that carries `info`: bytes per sector at offset 11, sectors per cluster, reserved
      sectors, number of FATs, FAT size at 36, root cluster at 44, FSInfo sector, signature at 510. */
  function Formatted(info: BootSectorInfo, base: Sector): (s: Sector)
    requires info.Parsed()
  {
    var low := Le16(info.bytesPerSector) + [info.sectorsPerCluster] + Le16(info.reservedSectorCount) + [info.numFats];
    var high := Le32(info.rootCluster) + Le16(info.fsInfoSector);
    Splice(Splice(Splice(Splice(base, 11, low), 36, Le32(info.fatSize)), 44, high), 510, [0x55, 0xAA])
  }

  lemma SpliceKeeps(s: Sector, at: nat, w: seq<Byte>, i: nat, j: nat)
    requires at + |w| <= 512 && i <= j <= 512 && (j <= at || at + |w| <= i)
    ensures Splice(s, at, w)[i..j] == s[i..j]
  {
  }

  lemma SplicePart(s: Sector, at: nat, w: seq<Byte>, i: nat, j: nat)
    requires at + |w| <= 512 && i <= j <= |w|
    ensures Splice(s, at, w)[at + i..at + j] == w[i..j]
  {
    hide Splice;
    SliceOfSlice(Splice(s, at, w), at, |w|, i, j);
  }

  /** Parsing inverts formatting: every set of values the parser can produce is what it reads from a sector
      that carries them, whatever the rest of the sector holds. */
  lemma ParseFormatted(info: BootSectorInfo, base: Sector)
    requires info.Parsed()
    ensures ParseBootSector(Formatted(info, base)) == Some(info)
  {
    hide Splice, Blocks, Le16, Le32, U16, U32;
    var low := Le16(info.bytesPerSector) + [info.sectorsPerCluster] + Le16(info.reservedSectorCount) + [info.numFats];
    var high := Le32(info.rootCluster) + Le16(info.fsInfoSector);
    var a := Splice(base, 11, low);
    var b := Splice(a, 36, Le32(info.fatSize));
    var c := Splice(b, 44, high);
    var d := Splice(c, 510, [0x55, 0xAA]);
    LowFields(info, base, low);
    SpliceKeeps(a, 36, Le32(info.fatSize), 11, 17);
    SpliceKeeps(b, 44, high, 11, 17);
    SpliceKeeps(c, 510, [0x55, 0xAA], 11, 17);
    SplicePart(a, 36, Le32(info.fatSize), 0, 4);
    SpliceKeeps(b, 44, high, 36, 40);
    SpliceKeeps(c, 510, [0x55, 0xAA], 36, 40);
    SplicePart(b, 44, high, 0, 4);
    SplicePart(b, 44, high, 4, 6);
    SpliceKeeps(c, 510, [0x55, 0xAA], 44, 48);
    SpliceKeeps(c, 510, [0x55, 0xAA], 48, 50);
    SplicePart(c, 510, [0x55, 0xAA], 0, 2);
    assert high[0..4] == Le32(info.rootCluster) && high[4..6] == Le16(info.fsInfoSector);
    assert d[510..512][0] == d[510] && d[510..512][1] == d[511];
    SameFields(a, d);
    BlocksProduct(info.numFats, info.fatSize);
  }

  lemma LowFields(info: BootSectorInfo, base: Sector, low: seq<Byte>)
    requires info.Parsed()
    requires low == Le16(info.bytesPerSector) + [info.sectorsPerCluster] + Le16(info.reservedSectorCount) + [info.numFats]
    ensures var a := Splice(base, 11, low);
      && a[11..13] == Le16(info.bytesPerSector) && a[13] == info.sectorsPerCluster
      && a[14..16] == Le16(info.reservedSectorCount) && a[16] == info.numFats
  {
    hide Splice, Le16;
    var a := Splice(base, 11, low);
    SplicePart(base, 11, low, 0, 2);
    SplicePart(base, 11, low, 3, 5);
    SplicePart(base, 11, low, 0, 6);
    assert low[0..2] == Le16(info.bytesPerSector) && low[3..5] == Le16(info.reservedSectorCount);
    assert a[11..17][2] == a[13] && a[11..17][5] == a[16] && low[0..6] == low;
  }

  lemma SameFields(a: Sector, d: Sector)
    requires d[11..17] == a[11..17]
    ensures d[11..13] == a[11..13] && d[13] == a[13] && d[14..16] == a[14..16] && d[16] == a[16]
  {
    SliceOfSlice(d, 11, 6, 0, 2);
    SliceOfSlice(a, 11, 6, 0, 2);
    SliceOfSlice(d, 11, 6, 3, 5);
    SliceOfSlice(a, 11, 6, 3, 5);
    assert d[11..17][2] == d[13] && a[11..17][2] == a[13] && d[11..17][5] == d[16] && a[11..17][5] == a[16];
  }

  /** The raw 32-bit entry number `i` of a FAT sector. */
  function EntryAt(s: Sector, i: nat): (v: nat)
    requires i < ENTRIES_PER_SECTOR
    ensures v < U32_LIMIT
  {
    U32(s[4 * i..4 * i + 4])
  }

  function SetEntry(s: Sector, i: nat, v: nat): (r: Sector)
    requires i < ENTRIES_PER_SECTOR && v < U32_LIMIT
    ensures forall j :: 0 <= j < ENTRIES_PER_SECTOR ==> EntryAt(r, j) == if j == i then v else EntryAt(s, j)
  {
    var r := Splice(s, 4 * i, Le32(v));
    assert forall j :: 0 <= j < ENTRIES_PER_SECTOR && j != i ==> r[4 * j..4 * j + 4] == s[4 * j..4 * j + 4];
    r
  }

  /** Where cluster `c` starts; total, so that it can name one past the last cluster. */
  function ClusterStart(info: BootSectorInfo, c: nat): (n: nat)
    requires 2 <= c
  {
    info.dataStart + Blocks(c - 2, info.sectorsPerCluster)
  }

  /** The sector of FAT copy `k` that holds the entry of cluster `c`. */
  function FatSector(info: BootSectorInfo, k: nat, c: nat): nat {
    info.fatStart + Blocks(k, info.fatSize) + c / ENTRIES_PER_SECTOR
  }

  /** What a disk holds: every byte of it belongs to exactly one part. */
  datatype View = View(
    reserved: seq<Sector>,          // the sectors below the FATs
    fats: seq<seq<nat>>,            // the raw 32-bit entries of each FAT copy
    clusters: seq<seq<Sector>>,     // the data sectors the disk has of each cluster; none of 0 and 1
    tail: seq<Sector>)              // what follows the last cluster a FAT entry can name
  {
    function WithReserved(n: nat, s: Sector): View
      requires n < |reserved|
    {
      this.(reserved := reserved[n := s])
    }

    /** Entry `c` of FAT copy `k` replaced. */
    function WithEntry(k: nat, c: nat, raw: nat): View
      requires k < |fats| && c < |fats[k]|
    {
      var copy: seq<nat> := fats[k][c := raw];
      this.(fats := fats[k := copy])
    }

    /** Sector `i` of cluster `c` replaced. */
    function WithSector(c: nat, i: nat, s: Sector): View
      requires c < |clusters| && i < |clusters[c]|
    {
      var sectors: seq<Sector> := clusters[c][i := s];
      this.(clusters := clusters[c := sectors])
    }
  }

  ghost function FatCopy(info: BootSectorInfo, d: seq<Sector>, k: nat): (f: seq<nat>)
    requires info.Fits(|d|) && k < info.numFats
    ensures |f| == info.Entries()
  {
    seq(info.Entries(), c requires 0 <= c < info.Entries() =>
      FatSectorInDisk(info, |d|, k, c);
      EntryAt(d[FatSector(info, k, c)], c % ENTRIES_PER_SECTOR))
  }

  /** Those of the sectors `from`, `from + 1`, ..., `from + n - 1` that the disk has. */
  function Part(d: seq<Sector>, from: nat, n: nat): (r: seq<Sector>)
    ensures |r| == Min(from + n, |d|) - Min(from, |d|)
    ensures forall i :: 0 <= i < |r| ==> r[i] == d[from + i]
  {
    d[Min(from, |d|)..Min(from + n, |d|)]
  }

  /** The whole of cluster `c` lies on a disk of `sectors` sectors. */
  predicate OnDisk(info: BootSectorInfo, sectors: nat, c: nat) {
    2 <= c && ClusterStart(info, c) + info.sectorsPerCluster <= sectors
  }

  ghost function ClusterSectors(info: BootSectorInfo, d: seq<Sector>, c: nat): (ss: seq<Sector>)
    ensures |ss| <= if c < 2 then 0 else info.sectorsPerCluster
    ensures 2 <= c ==> |ss| == Max(0, Min(info.sectorsPerCluster, |d| - ClusterStart(info, c)))
    ensures forall i :: 0 <= i < |ss| ==> 2 <= c && ClusterStart(info, c) + i < |d| && ss[i] == d[ClusterStart(info, c) + i]
  {
    if c < 2 then [] else Part(d, ClusterStart(info, c), info.sectorsPerCluster)
  }

  ghost function ViewOf(info: BootSectorInfo, d: seq<Sector>): (v: View)
    requires info.Fits(|d|)
    ensures |v.fats| == info.numFats && |v.clusters| == info.Entries() && |v.reserved| == info.fatStart
  {
    View(d[..info.fatStart],
         seq(info.numFats, k requires 0 <= k < info.numFats => FatCopy(info, d, k)),
         seq(info.Entries(), c requires 0 <= c < info.Entries() => ClusterSectors(info, d, c)),
         Part(d, ClusterStart(info, info.Entries()), |d|))
  }

  // ----- arithmetic of the layout

  /** `a` blocks end before `b` blocks do, when `a` comes before `b`. */
  lemma {:induction false} BlocksNext(a: nat, b: nat, size: nat)
    requires a < b
    ensures Blocks(a, size) + size <= Blocks(b, size)
  {
    if a < b - 1 {
      BlocksNext(a, b - 1, size);
    }
  }

  lemma FatsInDisk(info: BootSectorInfo, sectors: nat)
    requires info.Fits(sectors)
    ensures info.fatStart <= info.dataStart <= sectors
  {
  }

  lemma FatSectorInDisk(info: BootSectorInfo, sectors: nat, k: nat, c: nat)
    requires info.Fits(sectors) && k < info.numFats && c < info.Entries()
    ensures info.fatStart <= FatSector(info, k, c) < info.dataStart <= sectors
  {
    BlocksNext(k, info.numFats, info.fatSize);
  }

  /** The checked 32-bit computation gives a cluster's first sector exactly when the cluster is
      not reserved and that number fits 32 bits. */
  lemma ClusterResolves(info: BootSectorInfo, c: nat)
    ensures info.ClusterToSector(c)
         == if 2 <= c && ClusterStart(info, c) < U32_LIMIT then Some(ClusterStart(info, c)) else None
  {
    if 2 <= c { BlocksProduct(c - 2, info.sectorsPerCluster); }
  }

  /** Where a cluster starts, and where an entry lies. */
  lemma PlacesAre(info: BootSectorInfo, c: nat, k: nat)
    ensures 2 <= c ==> ClusterStart(info, c) == info.dataStart + (c - 2) * info.sectorsPerCluster
    ensures FatSector(info, k, c) == info.fatStart + k * info.fatSize + c / 128
  {
    if 2 <= c { BlocksProduct(c - 2, info.sectorsPerCluster); }
    BlocksProduct(k, info.fatSize);
  }

  /** The view has all of a cluster exactly when the disk does, and its first sector exactly when that lies on it. */
  lemma OnDiskIff(info: BootSectorInfo, d: seq<Sector>, c: nat)
    requires info.Fits(|d|) && 2 <= c < info.Entries()
    ensures |ViewOf(info, d).clusters[c]| == info.sectorsPerCluster <==> OnDisk(info, |d|, c)
    ensures 0 < |ViewOf(info, d).clusters[c]| <==> ClusterStart(info, c) < |d|
  {
    hide FatCopy, ClusterStart;
    assert ViewOf(info, d).clusters[c] == ClusterSectors(info, d, c);
  }

  /** Below a cluster of which the disk has a sector, the disk has every cluster whole. */
  lemma WholeBelow(info: BootSectorInfo, d: seq<Sector>, c: nat, e: nat)
    requires info.Fits(|d|) && 2 <= c < e < info.Entries()
    ensures 0 < |ViewOf(info, d).clusters[e]| ==> |ViewOf(info, d).clusters[c]| == info.sectorsPerCluster
  {
    hide FatCopy, ClusterStart;
    ClustersApart(info, c, e);
    assert ViewOf(info, d).clusters[e] == ClusterSectors(info, d, e) && ViewOf(info, d).clusters[c] == ClusterSectors(info, d, c);
  }

  lemma ClustersApart(info: BootSectorInfo, c: nat, e: nat)
    requires 2 <= c < e
    ensures ClusterStart(info, c) + info.sectorsPerCluster <= ClusterStart(info, e)
  {
    BlocksNext(c - 2, e - 2, info.sectorsPerCluster);
  }

  lemma FatCopiesApart(info: BootSectorInfo, j: nat, k: nat, b: nat, c: nat)
    requires b < info.Entries() && c < info.Entries()
    requires FatSector(info, j, b) == FatSector(info, k, c)
    ensures j == k && b / ENTRIES_PER_SECTOR == c / ENTRIES_PER_SECTOR
  {
    if j < k {
      BlocksNext(j, k, info.fatSize);
    } else if k < j {
      BlocksNext(k, j, info.fatSize);
    }
  }

  // ----- one sector write changes one part of the view

  /** What lies behind a written sector does not change. */
  lemma PartAfter(d: seq<Sector>, n: nat, s: Sector, from: nat, m: nat)
    requires n < |d| && n < from
    ensures Part(d[n := s], from, m) == Part(d, from, m)
  {
  }

  lemma WriteReserved(info: BootSectorInfo, d: seq<Sector>, n: nat, s: Sector)
    requires info.Fits(|d|) && n < info.fatStart <= |d|
    ensures ViewOf(info, d[n := s]) == ViewOf(info, d).WithReserved(n, s)
  {
    var d' := d[n := s];
    var v, v' := ViewOf(info, d), ViewOf(info, d');
    FatsInDisk(info, |d|);
    forall k | 0 <= k < info.numFats
      ensures v'.fats[k] == v.fats[k]
    {
      forall c | 0 <= c < info.Entries()
        ensures FatCopy(info, d', k)[c] == FatCopy(info, d, k)[c]
      {
        FatSectorInDisk(info, |d|, k, c);
      }
    }
    forall c | 0 <= c < info.Entries()
      ensures v'.clusters[c] == v.clusters[c]
    {
      PartAfter(d, n, s, if 2 <= c then ClusterStart(info, c) else |d|, info.sectorsPerCluster);
    }
    PartAfter(d, n, s, ClusterStart(info, info.Entries()), |d|);
    assert v'.reserved == v.reserved[n := s];
  }

  lemma WriteFatSector(info: BootSectorInfo, d: seq<Sector>, k: nat, c: nat, raw: nat)
    requires info.Fits(|d|) && k < info.numFats && c < info.Entries() && raw < U32_LIMIT
    requires FatSector(info, k, c) < |d|
    ensures var n, v := FatSector(info, k, c), ViewOf(info, d);
            ViewOf(info, d[n := SetEntry(d[n], c % ENTRIES_PER_SECTOR, raw)])
            == v.WithEntry(k, c, raw)
  {
    var n := FatSector(info, k, c);
    var d' := d[n := SetEntry(d[n], c % ENTRIES_PER_SECTOR, raw)];
    var v, v' := ViewOf(info, d), ViewOf(info, d');
    FatsInDisk(info, |d|);
    FatSectorInDisk(info, |d|, k, c);
    forall j | 0 <= j < info.numFats
      ensures v'.fats[j] == if j == k then v.fats[j][c := raw] else v.fats[j]
    {
      WriteFatCopy(info, d, k, c, raw, j);
    }
    assert v'.fats == v.WithEntry(k, c, raw).fats;
    forall e | 0 <= e < info.Entries()
      ensures v'.clusters[e] == v.clusters[e]
    {
      PartAfter(d, n, d'[n], if 2 <= e then ClusterStart(info, e) else |d|, info.sectorsPerCluster);
    }
    PartAfter(d, n, d'[n], ClusterStart(info, info.Entries()), |d|);
    assert v'.reserved == v.reserved;
  }

  lemma WriteFatCopy(info: BootSectorInfo, d: seq<Sector>, k: nat, c: nat, raw: nat, j: nat)
    requires info.Fits(|d|) && k < info.numFats && j < info.numFats && c < info.Entries() && raw < U32_LIMIT
    requires FatSector(info, k, c) < |d|
    ensures var n := FatSector(info, k, c);
            var d' := d[n := SetEntry(d[n], c % ENTRIES_PER_SECTOR, raw)];
            FatCopy(info, d', j) == if j == k then FatCopy(info, d, j)[c := raw] else FatCopy(info, d, j)
  {
    var n := FatSector(info, k, c);
    var d' := d[n := SetEntry(d[n], c % ENTRIES_PER_SECTOR, raw)];
    var want := if j == k then FatCopy(info, d, j)[c := raw] else FatCopy(info, d, j);
    forall b | 0 <= b < info.Entries()
      ensures FatCopy(info, d', j)[b] == want[b]
    {
      FatSectorInDisk(info, |d|, j, b);
      if FatSector(info, j, b) == n {
        FatCopiesApart(info, j, k, b, c);
      }
    }
  }

  lemma WriteAboveFats(info: BootSectorInfo, d: seq<Sector>, n: nat, s: Sector, k: nat)
    requires info.Fits(|d|) && info.dataStart <= n < |d| && k < info.numFats
    ensures FatCopy(info, d[n := s], k) == FatCopy(info, d, k)
  {
    hide ClusterStart, EntryAt;
    forall b | 0 <= b < info.Entries()
      ensures FatCopy(info, d[n := s], k)[b] == FatCopy(info, d, k)[b]
    {
      FatSectorInDisk(info, |d|, k, b);
    }
  }

  lemma WriteInCluster(info: BootSectorInfo, d: seq<Sector>, c: nat, i: nat, s: Sector, e: nat)
    requires info.Fits(|d|) && 2 <= c < info.Entries() && i < info.sectorsPerCluster && e < info.Entries()
    requires ClusterStart(info, c) + i < |d|
    ensures var before, after := ClusterSectors(info, d, e), ClusterSectors(info, d[ClusterStart(info, c) + i := s], e);
            after == if e == c then before[i := s] else before
  {
    if 2 <= e {
      if e < c { ClustersApart(info, e, c); } else if c < e { ClustersApart(info, c, e); }
    }
  }

  lemma WriteCluster(info: BootSectorInfo, d: seq<Sector>, c: nat, i: nat, s: Sector)
    requires info.Fits(|d|) && 2 <= c < info.Entries() && i < info.sectorsPerCluster && ClusterStart(info, c) + i < |d|
    ensures var v := ViewOf(info, d);
      && i < |v.clusters[c]|
      && ViewOf(info, d[ClusterStart(info, c) + i := s]) == v.WithSector(c, i, s)
  {
    hide FatCopy, ClusterSectors, Blocks;
    FatsInDisk(info, |d|);
    ClustersApart(info, c, info.Entries());
    var n := ClusterStart(info, c) + i;
    var d' := d[n := s];
    var v, v' := ViewOf(info, d), ViewOf(info, d');
    forall k | 0 <= k < info.numFats ensures v'.fats[k] == v.fats[k] {
      WriteAboveFats(info, d, n, s, k);
    }
    assert v'.fats == v.fats;
    forall e | 0 <= e < info.Entries()
      ensures v'.clusters[e] == if e == c then v.clusters[e][i := s] else v.clusters[e]
    {
      WriteInCluster(info, d, c, i, s, e);
    }
    assert v'.clusters == v.WithSector(c, i, s).clusters;
    assert v'.reserved == v.reserved;
    PartAfter(d, n, s, ClusterStart(info, info.Entries()), |d|);
  }
}
