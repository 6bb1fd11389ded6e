/** The writes that fill a directory entry and the ones that erase it, with any device: what each of them, done, failed
    or torn, leaves of the entry itself, and that none of them disturbs another. */
module FatEntries {
  import opened Bytes
  import opened FatLayout
  import opened FatChains
  import opened Volume
  import opened BlockDevice
  import opened FatDirectory
  import opened DirectoryMap
  import opened FatAllocator
  import opened FatChainGrowth
  import opened FileSystem
  import opened FileSystemSteps
  import opened FatFiles

  // ----- one slot on the disk

  /** A slot with the bytes from `skip` on replaced by `bytes`. */
  function Overlaid(e: Slot, skip: nat, bytes: seq<Byte>): (r: Slot)
    requires skip + |bytes| <= 32
  {
    e[..skip] + bytes + e[skip + |bytes|..]
  }

  lemma SpliceOverlaid(sector: Sector, j: nat, skip: nat, bytes: seq<Byte>)
    requires j < SLOTS_PER_SECTOR && skip + |bytes| <= 32
    ensures Splice(sector, 32 * j + skip, bytes) == Splice(sector, 32 * j, Overlaid(SlotOf(sector, j), skip, bytes))
  {
    var e := Overlaid(SlotOf(sector, j), skip, bytes);
    var a, b := Splice(sector, 32 * j + skip, bytes), Splice(sector, 32 * j, e);
    forall i | 0 <= i < 512 ensures a[i] == b[i] {
      var m := i - 32 * j;
      if 0 <= m < 32 {
        assert b[i] == e[m];
        assert SlotOf(sector, j)[m] == sector[i];
      }
    }
  }

  /** What is left of slot `j` of a sector when `next` was to be written over `e`: nothing new if the read fails, `next`
      if both requests work, and otherwise what the bytes that were applied make of it. */
  function SlotLeft(read: Service, write: Service, e: Slot, next: Slot, j: nat): (left: Slot) {
    if read.Fails? then e
    else if write.Works? then next
    else seq(32, i requires 0 <= i < 32 => if 32 * j + i in write.applied then next[i] else e[i])
  }

  lemma TornSlot(sector: Sector, j: nat, next: Slot, write: Service)
    requires j < SLOTS_PER_SECTOR && write.Fails?
    ensures Torn(sector, Splice(sector, 32 * j, next), write.applied)
         == Splice(sector, 32 * j, SlotLeft(Works, write, SlotOf(sector, j), next, j))
  {
    var left := SlotLeft(Works, write, SlotOf(sector, j), next, j);
    var p := Splice(sector, 32 * j, next);
    var a, b := Torn(sector, p, write.applied), Splice(sector, 32 * j, left);
    forall i | 0 <= i < 512 ensures a[i] == b[i] {
      var m := i - 32 * j;
      if 0 <= m < 32 {
        assert b[i] == b[32 * j..32 * j + 32][m] == left[m];
        assert p[i] == p[32 * j..32 * j + 32][m] == next[m];
        assert SlotOf(sector, j)[m] == sector[i];
      }
    }
  }

  lemma SameSlot(sector: Sector, j: nat)
    requires j < SLOTS_PER_SECTOR
    ensures Splice(sector, 32 * j, SlotOf(sector, j)) == sector
  {
    assert sector == sector[..32 * j] + SlotOf(sector, j) + sector[32 * j + 32..];
  }

  /** Reads a directory sector, overwrites part of one slot in it, and writes it back. */
  method PatchSlot(dev: BlkDevice, info: BootSectorInfo, sectorNum: nat, offset: nat, skip: nat, bytes: seq<Byte>,
                   ghost cs: seq<nat>, ghost k: nat, ghost x: nat, ghost j: nat)
    returns (ok: bool, ghost left: Slot)
    requires info.Fits(|dev.disk|)
    requires k < |cs| && 2 <= cs[k] < info.Entries() && x < |Vol(dev, info).clusters[cs[k]]| && j < SLOTS_PER_SECTOR
    requires sectorNum == ClusterStart(info, cs[k]) + x && offset == 32 * j && skip + |bytes| <= 32
    modifies dev
    ensures |dev.disk| == |old(dev.disk)|
    ensures dev.history == old(dev.history) || dev.history == old(dev.history) + [dev.disk]
    ensures var v, t := old(Vol(dev, info)), old(dev.clock);
      var e := SlotOf(v.clusters[cs[k]][x], j);
      && left == SlotLeft(dev.script(t), dev.script(t + 1), e, Overlaid(e, skip, bytes), j)
      && (ok <==> dev.script(t).Works? && dev.script(t + 1).Works?)
      && Vol(dev, info) == WithSlot(v, cs, k, x, j, left) && HintStays(info, v, Vol(dev, info))
      && (dev.Reliable() ==> ok && left == Overlaid(e, skip, bytes))
    ensures sectorNum < |dev.disk| && dev.disk == old(dev.disk)[sectorNum := Splice(old(dev.disk)[sectorNum], 32 * j, left)]
  {
    hide BootSectorInfo.Fits, FatCopy, ClusterSectors, ClusterStart, BlkDevice.Reliable, BootSectorInfo.ClusterToSector, HintStays,
      Splice, Overlaid, SlotLeft, Torn, ViewOf;
    ghost var d, v, t, e := dev.disk, Vol(dev, info), dev.clock, SlotOf(Vol(dev, info).clusters[cs[k]][x], j);
    SectorOfCluster(info, d, cs[k], x);
    ClusterLength(info, d, d, cs[k]);
    left := SlotLeft(dev.script(t), dev.script(t + 1), e, Overlaid(e, skip, bytes), j);
    WriteCluster(info, d, cs[k], x, Splice(d[sectorNum], 32 * j, left));
    HintStaysSame(info, v, ViewOf(info, d[sectorNum := Splice(d[sectorNum], 32 * j, left)]));
    SlotLeftIs(dev.script(t), dev.script(t + 1), e, Overlaid(e, skip, bytes), j);
    if dev.Reliable() { Serves(dev, t); Serves(dev, t + 1); }
    var sector := dev.ReadSector(sectorNum);
    if sector.None? {
      SameSlot(d[sectorNum], j);
      assert d[sectorNum := d[sectorNum]] == d;
      return false, left;
    }
    SpliceOverlaid(sector.value, j, skip, bytes);
    var patched := Splice(sector.value, offset + skip, bytes);
    ghost var applied;
    ok, applied := dev.WriteSector(sectorNum, patched);
    if !ok { TornSlot(d[sectorNum], j, Overlaid(e, skip, bytes), dev.script(t + 1)); }
  }

  lemma SlotLeftIs(read: Service, write: Service, e: Slot, next: Slot, j: nat)
    ensures var left := SlotLeft(read, write, e, next, j);
      && (read.Fails? ==> left == e) && (read.Works? && write.Works? ==> left == next)
      && (read.Works? ==> left == SlotLeft(Works, write, e, next, j))
  {
  }

  // ----- everything else

  /** Outside `touched`, `u` has the FAT entries and the data of `m`. */
  ghost predicate Elsewhere(info: BootSectorInfo, m: State, u: View, touched: seq<nat>) {
    && WellFormed(info, u) && WellFormed(info, m.v)
    && |u.clusters| == |m.v.clusters| && |Fat(u)| == |Fat(m.v)|
    && (forall c :: 0 <= c < |u.clusters| && c !in touched ==> u.clusters[c] == m.v.clusters[c])
    && forall c :: 0 <= c < |Fat(u)| && c !in touched ==> Fat(u)[c] == Fat(m.v)[c]
  }

  /** `own'` are chains of `m` that lie outside `touched`, the root directory and the chain of every slot but the `q`-th
      among them. */
  ghost predicate Apart(info: BootSectorInfo, m: State, own': Own, q: nat, touched: seq<nat>) {
    && info.rootCluster in own'
    && (forall g :: g in own' ==> g in m.own && own'[g] == m.own[g] && Disjoint(own'[g], touched))
    && forall i :: 0 <= i < |AllSlots(info, m)| && i != q && Head(AllSlots(info, m)[i]) != 0 ==> Head(AllSlots(info, m)[i]) in own'
  }

  /** The chains `own'` are whole, those of files hold what they held, and every slot of `m` but the `q`-th is there and
      stands for the same file. */
  ghost predicate Kept(info: BootSectorInfo, m: State, w: View, own': Own, q: nat) {
    && WellFormed(info, w) && Forest(Fat(w), own')
    && (forall g :: g in own' && g != info.rootCluster && g in m.own ==> SameClusters(m.v, w, m.own[g]))
    && SlotsKept(info, m, State(w, m.own), q)
  }

  ghost predicate KeptAllSince(info: BootSectorInfo, m: State, history: seq<seq<Sector>>, from: nat, own': Own, q: nat) {
    forall t :: from <= t < |history| ==> info.Fits(|history[t]|) && Kept(info, m, ViewOf(info, history[t]), own', q)
  }

  /** Writes in `touched` and in one slot of the directory keep everything else. */
  lemma KeptWith(info: BootSectorInfo, m: State, u: View, own': Own, k: nat, x: nat, j: nat, e: Slot, touched: seq<nat>)
    requires Sound(info, m) && k < |Root(info, m)| && x < info.sectorsPerCluster && j < SLOTS_PER_SECTOR
    requires SlotIndex(info, k, x, j) < |AllSlots(info, m)|
    requires Elsewhere(info, m, u, touched) && Apart(info, m, own', SlotIndex(info, k, x, j), touched)
    ensures Root(info, m)[k] < |u.clusters| && x < |u.clusters[Root(info, m)[k]]|
    ensures SlotOf(u.clusters[Root(info, m)[k]][x], j) == AllSlots(info, m)[SlotIndex(info, k, x, j)]
    ensures var w := WithSlot(u, Root(info, m), k, x, j, e);
      && Kept(info, m, w, own', SlotIndex(info, k, x, j)) && Fat(w) == Fat(u)
      && AllSlots(info, State(w, m.own)) == AllSlots(info, m)[SlotIndex(info, k, x, j) := e]
  {
    hide SlotFile, Slots, ChainSectors, Splice, IsChain, Forest, Mirrored, Fat, Head, WithSlot, HeadsOwned, SlotIndex;
    var cs, q := Root(info, m), SlotIndex(info, k, x, j);
    RootParts(info, m);
    assert SameClusters(m.v, u, cs);
    SameSectors(m.v, u, cs);
    SlotOverwritten(info, u, cs, k, x, j, e);
    WithSlotParts(info, u, cs, k, x, j, e);
    var t := State(WithSlot(u, cs, k, x, j, e), m.own);
    NoZeroHead(info, m.v, m.own);
    ApartForest(info, m, u, own', q, touched);
    forall g | g in own' && g != info.rootCluster ensures SameClusters(m.v, t.v, m.own[g]) {
      ApartFromRoot(info, m, g);
    }
    forall i | 0 <= i < |AllSlots(info, m)| && i != q ensures SlotKept(info, m, t, i) {
      HeadOwned(info, m, i);
      SameFile(info, m, t, AllSlots(info, m)[i]);
    }
  }

  lemma ApartFromRoot(info: BootSectorInfo, m: State, g: nat)
    requires Sound(info, m) && g in m.own && g != info.rootCluster
    ensures Disjoint(m.own[g], Root(info, m)) && forall i :: 0 <= i < |m.own[g]| ==> m.own[g][i] < info.Entries()
  {
    hide Mirrored, Sized, HeadsOwned, AllSlots, Fat, IsChain;
    OwnedChain(info, m.v, m.own, g);
  }

  lemma ApartForest(info: BootSectorInfo, m: State, u: View, own': Own, q: nat, touched: seq<nat>)
    requires Sound(info, m) && Elsewhere(info, m, u, touched) && Apart(info, m, own', q, touched)
    ensures Forest(Fat(u), own')
  {
    hide Mirrored, Sized, HeadsOwned, AllSlots, Fat, Forest, Head;
    ForestFrame(Fat(m.v), Fat(u), m.own, own');
  }

  /** ... and so do writes in `touched` alone. */
  lemma KeptBefore(info: BootSectorInfo, m: State, u: View, own': Own, k: nat, x: nat, j: nat, touched: seq<nat>)
    requires Sound(info, m) && k < |Root(info, m)| && x < info.sectorsPerCluster && j < SLOTS_PER_SECTOR
    requires SlotIndex(info, k, x, j) < |AllSlots(info, m)|
    requires Elsewhere(info, m, u, touched) && Apart(info, m, own', SlotIndex(info, k, x, j), touched)
    ensures Kept(info, m, u, own', SlotIndex(info, k, x, j))
  {
    hide Sound, Elsewhere, Apart, Kept, AllSlots, SlotIndex, SlotOf;
    var cs, e := Root(info, m), AllSlots(info, m)[SlotIndex(info, k, x, j)];
    KeptWith(info, m, u, own', k, x, j, e, touched);
    SameSlot(u.clusters[cs[k]][x], j);
    assert u.clusters[cs[k]][x := u.clusters[cs[k]][x]] == u.clusters[cs[k]];
    assert u.clusters[cs[k] := u.clusters[cs[k]]] == u.clusters;
  }

  // ----- filling an entry

  /** The requests for copy 0 leave a free entry free: the read fails, or the write fails and none of its four bytes
      got there. */
  ghost predicate MarkerMissed(read: Service, write: Service, c: nat) {
    read.Fails? || (write.Fails? && NoByteOf(c, write.applied))
  }

  ghost predicate NoByteOf(c: nat, applied: set<nat>) {
    var b: nat := 4 * (c % ENTRIES_PER_SECTOR);
    b !in applied && b + 1 !in applied && b + 2 !in applied && b + 3 !in applied
  }

  lemma LowDigits(x: seq<Byte>)
    requires |x| == 4
    ensures U32(x) % MASK28 == 0 <==> x[0] == 0 && x[1] == 0 && x[2] == 0 && x[3] % 16 == 0
  {
    var q, r := x[3] / 16, x[3] % 16;
    assert U32(x) == MASK28 * q + ((x[0] as int) + 0x100 * (x[1] as int) + 0x1_0000 * (x[2] as int) + 0x100_0000 * (r as int));
  }

  /** The bytes of a free entry and of the same entry with the end mark in it. */
  lemma MarkedBytes(raw: nat)
    requires raw < U32_LIMIT && raw % MASK28 == 0
    ensures var a, b := Le32(raw), Le32(Patched(raw, EOC));
      b[0] == 0xFF && b[1] == 0xFF && b[2] == 0xFF && b[3] % 16 == 15 && a[0] == 0 && a[1] == 0 && a[2] == 0 && a[3] % 16 == 0
  {
    LowDigits(Le32(raw));
    var a := Le32(raw);
    U32Injective(Le32(raw + 0x0FFF_FFFF), [0xFF, 0xFF, 0xFF, a[3] + 15]);
  }

  /** A torn write of the end mark over a free entry leaves it free exactly when no byte of it was applied. */
  lemma MarkerTorn(s: Sector, c: nat, applied: set<nat>)
    requires EntryAt(s, c % ENTRIES_PER_SECTOR) % MASK28 == 0
    ensures EntryAt(Torn(s, PatchedSector(s, c, EOC), applied), c % ENTRIES_PER_SECTOR) % MASK28 == 0
      <==> NoByteOf(c, applied)
  {
    hide Patched, U32, Le32;
    var w := c % ENTRIES_PER_SECTOR;
    var raw, p := EntryAt(s, w), PatchedSector(s, c, EOC);
    var a, b, x := s[4 * w..4 * w + 4], p[4 * w..4 * w + 4], Torn(s, p, applied)[4 * w..4 * w + 4];
    MarkedBytes(raw);
    U32Injective(Le32(raw), a);
    assert b == Le32(Patched(raw, EOC));
    assert forall i :: 0 <= i < 4 ==> x[i] == if 4 * w + i in applied then b[i] else a[i];
    LowDigits(x);
  }

  /** Whether an attempt at the end mark leaves a free entry free. */
  lemma MarkerIff(dev: BlkDevice, info: BootSectorInfo, d: seq<Sector>, c: nat, t: nat)
    requires info.Fits(|d|) && c < info.Entries() && |Fat(ViewOf(info, d))| == info.Entries() && Fat(ViewOf(info, d))[c] == 0
    ensures CopyZeroAfter(dev, info, d, c, EOC, t) % MASK28 == 0 <==> MarkerMissed(dev.script(t), dev.script(t + 1), c)
  {
    hide ViewOf, EntryAt, FatSector, Torn, PatchedSector, BootSectorInfo.Fits, Patched;
    NextCovered(info, d, c);
    FatSectorOnDisk(info, |d|, 0, c);
    var s := d[FatSector(info, 0, c)];
    if dev.script(t + 1).Fails? { MarkerTorn(s, c, dev.script(t + 1).applied); }
    EndMarked(EntryAt(s, c % ENTRIES_PER_SECTOR));
  }

  lemma EndMarked(raw: nat)
    ensures Patched(raw, EOC) % MASK28 != 0
  {
  }

  lemma DataElsewhere(info: BootSectorInfo, m: State, d: seq<Sector>, c: nat)
    requires WellFormed(info, m.v) && OnlyClusters(info, m.v, d, [c])
    ensures Elsewhere(info, m, ViewOf(info, d), [c]) && Fat(ViewOf(info, d)) == Fat(m.v)
  {
    hide ViewOf, BootSectorInfo.Fits;
    ViewWellFormed(info, d);
  }

  lemma EntryElsewhere(info: BootSectorInfo, m: State, u: View, d: seq<Sector>, c: nat, value: nat, whole: bool)
    requires Elsewhere(info, m, u, [c]) && c < info.Entries() && EntryLeft(info, u, d, c, value, whole)
    ensures Elsewhere(info, m, ViewOf(info, d), [c])
  {
    hide ViewOf, BootSectorInfo.Fits, Mixed, WellFormed;
    ViewWellFormed(info, d);
    WellFormedFat(info, u);
  }

  lemma EnterApart(info: BootSectorInfo, m: State, c: nat, q: nat)
    requires Sound(info, m) && c < |Fat(m.v)| && Fat(m.v)[c] == 0
    ensures Apart(info, m, m.own, q, [c])
  {
    hide Mirrored, Sized, AllSlots, Fat, IsChain, Head;
    NotOwned(info, m.v, m.own, c);
  }

  // ----- when the slot comes to name the cluster

  /** What a torn write of a new entry over an unused slot must have reached for the slot to name the new cluster: the
      first byte, the attributes unless they were harmless, and the bytes of the cluster number unless equal. */
  ghost predicate HeadReached(applied: set<nat>, e: Slot, entry: Slot, j: nat) {
    && 32 * j in applied && (32 * j + 11 in applied || e[11] % 0x40 != 0x0F)
    && (32 * j + 20 in applied || e[20] == entry[20]) && (32 * j + 21 in applied || e[21] == entry[21])
    && (32 * j + 26 in applied || e[26] == entry[26]) && (32 * j + 27 in applied || e[27] == entry[27])
  }

  /** The requests for the slot leave a slot that names the new cluster. */
  ghost predicate SlotNames(read: Service, write: Service, e: Slot, entry: Slot, j: nat) {
    read.Works? && entry[0] != 0 && entry[0] != DELETED && (write.Works? || HeadReached(write.applied, e, entry, j))
  }

  lemma HeadBytes(a: Slot, b: Slot)
    requires ParseShortDirEntry(a).Some? && ParseShortDirEntry(b).Some?
    ensures Head(a) == Head(b) <==> a[20] == b[20] && a[21] == b[21] && a[26] == b[26] && a[27] == b[27]
  {
    hide U16, U32;
    HalfBytes(a[20..22], b[20..22]);
    HalfBytes(a[26..28], b[26..28]);
    Halves(U16(a[20..22]), U16(a[26..28]), U16(b[20..22]), U16(b[26..28]));
  }

  lemma HalfBytes(a: seq<Byte>, b: seq<Byte>)
    requires |a| == |b| == 2
    ensures U16(a) == U16(b) <==> a[0] == b[0] && a[1] == b[1]
  {
  }

  lemma Halves(h: nat, l: nat, h': nat, l': nat)
    requires l < U16_LIMIT && l' < U16_LIMIT
    ensures h * U16_LIMIT + l == h' * U16_LIMIT + l' <==> h == h' && l == l'
  {
  }

  lemma SlotNamesIff(read: Service, write: Service, e: Slot, name: Name, c: nat, size: nat, j: nat)
    requires Reusable(e) && 0 < c < U32_LIMIT && size < U32_LIMIT
    ensures var entry := NewEntry(name, c, size);
      Head(SlotLeft(read, write, e, entry, j)) == c <==> SlotNames(read, write, e, entry, j)
  {
    hide NewEntry, ParseShortDirEntry;
    var entry := NewEntry(name, c, size);
    var left := SlotLeft(read, write, e, entry, j);
    NewEntryParses(name, c, size);
    NewEntryAttr(name, c, size);
    ParsesIff(e);
    ParsesIff(entry);
    ParsesIff(left);
    if ParseShortDirEntry(left).Some? && ParseShortDirEntry(entry).Some? { HeadBytes(left, entry); }
  }

  lemma ParsesIff(e: Slot)
    ensures ParseShortDirEntry(e).Some? <==> e[0] != 0 && e[0] != DELETED && e[11] % 0x40 != 0x0F
  {
  }

  lemma NewEntryAttr(name: Name, c: nat, size: nat)
    requires c < U32_LIMIT && size < U32_LIMIT
    ensures NewEntry(name, c, size)[11] % 0x40 != 0x0F
  {
  }

  /** The state left by filling an entry, done or not. */
  ghost predicate Filling(info: BootSectorInfo, m: State, w: View, c: nat, q: nat, marker: nat, left: Slot) {
    && q < |AllSlots(info, m)| && c < |Fat(m.v)|
    && Kept(info, m, w, m.own, q) && Fat(w) == Fat(m.v)[c := marker] && AllSlots(info, State(w, m.own)) == AllSlots(info, m)[q := left]
  }

  /** Where slot `q` lies. */
  ghost predicate SlotAt(info: BootSectorInfo, m: State, k: nat, x: nat, j: nat, sector: nat, offset: nat) {
    && k < |Root(info, m)| && x < info.sectorsPerCluster && j < SLOTS_PER_SECTOR && SlotIndex(info, k, x, j) < |AllSlots(info, m)|
    && 2 <= Root(info, m)[k] < info.Entries()
    && sector == ClusterStart(info, Root(info, m)[k]) + x && offset == 32 * j
  }

  /** Writes the data sector, the end-of-chain marker and the directory entry of a new file, one after the other
      whether or not the ones before succeeded. With any device, after every write all other chains are whole and
      all other slots stand for the files they did. At the end the slot names a cluster that reads as free
      exactly when the requests for copy 0 of the marker left the entry free and those for the slot reached it. */
  method FillEntry(dev: BlkDevice, info: BootSectorInfo, slotSector: nat, slotOffset: nat, name: Name, cluster: nat,
                   content: seq<Byte>, ghost own: Own, ghost k: nat, ghost x: nat, ghost j: nat)
    returns (ok: bool, ghost marker: nat, ghost left: Slot, ghost at: nat)
    requires info.Fits(|dev.disk|) && Sound(info, State(Vol(dev, info), own)) && |content| <= 512
    requires SlotAt(info, State(Vol(dev, info), own), k, x, j, slotSector, slotOffset)
    requires Reusable(AllSlots(info, State(Vol(dev, info), own))[SlotIndex(info, k, x, j)])
    requires 2 <= cluster < info.Entries() && Fat(Vol(dev, info))[cluster] == 0 && ClusterStart(info, cluster) < U32_LIMIT
    modifies dev
    ensures |dev.disk| == |old(dev.disk)| && old(dev.history) <= dev.history
    ensures var m, q := State(old(Vol(dev, info)), own), SlotIndex(info, k, x, j);
      && KeptAllSince(info, m, dev.history, |old(dev.history)|, own, q)
      && Filling(info, m, Vol(dev, info), cluster, q, marker, left)
      && left == SlotLeft(dev.script(at), dev.script(at + 1), AllSlots(info, m)[q], NewEntry(name, cluster, |content|), j)
    ensures var t := old(dev.clock) + 1;
      && (marker == 0 <==> MarkerMissed(dev.script(t), dev.script(t + 1), cluster))
      && (marker == 0 ==> at == t + if dev.script(t).Fails? then 1 else 2)
    ensures var m, q, t := State(old(Vol(dev, info)), own), SlotIndex(info, k, x, j), old(dev.clock) + 1;
      Head(AllSlots(info, State(Vol(dev, info), own))[q]) == cluster && Fat(Vol(dev, info))[cluster] == 0
      <==> MarkerMissed(dev.script(t), dev.script(t + 1), cluster)
           && SlotNames(dev.script(at), dev.script(at + 1), AllSlots(info, m)[q], NewEntry(name, cluster, |content|), j)
    ensures ok ==> marker == EOC && left == NewEntry(name, cluster, |content|) && 0 < |old(Vol(dev, info)).clusters[cluster]|
    ensures dev.Reliable() ==>
      var m, t := State(old(Vol(dev, info)), own), State(Vol(dev, info), own[cluster := [cluster]]);
      && (ok <==> 0 < |m.v.clusters[cluster]|) && HintStays(info, m.v, t.v) && (Anchored(info, m) ==> Anchored(info, t))
      && Sound(info, t) && Entered(info, m, t, SlotIndex(info, k, x, j), name, cluster, content)
  {
    hide BootSectorInfo.Fits, ViewOf, Sound, Fat, BlkDevice.Reliable, HintStays, ClusterStart, WriteEntry, AllSlots, NewEntry, Kept, KeptAllSince,
      Entered, WithFirst, Chunk, OnlyClusters, WithSlot, Overlaid, Reusable, SlotOf, SlotLeft, Elsewhere, Apart, EntryLeft, WordsWritten,
      WordsPart, CopyZeroAfter, NoByteOf, Anchored, SlotIndex, BootSectorInfo.Entries, SlotNames, Head;
    ghost var m, from, q := State(Vol(dev, info), own), |dev.history|, SlotIndex(info, k, x, j);
    ghost var cs, e := Root(info, m), AllSlots(info, m)[q];
    var entry := NewEntry(name, cluster, |content|);
    EnterApart(info, m, cluster, q);
    EnterKeeps(info, m, k, x, j, name, cluster, content);
    OnlyClustersStart(info, dev.disk, [cluster]);
    ghost var stored;
    var dataOk;
    dataOk, stored := WriteFirstSector(dev, info, cluster, Chunk(content, 0), m.v, [cluster], from);
    ghost var v0, before := Vol(dev, info), dev.history;
    DataKept(dev, info, m, cluster, k, x, j, from);
    HintStaysSame(info, m.v, v0);
    MarkerIff(dev, info, dev.disk, cluster, dev.clock);
    var markOk := WriteFatEntry(dev, info, cluster, EOC);
    ghost var v1 := Vol(dev, info);
    marker, at := Fat(v1)[cluster], dev.clock;
    assert dev.history[..|before|] == before;
    EntryKept(dev, info, m, v0, |before|, cluster, k, x, j, from);
    KeptWith(info, m, v1, own, k, x, j, e, [cluster]);
    ghost var hist := dev.history;
    var entryOk;
    entryOk, left := PatchSlot(dev, info, slotSector, slotOffset, 0, entry, cs, k, x, j);
    WholeSlot(e, entry);
    KeptWith(info, m, v1, own, k, x, j, left, [cluster]);
    KeptMore(info, m, hist, dev.history, dev.disk, from, own, q);
    if dev.Reliable() {
      OneWriteHint(info, v0, cluster, EOC);
      HintStaysThrough(info, m.v, v0, v1);
      HintStaysThrough(info, m.v, v1, Vol(dev, info));
    }
    ok := dataOk && markOk && entryOk;
    SlotLeftIs(dev.script(at), dev.script(at + 1), e, entry, j);
    SlotNamesIff(dev.script(at), dev.script(at + 1), e, name, cluster, |content|, j);
  }

  lemma WholeSlot(e: Slot, bytes: Slot)
    ensures Overlaid(e, 0, bytes) == bytes
  {
  }

  lemma DataKept(dev: BlkDevice, info: BootSectorInfo, m: State, c: nat, k: nat, x: nat, j: nat, from: nat)
    requires Sound(info, m) && k < |Root(info, m)| && x < info.sectorsPerCluster && j < SLOTS_PER_SECTOR
    requires SlotIndex(info, k, x, j) < |AllSlots(info, m)| && Apart(info, m, m.own, SlotIndex(info, k, x, j), [c])
    requires info.Fits(|dev.disk|) && OnlyClustersSince(dev, info, m.v, [c], from)
    ensures KeptAllSince(info, m, dev.history, from, m.own, SlotIndex(info, k, x, j))
    ensures Elsewhere(info, m, Vol(dev, info), [c]) && Fat(Vol(dev, info)) == Fat(m.v)
  {
    hide Sound, ViewOf, OnlyClusters, Elsewhere, Kept, Apart, AllSlots, SlotIndex, WellFormed, Fat;
    DataElsewhere(info, m, dev.disk, c);
    forall t | from <= t < |dev.history|
      ensures info.Fits(|dev.history[t]|) && Kept(info, m, ViewOf(info, dev.history[t]), m.own, SlotIndex(info, k, x, j))
    {
      DataElsewhere(info, m, dev.history[t], c);
      ClustersFit(info, m.v, dev.history[t], c);
      KeptBefore(info, m, ViewOf(info, dev.history[t]), m.own, k, x, j, [c]);
    }
  }

  lemma ClustersFit(info: BootSectorInfo, v: View, d: seq<Sector>, c: nat)
    requires OnlyClusters(info, v, d, [c])
    ensures info.Fits(|d|)
  {
  }

  lemma EntryKept(dev: BlkDevice, info: BootSectorInfo, m: State, u: View, h: nat, c: nat, k: nat, x: nat, j: nat, from: nat)
    requires Sound(info, m) && k < |Root(info, m)| && x < info.sectorsPerCluster && j < SLOTS_PER_SECTOR
    requires SlotIndex(info, k, x, j) < |AllSlots(info, m)| && Apart(info, m, m.own, SlotIndex(info, k, x, j), [c])
    requires info.Fits(|dev.disk|) && WellFormed(info, u) && c < info.Entries() && Elsewhere(info, m, u, [c]) && from <= h <= |dev.history|
    requires KeptAllSince(info, m, dev.history[..h], from, m.own, SlotIndex(info, k, x, j))
    requires EntryLeft(info, u, dev.disk, c, EOC, dev.WholeWords()) && EntryLeftSince(info, u, dev.history, h, c, EOC, dev.WholeWords())
    ensures KeptAllSince(info, m, dev.history, from, m.own, SlotIndex(info, k, x, j)) && Elsewhere(info, m, Vol(dev, info), [c])
  {
    hide Sound, ViewOf, EntryLeft, Elsewhere, Kept, Apart, AllSlots, SlotIndex, WellFormed, Fat, BootSectorInfo.Fits;
    EntryElsewhere(info, m, u, dev.disk, c, EOC, dev.WholeWords());
    forall t | from <= t < |dev.history|
      ensures info.Fits(|dev.history[t]|) && Kept(info, m, ViewOf(info, dev.history[t]), m.own, SlotIndex(info, k, x, j))
    {
      if h <= t {
        EntryFits(info, u, dev.history[t], c, dev.WholeWords());
        EntryElsewhere(info, m, u, dev.history[t], c, EOC, dev.WholeWords());
        KeptBefore(info, m, ViewOf(info, dev.history[t]), m.own, k, x, j, [c]);
      } else {
        assert dev.history[..h][t] == dev.history[t];
      }
    }
  }

  lemma EntryFits(info: BootSectorInfo, u: View, d: seq<Sector>, c: nat, whole: bool)
    requires WellFormed(info, u) && c < info.Entries() && EntryLeft(info, u, d, c, EOC, whole)
    ensures info.Fits(|d|)
  {
  }

  lemma KeptMore(info: BootSectorInfo, m: State, history: seq<seq<Sector>>, history': seq<seq<Sector>>, d: seq<Sector>, from: nat, own': Own, q: nat)
    requires KeptAllSince(info, m, history, from, own', q) && info.Fits(|d|) && Kept(info, m, ViewOf(info, d), own', q)
    requires history' == history || history' == history + [d]
    ensures KeptAllSince(info, m, history', from, own', q)
  {
    hide ViewOf, Kept;
  }

  /** A slot that names a cluster which reads as free: no ownership makes the volume sound, and if the cluster is the
      first free one, the next allocation takes it again. */
  lemma MarkerLost(info: BootSectorInfo, w: View, own: Own, q: nat, c: nat)
    requires WellFormed(info, w) && Forest(Fat(w), own) && info.rootCluster in own
    requires c < |Fat(w)| && Fat(w)[c] == 0 && q < |AllSlots(info, State(w, own))| && Head(AllSlots(info, State(w, own))[q]) == c != 0
    ensures forall own' :: !Sound(info, State(w, own'))
  {
    hide DirSlots, Head, Mirrored, Sized, Fat;
    WellFormedFat(info, w);
    forall own' ensures !Sound(info, State(w, own')) {
      if Sound(info, State(w, own')) {
        ChainUnique(Fat(w), info.rootCluster, own[info.rootCluster], own'[info.rootCluster]);
        NotOwned(info, w, own', c);
      }
    }
  }

  /** The state is reached: on any sound volume, one write that fails without effect, that of the marker in copy 0, with
      every other request served, leaves the new file's slot naming a cluster that reads as free. */
  method LoseMarker(disk: seq<Sector>, info: BootSectorInfo, slotSector: nat, slotOffset: nat, name: Name, cluster: nat,
                    content: seq<Byte>, ghost own: Own, ghost k: nat, ghost x: nat, ghost j: nat)
    returns (dev: BlkDevice)
    requires info.Fits(|disk|) && Sound(info, State(ViewOf(info, disk), own)) && |content| <= 512 && Visible(name)
    requires SlotAt(info, State(ViewOf(info, disk), own), k, x, j, slotSector, slotOffset)
    requires Reusable(AllSlots(info, State(ViewOf(info, disk), own))[SlotIndex(info, k, x, j)])
    requires IsFirstFree(Fat(ViewOf(info, disk)), cluster) && 2 <= cluster < info.Entries() && ClusterStart(info, cluster) < U32_LIMIT
    ensures forall t :: t != 2 ==> dev.script(t).Works?
    ensures info.Fits(|dev.disk|) && cluster < |Fat(Vol(dev, info))| && SlotIndex(info, k, x, j) < |AllSlots(info, State(Vol(dev, info), own))|
    ensures Head(AllSlots(info, State(Vol(dev, info), own))[SlotIndex(info, k, x, j)]) == cluster
    ensures IsFirstFree(Fat(Vol(dev, info)), cluster) && forall own' :: !Sound(info, State(Vol(dev, info), own'))
  {
    hide BootSectorInfo.Fits, ViewOf, Sound, Fat, HintStays, ClusterStart, AllSlots, NewEntry, Entered, Overlaid, SlotOf, Anchored, SlotIndex,
      KeptAllSince, Head, SlotLeft;
    dev := new BlkDevice(disk, t => if t == 2 then Fails({}) else Works);
    var _, marker, left, at := FillEntry(dev, info, slotSector, slotOffset, name, cluster, content, own, k, x, j);
    NewEntryParses(name, cluster, |content|);
    SoundRoot(info, State(ViewOf(info, disk), own));
    MarkerLost(info, Vol(dev, info), own, SlotIndex(info, k, x, j), cluster);
  }

  lemma SoundRoot(info: BootSectorInfo, m: State)
    requires Sound(info, m)
    ensures info.rootCluster in m.own
  {
  }
}
