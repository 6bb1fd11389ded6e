/** The mutating file operations, end to end on a device that serves every request: what create, grow and delete
    do to a sound volume, whatever the name and wherever the clusters they take lie. */
module FatOperations {
  import opened Bytes
  import opened FatLayout
  import opened FatChains
  import opened Volume
  import opened BlockDevice
  import opened FatDirectory
  import opened DirectoryMap
  import opened FatAllocator
  import opened FatChainGrowth
  import opened FatDirectoryGrowth
  import opened FileSystem
  import opened FileSystemSteps
  import opened FileMap
  import opened FileContents
  import opened FatFiles
  import opened FatWalks
  import opened FatEntries
  import opened FatErase

  /** The volume is sound and the device serves every request. */
  ghost predicate Ready(dev: BlkDevice, info: BootSectorInfo, own: Own)
    reads dev`disk
  {
    info.Fits(|dev.disk|) && dev.Reliable() && Sound(info, State(Vol(dev, info), own))
  }

  // ----- the clusters a create takes

  /** The first free entry from `c` on, or the number of entries. */
  ghost function NextFree(fat: seq<nat>, c: nat): (n: nat)
    ensures c <= |fat| ==> c <= n <= |fat| && forall x :: c <= x < n ==> fat[x] != 0
    ensures n < |fat| ==> fat[n] == 0
    decreases |fat| - c
  {
    if |fat| <= c || fat[c] == 0 then c else NextFree(fat, c + 1)
  }

  /** The cluster a create gives to its file: the first free one if a slot is reusable; the second if the directory
      has to grow, which it can if it is walked to its end and the disk has the first free cluster. */
  ghost function CreateTakes(info: BootSectorInfo, s: State): (c: Option<nat>)
    requires Sound(info, s)
    ensures c.Some? ==> 2 <= c.value < |Fat(s.v)| && Fat(s.v)[c.value] == 0
  {
    var fat := Fat(s.v);
    var n := NextFree(fat, 2);
    if !Full(RootSlots(info, s)) then if n < |fat| then Some(n) else None
    else if |fat| <= n || WALK_CAP < |Root(info, s)| || |s.v.clusters[n]| < info.sectorsPerCluster then None
    else if NextFree(fat, n + 1) < |fat| then Some(NextFree(fat, n + 1)) else None
  }

  lemma FirstFreeIs(fat: seq<nat>, n: nat)
    requires 2 <= |fat|
    ensures IsFirstFree(fat, n) <==> n == NextFree(fat, 2) && n < |fat|
    ensures FreeSet(fat) == {} ==> NextFree(fat, 2) == |fat|
  {
    if NextFree(fat, 2) < |fat| { assert NextFree(fat, 2) in FreeSet(fat); }
  }

  /** When the first free cluster is taken, the next free one becomes first. */
  lemma SecondFreeIs(fat: seq<nat>, fat': seq<nat>, n: nat)
    requires IsFirstFree(fat, n) && |fat'| == |fat|
    requires forall x :: 2 <= x < |fat| ==> (fat'[x] == 0 <==> fat[x] == 0 && x != n)
    ensures NextFree(fat', 2) == NextFree(fat, n + 1)
  {
  }

  // ----- create

  datatype Creation = Refused | Filled(mid: State, how: Slotted, q: nat, c: nat)

  /** The slots are those of `s`, perhaps with a cluster of unused ones behind them. */
  ghost predicate SlotsAre(info: BootSectorInfo, s: State, t: State) {
    AllSlots(info, t) == AllSlots(info, s) || AllSlots(info, t) == AllSlots(info, s) + Slots(Zeros(info.sectorsPerCluster))
  }

  /** What a create that ended in `t` did: it entered the name in the first slot it could find or make, unless there
      was no slot, no cluster, or no sector number for it; `ok` says that the disk has the data too. */
  ghost predicate CreateDone(info: BootSectorInfo, s: State, t: State, name: Name, content: seq<Byte>, ok: bool, r: Creation)
    requires Sound(info, s)
  {
    var c := CreateTakes(info, s);
    && (ok <==> c.Some? && 0 < |s.v.clusters[c.value]|)
    && (r.Filled? <==> c.Some? && ClusterStart(info, c.value) < U32_LIMIT)
    && match r
       case Refused => SlotsAre(info, s, t) && AllKept(info, s, t) && (Named(info, s) ==> Named(info, t) && FilesSame(info, s, t))
       case Filled(m, how, q, b) =>
         && c == Some(b) && Sound(info, m) && SlotFor(info, s, m, how, q) && Entered(info, m, t, q, name, b, content)
         && b < |m.v.clusters| && m.v.clusters[b] == s.v.clusters[b]
  }

  /** The state after the search for a slot, where one was found or made, and what a create takes then. */
  lemma SlotSearched(info: BootSectorInfo, s: State, w: View, slot: (nat, nat), source: SlotSource, k: nat, x: nat, j: nat)
    requires Sound(info, s) && SlotFound(info, s.v, w, Root(info, s), Some(slot), source, k, x, j)
    ensures var m, how, q := SearchState(info, s, w, source), SearchHow(source), SlotIndex(info, k, x, j);
      && Sound(info, m) && SlotFor(info, s, m, how, q) && (Anchored(info, s) ==> Anchored(info, m))
      && k < |Root(info, m)| && x < info.sectorsPerCluster && j < SLOTS_PER_SECTOR && q < |AllSlots(info, m)|
      && 2 <= Root(info, m)[k] < info.Entries() && slot == (ClusterStart(info, Root(info, m)[k]) + x, 32 * j)
      && var n := NextFree(Fat(w), 2);
         CreateTakes(info, s) == (if n < |Fat(w)| then Some(n) else None) && (n < |Fat(w)| ==> w.clusters[n] == s.v.clusters[n])
  {
    hide Sound, Anchored, AllSlots, RootSlots, DirGrown, IsFirstFree, Fat, ClusterStart, DirSlots, FirstReusable, NoneReusable, Zeros, Slots,
      NextFree, SlotIndex, WellFormed;
    RootParts(info, s);
    match source
    case FoundSlot =>
      FoundParts(info, s, k, x, j);
    case GrownBy(n) =>
      GrownSearch(info, s, w, n);
  }

  lemma FoundParts(info: BootSectorInfo, s: State, k: nat, x: nat, j: nat)
    requires Sound(info, s) && k < |Walked(Root(info, s))| && x < info.sectorsPerCluster && j < SLOTS_PER_SECTOR
    requires FirstReusable(DirSlots(s.v, Walked(Root(info, s))), SlotIndex(info, k, x, j))
    ensures FirstReusable(RootSlots(info, s), SlotIndex(info, k, x, j)) && |RootSlots(info, s)| <= |AllSlots(info, s)|
    ensures SlotIndex(info, k, x, j) < |RootSlots(info, s)| && !Full(RootSlots(info, s))
    ensures var n := NextFree(Fat(s.v), 2); CreateTakes(info, s) == if n < |Fat(s.v)| then Some(n) else None
  {
    hide Sound, AllSlots, DirSlots, Fat, NextFree, SlotIndex;
    RootParts(info, s);
    assert RootSlots(info, s) == DirSlots(s.v, Walked(Root(info, s)));
  }

  lemma GrownSearch(info: BootSectorInfo, s: State, w: View, n: nat)
    requires Sound(info, s) && 0 < |Root(info, s)| <= WALK_CAP && Full(DirSlots(s.v, Root(info, s)))
    requires IsFirstFree(Fat(s.v), n) && 2 <= n < info.Entries() && DirGrown(info, s.v, w, Last(Root(info, s)), n)
    ensures var m := State(w, s.own[info.rootCluster := Root(info, s) + [n]]);
      && (Anchored(info, s) ==> Anchored(info, m))
      && Sound(info, m) && SlotFor(info, s, m, Grew(n), SlotIndex(info, |Root(info, s)|, 0, 0)) && Root(info, m) == Root(info, s) + [n]
      && SlotIndex(info, |Root(info, s)|, 0, 0) < |AllSlots(info, m)| && 1 <= info.sectorsPerCluster
    ensures var c := NextFree(Fat(w), 2);
      CreateTakes(info, s) == (if c < |Fat(w)| then Some(c) else None) && (c < |Fat(w)| ==> w.clusters[c] == s.v.clusters[c])
  {
    hide Sound, Anchored, AllSlots, RootSlots, DirGrown, Fat, NoneReusable, Zeros, Slots, NextFree, SlotIndex, AllKept;
    var cs := Root(info, s);
    var m := State(w, s.own[info.rootCluster := cs + [n]]);
    RootParts(info, s);
    DirGrowthKeeps(info, s, w, n);
    RootParts(info, m);
    PositiveSectors(info, s);
    ZeroSlots(info.sectorsPerCluster);
    FullRoot(info, s);
    FirstFreeIs(Fat(s.v), n);
    FreeNotInChain(Fat(s.v), info.rootCluster, cs, n);
    SecondFreeIs(Fat(s.v), Fat(w), n);
    GrownWhole(info, s.v, w, Last(cs), n);
  }

  lemma FullRoot(info: BootSectorInfo, s: State)
    requires |Root(info, s)| <= WALK_CAP && Full(DirSlots(s.v, Root(info, s)))
    ensures Full(RootSlots(info, s)) && RootSlots(info, s) == AllSlots(info, s)
  {
    assert Walked(Root(info, s)) == Root(info, s);
  }

  lemma GrownWhole(info: BootSectorInfo, v: View, w: View, last: nat, n: nat)
    requires WellFormed(info, v) && 2 <= n < info.Entries() && DirGrown(info, v, w, last, n)
    ensures |v.clusters[n]| == info.sectorsPerCluster
  {
  }

  ghost function SearchState(info: BootSectorInfo, s: State, w: View, source: SlotSource): (m: State) {
    if source.GrownBy? then State(w, s.own[info.rootCluster := Root(info, s) + [source.cluster]]) else s
  }

  ghost function SearchHow(source: SlotSource): (how: Slotted) {
    if source.GrownBy? then Grew(source.cluster) else Reused
  }

  /** Where no slot was found or made, nothing changed but for a reserved cluster. */
  lemma SlotRefused(info: BootSectorInfo, s: State, w: View, source: SlotSource, k: nat, x: nat, j: nat)
    requires Sound(info, s) && SlotFound(info, s.v, w, Root(info, s), None, source, k, x, j)
    ensures var t := State(w, s.own);
      && Sound(info, t) && AllKept(info, s, t) && (Named(info, s) ==> Named(info, t)) && FilesSame(info, s, t)
      && (Anchored(info, s) ==> Anchored(info, t)) && SlotsAre(info, s, t)
    ensures CreateTakes(info, s).None?
  {
    hide Sound, Anchored, AllSlots, DirStuck, Fat, DirSlots, NextFree, AllKept, FilesSame, Named, FreeSet, NoneReusable, IsFirstFree;
    var t := State(w, s.own);
    EnoughEntries(info, s);
    match source {
      case StuckAt(n) =>
        FirstFreeIs(Fat(s.v), n);
        DirStuckKeeps(info, s, w, n);
        SameSlotsSameFiles(info, s, t);
        FullRoot(info, s);
        StuckPart(info, s.v, w, n);
      case NoRoom =>
        AllKeptSame(info, s);
        FullRoot(info, s);
        FirstFreeIs(Fat(s.v), 0);
      case TooLong =>
        AllKeptSame(info, s);
        assert RootSlots(info, s) == DirSlots(s.v, Walked(Root(info, s)));
    }
  }

  lemma StuckPart(info: BootSectorInfo, v: View, w: View, n: nat)
    requires WellFormed(info, v) && 2 <= n < info.Entries() && DirStuck(info, v, w, n)
    ensures |v.clusters[n]| < info.sectorsPerCluster
  {
  }

  lemma EnoughEntries(info: BootSectorInfo, s: State)
    requires Sound(info, s)
    ensures 2 <= |Fat(s.v)|
  {
    hide Forest, Mirrored, AllSlots, HeadsOwned, HangOk, Fat;
  }

  /** A slot made but not filled. */
  lemma SlotUnused(info: BootSectorInfo, s: State, m: State, how: Slotted, q: nat)
    requires Sound(info, s) && Sound(info, m) && SlotFor(info, s, m, how, q)
    ensures SlotsAre(info, s, m) && AllKept(info, s, m) && (Named(info, s) ==> Named(info, m) && FilesSame(info, s, m))
  {
    hide Sound, AllSlots, RootSlots, AllKept, FilesSame, Named, Zeros;
    SlotForParts(info, s, m, how, q);
    if Named(info, s) { MidSame(info, s, m, how, q); }
  }

  /** Creates a file of at most one sector. The volume stays sound whatever the name; the entry is written exactly
      when there is a slot or the directory can grow, and a free cluster whose sector number fits 32 bits; and
      it succeeds exactly when the disk has that cluster's first sector. */
  method CreateFile(dev: BlkDevice, info: BootSectorInfo, name: Name, content: seq<Byte>, ghost own: Own)
    returns (ok: bool, ghost own': Own, ghost r: Creation)
    requires Ready(dev, info, own) && |content| <= 512
    modifies dev
    ensures |dev.disk| == |old(dev.disk)|
    ensures Sound(info, State(Vol(dev, info), own')) && HintStays(info, old(Vol(dev, info)), Vol(dev, info))
    ensures Anchored(info, State(old(Vol(dev, info)), own)) ==> Anchored(info, State(Vol(dev, info), own'))
    ensures CreateDone(info, State(old(Vol(dev, info)), own), State(Vol(dev, info), own'), name, content, ok, r)
  {
    hide BootSectorInfo.Fits, ViewOf, Sound, BlkDevice.Reliable, HintStays, SlotFound, IsChain, Fat, ClusterStart, CreateTakes,
      AllKept, FilesSame, Named, SlotFor, Entered, Root, AllSlots, Sized, WellFormed, SlotIndex, IsFirstFree, FreeSet, Reusable, NextFree,
      SearchState, SearchHow, BootSectorInfo.ClusterToSector, Anchored, Filling, KeptAllSince, SlotNames, MarkerMissed, SlotLeft, NewEntry, SlotsAre;
    ghost var s := State(Vol(dev, info), own);
    RootParts(info, s);
    RootSized(info, s);
    var slot, source, k, x, j := FindOrGrowCreateSlot(dev, info, info.rootCluster, Root(info, s));
    ghost var w := Vol(dev, info);
    if slot.None? {
      SlotRefused(info, s, w, source, k, x, j);
      return false, own, Refused;
    }
    SlotSearched(info, s, w, slot.value, source, k, x, j);
    ghost var m, how, q := SearchState(info, s, w, source), SearchHow(source), SlotIndex(info, k, x, j);
    SearchedView(info, s, w, slot.value, source, k, x, j);
    SlotUnused(info, s, m, how, q);
    SlotForParts(info, s, m, how, q);
    EnoughEntries(info, m);
    own' := m.own;
    var cluster := AllocateFreeCluster(dev, info);
    if cluster.None? {
      FirstFreeIs(Fat(w), 0);
      return false, m.own, Refused;
    }
    FirstFreeIs(Fat(w), cluster.value);
    FreeEntry(Fat(w), cluster.value);
    ClusterResolves(info, cluster.value);
    NoSectorsAbove(info, dev.disk, cluster.value);
    var sector := info.ClusterToSector(cluster.value);
    if sector.None? {
      return false, m.own, Refused;
    }
    ghost var marker, left, at;
    ok, marker, left, at := FillEntry(dev, info, slot.value.0, slot.value.1, name, cluster.value, content, m.own, k, x, j);
    HintStaysThrough(info, s.v, w, Vol(dev, info));
    return ok, m.own[cluster.value := [cluster.value]], Filled(m, how, q, cluster.value);
  }

  lemma RootSized(info: BootSectorInfo, s: State)
    requires Sound(info, s)
    ensures Sized(s.v.clusters, info.sectorsPerCluster, Walked(Root(info, s)))
  {
    hide Forest, Mirrored, AllSlots, HeadsOwned, HangOk, Fat;
  }

  lemma SearchedView(info: BootSectorInfo, s: State, w: View, slot: (nat, nat), source: SlotSource, k: nat, x: nat, j: nat)
    requires Sound(info, s) && SlotFound(info, s.v, w, Root(info, s), Some(slot), source, k, x, j)
    ensures SearchState(info, s, w, source) == State(w, SearchState(info, s, w, source).own)
  {
    hide Sound, DirGrown, Fat, FirstReusable, NoneReusable, IsFirstFree, ClusterStart, DirSlots;
  }

  lemma FreeEntry(fat: seq<nat>, c: nat)
    requires IsFirstFree(fat, c)
    ensures 2 <= c < |fat| && fat[c] == 0
  {
  }

  /** A cluster whose sector number does not fit 32 bits has no sector on the disk. */
  lemma NoSectorsAbove(info: BootSectorInfo, d: seq<Sector>, c: nat)
    requires info.Fits(|d|) && 2 <= c < info.Entries()
    ensures 0 < |ViewOf(info, d).clusters[c]| ==> ClusterStart(info, c) < U32_LIMIT
  {
    hide ClusterStart, FatCopy;
    ClusterLength(info, d, d, c);
  }

  // ----- locating a file

  /** A name was found in slot `j` of sector `x` of the `k`-th cluster of the root directory. */
  ghost predicate FoundAt(info: BootSectorInfo, s: State, name: Name, k: nat, x: nat, j: nat): (ok: bool)
    ensures ok ==> SlotIndex(info, k, x, j) < |AllSlots(info, s)| && k < |Root(info, s)| && j < SLOTS_PER_SECTOR
  {
    && k < |Root(info, s)| && x < info.sectorsPerCluster && j < SLOTS_PER_SECTOR
    && 2 <= Root(info, s)[k] < info.Entries()
    && SlotIndex(info, k, x, j) < |AllSlots(info, s)|
    && Find(RootSlots(info, s), name, 0) == Some(SlotIndex(info, k, x, j))
  }

  /** The entry the driver's lookup of `name` finds, and where it lies. */
  method LocateFile(dev: BlkDevice, info: BootSectorInfo, name: Name, ghost own: Own)
    returns (r: Option<(ShortDirEntry, nat, nat)>, ghost k: nat, ghost x: nat, ghost j: nat)
    requires Ready(dev, info, own)
    modifies dev`clock
    ensures var s := State(Vol(dev, info), own);
      && (r.None? <==> Find(RootSlots(info, s), name, 0).None?)
      && (r.Some? ==>
            && FoundAt(info, s, name, k, x, j)
            && ParseShortDirEntry(AllSlots(info, s)[SlotIndex(info, k, x, j)]) == Some(r.value.0)
            && r.value.1 == ClusterStart(info, Root(info, s)[k]) + x && r.value.2 == 32 * j)
  {
    hide BootSectorInfo.Fits, ViewOf, Sound, Fat, BlkDevice.Reliable, WellFormed, ClusterStart, IsChain, Find, ParseShortDirEntry, Sized,
      DirSlots, SlotIndex;
    ghost var s := State(Vol(dev, info), own);
    RootParts(info, s);
    RootSized(info, s);
    r, k, x, j := FindEntryWithLocation(dev, info, info.rootCluster, name, Root(info, s));
    if r.Some? { FoundInAll(info, s, name); }
  }

  // ----- walks

  // ----- growing a file

  /** What a grown file reads as: the old chain as far as it was walked, then the new clusters with the data in the
      first sector of each. A file that names no cluster still names none. */
  ghost function GrownContent(info: BootSectorInfo, s: State, h: nat, ns: seq<nat>, data: seq<Byte>, newSize: nat): (bytes: seq<Byte>) {
    if h == 0 then [] else Prefix(GrownBytes(info, s.v, WalkFrom(s, h)[..WalkSteps(s, h)], ns, data), newSize)
  }

  /** Whether a grow goes through: the name is found and that many clusters are free. */
  ghost predicate CanGrow(info: BootSectorInfo, s: State, name: Name, count: nat) {
    Find(RootSlots(info, s), name, 0).Some? && 1 <= count <= |FreeSet(Fat(s.v))|
  }

  ghost predicate GrowDone(info: BootSectorInfo, s: State, t: State, name: Name, count: nat, data: seq<Byte>, newSize: nat, ok: bool, ns: seq<nat>)
    requires newSize < U32_LIMIT
  {
    if !CanGrow(info, s, name, count) then
      !ok && t.own == s.own && Root(info, t) == Root(info, s) && AllSlots(info, t) == AllSlots(info, s) && AllKept(info, s, t)
    else
      var q := Find(RootSlots(info, s), name, 0).value;
      && |ns| == count && SmallestFree(Fat(s.v), ns) && (ok <==> HaveFirst(s.v, ns))
      && q < |AllSlots(info, s)|
      && var e := AllSlots(info, s)[q];
      && ParseShortDirEntry(e).Some?
      && SlotRewritten(info, s, t, q, Resized(e, newSize)) && t.own == GrownOwn(s, Head(e), ns)
      && SlotFile(info, t, Resized(e, newSize))
         == Some(File(ParseShortDirEntry(e).value.isDir, GrownContent(info, s, Head(e), ns, data, newSize)))
  }

  /** The rewritten slot's own file. */
  lemma GrownFile(info: BootSectorInfo, s: State, t: State, u: View, q: nat, ns: seq<nat>, data: seq<Byte>, newSize: nat)
    requires Sound(info, s) && q < |AllSlots(info, s)| && newSize < U32_LIMIT && 0 < |ns| && SmallestFree(Fat(s.v), ns)
    requires ParseShortDirEntry(AllSlots(info, s)[q]).Some?
    requires u.clusters == WithChunks(s.v, ns, data, |ns|).clusters && |t.v.clusters| == |u.clusters|
    requires forall c :: 0 <= c < |u.clusters| && c !in Root(info, s) ==> t.v.clusters[c] == u.clusters[c]
    requires Sound(info, t) && t.own == GrownOwn(s, Head(AllSlots(info, s)[q]), ns)
    ensures var e := AllSlots(info, s)[q];
      SlotFile(info, t, Resized(e, newSize))
      == Some(File(ParseShortDirEntry(e).value.isDir, GrownContent(info, s, Head(e), ns, data, newSize)))
  {
    hide AllSlots, Sound, Fat, FileBytes, Resized, WithChunks, SmallestFree, GrownOwn, WalkSteps, ParseShortDirEntry, Root;
    var e := AllSlots(info, s)[q];
    var h := Head(e);
    ResizedParses(e, newSize);
    SlotHead(info, s, q);
    HangHead(info, s);
    GrownOwnIs(s, h, ns);
    if h == 0 {
      SoundNoZero(info, t);
    } else {
      GrownChainApart(info, s, h, WalkSteps(s, h), ns);
      var w, cs := WithChunks(s.v, ns, data, |ns|), s.own[h][..WalkSteps(s, h)] + ns;
      assert SameClusters(w, t.v, cs);
      SameFileBytes(info, w, t.v, cs);
    }
  }

  lemma SoundNoZero(info: BootSectorInfo, s: State)
    requires Sound(info, s)
    ensures 0 !in s.own
  {
    hide Mirrored, Sized, HeadsOwned, HangOk, AllSlots, Fat;
    NoZeroHead(info, s.v, s.own);
  }

  lemma GrownChainApart(info: BootSectorInfo, s: State, h: nat, m: nat, ns: seq<nat>)
    requires Sound(info, s) && h in s.own && h != info.rootCluster && m <= |s.own[h]| && SmallestFree(Fat(s.v), ns)
    ensures Disjoint(s.own[h][..m] + ns, Root(info, s))
    ensures forall i :: 0 <= i < |s.own[h][..m] + ns| ==> (s.own[h][..m] + ns)[i] < |s.v.clusters|
  {
    hide Mirrored, Sized, HeadsOwned, HangOk, AllSlots, Fat, IsChain;
    OwnedChain(info, s.v, s.own, h);
    AllocatedRange(info, s.v, ns);
    RootParts(info, s);
    FreshApart(Fat(s.v), info.rootCluster, Root(info, s), ns);
    assert Disjoint(s.own[h], s.own[info.rootCluster]);
    forall c | c in s.own[h][..m] + ns ensures c !in Root(info, s) {
      if c in s.own[h][..m] { assert c in s.own[h]; }
    }
  }

  /** The slot as the size patch finds it, and the state the patch leads to. */
  lemma GrowSlot(info: BootSectorInfo, s: State, v1: View, u: View, k: nat, x: nat, j: nat, ns: seq<nat>, data: seq<Byte>, newSize: nat)
    requires Sound(info, s) && SmallestFree(Fat(s.v), ns) && newSize < U32_LIMIT && 0 < |ns|
    requires k < |Root(info, s)| && x < info.sectorsPerCluster && j < SLOTS_PER_SECTOR && SlotIndex(info, k, x, j) < |AllSlots(info, s)|
    requires ParseShortDirEntry(AllSlots(info, s)[SlotIndex(info, k, x, j)]).Some?
    requires var h := Head(AllSlots(info, s)[SlotIndex(info, k, x, j)]);
      0 < WalkSteps(s, h) && Appended(info, s.v, v1, u, WalkFrom(s, h)[WalkSteps(s, h) - 1], ns, data)
    requires Tame(info, s, AllSlots(info, s)[SlotIndex(info, k, x, j)])
    ensures var q, cs := SlotIndex(info, k, x, j), Root(info, s);
      var e := AllSlots(info, s)[q];
      && cs[k] < |u.clusters| && x < |u.clusters[cs[k]]|
      && var t := State(WithSlot(u, cs, k, x, j, Overlaid(SlotOf(u.clusters[cs[k]][x], j), 28, Le32(newSize))), GrownOwn(s, Head(e), ns));
      && (Anchored(info, s) ==> Anchored(info, t))
      && Sound(info, t) && SlotRewritten(info, s, t, q, Resized(e, newSize))
      && SlotFile(info, t, Resized(e, newSize))
         == Some(File(ParseShortDirEntry(e).value.isDir, GrownContent(info, s, Head(e), ns, data, newSize)))
  {
    hide AllSlots, Sound, Fat, Resized, SmallestFree, GrownOwn, WalkSteps, WalkFrom, ParseShortDirEntry, Root, Appended, Staged, Headed, HangLater,
      Anchored, Spare, Aside, WithSlot, Overlaid, SlotsKept, SlotFile, GrownContent, Le32, SlotIndex;
    var q, cs := SlotIndex(info, k, x, j), Root(info, s);
    var e := AllSlots(info, s)[q];
    var h := Head(e);
    GrowStaged(info, s, v1, u, q, ns, data);
    ResizedParses(e, newSize);
    AsideSpare(info, s, h);
    SlotWritten(info, s, u, GrownOwn(s, h, ns), k, x, j, Resized(e, newSize), Aside(s, h), ns);
    ResizedOverlay(e, newSize);
    AppendedParts(info, s, v1, u, WalkFrom(s, h)[WalkSteps(s, h) - 1], ns, data);
    GrownFile(info, s, State(WithSlot(u, cs, k, x, j, Resized(e, newSize)), GrownOwn(s, h, ns)), u, q, ns, data, newSize);
  }

  lemma ResizedOverlay(e: Slot, size: nat)
    requires size < U32_LIMIT
    ensures Overlaid(e, 28, Le32(size)) == Resized(e, size)
  {
    hide Le32;
  }

  /** The slot `name` leads to, if any, is tame. */
  ghost predicate TameName(info: BootSectorInfo, s: State, name: Name) {
    var f := Find(RootSlots(info, s), name, 0);
    f.Some? && f.value < |AllSlots(info, s)| ==> Tame(info, s, AllSlots(info, s)[f.value])
  }

  /** A walk from a tame slot's head ends where the walk through its chain does. */
  lemma TameWalk(info: BootSectorInfo, s: State, d: seq<Sector>, q: nat)
    requires info.Fits(|d|) && s.v == ViewOf(info, d) && Sound(info, s) && q < |AllSlots(info, s)| && Tame(info, s, AllSlots(info, s)[q])
    ensures var h := Head(AllSlots(info, s)[q]);
      && 0 < WalkSteps(s, h) && WalkFrom(s, h)[WalkSteps(s, h) - 1] < info.Entries()
      && WalkEnd(info, d, h, WALK_CAP) == Some(WalkFrom(s, h)[WalkSteps(s, h) - 1])
  {
    hide ViewOf, Sound, AllSlots, Head, Fat, WalkFrom, Walk, Tame, IsChain, WalkEnd, BootSectorInfo.Fits;
    var h := Head(AllSlots(info, s)[q]);
    WalkFromIs(info, s, q);
    WalkHead(Fat(s.v), h, WalkFrom(s, h));
    WalkEndIs(info, d, h, WalkFrom(s, h), 0, WALK_CAP);
  }

  /** Appends `data` to a file in `count` new clusters, written, linked and spliced in that order, and sets the size
      field to `newSize`. It goes through exactly when the name is found and that many clusters are free, and
      reports success exactly when the disk has a first sector for each of them. Where the walk strays from
      entry 0, nothing changes if it comes to a cluster whose entry the disk lacks, and otherwise the link
      goes to whatever words the driver takes for the entries of the cluster the walk ends in. */
  method GrowFile(dev: BlkDevice, info: BootSectorInfo, name: Name, count: nat, data: seq<Byte>, newSize: nat, ghost own: Own)
    returns (ok: bool, ghost own': Own, ghost ns: seq<nat>, ghost linking: seq<Sector>, ghost mid: seq<Sector>)
    requires Ready(dev, info, own) && newSize < U32_LIMIT
    modifies dev
    ensures |dev.disk| == |old(dev.disk)|
    ensures var s, t := State(old(Vol(dev, info)), own), State(Vol(dev, info), own');
      TameName(info, s, name) ==>
        && Sound(info, t) && HintStays(info, s.v, t.v) && (Anchored(info, s) ==> Anchored(info, t))
        && GrowDone(info, s, t, name, count, data, newSize, ok, ns)
    ensures var s := State(old(Vol(dev, info)), own);
      var f := Find(RootSlots(info, s), name, 0);
      f.Some? && f.value < |AllSlots(info, s)| ==>
        var end := WalkEnd(info, old(dev.disk), Head(AllSlots(info, s)[f.value]), WALK_CAP);
        && (end.None? ==> !ok && dev.disk == old(dev.disk))
        && (end.Some? && 4 * end.value < U32_LIMIT && 1 <= count <= |FreeSet(Fat(s.v))| ==>
              0 < |ns| && WordsWritten(info, linking, mid, end.value, ns[0], info.numFats))
  {
    hide BootSectorInfo.Fits, ViewOf, Sound, Find, FreeSet, Fat, BlkDevice.Reliable, HintStays, WellFormed, ClusterStart, IsChain, RolledBack,
      SmallestFree, Appended, AppendSafe, AllSlots, RootSlots, Root, SlotRewritten, SlotFile, GrownOwn, GrownContent, Le32, Resized, Overlaid,
      HaveFirst, ParseShortDirEntry, WalkFrom, WalkSteps, AllKept, SlotIndex, WithSlot, Walk, ChainKeptSince, ChainEndsIn, SlotOf, Tame, Anchored,
      WordsWritten, Rewritten, LinkValues, WithChunks, WalkEnd, Splice, SlotLeft, Head;
    ghost var s := State(Vol(dev, info), own);
    HintStaysSame(info, s.v, s.v);
    AllKeptSame(info, s);
    own', ns, linking, mid := own, [], dev.disk, dev.disk;
    var found, k, x, j := LocateFile(dev, info, name, own);
    if found.None? {
      return false, own, [], dev.disk, dev.disk;
    }
    ghost var q, cs := SlotIndex(info, k, x, j), Root(info, s);
    ghost var h := Head(AllSlots(info, s)[q]);
    ghost var tame := Tame(info, s, AllSlots(info, s)[q]);
    HeadIs(AllSlots(info, s)[q], found.value.0);
    SlotOnDisk(info, s, dev.disk, k, x, j);
    if tame { TameWalk(info, s, dev.disk, q); }
    var last := WalkToLast(dev, info, found.value.0.firstCluster);
    if last.None? {
      return false, own, [], dev.disk, dev.disk;
    }
    var out := new nat[count];
    var taken;
    ghost var v1, m, torn;
    taken, ok, v1, m, torn, linking := AppendClusters(dev, info, last.value, count, data, out, h, []);
    ghost var u := Vol(dev, info);
    mid := dev.disk;
    if !taken {
      if 1 <= count { RolledBackSame(info, s, u); }
      return false, own, [], linking, mid;
    }
    ns := out[..count];
    if tame { GrowSlot(info, s, v1, u, k, x, j, ns, data, newSize); }
    ClusterLength(info, old(dev.disk), mid, cs[k]);
    var sized;
    ghost var left;
    sized, left := PatchSlot(dev, info, found.value.1, found.value.2, 28, Le32(newSize), cs, k, x, j);
    ok := ok && sized;
    if tame { HintStaysThrough(info, s.v, u, Vol(dev, info)); }
    own' := GrownOwn(s, h, ns);
  }

  lemma HeadIs(e: Slot, p: ShortDirEntry)
    requires ParseShortDirEntry(e) == Some(p)
    ensures Head(e) == p.firstCluster
  {
  }

  /** A refused allocation changes no chain and no file. */
  lemma RolledBackSame(info: BootSectorInfo, s: State, w: View)
    requires Sound(info, s) && RolledBack(info, s.v, w)
    ensures var t := State(w, s.own);
      && Sound(info, t) && Root(info, t) == Root(info, s) && AllSlots(info, t) == AllSlots(info, s) && AllKept(info, s, t)
      && (Anchored(info, s) ==> Anchored(info, t))
  {
    hide Forest, AllSlots, HeadsOwned, HangOk, RolledBack, AllKept, Fat;
    MirroredFreeAgrees(info, s.v);
    RollbackFats(info, s.v, w);
    RolledBackShape(info, s.v, w);
    SameVolume(info, s, w);
  }

  // ----- delete

  /** All of a chain is freed exactly when it is no longer than the walk. */
  lemma DeleteFreesAllIff(fat: seq<nat>, fat': seq<nat>, head: nat, cs: seq<nat>)
    requires Small(fat) && IsChain(fat, head, cs) && Freed(fat, fat', Walked(cs))
    ensures (forall c :: c in cs && c < |fat'| ==> fat'[c] == 0) <==> |cs| <= WALK_CAP
  {
    if WALK_CAP < |cs| {
      ChainDistinct(fat, head, cs);
      assert cs[WALK_CAP] in cs;
      ChainNotFree(fat, head, cs, cs[WALK_CAP]);
    }
  }

  /** A grown chain is the whole old one followed by the new clusters exactly when the walk reached
      the old one's end. */
  lemma GrowKeepsWholeChainIff(fat: seq<nat>, head: nat, cs: seq<nat>, ns: seq<nat>)
    requires Small(fat) && IsChain(fat, head, cs[..Min(|cs|, WALK_CAP + 1)] + ns)
    ensures IsChain(fat, head, cs + ns) <==> |cs| <= WALK_CAP + 1
  {
    if |cs| <= WALK_CAP + 1 {
      assert cs[..Min(|cs|, WALK_CAP + 1)] == cs;
    } else if IsChain(fat, head, cs + ns) {
      ChainUnique(fat, head, cs + ns, cs[..Min(|cs|, WALK_CAP + 1)] + ns);
    }
  }

  ghost predicate DeleteDone(info: BootSectorInfo, s: State, t: State, name: Name, ok: bool) {
    var f := Find(RootSlots(info, s), name, 0);
    && (ok <==> f.Some?)
    && if f.None? then t == s
       else
         && f.value < |AllSlots(info, s)|
         && var e := AllSlots(info, s)[f.value];
         && SlotRewritten(info, s, t, f.value, Deleted(e)) && t.own == FreedOwn(s, Head(e))
         && Freed(Fat(s.v), Fat(t.v), Walked(WalkFrom(s, Head(e))))
  }

  /** Deletes a file: frees its chain and marks its slot. Where the freeing strays from entry 0, it does what its trace
      says. */
  method DeleteFile(dev: BlkDevice, info: BootSectorInfo, name: Name, ghost own: Own)
    returns (ok: bool, ghost own': Own, ghost tr: Trace, ghost mid: seq<Sector>)
    requires Ready(dev, info, own)
    modifies dev
    ensures |dev.disk| == |old(dev.disk)|
    ensures var s, t := State(old(Vol(dev, info)), own), State(Vol(dev, info), own');
      TameName(info, s, name) ==>
        && Sound(info, t) && HintStays(info, s.v, t.v) && (Anchored(info, s) ==> Anchored(info, t))
        && DeleteDone(info, s, t, name, ok)
    ensures var s := State(old(Vol(dev, info)), own);
      var f := Find(RootSlots(info, s), name, 0);
      f.Some? && f.value < |AllSlots(info, s)| ==>
        1 <= info.numFats && TraceDone(info, tr, old(dev.disk), mid, Head(AllSlots(info, s)[f.value]), ok)
  {
    hide BootSectorInfo.Fits, ViewOf, Sound, Find, Fat, BlkDevice.Reliable, HintStays, WellFormed, ClusterStart, IsChain, AllSlots, RootSlots,
      Root, SlotRewritten, FreedOwn, Deleted, Overlaid, ParseShortDirEntry, WalkFrom, WalkSteps, SlotIndex, WithSlot, Freed, Walked, Tame, Anchored,
      Erased, KeptAllSince, TraceDone, Splice, Head;
    ghost var s := State(Vol(dev, info), own);
    HintStaysSame(info, s.v, s.v);
    own', mid, tr := own, dev.disk, Trace([], []);
    var found, k, x, j := LocateFile(dev, info, name, own);
    if found.None? {
      return false, own, tr, mid;
    }
    ghost var h := Head(AllSlots(info, s)[SlotIndex(info, k, x, j)]);
    HeadIs(AllSlots(info, s)[SlotIndex(info, k, x, j)], found.value.0);
    ghost var n, y, left, at;
    ok, n, y, left, at, tr, mid := EraseEntry(dev, info, found.value.0.firstCluster, found.value.1, found.value.2, own, k, x, j);
    own' := FreedOwn(s, h);
  }
}
