/** The volume as a file system: who owns which clusters, what each directory slot's file contains, which file
    each name leads to, and what rewriting one slot does to all of that. Ownership is a map from the head of
    each live chain to the chain; it may hold more chains than the root directory names. */
module FileSystem {
  import opened Bytes
  import opened FatLayout
  import opened FatChains
  import opened Volume
  import opened FatDirectory
  import opened DirectoryMap
  import opened FatChainGrowth

  type Own = map<nat, seq<nat>>

  datatype State = State(v: View, own: Own)

  /** How many clusters any walk of a chain visits at most. */
  const WALK_CAP := 1024

  /** The part of a chain that a walk reaches. */
  function Walked(cs: seq<nat>): (r: seq<nat>)
    ensures r <= cs
  {
    cs[..Min(|cs|, WALK_CAP)]
  }

  // ----- slots

  ghost function DirSlots(v: View, cs: seq<nat>): (slots: seq<Slot>) {
    Slots(ChainSectors(v.clusters, cs))
  }

  /** The chain of the root directory. */
  ghost function Root(info: BootSectorInfo, s: State): (cs: seq<nat>) {
    if info.rootCluster in s.own then s.own[info.rootCluster] else []
  }

  ghost function AllSlots(info: BootSectorInfo, s: State): (slots: seq<Slot>) {
    DirSlots(s.v, Root(info, s))
  }

  /** The slots the driver's own scans see. */
  ghost function RootSlots(info: BootSectorInfo, s: State): (slots: seq<Slot>) {
    DirSlots(s.v, Walked(Root(info, s)))
  }

  /** The position of slot `j` of sector `x` of the `k`-th cluster of a directory. */
  function SlotIndex(info: BootSectorInfo, k: nat, x: nat, j: nat): nat {
    SLOTS_PER_SECTOR * (Blocks(k, info.sectorsPerCluster) + x) + j
  }

  // ----- contents

  ghost function FlatBytes(ss: seq<Sector>): (bytes: seq<Byte>)
    ensures |bytes| == 512 * |ss|
  {
    seq(512 * |ss|, i requires 0 <= i < 512 * |ss| => ss[i / 512][i % 512])
  }

  /** The data a reader gets of a chain: cluster after cluster, up to the first sector the disk does not have. */
  ghost function FileBytes(info: BootSectorInfo, v: View, cs: seq<nat>): (bytes: seq<Byte>) {
    FlatBytes(ChainSectors(v.clusters, Reached(v.clusters, info.sectorsPerCluster, cs)))
  }

  function Prefix<T>(s: seq<T>, n: nat): (r: seq<T>) {
    if n <= |s| then s[..n] else s
  }

  datatype File = File(isDir: bool, content: seq<Byte>)

  ghost function Content(info: BootSectorInfo, s: State, e: ShortDirEntry): (bytes: seq<Byte>) {
    if e.firstCluster in s.own then Prefix(FileBytes(info, s.v, s.own[e.firstCluster]), e.fileSize) else []
  }

  /** The file a slot stands for. */
  ghost function SlotFile(info: BootSectorInfo, s: State, e: Slot): (f: Option<File>) {
    var p := ParseShortDirEntry(e);
    if p.None? then None else Some(File(p.value.isDir, Content(info, s, p.value)))
  }

  /** The file the driver's own lookup of `name` leads to. */
  ghost function FileAt(info: BootSectorInfo, s: State, name: Name): (f: Option<File>) {
    var i := Find(RootSlots(info, s), name, 0);
    if i.None? || i.value >= |RootSlots(info, s)| then None else SlotFile(info, s, RootSlots(info, s)[i.value])
  }

  // ----- consistency

  /** The head cluster a slot names; 0 when it names none. */
  function Head(e: Slot): (h: nat) {
    var p := ParseShortDirEntry(e);
    if p.None? then 0 else p.value.firstCluster
  }

  /** Every slot that names a cluster names the head of an owned chain, no two the same one,
      none the directory itself. */
  ghost predicate HeadsOwned(slots: seq<Slot>, own: Own, root: nat) {
    && (forall i :: 0 <= i < |slots| ==> Head(slots[i]) == 0 || (Head(slots[i]) in own && Head(slots[i]) != root))
    && (forall i, j :: 0 <= i < j < |slots| && Head(slots[i]) != 0 ==> Head(slots[i]) != Head(slots[j]))
  }

  /** An entry 0, where a walk from a slot that names no cluster starts, which ends there, points at itself or leads
      to an owned chain no slot names. */
  ghost predicate HangOk(fat: seq<nat>, own: Own, slots: seq<Slot>, root: nat) {
    && 0 < |fat|
    && (|| IsEndOfChain(fat[0]) || fat[0] == 0
        || (fat[0] in own && fat[0] != root && forall i :: 0 <= i < |slots| ==> Head(slots[i]) != fat[0]))
  }

  /** The FAT's part of consistency: equal copies, disjoint terminated chains, a root directory the disk has, and
      distinct owned heads. */
  ghost predicate Sound(info: BootSectorInfo, s: State): (ok: bool)
    ensures ok ==> WellFormed(info, s.v) && info.rootCluster in s.own && Root(info, s) == s.own[info.rootCluster]
    ensures ok ==> 0 < |Fat(s.v)| == info.Entries() <= MAX_ENTRIES
  {
    && WellFormed(info, s.v) && Mirrored(s.v)
    && Forest(Fat(s.v), s.own)
    && info.rootCluster in s.own && Sized(s.v.clusters, info.sectorsPerCluster, s.own[info.rootCluster])
    && HeadsOwned(AllSlots(info, s), s.own, info.rootCluster)
  }

  /** Entry 0 of the FAT leads nowhere it should not. Not part of consistency: the usual entry 0 is an end mark,
      but media type 0xF0 makes it one the driver does not take for one. */
  ghost predicate Anchored(info: BootSectorInfo, s: State) {
    HangOk(Fat(s.v), s.own, AllSlots(info, s), info.rootCluster)
  }

  /** The naming part: nothing behind an unused slot, and no name twice. */
  ghost predicate Named(info: BootSectorInfo, s: State) {
    ZeroTail(RootSlots(info, s)) && UniqueNames(RootSlots(info, s))
  }

  // ----- one state to another

  /** Every slot of `s` but the `q`-th is there in `t` and stands for the same file. */
  ghost predicate SlotsKept(info: BootSectorInfo, s: State, t: State, q: nat) {
    && |AllSlots(info, s)| <= |AllSlots(info, t)|
    && forall i :: 0 <= i < |AllSlots(info, s)| && i != q ==> SlotKept(info, s, t, i)
  }

  ghost predicate SlotKept(info: BootSectorInfo, s: State, t: State, i: nat)
    requires i < |AllSlots(info, s)| <= |AllSlots(info, t)|
  {
    && AllSlots(info, t)[i] == AllSlots(info, s)[i]
    && SlotFile(info, t, AllSlots(info, s)[i]) == SlotFile(info, s, AllSlots(info, s)[i])
  }

  /** ... and so is the `q`-th. */
  ghost predicate AllKept(info: BootSectorInfo, s: State, t: State) {
    SlotsKept(info, s, t, |AllSlots(info, s)|)
  }

  ghost predicate FilesSame(info: BootSectorInfo, s: State, t: State) {
    forall n: Name :: FileAt(info, t, n) == FileAt(info, s, n)
  }

  /** Every name leads to the file it did, except that `name` now leads to `f`. */
  ghost predicate FilesUpdated(info: BootSectorInfo, s: State, t: State, name: Name, f: Option<File>) {
    && FileAt(info, t, name) == f
    && forall n: Name :: n != name ==> FileAt(info, t, n) == FileAt(info, s, n)
  }

  lemma SlotsKeptThrough(info: BootSectorInfo, s: State, m: State, t: State, q: nat)
    requires AllKept(info, s, m) && SlotsKept(info, m, t, q)
    ensures SlotsKept(info, s, t, q)
  {
    hide AllSlots, SlotFile;
    forall i | 0 <= i < |AllSlots(info, s)| && i != q ensures SlotKept(info, s, t, i) {
      assert SlotKept(info, s, m, i) && SlotKept(info, m, t, i);
    }
  }

  lemma AllKeptSame(info: BootSectorInfo, s: State)
    ensures AllKept(info, s, s) && FilesSame(info, s, s)
  {
    hide AllSlots, SlotFile, FileAt;
    forall i | 0 <= i < |AllSlots(info, s)| ensures SlotKept(info, s, s, i) {
    }
  }

  // ----- consequences of ownership

  lemma OwnedChain(info: BootSectorInfo, v: View, own: Own, h: nat)
    requires WellFormed(info, v) && Forest(Fat(v), own) && h in own
    ensures 2 <= h < info.Entries() && IsChain(Fat(v), h, own[h]) && Distinct(own[h]) && 0 < |own[h]| && own[h][0] == h
    ensures forall c :: c in own[h] ==> 2 <= c < info.Entries()
    ensures forall i :: 0 <= i < |own[h]| ==> 2 <= own[h][i] < info.Entries()
  {
    WellFormedFat(info, v);
    ChainDistinct(Fat(v), h, own[h]);
    forall i | 0 <= i < |own[h]| ensures 2 <= own[h][i] < info.Entries() {
      assert Follows(Fat(v), own[h], i);
    }
    assert own[h][0] == h;
  }

  lemma NoZeroHead(info: BootSectorInfo, v: View, own: Own)
    requires WellFormed(info, v) && Forest(Fat(v), own)
    ensures 0 !in own
  {
    if 0 in own { OwnedChain(info, v, own, 0); }
  }

  /** No owned chain contains a free cluster, or entry 0 or 1. */
  lemma NotOwned(info: BootSectorInfo, v: View, own: Own, c: nat)
    requires WellFormed(info, v) && Forest(Fat(v), own) && c < |Fat(v)| && (Fat(v)[c] == 0 || c < 2)
    ensures c !in own && forall h :: h in own ==> c !in own[h]
  {
    forall h | h in own ensures c !in own[h] {
      OwnedChain(info, v, own, h);
      if c in own[h] { ChainNotFree(Fat(v), h, own[h], c); }
    }
    if c in own { OwnedChain(info, v, own, c); }
  }

  /** The root directory's chain and slots. */
  lemma RootParts(info: BootSectorInfo, s: State)
    requires Sound(info, s)
    ensures var cs := Root(info, s);
      && IsChain(Fat(s.v), info.rootCluster, cs) && Distinct(cs) && Sized(s.v.clusters, info.sectorsPerCluster, cs) && 0 < |cs|
      && (forall i :: 0 <= i < |cs| ==> 2 <= cs[i] < info.Entries())
      && RootSlots(info, s) <= AllSlots(info, s)
      && |RootSlots(info, s)| == SlotIndex(info, |Walked(cs)|, 0, 0) && |AllSlots(info, s)| == SlotIndex(info, |cs|, 0, 0)
  {
    hide HeadsOwned, HangOk, Mirrored, IsChain;
    OwnedChain(info, s.v, s.own, info.rootCluster);
    DirPrefix(info, s.v, Root(info, s));
  }

  lemma DirPrefix(info: BootSectorInfo, v: View, cs: seq<nat>)
    requires Sized(v.clusters, info.sectorsPerCluster, cs)
    ensures DirSlots(v, Walked(cs)) <= DirSlots(v, cs)
    ensures |DirSlots(v, cs)| == SlotIndex(info, |cs|, 0, 0) && |DirSlots(v, Walked(cs))| == SlotIndex(info, |Walked(cs)|, 0, 0)
  {
    var n := |Walked(cs)|;
    assert cs == cs[..n] + cs[n..] && Walked(cs) == cs[..n];
    ChainSectorsAppend(v.clusters, cs[..n], cs[n..]);
    SlotsAppend(ChainSectors(v.clusters, cs[..n]), ChainSectors(v.clusters, cs[n..]));
    ChainSectorsLength(v.clusters, info.sectorsPerCluster, cs);
    ChainSectorsLength(v.clusters, info.sectorsPerCluster, cs[..n]);
  }

  // ----- frames

  lemma SameSectors(v: View, w: View, cs: seq<nat>)
    requires SameClusters(v, w, cs) && forall i :: 0 <= i < |cs| ==> cs[i] < |v.clusters|
    ensures ChainSectors(w.clusters, cs) == ChainSectors(v.clusters, cs) && DirSlots(w, cs) == DirSlots(v, cs)
  {
    ChainSectorsFrame(v.clusters, w.clusters, cs);
  }

  lemma SameFileBytes(info: BootSectorInfo, v: View, w: View, cs: seq<nat>)
    requires SameClusters(v, w, cs) && forall i :: 0 <= i < |cs| ==> cs[i] < |v.clusters|
    ensures FileBytes(info, w, cs) == FileBytes(info, v, cs)
  {
    hide FlatBytes, Slots;
    ReachedFrame(v.clusters, w.clusters, info.sectorsPerCluster, cs);
    var ds := Reached(v.clusters, info.sectorsPerCluster, cs);
    assert forall i :: 0 <= i < |ds| ==> ds[i] == cs[i];
    SameSectors(v, w, ds);
  }

  /** A slot whose chain and sectors did not change stands for the same file. */
  lemma SameFile(info: BootSectorInfo, s: State, t: State, e: Slot)
    requires 0 !in s.own && 0 !in t.own
    requires Head(e) != 0 ==>
      && Head(e) in s.own && Head(e) in t.own && t.own[Head(e)] == s.own[Head(e)] && SameClusters(s.v, t.v, s.own[Head(e)])
      && forall i :: 0 <= i < |s.own[Head(e)]| ==> s.own[Head(e)][i] < |s.v.clusters|
    ensures SlotFile(info, t, e) == SlotFile(info, s, e)
  {
    hide FileBytes, SameClusters;
    var g := Head(e);
    if g != 0 { SameFileBytes(info, s.v, t.v, s.own[g]); }
  }

  // ----- overwriting one directory slot

  /** Slot `j` of sector `x` of the `k`-th cluster of the directory chain `cs` overwritten. */
  ghost function WithSlot(v: View, cs: seq<nat>, k: nat, x: nat, j: nat, e: Slot): (w: View)
    requires k < |cs| && cs[k] < |v.clusters| && x < |v.clusters[cs[k]]| && j < SLOTS_PER_SECTOR
  {
    v.WithSector(cs[k], x, Splice(v.clusters[cs[k]][x], 32 * j, e))
  }

  lemma SlotOverwritten(info: BootSectorInfo, v: View, cs: seq<nat>, k: nat, x: nat, j: nat, e: Slot)
    requires Sized(v.clusters, info.sectorsPerCluster, cs) && Distinct(cs)
    requires k < |cs| && x < info.sectorsPerCluster && j < SLOTS_PER_SECTOR
    ensures var q := SlotIndex(info, k, x, j);
      && q < |DirSlots(v, cs)|
      && DirSlots(v, cs)[q] == SlotOf(v.clusters[cs[k]][x], j)
      && DirSlots(WithSlot(v, cs, k, x, j, e), cs) == DirSlots(v, cs)[q := e]
  {
    hide Slots, ChainSectors, Splice, SlotOf, Distinct, Blocks;
    var spc := info.sectorsPerCluster;
    var ss := ChainSectors(v.clusters, cs);
    var patched := Splice(v.clusters[cs[k]][x], 32 * j, e);
    ChainSectorsAt(v.clusters, spc, cs, k, x);
    SlotsAt(ss, Blocks(k, spc) + x, j);
    ChainSectorsUpdate(v.clusters, spc, cs, k, x, patched);
    SlotsUpdate(ss, Blocks(k, spc) + x, j, e);
  }

  lemma WithSlotParts(info: BootSectorInfo, u: View, cs: seq<nat>, k: nat, x: nat, j: nat, e: Slot)
    requires WellFormed(info, u) && Sized(u.clusters, info.sectorsPerCluster, cs)
    requires k < |cs| && x < info.sectorsPerCluster && j < SLOTS_PER_SECTOR
    ensures var w := WithSlot(u, cs, k, x, j, e);
      && WellFormed(info, w) && w == u.(clusters := w.clusters) && Fat(w) == Fat(u) && (Mirrored(u) ==> Mirrored(w))
      && Sized(w.clusters, info.sectorsPerCluster, cs)
      && forall c :: 0 <= c < |u.clusters| && c !in cs ==> w.clusters[c] == u.clusters[c]
  {
    hide Splice;
  }

  /** `x` heads no chain a slot names. */
  ghost predicate Spare(info: BootSectorInfo, s: State, x: nat) {
    forall i :: 0 <= i < |AllSlots(info, s)| && Head(AllSlots(info, s)[i]) != 0 ==> Head(AllSlots(info, s)[i]) != x
  }

  /** The FAT and data part of an operation on the slot whose head is `h`: afterwards the copies are equal, `own'`
      is a forest, and no chain but those of `h` and of `x` has changed, in its clusters or in their data. */
  ghost predicate Staged(info: BootSectorInfo, s: State, u: View, own': Own, h: nat, x: nat, touched: seq<nat>)
    requires Sound(info, s)
  {
    && WellFormed(info, u) && Mirrored(u) && Forest(Fat(u), own')
    && info.rootCluster in own' && own'[info.rootCluster] == s.own[info.rootCluster] && Disjoint(s.own[info.rootCluster], touched)
    && |u.clusters| == |s.v.clusters|
    && (forall c :: 0 <= c < |u.clusters| ==>
          |u.clusters[c]| == |s.v.clusters[c]| && (c !in touched ==> u.clusters[c] == s.v.clusters[c]))
    && (forall g :: g in s.own && g != h && g != x ==> g in own' && own'[g] == s.own[g] && Disjoint(s.own[g], touched))
  }

  /** The head of the rewritten slot keeps heads distinct and owned. */
  ghost predicate Headed(info: BootSectorInfo, s: State, own': Own, h: nat, g: nat) {
    g == 0 || (g in own' && g != info.rootCluster && (g == h || g !in s.own))
  }

  /** What hangs on entry 0 afterwards is what hung there or something new. */
  ghost predicate HangLater(info: BootSectorInfo, s: State, u: View, own': Own, g: nat) {
    && Fat(s.v) != [] && Fat(u) != []
    && var hang := Fat(u)[0];
    (|| IsEndOfChain(hang) || hang == 0
     || (hang in own' && hang != info.rootCluster && hang != g && (hang == Fat(s.v)[0] || hang !in s.own)))
  }

  lemma HeadsAfter(info: BootSectorInfo, s: State, u: View, own': Own, q: nat, e: Slot, x: nat, touched: seq<nat>)
    requires Sound(info, s) && q < |AllSlots(info, s)| && Spare(info, s, x)
    requires Staged(info, s, u, own', Head(AllSlots(info, s)[q]), x, touched)
    requires Headed(info, s, own', Head(AllSlots(info, s)[q]), Head(e))
    ensures var slots := AllSlots(info, s)[q := e];
      && HeadsOwned(slots, own', info.rootCluster)
      && (Anchored(info, s) && HangLater(info, s, u, own', Head(e)) ==> HangOk(Fat(u), own', slots, info.rootCluster))
  {
    hide Forest, Mirrored, WellFormed, Sized, AllSlots, Fat, Head;
    var before := AllSlots(info, s);
    forall i | 0 <= i < |before| && i != q && Head(before[i]) != 0
      ensures var g := Head(before[i]); g in own' && g in s.own && g != info.rootCluster && g != Head(before[q])
    {
      HeadElsewhere(info, s, q, i);
      assert Head(before[i]) != x;
    }
  }

  /** Another slot's head is owned, and is not this slot's. */
  lemma HeadElsewhere(info: BootSectorInfo, s: State, q: nat, i: nat)
    requires Sound(info, s) && q < |AllSlots(info, s)| && i < |AllSlots(info, s)| && i != q && Head(AllSlots(info, s)[i]) != 0
    ensures var g := Head(AllSlots(info, s)[i]);
      && g in s.own && 2 <= g < info.Entries() && g != info.rootCluster && g != Head(AllSlots(info, s)[q])
      && Disjoint(s.own[g], s.own[info.rootCluster])
      && forall j :: 0 <= j < |s.own[g]| ==> s.own[g][j] < info.Entries()
  {
    hide AllSlots, Fat, Mirrored, Sized, IsChain, Head;
    OwnedChain(info, s.v, s.own, Head(AllSlots(info, s)[i]));
  }

  /** Rewriting one slot after the FAT and data part of an operation: what holds of the FAT and the heads still
      does, and every other slot stands for the file it did. */
  lemma SlotWritten(info: BootSectorInfo, s: State, u: View, own': Own, k: nat, x: nat, j: nat, e: Slot, y: nat,
                    touched: seq<nat>)
    requires Sound(info, s) && Spare(info, s, y) && k < |Root(info, s)| && x < info.sectorsPerCluster && j < SLOTS_PER_SECTOR
    requires SlotIndex(info, k, x, j) < |AllSlots(info, s)|
    requires Staged(info, s, u, own', Head(AllSlots(info, s)[SlotIndex(info, k, x, j)]), y, touched)
    requires Headed(info, s, own', Head(AllSlots(info, s)[SlotIndex(info, k, x, j)]), Head(e))
    ensures Root(info, s)[k] < |u.clusters| && x < |u.clusters[Root(info, s)[k]]|
    ensures SlotOf(u.clusters[Root(info, s)[k]][x], j) == AllSlots(info, s)[SlotIndex(info, k, x, j)]
    ensures var t := State(WithSlot(u, Root(info, s), k, x, j, e), own');
      && Sound(info, t) && Root(info, t) == Root(info, s)
      && AllSlots(info, t) == AllSlots(info, s)[SlotIndex(info, k, x, j) := e]
      && SlotsKept(info, s, t, SlotIndex(info, k, x, j))
      && t.v == u.(clusters := t.v.clusters)
      && (Anchored(info, s) && HangLater(info, s, u, own', Head(e)) ==> Anchored(info, t))
      && forall c :: 0 <= c < |u.clusters| && c !in Root(info, s) ==> t.v.clusters[c] == u.clusters[c]
  {
    hide HeadsOwned, HangOk, Headed, HangLater, Spare, SlotFile, Slots, ChainSectors, Splice, IsChain, Forest, Mirrored, Fat, Head, WithSlot;
    var cs, q := Root(info, s), SlotIndex(info, k, x, j);
    RootParts(info, s);
    assert SameClusters(s.v, u, cs);
    SameSectors(s.v, u, cs);
    SlotOverwritten(info, u, cs, k, x, j, e);
    WithSlotParts(info, u, cs, k, x, j, e);
    HeadsAfter(info, s, u, own', q, e, y, touched);
    var t := State(WithSlot(u, cs, k, x, j, e), own');
    NoZeroHead(info, s.v, s.own);
    NoZeroHead(info, u, own');
    forall i | 0 <= i < |AllSlots(info, s)| && i != q ensures SlotKept(info, s, t, i) {
      SlotElsewhere(info, s, t, u, q, i, y, touched);
    }
  }

  lemma SlotElsewhere(info: BootSectorInfo, s: State, t: State, u: View, q: nat, i: nat, x: nat, touched: seq<nat>)
    requires Sound(info, s) && Spare(info, s, x) && q < |AllSlots(info, s)| && i < |AllSlots(info, s)| && i != q && 0 !in s.own && 0 !in t.own
    requires Staged(info, s, u, t.own, Head(AllSlots(info, s)[q]), x, touched) && |t.v.clusters| == |u.clusters|
    requires forall c :: 0 <= c < |u.clusters| && c !in Root(info, s) ==> t.v.clusters[c] == u.clusters[c]
    ensures SlotFile(info, t, AllSlots(info, s)[i]) == SlotFile(info, s, AllSlots(info, s)[i])
  {
    hide SlotFile, AllSlots, Forest, Mirrored, Fat, Head, Sized, HeadsOwned, HangOk;
    var g := Head(AllSlots(info, s)[i]);
    if g != 0 {
      HeadElsewhere(info, s, q, i);
      assert SameClusters(s.v, t.v, s.own[g]);
    }
    SameFile(info, s, t, AllSlots(info, s)[i]);
  }
}
