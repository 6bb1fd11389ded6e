/** The steps of the file operations on a sound volume: entering a new name, growing the directory, splicing new
    clusters onto a file, freeing a file. Each keeps the volume sound and every other slot's file. */
module FileSystemSteps {
  import opened Bytes
  import opened FatLayout
  import opened FatChains
  import opened Volume
  import opened FatDirectory
  import opened DirectoryMap
  import opened FatAllocator
  import opened FatChainGrowth
  import opened FatDirectoryGrowth
  import opened FileSystem

  // ----- forests

  lemma ForestFrame(fat: seq<nat>, fat': seq<nat>, own: Own, own': Own)
    requires Forest(fat, own) && |fat'| == |fat|
    requires forall h :: h in own' ==> h in own && own'[h] == own[h]
    requires forall h, c :: h in own' && c in own'[h] && c < |fat| ==> fat'[c] == fat[c]
    ensures Forest(fat', own')
  {
    hide IsChain;
    forall h | h in own' ensures IsChain(fat', h, own'[h]) {
      ChainFrame(fat, fat', h, own'[h]);
    }
  }

  lemma SameCopies(v: View, w: View)
    requires w.fats == v.fats
    ensures Fat(w) == Fat(v) && (Mirrored(v) ==> Mirrored(w))
  {
  }

  /** What hangs on entry 0 stays out of the way of an operation that leaves entry 0 alone. */
  lemma HangKept(info: BootSectorInfo, s: State, u: View, own': Own, g: nat)
    requires Anchored(info, s) && |Fat(u)| == |Fat(s.v)| && Fat(u)[0] == Fat(s.v)[0]
    requires Fat(s.v)[0] in s.own ==> Fat(s.v)[0] in own' && Fat(s.v)[0] != g
    ensures HangLater(info, s, u, own', g)
  {
    hide AllSlots, Fat;
  }

  // ----- entering a name

  /** The clusters after the data sector of `c` was written and `c` marked as the end of its own chain. */
  ghost function EnteredView(info: BootSectorInfo, v: View, c: nat, data: Sector): (u: View)
    requires WellFormed(info, v) && c < info.Entries()
  {
    WriteEntry(info, WithFirst(v, c, data), c, EOC)
  }

  lemma EnterStaged(info: BootSectorInfo, s: State, c: nat, data: Sector)
    requires Sound(info, s) && 2 <= c < info.Entries() && Fat(s.v)[c] == 0
    ensures var u, own' := EnteredView(info, s.v, c, data), s.own[c := [c]];
      && Staged(info, s, u, own', 0, 0, [c]) && Headed(info, s, own', 0, 0) && Headed(info, s, own', 0, c)
      && (Anchored(info, s) ==> HangLater(info, s, u, own', 0) && HangLater(info, s, u, own', c))
      && u.clusters == WithFirst(s.v, c, data).clusters && Fat(u) == Fat(s.v)[c := EOC]
    ensures c !in s.own && forall h :: h in s.own ==> c !in s.own[h]
  {
    hide HeadsOwned, AllSlots, Fat, Sized, HangOk, Mirrored, WriteEntry, HangLater, Anchored, WithFirst;
    var v0, own' := WithFirst(s.v, c, data), s.own[c := [c]];
    var u := WriteEntry(info, v0, c, EOC);
    SameCopies(s.v, v0);
    WriteEntryFat(info, v0, c, EOC);
    NotOwned(info, s.v, s.own, c);
    NoZeroHead(info, s.v, s.own);
    ForestAdd(Fat(s.v), Fat(s.v)[c := EOC], s.own, [c]);
    if Anchored(info, s) {
      HangKept(info, s, u, own', 0);
      HangKept(info, s, u, own', c);
    }
  }

  /** What of `content` a file in cluster `c` holds: all of it where the disk has the cluster's first sector, and
      nothing otherwise. */
  function Stored(v: View, c: nat, content: seq<Byte>): (bytes: seq<Byte>) {
    if c < |v.clusters| && 0 < |v.clusters[c]| then content else []
  }

  lemma OneClusterBytes(info: BootSectorInfo, v: View, c: nat, content: seq<Byte>)
    requires c < |v.clusters| && |content| <= 512 && (0 < |v.clusters[c]| ==> v.clusters[c][0] == Chunk(content, 0))
    ensures Prefix(FileBytes(info, v, [c]), |content|) == Stored(v, c, content)
  {
    assert [c][..0] == [] && [c][1..] == [];
    assert Reached(v.clusters, info.sectorsPerCluster, [c]) == [c];
    assert ChainSectors(v.clusters, [c]) == v.clusters[c];
    if 0 < |v.clusters[c]| {
      assert FlatBytes(v.clusters[c])[..|content|] == content;
    }
  }

  /** `t` is `m` with a new file entered in slot `q`, its data in the free cluster `c`. */
  ghost predicate Entered(info: BootSectorInfo, m: State, t: State, q: nat, name: Name, c: nat, content: seq<Byte>) {
    && q < |AllSlots(info, m)| && c < |Fat(m.v)| && c < U32_LIMIT && |content| < U32_LIMIT
    && AllSlots(info, t) == AllSlots(info, m)[q := NewEntry(name, c, |content|)] && Root(info, t) == Root(info, m)
    && c !in m.own && t.own == m.own[c := [c]] && Fat(t.v) == Fat(m.v)[c := EOC]
    && SlotsKept(info, m, t, q)
    && SlotFile(info, t, NewEntry(name, c, |content|)) == if Visible(name) then Some(File(false, Stored(m.v, c, content))) else None
  }

  lemma EnteredFile(info: BootSectorInfo, v: View, t: State, name: Name, c: nat, content: seq<Byte>)
    requires |content| <= 512 && c < |v.clusters| == |t.v.clusters| && c < U32_LIMIT && c in t.own && t.own[c] == [c]
    requires t.v.clusters[c] == WithFirst(v, c, Chunk(content, 0)).clusters[c]
    ensures SlotFile(info, t, NewEntry(name, c, |content|)) == if Visible(name) then Some(File(false, Stored(v, c, content))) else None
  {
    hide FileBytes, Chunk, NewEntry, ParseShortDirEntry;
    NewEntryParses(name, c, |content|);
    OneClusterBytes(info, t.v, c, content);
  }

  /** Entering a name into an unused slot keeps the volume sound, whatever the name: new, taken or invisible. */
  lemma EnterKeeps(info: BootSectorInfo, s: State, k: nat, x: nat, j: nat, name: Name, c: nat, content: seq<Byte>)
    requires Sound(info, s) && 2 <= c < info.Entries() && Fat(s.v)[c] == 0 && |content| <= 512
    requires k < |Root(info, s)| && x < info.sectorsPerCluster && j < SLOTS_PER_SECTOR && SlotIndex(info, k, x, j) < |AllSlots(info, s)|
    requires Reusable(AllSlots(info, s)[SlotIndex(info, k, x, j)])
    ensures var u, cs := EnteredView(info, s.v, c, Chunk(content, 0)), Root(info, s);
      && cs[k] < |u.clusters| && x < |u.clusters[cs[k]]| && c < U32_LIMIT
      && var t := State(WithSlot(u, cs, k, x, j, NewEntry(name, c, |content|)), s.own[c := [c]]);
      && Sound(info, t) && Entered(info, s, t, SlotIndex(info, k, x, j), name, c, content)
      && (Anchored(info, s) ==> Anchored(info, t))
  {
    hide Fat, NewEntry, EnteredView, Staged, Headed, HangLater, Anchored, AllSlots, SlotsKept, SlotFile, WithFirst, Chunk, WithSlot, Sound;
    var q, cs, e := SlotIndex(info, k, x, j), Root(info, s), NewEntry(name, c, |content|);
    var u := EnteredView(info, s.v, c, Chunk(content, 0));
    NewEntryParses(name, c, |content|);
    EnterStaged(info, s, c, Chunk(content, 0));
    RootUnowned(info, s, c);
    SlotWritten(info, s, u, s.own[c := [c]], k, x, j, e, 0, [c]);
    var t := State(WithSlot(u, cs, k, x, j, e), s.own[c := [c]]);
    EnteredFile(info, s.v, t, name, c, content);
    SameCopies(u, t.v);
  }

  lemma RootUnowned(info: BootSectorInfo, s: State, c: nat)
    requires Sound(info, s) && forall h :: h in s.own ==> c !in s.own[h]
    ensures c !in Root(info, s)
  {
  }

  // ----- growing the directory

  lemma ZeroSlots(n: nat)
    ensures |Slots(Zeros(n))| == SLOTS_PER_SECTOR * n
    ensures forall i :: 0 <= i < |Slots(Zeros(n))| ==> Slots(Zeros(n))[i][0] == 0 && Head(Slots(Zeros(n))[i]) == 0
  {
  }

  lemma RewrittenMirrored(info: BootSectorInfo, v: View, w: View, cs: seq<nat>, vals: seq<nat>, taken: nat, given: nat)
    requires WellFormed(info, v) && Rewritten(info, v, w, cs, vals, taken, given) && Mirrored(v)
    ensures Mirrored(w)
  {
    forall k | 0 <= k < |w.fats| ensures w.fats[k] == w.fats[0] {
      assert Patching(v.fats[k], w.fats[k], cs, vals) && Patching(v.fats[0], w.fats[0], cs, vals);
      forall c | 0 <= c < |v.fats[0]| ensures w.fats[k][c] == w.fats[0][c] {
        if c in cs {
          var j :| 0 <= j < |cs| && cs[j] == c;
        }
      }
    }
  }

  lemma DirGrownParts(info: BootSectorInfo, v: View, w: View, cs: seq<nat>, n: nat)
    requires WellFormed(info, v) && Mirrored(v) && IsChain(Fat(v), info.rootCluster, cs) && IsFirstFree(Fat(v), n)
    requires 2 <= n < info.Entries() && DirGrown(info, v, w, Last(cs), n)
    ensures WellFormed(info, w) && Mirrored(w) && n !in cs
    ensures Last(cs) < |Fat(v)| && Fat(w) == Fat(v)[n := EOC][Last(cs) := n]
    ensures w.clusters == v.clusters[n := Zeros(info.sectorsPerCluster)] && |v.clusters[n]| == info.sectorsPerCluster
  {
    var v' := WithZeroed(v, n);
    FreeNotInChain(Fat(v), info.rootCluster, cs, n);
    RewrittenMirrored(info, v', w, [n, Last(cs)], [EOC, n], 1, 0);
    RewrittenFat(info, v', w, [n, Last(cs)], [EOC, n], 1, 0);
    var pair := [n, Last(cs)];
    assert Fat(w)[pair[0]] == EOC % MASK28 && Fat(w)[pair[1]] == n % MASK28;
    assert Fat(w) == Fat(v)[n := EOC][Last(cs) := n];
  }

  lemma GrownForest(fat: seq<nat>, own: Own, root: nat, n: nat)
    requires Small(fat) && Forest(fat, own) && root in own && IsFirstFree(fat, n)
    ensures Last(own[root]) < |fat| && n !in own
    ensures Forest(fat[n := EOC][Last(own[root]) := n], own[root := own[root] + [n]])
    ensures forall h :: h in own ==> n !in own[h]
  {
    var cs := own[root];
    ForestAdd(fat, fat[n := EOC], own, [n]);
    assert n in [n];
    ForestSplice(fat[n := EOC], own[n := [n]], root, |cs|, n);
    assert cs[..|cs|] == cs;
    assert (own[n := [n]] - {n})[root := cs + [n]] == own[root := cs + [n]];
  }

  lemma GrownSlots(info: BootSectorInfo, v: View, w: View, cs: seq<nat>, n: nat)
    requires Sized(v.clusters, info.sectorsPerCluster, cs) && n !in cs && n < |v.clusters|
    requires w.clusters == v.clusters[n := Zeros(info.sectorsPerCluster)]
    ensures DirSlots(w, cs + [n]) == DirSlots(v, cs) + Slots(Zeros(info.sectorsPerCluster)) && DirSlots(w, cs) == DirSlots(v, cs)
  {
    hide Zeros;
    SameSectors(v, w, cs);
    ChainSectorsAppend(w.clusters, cs, [n]);
    assert [n][..0] == [];
    assert ChainSectors(w.clusters, [n]) == Zeros(info.sectorsPerCluster);
    SlotsAppend(ChainSectors(v.clusters, cs), Zeros(info.sectorsPerCluster));
  }

  /** The directory with one more cluster of unused slots. */
  ghost predicate DirLonger(info: BootSectorInfo, s: State, m: State, n: nat) {
    && info.rootCluster in s.own && m.own == s.own[info.rootCluster := Root(info, s) + [n]]
    && AllSlots(info, m) == AllSlots(info, s) + Slots(Zeros(info.sectorsPerCluster)) && AllKept(info, s, m)
  }

  /** Growing the directory keeps the volume sound, appends unused slots and changes no file. */
  lemma DirGrowthKeeps(info: BootSectorInfo, s: State, w: View, n: nat)
    requires Sound(info, s) && 0 < |Root(info, s)| && IsFirstFree(Fat(s.v), n) && 2 <= n < info.Entries()
    requires DirGrown(info, s.v, w, Last(Root(info, s)), n)
    ensures var m := State(w, s.own[info.rootCluster := Root(info, s) + [n]]);
      && Sound(info, m) && DirLonger(info, s, m, n) && Root(info, m) == Root(info, s) + [n]
      && (Anchored(info, s) ==> Anchored(info, m))
      && Last(Root(info, s)) < |Fat(s.v)| && Fat(w) == Fat(s.v)[n := EOC][Last(Root(info, s)) := n]
      && forall c :: 0 <= c < info.Entries() && c != n ==> w.clusters[c] == s.v.clusters[c]
  {
    hide Slots, ChainSectors, SlotFile, Fat, Mirrored, DirGrown, Forest, Head, Zeros, IsFirstFree, IsChain, HeadsOwned, HangOk;
    var root, cs := info.rootCluster, Root(info, s);
    var m, zeros := State(w, s.own[root := cs + [n]]), Slots(Zeros(info.sectorsPerCluster));
    RootParts(info, s);
    DirGrownParts(info, s.v, w, cs, n);
    GrownForest(Fat(s.v), s.own, root, n);
    GrownSlots(info, s.v, w, cs, n);
    ZeroSlots(info.sectorsPerCluster);
    GrownHeads(info, s, Fat(w), m.own, zeros);
    NoZeroHead(info, s.v, s.own);
    NoZeroHead(info, w, m.own);
    forall i | 0 <= i < |AllSlots(info, s)| ensures SlotKept(info, s, m, i) {
      HeadOwned(info, s, i);
      SameFile(info, s, m, AllSlots(info, s)[i]);
    }
  }

  lemma HeadOwned(info: BootSectorInfo, s: State, i: nat)
    requires Sound(info, s) && i < |AllSlots(info, s)|
    ensures var g := Head(AllSlots(info, s)[i]);
      g != 0 ==> g in s.own && g != info.rootCluster && forall j :: 0 <= j < |s.own[g]| ==> s.own[g][j] < info.Entries()
  {
    hide AllSlots, Fat, Mirrored, Sized, IsChain, Head;
    var g := Head(AllSlots(info, s)[i]);
    if g != 0 { OwnedChain(info, s.v, s.own, g); }
  }

  lemma GrownHeads(info: BootSectorInfo, s: State, fat': seq<nat>, own': Own, zeros: seq<Slot>)
    requires Sound(info, s) && own'.Keys == s.own.Keys && |fat'| == |Fat(s.v)| && fat'[0] == Fat(s.v)[0]
    requires forall i :: 0 <= i < |zeros| ==> Head(zeros[i]) == 0
    ensures HeadsOwned(AllSlots(info, s) + zeros, own', info.rootCluster)
    ensures Anchored(info, s) ==> HangOk(fat', own', AllSlots(info, s) + zeros, info.rootCluster)
  {
    hide AllSlots, Fat, Mirrored, Sized, Forest, Head, WellFormed;
    var slots := AllSlots(info, s);
    forall i | 0 <= i < |slots + zeros| ensures Head((slots + zeros)[i]) == if i < |slots| then Head(slots[i]) else 0 {
    }
  }

  lemma DirStuckParts(info: BootSectorInfo, v: View, w: View, n: nat)
    requires WellFormed(info, v) && Mirrored(v) && 2 <= n < info.Entries() && DirStuck(info, v, w, n)
    ensures WellFormed(info, w) && Mirrored(w) && |Fat(w)| == |Fat(v)| == info.Entries() && Fat(w) == Fat(v)[n := EOC]
    ensures |w.clusters| == |v.clusters| && forall c :: 0 <= c < |v.clusters| ==> |w.clusters[c]| == |v.clusters[c]|
    ensures forall c :: 0 <= c < |v.clusters| && c != n ==> w.clusters[c] == v.clusters[c]
  {
    var v' := WithZeroed(v, n);
    RewrittenMirrored(info, v', w, [n], [EOC], 1, 0);
    RewrittenFat(info, v', w, [n], [EOC], 1, 0);
    var one := [n];
    assert Fat(w)[one[0]] == EOC % MASK28;
    assert Fat(w) == Fat(v)[n := EOC];
  }

  /** A cluster reserved and never linked changes no chain and no file. */
  lemma DirStuckKeeps(info: BootSectorInfo, s: State, w: View, n: nat)
    requires Sound(info, s) && 2 <= n < info.Entries() && Fat(s.v)[n] == 0 && DirStuck(info, s.v, w, n)
    ensures var t := State(w, s.own);
      && Sound(info, t) && Root(info, t) == Root(info, s) && AllSlots(info, t) == AllSlots(info, s) && AllKept(info, s, t)
      && (Anchored(info, s) ==> Anchored(info, t))
  {
    hide Slots, ChainSectors, SlotFile, Fat, Mirrored, DirStuck, Forest, Head, HeadsOwned;
    var t, cs := State(w, s.own), Root(info, s);
    DirStuckParts(info, s.v, w, n);
    NotOwned(info, s.v, s.own, n);
    ForestFrame(Fat(s.v), Fat(w), s.own, s.own);
    RootParts(info, s);
    SameSectors(s.v, w, cs);
    NoZeroHead(info, s.v, s.own);
    forall i | 0 <= i < |AllSlots(info, s)| ensures SlotKept(info, s, t, i) {
      HeadOwned(info, s, i);
      SameFile(info, s, t, AllSlots(info, s)[i]);
    }
  }

  /** A volume with the same FATs and data is as sound, and its slots stand for the same files. */
  lemma SameVolume(info: BootSectorInfo, s: State, w: View)
    requires Sound(info, s) && WellFormed(info, w) && w.fats == s.v.fats && w.clusters == s.v.clusters
    ensures var t := State(w, s.own);
      && Sound(info, t) && Root(info, t) == Root(info, s) && AllSlots(info, t) == AllSlots(info, s) && AllKept(info, s, t)
      && (Anchored(info, s) ==> Anchored(info, t))
  {
    hide Slots, ChainSectors, Forest, Head, HeadsOwned, Mirrored, Fat;
    SameCopies(s.v, w);
    forall i | 0 <= i < |AllSlots(info, s)| ensures SlotKept(info, s, State(w, s.own), i) {
    }
  }

  // ----- splicing new clusters onto a chain

  /** The chain that hangs on entry 0, entry 0 included. */
  ghost function ZeroWalk(s: State): (cs: seq<nat>)
    ensures 0 < |cs| && cs[0] == 0
  {
    if Fat(s.v) != [] && Fat(s.v)[0] in s.own then [0] + s.own[Fat(s.v)[0]] else [0]
  }

  /** The clusters a walk from a slot whose head is `h` goes through. */
  ghost function WalkFrom(s: State, h: nat): (cs: seq<nat>) {
    if h == 0 then ZeroWalk(s) else if h in s.own then s.own[h] else []
  }

  /** How many of them a walk to the last one gets to. */
  ghost function WalkSteps(s: State, h: nat): (m: nat)
    ensures m <= |WalkFrom(s, h)|
  {
    Min(|WalkFrom(s, h)|, WALK_CAP + 1)
  }

  /** Who owns what after `ns` was appended behind the part of the chain that was walked. */
  ghost function GrownOwn(s: State, h: nat, ns: seq<nat>): (own': Own)
    requires 0 < |ns|
  {
    var walk := WalkFrom(s, h)[..WalkSteps(s, h)];
    if h != 0 then s.own[h := walk + ns]
    else if 1 < |walk| then s.own[walk[1] := walk[1..] + ns]
    else s.own[ns[0] := ns]
  }

  lemma LinkedByValues(fat: seq<nat>, fat': seq<nat>, ns: seq<nat>)
    requires |fat'| == |fat| <= MAX_ENTRIES
    requires forall j {:trigger LinkValues(ns)[j]} ::
      0 <= j < |ns| ==> ns[j] < |fat| && fat'[ns[j]] == LinkValues(ns)[j] % MASK28
    requires forall c :: 0 <= c < |fat| && c !in ns ==> fat'[c] == fat[c]
    ensures Linked(fat, fat', ns)
  {
    forall i | 0 <= i < |ns| ensures PointsOn(fat', ns, i) {
      assert LinkValues(ns)[i] == LinkOf(ns, i);
      if i + 1 < |ns| {
        var next := LinkValues(ns)[i + 1];
      }
    }
  }

  lemma LinkedFromRewritten(info: BootSectorInfo, v: View, w: View, ns: seq<nat>)
    requires WellFormed(info, v) && Rewritten(info, v, w, ns, LinkValues(ns), |ns|, 0)
    ensures Linked(Fat(v), Fat(w), ns) && WellFormed(info, w) && w.clusters == v.clusters
  {
    hide Fat, LinkValues, WellFormed, Linked, Patching;
    RewrittenFat(info, v, w, ns, LinkValues(ns), |ns|, 0);
    WellFormedFat(info, v);
    LinkedByValues(Fat(v), Fat(w), ns);
  }

  /** What appending did to the FAT and the data. */
  lemma AppendedParts(info: BootSectorInfo, s: State, v1: View, u: View, last: nat, ns: seq<nat>, data: seq<Byte>)
    requires Sound(info, s) && SmallestFree(Fat(s.v), ns) && Appended(info, s.v, v1, u, last, ns, data)
    ensures WellFormed(info, u) && Mirrored(u) && last < |Fat(v1)| == |Fat(s.v)| && ns[0] < MASK28
    ensures Linked(Fat(s.v), Fat(v1), ns) && Fat(u) == Fat(v1)[last := ns[0]]
    ensures Forest(Fat(v1), s.own[ns[0] := ns]) && ns[0] !in s.own
    ensures forall g :: g in s.own ==> Disjoint(s.own[g], ns) && Disjoint(ns, s.own[g])
    ensures u.clusters == WithChunks(s.v, ns, data, |ns|).clusters && forall i :: 0 <= i < |ns| ==> 2 <= ns[i] < info.Entries()
  {
    hide HeadsOwned, HangOk, AllSlots, Fat, Sized, Mirrored, SmallestFree, LinkValues, Rewritten, WriteEntry, Linked, Forest, WithChunks;
    var v2 := WithChunks(v1, ns, data, |ns|);
    LinkedFromRewritten(info, s.v, v1, ns);
    RewrittenMirrored(info, s.v, v1, ns, LinkValues(ns), |ns|, 0);
    AscendingBounded(Fat(s.v), ns);
    ForestAdd(Fat(s.v), Fat(v1), s.own, ns);
    SameCopies(v1, v2);
    WellFormedFat(info, v1);
    WriteEntryFat(info, v2, last, ns[0]);
    SameChunks(s.v, v1, ns, data, |ns|);
  }

  lemma ChunksTouch(v: View, ns: seq<nat>, data: seq<Byte>)
    ensures var w := WithChunks(v, ns, data, |ns|);
      && |w.clusters| == |v.clusters|
      && forall c :: 0 <= c < |v.clusters| ==> |w.clusters[c]| == |v.clusters[c]| && (c !in ns ==> w.clusters[c] == v.clusters[c])
  {
    hide WithChunks;
    assert ns[..|ns|] == ns;
  }

  /** Splicing onto the first `m` clusters of an owned chain that no other slot names. */
  lemma SpliceStaged(info: BootSectorInfo, s: State, v1: View, u: View, h: nat, m: nat, ns: seq<nat>, data: seq<Byte>)
    requires Sound(info, s) && SmallestFree(Fat(s.v), ns) && h in s.own && h != info.rootCluster && 0 < m <= |s.own[h]|
    requires Appended(info, s.v, v1, u, s.own[h][m - 1], ns, data)
    ensures var own' := s.own[h := s.own[h][..m] + ns];
      && Staged(info, s, u, own', 0, h, ns) && Staged(info, s, u, own', h, 0, ns)
      && |Fat(u)| == |Fat(s.v)| && Fat(u)[0] == Fat(s.v)[0]
  {
    hide HeadsOwned, HangOk, AllSlots, Fat, Sized, Mirrored, SmallestFree, LinkValues, Rewritten, WriteEntry, WithChunks, IsChain;
    AppendedParts(info, s, v1, u, s.own[h][m - 1], ns, data);
    ChunksTouch(s.v, ns, data);
    OwnedChain(info, s.v, s.own, h);
    WellFormedFat(info, v1);
    ForestSplice(Fat(v1), s.own[ns[0] := ns], h, m, ns[0]);
    assert (s.own[ns[0] := ns] - {ns[0]})[h := s.own[h][..m] + ns] == s.own[h := s.own[h][..m] + ns];
    EntryZeroApart(Fat(s.v), Fat(v1), ns);
  }

  lemma EntryZeroApart(fat: seq<nat>, fat': seq<nat>, ns: seq<nat>)
    requires Linked(fat, fat', ns) && 0 < |fat| && forall i :: 0 <= i < |ns| ==> 2 <= ns[i]
    ensures fat'[0] == fat[0]
  {
  }

  /** Hanging a chain on entry 0, where none hung. */
  lemma HangStaged(info: BootSectorInfo, s: State, v1: View, u: View, ns: seq<nat>, data: seq<Byte>)
    requires Sound(info, s) && SmallestFree(Fat(s.v), ns) && Appended(info, s.v, v1, u, 0, ns, data)
    ensures var own' := s.own[ns[0] := ns];
      && Staged(info, s, u, own', 0, Fat(s.v)[0], ns)
      && Fat(u) != [] && Fat(u)[0] == ns[0] != 0 && ns[0] !in s.own && ns[0] != info.rootCluster
  {
    hide HeadsOwned, HangOk, AllSlots, Fat, Sized, Mirrored, SmallestFree, LinkValues, Rewritten, WriteEntry, WithChunks, IsChain;
    var own' := s.own[ns[0] := ns];
    AppendedParts(info, s, v1, u, 0, ns, data);
    ChunksTouch(s.v, ns, data);
    WellFormedFat(info, v1);
    forall h, c | h in own' && c in own'[h] && c < |Fat(v1)| ensures Fat(u)[c] == Fat(v1)[c] {
      OwnedChain(info, v1, own', h);
    }
    ForestFrame(Fat(v1), Fat(u), own', own');
  }

  /** What besides its own chain an operation on a slot with head `h` may touch: where the slot names no cluster,
      what hangs on entry 0. */
  ghost function Aside(s: State, h: nat): (x: nat) {
    if h == 0 && Fat(s.v) != [] then Fat(s.v)[0] else 0
  }

  lemma AsideSpare(info: BootSectorInfo, s: State, h: nat)
    requires Sound(info, s) && (h != 0 || Anchored(info, s))
    ensures Spare(info, s, Aside(s, h))
  {
    hide AllSlots, Mirrored, Sized, Head, Fat;
    forall i | 0 <= i < |AllSlots(info, s)| && Head(AllSlots(info, s)[i]) != 0 ensures Head(AllSlots(info, s)[i]) != Aside(s, h) {
      OwnedChain(info, s.v, s.own, Head(AllSlots(info, s)[i]));
    }
  }

  /** Appending clusters behind whatever a walk from the slot's head came to keeps every chain another slot names;
      where the slot names no cluster, if entry 0 leads nowhere it should not. */
  lemma GrowStaged(info: BootSectorInfo, s: State, v1: View, u: View, q: nat, ns: seq<nat>, data: seq<Byte>)
    requires Sound(info, s) && SmallestFree(Fat(s.v), ns) && q < |AllSlots(info, s)|
    requires var h := Head(AllSlots(info, s)[q]);
      && (h != 0 || Anchored(info, s))
      && 0 < WalkSteps(s, h) && Appended(info, s.v, v1, u, WalkFrom(s, h)[WalkSteps(s, h) - 1], ns, data)
    ensures var h := Head(AllSlots(info, s)[q]);
      && Staged(info, s, u, GrownOwn(s, h, ns), h, Aside(s, h), ns) && Headed(info, s, GrownOwn(s, h, ns), h, h)
      && (Anchored(info, s) ==> HangLater(info, s, u, GrownOwn(s, h, ns), h))
  {
    hide HeadsOwned, AllSlots, Sized, Mirrored, SmallestFree, Appended, Staged, HangLater, Anchored, IsChain, Head, Fat, Forest, WellFormed, GrownOwn,
      WalkSteps, ZeroWalk;
    var h := Head(AllSlots(info, s)[q]);
    var m, hang := WalkSteps(s, h), Fat(s.v)[0];
    SlotHead(info, s, q);
    HangHead(info, s);
    AppendedSome(info, s.v, v1, u, WalkFrom(s, h)[m - 1], ns, data);
    GrownOwnIs(s, h, ns);
    if h != 0 {
      SpliceStaged(info, s, v1, u, h, m, ns, data);
      if Anchored(info, s) { HangKept(info, s, u, GrownOwn(s, h, ns), h); }
    } else if hang in s.own {
      SpliceStaged(info, s, v1, u, hang, m - 1, ns, data);
      NoZeroHead(info, s.v, s.own);
      HangKept(info, s, u, GrownOwn(s, h, ns), 0);
    } else {
      HangStaged(info, s, v1, u, ns, data);
      NewHang(info, s, u, GrownOwn(s, h, ns));
    }
  }

  lemma NewHang(info: BootSectorInfo, s: State, u: View, own': Own)
    requires Sound(info, s) && Fat(u) != [] && Fat(u)[0] in own' && Fat(u)[0] !in s.own && Fat(u)[0] != 0
    requires Fat(u)[0] != info.rootCluster
    ensures HangLater(info, s, u, own', 0)
  {
    hide Fat, Sound;
  }

  /** Who owns what after an append, case by case. */
  lemma GrownOwnIs(s: State, h: nat, ns: seq<nat>)
    requires 0 < |ns| && Fat(s.v) != [] && (h != 0 ==> h in s.own && 0 < |s.own[h]|)
    requires var hang := Fat(s.v)[0]; hang in s.own ==> 0 < |s.own[hang]| && s.own[hang][0] == hang
    ensures var m, hang := WalkSteps(s, h), Fat(s.v)[0];
      && 0 < m <= |WalkFrom(s, h)|
      && (h != 0 ==> GrownOwn(s, h, ns) == s.own[h := s.own[h][..m] + ns] && WalkFrom(s, h) == s.own[h])
      && (h == 0 && hang in s.own ==>
            && 2 <= m <= |s.own[hang]| + 1 && WalkFrom(s, h)[m - 1] == s.own[hang][m - 2]
            && GrownOwn(s, h, ns) == s.own[hang := s.own[hang][..m - 1] + ns])
      && (h == 0 && hang !in s.own ==> m == 1 && WalkFrom(s, h)[0] == 0 && GrownOwn(s, h, ns) == s.own[ns[0] := ns])
  {
    hide Fat;
    var m, hang := WalkSteps(s, h), Fat(s.v)[0];
    if h == 0 && hang in s.own {
      assert ZeroWalk(s)[..m][1..] == s.own[hang][..m - 1] && ZeroWalk(s)[..m][1] == s.own[hang][0];
    }
  }

  lemma AppendedSome(info: BootSectorInfo, v: View, v1: View, u: View, last: nat, ns: seq<nat>, data: seq<Byte>)
    requires WellFormed(info, v) && Appended(info, v, v1, u, last, ns, data)
    ensures 0 < |ns| && WellFormed(info, u)
  {
  }

  lemma SlotHead(info: BootSectorInfo, s: State, q: nat)
    requires Sound(info, s) && q < |AllSlots(info, s)|
    ensures var h := Head(AllSlots(info, s)[q]);
      h == 0 || (h in s.own && h != info.rootCluster && 0 < |s.own[h]| && (Anchored(info, s) ==> h != Fat(s.v)[0]))
  {
    hide AllSlots, Mirrored, Sized, Head, Fat, IsChain;
    if Head(AllSlots(info, s)[q]) != 0 { OwnedChain(info, s.v, s.own, Head(AllSlots(info, s)[q])); }
  }

  lemma HangHead(info: BootSectorInfo, s: State)
    requires Sound(info, s)
    ensures var hang := Fat(s.v)[0];
      && (hang in s.own ==> 0 < |s.own[hang]| && s.own[hang][0] == hang)
      && (hang in s.own && Anchored(info, s) ==> hang != info.rootCluster)
  {
    hide AllSlots, Mirrored, Sized, Head, Fat, IsChain, HeadsOwned;
    NoZeroHead(info, s.v, s.own);
    if Fat(s.v)[0] in s.own { OwnedChain(info, s.v, s.own, Fat(s.v)[0]); }
  }

  // ----- freeing a chain

  /** Who owns what after the walked part of a slot's chain was freed. */
  ghost function FreedOwn(s: State, h: nat): (own': Own) {
    if h != 0 then s.own - {h} else if Fat(s.v) != [] then s.own - {Fat(s.v)[0]} else s.own
  }

  /** Freeing what a walk from the slot's head goes through keeps every chain another slot names; where the slot
      names no cluster, if entry 0 leads nowhere it should not. */
  lemma FreeStaged(info: BootSectorInfo, s: State, u: View, q: nat)
    requires Sound(info, s) && q < |AllSlots(info, s)| && (Head(AllSlots(info, s)[q]) != 0 || Anchored(info, s))
    requires WellFormed(info, u) && Mirrored(u) && u.clusters == s.v.clusters
    requires Freed(Fat(s.v), Fat(u), Walked(WalkFrom(s, Head(AllSlots(info, s)[q]))))
    ensures var h := Head(AllSlots(info, s)[q]);
      && Staged(info, s, u, FreedOwn(s, h), h, Aside(s, h), [])
      && (Anchored(info, s) ==> HangLater(info, s, u, FreedOwn(s, h), 0))
  {
    hide HeadsOwned, AllSlots, Sized, Mirrored, IsChain, Head, Fat, HangOk, Anchored, HangLater;
    var h := Head(AllSlots(info, s)[q]);
    var own' := FreedOwn(s, h);
    NoZeroHead(info, s.v, s.own);
    SlotHead(info, s, q);
    HangHead(info, s);
    forall g, c | g in own' && c in own'[g] && c < |Fat(s.v)| ensures Fat(u)[c] == Fat(s.v)[c] {
      FreedElsewhere(info, s, h, g, c);
    }
    ForestFrame(Fat(s.v), Fat(u), s.own, own');
    if Anchored(info, s) { FreedHang(info, s, u, h); }
  }

  lemma FreedElsewhere(info: BootSectorInfo, s: State, h: nat, g: nat, c: nat)
    requires Sound(info, s) && g in FreedOwn(s, h) && c in s.own[g]
    ensures c !in WalkFrom(s, h)
  {
    hide HeadsOwned, AllSlots, Sized, Mirrored, IsChain, Fat;
    var x := if h != 0 then h else Fat(s.v)[0];
    OwnedChain(info, s.v, s.own, g);
    if x in s.own { assert Disjoint(s.own[g], s.own[x]); }
  }

  lemma FreedHang(info: BootSectorInfo, s: State, u: View, h: nat)
    requires Sound(info, s) && Anchored(info, s) && (h != 0 ==> h in s.own && h != Fat(s.v)[0])
    requires Freed(Fat(s.v), Fat(u), Walked(WalkFrom(s, h)))
    ensures HangLater(info, s, u, FreedOwn(s, h), 0)
  {
    hide HeadsOwned, AllSlots, Sized, Mirrored, IsChain, Fat, HangOk, Anchored, HangLater;
    NoZeroHead(info, s.v, s.own);
    if h != 0 {
      OwnedChain(info, s.v, s.own, h);
      assert 0 !in Walked(WalkFrom(s, h));
      HangKept(info, s, u, FreedOwn(s, h), 0);
    } else {
      assert 0 in Walked(WalkFrom(s, h)) by { assert Walked(WalkFrom(s, h))[0] == 0; }
      HangCleared(info, s, u, FreedOwn(s, h));
    }
  }

  lemma HangCleared(info: BootSectorInfo, s: State, u: View, own': Own)
    requires Sound(info, s) && Fat(u) != [] && Fat(u)[0] == 0
    ensures HangLater(info, s, u, own', 0)
  {
    hide Fat, Sound;
  }
}
