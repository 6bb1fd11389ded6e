/** Whole runs: any sequence of creates, grows and deletes, in any order, on any names and on a disk of any size,
    keeps the volume sound; and each step on well-formed names changes exactly the file it names. */
module FatRuns {
  import opened Bytes
  import opened FatLayout
  import opened FatChains
  import opened Volume
  import opened BlockDevice
  import opened FatAllocator
  import opened FatDirectory
  import opened DirectoryMap
  import opened FatChainGrowth
  import opened FatDirectoryGrowth
  import opened FileSystem
  import opened FileSystemSteps
  import opened FileMap
  import opened FileContents
  import opened FatFiles
  import opened FatErase
  import opened FatOperations

  // ----- reading a file by name

  const MAX_FILE_BYTES := 4096

  /** The first 4096 bytes of a chain are those of the part of it a walk reaches. */
  lemma WalkedBytes(info: BootSectorInfo, v: View, cs: seq<nat>)
    requires 1 <= info.sectorsPerCluster && forall i :: 0 <= i < |cs| ==> cs[i] < |v.clusters|
    ensures var a, b := FileBytes(info, v, Walked(cs)), FileBytes(info, v, cs);
      a <= b && (|a| < |b| ==> MAX_FILE_BYTES <= |a|)
  {
    hide FlatBytes, ChainSectors, Reached;
    var n, spc := |Walked(cs)|, info.sectorsPerCluster;
    assert Walked(cs) == cs[..n];
    if Sized(v.clusters, spc, cs[..n]) {
      ReachedWhole(v.clusters, spc, cs[..n]);
      ReachedBehind(v.clusters, spc, cs, n);
      var rest := Reached(v.clusters, spc, cs[n..]);
      ChainSectorsAppend(v.clusters, cs[..n], rest);
      FlatAppend(ChainSectors(v.clusters, cs[..n]), ChainSectors(v.clusters, rest));
      if n < |cs| {
        ChainSectorsLength(v.clusters, spc, cs[..n]);
        BlocksAtLeast(n, spc);
      } else {
        assert cs[..n] == cs;
      }
    } else {
      ReachedShort(v.clusters, spc, cs, n);
    }
  }

  lemma {:induction false} BlocksAtLeast(n: nat, size: nat)
    requires 1 <= size
    ensures n <= Blocks(n, size)
  {
    if 0 < n { BlocksAtLeast(n - 1, size); }
  }

  lemma ReadIsContent(info: BootSectorInfo, s: State, e: ShortDirEntry, got: seq<Byte>)
    requires 1 <= info.sectorsPerCluster && (e.firstCluster == 0 ==> got == [])
    requires e.firstCluster != 0 ==>
      && e.firstCluster in s.own
      && ReadDone(info, s.v, Walked(s.own[e.firstCluster]), Min(e.fileSize, MAX_FILE_BYTES), got)
      && forall i :: 0 <= i < |s.own[e.firstCluster]| ==> s.own[e.firstCluster][i] < |s.v.clusters|
    requires 0 !in s.own
    ensures got == Prefix(Content(info, s, e), MAX_FILE_BYTES)
  {
    hide FileBytes;
    if e.firstCluster != 0 { WalkedBytes(info, s.v, s.own[e.firstCluster]); }
  }

  /** The attribute byte of a slot says whether it is a directory's. */
  lemma DirectoryBit(e: Slot)
    ensures ParseShortDirEntry(e).Some? ==> (ParseShortDirEntry(e).value.isDir <==> e[11] / 16 % 2 == 1)
  {
  }

  /** Looks `name` up in the root directory and reads up to 4096 bytes of it: exactly the start of
      the content of the file its slot stands for, and nothing for a directory or an absent name. */
  method ReadByName(dev: BlkDevice, info: BootSectorInfo, name: Name, ghost own: Own) returns (r: Option<seq<Byte>>)
    requires Ready(dev, info, own)
    modifies dev`clock
    ensures var f := FileAt(info, State(Vol(dev, info), own), name);
      r == if f.None? || f.value.isDir then None else Some(Prefix(f.value.content, 4096))
    ensures var s := State(Vol(dev, info), own);
      var q := Find(RootSlots(info, s), name, 0);
      q.Some? && q.value < |AllSlots(info, s)| ==> (r.None? <==> AllSlots(info, s)[q.value][11] / 16 % 2 == 1)
  {
    hide BootSectorInfo.Fits, ViewOf, Sound, Fat, BlkDevice.Reliable, IsChain, Walked, Find, DirSlots, Prefix, Content, ParseShortDirEntry,
      Sized, ReadDone, SlotIndex;
    ghost var s := State(Vol(dev, info), own);
    RootParts(info, s);
    RootSized(info, s);
    var entry := FindEntryInDirectory(dev, info, info.rootCluster, name, Root(info, s));
    FindFound(RootSlots(info, s), name, 0);
    if entry.None? {
      return None;
    }
    FoundInAll(info, s, name);
    DirectoryBit(AllSlots(info, s)[Find(RootSlots(info, s), name, 0).value]);
    if entry.value.isDir {
      return None;
    }
    var e := entry.value;
    ghost var q := Find(RootSlots(info, s), name, 0).value;
    HeadIs(AllSlots(info, s)[q], e);
    if Head(AllSlots(info, s)[q]) != 0 { WalkFromIs(info, s, q); }
    HeadOwned(info, s, q);
    SectorsPerClusterPositive(info, |dev.disk|);
    SoundNoZero(info, s);
    var buf := new Byte[MAX_FILE_BYTES];
    ghost var chain := if e.firstCluster == 0 then [] else own[e.firstCluster];
    var written, _ := ReadFileContents(dev, info, e, buf, chain);
    ReadIsContent(info, s, e, buf[..written]);
    return Some(buf[..written]);
  }

  // ----- steps

  type SectorPart = s: seq<Byte> | |s| <= 512
  type Word = n: nat | n < U32_LIMIT

  datatype Op =
    | Create(name: Name, content: SectorPart)
    | Grow(name: Name, count: nat, data: seq<Byte>, newSize: Word)
    | Delete(name: Name)

  /** What `op` did, slot by slot. */
  ghost predicate Did(info: BootSectorInfo, s: State, op: Op, ok: bool, t: State)
    requires Sound(info, s)
  {
    match op
    case Create(name, content) => exists r :: CreateDone(info, s, t, name, content, ok, r)
    case Grow(name, count, data, newSize) => exists ns :: GrowDone(info, s, t, name, count, data, newSize, ok, ns)
    case Delete(name) => DeleteDone(info, s, t, name, ok)
  }

  /** A create enters its name where lookups find it: the name is new and visible, and a slot is reusable or the
      directory still grows within reach. */
  ghost predicate Placeable(info: BootSectorInfo, s: State, name: Name) {
    Visible(name) && Find(RootSlots(info, s), name, 0).None? && (!Full(RootSlots(info, s)) || |Root(info, s)| < WALK_CAP)
  }

  /** Whether a create writes its entry at all. */
  ghost predicate Enters(info: BootSectorInfo, s: State)
    requires Sound(info, s)
  {
    CreateTakes(info, s).Some? && ClusterStart(info, CreateTakes(info, s).value) < U32_LIMIT
  }

  /** What `op` does to the map from names to files. */
  ghost predicate Maps(info: BootSectorInfo, s: State, op: Op, t: State)
    requires Sound(info, s)
  {
    match op
    case Create(name, content) =>
      if !Enters(info, s) then FilesSame(info, s, t)
      else FilesUpdated(info, s, t, name, Some(File(false, Stored(s.v, CreateTakes(info, s).value, content))))
    case Grow(name, count, data, newSize) =>
      if !CanGrow(info, s, name, count) then FilesSame(info, s, t)
      else exists ns :: GrownMap(info, s, op, t, ns)
    case Delete(name) => FilesUpdated(info, s, t, name, None)
  }

  /** The file a grow leaves, its new clusters being the smallest free ones. */
  ghost predicate GrownMap(info: BootSectorInfo, s: State, op: Op, t: State, ns: seq<nat>)
    requires op.Grow?
  {
    var q := Find(RootSlots(info, s), op.name, 0);
    && |ns| == op.count && SmallestFree(Fat(s.v), ns) && q.Some? && q.value < |AllSlots(info, s)|
    && var e := AllSlots(info, s)[q.value];
    && ParseShortDirEntry(e).Some?
    && FilesUpdated(info, s, t, op.name,
         Some(File(ParseShortDirEntry(e).value.isDir, GrownContent(info, s, Head(e), ns, op.data, op.newSize))))
  }

  // ----- entries that name no cluster

  ghost predicate EmptySlot(e: Slot, name: Name) {
    Matches(e, name) && Head(e) == 0
  }

  /** Some slot of that name names no cluster. */
  ghost predicate EmptyNamed(info: BootSectorInfo, s: State, name: Name) {
    exists i :: 0 <= i < |AllSlots(info, s)| && EmptySlot(AllSlots(info, s)[i], name)
  }

  /** No operation makes a name lead to no cluster that did not. */
  ghost predicate NoneEmptied(info: BootSectorInfo, s: State, t: State) {
    forall name: Name :: EmptyNamed(info, t, name) ==> EmptyNamed(info, s, name)
  }

  /** What a grow or a delete needs: where the slot it finds names no cluster, entry 0 leads nowhere it should not. */
  ghost predicate TameOp(info: BootSectorInfo, s: State, op: Op) {
    op.Create? || TameName(info, s, op.name)
  }

  lemma NotEmptyTame(info: BootSectorInfo, s: State, op: Op)
    requires Sound(info, s) && (Anchored(info, s) || op.Create? || !EmptyNamed(info, s, op.name))
    ensures TameOp(info, s, op)
  {
    hide Sound, AllSlots, RootSlots, Find, Anchored, Head, Matches;
    if !op.Create? && Find(RootSlots(info, s), op.name, 0).Some? {
      FoundInAll(info, s, op.name);
      var q := Find(RootSlots(info, s), op.name, 0).value;
      assert EmptySlot(AllSlots(info, s)[q], op.name) <==> Head(AllSlots(info, s)[q]) == 0;
    }
  }

  lemma UnusedNotEmpty(spc: nat, i: nat, name: Name)
    requires i < |Slots(Zeros(spc))|
    ensures !EmptySlot(Slots(Zeros(spc))[i], name)
  {
    hide Slots, Zeros;
    ZeroSlots(spc);
  }

  lemma LongerSame(info: BootSectorInfo, s: State, t: State)
    requires SlotsAre(info, s, t)
    ensures NoneEmptied(info, s, t)
  {
    hide AllSlots, Slots, Zeros, EmptySlot;
    forall name: Name | EmptyNamed(info, t, name) ensures EmptyNamed(info, s, name) {
      var i :| 0 <= i < |AllSlots(info, t)| && EmptySlot(AllSlots(info, t)[i], name);
      if |AllSlots(info, s)| <= i { UnusedNotEmpty(info.sectorsPerCluster, i - |AllSlots(info, s)|, name); }
    }
  }

  lemma RewrittenSame(info: BootSectorInfo, s: State, t: State, q: nat, e: Slot)
    requires q < |AllSlots(info, s)| && AllSlots(info, t) == AllSlots(info, s)[q := e]
    requires forall name: Name :: EmptySlot(e, name) ==> EmptySlot(AllSlots(info, s)[q], name)
    ensures NoneEmptied(info, s, t)
  {
    hide AllSlots, EmptySlot;
    forall name: Name | EmptyNamed(info, t, name) ensures EmptyNamed(info, s, name) {
      var i :| 0 <= i < |AllSlots(info, t)| && EmptySlot(AllSlots(info, t)[i], name);
      assert EmptySlot(AllSlots(info, s)[i], name);
    }
  }

  lemma CreateEmpties(info: BootSectorInfo, s: State, t: State, name: Name, content: SectorPart, ok: bool, r: Creation)
    requires Sound(info, s) && CreateDone(info, s, t, name, content, ok, r)
    ensures NoneEmptied(info, s, t)
  {
    hide Sound, AllKept, FilesSame, Named, SlotFor, Root, AllSlots, RootSlots, FileAt, ClusterStart, SlotFile, SlotsKept, Fat, NewEntry, ParseShortDirEntry;
    match r {
      case Refused => LongerSame(info, s, t);
      case Filled(m, how, q, c) =>
        NewEntryParses(name, c, |content|);
        RewrittenSame(info, m, t, q, NewEntry(name, c, |content|));
        SlotUnused(info, s, m, how, q);
        LongerSame(info, s, m);
    }
  }

  lemma GrowEmpties(info: BootSectorInfo, s: State, t: State, op: Op, ok: bool, ns: seq<nat>)
    requires op.Grow? && GrowDone(info, s, t, op.name, op.count, op.data, op.newSize, ok, ns)
    ensures NoneEmptied(info, s, t)
  {
    hide AllKept, Root, AllSlots, RootSlots, Find, CanGrow, SmallestFree, SlotsKept, SlotFile, Resized, ParseShortDirEntry, GrownContent, GrownOwn,
      Fat, EmptyNamed;
    if CanGrow(info, s, op.name, op.count) {
      GrowFinds(info, s, op.name, op.count);
      var q := Find(RootSlots(info, s), op.name, 0).value;
      ResizedParses(AllSlots(info, s)[q], op.newSize);
      RewrittenSame(info, s, t, q, Resized(AllSlots(info, s)[q], op.newSize));
    } else {
      LongerSame(info, s, t);
    }
  }

  lemma DeleteEmpties(info: BootSectorInfo, s: State, t: State, name: Name, ok: bool)
    requires DeleteDone(info, s, t, name, ok)
    ensures NoneEmptied(info, s, t)
  {
    hide Root, AllSlots, RootSlots, Find, SlotsKept, SlotFile, FreedOwn, Freed, Fat, EmptyNamed;
    if Find(RootSlots(info, s), name, 0).Some? {
      var q := Find(RootSlots(info, s), name, 0).value;
      RewrittenSame(info, s, t, q, Deleted(AllSlots(info, s)[q]));
    }
  }

  // ----- one step

  /** One step: sound before and after, the hint as exact as it was, and on well-formed names a change of the map,
      unless a create could not place its name. */
  ghost predicate Stepped(info: BootSectorInfo, s: State, op: Op, ok: bool, t: State) {
    && Sound(info, s) && Sound(info, t) && HintStays(info, s.v, t.v)
    && Did(info, s, op, ok, t) && (Anchored(info, s) ==> Anchored(info, t)) && NoneEmptied(info, s, t)
    && (Named(info, s) && (op.Create? && Enters(info, s) ==> Placeable(info, s, op.name)) ==> Named(info, t) && Maps(info, s, op, t))
  }

  lemma CreateMaps(info: BootSectorInfo, s: State, t: State, op: Op, ok: bool, r: Creation)
    requires Sound(info, s) && Sound(info, t) && op.Create? && CreateDone(info, s, t, op.name, op.content, ok, r)
    requires Named(info, s) && (Enters(info, s) ==> Placeable(info, s, op.name))
    ensures Named(info, t) && Maps(info, s, op, t)
  {
    hide Sound, AllKept, FilesSame, Named, SlotFor, Entered, Root, AllSlots, RootSlots, CreateTakes, FileAt, ClusterStart, Find, NoneReusable, Visible;
    if r.Filled? {
      EnterRefinesUpdate(info, s, r.mid, t, r.how, r.q, op.name, r.c, op.content);
      ReachNow(info, s, r.mid, r.how, r.q);
    }
  }

  lemma ReachNow(info: BootSectorInfo, s: State, m: State, how: Slotted, q: nat)
    requires Sound(info, s) && Sound(info, m) && SlotFor(info, s, m, how, q)
    ensures InReach(info, s, how) <==> !Full(RootSlots(info, s)) || |Root(info, s)| < WALK_CAP
  {
    hide Sound, AllKept, Root, AllSlots, RootSlots;
    SlotForParts(info, s, m, how, q);
  }

  lemma GrowMaps(info: BootSectorInfo, s: State, t: State, op: Op, ok: bool, ns: seq<nat>)
    requires Sound(info, s) && Sound(info, t) && op.Grow? && GrowDone(info, s, t, op.name, op.count, op.data, op.newSize, ok, ns)
    requires Named(info, s)
    ensures Named(info, t) && Maps(info, s, op, t)
  {
    hide Sound, AllKept, FilesSame, Named, Root, AllSlots, RootSlots, FileAt, Find, CanGrow, SmallestFree, SlotRewritten, SlotFile, Resized,
      ParseShortDirEntry, GrownContent, GrownOwn, Fat;
    if CanGrow(info, s, op.name, op.count) {
      GrowFinds(info, s, op.name, op.count);
      ResizeRefines(info, s, t, Find(RootSlots(info, s), op.name, 0).value, op.name, op.newSize);
      assert GrownMap(info, s, op, t, ns);
    } else {
      SameSlotsSameFiles(info, s, t);
    }
  }

  lemma GrowFinds(info: BootSectorInfo, s: State, name: Name, count: nat)
    requires CanGrow(info, s, name, count)
    ensures Find(RootSlots(info, s), name, 0).Some?
  {
  }

  lemma DeleteMaps(info: BootSectorInfo, s: State, t: State, op: Op, ok: bool)
    requires Sound(info, s) && Sound(info, t) && op.Delete? && DeleteDone(info, s, t, op.name, ok) && Named(info, s)
    ensures Named(info, t) && Maps(info, s, op, t)
  {
    hide Sound, Named, Root, AllSlots, RootSlots, Find, SlotRewritten, SlotFile, Deleted, FreedOwn, Freed, Fat;
    if Find(RootSlots(info, s), op.name, 0).Some? {
      DeleteRefines(info, s, t, Find(RootSlots(info, s), op.name, 0).value, op.name);
    }
  }

  /** Carries out `op`: a whole step, unless a grow or a delete finds a slot that names no cluster and entry 0 leads
      somewhere it should not. */
  method Step(dev: BlkDevice, info: BootSectorInfo, op: Op, ghost own: Own) returns (ok: bool, ghost own': Own)
    requires Ready(dev, info, own)
    modifies dev
    ensures |dev.disk| == |old(dev.disk)|
    ensures TameOp(info, State(old(Vol(dev, info)), own), op) ==>
      Stepped(info, State(old(Vol(dev, info)), own), op, ok, State(Vol(dev, info), own'))
  {
    hide Anchored, NoneEmptied, TameName, BootSectorInfo.Fits, ViewOf, Sound, Fat, BlkDevice.Reliable, HintStays, Named, Maps, CreateDone, GrowDone, DeleteDone, Enters, Placeable;
    ghost var s := State(Vol(dev, info), own);
    match op {
      case Create(name, content) =>
        ghost var r;
        ok, own', r := CreateFile(dev, info, name, content, own);
        CreateEmpties(info, s, State(Vol(dev, info), own'), name, content, ok, r);
        if Named(info, s) && (Enters(info, s) ==> Placeable(info, s, name)) { CreateMaps(info, s, State(Vol(dev, info), own'), op, ok, r); }
      case Grow(name, count, data, newSize) =>
        ghost var ns, linking, mid;
        ok, own', ns, linking, mid := GrowFile(dev, info, name, count, data, newSize, own);
        if TameOp(info, s, op) {
          GrowEmpties(info, s, State(Vol(dev, info), own'), op, ok, ns);
          if Named(info, s) { GrowMaps(info, s, State(Vol(dev, info), own'), op, ok, ns); }
        }
      case Delete(name) =>
        ghost var tr, mid;
        ok, own', tr, mid := DeleteFile(dev, info, name, own);
        if TameOp(info, s, op) {
          DeleteEmpties(info, s, State(Vol(dev, info), own'), name, ok);
          if Named(info, s) { DeleteMaps(info, s, State(Vol(dev, info), own'), op, ok); }
        }
    }
  }

  // ----- runs

  /** `trace` is a run of `ops` with those results. */
  ghost predicate IsRun(info: BootSectorInfo, ops: seq<Op>, results: seq<bool>, trace: seq<State>) {
    && |results| == |ops| && |trace| == |ops| + 1
    && forall i :: 0 <= i < |ops| ==> Stepped(info, trace[i], ops[i], results[i], trace[i + 1])
  }

  /** The operations grow and delete no file that names no cluster at the start. */
  ghost predicate AvoidEmpty(info: BootSectorInfo, s: State, ops: seq<Op>) {
    forall i :: 0 <= i < |ops| ==> Avoids(info, s, ops[i])
  }

  ghost predicate Avoids(info: BootSectorInfo, s: State, op: Op) {
    op.Create? || !EmptyNamed(info, s, op.name)
  }

  /** Carries out a list of operations one after the other, with no condition on the names, the sizes or the number
      of creates; where entry 0 leads somewhere it should not, the files grown and deleted must name clusters. After each of them the FAT is a forest of in-range, acyclic, disjoint, terminated chains, its
      copies are equal, every slot heads a chain of its own, no operation has changed another slot's file, and
      an exact free count stays exact. */
  method Run(dev: BlkDevice, info: BootSectorInfo, ops: seq<Op>, ghost own: Own)
    returns (results: seq<bool>, ghost trace: seq<State>)
    requires Ready(dev, info, own)
    requires Anchored(info, State(Vol(dev, info), own)) || AvoidEmpty(info, State(Vol(dev, info), own), ops)
    modifies dev
    ensures IsRun(info, ops, results, trace)
    ensures trace[0] == State(old(Vol(dev, info)), own)
    ensures |dev.disk| == |old(dev.disk)| && trace[|ops|].v == Vol(dev, info)
    ensures forall i :: 0 <= i <= |ops| ==> Sound(info, trace[i]) && HintStays(info, trace[0].v, trace[i].v)
  {
    hide BootSectorInfo.Fits, ViewOf, Sound, BlkDevice.Reliable, HintStays, Stepped, Anchored, AvoidEmpty, TameOp;
    ghost var now: Own := own;
    results, trace := [], [State(Vol(dev, info), own)];
    HintStaysSame(info, Vol(dev, info), Vol(dev, info));
    for i := 0 to |ops|
      invariant |dev.disk| == |old(dev.disk)| && Ready(dev, info, now)
      invariant |results| == i && |trace| == i + 1 && trace[0] == State(old(Vol(dev, info)), own)
      invariant trace[i] == State(Vol(dev, info), now)
      invariant Anchored(info, trace[i]) || AvoidEmpty(info, trace[i], ops)
      invariant forall j :: 0 <= j < i ==> Stepped(info, trace[j], ops[j], results[j], trace[j + 1])
      invariant forall j :: 0 <= j <= i ==> Sound(info, trace[j]) && HintStays(info, trace[0].v, trace[j].v)
    {
      var ok;
      OpTame(info, trace[i], ops, i);
      ok, now := Step(dev, info, ops[i], now);
      ghost var next := State(Vol(dev, info), now);
      SteppedKeeps(info, trace[0], trace[i], ops[i], ok, next);
      StillTame(info, trace[i], ops, ops[i], ok, next);
      results, trace := results + [ok], trace + [next];
    }
  }

  lemma OpTame(info: BootSectorInfo, s: State, ops: seq<Op>, i: nat)
    requires Sound(info, s) && i < |ops| && (Anchored(info, s) || AvoidEmpty(info, s, ops))
    ensures TameOp(info, s, ops[i])
  {
    hide Sound, Anchored, EmptyNamed, TameOp;
    if !Anchored(info, s) { assert Avoids(info, s, ops[i]); }
    NotEmptyTame(info, s, ops[i]);
  }

  lemma StillTame(info: BootSectorInfo, s: State, ops: seq<Op>, op: Op, ok: bool, t: State)
    requires Stepped(info, s, op, ok, t) && (Anchored(info, s) || AvoidEmpty(info, s, ops))
    ensures Anchored(info, t) || AvoidEmpty(info, t, ops)
  {
    hide Sound, Anchored, EmptyNamed, HintStays, Did, Maps, Named, Placeable, Enters;
    if !Anchored(info, s) {
      forall i | 0 <= i < |ops| ensures Avoids(info, t, ops[i]) { assert Avoids(info, s, ops[i]); }
    }
  }

  lemma SteppedKeeps(info: BootSectorInfo, first: State, s: State, op: Op, ok: bool, t: State)
    requires Stepped(info, s, op, ok, t) && Sound(info, first) && HintStays(info, first.v, s.v)
    ensures Sound(info, t) && HintStays(info, first.v, t.v)
  {
    hide HintStays, Sound, Anchored, NoneEmptied, Did, Maps, Named, Placeable, Enters;
    HintStaysThrough(info, first.v, s.v, t.v);
  }

  /** Every create of the run that wrote an entry placed a new name. */
  ghost predicate Clean(info: BootSectorInfo, ops: seq<Op>, trace: seq<State>)
    requires |trace| == |ops| + 1 && forall i :: 0 <= i < |ops| ==> Sound(info, trace[i])
  {
    forall i :: 0 <= i < |ops| && ops[i].Create? && Enters(info, trace[i]) ==> Placeable(info, trace[i], ops[i].name)
  }

  /** A clean run on well-formed names refines a run on the map from names to files. */
  lemma {:induction false} RunRefines(info: BootSectorInfo, ops: seq<Op>, results: seq<bool>, trace: seq<State>, n: nat)
    requires IsRun(info, ops, results, trace) && n <= |ops|
    requires (forall i :: 0 <= i < |ops| ==> Sound(info, trace[i])) && Clean(info, ops, trace) && Named(info, trace[0])
    ensures Named(info, trace[n]) && forall i :: 0 <= i < n ==> Named(info, trace[i]) && Maps(info, trace[i], ops[i], trace[i + 1])
  {
    hide HintStays, Sound, Anchored, NoneEmptied, Did, Maps, Named, Placeable, Enters;
    if 0 < n {
      RunRefines(info, ops, results, trace, n - 1);
      assert Stepped(info, trace[n - 1], ops[n - 1], results[n - 1], trace[n]);
    }
  }
}
