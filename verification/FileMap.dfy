/** The driver's own lookups as a map from names to files: exactly when a created, grown or deleted slot is a
    change of that map at its own name and nowhere else. */
module FileMap {
  import opened Bytes
  import opened FatLayout
  import opened FatChains
  import opened Volume
  import opened FatDirectory
  import opened DirectoryMap
  import opened FatDirectoryGrowth
  import opened FileSystem
  import opened FileSystemSteps

  // ----- what lookups see of a changed slot

  /** One slot rewritten, as the scans see it: they reach the first 1024 clusters. */
  lemma RootAfter(info: BootSectorInfo, s: State, t: State, q: nat, e: Slot)
    requires Sound(info, s) && Sound(info, t) && Root(info, t) == Root(info, s)
    requires q < |AllSlots(info, s)| && AllSlots(info, t) == AllSlots(info, s)[q := e]
    ensures RootSlots(info, t) == if q < |RootSlots(info, s)| then RootSlots(info, s)[q := e] else RootSlots(info, s)
  {
    hide AllSlots, RootSlots, Sound, SlotIndex;
    RootParts(info, s);
    RootParts(info, t);
  }

  /** A name found where it was, in a slot that was kept, leads to the same file. */
  lemma FileByFind(info: BootSectorInfo, s: State, t: State, q: nat, n: Name)
    requires Sound(info, s) && Sound(info, t) && SlotsKept(info, s, t, q) && |RootSlots(info, s)| <= |RootSlots(info, t)|
    requires Find(RootSlots(info, t), n, 0) == Find(RootSlots(info, s), n, 0) != Some(q)
    ensures FileAt(info, t, n) == FileAt(info, s, n)
  {
    hide AllSlots, RootSlots, Sound, SlotIndex, SlotFile, Find;
    RootParts(info, s);
    RootParts(info, t);
    FindFound(RootSlots(info, s), n, 0);
    var i := Find(RootSlots(info, s), n, 0);
    if i.Some? { assert SlotKept(info, s, t, i.value); }
  }

  /** When all slots are kept and scans see the same, every name leads to the same file. */
  lemma FilesKept(info: BootSectorInfo, s: State, t: State)
    requires Sound(info, s) && Sound(info, t) && AllKept(info, s, t) && |RootSlots(info, s)| <= |RootSlots(info, t)|
    requires forall n: Name :: Find(RootSlots(info, t), n, 0) == Find(RootSlots(info, s), n, 0)
    ensures FilesSame(info, s, t)
  {
    hide AllSlots, RootSlots, Sound, SlotsKept, FileAt, Find;
    RootParts(info, s);
    forall n: Name ensures FileAt(info, t, n) == FileAt(info, s, n) {
      FindFound(RootSlots(info, s), n, 0);
      FileByFind(info, s, t, |AllSlots(info, s)|, n);
    }
  }

  lemma SameSlotsSameFiles(info: BootSectorInfo, s: State, t: State)
    requires Sound(info, s) && Sound(info, t) && AllKept(info, s, t) && Root(info, t) == Root(info, s) && AllSlots(info, t) == AllSlots(info, s)
    ensures RootSlots(info, t) == RootSlots(info, s) && (Named(info, s) ==> Named(info, t)) && FilesSame(info, s, t)
  {
    hide AllSlots, RootSlots, Sound, SlotsKept, FileAt, Find, ZeroTail, UniqueNames, SlotIndex;
    RootParts(info, s);
    RootParts(info, t);
    assert RootSlots(info, t) == RootSlots(info, s);
    FilesKept(info, s, t);
  }

  // ----- a longer directory

  /** What the scans see of a directory with one more cluster. */
  lemma LongerRoot(info: BootSectorInfo, s: State, m: State, n: nat)
    requires Sound(info, s) && Sound(info, m) && DirLonger(info, s, m, n)
    ensures RootSlots(info, m) == if |Root(info, s)| < WALK_CAP then AllSlots(info, s) + Slots(Zeros(info.sectorsPerCluster)) else RootSlots(info, s)
    ensures |Root(info, s)| <= WALK_CAP ==> RootSlots(info, s) == AllSlots(info, s)
  {
    hide RootSlots, Sound, SlotIndex, AllKept, AllSlots, Slots, Zeros;
    var cs := Root(info, s);
    RootParts(info, s);
    RootParts(info, m);
    assert Root(info, m) == cs + [n];
    if |cs| < WALK_CAP { assert Walked(cs + [n]) == cs + [n]; } else { assert Walked(cs + [n]) == Walked(cs); }
    if |cs| <= WALK_CAP { assert Walked(cs) == cs; }
  }

  /** A longer directory holds the same map. */
  lemma LongerSame(info: BootSectorInfo, s: State, m: State, n: nat)
    requires Sound(info, s) && Sound(info, m) && DirLonger(info, s, m, n) && Named(info, s)
    ensures Named(info, m) && FilesSame(info, s, m) && forall x: Name :: Find(RootSlots(info, m), x, 0) == Find(RootSlots(info, s), x, 0)
  {
    hide RootSlots, AllSlots, Sound, FileAt, AllKept, Slots, Zeros;
    LongerRoot(info, s, m, n);
    ZeroSlots(info.sectorsPerCluster);
    if |Root(info, s)| < WALK_CAP { GrowKeepsLookup(AllSlots(info, s), Slots(Zeros(info.sectorsPerCluster))); }
    FilesKept(info, s, m);
  }

  // ----- create

  /** Where a new entry goes: the first reusable slot of those scanned, or the first slot of a cluster the
      full directory was grown by. */
  datatype Slotted = Reused | Grew(n: nat)

  ghost predicate SlotFor(info: BootSectorInfo, s: State, m: State, how: Slotted, q: nat) {
    match how
    case Reused => m == s && FirstReusable(RootSlots(info, s), q)
    case Grew(n) => DirLonger(info, s, m, n) && |Root(info, s)| <= WALK_CAP && Full(AllSlots(info, s)) && q == |AllSlots(info, s)|
  }

  /** The slot is one the scans reach: always when it was there, and when the directory grew to at most 1024
      clusters. */
  ghost predicate InReach(info: BootSectorInfo, s: State, how: Slotted) {
    how.Reused? || |Root(info, s)| < WALK_CAP
  }

  lemma SlotForParts(info: BootSectorInfo, s: State, m: State, how: Slotted, q: nat)
    requires Sound(info, s) && Sound(info, m) && SlotFor(info, s, m, how, q)
    ensures |RootSlots(info, m)| <= |AllSlots(info, m)| && q < |AllSlots(info, m)| && Reusable(AllSlots(info, m)[q])
    ensures q < |RootSlots(info, m)| <==> InReach(info, s, how)
    ensures InReach(info, s, how) ==> FirstReusable(RootSlots(info, m), q)
    ensures AllKept(info, s, m) && |RootSlots(info, s)| <= |RootSlots(info, m)|
    ensures !InReach(info, s, how) ==> Full(RootSlots(info, s)) && RootSlots(info, m) == RootSlots(info, s)
    ensures how.Grew? ==> |RootSlots(info, s)| == q && Full(RootSlots(info, s))
  {
    hide RootSlots, AllSlots, Sound, SlotsKept, Slots, Zeros, SlotIndex;
    RootParts(info, s);
    RootParts(info, m);
    match how
    case Reused =>
      AllKeptSame(info, s);
    case Grew(n) =>
      LongerRoot(info, s, m, n);
      ZeroSlots(info.sectorsPerCluster);
      PositiveSectors(info, s);
  }

  lemma PositiveSectors(info: BootSectorInfo, s: State)
    requires Sound(info, s)
    ensures 1 <= info.sectorsPerCluster
  {
    hide Forest, Mirrored, Fat, AllSlots, HeadsOwned, HangOk;
  }

  /** The driver's own lookup finds an entered name in its slot exactly when the slot is in reach, the name's
      first byte is neither of the two that mark a slot as unused, and no slot before it holds the name. In
      particular, where 1024 full clusters grew by one more, it never does. */
  lemma EnteredFoundIff(info: BootSectorInfo, s: State, m: State, t: State, how: Slotted, q: nat, name: Name, c: nat, content: seq<Byte>)
    requires Sound(info, s) && Sound(info, m) && Sound(info, t) && SlotFor(info, s, m, how, q) && Entered(info, m, t, q, name, c, content)
    ensures Find(RootSlots(info, t), name, 0) == Some(q)
       <==> InReach(info, s, how) && Visible(name) && forall i :: 0 <= i < q && i < |RootSlots(info, s)| ==> !Matches(RootSlots(info, s)[i], name)
  {
    hide RootSlots, AllSlots, Sound, SlotsKept, SlotFile, Find, SlotFor, NewEntry, Matches, FirstReusable;
    SlotForParts(info, s, m, how, q);
    var e := NewEntry(name, c, |content|);
    RootAfter(info, m, t, q, e);
    if InReach(info, s, how) {
      CreatedFoundIff(RootSlots(info, m), q, name, c, |content|);
      SlotsBefore(info, s, m, how, q);
    } else {
      FindFound(RootSlots(info, t), name, 0);
    }
  }

  /** Where it is not in reach, as when 1024 full clusters grew by one more, the entry is lost: scans see what they
      saw, and every name leads to the file it did. */
  lemma OutOfReachLost(info: BootSectorInfo, s: State, m: State, t: State, how: Slotted, q: nat, name: Name, c: nat, content: seq<Byte>)
    requires Sound(info, s) && Sound(info, m) && Sound(info, t) && SlotFor(info, s, m, how, q) && Entered(info, m, t, q, name, c, content)
    requires !InReach(info, s, how)
    ensures RootSlots(info, t) == RootSlots(info, s) && FilesSame(info, s, t)
  {
    hide RootSlots, AllSlots, Sound, SlotsKept, SlotFile, Find, SlotFor, NewEntry, NoneReusable, FileAt;
    SlotForParts(info, s, m, how, q);
    RootAfter(info, m, t, q, NewEntry(name, c, |content|));
    SlotsKeptThrough(info, s, m, t, q);
    forall n: Name ensures FileAt(info, t, n) == FileAt(info, s, n) {
      FindFound(RootSlots(info, s), n, 0);
      FileByFind(info, s, t, q, n);
    }
  }

  /** The slots before the new one are those of the old directory. */
  lemma SlotsBefore(info: BootSectorInfo, s: State, m: State, how: Slotted, q: nat)
    requires Sound(info, s) && Sound(info, m) && SlotFor(info, s, m, how, q) && InReach(info, s, how)
    ensures q <= |RootSlots(info, s)| && q <= |RootSlots(info, m)| && forall i :: 0 <= i < q ==> RootSlots(info, m)[i] == RootSlots(info, s)[i]
  {
    hide RootSlots, AllSlots, Sound, SlotsKept, Slots, Zeros;
    if how.Grew? { LongerRoot(info, s, m, how.n); }
    SlotForParts(info, s, m, how, q);
  }

  /** `t` maps `name` to the file in slot `q` and every other name to what `s` does, with no gap and no name twice. */
  ghost predicate NewFile(info: BootSectorInfo, s: State, t: State, q: nat, name: Name) {
    && Find(RootSlots(info, t), name, 0) == Some(q) && Named(info, t)
    && forall n: Name :: n != name ==> FileAt(info, t, n) == FileAt(info, s, n)
  }

  /** Entering a name refines a map update exactly when the name is new and visible and its slot is in reach. */
  lemma EnterRefinesUpdate(info: BootSectorInfo, s: State, m: State, t: State, how: Slotted, q: nat, name: Name, c: nat, content: seq<Byte>)
    requires Sound(info, s) && Sound(info, m) && Sound(info, t) && SlotFor(info, s, m, how, q) && Entered(info, m, t, q, name, c, content)
    requires Named(info, s)
    ensures NewFile(info, s, t, q, name) <==> InReach(info, s, how) && Visible(name) && Find(RootSlots(info, s), name, 0).None?
    ensures NewFile(info, s, t, q, name) ==> FileAt(info, t, name) == Some(File(false, Stored(m.v, c, content)))
  {
    hide RootSlots, AllSlots, Sound, SlotsKept, SlotFile, Find, SlotFor, NewEntry, Matches, FirstReusable, FilesSame, ZeroTail, UniqueNames;
    EnteredFoundIff(info, s, m, t, how, q, name, c, content);
    SlotForParts(info, s, m, how, q);
    RootAfter(info, m, t, q, NewEntry(name, c, |content|));
    MidSame(info, s, m, how, q);
    if InReach(info, s, how) && Visible(name) && Find(RootSlots(info, s), name, 0).None? {
      EnterNewName(info, s, m, t, how, q, name, c, content);
    } else if InReach(info, s, how) && Visible(name) {
      EnterOldName(info, s, m, t, how, q, name, c, content);
    }
    if NewFile(info, s, t, q, name) { FindFound(RootSlots(info, t), name, 0); }
  }

  lemma MidSame(info: BootSectorInfo, s: State, m: State, how: Slotted, q: nat)
    requires Sound(info, s) && Sound(info, m) && SlotFor(info, s, m, how, q) && Named(info, s)
    ensures Named(info, m) && FilesSame(info, s, m) && forall x: Name :: Find(RootSlots(info, m), x, 0) == Find(RootSlots(info, s), x, 0)
  {
    hide RootSlots, AllSlots, Sound, FileAt, Find;
    if how.Grew? { LongerSame(info, s, m, how.n); }
  }

  lemma EnterNewName(info: BootSectorInfo, s: State, m: State, t: State, how: Slotted, q: nat, name: Name, c: nat, content: seq<Byte>)
    requires Sound(info, s) && Sound(info, m) && Sound(info, t) && SlotFor(info, s, m, how, q) && Entered(info, m, t, q, name, c, content)
    requires Named(info, s) && InReach(info, s, how) && Visible(name) && Find(RootSlots(info, s), name, 0).None?
    ensures NewFile(info, s, t, q, name)
  {
    hide RootSlots, AllSlots, Sound, SlotsKept, SlotFile, Find, SlotFor, NewEntry, FirstReusable, FileAt;
    var slots, e := RootSlots(info, m), NewEntry(name, c, |content|);
    SlotForParts(info, s, m, how, q);
    MidSame(info, s, m, how, q);
    RootAfter(info, m, t, q, e);
    CreatedUnique(slots, q, name, c, |content|);
    CreatedFoundIff(slots, q, name, c, |content|);
    NewEntryParses(name, c, |content|);
    forall n: Name | n != name ensures FileAt(info, t, n) == FileAt(info, s, n) {
      OtherFound(slots, q, e, n);
      FileByFind(info, m, t, q, n);
    }
  }

  lemma EnterOldName(info: BootSectorInfo, s: State, m: State, t: State, how: Slotted, q: nat, name: Name, c: nat, content: seq<Byte>)
    requires Sound(info, s) && Sound(info, m) && Sound(info, t) && SlotFor(info, s, m, how, q) && Entered(info, m, t, q, name, c, content)
    requires Named(info, s) && InReach(info, s, how) && Visible(name) && Find(RootSlots(info, s), name, 0).Some?
    ensures !Named(info, t)
  {
    hide RootSlots, AllSlots, Sound, SlotsKept, SlotFile, Find, SlotFor, NewEntry;
    var slots, e := RootSlots(info, m), NewEntry(name, c, |content|);
    SlotForParts(info, s, m, how, q);
    MidSame(info, s, m, how, q);
    RootAfter(info, m, t, q, e);
    NewEntryParses(name, c, |content|);
    FindFound(slots, name, 0);
    var i := Find(slots, name, 0).value;
    assert Matches(slots[q := e][i], name) && Matches(slots[q := e][q], name) && i != q;
  }

  // ----- resize and delete

  /** `t` is `s` with slot `q` rewritten to `e` and every other slot's file kept. */
  ghost predicate SlotRewritten(info: BootSectorInfo, s: State, t: State, q: nat, e: Slot) {
    && Root(info, t) == Root(info, s) && q < |AllSlots(info, s)|
    && AllSlots(info, t) == AllSlots(info, s)[q := e] && SlotsKept(info, s, t, q)
  }

  lemma FoundInAll(info: BootSectorInfo, s: State, name: Name)
    requires Sound(info, s) && Find(RootSlots(info, s), name, 0).Some?
    ensures var q := Find(RootSlots(info, s), name, 0).value;
      && q < |RootSlots(info, s)| <= |AllSlots(info, s)| && AllSlots(info, s)[q] == RootSlots(info, s)[q]
      && Matches(AllSlots(info, s)[q], name)
  {
    hide RootSlots, AllSlots, Sound, Find, SlotIndex;
    FindFound(RootSlots(info, s), name, 0);
    RootParts(info, s);
  }

  /** Resizing the slot a name is found in changes that name's file and no other. */
  lemma ResizeRefines(info: BootSectorInfo, s: State, t: State, q: nat, name: Name, size: nat)
    requires Sound(info, s) && Sound(info, t) && Named(info, s) && Find(RootSlots(info, s), name, 0) == Some(q) && size < U32_LIMIT
    requires q < |AllSlots(info, s)| && SlotRewritten(info, s, t, q, Resized(AllSlots(info, s)[q], size))
    ensures Named(info, t) && FilesUpdated(info, s, t, name, SlotFile(info, t, Resized(AllSlots(info, s)[q], size)))
  {
    hide RootSlots, AllSlots, Sound, SlotsKept, SlotFile, Find, Resized, ZeroTail, UniqueNames;
    FoundInAll(info, s, name);
    RootAfter(info, s, t, q, Resized(AllSlots(info, s)[q], size));
    ResizeRefinesChange(RootSlots(info, s), q, name, size);
    forall n: Name | n != name ensures FileAt(info, t, n) == FileAt(info, s, n) {
      FileByFind(info, s, t, q, n);
    }
  }

  /** Deleting the slot a name is found in removes the name and no other. */
  lemma DeleteRefines(info: BootSectorInfo, s: State, t: State, q: nat, name: Name)
    requires Sound(info, s) && Sound(info, t) && Named(info, s) && Find(RootSlots(info, s), name, 0) == Some(q)
    requires q < |AllSlots(info, s)| && SlotRewritten(info, s, t, q, Deleted(AllSlots(info, s)[q]))
    ensures Named(info, t) && FilesUpdated(info, s, t, name, None)
  {
    hide RootSlots, AllSlots, Sound, SlotsKept, SlotFile, Find, Deleted, ZeroTail, UniqueNames;
    FoundInAll(info, s, name);
    RootAfter(info, s, t, q, Deleted(AllSlots(info, s)[q]));
    DeleteRefinesRemoval(RootSlots(info, s), q, name);
    forall n: Name | n != name ensures FileAt(info, t, n) == FileAt(info, s, n) {
      FileByFind(info, s, t, q, n);
    }
  }
}
