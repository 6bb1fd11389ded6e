/** Erasing a directory entry: freeing the chain it names and then marking its slot, with any device. */
module FatErase {
  import opened Bytes
  import opened FatLayout
  import opened FatChains
  import opened Volume
  import opened BlockDevice
  import opened FatDirectory
  import opened FatAllocator
  import opened FatChainGrowth
  import opened FileSystem
  import opened FileSystemSteps
  import opened FileMap
  import opened FatWalks
  import opened FatEntries

  /** A walk from the slot's head stays where it should: the slot names a cluster, or entry 0 leads nowhere else. */
  ghost predicate Tame(info: BootSectorInfo, s: State, e: Slot) {
    Head(e) != 0 || Anchored(info, s)
  }

  /** On a sound volume, a walk from a slot's head goes through an owned chain or what hangs on entry 0. */
  lemma WalkFromIs(info: BootSectorInfo, s: State, q: nat)
    requires Sound(info, s) && q < |AllSlots(info, s)| && Tame(info, s, AllSlots(info, s)[q])
    ensures var h := Head(AllSlots(info, s)[q]);
      && Walk(Fat(s.v), h, WalkFrom(s, h)) && 0 < WalkSteps(s, h) && WalkFrom(s, h)[WalkSteps(s, h) - 1] < info.Entries()
      && (h != 0 ==> h in s.own && WalkFrom(s, h) == s.own[h] && IsChain(Fat(s.v), h, s.own[h]))
  {
    hide AllSlots, Mirrored, Sized, Head, Fat, HeadsOwned, IsChain;
    var h, hang := Head(AllSlots(info, s)[q]), Fat(s.v)[0];
    SlotHead(info, s, q);
    if h != 0 {
      OwnedChain(info, s.v, s.own, h);
    } else if hang in s.own {
      OwnedChain(info, s.v, s.own, hang);
      assert ZeroWalk(s)[1..] == s.own[hang];
    }
  }

  lemma DeletedParses(e: Slot)
    ensures Head(Deleted(e)) == 0 && Overlaid(e, 0, [DELETED]) == Deleted(e)
  {
  }

  /** What the requests for the slot leave of it: the slot itself, or the slot marked. */
  lemma MarkLeaves(read: Service, write: Service, e: Slot, j: nat)
    ensures SlotLeft(read, write, e, Deleted(e), j)
         == if read.Works? && (write.Works? || 32 * j in write.applied) then Deleted(e) else e
  {
    var left := SlotLeft(read, write, e, Deleted(e), j);
    assert left == if read.Works? && (write.Works? || 32 * j in write.applied) then Deleted(e) else e;
  }

  /** On a device that serves every request. */
  lemma DeleteSlot(info: BootSectorInfo, s: State, u: View, k: nat, x: nat, j: nat)
    requires Sound(info, s)
    requires k < |Root(info, s)| && x < info.sectorsPerCluster && j < SLOTS_PER_SECTOR && SlotIndex(info, k, x, j) < |AllSlots(info, s)|
    requires Tame(info, s, AllSlots(info, s)[SlotIndex(info, k, x, j)])
    requires WellFormed(info, u) && Mirrored(u) && u.clusters == s.v.clusters
    requires Freed(Fat(s.v), Fat(u), Walked(WalkFrom(s, Head(AllSlots(info, s)[SlotIndex(info, k, x, j)]))))
    ensures var q, cs := SlotIndex(info, k, x, j), Root(info, s);
      var e := AllSlots(info, s)[q];
      && cs[k] < |u.clusters| && x < |u.clusters[cs[k]]|
      && var t := State(WithSlot(u, cs, k, x, j, Deleted(e)), FreedOwn(s, Head(e)));
      && Sound(info, t) && SlotRewritten(info, s, t, q, Deleted(e)) && Fat(t.v) == Fat(u) && (Anchored(info, s) ==> Anchored(info, t))
  {
    hide AllSlots, Sound, Fat, Deleted, FreedOwn, WalkFrom, Root, Staged, HangLater, Anchored, Spare, Aside, WithSlot, Overlaid, SlotsKept,
      SlotIndex, Freed, Head;
    var q := SlotIndex(info, k, x, j);
    var e := AllSlots(info, s)[q];
    FreeStaged(info, s, u, q);
    AsideSpare(info, s, Head(e));
    DeletedParses(e);
    SlotWritten(info, s, u, FreedOwn(s, Head(e)), k, x, j, Deleted(e), Aside(s, Head(e)), []);
    SameCopies(u, WithSlot(u, Root(info, s), k, x, j, Deleted(e)));
  }

  // ----- what is left of a chain

  /** Which entries of a chain read as free after a freeing that came to its `n`-th cluster and left `y` there. */
  lemma ErasedPart(fat: seq<nat>, fat': seq<nat>, head: nat, cs: seq<nat>, n: nat, y: nat, i: nat)
    requires IsChain(fat, head, cs) && FreedUpTo(fat, fat', cs, n, y) && i < |cs|
    ensures cs[i] < |fat'| && (fat'[cs[i]] == 0 <==> i < n || (i == n && y == 0))
  {
    hide IsChain, TornFrom;
    ChainNotFree(fat, head, cs, cs[i]);
  }

  /** What erasing an entry, done or not, leaves of it: of its chain the first `n` clusters are free, the next one reads
      as `y`, the rest is as it was; and the slot is live or marked. A live slot names a free cluster exactly
      when some write of the freeing got to the first entry and none to the slot; a marked one leaves
      behind, in use and named by no slot, exactly the clusters from where the freeing stopped. */
  ghost predicate Erased(info: BootSectorInfo, s: State, w: View, q: nat, n: nat, y: nat, left: Slot) {
    && q < |AllSlots(info, s)|
    && var e := AllSlots(info, s)[q];
    var cs := WalkFrom(s, Head(e));
    && Kept(info, s, w, FreedOwn(s, Head(e)), q) && AllSlots(info, State(w, s.own)) == AllSlots(info, s)[q := left]
    && FreedUpTo(Fat(s.v), Fat(w), cs, n, y) && (left == e || left == Deleted(e))
    && (Head(e) != 0 ==>
          && Head(e) < |Fat(w)|
          && (Head(left) == Head(e) && Fat(w)[Head(e)] == 0 <==> left == e && (0 < n || y == 0))
          && forall i :: 0 <= i < |cs| && cs[i] < |Fat(w)| ==> (Fat(w)[cs[i]] != 0 <==> n < i || (i == n && y != 0)))
  }

  lemma FreeingElsewhere(info: BootSectorInfo, s: State, d: seq<Sector>, cs: seq<nat>)
    requires WellFormed(info, s.v) && Freeing(info, s.v, d, cs)
    ensures info.Fits(|d|) && Elsewhere(info, s, ViewOf(info, d), cs)
  {
    hide ViewOf, TornFrom, BootSectorInfo.Fits;
    ViewWellFormed(info, d);
  }

  lemma EraseApart(info: BootSectorInfo, s: State, q: nat)
    requires Sound(info, s) && q < |AllSlots(info, s)| && Tame(info, s, AllSlots(info, s)[q])
    ensures var h := Head(AllSlots(info, s)[q]); Apart(info, s, FreedOwn(s, h), q, WalkFrom(s, h))
  {
    hide Mirrored, Sized, AllSlots, Fat, IsChain, Head, WalkFrom, Forest, HeadsOwned, Anchored;
    var h := Head(AllSlots(info, s)[q]);
    AsideSpare(info, s, h);
    forall i | 0 <= i < |AllSlots(info, s)| && i != q && Head(AllSlots(info, s)[i]) != 0 ensures Head(AllSlots(info, s)[i]) in FreedOwn(s, h) {
      HeadElsewhere(info, s, q, i);
      assert Head(AllSlots(info, s)[i]) != Aside(s, h);
    }
    HangHead(info, s);
    SlotHead(info, s, q);
    forall g | g in FreedOwn(s, h) ensures Disjoint(s.own[g], WalkFrom(s, h)) {
      forall c | c in s.own[g] ensures c !in WalkFrom(s, h) { FreedElsewhere(info, s, h, g, c); }
    }
  }

  lemma FreeingKept(dev: BlkDevice, info: BootSectorInfo, s: State, k: nat, x: nat, j: nat, from: nat)
    requires Sound(info, s) && k < |Root(info, s)| && x < info.sectorsPerCluster && j < SLOTS_PER_SECTOR
    requires SlotIndex(info, k, x, j) < |AllSlots(info, s)| && Tame(info, s, AllSlots(info, s)[SlotIndex(info, k, x, j)])
    requires info.Fits(|dev.disk|) && FreeingSince(dev, info, s.v, WalkFrom(s, Head(AllSlots(info, s)[SlotIndex(info, k, x, j)])), from)
    ensures var q := SlotIndex(info, k, x, j);
      var h := Head(AllSlots(info, s)[q]);
      && KeptAllSince(info, s, dev.history, from, FreedOwn(s, h), q)
      && Elsewhere(info, s, Vol(dev, info), WalkFrom(s, h)) && Apart(info, s, FreedOwn(s, h), q, WalkFrom(s, h))
  {
    hide Sound, ViewOf, Freeing, Elsewhere, Kept, Apart, AllSlots, SlotIndex, WellFormed, Fat, Head, WalkFrom, FreedOwn, Tame;
    var q := SlotIndex(info, k, x, j);
    var h := Head(AllSlots(info, s)[q]);
    var cs := WalkFrom(s, h);
    EraseApart(info, s, q);
    FreeingElsewhere(info, s, dev.disk, cs);
    forall t | from <= t < |dev.history| ensures info.Fits(|dev.history[t]|) && Kept(info, s, ViewOf(info, dev.history[t]), FreedOwn(s, h), q) {
      FreeingElsewhere(info, s, dev.history[t], cs);
      KeptBefore(info, s, ViewOf(info, dev.history[t]), FreedOwn(s, h), k, x, j, cs);
    }
  }

  lemma ErasedBy(info: BootSectorInfo, s: State, u: View, k: nat, x: nat, j: nat, n: nat, y: nat, left: Slot)
    requires Sound(info, s) && k < |Root(info, s)| && x < info.sectorsPerCluster && j < SLOTS_PER_SECTOR
    requires SlotIndex(info, k, x, j) < |AllSlots(info, s)| && Tame(info, s, AllSlots(info, s)[SlotIndex(info, k, x, j)])
    requires var e := AllSlots(info, s)[SlotIndex(info, k, x, j)];
      && Elsewhere(info, s, u, WalkFrom(s, Head(e))) && Apart(info, s, FreedOwn(s, Head(e)), SlotIndex(info, k, x, j), WalkFrom(s, Head(e)))
      && FreedUpTo(Fat(s.v), Fat(u), WalkFrom(s, Head(e)), n, y) && (left == e || left == Deleted(e))
    ensures Root(info, s)[k] < |u.clusters| && x < |u.clusters[Root(info, s)[k]]|
    ensures Erased(info, s, WithSlot(u, Root(info, s), k, x, j, left), SlotIndex(info, k, x, j), n, y, left)
  {
    hide Sound, ViewOf, Elsewhere, Kept, Apart, AllSlots, SlotIndex, WellFormed, Fat, Head, WalkFrom, FreedOwn, FreedUpTo, WithSlot, IsChain, Tame;
    var q := SlotIndex(info, k, x, j);
    var e := AllSlots(info, s)[q];
    var h := Head(e);
    var cs := WalkFrom(s, h);
    KeptWith(info, s, u, FreedOwn(s, h), k, x, j, left, cs);
    WalkFromIs(info, s, q);
    DeletedParses(e);
    if h != 0 {
      WalkHead(Fat(s.v), h, cs);
      ErasedPart(Fat(s.v), Fat(u), h, cs, n, y, 0);
      forall i | 0 <= i < |cs| ensures cs[i] < |Fat(u)| && (Fat(u)[cs[i]] == 0 <==> i < n || (i == n && y == 0)) {
        ErasedPart(Fat(s.v), Fat(u), h, cs, n, y, i);
      }
    }
  }

  /** Frees the chain of an entry and then marks its slot, whether or not the freeing succeeded. With any device, after
      every write all other chains are whole and all other slots stand for the files they did; what is left
      of the entry itself is as `Erased` says. A freeing that strays from entry 0 does what its trace says. */
  method EraseEntry(dev: BlkDevice, info: BootSectorInfo, first: nat, slotSector: nat, slotOffset: nat, ghost own: Own,
                    ghost k: nat, ghost x: nat, ghost j: nat)
    returns (ok: bool, ghost n: nat, ghost y: nat, ghost left: Slot, ghost at: nat, ghost tr: Trace, ghost mid: seq<Sector>)
    requires info.Fits(|dev.disk|) && Sound(info, State(Vol(dev, info), own))
    requires SlotAt(info, State(Vol(dev, info), own), k, x, j, slotSector, slotOffset)
    requires first == Head(AllSlots(info, State(Vol(dev, info), own))[SlotIndex(info, k, x, j)])
    modifies dev
    ensures |dev.disk| == |old(dev.disk)| && old(dev.history) <= dev.history && 1 <= info.numFats
    ensures var s, q := State(old(Vol(dev, info)), own), SlotIndex(info, k, x, j);
      var e := AllSlots(info, s)[q];
      && (Tame(info, s, e) ==>
            && left == (if dev.script(at).Works? && (dev.script(at + 1).Works? || 32 * j in dev.script(at + 1).applied) then Deleted(e) else e)
            && (ok ==> left == Deleted(e) && 0 < n && y == LinkAt(s.v, WalkFrom(s, first), n))
            && KeptAllSince(info, s, dev.history, |old(dev.history)|, FreedOwn(s, first), q)
            && Erased(info, s, Vol(dev, info), q, n, y, left))
      && (Tame(info, s, e) && dev.Reliable() ==>
            && var t := State(Vol(dev, info), FreedOwn(s, first));
            && ok && Sound(info, t) && SlotRewritten(info, s, t, q, Deleted(e)) && HintStays(info, s.v, t.v)
            && (Anchored(info, s) ==> Anchored(info, t)) && Freed(Fat(s.v), Fat(t.v), Walked(WalkFrom(s, first))))
    ensures dev.Reliable() ==>
      && TraceDone(info, tr, old(dev.disk), mid, first, ok)
      && slotSector < |mid| == |dev.disk| && dev.disk == mid[slotSector := Splice(mid[slotSector], 32 * j, left)]
  {
    hide BootSectorInfo.Fits, ViewOf, Sound, Fat, BlkDevice.Reliable, HintStays, WellFormed, ClusterStart, AllSlots, Root, SlotRewritten,
      FreedOwn, Deleted, Overlaid, WalkFrom, SlotIndex, WithSlot, Walk, Freed, Mirrored, Walked, Freeing, FreedUpTo, Kept, KeptAllSince, Erased,
      TraceDone, Elsewhere, Apart, SlotLeft, Splice, Intact, Tame, Anchored, SlotOf, Head;
    ghost var s, q, from := State(Vol(dev, info), own), SlotIndex(info, k, x, j), |dev.history|;
    ghost var e, cs := AllSlots(info, s)[q], WalkFrom(s, first);
    ghost var tame := Tame(info, s, e);
    if tame { WalkFromIs(info, s, q); }
    SlotOnDisk(info, s, dev.disk, k, x, j);
    ok, n, y, tr := FreeChain(dev, info, first, cs);
    mid, at := dev.disk, dev.clock;
    ghost var u, before := Vol(dev, info), dev.history;
    ClusterLength(info, old(dev.disk), mid, Root(info, s)[k]);
    if tame {
      FreeingKept(dev, info, s, k, x, j, from);
      KeptWith(info, s, u, FreedOwn(s, first), k, x, j, e, cs);
    }
    var marked;
    marked, left := PatchSlot(dev, info, slotSector, slotOffset, 0, [DELETED], Root(info, s), k, x, j);
    if tame {
      DeletedParses(e);
      MarkLeaves(dev.script(at), dev.script(at + 1), e, j);
      ErasedBy(info, s, u, k, x, j, n, y, left);
      ErasedKept(info, s, Vol(dev, info), q, n, y, left);
      KeptMore(info, s, before, dev.history, dev.disk, from, FreedOwn(s, first), q);
      if dev.Reliable() {
        SoundMirrored(info, s);
        IntactParts(info, s.v, u);
        DeleteSlot(info, s, u, k, x, j);
        HintStaysThrough(info, s.v, u, Vol(dev, info));
      }
    }
    ok := ok && marked;
  }

  lemma ErasedKept(info: BootSectorInfo, s: State, w: View, q: nat, n: nat, y: nat, left: Slot)
    requires Erased(info, s, w, q, n, y, left)
    ensures q < |AllSlots(info, s)| && Kept(info, s, w, FreedOwn(s, Head(AllSlots(info, s)[q])), q)
  {
    hide AllSlots, Kept, Head, FreedUpTo, Fat;
  }

  lemma IntactParts(info: BootSectorInfo, v: View, u: View)
    requires WellFormed(info, v) && WellFormed(info, u) && Intact(info, v, u) && Mirrored(v)
    ensures Mirrored(u) && u.clusters == v.clusters && HintStays(info, v, u)
  {
    hide Mirrored, HintStays, WellFormed;
  }

  lemma SoundMirrored(info: BootSectorInfo, s: State)
    requires Sound(info, s)
    ensures Mirrored(s.v)
  {
    hide Mirrored, Forest, AllSlots, HeadsOwned, HangOk, Fat, Sized;
  }

  /** The disk has the slot's sector. */
  lemma SlotOnDisk(info: BootSectorInfo, s: State, d: seq<Sector>, k: nat, x: nat, j: nat)
    requires info.Fits(|d|) && s.v == ViewOf(info, d) && Sound(info, s)
    requires k < |Root(info, s)| && x < info.sectorsPerCluster && j < SLOTS_PER_SECTOR && SlotIndex(info, k, x, j) < |AllSlots(info, s)|
    ensures Root(info, s)[k] < info.Entries() && x < |s.v.clusters[Root(info, s)[k]]|
    ensures SlotOf(s.v.clusters[Root(info, s)[k]][x], j) == AllSlots(info, s)[SlotIndex(info, k, x, j)]
  {
    hide ViewOf, BootSectorInfo.Fits, SlotIndex, Slots, ChainSectors, HeadsOwned, Forest, Mirrored, Fat, IsChain, WithSlot;
    RootParts(info, s);
    SlotOverwritten(info, s.v, Root(info, s), k, x, j, seq(32, i => 0));
  }
}
