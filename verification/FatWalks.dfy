/** Walks along the FAT: to the last cluster of a chain, and along a chain while freeing it. Both start wherever a
    slot says, so they are described for every start; what they do to a chain is one case of that. */
module FatWalks {
  import opened Bytes
  import opened FatLayout
  import opened FatChains
  import opened Volume
  import opened BlockDevice
  import opened FatAllocator
  import opened FatChainGrowth
  import opened FileSystem

  // ----- chains, and what hangs on entry 0

  /** The clusters a walk from `first` goes through: those of a chain, or entry 0, where an entry that names no
      cluster starts it, and the chain that hangs there. An entry 0 that points at itself is walked for ever. */
  ghost predicate Walk(fat: seq<nat>, first: nat, cs: seq<nat>) {
    || IsChain(fat, first, cs)
    || (&& first == 0 && 0 < |fat| && 0 < |cs| && cs[0] == 0
        && if |cs| == 1 then IsEndOfChain(fat[0]) || fat[0] == 0 else fat[0] == cs[1] && IsChain(fat, cs[1], cs[1..]))
  }

  ghost predicate Loops(fat: seq<nat>, first: nat) {
    first == 0 && 0 < |fat| && fat[0] == 0
  }

  lemma WalkStep(fat: seq<nat>, first: nat, cs: seq<nat>, i: nat)
    requires Small(fat) && Walk(fat, first, cs) && i < |cs|
    ensures cs[i] < |fat| && (Loops(fat, first) ==> cs == [0])
    ensures !Loops(fat, first) ==> (IsEndOfChain(fat[cs[i]]) <==> i + 1 == |cs|)
    ensures i + 1 < |cs| ==> fat[cs[i]] == cs[i + 1]
  {
    hide IsChain;
    if IsChain(fat, first, cs) {
      ChainStep(fat, first, cs, i);
      ChainStep(fat, first, cs, 0);
      ChainNonzero(fat, first, cs);
    } else if 0 < i {
      ChainStep(fat, cs[1], cs[1..], i - 1);
      ChainNonzero(fat, cs[1], cs[1..]);
    } else if 1 < |cs| {
      ChainStep(fat, cs[1], cs[1..], 0);
      ChainNonzero(fat, cs[1], cs[1..]);
    }
  }

  lemma ChainNonzero(fat: seq<nat>, first: nat, cs: seq<nat>)
    requires IsChain(fat, first, cs)
    ensures 2 <= first < |fat|
  {
    assert Follows(fat, cs, 0);
  }

  lemma WalkHead(fat: seq<nat>, first: nat, cs: seq<nat>)
    requires Walk(fat, first, cs)
    ensures 0 < |cs| && cs[0] == first
  {
  }

  lemma WalkDistinct(fat: seq<nat>, first: nat, cs: seq<nat>)
    requires Small(fat) && Walk(fat, first, cs)
    ensures Distinct(cs)
  {
    hide IsChain, Follows;
    if IsChain(fat, first, cs) {
      ChainDistinct(fat, first, cs);
    } else if 1 < |cs| {
      ChainDistinct(fat, cs[1], cs[1..]);
      forall i, j | 0 <= i < j < |cs| ensures cs[i] != cs[j] {
        assert cs[1..][j - 1] == cs[j] && cs[j] in cs[1..];
        ChainNotFree(fat, cs[1], cs[1..], cs[j]);
        if 0 < i { assert cs[1..][i - 1] == cs[i]; }
      }
    }
  }

  // ----- to the last cluster

  /** Where a walk of at most `n` steps from `c` ends; none if it comes to a cluster whose entry the disk lacks. */
  function WalkEnd(info: BootSectorInfo, d: seq<Sector>, c: nat, n: nat): (r: Option<nat>)
    decreases n
  {
    if n == 0 then Some(c) else
    match NextOf(info, d, c)
    case None => None
    case Some(y) => if IsEndOfChain(y) then Some(c) else WalkEnd(info, d, y, n - 1)
  }

  /** A walk along a chain ends in its last cluster, or as many clusters on as it has steps. */
  lemma {:induction false} WalkEndIs(info: BootSectorInfo, d: seq<Sector>, first: nat, cs: seq<nat>, i: nat, n: nat)
    requires info.Fits(|d|) && Walk(Fat(ViewOf(info, d)), first, cs) && i < |cs|
    ensures WalkEnd(info, d, cs[i], n) == Some(cs[Min(|cs| - 1, i + n)])
    decreases n
  {
    hide ViewOf, BootSectorInfo.Fits, Walk, NextOf, Fat;
    var fat := Fat(ViewOf(info, d));
    if 0 < n {
      ViewWellFormed(info, d);
      WellFormedFat(info, ViewOf(info, d));
      WalkStep(fat, first, cs, i);
      NextCovered(info, d, cs[i]);
      if Loops(fat, first) {
        WalkEndIs(info, d, first, cs, i, n - 1);
      } else if i + 1 < |cs| {
        WalkEndIs(info, d, first, cs, i + 1, n - 1);
      }
    }
  }

  /** Walks to the last cluster of a chain, or to the 1025th of a longer one; it gives up where a read fails. */
  method WalkToLast(dev: BlkDevice, info: BootSectorInfo, first: nat) returns (r: Option<nat>)
    requires info.Fits(|dev.disk|)
    modifies dev`clock
    ensures r.Some? || dev.Reliable() ==> r == WalkEnd(info, dev.disk, first, WALK_CAP)
  {
    hide BootSectorInfo.Fits, BlkDevice.Reliable, NextOf;
    var last, i := first, 0;
    while i < WALK_CAP
      invariant 0 <= i <= WALK_CAP && WalkEnd(info, dev.disk, first, WALK_CAP) == WalkEnd(info, dev.disk, last, WALK_CAP - i)
    {
      var next := NextClusterInChain(dev, info, last);
      if next.None? {
        return None;
      }
      if IsEndOfChain(next.value) {
        return Some(last);
      }
      last := next.value;
      i := i + 1;
    }
    return Some(last);
  }

  // ----- the same in numbers

  /** The low 28 bits of the little-endian word that stands for `c` in the first copy, if the disk has it. */
  function WordOf(info: BootSectorInfo, d: seq<Sector>, c: nat): (r: Option<nat>) {
    if 4 * c < 0x1_0000_0000 && info.fatStart + c / 128 < |d| then
      var s, at := d[info.fatStart + c / 128], 4 * (c % 128);
      var b0, b1, b2, b3 := s[at] as int, s[at + 1] as int, s[at + 2] as int, s[at + 3] as int;
      Some(b0 + 0x100 * b1 + 0x1_0000 * b2 + 0x100_0000 * (b3 % 16))
    else None
  }

  lemma WordIs(info: BootSectorInfo, d: seq<Sector>, c: nat)
    ensures NextOf(info, d, c) == WordOf(info, d, c)
  {
    hide EntryAt;
    if 4 * c < 0x1_0000_0000 && info.fatStart + c / 128 < |d| {
      WordBytes(d[info.fatStart + c / 128], c % 128);
    }
  }

  lemma WordBytes(s: Sector, i: nat)
    requires i < 128
    ensures EntryAt(s, i) % MASK28
         == (s[4 * i] as int) + 0x100 * (s[4 * i + 1] as int) + 0x1_0000 * (s[4 * i + 2] as int) + 0x100_0000 * (s[4 * i + 3] as int % 16)
  {
    var w := s[4 * i..4 * i + 4];
    U32Bytes(w);
    var q, r := w[3] as int / 16, w[3] as int % 16;
    assert U32(w) == 0x1000_0000 * q + ((w[0] as int) + 0x100 * (w[1] as int) + 0x1_0000 * (w[2] as int) + 0x100_0000 * r);
  }

  /** A walk ends at `c` if its word is 0x0FFFFFF8 or more, and otherwise goes on where the word says. */
  lemma WalkByNumbers(info: BootSectorInfo, d: seq<Sector>, c: nat, n: nat)
    requires 0 < n
    ensures WalkEnd(info, d, c, n) == match WordOf(info, d, c)
      case None => None
      case Some(v) => if 0x0FFF_FFF8 <= v then Some(c) else WalkEnd(info, d, v, n - 1)
  {
    hide NextOf, WordOf;
    WordIs(info, d, c);
  }

  /** The clusters a walk of at most `n` clusters from `c` comes to. */
  function Visits(info: BootSectorInfo, d: seq<Sector>, c: nat, n: nat): (cs: seq<nat>)
    decreases n
  {
    if n == 0 then [] else
    [c] + match WordOf(info, d, c)
      case None => []
      case Some(v) => if 0x0FFF_FFF8 <= v then [] else Visits(info, d, v, n - 1)
  }

  /** A chain on the disk: clusters the FAT covers, each with the next one's number for its word, and the last with
      0x0FFFFFF8 or more. */
  ghost predicate ChainOnDisk(info: BootSectorInfo, d: seq<Sector>, first: nat, cs: seq<nat>) {
    && 0 < |cs| && cs[0] == first
    && forall i :: 0 <= i < |cs| ==> LinkOnDisk(info, d, cs, i)
  }

  ghost predicate LinkOnDisk(info: BootSectorInfo, d: seq<Sector>, cs: seq<nat>, i: nat)
    requires i < |cs|
  {
    && 2 <= cs[i] < 128 * info.fatSize && WordOf(info, d, cs[i]).Some?
    && var v := WordOf(info, d, cs[i]).value;
    if i + 1 < |cs| then v == cs[i + 1] else 0x0FFF_FFF8 <= v
  }

  lemma ChainIff(info: BootSectorInfo, d: seq<Sector>, first: nat, cs: seq<nat>)
    requires info.Fits(|d|)
    ensures IsChain(Fat(ViewOf(info, d)), first, cs) <==> ChainOnDisk(info, d, first, cs)
  {
    hide ViewOf, WordOf, NextOf, BootSectorInfo.Fits, Fat;
    ViewWellFormed(info, d);
    WellFormedFat(info, ViewOf(info, d));
    forall i | 0 <= i < |cs| ensures Follows(Fat(ViewOf(info, d)), cs, i) <==> LinkOnDisk(info, d, cs, i) {
      if cs[i] < info.Entries() {
        NextCovered(info, d, cs[i]);
        WordIs(info, d, cs[i]);
      }
    }
  }

  /** What is walked of a chain is its first 1024 clusters: what a delete frees, a reader reads, and a lookup searches. */
  lemma VisitsWalked(info: BootSectorInfo, d: seq<Sector>, first: nat, cs: seq<nat>)
    requires info.Fits(|d|) && ChainOnDisk(info, d, first, cs)
    ensures Visits(info, d, first, 1024) == Walked(cs)
  {
    hide ViewOf, WordOf, BootSectorInfo.Fits, ChainOnDisk;
    ChainIff(info, d, first, cs);
    ViewWellFormed(info, d);
    VisitsFrom(info, d, first, cs, 0, 1024);
    assert cs[0..] == cs;
  }

  lemma {:induction false} VisitsFrom(info: BootSectorInfo, d: seq<Sector>, first: nat, cs: seq<nat>, i: nat, n: nat)
    requires info.Fits(|d|) && ChainOnDisk(info, d, first, cs) && i < |cs|
    ensures Visits(info, d, cs[i], n) == cs[i..][..Min(|cs| - i, n)]
    decreases n
  {
    hide WordOf, BootSectorInfo.Fits;
    if 0 < n {
      assert LinkOnDisk(info, d, cs, i);
      if i + 1 < |cs| {
        assert LinkOnDisk(info, d, cs, i + 1);
        FewEntries(info, |d|);
        VisitsFrom(info, d, first, cs, i + 1, n - 1);
        assert cs[i..] == [cs[i]] + cs[i + 1..];
      }
    }
  }

  lemma FewEntries(info: BootSectorInfo, sectors: nat)
    requires info.Fits(sectors)
    ensures 128 * info.fatSize < 0x0FFF_FFF8
  {
  }

  // ----- freeing

  /** `fat'` is `fat` with the first `n` clusters of `cs` freed; the write of the next one may have left `x` there. */
  ghost predicate FreedUpTo(fat: seq<nat>, fat': seq<nat>, cs: seq<nat>, n: nat, x: nat) {
    && |fat'| == |fat| && n <= |cs|
    && (forall c :: 0 <= c < |fat| && c !in cs ==> fat'[c] == fat[c])
    && (forall j :: 0 <= j < |cs| && j != n && cs[j] < |fat| ==> fat'[cs[j]] == if j < n then 0 else fat[cs[j]])
    && (n < |cs| && cs[n] < |fat| ==> fat'[cs[n]] == x && (x == fat[cs[n]] || TornFrom(fat[cs[n]], 0, x)))
  }

  lemma FreedNone(fat: seq<nat>)
    ensures Freed(fat, fat, [])
  {
  }

  /** Freeing one more cluster of a walk, or leaving `x` there. */
  lemma FreedNext(fat: seq<nat>, fat': seq<nat>, first: nat, cs: seq<nat>, p: nat, x: nat)
    requires Small(fat) && Walk(fat, first, cs) && p < |cs| && Freed(fat, fat', cs[..p])
    ensures cs[p] < |fat| == |fat'| && fat'[cs[p]] == fat[cs[p]]
    ensures x == fat[cs[p]] || TornFrom(fat[cs[p]], 0, x) ==> FreedUpTo(fat, fat'[cs[p] := x], cs, p, x)
    ensures Freed(fat, fat'[cs[p] := 0], cs[..p + 1])
  {
    hide Walk, TornFrom;
    WalkDistinct(fat, first, cs);
    WalkStep(fat, first, cs, p);
    assert cs[..p + 1] == cs[..p] + [cs[p]];
  }

  /** A walk that was freed up to some place. */
  lemma FreedPart(fat: seq<nat>, fat': seq<nat>, first: nat, cs: seq<nat>, n: nat)
    requires Small(fat) && Walk(fat, first, cs) && n <= |cs| && Freed(fat, fat', cs[..n])
    ensures FreedUpTo(fat, fat', cs, n, if n < |cs| && cs[n] < |fat| then fat[cs[n]] else 0)
  {
    hide Walk, TornFrom;
    WalkDistinct(fat, first, cs);
    assert forall j :: 0 <= j < n ==> cs[j] in cs[..n];
    if n < |cs| { assert cs[n] !in cs[..n]; }
  }

  /** Entry 0 pointing at itself stays free however often it is freed. */
  lemma FreedLoop(fat: seq<nat>, fat': seq<nat>, first: nat)
    requires Loops(fat, first) && (Freed(fat, fat', []) || Freed(fat, fat', [0]))
    ensures Freed(fat, fat', []) && Freed(fat, fat', [0])
  {
  }

  /** Whatever a freeing was interrupted in: no data has changed, no entry outside `cs`, and of `cs` a first part is
      free, the rest as it was, and between them at most one entry torn. */
  ghost predicate Freeing(info: BootSectorInfo, v: View, d: seq<Sector>, cs: seq<nat>) {
    && info.Fits(|d|) && ViewOf(info, d).clusters == v.clusters
    && exists n: nat, x: nat :: FreedUpTo(Fat(v), Fat(ViewOf(info, d)), cs, n, x)
  }

  ghost predicate FreeingSince(dev: BlkDevice, info: BootSectorInfo, v: View, cs: seq<nat>, from: nat)
    reads dev`disk, dev`history
  {
    Freeing(info, v, dev.disk, cs) && forall t :: from <= t < |dev.history| ==> Freeing(info, v, dev.history[t], cs)
  }

  /** The first `p` clusters of the walk freed. */
  ghost predicate FreedTo(info: BootSectorInfo, v: View, d: seq<Sector>, first: nat, cs: seq<nat>, p: nat) {
    && info.Fits(|d|) && WellFormed(info, v) && Walk(Fat(v), first, cs) && p <= |cs|
    && ViewOf(info, d).clusters == v.clusters && Freed(Fat(v), Fat(ViewOf(info, d)), cs[..p])
  }

  lemma FreedToFreeing(info: BootSectorInfo, v: View, d: seq<Sector>, first: nat, cs: seq<nat>, p: nat)
    requires FreedTo(info, v, d, first, cs, p)
    ensures Freeing(info, v, d, cs)
    ensures FreedUpTo(Fat(v), Fat(ViewOf(info, d)), cs, p, if p < |cs| && cs[p] < |Fat(v)| then Fat(v)[cs[p]] else 0)
  {
    hide ViewOf, BootSectorInfo.Fits, Walk, FreedUpTo, Freed, Fat;
    WellFormedFat(info, v);
    FreedPart(Fat(v), Fat(ViewOf(info, d)), first, cs, p);
  }

  /** What a write of the next entry leaves. */
  lemma FreeingStep(info: BootSectorInfo, v: View, d: seq<Sector>, d': seq<Sector>, first: nat, cs: seq<nat>, p: nat, whole: bool)
    requires FreedTo(info, v, d, first, cs, p) && p < |cs| && cs[p] < info.Entries() && WellFormed(info, ViewOf(info, d))
    requires EntryLeft(info, ViewOf(info, d), d', cs[p], 0, whole)
    ensures Freeing(info, v, d', cs) && |Fat(ViewOf(info, d'))| == info.Entries()
    ensures FreedUpTo(Fat(v), Fat(ViewOf(info, d')), cs, p, Fat(ViewOf(info, d'))[cs[p]])
    ensures Fat(ViewOf(info, d')) == Fat(ViewOf(info, d))[cs[p] := 0] ==> FreedTo(info, v, d', first, cs, p + 1)
  {
    hide ViewOf, BootSectorInfo.Fits, Mixed, WellFormed, Walk, FreedUpTo, Freed, Patched, TornFrom;
    var u, w, c := ViewOf(info, d), ViewOf(info, d'), cs[p];
    WellFormedFat(info, v);
    WellFormedFat(info, u);
    var x: nat :| Mixed(u.fats[0][c], Patched(u.fats[0][c], 0), x, whole) && Fat(w) == Fat(u)[c := x % MASK28];
    TornSo(u.fats[0][c], 0, x, whole);
    FreedNext(Fat(v), Fat(u), first, cs, p, x % MASK28);
  }

  lemma FreeingOn(dev: BlkDevice, info: BootSectorInfo, v: View, d: seq<Sector>, h: nat, first: nat, cs: seq<nat>, p: nat, from: nat)
    requires FreedTo(info, v, d, first, cs, p) && p < |cs| && cs[p] < info.Entries() && WellFormed(info, ViewOf(info, d))
    requires from <= h <= |dev.history| && forall t :: from <= t < h ==> Freeing(info, v, dev.history[t], cs)
    requires EntryLeft(info, ViewOf(info, d), dev.disk, cs[p], 0, dev.WholeWords())
    requires EntryLeftSince(info, ViewOf(info, d), dev.history, h, cs[p], 0, dev.WholeWords())
    ensures FreeingSince(dev, info, v, cs, from)
  {
    hide Freeing, EntryLeft, ViewOf, WellFormed, FreedTo, FreedUpTo;
    FreeingStep(info, v, d, dev.disk, first, cs, p, dev.WholeWords());
    forall t | from <= t < |dev.history| ensures Freeing(info, v, dev.history[t], cs) {
      if h <= t { FreeingStep(info, v, d, dev.history[t], first, cs, p, dev.WholeWords()); }
    }
  }

  /** At every write of a freeing, every chain that shares no cluster with it is whole and holds what it held. */
  lemma FreeingKeepsChain(info: BootSectorInfo, v: View, d: seq<Sector>, cs: seq<nat>, head: nat, ds: seq<nat>)
    requires Freeing(info, v, d, cs) && IsChain(Fat(v), head, ds) && Disjoint(ds, cs)
    ensures ChainKept(info, v, d, head, ds)
  {
    hide ViewOf, BootSectorInfo.Fits, Fat;
    ChainFrame(Fat(v), Fat(ViewOf(info, d)), head, ds);
  }

  // ----- a freeing step by step, wherever it starts

  /** The clusters whose entries a freeing zeroed, in order, and the disk before the first and after each. */
  datatype Trace = Trace(path: seq<nat>, disks: seq<seq<Sector>>)

  /** Zeroing the entry of `c`: the words the driver takes for it lose their low 28 bits, as far as the disk has them. */
  ghost predicate Zeroed(info: BootSectorInfo, d: seq<Sector>, d': seq<Sector>, c: nat) {
    if 4 * c < U32_LIMIT then WordsWritten(info, d, d', c, 0, info.numFats) else d' == d
  }

  /** The disk has the words of `c` in every copy. */
  ghost predicate Reachable(info: BootSectorInfo, d: seq<Sector>, c: nat)
    requires 1 <= info.numFats
  {
    4 * c < U32_LIMIT && FatSector(info, info.numFats - 1, c) < |d|
  }

  /** What follows `c`, on a disk that has its words. */
  ghost predicate LeadsTo(info: BootSectorInfo, d: seq<Sector>, c: nat, next: nat)
    requires 1 <= info.numFats
  {
    Reachable(info, d, c) && NextOf(info, d, c) == Some(next) && !IsEndOfChain(next)
  }

  ghost predicate TraceStep(info: BootSectorInfo, d: seq<Sector>, d': seq<Sector>, c: nat, next: nat)
    requires 1 <= info.numFats
  {
    LeadsTo(info, d, c, next) && Zeroed(info, d, d', c)
  }

  /** A freeing under way, each link read before it is zeroed: the last of `path` is where it has come to. */
  ghost predicate Tracing(info: BootSectorInfo, path: seq<nat>, disks: seq<seq<Sector>>)
    requires 1 <= info.numFats
  {
    && 0 < |path| == |disks|
    && forall i :: 0 <= i < |path| - 1 ==> TraceStep(info, disks[i], disks[i + 1], path[i], path[i + 1])
  }

  /** A whole freeing: it stops at a write the disk has no sector for, at an end mark, or after 1024 clusters. */
  ghost predicate Traced(info: BootSectorInfo, tr: Trace)
    requires 1 <= info.numFats
  {
    var n := |tr.path| - 1;
    && 0 <= n < WALK_CAP && |tr.disks| == n + 2
    && Tracing(info, tr.path, tr.disks[..n + 1])
    && Zeroed(info, tr.disks[n], tr.disks[n + 1], tr.path[n])
    && (n + 1 < WALK_CAP ==> forall y :: !LeadsTo(info, tr.disks[n], tr.path[n], y))
  }

  /** The reliable part of what freeing one entry does to the view. */
  ghost predicate Intact(info: BootSectorInfo, v: View, u: View)
    requires WellFormed(info, v) && WellFormed(info, u)
  {
    u.clusters == v.clusters && HintStays(info, v, u) && (Mirrored(v) ==> Mirrored(u))
  }

  lemma IntactOn(info: BootSectorInfo, v: View, u: View, c: nat)
    requires WellFormed(info, v) && WellFormed(info, u) && Intact(info, v, u) && c < info.Entries()
    ensures WellFormed(info, WriteEntry(info, u, c, 0)) && Intact(info, v, WriteEntry(info, u, c, 0))
    ensures Fat(WriteEntry(info, u, c, 0)) == Fat(u)[c := 0]
  {
    hide HintStays, Mirrored, WriteEntry, Fat;
    WriteEntryFat(info, u, c, 0);
    OneWriteHint(info, u, c, 0);
    HintStaysThrough(info, v, u, WriteEntry(info, u, c, 0));
  }

  lemma IntactSame(info: BootSectorInfo, v: View)
    requires WellFormed(info, v)
    ensures Intact(info, v, v)
  {
    hide WellFormed, HintStays;
    HintStaysSame(info, v, v);
  }

  /** A whole freeing from `first`, of `d` into `d'`; `ok` says that its last write succeeded. */
  ghost predicate TraceDone(info: BootSectorInfo, tr: Trace, d: seq<Sector>, d': seq<Sector>, first: nat, ok: bool)
    requires 1 <= info.numFats
  {
    && Traced(info, tr) && tr.path[0] == first && tr.disks[0] == d && tr.disks[|tr.path|] == d'
    && (ok <==> Reachable(info, d, tr.path[|tr.path| - 1]))
  }

  /** A freeing that has come to `c` in `i` steps. */
  ghost predicate TraceAt(info: BootSectorInfo, tr: Trace, d: seq<Sector>, d': seq<Sector>, first: nat, c: nat, i: nat)
    requires 1 <= info.numFats
  {
    && |tr.path| == i && |tr.disks| == i + 1 && Tracing(info, tr.path + [c], tr.disks) && (tr.path + [c])[0] == first
    && tr.disks[0] == d && tr.disks[i] == d' && |d'| == |d|
    && (i == WALK_CAP ==> TraceDone(info, tr, d, d', first, true))
  }

  lemma TraceStart(info: BootSectorInfo, d: seq<Sector>, first: nat)
    requires 1 <= info.numFats
    ensures TraceAt(info, Trace([], [d]), d, d, first, first, 0)
  {
  }

  /** One entry write as a step of the trace. */
  lemma TraceOn(info: BootSectorInfo, tr: Trace, d0: seq<Sector>, d: seq<Sector>, d': seq<Sector>, first: nat, c: nat, i: nat, ok: bool,
                next: Option<nat>)
    returns (more: Trace)
    requires 1 <= info.numFats && TraceAt(info, tr, d0, d, first, c, i) && i < WALK_CAP && |d'| == |d|
    requires if 4 * c < U32_LIMIT then WordsWritten(info, d, d', c, 0, info.numFats) else d' == d
    requires (ok <==> Reachable(info, d, c)) && next == NextOf(info, d, c)
    ensures if ok && next.Some? && !IsEndOfChain(next.value) then TraceAt(info, more, d0, d', first, next.value, i + 1)
      else TraceDone(info, more, d0, d', first, ok)
  {
    hide WordsWritten, NextOf, Reachable, IsEndOfChain;
    more := Trace(tr.path + [c], tr.disks + [d']);
    assert more.disks[..i + 1] == tr.disks && more.path[..i] == tr.path;
    ReachSame(info, d0, d, c);
    if ok && next.Some? && !IsEndOfChain(next.value) {
      assert TraceStep(info, d, d', c, next.value);
      assert Tracing(info, more.path + [next.value], more.disks);
    }
  }

  lemma ReachSame(info: BootSectorInfo, d: seq<Sector>, d': seq<Sector>, c: nat)
    requires 1 <= info.numFats && |d'| == |d|
    ensures Reachable(info, d', c) <==> Reachable(info, d, c)
  {
  }

  /** A freeing of the walk `cs` that has come to its `n`-th cluster in `i` steps. */
  ghost predicate FreeAt(info: BootSectorInfo, v: View, d: seq<Sector>, first: nat, cs: seq<nat>, n: nat, i: nat, c: nat) {
    && FreedTo(info, v, d, first, cs, n) && n < |cs| && c == cs[n]
    && if Loops(Fat(v), first) then n == 0 && cs == [0] else n == i
  }

  lemma FreeStart(dev: BlkDevice, info: BootSectorInfo, first: nat, cs: seq<nat>)
    requires info.Fits(|dev.disk|) && Walk(Fat(Vol(dev, info)), first, cs)
    ensures FreeAt(info, Vol(dev, info), dev.disk, first, cs, 0, 0, first)
    ensures FreeingSince(dev, info, Vol(dev, info), cs, |dev.history|)
  {
    hide ViewOf, BootSectorInfo.Fits, Fat, Freeing, Walk, WellFormed;
    var v := Vol(dev, info);
    WalkHead(Fat(v), first, cs);
    WellFormedFat(info, v);
    WalkStep(Fat(v), first, cs, 0);
    FreedNone(Fat(v));
    assert cs[..0] == [];
    FreedToFreeing(info, v, dev.disk, first, cs, 0);
  }

  /** One more entry of the walk written, or not. */
  lemma FreeOn(dev: BlkDevice, info: BootSectorInfo, v: View, d: seq<Sector>, h: nat, first: nat, cs: seq<nat>, n: nat, i: nat, c: nat, from: nat)
    requires info.Fits(|d|) && info.Fits(|dev.disk|) && FreeAt(info, v, d, first, cs, n, i, c)
    requires c < info.Entries() && WellFormed(info, ViewOf(info, d))
    requires from <= h <= |dev.history| && forall t :: from <= t < h ==> Freeing(info, v, dev.history[t], cs)
    requires EntryLeft(info, ViewOf(info, d), dev.disk, c, 0, dev.WholeWords())
    requires EntryLeftSince(info, ViewOf(info, d), dev.history, h, c, 0, dev.WholeWords())
    ensures FreeingSince(dev, info, v, cs, from) && n < |cs|
    ensures FreedUpTo(Fat(v), Fat(Vol(dev, info)), cs, n, Fat(Vol(dev, info))[c])
    ensures Fat(Vol(dev, info)) == Fat(ViewOf(info, d))[c := 0] ==>
      && FreedUpTo(Fat(v), Fat(Vol(dev, info)), cs, n + 1, LinkAt(v, cs, n + 1)) && Freed(Fat(v), Fat(Vol(dev, info)), cs[..n + 1])
      && c < |Fat(v)|
      && (if IsEndOfChain(Fat(v)[c]) then n + 1 == |cs| && n == i
          else FreeAt(info, v, dev.disk, first, cs, if Loops(Fat(v), first) then 0 else n + 1, i + 1, Fat(v)[c]))
  {
    hide Freeing, EntryLeft, ViewOf, WellFormed, FreedTo, FreedUpTo, IsEndOfChain, Fat, Freed;
    WalkAt(info, v, d, first, cs, n);
    FreeingOn(dev, info, v, d, h, first, cs, n, from);
    FreeingStep(info, v, d, dev.disk, first, cs, n, dev.WholeWords());
    if Fat(Vol(dev, info)) == Fat(ViewOf(info, d))[c := 0] {
      FreedHere(dev, info, v, first, cs, n + 1);
      if Loops(Fat(v), first) {
        NotEnd();
        FreedAgain(info, v, dev.disk, first, cs, 1);
      }
    }
  }

  lemma NotEnd()
    ensures !IsEndOfChain(0)
  {
  }

  /** The entry of the `n`-th cluster of a walk, if there is one. */
  ghost function LinkAt(v: View, cs: seq<nat>, n: nat): (x: nat) {
    if n < |cs| && cs[n] < |Fat(v)| then Fat(v)[cs[n]] else 0
  }

  /** A freeing that came through 1024 clusters. */
  lemma FreeFull(dev: BlkDevice, info: BootSectorInfo, v: View, first: nat, cs: seq<nat>, n: nat, c: nat)
    requires FreeAt(info, v, dev.disk, first, cs, n, WALK_CAP, c)
    ensures var m := if Loops(Fat(v), first) then 1 else n;
      && 0 < m <= |cs| && cs[..m] == Walked(cs)
      && FreedUpTo(Fat(v), Fat(Vol(dev, info)), cs, m, LinkAt(v, cs, m)) && Freed(Fat(v), Fat(Vol(dev, info)), cs[..m])
  {
    hide ViewOf, BootSectorInfo.Fits, Walk, WellFormed, Freed, Fat, FreedUpTo, FreedTo;
    if Loops(Fat(v), first) { FreedAgain(info, v, dev.disk, first, cs, 0); }
    FreedHere(dev, info, v, first, cs, if Loops(Fat(v), first) then 1 else n);
  }

  lemma FreeAtCovered(info: BootSectorInfo, v: View, d: seq<Sector>, first: nat, cs: seq<nat>, n: nat, i: nat, c: nat)
    requires FreeAt(info, v, d, first, cs, n, i, c)
    ensures WellFormed(info, ViewOf(info, d)) && c < info.Entries() == |Fat(v)| && NextOf(info, d, c) == Some(Fat(v)[c])
    ensures |Fat(ViewOf(info, d))| == info.Entries()
  {
    hide ViewOf, WellFormed, FreedTo, NextOf, Fat;
    WalkAt(info, v, d, first, cs, n);
  }

  /** Where a walk goes on. */
  lemma WalkAt(info: BootSectorInfo, v: View, d: seq<Sector>, first: nat, cs: seq<nat>, p: nat)
    requires FreedTo(info, v, d, first, cs, p) && p < |cs|
    ensures WellFormed(info, ViewOf(info, d)) && cs[p] < info.Entries() == |Fat(ViewOf(info, d))| == |Fat(v)| && NextOf(info, d, cs[p]) == Some(Fat(v)[cs[p]])
    ensures Loops(Fat(v), first) ==> cs == [0] && Fat(v)[cs[p]] == 0
    ensures !Loops(Fat(v), first) ==>
      (if IsEndOfChain(Fat(v)[cs[p]]) then p + 1 == |cs| else p + 1 < |cs| && cs[p + 1] == Fat(v)[cs[p]])
  {
    hide ViewOf, BootSectorInfo.Fits, Fat, Walk, WellFormed, Freed, NextOf;
    WellFormedFat(info, v);
    ViewWellFormed(info, d);
    WellFormedFat(info, ViewOf(info, d));
    FreedNext(Fat(v), Fat(ViewOf(info, d)), first, cs, p, 0);
    WalkStep(Fat(v), first, cs, p);
    NextCovered(info, d, cs[p]);
  }

  lemma FreedAgain(info: BootSectorInfo, v: View, d: seq<Sector>, first: nat, cs: seq<nat>, p: nat)
    requires FreedTo(info, v, d, first, cs, p) && p <= 1 && Loops(Fat(v), first) && cs == [0]
    ensures FreedTo(info, v, d, first, cs, 1 - p)
  {
    hide ViewOf, BootSectorInfo.Fits, Walk, WellFormed, Freed;
    assert cs[..1] == [0] && cs[..0] == [];
    FreedLoop(Fat(v), Fat(ViewOf(info, d)), first);
  }

  /** What is known of a freeing that stopped with the first `n` clusters freed. */
  lemma FreedHere(dev: BlkDevice, info: BootSectorInfo, v: View, first: nat, cs: seq<nat>, n: nat)
    requires FreedTo(info, v, dev.disk, first, cs, n)
    ensures FreedUpTo(Fat(v), Fat(Vol(dev, info)), cs, n, LinkAt(v, cs, n))
    ensures Freed(Fat(v), Fat(Vol(dev, info)), cs[..n])
  {
    hide ViewOf, BootSectorInfo.Fits, Walk, WellFormed, Freed, Fat, FreedUpTo;
    FreedToFreeing(info, v, dev.disk, first, cs, n);
  }

  /** Frees the clusters of a chain one after the other, reading each link before it is erased, up to the first
      write that fails or the first link that cannot be read; a chain longer than 1024 clusters keeps the rest.
      With any device, no write disturbs an entry outside the chain or any data. From a start that is
      no chain, it zeroes what the trace says. */
  method FreeChain(dev: BlkDevice, info: BootSectorInfo, first: nat, ghost cs: seq<nat>)
    returns (ok: bool, ghost n: nat, ghost x: nat, ghost tr: Trace)
    requires info.Fits(|dev.disk|)
    modifies dev
    ensures |dev.disk| == |old(dev.disk)| && old(dev.history) <= dev.history && 1 <= info.numFats
    ensures Walk(Fat(old(Vol(dev, info))), first, cs) ==>
      && FreeingSince(dev, info, old(Vol(dev, info)), cs, |old(dev.history)|)
      && FreedUpTo(Fat(old(Vol(dev, info))), Fat(Vol(dev, info)), cs, n, x)
      && (if ok then 0 < n <= |cs| && x == LinkAt(old(Vol(dev, info)), cs, n) && Freed(Fat(old(Vol(dev, info))), Fat(Vol(dev, info)), cs[..n]) else n < |cs|)
      && (dev.Reliable() ==> ok && cs[..n] == Walked(cs) && Intact(info, old(Vol(dev, info)), Vol(dev, info)))
    ensures dev.Reliable() ==>
      TraceDone(info, tr, old(dev.disk), dev.disk, first, ok)
  {
    hide BootSectorInfo.Fits, ViewOf, Fat, BlkDevice.Reliable, WellFormed, Walk, WriteEntry, Freed, Freeing, EntryLeft, FreedUpTo, FreeAt,
      LinkAt, TraceDone, NextOf, WordsWritten, WordsPart, Intact, FatSector, Loops, IsEndOfChain;
    ghost var v, from := Vol(dev, info), |dev.history|;
    ghost var walks, loops := Walk(Fat(v), first, cs), Loops(Fat(v), first);
    LayoutFacts(info, |dev.disk|);
    TraceStart(info, dev.disk, first);
    IntactSame(info, v);
    if walks { FreeStart(dev, info, first, cs); }
    var cluster, i := first, 0;
    n, x, tr := 0, 0, Trace([], [dev.disk]);
    while i < WALK_CAP
      invariant 0 <= i <= WALK_CAP && |dev.disk| == |old(dev.disk)| && old(dev.history) <= dev.history
      invariant walks ==> FreeingSince(dev, info, v, cs, from) && FreeAt(info, v, dev.disk, first, cs, n, i, cluster)
      invariant walks && dev.Reliable() ==> Intact(info, v, Vol(dev, info))
      invariant dev.Reliable() ==> TraceAt(info, tr, old(dev.disk), dev.disk, first, cluster, i)
    {
      ghost var d, h := dev.disk, |dev.history|;
      if walks { FreeAtCovered(info, v, d, first, cs, n, i, cluster); }
      var next := NextClusterInChain(dev, info, cluster);
      ok := WriteFatEntry(dev, info, cluster, 0);
      if walks {
        FreeOn(dev, info, v, d, h, first, cs, n, i, cluster, from);
        if dev.Reliable() { IntactOn(info, v, ViewOf(info, d), cluster); }
      }
      if dev.Reliable() { tr := TraceOn(info, tr, old(dev.disk), d, dev.disk, first, cluster, i, ok, next); }
      if !ok {
        return false, n, if walks then Fat(Vol(dev, info))[cluster] else 0, tr;
      }
      if next.None? || IsEndOfChain(next.value) {
        return true, n + 1, LinkAt(v, cs, n + 1), tr;
      }
      n := if loops then 0 else n + 1;
      cluster := next.value;
      i := i + 1;
    }
    if walks { FreeFull(dev, info, v, first, cs, n, cluster); }
    n := if loops then 1 else n;
    return true, n, LinkAt(v, cs, n), tr;
  }

  /** Where a freeing goes: on from a cluster whose words the disk has in every copy, to what its word said, if that is
      less than 0x0FFFFFF8; and it stops nowhere else before its 1024th cluster. */
  lemma TraceByNumbers(info: BootSectorInfo, tr: Trace, i: nat)
    requires 1 <= info.numFats && Traced(info, tr) && i < |tr.path|
    ensures |tr.path| <= 1024 && |tr.disks| == |tr.path| + 1
    ensures i + 1 < |tr.path| ==> WordOf(info, tr.disks[i], tr.path[i]) == Some(tr.path[i + 1]) && tr.path[i + 1] < 0x0FFF_FFF8
    ensures i + 1 == |tr.path| < 1024 ==>
      var v := WordOf(info, tr.disks[i], tr.path[i]);
      v.None? || 0x0FFF_FFF8 <= v.value || |tr.disks[i]| <= info.fatStart + (info.numFats - 1) * info.fatSize + tr.path[i] / 128
  {
    hide NextOf, Zeroed, WordOf;
    WordIs(info, tr.disks[i], tr.path[i]);
    var n := |tr.path| - 1;
    if i < n {
      assert TraceStep(info, tr.disks[..n + 1][i], tr.disks[..n + 1][i + 1], tr.path[i], tr.path[i + 1]);
    } else if i + 1 < 1024 {
      BlocksProduct(info.numFats - 1, info.fatSize);
      WordCovered(info, tr.disks[i], tr.path[i]);
      if WordOf(info, tr.disks[i], tr.path[i]).Some? {
        assert !LeadsTo(info, tr.disks[i], tr.path[i], WordOf(info, tr.disks[i], tr.path[i]).value);
      }
    }
  }

  lemma WordCovered(info: BootSectorInfo, d: seq<Sector>, c: nat)
    ensures WordOf(info, d, c).Some? ==> 4 * c < U32_LIMIT
  {
  }
}
