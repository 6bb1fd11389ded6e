/** One FAT entry write seen on the whole volume: every copy patched, reserved top
    bits kept, the FSInfo hint moved with the free/used transition. */
module Volume {
  import opened Bytes
  import opened FatLayout
  import opened FatChains
  import FsInfo

  /** A raw entry with its low 28 bits replaced. */
  function Patched(raw: nat, value: nat): (r: nat)
    ensures r % MASK28 == value % MASK28
    ensures raw < U32_LIMIT ==> r < U32_LIMIT
  {
    raw - raw % MASK28 + value % MASK28
  }

  function Masked(raw: seq<nat>): (fat: seq<nat>)
    ensures |fat| == |raw|
  {
    seq(|raw|, c requires 0 <= c < |raw| => raw[c] % MASK28)
  }

  /** The FAT every reader of this driver consults: copy 0, masked. */
  function Fat(v: View): (fat: seq<nat>) {
    if v.fats == [] then [] else Masked(v.fats[0])
  }

  ghost predicate WellFormed(info: BootSectorInfo, v: View) {
    && info.Parsed() && info.Entries() <= MAX_ENTRIES
    && info.fsInfoSector < info.fatStart == |v.reserved|
    && |v.fats| == info.numFats
    && (forall k :: 0 <= k < |v.fats| ==> |v.fats[k]| == info.Entries())
    && |v.clusters| == info.Entries()
    && (forall c :: 0 <= c < |v.clusters| ==> |v.clusters[c]| <= if c < 2 then 0 else info.sectorsPerCluster)
  }

  lemma ViewWellFormed(info: BootSectorInfo, d: seq<Sector>)
    requires info.Fits(|d|)
    ensures WellFormed(info, ViewOf(info, d))
    ensures Small(Fat(ViewOf(info, d)))
  {
  }

  lemma WellFormedFat(info: BootSectorInfo, v: View)
    requires WellFormed(info, v)
    ensures |Fat(v)| == info.Entries() <= MAX_ENTRIES
  {
  }

  /** All FAT copies hold the same raw entries. */
  ghost predicate Mirrored(v: View) {
    0 < |v.fats| && forall k :: 0 <= k < |v.fats| ==> v.fats[k] == v.fats[0]
  }

  function Adjusted(s: Sector, previous: nat, next: nat): Sector {
    if previous == 0 && next != 0 then FsInfo.Adjust(s, -1)
    else if previous != 0 && next == 0 then FsInfo.Adjust(s, 1)
    else s
  }

  function PatchedCopy(raw: seq<nat>, c: nat, value: nat): (r: seq<nat>)
    requires c < |raw|
  {
    raw[c := Patched(raw[c], value)]
  }

  /** The first `n` FAT copies patched. */
  ghost function MirrorStep(v: View, n: nat, c: nat, value: nat): (r: View)
    requires forall k :: 0 <= k < |v.fats| ==> c < |v.fats[k]|
  {
    v.(fats := seq(|v.fats|, k requires 0 <= k < |v.fats| =>
                 if k < n then PatchedCopy(v.fats[k], c, value) else v.fats[k]))
  }

  ghost function WriteEntry(info: BootSectorInfo, v: View, c: nat, value: nat): (r: View)
    requires WellFormed(info, v) && c < info.Entries()
    ensures WellFormed(info, r)
  {
    var fs := info.fsInfoSector;
    MirrorStep(v, |v.fats|, c, value)
      .WithReserved(fs, Adjusted(v.reserved[fs], Fat(v)[c], value % MASK28))
  }

  lemma WriteEntryParts(info: BootSectorInfo, v: View, c: nat, value: nat)
    requires WellFormed(info, v) && c < info.Entries()
    ensures |Fat(v)| == info.Entries()
    ensures var w := WriteEntry(info, v, c, value);
      && |w.fats| == |v.fats| && (forall k :: 0 <= k < |v.fats| ==> w.fats[k] == PatchedCopy(v.fats[k], c, value))
      && w.clusters == v.clusters && w.tail == v.tail
      && w.reserved == v.reserved[info.fsInfoSector := Adjusted(v.reserved[info.fsInfoSector], Fat(v)[c], value % MASK28)]
      && ((Fat(v)[c] == 0) == (value % MASK28 == 0) ==> w.reserved == v.reserved)
  {
  }

  lemma MirrorNext(v: View, n: nat, c: nat, value: nat)
    requires forall k :: 0 <= k < |v.fats| ==> c < |v.fats[k]|
    requires n < |v.fats|
    ensures MirrorStep(v, n, c, value).WithEntry(n, c, Patched(v.fats[n][c], value))
         == MirrorStep(v, n + 1, c, value)
    ensures MirrorStep(v, 0, c, value) == v
  {
    assert MirrorStep(v, n, c, value).WithEntry(n, c, Patched(v.fats[n][c], value)).fats
        == MirrorStep(v, n + 1, c, value).fats;
    assert MirrorStep(v, 0, c, value).fats == v.fats;
  }

  lemma MaskedUpdate(raw: seq<nat>, c: nat, value: nat)
    requires c < |raw|
    ensures Masked(PatchedCopy(raw, c, value)) == Masked(raw)[c := value % MASK28]
  {
  }

  lemma MirrorFat(v: View, n: nat, c: nat, value: nat)
    requires 0 < |v.fats| && forall k :: 0 <= k < |v.fats| ==> c < |v.fats[k]|
    ensures Fat(MirrorStep(v, n, c, value)) == if n == 0 then Fat(v) else Fat(v)[c := value % MASK28]
  {
    MaskedUpdate(v.fats[0], c, value);
  }

  /** What a reader sees of a write: one entry changed, copies still equal if they
      were, no data sector and no other reserved sector touched. */
  lemma WriteEntryFat(info: BootSectorInfo, v: View, c: nat, value: nat)
    requires WellFormed(info, v) && c < info.Entries()
    ensures |Fat(v)| == info.Entries() && Fat(WriteEntry(info, v, c, value)) == Fat(v)[c := value % MASK28]
    ensures Mirrored(v) ==> Mirrored(WriteEntry(info, v, c, value))
    ensures WriteEntry(info, v, c, value).clusters == v.clusters
  {
    MirrorFat(v, |v.fats|, c, value);
  }

  /** The free-cluster hint claims exactly the number of free entries. */
  ghost predicate HintExact(info: BootSectorInfo, v: View)
    requires WellFormed(info, v)
  {
    var h := FsInfo.Hint(v.reserved[info.fsInfoSector]);
    h.Some? ==> h.value == ZeroCount(Fat(v))
  }

  lemma {:induction false} ZeroCountBound(fat: seq<nat>)
    ensures ZeroCount(fat) <= |fat|
    ensures forall c :: 0 <= c < |fat| && fat[c] == 0 ==> 1 <= ZeroCount(fat)
  {
    if fat != [] {
      ZeroCountBound(fat[..|fat| - 1]);
    }
  }

  /** The claimed count, none when the sector makes no claim. */
  ghost function HintOf(info: BootSectorInfo, v: View): (h: Option<nat>)
    requires WellFormed(info, v)
  {
    FsInfo.Hint(v.reserved[info.fsInfoSector])
  }

  /** Writing `value` to the entry of `c` would take a count of 0 down, or the largest count up. */
  ghost predicate Saturates(info: BootSectorInfo, v: View, c: nat, value: nat)
    requires WellFormed(info, v) && c < |Fat(v)|
  {
    var h, next := HintOf(info, v), value % MASK28;
    h.Some? && ((Fat(v)[c] == 0 && next != 0 && h.value == 0) || (Fat(v)[c] != 0 && next == 0 && h.value == FsInfo.UNKNOWN - 1))
  }

  /** The hint is known on both sides, and went up by `drift` more than the number of free entries did. */
  ghost predicate Moved(info: BootSectorInfo, v: View, w: View, drift: int)
    requires WellFormed(info, v) && WellFormed(info, w)
  {
    && HintOf(info, v).Some? && HintOf(info, w).Some?
    && HintOf(info, w).value - HintOf(info, v).value == ZeroCount(Fat(w)) - ZeroCount(Fat(v)) + drift
  }

  /** An entry write moves a known hint exactly as it moves the number of free entries, if and only if
      the write does not saturate it: a count of 0 stays 0, the largest becomes unknown. A link rewrite
      moves neither, and an unknown count stays as it is. */
  lemma WriteEntryHint(info: BootSectorInfo, v: View, c: nat, value: nat)
    requires WellFormed(info, v) && c < info.Entries()
    ensures c < |Fat(v)|
    ensures var fs, w := info.fsInfoSector, WriteEntry(info, v, c, value);
      && (FsInfo.Parse(v.reserved[fs]).Some? <==> FsInfo.Parse(w.reserved[fs]).Some?)
      && (HintOf(info, v).None? ==> w.reserved == v.reserved)
      && (HintOf(info, v).Some? ==> (Moved(info, v, w, 0) <==> !Saturates(info, v, c, value)))
      && (Saturates(info, v, c, value) ==> if Fat(v)[c] == 0 then Moved(info, v, w, 1) else HintOf(info, w).None?)
      && ((Fat(v)[c] == 0) == (value % MASK28 == 0) ==> w.reserved == v.reserved)
    ensures HintExact(info, v) ==> HintExact(info, WriteEntry(info, v, c, value))
  {
    hide FsInfo.Adjust, FsInfo.Parse, FsInfo.Hint, FsInfo.WithCount, ZeroCount, Fat;
    var s, next := v.reserved[info.fsInfoSector], value % MASK28;
    WriteEntryFat(info, v, c, value);
    WellFormedFat(info, v);
    ZeroCountUpdate(Fat(v), c, next);
    ZeroCountBound(Fat(v));
    FsInfo.HintParses(s);
    if Fat(v)[c] == 0 && next != 0 {
      HintAfter(s, -1);
    } else if Fat(v)[c] != 0 && next == 0 {
      HintAfter(s, 1);
    } else {
      assert v.reserved[info.fsInfoSector := s] == v.reserved;
    }
  }

  lemma HintAfter(s: Sector, delta: int)
    requires delta == -1 || delta == 1
    ensures FsInfo.Hint(s).None? ==> FsInfo.Adjust(s, delta) == s
    ensures FsInfo.Parse(s).Some? <==> FsInfo.Parse(FsInfo.Adjust(s, delta)).Some?
    ensures FsInfo.Hint(s).Some? && FsInfo.Hint(s).value + delta < FsInfo.UNKNOWN ==>
      FsInfo.Hint(FsInfo.Adjust(s, delta)) == Some(Max(0, FsInfo.Hint(s).value + delta))
    ensures FsInfo.Hint(s).Some? && FsInfo.Hint(s).value + delta == FsInfo.UNKNOWN ==> FsInfo.Hint(FsInfo.Adjust(s, delta)).None?
  {
    hide FsInfo.Adjust, FsInfo.Parse, FsInfo.Hint, FsInfo.WithCount;
    FsInfo.AdjustCount(s, delta);
    FsInfo.HintParses(s);
    if FsInfo.Hint(s).Some? {
      var n := Max(0, Min(FsInfo.Hint(s).value + delta, FsInfo.UNKNOWN));
      FsInfo.CountWritten(s, n);
      FsInfo.HintWritten(s, n);
    }
  }

  /** Whatever leads from `v` to `w` keeps an exact hint exact. */
  ghost predicate HintStays(info: BootSectorInfo, v: View, w: View)
    requires WellFormed(info, v) && WellFormed(info, w)
  {
    HintExact(info, v) ==> HintExact(info, w)
  }

  lemma HintStaysThrough(info: BootSectorInfo, u: View, v: View, w: View)
    requires WellFormed(info, u) && WellFormed(info, v) && WellFormed(info, w)
    requires HintStays(info, u, v) && HintStays(info, v, w)
    ensures HintStays(info, u, w)
  {
  }

  lemma HintStaysSame(info: BootSectorInfo, v: View, w: View)
    requires WellFormed(info, v) && WellFormed(info, w) && w.fats == v.fats && w.reserved == v.reserved
    ensures HintStays(info, v, w)
  {
  }

  /** A run of entry writes, first to last. */
  ghost function WriteEntries(info: BootSectorInfo, v: View, writes: seq<(nat, nat)>): (w: View)
    requires WellFormed(info, v) && forall i :: 0 <= i < |writes| ==> writes[i].0 < info.Entries()
    ensures WellFormed(info, w)
  {
    if writes == [] then v
    else
      var n := |writes| - 1;
      WriteEntry(info, WriteEntries(info, v, writes[..n]), writes[n].0, writes[n].1)
  }

  /** No write of the run saturates the hint it finds. */
  ghost predicate NeverSaturates(info: BootSectorInfo, v: View, writes: seq<(nat, nat)>)
    requires WellFormed(info, v) && forall i :: 0 <= i < |writes| ==> writes[i].0 < info.Entries()
  {
    if writes == [] then true
    else
      var n := |writes| - 1;
      var u := WriteEntries(info, v, writes[..n]);
      NeverSaturates(info, v, writes[..n]) && (WellFormedFat(info, u); !Saturates(info, u, writes[n].0, writes[n].1))
  }

  /** Over any run of entry writes an exact hint stays exact, an FSInfo sector stays one, and a known hint
      ends known and moved exactly as the number of free entries did if and only if no write of the run
      saturated it: what saturation adds is never taken back. */
  lemma {:induction false} WritesKeepHint(info: BootSectorInfo, v: View, writes: seq<(nat, nat)>)
    requires WellFormed(info, v) && forall i :: 0 <= i < |writes| ==> writes[i].0 < info.Entries()
    ensures var w := WriteEntries(info, v, writes);
      && HintStays(info, v, w)
      && (FsInfo.Parse(v.reserved[info.fsInfoSector]).Some? <==> FsInfo.Parse(w.reserved[info.fsInfoSector]).Some?)
      && (HintOf(info, v).Some? ==> (Moved(info, v, w, 0) <==> NeverSaturates(info, v, writes)))
      && (HintOf(info, v).Some? && HintOf(info, w).Some? ==> exists drift: nat :: Moved(info, v, w, drift))
  {
    hide FsInfo.Parse, FsInfo.Hint, WriteEntry, WellFormed, HintExact, ZeroCount, Fat;
    if writes == [] {
      if HintOf(info, v).Some? { assert Moved(info, v, v, 0); }
    } else {
      var n := |writes| - 1;
      var u := WriteEntries(info, v, writes[..n]);
      WritesKeepHint(info, v, writes[..n]);
      OneWriteHint(info, u, writes[n].0, writes[n].1);
      if HintOf(info, v).Some? { DriftStep(info, v, u, writes[n].0, writes[n].1); }
    }
  }

  /** Drift is passed on by a write that does not saturate and grows by one in a write that takes 0 down. */
  lemma DriftStep(info: BootSectorInfo, v: View, u: View, c: nat, value: nat)
    requires WellFormed(info, v) && WellFormed(info, u) && c < info.Entries() && HintOf(info, v).Some?
    requires HintOf(info, u).Some? ==> exists drift: nat :: Moved(info, v, u, drift)
    ensures c < |Fat(u)|
    ensures var w := WriteEntry(info, u, c, value);
      && (Moved(info, v, w, 0) <==> Moved(info, v, u, 0) && !Saturates(info, u, c, value))
      && (HintOf(info, w).Some? ==> exists drift: nat :: Moved(info, v, w, drift))
  {
    hide FsInfo.Parse, FsInfo.Hint, WriteEntry, WellFormed, HintExact, ZeroCount, Fat;
    WriteEntryHint(info, u, c, value);
    var w := WriteEntry(info, u, c, value);
    if HintOf(info, u).Some? {
      var drift: nat :| Moved(info, v, u, drift);
      if HintOf(info, w).Some? {
        assert Moved(info, v, w, if Saturates(info, u, c, value) then drift + 1 else drift);
      }
    }
  }

  lemma OneWriteHint(info: BootSectorInfo, v: View, c: nat, value: nat)
    requires WellFormed(info, v) && c < info.Entries()
    ensures var w := WriteEntry(info, v, c, value);
      && HintStays(info, v, w)
      && (FsInfo.Parse(v.reserved[info.fsInfoSector]).Some? <==> FsInfo.Parse(w.reserved[info.fsInfoSector]).Some?)
  {
    hide FsInfo.Parse, FsInfo.Hint, WriteEntry, ZeroCount, Fat;
    WriteEntryHint(info, v, c, value);
  }
}
