/** Directories as sequences of 32-byte slots, and files as the sectors of a chain laid end
    to end: parsing, lookup, and how writing one slot changes what lookup finds. */
module FatDirectory {
  import opened Bytes
  import opened FatLayout
  import opened FatChains

  type Slot = s: seq<Byte> | |s| == 32 ghost witness seq(32, i => 0)
  type Name = s: seq<Byte> | |s| == 11 ghost witness seq(11, i => 0)

  const SLOTS_PER_SECTOR := 16
  const DELETED := 0xE5
  const ATTR_ARCHIVE := 0x20

  datatype ShortDirEntry = ShortDirEntry(name: Name, firstCluster: nat, fileSize: nat, isDir: bool)

  /** The short entry a slot holds: none when it is unused, deleted, or part of a long name. */
  function ParseShortDirEntry(e: Slot): (r: Option<ShortDirEntry>)
    ensures r.Some? ==> r.value.firstCluster < U32_LIMIT && r.value.fileSize < U32_LIMIT
  {
    if e[0] == 0 || e[0] == DELETED then None
    else if e[11] % 0x40 == 0x0F then None
    else Some(ShortDirEntry(e[..11], U16(e[20..22]) * U16_LIMIT + U16(e[26..28]), U32(e[28..32]), e[11] / 0x10 % 2 == 1))
  }

  /** The slot `create` writes: a plain file. */
  function NewEntry(name: Name, cluster: nat, size: nat): (e: Slot)
    requires cluster < U32_LIMIT && size < U32_LIMIT
  {
    name + [ATTR_ARCHIVE] + seq(8, i => 0) + Le16(cluster / U16_LIMIT) + seq(4, i => 0) + Le16(cluster % U16_LIMIT) + Le32(size)
  }

  /** The slot with its size field replaced. */
  function Resized(e: Slot, size: nat): (r: Slot)
    requires size < U32_LIMIT
  {
    e[..28] + Le32(size)
  }

  function Deleted(e: Slot): (r: Slot) {
    [DELETED] + e[1..]
  }

  /** A created slot reads back as what was written, exactly when its name does not begin
      with one of the two bytes that mark a slot as unused. */
  lemma NewEntryParses(name: Name, cluster: nat, size: nat)
    requires cluster < U32_LIMIT && size < U32_LIMIT
    ensures ParseShortDirEntry(NewEntry(name, cluster, size))
         == if name[0] == 0 || name[0] == DELETED then None else Some(ShortDirEntry(name, cluster, size, false))
    ensures NewEntry(name, cluster, size)[0] == name[0]
  {
    var e := NewEntry(name, cluster, size);
    assert e[..11] == name && e[20..22] == Le16(cluster / U16_LIMIT) && e[26..28] == Le16(cluster % U16_LIMIT)
        && e[28..32] == Le32(size) && e[11] == ATTR_ARCHIVE;
  }

  lemma ResizedParses(e: Slot, size: nat)
    requires size < U32_LIMIT && ParseShortDirEntry(e).Some?
    ensures ParseShortDirEntry(Resized(e, size)) == Some(ParseShortDirEntry(e).value.(fileSize := size))
    ensures Resized(e, size)[0] == e[0]
  {
    var r := Resized(e, size);
    assert r[..11] == e[..11] && r[20..22] == e[20..22] && r[26..28] == e[26..28] && r[28..32] == Le32(size);
  }

  /** The attributes of a slot, and the two bits above them that mean nothing. */
  datatype Attributes = Attributes(readOnly: bool, hidden: bool, system: bool, volume: bool, directory: bool, archive: bool, reserved: nat) {
    function Encoded(): (b: nat) {
      (if readOnly then 1 else 0) + (if hidden then 2 else 0) + (if system then 4 else 0) + (if volume then 8 else 0)
      + (if directory then 16 else 0) + (if archive then 32 else 0) + 64 * reserved
    }
  }

  /** A slot laid out field by field: name, attributes, eight bytes, the high half of the cluster, four bytes, the low
      half, the size. */
  function FormatSlot(name: Name, a: Attributes, times: seq<Byte>, high: nat, more: seq<Byte>, low: nat, size: seq<Byte>): (e: Slot)
    requires a.reserved < 4 && |times| == 8 && high < 0x1_0000 && |more| == 4 && low < 0x1_0000 && |size| == 4
  {
    name + [a.Encoded()] + times + [high % 0x100, high / 0x100] + more + [low % 0x100, low / 0x100] + size
  }

  /** Parsing inverts that: each field comes from its own place, a directory is what has the directory flag, and no
      entry is there exactly when the first byte marks the slot as unused or the four low flags, with neither of
      the next two, mark it as part of a long name. */
  lemma ParseFormattedSlot(name: Name, a: Attributes, times: seq<Byte>, high: nat, more: seq<Byte>, low: nat, size: seq<Byte>)
    requires a.reserved < 4 && |times| == 8 && high < 0x1_0000 && |more| == 4 && low < 0x1_0000 && |size| == 4
    ensures var e := FormatSlot(name, a, times, high, more, low, size);
      ParseShortDirEntry(e) ==
      if name[0] == 0x00 || name[0] == 0xE5 || (a.readOnly && a.hidden && a.system && a.volume && !a.directory && !a.archive) then None
      else Some(ShortDirEntry(name, 0x1_0000 * high + low,
                              (size[0] as int) + 0x100 * (size[1] as int) + 0x1_0000 * (size[2] as int) + 0x100_0000 * (size[3] as int),
                              a.directory))
  {
    var e := FormatSlot(name, a, times, high, more, low, size);
    assert e[..11] == name && e[0] == name[0] && e[11] == a.Encoded();
    assert e[20..22] == [high % 0x100, high / 0x100] && e[26..28] == [low % 0x100, low / 0x100] && e[28..32] == size;
    EncodedFlags(a);
    U32Bytes(size);
  }

  lemma EncodedFlags(a: Attributes)
    requires a.reserved < 4
    ensures a.Encoded() < 0x100 && (a.Encoded() / 0x10 % 2 == 1 <==> a.directory)
    ensures a.Encoded() % 0x40 == 0x0F <==> a.readOnly && a.hidden && a.system && a.volume && !a.directory && !a.archive
  {
    var low := a.Encoded() - 64 * a.reserved;
    assert a.Encoded() % 0x40 == low;
  }

  /** What a create writes: the archive flag and no other, zeros where nothing is said. */
  lemma NewEntryFormatted(name: Name, cluster: nat, size: nat)
    requires cluster < U32_LIMIT && size < U32_LIMIT
    ensures NewEntry(name, cluster, size) == FormatSlot(name, Attributes(false, false, false, false, false, true, 0), [0, 0, 0, 0, 0, 0, 0, 0],
                                                        cluster / 0x1_0000, [0, 0, 0, 0], cluster % 0x1_0000, Le32(size))
  {
    hide Le32;
    assert seq<Byte>(8, i => 0) == [0, 0, 0, 0, 0, 0, 0, 0] && seq<Byte>(4, i => 0) == [0, 0, 0, 0];
  }

  /** Every slot is laid out so. */
  lemma SlotFormatted(e: Slot) returns (a: Attributes)
    ensures a.reserved < 4
    ensures e == FormatSlot(e[..11], a, e[12..20], (e[20] as int) + 0x100 * (e[21] as int), e[22..26], (e[26] as int) + 0x100 * (e[27] as int), e[28..])
  {
    hide Attributes.Encoded;
    a := FlagsOf(e[11]);
    HalfWord(e[20], e[21]);
    HalfWord(e[26], e[27]);
    assert e == e[..11] + [e[11]] + e[12..20] + [e[20], e[21]] + e[22..26] + [e[26], e[27]] + e[28..];
  }

  lemma HalfWord(x: Byte, y: Byte)
    ensures var n := (x as int) + 0x100 * (y as int); n < 0x1_0000 && n % 0x100 == x && n / 0x100 == y
  {
  }

  lemma LowBit(n: nat) returns (flag: bool, rest: nat)
    ensures n == 2 * rest + if flag then 1 else 0
  {
    flag, rest := n % 2 == 1, n / 2;
  }

  lemma FlagsOf(b: Byte) returns (a: Attributes)
    ensures a.reserved < 4 && a.Encoded() == b
  {
    var f0, b1 := LowBit(b);
    var f1, b2 := LowBit(b1);
    var f2, b3 := LowBit(b2);
    var f3, b4 := LowBit(b3);
    var f4, b5 := LowBit(b4);
    var f5, b6 := LowBit(b5);
    a := Attributes(f0, f1, f2, f3, f4, f5, b6);
  }

  // ----- slots of sectors

  function SlotOf(s: Sector, j: nat): (e: Slot)
    requires j < SLOTS_PER_SECTOR
  {
    s[32 * j..32 * j + 32]
  }

  function Slots(ss: seq<Sector>): (r: seq<Slot>)
    ensures |r| == SLOTS_PER_SECTOR * |ss|
  {
    seq(SLOTS_PER_SECTOR * |ss|, q requires 0 <= q < SLOTS_PER_SECTOR * |ss| =>
      SlotOf(ss[q / SLOTS_PER_SECTOR], q % SLOTS_PER_SECTOR))
  }

  /** A sector holds sixteen slots of 32 bytes, and they follow each other through the sectors of a directory. */
  lemma SlotBytes(ss: seq<Sector>, i: nat)
    requires i < 16 * |ss|
    ensures |Slots(ss)| == 16 * |ss| && Slots(ss)[i] == ss[i / 16][32 * (i % 16)..32 * (i % 16) + 32]
  {
  }

  lemma SlotsAt(ss: seq<Sector>, i: nat, j: nat)
    requires i < |ss| && j < SLOTS_PER_SECTOR
    ensures SLOTS_PER_SECTOR * i + j < |Slots(ss)|
    ensures Slots(ss)[SLOTS_PER_SECTOR * i + j] == SlotOf(ss[i], j)
  {
    var q := SLOTS_PER_SECTOR * i + j;
    assert q / SLOTS_PER_SECTOR == i && q % SLOTS_PER_SECTOR == j;
  }

  /** Overwriting one slot of one sector. */
  lemma SlotsUpdate(ss: seq<Sector>, i: nat, j: nat, e: Slot)
    requires i < |ss| && j < SLOTS_PER_SECTOR
    ensures var patched: seq<Sector> := ss[i := Splice(ss[i], 32 * j, e)];
            Slots(patched) == Slots(ss)[SLOTS_PER_SECTOR * i + j := e]
  {
    var s' := Splice(ss[i], 32 * j, e);
    var patched: seq<Sector> := ss[i := s'];
    forall q | 0 <= q < SLOTS_PER_SECTOR * |ss|
      ensures Slots(patched)[q] == Slots(ss)[SLOTS_PER_SECTOR * i + j := e][q]
    {
      var m := q % SLOTS_PER_SECTOR;
      if q / SLOTS_PER_SECTOR == i && m != j {
        assert SlotOf(s', m) == SlotOf(ss[i], m);
      }
    }
  }

  lemma SlotsAppend(ss: seq<Sector>, tt: seq<Sector>)
    ensures Slots(ss + tt) == Slots(ss) + Slots(tt)
  {
    forall q | 0 <= q < SLOTS_PER_SECTOR * |ss + tt|
      ensures Slots(ss + tt)[q] == (Slots(ss) + Slots(tt))[q]
    {
      var m := q - SLOTS_PER_SECTOR * |ss|;
      if 0 <= m {
        assert m / SLOTS_PER_SECTOR == q / SLOTS_PER_SECTOR - |ss| && m % SLOTS_PER_SECTOR == q % SLOTS_PER_SECTOR;
      }
    }
  }

  // ----- the sectors of a chain

  ghost predicate Sized(clusters: seq<seq<Sector>>, spc: nat, cs: seq<nat>) {
    forall i :: 0 <= i < |cs| ==> cs[i] < |clusters| && |clusters[cs[i]]| == spc
  }

  /** The data sectors of the clusters of `cs`, in chain order. */
  ghost function ChainSectors(clusters: seq<seq<Sector>>, cs: seq<nat>): (ss: seq<Sector>) {
    if cs == [] then []
    else ChainSectors(clusters, cs[..|cs| - 1]) + (if Last(cs) < |clusters| then clusters[Last(cs)] else [])
  }

  lemma {:induction false} ChainSectorsLength(clusters: seq<seq<Sector>>, spc: nat, cs: seq<nat>)
    requires Sized(clusters, spc, cs)
    ensures |ChainSectors(clusters, cs)| == Blocks(|cs|, spc)
  {
    if cs != [] {
      ChainSectorsLength(clusters, spc, cs[..|cs| - 1]);
    }
  }

  lemma {:induction false} ChainSectorsAt(clusters: seq<seq<Sector>>, spc: nat, cs: seq<nat>, k: nat, s: nat)
    requires Sized(clusters, spc, cs) && k < |cs| && s < spc
    ensures Blocks(k, spc) + s < |ChainSectors(clusters, cs)|
    ensures ChainSectors(clusters, cs)[Blocks(k, spc) + s] == clusters[cs[k]][s]
  {
    var n := |cs| - 1;
    ChainSectorsLength(clusters, spc, cs[..n]);
    if k < n {
      ChainSectorsAt(clusters, spc, cs[..n], k, s);
    }
  }

  lemma {:induction false} ChainSectorsFrame(clusters: seq<seq<Sector>>, clusters': seq<seq<Sector>>, cs: seq<nat>)
    requires forall i :: 0 <= i < |cs| ==> cs[i] < |clusters| && cs[i] < |clusters'| && clusters'[cs[i]] == clusters[cs[i]]
    ensures ChainSectors(clusters', cs) == ChainSectors(clusters, cs)
  {
    if cs != [] {
      ChainSectorsFrame(clusters, clusters', cs[..|cs| - 1]);
    }
  }

  lemma {:induction false} ChainSectorsAppend(clusters: seq<seq<Sector>>, cs: seq<nat>, ds: seq<nat>)
    ensures ChainSectors(clusters, cs + ds) == ChainSectors(clusters, cs) + ChainSectors(clusters, ds)
  {
    if ds == [] {
      assert cs + ds == cs;
    } else {
      ChainSectorsAppend(clusters, cs, ds[..|ds| - 1]);
      AppendLast(clusters, cs, ds);
    }
  }

  lemma AppendLast(clusters: seq<seq<Sector>>, cs: seq<nat>, ds: seq<nat>)
    requires 0 < |ds|
    requires var init := ds[..|ds| - 1]; ChainSectors(clusters, cs + init) == ChainSectors(clusters, cs) + ChainSectors(clusters, init)
    ensures ChainSectors(clusters, cs + ds) == ChainSectors(clusters, cs) + ChainSectors(clusters, ds)
  {
    hide ChainSectors;
    var init, last := ds[..|ds| - 1], if Last(ds) < |clusters| then clusters[Last(ds)] else [];
    assert (cs + ds)[..|cs + ds| - 1] == cs + init && Last(cs + ds) == Last(ds);
    ChainSectorsIs(clusters, cs + ds);
    ChainSectorsIs(clusters, ds);
    Associative(ChainSectors(clusters, cs), ChainSectors(clusters, init), last);
  }

  lemma ChainSectorsIs(clusters: seq<seq<Sector>>, cs: seq<nat>)
    requires 0 < |cs|
    ensures ChainSectors(clusters, cs) == ChainSectors(clusters, cs[..|cs| - 1]) + if Last(cs) < |clusters| then clusters[Last(cs)] else []
  {
  }

  lemma Associative(a: seq<Sector>, b: seq<Sector>, c: seq<Sector>)
    ensures (a + b) + c == a + (b + c)
  {
  }

  /** The part of a chain a reader gets to: up to and including the first cluster the disk does not have whole. */
  ghost function Reached(clusters: seq<seq<Sector>>, spc: nat, cs: seq<nat>): (ds: seq<nat>)
    ensures ds <= cs
  {
    if cs == [] then []
    else if cs[0] < |clusters| && |clusters[cs[0]]| == spc then [cs[0]] + Reached(clusters, spc, cs[1..])
    else [cs[0]]
  }

  /** Where the first `n` clusters are whole, what is reached is those and what is reached of the rest. */
  lemma {:induction false} ReachedBehind(clusters: seq<seq<Sector>>, spc: nat, cs: seq<nat>, n: nat)
    requires n <= |cs| && Sized(clusters, spc, cs[..n])
    ensures Reached(clusters, spc, cs) == cs[..n] + Reached(clusters, spc, cs[n..])
  {
    hide Reached, Sized;
    if 0 < n {
      var rest := cs[1..];
      WholeFirst(clusters, spc, cs, n);
      ReachedBehind(clusters, spc, rest, n - 1);
      assert rest[n - 1..] == cs[n..] && [cs[0]] + rest[..n - 1] == cs[..n];
      assert [cs[0]] + (rest[..n - 1] + Reached(clusters, spc, cs[n..])) == cs[..n] + Reached(clusters, spc, cs[n..]);
    } else {
      assert cs[0..] == cs;
    }
  }

  lemma WholeFirst(clusters: seq<seq<Sector>>, spc: nat, cs: seq<nat>, n: nat)
    requires 0 < n <= |cs| && Sized(clusters, spc, cs[..n])
    ensures Reached(clusters, spc, cs) == [cs[0]] + Reached(clusters, spc, cs[1..]) && Sized(clusters, spc, cs[1..][..n - 1])
  {
    assert cs[..n][0] == cs[0] && cs[1..][..n - 1] == cs[..n][1..];
  }

  lemma ReachedWhole(clusters: seq<seq<Sector>>, spc: nat, cs: seq<nat>)
    requires Sized(clusters, spc, cs)
    ensures Reached(clusters, spc, cs) == cs
  {
    assert cs[..|cs|] == cs && cs[|cs|..] == [];
    ReachedBehind(clusters, spc, cs, |cs|);
  }

  /** Where one of the first `n` clusters is not whole, a reader does not get beyond them. */
  lemma {:induction false} ReachedShort(clusters: seq<seq<Sector>>, spc: nat, cs: seq<nat>, n: nat)
    requires n <= |cs| && !Sized(clusters, spc, cs[..n])
    ensures Reached(clusters, spc, cs[..n]) == Reached(clusters, spc, cs)
  {
    assert cs[..n][0] == cs[0];
    if cs[0] < |clusters| && |clusters[cs[0]]| == spc {
      assert cs[..n][1..] == cs[1..][..n - 1];
      SizedFirst(clusters, spc, cs, n);
      ReachedShort(clusters, spc, cs[1..], n - 1);
    }
  }

  lemma SizedFirst(clusters: seq<seq<Sector>>, spc: nat, cs: seq<nat>, n: nat)
    requires 0 < n <= |cs| && cs[0] < |clusters| && |clusters[cs[0]]| == spc
    ensures Sized(clusters, spc, cs[1..][..n - 1]) ==> Sized(clusters, spc, cs[..n])
  {
    assert forall i :: 0 < i < n ==> cs[..n][i] == cs[1..][..n - 1][i - 1];
  }

  lemma {:induction false} ReachedFrame(clusters: seq<seq<Sector>>, clusters': seq<seq<Sector>>, spc: nat, cs: seq<nat>)
    requires |clusters'| == |clusters| && forall c :: c in cs && c < |clusters| ==> |clusters'[c]| == |clusters[c]|
    ensures Reached(clusters', spc, cs) == Reached(clusters, spc, cs)
  {
    if cs != [] { ReachedFrame(clusters, clusters', spc, cs[1..]); }
  }

  ghost function WithClusterSector(clusters: seq<seq<Sector>>, c: nat, s: nat, x: Sector): seq<seq<Sector>>
    requires c < |clusters| && s < |clusters[c]|
  {
    var sectors: seq<Sector> := clusters[c][s := x];
    clusters[c := sectors]
  }

  /** Overwriting sector `s` of the `k`-th cluster of a chain. */
  lemma {:induction false} ChainSectorsUpdate(clusters: seq<seq<Sector>>, spc: nat, cs: seq<nat>, k: nat, s: nat, x: Sector)
    requires Sized(clusters, spc, cs) && Distinct(cs) && k < |cs| && s < spc
    ensures var clusters' := WithClusterSector(clusters, cs[k], s, x);
      && Blocks(k, spc) + s < |ChainSectors(clusters, cs)|
      && ChainSectors(clusters', cs) == ChainSectors(clusters, cs)[Blocks(k, spc) + s := x]
  {
    hide ChainSectors, Blocks;
    var n := |cs| - 1;
    var clusters' := WithClusterSector(clusters, cs[k], s, x);
    var front, back := ChainSectors(clusters, cs[..n]), clusters[cs[n]];
    ChainSectorsIs(clusters, cs);
    ChainSectorsIs(clusters', cs);
    if k < n {
      ChainSectorsUpdate(clusters, spc, cs[..n], k, s, x);
      UpdateFront(front, back, Blocks(k, spc) + s, x);
    } else {
      ChainSectorsLength(clusters, spc, cs[..n]);
      ChainSectorsFrame(clusters, clusters', cs[..n]);
      UpdateBack(front, back, s, x);
    }
  }

  lemma UpdateFront(front: seq<Sector>, back: seq<Sector>, i: nat, x: Sector)
    requires i < |front|
    ensures (front + back)[i := x] == front[i := x] + back
  {
  }

  lemma UpdateBack(front: seq<Sector>, back: seq<Sector>, i: nat, x: Sector)
    requires i < |back|
    ensures (front + back)[|front| + i := x] == front + back[i := x]
  {
  }

  // ----- lookup

  predicate Matches(e: Slot, name: Name) {
    ParseShortDirEntry(e).Some? && ParseShortDirEntry(e).value.name == name
  }

  /** A scan for `name` goes on past this slot. */
  predicate Passed(e: Slot, name: Name) {
    e[0] != 0 && !Matches(e, name)
  }

  /** The slot a scan from `i` stops at with a match; a first byte of zero ends the directory. */
  function Find(slots: seq<Slot>, name: Name, i: nat): (r: Option<nat>)
    requires i <= |slots|
    decreases |slots| - i
  {
    if i == |slots| || slots[i][0] == 0 then None
    else if Matches(slots[i], name) then Some(i)
    else Find(slots, name, i + 1)
  }

  function Lookup(slots: seq<Slot>, name: Name): (r: Option<ShortDirEntry>) {
    var i := Find(slots, name, 0);
    if i.None? || i.value >= |slots| then None else ParseShortDirEntry(slots[i.value])
  }

  ghost predicate AllPassed(slots: seq<Slot>, name: Name, i: nat, j: nat)
    requires j <= |slots|
  {
    forall q :: i <= q < j ==> Passed(slots[q], name)
  }

  lemma {:induction false} FindSkips(slots: seq<Slot>, name: Name, i: nat, j: nat)
    requires i <= j <= |slots| && AllPassed(slots, name, i, j)
    ensures Find(slots, name, i) == Find(slots, name, j)
    decreases j - i
  {
    if i < j {
      assert Passed(slots[i], name);
      FindSkips(slots, name, i + 1, j);
    }
  }

  lemma {:induction false} FindFound(slots: seq<Slot>, name: Name, i: nat)
    requires i <= |slots|
    ensures var r := Find(slots, name, i);
      r.Some? ==> i <= r.value < |slots| && Matches(slots[r.value], name) && AllPassed(slots, name, i, r.value)
    decreases |slots| - i
  {
    if i < |slots| && slots[i][0] != 0 && !Matches(slots[i], name) {
      FindFound(slots, name, i + 1);
    }
  }

  /** The slot holds a short entry of that name. */
  predicate Holds(e: Slot, name: Name) {
    e[..11] == name && e[0] != 0x00 && e[0] != 0xE5 && e[11] % 64 != 15
  }

  /** A name is found in a slot exactly when that is the first to hold it and no slot before it begins with a zero byte;
      and not found exactly when such a slot comes before every one that holds it. */
  lemma {:induction false} FindIff(slots: seq<Slot>, name: Name, i: nat, q: nat)
    requires i <= |slots|
    ensures Find(slots, name, i) == Some(q) <==>
      i <= q < |slots| && Holds(slots[q], name) && forall k :: i <= k < q ==> slots[k][0] != 0x00 && !Holds(slots[k], name)
    ensures Find(slots, name, i).None? <==>
      forall k :: i <= k < |slots| && Holds(slots[k], name) ==> exists j :: i <= j < k && slots[j][0] == 0x00
    decreases |slots| - i
  {
    if i < |slots| && slots[i][0] != 0x00 && !Holds(slots[i], name) {
      FindIff(slots, name, i + 1, q);
    }
  }

  /** Two directories that look the same to a scan for `name` give it the same answer. */
  lemma {:induction false} FindSame(slots: seq<Slot>, slots': seq<Slot>, name: Name, i: nat)
    requires i <= |slots| == |slots'|
    requires forall q :: i <= q < |slots| ==> slots'[q] == slots[q] || (Passed(slots[q], name) && Passed(slots'[q], name))
    ensures Find(slots', name, i) == Find(slots, name, i)
    decreases |slots| - i
  {
    if i < |slots| {
      assert slots'[i] == slots[i] || (Passed(slots[i], name) && Passed(slots'[i], name));
      FindSame(slots, slots', name, i + 1);
    }
  }
}
