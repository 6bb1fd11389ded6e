/** What a grown file contains: exactly when it reads as its old content followed by the appended data, and what
    it reads as otherwise. */
module FileContents {
  import opened Bytes
  import opened FatLayout
  import opened FatChains
  import opened FatDirectory
  import opened FatChainGrowth
  import opened FileSystem

  // ----- bytes of sectors

  lemma FlatAppend(ss: seq<Sector>, tt: seq<Sector>)
    ensures FlatBytes(ss + tt) == FlatBytes(ss) + FlatBytes(tt)
  {
    forall i | 0 <= i < 512 * |ss + tt| ensures FlatBytes(ss + tt)[i] == (FlatBytes(ss) + FlatBytes(tt))[i] {
      var m := i - 512 * |ss|;
      if 0 <= m {
        assert m / 512 == i / 512 - |ss| && m % 512 == i % 512;
      }
    }
  }

  lemma FlatAt(ss: seq<Sector>, i: nat, b: nat)
    requires i < |ss| && b < 512
    ensures 512 * i + b < |FlatBytes(ss)| && FlatBytes(ss)[512 * i + b] == ss[i][b]
  {
    assert (512 * i + b) / 512 == i && (512 * i + b) % 512 == b;
  }

  function Chunks(data: seq<Byte>, n: nat): (ss: seq<Sector>)
    ensures |ss| == n
  {
    seq(n, i requires 0 <= i < n => Chunk(data, i))
  }

  lemma ChunksHoldData(data: seq<Byte>, n: nat)
    requires |data| <= 512 * n
    ensures FlatBytes(Chunks(data, n))[..|data|] == data
  {
    forall i | 0 <= i < |data| ensures FlatBytes(Chunks(data, n))[i] == data[i] {
      assert 512 * (i / 512) + i % 512 == i;
    }
  }

  /** The sectors a grow writes hold the data and then zeros. */
  lemma ChunksFill(data: seq<Byte>, n: nat)
    requires |data| <= 512 * n
    ensures FlatBytes(Chunks(data, n)) == data + seq<Byte>(512 * n - |data|, i => 0)
  {
    forall i | 0 <= i < 512 * n ensures FlatBytes(Chunks(data, n))[i] == if i < |data| then data[i] else 0 {
      assert 512 * (i / 512) + i % 512 == i;
    }
  }

  // ----- a chain and the clusters appended to it

  /** New clusters `ns` to go behind the chain `cs`; the disk may lack some of their sectors, and some of the chain's. */
  ghost predicate Appendable(info: BootSectorInfo, v: View, cs: seq<nat>, ns: seq<nat>) {
    && 1 <= info.sectorsPerCluster && Distinct(ns) && Disjoint(cs, ns)
    && forall i :: 0 <= i < |ns| ==> ns[i] < |v.clusters| && |v.clusters[ns[i]]| <= info.sectorsPerCluster
  }

  ghost function GrownBytes(info: BootSectorInfo, v: View, cs: seq<nat>, ns: seq<nat>, data: seq<Byte>): (bytes: seq<Byte>) {
    FileBytes(info, WithChunks(v, ns, data, |ns|), cs + ns)
  }

  /** The sectors of the new clusters that a reader of the grown chain gets to: none if the disk lacks one of the
      chain's own. */
  ghost function NewSectors(info: BootSectorInfo, v: View, cs: seq<nat>, ns: seq<nat>): (ss: seq<Sector>) {
    if Sized(v.clusters, info.sectorsPerCluster, cs) then ChainSectors(v.clusters, Reached(v.clusters, info.sectorsPerCluster, ns)) else []
  }

  /** What of `data` they can show: all that was written if each cluster has one sector, else only the first of them. */
  ghost function Shown(info: BootSectorInfo, v: View, cs: seq<nat>, ns: seq<nat>): (n: nat)
    ensures n <= |NewSectors(info, v, cs, ns)|
  {
    var n := |NewSectors(info, v, cs, ns)|;
    if info.sectorsPerCluster == 1 then n else Min(n, 1)
  }

  ghost function NewBytes(info: BootSectorInfo, v: View, cs: seq<nat>, ns: seq<nat>, data: seq<Byte>): (bytes: seq<Byte>) {
    FlatBytes(NewSectors(info, WithChunks(v, ns, data, |ns|), cs, ns))
  }

  lemma ChunksOutside(v: View, cs: seq<nat>, ns: seq<nat>, data: seq<Byte>)
    requires Disjoint(cs, ns)
    ensures SameClusters(v, WithChunks(v, ns, data, |ns|), cs)
  {
    hide WithChunks;
    assert ns[..|ns|] == ns;
  }

  lemma ChunksSized(v: View, spc: nat, cs: seq<nat>, ns: seq<nat>, data: seq<Byte>)
    requires Sized(v.clusters, spc, cs)
    ensures Sized(WithChunks(v, ns, data, |ns|).clusters, spc, cs)
  {
    hide WithChunks;
  }

  /** A whole chain with new clusters behind it reads as the chain's bytes and then what is reached of the new ones. */
  lemma GrownReached(info: BootSectorInfo, v: View, cs: seq<nat>, ns: seq<nat>, data: seq<Byte>)
    requires Disjoint(cs, ns) && Sized(v.clusters, info.sectorsPerCluster, cs)
    ensures GrownBytes(info, v, cs, ns, data) == FileBytes(info, v, cs) + FileBytes(info, WithChunks(v, ns, data, |ns|), ns)
  {
    hide WithChunks, FlatBytes, ChainSectors, Reached;
    var w, spc := WithChunks(v, ns, data, |ns|), info.sectorsPerCluster;
    ChunksOutside(v, cs, ns, data);
    ChunksSized(v, spc, cs, ns, data);
    assert (cs + ns)[..|cs|] == cs && (cs + ns)[|cs|..] == ns;
    ReachedBehind(w.clusters, spc, cs + ns, |cs|);
    ReachedWhole(v.clusters, spc, cs);
    SameSectors(v, w, cs);
    ChainSectorsAppend(w.clusters, cs, Reached(w.clusters, spc, ns));
    FlatAppend(ChainSectors(v.clusters, cs), ChainSectors(w.clusters, Reached(w.clusters, spc, ns)));
  }

  /** ... and a chain the disk lacks a sector of as its own bytes up to there. */
  lemma GrownSplit(info: BootSectorInfo, v: View, cs: seq<nat>, ns: seq<nat>, data: seq<Byte>)
    requires Disjoint(cs, ns)
    ensures GrownBytes(info, v, cs, ns, data) == FileBytes(info, v, cs) + NewBytes(info, v, cs, ns, data)
    ensures |NewBytes(info, v, cs, ns, data)| == 512 * |NewSectors(info, v, cs, ns)|
  {
    hide WithChunks, FlatBytes, ChainSectors, Reached;
    var w, spc := WithChunks(v, ns, data, |ns|), info.sectorsPerCluster;
    SameShape(v, w, spc, cs, ns);
    if Sized(v.clusters, spc, cs) {
      GrownReached(info, v, cs, ns, data);
    } else {
      assert (cs + ns)[..|cs|] == cs;
      ReachedShort(w.clusters, spc, cs + ns, |cs|);
      ChunksOutside(v, cs, ns, data);
      assert FlatBytes([]) == [];
      CutShort(info, v, w, cs);
    }
  }

  lemma CutShort(info: BootSectorInfo, v: View, w: View, cs: seq<nat>)
    requires SameClusters(v, w, cs)
    ensures FileBytes(info, w, cs) == FileBytes(info, v, cs)
  {
    hide FlatBytes;
    ReachedFrame(v.clusters, w.clusters, info.sectorsPerCluster, cs);
    SameChain(v.clusters, w.clusters, Reached(v.clusters, info.sectorsPerCluster, cs));
  }

  lemma {:induction false} SameChain(clusters: seq<seq<Sector>>, clusters': seq<seq<Sector>>, cs: seq<nat>)
    requires |clusters'| == |clusters| && forall i :: 0 <= i < |cs| && cs[i] < |clusters| ==> clusters'[cs[i]] == clusters[cs[i]]
    ensures ChainSectors(clusters', cs) == ChainSectors(clusters, cs)
  {
    if cs != [] { SameChain(clusters, clusters', cs[..|cs| - 1]); }
  }

  lemma {:induction false} SameCount(clusters: seq<seq<Sector>>, clusters': seq<seq<Sector>>, cs: seq<nat>)
    requires |clusters'| == |clusters| && forall i :: 0 <= i < |cs| && cs[i] < |clusters| ==> |clusters'[cs[i]]| == |clusters[cs[i]]|
    ensures |ChainSectors(clusters', cs)| == |ChainSectors(clusters, cs)|
  {
    if cs != [] { SameCount(clusters, clusters', cs[..|cs| - 1]); }
  }

  /** Writing data changes no cluster's size, hence not which sectors are reached. */
  lemma SameShape(v: View, w: View, spc: nat, cs: seq<nat>, ns: seq<nat>)
    requires |w.clusters| == |v.clusters| && forall c :: 0 <= c < |v.clusters| ==> |w.clusters[c]| == |v.clusters[c]|
    ensures Sized(w.clusters, spc, cs) <==> Sized(v.clusters, spc, cs)
    ensures Reached(w.clusters, spc, ns) == Reached(v.clusters, spc, ns)
    ensures |ChainSectors(w.clusters, Reached(w.clusters, spc, ns))| == |ChainSectors(v.clusters, Reached(v.clusters, spc, ns))|
  {
    hide ChainSectors, Reached;
    ReachedFrame(v.clusters, w.clusters, spc, ns);
    SameCount(v.clusters, w.clusters, Reached(v.clusters, spc, ns));
  }

  // ----- the new bytes

  /** With one sector in each of the first `n` new clusters, their sectors are the chunks. */
  lemma {:induction false} OneSectorEach(v: View, ns: seq<nat>, data: seq<Byte>, n: nat)
    requires n <= |ns| && Distinct(ns) && forall i :: 0 <= i < n ==> ns[i] < |v.clusters| && |v.clusters[ns[i]]| == 1
    ensures ChainSectors(WithChunks(v, ns, data, |ns|).clusters, ns[..n]) == Chunks(data, n)
  {
    hide WithChunks, Chunk;
    var w := WithChunks(v, ns, data, |ns|);
    if 0 < n {
      OneSectorEach(v, ns, data, n - 1);
      WithChunksAt(v, ns, data, |ns|, n - 1);
      assert ns[..n][..n - 1] == ns[..n - 1];
      assert w.clusters[ns[n - 1]] == [Chunk(data, n - 1)];
      assert Chunks(data, n) == Chunks(data, n - 1) + [Chunk(data, n - 1)];
    } else {
      assert ns[..0] == [];
    }
  }

  /** The first `n` clusters have a first sector, and the next one, if any, does not. */
  ghost predicate Leading(v: View, ns: seq<nat>, n: nat) {
    && n <= |ns| && (forall i :: 0 <= i < n ==> ns[i] < |v.clusters| && 0 < |v.clusters[ns[i]]|)
    && (n < |ns| ==> ns[n] < |v.clusters| && |v.clusters[ns[n]]| == 0)
  }

  lemma FirstMissing(v: View, ns: seq<nat>) returns (n: nat)
    requires forall i :: 0 <= i < |ns| ==> ns[i] < |v.clusters|
    ensures Leading(v, ns, n)
  {
    n := 0;
    while n < |ns| && 0 < |v.clusters[ns[n]]|
      invariant n <= |ns| && forall j :: 0 <= j < n ==> 0 < |v.clusters[ns[j]]|
    {
      n := n + 1;
    }
  }

  /** With at most one sector in each cluster, a reader gets the chunks up to the first cluster that has none. */
  lemma OneSectorReached(v: View, ns: seq<nat>, data: seq<Byte>, n: nat)
    requires Distinct(ns) && Leading(v, ns, n) && forall i :: 0 <= i < |ns| ==> ns[i] < |v.clusters| && |v.clusters[ns[i]]| <= 1
    ensures var w := WithChunks(v, ns, data, |ns|); ChainSectors(w.clusters, Reached(w.clusters, 1, ns)) == Chunks(data, n)
  {
    hide WithChunks, Chunks, ChainSectors;
    var w := WithChunks(v, ns, data, |ns|);
    OneSectorEach(v, ns, data, n);
    assert Sized(w.clusters, 1, ns[..n]);
    ReachedBehind(w.clusters, 1, ns, n);
    if n < |ns| {
      assert Reached(w.clusters, 1, ns[n..]) == [ns[n]];
      ChainSectorsAppend(w.clusters, ns[..n], [ns[n]]);
      OneClusterChain(w.clusters, ns[n]);
    } else {
      assert ns[n..] == [] && ns[..n] + [] == ns[..n];
    }
  }

  lemma OneClusterChain(clusters: seq<seq<Sector>>, c: nat)
    requires c < |clusters|
    ensures ChainSectors(clusters, [c]) == clusters[c]
  {
    assert [c][..0] == [];
  }

  /** The first two sectors reached: the first chunk, then what the first new cluster held before. */
  lemma FirstNewSectors(v: View, spc: nat, ns: seq<nat>, data: seq<Byte>)
    requires 2 <= spc && Distinct(ns) && forall i :: 0 <= i < |ns| ==> ns[i] < |v.clusters| && |v.clusters[ns[i]]| <= spc
    ensures var w := WithChunks(v, ns, data, |ns|);
      var ss := ChainSectors(w.clusters, Reached(w.clusters, spc, ns));
      && (0 < |ss| <==> 0 < |ns| && 0 < |v.clusters[ns[0]]|) && (0 < |ss| ==> ss[0] == Chunk(data, 0))
      && (1 < |ss| ==> 1 < |v.clusters[ns[0]]| && ss[1] == v.clusters[ns[0]][1])
  {
    hide WithChunks, Chunk, ChainSectors;
    var w := WithChunks(v, ns, data, |ns|);
    if ns == [] {
      NoSectors(w.clusters);
    } else {
      if 0 < |v.clusters[ns[0]]| { WithChunksAt(v, ns, data, |ns|, 0); }
      var rest := Reached(w.clusters, spc, ns)[1..];
      assert Reached(w.clusters, spc, ns) == [ns[0]] + rest;
      ChainSectorsAppend(w.clusters, [ns[0]], rest);
      OneClusterChain(w.clusters, ns[0]);
      if |v.clusters[ns[0]]| < spc { NoSectors(w.clusters); }
    }
  }

  lemma NoSectors(clusters: seq<seq<Sector>>)
    ensures ChainSectors(clusters, []) == []
  {
  }

  /** The new bytes start with as much of the data as can be shown, and go on with an old byte. */
  lemma NewBytesAre(info: BootSectorInfo, v: View, cs: seq<nat>, ns: seq<nat>, data: seq<Byte>)
    requires Appendable(info, v, cs, ns)
    ensures var n, bytes := Shown(info, v, cs, ns), NewBytes(info, v, cs, ns, data);
      && |bytes| == 512 * |NewSectors(info, v, cs, ns)|
      && (|data| <= 512 * n ==> |data| <= |bytes| && bytes[..|data|] == data)
      && (n < |NewSectors(info, v, cs, ns)| ==>
            512 < |bytes| && 0 < |ns| && 1 < |v.clusters[ns[0]]| && bytes[512] == v.clusters[ns[0]][1][0])
  {
    hide WithChunks, FlatBytes, ChainSectors, Reached, Chunk, Chunks;
    var w, spc := WithChunks(v, ns, data, |ns|), info.sectorsPerCluster;
    GrownSplit(info, v, cs, ns, data);
    SameShape(v, w, spc, cs, ns);
    var ss := NewSectors(info, w, cs, ns);
    if !Sized(v.clusters, spc, cs) {
    } else if spc == 1 {
      var n := FirstMissing(v, ns);
      OneSectorReached(v, ns, data, n);
      if |data| <= 512 * n { ChunksHoldData(data, n); }
    } else {
      FirstNewSectors(v, spc, ns, data);
      if 0 < |ss| && |data| <= 512 { FirstChunkShown(ss, data); }
      if 1 < |ss| { FlatAt(ss, 1, 0); }
    }
  }

  lemma FirstChunkShown(ss: seq<Sector>, data: seq<Byte>)
    requires 0 < |ss| && ss[0] == Chunk(data, 0) && |data| <= 512
    ensures |data| <= |FlatBytes(ss)| && FlatBytes(ss)[..|data|] == data
  {
    hide FlatBytes;
    forall b | 0 <= b < |data| ensures FlatBytes(ss)[b] == data[b] {
      FlatAt(ss, 0, b);
    }
  }

  // ----- reading an appended file

  /** The grown file reads as `size` old bytes followed by the data. */
  ghost predicate ReadsAppended(info: BootSectorInfo, v: View, cs: seq<nat>, ns: seq<nat>, size: nat, data: seq<Byte>) {
    Prefix(GrownBytes(info, v, cs, ns, data), size + |data|) == Prefix(FileBytes(info, v, cs), size) + data
  }

  /** The size says what a reader gets of the chain, and the data fits what can be shown of it; or there is no data; or
      the size says more, and the data fills all new sectors a reader gets to, which can all be shown. */
  ghost predicate AppendFits(info: BootSectorInfo, v: View, cs: seq<nat>, ns: seq<nat>, size: nat, len: nat) {
    var held, all, shown := |FileBytes(info, v, cs)|, |NewSectors(info, v, cs, ns)|, Shown(info, v, cs, ns);
    || (size == held && len <= 512 * shown)
    || (size < held && len == 0)
    || (held < size && len == 512 * all && shown == all)
  }

  /** A grown file reads as its old content followed by the data, whatever the data of that length, exactly
      when `AppendFits`: never when its last cluster was only partly filled, nor with more than 512 bytes in
      clusters of several sectors, nor with more than the sectors the disk has. */
  lemma AppendReadsIff(info: BootSectorInfo, v: View, cs: seq<nat>, ns: seq<nat>, size: nat, len: nat)
    requires Appendable(info, v, cs, ns)
    ensures (forall data: seq<Byte> :: |data| == len ==> ReadsAppended(info, v, cs, ns, size, data))
       <==> AppendFits(info, v, cs, ns, size, len)
  {
    hide ReadsAppended, FileBytes, NewSectors, Shown;
    if AppendFits(info, v, cs, ns, size, len) {
      forall data: seq<Byte> | |data| == len ensures ReadsAppended(info, v, cs, ns, size, data) {
        AppendReads(info, v, cs, ns, size, data);
      }
    } else {
      var stale: Byte := StaleAt(info, v, cs, ns, size);
      var data := seq(len, i => if stale == 0 then 1 else 0);
      AppendMisread(info, v, cs, ns, size, data, stale);
    }
  }

  lemma AppendReads(info: BootSectorInfo, v: View, cs: seq<nat>, ns: seq<nat>, size: nat, data: seq<Byte>)
    requires Appendable(info, v, cs, ns) && AppendFits(info, v, cs, ns, size, |data|)
    ensures ReadsAppended(info, v, cs, ns, size, data)
  {
    hide FileBytes, NewBytes, GrownBytes, NewSectors, Shown;
    GrownSplit(info, v, cs, ns, data);
    NewBytesAre(info, v, cs, ns, data);
    PrefixOfAppend(FileBytes(info, v, cs), NewBytes(info, v, cs, ns, data), size, data);
  }

  lemma PrefixOfAppend(b: seq<Byte>, n: seq<Byte>, size: nat, data: seq<Byte>)
    requires |data| <= |n| && n[..|data|] == data && (size == |b| || (size < |b| && |data| == 0) || (|b| < size && |n| == |data|))
    ensures Prefix(b + n, size + |data|) == Prefix(b, size) + data
  {
  }

  /** The old byte that lands where the data should have a byte of its own. */
  ghost function StaleAt(info: BootSectorInfo, v: View, cs: seq<nat>, ns: seq<nat>, size: nat): (b: Byte) {
    if size < |FileBytes(info, v, cs)| then FileBytes(info, v, cs)[size]
    else if 0 < |ns| && ns[0] < |v.clusters| && 1 < |v.clusters[ns[0]]| then v.clusters[ns[0]][1][0]
    else 0
  }

  lemma AppendMisread(info: BootSectorInfo, v: View, cs: seq<nat>, ns: seq<nat>, size: nat, data: seq<Byte>, stale: Byte)
    requires Appendable(info, v, cs, ns) && !AppendFits(info, v, cs, ns, size, |data|)
    requires stale == StaleAt(info, v, cs, ns, size) && forall i :: 0 <= i < |data| ==> data[i] != stale
    ensures !ReadsAppended(info, v, cs, ns, size, data)
  {
    hide FileBytes, NewBytes, GrownBytes, NewSectors, Shown, Distinct, Disjoint;
    var b, n := FileBytes(info, v, cs), NewBytes(info, v, cs, ns, data);
    GrownSplit(info, v, cs, ns, data);
    NewBytesAre(info, v, cs, ns, data);
    if size < |b| {
      assert Prefix(b + n, size + |data|)[size] == b[size];
    } else {
      SomeShown(info, v, cs, ns);
      MisreadBehind(b, n, size, data);
    }
  }

  lemma SomeShown(info: BootSectorInfo, v: View, cs: seq<nat>, ns: seq<nat>)
    ensures Shown(info, v, cs, ns) < |NewSectors(info, v, cs, ns)| ==> Shown(info, v, cs, ns) == 1
  {
    hide NewSectors;
  }

  /** Behind the old bytes, the data is cut short, runs on, or has an old byte in it. */
  lemma MisreadBehind(b: seq<Byte>, n: seq<Byte>, size: nat, data: seq<Byte>)
    requires |b| <= size
    requires || (if size == |b| then |n| < |data| else |n| != |data|)
             || (512 < |n| && 512 < |data| && forall i :: 0 <= i < |data| ==> data[i] != n[512])
    ensures Prefix(b + n, size + |data|) != Prefix(b, size) + data
  {
    var at := |b| + 512;
    if if size == |b| then |n| < |data| else |n| != |data| {
      assert |Prefix(b + n, size + |data|)| != |b| + |data|;
    } else {
      assert (Prefix(b, size) + data)[at] == data[512];
      assert (b + n)[at] == n[512];
    }
  }

  // ----- clusters the disk does not have

  /** How many of the new clusters the data needs, a sector in each. */
  function Needed(data: seq<Byte>): (n: nat) {
    (|data| + 511) / 512
  }

  /** A file that filled its chain, and data the driver has a sector for in every cluster it needs, the only one with
      several sectors in each: it reads as old content and data exactly when the disk has the first sector of
      each cluster the data needs. */
  lemma AppendOnDiskIff(info: BootSectorInfo, v: View, cs: seq<nat>, ns: seq<nat>, data: seq<Byte>)
    requires Appendable(info, v, cs, ns) && Sized(v.clusters, info.sectorsPerCluster, cs)
    requires |data| <= 512 * |ns| && (info.sectorsPerCluster == 1 || |data| <= 512)
    ensures Needed(data) <= |ns|
    ensures ReadsAppended(info, v, cs, ns, |FileBytes(info, v, cs)|, data) <==> HaveFirst(v, ns[..Needed(data)])
  {
    hide FileBytes, GrownBytes, NewBytes, ReadsAppended;
    var held := |FileBytes(info, v, cs)|;
    ShownIff(info, v, cs, ns, data);
    if |data| <= 512 * Shown(info, v, cs, ns) {
      AppendReads(info, v, cs, ns, held, data);
    } else {
      CutOff(info, v, cs, ns, data);
    }
  }

  lemma CutOff(info: BootSectorInfo, v: View, cs: seq<nat>, ns: seq<nat>, data: seq<Byte>)
    requires Appendable(info, v, cs, ns) && 512 * |NewSectors(info, v, cs, ns)| < |data|
    ensures !ReadsAppended(info, v, cs, ns, |FileBytes(info, v, cs)|, data)
  {
    hide FileBytes, GrownBytes, NewBytes, NewSectors;
    GrownSplit(info, v, cs, ns, data);
  }

  lemma ShownIff(info: BootSectorInfo, v: View, cs: seq<nat>, ns: seq<nat>, data: seq<Byte>)
    requires Appendable(info, v, cs, ns) && Sized(v.clusters, info.sectorsPerCluster, cs)
    requires |data| <= 512 * |ns| && (info.sectorsPerCluster == 1 || |data| <= 512)
    ensures Needed(data) <= |ns| && (HaveFirst(v, ns[..Needed(data)]) <==> |data| <= 512 * Shown(info, v, cs, ns))
    ensures 512 * Shown(info, v, cs, ns) < |data| ==> 512 * |NewSectors(info, v, cs, ns)| < |data|
  {
    hide WithChunks, ChainSectors, Reached, Chunk;
    var w, spc := WithChunks(v, ns, [], |ns|), info.sectorsPerCluster;
    SameShape(v, w, spc, cs, ns);
    if spc == 1 {
      var n := FirstMissing(v, ns);
      OneSectorReached(v, ns, [], n);
      if n < Needed(data) { assert ns[..Needed(data)][n] == ns[n]; }
    } else {
      FirstNewSectors(v, spc, ns, []);
      if 0 < |data| { assert ns[..Needed(data)] == [ns[0]]; }
    }
  }
}
