/** Cluster chains in a FAT whose entries are already masked to 28 bits: what a
    chain is, when several form a forest, and how linking and freeing change it. */
module FatChains {

  const EOC_MIN := 0x0FFF_FFF8
  const EOC := 0x0FFF_FFFF

  predicate IsEndOfChain(entry: nat) {
    entry >= EOC_MIN
  }

  /** The value the entry of `cs[i]` takes when `cs` is linked as one chain. */
  function LinkOf(cs: seq<nat>, i: nat): nat
    requires i < |cs|
  {
    if i + 1 < |cs| then cs[i + 1] else EOC
  }

  /** Entry `cs[i]` leads to the next cluster of `cs`, or ends the chain after the last. */
  ghost predicate Follows(fat: seq<nat>, cs: seq<nat>, i: nat)
    requires i < |cs|
  {
    && 2 <= cs[i] < |fat|
    && if i + 1 < |cs| then fat[cs[i]] == cs[i + 1] else IsEndOfChain(fat[cs[i]])
  }

  ghost predicate IsChain(fat: seq<nat>, head: nat, cs: seq<nat>) {
    && 0 < |cs| && cs[0] == head
    && forall i :: 0 <= i < |cs| ==> Follows(fat, cs, i)
  }

  ghost predicate Distinct(cs: seq<nat>) {
    forall i, j :: 0 <= i < j < |cs| ==> cs[i] != cs[j]
  }

  ghost predicate Disjoint(cs: seq<nat>, ds: seq<nat>) {
    forall c :: c in cs ==> c !in ds
  }

  /** Entries below the 28-bit marker range, so that no cluster number reads as an end marker. */
  ghost predicate Small(fat: seq<nat>) {
    |fat| < EOC_MIN
  }

  /** `own` gives each head its chain, and no two chains share a cluster. */
  ghost predicate Forest(fat: seq<nat>, own: map<nat, seq<nat>>) {
    && (forall h :: h in own ==> IsChain(fat, h, own[h]))
    && (forall g, h :: g in own && h in own && g != h ==> Disjoint(own[g], own[h]))
  }

  function Last(cs: seq<nat>): nat
    requires 0 < |cs|
  {
    cs[|cs| - 1]
  }

  // ----- chains are acyclic and unique

  lemma {:induction false} NoRepeat(fat: seq<nat>, head: nat, cs: seq<nat>, i: nat, j: nat)
    requires Small(fat) && IsChain(fat, head, cs) && i < j < |cs|
    ensures cs[i] != cs[j]
    decreases |cs| - j
  {
    assert Follows(fat, cs, i) && Follows(fat, cs, j) && Follows(fat, cs, i + 1);
    if j + 1 < |cs| {
      NoRepeat(fat, head, cs, i + 1, j + 1);
    }
  }

  /** A chain that ends never visits a cluster twice. */
  lemma ChainDistinct(fat: seq<nat>, head: nat, cs: seq<nat>)
    requires Small(fat) && IsChain(fat, head, cs)
    ensures Distinct(cs)
  {
    forall i, j | 0 <= i < j < |cs| ensures cs[i] != cs[j] {
      NoRepeat(fat, head, cs, i, j);
    }
  }

  lemma {:induction false} SameStart(fat: seq<nat>, head: nat, cs: seq<nat>, ds: seq<nat>, n: nat)
    requires Small(fat) && IsChain(fat, head, cs) && IsChain(fat, head, ds)
    requires n <= |cs|
    ensures n <= |ds| && cs[..n] == ds[..n]
  {
    if 1 < n {
      SameStart(fat, head, cs, ds, n - 1);
      assert cs[n - 2] == cs[..n - 1][n - 2] == ds[..n - 1][n - 2] == ds[n - 2];
      assert Follows(fat, cs, n - 2) && Follows(fat, ds, n - 2) && Follows(fat, cs, n - 1);
    }
  }

  /** A head determines its chain. */
  lemma ChainUnique(fat: seq<nat>, head: nat, cs: seq<nat>, ds: seq<nat>)
    requires Small(fat) && IsChain(fat, head, cs) && IsChain(fat, head, ds)
    ensures cs == ds
  {
    SameStart(fat, head, cs, ds, |cs|);
    SameStart(fat, head, ds, cs, |ds|);
  }

  /** No cluster of a chain reads as free. */
  lemma ChainNotFree(fat: seq<nat>, head: nat, cs: seq<nat>, c: nat)
    requires IsChain(fat, head, cs) && c in cs
    ensures 2 <= c < |fat| && fat[c] != 0
  {
    var i :| 0 <= i < |cs| && cs[i] == c;
    assert Follows(fat, cs, i);
    if i + 1 < |cs| {
      assert Follows(fat, cs, i + 1);
    }
  }

  /** Where a chain goes on from its `i`-th cluster. */
  lemma ChainStep(fat: seq<nat>, head: nat, cs: seq<nat>, i: nat)
    requires Small(fat) && IsChain(fat, head, cs) && i < |cs|
    ensures cs[i] < |fat|
    ensures IsEndOfChain(fat[cs[i]]) <==> i + 1 == |cs|
    ensures i + 1 < |cs| ==> fat[cs[i]] == cs[i + 1]
  {
    assert Follows(fat, cs, i);
    if i + 1 < |cs| { assert Follows(fat, cs, i + 1); }
  }

  // ----- updates

  /** A chain depends on the entries of its own clusters only. */
  lemma ChainFrame(fat: seq<nat>, fat': seq<nat>, head: nat, cs: seq<nat>)
    requires IsChain(fat, head, cs) && |fat'| == |fat|
    requires forall c :: c in cs && c < |fat| ==> fat'[c] == fat[c]
    ensures IsChain(fat', head, cs)
  {
    forall i | 0 <= i < |cs| ensures Follows(fat', cs, i) {
      assert Follows(fat, cs, i) && cs[i] in cs;
    }
  }

  ghost predicate PointsOn(fat: seq<nat>, cs: seq<nat>, i: nat)
    requires i < |cs|
  {
    cs[i] < |fat| && fat[cs[i]] == LinkOf(cs, i)
  }

  /** `fat'` is `fat` with `cs` linked as one chain and nothing else changed. */
  ghost predicate Linked(fat: seq<nat>, fat': seq<nat>, cs: seq<nat>) {
    && |fat'| == |fat|
    && (forall i :: 0 <= i < |cs| ==> PointsOn(fat', cs, i))
    && (forall c :: 0 <= c < |fat| && c !in cs ==> fat'[c] == fat[c])
  }

  /** `fat'` is `fat` with the clusters of `cs` freed and nothing else changed. */
  ghost predicate Freed(fat: seq<nat>, fat': seq<nat>, cs: seq<nat>) {
    && |fat'| == |fat|
    && (forall c :: 0 <= c < |fat| ==> fat'[c] == if c in cs then 0 else fat[c])
  }

  lemma LinkedIsChain(fat: seq<nat>, fat': seq<nat>, cs: seq<nat>)
    requires Linked(fat, fat', cs) && 0 < |cs|
    requires forall i :: 0 <= i < |cs| ==> 2 <= cs[i] < |fat|
    ensures IsChain(fat', cs[0], cs)
  {
    forall i | 0 <= i < |cs| ensures Follows(fat', cs, i) {
      assert PointsOn(fat', cs, i);
    }
  }

  /** Pointing the last cluster of one chain at the head of another joins them. */
  lemma ChainAppend(fat: seq<nat>, head: nat, cs: seq<nat>, ns: seq<nat>)
    requires Small(fat) && IsChain(fat, head, cs) && 0 < |ns| && IsChain(fat, ns[0], ns) && Disjoint(cs, ns)
    ensures Last(cs) < |fat| && IsChain(fat[Last(cs) := ns[0]], head, cs + ns)
  {
    assert Follows(fat, cs, |cs| - 1);
    ChainCutAppend(fat, head, cs, |cs|, ns);
    assert cs[..|cs|] == cs;
  }

  /** Pointing any cluster of a chain at the head of another one keeps the part of
      the first up to there, followed by the second. */
  lemma ChainCutAppend(fat: seq<nat>, head: nat, cs: seq<nat>, n: nat, ns: seq<nat>)
    requires Small(fat) && IsChain(fat, head, cs) && 0 < n <= |cs|
    requires 0 < |ns| && IsChain(fat, ns[0], ns) && Disjoint(cs, ns)
    ensures cs[n - 1] < |fat| && IsChain(fat[cs[n - 1] := ns[0]], head, cs[..n] + ns)
  {
    ChainDistinct(fat, head, cs);
    assert Follows(fat, cs, n - 1);
    var fat', all := fat[cs[n - 1] := ns[0]], cs[..n] + ns;
    forall i | 0 <= i < |all| ensures Follows(fat', all, i) {
      if i < n {
        assert Follows(fat, cs, i);
      } else {
        assert Follows(fat, ns, i - n) && ns[i - n] in ns && cs[n - 1] in cs;
      }
    }
  }

  // ----- forests under the three kinds of change an operation makes

  /** Linking free clusters as a new chain adds a tree and disturbs none. */
  lemma ForestAdd(fat: seq<nat>, fat': seq<nat>, own: map<nat, seq<nat>>, ns: seq<nat>)
    requires Forest(fat, own) && Linked(fat, fat', ns) && 0 < |ns|
    requires forall i :: 0 <= i < |ns| ==> 2 <= ns[i] < |fat| && fat[ns[i]] == 0
    ensures ns[0] !in own && Forest(fat', own[ns[0] := ns])
    ensures forall h :: h in own ==> Disjoint(own[h], ns) && Disjoint(ns, own[h])
  {
    assert ns[0] in ns;
    forall h | h in own ensures Disjoint(own[h], ns) && IsChain(fat', h, own[h]) && h != ns[0] {
      assert own[h][0] == h && own[h][0] in own[h];
      forall c | c in own[h] ensures c !in ns {
        ChainNotFree(fat, h, own[h], c);
      }
      ChainFrame(fat, fat', h, own[h]);
    }
    LinkedIsChain(fat, fat', ns);
  }

  /** Splicing the tree `n` onto the first `k` clusters of the tree `h`. */
  lemma ForestSplice(fat: seq<nat>, own: map<nat, seq<nat>>, h: nat, k: nat, n: nat)
    requires Small(fat) && Forest(fat, own) && h in own && n in own && h != n && 0 < k <= |own[h]|
    ensures own[h][k - 1] < |fat|
    ensures Forest(fat[own[h][k - 1] := n], (own - {n})[h := own[h][..k] + own[n]])
  {
    var cs, ns := own[h], own[n];
    ChainCutAppend(fat, h, cs, k, ns);
    var fat', own' := fat[cs[k - 1] := n], (own - {n})[h := cs[..k] + ns];
    forall g | g in own' && g != h ensures IsChain(fat', g, own'[g]) && Disjoint(own'[g], own'[h]) && Disjoint(own'[h], own'[g]) {
      assert Disjoint(own[g], cs) && Disjoint(own[g], ns) && cs[k - 1] in cs;
      assert forall c :: c in own'[h] ==> c in cs || c in ns;
      ChainFrame(fat, fat', g, own[g]);
    }
  }

  // ----- free clusters

  ghost function FreeSet(fat: seq<nat>): set<nat> {
    set c | 2 <= c < |fat| && fat[c] == 0
  }

  /** Number of entries that read as free, reserved entries 0 and 1 included. */
  ghost function ZeroCount(fat: seq<nat>): nat {
    if fat == [] then 0 else ZeroCount(fat[..|fat| - 1]) + if Last(fat) == 0 then 1 else 0
  }

  lemma {:induction false} ZeroCountUpdate(fat: seq<nat>, c: nat, v: nat)
    requires c < |fat|
    ensures ZeroCount(fat[c := v])
         == ZeroCount(fat) - (if fat[c] == 0 then 1 else 0) + (if v == 0 then 1 else 0)
  {
    var n := |fat| - 1;
    if c < n {
      ZeroCountUpdate(fat[..n], c, v);
      assert fat[c := v][..n] == fat[..n][c := v];
    } else {
      assert fat[c := v][..n] == fat[..n];
    }
  }

  /** Strictly ascending free clusters with no other free cluster below the last:
      the `|cs|` smallest free clusters. */
  ghost predicate SmallestFree(fat: seq<nat>, cs: seq<nat>) {
    && (forall i, j :: 0 <= i < j < |cs| ==> cs[i] < cs[j])
    && (forall i :: 0 <= i < |cs| ==> 2 <= cs[i] < |fat| && fat[cs[i]] == 0)
    && (forall c :: 2 <= c < |fat| && fat[c] == 0 && c !in cs ==> forall i :: 0 <= i < |cs| ==> cs[i] < c)
  }

  ghost function Elements(cs: seq<nat>): set<nat> {
    set c | c in cs
  }

  lemma {:induction false} AscendingSetSize(cs: seq<nat>)
    requires forall i, j :: 0 <= i < j < |cs| ==> cs[i] < cs[j]
    ensures |Elements(cs)| == |cs|
  {
    if cs != [] {
      var n := |cs| - 1;
      AscendingSetSize(cs[..n]);
      assert cs == cs[..n] + [cs[n]];
      assert Elements(cs) == Elements(cs[..n]) + {cs[n]};
    }
  }

  lemma SmallestFreeSize(fat: seq<nat>, cs: seq<nat>)
    requires SmallestFree(fat, cs)
    ensures |cs| <= |FreeSet(fat)|
    ensures (forall c :: 2 <= c < |fat| && fat[c] == 0 ==> c in cs) ==> |FreeSet(fat)| == |cs|
  {
    AscendingSetSize(cs);
    var s := Elements(cs);
    assert s <= FreeSet(fat);
    SubsetSize(s, FreeSet(fat));
    if forall c :: 2 <= c < |fat| && fat[c] == 0 ==> c in cs {
      assert s == FreeSet(fat);
    }
  }

  lemma {:induction false} SubsetSize(a: set<nat>, b: set<nat>)
    requires a <= b
    ensures |a| <= |b|
  {
    if x :| x in a {
      SubsetSize(a - {x}, b - {x});
    }
  }
}
