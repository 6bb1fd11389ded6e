/** The split virtqueue of section 2.6 of VIRTIO 1.1 as the block driver uses it: a descriptor table,
    an available ring the driver fills and a used ring the device fills, with 16-bit indices that wrap. */
module VirtioRing {
  import opened Bytes

  const DESC_F_NEXT := 1
  const DESC_F_WRITE := 2
  const MIN_QUEUE_SIZE := 3
  const MAX_QUEUE_SIZE := 256

  datatype Desc = Desc(addr: nat, len: nat, flags: nat, next: nat)
  datatype UsedElem = UsedElem(id: nat, len: nat)

  /** One part of a request: where it lies, how long it is, and whether the device may write it. */
  datatype Part = Part(addr: nat, len: nat, writable: bool)

  // ----- queue sizes

  predicate PowerOfTwo(n: nat) {
    0 < n && (n == 1 || (n % 2 == 0 && PowerOfTwo(n / 2)))
  }

  function ValidateQueueSize(qsize: nat): (r: Option<nat>) {
    if PowerOfTwo(qsize) && MIN_QUEUE_SIZE <= qsize <= MAX_QUEUE_SIZE then Some(qsize) else None
  }

  /** The sizes that pass are 4, 8, ..., 256; and the slot of a wrapped 16-bit index is the slot of the
      count it stands for. */
  lemma QueueSizeWraps(qsize: nat, count: nat)
    requires ValidateQueueSize(qsize).Some?
    ensures 4 <= qsize <= 256 && U16_LIMIT % qsize == 0
    ensures count % U16_LIMIT % qsize == count % qsize
  {
    PowersBelow(qsize);
    var k := U16_LIMIT / qsize;
    assert k * qsize == U16_LIMIT;
    MultipleVanishes(count / U16_LIMIT, k, count % U16_LIMIT, qsize);
  }

  lemma MultipleVanishes(w: nat, k: nat, r: nat, m: nat)
    requires 0 < m && k * m == U16_LIMIT
    ensures (w * U16_LIMIT + r) % m == r % m
  {
    var n := w * U16_LIMIT + r;
    assert n == (w * k) * m + r by {
      assert (w * k) * m == w * (k * m);
    }
    assert r == (r / m) * m + r % m;
    assert n == (w * k + r / m) * m + r % m;
    RemainderUnique(n, w * k + r / m, r % m, m);
  }

  lemma RemainderUnique(n: nat, q: nat, r: nat, m: nat)
    requires 0 < m && r < m && n == q * m + r
    ensures n % m == r
  {
    OnlyMultiple(n / m - q, m, r - n % m);
  }

  lemma OnlyMultiple(d: int, m: nat, x: int)
    requires 0 < x + m && x < m && d * m == x
    ensures x == 0
  {
    if d != 0 { MultipleAtLeast(if d < 0 then -d else d, m); }
  }

  lemma {:induction false} MultipleAtLeast(d: nat, m: nat)
    requires 1 <= d
    ensures m <= d * m
  {
    if 1 < d { MultipleAtLeast(d - 1, m); }
  }

  lemma PowersBelow(qsize: nat)
    requires ValidateQueueSize(qsize).Some?
    ensures qsize in {4, 8, 16, 32, 64, 128, 256}
  {
    var n, p := qsize, 1;
    while n != 1
      invariant 1 <= n <= 256 && PowerOfTwo(n) && n * p == qsize
      invariant p in {1, 2, 4, 8, 16, 32, 64, 128, 256}
      decreases n
    {
      n, p := n / 2, p * 2;
    }
  }

  /** Exactly the powers of two from 4 to 256 pass. */
  lemma ValidSizes(qsize: nat)
    ensures ValidateQueueSize(qsize) == if qsize in {4, 8, 16, 32, 64, 128, 256} then Some(qsize) else None
  {
    if ValidateQueueSize(qsize).Some? { PowersBelow(qsize); }
    assert PowerOfTwo(1) && PowerOfTwo(2) && PowerOfTwo(4) && PowerOfTwo(8) && PowerOfTwo(16);
    assert PowerOfTwo(32) && PowerOfTwo(64) && PowerOfTwo(128) && PowerOfTwo(256);
  }

  // ----- descriptor chains

  /** Descriptor `i` of a chain written from index 0 on. */
  function DescOf(parts: seq<Part>, i: nat): (d: Desc)
    requires i < |parts|
  {
    var write := if parts[i].writable then DESC_F_WRITE else 0;
    if i + 1 == |parts| then Desc(parts[i].addr, parts[i].len, write, 0)
    else Desc(parts[i].addr, parts[i].len, write + DESC_F_NEXT, i + 1)
  }

  predicate Table(desc: seq<Desc>, parts: seq<Part>, n: nat)
    requires n <= |parts|
  {
    n <= |desc| && forall i :: 0 <= i < n ==> desc[i] == DescOf(parts, i)
  }

  /** The device's side: it follows the links of the table, at most `left` of them. */
  function ReadChain(desc: seq<Desc>, i: nat, left: nat): (r: Option<seq<Part>>)
    decreases left
  {
    if left == 0 || |desc| <= i then None
    else
      var d := desc[i];
      var part := Part(d.addr, d.len, d.flags / 2 % 2 == 1);
      if d.flags % 2 == 0 then Some([part])
      else
        var rest := ReadChain(desc, d.next, left - 1);
        if rest.None? then None else Some([part] + rest.value)
  }

  /** Following a table written for `parts` gives back `parts`. */
  lemma {:induction false} ReadChainPosted(desc: seq<Desc>, parts: seq<Part>, i: nat, left: nat)
    requires Table(desc, parts, |parts|) && i < |parts| && |parts| - i <= left
    ensures ReadChain(desc, i, left) == Some(parts[i..])
    decreases |parts| - i
  {
    assert desc[i] == DescOf(parts, i);
    assert parts[i..] == [parts[i]] + parts[i + 1..];
    if i + 1 < |parts| {
      ReadChainPosted(desc, parts, i + 1, left - 1);
    } else {
      assert parts[i..] == [parts[i]];
    }
  }

  // ----- the queue in memory

  class Virtqueue {
    const qsize: nat
    const desc: array<Desc>
    const availRing: array<nat>
    const usedRing: array<UsedElem>
    var availIdx: nat
    var usedIdx: nat
    var lastUsedSeen: nat

    ghost predicate Valid()
      reads this
    {
      && ValidateQueueSize(qsize).Some?
      && desc.Length == availRing.Length == usedRing.Length == qsize
      && availIdx < U16_LIMIT && usedIdx < U16_LIMIT && lastUsedSeen < U16_LIMIT
    }

    constructor (qsize: nat)
      requires ValidateQueueSize(qsize).Some?
      ensures Valid() && this.qsize == qsize && availIdx == usedIdx == lastUsedSeen == 0
      ensures fresh(desc) && fresh(availRing) && fresh(usedRing)
    {
      this.qsize := qsize;
      desc := new Desc[qsize](_ => Desc(0, 0, 0, 0));
      availRing := new nat[qsize](_ => 0);
      usedRing := new UsedElem[qsize](_ => UsedElem(0, 0));
      availIdx, usedIdx, lastUsedSeen := 0, 0, 0;
    }

    /** Writes a chain from descriptor 0 on and publishes it: following the links from the head in
        the slot just published gives back exactly `parts`; the slot is the one after the last, the
        index moves by one and wraps; every other slot and descriptor stays. */
    method PostChain(parts: seq<Part>)
      requires Valid() && 1 <= |parts| <= qsize
      modifies desc, availRing, this`availIdx
      ensures Valid()
      ensures availIdx == (old(availIdx) + 1) % U16_LIMIT
      ensures availRing[..] == old(availRing[..])[old(availIdx) % qsize := 0]
      ensures ReadChain(desc[..], availRing[old(availIdx) % qsize], qsize) == Some(parts)
      ensures Table(desc[..], parts, |parts|) && desc[|parts|..] == old(desc[|parts|..])
    {
      QueueSizeWraps(qsize, 0);
      for i := 0 to |parts|
        invariant availRing[..] == old(availRing[..]) && availIdx == old(availIdx)
        invariant forall j :: 0 <= j < i ==> desc[j] == DescOf(parts, j)
        invariant forall j :: i <= j < qsize ==> desc[j] == old(desc[j])
      {
        var isLast := i + 1 == |parts|;
        var flags := if parts[i].writable then DESC_F_WRITE else 0;
        if !isLast {
          flags := flags + DESC_F_NEXT;
        }
        desc[i] := Desc(parts[i].addr, parts[i].len, flags, if isLast then 0 else i + 1);
      }
      var idx := availIdx;
      availRing[idx % qsize] := 0;
      availIdx := (idx + 1) % U16_LIMIT;
      ReadChainPosted(desc[..], parts, 0, qsize);
      assert parts[0..] == parts;
    }

    /** Consumes one completion if the device published one. */
    method PollUsed() returns (r: Option<UsedElem>)
      requires Valid()
      modifies this`lastUsedSeen
      ensures Valid()
      ensures r.None? <==> usedIdx == old(lastUsedSeen)
      ensures r.None? ==> lastUsedSeen == old(lastUsedSeen)
      ensures r.Some? ==>
        && r.value == usedRing[old(lastUsedSeen) % qsize]
        && lastUsedSeen == (old(lastUsedSeen) + 1) % U16_LIMIT
    {
      QueueSizeWraps(qsize, 0);
      var idx := usedIdx;
      if idx == lastUsedSeen {
        return None;
      }
      var elem := usedRing[lastUsedSeen % qsize];
      lastUsedSeen := (lastUsedSeen + 1) % U16_LIMIT;
      return Some(elem);
    }
  }
}
