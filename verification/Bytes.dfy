/** Bytes, 512-byte sectors and little-endian integers: the representation every
    on-disk and on-wire structure in this project is read from and written to. */
module Bytes {

  type Byte = b: int | 0 <= b < 256

  datatype Option<+T> = None | Some(value: T)

  const SECTOR_SIZE := 512

  type Sector = s: seq<Byte> | |s| == 512 ghost witness seq(512, i => 0)

  function ZeroSector(): (s: Sector)
    ensures forall i :: 0 <= i < 512 ==> s[i] == 0
  {
    seq(512, i => 0)
  }

  const U16_LIMIT := 0x1_0000
  const U32_LIMIT := 0x1_0000_0000
  const U64_LIMIT := 0x1_0000_0000_0000_0000

  function U16(s: seq<Byte>): (v: nat)
    requires |s| == 2
    ensures v < U16_LIMIT
  {
    (s[0] as int) + 0x100 * (s[1] as int)
  }

  function Le16(v: nat): (s: seq<Byte>)
    requires v < U16_LIMIT
    ensures |s| == 2 && U16(s) == v
  {
    [v % 0x100, v / 0x100]
  }

  function U32(s: seq<Byte>): (v: nat)
    requires |s| == 4
    ensures v < U32_LIMIT
  {
    U16(s[..2]) + U16_LIMIT * U16(s[2..])
  }

  function Le32(v: nat): (s: seq<Byte>)
    requires v < U32_LIMIT
    ensures |s| == 4 && U32(s) == v
  {
    Le16(v % U16_LIMIT) + Le16(v / U16_LIMIT)
  }

  function U64(s: seq<Byte>): (v: nat)
    requires |s| == 8
    ensures v < U64_LIMIT
  {
    U32(s[..4]) + U32_LIMIT * U32(s[4..])
  }

  function Le64(v: nat): (s: seq<Byte>)
    requires v < U64_LIMIT
    ensures |s| == 8 && U64(s) == v
  {
    Le32(v % U32_LIMIT) + Le32(v / U32_LIMIT)
  }

  /** Little-endian words, byte by byte. */
  lemma U32Bytes(s: seq<Byte>)
    requires |s| == 4
    ensures U32(s) == (s[0] as int) + 0x100 * (s[1] as int) + 0x1_0000 * (s[2] as int) + 0x100_0000 * (s[3] as int)
  {
  }

  lemma U64Bytes(s: seq<Byte>)
    requires |s| == 8
    ensures U64(s) == (s[0] as int) + 0x100 * (s[1] as int) + 0x1_0000 * (s[2] as int) + 0x100_0000 * (s[3] as int)
      + 0x1_0000_0000 * ((s[4] as int) + 0x100 * (s[5] as int) + 0x1_0000 * (s[6] as int) + 0x100_0000 * (s[7] as int))
  {
    U32Bytes(s[..4]);
    U32Bytes(s[4..]);
  }

  /** A 32-bit word and its four bytes determine each other. */
  lemma U32Injective(s: seq<Byte>, t: seq<Byte>)
    requires |s| == |t| == 4
    requires U32(s) == U32(t)
    ensures s == t
  {
    assert U16(s[..2]) == U32(s) % U16_LIMIT && U16(s[2..]) == U32(s) / U16_LIMIT;
    assert U16(t[..2]) == U32(t) % U16_LIMIT && U16(t[2..]) == U32(t) / U16_LIMIT;
    assert s == s[..2] + s[2..] && t == t[..2] + t[2..];
  }

  /** Replaces the bytes from `at` on by `w`, leaving every other byte alone. */
  function Splice(s: Sector, at: nat, w: seq<Byte>): (r: Sector)
    requires at + |w| <= 512
    ensures r[at..at + |w|] == w
    ensures forall i :: 0 <= i < 512 && (i < at || at + |w| <= i) ==> r[i] == s[i]
  {
    s[..at] + w + s[at + |w|..]
  }

  function Min(a: int, b: int): (m: int) {
    if a <= b then a else b
  }

  function Max(a: int, b: int): (m: int) {
    if a <= b then b else a
  }

  /** Appending leaves the slices of what is there alone. */
  lemma SliceAppend<T>(s: seq<T>, more: seq<T>, i: nat, j: nat)
    requires i <= j <= |s|
    ensures (s + more)[i..j] == s[i..j] && (s + more)[j..] == s[j..] + more
  {
  }

  /** The middle and the rest of a concatenation. */
  lemma SliceConcat<T>(a: seq<T>, b: seq<T>, c: seq<T>)
    ensures (a + (b + c))[|a|..|a| + |b|] == b && (a + (b + c))[|a| + |b|..] == c
  {
  }

  lemma SliceOfSlice<T>(s: seq<T>, base: nat, n: nat, i: nat, j: nat)
    requires i <= j <= n && base + n <= |s|
    ensures s[base..base + n][i..j] == s[base + i..base + j]
  {
    var a, b := s[base..base + n], s[base + i..base + j];
    forall k | 0 <= k < j - i ensures a[i..j][k] == b[k] {
      assert a[i + k] == s[base + (i + k)];
    }
  }
}
