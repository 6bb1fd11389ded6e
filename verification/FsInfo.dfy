/** The FSInfo sector: its free-cluster hint and how one allocation or release moves it. */
module FsInfo {
  import opened Bytes

  const SIGNATURE_1 := 0x4161_5252
  const SIGNATURE_2 := 0x6141_7272
  /** The stored count that means "not maintained". */
  const UNKNOWN := 0xFFFF_FFFF

  datatype FsInfoSector = FsInfoSector(freeCount: nat, nextFree: nat)

  function Parse(s: Sector): (r: Option<FsInfoSector>)
    ensures r.Some? ==> r.value.freeCount < U32_LIMIT && r.value.nextFree < U32_LIMIT
  {
    if s[510] != 0x55 || s[511] != 0xAA then None
    else if U32(s[0..4]) != SIGNATURE_1 then None
    else if U32(s[484..488]) != SIGNATURE_2 then None
    else Some(FsInfoSector(U32(s[488..492]), U32(s[492..496])))
  }

  function EncodeInto(f: FsInfoSector, s: Sector): (r: Sector)
    requires f.freeCount < U32_LIMIT && f.nextFree < U32_LIMIT
    ensures Parse(s).Some? ==> Parse(r) == Some(f)
  {
    var a := Splice(s, 488, Le32(f.freeCount));
    var r := Splice(a, 492, Le32(f.nextFree));
    assert r[488..492] == a[488..492];
    assert r[0..4] == s[0..4] && r[484..488] == s[484..488];
    r
  }

  /** The count the sector claims, when it is an FSInfo sector that claims one. */
  function Hint(s: Sector): (r: Option<nat>)
    ensures r.Some? ==> r.value < UNKNOWN
  {
    var f := Parse(s);
    if f.Some? && f.value.freeCount != UNKNOWN then Some(f.value.freeCount) else None
  }

  /** The sector with its count replaced and nothing else. */
  function WithCount(s: Sector, n: nat): (r: Sector)
    requires n < U32_LIMIT
  {
    Splice(s, 488, Le32(n))
  }

  /** The sector after one cluster was allocated (`delta == -1`) or released
      (`delta == 1`): a known count moves by one, saturating; anything else stays. */
  function Adjust(s: Sector, delta: int): (r: Sector)
    requires delta == -1 || delta == 1
  {
    if Hint(s).None? then s else
    var f := Parse(s).value;
    var n := if delta < 0 then Max(f.freeCount - 1, 0) else Min(f.freeCount + 1, UNKNOWN);
    EncodeInto(f.(freeCount := n), s)
  }

  /** The sector after `taken` clusters were allocated and `given` released: a known
      count falls to zero at the lowest, then rises again. */
  function Moved(s: Sector, taken: nat, given: nat): (r: Sector)
    requires given < MAX_MOVES
  {
    if Hint(s).None? then s else WithCount(s, MovedCount(Hint(s).value, taken, given))
  }

  function MovedCount(count: nat, taken: nat, given: nat): (n: nat)
    requires count < UNKNOWN && given < MAX_MOVES
    ensures n < U32_LIMIT
  {
    Min(Max(0, count - taken) + given, UNKNOWN)
  }

  /** More clusters than a FAT32 volume can have. */
  const MAX_MOVES := 0x1000_0000

  // ----- what the hint reads after any number of adjustments

  lemma CountWritten(s: Sector, n: nat)
    requires n < U32_LIMIT && Parse(s).Some?
    ensures Parse(WithCount(s, n)) == Some(Parse(s).value.(freeCount := n))
  {
    var r := WithCount(s, n);
    assert r[0..4] == s[0..4] && r[484..488] == s[484..488] && r[492..496] == s[492..496];
  }

  lemma SpliceSame(s: Sector, at: nat)
    requires at + 4 <= 512
    ensures Splice(s, at, Le32(U32(s[at..at + 4]))) == s
  {
    U32Injective(Le32(U32(s[at..at + 4])), s[at..at + 4]);
  }

  /** An adjustment rewrites the four count bytes and no other byte of the sector. */
  lemma AdjustCount(s: Sector, delta: int)
    requires delta == -1 || delta == 1
    ensures Hint(s).None? ==> Adjust(s, delta) == s
    ensures Hint(s).Some? ==> Adjust(s, delta) == WithCount(s, Max(0, Min(Hint(s).value + delta, UNKNOWN)))
  {
    hide U32, Le32;
    if Hint(s).Some? {
      var f := Parse(s).value;
      var n := if delta < 0 then Max(f.freeCount - 1, 0) else Min(f.freeCount + 1, UNKNOWN);
      var a := WithCount(s, n);
      assert a[492..496] == s[492..496];
      SpliceSame(a, 492);
    }
  }

  lemma CountTwice(s: Sector, m: nat, n: nat)
    requires m < U32_LIMIT && n < U32_LIMIT
    ensures WithCount(WithCount(s, m), n) == WithCount(s, n)
  {
  }

  lemma CountSame(s: Sector)
    requires Hint(s).Some?
    ensures WithCount(s, Hint(s).value) == s
  {
    SpliceSame(s, 488);
  }

  lemma HintParses(s: Sector)
    ensures Hint(s).Some? ==> Parse(s).Some?
  {
  }

  lemma HintWritten(s: Sector, n: nat)
    requires Hint(s).Some? && n <= UNKNOWN
    ensures Hint(WithCount(s, n)) == if n < UNKNOWN then Some(n) else None
  {
    CountWritten(s, n);
  }

  lemma AdjustWritten(s: Sector, m: nat, delta: int)
    requires Hint(s).Some? && m < UNKNOWN && (delta == -1 || delta == 1)
    ensures Adjust(WithCount(s, m), delta) == WithCount(s, Max(0, Min(m + delta, UNKNOWN)))
  {
    HintWritten(s, m);
    AdjustCount(WithCount(s, m), delta);
    CountTwice(s, m, Max(0, Min(m + delta, UNKNOWN)));
  }

  lemma MovedNone(s: Sector)
    ensures Moved(s, 0, 0) == s
  {
    if Hint(s).Some? { CountSame(s); }
  }

  lemma MovedDown(s: Sector, taken: nat)
    ensures Adjust(Moved(s, taken, 0), -1) == Moved(s, taken + 1, 0)
  {
    if Hint(s).Some? {
      var m: int := MovedCount(Hint(s).value, taken, 0);
      assert Max(0, Min(m - 1, UNKNOWN)) == MovedCount(Hint(s).value, taken + 1, 0);
      AdjustWritten(s, m, -1);
    }
  }

  lemma MovedUp(s: Sector, taken: nat, given: nat)
    requires given < taken < MAX_MOVES
    ensures Adjust(Moved(s, taken, given), 1) == Moved(s, taken, given + 1)
  {
    if Hint(s).Some? {
      var m := MovedCount(Hint(s).value, taken, given);
      assert Max(0, Min(m + 1, UNKNOWN)) == MovedCount(Hint(s).value, taken, given + 1);
      AdjustWritten(s, m, 1);
    }
  }

  /** Taking `n` clusters and giving them back restores the FSInfo sector byte for
      byte exactly when it makes no claim, or claimed at least `n` free clusters:
      below that the downward count saturates at zero and cannot come back. */
  lemma RollbackRestores(s: Sector, n: nat)
    requires n < MAX_MOVES
    ensures Moved(s, n, n) == s <==> Hint(s).None? || n <= Hint(s).value
  {
    if Hint(s).Some? {
      CountSame(s);
      if Hint(s).value < n { HintWritten(s, n); }
    }
  }

  // ----- the format in numbers

  /** An FSInfo sector laid out byte by byte: the bytes 52 52 61 41 first, 480 bytes, 72 72 41 61, the free count, the next
      free cluster, 14 bytes, 55 AA. */
  function Format(before: seq<Byte>, count: seq<Byte>, next: seq<Byte>, after: seq<Byte>): (s: Sector)
    requires |before| == 480 && |count| == 4 && |next| == 4 && |after| == 14
  {
    [0x52, 0x52, 0x61, 0x41] + before + [0x72, 0x72, 0x41, 0x61] + count + next + after + [0x55, 0xAA]
  }

  /** Parsing reads it back. */
  lemma ParseFormatted(before: seq<Byte>, count: seq<Byte>, next: seq<Byte>, after: seq<Byte>)
    requires |before| == 480 && |count| == 4 && |next| == 4 && |after| == 14
    ensures Parse(Format(before, count, next, after)) == Some(FsInfoSector(U32(count), U32(next)))
  {
    var s := Format(before, count, next, after);
    assert s[0..4] == [0x52, 0x52, 0x61, 0x41] && s[484..488] == [0x72, 0x72, 0x41, 0x61];
    assert s[488..492] == count && s[492..496] == next && s[510] == 0x55 && s[511] == 0xAA;
    U32Bytes(s[0..4]);
    U32Bytes(s[484..488]);
  }

  /** And reads nothing else. */
  lemma ParsedIsFormatted(s: Sector)
    requires Parse(s).Some?
    ensures s == Format(s[4..484], s[488..492], s[492..496], s[496..510])
  {
    U32Bytes([0x52, 0x52, 0x61, 0x41]);
    U32Bytes([0x72, 0x72, 0x41, 0x61]);
    U32Injective(s[0..4], [0x52, 0x52, 0x61, 0x41]);
    U32Injective(s[484..488], [0x72, 0x72, 0x41, 0x61]);
    var tail := s[510..512];
    assert tail == [0x55, 0xAA];
    assert s == s[0..4] + s[4..484] + s[484..488] + s[488..492] + s[492..496] + s[496..510] + tail;
  }

  /** A count of 0xFFFFFFFF is none; any other is the hint. */
  lemma HintIs(s: Sector)
    requires Parse(s).Some?
    ensures Hint(s) == if U32(s[488..492]) == 0xFFFF_FFFF then None else Some(U32(s[488..492]))
  {
  }

  /** One cluster taken or given back, in numbers. */
  lemma AdjustNumbers(s: Sector)
    requires Hint(s).Some?
    ensures var n := U32(s[488..492]);
      && Adjust(s, -1) == s[..488] + Le32(if n == 0 then 0 else n - 1) + s[492..]
      && n + 1 < U32_LIMIT && Adjust(s, 1) == s[..488] + Le32(n + 1) + s[492..]
  {
    AdjustCount(s, -1);
    AdjustCount(s, 1);
  }
}
