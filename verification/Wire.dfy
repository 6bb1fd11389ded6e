/** Length-prefixed fields, shared by the wire formats: UTF-8 strings behind a 16-bit length. */
module Wire {
  import opened Bytes

  // ----- UTF-8 (RFC 3629, section 4)

  predicate Tail(b: Byte) {
    0x80 <= b <= 0xBF
  }

  /** How many bytes a character with this first byte has, zero if none starts so. */
  function LeadLen(b: Byte): (n: nat)
    ensures n <= 4
  {
    if b <= 0x7F then 1 else if 0xC2 <= b <= 0xDF then 2 else if 0xE0 <= b <= 0xEF then 3 else if 0xF0 <= b <= 0xF4 then 4 else 0
  }

  /** The first `n` bytes of `s` can stand in one character. */
  predicate Fits(s: seq<Byte>, n: nat)
    requires 1 <= n <= |s|
  {
    && (2 <= n ==>
          && Tail(s[1]) && (s[0] == 0xE0 ==> 0xA0 <= s[1]) && (s[0] == 0xED ==> s[1] <= 0x9F)
          && (s[0] == 0xF0 ==> 0x90 <= s[1]) && (s[0] == 0xF4 ==> s[1] <= 0x8F))
    && (3 <= n ==> Tail(s[2])) && (4 <= n ==> Tail(s[3]))
  }

  predicate StartsChar(s: seq<Byte>) {
    s != [] && 1 <= LeadLen(s[0]) <= |s| && Fits(s, LeadLen(s[0]))
  }

  predicate ValidUtf8(s: seq<Byte>) {
    s == [] || (StartsChar(s) && ValidUtf8(s[LeadLen(s[0])..]))
  }

  // ----- texts are the encodings of character sequences

  predicate IsScalar(n: nat) {
    n <= 0x10_FFFF && !(0xD800 <= n <= 0xDFFF)
  }

  /** The encoding of a character, by its number. */
  function EncodeScalar(n: nat): (s: seq<Byte>)
    requires IsScalar(n)
  {
    if n < 0x80 then [n]
    else if n < 0x800 then [0xC0 + n / 64, 0x80 + n % 64]
    else if n < 0x1_0000 then [0xE0 + n / 64 / 64, 0x80 + n / 64 % 64, 0x80 + n % 64]
    else [0xF0 + n / 64 / 64 / 64, 0x80 + n / 64 / 64 % 64, 0x80 + n / 64 % 64, 0x80 + n % 64]
  }

  lemma ScalarStarts(n: nat, rest: seq<Byte>)
    requires IsScalar(n)
    ensures var s := EncodeScalar(n);
      && StartsChar(s + rest) && LeadLen((s + rest)[0]) == |s| && (s + rest)[|s|..] == rest
  {
    var s := EncodeScalar(n);
    assert forall i :: 0 <= i < |s| ==> (s + rest)[i] == s[i];
    if 0x800 <= n < 0x1_0000 { SixBits(n / 64); }
    if 0x1_0000 <= n { SixBits(n / 64 / 64); SixBits(n / 64); }
    assert (s + rest)[|s|..] == rest;
  }

  lemma SixBits(n: nat)
    ensures n == 64 * (n / 64) + n % 64 && n % 64 < 64
  {
  }

  /** The number of the character `s` starts with. */
  function ScalarAt(s: seq<Byte>): (n: int)
    requires StartsChar(s)
  {
    var k := LeadLen(s[0]);
    if k == 1 then s[0] as int
    else if k == 2 then (s[0] as int - 0xC0) * 64 + (s[1] as int - 0x80)
    else if k == 3 then ((s[0] as int - 0xE0) * 64 + (s[1] as int - 0x80)) * 64 + (s[2] as int - 0x80)
    else (((s[0] as int - 0xF0) * 64 + (s[1] as int - 0x80)) * 64 + (s[2] as int - 0x80)) * 64 + (s[3] as int - 0x80)
  }

  lemma StartIsScalar(s: seq<Byte>)
    requires StartsChar(s)
    ensures 0 <= ScalarAt(s) && IsScalar(ScalarAt(s)) && EncodeScalar(ScalarAt(s)) == s[..LeadLen(s[0])]
  {
    var k := LeadLen(s[0]);
    if k == 2 { TwoBytes(s[0], s[1]); assert s[..2] == [s[0], s[1]]; }
    else if k == 3 { ThreeBytes(s[0], s[1], s[2]); assert s[..3] == [s[0], s[1], s[2]]; }
    else if k == 4 { FourBytes(s[0], s[1], s[2], s[3]); assert s[..4] == [s[0], s[1], s[2], s[3]]; }
    else { assert s[..1] == [s[0]]; }
  }

  lemma TwoBytes(a: int, b: int)
    requires 0xC2 <= a <= 0xDF && 0x80 <= b <= 0xBF
    ensures var n := (a - 0xC0) * 64 + (b - 0x80); 0x80 <= n < 0x800 && EncodeScalar(n) == [a, b]
  {
    Unpacked(a - 0xC0, b - 0x80);
  }

  lemma ThreeBytes(a: int, b: int, c: int)
    requires 0xE0 <= a <= 0xEF && 0x80 <= b <= 0xBF && 0x80 <= c <= 0xBF && (a == 0xE0 ==> 0xA0 <= b) && (a == 0xED ==> b <= 0x9F)
    ensures var n := ((a - 0xE0) * 64 + (b - 0x80)) * 64 + (c - 0x80);
      0x800 <= n < 0x1_0000 && IsScalar(n) && EncodeScalar(n) == [a, b, c]
  {
    Unpacked(a - 0xE0, b - 0x80);
    Unpacked((a - 0xE0) * 64 + (b - 0x80), c - 0x80);
  }

  lemma FourBytes(a: int, b: int, c: int, d: int)
    requires 0xF0 <= a <= 0xF4 && 0x80 <= b <= 0xBF && 0x80 <= c <= 0xBF && 0x80 <= d <= 0xBF
    requires (a == 0xF0 ==> 0x90 <= b) && (a == 0xF4 ==> b <= 0x8F)
    ensures var n := (((a - 0xF0) * 64 + (b - 0x80)) * 64 + (c - 0x80)) * 64 + (d - 0x80);
      0x1_0000 <= n && IsScalar(n) && EncodeScalar(n) == [a, b, c, d]
  {
    Unpacked(a - 0xF0, b - 0x80);
    Unpacked((a - 0xF0) * 64 + (b - 0x80), c - 0x80);
    Unpacked(((a - 0xF0) * 64 + (b - 0x80)) * 64 + (c - 0x80), d - 0x80);
  }

  lemma Unpacked(a: int, b: int)
    requires 0 <= a && 0 <= b < 64
    ensures (a * 64 + b) / 64 == a && (a * 64 + b) % 64 == b
  {
  }

  function Utf8(ns: seq<nat>): (s: seq<Byte>)
    requires forall i :: 0 <= i < |ns| ==> IsScalar(ns[i])
  {
    if ns == [] then [] else EncodeScalar(ns[0]) + Utf8(ns[1..])
  }

  /** The encoding of any character sequence is a text. */
  lemma {:induction false} Utf8Valid(ns: seq<nat>)
    requires forall i :: 0 <= i < |ns| ==> IsScalar(ns[i])
    ensures ValidUtf8(Utf8(ns))
  {
    hide StartsChar, EncodeScalar, LeadLen;
    if ns != [] {
      Utf8Valid(ns[1..]);
      ScalarStarts(ns[0], Utf8(ns[1..]));
    }
  }

  /** And every text is one. */
  lemma {:induction false} ValidIsUtf8(s: seq<Byte>) returns (ns: seq<nat>)
    requires ValidUtf8(s)
    ensures (forall i :: 0 <= i < |ns| ==> IsScalar(ns[i])) && Utf8(ns) == s
    decreases |s|
  {
    hide StartsChar, EncodeScalar, LeadLen, ScalarAt;
    if s == [] {
      ns := [];
    } else {
      var k := LeadLen(s[0]);
      StartLength(s);
      StartIsScalar(s);
      var rest := ValidIsUtf8(s[k..]);
      ns := [ScalarAt(s)] + rest;
      assert ns[1..] == rest;
      assert s == s[..k] + s[k..];
    }
  }

  lemma StartLength(s: seq<Byte>)
    requires StartsChar(s)
    ensures s != [] && 1 <= LeadLen(s[0]) <= |s|
  {
  }

  /** How many bytes are missing to make `s` a text: none if it is one, some if it breaks off inside
      its last character; nothing if no bytes can make it one. */
  function Missing(s: seq<Byte>): (n: Option<nat>) {
    if s == [] then Some(0)
    else if LeadLen(s[0]) == 0 then None
    else if |s| < LeadLen(s[0]) then (if Fits(s, |s|) then Some(LeadLen(s[0]) - |s|) else None)
    else if Fits(s, LeadLen(s[0])) then Missing(s[LeadLen(s[0])..])
    else None
  }

  lemma {:induction false} AsciiValid(s: seq<Byte>)
    requires forall i :: 0 <= i < |s| ==> s[i] <= 0x7F
    ensures ValidUtf8(s)
  {
    if s != [] { AsciiValid(s[1..]); }
  }

  function Zeros(n: nat): (s: seq<Byte>)
    ensures |s| == n && forall i :: 0 <= i < n ==> s[i] == 0
  {
    seq<Byte>(n, i => 0)
  }

  lemma CharExtends(s: seq<Byte>, y: seq<Byte>)
    requires s != []
    ensures LeadLen(s[0]) <= |s| ==> (StartsChar(s + y) <==> StartsChar(s))
    ensures 1 <= LeadLen(s[0]) <= |s| ==> (s + y)[LeadLen(s[0])..] == s[LeadLen(s[0])..] + y
    ensures |s| < LeadLen(s[0]) && StartsChar(s + y) ==> Fits(s, |s|) && LeadLen(s[0]) <= |s| + |y|
  {
  }

  /** A text with more bytes after it is a text only if nothing was missing that the bytes do not have
      room for. */
  lemma {:induction false} MissingNeeded(s: seq<Byte>, y: seq<Byte>)
    requires ValidUtf8(s + y)
    ensures Missing(s).Some? && Missing(s).value <= |y|
    decreases |s|
  {
    if s != [] {
      CharExtends(s, y);
      assert (s + y)[0] == s[0];
      if LeadLen(s[0]) <= |s| {
        MissingNeeded(s[LeadLen(s[0])..], y);
      }
    }
  }

  /** The bytes that finish a character broken off after `s`. */
  function Finish(s: seq<Byte>): (y: seq<Byte>)
    requires s != [] && |s| < LeadLen(s[0])
    ensures |y| == LeadLen(s[0]) - |s|
  {
    var all: seq<Byte> := [if s[0] == 0xE0 then 0xA0 else if s[0] == 0xF0 then 0x90 else 0x80, 0x80, 0x80];
    all[|s| - 1..LeadLen(s[0]) - 1]
  }

  lemma FinishStarts(s: seq<Byte>, rest: seq<Byte>)
    requires s != [] && |s| < LeadLen(s[0]) && Fits(s, |s|)
    ensures var t := s + (Finish(s) + rest); StartsChar(t) && t[0] == s[0] && t[LeadLen(s[0])..] == rest
  {
    var t := s + (Finish(s) + rest);
    assert t[0] == s[0] && (1 < |s| ==> t[1] == s[1]) && (2 < |s| ==> t[2] == s[2]);
    assert |s| <= 3 && |s| + |Finish(s)| == LeadLen(s[0]) <= |t|;
    assert t[LeadLen(s[0])..] == rest;
    assert forall i :: |s| <= i < LeadLen(s[0]) ==> t[i] == Finish(s)[i - |s|];
  }

  /** And what is missing can be supplied, with any amount of room to spare. */
  lemma {:induction false} MissingSupplied(s: seq<Byte>, room: nat) returns (y: seq<Byte>)
    requires Missing(s).Some? && Missing(s).value <= room
    ensures |y| == room && ValidUtf8(s + y)
    decreases |s|
  {
    hide Fits, Finish, LeadLen;
    if s == [] {
      y := Zeros(room);
      AsciiValid(y);
      assert s + y == y;
    } else if |s| < LeadLen(s[0]) {
      var rest := Zeros(room - Missing(s).value);
      AsciiValid(rest);
      y := Finish(s) + rest;
      FinishStarts(s, rest);
    } else {
      y := MissingSupplied(s[LeadLen(s[0])..], room);
      CharExtends(s, y);
      assert (s + y)[0] == s[0];
    }
  }

  type Text = s: seq<Byte> | ValidUtf8(s) witness []

  // ----- fields

  function EncodeString(s: seq<Byte>): (r: seq<Byte>)
    requires |s| < U16_LIMIT
    ensures |r| == 2 + |s|
  {
    Le16(|s|) + s
  }

  function DecodeString(buf: seq<Byte>, limit: nat): (r: Option<(Text, nat)>)
    ensures r.Some? ==> r.value.1 == 2 + |r.value.0| <= |buf| && |r.value.0| <= limit
  {
    if |buf| < 2 then None
    else
      var len := U16(buf[..2]);
      if limit < len || |buf| < 2 + len || !ValidUtf8(buf[2..2 + len]) then None
      else Some((buf[2..2 + len], 2 + len))
  }

  /** A string that decodes still does, to the same, when more bytes follow; and it is the encoding that
      was read. */
  lemma StringExtends(buf: seq<Byte>, more: seq<Byte>, limit: nat)
    requires DecodeString(buf, limit).Some? && limit < U16_LIMIT
    ensures DecodeString(buf + more, limit) == DecodeString(buf, limit)
    ensures var (s, n) := DecodeString(buf, limit).value; EncodeString(s) == buf[..n]
  {
    hide ValidUtf8;
    var len := U16(buf[..2]);
    assert (buf + more)[..2] == buf[..2] && (buf + more)[2..2 + len] == buf[2..2 + len];
    assert buf[..2 + len] == buf[..2] + buf[2..2 + len];
    Le16Of(buf[..2]);
  }

  lemma Le16Of(s: seq<Byte>)
    requires |s| == 2
    ensures Le16(U16(s)) == s
  {
  }

  lemma StringRoundTrip(s: Text, more: seq<Byte>, limit: nat)
    requires |s| <= limit < U16_LIMIT
    ensures DecodeString(EncodeString(s) + more, limit) == Some((s, 2 + |s|))
  {
    hide ValidUtf8;
    var buf := EncodeString(s) + more;
    assert buf[..2] == Le16(|s|) && buf[2..2 + |s|] == s;
  }

  /** A field is its length in two bytes, low byte first, and its bytes. */
  lemma StringBytes(s: seq<Byte>)
    requires |s| < 0x1_0000
    ensures EncodeString(s) == [|s| % 0x100, |s| / 0x100] + s
  {
  }
}
