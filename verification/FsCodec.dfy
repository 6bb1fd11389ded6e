/** The filesystem service's messages, and how the server accumulates a request byte by byte. */
module FsCodec {
  import opened Bytes
  import opened Wire

  const MAX_NAME_LEN := 64
  const MAX_TOKEN_FIELD_LEN := 256
  const MAX_DATA_LEN := 4096
  const FS_MAX_PENDING_BYTES := 8192

  datatype Token = Token(subject: Text, resource: Text, issuedAt: nat, expiresAt: nat, keyId: Text, signature: Text) {
    predicate InBounds() {
      && |subject| <= MAX_TOKEN_FIELD_LEN && |resource| <= MAX_TOKEN_FIELD_LEN
      && |keyId| <= MAX_TOKEN_FIELD_LEN && |signature| <= MAX_TOKEN_FIELD_LEN
      && issuedAt < U64_LIMIT && expiresAt < U64_LIMIT
    }
  }

  datatype Request = Read(name: Text, token: Token) | Write(name: Text, token: Token, data: seq<Byte>) {
    /** The requests the format has room for. */
    predicate InBounds() {
      |name| <= MAX_NAME_LEN && token.InBounds() && (Write? ==> |data| <= MAX_DATA_LEN)
    }
  }

  datatype Error = Unauthorized | NotFound | BadRequest | DeviceFailed

  datatype Response = Data(bytes: seq<Byte>) | Ok | Failed(error: Error)

  // ----- tokens

  /** Two strings, one after the other. */
  function EncodePair(s: Text, t: Text): (r: seq<Byte>)
    requires |s| <= MAX_TOKEN_FIELD_LEN && |t| <= MAX_TOKEN_FIELD_LEN
    ensures |r| == 4 + |s| + |t|
  {
    EncodeString(s) + EncodeString(t)
  }

  function DecodePair(buf: seq<Byte>): (r: Option<(Text, Text, nat)>)
    ensures r.Some? ==>
      && |r.value.0| <= MAX_TOKEN_FIELD_LEN && |r.value.1| <= MAX_TOKEN_FIELD_LEN
      && r.value.2 == 4 + |r.value.0| + |r.value.1| <= |buf|
  {
    var s := DecodeString(buf, MAX_TOKEN_FIELD_LEN);
    if s.None? then None else
    var t := DecodeString(buf[s.value.1..], MAX_TOKEN_FIELD_LEN);
    if t.None? then None else Some((s.value.0, t.value.0, s.value.1 + t.value.1))
  }

  function EncodeToken(t: Token): (s: seq<Byte>)
    requires t.InBounds()
    ensures |s| == 24 + |t.subject| + |t.resource| + |t.keyId| + |t.signature|
  {
    EncodePair(t.subject, t.resource) + (Le64(t.issuedAt) + Le64(t.expiresAt) + EncodePair(t.keyId, t.signature))
  }

  function DecodeToken(buf: seq<Byte>): (r: Option<(Token, nat)>)
    ensures r.Some? ==> r.value.0.InBounds() && r.value.1 <= |buf|
  {
    var front := DecodePair(buf);
    if front.None? then None else
    var (subject, resource, n) := front.value;
    if |buf| < n + 16 then None else
    var back := DecodePair(buf[n + 16..]);
    if back.None? then None else
    var (keyId, signature, m) := back.value;
    Some((Token(subject, resource, U64(buf[n..n + 8]), U64(buf[n + 8..n + 16]), keyId, signature), n + 16 + m))
  }

  /** Decodes a token field by field, moving an offset along the buffer. */
  method DecodeTokenAt(buf: seq<Byte>) returns (r: Option<(Token, nat)>)
    ensures r == DecodeToken(buf)
  {
    hide DecodeString, U64;
    var off := 0;
    assert buf[off..] == buf;
    var subject := DecodeString(buf[off..], MAX_TOKEN_FIELD_LEN);
    if subject.None? {
      return None;
    }
    off := off + subject.value.1;
    var resource := DecodeString(buf[off..], MAX_TOKEN_FIELD_LEN);
    if resource.None? {
      return None;
    }
    off := off + resource.value.1;
    if |buf| < off + 16 {
      return None;
    }
    var issuedAt := U64(buf[off..off + 8]);
    off := off + 8;
    var expiresAt := U64(buf[off..off + 8]);
    off := off + 8;
    var keyId := DecodeString(buf[off..], MAX_TOKEN_FIELD_LEN);
    if keyId.None? {
      return None;
    }
    ghost var rest := buf[off..];
    off := off + keyId.value.1;
    assert rest[keyId.value.1..] == buf[off..];
    var signature := DecodeString(buf[off..], MAX_TOKEN_FIELD_LEN);
    if signature.None? {
      return None;
    }
    off := off + signature.value.1;
    return Some((Token(subject.value.0, resource.value.0, issuedAt, expiresAt, keyId.value.0, signature.value.0), off));
  }

  lemma Le64Of(s: seq<Byte>)
    requires |s| == 8
    ensures Le64(U64(s)) == s
  {
    hide U32, Le32;
    var v := U64(s);
    assert v % U32_LIMIT == U32(s[..4]) && v / U32_LIMIT == U32(s[4..]);
    U32Injective(s[..4], Le32(v % U32_LIMIT));
    U32Injective(s[4..], Le32(v / U32_LIMIT));
    assert s == s[..4] + s[4..];
  }

  lemma PairExtends(buf: seq<Byte>, more: seq<Byte>)
    requires DecodePair(buf).Some?
    ensures DecodePair(buf + more) == DecodePair(buf)
    ensures var (s, t, n) := DecodePair(buf).value; EncodePair(s, t) == buf[..n]
  {
    hide DecodeString, EncodeString;
    var (s, t, n) := DecodePair(buf).value;
    var k := 2 + |s|;
    StringExtends(buf, more, MAX_TOKEN_FIELD_LEN);
    assert (buf + more)[k..] == buf[k..] + more;
    StringExtends(buf[k..], more, MAX_TOKEN_FIELD_LEN);
    assert buf[..n] == buf[..k] + buf[k..][..n - k];
  }

  lemma PairRoundTrip(s: Text, t: Text, more: seq<Byte>)
    requires |s| <= MAX_TOKEN_FIELD_LEN && |t| <= MAX_TOKEN_FIELD_LEN
    ensures DecodePair(EncodePair(s, t) + more) == Some((s, t, 4 + |s| + |t|))
  {
    hide DecodeString, EncodeString;
    var rest := EncodeString(t) + more;
    assert EncodePair(s, t) + more == EncodeString(s) + rest;
    StringRoundTrip(s, rest, MAX_TOKEN_FIELD_LEN);
    assert (EncodeString(s) + rest)[2 + |s|..] == rest;
    StringRoundTrip(t, more, MAX_TOKEN_FIELD_LEN);
  }

  lemma TokenSlices(buf: seq<Byte>, n: nat, end: nat)
    requires n + 16 <= end <= |buf|
    ensures buf[..end] == buf[..n] + (buf[n..n + 8] + buf[n + 8..n + 16] + buf[n + 16..][..end - n - 16])
  {
  }

  lemma TokenExtends(buf: seq<Byte>, more: seq<Byte>)
    requires DecodeToken(buf).Some?
    ensures DecodeToken(buf + more) == DecodeToken(buf)
    ensures EncodeToken(DecodeToken(buf).value.0) == buf[..DecodeToken(buf).value.1]
  {
    hide DecodePair, EncodePair, U64, Le64;
    var t, end := DecodeToken(buf).value.0, DecodeToken(buf).value.1;
    var n := DecodePair(buf).value.2;
    PairExtends(buf, more);
    SliceAppend(buf, more, n, n + 8);
    SliceAppend(buf, more, n + 8, n + 16);
    PairExtends(buf[n + 16..], more);
    Le64Of(buf[n..n + 8]);
    Le64Of(buf[n + 8..n + 16]);
    TokenSlices(buf, n, end);
  }

  lemma TokenRoundTrip(t: Token, more: seq<Byte>)
    requires t.InBounds()
    ensures DecodeToken(EncodeToken(t) + more) == Some((t, |EncodeToken(t)|))
  {
    hide DecodePair, EncodePair, U64, Le64;
    var n := 4 + |t.subject| + |t.resource|;
    var back := EncodePair(t.keyId, t.signature) + more;
    var late := Le64(t.expiresAt) + back;
    var front := EncodePair(t.subject, t.resource);
    var buf := EncodeToken(t) + more;
    assert buf == front + (Le64(t.issuedAt) + late);
    PairRoundTrip(t.subject, t.resource, Le64(t.issuedAt) + late);
    SliceConcat(front, Le64(t.issuedAt), late);
    assert front + (Le64(t.issuedAt) + late) == (front + Le64(t.issuedAt)) + late;
    SliceConcat(front + Le64(t.issuedAt), Le64(t.expiresAt), back);
    PairRoundTrip(t.keyId, t.signature, more);
  }

  // ----- requests

  function EncodeData(data: seq<Byte>): (s: seq<Byte>)
    requires |data| < U16_LIMIT
  {
    Le16(|data|) + data
  }

  function DecodeData(buf: seq<Byte>): (r: Option<(seq<Byte>, nat)>)
    ensures r.Some? ==> r.value.1 == 2 + |r.value.0| <= |buf| && |r.value.0| <= MAX_DATA_LEN
  {
    if |buf| < 2 then None
    else
      var len := U16(buf[..2]);
      if MAX_DATA_LEN < len || |buf| < 2 + len then None else Some((buf[2..2 + len], 2 + len))
  }

  /** The name and the token, which every request starts with after its tag. */
  function EncodeHead(name: Text, token: Token): (s: seq<Byte>)
    requires |name| <= MAX_NAME_LEN && token.InBounds()
    ensures |s| <= 1114
  {
    EncodeString(name) + EncodeToken(token)
  }

  function DecodeHead(buf: seq<Byte>): (r: Option<(Text, Token, nat)>)
    ensures r.Some? ==> |r.value.0| <= MAX_NAME_LEN && r.value.1.InBounds() && r.value.2 <= |buf|
  {
    var name := DecodeString(buf, MAX_TOKEN_FIELD_LEN);
    if name.None? || MAX_NAME_LEN < |name.value.0| then None else
    var token := DecodeToken(buf[name.value.1..]);
    if token.None? then None else Some((name.value.0, token.value.0, name.value.1 + token.value.1))
  }

  function Encode(r: Request): (s: seq<Byte>)
    requires r.InBounds()
    ensures 0 < |s| <= 5213
  {
    match r
    case Read(name, token) => [0] + EncodeHead(name, token)
    case Write(name, token, data) => [1] + (EncodeHead(name, token) + EncodeData(data))
  }

  function Decode(buf: seq<Byte>): (r: Option<(Request, nat)>)
    ensures r.Some? ==> r.value.0.InBounds() && r.value.1 <= |buf|
  {
    if buf == [] then None else
    var head := DecodeHead(buf[1..]);
    if head.None? then None else
    var (name, token, n) := head.value;
    if buf[0] == 0 then Some((Read(name, token), 1 + n))
    else if buf[0] == 1 then
      var data := DecodeData(buf[1 + n..]);
      if data.None? then None else Some((Write(name, token, data.value.0), 1 + n + data.value.1))
    else None
  }

  lemma DataExtends(buf: seq<Byte>, more: seq<Byte>)
    requires DecodeData(buf).Some?
    ensures DecodeData(buf + more) == DecodeData(buf)
    ensures EncodeData(DecodeData(buf).value.0) == buf[..DecodeData(buf).value.1]
  {
    var len := U16(buf[..2]);
    assert (buf + more)[..2] == buf[..2] && (buf + more)[2..2 + len] == buf[2..2 + len];
    assert buf[..2 + len] == buf[..2] + buf[2..2 + len];
    Le16Of(buf[..2]);
  }

  lemma DataRoundTrip(data: seq<Byte>, more: seq<Byte>)
    requires |data| <= MAX_DATA_LEN
    ensures DecodeData(EncodeData(data) + more) == Some((data, |EncodeData(data)|)) && |EncodeData(data)| == 2 + |data|
  {
    var buf := EncodeData(data) + more;
    assert buf[..2] == Le16(|data|) && buf[2..2 + |data|] == data;
  }

  lemma HeadExtends(buf: seq<Byte>, more: seq<Byte>)
    requires DecodeHead(buf).Some?
    ensures DecodeHead(buf + more) == DecodeHead(buf)
    ensures var (name, token, n) := DecodeHead(buf).value; EncodeHead(name, token) == buf[..n]
  {
    hide DecodeString, EncodeString, DecodeToken, EncodeToken, Token.InBounds;
    var (name, token, n) := DecodeHead(buf).value;
    var k := 2 + |name|;
    StringExtends(buf, more, MAX_TOKEN_FIELD_LEN);
    assert (buf + more)[k..] == buf[k..] + more;
    TokenExtends(buf[k..], more);
    assert buf[..n] == buf[..k] + buf[k..][..n - k];
  }

  lemma HeadRoundTrip(name: Text, token: Token, more: seq<Byte>)
    requires |name| <= MAX_NAME_LEN && token.InBounds()
    ensures DecodeHead(EncodeHead(name, token) + more) == Some((name, token, |EncodeHead(name, token)|))
  {
    hide DecodeString, EncodeString, DecodeToken, EncodeToken, Token.InBounds;
    var rest := EncodeToken(token) + more;
    assert EncodeHead(name, token) + more == EncodeString(name) + rest;
    StringRoundTrip(name, rest, MAX_TOKEN_FIELD_LEN);
    assert (EncodeString(name) + rest)[2 + |name|..] == rest;
    TokenRoundTrip(token, more);
  }

  /** A request that decodes still does, to the same, whatever follows; and the bytes it was read from
      are its encoding. */
  lemma DecodeExtends(buf: seq<Byte>, more: seq<Byte>)
    requires Decode(buf).Some?
    ensures Decode(buf + more) == Decode(buf)
    ensures Encode(Decode(buf).value.0) == buf[..Decode(buf).value.1]
  {
    hide DecodeHead, EncodeHead, DecodeData, EncodeData, Token.InBounds;
    var n, k := Decode(buf).value.1, 1 + DecodeHead(buf[1..]).value.2;
    assert (buf + more)[1..] == buf[1..] + more;
    HeadExtends(buf[1..], more);
    assert buf[..k] == [buf[0]] + buf[1..][..k - 1];
    if buf[0] == 1 {
      assert (buf + more)[k..] == buf[k..] + more;
      DataExtends(buf[k..], more);
      assert buf[..n] == buf[..k] + buf[k..][..n - k];
    }
  }

  lemma ReadRoundTrip(name: Text, token: Token, more: seq<Byte>)
    requires |name| <= MAX_NAME_LEN && token.InBounds()
    ensures Decode([0] + EncodeHead(name, token) + more) == Some((Read(name, token), 1 + |EncodeHead(name, token)|))
  {
    hide DecodeHead, EncodeHead, DecodeData, EncodeData, Token.InBounds;
    var head := EncodeHead(name, token);
    HeadRoundTrip(name, token, more);
    assert ([0] + head + more)[1..] == head + more;
  }

  lemma WriteRoundTrip(name: Text, token: Token, data: seq<Byte>, more: seq<Byte>)
    requires |name| <= MAX_NAME_LEN && token.InBounds() && |data| <= MAX_DATA_LEN
    ensures Decode([1] + (EncodeHead(name, token) + EncodeData(data)) + more)
         == Some((Write(name, token, data), 1 + |EncodeHead(name, token)| + |EncodeData(data)|))
  {
    hide DecodeHead, EncodeHead, DecodeData, EncodeData, Token.InBounds;
    var head, tail := EncodeHead(name, token), EncodeData(data) + more;
    var buf := [1] + (head + EncodeData(data)) + more;
    assert buf == [1] + (head + tail);
    HeadRoundTrip(name, token, tail);
    SliceConcat([1], head, tail);
    assert buf[1..] == head + tail;
    DataRoundTrip(data, more);
  }

  /** Decoding an encoded request, whatever follows it, gives it back and its length. No request is
      longer than 5213 bytes. */
  lemma RoundTrip(r: Request, more: seq<Byte>)
    requires r.InBounds()
    ensures Decode(Encode(r) + more) == Some((r, |Encode(r)|)) && |Encode(r)| <= 5213
  {
    hide Decode, EncodeHead, EncodeData, Token.InBounds;
    match r
    case Read(name, token) => ReadRoundTrip(name, token, more);
    case Write(name, token, data) => WriteRoundTrip(name, token, data, more);
  }

  /** No proper prefix of an encoded request decodes. */
  lemma PrefixDoesNotDecode(r: Request, k: nat)
    requires r.InBounds() && k < |Encode(r)|
    ensures Decode(Encode(r)[..k]).None?
  {
    hide Decode, Encode;
    var s := Encode(r);
    RoundTrip(r, []);
    assert s + [] == s && s[..k] + s[k..] == s;
    if Decode(s[..k]).Some? {
      DecodeExtends(s[..k], s[k..]);
    }
  }

  // ----- accumulating a request

  /** A session's buffer of bytes not yet decoded. */
  class Session {
    var buf: seq<Byte>

    constructor ()
      ensures buf == []
    {
      buf := [];
    }

    /** Takes one byte. Once the buffer decodes, the request is returned and its bytes leave the buffer;
        a buffer that has grown past the limit without decoding is discarded. */
    method Receive(b: Byte) returns (r: Option<Request>)
      modifies this
      ensures (buf, r) == Fed(old(buf), b)
    {
      buf := buf + [b];
      var d := Decode(buf);
      if d.None? {
        if FS_MAX_PENDING_BYTES < |buf| {
          buf := [];
        }
        return None;
      }
      buf := buf[d.value.1..];
      return Some(d.value.0);
    }
  }

  function Fed(buf: seq<Byte>, b: Byte): (r: (seq<Byte>, Option<Request>)) {
    var all := buf + [b];
    var d := Decode(all);
    if d.Some? then (all[d.value.1..], Some(d.value.0))
    else if FS_MAX_PENDING_BYTES < |all| then ([], None)
    else (all, None)
  }

  /** The buffer, and what was decoded, after each of `bytes` was received in turn. */
  function FedAll(bytes: seq<Byte>): (r: (seq<Byte>, seq<Option<Request>>))
    ensures |r.1| == |bytes|
  {
    if bytes == [] then ([], [])
    else
      var before := FedAll(bytes[..|bytes| - 1]);
      var now := Fed(before.0, bytes[|bytes| - 1]);
      (now.0, before.1 + [now.1])
  }

  /** Whatever arrives, no more than 8192 undecoded bytes are kept, and they are discarded exactly when one more does not
      complete a request. */
  lemma {:induction false} PendingBounded(bytes: seq<Byte>, b: Byte)
    ensures |FedAll(bytes).0| <= 8192
    ensures var buf := FedAll(bytes).0;
      Fed(buf, b) == ([], None) <==> |buf| == 8192 && Decode(buf + [b]).None?
    decreases |bytes|
  {
    hide Decode;
    if bytes != [] {
      var front, last := bytes[..|bytes| - 1], bytes[|bytes| - 1];
      PendingBounded(front, last);
      var all := FedAll(front).0 + [last];
      if Decode(all).Some? { DecodeExtends(all, []); }
    }
  }

  function Nothing(k: nat): (r: seq<Option<Request>>)
    ensures |r| == k && forall i :: 0 <= i < k ==> r[i] == None
  {
    seq(k, i => None)
  }

  /** While a request arrives nothing is decoded and nothing discarded. */
  lemma {:induction false} NothingYet(r: Request, k: nat)
    requires r.InBounds() && k < |Encode(r)|
    ensures FedAll(Encode(r)[..k]) == (Encode(r)[..k], Nothing(k))
  {
    hide Decode, Encode;
    var s := Encode(r);
    if 0 < k {
      NothingYet(r, k - 1);
      PrefixDoesNotDecode(r, k);
      RoundTrip(r, []);
      assert s[..k][..k - 1] == s[..k - 1] && s[..k - 1] + [s[k - 1]] == s[..k];
      assert Nothing(k - 1) + [None] == Nothing(k);
    }
  }

  /** A request received byte by byte is decoded exactly at its last byte, and leaves the buffer empty. */
  lemma FiresAtLastByte(r: Request)
    requires r.InBounds()
    ensures 0 < |Encode(r)| && FedAll(Encode(r)) == ([], Nothing(|Encode(r)| - 1) + [Some(r)])
  {
    hide Decode, Encode;
    var s := Encode(r);
    RoundTrip(r, []);
    assert s + [] == s;
    NothingYet(r, |s| - 1);
    assert s[..|s| - 1] + [s[|s| - 1]] == s;
  }

  // ----- responses

  function ErrorByte(e: Error): (b: Byte) {
    match e
    case Unauthorized => 0
    case NotFound => 1
    case BadRequest => 2
    case DeviceFailed => 3
  }

  function ErrorOf(b: Byte): (e: Option<Error>) {
    if b == 0 then Some(Unauthorized) else if b == 1 then Some(NotFound) else if b == 2 then Some(BadRequest)
    else if b == 3 then Some(DeviceFailed) else None
  }

  /** The data length is cut to sixteen bits. */
  function EncodeResponse(r: Response): (s: seq<Byte>) {
    match r
    case Data(bytes) => [0] + Le16(|bytes| % U16_LIMIT) + bytes
    case Ok => [1]
    case Failed(e) => [2, ErrorByte(e)]
  }

  function DecodeResponse(buf: seq<Byte>): (r: Option<(Response, nat)>) {
    if buf == [] then None
    else if buf[0] == 0 then
      if |buf| < 3 then None
      else
        var len := U16(buf[1..3]);
        if MAX_DATA_LEN < len || |buf| < 3 + len then None else Some((Data(buf[3..3 + len]), 3 + len))
    else if buf[0] == 1 then Some((Ok, 1))
    else if buf[0] == 2 then
      if |buf| < 2 || ErrorOf(buf[1]).None? then None else Some((Failed(ErrorOf(buf[1]).value), 2))
    else None
  }

  /** A response survives the wire exactly when its data is at most 4096 bytes. */
  lemma ResponseRoundTripIff(r: Response, more: seq<Byte>)
    ensures DecodeResponse(EncodeResponse(r) + more) == Some((r, |EncodeResponse(r)|)) <==> (r.Data? ==> |r.bytes| <= MAX_DATA_LEN)
  {
    var buf := EncodeResponse(r) + more;
    if r.Data? {
      var len := |r.bytes| % U16_LIMIT;
      assert buf[1..3] == Le16(len);
      if |r.bytes| <= MAX_DATA_LEN {
        assert buf[3..3 + len] == r.bytes;
      }
    }
  }

  // ----- the format in numbers

  function LengthAnd(s: seq<Byte>): (r: seq<Byte>)
    requires |s| < 0x1_0000
  {
    [|s| % 0x100, |s| / 0x100] + s
  }

  /** What the format has room for. */
  lemma BoundsAre(r: Request)
    ensures r.InBounds() <==>
      && |r.name| <= 64 && |r.token.subject| <= 256 && |r.token.resource| <= 256 && |r.token.keyId| <= 256 && |r.token.signature| <= 256
      && r.token.issuedAt < 0x1_0000_0000_0000_0000 && r.token.expiresAt < 0x1_0000_0000_0000_0000 && (r.Write? ==> |r.data| <= 4096)
  {
  }

  /** A request is 0 for a read or 1 for a write, the name, the token's subject and resource, its times in eight bytes
      each, its key and signature, each text behind its length; and the data of a write likewise. */
  lemma RequestBytes(r: Request)
    requires r.InBounds()
    ensures |r.name| <= 64 && |r.token.subject| <= 256 && |r.token.resource| <= 256 && |r.token.keyId| <= 256 && |r.token.signature| <= 256
    ensures r.Write? ==> |r.data| <= 4096
    ensures Encode(r) == [if r.Read? then 0 else 1] + LengthAnd(r.name) + LengthAnd(r.token.subject) + LengthAnd(r.token.resource)
      + Le64(r.token.issuedAt) + Le64(r.token.expiresAt) + LengthAnd(r.token.keyId) + LengthAnd(r.token.signature)
      + if r.Write? then LengthAnd(r.data) else []
  {
    hide Le64;
    Regrouped([if r.Read? then 0 else 1], LengthAnd(r.name), LengthAnd(r.token.subject), LengthAnd(r.token.resource), Le64(r.token.issuedAt),
              Le64(r.token.expiresAt), LengthAnd(r.token.keyId), LengthAnd(r.token.signature), if r.Write? then LengthAnd(r.data) else []);
  }

  lemma Regrouped(h: seq<Byte>, n: seq<Byte>, s: seq<Byte>, r: seq<Byte>, i: seq<Byte>, x: seq<Byte>, k: seq<Byte>, g: seq<Byte>, d: seq<Byte>)
    ensures h + n + s + r + i + x + k + g + d == h + ((n + ((s + r) + (i + x + (k + g)))) + d)
  {
    assert s + r + i + x + k + g == (s + r) + (i + x + (k + g));
    assert h + n + s + r + i + x + k + g + d == h + n + (s + r + i + x + k + g) + d;
  }

  /** A response is 0 and the data behind its length in two bytes, or 1, or 2 and the error's number. */
  lemma ResponseBytes(r: Response)
    ensures EncodeResponse(r) == match r
      case Data(bytes) => [0, |bytes| % 0x1_0000 % 0x100, |bytes| % 0x1_0000 / 0x100] + bytes
      case Ok => [1]
      case Failed(e) => [2, match e case Unauthorized => 0 case NotFound => 1 case BadRequest => 2 case DeviceFailed => 3]
  {
  }
}
