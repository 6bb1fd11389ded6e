/** The MARSHAL response messages and their streaming decoder. */
module Marshal {
  import opened Bytes
  import opened Wire

  const MAX_JSON_LEN := 16384
  const MAX_MESSAGE_LEN := 256

  datatype Outcome = Execute | Refuse | HardStop

  datatype Error = Unreachable(msg: Text) | Timeout | BadResponse(msg: Text) | Other(msg: Text) | PolicyRefused(msg: Text)

  datatype Response = Decision(outcome: Outcome, json: seq<Byte>) | Failed(error: Error) {
    /** The responses the format has room for. */
    predicate InBounds() {
      match this
      case Decision(_, json) => |json| <= MAX_JSON_LEN
      case Failed(Timeout) => true
      case Failed(e) => |e.msg| <= MAX_MESSAGE_LEN
    }
  }

  // ----- encoding

  function OutcomeByte(o: Outcome): (b: Byte) {
    match o
    case Execute => 0
    case Refuse => 1
    case HardStop => 2
  }

  function OutcomeOf(b: Byte): (o: Option<Outcome>)
    ensures o.Some? ==> OutcomeByte(o.value) == b
    ensures o.None? <==> 3 <= b
  {
    if b == 0 then Some(Execute) else if b == 1 then Some(Refuse) else if b == 2 then Some(HardStop) else None
  }

  function EncodeBytes(s: seq<Byte>): (r: seq<Byte>)
    requires |s| < U32_LIMIT
  {
    Le32(|s|) + s
  }

  function EncodeError(e: Error): (r: seq<Byte>)
    requires e.Timeout? || |e.msg| < U16_LIMIT
  {
    match e
    case Unreachable(msg) => [0] + EncodeString(msg)
    case Timeout => [1]
    case BadResponse(msg) => [2] + EncodeString(msg)
    case Other(msg) => [3] + EncodeString(msg)
    case PolicyRefused(msg) => [4] + EncodeString(msg)
  }

  function Encode(r: Response): (s: seq<Byte>)
    requires r.InBounds()
  {
    match r
    case Decision(outcome, json) => [0, OutcomeByte(outcome)] + EncodeBytes(json)
    case Failed(error) => [1] + EncodeError(error)
  }

  // ----- decoding

  function DecodeBytes(buf: seq<Byte>): (r: Option<(seq<Byte>, nat)>)
    ensures r.Some? ==> r.value.1 == 4 + |r.value.0| <= |buf| && |r.value.0| <= MAX_JSON_LEN
  {
    if |buf| < 4 then None
    else
      var len := U32(buf[..4]);
      if MAX_JSON_LEN < len || |buf| < 4 + len then None else Some((buf[4..4 + len], 4 + len))
  }

  function DecodeError(buf: seq<Byte>): (r: Option<(Error, nat)>)
    ensures r.Some? ==> 1 <= r.value.1 <= |buf| && (r.value.0.Timeout? || |r.value.0.msg| <= MAX_MESSAGE_LEN)
  {
    if buf == [] then None
    else if buf[0] == 1 then Some((Timeout, 1))
    else if 4 < buf[0] then None
    else
      var s := DecodeString(buf[1..], MAX_MESSAGE_LEN);
      if s.None? then None
      else
        var (msg, n) := s.value;
        var error := if buf[0] == 0 then Unreachable(msg) else if buf[0] == 2 then BadResponse(msg)
                     else if buf[0] == 3 then Other(msg) else PolicyRefused(msg);
        Some((error, 1 + n))
  }

  function Decode(buf: seq<Byte>): (r: Option<(Response, nat)>)
    ensures r.Some? ==> r.value.0.InBounds() && r.value.1 <= |buf|
  {
    if buf == [] then None
    else if buf[0] == 0 then
      if |buf| < 2 || OutcomeOf(buf[1]).None? then None
      else
        var json := DecodeBytes(buf[2..]);
        if json.None? then None else Some((Decision(OutcomeOf(buf[1]).value, json.value.0), 2 + json.value.1))
    else if buf[0] == 1 then
      var error := DecodeError(buf[1..]);
      if error.None? then None else Some((Failed(error.value.0), 1 + error.value.1))
    else None
  }

  // ----- the streaming decoder

  /** A step's verdict: wrong whatever follows, in need of more bytes, or complete after `n`. */
  datatype Verdict = Wrong | More | Whole(n: nat)

  datatype Status = Complete(response: Response, consumed: nat) | Incomplete | Malformed

  function StatusBytes(buf: seq<Byte>): (v: Verdict) {
    if |buf| < 4 then More
    else
      var len := U32(buf[..4]);
      if MAX_JSON_LEN < len then Wrong else if |buf| < 4 + len then More else Whole(4 + len)
  }

  function StatusString(buf: seq<Byte>): (v: Verdict) {
    if |buf| < 2 then More
    else
      var len := U16(buf[..2]);
      if MAX_MESSAGE_LEN < len then Wrong
      else if |buf| < 2 + len then More
      else if !ValidUtf8(buf[2..2 + len]) then Wrong
      else Whole(2 + len)
  }

  function StatusError(buf: seq<Byte>): (v: Verdict) {
    if buf == [] then More
    else if buf[0] == 1 then Whole(1)
    else if buf[0] <= 4 then
      var v := StatusString(buf[1..]);
      if v.Whole? then Whole(1 + v.n) else v
    else Wrong
  }

  function VerdictOf(buf: seq<Byte>): (v: Verdict) {
    if buf == [] then More
    else if buf[0] == 0 then
      if |buf| < 2 then More else if OutcomeOf(buf[1]).None? then Wrong else StatusBytes(buf[2..])
    else if buf[0] == 1 then StatusError(buf[1..])
    else Wrong
  }

  function DecodeStatus(buf: seq<Byte>): (s: Status) {
    match VerdictOf(buf)
    case Wrong => Malformed
    case More => Incomplete
    case Whole(_) =>
      var r := Decode(buf);
      if r.Some? then Complete(r.value.0, r.value.1) else Malformed
  }

  // ----- what the two decoders have to do with each other

  /** The framing is complete exactly when the message decodes: the fallback for a complete frame that
      does not decode is never taken. */
  lemma WholeIffDecodes(buf: seq<Byte>)
    ensures VerdictOf(buf).Whole? <==> Decode(buf).Some?
  {
    hide ValidUtf8, U32, U16;
  }

  /** And the frame is as long as what is decoded. */
  lemma FrameLengths(buf: seq<Byte>)
    ensures StatusBytes(buf).Whole? ==> DecodeBytes(buf).Some? && StatusBytes(buf).n == DecodeBytes(buf).value.1
    ensures StatusError(buf).Whole? ==> DecodeError(buf).Some? && StatusError(buf).n == DecodeError(buf).value.1
  {
    hide ValidUtf8, U32, U16;
  }

  /** The streaming decoder is complete exactly when the plain one succeeds, with the same response and
      length. */
  lemma CompleteIffDecodes(buf: seq<Byte>, r: Response, n: nat)
    ensures DecodeStatus(buf) == Complete(r, n) <==> Decode(buf) == Some((r, n))
  {
    hide VerdictOf, Decode;
    WholeIffDecodes(buf);
  }

  lemma BytesExtend(buf: seq<Byte>, more: seq<Byte>)
    requires 4 <= |buf|
    ensures DecodeBytes(buf).Some? ==>
      && DecodeBytes(buf + more) == DecodeBytes(buf)
      && EncodeBytes(DecodeBytes(buf).value.0) == buf[..DecodeBytes(buf).value.1]
    ensures StatusBytes(buf).Wrong? ==> StatusBytes(buf + more).Wrong?
  {
    var len := U32(buf[..4]);
    assert (buf + more)[..4] == buf[..4];
    if len <= MAX_JSON_LEN && 4 + len <= |buf| {
      assert (buf + more)[4..4 + len] == buf[4..4 + len];
      assert buf[..4 + len] == buf[..4] + buf[4..4 + len];
      U32Injective(buf[..4], Le32(len));
    }
  }

  lemma StringStatusExtends(buf: seq<Byte>, more: seq<Byte>)
    requires StatusString(buf).Wrong?
    ensures StatusString(buf + more).Wrong?
  {
    hide ValidUtf8;
    var len := U16(buf[..2]);
    assert (buf + more)[..2] == buf[..2];
    if len <= MAX_MESSAGE_LEN { assert (buf + more)[2..2 + len] == buf[2..2 + len]; }
  }

  lemma ErrorExtends(buf: seq<Byte>, more: seq<Byte>)
    ensures DecodeError(buf).Some? ==>
      && DecodeError(buf + more) == DecodeError(buf)
      && EncodeError(DecodeError(buf).value.0) == buf[..DecodeError(buf).value.1]
    ensures StatusError(buf).Wrong? ==> StatusError(buf + more).Wrong?
  {
    hide ValidUtf8, DecodeString, EncodeString, StatusString;
    if buf != [] {
      assert (buf + more)[1..] == buf[1..] + more;
      if StatusString(buf[1..]).Wrong? { StringStatusExtends(buf[1..], more); }
      var s := DecodeString(buf[1..], MAX_MESSAGE_LEN);
      if s.Some? {
        StringExtends(buf[1..], more, MAX_MESSAGE_LEN);
        assert buf[..1 + s.value.1] == [buf[0]] + buf[1..][..s.value.1];
      }
    }
  }

  /** A response that decodes still does, to the same, whatever follows; and the bytes it was read from
      are its encoding. */
  lemma DecodeExtends(buf: seq<Byte>, more: seq<Byte>)
    requires Decode(buf).Some?
    ensures Decode(buf + more) == Decode(buf)
    ensures Encode(Decode(buf).value.0) == buf[..Decode(buf).value.1]
  {
    hide DecodeBytes, EncodeBytes, DecodeError, EncodeError, StatusBytes, StatusError;
    var n := Decode(buf).value.1;
    if buf[0] == 0 {
      assert (buf + more)[2..] == buf[2..] + more;
      assert 4 <= |buf[2..]| by { BytesNeedFour(buf[2..]); }
      BytesExtend(buf[2..], more);
      assert buf[..n] == [buf[0], buf[1]] + buf[2..][..n - 2];
    } else {
      assert (buf + more)[1..] == buf[1..] + more;
      ErrorExtends(buf[1..], more);
      assert buf[..n] == [buf[0]] + buf[1..][..n - 1];
    }
  }

  lemma BytesNeedFour(buf: seq<Byte>)
    ensures DecodeBytes(buf).Some? || StatusBytes(buf).Wrong? ==> 4 <= |buf|
  {
  }

  /** Complete stays complete: a decoded response does not change when more bytes arrive. */
  lemma CompleteStable(buf: seq<Byte>, more: seq<Byte>)
    requires DecodeStatus(buf).Complete?
    ensures DecodeStatus(buf + more) == DecodeStatus(buf)
  {
    hide VerdictOf, Decode;
    WholeIffDecodes(buf);
    WholeIffDecodes(buf + more);
    DecodeExtends(buf, more);
  }

  /** Malformed stays malformed, and nothing that follows can make the buffer decode. */
  lemma MalformedStable(buf: seq<Byte>, more: seq<Byte>)
    requires DecodeStatus(buf).Malformed?
    ensures DecodeStatus(buf + more).Malformed? && Decode(buf + more).None?
  {
    hide Decode, StatusBytes, StatusError;
    WholeIffDecodes(buf);
    if buf[0] == 0 {
      assert |buf| < 2 || (buf + more)[2..] == buf[2..] + more;
      if 2 <= |buf| && StatusBytes(buf[2..]).Wrong? {
        BytesNeedFour(buf[2..]);
        BytesExtend(buf[2..], more);
      }
    } else if buf[0] == 1 {
      assert (buf + more)[1..] == buf[1..] + more;
      ErrorExtends(buf[1..], more);
    }
    WholeIffDecodes(buf + more);
  }

  lemma BytesRoundTrip(json: seq<Byte>, more: seq<Byte>)
    requires |json| <= MAX_JSON_LEN
    ensures DecodeBytes(EncodeBytes(json) + more) == Some((json, 4 + |json|))
  {
    var buf := EncodeBytes(json) + more;
    assert buf[..4] == Le32(|json|) && buf[4..4 + |json|] == json;
  }

  lemma ErrorRoundTrip(error: Error, more: seq<Byte>)
    requires error.Timeout? || |error.msg| <= MAX_MESSAGE_LEN
    ensures DecodeError(EncodeError(error) + more) == Some((error, |EncodeError(error)|))
  {
    hide DecodeString, EncodeString;
    if !error.Timeout? {
      assert (EncodeError(error) + more)[1..] == EncodeString(error.msg) + more;
      StringRoundTrip(error.msg, more, MAX_MESSAGE_LEN);
    }
  }

  /** Decoding an encoded response, whatever follows it, gives it back and its length. */
  lemma RoundTrip(r: Response, more: seq<Byte>)
    requires r.InBounds()
    ensures Decode(Encode(r) + more) == Some((r, |Encode(r)|))
  {
    hide DecodeBytes, EncodeBytes, DecodeError, EncodeError;
    match r
    case Decision(_, json) =>
      assert (Encode(r) + more)[2..] == EncodeBytes(json) + more;
      EncodedBytesLength(json);
      BytesRoundTrip(json, more);
    case Failed(error) =>
      assert (Encode(r) + more)[1..] == EncodeError(error) + more;
      ErrorRoundTrip(error, more);
  }

  lemma EncodedBytesLength(json: seq<Byte>)
    requires |json| < U32_LIMIT
    ensures |EncodeBytes(json)| == 4 + |json|
  {
  }

  /** Every proper prefix of an encoded response is incomplete. */
  lemma PrefixIncomplete(r: Response, k: nat)
    requires r.InBounds() && k < |Encode(r)|
    ensures DecodeStatus(Encode(r)[..k]) == Incomplete
  {
    hide Decode, Encode, VerdictOf;
    var s := Encode(r);
    RoundTrip(r, []);
    assert s + [] == s && s[..k] + s[k..] == s;
    WholeIffDecodes(s[..k]);
    if DecodeStatus(s[..k]).Malformed? {
      MalformedStable(s[..k], s[k..]);
    }
    if Decode(s[..k]).Some? {
      DecodeExtends(s[..k], s[k..]);
    }
  }

  /** "Incomplete" does not promise that the message can still be completed: here a string has begun
      with a byte no UTF-8 text contains, and is only looked at once it is whole. */
  lemma IncompleteMayBeDead(more: seq<Byte>)
    ensures DecodeStatus([1, 0, 2, 0, 0xFF]) == Incomplete
    ensures Decode([1, 0, 2, 0, 0xFF] + more).None?
  {
    var buf := [1, 0, 2, 0, 0xFF] + more;
    assert buf[1..][1..][..2] == [2, 0];
    if 1 <= |more| {
      assert buf[1..][1..][2..4] == [0xFF, more[0]];
      assert !ValidUtf8([0xFF, more[0]]);
    }
  }

  // ----- which incomplete messages can be completed

  /** The length field begun in `part` can still come out within bounds. */
  predicate AliveBytes(part: seq<Byte>) {
    |part| < 4 ==> U32(part + Zeros(4 - |part|)) <= MAX_JSON_LEN
  }

  /** The text begun in `part` can still become UTF-8 within the length announced. */
  predicate AliveString(part: seq<Byte>) {
    2 <= |part| ==> Missing(part[2..]).Some? && |part[2..]| + Missing(part[2..]).value <= U16(part[..2])
  }

  predicate Alive(buf: seq<Byte>) {
    |buf| < 2 || if buf[0] == 0 then AliveBytes(buf[2..]) else AliveString(buf[2..])
  }

  ghost predicate Completable(buf: seq<Byte>) {
    exists more: seq<Byte> :: Decode(buf + more).Some?
  }

  lemma LengthAtLeast(part: seq<Byte>, tail: seq<Byte>)
    requires |part| + |tail| == 4
    ensures U32(part + Zeros(|tail|)) <= U32(part + tail)
  {
    var s, t := part + Zeros(|tail|), part + tail;
    assert forall i :: 0 <= i < 4 ==> s[i] <= t[i];
    assert s[..2][0] == s[0] && s[..2][1] == s[1] && s[2..][0] == s[2] && s[2..][1] == s[3];
    assert t[..2][0] == t[0] && t[..2][1] == t[1] && t[2..][0] == t[2] && t[2..][1] == t[3];
  }

  lemma BytesNeedAlive(part: seq<Byte>, more: seq<Byte>)
    requires DecodeBytes(part + more).Some?
    ensures AliveBytes(part)
  {
    if |part| < 4 {
      var tail := more[..4 - |part|];
      assert (part + more)[..4] == part + tail;
      LengthAtLeast(part, tail);
    }
  }

  lemma AliveBytesComplete(part: seq<Byte>) returns (more: seq<Byte>)
    requires StatusBytes(part).More? && AliveBytes(part)
    ensures DecodeBytes(part + more).Some?
  {
    var head := if |part| < 4 then part + Zeros(4 - |part|) else part;
    var len := U32(head[..4]);
    more := Zeros(4 + len - |part|);
    assert (part + more)[..4] == head[..4];
  }

  lemma StringNeedsAlive(part: seq<Byte>, more: seq<Byte>)
    requires DecodeString(part + more, MAX_MESSAGE_LEN).Some? && StatusString(part).More?
    ensures AliveString(part)
  {
    hide ValidUtf8, Missing;
    if 2 <= |part| {
      var len := U16(part[..2]);
      assert (part + more)[..2] == part[..2];
      var y := more[..2 + len - |part|];
      assert (part + more)[2..2 + len] == part[2..] + y;
      MissingNeeded(part[2..], y);
    }
  }

  lemma AliveStringComplete(part: seq<Byte>) returns (more: seq<Byte>)
    requires StatusString(part).More? && AliveString(part)
    ensures DecodeString(part + more, MAX_MESSAGE_LEN).Some?
  {
    hide ValidUtf8, Missing;
    if |part| < 2 {
      var head := part + Zeros(2 - |part|);
      var len := U16(head);
      assert len <= 255 by { assert head[1] == 0; }
      more := Zeros(2 + len - |part|);
      assert (part + more)[..2] == head;
      AsciiValid((part + more)[2..2 + len]);
    } else {
      var len := U16(part[..2]);
      more := MissingSupplied(part[2..], len - |part[2..]|);
      assert (part + more)[..2] == part[..2] && (part + more)[2..2 + len] == part[2..] + more;
    }
  }

  /** A message the decoder calls incomplete can still be completed exactly when neither its length field
      nor its text has gone wrong already. */
  lemma IncompleteCompletableIff(buf: seq<Byte>)
    requires DecodeStatus(buf) == Incomplete
    ensures Completable(buf) <==> Alive(buf)
  {
    hide DecodeBytes, DecodeString, StatusBytes, StatusString, AliveBytes, AliveString;
    if Completable(buf) && 2 <= |buf| {
      var more :| Decode(buf + more).Some?;
      assert (buf + more)[2..] == buf[2..] + more;
      if buf[0] == 0 {
        BytesNeedAlive(buf[2..], more);
      } else {
        assert (buf + more)[1..][1..] == buf[2..] + more && buf[1..][1..] == buf[2..];
        StringNeedsAlive(buf[2..], more);
      }
    }
    if Alive(buf) {
      var more := CompletionOf(buf);
    }
  }

  lemma CompletionOf(buf: seq<Byte>) returns (more: seq<Byte>)
    requires DecodeStatus(buf) == Incomplete && Alive(buf)
    ensures Decode(buf + more).Some?
  {
    hide DecodeBytes, DecodeString, StatusBytes, StatusString, AliveBytes, AliveString;
    if 2 <= |buf| {
      if buf[0] == 0 {
        more := AliveBytesComplete(buf[2..]);
        assert (buf + more)[2..] == buf[2..] + more;
      } else {
        assert buf[1..][1..] == buf[2..];
        more := AliveStringComplete(buf[2..]);
        assert (buf + more)[1..][1..] == buf[2..] + more;
      }
    } else if buf == [] {
      more := [1, 1];
      assert buf + more == [1, 1];
    } else if buf[0] == 1 {
      more := [1];
      assert buf + more == [1, 1];
    } else {
      EmptyDecision();
      more := [0, 0, 0, 0, 0];
      assert buf + more == [0, 0, 0, 0, 0, 0];
    }
  }

  lemma EmptyDecision()
    ensures Decode([0, 0, 0, 0, 0, 0]).Some?
  {
    var part: seq<Byte> := [0, 0, 0, 0, 0, 0];
    assert part[2..] == Zeros(4);
    assert U32(Zeros(4)[..4]) == 0;
  }

  // ----- the format in numbers

  function OutcomeNumber(o: Outcome): (n: nat) {
    match o
    case Execute => 0
    case Refuse => 1
    case HardStop => 2
  }

  function ErrorNumber(e: Error): (n: nat) {
    match e
    case Unreachable(_) => 0
    case Timeout => 1
    case BadResponse(_) => 2
    case Other(_) => 3
    case PolicyRefused(_) => 4
  }

  /** What the format has room for. */
  lemma BoundsAre(r: Response)
    ensures r.InBounds() <==> match r
      case Decision(_, json) => |json| <= 16384
      case Failed(e) => e.Timeout? || |e.msg| <= 256
  {
  }

  /** A decision is 0, the outcome's number, a length in four bytes and as many bytes, at most 16384; a failure is 1, the
      error's number and, but for a timeout, a length in two bytes and a message of at most 256. */
  lemma ResponseBytes(r: Response)
    requires r.InBounds()
    ensures Encode(r) == match r
      case Decision(o, json) =>
        [0, OutcomeNumber(o), |json| % 0x100, |json| / 0x100 % 0x100, |json| / 0x1_0000 % 0x100, |json| / 0x100_0000 % 0x100] + json
      case Failed(e) => if e.Timeout? then [1, 1] else [1, ErrorNumber(e), |e.msg| % 0x100, |e.msg| / 0x100] + e.msg
    ensures r.Decision? ==> |r.json| <= 16384
    ensures r.Failed? && !r.error.Timeout? ==> |r.error.msg| <= 256
  {
    match r
    case Decision(o, json) => LengthBytes(|json|);
    case Failed(e) => if !e.Timeout? { StringBytes(e.msg); }
  }

  lemma LengthBytes(n: nat)
    requires n < 0x1_0000
    ensures Le32(n) == [n % 0x100, n / 0x100 % 0x100, n / 0x1_0000 % 0x100, n / 0x100_0000 % 0x100]
  {
  }
}
