/** What the entries of the bounded audit chain say, over every run of events, written out in bytes and numbers. */
module AuditEntries {
  import opened Bytes
  import opened WormLog
  import opened AuditChain
  import opened AuditTheorems
  import Wire

  // ----- texts

  /** The number a row of decimal digits stands for. */
  function Number(t: Text): (n: int) {
    if t == [] then 0 else 10 * Number(t[..|t| - 1]) + (t[|t| - 1] as int - 48)
  }

  /** A count is written in decimal digits, without leading zeros, and stands for itself. */
  lemma {:induction false} DecimalIs(n: nat)
    ensures Number(Decimal(n)) == n && 0 < |Decimal(n)|
    ensures forall i :: 0 <= i < |Decimal(n)| ==> 48 <= Decimal(n)[i] <= 57
    ensures 0 < n ==> Decimal(n)[0] != 48
    decreases n
  {
    var t := Decimal(n);
    if 10 <= n {
      DecimalIs(n / 10);
      assert t[..|t| - 1] == Decimal(n / 10);
    } else {
      assert t == [48 + n] && t[..0] == [];
    }
  }

  /** `from` before `to`: "[from -> to]". */
  lemma ArrowIs(from: Text, to: Text)
    ensures Arrow(from, to) == [91] + from + [32, 45, 62, 32] + to + [93]
  {
    assert Ascii("[") == [91] && Ascii(" -> ") == [32, 45, 62, 32] && Ascii("]") == [93];
  }

  function TransitionText(from: Text, to: Text, reason: Option<Text>): (t: Text) {
    (if reason.Some? then reason.value + [32] else []) + ([91] + from + [32, 45, 62, 32] + to + [93])
  }

  lemma TransitionIs(from: Text, to: Text, reason: Option<Text>)
    ensures LifecycleReason(from, to, reason) == TransitionText(from, to, reason)
  {
    ArrowIs(from, to);
    assert Ascii(" ") == [32];
  }

  // ----- cutting a text

  /** A byte is where a text may be cut exactly when what stands before it is a text. */
  lemma {:induction false} BoundaryIff(t: Text, k: nat)
    requires Wire.ValidUtf8(t) && k <= |t|
    ensures CharBoundary(t, k) <==> Wire.ValidUtf8(t[..k])
    decreases |t|
  {
    if t == [] || k == 0 {
      assert t[..k] == [];
    } else {
      var n := Wire.LeadLen(t[0]);
      if k < n {
        InsideChar(t, k);
      } else {
        BoundaryIff(t[n..], k - n);
        assert t[..k][n..] == t[n..][..k - n];
        BoundaryBehind(t, n, k);
        StartKept(t, n, k);
      }
    }
  }

  lemma InsideChar(t: Text, k: nat)
    requires Wire.StartsChar(t) && 0 < k < Wire.LeadLen(t[0])
    ensures !CharBoundary(t, k) && !Wire.ValidUtf8(t[..k])
  {
    assert t[..k][0] == t[0];
  }

  lemma BoundaryBehind(t: Text, n: nat, k: nat)
    requires Wire.StartsChar(t) && n == Wire.LeadLen(t[0]) <= k <= |t| && Wire.ValidUtf8(t[n..])
    ensures CharBoundary(t, k) <==> CharBoundary(t[n..], k - n)
  {
    if k == n && k < |t| { assert t[n..][0] == t[n] && Wire.StartsChar(t[n..]); }
  }

  lemma StartKept(t: Text, n: nat, k: nat)
    requires Wire.StartsChar(t) && n == Wire.LeadLen(t[0]) <= k <= |t|
    ensures Wire.StartsChar(t[..k]) && Wire.LeadLen(t[..k][0]) == n
  {
    assert forall i :: 0 <= i < n ==> t[..k][i] == t[i];
  }

  /** A text that is too long is cut to the longest text within the limit, and three dots follow; so a cut text is a text. */
  lemma CutIsText(t: Text, limit: nat)
    requires Wire.ValidUtf8(t) && limit < |t|
    ensures var end := CutAt(t, limit);
      && end <= limit && Truncated(t, limit) == t[..end] + [46, 46, 46] && Wire.ValidUtf8(t[..end])
      && forall k :: end < k <= limit ==> !Wire.ValidUtf8(t[..k])
    ensures |t| <= limit ==> Truncated(t, limit) == t
  {
    var end := CutAt(t, limit);
    BoundaryIff(t, end);
    forall k | end < k <= limit ensures !Wire.ValidUtf8(t[..k]) { BoundaryIff(t, k); }
    assert Ascii("...") == [46, 46, 46];
  }

  // ----- entries

  /** `x` tells of a transition: subject, permission and text are these, and nothing else is said. */
  ghost predicate Tells(x: Entry, subject: Text, authorized: bool, text: Text) {
    && x.moduleId == subject && x.authorized == authorized && x.reason == Some(text)
    && x.instanceId.None? && x.tier.None? && x.shadowMarshal.None?
  }

  /** `now` is `before` and one entry more. */
  ghost predicate OneMore(before: seq<Entry>, now: seq<Entry>) {
    |now| == |before| + 1 && now[..|before|] == before
  }

  lemma LastRun(H: HashFunction, es: seq<Event>, e: Event)
    ensures Ran(H, es).0.Sized()
    ensures var step := After(H, Ran(H, es).0, e); Ran(H, es + [e]).0 == step.0 && Ran(H, es + [e]).1[|es|] == step.1
  {
    hide After, Inv;
    assert (es + [e])[..|es + [e]| - 1] == es;
    StepInv(H, Ran(H, es).0, e);
  }

  lemma NewEntryTells(H: HashFunction, es: seq<Entry>, subject: Text, from: Text, to: Text, authorized: bool, reason: Option<Text>)
    requires |es| < U64_LIMIT
    ensures var x := LifecycleEntry(H, es, subject, from, to, authorized, reason);
      Tells(x, subject, authorized, TransitionText(from, to, reason)) && OneMore(es, es + [x])
  {
    hide Preimage, LifecycleReason, TransitionText;
    TransitionIs(from, to, reason);
  }

  /** An event answered "recorded" asked for an entry, and the chain has exactly one entry more, at its own position:
      the event's subject and permission, and the transition written out. */
  lemma EventEntry(H: HashFunction, es: seq<Event>, e: Event)
    requires Ran(H, es + [e]).1[|es|].Recorded?
    ensures var before, now := Ran(H, es).0.entries, Ran(H, es + [e]).0.entries;
      && e.Record? && OneMore(before, now) && now[|before|].seqNo == |before|
      && Tells(now[|before|], e.subject, e.authorized, TransitionText(e.from, e.to, e.reason))
  {
    hide Ran, Counted, SummaryEntry, LifecycleReason, Preimage, EventReason, QuotaAt, TransitionText, Index, Tells, OneMore, LifecycleEntry;
    LastRun(H, es, e);
    assert e.Record?;
    NewEntryTells(H, Ran(H, es).0.entries, e.subject, e.from, e.to, e.authorized, e.reason);
  }

  /** The text of a summary entry. */
  function SummaryReason(c: AuditClass, dropped: nat, recorded: nat, last: Text): (t: Text) {
    Ascii("class ") + Name(c) + Ascii(" coalesced ") + Decimal(dropped) + Ascii(" event(s), not individually recorded (quota ")
    + Decimal(Quota(c)) + Ascii(", recorded ") + Decimal(recorded) + Ascii("); last: ") + last
  }

  /** An event answered "coalesced" leaves the chain as it was, or, with a summary, adds exactly one entry: the class's
      own summary, never authorized, with the count in it, and what was last counted. */
  lemma CountedEntry(H: HashFunction, es: seq<Event>, e: Event)
    requires Ran(H, es + [e]).1[|es|].Coalesced?
    ensures var before, now, o := Ran(H, es).0.entries, Ran(H, es + [e]).0.entries, Ran(H, es + [e]).1[|es|];
      && o.class_ == e.class_ && o.lastReason == Truncated(EventReason(e), 120)
      && (!o.summaryCommitted ==> now == before)
      && (o.summaryCommitted ==>
            && OneMore(before, now) && now[|before|].seqNo == |before| && Index(e.class_) < |Ran(H, es).0.classes|
            && var text := SummaryReason(e.class_, o.dropped, Ran(H, es).0.classes[Index(e.class_)].recorded, o.lastReason);
            Tells(now[|before|], Ascii("audit:summary:") + Name(e.class_), false,
                  TransitionText(Ascii("individual entries"), Ascii("coalesced (") + Decimal(o.dropped) + Ascii(")"), Some(text))))
  {
    hide Ran, LifecycleReason, Preimage, EventReason, QuotaAt, TransitionText, Index, Truncated, Ascii, Name, Decimal;
    LastRun(H, es, e);
    var a := Ran(H, es).0;
    var t := Counted(a.classes[Index(e.class_)], EventReason(e));
    NewEntryTells(H, a.entries, SummaryPrefix() + Name(e.class_), Ascii("individual entries"),
                  Ascii("coalesced (") + Decimal(t.dropped) + Ascii(")"), false, Some(SummaryText(e.class_, t)));
  }

  /** The count in the answer is the class's, one more than before, up to 2^64 - 1. */
  lemma CountedNumber(H: HashFunction, es: seq<Event>, e: Event)
    requires Ran(H, es + [e]).1[|es|].Coalesced?
    ensures |Ran(H, es).0.classes| == |Ran(H, es + [e]).0.classes| == 10
    ensures var n := Ran(H, es + [e]).1[|es|].dropped;
      && n == Ran(H, es + [e]).0.classes[Index(e.class_)].dropped
      && n == Min(Ran(H, es).0.classes[Index(e.class_)].dropped + 1, 0xFFFF_FFFF_FFFF_FFFF)
  {
    hide Ran, EventReason, QuotaAt, Index, Truncated, SummaryEntry, LifecycleEntry, Inv;
    InvSize(H, Ran(H, es).0);
    InvSize(H, Ran(H, es + [e]).0);
    LastRun(H, es, e);
  }

  /** What is counted of an event that wanted an entry: "subject [from -> to]" and, if there is one, ": reason". */
  lemma CountedReason(e: Event)
    ensures EventReason(e) == if e.Note? then e.note
      else e.subject + [32] + ([91] + e.from + [32, 45, 62, 32] + e.to + [93]) + if e.reason.Some? then [58, 32] + e.reason.value else []
  {
    if e.Record? {
      ArrowIs(e.from, e.to);
      assert Ascii(" ") == [32] && Ascii(": ") == [58, 32];
    }
  }

  /** The subject of a summary tells its class. */
  lemma NamesDiffer(c: AuditClass, d: AuditClass)
    ensures Name(c) == Name(d) <==> c == d
  {
    NameKey(c);
    NameKey(d);
  }

  function Key(c: AuditClass): (k: (nat, int, int)) {
    match c
    case Applied => (7, 97, 100)
    case DataActivity => (13, 100, 121)
    case GateBlocked => (12, 103, 100)
    case GateFailClosed => (16, 103, 100)
    case CapDenialEsim => (15, 99, 109)
    case CapDenialMvno => (15, 99, 111)
    case CapDenialData => (15, 99, 97)
    case Rejected => (8, 114, 100)
    case Incident => (8, 105, 116)
    case CleanPass => (10, 99, 115)
  }

  lemma NameKey(c: AuditClass)
    ensures |Name(c)| == Key(c).0 && Name(c)[0] == Key(c).1 && Name(c)[|Name(c)| - 1] == Key(c).2
  {
  }

  function QuotaNumber(c: AuditClass): (n: nat) {
    match c
    case Applied => 128
    case DataActivity => 64
    case GateBlocked => 24
    case GateFailClosed => 24
    case CapDenialEsim => 16
    case CapDenialMvno => 16
    case CapDenialData => 16
    case Rejected => 48
    case Incident => 32
    case CleanPass => 8
  }

  lemma QuotaIs(c: AuditClass)
    ensures Quota(c) == QuotaNumber(c)
  {
  }

  /** Which events get an entry, class by class. */
  lemma QuotasAre(H: HashFunction, es: seq<Event>, e: Event)
    ensures Ran(H, es + [e]).1[|es|].Recorded? <==> e.Record? && Asked(Only(e.class_, es)) < QuotaNumber(e.class_)
  {
    hide Ran, Only, Asked, Quota, QuotaNumber;
    RecordedIff(H, es, e);
    QuotaIs(e.class_);
  }

  /** Which counts commit a summary. */
  lemma ScheduleIs(count: nat)
    ensures OnSchedule(count) <==> count in {1, 4, 16, 64, 256, 1024, 4096, 16384}
  {
    assert Pow4(1) == 4;
    assert Pow4(2) == 16;
    assert Pow4(3) == 64;
    assert Pow4(4) == 256;
    assert Pow4(5) == 1024;
    assert Pow4(6) == 4096;
    assert Pow4(7) == 16384;
  }
}
