/** The size-bounded audit chain: every event either gets its own entry, as long as its class has
    quota, or is counted; a class's count is put into the chain when it reaches 1, 4, 16, ... */
module AuditChain {
  import opened Bytes
  import opened WormLog

  const CLASS_COUNT := 10
  const MAX_SUMMARY_COMMITS := 8
  const SUMMARY_GROWTH := 4
  const REASON_LIMIT := 120
  const TOTAL_CAPACITY := 456

  datatype AuditClass =
    | Applied | DataActivity | GateBlocked | GateFailClosed | CapDenialEsim | CapDenialMvno | CapDenialData | Rejected | Incident | CleanPass

  function Index(c: AuditClass): (i: nat)
    ensures i < CLASS_COUNT
  {
    match c
    case Applied => 0
    case DataActivity => 1
    case GateBlocked => 2
    case GateFailClosed => 3
    case CapDenialEsim => 4
    case CapDenialMvno => 5
    case CapDenialData => 6
    case Rejected => 7
    case Incident => 8
    case CleanPass => 9
  }

  function QuotaAt(i: nat): (quota: nat)
    requires i < CLASS_COUNT
  {
    [128, 64, 24, 24, 16, 16, 16, 48, 32, 8][i]
  }

  function Quota(c: AuditClass): (quota: nat) {
    QuotaAt(Index(c))
  }

  // ----- text

  /** The bytes of an ASCII string. */
  function Ascii(s: string): (t: Text) {
    seq<Byte>(|s|, i requires 0 <= i < |s| => if s[i] as int < 128 then s[i] as int else 63)
  }

  function Decimal(n: nat): (t: Text) {
    (if n < 10 then [] else Decimal(n / 10)) + [48 + n % 10]
  }

  function Name(c: AuditClass): (t: Text) {
    match c
    case Applied => Ascii("applied")
    case DataActivity => Ascii("data-activity")
    case GateBlocked => Ascii("gate-blocked")
    case GateFailClosed => Ascii("gate-fail-closed")
    case CapDenialEsim => Ascii("cap-denial.esim")
    case CapDenialMvno => Ascii("cap-denial.mvno")
    case CapDenialData => Ascii("cap-denial.data")
    case Rejected => Ascii("rejected")
    case Incident => Ascii("incident")
    case CleanPass => Ascii("clean-pass")
  }

  function SummaryPrefix(): (t: Text) {
    Ascii("audit:summary:")
  }

  /** Whether a UTF-8 text may be cut before byte `at`. */
  predicate CharBoundary(t: Text, at: nat) {
    at == 0 || at == |t| || (at < |t| && !(0x80 <= t[at] < 0xC0))
  }

  function CutAt(t: Text, at: nat): (end: nat)
    requires at <= |t|
    ensures end <= at && CharBoundary(t, end) && forall k :: end < k <= at ==> !CharBoundary(t, k)
  {
    if CharBoundary(t, at) then at else CutAt(t, at - 1)
  }

  function Truncated(t: Text, limit: nat): (r: Text)
    ensures |r| <= limit + 3
  {
    if |t| <= limit then t else t[..CutAt(t, limit)] + Ascii("...")
  }

  /** Cuts a text at the last character boundary within the limit. */
  method Truncate(t: Text, limit: nat) returns (r: Text)
    ensures r == Truncated(t, limit)
  {
    if |t| <= limit {
      return t;
    }
    var end := limit;
    while end > 0 && !CharBoundary(t, end)
      invariant 0 <= end <= limit && CutAt(t, limit) == CutAt(t, end)
    {
      end := end - 1;
    }
    return t[..end] + Ascii("...");
  }

  function Arrow(from: Text, to: Text): (t: Text) {
    Ascii("[") + from + Ascii(" -> ") + to + Ascii("]")
  }

  function LifecycleReason(from: Text, to: Text, reason: Option<Text>): (t: Text) {
    if reason.Some? then reason.value + Ascii(" ") + Arrow(from, to) else Arrow(from, to)
  }

  function CoalescedReason(subject: Text, from: Text, to: Text, reason: Option<Text>): (t: Text) {
    subject + Ascii(" ") + Arrow(from, to) + if reason.Some? then Ascii(": ") + reason.value else []
  }

  // ----- one class on its own

  datatype ClassState = ClassState(recorded: nat, dropped: nat, summaries: nat, nextCommitAt: nat, lastReason: Text)

  const FRESH := ClassState(0, 0, 0, 1, [])

  datatype Event =
    | Record(class_: AuditClass, subject: Text, from: Text, to: Text, authorized: bool, reason: Option<Text>)
    | Note(class_: AuditClass, note: Text)

  datatype Outcome =
    | Recorded(class_: AuditClass)
    | Coalesced(class_: AuditClass, dropped: nat, summaryCommitted: bool, lastReason: Text)

  function SaturatingAdd(a: nat, b: nat): (r: nat) {
    Min(a + b, U64_LIMIT - 1)
  }

  function SaturatingMul(a: nat, b: nat): (r: nat) {
    Min(a * b, U64_LIMIT - 1)
  }

  predicate CommitsNow(st: ClassState) {
    st.summaries < MAX_SUMMARY_COMMITS && st.nextCommitAt <= st.dropped
  }

  /** A class after one more of its events was counted. */
  function Counted(st: ClassState, reason: Text): (r: ClassState) {
    var d := st.(dropped := SaturatingAdd(st.dropped, 1), lastReason := Truncated(reason, REASON_LIMIT));
    if CommitsNow(d) then d.(summaries := d.summaries + 1, nextCommitAt := SaturatingMul(d.nextCommitAt, SUMMARY_GROWTH)) else d
  }

  function CountOutcome(c: AuditClass, st: ClassState, reason: Text): (o: Outcome) {
    var t := Counted(st, reason);
    Coalesced(c, t.dropped, t.summaries > st.summaries, t.lastReason)
  }

  function EventReason(e: Event): (t: Text) {
    if e.Record? then CoalescedReason(e.subject, e.from, e.to, e.reason) else e.note
  }

  /** What an event does to its class, seen from the class alone. */
  function ClassStep(st: ClassState, e: Event): (r: (ClassState, Outcome)) {
    if e.Record? && st.recorded < Quota(e.class_) then (st.(recorded := st.recorded + 1), Recorded(e.class_))
    else (Counted(st, EventReason(e)), CountOutcome(e.class_, st, EventReason(e)))
  }

  // ----- the whole log

  datatype Audit = Audit(entries: seq<Entry>, classes: seq<ClassState>) {
    ghost predicate Sized() {
      |classes| == CLASS_COUNT && |entries| < U64_LIMIT - 1
    }
  }

  function LifecycleEntry(H: HashFunction, es: seq<Entry>, subject: Text, from: Text, to: Text, authorized: bool, reason: Option<Text>): (e: Entry)
    requires |es| < U64_LIMIT
    ensures e.moduleId == subject
  {
    NewEntry(H, es, subject, None, None, authorized, Some(LifecycleReason(from, to, reason)), None)
  }

  function SummaryText(c: AuditClass, st: ClassState): (t: Text) {
    Ascii("class ") + Name(c) + Ascii(" coalesced ") + Decimal(st.dropped) + Ascii(" event(s), not individually recorded (quota ")
    + Decimal(Quota(c)) + Ascii(", recorded ") + Decimal(st.recorded) + Ascii("); last: ") + st.lastReason
  }

  function SummaryEntry(H: HashFunction, es: seq<Entry>, c: AuditClass, st: ClassState): (e: Entry)
    requires |es| < U64_LIMIT
    ensures e.moduleId == SummaryPrefix() + Name(c)
  {
    LifecycleEntry(H, es, SummaryPrefix() + Name(c), Ascii("individual entries"),
                   Ascii("coalesced (") + Decimal(st.dropped) + Ascii(")"), false, Some(SummaryText(c, st)))
  }

  /** The log after an event of class `c` was counted. */
  function AfterCount(H: HashFunction, a: Audit, c: AuditClass, reason: Text): (r: (Audit, Outcome))
    requires a.Sized()
  {
    var st := a.classes[Index(c)];
    var t := Counted(st, reason);
    var entries := if st.summaries < t.summaries then a.entries + [SummaryEntry(H, a.entries, c, t)] else a.entries;
    (Audit(entries, a.classes[Index(c) := t]), CountOutcome(c, st, reason))
  }

  /** The log after an event. */
  function After(H: HashFunction, a: Audit, e: Event): (r: (Audit, Outcome))
    requires a.Sized()
  {
    var st := a.classes[Index(e.class_)];
    if e.Record? && st.recorded < Quota(e.class_) && |a.entries| < TOTAL_CAPACITY then
      (Audit(a.entries + [LifecycleEntry(H, a.entries, e.subject, e.from, e.to, e.authorized, e.reason)],
             a.classes[Index(e.class_) := st.(recorded := st.recorded + 1)]), Recorded(e.class_))
    else AfterCount(H, a, e.class_, EventReason(e))
  }

  class BoundedAudit {
    const log: Log
    var classes: seq<ClassState>

    ghost function Value(): (a: Audit)
      reads this, log
    {
      Audit(log.entries, classes)
    }

    constructor (H: HashFunction)
      ensures Value() == Audit([], seq(CLASS_COUNT, i => FRESH)) && log.H == H && fresh(log)
    {
      log := new Log(H);
      classes := seq(CLASS_COUNT, i => FRESH);
    }

    /** Appends an entry if the class has quota, otherwise counts the event. */
    method Record(class_: AuditClass, subject: Text, from: Text, to: Text, authorized: bool, reason: Option<Text>) returns (o: Outcome)
      requires Value().Sized()
      modifies this, log
      ensures (Value(), o) == After(log.H, old(Value()), Event.Record(class_, subject, from, to, authorized, reason))
    {
      hide LifecycleReason, CoalescedReason, SummaryText, Counted, CountOutcome, SummaryEntry;
      var i := Index(class_);
      if classes[i].recorded < Quota(class_) && |log.entries| < TOTAL_CAPACITY {
        log.Record(subject, None, None, authorized, Some(LifecycleReason(from, to, reason)), None);
        classes := classes[i := classes[i].(recorded := classes[i].recorded + 1)];
        return Recorded(class_);
      }
      o := Coalesce(class_, CoalescedReason(subject, from, to, reason));
    }

    /** Counts an event the caller decided not to append. */
    method NoteCoalesced(class_: AuditClass, reason: Text) returns (o: Outcome)
      requires Value().Sized()
      modifies this, log
      ensures (Value(), o) == After(log.H, old(Value()), Note(class_, reason))
    {
      o := Coalesce(class_, reason);
    }

    method Coalesce(class_: AuditClass, reason: Text) returns (o: Outcome)
      requires Value().Sized()
      modifies this, log
      ensures (Value(), o) == AfterCount(log.H, old(Value()), class_, reason)
    {
      hide Truncated, Name, SummaryText, LifecycleReason, SummaryPrefix, Ascii, Decimal, Preimage, WormLog.Recorded, NewEntry, Index, QuotaAt;
      var i := Index(class_);
      var st := classes[i];
      var last := Truncate(reason, REASON_LIMIT);
      st := st.(dropped := SaturatingAdd(st.dropped, 1), lastReason := last);
      var summaryCommitted := false;
      if st.summaries < MAX_SUMMARY_COMMITS && st.nextCommitAt <= st.dropped {
        var subject := SummaryPrefix() + Name(class_);
        st := st.(summaries := st.summaries + 1, nextCommitAt := SaturatingMul(st.nextCommitAt, SUMMARY_GROWTH));
        var text := SummaryText(class_, st);
        var to := Ascii("coalesced (") + Decimal(st.dropped) + Ascii(")");
        log.Record(subject, None, None, false, Some(LifecycleReason(Ascii("individual entries"), to, Some(text))), None);
        summaryCommitted := true;
      }
      classes := classes[i := st];
      return Coalesced(class_, st.dropped, summaryCommitted, st.lastReason);
    }

    /** The chain verifies and the counters agree with it. */
    method Verify() returns (ok: bool)
      requires |classes| == CLASS_COUNT && AllValid(log.entries)
      ensures ok <==> Verifies(log.H, Value())
    {
      var chained := log.VerifyChain();
      if !chained {
        return false;
      }
      var appended, summaries := 0, 0;
      for i := 0 to CLASS_COUNT
        invariant appended == Appended(classes, i) && summaries == Summaries(classes, i)
        invariant forall k :: 0 <= k < i ==> WithinBounds(classes[k], k)
      {
        var st := classes[i];
        if QuotaAt(i) < st.recorded || MAX_SUMMARY_COMMITS < st.summaries {
          assert !WithinBounds(classes[i], i);
          return false;
        }
        appended := appended + st.recorded + st.summaries;
        summaries := summaries + st.summaries;
      }
      var summaryEntries := 0;
      for i := 0 to |log.entries|
        invariant summaryEntries == Prefixed(log.entries[..i])
      {
        assert log.entries[..i + 1][..i] == log.entries[..i];
        if SummaryPrefix() <= log.entries[i].moduleId {
          summaryEntries := summaryEntries + 1;
        }
      }
      assert log.entries[..|log.entries|] == log.entries;
      return |log.entries| == appended && |log.entries| <= TOTAL_CAPACITY && summaryEntries == summaries;
    }
  }

  // ----- the self-check

  function Appended(classes: seq<ClassState>, n: nat): (sum: nat)
    requires n <= |classes|
  {
    if n == 0 then 0 else Appended(classes, n - 1) + classes[n - 1].recorded + classes[n - 1].summaries
  }

  function Summaries(classes: seq<ClassState>, n: nat): (sum: nat)
    requires n <= |classes|
  {
    if n == 0 then 0 else Summaries(classes, n - 1) + classes[n - 1].summaries
  }

  /** How many entries carry a summary's subject. */
  function Prefixed(es: seq<Entry>): (n: nat) {
    if es == [] then 0 else Prefixed(es[..|es| - 1]) + if SummaryPrefix() <= es[|es| - 1].moduleId then 1 else 0
  }

  predicate WithinBounds(st: ClassState, i: nat)
    requires i < CLASS_COUNT
  {
    st.recorded <= QuotaAt(i) && st.summaries <= MAX_SUMMARY_COMMITS
  }

  ghost predicate Verifies(H: HashFunction, a: Audit)
    requires |a.classes| == CLASS_COUNT
  {
    && Chained(H, a.entries)
    && (forall k :: 0 <= k < CLASS_COUNT ==> WithinBounds(a.classes[k], k))
    && |a.entries| == Appended(a.classes, CLASS_COUNT) <= TOTAL_CAPACITY
    && Prefixed(a.entries) == Summaries(a.classes, CLASS_COUNT)
  }
}
