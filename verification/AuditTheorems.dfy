/** What holds of the bounded audit chain over every run of events. */
module AuditTheorems {
  import opened Bytes
  import opened WormLog
  import opened AuditChain

  // ----- the invariant of a run

  function Pow4(k: nat): (r: nat)
    ensures 1 <= r
  {
    if k == 0 then 1 else 4 * Pow4(k - 1)
  }

  lemma Pow4Bound(k: nat)
    requires k <= MAX_SUMMARY_COMMITS
    ensures Pow4(k) <= 65536 && (k < MAX_SUMMARY_COMMITS ==> SaturatingMul(Pow4(k), SUMMARY_GROWTH) == Pow4(k + 1))
    decreases MAX_SUMMARY_COMMITS - k
  {
    if k < MAX_SUMMARY_COMMITS { Pow4Bound(k + 1); }
    else { assert Pow4(2) == 16; assert Pow4(4) == 256; assert Pow4(6) == 4096; }
  }

  /** A class's counters agree with the schedule: it has committed a summary for each power of four its
      count has reached, up to eight. */
  ghost predicate ClassOk(st: ClassState, i: nat)
    requires i < CLASS_COUNT
  {
    && WithinBounds(st, i) && st.nextCommitAt == Pow4(st.summaries) && st.dropped < U64_LIMIT
    && (st.summaries < MAX_SUMMARY_COMMITS ==> st.dropped < st.nextCommitAt)
    && (0 < st.summaries ==> Pow4(st.summaries - 1) <= st.dropped)
  }

  ghost predicate Inv(H: HashFunction, a: Audit) {
    && |a.classes| == CLASS_COUNT
    && (forall k :: 0 <= k < CLASS_COUNT ==> ClassOk(a.classes[k], k))
    && WormLog.Recorded(H, a.entries)
    && |a.entries| == Appended(a.classes, CLASS_COUNT)
  }

  function Capacity(n: nat): (sum: nat)
    requires n <= CLASS_COUNT
  {
    if n == 0 then 0 else Capacity(n - 1) + QuotaAt(n - 1) + MAX_SUMMARY_COMMITS
  }

  lemma CapacityIs()
    ensures Capacity(CLASS_COUNT) == TOTAL_CAPACITY
  {
    assert Capacity(2) == 208;
    assert Capacity(4) == 272;
    assert Capacity(6) == 320;
    assert Capacity(8) == 400;
  }

  lemma {:induction false} AppendedBound(classes: seq<ClassState>, n: nat)
    requires |classes| == CLASS_COUNT && n <= CLASS_COUNT
    requires forall k :: 0 <= k < n ==> WithinBounds(classes[k], k)
    ensures Appended(classes, n) <= Capacity(n)
    ensures forall k :: 0 <= k < n && (classes[k].recorded < QuotaAt(k) || classes[k].summaries < MAX_SUMMARY_COMMITS) ==>
      Appended(classes, n) < Capacity(n)
  {
    hide QuotaAt;
    if 0 < n {
      AppendedBound(classes, n - 1);
    }
  }

  lemma {:induction false} AppendedUpdate(classes: seq<ClassState>, n: nat, i: nat, st: ClassState)
    requires n <= |classes| && i < |classes|
    ensures var more := if i < n then st.recorded + st.summaries - classes[i].recorded - classes[i].summaries else 0;
      Appended(classes[i := st], n) == Appended(classes, n) + more
    ensures var more := if i < n then st.summaries - classes[i].summaries else 0;
      Summaries(classes[i := st], n) == Summaries(classes, n) + more
  {
    if 0 < n {
      AppendedUpdate(classes, n - 1, i, st);
    }
  }

  /** The total-capacity test never decides anything: a class with quota left always finds room. */
  lemma CapacityNeverDecides(H: HashFunction, a: Audit, c: AuditClass)
    requires Inv(H, a)
    ensures |a.entries| <= TOTAL_CAPACITY && a.Sized()
    ensures a.classes[Index(c)].recorded < Quota(c) ==> |a.entries| < TOTAL_CAPACITY
  {
    AppendedBound(a.classes, CLASS_COUNT);
    CapacityIs();
  }

  lemma CountedOk(st: ClassState, i: nat, reason: Text)
    requires i < CLASS_COUNT && ClassOk(st, i)
    ensures var t := Counted(st, reason);
      && ClassOk(t, i) && t.recorded == st.recorded && st.summaries <= t.summaries <= st.summaries + 1
      && t.dropped == SaturatingAdd(st.dropped, 1)
      && (st.summaries < t.summaries <==> st.summaries < MAX_SUMMARY_COMMITS && st.dropped + 1 == Pow4(st.summaries))
  {
    hide Truncated, QuotaAt;
    Pow4Bound(st.summaries);
  }

  lemma StepInv(H: HashFunction, a: Audit, e: Event)
    requires Inv(H, a)
    ensures a.Sized() && Inv(H, After(H, a, e).0)
    ensures a.entries <= After(H, a, e).0.entries
  {
    hide Counted, LifecycleReason, EventReason, SummaryText, Name, SummaryPrefix, Appended, QuotaAt, Pow4, Preimage, Capacity, Index;
    CapacityNeverDecides(H, a, e.class_);
    var i := Index(e.class_);
    var st := a.classes[i];
    CountedOk(st, i, EventReason(e));
    var b := After(H, a, e).0;
    AppendedUpdate(a.classes, CLASS_COUNT, i, b.classes[i]);
    EntryExtends(H, a, b);
  }

  /** Whatever entry an event appends, the log stays a recorded log. */
  lemma EntryExtends(H: HashFunction, a: Audit, b: Audit)
    requires WormLog.Recorded(H, a.entries) && a.Sized()
    requires b.entries == a.entries || exists e: Event :: b == After(H, a, e).0
    ensures WormLog.Recorded(H, b.entries)
  {
    hide Counted, LifecycleReason, EventReason, SummaryText, Name, SummaryPrefix, Preimage, Decimal, Index, Quota, NewEntry;
    if b.entries != a.entries {
      var e: Event :| b == After(H, a, e).0;
      var c := e.class_;
      var t := Counted(a.classes[Index(c)], EventReason(e));
      if e.Record? && a.classes[Index(c)].recorded < Quota(c) && |a.entries| < TOTAL_CAPACITY {
        RecordExtends(H, a.entries, e.subject, None, None, e.authorized, Some(LifecycleReason(e.from, e.to, e.reason)), None);
      } else {
        RecordExtends(H, a.entries, SummaryPrefix() + Name(c), None, None, false,
          Some(LifecycleReason(Ascii("individual entries"), Ascii("coalesced (") + Decimal(t.dropped) + Ascii(")"), Some(SummaryText(c, t)))), None);
      }
    }
  }

  /** An event changes only its own class, and that as if the class were alone. */
  lemma StepClass(H: HashFunction, a: Audit, e: Event)
    requires Inv(H, a)
    ensures a.Sized() && |After(H, a, e).0.classes| == CLASS_COUNT
    ensures (After(H, a, e).0.classes[Index(e.class_)], After(H, a, e).1) == ClassStep(a.classes[Index(e.class_)], e)
    ensures forall k :: 0 <= k < CLASS_COUNT && k != Index(e.class_) ==> After(H, a, e).0.classes[k] == a.classes[k]
  {
    hide Counted, CountOutcome, LifecycleEntry, SummaryEntry, EventReason;
    CapacityNeverDecides(H, a, e.class_);
  }

  // ----- runs

  function Start(): (a: Audit) {
    Audit([], seq(CLASS_COUNT, i => FRESH))
  }

  /** The log after a run of events, and what each was answered. */
  ghost function Ran(H: HashFunction, es: seq<Event>): (r: (Audit, seq<Outcome>))
    ensures Inv(H, r.0) && |r.1| == |es|
  {
    if es == [] then
      StartInv(H);
      (Start(), [])
    else
      var before := Ran(H, es[..|es| - 1]);
      StepInv(H, before.0, es[|es| - 1]);
      var after := After(H, before.0, es[|es| - 1]);
      (after.0, before.1 + [after.1])
  }

  lemma StartInv(H: HashFunction)
    ensures Inv(H, Start())
  {
    NothingAppended(Start().classes, CLASS_COUNT);
  }

  lemma {:induction false} NothingAppended(classes: seq<ClassState>, n: nat)
    requires n <= |classes| && forall k :: 0 <= k < n ==> classes[k] == FRESH
    ensures Appended(classes, n) == 0 && Summaries(classes, n) == 0
  {
    if 0 < n { NothingAppended(classes, n - 1); }
  }

  /** The events of one class, in order. */
  function Only(c: AuditClass, es: seq<Event>): (r: seq<Event>)
    ensures forall i :: 0 <= i < |r| ==> r[i].class_ == c
  {
    if es == [] then [] else Only(c, es[..|es| - 1]) + if es[|es| - 1].class_ == c then [es[|es| - 1]] else []
  }

  /** The answers the events of one class got. */
  function AnswersOf(c: AuditClass, es: seq<Event>, os: seq<Outcome>): (r: seq<Outcome>)
    requires |es| == |os|
  {
    if es == [] then []
    else AnswersOf(c, es[..|es| - 1], os[..|os| - 1]) + if es[|es| - 1].class_ == c then [os[|os| - 1]] else []
  }

  lemma IndexInjective(c: AuditClass, d: AuditClass)
    ensures Index(c) == Index(d) <==> c == d
  {
  }

  /** One more event: its class steps as if alone, the others stay. */
  lemma RanClass(H: HashFunction, es: seq<Event>, e: Event)
    ensures var before, after, i := Ran(H, es), Ran(H, es + [e]), Index(e.class_);
      var step := ClassStep(before.0.classes[i], e);
      && after.0.classes[i] == step.0 && after.1 == before.1 + [step.1]
      && forall k :: 0 <= k < CLASS_COUNT && k != i ==> after.0.classes[k] == before.0.classes[k]
  {
    hide After, ClassStep, Index;
    assert (es + [e])[..|es + [e]| - 1] == es;
    StepClass(H, Ran(H, es).0, e);
  }

  /** Classes do not interfere: whatever other events come between, a class's counters and the answers
      its events get are those of a run of its events alone. */
  lemma {:induction false} ClassesDoNotInterfere(H: HashFunction, c: AuditClass, es: seq<Event>)
    ensures Ran(H, es).0.classes[Index(c)] == Ran(H, Only(c, es)).0.classes[Index(c)]
    ensures AnswersOf(c, es, Ran(H, es).1) == Ran(H, Only(c, es)).1
    decreases |es|
  {
    hide ClassStep, Index, Ran, Inv, Only;
    InvSize(H, Ran(H, es).0);
    if es == [] {
      OnlyNext(c, [], Note(c, []));
      NothingRan(H);
    } else {
      var front, e := es[..|es| - 1], es[|es| - 1];
      assert es == front + [e];
      ClassesDoNotInterfere(H, c, front);
      RanClass(H, front, e);
      IndexInjective(c, e.class_);
      OnlyNext(c, front, e);
      var answers := Ran(H, es).1;
      assert answers[..|answers| - 1] == Ran(H, front).1;
      if e.class_ == c {
        RanClass(H, Only(c, front), e);
      }
    }
  }

  lemma OnlyNext(c: AuditClass, es: seq<Event>, e: Event)
    ensures Only(c, []) == [] && Only(c, es + [e]) == if e.class_ == c then Only(c, es) + [e] else Only(c, es)
  {
    assert (es + [e])[..|es + [e]| - 1] == es;
  }

  lemma NothingRan(H: HashFunction)
    ensures Ran(H, []) == (Start(), [])
  {
  }

  lemma InvSize(H: HashFunction, a: Audit)
    requires Inv(H, a)
    ensures |a.classes| == CLASS_COUNT
  {
  }

  /** The chain only ever grows, and never beyond its capacity. */
  lemma {:induction false} ChainOnlyExtends(H: HashFunction, es: seq<Event>, n: nat)
    requires n <= |es|
    ensures Ran(H, es[..n]).0.entries <= Ran(H, es).0.entries && |Ran(H, es).0.entries| <= TOTAL_CAPACITY
    decreases |es|
  {
    hide After, Inv;
    CapacityNeverDecides(H, Ran(H, es).0, Applied);
    if n < |es| {
      var front := es[..|es| - 1];
      assert front[..n] == es[..n];
      ChainOnlyExtends(H, front, n);
      StepInv(H, Ran(H, front).0, es[|es| - 1]);
    } else {
      assert es[..n] == es;
    }
  }

  // ----- counting

  /** How many of the events ask for an entry of their own. */
  function Asked(es: seq<Event>): (n: nat) {
    if es == [] then 0 else Asked(es[..|es| - 1]) + if es[|es| - 1].Record? then 1 else 0
  }

  lemma {:induction false} AskedAtMost(es: seq<Event>)
    ensures Asked(es) <= |es|
  {
    if es != [] { AskedAtMost(es[..|es| - 1]); }
  }

  /** How many of the first `n` powers of four are at most `d`. */
  function PowersReached(n: nat, d: nat): (k: nat) {
    if n == 0 then 0 else PowersReached(n - 1, d) + if Pow4(n - 1) <= d then 1 else 0
  }

  lemma {:induction false} PowersReachedIs(n: nat, d: nat, k: nat)
    requires k <= n && (k < n ==> d < Pow4(k)) && (0 < k ==> Pow4(k - 1) <= d)
    ensures PowersReached(n, d) == k
  {
    if 0 < n {
      if k == n {
        if 1 < k { assert Pow4(k - 2) <= Pow4(k - 1); }
        PowersReachedIs(n - 1, d, n - 1);
      } else {
        PowGrows(k, n - 1);
        PowersReachedIs(n - 1, d, k);
      }
    }
  }

  lemma {:induction false} PowGrows(a: nat, b: nat)
    requires a <= b
    ensures Pow4(a) <= Pow4(b) && (a < b ==> Pow4(a) < Pow4(b))
  {
    if a < b { PowGrows(a, b - 1); }
  }

  /** No event is lost: a class has recorded as many as asked for an entry, up to its quota, and counted
      all the others; and it has committed a summary for each of 1, 4, ..., 4^7 the count has reached. */
  lemma {:induction false} EventsAccounted(H: HashFunction, c: AuditClass, es: seq<Event>)
    requires forall i :: 0 <= i < |es| ==> es[i].class_ == c
    ensures var st, kept := Ran(H, es).0.classes[Index(c)], Min(Quota(c), Asked(es));
      && st.recorded == kept <= |es|
      && st.dropped == Min(|es| - kept, U64_LIMIT - 1)
      && st.summaries == PowersReached(MAX_SUMMARY_COMMITS, st.dropped)
    decreases |es|
  {
    hide Quota, Counted, CountOutcome, EventReason, PowersReached, Ran, Index, Pow4, QuotaAt;
    ClassInv(H, c, es);
    AskedAtMost(es);
    if es == [] {
      NothingRan(H);
    } else {
      var front, e := es[..|es| - 1], es[|es| - 1];
      assert es == front + [e];
      ClassInv(H, c, front);
      EventsAccounted(H, c, front);
      AskedAtMost(front);
      RanClass(H, front, e);
      CountedOk(Ran(H, front).0.classes[Index(c)], Index(c), EventReason(e));
    }
  }

  lemma ClassInv(H: HashFunction, c: AuditClass, es: seq<Event>)
    ensures var st := Ran(H, es).0.classes[Index(c)];
      ClassOk(st, Index(c)) && st.summaries == PowersReached(MAX_SUMMARY_COMMITS, st.dropped)
  {
    hide PowersReached, Ran, Index, Pow4, QuotaAt;
    var a := Ran(H, es).0;
    assert Inv(H, a);
    var st := a.classes[Index(c)];
    assert ClassOk(st, Index(c));
    PowersReachedIs(MAX_SUMMARY_COMMITS, st.dropped, st.summaries);
  }

  /** For any run: recorded plus dropped is what was submitted, until the counter saturates. */
  lemma RecordedPlusDropped(H: HashFunction, c: AuditClass, es: seq<Event>)
    ensures var st, mine := Ran(H, es).0.classes[Index(c)], Only(c, es);
      && st.recorded == Min(Quota(c), Asked(mine)) <= |mine|
      && (|mine| - st.recorded < U64_LIMIT ==> st.recorded + st.dropped == |mine|)
      && st.summaries == PowersReached(MAX_SUMMARY_COMMITS, st.dropped)
  {
    hide Ran, Quota, PowersReached, Only;
    ClassesDoNotInterfere(H, c, es);
    EventsAccounted(H, c, Only(c, es));
  }

  /** One of 1, 4, 16, ..., 4^7. */
  ghost predicate OnSchedule(count: nat) {
    exists k :: 0 <= k < MAX_SUMMARY_COMMITS && count == Pow4(k)
  }

  lemma NextOnSchedule(st: ClassState, i: nat)
    requires i < CLASS_COUNT && ClassOk(st, i)
    ensures OnSchedule(st.dropped + 1) <==> st.summaries < MAX_SUMMARY_COMMITS && st.dropped + 1 == Pow4(st.summaries)
  {
    hide Pow4, QuotaAt;
    if OnSchedule(st.dropped + 1) {
      var k :| 0 <= k < MAX_SUMMARY_COMMITS && st.dropped + 1 == Pow4(k);
      if k < st.summaries { PowGrows(k, st.summaries - 1); }
      if st.summaries < k { PowGrows(st.summaries, k); }
    }
  }

  lemma StepOnSchedule(st: ClassState, e: Event)
    requires ClassOk(st, Index(e.class_)) && ClassStep(st, e).1.Coalesced?
    ensures ClassStep(st, e).1.summaryCommitted <==> OnSchedule(st.dropped + 1)
  {
    hide EventReason, Index, Counted, ClassOk, OnSchedule, Pow4, Quota;
    CountedOk(st, Index(e.class_), EventReason(e));
    NextOnSchedule(st, Index(e.class_));
  }

  /** An event that is counted commits a summary exactly when it brings its class's count to one of
      1, 4, 16, ..., 4^7. */
  lemma SummariesOnSchedule(H: HashFunction, es: seq<Event>, e: Event)
    ensures var o := Ran(H, es + [e]).1[|es|];
      o.Coalesced? ==> (o.summaryCommitted <==> OnSchedule(Ran(H, es).0.classes[Index(e.class_)].dropped + 1))
  {
    hide *;
    LastStep(H, es, e);
    InvSize(H, Ran(H, es).0);
    var st := Ran(H, es).0.classes[Index(e.class_)];
    if ClassStep(st, e).1.Coalesced? { StepOnSchedule(st, e); }
  }

  lemma LastStep(H: HashFunction, es: seq<Event>, e: Event)
    ensures var st := Ran(H, es).0.classes[Index(e.class_)];
      ClassOk(st, Index(e.class_)) && Ran(H, es + [e]).1[|es|] == ClassStep(st, e).1
  {
    hide *;
    ClassInv(H, e.class_, es);
    RanClass(H, es, e);
  }

  lemma LastAnswer(H: HashFunction, es: seq<Event>)
    requires es != []
    ensures var a := Ran(H, es[..|es| - 1]).0;
      a.Sized() && Ran(H, es).0 == After(H, a, es[|es| - 1]).0 && Ran(H, es).1[|es| - 1] == After(H, a, es[|es| - 1]).1
  {
    hide After;
    StepInv(H, Ran(H, es[..|es| - 1]).0, es[|es| - 1]);
  }

  // ----- the self-check

  /** The `i`-th event asks for an entry under a summary's subject, before its class's quota is used up. */
  ghost predicate Impostor(es: seq<Event>, i: nat)
    requires i < |es|
  {
    es[i].Record? && SummaryPrefix() <= es[i].subject && Asked(Only(es[i].class_, es[..i])) < Quota(es[i].class_)
  }

  ghost function Impostors(es: seq<Event>): (n: nat) {
    if es == [] then 0 else Impostors(es[..|es| - 1]) + if Impostor(es, |es| - 1) then 1 else 0
  }

  lemma {:induction false} NoImpostors(es: seq<Event>)
    ensures Impostors(es) == 0 <==> forall i :: 0 <= i < |es| ==> !Impostor(es, i)
  {
    if es != [] {
      var front := es[..|es| - 1];
      NoImpostors(front);
      forall i | 0 <= i < |front| ensures Impostor(front, i) <==> Impostor(es, i) {
        assert front[..i] == es[..i];
      }
    }
  }

  /** An event gets an entry of its own exactly when it asks for one and fewer events of its class than its quota
      have asked before it. */
  lemma RecordedIff(H: HashFunction, es: seq<Event>, e: Event)
    ensures Ran(H, es + [e]).1[|es|].Recorded? <==> e.Record? && Asked(Only(e.class_, es)) < Quota(e.class_)
  {
    hide *;
    InvSize(H, Ran(H, es).0);
    LastStep(H, es, e);
    RecordedPlusDropped(H, e.class_, es);
    StepRecordedIff(Ran(H, es).0.classes[Index(e.class_)], e, Asked(Only(e.class_, es)));
  }

  lemma StepRecordedIff(st: ClassState, e: Event, asked: nat)
    requires st.recorded == Min(Quota(e.class_), asked)
    ensures ClassStep(st, e).1.Recorded? <==> e.Record? && asked < Quota(e.class_)
  {
    hide Quota, Counted, EventReason;
  }

  /** The summary entries in the chain are those the counters tell of, and the impostors. */
  lemma {:induction false} PrefixedEntries(H: HashFunction, es: seq<Event>)
    ensures Prefixed(Ran(H, es).0.entries) == Summaries(Ran(H, es).0.classes, CLASS_COUNT) + Impostors(es)
    decreases |es|
  {
    hide Inv, Index, SummaryPrefix, Asked, Only, Quota, Prefixed, Summaries, Ran, After;
    InvSize(H, Ran(H, es).0);
    if es == [] {
      NothingRan(H);
      NothingPrefixed();
    } else {
      PrefixedEntries(H, es[..|es| - 1]);
      LastAnswer(H, es);
      assert es == es[..|es| - 1] + [es[|es| - 1]];
      RecordedIff(H, es[..|es| - 1], es[|es| - 1]);
      var a := Ran(H, es[..|es| - 1]).0;
      PrefixedStep(H, a, es[|es| - 1]);
    }
  }

  lemma NothingPrefixed()
    ensures Prefixed(Start().entries) == 0 == Summaries(Start().classes, CLASS_COUNT)
  {
    NothingAppended(Start().classes, CLASS_COUNT);
  }

  lemma PrefixedStep(H: HashFunction, a: Audit, e: Event)
    requires Inv(H, a)
    ensures a.Sized()
    ensures var b, o := After(H, a, e).0, After(H, a, e).1;
      var impostor := o.Recorded? && e.Record? && SummaryPrefix() <= e.subject;
      && |b.classes| == CLASS_COUNT
      && Prefixed(b.entries) - Summaries(b.classes, CLASS_COUNT)
           == Prefixed(a.entries) - Summaries(a.classes, CLASS_COUNT) + if impostor then 1 else 0
  {
    hide Counted, Name, LifecycleEntry, SummaryEntry, EventReason, SummaryPrefix, Appended, QuotaAt, Pow4, Preimage, Index;
    CapacityNeverDecides(H, a, e.class_);
    var b, i := After(H, a, e).0, Index(e.class_);
    CountedOk(a.classes[i], i, EventReason(e));
    AppendedUpdate(a.classes, CLASS_COUNT, i, b.classes[i]);
    if b.entries != a.entries {
      assert b.entries[..|b.entries| - 1] == a.entries;
      assert SummaryPrefix() <= SummaryPrefix() + Name(e.class_);
    }
  }

  /** The self-check passes after a run exactly when no event asked for an entry under a summary's subject before
      its class's quota was used up. */
  lemma VerifiesIff(H: HashFunction, es: seq<Event>)
    ensures Verifies(H, Ran(H, es).0) <==> forall i :: 0 <= i < |es| ==> !Impostor(es, i)
  {
    hide Ran, Impostors, Impostor, Preimage, Pow4, Prefixed, Appended, Summaries, QuotaAt;
    var a := Ran(H, es).0;
    PrefixedEntries(H, es);
    NoImpostors(es);
    CapacityNeverDecides(H, a, Applied);
    assert forall k :: 0 <= k < CLASS_COUNT ==> ClassOk(a.classes[k], k);
  }

  /** One such event is enough to make a fresh log fail its self-check. */
  lemma OneImpostorFails(H: HashFunction, e: Event)
    requires e.Record? && SummaryPrefix() <= e.subject
    ensures !Verifies(H, Ran(H, [e]).0)
  {
    hide Verifies, Ran, SummaryPrefix;
    VerifiesIff(H, [e]);
    assert [e][..0] == [];
    assert Impostor([e], 0);
  }

  /** So it passes after every run whose subjects avoid the summaries' prefix. */
  lemma AlwaysVerifies(H: HashFunction, es: seq<Event>)
    requires forall i :: 0 <= i < |es| && es[i].Record? ==> !(SummaryPrefix() <= es[i].subject)
    ensures Verifies(H, Ran(H, es).0)
  {
    hide Verifies, Ran, SummaryPrefix, Only, Asked, Quota;
    VerifiesIff(H, es);
  }
}
