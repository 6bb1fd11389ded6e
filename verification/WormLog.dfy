/** The hash-chained audit log. Each entry carries the hash of the one before it, and its own hash is
    taken over that hash and its fields. The hash function is a parameter: what is proved assumes of
    it only that it does not collide, and is not all zero, on the preimages of the logs in question. */
module WormLog {
  import opened Bytes

  type Hash = h: seq<Byte> | |h| == 32 ghost witness seq(32, i => 0)

  type Text = seq<Byte>

  function ZeroHash(): (h: Hash) {
    seq<Byte>(32, i => 0)
  }

  datatype Entry = Entry(seqNo: nat, moduleId: Text, instanceId: Option<Text>, tier: Option<Text>, authorized: bool,
                         reason: Option<Text>, shadowMarshal: Option<Text>, prevHash: Hash, entryHash: Hash) {
    /** Positions are 64-bit numbers. */
    predicate Valid() {
      seqNo < U64_LIMIT
    }
  }

  function Flag(b: bool): (s: seq<Byte>) {
    if b then [1] else [0]
  }

  function Field(t: Option<Text>): (s: seq<Byte>) {
    if t.Some? then t.value else []
  }

  /** What an entry's hash is taken over: its fields one after the other, without lengths. */
  function Preimage(e: Entry): (s: seq<Byte>)
    requires e.Valid()
    ensures |s| >= 40 && s[..32] == e.prevHash && s[32..40] == Le64(e.seqNo)
  {
    var s := e.prevHash + Le64(e.seqNo) + (e.moduleId
      + Flag(e.instanceId.Some?) + Field(e.instanceId)
      + Flag(e.tier.Some?) + Field(e.tier)
      + Flag(e.authorized) + Field(e.reason)
      + Flag(e.shadowMarshal.Some?) + Field(e.shadowMarshal));
    assert s[..32] == e.prevHash && s[32..40] == Le64(e.seqNo);
    s
  }

  type HashFunction = seq<Byte> -> Hash

  ghost predicate AllValid(es: seq<Entry>) {
    forall i :: 0 <= i < |es| ==> es[i].Valid()
  }

  /** The hash the entry at position `i` must carry as its predecessor's. */
  function PrevHash(es: seq<Entry>, i: nat): (h: Hash)
    requires i <= |es|
  {
    if i == 0 then ZeroHash() else es[i - 1].entryHash
  }

  ghost predicate LinkedAt(H: HashFunction, es: seq<Entry>, i: nat)
    requires i < |es|
  {
    es[i].Valid() && es[i].prevHash == PrevHash(es, i) && es[i].entryHash == H(Preimage(es[i]))
  }

  /** A log that verifies. */
  ghost predicate Chained(H: HashFunction, es: seq<Entry>) {
    forall i :: 0 <= i < |es| ==> LinkedAt(H, es, i)
  }

  /** A log as recording builds it: it verifies and positions count up from zero. */
  ghost predicate Recorded(H: HashFunction, es: seq<Entry>) {
    Chained(H, es) && forall i :: 0 <= i < |es| ==> es[i].seqNo == i
  }

  function NewEntry(H: HashFunction, es: seq<Entry>, moduleId: Text, instanceId: Option<Text>, tier: Option<Text>,
                    authorized: bool, reason: Option<Text>, shadowMarshal: Option<Text>): (e: Entry)
    requires |es| < U64_LIMIT
    ensures e.Valid() && e.seqNo == |es| && e.prevHash == PrevHash(es, |es|) && e.entryHash == H(Preimage(e))
    ensures e.moduleId == moduleId && e.authorized == authorized && e.reason == reason
    ensures e.instanceId == instanceId && e.tier == tier && e.shadowMarshal == shadowMarshal
  {
    var e := Entry(|es|, moduleId, instanceId, tier, authorized, reason, shadowMarshal, PrevHash(es, |es|), ZeroHash());
    e.(entryHash := H(Preimage(e)))
  }

  class Log {
    const H: HashFunction
    var entries: seq<Entry>

    constructor (H: HashFunction)
      ensures entries == [] && this.H == H
    {
      this.H, entries := H, [];
    }

    /** Appends one entry. The log keeps what it had and still is a recorded log. */
    method Record(moduleId: Text, instanceId: Option<Text>, tier: Option<Text>, authorized: bool, reason: Option<Text>,
                  shadowMarshal: Option<Text>)
      requires |entries| < U64_LIMIT
      modifies this`entries
      ensures entries == old(entries) + [NewEntry(H, old(entries), moduleId, instanceId, tier, authorized, reason, shadowMarshal)]
      ensures Recorded(H, old(entries)) ==> Recorded(H, entries)
    {
      if Recorded(H, entries) {
        RecordExtends(H, entries, moduleId, instanceId, tier, authorized, reason, shadowMarshal);
      }
      entries := entries + [NewEntry(H, entries, moduleId, instanceId, tier, authorized, reason, shadowMarshal)];
    }

    /** Recomputes every hash and link. */
    method VerifyChain() returns (ok: bool)
      requires AllValid(entries)
      ensures ok <==> Chained(H, entries)
    {
      var prevHash := ZeroHash();
      for i := 0 to |entries|
        invariant prevHash == PrevHash(entries, i)
        invariant forall j :: 0 <= j < i ==> LinkedAt(H, entries, j)
      {
        var entry := entries[i];
        if entry.prevHash != prevHash {
          assert !LinkedAt(H, entries, i);
          return false;
        }
        if H(Preimage(entry)) != entry.entryHash {
          assert !LinkedAt(H, entries, i);
          return false;
        }
        prevHash := entry.entryHash;
      }
      return true;
    }
  }

  lemma RecordExtends(H: HashFunction, es: seq<Entry>, moduleId: Text, instanceId: Option<Text>, tier: Option<Text>,
                      authorized: bool, reason: Option<Text>, shadowMarshal: Option<Text>)
    requires |es| < U64_LIMIT && Recorded(H, es)
    ensures Recorded(H, es + [NewEntry(H, es, moduleId, instanceId, tier, authorized, reason, shadowMarshal)])
  {
    hide Preimage;
    var t := es + [NewEntry(H, es, moduleId, instanceId, tier, authorized, reason, shadowMarshal)];
    forall i | 0 <= i < |t| ensures LinkedAt(H, t, i) {
      if i < |es| { assert LinkedAt(H, es, i); }
    }
  }

  // ----- tamper evidence

  /** The hash function does not collide on the entries of `es` and never gives all zeros there. */
  ghost predicate Sound(H: HashFunction, es: seq<Entry>)
    requires AllValid(es)
  {
    && (forall i, j :: 0 <= i < |es| && 0 <= j < |es| && H(Preimage(es[i])) == H(Preimage(es[j])) ==>
          Preimage(es[i]) == Preimage(es[j]))
    && (forall i :: 0 <= i < |es| ==> H(Preimage(es[i])) != ZeroHash())
  }

  /** Entries at different positions of a recorded log have different hashes, none of them zero. */
  lemma HashesDiffer(H: HashFunction, es: seq<Entry>, i: nat, j: nat)
    requires Recorded(H, es) && AllValid(es) && Sound(H, es) && i < |es| && j < |es|
    ensures es[i].entryHash == es[j].entryHash <==> i == j
    ensures es[i].entryHash != ZeroHash()
  {
    hide Preimage, Le64;
    assert LinkedAt(H, es, i) && LinkedAt(H, es, j);
    if es[i].entryHash == es[j].entryHash {
      assert Preimage(es[i])[32..40] == Preimage(es[j])[32..40];
      Le64Injective(i, j);
    }
  }

  lemma Le64Injective(a: nat, b: nat)
    requires a < U64_LIMIT && b < U64_LIMIT && Le64(a) == Le64(b)
    ensures a == b
  {
    assert U64(Le64(a)) == a && U64(Le64(b)) == b;
  }

  /** Every prefix of a log that verifies verifies. */
  lemma PrefixVerifies(H: HashFunction, es: seq<Entry>, n: nat)
    requires Chained(H, es) && n <= |es|
    ensures Chained(H, es[..n])
  {
    hide Preimage;
    forall i | 0 <= i < n ensures LinkedAt(H, es[..n], i) {
      assert LinkedAt(H, es, i);
    }
  }

  /** Removing any entry but the last is detected. */
  lemma RemovalDetected(H: HashFunction, es: seq<Entry>, i: nat)
    requires Recorded(H, es) && AllValid(es) && Sound(H, es) && i + 1 < |es|
    ensures !Chained(H, es[..i] + es[i + 1..])
  {
    hide Preimage, Sound;
    var t := es[..i] + es[i + 1..];
    assert t[i] == es[i + 1] && LinkedAt(H, es, i + 1);
    HashesDiffer(H, es, i, if i == 0 then 0 else i - 1);
    assert !LinkedAt(H, t, i);
  }

  /** Swapping two entries is detected. */
  lemma SwapDetected(H: HashFunction, es: seq<Entry>, i: nat, j: nat)
    requires Recorded(H, es) && AllValid(es) && Sound(H, es) && i < j < |es|
    ensures !Chained(H, es[i := es[j]][j := es[i]])
  {
    hide Preimage, Sound;
    var t := es[i := es[j]][j := es[i]];
    assert LinkedAt(H, es, j);
    HashesDiffer(H, es, j - 1, if i == 0 then 0 else i - 1);
    assert !LinkedAt(H, t, i);
  }

  /** The logs are of one length and agree on what every hash was taken over. */
  ghost predicate SamePreimages(es: seq<Entry>, fs: seq<Entry>)
    requires AllValid(es) && AllValid(fs)
  {
    |es| == |fs| && forall i :: 0 <= i < |es| ==> Preimage(es[i]) == Preimage(fs[i])
  }

  lemma NoPreimages(es: seq<Entry>, fs: seq<Entry>)
    requires AllValid(es) && AllValid(fs)
    ensures es == [] && fs == [] ==> SamePreimages(es, fs)
  {
  }

  lemma SamePreimagesNext(es: seq<Entry>, fs: seq<Entry>)
    requires AllValid(es) && AllValid(fs) && es != [] && fs != []
    requires SamePreimages(es[..|es| - 1], fs[..|fs| - 1]) && Preimage(es[|es| - 1]) == Preimage(fs[|fs| - 1])
    ensures SamePreimages(es, fs)
  {
    hide Preimage;
    var m := |es| - 1;
    assert forall i :: 0 <= i < m ==> es[i] == es[..m][i] && fs[i] == fs[..m][i];
  }

  /** Two logs that verify and end in the same hash are of one length and agree on what every hash was
      taken over. */
  lemma {:induction false} SameEndSameLog(H: HashFunction, es: seq<Entry>, fs: seq<Entry>)
    requires Chained(H, es) && Chained(H, fs) && AllValid(es) && AllValid(fs) && Sound(H, es + fs)
    requires PrevHash(es, |es|) == PrevHash(fs, |fs|)
    ensures SamePreimages(es, fs)
    decreases |es|
  {
    hide Preimage, Sound, Chained, LinkedAt, SamePreimages;
    NoPreimages(es, fs);
    assert [] + es + fs == es + fs == es + fs + [];
    if es != [] { EndNotZero(H, es, [], fs); }
    if fs != [] { EndNotZero(H, fs, es, []); }
    if es != [] && fs != [] {
      var m, n := |es| - 1, |fs| - 1;
      SameEndSameLast(H, es, fs);
      PrefixVerifies(H, es, m);
      PrefixVerifies(H, fs, n);
      SoundPart(H, es, fs, m, n);
      SameEndSameLog(H, es[..m], fs[..n]);
      SamePreimagesNext(es, fs);
    }
  }

  lemma EndNotZero(H: HashFunction, es: seq<Entry>, before: seq<Entry>, after: seq<Entry>)
    requires Chained(H, es) && es != [] && AllValid(before + es + after) && Sound(H, before + es + after)
    ensures PrevHash(es, |es|) != ZeroHash()
  {
    hide Preimage;
    var gs := before + es + after;
    assert LinkedAt(H, es, |es| - 1) && gs[|before| + |es| - 1] == es[|es| - 1];
  }

  lemma SameEndSameLast(H: HashFunction, es: seq<Entry>, fs: seq<Entry>)
    requires Chained(H, es) && Chained(H, fs) && AllValid(es) && AllValid(fs) && Sound(H, es + fs) && es != [] && fs != []
    requires PrevHash(es, |es|) == PrevHash(fs, |fs|)
    ensures Preimage(es[|es| - 1]) == Preimage(fs[|fs| - 1]) && PrevHash(es, |es| - 1) == PrevHash(fs, |fs| - 1)
  {
    hide Preimage;
    var gs, m, n := es + fs, |es| - 1, |fs| - 1;
    assert LinkedAt(H, es, m) && gs[m] == es[m];
    assert LinkedAt(H, fs, n) && gs[|es| + n] == fs[n];
    assert Preimage(gs[m]) == Preimage(gs[|es| + n]);
    assert es[m].prevHash == Preimage(es[m])[..32] && fs[n].prevHash == Preimage(fs[n])[..32];
  }

  lemma SoundPart(H: HashFunction, es: seq<Entry>, fs: seq<Entry>, m: nat, n: nat)
    requires AllValid(es) && AllValid(fs) && Sound(H, es + fs) && m <= |es| && n <= |fs|
    ensures AllValid(es[..m] + fs[..n]) && Sound(H, es[..m] + fs[..n])
  {
    hide Preimage;
    var gs, hs := es + fs, es[..m] + fs[..n];
    assert forall i :: 0 <= i < |hs| ==> hs[i] == gs[if i < m then i else |es| + (i - m)];
  }

  // ----- what a preimage determines

  /** A preimage does not determine its fields: these two entries differ in three of them. */
  lemma FieldsNotDetermined(prev: Hash)
    ensures var e := Entry(0, [1], None, None, false, None, None, prev, prev);
      var f := Entry(0, [], Some([]), None, false, Some([0]), None, prev, prev);
      e.Valid() && f.Valid() && Preimage(e) == Preimage(f) && e.moduleId != f.moduleId && e.instanceId != f.instanceId && e.reason != f.reason
  {
  }

  ghost predicate NoZeroByte(t: Text) {
    forall i :: 0 <= i < |t| ==> t[i] != 0
  }

  /** An entry of the kind lifecycle transitions are recorded as. */
  ghost predicate Lifecycle(e: Entry) {
    e.Valid() && e.instanceId.None? && e.tier.None? && e.shadowMarshal.None? && e.reason.Some?
  }

  /** For lifecycle entries whose subjects hold no zero byte it does determine them. */
  lemma LifecycleDetermined(e: Entry, f: Entry)
    requires Lifecycle(e) && Lifecycle(f) && NoZeroByte(e.moduleId) && NoZeroByte(f.moduleId)
    requires Preimage(e) == Preimage(f)
    ensures e.(entryHash := f.entryHash) == f
  {
    hide Le64, Preimage;
    LifecycleTail(e);
    LifecycleTail(f);
    var x, y := [0] + Flag(e.authorized) + e.reason.value + [0], [0] + Flag(f.authorized) + f.reason.value + [0];
    CutAtZero(e.moduleId, f.moduleId, x, y);
    RestDetermined(e.authorized, f.authorized, e.reason.value, f.reason.value);
    assert e.prevHash == Preimage(e)[..32] == f.prevHash;
    assert Preimage(e)[32..40] == Preimage(f)[32..40];
    Le64Injective(e.seqNo, f.seqNo);
  }

  /** The first zero byte ends a text without one. */
  lemma CutAtZero(a: Text, b: Text, x: seq<Byte>, y: seq<Byte>)
    requires NoZeroByte(a) && NoZeroByte(b) && a + ([0] + x) == b + ([0] + y)
    ensures a == b && x == y
  {
    var s, t := a + ([0] + x), b + ([0] + y);
    assert s[|a|] == 0 && t[|b|] == 0;
    assert forall k :: 0 <= k < |a| ==> s[k] == a[k];
    assert forall k :: 0 <= k < |b| ==> t[k] == b[k];
    assert |a| == |b|;
    assert a == s[..|a|] && b == t[..|b|] && x == s[|a| + 1..] && y == t[|b| + 1..];
  }

  lemma RestDetermined(p: bool, q: bool, a: Text, b: Text)
    requires [0] + Flag(p) + a + [0] == [0] + Flag(q) + b + [0]
    ensures p == q && a == b
  {
    var s, t := [0] + Flag(p) + a + [0], [0] + Flag(q) + b + [0];
    assert s[1] == Flag(p)[0] && t[1] == Flag(q)[0];
    assert a == s[2..|s| - 1] && b == t[2..|t| - 1];
  }

  lemma LifecycleTail(e: Entry)
    requires Lifecycle(e)
    ensures Preimage(e)[40..] == e.moduleId + ([0] + ([0] + Flag(e.authorized) + e.reason.value + [0]))
  {
  }

  // ----- edits of one field

  /** Equal wholes with equal ends have equal middles. */
  lemma MiddleSame(a: seq<Byte>, x: seq<Byte>, y: seq<Byte>, b: seq<Byte>)
    requires a + x + b == a + y + b
    ensures x == y
  {
    var s, t := a + x + b, a + y + b;
    assert x == s[|a|..|s| - |b|] && y == t[|a|..|t| - |b|];
  }

  /** A field that may be absent, as it is hashed. */
  function Optional(t: Option<Text>): (s: seq<Byte>) {
    Flag(t.Some?) + Field(t)
  }

  lemma OptionalSame(t: Option<Text>, u: Option<Text>)
    requires Optional(t) == Optional(u)
    ensures t == u
  {
    assert Optional(t)[0] == Optional(u)[0];
    assert Optional(t)[1..] == Field(t) && Optional(u)[1..] == Field(u);
  }

  function Joined(parts: seq<seq<Byte>>): (s: seq<Byte>) {
    if parts == [] then [] else parts[0] + Joined(parts[1..])
  }

  lemma {:induction false} JoinedSplit(parts: seq<seq<Byte>>, k: nat)
    requires k < |parts|
    ensures Joined(parts) == Joined(parts[..k]) + parts[k] + Joined(parts[k + 1..])
  {
    if k == 0 {
      assert parts[..0] == [];
    } else {
      JoinedSplit(parts[1..], k - 1);
      assert parts[1..][..k - 1] == parts[..k][1..] && parts[1..][k..] == parts[k + 1..];
      assert parts[0] + (Joined(parts[..k][1..]) + parts[k] + Joined(parts[k + 1..])) == Joined(parts[..k]) + parts[k] + Joined(parts[k + 1..]);
    }
  }

  /** The fields as they are hashed, one after the other. */
  function Parts(e: Entry): (ps: seq<seq<Byte>>)
    requires e.Valid()
    ensures |ps| == 8
  {
    [e.prevHash, Le64(e.seqNo), e.moduleId, Optional(e.instanceId), Optional(e.tier), Flag(e.authorized), Field(e.reason), Optional(e.shadowMarshal)]
  }

  lemma PreimageIs(e: Entry)
    requires e.Valid()
    ensures Preimage(e) == Joined(Parts(e))
  {
    hide Le64, Joined, Flag, Field;
    var p, l, m, a, r := e.prevHash, Le64(e.seqNo), e.moduleId, Flag(e.authorized), Field(e.reason);
    var i, t, w := Optional(e.instanceId), Optional(e.tier), Optional(e.shadowMarshal);
    Regroup(p, l, m, Flag(e.instanceId.Some?), Field(e.instanceId), Flag(e.tier.Some?), Field(e.tier), a, r,
            Flag(e.shadowMarshal.Some?), Field(e.shadowMarshal));
    Joined4(p, l, m, i);
    Joined4(t, a, r, w);
    JoinedAppend([p, l, m, i], [t, a, r, w]);
    assert Parts(e) == [p, l, m, i] + [t, a, r, w];
  }

  lemma Regroup(p: seq<Byte>, l: seq<Byte>, m: seq<Byte>, f1: seq<Byte>, x1: seq<Byte>, f2: seq<Byte>, x2: seq<Byte>, a: seq<Byte>,
                r: seq<Byte>, f3: seq<Byte>, x3: seq<Byte>)
    ensures p + l + (m + f1 + x1 + f2 + x2 + a + r + f3 + x3) == (p + l + m + (f1 + x1)) + ((f2 + x2) + a + r + (f3 + x3))
  {
    assert m + f1 + x1 + f2 + x2 + a + r + f3 + x3 == (m + (f1 + x1)) + ((f2 + x2) + a + r + (f3 + x3));
  }

  lemma Joined4(a: seq<Byte>, b: seq<Byte>, c: seq<Byte>, d: seq<Byte>)
    ensures Joined([a, b, c, d]) == a + b + c + d
  {
    assert [a, b, c, d][1..] == [b, c, d] && [b, c, d][1..] == [c, d] && [c, d][1..] == [d];
    assert Joined([d]) == d;
    assert Joined([c, d]) == c + d;
    assert Joined([b, c, d]) == b + (c + d);
    assert a + (b + (c + d)) == a + b + c + d;
  }

  lemma {:induction false} JoinedAppend(ps: seq<seq<Byte>>, qs: seq<seq<Byte>>)
    ensures Joined(ps + qs) == Joined(ps) + Joined(qs)
  {
    if ps == [] {
      assert ps + qs == qs;
    } else {
      JoinedAppend(ps[1..], qs);
      assert (ps + qs)[1..] == ps[1..] + qs;
      assert ps[0] + (Joined(ps[1..]) + Joined(qs)) == (ps[0] + Joined(ps[1..])) + Joined(qs);
    }
  }

  /** Lists that differ in one part are the same text only if that part is the same. */
  lemma PartSame(ps: seq<seq<Byte>>, k: nat, x: seq<Byte>)
    requires k < |ps| && Joined(ps[k := x]) == Joined(ps)
    ensures x == ps[k]
  {
    hide Joined;
    var qs := ps[k := x];
    JoinedSplit(ps, k);
    JoinedSplit(qs, k);
    assert qs[..k] == ps[..k] && qs[k + 1..] == ps[k + 1..];
    MiddleSame(Joined(ps[..k]), x, ps[k], Joined(ps[k + 1..]));
  }

  datatype Edit = Subject(text: Text) | Instance(value: Option<Text>) | Tier(value: Option<Text>) | Permission(flag: bool)
    | Reason(value: Option<Text>) | Shadow(value: Option<Text>)

  function Edited(e: Entry, edit: Edit): (f: Entry)
    ensures f.Valid() <==> e.Valid()
  {
    match edit
    case Subject(t) => e.(moduleId := t)
    case Instance(t) => e.(instanceId := t)
    case Tier(t) => e.(tier := t)
    case Permission(b) => e.(authorized := b)
    case Reason(t) => e.(reason := t)
    case Shadow(t) => e.(shadowMarshal := t)
  }

  /** The part of the text an edit is in, and what it makes of it. */
  function Place(edit: Edit): (k: nat)
    ensures k < 8
  {
    match edit
    case Subject(_) => 2
    case Instance(_) => 3
    case Tier(_) => 4
    case Permission(_) => 5
    case Reason(_) => 6
    case Shadow(_) => 7
  }

  /** An edit of one field changes what is hashed exactly when it changes the field, but for a reason that is empty
      instead of absent. */
  lemma EditHashedIff(e: Entry, edit: Edit)
    requires e.Valid()
    ensures Preimage(Edited(e, edit)) == Preimage(e) <==>
      if edit.Reason? then Field(edit.value) == Field(e.reason) else Edited(e, edit) == e
  {
    hide Preimage, Le64, Joined, Optional, Flag, Field;
    var f, k := Edited(e, edit), Place(edit);
    PreimageIs(e);
    PreimageIs(f);
    assert Parts(f) == Parts(e)[k := Parts(f)[k]];
    if Preimage(f) == Preimage(e) {
      PartSame(Parts(e), k, Parts(f)[k]);
      match edit {
        case Instance(x) => OptionalSame(x, e.instanceId);
        case Tier(x) => OptionalSame(x, e.tier);
        case Permission(x) => FlagSame(x, e.authorized);
        case Shadow(x) => OptionalSame(x, e.shadowMarshal);
        case _ =>
      }
    }
  }

  lemma FlagSame(p: bool, q: bool)
    requires Flag(p) == Flag(q)
    ensures p == q
  {
  }

  /** Such an edit is detected wherever it is made. */
  lemma EditDetected(H: HashFunction, es: seq<Entry>, i: nat, edit: Edit)
    requires Recorded(H, es) && i < |es| && es[i].Valid() && (if edit.Reason? then Field(edit.value) != Field(es[i].reason) else Edited(es[i], edit) != es[i])
    requires H(Preimage(Edited(es[i], edit))) == H(Preimage(es[i])) ==> Preimage(Edited(es[i], edit)) == Preimage(es[i])
    ensures !Chained(H, es[i := Edited(es[i], edit)])
  {
    hide Preimage;
    EditHashedIff(es[i], edit);
    assert LinkedAt(H, es, i);
    assert !LinkedAt(H, es[i := Edited(es[i], edit)], i);
  }
}
