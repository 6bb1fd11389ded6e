/** The request protocol between the block driver and its device, one step at a time. The driver's
    steps are those of one request: fill the buffer, write the header, write three descriptors, fill
    the available slot, publish, poll, read the status, copy the data out. The device is any device
    that takes chains from the available ring, writes only into the writable parts of chains it
    holds, and completes only chains it holds; its steps come between any two of the driver's. */
module VirtioProtocol {
  import opened Bytes
  import opened VirtioRing

  const T_IN := 0
  const T_OUT := 1
  const S_OK: Byte := 0
  const NO_STATUS: Byte := 0xFF
  const POLL_BUDGET := 100_000_000
  const HEADER_LEN := 16
  const DATA_OFFSET := 16
  const STATUS_OFFSET := 528

  // ----- wrapped indices

  function Wrap(count: nat): (idx: nat) {
    count % U16_LIMIT
  }

  function Next(idx: nat): (r: nat) {
    (idx + 1) % U16_LIMIT
  }

  /** The ring slot of an index or of a count. */
  function Slot(qsize: nat, idx: nat): (slot: nat)
    requires ValidateQueueSize(qsize).Some?
    ensures slot < qsize
  {
    QueueSizeWraps(qsize, 0);
    idx % qsize
  }

  lemma WrapNext(qsize: nat, count: nat)
    requires ValidateQueueSize(qsize).Some?
    ensures Next(Wrap(count)) == Wrap(count + 1) && Wrap(count) != Wrap(count + 1)
    ensures Slot(qsize, Wrap(count)) == Slot(qsize, count)
  {
    hide PowerOfTwo, ValidateQueueSize;
    QueueSizeWraps(qsize, count);
  }

  // ----- the two sides' data

  /** The request buffer page: header, data sector and status byte, one after the other. */
  datatype Page = Page(header: seq<Byte>, data: Sector, status: Byte)

  /** The page with byte `at` replaced, counting from the page's start. */
  function Poke(p: Page, at: nat, b: Byte): (r: Page) {
    if at < |p.header| && at < DATA_OFFSET then p.(header := p.header[at := b])
    else if DATA_OFFSET <= at < STATUS_OFFSET then
      var data: Sector := p.data[at - DATA_OFFSET := b];
      p.(data := data)
    else if at == STATUS_OFFSET then p.(status := b)
    else p
  }

  datatype Request = Request(write: bool, sector: nat, data: Sector) {
    predicate Valid() {
      sector < U64_LIMIT && (!write ==> data == ZeroSector())
    }
  }

  function Header(r: Request): (h: seq<Byte>)
    requires r.Valid()
    ensures |h| == HEADER_LEN
  {
    Le32(if r.write then T_OUT else T_IN) + Le32(0) + Le64(r.sector)
  }

  datatype Config = Config(qsize: nat, base: nat) {
    predicate Valid() {
      ValidateQueueSize(qsize).Some? && base + 4096 <= U64_LIMIT
    }
  }

  /** The chain of a request: header, data (device-writable for a read), status. */
  function ChainFor(c: Config, r: Request): (parts: seq<Part>) {
    [Part(c.base, HEADER_LEN, false), Part(c.base + DATA_OFFSET, SECTOR_SIZE, !r.write), Part(c.base + STATUS_OFFSET, 1, true)]
  }

  datatype Reply = Reply(request: nat, status: Byte, data: Sector)

  /** What a request returns to the caller: nothing (not completed), a status, or a sector read. */
  datatype Outcome = NoStatus | Status(status: Byte) | Data(bytes: Sector)

  function OutcomeOf(r: Request, reply: Reply): (o: Outcome) {
    if !r.write && reply.status == S_OK then Data(reply.data) else Status(reply.status)
  }

  /** Where the driver stands inside one request. */
  datatype Pc = Idle | FillData | FillStatus | WriteHeader | WriteDesc(i: nat) | FillSlot | Publish | Poll(tries: nat) | ReadStatus | CopyOut

  datatype State = State(
    desc: seq<Desc>, availRing: seq<nat>, availIdx: nat, usedRing: seq<UsedElem>, usedIdx: nat, page: Page,
    pc: Pc, req: Request, lastUsedSeen: nat, faulted: bool,
    lastAvailSeen: nat, held: set<nat>,
    // history: what was asked, answered, posted (with the slot used), taken, completed and consumed so far
    submitted: seq<Request>, results: seq<Outcome>, posted: seq<Request>, slots: seq<nat>, taken: seq<seq<Part>>,
    completed: seq<Reply>, consumed: nat)

  datatype Step = Submit(r: Request) | Drive | Take | Dma(request: nat, addr: nat, value: Byte) | Complete(done: nat, len: nat)

  predicate Covers(parts: seq<Part>, addr: nat) {
    exists i :: 0 <= i < |parts| && parts[i].writable && parts[i].addr <= addr < parts[i].addr + parts[i].len
  }

  predicate Sized(c: Config, s: State) {
    && c.Valid()
    && |s.desc| == |s.availRing| == |s.usedRing| == c.qsize
    && |s.page.header| == HEADER_LEN
    && s.req.Valid()
    && (s.pc.WriteDesc? ==> s.pc.i < 3) && (s.pc.Poll? ==> s.pc.tries < POLL_BUDGET)
  }

  ghost predicate Init(c: Config, s: State) {
    && Sized(c, s)
    && s.availIdx == s.usedIdx == s.lastUsedSeen == s.lastAvailSeen == s.consumed == 0
    && s.pc == Idle && !s.faulted && s.held == {}
    && s.submitted == [] && s.results == [] && s.posted == [] && s.slots == [] && s.taken == [] && s.completed == []
  }

  predicate Enabled(c: Config, s: State, step: Step)
    requires Sized(c, s)
  {
    match step
    case Submit(r) => s.pc.Idle? && r.Valid()
    case Drive => !s.pc.Idle?
    case Take =>
      s.lastAvailSeen != s.availIdx && ReadChain(s.desc, s.availRing[Slot(c.qsize, s.lastAvailSeen)], c.qsize).Some?
    case Dma(k, addr, value) => k in s.held && k < |s.taken| && Covers(s.taken[k], addr) && c.base <= addr
    case Complete(k, len) => k in s.held
  }

  // ----- steps

  function Answer(s: State, o: Outcome): (t: State) {
    s.(pc := Idle, results := s.results + [o])
  }

  /** The driver's next step inside a request. */
  function Driven(c: Config, s: State): (t: State)
    requires Sized(c, s) && !s.pc.Idle?
  {
    match s.pc
    case Idle => s
    case FillData => s.(page := s.page.(data := s.req.data), pc := FillStatus)
    case FillStatus => s.(page := s.page.(status := NO_STATUS), pc := WriteHeader)
    case WriteHeader => s.(page := s.page.(header := Header(s.req)), pc := WriteDesc(0))
    case WriteDesc(i) =>
      s.(desc := s.desc[i := DescOf(ChainFor(c, s.req), i)], pc := if i < 2 then WriteDesc(i + 1) else FillSlot)
    case FillSlot => s.(availRing := s.availRing[Slot(c.qsize, s.availIdx) := 0], pc := Publish)
    case Publish =>
      s.(slots := s.slots + [Slot(c.qsize, s.availIdx)], posted := s.posted + [s.req],
         availIdx := Next(s.availIdx), pc := Poll(0))
    case Poll(tries) =>
      if s.usedIdx != s.lastUsedSeen then
        s.(lastUsedSeen := Next(s.lastUsedSeen), consumed := s.consumed + 1, pc := ReadStatus)
      else if tries + 1 < POLL_BUDGET then s.(pc := Poll(tries + 1))
      else Answer(s.(faulted := true), NoStatus)
    case ReadStatus =>
      if !s.req.write && s.page.status == S_OK then s.(pc := CopyOut) else Answer(s, Status(s.page.status))
    case CopyOut => Answer(s, Data(s.page.data))
  }

  function Apply(c: Config, s: State, step: Step): (t: State)
    requires Sized(c, s) && Enabled(c, s, step)
  {
    match step
    case Submit(r) =>
      if s.faulted then Answer(s.(submitted := s.submitted + [r]), NoStatus)
      else s.(submitted := s.submitted + [r], req := r, pc := FillData)
    case Drive => Driven(c, s)
    case Take =>
      var parts := ReadChain(s.desc, s.availRing[Slot(c.qsize, s.lastAvailSeen)], c.qsize).value;
      s.(taken := s.taken + [parts], held := s.held + {|s.taken|}, lastAvailSeen := Next(s.lastAvailSeen))
    case Dma(k, addr, value) => s.(page := Poke(s.page, addr - c.base, value))
    case Complete(k, len) =>
      s.(usedRing := s.usedRing[Slot(c.qsize, s.usedIdx) := UsedElem(0, len)], usedIdx := Next(s.usedIdx),
         held := s.held - {k}, completed := s.completed + [Reply(k, s.page.status, s.page.data)])
  }

  ghost predicate Run(c: Config, states: seq<State>, steps: seq<Step>): (ok: bool)
    ensures ok ==> |states| == |steps| + 1
  {
    && |states| == |steps| + 1
    && Init(c, states[0])
    && forall i :: 0 <= i < |steps| ==> Moves(c, states[i], steps[i], states[i + 1])
  }

  ghost predicate Moves(c: Config, s: State, step: Step, t: State) {
    Sized(c, s) && Enabled(c, s, step) && t == Apply(c, s, step)
  }

  // ----- the invariant

  /** How far each side has got: what was consumed was completed, what was completed was taken, what
      was taken was posted, and no more than one post is ahead of what was consumed. The wrapped
      indices stand for these counts. */
  ghost predicate Counted(c: Config, s: State) {
    && s.consumed <= |s.completed| <= |s.taken| <= |s.posted| <= s.consumed + 1
    && s.availIdx == Wrap(|s.posted|) && s.lastAvailSeen == Wrap(|s.taken|)
    && s.usedIdx == Wrap(|s.completed|) && s.lastUsedSeen == Wrap(s.consumed)
    && s.held == (if |s.completed| < |s.taken| then {|s.completed|} else {})
  }

  /** Requests are posted, taken and completed in the order they were submitted, as they were
      submitted, through consecutive slots. */
  ghost predicate Ordered(c: Config, s: State)
    requires c.Valid()
  {
    && |s.slots| == |s.posted| <= |s.submitted|
    && s.posted == s.submitted[..|s.posted|]
    && (forall k :: 0 <= k < |s.slots| ==> s.slots[k] == Slot(c.qsize, k))
    && |s.taken| <= |s.posted|
    && (forall k :: 0 <= k < |s.taken| ==> s.taken[k] == ChainFor(c, s.posted[k]))
    && (forall k :: 0 <= k < |s.completed| ==> s.completed[k].request == k)
    && (forall k :: 0 <= k < |s.submitted| ==> s.submitted[k].Valid())
  }

  /** What stands in the shared memory for the request `r` that is posted or about to be. */
  ghost predicate Staged(c: Config, s: State, r: Request, descs: nat)
    requires r.Valid() && descs <= 3
  {
    && s.page.header == Header(r)
    && (r.write ==> s.page.data == r.data)
    && Table(s.desc, ChainFor(c, r), descs)
  }

  /** The buffer as it is filled for a request. */
  predicate Loaded(s: State) {
    s.page.data == s.req.data && s.page.status == NO_STATUS
  }

  /** Where the driver stands and what it has prepared or is waiting for. */
  ghost predicate Placed(c: Config, s: State)
    requires c.Valid() && s.req.Valid() && |s.availRing| == c.qsize && (s.pc.WriteDesc? ==> s.pc.i < 3)
    requires |s.posted| <= |s.submitted|
  {
    && (s.faulted ==> s.pc.Idle?)
    && (!s.pc.Idle? ==> |s.submitted| > 0 && s.req == s.submitted[|s.submitted| - 1])
    && match s.pc
       case Idle => s.faulted || |s.posted| == s.consumed == |s.submitted|
       case FillData => |s.posted| == s.consumed == |s.submitted| - 1
       case FillStatus => |s.posted| == s.consumed == |s.submitted| - 1 && s.page.data == s.req.data
       case WriteHeader => |s.posted| == s.consumed == |s.submitted| - 1 && Loaded(s)
       case WriteDesc(i) => |s.posted| == s.consumed == |s.submitted| - 1 && Staged(c, s, s.req, i) && Loaded(s)
       case FillSlot => |s.posted| == s.consumed == |s.submitted| - 1 && Staged(c, s, s.req, 3) && Loaded(s)
       case Publish =>
         |s.posted| == s.consumed == |s.submitted| - 1 && Staged(c, s, s.req, 3) && Loaded(s) && s.availRing[Slot(c.qsize, |s.posted|)] == 0
       case Poll(_) => |s.posted| == s.consumed + 1 == |s.submitted|
       case ReadStatus => |s.posted| == s.consumed == |s.submitted|
       case CopyOut => |s.posted| == s.consumed == |s.submitted| && !s.req.write && s.page.status == S_OK
  }

  /** While a post is not consumed, the shared memory holds it unchanged; once it is completed, and
      until the buffer is next filled, the buffer holds what it was completed with. */
  ghost predicate Kept(c: Config, s: State)
    requires c.Valid() && |s.availRing| == |s.usedRing| == c.qsize
    requires |s.posted| <= |s.submitted| && forall k :: 0 <= k < |s.submitted| ==> s.submitted[k].Valid()
    requires s.posted == s.submitted[..|s.posted|]
  {
    && (s.consumed < |s.posted| ==>
          && Staged(c, s, s.posted[|s.posted| - 1], 3)
          && (|s.taken| < |s.posted| ==> s.availRing[Slot(c.qsize, |s.taken|)] == 0))
    && (s.consumed < |s.completed| ==>
          && s.usedRing[Slot(c.qsize, s.consumed)].id == 0
          && BufferHolds(s, s.completed[|s.completed| - 1]))
    && (s.pc.ReadStatus? || s.pc.CopyOut? ==> 0 < |s.completed| && BufferHolds(s, s.completed[|s.completed| - 1]))
  }

  predicate BufferHolds(s: State, r: Reply) {
    s.page.status == r.status && s.page.data == r.data
  }

  /** How many requests have been answered with what the device completed them with. */
  function Answered(s: State): (n: int) {
    if s.pc.ReadStatus? || s.pc.CopyOut? then s.consumed - 1 else s.consumed
  }

  /** The answers given so far: the i-th is that of the i-th completion, up to a timeout; from then on
      every answer is "no status". */
  ghost predicate AnswersMatch(s: State) {
    && |s.results| == |s.submitted| - (if s.pc.Idle? then 0 else 1)
    && 0 <= Answered(s) <= |s.results| && Answered(s) <= |s.completed|
    && (forall i :: 0 <= i < Answered(s) ==> s.results[i] == OutcomeOf(s.submitted[i], s.completed[i]))
    && (forall i :: Answered(s) <= i < |s.results| ==> s.results[i] == NoStatus)
    && (Answered(s) < |s.results| ==> s.faulted)
    && (s.faulted ==> |s.posted| == s.consumed + 1)
  }

  ghost predicate Inv(c: Config, s: State) {
    Sized(c, s) && Counted(c, s) && Ordered(c, s) && Placed(c, s) && Kept(c, s) && AnswersMatch(s)
  }

  // ----- every step keeps it

  lemma InitInv(c: Config, s: State)
    requires Init(c, s)
    ensures Inv(c, s)
  {
  }

  /** Nothing in the rings, the buffer or the log of posts changed. */
  predicate RingsSame(s: State, t: State) {
    && t.desc == s.desc && t.availRing == s.availRing && t.availIdx == s.availIdx && t.usedRing == s.usedRing
    && t.usedIdx == s.usedIdx && t.page == s.page && t.lastUsedSeen == s.lastUsedSeen
    && t.lastAvailSeen == s.lastAvailSeen && t.held == s.held && t.posted == s.posted && t.slots == s.slots
    && t.taken == s.taken && t.completed == s.completed && t.consumed == s.consumed
  }

  lemma RingsSameInv(c: Config, s: State, t: State)
    requires Inv(c, s) && RingsSame(s, t) && (t.submitted == s.submitted || exists r: Request :: r.Valid() && t.submitted == s.submitted + [r])
    requires t.pc.ReadStatus? || t.pc.CopyOut? ==> s.pc.ReadStatus? || s.pc.CopyOut?
    ensures Counted(c, t) && Ordered(c, t) && Kept(c, t)
  {
    hide Header, ChainFor, Wrap, Next, Slot, ValidateQueueSize, Table, Placed, AnswersMatch;
  }

  lemma SubmitInv(c: Config, s: State, r: Request)
    requires Inv(c, s) && Enabled(c, s, Submit(r))
    ensures Inv(c, Apply(c, s, Submit(r)))
  {
    hide Header, ChainFor, Wrap, Next, Slot, ValidateQueueSize, Counted, Kept, Staged;
    RingsSameInv(c, s, Apply(c, s, Submit(r)));
  }

  lemma FillInv(c: Config, s: State)
    requires Inv(c, s) && (s.pc.FillData? || s.pc.FillStatus? || s.pc.WriteHeader?)
    ensures Inv(c, Driven(c, s))
  {
    hide Header, ChainFor, Wrap, Next, Slot, ValidateQueueSize;
  }

  lemma DescInv(c: Config, s: State)
    requires Inv(c, s) && s.pc.WriteDesc?
    ensures Inv(c, Driven(c, s))
  {
    hide Header, Wrap, Next, Slot, ValidateQueueSize, DescOf;
    QueueSizeWraps(c.qsize, 0);
  }

  lemma PublishInv(c: Config, s: State)
    requires Inv(c, s) && (s.pc.FillSlot? || s.pc.Publish?)
    ensures Inv(c, Driven(c, s))
  {
    hide Header, ChainFor, Wrap, Next, Slot, ValidateQueueSize, Table;
    WrapNext(c.qsize, |s.posted|);
  }

  /** A completion the driver polls is that of the request it posted. */
  lemma PollHit(c: Config, s: State)
    requires Inv(c, s) && s.pc.Poll? && s.usedIdx != s.lastUsedSeen
    ensures s.consumed + 1 == |s.completed| == |s.posted|
    ensures s.usedRing[Slot(c.qsize, s.lastUsedSeen)].id == 0
  {
    hide Header, ChainFor, Wrap, Next, Slot, ValidateQueueSize, Table, Ordered, AnswersMatch, Staged;
    WrapNext(c.qsize, s.consumed);
  }

  lemma PollHitInv(c: Config, s: State)
    requires Inv(c, s) && s.pc.Poll? && s.usedIdx != s.lastUsedSeen
    ensures Inv(c, Driven(c, s))
  {
    hide Header, ChainFor, Wrap, Next, Slot, ValidateQueueSize, Table, Staged;
    PollHit(c, s);
    WrapNext(c.qsize, s.consumed);
  }

  lemma PollMissInv(c: Config, s: State)
    requires Inv(c, s) && s.pc.Poll? && s.usedIdx == s.lastUsedSeen
    ensures Inv(c, Driven(c, s))
  {
    hide Header, ChainFor, Wrap, Next, Slot, ValidateQueueSize, Counted, Kept, Staged;
    RingsSameInv(c, s, Driven(c, s));
  }

  lemma AnswerInv(c: Config, s: State)
    requires Inv(c, s) && (s.pc.ReadStatus? || s.pc.CopyOut?)
    ensures Inv(c, Driven(c, s))
  {
    hide Header, ChainFor, Wrap, Next, Slot, ValidateQueueSize, Staged;
    RingsSameInv(c, s, Driven(c, s));
  }

  /** What the device finds in the available ring is the chain of the request just posted. */
  lemma TakesWhatWasPosted(c: Config, s: State)
    requires Inv(c, s) && s.lastAvailSeen != s.availIdx
    ensures c.Valid() && |s.taken| + 1 == |s.posted|
    ensures ReadChain(s.desc, s.availRing[Slot(c.qsize, s.lastAvailSeen)], c.qsize) == Some(ChainFor(c, s.posted[|s.taken|]))
  {
    hide Header, Wrap, Next, Slot, ValidateQueueSize;
    WrapNext(c.qsize, |s.taken|);
    var parts := ChainFor(c, s.posted[|s.taken|]);
    ReadChainPosted(s.desc, parts, 0, c.qsize);
    assert parts[0..] == parts;
  }

  lemma TakeInv(c: Config, s: State)
    requires Inv(c, s) && Enabled(c, s, Take)
    ensures Inv(c, Apply(c, s, Take))
  {
    hide Header, ChainFor, Wrap, Next, Slot, ValidateQueueSize, Table, ReadChain;
    WrapNext(c.qsize, |s.taken|);
    TakesWhatWasPosted(c, s);
  }

  lemma DmaInv(c: Config, s: State, k: nat, addr: nat, value: Byte)
    requires Inv(c, s) && Enabled(c, s, Dma(k, addr, value))
    ensures Inv(c, Apply(c, s, Dma(k, addr, value)))
  {
    hide Header, Wrap, Next, Slot, ValidateQueueSize, Table;
  }

  lemma CompleteInv(c: Config, s: State, k: nat, len: nat)
    requires Inv(c, s) && Enabled(c, s, Complete(k, len))
    ensures Inv(c, Apply(c, s, Complete(k, len)))
  {
    hide Header, ChainFor, Wrap, Next, Slot, ValidateQueueSize, Table;
    WrapNext(c.qsize, |s.completed|);
  }

  lemma StepInv(c: Config, s: State, step: Step, t: State)
    requires Inv(c, s) && Moves(c, s, step, t)
    ensures Inv(c, t)
  {
    hide Counted, Ordered, Placed, Kept, AnswersMatch, Sized, Enabled, Driven;
    match step
    case Submit(r) => SubmitInv(c, s, r);
    case Drive =>
      EnabledDrive(c, s);
      match s.pc {
        case FillData => FillInv(c, s);
        case FillStatus => FillInv(c, s);
        case WriteHeader => FillInv(c, s);
        case WriteDesc(_) => DescInv(c, s);
        case FillSlot => PublishInv(c, s);
        case Publish => PublishInv(c, s);
        case Poll(_) => if s.usedIdx == s.lastUsedSeen { PollMissInv(c, s); } else { PollHitInv(c, s); }
        case ReadStatus => AnswerInv(c, s);
        case CopyOut => AnswerInv(c, s);
      }
    case Take => TakeInv(c, s);
    case Dma(k, addr, value) => DmaInv(c, s, k, addr, value);
    case Complete(k, len) => CompleteInv(c, s, k, len);
  }

  lemma EnabledDrive(c: Config, s: State)
    requires Sized(c, s) && Enabled(c, s, Drive)
    ensures !s.pc.Idle?
  {
  }

  /** The invariant holds in every state of every run. */
  lemma {:induction false} RunInv(c: Config, states: seq<State>, steps: seq<Step>, i: nat)
    requires Run(c, states, steps) && i <= |steps|
    ensures Inv(c, states[i])
  {
    hide Inv, Moves, Init;
    if i == 0 {
      InitInv(c, states[0]);
    } else {
      RunInv(c, states, steps, i - 1);
      StepInv(c, states[i - 1], steps[i - 1], states[i]);
    }
  }

  // ----- what holds in every run

  function Outstanding(s: State): (n: int) {
    |s.posted| - |s.completed|
  }

  /** Never more than one chain is with the device, and posts go through the slots one after the
      other however often the 16-bit index has wrapped. */
  lemma OneOutstanding(c: Config, states: seq<State>, steps: seq<Step>, i: nat)
    requires Run(c, states, steps) && i <= |steps|
    ensures 0 <= Outstanding(states[i]) <= 1
    ensures states[i].held <= {|states[i].completed|}
    ensures 0 < c.qsize && |states[i].slots| == |states[i].posted|
    ensures forall k :: 0 <= k < |states[i].posted| ==> states[i].slots[k] == k % c.qsize
  {
    RunInv(c, states, steps, i);
  }

  /** A driver step that changes the buffer or the descriptors, or reads the buffer. */
  predicate Touches(s: State, t: State) {
    t.page != s.page || t.desc != s.desc || s.pc.ReadStatus? || s.pc.CopyOut?
  }

  /** The driver touches the buffer and the descriptors only while the device has nothing. */
  lemma DriverTouchesAlone(c: Config, states: seq<State>, steps: seq<Step>, i: nat)
    requires Run(c, states, steps) && i < |steps| && (steps[i].Submit? || steps[i].Drive?)
    requires Touches(states[i], states[i + 1])
    ensures Outstanding(states[i]) == 0 && states[i].held == {}
  {
    hide Header, ChainFor, Wrap, Next, Slot, ValidateQueueSize, Table;
    RunInv(c, states, steps, i);
    assert Moves(c, states[i], steps[i], states[i + 1]);
  }

  /** For as long as the device holds a request it sees that request: the parts it holds, the header
      and, for a write, the data are those submitted. */
  lemma DeviceSeesRequest(c: Config, states: seq<State>, steps: seq<Step>, i: nat, k: nat)
    requires Run(c, states, steps) && i <= |steps| && k in states[i].held
    ensures k < |states[i].submitted| && k < |states[i].taken| && states[i].submitted[k].Valid()
    ensures var s, r := states[i], states[i].submitted[k];
      && s.taken[k] == ChainFor(c, r)
      && s.page.header == Header(r)
      && (r.write ==> s.page.data == r.data)
  {
    hide Header, ChainFor, Wrap, Next, Slot, ValidateQueueSize, Table;
    RunInv(c, states, steps, i);
  }

  /** The 16 bytes of a request's header: type 0 for a read and 1 for a write, four zero bytes, the sector. */
  lemma HeaderDecodes(r: Request)
    requires r.Valid()
    ensures Header(r)[0] == (if r.write then 1 else 0) && forall i :: 1 <= i < 8 ==> Header(r)[i] == 0
    ensures U64(Header(r)[8..16]) == r.sector
  {
    assert Header(r)[8..16] == Le64(r.sector);
    assert Header(r)[..4] == Le32(if r.write then T_OUT else T_IN) && Header(r)[4..8] == Le32(0);
    assert forall i :: 0 <= i < 4 ==> Header(r)[i] == Header(r)[..4][i] && Header(r)[4 + i] == Header(r)[4..8][i];
  }

  /** When a request is published, the status byte is 0xFF and the data is the request's, zeros for a read. */
  lemma Preloaded(c: Config, states: seq<State>, steps: seq<Step>, i: nat)
    requires Run(c, states, steps) && i <= |steps| && states[i].pc.Publish?
    ensures states[i].page.status == 0xFF && states[i].page.data == states[i].req.data
    ensures !states[i].req.write ==> forall n :: 0 <= n < 512 ==> states[i].page.data[n] == 0
  {
    RunInv(c, states, steps, i);
  }

  /** From then until the next request, the status byte changes only where the device writes it: a completion without a
      status reads as 0xFF. */
  lemma {:induction false} StatusStays(c: Config, states: seq<State>, steps: seq<Step>, i: nat, j: nat)
    requires Run(c, states, steps) && i <= j <= |steps| && states[i].pc.Publish?
    requires forall k :: i <= k < j ==> !steps[k].Submit? && (steps[k].Dma? ==> steps[k].addr != c.base + 528)
    ensures states[j].page.status == 0xFF && !states[j].pc.FillData? && !states[j].pc.FillStatus? && !states[j].pc.WriteHeader?
    decreases j
  {
    hide Inv, Moves, Init;
    if i == j {
      Preloaded(c, states, steps, i);
    } else {
      StatusStays(c, states, steps, i, j - 1);
      StatusKept(c, states[j - 1], steps[j - 1], states[j]);
    }
  }

  lemma StatusKept(c: Config, s: State, step: Step, t: State)
    requires Moves(c, s, step, t) && !step.Submit? && (step.Dma? ==> step.addr != c.base + 528)
    requires !s.pc.FillData? && !s.pc.FillStatus? && !s.pc.WriteHeader?
    ensures t.page.status == s.page.status && !t.pc.FillData? && !t.pc.FillStatus? && !t.pc.WriteHeader?
  {
    hide Header, ChainFor, Slot, ReadChain, DescOf;
  }

  /** The i-th request is answered with the i-th completion, which is the device's completion of that
      very request; from the first timeout on every request is answered "no status". */
  lemma AnswersBelong(c: Config, states: seq<State>, steps: seq<Step>, i: nat, k: nat)
    requires Run(c, states, steps) && i <= |steps| && k < |states[i].results|
    ensures var s := states[i];
      || (s.results[k] == NoStatus && s.faulted)
      || (&& k < |s.completed| && s.completed[k].request == k
          && k < |s.posted| && k < |s.submitted| && s.posted[k] == s.submitted[k]
          && s.results[k] == OutcomeOf(s.submitted[k], s.completed[k]))
  {
    hide Header, ChainFor, Wrap, Next, Slot, ValidateQueueSize, Table, Staged;
    RunInv(c, states, steps, i);
  }

  /** What quarantine freezes. */
  predicate Frozen(s: State, t: State) {
    && s.faulted && t.faulted
    && t.posted == s.posted && t.availIdx == s.availIdx && t.availRing == s.availRing && t.desc == s.desc
    && t.consumed == s.consumed && |s.results| <= |t.results|
    && (forall k :: |s.results| <= k < |t.results| ==> t.results[k] == NoStatus)
    && (forall k :: 0 <= k < |s.results| ==> t.results[k] == s.results[k])
  }

  lemma FrozenStep(c: Config, s: State, step: Step, t: State)
    requires Inv(c, s) && s.faulted && Moves(c, s, step, t)
    ensures Frozen(s, t) && (step.Submit? ==> t.page == s.page && |t.results| == |s.results| + 1)
    ensures !step.Drive?
  {
    hide Header, ChainFor, Wrap, Next, Slot, ValidateQueueSize, Table, Ordered, Kept, Counted;
  }

  /** After one timeout nothing is ever posted again, the driver never touches the rings, the
      descriptors or the buffer again, and every further request is answered "no status". */
  lemma {:induction false} QuarantineForever(c: Config, states: seq<State>, steps: seq<Step>, i: nat, j: nat)
    requires Run(c, states, steps) && i <= j <= |steps| && states[i].faulted
    ensures Frozen(states[i], states[j])
    ensures forall k :: i <= k < j && steps[k].Submit? ==>
      states[k + 1].page == states[k].page && |states[k + 1].results| == |states[k].results| + 1
    decreases j
  {
    hide Inv, Moves, Init;
    if i < j {
      QuarantineForever(c, states, steps, i, j - 1);
      RunInv(c, states, steps, j - 1);
      FrozenStep(c, states[j - 1], steps[j - 1], states[j]);
    }
  }

  /** How many driver steps a request may still take. */
  function Rank(pc: Pc): (n: int) {
    match pc
    case Idle => 0
    case FillData => POLL_BUDGET + 10
    case FillStatus => POLL_BUDGET + 9
    case WriteHeader => POLL_BUDGET + 8
    case WriteDesc(i) => POLL_BUDGET + 7 - i
    case FillSlot => POLL_BUDGET + 4
    case Publish => POLL_BUDGET + 3
    case Poll(tries) => POLL_BUDGET + 2 - tries
    case ReadStatus => 2
    case CopyOut => 1
  }

  function Drives(steps: seq<Step>): (n: nat) {
    if steps == [] then 0 else Drives(steps[..|steps| - 1]) + if steps[|steps| - 1].Drive? then 1 else 0
  }

  lemma RankStep(c: Config, s: State, step: Step, t: State)
    requires Moves(c, s, step, t) && Sized(c, t) && !step.Submit?
    ensures 0 <= Rank(t.pc) <= Rank(s.pc) - if step.Drive? then 1 else 0
  {
    hide Header, ChainFor, Slot, ValidateQueueSize, DescOf, Poke, ReadChain;
  }

  /** Whatever the device does or fails to do, a request is answered after boundedly many driver
      steps: no more of them fit between a submission and the next than the poll budget and ten. */
  lemma {:induction false} RequestEnds(c: Config, states: seq<State>, steps: seq<Step>, i: nat, j: nat)
    requires Run(c, states, steps) && i <= j <= |steps|
    requires forall k :: i <= k < j ==> !steps[k].Submit?
    ensures 0 <= Rank(states[j].pc) && Drives(steps[i..j]) + Rank(states[j].pc) <= Rank(states[i].pc) <= 100_000_010
    decreases j
  {
    hide Moves, Init, Sized, Counted, Ordered, Placed, Kept, AnswersMatch, Rank;
    RunInv(c, states, steps, i);
    RunInv(c, states, steps, j);
    RankBounds(c, states[i]);
    if i < j {
      RequestEnds(c, states, steps, i, j - 1);
      RankStep(c, states[j - 1], steps[j - 1], states[j]);
      assert steps[i..j][..j - i - 1] == steps[i..j - 1];
    }
  }

  lemma RankBounds(c: Config, s: State)
    requires Sized(c, s)
    ensures 0 <= Rank(s.pc) <= POLL_BUDGET + 10
  {
  }

  /** The five steps that post a request do to the rings what posting its chain does: the three
      descriptors, the one slot and the index, and nothing else. */
  lemma PostingSteps(c: Config, s: State)
    requires Sized(c, s) && s.pc == WriteDesc(0)
    ensures 3 <= c.qsize
    ensures var t := Driven(c, Driven(c, Driven(c, Driven(c, Driven(c, s)))));
      && t.pc == Poll(0)
      && t.availIdx == (s.availIdx + 1) % U16_LIMIT
      && t.availRing == s.availRing[s.availIdx % c.qsize := 0]
      && t.desc[0] == Desc(c.base, 16, 1, 1) && t.desc[1] == Desc(c.base + 16, 512, if s.req.write then 1 else 3, 2)
      && t.desc[2] == Desc(c.base + 528, 1, 2, 0)
      && Table(t.desc, ChainFor(c, s.req), 3) && t.desc[3..] == s.desc[3..]
      && t.page == s.page && t.usedRing == s.usedRing && t.usedIdx == s.usedIdx
  {
    hide Header, ValidateQueueSize;
    QueueSizeWraps(c.qsize, 0);
    var s1 := Driven(c, s);
    var s2 := Driven(c, s1);
    var s3 := Driven(c, s2);
    assert s3.desc[3..] == s.desc[3..];
  }
}
