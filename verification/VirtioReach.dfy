/** What the protocol allows: which bytes of the buffer the device may write while it holds a request, and that every
    answer a device could give does come back from some run. */
module VirtioReach {
  import opened Bytes
  import opened VirtioRing
  import opened VirtioProtocol

  // ----- what the device may write

  lemma CoversIff(c: Config, r: Request, n: nat)
    ensures Covers(ChainFor(c, r), c.base + n) <==> n == 528 || (!r.write && 16 <= n < 528)
  {
    var parts := ChainFor(c, r);
    if n == 528 { assert parts[2].writable; }
    if !r.write && 16 <= n < 528 { assert parts[1].writable; }
  }

  /** While it holds a read, the device may write each of the 512 data bytes and the status byte; while it holds a
      write, the status byte alone; and never the header or anything outside the buffer's first 529 bytes. */
  lemma DeviceMayWrite(c: Config, states: seq<State>, steps: seq<Step>, i: nat, k: nat, addr: nat, value: Byte)
    requires Run(c, states, steps) && i <= |steps| && k in states[i].held
    ensures k < |states[i].submitted| && Sized(c, states[i])
    ensures k < |states[i].taken|
    ensures c.base <= addr ==>
      (Covers(states[i].taken[k], addr) <==> addr == c.base + 528 || (!states[i].submitted[k].write && c.base + 16 <= addr < c.base + 528))
    ensures Enabled(c, states[i], Dma(k, addr, value)) <==>
      addr == c.base + 528 || (!states[i].submitted[k].write && c.base + 16 <= addr < c.base + 528)
  {
    hide ChainFor, Header;
    RunInv(c, states, steps, i);
    DeviceSeesRequest(c, states, steps, i, k);
    if c.base <= addr { CoversIff(c, states[i].submitted[k], addr - c.base); }
  }

  // ----- runs, step by step

  /** A run with one more step. */
  lemma Extend(c: Config, states: seq<State>, steps: seq<Step>, step: Step) returns (ss: seq<State>, ts: seq<Step>)
    requires Run(c, states, steps) && Sized(c, states[|steps|]) && Enabled(c, states[|steps|], step)
    ensures Run(c, ss, ts) && ts == steps + [step] && ss == states + [Apply(c, states[|steps|], step)]
  {
    hide Enabled, Sized, Init;
    var t := Apply(c, states[|steps|], step);
    ss, ts := states + [t], steps + [step];
    forall i | 0 <= i < |ts| ensures Moves(c, ss[i], ts[i], ss[i + 1]) {
      if i < |steps| { assert Moves(c, states[i], steps[i], states[i + 1]); }
    }
  }

  /** The driver is between requests and has not given up on the device. */
  predicate Ready(s: State) {
    s.pc.Idle? && !s.faulted
  }

  lemma Sizes(c: Config, states: seq<State>, steps: seq<Step>)
    requires Run(c, states, steps)
    ensures Inv(c, states[|steps|]) && Sized(c, states[|steps|]) && ValidateQueueSize(c.qsize).Some?
  {
    RunInv(c, states, steps, |steps|);
  }

  /** One more driver step. */
  lemma DriveOn(c: Config, states: seq<State>, steps: seq<Step>) returns (ss: seq<State>, ts: seq<Step>)
    requires Run(c, states, steps) && !states[|steps|].pc.Idle?
    ensures Run(c, ss, ts) && |steps| < |ts| && Sized(c, states[|steps|]) && ss[|ts|] == Driven(c, states[|steps|])
  {
    hide Inv, Sized, Driven;
    Sizes(c, states, steps);
    ss, ts := Extend(c, states, steps, Drive);
  }

  /** What the steps that prepare a request leave alone. */
  predicate Preparing(s: State, t: State) {
    && t.req == s.req && !t.faulted && t.submitted == s.submitted && t.results == s.results && t.posted == s.posted
    && t.taken == s.taken && t.completed == s.completed && t.consumed == s.consumed
  }

  lemma Prepared(c: Config, s: State, pc: Pc)
    requires Sized(c, s) && !s.faulted && s.pc == pc
    requires pc.FillData? || pc.FillStatus? || pc.WriteHeader? || pc.WriteDesc? || pc.FillSlot?
    ensures var t := Driven(c, s);
      && Preparing(s, t)
      && t.pc == match pc
         case FillData => FillStatus
         case FillStatus => WriteHeader
         case WriteHeader => WriteDesc(0)
         case WriteDesc(i) => if i < 2 then WriteDesc(i + 1) else FillSlot
         case _ => Publish
  {
    hide Header, ChainFor, Slot, DescOf;
  }

  /** A request posted and not yet taken: nothing before it is outstanding. */
  ghost predicate JustPosted(s: State, r: Request, before: State) {
    && s.pc == Poll(0) && s.req == r && !s.faulted && s.submitted == before.submitted + [r] && s.results == before.results
    && |s.posted| == |s.taken| + 1 && |s.completed| == |s.taken| == s.consumed
  }

  lemma Idles(c: Config, s: State)
    requires Inv(c, s) && Ready(s)
    ensures |s.posted| == s.consumed == |s.completed| == |s.taken| == |s.submitted|
  {
    hide Ordered, Kept, AnswersMatch, Sized;
  }

  /** Submitting a request and driving it up to the poll. */
  lemma Post(c: Config, states: seq<State>, steps: seq<Step>, r: Request) returns (ss: seq<State>, ts: seq<Step>)
    requires Run(c, states, steps) && Ready(states[|steps|]) && r.Valid()
    ensures Run(c, ss, ts) && |steps| < |ts| && JustPosted(ss[|ts|], r, states[|steps|])
  {
    hide Run, Inv, Sized, Driven, JustPosted, Slot, Request.Valid;
    Sizes(c, states, steps);
    Idles(c, states[|steps|]);
    SubmitEnabled(c, states[|steps|], r);
    ss, ts := Extend(c, states, steps, Submit(r));
    var s := ss[|ts|];
    var pc := FillData;
    while !pc.Publish?
      invariant Run(c, ss, ts) && |steps| < |ts| && |ss| == |ts| + 1 && Preparing(s, ss[|ts|]) && ss[|ts|].pc == pc
      invariant !pc.Idle? && !pc.Poll? && !pc.ReadStatus? && !pc.CopyOut? && (pc.WriteDesc? ==> pc.i < 3)
      decreases Before(pc)
    {
      Sizes(c, ss, ts);
      Prepared(c, ss[|ts|], pc);
      ss, ts := DriveOn(c, ss, ts);
      pc := ss[|ts|].pc;
    }
    Sizes(c, ss, ts);
    Published(c, ss[|ts|], states[|steps|], r);
    ss, ts := DriveOn(c, ss, ts);
  }

  function Before(pc: Pc): (n: nat) {
    match pc
    case FillData => 7
    case FillStatus => 6
    case WriteHeader => 5
    case WriteDesc(i) => if i < 3 then 4 - i else 0
    case FillSlot => 1
    case _ => 0
  }

  lemma SubmitEnabled(c: Config, s: State, r: Request)
    requires Sized(c, s) && Ready(s) && r.Valid()
    ensures Enabled(c, s, Submit(r))
    ensures var t := Apply(c, s, Submit(r));
      && t.pc.FillData? && t.req == r && !t.faulted && t.submitted == s.submitted + [r] && t.results == s.results && t.posted == s.posted
      && t.taken == s.taken && t.completed == s.completed && t.consumed == s.consumed
  {
    hide Sized;
  }

  lemma Published(c: Config, s: State, before: State, r: Request)
    requires Sized(c, s) && s.pc.Publish? && s.req == r && !s.faulted && s.submitted == before.submitted + [r] && s.results == before.results
    requires |s.posted| == |s.taken| == |s.completed| == s.consumed
    ensures JustPosted(Driven(c, s), r, before)
  {
    hide Sized, Slot, Request.Valid;
  }

  // ----- the device's part

  /** The device holds the request and the driver polls. */
  ghost predicate Holding(s: State, r: Request, before: State) {
    && s.pc == Poll(0) && s.req == r && !s.faulted && s.submitted == before.submitted + [r] && s.results == before.results
    && s.held == {|s.completed|} && |s.completed| == s.consumed && |s.taken| == |s.completed| + 1 && |s.submitted| == |s.taken|
  }

  lemma TakeIt(c: Config, states: seq<State>, steps: seq<Step>, r: Request, before: State) returns (ss: seq<State>, ts: seq<Step>)
    requires Run(c, states, steps) && JustPosted(states[|steps|], r, before)
    ensures Run(c, ss, ts) && |steps| < |ts| && Holding(ss[|ts|], r, before)
  {
    hide Run, Init, ChainFor, Header, Wrap, Next, Slot, ValidateQueueSize, Table, ReadChain, Kept, AnswersMatch, Staged, Sized;
    var s := states[|steps|];
    Sizes(c, states, steps);
    WrapNext(c.qsize, |s.taken|);
    TakesWhatWasPosted(c, s);
    ss, ts := Extend(c, states, steps, Take);
    Sizes(c, ss, ts);
  }

  /** One byte written by the device. */
  lemma Write(c: Config, states: seq<State>, steps: seq<Step>, r: Request, before: State, n: nat, b: Byte)
    returns (ss: seq<State>, ts: seq<Step>)
    requires Run(c, states, steps) && Holding(states[|steps|], r, before) && (n == 528 || (!r.write && 16 <= n < 528))
    ensures Run(c, ss, ts) && |steps| < |ts| && Holding(ss[|ts|], r, before)
    ensures ss[|ts|].page == Poke(states[|steps|].page, n, b)
  {
    hide Run, Init, Sized, Inv, Enabled, Poke;
    var s := states[|steps|];
    var k := |s.completed|;
    DeviceMayWrite(c, states, steps, |steps|, k, c.base + n, b);
    ss, ts := Extend(c, states, steps, Dma(k, c.base + n, b));
  }

  /** The data of a read, byte by byte. */
  lemma {:induction false} WriteData(c: Config, states: seq<State>, steps: seq<Step>, r: Request, before: State, x: Sector, n: nat)
    returns (ss: seq<State>, ts: seq<Step>)
    requires Run(c, states, steps) && Holding(states[|steps|], r, before) && !r.write && n <= 512
    ensures Run(c, ss, ts) && |steps| <= |ts| && Holding(ss[|ts|], r, before)
    ensures forall i :: 0 <= i < n ==> ss[|ts|].page.data[i] == x[i]
  {
    hide Run, Holding;
    if n == 0 {
      ss, ts := states, steps;
    } else {
      ss, ts := WriteData(c, states, steps, r, before, x, n - 1);
      var page := ss[|ts|].page;
      var length := |ts|;
      Sizes(c, ss, ts);
      ss, ts := Write(c, ss, ts, r, before, 16 + (n - 1), x[n - 1]);
      PokeData(page, n - 1, x[n - 1]);
    }
  }

  lemma PokeData(p: Page, i: nat, b: Byte)
    requires i < 512
    ensures Poke(p, 16 + i, b).data == p.data[i := b] && Poke(p, 16 + i, b).status == p.status
    ensures Poke(p, 528, b).data == p.data && Poke(p, 528, b).status == b
  {
  }

  /** The device completes the request, and the driver finds that out. */
  lemma Finish(c: Config, states: seq<State>, steps: seq<Step>, r: Request, before: State) returns (ss: seq<State>, ts: seq<Step>)
    requires Run(c, states, steps) && Holding(states[|steps|], r, before)
    ensures Run(c, ss, ts) && |steps| < |ts| && Ready(ss[|ts|])
    ensures ss[|ts|].submitted == before.submitted + [r]
    ensures var p := states[|steps|].page;
      ss[|ts|].results == before.results + [if !r.write && p.status == 0 then Data(p.data) else Status(p.status)]
  {
    hide Run, Init, Sized, Inv, Driven, Enabled, Apply;
    var s := states[|steps|];
    Sizes(c, states, steps);
    Completes(c, s, r, before);
    ss, ts := Extend(c, states, steps, Complete(|s.completed|, 0));
    Polled(c, ss[|ts|]);
    ss, ts := DriveOn(c, ss, ts);
    var t := ss[|ts|];
    Answers(c, t);
    ss, ts := DriveOn(c, ss, ts);
    if !r.write && t.page.status == 0 {
      Copies(c, ss[|ts|]);
      ss, ts := DriveOn(c, ss, ts);
    }
  }

  lemma Completes(c: Config, s: State, r: Request, before: State)
    requires Inv(c, s) && Sized(c, s) && Holding(s, r, before)
    ensures Enabled(c, s, Complete(|s.completed|, 0))
    ensures var t := Apply(c, s, Complete(|s.completed|, 0));
      && t.pc == Poll(0) && t.usedIdx != t.lastUsedSeen && t.page == s.page && t.req == s.req && !t.faulted
      && t.results == s.results && t.submitted == s.submitted
  {
    hide Ordered, Placed, Kept, AnswersMatch, Slot;
    WrapNext(c.qsize, |s.completed|);
  }

  lemma Polled(c: Config, s: State)
    requires s.pc == Poll(0) && s.usedIdx != s.lastUsedSeen
    ensures Sized(c, s) ==>
      var t := Driven(c, s);
      t.pc.ReadStatus? && t.page == s.page && t.req == s.req && t.faulted == s.faulted && t.results == s.results && t.submitted == s.submitted
  {
    hide Sized;
  }

  lemma Answers(c: Config, s: State)
    requires s.pc.ReadStatus?
    ensures Sized(c, s) ==>
      var t := Driven(c, s);
      && t.faulted == s.faulted && t.submitted == s.submitted && t.page == s.page
      && if !s.req.write && s.page.status == 0 then t.pc.CopyOut? && t.results == s.results
         else t.pc.Idle? && t.results == s.results + [Status(s.page.status)]
  {
    hide Sized;
  }

  lemma Copies(c: Config, s: State)
    requires s.pc.CopyOut?
    ensures Sized(c, s) ==>
      var t := Driven(c, s);
      t.pc.Idle? && t.faulted == s.faulted && t.submitted == s.submitted && t.results == s.results + [Data(s.page.data)]
  {
    hide Sized;
  }

  // ----- every answer is possible

  /** Any run in which the driver is between requests and the device is not quarantined goes on to answer a read with
      any sector, and any request with any status byte, zero for a read apart. */
  lemma AnyAnswer(c: Config, states: seq<State>, steps: seq<Step>, r: Request, x: Sector, status: Byte)
    returns (ss: seq<State>, ts: seq<Step>)
    requires Run(c, states, steps) && Ready(states[|steps|]) && r.Valid()
    ensures Run(c, ss, ts) && |steps| < |ts| && Ready(ss[|ts|])
    ensures ss[|ts|].submitted == states[|steps|].submitted + [r]
    ensures ss[|ts|].results == states[|steps|].results + [if !r.write && status == 0 then Data(x) else Status(status)]
  {
    hide Run, Ready, Request.Valid, JustPosted, Holding, Poke;
    var before := states[|steps|];
    ss, ts := Post(c, states, steps, r);
    ss, ts := TakeIt(c, ss, ts, r, before);
    if !r.write {
      ss, ts := WriteData(c, ss, ts, r, before, x, 512);
      assert ss[|ts|].page.data == x;
    }
    var page := ss[|ts|].page;
    ss, ts := Write(c, ss, ts, r, before, 528, status);
    PokeData(page, 0, status);
    ss, ts := Finish(c, ss, ts, r, before);
  }

  /** Runs exist for every valid configuration. */
  lemma FirstRun(c: Config) returns (states: seq<State>)
    requires c.Valid()
    ensures Run(c, states, []) && Ready(states[0]) && states[0].results == [] && states[0].submitted == []
  {
    hide ValidateQueueSize;
    var page := Page(seq(16, i => 0), ZeroSector(), 0);
    var s := State(seq(c.qsize, i => Desc(0, 0, 0, 0)), seq(c.qsize, i => 0), 0, seq(c.qsize, i => UsedElem(0, 0)), 0, page,
                   Idle, Request(false, 0, ZeroSector()), 0, false, 0, {}, [], [], [], [], [], [], 0);
    states := [s];
  }

  /** For every sector number and every sector there is a run that answers a read with it. */
  lemma ReadBrings(c: Config, sector: nat, x: Sector) returns (states: seq<State>, steps: seq<Step>)
    requires c.Valid() && sector < U64_LIMIT
    ensures Run(c, states, steps) && states[|steps|].submitted == [Request(false, sector, ZeroSector())] && states[|steps|].results == [Data(x)]
  {
    hide Run, Ready;
    states := FirstRun(c);
    states, steps := AnyAnswer(c, states, [], Request(false, sector, ZeroSector()), x, 0);
  }
}
