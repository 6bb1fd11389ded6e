/** What the filesystem service answers, and what it can answer once the device is quarantined. */
module FsServer {
  import opened Bytes
  import FsCodec
  import opened VirtioProtocol

  /** Answers a read. `found` says whether the name was found and is a directory; the three flags are
      whether the device was quarantined on entry, after the lookup and after the read. */
  function HandleRead(authorized: bool, onEntry: bool, found: Option<bool>, afterLookup: bool, bytes: seq<Byte>, afterRead: bool):
    (r: FsCodec.Response)
  {
    if !authorized then FsCodec.Failed(FsCodec.Unauthorized)
    else if onEntry then FsCodec.Failed(FsCodec.DeviceFailed)
    else if found.None? then (if afterLookup then FsCodec.Failed(FsCodec.DeviceFailed) else FsCodec.Failed(FsCodec.NotFound))
    else if found.value then FsCodec.Failed(FsCodec.NotFound)
    else if afterRead then FsCodec.Failed(FsCodec.DeviceFailed)
    else FsCodec.Data(bytes)
  }

  /** Answers a write of `len` bytes to the sector the name resolves to, if it does. */
  function HandleWrite(authorized: bool, len: nat, onEntry: bool, sector: Option<nat>, afterLookup: bool, outcome: Outcome):
    (r: FsCodec.Response)
  {
    if !authorized then FsCodec.Failed(FsCodec.Unauthorized)
    else if len != SECTOR_SIZE then FsCodec.Failed(FsCodec.BadRequest)
    else if onEntry then FsCodec.Failed(FsCodec.DeviceFailed)
    else if sector.None? then (if afterLookup then FsCodec.Failed(FsCodec.DeviceFailed) else FsCodec.Failed(FsCodec.NotFound))
    else if outcome == Status(S_OK) then FsCodec.Ok
    else FsCodec.Failed(FsCodec.DeviceFailed)
  }

  /** After one timeout every authorized, well-sized request is answered "device failed", whatever the
      lookup and the buffers say; the other two errors still come first. */
  lemma QuarantinedRequestsFail(c: Config, states: seq<State>, steps: seq<Step>, i: nat, j: nat, k: nat, l: nat,
                                authorized: bool, found: Option<bool>, bytes: seq<Byte>, len: nat, sector: Option<nat>, outcome: Outcome)
    requires Run(c, states, steps) && i <= j <= k <= l <= |steps| && states[i].faulted
    ensures HandleRead(authorized, states[j].faulted, found, states[k].faulted, bytes, states[l].faulted)
         == FsCodec.Failed(if authorized then FsCodec.DeviceFailed else FsCodec.Unauthorized)
    ensures HandleWrite(authorized, len, states[j].faulted, sector, states[k].faulted, outcome)
         == FsCodec.Failed(if !authorized then FsCodec.Unauthorized else if len != SECTOR_SIZE then FsCodec.BadRequest else FsCodec.DeviceFailed)
  {
    hide Run;
    QuarantineForever(c, states, steps, i, j);
  }

  /** A device that is quarantined while a read is served makes it neither return data nor call a missing
      name not found: data means the device was healthy to the end, and "not found" that the lookup ended
      healthy or found a directory. */
  lemma ReadNotMisleading(c: Config, states: seq<State>, steps: seq<Step>, j: nat, k: nat, l: nat, found: Option<bool>, bytes: seq<Byte>)
    requires Run(c, states, steps) && j <= k <= l <= |steps|
    ensures var r := HandleRead(true, states[j].faulted, found, states[k].faulted, bytes, states[l].faulted);
      && (r.Data? ==> !states[j].faulted && !states[k].faulted && !states[l].faulted && found == Some(false) && r.bytes == bytes)
      && (r == FsCodec.Failed(FsCodec.NotFound) ==> !states[j].faulted && (found == Some(true) || (found.None? && !states[k].faulted)))
      && (r == FsCodec.Failed(FsCodec.DeviceFailed) ==> states[l].faulted)
  {
    hide Moves, Init;
    if states[j].faulted { QuarantineForever(c, states, steps, j, l); }
    if states[k].faulted { QuarantineForever(c, states, steps, k, l); }
  }

  /** What each answer to a write means. */
  lemma WriteIff(authorized: bool, len: nat, onEntry: bool, sector: Option<nat>, afterLookup: bool, outcome: Outcome)
    ensures var r := HandleWrite(authorized, len, onEntry, sector, afterLookup, outcome);
      && (r == FsCodec.Ok <==> authorized && len == 512 && !onEntry && sector.Some? && outcome == Status(0))
      && (r == FsCodec.Failed(FsCodec.Unauthorized) <==> !authorized)
      && (r == FsCodec.Failed(FsCodec.BadRequest) <==> authorized && len != 512)
      && (r == FsCodec.Failed(FsCodec.NotFound) <==> authorized && len == 512 && !onEntry && sector.None? && !afterLookup)
      && (r == FsCodec.Failed(FsCodec.DeviceFailed) <==>
            authorized && len == 512 && (onEntry || (sector.None? && afterLookup) || (sector.Some? && outcome != Status(0))))
  {
  }

  /** What each answer to a read means. */
  lemma ReadIff(authorized: bool, onEntry: bool, found: Option<bool>, afterLookup: bool, bytes: seq<Byte>, afterRead: bool, answer: seq<Byte>)
    ensures var r := HandleRead(authorized, onEntry, found, afterLookup, bytes, afterRead);
      && (r == FsCodec.Data(answer) <==> authorized && !onEntry && found == Some(false) && !afterRead && answer == bytes)
      && (r == FsCodec.Failed(FsCodec.Unauthorized) <==> !authorized)
      && (r == FsCodec.Failed(FsCodec.NotFound) <==> authorized && !onEntry && (found == Some(true) || (found.None? && !afterLookup)))
      && (r == FsCodec.Failed(FsCodec.DeviceFailed) <==>
            authorized && (onEntry || (found.None? && afterLookup) || (found == Some(false) && afterRead)))
      && r != FsCodec.Ok && r != FsCodec.Failed(FsCodec.BadRequest)
  {
  }

  /** On a run of the device that answers the request of a write, the answer is "ok" exactly when the request is
      authorized, of one sector, resolved on a healthy device, and completed with status 0. */
  lemma WriteAnswered(c: Config, states: seq<State>, steps: seq<Step>, i: nat, j: nat, k: nat, authorized: bool, len: nat, sector: Option<nat>)
    requires Run(c, states, steps) && i <= j <= |steps| && k < |states[j].results| && k < |states[j].submitted| && states[j].submitted[k].write
    ensures HandleWrite(authorized, len, states[i].faulted, sector, states[i].faulted, states[j].results[k]) == FsCodec.Ok <==>
      && authorized && len == 512 && !states[i].faulted && sector.Some?
      && k < |states[j].completed| && states[j].completed[k].status == 0 && states[j].results[k] != NoStatus
  {
    hide Run;
    WriteIff(authorized, len, states[i].faulted, sector, states[i].faulted, states[j].results[k]);
    AnswersBelong(c, states, steps, j, k);
  }
}
