/** The sector device under the filesystem. Which requests the device serves and which
    it fails is fixed by a script the driver cannot see, so that every contract proved
    here holds for every pattern of failures. A failed write may have reached the medium
    in part: each byte of the sector is then either the old or the new one. */
module BlockDevice {
  import opened Bytes

  datatype Service = Works | Fails(applied: set<nat>)

  /** The sector left by a write of `next` over `prev` that reached only the bytes in `applied`. */
  function Torn(prev: Sector, next: Sector, applied: set<nat>): (r: Sector)
    ensures forall i :: 0 <= i < 512 ==> r[i] == if i in applied then next[i] else prev[i]
  {
    seq(512, i requires 0 <= i < 512 => if i in applied then next[i] else prev[i])
  }

  /** No 32-bit word is reached in part. */
  ghost predicate Aligned(applied: set<nat>) {
    forall i, j :: i in applied && 0 <= j && i / 4 == j / 4 ==> j in applied
  }

  class BlkDevice {
    var disk: seq<Sector>
    const script: nat -> Service
    var clock: nat
    ghost var history: seq<seq<Sector>>   // the disk after each write request

    constructor (disk: seq<Sector>, script: nat -> Service)
      ensures this.disk == disk && this.script == script && clock == 0 && history == []
    {
      this.disk, this.script, clock, history := disk, script, 0, [];
    }

    /** Every request succeeds. */
    ghost predicate Reliable() {
      forall t: nat :: script(t).Works?
    }

    /** A write that fails leaves every 32-bit word either old or new. */
    ghost predicate WholeWords() {
      forall t: nat :: script(t).Fails? ==> Aligned(script(t).applied)
    }

    method ReadSector(n: nat) returns (r: Option<Sector>)
      modifies this`clock
      ensures clock == old(clock) + 1
      ensures r == if script(old(clock)).Works? && n < |disk| then Some(disk[n]) else None
      ensures Reliable() && n < |disk| ==> r.Some?
    {
      var s := script(clock);
      clock := clock + 1;
      r := if s.Works? && n < |disk| then Some(disk[n]) else None;
    }

    method WriteSector(n: nat, s: Sector) returns (ok: bool, ghost applied: set<nat>)
      modifies this`clock, this`disk, this`history
      ensures |disk| == |old(disk)| && clock == old(clock) + 1
      ensures history == old(history) + [disk]
      ensures ok <==> script(old(clock)).Works? && n < |disk|
      ensures Reliable() && n < |disk| ==> ok
      ensures ok ==> disk == old(disk)[n := s]
      ensures !ok ==> disk == if n < |disk| then old(disk)[n := Torn(old(disk)[n], s, applied)] else old(disk)
      ensures applied == if script(old(clock)).Works? then {} else script(old(clock)).applied
      ensures WholeWords() ==> Aligned(applied)
    {
      var service := script(clock);
      clock := clock + 1;
      ok := service.Works? && n < |disk|;
      applied := if service.Works? then {} else service.applied;
      if ok {
        disk := disk[n := s];
      } else if n < |disk| && service.Fails? {
        disk := disk[n := Torn(disk[n], s, service.applied)];
      }
      history := history + [disk];
    }
  }
}
