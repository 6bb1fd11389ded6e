/** A directory as a map from short names to entries: creating, deleting and resizing a slot
    refine the map's update, removal and change of value. */
module DirectoryMap {
  import opened Bytes
  import opened FatDirectory

  /** Once a slot is unused since the directory was made, so is every later one. */
  ghost predicate ZeroTail(slots: seq<Slot>) {
    forall i, j :: 0 <= i < j < |slots| && slots[i][0] == 0 ==> slots[j][0] == 0
  }

  ghost predicate UniqueNames(slots: seq<Slot>) {
    forall i, j :: 0 <= i < j < |slots| && ParseShortDirEntry(slots[i]).Some? && ParseShortDirEntry(slots[j]).Some? ==>
      ParseShortDirEntry(slots[i]).value.name != ParseShortDirEntry(slots[j]).value.name
  }

  predicate Reusable(e: Slot) {
    e[0] == 0 || e[0] == DELETED
  }

  ghost predicate FirstReusable(slots: seq<Slot>, q: nat) {
    q < |slots| && Reusable(slots[q]) && forall i :: 0 <= i < q ==> !Reusable(slots[i])
  }

  ghost predicate NoneReusable(slots: seq<Slot>, n: nat)
    requires n <= |slots|
  {
    forall q :: 0 <= q < n ==> !Reusable(slots[q])
  }

  /** Every slot is in use. */
  ghost predicate Full(slots: seq<Slot>) {
    NoneReusable(slots, |slots|)
  }

  predicate Visible(name: Name) {
    name[0] != 0 && name[0] != DELETED
  }

  // ----- what lookup says about the slots

  /** A match that no unused slot precedes is found, at it or before it. */
  lemma {:induction false} MatchIsFound(slots: seq<Slot>, name: Name, i: nat, q: nat)
    requires i <= q < |slots| && Matches(slots[q], name) && forall m :: i <= m < q ==> slots[m][0] != 0
    ensures Find(slots, name, i).Some? && Find(slots, name, i).value <= q
    decreases q - i
  {
    if i < q && !Matches(slots[i], name) {
      MatchIsFound(slots, name, i + 1, q);
    }
  }

  /** With no gap in front, lookup misses a name only if no slot holds it. */
  lemma AbsentEverywhere(slots: seq<Slot>, name: Name, q: nat)
    requires ZeroTail(slots) && Find(slots, name, 0).None? && q < |slots|
    ensures !Matches(slots[q], name)
  {
    if Matches(slots[q], name) {
      MatchIsFound(slots, name, 0, q);
    }
  }

  /** With unique names, lookup finds the one slot that holds the name. */
  lemma PresentIsFound(slots: seq<Slot>, name: Name, q: nat)
    requires ZeroTail(slots) && UniqueNames(slots) && q < |slots| && Matches(slots[q], name)
    ensures Find(slots, name, 0) == Some(q)
  {
    MatchIsFound(slots, name, 0, q);
    FindFound(slots, name, 0);
  }

  // ----- create

  /** Up to a slot that is overwritten, scans for other names see the same. */
  lemma {:induction false} FindOther(slots: seq<Slot>, q: nat, e: Slot, n: Name, i: nat)
    requires i <= q < |slots|
    requires Find(slots[q := e], n, q) == Find(slots, n, q)
    ensures Find(slots[q := e], n, i) == Find(slots, n, i)
    decreases q - i
  {
    if i < q {
      FindOther(slots, q, e, n, i + 1);
    }
  }

  lemma FindAfterReuse(slots: seq<Slot>, q: nat, e: Slot, n: Name)
    requires ZeroTail(slots) && q < |slots| && Reusable(slots[q]) && Passed(e, n)
    ensures Find(slots[q := e], n, q) == Find(slots, n, q)
  {
    assert Find(slots[q := e], n, q) == Find(slots[q := e], n, q + 1);
    FindSame(slots, slots[q := e], n, q + 1);
  }

  /** An entry written into the first reusable slot is what a lookup of its name finds exactly when its
      first byte is neither of the two that mark a slot as unused, and no slot before it holds the name. */
  lemma CreatedFoundIff(slots: seq<Slot>, q: nat, name: Name, cluster: nat, size: nat)
    requires FirstReusable(slots, q) && cluster < U32_LIMIT && size < U32_LIMIT
    ensures Find(slots[q := NewEntry(name, cluster, size)], name, 0) == Some(q)
       <==> Visible(name) && forall i :: 0 <= i < q ==> !Matches(slots[i], name)
  {
    var slots' := slots[q := NewEntry(name, cluster, size)];
    NewEntryParses(name, cluster, size);
    FindFound(slots', name, 0);
    if forall i :: 0 <= i < q ==> !Matches(slots[i], name) {
      FindSkips(slots', name, 0, q);
      FindFound(slots', name, q);
    } else {
      var i :| 0 <= i < q && Matches(slots[i], name);
      assert Matches(slots'[i], name);
    }
  }

  /** Every name held behind slot `q` is also held before it. */
  ghost predicate NothingHidden(slots: seq<Slot>, q: nat) {
    forall i :: q < i < |slots| && ParseShortDirEntry(slots[i]).Some? ==> HeldBefore(slots, q, ParseShortDirEntry(slots[i]).value.name)
  }

  ghost predicate HeldBefore(slots: seq<Slot>, q: nat, name: Name) {
    exists j :: 0 <= j < q && j < |slots| && Matches(slots[j], name)
  }

  /** Every other name is found where it was exactly when the created name's first byte is not the end mark,
      or every name behind the slot is found before it anyway: an end mark written into a deleted slot ends
      the directory there. */
  lemma OthersKeptIff(slots: seq<Slot>, q: nat, name: Name, cluster: nat, size: nat)
    requires ZeroTail(slots) && FirstReusable(slots, q) && cluster < U32_LIMIT && size < U32_LIMIT
    ensures (forall n: Name :: n != name ==> Find(slots[q := NewEntry(name, cluster, size)], n, 0) == Find(slots, n, 0))
       <==> name[0] != 0 || NothingHidden(slots, q)
  {
    var e := NewEntry(name, cluster, size);
    NewEntryParses(name, cluster, size);
    if name[0] != 0 {
      forall n: Name | n != name ensures Find(slots[q := e], n, 0) == Find(slots, n, 0) {
        OtherFound(slots, q, e, n);
      }
    } else if NothingHidden(slots, q) {
      forall n: Name | n != name ensures Find(slots[q := e], n, 0) == Find(slots, n, 0) {
        HiddenFound(slots, q, e, n);
      }
    } else {
      var i :| q < i < |slots| && ParseShortDirEntry(slots[i]).Some? && !HeldBefore(slots, q, ParseShortDirEntry(slots[i]).value.name);
      HidesName(slots, q, e, i);
    }
  }

  lemma OtherFound(slots: seq<Slot>, q: nat, e: Slot, n: Name)
    requires ZeroTail(slots) && FirstReusable(slots, q) && Passed(e, n)
    ensures Find(slots[q := e], n, 0) == Find(slots, n, 0)
    ensures Find(slots, n, 0) != Some(q)
  {
    FindAfterReuse(slots, q, e, n);
    FindOther(slots, q, e, n, 0);
    FindFound(slots, n, 0);
  }

  lemma HiddenFound(slots: seq<Slot>, q: nat, e: Slot, n: Name)
    requires FirstReusable(slots, q) && e[0] == 0 && NothingHidden(slots, q)
    ensures Find(slots[q := e], n, 0) == Find(slots, n, 0)
  {
    var slots' := slots[q := e];
    if HeldBefore(slots, q, n) {
      var j :| 0 <= j < q && Matches(slots[j], n);
      FoundBefore(slots, slots', n, 0, j);
    } else {
      FindSkips(slots, n, 0, q);
      FindSkips(slots', n, 0, q);
      FindFound(slots, n, q);
    }
  }

  /** What is found before a slot does not depend on it. */
  lemma {:induction false} FoundBefore(slots: seq<Slot>, slots': seq<Slot>, n: Name, i: nat, j: nat)
    requires i <= j < |slots| == |slots'| && Matches(slots[j], n) && forall m :: i <= m <= j ==> slots'[m] == slots[m]
    ensures Find(slots', n, i) == Find(slots, n, i)
    decreases j - i
  {
    if i < j { FoundBefore(slots, slots', n, i + 1, j); }
  }

  lemma HidesName(slots: seq<Slot>, q: nat, e: Slot, i: nat)
    requires ZeroTail(slots) && FirstReusable(slots, q) && e[0] == 0
    requires q < i < |slots| && ParseShortDirEntry(slots[i]).Some? && !HeldBefore(slots, q, ParseShortDirEntry(slots[i]).value.name)
    ensures var n := ParseShortDirEntry(slots[i]).value.name;
      n[0] != 0 && Find(slots[q := e], n, 0).None? && Find(slots, n, 0).Some?
  {
    var n, slots' := ParseShortDirEntry(slots[i]).value.name, slots[q := e];
    MatchIsFound(slots, n, 0, i);
    FindSkips(slots', n, 0, q);
  }

  /** `slots'` holds the map of `slots` with `name` sent to `e`, with no gap and no name twice. */
  ghost predicate RefinesUpdate(slots: seq<Slot>, slots': seq<Slot>, name: Name, e: ShortDirEntry) {
    && Lookup(slots', name) == Some(e)
    && (forall n: Name :: n != name ==> Lookup(slots', n) == Lookup(slots, n))
    && ZeroTail(slots') && UniqueNames(slots')
  }

  /** Creating a name in the first reusable slot refines a map update exactly when the name is new and its
      first byte is neither of the two that mark a slot as unused. */
  lemma CreateRefinesUpdate(slots: seq<Slot>, q: nat, name: Name, cluster: nat, size: nat)
    requires ZeroTail(slots) && UniqueNames(slots) && FirstReusable(slots, q) && cluster < U32_LIMIT && size < U32_LIMIT
    ensures RefinesUpdate(slots, slots[q := NewEntry(name, cluster, size)], name, ShortDirEntry(name, cluster, size, false))
       <==> Visible(name) && Lookup(slots, name).None?
  {
    hide Find;
    var e := NewEntry(name, cluster, size);
    var slots' := slots[q := e];
    NewEntryParses(name, cluster, size);
    FindFound(slots, name, 0);
    FindFound(slots', name, 0);
    CreatedFoundIff(slots, q, name, cluster, size);
    if Visible(name) && Lookup(slots, name).None? {
      CreatedUnique(slots, q, name, cluster, size);
      forall n: Name | n != name ensures Lookup(slots', n) == Lookup(slots, n) {
        OtherFound(slots, q, e, n);
        FindFound(slots, n, 0);
      }
    } else if Visible(name) {
      var i := Find(slots, name, 0).value;
      assert Matches(slots'[i], name) && Matches(slots'[q], name) && i != q;
    }
  }

  lemma CreatedUnique(slots: seq<Slot>, q: nat, name: Name, cluster: nat, size: nat)
    requires ZeroTail(slots) && UniqueNames(slots) && FirstReusable(slots, q) && cluster < U32_LIMIT && size < U32_LIMIT
    requires Visible(name) && Find(slots, name, 0).None?
    ensures ZeroTail(slots[q := NewEntry(name, cluster, size)]) && UniqueNames(slots[q := NewEntry(name, cluster, size)])
    ensures forall i :: 0 <= i < |slots| ==> !Matches(slots[i], name)
  {
    hide Find;
    NewEntryParses(name, cluster, size);
    forall i | 0 <= i < |slots| ensures !Matches(slots[i], name) {
      AbsentEverywhere(slots, name, i);
    }
  }

  /** Appending unused slots changes no lookup, and makes the first of them reusable when the
      directory was full. */
  lemma GrowKeepsLookup(slots: seq<Slot>, zeros: seq<Slot>)
    requires ZeroTail(slots) && forall i :: 0 <= i < |zeros| ==> zeros[i][0] == 0
    ensures ZeroTail(slots + zeros)
    ensures forall n: Name :: Find(slots + zeros, n, 0) == Find(slots, n, 0)
    ensures UniqueNames(slots) ==> UniqueNames(slots + zeros)
    ensures 0 < |zeros| && (forall i :: 0 <= i < |slots| ==> !Reusable(slots[i])) ==> FirstReusable(slots + zeros, |slots|)
  {
    forall n: Name ensures Find(slots + zeros, n, 0) == Find(slots, n, 0) {
      FindBeforeZeros(slots, zeros, n, 0);
    }
  }

  lemma {:induction false} FindBeforeZeros(slots: seq<Slot>, zeros: seq<Slot>, n: Name, i: nat)
    requires i <= |slots| && forall j :: 0 <= j < |zeros| ==> zeros[j][0] == 0
    ensures Find(slots + zeros, n, i) == Find(slots, n, i)
    decreases |slots| - i
  {
    if i < |slots| {
      FindBeforeZeros(slots, zeros, n, i + 1);
    }
  }

  // ----- delete and resize

  /** Marking the slot of a name deleted refines removal from the map. */
  lemma DeleteRefinesRemoval(slots: seq<Slot>, q: nat, name: Name)
    requires ZeroTail(slots) && UniqueNames(slots) && Find(slots, name, 0) == Some(q)
    ensures q < |slots|
    ensures var slots' := slots[q := Deleted(slots[q])];
      && Find(slots', name, 0).None?
      && (forall n: Name :: n != name ==> Find(slots', n, 0) == Find(slots, n, 0) != Some(q))
      && ZeroTail(slots') && UniqueNames(slots')
  {
    FindFound(slots, name, 0);
    var e := Deleted(slots[q]);
    var slots' := slots[q := e];
    if Find(slots', name, 0).Some? {
      FindFound(slots', name, 0);
    }
    forall n: Name | n != name ensures Find(slots', n, 0) == Find(slots, n, 0) != Some(q) {
      FindSame(slots, slots', n, 0);
      FindFound(slots, n, 0);
    }
  }

  /** Rewriting the size of a name's slot changes that name's entry and no other. */
  lemma ResizeRefinesChange(slots: seq<Slot>, q: nat, name: Name, size: nat)
    requires ZeroTail(slots) && UniqueNames(slots) && Find(slots, name, 0) == Some(q) && size < U32_LIMIT
    ensures q < |slots| && Lookup(slots, name).Some?
    ensures var slots' := slots[q := Resized(slots[q], size)];
      && Find(slots', name, 0) == Some(q)
      && Lookup(slots', name) == Some(Lookup(slots, name).value.(fileSize := size))
      && (forall n: Name :: n != name ==> Find(slots', n, 0) == Find(slots, n, 0) != Some(q))
      && ZeroTail(slots') && UniqueNames(slots')
  {
    FindFound(slots, name, 0);
    ResizedParses(slots[q], size);
    var slots' := slots[q := Resized(slots[q], size)];
    PresentIsFound(slots', name, q);
    forall n: Name | n != name ensures Find(slots', n, 0) == Find(slots, n, 0) != Some(q) {
      FindSame(slots, slots', n, 0);
      FindFound(slots, n, 0);
    }
  }
}
