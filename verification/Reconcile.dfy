/** The reconciler's memory of its previous pass: which findings of a pass are new, and what a clean
    pass should do to the audit chain. */
module Reconcile {
  import opened Bytes

  type Key = seq<Byte>

  datatype CleanPass = Record(cleanPasses: nat) | Coalesce(cleanPasses: nat)

  datatype PassPlan = PassPlan(isFresh: seq<bool>, clean: Option<CleanPass>)

  function Saturated(n: nat): (r: nat) {
    Min(n, U64_LIMIT - 1)
  }

  /** How many of the passes found nothing. */
  function CleanCount(passes: seq<seq<Key>>): (n: nat) {
    if passes == [] then 0 else CleanCount(passes[..|passes| - 1]) + if passes[|passes| - 1] == [] then 1 else 0
  }

  lemma CleanCountNext(passes: seq<seq<Key>>, keys: seq<Key>)
    ensures CleanCount(passes + [keys]) == CleanCount(passes) + if keys == [] then 1 else 0
  {
    assert (passes + [keys])[..|passes + [keys]| - 1] == passes;
  }

  /** What the plan of the last of `passes` must be: a finding is new if the pass before did not report
      it and it is its first occurrence in this one; a clean pass is recorded if the pass before was not
      clean or there was none, and counted otherwise. */
  ghost predicate PlanFor(passes: seq<seq<Key>>, plan: PassPlan)
    requires passes != []
  {
    var keys := passes[|passes| - 1];
    var previous := if |passes| == 1 then [] else passes[|passes| - 2];
    var cleanBefore := 2 <= |passes| && previous == [];
    && |plan.isFresh| == |keys|
    && (forall i :: 0 <= i < |keys| ==> (plan.isFresh[i] <==> keys[i] !in previous && keys[i] !in keys[..i]))
    && plan.clean == if keys != [] then None
                     else
                       var n := Min(CleanCount(passes), 0xFFFF_FFFF_FFFF_FFFF);
                       Some(if cleanBefore then Coalesce(n) else Record(n))
  }

  /** Which keys are new against `prev` and within the list, and the set of them all. */
  method Compare(keys: seq<Key>, prev: set<Key>) returns (isFresh: seq<bool>, current: set<Key>)
    ensures |isFresh| == |keys| && forall k :: k in current <==> k in keys
    ensures forall j :: 0 <= j < |keys| ==> (isFresh[j] <==> keys[j] !in prev && keys[j] !in keys[..j])
  {
    isFresh, current := [], {};
    for i := 0 to |keys|
      invariant |isFresh| == i && forall k :: k in current <==> k in keys[..i]
      invariant forall j :: 0 <= j < i ==> (isFresh[j] <==> keys[j] !in prev && keys[j] !in keys[..j])
    {
      var isNew := keys[i] !in prev;
      var firstHere := keys[i] !in current;
      assert keys[..i + 1] == keys[..i] + [keys[i]];
      current := current + {keys[i]};
      isFresh := isFresh + [isNew && firstHere];
    }
    assert keys[..|keys|] == keys;
  }

  class ReconcileMemory {
    var prev: set<Key>
    var lastClean: bool
    var passes: nat
    var cleanPasses: nat
    ghost var history: seq<seq<Key>>

    /** The memory holds what matters of the passes observed so far. */
    ghost predicate Valid()
      reads this
    {
      && passes == Saturated(|history|) && cleanPasses == Saturated(CleanCount(history))
      && (history == [] ==> prev == {} && !lastClean)
      && (history != [] ==>
            && (forall k :: k in prev <==> k in history[|history| - 1])
            && (lastClean <==> history[|history| - 1] == []))
    }

    constructor ()
      ensures Valid() && history == []
    {
      prev, lastClean, passes, cleanPasses, history := {}, false, 0, 0, [];
    }

    /** Observes one more pass. Its plan depends on the whole history only as `PlanFor` says. */
    method Observe(keys: seq<Key>) returns (plan: PassPlan)
      requires Valid()
      modifies this
      ensures Valid() && history == old(history) + [keys] && PlanFor(history, plan)
    {
      hide CleanCount;
      CleanCountNext(history, keys);
      passes := Saturated(passes + 1);
      var isFresh, current := Compare(keys, prev);
      var clean := None;
      if keys == [] {
        cleanPasses := Saturated(cleanPasses + 1);
        clean := Some(if lastClean then Coalesce(cleanPasses) else Record(cleanPasses));
      }
      history := history + [keys];
      lastClean := keys == [];
      prev := current;
      return PassPlan(isFresh, clean);
    }
  }
}
