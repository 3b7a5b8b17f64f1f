/** The fixed set of enrolled driver roots: 32 slots, 0 for an empty one. */
module DriverSet {
  const SLOTS := 32

  ghost predicate Unique(roots: seq<nat>) {
    && |roots| == SLOTS
    && forall i, j :: 0 <= i < j < SLOTS && roots[i] != 0 ==> roots[i] != roots[j]
  }

  class DriverRoots {
    var roots: seq<nat>

    ghost predicate Valid() reads this { Unique(roots) }

    constructor ()
      ensures Valid() && forall p :: p != 0 ==> p !in roots
    {
      roots := seq(SLOTS, _ => 0);
    }

    method IsDriverRoot(pdir: nat) returns (b: bool)
      requires Valid()
      ensures b <==> pdir != 0 && pdir in roots
    {
      if pdir == 0 { return false; }
      for i := 0 to SLOTS
        invariant pdir !in roots[..i]
      {
        if roots[i] == pdir { return true; }
      }
      return false;
    }

    /** Idempotent enrolment; false, and no change, exactly when the set is full of others. */
    method Mark(pdir: nat) returns (ok: bool)
      requires Valid() && pdir != 0
      modifies this
      ensures Valid()
      ensures ok <==> old(pdir in roots || 0 in roots)
      ensures ok ==> pdir in roots
      ensures forall q :: q != 0 && q != pdir ==> (q in roots <==> q in old(roots))
      ensures old(pdir in roots) || !ok ==> roots == old(roots)
      ensures ok && !old(pdir in roots) ==>
                exists i :: 0 <= i < SLOTS && old(roots)[i] == 0 && roots == old(roots)[i := pdir]
    {
      for i := 0 to SLOTS
        invariant pdir !in roots[..i]
      {
        if roots[i] == pdir { return true; }
      }
      for i := 0 to SLOTS
        invariant 0 !in roots[..i]
      {
        if roots[i] == 0 {
          Enrol(roots, i, pdir);
          roots := roots[i := pdir];
          return true;
        }
      }
      return false;
    }

    /** Retracts the one slot that holds pdir. */
    method Unmark(pdir: nat)
      requires Valid() && pdir != 0
      modifies this
      ensures Valid() && pdir !in roots
      ensures forall q :: q != 0 && q != pdir ==> (q in roots <==> q in old(roots))
      ensures old(pdir !in roots) ==> roots == old(roots)
      ensures old(pdir in roots) ==>
                exists i :: 0 <= i < SLOTS && old(roots)[i] == pdir && roots == old(roots)[i := 0]
    {
      for i := 0 to SLOTS
        invariant pdir !in roots[..i]
      {
        if roots[i] == pdir {
          Retract(roots, i);
          roots := roots[i := 0];
          return;
        }
      }
    }
  }

  lemma Enrol(roots: seq<nat>, i: nat, pdir: nat)
    requires Unique(roots) && i < SLOTS && roots[i] == 0 && pdir !in roots
    ensures Unique(roots[i := pdir]) && roots[i := pdir][i] == pdir
    ensures forall q :: q != 0 && q != pdir ==> (q in roots[i := pdir] <==> q in roots)
  {
    forall q | q != 0 && q != pdir && q in roots ensures q in roots[i := pdir] {
      var k :| 0 <= k < SLOTS && roots[k] == q;
      assert roots[i := pdir][k] == q;
    }
  }

  lemma Retract(roots: seq<nat>, i: nat)
    requires Unique(roots) && i < SLOTS && roots[i] != 0
    ensures Unique(roots[i := 0]) && roots[i] !in roots[i := 0]
    ensures forall q :: q != 0 && q != roots[i] ==> (q in roots[i := 0] <==> q in roots)
  {
    forall q | q != 0 && q != roots[i] && q in roots ensures q in roots[i := 0] {
      var k :| 0 <= k < SLOTS && roots[k] == q;
      assert roots[i := 0][k] == q;
    }
  }

  /** Enrolling a fresh root and retracting it again restores every slot. */
  lemma MarkThenUnmark(before: seq<nat>, marked: seq<nat>, after: seq<nat>, pdir: nat)
    requires Unique(before) && pdir != 0 && pdir !in before
    requires exists i :: 0 <= i < SLOTS && before[i] == 0 && marked == before[i := pdir]
    requires exists j :: 0 <= j < |marked| && marked[j] == pdir && after == marked[j := 0]
    ensures after == before
  {
    var i :| 0 <= i < SLOTS && before[i] == 0 && marked == before[i := pdir];
    var j :| 0 <= j < |marked| && marked[j] == pdir && after == marked[j := 0];
    assert i == j;
  }
}
