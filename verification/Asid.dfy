/** The cache that gives every page directory a TLB tag (ASID), and when it flushes. */
module Asid {
  import opened Options
  import opened Tables

  const CAP := 64
  const LAST := 250

  /** What the rest of the system can see: an all-ASID flush, or an ASID given to a root
      that had none. */
  datatype Event = Flush | HandOut(pdir: nat, asid: int)

  ghost predicate NoFlushAfter(log: seq<Event>, i: int) { forall k :: 0 <= k && i < k < |log| ==> log[k] != Flush }

  /** Between any two hand-outs of one ASID every TLB entry was flushed. */
  ghost predicate Separated(log: seq<Event>) {
    forall i, j :: 0 <= i < j < |log| && log[i].HandOut? && log[j].HandOut? && log[i].asid == log[j].asid ==>
      exists k :: i < k < j && log[k] == Flush
  }

  /** ASIDs given out since the last flush lie behind the counter; 250 came with a flush. */
  ghost predicate Behind(log: seq<Event>, next: int) {
    forall i :: 0 <= i < |log| && log[i].HandOut? && NoFlushAfter(log, i) ==> log[i].asid < next || log[i].asid == LAST
  }

  lemma Flushed(log: seq<Event>, next: int, next': int)
    requires Separated(log) && Behind(log, next)
    ensures Separated(log + [Flush]) && Behind(log + [Flush], next')
  {
    var log' := log + [Flush];
    forall i | 0 <= i < |log'| && log'[i].HandOut? ensures !NoFlushAfter(log', i) { assert log'[|log|] == Flush; }
    Prefix(log, log');
  }

  lemma Prefix(log: seq<Event>, log': seq<Event>)
    requires Separated(log) && log <= log' && |log'| == |log| + 1 && log'[|log|] == Flush
    ensures Separated(log')
  {
    forall i, j | 0 <= i < j < |log'| && log'[i].HandOut? && log'[j].HandOut? && log'[i].asid == log'[j].asid
      ensures exists k :: i < k < j && log'[k] == Flush
    {
      assert log[i] == log'[i] && log[j] == log'[j];
      var k :| i < k < j && log[k] == Flush;
      assert log'[k] == Flush;
    }
  }

  /** Handing out an ASID nobody got since the last flush. */
  lemma Handed(log: seq<Event>, pdir: nat, a: int, next: int)
    requires Separated(log)
    requires forall i :: 0 <= i < |log| && log[i].HandOut? && NoFlushAfter(log, i) ==>
             log[i].asid != a && (log[i].asid < next || log[i].asid == LAST)
    requires a < next || a == LAST
    ensures Separated(log + [HandOut(pdir, a)]) && Behind(log + [HandOut(pdir, a)], next)
  {
    var log' := log + [HandOut(pdir, a)];
    var n := |log|;
    forall i | 0 <= i < n ensures NoFlushAfter(log', i) <==> NoFlushAfter(log, i) {
      assert forall k :: i < k < n ==> log'[k] == log[k];
      assert log'[n] != Flush;
    }
    forall i, j | 0 <= i < j < |log'| && log'[i].HandOut? && log'[j].HandOut? && log'[i].asid == log'[j].asid
      ensures exists k :: i < k < j && log'[k] == Flush
    {
      assert log[i] == log'[i];
      if j < n {
        assert log[j] == log'[j];
        var k :| i < k < j && log[k] == Flush;
        assert log'[k] == Flush;
      } else {
        var k :| i < k < n && log[k] == Flush;
        assert log'[k] == Flush;
      }
    }
  }

  lemma AfterFlush(log: seq<Event>, i: int)
    requires 0 <= i < |log| && log[|log| - 1] == Flush && log[i].HandOut?
    ensures !NoFlushAfter(log, i)
  {}

  class AsidCache {
    var bindings: Table
    var next: int
    ghost var log: seq<Event>

    ghost predicate Valid() reads this {
      && UniqueKeys(bindings) && |bindings| <= CAP && 1 <= next <= LAST
      && (forall i :: 0 <= i < |bindings| ==> 1 <= bindings[i].1 <= LAST)
      && Separated(log) && Behind(log, next)
    }

    constructor ()
      ensures Valid() && bindings == [] && log == []
    {
      bindings, next, log := [], 1, [];
    }

    /** A bound root keeps its ASID. A new one gets the next ASID in turn, after a flush when
        the counter wraps or when the full cache is forgotten to make room. */
    method AsidForPdir(pdir: nat) returns (a: int)
      requires Valid()
      modifies this
      ensures Valid() && 1 <= a <= 250 && Lookup(bindings, pdir) == Some(a)
      ensures old(Lookup(bindings, pdir)).Some? ==> bindings == old(bindings) && next == old(next) && log == old(log)
      ensures old(Lookup(bindings, pdir)).None? ==>
                && a == old(next) && next == a % 250 + 1
                && log == old(log) + (if a == 250 || |old(bindings)| == 64 then [Flush] else []) + [HandOut(pdir, a)]
      ensures old(Lookup(bindings, pdir)).None? && |old(bindings)| < 64 ==>
                forall q :: q != pdir ==> Lookup(bindings, q) == old(Lookup(bindings, q))
      ensures old(Lookup(bindings, pdir)).None? && |old(bindings)| == 64 ==> bindings == [(pdir, a)]
    {
      hide Separated, Behind, Lookup;
      var i := Find(bindings, pdir);
      if i < |bindings| { return bindings[i].1; }
      a := next;
      next := (next + 1) % 0x10000;
      var wrapped := false;
      if next == 0 || next > LAST { next, wrapped := 1, true; }
      if |bindings| == CAP {
        bindings, wrapped := [], true;
        LookupNone([], pdir);
      }
      Append(bindings, pdir, a);
      bindings := bindings + [(pdir, a)];
      HandOutKeeps(log, pdir, a, next, wrapped);
      log := log + (if wrapped then [Flush] else []) + [HandOut(pdir, a)];
    }

    method EvictAsid(pdir: nat) returns (removed: bool)
      requires Valid()
      modifies this
      ensures Valid() && removed == old(Lookup(bindings, pdir)).Some? && next == old(next) && log == old(log)
      ensures forall q :: Lookup(bindings, q) == if q == pdir then None else old(Lookup(bindings, q))
      ensures |bindings| == |old(bindings)| - if removed then 1 else 0
    {
      hide Separated, Behind;
      var i := Find(bindings, pdir);
      if i == |bindings| { return false; }
      Remove(bindings, i);
      bindings := SwapRemove(bindings, i);
      return true;
    }

    /** Drops a root's binding, flushing if there was one. */
    method ForgetPdir(pdir: nat) returns (held: bool)
      requires Valid()
      modifies this
      ensures Valid() && held == (pdir != 0 && old(Lookup(bindings, pdir)).Some?)
      ensures log == old(log) + if held then [Flush] else []
      ensures forall q :: Lookup(bindings, q) == if q == pdir && pdir != 0 then None else old(Lookup(bindings, q))
    {
      hide Separated, Behind;
      if pdir == 0 { return false; }
      held := EvictAsid(pdir);
      if held {
        Flushed(log, next, next);
        log := log + [Flush];
      }
    }
  }

  /** Handing out the counter's ASID, after a flush whenever it is the last one. */
  lemma HandOutKeeps(log: seq<Event>, pdir: nat, a: int, next: int, wrapped: bool)
    requires Separated(log) && Behind(log, a) && 1 <= a <= LAST && next == a % LAST + 1 && (a == LAST ==> wrapped)
    ensures var log' := log + (if wrapped then [Flush] else []) + [HandOut(pdir, a)];
            Separated(log') && Behind(log', next)
  {
    hide Separated, Behind;
    var log1 := log + if wrapped then [Flush] else [];
    if wrapped { Flushed(log, a, a); }
    assert !wrapped ==> log1 == log;
    Fresh(log1, a, next, wrapped);
    Handed(log1, pdir, a, next);
  }

  /** The counter's ASID is new since the last flush. */
  lemma Fresh(log: seq<Event>, a: int, next: int, wrapped: bool)
    requires 1 <= a <= LAST && next == a % LAST + 1 && (a == LAST ==> wrapped)
    requires if wrapped then log != [] && log[|log| - 1] == Flush else Behind(log, a)
    ensures a < next || a == LAST
    ensures forall i :: 0 <= i < |log| && log[i].HandOut? && NoFlushAfter(log, i) ==>
            log[i].asid != a && (log[i].asid < next || log[i].asid == LAST)
  {
    if wrapped {
      forall i | 0 <= i < |log| && log[i].HandOut? ensures !NoFlushAfter(log, i) { AfterFlush(log, i); }
    }
  }
}
