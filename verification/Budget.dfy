/** The per-root page budget: a 64-entry table of charged pages, checked and charged in two
    separately locked steps by the pager and in one step by eager allocations. */
module Budget {
  import opened Options
  import opened Tables

  const SLOTS := 64
  const U32 := 0x1_0000_0000
  const EINVAL := -22

  /** A tenth of all pages, at least 1024. */
  function Cap(total: nat): (cap: nat)
    requires total < U32
    ensures 1024 <= cap < U32 - 1
    ensures if total < 10250 then cap == 1024 else 10 * cap <= total < 10 * cap + 10
  {
    if total / 10 > 1024 then total / 10 else 1024
  }

  function CountOf(t: Table, pdir: nat): nat {
    match Lookup(t, pdir)
    case None => 0
    case Some(v) => v
  }

  /** Records v for a root, if it has or finds a slot. */
  function Record(t: Table, pdir: nat, v: nat): Table { Put(t, pdir, v, SLOTS) }

  class PageBudget {
    var tab: Table

    ghost predicate Valid() reads this { UniqueKeys(tab) && |tab| <= SLOTS }

    constructor ()
      ensures Valid() && tab == []
    {
      tab := [];
    }

    method Count(pdir: nat) returns (n: nat)
      requires Valid()
      ensures n == CountOf(tab, pdir)
    {
      var i := Find(tab, pdir);
      n := if i < |tab| then tab[i].1 else 0;
    }

    method Over(pdir: nat, total: nat) returns (over: bool)
      requires Valid() && total < U32
      ensures over <==> CountOf(tab, pdir) >= Cap(total)
    {
      var n := Count(pdir);
      over := n >= Cap(total);
    }

    method Write(pdir: nat, v: nat)
      requires Valid()
      modifies this
      ensures Valid() && tab == Record(old(tab), pdir, v)
    {
      PutKeeps(tab, pdir, v, SLOTS);
      var i := Find(tab, pdir);
      if i < |tab| {
        tab := tab[i := (pdir, v)];
      } else if |tab| < SLOTS {
        tab := tab + [(pdir, v)];
      }
    }

    method Inc(pdir: nat)
      requires Valid()
      modifies this
      ensures Valid() && tab == Record(old(tab), pdir, Saturating(CountOf(old(tab), pdir) + 1))
      ensures var was := old(tab);
              if Lookup(was, pdir).Some? || |was| < SLOTS
              then CountOf(tab, pdir) ==
                (if CountOf(was, pdir) < 0xFFFF_FFFF then CountOf(was, pdir) + 1 else 0xFFFF_FFFF)
                   && forall q :: q != pdir ==> CountOf(tab, q) == CountOf(was, q)
              else tab == was
    {
      hide Lookup;
      PutKeeps(tab, pdir, Saturating(CountOf(tab, pdir) + 1), SLOTS);
      var n := Count(pdir);
      Write(pdir, Saturating(n + 1));
    }

    method Reset(pdir: nat)
      requires Valid()
      modifies this
      ensures Valid() && tab == if pdir == 0 then old(tab) else Record(old(tab), pdir, 0)
    {
      if pdir == 0 { return; }
      Write(pdir, 0);
    }

    method Forget(pdir: nat)
      requires Valid()
      modifies this
      ensures Valid() && tab == Delete(old(tab), pdir)
      ensures forall k :: Lookup(tab, k) == if k == pdir then None else Lookup(old(tab), k)
    {
      DeleteKeeps(tab, pdir);
      var i := Find(tab, pdir);
      if i < |tab| {
        tab := SwapRemove(tab, i);
      }
    }

    /** All n pages or none. */
    method TryAcquire(pdir: nat, n: nat, total: nat) returns (r: int)
      requires Valid() && n < U32 && total < U32
      modifies this
      ensures Valid() && r == (if pdir == 0 then EINVAL else if CountOf(old(tab), pdir) + n <= Cap(total) then 1 else 0)
      ensures tab == if r == 1 then Record(old(tab), pdir, CountOf(old(tab), pdir) + n) else old(tab)
      ensures r == 1 && (Lookup(old(tab), pdir).Some? || |old(tab)| < SLOTS) ==>
                && CountOf(tab, pdir) == CountOf(old(tab), pdir) + n
                && forall q :: q != pdir ==> CountOf(tab, q) == CountOf(old(tab), q)
    {
      hide Lookup;
      PutKeeps(tab, pdir, CountOf(tab, pdir) + n, SLOTS);
      if pdir == 0 { return EINVAL; }
      var cur := Count(pdir);
      if cur + n < U32 && cur + n <= Cap(total) {
        Write(pdir, cur + n);
        return 1;
      }
      return 0;
    }
  }

  function Saturating(n: nat): nat { if n < U32 then n else U32 - 1 }

  // ---- interleavings ----

  /** The table and the root whose fault passed its check but is not charged yet: faults are
      serialised by the pager's lock, other callers are not. */
  datatype State = State(tab: Table, pending: Option<nat>)
  {
    ghost predicate Valid() { UniqueKeys(tab) && |tab| <= SLOTS }
  }

  datatype Step =
    | Check(pdir: nat)
    | Charge
    | GiveUp
    | Acquire(pdir: nat, n: nat)
    | ResetTo0(pdir: nat)
    | Release(pdir: nat)

  /** The state after one locked section; nothing if the pager's lock rules the step out. */
  function Next(s: State, e: Step, cap: nat): Option<State> {
    match e
    case Check(p) =>
      if s.pending.Some? then None
      else Some(s.(pending := if CountOf(s.tab, p) >= cap then None else Some(p)))
    case Charge =>
      if s.pending.None? then None
      else var p := s.pending.value; Some(State(Record(s.tab, p, Saturating(CountOf(s.tab, p) + 1)), None))
    case GiveUp => if s.pending.None? then None else Some(s.(pending := None))
    case Acquire(p, n) =>
      if CountOf(s.tab, p) + n <= cap then Some(s.(tab := Record(s.tab, p, CountOf(s.tab, p) + n))) else Some(s)
    case ResetTo0(p) => Some(s.(tab := Record(s.tab, p, 0)))
    case Release(p) => Some(s.(tab := Delete(s.tab, p)))
  }

  /** At most one page over the cap, and not over it while a charge is outstanding. */
  ghost predicate Bounded(s: State, cap: nat) {
    && (forall p :: CountOf(s.tab, p) <= cap + 1)
    && (s.pending.Some? ==> CountOf(s.tab, s.pending.value) <= cap)
  }

  /** Within the cap, with room for the outstanding charge. */
  ghost predicate Strict(s: State, cap: nat) {
    && (forall p :: CountOf(s.tab, p) <= cap)
    && (s.pending.Some? ==> CountOf(s.tab, s.pending.value) < cap)
  }

  lemma StepBounded(s: State, e: Step, t: State, cap: nat)
    requires s.Valid() && Bounded(s, cap) && Next(s, e, cap) == Some(t)
    ensures t.Valid() && Bounded(t, cap)
  {
    forall p: nat ensures CountOf(t.tab, p) <= cap + 1 { CountAfter(s, e, t, cap, p); }
    if t.pending.Some? { CountAfter(s, e, t, cap, t.pending.value); }
  }

  /** How one step changes one root's count. */
  lemma CountAfter(s: State, e: Step, t: State, cap: nat, p: nat)
    requires s.Valid() && Next(s, e, cap) == Some(t)
    ensures t.Valid()
    ensures CountOf(t.tab, p) <= CountOf(s.tab, p)
            || (e.Acquire? && p == e.pdir && CountOf(t.tab, p) == CountOf(s.tab, p) + e.n <= cap)
            || (e.Charge? && s.pending == Some(p) && CountOf(t.tab, p) == CountOf(s.tab, p) + 1)
  {
    hide Lookup, Put, Delete;
    match e
    case Check(_) =>
    case Charge => PutKeeps(s.tab, s.pending.value, Saturating(CountOf(s.tab, s.pending.value) + 1), SLOTS);
    case GiveUp =>
    case Acquire(q, n) => PutKeeps(s.tab, q, CountOf(s.tab, q) + n, SLOTS);
    case ResetTo0(q) => PutKeeps(s.tab, q, 0, SLOTS);
    case Release(q) => DeleteKeeps(s.tab, q);
  }

  /** An acquisition for the root whose fault is between its check and its charge. */
  predicate Interleaved(s: State, e: Step) { e.Acquire? && s.pending == Some(e.pdir) && e.n > 0 }

  lemma StepStrict(s: State, e: Step, t: State, cap: nat)
    requires s.Valid() && Strict(s, cap) && Next(s, e, cap) == Some(t) && !Interleaved(s, e)
    ensures t.Valid() && Strict(t, cap)
  {
    forall p: nat ensures CountOf(t.tab, p) <= cap { CountAfter(s, e, t, cap, p); }
    if t.pending.Some? { CountAfter(s, e, t, cap, t.pending.value); }
  }

  ghost predicate Run(states: seq<State>, steps: seq<Step>, cap: nat) {
    && |states| == |steps| + 1 && states[0] == State([], None)
    && forall i :: 0 <= i < |steps| ==> Next(states[i], steps[i], cap) == Some(states[i + 1])
  }

  /** In every interleaving a root is charged at most cap + 1 pages, and at most cap pages if
      nothing was acquired for a root between a fault's check and its charge. */
  lemma {:induction false} EveryRun(states: seq<State>, steps: seq<Step>, cap: nat, n: nat)
    requires Run(states, steps, cap) && n < |states|
    ensures states[n].Valid() && Bounded(states[n], cap)
    ensures (forall i :: 0 <= i < n ==> !Interleaved(states[i], steps[i])) ==> Strict(states[n], cap)
  {
    hide Bounded, Strict;
    if n == 0 {
      Empty(cap);
    } else {
      EveryRun(states, steps, cap, n - 1);
      StepBounded(states[n - 1], steps[n - 1], states[n], cap);
      if forall i :: 0 <= i < n ==> !Interleaved(states[i], steps[i]) {
        StepStrict(states[n - 1], steps[n - 1], states[n], cap);
      }
    }
  }

  /** A charge that is recorded: its root has, or can get, an entry. */
  predicate Counts(s: State, e: Step) {
    e.Charge? && s.pending.Some? && (Lookup(s.tab, s.pending.value).Some? || |s.tab| < SLOTS)
  }

  /** A recorded charge of a root whose acquisitions since its check have filled the cap. */
  predicate Overfills(s: State, e: Step, cap: nat) { Counts(s, e) && CountOf(s.tab, s.pending.value) >= cap }

  /** One step takes a root past the cap exactly when it is such a charge. */
  lemma PastCapExactly(s: State, e: Step, t: State, cap: nat)
    requires s.Valid() && Bounded(s, cap) && cap < U32 - 1 && Next(s, e, cap) == Some(t)
    requires forall p :: CountOf(s.tab, p) <= cap
    ensures (exists p: nat :: CountOf(t.tab, p) > cap) <==> Overfills(s, e, cap)
  {
    hide Lookup, Put, Delete;
    forall p: nat ensures CountOf(t.tab, p) <= cap || (e.Charge? && s.pending == Some(p)) {
      CountAfter(s, e, t, cap, p);
    }
    if e.Charge? {
      var p := s.pending.value;
      PutKeeps(s.tab, p, Saturating(CountOf(s.tab, p) + 1), SLOTS);
    }
  }

  /** For every run, exactly: no root is ever past the cap if and only if no charge is recorded
      for a root that was filled up after its check. */
  lemma WithinCapExactly(states: seq<State>, steps: seq<Step>, cap: nat)
    requires Run(states, steps, cap) && cap < U32 - 1
    ensures (forall i, p: nat :: 0 <= i < |states| ==> CountOf(states[i].tab, p) <= cap)
            <==> forall i :: 0 <= i < |steps| ==> !Overfills(states[i], steps[i], cap)
  {
    hide Bounded, Strict, Next, Overfills;
    if forall i, p: nat :: 0 <= i < |states| ==> CountOf(states[i].tab, p) <= cap {
      forall i | 0 <= i < |steps| ensures !Overfills(states[i], steps[i], cap) {
        EveryRun(states, steps, cap, i);
        PastCapExactly(states[i], steps[i], states[i + 1], cap);
      }
    } else if forall i :: 0 <= i < |steps| ==> !Overfills(states[i], steps[i], cap) {
      forall i | 0 <= i < |states| ensures forall p: nat :: CountOf(states[i].tab, p) <= cap {
        WithinSoFar(states, steps, cap, i);
      }
    }
  }

  lemma {:induction false} WithinSoFar(states: seq<State>, steps: seq<Step>, cap: nat, n: nat)
    requires Run(states, steps, cap) && cap < U32 - 1 && n < |states|
    requires forall i :: 0 <= i < |steps| ==> !Overfills(states[i], steps[i], cap)
    ensures forall p: nat :: CountOf(states[n].tab, p) <= cap
  {
    hide Bounded, Next, Overfills;
    if n > 0 {
      WithinSoFar(states, steps, cap, n - 1);
      EveryRun(states, steps, cap, n - 1);
      PastCapExactly(states[n - 1], steps[n - 1], states[n], cap);
    }
  }

  lemma Empty(cap: nat)
    ensures Bounded(State([], None), cap) && Strict(State([], None), cap)
  {}

  /** The extra page is real: check below the cap, an eager allocation up to it, charge. */
  lemma CapPlusOneReached(p: nat, cap: nat)
    requires 0 < cap < U32 - 1
    ensures var states := [State([], None), State([(p, cap - 1)], None), State([(p, cap - 1)], Some(p)),
                           State([(p, cap)], Some(p)), State([(p, cap + 1)], None)];
            Run(states, [Acquire(p, cap - 1), Check(p), Acquire(p, 1), Charge], cap)
  {
    OneRoot(p, cap - 1, cap);
    OneRoot(p, cap, cap + 1);
  }

  lemma OneRoot(p: nat, v: nat, w: nat)
    ensures CountOf([(p, v)], p) == v && CountOf([], p) == 0
    ensures Record([], p, v) == [(p, v)] && Record([(p, v)], p, w) == [(p, w)]
  {}

  /** What a charge records: one more page exactly when the root has, or can get, an entry.
      With 64 other roots in the table nothing is recorded, so that root is never over. */
  lemma ChargeCounts(t: Table, p: nat, cap: nat)
    requires UniqueKeys(t) && |t| <= SLOTS && CountOf(t, p) <= cap < U32 - 1
    ensures var t' := Record(t, p, Saturating(CountOf(t, p) + 1));
            CountOf(t', p) == CountOf(t, p) + 1 <==> Lookup(t, p).Some? || |t| < SLOTS
    ensures Lookup(t, p).None? && |t| == SLOTS ==> Record(t, p, Saturating(CountOf(t, p) + 1)) == t
  {
    hide Lookup, Put;
    PutKeeps(t, p, Saturating(CountOf(t, p) + 1), SLOTS);
  }
}
