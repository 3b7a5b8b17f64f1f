/** The scheduler's per-core run queues: intrusive lists through the 64 thread slots, with
    a head and a tail per core. Every operation runs under sched_lock. */
module RunQueue {
  import opened Sequences

  const UNUSED := 0
  const RUNNABLE := 1
  const RUNNING := 2
  const SLOTS := 64
  const CORES := 32

  /** A slot index, or -1 for a null pointer. */
  type Ref = int

  /** The k-th entry of a list, null outside it. */
  function At(l: seq<nat>, k: int): Ref { if 0 <= k < |l| then l[k] else -1 }

  // ---- the lists in memory ----

  datatype Links = Links(next: seq<Ref>, head: seq<Ref>, tail: seq<Ref>)

  ghost predicate Shaped(q: seq<seq<nat>>) {
    |q| == CORES && forall c, k :: 0 <= c < CORES && 0 <= k < |q[c]| ==> q[c][k] < SLOTS
  }

  /** No thread occurs twice across all queues. */
  ghost predicate Unique(q: seq<seq<nat>>) {
    forall c, d, i, j :: 0 <= c < |q| && 0 <= d < |q| && 0 <= i < |q[c]| && 0 <= j < |q[d]| && q[c][i] == q[d][j]
      ==> c == d && i == j
  }

  /** The intrusive links spell out the queues, finite and ended by a null. */
  ghost predicate Linked(l: Links, q: seq<seq<nat>>) {
    && Shaped(q) && |l.next| == SLOTS && |l.head| == |l.tail| == CORES
    && (forall c :: 0 <= c < CORES ==> l.head[c] == At(q[c], 0))
    && (forall c :: 0 <= c < CORES ==> l.tail[c] == At(q[c], |q[c]| - 1))
    && (forall c :: 0 <= c < CORES ==> Follows(l.next, q[c]))
  }

  /** One list: each entry's link leads to the next entry, the last one's is null. */
  ghost predicate Follows(next: seq<Ref>, list: seq<nat>) {
    forall k {:trigger next[list[k]]} :: 0 <= k < |list| ==> list[k] < |next| && next[list[k]] == At(list, k + 1)
  }

  ghost predicate Queued(q: seq<seq<nat>>, t: nat) { exists c :: 0 <= c < |q| && t in q[c] }

  lemma AtMost64(q: seq<seq<nat>>, c: nat)
    requires Shaped(q) && Unique(q) && c < CORES
    ensures |q[c]| <= SLOTS
  {
    DistinctBounded(q[c], SLOTS);
  }

  // ---- linking and unlinking ----

  function AppendLinks(l: Links, c: nat, t: nat): Links
    requires |l.next| == SLOTS && |l.head| == |l.tail| == CORES && c < CORES && t < SLOTS && -1 <= l.tail[c] < SLOTS
  {
    var next := l.next[t := -1];
    if l.tail[c] != -1 then Links(next[l.tail[c] := t], l.head, l.tail[c := t])
    else Links(next, l.head[c := t], l.tail[c := t])
  }

  lemma TailInRange(l: Links, q: seq<seq<nat>>, c: nat)
    requires Linked(l, q) && c < CORES
    ensures -1 <= l.tail[c] < SLOTS && -1 <= l.head[c] < SLOTS
  {}

  lemma Appended(l: Links, q: seq<seq<nat>>, c: nat, t: nat)
    requires Linked(l, q) && Unique(q) && c < CORES && t < SLOTS && !Queued(q, t)
    ensures -1 <= l.tail[c] < SLOTS
    ensures Linked(AppendLinks(l, c, t), q[c := q[c] + [t]]) && Unique(q[c := q[c] + [t]])
  {
    TailInRange(l, q, c);
    AppendUnique(q, c, t);
    AppendLinked(l, q, c, t);
  }

  lemma AppendUnique(q: seq<seq<nat>>, c: nat, t: nat)
    requires Unique(q) && c < |q| && !Queued(q, t)
    ensures Unique(q[c := q[c] + [t]])
  {
    var q' := q[c := q[c] + [t]];
    assert forall d :: 0 <= d < |q| ==> t !in q[d];
    forall a, b, i, j | 0 <= a < |q'| && 0 <= b < |q'| && 0 <= i < |q'[a]| && 0 <= j < |q'[b]| && q'[a][i] == q'[b][j]
      ensures a == b && i == j
    {
      Entry(q, c, t, a, i);
      Entry(q, c, t, b, j);
    }
  }

  lemma Entry(q: seq<seq<nat>>, c: nat, t: nat, a: nat, i: nat)
    requires c < |q| && a < |q|
    requires i < |q[c := q[c] + [t]][a]|
    ensures var x := q[c := q[c] + [t]][a][i]; if a == c && i == |q[c]| then x == t else i < |q[a]| && x == q[a][i]
  {}

  lemma AppendLinked(l: Links, q: seq<seq<nat>>, c: nat, t: nat)
    requires Linked(l, q) && Unique(q) && c < CORES && t < SLOTS && !Queued(q, t)
    requires -1 <= l.tail[c] < SLOTS
    ensures Linked(AppendLinks(l, c, t), q[c := q[c] + [t]])
  {
    var q', l' := q[c := q[c] + [t]], AppendLinks(l, c, t);
    hide Unique, Follows;
    forall a, k | 0 <= a < CORES && 0 <= k < |q'[a]| ensures q'[a][k] < SLOTS { Entry(q, c, t, a, k); }
    forall a | 0 <= a < CORES ensures Follows(l'.next, q'[a]) {
      OneList(q, a);
      if a == c {
        FollowsSnoc(l.next, q[c], t);
      } else {
        FollowsAway(l.next, q[a], t, -1);
        if q[c] != [] {
          Elsewhere(q, c, |q[c]| - 1, a);
          FollowsAway(l.next[t := -1], q[a], l.tail[c], t);
        }
      }
    }
  }

  lemma OneList(q: seq<seq<nat>>, a: nat)
    requires Unique(q) && a < |q|
    ensures Distinct(q[a])
  {}

  lemma FollowsAway(next: seq<Ref>, list: seq<nat>, x: nat, v: Ref)
    requires Follows(next, list) && x < |next| && x !in list
    ensures Follows(next[x := v], list)
  {
    hide At;
    forall k | 0 <= k < |list| ensures list[k] < |next| && next[x := v][list[k]] == At(list, k + 1) {
      FollowsStep(next, list, k);
      assert list[k] in list;
    }
  }

  lemma FollowsSnoc(next: seq<Ref>, list: seq<nat>, t: nat)
    requires Follows(next, list) && Distinct(list) && t < |next| && t !in list
    requires list != [] ==> list[|list| - 1] < |next|
    ensures Follows(if list != [] then next[t := -1][list[|list| - 1] := t] else next[t := -1], list + [t])
  {
    var next' := if list != [] then next[t := -1][list[|list| - 1] := t] else next[t := -1];
    var list' := list + [t];
    forall k | 0 <= k < |list'| ensures list'[k] < |next'| && next'[list'[k]] == At(list', k + 1) {
      if k < |list| {
        FollowsStep(next, list, k);
        assert list[k] in list;
      }
    }
  }

  function RemoveLinks(l: Links, c: nat, prev: Ref, t: nat): Links
    requires |l.next| == SLOTS && |l.head| == |l.tail| == CORES && c < CORES && t < SLOTS && -1 <= prev < SLOTS
  {
    var nxt := l.next[t];
    Links((if prev == -1 then l.next else l.next[prev := nxt])[t := -1],
          if prev == -1 then l.head[c := nxt] else l.head,
          if l.tail[c] == t then l.tail[c := prev] else l.tail)
  }

  function Dropped(l: seq<nat>, k: nat): seq<nat>
    requires k < |l|
  {
    l[..k] + l[k + 1..]
  }

  lemma Removed(l: Links, q: seq<seq<nat>>, c: nat, k: nat)
    requires Linked(l, q) && Unique(q) && c < CORES && k < |q[c]|
    ensures q[c][k] < SLOTS && -1 <= At(q[c], k - 1) < SLOTS
    ensures var q' := q[c := Dropped(q[c], k)];
            Linked(RemoveLinks(l, c, At(q[c], k - 1), q[c][k]), q') && Unique(q') && !Queued(q', q[c][k])
  {
    var q' := q[c := Dropped(q[c], k)];
    RemoveUnique(q, c, k);
    RemoveLinked(l, q, c, k);
  }

  lemma Remains(q: seq<seq<nat>>, c: nat, k: nat, a: nat, i: nat)
    requires c < |q| && k < |q[c]| && a < |q| && i < |q[c := Dropped(q[c], k)][a]|
    ensures var j := if a == c && i >= k then i + 1 else i;
            j < |q[a]| && q[c := Dropped(q[c], k)][a][i] == q[a][j]
  {}

  lemma RemoveUnique(q: seq<seq<nat>>, c: nat, k: nat)
    requires Unique(q) && c < |q| && k < |q[c]|
    ensures var q' := q[c := Dropped(q[c], k)]; Unique(q') && !Queued(q', q[c][k])
  {
    var q' := q[c := Dropped(q[c], k)];
    forall a, b, i, j | 0 <= a < |q'| && 0 <= b < |q'| && 0 <= i < |q'[a]| && 0 <= j < |q'[b]| && q'[a][i] == q'[b][j]
      ensures a == b && i == j
    {
      Remains(q, c, k, a, i);
      Remains(q, c, k, b, j);
    }
    forall a, i | 0 <= a < |q'| && 0 <= i < |q'[a]| ensures q'[a][i] != q[c][k] { Remains(q, c, k, a, i); }
  }

  lemma RemoveLinked(l: Links, q: seq<seq<nat>>, c: nat, k: nat)
    requires Linked(l, q) && Unique(q) && c < CORES && k < |q[c]|
    requires q[c][k] < SLOTS && -1 <= At(q[c], k - 1) < SLOTS
    ensures Linked(RemoveLinks(l, c, At(q[c], k - 1), q[c][k]), q[c := Dropped(q[c], k)])
  {
    hide Unique, Follows, At;
    var q' := q[c := Dropped(q[c], k)];
    OneList(q, c);
    LastAt(q[c]);
    FollowsStep(l.next, q[c], k);
    Ends(q[c], k);
    forall a, i | 0 <= a < CORES && 0 <= i < |q'[a]| ensures q'[a][i] < SLOTS { Remains(q, c, k, a, i); }
    forall a | 0 <= a < CORES ensures Follows(RemoveLinks(l, c, At(q[c], k - 1), q[c][k]).next, q'[a]) {
      RemoveNext(l.next, q, c, k, a);
    }
  }

  lemma LastAt(list: seq<nat>)
    ensures list != [] ==> At(list, |list| - 1) == list[|list| - 1]
  {}

  lemma RemoveNext(next: seq<Ref>, q: seq<seq<nat>>, c: nat, k: nat, a: nat)
    requires |next| == SLOTS && |q| == CORES && Unique(q) && c < CORES && k < |q[c]| && a < CORES
    requires q[c][k] < SLOTS && -1 <= At(q[c], k - 1) < SLOTS && Follows(next, q[c]) && Follows(next, q[a])
    ensures var prev, t := At(q[c], k - 1), q[c][k];
            Follows((if prev == -1 then next else next[prev := next[t]])[t := -1], q[c := Dropped(q[c], k)][a])
  {
    hide Unique, Follows;
    if a == c {
      OneList(q, c);
      FollowsDrop(next, q[c], k);
    } else {
      Elsewhere(q, c, k, a);
      if k > 0 {
        Elsewhere(q, c, k - 1, a);
        FollowsAway(next, q[a], q[c][k - 1], next[q[c][k]]);
      }
      FollowsAway(if k > 0 then next[q[c][k - 1] := next[q[c][k]]] else next, q[a], q[c][k], -1);
    }
  }

  lemma Ends(list: seq<nat>, k: nat)
    requires Distinct(list) && k < |list|
    ensures var list' := Dropped(list, k);
            && (At(list, k - 1) == -1 <==> k == 0)
            && At(list', 0) == (if k == 0 then At(list, 1) else At(list, 0))
            && At(list', |list'| - 1) == (if list[|list| - 1] == list[k] then At(list, k - 1) else list[|list| - 1])
  {}

  lemma FollowsStep(next: seq<Ref>, list: seq<nat>, k: nat)
    requires Follows(next, list) && k < |list|
    ensures list[k] < |next| && next[list[k]] == At(list, k + 1)
  {}

  lemma FollowsDrop(next: seq<Ref>, list: seq<nat>, k: nat)
    requires Follows(next, list) && Distinct(list) && k < |list| && list[k] < |next|
    requires k > 0 ==> list[k - 1] < |next|
    ensures Follows((if k == 0 then next else next[list[k - 1] := next[list[k]]])[list[k] := -1], Dropped(list, k))
  {
    var next' := (if k == 0 then next else next[list[k - 1] := next[list[k]]])[list[k] := -1];
    var list' := Dropped(list, k);
    FollowsStep(next, list, k);
    forall i | 0 <= i < |list'| ensures list'[i] < |next'| && next'[list'[i]] == At(list', i + 1) {
      var j := if i < k then i else i + 1;
      FollowsStep(next, list, j);
      assert list'[i] == list[j] != list[k];
      DropAt(list, k, i);
    }
  }

  lemma DropAt(list: seq<nat>, k: nat, i: nat)
    requires k < |list|
    ensures At(Dropped(list, k), i + 1) == At(list, if i + 1 < k then i + 1 else i + 2)
  {}

  lemma Elsewhere(q: seq<seq<nat>>, c: nat, k: nat, a: nat)
    requires Unique(q) && c < |q| && k < |q[c]| && a < |q| && a != c
    ensures q[c][k] !in q[a]
  {}

  // ---- what the scheduler sees ----

  /** The queues as lists, and the thread fields the scheduler uses. */
  datatype View = View(q: seq<seq<nat>>, state: seq<int>, affinity: seq<nat>, tid: seq<int>, current: seq<Ref>)
  {
    ghost predicate Valid() {
      && Shaped(q) && Unique(q) && |state| == |affinity| == |tid| == SLOTS && |current| == CORES
      && forall c :: 0 <= c < CORES ==> -1 <= current[c] < SLOTS
    }
  }

  /** A thread that is already queued, on any core, is left where it is. */
  ghost function Enqueue(v: View, core: int, t: Ref): View
    requires |v.q| == CORES && |v.state| == SLOTS && -1 <= t < SLOTS
  {
    if !(0 <= core < CORES) || t == -1 || Queued(v.q, t) then v
    else v.(q := v.q[core := v.q[core] + [t]], state := v.state[t := RUNNABLE])
  }

  lemma EnqueueValid(v: View, core: int, t: Ref)
    requires v.Valid() && -1 <= t < SLOTS
    ensures Enqueue(v, core, t).Valid()
  {
    if 0 <= core < CORES && t != -1 && !Queued(v.q, t) {
      AppendUnique(v.q, core, t);
      var q' := v.q[core := v.q[core] + [t]];
      forall a, k | 0 <= a < CORES && 0 <= k < |q'[a]| ensures q'[a][k] < SLOTS { Entry(v.q, core, t, a, k); }
    }
  }

  ghost function Dequeue(v: View, core: int): View
    requires v.Valid()
  {
    if !(0 <= core < CORES) || v.q[core] == [] then v else v.(q := v.q[core := Dropped(v.q[core], 0)])
  }

  lemma DropValid(v: View, c: nat, k: nat)
    requires v.Valid() && c < CORES && k < |v.q[c]|
    ensures v.(q := v.q[c := Dropped(v.q[c], k)]).Valid()
  {
    var q' := v.q[c := Dropped(v.q[c], k)];
    RemoveUnique(v.q, c, k);
    forall a, i | 0 <= a < CORES && 0 <= i < |q'[a]| ensures q'[a][i] < SLOTS { Remains(v.q, c, k, a, i); }
  }

  /** A list without an element. */
  function Without(l: seq<nat>, t: nat): seq<nat> {
    if l == [] then [] else if l[0] == t then Without(l[1..], t) else [l[0]] + Without(l[1..], t)
  }

  lemma {:induction false} WithoutAbsent(l: seq<nat>, t: nat)
    requires t !in l
    ensures Without(l, t) == l
  {
    if l != [] { WithoutAbsent(l[1..], t); }
  }

  lemma {:induction false} WithoutDropped(l: seq<nat>, k: nat)
    requires k < |l|
    ensures Without(Dropped(l, k), l[k]) == Without(l, l[k])
  {
    if k == 0 {
      assert Dropped(l, 0) == l[1..];
    } else {
      assert Dropped(l, k)[1..] == Dropped(l[1..], k - 1);
      WithoutDropped(l[1..], k - 1);
    }
  }

  // ---- masks ----

  function TrailingZeros(m: nat): nat
    requires m > 0
  {
    if m % 2 == 1 then 0 else 1 + TrailingZeros(m / 2)
  }

  predicate Bit(m: nat, c: nat) { if c == 0 then m % 2 == 1 else Bit(m / 2, c - 1) }

  function Pow2(n: nat): nat { if n == 0 then 1 else 2 * Pow2(n - 1) }

  /** The lowest set bit. */
  lemma {:induction false} LowestBit(m: nat, n: nat)
    requires 0 < m < Pow2(n)
    ensures TrailingZeros(m) < n && Bit(m, TrailingZeros(m)) && forall c: nat :: c < TrailingZeros(m) ==> !Bit(m, c)
  {
    if m % 2 == 0 {
      LowestBit(m / 2, n - 1);
      forall c: nat | c < TrailingZeros(m) ensures !Bit(m, c) {
        if c > 0 { assert !Bit(m / 2, c - 1); }
      }
    }
  }

  function FirstOnline(mask: nat): nat { if mask == 0 then 0 else TrailingZeros(mask) }

  /** Remainder with the dividend's sign. */
  function Rem(a: int, b: int): int
    requires b > 0
  {
    if a >= 0 then a % b else -((-a) % b)
  }

  /** Where a woken thread goes: its first allowed core or its tid's core, moved to the
      first online core when that one is off. */
  function Target(tid: int, affinity: nat, smp0: int, mask: nat): int {
    var smp := if smp0 <= 0 then 2 else smp0;
    var want := if affinity != 0 then TrailingZeros(affinity) else Rem(tid, smp);
    var core := if want >= smp then 0 else want;
    if mask != 0 && (core < 0 || !Bit(mask, core)) then FirstOnline(mask) else core
  }

  /** With any core online, a woken thread is placed on an online core. */
  lemma TargetOnline(tid: int, affinity: nat, smp: int, mask: nat)
    requires 0 < mask < Pow2(CORES)
    ensures var c := Target(tid, affinity, smp, mask); 0 <= c < CORES && Bit(mask, c)
  {
    LowestBit(mask, CORES);
    var c := Target(tid, affinity, smp, mask);
    if c >= CORES { NoHighBits(mask, CORES, c); }
  }

  /** The core a thread asks for, its lowest affinity bit or else its tid's core, is where it
      goes whenever that core exists and is online. */
  lemma TargetHome(tid: int, affinity: nat, smp: nat, mask: nat, c: nat)
    requires smp > 0 && affinity < Pow2(CORES) && c < smp && (mask == 0 || Bit(mask, c))
    requires if affinity != 0 then Bit(affinity, c) && forall k: nat :: k < c ==> !Bit(affinity, k)
             else tid >= 0 && c == tid % smp
    ensures Target(tid, affinity, smp, mask) == c
  {
    if affinity != 0 {
      LowestBit(affinity, CORES);
      assert TrailingZeros(affinity) == c;
    }
  }

  /** Otherwise, when the core it asks for is off or does not exist, it goes to the lowest online
      core, and to core 0 when none is online. */
  lemma TargetAway(tid: int, affinity: nat, smp: nat, mask: nat, wanted: nat, c: nat)
    requires smp > 0 && affinity < Pow2(CORES) && mask < Pow2(CORES)
    requires if affinity != 0 then Bit(affinity, wanted) && forall k: nat :: k < wanted ==> !Bit(affinity, k)
             else tid >= 0 && wanted == tid % smp
    requires wanted >= smp || (mask != 0 && !Bit(mask, wanted))
    requires if mask == 0 then c == 0 else Bit(mask, c) && forall k: nat :: k < c ==> !Bit(mask, k)
    ensures Target(tid, affinity, smp, mask) == c
  {
    if affinity != 0 {
      LowestBit(affinity, CORES);
      assert TrailingZeros(affinity) == wanted;
    }
    if mask != 0 {
      LowestBit(mask, CORES);
      assert TrailingZeros(mask) == c;
    }
  }

  lemma {:induction false} NoHighBits(m: nat, n: nat, c: nat)
    requires m < Pow2(n) && n <= c
    ensures !Bit(m, c)
  {
    if n > 0 { NoHighBits(m / 2, n - 1, c - 1); } else if c > 0 { NoHighBits(0, 0, c - 1); }
  }

  // ---- yield ----

  /** The current thread goes to the back of its core's queue unless it blocked or is still
      queued; the front of the queue becomes current. */
  ghost function Yield(v: View, core: nat): View
    requires v.Valid() && core < CORES
  {
    var was := v.current[core];
    if was == -1 then v else
    var st := v.state[was];
    var v1 := if st == RUNNING || st == RUNNABLE then Enqueue(v.(state := v.state[was := RUNNABLE]), core, was) else v;
    if v1.q[core] == [] then (if st == RUNNABLE then v1.(state := v1.state[was := RUNNING]) else v1)
    else Dispatch(v1, core)
  }

  /** The front of the queue, if any, becomes current. */
  ghost function Dispatch(v: View, core: nat): View
    requires |v.q| == |v.current| == CORES && |v.state| == SLOTS && core < CORES
    requires v.q[core] != [] ==> v.q[core][0] < SLOTS
  {
    if v.q[core] == [] then v else
    var next := v.q[core][0];
    v.(q := v.q[core := Dropped(v.q[core], 0)], state := v.state[next := RUNNING], current := v.current[core := next])
  }

  /** A yield rotates the core's queue with the yielding thread at its end. */
  lemma YieldRotates(v: View, core: nat)
    requires v.Valid() && core < CORES && v.current[core] != -1 && !Queued(v.q, v.current[core])
    requires v.state[v.current[core]] in {RUNNING, RUNNABLE}
    ensures var w, was := Yield(v, core), v.current[core];
            var line := v.q[core] + [was];
            && w.current == v.current[core := line[0]] && w.q == v.q[core := line[1..]]
            && [w.current[core]] + w.q[core] == line
            && w.state == v.state[was := RUNNABLE][line[0] := RUNNING]
            && w.affinity == v.affinity && w.tid == v.tid
  {
    hide Unique, Queued;
    var was := v.current[core];
    var line := v.q[core] + [was];
    assert Dropped(line, 0) == line[1..];
    assert v.q[core := line][core := line[1..]] == v.q[core := line[1..]];
    assert v.state[was := RUNNABLE][was := RUNNABLE] == v.state[was := RUNNABLE];
  }

  /** A thread that can run and is not queued goes to the end of its core's line, and the first of
      the line runs. */
  ghost predicate Rotated(v: View, w: View, core: nat) {
    v.Valid() && w.Valid() && core < CORES &&
    var was := v.current[core];
    was != -1 && v.state[was] in {RUNNING, RUNNABLE} && !Queued(v.q, was) ==>
      && w.current[core] >= 0 && [w.current[core]] + w.q[core] == v.q[core] + [was]
      && w.state == v.state[was := RUNNABLE][w.current[core] := RUNNING]
  }

  /** A yield of a thread that is queued already only takes the front of the queue; one that
      cannot run is not put back. */
  lemma YieldHandsOver(v: View, core: nat)
    requires v.Valid() && core < CORES && v.current[core] != -1
    requires Queued(v.q, v.current[core]) || v.state[v.current[core]] !in {RUNNING, RUNNABLE}
    ensures var w, line := Yield(v, core), v.q[core];
            var was := v.current[core];
            var runs := v.state[was] in {RUNNING, RUNNABLE};
            && (line != [] ==>
                  && w.current == v.current[core := line[0]] && w.q == v.q[core := line[1..]]
                  && w.state == (if runs then v.state[was := RUNNABLE] else v.state)[line[0] := RUNNING])
            && (line == [] ==>
                  && w.current == v.current && w.q == v.q
                  && w.state == if !runs then v.state
                                else v.state[was := if v.state[was] == RUNNING then RUNNABLE else RUNNING])
            && w.affinity == v.affinity && w.tid == v.tid
  {
    hide Unique, Queued;
    if v.q[core] != [] { assert Dropped(v.q[core], 0) == v.q[core][1..]; }
  }

  /** The thread is on a queue or runs on a core. */
  ghost predicate Present(v: View, t: nat) { Queued(v.q, t) || t in v.current }

  /** A yield neither loses nor invents a thread, unless the one that yields cannot run. */
  lemma YieldConserves(v: View, core: nat, t: nat)
    requires v.Valid() && core < CORES
    requires v.current[core] == -1 || v.state[v.current[core]] in {RUNNING, RUNNABLE} || Queued(v.q, v.current[core])
    ensures Present(Yield(v, core), t) <==> Present(v, t)
  {
    hide Unique, Queued, Yield;
    var was := v.current[core];
    if was == -1 {
      YieldIdle(v, core);
    } else if Queued(v.q, was) {
      YieldHandsOver(v, core);
      assert v.q[core := v.q[core]] == v.q;
      if v.q[core] != [] { Handed(v, Yield(v, core), core, v.q[core], t); }
    } else {
      YieldRotates(v, core);
      Handed(v, Yield(v, core), core, v.q[core] + [was], t);
    }
  }

  lemma YieldIdle(v: View, core: nat)
    requires v.Valid() && core < CORES && v.current[core] == -1
    ensures Yield(v, core) == v
  {}

  /** Passing the front of a line to the core keeps everybody who was in it or running. */
  lemma Handed(v: View, w: View, core: nat, line: seq<nat>, t: nat)
    requires v.Valid() && core < CORES && line != [] && (v.q[core] == line || v.q[core] + [v.current[core]] == line)
    requires w.current == v.current[core := line[0]] && w.q == v.q[core := line[1..]]
    requires v.current[core] == -1 || v.current[core] in line || Queued(v.q[core := line], v.current[core])
    ensures Present(w, t) <==> Present(v, t)
  {
    hide Unique;
    assert line == [line[0]] + line[1..];
    assert t in line <==> t == line[0] || t in line[1..];
    InQueues(v.q, core, line, t);
    InQueues(v.q, core, line[1..], t);
    InQueues(v.q, core, v.q[core], t);
    assert v.q[core := v.q[core]] == v.q;
    InCurrent(v.current, core, line[0], t);
    InCurrent(v.current, core, v.current[core], t);
    assert v.current[core := v.current[core]] == v.current;
  }

  lemma InQueues(q: seq<seq<nat>>, c: nat, list: seq<nat>, t: nat)
    requires c < |q|
    ensures Queued(q[c := list], t) <==> t in list || exists d :: 0 <= d < |q| && d != c && t in q[d]
  {
    if exists d :: 0 <= d < |q| && d != c && t in q[d] {
      var d :| 0 <= d < |q| && d != c && t in q[d];
      assert t in q[c := list][d];
    }
    if t in list { assert t in q[c := list][c]; }
  }

  lemma InCurrent(current: seq<Ref>, c: nat, x: Ref, t: nat)
    requires c < |current|
    ensures t in current[c := x] <==> t == x || exists d :: 0 <= d < |current| && d != c && current[d] == t
  {
    var now := current[c := x];
    if t == x { assert now[c] == t; }
    if exists d :: 0 <= d < |current| && d != c && current[d] == t {
      var d :| 0 <= d < |current| && d != c && current[d] == t;
      assert now[d] == t;
    }
  }

  // ---- rebalancing ----

  predicate Eligible(v: View, i: nat, smp: nat)
    requires |v.state| == |v.tid| == |v.affinity| == SLOTS && i < SLOTS && smp > 0
  {
    v.state[i] != UNUSED && 2 <= v.tid[i] < 10 && v.affinity[i] != Pow2(v.tid[i] % smp)
  }

  /** The first core below smp whose queue holds t, or smp. */
  function Holder(q: seq<seq<nat>>, t: nat, smp: nat, c: nat): nat
    requires smp <= |q| && c <= smp
    decreases smp - c
  {
    if c == smp || t in q[c] then c else Holder(q, t, smp, c + 1)
  }

  /** A queued small-tid thread goes to the back of its home queue, its affinity unchanged;
      one that is not queued below smp only has its affinity rewritten. */
  ghost function RebalanceOne(v: View, i: nat, smp: nat): View
    requires v.Valid() && i < SLOTS && 1 <= smp <= CORES
  {
    if !Eligible(v, i, smp) then v else
    var target := v.tid[i] % smp;
    var h := Holder(v.q, i, smp, 0);
    if v.state[i] == RUNNABLE && h < smp
    then Enqueue(v.(q := v.q[h := Without(v.q[h], i)]), target, i)
    else v.(affinity := v.affinity[i := Pow2(target)])
  }

  // ---- core down ----

  /** x at the listed slots, unchanged elsewhere. */
  ghost function Marked<T>(s: seq<T>, list: seq<nat>, x: T): seq<T> {
    seq(|s|, i requires 0 <= i < |s| => if i in list then x else s[i])
  }

  lemma MarkedSnoc<T>(s: seq<T>, list: seq<nat>, k: nat, x: T)
    requires k < |list| && list[k] < |s|
    ensures Marked(s, list[..k + 1], x) == Marked(s, list[..k], x)[list[k] := x]
  {
    assert list[..k + 1] == list[..k] + [list[k]];
  }

  /** The first n threads of `core`'s queue have joined the back of `dst`'s, runnable and
      bound to it; nothing runs on `core`. */
  ghost function Migrated(v: View, core: nat, dst: nat, n: nat): View
    requires |v.q| == |v.current| == CORES && core < CORES && dst < CORES && n <= |v.q[core]|
  {
    var src, q := v.q[core][..n], v.q[core := []];
    v.(q := q[dst := q[dst] + src], state := Marked(v.state, src, RUNNABLE),
       affinity := Marked(v.affinity, src, Pow2(dst)), current := v.current[core := -1])
  }

  /** Hotplug: everything queued on the core that went down moves to the first online core. */
  ghost function CoreDown(v: View, core: nat, mask: nat): View
    requires v.Valid() && mask < Pow2(CORES)
  {
    if core >= CORES || core == 0 then v else
    OnlineInRange(mask);
    Migrated(v, core, FirstOnline(mask), |v.q[core]|)
  }

  lemma OnlineInRange(mask: nat)
    requires mask < Pow2(CORES)
    ensures FirstOnline(mask) < CORES
  {
    if mask != 0 { LowestBit(mask, CORES); }
  }

  ghost function RebalanceAll(v: View, smp: nat, n: nat): (w: View)
    requires v.Valid() && 1 <= smp <= CORES && n <= SLOTS
    ensures w.Valid()
  {
    if n == 0 then v else
    var w := RebalanceAll(v, smp, n - 1);
    RebalanceOneValid(w, n - 1, smp);
    RebalanceOne(w, n - 1, smp)
  }

  lemma {:induction false} HolderExact(q: seq<seq<nat>>, t: nat, smp: nat, c: nat)
    requires smp <= |q| && c <= smp
    ensures var h := Holder(q, t, smp, c);
            c <= h <= smp && (h < smp ==> t in q[h]) && forall d :: c <= d < h ==> t !in q[d]
    decreases smp - c
  {
    if c < smp && t !in q[c] { HolderExact(q, t, smp, c + 1); }
  }

  lemma HolderIs(q: seq<seq<nat>>, t: nat, smp: nat, c: nat)
    requires smp <= |q| && c <= smp && (c < smp ==> t in q[c]) && forall d :: 0 <= d < c ==> t !in q[d]
    ensures Holder(q, t, smp, 0) == c
  {
    HolderExact(q, t, smp, 0);
  }

  lemma WithoutOnly(l: seq<nat>, k: nat)
    requires Distinct(l) && k < |l|
    ensures Without(l, l[k]) == Dropped(l, k)
  {
    WithoutDropped(l, k);
    WithoutAbsent(Dropped(l, k), l[k]);
  }

  lemma UnqueueValid(v: View, h: nat, t: nat)
    requires v.Valid() && h < CORES && t in v.q[h]
    ensures v.(q := v.q[h := Without(v.q[h], t)]).Valid() && !Queued(v.q[h := Without(v.q[h], t)], t)
  {
    hide Unique, Without;
    var k :| 0 <= k < |v.q[h]| && v.q[h][k] == t;
    OneList(v.q, h);
    WithoutOnly(v.q[h], k);
    DropValid(v, h, k);
    RemoveUnique(v.q, h, k);
  }

  lemma RebalanceOneValid(v: View, i: nat, smp: nat)
    requires v.Valid() && i < SLOTS && 1 <= smp <= CORES
    ensures RebalanceOne(v, i, smp).Valid()
  {
    hide Unique, Without, Pow2, Enqueue;
    var h := Holder(v.q, i, smp, 0);
    HolderExact(v.q, i, smp, 0);
    if Eligible(v, i, smp) && v.state[i] == RUNNABLE && h < smp {
      UnqueueValid(v, h, i);
      EnqueueValid(v.(q := v.q[h := Without(v.q[h], i)]), v.tid[i] % smp, i);
    }
  }

  ghost function Drop(v: View, t: nat): View {
    v.(q := seq(|v.q|, c requires 0 <= c < |v.q| => Without(v.q[c], t)))
  }

  function FirstUnused(state: seq<int>, i: nat): (r: Ref)
    requires i <= |state|
    ensures r == -1 || (i <= r < |state| && state[r] == UNUSED)
    ensures forall j :: i <= j < (if r == -1 then |state| else r) ==> state[j] != UNUSED
    decreases |state| - i
  {
    if i == |state| then -1 else if state[i] == UNUSED then i else FirstUnused(state, i + 1)
  }

  lemma HeadAt(l: Links, q: seq<seq<nat>>, c: nat)
    requires Linked(l, q) && c < CORES
    ensures |l.head| == |l.tail| == CORES && |l.next| == SLOTS && |q| == CORES && l.head[c] == At(q[c], 0)
  {}

  lemma NextAt(l: Links, q: seq<seq<nat>>, c: nat, k: nat)
    requires Linked(l, q) && c < CORES && |q| == CORES && k < |q[c]|
    ensures q[c][k] < SLOTS == |l.next| && l.next[q[c][k]] == At(q[c], k + 1)
  {
    FollowsStep(l.next, q[c], k);
  }

  /** Popping the front is removing entry 0. */
  lemma PopIsRemove(l: Links, q: seq<seq<nat>>, c: nat)
    requires Linked(l, q) && Unique(q) && c < CORES && q[c] != []
    ensures var t := q[c][0]; t < SLOTS && l.head[c] == t
    ensures var t := q[c][0]; var nxt := l.next[t];
            Linked(Links(l.next[t := -1], l.head[c := nxt], if nxt == -1 then l.tail[c := -1] else l.tail),
                   q[c := Dropped(q[c], 0)])
  {
    hide Unique;
    Removed(l, q, c, 0);
    OneList(q, c);
    FollowsStep(l.next, q[c], 0);
    PopTail(q[c]);
    var t := q[c][0];
    var nxt := l.next[t];
    assert RemoveLinks(l, c, -1, t) ==
      Links(l.next[t := -1], l.head[c := nxt], if nxt == -1 then l.tail[c := -1] else l.tail);
  }

  lemma PopTail(list: seq<nat>)
    requires list != [] && Distinct(list)
    ensures At(list, 1) == -1 <==> list[|list| - 1] == list[0]
  {}

  // ---- the scheduler ----

  class Scheduler {
    var next: seq<Ref>
    var head: seq<Ref>
    var tail: seq<Ref>
    var state: seq<int>
    var affinity: seq<nat>
    var tid: seq<int>
    var current: seq<Ref>
    ghost var q: seq<seq<nat>>

    ghost function Now(): View reads this { View(q, state, affinity, tid, current) }

    /** All 32 queues are finite and acyclic, end at their tails and share no thread. */
    ghost predicate Valid() reads this { Now().Valid() && Linked(Links(next, head, tail), q) }

    constructor ()
      ensures Valid() && Now() ==
              View(seq(CORES, _ => []), seq(SLOTS, _ => 0), seq(SLOTS, _ => 0), seq(SLOTS, _ => 0), seq(CORES, _ => -1))
    {
      next, head, tail := seq(SLOTS, _ => -1), seq(CORES, _ => -1), seq(CORES, _ => -1);
      state, affinity, tid, current := seq(SLOTS, _ => 0), seq(SLOTS, _ => 0), seq(SLOTS, _ => 0), seq(CORES, _ => -1);
      q := seq(CORES, _ => []);
    }

    /** The scan gives up after 65 nodes of a queue; no queue is that long. */
    method QueuedAnywhere(t: Ref) returns (found: bool)
      requires Valid() && -1 <= t < SLOTS
      ensures found <==> t >= 0 && Queued(q, t)
    {
      hide Unique;
      for c := 0 to CORES
        invariant forall d :: 0 <= d < c ==> t !in q[d]
      {
        var n := head[c];
        var k := 0;
        AtMost64(q, c);
        while n != -1 && k <= SLOTS
          invariant k <= |q[c]| && n == At(q[c], k)
          invariant t !in q[c][..k]
          decreases SLOTS + 1 - k
        {
          if n == t { assert t in q[c]; return true; }
          FollowsStep(next, q[c], k);
          n := next[n];
          k := k + 1;
        }
        assert q[c][..k] == q[c];
      }
      return false;
    }

    method EnqueueRunCore(core: int, t: Ref)
      requires Valid() && -1 <= t < SLOTS
      modifies this
      ensures Valid() && Now() == Enqueue(old(Now()), core, t)
      ensures 0 <= core < CORES && t >= 0 && !old(Queued(q, t)) ==>
                q == old(q)[core := old(q)[core] + [t]] && state == old(state)[t := RUNNABLE]
      ensures (0 <= core < CORES && t >= 0 ==> Queued(q, t)) && current == old(current)
    {
      hide Unique, Linked;
      if core < 0 || core >= CORES { return; }
      if t == -1 { return; }
      var queued := QueuedAnywhere(t);
      if queued { return; }
      hide Queued;
      EnqueueValid(Now(), core, t);
      Append(core, t);
      state := state[t := RUNNABLE];
      InQueues(old(q), core, q[core], t);
    }

    /** Links a thread that is on no queue to the end of one. */
    method Append(c: nat, t: nat)
      requires Valid() && c < CORES && t < SLOTS && !Queued(q, t)
      modifies this
      ensures Valid() && Now() == old(Now()).(q := old(q)[c := old(q)[c] + [t]])
      ensures |old(next)| == SLOTS && |old(head)| == |old(tail)| == CORES && -1 <= old(tail)[c] < SLOTS
      ensures Links(next, head, tail) == AppendLinks(old(Links(next, head, tail)), c, t)
    {
      hide Unique;
      Appended(Links(next, head, tail), q, c, t);
      EnqueueValid(Now(), c, t);
      next := next[t := -1];
      if tail[c] != -1 { next := next[tail[c] := t]; } else { head := head[c := t]; }
      tail := tail[c := t];
      q := q[c := q[c] + [t]];
    }

    method DequeueRunCore(core: int) returns (t: Ref)
      requires Valid()
      modifies this
      ensures Valid() && Now() == Dequeue(old(Now()), core)
      ensures t == if 0 <= core < CORES then At(old(q)[core], 0) else -1
      ensures t >= 0 ==> old(q)[core] == [t] + q[core]
    {
      hide Unique;
      if core < 0 || core >= CORES { return -1; }
      t := head[core];
      if t == -1 { return; }
      PopIsRemove(Links(next, head, tail), q, core);
      DropValid(Now(), core, 0);
      head := head[core := next[t]];
      if head[core] == -1 { tail := tail[core := -1]; }
      next := next[t := -1];
      q := q[core := Dropped(q[core], 0)];
    }

    /** Walks one queue, unlinking t where it meets it. */
    method DropFrom(c: nat, t: nat)
      requires Valid() && c < CORES && t < SLOTS
      modifies this
      ensures Valid() && Now() == old(Now()).(q := old(q)[c := Without(old(q)[c], t)])
    {
      hide Unique, Linked;
      ghost var v := Now();
      HeadAt(Links(next, head, tail), q, c);
      var prev, n := -1, head[c];
      ghost var k := 0;
      while n != -1
        invariant Valid() && Now() == v.(q := v.q[c := q[c]]) && Without(q[c], t) == Without(v.q[c], t)
        invariant k <= |q[c]| && n == At(q[c], k) && prev == At(q[c], k - 1) && t !in q[c][..k]
        decreases |q[c]| - k
      {
        ghost var list := q[c];
        NextAt(Links(next, head, tail), q, c, k);
        var nxt := next[n];
        if n == t {
          Unlink(c, prev, t, k);
          WithoutDropped(list, k);
          assert q[c] == Dropped(list, k) && q[c][..k] == list[..k];
          n := nxt;
        } else {
          prev := n;
          n := nxt;
          k := k + 1;
        }
      }
      assert q[c][..k] == q[c];
      WithoutAbsent(q[c], t);
    }

    /** Takes the k-th entry, t, out from behind prev. */
    method Unlink(c: nat, prev: Ref, t: nat, ghost k: nat)
      requires Valid() && c < CORES && k < |q[c]| && t == q[c][k] && prev == At(q[c], k - 1)
      modifies this
      ensures Valid() && Now() == old(Now()).(q := old(q)[c := Dropped(old(q)[c], k)]) && !Queued(q, t)
    {
      hide Unique;
      Removed(Links(next, head, tail), q, c, k);
      DropValid(Now(), c, k);
      var nxt := next[t];
      if prev == -1 { head := head[c := nxt]; } else { next := next[prev := nxt]; }
      if tail[c] == t { tail := tail[c := prev]; }
      next := next[t := -1];
      q := q[c := Dropped(q[c], k)];
    }

    /** Removes every link to a slot. */
    method DequeueSpecific(t: nat)
      requires Valid() && t < SLOTS
      modifies this
      ensures Valid() && Now() == Drop(old(Now()), t)
    {
      hide Unique, Linked, Without;
      ghost var v := Now();
      for c := 0 to CORES
        invariant Valid() && Now() == v.(q := q)
        invariant forall d :: 0 <= d < CORES ==> q[d] == (if d < c then Without(v.q[d], t) else v.q[d])
      {
        DropFrom(c, t);
      }
      assert q == Drop(v, t).q;
    }

    /** The first unused slot, off every queue; null exactly when all 64 are in use. */
    method AllocThread() returns (t: Ref)
      requires Valid()
      modifies this
      ensures Valid() && t == FirstUnused(old(state), 0)
      ensures Now() == if t >= 0 then Drop(old(Now()), t) else old(Now())
    {
      hide Unique, Linked, Without;
      for i := 0 to SLOTS
        invariant Now() == old(Now()) && Valid() && FirstUnused(state, 0) == FirstUnused(state, i)
      {
        if state[i] == UNUSED {
          DequeueSpecific(i);
          return i;
        }
      }
      return -1;
    }

    method EnqueueRun(t: nat, smp: int, mask: nat)
      requires Valid() && t < SLOTS && mask < Pow2(CORES)
      modifies this
      ensures Valid() && Now() == Enqueue(old(Now()), Target(old(tid)[t], old(affinity)[t], smp, mask), t)
    {
      EnqueueRunCore(Target(tid[t], affinity[t], smp, mask), t);
    }

    method SchedYield(core: nat)
      requires Valid() && core < CORES
      modifies this
      ensures Valid() && Now() == Yield(old(Now()), core)
      ensures Rotated(old(Now()), Now(), core)
    {
      hide Unique, Linked, Queued, Enqueue, Dispatch;
      var was := current[core];
      if was == -1 { return; }
      if state[was] in {RUNNING, RUNNABLE} && !Queued(q, was) { YieldRotates(Now(), core); }
      var st := state[was];
      PutBack(core, was);
      TakeNext(core, st);
    }

    /** The front of the queue takes over; with nobody queued a spinning thread goes on. */
    method TakeNext(core: nat, st: int)
      requires Valid() && core < CORES && current[core] != -1
      modifies this
      ensures Valid()
      ensures Now() == var v := old(Now());
                       if v.q[core] != [] then Dispatch(v, core)
                       else if st == RUNNABLE then v.(state := v.state[v.current[core] := RUNNING]) else v
    {
      hide Unique, Linked, Queued;
      var was := current[core];
      var front := DequeueRunCore(core);
      if front == -1 {
        if st != RUNNABLE { return; }
        front := DequeueRunCore(core);
        if front == -1 { front := was; }
      }
      if front == was {
        state := state[was := RUNNING];
        assert current[core := front] == current;
        return;
      }
      state := state[front := RUNNING];
      current := current[core := front];
    }

    /** The thread that yields joins its core's queue, unless it cannot run or is queued. */
    method PutBack(core: nat, was: nat)
      requires Valid() && core < CORES && was < SLOTS
      modifies this
      ensures Valid() && Now() == var v := old(Now());
              if v.state[was] in {RUNNING, RUNNABLE} then Enqueue(v.(state := v.state[was := RUNNABLE]), core, was)
                else v
      ensures current == old(current)
    {
      hide Unique, Linked, Queued;
      var st := state[was];
      if st == RUNNING {
        state := state[was := RUNNABLE];
        EnqueueRunCore(core, was);
      } else if st == RUNNABLE {
        assert state[was := RUNNABLE] == state;
        var queued := QueuedAnywhere(was);
        if !queued { EnqueueRunCore(core, was); }
      }
    }

    /** One attempt to leave a blocking thread: the front of the queue takes over, if any. */
    method SchedBlock(core: nat) returns (switched: bool)
      requires Valid() && core < CORES
      modifies this
      ensures Valid() && Now() == Dispatch(old(Now()), core) && switched == (old(q)[core] != [])
      ensures switched ==> old(q)[core] == [current[core]] + q[core] && state[current[core]] == RUNNING
    {
      hide Unique, Linked;
      var front := DequeueRunCore(core);
      if front == -1 { return false; }
      state := state[front := RUNNING];
      current := current[core := front];
      return true;
    }

    /** Finds t on one queue and unlinks it. */
    method UnlinkFrom(c: nat, t: nat) returns (found: bool)
      requires Valid() && c < CORES && t < SLOTS
      modifies this
      ensures Valid() && found == (t in old(q)[c])
      ensures Now() == if found then old(Now()).(q := old(q)[c := Without(old(q)[c], t)]) else old(Now())
    {
      hide Unique, Linked, Without;
      ghost var v := Now();
      HeadAt(Links(next, head, tail), q, c);
      var prev, n := -1, head[c];
      ghost var k := 0;
      while n != -1
        invariant Valid() && Now() == v
        invariant k <= |q[c]| && n == At(q[c], k) && prev == At(q[c], k - 1) && t !in q[c][..k]
        decreases |q[c]| - k
      {
        if n == t {
          OneList(q, c);
          WithoutOnly(q[c], k);
          Unlink(c, prev, t, k);
          return true;
        }
        NextAt(Links(next, head, tail), q, c, k);
        prev := n;
        n := next[n];
        k := k + 1;
      }
      assert q[c][..k] == q[c];
      return false;
    }

    method RebalanceThread(i: nat, smp: nat)
      requires Valid() && i < SLOTS && 1 <= smp <= CORES
      modifies this
      ensures Valid() && Now() == RebalanceOne(old(Now()), i, smp)
    {
      hide Unique, Linked, Without, Queued, Pow2;
      if state[i] == UNUSED { return; }
      if tid[i] < 2 || tid[i] >= 10 { return; }
      var target := tid[i] % smp;
      var want := Pow2(target);
      if affinity[i] == want { return; }
      if state[i] == RUNNABLE {
        for c := 0 to smp
          invariant Valid() && Now() == old(Now())
          invariant forall d :: 0 <= d < c ==> i !in q[d]
        {
          var found := UnlinkFrom(c, i);
          if found {
            HolderIs(old(q), i, smp, c);
            EnqueueRunCore(target, i);
            return;
          }
        }
        HolderIs(q, i, smp, smp);
      }
      affinity := affinity[i := want];
    }

    method Rebalance(smp: nat)
      requires Valid() && 1 <= smp <= CORES
      modifies this
      ensures Valid() && Now() == RebalanceAll(old(Now()), smp, SLOTS)
    {
      hide Unique, Linked, RebalanceOne;
      for i := 0 to SLOTS
        invariant Valid() && Now() == RebalanceAll(old(Now()), smp, i)
      {
        RebalanceThread(i, smp);
      }
    }

    method OnCoreDown(core: nat, mask: nat)
      requires Valid() && mask < Pow2(CORES)
      modifies this
      ensures Valid() && Now() == CoreDown(old(Now()), core, mask)
    {
      hide Unique, Linked, Pow2, Queued;
      if core >= CORES || core == 0 { return; }
      OnlineInRange(mask);
      var dst := FirstOnline(mask);
      ghost var v := Now();
      ghost var src := q[core];
      HeadAt(Links(next, head, tail), q, core);
      var n := head[core];
      head, tail, current := head[core := -1], tail[core := -1], current[core := -1];
      q := q[core := []];
      ghost var k := 0;
      Emptied(Links(next, old(head), old(tail)), v, core);
      MigrateNone(v, core, dst);
      while n != -1
        invariant Valid() && k <= |src| && n == At(src, k) && Now() == Migrated(v, core, dst, k)
        invariant Detached(next, q, src, k)
        decreases |src| - k
      {
        DetachedStep(Links(next, head, tail), q, src, k, dst);
        MigrateOne(v, core, dst, k);
        var nxt := next[n];
        state := state[n := RUNNABLE];
        affinity := affinity[n := Pow2(dst)];
        Append(dst, n);
        n := nxt;
        k := k + 1;
      }
    }
  }

  /** The rest of a detached list: still chained, on no queue. */
  ghost predicate Detached(next: seq<Ref>, q: seq<seq<nat>>, src: seq<nat>, k: nat)
  {
    && k <= |src| && Distinct(src) && Follows(next, src[k..])
    && forall j :: k <= j < |src| ==> !Queued(q, src[j])
  }

  lemma Emptied(l: Links, v: View, core: nat)
    requires v.Valid() && Linked(l, v.q) && core < CORES
    ensures |l.head| == |l.tail| == CORES
    ensures var q := v.q[core := []];
            && Linked(Links(l.next, l.head[core := -1], l.tail[core := -1]), q) && Shaped(q) && Unique(q)
            && Detached(l.next, q, v.q[core], 0)
  {
    var q := v.q[core := []];
    EmptiedUnique(v.q, core);
    OneList(v.q, core);
    assert v.q[core][0..] == v.q[core];
    hide Unique, Follows;
    assert forall a :: 0 <= a < CORES ==> q[a] == (if a == core then [] else v.q[a]);
    forall a | 0 <= a < CORES ensures Follows(l.next, q[a]) {
      if a == core { FollowsEmpty(l.next); }
    }
  }

  lemma FollowsEmpty(next: seq<Ref>)
    ensures Follows(next, [])
  {}

  lemma EmptiedUnique(q: seq<seq<nat>>, core: nat)
    requires Unique(q) && core < |q|
    ensures Unique(q[core := []]) && forall j :: 0 <= j < |q[core]| ==> !Queued(q[core := []], q[core][j])
  {
    var q' := q[core := []];
    forall j | 0 <= j < |q[core]| ensures !Queued(q', q[core][j]) {
      var t := q[core][j];
      forall a | 0 <= a < |q| ensures t !in q'[a] {
        if a != core { Elsewhere(q, core, j, a); }
      }
    }
  }

  /** Appending the first detached thread leaves the rest detached. */
  lemma DetachedStep(l: Links, q: seq<seq<nat>>, src: seq<nat>, k: nat, dst: nat)
    requires Linked(l, q) && Detached(l.next, q, src, k) && k < |src| && dst < CORES
    ensures src[k] < SLOTS && |l.next| == SLOTS && l.next[src[k]] == At(src, k + 1)
    ensures |l.head| == |l.tail| == CORES && |q| == CORES && -1 <= l.tail[dst] < SLOTS
    ensures Detached(AppendLinks(l, dst, src[k]).next, q[dst := q[dst] + [src[k]]], src, k + 1)
  {
    hide Follows;
    TailInRange(l, q, dst);
    FollowsStep(l.next, src[k..], 0);
    FollowsTail(l.next, src, k);
    var t, rest := src[k], src[k + 1..];
    FollowsAway(l.next, rest, t, -1);
    if q[dst] != [] {
      assert l.tail[dst] in q[dst];
      assert l.tail[dst] !in rest;
      FollowsAway(l.next[t := -1], rest, l.tail[dst], t);
    }
    DetachedRest(q, src, k, dst);
  }

  lemma FollowsTail(next: seq<Ref>, src: seq<nat>, k: nat)
    requires k < |src| && Follows(next, src[k..])
    ensures Follows(next, src[k + 1..])
  {
    var rest := src[k + 1..];
    forall j | 0 <= j < |rest| ensures rest[j] < |next| && next[rest[j]] == At(rest, j + 1) {
      FollowsStep(next, src[k..], j + 1);
    }
  }

  lemma DetachedRest(q: seq<seq<nat>>, src: seq<nat>, k: nat, dst: nat)
    requires Distinct(src) && k < |src| && dst < |q| && forall j :: k <= j < |src| ==> !Queued(q, src[j])
    ensures forall j :: k + 1 <= j < |src| ==> !Queued(q[dst := q[dst] + [src[k]]], src[j])
  {
    var q' := q[dst := q[dst] + [src[k]]];
    forall j | k + 1 <= j < |src| ensures !Queued(q', src[j]) {
      var t := src[j];
      assert !Queued(q, t);
      forall a | 0 <= a < |q| ensures t !in q'[a] {}
    }
  }

  lemma MigrateNone(v: View, core: nat, dst: nat)
    requires v.Valid() && core < CORES && dst < CORES
    ensures Migrated(v, core, dst, 0) == v.(q := v.q[core := []], current := v.current[core := -1])
  {
    var q := v.q[core := []];
    assert v.q[core][..0] == [];
    assert q[dst] + [] == q[dst];
    assert q[dst := q[dst] + []] == q;
    assert Marked(v.state, [], RUNNABLE) == v.state && Marked(v.affinity, [], Pow2(dst)) == v.affinity;
  }

  lemma MigrateOne(v: View, core: nat, dst: nat, k: nat)
    requires v.Valid() && core < CORES && dst < CORES && k < |v.q[core]|
    ensures var t, w := v.q[core][k], Migrated(v, core, dst, k);
            && t < SLOTS == |w.state| == |w.affinity| && |w.q| == CORES
            && Migrated(v, core, dst, k + 1) == w.(q := w.q[dst := w.q[dst] + [t]],
                 state := w.state[t := RUNNABLE], affinity := w.affinity[t := Pow2(dst)])
  {
    hide Unique, Pow2;
    var q, src, t := v.q[core := []], v.q[core], v.q[core][k];
    assert src[..k + 1] == src[..k] + [t];
    assert q[dst] + src[..k + 1] == q[dst] + src[..k] + [t];
    MarkedSnoc(v.state, src, k, RUNNABLE);
    MarkedSnoc(v.affinity, src, k, Pow2(dst));
  }

  /** With its own bit cleared, a core's queue is appended, in order, to that of the first
      online core; every other queue is untouched. */
  lemma CoreDownAppends(v: View, core: nat, mask: nat)
    requires v.Valid() && 0 < core < CORES && mask < Pow2(CORES) && !Bit(mask, core)
    ensures var w, dst := CoreDown(v, core, mask), FirstOnline(mask);
            && dst != core && dst < CORES && (mask != 0 ==> Bit(mask, dst))
            && w.q[dst] == v.q[dst] + v.q[core] && w.q[core] == []
            && (forall c :: 0 <= c < CORES && c != dst && c != core ==> w.q[c] == v.q[c])
            && (forall k :: 0 <= k < |v.q[core]| ==>
                  w.affinity[v.q[core][k]] == Pow2(dst) && w.state[v.q[core][k]] == RUNNABLE)
            && (forall t :: 0 <= t < SLOTS && t !in v.q[core] ==>
                  w.affinity[t] == v.affinity[t] && w.state[t] == v.state[t])
            && w.tid == v.tid && w.current == v.current[core := -1]
  {
    hide Unique, Pow2;
    OnlineInRange(mask);
    if mask != 0 { LowestBit(mask, CORES); }
    assert v.q[core][..|v.q[core]|] == v.q[core];
  }

  lemma Membership(l: seq<nat>, x: nat, t: nat)
    ensures t in Without(l, x) <==> t != x && t in l
  {
    if l != [] { Membership(l[1..], x, t); }
  }

  /** Rebalancing neither loses nor invents queued threads. */
  lemma {:induction false} RebalanceConserves(v: View, smp: nat, n: nat, t: nat)
    requires v.Valid() && 1 <= smp <= CORES && n <= SLOTS
    ensures Queued(RebalanceAll(v, smp, n).q, t) <==> Queued(v.q, t)
  {
    hide Unique, RebalanceOne, Queued;
    if n > 0 {
      RebalanceConserves(v, smp, n - 1, t);
      RebalanceOneConserves(RebalanceAll(v, smp, n - 1), n - 1, smp, t);
    }
  }

  lemma RebalanceOneConserves(v: View, i: nat, smp: nat, t: nat)
    requires v.Valid() && 1 <= smp <= CORES && i < SLOTS
    ensures Queued(RebalanceOne(v, i, smp).q, t) <==> Queued(v.q, t)
  {
    hide Unique, Without, Pow2;
    var h := Holder(v.q, i, smp, 0);
    if Eligible(v, i, smp) && v.state[i] == RUNNABLE && h < smp {
      RebalanceMoved(v, i, smp);
      HolderExact(v.q, i, smp, 0);
      var q1 := v.q[h := Without(v.q[h], i)];
      var q2 := RebalanceOne(v, i, smp).q;
      Membership(v.q[h], i, t);
      if t == i {
        assert t in v.q[h] && t in q2[v.tid[i] % smp];
      } else {
        assert forall c :: 0 <= c < CORES ==> (t in v.q[c] <==> t in q1[c]);
        assert forall c :: 0 <= c < CORES ==> (t in q1[c] <==> t in q2[c]);
      }
    }
  }

  /** A misplaced thread lands at the back of its home queue. Its affinity keeps the old
      value, so the next rebalance will send it to the back again. */
  lemma RebalanceMoved(v: View, i: nat, smp: nat)
    requires v.Valid() && 1 <= smp <= CORES && i < SLOTS && Eligible(v, i, smp)
    requires v.state[i] == RUNNABLE && Holder(v.q, i, smp, 0) < smp
    ensures var h, target, w := Holder(v.q, i, smp, 0), v.tid[i] % smp, RebalanceOne(v, i, smp);
            var q1 := v.q[h := Without(v.q[h], i)];
            w.q == q1[target := q1[target] + [i]] && Eligible(w, i, smp) && w.state[i] == RUNNABLE
  {
    hide Unique, Without, Pow2;
    HolderExact(v.q, i, smp, 0);
    UnqueueValid(v, Holder(v.q, i, smp, 0), i);
  }

  /** One round of a rebalance touches one thread's queue, affinity and state. */
  lemma RebalanceOthers(v: View, i: nat, smp: nat, t: nat)
    requires v.Valid() && 1 <= smp <= CORES && i < SLOTS && t < SLOTS && t != i
    ensures var w := RebalanceOne(v, i, smp);
            && w.affinity[t] == v.affinity[t] && w.state[t] == v.state[t] && w.tid == v.tid && w.current == v.current
            && forall c :: 0 <= c < CORES ==> (t in w.q[c] <==> t in v.q[c])
  {
    hide Unique, Without, Pow2, Queued;
    var h := Holder(v.q, i, smp, 0);
    HolderExact(v.q, i, smp, 0);
    if h < CORES { Membership(v.q[h], i, t); }
  }

  /** What one round does to its thread. */
  ghost predicate Rebalanced(v: View, w: View, i: nat, smp: nat)
    requires v.Valid() && w.Valid() && 1 <= smp <= CORES && i < SLOTS
  {
    var home := v.tid[i] % smp;
    var misplaced := v.state[i] != UNUSED && 2 <= v.tid[i] < 10 && v.affinity[i] != Pow2(home);
    var queued := v.state[i] == RUNNABLE && exists c :: 0 <= c < smp && i in v.q[c];
    && w.state[i] == v.state[i]
    && w.affinity[i] == (if misplaced && !queued then Pow2(home) else v.affinity[i])
    && (misplaced && queued ==> forall c :: 0 <= c < CORES ==> (i in w.q[c] <==> c == home))
    && (!(misplaced && queued) ==> forall c :: 0 <= c < CORES ==> (i in w.q[c] <==> i in v.q[c]))
  }

  lemma RebalanceThis(v: View, i: nat, smp: nat)
    requires v.Valid() && 1 <= smp <= CORES && i < SLOTS
    ensures RebalanceOne(v, i, smp).Valid() && Rebalanced(v, RebalanceOne(v, i, smp), i, smp)
  {
    hide Unique, Without, Pow2;
    RebalanceOneValid(v, i, smp);
    HolderExact(v.q, i, smp, 0);
    var h := Holder(v.q, i, smp, 0);
    if Eligible(v, i, smp) && v.state[i] == RUNNABLE && h < smp {
      RebalanceMoved(v, i, smp);
      UnqueueValid(v, h, i);
      var q1 := v.q[h := Without(v.q[h], i)];
      assert forall c :: 0 <= c < CORES ==> i !in q1[c];
    }
  }

  /** After a rebalance every used thread with a small tid is queued on its home core only, or was
      on no queue and is bound to it; every other thread is where it was, as it was. */
  lemma {:induction false} RebalanceResult(v: View, smp: nat, n: nat, i: nat)
    requires v.Valid() && 1 <= smp <= CORES && n <= SLOTS && i < SLOTS
    ensures var w := RebalanceAll(v, smp, n);
            && w.tid == v.tid && w.current == v.current
            && (i < n ==> Rebalanced(v, w, i, smp))
            && (i >= n ==> w.affinity[i] == v.affinity[i] && w.state[i] == v.state[i]
                           && forall c :: 0 <= c < CORES ==> (i in w.q[c] <==> i in v.q[c]))
  {
    hide Unique, RebalanceOne, Pow2;
    if n > 0 {
      var w := RebalanceAll(v, smp, n - 1);
      RebalanceResult(v, smp, n - 1, i);
      RebalanceThis(w, n - 1, smp);
      if i == n - 1 {
        RebalanceFields(w, i, smp);
        assert Rebalanced(v, RebalanceOne(w, i, smp), i, smp);
      } else { RebalanceOthers(w, n - 1, smp, i); }
    }
  }

  lemma RebalanceFields(v: View, i: nat, smp: nat)
    requires v.Valid() && 1 <= smp <= CORES && i < SLOTS
    ensures RebalanceOne(v, i, smp).tid == v.tid && RebalanceOne(v, i, smp).current == v.current
  {}

  // ---- runs ----

  /** What can happen to the queues under sched_lock. A thread's fields change on their own when
      it blocks, exits, is created or is given another affinity, and a core that starts, or
      whose thread exits, is given its current thread directly. */
  datatype Event =
    | Yields(core: nat)
    | Blocks(core: nat)
    | Wakes(target: int, thread: Ref)
    | Reuses(slot: nat)
    | Rebalances(smp: nat)
    | GoesDown(core: nat, mask: nat)
    | Changes(slot: nat, state: int, tid: int, affinity: nat)
    | Installs(core: nat, thread: Ref)

  ghost predicate Possible(e: Event) {
    match e
    case Yields(core) => core < CORES
    case Blocks(core) => core < CORES
    case Wakes(_, t) => -1 <= t < SLOTS
    case Reuses(slot) => slot < SLOTS
    case Rebalances(smp) => 1 <= smp <= CORES
    case GoesDown(_, mask) => mask < Pow2(CORES)
    case Changes(slot, _, _, _) => slot < SLOTS
    case Installs(core, t) => core < CORES && -1 <= t < SLOTS
  }

  ghost function Step(v: View, e: Event): View
    requires v.Valid() && Possible(e)
  {
    match e
    case Yields(core) => Yield(v, core)
    case Blocks(core) => Dispatch(v, core)
    case Wakes(target, t) => Enqueue(v, target, t)
    case Reuses(slot) => Drop(v, slot)
    case Rebalances(smp) => RebalanceAll(v, smp, SLOTS)
    case GoesDown(core, mask) => CoreDown(v, core, mask)
    case Changes(slot, state, tid, affinity) =>
      v.(state := v.state[slot := state], tid := v.tid[slot := tid], affinity := v.affinity[slot := affinity])
    case Installs(core, t) => v.(current := v.current[core := t])
  }

  /** No event puts a thread on two queues, or twice on one. */
  lemma StepValid(v: View, e: Event)
    requires v.Valid() && Possible(e)
    ensures Step(v, e).Valid()
  {
    hide Unique, Queued, Pow2;
    match e
    case Yields(core) => YieldValid(v, core);
    case Blocks(core) => DispatchValid(v, core);
    case Wakes(target, t) => EnqueueValid(v, target, t);
    case Reuses(slot) => ReuseValid(v, slot);
    case Rebalances(_) =>
    case GoesDown(core, mask) =>
      if 0 < core < CORES {
        OnlineInRange(mask);
        MigratedValid(v, core, FirstOnline(mask), |v.q[core]|);
      }
    case Changes(_, _, _, _) =>
    case Installs(_, _) =>
  }

  lemma DispatchValid(v: View, core: nat)
    requires v.Valid() && core < CORES
    ensures Dispatch(v, core).Valid()
  {
    hide Unique;
    if v.q[core] != [] { DropValid(v, core, 0); }
  }

  lemma YieldValid(v: View, core: nat)
    requires v.Valid() && core < CORES
    ensures Yield(v, core).Valid()
  {
    hide Unique, Queued;
    var was := v.current[core];
    if was != -1 {
      var st := v.state[was];
      if st == RUNNING || st == RUNNABLE {
        EnqueueValid(v.(state := v.state[was := RUNNABLE]), core, was);
        DispatchValid(Enqueue(v.(state := v.state[was := RUNNABLE]), core, was), core);
      } else {
        DispatchValid(v, core);
      }
    }
  }

  /** Dropping a slot changes at most the one queue that holds it. */
  lemma DropOne(v: View, t: nat, h: nat)
    requires v.Valid() && h < CORES && (t in v.q[h] || !Queued(v.q, t))
    ensures Drop(v, t).q == v.q[h := Without(v.q[h], t)]
  {
    hide Unique, Without;
    forall a | 0 <= a < CORES && a != h ensures Without(v.q[a], t) == v.q[a] {
      if t in v.q[h] {
        var k :| 0 <= k < |v.q[h]| && v.q[h][k] == t;
        Elsewhere(v.q, h, k, a);
      }
      WithoutAbsent(v.q[a], t);
    }
  }

  lemma ReuseValid(v: View, t: nat)
    requires v.Valid()
    ensures Drop(v, t).Valid() && !Queued(Drop(v, t).q, t)
  {
    hide Unique, Without;
    if Queued(v.q, t) {
      var h :| 0 <= h < CORES && t in v.q[h];
      DropOne(v, t, h);
      UnqueueValid(v, h, t);
    } else {
      DropOne(v, t, 0);
      WithoutAbsent(v.q[0], t);
      assert v.q[0 := v.q[0]] == v.q;
    }
  }

  lemma {:induction false} MigratedValid(v: View, core: nat, dst: nat, n: nat)
    requires v.Valid() && core < CORES && dst < CORES && n <= |v.q[core]|
    ensures var w := Migrated(v, core, dst, n);
            w.Valid() && forall j :: n <= j < |v.q[core]| ==> !Queued(w.q, v.q[core][j])
  {
    hide Unique, Queued, Pow2;
    EmptiedUnique(v.q, core);
    if n == 0 {
      MigrateNone(v, core, dst);
    } else {
      MigratedValid(v, core, dst, n - 1);
      MigrateOne(v, core, dst, n - 1);
      var w, t := Migrated(v, core, dst, n - 1), v.q[core][n - 1];
      OneList(v.q, core);
      EnqueueValid(w, dst, t);
      DetachedRest(w.q, v.q[core], n - 1, dst);
    }
  }

  // ---- nobody is lost ----

  /** The events that take t away: its slot is reused, or it was running, off every queue, and
      blocks, exits or loses its core. */
  ghost predicate Loses(v: View, e: Event, t: nat)
    requires v.Valid() && Possible(e)
  {
    match e
    case Reuses(slot) => slot == t
    case Yields(core) => v.current[core] == t && v.state[t] !in {RUNNING, RUNNABLE} && !Queued(v.q, t)
    case Blocks(core) => v.current[core] == t && !Queued(v.q, t)
    case Installs(core, x) => v.current[core] == t != x && !Queued(v.q, t)
    case GoesDown(core, _) => 0 < core < CORES && v.current[core] == t && !Queued(v.q, t)
    case _ => false
  }

  predicate Brings(e: Event, t: nat) { (e.Wakes? && e.thread == t) || (e.Installs? && e.thread == t) }

  /** Every event keeps every thread that is queued or running, but for those it takes away, and
      brings none but those it names. */
  lemma StepPresent(v: View, e: Event, t: nat)
    requires v.Valid() && Possible(e)
    ensures Present(v, t) && !Loses(v, e, t) ==> Present(Step(v, e), t)
    ensures Present(Step(v, e), t) && !Brings(e, t) ==> Present(v, t)
  {
    hide Unique, Queued, Pow2, Without, RebalanceAll, Yield, Dispatch, Migrated;
    match e
    case Yields(core) => PresentYield(v, core, t);
    case Blocks(core) => PresentDispatch(v, core, t);
    case Wakes(target, x) =>
      if x != -1 && 0 <= target < CORES {
        InQueues(v.q, target, v.q[target] + [x], t);
        InQueues(v.q, target, v.q[target], t);
        assert v.q[target := v.q[target]] == v.q;
      }
    case Reuses(slot) => PresentDrop(v, slot, t);
    case Rebalances(smp) => RebalanceConserves(v, smp, SLOTS, t); RebalanceResult(v, smp, SLOTS, 0);
    case GoesDown(core, mask) => PresentDown(v, core, mask, t);
    case Changes(_, _, _, _) =>
    case Installs(core, x) =>
      InCurrent(v.current, core, x, t);
      InCurrent(v.current, core, v.current[core], t);
      assert v.current[core := v.current[core]] == v.current;
  }

  lemma PresentDispatch(v: View, core: nat, t: nat)
    requires v.Valid() && core < CORES
    ensures Present(v, t) && !(v.current[core] == t && !Queued(v.q, t)) ==> Present(Dispatch(v, core), t)
    ensures Present(Dispatch(v, core), t) ==> Present(v, t)
  {
    hide Unique, Queued;
    var line := v.q[core];
    if line != [] {
      assert Dropped(line, 0) == line[1..] && line == [line[0]] + line[1..];
      assert v.q[core := line] == v.q && v.current[core := v.current[core]] == v.current;
      InQueues(v.q, core, line, t);
      InQueues(v.q, core, line[1..], t);
      InCurrent(v.current, core, line[0], t);
      InCurrent(v.current, core, v.current[core], t);
    }
  }

  lemma PresentYield(v: View, core: nat, t: nat)
    requires v.Valid() && core < CORES
    ensures Present(v, t) && !Loses(v, Yields(core), t) ==> Present(Yield(v, core), t)
    ensures Present(Yield(v, core), t) ==> Present(v, t)
  {
    hide Unique, Queued;
    if v.current[core] == -1 || v.state[v.current[core]] in {RUNNING, RUNNABLE} {
      YieldConserves(v, core, t);
    } else {
      PresentDispatch(v, core, t);
    }
  }

  lemma PresentDrop(v: View, slot: nat, t: nat)
    requires v.Valid() && slot < SLOTS
    ensures t != slot ==> (Queued(Drop(v, slot).q, t) <==> Queued(v.q, t))
    ensures Queued(Drop(v, slot).q, t) ==> Queued(v.q, t)
  {
    hide Unique, Without;
    forall c | 0 <= c < CORES ensures t in Drop(v, slot).q[c] <==> t != slot && t in v.q[c] {
      Membership(v.q[c], slot, t);
    }
  }

  lemma PresentDown(v: View, core: nat, mask: nat, t: nat)
    requires v.Valid() && mask < Pow2(CORES)
    ensures var w := CoreDown(v, core, mask);
            && (Queued(w.q, t) <==> Queued(v.q, t))
            && (t in w.current ==> t in v.current)
            && (t in v.current && !(0 < core < CORES && v.current[core] == t) ==> t in w.current)
  {
    hide Unique, Pow2;
    if 0 < core < CORES {
      OnlineInRange(mask);
      var dst, w := FirstOnline(mask), CoreDown(v, core, mask);
      assert v.q[core][..|v.q[core]|] == v.q[core];
      assert forall c :: 0 <= c < CORES && c != core && c != dst ==> w.q[c] == v.q[c];
      assert forall c :: 0 <= c < CORES && c != core && t in v.q[c] ==> t in w.q[c];
      assert t in v.q[core] ==> t in w.q[dst];
      assert t in w.q[dst] ==> t in v.q[core] || t in v.q[dst];
      InCurrent(v.current, core, -1, t);
      InCurrent(v.current, core, v.current[core], t);
      assert v.current[core := v.current[core]] == v.current;
    }
  }

  /** No event of the run takes t away. */
  ghost predicate KeepsThread(v: View, es: seq<Event>, t: nat)
    requires v.Valid()
    decreases es
  {
    es == [] || (Possible(es[0]) && !Loses(v, es[0], t)
      && (StepValid(v, es[0]); KeepsThread(Step(v, es[0]), es[1..], t)))
  }

  ghost function After(v: View, es: seq<Event>, t: nat): (w: View)
    requires v.Valid() && KeepsThread(v, es, t)
    ensures w.Valid()
    decreases es
  {
    if es == [] then v else StepValid(v, es[0]); After(Step(v, es[0]), es[1..], t)
  }

  /** Nobody is lost: through any run a thread that is queued or running stays so until its slot is
      reused or it blocks, exits or loses its core while running. */
  lemma {:induction false} NobodyLost(v: View, es: seq<Event>, t: nat)
    requires v.Valid() && Present(v, t) && KeepsThread(v, es, t)
    ensures Present(After(v, es, t), t)
    decreases es
  {
    hide Step, Present, Unique;
    if es != [] {
      StepValid(v, es[0]);
      StepPresent(v, es[0], t);
      NobodyLost(Step(v, es[0]), es[1..], t);
    }
  }

  // ---- waiting ----

  /** t is among the first k + 1 threads queued on c. */
  ghost predicate Within(q: seq<seq<nat>>, c: nat, t: nat, k: nat)
    requires c < |q|
  {
    exists j :: 0 <= j <= k && j < |q[c]| && q[c][j] == t
  }

  /** The events that take t off c's queue other than by running it, or stop c. */
  ghost predicate Moves(v: View, e: Event, c: nat, t: nat)
    requires v.Valid() && Possible(e) && t < SLOTS
  {
    match e
    case Reuses(slot) => slot == t
    case Rebalances(smp) => Eligible(v, t, smp)
    case GoesDown(core, _) => core == c
    case Installs(core, x) => core == c && x == -1
    case _ => false
  }

  ghost predicate Undisturbed(v: View, es: seq<Event>, c: nat, t: nat)
    requires v.Valid() && t < SLOTS
    decreases es
  {
    es == [] || (Possible(es[0]) && !Moves(v, es[0], c, t)
      && (StepValid(v, es[0]); Undisturbed(Step(v, es[0]), es[1..], c, t)))
  }

  /** Some switch on c in the run makes t current. */
  ghost predicate Served(v: View, es: seq<Event>, c: nat, t: nat)
    requires v.Valid() && c < CORES
    decreases es
  {
    es != [] && Possible(es[0]) && (StepValid(v, es[0]);
      var w := Step(v, es[0]);
      ((es[0] == Yields(c) || es[0] == Blocks(c)) && w.current[c] == t) || Served(w, es[1..], c, t))
  }

  function YieldCount(es: seq<Event>, c: nat): nat {
    if es == [] then 0 else (if es[0] == Yields(c) then 1 else 0) + YieldCount(es[1..], c)
  }

  /** Appending never moves anybody back. */
  lemma WithinEnqueue(v: View, core: int, x: Ref, c: nat, t: nat, k: nat)
    requires v.Valid() && -1 <= x < SLOTS && c < CORES && Within(v.q, c, t, k)
    ensures Within(Enqueue(v, core, x).q, c, t, k) && Enqueue(v, core, x).current == v.current
  {
    hide Unique, Queued;
    var j :| 0 <= j <= k && j < |v.q[c]| && v.q[c][j] == t;
    assert Enqueue(v, core, x).q[c][j] == t;
  }

  lemma WithinDispatch(v: View, c: nat, t: nat, k: nat)
    requires v.Valid() && c < CORES && Within(v.q, c, t, k)
    ensures var w := Dispatch(v, c); w.current[c] == t || (k > 0 && w.current[c] != -1 && Within(w.q, c, t, k - 1))
  {
    hide Unique;
    var j :| 0 <= j <= k && j < |v.q[c]| && v.q[c][j] == t;
    if j > 0 { assert Dispatch(v, c).q[c][j - 1] == t; }
  }

  lemma WithinYield(v: View, c: nat, t: nat, k: nat)
    requires v.Valid() && c < CORES && v.current[c] != -1 && Within(v.q, c, t, k)
    ensures var w := Yield(v, c); w.current[c] == t || (k > 0 && w.current[c] != -1 && Within(w.q, c, t, k - 1))
  {
    hide Unique, Enqueue, Dispatch;
    var was := v.current[c];
    var st := v.state[was];
    if st == RUNNING || st == RUNNABLE {
      var v0 := v.(state := v.state[was := RUNNABLE]);
      EnqueueValid(v0, c, was);
      WithinEnqueue(v0, c, was, c, t, k);
      WithinDispatch(Enqueue(v0, c, was), c, t, k);
    } else {
      WithinDispatch(v, c, t, k);
    }
  }

  lemma {:induction false} WithinWithout(l: seq<nat>, x: nat, j: nat)
    requires j < |l| && l[j] != x
    ensures exists i :: 0 <= i <= j && i < |Without(l, x)| && Without(l, x)[i] == l[j]
  {
    if j == 0 {
      assert Without(l, x)[0] == l[0];
    } else {
      WithinWithout(l[1..], x, j - 1);
      var rest := Without(l[1..], x);
      var i :| 0 <= i <= j - 1 && i < |rest| && rest[i] == l[j];
      if l[0] != x { assert Without(l, x)[i + 1] == l[j]; } else { assert Without(l, x)[i] == l[j]; }
    }
  }

  lemma WithinUnqueue(q: seq<seq<nat>>, h: nat, x: nat, c: nat, t: nat, k: nat)
    requires h < |q| && c < |q| && x != t && Within(q, c, t, k)
    ensures Within(q[h := Without(q[h], x)], c, t, k)
  {
    var j :| 0 <= j <= k && j < |q[c]| && q[c][j] == t;
    if h == c {
      WithinWithout(q[c], x, j);
      var i :| 0 <= i <= j && i < |Without(q[c], x)| && Without(q[c], x)[i] == t;
      assert q[h := Without(q[h], x)][c][i] == t;
    } else {
      assert q[h := Without(q[h], x)][c][j] == t;
    }
  }

  lemma {:induction false} WithinRebalance(v: View, smp: nat, n: nat, c: nat, t: nat, k: nat)
    requires v.Valid() && 1 <= smp <= CORES && n <= SLOTS && c < CORES && t < SLOTS
    requires Within(v.q, c, t, k) && !Eligible(v, t, smp)
    ensures var w := RebalanceAll(v, smp, n);
            && Within(w.q, c, t, k) && w.current == v.current && w.tid == v.tid
            && w.state[t] == v.state[t] && w.affinity[t] == v.affinity[t]
  {
    hide Unique, RebalanceOne, Within, Pow2;
    if n > 0 {
      WithinRebalance(v, smp, n - 1, c, t, k);
      WithinRebalanceOne(RebalanceAll(v, smp, n - 1), n - 1, smp, c, t, k);
    }
  }

  lemma WithinRebalanceOne(v: View, i: nat, smp: nat, c: nat, t: nat, k: nat)
    requires v.Valid() && 1 <= smp <= CORES && i < SLOTS && c < CORES && t < SLOTS
    requires Within(v.q, c, t, k) && !Eligible(v, t, smp)
    ensures var w := RebalanceOne(v, i, smp);
            && Within(w.q, c, t, k) && w.current == v.current && w.tid == v.tid
            && w.state[t] == v.state[t] && w.affinity[t] == v.affinity[t]
  {
    hide Unique, Without, Within, Queued, Pow2;
    var h := Holder(v.q, i, smp, 0);
    if Eligible(v, i, smp) && v.state[i] == RUNNABLE && h < smp {
      HolderExact(v.q, i, smp, 0);
      WithinUnqueue(v.q, h, i, c, t, k);
      UnqueueValid(v, h, i);
      WithinEnqueue(v.(q := v.q[h := Without(v.q[h], i)]), v.tid[i] % smp, i, c, t, k);
    }
  }

  /** Everything but a switch on c leaves t at least as far forward. */
  lemma WithinStep(v: View, e: Event, c: nat, t: nat, k: nat)
    requires v.Valid() && Possible(e) && c < CORES && t < SLOTS && Within(v.q, c, t, k)
    requires e != Yields(c) && e != Blocks(c) && !Moves(v, e, c, t)
    ensures var w := Step(v, e); w.Valid() && Within(w.q, c, t, k) && (v.current[c] != -1 ==> w.current[c] != -1)
  {
    hide Unique, Queued, Pow2, Without, RebalanceAll;
    StepValid(v, e);
    var j :| 0 <= j <= k && j < |v.q[c]| && v.q[c][j] == t;
    match e
    case Yields(core) => assert Step(v, e).q[c] == v.q[c];
    case Blocks(core) => assert Step(v, e).q[c] == v.q[c];
    case Wakes(target, x) => WithinEnqueue(v, target, x, c, t, k);
    case Reuses(slot) =>
      WithinWithout(v.q[c], slot, j);
      assert Step(v, e).q[c] == Without(v.q[c], slot);
    case Rebalances(smp) => WithinRebalance(v, smp, SLOTS, c, t, k);
    case GoesDown(core, mask) =>
      if 0 < core < CORES {
        OnlineInRange(mask);
        assert Step(v, e).q[c][j] == t;
      }
    case Changes(_, _, _, _) =>
    case Installs(_, _) =>
  }

  /** Bounded waiting: the thread at index k of core c's queue is made current by one of the
      next k + 1 yields on c, whatever else happens. */
  lemma {:induction false} BoundedWaiting(v: View, es: seq<Event>, c: nat, t: nat, k: nat)
    requires v.Valid() && c < CORES && t < SLOTS && v.current[c] != -1 && Within(v.q, c, t, k)
    requires Undisturbed(v, es, c, t) && YieldCount(es, c) > k
    ensures Served(v, es, c, t)
    decreases es
  {
    hide Unique, Within, Step, Yield, Dispatch, Moves;
    var e := es[0];
    StepValid(v, e);
    var w := Step(v, e);
    if e == Yields(c) {
      YieldStep(v, c);
      WithinYield(v, c, t, k);
      if w.current[c] != t { BoundedWaiting(w, es[1..], c, t, k - 1); }
    } else if e == Blocks(c) {
      YieldStep(v, c);
      WithinDispatch(v, c, t, k);
      if w.current[c] != t {
        BoundedWaiting(w, es[1..], c, t, k - 1);
      }
    } else {
      WithinStep(v, e, c, t, k);
      BoundedWaiting(w, es[1..], c, t, k);
    }
  }

  lemma YieldStep(v: View, c: nat)
    requires v.Valid() && c < CORES
    ensures Step(v, Yields(c)) == Yield(v, c) && Step(v, Blocks(c)) == Dispatch(v, c)
  {}
}
