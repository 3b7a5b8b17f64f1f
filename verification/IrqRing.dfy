/** The interrupt ring between one producer (the interrupt handler) and one consumer, as
    the separate memory accesses of a push and a pop, in every interleaving. */
module IrqRing {
  import opened Arithmetic

  const SIZE := 256
  const WRAP := 0x1_0000_0000

  /** Where the producer is inside a push of v: it read the head h, then the tail t, then
      wrote the slot. `seen` counts the pops that had completed when t was read. */
  datatype Producer = Ready | ReadHead(v: nat, h: nat) | ReadTail(v: nat, h: nat, t: nat, seen: nat) | Written(v: nat,
    h: nat)

  /** Where the consumer is inside a pop: it read the tail t, then the head h, then the slot.
      `seen` counts the pushes that had completed when h was read. */
  datatype Consumer = Idle | GotTail(t: nat) | GotHead(t: nat, h: nat, seen: nat) | GotSlot(t: nat, x: nat)

  /** The shared words, both control points, and the history: values accepted and returned
      so far, and the number of pushes turned away. */
  datatype Ring = Ring(buf: seq<nat>, head: nat, tail: nat, drops: nat, prod: Producer, cons: Consumer,
                       pushed: seq<nat>, popped: seq<nat>, rejected: nat)
  {
    /** The queue the ring stands for. */
    ghost function Fifo(): seq<nat>
      requires |popped| <= |pushed|
    {
      pushed[|popped|..]
    }

    /** No unread entry is overwritten, and pops are a prefix of the accepted pushes. */
    ghost predicate Inv() {
      && |buf| == SIZE && head == |pushed| % WRAP && tail == |popped| % WRAP && drops == rejected % WRAP
      && |popped| <= |pushed| <= |popped| + SIZE && popped == pushed[..|popped|]
      && (forall i :: |popped| <= i < |pushed| ==> buf[i % SIZE] == pushed[i])
      && ProducerInv() && ConsumerInv()
    }

    ghost predicate ProducerInv()
      requires |buf| == SIZE
    {
      match prod
      case Ready => true
      case ReadHead(_, h) => h == head
      case ReadTail(_, h, t, seen) => h == head && t == seen % WRAP && seen <= |popped| && |pushed| <= seen + SIZE
      case Written(v, h) => h == head && |pushed| < |popped| + SIZE && buf[|pushed| % SIZE] == v
    }

    ghost predicate ConsumerInv() {
      match cons
      case Idle => true
      case GotTail(t) => t == tail
      case GotHead(t, h, seen) => t == tail && h == seen % WRAP && |popped| <= seen <= |pushed|
        && seen <= |popped| + SIZE
      case GotSlot(t, x) => t == tail && |popped| < |pushed| && x == pushed[|popped|]
    }
  }

  /** Difference of two u32 indices. */
  function WrappingSub(a: nat, b: nat): nat { (a - b) % WRAP }

  function Init(): Ring { Ring(seq(SIZE, _ => 0), 0, 0, 0, Ready, Idle, [], [], 0) }

  /** The producer's next access; v is what the interrupt handler brings when it is idle. */
  function Produce(s: Ring, v: nat): Ring
    requires |s.buf| == SIZE
  {
    match s.prod
    case Ready => s.(prod := ReadHead(v, s.head))
    case ReadHead(x, h) => s.(prod := ReadTail(x, h, s.tail, |s.popped|))
    case ReadTail(x, h, t, _) =>
      if WrappingSub(h, t) >= SIZE then s.(drops := (s.drops + 1) % WRAP, prod := Ready, rejected := s.rejected + 1)
      else s.(buf := s.buf[h % SIZE := x], prod := Written(x, h))
    case Written(x, h) => s.(head := (h + 1) % WRAP, prod := Ready, pushed := s.pushed + [x])
  }

  /** The consumer's next access. */
  function Consume(s: Ring): Ring
    requires |s.buf| == SIZE
  {
    match s.cons
    case Idle => s.(cons := GotTail(s.tail))
    case GotTail(t) => s.(cons := GotHead(t, s.head, |s.pushed|))
    case GotHead(t, h, _) => if t == h then s.(cons := Idle) else s.(cons := GotSlot(t, s.buf[t % SIZE]))
    case GotSlot(t, x) => s.(tail := (t + 1) % WRAP, cons := Idle, popped := s.popped + [x])
  }

  // ---- wrap-around ----

  lemma WrapExact(a: nat, b: nat)
    requires b <= a < b + WRAP
    ensures WrappingSub(a % WRAP, b % WRAP) == a - b
  {
    var qa, ra := Parts(a, WRAP);
    var qb, rb := Parts(b, WRAP);
    assert a - b == ra - rb + (qa - qb) * WRAP;
    ModShift(ra - rb, qa - qb, WRAP);
    DivMod(0, WRAP, a - b);
  }

  lemma SlotOf(a: nat)
    ensures a % WRAP % SIZE == a % SIZE
  {
    var q, r := Parts(a, WRAP);
    assert a == r + q * 0x100_0000 * SIZE;
    ModShift(r, q * 0x100_0000, SIZE);
  }

  /** Fewer than 256 consecutive indices never share a slot. */
  lemma SlotsDiffer(i: nat, j: nat)
    requires i < j < i + SIZE
    ensures i % SIZE != j % SIZE
  {
    var qi, ri := Parts(i, SIZE);
    var qj, rj := Parts(j, SIZE);
  }

  lemma Bump(a: nat)
    ensures (a % WRAP + 1) % WRAP == (a + 1) % WRAP
  {
    var q, r := Parts(a, WRAP);
    ModShift(r + 1, q, WRAP);
  }

  // ---- exactness of the two tests ----

  /** A push is turned away exactly when 256 entries were unread as it read the tail. */
  lemma RejectExact(s: Ring)
    requires s.Inv() && s.prod.ReadTail?
    ensures WrappingSub(s.prod.h, s.prod.t) >= SIZE <==> |s.pushed| - s.prod.seen == SIZE
  {
    WrapExact(|s.pushed|, s.prod.seen);
  }

  /** A pop returns -1 exactly when nothing was unread as it read the head. */
  lemma EmptyExact(s: Ring)
    requires s.Inv() && s.cons.GotHead?
    ensures s.cons.t == s.cons.h <==> s.cons.seen == |s.popped|
  {
    WrapExact(s.cons.seen, |s.popped|);
  }

  // ---- every step ----

  /** A producer step keeps the invariant and is either invisible or one enqueue into a
      queue of fewer than 256 entries. It carries the value brought to it unchanged, and turns it
      away exactly when 256 entries were unread as it read the tail. */
  lemma ProduceKeeps(s: Ring, v: nat)
    requires s.Inv()
    ensures var t := Produce(s, v);
            && t.Inv() && t.popped == s.popped
            && t.Fifo() == (if s.prod.Written? then s.Fifo() + [s.prod.v] else s.Fifo())
            && (s.prod.Written? ==> |s.Fifo()| < SIZE && t.prod == Ready && t.rejected == s.rejected)
            && (s.prod.Ready? ==> t.prod.ReadHead? && t.prod.v == v && t.rejected == s.rejected)
            && (s.prod.ReadHead? ==> t.prod.ReadTail? && t.prod.v == s.prod.v && t.prod.seen == |s.popped|
                                     && t.rejected == s.rejected)
            && (s.prod.ReadTail? ==>
                  if |s.pushed| - s.prod.seen == 256 then t.prod == Ready && t.rejected == s.rejected + 1
                  else t.prod.Written? && t.prod.v == s.prod.v && t.rejected == s.rejected)
            && t.pushed == if s.prod.Written? then s.pushed + [s.prod.v] else s.pushed
  {
    match s.prod
    case Ready =>
    case ReadHead(_, _) =>
    case ReadTail(x, h, _, _) => FillKeeps(s); RejectExact(s);
    case Written(x, h) => Bump(|s.pushed|);
  }

  lemma FillKeeps(s: Ring)
    requires s.Inv() && s.prod.ReadTail?
    ensures Produce(s, 0).Inv() && Produce(s, 0).Fifo() == s.Fifo()
  {
    RejectExact(s);
    hide WrappingSub;
    Bump(s.rejected);
    var n := |s.pushed|;
    SlotOf(n);
    var t := Produce(s, 0);
    forall i | |s.popped| <= i < n ensures t.buf[i % SIZE] == s.pushed[i] {
      if t.prod.Written? { SlotsDiffer(i, n); }
    }
  }

  /** A consumer step keeps the invariant and is either invisible or the dequeue of the
      oldest entry, which it returns; it gives up exactly when nothing was unread as it read the
      head. */
  lemma ConsumeKeeps(s: Ring)
    requires s.Inv()
    ensures var t := Consume(s);
            && t.Inv() && t.pushed == s.pushed
            && (if s.cons.GotSlot? then s.Fifo() == [s.cons.x] + t.Fifo() && t.popped == s.popped + [s.cons.x]
                else t.Fifo() == s.Fifo() && t.popped == s.popped)
            && (s.cons.GotTail? ==> t.cons.GotHead? && t.cons.seen == |s.pushed|)
            && (s.cons.GotHead? ==> if s.cons.seen == |s.popped| then t.cons == Idle else t.cons.GotSlot?)
  {
    match s.cons
    case Idle =>
    case GotTail(_) =>
    case GotHead(_, _, _) => EmptyExact(s); SlotOf(|s.popped|);
    case GotSlot(_, _) => Bump(|s.popped|);
  }

  // ---- runs ----

  datatype Access = Producing(v: nat) | Consuming

  ghost function Run(accesses: seq<Access>): (s: Ring)
    ensures |s.buf| == SIZE
  {
    if accesses == [] then Init() else
    var s, a := Run(accesses[..|accesses| - 1]), accesses[|accesses| - 1];
    match a
    case Producing(v) => Produce(s, v)
    case Consuming => Consume(s)
  }

  /** In every interleaving: what has been popped is a prefix of what was accepted, in order;
      at most 256 entries are unread; the drop counter is the rejected pushes mod 2^32. */
  lemma {:induction false} EveryRun(accesses: seq<Access>)
    ensures var s := Run(accesses);
            && s.Inv() && s.popped <= s.pushed && |s.pushed| - |s.popped| <= SIZE && s.drops == s.rejected % WRAP
  {
    if accesses != [] {
      var n := |accesses| - 1;
      EveryRun(accesses[..n]);
      var s := Run(accesses[..n]);
      match accesses[n]
      case Producing(v) => ProduceKeeps(s, v);
      case Consuming => ConsumeKeeps(s);
    }
  }

  // ---- what was pushed ----

  /** The values the interrupt handler brought, one for each push it began. */
  ghost function Brought(accesses: seq<Access>): seq<nat> {
    if accesses == [] then [] else
    var n := |accesses| - 1;
    var before, a := Brought(accesses[..n]), accesses[n];
    if a.Producing? && Run(accesses[..n]).prod.Ready? then before + [a.v] else before
  }

  /** For each push that has been decided, whether 256 entries were unread as it read the tail. */
  ghost function Full(accesses: seq<Access>): seq<bool> {
    if accesses == [] then [] else
    var n := |accesses| - 1;
    var before, s := Full(accesses[..n]), Run(accesses[..n]);
    if accesses[n].Producing? && s.prod.ReadTail? then before + [|s.pushed| - s.prod.seen == 256] else before
  }

  /** The values that found room. */
  function Kept(vs: seq<nat>, full: seq<bool>): seq<nat>
    requires |vs| == |full|
  {
    if vs == [] then [] else
    var n := |vs| - 1;
    Kept(vs[..n], full[..n]) + if full[n] then [] else [vs[n]]
  }

  function Trues(full: seq<bool>): nat {
    if full == [] then 0 else Trues(full[..|full| - 1]) + if full[|full| - 1] then 1 else 0
  }

  lemma KeptNext(vs: seq<nat>, full: seq<bool>, v: nat, f: bool)
    requires |vs| == |full|
    ensures Kept(vs + [v], full + [f]) == Kept(vs, full) + (if f then [] else [v])
    ensures Trues(full + [f]) == Trues(full) + if f then 1 else 0
  {
    assert (vs + [v])[..|vs|] == vs && (full + [f])[..|full|] == full;
  }

  /** The push under way, if any, is the last one begun; until its tail has been read it is
      undecided. */
  ghost predicate Accounted(s: Ring, vs: seq<nat>, full: seq<bool>) {
    var undecided := if s.prod.ReadHead? || s.prod.ReadTail? then 1 else 0;
    && |vs| == |full| + undecided && s.rejected == Trues(full)
    && (!s.prod.Ready? ==> vs != [] && vs[|vs| - 1] == s.prod.v)
    && Kept(vs[..|full|], full) == s.pushed + if s.prod.Written? then [s.prod.v] else []
  }

  lemma PushStep(s: Ring, v: nat, vs: seq<nat>, full: seq<bool>)
    requires s.Inv() && Accounted(s, vs, full)
    ensures Accounted(Produce(s, v), if s.prod.Ready? then vs + [v] else vs,
                      if s.prod.ReadTail? then full + [|s.pushed| - s.prod.seen == 256] else full)
  {
    ProduceKeeps(s, v);
    hide Ring.Inv, Produce, Kept, Trues, Ring.Fifo;
    if s.prod.Ready? {
      assert (vs + [v])[..|full|] == vs[..|full|];
    } else if s.prod.ReadTail? {
      Decided(s, Produce(s, v), vs, full, |s.pushed| - s.prod.seen == 256);
    }
  }

  lemma Decided(s: Ring, t: Ring, vs: seq<nat>, full: seq<bool>, f: bool)
    requires s.prod.ReadTail? && Accounted(s, vs, full) && t.pushed == s.pushed
    requires if f then t.prod == Ready && t.rejected == s.rejected + 1
             else t.prod.Written? && t.prod.v == s.prod.v && t.rejected == s.rejected
    ensures Accounted(t, vs, full + [f])
  {
    hide Kept, Trues;
    KeptNext(vs[..|full|], full, s.prod.v, f);
    assert vs == vs[..|full|] + [s.prod.v];
    assert vs[..|full + [f]|] == vs;
  }

  lemma ConsumerSide(s: Ring)
    requires s.Inv()
    ensures var t := Consume(s); t.prod == s.prod && t.pushed == s.pushed && t.rejected == s.rejected
  {}

  /** Over every interleaving: what was accepted is what the handler brought, in order, less the
      pushes that met a full ring, and each of those is counted as rejected. */
  lemma {:induction false} EveryPush(accesses: seq<Access>)
    ensures Accounted(Run(accesses), Brought(accesses), Full(accesses))
  {
    if accesses != [] {
      var n := |accesses| - 1;
      EveryPush(accesses[..n]);
      EveryRun(accesses[..n]);
      var s := Run(accesses[..n]);
      hide Ring.Inv, Produce, Consume, Kept, Trues;
      match accesses[n]
      case Consuming => ConsumerSide(s);
      case Producing(v) => PushStep(s, v, Brought(accesses[..n]), Full(accesses[..n]));
    }
  }
}
