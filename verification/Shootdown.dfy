/** TLB shootdown as a state machine: requesters stamp a generation, signal their peers
    and wait for acknowledgements; each peer's handler reads the generation, flushes and
    acknowledges. Machine words are 32-bit and wrap; `times`, `ackGen` and the handlers'
    `gen` record the unwrapped generations the words stand for. */
module Shootdown {
  import opened Arithmetic

  const CORES := 32
  const M32 := 0x1_0000_0000
  const HALF := 0x8000_0000

  /** ack.wrapping_sub(seq) < 0x80000000 */
  predicate AckSatisfies(ack: nat, seqNo: nat) { (ack - seqNo) % M32 < HALF }

  datatype Handler = Quiet | GotSeq(word: nat, gen: nat) | Flushed(word: nat, gen: nat)

  datatype Phase = Masked | Sending | Waiting | Returned

  /** A shootdown in progress: `todo` are peers still to be signalled, `pending` those still
      waited for; `acked` and `dropped` say why the others are not waited for any more. */
  datatype Request = Request(phase: Phase, me: nat, mask: set<nat>, word: nat, gen: nat, todo: set<nat>,
                             pending: set<nat>, acked: set<nat>, dropped: set<nat>)

  /** times[g - 1] is when generation g was taken; flushAt[c] is when core c last flushed. */
  datatype State = State(now: nat, times: seq<nat>, seqWord: nat, ackWord: seq<nat>, ackGen: seq<nat>,
                         handler: seq<Handler>, flushAt: seq<nat>, sgi: set<nat>, online: set<nat>,
                         reqs: map<nat, Request>)

  datatype Step =
    | ReadMask(id: nat, me: nat)
    | Take(id: nat)
    | Send(id: nat, core: nat)
    | Poll(id: nat, core: nat)
    | DropOffline(id: nat)
    | Return(id: nat)
    | GoOnline(core: nat)
    | GoOffline(core: nat)
    | HandlerRead(core: nat)
    | HandlerFlush(core: nat)
    | HandlerAck(core: nat)

  predicate Enabled(s: State, e: Step)
    requires Shaped(s)
  {
    match e
    case ReadMask(id, me) => id !in s.reqs && me < CORES
    case Take(id) => id in s.reqs && s.reqs[id].phase == Masked
    case Send(id, c) => id in s.reqs && s.reqs[id].phase == Sending && c in s.reqs[id].todo
    case Poll(id, c) => id in s.reqs && s.reqs[id].phase == Waiting && c in s.reqs[id].pending && c < CORES
    case DropOffline(id) => id in s.reqs && s.reqs[id].phase == Waiting
    case Return(id) => id in s.reqs && s.reqs[id].phase == Waiting && s.reqs[id].pending == {}
    case GoOnline(c) => c < CORES
    case GoOffline(c) => c < CORES
    case HandlerRead(c) => c < CORES && c in s.sgi && s.handler[c].Quiet?
    case HandlerFlush(c) => c < CORES && s.handler[c].GotSeq?
    case HandlerAck(c) => c < CORES && s.handler[c].Flushed?
  }

  predicate Shaped(s: State) {
    |s.ackWord| == |s.ackGen| == |s.handler| == |s.flushAt| == CORES
  }

  function WithReq(s: State, id: nat, r: Request): State { s.(reqs := s.reqs[id := r], now := s.now + 1) }

  function AfterSend(todo: set<nat>): Phase { if todo == {} then Waiting else Sending }

  function Apply(s: State, e: Step): State
    requires Shaped(s) && Enabled(s, e)
  {
    match e
    case ReadMask(id, me) => WithReq(s, id, Request(Masked, me, s.online, 0, 0, {}, {}, {}, {}))
    case Take(id) =>
      var r := s.reqs[id];
      var word := (s.seqWord + 1) % M32;
      var todo := r.mask - {r.me};
      var s1 := s.(seqWord := word, times := s.times + [s.now]);
      WithReq(s1, id, r.(phase := AfterSend(todo), word := word, gen := |s.times| + 1, todo := todo))
    case Send(id, c) =>
      var r := s.reqs[id];
      WithReq(s.(sgi := s.sgi + {c}), id,
              r.(phase := AfterSend(r.todo - {c}), todo := r.todo - {c}, pending := r.pending + {c}))
    case Poll(id, c) =>
      var r := s.reqs[id];
      if AckSatisfies(s.ackWord[c], r.word)
      then WithReq(s, id, r.(pending := r.pending - {c}, acked := r.acked + {c}))
      else s.(now := s.now + 1)
    case DropOffline(id) =>
      var r := s.reqs[id];
      WithReq(s, id, r.(pending := r.pending * s.online, dropped := r.dropped + (r.pending - s.online)))
    case Return(id) => WithReq(s, id, s.reqs[id].(phase := Returned))
    case GoOnline(c) => s.(online := s.online + {c}, now := s.now + 1)
    case GoOffline(c) => s.(online := s.online - {c}, now := s.now + 1)
    case HandlerRead(c) =>
      s.(sgi := s.sgi - {c}, handler := s.handler[c := GotSeq(s.seqWord, |s.times|)], now := s.now + 1)
    case HandlerFlush(c) =>
      var h := s.handler[c];
      s.(handler := s.handler[c := Flushed(h.word, h.gen)], flushAt := s.flushAt[c := s.now], now := s.now + 1)
    case HandlerAck(c) =>
      var h := s.handler[c];
      s.(handler := s.handler[c := Quiet], ackWord := s.ackWord[c := h.word], ackGen := s.ackGen[c := h.gen],
         now := s.now + 1)
  }

  // ---- the wrap-around comparison ----

  /** Between generations less than 2^31 apart, the word comparison is the true one. */
  lemma AckExact(a: nat, g: nat)
    requires -HALF < a - g < HALF
    ensures AckSatisfies(a % M32, g % M32) <==> a >= g
  {
    WrapDifference(a, g);
  }

  /** For an older acknowledgement the words satisfy the test exactly when the distance has
      wrapped past half the range: an acknowledgement 2^31 + 1 generations old passes. */
  lemma StaleAckAccepted(a: nat, g: nat)
    requires a < g
    ensures AckSatisfies(a % M32, g % M32) <==> (g - a) % M32 == 0 || (g - a) % M32 > HALF
    ensures AckSatisfies(0, (HALF + 1) % M32)
  {
    WrapDifference(a, g);
    var q, r := Parts(g - a, M32);
    var k: int := q;
    if r == 0 { DivMod(-k, M32, 0); } else { DivMod(-k - 1, M32, M32 - r); }
  }

  lemma WrapDifference(a: nat, g: nat)
    ensures (a % M32 - g % M32) % M32 == (a - g) % M32
  {
    var qa, ra := Parts(a, M32);
    var qg, rg := Parts(g, M32);
    assert a - g == ra - rg + (qa - qg) * M32;
    ModShift(ra - rg, qa - qg, M32);
  }

  // ---- invariant ----

  /** Core c flushed after generation g was taken. */
  predicate FlushedAfter(s: State, c: nat, g: nat)
    requires Shaped(s)
  {
    c < CORES && (0 < g <= |s.times| ==> s.times[g - 1] < s.flushAt[c])
  }

  ghost predicate Clock(s: State) {
    && s.seqWord == |s.times| % M32
    && (forall i, j :: 0 <= i < j < |s.times| ==> s.times[i] < s.times[j])
    && (forall i :: 0 <= i < |s.times| ==> s.times[i] < s.now)
  }

  ghost predicate PeerOk(s: State, c: nat)
    requires Shaped(s) && c < CORES
  {
    && s.flushAt[c] <= s.now
    && s.ackGen[c] <= |s.times| && s.ackWord[c] == s.ackGen[c] % M32 && FlushedAfter(s, c, s.ackGen[c])
    && (!s.handler[c].Quiet? ==>
          s.handler[c].gen <= |s.times| && s.handler[c].word == s.handler[c].gen % M32)
    && (s.handler[c].Flushed? ==> FlushedAfter(s, c, s.handler[c].gen))
  }

  ghost predicate RequestOk(s: State, r: Request)
    requires Shaped(s)
  {
    && (r.phase == Masked ==> r.pending == r.acked == r.dropped == {})
    && (r.phase != Masked ==>
          && 1 <= r.gen <= |s.times| && r.word == r.gen % M32
          && r.todo + r.pending + r.acked + r.dropped == r.mask - {r.me}
          && (r.phase != Sending ==> r.todo == {})
          && (r.phase == Returned ==> r.pending == {})
          && forall c :: c in r.acked ==> FlushedAfter(s, c, r.gen))
  }

  ghost predicate Inv(s: State) {
    && Shaped(s) && Clock(s)
    && (forall c :: 0 <= c < CORES ==> PeerOk(s, c))
    && (forall id :: id in s.reqs ==> RequestOk(s, s.reqs[id]))
  }

  /** The premise on an acknowledgement being polled: it is not 2^31 generations old. */
  predicate FreshPoll(s: State, e: Step)
    requires Shaped(s) && Enabled(s, e)
  {
    e.Poll? ==> |s.times| - s.ackGen[e.core] < HALF
  }

  // ---- every step keeps the invariant ----

  /** Time moves on: generations are only added and flushes only get later. */
  ghost predicate Later(s: State, s': State)
    requires Shaped(s) && Shaped(s')
  {
    s.times <= s'.times && s.now <= s'.now && forall c :: 0 <= c < CORES ==> s.flushAt[c] <= s'.flushAt[c]
  }

  lemma LaterKeeps(s: State, s': State)
    requires Inv(s) && Shaped(s') && Later(s, s')
    ensures forall c: nat, g: nat :: FlushedAfter(s, c, g) && g <= |s.times| ==> FlushedAfter(s', c, g)
    ensures forall id :: id in s.reqs ==> RequestOk(s', s.reqs[id])
  {
    forall c: nat, g: nat | FlushedAfter(s, c, g) && g <= |s.times| ensures FlushedAfter(s', c, g) {
      if 0 < g { assert s'.times[g - 1] == s.times[g - 1]; }
    }
  }

  lemma RequestStep(s: State, e: Step)
    requires Inv(s) && Enabled(s, e) && (e.ReadMask? || e.Send? || e.DropOffline? || e.Return?)
    ensures Inv(Apply(s, e))
  {
    LaterKeeps(s, Apply(s, e));
    forall c | 0 <= c < CORES ensures PeerOk(Apply(s, e), c) {
      assert PeerOk(s, c);
    }
  }

  lemma TakeStep(s: State, e: Step)
    requires Inv(s) && Enabled(s, e) && e.Take?
    ensures Inv(Apply(s, e))
  {
    var s' := Apply(s, e);
    LaterKeeps(s, s');
    NextWord(|s.times|);
    forall c | 0 <= c < CORES ensures PeerOk(s', c) {
      assert PeerOk(s, c);
    }
  }

  lemma NextWord(n: nat)
    ensures (n % M32 + 1) % M32 == (n + 1) % M32
  {}

  lemma PollStep(s: State, e: Step)
    requires Inv(s) && Enabled(s, e) && e.Poll? && FreshPoll(s, e)
    ensures Inv(Apply(s, e))
  {
    LaterKeeps(s, Apply(s, e));
    forall c | 0 <= c < CORES ensures PeerOk(Apply(s, e), c) {
      assert PeerOk(s, c);
    }
    var r := s.reqs[e.id];
    var a := s.ackGen[e.core];
    if AckSatisfies(s.ackWord[e.core], r.word) {
      assert PeerOk(s, e.core);
      if a < r.gen { AckExact(a, r.gen); }
      if a > r.gen { assert s.times[r.gen - 1] < s.times[a - 1]; }
      assert FlushedAfter(s, e.core, r.gen);
    }
  }

  lemma PeerStep(s: State, e: Step)
    requires Inv(s) && Enabled(s, e)
    requires e.GoOnline? || e.GoOffline? || e.HandlerRead? || e.HandlerFlush? || e.HandlerAck?
    ensures Inv(Apply(s, e))
  {
    var s' := Apply(s, e);
    assert e.HandlerFlush? ==> PeerOk(s, e.core);
    assert Later(s, s');
    LaterKeeps(s, s');
    forall c | 0 <= c < CORES ensures PeerOk(s', c) {
      assert PeerOk(s, c);
    }
  }

  // ---- runs ----

  ghost predicate Initial(s: State) {
    && Shaped(s) && s.now == 0 && s.times == [] && s.seqWord == 0 && s.reqs == map[] && s.sgi == {}
    && (forall c :: c in s.online ==> c < CORES)
    && forall c :: 0 <= c < CORES ==>
         s.ackWord[c] == s.ackGen[c] == s.flushAt[c] == 0 && s.handler[c].Quiet?
  }

  /** states[i] is the state before step i; acknowledgements are fresh when polled. */
  ghost predicate Run(states: seq<State>, steps: seq<Step>) {
    && |states| == |steps| + 1 && Initial(states[0])
    && forall i :: 0 <= i < |steps| && Shaped(states[i]) ==>
         && Enabled(states[i], steps[i]) && FreshPoll(states[i], steps[i])
         && states[i + 1] == Apply(states[i], steps[i])
  }

  lemma StepKeeps(s: State, e: Step)
    requires Inv(s) && Enabled(s, e) && FreshPoll(s, e)
    ensures Inv(Apply(s, e))
  {
    hide Inv, Apply;
    if e.Take? { TakeStep(s, e); }
    else if e.Poll? { PollStep(s, e); }
    else if e.ReadMask? || e.Send? || e.DropOffline? || e.Return? { RequestStep(s, e); }
    else { PeerStep(s, e); }
  }

  lemma {:induction false} RunKeepsInv(states: seq<State>, steps: seq<Step>, n: nat)
    requires Run(states, steps) && n <= |steps|
    ensures Shaped(states[n]) && Inv(states[n])
  {
    hide Apply;
    if n == 0 {
      assert forall c :: 0 <= c < CORES ==> PeerOk(states[0], c);
    } else {
      RunKeepsInv(states, steps, n - 1);
      hide Inv;
      StepKeeps(states[n - 1], steps[n - 1]);
      InvShaped(states[n]);
    }
  }

  lemma InvShaped(s: State)
    requires Inv(s)
    ensures Shaped(s)
  {}

  // ---- what the bookkeeping stands for ----

  /** Times are step numbers: flushes and generations happened at the steps they name. */
  ghost predicate Dated(s: State, steps: seq<Step>, n: nat)
    requires Shaped(s) && n <= |steps|
  {
    && s.now == n
    && (forall c :: c in s.online ==> c < CORES)
    && (forall c :: 0 <= c < CORES ==> FlushDated(s, steps, n, c))
    && (forall id :: id in s.reqs ==> TakeDated(s, steps, n, s.reqs[id], id))
  }

  ghost predicate FlushDated(s: State, steps: seq<Step>, n: nat, c: nat)
    requires Shaped(s) && n <= |steps| && c < CORES
  {
    s.flushAt[c] > 0 ==> s.flushAt[c] < n && steps[s.flushAt[c]] == HandlerFlush(c)
  }

  ghost predicate TakeDated(s: State, steps: seq<Step>, n: nat, r: Request, id: nat)
    requires n <= |steps|
  {
    r.phase != Masked ==>
      && 1 <= r.gen <= |s.times| && s.times[r.gen - 1] < n && steps[s.times[r.gen - 1]] == Take(id)
  }

  lemma DatedStep(s: State, steps: seq<Step>, n: nat)
    requires Shaped(s) && n < |steps| && Dated(s, steps, n) && Enabled(s, steps[n])
    ensures Shaped(Apply(s, steps[n])) && Dated(Apply(s, steps[n]), steps, n + 1)
  {
    var t, m := Apply(s, steps[n]), n + 1;
    assert s.times <= t.times;
    forall c | 0 <= c < CORES ensures FlushDated(t, steps, m, c) {
      assert FlushDated(s, steps, n, c);
    }
    forall id | id in t.reqs ensures TakeDated(t, steps, n + 1, t.reqs[id], id) {
      RequestDated(s, steps, n, id);
    }
  }

  lemma RequestDated(s: State, steps: seq<Step>, n: nat, id: nat)
    requires Shaped(s) && n < |steps| && s.now == n && Enabled(s, steps[n])
    requires id in s.reqs ==> TakeDated(s, steps, n, s.reqs[id], id)
    requires id in Apply(s, steps[n]).reqs
    ensures TakeDated(Apply(s, steps[n]), steps, n + 1, Apply(s, steps[n]).reqs[id], id)
  {
    if id in s.reqs { TouchesOne(s, steps[n], id); }
  }

  lemma {:induction false} RunDated(states: seq<State>, steps: seq<Step>, n: nat)
    requires Run(states, steps) && n <= |steps|
    ensures Shaped(states[n]) && Dated(states[n], steps, n)
  {
    RunKeepsInv(states, steps, n);
    if n > 0 {
      RunDated(states, steps, n - 1);
      RunKeepsInv(states, steps, n - 1);
      hide Inv, Dated, Apply;
      DatedStep(states[n - 1], steps, n - 1);
    }
  }

  /** The request that read the mask at step k: what it read, and that everything it did came
      later; a peer it dropped was off at one of its looks. */
  ghost predicate Follows(states: seq<State>, steps: seq<Step>, id: nat, me: nat, k: nat, n: nat)
    requires k < n < |states| && |states| == |steps| + 1
  {
    var s := states[n];
    && id in s.reqs && s.reqs[id].me == me && s.reqs[id].mask == states[k].online
    && (s.reqs[id].phase != Masked ==> 1 <= s.reqs[id].gen <= |s.times| && k < s.times[s.reqs[id].gen - 1])
    && forall c :: c in s.reqs[id].dropped ==> SeenOff(states, steps, id, c, k, n)
  }

  ghost predicate SeenOff(states: seq<State>, steps: seq<Step>, id: nat, c: nat, k: nat, n: nat)
    requires n < |states| && |states| == |steps| + 1
  {
    exists d :: k < d < n && steps[d] == DropOffline(id) && c !in states[d].online
  }

  lemma FollowsStep(states: seq<State>, steps: seq<Step>, id: nat, me: nat, k: nat, n: nat)
    requires Run(states, steps) && k < n < |steps| && Follows(states, steps, id, me, k, n)
    ensures Follows(states, steps, id, me, k, n + 1)
  {
    RunKeepsInv(states, steps, n);
    RunDated(states, steps, n);
    var s, t, e := states[n], states[n + 1], steps[n];
    assert t == Apply(s, e);
    TouchesOne(s, e, id);
    forall c | c in t.reqs[id].dropped ensures SeenOff(states, steps, id, c, k, n + 1) {
      if c in s.reqs[id].dropped {
        var d :| k < d < n && steps[d] == DropOffline(id) && c !in states[d].online;
      } else {
        assert steps[n] == DropOffline(id) && c !in states[n].online;
      }
    }
  }

  /** What one step can do to one request. */
  lemma TouchesOne(s: State, e: Step, id: nat)
    requires Shaped(s) && Enabled(s, e) && id in s.reqs
    ensures var t := Apply(s, e);
            && id in t.reqs && t.reqs[id].me == s.reqs[id].me && t.reqs[id].mask == s.reqs[id].mask
            && s.times <= t.times
            && (s.reqs[id].phase != Masked ==> t.reqs[id].phase != Masked && t.reqs[id].gen == s.reqs[id].gen)
            && (s.reqs[id].phase == Masked && t.reqs[id].phase != Masked ==>
                  e == Take(id) && t.reqs[id].gen == |t.times| && t.times == s.times + [s.now])
            && forall c :: c in t.reqs[id].dropped ==>
               c in s.reqs[id].dropped || (e == DropOffline(id) && c !in s.online)
  {}

  lemma {:induction false} RunFollows(states: seq<State>, steps: seq<Step>, id: nat, me: nat, k: nat, n: nat)
    requires Run(states, steps) && k < n <= |steps| && steps[k] == ReadMask(id, me)
    ensures Follows(states, steps, id, me, k, n)
    decreases n
  {
    if n == k + 1 {
      RunKeepsInv(states, steps, k);
      assert states[n] == Apply(states[k], steps[k]);
    } else {
      RunFollows(states, steps, id, me, k, n - 1);
      hide Follows;
      FollowsStep(states, steps, id, me, k, n - 1);
    }
  }

  /** Core c flushed after the request id, begun at step k, took its generation. */
  ghost predicate FlushedSince(steps: seq<Step>, id: nat, c: nat, k: nat, n: nat)
    requires n <= |steps|
  {
    exists t, f :: k < t < f < n && steps[t] == Take(id) && steps[f] == HandlerFlush(c)
  }

  /** Over every interleaving: if a shootdown read the mask at step k and returns at step n, then
      every other core that was online before step k has run its flush after the request
      took its generation, or was off when the request looked in between. */
  lemma ShootdownReturns(states: seq<State>, steps: seq<Step>, id: nat, me: nat, k: nat, n: nat)
    requires Run(states, steps) && k < n < |steps| && steps[k] == ReadMask(id, me) && steps[n] == Return(id)
    ensures forall c :: c in states[k].online && c != me ==>
              FlushedSince(steps, id, c, k, n) || SeenOff(states, steps, id, c, k, n)
  {
    RunFollows(states, steps, id, me, k, n);
    RunKeepsInv(states, steps, n);
    RunDated(states, steps, n);
    RunDated(states, steps, k);
    var s := states[n];
    var r := s.reqs[id];
    assert Enabled(s, Return(id)) && RequestOk(s, r);
    forall c | c in states[k].online && c != me
      ensures FlushedSince(steps, id, c, k, n) || SeenOff(states, steps, id, c, k, n) {
      assert c in r.todo + r.pending + r.acked + r.dropped;
      if c !in r.dropped {
        assert FlushedAfter(s, c, r.gen) && FlushDated(s, steps, n, c) && TakeDated(s, steps, n, r, id);
        var t, f := s.times[r.gen - 1], s.flushAt[c];
        assert k < t < f < n && steps[t] == Take(id) && steps[f] == HandlerFlush(c);
      }
    }
  }

  // ---- no lost signal ----

  /** Core c still owes or has given an answer for generation g: its signal is raised, its handler
      has read a generation at least g, or it has acknowledged one. */
  predicate Reached(s: State, c: nat, g: nat)
    requires Shaped(s) && c < CORES
  {
    c in s.sgi || (!s.handler[c].Quiet? && s.handler[c].gen >= g) || s.ackGen[c] >= g
  }

  ghost predicate Signalled(s: State)
    requires Shaped(s)
  {
    && (forall c :: c in s.online ==> c < CORES)
    && (forall id, c :: id in s.reqs && c in s.reqs[id].mask ==> c < CORES)
    && (forall c :: 0 <= c < CORES && !s.handler[c].Quiet? ==> s.ackGen[c] <= s.handler[c].gen)
    && forall id, c :: id in s.reqs && c in s.reqs[id].pending ==> c < CORES && Reached(s, c, s.reqs[id].gen)
  }

  lemma SignalledStep(s: State, e: Step)
    requires Inv(s) && Signalled(s) && Enabled(s, e)
    ensures Shaped(Apply(s, e)) && Signalled(Apply(s, e))
  {
    var t := Apply(s, e);
    forall c | 0 <= c < CORES && !t.handler[c].Quiet? ensures t.ackGen[c] <= t.handler[c].gen {
      assert PeerOk(s, c);
    }
    forall id, c | id in t.reqs && c in t.reqs[id].pending
      ensures c < CORES && Reached(t, c, t.reqs[id].gen)
    {
      assert id in s.reqs ==> RequestOk(s, s.reqs[id]);
    }
  }

  /** In every reachable state, each peer a request waits for has its signal raised, is handling a
      generation at least as late, or has acknowledged one. */
  lemma {:induction false} RunSignalled(states: seq<State>, steps: seq<Step>, n: nat)
    requires Run(states, steps) && n <= |steps|
    ensures Shaped(states[n]) && Signalled(states[n])
  {
    RunKeepsInv(states, steps, n);
    if n > 0 {
      RunSignalled(states, steps, n - 1);
      RunKeepsInv(states, steps, n - 1);
      hide Signalled, Apply;
      SignalledStep(states[n - 1], steps[n - 1]);
    }
  }

  /** Core c's handler run to its end. */
  function Settle(s: State, c: nat): State
    requires Shaped(s) && c < CORES
  {
    match s.handler[c]
    case Quiet => s
    case GotSeq(_, _) => Apply(Apply(s, HandlerFlush(c)), HandlerAck(c))
    case Flushed(_, _) => Apply(s, HandlerAck(c))
  }

  /** Core c finishes the signal it is handling and answers the one raised, if any. */
  function Serve(s: State, c: nat): State
    requires Shaped(s) && c < CORES
  {
    var t := Settle(s, c);
    if c in t.sgi then Settle(Apply(t, HandlerRead(c)), c) else t
  }

  lemma SettleExact(s: State, c: nat)
    requires Shaped(s) && c < CORES
    ensures var t := Settle(s, c);
            && Shaped(t) && t.handler[c].Quiet? && t.sgi == s.sgi && t.reqs == s.reqs && t.times == s.times
            && t.seqWord == s.seqWord
            && t.ackGen[c] == (if s.handler[c].Quiet? then s.ackGen[c] else s.handler[c].gen)
            && t.ackWord[c] == (if s.handler[c].Quiet? then s.ackWord[c] else s.handler[c].word)
  {}

  /** A peer that serves its signal is no longer waited for: from every state of every run, the
      handler's own steps are enough for the next poll to pass. */
  lemma ServedIsAcked(s: State, id: nat, c: nat)
    requires Inv(s) && Signalled(s) && id in s.reqs && s.reqs[id].phase == Waiting && c in s.reqs[id].pending
    requires |s.times| - s.reqs[id].gen < HALF
    ensures Enabled(Serve(s, c), Poll(id, c)) && FreshPoll(Serve(s, c), Poll(id, c))
    ensures Apply(Serve(s, c), Poll(id, c)).reqs[id].pending == s.reqs[id].pending - {c}
  {
    assert PeerOk(s, c) && RequestOk(s, s.reqs[id]) && Reached(s, c, s.reqs[id].gen);
    var t := Settle(s, c);
    SettleExact(s, c);
    if c in t.sgi { SettleExact(Apply(t, HandlerRead(c)), c); }
    hide Settle;
    var u := Serve(s, c);
    assert u.reqs == s.reqs && u.times == s.times && u.ackGen[c] >= s.reqs[id].gen;
    assert u.ackWord[c] == u.ackGen[c] % M32;
    AckExact(u.ackGen[c], s.reqs[id].gen);
  }

  lemma Extended(states: seq<State>, steps: seq<Step>, e: Step) returns (longer: seq<State>)
    requires Run(states, steps)
    requires var s := states[|steps|]; Shaped(s) && Enabled(s, e) && FreshPoll(s, e)
    ensures Run(longer, steps + [e]) && longer == states + [Apply(states[|steps|], e)]
  {
    longer := states + [Apply(states[|steps|], e)];
  }

  const SIGNALS := [ReadMask(7, 0), Take(7), Send(7, 1)]

  /** Core 0 of two begins a shootdown. */
  lemma Begins(s: State) returns (states: seq<State>)
    requires Initial(s) && s.online == {0, 1}
    ensures Run(states, SIGNALS) && states[0] == s && states[3].online == s.online && Shaped(states[3])
    ensures 7 in states[3].reqs && states[3].reqs[7] == Request(Waiting, 0, {0, 1}, 1, 1, {}, {1}, {}, {})
    ensures states[3].sgi == {1} && states[3].handler[1].Quiet? && states[3].seqWord == |states[3].times| == 1
  {
    states := Extended([s], [], ReadMask(7, 0));
    states := Extended(states, [ReadMask(7, 0)], Take(7));
    assert s.online - {0} == {1} && {1} - {1} == {};
    states := Extended(states, [ReadMask(7, 0), Take(7)], Send(7, 1));
    assert {} + {1} == {1};
    assert SIGNALS == [ReadMask(7, 0), Take(7)] + [Send(7, 1)];
  }

  /** A shootdown that core 1 answers returns. */
  lemma Completes(s: State) returns (states: seq<State>, steps: seq<Step>)
    requires Initial(s) && s.online == {0, 1}
    ensures Run(states, steps) && states[0] == s && |steps| == 8 && steps[0] == ReadMask(7, 0)
    ensures steps[7] == Return(7) && FlushedSince(steps, 7, 1, 0, 7)
  {
    var s3 := Begins(s);
    hide Run;
    var s4 := Extended(s3, SIGNALS, HandlerRead(1));
    var s5 := Extended(s4, SIGNALS + [HandlerRead(1)], HandlerFlush(1));
    var s6 := Extended(s5, SIGNALS + [HandlerRead(1)] + [HandlerFlush(1)], HandlerAck(1));
    var sofar := SIGNALS + [HandlerRead(1)] + [HandlerFlush(1)] + [HandlerAck(1)];
    var s7 := Extended(s6, sofar, Poll(7, 1));
    states := Extended(s7, sofar + [Poll(7, 1)], Return(7));
    steps := sofar + [Poll(7, 1)] + [Return(7)];
    assert steps[1] == Take(7) && steps[4] == HandlerFlush(1);
  }

  /** A shootdown whose peer goes off returns too. */
  lemma GivesUp(s: State) returns (states: seq<State>, steps: seq<Step>)
    requires Initial(s) && s.online == {0, 1}
    ensures Run(states, steps) && states[0] == s && |steps| == 6 && steps[0] == ReadMask(7, 0)
    ensures steps[5] == Return(7) && SeenOff(states, steps, 7, 1, 0, 5) && !FlushedSince(steps, 7, 1, 0, 5)
  {
    var s3 := Begins(s);
    hide Run;
    var s4 := Extended(s3, SIGNALS, GoOffline(1));
    var s5 := Extended(s4, SIGNALS + [GoOffline(1)], DropOffline(7));
    states := Extended(s5, SIGNALS + [GoOffline(1)] + [DropOffline(7)], Return(7));
    steps := SIGNALS + [GoOffline(1)] + [DropOffline(7)] + [Return(7)];
    assert steps[4] == DropOffline(7) && 1 !in states[4].online;
  }
}
