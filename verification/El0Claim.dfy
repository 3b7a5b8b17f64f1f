/** Claiming and retiring session slots without a lock: one registrar writes a slot field by
    field while trap handlers on other cores scan the table and record exits in it. */
module El0Claim {

  const SLOTS := 64
  const RESET_FIELDS := 6

  datatype Slot = Slot(pdir: nat, exitCode: int, exited: bool, parked: bool, req: nat, elr: nat, sp: nat)

  /** Where register or unregister is: looking for the key, looking for a free slot, resetting
      `done` fields of a slot before publishing it, resetting them in a slot that is already
      published, looking for the slot to retire, or retiring it. */
  datatype Registrar =
    | Idle
    | Seeking(key: nat, i: nat)
    | Hunting(key: nat, i: nat)
    | Claiming(key: nat, i: nat, done: nat)
    | Rearming(key: nat, i: nat, done: nat)
    | Finding(key: nat, i: nat)
    | Retiring(key: nat, i: nat, done: nat)

  /** Where a trap handler that records an exit is: scanning for the current root, or writing
      into the slot it found. */
  datatype Trap = Quiet | Scanning(cur: nat, i: nat, code: int) | Writing(cur: nat, i: nat, code: int, done: nat)

  datatype State = State(slots: seq<Slot>, reg: Registrar, traps: seq<Trap>)

  datatype Step =
    | Register(key: nat)
    | Unregister(key: nat)
    | Advance
    | TrapIn(core: nat, cur: nat, code: int)
    | TrapOn(core: nat)

  // ---- the accesses ----

  /** Writes the reset value of one field, in the order of the source. */
  function ResetField(s: Slot, f: nat): Slot {
    match f
    case 0 => s.(exitCode := 0)
    case 1 => s.(exited := false)
    case 2 => s.(parked := false)
    case 3 => s.(req := 0)
    case 4 => s.(elr := 0)
    case _ => s.(sp := 0)
  }

  /** The first n fields hold their reset values. */
  predicate FirstReset(s: Slot, n: nat) {
    && (n > 0 ==> s.exitCode == 0) && (n > 1 ==> !s.exited) && (n > 2 ==> !s.parked)
    && (n > 3 ==> s.req == 0) && (n > 4 ==> s.elr == 0) && (n > 5 ==> s.sp == 0)
  }

  /** The registrar's next access. */
  function Registers(s: State): State
    requires |s.slots| == SLOTS
  {
    match s.reg
    case Idle => s
    case Seeking(key, i) =>
      if i >= SLOTS then s.(reg := Hunting(key, 0))
      else if s.slots[i].pdir == key then s.(reg := Rearming(key, i, 0)) else s.(reg := Seeking(key, i + 1))
    case Hunting(key, i) =>
      if i >= SLOTS then s.(reg := Idle)
      else if s.slots[i].pdir == 0 then s.(reg := Claiming(key, i, 0)) else s.(reg := Hunting(key, i + 1))
    case Claiming(key, i, done) =>
      if i >= SLOTS then s
      else if done < RESET_FIELDS then s.(slots := s.slots[i := ResetField(s.slots[i], done)],
        reg := Claiming(key, i, done + 1))
      else s.(slots := s.slots[i := s.slots[i].(pdir := key)], reg := Idle)
    case Rearming(key, i, done) =>
      if i >= SLOTS || done >= 4 then s.(reg := Idle)
      else s.(slots := s.slots[i := ResetField(s.slots[i], done)], reg := Rearming(key, i, done + 1))
    case Finding(key, i) =>
      if i >= SLOTS then s.(reg := Idle)
      else if s.slots[i].pdir == key then s.(reg := Retiring(key, i, 0)) else s.(reg := Finding(key, i + 1))
    case Retiring(key, i, done) =>
      if i >= SLOTS || done >= 5 then s.(reg := Idle)
      else if done == 0 then s.(slots := s.slots[i := s.slots[i].(pdir := 0)], reg := Retiring(key, i, 1))
      else s.(slots := s.slots[i := ResetField(s.slots[i], RetireOrder(done))], reg := Retiring(key, i, done + 1))
  }

  /** After the key, retiring clears exited, exit code, parked and request. */
  function RetireOrder(done: nat): nat { if done <= 1 then 1 else if done == 2 then 0 else done - 1 }

  /** A trap handler's next access. */
  function Traps(s: State, c: nat): State
    requires |s.slots| == SLOTS && c < |s.traps|
  {
    match s.traps[c]
    case Quiet => s
    case Scanning(cur, i, code) =>
      if i >= SLOTS then s.(traps := s.traps[c := Quiet])
      else if s.slots[i].pdir == cur then s.(traps := s.traps[c := Writing(cur, i, code, 0)])
      else s.(traps := s.traps[c := Scanning(cur, i + 1, code)])
    case Writing(cur, i, code, done) =>
      if i >= SLOTS then s
      else if done == 0
      then s.(slots := s.slots[i := s.slots[i].(exitCode := code)], traps := s.traps[c := Writing(cur, i, code, 1)])
      else s.(slots := s.slots[i := s.slots[i].(exited := true)], traps := s.traps[c := Quiet])
  }

  predicate Writes(s: State, i: nat) { exists c :: 0 <= c < |s.traps| && s.traps[c].Writing? && s.traps[c].i == i }

  /** Null roots never get this far, the registrar does one call at a time, and a core is in
      one trap at a time. */
  predicate Enabled(s: State, e: Step)
    requires |s.slots| == SLOTS
  {
    match e
    case Register(key) => key != 0 && s.reg.Idle?
    case Unregister(key) => key != 0 && s.reg.Idle?
    case Advance => true
    case TrapIn(c, cur, _) => cur != 0 && c < |s.traps| && s.traps[c].Quiet?
    case TrapOn(c) => c < |s.traps|
  }

  /** The step does not take a slot from under a handler that is writing to it. */
  predicate Considerate(s: State, e: Step) {
    e.Advance? && s.reg.Retiring? && s.reg.done == 0 ==> !Writes(s, s.reg.i)
  }

  function Apply(s: State, e: Step): (t: State)
    requires |s.slots| == SLOTS && Enabled(s, e)
    ensures |t.slots| == SLOTS
  {
    match e
    case Register(key) => s.(reg := Seeking(key, 0))
    case Unregister(key) => s.(reg := Finding(key, 0))
    case Advance => Registers(s)
    case TrapIn(c, cur, code) => s.(traps := s.traps[c := Scanning(cur, 0, code)])
    case TrapOn(c) => Traps(s, c)
  }

  // ---- what every interleaving keeps ----

  /** The registrar is where its scans say: no slot before the cursor holds the key, and none
      at all once the first scan is over. */
  ghost predicate Located(s: State)
    requires |s.slots| == SLOTS
  {
    match s.reg
    case Idle => true
    case Seeking(key, i) => key != 0 && forall j :: 0 <= j < i && j < SLOTS ==> s.slots[j].pdir != key
    case Hunting(key, i) => key != 0 && forall j :: 0 <= j < SLOTS ==> s.slots[j].pdir != key
    case Claiming(key, i, done) =>
      && key != 0 && i < SLOTS && done <= RESET_FIELDS && s.slots[i].pdir == 0 && FirstReset(s.slots[i], done)
      && forall j :: 0 <= j < SLOTS ==> s.slots[j].pdir != key
    case Rearming(key, i, done) => i < SLOTS && s.slots[i].pdir == key != 0
    case Finding(key, _) => key != 0
    case Retiring(key, i, done) => i < SLOTS && key != 0 && s.slots[i].pdir == if done == 0 then key else 0
  }

  /** Every handler that is writing writes to the slot its own root holds. */
  ghost predicate OwnSlots(s: State) {
    forall c :: 0 <= c < |s.traps| && s.traps[c].Writing? ==>
      s.traps[c].i < |s.slots| && s.slots[s.traps[c].i].pdir == s.traps[c].cur
  }

  /** Each root owns at most one slot, and handlers write to their own. */
  ghost predicate Inv(s: State) {
    && |s.slots| == SLOTS && Located(s) && OwnSlots(s)
    && (forall i, j :: 0 <= i < j < SLOTS && s.slots[i].pdir != 0 ==> s.slots[i].pdir != s.slots[j].pdir)
    && (forall c :: 0 <= c < |s.traps| && s.traps[c].Scanning? ==> s.traps[c].cur != 0)
    && (forall c :: 0 <= c < |s.traps| && s.traps[c].Writing? ==> s.traps[c].cur != 0)
  }

  lemma RegistrarKeeps(s: State)
    requires Inv(s) && Considerate(s, Advance)
    ensures Inv(Registers(s))
  {
    hide Registers, Located;
    RegistrarLocated(s);
    RegistrarOwns(s);
  }

  lemma RegistrarLocated(s: State)
    requires Inv(s)
    ensures |Registers(s).slots| == SLOTS && Located(Registers(s))
  {}

  /** Publishing finds the key nowhere and nobody writing; retiring finds nobody writing. */
  lemma RegistrarOwns(s: State)
    requires Inv(s) && Considerate(s, Advance)
    ensures var t := Registers(s);
            && t.traps == s.traps && |t.slots| == SLOTS
            && (forall i, j :: 0 <= i < j < SLOTS && t.slots[i].pdir != 0 ==> t.slots[i].pdir != t.slots[j].pdir)
            && (forall c :: 0 <= c < |t.traps| && t.traps[c].Writing? ==> t.slots[t.traps[c].i].pdir == t.traps[c].cur)
  {
    var t := Registers(s);
    if s.reg.Claiming? && s.reg.done >= RESET_FIELDS {
      assert forall j :: 0 <= j < SLOTS && j != s.reg.i ==> t.slots[j] == s.slots[j];
    } else if s.reg.Retiring? && s.reg.done == 0 {
      assert !Writes(s, s.reg.i);
    } else {
      assert forall j :: 0 <= j < SLOTS ==> t.slots[j].pdir == s.slots[j].pdir;
    }
  }

  lemma TrapKeeps(s: State, c: nat)
    requires Inv(s) && c < |s.traps|
    ensures Inv(Traps(s, c))
  {
    var t := Traps(s, c);
    assert forall j :: 0 <= j < SLOTS ==> t.slots[j].pdir == s.slots[j].pdir;
  }

  ghost predicate Runs(s: State, steps: seq<Step>)
    requires |s.slots| == SLOTS
    decreases steps
  {
    steps == [] || (Enabled(s, steps[0]) && Runs(Apply(s, steps[0]), steps[1..]))
  }

  ghost function Final(s: State, steps: seq<Step>): (t: State)
    requires |s.slots| == SLOTS && Runs(s, steps)
    ensures |t.slots| == SLOTS
    decreases steps
  {
    if steps == [] then s else Final(Apply(s, steps[0]), steps[1..])
  }

  /** No step of the run takes a slot from under its writer. */
  ghost predicate AllConsiderate(s: State, steps: seq<Step>)
    requires |s.slots| == SLOTS && Runs(s, steps)
    decreases steps
  {
    steps != [] ==> Considerate(s, steps[0]) && AllConsiderate(Apply(s, steps[0]), steps[1..])
  }

  /** Handlers write to their own roots' slots in every state of the run. */
  ghost predicate AlwaysOwn(s: State, steps: seq<Step>)
    requires |s.slots| == SLOTS && Runs(s, steps)
    decreases steps
  {
    OwnSlots(s) && (steps != [] ==> AlwaysOwn(Apply(s, steps[0]), steps[1..]))
  }

  /** Every considerate interleaving of one registrar with any number of trap handlers keeps
      the invariant. */
  lemma {:induction false} RunKeeps(s: State, steps: seq<Step>)
    requires Inv(s) && Runs(s, steps) && AllConsiderate(s, steps)
    ensures Inv(Final(s, steps))
    decreases steps
  {
    hide Inv;
    InvShape(s);
    if steps != [] {
      StepKeeps(s, steps[0]);
      RunKeeps(Apply(s, steps[0]), steps[1..]);
    }
  }

  /** Retiring a slot under its writer leaves the writer in a slot that is not its root's. */
  lemma Inconsiderate(s: State, e: Step)
    requires Inv(s) && Enabled(s, e) && !Considerate(s, e)
    ensures !OwnSlots(Apply(s, e))
  {
    var c :| 0 <= c < |s.traps| && s.traps[c].Writing? && s.traps[c].i == s.reg.i;
    assert Apply(s, e).traps[c] == s.traps[c];
  }

  /** For every run, exactly: handlers always write to their own roots' slots if and only if no
      slot is retired under its writer. */
  lemma {:induction false} OwnExactly(s: State, steps: seq<Step>)
    requires Inv(s) && Runs(s, steps)
    ensures AlwaysOwn(s, steps) <==> AllConsiderate(s, steps)
    decreases steps
  {
    hide Located;
    if steps != [] {
      if Considerate(s, steps[0]) {
        StepKeeps(s, steps[0]);
        OwnExactly(Apply(s, steps[0]), steps[1..]);
      } else {
        Inconsiderate(s, steps[0]);
      }
    }
  }

  /** At boot every slot is free and no core is in a trap. */
  function Boot(cores: nat): State {
    State(seq(SLOTS, _ => Slot(0, 0, false, false, 0, 0, 0)), Idle, seq(cores, _ => Quiet))
  }

  /** The same from boot, with everything that holds at the end of a considerate run. */
  lemma EveryRun(cores: nat, steps: seq<Step>)
    requires Runs(Boot(cores), steps)
    ensures AlwaysOwn(Boot(cores), steps) <==> AllConsiderate(Boot(cores), steps)
    ensures AllConsiderate(Boot(cores), steps) ==> Inv(Final(Boot(cores), steps))
  {
    AtBoot(cores);
    hide Inv;
    OwnExactly(Boot(cores), steps);
    if AllConsiderate(Boot(cores), steps) { RunKeeps(Boot(cores), steps); }
  }

  lemma AtBoot(cores: nat)
    ensures Inv(Boot(cores))
  {}

  lemma InvShape(s: State)
    requires Inv(s)
    ensures |s.slots| == SLOTS
  {}

  lemma StepKeeps(s: State, e: Step)
    requires Inv(s) && Enabled(s, e) && Considerate(s, e)
    ensures Inv(Apply(s, e))
  {
    match e
    case Register(_) =>
    case Unregister(_) =>
    case Advance => RegistrarKeeps(s);
    case TrapIn(_, _, _) =>
    case TrapOn(c) => TrapKeeps(s, c);
  }

  // ---- what that means ----

  /** A scan never finds a half-claimed slot: when it matches, the slot is not being claimed. */
  lemma NeverHalfClaimed(s: State, c: nat)
    requires Inv(s) && c < |s.traps| && s.traps[c].Scanning? && Traps(s, c).traps[c].Writing?
    ensures var i := s.traps[c].i; s.slots[i].pdir == s.traps[c].cur && !(s.reg.Claiming? && s.reg.i == i)
  {}

  /** A slot is published reset: neither exited nor parked, whoever used it before. */
  lemma PublishedFresh(s: State)
    requires Inv(s) && s.reg.Claiming? && s.reg.done == RESET_FIELDS
    ensures Registers(s).slots[s.reg.i] == Slot(s.reg.key, 0, false, false, 0, 0, 0)
    ensures forall j :: 0 <= j < SLOTS && j != s.reg.i ==> Registers(s).slots[j] == s.slots[j]
  {}

  /** An exit is recorded in the slot of the exiting root and in no other. */
  lemma ExitOwnSlot(s: State, c: nat)
    requires Inv(s) && c < |s.traps| && s.traps[c].Writing?
    ensures var i, t := s.traps[c].i, Traps(s, c);
            && t.slots[i].pdir == s.traps[c].cur
            && (s.traps[c].done == 0 ==> t.slots[i].exitCode == s.traps[c].code)
            && (s.traps[c].done != 0 ==> t.slots[i].exited)
            && forall j :: 0 <= j < SLOTS && j != i ==> t.slots[j] == s.slots[j]
  {}

  // ---- a run that goes wrong ----

  lemma {:induction false} RunAppend(s: State, a: seq<Step>, b: seq<Step>)
    requires |s.slots| == SLOTS && Runs(s, a) && Runs(Final(s, a), b)
    ensures Runs(s, a + b) && Final(s, a + b) == Final(Final(s, a), b)
    ensures AllConsiderate(s, a + b) ==> AllConsiderate(s, a)
    decreases a
  {
    if a == [] {
      assert a + b == b;
    } else {
      assert (a + b)[0] == a[0] && (a + b)[1..] == a[1..] + b;
      RunAppend(Apply(s, a[0]), a[1..], b);
    }
  }

  lemma OneStep(s: State, e: Step)
    requires |s.slots| == SLOTS && Enabled(s, e)
    ensures Runs(s, [e]) && Final(s, [e]) == Apply(s, e)
  {
    var t := Apply(s, e);
    assert [e][1..] == [] && Runs(t, []) && Final(t, []) == t;
  }

  /** A run with one more step. */
  lemma Then(s: State, a: seq<Step>, e: Step) returns (b: seq<Step>)
    requires |s.slots| == SLOTS && Runs(s, a) && Enabled(Final(s, a), e)
    ensures Runs(s, b) && Final(s, b) == Apply(Final(s, a), e)
    ensures AllConsiderate(s, b) ==> AllConsiderate(s, a)
  {
    b := a + [e];
    OneStep(Final(s, a), e);
    RunAppend(s, a, [e]);
  }

  /** The first scan of register walks past every slot when none holds the key. */
  lemma {:induction false} SeekOn(s: State, a: seq<Step>, n: nat) returns (b: seq<Step>)
    requires |s.slots| == SLOTS && Runs(s, a) && Final(s, a).reg.Seeking? && Final(s, a).reg.i + n == SLOTS
    requires forall j :: 0 <= j < SLOTS ==> Final(s, a).slots[j].pdir != Final(s, a).reg.key
    ensures Runs(s, b) && Final(s, b) == Final(s, a).(reg := Seeking(Final(s, a).reg.key, SLOTS))
    ensures AllConsiderate(s, b) ==> AllConsiderate(s, a)
    decreases n
  {
    b := a;
    if n > 0 {
      b := Then(s, a, Advance);
      b := SeekOn(s, b, n - 1);
    }
  }

  /** The first n fields reset. */
  function Cleared(s: Slot, n: nat): Slot { if n == 0 then s else ResetField(Cleared(s, n - 1), n - 1) }

  lemma {:induction false} ClaimOn(s: State, a: seq<Step>, n: nat) returns (b: seq<Step>)
    requires |s.slots| == SLOTS && Runs(s, a) && n <= RESET_FIELDS
    requires Final(s, a).reg.Claiming? && Final(s, a).reg.i == 0 && Final(s, a).reg.done == 0
    ensures Runs(s, b) && (AllConsiderate(s, b) ==> AllConsiderate(s, a))
    ensures Final(s, b) == Final(s, a).(reg := Claiming(Final(s, a).reg.key, 0, n),
                                        slots := Final(s, a).slots[0 := Cleared(Final(s, a).slots[0], n)])
  {
    b := a;
    var t := Final(s, a);
    if n == 0 {
      assert t.slots[0 := t.slots[0]] == t.slots;
    } else {
      b := ClaimOn(s, a, n - 1);
      b := Then(s, b, Advance);
    }
  }

  lemma AllCleared(s: Slot)
    ensures Cleared(s, RESET_FIELDS) == Slot(s.pdir, 0, false, false, 0, 0, 0)
  {
    var s1, s2 := Cleared(s, 1), Cleared(s, 2);
    assert s1 == ResetField(Cleared(s, 0), 0) == s.(exitCode := 0);
    assert s2 == ResetField(s1, 1);
    var s3, s4 := Cleared(s, 3), Cleared(s, 4);
    assert s3 == ResetField(s2, 2) && s4 == ResetField(s3, 3);
  }

  /** Registering a new root while slot 0 is free, up to the point where only the key is missing. */
  lemma ClaimFirst(s: State, a: seq<Step>, key: nat) returns (b: seq<Step>)
    requires |s.slots| == SLOTS && Runs(s, a) && Final(s, a).reg.Idle? && key != 0
    requires Final(s, a).slots[0].pdir == 0 && forall j :: 0 <= j < SLOTS ==> Final(s, a).slots[j].pdir != key
    ensures Runs(s, b) && (AllConsiderate(s, b) ==> AllConsiderate(s, a))
    ensures Final(s, b) == Final(s, a).(reg := Claiming(key, 0, RESET_FIELDS),
                                        slots := Final(s, a).slots[0 := Slot(0, 0, false, false, 0, 0, 0)])
  {
    b := Then(s, a, Register(key));
    b := SeekOn(s, b, SLOTS);
    b := Then(s, b, Advance);
    b := Then(s, b, Advance);
    b := ClaimOn(s, b, RESET_FIELDS);
    AllCleared(Final(s, a).slots[0]);
  }

  /** Unregistering the root in slot 0. */
  lemma RetireFirst(s: State, a: seq<Step>, key: nat) returns (b: seq<Step>)
    requires |s.slots| == SLOTS && Runs(s, a) && Final(s, a).reg.Idle? && key != 0
    requires Final(s, a).slots[0] == Slot(key, 0, false, false, 0, 0, 0)
    ensures Runs(s, b) && (AllConsiderate(s, b) ==> AllConsiderate(s, a))
    ensures Final(s, b) == Final(s, a).(slots := Final(s, a).slots[0 := Slot(0, 0, false, false, 0, 0, 0)])
  {
    hide AllConsiderate;
    var free := Final(s, a).slots[0 := Slot(0, 0, false, false, 0, 0, 0)];
    b := Then(s, a, Unregister(key));
    b := Then(s, b, Advance);
    b := Then(s, b, Advance);
    assert Final(s, b) == Final(s, a).(slots := free, reg := Retiring(key, 0, 1));
    b := Then(s, b, Advance);
    assert Final(s, b) == Final(s, a).(slots := free, reg := Retiring(key, 0, 2));
    b := Then(s, b, Advance);
    assert Final(s, b) == Final(s, a).(slots := free, reg := Retiring(key, 0, 3));
    b := Then(s, b, Advance);
    assert Final(s, b) == Final(s, a).(slots := free, reg := Retiring(key, 0, 4));
    b := Then(s, b, Advance);
    assert Final(s, b) == Final(s, a).(slots := free, reg := Retiring(key, 0, 5));
    b := Then(s, b, Advance);
  }

  /** Root a is registered and traps; its slot is retired while the handler is writing. */
  lemma RetiredUnderWriter(a: nat, code: int) returns (steps: seq<Step>)
    requires a != 0
    ensures Runs(Boot(1), steps) && Final(Boot(1), steps) == Boot(1).(traps := [Writing(a, 0, code, 0)])
    ensures !AllConsiderate(Boot(1), steps)
  {
    hide AllConsiderate;
    var s := Boot(1);
    steps := ClaimFirst(s, [], a);
    steps := Then(s, steps, Advance);
    assert Final(s, steps) == s.(slots := s.slots[0 := Slot(a, 0, false, false, 0, 0, 0)]);
    steps := Then(s, steps, TrapIn(0, a, code));
    steps := Then(s, steps, TrapOn(0));
    steps := RetireFirst(s, steps, a);
    var t := Final(s, steps);
    assert t.slots == s.slots && t.reg.Idle? && t.traps == [Writing(a, 0, code, 0)];
    assert t.traps[0].Writing? && !OwnSlots(t);
    EveryRun(1, steps);
  }

  /** A run from boot on one core: root a is registered, traps and finds its slot; the slot is
      retired and claimed for root b; the handler's two late writes and the publication end
      with a's exit in b's slot. */
  lemma LateExitLeaks(a: nat, b: nat, code: int) returns (steps: seq<Step>)
    requires a != 0 && b != 0 && a != b
    ensures Runs(Boot(1), steps) && !AllConsiderate(Boot(1), steps)
    ensures var t := Final(Boot(1), steps);
            && t.reg.Idle? && t.traps == [Quiet]
            && t.slots[0].pdir == b && t.slots[0].exited && t.slots[0].exitCode == code
  {
    var s := Boot(1);
    steps := RetiredUnderWriter(a, code);
    steps := ClaimFirst(s, steps, b);
    steps := Then(s, steps, TrapOn(0));
    steps := Then(s, steps, TrapOn(0));
    steps := Then(s, steps, Advance);
  }
}
