/** The table of user sessions: one slot per page directory, holding the frame a session
    trapped with until it is resumed. */
module El0Table {
  import opened Options

  const SLOTS := 64
  const WORDS := 112
  const CORES := 32
  const EFAULT := -14
  const EINVAL := -22
  const ENOSPC := -28
  const REQ_FAULT := 0x1F
  const REQ_PREEMPT := 0x1E
  const REQ_KILL := 0x1D

  type Frame = f: seq<nat> | |f| == WORDS witness seq(WORDS, _ => 0)

  datatype Slot = Slot(pdir: nat, save: Frame, elr: nat, sp: nat, req: nat, parked: bool,
                       exitCode: int, exited: bool, faultVa: nat)

  /** What the processor is entered with. */
  datatype Context = Context(frame: Frame, elr: nat, sp: nat)

  /** The table, the exit record of sessions without a slot, and the quantum counters. */
  datatype El0 = El0(slots: seq<Slot>, exited: bool, exitCode: int, left: seq<nat>, quantum: nat, runnable: nat)
  {
    /** Each nonzero page directory owns at most one slot. */
    ghost predicate Valid() {
      && |slots| == SLOTS && |left| == CORES && quantum >= 1
      && forall i, j :: 0 <= i < j < SLOTS && slots[i].pdir != 0 ==> slots[i].pdir != slots[j].pdir
    }
  }

  function FreeSlot(): Slot { Slot(0, seq(WORDS, _ => 0), 0, 0, 0, false, 0, false, 0) }

  // ---- lookup ----

  /** The first slot with a key, or the table's length. */
  function Index(slots: seq<Slot>, key: nat): nat {
    if slots == [] then 0 else if slots[0].pdir == key then 0 else 1 + Index(slots[1..], key)
  }

  lemma {:induction false} IndexExact(slots: seq<Slot>, key: nat)
    ensures var i := Index(slots, key);
            i <= |slots| && (i < |slots| ==> slots[i].pdir == key) && forall j :: 0 <= j < i ==> slots[j].pdir != key
  {
    if slots != [] && slots[0].pdir != key {
      IndexExact(slots[1..], key);
      forall j | 0 < j < Index(slots, key) ensures slots[j].pdir != key { assert slots[j] == slots[1..][j - 1]; }
    }
  }

  lemma IndexIs(slots: seq<Slot>, key: nat, i: nat)
    requires i <= |slots| && (i < |slots| ==> slots[i].pdir == key) && forall j :: 0 <= j < i ==> slots[j].pdir != key
    ensures Index(slots, key) == i
  {
    IndexExact(slots, key);
  }

  function SlotOf(s: El0, p: nat): Option<Slot> {
    IndexExact(s.slots, p);
    if Index(s.slots, p) < |s.slots| then Some(s.slots[Index(s.slots, p)]) else None
  }

  // ---- what each operation does ----

  function Reset(s: El0, core: nat): El0 { if core < |s.left| then s.(left := s.left[core := s.quantum]) else s }

  function Put(s: El0, key: nat, slot: Slot): El0 {
    if Index(s.slots, key) < |s.slots| then s.(slots := s.slots[Index(s.slots, key) := slot]) else s
  }

  function Register(s: El0, p: nat): (El0, int) {
    if p == 0 then (s, EINVAL) else
    match SlotOf(s, p)
    case Some(mine) => (Put(s, p, mine.(exitCode := 0, exited := false, parked := false, req := 0)), 0)
    case None =>
      match SlotOf(s, 0)
      case Some(f) => (Put(s, 0,
        f.(exitCode := 0, exited := false, parked := false, req := 0, elr := 0, sp := 0, pdir := p)), 0)
      case None => (s, ENOSPC)
  }

  function Unregister(s: El0, p: nat): El0 {
    if p == 0 || SlotOf(s, p).None? then s
    else Put(s, p, SlotOf(s, p).value.(pdir := 0, exitCode := 0, exited := false, parked := false, req := 0))
  }

  /** An exit code reaches the exiting root's slot, or the global record when it has none. */
  function SetExit(s: El0, cur: nat, code: int): El0 {
    if cur != 0 && SlotOf(s, cur).Some? then Put(s, cur, SlotOf(s, cur).value.(exitCode := code, exited := true))
    else s.(exited := true, exitCode := code)
  }

  /** Saves the trapped context of the current root, if it has a slot. */
  function Save(s: El0, cur: nat, c: Context, req: nat, va: Option<nat>): (El0, int) {
    if cur == 0 || SlotOf(s, cur).None? then (s, 0) else
    var slot := SlotOf(s, cur).value;
    (Put(s, cur, slot.(save := c.frame, elr := c.elr, sp := c.sp, req := req, parked := true,
                       faultVa := if va.Some? then va.value else slot.faultVa)), 1)
  }

  /** The address of the page holding va. */
  function PageOf(va: nat): (r: nat)
    ensures r % 4096 == 0 && r <= va < r + 4096
  {
    va / 4096 * 4096
  }

  function Clone(s: El0, parent: nat, child: nat): (El0, int) {
    if parent == 0 || child == 0 then (s, EINVAL) else
    match (SlotOf(s, parent), SlotOf(s, child))
    case (Some(p), Some(c)) =>
      if !p.parked then (s, EINVAL)
      else (Put(s, child, c.(save := p.save[0 := 0], elr := p.elr, sp := p.sp, req := 0, parked := true,
                             exitCode := 0, exited := false)), 0)
    case _ => (s, EINVAL)
  }

  function SetEntry(s: El0, p: nat, entry: nat, sp: nat): (El0, int) {
    if p == 0 || SlotOf(s, p).None? || !SlotOf(s, p).value.parked then (s, EINVAL)
    else (Put(s, p, SlotOf(s, p).value.(save := seq(WORDS, _ => 0), elr := entry, sp := sp, req := 0)), 0)
  }

  /** Resuming a parked session hands its saved context to the processor, x0 replaced. */
  function Resume(s: El0, core: nat, p: nat, res: nat): (El0, int, Option<Context>) {
    if p == 0 || SlotOf(s, p).None? then (s, EINVAL, None) else
    var slot := SlotOf(s, p).value;
    if !slot.parked then (s, 0, None) else
    var slot' := slot.(save := slot.save[0 := res], parked := false);
    (Reset(Put(s, p, slot'), core), 0, Some(Context(slot'.save, slot.elr, slot.sp)))
  }

  /** One timer tick: count down, and on expiry rearm and park if someone else waits. */
  function Tick(s: El0, core: nat, cur: nat, c: Option<Context>, isEl0: bool): (El0, int) {
    if core >= |s.left| || !isEl0 || c.None? then (s, 0) else
    if s.left[core] > 1 then (s.(left := s.left[core := s.left[core] - 1]), 0) else
    var s1 := s.(left := s.left[core := if s.quantum == 0 then 1 else s.quantum]);
    if s.runnable == 0 then (s1, 0) else Save(s1, cur, c.value, REQ_PREEMPT, Some(0))
  }

  // ---- the table in memory ----

  class Table {
    var slots: seq<Slot>
    var exited: bool
    var exitCode: int
    var left: seq<nat>
    var quantum: nat
    var runnable: nat

    ghost function Now(): El0 reads this { El0(slots, exited, exitCode, left, quantum, runnable) }

    constructor ()
      ensures Now().Valid() && Now() == El0(seq(SLOTS, _ => FreeSlot()), false, 0, seq(CORES, _ => 10), 10, 0)
    {
      slots, exited, exitCode := seq(SLOTS, _ => FreeSlot()), false, 0;
      left, quantum, runnable := seq(CORES, _ => 10), 10, 0;
    }

    method Find(key: nat) returns (i: nat)
      ensures i == Index(slots, key) && i <= |slots| && (i < |slots| ==> slots[i].pdir == key)
    {
      for k := 0 to |slots|
        invariant forall j :: 0 <= j < k ==> slots[j].pdir != key
      {
        if slots[k].pdir == key { IndexIs(slots, key, k); return k; }
      }
      IndexIs(slots, key, |slots|);
      return |slots|;
    }

    method ResetQuantum(core: nat)
      modifies this
      ensures Now() == Reset(old(Now()), core)
    {
      if core < |left| { left := left[core := quantum]; }
    }

    method SetQuantum(n: nat)
      requires Now().Valid()
      modifies this
      ensures Now().Valid() && Now() == old(Now()).(quantum := if n == 0 then 1 else n)
    {
      quantum := if n == 0 then 1 else n;
    }

    method SetRunnable(n: nat)
      requires Now().Valid()
      modifies this
      ensures Now().Valid() && Now() == old(Now()).(runnable := n)
    {
      runnable := n;
    }

    method RegisterSlot(p: nat) returns (r: int)
      requires Now().Valid()
      modifies this
      ensures Now().Valid() && (Now(), r) == Register(old(Now()), p)
    {
      KeepsValid(Now(), Registers(p));
      if p == 0 { return EINVAL; }
      var i := Find(p);
      if i < |slots| {
        slots := slots[i := slots[i].(exitCode := 0, exited := false, parked := false, req := 0)];
        return 0;
      }
      i := Find(0);
      if i < |slots| {
        slots := slots[i := slots[i].(exitCode := 0, exited := false, parked := false, req := 0, elr := 0, sp := 0,
          pdir := p)];
        return 0;
      }
      return ENOSPC;
    }

    method UnregisterSlot(p: nat)
      requires Now().Valid()
      modifies this
      ensures Now().Valid() && Now() == Unregister(old(Now()), p)
    {
      KeepsValid(Now(), Unregisters(p));
      if p == 0 { return; }
      var i := Find(p);
      if i < |slots| {
        slots := slots[i := slots[i].(pdir := 0, exitCode := 0, exited := false, parked := false, req := 0)];
      }
    }

    method SetExitCode(cur: nat, code: int)
      requires Now().Valid()
      modifies this
      ensures Now().Valid() && Now() == SetExit(old(Now()), cur, code)
    {
      KeepsValid(Now(), Exits(cur, code));
      if cur != 0 {
        var i := Find(cur);
        if i < |slots| {
          slots := slots[i := slots[i].(exitCode := code, exited := true)];
          return;
        }
      }
      exited, exitCode := true, code;
    }

    /** The exit code once there is one; 0 while live or unknown. */
    method ExitStatus(p: nat, out: bool) returns (r: int, code: Option<int>)
      requires Now().Valid()
      ensures r == if p == 0 || !out then EFAULT
                   else if SlotOf(Now(), p).Some? && SlotOf(Now(), p).value.exited then 1 else 0
      ensures code == if r == 1 then Some(SlotOf(Now(), p).value.exitCode) else None
    {
      if p == 0 || !out { return EFAULT, None; }
      var i := Find(p);
      if i < |slots| && slots[i].exited { return 1, Some(slots[i].exitCode); }
      return 0, None;
    }

    method SaveContext(cur: nat, c: Context, req: nat, va: Option<nat>) returns (r: int)
      requires Now().Valid()
      modifies this
      ensures Now().Valid() && (Now(), r) == Save(old(Now()), cur, c, req, va)
    {
      KeepsValid(Now(), Parks(cur, c, req, va));
      if cur == 0 { return 0; }
      var i := Find(cur);
      if i == |slots| { return 0; }
      slots := slots[i := slots[i].(save := c.frame, elr := c.elr, sp := c.sp, req := req, parked := true,
                                    faultVa := if va.Some? then va.value else slots[i].faultVa)];
      return 1;
    }

    method Park(core: nat, cur: nat, c: Option<Context>, imm: nat) returns (r: int)
      requires Now().Valid()
      modifies this
      ensures Now().Valid()
      ensures (Now(), r) == if c.None? then (old(Now()), 0) else Save(Reset(old(Now()), core), cur, c.value, imm, None)
      ensures c.Some? && core < CORES ==> left == old(left)[core := quantum]
      ensures r == 1 <==> c.Some? && cur != 0 && SlotOf(old(Now()), cur).Some?
    {
      if c.None? { return 0; }
      ResetQuantum(core);
      r := SaveContext(cur, c.value, imm, None);
    }

    method ParkFault(core: nat, cur: nat, c: Option<Context>, far: nat) returns (r: int)
      requires Now().Valid()
      modifies this
      ensures Now().Valid()
      ensures (Now(), r) == if c.None? then (old(Now()), 0)
                            else Save(Reset(old(Now()), core), cur, c.value, REQ_FAULT, Some(PageOf(far)))
      ensures c.Some? && core < CORES ==> left == old(left)[core := quantum]
      ensures r == 1 <==> c.Some? && cur != 0 && SlotOf(old(Now()), cur).Some?
      ensures r == 1 ==>
                && Parked(Now(), cur) == c && SlotOf(Now(), cur).Some?
                && SlotOf(Now(), cur).value.req == 0x1F && SlotOf(Now(), cur).value.faultVa == far / 4096 * 4096
    {
      if c.None? { return 0; }
      ResetQuantum(core);
      SaveExact(Now(), cur, c.value, REQ_FAULT, Some(PageOf(far)));
      r := SaveContext(cur, c.value, REQ_FAULT, Some(PageOf(far)));
    }

    method ParkKill(core: nat, cur: nat, c: Option<Context>, far: nat) returns (r: int)
      requires Now().Valid()
      modifies this
      ensures Now().Valid()
      ensures (Now(), r) == if c.None? then (old(Now()), 0)
                            else Save(Reset(old(Now()), core), cur, c.value, REQ_KILL, Some(PageOf(far)))
      ensures c.Some? && core < CORES ==> left == old(left)[core := quantum]
      ensures r == 1 <==> c.Some? && cur != 0 && SlotOf(old(Now()), cur).Some?
      ensures r == 1 ==>
                && Parked(Now(), cur) == c && SlotOf(Now(), cur).Some?
                && SlotOf(Now(), cur).value.req == 0x1D && SlotOf(Now(), cur).value.faultVa == far / 4096 * 4096
    {
      if c.None? { return 0; }
      ResetQuantum(core);
      SaveExact(Now(), cur, c.value, REQ_KILL, Some(PageOf(far)));
      r := SaveContext(cur, c.value, REQ_KILL, Some(PageOf(far)));
    }

    method TickPreempt(core: nat, cur: nat, c: Option<Context>, isEl0: bool) returns (r: int)
      requires Now().Valid()
      modifies this
      ensures Now().Valid() && (Now(), r) == Tick(old(Now()), core, cur, c, isEl0)
      ensures r == 1 <==>
                && core < CORES && isEl0 && c.Some? && old(left)[core] <= 1 && runnable > 0
                && cur != 0 && SlotOf(old(Now()), cur).Some?
      ensures r == 1 ==>
                && Parked(Now(), cur) == c && SlotOf(Now(), cur).Some?
                && SlotOf(Now(), cur).value.req == 0x1E && SlotOf(Now(), cur).value.faultVa == 0
      ensures r == 0 ==> slots == old(slots)
    {
      TickExact(Now(), core, cur, c, isEl0);
      if core >= CORES || !isEl0 || c.None? { return 0; }
      if left[core] > 1 {
        left := left[core := left[core] - 1];
        return 0;
      }
      left := left[core := if quantum == 0 then 1 else quantum];
      if runnable == 0 { return 0; }
      r := SaveContext(cur, c.value, REQ_PREEMPT, Some(0));
    }

    /** The request and x0..x3 of a parked session. */
    method TakeRequest(p: nat, out: bool) returns (r: int, req: nat, args: seq<nat>)
      requires Now().Valid()
      ensures r == if p == 0 || !out then EFAULT
                   else if SlotOf(Now(), p).Some? && SlotOf(Now(), p).value.parked then 1 else 0
      ensures r == 1 ==> req == SlotOf(Now(), p).value.req && args == SlotOf(Now(), p).value.save[..4]
    {
      if p == 0 || !out { return EFAULT, 0, []; }
      var i := Find(p);
      if i < |slots| && slots[i].parked { return 1, slots[i].req, slots[i].save[..4]; }
      return 0, 0, [];
    }

    /** The page a parked session faulted on; 0 when it waits for anything else. */
    method FaultAddr(p: nat) returns (va: nat)
      requires Now().Valid()
      ensures va == if p != 0 && SlotOf(Now(), p).Some? && SlotOf(Now(), p).value.parked
                       && SlotOf(Now(), p).value.req in {0x1F, 0x1D}
                    then SlotOf(Now(), p).value.faultVa else 0
    {
      if p == 0 { return 0; }
      var i := Find(p);
      if i < |slots| && slots[i].parked && (slots[i].req == REQ_FAULT || slots[i].req == REQ_KILL) {
        return slots[i].faultVa;
      }
      return 0;
    }

    /** Scans the whole table, remembering the last match for either key. */
    method CloneSlot(parent: nat, child: nat) returns (r: int)
      requires Now().Valid()
      modifies this
      ensures Now().Valid() && (Now(), r) == Clone(old(Now()), parent, child)
    {
      KeepsValid(Now(), Forks(parent, child));
      if parent == 0 || child == 0 { return EINVAL; }
      var p: nat, c: nat := |slots|, |slots|;
      for i := 0 to |slots|
        invariant LastMatch(slots, parent, i, p) && LastMatch(slots, child, i, c)
      {
        if slots[i].pdir == parent { p := i; }
        if slots[i].pdir == child { c := i; }
      }
      OnlyMatch(Now(), parent, p);
      OnlyMatch(Now(), child, c);
      if p == |slots| || c == |slots| || !slots[p].parked { return EINVAL; }
      slots := slots[c := slots[c].(save := slots[p].save[0 := 0], elr := slots[p].elr, sp := slots[p].sp, req := 0,
                                    parked := true, exitCode := 0, exited := false)];
      return 0;
    }

    method SetEntryPoint(p: nat, entry: nat, sp: nat) returns (r: int)
      requires Now().Valid()
      modifies this
      ensures Now().Valid() && (Now(), r) == SetEntry(old(Now()), p, entry, sp)
    {
      KeepsValid(Now(), Execs(p, entry, sp));
      if p == 0 { return EINVAL; }
      var i := Find(p);
      if i == |slots| || !slots[i].parked { return EINVAL; }
      slots := slots[i := slots[i].(save := seq(WORDS, _ => 0), elr := entry, sp := sp, req := 0)];
      return 0;
    }

    /** `entered` is the context the processor goes to user mode with. */
    method ResumeSession(core: nat, p: nat, res: nat) returns (r: int, entered: Option<Context>)
      requires Now().Valid()
      modifies this
      ensures Now().Valid() && (Now(), r, entered) == Resume(old(Now()), core, p, res)
      ensures entered.Some? <==> p != 0 && Parked(old(Now()), p).Some?
      ensures entered.Some? ==>
                && r == 0 && Parked(Now(), p).None? && (core < CORES ==> left == old(left)[core := quantum])
                && var c := Parked(old(Now()), p).value; entered == Some(Context(c.frame[0 := res], c.elr, c.sp))
      ensures entered.None? ==> Now() == old(Now())
    {
      if p != 0 { ResumeUsesUp(Now(), core, p, res); }
      KeepsValid(Now(), Resumes(core, p, res));
      if p == 0 { return EINVAL, None; }
      var i := Find(p);
      if i == |slots| { return EINVAL, None; }
      if !slots[i].parked { return 0, None; }
      slots := slots[i := slots[i].(save := slots[i].save[0 := res], parked := false)];
      ResetQuantum(core);
      return 0, Some(Context(slots[i].save, slots[i].elr, slots[i].sp));
    }
  }

  ghost predicate LastMatch(slots: seq<Slot>, key: nat, n: int, i: nat) {
    && (i == |slots| || (i < n && i < |slots| && slots[i].pdir == key))
    && forall j :: 0 <= j < n && j < |slots| && slots[j].pdir == key ==> i < |slots| && j <= i
  }

  lemma OnlyMatch(s: El0, key: nat, i: nat)
    requires s.Valid() && key != 0 && LastMatch(s.slots, key, |s.slots|, i)
    ensures i == Index(s.slots, key)
  {
    IndexExact(s.slots, key);
  }

  // ---- runs ----

  datatype Event =
    | Registers(p: nat)
    | Unregisters(p: nat)
    | Exits(p: nat, code: int)
    | Parks(p: nat, c: Context, req: nat, va: Option<nat>)
    | Ticks(core: nat, p: nat, trapped: Option<Context>, isEl0: bool)
    | Forks(parent: nat, p: nat)
    | Execs(p: nat, entry: nat, sp: nat)
    | Resumes(core: nat, p: nat, res: nat)
    | Resets(core: nat)
    | Sets(q: nat, r: nat)

  /** The table after an operation, started by or on behalf of root e.p. */
  function Step(s: El0, e: Event): El0 {
    match e
    case Registers(p) => Register(s, p).0
    case Unregisters(p) => Unregister(s, p)
    case Exits(p, code) => SetExit(s, p, code)
    case Parks(p, c, req, va) => Save(s, p, c, req, va).0
    case Ticks(core, p, c, isEl0) => Tick(s, core, p, c, isEl0).0
    case Forks(parent, p) => Clone(s, parent, p).0
    case Execs(p, entry, sp) => SetEntry(s, p, entry, sp).0
    case Resumes(core, p, res) => Resume(s, core, p, res).0
    case Resets(core) => Reset(s, core)
    case Sets(q, r) => s.(quantum := if q == 0 then 1 else q, runnable := r)
  }

  lemma KeepsValid(s: El0, e: Event)
    requires s.Valid()
    ensures Step(s, e).Valid()
  {
    hide Index;
    match e
    case Registers(p) => Find(s, p); Find(s, 0);
    case Unregisters(p) => Find(s, p);
    case Exits(p, _) => Find(s, p);
    case Parks(p, _, _, _) => Find(s, p);
    case Ticks(_, p, _, _) => Find(s, p);
    case Forks(_, p) => Find(s, p);
    case Execs(p, _, _) => Find(s, p);
    case Resumes(_, p, _) => Find(s, p);
    case Resets(_) =>
    case Sets(_, _) =>
  }

  /** Replacing a slot keeps keys unique if the new key is the old one, 0 or unused. */
  lemma Find(s: El0, key: nat)
    requires s.Valid()
    ensures Index(s.slots, key) <= SLOTS
    ensures SlotOf(s, key).Some? ==> SlotOf(s, key).value.pdir == key
    ensures forall slot: Slot :: slot.pdir == key || slot.pdir == 0 || SlotOf(s, slot.pdir).None? ==>
            Put(s, key, slot).Valid()
  {
    IndexExact(s.slots, key);
    forall slot: Slot | slot.pdir == key || slot.pdir == 0 || SlotOf(s, slot.pdir).None?
      ensures Put(s, key, slot).Valid() {
      IndexExact(s.slots, slot.pdir);
    }
  }

  /** Whether an operation leaves p's saved context alone: any operation on another root,
      and p's own exit. */
  predicate Leaves(e: Event, p: nat) { e.Resets? || e.Sets? || e.p != p || e.Exits? }

  /** The context a parked session waits with. */
  function Parked(s: El0, p: nat): Option<Context> {
    match SlotOf(s, p)
    case Some(slot) => if slot.parked then Some(Context(slot.save, slot.elr, slot.sp)) else None
    case None => None
  }

  lemma PutElsewhere(s: El0, key: nat, slot: Slot, p: nat)
    requires key != p && slot.pdir != p
    ensures SlotOf(Put(s, key, slot), p) == SlotOf(s, p)
  {
    IndexExact(s.slots, key);
    IndexExact(s.slots, p);
    if Index(s.slots, key) < |s.slots| { IndexIs(Put(s, key, slot).slots, p, Index(s.slots, p)); }
  }

  lemma PutFound(s: El0, p: nat, slot: Slot)
    requires slot.pdir == p && SlotOf(s, p).Some?
    ensures SlotOf(Put(s, p, slot), p) == Some(slot)
  {
    IndexExact(s.slots, p);
    IndexIs(Put(s, p, slot).slots, p, Index(s.slots, p));
  }

  lemma KeyOf(s: El0, p: nat)
    ensures SlotOf(s, p).Some? ==> SlotOf(s, p).value.pdir == p
  {
    IndexExact(s.slots, p);
  }

  lemma SameSlots(s: El0, t: El0, p: nat)
    requires s.slots == t.slots
    ensures SlotOf(s, p) == SlotOf(t, p)
  {}

  /** An operation on one root leaves every other root's whole slot as it was: its frame, its
      request and its exit code. */
  lemma Isolation(s: El0, e: Event, p: nat)
    requires p != 0 && (e.Resets? || e.Sets? || e.p != p)
    ensures SlotOf(Step(s, e), p) == SlotOf(s, p)
  {
    hide Index, SlotOf;
    var t := Step(s, e);
    if t.slots == s.slots {
      SameSlots(s, t, p);
    } else {
      KeyOf(s, e.p);
      match e
      case Registers(q) =>
        if SlotOf(s, q).Some? {
          PutElsewhere(s, q, SlotOf(s, q).value.(exitCode := 0, exited := false, parked := false, req := 0), p); }
        else { PutElsewhere(s, 0,
          SlotOf(s, 0).value.(exitCode := 0, exited := false, parked := false, req := 0, elr := 0, sp := 0, pdir := q),
            p); }
      case Unregisters(q) => PutElsewhere(s, q,
        SlotOf(s, q).value.(pdir := 0, exitCode := 0, exited := false, parked := false, req := 0), p);
      case Exits(q, code) => PutElsewhere(s, q, SlotOf(s, q).value.(exitCode := code, exited := true), p);
      case Parks(q, c, req, va) => SaveElsewhere(s, q, c, req, va, p);
      case Ticks(core, q, c, _) =>
        var s1 := s.(left := t.left);
        SameSlots(s, s1, p);
        SaveElsewhere(s1, q, c.value, REQ_PREEMPT, Some(0), p);
      case Forks(parent, q) => CloneElsewhere(s, parent, q, p);
      case Execs(q, entry, sp) => PutElsewhere(s, q,
        SlotOf(s, q).value.(save := seq(WORDS, _ => 0), elr := entry, sp := sp, req := 0), p);
      case Resumes(core, q, res) =>
        var slot := SlotOf(s, q).value.(save := SlotOf(s, q).value.save[0 := res], parked := false);
        PutElsewhere(s, q, slot, p);
        SameSlots(Put(s, q, slot), t, p);
    }
  }

  lemma SaveElsewhere(s: El0, q: nat, c: Context, req: nat, va: Option<nat>, p: nat)
    requires p != q
    ensures SlotOf(Save(s, q, c, req, va).0, p) == SlotOf(s, p)
  {
    KeyOf(s, q);
    if SlotOf(s, q).Some? {
      var slot := SlotOf(s, q).value;
      PutElsewhere(s, q, slot.(save := c.frame, elr := c.elr, sp := c.sp, req := req, parked := true,
                               faultVa := if va.Some? then va.value else slot.faultVa), p);
    }
  }

  lemma CloneElsewhere(s: El0, parent: nat, q: nat, p: nat)
    requires p != q
    ensures SlotOf(Clone(s, parent, q).0, p) == SlotOf(s, p)
  {
    KeyOf(s, q);
    if SlotOf(s, q).Some? && SlotOf(s, parent).Some? {
      var a, b := SlotOf(s, parent).value, SlotOf(s, q).value;
      PutElsewhere(s, q,
        b.(save := a.save[0 := 0], elr := a.elr, sp := a.sp, req := 0, parked := true, exitCode := 0, exited := false),
          p);
    }
  }

  lemma ContextKept(s: El0, e: Event, p: nat)
    requires p != 0 && Leaves(e, p)
    ensures Parked(Step(s, e), p) == Parked(s, p)
  {
    hide Index, SlotOf;
    if e.Exits? && e.p == p {
      KeyOf(s, p);
      if SlotOf(s, p).Some? { PutFound(s, p, SlotOf(s, p).value.(exitCode := e.code, exited := true)); }
      else { SameSlots(s, Step(s, e), p); }
    } else {
      Isolation(s, e, p);
    }
  }

  function Run(s: El0, es: seq<Event>): El0
    decreases es
  {
    if es == [] then s else Run(Step(s, es[0]), es[1..])
  }

  lemma {:induction false} RunValid(s: El0, es: seq<Event>)
    requires s.Valid()
    ensures Run(s, es).Valid()
    decreases es
  {
    if es != [] {
      KeepsValid(s, es[0]);
      RunValid(Step(s, es[0]), es[1..]);
    }
  }

  lemma {:induction false} RunKeepsContext(s: El0, es: seq<Event>, p: nat)
    requires p != 0 && forall e :: e in es ==> Leaves(e, p)
    ensures Parked(Run(s, es), p) == Parked(s, p)
    decreases es
  {
    hide Parked, Step;
    if es != [] {
      ContextKept(s, es[0], p);
      RunKeepsContext(Step(s, es[0]), es[1..], p);
    }
  }

  /** A park reaches the slot of the root that trapped, whole. */
  lemma SaveExact(s: El0, p: nat, c: Context, req: nat, va: Option<nat>)
    ensures Save(s, p, c, req, va).1 == 1 <==> p != 0 && SlotOf(s, p).Some?
    ensures Save(s, p, c, req, va).1 == 1 ==>
              var slot := SlotOf(Save(s, p, c, req, va).0, p);
              && slot.Some? && Parked(Save(s, p, c, req, va).0, p) == Some(c) && slot.value.req == req
              && slot.value.faultVa == (if va.Some? then va.value else SlotOf(s, p).value.faultVa)
    ensures Save(s, p, c, req, va).1 == 0 ==> Save(s, p, c, req, va).0 == s
  {
    hide Index, SlotOf;
    KeyOf(s, p);
    if p != 0 && SlotOf(s, p).Some? {
      var slot := SlotOf(s, p).value;
      PutFound(s, p, slot.(save := c.frame, elr := c.elr, sp := c.sp, req := req, parked := true,
                           faultVa := if va.Some? then va.value else slot.faultVa));
    }
  }

  /** One tick of the quantum: only the last one rearms it, and it parks the session exactly when
      another one waits and the session has a slot. */
  lemma TickExact(s: El0, core: nat, p: nat, c: Option<Context>, isEl0: bool)
    requires s.Valid()
    ensures var (t, r) := Tick(s, core, p, c, isEl0); var counts := core < CORES && isEl0 && c.Some?;
            && (!counts ==> t == s && r == 0)
            && (counts ==> t.left == s.left[core := if s.left[core] > 1 then s.left[core] - 1 else s.quantum])
            && (r == 1 <==> counts && s.left[core] <= 1 && s.runnable > 0 && p != 0 && SlotOf(s, p).Some?)
            && (r == 1 ==> Parked(t, p) == c && SlotOf(t, p).Some? && SlotOf(t, p).value.req == 0x1E
                           && SlotOf(t, p).value.faultVa == 0)
            && (r != 1 ==> r == 0 && t.slots == s.slots)
            && t.quantum == s.quantum && t.runnable == s.runnable
  {
    hide Index, SlotOf;
    if core < CORES && isEl0 && c.Some? && s.left[core] <= 1 {
      var s1 := s.(left := s.left[core := s.quantum]);
      SameSlots(s, s1, p);
      SaveExact(s1, p, c.value, REQ_PREEMPT, Some(0));
    }
  }

  /** A resume that enters uses the park up: the slot keeps everything but x0 and the flag, the core
      gets a full quantum, and until the next park a resume enters nothing. */
  lemma ResumeUsesUp(s: El0, core: nat, p: nat, res: nat)
    requires s.Valid() && p != 0
    ensures Resume(s, core, p, res).2.Some? <==> Parked(s, p).Some?
    ensures Parked(s, p).None? ==> Resume(s, core, p, res).0 == s
    ensures Parked(s, p).Some? ==>
              var t, slot := Resume(s, core, p, res).0, SlotOf(s, p).value;
              && SlotOf(t, p) == Some(slot.(save := slot.save[0 := res], parked := false)) && Parked(t, p) == None
              && t.left == (if core < CORES then s.left[core := s.quantum] else s.left)
              && t.quantum == s.quantum && t.runnable == s.runnable
              && t.exited == s.exited && t.exitCode == s.exitCode
              && forall core', res' :: Resume(t, core', p, res') == (t, 0, None)
  {
    hide Index, SlotOf;
    KeyOf(s, p);
    if Parked(s, p).Some? {
      var slot := SlotOf(s, p).value;
      var slot' := slot.(save := slot.save[0 := res], parked := false);
      PutFound(s, p, slot');
      SameSlots(Put(s, p, slot'), Resume(s, core, p, res).0, p);
    }
  }

  /** The operations that park p: a trap of its own, the tick that preempts it, a fork onto it. */
  predicate Raises(s: El0, e: Event, p: nat) {
    match e
    case Parks(q, c, req, va) => q == p && Save(s, q, c, req, va).1 == 1
    case Ticks(core, q, c, isEl0) => q == p && Tick(s, core, q, c, isEl0).1 == 1
    case Forks(parent, q) => q == p && Clone(s, parent, q).1 == 0
    case _ => false
  }

  predicate Enters(s: El0, e: Event, p: nat) {
    e.Resumes? && e.p == p && Resume(s, e.core, p, e.res).2.Some?
  }

  /** Only a park raises the flag, and an entering resume finds it raised and clears it. */
  lemma FlagStep(s: El0, e: Event, p: nat)
    requires s.Valid() && p != 0
    ensures Enters(s, e, p) ==> Parked(s, p).Some? && Parked(Step(s, e), p).None?
    ensures Parked(s, p).None? && !Raises(s, e, p) ==> Parked(Step(s, e), p).None?
  {
    hide Index, SlotOf;
    KeyOf(s, p);
    if e.Resets? || e.Sets? || e.p != p {
      Isolation(s, e, p);
    } else {
      if Step(s, e).slots == s.slots { SameSlots(s, Step(s, e), p); }
      match e
      case Registers(_) => RegisterFresh(s, p);
      case Unregisters(_) => UnregisterForgets(s, p);
      case Exits(_, _) => ContextKept(s, e, p);
      case Parks(_, c, req, va) => SaveExact(s, p, c, req, va);
      case Ticks(core, _, c, isEl0) => TickExact(s, core, p, c, isEl0);
      case Forks(parent, _) =>
      case Execs(_, entry, sp) =>
      case Resumes(core, _, res) => ResumeUsesUp(s, core, p, res);
    }
  }

  function Entries(s: El0, es: seq<Event>, p: nat): nat
    decreases es
  {
    if es == [] then 0 else (if Enters(s, es[0], p) then 1 else 0) + Entries(Step(s, es[0]), es[1..], p)
  }

  function Raisings(s: El0, es: seq<Event>, p: nat): nat
    decreases es
  {
    if es == [] then 0 else (if Raises(s, es[0], p) then 1 else 0) + Raisings(Step(s, es[0]), es[1..], p)
  }

  function Waiting(s: El0, p: nat): nat { if Parked(s, p).Some? then 1 else 0 }

  /** Every park is entered at most once, over any run of all sessions. */
  lemma {:induction false} EnteredOnce(s: El0, es: seq<Event>, p: nat)
    requires s.Valid() && p != 0
    ensures Entries(s, es, p) + Waiting(Run(s, es), p) <= Raisings(s, es, p) + Waiting(s, p)
    decreases es
  {
    hide Parked, Step, Enters, Raises;
    if es != [] {
      KeepsValid(s, es[0]);
      FlagStep(s, es[0], p);
      EnteredOnce(Step(s, es[0]), es[1..], p);
    }
  }

  /** Whatever happens to other sessions in between, a session resumed after a trap goes on
      with exactly the context it trapped with, x0 apart. */
  lemma ParkToResume(s: El0, p: nat, c: Context, req: nat, va: Option<nat>, es: seq<Event>, core: nat, res: nat)
    requires p != 0 && SlotOf(s, p).Some? && forall e :: e in es ==> Leaves(e, p)
    ensures var t := Run(Save(s, p, c, req, va).0, es);
            Resume(t, core, p, res).2 == Some(Context(c.frame[0 := res], c.elr, c.sp)) && Resume(t, core, p, res).1 == 0
  {
    hide Index, SlotOf, Run;
    KeyOf(s, p);
    var slot := SlotOf(s, p).value;
    PutFound(s, p, slot.(save := c.frame, elr := c.elr, sp := c.sp, req := req, parked := true,
                         faultVa := if va.Some? then va.value else slot.faultVa));
    RunKeepsContext(Save(s, p, c, req, va).0, es, p);
  }

  /** What the supervisor reads of a parked session is what it trapped with. */
  lemma ParkedRequest(s: El0, p: nat, c: Context, req: nat, va: Option<nat>, es: seq<Event>)
    requires p != 0 && SlotOf(s, p).Some? && forall e :: e in es ==> e.Resets? || e.Sets? || e.p != p
    ensures var slot := SlotOf(Run(Save(s, p, c, req, va).0, es), p);
            && slot.Some? && slot.value.parked && slot.value.req == req && slot.value.save[..4] == c.frame[..4]
            && (va.Some? ==> slot.value.faultVa == va.value)
            && slot.value.exited == SlotOf(s, p).value.exited
  {
    hide Index, SlotOf, Run;
    KeyOf(s, p);
    var slot := SlotOf(s, p).value;
    PutFound(s, p, slot.(save := c.frame, elr := c.elr, sp := c.sp, req := req, parked := true,
                         faultVa := if va.Some? then va.value else slot.faultVa));
    RunKeepsSlot(Save(s, p, c, req, va).0, es, p);
  }

  /** Exec: a parked session goes on at the new entry and stack, with nothing in its registers
      but the result; a session that is not parked is refused. */
  lemma ExecToResume(s: El0, p: nat, entry: nat, sp: nat, es: seq<Event>, core: nat, res: nat)
    requires p != 0 && forall e :: e in es ==> Leaves(e, p)
    ensures SetEntry(s, p, entry, sp).1 == 0 <==> Parked(s, p).Some?
    ensures Parked(s, p).Some? ==>
              var c := Resume(Run(SetEntry(s, p, entry, sp).0, es), core, p, res).2;
              && c.Some? && c.value.elr == entry && c.value.sp == sp && c.value.frame[0] == res
              && forall i :: 0 < i < WORDS ==> c.value.frame[i] == 0
  {
    hide Index, SlotOf, Run;
    KeyOf(s, p);
    if Parked(s, p).Some? {
      PutFound(s, p, SlotOf(s, p).value.(save := seq(WORDS, _ => 0), elr := entry, sp := sp, req := 0));
      RunKeepsContext(SetEntry(s, p, entry, sp).0, es, p);
    }
  }

  /** A registered root starts neither parked nor exited; only a table full of other roots
      refuses it. */
  lemma RegisterFresh(s: El0, p: nat)
    requires s.Valid() && p != 0
    ensures Register(s, p).1 == ENOSPC <==> forall i :: 0 <= i < SLOTS ==> s.slots[i].pdir != 0 && s.slots[i].pdir != p
    ensures Register(s, p).1 == 0 || Register(s, p).1 == ENOSPC
    ensures Register(s, p).1 == 0 ==>
              var slot := SlotOf(Register(s, p).0, p);
              && slot.Some? && !slot.value.parked && !slot.value.exited && slot.value.pdir == p
              && slot.value.exitCode == slot.value.req == 0
              && (SlotOf(s, p).None? ==> slot.value.elr == slot.value.sp == 0)
  {
    hide Index;
    IndexExact(s.slots, p);
    IndexExact(s.slots, 0);
    var t := Register(s, p).0;
    if SlotOf(s, p).Some? {
      PutFound(s, p, SlotOf(s, p).value.(exitCode := 0, exited := false, parked := false, req := 0));
    } else if SlotOf(s, 0).Some? {
      IndexIs(t.slots, p, Index(s.slots, 0));
    }
  }

  /** An unregistered root owns no slot, and the one it had is free. */
  lemma UnregisterForgets(s: El0, p: nat)
    requires s.Valid() && p != 0
    ensures SlotOf(Unregister(s, p), p) == None
    ensures SlotOf(s, p).Some? ==> SlotOf(Unregister(s, p), 0).Some?
  {
    hide Index;
    IndexExact(s.slots, p);
    IndexIs(Unregister(s, p).slots, p, SLOTS);
    if SlotOf(s, p).Some? { assert Unregister(s, p).slots[Index(s.slots, p)].pdir == 0; }
    IndexExact(Unregister(s, p).slots, 0);
  }

  /** Fork: parent and child both go on from the parent's trap, the child with x0 = 0. */
  lemma ForkToResume(s: El0, parent: nat, child: nat, es: seq<Event>, core: nat, res: nat)
    requires parent != 0 && child != 0 && parent != child
    requires Parked(s, parent).Some? && SlotOf(s, child).Some?
    requires forall e :: e in es ==> Leaves(e, child) && Leaves(e, parent)
    ensures Clone(s, parent, child).1 == 0
    ensures var slot := SlotOf(Clone(s, parent, child).0, child);
            slot.Some? && !slot.value.exited && slot.value.exitCode == slot.value.req == 0
    ensures var c, t := Parked(s, parent).value, Run(Clone(s, parent, child).0, es);
            && Parked(t, child) == Some(Context(c.frame[0 := 0], c.elr, c.sp))
            && Resume(t, core, child, 0).2 == Some(Context(c.frame[0 := 0], c.elr, c.sp))
            && Resume(t, core, parent, res).2 == Some(Context(c.frame[0 := res], c.elr, c.sp))
  {
    hide Index, SlotOf, Run;
    KeyOf(s, child);
    CloneElsewhere(s, parent, child, parent);
    var p, b := SlotOf(s, parent).value, SlotOf(s, child).value;
    PutFound(s, child,
      b.(save := p.save[0 := 0], elr := p.elr, sp := p.sp, req := 0, parked := true, exitCode := 0, exited := false));
    RunKeepsContext(Clone(s, parent, child).0, es, child);
    RunKeepsContext(Clone(s, parent, child).0, es, parent);
    var f := Parked(s, parent).value.frame;
    assert f[0 := 0][0 := 0] == f[0 := 0];
  }

  lemma {:induction false} RunKeepsSlot(s: El0, es: seq<Event>, p: nat)
    requires p != 0 && forall e :: e in es ==> e.Resets? || e.Sets? || e.p != p
    ensures SlotOf(Run(s, es), p) == SlotOf(s, p)
    decreases es
  {
    hide SlotOf, Step;
    if es != [] {
      Isolation(s, es[0], p);
      RunKeepsSlot(Step(s, es[0]), es[1..], p);
    }
  }

  /** An exit code is kept for its own session until that session's next operation; sessions
      without a slot leave every slot alone. */
  lemma ExitRouted(s: El0, p: nat, code: int, es: seq<Event>)
    requires forall e :: e in es ==> e.Resets? || e.Sets? || e.p != p
    ensures p != 0 && SlotOf(s, p).Some? ==>
              var slot := SlotOf(Run(SetExit(s, p, code), es), p);
              slot.Some? && slot.value.exited && slot.value.exitCode == code
    ensures p == 0 || SlotOf(s, p).None? ==> SetExit(s, p, code) == s.(exited := true, exitCode := code)
  {
    hide Index, SlotOf, Run;
    KeyOf(s, p);
    if p != 0 && SlotOf(s, p).Some? {
      PutFound(s, p, SlotOf(s, p).value.(exitCode := code, exited := true));
      RunKeepsSlot(SetExit(s, p, code), es, p);
    }
  }

  // ---- the quantum ----

  function Ticked(s: El0, core: nat, p: nat, c: Context, n: nat): El0 {
    if n == 0 then s else Tick(Ticked(s, core, p, c, n - 1), core, p, Some(c), true).0
  }

  /** A session is preempted by the tick that uses up its quantum and by no earlier one; that tick
      saves the context it interrupts and starts the next quantum. */
  lemma {:induction false} PreemptedOnTime(s: El0, core: nat, p: nat, c: Context, n: nat)
    requires core < |s.left| && p != 0 && SlotOf(s, p).Some? && s.runnable > 0 && n < s.left[core]
    ensures var t := Ticked(s, core, p, c, n);
            && t == s.(left := s.left[core := s.left[core] - n])
            && (Tick(t, core, p, Some(c), true).1 == 1 <==> n + 1 == s.left[core])
    ensures s.Valid() && n + 1 == s.left[core] ==>
              var t := Ticked(s, core, p, c, n + 1);
              && Parked(t, p) == Some(c) && SlotOf(t, p).Some? && SlotOf(t, p).value.req == 0x1E
              && t.left == s.left[core := s.quantum]
  {
    hide SlotOf;
    if n == 0 {
      assert s.left[core := s.left[core]] == s.left;
    } else {
      PreemptedOnTime(s, core, p, c, n - 1);
      assert s.left[core := s.left[core] - (n - 1)][core := s.left[core] - n] == s.left[core := s.left[core] - n];
    }
    var t := s.(left := s.left[core := s.left[core] - n]);
    SameSlots(s, t, p);
    if s.Valid() {
      TickExact(t, core, p, Some(c), true);
      assert t.left[core := s.quantum] == s.left[core := s.quantum];
    }
    SameSlots(s, t.(left := t.left[core := if t.quantum == 0 then 1 else t.quantum]), p);
  }
}
