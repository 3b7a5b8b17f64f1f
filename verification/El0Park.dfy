/** Parking and resuming one session without a lock: the trap handler stores the frame word by
    word and the parked flag last, the supervisor reads the flag first. Accesses take effect in
    program order. */
module El0Park {
  import opened Options

  const WORDS := 112
  /** Stores of a park: the frame, then elr, sp, request, fault page and the flag. */
  const ELR := 112
  const SP := 113
  const REQ := 114
  const VA := 115
  const FLAG := 116
  const ARGS := 4

  type Frame = f: seq<nat> | |f| == WORDS witness seq(WORDS, _ => 0)

  /** What a session traps with; only faults record a page. */
  datatype Context = Context(frame: Frame, elr: nat, sp: nat, req: nat, va: Option<nat>)

  datatype Slot = Slot(save: Frame, elr: nat, sp: nat, req: nat, va: nat, parked: bool)

  /** The session runs, its trap handler has made n stores, or it waits. */
  datatype Session = Running | Saving(n: nat) | Waiting

  /** take_request saw the flag and read the request and some arguments; resume saw the flag,
      replaced x0, read elr and sp, cleared the flag and is loading the frame. */
  datatype Supervisor =
    | Idle
    | TakeSeen
    | Taking(req: nat, args: seq<nat>)
    | ResumeSeen(res: nat)
    | Staged(res: nat)
    | GotElr(res: nat, elr: nat)
    | GotSp(res: nat, elr: nat, sp: nat)
    | Entering(res: nat, elr: nat, sp: nat, words: seq<nat>)

  /** The slot, both sides, and what the session last trapped with. */
  datatype State = State(slot: Slot, session: Session, sup: Supervisor, trapped: Context)

  datatype Step = Trap(c: Context) | Store | TakeRequest | Resume(res: nat) | Supervise

  // ---- the accesses ----

  /** The slot after the n-th store of a park. */
  function Stored(s: Slot, c: Context, n: nat): Slot {
    if n < WORDS then s.(save := s.save[n := c.frame[n]])
    else if n == ELR then s.(elr := c.elr)
    else if n == SP then s.(sp := c.sp)
    else if n == REQ then s.(req := c.req)
    else if n == VA then (if c.va.Some? then s.(va := c.va.value) else s)
    else s.(parked := true)
  }

  predicate Enabled(s: State, e: Step) {
    match e
    case Trap(_) => s.session.Running?
    case Store => s.session.Saving?
    case TakeRequest => s.sup.Idle?
    case Resume(_) => s.sup.Idle?
    case Supervise => !s.sup.Idle?
  }

  function Apply(s: State, e: Step): State
    requires Enabled(s, e)
  {
    match e
    case Trap(c) => s.(session := Saving(0), trapped := c)
    case Store =>
      var n := s.session.n;
      s.(slot := Stored(s.slot, s.trapped, n), session := if n >= FLAG then Waiting else Saving(n + 1))
    case TakeRequest => if s.slot.parked then s.(sup := TakeSeen) else s
    case Resume(res) => if s.slot.parked then s.(sup := ResumeSeen(res)) else s
    case Supervise => Supervised(s)
  }

  /** The supervisor's next access. */
  function Supervised(s: State): State {
    match s.sup
    case Idle => s
    case TakeSeen => s.(sup := Taking(s.slot.req, []))
    case Taking(req, args) =>
      if |args| < ARGS then s.(sup := Taking(req, args + [s.slot.save[|args|]])) else s.(sup := Idle)
    case ResumeSeen(res) => s.(slot := s.slot.(save := s.slot.save[0 := res]), sup := Staged(res))
    case Staged(res) => s.(sup := GotElr(res, s.slot.elr))
    case GotElr(res, elr) => s.(sup := GotSp(res, elr, s.slot.sp))
    case GotSp(res, elr, sp) => s.(slot := s.slot.(parked := false), sup := Entering(res, elr, sp, []))
    case Entering(res, elr, sp, words) =>
      if |words| < WORDS then s.(sup := Entering(res, elr, sp, words + [s.slot.save[|words|]]))
      else s.(sup := Idle, session := Running)
  }

  // ---- what every interleaving keeps ----

  /** The first n stores of a park of c have been made. */
  ghost predicate Holds(s: Slot, c: Context, n: nat) {
    && (forall i :: 0 <= i < WORDS && i < n ==> s.save[i] == c.frame[i])
    && (n > ELR ==> s.elr == c.elr) && (n > SP ==> s.sp == c.sp) && (n > REQ ==> s.req == c.req)
    && (n > VA && c.va.Some? ==> s.va == c.va.value)
  }

  /** The flag is up exactly while the session waits and is not being entered, and what stands
      behind it is the whole context; the supervisor is only ever busy with a waiting session. */
  ghost predicate Inv(s: State) {
    && (s.slot.parked <==> s.session.Waiting? && !s.sup.Entering?)
    && (!s.sup.Idle? ==> s.session.Waiting?)
    && (s.session.Saving? ==> s.session.n <= FLAG && Holds(s.slot, s.trapped, s.session.n))
    && (s.session.Waiting? ==> Kept(s))
  }

  /** A waiting session's slot, x0 replaced once resume has staged it, and what has been read. */
  ghost predicate Kept(s: State) {
    match s.sup
    case Idle => Holds(s.slot, s.trapped, FLAG)
    case TakeSeen => Holds(s.slot, s.trapped, FLAG)
    case Taking(req, args) =>
      Holds(s.slot, s.trapped, FLAG) && req == s.trapped.req && |args| <= ARGS && args == s.trapped.frame[..|args|]
    case ResumeSeen(_) => Holds(s.slot, s.trapped, FLAG)
    case Staged(res) => Holds(s.slot, Replaced(s.trapped, res), FLAG)
    case GotElr(res, elr) => Holds(s.slot, Replaced(s.trapped, res), FLAG) && elr == s.trapped.elr
    case GotSp(res, elr, sp) =>
      Holds(s.slot, Replaced(s.trapped, res), FLAG) && elr == s.trapped.elr && sp == s.trapped.sp
    case Entering(res, elr, sp, words) =>
      && Holds(s.slot, Replaced(s.trapped, res), FLAG) && elr == s.trapped.elr && sp == s.trapped.sp
      && |words| <= WORDS && words == Replaced(s.trapped, res).frame[..|words|]
  }

  /** The context with x0 replaced. */
  function Replaced(c: Context, res: nat): Context { c.(frame := c.frame[0 := res]) }

  lemma StoreKeeps(s: State)
    requires Inv(s) && s.session.Saving?
    ensures Inv(Apply(s, Store))
  {
    hide Supervised;
    assert Holds(Stored(s.slot, s.trapped, s.session.n), s.trapped, s.session.n + 1);
  }

  lemma SuperviseKeeps(s: State)
    requires Inv(s) && !s.sup.Idle?
    ensures Inv(Supervised(s))
  {
    match s.sup
    case TakeSeen => assert s.trapped.frame[..0] == [];
    case Taking(_, args) =>
      if |args| < ARGS {
        assert s.trapped.frame[..|args| + 1] == s.trapped.frame[..|args|] + [s.trapped.frame[|args|]]; }
    case ResumeSeen(_) =>
    case Staged(_) =>
    case GotElr(_, _) =>
    case GotSp(res, _, _) => assert Replaced(s.trapped, res).frame[..0] == [];
    case Entering(res, _, _, words) =>
      var f := Replaced(s.trapped, res).frame;
      if |words| < WORDS { assert f[..|words| + 1] == f[..|words|] + [f[|words|]]; }
  }

  lemma StepKeeps(s: State, e: Step)
    requires Inv(s) && Enabled(s, e)
    ensures Inv(Apply(s, e))
  {
    match e
    case Trap(_) =>
    case Store => StoreKeeps(s);
    case TakeRequest =>
    case Resume(_) =>
    case Supervise => SuperviseKeeps(s);
  }

  ghost predicate Runs(s: State, steps: seq<Step>)
    decreases steps
  {
    steps == [] || (Enabled(s, steps[0]) && Runs(Apply(s, steps[0]), steps[1..]))
  }

  ghost function Final(s: State, steps: seq<Step>): State
    requires Runs(s, steps)
    decreases steps
  {
    if steps == [] then s else Final(Apply(s, steps[0]), steps[1..])
  }

  /** A session that has been entered for the first time. */
  ghost predicate Started(s: State) { s.session.Running? && s.sup.Idle? && !s.slot.parked }

  /** Every interleaving of traps, takes and resumes keeps the invariant. */
  lemma {:induction false} RunKeeps(s: State, steps: seq<Step>)
    requires Inv(s) && Runs(s, steps)
    ensures Inv(Final(s, steps))
    decreases steps
  {
    hide Inv;
    if steps != [] {
      StepKeeps(s, steps[0]);
      RunKeeps(Apply(s, steps[0]), steps[1..]);
    }
  }

  // ---- what that means ----

  /** In every run, whoever sees the flag sees the whole frame: request, arguments, fault page,
      elr and sp of the last trap. */
  lemma NeverHalfSaved(s: State, steps: seq<Step>)
    requires Started(s) && Runs(s, steps)
    ensures var t := Final(s, steps);
            t.slot.parked && t.sup.Idle? ==>
              && t.session.Waiting? && t.slot.save == t.trapped.frame && t.slot.elr == t.trapped.elr
              && t.slot.sp == t.trapped.sp && t.slot.req == t.trapped.req
                 && (t.trapped.va.Some? ==> t.slot.va == t.trapped.va.value)
  {
    RunKeeps(s, steps);
    var t := Final(s, steps);
    if t.slot.parked && t.sup.Idle? { assert t.slot.save == t.trapped.frame; }
  }

  /** What take_request hands out is what the session trapped with. */
  lemma TakesTrapped(s: State, steps: seq<Step>)
    requires Started(s) && Runs(s, steps)
    ensures var t := Final(s, steps);
            t.sup.Taking? && |t.sup.args| == ARGS ==>
              t.sup.req == t.trapped.req && t.sup.args == t.trapped.frame[..ARGS]
  {
    RunKeeps(s, steps);
  }

  /** A resumed session is entered with what it trapped with, x0 apart, and only then runs. */
  lemma EntersTrapped(s: State, steps: seq<Step>)
    requires Started(s) && Runs(s, steps)
    ensures var t := Final(s, steps);
            t.sup.Entering? && |t.sup.words| == WORDS ==>
              && t.sup.words == t.trapped.frame[0 := t.sup.res] && t.sup.elr == t.trapped.elr
                 && t.sup.sp == t.trapped.sp
              && t.session.Waiting? && !t.slot.parked
  {
    RunKeeps(s, steps);
    var t := Final(s, steps);
    if t.sup.Entering? && |t.sup.words| == WORDS {
      var f := Replaced(t.trapped, t.sup.res).frame;
      assert f[..WORDS] == f;
    }
  }

  // ---- every park and every resume can finish ----

  function Repeat(e: Step, n: nat): seq<Step> { if n == 0 then [] else [e] + Repeat(e, n - 1) }

  /** A trap's own stores are enough for the session to wait with its flag up. */
  lemma {:induction false} StoresFinish(s: State)
    requires Inv(s) && s.session.Saving?
    ensures var steps := Repeat(Store, FLAG + 1 - s.session.n);
            Runs(s, steps) && Final(s, steps).session.Waiting? && Final(s, steps).slot.parked
            && Final(s, steps).trapped == s.trapped && Final(s, steps).sup == s.sup
    decreases FLAG - s.session.n
  {
    var steps := Repeat(Store, FLAG + 1 - s.session.n);
    var t := Apply(s, Store);
    StepKeeps(s, Store);
    assert steps[1..] == Repeat(Store, FLAG - s.session.n);
    if s.session.n < FLAG { StoresFinish(t); }
  }

  /** Once entering, the supervisor's own loads are enough for the session to run again. */
  lemma {:induction false} LoadsFinish(s: State)
    requires Inv(s) && s.sup.Entering?
    ensures var steps := Repeat(Supervise, WORDS + 1 - |s.sup.words|);
            Runs(s, steps) && Started(Final(s, steps))
    decreases WORDS - |s.sup.words|
  {
    var steps := Repeat(Supervise, WORDS + 1 - |s.sup.words|);
    var t := Apply(s, Supervise);
    StepKeeps(s, Supervise);
    assert steps[1..] == Repeat(Supervise, WORDS - |s.sup.words|);
    if |s.sup.words| < WORDS { LoadsFinish(t); }
  }

  /** A resume of a waiting session runs it again after 117 accesses of the supervisor. */
  lemma ResumeFinishes(s: State, res: nat)
    requires Inv(s) && s.session.Waiting? && s.sup.Idle?
    ensures var steps := [Resume(res)] + Repeat(Supervise, 117); Runs(s, steps) && Started(Final(s, steps))
  {
    var s1 := Apply(s, Resume(res));
    var s2 := Apply(s1, Supervise);
    var s3 := Apply(s2, Supervise);
    var s4 := Apply(s3, Supervise);
    var s5 := Apply(s4, Supervise);
    StepKeeps(s, Resume(res));
    StepKeeps(s1, Supervise);
    StepKeeps(s2, Supervise);
    StepKeeps(s3, Supervise);
    StepKeeps(s4, Supervise);
    LoadsFinish(s5);
    hide Inv, Apply;
    Ahead(s4, Supervise, 113);
    Ahead(s3, Supervise, 114);
    Ahead(s2, Supervise, 115);
    Ahead(s1, Supervise, 116);
    var steps := [Resume(res)] + Repeat(Supervise, 117);
    assert steps[1..] == Repeat(Supervise, 117);
  }

  lemma Ahead(s: State, e: Step, n: nat)
    requires Enabled(s, e) && Runs(Apply(s, e), Repeat(e, n))
    ensures Runs(s, Repeat(e, n + 1)) && Final(s, Repeat(e, n + 1)) == Final(Apply(s, e), Repeat(e, n))
  {
    assert Repeat(e, n + 1)[1..] == Repeat(e, n);
  }
}
