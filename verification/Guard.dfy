// __cxa_guard_acquire / release / abort as atomic steps of any number of
// threads on one guard word, against the protocol of section 3.3.2 of the
// Itanium C++ ABI.
module Guard {

  type Tid = nat

  /** Where a thread stands: outside, between the first look at the guard and the
      compare-and-swap, in the waiting loop, or between a return of 1 and its
      release or abort. */
  datatype Pc = Idle | Trying | Spinning | Initialising

  datatype Event = Returned1(t: Tid) | Returned0(t: Tid) | Released(t: Tid) | Aborted(t: Tid)

  datatype State = State(g: bv64, pc: map<Tid, Pc>, log: seq<Event>)

  datatype Action = Enter(t: Tid) | Swap(t: Tid) | Look(t: Tid) | Release(t: Tid) | Abort(t: Tid)

  function PcOf(s: State, t: Tid): Pc { if t in s.pc then s.pc[t] else Idle }

  function Move(s: State, t: Tid, pc: Pc): State { s.(pc := s.pc[t := pc]) }

  function Note(s: State, e: Event): State { s.(log := s.log + [e]) }

  /** Only the thread that was told to initialise releases or aborts. */
  predicate Enabled(s: State, a: Action) {
    match a
    case Enter(t) => PcOf(s, t) == Idle
    case Swap(t) => PcOf(s, t) == Trying
    case Look(t) => PcOf(s, t) == Spinning
    case Release(t) => PcOf(s, t) == Initialising
    case Abort(t) => PcOf(s, t) == Initialising
  }

  function Step(s: State, a: Action): State
    requires Enabled(s, a)
  {
    match a
    case Enter(t) => if s.g & 1 != 0 then Note(s, Returned0(t)) else Move(s, t, Trying)
    case Swap(t) =>
      if s.g == 0 then Note(Move(s.(g := 2), t, Initialising), Returned1(t)) else Move(s, t, Spinning)
    case Look(t) => if s.g & 1 == 0 then s else Note(Move(s, t, Idle), Returned0(t))
    case Release(t) => Note(Move(s.(g := s.g | 1), t, Idle), Released(t))
    case Abort(t) => Note(Move(s.(g := s.g & 0xFFFF_FFFF_FFFF_FFFD), t, Idle), Aborted(t))
  }

  const INIT: State := State(0, map[], [])

  predicate Legal(s: State, acts: seq<Action>)
    decreases acts
  {
    acts == [] || (Enabled(s, acts[0]) && Legal(Step(s, acts[0]), acts[1..]))
  }

  function Run(s: State, acts: seq<Action>): State
    requires Legal(s, acts)
    decreases acts
  {
    if acts == [] then s else Run(Step(s, acts[0]), acts[1..])
  }

  // ---------------------------------------------------------------------
  // The protocol, as an automaton over what the callers see.

  datatype Phase = Uninitialised | Held(t: Tid) | Done | Violated

  function Observe(p: Phase, e: Event): Phase {
    match (p, e)
    case (Uninitialised, Returned1(t)) => Held(t)
    case (Held(t), Released(u)) => if t == u then Done else Violated
    case (Held(t), Aborted(u)) => if t == u then Uninitialised else Violated
    case (Done, Returned0(_)) => Done
    case _ => Violated
  }

  function PhaseOf(log: seq<Event>): Phase {
    if log == [] then Uninitialised else Observe(PhaseOf(log[..|log| - 1]), log[|log| - 1])
  }

  lemma PhaseAfter(log: seq<Event>, e: Event)
    ensures PhaseOf(log + [e]) == Observe(PhaseOf(log), e)
  {
  }

  function WordOf(p: Phase): bv64 {
    match p
    case Held(_) => 2
    case Done => 3
    case _ => 0
  }

  /** The guard word tells the phase; exactly the holder is initialising. */
  ghost predicate Inv(s: State) {
    && PhaseOf(s.log) != Violated && s.g == WordOf(PhaseOf(s.log))
    && forall t :: PcOf(s, t) == Initialising <==> PhaseOf(s.log) == Held(t)
  }

  /** A thread that moves without a caller seeing it. */
  lemma SilentInv(s: State, t: Tid, pc: Pc)
    requires Inv(s) && PcOf(s, t) != Initialising && pc != Initialising
    ensures Inv(Move(s, t, pc))
  {
  }

  /** A thread that comes back to, or tells, its caller. */
  lemma VisibleInv(s: State, s': State, e: Event)
    requires Inv(s) && s'.log == s.log + [e] && s'.pc == s.pc[e.t := if e.Returned1? then Initialising else Idle]
    requires Observe(PhaseOf(s.log), e) != Violated && s'.g == WordOf(Observe(PhaseOf(s.log), e))
    ensures Inv(s')
  {
  }

  lemma StepInv(s: State, a: Action)
    requires Inv(s) && Enabled(s, a)
    ensures Inv(Step(s, a))
  {
    assert PcOf(s, a.t) == Initialising <==> PhaseOf(s.log) == Held(a.t);
    match a {
      case Enter(t) => if s.g & 1 != 0 { PhaseAfter(s.log, Returned0(t)); } else { SilentInv(s, t, Trying); }
      case Swap(t) => if s.g == 0 { VisibleInv(s, Step(s, a), Returned1(t)); } else { SilentInv(s, t, Spinning); }
      case Look(t) => if s.g & 1 != 0 { VisibleInv(s, Step(s, a), Returned0(t)); }
      case Release(t) => VisibleInv(s, Step(s, a), Released(t));
      case Abort(t) => VisibleInv(s, Step(s, a), Aborted(t));
    }
  }

  lemma {:induction false} RunInv(s: State, acts: seq<Action>)
    requires Inv(s) && Legal(s, acts)
    ensures Inv(Run(s, acts))
    decreases acts
  {
    if acts != [] {
      StepInv(s, acts[0]);
      RunInv(Step(s, acts[0]), acts[1..]);
    }
  }

  /** Every interleaving of any number of threads is one the ABI allows; the
      guard is 0, 2 or 3 and at most one thread initialises. */
  lemma EveryRunIsAllowed(acts: seq<Action>)
    requires Legal(INIT, acts)
    ensures var s := Run(INIT, acts);
      && PhaseOf(s.log) != Violated
      && (s.g == 0 || s.g == 2 || s.g == 3)
      && forall t, u :: PcOf(s, t) == Initialising && PcOf(s, u) == Initialising ==> t == u
  {
    RunInv(INIT, acts);
  }

  lemma {:induction false} PhasePrefix(log: seq<Event>, n: nat)
    requires n <= |log| && PhaseOf(log) != Violated
    ensures PhaseOf(log[..n]) != Violated
    ensures PhaseOf(log[..n]) == Done ==> PhaseOf(log) == Done
    decreases |log| - n
  {
    if n < |log| {
      assert log[..n + 1][..n] == log[..n];
      PhasePrefix(log, n + 1);
    } else {
      assert log[..n] == log;
    }
  }

  /** The phase seen by an event of an allowed history is one that admits it,
      and once done the history stays done. */
  lemma PhaseBefore(log: seq<Event>, i: nat)
    requires PhaseOf(log) != Violated && i < |log|
    ensures PhaseOf(log[..i]) != Violated && PhaseOf(log[..i + 1]) == Observe(PhaseOf(log[..i]), log[i]) != Violated
  {
    PhasePrefix(log, i);
    PhasePrefix(log, i + 1);
    assert log[..i + 1][..i] == log[..i];
  }

  /** What an allowed history means: one release at most, nothing but returns of
      0 after it, none before it, and no second initialiser while one is at work. */
  lemma AllowedHistory(log: seq<Event>, i: nat, j: nat)
    requires PhaseOf(log) != Violated && i < j < |log|
    ensures log[i].Released? || log[i].Returned0? ==> log[j].Returned0?
    ensures log[i].Returned1? && log[j].Returned1? ==> exists k :: i < k < j && log[k] == Aborted(log[i].t)
  {
    PhaseBefore(log, i);
    PhaseBefore(log, j);
    PhasePrefix(log[..j], i + 1);
    assert log[..j][..i + 1] == log[..i + 1];
    if log[i].Returned1? && log[j].Returned1? { AbortedBetween(log, i, j, log[i].t); }
  }

  lemma AbortedBetween(log: seq<Event>, i: nat, j: nat, t: Tid)
    requires PhaseOf(log) != Violated && i < j < |log|
    requires PhaseOf(log[..i + 1]) == Held(t) && PhaseOf(log[..j]) == Uninitialised
    ensures exists k :: i < k < j && log[k] == Aborted(t)
  {
    assert i + 1 < j;
    PhasePrefix(log, i + 2);
    PhasePrefix(log[..j], i + 2);
    assert log[..i + 2][..i + 1] == log[..i + 1] && log[..j][..i + 2] == log[..i + 2];
    assert log[i + 1] == Aborted(t);
  }

  /** Every return of 0 is preceded by the release. */
  lemma ZeroFollowsRelease(log: seq<Event>, j: nat)
    requires PhaseOf(log) != Violated && j < |log| && log[j].Returned0?
    ensures exists i :: 0 <= i < j && log[i].Released?
  {
    PhaseBefore(log, j);
    var i := DoneFrom(log[..j]);
  }

  lemma {:induction false} DoneFrom(log: seq<Event>) returns (i: nat)
    requires PhaseOf(log) == Done
    ensures i < |log| && log[i].Released?
  {
    var n := |log| - 1;
    if log[n].Released? { return n; }
    i := DoneFrom(log[..n]);
  }

  // ---------------------------------------------------------------------
  // What each call of each thread comes to.

  predicate Releases(acts: seq<Action>) { exists i :: 0 <= i < |acts| && acts[i].Release? }

  lemma ReleasesLater(acts: seq<Action>)
    requires acts != []
    ensures Releases(acts) <==> acts[0].Release? || Releases(acts[1..])
  {
    if i :| 0 <= i < |acts| && acts[i].Release? && i != 0 { assert acts[1..][i - 1].Release?; }
    if i :| 0 <= i < |acts[1..]| && acts[1..][i].Release? { assert acts[i + 1].Release?; }
  }

  /** The release bit is set exactly when it was or a release happened. */
  lemma {:induction false} ReleasedIff(s: State, acts: seq<Action>)
    requires Inv(s) && Legal(s, acts)
    ensures Run(s, acts).g & 1 != 0 <==> s.g & 1 != 0 || Releases(acts)
    decreases acts
  {
    if acts != [] {
      assert PcOf(s, acts[0].t) == Initialising <==> PhaseOf(s.log) == Held(acts[0].t);
      StepInv(s, acts[0]);
      ReleasesLater(acts);
      ReleasedIff(Step(s, acts[0]), acts[1..]);
    }
  }

  /** Thread t, and only it, is now at pc, its caller having been told `told`, and
      the others are where they were. */
  ghost predicate Answered(s: State, s': State, t: Tid, pc: Pc, told: seq<Event>) {
    && s'.log == s.log + told
    && forall u :: PcOf(s', u) == if u == t then pc else PcOf(s, u)
  }

  ghost predicate Quiet(s: State) { forall u :: PcOf(s, u) != Initialising }

  /** After any interleaving: an acquire of a released guard returns 0 at once and
      any other tries; a try makes its thread the initialiser exactly when there is
      none and nobody has released, otherwise it waits; a waiting thread returns 0
      exactly after a release; release and abort end the initialisation. */
  lemma EveryStepAnswers(acts: seq<Action>, a: Action)
    requires Legal(INIT, acts) && Enabled(Run(INIT, acts), a)
    ensures var s := Run(INIT, acts);
      match a
      case Enter(t) =>
        if Releases(acts) then Answered(s, Step(s, a), t, Idle, [Returned0(t)])
        else Answered(s, Step(s, a), t, Trying, [])
      case Swap(t) =>
        if !Releases(acts) && Quiet(s) then Answered(s, Step(s, a), t, Initialising, [Returned1(t)])
        else Answered(s, Step(s, a), t, Spinning, [])
      case Look(t) =>
        if Releases(acts) then Answered(s, Step(s, a), t, Idle, [Returned0(t)])
        else Answered(s, Step(s, a), t, Spinning, [])
      case Release(t) => Answered(s, Step(s, a), t, Idle, [Released(t)])
      case Abort(t) => Answered(s, Step(s, a), t, Idle, [Aborted(t)])
  {
    var s := Run(INIT, acts);
    RunInv(INIT, acts);
    ReleasedIff(INIT, acts);
    assert s.log + [] == s.log;
    assert PcOf(s, a.t) == Initialising <==> PhaseOf(s.log) == Held(a.t);
    if PhaseOf(s.log).Held? { assert PcOf(s, PhaseOf(s.log).t) == Initialising; }
  }

  /** Wherever a thread stands, it can take a step. */
  lemma NobodyIsStuck(s: State, t: Tid)
    ensures Enabled(s, Enter(t)) || Enabled(s, Swap(t)) || Enabled(s, Look(t))
      || (Enabled(s, Release(t)) && Enabled(s, Abort(t)))
  {
  }

  // ---------------------------------------------------------------------
  // Where the code departs from the ABI: waiting threads after an abort.

  /** One step of any thread, seen by a waiting thread: only its own look at a
      released guard ends the wait, and only a release releases the guard. */
  lemma WaiterStep(s: State, a: Action, t: Tid)
    requires Inv(s) && Enabled(s, a) && PcOf(s, t) == Spinning
    ensures PcOf(Step(s, a), t) == (if s.g & 1 != 0 && a == Look(t) then Idle else Spinning)
    ensures Step(s, a).g & 1 != 0 <==> s.g & 1 != 0 || a.Release?
  {
    assert PcOf(s, a.t) == Initialising <==> PhaseOf(s.log) == Held(a.t);
  }

  /** In every interleaving without a release, whatever the other threads do and
      however often anybody aborts, a thread that waits goes on waiting. */
  lemma {:induction false} WaitsWithoutRelease(s: State, acts: seq<Action>, t: Tid)
    requires Inv(s) && Legal(s, acts) && PcOf(s, t) == Spinning && s.g & 1 == 0 && !Releases(acts)
    ensures PcOf(Run(s, acts), t) == Spinning && Run(s, acts).g & 1 == 0
    decreases acts
  {
    if acts != [] {
      WaiterStep(s, acts[0], t);
      StepInv(s, acts[0]);
      ReleasesLater(acts);
      WaitsWithoutRelease(Step(s, acts[0]), acts[1..], t);
    }
  }

  /** A thread that still waits at the end of any interleaving comes back at its
      next look exactly when a release has happened; it comes back with 0, so it
      never initialises, and an abort alone leaves it waiting. */
  lemma WaiterReturnsIff(s: State, acts: seq<Action>, t: Tid)
    requires Inv(s) && s.g & 1 == 0 && Legal(s, acts) && PcOf(Run(s, acts), t) == Spinning
    ensures var r := Run(s, acts);
      && (PcOf(Step(r, Look(t)), t) == Idle <==> Releases(acts))
      && (PcOf(Step(r, Look(t)), t) == Spinning <==> !Releases(acts))
      && (Releases(acts) ==> Step(r, Look(t)).log == r.log + [Returned0(t)])
  {
    RunInv(s, acts);
    ReleasedIff(s, acts);
  }

  /** Two threads come for the guard, the one that got it aborts, the other
      waits although the guard is free again. */
  lemma AbortStrandsWaitersExample()
    ensures var acts := [Enter(0), Enter(1), Swap(0), Swap(1), Abort(0)];
      Legal(INIT, acts) && Run(INIT, acts).g == 0 && PcOf(Run(INIT, acts), 1) == Spinning
  {
  }

  /** From there on, as long as nobody else comes and releases, it waits for ever. */
  lemma StrandedForEver(acts: seq<Action>)
    requires var s := Run(INIT, [Enter(0), Enter(1), Swap(0), Swap(1), Abort(0)]);
      Legal(s, acts) && !Releases(acts)
    ensures var s := Run(INIT, [Enter(0), Enter(1), Swap(0), Swap(1), Abort(0)]);
      PcOf(Run(s, acts), 1) == Spinning
  {
    var before := [Enter(0), Enter(1), Swap(0), Swap(1), Abort(0)];
    AbortStrandsWaitersExample();
    RunInv(INIT, before);
    WaitsWithoutRelease(Run(INIT, before), acts, 1);
  }
}
