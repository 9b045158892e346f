/**
 Waking the dispatcher.  kick_dispatcher posts a handler unless enough are outstanding; the
 test reads two atomic counters one after the other, in either order, and increments one of
 them afterwards, so other threads can act in between.  One io_service lifetime, in which
 posting does not throw.
 */
module Kicks {
  import opened Sets

  type KickerId = nat

  /** How far a thread is inside kick_dispatcher; the numbers are values it has read. */
  datatype Phase =
    | Outside
    | Entered
    | ReadKickCount(kick: int)
    | ReadRunCount(run: int)
    | Passed(kick: int)
    | Promised
    | Returned

  /** Besides its phase, what is remembered of the latest call: how many process() calls
      had begun when it was entered, and whether some thread was running ever since. */
  datatype Kicker = Kicker(phase: Phase, begunAtEntry: nat, alwaysRunning: bool)

  /** `posted` handlers are queued, `woken` ones have decremented the counter and are about
      to call process(), `begun` counts the process() calls.  `mostRunning` is the largest
      run count so far and `base` the largest kick count a successful test was based on. */
  datatype State = State(
    kickCount: int,
    runCount: int,
    posted: nat,
    woken: nat,
    begun: nat,
    kickers: map<KickerId, Kicker>,
    mostRunning: int,
    base: int)

  datatype Step =
    | Enter(k: KickerId)
    | LoadKickCount(k: KickerId)
    | LoadRunCount(k: KickerId)
    | IncKickCount(k: KickerId)
    | Post(k: KickerId)
    | KickHandler
    | Process
    | IncRunCount
    | DecRunCount

  predicate In(s: State, k: KickerId, phases: set<Phase>) {
    k in s.kickers && s.kickers[k].phase in phases
  }

  predicate Enabled(s: State, step: Step) {
    match step
    case Enter(k) => In(s, k, {Outside, Returned})
    case LoadKickCount(k) => k in s.kickers && (s.kickers[k].phase.Entered? || s.kickers[k].phase.ReadRunCount?)
    case LoadRunCount(k) => k in s.kickers && (s.kickers[k].phase.Entered? || s.kickers[k].phase.ReadKickCount?)
    case IncKickCount(k) => k in s.kickers && s.kickers[k].phase.Passed?
    case Post(k) => In(s, k, {Promised})
    case KickHandler => s.posted > 0
    case Process => s.woken > 0
    case IncRunCount => true
    case DecRunCount => s.runCount > 0
  }

  function Compared(kick: int, run: int): Phase {
    if kick < run then Passed(kick) else Returned
  }

  function Moved(s: State, k: KickerId, phase: Phase): map<KickerId, Kicker>
    requires k in s.kickers
  {
    s.kickers[k := s.kickers[k].(phase := phase)]
  }

  function Max(a: int, b: int): int {
    if a < b then b else a
  }

  function Apply(s: State, step: Step): State
    requires Enabled(s, step)
  {
    match step
    case Enter(k) =>
      s.(kickers := s.kickers[k := Kicker(Entered, s.begun, s.runCount >= 1)])
    case LoadKickCount(k) =>
      var phase := s.kickers[k].phase;
      s.(kickers := Moved(s, k, if phase.ReadRunCount? then Compared(s.kickCount, phase.run) else ReadKickCount(s.kickCount)))
    case LoadRunCount(k) =>
      var phase := s.kickers[k].phase;
      s.(kickers := Moved(s, k, if phase.ReadKickCount? then Compared(phase.kick, s.runCount) else ReadRunCount(s.runCount)))
    case IncKickCount(k) =>
      s.(kickCount := s.kickCount + 1, base := Max(s.base, s.kickers[k].phase.kick), kickers := Moved(s, k, Promised))
    case Post(k) =>
      s.(posted := s.posted + 1, kickers := Moved(s, k, Returned))
    case KickHandler =>
      s.(posted := s.posted - 1, kickCount := s.kickCount - 1, woken := s.woken + 1)
    case Process =>
      s.(woken := s.woken - 1, begun := s.begun + 1)
    case IncRunCount =>
      s.(runCount := s.runCount + 1, mostRunning := Max(s.mostRunning, s.runCount + 1))
    case DecRunCount =>
      s.(runCount := s.runCount - 1,
         kickers := map k | k in s.kickers ::
           s.kickers[k].(alwaysRunning := s.kickers[k].alwaysRunning && (s.kickers[k].phase.Returned? || s.runCount > 1)))
  }

  ghost predicate ValidRun(s: State, steps: seq<Step>)
    decreases |steps|
  {
    steps == [] || (Enabled(s, steps[0]) && ValidRun(Apply(s, steps[0]), steps[1..]))
  }

  function Run(s: State, steps: seq<Step>): State
    requires ValidRun(s, steps)
    decreases |steps|
  {
    if steps == [] then s else Run(Apply(s, steps[0]), steps[1..])
  }

  ghost predicate Initial(s: State) {
    && s.kickCount == s.runCount == s.mostRunning == 0 && s.posted == s.woken == s.begun == 0
    && s.base == -1
    && forall k | k in s.kickers :: s.kickers[k].phase == Outside
  }

  /** The kickers between their increment and their post. */
  function Promisers(s: State): set<KickerId> {
    set k | k in s.kickers && s.kickers[k].phase == Promised
  }

  /** The kickers that have read a kick count of at most `m` and may still increment. */
  function Pending(s: State, m: int): set<KickerId> {
    set k | k in s.kickers
            && ((s.kickers[k].phase.ReadKickCount? || s.kickers[k].phase.Passed?) && s.kickers[k].phase.kick <= m)
  }

  /** Handlers that are queued, promised, or on their way into process(). */
  function Outstanding(s: State): nat {
    s.posted + |Promisers(s)| + s.woken
  }

  /** A process() has begun since the call was entered, or one is certain to begin. */
  predicate NotLost(s: State, kicker: Kicker) {
    s.begun > kicker.begunAtEntry || Outstanding(s) > 0
  }

  ghost predicate Counted(s: State) {
    && s.kickCount == s.posted + |Promisers(s)|
    && s.runCount <= s.mostRunning
    && s.base <= s.mostRunning - 1
    && (forall k | k in s.kickers && s.kickers[k].phase.ReadRunCount? :: s.kickers[k].phase.run <= s.mostRunning)
    && (forall k | k in s.kickers && s.kickers[k].phase.Passed? :: s.kickers[k].phase.kick < s.mostRunning)
  }

  ghost predicate CanOvershootOnly(s: State) {
    forall m :: m >= s.base ==> s.kickCount + |Pending(s, m)| <= m + |s.kickers|
  }

  ghost predicate KickIsSafe(s: State, k: KickerId)
    requires k in s.kickers
  {
    var kicker := s.kickers[k];
    && kicker.begunAtEntry <= s.begun
    && (kicker.alwaysRunning && !kicker.phase.Returned? && !kicker.phase.Outside? ==> s.runCount >= 1)
    && (kicker.alwaysRunning && kicker.phase.ReadRunCount? ==> kicker.phase.run >= 1)
    && (kicker.phase.ReadKickCount? && kicker.phase.kick >= 1 ==> NotLost(s, kicker))
    && (kicker.alwaysRunning && kicker.phase.Returned? ==> NotLost(s, kicker))
  }

  ghost predicate Inv(s: State) {
    && Counted(s)
    && CanOvershootOnly(s)
    && forall k | k in s.kickers :: s.kickers[k].phase.Outside? || KickIsSafe(s, k)
  }

  // ---- each step keeps the invariant ------------------------------------------------

  /** What a step does to the set of promisers. */
  lemma PromisersStep(s: State, step: Step)
    requires Enabled(s, step)
    ensures step.IncKickCount? ==> Promisers(Apply(s, step)) == Promisers(s) + {step.k} && step.k !in Promisers(s)
    ensures step.Post? ==> Promisers(Apply(s, step)) == Promisers(s) - {step.k} && step.k in Promisers(s)
    ensures !step.IncKickCount? && !step.Post? ==> Promisers(Apply(s, step)) == Promisers(s)
  {
  }

  lemma StepKeepsKickCount(s: State, step: Step)
    requires Enabled(s, step) && s.kickCount == s.posted + |Promisers(s)|
    ensures Apply(s, step).kickCount == Apply(s, step).posted + |Promisers(Apply(s, step))|
  {
    hide Promisers;
    PromisersStep(s, step);
  }

  lemma StepKeepsCounts(s: State, step: Step)
    requires Counted(s) && Enabled(s, step)
    ensures Counted(Apply(s, step))
  {
    hide Promisers;
    StepKeepsKickCount(s, step);
  }

  lemma StepKeepsSafety(s: State, step: Step, k: KickerId)
    requires Inv(s) && Enabled(s, step) && k in s.kickers
    requires !Apply(s, step).kickers[k].phase.Outside?
    ensures KickIsSafe(Apply(s, step), k)
  {
    hide Promisers, Pending, CanOvershootOnly;
    PromisersStep(s, step);
    var s' := Apply(s, step);
    assert s.kickers[k].phase.Outside? || KickIsSafe(s, k);
    assert Outstanding(s') >= Outstanding(s) || s'.begun > s.begun;
  }

  lemma PendingWithin(s: State, m: int)
    ensures Pending(s, m) <= s.kickers.Keys && |Pending(s, m)| <= |s.kickers|
  {
    SubsetIsNotLarger(Pending(s, m), s.kickers.Keys);
  }

  /** What a step does to the set of those who have read at most `m`. */
  lemma PendingStep(s: State, step: Step, m: int)
    requires Enabled(s, step)
    ensures var before, after := Pending(s, m), Pending(Apply(s, step), m);
            match step
            case LoadKickCount(k) => s.kickCount > m ==> after == before
            case LoadRunCount(k) => after <= before
            case IncKickCount(k) => after == before - {k} && (s.kickers[k].phase.kick <= m ==> k in before)
            case _ => after == before
  {
  }

  lemma StepKeepsBound(s: State, step: Step, m: int)
    requires Inv(s) && Enabled(s, step) && m >= Apply(s, step).base
    ensures Apply(s, step).kickCount + |Pending(Apply(s, step), m)| <= m + |Apply(s, step).kickers|
  {
    hide Pending;
    var s' := Apply(s, step);
    assert s'.kickers.Keys == s.kickers.Keys;
    assert |s'.kickers| == |s'.kickers.Keys| && |s.kickers| == |s.kickers.Keys|;
    assert s.kickCount + |Pending(s, m)| <= m + |s.kickers|;
    PendingStep(s, step, m);
    if step.LoadKickCount? && s.kickCount <= m {
      PendingWithin(s', m);
    } else if step.LoadRunCount? {
      SubsetIsNotLarger(Pending(s', m), Pending(s, m));
    }
  }

  lemma StepKeepsInv(s: State, step: Step)
    requires Inv(s) && Enabled(s, step)
    ensures Inv(Apply(s, step))
  {
    var s' := Apply(s, step);
    StepKeepsCounts(s, step);
    forall m | m >= s'.base
      ensures s'.kickCount + |Pending(s', m)| <= m + |s'.kickers|
    {
      StepKeepsBound(s, step, m);
    }
    forall k | k in s'.kickers && !s'.kickers[k].phase.Outside?
      ensures KickIsSafe(s', k)
    {
      StepKeepsSafety(s, step, k);
    }
  }

  lemma {:induction false} RunKeepsInv(s: State, steps: seq<Step>)
    requires Inv(s) && ValidRun(s, steps)
    ensures Inv(Run(s, steps)) && Run(s, steps).kickers.Keys == s.kickers.Keys
    decreases |steps|
  {
    if steps != [] {
      StepKeepsInv(s, steps[0]);
      RunKeepsInv(Apply(s, steps[0]), steps[1..]);
    }
  }

  lemma InitialInv(s: State)
    requires Initial(s) && s.kickers != map[]
    ensures Inv(s)
  {
  }

  // ---- what follows for every run ---------------------------------------------------

  /** No kick is lost: when kick_dispatcher has returned and at least one thread was running
      during the call, a process() has begun since the call was entered, or one is certain to
      begin because a handler is outstanding. */
  lemma NoLostKick(s: State, steps: seq<Step>, k: KickerId)
    requires Initial(s) && ValidRun(s, steps) && k in Run(s, steps).kickers
    requires Run(s, steps).kickers[k].phase == Returned && Run(s, steps).kickers[k].alwaysRunning
    ensures NotLost(Run(s, steps), Run(s, steps).kickers[k])
  {
    KeysStay(s, steps);
    InitialInv(s);
    RunKeepsInv(s, steps);
    assert KickIsSafe(Run(s, steps), k);
  }

  lemma {:induction false} KeysStay(s: State, steps: seq<Step>)
    requires ValidRun(s, steps)
    ensures Run(s, steps).kickers.Keys == s.kickers.Keys
    decreases |steps|
  {
    if steps != [] {
      KeysStay(Apply(s, steps[0]), steps[1..]);
    }
  }

  /** The counter is the number of queued and promised handlers, so it never goes below
      zero; and with K kickers it never exceeds the largest run count so far - 1 + K. */
  lemma KickCountIsBounded(s: State, steps: seq<Step>)
    requires Initial(s) && ValidRun(s, steps) && s.kickers != map[]
    ensures var r := Run(s, steps);
            && 0 <= r.kickCount == r.posted + |Promisers(r)|
            && r.kickCount <= r.mostRunning - 1 + |s.kickers|
  {
    InitialInv(s);
    RunKeepsInv(s, steps);
    var r := Run(s, steps);
    var m := r.mostRunning - 1;
    assert r.kickCount + |Pending(r, m)| <= m + |r.kickers|;
    assert |r.kickers| == |r.kickers.Keys| == |s.kickers|;
  }

  // ---- the counters as the dispatcher holds them ------------------------------------

  /** The steps of one kicker that nobody interrupts. */
  function WholeKick(s: State, k: KickerId): seq<Step> {
    [Enter(k), LoadKickCount(k), LoadRunCount(k)] + if s.kickCount < s.runCount then [IncKickCount(k), Post(k)] else []
  }

  lemma RunOne(s: State, step: Step, rest: seq<Step>)
    requires Enabled(s, step) && ValidRun(Apply(s, step), rest)
    ensures ValidRun(s, [step] + rest) && Run(s, [step] + rest) == Run(Apply(s, step), rest)
  {
  }

  /** A call that nobody interrupts posts one handler and counts it, or does neither. */
  lemma WholeKickRuns(s: State, k: KickerId)
    requires In(s, k, {Outside, Returned})
    ensures ValidRun(s, WholeKick(s, k))
    ensures var r, passes := Run(s, WholeKick(s, k)), s.kickCount < s.runCount;
            && r.kickCount == s.kickCount + (if passes then 1 else 0) && r.posted == s.posted + (if passes then 1 else 0)
            && r.runCount == s.runCount && r.woken == s.woken && r.begun == s.begun
            && In(r, k, {Returned})
  {
    var s1 := Apply(s, Enter(k));
    var s2 := Apply(s1, LoadKickCount(k));
    var s3 := Apply(s2, LoadRunCount(k));
    var tail: seq<Step> := if s.kickCount < s.runCount then [IncKickCount(k), Post(k)] else [];
    if s.kickCount < s.runCount {
      var s4 := Apply(s3, IncKickCount(k));
      RunOne(s4, Post(k), []);
      RunOne(s3, IncKickCount(k), [Post(k)]);
    }
    assert ValidRun(s3, tail);
    RunOne(s2, LoadRunCount(k), tail);
    RunOne(s1, LoadKickCount(k), [LoadRunCount(k)] + tail);
    RunOne(s, Enter(k), [LoadKickCount(k)] + ([LoadRunCount(k)] + tail));
    assert WholeKick(s, k) == [Enter(k)] + ([LoadKickCount(k)] + ([LoadRunCount(k)] + tail));
  }

  /** The dispatcher's counters, and the handlers its io_service has not run. */
  class Dispatcher {
    var kickCount: int
    var runCount: int
    var posted: nat
    var processed: nat

    constructor ()
      ensures kickCount == runCount == 0 && posted == processed == 0
    {
      kickCount, runCount, posted, processed := 0, 0, 0, 0;
    }

    ghost predicate Holds(s: State)
      reads this
    {
      kickCount == s.kickCount && runCount == s.runCount && posted == s.posted && s.woken == 0 && processed == s.begun
    }

    method CanKick() returns (can: bool)
      modifies this`kickCount
      ensures can <==> old(kickCount) < runCount
      ensures kickCount == old(kickCount) + if can then 1 else 0
    {
      if kickCount < runCount {
        kickCount := kickCount + 1;
        return true;
      }
      return false;
    }

    method KickDispatcher(ghost s: State, ghost k: KickerId)
      requires Holds(s) && In(s, k, {Outside, Returned})
      modifies this`kickCount, this`posted
      ensures ValidRun(s, WholeKick(s, k)) && Holds(Run(s, WholeKick(s, k)))
    {
      var can := CanKick();
      if can {
        posted := posted + 1;
      }
      WholeKickRuns(s, k);
    }

    method KickHandler(ghost s: State)
      requires Holds(s) && Enabled(s, Step.KickHandler)
      modifies this
      ensures Holds(Apply(Apply(s, Step.KickHandler), Process))
    {
      posted := posted - 1;
      kickCount := kickCount - 1;
      processed := processed + 1;
    }

    method IncRunCount(ghost s: State)
      requires Holds(s)
      modifies this`runCount
      ensures Holds(Apply(s, Step.IncRunCount))
    {
      runCount := runCount + 1;
    }

    /** `finished` is the test after which run signals that no thread is running. */
    method DecRunCount(ghost s: State) returns (finished: bool)
      requires Holds(s) && Enabled(s, Step.DecRunCount)
      modifies this`runCount
      ensures Holds(Apply(s, Step.DecRunCount)) && (finished <==> runCount == 0)
    {
      runCount := runCount - 1;
      return runCount == 0;
    }
  }
}
