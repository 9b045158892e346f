/**
 Any number of dispatcher threads sweeping one container at the same time.  A step is one
 locked container call or one local move of a thread; a run is any sequence of steps.
 */
module Sweeps {
  import opened CommContainers
  import opened Sets

  type ThreadId = nat

  /** A thread's place in process_clients.  `comms` is its local list: of the ids it took
      while it sweeps, of the ids it still has to hand back while it returns.  `seen` is not
      in the program: the ids that were in the container at some time during the sweep. */
  datatype Thread =
    | Idle
    | Sweeping(comms: seq<CommId>, processing: bool, seen: set<CommId>)
    | Returning(comms: seq<CommId>, seen: set<CommId>)
  {
    function Held(): seq<CommId> {
      if Idle? then [] else comms
    }

    predicate Processes(id: CommId) {
      Sweeping? && processing && comms != [] && comms[|comms| - 1] == id
    }
  }

  /** `inserted` and `erased` record the past; `calls` are the disconnected callbacks. */
  datatype System = System(
    shared: Shared,
    nextId: CommId,
    inserted: set<CommId>,
    erased: set<CommId>,
    calls: seq<CommId>,
    threads: map<ThreadId, Thread>)

  datatype Step =
    | NewCommunicator
    | InsertClient(id: CommId)
    | Begin(t: ThreadId)
    | Take(t: ThreadId)
    | Processed(t: ThreadId)
    | GiveBack(t: ThreadId)
    | Finish(t: ThreadId)
    | HandleDisconnected(id: CommId)

  /** A communicator gets a new id when it is created and is inserted once. */
  predicate Enabled(s: System, step: Step) {
    match step
    case NewCommunicator => true
    case InsertClient(id) => id < s.nextId && id !in s.inserted
    case Begin(t) => t in s.threads && s.threads[t].Idle?
    case Take(t) => t in s.threads && s.threads[t].Sweeping? && !s.threads[t].processing
    case Processed(t) => t in s.threads && s.threads[t].Sweeping? && s.threads[t].processing
    case GiveBack(t) => t in s.threads && s.threads[t].Returning? && s.threads[t].comms != []
    case Finish(t) => t in s.threads && s.threads[t].Returning? && s.threads[t].comms == []
    case HandleDisconnected(id) => true
  }

  function Saw(thread: Thread, id: CommId): Thread {
    match thread
    case Sweeping(comms, processing, seen) => Sweeping(comms, processing, seen + {id})
    case _ => thread
  }

  function Apply(s: System, step: Step): System
    requires Enabled(s, step)
  {
    match step
    case NewCommunicator =>
      s.(nextId := s.nextId + 1)
    case InsertClient(id) =>
      s.(shared := s.shared.Insert(id), inserted := s.inserted + {id},
         threads := map t | t in s.threads :: Saw(s.threads[t], id))
    case Begin(t) =>
      s.(threads := s.threads[t := Sweeping([], false, s.shared.Present())])
    case Take(t) =>
      var thread := s.threads[t];
      if s.shared.primary == {} then
        s.(threads := s.threads[t := Returning(thread.comms, thread.seen)])
      else
        s.(shared := s.shared.TakeOut(),
           threads := s.threads[t := Sweeping(thread.comms + [LeastOf(s.shared.primary)], true, thread.seen)])
    case Processed(t) =>
      s.(threads := s.threads[t := s.threads[t].(processing := false)])
    case GiveBack(t) =>
      var thread := s.threads[t];
      s.(shared := s.shared.GetBack(thread.comms[0]),
         threads := s.threads[t := thread.(comms := thread.comms[1..])])
    case Finish(t) =>
      s.(threads := s.threads[t := Idle])
    case HandleDisconnected(id) =>
      if id in s.shared.Present() then
        s.(shared := s.shared.Erase(id), erased := s.erased + {id}, calls := s.calls + [id])
      else s
  }

  ghost predicate ValidRun(s: System, steps: seq<Step>)
    decreases |steps|
  {
    steps == [] || (Enabled(s, steps[0]) && ValidRun(Apply(s, steps[0]), steps[1..]))
  }

  function Run(s: System, steps: seq<Step>): System
    requires ValidRun(s, steps)
    decreases |steps|
  {
    if steps == [] then s else Run(Apply(s, steps[0]), steps[1..])
  }

  ghost predicate Initial(s: System) {
    && s.shared == Shared({}, {}) && s.inserted == {} && s.erased == {} && s.calls == []
    && forall t | t in s.threads :: s.threads[t].Idle?
  }

  ghost predicate NoRepeats(ids: seq<CommId>) {
    forall i, j | 0 <= i < j < |ids| :: ids[i] != ids[j]
  }

  // ---- the invariant ----------------------------------------------------------------

  /** The container holds exactly the inserted clients that were not erased, each once. */
  ghost predicate Accounted(s: System) {
    && s.shared.primary !! s.shared.excluded
    && s.shared.Present() == s.inserted - s.erased
    && s.erased <= s.inserted
    && (forall id | id in s.inserted :: id < s.nextId)
  }

  /** Who holds what: a held id is not in the primary map, no other thread holds it, and it
      is excluded unless it was erased meanwhile. */
  ghost predicate HeldRightly(s: System, t: ThreadId)
    requires t in s.threads
  {
    var held := s.threads[t].Held();
    && NoRepeats(held)
    && (forall id | id in held :: id in s.shared.excluded || id in s.erased)
    && (forall id | id in held :: id !in s.shared.primary)
    && (s.threads[t].Sweeping? ==> s.shared.Present() <= s.threads[t].seen)
    && (!s.threads[t].Idle? ==> Elements(held) <= s.threads[t].seen)
    && (s.threads[t].Sweeping? && s.threads[t].processing ==> held != [])
  }

  ghost predicate Exclusive(s: System) {
    forall t, u, id | t in s.threads && u in s.threads && t != u && id in s.threads[t].Held() ::
      id !in s.threads[u].Held()
  }

  /** Every excluded client is in the list of some thread that will hand it back. */
  ghost predicate ExcludedAreHeld(s: System) {
    forall id | id in s.shared.excluded :: exists t :: t in s.threads && id in s.threads[t].Held()
  }

  ghost predicate CallsMatchErasures(s: System) {
    NoRepeats(s.calls) && Elements(s.calls) == s.erased
  }

  ghost predicate Inv(s: System) {
    && Accounted(s)
    && (forall t | t in s.threads :: HeldRightly(s, t))
    && Exclusive(s)
    && ExcludedAreHeld(s)
    && CallsMatchErasures(s)
  }

  lemma StepKeepsAccounts(s: System, step: Step)
    requires Inv(s) && Enabled(s, step)
    ensures Accounted(Apply(s, step)) && CallsMatchErasures(Apply(s, step))
  {
  }

  lemma TakeKeepsHolders(s: System, u: ThreadId, t: ThreadId)
    requires Inv(s) && Enabled(s, Take(u)) && t in s.threads
    ensures HeldRightly(Apply(s, Take(u)), t)
  {
  }

  lemma GiveBackKeepsHolders(s: System, u: ThreadId, t: ThreadId)
    requires Inv(s) && Enabled(s, GiveBack(u)) && t in s.threads
    ensures HeldRightly(Apply(s, GiveBack(u)), t)
  {
  }

  lemma StepKeepsHolders(s: System, step: Step, t: ThreadId)
    requires Inv(s) && Enabled(s, step) && t in s.threads
    ensures HeldRightly(Apply(s, step), t)
  {
    match step
    case Take(u) => TakeKeepsHolders(s, u, t);
    case GiveBack(u) => GiveBackKeepsHolders(s, u, t);
    case _ => assert HeldRightly(s, t);
  }

  lemma StepKeepsExclusion(s: System, step: Step)
    requires Inv(s) && Enabled(s, step)
    ensures Exclusive(Apply(s, step))
  {
    var s' := Apply(s, step);
    forall t, u, id | t in s'.threads && u in s'.threads && t != u && id in s'.threads[t].Held()
      ensures id !in s'.threads[u].Held()
    {
      assert HeldRightly(s, t) && HeldRightly(s, u);
      HeldGrowsOnlyByTaking(s, step, t, id);
      if id in s'.threads[u].Held() {
        HeldGrowsOnlyByTaking(s, step, u, id);
      }
    }
  }

  lemma HeldGrowsOnlyByTaking(s: System, step: Step, t: ThreadId, id: CommId)
    requires Enabled(s, step) && t in s.threads && id in Apply(s, step).threads[t].Held()
    ensures id in s.threads[t].Held() || (step == Take(t) && id in s.shared.primary)
  {
  }

  /** Only GiveBack(t) lets go of an id, and that one leaves the excluded map. */
  lemma StaysHeld(s: System, step: Step, t: ThreadId, id: CommId)
    requires Inv(s) && Enabled(s, step)
    requires t in s.threads && id in s.threads[t].Held() && id in Apply(s, step).shared.excluded
    ensures t in Apply(s, step).threads && id in Apply(s, step).threads[t].Held()
  {
    if step == GiveBack(t) {
      var comms := s.threads[t].comms;
      assert comms == [comms[0]] + comms[1..];
    }
  }

  lemma StepKeepsExcludedHeld(s: System, step: Step)
    requires Inv(s) && Enabled(s, step)
    ensures ExcludedAreHeld(Apply(s, step))
  {
    var s' := Apply(s, step);
    forall id | id in s'.shared.excluded
      ensures exists t :: t in s'.threads && id in s'.threads[t].Held()
    {
      if id in s.shared.excluded {
        var t :| t in s.threads && id in s.threads[t].Held();
        StaysHeld(s, step, t, id);
      } else {
        assert step.Take? && step.t in s'.threads && id in s'.threads[step.t].Held();
      }
    }
  }

  lemma StepKeepsInv(s: System, step: Step)
    requires Inv(s) && Enabled(s, step)
    ensures Inv(Apply(s, step))
  {
    StepKeepsAccounts(s, step);
    forall t | t in Apply(s, step).threads
      ensures HeldRightly(Apply(s, step), t)
    {
      StepKeepsHolders(s, step, t);
    }
    StepKeepsExclusion(s, step);
    StepKeepsExcludedHeld(s, step);
  }

  lemma {:induction false} RunKeepsInv(s: System, steps: seq<Step>)
    requires Inv(s) && ValidRun(s, steps)
    ensures Inv(Run(s, steps))
    decreases |steps|
  {
    if steps != [] {
      StepKeepsInv(s, steps[0]);
      RunKeepsInv(Apply(s, steps[0]), steps[1..]);
    }
  }

  // ---- what follows for every run ---------------------------------------------------

  /** No communicator is ever processed by two threads at once, and while a thread works on
      one it is not offered to the others. */
  lemma MutualExclusion(s: System, steps: seq<Step>, t: ThreadId, u: ThreadId, id: CommId)
    requires Initial(s) && ValidRun(s, steps)
    requires var r := Run(s, steps); t in r.threads && u in r.threads
    requires var r := Run(s, steps); r.threads[t].Processes(id) && r.threads[u].Processes(id)
    ensures t == u && id !in Run(s, steps).shared.primary
  {
    RunKeepsInv(s, steps);
    var r := Run(s, steps);
    assert HeldRightly(r, t);
    assert id in r.threads[t].Held() && id in r.threads[u].Held();
  }

  /** When no sweep is active, exactly the inserted and never erased clients are back in
      the primary map and the excluded map is empty. */
  lemma SweepsRestore(s: System, steps: seq<Step>)
    requires Initial(s) && ValidRun(s, steps)
    requires forall t | t in Run(s, steps).threads :: Run(s, steps).threads[t].Idle?
    ensures Run(s, steps).shared == Shared(Run(s, steps).inserted - Run(s, steps).erased, {})
  {
    RunKeepsInv(s, steps);
    var r := Run(s, steps);
    assert forall t | t in r.threads :: r.threads[t].Held() == [];
    assert r.shared.excluded == {};
  }

  /** Within one sweep a thread takes each id at most once, and no more ids than there were
      clients when the sweep began and clients inserted since.  This bounds the loop over
      take_out, whatever the other threads hand back meanwhile. */
  lemma SweepIsBounded(s: System, before: seq<Step>, t: ThreadId, during: seq<Step>)
    requires Initial(s) && ValidRun(s, before) && Enabled(Run(s, before), Begin(t))
    requires ValidRun(Apply(Run(s, before), Begin(t)), during)
    requires forall i | 0 <= i < |during| :: during[i] != Begin(t)
    requires t in Run(Apply(Run(s, before), Begin(t)), during).threads
    requires Run(Apply(Run(s, before), Begin(t)), during).threads[t].Sweeping?
    ensures var start, now := Run(s, before), Run(Apply(Run(s, before), Begin(t)), during);
            && NoRepeats(now.threads[t].comms)
            && Elements(now.threads[t].comms) <= start.shared.Present() + (now.inserted - start.inserted)
            && |now.threads[t].comms| <= |start.shared.Present()| + |now.inserted - start.inserted|
  {
    var start := Run(s, before);
    var begun := Apply(start, Begin(t));
    RunKeepsInv(s, before);
    StepKeepsInv(start, Begin(t));
    RunKeepsInv(begun, during);
    var now := Run(begun, during);
    assert HeldRightly(now, t);
    SeenIsPresentOrInserted(begun, during, t);
    NoRepeatsCount(now.threads[t].comms);
    SubsetIsNotLarger(Elements(now.threads[t].comms), start.shared.Present() + (now.inserted - start.inserted));
    UnionCount(start.shared.Present(), now.inserted - start.inserted);
  }

  lemma UnionCount(a: set<CommId>, b: set<CommId>)
    ensures |a + b| <= |a| + |b|
  {
  }

  lemma {:induction false} NoRepeatsCount(ids: seq<CommId>)
    requires NoRepeats(ids)
    ensures |Elements(ids)| == |ids|
  {
    if ids != [] {
      var init, last := ids[..|ids| - 1], ids[|ids| - 1];
      NoRepeatsCount(init);
      ElementsSnoc(init, last);
      assert ids == init + [last];
      assert last !in Elements(init);
    } else {
      assert Elements(ids) == {};
    }
  }

  /** What `seen` is: from the start of a sweep on, the clients present at the start and
      those inserted since. */
  lemma {:induction false} SeenIsPresentOrInserted(s: System, steps: seq<Step>, t: ThreadId)
    requires ValidRun(s, steps) && t in s.threads && s.threads[t].Sweeping?
    requires forall i | 0 <= i < |steps| :: steps[i] != Begin(t)
    requires t in Run(s, steps).threads && Run(s, steps).threads[t].Sweeping?
    ensures Run(s, steps).threads[t].seen == s.threads[t].seen + (Run(s, steps).inserted - s.inserted)
    ensures s.inserted <= Run(s, steps).inserted
    decreases |steps|
  {
    if steps == [] {
    } else {
      var next := Apply(s, steps[0]);
      if next.threads[t].Sweeping? {
        assert forall i | 0 <= i < |steps[1..]| :: steps[1..][i] != Begin(t);
        SeenIsPresentOrInserted(next, steps[1..], t);
      } else {
        assert forall i | 0 <= i < |steps[1..]| :: steps[1..][i] != Begin(t);
        WithoutBeginNoSweep(next, steps[1..], t);
        assert false;
      }
    }
  }

  lemma {:induction false} WithoutBeginNoSweep(s: System, steps: seq<Step>, t: ThreadId)
    requires ValidRun(s, steps) && t in s.threads && !s.threads[t].Sweeping?
    requires forall i | 0 <= i < |steps| :: steps[i] != Begin(t)
    ensures t in Run(s, steps).threads && !Run(s, steps).threads[t].Sweeping?
    decreases |steps|
  {
    if steps != [] {
      assert steps[0] != Begin(t);
      assert forall i | 0 <= i < |steps[1..]| :: steps[1..][i] != Begin(t);
      WithoutBeginNoSweep(Apply(s, steps[0]), steps[1..], t);
    }
  }

  /** An erased client never comes back, although its id may still be in a thread's list. */
  lemma ErasedNeverReappears(s: System, steps: seq<Step>, later: seq<Step>, id: CommId)
    requires Initial(s) && ValidRun(s, steps) && ValidRun(Run(s, steps), later)
    requires id in Run(s, steps).erased
    ensures id !in Run(Run(s, steps), later).shared.Present()
  {
    RunKeepsInv(s, steps);
    RunKeepsInv(Run(s, steps), later);
    ErasedStays(Run(s, steps), later, id);
  }

  lemma {:induction false} ErasedStays(s: System, steps: seq<Step>, id: CommId)
    requires ValidRun(s, steps) && id in s.erased
    ensures id in Run(s, steps).erased
    decreases |steps|
  {
    if steps != [] {
      ErasedStays(Apply(s, steps[0]), steps[1..], id);
    }
  }

  /** The disconnected callback runs at most once for a client, and only for one that is
      gone from the container. */
  lemma DisconnectedCallOnce(s: System, steps: seq<Step>, i: nat, j: nat)
    requires Initial(s) && ValidRun(s, steps)
    requires i < |Run(s, steps).calls| && j < |Run(s, steps).calls| && Run(s, steps).calls[i] == Run(s, steps).calls[j]
    ensures i == j && Run(s, steps).calls[i] !in Run(s, steps).shared.Present()
  {
    RunKeepsInv(s, steps);
    var r := Run(s, steps);
    assert r.calls[i] in Elements(r.calls);
  }

  // ---- what a sweep does not reach --------------------------------------------------

  /** When take_out finds nothing, which ends the loop of a sweep, every client that is
      present was taken by this sweep if and only if no other thread holds it. */
  lemma SweepMissesIff(s: System, steps: seq<Step>, t: ThreadId, id: CommId)
    requires Initial(s) && ValidRun(s, steps) && t in Run(s, steps).threads
    requires Run(s, steps).threads[t].Sweeping? && Run(s, steps).shared.primary == {} && id in Run(s, steps).shared.Present()
    ensures var r := Run(s, steps);
            id in r.threads[t].comms <==> forall u | u in r.threads && u != t :: id !in r.threads[u].Held()
  {
    RunKeepsInv(s, steps);
    var r := Run(s, steps);
    if id in r.threads[t].comms {
      assert id in r.threads[t].Held();
    } else {
      var u :| u in r.threads && id in r.threads[u].Held();
      assert u != t;
    }
  }

  /** One inserted client, and the lists of two threads. */
  function Two(shared: Shared, first: Thread, second: Thread): System {
    System(shared, 1, {0}, {}, [], map[1 := first, 2 := second])
  }

  const NOBODY: System := System(Shared({}, {}), 0, {}, {}, [], map[1 := Idle, 2 := Idle])

  const MISSING_STEPS: seq<Step> :=
    [NewCommunicator, InsertClient(0), Begin(1), Take(1), Processed(1), Begin(2), Take(2), Finish(2)]

  /** One client and two threads.  The first thread takes the client and finishes with it;
      then the second sweeps for a kick and finds nothing, because the first still has the
      client in its list: what arrived in between waits for the next sweep. */
  lemma KickCanMissClient()
    ensures Initial(NOBODY) && ValidRun(NOBODY, MISSING_STEPS)
    ensures Run(NOBODY, MISSING_STEPS) == Two(Shared({}, {0}), Sweeping([0], false, {0}), Idle)
  {
    hide Apply, Enabled, Run, ValidRun;
    var here, created, steps := Shared({0}, {}), NOBODY.(nextId := 1), MISSING_STEPS;
    StepsBeforeTaking(created);
    FirstThreadProcesses();
    RunFrom(Two(here, Idle, Idle), steps, 2, Two(here, Sweeping([], false, {0}), Idle));
    RunFrom(created, steps, 1, Two(here, Idle, Idle));
    RunFrom(NOBODY, steps, 0, created);
    assert steps[0..] == steps;
  }

  lemma FirstThreadProcesses()
    ensures var s, steps := Two(Shared({0}, {}), Sweeping([], false, {0}), Idle), MISSING_STEPS[3..];
            ValidRun(s, steps) && Run(s, steps) == Two(Shared({}, {0}), Sweeping([0], false, {0}), Idle)
  {
    hide Apply, Enabled, Run, ValidRun;
    var away, held, steps := Shared({}, {0}), Sweeping([0], false, {0}), MISSING_STEPS;
    TakingTheClient();
    SecondSweepFindsNothing();
    RunFrom(Two(away, Sweeping([0], true, {0}), Idle), steps, 4, Two(away, held, Idle));
    RunFrom(Two(Shared({0}, {}), Sweeping([], false, {0}), Idle), steps, 3, Two(away, Sweeping([0], true, {0}), Idle));
  }

  lemma SecondSweepFindsNothing()
    ensures var s, steps := Two(Shared({}, {0}), Sweeping([0], false, {0}), Idle), MISSING_STEPS[5..];
            ValidRun(s, steps) && Run(s, steps) == s
  {
    hide Apply, Enabled, Run, ValidRun;
    var away, held, steps := Shared({}, {0}), Sweeping([0], false, {0}), MISSING_STEPS;
    SecondSweep();
    RunNone(Two(away, held, Idle));
    assert steps[8..] == [];
    RunFrom(Two(away, held, Returning([], {0})), steps, 7, Two(away, held, Idle));
    RunFrom(Two(away, held, Sweeping([], false, {0})), steps, 6, Two(away, held, Returning([], {0})));
    RunFrom(Two(away, held, Idle), steps, 5, Two(away, held, Sweeping([], false, {0})));
  }

  lemma StepsBeforeTaking(created: System)
    requires created == NOBODY.(nextId := 1)
    ensures Enabled(NOBODY, NewCommunicator) && Apply(NOBODY, NewCommunicator) == created
    ensures Enabled(created, InsertClient(0)) && Apply(created, InsertClient(0)) == Two(Shared({0}, {}), Idle, Idle)
    ensures var s := Two(Shared({0}, {}), Idle, Idle);
            Enabled(s, Begin(1)) && Apply(s, Begin(1)) == Two(Shared({0}, {}), Sweeping([], false, {0}), Idle)
  {
    var s := Two(Shared({0}, {}), Idle, Idle);
    assert s.shared.Present() == {0};
    assert s.threads[1 := Sweeping([], false, {0})] == map[1 := Sweeping([], false, {0}), 2 := Idle];
    assert Apply(created, InsertClient(0)).threads == s.threads;
  }

  lemma TakingTheClient()
    ensures var s, r := Two(Shared({0}, {}), Sweeping([], false, {0}), Idle),
                        Two(Shared({}, {0}), Sweeping([0], true, {0}), Idle);
            && Enabled(s, Take(1)) && Apply(s, Take(1)) == r
            && Enabled(r, Processed(1)) && Apply(r, Processed(1)) == Two(Shared({}, {0}), Sweeping([0], false, {0}), Idle)
  {
    var s := Two(Shared({0}, {}), Sweeping([], false, {0}), Idle);
    assert LeastOf(s.shared.primary) == 0;
    assert s.shared.TakeOut() == Shared({}, {0}) && [] + [0] == [0];
    assert s.threads[1 := Sweeping([0], true, {0})] == map[1 := Sweeping([0], true, {0}), 2 := Idle];
    var r := Two(Shared({}, {0}), Sweeping([0], true, {0}), Idle);
    assert r.threads[1 := Sweeping([0], false, {0})] == map[1 := Sweeping([0], false, {0}), 2 := Idle];
  }

  lemma SecondSweep()
    ensures var held, away := Sweeping([0], false, {0}), Shared({}, {0});
            var s, r := Two(away, held, Idle), Two(away, held, Sweeping([], false, {0}));
            && Enabled(s, Begin(2)) && Apply(s, Begin(2)) == r
            && Enabled(r, Take(2)) && Apply(r, Take(2)) == Two(away, held, Returning([], {0}))
            && Enabled(Two(away, held, Returning([], {0})), Finish(2))
            && Apply(Two(away, held, Returning([], {0})), Finish(2)) == s
  {
    assert Shared({}, {0}).Present() == {0};
  }

  lemma RunNone(s: System)
    ensures ValidRun(s, []) && Run(s, []) == s
  {
  }

  lemma RunFrom(s: System, steps: seq<Step>, i: nat, next: System)
    requires i < |steps| && Enabled(s, steps[i]) && Apply(s, steps[i]) == next && ValidRun(next, steps[i + 1..])
    ensures ValidRun(s, steps[i..]) && Run(s, steps[i..]) == Run(next, steps[i + 1..])
  {
    assert steps[i..][1..] == steps[i + 1..];
  }
}
