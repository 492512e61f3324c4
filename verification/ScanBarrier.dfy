/**
 The barrier of src/growlight.c between watch_dir and the detached scan threads it launches: one
 mutex, one counter, one condition variable. A state machine over the calls' individual steps.
 */
module ScanBarrier {

  /** A scan thread: its work, then lock, decrement, signal if it was the last, unlock. */
  datatype WorkerPc = Scanning | Holding | LastOut | Releasing | Finished

  datatype MainPc =
    | Outside          // between calls
    | EntryWait        // wants the mutex for the entry assertion
    | EntryCheck       // holds it, about to assert thrcount == 0
    | Failed           // the assertion did not hold
    | Opening          // inotify and opendir, which may give up
    | Listing          // at readdir
    | CountWait        // wants the mutex to count a launch
    | Counting         // holds it, before ++thrcount
    | Counted          // holds it, after
    | Creating         // at pthread_create
    | UncountWait      // creation failed, wants the mutex
    | Uncounting       // holds it, before --thrcount
    | Uncounted        // holds it, after
    | TestWait         // wants the mutex for the final wait
    | Testing          // holds it, at while(thrcount)
    | Sleeping         // in pthread_cond_wait
    | Woken            // woken, wants the mutex back
    | Leaving          // holds it, about to unlock and return

  datatype Owner = Free | Main | Worker(id: nat)

  datatype State = State(
    owner: Owner,
    thrcount: int,
    workers: seq<WorkerPc>,   // every thread ever launched
    main: MainPc,
    left: nat,                // links readdir has yet to return
    timeout: bool,
    hurried: bool)            // the latest call past its entry check was timed and woken by nobody

  datatype Action =
    | Call(entries: nat, timeout: bool)
    | GiveUp                  // an early return of watch_dir
    | Proceed                 // the main thread's next step
    | Refused                 // pthread_create fails
    | Advance(id: nat)        // a scan thread's next step
    | Spurious                // pthread_cond_wait returns without a signal

  function Init(): State {
    State(Free, 0, [], Outside, 0, false, false)
  }

  predicate MainHolds(pc: MainPc) {
    pc.EntryCheck? || pc.Counting? || pc.Counted? || pc.Uncounting? || pc.Uncounted? || pc.Testing? || pc.Leaving?
  }

  predicate WorkerHolds(pc: WorkerPc) {
    pc.Holding? || pc.LastOut? || pc.Releasing?
  }

  predicate Enabled(s: State, a: Action) {
    match a
    case Call(_, _) => s.main.Outside?
    case GiveUp => s.main.Opening?
    case Refused => s.main.Creating?
    case Spurious => s.main.Sleeping?
    case Proceed =>
      (match s.main
       case Outside => false
       case Failed => false
       case Sleeping => false
       case EntryWait => s.owner.Free?
       case CountWait => s.owner.Free?
       case UncountWait => s.owner.Free?
       case TestWait => s.owner.Free?
       case Woken => s.owner.Free?
       case _ => true)
    case Advance(i) =>
      i < |s.workers| && !s.workers[i].Finished? && (s.workers[i].Scanning? ==> s.owner.Free?)
  }

  function MainStep(s: State): State
    requires Enabled(s, Proceed)
  {
    match s.main
    case EntryWait => s.(owner := Main, main := EntryCheck)
    case EntryCheck =>
      if s.thrcount == 0 then s.(owner := Free, main := Opening, hurried := false) else s.(main := Failed)
    case Opening => s.(main := Listing)
    case Listing => if s.left > 0 then s.(main := CountWait, left := s.left - 1) else s.(main := TestWait)
    case CountWait => s.(owner := Main, main := Counting)
    case Counting => s.(thrcount := s.thrcount + 1, main := Counted)
    case Counted => s.(owner := Free, main := Creating)
    case Creating => s.(workers := s.workers + [Scanning], main := Listing)
    case UncountWait => s.(owner := Main, main := Uncounting)
    case Uncounting => s.(thrcount := s.thrcount - 1, main := Uncounted)
    case Uncounted => s.(owner := Free, main := TestWait)
    case TestWait => s.(owner := Main, main := Testing)
    case Testing => if s.thrcount == 0 then s.(main := Leaving) else s.(owner := Free, main := Sleeping)
    case Woken => s.(owner := Main, main := if s.timeout then Leaving else Testing)
    case Leaving => s.(owner := Free, main := Outside)
  }

  function WorkerStep(s: State, i: nat): State
    requires Enabled(s, Advance(i))
  {
    match s.workers[i]
    case Scanning => s.(owner := Worker(i), workers := s.workers[i := Holding])
    case Holding =>
      s.(thrcount := s.thrcount - 1, workers := s.workers[i := if s.thrcount == 1 then LastOut else Releasing])
    case LastOut =>
      s.(workers := s.workers[i := Releasing], main := if s.main.Sleeping? then Woken else s.main)
    case Releasing => s.(owner := Free, workers := s.workers[i := Finished])
  }

  function Next(s: State, a: Action): State
    requires Enabled(s, a)
  {
    match a
    case Call(n, t) => s.(main := EntryWait, left := n, timeout := t)
    case GiveUp => s.(main := Outside)
    case Proceed => MainStep(s)
    case Refused => s.(main := UncountWait)
    case Advance(i) => WorkerStep(s, i)
    case Spurious => s.(main := Woken, hurried := s.hurried || s.timeout)
  }

  // ---- The invariant ----

  function Weight(pc: WorkerPc): nat {
    if pc.Scanning? || pc.Holding? then 1 else 0
  }

  /** Launched scans that have not yet decremented the counter. */
  function Active(ws: seq<WorkerPc>): nat {
    if ws == [] then 0 else Active(ws[..|ws| - 1]) + Weight(ws[|ws| - 1])
  }

  lemma {:induction false} ActiveUpdate(ws: seq<WorkerPc>, i: nat, pc: WorkerPc)
    requires i < |ws|
    ensures Active(ws[i := pc]) == Active(ws) - Weight(ws[i]) + Weight(pc)
  {
    var n := |ws| - 1;
    if i == n {
      assert ws[i := pc][..n] == ws[..n];
    } else {
      ActiveUpdate(ws[..n], i, pc);
      assert ws[i := pc][..n] == ws[..n][i := pc];
    }
  }

  lemma {:induction false} ActiveMember(ws: seq<WorkerPc>, i: nat)
    requires i < |ws| && Weight(ws[i]) == 1
    ensures Active(ws) > 0
  {
    if i < |ws| - 1 {
      ActiveMember(ws[..|ws| - 1], i);
    }
  }

  lemma {:induction false} ActiveWitness(ws: seq<WorkerPc>) returns (i: nat)
    requires Active(ws) > 0
    ensures i < |ws| && Weight(ws[i]) == 1
  {
    var n := |ws| - 1;
    if Weight(ws[n]) == 1 {
      i := n;
    } else {
      i := ActiveWitness(ws[..n]);
    }
  }

  /** A launch that is counted but not yet a thread. */
  function Pending(pc: MainPc): nat {
    if pc.Counted? || pc.Creating? || pc.UncountWait? || pc.Uncounting? then 1 else 0
  }

  predicate MutexHeldRight(s: State) {
    && (s.owner.Main? <==> MainHolds(s.main) || s.main.Failed?)
    && (forall i :: 0 <= i < |s.workers| ==> (WorkerHolds(s.workers[i]) <==> s.owner == Worker(i)))
    && (s.owner.Worker? ==> s.owner.id < |s.workers|)
  }

  /** The points at which a call without hurry has nobody left to wait for. */
  predicate Quiet(pc: MainPc) {
    pc.Outside? || pc.EntryWait? || pc.EntryCheck?
  }

  predicate CountRight(s: State) {
    s.thrcount == Active(s.workers) + Pending(s.main)
  }

  predicate LastOutSawZero(s: State) {
    forall i :: 0 <= i < |s.workers| && s.workers[i].LastOut? ==> s.thrcount == 0
  }

  /** A sleeper will be woken: somebody is still counted, or the last one out is about to signal. */
  predicate SleeperSafe(s: State) {
    s.main.Sleeping? ==>
      s.thrcount > 0 || (s.owner.Worker? && s.owner.id < |s.workers| && s.workers[s.owner.id].LastOut?)
  }

  /** What the main thread's position says about the counter. */
  predicate MainSawZero(s: State) {
    && (s.main.Opening? ==> s.thrcount == 0 && !s.hurried)
    && (s.main.Leaving? && !s.timeout ==> s.thrcount == 0)
    && (!s.hurried && (Quiet(s.main) || s.main.Leaving? || (s.main.Woken? && s.timeout)) ==> s.thrcount == 0)
    && (s.main.Failed? ==> s.hurried)
  }

  predicate Inv(s: State) {
    MutexHeldRight(s) && CountRight(s) && LastOutSawZero(s) && SleeperSafe(s) && MainSawZero(s)
  }

  lemma InitInv()
    ensures Inv(Init())
  {
  }

  lemma MainStepMutex(s: State)
    requires MutexHeldRight(s) && Enabled(s, Proceed)
    ensures MutexHeldRight(MainStep(s))
  {
    var s' := MainStep(s);
    assert s'.owner == s.owner || (!s'.owner.Worker? && !s.owner.Worker?);
    assert s'.owner.Main? <==> MainHolds(s'.main) || s'.main.Failed?;
    forall i | 0 <= i < |s'.workers|
      ensures WorkerHolds(s'.workers[i]) <==> s'.owner == Worker(i)
    {
      assert i < |s.workers| ==> s'.workers[i] == s.workers[i];
    }
  }

  lemma MainStepCount(s: State)
    requires CountRight(s) && Enabled(s, Proceed)
    ensures CountRight(MainStep(s))
  {
    hide Active;
    CountLaunch(s.workers);
  }

  lemma MainStepLastOut(s: State)
    requires MutexHeldRight(s) && LastOutSawZero(s) && Enabled(s, Proceed)
    ensures LastOutSawZero(MainStep(s))
  {
  }

  lemma MainStepFacts(s: State)
    requires Inv(s) && Enabled(s, Proceed)
    ensures SleeperSafe(MainStep(s)) && MainSawZero(MainStep(s))
  {
    hide MutexHeldRight, LastOutSawZero, Active;
  }

  lemma MainStepInv(s: State)
    requires Inv(s) && Enabled(s, Proceed)
    ensures Inv(MainStep(s))
  {
    MainStepFacts(s);
    MainStepMutex(s);
    MainStepCount(s);
    MainStepLastOut(s);
    hide MainStep, MutexHeldRight, CountRight, LastOutSawZero, SleeperSafe, MainSawZero;
  }

  lemma CountLaunch(ws: seq<WorkerPc>)
    ensures Active(ws + [Scanning]) == Active(ws) + 1
  {
  }

  lemma WorkerStepMutex(s: State, i: nat)
    requires MutexHeldRight(s) && Enabled(s, Advance(i))
    ensures MutexHeldRight(WorkerStep(s, i))
  {
  }

  lemma WorkerStepCount(s: State, i: nat)
    requires CountRight(s) && Enabled(s, Advance(i))
    ensures CountRight(WorkerStep(s, i))
  {
    hide Active;
    var s' := WorkerStep(s, i);
    ActiveUpdate(s.workers, i, s'.workers[i]);
    assert s'.workers == s.workers[i := s'.workers[i]];
  }

  lemma WorkerStepFacts(s: State, i: nat)
    requires Inv(s) && Enabled(s, Advance(i))
    ensures var s' := WorkerStep(s, i); LastOutSawZero(s') && SleeperSafe(s') && MainSawZero(s')
  {
    hide Active;
    if s.workers[i].Holding? {
      ActiveMember(s.workers, i);
    }
  }

  lemma WorkerStepInv(s: State, i: nat)
    requires Inv(s) && Enabled(s, Advance(i))
    ensures Inv(WorkerStep(s, i))
  {
    WorkerStepMutex(s, i);
    WorkerStepCount(s, i);
    WorkerStepFacts(s, i);
    hide WorkerStep, MutexHeldRight, CountRight, LastOutSawZero, SleeperSafe, MainSawZero;
  }

  lemma NextInv(s: State, a: Action)
    requires Inv(s) && Enabled(s, a)
    ensures Inv(Next(s, a))
  {
    match a {
      case Proceed => MainStepInv(s);
      case Advance(i) => WorkerStepInv(s, i);
      case _ =>
    }
  }

  // ---- Every interleaving ----

  predicate Runs(s: State, acts: seq<Action>)
    decreases |acts|
  {
    acts == [] || (Enabled(s, acts[0]) && Runs(Next(s, acts[0]), acts[1..]))
  }

  function After(s: State, acts: seq<Action>): State
    requires Runs(s, acts)
    decreases |acts|
  {
    if acts == [] then s else After(Next(s, acts[0]), acts[1..])
  }

  ghost predicate Reachable(s: State) {
    exists acts :: Runs(Init(), acts) && After(Init(), acts) == s
  }

  lemma {:induction false} RunInv(s: State, acts: seq<Action>)
    requires Inv(s) && Runs(s, acts)
    ensures Inv(After(s, acts))
    decreases |acts|
  {
    hide Inv, Enabled, Next;
    if acts != [] {
      NextInv(s, acts[0]);
      RunInv(Next(s, acts[0]), acts[1..]);
    }
  }

  /** Every reachable state satisfies the invariant. */
  lemma ReachableInv(s: State)
    requires Reachable(s)
    ensures Inv(s)
  {
    hide Inv, Runs, After;
    var acts :| Runs(Init(), acts) && After(Init(), acts) == s;
    InitInv();
    RunInv(Init(), acts);
  }

  lemma {:induction false} RunOneMore(s: State, acts: seq<Action>, a: Action)
    requires Runs(s, acts) && Enabled(After(s, acts), a)
    ensures Runs(s, acts + [a]) && After(s, acts + [a]) == Next(After(s, acts), a)
    decreases |acts|
  {
    hide Enabled, Next;
    if acts == [] {
      assert acts + [a] == [a];
      assert [a][1..] == [];
    } else {
      assert (acts + [a])[1..] == acts[1..] + [a];
      RunOneMore(Next(s, acts[0]), acts[1..], a);
    }
  }

  lemma ReachableStep(s: State, a: Action)
    requires Reachable(s) && Enabled(s, a)
    ensures Reachable(Next(s, a))
  {
    hide Enabled, Next, Runs, After;
    var acts :| Runs(Init(), acts) && After(Init(), acts) == s;
    RunOneMore(Init(), acts, a);
  }

  lemma ReachableInit()
    ensures Reachable(Init())
  {
    assert Runs(Init(), []) && After(Init(), []) == Init();
  }

  predicate AllFinished(ws: seq<WorkerPc>) {
    forall i :: 0 <= i < |ws| ==> ws[i].Finished?
  }

  /** In every reachable state the counter is the number of scans not yet counted out, plus a launch in progress. */
  lemma CounterIsExact(s: State)
    requires Reachable(s)
    ensures s.thrcount == Active(s.workers) + Pending(s.main) && s.thrcount >= 0
  {
    hide Active;
    ReachableInv(s);
  }

  /** No wakeup is lost: whenever the main thread sleeps, some scan has still to finish. */
  lemma NoLostWakeup(s: State)
    requires Reachable(s) && s.main.Sleeping?
    ensures !AllFinished(s.workers)
  {
    hide Active, Reachable;
    ReachableInv(s);
    if s.thrcount > 0 {
      var i := ActiveWitness(s.workers);
      assert !s.workers[i].Finished?;
    }
  }

  lemma NobodyLeft(s: State)
    requires Inv(s) && s.thrcount == 0 && s.owner.Main?
    ensures AllFinished(s.workers)
  {
    hide Active;
    forall i | 0 <= i < |s.workers|
      ensures s.workers[i].Finished?
    {
      assert !WorkerHolds(s.workers[i]);
      if s.workers[i].Scanning? {
        ActiveMember(s.workers, i);
      }
    }
  }

  /** A call without a timeout leaves only when every scan thread has finished, spurious wakeups or not. */
  lemma UntimedCallWaitsForAll(s: State)
    requires Reachable(s) && s.main.Leaving? && !s.timeout
    ensures AllFinished(s.workers)
  {
    hide Active, Reachable;
    ReachableInv(s);
    NobodyLeft(s);
  }

  /**
   The entry assertion fails only if the call just before was timed and woken spuriously: the mark
   is taken away at every entry check that passes.
   */
  lemma EntryAssertionHolds(s: State)
    requires Reachable(s) && s.main.Failed?
    ensures s.hurried
  {
    ReachableInv(s);
  }

  /** At the entry check itself, the assertion fails exactly when some scan thread has not finished. */
  lemma EntryFailsIff(s: State)
    requires Reachable(s) && s.main.EntryCheck?
    ensures MainStep(s).main.Failed? <==> !AllFinished(s.workers)
  {
    hide Active, Reachable;
    ReachableInv(s);
    if s.thrcount == 0 {
      NobodyLeft(s);
    } else {
      var i := ActiveWitness(s.workers);
      assert !s.workers[i].Finished?;
    }
  }

  // ---- Calls in a row ----

  /** Every scan has finished and the main thread is on its way to the next entry check. */
  predicate Settled(s: State) {
    s.thrcount == 0 && AllFinished(s.workers) && !s.owner.Worker?
    && (Quiet(s.main) || s.main.Leaving?)
  }

  lemma SettledStep(s: State, a: Action)
    requires Settled(s) && Enabled(s, a) && !s.main.EntryCheck?
    ensures Settled(Next(s, a))
  {
  }

  /** The run acts from s reaches an entry check at its end and not before. */
  predicate UpToEntryCheck(s: State, acts: seq<Action>)
    requires Runs(s, acts)
    decreases |acts|
  {
    if acts == [] then s.main.EntryCheck? else !s.main.EntryCheck? && UpToEntryCheck(Next(s, acts[0]), acts[1..])
  }

  lemma {:induction false} SettledRun(s: State, acts: seq<Action>)
    requires Settled(s) && Runs(s, acts) && UpToEntryCheck(s, acts)
    ensures Settled(After(s, acts)) && After(s, acts).main.EntryCheck?
    decreases |acts|
  {
    if acts != [] {
      SettledStep(s, acts[0]);
      SettledRun(Next(s, acts[0]), acts[1..]);
    }
  }

  /**
   Once a call without a timeout is leaving, the next call's entry assertion holds, in every
   interleaving, under any spurious wakeups, and whatever happened in the calls before.
   */
  lemma NextEntryHolds(s: State, acts: seq<Action>)
    requires Reachable(s) && s.main.Leaving? && !s.timeout
    requires Runs(s, acts) && UpToEntryCheck(s, acts)
    ensures var e := After(s, acts); e.main.EntryCheck? && MainStep(e).main.Opening?
  {
    hide Reachable, Runs, After, UpToEntryCheck;
    UntimedCallWaitsForAll(s);
    ReachableInv(s);
    SettledRun(s, acts);
  }

  /** Every call the run makes is without a timeout. */
  predicate Untimed(acts: seq<Action>) {
    forall i :: 0 <= i < |acts| ==> acts[i].Call? ==> !acts[i].timeout
  }

  lemma {:induction false} UntimedRun(s: State, acts: seq<Action>)
    requires !s.hurried && !s.timeout && Runs(s, acts) && Untimed(acts)
    ensures !After(s, acts).hurried
    decreases |acts|
  {
    if acts != [] {
      UntimedRun(Next(s, acts[0]), acts[1..]);
    }
  }

  lemma {:induction false} ReachableRun(s: State, acts: seq<Action>)
    requires Reachable(s) && Runs(s, acts)
    ensures Reachable(After(s, acts))
    decreases |acts|
  {
    hide Reachable, Enabled, Next;
    if acts != [] {
      ReachableStep(s, acts[0]);
      ReachableRun(Next(s, acts[0]), acts[1..]);
    }
  }

  /**
   From the moment an untimed call has passed its entry check, no later entry assertion ever fails
   while calls go on without timeouts: at start-up, where one timed call precedes three others, only
   the second call's assertion is at risk.
   */
  lemma UntimedCallsNeverFail(s: State, acts: seq<Action>)
    requires Reachable(s) && s.main.Opening? && !s.timeout && Runs(s, acts) && Untimed(acts)
    ensures !After(s, acts).main.Failed?
  {
    hide Reachable, Runs, After;
    ReachableInv(s);
    UntimedRun(s, acts);
    ReachableRun(s, acts);
    if After(s, acts).main.Failed? {
      EntryAssertionHolds(After(s, acts));
    }
  }

  lemma MainReaches(s: State)
    requires Reachable(s) && Enabled(s, Proceed)
    ensures Reachable(MainStep(s))
  {
    ReachableStep(s, Proceed);
  }

  /** A timed call over one entry, asleep before its scan has done anything. */
  const ASLEEP: State := State(Free, 1, [Scanning], Sleeping, 0, true, false)

  lemma TimedCallSleeps()
    ensures Reachable(ASLEEP)
  {
    hide Reachable;
    ReachableInit();
    ReachableStep(Init(), Call(1, true));
    var s := Next(Init(), Call(1, true));
    MainReaches(s); s := MainStep(s);
    MainReaches(s); s := MainStep(s);
    MainReaches(s); s := MainStep(s);
    MainReaches(s); s := MainStep(s);
    assert s == State(Free, 0, [], CountWait, 0, true, false);
    MainReaches(s); s := MainStep(s);
    MainReaches(s); s := MainStep(s);
    MainReaches(s); s := MainStep(s);
    MainReaches(s); s := MainStep(s);
    assert s == State(Free, 1, [Scanning], Listing, 0, true, false);
    MainReaches(s); s := MainStep(s);
    MainReaches(s); s := MainStep(s);
    MainReaches(s); s := MainStep(s);
  }

  /** Woken then by nobody, the timed call returns, and the next call's assertion fails. */
  lemma HurriedCallCanFail() returns (s: State)
    ensures Reachable(s) && s.main.Failed?
  {
    hide Reachable;
    TimedCallSleeps();
    ReachableStep(ASLEEP, Spurious);
    s := Next(ASLEEP, Spurious);
    MainReaches(s); s := MainStep(s);
    MainReaches(s); s := MainStep(s);
    ReachableStep(s, Call(0, false));
    s := Next(s, Call(0, false));
    MainReaches(s); s := MainStep(s);
    MainReaches(s); s := MainStep(s);
  }

  // ---- One scan per entry ----

  /** A thread that is being launched. */
  function InFlight(pc: MainPc): nat {
    if pc.CountWait? || pc.Counting? || pc.Counted? || pc.Creating? then 1 else 0
  }

  predicate Uncounts(pc: MainPc) {
    pc.UncountWait? || pc.Uncounting? || pc.Uncounted?
  }

  /** The points of a call behind its last launch. */
  predicate Launched(pc: MainPc) {
    pc.TestWait? || pc.Testing? || pc.Sleeping? || pc.Woken? || pc.Leaving? || pc.Outside?
  }

  /** The call that found base threads and n entries has launched a thread for each entry it has read. */
  predicate OnePerEntry(s: State, base: nat, n: nat) {
    && |s.workers| + s.left + InFlight(s.main) == base + n
    && !Uncounts(s.main) && (Launched(s.main) ==> s.left == 0)
  }

  /** The run makes no new call, does not give up before the first entry, and is refused no thread. */
  predicate Undisturbed(acts: seq<Action>) {
    forall i :: 0 <= i < |acts| ==> !acts[i].Call? && !acts[i].GiveUp? && !acts[i].Refused?
  }

  lemma {:induction false} LaunchRun(s: State, acts: seq<Action>, base: nat, n: nat)
    requires OnePerEntry(s, base, n) && Runs(s, acts) && Undisturbed(acts)
    ensures OnePerEntry(After(s, acts), base, n)
    decreases |acts|
  {
    hide OnePerEntry, Enabled, Next;
    if acts != [] {
      LaunchStep(s, acts[0], base, n);
      LaunchRun(Next(s, acts[0]), acts[1..], base, n);
    }
  }

  lemma LaunchStep(s: State, a: Action, base: nat, n: nat)
    requires OnePerEntry(s, base, n) && Enabled(s, a) && !a.Call? && !a.GiveUp? && !a.Refused?
    ensures OnePerEntry(Next(s, a), base, n)
  {
  }

  /**
   In every interleaving a call that finds n entries, and is refused no thread, has launched exactly n
   when it comes to its final wait, and no more until it has returned.
   */
  lemma CallLaunchesAll(s: State, n: nat, timeout: bool, acts: seq<Action>)
    requires s.main.Outside? && Undisturbed(acts) && Runs(Next(s, Call(n, timeout)), acts)
    ensures var e := After(Next(s, Call(n, timeout)), acts);
      Launched(e.main) ==> |e.workers| == |s.workers| + n
  {
    hide Runs, After;
    LaunchRun(Next(s, Call(n, timeout)), acts, |s.workers|, n);
  }

  /** So an untimed call that is leaving has one finished scan for each entry. */
  lemma EveryEntryIsScanned(s: State, n: nat, acts: seq<Action>)
    requires Reachable(s) && s.main.Outside? && Undisturbed(acts) && Runs(Next(s, Call(n, false)), acts)
    requires After(Next(s, Call(n, false)), acts).main.Leaving?
    ensures var e := After(Next(s, Call(n, false)), acts);
      |e.workers| == |s.workers| + n && AllFinished(e.workers)
  {
    hide Runs, After, Reachable, AllFinished, Next;
    var c := Next(s, Call(n, false));
    CallLaunchesAll(s, n, false, acts);
    ReachableStep(s, Call(n, false));
    ReachableRun(c, acts);
    assert !c.timeout by { CallIsUntimed(s, n); }
    TimeoutKept(c, acts);
    UntimedCallWaitsForAll(After(c, acts));
  }

  lemma CallIsUntimed(s: State, n: nat)
    requires s.main.Outside?
    ensures !Next(s, Call(n, false)).timeout
  {
  }

  lemma {:induction false} TimeoutKept(s: State, acts: seq<Action>)
    requires Runs(s, acts) && Undisturbed(acts)
    ensures After(s, acts).timeout == s.timeout
    decreases |acts|
  {
    if acts != [] {
      TimeoutKept(Next(s, acts[0]), acts[1..]);
    }
  }

  /** The threads a run creates. */
  function Creations(s: State, acts: seq<Action>): nat
    requires Runs(s, acts)
    decreases |acts|
  {
    if acts == [] then 0
    else (if s.main.Creating? && acts[0].Proceed? then 1 else 0) + Creations(Next(s, acts[0]), acts[1..])
  }

  lemma {:induction false} CreationsAdd(s: State, acts: seq<Action>)
    requires Runs(s, acts)
    ensures |After(s, acts).workers| == |s.workers| + Creations(s, acts)
    decreases |acts|
  {
    if acts != [] {
      CreationsAdd(Next(s, acts[0]), acts[1..]);
    }
  }

  /** Once pthread_create has been refused. */
  predicate PastRefusal(pc: MainPc) {
    Uncounts(pc) || Launched(pc)
  }

  lemma {:induction false} NoMoreLaunches(s: State, acts: seq<Action>)
    requires PastRefusal(s.main) && Runs(s, acts) && forall i :: 0 <= i < |acts| ==> !acts[i].Call?
    ensures |After(s, acts).workers| == |s.workers|
    decreases |acts|
  {
    if acts != [] {
      NoMoreLaunches(Next(s, acts[0]), acts[1..]);
    }
  }

  /** A call refused a thread after j launches launches no more of its n entries, however it goes on. */
  lemma RefusalEndsLaunches(s: State, n: nat, timeout: bool, acts: seq<Action>, more: seq<Action>)
    requires s.main.Outside? && Undisturbed(acts) && Runs(Next(s, Call(n, timeout)), acts)
    requires After(Next(s, Call(n, timeout)), acts).main.Creating?
    requires Runs(Next(After(Next(s, Call(n, timeout)), acts), Refused), more)
    requires forall i :: 0 <= i < |more| ==> !more[i].Call?
    ensures var c := Next(s, Call(n, timeout)); var j := Creations(c, acts);
      j < n && |After(Next(After(c, acts), Refused), more).workers| == |s.workers| + j
  {
    hide Runs, After, Creations;
    var c := Next(s, Call(n, timeout));
    CreationsAdd(c, acts);
    LaunchRun(c, acts, |s.workers|, n);
    NoMoreLaunches(Next(After(c, acts), Refused), more);
  }

  // ---- Progress ----

  function WorkerRank(pc: WorkerPc): nat {
    match pc
    case Scanning => 6
    case Holding => 5
    case LastOut => 4
    case Releasing => 1
    case Finished => 0
  }

  function WorkersRank(ws: seq<WorkerPc>): nat {
    if ws == [] then 0 else WorkersRank(ws[..|ws| - 1]) + WorkerRank(ws[|ws| - 1])
  }

  function MainRank(pc: MainPc, left: nat): nat {
    match pc
    case Outside => 0
    case Failed => 0
    case Leaving => 1
    case Sleeping => 2
    case Testing => 3
    case Woken => 4
    case TestWait => 4
    case Uncounted => 5
    case Uncounting => 6
    case UncountWait => 7
    case Listing => 10 + 20 * left
    case Opening => 11 + 20 * left
    case EntryCheck => 12 + 20 * left
    case EntryWait => 13 + 20 * left
    case Creating => 20 + 20 * left
    case Counted => 21 + 20 * left
    case Counting => 22 + 20 * left
    case CountWait => 23 + 20 * left
  }

  function Rank(s: State): nat {
    MainRank(s.main, s.left) + WorkersRank(s.workers)
  }

  lemma {:induction false} WorkersRankUpdate(ws: seq<WorkerPc>, i: nat, pc: WorkerPc)
    requires i < |ws|
    ensures WorkersRank(ws[i := pc]) == WorkersRank(ws) - WorkerRank(ws[i]) + WorkerRank(pc)
  {
    var n := |ws| - 1;
    if i == n {
      assert ws[i := pc][..n] == ws[..n];
    } else {
      WorkersRankUpdate(ws[..n], i, pc);
      assert ws[i := pc][..n] == ws[..n][i := pc];
    }
  }

  lemma RankLaunch(ws: seq<WorkerPc>)
    ensures WorkersRank(ws + [Scanning]) == WorkersRank(ws) + 6
  {
  }

  lemma MainLowersRank(s: State)
    requires Enabled(s, Proceed)
    ensures Rank(MainStep(s)) < Rank(s)
  {
    hide WorkersRank;
    RankLaunch(s.workers);
  }

  lemma WorkerLowersRank(s: State, i: nat)
    requires Enabled(s, Advance(i))
    ensures Rank(WorkerStep(s, i)) < Rank(s)
  {
    hide WorkersRank;
    var s' := WorkerStep(s, i);
    WorkersRankUpdate(s.workers, i, s'.workers[i]);
    assert s'.workers == s.workers[i := s'.workers[i]];
  }

  /** Every step but a new call and a spurious wakeup brings the protocol closer to rest. */
  lemma StepsLowerRank(s: State, a: Action)
    requires Enabled(s, a) && !a.Call? && !a.Spurious?
    ensures Rank(Next(s, a)) < Rank(s)
  {
    match a {
      case Advance(i) => WorkerLowersRank(s, i);
      case Proceed => MainLowersRank(s);
      case _ =>
    }
  }

  /** So a run without them is no longer than the rank it starts from. */
  lemma {:induction false} RunsEnd(s: State, acts: seq<Action>)
    requires Runs(s, acts) && forall i :: 0 <= i < |acts| ==> !acts[i].Call? && !acts[i].Spurious?
    ensures |acts| <= Rank(s)
    decreases |acts|
  {
    if acts != [] {
      StepsLowerRank(s, acts[0]);
      RunsEnd(Next(s, acts[0]), acts[1..]);
    }
  }

  /**
   No deadlock: in every reachable state in which the assertion has not failed, either the main
   thread is outside with all scans finished, or some thread can step without a spurious wakeup.
   */
  lemma NeverStuck(s: State) returns (a: Action)
    requires Reachable(s) && !s.main.Failed? && !(s.main.Outside? && AllFinished(s.workers))
    ensures Enabled(s, a) && !a.Call? && !a.Spurious?
  {
    hide Active, Reachable;
    ReachableInv(s);
    if s.owner.Worker? {
      a := Advance(s.owner.id);
    } else if s.main.Sleeping? {
      var i := ActiveWitness(s.workers);
      a := Advance(i);
    } else if s.main.Outside? {
      var i :| 0 <= i < |s.workers| && !s.workers[i].Finished?;
      a := Advance(i);
    } else {
      a := Proceed;
    }
  }
}
