/**
 The vcpu threads and the main thread, from the start barrier to the final join: `run_vcpu` and the
 parts of `run_control` that start and stop the threads, for any number of threads and any
 interleaving of their steps.
 */
module VcpuControl {
  import opened Common

  /** Why `vcpu.run()` returned. */
  datatype Exit =
    | Bus            // port or memory mapped access
    | Halt           // Hlt or Shutdown
    | SystemEvent
    | Unexpected     // any other exit reason, which is only logged
    | Retry          // EAGAIN or EINTR
    | Fatal          // any other error

  datatype Pc =
    | Unspawned
    | Starting       // before the barrier
    | AtBarrier
    | LoopTop        // about to call vcpu.run()
    | InGuest
    | Returned(exit: Exit)
    | Check          // about to load kill_signaled
    | Clear          // about to clear the pending signal
    | Leaving        // about to write exit_evt
    | Finished

  /**
   One vcpu thread. `entries` counts calls to `vcpu.run()`, `late` those made after the kill flag
   was set, `signals` writes to `exit_evt`; `busAfter` counts bus accesses after such a write.
   `pending` is the kick signal; `kickedAt` is where the kick found the thread.
   */
  datatype Thread = Thread(
    pc: Pc, sigOk: bool, entries: nat, late: nat, signals: nat, busAfter: nat,
    pending: bool, kickedAt: Option<Pc>)

  datatype Main =
    | Spawning(next: nat)
    | SpawnFailed
    | MainAtBarrier
    | Polling
    | PollFailed
    | Stopping       // left the poll loop, about to store the kill flag
    | Killing(next: nat)
    | Joining(next: nat)
    | MainFinished

  datatype State = State(threads: seq<Thread>, main: Main, count: nat, generation: nat, kill: bool, exitEvt: nat)

  datatype Action =
    | Spawn | SpawnFails | MainArrives | MainReleased | MainFails | StopPolling | StoreKill
    | Kick(delivered: bool) | Join | Return
    | Arrive(t: nat, sigOk: bool) | Released(t: nat) | Enter(t: nat) | Leave(t: nat, exit: Exit)
    | Handle(t: nat) | LoadKill(t: nat) | ClearSignal(t: nat) | WriteExit(t: nat)

  const FRESH: Thread := Thread(Unspawned, true, 0, 0, 0, 0, false, None)

  function Init(n: nat): (st: State) {
    State(seq(n, _ => FRESH), Spawning(0), 0, 0, false, 0)
  }

  // ---------------------------------------------------------------------------
  // Steps
  // ---------------------------------------------------------------------------

  /** The thread an action changes, when there is one: its own thread, or the one main starts or kicks. */
  function Subject(st: State, a: Action): (t: Option<nat>) {
    match a
    case Spawn => if st.main.Spawning? then Some(st.main.next) else None
    case Kick(true) => if st.main.Killing? then Some(st.main.next) else None
    case Arrive(t, _) => Some(t)
    case Released(t) => Some(t)
    case Enter(t) => Some(t)
    case Leave(t, _) => Some(t)
    case Handle(t) => Some(t)
    case LoadKill(t) => Some(t)
    case ClearSignal(t) => Some(t)
    case WriteExit(t) => Some(t)
    case _ => None
  }

  predicate ThreadEnabled(th: Thread, generation: nat, a: Action) {
    match a
    case Arrive(_, _) => th.pc.Starting?
    case Released(_) => th.pc.AtBarrier? && generation > 0
    case Enter(_) => th.pc.LoopTop?
    case Leave(_, _) => th.pc.InGuest?
    case Handle(_) => th.pc.Returned?
    case LoadKill(_) => th.pc.Check?
    case ClearSignal(_) => th.pc.Clear?
    case WriteExit(_) => th.pc.Leaving?
    case _ => true
  }

  predicate MainEnabled(st: State, a: Action) {
    match a
    case Spawn => st.main.Spawning? && st.main.next < |st.threads|
    case SpawnFails => st.main.Spawning? && st.main.next < |st.threads|
    case MainArrives => st.main == Spawning(|st.threads|)
    case MainReleased => st.main.MainAtBarrier? && st.generation > 0
    case MainFails => st.main.Polling?
    case StopPolling => st.main.Polling?
    case StoreKill => st.main.Stopping?
    case Kick(_) => st.main.Killing? && st.main.next < |st.threads|
    case Join => st.main.Joining? && st.main.next < |st.threads| && st.threads[st.main.next].pc.Finished?
    case Return => st.main == Killing(|st.threads|)
    case _ => true
  }

  predicate Enabled(st: State, a: Action) {
    && MainEnabled(st, a)
    && var s := Subject(st, a);
       s.Some? ==> s.value < |st.threads| && ThreadEnabled(st.threads[s.value], st.generation, a)
  }

  /** Where a thread goes on with the reason for an exit. */
  function AfterExit(exit: Exit): (pc: Pc) {
    match exit
    case Halt => Leaving
    case Fatal => Leaving
    case _ => Check
  }

  function ThreadStep(th: Thread, generation: nat, kill: bool, a: Action): (th': Thread)
    requires ThreadEnabled(th, generation, a)
  {
    match a
    case Spawn => th.(pc := Starting)
    case Kick(_) => th.(pending := true, kickedAt := Some(th.pc))
    case Arrive(_, sigOk) => th.(pc := AtBarrier, sigOk := sigOk)
    case Released(_) => th.(pc := if th.sigOk then LoopTop else Leaving)
    case Enter(_) => th.(pc := InGuest, entries := th.entries + 1, late := th.late + if kill then 1 else 0)
    case Leave(_, exit) => th.(pc := Returned(exit))
    case Handle(_) =>
      th.(pc := AfterExit(th.pc.exit), busAfter := th.busAfter + if th.pc.exit.Bus? && th.signals > 0 then 1 else 0)
    case LoadKill(_) => th.(pc := if kill then Leaving else Clear)
    case ClearSignal(_) => th.(pc := LoopTop, pending := false)
    case WriteExit(_) => th.(pc := Finished, signals := th.signals + 1)
    case _ => th
  }

  function MainStep(main: Main, a: Action): (main': Main) {
    match a
    case Spawn => if main.Spawning? then Spawning(main.next + 1) else main
    case SpawnFails => SpawnFailed
    case MainArrives => MainAtBarrier
    case MainReleased => Polling
    case MainFails => PollFailed
    case StopPolling => Stopping
    case StoreKill => Killing(0)
    case Kick(delivered) =>
      if !main.Killing? then main else if delivered then Joining(main.next) else Killing(main.next + 1)
    case Join => if main.Joining? then Killing(main.next + 1) else main
    case Return => MainFinished
    case _ => main
  }

  /** The barrier of `std::sync` for the threads and main: the last to arrive opens a new generation. */
  function Arrival(parties: nat, count: nat, generation: nat): (r: (nat, nat)) {
    if count + 1 < parties then (count + 1, generation) else (0, generation + 1)
  }

  /** A thread stores the flag on a system event; main does when it stops. */
  function KillStep(st: State, a: Action): (kill: bool)
    requires Enabled(st, a)
  {
    st.kill || a.StoreKill? || (a.Handle? && st.threads[a.t].pc.exit.SystemEvent?)
  }

  function Next(st: State, a: Action): (st': State)
    requires Enabled(st, a)
  {
    var s := Subject(st, a);
    var threads := if s.None? then st.threads
                   else st.threads[s.value := ThreadStep(st.threads[s.value], st.generation, st.kill, a)];
    var (count, generation) := if a.Arrive? || a.MainArrives? then Arrival(|st.threads| + 1, st.count, st.generation)
                               else (st.count, st.generation);
    State(threads, MainStep(st.main, a), count, generation, KillStep(st, a),
          st.exitEvt + if a.WriteExit? then 1 else 0)
  }

  /** `st'` is reached from `st` by the actions of `run`, each enabled where it is taken. */
  ghost predicate Runs(st: State, run: seq<Action>, st': State)
    decreases |run|
  {
    if run == [] then st == st'
    else Enabled(st, run[0]) && Runs(Next(st, run[0]), run[1..], st')
  }

  // ---------------------------------------------------------------------------
  // The invariant
  // ---------------------------------------------------------------------------

  predicate Arrived(th: Thread) {
    !th.pc.Unspawned? && !th.pc.Starting?
  }

  /** Past the barrier. */
  predicate Past(th: Thread) {
    Arrived(th) && !th.pc.AtBarrier?
  }

  predicate MainArrived(main: Main) {
    !main.Spawning? && !main.SpawnFailed?
  }

  function CountArrived(threads: seq<Thread>): (n: nat)
    ensures n <= |threads|
  {
    if threads == [] then 0 else CountArrived(threads[1..]) + if Arrived(threads[0]) then 1 else 0
  }

  function CountFinished(threads: seq<Thread>): (n: nat) {
    if threads == [] then 0 else CountFinished(threads[1..]) + if threads[0].pc.Finished? then 1 else 0
  }

  /** Until the barrier opens, it counts who waits at it, and nobody is past it; then all have arrived. */
  ghost predicate BarrierOk(st: State) {
    if st.generation == 0 then
      && st.count == CountArrived(st.threads) + (if MainArrived(st.main) then 1 else 0)
      && st.count <= |st.threads|
      && (MainArrived(st.main) ==> st.main.MainAtBarrier?)
      && forall t :: 0 <= t < |st.threads| ==> !Past(st.threads[t])
    else
      && MainArrived(st.main)
      && forall t :: 0 <= t < |st.threads| ==> Arrived(st.threads[t])
  }

  ghost predicate ThreadOk(th: Thread, kill: bool) {
    // Guest entries happen past the barrier only.
    && (!Past(th) ==> th.entries == 0)
    // A late entry happens at most once, and is the thread's last.
    && (!kill ==> th.late == 0)
    && th.late <= 1
    && (th.late == 1 ==> th.pc.InGuest? || th.pc.Returned? || th.pc.Check? || th.pc.Leaving? || th.pc.Finished?)
    // The exit event is written once, by a thread that is done with the bus.
    && th.signals == (if th.pc.Finished? then 1 else 0) && th.busAfter == 0
    // A kick stays pending unless it came between the load of the flag and the clearing of the signal.
    && (th.kickedAt.Some? ==> kill)
    && (th.kickedAt.Some? && th.kickedAt != Some(Clear) ==> th.pending && th.pc != Clear)
    && (th.kickedAt == Some(Clear) ==> Past(th) && th.pending == (th.pc == Clear))
  }

  /** Threads main has dealt with in the final loop. */
  function Dealt(st: State): (n: nat) {
    match st.main
    case Killing(next) => next
    case Joining(next) => next
    case MainFinished => |st.threads|
    case _ => 0
  }

  /** Every kicked thread main has dealt with is finished, and nobody was kicked ahead of its turn. */
  ghost predicate JoinOk(st: State) {
    && Dealt(st) <= |st.threads|
    && (forall t :: 0 <= t < Dealt(st) && st.threads[t].kickedAt.Some? ==> st.threads[t].pc.Finished?)
    && forall t :: Dealt(st) <= t < |st.threads| && st.main != Joining(t) ==> st.threads[t].kickedAt.None?
  }

  ghost predicate Inv(st: State) {
    && BarrierOk(st) && JoinOk(st)
    && (st.main.Spawning? ==> forall t :: st.main.next <= t < |st.threads| ==> st.threads[t].pc.Unspawned?)
    && st.exitEvt == CountFinished(st.threads)
    && (st.main.Killing? || st.main.Joining? || st.main.MainFinished? ==> st.kill)
    && forall t :: 0 <= t < |st.threads| ==> ThreadOk(st.threads[t], st.kill)
  }

  lemma {:induction false} CountUpdate(threads: seq<Thread>, t: nat, th: Thread)
    requires t < |threads|
    ensures CountArrived(threads[t := th]) ==
            CountArrived(threads) + (if Arrived(th) then 1 else 0) - (if Arrived(threads[t]) then 1 else 0)
    ensures CountFinished(threads[t := th]) ==
            CountFinished(threads) + (if th.pc.Finished? then 1 else 0) - (if threads[t].pc.Finished? then 1 else 0)
    decreases |threads|
  {
    if t == 0 {
      assert threads[t := th][1..] == threads[1..];
    } else {
      CountUpdate(threads[1..], t - 1, th);
      assert threads[t := th][1..] == threads[1..][t - 1 := th];
    }
  }

  lemma {:induction false} CountFull(threads: seq<Thread>)
    ensures CountArrived(threads) == |threads| ==> forall t :: 0 <= t < |threads| ==> Arrived(threads[t])
  {
    if threads != [] && CountArrived(threads) == |threads| {
      CountFull(threads[1..]);
      forall t | 0 <= t < |threads| ensures Arrived(threads[t]) {
        assert t > 0 ==> threads[t] == threads[1..][t - 1];
      }
    }
  }

  lemma {:induction false} CountNone(threads: seq<Thread>)
    requires forall t :: 0 <= t < |threads| ==> threads[t] == FRESH
    ensures CountArrived(threads) == 0 && CountFinished(threads) == 0
  {
    if threads != [] {
      CountNone(threads[1..]);
    }
  }

  lemma InitInv(n: nat)
    ensures Inv(Init(n))
  {
    CountNone(Init(n).threads);
  }

  /** A thread's own step keeps what is known of it. */
  lemma ThreadStepOk(th: Thread, generation: nat, kill: bool, a: Action)
    requires ThreadOk(th, kill) && ThreadEnabled(th, generation, a)
    requires a.Kick? ==> kill
    requires a.Spawn? ==> th.pc.Unspawned?
    ensures ThreadOk(ThreadStep(th, generation, kill, a), kill)
    ensures Arrived(ThreadStep(th, generation, kill, a)) <==> Arrived(th) || a.Arrive?
    ensures Past(ThreadStep(th, generation, kill, a)) ==> Past(th) || generation > 0
    ensures ThreadStep(th, generation, kill, a).pc.Finished? <==> th.pc.Finished? || a.WriteExit?
    ensures !a.Kick? ==> ThreadStep(th, generation, kill, a).kickedAt == th.kickedAt
  {
  }

  /** The flag may be set under a thread at any time. */
  lemma KillOk(th: Thread)
    requires ThreadOk(th, false)
    ensures ThreadOk(th, true)
  {
  }

  lemma StepKeepsThreads(st: State, a: Action, t: nat)
    requires Inv(st) && Enabled(st, a) && t < |st.threads|
    ensures ThreadOk(Next(st, a).threads[t], Next(st, a).kill)
    ensures Arrived(st.threads[t]) ==> Arrived(Next(st, a).threads[t])
    ensures Past(Next(st, a).threads[t]) ==> Past(st.threads[t]) || st.generation > 0
    ensures st.threads[t].pc.Finished? ==> Next(st, a).threads[t].pc.Finished?
    ensures Subject(st, a) != Some(t) || !a.Kick? ==> Next(st, a).threads[t].kickedAt == st.threads[t].kickedAt
  {
    var th := st.threads[t];
    if Subject(st, a) == Some(t) {
      ThreadStepOk(th, st.generation, st.kill, a);
    }
    if !st.kill {
      KillOk(Next(st, a).threads[t]);
    }
  }

  /** How a step changes the counts. */
  lemma StepCounts(st: State, a: Action)
    requires Inv(st) && Enabled(st, a)
    ensures CountArrived(Next(st, a).threads) == CountArrived(st.threads) + if a.Arrive? then 1 else 0
    ensures CountFinished(Next(st, a).threads) == CountFinished(st.threads) + if a.WriteExit? then 1 else 0
  {
    var subject := Subject(st, a);
    if subject.Some? {
      var t := subject.value;
      ThreadStepOk(st.threads[t], st.generation, st.kill, a);
      CountUpdate(st.threads, t, ThreadStep(st.threads[t], st.generation, st.kill, a));
    }
  }

  lemma StepKeepsBarrier(st: State, a: Action)
    requires Inv(st) && Enabled(st, a)
    ensures BarrierOk(Next(st, a))
  {
    var st' := Next(st, a);
    StepCounts(st, a);
    CountFull(st'.threads);
    forall t | 0 <= t < |st.threads|
      ensures Arrived(st.threads[t]) ==> Arrived(st'.threads[t])
      ensures Past(st'.threads[t]) ==> Past(st.threads[t]) || st.generation > 0
    {
      StepKeepsThreads(st, a, t);
    }
  }

  lemma StepKeepsJoin(st: State, a: Action)
    requires Inv(st) && Enabled(st, a)
    ensures JoinOk(Next(st, a))
  {
    var st' := Next(st, a);
    forall t | 0 <= t < |st.threads|
      ensures st.threads[t].pc.Finished? ==> st'.threads[t].pc.Finished?
      ensures Subject(st, a) != Some(t) || !a.Kick? ==> st'.threads[t].kickedAt == st.threads[t].kickedAt
    {
      StepKeepsThreads(st, a, t);
    }
  }

  lemma StepKeepsInv(st: State, a: Action)
    requires Inv(st) && Enabled(st, a)
    ensures Inv(Next(st, a))
  {
    StepKeepsBarrier(st, a);
    StepKeepsJoin(st, a);
    StepCounts(st, a);
    forall t | 0 <= t < |Next(st, a).threads| ensures ThreadOk(Next(st, a).threads[t], Next(st, a).kill) {
      StepKeepsThreads(st, a, t);
    }
  }

  lemma {:induction false} RunKeepsInv(st: State, run: seq<Action>, st': State)
    requires Inv(st) && Runs(st, run, st')
    ensures Inv(st')
    decreases |run|
  {
    if run != [] {
      StepKeepsInv(st, run[0]);
      RunKeepsInv(Next(st, run[0]), run[1..], st');
    }
  }

  // ---------------------------------------------------------------------------
  // What holds of every run
  // ---------------------------------------------------------------------------

  /** No thread enters the guest before all threads and main have reached the barrier. */
  lemma NobodyEntersEarly(n: nat, run: seq<Action>, st: State, t: nat, u: nat)
    requires Runs(Init(n), run, st) && t < |st.threads| && u < |st.threads| && st.threads[t].entries > 0
    ensures MainArrived(st.main) && Arrived(st.threads[u])
  {
    InitInv(n);
    RunKeepsInv(Init(n), run, st);
    assert ThreadOk(st.threads[t], st.kill);
    assert Past(st.threads[t]);
  }

  /** Once the kill flag is set, no thread enters the guest more than once again. */
  lemma AtMostOneLateEntry(n: nat, run: seq<Action>, st: State, t: nat)
    requires Runs(Init(n), run, st) && t < |st.threads|
    ensures st.threads[t].late <= 1 && (!st.kill ==> st.threads[t].late == 0)
  {
    InitInv(n);
    RunKeepsInv(Init(n), run, st);
  }

  /** Every thread that has left its loop has written the exit event exactly once, with no bus access after. */
  lemma ExitIsSignalledOnce(n: nat, run: seq<Action>, st: State)
    requires Runs(Init(n), run, st)
    ensures st.exitEvt == CountFinished(st.threads)
    ensures forall t :: 0 <= t < |st.threads| ==>
              st.threads[t].signals == (if st.threads[t].pc.Finished? then 1 else 0) && st.threads[t].busAfter == 0
  {
    InitInv(n);
    RunKeepsInv(Init(n), run, st);
    forall t | 0 <= t < |st.threads|
      ensures st.threads[t].signals == (if st.threads[t].pc.Finished? then 1 else 0) && st.threads[t].busAfter == 0
    {
      assert ThreadOk(st.threads[t], st.kill);
    }
  }

  /** When `run_control` returns, every thread whose kick was delivered is finished. */
  lemma JoinedThreadsAreFinished(n: nat, run: seq<Action>, st: State, t: nat)
    requires Runs(Init(n), run, st) && st.main.MainFinished? && t < |st.threads| && st.threads[t].kickedAt.Some?
    ensures st.threads[t].pc.Finished?
  {
    InitInv(n);
    RunKeepsInv(Init(n), run, st);
  }

  /** The threads main has started so far have been spawned, and all of them once it comes to the barrier. */
  ghost predicate SpawnOk(st: State) {
    && (st.main.Spawning? ==> forall t :: 0 <= t < st.main.next && t < |st.threads| ==> !st.threads[t].pc.Unspawned?)
    && (MainArrived(st.main) ==> forall t :: 0 <= t < |st.threads| ==> !st.threads[t].pc.Unspawned?)
  }

  lemma StepKeepsSpawned(st: State, a: Action)
    requires Enabled(st, a) && SpawnOk(st)
    ensures SpawnOk(Next(st, a))
  {
    forall t | 0 <= t < |st.threads| && !st.threads[t].pc.Unspawned?
      ensures !Next(st, a).threads[t].pc.Unspawned?
    {
    }
  }

  lemma {:induction false} RunKeepsSpawned(st: State, run: seq<Action>, st': State)
    requires Runs(st, run, st') && SpawnOk(st)
    ensures SpawnOk(st')
    decreases |run|
  {
    if run != [] {
      StepKeepsSpawned(st, run[0]);
      RunKeepsSpawned(Next(st, run[0]), run[1..], st');
    }
  }

  /** Main comes to the barrier only after it has spawned every thread. */
  lemma AllSpawnedAtBarrier(n: nat, run: seq<Action>, st: State, t: nat)
    requires Runs(Init(n), run, st) && st.main.MainAtBarrier? && t < |st.threads|
    ensures !st.threads[t].pc.Unspawned?
  {
    RunKeepsSpawned(Init(n), run, st);
  }

  // ---------------------------------------------------------------------------
  // Why a thread leaves its loop
  // ---------------------------------------------------------------------------

  /** Something that makes thread `t` leave its loop by itself: a halt, a fatal error, no signal mask. */
  predicate OwnReason(a: Action, t: nat) {
    a == Leave(t, Halt) || a == Leave(t, Fatal) || a == Arrive(t, false)
  }

  ghost predicate HasOwnReason(run: seq<Action>, t: nat) {
    exists i :: 0 <= i < |run| && OwnReason(run[i], t)
  }

  ghost predicate KeepsLooping(th: Thread) {
    && th.sigOk && !th.pc.Leaving? && !th.pc.Finished?
    && th.pc != Returned(Halt) && th.pc != Returned(Fatal)
  }

  lemma {:induction false} RunKeepsLooping(st: State, run: seq<Action>, st': State, t: nat)
    requires Runs(st, run, st') && t < |st.threads| && !HasOwnReason(run, t)
    requires !st.kill ==> KeepsLooping(st.threads[t])
    ensures t < |st'.threads| && (!st'.kill ==> KeepsLooping(st'.threads[t]))
    decreases |run|
  {
    if run != [] {
      assert !OwnReason(run[0], t);
      assert forall i :: 0 <= i < |run[1..]| ==> run[1..][i] == run[i + 1];
      RunKeepsLooping(Next(st, run[0]), run[1..], st', t);
    }
  }

  /** As long as the kill flag is not set, a thread leaves its loop for a reason of its own only. */
  lemma LeavesForAReason(n: nat, run: seq<Action>, st: State, t: nat)
    requires Runs(Init(n), run, st) && t < n && !HasOwnReason(run, t) && !st.kill
    ensures t < |st.threads| && !st.threads[t].pc.Leaving? && !st.threads[t].pc.Finished?
  {
    RunKeepsLooping(Init(n), run, st, t);
  }

  /** A thread on its way out, for a reason of its own or since it has seen the flag. */
  predicate OnItsWayOut(th: Thread) {
    || th.pc == Returned(Halt) || th.pc == Returned(Fatal) || th.pc.Leaving? || th.pc.Finished?
    || (th.pc.AtBarrier? && !th.sigOk)
  }

  lemma StepKeepsEntries(st: State, a: Action, t: nat)
    requires Enabled(st, a) && t < |st.threads| && OnItsWayOut(st.threads[t])
    requires a.Spawn? && Subject(st, a) == Some(t) ==> st.threads[t].pc.Unspawned?
    ensures var th := Next(st, a).threads[t]; OnItsWayOut(th) && th.entries == st.threads[t].entries
  {
  }

  lemma {:induction false} RunKeepsEntries(st: State, run: seq<Action>, st': State, t: nat)
    requires Inv(st) && Runs(st, run, st') && t < |st.threads| && OnItsWayOut(st.threads[t])
    ensures t < |st'.threads| && OnItsWayOut(st'.threads[t]) && st'.threads[t].entries == st.threads[t].entries
    decreases |run|
  {
    if run != [] {
      StepKeepsInv(st, run[0]);
      StepKeepsEntries(st, run[0], t);
      RunKeepsEntries(Next(st, run[0]), run[1..], st', t);
    }
  }

  /** A thread that halts, fails, has no signal mask or has left its loop never enters the guest again. */
  lemma NoEntryOnTheWayOut(n: nat, run: seq<Action>, mid: State, rest: seq<Action>, st: State, t: nat)
    requires Runs(Init(n), run, mid) && Runs(mid, rest, st) && t < |mid.threads| && OnItsWayOut(mid.threads[t])
    ensures t < |st.threads| && st.threads[t].entries == mid.threads[t].entries
  {
    InitInv(n);
    RunKeepsInv(Init(n), run, mid);
    RunKeepsEntries(mid, rest, st, t);
  }

  /** The thread's own steps, as opposed to those of main that start or kick it. */
  predicate Own(a: Action, t: nat) {
    && (a.Arrive? || a.Released? || a.Enter? || a.Leave? || a.Handle? || a.LoadKill? || a.ClearSignal? || a.WriteExit?)
    && a.t == t
  }

  lemma {:induction false} RunThen(st: State, run: seq<Action>, mid: State, a: Action)
    requires Runs(st, run, mid) && Enabled(mid, a)
    ensures Runs(st, run + [a], Next(mid, a))
    decreases |run|
  {
    if run == [] {
      assert Runs(Next(mid, a), [], Next(mid, a));
      assert run + [a] == [a];
    } else {
      RunThen(Next(st, run[0]), run[1..], mid, a);
      assert (run + [a])[1..] == run[1..] + [a];
    }
  }

  /** The state `st` with another thread `t`, kill flag and count of exit events. */
  function Moved(st: State, t: nat, th: Thread, kill: bool, exitEvt: nat): (st': State)
    requires t < |st.threads|
  {
    st.(threads := st.threads[t := th], kill := kill, exitEvt := exitEvt)
  }

  /** The run takes `st` to such a state. */
  ghost predicate Moves(st: State, run: seq<Action>, t: nat, th: Thread, kill: bool, exitEvt: nat) {
    t < |st.threads| && Runs(st, run, Moved(st, t, th, kill, exitEvt))
  }

  /** One more step of thread `t`. */
  lemma Move(st: State, run: seq<Action>, t: nat, th: Thread, kill: bool, exitEvt: nat, a: Action, th': Thread,
             kill': bool, exitEvt': nat)
    requires Moves(st, run, t, th, kill, exitEvt) && Own(a, t) && !a.Arrive?
    requires ThreadEnabled(th, st.generation, a) && th' == ThreadStep(th, st.generation, kill, a)
    requires kill' == (kill || (a.Handle? && th.pc.exit.SystemEvent?))
    requires exitEvt' == exitEvt + if a.WriteExit? then 1 else 0
    ensures Moves(st, run + [a], t, th', kill', exitEvt')
  {
    var mid := Moved(st, t, th, kill, exitEvt);
    assert Subject(mid, a) == Some(t);
    RunThen(st, run, mid, a);
    assert Next(mid, a) == Moved(st, t, th', kill', exitEvt');
  }

  lemma Unmoved(st: State, t: nat)
    requires t < |st.threads|
    ensures Moves(st, [], t, st.threads[t], st.kill, st.exitEvt)
  {
    assert st.threads[t := st.threads[t]] == st.threads;
  }

  /** A thread at the top of its loop enters the guest, and comes back with whatever reason the guest has. */
  lemma GuestReturns(st: State, t: nat, exit: Exit)
    requires t < |st.threads| && st.threads[t].pc.LoopTop?
    ensures var th := st.threads[t];
            Moves(st, [] + [Enter(t)] + [Leave(t, exit)], t,
                  th.(pc := Returned(exit), entries := th.entries + 1, late := th.late + if st.kill then 1 else 0),
                  st.kill, st.exitEvt)
  {
    var th, e := st.threads[t], st.exitEvt;
    var inGuest := th.(pc := InGuest, entries := th.entries + 1, late := th.late + if st.kill then 1 else 0);
    Unmoved(st, t);
    Move(st, [], t, th, st.kill, e, Enter(t), inGuest, st.kill, e);
    Move(st, [] + [Enter(t)], t, inGuest, st.kill, e, Leave(t, exit), inGuest.(pc := Returned(exit)), st.kill, e);
  }

  /** After a halt or a fatal error a thread goes straight to the exit event. */
  lemma LeavesAtOnce(st: State, t: nat)
    requires t < |st.threads| && (st.threads[t].pc == Returned(Halt) || st.threads[t].pc == Returned(Fatal))
    ensures var th := st.threads[t];
            Moves(st, [] + [Handle(t)] + [WriteExit(t)],
                  t, th.(pc := Finished, signals := th.signals + 1), st.kill, st.exitEvt + 1)
  {
    var th := st.threads[t];
    Unmoved(st, t);
    Move(st, [], t, th, st.kill, st.exitEvt, Handle(t), th.(pc := Leaving), st.kill, st.exitEvt);
    Move(st, [] + [Handle(t)], t, th.(pc := Leaving), st.kill, st.exitEvt, WriteExit(t),
         th.(pc := Finished, signals := th.signals + 1), st.kill, st.exitEvt + 1);
  }

  /** After a system event a thread sets the kill flag, sees it itself, and goes on to the exit event. */
  lemma SystemEventStopsAll(st: State, t: nat)
    requires t < |st.threads| && st.threads[t].pc == Returned(SystemEvent)
    ensures var th := st.threads[t];
            Moves(st, [] + [Handle(t)] + [LoadKill(t)] + [WriteExit(t)],
                  t, th.(pc := Finished, signals := th.signals + 1), true, st.exitEvt + 1)
  {
    var th, e := st.threads[t], st.exitEvt;
    Unmoved(st, t);
    Move(st, [], t, th, st.kill, e, Handle(t), th.(pc := Check), true, e);
    Move(st, [] + [Handle(t)], t, th.(pc := Check), true, e, LoadKill(t), th.(pc := Leaving), true, e);
    Move(st, [] + [Handle(t)] + [LoadKill(t)], t, th.(pc := Leaving), true, e, WriteExit(t),
         th.(pc := Finished, signals := th.signals + 1), true, e + 1);
  }

  /** After any other exit a thread clears the signal and enters the guest again while the flag is not set. */
  lemma LoopsOn(st: State, t: nat)
    requires t < |st.threads| && !st.kill && st.threads[t].pc.Returned? && st.threads[t].signals == 0
    requires var exit := st.threads[t].pc.exit; exit == Bus || exit == Unexpected || exit == Retry
    ensures var th := st.threads[t];
            Moves(st, [] + [Handle(t)] + [LoadKill(t)] + [ClearSignal(t)] + [Enter(t)],
                  t, th.(pc := InGuest, entries := th.entries + 1, pending := false), false, st.exitEvt)
  {
    var th, e := st.threads[t], st.exitEvt;
    var run := [] + [Handle(t)];
    Unmoved(st, t);
    Move(st, [], t, th, false, e, Handle(t), th.(pc := Check), false, e);
    Move(st, run, t, th.(pc := Check), false, e, LoadKill(t), th.(pc := Clear), false, e);
    Move(st, run + [LoadKill(t)], t, th.(pc := Clear), false, e, ClearSignal(t),
         th.(pc := LoopTop, pending := false), false, e);
    Move(st, run + [LoadKill(t)] + [ClearSignal(t)], t, th.(pc := LoopTop, pending := false), false, e, Enter(t),
         th.(pc := InGuest, entries := th.entries + 1, pending := false), false, e);
  }

  ghost predicate SystemEventPending(st: State) {
    exists t :: 0 <= t < |st.threads| && st.threads[t].pc == Returned(SystemEvent)
  }

  ghost predicate AsksForKill(run: seq<Action>) {
    exists i :: 0 <= i < |run| && (run[i].StoreKill? || (run[i].Leave? && run[i].exit.SystemEvent?))
  }

  lemma {:induction false} RunKeepsFlag(st: State, run: seq<Action>, st': State)
    requires Runs(st, run, st') && !AsksForKill(run) && !st.kill && !SystemEventPending(st)
    ensures !st'.kill && !SystemEventPending(st')
    decreases |run|
  {
    if run != [] {
      var a := run[0];
      assert !(a.StoreKill? || (a.Leave? && a.exit.SystemEvent?));
      assert forall i :: 0 <= i < |run[1..]| ==> run[1..][i] == run[i + 1];
      RunKeepsFlag(Next(st, a), run[1..], st');
    }
  }

  /** The kill flag is set only when main stops or the guest raises a system event. */
  lemma KillHasAReason(n: nat, run: seq<Action>, st: State)
    requires Runs(Init(n), run, st) && st.kill
    ensures AsksForKill(run)
  {
    if !AsksForKill(run) {
      RunKeepsFlag(Init(n), run, st);
    }
  }

  // ---------------------------------------------------------------------------
  // Joining
  // ---------------------------------------------------------------------------

  /** Every kick of the run is delivered. */
  ghost predicate AllDelivered(run: seq<Action>) {
    forall i :: 0 <= i < |run| ==> run[i] != Kick(false)
  }

  ghost predicate AllKicked(st: State) {
    && (forall t :: 0 <= t < Dealt(st) && t < |st.threads| ==> st.threads[t].kickedAt.Some?)
    && (st.main.Joining? && st.main.next < |st.threads| ==> st.threads[st.main.next].kickedAt.Some?)
  }

  lemma StepKeepsKicked(st: State, a: Action)
    requires AllKicked(st) && Enabled(st, a) && a != Kick(false)
    ensures AllKicked(Next(st, a))
  {
    forall t | 0 <= t < |st.threads| && st.threads[t].kickedAt.Some?
      ensures Next(st, a).threads[t].kickedAt.Some?
    {
    }
  }

  lemma {:induction false} RunKeepsKicked(st: State, run: seq<Action>, st': State)
    requires Runs(st, run, st') && AllKicked(st) && AllDelivered(run)
    ensures AllKicked(st')
    decreases |run|
  {
    if run != [] {
      StepKeepsKicked(st, run[0]);
      RunKeepsKicked(Next(st, run[0]), run[1..], st');
    }
  }

  /** Main waits for a thread only when the kick reached it. */
  ghost predicate JoinsKicked(st: State) {
    st.main.Joining? && st.main.next < |st.threads| ==> st.threads[st.main.next].kickedAt.Some?
  }

  lemma {:induction false} RunJoinsKicked(st: State, run: seq<Action>, st': State)
    requires Runs(st, run, st') && JoinsKicked(st)
    ensures JoinsKicked(st')
    decreases |run|
  {
    if run != [] {
      RunJoinsKicked(Next(st, run[0]), run[1..], st');
    }
  }

  /** In every run main waits only for a thread whose kick was delivered, and passes over the others. */
  lemma WaitsOnlyForKicked(n: nat, run: seq<Action>, st: State)
    requires Runs(Init(n), run, st)
    ensures st.main.Joining? && st.main.next < |st.threads| ==> st.threads[st.main.next].kickedAt.Some?
    ensures Enabled(st, Kick(false)) ==> Next(st, Kick(false)) == st.(main := Killing(st.main.next + 1))
  {
    RunJoinsKicked(Init(n), run, st);
  }

  /** When every kick is delivered and main is done, all threads are finished, and each has signalled its exit. */
  lemma AllFinishedAtTheEnd(n: nat, run: seq<Action>, st: State, t: nat)
    requires Runs(Init(n), run, st) && AllDelivered(run) && st.main.MainFinished? && t < |st.threads|
    ensures st.threads[t].pc.Finished? && st.threads[t].signals == 1
  {
    RunKeepsKicked(Init(n), run, st);
    JoinedThreadsAreFinished(n, run, st, t);
    ExitIsSignalledOnce(n, run, st);
  }

  // ---------------------------------------------------------------------------
  // What is left to do once the kill flag is set
  // ---------------------------------------------------------------------------

  /** How many more states a thread goes through once the flag is set. */
  function Rank(pc: Pc): (r: nat)
    ensures r >= 1 && (r == 1 <==> pc.Finished?)
  {
    match pc
    case Unspawned => 9
    case Starting => 8
    case AtBarrier => 7
    case Clear => 7
    case LoopTop => 6
    case InGuest => 5
    case Returned(_) => 4
    case Check => 3
    case Leaving => 2
    case Finished => 1
  }

  function OwnSteps(run: seq<Action>, t: nat): (n: nat) {
    if run == [] then 0 else OwnSteps(run[1..], t) + if Own(run[0], t) then 1 else 0
  }

  lemma StepLowersRank(st: State, a: Action, t: nat)
    requires st.kill && Enabled(st, a) && t < |st.threads|
    requires a.Spawn? && Subject(st, a) == Some(t) ==> st.threads[t].pc.Unspawned?
    ensures Rank(Next(st, a).threads[t].pc) + (if Own(a, t) then 1 else 0) <= Rank(st.threads[t].pc)
  {
  }

  lemma {:induction false} RunLowersRank(st: State, run: seq<Action>, st': State, t: nat)
    requires Inv(st) && st.kill && Runs(st, run, st') && t < |st.threads|
    ensures t < |st'.threads| && OwnSteps(run, t) + Rank(st'.threads[t].pc) <= Rank(st.threads[t].pc)
    decreases |run|
  {
    if run != [] {
      StepLowersRank(st, run[0], t);
      StepKeepsInv(st, run[0]);
      RunLowersRank(Next(st, run[0]), run[1..], st', t);
    }
  }

  /** The flag is set only once the barrier has opened. */
  lemma {:induction false} KillAfterBarrier(st: State, run: seq<Action>, st': State)
    requires Inv(st) && (st.kill ==> st.generation > 0) && Runs(st, run, st')
    ensures st'.kill ==> st'.generation > 0
    decreases |run|
  {
    if run != [] {
      var a := run[0];
      StepKeepsInv(st, a);
      if a.Handle? {
        assert Past(st.threads[a.t]);
      }
      KillAfterBarrier(Next(st, a), run[1..], st');
    }
  }

  lemma RankAtKill(n: nat, run: seq<Action>, st: State, t: nat)
    requires Runs(Init(n), run, st) && st.kill && t < |st.threads|
    ensures Inv(st) && Rank(st.threads[t].pc) <= 7
  {
    InitInv(n);
    RunKeepsInv(Init(n), run, st);
    KillAfterBarrier(Init(n), run, st);
    assert Arrived(st.threads[t]);
  }

  /** At most six own steps in the run, and the sixth finishes the thread. */
  ghost predicate SoonFinished(run: seq<Action>, st: State, t: nat) {
    t < |st.threads| && OwnSteps(run, t) <= 6 && (OwnSteps(run, t) == 6 ==> st.threads[t].pc.Finished?)
  }

  lemma {:induction false} LowRankFinishes(st: State, run: seq<Action>, st': State, t: nat)
    requires Inv(st) && st.kill && Runs(st, run, st') && t < |st.threads| && Rank(st.threads[t].pc) <= 7
    ensures SoonFinished(run, st', t)
  {
    RunLowersRank(st, run, st', t);
  }

  /** Once the kill flag is set, every thread is at most six of its own steps away from being finished. */
  lemma {:induction false} FewStepsAfterKill(n: nat, run: seq<Action>, mid: State, rest: seq<Action>, st: State, t: nat)
    requires Runs(Init(n), run, mid) && mid.kill && Runs(mid, rest, st) && t < |mid.threads|
    ensures SoonFinished(rest, st, t)
  {
    RankAtKill(n, run, mid, t);
    LowRankFinishes(mid, rest, st, t);
  }

  /**
   A delivered kick is still there to end `vcpu.run()`, unless it was delivered between the load of
   the kill flag and the clearing of the signal, and the thread has cleared it since.
   */
  lemma KickStaysPending(n: nat, run: seq<Action>, st: State, t: nat)
    requires Runs(Init(n), run, st) && t < |st.threads| && st.threads[t].kickedAt.Some?
    ensures st.threads[t].pending <==> !(st.threads[t].kickedAt == Some(Clear) && st.threads[t].pc != Clear)
  {
    InitInv(n);
    RunKeepsInv(Init(n), run, st);
    assert ThreadOk(st.threads[t], st.kill);
  }

  /** There is a run from `st` to `st'`. */
  ghost predicate Reaches(st: State, st': State) {
    exists run :: Runs(st, run, st')
  }

  /** A state with a single thread. */
  function Solo(th: Thread, main: Main, count: nat, generation: nat, kill: bool): (st: State) {
    State([th], main, count, generation, kill, 0)
  }

  /** One more step of a single thread and main. */
  lemma Then(st: State, th: Thread, main: Main, count: nat, generation: nat, kill: bool, a: Action,
             th': Thread, count': nat, generation': nat, kill': bool)
    requires Reaches(st, Solo(th, main, count, generation, kill)) && !a.WriteExit?
    requires Enabled(Solo(th, main, count, generation, kill), a)
    requires th' == if Subject(Solo(th, main, count, generation, kill), a).None? then th
                    else ThreadStep(th, generation, kill, a)
    requires (count', generation') == if a.Arrive? || a.MainArrives? then Arrival(2, count, generation)
                                      else (count, generation)
    requires kill' == KillStep(Solo(th, main, count, generation, kill), a)
    ensures Reaches(st, Solo(th', MainStep(main, a), count', generation', kill'))
  {
    var mid := Solo(th, main, count, generation, kill);
    var run :| Runs(st, run, mid);
    RunThen(st, run, mid, a);
    assert Next(mid, a) == Solo(th', MainStep(main, a), count', generation', kill');
  }

  lemma ReachBarrier()
    ensures Reaches(Init(1), Solo(FRESH.(pc := AtBarrier), MainAtBarrier, 0, 1, false))
  {
    var s0 := Init(1);
    var th := FRESH;
    assert s0 == Solo(th, Spawning(0), 0, 0, false);
    assert Runs(s0, [], s0);
    Then(s0, th, Spawning(0), 0, 0, false, Spawn, th.(pc := Starting), 0, 0, false);
    Then(s0, th.(pc := Starting), Spawning(1), 0, 0, false, Arrive(0, true), th.(pc := AtBarrier), 1, 0, false);
    Then(s0, th.(pc := AtBarrier), Spawning(1), 1, 0, false, MainArrives, th.(pc := AtBarrier), 0, 1, false);
  }

  lemma ReachLoop()
    ensures Reaches(Init(1), Solo(FRESH.(pc := LoopTop), Polling, 0, 1, false))
  {
    var s0, th := Init(1), FRESH;
    ReachBarrier();
    Then(s0, th.(pc := AtBarrier), MainAtBarrier, 0, 1, false, Released(0), th.(pc := LoopTop), 0, 1, false);
    Then(s0, th.(pc := LoopTop), MainAtBarrier, 0, 1, false, MainReleased, th.(pc := LoopTop), 0, 1, false);
  }

  lemma ReachGuest()
    ensures Reaches(Init(1), Solo(FRESH.(pc := InGuest, entries := 1), Polling, 0, 1, false))
  {
    ReachLoop();
    Then(Init(1), FRESH.(pc := LoopTop), Polling, 0, 1, false, Enter(0),
         FRESH.(pc := InGuest, entries := 1), 0, 1, false);
  }

  lemma ReachCheck()
    ensures Reaches(Init(1), Solo(FRESH.(pc := Check, entries := 1), Polling, 0, 1, false))
  {
    var s0 := Init(1);
    var th := FRESH.(pc := InGuest, entries := 1);
    ReachGuest();
    Then(s0, th, Polling, 0, 1, false, Leave(0, Retry), th.(pc := Returned(Retry)), 0, 1, false);
    Then(s0, th.(pc := Returned(Retry)), Polling, 0, 1, false, Handle(0), th.(pc := Check), 0, 1, false);
  }

  lemma ReachClear()
    ensures Reaches(Init(1), Solo(FRESH.(pc := Clear, entries := 1), Stopping, 0, 1, false))
  {
    var s0, th := Init(1), FRESH.(entries := 1);
    ReachCheck();
    Then(s0, th.(pc := Check), Polling, 0, 1, false, LoadKill(0), th.(pc := Clear), 0, 1, false);
    Then(s0, th.(pc := Clear), Polling, 0, 1, false, StopPolling, th.(pc := Clear), 0, 1, false);
  }

  lemma ReachKick()
    ensures var kicked := FRESH.(pc := Clear, entries := 1, pending := true, kickedAt := Some(Clear));
            Reaches(Init(1), Solo(kicked, Joining(0), 0, 1, true))
  {
    var s0 := Init(1);
    var th := FRESH.(pc := Clear, entries := 1);
    ReachClear();
    Then(s0, th, Stopping, 0, 1, false, StoreKill, th, 0, 1, true);
    Then(s0, th, Killing(0), 0, 1, true, Kick(true), th.(pending := true, kickedAt := Some(Clear)), 0, 1, true);
  }

  /** And that happens: main waits for a thread that is back in the guest with no signal pending. */
  lemma LostKick()
    ensures Reaches(Init(1), Solo(FRESH.(pc := InGuest, entries := 2, late := 1, kickedAt := Some(Clear)),
                                  Joining(0), 0, 1, true))
  {
    var s0 := Init(1);
    var th := FRESH.(entries := 1, kickedAt := Some(Clear));
    ReachKick();
    Then(s0, th.(pc := Clear, pending := true), Joining(0), 0, 1, true, ClearSignal(0),
         th.(pc := LoopTop), 0, 1, true);
    Then(s0, th.(pc := LoopTop), Joining(0), 0, 1, true, Enter(0),
         th.(pc := InGuest, entries := 2, late := 1), 0, 1, true);
  }
}
