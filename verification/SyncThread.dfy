/** The delayed log sync: writers that mark the log dirty, a thread that syncs it some
    time later, and the drop that stops the thread and syncs what is left. Every step
    below is one action of one thread; a run is any interleaving of them. */
module SyncThread {

  /** Where the sync thread is. In the states of `Holding` it holds the flag's lock. */
  datatype Thread =
    | Acquire
    | CheckFirst
    | AboutToWait
    | Waiting(woken: bool)
    | CheckStop
    | Window
    | Dozing
    | AfterWindow
    | StartSync
    | Syncing(level: nat)
    | Failed
    | Exited

  /** Where the drop is. */
  datatype Drop =
    | Alive
    | Stopping
    | Joining
    | Joined
    | FinalTaken(wasDirty: bool)
    | FinalSyncing(upTo: nat)
    | Gone(failed: bool)

  /** `written` counts the appends in the log file, `synced` those known to be on disk, and
      `marked` is the latest append whose writer has marked the log dirty. */
  datatype State = State(
    dirty: bool, stop: bool, thread: Thread, drop: Drop, written: nat, marked: nat, synced: nat)

  datatype Event =
    | Append
    | Mark(append: nat)
    | ThreadStep(elapsed: bool, syncFails: bool)
    | SpuriousWake
    | DropStep(finalFails: bool)

  predicate Holding(t: Thread) {
    t.CheckFirst? || t.AboutToWait? || t.CheckStop? || t.Window? || t.AfterWindow?
  }

  function Max(a: nat, b: nat): nat {
    if a < b then b else a
  }

  function Notified(t: Thread): Thread {
    if t.Waiting? then Waiting(true) else t
  }

  // ----- Steps -----

  predicate ThreadEnabled(s: State) {
    s.thread != Exited && s.thread != Waiting(false)
  }

  /** A sync covers the appends that were in the file when it began. */
  function ThreadStepped(s: State, elapsed: bool, syncFails: bool): State
    requires ThreadEnabled(s)
  {
    match s.thread
    case Acquire => s.(thread := CheckFirst)
    case CheckFirst => s.(thread := if s.dirty || s.stop then CheckStop else AboutToWait)
    case AboutToWait => s.(thread := Waiting(false))
    case Waiting(_) => s.(thread := CheckFirst)
    case CheckStop => s.(thread := if s.stop then Exited else Window)
    case Window => s.(thread := if s.stop || elapsed then AfterWindow else Dozing)
    case Dozing => s.(thread := Window)
    case AfterWindow =>
      if s.stop then s.(thread := Exited)
      else if !s.dirty then s.(thread := Acquire)
      else s.(dirty := false, thread := StartSync)
    case StartSync => s.(thread := Syncing(s.written))
    case Syncing(level) =>
      if syncFails then s.(thread := Failed) else s.(synced := Max(s.synced, level), thread := Acquire)
    case Failed => s.(dirty := true, thread := Acquire)
  }

  predicate DropEnabled(s: State) {
    match s.drop
    case Joining => s.thread == Exited
    case Joined => !Holding(s.thread)
    case Gone(_) => false
    case _ => true
  }

  function DropStepped(s: State, finalFails: bool): State
    requires DropEnabled(s)
  {
    match s.drop
    case Alive => s.(stop := true, drop := Stopping)
    case Stopping => s.(thread := Notified(s.thread), drop := Joining)
    case Joining => s.(drop := Joined)
    case Joined => s.(dirty := false, drop := FinalTaken(s.dirty))
    case FinalTaken(wasDirty) => s.(drop := if wasDirty then FinalSyncing(s.written) else Gone(false))
    case FinalSyncing(upTo) =>
      if finalFails then s.(drop := Gone(true)) else s.(synced := Max(s.synced, upTo), drop := Gone(false))
  }

  predicate Enabled(s: State, e: Event) {
    match e
    case Append => s.drop.Alive?
    case Mark(append) => s.drop.Alive? && !Holding(s.thread) && append <= s.written
    case ThreadStep(_, _) => ThreadEnabled(s)
    case SpuriousWake => s.thread.Waiting?
    case DropStep(_) => DropEnabled(s)
  }

  function Step(s: State, e: Event): State
    requires Enabled(s, e)
  {
    match e
    case Append => s.(written := s.written + 1)
    case Mark(append) => s.(dirty := true, marked := Max(s.marked, append), thread := Notified(s.thread))
    case ThreadStep(elapsed, syncFails) => ThreadStepped(s, elapsed, syncFails)
    case SpuriousWake => s.(thread := Waiting(true))
    case DropStep(finalFails) => DropStepped(s, finalFails)
  }

  predicate CanRun(s: State, events: seq<Event>)
    decreases |events|
  {
    events == [] || (Enabled(s, events[0]) && CanRun(Step(s, events[0]), events[1..]))
  }

  function Run(s: State, events: seq<Event>): State
    requires CanRun(s, events)
    decreases |events|
  {
    if events == [] then s else Run(Step(s, events[0]), events[1..])
  }

  /** The thread may have failed to start; then only the drop ever syncs. */
  predicate Initial(s: State) {
    s == State(false, false, s.thread, Alive, 0, 0, 0) && (s.thread.Acquire? || s.thread.Exited?)
  }

  // ----- Nothing marked is forgotten -----

  predicate FinalBegun(d: Drop) {
    d.FinalTaken? || d.FinalSyncing? || d.Gone?
  }

  /** With the flag down, who still owes a sync of what was marked: the thread, the
      drop, or nobody, and then it is on disk. */
  predicate Accounted(s: State) {
    match s.thread
    case StartSync => true
    case Failed => true
    case Syncing(level) => s.marked <= Max(level, s.synced)
    case _ =>
      match s.drop
      case FinalTaken(wasDirty) => wasDirty || s.marked <= s.synced
      case FinalSyncing(upTo) => s.marked <= Max(upTo, s.synced)
      case Gone(failed) => failed || s.marked <= s.synced
      case _ => s.marked <= s.synced
  }

  predicate Inv(s: State) {
    s.marked <= s.written
    && (s.dirty || Accounted(s))
    && (s.drop.Alive? <==> !s.stop)
    && (s.drop.Joined? || FinalBegun(s.drop) ==> s.thread == Exited)
    && (FinalBegun(s.drop) ==> !s.dirty)
  }

  /** Every step keeps the account. */
  lemma StepKeepsInv(s: State, e: Event)
    requires Inv(s) && Enabled(s, e)
    ensures Inv(Step(s, e))
  {
  }

  lemma {:induction false} RunKeepsInv(s: State, events: seq<Event>)
    requires Inv(s) && CanRun(s, events)
    ensures Inv(Run(s, events))
    decreases |events|
  {
    hide Inv, Step, Enabled;
    if events != [] {
      StepKeepsInv(s, events[0]);
      RunKeepsInv(Step(s, events[0]), events[1..]);
    }
  }

  predicate SyncPending(s: State) {
    s.thread.StartSync? || s.thread.Syncing? || s.thread.Failed? || FinalBegun(s.drop)
  }

  /** In every interleaving: when the flag is down and no sync is under way, every
      marked append is on disk; failed delayed syncs do not break this. */
  lemma QuietMeansSynced(s: State, events: seq<Event>)
    requires Initial(s) && CanRun(s, events)
    ensures var end := Run(s, events);
            !end.dirty && !SyncPending(end) ==> end.marked <= end.synced
  {
    RunKeepsInv(s, events);
  }

  /** Once the drop has returned, every marked append is on disk, unless the drop's own sync failed. */
  lemma DropLeavesNothing(s: State, events: seq<Event>)
    requires Initial(s) && CanRun(s, events) && Run(s, events).drop == Gone(false)
    ensures Run(s, events).marked <= Run(s, events).synced
  {
    RunKeepsInv(s, events);
  }

  // ----- What is marked gets synced -----

  /** The thread goes to sleep only with the flag down, and a mark wakes it. */
  predicate Awake(s: State) {
    Inv(s) && (s.thread == AboutToWait || s.thread == Waiting(false) ==> !s.dirty)
  }

  lemma {:induction false} RunStaysAwake(s: State, events: seq<Event>)
    requires Initial(s) || Awake(s)
    requires CanRun(s, events)
    ensures Awake(Run(s, events))
    decreases |events|
  {
    if events != [] {
      RunStaysAwake(Step(s, events[0]), events[1..]);
    }
  }

  /** How many steps of the thread an append that was marked is away from the disk. */
  function Owed(s: State, append: nat): nat {
    if append <= s.synced then 0
    else
      match s.thread
      case Syncing(level) => if append <= level then 1 else 8
      case StartSync => 2
      case AfterWindow => 3
      case Window => 4
      case Dozing => 5
      case CheckStop => 5
      case CheckFirst => 6
      case Acquire => 7
      case Waiting(_) => 7
      case Failed => 8
      case _ => 0
  }

  /** The store is open, the delay passes and the disk takes the sync. */
  predicate GoesWell(e: Event) {
    !e.DropStep? && (e.ThreadStep? ==> e.elapsed && !e.syncFails)
  }

  /** While an append is owed the thread can step; each step brings it nearer and nothing else
      puts it off. */
  lemma StepPaysOff(s: State, e: Event, append: nat)
    requires Awake(s) && s.drop.Alive? && s.thread != Exited && append <= s.marked
    requires Enabled(s, e) && GoesWell(e)
    ensures Owed(s, append) > 0 ==> ThreadEnabled(s)
    ensures Owed(Step(s, e), append) <= Owed(s, append)
    ensures e.ThreadStep? && Owed(s, append) > 0 ==> Owed(Step(s, e), append) < Owed(s, append)
    ensures var next := Step(s, e);
            Awake(next) && next.thread != Exited && next.drop.Alive? && append <= next.marked
  {
  }

  function ThreadSteps(events: seq<Event>): nat {
    if events == [] then 0 else ThreadSteps(events[1..]) + if events[0].ThreadStep? then 1 else 0
  }

  lemma {:induction false} RunPaysOff(s: State, events: seq<Event>, append: nat)
    requires Awake(s) && s.drop.Alive? && s.thread != Exited && append <= s.marked
    requires CanRun(s, events) && forall i :: 0 <= i < |events| ==> GoesWell(events[i])
    ensures var end := Run(s, events);
            append <= end.synced
            || (0 < Owed(end, append) <= Owed(s, append) - ThreadSteps(events) && ThreadEnabled(end))
    ensures append <= s.synced ==> append <= Run(s, events).synced
    decreases |events|
  {
    if events != [] {
      hide Step, Enabled, Awake;
      StepPaysOff(s, events[0], append);
      assert forall i :: 0 <= i < |events[1..]| ==> GoesWell(events[1..][i]);
      RunPaysOff(Step(s, events[0]), events[1..], append);
    }
  }

  /** From wherever an interleaving has got to with the thread running and the store open: as
      soon as the thread has taken eight steps in which the delay passes and no sync fails,
      between whatever else appends and marks, everything marked before is on disk; and as
      long as it is not, the thread can step. */
  lemma MarkedIsSynced(s: State, before: seq<Event>, events: seq<Event>)
    requires Initial(s) && CanRun(s, before) && CanRun(Run(s, before), events)
    requires var now := Run(s, before); now.drop.Alive? && now.thread != Exited
    requires forall i :: 0 <= i < |events| ==> GoesWell(events[i])
    ensures var now, end := Run(s, before), Run(Run(s, before), events);
            (ThreadSteps(events) >= 8 ==> now.marked <= end.synced)
            && (now.marked <= end.synced || ThreadEnabled(end))
  {
    hide Inv, Step, Enabled;
    RunStaysAwake(s, before);
    var now := Run(s, before);
    RunPaysOff(now, events, now.marked);
  }

  // ----- The drop may never return -----

  /** Nothing can happen any more but a wakeup nobody asked for. */
  predicate Stuck(s: State) {
    !ThreadEnabled(s) && !DropEnabled(s) && !s.drop.Alive? && !s.drop.Gone?
  }

  ghost predicate CanGetStuck(s: State) {
    exists events :: CanRun(s, events) && Stuck(Run(s, events))
  }

  /** The stop has been seen, or will be: the thread is on no way into an untimed wait that
      the drop's notification cannot end. */
  predicate Released(s: State) {
    Inv(s) && s.stop && s.thread != AboutToWait && (s.drop == Joining ==> s.thread != Waiting(false))
  }

  lemma StaysReleased(s: State, e: Event)
    requires Released(s) && Enabled(s, e)
    ensures Released(Step(s, e)) && !Stuck(Step(s, e))
  {
    StepKeepsInv(s, e);
  }

  lemma {:induction false} ReleasedNeverStuck(s: State, events: seq<Event>)
    requires Released(s) && CanRun(s, events)
    ensures !Stuck(Run(s, events))
    decreases |events|
  {
    if events != [] {
      hide Released, Stuck, Step, Enabled;
      StaysReleased(s, events[0]);
      ReleasedNeverStuck(Step(s, events[0]), events[1..]);
    }
  }

  /** A drop can get stuck exactly when it is called while the thread, holding the lock, has
      decided to wait and does not wait yet: the notification then finds nobody. */
  lemma DropCanGetStuckExactlyWhen(s: State)
    requires Inv(s) && s.drop.Alive?
    ensures CanGetStuck(Step(s, DropStep(false))) <==> s.thread == AboutToWait
  {
    hide Inv, Released;
    var called := Step(s, DropStep(false));
    if s.thread == AboutToWait {
      var notified := Step(called, DropStep(false));
      var go := ThreadStep(false, false);
      var end := Step(notified, go);
      assert [DropStep(false), go][1..] == [go] && [go][1..] == [];
      assert CanRun(notified, [go]) && Run(notified, [go]) == end;
      assert CanRun(called, [DropStep(false), go]) && Run(called, [DropStep(false), go]) == end;
      assert Stuck(end);
    } else {
      CalledIsReleased(s);
      forall events | CanRun(called, events) ensures !Stuck(Run(called, events)) {
        ReleasedNeverStuck(called, events);
      }
    }
  }

  lemma CalledIsReleased(s: State)
    requires Inv(s) && s.drop.Alive? && s.thread != AboutToWait
    ensures Released(Step(s, DropStep(false)))
  {
  }

  /** It happens: the thread has seen that it need not stop, the drop sets the flag and
      notifies nobody, and only then does the thread start to wait. */
  lemma LostWakeup(s: State)
    requires Initial(s) && s.thread == Acquire
    ensures exists events :: CanRun(s, events) && Stuck(Run(s, events))
  {
    var go, drop := ThreadStep(false, false), DropStep(false);
    var events := [go, go, drop, drop, go];
    var s1 := Step(s, go);
    var s2 := Step(s1, go);
    var s3 := Step(s2, drop);
    var s4 := Step(s3, drop);
    var s5 := Step(s4, go);
    assert s5.thread == Waiting(false) && s5.drop == Joining;
    assert events[1..] == [go, drop, drop, go] && [go, drop, drop, go][1..] == [drop, drop, go];
    assert [drop, drop, go][1..] == [drop, go] && [drop, go][1..] == [go] && [go][1..] == [];
    assert CanRun(s4, [go]) && Run(s4, [go]) == s5;
    assert CanRun(s3, [drop, go]) && Run(s3, [drop, go]) == s5;
    assert CanRun(s2, [drop, drop, go]) && Run(s2, [drop, drop, go]) == s5;
    assert CanRun(s1, [go, drop, drop, go]) && Run(s1, [go, drop, drop, go]) == s5;
    assert CanRun(s, events) && Run(s, events) == s5;
  }
}
