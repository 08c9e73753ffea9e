/**
 The job registry as an interleaving protocol: every goroutine advances by the atomic steps
 it takes under a mutex or on a semaphore channel, and cancellations may fall anywhere.
 */
module Jobs {
  import opened Collections

  datatype Action = Init | Backup | Restore | Check | Prune | Copy

  datatype JobState = Pending | Running | Completed | Failed | Cancelled

  datatype JobEvent = EvStarted | EvCompleted | EvFailed | EvCancelled

  /** Which semaphore gates an action. */
  datatype Lane = CopyLane | MaintLane | Ungated

  const RECENT_JOBS_RETAINED: nat := 50

  /**
   Where a job's goroutine stands. `Queued` waits on the semaphore or the context; the `Fin`
   steps are `finalizeUnstarted`, the `Fail` steps the start-failure path of `spawn`, the
   `Exit` steps its wait goroutine, which remembers the state it read under the lock.
   */
  datatype Pc =
    | Queued
    | FinLock | FinCleanup | FinMark | FinEmit
    | Spawning
    | FailCleanup | FailLock | FailMark | FailEmit | FailRelease
    | Started | Announce | Waiting
    | ExitLock(ok: bool) | ExitCleanup(was: JobState) | ExitMark(was: JobState) | ExitEmit(was: JobState) | ExitRelease
    | Over

  datatype Job = Job(action: Action, lane: Lane, state: JobState, pc: Pc, ctxDone: bool,
                     holds: bool, acquired: nat, released: nat, live: bool,
                     cleanups: nat, records: nat, events: seq<JobEvent>)

  /** `warm` counts the maintenance slots held by background listings; `history` is every termination, in order. */
  datatype Registry = Registry(copyCap: int, maintCap: int, copyUsed: nat, maintUsed: nat, warm: nat,
                               jobs: map<nat, Job>, registered: set<nat>, terminal: seq<nat>, history: seq<nat>)

  // ------------------------------------------------------------------------------
  // Terminated jobs
  // ------------------------------------------------------------------------------

  function LastOf<T>(s: seq<T>, n: nat): seq<T>
  {
    if |s| <= n then s else s[|s| - n..]
  }

  function Elems(s: seq<nat>): set<nat>
  {
    set x | x in s
  }

  /** The registry's own map and ring of terminated ids. */
  class Retention {
    var registered: set<nat>
    var terminal: seq<nat>

    /** Records a termination and evicts the oldest terminated jobs beyond the cap. */
    method MarkTerminated(id: nat)
      modifies this
      ensures terminal == LastOf(old(terminal) + [id], RECENT_JOBS_RETAINED)
      ensures registered == old(registered) - Evicted(old(terminal) + [id])
    {
      terminal := terminal + [id];
      ghost var all, k := terminal, 0;
      while |terminal| > RECENT_JOBS_RETAINED
        invariant k <= |all| && terminal == all[k..]
        invariant k > 0 ==> |terminal| >= RECENT_JOBS_RETAINED
        invariant registered == old(registered) - Elems(all[..k])
      {
        var oldest := terminal[0];
        ElemsNext(all, k);
        terminal := terminal[1..];
        registered := registered - {oldest};
        k := k + 1;
      }
      assert all[..k] == all[..|all| - |LastOf(all, RECENT_JOBS_RETAINED)|];
    }
  }

  lemma ElemsNext(s: seq<nat>, k: nat)
    requires k < |s|
    ensures Elems(s[..k + 1]) == Elems(s[..k]) + {s[k]}
  {
    assert s[..k + 1] == s[..k] + [s[k]];
  }

  /** The ids a ring that has grown to `ring` no longer keeps. */
  function Evicted(ring: seq<nat>): set<nat>
  {
    Elems(ring[..|ring| - |LastOf(ring, RECENT_JOBS_RETAINED)|])
  }

  // ------------------------------------------------------------------------------
  // Steps
  // ------------------------------------------------------------------------------

  function LaneOf(r: Registry, a: Action): Lane
  {
    match a
    case Copy => if r.copyCap > 0 then CopyLane else Ungated
    case Check => if r.maintCap > 0 then MaintLane else Ungated
    case Prune => if r.maintCap > 0 then MaintLane else Ungated
    case _ => Ungated
  }

  predicate HasRoom(r: Registry, lane: Lane)
  {
    match lane
    case CopyLane => r.copyUsed < r.copyCap
    case MaintLane => r.maintUsed < r.maintCap
    case Ungated => true
  }

  /** One atomic step. `Run` lets a job's goroutine take its next step; `branch` resolves what the step leaves open. */
  datatype Act =
    | StartJob(id: nat, action: Action)
    | Run(id: nat, branch: bool)
    | CancelJob(id: nat)
    | ContextDone(id: nat)
    | WarmAcquire
    | WarmRelease

  function NewJob(r: Registry, a: Action): Job
  {
    var lane := LaneOf(r, a);
    Job(a, lane, Pending, if lane.Ungated? then Spawning else Queued, false, false, 0, 0, false, 0, 0, [])
  }

  predicate Enabled(r: Registry, act: Act)
  {
    match act
    case StartJob(id, _) => id !in r.jobs
    case Run(id, branch) =>
      && id in r.jobs && !r.jobs[id].pc.Over?
      && (r.jobs[id].pc.Queued? ==> if branch then HasRoom(r, r.jobs[id].lane) else r.jobs[id].ctxDone)
    case CancelJob(id) => id in r.jobs
    case ContextDone(id) => id in r.jobs
    case WarmAcquire => r.maintCap > 0 ==> r.maintUsed < r.maintCap
    case WarmRelease => r.warm > 0
  }

  function TerminalEvent(s: JobState): JobEvent
  {
    match s
    case Completed => EvCompleted
    case Cancelled => EvCancelled
    case _ => EvFailed
  }

  /** What the step does to the job itself. */
  function Advance(j: Job, branch: bool): (j': Job)
    ensures j'.lane == j.lane && j'.action == j.action
    ensures j'.records == j.records + if Marks(j.pc) then 1 else 0
    ensures j'.holds && !j.holds ==> j.pc.Queued? && branch
  {
    match j.pc
    case Queued =>
      if branch then j.(pc := Spawning, holds := true, acquired := j.acquired + 1)
      else j.(pc := FinLock, ctxDone := true)
    case FinLock => j.(pc := FinCleanup, state := Cancelled)
    case FinCleanup => j.(pc := FinMark, cleanups := j.cleanups + 1)
    case FinMark => j.(pc := FinEmit, records := j.records + 1)
    case FinEmit => j.(pc := Over, events := j.events + [EvCancelled])
    case Spawning =>
      if branch then j.(pc := Started, live := true) else j.(pc := FailCleanup, ctxDone := true)
    case FailCleanup => j.(pc := FailLock, cleanups := j.cleanups + 1)
    case FailLock => j.(pc := FailMark, state := Failed)
    case FailMark => j.(pc := FailEmit, records := j.records + 1)
    case FailEmit => j.(pc := FailRelease, events := j.events + [EvFailed])
    case FailRelease => Release(j)
    case Started => j.(pc := Announce, state := Running)
    case Announce => j.(pc := Waiting, events := j.events + [EvStarted])
    case Waiting => j.(pc := ExitLock(branch), live := false)
    case ExitLock(ok) =>
      var s := if ok then Completed else if j.state == Cancelled then Cancelled else Failed;
      j.(pc := ExitCleanup(s), state := s)
    case ExitCleanup(was) => j.(pc := ExitMark(was), cleanups := j.cleanups + 1)
    case ExitMark(was) => j.(pc := ExitEmit(was), records := j.records + 1)
    case ExitEmit(was) => j.(pc := ExitRelease, events := j.events + [TerminalEvent(was)])
    case ExitRelease => Release(j)
    case Over => j
  }

  function Release(j: Job): Job
  {
    if j.holds then j.(pc := Over, holds := false, released := j.released + 1) else j.(pc := Over)
  }

  predicate Marks(pc: Pc)
  {
    pc.FinMark? || pc.FailMark? || pc.ExitMark?
  }

  function Marked(r: Registry, id: nat): Registry
  {
    r.(terminal := LastOf(r.terminal + [id], RECENT_JOBS_RETAINED),
       registered := r.registered - Evicted(r.terminal + [id]),
       history := r.history + [id])
  }

  /** Slots in use after a job of the lane changed what it holds. */
  function UsedAfter(used: nat, lane: Lane, of: Lane, held: bool, holds: bool): nat
  {
    if lane != of || held == holds then used
    else if holds then used + 1
    else if used > 0 then used - 1 else 0
  }

  function Apply(r: Registry, act: Act): Registry
    requires Enabled(r, act)
  {
    match act
    case StartJob(id, a) => r.(jobs := r.jobs[id := NewJob(r, a)], registered := r.registered + {id})
    case Run(id, branch) =>
      var j := r.jobs[id];
      var j' := Advance(j, branch);
      var r1 := r.(jobs := r.jobs[id := j'],
                   copyUsed := UsedAfter(r.copyUsed, j.lane, CopyLane, j.holds, j'.holds),
                   maintUsed := UsedAfter(r.maintUsed, j.lane, MaintLane, j.holds, j'.holds));
      if Marks(j.pc) then Marked(r1, id) else r1
    case CancelJob(id) =>
      var j := r.jobs[id];
      if j.state == Running || j.state == Pending then r.(jobs := r.jobs[id := j.(state := Cancelled)]) else r
    case ContextDone(id) => r.(jobs := r.jobs[id := r.jobs[id].(ctxDone := true)])
    case WarmAcquire => r.(warm := r.warm + 1, maintUsed := if r.maintCap > 0 then r.maintUsed + 1 else r.maintUsed)
    case WarmRelease =>
      r.(warm := r.warm - 1,
         maintUsed := if r.maintCap > 0 && r.maintUsed > 0 then r.maintUsed - 1 else r.maintUsed)
  }

  // ------------------------------------------------------------------------------
  // What holds of one job wherever it stands
  // ------------------------------------------------------------------------------

  predicate Settled(s: JobState)
  {
    s.Completed? || s.Failed? || s.Cancelled?
  }

  /** The terminal state has been written under the lock. */
  predicate Decided(pc: Pc)
  {
    || pc.FinCleanup? || pc.FinMark? || pc.FinEmit?
    || pc.FailMark? || pc.FailEmit? || pc.FailRelease?
    || pc.ExitCleanup? || pc.ExitMark? || pc.ExitEmit? || pc.ExitRelease? || pc.Over?
  }

  predicate CleanedUp(pc: Pc)
  {
    || pc.FinMark? || pc.FinEmit?
    || pc.FailLock? || pc.FailMark? || pc.FailEmit? || pc.FailRelease?
    || pc.ExitMark? || pc.ExitEmit? || pc.ExitRelease? || pc.Over?
  }

  predicate Recorded(pc: Pc)
  {
    pc.FinEmit? || pc.FailEmit? || pc.FailRelease? || pc.ExitEmit? || pc.ExitRelease? || pc.Over?
  }

  predicate Emitted(pc: Pc)
  {
    pc.FailRelease? || pc.ExitRelease? || pc.Over?
  }

  predicate BeforeSlot(pc: Pc)
  {
    pc.Queued? || pc.FinLock? || pc.FinCleanup? || pc.FinMark? || pc.FinEmit?
  }

  function TerminalEvents(events: seq<JobEvent>): seq<JobEvent>
  {
    if events == [] then []
    else TerminalEvents(events[..|events| - 1]) +
         if events[|events| - 1].EvStarted? then [] else [events[|events| - 1]]
  }

  /** A process is alive only between start and wait, and a gated job holds its slot all that time. */
  predicate SlotOk(j: Job)
  {
    && (j.live <==> j.pc.Started? || j.pc.Announce? || j.pc.Waiting?)
    && (BeforeSlot(j.pc) ==> !j.lane.Ungated? && !j.holds && j.acquired == 0)
    && (!BeforeSlot(j.pc) && !j.pc.Over? ==> (j.holds <==> !j.lane.Ungated?))
    && (j.pc.Over? ==> !j.holds)
    && j.acquired <= 1 && j.acquired == j.released + (if j.holds then 1 else 0)
  }

  /** Cleanup and the terminal record have happened exactly when they are behind the goroutine. */
  predicate CountsOk(j: Job)
  {
    && j.cleanups == (if CleanedUp(j.pc) then 1 else 0)
    && j.records == (if Recorded(j.pc) then 1 else 0)
  }

  predicate StateOk(j: Job)
  {
    && (Decided(j.pc) ==> Settled(j.state))
    && (j.pc.FinCleanup? || j.pc.FinMark? || j.pc.FinEmit? ==> j.state == Cancelled)
    && (j.pc.FailMark? || j.pc.FailEmit? ==> j.state == Failed)
    && (j.pc.ExitCleanup? || j.pc.ExitMark? || j.pc.ExitEmit? ==> j.state == j.pc.was)
  }

  /** There is one terminal event once it is behind the goroutine, none before, and it names the stored state. */
  predicate EventsOk(j: Job)
  {
    TerminalEvents(j.events) == if Emitted(j.pc) then [TerminalEvent(j.state)] else []
  }

  /** Everything about a job is a function of where its goroutine stands. */
  predicate JobOk(j: Job)
  {
    SlotOk(j) && CountsOk(j) && StateOk(j) && EventsOk(j)
  }

  lemma TerminalEventsNext(events: seq<JobEvent>, e: JobEvent)
    ensures TerminalEvents(events + [e]) == TerminalEvents(events) + if e.EvStarted? then [] else [e]
  {
    assert (events + [e])[..|events|] == events;
  }

  lemma AdvanceKeepsSlotOk(j: Job, branch: bool)
    requires SlotOk(j)
    ensures SlotOk(Advance(j, branch))
  {
  }

  lemma AdvanceKeepsCountsOk(j: Job, branch: bool)
    requires CountsOk(j)
    ensures CountsOk(Advance(j, branch))
  {
    match j.pc
    case FinCleanup =>
    case FinMark =>
    case FailCleanup =>
    case FailMark =>
    case ExitCleanup(_) =>
    case ExitMark(_) =>
    case _ =>
  }

  lemma AdvanceKeepsStateOk(j: Job, branch: bool)
    requires StateOk(j)
    ensures StateOk(Advance(j, branch))
  {
    match j.pc
    case FinLock =>
    case FinCleanup =>
    case FinMark =>
    case FailLock =>
    case FailMark =>
    case FailEmit =>
    case ExitLock(_) =>
    case ExitCleanup(_) =>
    case ExitMark(_) =>
    case ExitEmit(_) =>
    case _ =>
  }

  lemma AdvanceKeepsEventsOk(j: Job, branch: bool)
    requires EventsOk(j) && StateOk(j)
    ensures EventsOk(Advance(j, branch))
  {
    hide TerminalEvents;
    match j.pc
    case FinEmit => TerminalEventsNext(j.events, EvCancelled);
    case FailEmit => TerminalEventsNext(j.events, EvFailed);
    case Announce => TerminalEventsNext(j.events, EvStarted);
    case ExitEmit(was) => TerminalEventsNext(j.events, TerminalEvent(was));
    case _ =>
  }

  /** No step of a goroutine, however it branches, breaks what holds of its job. */
  lemma AdvanceKeepsJobOk(j: Job, branch: bool)
    requires JobOk(j)
    ensures JobOk(Advance(j, branch))
  {
    hide SlotOk, CountsOk, StateOk, EventsOk, Advance;
    AdvanceKeepsSlotOk(j, branch);
    AdvanceKeepsCountsOk(j, branch);
    AdvanceKeepsStateOk(j, branch);
    AdvanceKeepsEventsOk(j, branch);
  }

  // ------------------------------------------------------------------------------
  // What holds of the registry in every reachable state
  // ------------------------------------------------------------------------------

  function Holders(jobs: map<nat, Job>, lane: Lane): set<nat>
  {
    set id | id in jobs && jobs[id].lane == lane && jobs[id].holds
  }

  /** Each semaphore holds exactly one token per holder, and never more than its capacity. */
  ghost predicate SlotsOk(r: Registry)
  {
    && (r.copyCap > 0 ==> r.copyUsed == |Holders(r.jobs, CopyLane)| <= r.copyCap)
    && (r.maintCap > 0 ==> r.maintUsed == |Holders(r.jobs, MaintLane)| + r.warm <= r.maintCap)
  }

  ghost predicate LanesOk(r: Registry)
  {
    forall id :: id in r.jobs ==> r.jobs[id].lane == LaneOf(r, r.jobs[id].action)
  }

  /** The map keeps every job not yet recorded terminal, and the last few recorded ones in order. */
  ghost predicate RetentionOk(r: Registry)
  {
    && r.terminal == LastOf(r.history, RECENT_JOBS_RETAINED)
    && Distinct(r.history)
    && (forall id :: id in r.history <==> id in r.jobs && r.jobs[id].records > 0)
    && (forall id :: id in r.registered <==>
                       id in r.terminal || (id in r.jobs && r.jobs[id].records == 0))
  }

  ghost predicate Inv(r: Registry)
  {
    && (forall id :: id in r.jobs ==> JobOk(r.jobs[id]))
    && LanesOk(r) && SlotsOk(r) && RetentionOk(r)
  }

  predicate Initial(r: Registry)
  {
    r == Registry(r.copyCap, r.maintCap, 0, 0, 0, map[], {}, [], [])
  }

  lemma InitialInv(r: Registry)
    requires Initial(r)
    ensures Inv(r)
  {
    assert Holders(r.jobs, CopyLane) == {} && Holders(r.jobs, MaintLane) == {};
  }

  lemma JobsStayOk(r: Registry, act: Act)
    requires Enabled(r, act) && forall id :: id in r.jobs ==> JobOk(r.jobs[id])
    ensures forall id :: id in Apply(r, act).jobs ==> JobOk(Apply(r, act).jobs[id])
  {
    hide TerminalEvents;
    if act.Run? {
      AdvanceKeepsJobOk(r.jobs[act.id], act.branch);
      hide JobOk;
    } else if act.StartJob? {
      NewJobOk(r, act.action);
      hide JobOk;
    }
  }

  lemma NewJobOk(r: Registry, a: Action)
    ensures JobOk(NewJob(r, a))
  {
  }

  lemma LanesStayOk(r: Registry, act: Act)
    requires Enabled(r, act) && LanesOk(r)
    ensures LanesOk(Apply(r, act))
  {
    hide Advance;
  }

  /** A step of one job changes the holders of its lane by that job only. */
  lemma HoldersAfter(jobs: map<nat, Job>, id: nat, j: Job, lane: Lane)
    requires id in jobs && j.lane == jobs[id].lane
    ensures |Holders(jobs[id := j], lane)| == |Holders(jobs, lane)| +
              (if j.lane != lane || j.holds == jobs[id].holds then 0 else if j.holds then 1 else -1)
  {
    var after, before := Holders(jobs[id := j], lane), Holders(jobs, lane);
    assert after - {id} == before - {id};
    OneOut(after, id);
    OneOut(before, id);
  }

  lemma OneOut(s: set<nat>, x: nat)
    ensures |s| == |s - {x}| + if x in s then 1 else 0
  {
    if x in s {
      assert s == (s - {x}) + {x};
    } else {
      assert s == s - {x};
    }
  }

  lemma SlotsStayOk(r: Registry, act: Act)
    requires Enabled(r, act) && LanesOk(r) && SlotsOk(r)
    ensures SlotsOk(Apply(r, act))
  {
    hide Advance, Holders;
    var r' := Apply(r, act);
    match act
    case Run(id, branch) =>
      var j, j' := r.jobs[id], Advance(r.jobs[id], branch);
      HoldersAfter(r.jobs, id, j', CopyLane);
      HoldersAfter(r.jobs, id, j', MaintLane);
    case StartJob(id, a) => NewHoldsNothing(r, id, a);
    case CancelJob(id) =>
      HoldersAfter(r.jobs, id, r.jobs[id].(state := Cancelled), CopyLane);
      HoldersAfter(r.jobs, id, r.jobs[id].(state := Cancelled), MaintLane);
    case ContextDone(id) =>
      HoldersAfter(r.jobs, id, r'.jobs[id], CopyLane);
      HoldersAfter(r.jobs, id, r'.jobs[id], MaintLane);
    case _ =>
  }

  lemma NewHoldsNothing(r: Registry, id: nat, a: Action)
    requires id !in r.jobs
    ensures forall lane :: Holders(r.jobs[id := NewJob(r, a)], lane) == Holders(r.jobs, lane)
  {
    forall lane
      ensures Holders(r.jobs[id := NewJob(r, a)], lane) == Holders(r.jobs, lane)
    {
    }
  }

  // ------------------------------------------------------------------------------
  // Retention
  // ------------------------------------------------------------------------------

  lemma LastOfNext(s: seq<nat>, x: nat, n: nat)
    ensures LastOf(LastOf(s, n) + [x], n) == LastOf(s + [x], n)
  {
    if |s| > n {
      assert (s + [x])[|s| + 1 - n..] == (s[|s| - n..] + [x])[1..];
    }
  }

  /** Keeping the last few of distinct ids splits them in the kept and the evicted. */
  lemma KeptOrEvicted(ring: seq<nat>, x: nat)
    requires Distinct(ring) && x in ring
    ensures x in Evicted(ring) <==> x !in LastOf(ring, RECENT_JOBS_RETAINED)
  {
    var cut := |ring| - |LastOf(ring, RECENT_JOBS_RETAINED)|;
    assert LastOf(ring, RECENT_JOBS_RETAINED) == ring[cut..];
    var i :| 0 <= i < |ring| && ring[i] == x;
    if i < cut {
      assert x in ring[..cut];
    } else {
      assert ring[cut..][i - cut] == x;
    }
  }

  lemma LastOfMembers(s: seq<nat>, n: nat)
    ensures forall x :: x in LastOf(s, n) ==> x in s
    ensures Distinct(s) ==> Distinct(LastOf(s, n))
  {
  }

  lemma MarkedRetains(r: Registry, r': Registry, id: nat)
    requires RetentionOk(r) && id in r.jobs && r.jobs[id].records == 0
    requires id in r'.jobs && r'.jobs[id].records == 1
    requires forall x :: x != id ==>
               (x in r'.jobs <==> x in r.jobs) && (x in r.jobs ==> r'.jobs[x].records == r.jobs[x].records)
    requires r'.terminal == LastOf(r.terminal + [id], RECENT_JOBS_RETAINED)
    requires r'.registered == r.registered - Evicted(r.terminal + [id])
    requires r'.history == r.history + [id]
    ensures RetentionOk(r')
  {
    hide LastOf;
    LastOfNext(r.history, id, RECENT_JOBS_RETAINED);
    LastOfMembers(r.history, RECENT_JOBS_RETAINED);
    LastOfMembers(r.terminal + [id], RECENT_JOBS_RETAINED);
    var ring := r.terminal + [id];
    assert Distinct(ring);
    assert forall x :: x in r'.history <==> x in r.history || x == id;
    forall x
      ensures x in r'.registered <==> x in r'.terminal || (x in r'.jobs && r'.jobs[x].records == 0)
    {
      if x in ring {
        KeptOrEvicted(ring, x);
      } else {
        EvictedAreListed(ring, x);
      }
    }
  }

  lemma EvictedAreListed(ring: seq<nat>, x: nat)
    requires x !in ring
    ensures x !in Evicted(ring)
  {
  }

  lemma RetentionStaysOk(r: Registry, act: Act)
    requires Enabled(r, act) && RetentionOk(r) && forall id :: id in r.jobs ==> JobOk(r.jobs[id])
    ensures RetentionOk(Apply(r, act))
  {
    hide Advance, SlotOk, StateOk, EventsOk, LastOf, Evicted, RetentionOk, LaneOf;
    var r' := Apply(r, act);
    if act.Run? && Marks(r.jobs[act.id].pc) {
      MarkedRetains(r, r', act.id);
    } else if act.StartJob? {
      StartedRetains(r, r', act.id);
    } else {
      hide JobOk;
      UnmarkedRetains(r, r');
    }
  }

  lemma StartedRetains(r: Registry, r': Registry, id: nat)
    requires RetentionOk(r) && id !in r.jobs
    requires id in r'.jobs && r'.jobs == r.jobs[id := r'.jobs[id]] && r'.jobs[id].records == 0
    requires r'.terminal == r.terminal && r'.history == r.history && r'.registered == r.registered + {id}
    ensures RetentionOk(r')
  {
    hide LastOf;
  }

  lemma UnmarkedRetains(r: Registry, r': Registry)
    requires RetentionOk(r) && r'.jobs.Keys == r.jobs.Keys
    requires forall id :: id in r.jobs ==> r'.jobs[id].records == r.jobs[id].records
    requires r'.terminal == r.terminal && r'.history == r.history && r'.registered == r.registered
    ensures RetentionOk(r')
  {
    hide LastOf;
  }

  // ------------------------------------------------------------------------------
  // Every run
  // ------------------------------------------------------------------------------

  lemma StepKeepsInv(r: Registry, act: Act)
    requires Inv(r) && Enabled(r, act)
    ensures Inv(Apply(r, act))
  {
    hide Enabled, Apply, JobOk, LanesOk, SlotsOk, RetentionOk;
    JobsStayOk(r, act);
    LanesStayOk(r, act);
    SlotsStayOk(r, act);
    RetentionStaysOk(r, act);
  }

  /** Any interleaving: each state follows from the one before by one enabled step. */
  ghost predicate IsRun(states: seq<Registry>, acts: seq<Act>)
  {
    && |states| == |acts| + 1 && Initial(states[0])
    && forall i :: 0 <= i < |acts| ==> Enabled(states[i], acts[i]) && states[i + 1] == Apply(states[i], acts[i])
  }

  lemma {:induction false} Reachable(states: seq<Registry>, acts: seq<Act>, n: nat)
    requires IsRun(states, acts) && n < |states|
    ensures Inv(states[n])
    ensures states[n].copyCap == states[0].copyCap && states[n].maintCap == states[0].maintCap
  {
    hide Enabled, Apply, Inv;
    if n == 0 {
      InitialInv(states[0]);
    } else {
      Reachable(states, acts, n - 1);
      StepKeepsInv(states[n - 1], acts[n - 1]);
      CapsStay(states[n - 1], acts[n - 1]);
    }
  }

  lemma CapsStay(r: Registry, act: Act)
    requires Enabled(r, act)
    ensures Apply(r, act).copyCap == r.copyCap && Apply(r, act).maintCap == r.maintCap
  {
    hide Advance;
  }

  /** The jobs of the given actions whose process is alive. */
  function LiveOf(r: Registry, actions: set<Action>): set<nat>
  {
    set id | id in r.jobs && r.jobs[id].action in actions && r.jobs[id].live
  }

  /**
   Slot safety in every interleaving: live copies never exceed the copy cap, and live checks
   and prunes together with background listings never exceed the maintenance cap.
   */
  lemma SlotSafety(states: seq<Registry>, acts: seq<Act>, n: nat)
    requires IsRun(states, acts) && n < |states|
    ensures var r := states[n];
            && (r.copyCap > 0 ==> |LiveOf(r, {Copy})| <= r.copyCap)
            && (r.maintCap > 0 ==> |LiveOf(r, {Check, Prune})| + r.warm <= r.maintCap)
  {
    hide IsRun;
    Reachable(states, acts, n);
    var r := states[n];
    if r.copyCap > 0 {
      LiveHolds(r, {Copy}, CopyLane);
    }
    if r.maintCap > 0 {
      LiveHolds(r, {Check, Prune}, MaintLane);
    }
  }

  lemma LiveHolds(r: Registry, actions: set<Action>, lane: Lane)
    requires Inv(r) && !lane.Ungated? && forall a :: a in actions ==> LaneOf(r, a) == lane
    ensures |LiveOf(r, actions)| <= |Holders(r.jobs, lane)|
  {
    hide CountsOk, StateOk, EventsOk, SlotsOk, RetentionOk;
    Cardinality(LiveOf(r, actions), Holders(r.jobs, lane));
  }

  /** The jobs of the given actions that are past their wait and not over yet. */
  function UnderWay(r: Registry, actions: set<Action>): set<nat>
  {
    set id | id in r.jobs && r.jobs[id].action in actions && !BeforeSlot(r.jobs[id].pc) && !r.jobs[id].pc.Over?
  }

  /**
   No slot is lost and no job waits for nothing: in every interleaving only copies, checks and
   prunes ever queue, and only under a cap; a queued job, or a background listing, can go on
   exactly when fewer are under way than the cap allows.
   */
  lemma SlotsAreAvailable(states: seq<Registry>, acts: seq<Act>, n: nat)
    requires IsRun(states, acts) && n < |states|
    ensures var r := states[n];
            && (forall id :: id in r.jobs && r.jobs[id].pc.Queued? ==> QueuesForRoom(r, id))
            && (r.maintCap > 0 ==> (Enabled(r, WarmAcquire) <==> |UnderWay(r, {Check, Prune})| + r.warm < r.maintCap))
  {
    hide IsRun, Inv, Enabled, UnderWay;
    Reachable(states, acts, n);
    var r := states[n];
    forall id | id in r.jobs && r.jobs[id].pc.Queued?
      ensures QueuesForRoom(r, id)
    {
      QueuedForRoom(r, id);
    }
    MaintFree(r);
  }

  /** The job queues for a lane that is gated, and can go on exactly when the lane has room. */
  predicate QueuesForRoom(r: Registry, id: nat)
    requires id in r.jobs
  {
    if r.jobs[id].action == Copy then
      r.copyCap > 0 && (Enabled(r, Run(id, true)) <==> |UnderWay(r, {Copy})| < r.copyCap)
    else
      && (r.jobs[id].action == Check || r.jobs[id].action == Prune) && r.maintCap > 0
      && (Enabled(r, Run(id, true)) <==> |UnderWay(r, {Check, Prune})| + r.warm < r.maintCap)
  }

  lemma QueuedForRoom(r: Registry, id: nat)
    requires Inv(r) && id in r.jobs && r.jobs[id].pc.Queued?
    ensures QueuesForRoom(r, id)
  {
    assert JobOk(r.jobs[id]);
    if r.jobs[id].action == Copy {
      UnderWayHolds(r, {Copy}, CopyLane);
    } else {
      UnderWayHolds(r, {Check, Prune}, MaintLane);
    }
    hide CountsOk, StateOk, EventsOk, RetentionOk, UnderWay, Holders;
  }

  lemma MaintFree(r: Registry)
    requires Inv(r)
    ensures r.maintCap > 0 ==> (Enabled(r, WarmAcquire) <==> |UnderWay(r, {Check, Prune})| + r.warm < r.maintCap)
  {
    hide JobOk, LanesOk, RetentionOk, UnderWay, Holders;
    if r.maintCap > 0 {
      UnderWayHolds(r, {Check, Prune}, MaintLane);
    }
  }

  lemma UnderWayHolds(r: Registry, actions: set<Action>, lane: Lane)
    requires Inv(r) && !lane.Ungated? && forall a :: a in actions <==> LaneOf(r, a) == lane
    ensures UnderWay(r, actions) == Holders(r.jobs, lane)
  {
    hide CountsOk, StateOk, EventsOk, SlotsOk, RetentionOk;
    assert forall id :: id in r.jobs ==> JobOk(r.jobs[id]);
  }

  /**
   Job lifecycle: at any point of any run a job has been recorded terminal at most once, has
   run its cleanup at most once and emitted at most one terminal event; when its goroutine is
   over each has happened exactly once, the event names the stored state, and the slot it
   took, if any, has been returned once.
   */
  lemma Lifecycle(states: seq<Registry>, acts: seq<Act>, n: nat, id: nat)
    requires IsRun(states, acts) && n < |states| && id in states[n].jobs
    ensures var j := states[n].jobs[id];
            && j.records <= 1 && j.cleanups <= 1 && |TerminalEvents(j.events)| <= 1 && j.released <= j.acquired <= 1
            && (j.records == 1 ==> Settled(j.state) && j.cleanups == 1)
            && (TerminalEvents(j.events) != [] ==> TerminalEvents(j.events) == [TerminalEvent(j.state)])
            && (j.pc.Over? ==>
                  && j.records == 1 && j.cleanups == 1 && TerminalEvents(j.events) == [TerminalEvent(j.state)]
                  && j.released == j.acquired && !j.live)
  {
    hide IsRun, TerminalEvents;
    Reachable(states, acts, n);
    assert JobOk(states[n].jobs[id]);
  }

  lemma DecidedStays(r: Registry, act: Act, id: nat)
    requires Inv(r) && Enabled(r, act) && id in r.jobs && Decided(r.jobs[id].pc)
    ensures var r' := Apply(r, act);
            && id in r'.jobs && Decided(r'.jobs[id].pc) && r'.jobs[id].state == r.jobs[id].state
            && TerminalEvents(r.jobs[id].events) <= TerminalEvents(r'.jobs[id].events)
  {
    hide TerminalEvents, LanesOk, SlotsOk, RetentionOk, SlotOk, CountsOk, EventsOk, Evicted, LastOf;
    assert JobOk(r.jobs[id]);
    if act.Run? && act.id == id {
      DecidedAdvance(r.jobs[id], act.branch);
    }
  }

  lemma DecidedAdvance(j: Job, branch: bool)
    requires StateOk(j) && Decided(j.pc)
    ensures var j' := Advance(j, branch);
            Decided(j'.pc) && j'.state == j.state && TerminalEvents(j.events) <= TerminalEvents(j'.events)
  {
    hide TerminalEvents, StateOk;
    match j.pc
    case FinEmit => TerminalEventsNext(j.events, EvCancelled);
    case FailEmit => TerminalEventsNext(j.events, EvFailed);
    case ExitEmit(was) => TerminalEventsNext(j.events, TerminalEvent(was));
    case _ =>
  }

  /** A terminal state, once written, is final, whatever cancellations race with it. */
  lemma {:induction false} TerminalStateIsFinal(states: seq<Registry>, acts: seq<Act>, n: nat, m: nat, id: nat)
    requires IsRun(states, acts) && n <= m < |states|
    requires id in states[n].jobs && Decided(states[n].jobs[id].pc)
    ensures id in states[m].jobs && Decided(states[m].jobs[id].pc)
    ensures states[m].jobs[id].state == states[n].jobs[id].state
    decreases m
  {
    hide Inv, Decided, Apply, Enabled;
    if m > n {
      TerminalStateIsFinal(states, acts, n, m - 1, id);
      Reachable(states, acts, m - 1);
      DecidedStays(states[m - 1], acts[m - 1], id);
    }
  }

  /**
   Retention: the registry answers for every job that is not recorded terminal and for exactly
   the last fifty recorded ones, in the order they were recorded.
   */
  lemma RegistryRetains(states: seq<Registry>, acts: seq<Act>, n: nat)
    requires IsRun(states, acts) && n < |states|
    ensures var r := states[n];
            && (if |r.history| <= 50 then r.terminal == r.history else r.terminal == r.history[|r.history| - 50..])
            && Distinct(r.history)
            && (forall id :: id in r.history <==> id in r.jobs && r.jobs[id].records == 1)
            && (forall id :: id in r.registered <==> id in r.terminal || (id in r.jobs && r.jobs[id].records == 0))
  {
    hide IsRun, Distinct, SlotOk, StateOk, EventsOk;
    Reachable(states, acts, n);
    assert forall id :: id in states[n].jobs ==> JobOk(states[n].jobs[id]);
  }

  /** When every goroutine is over and no background listing runs, every slot is free again. */
  lemma EverySlotReturned(states: seq<Registry>, acts: seq<Act>, n: nat)
    requires IsRun(states, acts) && n < |states|
    requires states[n].warm == 0 && forall id :: id in states[n].jobs ==> states[n].jobs[id].pc.Over?
    ensures states[n].copyCap > 0 ==> states[n].copyUsed == 0
    ensures states[n].maintCap > 0 ==> states[n].maintUsed == 0
  {
    hide IsRun, StateOk, EventsOk, CountsOk;
    Reachable(states, acts, n);
    var r := states[n];
    assert forall id :: id in r.jobs ==> JobOk(r.jobs[id]);
    assert Holders(r.jobs, CopyLane) == {} && Holders(r.jobs, MaintLane) == {};
  }

  // ------------------------------------------------------------------------------
  // What a successful cancel is worth
  // ------------------------------------------------------------------------------

  /** The running state has been written and the terminal one has not. */
  predicate WhileRunning(pc: Pc)
  {
    pc.Announce? || pc.Waiting? || pc.ExitLock?
  }

  /** The job left the queue by its context and was finalized without a process. */
  ghost predicate GaveUpQueue(states: seq<Registry>, acts: seq<Act>, m: nat, id: nat)
    requires m <= |acts| && |states| == |acts| + 1
  {
    exists i :: 0 <= i < m && FinalizedAt(states[i], acts[i], id)
  }

  predicate FinalizedAt(r: Registry, act: Act, id: nat)
  {
    act.Run? && act.id == id && id in r.jobs && r.jobs[id].pc.FinLock?
  }

  /** Somebody cancelled the job while it was running. */
  ghost predicate CancelledWhileRunning(states: seq<Registry>, acts: seq<Act>, m: nat, id: nat)
    requires m <= |acts| && |states| == |acts| + 1
  {
    exists i :: 0 <= i < m && CancelHitsAt(states[i], acts[i], id)
  }

  predicate CancelHitsAt(r: Registry, act: Act, id: nat)
  {
    act == CancelJob(id) && id in r.jobs && WhileRunning(r.jobs[id].pc)
  }

  /** The process ended with an error. */
  ghost predicate ExitedBadly(states: seq<Registry>, acts: seq<Act>, m: nat, id: nat)
    requires m <= |acts| && |states| == |acts| + 1
  {
    exists i :: 0 <= i < m && FailsAt(states[i], acts[i], id)
  }

  predicate FailsAt(r: Registry, act: Act, id: nat)
  {
    act == Run(id, false) && id in r.jobs && r.jobs[id].pc.Waiting?
  }

  /** No terminal or running state has been written yet. */
  predicate Early(pc: Pc)
  {
    pc.Queued? || pc.FinLock? || pc.Spawning? || pc.Started? || pc.FailCleanup? || pc.FailLock?
  }

  /** Somebody cancelled the job before it was running. */
  ghost predicate CancelledEarly(states: seq<Registry>, acts: seq<Act>, m: nat, id: nat)
    requires m <= |acts| && |states| == |acts| + 1
  {
    exists i :: 0 <= i < m && CancelsEarlyAt(states[i], acts[i], id)
  }

  predicate CancelsEarlyAt(r: Registry, act: Act, id: nat)
  {
    act == CancelJob(id) && id in r.jobs && Early(r.jobs[id].pc)
  }

  /** The process was started. */
  ghost predicate Spawned(states: seq<Registry>, acts: seq<Act>, m: nat, id: nat)
    requires m <= |acts| && |states| == |acts| + 1
  {
    exists i :: 0 <= i < m && SpawnsAt(states[i], acts[i], id)
  }

  predicate SpawnsAt(r: Registry, act: Act, id: nat)
  {
    act == Run(id, true) && id in r.jobs && r.jobs[id].pc.Spawning?
  }

  /** The process ended well. */
  ghost predicate ExitedWell(states: seq<Registry>, acts: seq<Act>, m: nat, id: nat)
    requires m <= |acts| && |states| == |acts| + 1
  {
    exists i :: 0 <= i < m && SucceedsAt(states[i], acts[i], id)
  }

  predicate SucceedsAt(r: Registry, act: Act, id: nat)
  {
    act == Run(id, true) && id in r.jobs && r.jobs[id].pc.Waiting?
  }

  /** What has happened to a job so far, as far as its last state and its events depend on it. */
  datatype Fate = Fate(early: bool, finalized: bool, hit: bool, failed: bool, spawned: bool, well: bool)

  const NO_FATE := Fate(false, false, false, false, false, false)

  predicate OfFateState(j: Job, f: Fate)
  {
    if Early(j.pc) then
      f == NO_FATE.(early := f.early, spawned := j.pc.Started?) && j.state == if f.early then Cancelled else Pending
    else if WhileRunning(j.pc) then
      && !f.finalized && f.spawned && j.state == (if f.hit then Cancelled else Running)
      && f.well == (j.pc == ExitLock(true)) && f.failed == (j.pc == ExitLock(false))
    else
      && (j.state == Completed <==> f.well)
      && (j.state == Cancelled <==> f.finalized || (f.hit && f.failed))
      && (f.spawned ==> (f.failed <==> !f.well))
      && (!f.spawned ==> !f.failed && !f.well)
      && (f.finalized ==> !f.spawned)
  }

  /** The events so far: the start once the running state was announced, and the terminal one. */
  predicate OfFateEvents(j: Job, f: Fate)
  {
    j.events == Journal(f.spawned && !ToAnnounce(j.pc), Emitted(j.pc), j.state)
  }

  function Journal(started: bool, ended: bool, s: JobState): seq<JobEvent>
  {
    (if started then [EvStarted] else []) + (if ended then [TerminalEvent(s)] else [])
  }

  predicate OfFate(j: Job, f: Fate)
  {
    OfFateState(j, f) && OfFateEvents(j, f)
  }

  function FateNext(r: Registry, act: Act, id: nat, f: Fate): Fate
  {
    Fate(f.early || CancelsEarlyAt(r, act, id), f.finalized || FinalizedAt(r, act, id), f.hit || CancelHitsAt(r, act, id), f.failed || FailsAt(r, act, id),
         f.spawned || SpawnsAt(r, act, id), f.well || SucceedsAt(r, act, id))
  }

  ghost function FateAt(states: seq<Registry>, acts: seq<Act>, m: nat, id: nat): Fate
    requires m <= |acts| && |states| == |acts| + 1
  {
    Fate(CancelledEarly(states, acts, m, id), GaveUpQueue(states, acts, m, id),
         CancelledWhileRunning(states, acts, m, id), ExitedBadly(states, acts, m, id),
         Spawned(states, acts, m, id), ExitedWell(states, acts, m, id))
  }

  lemma FateGrows(states: seq<Registry>, acts: seq<Act>, m: nat, id: nat)
    requires m < |acts| && |states| == |acts| + 1
    ensures FateAt(states, acts, m + 1, id) == FateNext(states[m], acts[m], id, FateAt(states, acts, m, id))
  {
    hide CancelsEarlyAt, FinalizedAt, CancelHitsAt, FailsAt, SpawnsAt, SucceedsAt;
  }

  /** What a step of the goroutine adds to the fate of its job. */
  function FateAfter(j: Job, branch: bool, f: Fate): Fate
  {
    Fate(f.early, f.finalized || j.pc.FinLock?, f.hit, f.failed || (j.pc.Waiting? && !branch),
         f.spawned || (j.pc.Spawning? && branch), f.well || (j.pc.Waiting? && branch))
  }

  lemma EarlyOfFate(j: Job, branch: bool, f: Fate)
    requires Early(j.pc) && OfFateState(j, f)
    ensures OfFateState(Advance(j, branch), FateAfter(j, branch, f))
  {
  }

  lemma RunningOfFate(j: Job, branch: bool, f: Fate)
    requires WhileRunning(j.pc) && OfFateState(j, f)
    ensures OfFateState(Advance(j, branch), FateAfter(j, branch, f))
  {
  }

  lemma AdvanceOfFateState(j: Job, branch: bool, f: Fate)
    requires OfFateState(j, f)
    ensures OfFateState(Advance(j, branch), FateAfter(j, branch, f))
  {
    if Early(j.pc) {
      EarlyOfFate(j, branch, f);
      hide Advance;
    } else if WhileRunning(j.pc) {
      RunningOfFate(j, branch, f);
      hide Advance;
    } else {
      DecidedState(j, branch);
      hide Advance;
    }
  }

  predicate Emits(pc: Pc)
  {
    pc.Announce? || pc.FinEmit? || pc.FailEmit? || pc.ExitEmit?
  }

  lemma SilentStep(j: Job, branch: bool)
    requires !Emits(j.pc)
    ensures var j' := Advance(j, branch);
            j'.events == j.events && Emitted(j'.pc) == Emitted(j.pc) && (Emitted(j.pc) ==> j'.state == j.state)
  {
  }

  predicate ToAnnounce(pc: Pc)
  {
    pc.Started? || pc.Announce?
  }

  lemma StartsStep(j: Job, branch: bool)
    requires !Emits(j.pc)
    ensures ToAnnounce(Advance(j, branch).pc) <==> j.pc.Started? || (j.pc.Spawning? && branch)
  {
  }

  lemma NotStartedYet(j: Job, f: Fate)
    requires OfFateState(j, f) && j.pc.Spawning?
    ensures !f.spawned
  {
  }

  lemma EmittingStep(j: Job, branch: bool, f: Fate)
    requires OfFateState(j, f) && StateOk(j) && Emits(j.pc)
    ensures var j', f' := Advance(j, branch), FateAfter(j, branch, f);
            && f' == f && j'.state == j.state && !ToAnnounce(j'.pc)
            && j'.events == j.events + [if j.pc.Announce? then EvStarted else TerminalEvent(j.state)]
            && !Emitted(j.pc) && (Emitted(j'.pc) <==> !j.pc.Announce?) && (j.pc.Announce? ==> f.spawned)
  {
  }

  lemma AdvanceOfFateEvents(j: Job, branch: bool, f: Fate)
    requires OfFateState(j, f) && OfFateEvents(j, f) && StateOk(j)
    ensures OfFateEvents(Advance(j, branch), FateAfter(j, branch, f))
  {
    hide Advance, StateOk, OfFateState, TerminalEvent, Emitted;
    if Emits(j.pc) {
      EmittingStep(j, branch, f);
    } else {
      SilentStep(j, branch);
      StartsStep(j, branch);
      if j.pc.Spawning? {
        NotStartedYet(j, f);
      }
    }
  }

  lemma AdvanceOfFate(j: Job, branch: bool, f: Fate)
    requires OfFate(j, f) && StateOk(j)
    ensures OfFate(Advance(j, branch), FateAfter(j, branch, f))
  {
    hide OfFateState, OfFateEvents, Advance, FateAfter, StateOk;
    AdvanceOfFateState(j, branch, f);
    AdvanceOfFateEvents(j, branch, f);
  }

  lemma DecidedState(j: Job, branch: bool)
    requires Decided(j.pc)
    ensures Decided(Advance(j, branch).pc) && Advance(j, branch).state == j.state
  {
  }

  /** A job the step does not touch, or only marks as cancelled, or advances, keeps to its fate. */
  lemma StepOfFate(r: Registry, act: Act, id: nat, f: Fate)
    requires Inv(r) && Enabled(r, act) && id in r.jobs && OfFate(r.jobs[id], f)
    ensures id in Apply(r, act).jobs && OfFate(Apply(r, act).jobs[id], FateNext(r, act, id, f))
  {
    hide LanesOk, SlotsOk, RetentionOk, SlotOk, CountsOk, StateOk, EventsOk, Evicted, LastOf, Advance, OfFate, Early, WhileRunning;
    assert JobOk(r.jobs[id]);
    if act.Run? && act.id == id {
      AdvanceOfFate(r.jobs[id], act.branch, f);
    } else if act == CancelJob(id) {
      CancelOfFate(r.jobs[id], f);
    } else if act == ContextDone(id) {
      ContextOfFate(r.jobs[id], f);
    }
  }

  lemma ContextOfFate(j: Job, f: Fate)
    requires OfFate(j, f)
    ensures OfFate(j.(ctxDone := true), f)
  {
  }

  /** What a cancel does to a job, and to its fate. */
  lemma CancelOfFate(j: Job, f: Fate)
    requires OfFate(j, f) && StateOk(j)
    ensures var j' := if j.state == Running || j.state == Pending then j.(state := Cancelled) else j;
            OfFate(j', f.(early := f.early || Early(j.pc), hit := f.hit || WhileRunning(j.pc)))
  {
  }

  lemma NothingBeforeStart(states: seq<Registry>, acts: seq<Act>, m: nat, id: nat)
    requires IsRun(states, acts) && m <= |acts| && id !in states[m].jobs
    ensures FateAt(states, acts, m, id) == NO_FATE
  {
    forall i | 0 <= i < m
      ensures id !in states[i].jobs
    {
      hide Apply, Enabled;
      if id in states[i].jobs {
        JobsStayKnown(states, acts, i, m, id);
      }
    }
  }

  lemma {:induction false} JobsStayKnown(states: seq<Registry>, acts: seq<Act>, n: nat, m: nat, id: nat)
    requires IsRun(states, acts) && n <= m <= |acts| && id in states[n].jobs
    ensures id in states[m].jobs
    decreases m
  {
    if n < m {
      JobsStayKnown(states, acts, n, m - 1, id);
      hide Advance, Evicted, LastOf;
      assert states[m] == Apply(states[m - 1], acts[m - 1]);
    }
  }

  lemma {:induction false} FateDecides(states: seq<Registry>, acts: seq<Act>, m: nat, id: nat)
    requires IsRun(states, acts) && m <= |acts| && id in states[m].jobs
    ensures OfFate(states[m].jobs[id], FateAt(states, acts, m, id))
  {
    hide FateAt, OfFate, Apply, Enabled, Inv;
    if m > 0 {
      var r, act := states[m - 1], acts[m - 1];
      FateGrows(states, acts, m - 1, id);
      Reachable(states, acts, m - 1);
      if id in r.jobs {
        FateDecides(states, acts, m - 1, id);
        StepOfFate(r, act, id, FateAt(states, acts, m - 1, id));
      } else {
        NothingBeforeStart(states, acts, m - 1, id);
        FreshFate(r, act, id);
      }
    }
  }

  lemma FreshFate(r: Registry, act: Act, id: nat)
    requires Enabled(r, act) && id !in r.jobs && id in Apply(r, act).jobs
    ensures OfFate(Apply(r, act).jobs[id], FateNext(r, act, id, NO_FATE))
  {
    hide Advance, Evicted, LastOf;
  }

  /**
   Exactly which jobs end as cancelled: those that gave up the queue, and those that were
   cancelled while the running state stood and whose process then failed. A cancel at any
   other point is overwritten.
   */
  lemma CancelledExactly(states: seq<Registry>, acts: seq<Act>, m: nat, id: nat)
    requires IsRun(states, acts) && m <= |acts| && id in states[m].jobs && states[m].jobs[id].pc.Over?
    ensures states[m].jobs[id].state == Cancelled <==>
            GaveUpQueue(states, acts, m, id) ||
            (CancelledWhileRunning(states, acts, m, id) && ExitedBadly(states, acts, m, id))
  {
    hide IsRun, GaveUpQueue, CancelledWhileRunning, ExitedBadly;
    FateDecides(states, acts, m, id);
  }

  /**
   How a job that is over ended: as completed exactly when its process ended well, as failed
   exactly when its process could not be started, or ended badly without having been cancelled
   while it ran; and its events are the start, if its process was started, and the end.
   */
  lemma EndsAsItWent(states: seq<Registry>, acts: seq<Act>, m: nat, id: nat)
    requires IsRun(states, acts) && m <= |acts| && id in states[m].jobs && states[m].jobs[id].pc.Over?
    ensures var j := states[m].jobs[id];
            && (j.state == Completed <==> ExitedWell(states, acts, m, id))
            && (j.state == Failed <==>
                  || (!Spawned(states, acts, m, id) && !GaveUpQueue(states, acts, m, id))
                  || (ExitedBadly(states, acts, m, id) && !CancelledWhileRunning(states, acts, m, id)))
            && j.events == (if Spawned(states, acts, m, id) then [EvStarted] else [])
                         + [if j.state == Completed then EvCompleted else if j.state == Cancelled then EvCancelled else EvFailed]
  {
    hide Apply, Enabled, GaveUpQueue, CancelledWhileRunning, ExitedBadly, Spawned, ExitedWell;
    FateDecides(states, acts, m, id);
    Reachable(states, acts, m);
    hide SlotOk, CountsOk, EventsOk, LanesOk, SlotsOk, RetentionOk;
    assert JobOk(states[m].jobs[id]);
  }

  /**
   What the registry shows of a job that has not ended: cancelled exactly when it was cancelled
   before it ran, and, once it runs, when it was cancelled while it did; otherwise pending and running.
   */
  lemma ShownState(states: seq<Registry>, acts: seq<Act>, m: nat, id: nat)
    requires IsRun(states, acts) && m <= |acts| && id in states[m].jobs && !Decided(states[m].jobs[id].pc)
    ensures states[m].jobs[id].state ==
            if WhileRunning(states[m].jobs[id].pc) then
              if CancelledWhileRunning(states, acts, m, id) then Cancelled else Running
            else
              if CancelledEarly(states, acts, m, id) then Cancelled else Pending
  {
    hide Apply, Enabled, CancelledEarly, CancelledWhileRunning;
    FateDecides(states, acts, m, id);
    var f := FateAt(states, acts, m, id);
    assert OfFateState(states[m].jobs[id], f);
    assert f.early == CancelledEarly(states, acts, m, id) && f.hit == CancelledWhileRunning(states, acts, m, id);
  }

  const LOST: seq<Act> :=
    [StartJob(0, Copy), CancelJob(0), ContextDone(0), Run(0, true), Run(0, false), Run(0, true), Run(0, true), Run(0, true),
     Run(0, true), Run(0, true)]

  function LostJob(pc: Pc, state: JobState, done: bool, holds: bool, released: nat, cleanups: nat, records: nat,
                   events: seq<JobEvent>): Job
  {
    Job(Copy, CopyLane, state, pc, done, holds, if holds then 1 else released, released, false, cleanups, records, events)
  }

  function LostState(j: Job, used: nat, over: seq<nat>): Registry
  {
    Registry(1, 1, used, 0, 0, map[0 := j], {0}, over, over)
  }

  function LostStates(): seq<Registry>
  {
    [Registry(1, 1, 0, 0, 0, map[], {}, [], []),
     LostState(LostJob(Queued, Pending, false, false, 0, 0, 0, []), 0, []),
     LostState(LostJob(Queued, Cancelled, false, false, 0, 0, 0, []), 0, []),
     LostState(LostJob(Queued, Cancelled, true, false, 0, 0, 0, []), 0, []),
     LostState(LostJob(Spawning, Cancelled, true, true, 0, 0, 0, []), 1, []),
     LostState(LostJob(FailCleanup, Cancelled, true, true, 0, 0, 0, []), 1, []),
     LostState(LostJob(FailLock, Cancelled, true, true, 0, 1, 0, []), 1, []),
     LostState(LostJob(FailMark, Failed, true, true, 0, 1, 0, []), 1, []),
     LostState(LostJob(FailEmit, Failed, true, true, 0, 1, 1, []), 1, [0]),
     LostState(LostJob(FailRelease, Failed, true, true, 0, 1, 1, [EvFailed]), 1, [0]),
     LostState(LostJob(Over, Failed, true, false, 1, 1, 1, [EvFailed]), 0, [0])]
  }

  /**
   A copy is cancelled while it waits for its slot, the slot becomes free at the same moment,
   and the start fails on the cancelled context: the cancel was accepted and the job ends as failed.
   */
  lemma CancelCanBeLost()
    ensures IsRun(LostStates(), LOST)
    ensures LOST[1] == CancelJob(0) && LostStates()[1].jobs[0].pc == Queued && LostStates()[2].jobs[0].state == Cancelled
    ensures LostStates()[10].jobs[0].pc.Over? && LostStates()[10].jobs[0].state == Failed
  {
    forall i | 0 <= i < |LOST|
      ensures Enabled(LostStates()[i], LOST[i]) && LostStates()[i + 1] == Apply(LostStates()[i], LOST[i])
    {
      LostStep(i);
    }
    hide Apply, Enabled;
  }

  lemma LostStep(i: nat)
    requires i < |LOST|
    ensures Enabled(LostStates()[i], LOST[i]) && LostStates()[i + 1] == Apply(LostStates()[i], LOST[i])
  {
    if i < 3 {
      LostBefore(i);
    } else if i < 5 {
      LostStart(i);
    } else if i < 7 {
      LostFails(i);
    } else if i == 7 {
      LostMark();
    } else {
      LostEnds(i);
    }
  }

  lemma LostBefore(i: nat)
    requires i < 3
    ensures Enabled(LostStates()[i], LOST[i]) && LostStates()[i + 1] == Apply(LostStates()[i], LOST[i])
  {
    hide Advance;
    assert map[][0 := LostStates()[1].jobs[0]] == LostStates()[1].jobs;
  }

  /** A step of the only job there is that does not record its end. */
  lemma RunAlone(j: Job, branch: bool, used: nat, over: seq<nat>)
    requires Enabled(LostState(j, used, over), Run(0, branch)) && !Marks(j.pc) && j.lane == CopyLane
    ensures Apply(LostState(j, used, over), Run(0, branch)) ==
            var j' := Advance(j, branch);
            LostState(j', UsedAfter(used, CopyLane, CopyLane, j.holds, j'.holds), over)
  {
    hide Advance;
    assert map[0 := j][0 := Advance(j, branch)] == map[0 := Advance(j, branch)];
  }

  lemma LostStart(i: nat)
    requires 3 <= i <= 4
    ensures Enabled(LostStates()[i], LOST[i]) && LostStates()[i + 1] == Apply(LostStates()[i], LOST[i])
  {
    hide Apply;
    if i == 3 {
      RunAlone(LostJob(Queued, Cancelled, true, false, 0, 0, 0, []), true, 0, []);
    } else {
      RunAlone(LostJob(Spawning, Cancelled, true, true, 0, 0, 0, []), false, 1, []);
    }
  }

  lemma LostFails(i: nat)
    requires 5 <= i <= 6
    ensures Enabled(LostStates()[i], LOST[i]) && LostStates()[i + 1] == Apply(LostStates()[i], LOST[i])
  {
    hide Apply;
    if i == 5 {
      RunAlone(LostJob(FailCleanup, Cancelled, true, true, 0, 0, 0, []), true, 1, []);
    } else {
      RunAlone(LostJob(FailLock, Cancelled, true, true, 0, 1, 0, []), true, 1, []);
    }
  }

  lemma LostEnds(i: nat)
    requires 8 <= i <= 9
    ensures Enabled(LostStates()[i], LOST[i]) && LostStates()[i + 1] == Apply(LostStates()[i], LOST[i])
  {
    hide Apply;
    if i == 8 {
      var none: seq<JobEvent> := [];
      assert none + [EvFailed] == [EvFailed];
      RunAlone(LostJob(FailEmit, Failed, true, true, 0, 1, 1, []), true, 1, [0]);
    } else {
      RunAlone(LostJob(FailRelease, Failed, true, true, 0, 1, 1, [EvFailed]), true, 1, [0]);
    }
  }

  lemma LostMark()
    ensures Enabled(LostStates()[7], LOST[7]) && LostStates()[8] == Apply(LostStates()[7], LOST[7])
  {
    assert [] + [0] == [0];
    assert Elems([0][..0]) == {};
    assert Evicted([0]) == {} && LastOf([0], RECENT_JOBS_RETAINED) == [0];
    hide Evicted, LastOf;
  }
}
