/** What the sweeps of the code keep: the rows of failed repos in one sweep, and quiet over any number of them. */
module WarmerRuns {
  import opened CacheModel
  import opened Sweeps
  import opened Settling
  import opened Plans
  import opened Protection
  import opened Warmer
  import opened Accounting

  // ------------------------------------------------------------------------------
  // One sweep, with whatever clients do meanwhile
  // ------------------------------------------------------------------------------

  predicate IsClient(e: Event)
  {
    e.Touch? || e.InteractivePut? || e.Drop?
  }

  /** The events that are the sweep's own. */
  function Own(events: seq<Event>): seq<Event>
  {
    if events == [] then []
    else Own(events[..|events| - 1]) + if IsClient(events[|events| - 1]) then [] else [events[|events| - 1]]
  }

  /** A sweep during which clients are served: up to `sweepEnd` their events may fall anywhere. */
  ghost predicate IsServedSweep(plan: Plan, keepN: nat, child: Key -> Child, events: seq<Event>, end: nat, aborted: bool)
  {
    && 1 <= end < |events| && events[0] == Begin(Ids(plan))
    && Warming(plan, |plan|, keepN, child, Own(events[..end]))
    && events[end] == End
    && events[end + 1..] == if aborted then [] else [Reconcile(Learned(plan)), FinalEvict(Learned(plan).failed)]
  }

  lemma {:induction false} OwnOfSweep(events: seq<Event>)
    requires forall i :: 0 <= i < |events| ==> !IsClient(events[i])
    ensures Own(events) == events
  {
    hide IsClient;
    if events != [] {
      OwnOfSweep(events[..|events| - 1]);
      assert events == events[..|events| - 1] + [events[|events| - 1]];
    }
  }

  /** A sweep that no client interrupts is one of them. */
  lemma SweepAlone(plan: Plan, keepN: nat, child: Key -> Child, events: seq<Event>, end: nat, aborted: bool)
    requires IsSweep(plan, keepN, child, events, end, aborted)
    ensures IsServedSweep(plan, keepN, child, events, end, aborted)
    ensures forall e :: e in events ==> !IsClient(e)
  {
    hide DistinctAttempts, RepoFailed, Learned;
    assert events[..end][0] == events[0];
    forall i | 0 <= i < |events|
      ensures !IsClient(events[i])
    {
      if i < end {
        assert events[..end][i] == events[i];
      } else if i > end {
        assert events[i] == events[end + 1..][i - end - 1];
      }
    }
    assert forall i :: 0 <= i < end ==> events[..end][i] == events[i];
    OwnOfSweep(events[..end]);
  }

  /** An event of the sweep's own, other than the first, is not the first of its own. */
  lemma {:induction false} OwnAt(events: seq<Event>, i: nat)
    requires 1 <= i < |events| && !IsClient(events[0]) && !IsClient(events[i])
    ensures exists j :: 1 <= j < |Own(events)| && Own(events)[j] == events[i]
  {
    var init := events[..|events| - 1];
    if i < |init| {
      OwnAt(init, i);
      var j :| 1 <= j < |Own(init)| && Own(init)[j] == init[i];
      assert Own(events)[j] == events[i];
    } else {
      OwnStarts(init);
      assert Own(events)[|Own(init)|] == events[i];
    }
  }

  lemma {:induction false} OwnStarts(events: seq<Event>)
    requires events != [] && !IsClient(events[0])
    ensures Own(events) != []
  {
    if |events| > 1 {
      OwnStarts(events[..|events| - 1]);
    }
  }

  /**
   Whoever failed, or was never finished before a cancellation, keeps all its rows, whatever
   requests are served before `sweepEnd`, except those another repo's request stores or a
   request drops.
   */
  lemma SweepProtects(cfg: Config, plan: Plan, keepN: nat, child: Key -> Child, tr: Trace, end: nat, aborted: bool,
                      r: RepoPlan)
    requires ValidPlan(plan) && tr.Valid(cfg) && IsServedSweep(plan, keepN, child, tr.events, end, aborted)
    requires r in plan
    requires RepoFailed(r) || (aborted && RepoDone(r.id) !in tr.events)
    ensures forall k :: k in tr.First().rows && tr.First().rows[k].repo == r.id && AllSpare(tr.events, r.id, k) ==>
                          Owns(tr.Last(), r.id, k, tr.First().rows[k].rowid)
  {
    assert LeavesUnknown(tr.events, r.id, end) by {
      hide Step, DistinctAttempts;
      Unfinished(plan, keepN, child, tr.events, end, aborted, r);
    }
    UnknownRepoKeepsItsRows(cfg, tr, r.id, end);
  }

  /** A sweep that no client interrupts keeps every one of those rows. */
  lemma UninterruptedSweepProtects(cfg: Config, plan: Plan, keepN: nat, child: Key -> Child, tr: Trace, end: nat,
                                   aborted: bool, r: RepoPlan)
    requires ValidPlan(plan) && tr.Valid(cfg) && IsSweep(plan, keepN, child, tr.events, end, aborted)
    requires r in plan
    requires RepoFailed(r) || (aborted && RepoDone(r.id) !in tr.events)
    ensures forall k :: k in tr.First().rows && tr.First().rows[k].repo == r.id ==>
                          Owns(tr.Last(), r.id, k, tr.First().rows[k].rowid)
  {
    hide Step, IsSweep, RepoFailed;
    SweepAlone(plan, keepN, child, tr.events, end, aborted);
    hide IsServedSweep;
    SweepProtects(cfg, plan, keepN, child, tr, end, aborted, r);
    forall k: Key
      ensures AllSpare(tr.events, r.id, k)
    {
      NoClientSpares(tr.events, r.id, k);
    }
  }

  lemma NoClientSpares(events: seq<Event>, repo: string, k: Key)
    requires forall e :: e in events ==> !IsClient(e)
    ensures AllSpare(events, repo, k)
  {
    forall i | 0 <= i < |events|
      ensures Spares(events[i], repo, k)
    {
      assert events[i] in events;
    }
  }

  lemma Unfinished(plan: Plan, keepN: nat, child: Key -> Child, events: seq<Event>, end: nat, aborted: bool, r: RepoPlan)
    requires ValidPlan(plan) && IsServedSweep(plan, keepN, child, events, end, aborted) && r in plan
    requires RepoFailed(r) || (aborted && RepoDone(r.id) !in events)
    ensures LeavesUnknown(events, r.id, end)
  {
    hide DistinctAttempts, RepoFailed, AttemptAmong, Learned, ValidStorages;
    forall i | 1 <= i < end
      ensures WhilePending(events[i], r.id)
    {
      if !IsClient(events[i]) {
        var all := events[..end];
        assert all[0] == events[0] && all[i] == events[i];
        OwnAt(all, i);
        var j :| 1 <= j < |Own(all)| && Own(all)[j] == events[i];
        NotDone(plan, keepN, child, events[i], r);
      }
    }
    LearnedFailed(plan, r);
    if !aborted {
      assert events[end + 1] == events[end + 1..][0] && events[end + 2] == events[end + 1..][1];
      assert |events| == end + 3;
    }
  }

  lemma LearnedFailed(plan: Plan, r: RepoPlan)
    requires r in plan
    ensures RepoFailed(r) ==> r.id in Learned(plan).failed
  {
    LearnedMeans(plan);
  }

  lemma NotDone(plan: Plan, keepN: nat, child: Key -> Child, e: Event, r: RepoPlan)
    requires ValidPlan(plan) && r in plan && FromRepos(plan, |plan|, keepN, child, e)
    ensures RepoFailed(r) || e != RepoDone(r.id) ==> WhilePending(e, r.id)
  {
    hide RepoFailed, AttemptAmong;
    FromReposRepo(plan, |plan|, keepN, child, e);
    if e == RepoDone(r.id) {
      var i :| 0 <= i < |plan| && FromRepo(plan[i], keepN, child, e);
      NotAnAttempt(plan[i], keepN, child, e);
      SameRepo(plan, r);
      assert plan[i] in plan;
    }
  }

  lemma NotAnAttempt(r: RepoPlan, keepN: nat, child: Key -> Child, e: Event)
    requires !e.Attempt?
    ensures !AttemptAmong(r, |r.storages|, keepN, child, e)
  {
  }

  /** Everything was vended and listed, and the listings of one storage agree on each snapshot. */
  ghost predicate Healthy(plan: Plan)
  {
    && ValidPlan(plan)
    && (forall r :: r in plan ==> !RepoFailed(r))
    && (forall r, sp, k :: r in plan && sp in r.storages && sp.listing.Some? && SeenLive(plan, k)
                           && k.storage == Alias(sp.name) && (exists s :: s in sp.listing.value && s.snap == k.snap)
                           ==> Snapshot(k.snap, k.rev) in sp.listing.value)
  }

  function WorldOf(plan: Plan, keepN: nat): World
  {
    World(Learned(plan).keep, Offered(plan, keepN))
  }

  lemma {:induction false} OfferedHas(plan: Plan, keepN: nat, i: nat, x: Candidate)
    requires i < |plan| && x in OfferedByRepo(plan[i], keepN)
    ensures x in Offered(plan, keepN)
  {
    hide OfferedByRepo;
    if i < |plan| - 1 {
      OfferedHas(plan[..|plan| - 1], keepN, i, x);
    }
  }

  lemma {:induction false} OfferedByAllHas(repo: string, sps: seq<StoragePlan>, keepN: nat, j: nat, x: Candidate)
    requires j < |sps| && x in OfferedBy(repo, sps[j], keepN)
    ensures x in OfferedByAll(repo, sps, keepN)
  {
    hide OfferedBy;
    if j < |sps| - 1 {
      OfferedByAllHas(repo, sps[..|sps| - 1], keepN, j, x);
    }
  }

  /** The newest revisions a successful listing of a vended repo shows: those with fewer than `keepN` newer ones in it. */
  ghost predicate AmongNewest(plan: Plan, keepN: nat, x: Candidate)
  {
    exists r, sp :: r in plan && r.vended && r.id == x.repo && sp in r.storages && sp.listing.Some?
                    && x.key.storage == (if sp.name == "" then "default" else sp.name)
                    && Snapshot(x.key.snap, x.key.rev) in sp.listing.value
                    && |set s | s in sp.listing.value && s.snap == x.key.snap && s.rev > x.key.rev| < keepN
  }

  /** What a sweep offers to the warmer is exactly that. */
  lemma OfferedMeans(plan: Plan, keepN: nat, x: Candidate)
    ensures x in Offered(plan, keepN) <==> AmongNewest(plan, keepN, x)
  {
    if x in Offered(plan, keepN) {
      var i := OfferedFrom(plan, keepN, x);
      var j := OfferedByAllFrom(plan[i].id, plan[i].storages, keepN, x);
      OfferedByMeans(plan[i].id, plan[i].storages[j], keepN, x);
    }
    if AmongNewest(plan, keepN, x) {
      var r, sp :| r in plan && r.vended && r.id == x.repo && sp in r.storages && sp.listing.Some?
                   && x.key.storage == (if sp.name == "" then "default" else sp.name)
                   && Snapshot(x.key.snap, x.key.rev) in sp.listing.value
                   && |set s | s in sp.listing.value && s.snap == x.key.snap && s.rev > x.key.rev| < keepN;
      var i :| 0 <= i < |plan| && plan[i] == r;
      var j :| 0 <= j < |r.storages| && r.storages[j] == sp;
      OfferedByMeans(r.id, sp, keepN, x);
      OfferedByAllHas(r.id, r.storages, keepN, j, x);
      OfferedHas(plan, keepN, i, x);
    }
  }

  lemma OfferedByMeans(repo: string, sp: StoragePlan, keepN: nat, x: Candidate)
    ensures x in OfferedBy(repo, sp, keepN) <==>
            && x.repo == repo && sp.listing.Some? && x.key.storage == (if sp.name == "" then "default" else sp.name)
            && Snapshot(x.key.snap, x.key.rev) in sp.listing.value
            && |set s | s in sp.listing.value && s.snap == x.key.snap && s.rev > x.key.rev| < keepN
  {
    if sp.listing.Some? {
      var s := Snapshot(x.key.snap, x.key.rev);
      assert NewerIn(sp.listing.value, s) == set y | y in sp.listing.value && y.snap == x.key.snap && y.rev > x.key.rev;
      assert KeyOf(x.key.storage, s) == x.key;
    }
  }

  lemma {:induction false} OfferedFrom(plan: Plan, keepN: nat, x: Candidate) returns (i: nat)
    requires x in Offered(plan, keepN)
    ensures i < |plan| && plan[i].vended && x in OfferedByAll(plan[i].id, plan[i].storages, keepN)
  {
    hide OfferedByAll;
    if x in OfferedByRepo(plan[|plan| - 1], keepN) {
      i := |plan| - 1;
    } else {
      i := OfferedFrom(plan[..|plan| - 1], keepN, x);
    }
  }

  lemma {:induction false} OfferedByAllFrom(repo: string, sps: seq<StoragePlan>, keepN: nat, x: Candidate) returns (j: nat)
    requires x in OfferedByAll(repo, sps, keepN)
    ensures j < |sps| && x in OfferedBy(repo, sps[j], keepN)
  {
    hide OfferedBy;
    if x in OfferedBy(repo, sps[|sps| - 1], keepN) {
      j := |sps| - 1;
    } else {
      j := OfferedByAllFrom(repo, sps[..|sps| - 1], keepN, x);
    }
  }

  lemma {:induction false} KeysOf(storage: string, ss: set<Snapshot>)
    ensures |set s | s in ss :: KeyOf(storage, s)| == |ss|
    decreases ss
  {
    if ss != {} {
      var x :| x in ss;
      KeysOf(storage, ss - {x});
      var rest := set s | s in ss - {x} :: KeyOf(storage, s);
      assert (set s | s in ss :: KeyOf(storage, s)) == rest + {KeyOf(storage, x)};
      assert KeyOf(storage, x) !in rest;
    }
  }

  /** The rank within a listing is the rank among all live revisions. */
  lemma RankAgrees(plan: Plan, r: RepoPlan, sp: StoragePlan, s: Snapshot)
    requires Healthy(plan) && r in plan && sp in r.storages && sp.listing.Some? && s in sp.listing.value
    ensures KeyOf(Alias(sp.name), s) in Learned(plan).keep
    ensures |NewerIn(sp.listing.value, s)| == LiveRank(Learned(plan).keep, KeyOf(Alias(sp.name), s))
  {
    var storage, live := Alias(sp.name), sp.listing.value;
    var keep, k := Learned(plan).keep, KeyOf(storage, s);
    hide Learned;
    LearnedMeans(plan);
    assert !RepoFailed(r);
    forall x | x in live
      ensures KeyOf(storage, x) in keep
    {
      assert SeenLive(plan, KeyOf(storage, x));
    }
    forall y | y in NewerLive(keep, k)
      ensures Snapshot(y.snap, y.rev) in NewerIn(live, s) && y == KeyOf(storage, Snapshot(y.snap, y.rev))
    {
      assert SeenLive(plan, y);
    }
    KeysOf(storage, NewerIn(live, s));
    assert NewerLive(keep, k) == set x | x in NewerIn(live, s) :: KeyOf(storage, x);
  }

  lemma AttemptIsClean(plan: Plan, keepN: nat, gz: Key -> nat, child: Key -> Child, e: Event)
    requires Healthy(plan) && forall k :: child(k) == Listed(gz(k))
    requires FromRepos(plan, |plan|, keepN, child, e)
    ensures Clean(WorldOf(plan, keepN), gz, e)
  {
    hide Learned, Healthy, RepoFailed, Offered, LiveRank;
    var i :| 0 <= i < |plan| && FromRepo(plan[i], keepN, child, e);
    if e.Attempt? {
      var r := plan[i];
      var j :| 0 <= j < |r.storages| && AttemptFor(r.id, r.storages[j], keepN, child, e);
      var sp := r.storages[j];
      var s := Snapshot(e.key.snap, e.key.rev);
      assert KeyOf(Alias(sp.name), s) == e.key;
      RankAgrees(plan, r, sp, s);
      OfferedByAllHas(r.id, r.storages, keepN, j, Candidate(e.repo, e.key));
      OfferedHas(plan, keepN, i, Candidate(e.repo, e.key));
    }
  }

  lemma HealthyLearned(plan: Plan)
    requires Healthy(plan)
    ensures Learned(plan).failed == {}
  {
    LearnedMeans(plan);
  }

  /** A completed sweep over a healthy plan is one of the sweeps the settling theorem speaks about. */
  lemma SweepIsClean(cfg: Config, plan: Plan, keepN: nat, gz: Key -> nat, child: Key -> Child, tr: Trace, end: nat)
    requires Healthy(plan) && forall k :: child(k) == Listed(gz(k))
    requires tr.Valid(cfg) && IsSweep(plan, keepN, child, tr.events, end, false)
    ensures CleanSweep(cfg, WorldOf(plan, keepN), gz, tr)
  {
    var w, events := WorldOf(plan, keepN), tr.events;
    hide Step, Healthy, FromRepos, Clean, Learned;
    HealthyLearned(plan);
    SweepEnding(events, end, plan);
    forall i | 0 <= i < |events|
      ensures Clean(w, gz, events[i])
    {
      CleanEnds(plan, keepN, gz);
      if i < end {
        assert events[..end][i] == events[i];
        if i >= 1 {
          AttemptIsClean(plan, keepN, gz, child, events[i]);
        }
      }
    }
    DistinctPrefix(events, end);
    NonePendingAtTheEnd(cfg, tr, end);
  }

  lemma SweepEnding(events: seq<Event>, end: nat, plan: Plan)
    requires end < |events| && Learned(plan).failed == {}
    requires events[end + 1..] == [Reconcile(Learned(plan)), FinalEvict(Learned(plan).failed)]
    ensures |events| == end + 3 && events[end + 1] == Reconcile(Learned(plan)) && events[end + 2] == FinalEvict({})
  {
    hide Learned;
    assert events[end + 1] == events[end + 1..][0] && events[end + 2] == events[end + 1..][1];
  }

  lemma CleanEnds(plan: Plan, keepN: nat, gz: Key -> nat)
    ensures var w := WorldOf(plan, keepN);
            && Clean(w, gz, Begin(Ids(plan))) && Clean(w, gz, End)
            && Clean(w, gz, Reconcile(Learned(plan))) && Clean(w, gz, FinalEvict({}))
  {
  }

  lemma DistinctPrefix(events: seq<Event>, end: nat)
    requires end <= |events| && DistinctAttempts(events[..end])
    requires forall i :: end <= i < |events| ==> !events[i].Attempt?
    ensures DistinctAttempts(events)
  {
    forall i, j | 0 <= i < j < |events| && events[i].Attempt? && events[j].Attempt?
      ensures events[i].repo != events[j].repo || events[i].key != events[j].key
    {
      assert events[..end][i] == events[i] && events[..end][j] == events[j];
    }
  }

  lemma NonePendingAtTheEnd(cfg: Config, tr: Trace, end: nat)
    requires tr.Valid(cfg) && |tr.events| == end + 3 && tr.events[end] == End && tr.events[end + 1].Reconcile?
    ensures tr.states[end + 2].pending == {}
  {
    hide Evicts, Stores, Wanted, Puts;
    assert Step(cfg, tr.states[end], tr.events[end], tr.states[end + 1]);
    assert Step(cfg, tr.states[end + 1], tr.events[end + 1], tr.states[end + 2]);
  }

  /** One completed sweep and where its trace reaches `sweepEnd`. */
  datatype Completed = Completed(trace: Trace, end: nat)

  ghost predicate IsCompleted(cfg: Config, plan: Plan, keepN: nat, child: Key -> Child, s: Completed)
  {
    s.trace.Valid(cfg) && IsSweep(plan, keepN, child, s.trace.events, s.end, false)
  }

  ghost predicate IsRun(cfg: Config, plan: Plan, keepN: nat, child: Key -> Child, run: seq<Completed>)
  {
    && (forall i :: 0 <= i < |run| ==> IsCompleted(cfg, plan, keepN, child, run[i]))
    && (forall i :: 0 < i < |run| ==> run[i].trace.First() == run[i - 1].trace.Last())
  }

  function Traces(run: seq<Completed>): seq<Trace>
  {
    seq(|run|, i requires 0 <= i < |run| => run[i].trace)
  }

  /** The repo is known and its listings do not show the storage. */
  ghost predicate LeftBehind(plan: Plan, repo: string, storage: string)
  {
    exists r :: r in plan && r.id == repo && !ListedOk(r, storage)
  }

  /** Newer rows that are no longer live, of known repos that no longer list the storage. */
  ghost function Strays(plan: Plan, t: Table, k: Key): set<Key>
  {
    set x | x in Crowd(Learned(plan).keep, t, k) && LeftBehind(plan, t[x].repo, x.storage)
  }

  /** Even counting its strays the revision is inside the warm window. */
  ghost predicate RoomDespiteStrays(cfg: Config, plan: Plan, t: Table, k: Key)
  {
    cfg.maxBytes <= 0 || |Strays(plan, t, k)| + LiveRank(Learned(plan).keep, k) < cfg.warmKeepN
  }

  ghost predicate WindowHolds(cfg: Config, plan: Plan, keepN: nat, t: Table)
  {
    forall c :: c in Candidates(cfg, WorldOf(plan, keepN)) ==> RoomDespiteStrays(cfg, plan, t, c.key)
  }

  /** On a healthy plan the strays are exactly what the sweep does not judge. */
  lemma StraysAreUnjudged(plan: Plan, t: Table, k: Key)
    requires Healthy(plan) && k in Learned(plan).keep
    ensures Strays(plan, t, k) == Unjudged(Learned(plan), Learned(plan).keep, t, k)
  {
    var st := Learned(plan);
    LearnedMeans(plan);
    HealthyLearned(plan);
    hide Learned, Healthy, RepoFailed;
    LiveStorageSwept(plan, st, k);
    forall x | x in Crowd(st.keep, t, k)
      ensures st.Judges(t[x].repo, x.storage) <==> !LeftBehind(plan, t[x].repo, x.storage)
    {
      if t[x].repo in st.known {
        var r :| r in plan && r.id == t[x].repo;
        KnownPlan(plan, r);
      }
    }
  }

  lemma RoomOnPlan(cfg: Config, plan: Plan, t: Table, k: Key)
    requires Healthy(plan) && k in Learned(plan).keep && RoomDespiteStrays(cfg, plan, t, k)
    ensures RoomOnceJudged(cfg, Learned(plan), Learned(plan).keep, t, k)
  {
    hide Learned, Healthy;
    StraysAreUnjudged(plan, t, k);
  }

  lemma WindowOnPlan(cfg: Config, plan: Plan, keepN: nat, t: Table)
    requires Healthy(plan) && WindowHolds(cfg, plan, keepN, t)
    ensures RoomyOnceJudged(cfg, Learned(plan), WorldOf(plan, keepN), t)
  {
    hide Learned, Healthy, RoomDespiteStrays, RoomOnceJudged;
    forall c | c in Candidates(cfg, WorldOf(plan, keepN))
      ensures RoomOnceJudged(cfg, Learned(plan), Learned(plan).keep, t, c.key)
    {
      RoomOnPlan(cfg, plan, t, c.key);
    }
  }

  lemma KnownPlan(plan: Plan, r: RepoPlan)
    requires Healthy(plan) && r in plan
    ensures forall x :: x in plan && x.id == r.id ==> x == r
  {
    SameRepo(plan, r);
  }

  lemma LiveStorageSwept(plan: Plan, st: SweepState, x: Key)
    requires Means(st, plan) && x in st.keep
    ensures x.storage in st.sweptStorage
  {
    assert SeenLive(plan, x);
    var r, sp :| r in plan && r.vended && sp in r.storages && Alias(sp.name) == x.storage
                 && sp.listing.Some? && Snapshot(x.snap, x.rev) in sp.listing.value;
    assert ListedOk(r, x.storage);
  }

  lemma CompletedReconciles(cfg: Config, plan: Plan, keepN: nat, child: Key -> Child, s: Completed)
    requires IsCompleted(cfg, plan, keepN, child, s)
    ensures Reconciles(s.trace.events, Learned(plan))
  {
    assert s.trace.events[s.end + 1] == s.trace.events[s.end + 1..][0];
  }

  /**
   Settling, for the sweeps the code performs: on a healthy plan that does not change, any
   number of completed sweeps list at most 2n^2 + 2n times, for n the revisions inside the
   warm window that some repo may list. Pruned revisions may be cached at the start; only
   strays, newer than a live revision and enough to push it out of the window, are excluded.
   */
  lemma WarmerSettles(cfg: Config, plan: Plan, keepN: nat, gz: Key -> nat, child: Key -> Child, run: seq<Completed>)
    requires Healthy(plan) && forall k :: child(k) == Listed(gz(k))
    requires IsRun(cfg, plan, keepN, child, run)
    requires run != [] ==> WindowHolds(cfg, plan, keepN, run[0].trace.First().rows)
    ensures var n := |Candidates(cfg, WorldOf(plan, keepN))|;
            RunListings(Traces(run)) <= 2 * n * n + 2 * n
  {
    RunIsClean(cfg, plan, keepN, gz, child, run);
    if run != [] {
      WindowOnPlan(cfg, plan, keepN, run[0].trace.First().rows);
      CompletedReconciles(cfg, plan, keepN, child, run[0]);
    }
    hide Healthy, CleanRun, RoomyOnceJudged, Reconciles, WindowHolds, RunListings, Candidates, Learned;
    Settles(cfg, WorldOf(plan, keepN), gz, Traces(run), Learned(plan));
  }

  lemma RunIsClean(cfg: Config, plan: Plan, keepN: nat, gz: Key -> nat, child: Key -> Child, run: seq<Completed>)
    requires Healthy(plan) && forall k :: child(k) == Listed(gz(k))
    requires IsRun(cfg, plan, keepN, child, run)
    ensures CleanRun(cfg, WorldOf(plan, keepN), gz, Traces(run))
  {
    hide Healthy, IsSweep, Step;
    forall i | 0 <= i < |run|
      ensures CleanSweep(cfg, WorldOf(plan, keepN), gz, run[i].trace)
    {
      SweepIsClean(cfg, plan, keepN, gz, child, run[i].trace, run[i].end);
    }
  }

  /**
   What one of those sweeps has listed stays cached or marked in all the states that follow,
   if there was room for it: in the first sweep counting every newer row that is no longer
   live, in a later one only the strays of the first.
   */
  lemma WarmedStaysSettled(cfg: Config, plan: Plan, keepN: nat, gz: Key -> nat, child: Key -> Child, run: seq<Completed>,
                           a: nat, i: nat, b: nat, j: nat)
    requires Healthy(plan) && forall k :: child(k) == Listed(gz(k))
    requires IsRun(cfg, plan, keepN, child, run) && a <= b < |run|
    requires i < |run[a].trace.events| && IsListing(run[a].trace.events[i])
    requires var t, k := run[0].trace.First().rows, run[a].trace.events[i].key;
             if a == 0 then RoomFor(cfg, Learned(plan).keep, t, k) else RoomDespiteStrays(cfg, plan, t, k)
    requires j <= |run[b].trace.events| && (a < b || i < j)
    ensures var e := run[a].trace.events[i];
            Settled(cfg, gz(e.key), run[b].trace.states[j], Candidate(e.repo, e.key))
  {
    RunIsClean(cfg, plan, keepN, gz, child, run);
    hide Healthy, Step, IsSweep, Settled, RoomFor, RoomDespiteStrays, Learned;
    if a > 0 {
      RoomAtSweep(cfg, plan, keepN, gz, child, run, a, i);
    }
    ListedStaysSettled(cfg, WorldOf(plan, keepN), gz, Traces(run), a, i, b, j);
  }

  lemma RoomAtSweep(cfg: Config, plan: Plan, keepN: nat, gz: Key -> nat, child: Key -> Child, run: seq<Completed>,
                    a: nat, i: nat)
    requires Healthy(plan) && forall k :: child(k) == Listed(gz(k))
    requires IsRun(cfg, plan, keepN, child, run) && 0 < a < |run|
    requires i < |run[a].trace.events| && IsListing(run[a].trace.events[i])
    requires RoomDespiteStrays(cfg, plan, run[0].trace.First().rows, run[a].trace.events[i].key)
    ensures RoomFor(cfg, Learned(plan).keep, run[a].trace.First().rows, run[a].trace.events[i].key)
  {
    var w, k := WorldOf(plan, keepN), run[a].trace.events[i].key;
    RunIsClean(cfg, plan, keepN, gz, child, run);
    CompletedReconciles(cfg, plan, keepN, child, run[0]);
    hide Healthy, Learned, IsSweep, RoomDespiteStrays, RoomOnceJudged, RoomFor, Reconciles, CleanSweep, Step;
    assert Traces(run)[a] == run[a].trace && Traces(run)[0] == run[0].trace;
    ListedIsLive(cfg, w, gz, Traces(run)[a], i);
    RoomOnPlan(cfg, plan, run[0].trace.First().rows, k);
    hide CleanRun;
    RoomLater(cfg, w, gz, Traces(run), Learned(plan), k, a);
  }

  lemma ListedIsLive(cfg: Config, w: World, gz: Key -> nat, tr: Trace, i: nat)
    requires CleanSweep(cfg, w, gz, tr) && i < |tr.events| && IsListing(tr.events[i])
    ensures tr.events[i].key in w.keep
  {
    hide Step;
    assert Clean(w, gz, tr.events[i]);
  }

  // ------------------------------------------------------------------------------
  // What a sweep achieves
  // ------------------------------------------------------------------------------

  /**
   The warmer warms: a completed sweep over a healthy plan that attempted all it was offered
   leaves every offered revision that was within the pin depth when its turn came, and for which
   there was room, cached or marked; and settled if it was listed.
   */
  lemma WarmerWarms(cfg: Config, plan: Plan, keepN: nat, gz: Key -> nat, child: Key -> Child, s: Completed, x: Candidate)
    requires Healthy(plan) && forall k :: child(k) == Listed(gz(k))
    requires IsCompleted(cfg, plan, keepN, child, s) && Attempted(s.trace.events[..s.end]) == Offered(plan, keepN)
    requires x in Offered(plan, keepN) && RoomFor(cfg, Learned(plan).keep, s.trace.First().rows, x.key)
    ensures exists i: nat :: AttemptsAt(s.trace.events, x, i)
    ensures forall i: nat :: AttemptsAt(s.trace.events, x, i) ==> WarmedAt(cfg, gz(x.key), s.trace, x, i)
  {
    var w := WorldOf(plan, keepN);
    SweepIsClean(cfg, plan, keepN, gz, child, s.trace, s.end);
    AttemptedSomewhere(s.trace.events, s.end, x);
    hide Healthy, IsSweep, Offered, Learned, Attempted, RoomFor, WarmedAt, CleanSweep, Step;
    forall i: nat | AttemptsAt(s.trace.events, x, i)
      ensures WarmedAt(cfg, gz(x.key), s.trace, x, i)
    {
      SweepAccounts(cfg, w, gz, s.trace, x, i);
    }
  }

  lemma AttemptedSomewhere(events: seq<Event>, end: nat, x: Candidate)
    requires end <= |events| && x in Attempted(events[..end])
    ensures exists i: nat :: AttemptsAt(events, x, i)
  {
    var e :| e in events[..end] && e.Attempt? && x == Candidate(e.repo, e.key);
    var i: nat :| i < end && events[..end][i] == e;
    assert AttemptsAt(events, x, i);
  }

  /**
   Limits that change let marked revisions back in: in a completed sweep over a healthy plan that
   attempted all it was offered, a revision that the sweep found marked, and that its repo had not
   cached, is listed exactly when at its turn it is within the pin depth, not cached, and the
   marker was left under a limit that is not today's, or for lack of room that there is now. If
   its listing fits it is cached after its turn.
   */
  lemma ChangedLimitsReadmit(cfg: Config, plan: Plan, keepN: nat, gz: Key -> nat, child: Key -> Child, s: Completed,
                             x: Candidate, m: Marker)
    requires Healthy(plan) && forall k :: child(k) == Listed(gz(k))
    requires IsCompleted(cfg, plan, keepN, child, s) && Attempted(s.trace.events[..s.end]) == Offered(plan, keepN)
    requires x in Offered(plan, keepN) && Marked(s.trace.First(), x, m) && !OwnRow(s.trace.First(), x)
    ensures exists i: nat :: AttemptsAt(s.trace.events, x, i)
    ensures forall i: nat :: AttemptsAt(s.trace.events, x, i) ==> ReadmittedAt(cfg, gz(x.key), s.trace, x, m, i)
  {
    var w := WorldOf(plan, keepN);
    SweepIsClean(cfg, plan, keepN, gz, child, s.trace, s.end);
    AttemptedSomewhere(s.trace.events, s.end, x);
    hide Healthy, IsSweep, Offered, Learned, Attempted, ReadmittedAt, CleanSweep, Step, Marked, OwnRow;
    forall i: nat | AttemptsAt(s.trace.events, x, i)
      ensures ReadmittedAt(cfg, gz(x.key), s.trace, x, m, i)
    {
      SweepReadmits(cfg, w, gz, s.trace, x, m, i);
    }
  }

  /** A revision above the row cap is not listed again while its marker stands, also when the cap is switched off. */
  lemma NoRowCapReadmitsNothing(cfg: Config, plan: Plan, keepN: nat, gz: Key -> nat, child: Key -> Child, s: Completed,
                                x: Candidate, m: Marker, i: nat)
    requires Healthy(plan) && forall k :: child(k) == Listed(gz(k))
    requires IsCompleted(cfg, plan, keepN, child, s) && AttemptsAt(s.trace.events, x, i)
    requires Marked(s.trace.First(), x, m) && !OwnRow(s.trace.First(), x)
    requires m.reason.RowCap? && cfg.rowMax <= 0
    ensures !s.trace.events[i].listed
  {
    SweepIsClean(cfg, plan, keepN, gz, child, s.trace, s.end);
    hide Healthy, IsSweep, CleanSweep, Step, Marked, OwnRow, WithinPin, FitsNow;
    SweepReadmits(cfg, WorldOf(plan, keepN), gz, s.trace, x, m, i);
  }
}
