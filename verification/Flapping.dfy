/**
 Where settling ends. Two runs on plans without failures that list once in every sweep for
 ever: one from a row nobody judges, one for a revision whose stream crosses the ceiling late.
 */
module Flapping {
  import opened Collections
  import opened Options
  import opened CacheModel
  import opened Eviction
  import opened Sweeps
  import opened Settling
  import opened Plans
  import opened Warmer
  import opened WarmerRuns

  // ------------------------------------------------------------------------------
  // A sweep that comes back to where it started
  // ------------------------------------------------------------------------------

  lemma {:induction false} RepeatedListings(tr: Trace, n: nat)
    ensures RunListings(seq(n, _ => tr)) == n * Listings(tr.events)
  {
    if n > 0 {
      RepeatedListings(tr, n - 1);
      assert seq(n, _ => tr)[1..] == seq(n - 1, _ => tr);
      assert n * Listings(tr.events) == (n - 1) * Listings(tr.events) + Listings(tr.events);
    }
  }

  lemma Repeats(cfg: Config, plan: Plan, keepN: nat, child: Key -> Child, s: Completed, n: nat)
    requires IsCompleted(cfg, plan, keepN, child, s) && s.trace.First() == s.trace.Last()
    ensures IsRun(cfg, plan, keepN, child, seq(n, _ => s))
    ensures RunListings(Traces(seq(n, _ => s))) == n * Listings(s.trace.events)
  {
    hide IsSweep, Step;
    RepeatedListings(s.trace, n);
    assert Traces(seq(n, _ => s)) == seq(n, _ => s.trace);
  }

  // ------------------------------------------------------------------------------
  // Strays that fill the window
  // ------------------------------------------------------------------------------

  const LIVE := Key("snap", "far", 1)
  const LISTING := RepoPlan("repo", true, [StoragePlan("far", Some([Snapshot("snap", 1)]))])

  /** `other` is known and no longer has the storage its cached rows are of. */
  const PLAN: Plan := [RepoPlan("other", true, []), LISTING]

  function Tens(k: Key): nat { 10 }

  function ListedTens(k: Key): Child { Listed(10) }

  /** A window of `n` and a cap that holds `n` rows of ten bytes. */
  function Window(n: nat): Config
  {
    Config(10 * n, n, 0, 100)
  }

  /** `n` rows of `other`, all newer than the live revision. */
  function Orphans(n: nat): Table
  {
    if n == 0 then map[] else Orphans(n - 1)[OrphanKey(n) := Row(n, "other", 10, 0)]
  }

  function OrphanKey(n: nat): Key
  {
    Key("snap", "far", n + 1)
  }

  ghost predicate AreOrphans(n: nat, t: Table)
  {
    && (forall k :: k in t <==> SamePartition(k, LIVE) && 2 <= k.rev <= n + 1)
    && (forall k :: k in t ==> t[k] == Row(k.rev - 1, "other", 10, 0))
    && |t.Keys| == n && Bytes(t) == 10 * n
  }

  lemma {:induction false} OrphansAre(n: nat)
    ensures AreOrphans(n, Orphans(n))
  {
    hide AreOrphans;
    if n == 0 {
      NoOrphans();
    } else {
      OrphansAre(n - 1);
      OneMoreOrphan(n - 1, Orphans(n - 1));
    }
  }

  lemma NoOrphans()
    ensures AreOrphans(0, map[])
  {
    assert Weights(map[]) == map[];
  }

  lemma OneMoreOrphan(n: nat, t: Table)
    requires AreOrphans(n, t)
    ensures AreOrphans(n + 1, t[OrphanKey(n + 1) := Row(n + 1, "other", 10, 0)])
  {
    hide Bytes;
    var k := OrphanKey(n + 1);
    var t' := t[k := Row(n + 1, "other", 10, 0)];
    BytesAdd(t, k, Row(n + 1, "other", 10, 0));
    assert t'.Keys == t.Keys + {k};
    forall x: Key
      ensures x in t' <==> SamePartition(x, LIVE) && 2 <= x.rev <= n + 2
    {
      assert x == k <==> SamePartition(x, LIVE) && x.rev == n + 2;
    }
  }

  function Stuck(n: nat, pending: set<string>): Store
  {
    Store(Orphans(n), map[], pending, n)
  }

  function StuckEvents(): seq<Event>
  {
    [Begin({"other", "repo"}), RepoDone("other"), Attempt("repo", LIVE, 0, true, Listed(10)), RepoDone("repo"),
     End, Reconcile(Learned(PLAN)), FinalEvict({})]
  }

  function StuckStates(n: nat): seq<Store>
  {
    var both, one, none := Stuck(n, {"other", "repo"}), Stuck(n, {"repo"}), Stuck(n, {});
    [none, both, one, one, none, none, none, none]
  }

  lemma LearnsThis()
    ensures Learned(PLAN) == SweepState({Target("repo", "far")}, {"far"}, {}, {"other", "repo"}, {LIVE})
  {
    var other, repo := PLAN[0], PLAN[1];
    var st := SweepState({}, {}, {}, {"other"}, {});
    assert Learned([]) == NOTHING_LEARNED;
    assert [other][..0] == [];
    assert LearnRepo(NOTHING_LEARNED, other) == st;
    assert Learned([other]) == st;
    assert PLAN[..1] == [other];
    assert repo.storages[..0] == [];
    LiveKeys();
    assert LearnStorages(st.(known := st.known + {"repo"}), "repo", repo.storages[..0]) == st.(known := {"other", "repo"});
  }

  lemma LiveKeys()
    ensures (set s | s in [Snapshot("snap", 1)] :: KeyOf("far", s)) == {LIVE}
  {
    assert KeyOf("far", Snapshot("snap", 1)) == LIVE;
    assert Snapshot("snap", 1) in [Snapshot("snap", 1)];
  }

  // One attempt: the live revision is listed, put, and evicted without a marker.

  function WithLive(t: Table, n: nat): Table
  {
    t[LIVE := Row(n + 1, "repo", 10, 0)]
  }

  lemma LiveIsDeepest(n: nat, t: Table)
    requires AreOrphans(n, t)
    ensures Rank(WithLive(t, n), LIVE) == n + 1
    ensures forall k :: k in t ==> Rank(WithLive(t, n), k) <= n
    ensures LIVE !in t && WithLive(t, n) - {LIVE} == t && WithLive(t, n).Keys == t.Keys + {LIVE}
  {
    hide Bytes, Rank;
    var all := WithLive(t, n);
    OrphansAreNewer(n, t);
    hide LIVE, AreOrphans;
    assert all.Keys == t.Keys + {LIVE};
    RanksWithLive(all, t.Keys, LIVE, n);
    assert all - {LIVE} == t;
  }

  lemma OrphansAreNewer(n: nat, t: Table)
    requires AreOrphans(n, t)
    ensures LIVE !in t && |t.Keys| == n && forall k :: k in t ==> SamePartition(k, LIVE) && k.rev > LIVE.rev
  {
    hide Bytes;
  }

  lemma RanksWithLive(all: Table, newer: set<Key>, live: Key, n: nat)
    requires all.Keys == newer + {live} && live !in newer && |newer| == n
    requires forall k :: k in newer ==> SamePartition(k, live) && k.rev > live.rev
    ensures Rank(all, live) == n + 1 && forall k :: k in newer ==> Rank(all, k) <= n
  {
    assert Newer(all, live) == newer;
    forall k | k in newer
      ensures Rank(all, k) <= n
    {
      Cardinality(Newer(all, k), newer - {k});
    }
  }

  lemma LiveOverflows(n: nat, t: Table)
    requires AreOrphans(n, t)
    ensures Bytes(WithLive(t, n)) == 10 * n + 10 && Bytes(t) == 10 * n
    ensures Within(WithLive(t, n), n) == t
  {
    LiveIsDeepest(n, t);
    hide Rank;
    BytesAdd(t, LIVE, Row(n + 1, "repo", 10, 0));
  }

  lemma PinIsWindow(n: nat, t: Table)
    requires AreOrphans(n, t)
    ensures IsPinDepth(t, n, 10 * n, n) && IsPinDepth(WithLive(t, n), n, 10 * n, n)
  {
    LiveOverflows(n, t);
    BytesSubset(Within(t, n), t);
    hide Bytes, Rank, AreOrphans;
  }

  /** The only row beyond the pin, when the others just fit, is the victim; beyond the window it leaves no marker. */
  lemma DeepestIsVictim(cfg: Config, s: Store, t: Table, live: Key, pin: int)
    requires live !in t && s.rows.Keys == t.Keys + {live} && s.rows - {live} == t && !Shielded(s, {}, live)
    requires Rank(s.rows, live) > pin && forall k :: k in t ==> Rank(s.rows, k) <= pin
    requires Bytes(s.rows) > cfg.maxBytes >= Bytes(t)
    ensures IsVictimSet(cfg, s, {}, pin, {live})
  {
    hide Rank, Bytes, Shielded;
    assert Eligible(s, {}, pin) == {live};
    assert s.rows - ({live} - {live}) == s.rows;
    assert ScansBefore(s.rows, live, live);
  }

  lemma DeepestIsUnmarked(cfg: Config, s: Store, live: Key)
    requires Rank(s.rows, live) > cfg.warmKeepN
    ensures AfterEviction(cfg, s, {live}) == s.(rows := s.rows - {live})
  {
    hide Rank;
    assert CapMarked(cfg, s.rows, {live}) == {};
    assert CapMarkers(cfg, s.rows, {live}) == map[];
  }

  lemma LiveIsEvicted(n: nat, t: Table, s: Store)
    requires n >= 1 && AreOrphans(n, t) && s.rows == WithLive(t, n) && s.fence == n
    ensures Evicts(Window(n), s, {}, s.(rows := t))
  {
    LiveIsDeepest(n, t);
    PinIsWindow(n, t);
    LiveOverflows(n, t);
    hide IsVictimSet, AfterEviction, IsPinDepth, Bytes, Rank, AreOrphans, LIVE;
    DeepestIsVictim(Window(n), s, t, LIVE, n);
    DeepestIsUnmarked(Window(n), s, LIVE);
  }

  lemma PutComesBack(n: nat, t: Table, s: Store)
    requires n >= 1 && AreOrphans(n, t) && s.rows == t && s.fence == n
    ensures Puts(Window(n), s, LIVE, "repo", 10, s)
  {
    LiveIsEvicted(n, t, s.(rows := WithLive(t, n)));
    LiveIsDeepest(n, t);
    hide Evicts, Rank, Bytes;
    assert Upserts(t, LIVE, "repo", 10, WithLive(t, n));
  }

  lemma AttemptComesBack(n: nat)
    requires n >= 1
    ensures Step(Window(n), Stuck(n, {"repo"}), Attempt("repo", LIVE, 0, true, Listed(10)), Stuck(n, {"repo"}))
  {
    OrphansAre(n);
    PinIsWindow(n, Orphans(n));
    PutComesBack(n, Orphans(n), Stuck(n, {"repo"}));
    LiveIsDeepest(n, Orphans(n));
    hide Puts, IsPinDepth, AreOrphans, Orphans;
    assert Wanted(Window(n), Stuck(n, {"repo"}), "repo", LIVE, 0);
  }

  lemma OrphansStay(n: nat)
    ensures Step(Window(n), Stuck(n, {}), Reconcile(Learned(PLAN)), Stuck(n, {}))
    ensures Step(Window(n), Stuck(n, {}), FinalEvict({}), Stuck(n, {}))
  {
    LearnsThis();
    OrphansAre(n);
    hide Orphans, Learned, Bytes;
    var s := Stuck(n, {});
    assert Reconciled(s, Learned(PLAN)) == s;
  }

  lemma BeginAgain(n: nat)
    requires n >= 1
    ensures Step(Window(n), Stuck(n, {}), Begin({"other", "repo"}), Stuck(n, {"other", "repo"}))
  {
    OrphansAre(n);
    assert OrphanKey(n) in Orphans(n);
  }

  lemma DoneOrEnded(n: nat, pending: set<string>, repo: string)
    ensures Step(Window(n), Stuck(n, pending), RepoDone(repo), Stuck(n, pending - {repo}))
    ensures Step(Window(n), Stuck(n, pending), End, Stuck(n, {}))
  {
  }

  lemma StuckSteps(n: nat, i: nat)
    requires n >= 1 && i < |StuckEvents()|
    ensures Step(Window(n), StuckStates(n)[i], StuckEvents()[i], StuckStates(n)[i + 1])
  {
    hide Step, Stuck, Learned;
    BeginAgain(n);
    AttemptComesBack(n);
    OrphansStay(n);
    DoneOrEnded(n, {"other", "repo"}, "other");
    DoneOrEnded(n, {"repo"}, "repo");
    DoneOrEnded(n, {}, "repo");
    assert {"other", "repo"} - {"other"} == {"repo"} && {"repo"} - {"repo"} == {};
  }

  lemma LiveIsNewest()
    ensures NewerIn([Snapshot("snap", 1)], Snapshot("snap", 1)) == {}
  {
  }

  lemma StuckIsAttempt(child: Key -> Child)
    ensures AttemptFor("repo", LISTING.storages[0], 1, child, Attempt("repo", LIVE, 0, true, child(LIVE)))
  {
    LiveIsNewest();
    assert Snapshot("snap", 1) in [Snapshot("snap", 1)];
  }

  lemma NobodyFailed(r: RepoPlan)
    requires r in PLAN
    ensures !RepoFailed(r)
  {
  }

  lemma StuckIsSweep()
    ensures IsSweep(PLAN, 1, ListedTens, StuckEvents(), 4, false)
  {
    var events := StuckEvents();
    LearnsThis();
    hide Learned;
    assert Ids(PLAN) == {"other", "repo"};
    forall i | 1 <= i < 4
      ensures FromRepos(PLAN, 2, 1, ListedTens, events[i])
    {
      NobodyFailed(PLAN[0]);
      NobodyFailed(PLAN[1]);
      hide RepoFailed;
      if i == 1 {
        assert FromRepo(PLAN[0], 1, ListedTens, events[i]);
      } else if i == 2 {
        StuckIsAttempt(ListedTens);
        hide AttemptFor;
        assert AttemptAmong(PLAN[1], 1, 1, ListedTens, events[i]);
        assert FromRepo(PLAN[1], 1, ListedTens, events[i]);
      } else {
        assert FromRepo(PLAN[1], 1, ListedTens, events[i]);
      }
    }
    assert events[5..] == [Reconcile(Learned(PLAN)), FinalEvict(Learned(PLAN).failed)];
  }

  function StuckSweep(n: nat): Completed
  {
    Completed(Trace(StuckEvents(), StuckStates(n)), 4)
  }

  lemma StuckIsCompleted(n: nat)
    requires n >= 1
    ensures IsCompleted(Window(n), PLAN, 1, ListedTens, StuckSweep(n))
    ensures StuckSweep(n).trace.First() == StuckSweep(n).trace.Last() == Stuck(n, {})
    ensures Listings(StuckSweep(n).trace.events) == 1
  {
    StuckIsSweep();
    forall i | 0 <= i < |StuckEvents()|
      ensures Step(Window(n), StuckStates(n)[i], StuckEvents()[i], StuckStates(n)[i + 1])
    {
      StuckSteps(n, i);
    }
    hide Step, IsSweep, Stuck;
    OneListing(StuckEvents(), 2);
  }

  lemma {:induction false} OneListing(events: seq<Event>, at: nat)
    requires at < |events| && forall i :: 0 <= i < |events| ==> (IsListing(events[i]) <==> i == at)
    ensures Listings(events) == 1
  {
    var init := events[..|events| - 1];
    if at < |init| {
      OneListing(init, at);
    } else {
      NoListings(init);
    }
  }

  lemma {:induction false} NoListings(events: seq<Event>)
    requires forall i :: 0 <= i < |events| ==> !IsListing(events[i])
    ensures Listings(events) == 0
  {
    if events != [] {
      NoListings(events[..|events| - 1]);
    }
  }

  lemma PlanIsHealthy()
    ensures Healthy(PLAN)
  {
    forall r | r in PLAN
      ensures !RepoFailed(r)
    {
      NobodyFailed(r);
    }
    forall r, sp, k | r in PLAN && sp in r.storages && sp.listing.Some? && SeenLive(PLAN, k) && k.storage == Alias(sp.name)
      ensures Snapshot(k.snap, k.rev) in sp.listing.value
    {
      var r', sp' :| r' in PLAN && r'.vended && sp' in r'.storages && Alias(sp'.name) == k.storage
                     && sp'.listing.Some? && Snapshot(k.snap, k.rev) in sp'.listing.value;
      assert r == LISTING && r' == LISTING && sp == sp';
    }
  }

  /**
   The condition on the strays is tight: for every window, as many strays as it has room for
   make the warmer flap. A known repo that no longer lists a storage owns that many rows newer
   than the only live revision. On a plan without failures every sweep then lists the live
   revision again, evicts it unmarked, and ends where it began.
   */
  lemma FlapsForStrays(window: nat, n: nat) returns (run: seq<Completed>)
    requires window >= 1
    ensures Healthy(PLAN) && (forall k :: ListedTens(k) == Listed(Tens(k)))
    ensures IsRun(Window(window), PLAN, 1, ListedTens, run) && |run| == n && RunListings(Traces(run)) == n
    ensures forall i :: 0 <= i < n ==> run[i].trace.First() == Stuck(window, {})
    ensures Window(window).warmKeepN == window == |Strays(PLAN, Orphans(window), LIVE)|
    ensures !WindowHolds(Window(window), PLAN, 1, Orphans(window))
  {
    PlanIsHealthy();
    hide Healthy;
    StuckIsCompleted(window);
    run := seq(n, _ => StuckSweep(window));
    Repeats(Window(window), PLAN, 1, ListedTens, StuckSweep(window), n);
    hide IsRun, StuckSweep;
    StraysFillTheWindow(window);
  }

  lemma StraysFillTheWindow(n: nat)
    requires n >= 1
    ensures |Strays(PLAN, Orphans(n), LIVE)| == n && !WindowHolds(Window(n), PLAN, 1, Orphans(n))
  {
    LearnsThis();
    OffersLive();
    OrphansAre(n);
    hide Learned, Offered, Orphans;
    var t, w, c := Orphans(n), WorldOf(PLAN, 1), Candidate("repo", LIVE);
    assert NewerLive({LIVE}, LIVE) == {};
    assert c in Candidates(Window(n), w);
    assert PLAN[0] in PLAN && !ListedOk(PLAN[0], "far");
    assert forall x :: x in t ==> LeftBehind(PLAN, t[x].repo, x.storage);
    assert Strays(PLAN, t, LIVE) == t.Keys;
    assert !RoomDespiteStrays(Window(n), PLAN, t, c.key);
  }

  lemma OffersLive()
    ensures Candidate("repo", LIVE) in Offered(PLAN, 1)
  {
    LiveIsNewest();
    var s := Snapshot("snap", 1);
    assert s in LISTING.storages[0].listing.value && KeyOf(Alias("far"), s) == LIVE;
    OfferedByAllHas("repo", LISTING.storages, 1, 0, Candidate("repo", LIVE));
    OfferedHas(PLAN, 1, 1, Candidate("repo", LIVE));
  }

  // ------------------------------------------------------------------------------
  // A stream that crosses the ceiling when it is closed
  // ------------------------------------------------------------------------------

  const LATE_PLAN: Plan := [LISTING]

  function Late(k: Key): Child { ClosedLate }

  function Empty(pending: set<string>): Store
  {
    Store(map[], map[], pending, 0)
  }

  function LateEvents(): seq<Event>
  {
    [Begin({"repo"}), Attempt("repo", LIVE, 0, true, ClosedLate), RepoDone("repo"), End, Reconcile(Learned(LATE_PLAN)),
     FinalEvict({})]
  }

  function LateStates(): seq<Store>
  {
    [Empty({}), Empty({"repo"}), Empty({"repo"}), Empty({}), Empty({}), Empty({}), Empty({})]
  }

  lemma LateLearnsNoFailure()
    ensures Learned(LATE_PLAN).failed == {}
  {
    LearnedMeans(LATE_PLAN);
    hide Learned;
    assert !RepoFailed(LISTING);
  }

  lemma PinOfNothing()
    ensures IsPinDepth(map[], 1, 10, 1)
  {
  }

  lemma LateAttempt()
    ensures Step(Window(1), Empty({"repo"}), Attempt("repo", LIVE, 0, true, ClosedLate), Empty({"repo"}))
  {
    hide IsPinDepth;
    assert IsPinDepth(Empty({"repo"}).rows, 1, 10, 1) by { PinOfNothing(); }
    assert Wanted(Window(1), Empty({"repo"}), "repo", LIVE, 0);
  }

  lemma NothingToReconcile(st: SweepState)
    ensures Step(Window(1), Empty({}), Reconcile(st), Empty({})) && Step(Window(1), Empty({}), FinalEvict({}), Empty({}))
    ensures Step(Window(1), Empty({}), Begin({"repo"}), Empty({"repo"}))
    ensures Step(Window(1), Empty({"repo"}), RepoDone("repo"), Empty({})) && Step(Window(1), Empty({}), End, Empty({}))
  {
    assert Weights(map[]) == map[];
    assert {"repo"} - {"repo"} == {};
    assert Reconciled(Empty({}), st) == Empty({});
  }

  lemma LateSteps(i: nat)
    requires i < |LateEvents()|
    ensures Step(Window(1), LateStates()[i], LateEvents()[i], LateStates()[i + 1])
  {
    hide Step, Empty, Learned;
    LateAttempt();
    NothingToReconcile(Learned(LATE_PLAN));
  }

  lemma LateIsSweep()
    ensures IsSweep(LATE_PLAN, 1, Late, LateEvents(), 3, false)
  {
    var events := LateEvents();
    LateLearnsNoFailure();
    hide Learned;
    assert Ids(LATE_PLAN) == {"repo"};
    NobodyFailed(LISTING);
    StuckIsAttempt(Late);
    hide RepoFailed, AttemptFor;
    assert AttemptAmong(LISTING, 1, 1, Late, events[1]);
    assert FromRepo(LATE_PLAN[0], 1, Late, events[1]) && FromRepo(LATE_PLAN[0], 1, Late, events[2]);
    assert events[4..] == [Reconcile(Learned(LATE_PLAN)), FinalEvict(Learned(LATE_PLAN).failed)];
  }

  /** A revision whose stream crosses the ceiling only at the end leaves no marker and is listed in every sweep. */
  lemma LateCeilingFlaps(n: nat) returns (run: seq<Completed>)
    ensures IsRun(Window(1), LATE_PLAN, 1, Late, run) && |run| == n && RunListings(Traces(run)) == n
  {
    var s := Completed(Trace(LateEvents(), LateStates()), 3);
    LateIsSweep();
    forall i | 0 <= i < |LateEvents()|
      ensures Step(Window(1), LateStates()[i], LateEvents()[i], LateStates()[i + 1])
    {
      LateSteps(i);
    }
    hide Step, IsSweep, Empty;
    OneListing(LateEvents(), 1);
    Repeats(Window(1), LATE_PLAN, 1, Late, s, n);
    run := seq(n, _ => s);
  }
}
