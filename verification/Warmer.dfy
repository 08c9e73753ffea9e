/** The warm sweep: which revisions it lists, in what order, and what it does to the cache. */
module Warmer {
  import opened Collections
  import opened CacheModel
  import opened Eviction
  import opened Sweeps
  import opened Settling
  import opened Plans
  import opened Newest
  import FC = FilesCache

  const MAX_WARM_LISTS_PER_SWEEP: nat := 200

  // ------------------------------------------------------------------------------
  // One listing
  // ------------------------------------------------------------------------------

  /** Decides whether to list one candidate, and counts it among its snapshot's candidates. */
  method WarmWanted(c: FC.FilesCache, ranks: map<string, nat>, rev: Snapshot, repo: string, storage: string)
    returns (want: bool, ranks': map<string, nat>)
    requires c.Valid()
    ensures var rank := if rev.snap in ranks then ranks[rev.snap] else 0;
            && ranks' == ranks[rev.snap := rank + 1]
            && (want <==> Wanted(c.cfg, c.Abs(), repo, KeyOf(storage, rev), rank))
  {
    hide IsPinDepth;
    var k := KeyOf(storage, rev);
    var rank := if rev.snap in ranks then ranks[rev.snap] else 0;
    ranks' := ranks[rev.snap := rank + 1];
    var pin := c.EffectivePinN();
    OnlyPin(c.rows, c.cfg, pin);
    if rank >= pin {
      return false, ranks';
    }
    if k in c.rows {
      return false, ranks';
    }
    if MarkerKey(repo, k) !in c.markers {
      return true, ranks';
    }
    var m := c.markers[MarkerKey(repo, k)];
    match m.reason {
      case RowCap => want := m.gz > 0 && m.gz <= c.cfg.rowMax;
      case CapEvicted =>
        if m.cap != c.cfg.maxBytes {
          want := true;
        } else {
          var total := c.TotalBytes();
          want := total + m.gz <= c.cfg.maxBytes;
        }
      case SpoolCeiling => want := m.cap != c.cfg.ceiling;
    }
  }

  lemma OnlyPin(t: Table, cfg: Config, pin: int)
    requires IsPinDepth(t, cfg.warmKeepN, cfg.maxBytes, pin)
    ensures forall p :: IsPinDepth(t, cfg.warmKeepN, cfg.maxBytes, p) ==> p == pin
  {
    forall p | IsPinDepth(t, cfg.warmKeepN, cfg.maxBytes, p)
      ensures p == pin
    {
      PinUnique(t, cfg.warmKeepN, cfg.maxBytes, p, pin);
    }
  }

  /** Runs one listing and stores it, or the reason why not. */
  method WarmOneListing(c: FC.FilesCache, repo: string, k: Key, child: Child, now: int) returns (ok: bool)
    requires c.Valid()
    modifies c`rows, c`markers
    ensures c.Valid() && Stores(c.cfg, old(c.Abs()), repo, k, child, c.Abs())
    ensures ok <==> child.Listed? && !OverCeiling(c.cfg, child.gz)
  {
    hide Puts;
    if child.ChildFailed? || child.ClosedLate? {
      return false;
    }
    if OverCeiling(c.cfg, child.gz) {
      c.MarkUncacheable(repo, k, Marker(SpoolCeiling, 0, c.cfg.ceiling));
      return false;
    }
    if OverRowCap(c.cfg, child.gz) {
      c.MarkUncacheable(repo, k, Marker(RowCap, child.gz, 0));
    } else {
      c.PutGzipped(k, repo, child.gz, now);
    }
    ok := true;
  }

  // ------------------------------------------------------------------------------
  // The sweep
  // ------------------------------------------------------------------------------

  predicate Counts(cfg: Config, e: Event)
  {
    IsListing(e) && e.child.Listed? && !OverCeiling(cfg, e.child.gz)
  }

  /** How many listings count against the sweep's budget. */
  function Warmed(cfg: Config, events: seq<Event>): nat
  {
    if events == [] then 0
    else Warmed(cfg, events[..|events| - 1]) + if Counts(cfg, events[|events| - 1]) then 1 else 0
  }

  lemma {:induction false} WarmedConcat(cfg: Config, a: seq<Event>, b: seq<Event>)
    ensures Warmed(cfg, a + b) == Warmed(cfg, a) + Warmed(cfg, b)
  {
    if b == [] {
      assert a + b == a;
    } else {
      WarmedConcat(cfg, a, b[..|b| - 1]);
      assert (a + b)[..|a + b| - 1] == a + b[..|b| - 1];
    }
  }

  /** The events that count: listings that ended well and could be spooled. */
  function Successes(cfg: Config, events: seq<Event>): set<int>
  {
    set i | 0 <= i < |events| && events[i].Attempt? && events[i].listed && events[i].child.Listed? && events[i].child.gz <= cfg.ceiling
  }

  lemma {:induction false} WarmedAreSuccesses(cfg: Config, events: seq<Event>)
    ensures Warmed(cfg, events) == |Successes(cfg, events)|
  {
    if events != [] {
      var n := |events| - 1;
      WarmedAreSuccesses(cfg, events[..n]);
      assert Successes(cfg, events) == Successes(cfg, events[..n]) + if Counts(cfg, events[n]) then {n} else {};
    }
  }

  function Attempted(events: seq<Event>): set<Candidate>
  {
    set e | e in events && e.Attempt? :: Candidate(e.repo, e.key)
  }

  /** `e` attempts a revision of the listing of `sp`, with its rank among the live revisions of its snapshot. */
  ghost predicate AttemptFor(repo: string, sp: StoragePlan, keepN: nat, child: Key -> Child, e: Event)
  {
    && e.Attempt? && e.repo == repo && e.key.storage == (if sp.name == "" then "default" else sp.name) && e.child == child(e.key)
    && sp.listing.Some?
    && Snapshot(e.key.snap, e.key.rev) in sp.listing.value
    && e.rank == |NewerIn(sp.listing.value, Snapshot(e.key.snap, e.key.rev))| < keepN
  }

  /** The events attempt the first candidates, one each and in order. */
  ghost predicate InOrder(repo: string, sp: StoragePlan, keepN: nat, child: Key -> Child, cands: seq<Snapshot>, events: seq<Event>)
  {
    && |events| <= |cands|
    && (forall j :: 0 <= j < |events| ==> events[j].Attempt? && events[j].key == KeyOf(Alias(sp.name), cands[j]))
    && forall j :: 0 <= j < |events| ==> AttemptFor(repo, sp, keepN, child, events[j])
  }

  /** `ranks` counts the candidates seen of each snapshot. */
  ghost predicate CountsSeen(cands: seq<Snapshot>, ranks: map<string, nat>)
  {
    forall id :: CountSnap(cands, id) == if id in ranks then ranks[id] else 0
  }

  /** Tries the candidates of one listing until the sweep's budget is spent. */
  method WarmCandidates(c: FC.FilesCache, repo: string, sp: StoragePlan, keepN: nat, cands: seq<Snapshot>,
                        child: Key -> Child, warmed0: nat, now: int)
    returns (warmed: nat, capped: bool, ghost tr: Trace)
    requires c.Valid() && sp.listing.Some? && CandidatesOf(sp.listing.value, keepN, cands)
    requires warmed0 <= MAX_WARM_LISTS_PER_SWEEP
    modifies c`rows, c`markers
    ensures c.Valid()
    ensures tr.Valid(c.cfg) && tr.First() == old(c.Abs()) && tr.Last() == c.Abs()
    ensures forall e :: e in tr.events ==> AttemptFor(repo, sp, keepN, child, e)
    ensures DistinctAttempts(tr.events)
    ensures warmed == warmed0 + Warmed(c.cfg, tr.events) <= MAX_WARM_LISTS_PER_SWEEP
    ensures capped ==> warmed == MAX_WARM_LISTS_PER_SWEEP
    ensures !capped ==> Attempted(tr.events) == OfferedBy(repo, sp, keepN)
  {
    hide Step, CountSnap, NewerIn, AttemptFor, Attempted, OfferedBy, CandidatesOf, DistinctAttempts, IsListing, OverCeiling,
         InOrder, CountsSeen;
    var storage := Alias(sp.name);
    var ranks: map<string, nat> := map[];
    warmed, capped := warmed0, false;
    tr := Start(c.Abs());
    var i := 0;
    NothingSeen(repo, sp, keepN, child, cands);
    while i < |cands|
      invariant 0 <= i <= |cands| && |tr.events| == i
      invariant c.Valid()
      invariant tr.Valid(c.cfg) && tr.First() == old(c.Abs()) && tr.Last() == c.Abs()
      invariant CountsSeen(cands[..i], ranks) && InOrder(repo, sp, keepN, child, cands, tr.events)
      invariant warmed == warmed0 + Warmed(c.cfg, tr.events) <= MAX_WARM_LISTS_PER_SWEEP
    {
      if warmed >= MAX_WARM_LISTS_PER_SWEEP {
        capped := true;
        break;
      }
      var ok;
      ghost var e;
      ghost var before := ranks;
      ok, ranks, e := WarmAttempt(c, ranks, cands[i], repo, storage, child, now);
      if ok {
        warmed := warmed + 1;
      }
      ExtendValid(c.cfg, tr, e, c.Abs());
      assert (tr.events + [e])[..i] == tr.events;
      OneMoreSeen(repo, sp, keepN, child, cands, tr.events, e, before, ranks);
      tr := Extend(tr, e, c.Abs());
      i := i + 1;
    }
    AllInOrder(repo, sp, keepN, child, cands, tr.events);
  }

  lemma NothingSeen(repo: string, sp: StoragePlan, keepN: nat, child: Key -> Child, cands: seq<Snapshot>)
    ensures CountsSeen(cands[..0], map[]) && InOrder(repo, sp, keepN, child, cands, [])
  {
  }

  lemma OneMoreSeen(repo: string, sp: StoragePlan, keepN: nat, child: Key -> Child, cands: seq<Snapshot>,
                    events: seq<Event>, e: Event, ranks: map<string, nat>, ranks': map<string, nat>)
    requires sp.listing.Some? && CandidatesOf(sp.listing.value, keepN, cands) && |events| < |cands|
    requires CountsSeen(cands[..|events|], ranks) && InOrder(repo, sp, keepN, child, cands, events)
    requires e.Attempt? && e.repo == repo && e.key == KeyOf(Alias(sp.name), cands[|events|]) && e.child == child(e.key)
    requires e.rank == var id := cands[|events|].snap; if id in ranks then ranks[id] else 0
    requires ranks' == ranks[cands[|events|].snap := e.rank + 1]
    ensures CountsSeen(cands[..|events| + 1], ranks') && InOrder(repo, sp, keepN, child, cands, events + [e])
  {
    hide CountSnap, AttemptFor, CandidatesOf, NewerIn;
    IsAttemptFor(repo, sp, keepN, child, cands, |events|, e);
    CountNext(cands, |events|);
  }

  lemma AllInOrder(repo: string, sp: StoragePlan, keepN: nat, child: Key -> Child, cands: seq<Snapshot>, events: seq<Event>)
    requires sp.listing.Some? && CandidatesOf(sp.listing.value, keepN, cands)
    requires InOrder(repo, sp, keepN, child, cands, events)
    ensures forall e :: e in events ==> AttemptFor(repo, sp, keepN, child, e)
    ensures DistinctAttempts(events)
    ensures |events| == |cands| ==> Attempted(events) == OfferedBy(repo, sp, keepN)
  {
    hide AttemptFor, Attempted, OfferedBy, CandidatesOf, DistinctAttempts;
    KeysDistinct(sp.listing.value, keepN, cands, Alias(sp.name), events);
    if |events| == |cands| {
      AllAttempted(repo, sp, keepN, child, cands, events);
    }
  }

  lemma IsAttemptFor(repo: string, sp: StoragePlan, keepN: nat, child: Key -> Child, cands: seq<Snapshot>, i: nat, e: Event)
    requires sp.listing.Some? && CandidatesOf(sp.listing.value, keepN, cands) && i < |cands|
    requires e.Attempt? && e.repo == repo && e.key == KeyOf(Alias(sp.name), cands[i]) && e.child == child(e.key)
    requires e.rank == CountSnap(cands[..i], cands[i].snap)
    ensures AttemptFor(repo, sp, keepN, child, e)
  {
    hide NewerIn, CountSnap;
    assert cands[i] in cands;
  }

  /** Decides on one candidate and, when it is wanted, lists it. */
  method WarmAttempt(c: FC.FilesCache, ranks: map<string, nat>, rev: Snapshot, repo: string, storage: string,
                     child: Key -> Child, now: int)
    returns (ok: bool, ranks': map<string, nat>, ghost e: Event)
    requires c.Valid()
    modifies c`rows, c`markers
    ensures c.Valid() && Step(c.cfg, old(c.Abs()), e, c.Abs())
    ensures var rank := if rev.snap in ranks then ranks[rev.snap] else 0;
            var k := KeyOf(storage, rev);
            && ranks' == ranks[rev.snap := rank + 1]
            && e.Attempt? && e.repo == repo && e.key == k && e.rank == rank && e.child == child(k)
    ensures ok <==> Counts(c.cfg, e)
  {
    hide Wanted, Stores;
    var k := KeyOf(storage, rev);
    var want;
    want, ranks' := WarmWanted(c, ranks, rev, repo, storage);
    e := Attempt(repo, k, if rev.snap in ranks then ranks[rev.snap] else 0, want, child(k));
    ok := false;
    if want {
      ok := WarmOneListing(c, repo, k, child(k), now);
    }
  }

  lemma CountNext(cands: seq<Snapshot>, i: nat)
    requires i < |cands|
    ensures forall id :: CountSnap(cands[..i + 1], id) == CountSnap(cands[..i], id) + if cands[i].snap == id then 1 else 0
  {
    assert cands[..i + 1][..i] == cands[..i];
  }

  lemma KeysDistinct(live: seq<Snapshot>, keepN: nat, cands: seq<Snapshot>, storage: string, events: seq<Event>)
    requires CandidatesOf(live, keepN, cands) && |events| <= |cands|
    requires forall j :: 0 <= j < |events| ==> events[j].Attempt? && events[j].key == KeyOf(storage, cands[j])
    ensures DistinctAttempts(events)
  {
  }

  lemma AllAttempted(repo: string, sp: StoragePlan, keepN: nat, child: Key -> Child, cands: seq<Snapshot>, events: seq<Event>)
    requires sp.listing.Some? && CandidatesOf(sp.listing.value, keepN, cands) && |events| == |cands|
    requires forall j :: 0 <= j < |events| ==> events[j].Attempt? && events[j].key == KeyOf(Alias(sp.name), cands[j])
    requires forall j :: 0 <= j < |events| ==> AttemptFor(repo, sp, keepN, child, events[j])
    ensures Attempted(events) == OfferedBy(repo, sp, keepN)
  {
    hide NewerIn, CountSnap;
    forall x | x in OfferedBy(repo, sp, keepN)
      ensures x in Attempted(events)
    {
      var s :| s in sp.listing.value && |NewerIn(sp.listing.value, s)| < keepN && x == Candidate(repo, KeyOf(Alias(sp.name), s));
      var j :| 0 <= j < |cands| && cands[j] == s;
      assert events[j] in events;
    }
    forall x | x in Attempted(events)
      ensures x in OfferedBy(repo, sp, keepN)
    {
      var j :| 0 <= j < |events| && x == Candidate(events[j].repo, events[j].key);
      assert cands[j] in cands;
    }
  }

  /** `e` attempts a revision of one of the first `n` storages of the repo. */
  ghost predicate AttemptAmong(r: RepoPlan, n: nat, keepN: nat, child: Key -> Child, e: Event)
    requires n <= |r.storages|
  {
    exists j :: 0 <= j < n && AttemptFor(r.id, r.storages[j], keepN, child, e)
  }

  ghost predicate AllAmong(r: RepoPlan, n: nat, keepN: nat, child: Key -> Child, events: seq<Event>)
  {
    n <= |r.storages| && forall e :: e in events ==> AttemptAmong(r, n, keepN, child, e)
  }

  lemma AmongGrows(r: RepoPlan, n: nat, m: nat, keepN: nat, child: Key -> Child, events: seq<Event>)
    requires AllAmong(r, n, keepN, child, events) && n <= m <= |r.storages|
    ensures AllAmong(r, m, keepN, child, events)
  {
    hide AttemptFor;
    forall e | e in events
      ensures AttemptAmong(r, m, keepN, child, e)
    {
      var j :| 0 <= j < n && AttemptFor(r.id, r.storages[j], keepN, child, e);
    }
  }

  /** Sweeps the storages of a repo whose secrets were vended; `cuts(n)` says what the look at the context before the n-th finds. */
  method WarmRepo(c: FC.FilesCache, r: RepoPlan, st0: SweepState, keepN: nat, child: Key -> Child,
                  cuts: nat -> bool, warmed0: nat, capped0: bool, now: int)
    returns (st: SweepState, warmed: nat, capped: bool, aborted: bool, ghost tr: Trace)
    requires c.Valid() && r.vended && ValidStorages(r.storages)
    requires warmed0 <= MAX_WARM_LISTS_PER_SWEEP
    requires capped0 ==> warmed0 == MAX_WARM_LISTS_PER_SWEEP
    modifies c`rows, c`markers
    ensures c.Valid()
    ensures tr.Valid(c.cfg) && tr.First() == old(c.Abs()) && tr.Last() == c.Abs()
    ensures AllAmong(r, |r.storages|, keepN, child, tr.events)
    ensures DistinctAttempts(tr.events)
    ensures warmed == warmed0 + Warmed(c.cfg, tr.events) <= MAX_WARM_LISTS_PER_SWEEP
    ensures capped ==> warmed == MAX_WARM_LISTS_PER_SWEEP
    ensures capped0 ==> capped
    ensures aborted <==> exists n: nat :: n < |r.storages| && cuts(n)
    ensures !aborted ==> st == LearnStorages(st0, r.id, r.storages)
    ensures !aborted && !capped ==> Attempted(tr.events) == OfferedByAll(r.id, r.storages, keepN)
  {
    hide Step, AllAmong, AttemptFor, Attempted, OfferedBy, IsListing, DistinctAttempts, ValidStorages, CandidatesOf, LearnStorage;
    st, warmed, capped, aborted := st0, warmed0, capped0, false;
    tr := Start(c.Abs());
    NothingAttempted();
    NoneAmong(r, keepN, child);
    assert r.storages[..0] == [];
    var n := 0;
    while n < |r.storages|
      invariant 0 <= n <= |r.storages|
      invariant c.Valid()
      invariant tr.Valid(c.cfg) && tr.First() == old(c.Abs()) && tr.Last() == c.Abs()
      invariant AllAmong(r, n, keepN, child, tr.events)
      invariant DistinctAttempts(tr.events)
      invariant warmed == warmed0 + Warmed(c.cfg, tr.events) <= MAX_WARM_LISTS_PER_SWEEP
      invariant capped ==> warmed == MAX_WARM_LISTS_PER_SWEEP
      invariant capped0 ==> capped
      invariant !aborted && forall i: nat :: i < n ==> !cuts(i)
      invariant st == LearnStorages(st0, r.id, r.storages[..n])
      invariant !capped ==> Attempted(tr.events) == OfferedByAll(r.id, r.storages[..n], keepN)
    {
      if cuts(n) {
        aborted := true;
        AmongGrows(r, n, |r.storages|, keepN, child, tr.events);
        return;
      }
      var sp := r.storages[n];
      assert r.storages[..n + 1][..n] == r.storages[..n];
      st := LearnStorage(st, r.id, sp);
      if sp.listing.Some? {
        ListingDistinct(r.storages, n);
        var cands := NewestRevisionsPerSnapshot(sp.listing.value, keepN);
        var hit;
        ghost var more: Trace;
        warmed, hit, more := WarmCandidates(c, r.id, sp, keepN, cands, child, warmed, now);
        capped := capped || hit;
        StorageAppended(c.cfg, r, n, keepN, child, tr, more);
        tr := Join(tr, more);
      } else {
        NoListingNoOffer(r.id, sp, keepN);
        AmongGrows(r, n, n + 1, keepN, child, tr.events);
      }
      n := n + 1;
    }
    assert r.storages[..n] == r.storages;
  }

  lemma NoneAmong(r: RepoPlan, keepN: nat, child: Key -> Child)
    ensures AllAmong(r, 0, keepN, child, [])
  {
  }

  lemma NothingAttempted()
    ensures Attempted([]) == {} && DistinctAttempts([])
  {
  }

  lemma ListingDistinct(sps: seq<StoragePlan>, n: nat)
    requires ValidStorages(sps) && n < |sps| && sps[n].listing.Some?
    ensures Distinct(sps[n].listing.value)
  {
  }

  lemma NoListingNoOffer(repo: string, sp: StoragePlan, keepN: nat)
    requires sp.listing.None?
    ensures OfferedBy(repo, sp, keepN) == {}
  {
  }

  lemma AttemptedConcat(a: seq<Event>, b: seq<Event>)
    ensures Attempted(a + b) == Attempted(a) + Attempted(b)
  {
    assert forall e :: e in a + b <==> e in a || e in b;
  }

  /** The attempts on the next storage differ from those on the storages before it. */
  lemma StorageAppended(cfg: Config, r: RepoPlan, n: nat, keepN: nat, child: Key -> Child, tr: Trace, more: Trace)
    requires tr.Valid(cfg) && more.Valid(cfg) && tr.Last() == more.First()
    requires ValidStorages(r.storages) && n < |r.storages|
    requires AllAmong(r, n, keepN, child, tr.events)
    requires forall e :: e in more.events ==> AttemptFor(r.id, r.storages[n], keepN, child, e)
    requires DistinctAttempts(tr.events) && DistinctAttempts(more.events)
    ensures var all := Join(tr, more);
            && all.Valid(cfg) && all.First() == tr.First() && all.Last() == more.Last()
            && AllAmong(r, n + 1, keepN, child, all.events)
            && DistinctAttempts(all.events)
            && Attempted(all.events) == Attempted(tr.events) + Attempted(more.events)
            && Warmed(cfg, all.events) == Warmed(cfg, tr.events) + Warmed(cfg, more.events)
  {
    hide Step, NewerIn, DistinctAttempts, Attempted, Warmed;
    JoinValid(cfg, tr, more);
    AttemptedConcat(tr.events, more.events);
    WarmedConcat(cfg, tr.events, more.events);
    DistinctConcat(tr.events, more.events);
    forall e | e in tr.events + more.events
      ensures AttemptAmong(r, n + 1, keepN, child, e)
    {
      hide AttemptFor;
      if e in tr.events {
        var j :| 0 <= j < n && AttemptFor(r.id, r.storages[j], keepN, child, e);
      }
    }
  }

  /** The events between `sweepBegin` and `sweepEnd` that stem from the first `n` repos of the plan. */
  ghost predicate FromRepos(plan: Plan, n: nat, keepN: nat, child: Key -> Child, e: Event)
    requires n <= |plan|
  {
    exists i :: 0 <= i < n && FromRepo(plan[i], keepN, child, e)
  }

  ghost predicate FromRepo(r: RepoPlan, keepN: nat, child: Key -> Child, e: Event)
  {
    || (r.vended && AttemptAmong(r, |r.storages|, keepN, child, e))
    || (e == RepoDone(r.id) && !RepoFailed(r))
  }

  /** The first event begins the sweep; the others stem from the first `n` repos. */
  ghost predicate Warming(plan: Plan, n: nat, keepN: nat, child: Key -> Child, events: seq<Event>)
    requires n <= |plan|
  {
    && |events| >= 1 && events[0] == Begin(Ids(plan))
    && (forall i :: 1 <= i < |events| ==> FromRepos(plan, n, keepN, child, events[i]))
    && DistinctAttempts(events)
  }

  /** The shape of a whole sweep: an early cancellation stops it right after `sweepEnd`. */
  ghost predicate IsSweep(plan: Plan, keepN: nat, child: Key -> Child, events: seq<Event>, end: nat, aborted: bool)
  {
    && 1 <= end < |events|
    && Warming(plan, |plan|, keepN, child, events[..end])
    && events[end] == End
    && events[end + 1..] == if aborted then [] else [Reconcile(Learned(plan)), FinalEvict(Learned(plan).failed)]
  }

  lemma RepoAppended(cfg: Config, plan: Plan, n: nat, keepN: nat, child: Key -> Child, tr: Trace, more: Trace)
    requires tr.Valid(cfg) && more.Valid(cfg) && tr.Last() == more.First()
    requires ValidPlan(plan) && n < |plan|
    requires Warming(plan, n, keepN, child, tr.events)
    requires forall e :: e in more.events ==> FromRepo(plan[n], keepN, child, e)
    requires DistinctAttempts(more.events)
    ensures var all := Join(tr, more);
            && all.Valid(cfg) && all.First() == tr.First() && all.Last() == more.Last()
            && Warming(plan, n + 1, keepN, child, all.events)
            && Attempted(all.events) == Attempted(tr.events) + Attempted(more.events)
            && Warmed(cfg, all.events) == Warmed(cfg, tr.events) + Warmed(cfg, more.events)
  {
    hide Step, NewerIn, DistinctAttempts, Attempted, Warmed, ValidStorages, AttemptAmong, RepoFailed;
    JoinValid(cfg, tr, more);
    AttemptedConcat(tr.events, more.events);
    WarmedConcat(cfg, tr.events, more.events);
    forall x, y | x in tr.events && y in more.events && x.Attempt? && y.Attempt?
      ensures x.repo != y.repo
    {
      var i :| 0 <= i < |tr.events| && tr.events[i] == x;
      FromReposRepo(plan, n, keepN, child, x);
      FromRepoRepo(plan[n], keepN, child, y);
    }
    DistinctConcat(tr.events, more.events);
    var all := Join(tr, more).events;
    forall i | 1 <= i < |all|
      ensures FromRepos(plan, n + 1, keepN, child, all[i])
    {
      hide FromRepo;
      if i < |tr.events| {
        assert all[i] == tr.events[i];
      } else {
        assert all[i] in more.events;
      }
    }
  }

  lemma FromRepoRepo(r: RepoPlan, keepN: nat, child: Key -> Child, e: Event)
    requires FromRepo(r, keepN, child, e)
    ensures (e.Attempt? || e.RepoDone?) && e.repo == r.id
  {
  }

  lemma FromReposRepo(plan: Plan, n: nat, keepN: nat, child: Key -> Child, e: Event)
    requires n <= |plan| && FromRepos(plan, n, keepN, child, e)
    ensures (e.Attempt? || e.RepoDone?) && exists i :: 0 <= i < n && plan[i].id == e.repo
  {
    hide FromRepo;
    var i :| 0 <= i < n && FromRepo(plan[i], keepN, child, e);
    FromRepoRepo(plan[i], keepN, child, e);
  }

  lemma RepoSkipped(plan: Plan, n: nat, keepN: nat, child: Key -> Child, events: seq<Event>)
    requires n < |plan| && Warming(plan, n, keepN, child, events)
    ensures Warming(plan, n + 1, keepN, child, events)
  {
    hide FromRepo, DistinctAttempts;
    forall i | 1 <= i < |events|
      ensures FromRepos(plan, n + 1, keepN, child, events[i])
    {
      var j :| 0 <= j < n && FromRepo(plan[j], keepN, child, events[i]);
    }
  }

  lemma {:induction false} WarmingGrows(plan: Plan, n: nat, keepN: nat, child: Key -> Child, events: seq<Event>)
    requires n <= |plan| && Warming(plan, n, keepN, child, events)
    ensures Warming(plan, |plan|, keepN, child, events)
    decreases |plan| - n
  {
    hide Warming;
    if n < |plan| {
      RepoSkipped(plan, n, keepN, child, events);
      WarmingGrows(plan, n + 1, keepN, child, events);
    }
  }

  /** A repo ends up in the failed set exactly when its vend or one of its listings failed. */
  lemma FailedExactly(plan: Plan, n: nat)
    requires ValidPlan(plan) && n < |plan|
    ensures plan[n].id in Learned(plan[..n + 1]).failed <==> RepoFailed(plan[n])
  {
    hide RepoFailed, ListedOk, SeenLive, ValidStorages, Learned;
    LearnedMeans(plan[..n + 1]);
    assert plan[..n + 1][n] == plan[n];
    assert plan[n] in plan[..n + 1];
    forall r | r in plan[..n + 1] && r.id == plan[n].id
      ensures r == plan[n]
    {
      var i :| 0 <= i <= n && plan[i] == r;
    }
  }

  /** A look at the context before one of the repo's storages finds it ended. */
  predicate CutIn(r: RepoPlan, cuts: nat -> bool)
  {
    r.vended && exists n: nat :: n < |r.storages| && cuts(n)
  }

  /** A look before one of the first `n` repos, or before one of their storages, finds the context ended. */
  predicate Interrupted(plan: Plan, stops: nat -> bool, cuts: nat -> nat -> bool, n: nat)
  {
    exists i: nat :: i < n && i < |plan| && (stops(i) || CutIn(plan[i], cuts(i)))
  }

  /** Of the plan's repos exactly those among the first `m` whose vend and listings succeeded were released. */
  predicate Released(plan: Plan, m: nat, events: seq<Event>)
  {
    forall i :: 0 <= i < |plan| ==> (RepoDone(plan[i].id) in events <==> i < m && !RepoFailed(plan[i]))
  }

  lemma ReleasedNext(plan: Plan, n: nat, keepN: nat, child: Key -> Child, events: seq<Event>, more: seq<Event>)
    requires ValidPlan(plan) && n < |plan| && Released(plan, n, events)
    requires forall e :: e in more ==> FromRepo(plan[n], keepN, child, e)
    ensures (RepoDone(plan[n].id) in more <==> !RepoFailed(plan[n])) ==> Released(plan, n + 1, events + more)
    ensures RepoDone(plan[n].id) !in more ==> Released(plan, n, events + more)
  {
    hide RepoFailed, FromRepo, ValidStorages;
    forall i | 0 <= i < |plan| && i != n
      ensures RepoDone(plan[i].id) !in more
    {
      if RepoDone(plan[i].id) in more {
        FromRepoRepo(plan[n], keepN, child, RepoDone(plan[i].id));
      }
    }
  }

  lemma UnvendedFails(r: RepoPlan)
    requires !r.vended
    ensures RepoFailed(r)
  {
  }

  lemma OnlyAttempts(r: RepoPlan, keepN: nat, child: Key -> Child, events: seq<Event>)
    requires AllAmong(r, |r.storages|, keepN, child, events)
    ensures RepoDone(r.id) !in events
  {
    forall e | e in events
      ensures e.Attempt?
    {
      assert AttemptAmong(r, |r.storages|, keepN, child, e);
    }
  }

  /** What was released when the sweep stopped after its first `m` repos. */
  lemma ReleasedExactly(plan: Plan, stops: nat -> bool, cuts: nat -> nat -> bool, m: nat, events: seq<Event>)
    requires Released(plan, m, events) && m <= |plan| && !Interrupted(plan, stops, cuts, m)
    requires m == |plan| || Interrupted(plan, stops, cuts, m + 1)
    ensures ReleasedUnlessCut(plan, stops, cuts, events)
  {
    hide RepoFailed, CutIn;
  }

  /** Exactly the repos whose vend and listings succeeded before any interruption are released from the sweep's protection. */
  predicate ReleasedUnlessCut(plan: Plan, stops: nat -> bool, cuts: nat -> nat -> bool, events: seq<Event>)
  {
    forall i :: 0 <= i < |plan| ==>
                  (RepoDone(plan[i].id) in events <==> !RepoFailed(plan[i]) && !Interrupted(plan, stops, cuts, i + 1))
  }

  /** Sweeps one repo: learns what it can, warms what it offers, and releases its rows when nothing failed. */
  method SweepRepo(c: FC.FilesCache, ghost plan: Plan, n: nat, r: RepoPlan, st0: SweepState, keepN: nat,
                   child: Key -> Child, cuts: nat -> bool, warmed0: nat, capped0: bool, now: int)
    returns (st: SweepState, warmed: nat, capped: bool, aborted: bool, ghost tr: Trace)
    requires c.Valid() && ValidPlan(plan) && n < |plan| && r == plan[n]
    requires st0 == Learned(plan[..n])
    requires warmed0 <= MAX_WARM_LISTS_PER_SWEEP
    requires capped0 ==> warmed0 == MAX_WARM_LISTS_PER_SWEEP
    modifies c`rows, c`markers, c`pending
    ensures c.Valid()
    ensures tr.Valid(c.cfg) && tr.First() == old(c.Abs()) && tr.Last() == c.Abs()
    ensures forall e :: e in tr.events ==> FromRepo(r, keepN, child, e)
    ensures DistinctAttempts(tr.events)
    ensures warmed == warmed0 + Warmed(c.cfg, tr.events) <= MAX_WARM_LISTS_PER_SWEEP
    ensures capped ==> warmed == MAX_WARM_LISTS_PER_SWEEP
    ensures capped0 ==> capped
    ensures aborted <==> CutIn(r, cuts)
    ensures RepoDone(r.id) in tr.events <==> !aborted && !RepoFailed(r)
    ensures !aborted ==> st == Learned(plan[..n + 1])
    ensures !aborted && !capped ==> Attempted(tr.events) == OfferedByRepo(r, keepN)
  {
    hide Step, AttemptAmong, RepoFailed, Attempted, DistinctAttempts, ValidPlan, Warmed, OfferedByAll, LearnStorages;
    LearnNext(plan, n);
    OneRepoValid(plan, n);
    st := st0.(known := st0.known + {r.id});
    warmed, capped, aborted, tr := warmed0, capped0, false, Start(c.Abs());
    NothingAttempted();
    NothingWarmed(c.cfg);
    if !r.vended {
      st := st.(failed := st.failed + {r.id});
      UnvendedFails(r);
      return;
    }
    st, warmed, capped, aborted, tr := WarmRepo(c, r, st, keepN, child, cuts, warmed0, capped0, now);
    OnlyAttempts(r, keepN, child, tr.events);
    if aborted {
      return;
    }
    FailedExactly(plan, n);
    if r.id !in st.failed {
      c.SweepRepoDone(r.id);
      DoneAppended(c.cfg, tr, r, c.Abs());
      tr := Extend(tr, RepoDone(r.id), c.Abs());
    }
  }

  lemma LearnNext(plan: Plan, n: nat)
    requires n < |plan|
    ensures Learned(plan[..n + 1]) == LearnRepo(Learned(plan[..n]), plan[n])
  {
    assert plan[..n + 1][..n] == plan[..n];
  }

  lemma OneRepoValid(plan: Plan, n: nat)
    requires ValidPlan(plan) && n < |plan|
    ensures ValidStorages(plan[n].storages)
  {
  }

  lemma NothingWarmed(cfg: Config)
    ensures Warmed(cfg, []) == 0
  {
  }

  lemma DoneAppended(cfg: Config, tr: Trace, r: RepoPlan, s: Store)
    requires tr.Valid(cfg) && Step(cfg, tr.Last(), RepoDone(r.id), s) && DistinctAttempts(tr.events)
    ensures var all := Extend(tr, RepoDone(r.id), s);
            && all.Valid(cfg) && all.First() == tr.First() && all.Last() == s
            && DistinctAttempts(all.events)
            && Attempted(all.events) == Attempted(tr.events)
            && Warmed(cfg, all.events) == Warmed(cfg, tr.events)
  {
    hide Step;
    ExtendValid(cfg, tr, RepoDone(r.id), s);
    AttemptedConcat(tr.events, [RepoDone(r.id)]);
    WarmedConcat(cfg, tr.events, [RepoDone(r.id)]);
  }

  /** Sweeps the repos one by one until all are done or the context is cancelled. */
  method SweepRepos(c: FC.FilesCache, plan: Plan, keepN: nat, child: Key -> Child, stops: nat -> bool, cuts: nat -> nat -> bool,
                    now: int, ghost tr0: Trace)
    returns (st: SweepState, warmed: nat, capped: bool, aborted: bool, ghost tr: Trace)
    requires c.Valid() && ValidPlan(plan)
    requires tr0.Valid(c.cfg) && tr0.Last() == c.Abs() && tr0.events == [Begin(Ids(plan))]
    modifies c`rows, c`markers, c`pending
    ensures c.Valid()
    ensures tr.Valid(c.cfg) && tr.First() == tr0.First() && tr.Last() == c.Abs()
    ensures Warming(plan, |plan|, keepN, child, tr.events)
    ensures warmed == Warmed(c.cfg, tr.events) <= MAX_WARM_LISTS_PER_SWEEP
    ensures capped ==> warmed == MAX_WARM_LISTS_PER_SWEEP
    ensures aborted <==> Interrupted(plan, stops, cuts, |plan|)
    ensures ReleasedUnlessCut(plan, stops, cuts, tr.events)
    ensures !aborted ==> st == Learned(plan)
    ensures !aborted && !capped ==> Attempted(tr.events) == Offered(plan, keepN)
  {
    hide Step, Warming, Attempted, ValidPlan, Warmed, OfferedByRepo, LearnRepo, FromRepo, DistinctAttempts, CutIn, RepoFailed,
         Released, ReleasedUnlessCut;
    warmed, capped, aborted, tr := 0, false, false, tr0;
    BeginOnly(c.cfg, plan, keepN, child, tr.events);
    NoneReleased(plan);
    st := NOTHING_LEARNED;
    var n := 0;
    assert plan[..0] == [];
    while n < |plan|
      invariant 0 <= n <= |plan|
      invariant c.Valid()
      invariant tr.Valid(c.cfg) && tr.First() == tr0.First() && tr.Last() == c.Abs()
      invariant Warming(plan, n, keepN, child, tr.events)
      invariant warmed == Warmed(c.cfg, tr.events) <= MAX_WARM_LISTS_PER_SWEEP
      invariant capped ==> warmed == MAX_WARM_LISTS_PER_SWEEP
      invariant st == Learned(plan[..n])
      invariant !capped ==> Attempted(tr.events) == Offered(plan[..n], keepN)
      invariant !aborted && !Interrupted(plan, stops, cuts, n) && Released(plan, n, tr.events)
    {
      if stops(n) {
        WarmingGrows(plan, n, keepN, child, tr.events);
        InterruptedAt(plan, stops, cuts, n);
        ReleasedExactly(plan, stops, cuts, n, tr.events);
        aborted := true;
        return;
      }
      ghost var more: Trace;
      st, warmed, capped, aborted, more := SweepRepo(c, plan, n, plan[n], st, keepN, child, cuts(n), warmed, capped, now);
      RepoAppended(c.cfg, plan, n, keepN, child, tr, more);
      ReleasedNext(plan, n, keepN, child, tr.events, more.events);
      tr := Join(tr, more);
      if aborted {
        WarmingGrows(plan, n + 1, keepN, child, tr.events);
        InterruptedAt(plan, stops, cuts, n);
        ReleasedExactly(plan, stops, cuts, n, tr.events);
        return;
      }
      assert plan[..n + 1][..n] == plan[..n];
      n := n + 1;
    }
    assert plan[..|plan|] == plan;
    ReleasedExactly(plan, stops, cuts, n, tr.events);
  }

  lemma InterruptedAt(plan: Plan, stops: nat -> bool, cuts: nat -> nat -> bool, n: nat)
    requires n < |plan| && (stops(n) || CutIn(plan[n], cuts(n)))
    ensures Interrupted(plan, stops, cuts, n + 1) && Interrupted(plan, stops, cuts, |plan|)
  {
    hide CutIn;
  }

  lemma NoneReleased(plan: Plan)
    ensures Released(plan, 0, [Begin(Ids(plan))])
  {
  }

  lemma BeginOnly(cfg: Config, plan: Plan, keepN: nat, child: Key -> Child, events: seq<Event>)
    requires events == [Begin(Ids(plan))]
    ensures Warming(plan, 0, keepN, child, events) && Attempted(events) == {} && Warmed(cfg, events) == 0
  {
    assert events[..0] == [];
    assert Warmed(cfg, events[..0]) == 0;
  }

  lemma SameIds(plan: Plan, ids: seq<string>)
    requires |ids| == |plan| && forall i :: 0 <= i < |plan| ==> ids[i] == plan[i].id
    ensures (set id | id in ids) == Ids(plan)
  {
    forall id | id in Ids(plan)
      ensures id in ids
    {
      var i :| 0 <= i < |plan| && plan[i].id == id;
      assert ids[i] == id;
    }
  }

  /**
   One warm sweep: attempts the newest revisions of every listing, then reconciles and evicts once.
   The trace it returns is what it did to the store, event by event. `stops(i)` is what the look at
   the context before the i-th repo finds, `cuts(i)(n)` the one before its n-th storage.
   */
  method WarmListCacheSweep(c: FC.FilesCache, plan: Plan, keepN: nat, child: Key -> Child, stops: nat -> bool,
                            cuts: nat -> nat -> bool, now: int)
    returns (warmed: nat, reconciled: nat, capped: bool, aborted: bool, ghost tr: Trace, ghost end: nat)
    requires c.Valid() && ValidPlan(plan)
    modifies c
    ensures c.Valid()
    ensures tr.Valid(c.cfg) && tr.First() == old(c.Abs()) && tr.Last() == c.Abs()
    ensures keepN == 0 ==> tr.events == []
    ensures keepN > 0 ==> IsSweep(plan, keepN, child, tr.events, end, aborted)
    ensures keepN > 0 ==> (aborted <==> Interrupted(plan, stops, cuts, |plan|))
    ensures keepN > 0 ==> ReleasedUnlessCut(plan, stops, cuts, tr.events[..end])
    ensures keepN > 0 && !aborted && !capped ==> Attempted(tr.events[..end]) == Offered(plan, keepN)
    ensures keepN > 0 ==> warmed == Warmed(c.cfg, tr.events[..end]) <= 200
    ensures capped ==> warmed == 200
    ensures keepN > 0 && !aborted ==>
              |tr.events| == end + 3 && reconciled == |tr.states[end + 1].rows| - |tr.states[end + 2].rows|
  {
    hide Step, Warming, Attempted, ValidPlan, Warmed, Learned, Offered, Evicts, Interrupted, ReleasedUnlessCut;
    warmed, reconciled, capped, aborted, tr, end := 0, 0, false, false, Start(c.Abs()), 0;
    if keepN == 0 {
      return;
    }
    var ids := seq(|plan|, i requires 0 <= i < |plan| => plan[i].id);
    c.SweepBegin(ids);
    SameIds(plan, ids);
    ExtendValid(c.cfg, tr, Begin(Ids(plan)), c.Abs());
    tr := Extend(tr, Begin(Ids(plan)), c.Abs());
    var st;
    st, warmed, capped, aborted, tr := SweepRepos(c, plan, keepN, child, stops, cuts, now, tr);
    end := |tr.events|;
    ghost var warming := tr.events;
    NotEmpty(plan, keepN, child, warming);
    c.SweepEnd();
    ExtendValid(c.cfg, tr, End, c.Abs());
    tr := Extend(tr, End, c.Abs());
    assert tr.events[..end] == warming;
    if aborted {
      return;
    }
    SomethingSwept(plan);
    reconciled := c.ReconcileAgainstKeep(st);
    ExtendValid(c.cfg, tr, Reconcile(st), c.Abs());
    tr := Extend(tr, Reconcile(st), c.Abs());
    ghost var before := c.Abs();
    c.EvictBySize(st.failed);
    EvictStep(c.cfg, before, st.failed, c.Abs());
    ExtendValid(c.cfg, tr, FinalEvict(st.failed), c.Abs());
    tr := Extend(tr, FinalEvict(st.failed), c.Abs());
    assert tr.events[..end] == warming;
    assert tr.events[end + 1..] == [Reconcile(st), FinalEvict(st.failed)];
  }

  lemma NotEmpty(plan: Plan, keepN: nat, child: Key -> Child, events: seq<Event>)
    requires Warming(plan, |plan|, keepN, child, events)
    ensures |events| >= 1
  {
  }

  lemma EvictStep(cfg: Config, s: Store, exempt: set<string>, s': Store)
    requires Evicts(cfg, s, exempt, s')
    ensures Step(cfg, s, FinalEvict(exempt), s')
  {
  }

  lemma SomethingSwept(plan: Plan)
    ensures Learned(plan).swept != {} ==> Learned(plan).sweptStorage != {}
  {
    LearnedMeans(plan);
    var st := Learned(plan);
    if st.swept != {} {
      var t :| t in st.swept;
      assert t.storage in st.sweptStorage;
    }
  }
}
