/**
 The warmer and the evictor cannot chase each other: over any number of sweeps on a fixed
 set of live revisions, the number of `list -files` runs is bounded by the number of
 candidates alone.
 */
module Settling {
  import opened Collections
  import opened CacheModel
  import opened Eviction
  import opened Sweeps

  datatype Candidate = Candidate(repo: string, key: Key)

  /** The live revisions, and which repo may list which of them. */
  datatype World = World(keep: set<Key>, offered: set<Candidate>)

  function NewerLive(keep: set<Key>, k: Key): set<Key>
  {
    set x | x in keep && SamePartition(x, k) && x.rev > k.rev
  }

  /** How many live revisions of the same snapshot are newer. */
  function LiveRank(keep: set<Key>, k: Key): nat
  {
    |NewerLive(keep, k)|
  }

  /** The offered revisions inside the warm window: only these can ever be listed. */
  function Candidates(cfg: Config, w: World): set<Candidate>
  {
    set c | c in w.offered && c.key in w.keep && LiveRank(w.keep, c.key) < cfg.warmKeepN
  }

  /** The cached rows that are newer than the revision and no longer live. */
  function Crowd(keep: set<Key>, t: Table, k: Key): set<Key>
  {
    set x | x in t && x !in keep && SamePartition(x, k) && x.rev > k.rev
  }

  /** Counting them as well, the revision is still inside the warm window; without a cap that does not matter. */
  predicate RoomFor(cfg: Config, keep: set<Key>, t: Table, k: Key)
  {
    cfg.maxBytes <= 0 || |Crowd(keep, t, k)| + LiveRank(keep, k) < cfg.warmKeepN
  }

  ghost predicate Roomy(cfg: Config, w: World, t: Table)
  {
    forall c :: c in Candidates(cfg, w) ==> RoomFor(cfg, w.keep, t, c.key)
  }

  /** `b` has no row outside `keep` that `a` does not have, under the same owner. */
  ghost predicate OrphansShrink(keep: set<Key>, a: Table, b: Table)
  {
    forall k :: k in b && k !in keep ==> k in a && b[k].repo == a[k].repo
  }

  lemma RoomStays(cfg: Config, keep: set<Key>, a: Table, b: Table, k: Key)
    requires OrphansShrink(keep, a, b) && RoomFor(cfg, keep, a, k)
    ensures RoomFor(cfg, keep, b, k)
  {
    Cardinality(Crowd(keep, b, k), Crowd(keep, a, k));
  }

  // ------------------------------------------------------------------------------
  // Settled candidates
  // ------------------------------------------------------------------------------

  predicate OwnRow(s: Store, c: Candidate)
  {
    c.key in s.rows && s.rows[c.key].repo == c.repo
  }

  predicate Marked(s: Store, c: Candidate, m: Marker)
  {
    MarkerKey(c.repo, c.key) in s.markers && s.markers[MarkerKey(c.repo, c.key)] == m
  }

  /** Cached by its own repo, or marked with what is true of it today. */
  predicate Settled(cfg: Config, gz: nat, s: Store, c: Candidate)
  {
    if OverCeiling(cfg, gz) then c.key !in s.rows && Marked(s, c, Marker(SpoolCeiling, 0, cfg.ceiling))
    else if OverRowCap(cfg, gz) then c.key !in s.rows && Marked(s, c, Marker(RowCap, gz, 0))
    else if OwnRow(s, c) then s.rows[c.key].gz == gz
    else Marked(s, c, Marker(CapEvicted, gz, cfg.maxBytes))
  }

  ghost function Unsettled(cfg: Config, w: World, gz: Key -> nat, s: Store): set<Candidate>
  {
    set c | c in Candidates(cfg, w) && !Settled(cfg, gz(c.key), s, c)
  }

  ghost function Missing(cfg: Config, w: World, s: Store): set<Candidate>
  {
    set c | c in Candidates(cfg, w) && c.key !in s.rows
  }

  lemma RankWithinLive(keep: set<Key>, t: Table, k: Key)
    ensures Rank(t, k) <= 1 + LiveRank(keep, k) + |Crowd(keep, t, k)|
  {
    var live, crowd := NewerLive(keep, k), Crowd(keep, t, k);
    Cardinality(Newer(t, k), live + crowd);
    assert |live + crowd| <= |live| + |crowd|;
  }

  /** A settled candidate that is evicted is marked on the way out. */
  lemma EvictionKeepsSettled(cfg: Config, w: World, gz: nat, s: Store, exempt: set<string>, s': Store, c: Candidate)
    requires RoomFor(cfg, w.keep, s.rows, c.key) && c in Candidates(cfg, w)
    requires Settled(cfg, gz, s, c)
    requires Evicts(cfg, s, exempt, s')
    ensures Settled(cfg, gz, s', c)
  {
    if cfg.maxBytes > 0 && Bytes(s.rows) > cfg.maxBytes {
      var pin, victims := VictimsOf(cfg, s, exempt, s');
      RankWithinLive(w.keep, s.rows, c.key);
      assert MarkerKey(c.repo, c.key) in CapMarkers(cfg, s.rows, victims) ==> OwnRow(s, c) && c.key in victims;
    }
  }

  // ------------------------------------------------------------------------------
  // One event of a clean sweep
  // ------------------------------------------------------------------------------

  /** The events of a sweep in which nothing failed. */
  ghost predicate Clean(w: World, gz: Key -> nat, e: Event)
  {
    match e
    case Begin(_) => true
    case RepoDone(_) => true
    case End => true
    case Touch(_, _) => true
    case Attempt(repo, key, rank, _, child) =>
      && Candidate(repo, key) in w.offered && key in w.keep
      && rank == LiveRank(w.keep, key) && child == Listed(gz(key))
    case Reconcile(learned) => w.keep <= learned.keep
    case FinalEvict(exempt) => exempt == {}
    case InteractivePut(_, _, _) => false
    case Drop(_) => false
  }

  lemma ListedIsCandidate(cfg: Config, w: World, gz: Key -> nat, s: Store, e: Event, s': Store)
    requires Clean(w, gz, e) && IsListing(e) && Step(cfg, s, e, s')
    ensures Candidate(e.repo, e.key) in Candidates(cfg, w)
  {
  }

  lemma StepShrinksOrphans(cfg: Config, w: World, gz: Key -> nat, s: Store, e: Event, s': Store)
    requires Clean(w, gz, e) && Step(cfg, s, e, s')
    ensures OrphansShrink(w.keep, s.rows, s'.rows)
  {
    if e.FinalEvict? {
      EvictionShrinks(cfg, s, e.exempt, s');
    } else if IsListing(e) && Puts(cfg, s, e.key, e.repo, gz(e.key), s') {
      var t: Table :| Upserts(s.rows, e.key, e.repo, gz(e.key), t) && Evicts(cfg, s.(rows := t), {}, s');
      EvictionShrinks(cfg, s.(rows := t), {}, s');
    }
  }

  lemma StepKeepsRoom(cfg: Config, w: World, gz: Key -> nat, s: Store, e: Event, s': Store, k: Key)
    requires Clean(w, gz, e) && Step(cfg, s, e, s') && RoomFor(cfg, w.keep, s.rows, k)
    ensures RoomFor(cfg, w.keep, s'.rows, k)
  {
    hide Step, Clean, RoomFor;
    StepShrinksOrphans(cfg, w, gz, s, e, s');
    RoomStays(cfg, w.keep, s.rows, s'.rows, k);
  }

  lemma PutKeepsSettled(cfg: Config, w: World, s: Store, k: Key, repo: string, g: nat, s': Store,
                        gz: nat, c: Candidate)
    requires RoomFor(cfg, w.keep, s.rows, c.key) && c in Candidates(cfg, w) && k in w.keep && k !in s.rows
    requires Puts(cfg, s, k, repo, g, s')
    requires !OverCeiling(cfg, g) && !OverRowCap(cfg, g)
    requires c.key == k ==> gz == g
    requires Settled(cfg, gz, s, c) || c == Candidate(repo, k)
    ensures Settled(cfg, gz, s', c)
  {
    hide Evicts, Candidates;
    var t: Table :| Upserts(s.rows, k, repo, g, t) && Evicts(cfg, s.(rows := t), {}, s');
    UpsertSettles(cfg, w, s, k, repo, g, t, gz, c);
    EvictionKeepsSettled(cfg, w, gz, s.(rows := t), {}, s', c);
  }

  lemma UpsertSettles(cfg: Config, w: World, s: Store, k: Key, repo: string, g: nat, t: Table, gz: nat, c: Candidate)
    requires RoomFor(cfg, w.keep, s.rows, c.key) && k in w.keep && k !in s.rows
    requires Upserts(s.rows, k, repo, g, t)
    requires !OverCeiling(cfg, g) && !OverRowCap(cfg, g)
    requires c.key == k ==> gz == g
    requires Settled(cfg, gz, s, c) || c == Candidate(repo, k)
    ensures RoomFor(cfg, w.keep, t, c.key) && Settled(cfg, gz, s.(rows := t), c)
  {
    RoomStays(cfg, w.keep, s.rows, t, c.key);
  }

  /** Once settled, a candidate stays settled; and listing one settles it. */
  lemma StepSettles(cfg: Config, w: World, gz: Key -> nat, s: Store, e: Event, s': Store, c: Candidate)
    requires Clean(w, gz, e) && Step(cfg, s, e, s')
    requires RoomFor(cfg, w.keep, s.rows, c.key) && c in Candidates(cfg, w)
    requires Settled(cfg, gz(c.key), s, c) || (IsListing(e) && c == Candidate(e.repo, e.key))
    ensures Settled(cfg, gz(c.key), s', c)
  {
    match e
    case FinalEvict(exempt) => EvictionKeepsSettled(cfg, w, gz(c.key), s, exempt, s', c);
    case Attempt(repo, key, _, listed, _) =>
      if listed && !OverCeiling(cfg, gz(key)) && !OverRowCap(cfg, gz(key)) {
        PutKeepsSettled(cfg, w, s, key, repo, gz(key), s', gz(c.key), c);
      }
    case _ =>
  }

  /** A settled candidate is listed again only when it fits: it becomes a row and nothing is evicted. */
  lemma ReadmissionEvictsNothing(cfg: Config, w: World, gz: Key -> nat, s: Store, e: Event, s': Store)
    requires Clean(w, gz, e) && IsListing(e) && Step(cfg, s, e, s')
    requires Settled(cfg, gz(e.key), s, Candidate(e.repo, e.key))
    ensures s'.rows.Keys == s.rows.Keys + {e.key} && e.key !in s.rows
    ensures forall k :: k in s.rows ==> s'.rows[k] == s.rows[k]
    ensures s'.markers == s.markers && Bytes(s'.rows) <= cfg.maxBytes
  {
    RoomyPutEvictsNothing(cfg, s, e.key, e.repo, gz(e.key), s');
  }

  lemma TouchKeepsSizes(t: Table, k: Key, at: int)
    ensures Bytes(Touched(t, k, at)) == Bytes(t)
    ensures forall x :: Rank(Touched(t, k, at), x) == Rank(t, x)
  {
    assert Weights(Touched(t, k, at)) == Weights(t);
    forall x
      ensures Newer(Touched(t, k, at), x) == Newer(t, x)
    {
    }
  }

  /** A quiet cache stays quiet, and only gains candidates, until an unsettled one is listed. */
  lemma QuietStep(cfg: Config, w: World, gz: Key -> nat, s: Store, e: Event, s': Store)
    requires Clean(w, gz, e) && Step(cfg, s, e, s')
    requires Quiet(cfg, s.rows)
    requires IsListing(e) ==> Settled(cfg, gz(e.key), s, Candidate(e.repo, e.key))
    ensures Quiet(cfg, s'.rows)
    ensures Missing(cfg, w, s') <=
            Missing(cfg, w, s) - if IsListing(e) then {Candidate(e.repo, e.key)} else {}
    ensures IsListing(e) ==> Candidate(e.repo, e.key) in Missing(cfg, w, s)
  {
    match e
    case FinalEvict(exempt) => QuietEvictsNothing(cfg, s, exempt, s');
    case Reconcile(learned) => QuietShrinks(cfg, s'.rows, s.rows);
    case Touch(key, at) => TouchKeepsSizes(s.rows, key, at);
    case Attempt(repo, key, _, listed, _) =>
      if listed {
        ReadmissionEvictsNothing(cfg, w, gz, s, e, s');
      }
    case _ =>
  }

  // ------------------------------------------------------------------------------
  // A whole sweep
  // ------------------------------------------------------------------------------

  /** A sweep without failures attempts each offered revision at most once and ends with an eviction. */
  ghost predicate CleanSweep(cfg: Config, w: World, gz: Key -> nat, tr: Trace)
  {
    && tr.Valid(cfg)
    && (forall i :: 0 <= i < |tr.events| ==> Clean(w, gz, tr.events[i]))
    && DistinctAttempts(tr.events)
    && |tr.events| >= 1
    && tr.events[|tr.events| - 1].FinalEvict?
    && tr.states[|tr.events| - 1].pending == {}
  }

  /** Listings of candidates that were not settled when they were listed. */
  ghost function FreshListings(cfg: Config, gz: Key -> nat, tr: Trace, n: nat): nat
    requires n <= |tr.events| && n <= |tr.states|
  {
    if n == 0 then 0
    else
      var e := tr.events[n - 1];
      FreshListings(cfg, gz, tr, n - 1) +
      if IsListing(e) && !Settled(cfg, gz(e.key), tr.states[n - 1], Candidate(e.repo, e.key)) then 1 else 0
  }

  function ListedSet(events: seq<Event>): set<Candidate>
  {
    set i | 0 <= i < |events| && IsListing(events[i]) :: Candidate(events[i].repo, events[i].key)
  }

  lemma {:induction false} DistinctListings(events: seq<Event>)
    requires DistinctAttempts(events)
    ensures |ListedSet(events)| == Listings(events)
  {
    if events != [] {
      var init, e := events[..|events| - 1], events[|events| - 1];
      DistinctListings(init);
      ListedSetNext(init, e);
      assert events == init + [e];
      if IsListing(e) {
        ListedBefore(events, e);
      }
    }
  }

  lemma ListedBefore(events: seq<Event>, e: Event)
    requires events != [] && e == events[|events| - 1] && DistinctAttempts(events) && e.Attempt?
    ensures Candidate(e.repo, e.key) !in ListedSet(events[..|events| - 1])
  {
  }

  lemma ListedSetNext(init: seq<Event>, e: Event)
    ensures ListedSet(init + [e]) == ListedSet(init) + if IsListing(e) then {Candidate(e.repo, e.key)} else {}
  {
    var events := init + [e];
    assert forall i :: 0 <= i < |init| ==> events[i] == init[i];
    assert events[|init|] == e;
  }

  /** What the first `n` events of a clean sweep have done. */
  lemma {:induction false} Progress(cfg: Config, w: World, gz: Key -> nat, tr: Trace, n: nat)
    requires CleanSweep(cfg, w, gz, tr) && Roomy(cfg, w, tr.First().rows)
    requires n <= |tr.events|
    ensures Roomy(cfg, w, tr.states[n].rows)
    ensures |Unsettled(cfg, w, gz, tr.states[n])| + FreshListings(cfg, gz, tr, n)
            <= |Unsettled(cfg, w, gz, tr.First())|
    ensures Quiet(cfg, tr.First().rows) && FreshListings(cfg, gz, tr, n) == 0 ==>
              Quiet(cfg, tr.states[n].rows) &&
              |Missing(cfg, w, tr.states[n])| + Listings(tr.events[..n]) <= |Missing(cfg, w, tr.First())|
    decreases n
  {
    hide Step, Quiet, Roomy, DistinctAttempts;
    if n == 0 {
    } else {
      Progress(cfg, w, gz, tr, n - 1);
      var s, e, s' := tr.states[n - 1], tr.events[n - 1], tr.states[n];
      assert Step(cfg, s, e, s');
      assert tr.events[..n][..n - 1] == tr.events[..n - 1];
      StepKeepsRoomy(cfg, w, gz, s, e, s');
      UnsettledStep(cfg, w, gz, s, e, s');
      if Quiet(cfg, tr.First().rows) && FreshListings(cfg, gz, tr, n) == 0 {
        MissingStep(cfg, w, gz, s, e, s');
      }
    }
  }

  lemma StepKeepsRoomy(cfg: Config, w: World, gz: Key -> nat, s: Store, e: Event, s': Store)
    requires Clean(w, gz, e) && Step(cfg, s, e, s') && Roomy(cfg, w, s.rows)
    ensures Roomy(cfg, w, s'.rows)
  {
    hide Step, Clean, RoomFor, Candidates;
    forall c | c in Candidates(cfg, w)
      ensures RoomFor(cfg, w.keep, s'.rows, c.key)
    {
      StepKeepsRoom(cfg, w, gz, s, e, s', c.key);
    }
  }

  lemma UnsettledStep(cfg: Config, w: World, gz: Key -> nat, s: Store, e: Event, s': Store)
    requires Clean(w, gz, e) && Step(cfg, s, e, s') && Roomy(cfg, w, s.rows)
    ensures |Unsettled(cfg, w, gz, s')| +
            (if IsListing(e) && !Settled(cfg, gz(e.key), s, Candidate(e.repo, e.key)) then 1 else 0)
            <= |Unsettled(cfg, w, gz, s)|
  {
    var before, after := Unsettled(cfg, w, gz, s), Unsettled(cfg, w, gz, s');
    forall c | c in after
      ensures c in before && !(IsListing(e) && c == Candidate(e.repo, e.key))
    {
      if Settled(cfg, gz(c.key), s, c) || (IsListing(e) && c == Candidate(e.repo, e.key)) {
        StepSettles(cfg, w, gz, s, e, s', c);
      }
    }
    if IsListing(e) {
      ListedIsCandidate(cfg, w, gz, s, e, s');
      Cardinality(after, before - {Candidate(e.repo, e.key)});
    } else {
      Cardinality(after, before);
    }
  }

  lemma MissingStep(cfg: Config, w: World, gz: Key -> nat, s: Store, e: Event, s': Store)
    requires Clean(w, gz, e) && Step(cfg, s, e, s') && Quiet(cfg, s.rows)
    requires IsListing(e) ==> Settled(cfg, gz(e.key), s, Candidate(e.repo, e.key))
    ensures Quiet(cfg, s'.rows)
    ensures |Missing(cfg, w, s')| + (if IsListing(e) then 1 else 0) <= |Missing(cfg, w, s)|
  {
    QuietStep(cfg, w, gz, s, e, s');
    if IsListing(e) {
      Cardinality(Missing(cfg, w, s'), Missing(cfg, w, s) - {Candidate(e.repo, e.key)});
    } else {
      Cardinality(Missing(cfg, w, s'), Missing(cfg, w, s));
    }
  }

  /** What later sweeps may still spend. */
  ghost function Potential(cfg: Config, w: World, gz: Key -> nat, s: Store): nat
  {
    2 * |Candidates(cfg, w)| * |Unsettled(cfg, w, gz, s)| + |Missing(cfg, w, s)|
  }

  lemma PotentialBound(cfg: Config, w: World, gz: Key -> nat, s: Store)
    ensures |Unsettled(cfg, w, gz, s)| <= |Candidates(cfg, w)|
    ensures |Missing(cfg, w, s)| <= |Candidates(cfg, w)|
    ensures Potential(cfg, w, gz, s) <= 2 * |Candidates(cfg, w)| * |Candidates(cfg, w)| + |Candidates(cfg, w)|
  {
    var n, u := |Candidates(cfg, w)|, |Unsettled(cfg, w, gz, s)|;
    Cardinality(Unsettled(cfg, w, gz, s), Candidates(cfg, w));
    Cardinality(Missing(cfg, w, s), Candidates(cfg, w));
    MulMono(2 * n, u, n);
  }

  lemma MulMono(a: nat, b: nat, c: nat)
    requires b <= c
    ensures a * b <= a * c
  {
  }

  /** One sweep lists each candidate at most once, leaves the cache quiet, and pays from the potential. */
  lemma SweepCost(cfg: Config, w: World, gz: Key -> nat, tr: Trace)
    requires CleanSweep(cfg, w, gz, tr)
    requires Roomy(cfg, w, tr.First().rows)
    ensures Roomy(cfg, w, tr.Last().rows) && Quiet(cfg, tr.Last().rows)
    ensures Listings(tr.events) <= |Candidates(cfg, w)|
    ensures Quiet(cfg, tr.First().rows) ==>
              Listings(tr.events) + Potential(cfg, w, gz, tr.Last()) <= Potential(cfg, w, gz, tr.First())
  {
    hide Roomy, Quiet, CleanSweep, Settled, Listings;
    var m := |tr.events|;
    LastEvictionQuiets(cfg, w, gz, tr);
    ListedAreCandidates(cfg, w, gz, tr);
    Progress(cfg, w, gz, tr, m);
    assert tr.events[..m] == tr.events;
    PotentialBound(cfg, w, gz, tr.Last());
    if FreshListings(cfg, gz, tr, m) == 0 {
      MulMono(2 * |Candidates(cfg, w)|, |Unsettled(cfg, w, gz, tr.Last())|, |Unsettled(cfg, w, gz, tr.First())|);
    } else {
      MulMono(2 * |Candidates(cfg, w)|, |Unsettled(cfg, w, gz, tr.Last())| + 1, |Unsettled(cfg, w, gz, tr.First())|);
    }
  }

  lemma LastEvictionQuiets(cfg: Config, w: World, gz: Key -> nat, tr: Trace)
    requires CleanSweep(cfg, w, gz, tr)
    ensures |tr.states| == |tr.events| + 1 && Quiet(cfg, tr.Last().rows)
  {
    hide Evicts, Stores, Wanted, Puts, DistinctAttempts, Quiet;
    var m := |tr.events|;
    assert Step(cfg, tr.states[m - 1], tr.events[m - 1], tr.states[m]);
    EvictionQuiets(cfg, tr.states[m - 1], tr.states[m]);
  }

  lemma ListedAreCandidates(cfg: Config, w: World, gz: Key -> nat, tr: Trace)
    requires CleanSweep(cfg, w, gz, tr)
    ensures Listings(tr.events) <= |Candidates(cfg, w)|
  {
    hide Step;
    var m := |tr.events|;
    DistinctListings(tr.events);
    forall c | c in ListedSet(tr.events)
      ensures c in Candidates(cfg, w)
    {
      var i :| 0 <= i < m && IsListing(tr.events[i]) && c == Candidate(tr.events[i].repo, tr.events[i].key);
      ListedIsCandidate(cfg, w, gz, tr.states[i], tr.events[i], tr.states[i + 1]);
    }
    Cardinality(ListedSet(tr.events), Candidates(cfg, w));
  }

  // ------------------------------------------------------------------------------
  // Any number of sweeps
  // ------------------------------------------------------------------------------

  /** Consecutive sweeps without failures: each starts where the one before it stopped. */
  ghost predicate CleanRun(cfg: Config, w: World, gz: Key -> nat, run: seq<Trace>)
  {
    && (forall i :: 0 <= i < |run| ==> CleanSweep(cfg, w, gz, run[i]))
    && (forall i :: 0 < i < |run| ==> run[i].First() == run[i - 1].Last())
  }

  function RunListings(run: seq<Trace>): nat
  {
    if run == [] then 0 else Listings(run[0].events) + RunListings(run[1..])
  }

  lemma RunTail(cfg: Config, w: World, gz: Key -> nat, run: seq<Trace>)
    requires CleanRun(cfg, w, gz, run) && |run| > 1
    ensures CleanRun(cfg, w, gz, run[1..])
    ensures |run[1].states| > 0 && |run[0].states| > 0 && run[1].First() == run[0].Last()
  {
  }

  lemma {:induction false} QuietRunCost(cfg: Config, w: World, gz: Key -> nat, run: seq<Trace>)
    requires CleanRun(cfg, w, gz, run) && run != []
    requires Roomy(cfg, w, run[0].First().rows) && Quiet(cfg, run[0].First().rows)
    ensures RunListings(run) <= Potential(cfg, w, gz, run[0].First())
    decreases |run|
  {
    hide CleanSweep, Roomy, Quiet, Potential, Listings;
    SweepCost(cfg, w, gz, run[0]);
    if |run| > 1 {
      RunTail(cfg, w, gz, run);
      QuietRunCost(cfg, w, gz, run[1..]);
    } else {
      assert RunListings(run[1..]) == 0;
    }
  }

  // ------------------------------------------------------------------------------
  // Rows that are no longer live
  // ------------------------------------------------------------------------------

  /** The rows of the crowd that the sweep does not judge. */
  function Unjudged(st: SweepState, keep: set<Key>, t: Table, k: Key): set<Key>
  {
    set x | x in Crowd(keep, t, k) && !st.Judges(t[x].repo, x.storage)
  }

  /** There is room for the revision once the sweep has taken away what it judges. */
  predicate RoomOnceJudged(cfg: Config, st: SweepState, keep: set<Key>, t: Table, k: Key)
  {
    cfg.maxBytes <= 0 || |Unjudged(st, keep, t, k)| + LiveRank(keep, k) < cfg.warmKeepN
  }

  ghost predicate RoomyOnceJudged(cfg: Config, st: SweepState, w: World, t: Table)
  {
    forall c :: c in Candidates(cfg, w) ==> RoomOnceJudged(cfg, st, w.keep, t, c.key)
  }

  ghost predicate NoneJudged(st: SweepState, keep: set<Key>, t: Table)
  {
    forall k :: k in t && k !in keep ==> !st.Judges(t[k].repo, k.storage)
  }

  predicate Reconciles(events: seq<Event>, st: SweepState)
  {
    exists i :: 0 <= i < |events| && events[i] == Reconcile(st)
  }

  /** During a sweep the rows that are no longer live only get fewer; from its reconcile on it judges none of them. */
  lemma {:induction false} OrphansUpTo(cfg: Config, w: World, gz: Key -> nat, tr: Trace, st: SweepState, r: nat, n: nat)
    requires CleanSweep(cfg, w, gz, tr) && st.keep == w.keep
    requires r < |tr.events| && tr.events[r] == Reconcile(st) && n <= |tr.events|
    ensures OrphansShrink(w.keep, tr.First().rows, tr.states[n].rows)
    ensures n > r ==> NoneJudged(st, w.keep, tr.states[n].rows)
    decreases n
  {
    if n > 0 {
      var s, e, s' := tr.states[n - 1], tr.events[n - 1], tr.states[n];
      assert Step(cfg, s, e, s') && Clean(w, gz, e);
      hide Evicts, Stores, Wanted, Clean, DistinctAttempts;
      OrphansUpTo(cfg, w, gz, tr, st, r, n - 1);
      StepShrinksOrphans(cfg, w, gz, s, e, s');
    }
  }

  /** After a sweep there is room for whatever there was room for counting only what it does not judge. */
  lemma SweepMakesRoom(cfg: Config, w: World, gz: Key -> nat, tr: Trace, st: SweepState, k: Key)
    requires CleanSweep(cfg, w, gz, tr) && st.keep == w.keep && Reconciles(tr.events, st)
    requires RoomOnceJudged(cfg, st, w.keep, tr.First().rows, k)
    ensures |tr.states| == |tr.events| + 1 && RoomFor(cfg, w.keep, tr.Last().rows, k)
  {
    hide Step, Clean, DistinctAttempts;
    var r :| 0 <= r < |tr.events| && tr.events[r] == Reconcile(st);
    OrphansUpTo(cfg, w, gz, tr, st, r, |tr.events|);
    Cardinality(Crowd(w.keep, tr.Last().rows, k), Unjudged(st, w.keep, tr.First().rows, k));
  }

  lemma SweepMakesRoomy(cfg: Config, w: World, gz: Key -> nat, tr: Trace, st: SweepState)
    requires CleanSweep(cfg, w, gz, tr) && st.keep == w.keep && Reconciles(tr.events, st)
    requires RoomyOnceJudged(cfg, st, w, tr.First().rows)
    ensures |tr.states| == |tr.events| + 1 && Roomy(cfg, w, tr.Last().rows)
  {
    hide Step, Clean, DistinctAttempts, RoomOnceJudged, RoomFor, Candidates, Reconciles;
    forall c | c in Candidates(cfg, w)
      ensures RoomFor(cfg, w.keep, tr.Last().rows, c.key)
    {
      SweepMakesRoom(cfg, w, gz, tr, st, c.key);
    }
  }

  /**
   The warmer cannot flap. However many sweeps run on a fixed set of live revisions under a
   fixed configuration, whatever the markers and the cache held at the start, they list at most
   2n^2 + 2n times in all, for n candidates: as long as the newer rows that are no longer live
   and that the first sweep does not judge leave every candidate inside the warm window.
   */
  lemma Settles(cfg: Config, w: World, gz: Key -> nat, run: seq<Trace>, st: SweepState)
    requires CleanRun(cfg, w, gz, run) && st.keep == w.keep
    requires run != [] ==> RoomyOnceJudged(cfg, st, w, run[0].First().rows) && Reconciles(run[0].events, st)
    ensures var n := |Candidates(cfg, w)|; RunListings(run) <= 2 * n * n + 2 * n
  {
    hide CleanSweep, Roomy, RoomyOnceJudged, Reconciles, Quiet, Potential, Candidates, Listings;
    if run != [] {
      ListedAreCandidates(cfg, w, gz, run[0]);
      LastEvictionQuiets(cfg, w, gz, run[0]);
      SweepMakesRoomy(cfg, w, gz, run[0], st);
      if |run| > 1 {
        RunTail(cfg, w, gz, run);
        QuietRunCost(cfg, w, gz, run[1..]);
        PotentialBound(cfg, w, gz, run[1].First());
      } else {
        assert RunListings(run[1..]) == 0;
      }
    }
  }

  lemma {:induction false} RoomUpTo(cfg: Config, w: World, gz: Key -> nat, tr: Trace, k: Key, n: nat)
    requires CleanSweep(cfg, w, gz, tr) && RoomFor(cfg, w.keep, tr.First().rows, k) && n <= |tr.events|
    ensures RoomFor(cfg, w.keep, tr.states[n].rows, k)
    decreases n
  {
    hide Step, Clean, DistinctAttempts, RoomFor;
    if n > 0 {
      RoomUpTo(cfg, w, gz, tr, k, n - 1);
      StepKeepsRoom(cfg, w, gz, tr.states[n - 1], tr.events[n - 1], tr.states[n], k);
    }
  }

  lemma {:induction false} SettledStays(cfg: Config, w: World, gz: Key -> nat, tr: Trace, c: Candidate, i: nat, j: nat)
    requires CleanSweep(cfg, w, gz, tr) && RoomFor(cfg, w.keep, tr.First().rows, c.key) && c in Candidates(cfg, w)
    requires i <= j <= |tr.events| && Settled(cfg, gz(c.key), tr.states[i], c)
    ensures Settled(cfg, gz(c.key), tr.states[j], c)
    decreases j
  {
    hide Step, Settled, RoomFor, DistinctAttempts, Candidates;
    if i < j {
      SettledStays(cfg, w, gz, tr, c, i, j - 1);
      RoomUpTo(cfg, w, gz, tr, c.key, j - 1);
      StepSettles(cfg, w, gz, tr.states[j - 1], tr.events[j - 1], tr.states[j], c);
    }
  }

  lemma {:induction false} RoomAlong(cfg: Config, w: World, gz: Key -> nat, run: seq<Trace>, k: Key, a: nat, b: nat)
    requires CleanRun(cfg, w, gz, run) && a <= b < |run| && RoomFor(cfg, w.keep, run[a].First().rows, k)
    ensures RoomFor(cfg, w.keep, run[b].First().rows, k)
    decreases b
  {
    hide Step, Clean, DistinctAttempts, RoomFor;
    if b > a {
      RoomAlong(cfg, w, gz, run, k, a, b - 1);
      RoomUpTo(cfg, w, gz, run[b - 1], k, |run[b - 1].events|);
      assert run[b].First() == run[b - 1].Last();
    }
  }

  /** After the first sweep there is room in every later one for what its judgement makes room for. */
  lemma RoomLater(cfg: Config, w: World, gz: Key -> nat, run: seq<Trace>, st: SweepState, k: Key, a: nat)
    requires CleanRun(cfg, w, gz, run) && st.keep == w.keep && 0 < a < |run|
    requires RoomOnceJudged(cfg, st, w.keep, run[0].First().rows, k) && Reconciles(run[0].events, st)
    ensures RoomFor(cfg, w.keep, run[a].First().rows, k)
  {
    hide Step, Clean, DistinctAttempts, RoomFor, RoomOnceJudged, Reconciles;
    SweepMakesRoom(cfg, w, gz, run[0], st, k);
    assert run[1].First() == run[0].Last();
    RoomAlong(cfg, w, gz, run, k, 1, a);
  }

  /**
   A revision listed once, in a sweep that starts with room for it, is from then on cached or
   marked, in every later state of that sweep and of all the sweeps that follow.
   */
  lemma {:induction false} ListedStaysSettled(cfg: Config, w: World, gz: Key -> nat, run: seq<Trace>, a: nat, i: nat, b: nat, j: nat)
    requires CleanRun(cfg, w, gz, run) && a <= b < |run|
    requires i < |run[a].events| && IsListing(run[a].events[i])
    requires RoomFor(cfg, w.keep, run[a].First().rows, run[a].events[i].key)
    requires j <= |run[b].events| && (a < b || i < j)
    ensures var e := run[a].events[i]; Settled(cfg, gz(e.key), run[b].states[j], Candidate(e.repo, e.key))
    decreases b
  {
    hide Step, Settled, RoomFor, DistinctAttempts, Candidates;
    var e := run[a].events[i];
    var c := Candidate(e.repo, e.key);
    ListedIsCandidate(cfg, w, gz, run[a].states[i], e, run[a].states[i + 1]);
    RoomAlong(cfg, w, gz, run, c.key, a, b);
    if a == b {
      RoomUpTo(cfg, w, gz, run[a], c.key, i);
      StepSettles(cfg, w, gz, run[a].states[i], e, run[a].states[i + 1], c);
      SettledStays(cfg, w, gz, run[a], c, i + 1, j);
    } else {
      ListedStaysSettled(cfg, w, gz, run, a, i, b - 1, |run[b - 1].events|);
      assert run[b].states[0] == run[b - 1].states[|run[b - 1].events|];
      SettledStays(cfg, w, gz, run[b], c, 0, j);
    }
  }
}
