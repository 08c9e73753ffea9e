/** What one sweep is told by the outside: which repos exist, whose secrets were vended, which listings succeeded. */
module Plans {
  import opened Collections
  import opened Options
  import opened CacheModel
  import opened Settling

  datatype Snapshot = Snapshot(snap: string, rev: int)

  /** `listing` is absent when `duplicacy list` failed on the storage. */
  datatype StoragePlan = StoragePlan(name: string, listing: Option<seq<Snapshot>>)

  datatype RepoPlan = RepoPlan(id: string, vended: bool, storages: seq<StoragePlan>)

  type Plan = seq<RepoPlan>

  function Alias(name: string): string
  {
    if name == "" then "default" else name
  }

  function KeyOf(storage: string, s: Snapshot): Key
  {
    Key(s.snap, storage, s.rev)
  }

  function NewerIn(live: seq<Snapshot>, s: Snapshot): set<Snapshot>
  {
    set x | x in live && x.snap == s.snap && x.rev > s.rev
  }

  /** Repo ids, storage names within a repo, and revisions within a listing do not repeat. */
  predicate ValidPlan(plan: Plan)
  {
    && (forall i, j :: 0 <= i < j < |plan| ==> plan[i].id != plan[j].id)
    && (forall i :: 0 <= i < |plan| ==> ValidStorages(plan[i].storages))
  }

  predicate ValidStorages(sps: seq<StoragePlan>)
  {
    && (forall i, j :: 0 <= i < j < |sps| ==> Alias(sps[i].name) != Alias(sps[j].name))
    && (forall i :: 0 <= i < |sps| && sps[i].listing.Some? ==> Distinct(sps[i].listing.value))
  }

  function Ids(plan: Plan): set<string>
  {
    set r | r in plan :: r.id
  }

  // ------------------------------------------------------------------------------
  // What the sweep learns
  // ------------------------------------------------------------------------------

  const NOTHING_LEARNED := SweepState({}, {}, {}, {}, {})

  function LearnStorage(st: SweepState, repo: string, sp: StoragePlan): SweepState
  {
    match sp.listing
    case None => st.(failed := st.failed + {repo})
    case Some(live) =>
      st.(swept := st.swept + {Target(repo, Alias(sp.name))},
          sweptStorage := st.sweptStorage + {Alias(sp.name)},
          keep := st.keep + set s | s in live :: KeyOf(Alias(sp.name), s))
  }

  function LearnStorages(st: SweepState, repo: string, sps: seq<StoragePlan>): SweepState
  {
    if sps == [] then st
    else LearnStorage(LearnStorages(st, repo, sps[..|sps| - 1]), repo, sps[|sps| - 1])
  }

  function LearnRepo(st: SweepState, r: RepoPlan): SweepState
  {
    var st1 := st.(known := st.known + {r.id});
    if r.vended then LearnStorages(st1, r.id, r.storages) else st1.(failed := st1.failed + {r.id})
  }

  function Learned(plan: Plan): SweepState
  {
    if plan == [] then NOTHING_LEARNED
    else LearnRepo(Learned(plan[..|plan| - 1]), plan[|plan| - 1])
  }

  // ------------------------------------------------------------------------------
  // What the sweep offers to the warmer
  // ------------------------------------------------------------------------------

  function OfferedBy(repo: string, sp: StoragePlan, keepN: nat): set<Candidate>
  {
    if sp.listing.None? then {}
    else set s | s in sp.listing.value && |NewerIn(sp.listing.value, s)| < keepN
           :: Candidate(repo, KeyOf(Alias(sp.name), s))
  }

  function OfferedByAll(repo: string, sps: seq<StoragePlan>, keepN: nat): set<Candidate>
  {
    if sps == [] then {}
    else OfferedByAll(repo, sps[..|sps| - 1], keepN) + OfferedBy(repo, sps[|sps| - 1], keepN)
  }

  function OfferedByRepo(r: RepoPlan, keepN: nat): set<Candidate>
  {
    if r.vended then OfferedByAll(r.id, r.storages, keepN) else {}
  }

  function Offered(plan: Plan, keepN: nat): set<Candidate>
  {
    if plan == [] then {}
    else Offered(plan[..|plan| - 1], keepN) + OfferedByRepo(plan[|plan| - 1], keepN)
  }

  // ------------------------------------------------------------------------------
  // Declarative meaning
  // ------------------------------------------------------------------------------

  /** The repo's own listing of the storage succeeded. */
  predicate ListedOk(r: RepoPlan, storage: string)
  {
    r.vended && exists sp :: sp in r.storages && Alias(sp.name) == storage && sp.listing.Some?
  }

  predicate RepoFailed(r: RepoPlan)
  {
    !r.vended || exists sp :: sp in r.storages && sp.listing.None?
  }

  /** Some successful listing of the storage in this sweep shows the revision. */
  predicate SeenLive(plan: Plan, k: Key)
  {
    exists r, sp :: r in plan && r.vended && sp in r.storages && Alias(sp.name) == k.storage
                    && sp.listing.Some? && Snapshot(k.snap, k.rev) in sp.listing.value
  }

  lemma {:induction false} LearnStoragesMeans(st: SweepState, repo: string, sps: seq<StoragePlan>)
    ensures var st' := LearnStorages(st, repo, sps);
            && st'.known == st.known
            && (forall x :: x in st'.failed <==>
                  x in st.failed || (x == repo && exists sp :: sp in sps && sp.listing.None?))
            && (forall t :: t in st'.swept <==>
                  t in st.swept || (t.repo == repo && exists sp :: sp in sps && Alias(sp.name) == t.storage && sp.listing.Some?))
            && (forall g :: g in st'.sweptStorage <==>
                  g in st.sweptStorage || exists sp :: sp in sps && Alias(sp.name) == g && sp.listing.Some?)
            && (forall k :: k in st'.keep <==>
                  k in st.keep || exists sp :: sp in sps && Alias(sp.name) == k.storage
                                               && sp.listing.Some? && Snapshot(k.snap, k.rev) in sp.listing.value)
  {
    if sps != [] {
      var init, last := sps[..|sps| - 1], sps[|sps| - 1];
      LearnStoragesMeans(st, repo, init);
      assert forall sp :: sp in sps <==> sp in init || sp == last;
      if last.listing.Some? {
        forall k: Key
          ensures k in (set s | s in last.listing.value :: KeyOf(Alias(last.name), s)) <==>
                  Alias(last.name) == k.storage && Snapshot(k.snap, k.rev) in last.listing.value
        {
          assert KeyOf(k.storage, Snapshot(k.snap, k.rev)) == k;
        }
      }
    }
  }

  /** The bookkeeping of a sweep over `plan`, said without it. */
  ghost predicate Means(st: SweepState, plan: Plan)
  {
    && st.known == Ids(plan)
    && (forall x :: x in st.failed <==> exists r :: r in plan && r.id == x && RepoFailed(r))
    && (forall t :: t in st.swept <==> exists r :: r in plan && r.id == t.repo && ListedOk(r, t.storage))
    && (forall g :: g in st.sweptStorage <==> exists r :: r in plan && ListedOk(r, g))
    && (forall k :: k in st.keep <==> SeenLive(plan, k))
  }

  lemma {:induction false} LearnedMeans(plan: Plan)
    ensures Means(Learned(plan), plan)
  {
    if plan != [] {
      var init, last := plan[..|plan| - 1], plan[|plan| - 1];
      LearnedMeans(init);
      var st := Learned(init);
      LearnStoragesMeans(st.(known := st.known + {last.id}), last.id, last.storages);
      assert forall r :: r in plan <==> r in init || r == last;
      LearnRepoMeans(st, init, last, plan);
    }
  }

  lemma LearnRepoMeans(st: SweepState, init: Plan, last: RepoPlan, plan: Plan)
    requires Means(st, init)
    requires forall r :: r in plan <==> r in init || r == last
    ensures Means(LearnRepo(st, last), plan)
  {
    var st' := LearnRepo(st, last);
    LearnStoragesMeans(st.(known := st.known + {last.id}), last.id, last.storages);
    hide LearnStorages;
    assert st'.known == Ids(plan);
    assert forall k :: k in st'.keep <==> SeenLive(plan, k) by {
      forall k
        ensures k in st'.keep <==> SeenLive(plan, k)
      {
        SeenLiveNext(init, last, plan, k);
      }
    }
    assert forall x :: x in st'.failed <==> exists r :: r in plan && r.id == x && RepoFailed(r);
    assert forall t :: t in st'.swept <==> exists r :: r in plan && r.id == t.repo && ListedOk(r, t.storage);
    forall g
      ensures g in st'.sweptStorage <==> exists r :: r in plan && ListedOk(r, g)
    {
      if g in st'.sweptStorage && g !in st.sweptStorage {
        assert ListedOk(last, g);
      }
    }
  }

  lemma SeenLiveNext(init: Plan, last: RepoPlan, plan: Plan, k: Key)
    requires forall r :: r in plan <==> r in init || r == last
    ensures SeenLive(plan, k) <==>
            SeenLive(init, k) || (last.vended && exists sp :: sp in last.storages && Alias(sp.name) == k.storage
                                                  && sp.listing.Some? && Snapshot(k.snap, k.rev) in sp.listing.value)
  {
    if SeenLive(plan, k) {
      var r, sp :| r in plan && r.vended && sp in r.storages && Alias(sp.name) == k.storage
                   && sp.listing.Some? && Snapshot(k.snap, k.rev) in sp.listing.value;
      if r in init {
        assert SeenLive(init, k);
      }
    }
  }

  /** A row or marker of `repo` for `k` is taken away by the reconcile of a sweep over `plan`. */
  ghost predicate JudgedGone(plan: Plan, repo: string, k: Key)
  {
    && (if exists r :: r in plan && r.id == repo
        then forall r :: r in plan && r.id == repo ==> !RepoFailed(r) && ListedOk(r, k.storage)
        else exists r :: r in plan && ListedOk(r, k.storage))
    && !SeenLive(plan, k)
  }

  /**
   The reconcile deletes exactly the rows, and exactly the markers, that their own repo's
   successful listing (or, for a repo that is no longer known, any listing of the storage)
   can speak for, and that no listing shows.
   */
  lemma ReconcileIsExact(plan: Plan, s: Store)
    requires ValidPlan(plan)
    ensures var s' := Reconciled(s, Learned(plan));
            && (forall k :: k in s.rows ==> (k !in s'.rows <==> JudgedGone(plan, s.rows[k].repo, k)))
            && (forall k :: k in s'.rows ==> k in s.rows && s'.rows[k] == s.rows[k])
            && (forall m :: m in s.markers ==> (m !in s'.markers <==> JudgedGone(plan, m.repo, m.key)))
            && (forall m :: m in s'.markers ==> m in s.markers && s'.markers[m] == s.markers[m])
  {
    LearnedMeans(plan);
    forall repo, k
      ensures Stale(Learned(plan), repo, k) <==> JudgedGone(plan, repo, k)
    {
      StaleMeans(plan, Learned(plan), repo, k);
    }
  }

  lemma StaleMeans(plan: Plan, st: SweepState, repo: string, k: Key)
    requires ValidPlan(plan) && Means(st, plan)
    ensures Stale(st, repo, k) <==> JudgedGone(plan, repo, k)
  {
    hide RepoFailed, ListedOk, SeenLive;
    if exists r :: r in plan && r.id == repo {
      var r :| r in plan && r.id == repo;
      assert repo in st.known;
      SameRepo(plan, r);
    } else {
      assert repo !in st.known;
    }
  }

  lemma SameRepo(plan: Plan, r: RepoPlan)
    requires ValidPlan(plan) && r in plan
    ensures forall x :: x in plan && x.id == r.id ==> x == r
  {
    forall x | x in plan && x.id == r.id
      ensures x == r
    {
      var i :| 0 <= i < |plan| && plan[i] == r;
      var j :| 0 <= j < |plan| && plan[j] == x;
    }
  }

  /** A repo known to the agent never loses a row because another repo listed the same storage. */
  lemma OthersDoNotJudge(plan: Plan, s: Store, k: Key, r: RepoPlan)
    requires ValidPlan(plan) && r in plan
    requires k in s.rows && s.rows[k].repo == r.id
    requires RepoFailed(r) || !ListedOk(r, k.storage)
    ensures k in Reconciled(s, Learned(plan)).rows
  {
    hide RepoFailed, ListedOk, SeenLive, Reconciled;
    ReconcileIsExact(plan, s);
  }
}
