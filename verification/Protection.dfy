/** A repo whose outcome is unknown when a sweep ends has lost none of the rows it owned when the sweep began. */
module Protection {
  import opened CacheModel
  import opened Eviction
  import opened Sweeps

  /** The row of `k` still belongs to `repo` under the rowid it had. */
  predicate Owns(s: Store, repo: string, k: Key, rowid: int)
  {
    k in s.rows && s.rows[k].repo == repo && s.rows[k].rowid == rowid
  }

  /** What may happen between `sweepBegin` and `sweepEnd`, as far as `repo` is concerned. */
  predicate WhilePending(e: Event, repo: string)
  {
    match e
    case Attempt(_, _, _, _, _) => true
    case RepoDone(r) => r != repo
    case Touch(_, _) => true
    case InteractivePut(_, _, _) => true
    case Drop(_) => true
    case _ => false
  }

  /** What follows `sweepEnd`: one reconcile and one eviction that know `repo` failed. */
  predicate AfterEnd(e: Event, repo: string)
  {
    match e
    case Reconcile(learned) => repo in learned.failed
    case FinalEvict(exempt) => repo in exempt
    case Touch(_, _) => true
    case _ => false
  }

  /** The event neither hands the row over to another repo nor drops it. */
  predicate Spares(e: Event, repo: string, k: Key)
  {
    && (e.InteractivePut? && e.key == k ==> e.repo == repo)
    && e != Drop(k)
  }

  predicate AllSpare(events: seq<Event>, repo: string, k: Key)
  {
    forall i :: 0 <= i < |events| ==> Spares(events[i], repo, k)
  }

  /** A sweep in which `repo` was pending from the start and never finished, up to and after `sweepEnd`. */
  predicate LeavesUnknown(events: seq<Event>, repo: string, end: nat)
  {
    && 1 <= end < |events|
    && events[0].Begin? && repo in events[0].ids
    && (forall i :: 1 <= i < end ==> WhilePending(events[i], repo))
    && events[end] == End
    && (forall i :: end < i < |events| ==> AfterEnd(events[i], repo))
  }

  lemma PendingStepKeepsRow(cfg: Config, s: Store, e: Event, s': Store, repo: string, k: Key, rowid: int)
    requires Step(cfg, s, e, s') && WhilePending(e, repo) && Spares(e, repo, k)
    requires Owns(s, repo, k, rowid) && repo in s.pending && rowid <= s.fence
    ensures Owns(s', repo, k, rowid) && repo in s'.pending && s'.fence == s.fence
  {
    hide Evicts;
    match e
    case Attempt(r, key, _, listed, child) =>
      if listed && child.Listed? && !OverCeiling(cfg, child.gz) && !OverRowCap(cfg, child.gz) {
        PutKeepsRow(cfg, s, key, r, child.gz, s', repo, k, rowid);
      }
    case InteractivePut(r, key, gz) => PutKeepsRow(cfg, s, key, r, gz, s', repo, k, rowid);
    case _ =>
  }

  lemma PutKeepsRow(cfg: Config, s: Store, key: Key, r: string, gz: nat, s': Store, repo: string, k: Key, rowid: int)
    requires Puts(cfg, s, key, r, gz, s')
    requires key == k ==> r == repo
    requires Owns(s, repo, k, rowid) && repo in s.pending && rowid <= s.fence
    ensures Owns(s', repo, k, rowid) && s'.pending == s.pending && s'.fence == s.fence
  {
    var t: Table :| Upserts(s.rows, key, r, gz, t) && Evicts(cfg, s.(rows := t), {}, s');
    ShieldedRowSurvives(cfg, s.(rows := t), {}, s', k);
  }

  lemma LateStepKeepsRow(cfg: Config, s: Store, e: Event, s': Store, repo: string, k: Key, rowid: int)
    requires Step(cfg, s, e, s') && AfterEnd(e, repo)
    requires Owns(s, repo, k, rowid)
    ensures Owns(s', repo, k, rowid)
  {
    if e.FinalEvict? {
      ShieldedRowSurvives(cfg, s, e.exempt, s', k);
    }
  }

  lemma {:induction false} RowSurvivesUpTo(cfg: Config, tr: Trace, repo: string, end: nat, k: Key, n: nat)
    requires tr.Valid(cfg) && LeavesUnknown(tr.events, repo, end) && AllSpare(tr.events, repo, k)
    requires k in tr.First().rows && tr.First().rows[k].repo == repo
    requires 1 <= n <= |tr.events|
    ensures Owns(tr.states[n], repo, k, tr.First().rows[k].rowid)
    ensures n <= end ==> repo in tr.states[n].pending && tr.First().rows[k].rowid <= tr.states[n].fence
    decreases n
  {
    hide Evicts, Stores, Wanted, Puts;
    var rowid := tr.First().rows[k].rowid;
    var s, e, s' := tr.states[n - 1], tr.events[n - 1], tr.states[n];
    assert Step(cfg, s, e, s');
    if n > 1 {
      hide Step;
      RowSurvivesUpTo(cfg, tr, repo, end, k, n - 1);
      if n - 1 < end {
        PendingStepKeepsRow(cfg, s, e, s', repo, k, rowid);
      } else if n - 1 == end {
        EndKeepsRow(cfg, s, e, s', repo, k, rowid);
      } else {
        LateStepKeepsRow(cfg, s, e, s', repo, k, rowid);
      }
    }
  }

  lemma EndKeepsRow(cfg: Config, s: Store, e: Event, s': Store, repo: string, k: Key, rowid: int)
    requires e.End? && Step(cfg, s, e, s') && Owns(s, repo, k, rowid)
    ensures Owns(s', repo, k, rowid)
  {
  }

  /**
   Whole-sweep protection. Through every per-put eviction of the sweep and of the requests
   served meanwhile, the reconcile and the final eviction, every row the repo owned at the
   beginning is still there, still its own, under its rowid, unless a request for another
   repo stored the same revision or a request dropped the row. A sweep that is cancelled early
   is one whose trace stops at `End`.
   */
  lemma UnknownRepoKeepsItsRows(cfg: Config, tr: Trace, repo: string, end: nat)
    requires tr.Valid(cfg) && LeavesUnknown(tr.events, repo, end)
    ensures forall k :: k in tr.First().rows && tr.First().rows[k].repo == repo && AllSpare(tr.events, repo, k) ==>
                          Owns(tr.Last(), repo, k, tr.First().rows[k].rowid)
  {
    forall k | k in tr.First().rows && tr.First().rows[k].repo == repo && AllSpare(tr.events, repo, k)
      ensures Owns(tr.Last(), repo, k, tr.First().rows[k].rowid)
    {
      hide *;
      RowSurvivesUpTo(cfg, tr, repo, end, k, |tr.events|);
    }
  }

  /** A row that another repo stores is no longer the first one's, so no protection can hold on to it. */
  lemma TakenOver(cfg: Config, s: Store, e: Event, s': Store, repo: string, k: Key, rowid: int)
    requires Step(cfg, s, e, s') && !Spares(e, repo, k)
    ensures !Owns(s', repo, k, rowid)
  {
    if e.InteractivePut? {
      var t: Table :| Upserts(s.rows, k, e.repo, e.gz, t) && Evicts(cfg, s.(rows := t), {}, s');
      if cfg.maxBytes > 0 && Bytes(t) > cfg.maxBytes {
        var pin, victims := VictimsOf(cfg, s.(rows := t), {}, s');
      }
    }
  }

  /** A row stored after the sweep began lies above its fence and is not protected, whoever is pending. */
  lemma LaterRowIsNotProtected(cfg: Config, s: Store, ids: set<string>, s': Store, later: Store, k: Key)
    requires Step(cfg, s, Begin(ids), s') && later.fence == s'.fence && k in later.rows
    requires later.rows[k].rowid > 0 && forall x :: x in s.rows ==> later.rows[k].rowid > s.rows[x].rowid
    ensures !Shielded(later, {}, k)
  {
  }
}
