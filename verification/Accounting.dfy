/** What a sweep without failures achieves: whatever it attempts within the pin depth ends up cached or marked. */
module Accounting {
  import opened CacheModel
  import opened Eviction
  import opened Sweeps
  import opened Settling

  /** The revision is cached, or a marker says why it is not. */
  ghost predicate Accounted(s: Store, k: Key)
  {
    k in s.rows || exists repo :: MarkerKey(repo, k) in s.markers
  }

  lemma SettledIsAccounted(cfg: Config, gz: nat, s: Store, c: Candidate)
    requires Settled(cfg, gz, s, c)
    ensures Accounted(s, c.key)
  {
    if c.key !in s.rows {
      assert MarkerKey(c.repo, c.key) in s.markers;
    }
  }

  lemma EvictionAccounts(cfg: Config, w: World, s: Store, exempt: set<string>, s': Store, c: Candidate)
    requires c in Candidates(cfg, w) && RoomFor(cfg, w.keep, s.rows, c.key)
    requires Evicts(cfg, s, exempt, s') && Accounted(s, c.key)
    ensures Accounted(s', c.key)
  {
    if cfg.maxBytes > 0 && Bytes(s.rows) > cfg.maxBytes {
      var pin, victims := VictimsOf(cfg, s, exempt, s');
      if c.key in s.rows {
        RankWithinLive(w.keep, s.rows, c.key);
        assert c.key in victims ==> MarkerKey(s.rows[c.key].repo, c.key) in CapMarked(cfg, s.rows, victims);
        assert c.key in victims ==> MarkerKey(s.rows[c.key].repo, c.key) in s'.markers;
      } else {
        var repo :| MarkerKey(repo, c.key) in s.markers;
        assert MarkerKey(repo, c.key) in s'.markers;
      }
    }
  }

  lemma StepAccounts(cfg: Config, w: World, gz: Key -> nat, s: Store, e: Event, s': Store, c: Candidate)
    requires Clean(w, gz, e) && Step(cfg, s, e, s')
    requires c in Candidates(cfg, w) && RoomFor(cfg, w.keep, s.rows, c.key) && Accounted(s, c.key)
    ensures Accounted(s', c.key)
  {
    hide RoomFor;
    if c.key !in s.rows {
      var repo :| MarkerKey(repo, c.key) in s.markers;
      assert !e.FinalEvict? && !IsListing(e) ==> MarkerKey(repo, c.key) in s'.markers;
    }
    match e
    case FinalEvict(exempt) => EvictionAccounts(cfg, w, s, exempt, s', c);
    case Attempt(repo, key, _, listed, _) =>
      if listed {
        ListingAccounts(cfg, w, gz(key), s, repo, key, s', c);
      }
    case _ =>
  }

  lemma ListingAccounts(cfg: Config, w: World, gz: nat, s: Store, repo: string, k: Key, s': Store, c: Candidate)
    requires k in w.keep && Stores(cfg, s, repo, k, Listed(gz), s')
    requires c in Candidates(cfg, w) && RoomFor(cfg, w.keep, s.rows, c.key) && Accounted(s, c.key)
    ensures Accounted(s', c.key)
  {
    hide RoomFor, Candidates;
    if OverCeiling(cfg, gz) || OverRowCap(cfg, gz) {
      if c.key !in s.rows {
        var r :| MarkerKey(r, c.key) in s.markers;
        assert MarkerKey(r, c.key) in s'.markers;
      }
    } else {
      hide Evicts;
      var t: Table :| Upserts(s.rows, k, repo, gz, t) && Evicts(cfg, s.(rows := t), {}, s');
      assert Accounted(s.(rows := t), c.key) by {
        if c.key !in t {
          var r :| MarkerKey(r, c.key) in s.markers;
          assert MarkerKey(r, c.key) in s.(rows := t).markers;
        }
      }
      RoomStays(cfg, w.keep, s.rows, t, c.key);
      EvictionAccounts(cfg, w, s.(rows := t), {}, s', c);
    }
  }

  lemma {:induction false} AccountedStays(cfg: Config, w: World, gz: Key -> nat, tr: Trace, c: Candidate, i: nat, j: nat)
    requires CleanSweep(cfg, w, gz, tr) && RoomFor(cfg, w.keep, tr.First().rows, c.key) && c in Candidates(cfg, w)
    requires i <= j <= |tr.events| && Accounted(tr.states[i], c.key)
    ensures Accounted(tr.states[j], c.key)
    decreases j
  {
    hide Step, RoomFor, Accounted, DistinctAttempts, Candidates;
    if i < j {
      AccountedStays(cfg, w, gz, tr, c, i, j - 1);
      RoomUpTo(cfg, w, gz, tr, c.key, j - 1);
      StepAccounts(cfg, w, gz, tr.states[j - 1], tr.events[j - 1], tr.states[j], c);
    }
  }

  /** The attempt is at a revision within the pin depth of the moment. */
  ghost predicate WithinPin(cfg: Config, s: Store, rank: nat)
  {
    exists pin :: IsPinDepth(s.rows, cfg.warmKeepN, cfg.maxBytes, pin) && rank < pin
  }

  lemma AttemptAccounts(cfg: Config, w: World, gz: Key -> nat, s: Store, e: Event, s': Store)
    requires Clean(w, gz, e) && e.Attempt? && Step(cfg, s, e, s') && WithinPin(cfg, s, e.rank)
    requires RoomFor(cfg, w.keep, s.rows, e.key)
    ensures Candidate(e.repo, e.key) in Candidates(cfg, w) && Accounted(s', e.key)
    ensures e.listed ==> Settled(cfg, gz(e.key), s', Candidate(e.repo, e.key))
  {
    var c := Candidate(e.repo, e.key);
    PinBelowWindow(cfg, s, e.rank);
    if e.listed {
      StepSettles(cfg, w, gz, s, e, s', c);
      SettledIsAccounted(cfg, gz(e.key), s', c);
    } else {
      hide RoomFor, IsPinDepth;
      if e.key !in s.rows {
        assert MarkerKey(e.repo, e.key) in s.markers;
      }
    }
  }

  lemma PinBelowWindow(cfg: Config, s: Store, rank: nat)
    requires WithinPin(cfg, s, rank)
    ensures rank < cfg.warmKeepN
  {
  }

  /** The sweep attempts the revision at its i-th event. */
  predicate AttemptsAt(events: seq<Event>, x: Candidate, i: nat)
  {
    i < |events| && events[i].Attempt? && x == Candidate(events[i].repo, events[i].key)
  }

  /** What an attempt that came in time means for the end of the sweep. */
  ghost predicate WarmedAt(cfg: Config, gz: nat, tr: Trace, x: Candidate, i: nat)
    requires i < |tr.states| && i < |tr.events| && tr.events[i].Attempt?
  {
    WithinPin(cfg, tr.states[i], tr.events[i].rank) ==>
      && Accounted(tr.Last(), x.key)
      && (tr.events[i].listed ==> Settled(cfg, gz, tr.Last(), x))
  }

  lemma SweepAccounts(cfg: Config, w: World, gz: Key -> nat, tr: Trace, x: Candidate, i: nat)
    requires CleanSweep(cfg, w, gz, tr) && RoomFor(cfg, w.keep, tr.First().rows, x.key)
    requires AttemptsAt(tr.events, x, i)
    ensures WarmedAt(cfg, gz(x.key), tr, x, i)
  {
    hide Settled, Accounted, RoomFor, WithinPin, Candidates, Step, DistinctAttempts;
    if WithinPin(cfg, tr.states[i], tr.events[i].rank) {
      RoomUpTo(cfg, w, gz, tr, x.key, i);
      AttemptAccounts(cfg, w, gz, tr.states[i], tr.events[i], tr.states[i + 1]);
      AccountedStays(cfg, w, gz, tr, x, i + 1, |tr.events|);
      if tr.events[i].listed {
        SettledStays(cfg, w, gz, tr, x, i + 1, |tr.events|);
      }
    }
  }

  // ------------------------------------------------------------------------------
  // What lets a marked revision back in
  // ------------------------------------------------------------------------------

  /** The limit that kept the revision out is not today's: another cap, another ceiling, or a row cap it now meets. */
  predicate Outdated(cfg: Config, m: Marker)
  {
    match m.reason
    case RowCap => 0 < m.gz <= cfg.rowMax
    case SpoolCeiling => m.cap != cfg.ceiling
    case CapEvicted => m.cap != cfg.maxBytes
  }

  /** The size cap evicted the revision, and by now there is room for it. */
  ghost predicate RoomAgain(cfg: Config, s: Store, m: Marker)
  {
    m.reason.CapEvicted? && Bytes(s.rows) + m.gz <= cfg.maxBytes
  }

  /** The listing can be a row, and the cache has room for it. */
  ghost predicate FitsNow(cfg: Config, s: Store, gz: nat)
  {
    && gz <= cfg.ceiling
    && (cfg.rowMax <= 0 || gz <= cfg.rowMax)
    && (cfg.maxBytes <= 0 || Bytes(s.rows) + gz <= cfg.maxBytes)
  }

  lemma EvictionKeepsForeignMarker(cfg: Config, s: Store, exempt: set<string>, s': Store, x: Candidate, m: Marker)
    requires Evicts(cfg, s, exempt, s') && Marked(s, x, m) && !OwnRow(s, x)
    ensures Marked(s', x, m) && !OwnRow(s', x)
  {
    hide Evicts, Rank;
    EvictionMarksExactly(cfg, s, exempt, s', MarkerKey(x.repo, x.key));
    EvictionShrinks(cfg, s, exempt, s');
  }

  /** Until its own attempt, nothing a sweep does touches the marker of a revision that its repo has not cached. */
  lemma StepKeepsMarker(cfg: Config, w: World, gz: Key -> nat, s: Store, e: Event, s': Store, x: Candidate, m: Marker)
    requires Clean(w, gz, e) && Step(cfg, s, e, s') && x.key in w.keep
    requires Marked(s, x, m) && !OwnRow(s, x)
    requires e.Attempt? ==> x != Candidate(e.repo, e.key)
    ensures Marked(s', x, m) && !OwnRow(s', x)
  {
    match e
    case FinalEvict(exempt) => EvictionKeepsForeignMarker(cfg, s, exempt, s', x, m);
    case Attempt(repo, key, _, listed, _) =>
      if listed && !OverCeiling(cfg, gz(key)) && !OverRowCap(cfg, gz(key)) {
        hide Evicts, Wanted;
        var t: Table :| Upserts(s.rows, key, repo, gz(key), t) && Evicts(cfg, s.(rows := t), {}, s');
        EvictionKeepsForeignMarker(cfg, s.(rows := t), {}, s', x, m);
      }
    case _ =>
      hide Evicts;
  }

  lemma {:induction false} MarkerWaits(cfg: Config, w: World, gz: Key -> nat, tr: Trace, x: Candidate, m: Marker, i: nat, n: nat)
    requires CleanSweep(cfg, w, gz, tr) && AttemptsAt(tr.events, x, i) && n <= i
    requires Marked(tr.First(), x, m) && !OwnRow(tr.First(), x)
    ensures Marked(tr.states[n], x, m) && !OwnRow(tr.states[n], x)
    decreases n
  {
    hide Step, Marked, OwnRow;
    assert Clean(w, gz, tr.events[i]);
    if n > 0 {
      MarkerWaits(cfg, w, gz, tr, x, m, i, n - 1);
      assert tr.events[n - 1].Attempt? ==> x != Candidate(tr.events[n - 1].repo, tr.events[n - 1].key);
      StepKeepsMarker(cfg, w, gz, tr.states[n - 1], tr.events[n - 1], tr.states[n], x, m);
    }
  }

  /** A listing above the ceiling, or above the row cap, leaves the rows alone and the marker that says which. */
  lemma TooLargeIsMarked(cfg: Config, s: Store, e: Event, s': Store)
    requires IsListing(e) && Step(cfg, s, e, s') && e.child.Listed?
    requires e.child.gz > cfg.ceiling || (cfg.rowMax > 0 && e.child.gz > cfg.rowMax)
    ensures s'.rows == s.rows
    ensures Marked(s', Candidate(e.repo, e.key),
                   if e.child.gz > cfg.ceiling then Marker(SpoolCeiling, 0, cfg.ceiling) else Marker(RowCap, e.child.gz, 0))
    ensures forall m :: m in s'.markers && m != MarkerKey(e.repo, e.key) ==> m in s.markers && s'.markers[m] == s.markers[m]
  {
    hide Wanted, Puts;
  }

  /** What becomes of a revision attempted at the i-th event that the sweep found marked with `m`. */
  ghost predicate ReadmittedAt(cfg: Config, gz: nat, tr: Trace, x: Candidate, m: Marker, i: nat)
    requires |tr.states| == |tr.events| + 1 && AttemptsAt(tr.events, x, i)
  {
    var s, s' := tr.states[i], tr.states[i + 1];
    && (tr.events[i].listed <==>
          && WithinPin(cfg, s, tr.events[i].rank) && x.key !in s.rows
          && (Outdated(cfg, m) || RoomAgain(cfg, s, m)))
    && (tr.events[i].listed && FitsNow(cfg, s, gz) ==>
          x.key in s'.rows && s'.rows[x.key].repo == x.repo && s'.rows[x.key].gz == gz)
  }

  lemma ListedBecomesRow(cfg: Config, s: Store, repo: string, k: Key, gz: nat, s': Store)
    requires Stores(cfg, s, repo, k, Listed(gz), s') && k !in s.rows && FitsNow(cfg, s, gz)
    ensures k in s'.rows && s'.rows[k].repo == repo && s'.rows[k].gz == gz
  {
    if cfg.maxBytes > 0 {
      RoomyPutEvictsNothing(cfg, s, k, repo, gz, s');
    } else {
      hide Rank, Bytes;
    }
  }

  lemma SweepReadmits(cfg: Config, w: World, gz: Key -> nat, tr: Trace, x: Candidate, m: Marker, i: nat)
    requires CleanSweep(cfg, w, gz, tr) && AttemptsAt(tr.events, x, i)
    requires Marked(tr.First(), x, m) && !OwnRow(tr.First(), x)
    ensures ReadmittedAt(cfg, gz(x.key), tr, x, m, i)
  {
    var s, e, s' := tr.states[i], tr.events[i], tr.states[i + 1];
    assert Step(cfg, s, e, s') && Clean(w, gz, e);
    MarkerWaits(cfg, w, gz, tr, x, m, i, i);
    if e.listed {
      hide Wanted, CleanSweep;
      if FitsNow(cfg, s, gz(x.key)) && x.key !in s.rows {
        hide FitsNow, Bytes;
        ListedBecomesRow(cfg, s, x.repo, x.key, gz(x.key), s');
      }
    }
    hide Stores, Evicts, FitsNow, Clean, CleanSweep, IsPinDepth, Bytes;
    assert e.listed <==> Wanted(cfg, s, e.repo, e.key, e.rank);
  }
}
