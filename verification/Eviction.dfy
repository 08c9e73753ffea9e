/** What eviction keeps: the pinned prefix, the pin depth, the shielded rows; and that it settles at once. */
module Eviction {
  import opened Collections
  import opened Sums
  import opened CacheModel

  // ------------------------------------------------------------------------------
  // Ranks
  // ------------------------------------------------------------------------------

  lemma RankShrinks(small: Table, big: Table, k: Key)
    requires small.Keys <= big.Keys
    ensures Rank(small, k) <= Rank(big, k)
  {
    Cardinality(Newer(small, k), Newer(big, k));
  }

  lemma NewerRankIsSmaller(t: Table, k: Key, x: Key)
    requires x in Newer(t, k)
    ensures Rank(t, x) < Rank(t, k)
  {
    Cardinality(Newer(t, x), Newer(t, k) - {x});
  }

  lemma {:induction false} OldestOf(s: set<Key>) returns (y: Key)
    requires s != {}
    ensures y in s && forall x :: x in s ==> y.rev <= x.rev
    decreases s
  {
    y :| y in s;
    if s != {y} {
      var z := OldestOf(s - {y});
      if z.rev < y.rev {
        y := z;
      }
    }
  }

  function ShallowNewer(t: Table, k: Key, depth: int): set<Key>
  {
    set x | x in t && SamePartition(x, k) && x.rev > k.rev && Rank(t, x) <= depth
  }

  /** A row deeper than `depth` has at least `depth` newer rows of rank at most `depth`. */
  lemma {:induction false} DeepRowHasShallowNewer(t: Table, k: Key, depth: nat)
    requires Rank(t, k) > depth
    ensures |ShallowNewer(t, k, depth)| >= depth
    decreases Rank(t, k)
  {
    var newer := Newer(t, k);
    if |newer| == depth {
      forall x | x in newer
        ensures x in ShallowNewer(t, k, depth)
      {
        NewerRankIsSmaller(t, k, x);
      }
      assert ShallowNewer(t, k, depth) == newer;
    } else {
      var y := OldestOf(newer);
      assert Newer(t, y) == newer - {y};
      DeepRowHasShallowNewer(t, y, depth);
      Cardinality(ShallowNewer(t, y, depth), ShallowNewer(t, k, depth));
    }
  }

  /** Taking rows deeper than `pin` away leaves the rows within any depth up to `pin` as they were. */
  lemma PrefixUntouched(t: Table, gone: set<Key>, pin: int, depth: nat)
    requires forall k :: k in gone ==> k in t && Rank(t, k) > pin
    requires depth <= pin
    ensures Within(t - gone, depth) == Within(t, depth)
  {
    var t' := t - gone;
    forall k | k in t
      ensures (k in t' && Rank(t', k) <= depth) <==> Rank(t, k) <= depth
    {
      if Rank(t, k) <= depth {
        RankShrinks(t', t, k);
      } else {
        DeepRowHasShallowNewer(t, k, depth);
        Cardinality(ShallowNewer(t, k, depth), Newer(t', k));
      }
    }
  }

  // ------------------------------------------------------------------------------
  // Sizes and the pin depth
  // ------------------------------------------------------------------------------

  lemma BytesSubset(small: Table, big: Table)
    requires forall k :: k in small ==> k in big && small[k].gz == big[k].gz
    ensures Bytes(small) <= Bytes(big)
  {
    TotalSubmap(Weights(small), Weights(big));
  }

  lemma BytesAdd(t: Table, k: Key, r: Row)
    requires k !in t
    ensures Bytes(t[k := r]) == Bytes(t) + r.gz
  {
    TotalAdd(Weights(t), k, r.gz);
    assert Weights(t[k := r]) == Weights(t)[k := r.gz];
  }

  /** The next depth adds exactly the rows of that rank. */
  lemma PrefixStep(t: Table, d: int)
    ensures PrefixBytes(t, d + 1) == PrefixBytes(t, d) + Bytes(AtRank(t, d + 1))
  {
    var a, b := Weights(Within(t, d)), Weights(AtRank(t, d + 1));
    TotalUnion(a, b);
    assert a + b == Weights(Within(t, d + 1));
  }

  lemma PinUnique(t: Table, warmN: nat, cap: int, a: int, b: int)
    requires IsPinDepth(t, warmN, cap, a) && IsPinDepth(t, warmN, cap, b)
    ensures a == b
  {
  }

  lemma {:induction false} PinExists(t: Table, warmN: nat, cap: int) returns (pin: int)
    ensures IsPinDepth(t, warmN, cap, pin)
  {
    if cap <= 0 {
      return warmN;
    }
    pin := warmN;
    while pin > PinFloor(warmN) && PrefixBytes(t, pin) > cap
      invariant PinFloor(warmN) <= pin <= warmN
      invariant forall d :: pin < d <= warmN ==> PrefixBytes(t, d) > cap
    {
      pin := pin - 1;
    }
  }

  /** Evicting rows beyond the pin depth never lowers the pin depth. */
  lemma PinNeverDecreases(t: Table, gone: set<Key>, warmN: nat, cap: int, pin: int, pin': int)
    requires IsPinDepth(t, warmN, cap, pin)
    requires forall k :: k in gone ==> k in t && Rank(t, k) > pin
    requires IsPinDepth(t - gone, warmN, cap, pin')
    ensures pin <= pin'
  {
    PrefixUntouched(t, gone, pin, pin);
    assert PrefixBytes(t - gone, pin) == PrefixBytes(t, pin);
  }

  // ------------------------------------------------------------------------------
  // Eviction as a whole
  // ------------------------------------------------------------------------------

  /** The pin depth and the victims of an eviction that has something to do. */
  lemma VictimsOf(cfg: Config, s: Store, exempt: set<string>, s': Store) returns (pin: int, victims: set<Key>)
    requires Evicts(cfg, s, exempt, s')
    requires cfg.maxBytes > 0 && Bytes(s.rows) > cfg.maxBytes
    ensures IsPinDepth(s.rows, cfg.warmKeepN, cfg.maxBytes, pin)
    ensures victims <= Eligible(s, exempt, pin)
    ensures Bytes(s'.rows) <= cfg.maxBytes || victims == Eligible(s, exempt, pin)
    ensures s' == AfterEviction(cfg, s, victims)
  {
    pin, victims :| IsPinDepth(s.rows, cfg.warmKeepN, cfg.maxBytes, pin)
                    && IsVictimSet(cfg, s, exempt, pin, victims)
                    && s' == AfterEviction(cfg, s, victims);
  }

  /** Rows that an eviction leaves are as they were. */
  lemma EvictionShrinks(cfg: Config, s: Store, exempt: set<string>, s': Store)
    requires Evicts(cfg, s, exempt, s')
    ensures forall k :: k in s'.rows ==> k in s.rows && s'.rows[k] == s.rows[k]
  {
    if cfg.maxBytes > 0 && Bytes(s.rows) > cfg.maxBytes {
      var pin, victims := VictimsOf(cfg, s, exempt, s');
    }
  }

  /** A second eviction with the same exemptions deletes nothing and marks nothing. */
  lemma EvictionIsIdempotent(cfg: Config, s: Store, exempt: set<string>, s': Store, s'': Store)
    requires Evicts(cfg, s, exempt, s')
    requires Evicts(cfg, s', exempt, s'')
    ensures s'' == s'
  {
    if cfg.maxBytes > 0 && Bytes(s.rows) > cfg.maxBytes && Bytes(s'.rows) > cfg.maxBytes {
      var pin, victims := VictimsOf(cfg, s, exempt, s');
      var pin', victims' := VictimsOf(cfg, s', exempt, s'');
      PinNeverDecreases(s.rows, victims, cfg.warmKeepN, cfg.maxBytes, pin, pin');
      EligibleShrinks(s, victims, s', exempt, pin, pin');
      NothingEvicted(cfg, s');
    }
  }

  lemma EligibleShrinks(s: Store, gone: set<Key>, s': Store, exempt: set<string>, pin: int, pin': int)
    requires s'.rows == s.rows - gone && s'.pending == s.pending && s'.fence == s.fence && pin <= pin'
    ensures Eligible(s', exempt, pin') <= Eligible(s, exempt, pin) - gone
  {
    forall k | k in Eligible(s', exempt, pin')
      ensures k in Eligible(s, exempt, pin) - gone
    {
      RankShrinks(s'.rows, s.rows, k);
    }
  }

  lemma NothingEvicted(cfg: Config, s: Store)
    ensures AfterEviction(cfg, s, {}) == s
  {
    assert CapMarkers(cfg, s.rows, {}) == map[];
  }

  /** Nothing is left to evict: the cache fits, or only the newest `PinFloor` rows of each partition remain. */
  ghost predicate Quiet(cfg: Config, t: Table)
  {
    || cfg.maxBytes <= 0
    || Bytes(t) <= cfg.maxBytes
    || forall k :: k in t ==> Rank(t, k) <= PinFloor(cfg.warmKeepN)
  }

  lemma QuietShrinks(cfg: Config, small: Table, big: Table)
    requires Quiet(cfg, big)
    requires forall k :: k in small ==> k in big && small[k] == big[k]
    ensures Quiet(cfg, small)
  {
    BytesSubset(small, big);
    forall k | k in small
      ensures Rank(small, k) <= Rank(big, k)
    {
      RankShrinks(small, big, k);
    }
  }

  /** In a quiet cache no eviction does anything, whoever is exempt. */
  lemma QuietEvictsNothing(cfg: Config, s: Store, exempt: set<string>, s': Store)
    requires Quiet(cfg, s.rows)
    requires Evicts(cfg, s, exempt, s')
    ensures s' == s
  {
    if cfg.maxBytes > 0 && Bytes(s.rows) > cfg.maxBytes {
      var pin, victims := VictimsOf(cfg, s, exempt, s');
      assert Eligible(s, exempt, pin) == {};
      NothingEvicted(cfg, s);
    }
  }

  /** When everything beyond the pin is gone and the rest still exceeds the cap, the pin is the floor. */
  lemma OverflowMeansFloor(t: Table, gone: set<Key>, warmN: nat, cap: int, pin: int)
    requires cap > 0 && IsPinDepth(t, warmN, cap, pin)
    requires gone == set k | k in t && Rank(t, k) > pin
    requires Bytes(t - gone) > cap
    ensures pin == PinFloor(warmN)
    ensures forall k :: k in t - gone ==> Rank(t - gone, k) <= pin
  {
    forall k | k in t - gone
      ensures Rank(t - gone, k) <= pin
    {
      RankShrinks(t - gone, t, k);
    }
    assert Within(t, pin) == t - gone;
  }

  /** An eviction that shields nobody always leaves the cache quiet. */
  lemma EvictionQuiets(cfg: Config, s: Store, s': Store)
    requires s.pending == {}
    requires Evicts(cfg, s, {}, s')
    ensures Quiet(cfg, s'.rows)
  {
    if cfg.maxBytes > 0 && Bytes(s.rows) > cfg.maxBytes && Bytes(s'.rows) > cfg.maxBytes {
      var pin, victims := VictimsOf(cfg, s, {}, s');
      assert victims == set k | k in s.rows && Rank(s.rows, k) > pin;
      OverflowMeansFloor(s.rows, victims, cfg.warmKeepN, cfg.maxBytes, pin);
    }
  }

  /** A pinned row, an exempt row and a pending row at or below the fence outlive every eviction. */
  lemma ShieldedRowSurvives(cfg: Config, s: Store, exempt: set<string>, s': Store, k: Key)
    requires Evicts(cfg, s, exempt, s')
    requires k in s.rows
    requires Shielded(s, exempt, k) || exists pin ::
               IsPinDepth(s.rows, cfg.warmKeepN, cfg.maxBytes, pin) && Rank(s.rows, k) <= pin
    ensures k in s'.rows && s'.rows[k] == s.rows[k]
  {
    if cfg.maxBytes > 0 && Bytes(s.rows) > cfg.maxBytes {
      var pin, victims := VictimsOf(cfg, s, exempt, s');
      assert k !in Eligible(s, exempt, pin);
    }
  }

  /** No shallower row goes while a deeper row that could have gone stays. */
  lemma DeeperGoesFirst(cfg: Config, s: Store, exempt: set<string>, s': Store, deep: Key, shallow: Key)
    requires Evicts(cfg, s, exempt, s')
    requires deep in s.rows && shallow in s.rows && Rank(s.rows, deep) > Rank(s.rows, shallow)
    requires !Shielded(s, exempt, deep)
    requires shallow !in s'.rows
    ensures deep !in s'.rows
  {
    var pin, victims :| IsPinDepth(s.rows, cfg.warmKeepN, cfg.maxBytes, pin)
                        && IsVictimSet(cfg, s, exempt, pin, victims)
                        && s' == AfterEviction(cfg, s, victims);
    assert shallow in victims;
    assert deep in Eligible(s, exempt, pin);
    assert deep !in victims ==> ScansBefore(s.rows, shallow, deep);
  }

  /** Of two rows equally deep, the one used last does not go while the other, which could have gone, stays. */
  lemma LeastRecentGoesFirst(cfg: Config, s: Store, exempt: set<string>, s': Store, stale: Key, recent: Key)
    requires Evicts(cfg, s, exempt, s')
    requires stale in s.rows && recent in s.rows && Rank(s.rows, stale) == Rank(s.rows, recent)
    requires s.rows[stale].access < s.rows[recent].access
    requires !Shielded(s, exempt, stale)
    requires recent !in s'.rows
    ensures stale !in s'.rows
  {
    var pin, victims :| IsPinDepth(s.rows, cfg.warmKeepN, cfg.maxBytes, pin)
                        && IsVictimSet(cfg, s, exempt, pin, victims)
                        && s' == AfterEviction(cfg, s, victims);
    assert recent in victims;
    assert stale in Eligible(s, exempt, pin);
    assert stale !in victims ==> ScansBefore(s.rows, recent, stale);
  }

  /** The last of a victim set: it had to go. */
  lemma LastVictim(cfg: Config, s: Store, exempt: set<string>, pin: int, victims: set<Key>) returns (last: Key)
    requires IsVictimSet(cfg, s, exempt, pin, victims) && victims != {}
    ensures last in victims && victims <= s.rows.Keys
    ensures forall v :: v in victims ==> ScansBefore(s.rows, v, last)
    ensures Bytes(s.rows - (victims - {last})) > cfg.maxBytes
  {
    hide Rank, Bytes;
    last :| last in victims && (forall v :: v in victims ==> ScansBefore(s.rows, v, last))
            && Bytes(s.rows - (victims - {last})) > cfg.maxBytes;
  }

  /** The row evicted last, shallowest and then used last, had to go: with it the cache would exceed its cap. */
  lemma EvictionStopsInTime(cfg: Config, s: Store, exempt: set<string>, s': Store) returns (last: Key)
    requires Evicts(cfg, s, exempt, s') && s'.rows != s.rows
    ensures last in s.rows && last !in s'.rows
    ensures Bytes(s'.rows) + s.rows[last].gz > cfg.maxBytes
    ensures forall v :: v in s.rows && v !in s'.rows ==>
                          || Rank(s.rows, v) > Rank(s.rows, last)
                          || (Rank(s.rows, v) == Rank(s.rows, last) && s.rows[v].access <= s.rows[last].access)
  {
    hide Rank, Bytes, IsPinDepth, IsVictimSet;
    var pin, victims :| IsPinDepth(s.rows, cfg.warmKeepN, cfg.maxBytes, pin)
                        && IsVictimSet(cfg, s, exempt, pin, victims)
                        && s' == AfterEviction(cfg, s, victims);
    assert victims == {} ==> s.rows - victims == s.rows;
    last := LastVictim(cfg, s, exempt, pin, victims);
    PutBack(s.rows, victims, last);
  }

  lemma PutBack(t: Table, gone: set<Key>, k: Key)
    requires k in gone && k in t
    ensures Bytes(t - (gone - {k})) == Bytes(t - gone) + t[k].gz
  {
    BytesAdd(t - gone, k, t[k]);
    assert (t - gone)[k := t[k]] == t - (gone - {k});
  }

  /** When the cache still exceeds its cap, whatever is left beyond the pin is exempt, or was there when the running sweep began. */
  lemma OverflowIsShielded(cfg: Config, s: Store, exempt: set<string>, s': Store, k: Key)
    requires Evicts(cfg, s, exempt, s')
    requires cfg.maxBytes > 0 && Bytes(s'.rows) > cfg.maxBytes && k in s'.rows
    ensures k in s.rows
    ensures || s.rows[k].repo in exempt || (s.rows[k].repo in s.pending && s.rows[k].rowid <= s.fence)
            || exists pin :: IsPinDepth(s.rows, cfg.warmKeepN, cfg.maxBytes, pin) && Rank(s.rows, k) <= pin
  {
    EvictionShrinks(cfg, s, exempt, s');
    BytesSubset(s'.rows, s.rows);
    var pin, victims := VictimsOf(cfg, s, exempt, s');
  }

  /** An eviction marks exactly the evicted rows within the warm window, for their owners, with size and cap. */
  lemma EvictionMarksExactly(cfg: Config, s: Store, exempt: set<string>, s': Store, m: MarkerKey)
    requires Evicts(cfg, s, exempt, s')
    ensures var marked := && m.key in s.rows && m.key !in s'.rows && s.rows[m.key].repo == m.repo
                          && Rank(s.rows, m.key) <= cfg.warmKeepN;
            && (m in s'.markers <==> marked || m in s.markers)
            && (marked ==> s'.markers[m] == Marker(CapEvicted, s.rows[m.key].gz, cfg.maxBytes))
            && (!marked && m in s.markers ==> s'.markers[m] == s.markers[m])
  {
    if cfg.maxBytes > 0 && Bytes(s.rows) > cfg.maxBytes {
      var pin, victims := VictimsOf(cfg, s, exempt, s');
      hide Rank, IsPinDepth, Eligible, Evicts, Bytes;
      MarkedAre(cfg, s.rows, victims, m);
      hide CapMarked;
    }
  }

  lemma MarkedAre(cfg: Config, t: Table, victims: set<Key>, m: MarkerKey)
    ensures m in CapMarked(cfg, t, victims) <==>
            m.key in victims && m.key in t && t[m.key].repo == m.repo && Rank(t, m.key) <= cfg.warmKeepN
  {
    hide Rank;
  }

  lemma PrefixGrows(t: Table, a: int, b: int)
    requires a <= b
    ensures PrefixBytes(t, a) <= PrefixBytes(t, b) <= Bytes(t)
  {
    BytesSubset(Within(t, a), Within(t, b));
    BytesSubset(Within(t, b), t);
  }

  /** The newest revisions of all snapshots, up to any depth within the warm window, stay whenever together they fit the cap. */
  lemma FittingPrefixStays(cfg: Config, s: Store, exempt: set<string>, s': Store, depth: nat, k: Key)
    requires Evicts(cfg, s, exempt, s') && depth <= cfg.warmKeepN && PrefixBytes(s.rows, depth) <= cfg.maxBytes
    requires k in s.rows && Rank(s.rows, k) <= depth
    ensures k in s'.rows && s'.rows[k] == s.rows[k]
  {
    if cfg.maxBytes > 0 && Bytes(s.rows) > cfg.maxBytes {
      var pin, victims := VictimsOf(cfg, s, exempt, s');
      assert depth <= pin;
      hide Rank, Bytes;
    }
  }

  /** How many newest revisions of every snapshot stay under any pressure. */
  function NewestKept(cfg: Config): nat
  {
    if cfg.warmKeepN < 2 then cfg.warmKeepN else 2
  }

  lemma NewestPinned(cfg: Config, t: Table, pin: int)
    requires cfg.maxBytes > 0 && PrefixBytes(t, NewestKept(cfg)) > cfg.maxBytes
    requires IsPinDepth(t, cfg.warmKeepN, cfg.maxBytes, pin)
    ensures pin == NewestKept(cfg)
  {
    if pin > NewestKept(cfg) {
      PrefixGrows(t, NewestKept(cfg), pin);
    }
  }

  /**
   When the two newest revisions of every snapshot alone exceed the cap, an eviction that
   shields nobody leaves exactly those, or fewer where the warm window is smaller.
   */
  lemma TwoNewestRemain(cfg: Config, s: Store, s': Store)
    requires s.pending == {} && Evicts(cfg, s, {}, s')
    requires cfg.maxBytes > 0 && PrefixBytes(s.rows, NewestKept(cfg)) > cfg.maxBytes
    ensures s'.rows == Within(s.rows, NewestKept(cfg))
  {
    var n := NewestKept(cfg);
    PrefixGrows(s.rows, n, n);
    var pin, victims := VictimsOf(cfg, s, {}, s');
    NewestPinned(cfg, s.rows, pin);
    hide Rank, Bytes, IsPinDepth, Evicts, NewestKept, PrefixBytes, Within;
    OnlyPinnedLeft(cfg, s, n, victims);
  }

  lemma OnlyPinnedLeft(cfg: Config, s: Store, n: nat, victims: set<Key>)
    requires s.pending == {} && victims <= Eligible(s, {}, n) && PrefixBytes(s.rows, n) > cfg.maxBytes
    requires Bytes(s.rows - victims) <= cfg.maxBytes || victims == Eligible(s, {}, n)
    ensures s.rows - victims == Within(s.rows, n)
  {
    hide Rank, Bytes;
    BytesSubset(Within(s.rows, n), s.rows - victims);
    assert s.rows - Eligible(s, {}, n) == Within(s.rows, n);
  }

  /** A put that leaves the cache within its cap evicts nothing. */
  lemma RoomyPutEvictsNothing(cfg: Config, s: Store, k: Key, repo: string, gz: nat, s': Store)
    requires k !in s.rows && Bytes(s.rows) + gz <= cfg.maxBytes
    requires Puts(cfg, s, k, repo, gz, s')
    ensures Upserts(s.rows, k, repo, gz, s'.rows)
    ensures s' == s.(rows := s'.rows)
    ensures Bytes(s'.rows) <= cfg.maxBytes
  {
    var t: Table :| Upserts(s.rows, k, repo, gz, t) && Evicts(cfg, s.(rows := t), {}, s');
    BytesAdd(s.rows, k, t[k]);
  }
}
