/** The cache store itself: the operations that change the two tables. */
module FilesCache {
  import opened Sums
  import opened CacheModel
  import opened Eviction
  import opened Sweeps

  /** Running sum of the first `k` ranks; ranks beyond the list hold nothing. */
  function RunSum(perRank: seq<nat>, k: nat): nat
  {
    if k == 0 then 0
    else RunSum(perRank, k - 1) + if k <= |perRank| then perRank[k - 1] else 0
  }

  /** The largest depth in [floor, warmN] whose running sum fits the cap, else the floor. */
  method PinPolicy(perRank: seq<nat>, warmN: nat, maxBytes: int) returns (best: nat)
    ensures maxBytes <= 0 ==> best == warmN
    ensures maxBytes > 0 ==>
              && PinFloor(warmN) <= best <= warmN
              && (best == PinFloor(warmN) || RunSum(perRank, best) <= maxBytes)
              && forall d :: best < d <= warmN ==> RunSum(perRank, d) > maxBytes
  {
    if maxBytes <= 0 {
      return warmN;
    }
    var floor := PinFloor(warmN);
    best := floor;
    var run := 0;
    var k := 1;
    while k <= warmN
      invariant 1 <= k <= warmN + 1
      invariant run == RunSum(perRank, k - 1)
      invariant floor <= best <= warmN
      invariant best == floor || RunSum(perRank, best) <= maxBytes
      invariant forall d :: best < d < k ==> RunSum(perRank, d) > maxBytes
    {
      if k <= |perRank| {
        run := run + perRank[k - 1];
      }
      if k >= floor && run <= maxBytes {
        best := k;
      }
      k := k + 1;
    }
  }

  lemma {:induction false} RunSumIsPrefix(t: Table, perRank: seq<nat>, k: nat)
    requires forall i :: 0 <= i < |perRank| ==> perRank[i] == Bytes(AtRank(t, i + 1))
    requires k <= |perRank|
    ensures RunSum(perRank, k) == PrefixBytes(t, k)
  {
    hide PrefixBytes, Bytes, AtRank;
    if k == 0 {
      NoPrefix(t);
    } else {
      RunSumIsPrefix(t, perRank, k - 1);
      PrefixStep(t, k - 1);
    }
  }

  lemma NoPrefix(t: Table)
    ensures PrefixBytes(t, 0) == 0
  {
    assert Within(t, 0) == map[];
    assert Weights(map[]) == map[];
  }

  lemma {:induction false} FirstInScan(t: Table, keys: set<Key>) returns (k: Key)
    requires keys != {} && keys <= t.Keys
    ensures k in keys && forall x :: x in keys ==> ScansBefore(t, k, x)
    decreases keys
  {
    hide Rank;
    k :| k in keys;
    assert ScansBefore(t, k, k);
    if keys != {k} {
      var rest := keys - {k};
      var j := FirstInScan(t, rest);
      var first := if ScansBefore(t, j, k) then j else k;
      forall x | x in keys
        ensures ScansBefore(t, first, x)
      {
        assert x == k || x in rest;
      }
      k := first;
    }
  }

  lemma BytesDelete(t: Table, gone: set<Key>, k: Key)
    requires k in t && k !in gone
    ensures Bytes(t - gone) == Bytes(t - (gone + {k})) + t[k].gz
  {
    var rest := t - (gone + {k});
    BytesAdd(rest, k, t[k]);
    assert rest[k := t[k]] == t - gone;
  }

  lemma ReconcileStep(cfg: Config, s: Store, st: SweepState, s': Store)
    requires s' == s.(rows := s'.rows, markers := s'.markers)
    requires s'.markers == Reconciled(s, st).markers
    requires s'.rows == s.rows - set k | k in s.rows && Stale(st, s.rows[k].repo, k)
    ensures Step(cfg, s, Reconcile(st), s')
  {
    hide Stale, Evicts, Stores, Wanted, Puts;
    assert s'.rows == Reconciled(s, st).rows;
  }

  lemma FewerRows(t: Table, gone: set<Key>)
    requires gone <= t.Keys
    ensures |t - gone| == |t| - |gone|
  {
    assert (t - gone).Keys == t.Keys - gone;
  }

  lemma NothingStale(t: Table, st: SweepState)
    requires st.sweptStorage == {} && st.swept == {}
    ensures t == t - set k | k in t && Stale(st, t[k].repo, k)
  {
    assert (set k | k in t && Stale(st, t[k].repo, k)) == {};
  }

  lemma NoEviction(cfg: Config, s: Store, exempt: set<string>)
    requires cfg.maxBytes <= 0 || Bytes(s.rows) <= cfg.maxBytes
    ensures Evicts(cfg, s, exempt, s)
  {
  }

  lemma Evicted(cfg: Config, s: Store, exempt: set<string>, pin: int, victims: set<Key>)
    requires cfg.maxBytes > 0 && Bytes(s.rows) > cfg.maxBytes
    requires IsPinDepth(s.rows, cfg.warmKeepN, cfg.maxBytes, pin) && IsVictimSet(cfg, s, exempt, pin, victims)
    ensures Evicts(cfg, s, exempt, AfterEviction(cfg, s, victims))
  {
  }

  datatype EvictedRow = EvictedRow(repo: string, key: Key, gz: nat)

  /** `ids` are the rowids of `gone`. */
  predicate Names(t: Table, ids: seq<int>, gone: set<Key>)
  {
    forall k :: k in t ==> (t[k].rowid in ids <==> k in gone)
  }

  lemma NamesAdd(t: Table, ids: seq<int>, gone: set<Key>, k: Key)
    requires forall a, b :: a in t && b in t && t[a].rowid == t[b].rowid ==> a == b
    requires Names(t, ids, gone) && k in t
    ensures Names(t, ids + [t[k].rowid], gone + {k})
  {
  }

  lemma NamesDelete(t: Table, ids: seq<int>, gone: set<Key>)
    requires Names(t, ids, gone)
    ensures (map k | k in t && t[k].rowid !in ids :: t[k]) == t - gone
  {
  }

  lemma NoneNamed(t: Table)
    ensures Names(t, [], {})
  {
  }

  /** `items` records each row of `gone` that is inside the warm window, once. */
  predicate Records(cfg: Config, t: Table, items: seq<EvictedRow>, gone: set<Key>)
  {
    && (forall i, j :: 0 <= i < j < |items| ==> items[i].key != items[j].key)
    && (forall it :: it in items ==>
                       it.key in t && it.key in gone && Rank(t, it.key) <= cfg.warmKeepN
                       && it.repo == t[it.key].repo && it.gz == t[it.key].gz)
    && (forall k :: k in t && k in gone && Rank(t, k) <= cfg.warmKeepN ==>
                      EvictedRow(t[k].repo, k, t[k].gz) in items)
  }

  function Recorded(cfg: Config, t: Table, items: seq<EvictedRow>, k: Key): seq<EvictedRow>
    requires k in t
  {
    if Rank(t, k) <= cfg.warmKeepN then items + [EvictedRow(t[k].repo, k, t[k].gz)] else items
  }

  lemma RecordsAdd(cfg: Config, t: Table, items: seq<EvictedRow>, gone: set<Key>, k: Key)
    requires Records(cfg, t, items, gone) && k in t && k !in gone
    ensures Records(cfg, t, Recorded(cfg, t, items, k), gone + {k})
  {
    hide Rank;
  }

  /** A shortest initial part of the scan so far: dropping its last row would leave the cache over the cap. */
  ghost predicate Tight(cfg: Config, t: Table, gone: set<Key>)
  {
    gone != {} ==>
      exists last :: last in gone && last in t
                     && (forall v :: v in gone ==> v in t && ScansBefore(t, v, last))
                     && Bytes(t - (gone - {last})) > cfg.maxBytes
  }

  lemma TightAdd(cfg: Config, t: Table, gone: set<Key>, k: Key)
    requires k in t && k !in gone && Bytes(t - gone) > cfg.maxBytes
    requires forall v :: v in gone ==> v in t && ScansBefore(t, v, k)
    ensures Tight(cfg, t, gone + {k})
  {
    assert gone + {k} - {k} == gone;
    assert ScansBefore(t, k, k);
  }

  lemma RecordedOnce(cfg: Config, t: Table, items: seq<EvictedRow>, gone: set<Key>)
    requires Records(cfg, t, items, gone)
    ensures forall i, j :: 0 <= i < j < |items| ==> items[i].key != items[j].key
  {
    hide Rank;
  }

  lemma NoneRecorded(cfg: Config, t: Table)
    ensures Records(cfg, t, [], {})
  {
  }

  lemma NothingTight(cfg: Config, t: Table)
    ensures Tight(cfg, t, {})
  {
  }

  /** Scanning on from `gone` ends with a victim set. */
  lemma {:induction false} VictimsFrom(cfg: Config, s: Store, exempt: set<string>, pin: int, gone: set<Key>)
    returns (victims: set<Key>)
    requires gone <= Eligible(s, exempt, pin) && Tight(cfg, s.rows, gone)
    requires forall v, e :: v in gone && e in Eligible(s, exempt, pin) - gone ==> ScansBefore(s.rows, v, e)
    ensures IsVictimSet(cfg, s, exempt, pin, victims)
    decreases Eligible(s, exempt, pin) - gone
  {
    hide Rank, Bytes;
    var eligible := Eligible(s, exempt, pin);
    if Bytes(s.rows - gone) <= cfg.maxBytes || gone == eligible {
      victims := gone;
    } else {
      var some :| some in eligible && some !in gone;
      assert some in eligible - gone;
      var k := FirstInScan(s.rows, eligible - gone);
      TightAdd(cfg, s.rows, gone, k);
      hide Tight, IsVictimSet;
      victims := VictimsFrom(cfg, s, exempt, pin, gone + {k});
    }
  }

  /** Whatever the tables, the configuration and the exemptions: there is an eviction. */
  lemma EvictionExists(cfg: Config, s: Store, exempt: set<string>) returns (s': Store)
    ensures Evicts(cfg, s, exempt, s')
  {
    hide Rank, Bytes, IsVictimSet, IsPinDepth, Tight;
    if cfg.maxBytes <= 0 || Bytes(s.rows) <= cfg.maxBytes {
      s' := s;
    } else {
      var pin := PinExists(s.rows, cfg.warmKeepN, cfg.maxBytes);
      NothingTight(cfg, s.rows);
      var victims := VictimsFrom(cfg, s, exempt, pin, {});
      s' := AfterEviction(cfg, s, victims);
    }
  }

  /** The markers after INSERT OR REPLACE of one `cap_evicted` marker per item. */
  function WithMarks(markers: map<MarkerKey, Marker>, cap: int, items: seq<EvictedRow>): map<MarkerKey, Marker>
  {
    if items == [] then markers
    else
      var last := items[|items| - 1];
      WithMarks(markers, cap, items[..|items| - 1])[MarkerKey(last.repo, last.key) := Marker(CapEvicted, last.gz, cap)]
  }

  function MarkOf(it: EvictedRow): MarkerKey
  {
    MarkerKey(it.repo, it.key)
  }

  lemma {:induction false} MarkSet(markers: map<MarkerKey, Marker>, cap: int, items: seq<EvictedRow>, it: EvictedRow)
    requires it in items && forall i, j :: 0 <= i < j < |items| ==> items[i].key != items[j].key
    ensures MarkOf(it) in WithMarks(markers, cap, items)
    ensures WithMarks(markers, cap, items)[MarkOf(it)] == Marker(CapEvicted, it.gz, cap)
  {
    var init, last := items[..|items| - 1], items[|items| - 1];
    if it != last {
      assert it in init;
      MarkSet(markers, cap, init, it);
      var i :| 0 <= i < |init| && init[i] == it;
      assert items[i].key != last.key;
    }
  }

  lemma {:induction false} MarkKept(markers: map<MarkerKey, Marker>, cap: int, items: seq<EvictedRow>, m: MarkerKey)
    requires forall it :: it in items ==> MarkOf(it) != m
    ensures m in WithMarks(markers, cap, items) <==> m in markers
    ensures m in markers ==> WithMarks(markers, cap, items)[m] == markers[m]
  {
    if items != [] {
      MarkKept(markers, cap, items[..|items| - 1], m);
      assert MarkOf(items[|items| - 1]) != m;
    }
  }

  lemma MarkersRecorded(cfg: Config, s: Store, gone: set<Key>, items: seq<EvictedRow>)
    requires Records(cfg, s.rows, items, gone)
    ensures WithMarks(s.markers, cfg.maxBytes, items) == AfterEviction(cfg, s, gone).markers
  {
    RecordedOnce(cfg, s.rows, items, gone);
    var marked := CapMarked(cfg, s.rows, gone);
    var after, want := WithMarks(s.markers, cfg.maxBytes, items), AfterEviction(cfg, s, gone).markers;
    hide Rank, Records, WithMarks, CapMarked;
    forall m: MarkerKey
      ensures (m in after <==> m in want) && (m in after ==> after[m] == want[m])
    {
      if m in marked {
        RecordFor(cfg, s.rows, gone, items, m);
        MarkSet(s.markers, cfg.maxBytes, items, EvictedRow(m.repo, m.key, s.rows[m.key].gz));
      } else {
        NoRecordFor(cfg, s.rows, gone, items, m);
        MarkKept(s.markers, cfg.maxBytes, items, m);
      }
    }
  }

  lemma NoRecordFor(cfg: Config, t: Table, gone: set<Key>, items: seq<EvictedRow>, m: MarkerKey)
    requires Records(cfg, t, items, gone) && m !in CapMarked(cfg, t, gone)
    ensures forall it :: it in items ==> MarkOf(it) != m
  {
    hide Rank;
  }

  lemma RecordFor(cfg: Config, t: Table, gone: set<Key>, items: seq<EvictedRow>, m: MarkerKey)
    requires Records(cfg, t, items, gone) && m in CapMarked(cfg, t, gone)
    ensures m.key in t && EvictedRow(m.repo, m.key, t[m.key].gz) in items
  {
    hide Rank;
  }

  /** The loop's facts add up to a victim set. */
  lemma VictimsCollected(cfg: Config, s: Store, exempt: set<string>, pin: nat, scan: seq<Key>, n: nat, gone: set<Key>)
    requires n <= |scan|
    requires forall k :: k in scan <==> k in s.rows && Rank(s.rows, k) > pin
    requires forall i, j :: 0 <= i < j < |scan| ==> ScansBefore(s.rows, scan[i], scan[j])
    requires gone == set k | k in scan[..n] && k in s.rows && !Shielded(s, exempt, k)
    requires Tight(cfg, s.rows, gone)
    requires n == |scan| || Bytes(s.rows - gone) <= cfg.maxBytes
    ensures IsVictimSet(cfg, s, exempt, pin, gone)
  {
    hide Rank, Bytes;
    var eligible := Eligible(s, exempt, pin);
    forall v, e | v in gone && e in eligible - gone
      ensures ScansBefore(s.rows, v, e)
    {
      var i :| 0 <= i < n && scan[i] == v;
      var j :| 0 <= j < |scan| && scan[j] == e;
      assert j < n ==> scan[..n][j] == e;
    }
    assert n == |scan| ==> scan[..n] == scan && gone == eligible;
  }

  /** A hit defers eviction: the row served goes after every equally deep one that was used before the hit. */
  lemma HitDefersEviction(cfg: Config, s: Store, k: Key, at: int, hit: Store, exempt: set<string>, s': Store, other: Key)
    requires Step(cfg, s, Touch(k, at), hit) && Evicts(cfg, hit, exempt, s')
    requires k in s.rows && other in s.rows && other != k && Rank(s.rows, other) == Rank(s.rows, k)
    requires s.rows[other].access < at && !Shielded(s, exempt, other)
    requires k !in s'.rows
    ensures other !in s'.rows
  {
    forall x
      ensures Newer(hit.rows, x) == Newer(s.rows, x)
    {
    }
    hide Evicts;
    LeastRecentGoesFirst(cfg, hit, exempt, s', other, k);
  }

  class FilesCache {
    const cfg: Config
    var rows: Table
    var markers: map<MarkerKey, Marker>
    var pending: set<string>
    var fence: int

    ghost function Abs(): Store
      reads this
    {
      Store(rows, markers, pending, fence)
    }

    /** Rowids identify rows. */
    ghost predicate Valid()
      reads this
    {
      forall a, b :: a in rows && b in rows && rows[a].rowid == rows[b].rowid ==> a == b
    }

    constructor (cfg: Config)
      ensures Valid() && this.cfg == cfg && Abs() == Store(map[], map[], {}, 0)
    {
      this.cfg := cfg;
      rows, markers, pending, fence := map[], map[], {}, 0;
    }

    // ----------------------------------------------------------------------------
    // Queries
    // ----------------------------------------------------------------------------

    method MaxRowid() returns (m: int)
      ensures IsFence(rows, m)
    {
      m := 0;
      var todo := rows.Keys;
      while todo != {}
        invariant todo <= rows.Keys
        invariant forall k :: k in rows.Keys - todo ==> rows[k].rowid <= m
        invariant if todo == rows.Keys then m == 0 else exists k :: k in rows && rows[k].rowid == m
        decreases todo
      {
        var k :| k in todo;
        if todo == rows.Keys || rows[k].rowid > m {
          m := rows[k].rowid;
        }
        todo := todo - {k};
      }
    }

    method TotalBytes() returns (sum: nat)
      ensures sum == Bytes(rows)
    {
      sum := SumValues(Weights(rows));
    }

    method BytesAtRank(rank: nat) returns (sum: nat)
      ensures sum == Bytes(AtRank(rows, rank))
    {
      sum := SumValues(Weights(AtRank(rows, rank)));
    }

    /** The pin policy applied to the cache as it is. */
    method EffectivePinN() returns (pin: nat)
      ensures IsPinDepth(rows, cfg.warmKeepN, cfg.maxBytes, pin)
    {
      if cfg.maxBytes <= 0 || cfg.warmKeepN <= MAX_PIN_RELAXED_KEEP {
        return cfg.warmKeepN;
      }
      var perRank: seq<nat> := [];
      while |perRank| < cfg.warmKeepN
        invariant |perRank| <= cfg.warmKeepN
        invariant forall i :: 0 <= i < |perRank| ==> perRank[i] == Bytes(AtRank(rows, i + 1))
      {
        var b := BytesAtRank(|perRank| + 1);
        perRank := perRank + [b];
      }
      pin := PinPolicy(perRank, cfg.warmKeepN, cfg.maxBytes);
      forall d: nat | d <= cfg.warmKeepN
        ensures RunSum(perRank, d) == PrefixBytes(rows, d)
      {
        RunSumIsPrefix(rows, perRank, d);
      }
    }

    /** The rows beyond the pin, deepest rank first, then least recently accessed. */
    method RankedScan(pin: nat) returns (scan: seq<Key>)
      ensures forall k :: k in scan <==> k in rows && Rank(rows, k) > pin
      ensures forall i, j :: 0 <= i < j < |scan| ==> scan[i] != scan[j]
      ensures forall i, j :: 0 <= i < j < |scan| ==>
                               || Rank(rows, scan[i]) > Rank(rows, scan[j])
                               || (Rank(rows, scan[i]) == Rank(rows, scan[j]) && rows[scan[i]].access <= rows[scan[j]].access)
    {
      hide Rank;
      scan := [];
      var todo := set k | k in rows && Rank(rows, k) > pin;
      while todo != {}
        invariant todo <= rows.Keys && forall k :: k in scan ==> k in rows && k !in todo
        invariant forall k :: k in scan || k in todo <==> k in rows && Rank(rows, k) > pin
        invariant forall i, j :: 0 <= i < j < |scan| ==> scan[i] != scan[j]
        invariant forall i, j :: 0 <= i < j < |scan| ==> ScansBefore(rows, scan[i], scan[j])
        invariant forall i, x :: 0 <= i < |scan| && x in todo ==> ScansBefore(rows, scan[i], x)
        decreases todo
      {
        ghost var first := FirstInScan(rows, todo);
        var k :| k in todo && forall x :: x in todo ==> ScansBefore(rows, k, x);
        scan := scan + [k];
        todo := todo - {k};
      }
    }

    // ----------------------------------------------------------------------------
    // Updates
    // ----------------------------------------------------------------------------

    /** Rowids identify rows, so deleting by the rowids of `gone` deletes `gone` and nothing else. */
    method DeleteByRowID(ids: seq<int>, ghost gone: set<Key>)
      requires Valid() && Names(rows, ids, gone)
      modifies this`rows
      ensures Valid() && rows == old(rows) - gone
    {
      hide Names;
      NamesDelete(rows, ids, gone);
      if |ids| == 0 {
        assert rows == map k | k in rows && rows[k].rowid !in ids :: rows[k];
        return;
      }
      rows := map k | k in rows && rows[k].rowid !in ids :: rows[k];
    }

    method MarkCapEvicted(items: seq<EvictedRow>)
      modifies this`markers
      ensures markers == WithMarks(old(markers), cfg.maxBytes, items)
    {
      var n := 0;
      while n < |items|
        invariant 0 <= n <= |items|
        invariant markers == WithMarks(old(markers), cfg.maxBytes, items[..n])
      {
        assert items[..n + 1][..n] == items[..n];
        markers := markers[MarkerKey(items[n].repo, items[n].key) := Marker(CapEvicted, items[n].gz, cfg.maxBytes)];
        n := n + 1;
      }
      assert items[..n] == items;
    }

    /** Scans until enough is freed; skips what exemptions and the pending sweep shield. */
    method CollectVictims(exempt: set<string>, pin: nat, need: nat)
      returns (victims: seq<int>, evicted: seq<EvictedRow>, ghost gone: set<Key>)
      requires Valid() && need > 0 && need + cfg.maxBytes == Bytes(rows)
      ensures Names(rows, victims, gone) && (victims == [] <==> gone == {})
      ensures Records(cfg, rows, evicted, gone)
      ensures IsVictimSet(cfg, Abs(), exempt, pin, gone)
    {
      hide Rank, Bytes, Tight, IsVictimSet, Names, Records;
      var scan := RankedScan(pin);
      victims, evicted, gone := [], [], {};
      var freed := 0;
      var i := 0;
      assert rows - gone == rows;
      NothingTight(cfg, rows);
      NoneNamed(rows);
      NoneRecorded(cfg, rows);
      while i < |scan| && freed < need
        invariant 0 <= i <= |scan|
        invariant gone == set k | k in scan[..i] && k in rows && !Shielded(Abs(), exempt, k)
        invariant Names(rows, victims, gone) && (victims == [] <==> gone == {})
        invariant Records(cfg, rows, evicted, gone)
        invariant Bytes(rows - gone) + freed == Bytes(rows)
        invariant Tight(cfg, rows, gone)
      {
        var k := scan[i];
        var r := rows[k];
        i := i + 1;
        assert scan[..i] == scan[..i - 1] + [k];
        if r.repo in exempt {
          continue;
        }
        if r.repo in pending && r.rowid <= fence {
          continue;
        }
        assert k !in scan[..i - 1];
        NamesAdd(rows, victims, gone, k);
        RecordsAdd(cfg, rows, evicted, gone, k);
        BytesDelete(rows, gone, k);
        TightAdd(cfg, rows, gone, k);
        victims := victims + [r.rowid];
        if Rank(rows, k) <= cfg.warmKeepN {
          evicted := evicted + [EvictedRow(r.repo, k, r.gz)];
        }
        freed := freed + r.gz;
        gone := gone + {k};
      }
      VictimsCollected(cfg, Abs(), exempt, pin, scan, i, gone);
    }

    /** Deletes rows, deepest revisions first, until the cache is under its cap or nothing may go. */
    method EvictBySize(exempt: set<string>)
      requires Valid()
      modifies this`rows, this`markers
      ensures Valid() && Evicts(cfg, old(Abs()), exempt, Abs())
    {
      hide Rank, Bytes, IsPinDepth, IsVictimSet, Evicts, Names, Records, AfterEviction;
      if cfg.maxBytes <= 0 {
        NoEviction(cfg, Abs(), exempt);
        return;
      }
      var total := TotalBytes();
      if total <= cfg.maxBytes {
        NoEviction(cfg, Abs(), exempt);
        return;
      }
      var need := total - cfg.maxBytes;
      var pin := EffectivePinN();
      var victims, evicted, gone := CollectVictims(exempt, pin, need);
      Evicted(cfg, Abs(), exempt, pin, gone);
      if |victims| == 0 {
        NothingEvicted(cfg, Abs());
        return;
      }
      DeleteVictims(victims, evicted, gone);
    }

    method DeleteVictims(victims: seq<int>, evicted: seq<EvictedRow>, ghost gone: set<Key>)
      requires Valid() && Names(rows, victims, gone) && Records(cfg, rows, evicted, gone)
      modifies this`rows, this`markers
      ensures Valid() && Abs() == AfterEviction(cfg, old(Abs()), gone)
    {
      hide Rank, Names, Records, CapMarkers, WithMarks;
      MarkersRecorded(cfg, Abs(), gone, evicted);
      DeleteByRowID(victims, gone);
      MarkCapEvicted(evicted);
    }

    /** Upserts one complete listing, then enforces the size cap. */
    method PutGzipped(k: Key, repo: string, gz: nat, now: int)
      requires Valid()
      modifies this`rows, this`markers
      ensures Valid() && Puts(cfg, old(Abs()), k, repo, gz, Abs())
      ensures k in rows ==> rows[k].access == now && rows[k].repo == repo && rows[k].gz == gz
      ensures k in rows && k !in old(rows) ==> IsFence(old(rows), rows[k].rowid - 1)
    {
      hide Evicts;
      var rowid;
      if k in rows {
        rowid := rows[k].rowid;
      } else {
        var m := MaxRowid();
        rowid := m + 1;
      }
      rows := rows[k := Row(rowid, repo, gz, now)];
      assert Upserts(old(rows), k, repo, gz, rows);
      label upserted:
      assert old@upserted(Abs()) == old(Abs()).(rows := rows);
      EvictBySize({});
      EvictionShrinks(cfg, old@upserted(Abs()), {}, Abs());
    }

    method MarkUncacheable(repo: string, k: Key, m: Marker)
      modifies this`markers
      ensures markers == old(markers)[MarkerKey(repo, k) := m]
    {
      markers := markers[MarkerKey(repo, k) := m];
    }

    /** A hit refreshes the row's access time and nothing else. */
    method Touch(k: Key, now: int)
      requires Valid()
      modifies this`rows
      ensures Valid() && Step(cfg, old(Abs()), Event.Touch(k, now), Abs())
      ensures rows.Keys == old(rows).Keys && forall x :: x in rows && x != k ==> rows[x] == old(rows)[x]
      ensures k in rows ==> rows[k].access == now && rows[k] == old(rows)[k].(access := now)
    {
      rows := Touched(rows, k, now);
    }

    /** A row that could not be served in full is removed, so that the next request lists the revision again. */
    method Drop(k: Key)
      requires Valid()
      modifies this`rows
      ensures Valid() && Step(cfg, old(Abs()), Event.Drop(k), Abs()) && rows == old(rows) - {k}
    {
      rows := rows - {k};
    }

    // ----------------------------------------------------------------------------
    // What a running sweep protects
    // ----------------------------------------------------------------------------

    method SweepBegin(repoIDs: seq<string>)
      modifies this`pending, this`fence
      ensures Step(cfg, old(Abs()), Begin(set id | id in repoIDs), Abs())
      ensures (forall id :: id in pending <==> id in repoIDs) && forall k :: k in rows ==> rows[k].rowid <= fence
      ensures if rows == map[] then fence == 0 else exists k :: k in rows && rows[k].rowid == fence
    {
      fence := MaxRowid();
      pending := {};
      var i := 0;
      while i < |repoIDs|
        invariant 0 <= i <= |repoIDs|
        invariant pending == set id | id in repoIDs[..i]
        invariant IsFence(rows, fence)
      {
        assert repoIDs[..i + 1] == repoIDs[..i] + [repoIDs[i]];
        pending := pending + {repoIDs[i]};
        i := i + 1;
      }
      assert repoIDs[..i] == repoIDs;
    }

    method SweepRepoDone(repo: string)
      modifies this`pending
      ensures Step(cfg, old(Abs()), RepoDone(repo), Abs()) && pending == old(pending) - {repo}
    {
      pending := pending - {repo};
    }

    method SweepEnd()
      modifies this`pending
      ensures Step(cfg, old(Abs()), End, Abs()) && pending == {}
    {
      pending := {};
    }

    // ----------------------------------------------------------------------------
    // Reconcile
    // ----------------------------------------------------------------------------

    method ReconcileMarkers(st: SweepState)
      requires st.swept != {} ==> st.sweptStorage != {}
      modifies this`markers
      ensures markers == Reconciled(old(Abs()), st).markers
    {
      if st.sweptStorage == {} {
        assert forall m :: m in markers ==> !Stale(st, m.repo, m.key);
        return;
      }
      var victims: set<MarkerKey> := {};
      var todo := markers.Keys;
      while todo != {}
        invariant todo <= markers.Keys && markers == old(markers)
        invariant victims == set m | m in markers.Keys - todo && Stale(st, m.repo, m.key)
        decreases todo
      {
        var m :| m in todo;
        if st.Judges(m.repo, m.key.storage) && m.key !in st.keep {
          victims := victims + {m};
        }
        todo := todo - {m};
      }
      markers := markers - victims;
    }

    /** Deletes the rows and markers the sweep found no longer live, and says how many rows went. */
    method ReconcileAgainstKeep(st: SweepState) returns (n: nat)
      requires Valid()
      requires st.swept != {} ==> st.sweptStorage != {}
      modifies this`rows, this`markers
      ensures Valid() && Step(cfg, old(Abs()), Reconcile(st), Abs())
      ensures n == |old(rows)| - |rows|
    {
      hide Names, Step;
      ReconcileMarkers(st);
      if st.sweptStorage == {} {
        NothingStale(rows, st);
        ReconcileStep(cfg, old(Abs()), st, Abs());
        return 0;
      }
      hide Stale;
      var victims, gone := StaleRows(st);
      DeleteByRowID(victims, gone);
      FewerRows(old(rows), gone);
      ReconcileStep(cfg, old(Abs()), st, Abs());
      n := |victims|;
    }

    method StaleRows(st: SweepState) returns (victims: seq<int>, ghost gone: set<Key>)
      requires Valid()
      ensures gone == set k | k in rows && Stale(st, rows[k].repo, k)
      ensures Names(rows, victims, gone) && |victims| == |gone|
    {
      hide Stale;
      victims, gone := [], {};
      var todo := rows.Keys;
      while todo != {}
        invariant todo <= rows.Keys
        invariant gone == set k | k in rows.Keys - todo && Stale(st, rows[k].repo, k)
        invariant Names(rows, victims, gone) && |victims| == |gone|
        decreases todo
      {
        var k :| k in todo;
        if Stale(st, rows[k].repo, k) {
          victims := victims + [rows[k].rowid];
          gone := gone + {k};
        }
        todo := todo - {k};
      }
    }
  }
}
