/**
 The persistent `list -files` cache as data: its two tables, the rank of a row, the
 pin depth, and what one eviction, put, attempt and reconcile may do to them.
 */
module CacheModel {
  import opened Sums

  /** The immutable identity of one listing. */
  datatype Key = Key(snap: string, storage: string, rev: int)

  datatype Row = Row(rowid: int, repo: string, gz: nat, access: int)

  type Table = map<Key, Row>

  /** Why a revision is not worth listing again. */
  datatype Reason = RowCap | SpoolCeiling | CapEvicted

  datatype Marker = Marker(reason: Reason, gz: int, cap: int)

  datatype MarkerKey = MarkerKey(repo: string, key: Key)

  /** `rowMax` bounds one row, `ceiling` bounds one spooled listing. */
  datatype Config = Config(maxBytes: int, warmKeepN: nat, rowMax: int, ceiling: int)

  /** The two tables plus what a running sweep protects. */
  datatype Store = Store(rows: Table, markers: map<MarkerKey, Marker>, pending: set<string>, fence: int)

  /** How many newest revisions survive even when the pinned set alone exceeds the cap. */
  const MAX_PIN_RELAXED_KEEP: nat := 2

  // ------------------------------------------------------------------------------
  // Ranks and sizes
  // ------------------------------------------------------------------------------

  predicate SamePartition(a: Key, b: Key)
  {
    a.snap == b.snap && a.storage == b.storage
  }

  function Newer(t: Table, k: Key): set<Key>
  {
    set x | x in t && SamePartition(x, k) && x.rev > k.rev
  }

  /** ROW_NUMBER() over the row's partition, newest revision first. */
  function Rank(t: Table, k: Key): nat
  {
    1 + |Newer(t, k)|
  }

  function Within(t: Table, depth: int): Table
  {
    map k | k in t && Rank(t, k) <= depth :: t[k]
  }

  function AtRank(t: Table, depth: int): Table
  {
    map k | k in t && Rank(t, k) == depth :: t[k]
  }

  function Weights(t: Table): map<Key, nat>
  {
    map k | k in t :: t[k].gz
  }

  ghost function Bytes(t: Table): nat
  {
    Total(Weights(t))
  }

  ghost function PrefixBytes(t: Table, depth: int): nat
  {
    Bytes(Within(t, depth))
  }

  function PinFloor(warmN: nat): nat
  {
    if warmN < MAX_PIN_RELAXED_KEEP then warmN else MAX_PIN_RELAXED_KEEP
  }

  /** The one rule for how many newest revisions per partition are warmed and protected. */
  ghost predicate IsPinDepth(t: Table, warmN: nat, cap: int, depth: int)
  {
    if cap <= 0 then depth == warmN
    else
      && PinFloor(warmN) <= depth <= warmN
      && (depth == PinFloor(warmN) || PrefixBytes(t, depth) <= cap)
      && forall d :: depth < d <= warmN ==> PrefixBytes(t, d) > cap
  }

  // ------------------------------------------------------------------------------
  // Eviction
  // ------------------------------------------------------------------------------

  /** Rows the evictor may not touch whatever their rank. */
  predicate Shielded(s: Store, exempt: set<string>, k: Key)
    requires k in s.rows
  {
    s.rows[k].repo in exempt || (s.rows[k].repo in s.pending && s.rows[k].rowid <= s.fence)
  }

  function Eligible(s: Store, exempt: set<string>, pin: int): set<Key>
  {
    set k | k in s.rows && Rank(s.rows, k) > pin && !Shielded(s, exempt, k)
  }

  /** The scan order of the evictor: deepest rank first, then least recently accessed. */
  predicate ScansBefore(t: Table, a: Key, b: Key)
    requires a in t && b in t
  {
    Rank(t, a) > Rank(t, b) || (Rank(t, a) == Rank(t, b) && t[a].access <= t[b].access)
  }

  /** `victims` is a shortest initial part of the scan that brings the cache under the cap. */
  ghost predicate IsVictimSet(cfg: Config, s: Store, exempt: set<string>, pin: int, victims: set<Key>)
  {
    var eligible := Eligible(s, exempt, pin);
    && victims <= eligible
    && (Bytes(s.rows - victims) <= cfg.maxBytes || victims == eligible)
    && (forall v, e :: v in victims && e in eligible - victims ==> ScansBefore(s.rows, v, e))
    && (victims != {} ==>
          exists last :: last in victims
                         && (forall v :: v in victims ==> ScansBefore(s.rows, v, last))
                         && Bytes(s.rows - (victims - {last})) > cfg.maxBytes)
  }

  /** The marker keys of evicted rows that were inside the warm window. */
  function CapMarked(cfg: Config, t: Table, victims: set<Key>): set<MarkerKey>
  {
    set k | k in t && k in victims && Rank(t, k) <= cfg.warmKeepN :: MarkerKey(t[k].repo, k)
  }

  function CapMarkers(cfg: Config, t: Table, victims: set<Key>): map<MarkerKey, Marker>
  {
    map m | m in CapMarked(cfg, t, victims) :: Marker(CapEvicted, t[m.key].gz, cfg.maxBytes)
  }

  function AfterEviction(cfg: Config, s: Store, victims: set<Key>): Store
  {
    s.(rows := s.rows - victims, markers := s.markers + CapMarkers(cfg, s.rows, victims))
  }

  ghost predicate Evicts(cfg: Config, s: Store, exempt: set<string>, s': Store)
  {
    if cfg.maxBytes <= 0 || Bytes(s.rows) <= cfg.maxBytes then s' == s
    else exists pin: int, victims: set<Key> ::
           && IsPinDepth(s.rows, cfg.warmKeepN, cfg.maxBytes, pin)
           && IsVictimSet(cfg, s, exempt, pin, victims)
           && s' == AfterEviction(cfg, s, victims)
  }

  // ------------------------------------------------------------------------------
  // Puts
  // ------------------------------------------------------------------------------

  /** An upsert keeps the rowid of a row that exists and takes an unused one otherwise. */
  ghost predicate Upserts(t: Table, k: Key, repo: string, gz: nat, t': Table)
  {
    && k in t'
    && t' == t[k := t'[k]]
    && t'[k].repo == repo && t'[k].gz == gz
    && (if k in t then t'[k].rowid == t[k].rowid
        else forall x :: x in t ==> t[x].rowid != t'[k].rowid)
  }

  ghost predicate Puts(cfg: Config, s: Store, k: Key, repo: string, gz: nat, s': Store)
  {
    exists t: Table :: Upserts(s.rows, k, repo, gz, t) && Evicts(cfg, s.(rows := t), {}, s')
  }

  // ------------------------------------------------------------------------------
  // The warmer's decision
  // ------------------------------------------------------------------------------

  /** Whether a marker lets the warmer list the revision again. */
  ghost predicate MarkerAdmits(cfg: Config, s: Store, m: Marker)
  {
    match m.reason
    case RowCap => 0 < m.gz <= cfg.rowMax
    case CapEvicted => m.cap != cfg.maxBytes || Bytes(s.rows) + m.gz <= cfg.maxBytes
    case SpoolCeiling => m.cap != cfg.ceiling
  }

  /** `rank` counts the newer candidates of the same snapshot, from zero. */
  ghost predicate Wanted(cfg: Config, s: Store, repo: string, k: Key, rank: nat)
  {
    && (exists pin :: IsPinDepth(s.rows, cfg.warmKeepN, cfg.maxBytes, pin) && rank < pin)
    && k !in s.rows
    && (MarkerKey(repo, k) in s.markers ==> MarkerAdmits(cfg, s, s.markers[MarkerKey(repo, k)]))
  }

  /**
   What running `list -files` on one revision comes to. `Listed` carries the compressed size;
   above the ceiling it stands for a run stopped on the way. `ClosedLate` is a run whose stream
   crosses the ceiling only when the gzip writer is closed, which is reported as a fault of the
   spool and not of the revision.
   */
  datatype Child = ChildFailed | ClosedLate | Listed(gz: nat)

  predicate OverCeiling(cfg: Config, gz: nat) { gz > cfg.ceiling }

  predicate OverRowCap(cfg: Config, gz: nat) { 0 < cfg.rowMax < gz }

  /** A listing becomes a row, or a marker that explains why there is none. */
  ghost predicate Stores(cfg: Config, s: Store, repo: string, k: Key, child: Child, s': Store)
  {
    match child
    case ChildFailed => s' == s
    case ClosedLate => s' == s
    case Listed(gz) =>
      if OverCeiling(cfg, gz) then
        s' == s.(markers := s.markers[MarkerKey(repo, k) := Marker(SpoolCeiling, 0, cfg.ceiling)])
      else if OverRowCap(cfg, gz) then
        s' == s.(markers := s.markers[MarkerKey(repo, k) := Marker(RowCap, gz, 0)])
      else
        Puts(cfg, s, k, repo, gz, s')
  }

  // ------------------------------------------------------------------------------
  // What a sweep learned, and the reconcile against it
  // ------------------------------------------------------------------------------

  datatype Target = Target(repo: string, storage: string)

  datatype SweepState = SweepState(swept: set<Target>, sweptStorage: set<string>,
                                   failed: set<string>, known: set<string>, keep: set<Key>)
  {
    predicate Judges(repo: string, storage: string)
    {
      if repo in failed then false
      else if repo in known then Target(repo, storage) in swept
      else storage in sweptStorage
    }
  }

  predicate Stale(st: SweepState, repo: string, k: Key)
  {
    st.Judges(repo, k.storage) && k !in st.keep
  }

  function Reconciled(s: Store, st: SweepState): Store
  {
    s.(rows := map k | k in s.rows && !Stale(st, s.rows[k].repo, k) :: s.rows[k],
       markers := map m | m in s.markers && !Stale(st, m.repo, m.key) :: s.markers[m])
  }
}
